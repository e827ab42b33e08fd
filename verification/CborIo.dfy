/** The Writer and Reader objects of include/swpasskey/cbor/cbor.hpp, proved against the functions of Cbor. */
module CborIo {
  import opened Bytes
  import opened Statuses
  import opened Cbor

  class Writer {
    var buf: seq<Byte>

    constructor ()
      ensures buf == []
    {
      buf := [];
    }

    method AppendType(major: Major, n: nat)
      modifies this
      ensures buf == old(buf) + Head(major, n)
    {
      var mt := major * 32;
      if n < 24 {
        buf := buf + [mt + n];
      } else if n <= 0xFF {
        buf := buf + [mt + 24];
        buf := buf + [n % 256];
      } else if n <= 0xFFFF {
        buf := buf + [mt + 25];
        buf := buf + [n / 0x100 % 256, n % 256];
        assert BigEndian(n, 2) == BigEndian(n / 0x100, 1) + [n % 256];
      } else if n <= 0xFFFF_FFFF {
        buf := buf + [mt + 26];
        buf := buf + [n / 0x100 / 0x100 / 0x100 % 256, n / 0x100 / 0x100 % 256, n / 0x100 % 256, n % 256];
        assert BigEndian(n, 4) == BigEndian(n / 0x100 / 0x100, 2) + [n / 0x100 % 256, n % 256];
      } else {
        buf := buf + [mt + 27];
        ghost var start := buf;
        var i := 8;
        while i > 0
          invariant 0 <= i <= 8
          invariant buf == start + BigEndian(Shifted(n, i), 8 - i)
        {
          i := i - 1;
          buf := buf + [Shifted(n, i) % 256];
        }
      }
    }

    /** n >> (8 * i). */
    static function Shifted(n: nat, i: nat): nat {
      if i == 0 then n else Shifted(n, i - 1) / 256
    }

    method WriteUint(v: nat)
      modifies this
      ensures buf == old(buf) + EncUint(v)
    {
      AppendType(UINT, v);
    }

    method WriteInt(v: int)
      modifies this
      ensures buf == old(buf) + EncInt(v)
    {
      if v >= 0 {
        WriteUint(v);
        return;
      }
      AppendType(NINT, -1 - v);
    }

    method WriteBstr(v: seq<Byte>)
      modifies this
      ensures buf == old(buf) + EncBstr(v)
    {
      AppendType(BSTR, |v|);
      buf := buf + v;
    }

    method WriteTstr(v: seq<Byte>)
      modifies this
      ensures buf == old(buf) + EncTstr(v)
    {
      AppendType(TSTR, |v|);
      buf := buf + v;
    }

    method WriteBool(v: bool)
      modifies this
      ensures buf == old(buf) + EncBool(v)
    {
      buf := buf + [if v then 0xF5 else 0xF4];
    }

    method WriteArrayHeader(n: nat)
      modifies this
      ensures buf == old(buf) + Head(ARRAY, n)
    {
      AppendType(ARRAY, n);
    }

    method WriteRaw(encoded: seq<Byte>)
      modifies this
      ensures buf == old(buf) + encoded
    {
      buf := buf + encoded;
    }

    static lemma CatStep(b: seq<Byte>, es: seq<Entry>, i: nat)
      requires i < |es|
      ensures b + es[i].key + es[i].val + Cat(es[i + 1..]) == b + Cat(es[i..])
    {
      assert es[i..][1..] == es[i + 1..];
    }

    static lemma CatAll(start: seq<Byte>, before: seq<Byte>, es: seq<Entry>)
      requires start == before + Head(MAP, |SortByKey(es)|)
      ensures start + Cat(SortByKey(es)) == before + EncodeMap(es)
    {
      hide Head, Cat, SortByKey;
    }

    static lemma CatNone(b: seq<Byte>)
      ensures b + Cat([]) == b
    {
    }

    method WriteMap(es: seq<Entry>)
      modifies this
      ensures buf == old(buf) + EncodeMap(es)
    {
      hide Cat, EncodeMap, Head, SortByKey;
      var entries := SortByKey(es);
      AppendType(MAP, |entries|);
      ghost var start := buf;
      assert entries[0..] == entries;
      var i := 0;
      while i < |entries|
        invariant 0 <= i <= |entries|
        invariant buf + Cat(entries[i..]) == start + Cat(entries)
      {
        CatStep(buf, entries, i);
        buf := buf + entries[i].key;
        buf := buf + entries[i].val;
        i := i + 1;
      }
      assert entries[|entries|..] == [];
      CatNone(buf);
      CatAll(start, old(buf), es);
    }
  }

  /** A reader call's outcome r, with rest left to read, agrees with the parser's outcome p. */
  ghost predicate Agrees<T>(r: Result<T>, rest: seq<Byte>, p: Parsed<T>) {
    match p
    case Ok(v, t) => r == Success(v) && rest == t
    case Err(e) => r == Failure(e)
  }

  class Reader {
    const input: seq<Byte>
    var off: nat
    ghost var heads: nat  // calls of TakeHead so far

    ghost predicate Valid()
      reads this
    {
      off <= |input|
    }

    ghost function Rest(): (s: seq<Byte>)
      reads this
      requires Valid()
    {
      input[off..]
    }

    constructor (bytes: seq<Byte>)
      ensures Valid() && Rest() == bytes && input == bytes && off == 0 && heads == 0
    {
      input := bytes;
      off := 0;
      heads := 0;
    }

    static lemma OneMoreByte(s: seq<Byte>, from: nat, i: nat)
      requires from <= i < |s|
      ensures FromBigEndian(s[from..i + 1]) == FromBigEndian(s[from..i]) * 256 + s[i]
    {
      hide FromBigEndian;
      assert s[from..i + 1][..i - from] == s[from..i] && s[from..i + 1] != [];
      LastByte(s[from..i + 1]);
    }

    static lemma LastByte(s: seq<Byte>)
      requires s != []
      ensures FromBigEndian(s) == FromBigEndian(s[..|s| - 1]) * 256 + s[|s| - 1]
    {
    }

    /** The argument's own bytes, most significant first. */
    method TakeArgument(extra: nat) returns (n: nat)
      requires Valid() && 0 < extra && off + extra <= |input|
      modifies `off
      ensures off == old(off) + extra && n == FromBigEndian(input[old(off)..off])
    {
      hide FromBigEndian;
      n := 0;
      ghost var start := off;
      var i := 0;
      assert input[start..off] == [];
      NoBytes();
      while i < extra
        invariant 0 <= i <= extra && off == start + i
        invariant n == FromBigEndian(input[start..off])
      {
        OneMoreByte(input, start, off);
        n := n * 256 + input[off];
        off := off + 1;
        i := i + 1;
      }
    }

    static lemma NoBytes()
      ensures FromBigEndian([]) == 0
    {
    }

    method TakeHead() returns (r: Result<(Major, U64)>)
      requires Valid()
      modifies this
      ensures Valid() && heads == old(heads) + 1
      ensures match Cbor.TakeHead(old(Rest()))
              case Ok(h, t) => r == Success((h.0, h.1.n)) && Rest() == t && off > old(off)
              case Err(e) => r == Failure(e) && off >= old(off)
    {
      hide FromBigEndian, Pow256;
      heads := heads + 1;
      ghost var s := Rest();
      if off >= |input| {
        return Failure(InvalidCbor);
      }
      var ib := input[off];
      off := off + 1;
      var major, ai: Info := ib / 32, ib % 32;
      if ai == 31 {
        return Failure(InvalidCbor);
      }
      var n: nat, extra := ai, 0;
      if ai == 24 {
        extra := 1;
      } else if ai == 25 {
        extra := 2;
      } else if ai == 26 {
        extra := 4;
      } else if ai == 27 {
        extra := 8;
      } else if ai > 27 {
        return Failure(InvalidCbor);
      }
      assert extra == Extra(ai);
      if extra > 0 {
        if off + extra > |input| {
          return Failure(InvalidCbor);
        }
        assert s[1..1 + extra] == input[off..off + extra];
        n := TakeArgument(extra);
      }
      assert Rest() == s[1 + extra..];
      assert n == Cbor.TakeHead(s).value.1.n;
      var m: Major, v: U64 := major, n;
      return Success((m, v));
    }

    method TakeBytes(n: nat) returns (r: Result<seq<Byte>>)
      requires Valid()
      modifies `off
      ensures Valid() && off >= old(off)
      ensures Agrees(r, Rest(), Cbor.TakeBytes(old(Rest()), n))
      ensures r.Failure? ==> off == old(off)
    {
      if n > |input| - off {
        return Failure(InvalidCbor);
      }
      assert Rest()[..n] == input[off..off + n];
      r := Success(input[off..off + n]);
      off := off + n;
    }

    method TakeMajor(major: Major) returns (r: Result<U64>)
      requires Valid()
      modifies this
      ensures Valid()
      ensures Agrees(r, Rest(), Cbor.TakeMajor(old(Rest()), major))
    {
      var h :- TakeHead();
      if h.0 != major {
        return Failure(CborUnexpectedType);
      }
      return Success(h.1);
    }

    method Uint() returns (r: Result<U64>)
      requires Valid()
      modifies this
      ensures Valid() && Agrees(r, Rest(), ReadUint(old(Rest())))
    {
      r := TakeMajor(UINT);
    }

    method Integer() returns (r: Result<int>)
      requires Valid()
      modifies this
      ensures Valid() && Agrees(r, Rest(), ReadInteger(old(Rest())))
    {
      var h :- TakeHead();
      if h.0 == UINT {
        if h.1 > TWO63 - 1 {
          return Failure(InvalidCbor);
        }
        return Success(h.1);
      }
      if h.0 == NINT {
        if h.1 > TWO63 - 1 {
          return Failure(InvalidCbor);
        }
        return Success(-1 - h.1);
      }
      return Failure(CborUnexpectedType);
    }

    method ReadStr(major: Major) returns (r: Result<Blob>)
      requires Valid()
      modifies this
      ensures Valid() && Agrees(r, Rest(), ReadString(old(Rest()), major))
    {
      var n :- TakeMajor(major);
      r := TakeBytes(n);
    }

    method Bstr() returns (r: Result<Blob>)
      requires Valid()
      modifies this
      ensures Valid() && Agrees(r, Rest(), ReadBstr(old(Rest())))
    {
      r := ReadStr(BSTR);
    }

    method Tstr() returns (r: Result<Blob>)
      requires Valid()
      modifies this
      ensures Valid() && Agrees(r, Rest(), ReadTstr(old(Rest())))
    {
      r := ReadStr(TSTR);
    }

    method Boolean() returns (r: Result<bool>)
      requires Valid()
      modifies this
      ensures Valid() && Agrees(r, Rest(), ReadBool(old(Rest())))
    {
      if off >= |input| {
        return Failure(InvalidCbor);
      }
      var ib := input[off];
      off := off + 1;
      if ib == 0xF4 {
        return Success(false);
      }
      if ib == 0xF5 {
        return Success(true);
      }
      return Failure(CborUnexpectedType);
    }

    method MapHeader() returns (r: Result<U64>)
      requires Valid()
      modifies this
      ensures Valid() && Agrees(r, Rest(), ReadMap(old(Rest())))
    {
      r := TakeMajor(MAP);
    }

    method ArrayHeader() returns (r: Result<U64>)
      requires Valid()
      modifies this
      ensures Valid() && Agrees(r, Rest(), ReadArray(old(Rest())))
    {
      r := TakeMajor(ARRAY);
    }

    /** Terminates on any bytes, however large the declared counts are, with at most one head read per byte
        consumed (and one more when it fails). */
    method SkipDepth(depth: nat) returns (r: Result<()>)
      requires Valid()
      modifies this
      ensures Valid() && Agrees(r, Rest(), Skip(old(Rest()), depth))
      ensures heads - old(heads) <= off - old(off) + if r.Success? then 0 else 1
      decreases |input| - off, 0
    {
      if depth > MAX_SKIP_DEPTH {
        return Failure(InvalidCbor);
      }
      var h :- TakeHead();
      match h.0 {
        case 0 => return Success(());
        case 1 => return Success(());
        case 2 => var b := TakeBytes(h.1); return if b.Success? then Success(()) else Failure(b.error);
        case 3 => var b := TakeBytes(h.1); return if b.Success? then Success(()) else Failure(b.error);
        case 4 => r := SkipItems(h.1, depth + 1);
        case 5 => r := SkipItems(2 * h.1, depth + 1);
        case 6 => r := SkipDepth(depth + 1);
        case _ => return Success(());
      }
    }

    /** The loops of skip_depth: k items one after the other. */
    method SkipItems(k: nat, depth: nat) returns (r: Result<()>)
      requires Valid()
      modifies this
      ensures Valid() && Agrees(r, Rest(), Cbor.SkipItems(old(Rest()), k, depth))
      ensures heads - old(heads) <= off - old(off) + if r.Success? then 0 else 1
      decreases |input| - off, 1
    {
      var i := 0;
      while i < k
        invariant Valid() && i <= k && off >= old(off)
        invariant Cbor.SkipItems(Rest(), k - i, depth) == Cbor.SkipItems(old(Rest()), k, depth)
        invariant heads - old(heads) <= off - old(off)
      {
        var one :- SkipDepth(depth);
        i := i + 1;
      }
      return Success(());
    }
  }
}
