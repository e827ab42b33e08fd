/** The JsonWriter object of include/swpasskey/ctl/json.hpp and the index-driven parser of src/ctl/json.cpp. */
module JsonIo {
  import opened Bytes
  import opened Json

  /** Whether the next member is the first of the innermost object or array; outside of both there are no commas. */
  predicate AtFirst(first: seq<bool>) { first == [] || first[|first| - 1] }

  /** The stack once a member was begun. */
  function Begun(first: seq<bool>): seq<bool> {
    if first == [] then [] else first[..|first| - 1] + [false]
  }

  function Comma(first: seq<bool>): seq<Byte> { if AtFirst(first) then [] else [COMMA] }

  /** Writing one more member: what the members' calls append adds up to Members. */
  lemma {:induction false} MembersAppend(fs: seq<Field>, f: Field, first: bool)
    ensures Members(fs + [f], first) == Members(fs, first) + Members([f], first && fs == [])
    decreases |fs|
  {
    hide FieldBytes;
    if fs == [] {
      assert fs + [f] == [f];
    } else {
      assert (fs + [f])[1..] == fs[1..] + [f];
      MembersAppend(fs[1..], f, false);
      var head := (if first then [] else [COMMA]) + FieldBytes(fs[0]);
      assert head + (Members(fs[1..], false) + Members([f], false))
             == head + Members(fs[1..], false) + Members([f], false);
    }
  }

  class JsonWriter {
    var out: seq<Byte>
    var first: seq<bool>

    constructor ()
      ensures out == [] && first == []
    {
      out := [];
      first := [];
    }

    method Sep()
      modifies this
      ensures out == old(out) + Comma(old(first)) && first == Begun(old(first))
    {
      if |first| != 0 {
        if !first[|first| - 1] {
          out := out + [COMMA];
        }
        first := first[..|first| - 1] + [false];
      }
    }

    /** The switch of write_str. */
    method WriteEscaped(c: Byte)
      modifies `out
      ensures out == old(out) + Escape(c)
    {
      if c == QUOTE {
        out := out + [BACKSLASH, QUOTE];
      } else if c == BACKSLASH {
        out := out + [BACKSLASH, BACKSLASH];
      } else if c == NEWLINE {
        out := out + [BACKSLASH, LOWER_N];
      } else if c == RETURN {
        out := out + [BACKSLASH, LOWER_R];
      } else if c == TAB {
        out := out + [BACKSLASH, LOWER_T];
      } else if c < 0x20 {
        out := out + [BACKSLASH, LOWER_U, 0x30, 0x30, HexDigit(c / 16), HexDigit(c % 16)];
      } else {
        out := out + [c];
      }
    }

    method WriteStr(v: seq<Byte>)
      modifies `out
      ensures out == old(out) + Quoted(v)
    {
      hide Escape;
      out := out + [QUOTE];
      ghost var start := out;
      var i := 0;
      while i < |v|
        invariant 0 <= i <= |v|
        invariant out + Escapes(v[i..]) == start + Escapes(v)
      {
        assert v[i..][1..] == v[i + 1..];
        assert out + Escape(v[i]) + Escapes(v[i + 1..]) == out + Escapes(v[i..]);
        WriteEscaped(v[i]);
        i := i + 1;
      }
      assert out + [] == out;
      out := out + [QUOTE];
      assert out == old(out) + ([QUOTE] + Escapes(v) + [QUOTE]);
    }

    method BeginObject()
      modifies this
      ensures out == old(out) + Comma(old(first)) + [OPEN] && first == Begun(old(first)) + [true]
    {
      Sep();
      out := out + [OPEN];
      first := first + [true];
    }

    /** Closes what was opened; there has to be something open. */
    method EndObject()
      requires first != []
      modifies this
      ensures out == old(out) + [CLOSE] && first == old(first)[..|old(first)| - 1]
    {
      out := out + [CLOSE];
      first := first[..|first| - 1];
    }

    method Key(k: seq<Byte>)
      modifies this
      ensures out == old(out) + (Comma(old(first)) + Quoted(k) + [COLON]) && first == Begun(old(first))
    {
      Sep();
      WriteStr(k);
      out := out + [COLON];
      first := first + [true];
      first := first[..|first| - 1];
    }

    method BeginArray(k: seq<Byte>)
      modifies this
      ensures out == old(out) + (Comma(old(first)) + Quoted(k) + [COLON]) + [OPEN_ARRAY]
              && first == Begun(old(first)) + [true]
    {
      Key(k);
      out := out + [OPEN_ARRAY];
      first := first + [true];
    }

    method EndArray()
      requires first != []
      modifies this
      ensures out == old(out) + [CLOSE_ARRAY] && first == old(first)[..|old(first)| - 1]
    {
      out := out + [CLOSE_ARRAY];
      first := first[..|first| - 1];
    }

    method ObjectMember(k: seq<Byte>)
      modifies this
      ensures out == old(out) + (Comma(old(first)) + Quoted(k) + [COLON]) + [OPEN]
              && first == Begun(old(first)) + [true]
    {
      Key(k);
      out := out + [OPEN];
      first := first + [true];
    }

    static lemma OneMemberBytes(f: Field, first: bool)
      ensures Members([f], first) == (if first then [] else [COMMA]) + Quoted(f.key) + [COLON] + ValueBytes(f)
    {
      assert [f][1..] == [];
    }

    method Str(k: seq<Byte>, v: seq<Byte>)
      modifies this
      ensures out == old(out) + Members([StrField(k, v)], AtFirst(old(first))) && first == Begun(old(first))
    {
      hide Members, Escapes, Ascii, AtFirst;
      OneMemberBytes(StrField(k, v), AtFirst(first));
      Key(k);
      WriteStr(v);
    }

    method Num(k: seq<Byte>, v: U64)
      modifies this
      ensures out == old(out) + Members([NumField(k, v)], AtFirst(old(first))) && first == Begun(old(first))
    {
      hide Members, Escapes, Ascii, AtFirst;
      OneMemberBytes(NumField(k, v), AtFirst(first));
      Key(k);
      out := out + Decimal(v);
    }

    method Boolean(k: seq<Byte>, v: bool)
      modifies this
      ensures out == old(out) + Members([BoolField(k, v)], AtFirst(old(first))) && first == Begun(old(first))
    {
      hide Members, Escapes, Ascii, AtFirst;
      OneMemberBytes(BoolField(k, v), AtFirst(first));
      Key(k);
      out := out + Ascii(if v then "true" else "false");
    }
  }

  // ---------------------------------------------------------------- the parser

  method SkipSpaces(s: seq<Byte>, start: nat) returns (i: nat)
    requires start <= |s|
    ensures start <= i <= |s| && s[i..] == SkipWs(s[start..])
  {
    i := start;
    while i < |s| && IsSpace(s[i])
      invariant start <= i <= |s| && SkipWs(s[i..]) == SkipWs(s[start..])
    {
      assert s[i..][1..] == s[i + 1..];
      i := i + 1;
    }
  }

  /** Hexadecimal digits read from left to right, after v. */
  function HexFold(digits: seq<Byte>, v: nat): Option<nat> {
    if digits == [] then Some(v)
    else match HexValue(digits[0]) case None => None case Some(h) => HexFold(digits[1..], 0x10 * v + h)
  }

  lemma FoldStep(s: seq<Byte>, i: nat, v: nat)
    requires i < |s|
    ensures HexFold(s[i..], v)
         == match HexValue(s[i]) case None => None case Some(h) => HexFold(s[i + 1..], 0x10 * v + h)
  {
    assert s[i..][1..] == s[i + 1..];
  }

  lemma FourDigits(s: seq<Byte>)
    requires |s| == 4
    ensures HexFold(s, 0) == Hex4(s)
  {
    hide HexValue;
    var a, b, c := HexValue(s[0]).GetOr(0), HexValue(s[1]).GetOr(0), HexValue(s[2]).GetOr(0);
    assert s[0..] == s;
    FoldStep(s, 0, 0);
    FoldStep(s, 1, a);
    FoldStep(s, 2, 0x10 * a + b);
    FoldStep(s, 3, 0x10 * (0x10 * a + b) + c);
  }

  /** The four digits of a \u escape. */
  method ReadHex4(s: seq<Byte>, start: nat) returns (v: Option<nat>)
    requires start + 4 <= |s|
    ensures v == Hex4(s[start..start + 4])
  {
    ghost var digits := s[start..start + 4];
    FourDigits(digits);
    var sum, i := 0, 0;
    while i < 4
      invariant 0 <= i <= 4 && HexFold(digits[i..], sum) == HexFold(digits, 0)
    {
      assert digits[i] == s[start + i] && digits[i..][1..] == digits[i + 1..];
      var h := HexValue(s[start + i]);
      if h.None? {
        return None;
      }
      sum := 0x10 * sum + h.value;
      i := i + 1;
    }
    return Some(sum);
  }

  method ReadString(s: seq<Byte>, start: nat) returns (ok: bool, i: nat, out: seq<Byte>)
    requires start <= |s|
    ensures start <= i <= |s|
    ensures ParseString(s[start..]) == if ok then Some((out, s[i..])) else None
  {
    hide Hex4, Utf8;
    ok, i, out := false, start, [];
    if i >= |s| || s[i] != QUOTE {
      return;
    }
    i := i + 1;
    ghost var content := s[i..];
    PrependNothing(ParseChars(content));
    while i < |s|
      invariant start < i <= |s|
      invariant ParseChars(content) == Prepend(out, ParseChars(s[i..]))
    {
      var c := s[i];
      ghost var here := s[i..];
      i := i + 1;
      assert s[i..] == here[1..];
      if c == QUOTE {
        assert out + [] == out;
        ok := true;
        return;
      }
      if c == BACKSLASH {
        if i >= |s| {
          return;
        }
        var e := s[i];
        ghost var escape := s[i..];
        i := i + 1;
        assert s[i..] == escape[1..];
        ghost var before := out;
        if e == QUOTE {
          out := out + [QUOTE];
        } else if e == BACKSLASH {
          out := out + [BACKSLASH];
        } else if e == SLASH {
          out := out + [SLASH];
        } else if e == LOWER_N {
          out := out + [NEWLINE];
        } else if e == LOWER_R {
          out := out + [RETURN];
        } else if e == LOWER_T {
          out := out + [TAB];
        } else if e == LOWER_U {
          if i + 4 > |s| {
            return;
          }
          var v := ReadHex4(s, i);
          assert escape[1..5] == s[i..i + 4];
          if v.None? {
            return;
          }
          i := i + 4;
          assert s[i..] == escape[5..];
          out := out + Utf8(v.value);
        } else {
          return;
        }
        PrependTwice(before, out[|before|..], ParseChars(s[i..]));
      } else {
        PrependTwice(out, [c], ParseChars(s[i..]));
        out := out + [c];
      }
    }
  }

  lemma PrependNothing(r: Option<(seq<Byte>, seq<Byte>)>)
    ensures Prepend([], r) == r
  {
    if r.Some? {
      assert [] + r.value.0 == r.value.0;
    }
  }

  lemma PrependTwice(a: seq<Byte>, b: seq<Byte>, r: Option<(seq<Byte>, seq<Byte>)>)
    ensures Prepend(a, Prepend(b, r)) == Prepend(a + b, r)
  {
    if r.Some? {
      assert a + (b + r.value.0) == a + b + r.value.0;
    }
  }

  method ReadValue(s: seq<Byte>, start: nat) returns (error: Option<JsonError>, i: nat, v: seq<Byte>)
    requires start <= |s|
    ensures start <= i <= |s|
    ensures ParseValue(s[start..]) == if error.None? then Value(v, s[i..]) else NoValue(error.value)
  {
    hide ParseString;
    error, i, v := None, start, [];
    if i < |s| && s[i] == QUOTE {
      var ok;
      ok, i, v := ReadString(s, i);
      if !ok {
        error := Some(BadString);
      }
    } else if i < |s| && (s[i] == OPEN || s[i] == OPEN_ARRAY) {
      error := Some(NestedUnsupported);
    } else {
      while i < |s| && s[i] != COMMA && s[i] != CLOSE && s[i] != SPACE && s[i] != NEWLINE
        invariant start <= i <= |s| && error == None
        invariant TokenLength(s[start..]) == i - start + TokenLength(s[i..])
      {
        assert s[i..][1..] == s[i + 1..];
        i := i + 1;
      }
      v := s[start..i];
      assert v == s[start..][..i - start] && s[i..] == s[start..][i - start..];
      if v == [] {
        error := Some(UnsupportedValue);
      }
    }
  }

  method ParseFlatJson(s: seq<Byte>) returns (r: Request)
    ensures r == ParseFlat(s)
  {
    hide ParseString, ParseValue, SkipWs;
    var fields: map<seq<Byte>, seq<Byte>> := map[];
    assert s[0..] == s;
    var i := SkipSpaces(s, 0);
    if i >= |s| || s[i] != OPEN {
      return Request(fields, Some(ExpectedObject));
    }
    i := i + 1;
    i := SkipSpaces(s, i);
    if i < |s| && s[i] == CLOSE {
      return Request(fields, None);
    }
    while true
      invariant i <= |s| && ParseMembers(s[i..], fields) == ParseFlat(s)
      decreases |s| - i
    {
      ghost var here := s[i..];
      i := SkipSpaces(s, i);
      var ok, k, v, error;
      ok, i, k := ReadString(s, i);
      if !ok {
        return Request(fields, Some(BadKey));
      }
      i := SkipSpaces(s, i);
      if i >= |s| || s[i] != COLON {
        return Request(fields, Some(ExpectedColon));
      }
      i := i + 1;
      i := SkipSpaces(s, i);
      error, i, v := ReadValue(s, i);
      if error.Some? {
        return Request(fields, error);
      }
      fields := fields[k := v];
      i := SkipSpaces(s, i);
      if i < |s| && s[i] == COMMA {
        i := i + 1;
        continue;
      }
      if i < |s| && s[i] == CLOSE {
        return Request(fields, None);
      }
      return Request(fields, Some(ExpectedCommaOrBrace));
    }
  }

  // ---------------------------------------------------------------- writer and parser together

  lemma SoFar(out: seq<Byte>, fs: seq<Field>, i: nat)
    requires i < |fs|
    ensures out + Members(fs[..i], true) + Members([fs[i]], i == 0) == out + Members(fs[..i + 1], true)
  {
    hide Members;
    assert fs[..i + 1] == fs[..i] + [fs[i]];
    MembersAppend(fs[..i], fs[i], true);
    assert out + (Members(fs[..i], true) + Members([fs[i]], i == 0))
           == out + Members(fs[..i], true) + Members([fs[i]], i == 0);
  }

  /** One flat object by the writer's own calls: begin_object, one call for each field, end_object. */
  method WriteObject(w: JsonWriter, fs: seq<Field>)
    requires forall f <- fs :: !f.Nested?
    modifies w
    ensures w.out == old(w.out) + Comma(old(w.first)) + Object(fs) && w.first == Begun(old(w.first))
  {
    hide Members, AtFirst, Comma;
    w.BeginObject();
    ghost var start, outer := w.out, Begun(old(w.first));
    assert w.first == outer + [true];
    NoMembers();
    assert start + [] == start && fs[..0] == [];
    var i := 0;
    while i < |fs|
      invariant 0 <= i <= |fs|
      invariant w.out == start + Members(fs[..i], true) && w.first == outer + [i == 0]
    {
      AtFirstIs(w.first);
      SoFar(start, fs, i);
      assert fs[i] in fs;
      match fs[i] {
        case StrField(k, v) => w.Str(k, v);
        case NumField(k, n) => w.Num(k, n);
        case BoolField(k, v) => w.Boolean(k, v);
      }
      assert Begun(outer + [i == 0]) == outer + [false];
      i := i + 1;
    }
    assert fs[..|fs|] == fs;
    w.EndObject();
    assert w.out == old(w.out) + Comma(old(w.first)) + ([OPEN] + Members(fs, true) + [CLOSE]);
  }

  lemma AtFirstIs(first: seq<bool>)
    requires first != []
    ensures AtFirst(first) == first[|first| - 1]
  {
  }

  /** What one end writes the other end reads: exactly the fields, for distinct keys. */
  method WriteThenParse(fs: seq<Field>) returns (r: Request)
    requires DistinctFields(fs) && forall f <- fs :: !f.Nested?
    ensures r.error.None?
    ensures forall f <- fs :: f.key in r.fields && r.fields[f.key] == Text(f)
    ensures forall k <- r.fields :: exists f <- fs :: f.key == k
  {
    hide ParseFlat, Object, Text;
    var w := new JsonWriter();
    WriteObject(w, fs);
    assert w.out == Object(fs) + [];
    JsonRoundTrip(fs, []);
    r := ParseFlatJson(w.out);
  }
}
