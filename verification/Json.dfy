/** The control socket's JSON (src/ctl/json.cpp): the writer, the parser of flat objects, and what they promise
    each other. Text is a sequence of bytes. */
module Json {
  import opened Bytes

  const QUOTE: Byte := 0x22
  const BACKSLASH: Byte := 0x5C
  const SLASH: Byte := 0x2F
  const COMMA: Byte := 0x2C
  const COLON: Byte := 0x3A
  const OPEN: Byte := 0x7B
  const CLOSE: Byte := 0x7D
  const OPEN_ARRAY: Byte := 0x5B
  const CLOSE_ARRAY: Byte := 0x5D
  const SPACE: Byte := 0x20
  const TAB: Byte := 0x09
  const NEWLINE: Byte := 0x0A
  const RETURN: Byte := 0x0D
  const LOWER_N: Byte := 0x6E
  const LOWER_R: Byte := 0x72
  const LOWER_T: Byte := 0x74
  const LOWER_U: Byte := 0x75

  // ---------------------------------------------------------------- writing

  function Escape(c: Byte): (e: seq<Byte>)
    ensures e != []
  {
    if c == QUOTE then [BACKSLASH, QUOTE]
    else if c == BACKSLASH then [BACKSLASH, BACKSLASH]
    else if c == NEWLINE then [BACKSLASH, LOWER_N]
    else if c == RETURN then [BACKSLASH, LOWER_R]
    else if c == TAB then [BACKSLASH, LOWER_T]
    else if c < 0x20 then [BACKSLASH, LOWER_U, 0x30, 0x30, HexDigit(c / 16), HexDigit(c % 16)]
    else [c]
  }

  function Escapes(v: seq<Byte>): seq<Byte> {
    if v == [] then [] else Escape(v[0]) + Escapes(v[1..])
  }

  function Quoted(v: seq<Byte>): seq<Byte> { [QUOTE] + Escapes(v) + [QUOTE] }

  /** std::to_string. */
  function Decimal(n: nat): (d: seq<Byte>)
    ensures |d| >= 1 && forall i :: 0 <= i < |d| ==> 0x30 <= d[i] <= 0x39
  {
    if n < 10 then [0x30 + n] else Decimal(n / 10) + [0x30 + n % 10]
  }

  /** One member of an object. body is the text of a nested object or array after its opening bracket. */
  datatype Field =
    | StrField(key: seq<Byte>, text: seq<Byte>) | NumField(key: seq<Byte>, n: U64) | BoolField(key: seq<Byte>, v: bool)
    | Nested(key: seq<Byte>, isArray: bool, body: seq<Byte>)

  function ValueBytes(f: Field): seq<Byte> {
    match f
    case StrField(_, v) => Quoted(v)
    case NumField(_, n) => Decimal(n)
    case BoolField(_, v) => Ascii(if v then "true" else "false")
    case Nested(_, isArray, body) => [if isArray then OPEN_ARRAY else OPEN] + body
  }

  function FieldBytes(f: Field): seq<Byte> { Quoted(f.key) + [COLON] + ValueBytes(f) }

  /** Members one after the other; a comma goes before each but the first of its object. */
  function Members(fs: seq<Field>, first: bool): seq<Byte> {
    if fs == [] then [] else (if first then [] else [COMMA]) + FieldBytes(fs[0]) + Members(fs[1..], false)
  }

  function Object(fs: seq<Field>): seq<Byte> { [OPEN] + Members(fs, true) + [CLOSE] }

  // ---------------------------------------------------------------- parsing

  datatype JsonError = ExpectedObject | BadKey | ExpectedColon | BadString | NestedUnsupported | UnsupportedValue
      | ExpectedCommaOrBrace

  /** The fields found, and the error that stopped the parser, if any. */
  datatype Request = Request(fields: map<seq<Byte>, seq<Byte>>, error: Option<JsonError>)

  predicate IsSpace(c: Byte) { c == SPACE || c == TAB || c == RETURN || c == NEWLINE }

  function SkipWs(s: seq<Byte>): (r: seq<Byte>)
    ensures |r| <= |s|
  {
    if s != [] && IsSpace(s[0]) then SkipWs(s[1..]) else s
  }

  function HexValue(h: Byte): Option<nat> {
    if 0x30 <= h <= 0x39 then Some(h - 0x30)
    else if 0x61 <= h <= 0x66 then Some(h - 0x61 + 10)
    else if 0x41 <= h <= 0x46 then Some(h - 0x41 + 10)
    else None
  }

  function Hex4(s: seq<Byte>): (v: Option<nat>)
    requires |s| == 4
    ensures v.Some? ==> v.value < 0x1_0000
  {
    var a, b, c, d := HexValue(s[0]), HexValue(s[1]), HexValue(s[2]), HexValue(s[3]);
    if a.Some? && b.Some? && c.Some? && d.Some?
    then Some(0x1000 * a.value + 0x100 * b.value + 0x10 * c.value + d.value)
    else None
  }

  function Utf8(v: nat): seq<Byte>
    requires v < 0x1_0000
  {
    if v < 0x80 then [v]
    else if v < 0x800 then [0xC0 + v / 64, 0x80 + v % 64]
    else [0xE0 + v / 4096, 0x80 + v / 64 % 64, 0x80 + v % 64]
  }

  /** What the bytes after a backslash stand for, and the bytes after them. */
  function Unescape(s: seq<Byte>): (r: Option<(seq<Byte>, seq<Byte>)>)
    ensures r.Some? ==> |r.value.1| < |s|
  {
    if s == [] then None
    else if s[0] == QUOTE then Some(([QUOTE], s[1..]))
    else if s[0] == BACKSLASH then Some(([BACKSLASH], s[1..]))
    else if s[0] == SLASH then Some(([SLASH], s[1..]))
    else if s[0] == LOWER_N then Some(([NEWLINE], s[1..]))
    else if s[0] == LOWER_R then Some(([RETURN], s[1..]))
    else if s[0] == LOWER_T then Some(([TAB], s[1..]))
    else if s[0] == LOWER_U && |s| >= 5 then
      match Hex4(s[1..5]) case None => None case Some(v) => Some((Utf8(v), s[5..]))
    else None
  }

  /** The rest of a string after its opening quote: its content, and what follows the closing quote. */
  function ParseChars(s: seq<Byte>): (r: Option<(seq<Byte>, seq<Byte>)>)
    ensures r.Some? ==> |r.value.1| < |s|
    decreases |s|
  {
    if s == [] then None
    else if s[0] == QUOTE then Some(([], s[1..]))
    else if s[0] == BACKSLASH then
      match Unescape(s[1..])
      case None => None
      case Some((b, rest)) => Prepend(b, ParseChars(rest))
    else Prepend([s[0]], ParseChars(s[1..]))
  }

  function Prepend(b: seq<Byte>, r: Option<(seq<Byte>, seq<Byte>)>): Option<(seq<Byte>, seq<Byte>)> {
    match r case None => None case Some((v, rest)) => Some((b + v, rest))
  }

  function ParseString(s: seq<Byte>): (r: Option<(seq<Byte>, seq<Byte>)>)
    ensures r.Some? ==> |r.value.1| < |s|
  {
    if s == [] || s[0] != QUOTE then None else ParseChars(s[1..])
  }

  predicate EndsToken(c: Byte) { c == COMMA || c == CLOSE || c == SPACE || c == NEWLINE }

  function TokenLength(s: seq<Byte>): (n: nat)
    ensures n <= |s|
  {
    if s == [] || EndsToken(s[0]) then 0 else 1 + TokenLength(s[1..])
  }

  datatype Value = Value(text: seq<Byte>, rest: seq<Byte>) | NoValue(error: JsonError)

  function ParseValue(s: seq<Byte>): (r: Value)
    ensures r.Value? ==> |r.rest| <= |s|
  {
    if s != [] && s[0] == QUOTE then
      (match ParseString(s) case None => NoValue(BadString) case Some((v, rest)) => Value(v, rest))
    else if s != [] && (s[0] == OPEN || s[0] == OPEN_ARRAY) then NoValue(NestedUnsupported)
    else if TokenLength(s) == 0 then NoValue(UnsupportedValue)
    else Value(s[..TokenLength(s)], s[TokenLength(s)..])
  }

  function ParseMembers(s: seq<Byte>, m: map<seq<Byte>, seq<Byte>>): Request
    decreases |s|
  {
    match ParseString(SkipWs(s))
    case None => Request(m, Some(BadKey))
    case Some((k, s2)) =>
      var s3 := SkipWs(s2);
      if s3 == [] || s3[0] != COLON then Request(m, Some(ExpectedColon))
      else
        match ParseValue(SkipWs(s3[1..]))
        case NoValue(e) => Request(m, Some(e))
        case Value(v, s5) =>
          var s6 := SkipWs(s5);
          if s6 != [] && s6[0] == COMMA then ParseMembers(s6[1..], m[k := v])
          else if s6 != [] && s6[0] == CLOSE then Request(m[k := v], None)
          else Request(m[k := v], Some(ExpectedCommaOrBrace))
  }

  /** parse_flat_json. What follows the object is not looked at. */
  function ParseFlat(s: seq<Byte>): Request {
    var s1 := SkipWs(s);
    if s1 == [] || s1[0] != OPEN then Request(map[], Some(ExpectedObject))
    else
      var s2 := SkipWs(s1[1..]);
      if s2 != [] && s2[0] == CLOSE then Request(map[], None) else ParseMembers(s2, map[])
  }

  // ---------------------------------------------------------------- strings and numbers read back

  lemma HexBack(n: nat)
    requires n < 16
    ensures HexValue(HexDigit(n)) == Some(n)
  {
  }

  lemma UnescapeBack(c: Byte, t: seq<Byte>)
    requires Escape(c) != [c]
    ensures Escape(c)[0] == BACKSLASH && Unescape(Escape(c)[1..] + t) == Some(([c], t))
  {
    hide HexDigit, HexValue, Hex4;
    var s := Escape(c)[1..] + t;
    if |Escape(c)| == 6 {
      assert s[1..5] == [0x30, 0x30, HexDigit(c / 16), HexDigit(c % 16)];
      HexFour(c);
      assert s[5..] == t;
    } else {
      assert s[1..] == t;
    }
  }

  lemma HexFour(c: Byte)
    ensures Hex4([0x30, 0x30, HexDigit(c / 16), HexDigit(c % 16)]) == Some(c as nat)
  {
    hide HexDigit;
    HexBack(c / 16);
    HexBack(c % 16);
  }

  lemma {:induction false} CharsBack(v: seq<Byte>, t: seq<Byte>)
    ensures ParseChars(Escapes(v) + [QUOTE] + t) == Some((v, t))
  {
    hide Unescape, Escape;
    var s := Escapes(v) + [QUOTE] + t;
    if v == [] {
      assert s == [QUOTE] + t && s[1..] == t;
    } else {
      var more := Escapes(v[1..]) + [QUOTE] + t;
      assert s == Escape(v[0]) + more;
      assert v == [v[0]] + v[1..];
      CharsBack(v[1..], t);
      OneCharBack(v[0], more);
    }
  }

  lemma OneCharBack(c: Byte, more: seq<Byte>)
    ensures ParseChars(Escape(c) + more) == Prepend([c], ParseChars(more))
  {
    var s := Escape(c) + more;
    if Escape(c) == [c] {
      assert s[0] == c && s[1..] == more;
    } else {
      hide Escape, Unescape;
      UnescapeBack(c, more);
      assert s[0] == BACKSLASH && s[1..] == Escape(c)[1..] + more;
    }
  }

  /** Every string of bytes is read back with every escape undone. */
  lemma StringBack(v: seq<Byte>, t: seq<Byte>)
    ensures ParseString(Quoted(v) + t) == Some((v, t))
  {
    hide ParseChars, Escapes;
    CharsBack(v, t);
    assert (Quoted(v) + t)[1..] == Escapes(v) + [QUOTE] + t;
  }

  function FromDecimal(d: seq<Byte>): int {
    if d == [] then 0 else FromDecimal(d[..|d| - 1]) * 10 + (d[|d| - 1] as int - 0x30)
  }

  /** The text of a number determines it. */
  lemma {:induction false} DecimalBack(n: nat)
    ensures FromDecimal(Decimal(n)) == n
  {
    if n >= 10 {
      DecimalBack(n / 10);
      assert Decimal(n)[..|Decimal(n)| - 1] == Decimal(n / 10);
    } else {
      assert Decimal(n)[..0] == [];
    }
  }

  lemma {:induction false} TokenBack(v: seq<Byte>, t: seq<Byte>)
    requires (forall i :: 0 <= i < |v| ==> !EndsToken(v[i])) && t != [] && EndsToken(t[0])
    ensures TokenLength(v + t) == |v|
  {
    if v == [] {
      assert v + t == t;
    } else {
      assert (v + t)[1..] == v[1..] + t;
      TokenBack(v[1..], t);
    }
  }

  // ---------------------------------------------------------------- objects read back

  /** A field's value as the parser reports it: the string, or the text of the number or boolean. */
  function Text(f: Field): seq<Byte> { if f.StrField? then f.text else ValueBytes(f) }

  lemma ValueBack(f: Field, t: seq<Byte>)
    requires t != [] && EndsToken(t[0])
    ensures SkipWs(ValueBytes(f) + t) == ValueBytes(f) + t
    ensures ParseValue(ValueBytes(f) + t) == if f.Nested? then NoValue(NestedUnsupported) else Value(Text(f), t)
  {
    hide ParseString, Escapes, Decimal, TokenLength;
    var v := ValueBytes(f);
    assert (v + t)[0] == v[0];
    if f.StrField? {
      StringBack(f.text, t);
    } else if !f.Nested? {
      PlainToken(f);
      TokenBack(v, t);
      assert (v + t)[..|v|] == v && (v + t)[|v|..] == t;
    }
  }

  lemma PlainToken(f: Field)
    requires f.NumField? || f.BoolField?
    ensures var v := ValueBytes(f);
            && v != [] && v[0] != QUOTE && v[0] != OPEN && v[0] != OPEN_ARRAY && !IsSpace(v[0])
            && forall i :: 0 <= i < |v| ==> !EndsToken(v[i])
  {
  }

  /** What the parser is to report: later members override earlier ones with the same key, up to the first
      nested one. */
  function Reported(fs: seq<Field>, m: map<seq<Byte>, seq<Byte>>): Request
    decreases |fs|
  {
    if fs == [] then Request(m, None)
    else if fs[0].Nested? then Request(m, Some(NestedUnsupported))
    else Reported(fs[1..], m[fs[0].key := Text(fs[0])])
  }

  lemma OneMember(f: Field, t: seq<Byte>, m: map<seq<Byte>, seq<Byte>>)
    requires t != [] && (t[0] == COMMA || t[0] == CLOSE)
    ensures ParseMembers(FieldBytes(f) + t, m)
         == if f.Nested? then Request(m, Some(NestedUnsupported))
            else if t[0] == COMMA then ParseMembers(t[1..], m[f.key := Text(f)])
            else Request(m[f.key := Text(f)], None)
  {
    hide ParseString, ParseValue, ValueBytes, Escapes, Text;
    var s := FieldBytes(f) + t;
    var after := [COLON] + (ValueBytes(f) + t);
    assert s == Quoted(f.key) + after;
    assert s[0] == QUOTE && SkipWs(s) == s;
    StringBack(f.key, after);
    assert SkipWs(after) == after && after[1..] == ValueBytes(f) + t;
    ValueBack(f, t);
    assert SkipWs(t) == t;
  }

  lemma {:induction false} MembersBack(fs: seq<Field>, m: map<seq<Byte>, seq<Byte>>, t: seq<Byte>)
    requires fs != []
    ensures ParseMembers(Members(fs, true) + [CLOSE] + t, m) == Reported(fs, m)
    decreases |fs|
  {
    hide ParseMembers, FieldBytes, Text;
    var f, rest := fs[0], fs[1..];
    var more := Members(rest, false) + [CLOSE] + t;
    assert Members(fs, true) + [CLOSE] + t == FieldBytes(f) + more;
    if rest == [] {
      assert more == [CLOSE] + t;
      OneMember(f, more, m);
    } else {
      assert more == [COMMA] + (Members(rest, true) + [CLOSE] + t);
      OneMember(f, more, m);
      assert more[1..] == Members(rest, true) + [CLOSE] + t;
      MembersBack(rest, m[f.key := Text(f)], t);
    }
  }

  lemma FirstMember(fs: seq<Field>, t: seq<Byte>)
    requires fs != []
    ensures var s := Members(fs, true) + t; s != [] && s[0] == QUOTE && SkipWs(s) == s
  {
    hide ValueBytes, Escapes;
    var s := Members(fs, true) + t;
    assert Members(fs, true)[0] == FieldBytes(fs[0])[0] == Quoted(fs[0].key)[0] == QUOTE;
    assert s[0] == QUOTE;
  }

  lemma ObjectBack(fs: seq<Field>, t: seq<Byte>)
    ensures ParseFlat(Object(fs) + t) == Reported(fs, map[])
  {
    hide ParseMembers, Members;
    var s := Object(fs) + t;
    var inner := Members(fs, true) + [CLOSE] + t;
    assert s == [OPEN] + inner && SkipWs(s) == s && s[1..] == inner;
    if fs == [] {
      NoMembers();
      assert inner[0] == CLOSE && SkipWs(inner) == inner;
    } else {
      FirstMember(fs, [CLOSE] + t);
      assert inner == Members(fs, true) + ([CLOSE] + t);
      MembersBack(fs, map[], t);
    }
  }

  lemma NoMembers()
    ensures Members([], true) == []
  {
  }

  ghost predicate DistinctFields(fs: seq<Field>) {
    forall i, j :: 0 <= i < j < |fs| ==> fs[i].key != fs[j].key
  }

  lemma {:induction false} ReportedExactly(fs: seq<Field>, m: map<seq<Byte>, seq<Byte>>)
    requires DistinctFields(fs) && forall f <- fs :: f.key !in m
    ensures Reported(fs, m).error.None? <==> forall f <- fs :: !f.Nested?
    ensures Reported(fs, m).error.None? ==>
              && (forall f <- fs :: f.key in Reported(fs, m).fields && Reported(fs, m).fields[f.key] == Text(f))
              && (forall k <- m :: k in Reported(fs, m).fields && Reported(fs, m).fields[k] == m[k])
              && (forall k <- Reported(fs, m).fields :: k in m || exists f <- fs :: f.key == k)
    decreases |fs|
  {
    hide Text, DistinctFields;
    if fs != [] {
      assert fs == [fs[0]] + fs[1..];
      if !fs[0].Nested? {
        OtherKeys(fs);
        ReportedExactly(fs[1..], m[fs[0].key := Text(fs[0])]);
      }
    }
  }

  lemma OtherKeys(fs: seq<Field>)
    requires DistinctFields(fs) && fs != []
    ensures DistinctFields(fs[1..]) && forall f <- fs[1..] :: f.key != fs[0].key
  {
    forall f | f in fs[1..] ensures f.key != fs[0].key {
      var i :| 0 <= i < |fs| - 1 && fs[1..][i] == f;
      assert fs[i + 1] == f;
    }
  }

  /** An object with distinct keys is read back without error if and only if it is flat, and then as exactly its
      fields, whatever bytes its keys and strings hold and whatever follows it. */
  lemma JsonRoundTrip(fs: seq<Field>, t: seq<Byte>)
    requires DistinctFields(fs)
    ensures var r := ParseFlat(Object(fs) + t);
            && (r.error.None? <==> forall f <- fs :: !f.Nested?)
            && (r.error.None? ==>
                  && (forall f <- fs :: f.key in r.fields && r.fields[f.key] == Text(f))
                  && (forall k <- r.fields :: exists f <- fs :: f.key == k))
  {
    hide ParseFlat, Object, Text;
    ObjectBack(fs, t);
    ReportedExactly(fs, map[]);
  }
}
