/** CBOR as src/cbor/cbor.cpp writes and reads it: what each Writer call appends and what each Reader
    call takes from the front of the remaining bytes. */
module Cbor {
  import opened Bytes
  import opened Statuses

  datatype Parsed<+T> = Ok(value: T, rest: seq<Byte>) | Err(status: Status)

  type Major = x: int | 0 <= x < 8
  type Info = x: int | 0 <= x < 32

  const UINT: Major := 0
  const NINT: Major := 1
  const BSTR: Major := 2
  const TSTR: Major := 3
  const ARRAY: Major := 4
  const MAP: Major := 5
  const TAG: Major := 6

  /** A head's argument (section 3 of RFC 8949): additional information, and the value it stands for. */
  datatype Arg = Arg(ai: Info, n: nat)

  function Extra(ai: Info): nat {
    if ai == 24 then 1 else if ai == 25 then 2 else if ai == 26 then 4 else if ai == 27 then 8 else 0
  }

  predicate ArgValid(a: Arg) {
    if a.ai < 24 then a.n == a.ai else a.ai <= 27 && a.n < Pow256(Extra(a.ai))
  }

  function HeadOf(major: Major, a: Arg): seq<Byte> {
    [major * 32 + a.ai] + BigEndian(a.n, Extra(a.ai))
  }

  /** encode_type: the narrowest argument that holds n. */
  function Shortest(n: nat): Arg {
    if n < 24 then Arg(n, n)
    else if n <= 0xFF then Arg(24, n)
    else if n <= 0xFFFF then Arg(25, n)
    else if n <= 0xFFFF_FFFF then Arg(26, n)
    else Arg(27, n)
  }

  function Head(major: Major, n: nat): seq<Byte> {
    HeadOf(major, Shortest(n))
  }

  // ---------------------------------------------------------------- Writer

  function EncUint(n: nat): seq<Byte> { Head(UINT, n) }

  function EncInt(v: int): seq<Byte> { if v >= 0 then Head(UINT, v) else Head(NINT, -1 - v) }

  function EncBstr(b: seq<Byte>): seq<Byte> { Head(BSTR, |b|) + b }

  function EncTstr(b: seq<Byte>): seq<Byte> { Head(TSTR, |b|) + b }

  function EncBool(v: bool): seq<Byte> { [if v then 0xF5 else 0xF4] }

  /** One encoded key and its encoded value, as write_map receives them. */
  datatype Entry = Entry(key: seq<Byte>, val: seq<Byte>)

  function Cat(es: seq<Entry>): seq<Byte> {
    if es == [] then [] else es[0].key + es[0].val + Cat(es[1..])
  }

  function Insert(e: Entry, es: seq<Entry>): (r: seq<Entry>)
    ensures |r| == |es| + 1
    ensures multiset(r) == multiset{e} + multiset(es)
  {
    if es == [] then [e]
    else if LexLess(es[0].key, e.key) then
      assert es == [es[0]] + es[1..];
      [es[0]] + Insert(e, es[1..])
    else [e] + es
  }

  function SortByKey(es: seq<Entry>): (r: seq<Entry>)
    ensures |r| == |es|
    ensures multiset(r) == multiset(es)
  {
    if es == [] then [] else
      assert es == [es[0]] + es[1..];
      Insert(es[0], SortByKey(es[1..]))
  }

  function EncodeMap(es: seq<Entry>): seq<Byte> {
    Head(MAP, |es|) + Cat(SortByKey(es))
  }

  // ---------------------------------------------------------------- Reader

  function TakeHead(s: seq<Byte>): (r: Parsed<(Major, Arg)>)
    ensures r.Ok? ==> |r.rest| < |s| && r.value.1.n < TWO64
  {
    hide Pow256, FromBigEndian;
    PowersOf256();
    if s == [] then Err(InvalidCbor)
    else
      var major, ai := s[0] / 32, s[0] % 32;
      if ai > 27 || Extra(ai) > |s| - 1 then Err(InvalidCbor)
      else
        var field := s[1..1 + Extra(ai)];
        FromBigEndianRoundTrip(field);
        var n := if ai < 24 then ai else FromBigEndian(field);
        Ok((major, Arg(ai, n)), s[1 + Extra(ai)..])
  }

  function TakeBytes(s: seq<Byte>, n: nat): (r: Parsed<seq<Byte>>)
    ensures r.Ok? ==> |r.value| == n && s == r.value + r.rest
  {
    if n > |s| then Err(InvalidCbor) else Ok(s[..n], s[n..])
  }

  /** A head of the wanted major type, or the type error. */
  function TakeMajor(s: seq<Byte>, major: Major): (r: Parsed<U64>)
    ensures r.Ok? ==> |r.rest| < |s|
  {
    match TakeHead(s)
    case Err(e) => Err(e)
    case Ok(h, rest) => if h.0 == major then Ok(h.1.n, rest) else Err(CborUnexpectedType)
  }

  function ReadUint(s: seq<Byte>): (r: Parsed<U64>) { TakeMajor(s, UINT) }

  function ReadMap(s: seq<Byte>): (r: Parsed<U64>) { TakeMajor(s, MAP) }

  function ReadArray(s: seq<Byte>): (r: Parsed<U64>) { TakeMajor(s, ARRAY) }

  function ReadString(s: seq<Byte>, major: Major): (r: Parsed<Blob>)
    ensures r.Ok? ==> |r.rest| < |s|
  {
    match TakeMajor(s, major)
    case Err(e) => Err(e)
    case Ok(n, rest) => TakeBytes(rest, n)
  }

  function ReadBstr(s: seq<Byte>): (r: Parsed<Blob>) { ReadString(s, BSTR) }

  function ReadTstr(s: seq<Byte>): (r: Parsed<Blob>) { ReadString(s, TSTR) }

  function ReadInteger(s: seq<Byte>): (r: Parsed<int>) {
    match TakeHead(s)
    case Err(e) => Err(e)
    case Ok(h, rest) =>
      if h.0 != UINT && h.0 != NINT then Err(CborUnexpectedType)
      else if h.1.n >= TWO63 then Err(InvalidCbor)
      else Ok(if h.0 == UINT then h.1.n else -1 - h.1.n, rest)
  }

  function ReadBool(s: seq<Byte>): (r: Parsed<bool>) {
    if s == [] then Err(InvalidCbor)
    else if s[0] == 0xF4 then Ok(false, s[1..])
    else if s[0] == 0xF5 then Ok(true, s[1..])
    else Err(CborUnexpectedType)
  }

  const MAX_SKIP_DEPTH := 32

  /** skip_depth. */
  function Skip(s: seq<Byte>, depth: nat): (r: Parsed<()>)
    ensures r.Ok? ==> |r.rest| < |s|
    decreases |s|, 0
  {
    if depth > MAX_SKIP_DEPTH then Err(InvalidCbor)
    else
      match TakeHead(s)
      case Err(e) => Err(e)
      case Ok(h, rest) =>
        if h.0 == BSTR || h.0 == TSTR then
          match TakeBytes(rest, h.1.n) { case Err(e) => Err(e) case Ok(_, r) => Ok((), r) }
        else if h.0 == ARRAY then SkipItems(rest, h.1.n, depth + 1)
        else if h.0 == MAP then SkipItems(rest, 2 * h.1.n, depth + 1)
        else if h.0 == TAG then Skip(rest, depth + 1)
        else Ok((), rest)
  }

  function SkipItems(s: seq<Byte>, k: nat, depth: nat): (r: Parsed<()>)
    ensures r.Ok? ==> |r.rest| <= |s|
    decreases |s|, 1
  {
    if k == 0 then Ok((), s)
    else
      match Skip(s, depth)
      case Err(e) => Err(e)
      case Ok(_, rest) => SkipItems(rest, k - 1, depth)
  }

  /** A loop over n map entries: step reads one key and its value. */
  function MapLoop<S>(step: (S, seq<Byte>) -> Parsed<S>, d: S, n: nat, s: seq<Byte>): Parsed<S> {
    if n == 0 then Ok(d, s)
    else
      match step(d, s)
      case Err(e) => Err(e)
      case Ok(d', rest) => MapLoop(step, d', n - 1, rest)
  }

  function ReadRecord<S>(step: (S, seq<Byte>) -> Parsed<S>, d: S, s: seq<Byte>): Parsed<S> {
    match ReadMap(s)
    case Err(e) => Err(e)
    case Ok(n, rest) => MapLoop(step, d, n, rest)
  }
}
