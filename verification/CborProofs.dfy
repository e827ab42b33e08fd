/** What the CBOR Writer and Reader promise each other: heads and values round-trip, skip takes exactly one
    data item, encodings are prefix-free, and a map's bytes do not depend on the order of its entries. */
module CborProofs {
  import opened Bytes
  import opened Statuses
  import opened Cbor

  // ---------------------------------------------------------------- heads

  lemma FirstByte(m: Major, ai: Info)
    ensures (m * 32 + ai) / 32 == m && (m * 32 + ai) % 32 == ai
  {
  }

  lemma HeadParts(m: Major, a: Arg, t: seq<Byte>)
    ensures var s := HeadOf(m, a) + t;
            && |s| >= 1 + Extra(a.ai) && s[0] / 32 == m && s[0] % 32 == a.ai
            && s[1..1 + Extra(a.ai)] == BigEndian(a.n, Extra(a.ai)) && s[1 + Extra(a.ai)..] == t
  {
    hide BigEndian, Extra;
    FirstByte(m, a.ai);
    var s := HeadOf(m, a) + t;
    assert s[1..1 + Extra(a.ai)] == BigEndian(a.n, Extra(a.ai));
    assert s[1 + Extra(a.ai)..] == t;
  }

  lemma TakeHeadOf(m: Major, a: Arg, t: seq<Byte>)
    requires ArgValid(a)
    ensures TakeHead(HeadOf(m, a) + t) == Ok((m, a), t)
  {
    hide BigEndian, FromBigEndian, Pow256, HeadOf;
    HeadParts(m, a, t);
    if a.ai >= 24 {
      BigEndianRoundTrip(a.n, Extra(a.ai));
    }
  }

  lemma NoArgument()
    ensures forall n: nat :: BigEndian(n, 0) == []
  {
  }

  lemma TakeHeadSound(s: seq<Byte>)
    requires TakeHead(s).Ok?
    ensures ArgValid(TakeHead(s).value.1)
    ensures s == HeadOf(TakeHead(s).value.0, TakeHead(s).value.1) + TakeHead(s).rest
  {
    hide BigEndian, FromBigEndian, Pow256;
    var a := TakeHead(s).value.1;
    var field := s[1..1 + Extra(a.ai)];
    FromBigEndianRoundTrip(field);
    NoArgument();
    assert s == [s[0]] + field + s[1 + Extra(a.ai)..];
  }

  lemma ShortestValid(n: nat)
    requires n < TWO64
    ensures ArgValid(Shortest(n))
  {
    PowersOf256();
  }

  /** The shortest head really is the shortest of the heads that carry n. */
  lemma ShortestIsShortest(n: nat, a: Arg)
    requires ArgValid(a) && a.n == n
    ensures |HeadOf(0, Shortest(n))| <= |HeadOf(0, a)|
  {
    PowersOf256();
  }

  lemma TakeShortest(m: Major, n: nat, t: seq<Byte>)
    requires n < TWO64
    ensures TakeHead(Head(m, n) + t) == Ok((m, Shortest(n)), t)
  {
    ShortestValid(n);
    TakeHeadOf(m, Shortest(n), t);
  }

  // ---------------------------------------------------------------- values

  lemma UintRoundTrip(n: U64, t: seq<Byte>)
    ensures ReadUint(EncUint(n) + t) == Ok(n, t)
  {
    hide TakeHead, Head;
    TakeShortest(UINT, n, t);
  }

  lemma IntegerRoundTrip(v: int, t: seq<Byte>)
    requires -TWO63 <= v < TWO63
    ensures ReadInteger(EncInt(v) + t) == Ok(v, t)
  {
    hide TakeHead, Head;
    if v >= 0 {
      TakeShortest(UINT, v, t);
    } else {
      TakeShortest(NINT, -1 - v, t);
    }
  }

  lemma StringRoundTrip(m: Major, b: Blob, t: seq<Byte>)
    ensures ReadString(Head(m, |b|) + b + t, m) == Ok(b, t)
  {
    hide TakeHead, Head;
    assert Head(m, |b|) + b + t == Head(m, |b|) + (b + t);
    TakeShortest(m, |b|, b + t);
    assert (b + t)[..|b|] == b && (b + t)[|b|..] == t;
  }

  lemma BoolRoundTrip(v: bool, t: seq<Byte>)
    ensures ReadBool(EncBool(v) + t) == Ok(v, t)
  {
  }

  // ---------------------------------------------------------------- data items and skip

  /** A definite-length data item (section 3 of RFC 8949), with any argument width, not only the shortest.
      bytes is a string's content; kids are an array's elements, a map's keys and values in turn, or what
      a tag holds. */
  datatype Item = Item(major: Major, arg: Arg, bytes: seq<Byte>, kids: seq<Item>)

  function PayloadLength(m: Major, n: nat): nat { if m == BSTR || m == TSTR then n else 0 }

  function KidCount(m: Major, n: nat): nat {
    if m == ARRAY then n else if m == MAP then 2 * n else if m == TAG then 1 else 0
  }

  ghost predicate ItemValid(it: Item)
    decreases it
  {
    && ArgValid(it.arg)
    && |it.bytes| == PayloadLength(it.major, it.arg.n)
    && |it.kids| == KidCount(it.major, it.arg.n)
    && forall k <- it.kids :: ItemValid(k)
  }

  function EncodeItem(it: Item): seq<Byte>
    decreases it, 1
  {
    HeadOf(it.major, it.arg) + it.bytes + EncodeItems(it.kids)
  }

  function EncodeItems(kids: seq<Item>): seq<Byte>
    decreases kids, 0
  {
    if kids == [] then [] else EncodeItem(kids[0]) + EncodeItems(kids[1..])
  }

  /** Levels of nesting below the item. */
  function Height(it: Item): nat
    decreases it, 1
  {
    Heights(it.kids)
  }

  function Heights(kids: seq<Item>): nat
    decreases kids, 0
  {
    if kids == [] then 0
    else
      var a, b := 1 + Height(kids[0]), Heights(kids[1..]);
      if a >= b then a else b
  }

  /** A reference parser: like Skip, but it returns the item and takes its nesting budget as a parameter. */
  ghost function Parse(s: seq<Byte>, budget: nat): (r: Parsed<Item>)
    ensures r.Ok? ==> |r.rest| < |s|
    decreases |s|, 0
  {
    if budget == 0 then Err(InvalidCbor)
    else
      match TakeHead(s)
      case Err(e) => Err(e)
      case Ok(h, s1) => ParseContent(h.0, h.1, s1, budget - 1)
  }

  ghost function ParseContent(m: Major, a: Arg, s: seq<Byte>, budget: nat): (r: Parsed<Item>)
    ensures r.Ok? ==> |r.rest| <= |s|
    decreases |s|, 2
  {
    match TakeBytes(s, PayloadLength(m, a.n))
    case Err(e) => Err(e)
    case Ok(b, s2) =>
      match ParseItems(s2, KidCount(m, a.n), budget)
      case Err(e) => Err(e)
      case Ok(kids, s3) => Ok(Item(m, a, b, kids), s3)
  }

  ghost function ParseItems(s: seq<Byte>, k: nat, budget: nat): (r: Parsed<seq<Item>>)
    ensures r.Ok? ==> |r.rest| <= |s|
    decreases |s|, 1
  {
    if k == 0 then Ok([], s)
    else
      match Parse(s, budget)
      case Err(e) => Err(e)
      case Ok(it, s1) =>
        match ParseItems(s1, k - 1, budget)
        case Err(e) => Err(e)
        case Ok(its, s2) => Ok([it] + its, s2)
  }

  ghost function Forget<T>(p: Parsed<T>): Parsed<()> {
    match p case Ok(_, rest) => Ok((), rest) case Err(e) => Err(e)
  }

  lemma {:induction false} SkipParses(s: seq<Byte>, depth: nat)
    requires depth <= MAX_SKIP_DEPTH + 1
    ensures Skip(s, depth) == Forget(Parse(s, MAX_SKIP_DEPTH + 1 - depth))
    decreases |s|, 0
  {
    if depth <= MAX_SKIP_DEPTH && TakeHead(s).Ok? {
      var h, rest, budget := TakeHead(s).value, TakeHead(s).rest, MAX_SKIP_DEPTH - depth;
      var content := ParseContent(h.0, h.1, rest, budget);
      assert rest[0..] == rest;
      if h.0 == BSTR || h.0 == TSTR {
        match TakeBytes(rest, h.1.n) {
          case Ok(b, after) => assert ParseItems(after, 0, budget) == Ok([], after);
          case Err(_) =>
        }
      } else {
        SkipItemsParses(rest, KidCount(h.0, h.1.n), depth + 1);
        assert Forget(content) == SkipItems(rest, KidCount(h.0, h.1.n), depth + 1);
      }
      if h.0 == TAG {
        var inner := Skip(rest, depth + 1);
        match inner {
          case Ok(unit, after) =>
            assert unit == ();
            assert SkipItems(after, 0, depth + 1) == Ok((), after);
          case Err(_) =>
        }
        assert SkipItems(rest, 1, depth + 1) == inner;
      }
    }
  }

  lemma {:induction false} SkipItemsParses(s: seq<Byte>, k: nat, depth: nat)
    requires depth <= MAX_SKIP_DEPTH + 1
    ensures SkipItems(s, k, depth) == Forget(ParseItems(s, k, MAX_SKIP_DEPTH + 1 - depth))
    decreases |s|, 1
  {
    hide Skip, Parse;
    if k > 0 {
      SkipParses(s, depth);
      if Skip(s, depth).Ok? {
        SkipItemsParses(Skip(s, depth).rest, k - 1, depth);
      }
    }
  }

  lemma {:induction false} ParseEncoded(it: Item, t: seq<Byte>, budget: nat)
    requires ItemValid(it) && Height(it) < budget
    ensures Parse(EncodeItem(it) + t, budget) == Ok(it, t)
    decreases it, 2
  {
    hide TakeHead, HeadOf, ParseContent, ArgValid;
    var s1 := it.bytes + (EncodeItems(it.kids) + t);
    assert EncodeItem(it) + t == HeadOf(it.major, it.arg) + s1;
    TakeHeadOf(it.major, it.arg, s1);
    ParseEncodedContent(it, t, budget - 1);
  }

  lemma {:induction false} ParseEncodedContent(it: Item, t: seq<Byte>, budget: nat)
    requires ItemValid(it) && Height(it) <= budget
    ensures ParseContent(it.major, it.arg, it.bytes + (EncodeItems(it.kids) + t), budget) == Ok(it, t)
    decreases it, 1
  {
    hide ParseItems, ArgValid, EncodeItems;
    var s1 := it.bytes + (EncodeItems(it.kids) + t);
    assert s1[..|it.bytes|] == it.bytes && s1[|it.bytes|..] == EncodeItems(it.kids) + t;
    ParseEncodedItems(it.kids, t, budget);
  }

  lemma {:induction false} ParseEncodedItems(kids: seq<Item>, t: seq<Byte>, budget: nat)
    requires forall k <- kids :: ItemValid(k)
    requires Heights(kids) <= budget
    ensures ParseItems(EncodeItems(kids) + t, |kids|, budget) == Ok(kids, t)
    decreases kids, 0
  {
    if kids == [] {
      assert EncodeItems(kids) + t == t;
    } else {
      var more := EncodeItems(kids[1..]) + t;
      assert kids == [kids[0]] + kids[1..];
      FirstItemFirst(kids[0], kids[1..], t);
      ParseEncoded(kids[0], more, budget);
      ParseEncodedItems(kids[1..], t, budget);
      ParseFirst(kids[0], kids[1..], more, t, budget);
    }
  }

  lemma ParseFirst(it: Item, its: seq<Item>, more: seq<Byte>, t: seq<Byte>, budget: nat)
    requires Parse(EncodeItem(it) + more, budget) == Ok(it, more)
    requires ParseItems(more, |its|, budget) == Ok(its, t)
    ensures ParseItems(EncodeItem(it) + more, 1 + |its|, budget) == Ok([it] + its, t)
  {
  }

  lemma {:induction false} ParseSound(s: seq<Byte>, budget: nat)
    requires Parse(s, budget).Ok?
    ensures ItemValid(Parse(s, budget).value) && Height(Parse(s, budget).value) < budget
    ensures s == EncodeItem(Parse(s, budget).value) + Parse(s, budget).rest
    decreases |s|, 0
  {
    TakeHeadSound(s);
    var h, s1 := TakeHead(s).value, TakeHead(s).rest;
    ParseContentSound(h.0, h.1, s1, budget - 1);
    HeadFirst(Parse(s, budget).value, Parse(s, budget).rest);
  }

  lemma HeadFirst(it: Item, t: seq<Byte>)
    ensures EncodeItem(it) + t == HeadOf(it.major, it.arg) + (it.bytes + EncodeItems(it.kids) + t)
  {
  }

  lemma FirstItemFirst(it: Item, its: seq<Item>, t: seq<Byte>)
    ensures EncodeItems([it] + its) + t == EncodeItem(it) + (EncodeItems(its) + t)
    ensures Heights([it] + its) == if 1 + Height(it) >= Heights(its) then 1 + Height(it) else Heights(its)
  {
    assert ([it] + its)[1..] == its;
  }

  lemma {:induction false} ParseContentSound(m: Major, a: Arg, s: seq<Byte>, budget: nat)
    requires ArgValid(a) && ParseContent(m, a, s, budget).Ok?
    ensures var it := ParseContent(m, a, s, budget).value;
            ItemValid(it) && it.major == m && it.arg == a && Height(it) <= budget
            && s == it.bytes + EncodeItems(it.kids) + ParseContent(m, a, s, budget).rest
    decreases |s|, 2
  {
    hide ArgValid, TakeBytes;
    var b := TakeBytes(s, PayloadLength(m, a.n));
    ParseItemsSound(b.rest, KidCount(m, a.n), budget);
    var kids := ParseItems(b.rest, KidCount(m, a.n), budget);
    assert b.value + (EncodeItems(kids.value) + kids.rest) == b.value + EncodeItems(kids.value) + kids.rest;
  }

  lemma {:induction false} ParseItemsSound(s: seq<Byte>, k: nat, budget: nat)
    requires ParseItems(s, k, budget).Ok?
    ensures var its := ParseItems(s, k, budget).value;
            |its| == k && (forall it <- its :: ItemValid(it)) && Heights(its) <= budget
            && s == EncodeItems(its) + ParseItems(s, k, budget).rest
    decreases |s|, 1
  {
    if k > 0 {
      ParseSound(s, budget);
      var p := Parse(s, budget);
      ParseItemsSound(p.rest, k - 1, budget);
      var q := ParseItems(p.rest, k - 1, budget);
      FirstItemFirst(p.value, q.value, q.rest);
    }
  }

  /** On any bytes, skip succeeds and leaves rest exactly when what it took is the encoding of one valid
      data item with at most 32 levels below it. */
  lemma SkipExact(s: seq<Byte>, rest: seq<Byte>)
    ensures Skip(s, 0) == Ok((), rest)
       <==> exists it :: ItemValid(it) && Height(it) <= MAX_SKIP_DEPTH && s == EncodeItem(it) + rest
  {
    SkipParses(s, 0);
    if Skip(s, 0) == Ok((), rest) {
      ParseSound(s, MAX_SKIP_DEPTH + 1);
    }
    forall it | ItemValid(it) && Height(it) <= MAX_SKIP_DEPTH && s == EncodeItem(it) + rest
      ensures Skip(s, 0) == Ok((), rest)
    {
      ParseEncoded(it, rest, MAX_SKIP_DEPTH + 1);
    }
  }

  /** No encoding is a proper prefix of another, at any nesting. */
  lemma PrefixFree(a: Item, b: Item, t: seq<Byte>, u: seq<Byte>)
    requires ItemValid(a) && ItemValid(b)
    requires EncodeItem(a) + t == EncodeItem(b) + u
    ensures a == b && t == u
  {
    var budget := 1 + Height(a) + Height(b);
    ParseEncoded(a, t, budget);
    ParseEncoded(b, u, budget);
  }

  // ---------------------------------------------------------------- maps

  ghost predicate DistinctKeys(es: seq<Entry>) {
    forall i, j :: 0 <= i < j < |es| ==> es[i].key != es[j].key
  }

  ghost predicate StrictlySorted(es: seq<Entry>) {
    forall i, j :: 0 <= i < j < |es| ==> LexLess(es[i].key, es[j].key)
  }

  lemma SameMembers<T>(a: seq<T>, b: seq<T>)
    requires multiset(a) == multiset(b)
    ensures |a| == |b| && forall x :: x in a <==> x in b
  {
    assert |a| == |multiset(a)| && |b| == |multiset(b)|;
    forall x ensures x in a <==> x in b {
      assert x in a <==> x in multiset(a);
      assert x in b <==> x in multiset(b);
    }
  }

  lemma {:induction false} InsertStrict(e: Entry, es: seq<Entry>)
    requires StrictlySorted(es) && forall x <- es :: x.key != e.key
    ensures StrictlySorted(Insert(e, es))
  {
    if es != [] {
      LexTotal(es[0].key, e.key);
      if LexLess(es[0].key, e.key) {
        InsertStrict(e, es[1..]);
        var r := Insert(e, es[1..]);
        forall j | 0 <= j < |r| ensures LexLess(es[0].key, r[j].key) {
          assert r[j] in multiset(r);
          assert r[j] == e || r[j] in es[1..];
        }
      } else {
        forall j | 0 <= j < |es| ensures LexLess(e.key, es[j].key) {
          if j > 0 { LexTransitive(e.key, es[0].key, es[j].key); }
        }
      }
    }
  }

  lemma {:induction false} SortStrict(es: seq<Entry>)
    requires DistinctKeys(es)
    ensures StrictlySorted(SortByKey(es))
  {
    if es != [] {
      SortStrict(es[1..]);
      SameMembers(SortByKey(es[1..]), es[1..]);
      InsertStrict(es[0], SortByKey(es[1..]));
    }
  }

  lemma FirstAgrees(a: seq<Entry>, b: seq<Entry>)
    requires StrictlySorted(a) && StrictlySorted(b) && multiset(a) == multiset(b) && a != []
    ensures b != [] && a[0] == b[0]
  {
    SameMembers(a, b);
    assert a[0] in b && b[0] in a;
    var i :| 0 <= i < |b| && b[i] == a[0];
    var j :| 0 <= j < |a| && a[j] == b[0];
    if i > 0 && j > 0 {
      LexTotal(a[0].key, b[0].key);
    }
  }

  lemma {:induction false} StrictUnique(a: seq<Entry>, b: seq<Entry>)
    requires StrictlySorted(a) && StrictlySorted(b) && multiset(a) == multiset(b)
    ensures a == b
  {
    if a == [] {
      SameMembers(a, b);
    } else {
      FirstAgrees(a, b);
      assert a == [a[0]] + a[1..] && b == [b[0]] + b[1..];
      assert multiset(a[1..]) == multiset(a) - multiset{a[0]};
      assert multiset(b[1..]) == multiset(b) - multiset{b[0]};
      StrictUnique(a[1..], b[1..]);
    }
  }

  /** For distinct keys the map's bytes do not depend on the order the entries were added in, and any
      strictly sorted arrangement of them (all that std::sort promises) is the one written. */
  lemma MapOrderFree(a: seq<Entry>, b: seq<Entry>)
    requires DistinctKeys(a) && DistinctKeys(b) && multiset(a) == multiset(b)
    ensures EncodeMap(a) == EncodeMap(b)
    ensures StrictlySorted(b) ==> EncodeMap(a) == Head(MAP, |a|) + Cat(b)
  {
    SortStrict(a);
    SortStrict(b);
    SameMembers(a, b);
    StrictUnique(SortByKey(a), SortByKey(b));
    if StrictlySorted(b) {
      StrictUnique(SortByKey(a), b);
    }
  }

  /** Reading a map back. inv(seen, d) says what the record d holds once the keys in seen were read, in
      whatever order; each entry's key and value bytes must take inv from seen to seen plus its key. */
  ghost predicate EntryReads<S(!new)>(step: (S, seq<Byte>) -> Parsed<S>, inv: (set<seq<Byte>>, S) -> bool, e: Entry) {
    forall seen, d, t :: inv(seen, d) && e.key !in seen ==>
      var r := step(d, e.key + e.val + t);
      r.Ok? && r.rest == t && inv(seen + {e.key}, r.value)
  }

  ghost function Keys(es: seq<Entry>): set<seq<Byte>> {
    set e <- es :: e.key
  }

  lemma KeysFirst(es: seq<Entry>)
    requires DistinctKeys(es) && es != []
    ensures Keys(es) == {es[0].key} + Keys(es[1..]) && es[0].key !in Keys(es[1..]) && DistinctKeys(es[1..])
  {
    assert es == [es[0]] + es[1..];
  }

  lemma CatFirst(es: seq<Entry>, t: seq<Byte>)
    requires es != []
    ensures Cat(es) + t == es[0].key + es[0].val + (Cat(es[1..]) + t)
  {
  }

  lemma {:induction false} MapLoopReads<S(!new)>(step: (S, seq<Byte>) -> Parsed<S>, inv: (set<seq<Byte>>, S) -> bool,
                                                 seen: set<seq<Byte>>, d: S, es: seq<Entry>, t: seq<Byte>)
    requires DistinctKeys(es) && inv(seen, d) && seen !! Keys(es)
    requires forall e <- es :: EntryReads(step, inv, e)
    ensures var r := MapLoop(step, d, |es|, Cat(es) + t);
            r.Ok? && r.rest == t && inv(seen + Keys(es), r.value)
    decreases |es|
  {
    if es == [] {
      assert Cat(es) + t == t && seen + Keys(es) == seen;
    } else {
      hide Cat, Keys, DistinctKeys;
      var e, more := es[0], Cat(es[1..]) + t;
      CatFirst(es, t);
      KeysFirst(es);
      assert EntryReads(step, inv, e);
      var r := step(d, e.key + e.val + more);
      MapLoopReads(step, inv, seen + {e.key}, r.value, es[1..], t);
      assert seen + {e.key} + Keys(es[1..]) == seen + Keys(es);
    }
  }

  /** A record's bytes with its entries in the order given. */
  function Document(es: seq<Entry>): seq<Byte> { Head(MAP, |es|) + Cat(es) }

  /** Reading a record back, in whatever order its entries come. */
  lemma RecordReads<S(!new)>(step: (S, seq<Byte>) -> Parsed<S>, inv: (set<seq<Byte>>, S) -> bool, d: S,
                             es: seq<Entry>, t: seq<Byte>)
    requires DistinctKeys(es) && |es| < TWO64 && inv({}, d)
    requires forall e <- es :: EntryReads(step, inv, e)
    ensures var r := ReadRecord(step, d, Document(es) + t);
            r.Ok? && r.rest == t && inv(Keys(es), r.value)
  {
    assert Document(es) + t == Head(MAP, |es|) + (Cat(es) + t);
    TakeShortest(MAP, |es|, Cat(es) + t);
    MapLoopReads(step, inv, {}, d, es, t);
    assert {} + Keys(es) == Keys(es);
  }

  /** Two orders of a record's entries read as the same record, where the keys determine it. */
  lemma RecordOrderFree<S(!new)>(step: (S, seq<Byte>) -> Parsed<S>, inv: (set<seq<Byte>>, S) -> bool, d: S,
                                 es: seq<Entry>, fs: seq<Entry>, t: seq<Byte>)
    requires DistinctKeys(es) && DistinctKeys(fs) && |es| < TWO64 && |fs| < TWO64 && inv({}, d)
    requires forall e :: e in es <==> e in fs
    requires forall e <- es :: EntryReads(step, inv, e)
    requires forall a, b :: inv(Keys(es), a) && inv(Keys(es), b) ==> a == b
    ensures ReadRecord(step, d, Document(es) + t) == ReadRecord(step, d, Document(fs) + t)
    ensures ReadRecord(step, d, Document(es) + t).Ok?
  {
    hide ReadRecord, Document, EntryReads;
    assert Keys(es) == Keys(fs);
    RecordReads(step, inv, d, es, t);
    RecordReads(step, inv, d, fs, t);
  }

  /** write_map writes a document whose entries are the given ones, rearranged. */
  lemma MapIsDocument(es: seq<Entry>)
    requires DistinctKeys(es)
    ensures var sorted := SortByKey(es);
            EncodeMap(es) == Document(sorted) && DistinctKeys(sorted) && |sorted| == |es|
            && (forall e :: e in sorted <==> e in es)
  {
    var sorted := SortByKey(es);
    SortStrict(es);
    SameMembers(sorted, es);
    forall i, j | 0 <= i < j < |sorted| ensures sorted[i].key != sorted[j].key {
      LexTotal(sorted[i].key, sorted[j].key);
    }
  }

  // ---------------------------------------------------------------- key order

  datatype MapKey = KUint(n: U64) | KNint(n: U64) | KBytes(b: Blob) | KText(b: Blob)

  function KeyMajor(k: MapKey): Major {
    match k case KUint(_) => UINT case KNint(_) => NINT case KBytes(_) => BSTR case KText(_) => TSTR
  }

  function KeyArg(k: MapKey): nat {
    match k case KUint(n) => n case KNint(n) => n case KBytes(b) => |b| case KText(b) => |b|
  }

  function KeyTail(k: MapKey): seq<Byte> {
    match k case KBytes(b) => b case KText(b) => b case _ => []
  }

  function EncodeKey(k: MapKey): seq<Byte> { Head(KeyMajor(k), KeyArg(k)) + KeyTail(k) }

  /** CTAP2 canonical order (section 8 of CTAP 2.1): major type, then length, then bytes. */
  predicate CanonicalLess(a: MapKey, b: MapKey) {
    if KeyMajor(a) != KeyMajor(b) then KeyMajor(a) < KeyMajor(b)
    else if |EncodeKey(a)| != |EncodeKey(b)| then |EncodeKey(a)| < |EncodeKey(b)|
    else LexLess(EncodeKey(a), EncodeKey(b))
  }

  lemma ShortestOrder(x: nat, y: nat)
    requires x < y < TWO64
    ensures Shortest(x).ai <= Shortest(y).ai && Extra(Shortest(x).ai) <= Extra(Shortest(y).ai)
    ensures Shortest(x).ai == Shortest(y).ai ==>
              24 <= Shortest(x).ai && x < Pow256(Extra(Shortest(x).ai)) && y < Pow256(Extra(Shortest(x).ai))
  {
    ShortestValid(x);
    ShortestValid(y);
  }

  lemma HeadOrder(m: Major, x: nat, y: nat, a: seq<Byte>, b: seq<Byte>)
    requires x < y < TWO64
    ensures LexLess(Head(m, x) + a, Head(m, y) + b)
    ensures |Head(m, x)| <= |Head(m, y)|
  {
    ShortestOrder(x, y);
    var p, q := Shortest(x).ai, Shortest(y).ai;
    var u, v := BigEndian(x, Extra(p)), BigEndian(y, Extra(q));
    assert Head(m, x) + a == [m * 32 + p] + (u + a);
    assert Head(m, y) + b == [m * 32 + q] + (v + b);
    if p == q {
      BigEndianOrder(x, y, Extra(p));
      LexTotal(u, v);
      LexDecided(u, v, a, b);
      LexPrefix([m * 32 + p], u + a, v + b);
    } else {
      LexDecided([m * 32 + p], [m * 32 + q], u + a, v + b);
    }
  }

  /** Bytewise order of encoded keys (what write_map sorts by) is the CTAP2 canonical order. */
  lemma KeyOrderCanonical(a: MapKey, b: MapKey)
    ensures LexLess(EncodeKey(a), EncodeKey(b)) == CanonicalLess(a, b)
  {
    var x, y := EncodeKey(a), EncodeKey(b);
    var m := KeyMajor(a);
    if m == KeyMajor(b) && KeyArg(a) != KeyArg(b) {
      if KeyArg(a) < KeyArg(b) {
        HeadOrder(m, KeyArg(a), KeyArg(b), KeyTail(a), KeyTail(b));
      } else {
        HeadOrder(m, KeyArg(b), KeyArg(a), KeyTail(b), KeyTail(a));
      }
      LexTotal(x, y);
    }
  }
}
