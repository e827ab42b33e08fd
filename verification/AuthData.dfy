/** Authenticator data as src/ctap/auth_data.cpp builds it, and the parser that section 6.1 of WebAuthn Level 3
    describes for it. */
module AuthData {
  import opened Bytes
  import opened Statuses
  import opened Cbor
  import opened CborProofs
  import opened StoreCodec
  import opened World
  import opened Store
  import opened Authenticator

  datatype PublicKey = PublicKey(x: Bytes32, y: Bytes32)

  // ---------------------------------------------------------------- COSE keys

  function CoseEntries(k: PublicKey): seq<Entry> {
    [Entry(EncInt(1), EncInt(2)), Entry(EncInt(3), EncInt(-7)), Entry(EncInt(-1), EncInt(1)),
     Entry(EncInt(-2), EncBstr(k.x)), Entry(EncInt(-3), EncBstr(k.y))]
  }

  function EncodeCose(k: PublicKey): seq<Byte> { EncodeMap(CoseEntries(k)) }

  /** read_int_key: the type error comes before the head is read. */
  function ReadIntKey(s: seq<Byte>): (r: Parsed<int>) {
    if s == [] then Err(InvalidCbor)
    else if s[0] / 32 != UINT && s[0] / 32 != NINT then Err(CborUnexpectedType)
    else ReadInteger(s)
  }

  /** The coordinates read so far. */
  datatype CoseRead = CoseRead(x: Option<Bytes32>, y: Option<Bytes32>)

  /** An integer that has to have the wanted value. */
  function Expect(s: seq<Byte>, wanted: int): Parsed<()> {
    match ReadInteger(s)
    case Err(e) => Err(e)
    case Ok(v, t) => if v != wanted then Err(InvalidParameter) else Ok((), t)
  }

  function ReadCoordinate(s: seq<Byte>): Parsed<Bytes32> {
    match ReadBstr(s)
    case Err(e) => Err(e)
    case Ok(b, t) => if |b| != 32 then Err(InvalidParameter) else Ok(b, t)
  }

  function CoseStep(d: CoseRead, s: seq<Byte>): Parsed<CoseRead> {
    match ReadIntKey(s)
    case Err(e) => Err(e)
    case Ok(k, rest) =>
      if k == -2 then (match ReadCoordinate(rest) case Ok(v, t) => Ok(d.(x := Some(v)), t) case Err(e) => Err(e))
      else if k == -3 then (match ReadCoordinate(rest) case Ok(v, t) => Ok(d.(y := Some(v)), t) case Err(e) => Err(e))
      else if k == 1 then (match Expect(rest, 2) case Ok(_, t) => Ok(d, t) case Err(e) => Err(e))
      else if k == -1 then (match Expect(rest, 1) case Ok(_, t) => Ok(d, t) case Err(e) => Err(e))
      else (match Skip(rest, 0) case Ok(_, t) => Ok(d, t) case Err(e) => Err(e))
  }

  function ParseCose(s: seq<Byte>): Parsed<PublicKey> {
    match ReadRecord(CoseStep, CoseRead(None, None), s)
    case Err(e) => Err(e)
    case Ok(d, t) => if d.x.None? || d.y.None? then Err(MissingParameter) else Ok(PublicKey(d.x.value, d.y.value), t)
  }

  // ---------------------------------------------------------------- builders

  function TwoByteLength(n: nat): (s: seq<Byte>)
    ensures |s| == 2
  {
    [n / 256 % 256, n % 256]
  }

  function BuildAttested(aaguid: Bytes16, credId: seq<Byte>, key: PublicKey): seq<Byte> {
    aaguid + TwoByteLength(|credId|) + credId + EncodeCose(key)
  }

  function BuildAuthData(rpIdHash: Bytes32, flags: Byte, count: U32, attested: seq<Byte>,
                         extensions: seq<Byte>): seq<Byte> {
    rpIdHash + [flags] + BigEndian(count, 4) + attested + extensions
  }

  // ---------------------------------------------------------------- what a relying party reads

  datatype Attested = Attested(aaguid: Bytes16, credId: seq<Byte>, key: PublicKey)
  datatype AuthView = AuthView(rpIdHash: Bytes32, flags: Byte, count: U32, attested: Option<Attested>,
                               extensions: seq<Byte>)

  function AttestedBytes(a: Option<Attested>): seq<Byte> {
    match a case Some(d) => BuildAttested(d.aaguid, d.credId, d.key) case None => []
  }

  /** What the builders make of it. */
  function Built(v: AuthView): seq<Byte> {
    BuildAuthData(v.rpIdHash, v.flags, v.count, AttestedBytes(v.attested), v.extensions)
  }

  predicate HasAt(flags: Byte) { flags / FLAG_AT % 2 == 1 }

  predicate HasEd(flags: Byte) { flags / FLAG_ED % 2 == 1 }

  function ParseAttested(s: seq<Byte>): Option<(Attested, seq<Byte>)> {
    if |s| < 18 then None
    else
      var n := FromBigEndian(s[16..18]);
      if |s| < 18 + n then None
      else match ParseCose(s[18 + n..])
        case Err(_) => None
        case Ok(key, rest) => Some((Attested(s[..16], s[18..18 + n], key), rest))
  }

  /** The AT flag says whether attested credential data follows, the ED flag whether extensions do; nothing may
      be left over. */
  function ParseAuthData(s: seq<Byte>): Option<AuthView> {
    if |s| < 37 then None
    else
      FromBigEndianRoundTrip(s[33..37]);
      assert Pow256(4) == TWO32;
      var flags, count := s[32], FromBigEndian(s[33..37]);
      if HasAt(flags) then
        match ParseAttested(s[37..])
        case None => None
        case Some((att, rest)) => WithExtensions(AuthView(s[..32], flags, count, Some(att), []), rest)
      else WithExtensions(AuthView(s[..32], flags, count, None, []), s[37..])
  }

  function WithExtensions(v: AuthView, rest: seq<Byte>): Option<AuthView> {
    if HasEd(v.flags) then (if Skip(rest, 0) == Ok((), []) then Some(v.(extensions := rest)) else None)
    else if rest == [] then Some(v)
    else None
  }

  // ---------------------------------------------------------------- COSE keys read back

  lemma EncIntInjective(a: int, b: int)
    requires -TWO63 <= a < TWO63 && -TWO63 <= b < TWO63 && EncInt(a) == EncInt(b)
    ensures a == b
  {
    IntegerRoundTrip(a, []);
    IntegerRoundTrip(b, []);
  }

  lemma IntKeyRoundTrip(n: int, t: seq<Byte>)
    requires -TWO63 <= n < TWO63
    ensures ReadIntKey(EncInt(n) + t) == Ok(n, t)
  {
    IntegerRoundTrip(n, t);
    assert (EncInt(n) + t)[0] == EncInt(n)[0];
  }

  /** An entry with integer key n that agrees with key: a coordinate, the fixed type or curve, or anything else
      under any other key. */
  ghost predicate CoseEntry(key: PublicKey, e: Entry, n: int, it: Item) {
    && -TWO63 <= n < TWO63 && e.key == EncInt(n)
    && if n == -2 then e.val == EncBstr(key.x)
       else if n == -3 then e.val == EncBstr(key.y)
       else if n == 1 then e.val == EncInt(2)
       else if n == -1 then e.val == EncInt(1)
       else e.val == EncodeItem(it) && ItemValid(it) && Height(it) <= MAX_SKIP_DEPTH
  }

  ghost predicate CoseDoc(key: PublicKey, es: seq<Entry>) {
    && DistinctKeys(es) && |es| < TWO64
    && (forall e <- es :: exists n, it :: CoseEntry(key, e, n, it))
    && EncInt(-2) in Keys(es) && EncInt(-3) in Keys(es)
  }

  ghost function CoseSoFar(key: PublicKey, seen: set<seq<Byte>>): CoseRead {
    CoseRead(if EncInt(-2) in seen then Some(key.x) else None, if EncInt(-3) in seen then Some(key.y) else None)
  }

  ghost function CoseInv(key: PublicKey): (set<seq<Byte>>, CoseRead) -> bool {
    (seen, d) => d == CoseSoFar(key, seen)
  }

  lemma CoseNothing(key: PublicKey)
    ensures CoseInv(key)({}, CoseRead(None, None))
  {
    var seen: set<seq<Byte>> := {};
    assert CoseSoFar(key, seen) == CoseRead(None, None);
  }

  lemma CoseSeen(key: PublicKey, seen: set<seq<Byte>>, n: int)
    requires -TWO63 <= n < TWO63
    ensures CoseSoFar(key, seen + {EncInt(n)})
         == if n == -2 then CoseSoFar(key, seen).(x := Some(key.x))
            else if n == -3 then CoseSoFar(key, seen).(y := Some(key.y))
            else CoseSoFar(key, seen)
  {
    hide EncInt;
    if EncInt(n) == EncInt(-2) { EncIntInjective(n, -2); }
    if EncInt(n) == EncInt(-3) { EncIntInjective(n, -3); }
  }

  lemma CoseEntryStep(key: PublicKey, seen: set<seq<Byte>>, e: Entry, n: int, it: Item, t: seq<Byte>)
    requires CoseEntry(key, e, n, it)
    ensures CoseStep(CoseSoFar(key, seen), e.key + e.val + t) == Ok(CoseSoFar(key, seen + {e.key}), t)
  {
    hide ReadIntKey, EncInt, ReadInteger, ReadString, Head, Skip, EncodeItem, CoseSoFar, ItemValid, Height;
    assert e.key + e.val + t == e.key + (e.val + t);
    IntKeyRoundTrip(n, e.val + t);
    CoseSeen(key, seen, n);
    if n == -2 {
      StringRoundTrip(BSTR, key.x, t);
    } else if n == -3 {
      StringRoundTrip(BSTR, key.y, t);
    } else if n == 1 {
      IntegerRoundTrip(2, t);
    } else if n == -1 {
      IntegerRoundTrip(1, t);
    } else {
      assert ItemValid(it) && Height(it) <= MAX_SKIP_DEPTH && e.val + t == EncodeItem(it) + t;
      SkipExact(e.val + t, t);
    }
  }

  /** Every arrangement of a key's map reads back as the key, whatever other integer keys are in it. */
  lemma CoseReads(key: PublicKey, es: seq<Entry>, t: seq<Byte>)
    requires CoseDoc(key, es)
    ensures ParseCose(Document(es) + t) == Ok(key, t)
  {
    hide CoseStep, Document, ReadRecord, CoseEntry, EncInt;
    forall e | e in es ensures EntryReads(CoseStep, CoseInv(key), e) {
      var n, it :| CoseEntry(key, e, n, it);
      forall seen, d, t | CoseInv(key)(seen, d) && e.key !in seen
        ensures var r := CoseStep(d, e.key + e.val + t);
                r.Ok? && r.rest == t && CoseInv(key)(seen + {e.key}, r.value)
      {
        CoseEntryStep(key, seen, e, n, it, t);
      }
    }
    CoseNothing(key);
    RecordReads(CoseStep, CoseInv(key), CoseRead(None, None), es, t);
    assert ReadRecord(CoseStep, CoseRead(None, None), Document(es) + t) == Ok(CoseSoFar(key, Keys(es)), t);
  }

  lemma CoseKeyBytes()
    ensures EncInt(1) == [0x01] && EncInt(3) == [0x03] && EncInt(-1) == [0x20] && EncInt(-2) == [0x21]
            && EncInt(-3) == [0x22]
    ensures EncInt(2) == [0x02] && EncInt(-7) == [0x26] && |Head(MAP, 5)| == 1
            && forall b: Bytes32 :: |EncBstr(b)| == 34
  {
  }

  lemma CoseSorted(key: PublicKey)
    ensures StrictlySorted(CoseEntries(key)) && DistinctKeys(CoseEntries(key))
  {
    hide EncInt, EncBstr, LexLess;
    CoseKeyBytes();
    var keys: seq<Byte> := [0x01, 0x03, 0x20, 0x21, 0x22];
    var es := CoseEntries(key);
    forall i, j | 0 <= i < j < |es| ensures LexLess(es[i].key, es[j].key) && es[i].key != es[j].key {
      assert es[i].key == [keys[i]] && es[j].key == [keys[j]];
      OneByteOrder(keys[i], keys[j]);
    }
  }

  lemma CatCons(e: Entry, es: seq<Entry>)
    ensures Cat([e] + es) == e.key + e.val + Cat(es)
  {
    assert ([e] + es)[1..] == es;
  }

  lemma CatFive(a: Entry, b: Entry, c: Entry, d: Entry, e: Entry)
    ensures |Cat([a, b, c, d, e])| == |a.key| + |a.val| + |b.key| + |b.val| + |c.key| + |c.val| + |d.key| + |d.val|
            + |e.key| + |e.val|
  {
    hide Cat;
    CatCons(e, []);
    CatCons(d, [e]);
    CatCons(c, [d, e]);
    CatCons(b, [c, d, e]);
    CatCons(a, [b, c, d, e]);
    assert [e] + [] == [e] && [d] + [e] == [d, e] && [c] + [d, e] == [c, d, e];
    assert [b] + [c, d, e] == [b, c, d, e] && [a] + [b, c, d, e] == [a, b, c, d, e];
    CatNone();
  }

  lemma CatNone()
    ensures Cat([]) == []
  {
  }

  /** What is written is the map in the order 1, 3, -1, -2, -3 (77 bytes). */
  lemma CoseCanonical(key: PublicKey)
    ensures EncodeCose(key) == Document(CoseEntries(key)) && DistinctKeys(CoseEntries(key))
    ensures |EncodeCose(key)| == 77
  {
    hide Cat, EncInt, EncBstr, EncodeMap, LexLess, Head, StrictlySorted, DistinctKeys;
    var es := CoseEntries(key);
    CoseKeyBytes();
    CoseSorted(key);
    MapOrderFree(es, es);
    CatFive(es[0], es[1], es[2], es[3], es[4]);
    assert es == [es[0], es[1], es[2], es[3], es[4]];
  }

  lemma AlgorithmItem()
    ensures var alg := Item(NINT, Shortest(6), [], []);
            ItemValid(alg) && Height(alg) == 0 && EncInt(-7) == EncodeItem(alg)
  {
    assert EncInt(-7) == [0x26];
  }

  lemma CoseIsDoc(key: PublicKey)
    ensures CoseDoc(key, CoseEntries(key))
  {
    hide EncInt, EncBstr, EncodeItem, ItemValid, Height, Keys, LexLess, DistinctKeys;
    var es := CoseEntries(key);
    var alg := Item(NINT, Shortest(6), [], []);
    AlgorithmItem();
    CoseSorted(key);
    KeysHas(es, 3);
    KeysHas(es, 4);
    assert CoseEntry(key, es[0], 1, alg) && CoseEntry(key, es[1], 3, alg) && CoseEntry(key, es[2], -1, alg);
    assert CoseEntry(key, es[3], -2, alg) && CoseEntry(key, es[4], -3, alg);
  }

  lemma CoseRoundTrip(key: PublicKey, t: seq<Byte>)
    ensures ParseCose(EncodeCose(key) + t) == Ok(key, t)
  {
    hide *;
    CoseCanonical(key);
    CoseIsDoc(key);
    CoseReads(key, CoseEntries(key), t);
  }

  lemma KeysHas(es: seq<Entry>, i: nat)
    requires i < |es|
    ensures es[i].key in Keys(es)
  {
  }

  // ---------------------------------------------------------------- authenticator data read back

  lemma TwoBytes(n: nat)
    requires n < 65536
    ensures FromBigEndian(TwoByteLength(n)) == n
  {
    assert Pow256(2) == 65536;
    BigEndianRoundTrip(n, 2);
    assert BigEndian(n, 2) == BigEndian(n / 256, 1) + [n % 256] == TwoByteLength(n);
  }

  lemma AttestedParses(a: Attested, rest: seq<Byte>)
    ensures var s := BuildAttested(a.aaguid, a.credId, a.key) + rest;
            ParseAttested(s) == Some((a, rest)) <==> |a.credId| < 65536
  {
    hide EncodeCose, ParseCose, FromBigEndian;
    var n := |a.credId|;
    var s := BuildAttested(a.aaguid, a.credId, a.key) + rest;
    assert s[16..18] == TwoByteLength(n);
    if n < 65536 {
      TwoBytes(n);
      assert s == (a.aaguid + TwoByteLength(n) + a.credId) + (EncodeCose(a.key) + rest);
      assert s[..16] == a.aaguid && s[18..18 + n] == a.credId;
      assert s[18 + n..] == EncodeCose(a.key) + rest;
      CoseRoundTrip(a.key, rest);
    } else {
      AttestedLength(s);
    }
  }

  /** One data item a relying party can skip. */
  ghost predicate IsItem(b: seq<Byte>) {
    exists it :: ItemValid(it) && Height(it) <= MAX_SKIP_DEPTH && b == EncodeItem(it)
  }

  lemma ExtensionsParse(v: AuthView, ext: seq<Byte>)
    requires v.extensions == [] && (if HasEd(v.flags) then IsItem(ext) else ext == [])
    ensures WithExtensions(v, ext) == Some(v.(extensions := ext))
  {
    hide Skip, EncodeItem;
    if HasEd(v.flags) {
      var it :| ItemValid(it) && Height(it) <= MAX_SKIP_DEPTH && ext == EncodeItem(it);
      assert ext == EncodeItem(it) + [];
      SkipExact(ext, []);
    }
  }

  /** A relying party recovers exactly what the builders were given, if and only if the credential id has fewer
      than 65536 bytes. */
  lemma AuthDataParses(v: AuthView)
    requires HasAt(v.flags) <==> v.attested.Some?
    requires if HasEd(v.flags) then IsItem(v.extensions) else v.extensions == []
    ensures ParseAuthData(Built(v)) == Some(v) <==> (v.attested.Some? ==> |v.attested.value.credId| < 65536)
  {
    hide BigEndian, FromBigEndian, BuildAttested, ParseAttested, IsItem, HasAt, HasEd;
    var att := AttestedBytes(v.attested);
    var s := Built(v);
    assert Pow256(4) == TWO32;
    BigEndianRoundTrip(v.count, 4);
    assert s[..32] == v.rpIdHash && s[32] == v.flags && s[33..37] == BigEndian(v.count, 4);
    assert s[37..] == att + v.extensions;
    ExtensionsParse(v.(extensions := []), v.extensions);
    if v.attested.Some? {
      AttestedParses(v.attested.value, v.extensions);
      AttestedLength(s[37..]);
    }
  }

  lemma AttestedLength(s: seq<Byte>)
    ensures ParseAttested(s).Some? ==> |ParseAttested(s).value.0.credId| < 65536
  {
    if |s| >= 18 {
      FromBigEndianRoundTrip(s[16..18]);
      assert Pow256(2) == 65536;
    }
  }

  // ---------------------------------------------------------------- what the commands emit

  /** {"hmac-secret": value}: the answer to the hmac-secret extension. */
  function SecretExtension(value: seq<Byte>): seq<Byte> { EncodeMap([Entry(EncTstr(Ascii("hmac-secret")), value)]) }

  lemma SecretExtensionIsItem(major: Major, arg: Arg, b: seq<Byte>)
    requires ArgValid(arg) && |b| == PayloadLength(major, arg.n) && KidCount(major, arg.n) == 0
    ensures IsItem(SecretExtension(HeadOf(major, arg) + b))
  {
    hide HeadOf;
    var name := Ascii("hmac-secret");
    var key := Item(TSTR, Shortest(|name|), name, []);
    var val := Item(major, arg, b, []);
    var it := Item(MAP, Shortest(1), [], [key, val]);
    var e := Entry(EncTstr(name), HeadOf(major, arg) + b);
    assert EncodeItem(key) == EncTstr(name) && EncodeItem(val) == HeadOf(major, arg) + b;
    assert [key, val][1..] == [val] && [val][1..] == [];
    assert EncodeItems([val]) == EncodeItem(val) + [] == EncodeItem(val);
    assert EncodeItems([key, val]) == EncodeItem(key) + EncodeItem(val);
    assert [e][1..] == [] && SortByKey([e]) == Insert(e, []) == [e];
    assert Cat([e]) == e.key + e.val + [] == e.key + e.val;
    assert EncodeItem(it) == SecretExtension(HeadOf(major, arg) + b);
    assert ItemValid(key) && ItemValid(val);
    assert ItemValid(it);
    assert Height(key) == 0 && Height(val) == 0;
    assert Heights([val]) == 1 && Heights([key, val]) == 1;
  }

  lemma RegistrationFlags(c: Crypto, a: Auth, q: CredentialRequest, k: Fresh, uv: bool, w: World)
    requires AddCredential(c, a, q, k, uv, w).r.Success?
    ensures var g := AddCredential(c, a, q, k, uv, w).r.value;
            g.credId == k.credId && g.count == 1 && HasAt(g.flags) && (HasEd(g.flags) <==> q.hmacCreate)
  {
    hide EraseSameUser, FindByRp, Put;
  }

  /** The authenticator data of a registration reads back as the stored credential's, with the extension output
      exactly when it was asked for. */
  lemma RegistrationParses(c: Crypto, a: Auth, q: CredentialRequest, k: Fresh, uv: bool, w: World, aaguid: Bytes16)
    requires AddCredential(c, a, q, k, uv, w).r.Success?
    ensures var g := AddCredential(c, a, q, k, uv, w).r.value;
            var key := PublicKey(k.pubX, k.pubY);
            var ext := if q.hmacCreate then SecretExtension(EncBool(true)) else [];
            ParseAuthData(BuildAuthData(c.sha256(q.rpId), g.flags, g.count, BuildAttested(aaguid, g.credId, key), ext))
            == Some(AuthView(c.sha256(q.rpId), g.flags, 1, Some(Attested(aaguid, k.credId, key)), ext))
  {
    hide ParseAuthData, BuildAuthData, BuildAttested, IsItem, SecretExtension, AddCredential, HasAt, HasEd;
    RegistrationFlags(c, a, q, k, uv, w);
    var g := AddCredential(c, a, q, k, uv, w).r.value;
    var ext := if q.hmacCreate then SecretExtension(EncBool(true)) else [];
    assert EncBool(true) == HeadOf(7, Arg(21, 21)) + [];
    SecretExtensionIsItem(7, Arg(21, 21), []);
    AuthDataParses(AuthView(c.sha256(q.rpId), g.flags, 1, Some(Attested(aaguid, k.credId, PublicKey(k.pubX, k.pubY))),
                            ext));
  }

  /** The authenticator data of an assertion reads back with no attested data, and with the extension output
      exactly when it was asked for and the user was present. */
  lemma AssertionParses(a: Auth, cred: Credential, up: bool, uv: bool, bump: bool, withSecret: bool,
                        total: Option<nat>, w: World,
                        rpIdHash: Bytes32, output: Blob)
    requires BuildAssertion(a, cred, AssertionFlags(up, uv), bump, withSecret, total, w).r.Success?
    ensures var g := BuildAssertion(a, cred, AssertionFlags(up, uv), bump, withSecret, total, w).r.value;
            var ext := if withSecret && up then SecretExtension(EncBstr(output)) else [];
            ParseAuthData(BuildAuthData(rpIdHash, g.flags, g.count, [], ext))
                == Some(AuthView(rpIdHash, g.flags, g.count, None, ext))
  {
    hide ParseAuthData, BuildAuthData, IsItem, SecretExtension, UpdateCountAndUsed;
    var g := BuildAssertion(a, cred, AssertionFlags(up, uv), bump, withSecret, total, w).r.value;
    var ext := if withSecret && up then SecretExtension(EncBstr(output)) else [];
    ShortestValid(|output|);
    SecretExtensionIsItem(BSTR, Shortest(|output|), output);
    AuthDataParses(AuthView(rpIdHash, g.flags, g.count, None, ext));
  }
}
