/** The durable state of src/store/credential_store.cpp, printed as one CBOR map and parsed back. */
module StoreCodec {
  import opened Bytes
  import opened Statuses
  import opened Cbor

  datatype Backend = Software | Tpm2 | SecureEnclave {
    function Code(): nat { match this case Software => 0 case Tpm2 => 1 case SecureEnclave => 2 }
  }

  datatype Credential = Credential(
    rpId: Blob, rpIdHash: Bytes32, rpName: Blob, userId: Blob, userName: Blob, userDisplay: Blob,
    credId: Bytes32, backend: Backend, handle: Blob, priv: Blob, pubX: Bytes32, pubY: Bytes32,
    signCount: U32, created: U64, lastUsed: U64, credRandom: Blob, rk: bool)

  datatype PinState = PinState(hash: Option<Bytes16>, retries: Byte)
  datatype TpmState = TpmState(present: bool, seed: Bytes32, auth: Bytes32)
  datatype U2fAttestation = U2fAttestation(priv: Blob, certDer: Blob)
  datatype State = State(
    creds: seq<Credential>, pin: PinState, tpm: TpmState, u2f: Option<U2fAttestation>,
    serial: Blob, installId: Bytes16)

  const MAX_CREDENTIALS := 100
  const MAX_RETRIES: Byte := 8
  const AAGUID: Bytes16 :=
    [0x6f, 0xb1, 0xdf, 0xdd, 0x51, 0xc0, 0x43, 0xa0, 0xa6, 0xf2, 0xf7, 0x48, 0x12, 0xcb, 0xf8, 0xfb]

  const NoTpm := TpmState(false, Zeros(32), Zeros(32))
  const Empty := State([], PinState(None, MAX_RETRIES), NoTpm, None, [], Zeros(16))

  /** CredentialStore::validate. */
  predicate RowValid(c: Credential) {
    && 1 <= |c.rpId| <= 255
    && |c.userId| <= 64
    && if c.backend == Software then c.handle == [] && |c.priv| == 32 else c.priv == [] && c.handle != []
  }

  // ---------------------------------------------------------------- flat maps

  datatype Name =
    | RpId | RpIdHash | RpName | UserId | UserName | UserDisplay | CredId | BackendKey | Handle | Priv | PubX | PubY
    | SignCount | Created | LastUsed | CredRandom | Rk
    | Aaguid | InstallId | Serial | PinKey | TpmKey | U2fAttest | Creds
    | Hash | Retries | SrkUniqueSeed | ObjectAuth | CertDer

  function Spelling(n: Name): string {
    match n
    case RpId => "rp_id" case RpIdHash => "rp_id_hash" case RpName => "rp_name" case UserId => "user_id"
    case UserName => "user_name" case UserDisplay => "user_display" case CredId => "cred_id"
    case BackendKey => "backend" case Handle => "handle" case Priv => "priv" case PubX => "pub_x"
    case PubY => "pub_y" case SignCount => "sign_count" case Created => "created" case LastUsed => "last_used"
    case CredRandom => "cred_random" case Rk => "rk" case Aaguid => "aaguid" case InstallId => "install_id"
    case Serial => "serial" case PinKey => "pin" case TpmKey => "tpm" case U2fAttest => "u2f_attest"
    case Creds => "creds" case Hash => "hash" case Retries => "retries" case SrkUniqueSeed => "srk_unique_seed"
    case ObjectAuth => "object_auth" case CertDer => "cert_der"
  }

  function Key(n: Name): Blob {
    assert |Spelling(n)| <= 15;
    Ascii(Spelling(n))
  }

  /** What one key of a flat map holds. */
  datatype Val = TextVal(b: Blob) | BytesVal(b: Blob) | NumVal(n: U64) | FlagVal(v: bool)

  /** What a key's value must be: text, bytes of any length or of a fixed one (read_fixed), a boolean, or a
      number: up to 2 for a backend, cut to 8 or 32 bits by a cast, or any. */
  datatype Kind =
    | TextKind | BytesKind | FixedKind(size: nat) | BackendKind | Num8Kind | Num32Kind | AnyNumKind | FlagKind

  datatype Column = Column(key: Name, kind: Kind)

  /** A flat map's values, column by column; None where the map has no such key. */
  type Row = seq<Option<Val>>

  predicate Fits(k: Kind, v: Val) {
    match k
    case TextKind => v.TextVal?
    case BytesKind => v.BytesVal?
    case FixedKind(size) => v.BytesVal? && |v.b| == size
    case BackendKind => v.NumVal? && v.n <= 2
    case Num8Kind => v.NumVal? && v.n < 256
    case Num32Kind => v.NumVal? && v.n < TWO32
    case AnyNumKind => v.NumVal?
    case FlagKind => v.FlagVal?
  }

  predicate RowFits(table: seq<Column>, row: Row) {
    && |row| == |table|
    && forall i :: 0 <= i < |row| && row[i].Some? ==> Fits(table[i].kind, row[i].value)
  }

  function EncVal(v: Val): seq<Byte> {
    match v
    case TextVal(b) => EncTstr(b)
    case BytesVal(b) => EncBstr(b)
    case NumVal(n) => EncUint(n)
    case FlagVal(f) => EncBool(f)
  }

  function EntryOf(n: Name, v: Val): Entry { Entry(EncTstr(Key(n)), EncVal(v)) }

  function RowEntries(table: seq<Column>, row: Row): seq<Entry>
    requires |row| == |table|
  {
    if row == [] then []
    else (if row[0].Some? then [EntryOf(table[0].key, row[0].value)] else []) + RowEntries(table[1..], row[1..])
  }

  function EncodeRow(table: seq<Column>, row: Row): seq<Byte>
    requires |row| == |table|
  {
    EncodeMap(RowEntries(table, row))
  }

  function ReadVal(k: Kind, s: seq<Byte>): (r: Parsed<Val>)
    ensures r.Ok? ==> Fits(k, r.value)
  {
    match k
    case TextKind => (match ReadTstr(s) case Ok(b, t) => Ok(TextVal(b), t) case Err(e) => Err(e))
    case FlagKind => (match ReadBool(s) case Ok(f, t) => Ok(FlagVal(f), t) case Err(e) => Err(e))
    case BytesKind => (match ReadBstr(s) case Ok(b, t) => Ok(BytesVal(b), t) case Err(e) => Err(e))
    case FixedKind(size) =>
      (match ReadBstr(s)
       case Err(e) => Err(e)
       case Ok(b, t) => if |b| != size then Err(InvalidCbor) else Ok(BytesVal(b), t))
    case BackendKind =>
      (match ReadUint(s)
       case Err(e) => Err(e)
       case Ok(n, t) => if n > 2 then Err(InvalidCbor) else Ok(NumVal(n), t))
    case Num8Kind => (match ReadUint(s) case Ok(n, t) => Ok(NumVal(n % 256), t) case Err(e) => Err(e))
    case Num32Kind => (match ReadUint(s) case Ok(n, t) => Ok(NumVal(n % TWO32), t) case Err(e) => Err(e))
    case AnyNumKind => (match ReadUint(s) case Ok(n, t) => Ok(NumVal(n), t) case Err(e) => Err(e))
  }

  /** Compares a key with the table's keys, in turn. */
  function IndexIn(k: Blob, table: seq<Column>): (r: Option<nat>)
    ensures match r
            case Some(i) => i < |table| && Key(table[i].key) == k
            case None => forall c <- table :: Key(c.key) != k
  {
    hide Key;
    if table == [] then None
    else if Key(table[0].key) == k then Some(0)
    else
      assert table == [table[0]] + table[1..];
      match IndexIn(k, table[1..]) case Some(i) => Some(i + 1) case None => None
  }

  /** One key and its value. A key the table does not have is skipped. */
  function RowStep(table: seq<Column>, row: Row, s: seq<Byte>): (r: Parsed<Row>) {
    match ReadTstr(s)
    case Err(e) => Err(e)
    case Ok(k, rest) =>
      match IndexIn(k, table)
      case None => (match Skip(rest, 0) case Ok(_, t) => Ok(row, t) case Err(e) => Err(e))
      case Some(i) =>
        match ReadVal(table[i].kind, rest)
        case Err(e) => Err(e)
        case Ok(v, t) => Ok(if i < |row| then row[i := Some(v)] else row, t)
  }

  function Unread(table: seq<Column>): Row { seq(|table|, i => None) }

  function Stepper(table: seq<Column>): (Row, seq<Byte>) -> Parsed<Row> { (row, s) => RowStep(table, row, s) }

  function ReadRow(table: seq<Column>, s: seq<Byte>): Parsed<Row> { ReadRecord(Stepper(table), Unread(table), s) }

  // ---------------------------------------------------------------- the four flat maps

  const CredTable: seq<Column> := [
    Column(RpId, TextKind), Column(RpIdHash, FixedKind(32)), Column(RpName, TextKind), Column(UserId, BytesKind),
    Column(UserName, TextKind), Column(UserDisplay, TextKind), Column(CredId, FixedKind(32)),
    Column(BackendKey, BackendKind), Column(Handle, BytesKind), Column(Priv, BytesKind),
    Column(PubX, FixedKind(32)), Column(PubY, FixedKind(32)), Column(SignCount, Num32Kind),
    Column(Created, AnyNumKind), Column(LastUsed, AnyNumKind), Column(CredRandom, BytesKind), Column(Rk, FlagKind)]

  const PinTable: seq<Column> := [Column(Hash, FixedKind(16)), Column(Retries, Num8Kind)]
  const TpmTable: seq<Column> := [Column(SrkUniqueSeed, FixedKind(32)), Column(ObjectAuth, FixedKind(32))]
  const U2fTable: seq<Column> := [Column(Priv, BytesKind), Column(CertDer, BytesKind)]

  function CredRow(c: Credential): (row: Row)
    ensures RowFits(CredTable, row)
  {
    [Some(TextVal(c.rpId)), Some(BytesVal(c.rpIdHash)), Some(TextVal(c.rpName)), Some(BytesVal(c.userId)),
     Some(TextVal(c.userName)), Some(TextVal(c.userDisplay)), Some(BytesVal(c.credId)),
     Some(NumVal(c.backend.Code())), Some(BytesVal(c.handle)), Some(BytesVal(c.priv)),
     Some(BytesVal(c.pubX)), Some(BytesVal(c.pubY)), Some(NumVal(c.signCount)),
     Some(NumVal(c.created)), Some(NumVal(c.lastUsed)), Some(BytesVal(c.credRandom)), Some(FlagVal(c.rk))]
  }

  function At(row: Row, i: nat): Option<Val> { if i < |row| then row[i] else None }
  function Blob0(v: Option<Val>): Blob { if v.Some? && (v.value.TextVal? || v.value.BytesVal?) then v.value.b else [] }
  function Bytes0(v: Option<Val>): Bytes32 { if |Blob0(v)| == 32 then Blob0(v) else Zeros(32) }
  function Num0(v: Option<Val>, default: U64): U64 { if v.Some? && v.value.NumVal? then v.value.n else default }

  /** The credential a map's row stands for; fields without a key keep the record's defaults. */
  function RowCredential(row: Row): Credential {
    var backend := Num0(At(row, 7), 0);
    Credential(
      Blob0(At(row, 0)), Bytes0(At(row, 1)), Blob0(At(row, 2)), Blob0(At(row, 3)), Blob0(At(row, 4)),
      Blob0(At(row, 5)), Bytes0(At(row, 6)),
      if backend == 0 then Software else if backend == 1 then Tpm2 else SecureEnclave,
      Blob0(At(row, 8)), Blob0(At(row, 9)), Bytes0(At(row, 10)), Bytes0(At(row, 11)),
      Num0(At(row, 12), 1) % TWO32, Num0(At(row, 13), 0), Num0(At(row, 14), 0), Blob0(At(row, 15)),
      if At(row, 16).Some? && At(row, 16).value.FlagVal? then At(row, 16).value.v else true)
  }

  function EncodeCredential(c: Credential): seq<Byte> { EncodeRow(CredTable, CredRow(c)) }

  function PinRow(p: PinState): (row: Row)
    ensures RowFits(PinTable, row)
  {
    [if p.hash.Some? then Some(BytesVal(p.hash.value)) else None, Some(NumVal(p.retries))]
  }

  /** p with what a "pin" map says. */
  function RowPin(p: PinState, row: Row): PinState {
    PinState(if |Blob0(At(row, 0))| == 16 then Some(Blob0(At(row, 0))) else p.hash, Num0(At(row, 1), p.retries) % 256)
  }

  function TpmRow(t: TpmState): (row: Row)
    ensures RowFits(TpmTable, row)
  {
    [Some(BytesVal(t.seed)), Some(BytesVal(t.auth))]
  }

  function RowTpm(t: TpmState, row: Row): TpmState {
    TpmState(t.present || At(row, 0).Some?,
             if At(row, 0).Some? then Bytes0(At(row, 0)) else t.seed,
             if At(row, 1).Some? then Bytes0(At(row, 1)) else t.auth)
  }

  function U2fRow(u: U2fAttestation): (row: Row)
    ensures RowFits(U2fTable, row)
  {
    [Some(BytesVal(u.priv)), Some(BytesVal(u.certDer))]
  }

  function RowU2f(row: Row): U2fAttestation {
    U2fAttestation(Blob0(At(row, 0)), Blob0(At(row, 1)))
  }

  // ---------------------------------------------------------------- the whole store

  function EncodeRows(rows: seq<Credential>): seq<Byte> {
    if rows == [] then [] else EncodeCredential(rows[0]) + EncodeRows(rows[1..])
  }

  /** The keys a printed store has. */
  function SectionNames(s: State): seq<Name> {
    [Aaguid, InstallId, Serial, PinKey] + (if s.tpm.present then [TpmKey] else [])
    + (if s.u2f.Some? then [U2fAttest] else []) + [Creds]
  }

  function SectionVal(s: State, n: Name): seq<Byte> {
    match n
    case Aaguid => EncBstr(AAGUID)
    case InstallId => EncBstr(s.installId)
    case Serial => EncTstr(s.serial)
    case PinKey => EncodeRow(PinTable, PinRow(s.pin))
    case TpmKey => EncodeRow(TpmTable, TpmRow(s.tpm))
    case U2fAttest => if s.u2f.Some? then EncodeRow(U2fTable, U2fRow(s.u2f.value)) else []
    case _ => Head(ARRAY, |s.creds|) + EncodeRows(s.creds)
  }

  function Sections(s: State): seq<Entry> {
    var names := SectionNames(s);
    seq(|names|, i requires 0 <= i < |names| => Entry(EncTstr(Key(names[i])), SectionVal(s, names[i])))
  }

  /** serialize_locked. */
  function Serialize(s: State): seq<Byte> { EncodeMap(Sections(s)) }

  function DecodeCredential(s: seq<Byte>): Parsed<Credential> {
    match ReadRow(CredTable, s)
    case Err(e) => Err(e)
    case Ok(row, t) => Ok(RowCredential(row), t)
  }

  /** n rows appended to the rows read so far. */
  function ReadRows(rows: seq<Credential>, n: nat, s: seq<Byte>): Parsed<seq<Credential>>
    decreases n
  {
    if n == 0 then Ok(rows, s)
    else
      match DecodeCredential(s)
      case Err(e) => Err(e)
      case Ok(c, t) => if !RowValid(c) then Err(Other) else ReadRows(rows + [c], n - 1, t)
  }

  function ReadCreds(rows: seq<Credential>, s: seq<Byte>): Parsed<seq<Credential>> {
    match ReadArray(s)
    case Err(e) => Err(e)
    case Ok(n, t) => ReadRows(rows, n, t)
  }

  const TopTable: seq<Column> := [
    Column(Aaguid, FixedKind(16)), Column(InstallId, FixedKind(16)), Column(Serial, TextKind),
    Column(PinKey, BytesKind), Column(TpmKey, BytesKind), Column(U2fAttest, BytesKind), Column(Creds, BytesKind)]

  /** The value under one of the store's own keys. */
  function ReadSection(s: State, n: Name, rest: seq<Byte>): Parsed<State> {
    match n
    case Aaguid => (match ReadVal(FixedKind(16), rest) case Ok(_, t) => Ok(s, t) case Err(e) => Err(e))
    case InstallId =>
      (match ReadVal(FixedKind(16), rest) case Ok(v, t) => Ok(s.(installId := v.b), t) case Err(e) => Err(e))
    case Serial => (match ReadTstr(rest) case Ok(v, t) => Ok(s.(serial := v), t) case Err(e) => Err(e))
    case PinKey =>
      (match ReadRow(PinTable, rest)
       case Ok(row, t) => Ok(s.(pin := RowPin(s.pin, row)), t)
       case Err(e) => Err(e))
    case TpmKey =>
      (match ReadRow(TpmTable, rest)
       case Ok(row, t) => Ok(s.(tpm := RowTpm(s.tpm, row)), t)
       case Err(e) => Err(e))
    case U2fAttest =>
      (match ReadRow(U2fTable, rest)
       case Ok(row, t) => Ok(s.(u2f := Some(RowU2f(row))), t)
       case Err(e) => Err(e))
    case _ => (match ReadCreds(s.creds, rest) case Ok(rows, t) => Ok(s.(creds := rows), t) case Err(e) => Err(e))
  }

  function TopStep(s: State, bytes: seq<Byte>): Parsed<State> {
    match ReadTstr(bytes)
    case Err(e) => Err(e)
    case Ok(k, rest) =>
      match IndexIn(k, TopTable)
      case None => (match Skip(rest, 0) case Ok(_, t) => Ok(s, t) case Err(e) => Err(e))
      case Some(i) => ReadSection(s, TopTable[i].key, rest)
  }

  /** load_locked, on a fresh store. Bytes after the map are not looked at. */
  function Load(bytes: seq<Byte>): Result<State> {
    match ReadRecord(TopStep, Empty, bytes)
    case Err(e) => Failure(e)
    case Ok(s, _) => Success(s)
  }
}
