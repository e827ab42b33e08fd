/** Parsing a printed store restores it: whatever order the entries of each map are in, and with unknown
    entries among them. */
module StoreRoundTrip {
  import opened Bytes
  import opened Statuses
  import opened Cbor
  import opened CborProofs
  import opened StoreCodec

  // ---------------------------------------------------------------- key names are distinct

  /** Length, middle and last character of a name, packed in one number: enough to tell the names apart. */
  function Finger(b: seq<Byte>): nat
    requires b != []
  {
    |b| * 0x1_0000 + (b[|b| / 2] as int) * 0x100 + b[|b| - 1]
  }

  function Code(n: Name): nat {
    match n
    case RpId => 0x55F64 case RpIdHash => 0xA5F68 case RpName => 0x76E65 case UserId => 0x77264
    case UserName => 0x95F65 case UserDisplay => 0xC6979 case CredId => 0x76464 case BackendKey => 0x76B64
    case Handle => 0x66465 case Priv => 0x46976 case PubX => 0x56278 case PubY => 0x56279
    case SignCount => 0xA6374 case Created => 0x76164 case LastUsed => 0x95F64 case CredRandom => 0xB726D
    case Rk => 0x26B6B case Aaguid => 0x67564 case InstallId => 0xA6C64 case Serial => 0x6696C
    case PinKey => 0x3696E case TpmKey => 0x3706D case U2fAttest => 0xA7474 case Creds => 0x56573
    case Hash => 0x47368 case Retries => 0x77273 case SrkUniqueSeed => 0xF7164 case ObjectAuth => 0xB7468
    case CertDer => 0x85F72
  }

  lemma FingerOfParty(n: Name)
    requires n.RpId? || n.RpIdHash? || n.RpName? || n.UserId?
    ensures Finger(Key(n)) == Code(n)
  {
  }

  lemma FingerOfUser(n: Name)
    requires n.UserName? || n.UserDisplay? || n.CredId? || n.BackendKey?
    ensures Finger(Key(n)) == Code(n)
  {
  }

  lemma FingerOfKey(n: Name)
    requires n.Handle? || n.Priv? || n.PubX? || n.PubY?
    ensures Finger(Key(n)) == Code(n)
  {
  }

  lemma FingerOfUse(n: Name)
    requires n.SignCount? || n.Created? || n.LastUsed? || n.CredRandom?
    ensures Finger(Key(n)) == Code(n)
  {
  }

  lemma FingerOfString(n: Name)
    requires n.Rk? || n.Aaguid? || n.InstallId? || n.Serial?
    ensures Finger(Key(n)) == Code(n)
  {
  }

  lemma FingerOfSection(n: Name)
    requires n.PinKey? || n.TpmKey? || n.U2fAttest? || n.Creds?
    ensures Finger(Key(n)) == Code(n)
  {
  }

  lemma FingerOfRecord(n: Name)
    requires n.Hash? || n.Retries? || n.CertDer?
    ensures Finger(Key(n)) == Code(n)
  {
  }

  lemma FingerOfSeed()
    ensures Finger(Key(SrkUniqueSeed)) == Code(SrkUniqueSeed)
  {
  }

  lemma FingerOfAuth()
    ensures Finger(Key(ObjectAuth)) == Code(ObjectAuth)
  {
  }

  lemma FingerIsCode(n: Name)
    ensures Finger(Key(n)) == Code(n)
  {
    hide Finger, Key, Code;
    match n {
      case RpId | RpIdHash | RpName | UserId => FingerOfParty(n);
      case UserName | UserDisplay | CredId | BackendKey => FingerOfUser(n);
      case Handle | Priv | PubX | PubY => FingerOfKey(n);
      case SignCount | Created | LastUsed | CredRandom => FingerOfUse(n);
      case Rk | Aaguid | InstallId | Serial => FingerOfString(n);
      case PinKey | TpmKey | U2fAttest | Creds => FingerOfSection(n);
      case SrkUniqueSeed => FingerOfSeed();
      case ObjectAuth => FingerOfAuth();
      case _ => FingerOfRecord(n);
    }
  }

  lemma KeysDistinct(m: Name, n: Name)
    requires Key(m) == Key(n)
    ensures m == n
  {
    hide Finger, Key;
    FingerIsCode(m);
    FingerIsCode(n);
  }

  lemma EncTstrInjective(a: Blob, b: Blob)
    requires EncTstr(a) == EncTstr(b)
    ensures a == b
  {
    StringRoundTrip(TSTR, a, []);
    StringRoundTrip(TSTR, b, []);
  }

  ghost predicate Has(seen: set<seq<Byte>>, n: Name) { EncTstr(Key(n)) in seen }

  lemma HasAdd(seen: set<seq<Byte>>, n: Name)
    ensures forall m :: Has(seen + {EncTstr(Key(n))}, m) <==> Has(seen, m) || m == n
  {
    forall m | Has(seen + {EncTstr(Key(n))}, m) && !Has(seen, m) ensures m == n {
      EncTstrInjective(Key(m), Key(n));
      KeysDistinct(m, n);
    }
  }

  // ---------------------------------------------------------------- flat maps

  /** An entry a decoder of the given table has to skip: another text key, with any one data item of at most
      32 levels as its value. */
  ghost predicate SkippedAs(table: seq<Column>, e: Entry, k: Blob, it: Item) {
    && e == Entry(EncTstr(k), EncodeItem(it))
    && ItemValid(it) && Height(it) <= MAX_SKIP_DEPTH
    && forall c <- table :: k != Key(c.key)
  }

  ghost predicate Skipped(table: seq<Column>, e: Entry) {
    exists k: Blob, it :: SkippedAs(table, e, k, it)
  }

  ghost predicate TableDistinct(table: seq<Column>) {
    forall i, j :: 0 <= i < j < |table| ==> table[i].key != table[j].key
  }

  ghost predicate IsColumn(table: seq<Column>, row: Row, e: Entry, i: nat) {
    i < |row| == |table| && row[i].Some? && e == EntryOf(table[i].key, row[i].value)
  }

  /** The entries of one map holding the row: in any order, and with entries to be skipped among them. */
  ghost predicate RowDoc(table: seq<Column>, row: Row, es: seq<Entry>) {
    && |es| < TWO64 && DistinctKeys(es) && |row| == |table|
    && (forall e <- es :: Skipped(table, e) || exists i: nat :: IsColumn(table, row, e, i))
    && (forall i :: 0 <= i < |row| && row[i].Some? ==> EntryOf(table[i].key, row[i].value) in es)
  }

  ghost predicate RowSoFar(table: seq<Column>, row: Row, seen: set<seq<Byte>>, d: Row) {
    && |d| == |row| == |table|
    && forall i :: 0 <= i < |d| ==> d[i] == if Has(seen, table[i].key) then row[i] else None
  }

  lemma SkippedReads(table: seq<Column>, e: Entry, k: Blob, it: Item, t: seq<Byte>)
    requires SkippedAs(table, e, k, it)
    ensures ReadTstr(e.key + e.val + t) == Ok(k, e.val + t)
    ensures Skip(e.val + t, 0) == Ok((), t)
    ensures IndexIn(k, table) == None
  {
    hide ReadString, Head, Skip, EncodeItem;
    assert e.key + e.val + t == e.key + (e.val + t);
    StringRoundTrip(TSTR, k, e.val + t);
    assert ItemValid(it) && Height(it) <= MAX_SKIP_DEPTH && e.val + t == EncodeItem(it) + t;
    SkipExact(e.val + t, t);
  }

  lemma SkippedNotSeen(table: seq<Column>, e: Entry, seen: set<seq<Byte>>)
    requires Skipped(table, e)
    ensures forall c <- table :: Has(seen + {e.key}, c.key) <==> Has(seen, c.key)
  {
    var k: Blob, it :| SkippedAs(table, e, k, it);
    forall c | c in table && e.key == EncTstr(Key(c.key)) ensures false {
      EncTstrInjective(k, Key(c.key));
    }
  }

  lemma KeyReads(n: Name, val: seq<Byte>, t: seq<Byte>)
    ensures ReadTstr(EncTstr(Key(n)) + val + t) == Ok(Key(n), val + t)
  {
    hide ReadString, Head, Key;
    assert EncTstr(Key(n)) + val + t == EncTstr(Key(n)) + (val + t);
    StringRoundTrip(TSTR, Key(n), val + t);
  }

  lemma KeyFound(table: seq<Column>, i: nat)
    requires i < |table| && TableDistinct(table)
    ensures IndexIn(Key(table[i].key), table) == Some(i)
  {
    hide Key;
    assert table[i] in table;
    KeysDistinct(table[IndexIn(Key(table[i].key), table).value].key, table[i].key);
  }

  lemma StringValRoundTrip(k: Kind, v: Val, t: seq<Byte>)
    requires Fits(k, v) && (v.TextVal? || v.BytesVal?)
    ensures ReadVal(k, EncVal(v) + t) == Ok(v, t)
  {
    hide ReadString, Head;
    StringRoundTrip(if v.TextVal? then TSTR else BSTR, v.b, t);
  }

  lemma NumValRoundTrip(k: Kind, v: Val, t: seq<Byte>)
    requires Fits(k, v) && v.NumVal?
    ensures ReadVal(k, EncVal(v) + t) == Ok(v, t)
  {
    hide ReadUint, EncUint;
    UintRoundTrip(v.n, t);
  }

  lemma ValRoundTrip(k: Kind, v: Val, t: seq<Byte>)
    requires Fits(k, v)
    ensures ReadVal(k, EncVal(v) + t) == Ok(v, t)
  {
    hide ReadString, ReadUint;
    match v
    case TextVal(_) => StringValRoundTrip(k, v, t);
    case BytesVal(_) => StringValRoundTrip(k, v, t);
    case NumVal(_) => NumValRoundTrip(k, v, t);
    case FlagVal(f) => BoolRoundTrip(f, t);
  }

  lemma ColumnSeen(table: seq<Column>, row: Row, seen: set<seq<Byte>>, d: Row, i: nat)
    requires TableDistinct(table) && RowSoFar(table, row, seen, d) && i < |table|
    ensures RowSoFar(table, row, seen + {EncTstr(Key(table[i].key))}, d[i := row[i]])
  {
    HasAdd(seen, table[i].key);
  }

  lemma RowEntryStep(table: seq<Column>, row: Row, seen: set<seq<Byte>>, d: Row, e: Entry, t: seq<Byte>)
    requires TableDistinct(table) && RowFits(table, row) && RowSoFar(table, row, seen, d)
    requires Skipped(table, e) || exists i: nat :: IsColumn(table, row, e, i)
    ensures var r := RowStep(table, d, e.key + e.val + t);
            r.Ok? && r.rest == t && RowSoFar(table, row, seen + {e.key}, r.value)
  {
    hide ReadTstr, Skip, ReadVal, IndexIn, EncodeItem, Key, EncVal, EncTstr;
    if Skipped(table, e) {
      var k: Blob, it :| SkippedAs(table, e, k, it);
      SkippedReads(table, e, k, it, t);
      SkippedNotSeen(table, e, seen);
    } else {
      var i: nat :| IsColumn(table, row, e, i);
      KeyReads(table[i].key, e.val, t);
      KeyFound(table, i);
      ValRoundTrip(table[i].kind, row[i].value, t);
      ColumnSeen(table, row, seen, d, i);
    }
  }

  ghost function RowInv(table: seq<Column>, row: Row): (set<seq<Byte>>, Row) -> bool {
    (seen, d) => RowSoFar(table, row, seen, d)
  }

  lemma RowEntryReads(table: seq<Column>, row: Row, e: Entry)
    requires TableDistinct(table) && RowFits(table, row)
    requires Skipped(table, e) || exists i: nat :: IsColumn(table, row, e, i)
    ensures EntryReads(Stepper(table), RowInv(table, row), e)
  {
    hide RowStep, RowSoFar, Skipped, IsColumn;
    forall seen, d, t | RowInv(table, row)(seen, d) && e.key !in seen
      ensures var r := Stepper(table)(d, e.key + e.val + t);
              r.Ok? && r.rest == t && RowInv(table, row)(seen + {e.key}, r.value)
    {
      RowEntryStep(table, row, seen, d, e, t);
    }
  }

  /** Every arrangement of a flat map reads back as the row it holds. */
  lemma RowReads(table: seq<Column>, row: Row, es: seq<Entry>, t: seq<Byte>)
    requires TableDistinct(table) && RowFits(table, row) && RowDoc(table, row, es)
    ensures ReadRow(table, Document(es) + t) == Ok(row, t)
  {
    hide RowStep, Document, ReadRecord, Skipped, EntryReads;
    forall e <- es ensures EntryReads(Stepper(table), RowInv(table, row), e) { RowEntryReads(table, row, e); }
    RecordReads(Stepper(table), RowInv(table, row), Unread(table), es, t);
    var d := ReadRow(table, Document(es) + t).value;
    forall i | 0 <= i < |row| ensures d[i] == row[i] {
      if row[i].Some? {
        assert EntryOf(table[i].key, row[i].value) in es;
        assert Has(Keys(es), table[i].key);
      }
    }
    assert d == row;
  }

  // ---------------------------------------------------------------- printed flat maps are documents

  lemma {:induction false} RowEntriesColumns(table: seq<Column>, row: Row)
    requires |row| == |table|
    ensures |RowEntries(table, row)| <= |row|
    ensures forall e <- RowEntries(table, row) :: exists i: nat :: IsColumn(table, row, e, i)
  {
    hide EntryOf;
    if row != [] {
      var more := RowEntries(table[1..], row[1..]);
      RowEntriesColumns(table[1..], row[1..]);
      forall e | e in RowEntries(table, row) ensures exists i: nat :: IsColumn(table, row, e, i) {
        if e in more {
          var i: nat :| IsColumn(table[1..], row[1..], e, i);
          assert IsColumn(table, row, e, i + 1);
        } else {
          assert IsColumn(table, row, e, 0);
        }
      }
    }
  }

  lemma {:induction false} RowEntriesAll(table: seq<Column>, row: Row, i: nat)
    requires |row| == |table| && i < |row| && row[i].Some?
    ensures EntryOf(table[i].key, row[i].value) in RowEntries(table, row)
  {
    hide EntryOf;
    if i > 0 {
      assert row[i] == row[1..][i - 1] && table[i] == table[1..][i - 1];
      RowEntriesAll(table[1..], row[1..], i - 1);
    }
  }

  lemma RowEntriesMembers(table: seq<Column>, row: Row)
    requires |row| == |table|
    ensures |RowEntries(table, row)| <= |row|
    ensures forall e <- RowEntries(table, row) :: exists i: nat :: IsColumn(table, row, e, i)
    ensures forall i :: 0 <= i < |row| && row[i].Some? ==> EntryOf(table[i].key, row[i].value) in RowEntries(table, row)
  {
    hide EntryOf, RowEntries;
    RowEntriesColumns(table, row);
    forall i | 0 <= i < |row| && row[i].Some? ensures EntryOf(table[i].key, row[i].value) in RowEntries(table, row) {
      RowEntriesAll(table, row, i);
    }
  }

  lemma {:induction false} RowEntriesDistinct(table: seq<Column>, row: Row)
    requires |row| == |table| && TableDistinct(table)
    ensures DistinctKeys(RowEntries(table, row))
  {
    if row != [] {
      var more := RowEntries(table[1..], row[1..]);
      RowEntriesDistinct(table[1..], row[1..]);
      RowEntriesMembers(table[1..], row[1..]);
      forall j | 0 <= j < |more| ensures more[j].key != EncTstr(Key(table[0].key)) {
        assert more[j] in more;
        var i: nat :| IsColumn(table[1..], row[1..], more[j], i);
        if more[j].key == EncTstr(Key(table[0].key)) {
          EncTstrInjective(Key(table[1..][i].key), Key(table[0].key));
          KeysDistinct(table[1..][i].key, table[0].key);
        }
      }
    }
  }

  lemma EncodedRowIsDoc(table: seq<Column>, row: Row)
    requires |row| == |table| < TWO64 && TableDistinct(table)
    ensures var es := SortByKey(RowEntries(table, row));
            RowDoc(table, row, es) && EncodeRow(table, row) == Document(es)
  {
    RowEntriesMembers(table, row);
    RowEntriesDistinct(table, row);
    MapIsDocument(RowEntries(table, row));
  }

  // ---------------------------------------------------------------- the records behind the flat maps

  /** Where a name stands among the columns of a credential, or of the store. */
  function Place(n: Name): nat {
    match n
    case RpId => 0 case RpIdHash => 1 case RpName => 2 case UserId => 3 case UserName => 4 case UserDisplay => 5
    case CredId => 6 case BackendKey => 7 case Handle => 8 case Priv => 9 case PubX => 10 case PubY => 11
    case SignCount => 12 case Created => 13 case LastUsed => 14 case CredRandom => 15 case Rk => 16
    case Aaguid => 0 case InstallId => 1 case Serial => 2 case PinKey => 3 case TpmKey => 4 case U2fAttest => 5
    case _ => 6
  }

  lemma CredPlaces(i: nat)
    requires i < |CredTable|
    ensures Place(CredTable[i].key) == i
  {
  }

  lemma TopPlaces(i: nat)
    requires i < |TopTable|
    ensures Place(TopTable[i].key) == i
  {
  }

  lemma CredTableDistinct()
    ensures TableDistinct(CredTable)
  {
    hide Place;
    forall i, j | 0 <= i < j < |CredTable| ensures CredTable[i].key != CredTable[j].key {
      CredPlaces(i);
      CredPlaces(j);
    }
  }

  lemma TopTableDistinct()
    ensures TableDistinct(TopTable)
  {
    hide Place;
    forall i, j | 0 <= i < j < |TopTable| ensures TopTable[i].key != TopTable[j].key {
      TopPlaces(i);
      TopPlaces(j);
    }
  }

  lemma SmallTablesDistinct()
    ensures TableDistinct(PinTable) && TableDistinct(TpmTable) && TableDistinct(U2fTable)
  {
  }

  lemma TablesDistinct()
    ensures TableDistinct(PinTable) && TableDistinct(TpmTable) && TableDistinct(U2fTable)
    ensures TableDistinct(CredTable) && TableDistinct(TopTable)
  {
    hide TableDistinct;
    CredTableDistinct();
    TopTableDistinct();
    SmallTablesDistinct();
  }

  lemma RowCredentialBack(c: Credential)
    ensures RowCredential(CredRow(c)) == c
  {
  }

  lemma OtherRecordsBack(p: PinState, m: TpmState, u: U2fAttestation)
    ensures RowPin(Empty.pin, PinRow(p)) == p
    ensures m.present ==> RowTpm(NoTpm, TpmRow(m)) == m
    ensures RowU2f(U2fRow(u)) == u
  {
  }

  ghost predicate CredDoc(c: Credential, es: seq<Entry>) { RowDoc(CredTable, CredRow(c), es) }

  /** Every arrangement of a credential's map decodes to that credential. */
  lemma CredentialReads(c: Credential, es: seq<Entry>, t: seq<Byte>)
    requires CredDoc(c, es)
    ensures DecodeCredential(Document(es) + t) == Ok(c, t)
  {
    TablesDistinct();
    RowReads(CredTable, CredRow(c), es, t);
    RowCredentialBack(c);
  }

  /** b is the rows' maps one after the other, each in some arrangement. */
  ghost predicate RowsDoc(rows: seq<Credential>, b: seq<Byte>)
    decreases |rows|, 1
  {
    if rows == [] then b == []
    else exists es, more :: RowsSplit(rows, b, es, more)
  }

  ghost predicate RowsSplit(rows: seq<Credential>, b: seq<Byte>, es: seq<Entry>, more: seq<Byte>)
    requires rows != []
    decreases |rows|, 0
  {
    CredDoc(rows[0], es) && b == Document(es) + more && RowsDoc(rows[1..], more)
  }

  lemma {:induction false} RowsRead(before: seq<Credential>, rows: seq<Credential>, b: seq<Byte>, t: seq<Byte>)
    requires RowsDoc(rows, b) && forall c <- rows :: RowValid(c)
    ensures ReadRows(before, |rows|, b + t) == Ok(before + rows, t)
    decreases |rows|
  {
    hide DecodeCredential, CredDoc, EncodeMap;
    if rows == [] {
      assert b + t == t && before + rows == before;
    } else {
      var es, more :| RowsSplit(rows, b, es, more);
      CredentialReads(rows[0], es, more + t);
      assert b + t == Document(es) + (more + t);
      RowsRead(before + [rows[0]], rows[1..], more, t);
      assert before + [rows[0]] + rows[1..] == before + rows;
    }
  }

  lemma {:induction false} EncodedRowsAreDocs(rows: seq<Credential>)
    ensures RowsDoc(rows, EncodeRows(rows))
  {
    if rows != [] {
      TablesDistinct();
      EncodedRowIsDoc(CredTable, CredRow(rows[0]));
      EncodedRowsAreDocs(rows[1..]);
      assert RowsSplit(rows, EncodeRows(rows), SortByKey(RowEntries(CredTable, CredRow(rows[0]))),
                       EncodeRows(rows[1..]));
    }
  }

  // ---------------------------------------------------------------- the whole store

  /** What a parse can restore: seeds of a TPM state that is not marked present are not printed. */
  function Normal(s: State): State { if s.tpm.present then s else s.(tpm := NoTpm) }

  ghost predicate StoreValid(s: State) { |s.creds| < TWO64 && forall c <- s.creds :: RowValid(c) }

  ghost predicate HoldsRow(table: seq<Column>, row: Row, val: seq<Byte>) {
    exists es :: RowDoc(table, row, es) && val == Document(es)
  }

  ghost predicate HoldsRows(rows: seq<Credential>, val: seq<Byte>) {
    exists b :: RowsDoc(rows, b) && val == Head(ARRAY, |rows|) + b
  }

  /** val is what the store s may have under the key n. */
  ghost predicate SectionFits(s: State, n: Name, val: seq<Byte>) {
    match n
    case Aaguid => val == EncBstr(AAGUID)
    case InstallId => val == EncBstr(s.installId)
    case Serial => val == EncTstr(s.serial)
    case PinKey => HoldsRow(PinTable, PinRow(s.pin), val)
    case TpmKey => s.tpm.present && HoldsRow(TpmTable, TpmRow(s.tpm), val)
    case U2fAttest => s.u2f.Some? && HoldsRow(U2fTable, U2fRow(s.u2f.value), val)
    case Creds => HoldsRows(s.creds, val)
    case _ => false
  }

  ghost predicate Written(s: State, n: Name) {
    n.Aaguid? || n.InstallId? || n.Serial? || n.PinKey? || n.Creds? || (n.TpmKey? && s.tpm.present)
    || (n.U2fAttest? && s.u2f.Some?)
  }

  ghost predicate IsSection(s: State, e: Entry, n: Name) {
    Written(s, n) && e.key == EncTstr(Key(n)) && SectionFits(s, n, e.val)
  }

  /** The top-level entries of a map holding the store: in any order, each nested map in any order too, and
      with entries to be skipped at every level. */
  ghost predicate StoreDoc(s: State, es: seq<Entry>) {
    && |es| < TWO64 && DistinctKeys(es)
    && (forall e <- es :: Skipped(TopTable, e) || exists n :: IsSection(s, e, n))
    && (forall n | Written(s, n) :: exists e <- es :: IsSection(s, e, n))
  }

  /** The store once exactly the sections in seen were read. */
  ghost function StoreSoFar(s: State, seen: set<seq<Byte>>): State {
    State(if Has(seen, Creds) then s.creds else [],
          if Has(seen, PinKey) then s.pin else Empty.pin,
          if Has(seen, TpmKey) then s.tpm else NoTpm,
          if Has(seen, U2fAttest) then s.u2f else None,
          if Has(seen, Serial) then s.serial else [],
          if Has(seen, InstallId) then s.installId else Zeros(16))
  }

  ghost function WithSection(s: State, d: State, n: Name): State {
    match n
    case InstallId => d.(installId := s.installId)
    case Serial => d.(serial := s.serial)
    case PinKey => d.(pin := s.pin)
    case TpmKey => d.(tpm := s.tpm)
    case U2fAttest => d.(u2f := s.u2f)
    case Creds => d.(creds := s.creds)
    case _ => d
  }

  lemma SectionSeen(s: State, seen: set<seq<Byte>>, n: Name)
    requires Written(s, n)
    ensures StoreSoFar(s, seen + {EncTstr(Key(n))}) == WithSection(s, StoreSoFar(s, seen), n)
  {
    hide Has, Key, EncTstr;
    HasAdd(seen, n);
  }

  lemma FlatSectionReads(s: State, d: State, n: Name, val: seq<Byte>, t: seq<Byte>)
    requires SectionFits(s, n, val) && (n.Aaguid? || n.InstallId? || n.Serial?)
    ensures ReadSection(d, n, val + t) == Ok(WithSection(s, d, n), t)
  {
    match n
    case Aaguid => ValRoundTrip(FixedKind(16), BytesVal(AAGUID), t);
    case InstallId => ValRoundTrip(FixedKind(16), BytesVal(s.installId), t);
    case Serial => StringRoundTrip(TSTR, s.serial, t);
  }

  lemma MapSectionReads(s: State, d: State, n: Name, val: seq<Byte>, t: seq<Byte>)
    requires SectionFits(s, n, val) && (n.PinKey? || n.TpmKey? || n.U2fAttest?)
    requires d.pin == Empty.pin || !n.PinKey?
    requires d.tpm == NoTpm || !n.TpmKey?
    ensures ReadSection(d, n, val + t) == Ok(WithSection(s, d, n), t)
  {
    TablesDistinct();
    OtherRecordsBack(s.pin, s.tpm, s.u2f.GetOr(U2fAttestation([], [])));
    match n {
      case PinKey =>
        var es :| RowDoc(PinTable, PinRow(s.pin), es) && val == Document(es);
        RowReads(PinTable, PinRow(s.pin), es, t);
      case TpmKey =>
        var es :| RowDoc(TpmTable, TpmRow(s.tpm), es) && val == Document(es);
        RowReads(TpmTable, TpmRow(s.tpm), es, t);
      case U2fAttest =>
        var es :| RowDoc(U2fTable, U2fRow(s.u2f.value), es) && val == Document(es);
        RowReads(U2fTable, U2fRow(s.u2f.value), es, t);
    }
  }

  lemma CredsRead(rows: seq<Credential>, val: seq<Byte>, t: seq<Byte>)
    requires |rows| < TWO64 && (forall c <- rows :: RowValid(c)) && HoldsRows(rows, val)
    ensures ReadCreds([], val + t) == Ok(rows, t)
  {
    hide ReadRows, TakeHead, Head, RowsDoc;
    var b :| RowsDoc(rows, b) && val == Head(ARRAY, |rows|) + b;
    assert val + t == Head(ARRAY, |rows|) + (b + t);
    TakeShortest(ARRAY, |rows|, b + t);
    RowsRead([], rows, b, t);
    assert [] + rows == rows;
  }

  lemma TopKeyFound(s: State, n: Name)
    requires Written(s, n)
    ensures exists i: nat :: i < |TopTable| && TopTable[i].key == n && IndexIn(Key(n), TopTable) == Some(i)
  {
    TablesDistinct();
    assert TopTable[0].key == Aaguid && TopTable[1].key == InstallId && TopTable[2].key == Serial;
    assert TopTable[3].key == PinKey && TopTable[4].key == TpmKey && TopTable[5].key == U2fAttest
           && TopTable[6].key == Creds;
    var i: nat :| i < |TopTable| && TopTable[i].key == n;
    KeyFound(TopTable, i);
  }

  lemma SectionReads(s: State, seen: set<seq<Byte>>, n: Name, val: seq<Byte>, t: seq<Byte>)
    requires StoreValid(s) && Written(s, n) && SectionFits(s, n, val) && !Has(seen, n)
    ensures ReadSection(StoreSoFar(s, seen), n, val + t) == Ok(StoreSoFar(s, seen + {EncTstr(Key(n))}), t)
  {
    var d := StoreSoFar(s, seen);
    SectionSeen(s, seen, n);
    hide ReadCreds, ReadRow, ReadTstr, ReadVal, HoldsRow, HoldsRows, EncTstr;
    if n.Creds? {
      CredsRead(s.creds, val, t);
    } else if n.PinKey? || n.TpmKey? || n.U2fAttest? {
      MapSectionReads(s, d, n, val, t);
    } else {
      FlatSectionReads(s, d, n, val, t);
    }
  }

  lemma TopHasColumn(n: Name)
    requires n in {InstallId, Serial, PinKey, TpmKey, U2fAttest, Creds}
    ensures exists c <- TopTable :: c.key == n
  {
    var i := if n == InstallId then 1 else if n == Serial then 2 else if n == PinKey then 3
             else if n == TpmKey then 4 else if n == U2fAttest then 5 else 6;
    assert TopTable[i] in TopTable && TopTable[i].key == n;
  }

  lemma SkippedNotSection(e: Entry, seen: set<seq<Byte>>, n: Name)
    requires Skipped(TopTable, e) && n in {InstallId, Serial, PinKey, TpmKey, U2fAttest, Creds}
    ensures Has(seen + {e.key}, n) <==> Has(seen, n)
  {
    hide Skipped, Has;
    TopHasColumn(n);
    SkippedNotSeen(TopTable, e, seen);
    var c :| c in TopTable && c.key == n;
  }

  lemma SkippedKeepsStore(s: State, e: Entry, seen: set<seq<Byte>>)
    requires Skipped(TopTable, e)
    ensures StoreSoFar(s, seen + {e.key}) == StoreSoFar(s, seen)
  {
    hide Skipped, Has;
    SkippedNotSection(e, seen, InstallId);
    SkippedNotSection(e, seen, Serial);
    SkippedNotSection(e, seen, PinKey);
    SkippedNotSection(e, seen, TpmKey);
    SkippedNotSection(e, seen, U2fAttest);
    SkippedNotSection(e, seen, Creds);
  }

  lemma TopEntryStep(s: State, seen: set<seq<Byte>>, e: Entry, t: seq<Byte>)
    requires StoreValid(s) && e.key !in seen
    requires Skipped(TopTable, e) || exists n :: IsSection(s, e, n)
    ensures TopStep(StoreSoFar(s, seen), e.key + e.val + t) == Ok(StoreSoFar(s, seen + {e.key}), t)
  {
    hide ReadSection, ReadTstr, Skip, IndexIn, SectionFits, EncTstr, Key, EncodeItem, StoreSoFar;
    if Skipped(TopTable, e) {
      var k: Blob, it :| SkippedAs(TopTable, e, k, it);
      SkippedReads(TopTable, e, k, it, t);
      SkippedKeepsStore(s, e, seen);
    } else {
      var n :| IsSection(s, e, n);
      KeyReads(n, e.val, t);
      TopKeyFound(s, n);
      SectionReads(s, seen, n, e.val, t);
    }
  }

  ghost function TopInv(s: State): (set<seq<Byte>>, State) -> bool { (seen, d) => d == StoreSoFar(s, seen) }

  lemma TopEntryReads(s: State, e: Entry)
    requires StoreValid(s)
    requires Skipped(TopTable, e) || exists n :: IsSection(s, e, n)
    ensures EntryReads(TopStep, TopInv(s), e)
  {
    hide TopStep, Skipped, IsSection, StoreSoFar;
    forall seen, d, t | TopInv(s)(seen, d) && e.key !in seen
      ensures var r := TopStep(d, e.key + e.val + t);
              r.Ok? && r.rest == t && TopInv(s)(seen + {e.key}, r.value)
    {
      TopEntryStep(s, seen, e, t);
    }
  }

  /** Loading any arrangement of a store's map, followed by anything, restores the store. */
  lemma LoadReads(s: State, es: seq<Entry>, t: seq<Byte>)
    requires StoreValid(s) && StoreDoc(s, es)
    ensures Load(Document(es) + t) == Success(Normal(s))
  {
    hide TopStep, Document, ReadRecord, Skipped, SectionFits;
    forall e <- es ensures EntryReads(TopStep, TopInv(s), e) { TopEntryReads(s, e); }
    assert StoreSoFar(s, {}) == Empty;
    RecordReads(TopStep, TopInv(s), Empty, es, t);
    forall n | Written(s, n) ensures Has(Keys(es), n) {
      var e :| e in es && IsSection(s, e, n);
    }
    assert Written(s, Creds) && Written(s, PinKey) && Written(s, Serial) && Written(s, InstallId);
    if !s.tpm.present && Has(Keys(es), TpmKey) {
      NotWrittenNotThere(s, es, TpmKey);
    }
    if s.u2f.None? && Has(Keys(es), U2fAttest) {
      NotWrittenNotThere(s, es, U2fAttest);
    }
  }

  lemma NotWrittenNotThere(s: State, es: seq<Entry>, n: Name)
    requires StoreDoc(s, es) && !Written(s, n) && (n.TpmKey? || n.U2fAttest?)
    ensures !Has(Keys(es), n)
  {
    forall e | e in es && e.key == EncTstr(Key(n)) ensures false {
      assert TopTable[4].key == TpmKey && TopTable[5].key == U2fAttest && TopTable[4] in TopTable
             && TopTable[5] in TopTable;
      if Skipped(TopTable, e) {
        var k: Blob, it :| SkippedAs(TopTable, e, k, it);
        EncTstrInjective(k, Key(n));
      } else {
        var m :| IsSection(s, e, m);
        EncTstrInjective(Key(m), Key(n));
        KeysDistinct(m, n);
      }
    }
  }

  lemma NamesAreWritten(s: State)
    ensures |SectionNames(s)| <= 7
    ensures forall i, j :: 0 <= i < j < |SectionNames(s)| ==> SectionNames(s)[i] != SectionNames(s)[j]
    ensures forall n :: n in SectionNames(s) <==> Written(s, n)
  {
  }

  lemma SectionValFits(s: State, n: Name)
    requires Written(s, n)
    ensures SectionFits(s, n, SectionVal(s, n))
  {
    hide EncodeRow, EncodeRows, EncBstr, EncTstr, HoldsRow, HoldsRows, PinRow, TpmRow, U2fRow;
    NestedFit(s);
  }

  lemma SectionAt(s: State, i: nat)
    requires i < |Sections(s)|
    ensures |Sections(s)| == |SectionNames(s)| && IsSection(s, Sections(s)[i], SectionNames(s)[i])
  {
    hide Key, EncTstr, SectionFits, SectionVal, SectionNames, Written;
    NamesAreWritten(s);
    assert SectionNames(s)[i] in SectionNames(s);
    SectionValFits(s, SectionNames(s)[i]);
  }

  lemma SectionsMembers(s: State)
    ensures |Sections(s)| <= 7 && DistinctKeys(Sections(s))
    ensures forall n | Written(s, n) :: exists e <- Sections(s) :: IsSection(s, e, n)
    ensures forall e <- Sections(s) :: exists n :: IsSection(s, e, n)
  {
    hide Key, EncTstr, SectionFits, SectionVal, SectionNames, Sections, Written;
    var all, names := Sections(s), SectionNames(s);
    NamesAreWritten(s);
    SectionCount(s);
    forall e <- all ensures exists n :: IsSection(s, e, n) {
      var i :| 0 <= i < |all| && all[i] == e;
      SectionAt(s, i);
    }
    forall n | Written(s, n) ensures exists e <- all :: IsSection(s, e, n) {
      var i :| 0 <= i < |names| && names[i] == n;
      SectionAt(s, i);
      assert all[i] in all;
    }
    forall i, j | 0 <= i < j < |all| ensures all[i].key != all[j].key {
      SectionAt(s, i);
      SectionAt(s, j);
      if all[i].key == all[j].key {
        EncTstrInjective(Key(names[i]), Key(names[j]));
        KeysDistinct(names[i], names[j]);
      }
    }
  }

  lemma SectionCount(s: State)
    ensures |Sections(s)| == |SectionNames(s)|
  {
  }

  lemma NestedFit(s: State)
    ensures HoldsRow(PinTable, PinRow(s.pin), EncodeRow(PinTable, PinRow(s.pin)))
    ensures HoldsRow(TpmTable, TpmRow(s.tpm), EncodeRow(TpmTable, TpmRow(s.tpm)))
    ensures s.u2f.Some? ==> HoldsRow(U2fTable, U2fRow(s.u2f.value), EncodeRow(U2fTable, U2fRow(s.u2f.value)))
    ensures HoldsRows(s.creds, Head(ARRAY, |s.creds|) + EncodeRows(s.creds))
  {
    hide EncodeRow, EncodeRows, Head, RowsDoc, RowDoc, PinRow, TpmRow, U2fRow;
    TablesDistinct();
    EncodedRowIsDoc(PinTable, PinRow(s.pin));
    EncodedRowIsDoc(TpmTable, TpmRow(s.tpm));
    if s.u2f.Some? {
      EncodedRowIsDoc(U2fTable, U2fRow(s.u2f.value));
    }
    EncodedRowsAreDocs(s.creds);
  }

  lemma SerializeIsDoc(s: State)
    ensures var es := SortByKey(Sections(s));
            StoreDoc(s, es) && Serialize(s) == Document(es)
  {
    hide Sections, Document, Skipped, SectionFits, Written;
    SectionsMembers(s);
    MapIsDocument(Sections(s));
    var es := SortByKey(Sections(s));
    forall n | Written(s, n) ensures exists e <- es :: IsSection(s, e, n) {
      var e :| e in Sections(s) && IsSection(s, e, n);
      assert e in es;
    }
  }

  /** Printing a store and loading the bytes restores it. */
  lemma LoadSerialize(s: State)
    requires StoreValid(s)
    ensures Load(Serialize(s)) == Success(Normal(s))
  {
    hide Load, Serialize, Document, StoreDoc, Sections, SortByKey;
    SerializeIsDoc(s);
    LoadReads(s, SortByKey(Sections(s)), []);
    assert Serialize(s) + [] == Serialize(s);
  }

  /** The very state that was printed comes back if and only if it has a TPM state, or none was ever filled in. */
  lemma RestoresExactly(s: State)
    requires StoreValid(s)
    ensures Load(Serialize(s)) == Success(s) <==> s.tpm.present || s.tpm == NoTpm
  {
    hide Load, Serialize;
    LoadSerialize(s);
  }
}
