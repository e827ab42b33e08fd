/** The CredentialStore object of src/store/credential_store.cpp over the Reader and Writer objects. A save's
    outcome is a parameter: it replaces the file, or fails and leaves it. */
module StoreIo {
  import opened Bytes
  import opened Statuses
  import opened Cbor
  import opened CborIo
  import opened StoreCodec
  import opened Store

  // ---------------------------------------------------------------- reading flat maps

  method ReadFixed(r: Reader, size: nat) returns (b: Result<Val>)
    requires r.Valid()
    modifies r
    ensures r.Valid() && Agrees(b, r.Rest(), ReadVal(FixedKind(size), old(r.Rest())))
  {
    hide ReadBstr;
    var v :- r.Bstr();
    if |v| != size {
      return Failure(InvalidCbor);
    }
    return Success(BytesVal(v));
  }

  method ReadValue(r: Reader, k: Kind) returns (v: Result<Val>)
    requires r.Valid()
    modifies r
    ensures r.Valid() && Agrees(v, r.Rest(), ReadVal(k, old(r.Rest())))
  {
    hide ReadBstr, ReadTstr, ReadUint, ReadBool;
    match k
    case TextKind => var b :- r.Tstr(); return Success(TextVal(b));
    case BytesKind => var b :- r.Bstr(); return Success(BytesVal(b));
    case FlagKind => var f :- r.Boolean(); return Success(FlagVal(f));
    case FixedKind(size) => v := ReadFixed(r, size);
    case BackendKind =>
      var n :- r.Uint();
      if n > 2 {
        return Failure(InvalidCbor);
      }
      return Success(NumVal(n));
    case Num8Kind => var n :- r.Uint(); return Success(NumVal(n % 256));
    case Num32Kind => var n :- r.Uint(); return Success(NumVal(n % TWO32));
    case AnyNumKind => var n :- r.Uint(); return Success(NumVal(n));
  }

  /** The loop over one flat map's entries. */
  method ReadFlatMap(r: Reader, table: seq<Column>) returns (row: Result<Row>)
    requires r.Valid()
    modifies r
    ensures r.Valid() && Agrees(row, r.Rest(), ReadRow(table, old(r.Rest())))
  {
    hide ReadMap, ReadTstr, ReadVal, Skip, IndexIn;
    var n :- r.MapHeader();
    var got := Unread(table);
    ghost var entries := r.Rest();
    var i := 0;
    while i < n
      invariant r.Valid() && i <= n
      invariant MapLoop(Stepper(table), got, n - i, r.Rest()) == MapLoop(Stepper(table), Unread(table), n, entries)
    {
      var k :- r.Tstr();
      var column := IndexIn(k, table);
      if column.Some? {
        var v :- ReadValue(r, table[column.value].kind);
        if column.value < |got| {
          got := got[column.value := Some(v)];
        }
      } else {
        var skipped :- r.SkipDepth(0);
      }
      i := i + 1;
    }
    return Success(got);
  }

  method ReadCredential(r: Reader) returns (c: Result<Credential>)
    requires r.Valid()
    modifies r
    ensures r.Valid() && Agrees(c, r.Rest(), DecodeCredential(old(r.Rest())))
  {
    hide ReadRow, RowCredential;
    var row :- ReadFlatMap(r, CredTable);
    return Success(RowCredential(row));
  }

  class CredentialStore {
    var creds: seq<Credential>
    var pin: PinState
    var tpm: TpmState
    var u2f: Option<U2fAttestation>
    var serial: Blob
    var installId: Bytes16
    var disk: Option<seq<Byte>>  // what the persister holds
    var held: bool  // its key is in the keychain
    var opens: bool  // the keychain's key opens the file

    ghost function Memory(): State
      reads this
    {
      State(creds, pin, tpm, u2f, serial, installId)
    }

    ghost function Contents(): Durable
      reads this
    {
      Durable(Memory(), disk, held, opens)
    }

    /** The file and its key. */
    ghost function File(): (Option<seq<Byte>>, bool, bool)
      reads this
    {
      (disk, held, opens)
    }

    /** A store on a file that opened, or on no file. */
    constructor (file: Option<seq<Byte>>)
      ensures Contents() == Durable(Empty, file, true, true)
    {
      creds, pin, tpm, u2f, serial, installId := [], PinState(None, MAX_RETRIES), NoTpm, None, [], Zeros(16);
      disk, held, opens := file, true, true;
    }

    // -------------------------------------------------------------- loading

    /** The rows of the "creds" array, each validated and appended. */
    method LoadRows(r: Reader) returns (ok: Result<()>)
      requires r.Valid()
      modifies r, this`creds
      ensures r.Valid()
      ensures match ReadCreds(old(creds), old(r.Rest()))
              case Ok(rows, t) => ok == Success(()) && creds == rows && r.Rest() == t
              case Err(e) => ok == Failure(e)
    {
      hide ReadArray, DecodeCredential, RowValid;
      var n :- r.ArrayHeader();
      ghost var rows := r.Rest();
      var j := 0;
      while j < n
        invariant r.Valid() && j <= n
        invariant ReadRows(creds, n - j, r.Rest()) == ReadRows(old(creds), n, rows)
      {
        var c :- ReadCredential(r);
        if !RowValid(c) {
          return Failure(Other);
        }
        creds := creds + [c];
        j := j + 1;
      }
      return Success(());
    }

    /** The value under one of the store's own keys that is a flat map. */
    method LoadMap(r: Reader, n: Name) returns (ok: Result<()>)
      requires r.Valid() && n in {PinKey, TpmKey, U2fAttest}
      modifies r, this
      ensures r.Valid() && File() == old(File())
      ensures match ReadSection(old(Memory()), n, old(r.Rest()))
              case Ok(s, t) => ok == Success(()) && Memory() == s && r.Rest() == t
              case Err(e) => ok == Failure(e)
    {
      hide ReadRow, RowPin, RowTpm, RowU2f, ReadVal, ReadTstr, ReadCreds;
      if n == PinKey {
        var row :- ReadFlatMap(r, PinTable);
        pin := RowPin(pin, row);
      } else if n == TpmKey {
        var row :- ReadFlatMap(r, TpmTable);
        tpm := RowTpm(tpm, row);
      } else {
        var row :- ReadFlatMap(r, U2fTable);
        u2f := Some(RowU2f(row));
      }
      return Success(());
    }

    /** The value under one of the store's own keys that is a single string. */
    method LoadString(r: Reader, n: Name) returns (ok: Result<()>)
      requires r.Valid() && n in {Aaguid, InstallId, Serial}
      modifies r, this
      ensures r.Valid() && File() == old(File())
      ensures match ReadSection(old(Memory()), n, old(r.Rest()))
              case Ok(s, t) => ok == Success(()) && Memory() == s && r.Rest() == t
              case Err(e) => ok == Failure(e)
    {
      hide ReadVal, ReadTstr, ReadCreds, ReadRow;
      if n == Serial {
        var v :- r.Tstr();
        serial := v;
      } else {
        var v :- ReadFixed(r, 16);
        if n == InstallId {
          assert |v.b| == 16 by { FixedFits(16, old(r.Rest())); }
          installId := v.b;
        }
      }
      return Success(());
    }

    static lemma CredsSection(s: State, n: Name, rest: seq<Byte>)
      requires n !in {PinKey, TpmKey, U2fAttest, Aaguid, InstallId, Serial}
      ensures ReadSection(s, n, rest)
           == match ReadCreds(s.creds, rest) case Ok(rows, t) => Ok(s.(creds := rows), t) case Err(e) => Err(e)
    {
      hide ReadCreds;
    }

    /** The value under one of the store's own keys. */
    method LoadSection(r: Reader, n: Name) returns (ok: Result<()>)
      requires r.Valid()
      modifies r, this
      ensures r.Valid() && File() == old(File())
      ensures match ReadSection(old(Memory()), n, old(r.Rest()))
              case Ok(s, t) => ok == Success(()) && Memory() == s && r.Rest() == t
              case Err(e) => ok == Failure(e)
    {
      hide ReadSection, ReadCreds;
      if n in {PinKey, TpmKey, U2fAttest} {
        ok := LoadMap(r, n);
      } else if n in {Aaguid, InstallId, Serial} {
        ok := LoadString(r, n);
      } else {
        CredsSection(Memory(), n, r.Rest());
        ok := LoadRows(r);
      }
    }

    static lemma FixedFits(size: nat, s: seq<Byte>)
      ensures ReadVal(FixedKind(size), s).Ok? ==>
                ReadVal(FixedKind(size), s).value.BytesVal? && |ReadVal(FixedKind(size), s).value.b| == size
    {
    }

    /** One key of the store's map and its value. */
    method LoadEntry(r: Reader) returns (ok: Result<()>)
      requires r.Valid()
      modifies r, this
      ensures r.Valid() && File() == old(File())
      ensures match TopStep(old(Memory()), old(r.Rest()))
              case Ok(s, t) => ok == Success(()) && Memory() == s && r.Rest() == t
              case Err(e) => ok == Failure(e)
    {
      hide ReadTstr, ReadSection, Skip, IndexIn;
      var k :- r.Tstr();
      var section := IndexIn(k, TopTable);
      if section.Some? {
        ok := LoadSection(r, TopTable[section.value].key);
      } else {
        var skipped :- r.SkipDepth(0);
        ok := Success(());
      }
    }

    /** load_locked, on a fresh store. */
    method LoadLocked(plaintext: seq<Byte>) returns (ok: Result<()>)
      requires Memory() == Empty
      modifies this
      ensures File() == old(File())
      ensures match Load(plaintext)
              case Success(s) => ok == Success(()) && Memory() == s
              case Failure(e) => ok == Failure(e)
    {
      hide ReadMap, TopStep, MapLoop, Load, Memory, File;
      LoadIs(plaintext);
      var r := new Reader(plaintext);
      var n :- r.MapHeader();
      ok := LoadEntries(r, n);
    }

    /** The loop of load_locked over the entries. */
    method LoadEntries(r: Reader, n: nat) returns (ok: Result<()>)
      requires r.Valid()
      modifies r, this
      ensures r.Valid() && File() == old(File())
      ensures match MapLoop(TopStep, old(Memory()), n, old(r.Rest()))
              case Ok(s, t) => ok == Success(()) && Memory() == s && r.Rest() == t
              case Err(e) => ok == Failure(e)
    {
      hide *;
      ghost var start, entries := Memory(), r.Rest();
      var i := 0;
      while i < n
        invariant r.Valid() && i <= n && File() == old(File())
        invariant MapLoop(TopStep, Memory(), n - i, r.Rest()) == MapLoop(TopStep, start, n, entries)
      {
        TopLoopStep(Memory(), n - i, r.Rest());
        ok := LoadEntry(r);
        if ok.Failure? {
          return;
        }
        i := i + 1;
      }
      TopLoopDone(Memory(), r.Rest());
      return Success(());
    }

    static lemma LoadIs(plaintext: seq<Byte>)
      ensures Load(plaintext)
           == match ReadMap(plaintext)
              case Err(e) => Failure(e)
              case Ok(n, rest) =>
                match MapLoop(TopStep, Empty, n, rest) case Ok(s, _) => Success(s) case Err(e) => Failure(e)
    {
      hide ReadMap, TopStep, MapLoop;
    }

    static lemma TopLoopStep(s: State, n: nat, bytes: seq<Byte>)
      requires n > 0
      ensures MapLoop(TopStep, s, n, bytes)
           == match TopStep(s, bytes) case Err(e) => Err(e) case Ok(s', rest) => MapLoop(TopStep, s', n - 1, rest)
    {
      hide TopStep;
    }

    static lemma TopLoopDone(s: State, bytes: seq<Byte>)
      ensures MapLoop(TopStep, s, 0, bytes) == Ok(s, bytes)
    {
      hide TopStep;
    }

    // -------------------------------------------------------------- printing

    static lemma RowsStep(buf: seq<Byte>, creds: seq<Credential>, i: nat)
      requires i < |creds|
      ensures buf + EncodeRows(creds[i..]) == buf + EncodeCredential(creds[i]) + EncodeRows(creds[i + 1..])
    {
      hide EncodeCredential;
      assert creds[i..][1..] == creds[i + 1..];
      assert buf + (EncodeCredential(creds[i]) + EncodeRows(creds[i + 1..]))
             == buf + EncodeCredential(creds[i]) + EncodeRows(creds[i + 1..]);
    }

    static lemma RowsNone(buf: seq<Byte>)
      ensures buf + EncodeRows([]) == buf
    {
    }

    method PrintRows() returns (bytes: seq<Byte>)
      ensures bytes == Head(ARRAY, |creds|) + EncodeRows(creds)
    {
      hide Head, EncodeCredential, EncodeRows;
      var w := new Writer();
      w.WriteArrayHeader(|creds|);
      ghost var start := w.buf;
      assert start == Head(ARRAY, |creds|) && creds[0..] == creds;
      var i := 0;
      while i < |creds|
        invariant fresh(w) && 0 <= i <= |creds|
        invariant w.buf + EncodeRows(creds[i..]) == start + EncodeRows(creds)
      {
        RowsStep(w.buf, creds, i);
        w.WriteRaw(EncodeCredential(creds[i]));
        i := i + 1;
      }
      assert creds[|creds|..] == [];
      RowsNone(w.buf);
      return w.buf;
    }

    static lemma SectionsInOrder(s: State)
      ensures Sections(s)
           == [Entry(EncTstr(Key(Aaguid)), EncBstr(AAGUID)), Entry(EncTstr(Key(InstallId)), EncBstr(s.installId)),
               Entry(EncTstr(Key(Serial)), EncTstr(s.serial)),
               Entry(EncTstr(Key(PinKey)), EncodeRow(PinTable, PinRow(s.pin)))]
            + (if s.tpm.present then [Entry(EncTstr(Key(TpmKey)), EncodeRow(TpmTable, TpmRow(s.tpm)))] else [])
            + (if s.u2f.Some? then [Entry(EncTstr(Key(U2fAttest)), EncodeRow(U2fTable, U2fRow(s.u2f.value)))] else [])
            + [Entry(EncTstr(Key(Creds)), Head(ARRAY, |s.creds|) + EncodeRows(s.creds))]
    {
      hide EncodeRow, EncodeRows, Key, Head, EncTstr, EncBstr, PinRow, TpmRow, U2fRow;
    }

    method SerializeLocked() returns (bytes: seq<Byte>)
      ensures bytes == Serialize(Memory())
    {
      hide EncodeRow, EncodeRows, EncodeMap, Key, Head, EncTstr, EncBstr, PinRow, TpmRow, U2fRow, Sections;
      SectionsInOrder(Memory());
      var top: seq<Entry> := [];
      top := top + [Entry(EncTstr(Key(Aaguid)), EncBstr(AAGUID))];
      top := top + [Entry(EncTstr(Key(InstallId)), EncBstr(installId))];
      top := top + [Entry(EncTstr(Key(Serial)), EncTstr(serial))];
      top := top + [Entry(EncTstr(Key(PinKey)), EncodeRow(PinTable, PinRow(pin)))];
      if tpm.present {
        top := top + [Entry(EncTstr(Key(TpmKey)), EncodeRow(TpmTable, TpmRow(tpm)))];
      }
      if u2f.Some? {
        top := top + [Entry(EncTstr(Key(U2fAttest)), EncodeRow(U2fTable, U2fRow(u2f.value)))];
      }
      var rows := PrintRows();
      top := top + [Entry(EncTstr(Key(Creds)), rows)];
      assert top == Sections(Memory());
      var w := new Writer();
      w.WriteMap(top);
      assert [] + EncodeMap(top) == EncodeMap(top);
      return w.buf;
    }

    method FlushLocked(ok: bool) returns (r: Result<()>)
      modifies this`disk, this`opens
      ensures (Contents(), r) == Flush(old(Contents()), ok)
    {
      hide Serialize;
      var pt := SerializeLocked();
      if !ok {
        return Failure(Other);
      }
      disk, opens := Some(pt), held;
      return Success(());
    }

    // -------------------------------------------------------------- operations

    method FindIndex(id: seq<Byte>) returns (i: nat)
      ensures i == IndexOf(creds, id)
    {
      i := 0;
      while i < |creds| && creds[i].credId != id
        invariant 0 <= i <= |creds|
        invariant forall j :: 0 <= j < i ==> creds[j].credId != id
      {
        i := i + 1;
      }
    }

    method Put(c: Credential, ok: bool) returns (r: Result<()>)
      modifies this`creds, this`disk, this`opens
      ensures (Contents(), r) == Store.Put(old(Contents()), c, ok)
    {
      hide Serialize, IndexOf;
      if !RowValid(c) {
        return Failure(InvalidParameter);
      }
      var i := FindIndex(c.credId);
      if i < |creds| {
        var previous := creds[i];
        creds := creds[i := c];
        r := FlushLocked(ok);
        if r.Failure? {
          creds := creds[i := previous];
        }
        assert r.Failure? ==> creds == old(creds);
        return;
      }
      if |creds| >= MAX_CREDENTIALS {
        return Failure(KeyStoreFull);
      }
      creds := creds + [c];
      r := FlushLocked(ok);
      if r.Failure? {
        creds := creds[..|creds| - 1];
      }
      assert r.Failure? ==> creds == old(creds);
    }

    static lemma ByRpStep(out: seq<Credential>, creds: seq<Credential>, rpIdHash: seq<Byte>, i: nat)
      requires i < |creds|
      ensures out + FindByRp(creds[i..], rpIdHash)
           == out + (if creds[i].rk && creds[i].rpIdHash == rpIdHash then [creds[i]] else [])
               + FindByRp(creds[i + 1..], rpIdHash)
    {
      assert creds[i..][1..] == creds[i + 1..];
      var one := if creds[i].rk && creds[i].rpIdHash == rpIdHash then [creds[i]] else [];
      assert out + (one + FindByRp(creds[i + 1..], rpIdHash)) == out + one + FindByRp(creds[i + 1..], rpIdHash);
    }

    static lemma ByRpNone(out: seq<Credential>, rpIdHash: seq<Byte>)
      ensures out + FindByRp([], rpIdHash) == out
    {
    }

    method FindByRpHash(rpIdHash: Bytes32) returns (out: seq<Credential>)
      ensures out == FindByRp(creds, rpIdHash)
    {
      hide FindByRp;
      out := [];
      var i := 0;
      assert creds[0..] == creds && [] + FindByRp(creds, rpIdHash) == FindByRp(creds, rpIdHash);
      while i < |creds|
        invariant 0 <= i <= |creds|
        invariant out + FindByRp(creds[i..], rpIdHash) == FindByRp(creds, rpIdHash)
      {
        ByRpStep(out, creds, rpIdHash, i);
        assert out + [] == out;
        if creds[i].rk && creds[i].rpIdHash == rpIdHash {
          out := out + [creds[i]];
        }
        i := i + 1;
      }
      assert creds[|creds|..] == [];
      ByRpNone(out, rpIdHash);
    }

    method FindRow(rpIdHash: seq<Byte>, id: seq<Byte>) returns (c: Option<Credential>)
      ensures c == Find(creds, rpIdHash, id)
    {
      var i := 0;
      while i < |creds|
        invariant 0 <= i <= |creds| && Find(creds[i..], rpIdHash, id) == Find(creds, rpIdHash, id)
      {
        assert creds[i..][1..] == creds[i + 1..];
        if creds[i].rpIdHash == rpIdHash && creds[i].credId == id {
          return Some(creds[i]);
        }
        i := i + 1;
      }
      return None;
    }

    method FindRowById(id: seq<Byte>) returns (c: Option<Credential>)
      ensures c == FindById(creds, id)
    {
      var i := FindIndex(id);
      return if i < |creds| then Some(creds[i]) else None;
    }

    method UpdateCountAndUsed(id: seq<Byte>, count: U32, now: U64, ok: bool) returns (r: Result<()>)
      modifies this`creds, this`disk, this`opens
      ensures (Contents(), r) == Store.UpdateCountAndUsed(old(Contents()), id, count, now, ok)
    {
      hide Serialize, IndexOf;
      var i := FindIndex(id);
      if i == |creds| {
        return Failure(InvalidCredential);
      }
      creds := creds[i := creds[i].(signCount := count, lastUsed := now)];
      r := FlushLocked(ok);
    }

    method Erase(id: seq<Byte>, ok: bool) returns (r: Result<()>)
      modifies this`creds, this`disk, this`opens
      ensures (Contents(), r) == Store.Erase(old(Contents()), id, ok)
    {
      hide Serialize, IndexOf;
      var i := FindIndex(id);
      if i == |creds| {
        return Failure(InvalidCredential);
      }
      var removed := creds[i];
      creds := creds[..i] + creds[i + 1..];
      r := FlushLocked(ok);
      if r.Failure? {
        creds := creds + [removed];
      }
    }

    method SetPin(state: PinState, ok: bool) returns (r: Result<()>)
      modifies this`pin, this`disk, this`opens
      ensures (Contents(), r) == Store.SetPin(old(Contents()), state, ok)
    {
      hide Serialize;
      pin := state;
      r := FlushLocked(ok);
    }

    method SetU2fAttestation(a: U2fAttestation, ok: bool) returns (r: Result<()>)
      modifies this`u2f, this`disk, this`opens
      ensures (Contents(), r) == Store.SetU2fAttestation(old(Contents()), a, ok)
    {
      hide Serialize;
      u2f := Some(a);
      r := FlushLocked(ok);
    }

    /** The persister's reset: the file goes first, then its key, and storing a new key may fail. */
    method ResetFile(o: ResetOutcome) returns (r: Result<()>)
      modifies this`disk, this`held, this`opens
      ensures disk == (if o.wiped then None else old(disk)) && r == (if o.resetOk then Success(()) else Failure(Other))
      ensures held == o.resetOk && opens == (old(opens) && o.readable && !o.resetOk)
    {
      if o.wiped {
        disk := None;
      }
      held, opens := false, opens && o.readable;
      if !o.resetOk {
        return Failure(Other);
      }
      held, opens := true, false;
      return Success(());
    }

    method FactoryReset(o: ResetOutcome) returns (r: Result<()>)
      modifies this
      ensures (Contents(), r) == Store.FactoryReset(old(Contents()), o)
    {
      hide Serialize;
      creds := [];
      pin := PinState(None, MAX_RETRIES);
      tpm := NoTpm;
      u2f := None;
      var gone :- ResetFile(o);
      r := FlushLocked(o.saveOk);
    }
  }
}
