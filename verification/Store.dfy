/** The credential store: memory, the file behind it, and what a failed save leaves behind. */
module Store {
  import opened Bytes
  import opened Statuses
  import opened StoreCodec
  import opened StoreRoundTrip

  /** Memory and the plaintext last saved (None: no file); whether the keychain has the key that saves encrypt
      with, and whether it has the one that opens the file. */
  datatype Durable = Durable(mem: State, disk: Option<seq<Byte>>, held: bool, opens: bool)

  // ---------------------------------------------------------------- operations

  function Saved(d: Durable): Durable { d.(disk := Some(Serialize(d.mem)), opens := d.held) }

  /** flush_locked: ok says whether the persister's save succeeds. A failed save leaves the file as it was. */
  function Flush(d: Durable, ok: bool): (Durable, Result<()>) {
    if ok then (Saved(d), Success(())) else (d, Failure(Other))
  }

  function WithCreds(d: Durable, creds: seq<Credential>): Durable { d.(mem := d.mem.(creds := creds)) }

  /** The first row with the id, or the number of rows. */
  function IndexOf(creds: seq<Credential>, id: seq<Byte>): (i: nat)
    ensures i <= |creds|
    ensures i < |creds| ==> creds[i].credId == id
    ensures forall j :: 0 <= j < i ==> creds[j].credId != id
  {
    if creds == [] || creds[0].credId == id then 0
    else
      assert forall j :: 0 < j < |creds| ==> creds[j] == creds[1..][j - 1];
      1 + IndexOf(creds[1..], id)
  }

  function FindById(creds: seq<Credential>, id: seq<Byte>): Option<Credential> {
    var i := IndexOf(creds, id);
    if i < |creds| then Some(creds[i]) else None
  }

  /** The first row of a relying party with the id. */
  function Find(rows: seq<Credential>, rpIdHash: seq<Byte>, id: seq<Byte>): Option<Credential> {
    if rows == [] then None
    else if rows[0].rpIdHash == rpIdHash && rows[0].credId == id then Some(rows[0])
    else Find(rows[1..], rpIdHash, id)
  }

  /** Discoverable rows of a relying party. */
  function FindByRp(rows: seq<Credential>, rpIdHash: seq<Byte>): seq<Credential> {
    if rows == [] then []
    else (if rows[0].rk && rows[0].rpIdHash == rpIdHash then [rows[0]] else []) + FindByRp(rows[1..], rpIdHash)
  }

  function Without(creds: seq<Credential>, i: nat): (r: seq<Credential>)
    requires i < |creds|
    ensures |r| == |creds| - 1
  {
    creds[..i] + creds[i + 1..]
  }

  function Put(d: Durable, c: Credential, ok: bool): (Durable, Result<()>) {
    var creds, i := d.mem.creds, IndexOf(d.mem.creds, c.credId);
    if !RowValid(c) then (d, Failure(InvalidParameter))
    else if i < |creds| then
      (if ok then (Saved(WithCreds(d, creds[i := c])), Success(())) else (d, Failure(Other)))
    else if |creds| >= MAX_CREDENTIALS then (d, Failure(KeyStoreFull))
    else if ok then (Saved(WithCreds(d, creds + [c])), Success(()))
    else (d, Failure(Other))
  }

  function Erase(d: Durable, id: seq<Byte>, ok: bool): (Durable, Result<()>) {
    var creds, i := d.mem.creds, IndexOf(d.mem.creds, id);
    if i == |creds| then (d, Failure(InvalidCredential))
    else if ok then (Saved(WithCreds(d, Without(creds, i))), Success(()))
    else (WithCreds(d, Without(creds, i) + [creds[i]]), Failure(Other))
  }

  function UpdateCountAndUsed(d: Durable, id: seq<Byte>, count: U32, now: U64, ok: bool): (Durable, Result<()>) {
    var creds, i := d.mem.creds, IndexOf(d.mem.creds, id);
    if i == |creds| then (d, Failure(InvalidCredential))
    else Flush(WithCreds(d, creds[i := creds[i].(signCount := count, lastUsed := now)]), ok)
  }

  function SetPin(d: Durable, pin: PinState, ok: bool): (Durable, Result<()>) {
    Flush(d.(mem := d.mem.(pin := pin)), ok)
  }

  function SetU2fAttestation(d: Durable, a: U2fAttestation, ok: bool): (Durable, Result<()>) {
    Flush(d.(mem := d.mem.(u2f := Some(a))), ok)
  }

  /** What the persister's reset meets: whether the old file is gone or, where it is still there, can still be
      opened; whether the new key was drawn and stored, without which it fails; and whether the save of the emptied
      store succeeds. */
  datatype ResetOutcome = ResetOutcome(wiped: bool, readable: bool, resetOk: bool, saveOk: bool)

  function FactoryReset(d: Durable, o: ResetOutcome): (Durable, Result<()>) {
    var mem := Empty.(serial := d.mem.serial, installId := d.mem.installId);
    var d' := Durable(mem, if o.wiped then None else d.disk, o.resetOk, d.opens && o.readable && !o.resetOk);
    if !o.resetOk then (d', Failure(Other)) else Flush(d', o.saveOk)
  }

  /** Memory is what the file says, or an empty store and a new key where there is no file. None when the file
      cannot be opened or parsed, and the daemon does not start. */
  function Restart(d: Durable, installId: Bytes16): Option<Durable> {
    match d.disk
    case None => Some(Saved(d.(mem := Empty.(installId := installId), held := true)))
    case Some(bytes) =>
      if !d.opens then None
      else match Load(bytes) case Success(s) => Some(d.(mem := s, held := true)) case Failure(_) => None
  }

  /** The store after a restart. Where the daemon does not start, somebody has to move the file aside first. */
  function Recovered(d: Durable, installId: Bytes16): Durable {
    match Restart(d, installId)
    case Some(d') => d'
    case None => Saved(Durable(Empty.(installId := installId), None, true, true))
  }

  /** There is no file, or one the keychain's key opens. */
  predicate StartsAgain(d: Durable) { d.disk.Some? ==> d.opens }

  // ---------------------------------------------------------------- invariant

  ghost predicate DistinctIds(creds: seq<Credential>) {
    forall i, j :: 0 <= i < j < |creds| ==> creds[i].credId != creds[j].credId
  }

  ghost predicate Good(s: State) {
    && DistinctIds(s.creds) && |s.creds| <= MAX_CREDENTIALS && forall c <- s.creds :: RowValid(c)
  }

  /** What the file says. */
  ghost function OnDisk(d: Durable): State {
    match d.disk
    case None => Empty
    case Some(bytes) => match Load(bytes) case Success(s) => s case Failure(_) => Empty
  }

  ghost predicate Readable(d: Durable) { d.disk.Some? ==> Load(d.disk.value).Success? }

  ghost predicate StoreInv(d: Durable) { Good(d.mem) && Good(OnDisk(d)) && Readable(d) }

  lemma StoreIds(d: Durable)
    requires StoreInv(d)
    ensures DistinctIds(d.mem.creds)
  {
  }

  lemma SavedOnDisk(d: Durable)
    requires Good(d.mem)
    ensures OnDisk(Saved(d)) == Normal(d.mem) && Readable(Saved(d)) && StoreInv(Saved(d))
  {
    hide Load, Serialize;
    LoadSerialize(d.mem);
  }

  // ---------------------------------------------------------------- the store as a finite map

  ghost function View(creds: seq<Credential>): map<Bytes32, Credential>
    requires DistinctIds(creds)
  {
    map c <- creds :: c.credId := c
  }

  lemma ViewHas(creds: seq<Credential>)
    requires DistinctIds(creds)
    ensures forall c <- creds :: c.credId in View(creds) && View(creds)[c.credId] == c
    ensures forall id <- View(creds) :: View(creds)[id] in creds && View(creds)[id].credId == id
  {
  }

  lemma ViewIs(creds: seq<Credential>, m: map<Bytes32, Credential>)
    requires DistinctIds(creds)
    requires forall c <- creds :: c.credId in m && m[c.credId] == c
    requires forall id <- m :: m[id] in creds && m[id].credId == id
    ensures View(creds) == m
  {
    hide View;
    ViewHas(creds);
    var v := View(creds);
    forall id ensures id in v <==> id in m {
      if id in v { assert v[id] in creds; }
      if id in m { assert m[id] in creds; }
    }
  }

  lemma ViewLookup(creds: seq<Credential>, id: Bytes32)
    requires DistinctIds(creds)
    ensures id in View(creds) <==> IndexOf(creds, id) < |creds|
    ensures id in View(creds) ==> View(creds)[id] == creds[IndexOf(creds, id)]
  {
    hide View;
    ViewHas(creds);
    var i := IndexOf(creds, id);
    if i < |creds| {
      assert creds[i] in creds;
    }
  }

  lemma ReplaceMembers(creds: seq<Credential>, i: nat, c: Credential)
    requires DistinctIds(creds) && i < |creds| && c.credId == creds[i].credId
    ensures DistinctIds(creds[i := c])
    ensures forall x :: x in creds[i := c] <==> x == c || (x in creds && x.credId != c.credId)
  {
    var after := creds[i := c];
    assert forall j :: 0 <= j < |creds| ==> after[j].credId == creds[j].credId;
    forall x | x == c || (x in creds && x.credId != c.credId) ensures x in after {
      if x == c {
        assert after[i] == x;
      } else {
        var j :| 0 <= j < |creds| && creds[j] == x;
        assert after[j] == x;
      }
    }
  }

  lemma ReplaceView(creds: seq<Credential>, i: nat, c: Credential)
    requires DistinctIds(creds) && i < |creds| && c.credId == creds[i].credId
    ensures DistinctIds(creds[i := c])
    ensures View(creds[i := c]) == View(creds)[c.credId := c]
  {
    hide View;
    ViewHas(creds);
    ReplaceMembers(creds, i, c);
    ViewIs(creds[i := c], View(creds)[c.credId := c]);
  }

  lemma AppendDistinct(creds: seq<Credential>, c: Credential)
    requires DistinctIds(creds) && IndexOf(creds, c.credId) == |creds|
    ensures DistinctIds(creds + [c]) && forall x <- creds :: x.credId != c.credId
  {
  }

  lemma AppendView(creds: seq<Credential>, c: Credential)
    requires DistinctIds(creds) && IndexOf(creds, c.credId) == |creds|
    ensures DistinctIds(creds + [c])
    ensures View(creds + [c]) == View(creds)[c.credId := c]
  {
    hide View, IndexOf, DistinctIds;
    ViewHas(creds);
    AppendDistinct(creds, c);
    var m := View(creds)[c.credId := c];
    forall x | x in creds + [c] ensures x.credId in m && m[x.credId] == x {
      if x != c { assert x in creds; }
    }
    forall id | id in m ensures m[id] in creds + [c] && m[id].credId == id {
      assert (creds + [c])[|creds|] == c;
      if id != c.credId { assert m[id] in creds; }
    }
    ViewIs(creds + [c], m);
  }

  lemma WithoutMembers(creds: seq<Credential>, i: nat)
    requires DistinctIds(creds) && i < |creds|
    ensures DistinctIds(Without(creds, i))
    ensures forall c :: c in Without(creds, i) <==> c in creds && c.credId != creds[i].credId
    ensures IndexOf(Without(creds, i), creds[i].credId) == |creds| - 1
  {
    var rest := Without(creds, i);
    forall c | c in creds && c.credId != creds[i].credId ensures c in rest {
      var j :| 0 <= j < |creds| && creds[j] == c;
      assert rest[if j < i then j else j - 1] == c;
    }
  }

  lemma RemoveView(creds: seq<Credential>, i: nat)
    requires DistinctIds(creds) && i < |creds|
    ensures DistinctIds(Without(creds, i)) && DistinctIds(Without(creds, i) + [creds[i]])
    ensures View(Without(creds, i)) == View(creds) - {creds[i].credId}
    ensures View(Without(creds, i) + [creds[i]]) == View(creds)
  {
    hide View, DistinctIds, IndexOf, Without;
    ViewHas(creds);
    WithoutMembers(creds, i);
    assert creds[i] in creds;
    var rest, m := Without(creds, i), View(creds) - {creds[i].credId};
    forall id | id in m ensures m[id] in rest && m[id].credId == id {
      assert View(creds)[id] in creds;
    }
    ViewIs(rest, m);
    AppendView(rest, creds[i]);
    assert m[creds[i].credId := creds[i]] == View(creds);
  }

  /** put takes effect in memory and on disk, or changes nothing at all. */
  lemma PutRefines(d: Durable, c: Credential, ok: bool)
    requires StoreInv(d)
    ensures var (d', r) := Put(d, c, ok);
            StoreInv(d')
            && (r.Failure? ==> d' == d)
            && (r.Success? ==> View(d'.mem.creds) == View(d.mem.creds)[c.credId := c]
                               && OnDisk(d') == Normal(d'.mem) && d'.mem == d.mem.(creds := d'.mem.creds))
            && (r.Success? <==> RowValid(c) && ok && (c.credId in View(d.mem.creds) || |d.mem.creds| < MAX_CREDENTIALS))
  {
    hide Load, Serialize, OnDisk, Readable, RowValid, View, Normal;
    var creds := d.mem.creds;
    var i := IndexOf(creds, c.credId);
    ViewLookup(creds, c.credId);
    if Put(d, c, ok).1.Success? {
      if i < |creds| {
        ReplaceView(creds, i, c);
        SavedOnDisk(WithCreds(d, creds[i := c]));
      } else {
        AppendView(creds, c);
        SavedOnDisk(WithCreds(d, creds + [c]));
      }
    }
  }

  lemma WithoutGood(s: State, i: nat)
    requires Good(s) && i < |s.creds|
    ensures Good(s.(creds := Without(s.creds, i))) && Good(s.(creds := Without(s.creds, i) + [s.creds[i]]))
    ensures multiset(Without(s.creds, i) + [s.creds[i]]) == multiset(s.creds)
  {
    hide RowValid, View, IndexOf;
    var creds := s.creds;
    RemoveView(creds, i);
    WithoutMembers(creds, i);
    assert creds == creds[..i] + [creds[i]] + creds[i + 1..];
    assert forall c <- Without(creds, i) + [creds[i]] :: c in creds;
  }

  /** erase removes the row in memory and on disk; when the save fails the rows are the same (the row is moved
      to the end) and the file is untouched. */
  lemma EraseRefines(d: Durable, id: Bytes32, ok: bool)
    requires StoreInv(d)
    ensures var (d', r) := Erase(d, id, ok);
            StoreInv(d')
            && (r.Failure? ==> View(d'.mem.creds) == View(d.mem.creds) && d'.disk == d.disk
                               && multiset(d'.mem.creds) == multiset(d.mem.creds))
            && (r.Success? ==> View(d'.mem.creds) == View(d.mem.creds) - {id} && OnDisk(d') == Normal(d'.mem))
            && d'.mem == d.mem.(creds := d'.mem.creds)
            && (r.Success? <==> ok && id in View(d.mem.creds))
  {
    hide Load, Serialize, OnDisk, Readable, RowValid, View, Normal, IndexOf, Without, DistinctIds;
    var creds := d.mem.creds;
    var i := IndexOf(creds, id);
    ViewLookup(creds, id);
    if i < |creds| {
      RemoveView(creds, i);
      WithoutGood(d.mem, i);
      if ok {
        SavedOnDisk(WithCreds(d, Without(creds, i)));
      } else {
        SameFile(d, WithCreds(d, Without(creds, i) + [creds[i]]));
      }
    }
  }

  lemma RestoredAt(creds: seq<Credential>, i: nat)
    requires DistinctIds(creds) && i < |creds|
    ensures Without(creds, i) + [creds[i]] == creds <==> i == |creds| - 1
  {
    var restored := Without(creds, i) + [creds[i]];
    if i == |creds| - 1 {
      assert restored == creds;
    } else {
      assert restored[i] == creds[i + 1] && creds[i + 1].credId != creds[i].credId;
    }
  }

  /** A failed erasure leaves the store as it was if and only if the row was the last one: any other moves to the
      end of the list. */
  lemma EraseRestoresExactly(d: Durable, id: Bytes32)
    requires StoreInv(d) && id in View(d.mem.creds)
    ensures Erase(d, id, false).0 == d <==> IndexOf(d.mem.creds, id) == |d.mem.creds| - 1
  {
    hide Serialize, View, Without, IndexOf, DistinctIds;
    StoreIds(d);
    ViewLookup(d.mem.creds, id);
    RestoredAt(d.mem.creds, IndexOf(d.mem.creds, id));
  }

  lemma SameFile(d: Durable, d': Durable)
    requires d.disk == d'.disk
    ensures OnDisk(d) == OnDisk(d') && Readable(d) == Readable(d')
  {
    hide Load;
  }

  /** Updating a counter changes one row in memory even when the save fails; the file has the new row, or is
      untouched. */
  lemma UpdateRefines(d: Durable, id: Bytes32, count: U32, now: U64, ok: bool)
    requires StoreInv(d)
    ensures var (d', r) := UpdateCountAndUsed(d, id, count, now, ok);
            StoreInv(d')
            && (r.Success? <==> ok && id in View(d.mem.creds))
            && (id in View(d.mem.creds) ==>
                  View(d'.mem.creds)
                  == View(d.mem.creds)[id := View(d.mem.creds)[id].(signCount := count, lastUsed := now)])
            && (id !in View(d.mem.creds) ==> d' == d)
            && (r.Success? ==> OnDisk(d') == Normal(d'.mem))
            && (r.Failure? ==> d'.disk == d.disk)
            && d'.mem == d.mem.(creds := d'.mem.creds)
  {
    hide Load, Serialize, OnDisk, Readable, View, Normal;
    var creds := d.mem.creds;
    var i := IndexOf(creds, id);
    ViewLookup(creds, id);
    if i < |creds| {
      var c := creds[i].(signCount := count, lastUsed := now);
      assert creds[i] in creds;
      ReplaceView(creds, i, c);
      var d1 := WithCreds(d, creds[i := c]);
      SavedOnDisk(d1);
      SameFile(d, d1);
    }
  }

  /** The PIN state changes in memory even when the save fails. */
  lemma SetPinRefines(d: Durable, pin: PinState, ok: bool)
    requires StoreInv(d)
    ensures var (d', r) := SetPin(d, pin, ok);
            StoreInv(d') && d'.mem == d.mem.(pin := pin)
            && (r.Success? <==> ok)
            && OnDisk(d') == (if ok then Normal(d'.mem) else OnDisk(d))
  {
    hide Load, Serialize, OnDisk, Readable;
    var d1 := d.(mem := d.mem.(pin := pin));
    SavedOnDisk(d1);
    SameFile(d, d1);
  }

  lemma SetU2fRefines(d: Durable, a: U2fAttestation, ok: bool)
    requires StoreInv(d)
    ensures var (d', r) := SetU2fAttestation(d, a, ok);
            StoreInv(d') && d'.mem == d.mem.(u2f := Some(a))
            && (r.Success? <==> ok)
            && OnDisk(d') == (if ok then Normal(d'.mem) else OnDisk(d))
  {
    hide Load, Serialize, OnDisk, Readable;
    var d1 := d.(mem := d.mem.(u2f := Some(a)));
    SavedOnDisk(d1);
    SameFile(d, d1);
  }

  /** A reset empties memory whatever the persister does; what is left on disk is the emptied store, the old
      file, or no file. */
  lemma FactoryResetRefines(d: Durable, o: ResetOutcome)
    requires StoreInv(d)
    ensures var (d', r) := FactoryReset(d, o);
            StoreInv(d') && d'.mem == Empty.(serial := d.mem.serial, installId := d.mem.installId)
            && (r.Success? <==> o.resetOk && o.saveOk)
            && OnDisk(d') == (if r.Success? then d'.mem else if o.wiped then Empty else OnDisk(d))
  {
    hide Load, Serialize;
    var mem := Empty.(serial := d.mem.serial, installId := d.mem.installId);
    var d1 := Durable(mem, if o.wiped then None else d.disk, o.resetOk, d.opens && o.readable && !o.resetOk);
    SavedOnDisk(d1);
  }

  /** From any state the store reaches, a start succeeds if and only if the keychain's key opens the file or there
      is none; memory is then exactly what the file held, and its key is in the keychain. */
  lemma RestartRefines(d: Durable, installId: Bytes16)
    requires StoreInv(d)
    ensures var r := Restart(d, installId);
            && (r.Some? <==> StartsAgain(d))
            && (r.Some? ==>
                  && StoreInv(r.value) && r.value.held && StartsAgain(r.value)
                  && r.value.mem == (if d.disk.Some? then OnDisk(d) else Empty.(installId := installId))
                  && OnDisk(r.value) == r.value.mem)
  {
    hide Load, Serialize;
    SavedOnDisk(d.(mem := Empty.(installId := installId), held := true));
  }

  /** After a reset that could not store its new key, the next start succeeds while no file has been written: any
      later save is under a key the keychain does not have. After one that could, it fails only on an old file
      neither removed nor replaced. */
  lemma ResetStartsExactly(d: Durable, o: ResetOutcome)
    requires StartsAgain(d) && d.disk.Some?
    ensures var d' := FactoryReset(d, o).0;
            && (StartsAgain(d') <==> o.wiped || if o.resetOk then o.saveOk else o.readable)
            && (StartsAgain(Saved(d')) <==> o.resetOk)
  {
    hide Serialize;
  }
}
