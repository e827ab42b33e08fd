/** What each store operation does to the rows and the PIN state, in memory and on disk, whether its save succeeds
    or not: the facts the proofs about runs are made of. */
module StoreRows {
  import opened Bytes
  import opened StoreCodec
  import opened StoreRoundTrip
  import opened Store

  /** P holds of every row, in memory and on disk. */
  ghost predicate AllRows(d: Durable, P: Credential -> bool) {
    (forall c <- d.mem.creds :: P(c)) && (forall c <- OnDisk(d).creds :: P(c))
  }

  /** Neither PIN, where one is set, has more than k retries. */
  ghost predicate RetriesUpTo(d: Durable, k: nat) {
    && (d.mem.pin.hash.Some? ==> d.mem.pin.retries <= k)
    && (OnDisk(d).pin.hash.Some? ==> OnDisk(d).pin.retries <= k)
  }

  /** File and memory have the same rows. */
  ghost predicate Synced(d: Durable) { OnDisk(d).creds == d.mem.creds }

  /** How a store operation that does not touch the PIN state can leave the file: as it was, or like memory. */
  ghost predicate DiskFollows(d: Durable, d': Durable) {
    && d'.mem.pin == d.mem.pin
    && (OnDisk(d') == OnDisk(d) || OnDisk(d') == Normal(d'.mem))
  }

  lemma FollowsRetries(d: Durable, d': Durable, k: nat)
    requires DiskFollows(d, d') && RetriesUpTo(d, k)
    ensures RetriesUpTo(d', k)
  {
    hide OnDisk;
  }

  lemma FollowsRows(d: Durable, d': Durable, P: Credential -> bool)
    requires DiskFollows(d, d') && AllRows(d, P) && forall c <- d'.mem.creds :: P(c)
    ensures AllRows(d', P)
  {
    hide OnDisk;
  }

  lemma PutRows(d: Durable, c: Credential, ok: bool)
    requires StoreInv(d)
    ensures var (d', r) := Put(d, c, ok);
            StoreInv(d') && DiskFollows(d, d')
            && (r.Failure? ==> d' == d)
            && (r.Success? ==> (c in d'.mem.creds && OnDisk(d') == Normal(d'.mem)
                                && forall x :: x in d'.mem.creds
                                    <==> x == c || (x in d.mem.creds && x.credId != c.credId)))
            && (ok && RowValid(c) && |d.mem.creds| < MAX_CREDENTIALS ==> r.Success?)
  {
    hide OnDisk, Readable, View, Put, RowValid, Normal;
    PutRefines(d, c, ok);
    ViewHas(d.mem.creds);
    ViewHas(Put(d, c, ok).0.mem.creds);
    NormalKeeps(Put(d, c, ok).0.mem);
    var (d', r) := Put(d, c, ok);
    if r.Success? {
      var v, v' := View(d.mem.creds), View(d'.mem.creds);
      assert v'[c.credId] == c;
      forall x ensures x in d'.mem.creds <==> x == c || (x in d.mem.creds && x.credId != c.credId) {
        if x in d'.mem.creds && x.credId != c.credId { assert v[x.credId] == x; }
        if x in d.mem.creds && x.credId != c.credId { assert v'[x.credId] == x; }
      }
    }
  }

  lemma NormalKeeps(s: State)
    ensures Normal(s).creds == s.creds && Normal(s).pin == s.pin && Normal(s).u2f == s.u2f
  {
  }

  lemma EraseRows(d: Durable, id: Bytes32, ok: bool)
    requires StoreInv(d)
    ensures var (d', r) := Erase(d, id, ok);
            StoreInv(d') && DiskFollows(d, d')
            && (r.Success? ==> (OnDisk(d') == Normal(d'.mem)
                                && forall x :: x in d'.mem.creds <==> x in d.mem.creds && x.credId != id))
            && (r.Failure? ==> (OnDisk(d') == OnDisk(d) && forall x :: x in d'.mem.creds <==> x in d.mem.creds))
            && (r.Success? <==> ok && exists c <- d.mem.creds :: c.credId == id)
            && |d'.mem.creds| <= |d.mem.creds|
            && ((forall c <- d.mem.creds :: c.credId != id) ==> d' == d)
  {
    hide OnDisk, Readable, View, Erase, Normal;
    EraseRefines(d, id, ok);
    ViewHas(d.mem.creds);
    var (d', r) := Erase(d, id, ok);
    ViewHas(d'.mem.creds);
    if r.Failure? { SameFile(d, d'); }
    var v, v' := View(d.mem.creds), View(d'.mem.creds);
    forall x ensures x in d'.mem.creds <==> (x in d.mem.creds && (r.Success? ==> x.credId != id)) {
      if x in d'.mem.creds { assert v'[x.credId] == x; }
      if x in d.mem.creds && (r.Success? ==> x.credId != id) { assert v[x.credId] == x; assert v'[x.credId] == x; }
    }
    EraseSize(d, id, ok);
  }

  lemma EraseSize(d: Durable, id: Bytes32, ok: bool)
    ensures |Erase(d, id, ok).0.mem.creds| <= |d.mem.creds|
    ensures (forall c <- d.mem.creds :: c.credId != id) ==> Erase(d, id, ok).0 == d
  {
    hide Serialize;
  }

  lemma UpdateRows(d: Durable, cred: Credential, count: U32, now: U64, ok: bool)
    requires StoreInv(d) && cred in d.mem.creds
    ensures var (d', r) := UpdateCountAndUsed(d, cred.credId, count, now, ok);
            StoreInv(d') && DiskFollows(d, d') && (r.Success? <==> ok)
            && (r.Success? ==> OnDisk(d') == Normal(d'.mem))
            && (r.Failure? ==> OnDisk(d') == OnDisk(d))
            && (forall x :: x in d'.mem.creds <==>
                  x == cred.(signCount := count, lastUsed := now) || (x in d.mem.creds && x.credId != cred.credId))
  {
    hide OnDisk, Readable, View, UpdateCountAndUsed, Normal;
    var id := cred.credId;
    UpdateRefines(d, id, count, now, ok);
    ViewHas(d.mem.creds);
    var (d', r) := UpdateCountAndUsed(d, id, count, now, ok);
    ViewHas(d'.mem.creds);
    if r.Failure? { SameFile(d, d'); }
    var v, v' := View(d.mem.creds), View(d'.mem.creds);
    var c' := cred.(signCount := count, lastUsed := now);
    assert v[id] == cred && v'[id] == c';
    forall x ensures x in d'.mem.creds <==> x == c' || (x in d.mem.creds && x.credId != id) {
      if x in d'.mem.creds && x.credId != id { assert v[x.credId] == x; }
      if x in d.mem.creds && x.credId != id { assert v'[x.credId] == x; }
    }
  }

  lemma UpdateFollows(d: Durable, id: Bytes32, count: U32, now: U64, ok: bool)
    requires StoreInv(d)
    ensures var d' := UpdateCountAndUsed(d, id, count, now, ok).0;
            StoreInv(d') && DiskFollows(d, d')
  {
    hide OnDisk, Readable, View, UpdateCountAndUsed, Normal;
    UpdateRefines(d, id, count, now, ok);
    var (d', r) := UpdateCountAndUsed(d, id, count, now, ok);
    if r.Failure? { SameFile(d, d'); }
  }

  lemma U2fRows(d: Durable, a: U2fAttestation, ok: bool)
    requires StoreInv(d)
    ensures var (d', r) := SetU2fAttestation(d, a, ok);
            StoreInv(d') && DiskFollows(d, d') && d'.mem.creds == d.mem.creds && (r.Success? <==> ok)
            && (r.Success? ==> OnDisk(d') == Normal(d'.mem))
  {
    hide OnDisk, Readable, SetU2fAttestation, Normal;
    SetU2fRefines(d, a, ok);
  }

  lemma PinRows(d: Durable, pin: PinState, ok: bool)
    requires StoreInv(d)
    ensures var (d', r) := SetPin(d, pin, ok);
            StoreInv(d') && d'.mem.creds == d.mem.creds && d'.mem.pin == pin && (r.Success? <==> ok)
            && OnDisk(d').pin == (if ok then pin else OnDisk(d).pin)
            && OnDisk(d').creds == (if ok then d.mem.creds else OnDisk(d).creds)
  {
    hide OnDisk, Readable, SetPin, Normal;
    SetPinRefines(d, pin, ok);
    NormalKeeps(SetPin(d, pin, ok).0.mem);
  }

  lemma ResetRows(d: Durable, o: ResetOutcome)
    requires StoreInv(d)
    ensures var (d', r) := FactoryReset(d, o);
            StoreInv(d') && d'.mem.creds == [] && d'.mem.pin.hash.None?
            && (r.Success? <==> o.resetOk && o.saveOk)
            && (OnDisk(d').creds == [] || OnDisk(d') == OnDisk(d))
            && (OnDisk(d').pin.hash.None? || OnDisk(d') == OnDisk(d))
            && (r.Success? ==> OnDisk(d').creds == [])
  {
    hide OnDisk, Readable, FactoryReset;
    FactoryResetRefines(d, o);
  }

  /** The rows and the PIN after a crash are those on disk, or there are none where the daemon could not start. */
  lemma RecoveredRows(d: Durable, installId: Bytes16)
    requires StoreInv(d)
    ensures var r := Recovered(d, installId);
            && StoreInv(r) && OnDisk(r) == r.mem
            && r.mem.creds == (if StartsAgain(d) then OnDisk(d).creds else [])
            && r.mem.pin == (if StartsAgain(d) then OnDisk(d).pin else Empty.pin)
  {
    hide Load, Serialize, Readable, Restart;
    RestartRefines(d, installId);
    SavedOnDisk(Durable(Empty.(installId := installId), None, true, true));
    NormalKeeps(Empty.(installId := installId));
  }
}
