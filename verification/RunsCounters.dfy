/** Signature counters over any run: a released count is already on disk, so the counts released for one
    credential strictly increase, across failed saves and crashes. */
module RunsCounters {
  import opened Bytes
  import opened StoreCodec
  import opened StoreRoundTrip
  import opened Store
  import opened StoreRows
  import opened World
  import opened ClientPin
  import opened Authenticator
  import opened Runs

  const MAX_COUNT := TWO32 - 1

  ghost predicate Increasing(log: seq<Event>) {
    forall i, j :: 0 <= i < j < |log| && log[i].Released? && log[j].Released? && log[i].credId == log[j].credId
      ==> log[i].count < log[j].count
  }

  /** No count above the row's own was released for it. */
  ghost predicate CountOk(log: seq<Event>, c: Credential) {
    forall e <- log :: e.Released? && e.credId == c.credId ==> e.count <= c.signCount
  }

  ghost function Counted(log: seq<Event>): Credential -> bool { c => CountOk(log, c) }

  /** Every pending assertion is for a stored row as it is now, each row once. */
  ghost predicate StashFresh(a: Auth) {
    a.stash.Some? ==>
      (forall r <- a.stash.value.remaining :: r in a.d.mem.creds) && DistinctIds(a.stash.value.remaining)
  }

  ghost predicate CountInv(a: Auth, log: seq<Event>) {
    StoreInv(a.d) && AllRows(a.d, Counted(log)) && StashFresh(a) && Increasing(log)
  }

  // ---------------------------------------------------------------- conditions on a run

  /** A new credential id is not that of a row, in memory or on disk, nor of a released counter. */
  ghost predicate NewId(a: Auth, log: seq<Event>, id: Bytes32) {
    && (forall c <- a.d.mem.creds :: c.credId != id)
    && (forall c <- OnDisk(a.d).creds :: c.credId != id)
    && (forall e <- log :: e.Released? ==> e.credId != id)
  }

  /** The operation is a U2F authentication, with user presence, by a row that is still to be asserted. */
  ghost predicate HitsPending(a: Auth, op: Op) {
    && op.U2fAuthenticateOp? && op.control == AUTH_ENFORCE && a.stash.Some?
    && var cred := Find(a.d.mem.creds, op.appl, op.keyHandle);
       cred.Some? && cred.value in a.stash.value.remaining
  }

  ghost predicate NoCounterFull(a: Auth) { forall c <- a.d.mem.creds :: c.signCount < MAX_COUNT }

  ghost predicate Orderly(h: Hist, x: Happening) {
    && (x.w.newKey.Some? ==> NewId(h.a, h.log, x.w.newKey.value.credId))
    && NoCounterFull(h.a)
    && !HitsPending(h.a, x.op)
  }

  ghost predicate OrderlyRun(c: Crypto, h: Hist, xs: seq<Happening>)
    decreases |xs|
  {
    xs == [] || (Orderly(h, xs[0]) && OrderlyRun(c, After(c, h, xs[0]), xs[1..]))
  }

  // ---------------------------------------------------------------- events

  lemma QuietEvents(a: Auth, log: seq<Event>, events: seq<Event>)
    requires CountInv(a, log) && forall e <- events :: !e.Released?
    ensures CountInv(a, log + events)
  {
    hide StoreInv, OnDisk, StashFresh;
    forall k | |log| <= k < |log + events| ensures !(log + events)[k].Released? {
      assert (log + events)[k] in events;
    }
  }

  lemma ReleaseIncreases(log: seq<Event>, id: Bytes32, count: U32)
    requires Increasing(log) && forall e <- log :: e.Released? && e.credId == id ==> e.count < count
    ensures Increasing(log + [Released(id, count)])
  {
    var log' := log + [Released(id, count)];
    forall i, j | 0 <= i < j < |log'| && log'[i].Released? && log'[j].Released? && log'[i].credId == log'[j].credId
      ensures log'[i].count < log'[j].count
    {
      assert log'[i] in log;
    }
  }

  lemma ReleaseCounted(log: seq<Event>, id: Bytes32, count: U32, c: Credential)
    requires CountOk(log, c) && (c.credId == id ==> c.signCount >= count)
    ensures CountOk(log + [Released(id, count)], c)
  {
  }

  // ---------------------------------------------------------------- bumping a counter

  /** Bumping the counter of a stored row and saving it, then releasing the new count. */
  lemma BumpKeeps(a: Auth, cred: Credential, now: U64, ok: bool, log: seq<Event>)
    requires CountInv(a, log) && cred in a.d.mem.creds && cred.signCount < MAX_COUNT
    requires a.stash.Some? ==> forall r <- a.stash.value.remaining :: r.credId != cred.credId
    ensures var d' := UpdateCountAndUsed(a.d, cred.credId, cred.signCount + 1, now, ok).0;
            CountInv(a.(d := d'), log)
            && (ok ==> CountInv(a.(d := d'), log + [Released(cred.credId, cred.signCount + 1)]))
  {
    hide StoreInv, OnDisk, UpdateCountAndUsed, Normal, CountOk;
    var d' := UpdateCountAndUsed(a.d, cred.credId, cred.signCount + 1, now, ok).0;
    var cred' := cred.(signCount := cred.signCount + 1, lastUsed := now);
    UpdateRows(a.d, cred, cred.signCount + 1, now, ok);
    assert Counted(log)(cred);
    CountUp(log, cred, cred');
    FollowsRows(a.d, d', Counted(log));
    if ok {
      NormalKeeps(d'.mem);
      CountOkIs(log, cred);
      ReleaseIncreases(log, cred.credId, cred'.signCount);
      forall x | x in d'.mem.creds ensures CountOk(log + [Released(cred.credId, cred'.signCount)], x) {
        assert Counted(log)(x);
        ReleaseCounted(log, cred.credId, cred'.signCount, x);
      }
    }
  }

  lemma CountUp(log: seq<Event>, c: Credential, c': Credential)
    requires CountOk(log, c) && c'.credId == c.credId && c'.signCount >= c.signCount
    ensures CountOk(log, c')
  {
  }

  lemma CountOkIs(log: seq<Event>, c: Credential)
    requires CountOk(log, c)
    ensures forall e <- log :: e.Released? && e.credId == c.credId ==> e.count <= c.signCount
  {
  }

  lemma BuildKeeps(a: Auth, cred: Credential, flags: Byte, bump: bool, withSecret: bool, total: Option<nat>, w: World,
                   log: seq<Event>)
    requires CountInv(a, log) && cred in a.d.mem.creds && cred.signCount < MAX_COUNT
    requires a.stash.Some? ==> forall r <- a.stash.value.remaining :: r.credId != cred.credId
    ensures var o := BuildAssertion(a, cred, flags, bump, withSecret, total, w);
            CountInv(o.a, log + o.events) && o.a.stash == a.stash
  {
    hide CountInv, UpdateCountAndUsed;
    assert (cred.signCount + 1) % TWO32 == cred.signCount + 1;
    BumpKeeps(a, cred, w.unix, w.saves(0), log);
    BumpSucceeds(a, cred, w.unix, w.saves(0), log);
    assert log + [] == log;
  }

  lemma BumpSucceeds(a: Auth, cred: Credential, now: U64, ok: bool, log: seq<Event>)
    requires CountInv(a, log) && cred in a.d.mem.creds && cred.signCount < MAX_COUNT
    ensures UpdateCountAndUsed(a.d, cred.credId, cred.signCount + 1, now, ok).1.Success? <==> ok
  {
    hide StoreInv, OnDisk, UpdateCountAndUsed;
    UpdateRows(a.d, cred, cred.signCount + 1, now, ok);
  }

  lemma NoStash(a: Auth, log: seq<Event>)
    requires CountInv(a, log)
    ensures CountInv(a.(stash := None), log)
  {
  }

  // ---------------------------------------------------------------- candidates are stored rows

  lemma {:induction false} FindIsRow(rows: seq<Credential>, rpIdHash: seq<Byte>, id: seq<Byte>)
    ensures var c := Find(rows, rpIdHash, id);
            c.Some? ==> c.value in rows && c.value.rpIdHash == rpIdHash && c.value.credId == id
  {
    if rows != [] { FindIsRow(rows[1..], rpIdHash, id); }
  }

  lemma {:induction false} FindByRpRows(rows: seq<Credential>, rpIdHash: seq<Byte>)
    ensures forall c :: c in FindByRp(rows, rpIdHash) <==> c in rows && c.rk && c.rpIdHash == rpIdHash
    ensures DistinctIds(rows) ==> DistinctIds(FindByRp(rows, rpIdHash))
  {
    if rows != [] {
      FindByRpRows(rows[1..], rpIdHash);
      assert rows == [rows[0]] + rows[1..];
      if DistinctIds(rows) {
        var rest := FindByRp(rows[1..], rpIdHash);
        forall c | c in rest ensures c.credId != rows[0].credId {
          var i :| 0 <= i < |rows| - 1 && rows[1..][i] == c;
        }
      }
    }
  }

  lemma {:induction false} ListedRows(rows: seq<Credential>, rpIdHash: seq<Byte>, list: seq<Descriptor>,
                                      found: seq<Credential>)
    requires DistinctIds(found) && forall c <- found :: c in rows
    ensures var r := Listed(rows, rpIdHash, list, found); DistinctIds(r) && forall c <- r :: c in rows
    decreases |list|
  {
    hide Find;
    if list != [] {
      FindIsRow(rows, rpIdHash, list[0].id);
      var c := if list[0].isPublicKey then Find(rows, rpIdHash, list[0].id) else None;
      var found' := if c.None? || (exists e <- found :: e.credId == c.value.credId) then found else found + [c.value];
      ListedRows(rows, rpIdHash, list[1..], found');
    }
  }

  lemma CandidatesRows(rows: seq<Credential>, rpIdHash: seq<Byte>, list: seq<Descriptor>)
    requires DistinctIds(rows)
    ensures var r := Candidates(rows, rpIdHash, list); DistinctIds(r) && forall c <- r :: c in rows
  {
    hide FindByRp, Listed;
    FindByRpRows(rows, rpIdHash);
    ListedRows(rows, rpIdHash, list, []);
  }

  lemma SortedRows(cs: seq<Credential>)
    requires DistinctIds(cs)
    ensures DistinctIds(SortByUse(cs)) && forall c :: c in SortByUse(cs) <==> c in cs
  {
    hide SortByUse;
    var s := SortByUse(cs);
    forall c ensures c in s <==> c in cs {
      assert c in s <==> c in multiset(s);
      assert c in cs <==> c in multiset(cs);
    }
    forall i, j | 0 <= i < j < |s| ensures s[i].credId != s[j].credId {
      if s[i].credId == s[j].credId {
        assert s[i] in cs && s[j] in cs;
        SameIdSameRow(cs, s[i], s[j]);
        Twice(s, i, j);
        Once(cs, s[i]);
      }
    }
  }

  lemma SameIdSameRow(cs: seq<Credential>, a: Credential, b: Credential)
    requires DistinctIds(cs) && a in cs && b in cs && a.credId == b.credId
    ensures a == b
  {
  }

  lemma Twice<T>(s: seq<T>, i: nat, j: nat)
    requires i < j < |s| && s[i] == s[j]
    ensures multiset(s)[s[i]] >= 2
  {
    assert s == s[..j] + [s[j]] + s[j + 1..];
    assert s[..j][i] == s[i];
    assert s[i] in s[..j];
  }

  lemma {:induction false} Once(cs: seq<Credential>, c: Credential)
    requires DistinctIds(cs)
    ensures multiset(cs)[c] <= 1
  {
    if cs != [] {
      assert cs == [cs[0]] + cs[1..];
      assert forall i :: 0 <= i < |cs| - 1 ==> cs[1..][i].credId != cs[0].credId;
      Once(cs[1..], c);
    }
  }

  // ---------------------------------------------------------------- commands

  /** The pending list a getAssertion leaves and the row it asserts first. */
  lemma SplitSorted(a: Auth, rows: seq<Credential>)
    requires StoreInv(a.d) && rows != [] && DistinctIds(rows) && forall c <- rows :: c in a.d.mem.creds
    ensures var s := SortByUse(rows);
            |s| == |rows| && s[0] in a.d.mem.creds && DistinctIds(s[1..])
                && (forall r <- s[1..] :: r in a.d.mem.creds && r.credId != s[0].credId)
  {
    hide StoreInv, SortByUse;
    SortedRows(rows);
    var s := SortByUse(rows);
    assert s[0] in s;
    forall r | r in s[1..] ensures r in s && r.credId != s[0].credId {
      var i :| 0 <= i < |s| - 1 && s[1..][i] == r;
      assert s[i + 1] == r;
    }
  }

  lemma WithStash(a: Auth, log: seq<Event>, s: Stash)
    requires CountInv(a, log) && DistinctIds(s.remaining) && forall r <- s.remaining :: r in a.d.mem.creds
    ensures CountInv(a.(stash := Some(s)), log)
  {
  }

  lemma WithPins(a: Auth, log: seq<Event>, m: Pins)
    requires CountInv(a, log)
    ensures CountInv(a.(m := m), log)
  {
  }

  lemma AssertFirstKeeps(a: Auth, rows: seq<Credential>, up: bool, uv: bool, withSecret: bool, w: World,
                         log: seq<Event>)
    requires CountInv(a, log) && NoCounterFull(a) && rows != [] && DistinctIds(rows)
             && forall c <- rows :: c in a.d.mem.creds
    ensures var o := AssertFirst(a.(stash := None), rows, up, uv, withSecret, w); CountInv(o.a, log + o.events)
  {
    hide CountInv, BuildAssertion, SortByUse, DistinctIds;
    assert StoreInv(a.d) by { CountInvStore(a, log); }
    SplitSorted(a, rows);
    var sorted := SortByUse(rows);
    var flags := (if uv then FLAG_UV else 0) + (if up then FLAG_UP else 0);
    var stash := Stash(sorted[1..], flags, up, withSecret, w.now + USER_ACTION_TIMEOUT);
    NoStash(a, log);
    WithStash(a, log, stash);
    var total := if |sorted| > 1 then Some(|sorted|) else None;
    var a1 := a.(stash := if |sorted| > 1 then Some(stash) else None);
    BuildKeeps(a1, sorted[0], flags, up, withSecret, total, w, log);
    var o := BuildAssertion(a1, sorted[0], flags, up, withSecret, total, w);
    NoStash(o.a, log + o.events);
    assert a.(stash := None).(stash := a1.stash) == a1;
  }

  lemma CountInvStore(a: Auth, log: seq<Event>)
    requires CountInv(a, log)
    ensures StoreInv(a.d) && DistinctIds(a.d.mem.creds)
  {
  }

  lemma GetAssertionKeeps(c: Crypto, a: Auth, q: AssertionRequest, w: World, log: seq<Event>)
    requires CountInv(a, log) && NoCounterFull(a)
    ensures var o := GetAssertion(c, a, q, w); CountInv(o.a, log + o.events)
  {
    hide CountInv, AssertFirst, CheckPinAuth, Candidates, DistinctIds;
    var rows := Candidates(a.d.mem.creds, c.sha256(q.rpId), q.allowList);
    var a0 := a.(stash := None);
    NoStash(a, log);
    assert log + [] == log;
    CheckPinAuthQuiet(c, a0, q.pinAuth, q.clientDataHash, PERM_GA, q.rpId, w);
    var (m, uv, used) := CheckPinAuth(c, a0, q.pinAuth, q.clientDataHash, PERM_GA, q.rpId, w);
    var a1 := a0.(m := m);
    QuietEvents(a0, log, used);
    WithPins(a0, log + used, m);
    if rows != [] && uv.Success? {
      CountInvStore(a, log);
      CandidatesRows(a.d.mem.creds, c.sha256(q.rpId), q.allowList);
      AssertFirstKeeps(a1, rows, q.up.GetOr(true), uv.value, q.hmacSecret, w, log + used);
      var o := AssertFirst(a1, rows, q.up.GetOr(true), uv.value, q.hmacSecret, w);
      assert a1.(stash := None) == a1;
      assert log + used + o.events == log + (used + o.events);
    }
  }

  lemma GetNextKeeps(a: Auth, w: World, log: seq<Event>)
    requires CountInv(a, log) && NoCounterFull(a)
    ensures var o := GetNextAssertion(a, w); CountInv(o.a, log + o.events)
  {
    hide StoreInv, AllRows, Increasing, BuildAssertion;
    NoStash(a, log);
    assert log + [] == log;
    if a.stash.Some? && a.stash.value.remaining != [] {
      var s := a.stash.value;
      var rest := s.remaining[1..];
      forall r | r in rest ensures r in s.remaining && r.credId != s.remaining[0].credId {
        var i :| 0 <= i < |rest| && rest[i] == r;
        assert s.remaining[i + 1] == r;
      }
      WithStash(a, log, s.(remaining := rest));
      var a1 := a.(stash := Some(s.(remaining := rest)));
      BuildKeeps(a1, s.remaining[0], s.flags, s.bump, s.withSecret, None, w, log);
      BuildIgnoresStash(a, a1, s.remaining[0], s.flags, s.bump, s.withSecret, None, w);
      var o := BuildAssertion(a1, s.remaining[0], s.flags, s.bump, s.withSecret, None, w);
      NoStash(o.a, log + o.events);
    }
  }

  lemma BuildIgnoresStash(a: Auth, b: Auth, cred: Credential, flags: Byte, bump: bool, withSecret: bool,
                          total: Option<nat>, w: World)
    requires b == a.(stash := b.stash)
    ensures var (o, p) := (BuildAssertion(a, cred, flags, bump, withSecret, total, w),
                           BuildAssertion(b, cred, flags, bump, withSecret, total, w));
            p.a == o.a.(stash := b.stash) && p.r == o.r && p.events == o.events && o.a.stash == a.stash
  {
    hide UpdateCountAndUsed;
  }

  // ---------------------------------------------------------------- registrations

  lemma {:induction false} EraseSameUserKeeps(d: Durable, olds: seq<Credential>, userId: seq<Byte>, w: World, i: nat,
                                              log: seq<Event>)
    requires StoreInv(d) && AllRows(d, Counted(log))
    ensures var d' := EraseSameUser(d, olds, userId, w, i).0;
            StoreInv(d') && AllRows(d', Counted(log)) && (forall c <- d'.mem.creds :: c in d.mem.creds)
            && (forall c <- OnDisk(d').creds :: c in OnDisk(d).creds || c in d.mem.creds)
    decreases |olds|
  {
    hide StoreInv, OnDisk, Erase, Counted, Normal;
    if olds != [] {
      var d1 := Erase(d, olds[0].credId, w.saves(i)).0;
      EraseRows(d, olds[0].credId, w.saves(i));
      NormalKeeps(d1.mem);
      FollowsRows(d, d1, Counted(log));
      EraseSameUserKeeps(d1, olds[1..], userId, w, i + 1, log);
      EraseSameUserKeeps(d, olds[1..], userId, w, i, log);
    }
  }

  /** Storing a row with a new id, and then releasing its first count. */
  lemma PutNewKeeps(d: Durable, row: Credential, ok: bool, log: seq<Event>)
    requires StoreInv(d) && AllRows(d, Counted(log)) && Increasing(log)
    requires forall e <- log :: e.Released? ==> e.credId != row.credId
    ensures var (d', r) := Put(d, row, ok);
            StoreInv(d') && AllRows(d', Counted(log))
            && (r.Success? ==> AllRows(d', Counted(log + [Released(row.credId, row.signCount)]))
                               && Increasing(log + [Released(row.credId, row.signCount)]))
  {
    hide StoreInv, OnDisk, Put, Normal, Increasing;
    var (d', r) := Put(d, row, ok);
    PutRows(d, row, ok);
    assert Counted(log)(row);
    FollowsRows(d, d', Counted(log));
    if r.Success? {
      NormalKeeps(d'.mem);
      ReleaseIncreases(log, row.credId, row.signCount);
      forall x | x in d'.mem.creds ensures Counted(log + [Released(row.credId, row.signCount)])(x) {
        assert Counted(log)(x);
        ReleaseCounted(log, row.credId, row.signCount, x);
      }
    }
  }

  lemma AddCredentialKeeps(c: Crypto, a: Auth, q: CredentialRequest, k: Fresh, uv: bool, w: World, log: seq<Event>)
    requires CountInv(a, log) && a.stash.None? && NewId(a, log, k.credId)
    ensures var o := AddCredential(c, a, q, k, uv, w); CountInv(o.a, log + o.events)
  {
    hide StoreInv, OnDisk, AllRows, Increasing, EraseSameUser, Put, FindByRp;
    var row := NewRow(q, c.sha256(q.rpId), k, w.unix);
    var olds := FindByRp(a.d.mem.creds, c.sha256(q.rpId));
    EraseSameUserKeeps(a.d, olds, q.userId, w, 0, log);
    var (d1, i) := EraseSameUser(a.d, olds, q.userId, w, 0);
    PutNewKeeps(d1, row, w.saves(i), log);
    assert log + [] == log;
    var o := AddCredential(c, a, q, k, uv, w);
    var (d2, put) := Put(d1, row, w.saves(i));
    assert o.events == [] || (put.Success? && o.events == [Released(row.credId, row.signCount)]);
    assert AllRows(d2, Counted(log + o.events));
  }

  lemma MakeCredentialKeeps(c: Crypto, a: Auth, q: CredentialRequest, w: World, log: seq<Event>)
    requires CountInv(a, log) && a.stash.None?
    requires w.newKey.Some? ==> NewId(a, log, w.newKey.value.credId)
    ensures var o := MakeCredential(c, a, q, w); CountInv(o.a, log + o.events)
  {
    hide CountInv, OnDisk, CheckPinAuth, AddCredential, Excluded, CheckRequest;
    CheckPinAuthQuiet(c, a, q.pinAuth, q.clientDataHash, PERM_MC, q.rpId, w);
    var (m, gate, used) := RegistrationGates(c, a, q, w);
    QuietEvents(a, log, used);
    WithPins(a, log + used, m);
    if w.newKey.Some? && gate.Success? {
      AddCredentialKeeps(c, a.(m := m), q, w.newKey.value, gate.value, w, log + used);
      var o := AddCredential(c, a.(m := m), q, w.newKey.value, gate.value, w);
      assert log + used + o.events == log + (used + o.events);
    }
  }

  /** Replacing the store's other parts or adding rows leaves the pending rows stored. */
  lemma GrowStore(a: Auth, d': Durable, log: seq<Event>)
    requires CountInv(a, log) && StoreInv(d') && AllRows(d', Counted(log))
             && forall c <- a.d.mem.creds :: c in d'.mem.creds
    ensures CountInv(a.(d := d'), log)
  {
  }

  lemma U2fRegisterKeeps(a: Auth, application: Bytes32, w: World, log: seq<Event>)
    requires CountInv(a, log) && (w.newKey.Some? ==> NewId(a, log, w.newKey.value.credId))
    ensures var o := U2fRegister(a, application, w); CountInv(o.0, log + o.2)
  {
    hide StoreInv, OnDisk, AllRows, Increasing, Put, SetU2fAttestation, StashFresh;
    assert log + [] == log;
    if w.attestation.Some? {
      U2fStoreKeeps(a.d, w.attestation.value, w.saves(1), log);
      var dA := SetU2fAttestation(a.d, w.attestation.value, w.saves(1)).0;
      GrowStore(a, dA, log);
      if w.newKey.Some? {
        var row := U2fCredential(application, w.newKey.value, w.unix);
        PutNewKeeps(a.d, row, w.saves(0), log);
        PutNewKeeps(dA, row, w.saves(0), log);
        PutGrows(a.d, row, w.saves(0));
        PutGrows(dA, row, w.saves(0));
        GrowStore(a, Put(a.d, row, w.saves(0)).0, log);
        GrowStore(a, Put(dA, row, w.saves(0)).0, log);
      }
    }
  }

  lemma U2fStoreKeeps(d: Durable, u: U2fAttestation, ok: bool, log: seq<Event>)
    requires StoreInv(d) && AllRows(d, Counted(log))
    ensures var d' := SetU2fAttestation(d, u, ok).0;
            StoreInv(d') && AllRows(d', Counted(log)) && d'.mem.creds == d.mem.creds
  {
    hide StoreInv, OnDisk, SetU2fAttestation;
    U2fRows(d, u, ok);
    FollowsRows(d, SetU2fAttestation(d, u, ok).0, Counted(log));
  }

  lemma PutGrows(d: Durable, row: Credential, ok: bool)
    requires StoreInv(d) && forall c <- d.mem.creds :: c.credId != row.credId
    ensures forall c <- d.mem.creds :: c in Put(d, row, ok).0.mem.creds
  {
    hide StoreInv, OnDisk, Put;
    PutRows(d, row, ok);
  }

  lemma U2fAuthenticateKeeps(a: Auth, control: Byte, application: Bytes32, keyHandle: seq<Byte>, w: World,
                             log: seq<Event>)
    requires CountInv(a, log) && NoCounterFull(a)
    requires !HitsPending(a, U2fAuthenticateOp(control, application, keyHandle))
    ensures var o := U2fAuthenticate(a, control, application, keyHandle, w); CountInv(o.0, log + o.2)
  {
    hide CountInv, UpdateCountAndUsed, Find;
    assert log + [] == log;
    FindIsRow(a.d.mem.creds, application, keyHandle);
    var cred := Find(a.d.mem.creds, application, keyHandle);
    if cred.Some? && control == AUTH_ENFORCE {
      assert (cred.value.signCount + 1) % TWO32 == cred.value.signCount + 1;
      if a.stash.Some? {
        NotPendingById(a, log, cred.value);
      }
      BumpKeeps(a, cred.value, w.unix, w.saves(0), log);
      BumpSucceeds(a, cred.value, w.unix, w.saves(0), log);
    }
  }

  lemma NotPendingById(a: Auth, log: seq<Event>, cred: Credential)
    requires CountInv(a, log) && a.stash.Some? && cred in a.d.mem.creds && cred !in a.stash.value.remaining
    ensures forall r <- a.stash.value.remaining :: r.credId != cred.credId
  {
    forall r | r in a.stash.value.remaining && r.credId == cred.credId ensures false {
      SameIdSameRow(a.d.mem.creds, r, cred);
    }
  }

  // ---------------------------------------------------------------- everything else

  /** The rows are the same in memory, and the file's are as before or like memory. */
  ghost predicate RowsSame(d: Durable, d': Durable) {
    StoreInv(d') && d'.mem.creds == d.mem.creds
        && (OnDisk(d').creds == OnDisk(d).creds || OnDisk(d').creds == d.mem.creds)
  }

  lemma RowsSameKeeps(a: Auth, a': Auth, log: seq<Event>, events: seq<Event>)
    requires CountInv(a, log) && RowsSame(a.d, a'.d) && (a'.stash == a.stash || a'.stash.None?)
             && forall e <- events :: !e.Released?
    ensures CountInv(a', log + events)
  {
    hide OnDisk, CountOk, Increasing;
    var a1 := a.(d := a'.d);
    assert CountInv(a1, log) by { hide StoreInv; }
    QuietEvents(a1, log, events);
    NoStash(a1, log + events);
    WithPins(a1, log + events, a'.m);
    WithPins(a1.(stash := None), log + events, a'.m);
    assert a' == a1.(m := a'.m) || a' == a1.(stash := None).(m := a'.m);
  }

  lemma SetPinSame(d: Durable, pin: PinState, ok: bool)
    requires StoreInv(d)
    ensures RowsSame(d, SetPin(d, pin, ok).0)
  {
    hide StoreInv, OnDisk, SetPin;
    PinRows(d, pin, ok);
  }

  lemma SameTwice(d: Durable, d1: Durable, d2: Durable)
    requires RowsSame(d, d1) && RowsSame(d1, d2)
    ensures RowsSame(d, d2)
  {
    hide StoreInv, OnDisk;
  }

  lemma CheckPinHashSame(c: Crypto, d: Durable, m: Pins, s: Secret, enc: seq<Byte>, w: World)
    requires StoreInv(d)
    ensures var o := CheckPinHash(c, d, m, s, enc, w); RowsSame(d, o.d) && forall e <- o.events :: !e.Released?
  {
    hide StoreInv, OnDisk, SetPin, Decrypt, FailureDelay;
    var pin := d.mem.pin;
    if pin.retries > 0 {
      var spent := pin.(retries := pin.retries - 1);
      SetPinSame(d, spent, w.saves(0));
      var d1 := SetPin(d, spent, w.saves(0)).0;
      SetPinSame(d1, spent.(retries := MAX_RETRIES), w.saves(1));
      SameTwice(d, d1, SetPin(d1, spent.(retries := MAX_RETRIES), w.saves(1)).0);
    }
  }

  lemma HandlePinSame(c: Crypto, a: Auth, p: PinCommand, w: World)
    requires StoreInv(a.d)
    ensures var o := HandlePin(c, a, p, w);
            RowsSame(a.d, o.a.d) && o.a.stash == a.stash && forall e <- o.events :: !e.Released?
  {
    hide StoreInv, OnDisk, SetPin, CheckPinHash, MacOk, PinFromPadded, SharedSecret, RowsSame;
    SameItself(a.d);
    forall s: Secret, enc
      ensures var o := CheckPinHash(c, a.d, a.m, s, enc, w);
              RowsSame(a.d, o.d) && StoreInv(o.d) && forall e <- o.events :: !e.Released?
    {
      CheckPinHashSame(c, a.d, a.m, s, enc, w);
      SameStore(a.d, CheckPinHash(c, a.d, a.m, s, enc, w).d);
    }
    forall d: Durable, pin: PinState, ok | StoreInv(d) && RowsSame(a.d, d) ensures RowsSame(a.d, SetPin(d, pin, ok).0) {
      SetPinSame(d, pin, ok);
      SameTwice(a.d, d, SetPin(d, pin, ok).0);
    }
  }

  lemma SameItself(d: Durable)
    requires StoreInv(d)
    ensures RowsSame(d, d)
  {
  }

  lemma SameStore(d: Durable, d': Durable)
    requires RowsSame(d, d')
    ensures StoreInv(d')
  {
  }

  lemma ResetKeeps(a: Auth, w: World, log: seq<Event>)
    requires CountInv(a, log)
    ensures var o := Reset(a, w); CountInv(o.a, log + o.events)
  {
    hide StoreInv, OnDisk, FactoryReset, Increasing, CountOk;
    assert log + [] == log;
    ResetRows(a.d, w.reset);
    var a1 := a.(d := FactoryReset(a.d, w.reset).0, stash := None);
    assert CountInv(a1, log);
    QuietEvents(a1, log, [WasReset(false)]);
    QuietEvents(a1, log, [WasReset(true)] + Gone(a.m));
    WithPins(a1, log + ([WasReset(true)] + Gone(a.m)), Regenerate(a.m, w.newKeyAgreement));
  }

  lemma CtlSetPinKeeps(c: Crypto, a: Auth, pin: seq<Byte>, w: World, log: seq<Event>)
    requires CountInv(a, log)
    ensures var o := CtlSetPin(c, a, pin, w); CountInv(o.a, log + o.events)
  {
    hide CountInv, OnDisk, SetPin, PolicyOk, RowsSame;
    assert log + [] == log;
    CountInvStore(a, log);
    SameItself(a.d);
    SetPinSame(a.d, PinState(Some(PinHash(c, pin)), MAX_RETRIES), w.saves(0));
    var o := CtlSetPin(c, a, pin, w);
    RowsSameKeeps(a, o.a, log, o.events);
  }

  lemma CtlDeleteKeeps(a: Auth, id: seq<Byte>, w: World, log: seq<Event>)
    requires CountInv(a, log)
    ensures CountInv(CtlDelete(a, id, w).a, log)
  {
    hide StoreInv, OnDisk, Erase, IndexOf, Increasing, CountOk;
    if IndexOf(a.d.mem.creds, id) < |a.d.mem.creds| {
      EraseRows(a.d, a.d.mem.creds[IndexOf(a.d.mem.creds, id)].credId, w.saves(0));
      FollowsRows(a.d, Erase(a.d, id, w.saves(0)).0, Counted(log));
    }
  }

  lemma ShorterKeeps(a: Auth, log: seq<Event>, longer: seq<Event>)
    requires CountInv(a, longer) && log <= longer
    ensures CountInv(a, log)
  {
    hide StoreInv, OnDisk;
    assert forall e <- log :: e in longer;
    forall r: Credential | Counted(longer)(r) ensures Counted(log)(r) {
    }
  }

  lemma RecoverKeeps(a: Auth, installId: Bytes16, w: World, log: seq<Event>)
    requires CountInv(a, log)
    ensures var o := Recover(a, installId, w); CountInv(o.0, log + o.1)
  {
    hide StoreInv, OnDisk, Recovered, Increasing, CountOk;
    RecoveredRows(a.d, installId);
    var o := Recover(a, installId, w);
    assert CountInv(o.0, log);
    QuietEvents(o.0, log, o.1);
  }

  lemma ApplyKeeps(c: Crypto, h: Hist, x: Happening)
    requires CountInv(h.a, h.log) && Orderly(h, x)
    ensures var (a, events) := Apply(c, h.a, x.op, x.w); CountInv(a, h.log + events)
  {
    hide CountInv, OnDisk, HandlePin, MakeCredential, GetAssertion, GetNextAssertion, Reset, CtlSetPin, CtlDelete,
         U2fRegister, U2fAuthenticate, RowsSame, HitsPending;
    var a, log, w := h.a, h.log, x.w;
    assert log + [] == log;
    NoStash(a, log);
    CountInvStore(a, log);
    match x.op
    case EmptyRequest =>
    case Cbor(cmd) =>
      var a0 := a.(stash := None);
      match cmd {
        case MakeCredentialCmd(q) => MakeCredentialKeeps(c, a0, q, w, log);
        case GetAssertionCmd(q) => GetAssertionKeeps(c, a0, q, w, log);
        case GetNextAssertionCmd => GetNextKeeps(a, w, log);
        case PinCmd(p) =>
          HandlePinSame(c, a0, p, w);
          RowsSameKeeps(a0, HandlePin(c, a0, p, w).a, log, HandlePin(c, a0, p, w).events);
        case ResetCmd => ResetKeeps(a0, w, log);
        case Harmless(_) =>
      }
    case U2fRegisterOp(application) => U2fRegisterKeeps(a, application, w, log);
    case U2fAuthenticateOp(control, application, keyHandle) =>
      U2fAuthenticateKeeps(a, control, application, keyHandle, w, log);
    case CtlResetOp => ResetKeeps(a, w, log);
    case CtlSetPinOp(pin) => CtlSetPinKeeps(c, a, pin, w, log);
    case CtlDeleteOp(id) => CtlDeleteKeeps(a, id, w, log);
  }

  /** A crash after any part of an operation keeps what the operation keeps. */
  lemma CrashKeeps(c: Crypto, h: Hist, x: Happening)
    requires var (a, events) := Apply(c, h.a, x.op, x.w); CountInv(a, h.log + events)
    ensures CountInv(After(c, h, x).a, After(c, h, x).log)
  {
    hide CountInv, Apply, Happened, Recover;
    if x.crash.Some? {
      var (a, events) := Apply(c, h.a, x.op, x.w);
      var n := x.crash.value.happened;
      HappenedFirst(h.log, events, n, x.w);
      ShorterKeeps(a, h.log + Happened(events, n, x.w), h.log + events);
      RecoverKeeps(a, x.crash.value.installId, x.w, h.log + Happened(events, n, x.w));
    }
  }

  lemma {:induction false} RunKeepsCounters(c: Crypto, h: Hist, xs: seq<Happening>)
    requires CountInv(h.a, h.log) && OrderlyRun(c, h, xs)
    ensures CountInv(Run(c, h, xs).a, Run(c, h, xs).log)
    decreases |xs|
  {
    hide CountInv, Orderly, After;
    if xs != [] {
      ApplyKeeps(c, h, xs[0]);
      CrashKeeps(c, h, xs[0]);
      RunKeepsCounters(c, After(c, h, xs[0]), xs[1..]);
    }
  }

  /** In any orderly run, with any failed saves and crashes, the counts released for one credential strictly
      increase, no released count is above the row's count on disk, and every pending row is as stored. */
  lemma CountersIncrease(c: Crypto, h: Hist, xs: seq<Happening>)
    requires Starts(h) && OrderlyRun(c, h, xs)
    ensures var h' := Run(c, h, xs);
            && Increasing(h'.log)
            && (forall r <- OnDisk(h'.a.d).creds, e <- h'.log ::
                                    e.Released? && e.credId == r.credId ==> e.count <= r.signCount)
            && StashFresh(h'.a)
  {
    hide StoreInv, OnDisk, Run, OrderlyRun;
    assert CountInv(h.a, h.log);
    RunKeepsCounters(c, h, xs);
    var h' := Run(c, h, xs);
    forall r <- OnDisk(h'.a.d).creds ensures CountOk(h'.log, r) { assert Counted(h'.log)(r); }
  }

  // ---------------------------------------------------------------- why the conditions are needed

  /** A bumping U2F authentication keeps the pending rows as stored if and only if its row is not one of them. */
  lemma StashFreshExactly(a: Auth, control: Byte, application: Bytes32, keyHandle: seq<Byte>, w: World)
    requires StashFresh(a) && StoreInv(a.d) && NoCounterFull(a)
    requires U2fAuthenticate(a, control, application, keyHandle, w).1.Authenticated?
    ensures StashFresh(U2fAuthenticate(a, control, application, keyHandle, w).0)
       <==> !HitsPending(a, U2fAuthenticateOp(control, application, keyHandle))
  {
    hide StoreInv, OnDisk, UpdateCountAndUsed, Find;
    FindIsRow(a.d.mem.creds, application, keyHandle);
    var cred := Find(a.d.mem.creds, application, keyHandle).value;
    if control == AUTH_ENFORCE && a.stash.Some? {
      UpdateRows(a.d, cred, cred.signCount + 1, w.unix, w.saves(0));
      assert StoreInv(a.d) && DistinctIds(a.d.mem.creds) by { StoreIds(a.d); }
      forall r | r in a.stash.value.remaining && r.credId == cred.credId ensures r == cred {
        SameIdSameRow(a.d.mem.creds, r, cred);
      }
    }
  }

  /** A released count exceeds the row's previous one if and only if the counter was not at its maximum. */
  lemma CountWraps(a: Auth, cred: Credential, flags: Byte, withSecret: bool, total: Option<nat>, w: World)
    requires BuildAssertion(a, cred, flags, true, withSecret, total, w).r.Success?
    ensures var count := BuildAssertion(a, cred, flags, true, withSecret, total, w).r.value.count;
            (count > cred.signCount <==> cred.signCount != MAX_COUNT) && (cred.signCount == MAX_COUNT ==> count == 0)
  {
    hide UpdateCountAndUsed;
  }
}
