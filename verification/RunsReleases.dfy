/** Exactly when released counters stop increasing, over all runs; and where in a run that has no full counters and no
    reused ids such a release comes from: the assertions getNextAssertion still owes. */
module RunsReleases {
  import opened Bytes
  import opened Statuses
  import opened StoreCodec
  import opened StoreRoundTrip
  import opened Store
  import opened StoreRows
  import opened World
  import opened ClientPin
  import opened Authenticator
  import opened Runs
  import opened RunsCounters

  // ---------------------------------------------------------------- what an operation can release

  /** The row the next getNextAssertion is about. */
  function Due(a: Auth, w: World): Option<Credential> {
    if a.stash.Some? && a.stash.value.remaining != [] && w.now <= a.stash.value.expiry
    then Some(a.stash.value.remaining[0])
    else None
  }

  function Bump(row: Credential): Event { Released(row.credId, (row.signCount + 1) % TWO32) }

  /** The count an operation hands out if it succeeds: the next one of the row it is about. */
  function Offer(c: Crypto, a: Auth, op: Op, w: World): Option<Event> {
    match op
    case Cbor(GetAssertionCmd(q)) =>
      var rows := Candidates(a.d.mem.creds, c.sha256(q.rpId), q.allowList);
      if rows != [] && q.up.GetOr(true) then Some(Bump(SortByUse(rows)[0])) else None
    case Cbor(GetNextAssertionCmd) =>
      if Due(a, w).Some? && a.stash.value.bump then Some(Bump(Due(a, w).value)) else None
    case Cbor(MakeCredentialCmd(_)) => if w.newKey.Some? then Some(Released(w.newKey.value.credId, 1)) else None
    case U2fAuthenticateOp(control, application, keyHandle) =>
      var row := Find(a.d.mem.creds, application, keyHandle);
      if control == AUTH_ENFORCE && row.Some? then Some(Bump(row.value)) else None
    case _ => None
  }

  /** Nothing but the offer is released, once and last. */
  ghost predicate OnlyReleases(events: seq<Event>, offer: Option<Event>) {
    || (forall e <- events :: !e.Released?)
    || (offer.Some? && events != [] && events[|events| - 1] == offer.value
        && forall e <- events[..|events| - 1] :: !e.Released?)
  }

  lemma BuildOffers(a: Auth, cred: Credential, flags: Byte, bump: bool, withSecret: bool, total: Option<nat>, w: World)
    ensures var events := BuildAssertion(a, cred, flags, bump, withSecret, total, w).events;
            events == [] || (bump && events == [Bump(cred)])
  {
    hide UpdateCountAndUsed;
  }

  lemma QuietThenOffer(used: seq<Event>, events: seq<Event>, offer: Option<Event>)
    requires (forall e <- used :: !e.Released?) && (events == [] || (offer.Some? && events == [offer.value]))
    ensures OnlyReleases(used + events, offer)
  {
    if events != [] {
      assert (used + events)[..|used|] == used;
    }
  }

  lemma AssertFirstOffers(a: Auth, rows: seq<Credential>, up: bool, uv: bool, withSecret: bool, w: World)
    requires rows != []
    ensures var events := AssertFirst(a, rows, up, uv, withSecret, w).events;
            events == [] || (up && events == [Bump(SortByUse(rows)[0])])
  {
    hide BuildAssertion, SortByUse, Bump;
    forall b: Auth, cred, flags, bump, secret, total
      ensures var events := BuildAssertion(b, cred, flags, bump, secret, total, w).events;
              events == [] || (bump && events == [Bump(cred)])
    {
      BuildOffers(b, cred, flags, bump, secret, total, w);
    }
  }

  lemma GetAssertionOffers(c: Crypto, a: Auth, q: AssertionRequest, w: World)
    ensures OnlyReleases(GetAssertion(c, a, q, w).events, Offer(c, a, Cbor(GetAssertionCmd(q)), w))
  {
    hide OnlyReleases, AssertFirst, CheckPinAuth, Candidates, SortByUse, Bump;
    var a0 := a.(stash := None);
    var offer := Offer(c, a, Cbor(GetAssertionCmd(q)), w);
    CheckPinAuthQuiet(c, a0, q.pinAuth, q.clientDataHash, PERM_GA, q.rpId, w);
    var (m, uv, used) := CheckPinAuth(c, a0, q.pinAuth, q.clientDataHash, PERM_GA, q.rpId, w);
    var rows := Candidates(a.d.mem.creds, c.sha256(q.rpId), q.allowList);
    QuietThenOffer([], [], offer);
    QuietThenOffer(used, [], offer);
    assert used + [] == used;
    if rows != [] && uv.Success? {
      AssertFirstOffers(a0.(m := m), rows, q.up.GetOr(true), uv.value, q.hmacSecret, w);
      QuietThenOffer(used, AssertFirst(a0.(m := m), rows, q.up.GetOr(true), uv.value, q.hmacSecret, w).events, offer);
    }
  }

  lemma NextOffers(c: Crypto, a: Auth, w: World)
    ensures OnlyReleases(GetNextAssertion(a, w).events, Offer(c, a, Cbor(GetNextAssertionCmd), w))
  {
    hide OnlyReleases, BuildAssertion, Bump;
    var events := GetNextAssertion(a, w).events;
    if Due(a, w).Some? {
      var s := a.stash.value;
      BuildOffers(a, s.remaining[0], s.flags, s.bump, s.withSecret, None, w);
    }
    QuietThenOffer([], events, Offer(c, a, Cbor(GetNextAssertionCmd), w));
    assert [] + events == events;
  }

  lemma MakeCredentialOffers(c: Crypto, a: Auth, q: CredentialRequest, w: World)
    ensures OnlyReleases(MakeCredential(c, a, q, w).events, Offer(c, a, Cbor(MakeCredentialCmd(q)), w))
  {
    hide OnlyReleases, CheckPinAuth, Excluded, CheckRequest, EraseSameUser, Put, FindByRp;
    var offer := Offer(c, a, Cbor(MakeCredentialCmd(q)), w);
    CheckPinAuthQuiet(c, a, q.pinAuth, q.clientDataHash, PERM_MC, q.rpId, w);
    var (m, gate, used) := RegistrationGates(c, a, q, w);
    QuietThenOffer(used, [], offer);
    assert used + [] == used;
    if gate.Success? && w.newKey.Some? {
      QuietThenOffer(used, AddCredential(c, a.(m := m), q, w.newKey.value, gate.value, w).events, offer);
    }
  }

  lemma CheckReleasesNothing(c: Crypto, d: Durable, m: Pins, s: Secret, enc: seq<Byte>, w: World)
    ensures forall e <- CheckPinHash(c, d, m, s, enc, w).events :: !e.Released?
  {
    hide SetPin, Decrypt, FailureDelay;
  }

  lemma PinReleasesNothing(c: Crypto, a: Auth, p: PinCommand, w: World)
    ensures forall e <- HandlePin(c, a, p, w).events :: !e.Released?
  {
    hide SetPin, CheckPinHash, SharedSecret, MacOk, PinFromPadded;
    forall s: Secret, enc ensures forall e <- CheckPinHash(c, a.d, a.m, s, enc, w).events :: !e.Released? {
      CheckReleasesNothing(c, a.d, a.m, s, enc, w);
    }
  }

  lemma SocketReleasesNothing(c: Crypto, a: Auth, pin: seq<Byte>, w: World)
    ensures forall e <- CtlSetPin(c, a, pin, w).events + Reset(a, w).events :: !e.Released?
  {
    hide SetPin, PolicyOk, FactoryReset;
  }

  lemma ApplyOffers(c: Crypto, a: Auth, op: Op, w: World)
    ensures OnlyReleases(Apply(c, a, op, w).1, Offer(c, a, op, w))
  {
    hide HandlePin, MakeCredential, GetAssertion, GetNextAssertion, Reset, CtlSetPin, CtlDelete, UpdateCountAndUsed,
         Put,
         SetU2fAttestation, U2fCredential, Find, Candidates, SortByUse;
    var a0 := a.(stash := None);
    match op
    case Cbor(GetAssertionCmd(q)) => GetAssertionOffers(c, a0, q, w);
    case Cbor(GetNextAssertionCmd) => NextOffers(c, a, w);
    case Cbor(MakeCredentialCmd(q)) => MakeCredentialOffers(c, a0, q, w);
    case Cbor(PinCmd(p)) => PinReleasesNothing(c, a0, p, w);
    case Cbor(ResetCmd) => SocketReleasesNothing(c, a0, [], w);
    case CtlResetOp => SocketReleasesNothing(c, a, [], w);
    case CtlSetPinOp(pin) => SocketReleasesNothing(c, a, pin, w);
    case _ =>
  }

  // ---------------------------------------------------------------- exactly, over all runs

  /** The operation's events that happened, all of them unless the daemon crashed in it. */
  function NewEvents(c: Crypto, h: Hist, x: Happening): seq<Event> {
    var events := Apply(c, h.a, x.op, x.w).1;
    match x.crash case None => events case Some(crash) => Happened(events, crash.happened, x.w)
  }

  /** The step hands out a count that is not above all handed out for that credential before. */
  ghost predicate RepeatsAt(c: Crypto, h: Hist, x: Happening) {
    var offer := Offer(c, h.a, x.op, x.w);
    && offer.Some? && offer.value in NewEvents(c, h, x)
    && exists e <- h.log :: e.Released? && e.credId == offer.value.credId && e.count >= offer.value.count
  }

  ghost predicate NoRepeats(c: Crypto, h: Hist, xs: seq<Happening>)
    decreases |xs|
  {
    xs == [] || (!RepeatsAt(c, h, xs[0]) && NoRepeats(c, After(c, h, xs[0]), xs[1..]))
  }

  lemma AfterAdds(c: Crypto, h: Hist, x: Happening)
    ensures exists gone: seq<Event> ::
              (forall e <- gone :: !e.Released?) && After(c, h, x).log == h.log + NewEvents(c, h, x) + gone
  {
    hide Apply, Recovered, Happened;
    var (a, events) := Apply(c, h.a, x.op, x.w);
    var gone := if x.crash.None? then [] else Gone(a.m);
    assert After(c, h, x).log == h.log + NewEvents(c, h, x) + gone;
  }

  /** Events of which at most the last is a release keep the order if and only if it is above those before it. */
  lemma LastDecides(log: seq<Event>, events: seq<Event>, gone: seq<Event>, e: Event)
    requires Increasing(log) && (forall x <- gone :: !x.Released?) && e.Released?
    requires (forall x <- events :: !x.Released?)
          || (events != [] && events[|events| - 1] == e && forall x <- events[..|events| - 1] :: !x.Released?)
    ensures Increasing(log + events + gone)
       <==> e !in events || forall x <- log :: x.Released? && x.credId == e.credId ==> x.count < e.count
  {
    var all := log + events + gone;
    forall i | |log| <= i < |all| ensures all[i].Released? ==> all[i] == e && i == |log| + |events| - 1 && e in events {
      if i < |log| + |events| - 1 {
        assert all[i] == events[..|events| - 1][i - |log|];
      } else if i >= |log| + |events| {
        assert all[i] in gone;
      } else {
        assert all[i] == events[i - |log|];
      }
    }
    if e in events {
      var at := |log| + |events| - 1;
      assert all[at] == e;
      forall x | x in log && x.Released? && x.credId == e.credId && x.count >= e.count ensures !Increasing(all) {
        var i :| 0 <= i < |log| && log[i] == x;
        assert all[i] == x;
      }
    }
    assert forall i :: 0 <= i < |log| ==> all[i] == log[i] && all[i] in log;
  }

  lemma FirstReleases(events: seq<Event>, n: nat, w: World, offer: Option<Event>)
    requires OnlyReleases(events, offer)
    ensures OnlyReleases(Happened(events, n, w), offer)
  {
    var first := Happened(events, n, w);
    if first != events {
      assert forall e <- first :: e in events[..|events| - 1];
    }
  }

  lemma StepExactly(c: Crypto, h: Hist, x: Happening)
    requires Increasing(h.log)
    ensures Increasing(After(c, h, x).log) <==> !RepeatsAt(c, h, x)
  {
    hide Apply, Increasing, Happened, After, Offer;
    ApplyOffers(c, h.a, x.op, x.w);
    var offer := Offer(c, h.a, x.op, x.w);
    var events := NewEvents(c, h, x);
    if x.crash.Some? {
      FirstReleases(Apply(c, h.a, x.op, x.w).1, x.crash.value.happened, x.w, offer);
    }
    AfterAdds(c, h, x);
    var gone: seq<Event> :| (forall e <- gone :: !e.Released?) && After(c, h, x).log == h.log + events + gone;
    OfferReleases(c, h.a, x.op, x.w);
    LastDecides(h.log, events, gone, offer.GetOr(Released(Zeros(32), 0)));
    if offer.None? && Released(Zeros(32), 0) in events { assert false; }
  }

  lemma OfferReleases(c: Crypto, a: Auth, op: Op, w: World)
    ensures Offer(c, a, op, w).Some? ==> Offer(c, a, op, w).value.Released?
  {
    hide Candidates, SortByUse, Find;
  }

  lemma AfterOnlyAdds(c: Crypto, h: Hist, x: Happening)
    ensures h.log <= After(c, h, x).log
  {
    hide Apply, Recovered, Happened;
  }

  lemma {:induction false} RunOnlyAdds(c: Crypto, h: Hist, xs: seq<Happening>)
    ensures h.log <= Run(c, h, xs).log
    decreases |xs|
  {
    hide After;
    if xs != [] {
      AfterOnlyAdds(c, h, xs[0]);
      RunOnlyAdds(c, After(c, h, xs[0]), xs[1..]);
    }
  }

  lemma LongerNotIncreasing(log: seq<Event>, longer: seq<Event>)
    requires !Increasing(log) && log <= longer
    ensures !Increasing(longer)
  {
    var i, j :| 0 <= i < j < |log| && log[i].Released? && log[j].Released? && log[i].credId == log[j].credId
                && log[i].count >= log[j].count;
    assert longer[i] == log[i] && longer[j] == log[j];
  }

  /** In every run, whatever fails, wraps or collides and wherever the daemon crashes, the counts released for each
      credential strictly increase if and only if no step hands out the next count of a row for which as high a count
      had been released. */
  lemma {:induction false} CountersIncreaseExactly(c: Crypto, h: Hist, xs: seq<Happening>)
    requires Increasing(h.log)
    ensures Increasing(Run(c, h, xs).log) <==> NoRepeats(c, h, xs)
    decreases |xs|
  {
    hide Increasing, RepeatsAt, After;
    if xs != [] {
      var next := After(c, h, xs[0]);
      StepExactly(c, h, xs[0]);
      if RepeatsAt(c, h, xs[0]) {
        RunOnlyAdds(c, next, xs[1..]);
        LongerNotIncreasing(next.log, Run(c, h, xs).log);
      } else {
        CountersIncreaseExactly(c, next, xs[1..]);
      }
    }
  }

  // ---------------------------------------------------------------- where repeated counts come from

  predicate IsNext(op: Op) { op.Cbor? && op.cmd.GetNextAssertionCmd? }

  /** A count was released that the row's next one is below. */
  ghost predicate Behind(log: seq<Event>, row: Credential) {
    exists e <- log :: e.Released? && e.credId == row.credId && e.count > row.signCount + 1
  }

  ghost predicate Holds(d: Durable, id: Bytes32) { exists row <- d.mem.creds :: row.credId == id }

  /** Key, secret and signature are there, so that an assertion gets as far as its count. */
  predicate Ready(s: Stash, w: World) {
    w.keyError.None? && (s.withSecret && s.flags % 2 == 1 ==> w.secretError.None?) && w.signs
  }

  /** A getNextAssertion that hands nothing out, but sets the count of a stored row to one below a released count:
      in memory when its save fails, or in the file when the daemon crashes after the save. */
  ghost predicate LowersAt(c: Crypto, h: Hist, x: Happening) {
    && IsNext(x.op) && Due(h.a, x.w).Some? && h.a.stash.value.bump && Ready(h.a.stash.value, x.w)
    && Behind(h.log, Due(h.a, x.w).value) && Holds(h.a.d, Due(h.a, x.w).value.credId)
    && (if x.crash.None? then !x.w.saves(0)
        else x.w.saves(0) && h.a.d.held && Bump(Due(h.a, x.w).value) !in NewEvents(c, h, x))
  }

  /** New ids are fresh and no counter is full, stored or pending. */
  ghost predicate Tidy(h: Hist, x: Happening) {
    && (x.w.newKey.Some? ==> NewId(h.a, h.log, x.w.newKey.value.credId))
    && NoCounterFull(h.a)
    && (h.a.stash.Some? ==> forall r <- h.a.stash.value.remaining :: r.signCount < MAX_COUNT)
  }

  ghost predicate TidyRun(c: Crypto, h: Hist, xs: seq<Happening>)
    decreases |xs|
  {
    xs == [] || (Tidy(h, xs[0]) && !LowersAt(c, h, xs[0]) && TidyRun(c, After(c, h, xs[0]), xs[1..]))
  }

  /** No getNextAssertion of the run repeats a count. */
  ghost predicate NoNextRepeats(c: Crypto, h: Hist, xs: seq<Happening>)
    decreases |xs|
  {
    xs == [] || ((IsNext(xs[0].op) ==> !RepeatsAt(c, h, xs[0])) && NoNextRepeats(c, After(c, h, xs[0]), xs[1..]))
  }

  /** The counter invariant without what it says of pending rows. */
  ghost predicate CoreInv(a: Auth, log: seq<Event>) { CountInv(a.(stash := None), log) }

  lemma CoreIs(a: Auth, log: seq<Event>)
    ensures CoreInv(a, log) <==> StoreInv(a.d) && AllRows(a.d, Counted(log)) && Increasing(log)
  {
    hide StoreInv, AllRows, Increasing;
  }

  lemma CoreCrash(a: Auth, installId: Bytes16, w: World, log: seq<Event>)
    requires CoreInv(a, log)
    ensures var (b, gone) := Recover(a, installId, w); CoreInv(b, log + gone)
  {
    hide CountInv, Recovered;
    RecoverKeeps(a.(stash := None), installId, w, log);
    NoStash(Recover(a, installId, w).0, log + Gone(a.m));
  }

  /** Every operation but getNextAssertion passes the pending assertions on or drops them, no more. */
  lemma IgnoresStash(c: Crypto, a: Auth, op: Op, w: World)
    requires !IsNext(op)
    ensures var (o, p) := (Apply(c, a, op, w), Apply(c, a.(stash := None), op, w));
            o.1 == p.1 && o.0.(stash := None) == p.0.(stash := None)
  {
    hide MakeCredential, GetAssertion, HandlePin, FactoryReset, SetPinLocal, Put, SetU2fAttestation, UpdateCountAndUsed,
         Erase, Find, FindById;
  }

  lemma OthersKeepCore(c: Crypto, h: Hist, x: Happening)
    requires CoreInv(h.a, h.log) && Tidy(h, x) && !IsNext(x.op)
    ensures CoreInv(After(c, h, x).a, After(c, h, x).log)
  {
    hide CountInv, Apply, NewId, NoCounterFull, CountOk, Happened, Recover;
    var h0 := Hist(h.a.(stash := None), h.log);
    assert Orderly(h0, x) by { SameIds(h.a, h.log, x); }
    ApplyKeeps(c, h0, x);
    IgnoresStash(c, h.a, x.op, x.w);
    var (a, events) := Apply(c, h.a, x.op, x.w);
    NoStash(Apply(c, h0.a, x.op, x.w).0, h.log + events);
    if x.crash.Some? {
      var happened := h.log + Happened(events, x.crash.value.happened, x.w);
      HappenedFirst(h.log, events, x.crash.value.happened, x.w);
      ShorterKeeps(a.(stash := None), happened, h.log + events);
      CoreCrash(a, x.crash.value.installId, x.w, happened);
    }
  }

  lemma SameIds(a: Auth, log: seq<Event>, x: Happening)
    ensures NoCounterFull(a.(stash := None)) == NoCounterFull(a)
    ensures x.w.newKey.Some? ==>
              NewId(a.(stash := None), log, x.w.newKey.value.credId) == NewId(a, log, x.w.newKey.value.credId)
  {
    hide OnDisk;
  }

  /** Setting the count of whichever row has the id, to one that no released count is above. */
  lemma RaiseKeeps(d: Durable, cred: Credential, now: U64, ok: bool, log: seq<Event>)
    requires StoreInv(d) && AllRows(d, Counted(log)) && !Behind(log, cred) && cred.signCount < MAX_COUNT
    ensures var (d', r) := UpdateCountAndUsed(d, cred.credId, cred.signCount + 1, now, ok);
            && StoreInv(d') && AllRows(d', Counted(log))
            && (r.Success? ==> AllRows(d', Counted(log + [Released(cred.credId, cred.signCount + 1)])))
  {
    hide StoreInv, OnDisk, UpdateCountAndUsed, Normal, Increasing;
    var n := cred.signCount + 1;
    var d' := UpdateCountAndUsed(d, cred.credId, n, now, ok).0;
    if row :| row in d.mem.creds && row.credId == cred.credId {
      UpdateRows(d, row, n, now, ok);
      assert CountOk(log, row.(signCount := n, lastUsed := now));
      assert forall x <- d.mem.creds :: Counted(log)(x);
      FollowsRows(d, d', Counted(log));
      if ok {
        NormalKeeps(d'.mem);
        forall x | x in d'.mem.creds ensures CountOk(log + [Released(cred.credId, n)], x) {
          assert Counted(log)(x);
          ReleaseCounted(log, cred.credId, n, x);
        }
      }
    } else {
      NothingToRaise(d, cred.credId, n, now, ok);
    }
  }

  lemma NothingToRaise(d: Durable, id: Bytes32, count: U32, now: U64, ok: bool)
    requires forall row <- d.mem.creds :: row.credId != id
    ensures UpdateCountAndUsed(d, id, count, now, ok) == (d, Failure(InvalidCredential))
  {
    hide Serialize;
  }

  lemma UpdateHolds(d: Durable, id: Bytes32, count: U32, now: U64, ok: bool)
    requires StoreInv(d)
    ensures var (d', r) := UpdateCountAndUsed(d, id, count, now, ok);
            && StoreInv(d') && (forall x :: Holds(d', x) <==> Holds(d, x)) && (r.Success? <==> ok && Holds(d, id))
            && (r.Failure? ==> OnDisk(d') == OnDisk(d))
            && (r.Success? ==> OnDisk(d').creds == d'.mem.creds)
            && (Holds(d, id) ==> exists row <- d'.mem.creds :: row.credId == id && row.signCount == count)
  {
    hide StoreInv, OnDisk, UpdateCountAndUsed, Normal;
    var d' := UpdateCountAndUsed(d, id, count, now, ok).0;
    if row :| row in d.mem.creds && row.credId == id {
      UpdateRows(d, row, count, now, ok);
      assert row.(signCount := count, lastUsed := now) in d'.mem.creds;
      NormalKeeps(d'.mem);
    } else {
      NothingToRaise(d, id, count, now, ok);
    }
  }

  lemma UpdateOpens(d: Durable, id: Bytes32, count: U32, now: U64)
    ensures var (d', r) := UpdateCountAndUsed(d, id, count, now, true); r.Success? ==> (StartsAgain(d') <==> d.held)
  {
    hide Serialize;
  }

  /** The store and the events of a getNextAssertion: its count is raised only when everything else is there. */
  lemma NextIs(a: Auth, w: World)
    ensures var o := GetNextAssertion(a, w);
            if Due(a, w).Some? && a.stash.value.bump && Ready(a.stash.value, w) then
              var row := Due(a, w).value;
              var u := UpdateCountAndUsed(a.d, row.credId, (row.signCount + 1) % TWO32, w.unix, w.saves(0));
              o.a.d == u.0 && o.events == if u.1.Success? then [Bump(row)] else []
            else o.a.d == a.d && o.events == []
  {
    hide UpdateCountAndUsed;
  }

  /** The rows of a failed or cut off operation, with nothing released. */
  lemma QuietStep(c: Crypto, h: Hist, x: Happening)
    requires CoreInv(Apply(c, h.a, x.op, x.w).0, h.log) && NewEvents(c, h, x) == []
    ensures CoreInv(After(c, h, x).a, After(c, h, x).log)
  {
    hide CoreInv, Apply, Happened, Recover;
    assert h.log + [] == h.log;
    if x.crash.Some? {
      CoreCrash(Apply(c, h.a, x.op, x.w).0, x.crash.value.installId, x.w, h.log);
    }
  }

  lemma LoweredNotCore(a: Auth, log: seq<Event>, row: Credential, e: Event)
    requires row in a.d.mem.creds && e in log && e.Released? && e.credId == row.credId && e.count > row.signCount
    ensures !CoreInv(a, log)
  {
    hide StoreInv, OnDisk, Increasing;
    assert !Counted(log)(row);
  }

  /** A pending row not left behind: its count can be raised, and is repeated only if it is handed out. */
  lemma NextCurrent(c: Crypto, h: Hist, x: Happening)
    requires CoreInv(h.a, h.log) && Tidy(h, x) && IsNext(x.op)
    requires Due(h.a, x.w).Some? && h.a.stash.value.bump && Ready(h.a.stash.value, x.w)
             && !Behind(h.log, Due(h.a, x.w).value)
    ensures CoreInv(After(c, h, x).a, After(c, h, x).log) <==> !RepeatsAt(c, h, x)
  {
    hide CoreInv, Behind, UpdateCountAndUsed, StoreInv, AllRows, Increasing, GetNextAssertion, RepeatsAt, Recover,
         After;
    var a, log, row := h.a, h.log, Due(h.a, x.w).value;
    var o := GetNextAssertion(a, x.w);
    CoreIs(a, log);
    NextIs(a, x.w);
    assert (row.signCount + 1) % TWO32 == row.signCount + 1;
    RaiseKeeps(a.d, row, x.w.unix, x.w.saves(0), log);
    CoreIs(o.a, log);
    CoreIs(o.a, log + o.events);
    StepExactly(c, h, x);
    CoreIs(After(c, h, x).a, After(c, h, x).log);
    if NewEvents(c, h, x) == [] {
      QuietStep(c, h, x);
    } else {
      assert NewEvents(c, h, x) == o.events;
      AfterAdds(c, h, x);
      if Increasing(After(c, h, x).log) {
        assert log + o.events <= After(c, h, x).log;
        if !Increasing(log + o.events) { LongerNotIncreasing(log + o.events, After(c, h, x).log); }
        WholeStep(c, h, x);
      }
    }
  }

  lemma WholeStep(c: Crypto, h: Hist, x: Happening)
    requires var (a, events) := Apply(c, h.a, x.op, x.w); NewEvents(c, h, x) == events && CoreInv(a, h.log + events)
    ensures CoreInv(After(c, h, x).a, After(c, h, x).log)
  {
    hide CoreInv, Apply, Happened, Recover;
    var (a, events) := Apply(c, h.a, x.op, x.w);
    if x.crash.Some? {
      CoreCrash(a, x.crash.value.installId, x.w, h.log + events);
    }
  }

  /** What a getNextAssertion that gets as far as the count does to a stored row, its save working or not. */
  lemma NextSets(a: Auth, w: World)
    requires StoreInv(a.d) && Due(a, w).Some? && a.stash.value.bump && Ready(a.stash.value, w)
    requires Due(a, w).value.signCount < MAX_COUNT && Holds(a.d, Due(a, w).value.credId)
    ensures var o := GetNextAssertion(a, w);
            var due := Due(a, w).value;
            && StoreInv(o.a.d)
            && (exists row <- o.a.d.mem.creds :: row.credId == due.credId && row.signCount == due.signCount + 1)
            && (if w.saves(0) then
                  o.events == [Bump(due)] && OnDisk(o.a.d).creds == o.a.d.mem.creds && (StartsAgain(o.a.d) <==> a.d.held)
                else o.events == [] && OnDisk(o.a.d) == OnDisk(a.d))
  {
    hide UpdateCountAndUsed, StoreInv, GetNextAssertion, Holds, OnDisk, Ready;
    var due := Due(a, w).value;
    NextIs(a, w);
    assert (due.signCount + 1) % TWO32 == due.signCount + 1;
    UpdateHolds(a.d, due.credId, due.signCount + 1, w.unix, w.saves(0));
    UpdateOpens(a.d, due.credId, due.signCount + 1, w.unix);
  }

  /** A pending row left behind and not handed out: what is done to it lowers a count, but for a save that a crash
      forgets. */
  lemma NextBehind(c: Crypto, h: Hist, x: Happening)
    requires CoreInv(h.a, h.log) && Tidy(h, x) && IsNext(x.op)
    requires Due(h.a, x.w).Some? && h.a.stash.value.bump && Ready(h.a.stash.value, x.w)
    requires Behind(h.log, Due(h.a, x.w).value) && Holds(h.a.d, Due(h.a, x.w).value.credId)
    requires Bump(Due(h.a, x.w).value) !in NewEvents(c, h, x)
    ensures CoreInv(After(c, h, x).a, After(c, h, x).log) <==> !LowersAt(c, h, x)
  {
    hide CoreInv, StoreInv, AllRows, Increasing, GetNextAssertion, CountOk, Recovered, Happened, Holds, OnDisk;
    var a, log, row := h.a, h.log, Due(h.a, x.w).value;
    var o := GetNextAssertion(a, x.w);
    CoreIs(a, log);
    NextSets(a, x.w);
    var e :| e in log && e.Released? && e.credId == row.credId && e.count > row.signCount + 1;
    AfterOnlyAdds(c, h, x);
    var next := After(c, h, x);
    var row' :| row' in o.a.d.mem.creds && row'.credId == row.credId && row'.signCount == row.signCount + 1;
    if x.crash.None? {
      LoweredNotCore(next.a, next.log, row', e);
    } else {
      RecoveredRows(o.a.d, x.crash.value.installId);
      if x.w.saves(0) && a.d.held {
        LoweredNotCore(next.a, next.log, row', e);
      } else {
        CutEvents(c, h, x, o.events, Bump(row));
        NothingOnDisk(c, h, x);
      }
    }
  }

  lemma NextRepeats(c: Crypto, h: Hist, x: Happening)
    requires CoreInv(h.a, h.log) && IsNext(x.op) && Due(h.a, x.w).Some? && h.a.stash.value.bump
    requires Behind(h.log, Due(h.a, x.w).value) && Due(h.a, x.w).value.signCount < MAX_COUNT
    requires Bump(Due(h.a, x.w).value) in NewEvents(c, h, x)
    ensures RepeatsAt(c, h, x) && !CoreInv(After(c, h, x).a, After(c, h, x).log)
  {
    hide StoreInv, AllRows, Increasing, After, NewEvents;
    var row := Due(h.a, x.w).value;
    assert (row.signCount + 1) % TWO32 == row.signCount + 1;
    CoreIs(h.a, h.log);
    StepExactly(c, h, x);
    CoreIs(After(c, h, x).a, After(c, h, x).log);
  }

  lemma CutEvents(c: Crypto, h: Hist, x: Happening, events: seq<Event>, e: Event)
    requires x.crash.Some? && Apply(c, h.a, x.op, x.w).1 == events && (events == [] || events == [e])
             && e !in NewEvents(c, h, x)
    ensures NewEvents(c, h, x) == []
  {
    hide Apply;
  }

  /** A crash after a failed save, or with the file's key lost: what comes back was there before, or nothing. */
  lemma NothingOnDisk(c: Crypto, h: Hist, x: Happening)
    requires CoreInv(h.a, h.log) && IsNext(x.op) && x.crash.Some? && NewEvents(c, h, x) == []
    requires var o := GetNextAssertion(h.a, x.w).a.d; StoreInv(o) && (OnDisk(o) == OnDisk(h.a.d) || !StartsAgain(o))
    ensures CoreInv(After(c, h, x).a, After(c, h, x).log)
  {
    hide StoreInv, OnDisk, GetNextAssertion, Recovered, CountOk, Increasing, StartsAgain, Happened;
    var o := GetNextAssertion(h.a, x.w);
    RecoveredRows(o.a.d, x.crash.value.installId);
    var next := After(c, h, x);
    forall r | r in next.a.d.mem.creds ensures CountOk(h.log, r) { assert Counted(h.log)(r); }
    assert h.log + [] == h.log;
    assert CountInv(next.a, h.log);
    QuietEvents(next.a, h.log, Gone(o.a.m));
    NoStash(next.a, next.log);
  }

  /** A getNextAssertion keeps the stored counts above all released ones if and only if it neither repeats a count
      nor lowers one. */
  lemma NextKeepsExactly(c: Crypto, h: Hist, x: Happening)
    requires CoreInv(h.a, h.log) && Tidy(h, x) && IsNext(x.op)
    ensures CoreInv(After(c, h, x).a, After(c, h, x).log) <==> !RepeatsAt(c, h, x) && !LowersAt(c, h, x)
  {
    hide CoreInv, UpdateCountAndUsed, GetNextAssertion, After, Behind, Holds;
    var a, w := h.a, x.w;
    NextIs(a, w);
    if Due(a, w).Some? && a.stash.value.bump && Ready(a.stash.value, w) {
      var row := Due(a, w).value;
      if !Behind(h.log, row) {
        NextCurrent(c, h, x);
      } else if Bump(row) in NewEvents(c, h, x) {
        NextRepeats(c, h, x);
      } else if Holds(a.d, row.credId) {
        NextBehind(c, h, x);
      } else {
        NotHeld(a.d, row.credId, (row.signCount + 1) % TWO32, w.unix, w.saves(0));
        NextUntouched(c, h, x);
      }
    } else {
      NextUntouched(c, h, x);
    }
  }

  lemma NotHeld(d: Durable, id: Bytes32, count: U32, now: U64, ok: bool)
    requires !Holds(d, id)
    ensures UpdateCountAndUsed(d, id, count, now, ok) == (d, Failure(InvalidCredential))
  {
    NothingToRaise(d, id, count, now, ok);
  }

  lemma NextUntouched(c: Crypto, h: Hist, x: Happening)
    requires CoreInv(h.a, h.log) && IsNext(x.op)
    requires GetNextAssertion(h.a, x.w).a.d == h.a.d && GetNextAssertion(h.a, x.w).events == []
    ensures CoreInv(After(c, h, x).a, After(c, h, x).log) && !RepeatsAt(c, h, x)
  {
    hide StoreInv, AllRows, Increasing, GetNextAssertion, After;
    CoreIs(h.a, h.log);
    CoreIs(GetNextAssertion(h.a, x.w).a, h.log);
    QuietStep(c, h, x);
  }

  lemma OthersNoRepeat(c: Crypto, h: Hist, x: Happening)
    requires CoreInv(h.a, h.log) && Tidy(h, x) && !IsNext(x.op)
    ensures CoreInv(After(c, h, x).a, After(c, h, x).log) && !RepeatsAt(c, h, x)
  {
    hide StoreInv, AllRows, Increasing, After, RepeatsAt, Tidy, IsNext;
    CoreIs(h.a, h.log);
    OthersKeepCore(c, h, x);
    CoreIs(After(c, h, x).a, After(c, h, x).log);
    StepExactly(c, h, x);
  }

  lemma {:induction false} NextDecides(c: Crypto, h: Hist, xs: seq<Happening>)
    requires CoreInv(h.a, h.log) && TidyRun(c, h, xs)
    ensures NoRepeats(c, h, xs) <==> NoNextRepeats(c, h, xs)
    decreases |xs|
  {
    hide CoreInv, After, Tidy, LowersAt, RepeatsAt, IsNext;
    if xs != [] {
      if IsNext(xs[0].op) {
        NextKeepsExactly(c, h, xs[0]);
      } else {
        OthersNoRepeat(c, h, xs[0]);
      }
      if !RepeatsAt(c, h, xs[0]) {
        NextDecides(c, After(c, h, xs[0]), xs[1..]);
      }
    }
  }

  /** In any tidy run, with any other failed saves and crashes, the released counts strictly increase if and only if
      no getNextAssertion repeats one: no other operation can. */
  lemma OnlyNextRepeats(c: Crypto, h: Hist, xs: seq<Happening>)
    requires Starts(h) && TidyRun(c, h, xs)
    ensures Increasing(Run(c, h, xs).log) <==> NoNextRepeats(c, h, xs)
  {
    hide StoreInv, OnDisk, Run, TidyRun, NoNextRepeats, NoRepeats;
    assert CoreInv(h.a, h.log);
    NextDecides(c, h, xs);
    CountersIncreaseExactly(c, h, xs);
  }
}
