/** A U2F authentication between getAssertion and getNextAssertion: exactly when it makes a count repeat, and runs in
    which it does. */
module RunsRepeats {
  import opened Bytes
  import opened StoreCodec
  import opened Store
  import opened StoreRows
  import opened World
  import opened ClientPin
  import opened Authenticator
  import opened Runs
  import opened RunsCounters
  import opened RunsReleases
  import opened Enumeration

  // ---------------------------------------------------------------- a U2F authentication between the two commands

  /** getNextAssertion calls, one after the other, and what they release. */
  function Nexts(a: Auth, ws: seq<World>): (Auth, seq<Event>)
    decreases |ws|
  {
    if ws == [] then (a, [])
    else
      var o := GetNextAssertion(a, ws[0]);
      var (b, more) := Nexts(o.a, ws[1..]);
      (b, o.events + more)
  }

  /** The outcomes with which an assertion of the pending list succeeds. */
  predicate Serves(s: Stash, w: World) {
    w.keyError.None? && (s.withSecret && s.flags % 2 == 1 ==> w.secretError.None?) && w.signs && (s.bump ==> w.saves(0))
  }

  /** The pending rows handed out by calls in these worlds: one row a call until the list is empty or expired. */
  function Served(s: Stash, ws: seq<World>): seq<Credential>
    decreases |ws|
  {
    if ws == [] || s.remaining == [] || ws[0].now > s.expiry then []
    else (if Serves(s, ws[0]) then [s.remaining[0]] else []) + Served(s.(remaining := s.remaining[1..]), ws[1..])
  }

  function Releases(rows: seq<Credential>): seq<Event> {
    if rows == [] then [] else [Released(rows[0].credId, (rows[0].signCount + 1) % TWO32)] + Releases(rows[1..])
  }

  lemma ReleasesOne(row: Credential)
    ensures Releases([row]) == [Released(row.credId, (row.signCount + 1) % TWO32)]
  {
    assert [row][1..] == [];
    assert Releases([row]) == [Released(row.credId, (row.signCount + 1) % TWO32)] + [];
  }

  lemma NextServes(a: Auth, w: World)
    requires StoreInv(a.d) && a.stash.Some? && a.stash.value.bump && a.stash.value.remaining != []
             && w.now <= a.stash.value.expiry
    requires Holds(a.d, a.stash.value.remaining[0].credId)
    ensures var o := GetNextAssertion(a, w);
            var s := a.stash.value;
            && (o.r.Success? <==> Serves(s, w))
            && o.events == (if Serves(s, w) then Releases([s.remaining[0]]) else [])
            && StoreInv(o.a.d) && (forall x :: Holds(o.a.d, x) <==> Holds(a.d, x))
            && o.a.stash == if |s.remaining| == 1 then None else Some(s.(remaining := s.remaining[1..]))
  {
    hide StoreInv, UpdateCountAndUsed, Holds, Releases;
    var row := a.stash.value.remaining[0];
    ReleasesOne(row);
    UpdateHolds(a.d, row.credId, (row.signCount + 1) % TWO32, w.unix, w.saves(0));
    var s := a.stash.value;
    var b := BuildAssertion(a, row, s.flags, s.bump, s.withSecret, None, w);
    var u := UpdateCountAndUsed(a.d, row.credId, (row.signCount + 1) % TWO32, w.unix, w.saves(0));
    if w.keyError.None? && w.signs && (s.withSecret && s.flags % 2 == 1 ==> w.secretError.None?) {
      assert b.r.Success? <==> u.1.Success?;
    }
    assert s.remaining[1..] == [] <==> |s.remaining| == 1;
  }

  lemma ReleasesFirst(row: Credential, rows: seq<Credential>)
    ensures Releases([row] + rows) == Releases([row]) + Releases(rows)
  {
    assert ([row] + rows)[1..] == rows && [row][1..] == [];
  }

  /** The calls release exactly the served rows. */
  lemma {:induction false} NextsRelease(a: Auth, ws: seq<World>)
    requires StoreInv(a.d) && a.stash.Some? && a.stash.value.bump
             && forall r <- a.stash.value.remaining :: Holds(a.d, r.credId)
    ensures Nexts(a, ws).1 == Releases(Served(a.stash.value, ws))
    decreases |ws|
  {
    hide StoreInv, Holds, Serves, GetNextAssertion, Served, Releases;
    var s := a.stash.value;
    if ws == [] || s.remaining == [] || ws[0].now > s.expiry {
      NothingServed(a, ws);
    } else {
      var o := GetNextAssertion(a, ws[0]);
      var rest := s.(remaining := s.remaining[1..]);
      NextServes(a, ws[0]);
      ServedFirst(s, ws);
      if |s.remaining| == 1 {
        NothingPending(o.a, ws[1..]);
        NoneServed(rest, ws[1..]);
      } else {
        NextsRelease(o.a, ws[1..]);
      }
    }
  }

  /** With nothing pending, or once it is too late, nothing is handed out. */
  lemma NothingServed(a: Auth, ws: seq<World>)
    requires a.stash.Some?
    requires ws == [] || a.stash.value.remaining == [] || ws[0].now > a.stash.value.expiry
    ensures Nexts(a, ws).1 == [] == Releases(Served(a.stash.value, ws))
  {
    if ws != [] {
      NothingPending(GetNextAssertion(a, ws[0]).a, ws[1..]);
    }
  }

  lemma NoneServed(s: Stash, ws: seq<World>)
    requires s.remaining == []
    ensures Releases(Served(s, ws)) == []
  {
  }

  lemma ServedFirst(s: Stash, ws: seq<World>)
    requires ws != [] && s.remaining != [] && ws[0].now <= s.expiry
    ensures Releases(Served(s, ws))
         == (if Serves(s, ws[0]) then Releases([s.remaining[0]]) else [])
            + Releases(Served(s.(remaining := s.remaining[1..]), ws[1..]))
  {
    hide Serves, Releases;
    var more := Served(s.(remaining := s.remaining[1..]), ws[1..]);
    ReleasesFirst(s.remaining[0], more);
    assert [] + more == more && [] + Releases(more) == Releases(more);
  }

  lemma {:induction false} NothingPending(a: Auth, ws: seq<World>)
    requires a.stash.None?
    ensures Nexts(a, ws).1 == []
    decreases |ws|
  {
    hide BuildAssertion;
    if ws != [] {
      NothingPending(GetNextAssertion(a, ws[0]).a, ws[1..]);
      assert GetNextAssertion(a, ws[0]).events + [] == [];
    }
  }

  lemma {:induction false} ServedRows(s: Stash, ws: seq<World>)
    requires DistinctIds(s.remaining)
    ensures DistinctIds(Served(s, ws)) && forall r <- Served(s, ws) :: r in s.remaining
    decreases |ws|
  {
    hide Serves;
    if ws != [] && s.remaining != [] {
      var rest := s.(remaining := s.remaining[1..]);
      ServedRows(rest, ws[1..]);
      assert s.remaining == [s.remaining[0]] + s.remaining[1..];
      forall r | r in rest.remaining ensures r.credId != s.remaining[0].credId {
        var i :| 0 <= i < |rest.remaining| && rest.remaining[i] == r;
        assert s.remaining[i + 1] == r;
      }
    }
  }

  lemma {:induction false} ReleasesIncrease(log: seq<Event>, rows: seq<Credential>)
    requires Increasing(log) && DistinctIds(rows)
    requires forall r <- rows :: CountOk(log, r) && r.signCount < MAX_COUNT
    ensures Increasing(log + Releases(rows))
    decreases |rows|
  {
    hide Increasing, CountOk;
    if rows == [] {
      assert log + [] == log;
    } else {
      var e := Released(rows[0].credId, rows[0].signCount + 1);
      CountOkIs(log, rows[0]);
      ReleaseIncreases(log, e.credId, e.count);
      OtherIds(rows);
      forall r | r in rows[1..] ensures CountOk(log + [e], r) {
        ReleaseCounted(log, e.credId, e.count, r);
      }
      ReleasesIncrease(log + [e], rows[1..]);
      assert log + [e] + Releases(rows[1..]) == log + Releases(rows);
    }
  }

  lemma OtherIds(rows: seq<Credential>)
    requires DistinctIds(rows) && rows != []
    ensures DistinctIds(rows[1..]) && forall r <- rows[1..] :: r in rows && r.credId != rows[0].credId
  {
    forall r | r in rows[1..] ensures r in rows && r.credId != rows[0].credId {
      var i :| 0 <= i < |rows| - 1 && rows[1..][i] == r;
      assert rows[i + 1] == r;
    }
  }

  lemma {:induction false} ReleasesHas(rows: seq<Credential>, row: Credential)
    requires row in rows
    ensures Released(row.credId, (row.signCount + 1) % TWO32) in Releases(rows)
  {
    if rows[0] != row {
      assert rows == [rows[0]] + rows[1..];
      ReleasesHas(rows[1..], row);
    }
  }

  lemma TwiceBreaks(log: seq<Event>, e: Event, more: seq<Event>)
    requires e.Released? && e in more
    ensures !Increasing(log + [e] + more)
  {
    var all := log + [e] + more;
    var i :| 0 <= i < |more| && more[i] == e;
    assert all[|log|] == e && all[|log| + 1 + i] == e;
  }

  /** After a U2F authentication with user presence, whatever the getNextAssertion calls that follow meet, the
      released counts still increase if and only if the row it used is not one of those they hand out. */
  lemma PendingRepeatsExactly(a: Auth, application: Bytes32, keyHandle: seq<Byte>, w: World, ws: seq<World>,
                              log: seq<Event>)
    requires CountInv(a, log) && a.stash.Some? && a.stash.value.bump
    requires (forall r <- a.stash.value.remaining :: r.signCount < MAX_COUNT)
    requires Find(a.d.mem.creds, application, keyHandle).Some?
             && Find(a.d.mem.creds, application, keyHandle).value.signCount < MAX_COUNT
    requires U2fAuthenticate(a, AUTH_ENFORCE, application, keyHandle, w).1.Authenticated?
    ensures var (a1, _, events) := U2fAuthenticate(a, AUTH_ENFORCE, application, keyHandle, w);
            (Increasing(log + events + Nexts(a1, ws).1)
             <==> Find(a.d.mem.creds, application, keyHandle).value !in Served(a.stash.value, ws))
  {
    hide StoreInv, AllRows, Increasing, CountOk, Nexts, Served, Releases, UpdateCountAndUsed, Find, Holds;
    var cred := Find(a.d.mem.creds, application, keyHandle).value;
    var s := a.stash.value;
    var (a1, reply, events) := U2fAuthenticate(a, AUTH_ENFORCE, application, keyHandle, w);
    FindIsRow(a.d.mem.creds, application, keyHandle);
    StoreIds(a.d);
    var e := Released(cred.credId, cred.signCount + 1);
    assert events == [e];
    UpdateHolds(a.d, cred.credId, cred.signCount + 1, w.unix, w.saves(0));
    PendingHeld(a);
    NextsRelease(a1, ws);
    ServedRows(s, ws);
    var rows := Served(s, ws);
    if cred in rows {
      ReleasesHas(rows, cred);
      TwiceBreaks(log, e, Releases(rows));
    } else {
      StoredCounted(a, log);
      CountOkIs(log, cred);
      ReleaseIncreases(log, cred.credId, cred.signCount + 1);
      forall r | r in rows ensures CountOk(log + [e], r) {
        if r.credId == cred.credId { SameIdSameRow(a.d.mem.creds, r, cred); }
        ReleaseCounted(log, cred.credId, e.count, r);
      }
      ReleasesIncrease(log + [e], rows);
    }
  }

  lemma PendingHeld(a: Auth)
    requires StashFresh(a) && a.stash.Some?
    ensures forall r <- a.stash.value.remaining :: Holds(a.d, r.credId)
  {
  }

  lemma StoredCounted(a: Auth, log: seq<Event>)
    requires CountInv(a, log)
    ensures forall row <- a.d.mem.creds :: CountOk(log, row)
  {
    hide StoreInv, OnDisk, CountOk;
    forall row | row in a.d.mem.creds ensures CountOk(log, row) { assert Counted(log)(row); }
  }

  /** For the next call alone: when both succeed, the counts increase if and only if the U2F row is not the one due. */
  lemma NextRepeatsExactly(a: Auth, application: Bytes32, keyHandle: seq<Byte>, w: World, w': World, log: seq<Event>)
    requires CountInv(a, log) && NoCounterFull(a) && a.stash.Some? && a.stash.value.bump
             && a.stash.value.remaining != []
    requires U2fAuthenticate(a, AUTH_ENFORCE, application, keyHandle, w).1.Authenticated?
    requires GetNextAssertion(U2fAuthenticate(a, AUTH_ENFORCE, application, keyHandle, w).0, w').r.Success?
    ensures var (a1, _, events) := U2fAuthenticate(a, AUTH_ENFORCE, application, keyHandle, w);
            (Increasing(log + events + GetNextAssertion(a1, w').events)
             <==> Find(a.d.mem.creds, application, keyHandle).value != a.stash.value.remaining[0])
  {
    hide StoreInv, AllRows, Increasing, BuildAssertion, Find, UpdateCountAndUsed, Holds, Serves, CountOk;
    var (a1, reply, events) := U2fAuthenticate(a, AUTH_ENFORCE, application, keyHandle, w);
    var s := a.stash.value;
    FindIsRow(a.d.mem.creds, application, keyHandle);
    var cred := Find(a.d.mem.creds, application, keyHandle).value;
    UpdateHolds(a.d, cred.credId, cred.signCount + 1, w.unix, w.saves(0));
    PendingHeld(a);
    PendingRepeatsExactly(a, application, keyHandle, w, [w'], log);
    NextServes(a1, w');
    OneNext(a1, w');
    assert Served(s, [w']) == [s.remaining[0]] by { OneServed(s, w'); }
  }

  lemma OneNext(a: Auth, w: World)
    ensures Nexts(a, [w]).1 == GetNextAssertion(a, w).events
  {
    hide GetNextAssertion;
    assert [w][1..] == [];
    assert Nexts(GetNextAssertion(a, w).a, []).1 == [];
  }

  lemma OneServed(s: Stash, w: World)
    requires s.remaining != [] && w.now <= s.expiry && Serves(s, w)
    ensures Served(s, [w]) == [s.remaining[0]]
  {
    hide Serves;
    assert [w][1..] == [];
  }

  // ---------------------------------------------------------------- it happens

  /** Everything works and the user allows it. */
  ghost predicate Willing(w: World) {
    w.presence == Allow && (forall i :: w.saves(i)) && w.keyError.None? && w.secretError.None? && w.signs
  }

  /** A getAssertion with user presence and without PIN authentication. */
  predicate Plain(q: AssertionRequest) {
    1 <= |q.rpId| <= 255 && q.uv != Some(true) && q.up != Some(false) && q.pinAuth.param.None?
  }

  lemma BuildWorks(a: Auth, row: Credential, flags: Byte, withSecret: bool, total: Option<nat>, w: World)
    requires StoreInv(a.d) && row in a.d.mem.creds && Willing(w)
    ensures var o := BuildAssertion(a, row, flags, true, withSecret, total, w);
            && o.r.Success? && o.a.stash == a.stash && StoreInv(o.a.d)
            && (forall r <- a.d.mem.creds :: r.credId != row.credId ==> r in o.a.d.mem.creds)
  {
    hide StoreInv, OnDisk, UpdateCountAndUsed;
    UpdateRows(a.d, row, (row.signCount + 1) % TWO32, w.unix, true);
  }

  /** A plain getAssertion with several candidates succeeds and leaves all but the first pending. */
  lemma FirstWorks(c: Crypto, a: Auth, q: AssertionRequest, w: World)
    requires StoreInv(a.d) && a.stash.None? && Plain(q) && Willing(w)
             && |Candidates(a.d.mem.creds, c.sha256(q.rpId), q.allowList)| > 1
    ensures var sorted := SortByUse(Candidates(a.d.mem.creds, c.sha256(q.rpId), q.allowList));
            var o := GetAssertion(c, a, q, w);
            && |sorted| > 1 && o.a.stash.Some? && o.a.stash.value.remaining == sorted[1..] && o.a.stash.value.bump
            && o.a.stash.value.expiry == w.now + USER_ACTION_TIMEOUT
            && (forall r <- sorted :: r in a.d.mem.creds && r.rpIdHash == c.sha256(q.rpId))
            && StoreInv(o.a.d) && (forall r <- sorted[1..] :: r in o.a.d.mem.creds)
  {
    hide StoreInv, Candidates, SortByUse, BuildAssertion;
    var rows := Candidates(a.d.mem.creds, c.sha256(q.rpId), q.allowList);
    var sorted := SortByUse(rows);
    StoreIds(a.d);
    CandidatesMatch(a.d.mem.creds, c.sha256(q.rpId), q.allowList);
    SortedRows(rows);
    assert sorted[0] in sorted;
    forall a1: Auth, flags, total | a1.d == a.d
      ensures var o := BuildAssertion(a1, sorted[0], flags, true, q.hmacSecret, total, w);
              && o.r.Success? && o.a.stash == a1.stash && StoreInv(o.a.d)
              && (forall r <- a.d.mem.creds :: r.credId != sorted[0].credId ==> r in o.a.d.mem.creds)
    {
      BuildWorks(a1, sorted[0], flags, q.hmacSecret, total, w);
    }
    forall r | r in sorted[1..] ensures r in a.d.mem.creds && r.credId != sorted[0].credId {
      var i :| 0 <= i < |sorted| - 1 && sorted[1..][i] == r;
      assert sorted[i + 1] == r;
    }
  }

  lemma U2fWorks(a: Auth, row: Credential, w: World)
    requires StoreInv(a.d) && row in a.d.mem.creds && Willing(w)
    ensures Find(a.d.mem.creds, row.rpIdHash, row.credId) == Some(row)
    ensures var (a', reply, events) := U2fAuthenticate(a, AUTH_ENFORCE, row.rpIdHash, row.credId, w);
            && reply.Authenticated? && events == [Bump(row)] && StoreInv(a'.d) && a'.stash == a.stash
            && row.(signCount := (row.signCount + 1) % TWO32, lastUsed := w.unix) in a'.d.mem.creds
  {
    hide StoreInv, OnDisk, UpdateCountAndUsed, Find;
    StoreIds(a.d);
    FindFinds(a.d.mem.creds, row, row.rpIdHash);
    UpdateRows(a.d, row, (row.signCount + 1) % TWO32, w.unix, true);
  }

  function U2fBy(row: Credential, w: World): Happening {
    Happening(U2fAuthenticateOp(AUTH_ENFORCE, row.rpIdHash, row.credId), w, None)
  }

  /** getAssertion, a U2F authentication by the row that is due next, getNextAssertion. */
  function RepeatingRun(q: AssertionRequest, row: Credential, w: World): seq<Happening> {
    [Happening(Cbor(GetAssertionCmd(q)), w, None), U2fBy(row, w), Happening(Cbor(GetNextAssertionCmd), w, None)]
  }

  lemma RunThree(c: Crypto, h: Hist, x: Happening, y: Happening, z: Happening)
    ensures Run(c, h, [x, y, z]) == After(c, After(c, After(c, h, x), y), z)
  {
    hide After;
    assert [x, y, z][1..] == [y, z] && [y, z][1..] == [z] && [z][1..] == [];
    assert Run(c, After(c, After(c, h, x), y), [z]) == Run(c, After(c, After(c, After(c, h, x), y), z), []);
  }

  /** From any starting state with several candidates for the request, and with everything working, those three
      commands release a count twice. */
  lemma ThreeCommandsRepeat(c: Crypto, h: Hist, q: AssertionRequest, w: World)
    requires Starts(h) && NoCounterFull(h.a) && Plain(q) && Willing(w)
    requires |Candidates(h.a.d.mem.creds, c.sha256(q.rpId), q.allowList)| > 1
    ensures |SortByUse(Candidates(h.a.d.mem.creds, c.sha256(q.rpId), q.allowList))| > 1
    ensures var second := SortByUse(Candidates(h.a.d.mem.creds, c.sha256(q.rpId), q.allowList))[1];
            !Increasing(Run(c, h, RepeatingRun(q, second, w)).log)
  {
    hide StoreInv, AllRows, OnDisk, Candidates, SortByUse, GetAssertion, GetNextAssertion, U2fAuthenticate,
         Increasing, Nexts, Find, Served,
         CountInv, StashFresh, Plain, Run;
    var a := h.a;
    assert a.(stash := None) == a;
    FirstWorks(c, a, q, w);
    var second := SortByUse(Candidates(a.d.mem.creds, c.sha256(q.rpId), q.allowList))[1];
    assert CountInv(a, []) by { StartsCounted(h); }
    GetAssertionKeeps(c, a, q, w, []);
    var o := GetAssertion(c, a, q, w);
    var log := [] + o.events;
    var s := o.a.stash.value;
    PendingStored(o.a, log);
    assert s.remaining[0] == second && second in s.remaining;
    U2fWorks(o.a, second, w);
    PendingRepeatsExactly(o.a, second.rpIdHash, second.credId, w, [w], log);
    OneServed(s, w);
    var (a2, reply, events) := U2fAuthenticate(o.a, AUTH_ENFORCE, second.rpIdHash, second.credId, w);
    OneNext(a2, w);
    var xs := RepeatingRun(q, second, w);
    RunThree(c, h, xs[0], xs[1], xs[2]);
    assert Run(c, h, xs).log == log + events + GetNextAssertion(a2, w).events;
  }

  lemma RunFirst(c: Crypto, h: Hist, x: Happening, xs: seq<Happening>)
    ensures Run(c, h, [x] + xs) == Run(c, After(c, h, x), xs)
  {
    hide After;
    assert ([x] + xs)[1..] == xs;
  }

  /** A U2F authentication by a stored row, as a step. */
  lemma U2fStep(c: Crypto, h: Hist, row: Credential, w: World)
    requires StoreInv(h.a.d) && row in h.a.d.mem.creds && Willing(w)
    ensures var next := After(c, h, U2fBy(row, w));
            && next.log == h.log + [Bump(row)] && StoreInv(next.a.d) && next.a.stash == h.a.stash
            && row.(signCount := (row.signCount + 1) % TWO32, lastUsed := w.unix) in next.a.d.mem.creds
  {
    hide StoreInv, U2fAuthenticate;
    U2fWorks(h.a, row, w);
  }

  /** A getNextAssertion whose save fails: memory has the count after the pending row's, whatever it had. */
  lemma FailingNextStep(c: Crypto, h: Hist, row: Credential, w: World)
    requires StoreInv(h.a.d) && Due(h.a, w).Some? && h.a.stash.value.bump && Willing(w)
    requires row in h.a.d.mem.creds && row.credId == Due(h.a, w).value.credId
    ensures var due := Due(h.a, w).value;
            var next := After(c, h, Happening(Cbor(GetNextAssertionCmd), Failing(w), None));
            && next.log == h.log && StoreInv(next.a.d)
            && row.(signCount := (due.signCount + 1) % TWO32, lastUsed := w.unix) in next.a.d.mem.creds
  {
    hide StoreInv, OnDisk, UpdateCountAndUsed;
    NextIs(h.a, Failing(w));
    UpdateRows(h.a.d, row, (Due(h.a, w).value.signCount + 1) % TWO32, w.unix, false);
    assert h.log + [] == h.log;
  }

  function Failing(w: World): World { w.(saves := _ => false) }

  /** getAssertion, two U2F authentications by the row due next, a getNextAssertion whose save fails, and another
      U2F authentication. */
  function LoweringRun(q: AssertionRequest, row: Credential, w: World): seq<Happening> {
    [Happening(Cbor(GetAssertionCmd(q)), w, None), U2fBy(row, w), U2fBy(row, w),
     Happening(Cbor(GetNextAssertionCmd), Failing(w), None), U2fBy(row, w)]
  }

  lemma RunFive(c: Crypto, h: Hist, q: AssertionRequest, row: Credential, w: World)
    ensures var xs := LoweringRun(q, row, w);
            Run(c, h, xs) == After(c, After(c, After(c, After(c, After(c, h, xs[0]), xs[1]), xs[2]), xs[3]), xs[4])
  {
    hide After;
    var xs := LoweringRun(q, row, w);
    var h1 := After(c, h, xs[0]);
    var h2 := After(c, h1, xs[1]);
    RunThree(c, h2, xs[2], xs[3], xs[4]);
    RunFirst(c, h, xs[0], xs[1..]);
    RunFirst(c, h1, xs[1], xs[2..]);
    assert xs == [xs[0]] + xs[1..] && xs[1..] == [xs[1]] + xs[2..] && xs[2..] == [xs[2], xs[3], xs[4]];
  }

  /** The second way a count repeats: a getNextAssertion for an overtaken row whose save fails lowers the count in
      memory, and the next U2F authentication hands one out again. */
  lemma FailedSaveRepeats(c: Crypto, h: Hist, q: AssertionRequest, w: World)
    requires Starts(h) && Plain(q) && Willing(w)
    requires |Candidates(h.a.d.mem.creds, c.sha256(q.rpId), q.allowList)| > 1
    ensures |SortByUse(Candidates(h.a.d.mem.creds, c.sha256(q.rpId), q.allowList))| > 1
    ensures var second := SortByUse(Candidates(h.a.d.mem.creds, c.sha256(q.rpId), q.allowList))[1];
            !Increasing(Run(c, h, LoweringRun(q, second, w)).log)
  {
    hide StoreInv, OnDisk, Candidates, SortByUse, GetAssertion, Increasing, After, Run, Plain, Willing;
    FirstWorks(c, h.a, q, w);
    var second := SortByUse(Candidates(h.a.d.mem.creds, c.sha256(q.rpId), q.allowList))[1];
    var xs := LoweringRun(q, second, w);
    var h1 := After(c, h, xs[0]);
    FirstStep(c, h, q, w);
    U2fStep(c, h1, second, w);
    var h2 := After(c, h1, xs[1]);
    var once := second.(signCount := (second.signCount + 1) % TWO32, lastUsed := w.unix);
    U2fStep(c, h2, once, w);
    var h3 := After(c, h2, xs[2]);
    var twice := once.(signCount := (once.signCount + 1) % TWO32, lastUsed := w.unix);
    FailingNextStep(c, h3, twice, w);
    var h4 := After(c, h3, xs[3]);
    U2fStep(c, h4, once, w);
    RunFive(c, h, q, second, w);
    TwiceBreaks(h2.log, Bump(once), [Bump(once)]);
  }

  lemma FirstStep(c: Crypto, h: Hist, q: AssertionRequest, w: World)
    requires Starts(h) && Plain(q) && Willing(w) && |Candidates(h.a.d.mem.creds, c.sha256(q.rpId), q.allowList)| > 1
    ensures |SortByUse(Candidates(h.a.d.mem.creds, c.sha256(q.rpId), q.allowList))| > 1
    ensures var second := SortByUse(Candidates(h.a.d.mem.creds, c.sha256(q.rpId), q.allowList))[1];
            var next := After(c, h, Happening(Cbor(GetAssertionCmd(q)), w, None)).a;
            && StoreInv(next.d) && second in next.d.mem.creds
            && Due(next, w) == Some(second) && next.stash.value.bump
  {
    hide StoreInv, OnDisk, Candidates, SortByUse, GetAssertion, Increasing, Plain, Willing;
    FirstWorks(c, h.a, q, w);
  }

  lemma PendingStored(a: Auth, log: seq<Event>)
    requires CountInv(a, log)
    ensures StoreInv(a.d) && (a.stash.Some? ==> forall r <- a.stash.value.remaining :: r in a.d.mem.creds)
  {
    hide StoreInv, OnDisk;
  }

  lemma StartsCounted(h: Hist)
    requires Starts(h)
    ensures CountInv(h.a, [])
  {
    hide StoreInv, OnDisk;
  }

  function ExampleRow(n: Byte): Credential {
    Credential([1], Zeros(32), [], [n], [], [], Zeros(31) + [n], Software, [],
               Zeros(32), Zeros(32), Zeros(32), 1, 0, 0, [], true)
  }

  lemma ExampleCandidates()
    ensures Candidates([ExampleRow(1), ExampleRow(2)], Zeros(32), []) == [ExampleRow(1), ExampleRow(2)]
    ensures DistinctIds([ExampleRow(1), ExampleRow(2)])
  {
    var one, two := ExampleRow(1), ExampleRow(2);
    assert one.credId[31] != two.credId[31];
    assert [one, two][1..] == [two] && [two][1..] == [];
    assert FindByRp([two], Zeros(32)) == [two] + FindByRp([], Zeros(32)) == [two];
  }

  /** A store with two discoverable rows of one relying party. */
  lemma ExampleStarts(d: Durable)
    requires d == Saved(Durable(Empty.(creds := [ExampleRow(1), ExampleRow(2)]), None, true, true))
    ensures Starts(Hist(Auth(d, Pins(None, 0, None, 0, 0, 0), None), []))
  {
    hide StoreInv, OnDisk, Serialize, Load;
    ExampleCandidates();
    var mem := Empty.(creds := [ExampleRow(1), ExampleRow(2)]);
    SavedOnDisk(Durable(mem, None, true, true));
    NormalKeeps(mem);
  }

  /** Such a store is enough for a repeated count. */
  lemma CountsCanRepeat()
    ensures exists c, h, xs :: Starts(h) && |xs| == 3 && !Increasing(Run(c, h, xs).log)
  {
    hide Run, Increasing, StoreInv, OnDisk, Serialize, Load, Starts, Candidates, SortByUse;
    var c := Crypto(b => Zeros(32), (k, m) => None, (k, p) => None, z => None, (k, iv, ct) => None);
    var w := World(0, 0, 0, Allow, i => true, None, None, true, None, None, None, None, true, false,
                   ResetOutcome(true, true, true, true), true);
    var d := Saved(Durable(Empty.(creds := [ExampleRow(1), ExampleRow(2)]), None, true, true));
    var h := Hist(Auth(d, Pins(None, 0, None, 0, 0, 0), None), []);
    var q := AssertionRequest([1], Zeros(32), [], None, None, PinAuth(None, None), false);
    ExampleStarts(d);
    ExampleCandidates();
    assert Plain(q) && Willing(w);
    ThreeCommandsRepeat(c, h, q, w);
    var second := SortByUse(Candidates(d.mem.creds, Zeros(32), []))[1];
    var xs := RepeatingRun(q, second, w);
    assert Starts(h) && |xs| == 3 && !Increasing(Run(c, h, xs).log);
  }
}
