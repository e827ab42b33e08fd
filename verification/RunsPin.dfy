/** Over any run, with any failed saves and crashes at any point, at most eight wrong PIN guesses are compared between
    two restorations of the retry budget. */
module RunsPin {
  import opened Bytes
  import opened Statuses
  import opened StoreCodec
  import opened Store
  import opened StoreRows
  import opened World
  import opened ClientPin
  import opened Authenticator
  import opened Runs

  /** What gives the whole budget back. */
  predicate Restores(e: Event) { e.RightGuess? || e.PinWritten? }

  function Next(k: nat, e: Event): nat { if e.WrongGuess? then k + 1 else if Restores(e) then 0 else k }

  /** Wrong guesses since the last restoration, after events that began at k. */
  function Misses(k: nat, events: seq<Event>): nat
    decreases |events|
  {
    if events == [] then k else Misses(Next(k, events[0]), events[1..])
  }

  /** The count never passes eight on the way. */
  predicate Bounded(k: nat, events: seq<Event>)
    decreases |events|
  {
    k <= MAX_RETRIES && (events == [] || Bounded(Next(k, events[0]), events[1..]))
  }

  lemma {:induction false} MissesConcat(k: nat, a: seq<Event>, b: seq<Event>)
    ensures Misses(k, a + b) == Misses(Misses(k, a), b)
    ensures Bounded(k, a) && Bounded(Misses(k, a), b) ==> Bounded(k, a + b)
    decreases |a|
  {
    if a == [] {
      assert a + b == b;
    } else {
      assert (a + b)[0] == a[0] && (a + b)[1..] == a[1..] + b;
      MissesConcat(Next(k, a[0]), a[1..], b);
    }
  }

  lemma {:induction false} BoundedPart(k: nat, a: seq<Event>, b: seq<Event>)
    requires Bounded(k, a + b)
    ensures Bounded(k, a) && Bounded(Misses(k, a), b)
    decreases |a|
  {
    if a == [] {
      assert a + b == b;
    } else {
      assert (a + b)[0] == a[0] && (a + b)[1..] == a[1..] + b;
      BoundedPart(Next(k, a[0]), a[1..], b);
    }
  }

  /** Events that neither guess nor restore. */
  ghost predicate Quiet(events: seq<Event>) { forall e <- events :: !e.WrongGuess? && !Restores(e) }

  lemma {:induction false} QuietMisses(k: nat, events: seq<Event>)
    requires Quiet(events) && k <= MAX_RETRIES
    ensures Misses(k, events) == k && Bounded(k, events)
    decreases |events|
  {
    if events != [] { QuietMisses(k, events[1..]); }
  }

  /** After events that began with k misses, memory and file have at most the rest of the budget. */
  ghost predicate Spent(d: Durable, k: nat, events: seq<Event>) {
    StoreInv(d) && Bounded(k, events) && Misses(k, events) <= MAX_RETRIES
        && RetriesUpTo(d, MAX_RETRIES - Misses(k, events))
  }

  lemma QuietSpent(d: Durable, d': Durable, k: nat, events: seq<Event>)
    requires k <= MAX_RETRIES && RetriesUpTo(d, MAX_RETRIES - k) && StoreInv(d') && DiskFollows(d, d') && Quiet(events)
    ensures Spent(d', k, events)
  {
    hide StoreInv, OnDisk, Misses, Bounded, DiskFollows;
    FollowsRetries(d, d', MAX_RETRIES - k);
    QuietMisses(k, events);
  }

  lemma SpentMore(d: Durable, k: nat, a: seq<Event>, b: seq<Event>)
    requires Bounded(k, a) && Spent(d, Misses(k, a), b)
    ensures Spent(d, k, a + b)
  {
    hide StoreInv, OnDisk, Misses, Bounded;
    MissesConcat(k, a, b);
  }

  // ---------------------------------------------------------------- crashes inside an operation

  /** The PIN in the file, if one is set, has at most k retries. */
  ghost predicate DiskUpTo(d: Durable, k: int) { OnDisk(d).pin.hash.Some? ==> OnDisk(d).pin.retries <= k }

  /** Wherever in the operation the daemon crashes, the file has at most the rest of the budget. */
  ghost predicate Survives(d: Durable, k: nat, events: seq<Event>, w: World) {
    forall n: nat :: DiskUpTo(d, MAX_RETRIES - Misses(k, Happened(events, n, w)))
  }

  lemma {:induction false} MissesGrow(k: nat, events: seq<Event>)
    requires forall e <- events :: !Restores(e)
    ensures Misses(k, events) >= k
    decreases |events|
  {
    if events != [] { MissesGrow(Next(k, events[0]), events[1..]); }
  }

  /** Without a restoration among the events, those that happened before a crash have no more misses than all. */
  lemma UnrestoredSurvives(d: Durable, k: nat, events: seq<Event>, w: World)
    requires Spent(d, k, events) && forall e <- events :: !Restores(e)
    ensures Survives(d, k, events, w)
  {
    hide StoreInv, OnDisk, Misses, Bounded, Restores;
    forall n: nat ensures DiskUpTo(d, MAX_RETRIES - Misses(k, Happened(events, n, w))) {
      var first := Happened(events, n, w);
      var rest := events[|first|..];
      assert events == first + rest;
      MissesConcat(k, first, rest);
      MissesGrow(Misses(k, first), rest);
    }
  }

  lemma NothingSurvives(d: Durable, k: nat, w: World)
    requires k <= MAX_RETRIES && RetriesUpTo(d, MAX_RETRIES - k)
    ensures Survives(d, k, [], w)
  {
    hide OnDisk;
    assert Misses(k, []) == k;
    forall n: nat ensures Happened([], n, w) == [] {
    }
  }

  lemma SurvivesQuietly(d: Durable, k: nat, a: seq<Event>, b: seq<Event>, w: World)
    requires Survives(d, k, a, w) && Quiet(b) && Misses(k, a) <= MAX_RETRIES
    ensures Survives(d, k, a + b, w)
  {
    hide OnDisk, Misses, Bounded, DiskUpTo, Quiet, Happened;
    assert Happened(a, |a|, w) == a by { HappenedWhole(a, w); }
    forall n: nat ensures DiskUpTo(d, MAX_RETRIES - Misses(k, Happened(a + b, n, w))) {
      var first := Happened(a + b, n, w);
      QuietParts(a, b, n, w);
      if first != Happened(a, n, w) {
        var rest := first[|a|..];
        QuietMisses(Misses(k, a), rest);
        MissesConcat(k, a, rest);
      }
    }
  }

  lemma HappenedWhole(events: seq<Event>, w: World)
    ensures Happened(events, |events|, w) == events
  {
  }

  /** What happened of events with quiet ones after them: the same as without those, or all and some of those. */
  lemma QuietParts(a: seq<Event>, b: seq<Event>, n: nat, w: World)
    requires Quiet(b)
    ensures var first := Happened(a + b, n, w);
            first == Happened(a, n, w) || (|a| <= |first| && first == a + first[|a|..] && Quiet(first[|a|..]))
  {
    hide Unsaved;
    var first := Happened(a + b, n, w);
    if n < |a| {
      UnsavedParts(a[n..], b, w);
      QuietUnsaved(b, w);
      assert (a + b)[n..] == a[n..] + b;
    }
    if n < |a| && first != a + b {
      assert first == a[..n];
    } else {
      assert first == a + first[|a|..] && forall e <- first[|a|..] :: e in b;
    }
  }

  lemma QuietUnsaved(b: seq<Event>, w: World)
    requires Quiet(b)
    ensures Unsaved(b, w)
  {
  }

  lemma UnsavedParts(a: seq<Event>, b: seq<Event>, w: World)
    ensures Unsaved(a + b, w) <==> Unsaved(a, w) && Unsaved(b, w)
  {
    assert forall e :: e in a + b <==> e in a || e in b;
  }

  /** A PIN write restores the budget when it is saved; otherwise the file is as before. */
  lemma WriteSurvives(d: Durable, d': Durable, k: nat, a: seq<Event>, how: Writing, ok: bool, w: World)
    requires Survives(d, k, a, w) && RetriesUpTo(d', MAX_RETRIES) && (!ok ==> OnDisk(d').pin == OnDisk(d).pin)
    ensures Survives(d', k, a + [PinWritten(how, ok)], w)
  {
    hide OnDisk, Bounded;
    var e := PinWritten(how, ok);
    assert Happened(a, |a|, w) == a;
    forall n: nat ensures DiskUpTo(d', MAX_RETRIES - Misses(k, Happened(a + [e], n, w))) {
      var first := Happened(a + [e], n, w);
      if n <= |a| && first == (a + [e])[..n] {
        UnsavedParts(a[n..], [e], w);
        assert (a + [e])[n..] == a[n..] + [e] && e in [e];
        assert first == Happened(a, n, w);
      } else {
        assert first == a + [e];
        MissesConcat(k, a, [e]);
        assert [e][1..] == [] && Misses(0, []) == 0;
      }
    }
  }

  // ---------------------------------------------------------------- clientPIN

  lemma CheckPinHashSpent(c: Crypto, d: Durable, m: Pins, s: Secret, enc: seq<Byte>, w: World, k: nat)
    requires StoreInv(d) && k <= MAX_RETRIES && RetriesUpTo(d, MAX_RETRIES - k)
    ensures var o := CheckPinHash(c, d, m, s, enc, w);
            Spent(o.d, k, o.events) && Survives(o.d, k, o.events, w) && (o.r.Success? ==> o.events == [RightGuess])
  {
    hide StoreInv, OnDisk, SetPin, Decrypt, FailureDelay;
    var pin := d.mem.pin;
    var o := CheckPinHash(c, d, m, s, enc, w);
    if pin.hash.Some? && pin.retries > 0 {
      var spent := pin.(retries := pin.retries - 1);
      var d1 := SetPin(d, spent, w.saves(0)).0;
      PinRows(d, spent, w.saves(0));
      PinRows(d1, spent.(retries := MAX_RETRIES), w.saves(1));
      WrongThenGone(k, m);
      assert Misses(k, [RightGuess]) == 0 && Bounded(k, [RightGuess]) by {
        assert [RightGuess][1..] == [];
        assert Misses(0, []) == 0 && Bounded(0, []);
      }
    }
    assert Misses(k, []) == k && Bounded(k, []);
    if o.r.Failure? {
      UnrestoredSurvives(o.d, k, o.events, w);
    } else {
      RightSurvives(o.d, k, w);
    }
  }

  /** A right guess whose restoration is not saved leaves the file with the guess already taken off. */
  lemma RightSurvives(d: Durable, k: nat, w: World)
    requires Misses(k, [RightGuess]) == 0 && RetriesUpTo(d, MAX_RETRIES)
             && (!w.saves(1) ==> DiskUpTo(d, MAX_RETRIES - k))
    ensures Survives(d, k, [RightGuess], w)
  {
    hide OnDisk;
    assert Misses(k, []) == k;
    forall n: nat ensures DiskUpTo(d, MAX_RETRIES - Misses(k, Happened([RightGuess], n, w))) {
      if n == 0 {
        assert [RightGuess][0..] == [RightGuess] && RightGuess in [RightGuess];
      }
    }
  }

  lemma WrongThenGone(k: nat, m: Pins)
    requires k < MAX_RETRIES
    ensures Misses(k, [WrongGuess] + Gone(m)) == k + 1 && Bounded(k, [WrongGuess] + Gone(m))
  {
    MissesConcat(k, [WrongGuess], Gone(m));
    assert [WrongGuess][1..] == [];
    assert Misses(k + 1, []) == k + 1 && Bounded(k + 1, []);
    QuietMisses(k + 1, Gone(m));
  }

  lemma WritePinSpent(d: Durable, m: Pins, hash: Bytes16, how: Writing, ok: bool, k: nat)
    requires StoreInv(d) && k <= MAX_RETRIES && RetriesUpTo(d, MAX_RETRIES - k)
    ensures var d' := WritePin(d, m, hash, how, ok).d;
            Spent(d', k, [PinWritten(how, ok)]) && RetriesUpTo(d', MAX_RETRIES)
                && (!ok ==> OnDisk(d').pin == OnDisk(d).pin)
  {
    hide StoreInv, OnDisk, SetPin;
    PinRows(d, PinState(Some(hash), MAX_RETRIES), ok);
    assert [PinWritten(how, ok)][1..] == [];
    assert Misses(0, []) == 0 && Bounded(0, []);
  }

  lemma SpentQuietly(d: Durable, k: nat, a: seq<Event>, b: seq<Event>)
    requires Spent(d, k, a) && Quiet(b)
    ensures Spent(d, k, a + b)
  {
    hide StoreInv, OnDisk, Misses, Bounded, Quiet;
    QuietMisses(Misses(k, a), b);
    MissesConcat(k, a, b);
  }

  lemma SetNewPinSpent(c: Crypto, d: Durable, m: Pins, key: seq<Byte>, newEnc: seq<Byte>, mac: seq<Byte>, w: World,
                       k: nat)
    requires StoreInv(d) && k <= MAX_RETRIES && RetriesUpTo(d, MAX_RETRIES - k)
    ensures var o := SetNewPin(c, d, m, key, newEnc, mac, w); Spent(o.d, k, o.events) && Survives(o.d, k, o.events, w)
  {
    hide StoreInv, OnDisk, WritePin, SharedSecret, MacOk, PinFromPadded, Spent, Survives;
    NothingSpent(d, k);
    NothingSurvives(d, k, w);
    forall hash: Bytes16
      ensures var o := WritePin(d, m, hash, FirstSet, w.saves(0));
              Spent(o.d, k, o.events) && Survives(o.d, k, o.events, w)
    {
      WriteAlone(d, m, hash, FirstSet, k, w);
    }
  }

  lemma WriteAlone(d: Durable, m: Pins, hash: Bytes16, how: Writing, k: nat, w: World)
    requires StoreInv(d) && k <= MAX_RETRIES && RetriesUpTo(d, MAX_RETRIES - k)
    ensures var o := WritePin(d, m, hash, how, w.saves(0)); Spent(o.d, k, o.events) && Survives(o.d, k, o.events, w)
  {
    hide StoreInv, OnDisk, WritePin, Spent, Survives;
    WritePinSpent(d, m, hash, how, w.saves(0), k);
    WritePinEvents(d, m, hash, how, w.saves(0));
    NothingSurvives(d, k, w);
    WriteSurvives(d, WritePin(d, m, hash, how, w.saves(0)).d, k, [], how, w.saves(0), w);
    assert [] + [PinWritten(how, w.saves(0))] == [PinWritten(how, w.saves(0))];
  }

  lemma ChangePinSpent(c: Crypto, d: Durable, m: Pins, key: seq<Byte>, hashEnc: seq<Byte>, newEnc: seq<Byte>,
                       mac: seq<Byte>, w: World, k: nat)
    requires StoreInv(d) && k <= MAX_RETRIES && RetriesUpTo(d, MAX_RETRIES - k)
    ensures var o := ChangePin(c, d, m, key, hashEnc, newEnc, mac, w);
            Spent(o.d, k, o.events) && Survives(o.d, k, o.events, w)
  {
    hide StoreInv, OnDisk, SharedSecret, MacOk, PinFromPadded, CheckPinHash, Bounded, Misses, WritePin, Survives, Quiet;
    NothingSpent(d, k);
    NothingSurvives(d, k, w);
    if s: Secret :| SharedSecret(c, m, key) == Success(s) {
      var check := CheckPinHash(c, d, m, s, hashEnc, w);
      CheckPinHashSpent(c, d, m, s, hashEnc, w, k);
      if check.r.Success? && PinFromPadded(c, s, newEnc).Success? {
        var hash := PinFromPadded(c, s, newEnc).value;
        var o := WritePin(check.d, check.m, hash, Changed, w.saves(2));
        RightSpends(check.d, k);
        WritePinSpent(check.d, check.m, hash, Changed, w.saves(2), 0);
        WritePinEvents(check.d, check.m, hash, Changed, w.saves(2));
        SpentMore(o.d, k, check.events, o.events);
        GoneQuiet(o.m);
        SpentQuietly(o.d, k, check.events + o.events, Gone(o.m));
        WriteSurvives(check.d, o.d, k, check.events, Changed, w.saves(2), w);
        SurvivesQuietly(o.d, k, check.events + o.events, Gone(o.m), w);
      }
    }
  }

  lemma GoneQuiet(m: Pins)
    ensures Quiet(Gone(m))
  {
  }

  lemma WritePinEvents(d: Durable, m: Pins, hash: Bytes16, how: Writing, ok: bool)
    ensures WritePin(d, m, hash, how, ok).events == [PinWritten(how, ok)] && WritePin(d, m, hash, how, ok).m == m
  {
  }

  lemma NothingSpent(d: Durable, k: nat)
    requires StoreInv(d) && k <= MAX_RETRIES && RetriesUpTo(d, MAX_RETRIES - k)
    ensures Spent(d, k, [])
  {
  }

  lemma RightSpends(d: Durable, k: nat)
    requires Spent(d, k, [RightGuess])
    ensures Misses(k, [RightGuess]) == 0 && StoreInv(d) && RetriesUpTo(d, MAX_RETRIES) && Bounded(k, [RightGuess])
  {
    hide StoreInv, OnDisk;
    assert [RightGuess][1..] == [];
    assert Misses(0, []) == 0;
  }

  lemma GetTokenSpent(c: Crypto, d: Durable, m: Pins, key: seq<Byte>, hashEnc: seq<Byte>, permissions: Byte,
                      rpId: Option<seq<Byte>>, w: World, k: nat)
    requires StoreInv(d) && k <= MAX_RETRIES && RetriesUpTo(d, MAX_RETRIES - k)
    ensures var o := GetToken(c, d, m, key, hashEnc, permissions, rpId, w);
            Spent(o.d, k, o.events) && Survives(o.d, k, o.events, w)
  {
    hide StoreInv, OnDisk, SharedSecret, CheckPinHash, Bounded, Misses, Survives;
    NothingSpent(d, k);
    NothingSurvives(d, k, w);
    if s: Secret :| SharedSecret(c, m, key) == Success(s) {
      var check := CheckPinHash(c, d, m, s, hashEnc, w);
      CheckPinHashSpent(c, d, m, s, hashEnc, w, k);
      var n := check.m.instances;
      var gone, issued := Gone(check.m), [TokenIssued(n, permissions, rpId, w.later)];
      SpentQuietly(check.d, k, check.events, gone);
      SpentQuietly(check.d, k, check.events + gone, issued);
      SpentQuietly(check.d, k, check.events + gone + issued, [TokenGone(n)]);
      SurvivesQuietly(check.d, k, check.events, gone, w);
      SurvivesQuietly(check.d, k, check.events + gone, issued, w);
      SurvivesQuietly(check.d, k, check.events + gone + issued, [TokenGone(n)], w);
    }
  }

  lemma HandlePinSpent(c: Crypto, a: Auth, p: PinCommand, w: World, k: nat)
    requires StoreInv(a.d) && k <= MAX_RETRIES && RetriesUpTo(a.d, MAX_RETRIES - k)
    ensures var o := HandlePin(c, a, p, w); Spent(o.a.d, k, o.events) && Survives(o.a.d, k, o.events, w)
  {
    hide StoreInv, OnDisk, GetToken, SetNewPin, ChangePin, Spent, Survives;
    NothingSurvives(a.d, k, w);
    match p
    case SetPinCmd(key, newEnc, mac) => SetNewPinSpent(c, a.d, a.m, key, newEnc, mac, w, k);
    case ChangePinCmd(key, hashEnc, newEnc, mac) => ChangePinSpent(c, a.d, a.m, key, hashEnc, newEnc, mac, w, k);
    case GetTokenCmd(key, hashEnc) => GetTokenSpent(c, a.d, a.m, key, hashEnc, PERM_MC + PERM_GA, None, w, k);
    case GetPermittedTokenCmd(key, hashEnc, permissions, rpId) =>
      NothingSpent(a.d, k);
      if permissions <= 0xFF { GetTokenSpent(c, a.d, a.m, key, hashEnc, permissions, rpId, w, k); }
  }

  // ---------------------------------------------------------------- everything else

  /** An operation leaves the PIN state alone. */
  ghost predicate LeavesPin(d: Durable, d': Durable, events: seq<Event>) {
    StoreInv(d') && DiskFollows(d, d') && Quiet(events)
  }

  lemma BuildLeavesPin(a: Auth, cred: Credential, flags: Byte, bump: bool, withSecret: bool, total: Option<nat>,
                       w: World)
    requires StoreInv(a.d)
    ensures var o := BuildAssertion(a, cred, flags, bump, withSecret, total, w); LeavesPin(a.d, o.a.d, o.events)
  {
    hide StoreInv, OnDisk, UpdateCountAndUsed;
    UpdateFollows(a.d, cred.credId, (cred.signCount + 1) % TWO32, w.unix, w.saves(0));
  }

  lemma AssertFirstLeavesPin(a: Auth, rows: seq<Credential>, up: bool, uv: bool, withSecret: bool, w: World)
    requires StoreInv(a.d) && rows != []
    ensures var o := AssertFirst(a, rows, up, uv, withSecret, w); LeavesPin(a.d, o.a.d, o.events)
  {
    hide StoreInv, DiskFollows, BuildAssertion, SortByUse;
    forall a1: Auth, cred, flags, bump, secret, total | a1.d == a.d
      ensures var o := BuildAssertion(a1, cred, flags, bump, secret, total, w); LeavesPin(a.d, o.a.d, o.events)
    {
      BuildLeavesPin(a1, cred, flags, bump, secret, total, w);
    }
  }

  lemma GetAssertionLeavesPin(c: Crypto, a: Auth, q: AssertionRequest, w: World)
    requires StoreInv(a.d)
    ensures var o := GetAssertion(c, a, q, w); LeavesPin(a.d, o.a.d, o.events)
  {
    hide StoreInv, DiskFollows, AssertFirst, CheckPinAuth, Candidates;
    SameFollows(a.d);
    var a0 := a.(stash := None);
    CheckPinAuthQuiet(c, a0, q.pinAuth, q.clientDataHash, PERM_GA, q.rpId, w);
    var rows := Candidates(a.d.mem.creds, c.sha256(q.rpId), q.allowList);
    var (m, uv, used) := CheckPinAuth(c, a0, q.pinAuth, q.clientDataHash, PERM_GA, q.rpId, w);
    if rows != [] && uv.Success? {
      AssertFirstLeavesPin(a0.(m := m), rows, q.up.GetOr(true), uv.value, q.hmacSecret, w);
    }
  }

  lemma SameFollows(d: Durable)
    ensures DiskFollows(d, d)
  {
  }

  lemma GetNextLeavesPin(a: Auth, w: World)
    requires StoreInv(a.d)
    ensures var o := GetNextAssertion(a, w); LeavesPin(a.d, o.a.d, o.events)
  {
    hide StoreInv, DiskFollows, BuildAssertion;
    SameFollows(a.d);
    if a.stash.Some? && a.stash.value.remaining != [] {
      var s := a.stash.value;
      BuildLeavesPin(a, s.remaining[0], s.flags, s.bump, s.withSecret, None, w);
    }
  }

  lemma {:induction false} EraseSameUserKeeps(d: Durable, olds: seq<Credential>, userId: seq<Byte>, w: World, i: nat,
                                              k: nat)
    requires StoreInv(d) && RetriesUpTo(d, k)
    ensures var d' := EraseSameUser(d, olds, userId, w, i).0; StoreInv(d') && RetriesUpTo(d', k)
    decreases |olds|
  {
    hide StoreInv, OnDisk, Erase;
    if olds != [] {
      var d1 := Erase(d, olds[0].credId, w.saves(i)).0;
      EraseRows(d, olds[0].credId, w.saves(i));
      FollowsRetries(d, d1, k);
      EraseSameUserKeeps(d1, olds[1..], userId, w, i + 1, k);
      EraseSameUserKeeps(d, olds[1..], userId, w, i, k);
    }
  }

  lemma AddCredentialKeeps(c: Crypto, a: Auth, q: CredentialRequest, key: Fresh, uv: bool, w: World, k: nat)
    requires StoreInv(a.d) && RetriesUpTo(a.d, k)
    ensures var o := AddCredential(c, a, q, key, uv, w); StoreInv(o.a.d) && RetriesUpTo(o.a.d, k) && Quiet(o.events)
  {
    hide StoreInv, RetriesUpTo, EraseSameUser, Put, FindByRp, NewRow;
    var row := NewRow(q, c.sha256(q.rpId), key, w.unix);
    var olds := FindByRp(a.d.mem.creds, c.sha256(q.rpId));
    EraseSameUserKeeps(a.d, olds, q.userId, w, 0, k);
    var (d1, i) := EraseSameUser(a.d, olds, q.userId, w, 0);
    PutRows(d1, row, w.saves(i));
    FollowsRetries(d1, Put(d1, row, w.saves(i)).0, k);
  }

  lemma MakeCredentialSpent(c: Crypto, a: Auth, q: CredentialRequest, w: World, k: nat)
    requires StoreInv(a.d) && RetriesUpTo(a.d, k)
    ensures var o := MakeCredential(c, a, q, w); StoreInv(o.a.d) && RetriesUpTo(o.a.d, k) && Quiet(o.events)
  {
    hide StoreInv, RetriesUpTo, CheckPinAuth, AddCredential, Excluded, CheckRequest;
    CheckPinAuthQuiet(c, a, q.pinAuth, q.clientDataHash, PERM_MC, q.rpId, w);
    var (m, gate, used) := RegistrationGates(c, a, q, w);
    if w.newKey.Some? && gate.Success? {
      AddCredentialKeeps(c, a.(m := m), q, w.newKey.value, gate.value, w, k);
    }
  }

  lemma U2fRegisterSpent(a: Auth, application: Bytes32, w: World, k: nat)
    requires StoreInv(a.d) && RetriesUpTo(a.d, k)
    ensures var o := U2fRegister(a, application, w); StoreInv(o.0.d) && RetriesUpTo(o.0.d, k) && Quiet(o.2)
  {
    hide StoreInv, RetriesUpTo, Put, SetU2fAttestation, U2fCredential;
    if w.attestation.Some? {
      U2fRows(a.d, w.attestation.value, w.saves(1));
      var dA := SetU2fAttestation(a.d, w.attestation.value, w.saves(1)).0;
      FollowsRetries(a.d, dA, k);
      if w.newKey.Some? {
        var row := U2fCredential(application, w.newKey.value, w.unix);
        PutRows(dA, row, w.saves(0));
        FollowsRetries(dA, Put(dA, row, w.saves(0)).0, k);
        PutRows(a.d, row, w.saves(0));
        FollowsRetries(a.d, Put(a.d, row, w.saves(0)).0, k);
      }
    }
  }

  lemma ResetSpent(a: Auth, w: World, k: nat)
    requires StoreInv(a.d) && k <= MAX_RETRIES && RetriesUpTo(a.d, MAX_RETRIES - k)
    ensures var o := Reset(a, w); Spent(o.a.d, k, o.events) && Quiet(o.events)
  {
    hide StoreInv, OnDisk, FactoryReset;
    ResetRows(a.d, w.reset);
    NothingSpent(a.d, k);
    SpentFollowing(Reset(a, w).a.d, k, Reset(a, w).events);
  }

  lemma CtlSetPinSpent(c: Crypto, a: Auth, pin: seq<Byte>, w: World, k: nat)
    requires StoreInv(a.d) && k <= MAX_RETRIES && RetriesUpTo(a.d, MAX_RETRIES - k)
    ensures var o := CtlSetPin(c, a, pin, w); Spent(o.a.d, k, o.events) && Survives(o.a.d, k, o.events, w)
  {
    hide StoreInv, OnDisk, WritePin, PolicyOk, Survives, Misses, Bounded;
    NothingSpent(a.d, k);
    NothingSurvives(a.d, k, w);
    WriteAlone(a.d, a.m, PinHash(c, pin), SetLocally, k, w);
    WritePinEvents(a.d, a.m, PinHash(c, pin), SetLocally, w.saves(0));
    var d, events := WritePin(a.d, a.m, PinHash(c, pin), SetLocally, w.saves(0)).d,
        [PinWritten(SetLocally, w.saves(0))];
    SpentQuietly(d, k, events, Gone(a.m));
    SurvivesQuietly(d, k, events, Gone(a.m), w);
  }

  lemma SpentFollowing(d: Durable, k: nat, events: seq<Event>)
    requires StoreInv(d) && k <= MAX_RETRIES && RetriesUpTo(d, MAX_RETRIES - k) && Quiet(events)
    ensures Spent(d, k, events)
  {
    hide StoreInv, OnDisk, Misses, Bounded;
    QuietMisses(k, events);
  }

  lemma HandleCborSpent(c: Crypto, a: Auth, cmd: Command, w: World, k: nat)
    requires StoreInv(a.d) && k <= MAX_RETRIES && RetriesUpTo(a.d, MAX_RETRIES - k)
    ensures var o := HandleCbor(c, a, cmd, w); Spent(o.a.d, k, o.events) && Survives(o.a.d, k, o.events, w)
  {
    hide StoreInv, RetriesUpTo, MakeCredential, GetAssertion, GetNextAssertion, HandlePin, Reset, Spent, DiskFollows,
         Quiet, Survives;
    QuietSurvives(HandleCbor(c, a, cmd, w).a.d, k, HandleCbor(c, a, cmd, w).events, w);
    var a0 := if cmd.GetNextAssertionCmd? then a else a.(stash := None);
    match cmd
    case MakeCredentialCmd(q) =>
      MakeCredentialSpent(c, a0, q, w, MAX_RETRIES - k);
      SpentFollowing(MakeCredential(c, a0, q, w).a.d, k, MakeCredential(c, a0, q, w).events);
    case GetAssertionCmd(q) =>
      GetAssertionLeavesPin(c, a0, q, w);
      QuietSpent(a.d, GetAssertion(c, a0, q, w).a.d, k, GetAssertion(c, a0, q, w).events);
    case GetNextAssertionCmd =>
      GetNextLeavesPin(a0, w);
      QuietSpent(a.d, GetNextAssertion(a0, w).a.d, k, GetNextAssertion(a0, w).events);
    case PinCmd(p) => HandlePinSpent(c, a0, p, w, k);
    case ResetCmd => ResetSpent(a0, w, k);
    case Harmless(_) => NothingSpent(a.d, k); NothingSurvives(a.d, k, w);
  }

  lemma QuietSurvives(d: Durable, k: nat, events: seq<Event>, w: World)
    ensures Spent(d, k, events) && Quiet(events) ==> Survives(d, k, events, w)
  {
    hide StoreInv, OnDisk, Misses, Bounded, Survives;
    if Spent(d, k, events) && Quiet(events) {
      UnrestoredSurvives(d, k, events, w);
    }
  }

  lemma U2fAuthenticateLeavesPin(a: Auth, control: Byte, application: Bytes32, keyHandle: seq<Byte>, w: World)
    requires StoreInv(a.d)
    ensures var o := U2fAuthenticate(a, control, application, keyHandle, w); LeavesPin(a.d, o.0.d, o.2)
  {
    hide StoreInv, DiskFollows, UpdateCountAndUsed, Find;
    SameFollows(a.d);
    var cred := Find(a.d.mem.creds, application, keyHandle);
    if cred.Some? {
      UpdateFollows(a.d, cred.value.credId, (cred.value.signCount + 1) % TWO32, w.unix, w.saves(0));
    }
  }

  lemma DeleteLeavesPin(a: Auth, id: seq<Byte>, w: World)
    requires StoreInv(a.d)
    ensures LeavesPin(a.d, CtlDelete(a, id, w).a.d, [])
  {
    hide StoreInv, DiskFollows, Erase, IndexOf;
    SameFollows(a.d);
    if IndexOf(a.d.mem.creds, id) < |a.d.mem.creds| {
      EraseRows(a.d, a.d.mem.creds[IndexOf(a.d.mem.creds, id)].credId, w.saves(0));
    }
  }

  lemma ApplySpent(c: Crypto, a: Auth, op: Op, w: World, k: nat)
    requires StoreInv(a.d) && k <= MAX_RETRIES && RetriesUpTo(a.d, MAX_RETRIES - k)
    ensures var (a', events) := Apply(c, a, op, w); Spent(a'.d, k, events) && Survives(a'.d, k, events, w)
  {
    hide StoreInv, RetriesUpTo, HandleCbor, U2fRegister, U2fAuthenticate, Reset, CtlSetPin, CtlDelete, Spent,
         DiskFollows, Quiet,
         Survives;
    QuietSurvives(Apply(c, a, op, w).0.d, k, Apply(c, a, op, w).1, w);
    match op
    case EmptyRequest => NothingSpent(a.d, k); NothingSurvives(a.d, k, w);
    case Cbor(cmd) => HandleCborSpent(c, a, cmd, w, k);
    case U2fRegisterOp(application) =>
      U2fRegisterSpent(a, application, w, MAX_RETRIES - k);
      SpentFollowing(U2fRegister(a, application, w).0.d, k, U2fRegister(a, application, w).2);
    case U2fAuthenticateOp(control, application, keyHandle) =>
      U2fAuthenticateLeavesPin(a, control, application, keyHandle, w);
      var o := U2fAuthenticate(a, control, application, keyHandle, w);
      QuietSpent(a.d, o.0.d, k, o.2);
    case CtlResetOp => ResetSpent(a, w, k);
    case CtlSetPinOp(pin) => CtlSetPinSpent(c, a, pin, w, k);
    case CtlDeleteOp(id) =>
      DeleteLeavesPin(a, id, w);
      QuietSpent(a.d, CtlDelete(a, id, w).a.d, k, []);
  }

  /** After a crash anywhere in the operation memory, too, has at most what the events before it leave. */
  lemma CrashSpent(d: Durable, k: nat, events: seq<Event>, n: nat, w: World, installId: Bytes16, m: Pins)
    requires Spent(d, k, events) && Survives(d, k, events, w)
    ensures Spent(Recovered(d, installId), k, Happened(events, n, w) + Gone(m))
  {
    hide StoreInv, OnDisk, Misses, Bounded, Recovered, Happened, Quiet;
    var first := Happened(events, n, w);
    HappenedFirst([], events, n, w);
    var rest := events[|first|..];
    assert events == first + rest;
    BoundedPart(k, first, rest);
    MissesBounded(k, first);
    RecoveredRows(d, installId);
    assert DiskUpTo(d, MAX_RETRIES - Misses(k, first));
    assert Spent(Recovered(d, installId), k, first);
    GoneQuiet(m);
    SpentQuietly(Recovered(d, installId), k, first, Gone(m));
  }

  lemma {:induction false} MissesBounded(k: nat, events: seq<Event>)
    requires Bounded(k, events)
    ensures Misses(k, events) <= MAX_RETRIES
    decreases |events|
  {
    if events != [] { MissesBounded(Next(k, events[0]), events[1..]); }
  }

  lemma AfterSpent(c: Crypto, h: Hist, x: Happening, k: nat)
    requires StoreInv(h.a.d) && k <= MAX_RETRIES && RetriesUpTo(h.a.d, MAX_RETRIES - k)
    ensures exists events :: After(c, h, x).log == h.log + events && Spent(After(c, h, x).a.d, k, events)
  {
    hide StoreInv, RetriesUpTo, Apply, Spent, Survives, Recovered, Happened;
    var (a, events) := Apply(c, h.a, x.op, x.w);
    ApplySpent(c, h.a, x.op, x.w, k);
    if x.crash.Some? {
      var n := x.crash.value.happened;
      CrashSpent(a.d, k, events, n, x.w, x.crash.value.installId, a.m);
      assert After(c, h, x).log == h.log + (Happened(events, n, x.w) + Gone(a.m));
    }
  }

  /** The invariant of every run: memory and file have at most eight minus the misses so far. */
  ghost predicate BudgetInv(h: Hist) { Spent(h.a.d, 0, h.log) }

  lemma {:induction false} RunKeepsBudget(c: Crypto, h: Hist, xs: seq<Happening>)
    requires BudgetInv(h)
    ensures BudgetInv(Run(c, h, xs))
    decreases |xs|
  {
    hide StoreInv, OnDisk, After, Misses, Bounded;
    if xs != [] {
      AfterSpent(c, h, xs[0], Misses(0, h.log));
      var next := After(c, h, xs[0]);
      var events :| next.log == h.log + events && Spent(next.a.d, Misses(0, h.log), events);
      SpentMore(next.a.d, 0, h.log, events);
      RunKeepsBudget(c, next, xs[1..]);
    }
  }

  function Wrongs(events: seq<Event>): nat {
    if events == [] then 0 else (if events[0].WrongGuess? then 1 else 0) + Wrongs(events[1..])
  }

  lemma {:induction false} WrongsBounded(k: nat, events: seq<Event>)
    requires Bounded(k, events) && forall e <- events :: !Restores(e)
    ensures k + Wrongs(events) <= MAX_RETRIES
    decreases |events|
  {
    if events != [] { WrongsBounded(Next(k, events[0]), events[1..]); }
  }

  /** In any run, no stretch of the history without a correct guess or a PIN write has more than eight wrong guesses,
      whatever saves fail, wherever in an operation the daemon crashes, and however often a reset is tried. */
  lemma BoundedGuessing(c: Crypto, h: Hist, xs: seq<Happening>, i: nat, j: nat)
    requires Starts(h) && i <= j <= |Run(c, h, xs).log|
    requires forall e <- Run(c, h, xs).log[i..j] :: !Restores(e)
    ensures Wrongs(Run(c, h, xs).log[i..j]) <= MAX_RETRIES
  {
    hide StoreInv, OnDisk, Run, Bounded, Misses;
    NothingSpent(h.a.d, 0);
    RunKeepsBudget(c, h, xs);
    var log := Run(c, h, xs).log;
    assert log == log[..i] + (log[i..j] + log[j..]);
    BoundedPart(0, log[..i], log[i..j] + log[j..]);
    BoundedPart(Misses(0, log[..i]), log[i..j], log[j..]);
    WrongsBounded(Misses(0, log[..i]), log[i..j]);
  }
}
