/** The life of pinUvAuthTokens over any run: one relying party, only granted permissions, no gap above the idle
    timeout, and no use once the token was dropped. */
module RunsToken {
  import opened Bytes
  import opened Statuses
  import opened StoreCodec
  import opened Store
  import opened World
  import opened ClientPin
  import opened Authenticator
  import opened Runs

  /** What ends every token there is: a wrong PIN, a changed or locally set PIN once saved, a reset that is done. */
  predicate Ends(e: Event) {
    e.WrongGuess? || (e.PinWritten? && e.how != FirstSet && e.saved) || (e.WasReset? && e.done)
  }

  predicate OfToken(e: Event) { e.TokenIssued? || e.TokenUsed? || e.TokenGone? || Ends(e) }

  function TokenLog(log: seq<Event>): seq<Event> {
    if log == [] then [] else (if OfToken(log[0]) then [log[0]] else []) + TokenLog(log[1..])
  }

  lemma {:induction false} TokenLogConcat(a: seq<Event>, b: seq<Event>)
    ensures TokenLog(a + b) == TokenLog(a) + TokenLog(b)
  {
    if a == [] {
      assert a + b == b;
      assert [] + TokenLog(b) == TokenLog(b);
    } else {
      var first := if OfToken(a[0]) then [a[0]] else [];
      assert (a + b)[0] == a[0] && (a + b)[1..] == a[1..] + b;
      TokenLogConcat(a[1..], b);
      assert TokenLog(a + b) == first + (TokenLog(a[1..]) + TokenLog(b));
    }
  }

  lemma {:induction false} NoTokenEvents(events: seq<Event>)
    requires forall e <- events :: !OfToken(e)
    ensures TokenLog(events) == []
  {
    if events != [] { NoTokenEvents(events[1..]); }
  }

  lemma {:induction false} OnlyTokenEvents(events: seq<Event>)
    requires forall e <- events :: OfToken(e)
    ensures TokenLog(events) == events
  {
    if events != [] { OnlyTokenEvents(events[1..]); }
  }

  // ---------------------------------------------------------------- what one operation can do to the token

  datatype TokenStep =
    | Keep
    | Drop(enders: seq<Event>)
    | Use(permission: Byte, rpId: seq<Byte>, checked: nat, touched: nat)
    | Issue(permissions: Byte, boundTo: Option<seq<Byte>>, at: nat, bytes: Bytes32, delivered: bool)

  ghost predicate CanStep(m: Pins, t: TokenStep) {
    match t
    case Drop(enders) => forall e <- enders :: Ends(e)
    case Use(permission, rpId, checked, _) =>
      && m.token.Some? && checked <= m.token.value.expiry
      && (permission == PERM_MC || permission == PERM_GA) && HasPermission(m.token.value.permissions, permission)
      && (m.token.value.rpId.None? || m.token.value.rpId.value == rpId)
    case _ => true
  }

  ghost function StepEvents(m: Pins, t: TokenStep): seq<Event>
    requires CanStep(m, t)
  {
    match t
    case Keep => []
    case Drop(enders) => enders + Gone(m)
    case Use(permission, rpId, checked, touched) =>
      [TokenUsed(m.token.value.instance, permission, rpId, checked, touched)]
    case Issue(permissions, boundTo, at, _, delivered) =>
      Gone(m) + [TokenIssued(m.instances, permissions, boundTo, at)]
          + (if delivered then [] else [TokenGone(m.instances)])
  }

  ghost predicate Stepped(m: Pins, t: TokenStep, m': Pins)
    requires CanStep(m, t)
  {
    m'.idle == m.idle &&
    match t
    case Keep => m'.token == m.token && m'.instances == m.instances
    case Drop(_) => m'.token == None && m'.instances == m.instances
    case Use(_, rpId, _, touched) =>
      m'.instances == m.instances && m'.token == Some(m.token.value.(rpId := Some(rpId), expiry := touched + m.idle))
    case Issue(permissions, boundTo, at, bytes, delivered) =>
      m'.instances == m.instances + 1
      && m'.token == if delivered then Some(Token(m.instances, bytes, permissions, boundTo, at + m.idle)) else None
  }

  /** The operation took the token from m to m', with these events, by one step. */
  ghost predicate TokenStepOf(m: Pins, m': Pins, events: seq<Event>) {
    exists t :: CanStep(m, t) && Stepped(m, t, m') && TokenLog(events) == StepEvents(m, t)
  }

  lemma Kept(m: Pins, m': Pins, events: seq<Event>)
    requires m'.token == m.token && m'.instances == m.instances && m'.idle == m.idle
    requires forall e <- events :: !OfToken(e)
    ensures TokenStepOf(m, m', events)
  {
    NoTokenEvents(events);
    assert CanStep(m, Keep) && Stepped(m, Keep, m');
  }

  /** Other events, then what ends the token if anything does, then its end. */
  lemma Dropped(m: Pins, m': Pins, others: seq<Event>, enders: seq<Event>)
    requires m'.token == None && m'.instances == m.instances && m'.idle == m.idle
    requires (forall e <- others :: !OfToken(e)) && forall e <- enders :: Ends(e)
    ensures TokenStepOf(m, m', others + enders + Gone(m))
  {
    NoTokenEvents(others);
    OnlyTokenEvents(enders + Gone(m));
    TokenLogConcat(others, enders + Gone(m));
    assert others + enders + Gone(m) == others + (enders + Gone(m));
    assert CanStep(m, Drop(enders)) && Stepped(m, Drop(enders), m');
    assert TokenLog(others + enders + Gone(m)) == StepEvents(m, Drop(enders));
  }

  lemma DroppedAlone(m: Pins, m': Pins, enders: seq<Event>)
    requires m'.token == None && m'.instances == m.instances && m'.idle == m.idle && forall e <- enders :: Ends(e)
    ensures TokenStepOf(m, m', enders + Gone(m))
  {
    Dropped(m, m', [], enders);
    assert [] + enders == enders;
  }

  // ---------------------------------------------------------------- the operations

  lemma VerifySteps(c: Crypto, m: Pins, mac: seq<Byte>, protocol: nat, cdh: seq<Byte>, permission: Byte,
                    rpId: seq<Byte>, w: World)
    requires permission == PERM_MC || permission == PERM_GA
    ensures var (m', r, events) := Verify(c, m, mac, protocol, cdh, permission, rpId, w); TokenStepOf(m, m', events)
  {
    hide MacOk, HasPermission, TokenStepOf;
    var (m', r, events) := Verify(c, m, mac, protocol, cdh, permission, rpId, w);
    if r.Success? {
      UsedOnce(m, m', permission, rpId, w);
    } else if protocol == 2 && m.token.Some? && w.now > m.token.value.expiry {
      DroppedAlone(m, m', []);
      assert [] + Gone(m) == Gone(m);
    } else {
      Kept(m, m', []);
    }
  }

  lemma UsedOnce(m: Pins, m': Pins, permission: Byte, rpId: seq<Byte>, w: World)
    requires CanStep(m, Use(permission, rpId, w.now, w.later)) && m.token.Some?
    requires m' == m.(token := Some(m.token.value.(rpId := Some(rpId), expiry := w.later + m.idle)))
    ensures TokenStepOf(m, m', [TokenUsed(m.token.value.instance, permission, rpId, w.now, w.later)])
  {
    var t := Use(permission, rpId, w.now, w.later);
    var events := [TokenUsed(m.token.value.instance, permission, rpId, w.now, w.later)];
    OnlyTokenEvents(events);
    assert CanStep(m, t) && Stepped(m, t, m') && TokenLog(events) == StepEvents(m, t);
  }

  lemma CheckPinAuthSteps(c: Crypto, a: Auth, p: PinAuth, cdh: seq<Byte>, permission: Byte, rpId: seq<Byte>, w: World)
    requires permission == PERM_MC || permission == PERM_GA
    ensures var (m', r, events) := CheckPinAuth(c, a, p, cdh, permission, rpId, w); TokenStepOf(a.m, m', events)
  {
    hide Verify, TokenStepOf;
    Kept(a.m, a.m, []);
    if p.param.Some? && p.protocol.Some? {
      VerifySteps(c, a.m, p.param.value, p.protocol.value, cdh, permission, rpId, w);
    }
  }

  lemma CheckPinHashSteps(c: Crypto, d: Durable, m: Pins, s: Secret, enc: seq<Byte>, w: World)
    ensures var o := CheckPinHash(c, d, m, s, enc, w);
            TokenStepOf(m, o.m, o.events)
            && (o.r.Success? ==> o.events == [RightGuess] && o.m == m.(failures := 0))
            && (WrongGuess in o.events ==> o.m.token == None)
  {
    hide SetPin, Decrypt, FailureDelay, TokenStepOf;
    Kept(m, m, []);
    Kept(m, m.(failures := 0), [RightGuess]);
    DroppedAlone(m, Regenerate(m, w.newKeyAgreement).(failures := m.failures + 1), [WrongGuess]);
  }

  lemma WriteResult(d: Durable, m: Pins, hash: Bytes16, how: Writing, ok: bool)
    ensures var o := WritePin(d, m, hash, how, ok);
            o.m == m && o.events == [PinWritten(how, ok)] && (o.r.Success? <==> ok)
  {
    hide Serialize;
  }

  lemma ChangePinSteps(c: Crypto, d: Durable, m: Pins, key: seq<Byte>, hashEnc: seq<Byte>, newEnc: seq<Byte>,
                       mac: seq<Byte>, w: World)
    ensures var o := ChangePin(c, d, m, key, hashEnc, newEnc, mac, w);
            TokenStepOf(m, o.m, o.events) && (o.r.Success? ==> o.m.token == None)
  {
    hide SharedSecret, MacOk, PinFromPadded, CheckPinHash, WritePin, TokenStepOf;
    Kept(m, m, []);
    if s: Secret :| SharedSecret(c, m, key) == Success(s) {
      var check := CheckPinHash(c, d, m, s, hashEnc, w);
      CheckPinHashSteps(c, d, m, s, hashEnc, w);
      if check.r.Success? {
        assert [RightGuess] + [PinWritten(Changed, false)] == [RightGuess, PinWritten(Changed, false)];
        Kept(m, m.(failures := 0), [RightGuess, PinWritten(Changed, false)]);
        Dropped(m, DropToken(m.(failures := 0)), [RightGuess], [PinWritten(Changed, true)]);
        Kept(m, m.(failures := 0), [RightGuess]);
        if PinFromPadded(c, s, newEnc).Success? {
          WriteResult(check.d, check.m, PinFromPadded(c, s, newEnc).value, Changed, w.saves(2));
        }
      }
    }
  }

  lemma GetTokenSteps(c: Crypto, d: Durable, m: Pins, key: seq<Byte>, hashEnc: seq<Byte>, permissions: Byte,
                      rpId: Option<seq<Byte>>, w: World)
    ensures var o := GetToken(c, d, m, key, hashEnc, permissions, rpId, w);
            TokenStepOf(m, o.m, o.events)
                && (o.r.Success? ==> o.m.token.Some? && o.m.token.value.instance == m.instances)
  {
    hide SharedSecret, CheckPinHash, TokenStepOf;
    Kept(m, m, []);
    if s: Secret :| SharedSecret(c, m, key) == Success(s) {
      var check := CheckPinHash(c, d, m, s, hashEnc, w);
      CheckPinHashSteps(c, d, m, s, hashEnc, w);
      if check.r.Success? && w.tokenBytes.Some? {
        var o := GetToken(c, d, m, key, hashEnc, permissions, rpId, w);
        IssueSteps(m, o.m, Issue(permissions, rpId, w.later, w.tokenBytes.value, w.encrypts));
      }
    }
  }

  lemma IssueSteps(m: Pins, m': Pins, t: TokenStep)
    requires t.Issue? && Stepped(m, t, m')
    ensures TokenStepOf(m, m', [RightGuess] + Gone(m) + [TokenIssued(m.instances, t.permissions, t.boundTo, t.at)]
                               + (if t.delivered then [] else [TokenGone(m.instances)]))
    ensures t.delivered ==> TokenStepOf(m, m', [RightGuess] + Gone(m)
                                        + [TokenIssued(m.instances, t.permissions, t.boundTo, t.at)])
  {
    var events := StepEvents(m, t);
    NoTokenEvents([RightGuess]);
    OnlyTokenEvents(events);
    TokenLogConcat([RightGuess], events);
    var all := [RightGuess] + Gone(m) + [TokenIssued(m.instances, t.permissions, t.boundTo, t.at)]
               + (if t.delivered then [] else [TokenGone(m.instances)]);
    assert all == [RightGuess] + events;
    assert CanStep(m, t) && Stepped(m, t, m') && TokenLog(all) == StepEvents(m, t);
    if t.delivered {
      assert all == [RightGuess] + Gone(m) + [TokenIssued(m.instances, t.permissions, t.boundTo, t.at)];
    }
  }

  lemma HandlePinSteps(c: Crypto, a: Auth, p: PinCommand, w: World)
    ensures var o := HandlePin(c, a, p, w); TokenStepOf(a.m, o.a.m, o.events)
  {
    hide GetToken, ChangePin, TokenStepOf, SharedSecret, MacOk, PinFromPadded, SetPin;
    match p
    case SetPinCmd(key, newEnc, mac) =>
      Kept(a.m, a.m, []);
      Kept(a.m, a.m, [PinWritten(FirstSet, w.saves(0))]);
      Kept(a.m, a.m.(failures := 0), [PinWritten(FirstSet, w.saves(0))]);
    case ChangePinCmd(key, hashEnc, newEnc, mac) => ChangePinSteps(c, a.d, a.m, key, hashEnc, newEnc, mac, w);
    case GetTokenCmd(key, hashEnc) => GetTokenSteps(c, a.d, a.m, key, hashEnc, PERM_MC + PERM_GA, None, w);
    case GetPermittedTokenCmd(key, hashEnc, permissions, rpId) =>
      Kept(a.m, a.m, []);
      if permissions <= 0xFF { GetTokenSteps(c, a.d, a.m, key, hashEnc, permissions, rpId, w); }
  }

  lemma AppendOthers(m: Pins, m': Pins, events: seq<Event>, others: seq<Event>)
    requires TokenStepOf(m, m', events) && forall e <- others :: !OfToken(e)
    ensures TokenStepOf(m, m', events + others)
  {
    NoTokenEvents(others);
    TokenLogConcat(events, others);
    assert TokenLog(events) + [] == TokenLog(events);
  }

  lemma BuildEvents(a: Auth, cred: Credential, flags: Byte, bump: bool, withSecret: bool, total: Option<nat>, w: World)
    ensures var o := BuildAssertion(a, cred, flags, bump, withSecret, total, w);
            o.a.m == a.m && forall e <- o.events :: !OfToken(e)
  {
    hide UpdateCountAndUsed;
  }

  lemma AssertFirstEvents(a: Auth, rows: seq<Credential>, up: bool, uv: bool, withSecret: bool, w: World)
    requires rows != []
    ensures var o := AssertFirst(a, rows, up, uv, withSecret, w); o.a.m == a.m && forall e <- o.events :: !OfToken(e)
  {
    hide BuildAssertion, SortByUse;
    forall a1: Auth, cred, flags, bump, secret, total | a1.m == a.m
      ensures var o := BuildAssertion(a1, cred, flags, bump, secret, total, w);
              o.a.m == a.m && forall e <- o.events :: !OfToken(e)
    {
      BuildEvents(a1, cred, flags, bump, secret, total, w);
    }
  }

  lemma GetAssertionSteps(c: Crypto, a: Auth, q: AssertionRequest, w: World)
    ensures var o := GetAssertion(c, a, q, w); TokenStepOf(a.m, o.a.m, o.events)
  {
    hide AssertFirst, CheckPinAuth, Candidates, TokenStepOf;
    var a0 := a.(stash := None);
    Kept(a.m, a.m, []);
    CheckPinAuthSteps(c, a0, q.pinAuth, q.clientDataHash, PERM_GA, q.rpId, w);
    var (m, uv, used) := CheckPinAuth(c, a0, q.pinAuth, q.clientDataHash, PERM_GA, q.rpId, w);
    var rows := Candidates(a.d.mem.creds, c.sha256(q.rpId), q.allowList);
    if rows != [] && uv.Success? {
      AssertFirstEvents(a0.(m := m), rows, q.up.GetOr(true), uv.value, q.hmacSecret, w);
      AppendOthers(a.m, m, used, AssertFirst(a0.(m := m), rows, q.up.GetOr(true), uv.value, q.hmacSecret, w).events);
    }
  }

  lemma GetNextSteps(a: Auth, w: World)
    ensures var o := GetNextAssertion(a, w); TokenStepOf(a.m, o.a.m, o.events)
  {
    hide BuildAssertion, TokenStepOf;
    Kept(a.m, a.m, []);
    if a.stash.Some? && a.stash.value.remaining != [] {
      var s := a.stash.value;
      var o := BuildAssertion(a, s.remaining[0], s.flags, s.bump, s.withSecret, None, w);
      BuildEvents(a, s.remaining[0], s.flags, s.bump, s.withSecret, None, w);
      Kept(a.m, o.a.m, o.events);
    }
  }

  lemma MakeCredentialSteps(c: Crypto, a: Auth, q: CredentialRequest, w: World)
    ensures var o := MakeCredential(c, a, q, w); TokenStepOf(a.m, o.a.m, o.events)
  {
    hide CheckPinAuth, Excluded, CheckRequest, EraseSameUser, Put, FindByRp, NewRow, TokenStepOf;
    Kept(a.m, a.m, []);
    CheckPinAuthSteps(c, a, q.pinAuth, q.clientDataHash, PERM_MC, q.rpId, w);
    var (m, gate, used) := RegistrationGates(c, a, q, w);
    if w.newKey.Some? && gate.Success? {
      var o := AddCredential(c, a.(m := m), q, w.newKey.value, gate.value, w);
      assert o.a.m == m && forall e <- o.events :: !OfToken(e);
      AppendOthers(a.m, m, used, o.events);
    }
  }

  lemma ResetSteps(a: Auth, w: World)
    ensures var o := Reset(a, w); TokenStepOf(a.m, o.a.m, o.events)
  {
    hide FactoryReset, TokenStepOf;
    Kept(a.m, a.m, []);
    Kept(a.m, a.m, [WasReset(false)]);
    DroppedAlone(a.m, Regenerate(a.m, w.newKeyAgreement), [WasReset(true)]);
  }

  lemma CtlSetPinSteps(c: Crypto, a: Auth, pin: seq<Byte>, w: World)
    ensures var o := CtlSetPin(c, a, pin, w); TokenStepOf(a.m, o.a.m, o.events)
  {
    hide WritePin, PolicyOk, TokenStepOf;
    Kept(a.m, a.m, []);
    Kept(a.m, a.m, [PinWritten(SetLocally, false)]);
    DroppedAlone(a.m, DropToken(a.m).(failures := 0), [PinWritten(SetLocally, true)]);
    WriteResult(a.d, a.m, PinHash(c, pin), SetLocally, w.saves(0));
  }

  lemma ApplySteps(c: Crypto, a: Auth, op: Op, w: World)
    ensures var (a', events) := Apply(c, a, op, w); TokenStepOf(a.m, a'.m, events)
  {
    hide HandlePin, MakeCredential, GetAssertion, GetNextAssertion, Reset, CtlSetPin, TokenStepOf, Put, Erase,
         SetU2fAttestation, UpdateCountAndUsed, Find, FindById;
    Kept(a.m, a.m, []);
    match op
    case EmptyRequest =>
    case Cbor(cmd) =>
      var a0 := if cmd.GetNextAssertionCmd? then a else a.(stash := None);
      match cmd {
        case MakeCredentialCmd(q) => MakeCredentialSteps(c, a0, q, w);
        case GetAssertionCmd(q) => GetAssertionSteps(c, a0, q, w);
        case GetNextAssertionCmd => GetNextSteps(a0, w);
        case PinCmd(p) => HandlePinSteps(c, a0, p, w);
        case ResetCmd => ResetSteps(a0, w);
        case Harmless(_) =>
      }
    case U2fRegisterOp(application) =>
    case U2fAuthenticateOp(control, application, keyHandle) =>
      var o := U2fAuthenticate(a, control, application, keyHandle, w);
      Kept(a.m, o.0.m, o.2);
    case CtlResetOp => ResetSteps(a, w);
    case CtlSetPinOp(pin) => CtlSetPinSteps(c, a, pin, w);
    case CtlDeleteOp(id) =>
  }

  // ---------------------------------------------------------------- the invariant

  /** When the token instance n was last issued or used. */
  function LastTouch(log: seq<Event>, n: nat): nat {
    if log == [] then 0
    else
      var e := log[|log| - 1];
      if e.TokenIssued? && e.instance == n then e.at
      else if e.TokenUsed? && e.instance == n then e.touched
      else LastTouch(log[..|log| - 1], n)
  }

  ghost predicate Grants(before: seq<Event>, e: Event, i: nat)
    requires e.TokenUsed?
  {
    i < |before| && before[i].TokenIssued? && before[i].instance == e.instance
    && (e.permission == PERM_MC || e.permission == PERM_GA) && HasPermission(before[i].permissions, e.permission)
    && (before[i].boundTo.Some? ==> before[i].boundTo.value == e.rpId)
  }

  /** Nothing from i on ended the tokens there are. */
  ghost predicate NotEndedSince(log: seq<Event>, i: nat) { forall k :: i <= k < |log| ==> !Ends(log[k]) }

  /** A use of a token is in order: it was issued with the permission (and for this relying party, if for one), was
      not dropped and nothing ended it since, was only used for this relying party, and last touched at most idle
      ago. */
  ghost predicate UseOk(before: seq<Event>, e: Event, idle: nat)
    requires e.TokenUsed?
  {
    && (exists i: nat :: Grants(before, e, i) && NotEndedSince(before, i))
    && TokenGone(e.instance) !in before
    && (forall u <- before :: u.TokenUsed? && u.instance == e.instance ==> u.rpId == e.rpId)
    && e.checked <= LastTouch(before, e.instance) + idle
  }

  ghost predicate WellUsed(log: seq<Event>, idle: nat) {
    forall k :: 0 <= k < |log| && log[k].TokenUsed? ==> UseOk(log[..k], log[k], idle)
  }

  ghost predicate IssuedOnce(log: seq<Event>) {
    forall i, j :: 0 <= i < j < |log| && log[i].TokenIssued? && log[j].TokenIssued?
        ==> log[i].instance != log[j].instance
  }

  ghost predicate IssuedAs(log: seq<Event>, t: Token, i: nat) {
    i < |log| && NotEndedSince(log, i) && log[i].TokenIssued? && log[i].instance == t.instance
        && log[i].permissions == t.permissions
    && (log[i].boundTo.Some? ==> t.rpId == log[i].boundTo)
  }

  ghost predicate TokenInv(m: Pins, log: seq<Event>) {
    && (forall e <- log :: OfToken(e) && (Ends(e) || e.instance < m.instances))
    && WellUsed(log, m.idle) && IssuedOnce(log)
    && (m.token.Some? ==>
          var t := m.token.value;
          && t.instance < m.instances
          && (exists i :: IssuedAs(log, t, i))
          && TokenGone(t.instance) !in log
          && (forall u <- log :: u.TokenUsed? && u.instance == t.instance ==> t.rpId == Some(u.rpId))
          && t.expiry == LastTouch(log, t.instance) + m.idle)
  }

  lemma WellUsedMore(log: seq<Event>, e: Event, idle: nat)
    requires WellUsed(log, idle) && (e.TokenUsed? ==> UseOk(log, e, idle))
    ensures WellUsed(log + [e], idle)
  {
    hide UseOk;
    forall k | 0 <= k < |log| + 1 && (log + [e])[k].TokenUsed? ensures UseOk((log + [e])[..k], (log + [e])[k], idle) {
      assert (log + [e])[..k] == log[..k];
      if k == |log| { assert log[..k] == log; }
    }
  }

  lemma LastTouchMore(log: seq<Event>, e: Event, n: nat)
    ensures LastTouch(log + [e], n)
         == if e.TokenIssued? && e.instance == n then e.at
            else if e.TokenUsed? && e.instance == n then e.touched else LastTouch(log, n)
  {
    assert (log + [e])[..|log|] == log;
  }

  /** Events that neither issue nor use a token leave the history in order, and no token is left. */
  lemma {:induction false} EndKeeps(m: Pins, log: seq<Event>, events: seq<Event>)
    requires TokenInv(m, log)
    requires forall e <- events :: Ends(e) || (e.TokenGone? && e.instance < m.instances)
    ensures TokenInv(DropToken(m), log + events)
    decreases |events|
  {
    hide UseOk, WellUsed;
    if events == [] {
      assert log + [] == log;
    } else {
      WellUsedMore(log, events[0], m.idle);
      assert log + events == log + [events[0]] + events[1..];
      EndKeeps(DropToken(m), log + [events[0]], events[1..]);
    }
  }

  lemma GoneKeeps(m: Pins, log: seq<Event>)
    requires TokenInv(m, log)
    ensures TokenInv(DropToken(m), log + Gone(m))
  {
    hide UseOk, WellUsed, IssuedOnce;
    EndKeeps(m, log, Gone(m));
  }

  lemma UseKeeps(m: Pins, log: seq<Event>, t: TokenStep, m': Pins)
    requires TokenInv(m, log) && t.Use? && CanStep(m, t) && Stepped(m, t, m')
    ensures TokenInv(m', log + StepEvents(m, t))
  {
    hide WellUsed, HasPermission;
    var e := StepEvents(m, t)[0];
    var tok := m.token.value;
    var i: nat :| IssuedAs(log, tok, i);
    assert Grants(log, e, i) && NotEndedSince(log, i);
    assert UseOk(log, e, m.idle);
    WellUsedMore(log, e, m.idle);
    LastTouchMore(log, e, tok.instance);
    assert IssuedAs(log + [e], m'.token.value, i);
  }

  lemma IssueKeeps(m: Pins, log: seq<Event>, t: TokenStep, m': Pins)
    requires TokenInv(m, log) && m.token.None? && t.Issue? && t.delivered && Stepped(m, t, m')
    ensures TokenInv(m', log + [TokenIssued(m.instances, t.permissions, t.boundTo, t.at)])
  {
    hide UseOk, WellUsed;
    var e := TokenIssued(m.instances, t.permissions, t.boundTo, t.at);
    WellUsedMore(log, e, m.idle);
    LastTouchMore(log, e, m.instances);
    assert IssuedAs(log + [e], m'.token.value, |log|);
  }

  lemma DropKeeps(m: Pins, log: seq<Event>, enders: seq<Event>)
    requires TokenInv(m, log) && forall e <- enders :: Ends(e)
    ensures TokenInv(DropToken(m), log + (enders + Gone(m)))
  {
    hide UseOk, WellUsed, IssuedOnce, Ends;
    EndKeeps(m, log, enders + Gone(m));
  }

  lemma StepKeeps(m: Pins, log: seq<Event>, t: TokenStep, m': Pins)
    requires TokenInv(m, log) && CanStep(m, t) && Stepped(m, t, m')
    ensures TokenInv(m', log + StepEvents(m, t))
  {
    hide WellUsed, LastTouch, IssuedAs, IssuedOnce, Ends;
    match t
    case Keep => assert log + [] == log;
    case Drop(enders) => DropKeeps(m, log, enders);
    case Use(_, _, _, _) => UseKeeps(m, log, t, m');
    case Issue(permissions, boundTo, at, bytes, delivered) =>
      var m1 := DropToken(m);
      var token := Token(m.instances, bytes, permissions, boundTo, at + m.idle);
      var fresh' := m1.(instances := m.instances + 1, token := Some(token));
      var issued := TokenIssued(m.instances, permissions, boundTo, at);
      GoneKeeps(m, log);
      IssueKeeps(m1, log + Gone(m), t.(delivered := true), fresh');
      if delivered {
        assert log + StepEvents(m, t) == log + Gone(m) + [issued];
        SameTokenInv(fresh', m', log + Gone(m) + [issued]);
      } else {
        GoneKeeps(fresh', log + Gone(m) + [issued]);
        assert log + StepEvents(m, t) == log + Gone(m) + [issued] + [TokenGone(m.instances)];
        SameTokenInv(DropToken(fresh'), m', log + StepEvents(m, t));
      }
  }

  lemma SameTokenInv(m: Pins, m': Pins, log: seq<Event>)
    requires TokenInv(m, log) && m'.token == m.token && m'.instances == m.instances && m'.idle == m.idle
    ensures TokenInv(m', log)
  {
  }

  lemma {:induction false} TokenLogFirst(a: seq<Event>, b: seq<Event>)
    requires a <= b
    ensures TokenLog(a) <= TokenLog(b)
  {
    TokenLogConcat(a, b[|a|..]);
    assert b == a + b[|a|..];
  }

  /** Whatever part of the history a crash leaves is in order, and there is no token. */
  lemma ShorterKeeps(m: Pins, log: seq<Event>, longer: seq<Event>)
    requires TokenInv(m, longer) && log <= longer
    ensures TokenInv(DropToken(m), log)
  {
    hide UseOk;
    assert forall k :: 0 <= k < |log| ==> log[k] == longer[k] && log[..k] == longer[..k];
    assert forall e <- log :: e in longer;
  }

  lemma AfterKeepsTokens(c: Crypto, h: Hist, x: Happening)
    requires TokenInv(h.a.m, TokenLog(h.log))
    ensures TokenInv(After(c, h, x).a.m, TokenLog(After(c, h, x).log)) && After(c, h, x).a.m.idle == h.a.m.idle
  {
    hide TokenInv, Apply, TokenLog, Happened, Recovered;
    var (a, events) := Apply(c, h.a, x.op, x.w);
    ApplySteps(c, h.a, x.op, x.w);
    var t :| CanStep(h.a.m, t) && Stepped(h.a.m, t, a.m) && TokenLog(events) == StepEvents(h.a.m, t);
    StepKeeps(h.a.m, TokenLog(h.log), t, a.m);
    TokenLogConcat(h.log, events);
    if x.crash.Some? {
      var happened := h.log + Happened(events, x.crash.value.happened, x.w);
      HappenedFirst(h.log, events, x.crash.value.happened, x.w);
      TokenLogFirst(happened, h.log + events);
      ShorterKeeps(a.m, TokenLog(happened), TokenLog(h.log + events));
      CrashDrops(a.m, TokenLog(h.log + events), TokenLog(happened));
      TokenLogConcat(happened, Gone(a.m));
      GoneIsToken(a.m);
      SameTokenInv(DropToken(a.m), After(c, h, x).a.m, TokenLog(After(c, h, x).log));
    }
  }

  lemma GoneIsToken(m: Pins)
    ensures TokenLog(Gone(m)) == Gone(m)
  {
    OnlyTokenEvents(Gone(m));
  }

  lemma CrashDrops(m: Pins, log: seq<Event>, happened: seq<Event>)
    requires TokenInv(m, log) && TokenInv(DropToken(m), happened)
    ensures TokenInv(DropToken(m), happened + Gone(m))
  {
    hide UseOk, WellUsed, IssuedOnce;
    EndKeeps(DropToken(m), happened, Gone(m));
  }

  lemma {:induction false} RunKeepsTokens(c: Crypto, h: Hist, xs: seq<Happening>)
    requires TokenInv(h.a.m, TokenLog(h.log))
    ensures TokenInv(Run(c, h, xs).a.m, TokenLog(Run(c, h, xs).log)) && Run(c, h, xs).a.m.idle == h.a.m.idle
    decreases |xs|
  {
    hide TokenInv, After, TokenLog;
    if xs != [] {
      AfterKeepsTokens(c, h, xs[0]);
      RunKeepsTokens(c, After(c, h, xs[0]), xs[1..]);
    }
  }

  /** In any run, each token is issued once, and every successful verification is a proper use of its token: see
      UseOk. */
  lemma TokensWellUsed(c: Crypto, h: Hist, xs: seq<Happening>)
    requires Starts(h)
    ensures WellUsed(TokenLog(Run(c, h, xs).log), h.a.m.idle) && IssuedOnce(TokenLog(Run(c, h, xs).log))
  {
    hide StoreInv, OnDisk, Run, WellUsed, LastTouch, IssuedOnce;
    NothingYet(h.a.m);
    RunKeepsTokens(c, h, xs);
  }

  /** In any run, a token used after a wrong PIN, a saved PIN change or local PIN set, or a finished reset was issued
      after it, and only then. */
  lemma EndedForGood(c: Crypto, h: Hist, xs: seq<Happening>, i: nat, j: nat)
    requires Starts(h)
    requires var log := TokenLog(Run(c, h, xs).log); i < j < |log| && Ends(log[i]) && log[j].TokenUsed?
    ensures var log := TokenLog(Run(c, h, xs).log);
            && (exists k :: i < k < j && log[k].TokenIssued? && log[k].instance == log[j].instance)
            && (forall k :: 0 <= k <= i && log[k].TokenIssued? ==> log[k].instance != log[j].instance)
  {
    hide StoreInv, OnDisk, Run, TokenLog, Ends, LastTouch;
    TokensWellUsed(c, h, xs);
    var log := TokenLog(Run(c, h, xs).log);
    var k: nat :| Grants(log[..j], log[j], k) && NotEndedSince(log[..j], k);
    assert log[..j][i] == log[i] && log[..j][k] == log[k];
  }

  lemma NothingYet(m: Pins)
    requires m.token.None?
    ensures TokenInv(m, TokenLog([]))
  {
  }

  /** What ends a token: a wrong PIN, a PIN change, a local PIN set, a crash, and a reset if and only if the store's
      own reset succeeded. */
  lemma TokenEnders(c: Crypto, a: Auth, w: World, s: Secret, enc: seq<Byte>, key: seq<Byte>, newEnc: seq<Byte>,
                    mac: seq<Byte>, pin: seq<Byte>, installId: Bytes16)
    ensures WrongGuess in CheckPinHash(c, a.d, a.m, s, enc, w).events
            ==> CheckPinHash(c, a.d, a.m, s, enc, w).m.token == None
    ensures ChangePin(c, a.d, a.m, key, enc, newEnc, mac, w).r.Success?
            ==> ChangePin(c, a.d, a.m, key, enc, newEnc, mac, w).m.token == None
    ensures CtlSetPin(c, a, pin, w).r.Success? ==> CtlSetPin(c, a, pin, w).a.m.token == None
    ensures w.presence == Allow && a.m.token.Some?
            ==> (Reset(a, w).a.m.token == None <==> w.reset.resetOk && w.reset.saveOk)
    ensures Recover(a, installId, w).0.m.token == None
  {
    hide SetPin, PolicyOk, CheckPinHash, ChangePin, TokenStepOf, Serialize, Recovered;
    CheckPinHashSteps(c, a.d, a.m, s, enc, w);
    ChangePinSteps(c, a.d, a.m, key, enc, newEnc, mac, w);
  }
}
