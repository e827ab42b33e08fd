/** Whether the daemon starts again on its own file, over runs: exactly when a reset has lost the file's key. */
module RunsStarts {
  import opened Bytes
  import opened StoreCodec
  import opened Store
  import opened World
  import opened ClientPin
  import opened Authenticator
  import opened Runs

  /** The file and its key as they were, or saved anew under the persister's key. */
  ghost predicate KeyFollows(d: Durable, d': Durable) {
    && d'.held == d.held
    && ((d'.disk == d.disk && d'.opens == d.opens) || (d'.disk.Some? && d'.opens == d.held))
  }

  lemma FollowsTwice(d: Durable, d1: Durable, d2: Durable)
    requires KeyFollows(d, d1) && KeyFollows(d1, d2)
    ensures KeyFollows(d, d2)
  {
  }

  // ---------------------------------------------------------------- store operations

  lemma EraseFollows(d: Durable, id: seq<Byte>, ok: bool)
    ensures KeyFollows(d, Erase(d, id, ok).0)
  {
    hide Serialize;
  }

  lemma PutFollows(d: Durable, row: Credential, ok: bool)
    ensures KeyFollows(d, Put(d, row, ok).0)
  {
    hide Serialize, RowValid;
  }

  lemma UpdateFollows(d: Durable, id: seq<Byte>, count: U32, now: U64, ok: bool)
    ensures KeyFollows(d, UpdateCountAndUsed(d, id, count, now, ok).0)
  {
    hide Serialize;
  }

  lemma PinFollows(d: Durable, pin: PinState, ok: bool)
    ensures KeyFollows(d, SetPin(d, pin, ok).0)
  {
    hide Serialize;
  }

  lemma U2fFollows(d: Durable, u: U2fAttestation, ok: bool)
    ensures KeyFollows(d, SetU2fAttestation(d, u, ok).0)
  {
    hide Serialize;
  }

  // ---------------------------------------------------------------- the authenticator's operations

  lemma BuildFollows(a: Auth, cred: Credential, flags: Byte, bump: bool, withSecret: bool, total: Option<nat>, w: World)
    ensures KeyFollows(a.d, BuildAssertion(a, cred, flags, bump, withSecret, total, w).a.d)
  {
    hide UpdateCountAndUsed;
    UpdateFollows(a.d, cred.credId, (cred.signCount + 1) % TWO32, w.unix, w.saves(0));
  }

  lemma AssertFirstFollows(a: Auth, rows: seq<Credential>, up: bool, uv: bool, withSecret: bool, w: World)
    requires rows != []
    ensures KeyFollows(a.d, AssertFirst(a, rows, up, uv, withSecret, w).a.d)
  {
    hide KeyFollows, BuildAssertion, SortByUse;
    forall b: Auth, cred, flags, bump, secret, total | b.d == a.d
      ensures KeyFollows(a.d, BuildAssertion(b, cred, flags, bump, secret, total, w).a.d)
    {
      BuildFollows(b, cred, flags, bump, secret, total, w);
    }
  }

  lemma GetAssertionFollows(c: Crypto, a: Auth, q: AssertionRequest, w: World)
    ensures KeyFollows(a.d, GetAssertion(c, a, q, w).a.d)
  {
    hide AssertFirst, CheckPinAuth, Candidates;
    var (m, uv, used) := CheckPinAuth(c, a.(stash := None), q.pinAuth, q.clientDataHash, PERM_GA, q.rpId, w);
    var rows := Candidates(a.d.mem.creds, c.sha256(q.rpId), q.allowList);
    if rows != [] && uv.Success? {
      AssertFirstFollows(a.(stash := None, m := m), rows, q.up.GetOr(true), uv.value, q.hmacSecret, w);
    }
  }

  lemma GetNextFollows(a: Auth, w: World)
    ensures KeyFollows(a.d, GetNextAssertion(a, w).a.d)
  {
    hide BuildAssertion;
    if a.stash.Some? && a.stash.value.remaining != [] {
      var s := a.stash.value;
      BuildFollows(a, s.remaining[0], s.flags, s.bump, s.withSecret, None, w);
    }
  }

  lemma {:induction false} EraseSameUserFollows(d: Durable, olds: seq<Credential>, userId: seq<Byte>, w: World, i: nat)
    ensures KeyFollows(d, EraseSameUser(d, olds, userId, w, i).0)
    decreases |olds|
  {
    hide Erase;
    if olds != [] {
      var d1 := Erase(d, olds[0].credId, w.saves(i)).0;
      EraseFollows(d, olds[0].credId, w.saves(i));
      EraseSameUserFollows(d1, olds[1..], userId, w, i + 1);
      EraseSameUserFollows(d, olds[1..], userId, w, i);
      FollowsTwice(d, d1, EraseSameUser(d1, olds[1..], userId, w, i + 1).0);
    }
  }

  lemma MakeCredentialFollows(c: Crypto, a: Auth, q: CredentialRequest, w: World)
    ensures KeyFollows(a.d, MakeCredential(c, a, q, w).a.d)
  {
    hide RegistrationGates, EraseSameUser, FindByRp, Put, NewRow;
    var (m, gate, used) := RegistrationGates(c, a, q, w);
    if w.newKey.Some? {
      var row := NewRow(q, c.sha256(q.rpId), w.newKey.value, w.unix);
      var olds := FindByRp(a.d.mem.creds, c.sha256(q.rpId));
      var (d1, i) := EraseSameUser(a.d, olds, q.userId, w, 0);
      EraseSameUserFollows(a.d, olds, q.userId, w, 0);
      PutFollows(d1, row, w.saves(i));
      FollowsTwice(a.d, d1, Put(d1, row, w.saves(i)).0);
    }
  }

  lemma U2fRegisterFollows(a: Auth, application: Bytes32, w: World)
    ensures KeyFollows(a.d, U2fRegister(a, application, w).0.d)
  {
    hide Put, SetU2fAttestation, U2fCredential;
    if w.attestation.Some? {
      var dA := SetU2fAttestation(a.d, w.attestation.value, w.saves(1)).0;
      U2fFollows(a.d, w.attestation.value, w.saves(1));
      if w.newKey.Some? {
        var row := U2fCredential(application, w.newKey.value, w.unix);
        PutFollows(a.d, row, w.saves(0));
        PutFollows(dA, row, w.saves(0));
        FollowsTwice(a.d, dA, Put(dA, row, w.saves(0)).0);
      }
    }
  }

  lemma CheckPinHashFollows(c: Crypto, d: Durable, m: Pins, s: Secret, enc: seq<Byte>, w: World)
    ensures KeyFollows(d, CheckPinHash(c, d, m, s, enc, w).d)
  {
    hide SetPin, Decrypt, FailureDelay;
    if d.mem.pin.retries > 0 {
      var spent := d.mem.pin.(retries := d.mem.pin.retries - 1);
      var d1 := SetPin(d, spent, w.saves(0)).0;
      PinFollows(d, spent, w.saves(0));
      PinFollows(d1, spent.(retries := MAX_RETRIES), w.saves(1));
      FollowsTwice(d, d1, SetPin(d1, spent.(retries := MAX_RETRIES), w.saves(1)).0);
    }
  }

  lemma HandlePinFollows(c: Crypto, a: Auth, p: PinCommand, w: World)
    ensures KeyFollows(a.d, HandlePin(c, a, p, w).a.d)
  {
    hide SetPin, CheckPinHash, SharedSecret, MacOk, PinFromPadded, KeyFollows;
    FollowsItself(a.d);
    forall s: Secret, enc ensures KeyFollows(a.d, CheckPinHash(c, a.d, a.m, s, enc, w).d) {
      CheckPinHashFollows(c, a.d, a.m, s, enc, w);
    }
    forall d: Durable, pin: PinState, ok | KeyFollows(a.d, d) ensures KeyFollows(a.d, SetPin(d, pin, ok).0) {
      PinFollows(d, pin, ok);
      FollowsTwice(a.d, d, SetPin(d, pin, ok).0);
    }
  }

  lemma FollowsItself(d: Durable)
    ensures KeyFollows(d, d)
  {
  }

  lemma SocketFollows(c: Crypto, a: Auth, pin: seq<Byte>, id: seq<Byte>, w: World)
    ensures KeyFollows(a.d, CtlSetPin(c, a, pin, w).a.d) && KeyFollows(a.d, CtlDelete(a, id, w).a.d)
  {
    hide SetPin, PolicyOk, Erase, FindById;
    PinFollows(a.d, PinState(Some(PinHash(c, pin)), MAX_RETRIES), w.saves(0));
    EraseFollows(a.d, id, w.saves(0));
  }

  lemma U2fAuthenticateFollows(a: Auth, control: Byte, application: Bytes32, keyHandle: seq<Byte>, w: World)
    ensures KeyFollows(a.d, U2fAuthenticate(a, control, application, keyHandle, w).0.d)
  {
    hide UpdateCountAndUsed, Find;
    var cred := Find(a.d.mem.creds, application, keyHandle);
    if cred.Some? {
      UpdateFollows(a.d, cred.value.credId, (cred.value.signCount + 1) % TWO32, w.unix, w.saves(0));
    }
  }

  predicate IsReset(op: Op) { op.CtlResetOp? || (op.Cbor? && op.cmd.ResetCmd?) }

  lemma ApplyFollows(c: Crypto, a: Auth, op: Op, w: World)
    requires !IsReset(op)
    ensures KeyFollows(a.d, Apply(c, a, op, w).0.d)
  {
    hide KeyFollows, HandlePin, MakeCredential, GetAssertion, GetNextAssertion, CtlSetPin, CtlDelete, U2fRegister,
         U2fAuthenticate;
    FollowsItself(a.d);
    var a0 := a.(stash := None);
    match op
    case EmptyRequest =>
    case Cbor(cmd) =>
      match cmd {
        case MakeCredentialCmd(q) => MakeCredentialFollows(c, a0, q, w);
        case GetAssertionCmd(q) => GetAssertionFollows(c, a0, q, w);
        case GetNextAssertionCmd => GetNextFollows(a, w);
        case PinCmd(p) => HandlePinFollows(c, a0, p, w);
        case Harmless(_) =>
      }
    case U2fRegisterOp(application) => U2fRegisterFollows(a, application, w);
    case U2fAuthenticateOp(control, application, keyHandle) =>
      U2fAuthenticateFollows(a, control, application, keyHandle, w);
    case CtlSetPinOp(pin) => SocketFollows(c, a, pin, [], w);
    case CtlDeleteOp(id) => SocketFollows(c, a, [], id, w);
  }

  // ---------------------------------------------------------------- over runs

  /** A reset that the user allows stores its key, and removes the old file or saves over it. */
  predicate KeySafe(x: Happening) {
    var o := x.w.reset;
    IsReset(x.op) && x.w.presence == Allow ==> o.resetOk && (o.wiped || o.saveOk)
  }

  lemma RecoveredStarts(d: Durable, installId: Bytes16)
    ensures Recovered(d, installId).held && StartsAgain(Recovered(d, installId))
  {
    hide Load, Serialize;
  }

  lemma StepStarts(c: Crypto, h: Hist, x: Happening)
    requires StartsAgain(h.a.d) && h.a.d.held && KeySafe(x)
    ensures StartsAgain(Apply(c, h.a, x.op, x.w).0.d)
    ensures var d := After(c, h, x).a.d; StartsAgain(d) && d.held
  {
    hide HandlePin, MakeCredential, GetAssertion, GetNextAssertion, CtlSetPin, CtlDelete, U2fRegister, U2fAuthenticate,
         Serialize, Recovered, Happened;
    if !IsReset(x.op) {
      ApplyFollows(c, h.a, x.op, x.w);
    }
    if x.crash.Some? {
      RecoveredStarts(Apply(c, h.a, x.op, x.w).0.d, x.crash.value.installId);
    }
  }

  /** The daemon could start on its own file after every operation, finished or cut off. */
  ghost predicate StartsThroughout(c: Crypto, h: Hist, xs: seq<Happening>)
    decreases |xs|
  {
    xs == [] || (StartsAgain(Apply(c, h.a, xs[0].op, xs[0].w).0.d) && StartsThroughout(c, After(c, h, xs[0]), xs[1..]))
  }

  /** In any run whose resets are key-safe, whatever other saves fail and wherever the daemon crashes, it can start
      again on its own file at every moment. */
  lemma {:induction false} AlwaysStartsAgain(c: Crypto, h: Hist, xs: seq<Happening>)
    requires StartsAgain(h.a.d) && h.a.d.held && forall x <- xs :: KeySafe(x)
    ensures StartsThroughout(c, h, xs)
    decreases |xs|
  {
    hide StartsAgain, KeySafe, After, Apply;
    if xs != [] {
      StepStarts(c, h, xs[0]);
      AlwaysStartsAgain(c, After(c, h, xs[0]), xs[1..]);
    }
  }

  /** Once a reset has removed the file and could not store the new key, and until the daemon is reset or restarted,
      it can start again if and only if nothing has been saved since: the first file written is lost with its key. */
  lemma {:induction false} LostKeyExactly(c: Crypto, h: Hist, xs: seq<Happening>)
    requires !h.a.d.held && (StartsAgain(h.a.d) <==> h.a.d.disk.None?)
    requires forall x <- xs :: !IsReset(x.op) && x.crash.None?
    ensures var d := Run(c, h, xs).a.d; !d.held && (StartsAgain(d) <==> d.disk.None?)
    decreases |xs|
  {
    hide Apply, IsReset;
    if xs != [] {
      ApplyFollows(c, h.a, xs[0].op, xs[0].w);
      LostKeyExactly(c, After(c, h, xs[0]), xs[1..]);
    }
  }

  /** Two commands are enough, from any state: a reset that fails so, and a PIN set from the control socket. */
  lemma ResetCanLoseKey(c: Crypto, h: Hist, w: World, pin: seq<Byte>)
    requires w.presence == Allow && w.reset.wiped && !w.reset.resetOk && w.saves(0) && PolicyOk(pin)
    ensures var xs := [Happening(CtlResetOp, w, None), Happening(CtlSetPinOp(pin), w, None)];
            !StartsAgain(Run(c, h, xs).a.d)
  {
    hide Serialize, PolicyOk;
    var x, y := Happening(CtlResetOp, w, None), Happening(CtlSetPinOp(pin), w, None);
    assert [x, y][1..] == [y] && [y][1..] == [];
    assert Run(c, After(c, h, x), [y]) == Run(c, After(c, After(c, h, x), y), []);
  }
}
