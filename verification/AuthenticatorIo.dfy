/** The Authenticator object of include/swpasskey/ctap/authenticator.hpp: the commands of src/ctap/get_assertion.cpp,
    make_credential.cpp, u2f.cpp and authenticator.cpp over the store and PIN manager objects. */
module AuthenticatorIo {
  import opened Bytes
  import opened Statuses
  import opened StoreCodec
  import opened Store
  import opened StoreIo
  import opened World
  import opened ClientPin
  import opened ClientPinIo
  import A = Authenticator

  class Authenticator {
    const crypto: Crypto
    const store: CredentialStore
    const pins: PinManager
    var next: Option<A.Stash>  // next_state_

    ghost predicate Valid()
      reads this
    {
      pins.store == store && pins.crypto == crypto
    }

    ghost function State(): A.Auth
      reads this, store, pins
    {
      A.Auth(store.Contents(), pins.Pins(), next)
    }

    /** The state and the log after an operation that was to have the outcome o. */
    ghost predicate Became<T>(o: A.Out<T>, before: seq<Event>)
      reads this, store, pins
    {
      State() == o.a && pins.log == before + o.events
    }

    constructor (pins: PinManager)
      ensures Valid() && this.pins == pins && next == None
    {
      crypto, store, this.pins, next := pins.crypto, pins.store, pins, None;
    }

    method CheckPinAuth(p: A.PinAuth, clientDataHash: seq<Byte>, permission: Byte, rpId: seq<Byte>, w: World)
      returns (uv: Result<bool>)
      requires Valid() && (permission == PERM_MC || permission == PERM_GA)
      modifies pins`token, pins`log
      ensures var (m, r, events) := A.CheckPinAuth(crypto, old(State()), p, clientDataHash, permission, rpId, w);
              State() == old(State()).(m := m) && uv == r && pins.log == old(pins.log) + events
    {
      hide Verify;
      assert pins.log + [] == pins.log;
      if p.param.None? {
        if permission == PERM_MC && store.pin.hash.Some? {
          return Failure(PuattRequired);
        }
        return Success(false);
      }
      if p.protocol.None? {
        return Failure(MissingParameter);
      }
      if p.protocol.value != 2 {
        return Failure(InvalidParameter);
      }
      if p.param.value == [] {
        if w.presence == Cancelled {
          return Failure(KeepaliveCancel);
        }
        if w.presence != Allow {
          return Failure(OperationDenied);
        }
        return Failure(if store.pin.hash.Some? then PinInvalid else PinNotSet);
      }
      uv := pins.Verify(p.param.value, p.protocol.value, clientDataHash, permission, rpId, w);
    }

    // -------------------------------------------------------------- assertions

    /** The rows of an allowList, each at most once. */
    method FindListed(rpIdHash: Bytes32, list: seq<A.Descriptor>) returns (creds: seq<Credential>)
      ensures creds == A.Listed(store.creds, rpIdHash, list, [])
    {
      hide Find;
      creds := [];
      var i := 0;
      while i < |list|
        invariant 0 <= i <= |list|
        invariant A.Listed(store.creds, rpIdHash, list[i..], creds) == A.Listed(store.creds, rpIdHash, list, [])
      {
        assert list[i..][1..] == list[i + 1..];
        if list[i].isPublicKey {
          var c := store.FindRow(rpIdHash, list[i].id);
          if c.Some? {
            var seen := exists e <- creds :: e.credId == c.value.credId;
            if !seen {
              creds := creds + [c.value];
            }
          }
        }
        i := i + 1;
      }
    }

    method FindCandidates(rpIdHash: Bytes32, list: seq<A.Descriptor>) returns (creds: seq<Credential>)
      ensures creds == A.Candidates(store.creds, rpIdHash, list)
    {
      if list != [] {
        creds := FindListed(rpIdHash, list);
      } else {
        creds := store.FindByRpHash(rpIdHash);
      }
    }

    /** The counter bump is saved before the assertion is handed out. */
    method BuildAssertion(cred: Credential, flags: Byte, bump: bool, withSecret: bool, total: Option<nat>, w: World)
      returns (r: Result<A.Signed>)
      requires Valid()
      modifies store`creds, store`disk, store`opens, pins`log
      ensures var o := A.BuildAssertion(old(State()), cred, flags, bump, withSecret, total, w);
              Became(o, old(pins.log)) && r == o.r
    {
      hide Store.UpdateCountAndUsed;
      assert pins.log + [] == pins.log;
      if w.keyError.Some? {
        return Failure(w.keyError.value);
      }
      var count := if bump then (cred.signCount + 1) % TWO32 else cred.signCount;
      var out := flags;
      if withSecret && flags % 2 == 1 {
        if w.secretError.Some? {
          return Failure(w.secretError.value);
        }
        if out < A.FLAG_ED {
          out := out + A.FLAG_ED;
        }
      }
      if !w.signs {
        return Failure(Other);
      }
      if bump {
        var saved := store.UpdateCountAndUsed(cred.credId, count, w.unix, w.saves(0));
        if saved.Failure? {
          return Failure(Other);
        }
        pins.log := pins.log + [Released(cred.credId, count)];
      }
      return Success(A.Signed(cred.credId, out, count, total));
    }

    /** Sorts, stashes all but the first, asserts the first; a failure drops the stash. */
    method AssertFirst(rows: seq<Credential>, up: bool, uv: bool, withSecret: bool,
                       w: World) returns (r: Result<A.Signed>)
      requires Valid() && rows != []
      modifies this`next, store`creds, store`disk, store`opens, pins`log
      ensures var o := A.AssertFirst(old(State()), rows, up, uv, withSecret, w);
              Became(o, old(pins.log)) && r == o.r
    {
      hide A.BuildAssertion, A.SortByUse;
      var creds := A.SortByUse(rows);
      var flags := 0;
      if uv {
        flags := flags + A.FLAG_UV;
      }
      if up {
        flags := flags + A.FLAG_UP;
      }
      next := None;
      var total: Option<nat> := None;
      if |creds| > 1 {
        total := Some(|creds|);
        next := Some(A.Stash(creds[1..], flags, up, withSecret, w.now + A.USER_ACTION_TIMEOUT));
      }
      r := BuildAssertion(creds[0], flags, up, withSecret, total, w);
      if r.Failure? {
        next := None;
      }
    }

    method GetAssertion(q: A.AssertionRequest, w: World) returns (r: Result<A.Signed>)
      requires Valid()
      modifies this`next, store`creds, store`disk, store`opens, pins`token, pins`log
      ensures var o := A.GetAssertion(crypto, old(State()), q, w);
              Became(o, old(pins.log)) && r == o.r
    {
      hide A.AssertFirst, A.CheckPinAuth, A.Candidates;
      assert pins.log + [] == pins.log;
      ghost var before := pins.log;
      next := None;
      if q.rpId == [] || |q.rpId| > 255 {
        return Failure(InvalidParameter);
      }
      if q.uv == Some(true) {
        return Failure(InvalidOption);
      }
      var up := q.up.GetOr(true);
      var creds := FindCandidates(crypto.sha256(q.rpId), q.allowList);
      ghost var used := A.CheckPinAuth(crypto, State(), q.pinAuth, q.clientDataHash, PERM_GA, q.rpId, w).2;
      var uv :- CheckPinAuth(q.pinAuth, q.clientDataHash, PERM_GA, q.rpId, w);
      if creds == [] {
        return Failure(NoCredentials);
      }
      if up {
        if w.presence == Cancelled {
          return Failure(KeepaliveCancel);
        }
        if w.presence == Deny {
          return Failure(OperationDenied);
        }
        if w.presence == TimedOut {
          return Failure(UserActionTimeout);
        }
      }
      ghost var more := A.AssertFirst(State(), creds, up, uv, q.hmacSecret, w).events;
      r := AssertFirst(creds, up, uv, q.hmacSecret, w);
      assert pins.log == before + (used + more);
    }

    method GetNextAssertion(w: World) returns (r: Result<A.Signed>)
      requires Valid()
      modifies this`next, store`creds, store`disk, store`opens, pins`log
      ensures var o := A.GetNextAssertion(old(State()), w);
              Became(o, old(pins.log)) && r == o.r
    {
      hide A.BuildAssertion;
      assert pins.log + [] == pins.log;
      if next.None? || next.value.remaining == [] || w.now > next.value.expiry {
        next := None;
        return Failure(NotAllowed);
      }
      var s := next.value;
      var cred := s.remaining[0];
      StashUnused(State(), cred, s.flags, s.bump, s.withSecret, None, w);
      r := BuildAssertion(cred, s.flags, s.bump, s.withSecret, None, w);
      next := Some(s.(remaining := s.remaining[1..]));
      if next.value.remaining == [] {
        next := None;
      }
    }

    /** build_assertion does not look at the pending assertions. */
    static lemma StashUnused(a: A.Auth, cred: Credential, flags: Byte, bump: bool, withSecret: bool,
                             total: Option<nat>, w: World)
      ensures A.BuildAssertion(a, cred, flags, bump, withSecret, total, w).a.stash == a.stash
      ensures A.BuildAssertion(a, cred, flags, bump, withSecret, total, w).a.m == a.m
    {
      hide Store.UpdateCountAndUsed;
    }

    // -------------------------------------------------------------- registrations

    method IsExcluded(rpIdHash: Bytes32, list: seq<A.Descriptor>) returns (excluded: bool)
      ensures excluded == A.Excluded(store.creds, rpIdHash, list)
    {
      hide Find;
      var i := 0;
      while i < |list|
        invariant 0 <= i <= |list|
        invariant forall j :: 0 <= j < i ==> !(list[j].isPublicKey && Find(store.creds, rpIdHash, list[j].id).Some?)
      {
        if list[i].isPublicKey {
          var c := store.FindRow(rpIdHash, list[i].id);
          if c.Some? {
            assert list[i] in list;
            return true;
          }
        }
        i := i + 1;
      }
      return false;
    }

    /** Erases the user's rows among olds; an erase that fails is ignored. saved counts the saves. */
    method EraseOlds(olds: seq<Credential>, userId: seq<Byte>, w: World) returns (saved: nat)
      requires Valid()
      modifies store`creds, store`disk, store`opens
      ensures (store.Contents(), saved) == A.EraseSameUser(old(store.Contents()), olds, userId, w, 0)
    {
      hide Store.Erase;
      saved := 0;
      var i := 0;
      while i < |olds|
        invariant 0 <= i <= |olds|
        invariant A.EraseSameUser(store.Contents(), olds[i..], userId, w, saved)
               == A.EraseSameUser(old(store.Contents()), olds, userId, w, 0)
      {
        assert olds[i..][1..] == olds[i + 1..];
        if olds[i].userId == userId {
          var ignored := store.Erase(olds[i].credId, w.saves(saved));
          saved := saved + 1;
        }
        i := i + 1;
      }
    }

    /** The replacement of the user's old rows, saved before the registration is signed. */
    method AddCredential(q: A.CredentialRequest, k: Fresh, uv: bool, w: World) returns (r: Result<A.Signed>)
      requires Valid()
      modifies store`creds, store`disk, store`opens, pins`log
      ensures var o := A.AddCredential(crypto, old(State()), q, k, uv, w);
              Became(o, old(pins.log)) && r == o.r
    {
      hide Store.Put, A.EraseSameUser, FindByRp, A.NewRow;
      assert pins.log + [] == pins.log;
      var rpIdHash := crypto.sha256(q.rpId);
      var row := A.NewRow(q, rpIdHash, k, w.unix);
      assert row.credId == k.credId && row.signCount == 1 by { NewRowIs(q, rpIdHash, k, w.unix); }
      var olds := store.FindByRpHash(rpIdHash);
      var saved := EraseOlds(olds, q.userId, w);
      var put := store.Put(row, w.saves(saved));
      if put.Failure? {
        return Failure(if put.error == KeyStoreFull then KeyStoreFull else Other);
      }
      if !w.signs {
        return Failure(Other);
      }
      var flags := A.FLAG_UP + A.FLAG_AT;
      if uv {
        flags := flags + A.FLAG_UV;
      }
      if q.hmacCreate {
        flags := flags + A.FLAG_ED;
      }
      pins.log := pins.log + [Released(row.credId, row.signCount)];
      return Success(A.Signed(row.credId, flags, row.signCount, None));
    }

    static lemma NewRowIs(q: A.CredentialRequest, rpIdHash: Bytes32, k: Fresh, now: U64)
      ensures A.NewRow(q, rpIdHash, k, now).credId == k.credId && A.NewRow(q, rpIdHash, k, now).signCount == 1
    {
    }

    /** The refusals before a key is generated, in the code's order. */
    method PassGates(q: A.CredentialRequest, w: World) returns (uv: Result<bool>)
      requires Valid()
      modifies pins`token, pins`log
      ensures var (m, r, events) := A.RegistrationGates(crypto, old(State()), q, w);
              State() == old(State()).(m := m) && uv == r && pins.log == old(pins.log) + events
    {
      hide A.CheckPinAuth, A.Excluded, A.CheckRequest;
      assert pins.log + [] == pins.log;
      var request := A.CheckRequest(q);
      if request.Failure? {
        return Failure(request.error);
      }
      var rpIdHash := crypto.sha256(q.rpId);
      uv := CheckPinAuth(q.pinAuth, q.clientDataHash, PERM_MC, q.rpId, w);
      if uv.Failure? {
        return;
      }
      var excluded := IsExcluded(rpIdHash, q.excludeList);
      if w.presence == Cancelled {
        return Failure(KeepaliveCancel);
      }
      if excluded {
        return Failure(CredentialExcluded);
      }
      if w.presence == Deny {
        return Failure(OperationDenied);
      }
      if w.presence == TimedOut {
        return Failure(UserActionTimeout);
      }
      if MAX_CREDENTIALS - |store.creds| == 0 {
        return Failure(KeyStoreFull);
      }
      if w.newKey.None? {
        return Failure(Other);
      }
    }

    method MakeCredential(q: A.CredentialRequest, w: World) returns (r: Result<A.Signed>)
      requires Valid()
      modifies store`creds, store`disk, store`opens, pins`token, pins`log
      ensures var o := A.MakeCredential(crypto, old(State()), q, w);
              Became(o, old(pins.log)) && r == o.r
    {
      hide A.RegistrationGates, A.AddCredential;
      ghost var before := pins.log;
      ghost var used := A.RegistrationGates(crypto, State(), q, w).2;
      var uv :- PassGates(q, w);
      if w.newKey.None? {
        return Failure(Other);
      }
      ghost var more := A.AddCredential(crypto, State(), q, w.newKey.value, uv, w).events;
      r := AddCredential(q, w.newKey.value, uv, w);
      assert pins.log == before + (used + more);
    }

    // -------------------------------------------------------------- U2F

    method U2fRegister(application: Bytes32, w: World) returns (reply: A.U2fReply)
      requires Valid()
      modifies store`creds, store`u2f, store`disk, store`opens
      ensures var (a, r, events) := A.U2fRegister(old(State()), application, w);
              State() == a && reply == r && pins.log == old(pins.log) + events
    {
      hide Store.Put, A.U2fCredential, Serialize;
      assert pins.log + [] == pins.log;
      if w.presence != Allow {
        return A.Refused(A.ConditionsNotSatisfied);
      }
      if MAX_CREDENTIALS - |store.creds| == 0 {
        return A.Refused(A.ExecutionError);
      }
      if w.attestation.None? {
        return A.Refused(A.ExecutionError);
      }
      if store.u2f.None? {
        var saved := store.SetU2fAttestation(w.attestation.value, w.saves(1));
        if saved.Failure? {
          return A.Refused(A.ExecutionError);
        }
      }
      if w.newKey.None? || !w.signs {
        return A.Refused(A.ExecutionError);
      }
      var c := A.U2fCredential(application, w.newKey.value, w.unix);
      var put := store.Put(c, w.saves(0));
      if put.Failure? {
        return A.Refused(A.ExecutionError);
      }
      return A.Registered(c.credId);
    }

    method U2fAuthenticate(control: Byte, application: Bytes32, keyHandle: seq<Byte>,
                           w: World) returns (reply: A.U2fReply)
      requires Valid()
      modifies store`creds, store`disk, store`opens, pins`log
      ensures var (a, r, events) := A.U2fAuthenticate(old(State()), control, application, keyHandle, w);
              State() == a && reply == r && pins.log == old(pins.log) + events
    {
      hide Store.UpdateCountAndUsed, Find;
      assert pins.log + [] == pins.log;
      if control != A.AUTH_ENFORCE && control != A.AUTH_CHECK_ONLY && control != A.AUTH_DONT_ENFORCE {
        return A.Refused(A.IncorrectP1P2);
      }
      var cred := store.FindRow(application, keyHandle);
      if cred.None? {
        return A.Refused(A.WrongData);
      }
      if control == A.AUTH_CHECK_ONLY {
        return A.Refused(A.ConditionsNotSatisfied);
      }
      var presence: Byte, bump := 0, false;
      if control == A.AUTH_ENFORCE {
        if w.presence != Allow {
          return A.Refused(A.ConditionsNotSatisfied);
        }
        presence, bump := 1, true;
      }
      var count := if bump then (cred.value.signCount + 1) % TWO32 else cred.value.signCount;
      if w.keyError.Some? || !w.signs {
        return A.Refused(A.ExecutionError);
      }
      if bump {
        var saved := store.UpdateCountAndUsed(cred.value.credId, count, w.unix, w.saves(0));
        if saved.Failure? {
          return A.Refused(A.ExecutionError);
        }
        pins.log := pins.log + [Released(cred.value.credId, count)];
      }
      return A.Authenticated(presence, count);
    }

    // -------------------------------------------------------------- reset and the control socket

    method Reset(w: World) returns (r: Result<()>)
      requires Valid()
      modifies this`next, store, pins`token, pins`keyAgreement, pins`log
      ensures var o := A.Reset(old(State()), w);
              Became(o, old(pins.log)) && r == o.r
    {
      hide Store.FactoryReset, A.AfterPresence;
      assert pins.log + [] == pins.log;
      ghost var before := pins.log;
      var asked := A.AfterPresence(w.presence);
      if asked.Failure? {
        return asked;
      }
      next := None;
      var done := store.FactoryReset(w.reset);
      pins.log := pins.log + [WasReset(done.Success?)];
      if done.Failure? {
        return Failure(Other);
      }
      pins.RegenerateKeyAgreement(w.newKeyAgreement);
      assert pins.log == before + ([WasReset(true)] + Gone(old(pins.Pins())));
      return if w.reinit then Success(()) else Failure(Other);
    }

    method CtlSetPin(pin: seq<Byte>, w: World) returns (r: Result<()>)
      requires Valid()
      modifies pins`token, pins`failures, pins`log, store`pin, store`disk, store`opens
      ensures var o := A.CtlSetPin(crypto, old(State()), pin, w);
              Became(o, old(pins.log)) && r == o.r
    {
      hide ClientPin.SetPinLocal, A.AfterPresence;
      assert pins.log + [] == pins.log;
      var asked := A.AfterPresence(w.presence);
      if asked.Failure? {
        return asked;
      }
      r := pins.SetPinLocal(pin, w);
    }

    method CtlDelete(id: seq<Byte>, w: World) returns (r: Result<()>)
      requires Valid()
      modifies this`next, store`creds, store`disk, store`opens
      ensures var o := A.CtlDelete(old(State()), id, w);
              Became(o, old(pins.log)) && r == o.r
    {
      hide Store.Erase, FindById;
      assert pins.log + [] == pins.log;
      var row := store.FindRowById(id);
      if row.None? {
        return Failure(InvalidCredential);
      }
      next := None;
      r := store.Erase(id, w.saves(0));
    }

    // -------------------------------------------------------------- dispatch

    method HandlePin(p: A.PinCommand, w: World) returns (r: Result<A.Reply>)
      requires Valid()
      modifies store`pin, store`disk, store`opens, pins
      ensures var o := A.HandlePin(crypto, old(State()), p, w);
              Became(o, old(pins.log)) && r == o.r
    {
      hide ClientPin.SetNewPin, ClientPin.ChangePin, ClientPin.GetToken;
      assert pins.log + [] == pins.log;
      match p {
        case SetPinCmd(key, newEnc, mac) =>
          var done :- pins.SetPin(key, newEnc, mac, w);
          return Success(A.Done);
        case ChangePinCmd(key, hashEnc, newEnc, mac) =>
          var done :- pins.ChangePin(key, hashEnc, newEnc, mac, w);
          return Success(A.Done);
        case GetTokenCmd(key, hashEnc) =>
          var token :- pins.GetToken(key, hashEnc, PERM_MC + PERM_GA, None, w);
          return Success(A.TokenReply(token));
        case GetPermittedTokenCmd(key, hashEnc, permissions, rpId) =>
          if permissions == 0 || permissions > 0xFF {
            return Failure(InvalidParameter);
          }
          if permissions / 4 != 0 || (permissions % 2 == 1 && rpId.None?) {
            return Failure(UnauthorizedPermission);
          }
          var token :- pins.GetToken(key, hashEnc, permissions, rpId, w);
          return Success(A.TokenReply(token));
      }
    }

    /** handle_cbor on a nonempty request. */
    method HandleCbor(cmd: A.Command, w: World) returns (r: Result<A.Reply>)
      requires Valid()
      modifies this, store, pins
      ensures Valid()
      ensures var o := A.HandleCbor(crypto, old(State()), cmd, w);
              Became(o, old(pins.log)) && r == o.r
    {
      hide A.MakeCredential, A.GetAssertion, A.GetNextAssertion, A.HandlePin, A.Reset;
      assert pins.log + [] == pins.log;
      if !cmd.GetNextAssertionCmd? {
        next := None;
      }
      match cmd {
        case MakeCredentialCmd(q) =>
          var signed :- MakeCredential(q, w);
          return Success(A.SignedReply(signed));
        case GetAssertionCmd(q) =>
          var signed :- GetAssertion(q, w);
          return Success(A.SignedReply(signed));
        case GetNextAssertionCmd =>
          var signed :- GetNextAssertion(w);
          return Success(A.SignedReply(signed));
        case PinCmd(p) =>
          r := HandlePin(p, w);
        case ResetCmd =>
          var done :- Reset(w);
          return Success(A.Done);
        case Harmless(answer) =>
          return answer;
      }
    }
  }
}
