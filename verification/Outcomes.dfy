/** What a successful answer means: exactly when a registration succeeds, what the UP and UV flags say, and that
    every released counter is on disk. */
module Outcomes {
  import opened Bytes
  import opened Statuses
  import opened StoreCodec
  import opened StoreRoundTrip
  import opened Store
  import opened StoreRows
  import opened World
  import opened ClientPin
  import opened Authenticator
  import opened Runs
  import opened RunsCounters
  import opened Enumeration

  predicate HasUp(flags: Byte) { flags % 2 == 1 }

  predicate HasUv(flags: Byte) { flags / FLAG_UV % 2 == 1 }

  // ---------------------------------------------------------------- released counters

  ghost predicate OnDiskAs(d: Durable, id: Bytes32, count: U32) {
    exists row <- OnDisk(d).creds :: row.credId == id && row.signCount == count
  }

  ghost predicate ReleasesOnDisk(d: Durable, events: seq<Event>) {
    forall e <- events :: e.Released? ==> OnDiskAs(d, e.credId, e.count)
  }

  lemma UpdateDurable(d: Durable, id: Bytes32, count: U32, now: U64, ok: bool)
    requires StoreInv(d) && UpdateCountAndUsed(d, id, count, now, ok).1.Success?
    ensures OnDiskAs(UpdateCountAndUsed(d, id, count, now, ok).0, id, count)
  {
    hide StoreInv, OnDisk, Normal, UpdateCountAndUsed, View;
    UpdateRefines(d, id, count, now, ok);
    var d' := UpdateCountAndUsed(d, id, count, now, ok).0;
    NormalKeeps(d'.mem);
    StoreIds(d');
    ViewHas(d'.mem.creds);
    assert View(d'.mem.creds)[id] in d'.mem.creds;
  }

  lemma BuildDurable(a: Auth, cred: Credential, flags: Byte, bump: bool, withSecret: bool, total: Option<nat>, w: World)
    requires StoreInv(a.d)
    ensures var o := BuildAssertion(a, cred, flags, bump, withSecret, total, w); ReleasesOnDisk(o.a.d, o.events)
  {
    hide StoreInv, UpdateCountAndUsed, OnDiskAs;
    var count := (cred.signCount + 1) % TWO32;
    if UpdateCountAndUsed(a.d, cred.credId, count, w.unix, w.saves(0)).1.Success? {
      UpdateDurable(a.d, cred.credId, count, w.unix, w.saves(0));
    }
  }

  lemma AssertDurable(a: Auth, rows: seq<Credential>, up: bool, uv: bool, withSecret: bool, w: World)
    requires StoreInv(a.d) && rows != []
    ensures var o := AssertFirst(a, rows, up, uv, withSecret, w); ReleasesOnDisk(o.a.d, o.events)
  {
    hide StoreInv, BuildAssertion, SortByUse, ReleasesOnDisk;
    forall a1: Auth, cred, flags, total | a1.d == a.d
      ensures var o := BuildAssertion(a1, cred, flags, up, withSecret, total, w); ReleasesOnDisk(o.a.d, o.events)
    {
      BuildDurable(a1, cred, flags, up, withSecret, total, w);
    }
  }

  lemma GetAssertionDurable(c: Crypto, a: Auth, q: AssertionRequest, w: World)
    requires StoreInv(a.d)
    ensures var o := GetAssertion(c, a, q, w); ReleasesOnDisk(o.a.d, o.events)
  {
    hide StoreInv, AssertFirst, CheckPinAuth, Candidates, OnDiskAs;
    var a0 := a.(stash := None);
    CheckPinAuthQuiet(c, a0, q.pinAuth, q.clientDataHash, PERM_GA, q.rpId, w);
    var (m, uv, used) := CheckPinAuth(c, a0, q.pinAuth, q.clientDataHash, PERM_GA, q.rpId, w);
    var rows := Candidates(a.d.mem.creds, c.sha256(q.rpId), q.allowList);
    if rows != [] && uv.Success? {
      AssertDurable(a0.(m := m), rows, q.up.GetOr(true), uv.value, q.hmacSecret, w);
    }
  }

  lemma GetNextDurable(a: Auth, w: World)
    requires StoreInv(a.d)
    ensures var o := GetNextAssertion(a, w); ReleasesOnDisk(o.a.d, o.events)
  {
    hide StoreInv, BuildAssertion, OnDiskAs;
    if a.stash.Some? && a.stash.value.remaining != [] {
      var s := a.stash.value;
      BuildDurable(a, s.remaining[0], s.flags, s.bump, s.withSecret, None, w);
    }
  }

  lemma {:induction false} EraseSameUserInv(d: Durable, olds: seq<Credential>, userId: seq<Byte>, w: World, i: nat)
    requires StoreInv(d)
    ensures StoreInv(EraseSameUser(d, olds, userId, w, i).0)
    ensures |EraseSameUser(d, olds, userId, w, i).0.mem.creds| <= |d.mem.creds|
    decreases |olds|
  {
    hide StoreInv, Erase;
    if olds != [] {
      EraseRows(d, olds[0].credId, w.saves(i));
      if olds[0].userId == userId {
        EraseSameUserInv(Erase(d, olds[0].credId, w.saves(i)).0, olds[1..], userId, w, i + 1);
      } else {
        EraseSameUserInv(d, olds[1..], userId, w, i);
      }
    }
  }

  /** The store the new row is put into, and the number of the save that puts it. */
  function BeforePut(c: Crypto, a: Auth, q: CredentialRequest, w: World): (Durable, nat) {
    EraseSameUser(a.d, FindByRp(a.d.mem.creds, c.sha256(q.rpId)), q.userId, w, 0)
  }

  lemma AddDurable(c: Crypto, a: Auth, q: CredentialRequest, k: Fresh, uv: bool, w: World)
    requires StoreInv(a.d)
    ensures var o := AddCredential(c, a, q, k, uv, w); ReleasesOnDisk(o.a.d, o.events)
  {
    hide StoreInv, OnDisk, EraseSameUser, FindByRp, Put, Normal;
    var row := NewRow(q, c.sha256(q.rpId), k, w.unix);
    var (d1, i) := BeforePut(c, a, q, w);
    EraseSameUserInv(a.d, FindByRp(a.d.mem.creds, c.sha256(q.rpId)), q.userId, w, 0);
    PutRows(d1, row, w.saves(i));
    NormalKeeps(Put(d1, row, w.saves(i)).0.mem);
  }

  lemma MakeDurable(c: Crypto, a: Auth, q: CredentialRequest, w: World)
    requires StoreInv(a.d)
    ensures var o := MakeCredential(c, a, q, w); ReleasesOnDisk(o.a.d, o.events)
  {
    hide StoreInv, OnDiskAs, AddCredential, CheckPinAuth, Excluded, CheckRequest;
    CheckPinAuthQuiet(c, a, q.pinAuth, q.clientDataHash, PERM_MC, q.rpId, w);
    var (m, gate, used) := RegistrationGates(c, a, q, w);
    if gate.Success? && w.newKey.Some? {
      AddDurable(c, a.(m := m), q, w.newKey.value, gate.value, w);
    }
  }

  lemma U2fDurable(a: Auth, control: Byte, application: Bytes32, keyHandle: seq<Byte>, w: World)
    requires StoreInv(a.d)
    ensures var o := U2fAuthenticate(a, control, application, keyHandle, w); ReleasesOnDisk(o.0.d, o.2)
  {
    hide StoreInv, OnDiskAs, UpdateCountAndUsed, Find;
    var cred := Find(a.d.mem.creds, application, keyHandle);
    if cred.Some? {
      var count := (cred.value.signCount + 1) % TWO32;
      if UpdateCountAndUsed(a.d, cred.value.credId, count, w.unix, w.saves(0)).1.Success? {
        UpdateDurable(a.d, cred.value.credId, count, w.unix, w.saves(0));
      }
    }
  }

  lemma OthersQuiet(c: Crypto, a: Auth, p: PinCommand, pin: seq<Byte>, w: World)
    requires StoreInv(a.d)
    ensures forall e <- HandlePin(c, a, p, w).events + Reset(a, w).events + CtlSetPin(c, a, pin, w).events ::
              !e.Released?
  {
    hide SetPin, FactoryReset, SharedSecret, MacOk, PinFromPadded, Decrypt, FailureDelay, PolicyOk;
    HandlePinSame(c, a, p, w);
  }

  /** Whatever an operation releases is already on disk when it ends: a crash cannot take it back. */
  lemma ReleasedIsDurable(c: Crypto, a: Auth, op: Op, w: World)
    requires StoreInv(a.d)
    ensures var (a', events) := Apply(c, a, op, w); ReleasesOnDisk(a'.d, events)
  {
    hide StoreInv, OnDiskAs, HandlePin, MakeCredential, GetAssertion, GetNextAssertion, Reset, CtlSetPin, CtlDelete,
         U2fRegister, U2fAuthenticate;
    var a0 := a.(stash := None);
    match op
    case Cbor(MakeCredentialCmd(q)) => MakeDurable(c, a0, q, w);
    case Cbor(GetAssertionCmd(q)) => GetAssertionDurable(c, a0, q, w);
    case Cbor(GetNextAssertionCmd) => GetNextDurable(a, w);
    case Cbor(PinCmd(p)) => OthersQuiet(c, a0, p, [], w);
    case Cbor(ResetCmd) => OthersQuiet(c, a0, GetTokenCmd([], []), [], w);
    case U2fAuthenticateOp(control, application, keyHandle) => U2fDurable(a, control, application, keyHandle, w);
    case U2fRegisterOp(application) => RegisterQuiet(a, application, w);
    case CtlResetOp => OthersQuiet(c, a, GetTokenCmd([], []), [], w);
    case CtlSetPinOp(pin) => OthersQuiet(c, a, GetTokenCmd([], []), pin, w);
    case _ =>
  }

  lemma RegisterQuiet(a: Auth, application: Bytes32, w: World)
    ensures U2fRegister(a, application, w).2 == []
  {
    hide Put, SetU2fAttestation, U2fCredential;
  }

  // ---------------------------------------------------------------- when a registration succeeds

  /** The generated key can be stored: a software key's 32-byte scalar, or another backend's handle. */
  predicate KeyUsable(k: Fresh) { if k.backend == Software then |k.priv| == 32 else k.handle != [] }

  /** A registration succeeds if and only if the request is acceptable, its PIN authentication holds (or none is
      given and no PIN is set), the user allows it, nothing excludes it, there was room, a usable key was made,
      and the new row was saved and signed for. */
  lemma RegistrationExactly(c: Crypto, a: Auth, q: CredentialRequest, w: World)
    requires StoreInv(a.d)
    ensures MakeCredential(c, a, q, w).r.Success?
       <==> && CheckRequest(q).Success?
            && CheckPinAuth(c, a, q.pinAuth, q.clientDataHash, PERM_MC, q.rpId, w).1.Success?
            && w.presence == Allow
            && !(exists x <- q.excludeList ::
                   && x.isPublicKey
                   && exists row <- a.d.mem.creds :: row.rpIdHash == c.sha256(q.rpId) && row.credId == x.id)
            && |a.d.mem.creds| < MAX_CREDENTIALS
            && w.newKey.Some? && KeyUsable(w.newKey.value)
            && w.saves(BeforePut(c, a, q, w).1) && w.signs
  {
    hide StoreInv, OnDisk, CheckPinAuth, CheckRequest, EraseSameUser, FindByRp, Put, Find, Excluded, RowValid, NewRow;
    ExcludedMeans(a.d.mem.creds, c.sha256(q.rpId), q.excludeList);
    InvSize(a.d);
    EraseSameUserInv(a.d, FindByRp(a.d.mem.creds, c.sha256(q.rpId)), q.userId, w, 0);
    if w.newKey.Some? && CheckRequest(q).Success? && |a.d.mem.creds| < MAX_CREDENTIALS {
      var row := NewRow(q, c.sha256(q.rpId), w.newKey.value, w.unix);
      var (d1, i) := BeforePut(c, a, q, w);
      NewRowValid(q, c.sha256(q.rpId), w.newKey.value, w.unix);
      PutSucceeds(d1, row, w.saves(i));
    }
  }

  lemma PutSucceeds(d: Durable, row: Credential, ok: bool)
    requires |d.mem.creds| < MAX_CREDENTIALS
    ensures Put(d, row, ok).1.Success? <==> RowValid(row) && ok
  {
    hide RowValid, Serialize;
  }

  lemma InvSize(d: Durable)
    requires StoreInv(d)
    ensures |d.mem.creds| <= MAX_CREDENTIALS
  {
  }

  lemma NewRowValid(q: CredentialRequest, rpIdHash: Bytes32, k: Fresh, now: U64)
    requires CheckRequest(q).Success?
    ensures RowValid(NewRow(q, rpIdHash, k, now)) <==> KeyUsable(k)
  {
  }

  lemma {:induction false} FindMeans(rows: seq<Credential>, rpIdHash: seq<Byte>, id: seq<Byte>)
    ensures Find(rows, rpIdHash, id).Some? <==> exists row <- rows :: row.rpIdHash == rpIdHash && row.credId == id
  {
    if rows != [] {
      assert rows == [rows[0]] + rows[1..];
      FindMeans(rows[1..], rpIdHash, id);
    }
  }

  lemma ExcludedMeans(rows: seq<Credential>, rpIdHash: seq<Byte>, list: seq<Descriptor>)
    ensures Excluded(rows, rpIdHash, list)
       <==> exists x <- list :: x.isPublicKey && exists row <- rows :: row.rpIdHash == rpIdHash && row.credId == x.id
  {
    hide Find;
    forall x | x in list
      ensures Find(rows, rpIdHash, x.id).Some? <==> exists row <- rows :: row.rpIdHash == rpIdHash && row.credId == x.id
    {
      FindMeans(rows, rpIdHash, x.id);
    }
  }

  /** Whether an excluded credential exists is told only after the user was asked, and not to one who cancels. */
  lemma ExclusionTold(c: Crypto, a: Auth, q: CredentialRequest, w: World)
    ensures MakeCredential(c, a, q, w).r == Failure(CredentialExcluded)
       <==> && CheckRequest(q).Success?
            && CheckPinAuth(c, a, q.pinAuth, q.clientDataHash, PERM_MC, q.rpId, w).1.Success?
            && w.presence != Cancelled
            && Excluded(a.d.mem.creds, c.sha256(q.rpId), q.excludeList)
  {
    hide EraseSameUser, FindByRp, Put, Excluded, Verify;
    PinAuthErrors(c, a, q.pinAuth, q.clientDataHash, q.rpId, w);
  }

  lemma PinAuthErrors(c: Crypto, a: Auth, p: PinAuth, cdh: seq<Byte>, rpId: seq<Byte>, w: World)
    ensures CheckPinAuth(c, a, p, cdh, PERM_MC, rpId, w).1 != Failure(CredentialExcluded)
  {
    hide MacOk, HasPermission;
  }

  // ---------------------------------------------------------------- what the flags say

  /** A PIN authentication gives the UV flag exactly when a parameter is given, and then by using a live token
      that grants the permission for this relying party. */
  lemma UvMeansTokenUsed(c: Crypto, a: Auth, p: PinAuth, cdh: seq<Byte>, permission: Byte, rpId: seq<Byte>, w: World)
    requires permission == PERM_MC || permission == PERM_GA
    requires CheckPinAuth(c, a, p, cdh, permission, rpId, w).1.Success?
    ensures var (m, uv, used) := CheckPinAuth(c, a, p, cdh, permission, rpId, w);
            && (uv.value <==> p.param.Some?)
            && (uv.value ==> a.m.token.Some? && HasPermission(a.m.token.value.permissions, permission)
                             && w.now <= a.m.token.value.expiry
                             && MacOk(c, a.m.token.value.bytes, cdh, p.param.value)
                             && used == [TokenUsed(a.m.token.value.instance, permission, rpId, w.now, w.later)])
            && (!uv.value ==> used == [] && (permission == PERM_MC ==> !PinSet(a.d)))
  {
    hide MacOk, HasPermission;
  }

  /** A registration says UP only after the user allowed it, and UV exactly when a token was used; it is never
      answered without UV while a PIN is set. */
  lemma RegistrationTruthful(c: Crypto, a: Auth, q: CredentialRequest, w: World)
    requires MakeCredential(c, a, q, w).r.Success?
    ensures var o := MakeCredential(c, a, q, w);
            && HasUp(o.r.value.flags) && w.presence == Allow
            && (HasUv(o.r.value.flags) <==> q.pinAuth.param.Some?)
            && (PinSet(a.d) ==> HasUv(o.r.value.flags))
            && (HasUv(o.r.value.flags) ==>
                       a.m.token.Some?
                       && TokenUsed(a.m.token.value.instance, PERM_MC, q.rpId, w.now, w.later) in o.events)
  {
    hide CheckPinAuth, CheckRequest, Excluded, EraseSameUser, FindByRp, Put, MacOk, HasPermission;
    UvMeansTokenUsed(c, a, q.pinAuth, q.clientDataHash, PERM_MC, q.rpId, w);
  }

  /** An assertion says UP exactly when presence was wanted, and then the user allowed it and the counter was
      raised; UV exactly when a token was used; and it is for a stored row of the relying party. */
  lemma AssertionTruthful(c: Crypto, a: Auth, q: AssertionRequest, w: World)
    requires StoreInv(a.d) && GetAssertion(c, a, q, w).r.Success?
    ensures var o := GetAssertion(c, a, q, w);
            && (HasUp(o.r.value.flags) <==> q.up != Some(false))
            && (HasUp(o.r.value.flags) ==>
                       w.presence == Allow && Released(o.r.value.credId, o.r.value.count) in o.events)
            && (HasUv(o.r.value.flags) <==> q.pinAuth.param.Some?)
            && (HasUv(o.r.value.flags) ==>
                       a.m.token.Some?
                       && TokenUsed(a.m.token.value.instance, PERM_GA, q.rpId, w.now, w.later) in o.events)
            && (exists row <- a.d.mem.creds :: row.credId == o.r.value.credId && row.rpIdHash == c.sha256(q.rpId)
                  && o.r.value.count == if HasUp(o.r.value.flags) then (row.signCount + 1) % TWO32 else row.signCount)
  {
    hide StoreInv, CheckPinAuth, Candidates, AssertFirst, MacOk, HasPermission, HasUp, HasUv;
    UvMeansTokenUsed(c, a.(stash := None), q.pinAuth, q.clientDataHash, PERM_GA, q.rpId, w);
    var rows := Candidates(a.d.mem.creds, c.sha256(q.rpId), q.allowList);
    var (m, uv, used) := CheckPinAuth(c, a.(stash := None), q.pinAuth, q.clientDataHash, PERM_GA, q.rpId, w);
    AssertFirstIs(a.(stash := None, m := m), rows, q.up.GetOr(true), uv.value, q.hmacSecret, w);
    StoreIds(a.d);
    CandidatesMatch(a.d.mem.creds, c.sha256(q.rpId), q.allowList);
  }

  lemma AssertFirstIs(a: Auth, rows: seq<Credential>, up: bool, uv: bool, withSecret: bool, w: World)
    requires rows != [] && AssertFirst(a, rows, up, uv, withSecret, w).r.Success?
    ensures var o := AssertFirst(a, rows, up, uv, withSecret, w);
            && (HasUp(o.r.value.flags) <==> up) && (HasUv(o.r.value.flags) <==> uv)
            && (up ==> o.events == [Released(o.r.value.credId, o.r.value.count)])
            && (exists row <- rows :: row.credId == o.r.value.credId
                  && o.r.value.count == if up then (row.signCount + 1) % TWO32 else row.signCount)
  {
    hide UpdateCountAndUsed, SortByUse;
    var first := SortByUse(rows)[0];
    assert first in multiset(SortByUse(rows));
    assert first in rows;
  }

  // ---------------------------------------------------------------- the PIN

  /** The PIN check succeeds if and only if a PIN is set and not blocked, the waiting for a delay is not cancelled,
      the decrypted hash is the stored one, and the lowered retry counter was saved. */
  lemma PinCheckExactly(c: Crypto, d: Durable, m: Pins, s: Secret, enc: seq<Byte>, w: World)
    ensures CheckPinHash(c, d, m, s, enc, w).r.Success?
       <==> && d.mem.pin.hash.Some? && d.mem.pin.retries > 0
            && !(FailureDelay(m.failures, m.delayBase) > 0 && w.cancelledWaiting)
            && (match Decrypt(c, s, enc) case Some(got) => got == d.mem.pin.hash.value case None => false)
            && w.saves(0)
    ensures CheckPinHash(c, d, m, s, enc, w).r.Success? ==>
              CheckPinHash(c, d, m, s, enc, w).d.mem.pin == PinState(d.mem.pin.hash, MAX_RETRIES)
  {
    hide Decrypt, FailureDelay, Serialize;
  }

  /** A PIN that was set has a full retry budget, on disk too, and from then on exactly its hash passes the check. */
  lemma NewPinVerifies(c: Crypto, d: Durable, m: Pins, key: seq<Byte>, newEnc: seq<Byte>, mac: seq<Byte>, w: World,
                       s: Secret, enc: seq<Byte>, w': World)
    requires StoreInv(d) && SetNewPin(c, d, m, key, newEnc, mac, w).r.Success?
    ensures var o := SetNewPin(c, d, m, key, newEnc, mac, w);
            && o.d.mem.pin.hash.Some? && o.d.mem.pin.retries == MAX_RETRIES && OnDisk(o.d).pin == o.d.mem.pin
            && SharedSecret(c, m, key).Success?
            && PinFromPadded(c, SharedSecret(c, m, key).value, newEnc) == Success(o.d.mem.pin.hash.value)
            && (CheckPinHash(c, o.d, o.m, s, enc, w').r.Success?
                <==> Decrypt(c, s, enc) == Some(o.d.mem.pin.hash.value) && w'.saves(0))
  {
    hide StoreInv, OnDisk, SetPin, SharedSecret, MacOk, PinFromPadded, CheckPinHash, Decrypt, Normal;
    var o := SetNewPin(c, d, m, key, newEnc, mac, w);
    PinCheckExactly(c, o.d, o.m, s, enc, w');
    var hash := PinFromPadded(c, SharedSecret(c, m, key).value, newEnc).value;
    SetPinRefines(d, PinState(Some(hash), MAX_RETRIES), w.saves(0));
    NormalKeeps(o.d.mem);
  }

  /** changePIN succeeds only after the current PIN's hash passed the check; then the new PIN is on disk with a full
      budget, and no token is left. */
  lemma ChangePinTruthful(c: Crypto, d: Durable, m: Pins, key: seq<Byte>, hashEnc: seq<Byte>, newEnc: seq<Byte>,
                          mac: seq<Byte>, w: World)
    requires StoreInv(d) && ChangePin(c, d, m, key, hashEnc, newEnc, mac, w).r.Success?
    ensures var o := ChangePin(c, d, m, key, hashEnc, newEnc, mac, w);
            && SharedSecret(c, m, key).Success?
            && d.mem.pin.hash.Some? && Decrypt(c, SharedSecret(c, m, key).value, hashEnc) == Some(d.mem.pin.hash.value)
            && MacOk(c, SharedSecret(c, m, key).value.hmacKey, newEnc + hashEnc, mac)
            && o.d.mem.pin.hash.Some? && PinFromPadded(c, SharedSecret(c, m, key).value, newEnc)
                == Success(o.d.mem.pin.hash.value)
            && o.d.mem.pin.retries == MAX_RETRIES && OnDisk(o.d).pin == o.d.mem.pin
            && o.m.token == None
  {
    hide StoreInv, OnDisk, SetPin, SharedSecret, MacOk, PinFromPadded, CheckPinHash, Decrypt, Normal;
    var s := SharedSecret(c, m, key).value;
    PinCheckExactly(c, d, m, s, hashEnc, w);
    CheckKeepsInv(c, d, m, s, hashEnc, w);
    var check := CheckPinHash(c, d, m, s, hashEnc, w);
    var hash := PinFromPadded(c, s, newEnc).value;
    SetPinRefines(check.d, PinState(Some(hash), MAX_RETRIES), w.saves(2));
    NormalKeeps(SetPin(check.d, PinState(Some(hash), MAX_RETRIES), w.saves(2)).0.mem);
  }

  lemma CheckKeepsInv(c: Crypto, d: Durable, m: Pins, s: Secret, enc: seq<Byte>, w: World)
    requires StoreInv(d)
    ensures StoreInv(CheckPinHash(c, d, m, s, enc, w).d)
  {
    hide StoreInv, SetPin, Decrypt, FailureDelay;
    forall d0, pin, ok | StoreInv(d0) ensures StoreInv(SetPin(d0, pin, ok).0) {
      SetPinRefines(d0, pin, ok);
    }
  }

  // ---------------------------------------------------------------- pending assertions

  /** The pending assertions carry on what the first one said: its UP and UV, and a counter bump exactly with UP. */
  lemma StashTruthful(c: Crypto, a: Auth, q: AssertionRequest, w: World)
    requires GetAssertion(c, a, q, w).r.Success? && GetAssertion(c, a, q, w).a.stash.Some?
    ensures var o := GetAssertion(c, a, q, w);
            && HasUp(o.a.stash.value.flags) == HasUp(o.r.value.flags) == o.a.stash.value.bump
            && HasUv(o.a.stash.value.flags) == HasUv(o.r.value.flags)
            && o.a.stash.value.flags == AssertionFlags(o.a.stash.value.bump, HasUv(o.r.value.flags))
  {
    hide CheckPinAuth, Candidates, UpdateCountAndUsed, SortByUse;
  }

  /** A later assertion says the same, for the row that was due, with its next count released exactly with UP. */
  lemma NextTruthful(a: Auth, w: World, uv: bool)
    requires GetNextAssertion(a, w).r.Success?
    requires a.stash.Some? ==> a.stash.value.flags == AssertionFlags(a.stash.value.bump, uv)
    ensures var o := GetNextAssertion(a, w);
            && a.stash.Some? && a.stash.value.remaining != [] && w.now <= a.stash.value.expiry
            && var (row, up) := (a.stash.value.remaining[0], a.stash.value.bump);
            && o.r.value.credId == row.credId && (HasUp(o.r.value.flags) <==> up) && (HasUv(o.r.value.flags) <==> uv)
            && o.r.value.count == (if up then (row.signCount + 1) % TWO32 else row.signCount)
            && o.events == (if up then [Released(row.credId, o.r.value.count)] else [])
  {
    hide UpdateCountAndUsed;
  }

  // ---------------------------------------------------------------- replacement

  /** With working saves, exactly the user's rows among olds go. */
  lemma {:induction false} EraseSameUserExact(d: Durable, olds: seq<Credential>, userId: seq<Byte>, w: World, i: nat)
    requires StoreInv(d) && (forall j :: w.saves(j))
    requires forall o <- olds :: o.userId == userId ==> forall x <- d.mem.creds :: x.credId == o.credId ==> x == o
    ensures forall x ::
              && (x in EraseSameUser(d, olds, userId, w, i).0.mem.creds
                  <==> x in d.mem.creds && !(x in olds && x.userId == userId))
    decreases |olds|
  {
    hide StoreInv, Erase;
    if olds != [] {
      assert olds == [olds[0]] + olds[1..];
      if olds[0].userId == userId {
        var d1 := Erase(d, olds[0].credId, true).0;
        EraseRows(d, olds[0].credId, true);
        EraseSameUserExact(d1, olds[1..], userId, w, i + 1);
      } else {
        EraseSameUserExact(d, olds[1..], userId, w, i);
      }
    }
  }

  /** With working saves and a fresh id, a successful registration leaves, in memory and on disk, exactly the new
      row and the old ones but the user's discoverable ones at this relying party. */
  lemma RegistrationReplaces(c: Crypto, a: Auth, q: CredentialRequest, k: Fresh, uv: bool, w: World)
    requires StoreInv(a.d) && (forall j :: w.saves(j)) && forall r <- a.d.mem.creds :: r.credId != k.credId
    requires AddCredential(c, a, q, k, uv, w).r.Success?
    ensures var rows := AddCredential(c, a, q, k, uv, w).a.d.mem.creds;
            var row := NewRow(q, c.sha256(q.rpId), k, w.unix);
            && (forall x :: x in rows <==>
                  x == row || (x in a.d.mem.creds && !(x.rk && x.rpIdHash == c.sha256(q.rpId) && x.userId == q.userId)))
            && OnDisk(AddCredential(c, a, q, k, uv, w).a.d).creds == rows
  {
    hide StoreInv, OnDisk, EraseSameUser, FindByRp, Put, Normal;
    var row := NewRow(q, c.sha256(q.rpId), k, w.unix);
    var olds := FindByRp(a.d.mem.creds, c.sha256(q.rpId));
    FindByRpRows(a.d.mem.creds, c.sha256(q.rpId));
    StoreIds(a.d);
    forall o, x | o in olds && x in a.d.mem.creds && x.credId == o.credId ensures x == o {
      SameIdSameRow(a.d.mem.creds, x, o);
    }
    EraseSameUserExact(a.d, olds, q.userId, w, 0);
    EraseSameUserInv(a.d, olds, q.userId, w, 0);
    var (d1, i) := BeforePut(c, a, q, w);
    PutRows(d1, row, w.saves(i));
    NormalKeeps(Put(d1, row, w.saves(i)).0.mem);
  }

  // ---------------------------------------------------------------- U2F and the control socket

  /** A U2F registration is answered only after the user allowed it, and its row, never discoverable, is on disk. */
  lemma U2fRegisterTruthful(a: Auth, application: Bytes32, w: World)
    requires StoreInv(a.d) && U2fRegister(a, application, w).1.Registered?
    ensures var (a', reply, _) := U2fRegister(a, application, w);
            && w.presence == Allow
            && exists row <- OnDisk(a'.d).creds ::
                 row.credId == reply.keyHandle && row.rpIdHash == application && !row.rk && row.signCount == 1
  {
    hide StoreInv, OnDisk, Put, SetU2fAttestation, Normal;
    if a.d.mem.u2f.None? {
      SetU2fRefines(a.d, w.attestation.value, w.saves(1));
    }
    var d1 := if a.d.mem.u2f.None? then SetU2fAttestation(a.d, w.attestation.value, w.saves(1)).0 else a.d;
    var row := U2fCredential(application, w.newKey.value, w.unix);
    PutRows(d1, row, w.saves(0));
    NormalKeeps(Put(d1, row, w.saves(0)).0.mem);
  }

  /** A U2F authentication is signed only for a stored row of the application and never for a check-only request;
      with the presence byte only after the user allowed it and with the row's next count. Nothing else changes. */
  lemma U2fAuthenticateTruthful(a: Auth, control: Byte, application: Bytes32, keyHandle: seq<Byte>, w: World,
                                a': Auth, presence: Byte, count: U32, events: seq<Event>)
    requires U2fAuthenticate(a, control, application, keyHandle, w) == (a', Authenticated(presence, count), events)
    ensures (control == AUTH_ENFORCE && presence == 1 && w.presence == Allow)
            || (control == AUTH_DONT_ENFORCE && presence == 0 && a' == a)
    ensures exists row <- a.d.mem.creds ::
              && row.rpIdHash == application && row.credId == keyHandle
              && count == (if presence == 1 then (row.signCount + 1) % TWO32 else row.signCount)
              && events == (if presence == 1 then [Released(row.credId, count)] else [])
    ensures a'.m == a.m && a'.stash == a.stash
  {
    hide UpdateCountAndUsed, Find;
    FindIsRow(a.d.mem.creds, application, keyHandle);
  }

  /** A reset is confirmed only after the user allowed it, and then memory and disk hold no credential, no PIN and
      no attestation, nothing is pending, and no token is left. */
  lemma ResetTruthful(a: Auth, w: World)
    requires StoreInv(a.d) && Reset(a, w).r.Success?
    ensures var o := Reset(a, w);
            && w.presence == Allow && o.a.stash == None && o.a.m.token == None
            && o.a.d.mem == Empty.(serial := a.d.mem.serial, installId := a.d.mem.installId)
                && OnDisk(o.a.d) == o.a.d.mem
  {
    hide StoreInv, OnDisk, FactoryReset;
    FactoryResetRefines(a.d, w.reset);
    var (d, r) := FactoryReset(a.d, w.reset);
    assert r.Success? && Reset(a, w).a.d == d;
  }

  /** A deletion from the control socket succeeds if and only if the row exists and the save works; then the row is
      gone from memory and disk. Known ids end the pending assertions either way. */
  lemma DeleteExactly(a: Auth, id: Bytes32, w: World)
    requires StoreInv(a.d)
    ensures var o := CtlDelete(a, id, w);
            && (o.r.Success? <==> w.saves(0) && exists c <- a.d.mem.creds :: c.credId == id)
            && (o.r.Success? ==> OnDisk(o.a.d).creds == o.a.d.mem.creds
                                 && forall c :: c in o.a.d.mem.creds <==> c in a.d.mem.creds && c.credId != id)
            && (o.r.Failure? ==> OnDisk(o.a.d) == OnDisk(a.d) && forall c ::
                                   c in o.a.d.mem.creds <==> c in a.d.mem.creds)
            && ((exists c <- a.d.mem.creds :: c.credId == id) ==> o.a.stash == None)
  {
    hide StoreInv, OnDisk, Erase, Normal;
    EraseRows(a.d, id, w.saves(0));
    NormalKeeps(Erase(a.d, id, w.saves(0)).0.mem);
  }

  /** A PIN set from the control socket succeeds if and only if the user allows it, the PIN is acceptable and the
      save works; then its hash is on disk with a full budget, and no token is left. */
  lemma CtlSetPinExactly(c: Crypto, a: Auth, pin: seq<Byte>, w: World)
    requires StoreInv(a.d)
    ensures var o := CtlSetPin(c, a, pin, w);
            && (o.r.Success? <==> w.presence == Allow && PolicyOk(pin) && w.saves(0))
            && (o.r.Success? ==>
                 OnDisk(o.a.d).pin == PinState(Some(PinHash(c, pin)), MAX_RETRIES) && o.a.m.token == None)
  {
    hide StoreInv, OnDisk, SetPin, PolicyOk, PinHash, Normal;
    SetPinRefines(a.d, PinState(Some(PinHash(c, pin)), MAX_RETRIES), w.saves(0));
    NormalKeeps(SetPin(a.d, PinState(Some(PinHash(c, pin)), MAX_RETRIES), w.saves(0)).0.mem);
  }
}
