/** While saves succeed up to a crash, no two discoverable rows are for the same relying party and user, over any run;
    and exactly when a registration breaks that. */
module RunsUnique {
  import opened Bytes
  import opened StoreCodec
  import opened StoreRoundTrip
  import opened Store
  import opened StoreRows
  import opened World
  import opened ClientPin
  import opened Authenticator
  import opened Runs
  import opened RunsCounters

  predicate SameUser(x: Credential, y: Credential) { x.rpIdHash == y.rpIdHash && x.userId == y.userId }

  ghost predicate RkUnique(rows: seq<Credential>) {
    forall x, y :: x in rows && y in rows && x.rk && y.rk && SameUser(x, y) ==> x == y
  }

  ghost predicate UniqueInv(d: Durable) { StoreInv(d) && Synced(d) && RkUnique(d.mem.creds) }

  /** The rows in the file are unique, and where all went well memory has the same. */
  ghost predicate UniqueOnDisk(d: Durable, well: bool) {
    StoreInv(d) && RkUnique(OnDisk(d).creds) && (well ==> UniqueInv(d))
  }

  ghost predicate AllSaved(w: World) { (forall i :: w.saves(i)) && w.reset.resetOk && w.reset.saveOk }

  /** Every save works, or every save up to the crash; and a new id is not that of a stored row. */
  ghost predicate Smooth(a: Auth, x: Happening) {
    && (if x.crash.None? then AllSaved(x.w) else forall i, j :: i < j && x.w.saves(j) ==> x.w.saves(i))
    && (x.w.newKey.Some? ==> forall c <- a.d.mem.creds :: c.credId != x.w.newKey.value.credId)
  }

  ghost predicate SmoothRun(c: Crypto, h: Hist, xs: seq<Happening>)
    decreases |xs|
  {
    xs == [] || (Smooth(h.a, xs[0]) && SmoothRun(c, After(c, h, xs[0]), xs[1..]))
  }

  // ---------------------------------------------------------------- store operations

  lemma SavedSynced(d: Durable)
    requires OnDisk(d) == Normal(d.mem)
    ensures Synced(d)
  {
    hide OnDisk;
    NormalKeeps(d.mem);
  }

  lemma FewerUnique(rows: seq<Credential>, fewer: seq<Credential>)
    requires RkUnique(rows) && forall x <- fewer :: x in rows
    ensures RkUnique(fewer)
  {
  }

  lemma WellUnique(d: Durable)
    requires UniqueInv(d)
    ensures UniqueOnDisk(d, true) && UniqueOnDisk(d, false)
  {
    hide StoreInv, OnDisk, RkUnique;
  }

  lemma EraseUnique(d: Durable, id: Bytes32, ok: bool)
    requires UniqueInv(d)
    ensures var d' := Erase(d, id, ok).0;
            && UniqueOnDisk(d', ok) && (ok ==> forall x :: x in d'.mem.creds <==> x in d.mem.creds && x.credId != id)
            && (forall x <- d'.mem.creds :: x in d.mem.creds)
  {
    hide StoreInv, OnDisk, Erase, RkUnique, Normal;
    var (d', r) := Erase(d, id, ok);
    EraseRows(d, id, ok);
    FewerUnique(d.mem.creds, d'.mem.creds);
    if r.Success? { SavedSynced(d'); }
  }

  lemma UpdateUnique(d: Durable, id: Bytes32, count: U32, now: U64, ok: bool)
    requires UniqueInv(d)
    ensures UniqueOnDisk(UpdateCountAndUsed(d, id, count, now, ok).0, ok)
  {
    hide StoreInv, OnDisk, UpdateCountAndUsed, Normal;
    var d' := UpdateCountAndUsed(d, id, count, now, ok).0;
    if cred :| cred in d.mem.creds && cred.credId == id {
      UpdateRows(d, cred, count, now, ok);
      if ok { SavedSynced(d'); }
    } else {
      UpdateNothing(d, id, count, now, ok);
    }
  }

  lemma UpdateNothing(d: Durable, id: Bytes32, count: U32, now: U64, ok: bool)
    requires forall c <- d.mem.creds :: c.credId != id
    ensures UpdateCountAndUsed(d, id, count, now, ok).0 == d
  {
    hide Serialize;
  }

  lemma PutUnique(d: Durable, row: Credential, ok: bool)
    requires UniqueInv(d) && (forall c <- d.mem.creds :: c.credId != row.credId)
    requires row.rk ==> forall x <- d.mem.creds :: x.rk ==> !SameUser(x, row)
    ensures UniqueInv(Put(d, row, ok).0)
  {
    hide StoreInv, OnDisk, Put, Normal;
    var (d', r) := Put(d, row, ok);
    PutRows(d, row, ok);
    if r.Success? { SavedSynced(d'); }
  }

  /** Where the save fails the file is as before. */
  lemma PutFails(d: Durable, row: Credential)
    ensures Put(d, row, false).0 == d
  {
  }

  lemma PinUnique(d: Durable, d': Durable)
    requires UniqueInv(d) && RowsSame(d, d')
    ensures UniqueInv(d')
  {
    hide StoreInv, OnDisk;
  }

  // ---------------------------------------------------------------- replacing a user's row

  /** Saves fail from some point on. */
  ghost predicate FailFrom(w: World, i: nat) { forall j :: j >= i ==> !w.saves(j) }

  /** Where the erasures are saved no row of the user is left; from a crash on the file stays as it is. */
  lemma {:induction false} EraseSameUserUnique(d: Durable, olds: seq<Credential>, userId: seq<Byte>, w: World, i: nat)
    requires UniqueInv(d) && forall j, k :: j < k && w.saves(k) ==> w.saves(j)
    ensures var (d', n) := EraseSameUser(d, olds, userId, w, i);
            && UniqueOnDisk(d', !FailFrom(w, n))
            && (!FailFrom(w, n) ==>
                  && (forall x <- d'.mem.creds :: x in d.mem.creds)
                  && (forall x <- d'.mem.creds, o <- olds :: o.userId == userId ==> x.credId != o.credId))
    decreases |olds|
  {
    hide UniqueInv, UniqueOnDisk, Erase;
    WellUnique(d);
    if olds != [] {
      assert olds == [olds[0]] + olds[1..];
      if olds[0].userId != userId {
        EraseSameUserUnique(d, olds[1..], userId, w, i);
      } else if w.saves(i) {
        EraseUnique(d, olds[0].credId, true);
        WellIsUnique(Erase(d, olds[0].credId, true).0);
        EraseSameUserUnique(Erase(d, olds[0].credId, true).0, olds[1..], userId, w, i + 1);
      } else {
        EraseUnique(d, olds[0].credId, false);
        FailingKeepsFile(Erase(d, olds[0].credId, false).0, olds[1..], userId, w, i + 1);
      }
    }
  }

  lemma WellIsUnique(d: Durable)
    requires UniqueOnDisk(d, true)
    ensures UniqueInv(d)
  {
  }

  lemma {:induction false} FailingKeepsFile(d: Durable, olds: seq<Credential>, userId: seq<Byte>, w: World, i: nat)
    requires UniqueOnDisk(d, false) && FailFrom(w, i)
    ensures var (d', n) := EraseSameUser(d, olds, userId, w, i); UniqueOnDisk(d', false) && FailFrom(w, n)
    decreases |olds|
  {
    hide StoreInv, OnDisk, Erase, RkUnique;
    if olds != [] {
      if olds[0].userId == userId {
        EraseRows(d, olds[0].credId, false);
        FailingKeepsFile(Erase(d, olds[0].credId, false).0, olds[1..], userId, w, i + 1);
      } else {
        FailingKeepsFile(d, olds[1..], userId, w, i);
      }
    }
  }

  lemma AddCredentialUnique(c: Crypto, a: Auth, q: CredentialRequest, k: Fresh, uv: bool, w: World)
    requires UniqueInv(a.d) && (forall i, j :: i < j && w.saves(j) ==> w.saves(i))
    requires forall r <- a.d.mem.creds :: r.credId != k.credId
    ensures UniqueOnDisk(AddCredential(c, a, q, k, uv, w).a.d, forall i :: w.saves(i))
  {
    hide UniqueInv, UniqueOnDisk, EraseSameUser, Put, FindByRp;
    var row := NewRow(q, c.sha256(q.rpId), k, w.unix);
    var olds := FindByRp(a.d.mem.creds, c.sha256(q.rpId));
    FindByRpRows(a.d.mem.creds, c.sha256(q.rpId));
    EraseSameUserUnique(a.d, olds, q.userId, w, 0);
    var (d1, n) := EraseSameUser(a.d, olds, q.userId, w, 0);
    if FailFrom(w, n) {
      assert !w.saves(n);
      PutFails(d1, row);
    } else {
      WellIsUnique(d1);
      forall x | x in d1.mem.creds && x.rk ensures !SameUser(x, row) {
        assert x in olds ==> x.userId != q.userId;
      }
      PutUnique(d1, row, w.saves(n));
      WellUnique(Put(d1, row, w.saves(n)).0);
    }
  }

  /** At most one row is replaced; then exactly one save is for its erasure. */
  lemma {:induction false} EraseOneUser(d: Durable, olds: seq<Credential>, userId: seq<Byte>, w: World, i: nat)
    requires DistinctIds(olds) && forall x, y ::
              x in olds && y in olds && x.userId == userId && y.userId == userId ==> x == y
    ensures var r := EraseSameUser(d, olds, userId, w, i);
            if exists x <- olds :: x.userId == userId
            then exists x <- olds :: x.userId == userId && r == (Erase(d, x.credId, w.saves(i)).0, i + 1)
            else r == (d, i)
    decreases |olds|
  {
    hide Erase;
    if olds != [] {
      assert olds == [olds[0]] + olds[1..];
      if olds[0].userId == userId {
        forall y | y in olds[1..] ensures y.userId != userId {
          var j :| 0 <= j < |olds| - 1 && olds[1..][j] == y;
          assert olds[j + 1].credId != olds[0].credId;
        }
        EraseOneUser(Erase(d, olds[0].credId, w.saves(i)).0, olds[1..], userId, w, i + 1);
      } else {
        EraseOneUser(d, olds[1..], userId, w, i);
      }
    }
  }

  /** A registration that is stored keeps discoverable rows unique if and only if the user had none at the
      relying party, or the save that erases it succeeds: the failed erase is ignored. */
  lemma ReplaceExactly(c: Crypto, a: Auth, q: CredentialRequest, k: Fresh, uv: bool, w: World)
    requires StoreInv(a.d) && RkUnique(a.d.mem.creds) && forall r <- a.d.mem.creds :: r.credId != k.credId
    requires var (d1, i) := EraseSameUser(a.d, FindByRp(a.d.mem.creds, c.sha256(q.rpId)), q.userId, w, 0);
             Put(d1, NewRow(q, c.sha256(q.rpId), k, w.unix), w.saves(i)).1.Success?
    ensures RkUnique(AddCredential(c, a, q, k, uv, w).a.d.mem.creds)
       <==> w.saves(0) || !exists x <- a.d.mem.creds :: x.rk && x.rpIdHash == c.sha256(q.rpId) && x.userId == q.userId
  {
    hide StoreInv, OnDisk, EraseSameUser, Put, FindByRp, Erase;
    var row := NewRow(q, c.sha256(q.rpId), k, w.unix);
    var olds := FindByRp(a.d.mem.creds, c.sha256(q.rpId));
    FindByRpRows(a.d.mem.creds, c.sha256(q.rpId));
    StoreIds(a.d);
    EraseOneUser(a.d, olds, q.userId, w, 0);
    var (d1, i) := EraseSameUser(a.d, olds, q.userId, w, 0);
    if x :| x in olds && x.userId == q.userId {
      assert d1 == Erase(a.d, x.credId, w.saves(0)).0;
      ErasedThenPut(a.d, x, row, w.saves(0), w.saves(i));
    } else {
      PutRows(d1, row, w.saves(i));
    }
  }

  lemma ErasedThenPut(d: Durable, x: Credential, row: Credential, erased: bool, ok: bool)
    requires StoreInv(d) && RkUnique(d.mem.creds) && x in d.mem.creds && x.rk && row.rk && SameUser(x, row)
    requires (forall y <- d.mem.creds :: y.credId != row.credId)
             && Put(Erase(d, x.credId, erased).0, row, ok).1.Success?
    ensures RkUnique(Put(Erase(d, x.credId, erased).0, row, ok).0.mem.creds) <==> erased
  {
    hide StoreInv, OnDisk, Put, Erase, RkUnique;
    var d1 := Erase(d, x.credId, erased).0;
    EraseRows(d, x.credId, erased);
    PutRows(d1, row, ok);
    var rows := Put(d1, row, ok).0.mem.creds;
    if erased {
      AfterReplace(d.mem.creds, x, row, rows);
    } else {
      TwoRows(rows, x, row);
    }
  }

  lemma TwoRows(rows: seq<Credential>, x: Credential, y: Credential)
    requires x in rows && y in rows && x.rk && y.rk && SameUser(x, y) && x != y
    ensures !RkUnique(rows)
  {
  }

  lemma AfterReplace(before: seq<Credential>, x: Credential, row: Credential, rows: seq<Credential>)
    requires RkUnique(before) && x in before && x.rk && SameUser(x, row)
    requires forall y <- rows :: y == row || (y in before && y.credId != x.credId)
    ensures RkUnique(rows)
  {
  }

  // ---------------------------------------------------------------- every operation

  lemma BuildUnique(a: Auth, cred: Credential, flags: Byte, bump: bool, withSecret: bool, total: Option<nat>, w: World)
    requires UniqueInv(a.d)
    ensures UniqueOnDisk(BuildAssertion(a, cred, flags, bump, withSecret, total, w).a.d, w.saves(0))
  {
    hide UniqueInv, UniqueOnDisk, UpdateCountAndUsed;
    WellUnique(a.d);
    UpdateUnique(a.d, cred.credId, (cred.signCount + 1) % TWO32, w.unix, w.saves(0));
  }

  lemma AssertFirstUnique(a: Auth, rows: seq<Credential>, up: bool, uv: bool, withSecret: bool, w: World)
    requires UniqueInv(a.d) && rows != []
    ensures UniqueOnDisk(AssertFirst(a, rows, up, uv, withSecret, w).a.d, w.saves(0))
  {
    hide UniqueInv, UniqueOnDisk, BuildAssertion, SortByUse;
    forall a1: Auth, cred, flags, bump, secret, total | a1.d == a.d
      ensures UniqueOnDisk(BuildAssertion(a1, cred, flags, bump, secret, total, w).a.d, w.saves(0))
    {
      BuildUnique(a1, cred, flags, bump, secret, total, w);
    }
  }

  lemma GetAssertionUnique(c: Crypto, a: Auth, q: AssertionRequest, w: World)
    requires UniqueInv(a.d)
    ensures UniqueOnDisk(GetAssertion(c, a, q, w).a.d, w.saves(0))
  {
    hide UniqueInv, UniqueOnDisk, AssertFirst, CheckPinAuth, Candidates;
    WellUnique(a.d);
    var rows := Candidates(a.d.mem.creds, c.sha256(q.rpId), q.allowList);
    var (m, uv, used) := CheckPinAuth(c, a.(stash := None), q.pinAuth, q.clientDataHash, PERM_GA, q.rpId, w);
    if rows != [] && uv.Success? {
      AssertFirstUnique(a.(stash := None, m := m), rows, q.up.GetOr(true), uv.value, q.hmacSecret, w);
    }
  }

  lemma GetNextUnique(a: Auth, w: World)
    requires UniqueInv(a.d)
    ensures UniqueOnDisk(GetNextAssertion(a, w).a.d, w.saves(0))
  {
    hide UniqueInv, UniqueOnDisk, BuildAssertion;
    WellUnique(a.d);
    if a.stash.Some? && a.stash.value.remaining != [] {
      var s := a.stash.value;
      BuildUnique(a, s.remaining[0], s.flags, s.bump, s.withSecret, None, w);
    }
  }

  lemma MakeCredentialUnique(c: Crypto, a: Auth, q: CredentialRequest, w: World)
    requires UniqueInv(a.d) && (forall i, j :: i < j && w.saves(j) ==> w.saves(i))
    requires w.newKey.Some? ==> forall r <- a.d.mem.creds :: r.credId != w.newKey.value.credId
    ensures UniqueOnDisk(MakeCredential(c, a, q, w).a.d, forall i :: w.saves(i))
  {
    hide UniqueInv, UniqueOnDisk, RegistrationGates, AddCredential;
    WellUnique(a.d);
    var (m, gate, used) := RegistrationGates(c, a, q, w);
    if w.newKey.Some? && gate.Success? {
      AddCredentialUnique(c, a.(m := m), q, w.newKey.value, gate.value, w);
    }
  }

  lemma U2fStoreUnique(d: Durable, u: U2fAttestation, ok: bool)
    requires UniqueInv(d)
    ensures UniqueInv(SetU2fAttestation(d, u, ok).0) && SetU2fAttestation(d, u, ok).0.mem.creds == d.mem.creds
  {
    hide StoreInv, OnDisk, SetU2fAttestation, RkUnique, Normal;
    var d' := SetU2fAttestation(d, u, ok).0;
    U2fRows(d, u, ok);
    NormalKeeps(d'.mem);
  }

  lemma U2fRegisterUnique(a: Auth, application: Bytes32, w: World)
    requires UniqueInv(a.d) && (w.newKey.Some? ==> forall r <- a.d.mem.creds :: r.credId != w.newKey.value.credId)
    ensures UniqueInv(U2fRegister(a, application, w).0.d)
  {
    hide UniqueInv, Put, SetU2fAttestation;
    if w.attestation.Some? {
      var dA := SetU2fAttestation(a.d, w.attestation.value, w.saves(1)).0;
      U2fStoreUnique(a.d, w.attestation.value, w.saves(1));
      if w.newKey.Some? {
        PutUnique(a.d, U2fCredential(application, w.newKey.value, w.unix), w.saves(0));
        PutUnique(dA, U2fCredential(application, w.newKey.value, w.unix), w.saves(0));
      }
    }
  }

  lemma U2fAuthenticateUnique(a: Auth, control: Byte, application: Bytes32, keyHandle: seq<Byte>, w: World)
    requires UniqueInv(a.d)
    ensures UniqueOnDisk(U2fAuthenticate(a, control, application, keyHandle, w).0.d, w.saves(0))
  {
    hide UniqueInv, UniqueOnDisk, UpdateCountAndUsed, Find;
    WellUnique(a.d);
    var cred := Find(a.d.mem.creds, application, keyHandle);
    if cred.Some? {
      UpdateUnique(a.d, cred.value.credId, (cred.value.signCount + 1) % TWO32, w.unix, w.saves(0));
    }
  }

  lemma ResetUnique(a: Auth, w: World)
    requires UniqueInv(a.d)
    ensures UniqueOnDisk(Reset(a, w).a.d, w.reset.resetOk && w.reset.saveOk)
  {
    hide StoreInv, OnDisk, FactoryReset;
    ResetRows(a.d, w.reset);
  }

  lemma DeleteUnique(a: Auth, id: seq<Byte>, w: World)
    requires UniqueInv(a.d)
    ensures UniqueOnDisk(CtlDelete(a, id, w).a.d, w.saves(0))
  {
    hide UniqueInv, UniqueOnDisk, Erase, IndexOf;
    WellUnique(a.d);
    if IndexOf(a.d.mem.creds, id) < |a.d.mem.creds| {
      EraseUnique(a.d, a.d.mem.creds[IndexOf(a.d.mem.creds, id)].credId, w.saves(0));
    }
  }

  /** After a crash memory is what the file holds. */
  lemma RecoverUnique(a: Auth, installId: Bytes16, w: World)
    requires UniqueOnDisk(a.d, false)
    ensures UniqueInv(Recover(a, installId, w).0.d)
  {
    hide StoreInv, OnDisk, Recovered;
    RecoveredRows(a.d, installId);
  }

  lemma PinOpsUnique(c: Crypto, a: Auth, p: PinCommand, pin: seq<Byte>, w: World)
    requires UniqueInv(a.d)
    ensures UniqueInv(HandlePin(c, a, p, w).a.d) && UniqueInv(CtlSetPin(c, a, pin, w).a.d)
  {
    hide StoreInv, OnDisk, HandlePin, SetPin, RkUnique, RowsSame, PolicyOk;
    HandlePinSame(c, a, p, w);
    PinUnique(a.d, HandlePin(c, a, p, w).a.d);
    SetPinSame(a.d, PinState(Some(PinHash(c, pin)), MAX_RETRIES), w.saves(0));
    PinUnique(a.d, SetPin(a.d, PinState(Some(PinHash(c, pin)), MAX_RETRIES), w.saves(0)).0);
  }

  lemma LessWell(d: Durable, well: bool, all: bool)
    requires UniqueOnDisk(d, well) && (all ==> well)
    ensures UniqueOnDisk(d, all)
  {
  }

  lemma ApplyUnique(c: Crypto, a: Auth, x: Happening)
    requires UniqueInv(a.d) && Smooth(a, x)
    ensures UniqueOnDisk(Apply(c, a, x.op, x.w).0.d, AllSaved(x.w))
  {
    hide UniqueInv, UniqueOnDisk, HandlePin, MakeCredential, GetAssertion, GetNextAssertion, Reset, CtlSetPin,
         CtlDelete,
         U2fRegister, U2fAuthenticate;
    var a0, w := a.(stash := None), x.w;
    var d' := Apply(c, a, x.op, w).0.d;
    if UniqueInv(d') { WellUnique(d'); }
    match x.op
    case EmptyRequest => WellUnique(a.d);
    case Cbor(cmd) =>
      match cmd {
        case MakeCredentialCmd(q) =>
          MakeCredentialUnique(c, a0, q, w);
          LessWell(d', forall i :: w.saves(i), AllSaved(w));
        case GetAssertionCmd(q) => GetAssertionUnique(c, a0, q, w); LessWell(d', w.saves(0), AllSaved(w));
        case GetNextAssertionCmd => GetNextUnique(a, w); LessWell(d', w.saves(0), AllSaved(w));
        case PinCmd(p) => PinOpsUnique(c, a0, p, [], w); WellUnique(d');
        case ResetCmd => ResetUnique(a0, w); LessWell(d', w.reset.resetOk && w.reset.saveOk, AllSaved(w));
        case Harmless(_) => WellUnique(a.d);
      }
    case U2fRegisterOp(application) => U2fRegisterUnique(a, application, w); WellUnique(d');
    case U2fAuthenticateOp(control, application, keyHandle) =>
      U2fAuthenticateUnique(a, control, application, keyHandle, w);
      LessWell(d', w.saves(0), AllSaved(w));
    case CtlResetOp => ResetUnique(a, w); LessWell(d', w.reset.resetOk && w.reset.saveOk, AllSaved(w));
    case CtlSetPinOp(pin) => PinOpsUnique(c, a, SetPinCmd([], [], []), pin, w); WellUnique(d');
    case CtlDeleteOp(id) => DeleteUnique(a, id, w); LessWell(d', w.saves(0), AllSaved(w));
  }

  lemma AfterUnique(c: Crypto, h: Hist, x: Happening)
    requires UniqueInv(h.a.d) && Smooth(h.a, x)
    ensures UniqueInv(After(c, h, x).a.d)
  {
    hide UniqueInv, Apply, Recover, AllSaved;
    ApplyUnique(c, h.a, x);
    var a := Apply(c, h.a, x.op, x.w).0;
    if x.crash.Some? {
      RecoverUnique(a, x.crash.value.installId, x.w);
    } else {
      WellIsUnique(a.d);
    }
  }

  /** In every run whose saves succeed, up to the crash where there is one, and whose new ids are new, no two
      discoverable rows share a relying party and a user, in memory or on disk. */
  lemma {:induction false} DiscoverableUnique(c: Crypto, h: Hist, xs: seq<Happening>)
    requires UniqueInv(h.a.d) && SmoothRun(c, h, xs)
    ensures var d := Run(c, h, xs).a.d; UniqueInv(d) && RkUnique(OnDisk(d).creds)
    decreases |xs|
  {
    hide StoreInv, OnDisk, RkUnique, After, Smooth;
    if xs != [] {
      AfterUnique(c, h, xs[0]);
      DiscoverableUnique(c, After(c, h, xs[0]), xs[1..]);
    }
  }
}
