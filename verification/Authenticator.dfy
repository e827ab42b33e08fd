/** The authenticator's commands (src/ctap/get_assertion.cpp, make_credential.cpp, u2f.cpp, authenticator.cpp), from
    parsed request to result. */
module Authenticator {
  import opened Bytes
  import opened Statuses
  import opened StoreCodec
  import opened Store
  import opened World
  import opened ClientPin

  const FLAG_UP: Byte := 0x01
  const FLAG_UV: Byte := 0x04
  const FLAG_AT: Byte := 0x40
  const FLAG_ED: Byte := 0x80
  const USER_ACTION_TIMEOUT := 30000

  /** The assertions getNextAssertion still owes. */
  datatype Stash = Stash(remaining: seq<Credential>, flags: Byte, bump: bool, withSecret: bool, expiry: nat)

  datatype Auth = Auth(d: Durable, m: Pins, stash: Option<Stash>)
  datatype Out<+T> = Out(a: Auth, r: Result<T>, events: seq<Event>)

  datatype Descriptor = Descriptor(isPublicKey: bool, id: seq<Byte>)
  datatype PinAuth = PinAuth(param: Option<seq<Byte>>, protocol: Option<nat>)
  datatype AssertionRequest = AssertionRequest(
    rpId: seq<Byte>, clientDataHash: Bytes32, allowList: seq<Descriptor>, up: Option<bool>, uv: Option<bool>,
    pinAuth: PinAuth, hmacSecret: bool)
  datatype CredentialRequest = CredentialRequest(
    clientDataHash: Bytes32, rpId: Blob, rpName: Blob, userId: Blob, userName: Blob, userDisplay: Blob,
    hasEs256: bool, excludeList: seq<Descriptor>, rk: Option<bool>, up: Option<bool>, uv: Option<bool>,
    credProtect: Option<nat>, hmacCreate: bool, enterprise: bool, pinAuth: PinAuth)

  /** What a successful assertion or registration puts in authData, and for the first of several assertions the
      number of credentials. */
  datatype Signed = Signed(credId: Bytes32, flags: Byte, count: U32, total: Option<nat>)

  // ---------------------------------------------------------------- shared gates

  function AfterPresence(p: Decision): Result<()> {
    match p
    case Allow => Success(())
    case Deny => Failure(OperationDenied)
    case TimedOut => Failure(UserActionTimeout)
    case Cancelled => Failure(KeepaliveCancel)
  }

  /** check_pin_auth: the UV flag, or why not. */
  function CheckPinAuth(c: Crypto, a: Auth, p: PinAuth, clientDataHash: seq<Byte>, permission: Byte, rpId: seq<Byte>,
                        w: World): (Pins, Result<bool>, seq<Event>)
    requires permission == PERM_MC || permission == PERM_GA
  {
    if p.param.None? then
      (a.m, if permission == PERM_MC && PinSet(a.d) then Failure(PuattRequired) else Success(false), [])
    else if p.protocol.None? then (a.m, Failure(MissingParameter), [])
    else if p.protocol.value != 2 then (a.m, Failure(InvalidParameter), [])
    else if p.param.value == [] then
      (a.m, Failure(if w.presence == Cancelled then KeepaliveCancel else if w.presence != Allow then OperationDenied
                    else if PinSet(a.d) then PinInvalid else PinNotSet), [])
    else Verify(c, a.m, p.param.value, p.protocol.value, clientDataHash, permission, rpId, w)
  }

  // ---------------------------------------------------------------- getAssertion

  /** The allowList's rows, each at most once however often the list repeats it. */
  function Listed(rows: seq<Credential>, rpIdHash: seq<Byte>, list: seq<Descriptor>,
                  found: seq<Credential>): seq<Credential>
    decreases |list|
  {
    if list == [] then found
    else
      var c := if list[0].isPublicKey then Find(rows, rpIdHash, list[0].id) else None;
      Listed(rows, rpIdHash, list[1..],
             if c.None? || (exists e <- found :: e.credId == c.value.credId) then found else found + [c.value])
  }

  function Candidates(rows: seq<Credential>, rpIdHash: seq<Byte>, list: seq<Descriptor>): seq<Credential> {
    if list == [] then FindByRp(rows, rpIdHash) else Listed(rows, rpIdHash, list, [])
  }

  /** Most recently used first, then newest first. */
  predicate Before(a: Credential, b: Credential) {
    if a.lastUsed != b.lastUsed then a.lastUsed > b.lastUsed else a.created > b.created
  }

  function InsertByUse(c: Credential, cs: seq<Credential>): (r: seq<Credential>)
    ensures |r| == |cs| + 1 && multiset(r) == multiset{c} + multiset(cs)
  {
    if cs == [] then [c]
    else if Before(cs[0], c) then
      assert cs == [cs[0]] + cs[1..];
      [cs[0]] + InsertByUse(c, cs[1..])
    else [c] + cs
  }

  /** std::stable_sort by Before. */
  function SortByUse(cs: seq<Credential>): (r: seq<Credential>)
    ensures |r| == |cs| && multiset(r) == multiset(cs)
  {
    if cs == [] then [] else
      assert cs == [cs[0]] + cs[1..];
      InsertByUse(cs[0], SortByUse(cs[1..]))
  }

  /** build_assertion: the counter bump is saved before the assertion is handed out. */
  function BuildAssertion(a: Auth, cred: Credential, flags: Byte, bump: bool, withSecret: bool, total: Option<nat>,
                          w: World): Out<Signed> {
    var up := flags % 2 == 1;
    var count := if bump then (cred.signCount + 1) % TWO32 else cred.signCount;
    var flags' := if withSecret && up && flags < FLAG_ED then flags + FLAG_ED else flags;
    if w.keyError.Some? then Out(a, Failure(w.keyError.value), [])
    else if withSecret && up && w.secretError.Some? then Out(a, Failure(w.secretError.value), [])
    else if !w.signs then Out(a, Failure(Other), [])
    else if !bump then Out(a, Success(Signed(cred.credId, flags', count, total)), [])
    else
      var (d, saved) := UpdateCountAndUsed(a.d, cred.credId, count, w.unix, w.saves(0));
      if saved.Failure? then Out(a.(d := d), Failure(Other), [])
      else Out(a.(d := d), Success(Signed(cred.credId, flags', count, total)), [Released(cred.credId, count)])
  }

  function AssertionFlags(up: bool, uv: bool): Byte { (if uv then FLAG_UV else 0) + (if up then FLAG_UP else 0) }

  /** Sorts the candidates, stashes all but the first for getNextAssertion, and asserts the first. */
  function AssertFirst(a: Auth, rows: seq<Credential>, up: bool, uv: bool, withSecret: bool, w: World): Out<Signed>
    requires rows != []
  {
    var sorted := SortByUse(rows);
    var flags := AssertionFlags(up, uv);
    var stash :=
      if |sorted| > 1 then Some(Stash(sorted[1..], flags, up, withSecret, w.now + USER_ACTION_TIMEOUT)) else None;
    var total := if |sorted| > 1 then Some(|sorted|) else None;
    var o := BuildAssertion(a.(stash := stash), sorted[0], flags, up, withSecret, total, w);
    if o.r.Failure? then o.(a := o.a.(stash := None)) else o
  }

  function GetAssertion(c: Crypto, a: Auth, q: AssertionRequest, w: World): Out<Signed> {
    var a0 := a.(stash := None);
    var up := q.up.GetOr(true);
    var rows := Candidates(a.d.mem.creds, c.sha256(q.rpId), q.allowList);
    if q.rpId == [] || |q.rpId| > 255 then Out(a0, Failure(InvalidParameter), [])
    else if q.uv == Some(true) then Out(a0, Failure(InvalidOption), [])
    else
      var (m, uv, used) := CheckPinAuth(c, a0, q.pinAuth, q.clientDataHash, PERM_GA, q.rpId, w);
      var a1 := a0.(m := m);
      if uv.Failure? then Out(a1, Failure(uv.error), used)
      else if rows == [] then Out(a1, Failure(NoCredentials), used)
      else if up && w.presence != Allow then
        Out(a1, Failure(if w.presence == Cancelled then KeepaliveCancel else if w.presence == Deny then OperationDenied
                        else UserActionTimeout), used)
      else
        var o := AssertFirst(a1, rows, up, uv.value, q.hmacSecret, w);
        o.(events := used + o.events)
  }

  function GetNextAssertion(a: Auth, w: World): Out<Signed> {
    if a.stash.None? || a.stash.value.remaining == [] || w.now > a.stash.value.expiry then
      Out(a.(stash := None), Failure(NotAllowed), [])
    else
      var s := a.stash.value;
      var rest := s.remaining[1..];
      var o := BuildAssertion(a, s.remaining[0], s.flags, s.bump, s.withSecret, None, w);
      o.(a := o.a.(stash := if rest == [] then None else Some(s.(remaining := rest))))
  }

  // ---------------------------------------------------------------- makeCredential

  predicate Excluded(rows: seq<Credential>, rpIdHash: seq<Byte>, list: seq<Descriptor>) {
    exists x <- list :: x.isPublicKey && Find(rows, rpIdHash, x.id).Some?
  }

  /** Erases the rows among olds with the user id, saving with the outcomes from the i-th on; a failed erase is
      ignored. The second result is the number of the next save. */
  function EraseSameUser(d: Durable, olds: seq<Credential>, userId: seq<Byte>, w: World, i: nat): (Durable, nat)
    decreases |olds|
  {
    if olds == [] then (d, i)
    else if olds[0].userId == userId then
      EraseSameUser(Erase(d, olds[0].credId, w.saves(i)).0, olds[1..], userId, w, i + 1)
    else EraseSameUser(d, olds[1..], userId, w, i)
  }

  function NewRow(q: CredentialRequest, rpIdHash: Bytes32, k: Fresh, now: U64): Credential {
    Credential(q.rpId, rpIdHash, q.rpName, q.userId, q.userName, q.userDisplay, k.credId, k.backend,
               if k.backend == Software then [] else k.handle, if k.backend == Software then k.priv else [],
               k.pubX, k.pubY, 1, now, now, k.credRandom, true)
  }

  /** The request's own checks, in the code's order. */
  function CheckRequest(q: CredentialRequest): Result<()> {
    if q.enterprise then Failure(InvalidParameter)
    else if q.rpId == [] || |q.rpId| > 255 then Failure(InvalidParameter)
    else if |q.userId| > 64 then Failure(LimitExceeded)
    else if !q.hasEs256 then Failure(UnsupportedAlgorithm)
    else if q.up == Some(false) then Failure(InvalidOption)
    else if q.rk == Some(false) then Failure(UnsupportedOption)
    else if q.uv == Some(true) then Failure(InvalidOption)
    else if q.credProtect.GetOr(0) > 1 then Failure(UnsupportedExtension)
    else Success(())
  }

  /** Everything that can refuse a registration before a key is generated: the UV flag, or the first failure. */
  function RegistrationGates(c: Crypto, a: Auth, q: CredentialRequest, w: World): (Pins, Result<bool>, seq<Event>) {
    if CheckRequest(q).Failure? then (a.m, Failure(CheckRequest(q).error), [])
    else
      var (m, uv, used) := CheckPinAuth(c, a, q.pinAuth, q.clientDataHash, PERM_MC, q.rpId, w);
      (m,
       if uv.Failure? then uv
       else if w.presence == Cancelled then Failure(KeepaliveCancel)
       else if Excluded(a.d.mem.creds, c.sha256(q.rpId), q.excludeList) then Failure(CredentialExcluded)
       else if w.presence == Deny then Failure(OperationDenied)
       else if w.presence == TimedOut then Failure(UserActionTimeout)
       else if |a.d.mem.creds| == MAX_CREDENTIALS then Failure(KeyStoreFull)
       else if w.newKey.None? then Failure(Other)
       else uv,
       used)
  }

  /** Replaces the user's old discoverable rows by the new one, saved before the registration is signed. */
  function AddCredential(c: Crypto, a: Auth, q: CredentialRequest, k: Fresh, uv: bool, w: World): Out<Signed> {
    var rpIdHash := c.sha256(q.rpId);
    var row := NewRow(q, rpIdHash, k, w.unix);
    var (d1, i) := EraseSameUser(a.d, FindByRp(a.d.mem.creds, rpIdHash), q.userId, w, 0);
    var (d2, put) := Put(d1, row, w.saves(i));
    if put.Failure? then Out(a.(d := d2), Failure(if put.error == KeyStoreFull then KeyStoreFull else Other), [])
    else if !w.signs then Out(a.(d := d2), Failure(Other), [])
    else
      var flags := FLAG_UP + FLAG_AT + (if uv then FLAG_UV else 0) + (if q.hmacCreate then FLAG_ED else 0);
      Out(a.(d := d2), Success(Signed(row.credId, flags, row.signCount, None)), [Released(row.credId, row.signCount)])
  }

  function MakeCredential(c: Crypto, a: Auth, q: CredentialRequest, w: World): Out<Signed> {
    var (m, gate, used) := RegistrationGates(c, a, q, w);
    if gate.Failure? || w.newKey.None? then
      Out(a.(m := m), if gate.Failure? then Failure(gate.error) else Failure(Other), used)
    else
      var o := AddCredential(c, a.(m := m), q, w.newKey.value, gate.value, w);
      o.(events := used + o.events)
  }

  // ---------------------------------------------------------------- CTAP1 / U2F

  datatype Sw = ConditionsNotSatisfied | WrongData | IncorrectP1P2 | ExecutionError
  datatype U2fReply = Refused(sw: Sw) | Registered(keyHandle: Bytes32) | Authenticated(presence: Byte, count: U32)

  const AUTH_ENFORCE: Byte := 0x03
  const AUTH_CHECK_ONLY: Byte := 0x07
  const AUTH_DONT_ENFORCE: Byte := 0x08

  function HexDigits(b: seq<Byte>): (h: seq<Byte>)
    ensures |h| == 2 * |b|
  {
    if b == [] then [] else [HexDigit(b[0] / 16), HexDigit(b[0] % 16)] + HexDigits(b[1..])
  }

  function U2fCredential(application: Bytes32, k: Fresh, now: U64): Credential {
    Credential(Ascii("u2f:") + HexDigits(application), application, [], [], [], [], k.credId, k.backend,
               if k.backend == Software then [] else k.handle, if k.backend == Software then k.priv else [],
               k.pubX, k.pubY, 1, now, now, k.credRandom, false)
  }

  /** The attestation key is made and saved on first use; the row is saved before the reply. */
  function U2fRegister(a: Auth, application: Bytes32, w: World): (Auth, U2fReply, seq<Event>) {
    if w.presence != Allow then (a, Refused(ConditionsNotSatisfied), [])
    else if |a.d.mem.creds| == MAX_CREDENTIALS || w.attestation.None? then (a, Refused(ExecutionError), [])
    else
      var first := a.d.mem.u2f.None?;
      var (d1, saved) := if first then SetU2fAttestation(a.d, w.attestation.value, w.saves(1)) else (a.d, Success(()));
      if saved.Failure? || w.newKey.None? || !w.signs then (a.(d := d1), Refused(ExecutionError), [])
      else
        var row := U2fCredential(application, w.newKey.value, w.unix);
        var (d2, put) := Put(d1, row, w.saves(0));
        (a.(d := d2), if put.Failure? then Refused(ExecutionError) else Registered(row.credId), [])
  }

  function U2fAuthenticate(a: Auth, control: Byte, application: Bytes32, keyHandle: seq<Byte>,
                           w: World): (Auth, U2fReply, seq<Event>) {
    var cred := Find(a.d.mem.creds, application, keyHandle);
    var bump := control == AUTH_ENFORCE;
    if control != AUTH_ENFORCE && control != AUTH_CHECK_ONLY && control != AUTH_DONT_ENFORCE then
      (a, Refused(IncorrectP1P2), [])
    else if cred.None? then (a, Refused(WrongData), [])
    else if control == AUTH_CHECK_ONLY then (a, Refused(ConditionsNotSatisfied), [])
    else if bump && w.presence != Allow then (a, Refused(ConditionsNotSatisfied), [])
    else if w.keyError.Some? || !w.signs then (a, Refused(ExecutionError), [])
    else if !bump then (a, Authenticated(0, cred.value.signCount), [])
    else
      var count := (cred.value.signCount + 1) % TWO32;
      var (d, saved) := UpdateCountAndUsed(a.d, cred.value.credId, count, w.unix, w.saves(0));
      if saved.Failure? then (a.(d := d), Refused(ExecutionError), [])
      else (a.(d := d), Authenticated(1, count), [Released(cred.value.credId, count)])
  }

  // ---------------------------------------------------------------- reset and the control socket

  function Reset(a: Auth, w: World): Out<()> {
    if AfterPresence(w.presence).Failure? then Out(a, AfterPresence(w.presence), [])
    else
      var (d, r) := FactoryReset(a.d, w.reset);
      var a1 := a.(d := d, stash := None);
      if r.Failure? then Out(a1, Failure(Other), [WasReset(false)])
      else
        Out(a1.(m := Regenerate(a.m, w.newKeyAgreement)), if w.reinit then Success(()) else Failure(Other),
            [WasReset(true)] + Gone(a.m))
  }

  function CtlSetPin(c: Crypto, a: Auth, pin: seq<Byte>, w: World): Out<()> {
    if AfterPresence(w.presence).Failure? then Out(a, AfterPresence(w.presence), [])
    else
      var o := SetPinLocal(c, a.d, a.m, pin, w);
      Out(a.(d := o.d, m := o.m), o.r, o.events)
  }

  function CtlDelete(a: Auth, id: seq<Byte>, w: World): Out<()> {
    if FindById(a.d.mem.creds, id).None? then Out(a, Failure(InvalidCredential), [])
    else
      var (d, r) := Erase(a.d, id, w.saves(0));
      Out(a.(d := d, stash := None), r, [])
  }

  // ---------------------------------------------------------------- dispatch

  datatype PinCommand =
    | SetPinCmd(platformKey: seq<Byte>, newEnc: seq<Byte>, mac: seq<Byte>)
    | ChangePinCmd(platformKey: seq<Byte>, hashEnc: seq<Byte>, newEnc: seq<Byte>, mac: seq<Byte>)
    | GetTokenCmd(platformKey: seq<Byte>, hashEnc: seq<Byte>)
    | GetPermittedTokenCmd(platformKey: seq<Byte>, hashEnc: seq<Byte>, permissions: nat, rpId: Option<seq<Byte>>)

  /** What a successful command answers with. */
  datatype Reply = SignedReply(signed: Signed) | TokenReply(bytes: Bytes32) | Done

  /** A CBOR request after parsing. Harmless stands for those that read or change nothing modelled here: getInfo,
      authenticatorSelection, the reading clientPIN subcommands, unknown commands and malformed bodies; what they
      answer is given. */
  datatype Command =
    | MakeCredentialCmd(mc: CredentialRequest) | GetAssertionCmd(ga: AssertionRequest) | GetNextAssertionCmd
    | PinCmd(pin: PinCommand) | ResetCmd | Harmless(answer: Result<Reply>)

  function AsReply<T>(r: Result<T>, f: T -> Reply): Result<Reply> {
    match r case Success(v) => Success(f(v)) case Failure(e) => Failure(e)
  }

  function HandlePin(c: Crypto, a: Auth, p: PinCommand, w: World): Out<Reply> {
    match p
    case SetPinCmd(key, newEnc, mac) =>
      var o := SetNewPin(c, a.d, a.m, key, newEnc, mac, w);
      Out(a.(d := o.d, m := o.m), AsReply(o.r, (_) => Done), o.events)
    case ChangePinCmd(key, hashEnc, newEnc, mac) =>
      var o := ChangePin(c, a.d, a.m, key, hashEnc, newEnc, mac, w);
      Out(a.(d := o.d, m := o.m), AsReply(o.r, (_) => Done), o.events)
    case GetTokenCmd(key, hashEnc) =>
      var o := GetToken(c, a.d, a.m, key, hashEnc, PERM_MC + PERM_GA, None, w);
      Out(a.(d := o.d, m := o.m), AsReply(o.r, b => TokenReply(b)), o.events)
    case GetPermittedTokenCmd(key, hashEnc, permissions, rpId) =>
      var o := GetTokenWithPermissions(c, a.d, a.m, key, hashEnc, permissions, rpId, w);
      Out(a.(d := o.d, m := o.m), AsReply(o.r, b => TokenReply(b)), o.events)
  }

  /** handle_cbor on a nonempty request: every command but getNextAssertion drops the pending assertions first. */
  function HandleCbor(c: Crypto, a: Auth, cmd: Command, w: World): Out<Reply> {
    var a0 := if cmd.GetNextAssertionCmd? then a else a.(stash := None);
    match cmd
    case MakeCredentialCmd(q) =>
      var o := MakeCredential(c, a0, q, w);
      Out(o.a, AsReply(o.r, g => SignedReply(g)), o.events)
    case GetAssertionCmd(q) =>
      var o := GetAssertion(c, a0, q, w);
      Out(o.a, AsReply(o.r, g => SignedReply(g)), o.events)
    case GetNextAssertionCmd =>
      var o := GetNextAssertion(a0, w);
      Out(o.a, AsReply(o.r, g => SignedReply(g)), o.events)
    case PinCmd(p) => HandlePin(c, a0, p, w)
    case ResetCmd => (var o := Reset(a0, w); Out(o.a, AsReply(o.r, (_) => Done), o.events))
    case Harmless(answer) => Out(a0, answer, [])
  }
}
