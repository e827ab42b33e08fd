/** authenticatorClientPIN, PIN protocol 2 (src/ctap/client_pin.cpp; section 6.5 of CTAP 2.1). */
module ClientPin {
  import opened Bytes
  import opened Statuses
  import opened StoreCodec
  import opened Store
  import opened World

  const PERM_MC: Byte := 1
  const PERM_GA: Byte := 2
  const MAX_PIN_BYTES := 63
  const MIN_CODE_POINTS := 4

  datatype Token = Token(instance: nat, bytes: Bytes32, permissions: Byte, rpId: Option<seq<Byte>>, expiry: nat)

  /** PinManager's own state. instances counts the tokens ever issued. */
  datatype Pins = Pins(token: Option<Token>, instances: nat, keyAgreement: Option<nat>, failures: nat, delayBase: nat,
                       idle: nat)

  /** The store and the PIN manager after an operation, its result, and what was observable. */
  datatype PinOut<+T> = PinOut(d: Durable, m: Pins, r: Result<T>, events: seq<Event>)

  predicate HasPermission(permissions: Byte, permission: Byte)
    requires permission == PERM_MC || permission == PERM_GA
  {
    permissions / permission % 2 == 1
  }

  // ---------------------------------------------------------------- helpers

  function PinSet(d: Durable): bool { d.mem.pin.hash.Some? }

  function DropToken(m: Pins): Pins { m.(token := None) }

  function Gone(m: Pins): seq<Event> { if m.token.Some? then [TokenGone(m.token.value.instance)] else [] }

  /** regenerate_key_agreement: the token goes first; a failed generation keeps the old key. */
  function Regenerate(m: Pins, newKey: Option<nat>): Pins {
    DropToken(m).(keyAgreement := if newKey.Some? then newKey else m.keyAgreement)
  }

  function SharedSecret(c: Crypto, m: Pins, platformKey: seq<Byte>): Result<Secret> {
    if m.keyAgreement.None? then Failure(Other)
    else
      match c.agree(m.keyAgreement.value, platformKey)
      case None => Failure(InvalidParameter)
      case Some(z) => match c.derive(z) case None => Failure(Other) case Some(s) => Success(s)
  }

  function Decrypt(c: Crypto, s: Secret, ct: seq<Byte>): Option<seq<Byte>> {
    if |ct| < 32 || |ct| % 16 != 0 then None else c.decrypt(s.aesKey, ct[..16], ct[16..])
  }

  function MacOk(c: Crypto, key: seq<Byte>, msg: seq<Byte>, mac: seq<Byte>): bool {
    match c.hmac(key, msg) case None => false case Some(m) => m == mac
  }

  /** Bytes that are not UTF-8 continuation bytes. */
  function CodePoints(s: seq<Byte>): nat {
    if s == [] then 0 else (if 0x80 <= s[0] < 0xC0 then 0 else 1) + CodePoints(s[1..])
  }

  function UpToZero(s: seq<Byte>): (n: nat)
    ensures n <= |s|
  {
    if s == [] || s[0] == 0 then 0 else 1 + UpToZero(s[1..])
  }

  predicate PolicyOk(pin: seq<Byte>) {
    pin != [] && MIN_CODE_POINTS <= CodePoints(pin) <= 63 && |pin| <= MAX_PIN_BYTES
  }

  function PinHash(c: Crypto, pin: seq<Byte>): Bytes16 { c.sha256(pin)[..16] }

  function PinFromPadded(c: Crypto, s: Secret, enc: seq<Byte>): Result<Bytes16> {
    match Decrypt(c, s, enc)
    case None => Failure(PinAuthInvalid)
    case Some(padded) =>
      if |padded| < 64 || !PolicyOk(padded[..UpToZero(padded)]) then Failure(PinPolicyViolation)
      else Success(PinHash(c, padded[..UpToZero(padded)]))
  }

  function Doubled(d: nat, n: nat): nat
    decreases n
  {
    if n == 0 then d else Doubled(2 * d, n - 1)
  }

  /** No delay for two misses, then the base delay doubling per miss, up to twelve times the base. */
  function FailureDelay(failures: nat, base: nat): nat {
    if failures < 3 then 0 else Min(Doubled(base, failures - 3), 12 * base)
  }

  // ---------------------------------------------------------------- operations

  /** check_pin_hash. The retry counter is decremented and saved before the hashes are compared. */
  function CheckPinHash(c: Crypto, d: Durable, m: Pins, s: Secret, enc: seq<Byte>, w: World): PinOut<()> {
    var pin := d.mem.pin;
    if pin.hash.None? then PinOut(d, m, Failure(PinNotSet), [])
    else if pin.retries == 0 then PinOut(d, m, Failure(PinBlocked), [])
    else if FailureDelay(m.failures, m.delayBase) > 0 && w.cancelledWaiting then
      PinOut(d, m, Failure(KeepaliveCancel), [])
    else
      match Decrypt(c, s, enc)
      case None => PinOut(d, m, Failure(PinAuthInvalid), [])
      case Some(got) =>
        if |got| != 16 then PinOut(d, m, Failure(PinAuthInvalid), [])
        else
          var spent := pin.(retries := pin.retries - 1);
          var (d1, saved) := SetPin(d, spent, w.saves(0));
          if saved.Failure? then PinOut(d1, m, Failure(Other), [])
          else if got != pin.hash.value then
            PinOut(d1, Regenerate(m, w.newKeyAgreement).(failures := m.failures + 1),
                   Failure(if spent.retries == 0 then PinBlocked else PinInvalid), [WrongGuess] + Gone(m))
          else
            PinOut(if spent.retries == MAX_RETRIES then d1
                   else SetPin(d1, spent.(retries := MAX_RETRIES), w.saves(1)).0,
                   m.(failures := 0), Success(()), [RightGuess])
  }

  /** Stores a new PIN hash with a full retry budget. */
  function WritePin(d: Durable, m: Pins, hash: Bytes16, how: Writing, ok: bool): PinOut<()> {
    var (d', r) := SetPin(d, PinState(Some(hash), MAX_RETRIES), ok);
    PinOut(d', m, if r.Success? then Success(()) else Failure(Other), [PinWritten(how, ok)])
  }

  /** setPIN: only while no PIN is set. */
  function SetNewPin(c: Crypto, d: Durable, m: Pins, platformKey: seq<Byte>, newEnc: seq<Byte>, mac: seq<Byte>,
                     w: World): PinOut<()> {
    if PinSet(d) then PinOut(d, m, Failure(PinAuthInvalid), [])
    else
      match SharedSecret(c, m, platformKey)
      case Failure(e) => PinOut(d, m, Failure(e), [])
      case Success(s) =>
        if !MacOk(c, s.hmacKey, newEnc, mac) then PinOut(d, m, Failure(PinAuthInvalid), [])
        else
          match PinFromPadded(c, s, newEnc)
          case Failure(e) => PinOut(d, m, Failure(e), [])
          case Success(hash) =>
            var o := WritePin(d, m, hash, FirstSet, w.saves(0));
            if o.r.Success? then o.(m := m.(failures := 0)) else o
  }

  /** changePIN: the current PIN first; on success outstanding tokens go. */
  function ChangePin(c: Crypto, d: Durable, m: Pins, platformKey: seq<Byte>, hashEnc: seq<Byte>, newEnc: seq<Byte>,
                     mac: seq<Byte>, w: World): PinOut<()> {
    match SharedSecret(c, m, platformKey)
    case Failure(e) => PinOut(d, m, Failure(e), [])
    case Success(s) =>
      if !MacOk(c, s.hmacKey, newEnc + hashEnc, mac) then PinOut(d, m, Failure(PinAuthInvalid), [])
      else
        var check := CheckPinHash(c, d, m, s, hashEnc, w);
        if check.r.Failure? then check
        else
          match PinFromPadded(c, s, newEnc)
          case Failure(e) => check.(r := Failure(e))
          case Success(hash) =>
            var o := WritePin(check.d, check.m, hash, Changed, w.saves(2));
            if o.r.Failure? then o.(events := check.events + o.events)
            else PinOut(o.d, DropToken(o.m), Success(()), check.events + o.events + Gone(o.m))
  }

  /** getPinToken and getPinUvAuthTokenUsingPinWithPermissions, after their parameter checks. */
  function GetToken(c: Crypto, d: Durable, m: Pins, platformKey: seq<Byte>, hashEnc: seq<Byte>, permissions: Byte,
                    rpId: Option<seq<Byte>>, w: World): PinOut<Bytes32> {
    match SharedSecret(c, m, platformKey)
    case Failure(e) => PinOut(d, m, Failure(e), [])
    case Success(s) =>
      var check := CheckPinHash(c, d, m, s, hashEnc, w);
      if check.r.Failure? then PinOut(check.d, check.m, Failure(check.r.error), check.events)
      else if w.tokenBytes.None? then PinOut(check.d, check.m, Failure(Other), check.events)
      else
        var n := check.m.instances;
        var token := Token(n, w.tokenBytes.value, permissions, rpId, w.later + m.idle);
        var issued := check.events + Gone(check.m) + [TokenIssued(n, permissions, rpId, w.later)];
        var m' := check.m.(token := Some(token), instances := n + 1);
        if w.encrypts then PinOut(check.d, m', Success(token.bytes), issued)
        else PinOut(check.d, DropToken(m'), Failure(Other), issued + Gone(m'))
  }

  /** The token of subcommand 0x09: permissions are limited to mc and ga, and mc needs an rpId. */
  function GetTokenWithPermissions(c: Crypto, d: Durable, m: Pins, platformKey: seq<Byte>, hashEnc: seq<Byte>,
                                   permissions: nat, rpId: Option<seq<Byte>>, w: World): PinOut<Bytes32> {
    if permissions == 0 || permissions > 0xFF then PinOut(d, m, Failure(InvalidParameter), [])
    else if permissions / 4 != 0 || (permissions % 2 == 1 && rpId.None?) then
      PinOut(d, m, Failure(UnauthorizedPermission), [])
    else GetToken(c, d, m, platformKey, hashEnc, permissions, rpId, w)
  }

  /** verify: w.now is read for the expiry check, w.later for the new expiry. */
  function Verify(c: Crypto, m: Pins, mac: seq<Byte>, protocol: nat, clientDataHash: seq<Byte>,
                  permission: Byte, rpId: seq<Byte>, w: World): (Pins, Result<bool>, seq<Event>)
    requires permission == PERM_MC || permission == PERM_GA
  {
    if protocol != 2 then (m, Failure(InvalidParameter), [])
    else if m.token.None? then (m, Failure(PinAuthInvalid), [])
    else
      var t := m.token.value;
      if w.now > t.expiry then (DropToken(m), Failure(PinAuthInvalid), Gone(m))
      else if !MacOk(c, t.bytes, clientDataHash, mac) then (m, Failure(PinAuthInvalid), [])
      else if !HasPermission(t.permissions, permission) then (m, Failure(UnauthorizedPermission), [])
      else if t.rpId.Some? && t.rpId.value != rpId then (m, Failure(PinAuthInvalid), [])
      else (m.(token := Some(t.(rpId := Some(rpId), expiry := w.later + m.idle))), Success(true),
            [TokenUsed(t.instance, permission, rpId, w.now, w.later)])
  }

  /** set_pin_local, from the control socket. */
  function SetPinLocal(c: Crypto, d: Durable, m: Pins, pin: seq<Byte>, w: World): PinOut<()> {
    if !PolicyOk(pin) then PinOut(d, m, Failure(PinPolicyViolation), [])
    else
      var o := WritePin(d, m, PinHash(c, pin), SetLocally, w.saves(0));
      if o.r.Failure? then o
      else PinOut(o.d, DropToken(m).(failures := 0), Success(()), o.events + Gone(m))
  }
}
