/** The PinManager object of src/ctap/client_pin.cpp over the CredentialStore object. */
module ClientPinIo {
  import opened Bytes
  import opened Statuses
  import opened StoreCodec
  import opened Store
  import opened StoreIo
  import opened World
  import opened ClientPin

  /** Bytes whose top two bits are not 10. */
  method CountCodePoints(pin: seq<Byte>) returns (cps: nat)
    ensures cps == CodePoints(pin)
  {
    cps := 0;
    var i := 0;
    while i < |pin|
      invariant 0 <= i <= |pin| && cps + CodePoints(pin[i..]) == CodePoints(pin)
    {
      assert pin[i..][1..] == pin[i + 1..];
      if pin[i] / 64 != 2 {
        cps := cps + 1;
      }
      i := i + 1;
    }
  }

  lemma {:induction false} DoubledGrows(d: nat, n: nat)
    ensures Doubled(d, n) >= d
    decreases n
  {
    if n > 0 {
      DoubledGrows(2 * d, n - 1);
    }
  }

  /** The loop stops doubling once the cap is reached. */
  method DelayFor(consecutive: nat, base: nat) returns (delay: nat)
    ensures delay == FailureDelay(consecutive, base)
  {
    if consecutive < 3 {
      return 0;
    }
    var d: nat, cap: nat := base, base * 12;
    var i := 3;
    while i < consecutive && d < cap
      invariant 3 <= i <= consecutive && Doubled(d, consecutive - i) == Doubled(base, consecutive - 3)
    {
      d := d * 2;
      i := i + 1;
    }
    DoubledGrows(d, consecutive - i);
    return if d > cap then cap else d;
  }

  class PinManager {
    const crypto: Crypto
    const store: CredentialStore
    const delayBase: nat
    const idle: nat
    var token: Option<Token>
    var instances: nat  // tokens ever issued
    var keyAgreement: Option<nat>
    var failures: nat
    ghost var log: seq<Event>

    /** A key agreement key is made at once; that may fail. */
    constructor (crypto: Crypto, store: CredentialStore, delayBase: nat, idle: nat, firstKey: Option<nat>)
      ensures this.crypto == crypto && this.store == store && log == []
      ensures Pins() == ClientPin.Pins(None, 0, firstKey, 0, delayBase, idle)
    {
      this.crypto, this.store, this.delayBase, this.idle := crypto, store, delayBase, idle;
      token, instances, keyAgreement, failures, log := None, 0, firstKey, 0, [];
    }

    ghost function Pins(): ClientPin.Pins
      reads this
    {
      ClientPin.Pins(token, instances, keyAgreement, failures, delayBase, idle)
    }

    /** The store, the manager and the log after an operation that was to have the outcome o. */
    ghost predicate Became<T>(o: PinOut<T>, before: seq<Event>)
      reads this, store
    {
      store.Contents() == o.d && Pins() == o.m && log == before + o.events
    }

    method InvalidateToken()
      modifies this`token, this`log
      ensures Pins() == DropToken(old(Pins())) && log == old(log) + Gone(old(Pins()))
    {
      log := log + Gone(Pins());
      if token.Some? {
        token := None;
      }
    }

    method RegenerateKeyAgreement(newKey: Option<nat>)
      modifies this`token, this`keyAgreement, this`log
      ensures Pins() == Regenerate(old(Pins()), newKey) && log == old(log) + Gone(old(Pins()))
    {
      InvalidateToken();
      if newKey.Some? {
        keyAgreement := newKey;
      }
    }

    method SharedSecretFor(platformKey: seq<Byte>) returns (s: Result<Secret>)
      ensures s == SharedSecret(crypto, Pins(), platformKey)
    {
      if keyAgreement.None? {
        return Failure(Other);
      }
      var z := crypto.agree(keyAgreement.value, platformKey);
      if z.None? {
        return Failure(InvalidParameter);
      }
      var derived := crypto.derive(z.value);
      return if derived.Some? then Success(derived.value) else Failure(Other);
    }

    method PinHashFromPadded(s: Secret, enc: seq<Byte>) returns (hash: Result<Bytes16>)
      ensures hash == PinFromPadded(crypto, s, enc)
    {
      var padded := Decrypt(crypto, s, enc);
      if padded.None? {
        return Failure(PinAuthInvalid);
      }
      if |padded.value| < 64 {
        return Failure(PinPolicyViolation);
      }
      var len := 0;
      while len < |padded.value| && padded.value[len] != 0
        invariant 0 <= len <= |padded.value| && UpToZero(padded.value) == len + UpToZero(padded.value[len..])
      {
        assert padded.value[len..][1..] == padded.value[len + 1..];
        len := len + 1;
      }
      var pin := padded.value[..len];
      var cps := CountCodePoints(pin);
      if len == 0 || cps < MIN_CODE_POINTS || cps > 63 || len > MAX_PIN_BYTES {
        return Failure(PinPolicyViolation);
      }
      return Success(PinHash(crypto, pin));
    }

    /** The retry counter is saved before the hashes are compared. */
    method CheckPinHash(s: Secret, enc: seq<Byte>, w: World) returns (r: Result<()>)
      modifies this`token, this`keyAgreement, this`failures, this`log, store`pin, store`disk, store`opens
      ensures var o := ClientPin.CheckPinHash(crypto, old(store.Contents()), old(Pins()), s, enc, w);
              Became(o, old(log)) && r == o.r
    {
      hide Serialize, Decrypt;
      assert log + [] == log;
      var pin := store.pin;
      if pin.hash.None? {
        return Failure(PinNotSet);
      }
      if pin.retries == 0 {
        return Failure(PinBlocked);
      }
      var delay := DelayFor(failures, delayBase);
      if delay > 0 && w.cancelledWaiting {
        return Failure(KeepaliveCancel);
      }
      var got := Decrypt(crypto, s, enc);
      if got.None? || |got.value| != 16 {
        return Failure(PinAuthInvalid);
      }
      pin := pin.(retries := pin.retries - 1);
      var saved := store.SetPin(pin, w.saves(0));
      if saved.Failure? {
        return Failure(Other);
      }
      if got.value != pin.hash.value {
        log := log + [WrongGuess];
        failures := failures + 1;
        RegenerateKeyAgreement(w.newKeyAgreement);
        assert log == old(log) + ([WrongGuess] + Gone(old(Pins())));
        return Failure(if pin.retries == 0 then PinBlocked else PinInvalid);
      }
      log := log + [RightGuess];
      failures := 0;
      if pin.retries != MAX_RETRIES {
        pin := pin.(retries := MAX_RETRIES);
        var restored := store.SetPin(pin, w.saves(1));
      }
      return Success(());
    }

    /** Stores a new hash with a full retry budget. */
    method StorePin(hash: Bytes16, how: Writing, ok: bool) returns (r: Result<()>)
      modifies this`log, store`pin, store`disk, store`opens
      ensures var o := WritePin(old(store.Contents()), old(Pins()), hash, how, ok);
              Became(o, old(log)) && r == o.r
    {
      hide Serialize;
      log := log + [PinWritten(how, ok)];
      var saved := store.SetPin(PinState(Some(hash), MAX_RETRIES), ok);
      return if saved.Failure? then Failure(Other) else Success(());
    }

    method SetPin(platformKey: seq<Byte>, newEnc: seq<Byte>, mac: seq<Byte>, w: World) returns (r: Result<()>)
      modifies this`failures, this`log, store`pin, store`disk, store`opens
      ensures var o := SetNewPin(crypto, old(store.Contents()), old(Pins()), platformKey, newEnc, mac, w);
              Became(o, old(log)) && r == o.r
    {
      hide PinFromPadded, WritePin, SharedSecret;
      assert log + [] == log;
      if store.pin.hash.Some? {
        return Failure(PinAuthInvalid);
      }
      var s :- SharedSecretFor(platformKey);
      if !MacOk(crypto, s.hmacKey, newEnc, mac) {
        return Failure(PinAuthInvalid);
      }
      var hash :- PinHashFromPadded(s, newEnc);
      WritePinKeeps(store.Contents(), Pins(), hash, FirstSet, w.saves(0));
      r := StorePin(hash, FirstSet, w.saves(0));
      if r.Success? {
        failures := 0;
      }
    }

    static lemma WritePinKeeps(d: Durable, m: ClientPin.Pins, hash: Bytes16, how: Writing, ok: bool)
      ensures WritePin(d, m, hash, how, ok).m == m && WritePin(d, m, hash, how, ok).events == [PinWritten(how, ok)]
    {
    }

    method ChangePin(platformKey: seq<Byte>, hashEnc: seq<Byte>, newEnc: seq<Byte>, mac: seq<Byte>, w: World)
      returns (r: Result<()>)
      modifies this`token, this`keyAgreement, this`failures, this`log, store`pin, store`disk, store`opens
      ensures var o := ClientPin.ChangePin(crypto, old(store.Contents()), old(Pins()), platformKey, hashEnc, newEnc,
                                           mac, w);
              Became(o, old(log)) && r == o.r
    {
      hide ClientPin.CheckPinHash, PinFromPadded, WritePin, SharedSecret, MacOk;
      assert log + [] == log;
      ghost var before := log;
      var s :- SharedSecretFor(platformKey);
      if !MacOk(crypto, s.hmacKey, newEnc + hashEnc, mac) {
        return Failure(PinAuthInvalid);
      }
      ghost var check := ClientPin.CheckPinHash(crypto, store.Contents(), Pins(), s, hashEnc, w);
      var checked :- CheckPinHash(s, hashEnc, w);
      var hash :- PinHashFromPadded(s, newEnc);
      WritePinKeeps(store.Contents(), Pins(), hash, Changed, w.saves(2));
      r := StorePin(hash, Changed, w.saves(2));
      assert log == before + (check.events + [PinWritten(Changed, w.saves(2))]);
      if r.Success? {
        InvalidateToken();
        assert log == before + (check.events + [PinWritten(Changed, w.saves(2))] + Gone(check.m));
        return Success(());
      }
    }

    method GetToken(platformKey: seq<Byte>, hashEnc: seq<Byte>, permissions: Byte, rpId: Option<seq<Byte>>, w: World)
      returns (r: Result<Bytes32>)
      modifies this`token, this`instances, this`keyAgreement, this`failures, this`log, store`pin,
               store`disk, store`opens
      ensures var o := ClientPin.GetToken(crypto, old(store.Contents()), old(Pins()), platformKey, hashEnc,
                                          permissions, rpId, w);
              Became(o, old(log)) && r == o.r
    {
      hide ClientPin.CheckPinHash, SharedSecret;
      assert log + [] == log;
      ghost var before := log;
      var s :- SharedSecretFor(platformKey);
      ghost var check := ClientPin.CheckPinHash(crypto, store.Contents(), Pins(), s, hashEnc, w);
      var checked :- CheckPinHash(s, hashEnc, w);
      if w.tokenBytes.None? {
        return Failure(Other);
      }
      var t := Token(instances, w.tokenBytes.value, permissions, rpId, w.later + idle);
      InvalidateToken();
      token := Some(t);
      instances := instances + 1;
      log := log + [TokenIssued(t.instance, permissions, rpId, w.later)];
      ghost var issued := check.events + Gone(check.m) + [TokenIssued(t.instance, permissions, rpId, w.later)];
      assert log == before + issued;
      if !w.encrypts {
        ghost var m := Pins();
        InvalidateToken();
        assert log == before + (issued + Gone(m));
        return Failure(Other);
      }
      return Success(t.bytes);
    }

    method Verify(mac: seq<Byte>, protocol: nat, clientDataHash: seq<Byte>, permission: Byte, rpId: seq<Byte>, w: World)
      returns (r: Result<bool>)
      requires permission == PERM_MC || permission == PERM_GA
      modifies this`token, this`log
      ensures var (m, result, events) := ClientPin.Verify(crypto, old(Pins()), mac, protocol, clientDataHash,
                                                          permission, rpId, w);
              Pins() == m && r == result && log == old(log) + events
    {
      assert log + [] == log;
      if protocol != 2 {
        return Failure(InvalidParameter);
      }
      if token.None? {
        return Failure(PinAuthInvalid);
      }
      if w.now > token.value.expiry {
        InvalidateToken();
        return Failure(PinAuthInvalid);
      }
      if !MacOk(crypto, token.value.bytes, clientDataHash, mac) {
        return Failure(PinAuthInvalid);
      }
      if !HasPermission(token.value.permissions, permission) {
        return Failure(UnauthorizedPermission);
      }
      if token.value.rpId.Some? {
        if token.value.rpId.value != rpId {
          return Failure(PinAuthInvalid);
        }
      } else {
        token := Some(token.value.(rpId := Some(rpId)));
      }
      token := Some(token.value.(expiry := w.later + idle));
      log := log + [TokenUsed(token.value.instance, permission, rpId, w.now, w.later)];
      return Success(true);
    }

    method SetPinLocal(pin: seq<Byte>, w: World) returns (r: Result<()>)
      modifies this`token, this`failures, this`log, store`pin, store`disk, store`opens
      ensures var o := ClientPin.SetPinLocal(crypto, old(store.Contents()), old(Pins()), pin, w);
              Became(o, old(log)) && r == o.r
    {
      hide WritePin;
      assert log + [] == log;
      ghost var before := log;
      var cps := CountCodePoints(pin);
      if pin == [] || cps < MIN_CODE_POINTS || cps > 63 || |pin| > MAX_PIN_BYTES {
        return Failure(PinPolicyViolation);
      }
      WritePinKeeps(store.Contents(), Pins(), PinHash(crypto, pin), SetLocally, w.saves(0));
      r := StorePin(PinHash(crypto, pin), SetLocally, w.saves(0));
      if r.Success? {
        failures := 0;
        InvalidateToken();
        assert log == before + ([PinWritten(SetLocally, w.saves(0))] + Gone(old(Pins())));
        return Success(());
      }
    }
  }
}
