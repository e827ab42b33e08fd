/** Runs of the authenticator: any sequence of CTAP2 commands, U2F commands and control-socket requests, each meeting
    arbitrary outcomes, with crashes between them and inside them. */
module Runs {
  import opened Bytes
  import opened StoreCodec
  import opened Store
  import opened World
  import opened ClientPin
  import opened Authenticator

  datatype Op =
    | EmptyRequest
    | Cbor(cmd: Command)
    | U2fRegisterOp(application: Bytes32)
    | U2fAuthenticateOp(control: Byte, appl: Bytes32, keyHandle: seq<Byte>)
    | CtlResetOp | CtlSetPinOp(pin: seq<Byte>) | CtlDeleteOp(id: seq<Byte>)

  function Apply(c: Crypto, a: Auth, op: Op, w: World): (Auth, seq<Event>) {
    match op
    case EmptyRequest => (a, [])
    case Cbor(cmd) => (var o := HandleCbor(c, a, cmd, w); (o.a, o.events))
    case U2fRegisterOp(application) => (var o := U2fRegister(a, application, w); (o.0, o.2))
    case U2fAuthenticateOp(control, application, keyHandle) =>
      (var o := U2fAuthenticate(a, control, application, keyHandle, w); (o.0, o.2))
    case CtlResetOp => (var o := Reset(a, w); (o.a, o.events))
    case CtlSetPinOp(pin) => (var o := CtlSetPin(c, a, pin, w); (o.a, o.events))
    case CtlDeleteOp(id) => (CtlDelete(a, id, w).a, [])
  }

  // ---------------------------------------------------------------- crashes

  /** A crash and a restart: memory comes back from the file, the token and the pending assertions are lost. */
  function Recover(a: Auth, installId: Bytes16, w: World): (Auth, seq<Event>) {
    (Auth(Recovered(a.d, installId), a.m.(token := None, keyAgreement := w.newKeyAgreement, failures := 0), None),
     Gone(a.m))
  }

  /** Nothing that these events say was saved has been: a right guess restores the budget by its second save. */
  predicate Unsaved(events: seq<Event>, w: World) {
    forall e <- events :: (e.PinWritten? ==> !e.saved) && (e.RightGuess? ==> !w.saves(1))
  }

  /** The part of an operation's events that had happened when it crashed after the first n: what was saved had. */
  function Happened(events: seq<Event>, n: nat, w: World): seq<Event> {
    if n < |events| && Unsaved(events[n..], w) then events[..n] else events
  }

  // ---------------------------------------------------------------- runs

  /** The authenticator and everything observed so far. */
  datatype Hist = Hist(a: Auth, log: seq<Event>)

  /** Where the daemon crashes in an operation, and the id a new file gets. The saves that a crash prevents are
      among those that fail. */
  datatype Crash = Crash(happened: nat, installId: Bytes16)

  datatype Happening = Happening(op: Op, w: World, crash: Option<Crash>)

  function After(c: Crypto, h: Hist, x: Happening): Hist {
    var (a, events) := Apply(c, h.a, x.op, x.w);
    match x.crash
    case None => Hist(a, h.log + events)
    case Some(Crash(n, installId)) =>
      var (b, gone) := Recover(a, installId, x.w);
      Hist(b, h.log + Happened(events, n, x.w) + gone)
  }

  function Run(c: Crypto, h: Hist, xs: seq<Happening>): Hist
    decreases |xs|
  {
    if xs == [] then h else Run(c, After(c, h, xs[0]), xs[1..])
  }

  /** A new authenticator on a store. */
  ghost predicate Starts(h: Hist) {
    StoreInv(h.a.d) && h.a.stash.None? && h.a.m.token.None? && h.log == []
    && h.a.d.mem.pin.retries <= MAX_RETRIES && OnDisk(h.a.d).pin.retries <= MAX_RETRIES
  }

  // ---------------------------------------------------------------- common facts

  /** What happened before a crash is a prefix of the operation's events. */
  lemma HappenedFirst(log: seq<Event>, events: seq<Event>, n: nat, w: World)
    ensures Happened(events, n, w) <= events && log + Happened(events, n, w) <= log + events
  {
  }

  /** A PIN authentication can only use or drop a token. */
  lemma CheckPinAuthQuiet(c: Crypto, a: Auth, p: PinAuth, cdh: seq<Byte>, permission: Byte, rpId: seq<Byte>, w: World)
    requires permission == PERM_MC || permission == PERM_GA
    ensures forall e <- CheckPinAuth(c, a, p, cdh, permission, rpId, w).2 :: e.TokenUsed? || e.TokenGone?
  {
    hide MacOk, HasPermission;
  }
}
