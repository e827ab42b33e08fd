/** The two threads of src/daemon/loop.cpp as a transition system: every locked region, every report written and
    every access to the cancel token is one step, and the handler is anything that sets the keepalive status,
    looks at the token, and returns some payload. Times are in milliseconds. */
module Loop {
  import opened Bytes
  import opened HidFramer
  import opened HidDevice

  const KEEPALIVE_INTERVAL := 100
  const PROCESSING: Byte := 1
  const UP_NEEDED: Byte := 2

  /** Why a message was put on its way: the response or a keepalive of transaction txn, or the device itself. */
  datatype Kind = Response(txn: nat) | Alive(txn: nat) | Direct
  datatype Sent = Sent(msg: Message, kind: Kind)

  /** Where the HID thread is. left are the reports of the current batch not written yet. */
  datatype HidPc =
    | Top | Draining | Writing(left: seq<Report>, polled: bool, ingested: bool) | Polling | Reading
    | Ingesting(report: Report) | Exited(left: seq<Report>)

  /** Where the worker is. */
  datatype WorkerPc = Idle | Working(msg: Message) | Finished(resp: Message) | Gone

  /** One look of a handler at the cancel token, and what had asked to cancel its transaction by then. */
  datatype Look = Look(txn: nat, cancelled: bool, stopping: bool, askedBefore: Option<Message>)

  datatype Sys = Sys(
    // shared, under the mutex
    dev: Device, cmd: Option<Message>, cid: U32, cancelled: bool, status: Byte, started: nat, lastKeepalive: nat,
    outbox: seq<Report>, stop: bool,
    // the two threads and the clock
    hid: HidPc, worker: WorkerPc, now: nat,
    // what happened so far: the wire; the messages taken for writing and those in the outbox; the transactions,
    // when each began, how many ended and when; who asked to cancel; the handlers' looks at the token
    wire: seq<Report>, log: seq<Sent>, queued: seq<Sent>,
    dispatched: seq<Message>, starts: seq<nat>, ends: seq<nat>, asked: map<nat, Message>, looks: seq<Look>)

  function Initial(dev: Device): Sys {
    Sys(dev, None, 0, false, PROCESSING, 0, 0, [], false, Top, Idle, 0, [], [], [], [], [], [], map[], [])
  }

  function Msgs(items: seq<Sent>): (ms: seq<Message>)
    ensures |ms| == |items| && forall i :: 0 <= i < |ms| ==> ms[i] == items[i].msg
  {
    seq(|items|, i requires 0 <= i < |items| => items[i].msg)
  }

  function Left(pc: HidPc): seq<Report> { if pc.Writing? || pc.Exited? then pc.left else [] }

  // ---------------------------------------------------------------- steps

  datatype Step =
    | Tick(ms: nat)
    | CheckStop | Drain | Write | WriteFails | Poll | ReadNothing | ReadFails | Read(report: Report)
    | IngestReport(draws: seq<Option<U32>>)
    | Take | SetUpNeeded(up: bool) | LookAtToken | Finish(payload: seq<Byte>) | Publish | Leave
    | RequestStop | CancelForStop

  predicate Enabled(s: Sys, step: Step) {
    match step
    case Tick(_) => true
    case CheckStop => s.hid.Top?
    case Drain => s.hid.Draining?
    case Write => s.hid.Writing?
    case WriteFails => s.hid.Writing? && s.hid.left != []
    case Poll => s.hid.Polling?
    case ReadNothing => s.hid.Reading?
    case ReadFails => s.hid.Reading?
    case Read(_) => s.hid.Reading?
    case IngestReport(_) => s.hid.Ingesting?
    case Take => s.worker.Idle? && s.cmd.Some? && !s.stop
    case SetUpNeeded(_) => s.worker.Working?
    case LookAtToken => s.worker.Working?
    case Finish(_) => s.worker.Working?
    case Publish => s.worker.Finished?
    case Leave => s.worker.Idle? && s.stop
    case RequestStop => true
    case CancelForStop => s.stop
  }

  /** The transaction in flight, when there is one. */
  function Current(s: Sys): nat { |s.ends| }

  /** The request to cancel the transaction in flight, if there was one. */
  function AskedBy(s: Sys): Option<Message> {
    if Current(s) in s.asked then Some(s.asked[Current(s)]) else None
  }

  function DrainStep(s: Sys): Sys {
    var due := s.cmd.Some? && s.now - s.lastKeepalive >= KEEPALIVE_INTERVAL;
    var alive := Keepalive(s.cid, s.status);
    s.(hid := Writing(s.outbox + (if due then Frame(alive) else []), false, false),
       outbox := [], queued := [],
       log := s.log + s.queued + (if due then [Sent(alive, Alive(Current(s)))] else []),
       lastKeepalive := if due then s.now else s.lastKeepalive)
  }

  function WriteStep(s: Sys): Sys
    requires s.hid.Writing?
  {
    if s.hid.left != [] then s.(wire := s.wire + [s.hid.left[0]], hid := s.hid.(left := s.hid.left[1..]))
    else s.(hid := if s.hid.ingested then Top else if s.hid.polled then Reading else Polling)
  }

  function PollStep(s: Sys): Sys {
    var (dev, m) := PollTimeout(s.dev, s.now);
    if m.None? then s.(dev := dev, hid := Reading)
    else s.(dev := dev, hid := Writing(Frame(m.value), true, false), log := s.log + [Sent(m.value, Direct)])
  }

  function DirectItems(ms: seq<Message>): (items: seq<Sent>)
    ensures |items| == |ms| && forall i :: 0 <= i < |ms| ==> items[i] == Sent(ms[i], Direct)
  {
    seq(|ms|, i requires 0 <= i < |ms| => Sent(ms[i], Direct))
  }

  function IngestStep(s: Sys, draws: seq<Option<U32>>): Sys
    requires s.hid.Ingesting?
  {
    var busy := if s.cmd.Some? then Some(s.cid) else None;
    var (dev, out) := DeviceIngest(s.dev, s.hid.report, busy, s.now, draws);
    var s1 := s.(dev := dev, hid := Writing(Framed(out.reply), true, true), log := s.log + DirectItems(out.reply));
    if out.toWorker.Some? then
      s1.(cmd := out.toWorker, cid := out.toWorker.value.cid, cancelled := false, status := PROCESSING,
          started := s.now, lastKeepalive := s.now,
          dispatched := s.dispatched + [out.toWorker.value], starts := s.starts + [s.now])
    else if out.cancel && s.cmd.Some? then
      s1.(cancelled := true,
          asked := s.asked[Current(s) := match Ingest(s.dev.assembly, s.hid.report).1
                                         case Complete(m) => m
                                         case _ => Message(0, 0, [])])
    else s1
  }

  function PublishStep(s: Sys): Sys
    requires s.worker.Finished?
  {
    var resp := s.worker.resp;
    s.(worker := Idle, outbox := s.outbox + Frame(resp), queued := s.queued + [Sent(resp, Response(Current(s)))],
       cmd := None, cancelled := false, status := PROCESSING, ends := s.ends + [s.now])
  }

  function Apply(s: Sys, step: Step): Sys
    requires Enabled(s, step)
  {
    match step
    case Tick(ms) => s.(now := s.now + ms)
    case CheckStop => s.(hid := if s.stop then Exited([]) else Draining)
    case Drain => DrainStep(s)
    case Write => WriteStep(s)
    case WriteFails => s.(hid := Exited(s.hid.left))
    case Poll => PollStep(s)
    case ReadNothing => s.(hid := Top)
    case ReadFails => s.(hid := Exited([]))
    case Read(report) => s.(hid := Ingesting(report))
    case IngestReport(draws) => IngestStep(s, draws)
    case Take => if s.cmd.Some? then s.(worker := Working(s.cmd.value)) else s
    case SetUpNeeded(up) => s.(status := if up then UP_NEEDED else PROCESSING)
    case LookAtToken => s.(looks := s.looks + [Look(Current(s), s.cancelled, s.stop, AskedBy(s))])
    case Finish(payload) => s.(worker := Finished(Message(s.worker.msg.cid, s.worker.msg.cmd, payload)))
    case Publish => PublishStep(s)
    case Leave => s.(worker := Gone)
    case RequestStop => s.(stop := true)
    case CancelForStop => s.(cancelled := true)
  }

  /** Every interleaving: any sequence of enabled steps. */
  ghost predicate CanRun(s: Sys, steps: seq<Step>)
    decreases |steps|
  {
    steps == [] || (Enabled(s, steps[0]) && CanRun(Apply(s, steps[0]), steps[1..]))
  }

  ghost function Run(s: Sys, steps: seq<Step>): Sys
    requires CanRun(s, steps)
    decreases |steps|
  {
    if steps == [] then s else Run(Apply(s, steps[0]), steps[1..])
  }

  // ---------------------------------------------------------------- invariants

  /** What was written and what is left to write are the frames of the logged messages, in order and contiguous;
      the outbox holds the frames of the queued ones. */
  ghost predicate WireInv(s: Sys) {
    && s.wire + Left(s.hid) == Framed(Msgs(s.log))
    && s.outbox == Framed(Msgs(s.queued))
    && (forall it <- s.log :: it.msg.cmd < 128)
    && (forall it <- s.queued :: it.msg.cmd < 128)
  }

  /** The transactions answered in items, in order. */
  function Answers(items: seq<Sent>): seq<Sent> {
    if items == [] then []
    else (if items[0].kind.Response? then [items[0]] else []) + Answers(items[1..])
  }

  ghost predicate AnswersTo(item: Sent, cmd: Message, txn: nat) {
    item.kind == Response(txn) && item.msg.cid == cmd.cid && item.msg.cmd == cmd.cmd
  }

  /** The slot, the worker and the transaction counts agree, and each finished transaction has its one response,
      in order, on its own channel and command. */
  ghost predicate TxnInv(s: Sys) {
    && |s.dispatched| == |s.starts| == |s.ends| + (if s.cmd.Some? then 1 else 0)
    && (s.cmd.Some? ==>
         s.cmd.value == s.dispatched[Current(s)] && s.cid == s.cmd.value.cid && s.started == s.starts[Current(s)])
    && (s.worker.Working? ==> s.cmd == Some(s.worker.msg)) && (s.worker.Gone? ==> s.stop)
    && (s.worker.Finished? ==>
         s.cmd.Some? && s.worker.resp.cid == s.cmd.value.cid && s.worker.resp.cmd == s.cmd.value.cmd)
    && (forall m <- s.dispatched :: m.cmd < 128 && m.cid != 0)
    && |Answers(s.log + s.queued)| == |s.ends|
    && (forall t :: 0 <= t < |s.ends| ==> AnswersTo(Answers(s.log + s.queued)[t], s.dispatched[t], t))
  }

  function CountAlive(items: seq<Sent>, txn: nat): nat {
    if items == [] then 0 else (if items[0].kind == Alive(txn) then 1 else 0) + CountAlive(items[1..], txn)
  }

  /** Keepalives are only of begun transactions, on their channel, never after the response, and at most one
      every 100 ms. */
  ghost predicate AliveInv(s: Sys) {
    && s.started <= s.now
    && (forall it <- s.queued :: it.kind.Response? && it.kind.txn < |s.ends|)
    && (forall it <- s.log ::
         it.kind.Alive? ==> it.kind.txn < |s.starts| <= |s.dispatched| && it.msg.cid == s.dispatched[it.kind.txn].cid)
    && (forall it <- s.log :: it.kind.Response? ==> it.kind.txn < |s.ends|)
    && (forall i, j :: 0 <= i < j < |s.log| && s.log[i].kind.Response? ==> s.log[j].kind != Alive(s.log[i].kind.txn))
  }

  ghost predicate PaceInv(s: Sys) {
    && s.lastKeepalive <= s.now && |s.ends| <= |s.starts|
    && (s.cmd.Some? ==> |s.ends| < |s.starts| && s.started == s.starts[|s.ends|])
    && (s.cmd.Some? ==> s.started + KEEPALIVE_INTERVAL * CountAlive(s.log, |s.ends|) <= s.lastKeepalive)
    && (forall t :: 0 <= t < |s.ends| ==> s.starts[t] + KEEPALIVE_INTERVAL * CountAlive(s.log, t) <= s.ends[t])
    && (forall t :: t >= |s.starts| ==> CountAlive(s.log, t) == 0)
  }

  /** A set token means that the daemon is stopping, or that a CANCEL or INIT of the busy channel asked for it
      during this very transaction; and a handler never saw it set but then. */
  ghost predicate CancelInv(s: Sys) {
    && (s.cancelled ==> s.stop || (s.cmd.Some? && Current(s) in s.asked))
    && (forall t <- s.asked :: t < |s.dispatched| && s.asked[t].cid == s.dispatched[t].cid
                                && (s.asked[t].cmd == CMD_CANCEL || s.asked[t].cmd == CMD_INIT))
    && (forall l <- s.looks :: l.cancelled ==> l.stopping || l.askedBefore.Some?)
    && (forall l <- s.looks :: l.askedBefore.Some? ==>
          l.txn < |s.dispatched| && l.askedBefore.value.cid == s.dispatched[l.txn].cid
          && (l.askedBefore.value.cmd == CMD_CANCEL || l.askedBefore.value.cmd == CMD_INIT))
  }

  ghost predicate Inv(s: Sys) {
    DeviceValid(s.dev) && WireInv(s) && TxnInv(s) && AliveInv(s) && PaceInv(s) && CancelInv(s)
  }
}
