/** Progress of the two threads: what each gets done in a bounded number of its own steps, whatever the other does
    between them; and that such steps can always be taken. */
module LoopProgress {
  import opened Bytes
  import opened HidFramer
  import opened HidDevice
  import opened Loop
  import opened LoopProofs

  function Count(steps: seq<Step>, p: Step -> bool): nat {
    if steps == [] then 0 else (if p(steps[0]) then 1 else 0) + Count(steps[1..], p)
  }

  /** Histories only grow, and a stopped HID thread stays stopped. */
  ghost predicate Grows(s: Sys, s': Sys) {
    && s.wire <= s'.wire && s.log <= s'.log && s.dispatched <= s'.dispatched && |s.ends| <= |s'.ends|
    && (s.hid.Exited? ==> s'.hid.Exited?)
  }

  lemma WriteGrows(s: Sys)
    requires s.hid.Writing?
    ensures Grows(s, WriteStep(s))
  {
  }

  lemma DrainGrows(s: Sys)
    requires s.hid.Draining?
    ensures Grows(s, DrainStep(s))
  {
    hide Frame;
  }

  lemma PollGrows(s: Sys)
    requires s.hid.Polling?
    ensures Grows(s, PollStep(s))
  {
    hide PollTimeout, Frame;
  }

  lemma IngestGrows(s: Sys, draws: seq<Option<U32>>)
    requires s.hid.Ingesting?
    ensures Grows(s, IngestStep(s, draws))
  {
    hide DeviceIngest, Ingest, Framed, DirectItems;
  }

  lemma StepGrows(s: Sys, step: Step)
    requires Enabled(s, step)
    ensures Grows(s, Apply(s, step))
  {
    hide WriteStep, DrainStep, PollStep, IngestStep, Frame, Grows;
    match step
    case Write => WriteGrows(s);
    case Drain => DrainGrows(s);
    case Poll => PollGrows(s);
    case IngestReport(draws) => IngestGrows(s, draws);
    case _ => assert Grows(s, Apply(s, step)) by { OthersGrow(s, step); }
  }

  lemma OthersGrow(s: Sys, step: Step)
    requires Enabled(s, step) && !step.Write? && !step.Drain? && !step.Poll? && !step.IngestReport?
    ensures Grows(s, Apply(s, step))
  {
    hide WriteStep, DrainStep, PollStep, IngestStep, Frame;
  }

  lemma {:induction false} RunGrows(s: Sys, steps: seq<Step>)
    requires CanRun(s, steps)
    ensures Grows(s, Run(s, steps))
    decreases |steps|
  {
    hide Apply, Enabled;
    if steps != [] {
      StepGrows(s, steps[0]);
      RunGrows(Apply(s, steps[0]), steps[1..]);
    }
  }

  // ---------------------------------------------------------------- the worker

  predicate OfWorker(step: Step) { step.Take? || step.Finish? || step.Publish? }

  /** How many steps the worker has before the transaction in flight is answered. */
  function UntilAnswer(w: WorkerPc): nat {
    match w case Finished(_) => 1 case Working(_) => 2 case _ => 3
  }

  lemma WorkerAdvances(s: Sys, step: Step)
    requires TxnInv(s) && s.cmd.Some? && Enabled(s, step)
    ensures var s' := Apply(s, step);
            if step.Publish? then |s'.ends| == |s.ends| + 1
            else s'.ends == s.ends && s'.cmd.Some?
                 && UntilAnswer(s'.worker) == UntilAnswer(s.worker) - (if OfWorker(step) then 1 else 0)
  {
    hide DeviceIngest, PollTimeout, Framed, Frame, Ingest, Answers;
  }

  lemma {:induction false} WorkerFinishes(s: Sys, steps: seq<Step>)
    requires Inv(s) && s.cmd.Some? && CanRun(s, steps) && Count(steps, OfWorker) >= UntilAnswer(s.worker)
    ensures |Run(s, steps).ends| > |s.ends|
    decreases |steps|
  {
    hide WireInv, TxnInv, AliveInv, PaceInv, CancelInv, DeviceValid, Apply, Enabled;
    var next := Apply(s, steps[0]);
    WorkerAdvances(s, steps[0]);
    if |next.ends| > |s.ends| {
      RunGrows(next, steps[1..]);
    } else {
      assert Inv(next) by { InvKept(s, steps[0]); }
      WorkerFinishes(next, steps[1..]);
    }
  }

  /** In every interleaving that starts with a command in flight and in which the worker takes as many of its steps
      as it has before the answer, three at most, the transaction has been answered: on its channel, with its
      command, on the wire or waiting. */
  lemma WorkerAnswers(s: Sys, steps: seq<Step>)
    requires Inv(s) && s.cmd.Some? && CanRun(s, steps) && Count(steps, OfWorker) >= UntilAnswer(s.worker)
    ensures var t := Run(s, steps);
            exists it <- t.log + t.queued :: AnswersTo(it, s.cmd.value, Current(s))
  {
    hide WireInv, AliveInv, PaceInv, CancelInv, DeviceValid, Apply, Run, CanRun, Count, Answers;
    WorkerFinishes(s, steps);
    RunGrows(s, steps);
    RunKeepsInv(s, steps);
    var t := Run(s, steps);
    AnswerSomewhere(t.log + t.queued, Current(s));
    assert t.dispatched[Current(s)] == s.cmd.value;
  }

  // ---------------------------------------------------------------- the HID thread

  predicate OfHid(step: Step) {
    || step.CheckStop? || step.Drain? || step.Write? || step.WriteFails? || step.Poll? || step.ReadNothing?
        || step.ReadFails?
    || step.Read? || step.IngestReport?
  }

  /** The packets of the longest message. */
  const MAX_PACKETS := 129

  /** How many steps the HID thread has, at most, up to and with its next drain. */
  function UntilDrain(pc: HidPc): nat {
    match pc
    case Draining => 1
    case Top => 2
    case Ingesting(_) => MAX_PACKETS + 4
    case Reading => MAX_PACKETS + 5
    case Polling => 2 * MAX_PACKETS + 7
    case Writing(left, polled, ingested) =>
      |left| + 1 + (if ingested then 2 else if polled then MAX_PACKETS + 5 else 2 * MAX_PACKETS + 7)
    case Exited(_) => 0
  }

  lemma {:induction false} ContinuationCount(m: Message, k: nat)
    ensures |Continuations(m, k)| * CONT_PAYLOAD
         <= if Offset(k) >= |m.payload| then 0 else |m.payload| - Offset(k) + CONT_PAYLOAD - 1
    decreases |m.payload| - Offset(k)
  {
    hide ContPacket;
    if Offset(k) < |m.payload| {
      ContinuationCount(m, k + 1);
    }
  }

  lemma FrameCount(m: Message)
    ensures |Frame(m)| <= MAX_PACKETS
  {
    hide InitPacket, Continuations;
    ContinuationCount(m, 0);
  }

  lemma ReplyCount(dev: Device, r: Report, inflight: Option<U32>, now: nat, draws: seq<Option<U32>>)
    ensures |Framed(DeviceIngest(dev, r, inflight, now, draws).1.reply)| <= MAX_PACKETS
  {
    hide Ingest, Cid, Bcnt, Draw, Touch, Reap, Frame;
    var reply := DeviceIngest(dev, r, inflight, now, draws).1.reply;
    assert |reply| <= 1;
    if reply != [] {
      FrameCount(reply[0]);
      FramedOne(reply[0]);
      assert reply == [reply[0]];
    }
  }

  lemma PollAdvances(s: Sys)
    requires s.hid.Polling?
    ensures UntilDrain(PollStep(s).hid) < UntilDrain(s.hid) && PollStep(s).queued == s.queued
  {
    hide PollTimeout, Frame;
    var m := PollTimeout(s.dev, s.now).1;
    if m.Some? { FrameCount(m.value); }
  }

  lemma IngestAdvances(s: Sys, draws: seq<Option<U32>>)
    requires s.hid.Ingesting?
    ensures UntilDrain(IngestStep(s, draws).hid) < UntilDrain(s.hid) && IngestStep(s, draws).queued == s.queued
  {
    hide DeviceIngest, Framed, Ingest, DirectItems;
    ReplyCount(s.dev, s.hid.report, if s.cmd.Some? then Some(s.cid) else None, s.now, draws);
  }

  lemma HidAdvances(s: Sys, step: Step)
    requires Enabled(s, step) && OfHid(step) && !step.Drain?
    ensures var s' := Apply(s, step);
            s'.hid.Exited? || (UntilDrain(s'.hid) < UntilDrain(s.hid) && s'.queued == s.queued)
  {
    hide PollStep, IngestStep, DrainStep, PublishStep;
    if step.Poll? {
      PollAdvances(s);
    } else if step.IngestReport? {
      IngestAdvances(s, step.draws);
    }
  }

  lemma OthersLeaveHid(s: Sys, step: Step)
    requires Enabled(s, step) && !OfHid(step)
    ensures Apply(s, step).hid == s.hid && s.queued <= Apply(s, step).queued
  {
    hide DeviceIngest, PollTimeout, Framed, Frame, Ingest, DirectItems;
  }

  /** In every interleaving in which the HID thread takes as many steps as it has to its next drain, and neither stops
      nor fails, all that waited at the start has been taken for writing. */
  lemma {:induction false} HidDrains(s: Sys, steps: seq<Step>)
    requires CanRun(s, steps) && !Run(s, steps).hid.Exited? && Count(steps, OfHid) >= UntilDrain(s.hid)
    ensures forall it <- s.queued :: it in Run(s, steps).log
    decreases |steps|
  {
    hide Apply, Enabled, UntilDrain;
    OnlyExitedAtZero(s.hid);
    if steps != [] {
      var next := Apply(s, steps[0]);
      RunGrows(next, steps[1..]);
      if !OfHid(steps[0]) {
        OthersLeaveHid(s, steps[0]);
        HidDrains(next, steps[1..]);
      } else if steps[0].Drain? {
        DrainTakes(s);
      } else {
        HidAdvances(s, steps[0]);
        HidDrains(next, steps[1..]);
      }
    }
  }

  lemma OnlyExitedAtZero(pc: HidPc)
    ensures UntilDrain(pc) == 0 <==> pc.Exited?
  {
  }

  lemma DrainTakes(s: Sys)
    requires Enabled(s, Drain)
    ensures forall it <- s.queued :: it in Apply(s, Drain).log
  {
    hide Frame;
  }

  lemma BatchAdvances(s: Sys, step: Step)
    requires Enabled(s, step) && Left(s.hid) != []
    ensures var s' := Apply(s, step);
            if !OfHid(step) then s'.hid == s.hid && s'.wire == s.wire
            else s'.hid.Exited? || (s'.wire + Left(s'.hid) == s.wire + Left(s.hid) && |Left(s'.hid)| < |Left(s.hid)|)
  {
    hide DeviceIngest, PollTimeout, Framed, Frame, Ingest;
    if step.Write? {
      var left := s.hid.left;
      assert s.wire + [left[0]] + left[1..] == s.wire + left;
    }
  }

  /** In every interleaving in which the HID thread takes as many steps as its batch has reports, and does not fail,
      the batch is on the wire. */
  lemma {:induction false} BatchWritten(s: Sys, steps: seq<Step>)
    requires CanRun(s, steps) && !Run(s, steps).hid.Exited? && Count(steps, OfHid) >= |Left(s.hid)|
    ensures s.wire + Left(s.hid) <= Run(s, steps).wire
    decreases |steps|
  {
    hide Apply, Enabled, Left;
    if steps != [] {
      var next := Apply(s, steps[0]);
      RunGrows(next, steps[1..]);
      if Left(s.hid) == [] {
        RunGrows(s, steps);
        assert s.wire + [] == s.wire;
      } else {
        BatchAdvances(s, steps[0]);
        BatchWritten(next, steps[1..]);
      }
    }
  }

  // ---------------------------------------------------------------- from command to host

  /** What the reports so far deliver stays delivered. */
  lemma ReceivedStays(sent: seq<Report>, more: seq<Report>)
    requires sent <= more
    ensures forall m <- Received(Feed(None, sent).1) :: m in Received(Feed(None, more).1)
  {
    hide Feed, Received;
    var rest := more[|sent|..];
    assert more == sent + rest;
    FeedConcat(None, sent, rest);
    ReceivedConcat(Feed(None, sent).1, Feed(Feed(None, sent).0, rest).1);
  }

  lemma LoggedIsReceived(s: Sys, wire: seq<Report>, it: Sent)
    requires Inv(s) && it in s.log && it.msg.cid != 0 && |it.msg.payload| <= MAX_REASSEMBLED
    requires s.wire + Left(s.hid) <= wire
    ensures it.msg in Received(Feed(None, wire).1)
  {
    hide TxnInv, AliveInv, PaceInv, CancelInv, DeviceValid, Framed, Feed, Received, Receivable;
    StreamReceived(Msgs(s.log));
    var i :| 0 <= i < |s.log| && s.log[i] == it;
    assert Msgs(s.log)[i] == it.msg;
    ReceivableIn(Msgs(s.log), it.msg);
    ReceivedStays(s.wire + Left(s.hid), wire);
  }

  /** From a command in flight to its response at the host: in every interleaving in which the worker gets three
      steps, then the HID thread as many as it has to its next drain, then as many as the batch then has reports, and
      the transport does not fail, a host that reassembles the wire has the response, if it is of receivable size. */
  lemma ResponseReachesHost(dev: Device, before: seq<Step>, a: seq<Step>, b: seq<Step>, c: seq<Step>)
    requires DeviceValid(dev) && CanRun(Initial(dev), before)
    requires var s := Run(Initial(dev), before);
             && s.cmd.Some? && CanRun(s, a) && Count(a, OfWorker) >= 3
             && CanRun(Run(s, a), b) && Count(b, OfHid) >= UntilDrain(Run(s, a).hid)
             && CanRun(Run(Run(s, a), b), c) && Count(c, OfHid) >= |Left(Run(Run(s, a), b).hid)|
             && !Run(Run(Run(s, a), b), c).hid.Exited?
    ensures var s := Run(Initial(dev), before);
            var t := Run(Run(Run(s, a), b), c);
            exists it <- t.log :: AnswersTo(it, s.cmd.value, Current(s))
               && (it.msg in Received(Feed(None, t.wire).1) || |it.msg.payload| > MAX_REASSEMBLED)
  {
    hide WireInv, AliveInv, PaceInv, CancelInv, DeviceValid, Apply, Run, CanRun, Count, UntilDrain, Feed, Received,
         Left, Answers;
    InitialInv(dev);
    RunKeepsInv(Initial(dev), before);
    var s := Run(Initial(dev), before);
    RunKeepsInv(s, a);
    var s1 := Run(s, a);
    RunKeepsInv(s1, b);
    var s2 := Run(s1, b);
    var t := Run(s2, c);
    assert s.cmd.value in s.dispatched by { assert s.dispatched[Current(s)] == s.cmd.value; }
    WorkerAnswers(s, a);
    var it :| it in s1.log + s1.queued && AnswersTo(it, s.cmd.value, Current(s));
    RunGrows(s1, b);
    RunGrows(s2, c);
    HidDrains(s1, b);
    assert it in s2.log;
    BatchWritten(s2, c);
    if |it.msg.payload| <= MAX_REASSEMBLED {
      LoggedIsReceived(s2, t.wire, it);
    }
    assert it in t.log;
  }

  // ---------------------------------------------------------------- such steps are possible

  /** What the worker answers when its handler returns payload. */
  function AnswerWith(s: Sys, payload: seq<Byte>): Message
    requires s.cmd.Some?
  {
    if s.worker.Finished? then s.worker.resp else Message(s.cmd.value.cid, s.cmd.value.cmd, payload)
  }

  /** Whenever a command is in flight and nobody stops the daemon, the worker can answer it in at most three steps
      of its own, with whatever payload the handler returns. */
  lemma WorkerCanAnswer(s: Sys, payload: seq<Byte>)
    requires Inv(s) && s.cmd.Some? && !s.stop
    ensures exists steps :: |steps| <= 3 && CanRun(s, steps)
              && Run(s, steps).cmd == None && |Run(s, steps).ends| == |s.ends| + 1
              && Run(s, steps).queued == s.queued + [Sent(AnswerWith(s, payload), Response(Current(s)))]
              && Run(s, steps).outbox == s.outbox + Frame(AnswerWith(s, payload))
  {
    hide WireInv, AliveInv, PaceInv, CancelInv, DeviceValid, Framed, Frame, Answers;
    match s.worker {
      case Idle => ThreeSteps(s, Take, Finish(payload), Publish);
      case Working(_) => TwoSteps(s, Finish(payload), Publish);
      case Finished(_) => OneStep(s, Publish);
    }
  }

  predicate OfHidThread(step: Step) {
    step.CheckStop? || step.Drain? || step.Write? || step.Poll? || step.ReadNothing? || step.IngestReport?
  }

  /** The HID thread can go from s to t by itself, without a report or a failure. */
  ghost predicate HidReaches(s: Sys, t: Sys) {
    exists steps :: (forall x <- steps :: OfHidThread(x)) && CanRun(s, steps) && Run(s, steps) == t
  }

  lemma {:induction false} RunConcat(s: Sys, a: seq<Step>, b: seq<Step>)
    requires CanRun(s, a) && CanRun(Run(s, a), b)
    ensures CanRun(s, a + b) && Run(s, a + b) == Run(Run(s, a), b)
    decreases |a|
  {
    hide Apply, Enabled;
    if a == [] {
      assert a + b == b;
    } else {
      assert (a + b)[1..] == a[1..] + b;
      RunConcat(Apply(s, a[0]), a[1..], b);
    }
  }

  lemma ReachesStep(s: Sys, step: Step)
    requires Enabled(s, step) && OfHidThread(step)
    ensures HidReaches(s, Apply(s, step))
  {
    hide Enabled, Apply;
    OneStep(s, step);
  }

  lemma ReachesOn(s: Sys, t: Sys, u: Sys)
    requires HidReaches(s, t) && HidReaches(t, u)
    ensures HidReaches(s, u)
  {
    hide Enabled, Apply, Run, CanRun;
    var a :| (forall x <- a :: OfHidThread(x)) && CanRun(s, a) && Run(s, a) == t;
    var b :| (forall x <- b :: OfHidThread(x)) && CanRun(t, b) && Run(t, b) == u;
    RunConcat(s, a, b);
  }

  /** The batch being written gets onto the wire. */
  lemma {:induction false} WritesBatch(s: Sys)
    requires s.hid.Writing?
    ensures HidReaches(s, s.(wire := s.wire + s.hid.left, hid := s.hid.(left := [])))
    decreases |Left(s.hid)|
  {
    hide HidReaches;
    var t := s.(wire := s.wire + s.hid.left, hid := s.hid.(left := []));
    if s.hid.left == [] {
      assert s.wire + [] == s.wire;
      ReachesItself(s);
    } else {
      var s1 := Apply(s, Write);
      ReachesStep(s, Write);
      WritesBatch(s1);
      assert s1.wire + s1.hid.left == s.wire + s.hid.left;
      ReachesOn(s, s1, t);
    }
  }

  lemma ReachesItself(s: Sys)
    ensures HidReaches(s, s)
  {
    hide Apply, Enabled;
    assert CanRun(s, []) && Run(s, []) == s;
  }

  /** How many stages the HID thread has before the next drain. */
  function Stages(pc: HidPc): nat {
    match pc
    case Draining => 0 case Top => 1 case Reading => 2 case Polling => 4 case Ingesting(_) => 3
    case Writing(_, polled, ingested) => if ingested then 2 else if polled then 3 else 5
    case Exited(_) => 6
  }

  /** t came from s without touching what waits to be written or what was taken before. */
  ghost predicate Onward(s: Sys, t: Sys) {
    t.outbox == s.outbox && t.queued == s.queued && t.stop == s.stop && s.log <= t.log
  }

  lemma NextStage(s: Sys)
    returns (t: Sys)
    requires !s.stop && !s.hid.Exited? && !s.hid.Draining?
    ensures HidReaches(s, t) && Onward(s, t) && !t.hid.Exited? && Stages(t.hid) < Stages(s.hid)
  {
    hide HidReaches, DeviceIngest, PollTimeout, Framed, Frame, Ingest;
    if s.hid.Writing? {
      var done := s.(wire := s.wire + s.hid.left, hid := s.hid.(left := []));
      WritesBatch(s);
      t := Apply(done, Write);
      ReachesStep(done, Write);
      ReachesOn(s, done, t);
    } else {
      var step :=
        match s.hid case Top => CheckStop case Reading => ReadNothing case Polling => Poll case _ => IngestReport([]);
      t := Apply(s, step);
      ReachesStep(s, step);
    }
  }

  lemma {:induction false} ReachesDrain(s: Sys)
    returns (t: Sys)
    requires !s.stop && !s.hid.Exited?
    ensures HidReaches(s, t) && Onward(s, t) && t.hid.Draining?
    decreases Stages(s.hid)
  {
    hide HidReaches, Stages;
    if s.hid.Draining? {
      t := s;
      ReachesItself(s);
    } else {
      var u := NextStage(s);
      t := ReachesDrain(u);
      ReachesOn(s, u, t);
    }
  }

  /** Unless the daemon stops or the transport failed, the HID thread can by itself get everything that waits onto
      the wire: the outbox and the batch are then empty, and what was queued is part of what was sent. */
  lemma HidCanDrain(s: Sys)
    requires !s.stop && !s.hid.Exited?
    ensures exists t :: HidReaches(s, t) && t.outbox == [] && t.queued == [] && Left(t.hid) == [] && !t.hid.Exited?
              && s.log <= t.log && forall it <- s.queued :: it in t.log
  {
    hide HidReaches, Frame;
    var u := ReachesDrain(s);
    var v := Apply(u, Drain);
    ReachesStep(u, Drain);
    WritesBatch(v);
    var t := v.(wire := v.wire + v.hid.left, hid := v.hid.(left := []));
    ReachesOn(s, u, v);
    ReachesOn(s, v, t);
  }

  lemma OneStep(s: Sys, a: Step)
    requires Enabled(s, a)
    ensures CanRun(s, [a]) && Run(s, [a]) == Apply(s, a)
  {
    hide Enabled, Apply;
    assert [a][1..] == [];
    assert CanRun(Apply(s, a), []);
  }

  lemma TwoSteps(s: Sys, a: Step, b: Step)
    requires Enabled(s, a) && Enabled(Apply(s, a), b)
    ensures CanRun(s, [a, b]) && Run(s, [a, b]) == Apply(Apply(s, a), b)
  {
    hide Enabled, Apply;
    assert [a, b][1..] == [b];
    OneStep(Apply(s, a), b);
  }

  lemma ThreeSteps(s: Sys, a: Step, b: Step, c: Step)
    requires Enabled(s, a) && Enabled(Apply(s, a), b) && Enabled(Apply(Apply(s, a), b), c)
    ensures CanRun(s, [a, b, c]) && Run(s, [a, b, c]) == Apply(Apply(Apply(s, a), b), c)
  {
    hide Enabled, Apply;
    assert [a, b, c][1..] == [b, c];
    TwoSteps(Apply(s, a), b, c);
  }
}
