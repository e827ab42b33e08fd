/** What every interleaving of the two threads keeps, and what it means on the wire. */
module LoopProofs {
  import opened Bytes
  import opened HidFramer
  import opened HidDevice
  import opened Loop

  // ---------------------------------------------------------------- sequences of messages

  lemma {:induction false} FramedConcat(xs: seq<Message>, ys: seq<Message>)
    ensures Framed(xs + ys) == Framed(xs) + Framed(ys)
  {
    hide Frame;
    if xs == [] {
      assert xs + ys == ys;
    } else {
      assert (xs + ys)[0] == xs[0] && (xs + ys)[1..] == xs[1..] + ys;
      FramedConcat(xs[1..], ys);
      assert Frame(xs[0]) + (Framed(xs[1..]) + Framed(ys)) == Frame(xs[0]) + Framed(xs[1..]) + Framed(ys);
    }
  }

  lemma FramedItems(a: seq<Sent>, b: seq<Sent>)
    ensures Framed(Msgs(a + b)) == Framed(Msgs(a)) + Framed(Msgs(b))
  {
    hide Framed;
    assert Msgs(a + b) == Msgs(a) + Msgs(b);
    FramedConcat(Msgs(a), Msgs(b));
  }

  lemma FramedSent(it: Sent)
    ensures Framed(Msgs([it])) == Frame(it.msg)
  {
    hide Frame;
    assert Msgs([it]) == [it.msg];
    FramedOne(it.msg);
  }

  lemma {:induction false} AnswersConcat(a: seq<Sent>, b: seq<Sent>)
    ensures Answers(a + b) == Answers(a) + Answers(b)
  {
    if a == [] {
      assert a + b == b;
      assert [] + Answers(b) == Answers(b);
    } else {
      var first := if a[0].kind.Response? then [a[0]] else [];
      assert (a + b)[0] == a[0] && (a + b)[1..] == a[1..] + b;
      AnswersConcat(a[1..], b);
      assert Answers(a + b) == first + (Answers(a[1..]) + Answers(b));
    }
  }

  lemma {:induction false} NoAnswers(items: seq<Sent>)
    requires forall it <- items :: !it.kind.Response?
    ensures Answers(items) == []
  {
    if items != [] { NoAnswers(items[1..]); }
  }

  /** Items that answer nothing, put between the log and the queue, change no answer. */
  lemma NoAnswersBetween(log: seq<Sent>, items: seq<Sent>, queued: seq<Sent>)
    requires forall it <- items :: !it.kind.Response?
    ensures Answers(log + items + queued) == Answers(log + queued)
    ensures Answers(log + queued + items) == Answers(log + queued)
  {
    hide Answers;
    NoAnswers(items);
    AnswersConcat(log + items, queued);
    AnswersConcat(log, items);
    AnswersConcat(log, queued);
    AnswersConcat(log + queued, items);
  }

  lemma {:induction false} CountConcat(a: seq<Sent>, b: seq<Sent>, txn: nat)
    ensures CountAlive(a + b, txn) == CountAlive(a, txn) + CountAlive(b, txn)
  {
    if a == [] {
      assert a + b == b;
    } else {
      assert (a + b)[0] == a[0] && (a + b)[1..] == a[1..] + b;
      CountConcat(a[1..], b, txn);
    }
  }

  lemma {:induction false} CountNone(items: seq<Sent>, txn: nat)
    requires forall it <- items :: it.kind != Alive(txn)
    ensures CountAlive(items, txn) == 0
  {
    if items != [] { CountNone(items[1..], txn); }
  }

  lemma NotCounted(log: seq<Sent>, items: seq<Sent>)
    requires forall it <- items :: !it.kind.Alive?
    ensures forall t: nat :: CountAlive(log + items, t) == CountAlive(log, t)
  {
    hide CountAlive;
    forall t: nat ensures CountAlive(log + items, t) == CountAlive(log, t) {
      CountConcat(log, items, t);
      CountNone(items, t);
    }
  }

  // ---------------------------------------------------------------- the wire

  lemma DrainWire(s: Sys)
    requires WireInv(s) && s.hid.Draining?
    ensures WireInv(DrainStep(s))
  {
    hide Framed, Frame;
    var alive := Sent(Keepalive(s.cid, s.status), Alive(Current(s)));
    FramedItems(s.log, s.queued);
    FramedItems(s.log + s.queued, [alive]);
    FramedSent(alive);
    FramedItems(s.log + s.queued, []);
    FramedNothing();
  }

  lemma FramedNothing()
    ensures Framed(Msgs([])) == []
  {
  }

  lemma PollWire(s: Sys)
    requires WireInv(s) && s.hid.Polling?
    ensures WireInv(PollStep(s))
  {
    hide Framed, Frame;
    var (dev, m) := PollTimeout(s.dev, s.now);
    if m.Some? {
      FramedItems(s.log, [Sent(m.value, Direct)]);
      FramedSent(Sent(m.value, Direct));
    }
  }

  lemma IngestWire(s: Sys, draws: seq<Option<U32>>)
    requires DeviceValid(s.dev) && WireInv(s) && s.hid.Ingesting?
    ensures WireInv(IngestStep(s, draws))
  {
    hide Framed, DeviceIngest, DeviceValid, Ingest;
    var busy := if s.cmd.Some? then Some(s.cid) else None;
    var reply := DeviceIngest(s.dev, s.hid.report, busy, s.now, draws).1.reply;
    RepliesSendable(s.dev, s.hid.report, busy, s.now, draws);
    FramedItems(s.log, DirectItems(reply));
    assert Msgs(DirectItems(reply)) == reply;
  }

  lemma PublishWire(s: Sys)
    requires WireInv(s) && TxnInv(s) && s.worker.Finished?
    ensures WireInv(PublishStep(s))
  {
    hide Framed, Frame, Answers;
    var item := Sent(s.worker.resp, Response(Current(s)));
    FramedItems(s.queued, [item]);
    FramedSent(item);
    assert s.dispatched[Current(s)] in s.dispatched;
  }

  lemma WireKept(s: Sys, step: Step)
    requires Inv(s) && Enabled(s, step)
    ensures WireInv(Apply(s, step))
  {
    hide Framed, Answers, DrainStep, PollStep, IngestStep, PublishStep, AliveInv, PaceInv, CancelInv, DeviceValid;
    match step
    case Drain => DrainWire(s);
    case Poll => PollWire(s);
    case IngestReport(draws) => IngestWire(s, draws);
    case Publish => PublishWire(s);
    case Write =>
      if s.hid.left != [] {
        assert s.wire + s.hid.left == s.wire + [s.hid.left[0]] + s.hid.left[1..];
      }
    case _ =>
  }

  // ---------------------------------------------------------------- transactions

  lemma IngestTxn(s: Sys, draws: seq<Option<U32>>)
    requires DeviceValid(s.dev) && TxnInv(s) && s.hid.Ingesting?
    ensures TxnInv(IngestStep(s, draws))
  {
    hide Framed, DeviceIngest, DeviceValid, Ingest, Answers;
    var busy := if s.cmd.Some? then Some(s.cid) else None;
    var out := DeviceIngest(s.dev, s.hid.report, busy, s.now, draws).1;
    DispatchAndCancel(s.dev, s.hid.report, busy, s.now, draws);
    NoAnswersBetween(s.log, DirectItems(out.reply), s.queued);
  }

  lemma DrainTxn(s: Sys)
    requires TxnInv(s)
    ensures TxnInv(DrainStep(s))
  {
    hide Frame, Answers;
    var s' := DrainStep(s);
    NoAnswersBetween(s.log, [Sent(Keepalive(s.cid, s.status), Alive(Current(s)))], s.queued);
    assert s.log + s.queued + [] == s.log + s.queued;
    assert s'.log + s'.queued == s'.log;
  }

  lemma PollTxn(s: Sys)
    requires TxnInv(s)
    ensures TxnInv(PollStep(s))
  {
    hide Frame, Answers, PollTimeout;
    var (dev, m) := PollTimeout(s.dev, s.now);
    if m.Some? {
      NoAnswersBetween(s.log, [Sent(m.value, Direct)], s.queued);
    }
  }

  lemma PublishTxn(s: Sys)
    requires TxnInv(s) && s.worker.Finished?
    ensures TxnInv(PublishStep(s))
  {
    hide Frame, Answers;
    var item := Sent(s.worker.resp, Response(Current(s)));
    assert s.log + (s.queued + [item]) == (s.log + s.queued) + [item];
    AnswersConcat(s.log + s.queued, [item]);
    OneAnswer(item);
  }

  lemma OneAnswer(item: Sent)
    requires item.kind.Response?
    ensures Answers([item]) == [item]
  {
    assert Answers([item][1..]) == [];
  }

  lemma TxnKept(s: Sys, step: Step)
    requires Inv(s) && Enabled(s, step)
    ensures TxnInv(Apply(s, step))
  {
    hide Framed, Answers, DrainStep, PollStep, IngestStep, PublishStep, WireInv, AliveInv, PaceInv, CancelInv,
         DeviceValid;
    match step
    case Drain => DrainTxn(s);
    case Poll => PollTxn(s);
    case IngestReport(draws) => IngestTxn(s, draws);
    case Publish => PublishTxn(s);
    case _ =>
  }

  // ---------------------------------------------------------------- keepalives

  lemma AliveKept(s: Sys, step: Step)
    requires Inv(s) && Enabled(s, step)
    ensures AliveInv(Apply(s, step))
  {
    hide Framed, Frame, Answers, DrainStep, PollStep, IngestStep, WriteStep, PublishStep, AliveInv, WireInv, PaceInv,
         CancelInv, DeviceValid;
    match step
    case Drain => DrainAlive(s);
    case Poll => PollAlive(s);
    case IngestReport(draws) => IngestAlive(s, draws);
    case Publish => PublishAlive(s);
    case Write => WriteTalk(s); SameAlive(s, WriteStep(s));
    case _ => SameAlive(s, Apply(s, step));
  }

  ghost predicate SameTalk(s: Sys, s': Sys) {
    s'.log == s.log && s'.queued == s.queued && s'.starts == s.starts && s'.ends == s.ends
        && s'.dispatched == s.dispatched
    && s'.started == s.started && s.now <= s'.now
  }

  lemma SameAlive(s: Sys, s': Sys)
    requires AliveInv(s) && SameTalk(s, s')
    ensures AliveInv(s')
  {
  }

  lemma WriteTalk(s: Sys)
    requires s.hid.Writing?
    ensures SameTalk(s, WriteStep(s))
  {
  }

  lemma PublishAlive(s: Sys)
    requires TxnInv(s) && AliveInv(s) && s.worker.Finished?
    ensures AliveInv(PublishStep(s))
  {
    hide Frame, Answers;
  }

  lemma DrainAlive(s: Sys)
    requires TxnInv(s) && AliveInv(s)
    ensures AliveInv(DrainStep(s))
  {
    hide Framed, Frame, Answers;
    var s' := DrainStep(s);
    var n := |s.log|;
    forall i, j | 0 <= i < j < |s'.log| && s'.log[i].kind.Response?
      ensures s'.log[j].kind != Alive(s'.log[i].kind.txn) {
      if j >= n {
        assert s'.log[i] in s.log || s'.log[i] in s.queued;
        assert j == n + |s.queued| || s'.log[j] in s.queued;
      }
    }
  }

  lemma PollAlive(s: Sys)
    requires AliveInv(s)
    ensures AliveInv(PollStep(s))
  {
    hide Framed, Frame, PollTimeout;
  }

  lemma IngestAlive(s: Sys, draws: seq<Option<U32>>)
    requires TxnInv(s) && AliveInv(s) && s.hid.Ingesting?
    ensures AliveInv(IngestStep(s, draws))
  {
    hide Framed, DeviceIngest, Ingest, Answers;
    var busy := if s.cmd.Some? then Some(s.cid) else None;
    var reply := DeviceIngest(s.dev, s.hid.report, busy, s.now, draws).1.reply;
    assert forall it <- DirectItems(reply) :: it.kind == Direct;
  }

  lemma DrainPace(s: Sys)
    requires TxnInv(s) && AliveInv(s) && PaceInv(s)
    ensures PaceInv(DrainStep(s))
  {
    hide Frame, Answers, CountAlive;
    NotCounted(s.log, s.queued);
    var alive := Sent(Keepalive(s.cid, s.status), Alive(Current(s)));
    forall t: nat
      ensures CountAlive(s.log + s.queued + [alive], t) == CountAlive(s.log, t) + if t == Current(s) then 1 else 0
    {
      CountConcat(s.log + s.queued, [alive], t);
      CountOne(alive, t);
    }
    assert s.log + s.queued + [] == s.log + s.queued;
  }

  lemma CountOne(item: Sent, txn: nat)
    ensures CountAlive([item], txn) == if item.kind == Alive(txn) then 1 else 0
  {
    assert CountAlive([item][1..], txn) == 0;
  }

  lemma PollPace(s: Sys)
    requires PaceInv(s)
    ensures PaceInv(PollStep(s))
  {
    hide Frame, CountAlive, PollTimeout;
    var (dev, m) := PollTimeout(s.dev, s.now);
    if m.Some? {
      NotCounted(s.log, [Sent(m.value, Direct)]);
    }
  }

  lemma IngestPace(s: Sys, draws: seq<Option<U32>>)
    requires DeviceValid(s.dev) && TxnInv(s) && PaceInv(s) && s.hid.Ingesting?
    ensures PaceInv(IngestStep(s, draws))
  {
    hide Framed, DeviceIngest, DeviceValid, Ingest, Answers, CountAlive;
    var busy := if s.cmd.Some? then Some(s.cid) else None;
    DispatchAndCancel(s.dev, s.hid.report, busy, s.now, draws);
    NotCounted(s.log, DirectItems(DeviceIngest(s.dev, s.hid.report, busy, s.now, draws).1.reply));
  }

  lemma PaceKept(s: Sys, step: Step)
    requires Inv(s) && Enabled(s, step)
    ensures PaceInv(Apply(s, step))
  {
    hide Framed, Frame, Answers, CountAlive, DrainStep, PollStep, IngestStep, WireInv, AliveInv, CancelInv, DeviceValid;
    match step
    case Drain => DrainPace(s);
    case Poll => PollPace(s);
    case IngestReport(draws) => IngestPace(s, draws);
    case _ =>
  }

  // ---------------------------------------------------------------- cancellation

  lemma IngestCancel(s: Sys, draws: seq<Option<U32>>)
    requires DeviceValid(s.dev) && TxnInv(s) && CancelInv(s) && s.hid.Ingesting?
    ensures CancelInv(IngestStep(s, draws))
  {
    hide Framed, DeviceIngest, DeviceValid, Ingest, Answers;
    var busy := if s.cmd.Some? then Some(s.cid) else None;
    DispatchAndCancel(s.dev, s.hid.report, busy, s.now, draws);
    assert AssemblyValid(s.dev.assembly) by { DeviceAssemblyValid(s.dev); }
    IngestKeepsValid(s.dev.assembly, s.hid.report);
  }

  lemma DeviceAssemblyValid(dev: Device)
    requires DeviceValid(dev)
    ensures AssemblyValid(dev.assembly)
  {
  }

  ghost predicate SameToken(s: Sys, s': Sys) {
    s'.cancelled == s.cancelled && s'.stop == s.stop && s'.cmd == s.cmd && s'.ends == s.ends && s'.asked == s.asked
    && s'.dispatched == s.dispatched && s'.looks == s.looks
  }

  lemma SameCancel(s: Sys, s': Sys)
    requires CancelInv(s) && SameToken(s, s')
    ensures CancelInv(s')
  {
  }

  lemma DrainSame(s: Sys)
    ensures SameToken(s, DrainStep(s))
  {
  }

  lemma PollSame(s: Sys)
    ensures SameToken(s, PollStep(s))
  {
  }

  lemma WriteSame(s: Sys)
    requires s.hid.Writing?
    ensures SameToken(s, WriteStep(s))
  {
  }

  lemma PublishCancel(s: Sys)
    requires CancelInv(s) && s.worker.Finished?
    ensures CancelInv(PublishStep(s))
  {
    hide Frame;
  }

  lemma LookCancel(s: Sys)
    requires TxnInv(s) && CancelInv(s) && s.worker.Working?
    ensures CancelInv(s.(looks := s.looks + [Look(Current(s), s.cancelled, s.stop, AskedBy(s))]))
  {
    hide Answers;
  }

  lemma StopCancel(s: Sys)
    requires CancelInv(s)
    ensures CancelInv(s.(stop := true)) && (s.stop ==> CancelInv(s.(cancelled := true)))
  {
  }

  lemma CancelKept(s: Sys, step: Step)
    requires Inv(s) && Enabled(s, step)
    ensures CancelInv(Apply(s, step))
  {
    hide Framed, Frame, Answers, IngestStep, DrainStep, PollStep, WriteStep, PublishStep, AskedBy, WireInv, AliveInv,
         PaceInv, CancelInv, DeviceValid;
    match step
    case IngestReport(draws) => IngestCancel(s, draws);
    case Publish => PublishCancel(s);
    case Drain => DrainSame(s); SameCancel(s, DrainStep(s));
    case Poll => PollSame(s); SameCancel(s, PollStep(s));
    case Write => WriteSame(s); SameCancel(s, WriteStep(s));
    case LookAtToken => LookCancel(s);
    case RequestStop => StopCancel(s);
    case CancelForStop => StopCancel(s);
    case _ => SameCancel(s, Apply(s, step));
  }

  lemma DeviceKept(s: Sys, step: Step)
    requires DeviceValid(s.dev) && Enabled(s, step)
    ensures DeviceValid(Apply(s, step).dev)
  {
    hide Framed, Frame, DeviceIngest, Ingest, DeviceValid, PollTimeout;
    match step
    case IngestReport(draws) =>
      DeviceIngestKeepsValid(s.dev, s.hid.report, if s.cmd.Some? then Some(s.cid) else None, s.now, draws);
    case Poll => PollTimeoutKeepsValid(s.dev, s.now);
    case _ =>
  }

  // ---------------------------------------------------------------- every run

  lemma InvKept(s: Sys, step: Step)
    requires Inv(s) && Enabled(s, step)
    ensures Inv(Apply(s, step))
  {
    hide WireInv, TxnInv, AliveInv, PaceInv, CancelInv, DeviceValid, Apply;
    DeviceKept(s, step);
    WireKept(s, step);
    TxnKept(s, step);
    AliveKept(s, step);
    PaceKept(s, step);
    CancelKept(s, step);
  }

  lemma InitialInv(dev: Device)
    requires DeviceValid(dev)
    ensures Inv(Initial(dev))
  {
  }

  lemma {:induction false} RunKeepsInv(s: Sys, steps: seq<Step>)
    requires Inv(s) && CanRun(s, steps)
    ensures Inv(Run(s, steps))
    decreases |steps|
  {
    hide Inv, Apply;
    if steps != [] {
      InvKept(s, steps[0]);
      RunKeepsInv(Apply(s, steps[0]), steps[1..]);
    }
  }

  // ---------------------------------------------------------------- what it means

  lemma AnswerAt(items: seq<Sent>, i: nat)
    requires i < |items| && items[i].kind.Response?
    ensures |Answers(items[..i])| < |Answers(items)| && Answers(items)[|Answers(items[..i])|] == items[i]
  {
    hide Answers;
    var before, after := items[..i], items[i + 1..];
    assert items == before + ([items[i]] + after);
    AnswersConcat(before, [items[i]] + after);
    AnswersConcat([items[i]], after);
    OneAnswer(items[i]);
  }

  lemma {:induction false} AnswerSomewhere(items: seq<Sent>, k: nat)
    requires k < |Answers(items)|
    ensures Answers(items)[k] in items
  {
    if !items[0].kind.Response? {
      AnswerSomewhere(items[1..], k);
    } else if k > 0 {
      AnswerSomewhere(items[1..], k - 1);
    }
  }

  lemma AnswerOnce(items: seq<Sent>, i: nat, j: nat)
    requires i < j < |items| && items[i].kind.Response? && items[j].kind.Response?
    requires forall t :: 0 <= t < |Answers(items)| ==> Answers(items)[t].kind == Response(t)
    ensures items[i].kind != items[j].kind
  {
    hide Answers;
    AnswerAt(items, i);
    AnswerAt(items, j);
    AnswerAt(items[..j], i);
    assert items[..j][..i] == items[..i];
  }

  /** In every interleaving, each ended transaction has been answered by exactly one message, on its own channel
      and command; no other transaction has been answered. */
  lemma AnsweredOnce(dev: Device, steps: seq<Step>, txn: nat)
    requires DeviceValid(dev) && CanRun(Initial(dev), steps)
    ensures var s := Run(Initial(dev), steps);
            var items := s.log + s.queued;
            && |s.dispatched| == |s.ends| + (if s.cmd.Some? then 1 else 0)
            && (txn < |s.ends| ==>
                  exists i :: 0 <= i < |items| && AnswersTo(items[i], s.dispatched[txn], txn)
                              && forall j :: 0 <= j < |items| && j != i ==> items[j].kind != Response(txn))
            && (txn >= |s.ends| ==> forall it <- items :: it.kind != Response(txn))
  {
    hide WireInv, PaceInv, CancelInv, DeviceValid, Apply, Run, CanRun, Answers;
    InitialInv(dev);
    RunKeepsInv(Initial(dev), steps);
    var s := Run(Initial(dev), steps);
    var items := s.log + s.queued;
    if txn < |s.ends| {
      AnswerSomewhere(items, txn);
      var i :| 0 <= i < |items| && items[i] == Answers(items)[txn];
      forall j | 0 <= j < |items| && j != i ensures items[j].kind != Response(txn) {
        if items[j].kind == Response(txn) {
          if i < j { AnswerOnce(items, i, j); } else { AnswerOnce(items, j, i); }
        }
      }
      assert AnswersTo(items[i], s.dispatched[txn], txn);
    }
  }

  /** In every interleaving, a host that reassembles the wire has at each moment a prefix of the messages taken
      for writing, complete and in order, and all of them once the current batch is written: all but those on
      channel 0 and those of more than 7550 bytes. */
  lemma WireReassembles(dev: Device, steps: seq<Step>)
    requires DeviceValid(dev) && CanRun(Initial(dev), steps)
    ensures var s := Run(Initial(dev), steps);
            var got := Received(Feed(None, s.wire).1);
            && got <= Receivable(Msgs(s.log))
            && (Left(s.hid) == [] ==> got == Receivable(Msgs(s.log)))
  {
    hide TxnInv, AliveInv, PaceInv, CancelInv, DeviceValid, Apply, Run, CanRun, Framed, Feed, Received, Receivable;
    InitialInv(dev);
    RunKeepsInv(Initial(dev), steps);
    var s := Run(Initial(dev), steps);
    PrefixReceived(Msgs(s.log), s.wire);
    if Left(s.hid) == [] {
      assert s.wire + [] == s.wire;
      StreamReceived(Msgs(s.log));
    }
  }

  /** Once the outbox and the current batch are written and no command is in flight, the wire carries the response
      to every command dispatched. */
  lemma AllAnsweredOnWire(dev: Device, steps: seq<Step>, txn: nat)
    requires DeviceValid(dev) && CanRun(Initial(dev), steps)
    requires var s := Run(Initial(dev), steps);
             s.cmd.None? && s.queued == [] && Left(s.hid) == [] && txn < |s.dispatched|
    ensures var s := Run(Initial(dev), steps);
            exists it <- s.log :: AnswersTo(it, s.dispatched[txn], txn)
               && (it.msg in Received(Feed(None, s.wire).1) || |it.msg.payload| > MAX_REASSEMBLED)
  {
    hide Apply, Run, CanRun, Framed, Feed, Received, Receivable, WireInv, AliveInv, PaceInv, CancelInv, DeviceValid,
         Answers;
    AnsweredOnce(dev, steps, txn);
    WireReassembles(dev, steps);
    InitialInv(dev);
    RunKeepsInv(Initial(dev), steps);
    var s := Run(Initial(dev), steps);
    var items := s.log + s.queued;
    var i :| 0 <= i < |items| && AnswersTo(items[i], s.dispatched[txn], txn);
    assert s.dispatched[txn] in s.dispatched;
    assert items == s.log && items[i] in s.log;
    assert Msgs(s.log)[i] in Msgs(s.log);
    if |items[i].msg.payload| <= MAX_REASSEMBLED {
      ReceivableIn(Msgs(s.log), items[i].msg);
    }
  }

  lemma {:induction false} ReceivableIn(ms: seq<Message>, m: Message)
    requires m in ms && m.cid != 0 && |m.payload| <= MAX_REASSEMBLED
    ensures m in Receivable(ms)
  {
    assert ms == [ms[0]] + ms[1..];
    if ms[0] != m { ReceivableIn(ms[1..], m); }
  }

  /** No keepalive of a transaction follows its response, on the wire or waiting; an ended transaction got at most
      one keepalive per 100 ms of its time in flight, and the one in flight at most one per 100 ms so far. */
  lemma KeepalivesPaced(dev: Device, steps: seq<Step>, txn: nat)
    requires DeviceValid(dev) && CanRun(Initial(dev), steps)
    ensures var s := Run(Initial(dev), steps);
            var items := s.log + s.queued;
            && (forall i, j :: 0 <= i < j < |items| && items[i].kind == Response(txn) ==> items[j].kind != Alive(txn))
            && |s.ends| <= |s.starts| == |s.dispatched|
            && (txn < |s.ends| ==> CountAlive(items, txn) <= (s.ends[txn] - s.starts[txn]) / KEEPALIVE_INTERVAL)
            && (txn == |s.ends| < |s.starts| ==> CountAlive(items, txn) <= (s.now - s.starts[txn]) / KEEPALIVE_INTERVAL)
            && (txn >= |s.starts| ==> CountAlive(items, txn) == 0)
  {
    hide WireInv, CancelInv, DeviceValid, Apply, Run, CanRun, CountAlive, Answers;
    InitialInv(dev);
    RunKeepsInv(Initial(dev), steps);
    var s := Run(Initial(dev), steps);
    NotCounted(s.log, s.queued);
  }

  /** A handler that saw its token set either ran while the daemon was stopping, or a CANCEL or INIT message of its
      transaction's own channel had arrived during that transaction, before the look: no cancellation leaks to
      another one. */
  lemma CancelIsolated(dev: Device, steps: seq<Step>)
    requires DeviceValid(dev) && CanRun(Initial(dev), steps)
    ensures var s := Run(Initial(dev), steps);
            forall l <- s.looks :: l.cancelled && !l.stopping ==>
              l.askedBefore.Some? && l.txn < |s.dispatched| && l.askedBefore.value.cid == s.dispatched[l.txn].cid
              && (l.askedBefore.value.cmd == CMD_CANCEL || l.askedBefore.value.cmd == CMD_INIT)
  {
    hide WireInv, TxnInv, AliveInv, PaceInv, DeviceValid, Apply, Run, CanRun;
    InitialInv(dev);
    RunKeepsInv(Initial(dev), steps);
  }
}
