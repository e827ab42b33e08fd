/** The locked regions of src/daemon/loop.cpp on the Loop object's own fields. Each is one step of the transition
    system: from fields that match a state s, to fields that match the state after the step. */
module LoopIo {
  import opened Bytes
  import opened HidFramer
  import opened HidDevice
  import D = HidDeviceIo
  import L = Loop

  class Loop {
    const device: D.Device
    // inflight_ with its token, outbox_ and stop_
    var cmd: Option<Message>
    var cid: U32
    var cancelled: bool
    var status: Byte
    var started: nat
    var lastKeepalive: nat
    var outbox: seq<Report>
    var stop: bool

    ghost predicate Valid()
      reads this, device, device.framer
    {
      device.Valid()
    }

    ghost predicate Matches(s: L.Sys)
      reads this, device, device.framer
    {
      && s.dev == device.State() && s.cmd == cmd && s.cid == cid && s.cancelled == cancelled && s.status == status
      && s.started == started && s.lastKeepalive == lastKeepalive && s.outbox == outbox && s.stop == stop
    }

    constructor (d: D.Device)
      requires d.Valid()
      ensures device == d && Valid() && Matches(L.Initial(d.State()))
    {
      device := d;
      cmd, cid, cancelled, status := None, 0, false, L.PROCESSING;
      started, lastKeepalive, outbox, stop := 0, 0, [], false;
    }

    /** Swaps the outbox out and appends a keepalive when one is due. */
    method Drain(ghost s: L.Sys, now: nat) returns (toWrite: seq<Report>)
      requires Valid() && Matches(s) && s.hid.Draining? && s.now == now
      modifies this`outbox, this`lastKeepalive
      ensures Valid() && Matches(L.Apply(s, L.Drain)) && toWrite == L.Left(L.Apply(s, L.Drain).hid)
    {
      hide Frame, Keepalive, DeviceValid;
      toWrite := outbox;
      outbox := [];
      if cmd.Some? && now - lastKeepalive >= L.KEEPALIVE_INTERVAL {
        lastKeepalive := now;
        var packet := D.Device.KeepalivePacket(cid, status);
        toWrite := toWrite + [packet];
      }
      assert toWrite + [] == toWrite;
    }

    /** The inter-packet timeout on a partial message; on the HID thread alone. */
    method Poll(ghost s: L.Sys, now: nat) returns (toWrite: seq<Report>)
      requires Valid() && Matches(s) && s.hid.Polling? && s.now == now
      modifies device, device.framer
      ensures Valid() && Matches(L.Apply(s, L.Poll)) && toWrite == L.Left(L.Apply(s, L.Poll).hid)
    {
      hide Frame, DeviceValid, PollTimeout;
      var t := device.PollTimeout(now);
      toWrite := [];
      if t.Some? {
        toWrite := [t.value];
      }
      ghost var m := HidDevice.PollTimeout(s.dev, s.now).1;
      assert L.PollStep(s).hid == if m.None? then L.Reading else L.Writing(Frame(m.value), true, false);
    }

    /** Ingests a report: the busy decision, a cancellation, or a new transaction. */
    method Ingest(ghost s: L.Sys, report: Report, now: nat, draws: seq<Option<U32>>) returns (replies: seq<Report>)
      requires Valid() && Matches(s) && s.hid == L.Ingesting(report) && s.now == now
      modifies this, device, device.framer
      ensures Valid() && Matches(L.Apply(s, L.IngestReport(draws)))
              && replies == L.Left(L.Apply(s, L.IngestReport(draws)).hid)
    {
      hide DeviceIngest, DeviceValid, Framed, L.IngestStep, L.Left;
      IngestFields(s, draws);
      var busy := if cmd.Some? then Some(cid) else None;
      DispatchNoCancel(device.State(), report, busy, now, draws);
      var reply, toWorker, cancel := device.IngestReport(report, busy, now, draws);
      replies := reply;
      if cancel && cmd.Some? {
        cancelled := true;
      }
      if toWorker.Some? {
        cid := toWorker.value.cid;
        cancelled := false;
        status := L.PROCESSING;
        started := now;
        lastKeepalive := started;
        cmd := toWorker;
      }
    }

    /** The step's new state, field by field. */
    static lemma IngestFields(s: L.Sys, draws: seq<Option<U32>>)
      requires s.hid.Ingesting?
      ensures var busy := if s.cmd.Some? then Some(s.cid) else None;
              var (dev, out) := DeviceIngest(s.dev, s.hid.report, busy, s.now, draws);
              var s' := L.IngestStep(s, draws);
              && s'.dev == dev && L.Left(s'.hid) == Framed(out.reply) && s'.outbox == s.outbox && s'.stop == s.stop
              && (if out.toWorker.Some?
                  then s'.cmd == out.toWorker && s'.cid == out.toWorker.value.cid && !s'.cancelled
                       && s'.status == L.PROCESSING
                       && s'.started == s'.lastKeepalive == s.now
                  else s'.cmd == s.cmd && s'.cid == s.cid
                       && s'.cancelled == (s.cancelled || (out.cancel && s.cmd.Some?))
                       && s'.status == s.status && s'.started == s.started && s'.lastKeepalive == s.lastKeepalive)
    {
      hide DeviceIngest, Framed, HidFramer.Ingest;
    }

    static lemma DispatchNoCancel(dev: HidDevice.Device, r: Report, inflight: Option<U32>, now: nat,
                                  draws: seq<Option<U32>>)
      requires DeviceValid(dev)
      ensures DeviceIngest(dev, r, inflight, now, draws).1.toWorker.Some?
              ==> !DeviceIngest(dev, r, inflight, now, draws).1.cancel
    {
      hide DeviceIngest;
      DispatchAndCancel(dev, r, inflight, now, draws);
    }

    /** The worker takes the command; the slot stays occupied. */
    method Take(ghost s: L.Sys) returns (msg: Message)
      requires Valid() && Matches(s) && s.worker.Idle? && cmd.Some? && !stop
      ensures Matches(L.Apply(s, L.Take)) && L.Apply(s, L.Take).worker == L.Working(msg)
    {
      hide DeviceValid;
      msg := cmd.value;
    }

    /** Publishes the response and frees the slot in one region. */
    method Publish(ghost s: L.Sys, resp: Message)
      requires Valid() && Matches(s) && s.worker == L.Finished(resp)
      modifies this
      ensures Valid() && Matches(L.Apply(s, L.Publish))
    {
      hide DeviceValid, Frame;
      var frames := device.framer.FrameMessage(resp);
      outbox := outbox + frames;
      cmd := None;
      cancelled := false;
      status := L.PROCESSING;
    }

    /** stop: the flag first, then the token under the lock. */
    method Stop(ghost s: L.Sys)
      requires Valid() && Matches(s)
      modifies this`stop, this`cancelled
      ensures Valid() && Matches(L.Apply(L.Apply(s, L.RequestStop), L.CancelForStop))
    {
      hide DeviceValid;
      stop := true;
      cancelled := true;
    }
  }
}
