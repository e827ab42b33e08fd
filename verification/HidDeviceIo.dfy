/** The HidDevice object of include/swpasskey/ctap/hid_device.hpp over the HidFramer object. */
module HidDeviceIo {
  import opened Bytes
  import opened HidFramer
  import opened HidFramerIo
  import D = HidDevice
  import opened HidDevice

  class Device {
    const caps: Byte
    const msgSupported: bool
    const framer: Framer
    var channels: seq<Channel>
    var since: Option<nat>
    var fallback: U32

    ghost function State(): D.Device
      reads this, framer
    {
      D.Device(caps, msgSupported, framer.assembly, channels, since, fallback)
    }

    ghost predicate Valid()
      reads this, framer
    {
      DeviceValid(State())
    }

    constructor (caps: Byte, msgSupported: bool)
      ensures Valid() && fresh(framer)
      ensures State() == D.Device(caps, msgSupported, None, [], None, 0x1000_0001)
    {
      this.caps, this.msgSupported := caps, msgSupported;
      framer := new Framer();
      channels, since, fallback := [], None, 0x1000_0001;
    }

    // -------------------------------------------------------------- packets

    static method OneByteReport(cid: U32, cmd: Byte, b: Byte) returns (r: Report)
      requires cmd < 128
      ensures r == OneBytePacket(cid, cmd, b)
    {
      var pkt := new Byte[REPORT_SIZE](i => 0);
      assert pkt[4..] == Zeros(60);
      Framer.WriteCid(pkt, cid);
      pkt[4] := TYPE_INIT + cmd;
      pkt[5] := 0;
      pkt[6] := 1;
      pkt[7] := b;
      r := pkt[..];
      assert r == LittleEndian32(cid) + [TYPE_INIT + cmd, 0, 1, b] + Zeros(56);
    }

    /** error_packet: the framing of the error message. */
    static method ErrorPacket(cid: U32, err: HidErr) returns (r: Report)
      ensures [r] == Frame(ErrorReply(cid, err))
    {
      OneBytePacketIsFrame(cid, CMD_ERROR, err.Code());
      r := OneByteReport(cid, CMD_ERROR, err.Code());
    }

    /** keepalive_packet: the framing of the keepalive message. */
    static method KeepalivePacket(cid: U32, status: Byte) returns (r: Report)
      ensures [r] == Frame(Keepalive(cid, status))
    {
      OneBytePacketIsFrame(cid, CMD_KEEPALIVE, status);
      r := OneByteReport(cid, CMD_KEEPALIVE, status);
    }

    /** init_response: 17 bytes fit the first packet. */
    method InitResponse(replyCid: U32, nonce: seq<Byte>, newCid: U32) returns (r: Report)
      requires |nonce| == 8
      ensures [r] == Frame(InitReply(replyCid, nonce, newCid, caps))
    {
      var payload := nonce;
      payload := payload + [newCid % 256];
      payload := payload + [newCid / 256 % 256];
      payload := payload + [newCid / 0x1_0000 % 256];
      payload := payload + [newCid / 0x100_0000];
      payload := payload + [HID_VERSION, 0, 1, 0, caps];
      assert payload == nonce + LittleEndian32(newCid) + [HID_VERSION, 0, 1, 0, caps];
      var m := Message(replyCid, CMD_INIT, payload);
      var reports := framer.FrameMessage(m);
      NoContinuations(m);
      return reports[0];
    }

    // -------------------------------------------------------------- channels

    method IsAllocated(cid: U32) returns (b: bool)
      ensures b == Allocated(channels, cid)
    {
      var i := 0;
      while i < |channels|
        invariant 0 <= i <= |channels| && forall j :: 0 <= j < i ==> channels[j].cid != cid
      {
        if channels[i].cid == cid {
          assert channels[i] in channels;
          return true;
        }
        i := i + 1;
      }
      return false;
    }

    static lemma TouchStep(channels: seq<Channel>, i: nat, cid: U32, now: nat)
      requires i < |channels|
      ensures channels[..i] + Touch(channels[i..], cid, now)
           == if channels[i].cid == cid then channels[i := Channel(cid, now)]
              else channels[..i + 1] + Touch(channels[i + 1..], cid, now)
    {
      hide Touch;
      TouchFirst(channels[i..], cid, now);
      assert channels[i..][1..] == channels[i + 1..];
      assert channels[i := Channel(cid, now)] == channels[..i] + ([Channel(cid, now)] + channels[i + 1..]);
      assert channels[..i + 1] == channels[..i] + [channels[i]];
      assert channels[..i] + ([channels[i]] + Touch(channels[i + 1..], cid, now))
             == channels[..i + 1] + Touch(channels[i + 1..], cid, now);
    }

    static lemma TouchFirst(channels: seq<Channel>, cid: U32, now: nat)
      requires channels != []
      ensures Touch(channels, cid, now)
           == if channels[0].cid == cid then [Channel(cid, now)] + channels[1..]
               else [channels[0]] + Touch(channels[1..], cid, now)
    {
    }

    static lemma TouchNone(cid: U32, now: nat)
      ensures Touch([], cid, now) == []
    {
    }

    method TouchChannel(cid: U32, now: nat)
      modifies this`channels
      ensures channels == Touch(old(channels), cid, now)
    {
      hide Touch;
      var i := 0;
      assert channels[..0] == [] && channels[0..] == channels;
      assert [] + Touch(channels, cid, now) == Touch(channels, cid, now);
      while i < |channels|
        invariant 0 <= i <= |channels| && channels == old(channels)
        invariant channels[..i] + Touch(channels[i..], cid, now) == Touch(channels, cid, now)
      {
        TouchStep(channels, i, cid, now);
        if channels[i].cid == cid {
          channels := channels[i := Channel(cid, now)];
          return;
        }
        i := i + 1;
      }
      TouchNone(cid, now);
      assert channels[..i] == channels && channels[i..] == [] && channels + [] == channels;
    }

    /** std::min_element, and the removal of what it finds. */
    method ReapOldest()
      modifies this`channels
      ensures channels == Reap(old(channels))
    {
      if |channels| < MAX_CHANNELS {
        return;
      }
      var lru, i := 0, 1;
      while i < |channels|
        invariant 1 <= i <= |channels| && 0 <= lru < i
        invariant forall j :: 0 <= j < i ==> channels[lru].lastUsed <= channels[j].lastUsed
        invariant forall j :: 0 <= j < lru ==> channels[lru].lastUsed < channels[j].lastUsed
      {
        if channels[i].lastUsed < channels[lru].lastUsed {
          lru := i;
        }
        i := i + 1;
      }
      assert lru == LruIndex(channels);
      channels := channels[..lru] + channels[lru + 1..];
    }

    /** allocate_cid over the RNG's draws; None when the draws given do not end the loop. */
    method AllocateCid(now: nat, draws: seq<Option<U32>>) returns (newCid: Option<U32>)
      modifies this`channels, this`fallback
      ensures match Draw(Reap(old(channels)), old(fallback), draws)
              case None => newCid == None && channels == Reap(old(channels)) && fallback == old(fallback)
              case Some(drawn) =>
                newCid == Some(drawn.0) && fallback == drawn.1
                && channels == Reap(old(channels)) + [Channel(drawn.0, now)]
    {
      hide Reap, Allocated;
      ReapOldest();
      var next: U32, i: nat := fallback, 0;
      while i < |draws|
        invariant 0 <= i <= |draws| && channels == Reap(old(channels)) && fallback == old(fallback)
        invariant Draw(channels, next, draws[i..]) == Draw(channels, fallback, draws)
      {
        assert draws[i..][1..] == draws[i + 1..];
        if draws[i].None? {
          next := (next + FALLBACK_STEP) % TWO32;
        }
        var cid := draws[i].GetOr(next);
        var taken := IsAllocated(cid);
        if cid == 0 || cid == BROADCAST_CID || taken {
          i := i + 1;
          continue;
        }
        channels := channels + [Channel(cid, now)];
        fallback := next;
        return Some(cid);
      }
      return None;
    }

    // -------------------------------------------------------------- timer and reports

    method PollTimeout(now: nat) returns (r: Option<Report>)
      requires Valid()
      modifies this`since, framer
      ensures Valid()
      ensures var (dev, m) := D.PollTimeout(old(State()), now);
              State() == dev && (if m.Some? then r.Some? && [r.value] == Frame(m.value) else r.None?)
    {
      PollTimeoutKeepsValid(State(), now);
      if framer.assembly.None? || since.None? {
        return None;
      }
      if now - since.value < INTER_PACKET_TIMEOUT {
        return None;
      }
      var cid := framer.assembly.value.cid;
      since := None;
      var err := framer.OnTimeout();
      var packet := ErrorPacket(cid, MsgTimeout);
      return Some(packet);
    }

    /** What ingest returns: the reports to write at once, the message for the worker, the wish to cancel. */
    method IngestReport(report: Report, inflight: Option<U32>, now: nat, draws: seq<Option<U32>>)
      returns (reply: seq<Report>, toWorker: Option<Message>, cancel: bool)
      requires Valid()
      modifies this, framer
      ensures Valid()
      ensures var (dev, out) := DeviceIngest(old(State()), report, inflight, now, draws);
              State() == dev && reply == Framed(out.reply) && toWorker == out.toWorker && cancel == out.cancel
    {
      hide Ingest, Handle, Draw, Reap, Cid, Frame, InitReply, ErrorReply, DeviceValid;
      DeviceIngestKeepsValid(State(), report, inflight, now, draws);
      ghost var device := State();
      var cid := FromLittleEndian32(report[..4]);
      assert cid == Cid(report) by { CidIs(report); }
      reply, toWorker, cancel := [], None, false;
      if cid == BROADCAST_CID && report[4] == TYPE_INIT + CMD_INIT {
        if Bcnt(report) != 8 {
          FramedOne(ErrorReply(cid, InvalidLen));
          var packet := ErrorPacket(cid, InvalidLen);
          reply := [packet];
          return;
        }
        var newCid := AllocateCid(now, draws);
        if newCid.None? {
          FramedNone();
          return;
        }
        FramedOne(InitReply(BROADCAST_CID, report[7..15], newCid.value, caps));
        var packet := InitResponse(BROADCAST_CID, report[7..15], newCid.value);
        reply := [packet];
        return;
      }
      assert framer.Valid() by { FramerValid(State()); }
      var o := framer.ReadReport(report);
      match o {
        case Refused(err) =>
          FramedOne(ErrorReply(cid, err));
          var packet := ErrorPacket(cid, err);
          reply := [packet];
        case Partial =>
          since := Some(now);
          FramedNone();
        case Complete(msg) =>
          since := None;
          assert State() == device.(assembly := framer.assembly, since := None);
          reply, toWorker, cancel := HandleMessage(cid, msg, inflight, now);
      }
    }

    /** The rest of ingest, for a whole message. */
    method HandleMessage(cid: U32, msg: Message, inflight: Option<U32>, now: nat)
      returns (reply: seq<Report>, toWorker: Option<Message>, cancel: bool)
      modifies this`channels
      ensures var (dev, out) := D.Handle(old(State()), cid, msg, inflight, now);
              State() == dev && reply == Framed(out.reply) && toWorker == out.toWorker && cancel == out.cancel
    {
      hide Frame, InitReply, ErrorReply, Touch, Allocated;
      reply, toWorker, cancel := [], None, false;
      FramedNone();
      var known := IsAllocated(cid);
      if msg.cmd == CMD_INIT {
        if |msg.payload| != 8 {
          reply := Failed(cid, InvalidLen);
          return;
        }
        if !known {
          reply := Failed(cid, InvalidChannel);
          return;
        }
        TouchChannel(cid, now);
        if inflight == Some(cid) {
          cancel := true;
        }
        FramedOne(InitReply(cid, msg.payload, cid, caps));
        var packet := InitResponse(cid, msg.payload, cid);
        reply := [packet];
        return;
      }
      if cid == BROADCAST_CID || !known {
        reply := Failed(cid, InvalidChannel);
        return;
      }
      TouchChannel(cid, now);
      if msg.cmd == CMD_PING {
        FramedOne(msg);
        reply := framer.FrameMessage(msg);
      } else if msg.cmd == CMD_WINK {
        FramedOne(Message(cid, CMD_WINK, []));
        reply := framer.FrameMessage(Message(cid, CMD_WINK, []));
      } else if msg.cmd == CMD_CANCEL {
        if inflight == Some(cid) {
          cancel := true;
        }
      } else if msg.cmd == CMD_CBOR || (msg.cmd == CMD_MSG && msgSupported) {
        if inflight.Some? {
          reply := Failed(cid, ChannelBusy);
          return;
        }
        toWorker := Some(msg);
      } else {
        reply := Failed(cid, InvalidCmd);
      }
    }

    static method Failed(cid: U32, err: HidErr) returns (reply: seq<Report>)
      ensures reply == Framed([ErrorReply(cid, err)])
    {
      FramedOne(ErrorReply(cid, err));
      var packet := ErrorPacket(cid, err);
      return [packet];
    }

    static lemma FramedNone()
      ensures Framed([]) == []
    {
    }

    static lemma CidIs(r: Report)
      ensures Cid(r) == FromLittleEndian32(r[..4])
    {
    }

    static lemma FramerValid(dev: D.Device)
      requires DeviceValid(dev)
      ensures AssemblyValid(dev.assembly)
    {
    }
  }
}
