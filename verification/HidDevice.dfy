/** The CTAPHID device logic of src/ctap/hid_device.cpp: at most four channels, the inter-packet timer, and what
    is answered at once, handed to the worker, or taken as a cancellation. */
module HidDevice {
  import opened Bytes
  import opened HidFramer

  const CMD_PING: Byte := 0x01
  const CMD_MSG: Byte := 0x03
  const CMD_INIT: Byte := 0x06
  const CMD_WINK: Byte := 0x08
  const CMD_CBOR: Byte := 0x10
  const CMD_CANCEL: Byte := 0x11
  const CMD_KEEPALIVE: Byte := 0x3B
  const CMD_ERROR: Byte := 0x3F
  const HID_VERSION: Byte := 0x02
  const MAX_CHANNELS := 4
  const INTER_PACKET_TIMEOUT := 500
  const FALLBACK_STEP := 0x9E37_79B9

  datatype Channel = Channel(cid: U32, lastUsed: nat)

  /** Times are in milliseconds. fallback is the counter behind channel ids when the RNG fails. */
  datatype Device = Device(
    caps: Byte, msgSupported: bool, assembly: Option<Assembly>, channels: seq<Channel>, since: Option<nat>,
    fallback: U32)

  /** The messages to write at once, what the worker gets, and whether the busy channel asked to cancel. */
  datatype Ingested = Ingested(reply: seq<Message>, toWorker: Option<Message>, cancel: bool)

  // ---------------------------------------------------------------- packets

  function ErrorReply(cid: U32, err: HidErr): Message { Message(cid, CMD_ERROR, [err.Code()]) }

  function Keepalive(cid: U32, status: Byte): Message { Message(cid, CMD_KEEPALIVE, [status]) }

  /** error_packet and keepalive_packet: one report built field by field. */
  function OneBytePacket(cid: U32, cmd: Byte, b: Byte): Report
    requires cmd < 128
  {
    Pad(LittleEndian32(cid) + [TYPE_INIT + cmd, 0, 1, b])
  }

  /** Such a report is the whole framing of the one-byte message. */
  lemma OneBytePacketIsFrame(cid: U32, cmd: Byte, b: Byte)
    requires cmd < 128
    ensures Frame(Message(cid, cmd, [b])) == [OneBytePacket(cid, cmd, b)]
  {
    var m := Message(cid, cmd, [b]);
    assert m.payload[..1] == [b];
    assert LittleEndian32(cid) + [TYPE_INIT + cmd, 0, 1] + [b] == LittleEndian32(cid) + [TYPE_INIT + cmd, 0, 1, b];
    assert Continuations(m, 0) == [];
  }

  function InitReply(replyCid: U32, nonce: seq<Byte>, newCid: U32, caps: Byte): Message {
    Message(replyCid, CMD_INIT, nonce + LittleEndian32(newCid) + [HID_VERSION, 0, 1, 0, caps])
  }

  // ---------------------------------------------------------------- channels

  predicate Allocated(channels: seq<Channel>, cid: U32) {
    exists c <- channels :: c.cid == cid
  }

  function Touch(channels: seq<Channel>, cid: U32, now: nat): (r: seq<Channel>)
    ensures |r| == |channels|
  {
    if channels == [] then []
    else if channels[0].cid == cid then [Channel(cid, now)] + channels[1..]
    else [channels[0]] + Touch(channels[1..], cid, now)
  }

  /** The first channel with the smallest last-used time. */
  function LruIndex(channels: seq<Channel>): (i: nat)
    requires channels != []
    ensures i < |channels|
    ensures forall j :: 0 <= j < |channels| ==> channels[i].lastUsed <= channels[j].lastUsed
    ensures forall j :: 0 <= j < i ==> channels[i].lastUsed < channels[j].lastUsed
  {
    if |channels| == 1 then 0
    else
      var k := 1 + LruIndex(channels[1..]);
      assert forall j :: 1 <= j < |channels| ==> channels[j] == channels[1..][j - 1];
      if channels[0].lastUsed <= channels[k].lastUsed then 0 else k
  }

  function Reap(channels: seq<Channel>): (r: seq<Channel>)
    ensures |r| < MAX_CHANNELS || |channels| > MAX_CHANNELS
  {
    if |channels| < MAX_CHANNELS then channels
    else
      var i := LruIndex(channels);
      channels[..i] + channels[i + 1..]
  }

  /** The allocation loop, over the RNG's successive draws (None: the RNG failed). The result is the new channel
      id and the fallback counter; None means that the draws given do not end the loop. */
  function Draw(channels: seq<Channel>, fallback: U32, draws: seq<Option<U32>>): Option<(U32, U32)>
    decreases |draws|
  {
    if draws == [] then None
    else
      var fallback' := if draws[0].Some? then fallback else (fallback + FALLBACK_STEP) % TWO32;
      var cid := draws[0].GetOr(fallback');
      if cid == 0 || cid == BROADCAST_CID || Allocated(channels, cid) then Draw(channels, fallback', draws[1..])
      else Some((cid, fallback'))
  }

  // ---------------------------------------------------------------- ingest and timeout

  predicate IsBroadcastInit(r: Report) { Cid(r) == BROADCAST_CID && r[4] == TYPE_INIT + CMD_INIT }

  function Fail(dev: Device, cid: U32, err: HidErr): (Device, Ingested) {
    (dev, Ingested([ErrorReply(cid, err)], None, false))
  }

  /** inflight is the channel the worker is busy for. */
  function DeviceIngest(dev: Device, r: Report, inflight: Option<U32>, now: nat,
                        draws: seq<Option<U32>>): (Device, Ingested) {
    if IsBroadcastInit(r) then
      if Bcnt(r) != 8 then Fail(dev, BROADCAST_CID, InvalidLen)
      else
        var channels := Reap(dev.channels);
        match Draw(channels, dev.fallback, draws)
        case None => (dev.(channels := channels), Ingested([], None, false))
        case Some(drawn) =>
          (dev.(channels := channels + [Channel(drawn.0, now)], fallback := drawn.1),
           Ingested([InitReply(BROADCAST_CID, r[7..15], drawn.0, dev.caps)], None, false))
    else
      var (assembly, o) := Ingest(dev.assembly, r);
      var dev' := dev.(assembly := assembly);
      match o
      case Refused(err) => Fail(dev', Cid(r), err)
      case Partial => (dev'.(since := Some(now)), Ingested([], None, false))
      case Complete(msg) => Handle(dev'.(since := None), Cid(r), msg, inflight, now)
  }

  function Handle(dev: Device, cid: U32, msg: Message, inflight: Option<U32>, now: nat): (Device, Ingested) {
    var touched := dev.(channels := Touch(dev.channels, cid, now));
    if msg.cmd == CMD_INIT then
      if |msg.payload| != 8 then Fail(dev, cid, InvalidLen)
      else if !Allocated(dev.channels, cid) then Fail(dev, cid, InvalidChannel)
      else (touched, Ingested([InitReply(cid, msg.payload, cid, dev.caps)], None, inflight == Some(cid)))
    else if cid == BROADCAST_CID || !Allocated(dev.channels, cid) then Fail(dev, cid, InvalidChannel)
    else if msg.cmd == CMD_PING then (touched, Ingested([msg], None, false))
    else if msg.cmd == CMD_WINK then (touched, Ingested([Message(cid, CMD_WINK, [])], None, false))
    else if msg.cmd == CMD_CANCEL then (touched, Ingested([], None, inflight == Some(cid)))
    else if msg.cmd == CMD_CBOR || (msg.cmd == CMD_MSG && dev.msgSupported) then
      if inflight.Some? then Fail(touched, cid, ChannelBusy)
      else (touched, Ingested([], Some(msg), false))
    else Fail(touched, cid, InvalidCmd)
  }

  function PollTimeout(dev: Device, now: nat): (Device, Option<Message>) {
    if dev.assembly.None? || dev.since.None? || now - dev.since.value < INTER_PACKET_TIMEOUT then (dev, None)
    else (dev.(assembly := None, since := None), Some(ErrorReply(dev.assembly.value.cid, MsgTimeout)))
  }

  // ---------------------------------------------------------------- invariant

  ghost predicate ChannelsValid(channels: seq<Channel>) {
    && (forall i, j :: 0 <= i < j < |channels| ==> channels[i].cid != channels[j].cid)
    && (forall c <- channels :: c.cid != 0 && c.cid != BROADCAST_CID)
  }

  /** At most four channels with distinct usable ids, and an armed timer for every partial message. */
  ghost predicate DeviceValid(dev: Device) {
    && |dev.channels| <= MAX_CHANNELS && ChannelsValid(dev.channels)
    && AssemblyValid(dev.assembly) && (dev.assembly.Some? ==> dev.since.Some?)
  }

  lemma ChannelsTail(channels: seq<Channel>)
    requires ChannelsValid(channels) && channels != []
    ensures ChannelsValid(channels[1..])
    ensures forall i :: 0 < i < |channels| ==> channels[i].cid != channels[0].cid && channels[i] == channels[1..][i - 1]
  {
    assert forall c <- channels[1..] :: c in channels;
  }

  lemma {:induction false} TouchAt(channels: seq<Channel>, cid: U32, now: nat)
    requires ChannelsValid(channels)
    ensures forall i :: 0 <= i < |channels| ==>
              Touch(channels, cid, now)[i] == if channels[i].cid == cid then Channel(cid, now) else channels[i]
  {
    hide ChannelsValid;
    if channels != [] {
      ChannelsTail(channels);
      if channels[0].cid != cid {
        TouchAt(channels[1..], cid, now);
        assert Touch(channels, cid, now) == [channels[0]] + Touch(channels[1..], cid, now);
      }
    }
  }

  lemma TouchKeepsValid(channels: seq<Channel>, cid: U32, now: nat)
    requires ChannelsValid(channels)
    ensures ChannelsValid(Touch(channels, cid, now))
    ensures forall x: U32 :: Allocated(Touch(channels, cid, now), x) <==> Allocated(channels, x)
  {
    TouchAt(channels, cid, now);
    var after := Touch(channels, cid, now);
    assert forall i :: 0 <= i < |channels| ==> after[i].cid == channels[i].cid;
    forall c | c in after ensures c.cid != 0 && c.cid != BROADCAST_CID {
      var i :| 0 <= i < |after| && after[i] == c;
      assert channels[i] in channels;
    }
    forall x: U32 ensures Allocated(after, x) <==> Allocated(channels, x) {
      if Allocated(after, x) {
        var i :| 0 <= i < |after| && after[i].cid == x;
        assert channels[i] in channels;
      }
      if Allocated(channels, x) {
        var i :| 0 <= i < |channels| && channels[i].cid == x;
        assert after[i] in after;
      }
    }
  }

  lemma {:induction false} DrawnIsUsable(channels: seq<Channel>, fallback: U32, draws: seq<Option<U32>>)
    ensures Draw(channels, fallback, draws).Some? ==>
              var cid := Draw(channels, fallback, draws).value.0;
              cid != 0 && cid != BROADCAST_CID && !Allocated(channels, cid)
    decreases |draws|
  {
    if draws != [] {
      var fallback' := if draws[0].Some? then fallback else (fallback + FALLBACK_STEP) % TWO32;
      DrawnIsUsable(channels, fallback', draws[1..]);
    }
  }

  lemma HandleKeepsValid(dev: Device, cid: U32, msg: Message, inflight: Option<U32>, now: nat)
    requires DeviceValid(dev)
    ensures DeviceValid(Handle(dev, cid, msg, inflight, now).0)
    ensures Handle(dev, cid, msg, inflight, now).0.assembly == dev.assembly
    ensures Handle(dev, cid, msg, inflight, now).0.since == dev.since
  {
    hide ErrorReply, InitReply, Touch, AssemblyValid, ChannelsValid;
    TouchKeepsValid(dev.channels, cid, now);
  }

  lemma DeviceIngestKeepsValid(dev: Device, r: Report, inflight: Option<U32>, now: nat, draws: seq<Option<U32>>)
    requires DeviceValid(dev)
    ensures DeviceValid(DeviceIngest(dev, r, inflight, now, draws).0)
  {
    hide Ingest, Cid, ErrorReply, InitReply, Draw, Handle, IsBroadcastInit, AssemblyValid, Reap;
    if IsBroadcastInit(r) {
      ReapKeepsValid(dev.channels);
      DrawnIsUsable(Reap(dev.channels), dev.fallback, draws);
    } else {
      IngestKeepsValid(dev.assembly, r);
      match Ingest(dev.assembly, r) {
        case (assembly, Complete(msg)) =>
          assert assembly == None by { CompleteFrees(dev.assembly, r); }
          HandleKeepsValid(dev.(assembly := None, since := None), Cid(r), msg, inflight, now);
        case (assembly, Refused(_)) =>
          RefusedNotNew(dev.assembly, r);
        case (_, Partial) =>
      }
    }
  }

  lemma ReapKeepsValid(channels: seq<Channel>)
    requires ChannelsValid(channels) && |channels| <= MAX_CHANNELS
    ensures ChannelsValid(Reap(channels)) && |Reap(channels)| < MAX_CHANNELS
  {
  }

  lemma CompleteFrees(a: Option<Assembly>, r: Report)
    requires Ingest(a, r).1.Complete?
    ensures Ingest(a, r).0 == None
  {
  }

  lemma RefusedNotNew(a: Option<Assembly>, r: Report)
    requires Ingest(a, r).1.Refused?
    ensures Ingest(a, r).0 == a || Ingest(a, r).0 == None
  {
  }

  lemma PollTimeoutKeepsValid(dev: Device, now: nat)
    requires DeviceValid(dev)
    ensures DeviceValid(PollTimeout(dev, now).0)
  {
  }

  // ---------------------------------------------------------------- timer

  /** A report of another channel leaves a partial message and its timer alone, whatever it is and whatever it
      makes the device answer. */
  lemma OthersKeepTimer(dev: Device, r: Report, inflight: Option<U32>, now: nat, draws: seq<Option<U32>>)
    requires DeviceValid(dev) && dev.assembly.Some? && Cid(r) != dev.assembly.value.cid
    ensures var dev' := DeviceIngest(dev, r, inflight, now, draws).0;
            dev'.assembly == dev.assembly && dev'.since == dev.since
  {
    hide Cid, ErrorReply, InitReply, Draw, Touch;
    NoiseRefused(dev.assembly.value, r);
  }

  /** Five hundred milliseconds after the last accepted packet, polling frees the device and reports the owner's
      timeout; before that, polling does nothing. */
  lemma PollFrees(dev: Device, now: nat)
    requires DeviceValid(dev) && dev.assembly.Some?
    ensures PollTimeout(dev, now)
         == if now >= dev.since.value + INTER_PACKET_TIMEOUT
            then (dev.(assembly := None, since := None), Some(ErrorReply(dev.assembly.value.cid, MsgTimeout)))
            else (dev, None)
  {
  }

  /** The timer is set anew only by an accepted packet of the assembly's own channel. */
  lemma OwnPacketArmsTimer(dev: Device, r: Report, inflight: Option<U32>, now: nat, draws: seq<Option<U32>>)
    requires DeviceValid(dev)
    ensures var dev' := DeviceIngest(dev, r, inflight, now, draws).0;
            (dev'.assembly.Some? && (dev'.assembly != dev.assembly || dev'.since != dev.since))
            ==> (dev'.since == Some(now) && dev'.assembly.value.cid == Cid(r) && Ingest(dev.assembly, r).1 == Partial)
  {
    hide Cid, Bcnt, Reap, ErrorReply, InitReply, Draw, Touch, Ingest, Handle, AssemblyValid, ChannelsValid;
    IngestKeepsValid(dev.assembly, r);
    match Ingest(dev.assembly, r) {
      case (_, Complete(msg)) =>
        CompleteFrees(dev.assembly, r);
        HandleKeepsValid(dev.(assembly := None, since := None), Cid(r), msg, inflight, now);
      case (_, Refused(_)) => RefusedNotNew(dev.assembly, r);
      case (_, Partial) => PartialOwner(dev.assembly, r);
    }
  }

  lemma PartialOwner(a: Option<Assembly>, r: Report)
    requires Ingest(a, r).1 == Partial
    ensures Ingest(a, r).0.Some? && Ingest(a, r).0.value.cid == Cid(r)
  {
    hide Cid;
  }

  // ---------------------------------------------------------------- least recently used

  /** recency lists the channels in the order of their last uses, least recent first, all before now. */
  ghost predicate IsRecency(recency: seq<Channel>, channels: seq<Channel>, now: nat) {
    && (forall c :: c in recency <==> c in channels)
    && Ascending(recency)
    && (forall c <- recency :: c.lastUsed < now)
  }

  ghost function OthersThan(recency: seq<Channel>, cid: U32): seq<Channel> {
    if recency == [] then []
    else (if recency[0].cid == cid then [] else [recency[0]]) + OthersThan(recency[1..], cid)
  }

  lemma {:induction false} OthersThanMembers(recency: seq<Channel>, cid: U32)
    ensures forall c :: c in OthersThan(recency, cid) <==> c in recency && c.cid != cid
  {
    if recency != [] {
      OthersThanMembers(recency[1..], cid);
      assert recency == [recency[0]] + recency[1..];
    }
  }

  ghost predicate Ascending(recency: seq<Channel>) {
    forall i, j :: 0 <= i < j < |recency| ==> recency[i].lastUsed < recency[j].lastUsed
  }

  lemma AscendingTail(recency: seq<Channel>)
    requires Ascending(recency) && recency != []
    ensures Ascending(recency[1..]) && forall c <- recency[1..] :: recency[0].lastUsed < c.lastUsed
  {
    forall c | c in recency[1..] ensures recency[0].lastUsed < c.lastUsed {
      var i :| 0 <= i < |recency| - 1 && recency[1..][i] == c;
    }
  }

  lemma AscendingCons(c: Channel, rest: seq<Channel>)
    requires Ascending(rest) && forall x <- rest :: c.lastUsed < x.lastUsed
    ensures Ascending([c] + rest)
  {
  }

  lemma {:induction false} OthersThanOrder(recency: seq<Channel>, cid: U32)
    requires Ascending(recency)
    ensures Ascending(OthersThan(recency, cid))
    ensures forall c :: c in OthersThan(recency, cid) <==> c in recency && c.cid != cid
  {
    hide Ascending;
    OthersThanMembers(recency, cid);
    if recency != [] {
      var rest := OthersThan(recency[1..], cid);
      AscendingTail(recency);
      OthersThanOrder(recency[1..], cid);
      AscendingCons(recency[0], rest);
      assert [] + rest == rest;
    } else {
      assert Ascending(recency);
    }
  }

  lemma TouchMembers(channels: seq<Channel>, cid: U32, now: nat)
    requires ChannelsValid(channels) && Allocated(channels, cid)
    ensures forall c :: c in Touch(channels, cid, now) <==> c == Channel(cid, now) || (c in channels && c.cid != cid)
  {
    var after := Touch(channels, cid, now);
    TouchAt(channels, cid, now);
    forall c | c == Channel(cid, now) || (c in channels && c.cid != cid) ensures c in after {
      var i :| 0 <= i < |channels| && (if c == Channel(cid, now) then channels[i].cid == cid else channels[i] == c);
      assert after[i] == c;
    }
  }

  /** Using a channel moves it to the end of the recency list. */
  lemma TouchRecency(recency: seq<Channel>, channels: seq<Channel>, cid: U32, now: nat)
    requires ChannelsValid(channels) && IsRecency(recency, channels, now) && Allocated(channels, cid)
    ensures IsRecency(OthersThan(recency, cid) + [Channel(cid, now)], Touch(channels, cid, now), now + 1)
  {
    hide Touch, OthersThan;
    TouchMembers(channels, cid, now);
    OthersThanOrder(recency, cid);
  }

  /** At four channels, allocation drops the first of the recency list. */
  lemma ReapRecency(recency: seq<Channel>, channels: seq<Channel>, now: nat)
    requires ChannelsValid(channels) && |channels| == MAX_CHANNELS && IsRecency(recency, channels, now)
    ensures recency != [] && channels[LruIndex(channels)] == recency[0]
    ensures IsRecency(recency[1..], Reap(channels), now)
  {
    hide Reap, ChannelsValid;
    OldestFirst(recency, channels, now);
    ReapMembers(channels);
    forall c ensures c in recency[1..] <==> c in recency && c != recency[0] {
      if c in recency && c != recency[0] {
        var j :| 0 <= j < |recency| && recency[j] == c;
        assert recency[1..][j - 1] == c;
      }
    }
  }

  /** A new channel goes to the end of the recency list. */
  lemma OpenRecency(recency: seq<Channel>, channels: seq<Channel>, cid: U32, now: nat)
    requires IsRecency(recency, channels, now)
    ensures IsRecency(recency + [Channel(cid, now)], channels + [Channel(cid, now)], now + 1)
  {
  }

  lemma OldestFirst(recency: seq<Channel>, channels: seq<Channel>, now: nat)
    requires channels != [] && IsRecency(recency, channels, now)
    ensures recency != [] && channels[LruIndex(channels)] == recency[0]
  {
    hide LruIndex;
    var i := LruIndex(channels);
    assert channels[i] in channels;
    assert channels[i] in recency;
    var k :| 0 <= k < |recency| && recency[k] == channels[i];
    assert recency[0] in recency;
    var l :| 0 <= l < |channels| && channels[l] == recency[0];
    assert channels[i].lastUsed <= channels[l].lastUsed;
  }

  lemma ReapMembers(channels: seq<Channel>)
    requires ChannelsValid(channels) && |channels| == MAX_CHANNELS
    ensures forall c :: c in Reap(channels) <==> c in channels && c != channels[LruIndex(channels)]
  {
    var i := LruIndex(channels);
    forall c | c in channels && c != channels[i] ensures c in Reap(channels) {
      var j :| 0 <= j < |channels| && channels[j] == c;
      assert Reap(channels)[if j < i then j else j - 1] == c;
    }
  }

  // ---------------------------------------------------------------- allocation ends

  /** The fallback counter after k failed draws. */
  function FallbackAfter(fallback: U32, k: nat): U32 { (fallback + k * FALLBACK_STEP) % TWO32 }

  /** n draws that all fail. */
  function Failing(n: nat): (draws: seq<Option<U32>>)
    ensures |draws| == n && forall i :: 0 <= i < n ==> draws[i] == None
  {
    seq(n, i => None)
  }

  ghost predicate Taken(channels: seq<Channel>, cid: U32) {
    cid == 0 || cid == BROADCAST_CID || Allocated(channels, cid)
  }

  lemma FallbackNext(fallback: U32, k: nat)
    ensures (FallbackAfter(fallback, k) + FALLBACK_STEP) % TWO32 == FallbackAfter(fallback, k + 1)
  {
    var x := fallback + k * FALLBACK_STEP;
    ModThenAdd(x, FALLBACK_STEP);
    assert fallback + (k + 1) * FALLBACK_STEP == x + FALLBACK_STEP;
  }

  lemma ModThenAdd(x: nat, y: nat)
    ensures (x % TWO32 + y) % TWO32 == (x + y) % TWO32
  {
    assert x + y == x / TWO32 * TWO32 + (x % TWO32 + y);
  }

  lemma {:induction false} FailedDraws(channels: seq<Channel>, fallback: U32, n: nat, k: nat)
    requires k <= n && Draw(channels, FallbackAfter(fallback, k), Failing(n - k)) == None
    ensures forall j :: k < j <= n ==> Taken(channels, FallbackAfter(fallback, j))
    decreases n - k
  {
    hide FallbackAfter;
    if k < n {
      assert Failing(n - k)[1..] == Failing(n - k - 1);
      FallbackNext(fallback, k);
      FailedDraws(channels, fallback, n, k + 1);
    }
  }

  lemma FallbacksDiffer(fallback: U32, i: nat, j: nat)
    requires 1 <= i < j <= 6
    ensures FallbackAfter(fallback, i) != FallbackAfter(fallback, j)
  {
    var k := j - i;
    assert k * FALLBACK_STEP % TWO32 != 0;
    var x := fallback + i * FALLBACK_STEP;
    assert fallback + j * FALLBACK_STEP == x + k * FALLBACK_STEP;
  }

  ghost function TakenIds(channels: seq<Channel>): (r: set<U32>)
    ensures |r| <= |channels| + 2
    ensures forall cid: U32 :: Taken(channels, cid) ==> cid in r
  {
    if channels == [] then {0, BROADCAST_CID}
    else
      assert channels == [channels[0]] + channels[1..];
      {channels[0].cid} + TakenIds(channels[1..])
  }

  /** With the RNG failing at every draw, the loop ends within six draws: the six fallback values differ, and at
      most five values can be taken. */
  lemma AllocationEnds(channels: seq<Channel>, fallback: U32)
    requires |channels| < MAX_CHANNELS
    ensures Draw(channels, fallback, Failing(6)).Some?
  {
    hide FallbackAfter, Draw, Taken, Failing, TakenIds;
    FallbackStart(fallback);
    if Draw(channels, fallback, Failing(6)) == None {
      FailedDraws(channels, fallback, 6, 0);
      var six := set k: nat | 1 <= k <= 6 :: FallbackAfter(fallback, k);
      SixFallbacks(fallback);
      assert six <= TakenIds(channels);
      SubsetSize(six, TakenIds(channels));
      assert false;
    }
  }

  lemma FallbackStart(fallback: U32)
    ensures FallbackAfter(fallback, 0) == fallback
  {
  }

  lemma SixFallbacks(fallback: U32)
    ensures |set k: nat | 1 <= k <= 6 :: FallbackAfter(fallback, k)| == 6
  {
    hide FallbackAfter;
    forall i: nat, j: nat | 1 <= i < j <= 6 ensures FallbackAfter(fallback, i) != FallbackAfter(fallback, j) {
      FallbacksDiffer(fallback, i, j);
    }
    var f := (k: nat) => FallbackAfter(fallback, k);
    assert (set k: nat | 1 <= k <= 6 :: FallbackAfter(fallback, k)) == {f(1), f(2), f(3), f(4), f(5), f(6)};
  }

  lemma {:induction false} SubsetSize(a: set<U32>, b: set<U32>)
    requires a <= b
    ensures |a| <= |b|
  {
    if a != {} {
      var x :| x in a;
      SubsetSize(a - {x}, b - {x});
    }
  }

  /** A broadcast INIT is answered, even in the middle of another channel's message, with the sender's nonce and a
      channel id that is allocated from then on and was not among those kept. */
  lemma InitAnswersNonce(dev: Device, r: Report, inflight: Option<U32>, now: nat, draws: seq<Option<U32>>)
    requires DeviceValid(dev) && IsBroadcastInit(r) && Bcnt(r) == 8
    requires Draw(Reap(dev.channels), dev.fallback, draws).Some?
    ensures var (dev', out) := DeviceIngest(dev, r, inflight, now, draws);
            && |out.reply| == 1 && out.toWorker.None? && !out.cancel && dev'.assembly == dev.assembly
            && var m := out.reply[0];
            && m.cid == BROADCAST_CID && m.cmd == CMD_INIT && |m.payload| == 17 && m.payload[..8] == r[7..15]
            && var cid := FromLittleEndian32(m.payload[8..12]);
            && Allocated(dev'.channels, cid) && !Allocated(Reap(dev.channels), cid)
            && (forall c <- Reap(dev.channels) :: c in dev'.channels)
  {
    hide Cid, Draw, Reap, LittleEndian32, FromLittleEndian32;
    DrawnIsUsable(Reap(dev.channels), dev.fallback, draws);
    var cid := Draw(Reap(dev.channels), dev.fallback, draws).value.0;
    LittleEndianRoundTrip(cid);
    var payload := r[7..15] + LittleEndian32(cid) + [HID_VERSION, 0, 1, 0, dev.caps];
    assert payload[..8] == r[7..15] && payload[8..12] == LittleEndian32(cid);
    assert (Reap(dev.channels) + [Channel(cid, now)])[|Reap(dev.channels)|].cid == cid;
  }

  // ---------------------------------------------------------------- what the worker and the token get

  /** A message goes to the worker only when it is idle, and a cancellation is asked for only by a whole CANCEL
      or INIT message on the very channel the worker is busy for. */
  lemma DispatchAndCancel(dev: Device, r: Report, inflight: Option<U32>, now: nat, draws: seq<Option<U32>>)
    requires DeviceValid(dev)
    ensures var out := DeviceIngest(dev, r, inflight, now, draws).1;
            && (out.toWorker.Some? ==>
                  inflight.None? && out.reply == [] && out.toWorker.value.cid == Cid(r) && Cid(r) != 0
                  && Cid(r) != BROADCAST_CID && out.toWorker.value.cmd < 128 && !out.cancel
                  && (out.toWorker.value.cmd == CMD_CBOR || out.toWorker.value.cmd == CMD_MSG))
            && (out.cancel ==>
                  inflight == Some(Cid(r)) && Ingest(dev.assembly, r).1.Complete?
                  && (Ingest(dev.assembly, r).1.msg.cmd == CMD_CANCEL || Ingest(dev.assembly, r).1.msg.cmd == CMD_INIT))
  {
    hide Ingest, Cid, ErrorReply, InitReply, Draw, Touch, IsBroadcastInit, AssemblyValid, Reap;
    IngestKeepsValid(dev.assembly, r);
    CompleteCid(dev.assembly, r);
  }

  lemma CompleteCid(a: Option<Assembly>, r: Report)
    ensures Ingest(a, r).1.Complete? ==> Cid(r) != 0
  {
  }

  /** Whatever the device answers is a sendable message that a host can reassemble. */
  lemma RepliesSendable(dev: Device, r: Report, inflight: Option<U32>, now: nat, draws: seq<Option<U32>>)
    requires DeviceValid(dev)
    ensures forall m <- DeviceIngest(dev, r, inflight, now, draws).1.reply ::
              m.cmd < 128 && |m.payload| <= MAX_REASSEMBLED
  {
    hide Ingest, Cid, Draw, Touch, AssemblyValid, Reap;
    IngestKeepsValid(dev.assembly, r);
  }
}
