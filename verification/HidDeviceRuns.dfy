/** Runs of the CTAPHID device: reports and timeout polls under a clock. The channel dropped at four is always the
    one least recently used, and a partial message is freed 500 ms after its owner's last accepted packet, whatever
    other channels send. */
module HidDeviceRuns {
  import opened Bytes
  import opened HidFramer
  import opened HidDevice

  datatype Moment =
    | Arrives(report: Report, inflight: Option<U32>, time: nat, draws: seq<Option<U32>>)
    | Polled(time: nat)

  function After(dev: Device, x: Moment): Device {
    match x
    case Arrives(report, inflight, now, draws) => DeviceIngest(dev, report, inflight, now, draws).0
    case Polled(now) => PollTimeout(dev, now).0
  }

  /** The device after the first i moments. */
  function At(dev: Device, xs: seq<Moment>, i: nat): Device
    requires i <= |xs|
  {
    if i == 0 then dev else After(At(dev, xs, i - 1), xs[i - 1])
  }

  /** Time moves on from one moment to the next. */
  ghost predicate Clocked(from: nat, xs: seq<Moment>) {
    && (forall i :: 0 <= i < |xs| ==> from <= xs[i].time)
    && (forall i, j :: 0 <= i < j < |xs| ==> xs[i].time < xs[j].time)
  }

  lemma AfterKeepsValid(dev: Device, x: Moment)
    requires DeviceValid(dev)
    ensures DeviceValid(After(dev, x))
  {
    hide DeviceIngest, DeviceValid, PollTimeout;
    match x
    case Arrives(report, inflight, now, draws) => DeviceIngestKeepsValid(dev, report, inflight, now, draws);
    case Polled(now) => PollTimeoutKeepsValid(dev, now);
  }

  lemma {:induction false} AtKeepsValid(dev: Device, xs: seq<Moment>, i: nat)
    requires DeviceValid(dev) && i <= |xs|
    ensures DeviceValid(At(dev, xs, i))
  {
    hide After, DeviceValid;
    if i > 0 {
      AtKeepsValid(dev, xs, i - 1);
      AfterKeepsValid(At(dev, xs, i - 1), xs[i - 1]);
    }
  }

  // ---------------------------------------------------------------- which channel a report uses

  /** The channel whose whole message this report completes, when it is answered or handed on. */
  function Touched(dev: Device, r: Report): Option<U32> {
    if IsBroadcastInit(r) then None
    else
      match Ingest(dev.assembly, r).1
      case Complete(msg) =>
        if Allocated(dev.channels, Cid(r)) && (msg.cmd == CMD_INIT ==> |msg.payload| == 8) then Some(Cid(r)) else None
      case _ => None
  }

  predicate Opens(r: Report) { IsBroadcastInit(r) && Bcnt(r) == 8 }

  /** The channel a broadcast INIT opens. */
  function Opened(dev: Device, draws: seq<Option<U32>>): Option<U32> {
    match Draw(Reap(dev.channels), dev.fallback, draws) case None => None case Some(drawn) => Some(drawn.0)
  }

  function Used(dev: Device, x: Moment): Option<U32> {
    if x.Polled? then None else if Opens(x.report) then Opened(dev, x.draws) else Touched(dev, x.report)
  }

  lemma IngestChannels(dev: Device, r: Report, inflight: Option<U32>, now: nat, draws: seq<Option<U32>>)
    requires DeviceValid(dev)
    ensures DeviceIngest(dev, r, inflight, now, draws).0.channels
         == if Opens(r) then Reap(dev.channels)
             + (match Opened(dev, draws) case Some(cid) => [Channel(cid, now)] case None => [])
            else match Touched(dev, r) case Some(cid) => Touch(dev.channels, cid, now) case None => dev.channels
  {
    hide Ingest, Cid, Bcnt, ErrorReply, InitReply, Draw, Touch, Reap, AssemblyValid;
    NeverBroadcast(dev);
  }

  lemma NeverBroadcast(dev: Device)
    requires DeviceValid(dev)
    ensures !Allocated(dev.channels, BROADCAST_CID)
  {
  }

  // ---------------------------------------------------------------- recency, step by step

  /** The recency list after a report: a used channel moves to the end, the oldest of four goes when one is opened,
      a new one comes last. */
  ghost function NextRecency(recency: seq<Channel>, dev: Device, r: Report, now: nat,
                             draws: seq<Option<U32>>): seq<Channel> {
    if Opens(r) then
      (if |dev.channels| < MAX_CHANNELS || recency == [] then recency else recency[1..])
      + (match Opened(dev, draws) case Some(cid) => [Channel(cid, now)] case None => [])
    else
      match Touched(dev, r)
      case Some(cid) => OthersThan(recency, cid) + [Channel(cid, now)]
      case None => recency
  }

  lemma LaterRecency(recency: seq<Channel>, channels: seq<Channel>, now: nat, later: nat)
    requires IsRecency(recency, channels, now) && now <= later
    ensures IsRecency(recency, channels, later)
  {
  }

  lemma KeptRecency(recency: seq<Channel>, dev: Device, now: nat)
    requires DeviceValid(dev) && IsRecency(recency, dev.channels, now)
    ensures IsRecency(if |dev.channels| < MAX_CHANNELS || recency == [] then recency else recency[1..],
                      Reap(dev.channels), now)
  {
    hide IsRecency, ChannelsValid, AssemblyValid, LruIndex;
    if |dev.channels| == MAX_CHANNELS {
      ReapRecency(recency, dev.channels, now);
    }
  }

  /** One report takes a recency list of the channels before it to one of the channels after it. */
  lemma IngestRecency(recency: seq<Channel>, dev: Device, r: Report, inflight: Option<U32>, now: nat,
                      draws: seq<Option<U32>>)
    requires DeviceValid(dev) && IsRecency(recency, dev.channels, now)
    ensures IsRecency(NextRecency(recency, dev, r, now, draws), DeviceIngest(dev, r, inflight, now, draws).0.channels,
                      now + 1)
  {
    hide DeviceIngest, IsRecency, Opens, Opened, OthersThan, Touch, Reap, Ingest, Cid, AssemblyValid, ChannelsValid;
    IngestChannels(dev, r, inflight, now, draws);
    if Opens(r) {
      KeptRecency(recency, dev, now);
      var kept := if |dev.channels| < MAX_CHANNELS || recency == [] then recency else recency[1..];
      match Opened(dev, draws) {
        case Some(cid) => OpenRecency(kept, Reap(dev.channels), cid, now);
        case None =>
          LaterRecency(kept, Reap(dev.channels), now, now + 1);
          assert kept + [] == kept && Reap(dev.channels) + [] == Reap(dev.channels);
      }
    } else {
      match Touched(dev, r) {
        case Some(cid) => TouchRecency(recency, dev.channels, cid, now);
        case None => LaterRecency(recency, dev.channels, now, now + 1);
      }
    }
  }

  ghost function RecencyAt(recency: seq<Channel>, dev: Device, xs: seq<Moment>, i: nat): seq<Channel>
    requires i <= |xs|
  {
    if i == 0 then recency
    else
      var before := RecencyAt(recency, dev, xs, i - 1);
      match xs[i - 1]
      case Arrives(r, _, now, draws) => NextRecency(before, At(dev, xs, i - 1), r, now, draws)
      case Polled(_) => before
  }

  /** The time by which the first i moments are over. */
  function Until(from: nat, xs: seq<Moment>, i: nat): nat
    requires i <= |xs|
  {
    if i == 0 then from else xs[i - 1].time + 1
  }

  /** Over any run under an increasing clock the list stays the recency order of the channels. */
  lemma {:induction false} RunRecency(recency: seq<Channel>, dev: Device, from: nat, xs: seq<Moment>, i: nat)
    requires DeviceValid(dev) && IsRecency(recency, dev.channels, from) && Clocked(from, xs) && i <= |xs|
    ensures IsRecency(RecencyAt(recency, dev, xs, i), At(dev, xs, i).channels, Until(from, xs, i))
  {
    hide IsRecency, DeviceIngest, DeviceValid, NextRecency;
    if i > 0 {
      RunRecency(recency, dev, from, xs, i - 1);
      AtKeepsValid(dev, xs, i - 1);
      var before, d, x := RecencyAt(recency, dev, xs, i - 1), At(dev, xs, i - 1), xs[i - 1];
      LaterRecency(before, d.channels, Until(from, xs, i - 1), x.time);
      match x {
        case Arrives(r, inflight, now, draws) => IngestRecency(before, d, r, inflight, now, draws);
        case Polled(now) => LaterRecency(before, d.channels, now, now + 1);
      }
    }
  }

  // ---------------------------------------------------------------- the channel dropped

  /** Moment j was the last one before i that used the channel. */
  ghost predicate LastUsedAt(dev: Device, xs: seq<Moment>, i: nat, cid: U32, j: nat)
    requires i <= |xs|
  {
    && j < i && Used(At(dev, xs, j), xs[j]) == Some(cid)
    && forall k :: j < k < i ==> Used(At(dev, xs, k), xs[k]) != Some(cid)
  }

  lemma AfterChannels(dev: Device, x: Moment)
    requires DeviceValid(dev)
    ensures forall c <- After(dev, x).channels ::
              if Used(dev, x) == Some(c.cid) then c.lastUsed == x.time else c in dev.channels
  {
    hide DeviceIngest, Opens, Opened, Touched, Touch, AssemblyValid, ChannelsValid;
    if x.Arrives? {
      IngestChannels(dev, x.report, x.inflight, x.time, x.draws);
      OpenedIsNew(dev, x.draws);
      if !Opens(x.report) && Touched(dev, x.report).Some? {
        var cid := Touched(dev, x.report).value;
        TouchedAllocated(dev, x.report);
        TouchMembers(dev.channels, cid, x.time);
      }
    }
  }

  lemma OpenedIsNew(dev: Device, draws: seq<Option<U32>>)
    ensures Opened(dev, draws).Some? ==> !Allocated(Reap(dev.channels), Opened(dev, draws).value)
    ensures forall c <- Reap(dev.channels) :: c in dev.channels
  {
    hide Draw;
    DrawnIsUsable(Reap(dev.channels), dev.fallback, draws);
  }

  lemma TouchedAllocated(dev: Device, r: Report)
    ensures Touched(dev, r).Some? ==> Allocated(dev.channels, Touched(dev, r).value)
  {
    hide Ingest, Cid;
  }

  /** In a run that began without channels, every channel's stamp is the time of its last use. */
  lemma {:induction false} StampsTrue(dev: Device, xs: seq<Moment>, i: nat)
    requires DeviceValid(dev) && dev.channels == [] && i <= |xs|
    ensures forall c <- At(dev, xs, i).channels ::
              exists j: nat :: LastUsedAt(dev, xs, i, c.cid, j) && xs[j].time == c.lastUsed
  {
    hide After, Used, DeviceValid;
    if i > 0 {
      StampsTrue(dev, xs, i - 1);
      AtKeepsValid(dev, xs, i - 1);
      AfterChannels(At(dev, xs, i - 1), xs[i - 1]);
      forall c | c in At(dev, xs, i).channels
        ensures exists j: nat :: LastUsedAt(dev, xs, i, c.cid, j) && xs[j].time == c.lastUsed
      {
        if Used(At(dev, xs, i - 1), xs[i - 1]) == Some(c.cid) {
          assert LastUsedAt(dev, xs, i, c.cid, i - 1);
        } else {
          var j: nat :| LastUsedAt(dev, xs, i - 1, c.cid, j) && xs[j].time == c.lastUsed;
          assert LastUsedAt(dev, xs, i, c.cid, j);
        }
      }
    }
  }

  lemma DroppedIsOldest(dev: Device, x: Moment, c: Channel)
    requires DeviceValid(dev) && c in dev.channels && !Allocated(After(dev, x).channels, c.cid)
    ensures x.Arrives? && Opens(x.report) && |dev.channels| == MAX_CHANNELS && c == dev.channels[LruIndex(dev.channels)]
  {
    hide DeviceIngest, Opens, Opened, Touched, Touch, AssemblyValid, LruIndex;
    assert x.Arrives?;
    IngestChannels(dev, x.report, x.inflight, x.time, x.draws);
    if Opens(x.report) {
      if |dev.channels| == MAX_CHANNELS {
        ReapMembers(dev.channels);
      }
    } else if Touched(dev, x.report).Some? {
      TouchKeepsValid(dev.channels, Touched(dev, x.report).value, x.time);
    }
  }

  /** In any run that began without channels, under an increasing clock, a channel that disappears does so because a
      fifth one is opened, and every other channel was used after its last use. */
  lemma LeastRecentlyUsedDropped(dev: Device, from: nat, xs: seq<Moment>, i: nat, c: Channel, other: Channel)
    requires DeviceValid(dev) && dev.channels == [] && Clocked(from, xs) && i < |xs|
    requires c in At(dev, xs, i).channels && !Allocated(At(dev, xs, i + 1).channels, c.cid)
    requires other in At(dev, xs, i).channels && other.cid != c.cid
    ensures xs[i].Arrives? && Opens(xs[i].report) && |At(dev, xs, i).channels| == MAX_CHANNELS
    ensures exists j: nat, k: nat :: j < k && LastUsedAt(dev, xs, i, c.cid, j) && LastUsedAt(dev, xs, i, other.cid, k)
  {
    hide After, Used, DeviceValid, Opens, LruIndex;
    var d := At(dev, xs, i);
    AtKeepsValid(dev, xs, i);
    StampsTrue(dev, xs, i);
    DroppedIsOldest(d, xs[i], c);
    assert c.lastUsed <= other.lastUsed;
    var j: nat :| LastUsedAt(dev, xs, i, c.cid, j) && xs[j].time == c.lastUsed;
    var k: nat :| LastUsedAt(dev, xs, i, other.cid, k) && xs[k].time == other.lastUsed;
    assert j != k && !(k < j);
  }

  // ---------------------------------------------------------------- the timer

  /** Other channels' reports, and polls before the timeout is due. */
  ghost predicate Meanwhile(x: Moment, owner: U32, due: nat) {
    if x.Arrives? then Cid(x.report) != owner else x.time < due
  }

  lemma {:induction false} MeanwhileKeepsTimer(dev: Device, xs: seq<Moment>, i: nat)
    requires DeviceValid(dev) && dev.assembly.Some? && i <= |xs|
    requires forall x <- xs :: Meanwhile(x, dev.assembly.value.cid, dev.since.value + INTER_PACKET_TIMEOUT)
    ensures At(dev, xs, i).assembly == dev.assembly && At(dev, xs, i).since == dev.since
  {
    hide DeviceIngest, Cid, AssemblyValid, ChannelsValid;
    if i > 0 {
      MeanwhileKeepsTimer(dev, xs, i - 1);
      AtKeepsValid(dev, xs, i - 1);
      var d, x := At(dev, xs, i - 1), xs[i - 1];
      assert x in xs;
      assert Meanwhile(x, dev.assembly.value.cid, dev.since.value + INTER_PACKET_TIMEOUT);
      if x.Arrives? {
        OthersKeepTimer(d, x.report, x.inflight, x.time, x.draws);
      }
    }
  }

  /** After an accepted packet that leaves a message partial, whatever other channels send and however often the
      device is polled meanwhile, a poll frees the message and tells its owner if and only if 500 ms have passed. */
  lemma OwnerTimesOut(dev: Device, r: Report, inflight: Option<U32>, accepted: nat, draws: seq<Option<U32>>,
                      xs: seq<Moment>, now: nat)
    requires DeviceValid(dev) && !IsBroadcastInit(r) && Ingest(dev.assembly, r).1 == Partial
    requires forall x <- xs :: Meanwhile(x, Cid(r), accepted + INTER_PACKET_TIMEOUT)
    ensures var last := At(DeviceIngest(dev, r, inflight, accepted, draws).0, xs, |xs|);
            last.assembly.Some? && last.assembly.value.cid == Cid(r)
            && PollTimeout(last, now)
            == if now >= accepted + INTER_PACKET_TIMEOUT
               then (last.(assembly := None, since := None), Some(ErrorReply(Cid(r), MsgTimeout)))
               else (last, None)
  {
    hide Cid, Meanwhile, AssemblyValid, ChannelsValid, Ingest, Draw, Reap, InitReply, ErrorReply;
    var armed := DeviceIngest(dev, r, inflight, accepted, draws).0;
    DeviceIngestKeepsValid(dev, r, inflight, accepted, draws);
    PartialOwner(dev.assembly, r);
    MeanwhileKeepsTimer(armed, xs, |xs|);
    AtKeepsValid(armed, xs, |xs|);
    PollFrees(At(armed, xs, |xs|), now);
  }
}
