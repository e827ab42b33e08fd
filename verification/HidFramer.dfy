/** CTAPHID framing (src/ctap/hid_framer.cpp): 64-byte reports to messages and back. */
module HidFramer {
  import opened Bytes

  const REPORT_SIZE := 64
  const TYPE_INIT := 0x80
  const MAX_MESSAGE := 7609
  const INIT_PAYLOAD := 57
  const CONT_PAYLOAD := 59
  const BROADCAST_CID: U32 := 0xFFFF_FFFF
  /** What a reassembler accepts: the initialization packet and 127 continuation packets. */
  const MAX_REASSEMBLED := INIT_PAYLOAD + 127 * CONT_PAYLOAD

  type Report = r: seq<Byte> | |r| == REPORT_SIZE witness Zeros(64)

  datatype Message = Message(cid: U32, cmd: Byte, payload: seq<Byte>)

  datatype HidErr = InvalidCmd | InvalidLen | InvalidSeq | MsgTimeout | ChannelBusy | InvalidChannel {
    function Code(): Byte {
      match this
      case InvalidCmd => 1 case InvalidLen => 3 case InvalidSeq => 4
      case MsgTimeout => 5 case ChannelBusy => 6 case InvalidChannel => 11
    }
  }

  /** What one report does: nothing to hand out yet, a whole message, or an error. */
  datatype Outcome = Partial | Complete(msg: Message) | Refused(err: HidErr)

  datatype Assembly = Assembly(cid: U32, cmd: Byte, bcnt: nat, nextSeq: nat, buf: seq<Byte>)

  // ---------------------------------------------------------------- ingest

  function Cid(r: Report): U32 { FromLittleEndian32(r[..4]) }

  function Bcnt(r: Report): nat { (r[5] as int) * 256 + r[6] }

  function Ingest(a: Option<Assembly>, r: Report): (Option<Assembly>, Outcome) {
    var cid, b4 := Cid(r), r[4];
    if cid == 0 then (a, Refused(InvalidChannel))
    else if b4 >= TYPE_INIT then
      if a.Some? && a.value.cid != cid then (a, Refused(ChannelBusy))
      else if Bcnt(r) > MAX_MESSAGE then (None, Refused(InvalidLen))
      else
        var buf := r[7..7 + Min(Bcnt(r), INIT_PAYLOAD)];
        if |buf| >= Bcnt(r) then (None, Complete(Message(cid, b4 - TYPE_INIT, buf)))
        else (Some(Assembly(cid, b4 - TYPE_INIT, Bcnt(r), 0, buf)), Partial)
    else if a.None? || a.value.cid != cid then (a, Refused(InvalidSeq))
    else if b4 != a.value.nextSeq then (None, Refused(InvalidSeq))
    else Continue(a.value, r)
  }

  /** A continuation packet of the assembly's own channel, with the expected sequence number. */
  function Continue(a: Assembly, r: Report): (Option<Assembly>, Outcome) {
    var remaining := if a.bcnt >= |a.buf| then a.bcnt - |a.buf| else 0;
    var buf, seq' := a.buf + r[5..5 + Min(remaining, CONT_PAYLOAD)], a.nextSeq + 1;
    if seq' > 127 then (None, Refused(InvalidLen))
    else if |buf| >= a.bcnt then (None, Complete(Message(a.cid, a.cmd, buf)))
    else (Some(a.(nextSeq := seq', buf := buf)), Partial)
  }

  /** What every reachable assembly satisfies: the buffer's length is fixed by the sequence number, and the
      message is not yet complete. */
  ghost predicate AssemblyValid(a: Option<Assembly>) {
    a.Some? ==>
      && a.value.cid != 0 && a.value.cmd < 128
      && |a.value.buf| == INIT_PAYLOAD + CONT_PAYLOAD * a.value.nextSeq < a.value.bcnt <= MAX_MESSAGE
      && a.value.nextSeq <= 127
  }

  lemma IngestKeepsValid(a: Option<Assembly>, r: Report)
    requires AssemblyValid(a)
    ensures AssemblyValid(Ingest(a, r).0)
    ensures Ingest(a, r).1.Complete? ==>
              Ingest(a, r).1.msg.cid == Cid(r) && Ingest(a, r).1.msg.cmd < 128
              && |Ingest(a, r).1.msg.payload| <= MAX_REASSEMBLED
  {
  }

  // ---------------------------------------------------------------- frame

  function Pad(s: seq<Byte>): (r: Report)
    requires |s| <= REPORT_SIZE
  {
    s + Zeros(REPORT_SIZE - |s|)
  }

  function InitPacket(m: Message): Report {
    var n := |m.payload|;
    Pad(LittleEndian32(m.cid) + [if m.cmd >= TYPE_INIT then m.cmd else m.cmd + TYPE_INIT, n / 256 % 256, n % 256]
        + m.payload[..Min(n, INIT_PAYLOAD)])
  }

  /** Where continuation packet k's bytes start. */
  function Offset(k: nat): nat { INIT_PAYLOAD + CONT_PAYLOAD * k }

  function ContPacket(m: Message, k: nat): Report
    requires Offset(k) <= |m.payload|
  {
    Pad(LittleEndian32(m.cid) + [k % 256] + m.payload[Offset(k)..Min(|m.payload|, Offset(k + 1))])
  }

  function Continuations(m: Message, k: nat): (rs: seq<Report>)
    decreases |m.payload| - Offset(k)
  {
    if Offset(k) >= |m.payload| then [] else [ContPacket(m, k)] + Continuations(m, k + 1)
  }

  function Frame(m: Message): seq<Report> {
    if |m.payload| > MAX_MESSAGE then [] else [InitPacket(m)] + Continuations(m, 0)
  }

  // ---------------------------------------------------------------- a channel with noise on it

  function Feed(a: Option<Assembly>, rs: seq<Report>): (Option<Assembly>, seq<Outcome>)
    decreases |rs|
  {
    if rs == [] then (a, [])
    else
      var (b, o) := Ingest(a, rs[0]);
      var (c, os) := Feed(b, rs[1..]);
      (c, [o] + os)
  }

  /** The reports of one channel among rs. */
  function OnChannel(rs: seq<Report>, cid: U32): seq<Report> {
    if rs == [] then []
    else (if Cid(rs[0]) == cid then [rs[0]] else []) + OnChannel(rs[1..], cid)
  }

  lemma InitPacketFields(m: Message)
    requires m.cmd < 128 && |m.payload| <= MAX_MESSAGE
    ensures var r := InitPacket(m);
            Cid(r) == m.cid && r[4] == m.cmd + TYPE_INIT && Bcnt(r) == |m.payload|
            && r[7..7 + Min(|m.payload|, INIT_PAYLOAD)] == m.payload[..Min(|m.payload|, INIT_PAYLOAD)]
  {
    LittleEndianRoundTrip(m.cid);
    assert InitPacket(m)[..4] == LittleEndian32(m.cid);
  }

  lemma ContPacketFields(m: Message, k: nat)
    requires Offset(k) < |m.payload| <= MAX_MESSAGE
    ensures k <= 127
    ensures var r := ContPacket(m, k);
            Cid(r) == m.cid && r[4] == k
            && r[5..5 + Min(|m.payload| - Offset(k), CONT_PAYLOAD)]
                == m.payload[Offset(k)..Min(|m.payload|, Offset(k + 1))]
  {
    LittleEndianRoundTrip(m.cid);
    assert ContPacket(m, k)[..4] == LittleEndian32(m.cid);
  }

  /** The reassembler in the middle of m, with continuation packet k due. */
  ghost function Midway(m: Message, k: nat): Option<Assembly>
    requires Offset(k) < |m.payload|
  {
    Some(Assembly(m.cid, m.cmd, |m.payload|, k, m.payload[..Offset(k)]))
  }

  /** What the continuation packet k of m makes of it. */
  lemma ContinueMidway(m: Message, k: nat)
    requires m.cid != 0 && Offset(k) < |m.payload| <= MAX_MESSAGE
    ensures Ingest(Midway(m, k), ContPacket(m, k))
         == if k == 127 then (None, Refused(InvalidLen))
            else if Offset(k + 1) >= |m.payload| then (None, Complete(m))
            else (Midway(m, k + 1), Partial)
  {
    hide Cid, ContPacket;
    ContPacketFields(m, k);
    var end := Min(|m.payload|, Offset(k + 1));
    assert m.payload[..Offset(k)] + m.payload[Offset(k)..end] == m.payload[..end];
    if end == |m.payload| {
      assert m.payload[..end] == m.payload;
    }
  }

  /** Another channel's report never disturbs an assembly, whatever it is. */
  lemma NoiseRefused(a: Assembly, r: Report)
    requires Cid(r) != a.cid
    ensures Ingest(Some(a), r).0 == Some(a) && Ingest(Some(a), r).1.Refused?
  {
  }

  /** What a reassembler makes of reports rs that end with the last packet of m: m's own reports are partial
      up to the last one, everything else is refused. */
  ghost predicate Delivers(m: Message, rs: seq<Report>, result: (Option<Assembly>, seq<Outcome>)) {
    && |result.1| == |rs| > 0
    && result.0 == None
    && (forall i :: 0 <= i < |rs| - 1 ==>
          if Cid(rs[i]) == m.cid then result.1[i] == Partial else result.1[i].Refused?)
    && result.1[|rs| - 1] == if |m.payload| <= MAX_REASSEMBLED then Complete(m) else Refused(InvalidLen)
  }

  lemma {:induction false} ContinuationsDelivered(m: Message, k: nat, rs: seq<Report>)
    requires m.cid != 0 && Offset(k) < |m.payload| <= MAX_MESSAGE
    requires OnChannel(rs, m.cid) == Continuations(m, k)
    requires rs != [] && Cid(rs[|rs| - 1]) == m.cid
    ensures Delivers(m, rs, Feed(Midway(m, k), rs))
    decreases |rs|
  {
    hide Cid, ContPacket, Ingest;
    var rest := rs[1..];
    if Cid(rs[0]) != m.cid {
      NoiseRefused(Midway(m, k).value, rs[0]);
      assert rest[|rest| - 1] == rs[|rs| - 1];
      ContinuationsDelivered(m, k, rest);
    } else {
      assert OnChannel(rs, m.cid) == [rs[0]] + OnChannel(rest, m.cid);
      assert rs[0] == Continuations(m, k)[0] == ContPacket(m, k);
      assert OnChannel(rest, m.cid) == Continuations(m, k)[1..] == Continuations(m, k + 1);
      ContinueMidway(m, k);
      ContPacketFields(m, k);
      if Offset(k + 1) >= |m.payload| {
        NothingAfterLast(rest, m.cid);
        assert Feed(Ingest(Midway(m, k), rs[0]).0, []).1 == [];
      } else {
        assert rest != [];
        assert rest[|rest| - 1] == rs[|rs| - 1];
        ContinuationsDelivered(m, k + 1, rest);
      }
    }
  }

  lemma {:induction false} NothingAfterLast(rs: seq<Report>, cid: U32)
    requires OnChannel(rs, cid) == []
    requires rs != [] ==> Cid(rs[|rs| - 1]) == cid
    ensures rs == []
  {
    if |rs| > 1 {
      assert rs[1..][|rs| - 2] == rs[|rs| - 1];
      NothingAfterLast(rs[1..], cid);
    }
  }

  lemma FirstPacket(m: Message)
    requires m.cid != 0 && m.cmd < 128 && |m.payload| <= MAX_MESSAGE
    ensures Ingest(None, InitPacket(m))
         == if |m.payload| <= INIT_PAYLOAD then (None, Complete(m)) else (Midway(m, 0), Partial)
  {
    hide Cid, Bcnt, InitPacket;
    InitPacketFields(m);
    if |m.payload| <= INIT_PAYLOAD {
      assert m.payload[..|m.payload|] == m.payload;
    }
  }

  lemma FirstReport(m: Message, rs: seq<Report>)
    requires |m.payload| <= MAX_MESSAGE && rs != [] && Cid(rs[0]) == m.cid && OnChannel(rs, m.cid) == Frame(m)
    ensures rs[0] == InitPacket(m) && OnChannel(rs[1..], m.cid) == Continuations(m, 0)
  {
    hide Cid, InitPacket, Continuations;
    assert OnChannel(rs, m.cid) == [rs[0]] + OnChannel(rs[1..], m.cid);
    assert rs[0] == OnChannel(rs, m.cid)[0] == Frame(m)[0];
    assert OnChannel(rs[1..], m.cid) == OnChannel(rs, m.cid)[1..] == Frame(m)[1..];
  }

  /** Feeding frame(m) to an idle reassembler, with any reports of other channels after the first one, hands
      out m exactly once, at its last report, and nothing for m before: if and only if the payload fits 127
      continuation packets. A payload of 7551 to 7609 bytes ends in InvalidLen instead. */
  lemma FrameRoundTrip(m: Message, rs: seq<Report>)
    requires m.cid != 0 && m.cmd < 128 && |m.payload| <= MAX_MESSAGE
    requires OnChannel(rs, m.cid) == Frame(m)
    requires rs != [] && Cid(rs[0]) == m.cid && Cid(rs[|rs| - 1]) == m.cid
    ensures Delivers(m, rs, Feed(None, rs))
    ensures Complete(m) in Feed(None, rs).1 <==> |m.payload| <= MAX_REASSEMBLED
  {
    hide Cid, InitPacket, Ingest, OnChannel, Midway, Frame, Delivers, Feed, Continuations;
    var rest := rs[1..];
    FirstReport(m, rs);
    FirstPacket(m);
    if rest != [] {
      assert rest[|rest| - 1] == rs[|rs| - 1];
    }
    if |m.payload| <= INIT_PAYLOAD {
      NoContinuations(m);
      NothingAfterLast(rest, m.cid);
      DeliversAlone(m, rs);
    } else {
      LaterReports(m, rest);
      ContinuationsDelivered(m, 0, rest);
      DeliversFirst(m, rs, Midway(m, 0));
    }
    DeliveredOnce(m, rs, Feed(None, rs));
  }

  lemma DeliveredOnce(m: Message, rs: seq<Report>, result: (Option<Assembly>, seq<Outcome>))
    requires Delivers(m, rs, result)
    ensures Complete(m) in result.1 <==> |m.payload| <= MAX_REASSEMBLED
    ensures forall i :: 0 <= i < |rs| && result.1[i].Complete? ==> i == |rs| - 1 && result.1[i].msg == m
  {
    assert result.1[|rs| - 1] in result.1;
  }

  lemma NoContinuations(m: Message)
    requires |m.payload| <= INIT_PAYLOAD
    ensures Continuations(m, 0) == []
  {
  }

  lemma DeliversAlone(m: Message, rs: seq<Report>)
    requires |rs| == 1 && |m.payload| <= INIT_PAYLOAD && Ingest(None, rs[0]) == (None, Complete(m))
    ensures Delivers(m, rs, Feed(None, rs))
  {
    hide Ingest;
    assert Feed(None, rs[1..]) == (None, []);
  }

  lemma DeliversFirst(m: Message, rs: seq<Report>, a: Option<Assembly>)
    requires rs != [] && Cid(rs[0]) == m.cid && Ingest(None, rs[0]) == (a, Partial)
    requires Delivers(m, rs[1..], Feed(a, rs[1..]))
    ensures Delivers(m, rs, Feed(None, rs))
  {
    hide Ingest, Cid;
  }

  lemma LaterReports(m: Message, rest: seq<Report>)
    requires Offset(0) < |m.payload| && OnChannel(rest, m.cid) == Continuations(m, 0)
    ensures rest != []
  {
    hide Cid, ContPacket;
  }

  // ---------------------------------------------------------------- a stream of messages

  function Framed(ms: seq<Message>): seq<Report> {
    if ms == [] then [] else Frame(ms[0]) + Framed(ms[1..])
  }

  lemma FramedOne(m: Message)
    ensures Framed([m]) == Frame(m)
  {
    assert [m][1..] == [];
    assert Frame(m) + [] == Frame(m);
  }

  /** The messages a host gets out of a stream of reports. */
  function Received(os: seq<Outcome>): seq<Message> {
    if os == [] then []
    else (if os[0].Complete? then [os[0].msg] else []) + Received(os[1..])
  }

  /** What of the sent messages can be received: not those on channel 0, nor those that need a 128th
      continuation packet or are not framed at all. */
  function Receivable(ms: seq<Message>): seq<Message> {
    if ms == [] then []
    else (if ms[0].cid != 0 && |ms[0].payload| <= MAX_REASSEMBLED then [ms[0]] else []) + Receivable(ms[1..])
  }

  lemma {:induction false} FeedConcat(a: Option<Assembly>, xs: seq<Report>, ys: seq<Report>)
    ensures var (b, os) := Feed(a, xs);
            Feed(a, xs + ys) == (Feed(b, ys).0, os + Feed(b, ys).1)
    decreases |xs|
  {
    hide Ingest;
    if xs == [] {
      assert xs + ys == ys;
      assert [] + Feed(a, ys).1 == Feed(a, ys).1;
    } else {
      assert (xs + ys)[1..] == xs[1..] + ys;
      FeedConcat(Ingest(a, xs[0]).0, xs[1..], ys);
      var b := Feed(Ingest(a, xs[0]).0, xs[1..]);
      assert [Ingest(a, xs[0]).1] + (b.1 + Feed(b.0, ys).1) == [Ingest(a, xs[0]).1] + b.1 + Feed(b.0, ys).1;
    }
  }

  lemma {:induction false} ReceivedConcat(xs: seq<Outcome>, ys: seq<Outcome>)
    ensures Received(xs + ys) == Received(xs) + Received(ys)
  {
    if xs == [] {
      assert xs + ys == ys;
      assert [] + Received(ys) == Received(ys);
    } else {
      var first := if xs[0].Complete? then [xs[0].msg] else [];
      assert (xs + ys)[0] == xs[0] && (xs + ys)[1..] == xs[1..] + ys;
      ReceivedConcat(xs[1..], ys);
      assert Received(xs + ys) == first + (Received(xs[1..]) + Received(ys));
    }
  }

  lemma {:induction false} OnlyOwnChannel(rs: seq<Report>, cid: U32)
    requires forall r <- rs :: Cid(r) == cid
    ensures OnChannel(rs, cid) == rs
  {
    if rs != [] { OnlyOwnChannel(rs[1..], cid); }
  }

  lemma {:induction false} ContinuationCids(m: Message, k: nat)
    requires |m.payload| <= MAX_MESSAGE
    ensures forall r <- Continuations(m, k) :: Cid(r) == m.cid
    decreases |m.payload| - Offset(k)
  {
    hide Cid, ContPacket;
    if Offset(k) < |m.payload| {
      ContPacketFields(m, k);
      ContinuationCids(m, k + 1);
    }
  }

  lemma FrameCids(m: Message)
    requires m.cmd < 128
    ensures forall r <- Frame(m) :: Cid(r) == m.cid
  {
    hide Cid, InitPacket, Continuations;
    if |m.payload| <= MAX_MESSAGE {
      InitPacketFields(m);
      ContinuationCids(m, 0);
    }
  }

  lemma {:induction false} ChannelZeroRefused(rs: seq<Report>)
    requires forall r <- rs :: Cid(r) == 0
    ensures Feed(None, rs).0 == None && Received(Feed(None, rs).1) == []
  {
    hide Cid;
    if rs != [] { ChannelZeroRefused(rs[1..]); }
  }

  lemma {:induction false} DeliversReceived(m: Message, rs: seq<Report>, os: seq<Outcome>)
    requires |os| == |rs| > 0
    requires forall i :: 0 <= i < |rs| - 1 ==> !os[i].Complete?
    ensures Received(os) == if os[|rs| - 1].Complete? then [os[|rs| - 1].msg] else []
  {
    if |os| > 1 {
      DeliversReceived(m, rs[1..], os[1..]);
    }
  }

  lemma OneMessageReceived(m: Message)
    requires m.cmd < 128
    ensures Feed(None, Frame(m)).0 == None && Received(Feed(None, Frame(m)).1) == Receivable([m])
  {
    hide Cid, InitPacket, Continuations, Feed, OnChannel;
    var rs := Frame(m);
    FrameCids(m);
    assert Receivable([m][1..]) == [];
    if |m.payload| > MAX_MESSAGE {
      FeedNothing();
    } else if m.cid == 0 {
      ChannelZeroRefused(rs);
    } else {
      OnlyOwnChannel(rs, m.cid);
      assert rs[0] in rs && rs[|rs| - 1] in rs;
      FrameRoundTrip(m, rs);
      DeliversReceived(m, rs, Feed(None, rs).1);
    }
  }

  lemma ReceivableFirst(ms: seq<Message>)
    requires ms != []
    ensures Receivable(ms) == Receivable([ms[0]]) + Receivable(ms[1..])
  {
    var first := if ms[0].cid != 0 && |ms[0].payload| <= MAX_REASSEMBLED then [ms[0]] else [];
    assert [ms[0]][1..] == [];
    assert Receivable([ms[0]]) == first + [] == first;
  }

  lemma FeedNothing()
    ensures Feed(None, []) == (None, []) && Received([]) == [] && Receivable([]) == []
  {
  }

  /** A host that reassembles the reports of a stream of messages gets exactly the receivable ones, in order. */
  lemma {:induction false} StreamReceived(ms: seq<Message>)
    requires forall m <- ms :: m.cmd < 128
    ensures Feed(None, Framed(ms)).0 == None && Received(Feed(None, Framed(ms)).1) == Receivable(ms)
  {
    hide Frame, Feed, Received, Receivable;
    if ms == [] {
      FeedNothing();
    } else {
      var rest := Framed(ms[1..]);
      OneMessageReceived(ms[0]);
      StreamReceived(ms[1..]);
      FeedConcat(None, Frame(ms[0]), rest);
      ReceivedConcat(Feed(None, Frame(ms[0])).1, Feed(None, rest).1);
      ReceivableFirst(ms);
    }
  }

  /** Partway through the stream the host has a prefix of them. */
  lemma PrefixReceived(ms: seq<Message>, sent: seq<Report>)
    requires forall m <- ms :: m.cmd < 128
    requires sent <= Framed(ms)
    ensures Received(Feed(None, sent).1) <= Receivable(ms)
  {
    hide Framed, Feed, Received, Receivable;
    var more := Framed(ms)[|sent|..];
    assert Framed(ms) == sent + more;
    StreamReceived(ms);
    FeedConcat(None, sent, more);
    ReceivedConcat(Feed(None, sent).1, Feed(Feed(None, sent).0, more).1);
  }
}
