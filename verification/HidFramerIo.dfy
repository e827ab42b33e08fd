/** The HidFramer object of include/swpasskey/ctap/hid_framer.hpp. */
module HidFramerIo {
  import opened Bytes
  import opened HidFramer

  class Framer {
    var assembly: Option<Assembly>

    ghost predicate Valid()
      reads this
    {
      AssemblyValid(assembly)
    }

    constructor ()
      ensures Valid() && assembly == None
    {
      assembly := None;
    }

    method ReadReport(report: Report) returns (o: Outcome)
      requires Valid()
      modifies this
      ensures Valid()
      ensures (assembly, o) == Ingest(old(assembly), report)
    {
      IngestKeepsValid(assembly, report);
      var cid := FromLittleEndian32(report[..4]);
      if cid == 0 {
        return Refused(InvalidChannel);
      }
      var b4 := report[4];
      if b4 >= TYPE_INIT {
        var cmd: Byte, bcnt := b4 - TYPE_INIT, Bcnt(report);
        if assembly.Some? && assembly.value.cid != cid {
          return Refused(ChannelBusy);
        }
        if bcnt > MAX_MESSAGE {
          assembly := None;
          return Refused(InvalidLen);
        }
        var buf := report[7..7 + Min(bcnt, INIT_PAYLOAD)];
        if |buf| >= bcnt {
          assembly := None;
          return Complete(Message(cid, cmd, buf));
        }
        assembly := Some(Assembly(cid, cmd, bcnt, 0, buf));
        return Partial;
      }
      if assembly.None? || assembly.value.cid != cid {
        return Refused(InvalidSeq);
      }
      if b4 != assembly.value.nextSeq {
        assembly := None;
        return Refused(InvalidSeq);
      }
      var remaining := assembly.value.bcnt - |assembly.value.buf|;
      var take := Min(remaining, CONT_PAYLOAD);
      assembly := Some(assembly.value.(buf := assembly.value.buf + report[5..5 + take]));
      assembly := Some(assembly.value.(nextSeq := assembly.value.nextSeq + 1));
      if assembly.value.nextSeq > 127 {
        assembly := None;
        return Refused(InvalidLen);
      }
      if |assembly.value.buf| >= assembly.value.bcnt {
        o := Complete(Message(assembly.value.cid, assembly.value.cmd, assembly.value.buf));
        assembly := None;
        return;
      }
      return Partial;
    }

    static method WriteCid(pkt: array<Byte>, cid: U32)
      requires pkt.Length == REPORT_SIZE
      modifies pkt
      ensures pkt[..] == LittleEndian32(cid) + old(pkt[4..])
    {
      pkt[0] := cid % 256;
      pkt[1] := cid / 256 % 256;
      pkt[2] := cid / 0x1_0000 % 256;
      pkt[3] := cid / 0x100_0000;
    }

    /** memcpy of bytes into the packet at a position. */
    static method Copy(pkt: array<Byte>, at: nat, bytes: seq<Byte>)
      requires at + |bytes| <= pkt.Length
      modifies pkt
      ensures pkt[..] == old(pkt[..at]) + bytes + old(pkt[at + |bytes|..])
    {
      forall i | 0 <= i < |bytes| {
        pkt[at + i] := bytes[i];
      }
    }

    /** Fills one packet after another, in the same 64-byte buffer. */
    method FrameMessage(msg: Message) returns (out: seq<Report>)
      ensures out == Frame(msg)
    {
      out := [];
      if |msg.payload| > MAX_MESSAGE {
        return;
      }
      var pkt := new Byte[REPORT_SIZE](i => 0);
      var first := Min(|msg.payload|, INIT_PAYLOAD);
      FillInit(pkt, msg, first);
      out := [pkt[..]];
      var off, sequence := first, 0;
      while off < |msg.payload|
        invariant fresh(pkt) && pkt.Length == REPORT_SIZE
        invariant off == Min(|msg.payload|, Offset(sequence))
        invariant out + Continuations(msg, sequence) == Frame(msg)
      {
        var n := Min(|msg.payload| - off, CONT_PAYLOAD);
        FillCont(pkt, msg, sequence, off, n);
        out := out + [pkt[..]];
        off := off + n;
        sequence := sequence + 1;
      }
      assert out + [] == out;
    }

    static method FillInit(pkt: array<Byte>, msg: Message, first: nat)
      requires pkt.Length == REPORT_SIZE && pkt[..] == Zeros(REPORT_SIZE)
      requires first == Min(|msg.payload|, INIT_PAYLOAD)
      modifies pkt
      ensures pkt[..] == InitPacket(msg)
    {
      WriteCid(pkt, msg.cid);
      assert pkt[..] == LittleEndian32(msg.cid) + Zeros(60);
      pkt[4] := if msg.cmd >= TYPE_INIT then msg.cmd else msg.cmd + TYPE_INIT;
      pkt[5] := |msg.payload| / 256 % 256;
      pkt[6] := |msg.payload| % 256;
      assert pkt[..] == LittleEndian32(msg.cid) + [pkt[4], pkt[5], pkt[6]] + Zeros(57);
      Copy(pkt, 7, msg.payload[..first]);
    }

    static method FillCont(pkt: array<Byte>, msg: Message, sequence: nat, off: nat, n: nat)
      requires pkt.Length == REPORT_SIZE && off == Offset(sequence) < |msg.payload|
      requires n == Min(|msg.payload| - off, CONT_PAYLOAD)
      modifies pkt
      ensures pkt[..] == ContPacket(msg, sequence)
    {
      forall i | 0 <= i < REPORT_SIZE {
        pkt[i] := 0;
      }
      WriteCid(pkt, msg.cid);
      assert pkt[..] == LittleEndian32(msg.cid) + Zeros(60);
      pkt[4] := sequence % 256;
      assert pkt[..] == LittleEndian32(msg.cid) + [pkt[4]] + Zeros(59);
      Copy(pkt, 5, msg.payload[off..off + n]);
      assert off + n == Min(|msg.payload|, Offset(sequence + 1));
    }

    method Cancel(cid: U32)
      requires Valid()
      modifies this
      ensures Valid()
      ensures assembly == if old(assembly).Some? && old(assembly).value.cid == cid then None else old(assembly)
    {
      if assembly.Some? && assembly.value.cid == cid {
        assembly := None;
      }
    }

    method OnTimeout() returns (err: Option<HidErr>)
      requires Valid()
      modifies this
      ensures Valid() && assembly == None
      ensures err == if old(assembly).None? then None else Some(MsgTimeout)
    {
      if assembly.None? {
        return None;
      }
      assembly := None;
      return Some(MsgTimeout);
    }
  }
}
