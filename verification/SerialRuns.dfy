/** Both ends of the serial line together. */
module SerialRuns {
  import opened Wire
  import opened Packets
  import opened Endpoints
  import opened Framing
  import opened SerialTransmit
  import SerialReceive
  import SerialReceiveRuns
  import InDevices

  /** What the firmware does: submit a packet, or let time pass. */
  datatype TxOp = Submit(packet: WirePacket) | Pass(delays: nat)

  function Submitted(ops: seq<TxOp>): seq<WirePacket> {
    if ops == [] then []
    else Submitted(ops[..|ops| - 1]) + if ops[|ops| - 1].Submit? then [ops[|ops| - 1].packet] else []
  }

  /** The frames of these packets, in order, with so many FS_SYNC bytes between frames only. */
  ghost predicate Carries(wire: seq<byte>, packets: seq<WirePacket>, syncs: nat) {
    exists items: seq<Item> :: wire == Encode(items) && PacketsOf(items) == packets && Syncs(items) == syncs
  }

  /** The delays that the firmware makes of its own. */
  function Passed(ops: seq<TxOp>): nat {
    if ops == [] then 0 else Passed(ops[..|ops| - 1]) + if ops[|ops| - 1].Pass? then ops[|ops| - 1].delays else 0
  }

  /**
   For every readiness of the UART and every arrival of FS_SYNC bytes: the bytes sent are the frames
   of the packets submitted, in order, and between frames only an FS_SYNC for each one that has come in.
   */
  method TransmitRun(uart: Uart, ops: seq<TxOp>) returns (wire: seq<byte>, delays: nat)
    requires forall k :: 0 <= k < |ops| && ops[k].Submit? ==> |ops[k].packet.payload| <= 255
    ensures Carries(wire, Submitted(ops), SyncsIn(uart, delays)) && delays >= Passed(ops)
  {
    hide Encode, PacketsOf, Syncs, SyncsIn;
    var t := new Transmitter(uart);
    assert PacketsOf(t.items) == [] by { NoPackets(); }
    for k := 0 to |ops|
      invariant fresh(t) && fresh(t.slots) && fresh(t.Objects()) && t.Valid()
      invariant PacketsOf(t.items) == Submitted(ops[..k]) && t.Answered() && t.delays >= Passed(ops[..k])
      invariant t.uart == uart
    {
      assert ops[..k + 1][..k] == ops[..k];
      match ops[k] {
        case Submit(packet) =>
          var p := Fill(packet);
          t.Submit(p);
        case Pass(delays) =>
          for d := 0 to delays
            invariant fresh(t) && fresh(t.slots) && fresh(t.Objects()) && t.Valid()
            invariant PacketsOf(t.items) == Submitted(ops[..k]) && t.Answered() && t.delays >= Passed(ops[..k]) + d
          {
            t.Delay();
          }
      }
    }
    assert ops[..|ops|] == ops;
    t.Flush();
    wire, delays := t.wire, t.delays;
  }

  lemma {:induction false} NoPackets()
    ensures PacketsOf([]) == []
  {
  }

  /** A packet with the given type, channel and content, ready to be sent. */
  method Fill(packet: WirePacket) returns (p: Packet)
    requires |packet.payload| <= 255
    ensures fresh(p) && fresh(p.buffer) && p.Valid() && p.rp == 0
    ensures WirePacket(p.ptype, p.chan, p.Content()) == packet
  {
    p := new Packet(|packet.payload|);
    for i := 0 to |packet.payload|
      invariant p.Valid() && p.rp == 0 && p.wp == i && p.Content() == packet.payload[..i]
    {
      p.WriteChar(packet.payload[i]);
    }
    p.SetFilled(packet.chan, packet.ptype, p.wp);
  }

  lemma {:induction false} FromSubmitted(ops: seq<TxOp>, items: seq<Item>, i: Item)
    requires PacketsOf(items) == Submitted(ops) && i in items && i.Packet?
    ensures i.packet in Submitted(ops)
  {
    InPackets(items, i);
  }

  lemma {:induction false} InPackets(items: seq<Item>, i: Item)
    requires i in items && i.Packet?
    ensures i.packet in PacketsOf(items)
    decreases |items|
  {
    if i != items[|items| - 1] {
      InPackets(items[..|items| - 1], i);
    }
  }

  /**
   The way from the firmware to the server: whatever the timing of the UART and of the peer, and
   however the server's reads cut the stream, it dispatches exactly the frames of the packets
   submitted, in order.
   */
  method RoundTrip(uart: Uart, ops: seq<TxOp>, sizes: nat -> nat) returns (frames: seq<seq<byte>>)
    requires forall p :: p in Submitted(ops) ==> Sendable(p)
    requires forall k :: 0 <= k < |ops| && ops[k].Submit? ==> |ops[k].packet.payload| <= 255
    requires forall k :: sizes(k) > 0
    ensures frames == Frames(Submitted(ops))
  {
    var wire, delays := TransmitRun(uart, ops);
    ghost var items :| wire == Encode(items) && PacketsOf(items) == Submitted(ops) && Syncs(items) == SyncsIn(uart, delays);
    forall i: Item | i in items && i.Packet?
      ensures Sendable(i.packet)
    {
      FromSubmitted(ops, items, i);
    }
    DecodeEncode(items);
    var consumed, pending;
    frames, consumed, pending := InDevices.ReceiveRun(wire, seq(2 * |wire| + 2, k requires k >= 0 => sizes(k)));
    assert wire[..consumed] == wire;
  }

  /**
   The way back: behind a packet the server writes, the firmware's receiver is between two frames
   again, and nowhere inside it, if and only if the packet's type is a reply type, it has at most 128
   bytes of payload, and its channel meets no slot without a packet.
   */
  lemma {:induction false} ServerReply(p: WirePacket, v: SerialReceive.RxView)
    requires 0 <= p.chan < 256 && v.partial == [] && !v.fault
    ensures SerialReceiveRuns.Followed(v, Frame(p))
            <==> p.ptype in {FS_REPLY, FS_DATA, FS_DATA_EOF, FS_SETOPT, FS_RESET} && |p.payload| <= 128 && !SerialReceive.MeetsNothing(v.slots, p.chan)
  {
    hide SerialReceiveRuns.Followed;
    hide SerialReceive.MeetsNothing;
    var f := Frame(p);
    assert f[FSP_FD] == p.chan && f[FSP_LEN] == (|p.payload| + 3) % 256 && |f| == |p.payload| + 3;
    SerialReceiveRuns.FramingKept(v, f);
  }
}
