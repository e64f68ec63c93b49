/**
 A channel's writer and the serial line together: the bytes put at the channel are what the server
 dispatches, for every timing of both and whatever other channels send in between.
 */
module WriterRuns {
  import opened Wire
  import opened Endpoints
  import opened Framing
  import opened Channels
  import opened ChannelRuns
  import opened SerialRuns
  import SerialTransmit

  /** The packets of one channel, as the channel byte of their frames tells. */
  function OfChannel(ps: seq<WirePacket>, channelNo: byte): seq<WirePacket> {
    if ps == [] then []
    else OfChannel(ps[..|ps| - 1], channelNo) + if ps[|ps| - 1].chan % 256 == channelNo then [ps[|ps| - 1]] else []
  }

  /** The frames whose channel byte is this one. */
  function FramesOf(fs: seq<seq<byte>>, channelNo: byte): seq<seq<byte>> {
    if fs == [] then []
    else
      var f := fs[|fs| - 1];
      FramesOf(fs[..|fs| - 1], channelNo) + if |f| > FSP_FD && f[FSP_FD] == channelNo then [f] else []
  }

  /** What the frames carry, together. */
  function Contents(fs: seq<seq<byte>>): seq<byte> {
    if fs == [] then []
    else
      var f := fs[|fs| - 1];
      Contents(fs[..|fs| - 1]) + if |f| > FSP_DATA then f[FSP_DATA..] else []
  }

  lemma {:induction false} FramesOfChannel(ps: seq<WirePacket>, channelNo: byte)
    ensures FramesOf(Frames(ps), channelNo) == Frames(OfChannel(ps, channelNo))
    decreases |ps|
  {
    hide Frame, Frames, FramesOf;
    if ps == [] {
      NoFrames(channelNo);
    } else {
      var p, before := ps[|ps| - 1], ps[..|ps| - 1];
      FramesOfChannel(before, channelNo);
      assert before + [p] == ps;
      FramesAppend(before, p);
      FramesOfAppend(Frames(before), Frame(p), channelNo);
      FramesAppend(OfChannel(before, channelNo), p);
      ChannelByte(p);
    }
  }

  lemma {:induction false} NoFrames(channelNo: byte)
    ensures Frames([]) == [] && FramesOf([], channelNo) == []
  {
  }

  lemma {:induction false} FramesAppend(ps: seq<WirePacket>, p: WirePacket)
    ensures Frames(ps + [p]) == Frames(ps) + [Frame(p)]
  {
    assert (ps + [p])[..|ps|] == ps;
  }

  lemma {:induction false} FramesOfAppend(fs: seq<seq<byte>>, f: seq<byte>, channelNo: byte)
    ensures FramesOf(fs + [f], channelNo)
         == FramesOf(fs, channelNo) + if |f| > FSP_FD && f[FSP_FD] == channelNo then [f] else []
  {
    assert (fs + [f])[..|fs|] == fs;
  }

  lemma {:induction false} ChannelByte(p: WirePacket)
    ensures |Frame(p)| > FSP_FD && Frame(p)[FSP_FD] == p.chan % 256
  {
  }

  lemma {:induction false} ContentsOfFrames(ps: seq<WirePacket>)
    ensures Contents(Frames(ps)) == Payloads(ps)
    decreases |ps|
  {
    if ps != [] {
      var fs := Frames(ps);
      ContentsOfFrames(ps[..|ps| - 1]);
      assert fs[..|fs| - 1] == Frames(ps[..|ps| - 1]);
    }
  }

  /** These frames carry the given bytes in data frames of the channel, and close it. */
  ghost predicate Arrived(fs: seq<seq<byte>>, channelNo: byte, bytes: seq<byte>) {
    && |fs| > 0 && fs[|fs| - 1] == [FS_CLOSE, 3, channelNo]
    && (forall k :: 0 <= k < |fs| - 1 ==> DataFrame(fs[k], channelNo))
    && Contents(fs[..|fs| - 1]) == bytes
  }

  predicate DataFrame(f: seq<byte>, channelNo: byte) {
    4 <= |f| <= 3 + DATA_BUFLEN && f[FSP_CMD] in {FS_WRITE, FS_WRITE_EOF} && f[FSP_LEN] == |f| && f[FSP_FD] == channelNo
  }

  lemma {:induction false} WrittenArrives(channelNo: byte, ops: seq<WriteOp>)
    ensures Arrived(Frames(WriteSpec(channelNo, ops)), channelNo, if BytesPut(ops) == [] then [0x0d] else BytesPut(ops))
  {
    hide *;
    WriteConserves(channelNo, ops);
    PacketsArrive(channelNo, WriteSpec(channelNo, ops));
  }

  /** Data packets and a close behind them arrive as such. */
  lemma {:induction false} PacketsArrive(channelNo: byte, wire: seq<WirePacket>)
    requires |wire| > 0 && wire[|wire| - 1] == WirePacket(FS_CLOSE, channelNo, [])
    requires DataPackets(wire[..|wire| - 1], channelNo)
    ensures Arrived(Frames(wire), channelNo, Payloads(wire[..|wire| - 1]))
  {
    hide Payloads, Contents, DataFrame, DataPacket, Frame;
    var fs, data := Frames(wire), wire[..|wire| - 1];
    ContentsOfFrames(data);
    assert fs[..|fs| - 1] == Frames(data);
    CloseArrives(channelNo);
    forall k | 0 <= k < |fs| - 1
      ensures DataFrame(fs[k], channelNo)
    {
      DataArrives(data[k], channelNo);
    }
  }

  lemma {:induction false} CloseArrives(channelNo: byte)
    ensures Frame(WirePacket(FS_CLOSE, channelNo, [])) == [FS_CLOSE, 3, channelNo]
  {
  }

  lemma {:induction false} DataArrives(p: WirePacket, channelNo: byte)
    requires DataPacket(p, channelNo)
    ensures DataFrame(Frame(p), channelNo)
  {
  }

  /** A packet of another channel that survives the line. */
  ghost predicate Foreign(p: WirePacket, channelNo: byte) {
    Sendable(p) && p.chan % 256 != channelNo
  }

  /** The packets submitted survive the line, and those of the channel are the given ones. */
  ghost predicate Submits(tx: seq<TxOp>, channelNo: byte, wire: seq<WirePacket>) {
    && OfChannel(Submitted(tx), channelNo) == wire
    && forall p :: p in Submitted(tx) ==> Sendable(p)
  }

  lemma {:induction false} SubmitsMore(tx: seq<TxOp>, channelNo: byte, wire: seq<WirePacket>, op: TxOp)
    requires Submits(tx, channelNo, wire) && (op.Submit? ==> Sendable(op.packet))
    ensures Submits(tx + [op], channelNo,
                    wire + if op.Submit? && op.packet.chan % 256 == channelNo then [op.packet] else [])
  {
    hide Sendable;
    var all := tx + [op];
    assert all[..|all| - 1] == tx;
    if op.Submit? {
      var ps := Submitted(all);
      assert ps == Submitted(tx) + [op.packet];
      assert ps[..|ps| - 1] == Submitted(tx);
    } else {
      assert Submitted(all) == Submitted(tx) && wire + [] == wire;
    }
  }

  lemma {:induction false} SubmitsFits(tx: seq<TxOp>, channelNo: byte, wire: seq<WirePacket>)
    requires Submits(tx, channelNo, wire)
    ensures forall p :: p in Submitted(tx) ==> Sendable(p)
    ensures forall k :: 0 <= k < |tx| && tx[k].Submit? ==> |tx[k].packet.payload| <= 255
    ensures FramesOf(Frames(Submitted(tx)), channelNo) == Frames(wire)
  {
    FramesOfChannel(Submitted(tx), channelNo);
    forall k | 0 <= k < |tx| && tx[k].Submit?
      ensures |tx[k].packet.payload| <= 255
    {
      SubmittedInside(tx, k);
    }
  }

  lemma {:induction false} SubmittedInside(tx: seq<TxOp>, k: nat)
    requires k < |tx| && tx[k].Submit?
    ensures tx[k].packet in Submitted(tx)
    decreases |tx|
  {
    if k < |tx| - 1 {
      SubmittedInside(tx[..|tx| - 1], k);
    }
  }

  lemma {:induction false} WrittenSendable(channelNo: byte, ops: seq<WriteOp>, p: WirePacket)
    requires p in WriteSpec(channelNo, ops)
    ensures Sendable(p) && p.chan == channelNo
  {
    hide WriteSpec;
    var wire := WriteSpec(channelNo, ops);
    WriteConserves(channelNo, ops);
    var k :| 0 <= k < |wire| && wire[k] == p;
    assert k < |wire| - 1 ==> DataPacket(wire[..|wire| - 1][k], channelNo);
  }

  /** Behind the packets submitted before: those of other channels, each with a delay in front of it. */
  method Mix(tx: seq<TxOp>, channelNo: byte, ghost wire: seq<WirePacket>, others: seq<WirePacket>, delay: nat)
    returns (mixed: seq<TxOp>)
    requires Submits(tx, channelNo, wire) && forall p :: p in others ==> Foreign(p, channelNo)
    ensures Submits(mixed, channelNo, wire)
  {
    hide Submits, Sendable;
    mixed := tx;
    for k := 0 to |others|
      invariant Submits(mixed, channelNo, wire)
    {
      assert others[k] in others && Foreign(others[k], channelNo);
      SubmitsMore(mixed, channelNo, wire, Pass(delay));
      SubmitsMore(mixed + [Pass(delay)], channelNo, wire + [], Submit(others[k]));
      assert wire + [] + [] == wire;
      mixed := mixed + [Pass(delay)] + [Submit(others[k])];
    }
  }

  /** The channel's packets in order, packets of other channels in front of and behind each. */
  method Merge(channelNo: byte, wire: seq<WirePacket>, others: nat -> seq<WirePacket>, delays: nat -> nat)
    returns (tx: seq<TxOp>)
    requires forall p :: p in wire ==> Sendable(p) && p.chan == channelNo
    requires forall k, p :: p in others(k) ==> Foreign(p, channelNo)
    ensures Submits(tx, channelNo, wire)
  {
    assert Submits([], channelNo, []);
    hide Submits, Sendable, Foreign;
    tx := [];
    for k := 0 to |wire|
      invariant Submits(tx, channelNo, wire[..k])
    {
      assert wire[k] in wire;
      tx := Mix(tx, channelNo, wire[..k], others(k), delays(k));
      SubmitsMore(tx, channelNo, wire[..k], Submit(wire[k]));
      assert wire[..k + 1] == wire[..k] + [wire[k]];
      tx := tx + [Submit(wire[k])];
    }
    assert wire[..|wire|] == wire;
    tx := Mix(tx, channelNo, wire, others(|wire|), delays(|wire|));
  }

  /**
   Put bytes at a channel and close it, and send its packets over the line, packets of other channels
   and delays between them: of the frames that the server dispatches, those of the channel carry exactly
   the bytes put, and the close comes last.
   */
  method WriteOverLine(
    channelNo: byte, env: Environment, ops: seq<WriteOp>,
    others: nat -> seq<WirePacket>, delays: nat -> nat, uart: SerialTransmit.Uart, sizes: nat -> nat)
    returns (frames: seq<seq<byte>>)
    requires AnswersFit(env.answers) && forall k :: sizes(k) > 0
    requires forall k, p :: p in others(k) ==> Foreign(p, channelNo)
    ensures FramesOf(frames, channelNo) == Frames(WriteSpec(channelNo, ops))
    ensures Arrived(FramesOf(frames, channelNo), channelNo, if BytesPut(ops) == [] then [0x0d] else BytesPut(ops))
  {
    hide AnswersFit, LawfulTrace, Submits, WriteSpec, BytesPut, Arrived, FramesOf, Frames, Sendable, Foreign;
    var wire, polls, trace := WriteRun(channelNo, env, ops);
    forall p | p in wire
      ensures Sendable(p) && p.chan == channelNo
    {
      WrittenSendable(channelNo, ops, p);
    }
    var tx := Merge(channelNo, wire, others, delays);
    SubmitsFits(tx, channelNo, wire);
    frames := RoundTrip(uart, tx, sizes);
    WrittenArrives(channelNo, ops);
  }
}
