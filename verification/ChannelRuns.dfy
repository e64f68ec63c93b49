/**
 Whole runs of a channel: whatever the environment's timing, and wherever time passes between two
 calls, a reader sees the plain byte stream and a writer's bytes arrive as they were put; and whenever
 the channel waits, the buffer it reads or fills is not the one in flight.
 */
module ChannelRuns {
  import opened Wire
  import opened Endpoints
  import opened Channels

  // ---------------------------------------------------------------------------------------
  // Reading

  /** Read a byte, or let time pass for so many polls. */
  datatype ReadOp = Read(preload: bool, sync: bool) | ReadElapse(times: nat)

  datatype ReadResult = ReadResult(data: byte, eof: bool)

  /** What reading a plain byte stream gives; nothing is read any more behind its end. */
  function Reads(stream: seq<byte>, ops: seq<ReadOp>): seq<ReadResult> {
    if ops == [] || stream == [] then []
    else match ops[0]
      case ReadElapse(_) => Reads(stream, ops[1..])
      case Read(preload, _) =>
        [ReadResult(stream[0], |stream| == 1)] + Reads(if preload then stream else stream[1..], ops[1..])
  }

  /** The parts, one behind the other. */
  function Joined(parts: seq<seq<byte>>): seq<byte> {
    if parts == [] then [] else parts[0] + Joined(parts[1..])
  }

  lemma {:induction false} JoinedIs(parts: seq<seq<byte>>, more: seq<seq<byte>>, part: seq<byte>)
    ensures Joined(parts + more) == Joined(parts) + Joined(more) && Joined([part]) == part
    decreases |parts|
  {
    if parts == [] {
      assert parts + more == more;
    } else {
      assert (parts + more)[1..] == parts[1..] + more;
      JoinedIs(parts[1..], more, part);
    }
    assert [part][1..] == [];
  }

  /** What the server has to say: the content of its packets, or what the converter f makes of each of them. */
  ghost function ServerStream(answers: nat -> Reply, converter: Option<Converter>, count: nat): seq<byte> {
    match converter
    case None => Joined(seq(count, k requires 0 <= k < count => answers(k).payload))
    case Some(f) => Joined(seq(count, k requires 0 <= k < count => f(answers(k).payload)))
  }

  /** The contents of the server's first answers. */
  ghost predicate AreContents(parts: seq<seq<byte>>, answers: nat -> Reply) {
    forall k: nat :: k < |parts| ==> parts[k] == answers(k).payload
  }

  /** What the converter f makes of each of the parts. */
  ghost predicate AreConverted(converted: seq<seq<byte>>, parts: seq<seq<byte>>, f: Converter) {
    |converted| == |parts| && forall k :: 0 <= k < |parts| ==> converted[k] == f(parts[k])
  }

  /** A reader's stream without a converter is the packets' content; with one, each packet is converted, and once only. */
  lemma {:induction false} StreamIs(
    answers: nat -> Reply, f: Converter, parts: seq<seq<byte>>, converted: seq<seq<byte>>)
    requires AreContents(parts, answers) && AreConverted(converted, parts, f)
    ensures Stream(answers, None, |parts|, 0) == Joined(parts)
    ensures Stream(answers, Some(f), |parts|, 0) == Joined(converted)
  {
    assert parts[0..] == parts && converted[0..] == converted;
    PlainFrom(answers, parts, 0);
    ConvertedFrom(answers, f, parts, converted, 0);
  }

  lemma {:induction false} ServerStreamIs(answers: nat -> Reply, converter: Option<Converter>, n: nat)
    ensures Stream(answers, converter, n, 0) == ServerStream(answers, converter, n)
  {
    var parts := seq(n, k requires 0 <= k < n => answers(k).payload);
    match converter {
      case None =>
        assert parts[0..] == parts;
        PlainFrom(answers, parts, 0);
      case Some(f) =>
        StreamIs(answers, f, parts, seq(n, k requires 0 <= k < n => f(answers(k).payload)));
    }
  }

  lemma {:induction false} PlainFrom(answers: nat -> Reply, parts: seq<seq<byte>>, k: nat)
    requires k <= |parts| && AreContents(parts, answers)
    ensures Stream(answers, None, |parts|, k) == Joined(parts[k..])
    decreases |parts| - k
  {
    if k < |parts| {
      PlainFrom(answers, parts, k + 1);
    }
  }

  lemma {:induction false} ConvertedFrom(
    answers: nat -> Reply, f: Converter, parts: seq<seq<byte>>, converted: seq<seq<byte>>, k: nat)
    requires k <= |parts| && AreContents(parts, answers) && AreConverted(converted, parts, f)
    ensures Stream(answers, Some(f), |parts|, k) == Joined(converted[k..])
    decreases |parts| - k
  {
    if k < |parts| {
      ConvertedFrom(answers, f, parts, converted, k + 1);
    }
  }

  /**
   A channel refines the plain byte stream, asks the server for no more than its packets, and keeps the
   rule of the double buffer at every delay.
   */
  method ReadRun(channelNo: int, env: Environment, converter: Option<Converter>, ghost count: nat, ops: seq<ReadOp>)
    returns (results: seq<ReadResult>, requests: nat, polls: nat, ghost trace: seq<Snapshot>)
    requires DataReplies(env.answers, count) && ConverterOk(converter, env.answers, count) && AnswersFit(env.answers)
    ensures results == Reads(ServerStream(env.answers, converter, count), ops)
    ensures requests <= count
    ensures LawfulTrace(ReadOnly, trace, polls)
  {
    hide ServerStream;
    hide Joined;
    hide DataReplies;
    hide ConverterOk;
    hide AnswersFit;
    hide LawfulTrace;
    var c := new Channel(channelNo, ReadOnly, env, converter, count);
    ReplyOk(env.answers, count, 0);
    StreamStep(env.answers, converter, count, 0);
    ServerStreamIs(env.answers, converter, count);
    hide Stream;
    ghost var stream := c.Remaining();
    results := [];
    var ended := false;
    var i := 0;
    while i < |ops| && !ended
      invariant 0 <= i <= |ops|
      invariant fresh(c.Repr()) && fresh(c.recorder) && c.Valid() && c.Settled() && c.writetype == ReadOnly
      invariant c.endpoint.env == env && c.count == count
      invariant results + Reads(c.Remaining(), ops[i..]) == Reads(stream, ops)
      invariant ended <==> c.Remaining() == []
    {
      assert ops[i..][1..] == ops[i + 1..];
      var some, over := Perform(c, ops[i], ops[i..]);
      assert results + some + Reads(c.Remaining(), ops[i + 1..]) == results + (some + Reads(c.Remaining(), ops[i + 1..]));
      results := results + some;
      ended := over;
      i := i + 1;
    }
    requests, polls, trace := c.endpoint.asked, c.endpoint.polls, c.recorder.trace;
  }

  method Perform(c: Channel, op: ReadOp, ghost ops: seq<ReadOp>) returns (results: seq<ReadResult>, ended: bool)
    requires c.Valid() && c.writetype == ReadOnly && c.Settled() && c.Remaining() != []
    requires ops != [] && ops[0] == op
    modifies c`current, c`pullState, c.recorder, c.endpoint, c.buf0, c.buf1, c.buf0.buffer, c.buf1.buffer
    ensures c.Valid() && c.Settled()
    ensures results + Reads(c.Remaining(), ops[1..]) == Reads(old(c.Remaining()), ops)
    ensures ended <==> c.Remaining() == []
  {
    hide DataReplies;
    hide ConverterOk;
    hide AnswersFit;
    hide Stream;
    results, ended := [], false;
    match op {
      case ReadElapse(times) =>
        Elapse(c, times);
      case Read(preload, sync) =>
        var rc, data, eof := c.Get(preload, sync);
        results := [ReadResult(data, eof)];
        ended := eof && !preload;
    }
  }

  /** Time passing between two calls. */
  method Elapse(c: Channel, times: nat)
    requires c.Valid() && c.writetype == ReadOnly && c.Settled()
    modifies c`pullState, c.recorder, c.endpoint, c.buf0, c.buf1, c.buf0.buffer, c.buf1.buffer
    ensures c.Valid() && c.Settled() && c.Remaining() == old(c.Remaining())
  {
    hide DataReplies;
    hide ConverterOk;
    hide AnswersFit;
    hide Stream;
    c.DawdleReader(times);
  }

  /** The bytes that are consumed, i.e. read without preload. */
  function Consumed(stream: seq<byte>, ops: seq<ReadOp>): seq<byte> {
    if ops == [] || stream == [] then []
    else match ops[0]
      case ReadElapse(_) => Consumed(stream, ops[1..])
      case Read(true, _) => Consumed(stream, ops[1..])
      case Read(false, _) => [stream[0]] + Consumed(stream[1..], ops[1..])
  }

  function ConsumingReads(ops: seq<ReadOp>): nat {
    if ops == [] then 0
    else (if ops[0].Read? && !ops[0].preload then 1 else 0) + ConsumingReads(ops[1..])
  }

  function AllReads(ops: seq<ReadOp>): nat {
    if ops == [] then 0 else (if ops[0].Read? then 1 else 0) + AllReads(ops[1..])
  }

  /** The k-th consuming read returns byte k of the stream. */
  lemma {:induction false} ReadsInOrder(stream: seq<byte>, ops: seq<ReadOp>)
    ensures Consumed(stream, ops)
         == stream[..if ConsumingReads(ops) < |stream| then ConsumingReads(ops) else |stream|]
    decreases |ops|
  {
    if ops != [] && stream != [] {
      var rest := if ops[0].Read? && !ops[0].preload then stream[1..] else stream;
      ReadsInOrder(rest, ops[1..]);
    }
  }

  /**
   Each read, consuming or not, shows the byte behind those consumed before it, and EOF with it exactly
   when it is the stream's last one.
   */
  lemma {:induction false} ReadShows(stream: seq<byte>, ops: seq<ReadOp>, j: nat)
    requires j < |ops| && ops[j].Read? && ConsumingReads(ops[..j]) < |stream|
    ensures var p, k := ConsumingReads(ops[..j]), AllReads(ops[..j]);
      k < |Reads(stream, ops)| && Reads(stream, ops)[k] == ReadResult(stream[p], p == |stream| - 1)
    decreases |ops|
  {
    if j > 0 {
      assert ops[..j][0] == ops[0] && ops[..j][1..] == ops[1..][..j - 1];
      var rest := if ops[0].Read? && !ops[0].preload then stream[1..] else stream;
      ReadShows(rest, ops[1..], j - 1);
    }
  }

  /** Everything is consumed once there have been enough reads. */
  lemma {:induction false} ReadToTheEnd(stream: seq<byte>, ops: seq<ReadOp>)
    requires ConsumingReads(ops) >= |stream|
    ensures Consumed(stream, ops) == stream
  {
    ReadsInOrder(stream, ops);
  }

  // ---------------------------------------------------------------------------------------
  // Writing

  /** Write a byte, flush the channel, or let time pass for so many polls. */
  datatype WriteOp = Put(c: byte, flush: bool, sync: bool) | ChannelFlush | WriteElapse(times: nat)

  function AfterOps(channelNo: int, ops: seq<WriteOp>): Written {
    if ops == [] then Written([], [])
    else
      var w := AfterOps(channelNo, ops[..|ops| - 1]);
      match ops[|ops| - 1]
      case Put(c, flush, _) => AfterPut(channelNo, w, c, flush)
      case ChannelFlush => AfterFlush(channelNo, w)
      case WriteElapse(_) => w
  }

  function BytesPut(ops: seq<WriteOp>): seq<byte> {
    if ops == [] then []
    else BytesPut(ops[..|ops| - 1]) + if ops[|ops| - 1].Put? then [ops[|ops| - 1].c] else []
  }

  /** The packets a run of puts and flushes and a close put on the wire depend on the bytes and the flushes only. */
  function WriteSpec(channelNo: int, ops: seq<WriteOp>): seq<WirePacket> {
    AfterClose(channelNo, AfterOps(channelNo, ops), BytesPut(ops) != [])
  }

  method WriteRun(channelNo: int, env: Environment, ops: seq<WriteOp>)
    returns (wire: seq<WirePacket>, polls: nat, ghost trace: seq<Snapshot>)
    requires AnswersFit(env.answers)
    ensures wire == WriteSpec(channelNo, ops)
    ensures LawfulTrace(WriteOnly, trace, polls)
  {
    hide AnswersFit;
    hide LawfulTrace;
    hide AfterPut;
    var c := new Channel(channelNo, WriteOnly, env, None, 0);
    for i := 0 to |ops|
      invariant fresh(c.Repr()) && fresh(c.recorder) && c.Valid() && c.writetype == WriteOnly && c.channelNo == channelNo
      invariant Written(c.endpoint.Log(), c.Pending()) == AfterOps(channelNo, ops[..i])
      invariant c.hadData <==> BytesPut(ops[..i]) != []
    {
      assert ops[..i + 1][..i] == ops[..i];
      match ops[i] {
        case WriteElapse(times) =>
          Idle(c, times);
        case Put(b, flush, sync) =>
          c.Put(b, flush, sync);
        case ChannelFlush =>
          c.Flush();
      }
    }
    assert ops[..|ops|] == ops;
    c.Close();
    wire, polls, trace := c.endpoint.sent, c.endpoint.polls, c.recorder.trace;
  }

  method Idle(c: Channel, times: nat)
    requires c.Valid() && c.writetype == WriteOnly
    modifies c`pushState, c.recorder, c.endpoint, c.buf0, c.buf1, c.buf0.buffer, c.buf1.buffer
    ensures c.Valid() && c.endpoint.Log() == old(c.endpoint.Log()) && c.Pending() == old(c.Pending())
  {
    hide AnswersFit;
    c.DawdleWriter(times, FillDelay);
  }

  function Payloads(log: seq<WirePacket>): seq<byte> {
    if log == [] then [] else Payloads(log[..|log| - 1]) + log[|log| - 1].payload
  }

  ghost predicate DataPacket(p: WirePacket, channelNo: int) {
    p.ptype in {FS_WRITE, FS_WRITE_EOF} && p.chan == channelNo && 1 <= |p.payload| <= DATA_BUFLEN
  }

  ghost predicate DataPackets(log: seq<WirePacket>, channelNo: int) {
    forall k :: 0 <= k < |log| ==> DataPacket(log[k], channelNo)
  }

  lemma {:induction false} PayloadsAppend(log: seq<WirePacket>, channelNo: int, eof: bool, pending: seq<byte>)
    requires DataPackets(log, channelNo) && |pending| <= DATA_BUFLEN
    ensures Payloads(log + Flushed(channelNo, eof, pending)) == Payloads(log) + pending
    ensures DataPackets(log + Flushed(channelNo, eof, pending), channelNo)
    ensures EndMarks(log + Flushed(channelNo, eof, pending)) == EndMarks(log) + if eof && pending != [] then 1 else 0
  {
    var all := log + Flushed(channelNo, eof, pending);
    if pending == [] {
      assert all == log;
    } else {
      assert all[..|all| - 1] == log;
    }
  }

  /** The number of packets marked as the end. */
  function EndMarks(log: seq<WirePacket>): nat {
    if log == [] then 0
    else EndMarks(log[..|log| - 1]) + if log[|log| - 1].ptype == FS_WRITE_EOF then 1 else 0
  }

  function FlushingPuts(ops: seq<WriteOp>): nat {
    if ops == [] then 0
    else
      var last := ops[|ops| - 1];
      FlushingPuts(ops[..|ops| - 1]) + if last.Put? && last.flush then 1 else 0
  }

  lemma {:induction false} PutConserves(channelNo: int, ops: seq<WriteOp>)
    ensures var w := AfterOps(channelNo, ops);
            && Payloads(w.log) + w.pending == BytesPut(ops)
            && EndMarks(w.log) == FlushingPuts(ops)
            && |w.pending| < DATA_BUFLEN && DataPackets(w.log, channelNo)
    decreases |ops|
  {
    if ops != [] {
      var before := ops[..|ops| - 1];
      PutConserves(channelNo, before);
      var w := AfterOps(channelNo, before);
      match ops[|ops| - 1] {
        case WriteElapse(_) =>
        case ChannelFlush =>
          PayloadsAppend(w.log, channelNo, false, w.pending);
        case Put(c, flush, _) =>
          PayloadsAppend(w.log, channelNo, flush, w.pending + [c]);
          assert Payloads(w.log) + (w.pending + [c]) == (Payloads(w.log) + w.pending) + [c];
      }
    }
  }

  /** The p-th byte was put with a flush. */
  predicate PutFlushed(ops: seq<WriteOp>, p: nat) {
    exists i :: 0 <= i < |ops| && ops[i].Put? && ops[i].flush && |BytesPut(ops[..i + 1])| == p
  }

  /** The channel was flushed behind the p-th byte. */
  predicate ChannelFlushed(ops: seq<WriteOp>, p: nat) {
    exists i :: 0 <= i < |ops| && ops[i].ChannelFlush? && |BytesPut(ops[..i])| == p
  }

  lemma {:induction false} BytesMore(ops: seq<WriteOp>, op: WriteOp)
    ensures BytesPut(ops + [op]) == BytesPut(ops) + if op.Put? then [op.c] else []
  {
    assert (ops + [op])[..|ops|] == ops;
  }

  lemma {:induction false} BytesGrow(ops: seq<WriteOp>, i: nat)
    requires i <= |ops|
    ensures |BytesPut(ops[..i])| <= |BytesPut(ops)|
    decreases |ops|
  {
    assert ops[..|ops|] == ops;
    if i < |ops| {
      assert ops[..|ops| - 1][..i] == ops[..i];
      BytesGrow(ops[..|ops| - 1], i);
    }
  }

  /** One operation more adds one place at most. */
  lemma {:induction false} FlushedMore(ops: seq<WriteOp>, op: WriteOp, p: nat)
    ensures PutFlushed(ops + [op], p) <==>
            PutFlushed(ops, p) || (op.Put? && op.flush && p == |BytesPut(ops)| + 1)
    ensures ChannelFlushed(ops + [op], p) <==> ChannelFlushed(ops, p) || (op.ChannelFlush? && p == |BytesPut(ops)|)
    ensures PutFlushed(ops, p) || ChannelFlushed(ops, p) ==> p <= |BytesPut(ops)|
  {
    var all := ops + [op];
    if PutFlushed(all, p) {
      var i :| 0 <= i < |all| && all[i].Put? && all[i].flush && |BytesPut(all[..i + 1])| == p;
      Prefixes(ops, op, i);
    }
    if ChannelFlushed(all, p) {
      var i :| 0 <= i < |all| && all[i].ChannelFlush? && |BytesPut(all[..i])| == p;
      Prefixes(ops, op, i);
    }
    if PutFlushed(ops, p) {
      var i :| 0 <= i < |ops| && ops[i].Put? && ops[i].flush && |BytesPut(ops[..i + 1])| == p;
      Prefixes(ops, op, i);
      assert all[i] == ops[i];
    }
    if ChannelFlushed(ops, p) {
      var i :| 0 <= i < |ops| && ops[i].ChannelFlush? && |BytesPut(ops[..i])| == p;
      Prefixes(ops, op, i);
      assert all[i] == ops[i];
    }
    Prefixes(ops, op, |ops|);
    assert all[|ops|] == op;
  }

  lemma {:induction false} Prefixes(ops: seq<WriteOp>, op: WriteOp, i: nat)
    requires i <= |ops|
    ensures (ops + [op])[..i] == ops[..i] && |BytesPut(ops[..i])| <= |BytesPut(ops)|
    ensures i < |ops| ==> (ops + [op])[..i + 1] == ops[..i + 1] && |BytesPut(ops[..i + 1])| <= |BytesPut(ops)|
    ensures i == |ops| ==>
      (ops + [op])[..i] == ops && BytesPut((ops + [op])[..i + 1]) == BytesPut(ops) + if op.Put? then [op.c] else []
  {
    hide BytesPut;
    BytesGrow(ops, i);
    if i < |ops| {
      BytesGrow(ops, i + 1);
    } else {
      BytesMore(ops, op);
      assert (ops + [op])[..i + 1] == ops + [op];
    }
  }

  /** How many bytes the first k packets carry. */
  function Upto(log: seq<WirePacket>, k: nat): nat
    requires k <= |log|
  {
    |Payloads(log[..k])|
  }

  /**
   Where the bytes are cut, and which packets are marked: a packet is marked iff its last byte was put with a
   flush; one with less than 64 bytes ends in a flush, or is the last one if that is allowed; and no flush
   falls inside a packet.
   */
  ghost predicate CutAt(log: seq<WirePacket>, ops: seq<WriteOp>, lastFree: bool) {
    && (forall k :: 0 < k <= |log| ==>
          && (log[k - 1].ptype == FS_WRITE_EOF <==> PutFlushed(ops, Upto(log, k)))
          && (|log[k - 1].payload| == DATA_BUFLEN || PutFlushed(ops, Upto(log, k)) || ChannelFlushed(ops, Upto(log, k))
              || (lastFree && k == |log|)))
    && (forall p: nat :: p > 0 && (PutFlushed(ops, p) || ChannelFlushed(ops, p)) ==>
          exists k :: 0 < k <= |log| && Upto(log, k) == p)
  }

  lemma {:induction false} UptoSame(log: seq<WirePacket>, more: seq<WirePacket>, k: nat)
    requires k <= |log|
    ensures Upto(log + more, k) == Upto(log, k)
  {
    assert (log + more)[..k] == log[..k];
  }

  lemma {:induction false} UptoGrows(log: seq<WirePacket>, k: nat)
    requires k <= |log|
    ensures Upto(log, k) <= |Payloads(log)|
    decreases |log| - k
  {
    if k == |log| {
      assert log[..k] == log;
    } else {
      assert log[..k + 1][..k] == log[..k];
      UptoGrows(log, k + 1);
    }
  }

  /** The packets of a run are cut exactly as the flushes and the packet size say. */
  lemma {:induction false} PacketsCut(channelNo: int, ops: seq<WriteOp>)
    ensures CutAt(AfterOps(channelNo, ops).log, ops, false)
    decreases |ops|
  {
    if ops == [] {
      NothingCut(channelNo);
    } else {
      hide *;
      var before, op := ops[..|ops| - 1], ops[|ops| - 1];
      PacketsCut(channelNo, before);
      PutConserves(channelNo, before);
      assert before + [op] == ops;
      CutStep(channelNo, before, op, AfterOps(channelNo, before), AfterOps(channelNo, ops));
    }
  }

  lemma {:induction false} NothingCut(channelNo: int)
    ensures CutAt(AfterOps(channelNo, []).log, [], false)
  {
  }

  lemma {:induction false} CutStep(channelNo: int, before: seq<WriteOp>, op: WriteOp, w: Written, next: Written)
    requires CutAt(w.log, before, false) && Payloads(w.log) + w.pending == BytesPut(before)
    requires w == AfterOps(channelNo, before) && next == AfterOps(channelNo, before + [op])
    ensures CutAt(next.log, before + [op], false)
  {
    hide CutAt, PutFlushed, ChannelFlushed, Payloads, BytesPut;
    assert (before + [op])[..|before|] == before && w.pending + [] == w.pending;
    var pending := w.pending + if op.Put? then [op.c] else [];
    var due := op.ChannelFlush? || (op.Put? && (op.flush || |pending| == DATA_BUFLEN));
    assert next.log == if due then w.log + Flushed(channelNo, op.Put? && op.flush, pending) else w.log;
    hide AfterOps;
    if due && pending != [] {
      PacketMore(w.log, before, op, WirePacket(if op.Put? && op.flush then FS_WRITE_EOF else FS_WRITE, channelNo, pending));
    } else {
      assert next.log == w.log;
      NoPacketMore(w.log, before, op);
    }
  }

  lemma {:induction false} NoPacketMore(log: seq<WirePacket>, ops: seq<WriteOp>, op: WriteOp)
    requires CutAt(log, ops, false) && |Payloads(log)| <= |BytesPut(ops)|
    requires (op.Put? ==> !op.flush) && (op.ChannelFlush? ==> |Payloads(log)| == |BytesPut(ops)|)
    ensures CutAt(log, ops + [op], false)
  {
    hide PutFlushed, ChannelFlushed, Upto, BytesPut;
    forall p: nat
      ensures PutFlushed(ops + [op], p) == PutFlushed(ops, p)
      ensures ChannelFlushed(ops + [op], p) <==> ChannelFlushed(ops, p) || (op.ChannelFlush? && p == |BytesPut(ops)|)
    {
      FlushedMore(ops, op, p);
    }
    if op.ChannelFlush? && |BytesPut(ops)| > 0 {
      WholeUpto(log);
    }
  }

  lemma {:induction false} WholeUpto(log: seq<WirePacket>)
    ensures Upto(log, |log|) == |Payloads(log)| && (log == [] ==> Payloads(log) == [])
  {
    assert log[..|log|] == log;
  }

  lemma {:induction false} InsideLog(log: seq<WirePacket>, ops: seq<WriteOp>, p: nat)
    requires CutAt(log, ops, false) && p > 0 && (PutFlushed(ops, p) || ChannelFlushed(ops, p))
    ensures p <= |Payloads(log)|
  {
    hide PutFlushed, ChannelFlushed, Payloads, Upto;
    var k :| 0 < k <= |log| && Upto(log, k) == p;
    UptoGrows(log, k);
  }

  /** One packet more, with all bytes that were still pending. */
  lemma {:induction false} PacketMore(log: seq<WirePacket>, ops: seq<WriteOp>, op: WriteOp, p: WirePacket)
    requires CutAt(log, ops, false) && p.payload != [] && !op.WriteElapse?
    requires |Payloads(log)| + |p.payload| == |BytesPut(ops)| + if op.Put? then 1 else 0
    requires p.ptype == FS_WRITE_EOF <==> op.Put? && op.flush
    requires op.Put? && !op.flush ==> |p.payload| == DATA_BUFLEN
    ensures CutAt(log + [p], ops + [op], false)
  {
    hide PutFlushed, ChannelFlushed, Upto, BytesPut, Payloads;
    var all, more, n := log + [p], ops + [op], |log|;
    var end := |BytesPut(ops)| + if op.Put? then 1 else 0;
    forall q: nat
      ensures PutFlushed(more, q) <==> PutFlushed(ops, q) || (op.Put? && op.flush && q == |BytesPut(ops)| + 1)
      ensures ChannelFlushed(more, q) <==> ChannelFlushed(ops, q) || (op.ChannelFlush? && q == |BytesPut(ops)|)
      ensures PutFlushed(ops, q) || ChannelFlushed(ops, q) ==> q <= |BytesPut(ops)|
    {
      FlushedMore(ops, op, q);
    }
    forall k | 0 <= k <= n
      ensures Upto(all, k) == Upto(log, k) <= |Payloads(log)|
    {
      UptoSame(log, [p], k);
      UptoGrows(log, k);
    }
    LastUpto(log, p);
    assert Upto(all, n + 1) == end;
    if PutFlushed(ops, end) {
      InsideLog(log, ops, end);
    }
    forall q: nat | q > 0 && (PutFlushed(more, q) || ChannelFlushed(more, q))
      ensures exists k :: 0 < k <= |all| && Upto(all, k) == q
    {
      if PutFlushed(ops, q) || ChannelFlushed(ops, q) {
        var k :| 0 < k <= n && Upto(log, k) == q;
        assert Upto(all, k) == q;
      } else {
        assert Upto(all, n + 1) == q;
      }
    }
  }

  lemma {:induction false} LastUpto(log: seq<WirePacket>, p: WirePacket)
    ensures Upto(log + [p], |log| + 1) == |Payloads(log)| + |p.payload|
  {
    var all := log + [p];
    assert all[..|log| + 1] == all && all[..|log|] == log;
  }

  /** The same for the data packets of a whole run: at the close the last one may be shorter. */
  lemma {:induction false} WireCut(channelNo: int, ops: seq<WriteOp>)
    requires BytesPut(ops) != []
    ensures var wire := WriteSpec(channelNo, ops); CutAt(wire[..|wire| - 1], ops, true)
  {
    PacketsCut(channelNo, ops);
    PutConserves(channelNo, ops);
    var w := AfterOps(channelNo, ops);
    var wire := WriteSpec(channelNo, ops);
    var data := wire[..|wire| - 1];
    assert data == w.log + Flushed(channelNo, false, w.pending);
    if w.pending == [] {
      assert data == w.log;
    } else {
      RestCut(w.log, ops, WirePacket(FS_WRITE, channelNo, w.pending));
    }
  }

  lemma {:induction false} RestCut(log: seq<WirePacket>, ops: seq<WriteOp>, p: WirePacket)
    requires CutAt(log, ops, false) && p.payload != [] && p.ptype == FS_WRITE
    requires |Payloads(log)| + |p.payload| == |BytesPut(ops)|
    ensures CutAt(log + [p], ops, true)
  {
    hide PutFlushed, ChannelFlushed, Upto, BytesPut, Payloads;
    var all, n := log + [p], |log|;
    forall k | 0 <= k <= n
      ensures Upto(all, k) == Upto(log, k) <= |Payloads(log)|
    {
      UptoSame(log, [p], k);
      UptoGrows(log, k);
    }
    LastUpto(log, p);
    var end := Upto(all, n + 1);
    if PutFlushed(ops, end) {
      InsideLog(log, ops, end);
    }
    forall q: nat | q > 0 && (PutFlushed(ops, q) || ChannelFlushed(ops, q))
      ensures exists k :: 0 < k <= |all| && Upto(all, k) == q
    {
      var k :| 0 < k <= n && Upto(log, k) == q;
      assert Upto(all, k) == q;
    }
  }

  predicate Flushes(op: WriteOp) {
    op.ChannelFlush? || (op.Put? && op.flush)
  }

  /**
   A flush holds nothing back: once a run ends in one, all bytes put so far have been submitted, and
   whatever is called later, their packets are what the wire starts with.
   */
  lemma {:induction false} FlushDelivers(channelNo: int, ops: seq<WriteOp>, later: seq<WriteOp>)
    requires ops != [] && Flushes(ops[|ops| - 1])
    ensures Payloads(AfterOps(channelNo, ops).log) == BytesPut(ops)
    ensures AfterOps(channelNo, ops).log <= WriteSpec(channelNo, ops + later)
  {
    assert AfterOps(channelNo, ops).pending == [];
    hide AfterOps;
    hide BytesPut;
    hide Payloads;
    hide EndMarks;
    hide FlushingPuts;
    hide DataPackets;
    PutConserves(channelNo, ops);
    LogGrows(channelNo, ops, later);
    CloseGrows(channelNo, AfterOps(channelNo, ops + later), BytesPut(ops + later) != []);
  }

  lemma {:induction false} CloseGrows(channelNo: int, w: Written, hadData: bool)
    ensures w.log <= AfterClose(channelNo, w, hadData)
  {
  }

  lemma {:induction false} LogGrows(channelNo: int, ops: seq<WriteOp>, later: seq<WriteOp>)
    ensures AfterOps(channelNo, ops).log <= AfterOps(channelNo, ops + later).log
    decreases |later|
  {
    if later == [] {
      assert ops + later == ops;
    } else {
      var before := later[..|later| - 1];
      assert (ops + later)[..|ops + later| - 1] == ops + before;
      LogGrows(channelNo, ops, before);
    }
  }

  /**
   Nothing is lost, doubled or reordered: the data packets of a run carry 1 to 64 bytes each and
   together exactly the bytes put, a lone carriage return if none were; as many are marked as the end as
   there were flushing puts; the close comes last.
   */
  lemma {:induction false} WriteConserves(channelNo: int, ops: seq<WriteOp>)
    ensures var wire := WriteSpec(channelNo, ops);
            && |wire| > 0 && wire[|wire| - 1] == WirePacket(FS_CLOSE, channelNo, [])
            && DataPackets(wire[..|wire| - 1], channelNo)
            && EndMarks(wire) == FlushingPuts(ops)
            && Payloads(wire[..|wire| - 1]) == if BytesPut(ops) == [] then [0x0d] else BytesPut(ops)
  {
    PutConserves(channelNo, ops);
    var w := AfterOps(channelNo, ops);
    var wire := WriteSpec(channelNo, ops);
    if BytesPut(ops) == [] {
      assert w.pending == [] && w.pending + [0x0d] == [0x0d];
      PayloadsAppend(w.log, channelNo, false, [0x0d]);
      assert wire[..|wire| - 1] == w.log + Flushed(channelNo, false, [0x0d]);
    } else {
      PayloadsAppend(w.log, channelNo, false, w.pending);
      assert wire[..|wire| - 1] == w.log + Flushed(channelNo, false, w.pending);
    }
  }
}
