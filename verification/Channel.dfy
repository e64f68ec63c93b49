/**
 The double buffered channel (firmware/channel.c): a byte-at-a-time reader or writer on two packet
 buffers, one of which may be in flight while the other one is read or filled.

 Waiting loops call Delay, the firmware's delayms; it is also where callbacks happen.
 */
module Channels {
  import opened Wire
  import opened Packets
  import opened Endpoints

  const DATA_BUFLEN := 64

  datatype WriteType = ReadOnly | WriteOnly

  datatype PullState =
    | PullOpen      // after open
    | PullPreload   // during read pre-load
    | PullOneConv   // first buffer is read, but may need to be converted
    | PullOneRead   // one buffer read, the other unused
    | PullPull2nd   // one buffer in use, the other is being pulled
    | PullTwoConv   // second buffer is read, but may still need to be converted
    | PullTwoRead   // both buffers read and valid

  datatype PushState = PushOpen | PushFillOne | PushFillTwo | PushClose

  /** Where in the channel's code a delay is: a writer's flush submits a packet before it switches buffers. */
  datatype Phase = ReadDelay | FillDelay | SubmitDelay | CloseDelay

  /** The packet in flight, by its slot, and the callback it will lead to. */
  datatype Flight = Nothing | Flying(slot: nat, callback: Callback)

  /** What a delay finds: the states, the slot being read or filled, and the packet in flight. */
  datatype Snapshot = Snapshot(phase: Phase, pull: PullState, push: PushState, current: nat, flight: Flight)

  /**
   The rule of the double buffer: exactly what is in flight, in each state. Only the first packet of a
   reader, a packet just submitted and the close request are in flight in the current slot.
   */
  predicate Lawful(s: Snapshot) {
    && s.current < 2
    && match s.phase
       case ReadDelay =>
         && s.push == PushOpen
         && s.flight == (match s.pull
                         case PullPreload => Flying(s.current, PullCallback)
                         case PullPull2nd => Flying(1 - s.current, PullCallback)
                         case _ => Nothing)
       case FillDelay =>
         && s.pull == PullOpen && s.push != PushClose
         && s.flight == if s.push == PushFillTwo then Flying(1 - s.current, PushCallback) else Nothing
       case SubmitDelay =>
         && s.pull == PullOpen && s.push in {PushFillTwo, PushFillOne}
         && s.flight == if s.push == PushFillTwo then Flying(s.current, PushCallback) else Nothing
       case CloseDelay =>
         s.flight == if s.push == PushClose then Nothing else Flying(s.current, CloseCallback)
  }

  /** How often a packet was in flight. */
  function Flights(trace: seq<Snapshot>): nat {
    if trace == [] then 0
    else Flights(trace[..|trace| - 1]) + if trace[|trace| - 1].flight == Nothing then 0 else 1
  }

  /** Every delay kept the rule; no poll of a packet in flight is missing. */
  ghost predicate LawfulTrace(writetype: WriteType, trace: seq<Snapshot>, polls: nat) {
    && Flights(trace) == polls
    && forall k :: 0 <= k < |trace| ==>
         && Lawful(trace[k])
         && (trace[k].phase == ReadDelay ==> writetype == ReadOnly)
         && (trace[k].phase in {FillDelay, SubmitDelay} ==> writetype == WriteOnly)
  }

  /** A directory converter: what it makes of a packet's content. */
  type Converter = seq<byte> -> seq<byte>

  function Converted(converter: Option<Converter>, payload: seq<byte>): seq<byte> {
    match converter
    case None => payload
    case Some(f) => f(payload)
  }

  /** The converter keeps the packets it gets non-empty and within the buffer. */
  ghost predicate ConverterOk(converter: Option<Converter>, answers: nat -> Reply, n: nat) {
    forall k: nat :: k < n ==> 1 <= |Converted(converter, answers(k).payload)| <= DATA_BUFLEN
  }

  /** The server's answers to reads: n non-empty data packets, the last one and only it marked as the end. */
  ghost predicate DataReplies(answers: nat -> Reply, n: nat) {
    && n > 0
    && forall k: nat :: k < n ==>
         && 1 <= |answers(k).payload| <= DATA_BUFLEN
         && answers(k).ptype == if k == n - 1 then FS_DATA_EOF else FS_DATA
  }

  /** No answer is longer than a channel's buffer. */
  ghost predicate AnswersFit(answers: nat -> Reply) {
    forall k :: |answers(k).payload| <= DATA_BUFLEN
  }

  /** The byte stream that packets k to n-1 stand for. */
  ghost function Stream(answers: nat -> Reply, converter: Option<Converter>, n: nat, k: nat): seq<byte>
    decreases n - k
  {
    if k >= n then [] else Converted(converter, answers(k).payload) + Stream(answers, converter, n, k + 1)
  }

  lemma {:induction false} StreamStep(answers: nat -> Reply, converter: Option<Converter>, n: nat, k: nat)
    requires DataReplies(answers, n) && ConverterOk(converter, answers, n) && k < n
    ensures Stream(answers, converter, n, k)
         == Converted(converter, answers(k).payload) + Stream(answers, converter, n, k + 1)
    ensures 1 <= |Converted(converter, answers(k).payload)| <= DATA_BUFLEN
    ensures |Stream(answers, converter, n, k)| > 0
  {
    assert 1 <= |answers(k).payload| <= DATA_BUFLEN;
  }

  /** Reply k fits the buffer; a reply that is not the last one is followed by another. */
  lemma {:induction false} ReplyOk(answers: nat -> Reply, n: nat, k: nat)
    requires DataReplies(answers, n)
    ensures k < n ==> 1 <= |answers(k).payload| <= DATA_BUFLEN
    ensures k < n ==> (answers(k).ptype == FS_DATA_EOF <==> k == n - 1)
    ensures n > 0
    ensures k > 0 && k <= n && answers(k - 1).ptype != FS_DATA_EOF ==> k < n && 1 <= |answers(k).payload| <= DATA_BUFLEN
  {
  }

  /** What each delay so far has found; for the proofs only. */
  class Recorder {
    ghost var trace: seq<Snapshot>

    constructor ()
      ensures trace == []
    {
      trace := [];
    }
  }

  class Channel {
    const channelNo: int
    const writetype: WriteType
    const endpoint: Endpoint
    const converter: Option<Converter>
    const buf0: Packet
    const buf1: Packet
    const recorder: Recorder
    ghost const count: nat   // a reader's number of data packets
    var current: nat
    var pullState: PullState
    var pushState: PushState
    var hadData: bool

    function Buf(slot: nat): Packet
    {
      if slot == 0 then buf0 else buf1
    }

    function Cur(): Packet
      reads this
    {
      Buf(current)
    }

    function Other(): Packet
      reads this
    {
      if current == 0 then buf1 else buf0
    }

    ghost function Repr(): set<object> {
      {this, endpoint, buf0, buf1, buf0.buffer, buf1.buffer}
    }

    // -------------------------------------------------------------------------------------
    // Invariants

    ghost predicate Base()
      reads Repr()
    {
      && current < 2
      && buf0 != buf1 && buf0.buffer != buf1.buffer
      && buf0.buffer.Length == buf1.buffer.Length == endpoint.capacity == DATA_BUFLEN
      && buf0.Valid() && buf1.Valid() && AnswersFit(endpoint.env.answers)
      && (endpoint.packet == null || endpoint.packet == buf0 || endpoint.packet == buf1)
      && endpoint.Valid()
    }

    ghost predicate Traced()
      reads recorder, endpoint`polls
    {
      LawfulTrace(writetype, recorder.trace, endpoint.polls)
    }

    ghost function Now(phase: Phase): Snapshot
      reads this, endpoint
    {
      Snapshot(phase, pullState, pushState, current,
               if endpoint.Busy() then Flying(if endpoint.packet == buf0 then 0 else 1, endpoint.callback) else Nothing)
    }

    /** The packet holds reply k, converted, and is being read. */
    ghost predicate Reading(p: Packet, k: nat)
      requires p.Valid()
      reads p, p.buffer
    {
      && p.rp <= p.wp
      && p.ptype == endpoint.env.answers(k).ptype
      && p.Content() == Converted(converter, endpoint.env.answers(k).payload)
    }

    /** The packet holds reply k as it came from the wire. */
    ghost predicate Received(p: Packet, k: nat)
      requires p.Valid()
      reads p, p.buffer
    {
      && p.rp == 0
      && p.ptype == endpoint.env.answers(k).ptype
      && p.Content() == endpoint.env.answers(k).payload
    }

    /** A pull into packet p is outstanding. */
    ghost predicate Pulling(p: Packet)
      reads endpoint
    {
      endpoint.Busy() && endpoint.packet == p && endpoint.callback == PullCallback && endpoint.txdata == []
    }

    ghost predicate ReaderValid()
      requires Base()
      reads Repr()
    {
      var a := endpoint.asked;
      && DataReplies(endpoint.env.answers, count) && ConverterOk(converter, endpoint.env.answers, count)
      && a <= count && pushState == PushOpen
      && match pullState
         case PullOpen => !endpoint.Busy() && a == 0
         case PullPreload => Pulling(Cur()) && a == 1
         case PullOneConv => !endpoint.Busy() && a == 1 && Received(Cur(), 0)
         case PullOneRead => !endpoint.Busy() && a >= 1 && Reading(Cur(), a - 1)
         case PullPull2nd => a >= 2 && Pulling(Other()) && Reading(Cur(), a - 2)
         case PullTwoConv => a >= 2 && !endpoint.Busy() && Reading(Cur(), a - 2) && Received(Other(), a - 1)
         case PullTwoRead => a >= 2 && !endpoint.Busy() && Reading(Cur(), a - 2) && Reading(Other(), a - 1) && Other().rp == 0
    }

    /** The bytes the reader has not got yet. */
    ghost function Remaining(): seq<byte>
      requires Base() && ReaderValid()
      reads Repr()
    {
      match pullState
      case PullOpen => Stream(endpoint.env.answers, converter, count, 0)
      case PullPreload => Stream(endpoint.env.answers, converter, count, 0)
      case PullOneConv => Stream(endpoint.env.answers, converter, count, 0)
      case _ => Cur().Unread() + Beyond()
    }

    /** The bytes behind the packet being read. */
    ghost function Beyond(): seq<byte>
      requires endpoint.asked > 0
      reads this, endpoint
    {
      Stream(endpoint.env.answers, converter, count,
             if pullState == PullOneRead then endpoint.asked else endpoint.asked - 1)
    }

    /** No packet is kept that has been read to its end, unless it is the last one. */
    ghost predicate Settled()
      requires Base()
      reads Repr()
    {
      pullState in {PullOneRead, PullPull2nd, PullTwoConv, PullTwoRead} ==> Cur().rp < Cur().wp || Cur().IsLast()
    }

    /** A push is outstanding exactly in PushFillTwo. */
    ghost predicate WriterCore()
      reads this, endpoint, recorder
    {
      && Traced() && pullState == PullOpen
      && match pushState
         case PushOpen => !endpoint.Busy()
         case PushFillOne => !endpoint.Busy()
         case PushFillTwo => endpoint.Busy() && endpoint.callback == PushCallback
         case PushClose => false
    }

    ghost predicate WriterValid()
      requires Base()
      reads Repr(), recorder
    {
      && WriterCore()
      && (endpoint.Busy() ==> endpoint.packet == Other())
      && Cur().chan == channelNo && Cur().rp == 0 && Cur().wp < DATA_BUFLEN
      && (pushState == PushOpen ==> Cur().wp == 0)
    }

    /** The bytes put and not yet submitted. */
    ghost function Pending(): seq<byte>
      requires Base()
      reads Repr()
    {
      Cur().Content()
    }

    ghost predicate Valid()
      reads Repr(), recorder
    {
      Base() && Traced() && if writetype == ReadOnly then ReaderValid() else WriterValid()
    }

    /** channel_open */
    constructor (channelNo: int, writetype: WriteType, env: Environment, converter: Option<Converter>, ghost count: nat)
      requires writetype == ReadOnly ==> DataReplies(env.answers, count) && ConverterOk(converter, env.answers, count)
      requires AnswersFit(env.answers)
      ensures Valid() && fresh(Repr()) && fresh(recorder) && Settled()
      ensures this.channelNo == channelNo && this.writetype == writetype && this.converter == converter
      ensures endpoint.env == env && this.count == count
      ensures endpoint.Log() == [] && !hadData && pushState == PushOpen && Cur().wp == 0
      ensures writetype == ReadOnly ==> Remaining() == Stream(env.answers, converter, count, 0)
    {
      this.channelNo, this.writetype, this.converter, this.count := channelNo, writetype, converter, count;
      endpoint := new Endpoint(env, DATA_BUFLEN);
      buf0 := new Packet(DATA_BUFLEN);
      buf1 := new Packet(DATA_BUFLEN);
      current, pullState, pushState, hadData := 0, PullOpen, PushOpen, false;
      recorder := new Recorder();
      new;
      buf0.Reset(channelNo);
      buf1.Reset(channelNo);
    }

    // -------------------------------------------------------------------------------------
    // Callbacks and time

    method OnPull()
      modifies this`pullState
      ensures pullState == match old(pullState)
                           case PullPreload => PullOneConv
                           case PullPull2nd => PullTwoConv
                           case s => s
    {
      if pullState == PullPreload {
        pullState := PullOneConv;
      } else if pullState == PullPull2nd {
        pullState := PullTwoConv;
      }
    }

    method OnPush()
      modifies this`pushState
      ensures pushState == match old(pushState)
                           case PushFillTwo => PushFillOne
                           case PushFillOne => PushOpen
                           case s => s
    {
      if pushState == PushFillTwo {
        pushState := PushFillOne;
      } else if pushState == PushFillOne {
        pushState := PushOpen;
      }
    }

    /** Note down what a delay finds. */
    ghost method Record(phase: Phase)
      requires Traced() && Lawful(Now(phase))
      requires phase == CloseDelay || (phase == ReadDelay <==> writetype == ReadOnly)
      modifies recorder
      ensures LawfulTrace(writetype, recorder.trace, endpoint.polls + if endpoint.Busy() then 1 else 0)
      ensures recorder.trace == old(recorder.trace) + [Now(phase)]
    {
      assert (recorder.trace + [Now(phase)])[..|recorder.trace|] == recorder.trace;
      recorder.trace := recorder.trace + [Now(phase)];
    }

    /** delayms for a reader: the world may move on by one step. */
    method DelayReader()
      requires writetype == ReadOnly && Valid()
      modifies this`pullState, recorder, endpoint, buf0, buf1, buf0.buffer, buf1.buffer
      ensures Valid() && Remaining() == old(Remaining()) && endpoint.asked == old(endpoint.asked)
      ensures old(pullState) == PullPreload ==> pullState in {PullPreload, PullOneConv}
      ensures old(pullState) == PullPull2nd ==> pullState in {PullPull2nd, PullTwoConv}
      ensures old(pullState) !in {PullPreload, PullPull2nd} ==> pullState == old(pullState)
      ensures endpoint.Busy() ==>
                endpoint.StepsLeft() < old(endpoint.StepsLeft())
                || (endpoint.StepsLeft() == old(endpoint.StepsLeft()) && endpoint.pause < old(endpoint.pause))
      ensures Cur().rp == old(Cur().rp) || pullState in {PullPreload, PullOneConv}
      ensures Cur().wp == old(Cur().wp) || pullState in {PullPreload, PullOneConv}
      ensures endpoint.Log() == old(endpoint.Log())
    {
      ReaderLawful();
      hide *;
      Record(ReadDelay);
      if endpoint.Busy() {
        PollReader();
      }
    }

    lemma {:induction false} ReaderLawful()
      requires writetype == ReadOnly && Valid()
      ensures Lawful(Now(ReadDelay)) && pushState == PushOpen
      ensures endpoint.Busy() <==> pullState in {PullPreload, PullPull2nd}
    {
      hide Stream;
      hide DataReplies;
      hide ConverterOk;
      hide Converted;
      hide AnswersFit;
    }

    method PollReader()
      requires writetype == ReadOnly && Base() && ReaderValid() && endpoint.Busy()
      modifies this`pullState, endpoint, buf0, buf1, buf0.buffer, buf1.buffer
      ensures Base() && ReaderValid() && Remaining() == old(Remaining()) && endpoint.asked == old(endpoint.asked)
      ensures endpoint.polls == old(endpoint.polls) + 1
      ensures old(pullState) == PullPreload ==> pullState in {PullPreload, PullOneConv}
      ensures old(pullState) == PullPull2nd ==> pullState in {PullPull2nd, PullTwoConv}
      ensures endpoint.Busy() ==>
                endpoint.StepsLeft() < old(endpoint.StepsLeft())
                || (endpoint.StepsLeft() == old(endpoint.StepsLeft()) && endpoint.pause < old(endpoint.pause))
      ensures Cur().rp == old(Cur().rp) || pullState in {PullPreload, PullOneConv}
      ensures Cur().wp == old(Cur().wp) || pullState in {PullPreload, PullOneConv}
      ensures endpoint.Log() == old(endpoint.Log())
    {
      hide Stream;
      hide DataReplies;
      hide ConverterOk;
      hide Converted;
      hide AnswersFit;
      var done := endpoint.Step();
      if done {
        OnPull();
      }
    }

    /** Wait as long as the given pull is outstanding. */
    method AwaitPull(pull: PullState)
      requires writetype == ReadOnly && Valid() && pull in {PullPreload, PullPull2nd}
      modifies this`pullState, recorder, endpoint, buf0, buf1, buf0.buffer, buf1.buffer
      ensures Valid() && Remaining() == old(Remaining()) && endpoint.asked == old(endpoint.asked)
      ensures pullState == if old(pullState) == pull then (if pull == PullPreload then PullOneConv else PullTwoConv)
                           else old(pullState)
      ensures pullState == PullOneConv || (Cur().rp == old(Cur().rp) && Cur().wp == old(Cur().wp))
      ensures endpoint.Log() == old(endpoint.Log())
    {
      while pullState == pull
        invariant Valid() && Remaining() == old(Remaining()) && endpoint.asked == old(endpoint.asked)
        invariant pullState == old(pullState)
                  || (old(pullState) == pull && pullState == if pull == PullPreload then PullOneConv else PullTwoConv)
        invariant pullState in {PullPreload, PullOneConv} || (Cur().rp == old(Cur().rp) && Cur().wp == old(Cur().wp))
        invariant pullState == old(pullState) != pull ==> Cur().rp == old(Cur().rp) && Cur().wp == old(Cur().wp)
        invariant endpoint.Log() == old(endpoint.Log())
        decreases endpoint.Busy(), endpoint.StepsLeft(), endpoint.pause
      {
        DelayReader();
      }
    }

    /** Any number of delays: inside a submit, or between two calls. */
    method DawdleReader(times: nat)
      requires writetype == ReadOnly && Valid()
      modifies this`pullState, recorder, endpoint, buf0, buf1, buf0.buffer, buf1.buffer
      ensures Valid() && Remaining() == old(Remaining()) && endpoint.asked == old(endpoint.asked)
      ensures old(pullState) == PullPreload ==> pullState in {PullPreload, PullOneConv}
      ensures old(pullState) == PullPull2nd ==> pullState in {PullPull2nd, PullTwoConv}
      ensures old(pullState) !in {PullPreload, PullPull2nd} ==> pullState == old(pullState)
      ensures Cur().rp == old(Cur().rp) || pullState in {PullPreload, PullOneConv}
      ensures Cur().wp == old(Cur().wp) || pullState in {PullPreload, PullOneConv}
      ensures endpoint.Log() == old(endpoint.Log())
    {
      for i := 0 to times
        invariant Valid() && Remaining() == old(Remaining()) && endpoint.asked == old(endpoint.asked)
        invariant old(pullState) == PullPreload ==> pullState in {PullPreload, PullOneConv}
        invariant old(pullState) == PullPull2nd ==> pullState in {PullPull2nd, PullTwoConv}
        invariant old(pullState) !in {PullPreload, PullPull2nd} ==> pullState == old(pullState)
        invariant Cur().rp == old(Cur().rp) || pullState in {PullPreload, PullOneConv}
        invariant Cur().wp == old(Cur().wp) || pullState in {PullPreload, PullOneConv}
        invariant endpoint.Log() == old(endpoint.Log())
      {
        DelayReader();
      }
    }

    /** Pull a packet from the server into the given slot. */
    method Pull(slot: nat, sync: bool)
      requires writetype == ReadOnly && Valid() && slot < 2
      requires (pullState == PullOpen && slot == current)
               || (pullState == PullOneRead && slot == 1 - current && !Cur().IsLast())
      modifies this`pullState, recorder, endpoint, buf0, buf1, buf0.buffer, buf1.buffer
      ensures Valid() && Remaining() == old(Remaining()) && endpoint.asked == old(endpoint.asked) + 1
      ensures old(pullState) == PullOpen ==>
                pullState in {PullPreload, PullOneConv} && (sync ==> pullState == PullOneConv)
      ensures old(pullState) == PullOneRead ==>
                pullState in {PullPull2nd, PullTwoConv} && Cur().rp == old(Cur().rp) && Cur().wp == old(Cur().wp)
      ensures endpoint.Log() == old(endpoint.Log()) + [WirePacket(FS_READ, channelNo, [])]
    {
      hide Stream;
      hide DataReplies;
      hide ConverterOk;
      hide Converted;
      hide AnswersFit;
      hide LawfulTrace;
      if pullState == PullOpen {
        SubmitPull(slot, PullPreload);
        DawdleReader(endpoint.env.submitDelays(endpoint.asked));
        if sync {
          AwaitPull(PullPreload);
        }
      } else {
        SubmitPull(slot, PullPull2nd);
        DawdleReader(endpoint.env.submitDelays(endpoint.asked));
        if sync {
          AwaitPull(PullPull2nd);
        }
      }
    }

    /** Hand an emptied packet over for the next reply. */
    method SubmitPull(slot: nat, next: PullState)
      requires writetype == ReadOnly && Valid() && slot < 2
      requires (pullState == PullOpen && slot == current && next == PullPreload)
               || (pullState == PullOneRead && slot == 1 - current && !Cur().IsLast() && next == PullPull2nd)
      modifies this`pullState, endpoint, Buf(slot)
      ensures Valid() && pullState == next && Remaining() == old(Remaining()) && endpoint.asked == old(endpoint.asked) + 1
      ensures slot != current ==> Cur().rp == old(Cur().rp) && Cur().wp == old(Cur().wp)
      ensures endpoint.Log() == old(endpoint.Log()) + [WirePacket(FS_READ, channelNo, [])]
    {
      hide Stream;
      hide DataReplies;
      hide ConverterOk;
      hide Converted;
      hide AnswersFit;
      hide LawfulTrace;
      assert pullState == PullOneRead ==> Reading(Cur(), endpoint.asked - 1);
      ReplyOk(endpoint.env.answers, count, endpoint.asked);
      assert endpoint.asked < count;
      var p := Buf(slot);
      p.SetFilled(channelNo, FS_READ, 0);
      assert p.Content() == [];
      pullState := next;
      endpoint.Submit(p, PullCallback);
    }

    /** Run the directory converter over a packet that has just been received. */
    method Convert(p: Packet)
      requires p.Valid() && p.rp == 0 && p.buffer.Length == DATA_BUFLEN
      requires 1 <= |Converted(converter, p.Content())| <= DATA_BUFLEN
      modifies p`wp, p.buffer
      ensures p.Valid() && p.Content() == Converted(converter, old(p.Content())) && 1 <= p.wp
    {
      if converter.Some? {
        var result := converter.value(p.buffer[..p.wp]);
        for i := 0 to |result|
          invariant p.buffer[..i] == result[..i]
        {
          p.buffer[i] := result[i];
        }
        p.wp := |result|;
        assert p.Content() == result;
      }
    }

    /** Make sure that a packet is there to read from, and convert what has come in. 0: data, -1: none. */
    method Preload() returns (rc: int)
      requires Valid()
      modifies this`current, this`pullState, recorder, endpoint, buf0, buf1, buf0.buffer, buf1.buffer
      ensures Valid() && rc == (if writetype == WriteOnly then -1 else 0)
      ensures writetype == ReadOnly ==> Remaining() == old(Remaining()) && Settled() == old(Settled())
      ensures writetype == ReadOnly ==> pullState in {PullOneRead, PullPull2nd, PullTwoRead}
    {
      hide Stream;
      hide DataReplies;
      hide ConverterOk;
      hide Converted;
      hide AnswersFit;
      hide LawfulTrace;
      if writetype == WriteOnly {
        return -1;
      }
      FirstPacket();
      ConvertReceived();
      rc := 0;
    }

    /** The first packet has been asked for, and has come in. */
    method FirstPacket()
      requires writetype == ReadOnly && Valid()
      modifies this`current, this`pullState, recorder, endpoint, buf0, buf1, buf0.buffer, buf1.buffer
      ensures Valid() && Remaining() == old(Remaining()) && Settled() == old(Settled())
      ensures pullState !in {PullOpen, PullPreload}
    {
      hide Stream;
      hide DataReplies;
      hide ConverterOk;
      hide Converted;
      hide AnswersFit;
      hide LawfulTrace;
      if pullState == PullOpen {
        PullFirst();
      }
      AwaitPull(PullPreload);
    }

    method ConvertReceived()
      requires writetype == ReadOnly && Valid() && pullState !in {PullOpen, PullPreload}
      modifies this`pullState, buf0, buf1, buf0.buffer, buf1.buffer
      ensures Valid() && Remaining() == old(Remaining()) && Settled() == old(Settled())
      ensures pullState in {PullOneRead, PullPull2nd, PullTwoRead}
    {
      if pullState == PullOneConv {
        ConvertFirst();
      }
      if pullState == PullTwoConv {
        ConvertSecond();
      }
    }

    method PullFirst()
      requires writetype == ReadOnly && Valid() && pullState == PullOpen
      modifies this`current, this`pullState, recorder, endpoint, buf0, buf1, buf0.buffer, buf1.buffer
      ensures Valid() && pullState == PullOneConv && Remaining() == old(Remaining())
    {
      current := 0;
      Pull(current, true);
    }

    /** The first packet has been received. */
    method ConvertFirst()
      requires writetype == ReadOnly && Valid() && pullState == PullOneConv
      modifies this`pullState, Cur()`wp, Cur().buffer
      ensures Valid() && pullState == PullOneRead && Remaining() == old(Remaining()) && Settled()
    {
      hide Stream;
      hide DataReplies;
      hide ConverterOk;
      hide Converted;
      hide AnswersFit;
      hide LawfulTrace;
      ReplyOk(endpoint.env.answers, count, 0);
      StreamStep(endpoint.env.answers, converter, count, 0);
      // so it is not a zero length packet, for which the channel would pull once more
      assert Cur().HasData();
      Convert(Cur());
      pullState := PullOneRead;
      assert Reading(Cur(), 0) && endpoint.asked == 1;
      assert Base();
      assert Cur().Unread() == Cur().Content();
    }

    /** A second packet has been received behind the one being read. */
    method ConvertSecond()
      requires writetype == ReadOnly && Valid() && pullState == PullTwoConv
      modifies this`pullState, Other()`wp, Other().buffer
      ensures Valid() && pullState == PullTwoRead && Remaining() == old(Remaining()) && Settled() == old(Settled())
      ensures Cur().rp == old(Cur().rp) && Cur().wp == old(Cur().wp)
    {
      hide Stream;
      hide DataReplies;
      hide ConverterOk;
      hide Converted;
      hide AnswersFit;
      hide LawfulTrace;
      ReplyOk(endpoint.env.answers, count, endpoint.asked - 1);
      StreamStep(endpoint.env.answers, converter, count, endpoint.asked - 1);
      assert Other().HasData();
      Convert(Other());
      pullState := PullTwoRead;
    }

    /** A packet is there to read from; the pull of the next one may be anywhere. */
    ghost predicate HasPacket()
      reads this
    {
      pullState in {PullOneRead, PullPull2nd, PullTwoConv, PullTwoRead}
    }

    /** What the current packet's read pointer shows, in terms of the stream. */
    lemma {:induction false} Head()
      requires writetype == ReadOnly && Valid() && Settled() && HasPacket() && Remaining() != []
      ensures Cur().rp < Cur().wp && Cur().buffer[Cur().rp] == Remaining()[0]
      ensures Cur().CurrentIsEof() <==> |Remaining()| == 1
      ensures Cur().Unread() != []
    {
      var a := endpoint.asked;
      var k := if pullState == PullOneRead then a - 1 else a - 2;
      hide DataReplies;
      hide ConverterOk;
      hide Converted;
      hide AnswersFit;
      hide LawfulTrace;
      ReplyOk(endpoint.env.answers, count, k);
      assert Cur().IsLast() <==> k == count - 1;
      if k + 1 < count {
        StreamStep(endpoint.env.answers, converter, count, k + 1);
      }
      assert |Remaining()| == |Cur().Unread()| + |Stream(endpoint.env.answers, converter, count, k + 1)|;
    }

    method CurrentByte() returns (data: byte, iseof: bool)
      requires writetype == ReadOnly && Valid() && Settled() && Remaining() != []
      modifies this`current, this`pullState, recorder, endpoint, buf0, buf1, buf0.buffer, buf1.buffer
      ensures Valid() && Settled() && Remaining() == old(Remaining())
      ensures data == Remaining()[0] && (iseof <==> |Remaining()| == 1)
    {
      var _ := Preload();
      Head();
      iseof := Cur().CurrentIsEof();
      data := Cur().buffer[Cur().rp];
    }

    /** Go to the next byte; pulls the next packet in the background. */
    method Next(sync: bool)
      requires writetype == ReadOnly && Valid() && Settled() && Remaining() != []
      modifies this`current, this`pullState, recorder, endpoint, buf0, buf1, buf0.buffer, buf1.buffer
      ensures Valid() && Settled() && Remaining() == old(Remaining())[1..]
    {
      var _ := Preload();
      if pullState == PullOneRead && !Cur().IsLast() {
        Pull(1 - current, sync);
      }
      Head();
      var more := Advance();
      if !more {
        Refill(sync);
      }
    }

    method Advance() returns (more: bool)
      requires writetype == ReadOnly && Valid() && HasPacket() && Cur().rp < Cur().wp
      modifies Cur()`rp
      ensures Valid() && Remaining() == old(Remaining())[1..]
      ensures more == (Cur().rp < Cur().wp)
    {
      hide Stream;
      hide DataReplies;
      hide ConverterOk;
      hide Converted;
      hide AnswersFit;
      hide LawfulTrace;
      var p := Cur();
      ghost var unread := p.Unread();
      more := p.Next();
      assert Base();
      assert p.Unread() == unread[1..];
      assert p.Unread() + Beyond() == (unread + Beyond())[1..];
    }

    /** The current packet has been read to its end: go on with the other one, if there is one. */
    method Refill(sync: bool)
      requires writetype == ReadOnly && Valid() && HasPacket() && Cur().rp == Cur().wp
      requires pullState == PullOneRead ==> Cur().IsLast()
      modifies this`current, this`pullState, recorder, endpoint, buf0, buf1, buf0.buffer, buf1.buffer
      ensures Valid() && Settled() && Remaining() == old(Remaining())
    {
      if !Cur().IsLast() {
        AwaitPull(PullPull2nd);
        if pullState == PullTwoConv {
          ConvertSecond();
        }
        if Other().HasData() {
          Switch();
          if !Cur().IsLast() {
            Pull(1 - current, sync);
          }
        }
      }
    }

    method Switch()
      requires writetype == ReadOnly && Valid() && pullState == PullTwoRead && Cur().rp == Cur().wp && Other().HasData()
      modifies this`current, this`pullState
      ensures Valid() && pullState == PullOneRead && Settled() && Remaining() == old(Remaining())
    {
      hide Stream;
      hide DataReplies;
      hide ConverterOk;
      hide Converted;
      hide AnswersFit;
      hide LawfulTrace;
      StreamStep(endpoint.env.answers, converter, count, endpoint.asked - 1);
      assert Cur().Unread() == [];
      assert Other().Unread() == Other().Content();
      current := 1 - current;
      pullState := PullOneRead;
    }

    /**
     channel_get. With preload set the byte stays the current one. Not to be called any more once
     the end of the stream has been returned.
     */
    method Get(preload: bool, sync: bool) returns (rc: int, data: byte, iseof: bool)
      requires Valid() && (writetype == ReadOnly ==> Settled() && Remaining() != [])
      modifies this`current, this`pullState, recorder, endpoint, buf0, buf1, buf0.buffer, buf1.buffer
      ensures Valid() && rc == (if writetype == WriteOnly then -1 else 0)
      ensures writetype == ReadOnly ==>
                && Settled() && data == old(Remaining())[0] && (iseof <==> |old(Remaining())| == 1)
                && Remaining() == (if preload then old(Remaining()) else old(Remaining())[1..])
    {
      data, iseof := 0, false;
      rc := Preload();
      if rc < 0 {
        return;
      }
      data, iseof := CurrentByte();
      if !preload {
        Next(sync);
      }
    }

    // -------------------------------------------------------------------------------------
    // Writing

    /** What a writer's delay may find: while it submits, the packet in flight is the one it has just filled. */
    ghost predicate WriterDelay(phase: Phase)
      requires Base()
      reads Repr(), recorder
    {
      && writetype == WriteOnly && WriterCore()
      && phase in {FillDelay, SubmitDelay}
      && (phase == SubmitDelay ==> pushState in {PushFillTwo, PushFillOne})
      && (endpoint.Busy() ==> endpoint.packet == if phase == SubmitDelay then Cur() else Other())
    }

    /** delayms for a writer. */
    method DelayWriter(ghost phase: Phase)
      requires Base() && WriterDelay(phase)
      modifies this`pushState, recorder, endpoint, buf0, buf1, buf0.buffer, buf1.buffer
      ensures Base() && WriterDelay(phase)
      ensures endpoint.Log() == old(endpoint.Log()) && endpoint.packet == old(endpoint.packet)
      ensures old(pushState) == PushFillTwo ==> pushState in {PushFillTwo, PushFillOne}
      ensures old(pushState) != PushFillTwo ==> pushState == old(pushState)
      ensures old(endpoint.Busy()) && endpoint.packet == buf0 ==> unchanged(buf1, buf1.buffer)
      ensures old(endpoint.Busy()) && endpoint.packet == buf1 ==> unchanged(buf0, buf0.buffer)
      ensures !old(endpoint.Busy()) ==> unchanged(buf0, buf0.buffer, buf1, buf1.buffer)
      ensures endpoint.Busy() ==>
                endpoint.StepsLeft() < old(endpoint.StepsLeft())
                || (endpoint.StepsLeft() == old(endpoint.StepsLeft()) && endpoint.pause < old(endpoint.pause))
    {
      hide AnswersFit;
      hide LawfulTrace;
      Record(phase);
      if endpoint.Busy() {
        var done := endpoint.Step();
        if done {
          OnPush();
        }
      }
    }

    method DawdleWriter(times: nat, ghost phase: Phase)
      requires Base() && WriterDelay(phase)
      modifies this`pushState, recorder, endpoint, buf0, buf1, buf0.buffer, buf1.buffer
      ensures Base() && WriterDelay(phase)
      ensures endpoint.Log() == old(endpoint.Log()) && endpoint.packet == old(endpoint.packet)
      ensures old(pushState) == PushFillTwo ==> pushState in {PushFillTwo, PushFillOne}
      ensures old(pushState) != PushFillTwo ==> pushState == old(pushState)
      ensures old(endpoint.Busy()) && endpoint.packet == buf0 ==> unchanged(buf1, buf1.buffer)
      ensures old(endpoint.Busy()) && endpoint.packet == buf1 ==> unchanged(buf0, buf0.buffer)
      ensures !old(endpoint.Busy()) ==> unchanged(buf0, buf0.buffer, buf1, buf1.buffer)
    {
      hide AnswersFit;
      hide LawfulTrace;
      for i := 0 to times
        invariant Base() && WriterDelay(phase)
        invariant endpoint.Log() == old(endpoint.Log()) && endpoint.packet == old(endpoint.packet)
        invariant old(pushState) == PushFillTwo ==> pushState in {PushFillTwo, PushFillOne}
        invariant old(pushState) != PushFillTwo ==> pushState == old(pushState)
        invariant old(endpoint.Busy()) && endpoint.packet == buf0 ==> unchanged(buf1, buf1.buffer)
        invariant old(endpoint.Busy()) && endpoint.packet == buf1 ==> unchanged(buf0, buf0.buffer)
        invariant !old(endpoint.Busy()) ==> unchanged(buf0, buf0.buffer, buf1, buf1.buffer)
      {
        DelayWriter(phase);
      }
    }

    /** Wait until the packet in flight has been answered. */
    method AwaitPush()
      requires Base() && WriterDelay(FillDelay)
      modifies this`pushState, recorder, endpoint, buf0, buf1, buf0.buffer, buf1.buffer
      ensures Base() && WriterDelay(FillDelay)
      ensures endpoint.Log() == old(endpoint.Log()) && endpoint.packet == old(endpoint.packet)
      ensures pushState == if old(pushState) == PushFillTwo then PushFillOne else old(pushState)
      ensures old(endpoint.Busy()) && endpoint.packet == buf0 ==> unchanged(buf1, buf1.buffer)
      ensures old(endpoint.Busy()) && endpoint.packet == buf1 ==> unchanged(buf0, buf0.buffer)
      ensures !old(endpoint.Busy()) ==> unchanged(buf0, buf0.buffer, buf1, buf1.buffer)
    {
      hide AnswersFit;
      hide LawfulTrace;
      while pushState == PushFillTwo
        invariant Base() && WriterDelay(FillDelay)
        invariant endpoint.Log() == old(endpoint.Log()) && endpoint.packet == old(endpoint.packet)
        invariant old(pushState) == PushFillTwo ==> pushState in {PushFillTwo, PushFillOne}
        invariant old(pushState) != PushFillTwo ==> pushState == old(pushState)
        invariant old(endpoint.Busy()) && endpoint.packet == buf0 ==> unchanged(buf1, buf1.buffer)
        invariant old(endpoint.Busy()) && endpoint.packet == buf1 ==> unchanged(buf0, buf0.buffer)
        invariant !old(endpoint.Busy()) ==> unchanged(buf0, buf0.buffer, buf1, buf1.buffer)
        decreases endpoint.Busy(), endpoint.StepsLeft(), endpoint.pause
      {
        DelayWriter(FillDelay);
      }
    }

    /** Send off the packet being filled and go on with the other one. */
    method WriteFlush(eof: bool, sync: bool)
      requires Base() && WriterDelay(FillDelay) && pushState in {PushFillOne, PushFillTwo}
      requires Cur().chan == channelNo && Cur().rp == 0
      modifies this`current, this`pushState, recorder, endpoint, buf0, buf1, buf0.buffer, buf1.buffer
      ensures Base() && WriterValid() && Pending() == []
      ensures endpoint.Log() == old(endpoint.Log()) + Flushed(channelNo, eof, old(Pending()))
      ensures sync ==> !endpoint.Busy()
    {
      hide AnswersFit;
      hide LawfulTrace;
      ghost var pending := Pending();
      Cur().SetFilled(channelNo, if eof then FS_WRITE_EOF else FS_WRITE, Cur().wp);
      AwaitPush();
      assert Pending() == pending;
      if Cur().wp != 0 {
        Ship();
      }
      assert endpoint.Log() == old(endpoint.Log()) + Flushed(channelNo, eof, pending);
      SwitchBuffers();
      if sync {
        AwaitPush();
      }
    }

    /** Submit the packet just filled; nothing else is in flight. */
    method Ship()
      requires Base() && WriterDelay(FillDelay) && pushState == PushFillOne && Cur().rp == 0
      modifies this`pushState, recorder, endpoint, buf0, buf1, buf0.buffer, buf1.buffer
      ensures Base() && WriterCore() && (endpoint.Busy() ==> endpoint.packet == Cur())
      ensures pushState in {PushFillTwo, PushOpen}
      ensures endpoint.Log() == old(endpoint.Log()) + [WirePacket(old(Cur().ptype), old(Cur().chan), old(Pending()))]
    {
      hide AnswersFit;
      hide LawfulTrace;
      pushState := PushFillTwo;
      SubmitPush();
      if pushState == PushFillOne {
        // the callback has been called already
        pushState := PushOpen;
      }
    }

    method SwitchBuffers()
      requires Base() && WriterCore() && (endpoint.Busy() ==> endpoint.packet == Cur())
      modifies this`current, Other()
      ensures Base() && WriterValid() && Pending() == [] && pushState == old(pushState)
    {
      hide AnswersFit;
      hide LawfulTrace;
      current := 1 - current;
      Cur().Reset(channelNo);
    }

    method SubmitPush()
      requires Base() && Traced() && writetype == WriteOnly && Cur().rp == 0
      requires pullState == PullOpen && pushState == PushFillTwo && !endpoint.Busy()
      modifies this`pushState, recorder, endpoint, buf0, buf1, buf0.buffer, buf1.buffer
      ensures Base() && WriterCore() && pushState in {PushFillTwo, PushFillOne} && endpoint.packet == Cur()
      ensures endpoint.Log() == old(endpoint.Log()) + [WirePacket(old(Cur().ptype), old(Cur().chan), old(Pending()))]
      ensures unchanged(Other(), Other().buffer)
    {
      endpoint.Submit(Cur(), PushCallback);
      DawdleWriter(endpoint.env.submitDelays(endpoint.asked), SubmitDelay);
    }

    /** channel_put */
    method Put(c: byte, flush: bool, sync: bool)
      requires writetype == WriteOnly && Valid()
      modifies this`current, this`pushState, this`hadData, recorder, endpoint, buf0, buf1, buf0.buffer, buf1.buffer
      ensures Valid() && hadData
      ensures Written(endpoint.Log(), Pending())
           == AfterPut(channelNo, Written(old(endpoint.Log()), old(Pending())), c, flush)
      ensures flush && sync ==> !endpoint.Busy()
    {
      hide AnswersFit;
      hide LawfulTrace;
      hadData := true;
      if pushState == PushOpen {
        pushState := PushFillOne;
        Cur().Reset(channelNo);
      }
      ghost var pending := Pending();
      Cur().WriteChar(c);
      assert Pending() == pending + [c];
      if Cur().IsFull() || flush {
        WriteFlush(flush, sync);
      }
    }

    /** channel_flush_int: submit what is left, and wait until nothing is in flight any more. */
    method Flush()
      requires Valid()
      modifies this`current, this`pullState, this`pushState, recorder, endpoint, buf0, buf1, buf0.buffer, buf1.buffer
      ensures Base() && Traced() && !endpoint.Busy() && pullState == PullOpen && pushState in {PushOpen, PushFillOne}
      ensures endpoint.Log() == old(endpoint.Log())
                              + (if writetype == WriteOnly then Flushed(channelNo, false, old(Pending())) else [])
      ensures writetype == WriteOnly ==> Valid() && Pending() == []
    {
      hide ReaderValid;
      hide Remaining;
      hide AnswersFit;
      hide LawfulTrace;
      hide Stream;
      hide DataReplies;
      hide ConverterOk;
      if writetype == ReadOnly {
        ReaderLawful();
      }
      if pushState != PushOpen {
        WriteFlush(false, true);
      }
      if writetype == ReadOnly {
        AwaitPull(PullPreload);
        AwaitPull(PullPull2nd);
        ReaderLawful();
      }
      pullState := PullOpen;
    }

    method OnClose()
      modifies this`pushState
      ensures pushState == PushClose
    {
      pushState := PushClose;
    }

    ghost predicate Closing()
      requires Base()
      reads Repr(), recorder
    {
      && Traced()
      && if pushState == PushClose then !endpoint.Busy()
         else endpoint.Busy() && endpoint.packet == Cur() && endpoint.callback == CloseCallback
    }

    /** delayms while the close request is outstanding. */
    method DelayClose()
      requires Base() && Closing()
      modifies this`pushState, recorder, endpoint, buf0, buf1, buf0.buffer, buf1.buffer
      ensures Base() && Closing() && endpoint.Log() == old(endpoint.Log())
      ensures endpoint.Busy() ==>
                endpoint.StepsLeft() < old(endpoint.StepsLeft())
                || (endpoint.StepsLeft() == old(endpoint.StepsLeft()) && endpoint.pause < old(endpoint.pause))
    {
      hide AnswersFit;
      hide LawfulTrace;
      Record(CloseDelay);
      if endpoint.Busy() {
        var done := endpoint.Step();
        if done {
          OnClose();
        }
      }
    }

    /** channel_close. A writer that was given no byte writes a carriage return first. */
    method Close()
      requires Valid()
      modifies this, recorder, endpoint, buf0, buf1, buf0.buffer, buf1.buffer
      ensures Traced() && !endpoint.Busy() && endpoint.sent == endpoint.Log()
      ensures writetype == WriteOnly ==>
                endpoint.sent == AfterClose(channelNo, Written(old(endpoint.Log()), old(Pending())), old(hadData))
      ensures writetype == ReadOnly ==> endpoint.sent == old(endpoint.Log()) + [WirePacket(FS_CLOSE, channelNo, [])]
    {
      hide AnswersFit;
      hide LawfulTrace;
      hide Stream;
      hide DataReplies;
      hide ConverterOk;
      if writetype == WriteOnly && !hadData {
        Put(0x0d, false, false);
      }
      Flush();
      SubmitClose();
      // channel_close_int
      pullState, pushState, hadData := PullOpen, PushOpen, false;
      buf0.Reset(-3);
      buf1.Reset(-3);
    }

    method SubmitClose()
      requires Base() && Traced() && !endpoint.Busy() && pushState != PushClose
      modifies this`pushState, recorder, endpoint, buf0, buf1, buf0.buffer, buf1.buffer
      ensures Base() && Traced() && !endpoint.Busy()
      ensures endpoint.Log() == old(endpoint.Log()) + [WirePacket(FS_CLOSE, channelNo, [])]
    {
      Cur().SetFilled(channelNo, FS_CLOSE, 0);
      endpoint.Submit(Cur(), CloseCallback);
      for i := 0 to endpoint.env.submitDelays(endpoint.asked)
        invariant Base() && Closing()
        invariant endpoint.Log() == old(endpoint.Log()) + [WirePacket(FS_CLOSE, channelNo, [])]
      {
        DelayClose();
      }
      while pushState != PushClose
        invariant Base() && Closing()
        invariant endpoint.Log() == old(endpoint.Log()) + [WirePacket(FS_CLOSE, channelNo, [])]
        decreases endpoint.Busy(), endpoint.StepsLeft(), endpoint.pause
      {
        DelayClose();
      }
    }
  }

  // ---------------------------------------------------------------------------------------
  // What the calls mean, whatever the environment does

  /** The packets submitted so far, and the bytes put since. */
  datatype Written = Written(log: seq<WirePacket>, pending: seq<byte>)

  /** The packets, none or one, that a flush makes of the bytes put since the last one. */
  function Flushed(channelNo: int, eof: bool, pending: seq<byte>): seq<WirePacket> {
    if pending == [] then [] else [WirePacket(if eof then FS_WRITE_EOF else FS_WRITE, channelNo, pending)]
  }

  function AfterPut(channelNo: int, w: Written, c: byte, flush: bool): Written {
    var pending := w.pending + [c];
    if |pending| == DATA_BUFLEN || flush then Written(w.log + Flushed(channelNo, flush, pending), [])
    else Written(w.log, pending)
  }

  function AfterFlush(channelNo: int, w: Written): Written {
    Written(w.log + Flushed(channelNo, false, w.pending), [])
  }

  function AfterClose(channelNo: int, w: Written, hadData: bool): seq<WirePacket> {
    AfterFlush(channelNo, if hadData then w else AfterPut(channelNo, w, 0x0d, false)).log
    + [WirePacket(FS_CLOSE, channelNo, [])]
  }
}
