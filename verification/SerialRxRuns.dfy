/**
 Whole runs of the firmware's receiver: any bytes, with requests looking for a slot and filling it
 anywhere between two of them (firmware/serial.c, push_data_to_packet and serial_submit_call_data).
 */
module SerialReceiveRuns {
  import opened Wire
  import opened Packets
  import opened SerialReceive

  type ChannelNo = c: int | 0 <= c < 128

  /** A channel's request for a reply: the capacity of its packet, and its callback. */
  datatype Request = Request(channelno: ChannelNo, capacity: byte, callback: Callback)

  function SlotOf(r: Request): SlotView {
    SlotView(r.channelno, Some(r.capacity), r.callback)
  }

  /** A byte comes in; a request looks for a slot; the slot it has found, if any, is filled. */
  datatype Event = Push(b: byte) | Look(request: Request) | Fill

  datatype Found = Found(request: Request, pos: nat)

  datatype RunState = RunState(rx: RxView, found: Option<Found>)

  function Step(s: RunState, e: Event): RunState {
    match e
    case Push(b) => s.(rx := Next(s.rx, b))
    case Look(r) =>
      var i := Choice(s.rx.slots, r.channelno);
      s.(found := if i < |s.rx.slots| then Some(Found(r, i)) else None)
    case Fill =>
      if s.found.None? || s.found.value.pos >= |s.rx.slots| then s
      else RunState(s.rx.(slots := s.rx.slots[s.found.value.pos := SlotOf(s.found.value.request)]), None)
  }

  function Steps(s: RunState, events: seq<Event>): RunState {
    if events == [] then s else Step(Steps(s, events[..|events| - 1]), events[|events| - 1])
  }

  function Start(): RunState {
    RunState(RxView([], None, seq(NUMBER_OF_SLOTS, _ => SlotView(-1, None, Callback(0, false))), [], 0, false), None)
  }

  /** The receiver goes through any run as the steps say; every byte and every request is taken. */
  method ReceiveRun(events: seq<Event>) returns (calls: seq<Call>, ghost view: RxView)
    ensures calls == Steps(Start(), events).rx.calls && view == Steps(Start(), events).rx
  {
    hide Next;
    hide Choice;
    hide Steps;
    NoSteps(Start());
    var r := new Receiver();
    var wanted := Request(0, 0, Callback(0, false));
    var pos := -1;
    for k := 0 to |events|
      invariant fresh(r) && fresh(r.rxChannels) && fresh(r.packets) && fresh(r.Buffers())
      invariant r.Valid() && -1 <= pos < NUMBER_OF_SLOTS
      invariant RunState(r.View(), if pos < 0 then None else Some(Found(wanted, pos))) == Steps(Start(), events[..k])
    {
      StepsNext(events, k);
      match events[k] {
        case Push(b) =>
          r.PushData(b);
        case Look(request) =>
          wanted := request;
          pos := r.Look(wanted.channelno);
        case Fill =>
          if pos >= 0 {
            var p := new Packet(wanted.capacity);
            r.Register(pos, wanted.channelno, p, wanted.callback);
            pos := -1;
          }
      }
    }
    assert events[..|events|] == events;
    calls := r.calls;
    view := r.View();
  }

  lemma {:induction false} StepsNext(events: seq<Event>, k: nat)
    requires k < |events|
    ensures Steps(Start(), events[..k + 1]) == Step(Steps(Start(), events[..k]), events[k])
  {
    assert events[..k + 1][..k] == events[..k];
  }

  lemma {:induction false} StepsConcat(s: RunState, a: seq<Event>, b: seq<Event>)
    ensures Steps(s, a + b) == Steps(Steps(s, a), b)
    decreases |b|
  {
    if b == [] {
      assert a + b == a;
    } else {
      var c := b[..|b| - 1];
      assert (a + b)[..|a + b| - 1] == a + c;
      StepsConcat(s, a, c);
    }
  }

  // ---------------------------------------------------------------------------------------
  // Framing

  function Run(v: RxView, bytes: seq<byte>): RxView {
    if bytes == [] then v else Next(Run(v, bytes[..|bytes| - 1]), bytes[|bytes| - 1])
  }

  /** The receiver is between two frames behind f's last byte, and nowhere in between. */
  ghost predicate Followed(v: RxView, f: seq<byte>) {
    && (forall k :: 0 < k < |f| ==> Run(v, f[..k]).partial != [])
    && Run(v, f).partial == [] && !Run(v, f).fault
  }

  lemma {:induction false} Faulted(v: RxView, f: seq<byte>, m: nat)
    requires m <= |f| && Run(v, f[..m]).fault
    ensures Run(v, f).fault
    decreases |f|
  {
    assert f[..|f|] == f;
    if m < |f| {
      assert f[..|f| - 1][..m] == f[..m];
      Faulted(v, f[..|f| - 1], m);
    }
  }

  /** Up to the length that its length byte stands for, a frame is followed byte by byte; there it ends. */
  lemma {:induction false} FollowedTo(v: RxView, f: seq<byte>)
    requires v.partial == [] && !v.fault && |f| >= 3 && IsReplyType(f[FSP_CMD]) && !MeetsNothing(v.slots, f[FSP_FD])
    requires |f| <= FrameLen(f[FSP_LEN])
    ensures Run(v, f).partial == if |f| == FrameLen(f[FSP_LEN]) then [] else f
    ensures !Run(v, f).fault
    decreases |f|
  {
    hide MeetsNothing;
    hide Target;
    var g := f[..|f| - 1];
    assert g + [f[|f| - 1]] == f;
    if |f| == 3 {
      HeadRun(v, g);
    } else {
      FollowedTo(v, g);
    }
  }

  lemma {:induction false} HeadRun(v: RxView, f: seq<byte>)
    requires v.partial == [] && !v.fault && |f| == 2
    ensures Run(v, f[..1]) == Next(v, f[0])
    ensures IsReplyType(f[FSP_CMD]) ==> Run(v, f) == v.(partial := f, syncs := Run(v, f).syncs)
  {
    assert f[..1][..0] == [] && f[..1][0] == f[0];
    assert [f[0]] + [f[1]] == f;
  }

  /**
   Framing is kept by exactly the frames of a reply type whose length is 3 to 131, in agreement with
   their length byte, and whose channel byte meets no slot without a packet.
   */
  lemma {:induction false} FramingKept(v: RxView, f: seq<byte>)
    requires v.partial == [] && !v.fault && |f| >= 3
    ensures Followed(v, f)
            <==> IsReplyType(f[FSP_CMD]) && !MeetsNothing(v.slots, f[FSP_FD]) && |f| == FrameLen(f[FSP_LEN])
  {
    hide MeetsNothing;
    hide Target;
    hide Extended;
    assert f[..2][..1] == f[..1] && f[..3][..2] == f[..2];
    HeadRun(v, f[..2]);
    var n := FrameLen(f[FSP_LEN]);
    if !IsReplyType(f[FSP_CMD]) {
      assert Run(v, f[..1]).partial == [];
    } else if MeetsNothing(v.slots, f[FSP_FD]) {
      assert Run(v, f[..3]).fault;
      Faulted(v, f, 3);
    } else if n < |f| {
      FollowedTo(v, f[..n]);
    } else {
      FollowedTo(v, f);
      forall k | 0 < k < |f|
        ensures Run(v, f[..k]).partial != []
      {
        if k >= 3 {
          FollowedTo(v, f[..k]);
        }
      }
    }
  }

  // ---------------------------------------------------------------------------------------
  // A frame, with requests anywhere

  /** The bytes pushed. */
  function Pushes(events: seq<Event>): seq<byte> {
    if events == [] then []
    else Pushes(events[..|events| - 1]) + if events[|events| - 1].Push? then [events[|events| - 1].b] else []
  }

  /** A frame as the server sends it, of a length and type that the receiver follows, for a channel. */
  predicate ReplyFrame(f: seq<byte>) {
    3 <= |f| <= 131 && f[FSP_LEN] == |f| && IsReplyType(f[FSP_CMD]) && f[FSP_FD] < 128
  }

  /** What is the same in all runs: the slots' numbers, the slot found, and the slot of the current frame. */
  ghost predicate Consistent(s: RunState) {
    && |s.rx.slots| == NUMBER_OF_SLOTS
    && (forall k :: 0 <= k < NUMBER_OF_SLOTS ==>
          s.rx.slots[k].channelno >= -1 && (s.rx.slots[k].capacity.None? ==> s.rx.slots[k].channelno == -1))
    && (s.found.Some? ==>
          && s.found.value.pos < NUMBER_OF_SLOTS
          && var n := s.rx.slots[s.found.value.pos].channelno; n < 0 || n == s.found.value.request.channelno)
    && (s.rx.into.Some? ==>
          && 3 <= |s.rx.partial| < FrameLen(s.rx.partial[FSP_LEN]) && s.rx.into.value < NUMBER_OF_SLOTS
          && (s.rx.partial[FSP_FD] < 128 ==> s.rx.slots[s.rx.into.value].channelno == s.rx.partial[FSP_FD]))
  }

  /** So a request fills a free slot or the channel's own, whatever comes in between looking and filling. */
  lemma {:induction false} StaysConsistent(s: RunState, e: Event)
    requires Consistent(s)
    ensures Consistent(Step(s, e))
  {
    if e.Push? {
      PushConsistent(s, e.b);
    }
  }

  lemma {:induction false} PushConsistent(s: RunState, b: byte)
    requires Consistent(s)
    ensures Consistent(s.(rx := Next(s.rx, b)))
  {
    var frame := s.rx.partial + [b];
    if |frame| > 3 && s.rx.into.Some? {
      ExtendedConsistent(s, frame, s.rx.into);
    } else if |frame| == 3 {
      ExtendedConsistent(s, frame, Target(s.rx.slots, frame[FSP_LEN], b));
    }
  }

  lemma {:induction false} ExtendedConsistent(s: RunState, frame: seq<byte>, into: Option<nat>)
    requires Consistent(s) && 3 <= |frame| <= FrameLen(frame[FSP_LEN])
    requires into.Some? ==>
      into.value < NUMBER_OF_SLOTS && (frame[FSP_FD] < 128 ==> s.rx.slots[into.value].channelno == frame[FSP_FD])
    ensures Consistent(s.(rx := Extended(s.rx, frame, into)))
  {
  }

  lemma {:induction false} AllConsistent(s: RunState, events: seq<Event>)
    requires Consistent(s)
    ensures Consistent(Steps(s, events))
    decreases |events|
  {
    if events != [] {
      AllConsistent(s, events[..|events| - 1]);
      StaysConsistent(Steps(s, events[..|events| - 1]), events[|events| - 1]);
    }
  }

  /** Two bytes of a frame: nothing but the slots changes besides. */
  lemma {:induction false} HeadSteps(s: RunState, events: seq<Event>, f: seq<byte>)
    requires s.rx.partial == [] && !s.rx.fault && ReplyFrame(f)
    requires |Pushes(events)| <= 2 && Pushes(events) == f[..|Pushes(events)|]
    ensures var w := Steps(s, events).rx; w.partial == Pushes(events) && !w.fault && w.calls == s.rx.calls
    ensures Steps(s, events).rx.into == s.rx.into && Steps(s, events).rx.syncs == s.rx.syncs
    decreases |events|
  {
    if events != [] {
      var before, last := events[..|events| - 1], events[|events| - 1];
      if last.Push? {
        assert Pushes(before) == Pushes(events)[..|Pushes(before)|];
      }
      HeadSteps(s, before, f);
    }
  }

  /** The bytes behind a frame's head, up to its end. */
  lemma {:induction false} TailSteps(s: RunState, events: seq<Event>, f: seq<byte>)
    requires Consistent(s) && !s.rx.fault && ReplyFrame(f) && 3 < |f| && s.rx.partial == f[..3]
    requires |Pushes(events)| < |f| - 3 && Pushes(events) == f[3..3 + |Pushes(events)|]
    ensures var w := Steps(s, events).rx;
            && w.partial == f[..3 + |Pushes(events)|] && !w.fault && w.calls == s.rx.calls && w.into == s.rx.into
            && w.syncs == s.rx.syncs
    decreases |events|
  {
    if events != [] {
      var before, last := events[..|events| - 1], events[|events| - 1];
      if last.Push? {
        assert Pushes(before) == Pushes(events)[..|Pushes(before)|];
        assert f[..3 + |Pushes(before)|] + [last.b] == f[..3 + |Pushes(events)|];
      }
      TailSteps(s, before, f);
    }
  }

  lemma {:induction false} TailDone(s: RunState, events: seq<Event>, f: seq<byte>)
    requires Consistent(s) && !s.rx.fault && ReplyFrame(f) && 3 < |f| && s.rx.partial == f[..3]
    requires Pushes(events) == f[3..]
    ensures var w := Steps(s, events).rx;
            && w.partial == [] && w.into == None && !w.fault && w.syncs == s.rx.syncs
            && if s.rx.into.None? then w.calls == s.rx.calls
               else exists cb :: w.calls == s.rx.calls + [Call(cb, f[FSP_FD], f[FSP_CMD], f[FSP_DATA..])]
    decreases |events|
  {
    var before, last := events[..|events| - 1], events[|events| - 1];
    if last.Push? {
      assert Pushes(before) == f[3..|f| - 1];
      TailSteps(s, before, f);
      AllConsistent(s, before);
      var u := Steps(s, before).rx;
      assert u.partial + [last.b] == f;
      if u.into.Some? {
        assert Next(u, last.b).calls == u.calls + [Call(u.slots[u.into.value].callback, f[FSP_FD], f[FSP_CMD], f[FSP_DATA..])];
      }
    } else {
      TailDone(s, before, f);
    }
  }

  /**
   A whole frame, with requests looking for slots and filling them anywhere between its bytes: the
   slot that takes it when its channel byte comes in has one callback made, with exactly the payload;
   if none does, nothing happens. At the end the receiver is between two frames again.
   */
  lemma {:induction false} FrameDelivered(s: RunState, head: seq<Event>, tail: seq<Event>, f: seq<byte>)
    requires Consistent(s) && s.rx.partial == [] && !s.rx.fault && ReplyFrame(f)
    requires Pushes(head) == f[..2] && Pushes(tail) == f[3..]
    ensures var at := Steps(s, head).rx; var w := Steps(s, head + [Push(f[FSP_FD])] + tail).rx;
            && w.partial == [] && !w.fault && w.syncs == s.rx.syncs
            && if Target(at.slots, f[FSP_LEN], f[FSP_FD]).None? then w.calls == s.rx.calls
               else exists cb :: w.calls == s.rx.calls + [Call(cb, f[FSP_FD], f[FSP_CMD], f[FSP_DATA..])]
  {
    var third := Push(f[FSP_FD]);
    StepsConcat(s, head + [third], tail);
    assert Steps(s, head + [third]) == Step(Steps(s, head), third) by {
      assert (head + [third])[..|head|] == head;
    }
    hide Steps;
    hide Pushes;
    HeadSteps(s, head, f);
    AllConsistent(s, head);
    var u := Steps(s, head);
    StaysConsistent(u, third);
    ThirdByte(u, f);
    hide Next;
    hide Consistent;
    if |f| == 3 {
      EmptyTail(Step(u, third), tail);
    } else {
      TailDone(Step(u, third), tail, f);
    }
  }

  /** The channel byte of a frame. */
  lemma {:induction false} ThirdByte(s: RunState, f: seq<byte>)
    requires Consistent(s) && !s.rx.fault && ReplyFrame(f) && s.rx.partial == f[..2]
    ensures var into := Target(s.rx.slots, f[FSP_LEN], f[FSP_FD]); var w := Next(s.rx, f[FSP_FD]);
            && !w.fault && w.syncs == s.rx.syncs
            && (|f| > 3 ==> w.partial == f[..3] && w.into == into && w.calls == s.rx.calls)
            && (|f| == 3 ==>
                  && w.partial == []
                  && if into.None? then w.calls == s.rx.calls
                     else exists cb :: w.calls == s.rx.calls + [Call(cb, f[FSP_FD], f[FSP_CMD], f[FSP_DATA..])])
  {
    var frame := s.rx.partial + [f[FSP_FD]];
    assert frame == f[..3];
    var into := Target(s.rx.slots, f[FSP_LEN], f[FSP_FD]);
    assert !MeetsNothing(s.rx.slots, f[FSP_FD]);
    assert Next(s.rx, f[FSP_FD]) == Extended(s.rx, frame, into);
    if |f| == 3 && into.Some? {
      assert frame == f;
      assert Extended(s.rx, f, into).calls
          == s.rx.calls + [Call(s.rx.slots[into.value].callback, f[FSP_FD], f[FSP_CMD], f[FSP_DATA..])];
    }
  }

  lemma {:induction false} EmptyTail(s: RunState, events: seq<Event>)
    requires Pushes(events) == []
    ensures var w := Steps(s, events).rx;
            && w.partial == s.rx.partial && w.fault == s.rx.fault && w.calls == s.rx.calls && w.into == s.rx.into
            && w.syncs == s.rx.syncs
    decreases |events|
  {
    if events != [] {
      EmptyTail(s, events[..|events| - 1]);
    }
  }

  /** What is on the line: a frame, with any requests between its bytes, and what is between two frames. */
  datatype RxItem = Reply(frame: seq<byte>, head: seq<Event>, tail: seq<Event>) | Between(event: Event)

  predicate WellFormedItem(i: RxItem) {
    match i
    case Reply(f, head, tail) => ReplyFrame(f) && Pushes(head) == f[..2] && Pushes(tail) == f[3..]
    case Between(e) => e.Push? ==> !IsReplyType(e.b)
  }

  predicate WellFormed(items: seq<RxItem>) {
    forall k :: 0 <= k < |items| ==> WellFormedItem(items[k])
  }

  function EventsOf(items: seq<RxItem>): seq<Event>
    requires WellFormed(items)
  {
    if items == [] then []
    else
      var last := items[|items| - 1];
      EventsOf(items[..|items| - 1])
      + match last
        case Reply(f, head, tail) => assert WellFormedItem(last); head + [Push(f[FSP_FD])] + tail
        case Between(e) => [e]
  }

  /** A callback's reply, whoever has made the request. */
  datatype Answer = Answer(channelno: int, ptype: byte, payload: seq<byte>)

  function AnswersIn(calls: seq<Call>): seq<Answer> {
    if calls == [] then []
    else
      var c := calls[|calls| - 1];
      AnswersIn(calls[..|calls| - 1]) + [Answer(c.channelno, c.ptype, c.payload)]
  }

  function TakenBy(s: RunState, head: seq<Event>, f: seq<byte>): seq<Answer>
    requires |f| >= 3
  {
    if Target(Steps(s, head).rx.slots, f[FSP_LEN], f[FSP_FD]).None? then []
    else [Answer(f[FSP_FD], f[FSP_CMD], f[FSP_DATA..])]
  }

  /** The frames that some slot takes when their channel byte comes in, in order. */
  function Taken(s: RunState, items: seq<RxItem>): seq<Answer>
    requires WellFormed(items)
  {
    if items == [] then []
    else
      var before, last := items[..|items| - 1], items[|items| - 1];
      Taken(s, before)
      + match last
        case Between(_) => []
        case Reply(f, head, _) =>
          assert WellFormedItem(last);
          TakenBy(Steps(s, EventsOf(before)), head, f)
  }

  /** The FS_SYNC bytes between frames; a byte of this value inside a frame is not one. */
  function SyncsBetween(items: seq<RxItem>): nat {
    if items == [] then 0
    else SyncsBetween(items[..|items| - 1]) + if items[|items| - 1] == Between(Push(FS_SYNC)) then 1 else 0
  }

  /**
   Over whole runs: the callbacks are exactly those of the frames taken, each once and in order, and each
   FS_SYNC between frames, and nothing else, is mirrored.
   */
  lemma {:induction false} FramesInOrder(s: RunState, items: seq<RxItem>)
    requires Consistent(s) && s.rx.partial == [] && !s.rx.fault && WellFormed(items)
    ensures var w := Steps(s, EventsOf(items)).rx;
            && w.partial == [] && !w.fault && AnswersIn(w.calls) == AnswersIn(s.rx.calls) + Taken(s, items)
            && w.syncs == s.rx.syncs + SyncsBetween(items)
    decreases |items|
  {
    hide Steps;
    hide Step;
    hide Consistent;
    hide Pushes;
    if items == [] {
      NoSteps(s);
    } else {
      var before, last := items[..|items| - 1], items[|items| - 1];
      FramesInOrder(s, before);
      AllConsistent(s, EventsOf(before));
      var u := Steps(s, EventsOf(before));
      assert WellFormedItem(last);
      match last {
        case Between(e) =>
          StepsConcat(s, EventsOf(before), [e]);
          StepBetween(u, e);
        case Reply(f, head, tail) =>
          StepsConcat(s, EventsOf(before), head + [Push(f[FSP_FD])] + tail);
          FrameAnswered(u, head, tail, f);
          assert AnswersIn(s.rx.calls) + (Taken(s, before) + TakenBy(u, head, f))
              == (AnswersIn(s.rx.calls) + Taken(s, before)) + TakenBy(u, head, f);
      }
    }
  }

  lemma {:induction false} NoSteps(s: RunState)
    ensures Steps(s, []) == s
  {
  }

  lemma {:induction false} FrameAnswered(s: RunState, head: seq<Event>, tail: seq<Event>, f: seq<byte>)
    requires Consistent(s) && s.rx.partial == [] && !s.rx.fault && ReplyFrame(f)
    requires Pushes(head) == f[..2] && Pushes(tail) == f[3..]
    ensures var w := Steps(s, head + [Push(f[FSP_FD])] + tail).rx;
            && w.partial == [] && !w.fault && AnswersIn(w.calls) == AnswersIn(s.rx.calls) + TakenBy(s, head, f)
            && w.syncs == s.rx.syncs
  {
    FrameDelivered(s, head, tail, f);
    AppendAnswer(s.rx.calls);
  }

  lemma {:induction false} StepBetween(s: RunState, e: Event)
    requires s.rx.partial == [] && !s.rx.fault && (e.Push? ==> !IsReplyType(e.b))
    ensures var w := Steps(s, [e]).rx;
            && w.partial == [] && !w.fault && w.calls == s.rx.calls
            && w.syncs == s.rx.syncs + if e == Push(FS_SYNC) then 1 else 0
  {
    assert [e][..0] == [];
    assert Steps(s, [e]) == Step(s, e);
  }

  lemma {:induction false} AppendAnswer(calls: seq<Call>)
    ensures forall c: Call :: AnswersIn(calls + [c]) == AnswersIn(calls) + [Answer(c.channelno, c.ptype, c.payload)]
  {
    forall c: Call
      ensures AnswersIn(calls + [c]) == AnswersIn(calls) + [Answer(c.channelno, c.ptype, c.payload)]
    {
      assert (calls + [c])[..|calls|] == calls;
    }
  }

  // ---------------------------------------------------------------------------------------
  // A request and its reply

  /** Request r waits in slot i, the only one of its channel. */
  ghost predicate Waiting(s: RunState, r: Request, i: nat) {
    && Consistent(s) && i < NUMBER_OF_SLOTS && s.rx.slots[i] == SlotOf(r)
    && (forall k :: 0 <= k < NUMBER_OF_SLOTS && k != i ==> s.rx.slots[k].channelno != r.channelno)
    && (s.found.Some? ==> s.found.value.request.channelno != r.channelno)
    && (s.rx.into == Some(i) ==> s.rx.partial[FSP_FD] < 128)
  }

  /**
   Once a request has filled its slot it waits there, if its channel has no other one, and the slot is
   not just taking a frame for the channel byte 255.
   */
  lemma {:induction false} FillWaits(s: RunState)
    requires Consistent(s) && s.found.Some?
    requires var f := s.found.value;
             && (forall k :: 0 <= k < NUMBER_OF_SLOTS && k != f.pos ==> s.rx.slots[k].channelno != f.request.channelno)
             && (s.rx.into == Some(f.pos) ==> s.rx.partial[FSP_FD] < 128)
    ensures Waiting(Step(s, Fill), s.found.value.request, s.found.value.pos)
  {
  }

  ghost predicate NoLook(events: seq<Event>, channelno: int) {
    forall k :: 0 <= k < |events| && events[k].Look? ==> events[k].request.channelno != channelno
  }

  /** No call for the channel since the first n. */
  ghost predicate Uncalled(calls: seq<Call>, n: nat, channelno: int) {
    forall k :: n <= k < |calls| ==> calls[k].channelno != channelno
  }

  /** The first call for the channel since the first n goes to this callback. */
  ghost predicate CalledFirst(calls: seq<Call>, n: nat, r: Request) {
    exists k :: n <= k < |calls| && Uncalled(calls[..k], n, r.channelno)
                && calls[k].channelno == r.channelno && calls[k].callback == r.callback
  }

  /**
   Whatever comes in and whoever else makes requests: a request that waits goes on waiting until the
   first reply for its channel is delivered, and that reply goes to its own callback.
   */
  lemma {:induction false} RequestKept(s: RunState, events: seq<Event>, r: Request, i: nat)
    requires Waiting(s, r, i) && NoLook(events, r.channelno)
    ensures var w, n := Steps(s, events), |s.rx.calls|;
            && n <= |w.rx.calls|
            && ((Waiting(w, r, i) && Uncalled(w.rx.calls, n, r.channelno)) || CalledFirst(w.rx.calls, n, r))
    decreases |events|
  {
    if events != [] {
      var before, last := events[..|events| - 1], events[|events| - 1];
      RequestKept(s, before, r, i);
      var u, w, n := Steps(s, before), Steps(s, events), |s.rx.calls|;
      CallsGrow(u, last);
      if CalledFirst(u.rx.calls, n, r) {
        var k :| n <= k < |u.rx.calls| && Uncalled(u.rx.calls[..k], n, r.channelno)
                 && u.rx.calls[k].channelno == r.channelno && u.rx.calls[k].callback == r.callback;
        assert w.rx.calls[..k] == u.rx.calls[..k];
        assert w.rx.calls[k] == u.rx.calls[k];
      } else {
        StepWaits(u, last, r, i);
        if !Waiting(w, r, i) || |w.rx.calls| > |u.rx.calls| {
          var k := |u.rx.calls|;
          assert w.rx.calls[..k] == u.rx.calls;
        }
      }
    }
  }

  lemma {:induction false} CallsGrow(s: RunState, e: Event)
    ensures s.rx.calls <= Step(s, e).rx.calls
  {
  }

  lemma {:induction false} StepWaits(s: RunState, e: Event, r: Request, i: nat)
    requires Waiting(s, r, i) && (e.Look? ==> e.request.channelno != r.channelno)
    ensures var w, n := Step(s, e), |s.rx.calls|;
            || (w.rx.calls == s.rx.calls && Waiting(w, r, i))
            || (|w.rx.calls| == n + 1 && w.rx.calls[..n] == s.rx.calls
                && if w.rx.calls[n].channelno == r.channelno then w.rx.calls[n].callback == r.callback else Waiting(w, r, i))
  {
    StaysConsistent(s, e);
    hide Choice;
    if e.Push? {
      var frame := s.rx.partial + [e.b];
      if |frame| == 3 {
        assert Target(s.rx.slots, frame[FSP_LEN], e.b) == Some(i) ==> s.rx.slots[i].channelno == Signed(e.b);
      }
    }
  }

  /** The next frame for the channel of a waiting request, if its packet is large enough, is its reply. */
  lemma {:induction false} ReplyFinds(s: RunState, head: seq<Event>, tail: seq<Event>, f: seq<byte>, r: Request, i: nat)
    requires Waiting(s, r, i) && s.rx.partial == [] && !s.rx.fault && ReplyFrame(f) && f[FSP_FD] == r.channelno
    requires Pushes(head) == f[..2] && Pushes(tail) == f[3..] && NoLook(head, r.channelno) && NoLook(tail, r.channelno)
    ensures var w := Steps(s, head + [Push(f[FSP_FD])] + tail).rx;
            w.calls == if |f| - 3 <= r.capacity then s.rx.calls + [Call(r.callback, r.channelno, f[FSP_CMD], f[FSP_DATA..])]
                       else s.rx.calls
  {
    hide Steps, Step, Pushes;
    var events, n := head + [Push(f[FSP_FD])] + tail, |s.rx.calls|;
    FrameDelivered(s, head, tail, f);
    HeadSteps(s, head, f);
    RequestKept(s, head, r, i);
    var u, w := Steps(s, head).rx, Steps(s, events).rx;
    assert Waiting(Steps(s, head), r, i);
    assert FirstSlot(u.slots, r.channelno) == i;
    if |f| - 3 <= r.capacity {
      assert NoLook(events, r.channelno);
      RequestKept(s, events, r, i);
      assert w.calls[n].channelno == r.channelno;
    }
  }

  /** With the last byte of its reply the request's slot is free again, unless the callback asks to keep it. */
  lemma {:induction false} ReplyFrees(s: RunState, head: seq<Event>, tail: seq<Event>, f: seq<byte>, r: Request, i: nat)
    requires Waiting(s, r, i) && s.rx.partial == [] && !s.rx.fault && ReplyFrame(f) && f[FSP_FD] == r.channelno
    requires Pushes(head) == f[..2] && Pushes(tail) == f[3..] && NoLook(head, r.channelno) && NoLook(tail, r.channelno)
    requires |f| - 3 <= r.capacity && if |f| == 3 then tail == [] else tail != [] && tail[|tail| - 1].Push?
    ensures var w := Steps(s, head + [Push(f[FSP_FD])] + tail).rx;
      i < |w.slots| && w.slots[i] == if r.callback.keep then SlotOf(r) else SlotOf(r).(channelno := -1)
  {
    hide Steps, Waiting;
    var third := Push(f[FSP_FD]);
    HeadSteps(s, head, f);
    var u := Steps(s, head);
    StillWaits(s, head, r, i);
    LastStepped(s, head, third);
    HeadTaken(u, f, r, i);
    if |f| == 3 {
      assert head + [third] + tail == head + [third];
    } else {
      var before, last := tail[..|tail| - 1], tail[|tail| - 1];
      assert Pushes(before) == f[3..|f| - 1];
      var v := Steps(s, head + [third]);
      WaitingConsistent(u, r, i);
      StaysConsistent(u, third);
      TailSteps(v, before, f);
      StepsConcat(s, head + [third], before);
      StillWaits(s, head + [third] + before, r, i);
      assert head + [third] + tail == (head + [third] + before) + [last];
      LastStepped(s, head + [third] + before, last);
      assert f[..|f| - 1] + [last.b] == f;
      FrameTaken(Steps(s, head + [third] + before), f, r, i);
    }
  }

  lemma {:induction false} LastStepped(s: RunState, events: seq<Event>, e: Event)
    ensures Steps(s, events + [e]) == Step(Steps(s, events), e)
  {
    assert (events + [e])[..|events|] == events;
  }

  lemma {:induction false} WaitingConsistent(s: RunState, r: Request, i: nat)
    requires Waiting(s, r, i)
    ensures Consistent(s)
  {
  }

  /** Without a call the request is still waiting. */
  lemma {:induction false} StillWaits(s: RunState, events: seq<Event>, r: Request, i: nat)
    requires Waiting(s, r, i) && NoLook(events, r.channelno) && Steps(s, events).rx.calls == s.rx.calls
    ensures Waiting(Steps(s, events), r, i)
  {
    hide Waiting, Steps;
    RequestKept(s, events, r, i);
  }

  lemma {:induction false} HeadTaken(s: RunState, f: seq<byte>, r: Request, i: nat)
    requires Waiting(s, r, i) && !s.rx.fault && ReplyFrame(f) && s.rx.partial == f[..2] && f[FSP_FD] == r.channelno
    requires |f| - 3 <= r.capacity
    ensures var w := Next(s.rx, f[FSP_FD]);
      && !w.fault
      && (|f| > 3 ==> w.partial == f[..3] && w.into == Some(i) && w.calls == s.rx.calls)
      && (|f| == 3 ==> i < |w.slots| && w.slots[i] == if r.callback.keep then SlotOf(r) else SlotOf(r).(channelno := -1))
  {
    assert s.rx.partial + [f[FSP_FD]] == f[..3];
    assert FirstSlot(s.rx.slots, r.channelno) == i;
  }

  lemma {:induction false} FrameTaken(s: RunState, f: seq<byte>, r: Request, i: nat)
    requires Waiting(s, r, i) && !s.rx.fault && ReplyFrame(f) && |f| > 3 && s.rx.partial == f[..|f| - 1] && s.rx.into == Some(i)
    ensures var w := Next(s.rx, f[|f| - 1]);
      i < |w.slots| && w.slots[i] == if r.callback.keep then SlotOf(r) else SlotOf(r).(channelno := -1)
  {
    assert s.rx.partial + [f[|f| - 1]] == f;
  }

  // ---------------------------------------------------------------------------------------
  // Exactly when a request is served

  /** Slot i, with request r in it, is taking a frame whose channel is no channel's. */
  predicate Foreign(s: RunState, i: nat) {
    s.rx.into == Some(i) && |s.rx.partial| >= 3 && s.rx.partial[FSP_FD] >= 128
  }

  /** A request in such a slot, while the frame is not complete. */
  lemma {:induction false} ForeignTail(s: RunState, events: seq<Event>, r: Request, i: nat)
    requires Consistent(s) && !s.rx.fault && Foreign(s, i) && s.rx.slots[i] == SlotOf(r)
    requires (s.found.Some? ==> s.found.value.pos != i) && NoLook(events, r.channelno)
    requires |s.rx.partial| + |Pushes(events)| < FrameLen(s.rx.partial[FSP_LEN])
    ensures var w := Steps(s, events);
      && w.rx.partial == s.rx.partial + Pushes(events) && w.rx.into == Some(i) && !w.rx.fault
      && w.rx.calls == s.rx.calls && i < |w.rx.slots| && w.rx.slots[i] == SlotOf(r) && (w.found.Some? ==> w.found.value.pos != i)
    decreases |events|
  {
    AllConsistent(s, events);
    if events != [] {
      var before, last := events[..|events| - 1], events[|events| - 1];
      ForeignTail(s, before, r, i);
      AllConsistent(s, before);
      if last.Push? {
        assert (s.rx.partial + Pushes(before)) + [last.b] == s.rx.partial + Pushes(events);
      }
    }
  }

  /**
   The other half: a request that has filled a slot which is taking a foreign frame has its callback made
   for that frame, whatever else comes in and whoever else makes requests, and is gone unless it asks to stay.
   */
  lemma {:induction false} RequestTaken(s: RunState, events: seq<Event>, r: Request, i: nat)
    requires Consistent(s) && !s.rx.fault && Foreign(s, i) && s.rx.slots[i] == SlotOf(r)
    requires (s.found.Some? ==> s.found.value.pos != i) && NoLook(events, r.channelno)
    requires |s.rx.partial| + |Pushes(events)| >= FrameLen(s.rx.partial[FSP_LEN])
    ensures var w, n := Steps(s, events).rx, |s.rx.calls|;
      && n < |w.calls| && w.calls[..n] == s.rx.calls && w.calls[n].callback == r.callback
      && w.calls[n].channelno == Signed(s.rx.partial[FSP_FD]) < 0 && w.calls[n].ptype == s.rx.partial[FSP_CMD]
    ensures |s.rx.partial| + |Pushes(events)| == FrameLen(s.rx.partial[FSP_LEN]) && events[|events| - 1].Push? ==>
      var w, n := Steps(s, events).rx, |s.rx.calls|;
      && |w.calls| == n + 1 && w.calls[n].payload == (s.rx.partial + Pushes(events))[FSP_DATA..]
      && i < |w.slots| && w.slots[i] == if r.callback.keep then SlotOf(r) else SlotOf(r).(channelno := -1)
    decreases |events|
  {
    assert events != [];
    var before, last := events[..|events| - 1], events[|events| - 1];
    AllConsistent(s, before);
    var u := Steps(s, before);
    if |s.rx.partial| + |Pushes(before)| >= FrameLen(s.rx.partial[FSP_LEN]) {
      RequestTaken(s, before, r, i);
      CallsGrow(u, last);
    } else {
      ForeignTail(s, before, r, i);
      assert (s.rx.partial + Pushes(before)) + [last.b] == s.rx.partial + Pushes(events);
    }
  }

  /** Nobody else uses this callback. */
  ghost predicate Own(s: RunState, r: Request, i: nat) {
    && (forall k :: 0 <= k < |s.rx.slots| && k != i ==> s.rx.slots[k].callback != r.callback)
    && (s.found.Some? ==> s.found.value.request.callback != r.callback)
  }

  ghost predicate Others(events: seq<Event>, r: Request) {
    forall k :: 0 <= k < |events| && events[k].Look? ==>
      events[k].request.channelno != r.channelno && events[k].request.callback != r.callback
  }

  ghost predicate Unused(calls: seq<Call>, n: nat, callback: Callback) {
    forall k :: n <= k < |calls| ==> calls[k].callback != callback
  }

  /** The first time since the first n calls that the request's callback is made, it is for its channel. */
  ghost predicate FirstRight(calls: seq<Call>, n: nat, r: Request) {
    forall k :: n <= k < |calls| && calls[k].callback == r.callback && Unused(calls[..k], n, r.callback) ==>
      calls[k].channelno == r.channelno
  }

  lemma {:induction false} FirstStays(calls: seq<Call>, c: Call, n: nat, r: Request)
    requires n <= |calls| && FirstRight(calls, n, r)
    requires c.callback == r.callback && Unused(calls, n, r.callback) ==> c.channelno == r.channelno
    ensures FirstRight(calls + [c], n, r)
  {
    var all := calls + [c];
    forall k | n <= k < |all| && all[k].callback == r.callback && Unused(all[..k], n, r.callback)
      ensures all[k].channelno == r.channelno
    {
      assert all[..k] == calls[..k];
      if k == |calls| {
        assert calls[..k] == calls;
      }
    }
  }

  /** As long as its callback has not been made, a request waits. */
  lemma {:induction false} WaitsUnused(s: RunState, events: seq<Event>, r: Request, i: nat)
    requires Waiting(s, r, i) && Own(s, r, i) && Others(events, r)
    ensures var w, n := Steps(s, events), |s.rx.calls|;
      && n <= |w.rx.calls| && FirstRight(w.rx.calls, n, r)
      && (Unused(w.rx.calls, n, r.callback) ==> Waiting(w, r, i) && Own(w, r, i))
    decreases |events|
  {
    if events != [] {
      var before, last := events[..|events| - 1], events[|events| - 1];
      WaitsUnused(s, before, r, i);
      var u, w, n := Steps(s, before), Steps(s, events), |s.rx.calls|;
      OneCall(u, last);
      if w.rx.calls != u.rx.calls {
        var c := w.rx.calls[|u.rx.calls|];
        assert w.rx.calls == u.rx.calls + [c];
        if Unused(u.rx.calls, n, r.callback) {
          StepUnused(u, last, r, i);
        }
        FirstStays(u.rx.calls, c, n, r);
        assert Unused(w.rx.calls, n, r.callback) ==> Unused(u.rx.calls, n, r.callback) && c.callback != r.callback by {
          assert forall k :: n <= k < |u.rx.calls| ==> w.rx.calls[k] == u.rx.calls[k];
          assert w.rx.calls[|u.rx.calls|] == c;
        }
      } else if Unused(u.rx.calls, n, r.callback) {
        StepUnused(u, last, r, i);
      }
    }
  }

  lemma {:induction false} OneCall(s: RunState, e: Event)
    ensures var w := Step(s, e);
      w.rx.calls == s.rx.calls || (|w.rx.calls| == |s.rx.calls| + 1 && w.rx.calls[..|s.rx.calls|] == s.rx.calls)
  {
  }

  lemma {:induction false} StepUnused(s: RunState, e: Event, r: Request, i: nat)
    requires Waiting(s, r, i) && Own(s, r, i)
    requires e.Look? ==> e.request.channelno != r.channelno && e.request.callback != r.callback
    ensures var w, n := Step(s, e), |s.rx.calls|;
      if |w.rx.calls| > n && w.rx.calls[n].callback == r.callback then w.rx.calls[n].channelno == r.channelno
      else Waiting(w, r, i) && Own(w, r, i)
  {
    StepWaits(s, e, r, i);
  }

  /**
   Exactly: a request that has found a slot, as the only one of its channel and with a callback of its own,
   is served, so that its callback is made first for its own channel, in every run from then on in which
   nobody else requests this channel or callback, if and only if the slot is not taking a foreign frame when
   it is filled.
   */
  lemma {:induction false} RequestServed(s: RunState)
    requires Consistent(s) && !s.rx.fault && s.found.Some?
    requires var f := s.found.value;
      && (forall k :: 0 <= k < NUMBER_OF_SLOTS && k != f.pos ==>
            s.rx.slots[k].channelno != f.request.channelno && s.rx.slots[k].callback != f.request.callback)
    ensures var f := s.found.value;
      (forall events: seq<Event> :: Others(events, f.request) ==>
         FirstRight(Steps(Step(s, Fill), events).rx.calls, |s.rx.calls|, f.request))
      <==> !Foreign(s, f.pos)
  {
    var r, i, t := s.found.value.request, s.found.value.pos, Step(s, Fill);
    StaysConsistent(s, Fill);
    hide Steps, Next;
    if Foreign(s, i) {
      var events := seq(FrameLen(s.rx.partial[FSP_LEN]) - |s.rx.partial|, _ => Push(0));
      ManyPushes(events);
      RequestTaken(t, events, r, i);
      assert Others(events, r);
      assert !FirstRight(Steps(t, events).rx.calls, |s.rx.calls|, r) by {
        var calls, n := Steps(t, events).rx.calls, |s.rx.calls|;
        assert Unused(calls[..n], n, r.callback) && calls[n].channelno != r.channelno;
      }
    } else {
      FillWaits(s);
      forall events: seq<Event> | Others(events, r)
        ensures FirstRight(Steps(t, events).rx.calls, |s.rx.calls|, r)
      {
        WaitsUnused(t, events, r, i);
      }
    }
  }

  lemma {:induction false} ManyPushes(events: seq<Event>)
    requires forall k :: 0 <= k < |events| ==> events[k].Push?
    ensures |Pushes(events)| == |events|
    decreases |events|
  {
    if events != [] {
      ManyPushes(events[..|events| - 1]);
    }
  }

  const FIRST := Request(1, 10, Callback(1, false))
  const SECOND := Request(2, 10, Callback(2, false))

  /** The first slot has been used for FIRST's reply. */
  function Used(partial: seq<byte>): RunState {
    RunState(RxView(partial, None, [SlotOf(FIRST).(channelno := -1), SlotView(-1, None, Callback(0, false))],
                    [Call(FIRST.callback, 1, FS_REPLY, [])], 0, false), None)
  }

  lemma {:induction false} ThreeSteps(s: RunState, a: Event, b: Event, c: Event)
    ensures Steps(s, [a, b, c]) == Step(Step(Step(s, a), b), c)
  {
    hide Step;
    assert [a, b, c][..2] == [a, b] && [a, b][..1] == [a] && [a][..0] == [];
    assert Steps(s, [a]) == Step(s, a);
    assert Steps(s, [a, b]) == Step(Steps(s, [a]), b);
  }

  /** Two bytes of a reply with this length byte. */
  lemma {:induction false} TwoBytes(v: RxView, len: byte)
    requires v.partial == [] && !v.fault
    ensures Next(Next(v, FS_REPLY), len) == v.(partial := [FS_REPLY, len])
  {
    assert [FS_REPLY] + [len] == [FS_REPLY, len];
  }

  lemma {:induction false} FirstAnswered()
    ensures Steps(Step(Step(Start(), Look(FIRST)), Fill), [Push(FS_REPLY), Push(3), Push(1)]) == Used([])
  {
    var s := Step(Step(Start(), Look(FIRST)), Fill);
    assert s == RunState(RxView([], None, [SlotOf(FIRST), SlotView(-1, None, Callback(0, false))], [], 0, false), None);
    ThreeSteps(s, Push(FS_REPLY), Push(3), Push(1));
    hide Steps;
    TwoBytes(s.rx, 3);
    var frame: seq<byte> := [FS_REPLY, 3] + [1];
    assert frame == [FS_REPLY, 3, 1] && frame[FSP_DATA..] == [];
    assert FirstSlot(s.rx.slots, 1) == 0;
  }

  lemma {:induction false} SlotTaken()
    ensures Steps(Used([]), [Push(FS_REPLY), Push(4), Push(255)])
         == Used([FS_REPLY, 4, 255]).(rx := Used([FS_REPLY, 4, 255]).rx.(into := Some(0)))
  {
    ThreeSteps(Used([]), Push(FS_REPLY), Push(4), Push(255));
    hide Steps;
    TwoBytes(Used([]).rx, 4);
    assert [FS_REPLY, 4] + [255] == [FS_REPLY, 4, 255];
    assert FirstSlot(Used([]).rx.slots, -1) == 0;
  }

  lemma {:induction false} SecondGone(s: RunState)
    requires s == Used([FS_REPLY, 4, 255]).(rx := Used([FS_REPLY, 4, 255]).rx.(into := Some(0)))
    ensures var w := Steps(s, [Look(SECOND), Fill, Push(0)]).rx;
            && w.calls == s.rx.calls + [Call(SECOND.callback, -1, FS_REPLY, [0])]
            && w.slots == [SlotOf(SECOND).(channelno := -1), s.rx.slots[1]]
  {
    ThreeSteps(s, Look(SECOND), Fill, Push(0));
    hide Steps;
    var t := Step(Step(s, Look(SECOND)), Fill);
    assert t == s.(rx := s.rx.(slots := [SlotOf(SECOND), s.rx.slots[1]]));
    var frame := t.rx.partial + [0];
    assert |frame| == 4 && frame[FSP_DATA..] == [0];
  }

  /**
   The channel byte 255 is where both guarantees end. A slot that has been used once takes such a
   frame, and a request that fills the slot before the frame ends has its callback made for it, under
   channel -1, and is gone.
   */
  lemma {:induction false} RequestLost()
    ensures var w := Steps(Step(Step(Start(), Look(FIRST)), Fill),
                           [Push(FS_REPLY), Push(3), Push(1)] + [Push(FS_REPLY), Push(4), Push(255)]
                           + [Look(SECOND), Fill, Push(0)]).rx;
            && w.calls == [Call(FIRST.callback, 1, FS_REPLY, []), Call(SECOND.callback, -1, FS_REPLY, [0])]
            && forall k :: 0 <= k < |w.slots| ==> w.slots[k].channelno == -1
  {
    var s := Step(Step(Start(), Look(FIRST)), Fill);
    var a, b, c := [Push(FS_REPLY), Push(3), Push(1)], [Push(FS_REPLY), Push(4), Push(255)], [Look(SECOND), Fill, Push(0)];
    hide Steps;
    hide Step;
    StepsConcat(s, a + b, c);
    StepsConcat(s, a, b);
    FirstAnswered();
    SlotTaken();
    SecondGone(Steps(s, a + b));
  }

  /** Before any request has been made, a frame for it ends the run. */
  lemma {:induction false} NothingMet(len: byte)
    ensures Steps(Start(), [Push(FS_REPLY), Push(len), Push(255)]).rx.fault
  {
    ThreeSteps(Start(), Push(FS_REPLY), Push(len), Push(255));
    TwoBytes(Start().rx, len);
  }
}
