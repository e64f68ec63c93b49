/**
 The firmware's receiver (firmware/serial.c): a byte-wise automaton that finds the reply frames and
 hands each to the channel waiting for it.

 The UART hands bytes over as int8_t; the arithmetic on them is done in that type.
 */
module SerialReceive {
  import opened Wire
  import opened Packets

  const NUMBER_OF_SLOTS := 2

  datatype RxState = RxIdle | RxLen | RxChannelno | RxData | RxIgnore | RxFault

  /** A callback function, and whether it asks to stay registered. */
  datatype Callback = Callback(id: nat, keep: bool)

  /** What is registered for a channel; -1 is a free slot, which keeps the packet and callback it had. */
  datatype RxSlot = RxSlot(channelno: int, packet: Packet?, callback: Callback)

  /** A callback made: the reply as the channel sees it. */
  datatype Call = Call(callback: Callback, channelno: int, ptype: byte, payload: seq<byte>)

  // ---------------------------------------------------------------------------------------
  // What receiving means

  /** A slot, with the capacity of its packet; a slot never used has no packet. */
  datatype SlotView = SlotView(channelno: int, capacity: Option<nat>, callback: Callback)

  /**
   What the receiver has seen of the current frame, the slot that takes it, the slots, the callbacks
   made and the FS_SYNC bytes mirrored. After a fault, the use of a packet that is not there, nothing is known.
   */
  datatype RxView = RxView(partial: seq<byte>, into: Option<nat>, slots: seq<SlotView>,
                           calls: seq<Call>, syncs: nat, fault: bool)

  predicate IsReplyType(b: byte) {
    b in {FS_REPLY, FS_DATA, FS_DATA_EOF, FS_SETOPT, FS_RESET}
  }

  /** The length of the frame that the receiver makes of a length byte. */
  function FrameLen(len: byte): nat {
    if 3 <= len <= 131 then len else 4
  }

  /** The room that it asks the packet for. */
  function Need(len: byte): nat {
    (len + 253) % 256
  }

  /** int8_t */
  function Signed(b: int): int {
    if b < 128 then b else b - 256
  }

  /** x - 1 in an int8_t. */
  function Decremented(x: int): int {
    if x == -128 then 127 else x - 1
  }

  /**
   The count kept in an int8_t, len - 3 at first, is used up exactly when the frame has FrameLen(len)
   bytes: after none for 3, after n for 3 + n up to 131, which starts at -128, and after one byte for
   all other lengths. n is the number of data bytes there have been.
   */
  lemma {:induction false} Countdown(len: byte, n: nat)
    requires 3 + n < FrameLen(len)
    ensures var next := Decremented(Signed(Need(len) - n));
            && (next <= 0 <==> 3 + n + 1 == FrameLen(len))
            && (next > 0 ==> next == Signed(Need(len) - (n + 1)))
  {
  }

  lemma {:induction false} FirstCount(len: byte)
    ensures FrameLen(len) >= 3 && (Signed(Need(len)) == 0 <==> FrameLen(len) == 3)
  {
  }

  /** The first slot of the channel, or the number of slots. */
  function FirstSlot(slots: seq<SlotView>, channelno: int): (i: nat)
    ensures i <= |slots|
    ensures i < |slots| ==> slots[i].channelno == channelno
    ensures forall k :: 0 <= k < i ==> slots[k].channelno != channelno
  {
    if slots == [] || slots[0].channelno == channelno then 0 else 1 + FirstSlot(slots[1..], channelno)
  }

  /** Only the channel byte 255 does: it is the -1 of a slot that has never been used. */
  predicate MeetsNothing(slots: seq<SlotView>, channel: byte) {
    var i := FirstSlot(slots, Signed(channel));
    i < |slots| && slots[i].capacity.None?
  }

  /** The slot that takes a frame with these length and channel bytes. */
  function Target(slots: seq<SlotView>, len: byte, channel: byte): Option<nat> {
    var i := FirstSlot(slots, Signed(channel));
    if i < |slots| && slots[i].capacity.Some? && Need(len) <= slots[i].capacity.value then Some(i) else None
  }

  /** The frame is complete: the slot that takes it has its callback made, and is free unless that asks to keep it. */
  function Finished(v: RxView, frame: seq<byte>, into: Option<nat>): RxView
    requires |frame| >= 3
  {
    if into.None? || into.value >= |v.slots| then v.(partial := [], into := None)
    else
      var s := v.slots[into.value];
      v.(partial := [], into := None,
         slots := if s.callback.keep then v.slots else v.slots[into.value := s.(channelno := -1)],
         calls := v.calls + [Call(s.callback, Signed(frame[FSP_FD]), frame[FSP_CMD], frame[FSP_DATA..])])
  }

  /** One byte more of a frame whose length and channel are known. */
  function Extended(v: RxView, frame: seq<byte>, into: Option<nat>): RxView
    requires |frame| >= 3
  {
    if |frame| == FrameLen(frame[FSP_LEN]) then Finished(v, frame, into) else v.(partial := frame, into := into)
  }

  lemma {:induction false} ExtendedSame(v: RxView, w: RxView, frame: seq<byte>, into: Option<nat>)
    requires |frame| >= 3 && w == v.(partial := w.partial, into := w.into)
    ensures Extended(v, frame, into) == Extended(w, frame, into)
  {
  }

  /** One byte, any byte. */
  function Next(v: RxView, b: byte): RxView {
    var frame := v.partial + [b];
    if v.fault then v
    else if |frame| == 1 then
      v.(partial := if IsReplyType(b) then frame else [], syncs := v.syncs + if b == FS_SYNC then 1 else 0)
    else if |frame| == 2 then v.(partial := frame)
    else if |frame| > 3 then Extended(v, frame, v.into)
    else if MeetsNothing(v.slots, b) then v.(partial := [], into := None, fault := true)
    else Extended(v, frame, Target(v.slots, frame[FSP_LEN], b))
  }

  /** The slot for a request of a channel: the first one that is free or the channel's own. */
  function Choice(slots: seq<SlotView>, channelno: int): (i: nat)
    ensures i <= |slots|
    ensures i < |slots| ==> slots[i].channelno < 0 || slots[i].channelno == channelno
    ensures forall k :: 0 <= k < i ==> slots[k].channelno >= 0 && slots[k].channelno != channelno
  {
    if slots == [] || slots[0].channelno < 0 || slots[0].channelno == channelno then 0 else 1 + Choice(slots[1..], channelno)
  }

  // ---------------------------------------------------------------------------------------
  // The automaton

  class Receiver {
    const rxChannels: array<RxSlot>
    var rxstate: RxState
    var currentChannelno: int
    var currentChannelpos: nat
    var currentRxpacket: Packet?
    var currentDataLeft: int
    var currentIsEoi: byte
    var calls: seq<Call>              // the callbacks made
    var syncs: nat                    // the FS_SYNC bytes mirrored
    ghost var partial: seq<byte>      // the bytes of the current frame
    ghost var packets: set<Packet>    // all packets registered so far

    constructor ()
      ensures Valid() && fresh(rxChannels) && packets == {}
      ensures View() == RxView([], None, seq(NUMBER_OF_SLOTS, _ => SlotView(-1, None, Callback(0, false))), [], 0, false)
    {
      rxChannels := new RxSlot[NUMBER_OF_SLOTS](_ => RxSlot(-1, null, Callback(0, false)));
      rxstate, currentChannelno, currentChannelpos, currentRxpacket := RxIdle, -1, 0, null;
      currentDataLeft, currentIsEoi, calls, syncs, partial, packets := 0, 0, [], 0, [], {};
    }

    ghost function Buffers(): set<array<byte>>
      reads this
    {
      set p | p in packets :: p.buffer
    }

    ghost function ViewSlot(s: RxSlot): SlotView {
      SlotView(s.channelno, if s.packet == null then None else Some(s.packet.buffer.Length), s.callback)
    }

    ghost function Slots(): (v: seq<SlotView>)
      requires rxChannels.Length == NUMBER_OF_SLOTS
      reads rxChannels
      ensures |v| == NUMBER_OF_SLOTS
    {
      [ViewSlot(rxChannels[0]), ViewSlot(rxChannels[1])]
    }

    ghost function View(): RxView
      requires rxChannels.Length == NUMBER_OF_SLOTS
      reads this, rxChannels
    {
      RxView(partial, if rxstate == RxData then Some(currentChannelpos) else None, Slots(), calls, syncs, rxstate == RxFault)
    }

    ghost predicate SlotsValid()
      reads this, rxChannels, packets
    {
      && rxChannels.Length == NUMBER_OF_SLOTS
      && (forall p :: p in packets ==> p.Valid())
      && forall i :: 0 <= i < NUMBER_OF_SLOTS ==>
           && (rxChannels[i].packet != null ==> rxChannels[i].packet in packets)
           && (rxChannels[i].packet == null ==> rxChannels[i].channelno == -1)
    }

    /** The frame's head is known, and the rest of it counted down in an int8_t. */
    ghost predicate Counting()
      reads this
    {
      && |partial| >= 3 && partial[FSP_CMD] == currentIsEoi && Signed(partial[FSP_FD]) == currentChannelno
      && |partial| < FrameLen(partial[FSP_LEN])
      && currentDataLeft == Signed(Need(partial[FSP_LEN]) - (|partial| - 3))
    }

    /** The current packet holds the payload so far. */
    ghost predicate Collecting()
      requires |partial| >= 3
      reads this, currentRxpacket, if currentRxpacket != null then {currentRxpacket.buffer} else {}
    {
      && currentRxpacket != null && currentRxpacket.Valid()
      && Need(partial[FSP_LEN]) <= currentRxpacket.buffer.Length
      && currentRxpacket.ptype == currentIsEoi && currentRxpacket.Content() == partial[FSP_DATA..]
    }

    ghost predicate Valid()
      reads this, rxChannels, packets, Buffers()
    {
      && SlotsValid()
      && match rxstate
         case RxIdle => partial == []
         case RxLen => partial == [currentIsEoi]
         case RxChannelno =>
           |partial| == 2 && partial[FSP_CMD] == currentIsEoi && currentDataLeft == Signed(Need(partial[FSP_LEN]))
         case RxData =>
           && Counting() && currentChannelpos < NUMBER_OF_SLOTS
           && currentRxpacket in packets && Collecting()
         case RxIgnore => Counting()
         case RxFault => partial == []
    }

    /** The callback of slot pos, with the packet received. */
    method MakeCall(pos: nat, p: Packet)
      requires rxChannels.Length == NUMBER_OF_SLOTS && pos < NUMBER_OF_SLOTS && p.Valid()
      modifies this`calls, rxChannels
      ensures calls == old(calls) + [Call(old(rxChannels[pos]).callback, currentChannelno, p.ptype, p.Content())]
      ensures forall i :: 0 <= i < NUMBER_OF_SLOTS && i != pos ==> rxChannels[i] == old(rxChannels[i])
      ensures rxChannels[pos] == if old(rxChannels[pos]).callback.keep then old(rxChannels[pos])
                                 else old(rxChannels[pos]).(channelno := -1)
    {
      calls := calls + [Call(rxChannels[pos].callback, currentChannelno, p.ptype, p.buffer[..p.wp])];
      if !rxChannels[pos].callback.keep {
        rxChannels[pos] := rxChannels[pos].(channelno := -1);
      }
    }

    method OnIdle(rxdata: byte)
      requires Valid() && rxstate == RxIdle
      modifies this`rxstate, this`currentIsEoi, this`syncs, this`partial
      ensures Valid() && View() == Next(old(View()), rxdata)
    {
      if rxdata == FS_SYNC {
        // flush all packets and mirror the sync: Transmitter.EchoSync
        syncs := syncs + 1;
      } else if rxdata == FS_REPLY || rxdata == FS_DATA || rxdata == FS_DATA_EOF || rxdata == FS_SETOPT || rxdata == FS_RESET {
        currentIsEoi := rxdata;
        rxstate := RxLen;
        partial := [rxdata];
      }
    }

    method OnLen(rxdata: byte)
      requires Valid() && rxstate == RxLen
      modifies this`rxstate, this`currentDataLeft, this`partial
      ensures Valid() && View() == Next(old(View()), rxdata)
    {
      var left := Signed(rxdata) - 3;
      currentDataLeft := if left < -128 then left + 256 else left;
      rxstate := RxChannelno;
      partial := partial + [rxdata];
    }

    /** The first slot of the current channel, opened for receiving if its packet is large enough. */
    method FindSlot()
      requires SlotsValid() && |partial| == 3 && rxstate == RxIgnore
      requires currentDataLeft == Signed(Need(partial[FSP_LEN])) && currentChannelno == Signed(partial[FSP_FD])
      modifies this`currentChannelpos, this`currentRxpacket, this`rxstate, packets
      ensures SlotsValid()
      ensures rxstate == RxFault <==> MeetsNothing(Slots(), partial[FSP_FD])
      ensures rxstate in {RxFault, RxData, RxIgnore}
      ensures rxstate != RxFault ==>
                Target(Slots(), partial[FSP_LEN], partial[FSP_FD]) == if rxstate == RxData then Some(currentChannelpos) else None
      ensures rxstate == RxData ==>
                && currentChannelpos < NUMBER_OF_SLOTS && currentRxpacket in packets
                && Need(partial[FSP_LEN]) <= currentRxpacket.buffer.Length
                && currentRxpacket.ptype == currentIsEoi && currentRxpacket.wp == 0
    {
      var i := 0;
      while i < NUMBER_OF_SLOTS
        invariant 0 <= i <= NUMBER_OF_SLOTS && rxstate == RxIgnore && unchanged(packets)
        invariant forall k :: 0 <= k < i ==> Slots()[k].channelno != currentChannelno
      {
        if rxChannels[i].channelno == currentChannelno {
          assert FirstSlot(Slots(), currentChannelno) == i;
          currentChannelpos := i;
          currentRxpacket := rxChannels[i].packet;
          if currentRxpacket == null {
            rxstate := RxFault;
            return;
          }
          var rc := currentRxpacket.SetWrite(currentChannelno, currentIsEoi, currentDataLeft % 256);
          assert currentDataLeft % 256 == Need(partial[FSP_LEN]);
          if rc >= 0 {
            rxstate := RxData;
          }
          return;
        }
        i := i + 1;
      }
    }

    /** The frame is complete; its payload is in the current packet, if a slot has taken it. */
    method Finish()
      requires SlotsValid() && |partial| >= 3 && partial[FSP_CMD] == currentIsEoi && Signed(partial[FSP_FD]) == currentChannelno
      requires rxstate == RxIgnore || (rxstate == RxData && currentChannelpos < NUMBER_OF_SLOTS && Collecting())
      modifies this`calls, this`rxstate, this`partial, rxChannels
      ensures Valid()
      ensures View() == Finished(old(View()), old(partial), if old(rxstate) == RxData then Some(currentChannelpos) else None)
    {
      if rxstate == RxData {
        MakeCall(currentChannelpos, currentRxpacket);
      }
      rxstate := RxIdle;
      partial := [];
    }

    method OnChannelno(rxdata: byte)
      requires Valid() && rxstate == RxChannelno
      modifies this`currentChannelno, this`currentChannelpos, this`currentRxpacket, this`rxstate, this`calls, this`partial
      modifies rxChannels, packets
      ensures Valid() && View() == Next(old(View()), rxdata)
    {
      hide MeetsNothing;
      hide Target;
      hide Extended;
      currentChannelno := Signed(rxdata);
      rxstate := RxIgnore;
      partial := partial + [rxdata];
      ExtendedSame(old(View()), View(), partial, Target(Slots(), partial[FSP_LEN], rxdata));
      Dispatch();
    }

    /** The head of the frame is complete. */
    method Dispatch()
      requires SlotsValid() && |partial| == 3 && rxstate == RxIgnore
      requires partial[FSP_CMD] == currentIsEoi && Signed(partial[FSP_FD]) == currentChannelno
      requires currentDataLeft == Signed(Need(partial[FSP_LEN]))
      modifies this`currentChannelpos, this`currentRxpacket, this`rxstate, this`calls, this`partial, rxChannels, packets
      ensures Valid()
      ensures var frame := old(partial);
              View() == if MeetsNothing(old(Slots()), frame[FSP_FD]) then
                          old(View()).(partial := [], into := None, fault := true)
                        else Extended(old(View()), frame, Target(old(Slots()), frame[FSP_LEN], frame[FSP_FD]))
    {
      FirstCount(partial[FSP_LEN]);
      hide MeetsNothing;
      hide Target;
      hide Extended;
      hide Signed;
      hide Need;
      hide FrameLen;
      FindSlot();
      if rxstate == RxFault {
        partial := [];
      } else {
        ExtendedSame(old(View()), View(), partial, View().into);
        GoOn(currentDataLeft == 0);
      }
    }

    /** The bytes so far have been dealt with. */
    method GoOn(done: bool)
      requires SlotsValid() && |partial| >= 3 && partial[FSP_CMD] == currentIsEoi && Signed(partial[FSP_FD]) == currentChannelno
      requires rxstate == RxIgnore || (rxstate == RxData && currentChannelpos < NUMBER_OF_SLOTS && Collecting())
      requires rxstate == RxData ==> currentRxpacket in packets
      requires done <==> |partial| == FrameLen(partial[FSP_LEN])
      requires !done ==> Counting()
      modifies this`calls, this`rxstate, this`partial, rxChannels
      ensures Valid() && View() == Extended(old(View()), old(partial), old(View()).into)
    {
      if done {
        Finish();
      }
    }

    method OnData(rxdata: byte)
      requires Valid() && rxstate == RxData
      modifies this`currentDataLeft, this`rxstate, this`calls, this`partial
      modifies rxChannels, currentRxpacket, currentRxpacket.buffer
      ensures Valid() && View() == Next(old(View()), rxdata)
    {
      hide Extended;
      ghost var before := partial;
      Countdown(partial[FSP_LEN], |partial| - 3);
      currentRxpacket.WriteChar(rxdata);
      currentDataLeft := Decremented(currentDataLeft);
      partial := partial + [rxdata];
      assert currentRxpacket.Content() == before[FSP_DATA..] + [rxdata] == partial[FSP_DATA..];
      ExtendedSame(old(View()), View(), partial, View().into);
      GoOn(currentDataLeft <= 0);
    }

    method OnIgnore(rxdata: byte)
      requires Valid() && rxstate == RxIgnore
      modifies this`currentDataLeft, this`rxstate, this`calls, this`partial, rxChannels
      ensures Valid() && View() == Next(old(View()), rxdata)
    {
      hide Extended;
      Countdown(partial[FSP_LEN], |partial| - 3);
      currentDataLeft := Decremented(currentDataLeft);
      partial := partial + [rxdata];
      ExtendedSame(old(View()), View(), partial, View().into);
      GoOn(currentDataLeft <= 0);
    }

    /** push_data_to_packet, for every byte. */
    method PushData(rxdata: byte)
      requires Valid()
      modifies this, rxChannels, packets, Buffers()
      ensures Valid() && View() == Next(old(View()), rxdata)
      ensures packets == old(packets) && Buffers() == old(Buffers())
    {
      match rxstate {
        case RxIdle => OnIdle(rxdata);
        case RxLen => OnLen(rxdata);
        case RxChannelno => OnChannelno(rxdata);
        case RxData => OnData(rxdata);
        case RxIgnore => OnIgnore(rxdata);
        case RxFault =>
      }
    }

    /** One turn of a request's wait for a slot; -1 if there is none yet. */
    method Look(channelno: int) returns (channelpos: int)
      requires Valid()
      ensures var i := Choice(View().slots, channelno); channelpos == if i < NUMBER_OF_SLOTS then i else -1
    {
      channelpos := -1;
      for i := 0 to NUMBER_OF_SLOTS
        invariant channelpos == -1
        invariant i <= Choice(View().slots, channelno)
      {
        if rxChannels[i].channelno < 0 || rxChannels[i].channelno == channelno {
          assert View().slots[i].channelno == rxChannels[i].channelno;
          channelpos := i;
          break;
        }
      }
    }

    /** A request's packet and callback are registered in the slot found. */
    method Register(channelpos: nat, channelno: int, rxbuf: Packet, callback: Callback)
      requires Valid() && channelpos < NUMBER_OF_SLOTS && rxbuf.Valid()
      modifies this`packets, rxChannels
      ensures Valid() && packets == old(packets) + {rxbuf} && Buffers() == old(Buffers()) + {rxbuf.buffer}
      ensures var s := SlotView(channelno, Some(rxbuf.buffer.Length), callback);
              View() == old(View()).(slots := old(View()).slots[channelpos := s])
    {
      rxChannels[channelpos] := RxSlot(channelno, rxbuf, callback);
      packets := packets + {rxbuf};
    }
  }
}
