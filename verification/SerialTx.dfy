/**
 The firmware's transmitter (firmware/serial.c): a byte-wise automaton that takes the queued packet
 apart whenever the UART can take a byte.
 */
module SerialTransmit {
  import opened Wire
  import opened Packets
  import opened Endpoints
  import Framing

  const NUMBER_OF_SLOTS := 2

  datatype TxState = TxType | TxLen | TxChannel | TxData | TxIdle

  /**
   An arbitrary UART and peer: before the k-th time that it can send, the UART refuses gaps(k)
   times; in the k-th delay, syncs(k) FS_SYNC bytes come in.
   */
  datatype Uart = Uart(gaps: nat -> nat, syncs: nat -> nat)

  /** The FS_SYNC bytes that come in during the first n delays. */
  function SyncsIn(uart: Uart, n: nat): nat {
    if n == 0 then 0 else SyncsIn(uart, n - 1) + uart.syncs(n - 1)
  }

  class Transmitter {
    const uart: Uart
    const slots: array<Packet?>
    var slotsUsed: nat
    var txstate: TxState
    var wire: seq<byte>                    // the bytes given to the UART
    var turn: nat                          // the UART's next readiness
    var gap: nat                           // refusals left until then
    var delays: nat
    ghost var items: seq<Framing.Item>     // everything accepted for sending, in order
    ghost var current: WirePacket          // the queued packet, as it was submitted
    ghost var pos: nat                     // how many bytes of its frame have been sent

    constructor (uart: Uart)
      ensures Valid() && slotsUsed == 0 && items == [] && wire == [] && this.uart == uart
      ensures fresh(slots) && slots[0] == null && Answered() && delays == 0
    {
      this.uart := uart;
      slots := new Packet?[NUMBER_OF_SLOTS](_ => null);
      slotsUsed, txstate, wire := 0, TxIdle, [];
      turn, gap, delays := 0, 0, 0;
      items, current, pos := [], WirePacket(0, 0, []), 0;
    }

    /** The packet is the one in current, and pos bytes of its frame have been sent. */
    ghost predicate Queued(p: Packet)
      reads this, p, p.buffer
    {
      && p.Valid() && p.ptype == current.ptype && p.chan == current.chan && p.Content() == current.payload
      && match txstate
         case TxType => p.rp == 0 && pos == 0
         case TxLen => p.rp == 0 && pos == 1
         case TxChannel => p.rp == 0 && pos == 2
         case TxData => p.rp < p.wp && pos == 3 + p.rp
         case TxIdle => pos == 3 + p.wp
    }

    ghost function Objects(): set<object>
      reads this, slots
    {
      {this, slots} + if slots.Length > 0 && slots[0] != null then {slots[0]} else {}
    }

    /** The bytes accepted and not yet sent. */
    ghost function Left(): seq<byte>
      requires slotsUsed == 1 ==> pos <= 3 + |current.payload|
      reads this
    {
      if slotsUsed == 1 then Framing.Frame(current)[pos..] else []
    }

    ghost predicate Valid()
      reads this, slots, if slots.Length > 0 && slots[0] != null then {slots[0], slots[0].buffer} else {}
    {
      && slots.Length == NUMBER_OF_SLOTS
      // serial_submit waits until no slot is used before it uses one
      && slotsUsed <= 1
      && (slotsUsed == 1 ==> slots[0] != null && Queued(slots[0]))
      && Framing.Encode(items) == wire + Left()
    }

    /** Each FS_SYNC that has come in has been mirrored, and no other has been sent. */
    ghost predicate Answered()
      reads this
    {
      Framing.Syncs(items) == SyncsIn(uart, delays)
    }

    /** uarthw_can_send */
    method CanSend() returns (can: bool)
      modifies this`gap, this`turn
      ensures !can ==> gap < old(gap)
    {
      if gap > 0 {
        gap := gap - 1;
        return false;
      }
      turn := turn + 1;
      gap := uart.gaps(turn);
      return true;
    }

    /** The next byte to send, or -1 when the packet has been sent. */
    method ReadCharFromPacket(buf: Packet) returns (rv: int)
      requires Queued(buf)
      modifies this`txstate, this`pos, buf`rp
      ensures Queued(buf)
      ensures old(pos) == |Framing.Frame(current)| ==> rv == -1 && pos == old(pos)
      ensures old(pos) < |Framing.Frame(current)| ==>
                rv >= 0 && rv % 256 == Framing.Frame(current)[old(pos)] && pos == old(pos) + 1
    {
      rv := -1;
      match txstate {
        case TxType =>
          txstate := TxLen;
          rv := buf.ptype;
          pos := pos + 1;
        case TxLen =>
          txstate := TxChannel;
          rv := buf.wp + 3;
          pos := pos + 1;
        case TxChannel =>
          rv := buf.chan % 256;
          if buf.wp == 0 {
            txstate := TxIdle;
          } else {
            txstate := TxState.TxData;
          }
          pos := pos + 1;
        case TxData =>
          assert buf.buffer[buf.rp] == buf.Content()[buf.rp];
          rv := buf.ReadChar();
          if !buf.HasData() {
            txstate := TxIdle;
          }
          pos := pos + 1;
        case TxIdle =>
      }
    }

    /** The packet in slot 0 has been sent: the others move up. */
    method AdvanceSlots()
      requires slots.Length == NUMBER_OF_SLOTS && 0 < slotsUsed <= NUMBER_OF_SLOTS
      modifies this`slotsUsed, this`txstate, slots
      ensures slotsUsed == old(slotsUsed) - 1 && txstate == TxType
      ensures forall k :: 0 <= k < slotsUsed ==> slots[k] == old(slots[k + 1])
      ensures forall k :: slotsUsed <= k < NUMBER_OF_SLOTS ==> slots[k] == old(slots[k])
    {
      var i := 0;
      slotsUsed := slotsUsed - 1;
      while i < slotsUsed
        modifies slots
        invariant 0 <= i <= slotsUsed
        invariant forall k :: 0 <= k < i ==> slots[k] == old(slots[k + 1])
        invariant forall k :: i <= k < NUMBER_OF_SLOTS ==> slots[k] == old(slots[k])
      {
        slots[i] := slots[i + 1];
        i := i + 1;
      }
      txstate := TxType;
    }

    /** Send one byte, or find that the packet has been sent. */
    method SendOne(buf: Packet)
      requires Valid() && slotsUsed == 1 && slots[0] == buf
      modifies this`txstate, this`pos, this`wire, this`slotsUsed, slots, buf`rp
      ensures Valid() && slots[0] == buf
      ensures slotsUsed == 1 ==> pos == old(pos) + 1
    {
      hide Framing.Encode;
      hide Framing.Frame;
      ghost var frame, sent, p := Framing.Frame(current), wire, pos;
      ghost var all := Framing.Encode(items);
      var data := ReadCharFromPacket(buf);
      if data >= 0 {
        // uarthw_send
        Framing.ByteSent(all, sent, frame, p, data % 256);
        wire := wire + [data % 256];
      } else {
        assert sent + frame[p..] == sent;
        AdvanceSlots();
        assert sent + Left() == sent;
      }
    }

    /** Send as long as there is something to send and the UART takes it. */
    method Send()
      requires Valid()
      modifies Objects()
      ensures Valid() && items == old(items) && delays == old(delays) && slots[0] == old(slots[0])
      ensures slotsUsed <= old(slotsUsed)
      ensures slotsUsed == 1 ==> pos > old(pos) || (pos == old(pos) && gap < old(gap))
      ensures current == old(current)
    {
      hide Framing.Encode;
      hide Framing.Frame;
      var stop := false;
      while slotsUsed > 0 && !stop
        invariant Valid() && items == old(items) && delays == old(delays) && slots[0] == old(slots[0])
        invariant slotsUsed <= old(slotsUsed)
        invariant slotsUsed == 1 ==> pos >= old(pos)
        invariant slotsUsed == 1 && pos == old(pos) ==> if stop then gap < old(gap) else gap == old(gap)
        invariant current == old(current)
        decreases slotsUsed, 3 + |current.payload| - pos, !stop
      {
        var can := CanSend();
        if can {
          SendOne(slots[0]);
        } else {
          stop := true;
        }
      }
    }

    /** An FS_SYNC has come in: flush all packets, then mirror it. */
    method EchoSync()
      requires Valid()
      modifies Objects()
      ensures Valid() && slotsUsed == 0 && items == old(items) + [Framing.Sync]
      ensures delays == old(delays) && slots[0] == old(slots[0]) && current == old(current)
    {
      hide Framing.Encode;
      while slotsUsed > 0
        invariant Valid() && items == old(items) && current == old(current) && delays == old(delays) && slots[0] == old(slots[0])
        decreases slotsUsed, 3 + |current.payload| - pos, gap
      {
        Send();
      }
      var can := CanSend();
      while !can
        modifies this`gap, this`turn
        decreases !can, gap
      {
        can := CanSend();
      }
      Framing.EncodeAppend(items, Framing.Sync);
      assert Framing.Encode(items) == wire + [] == wire;
      // uarthw_send
      wire := wire + [FS_SYNC];
      items := items + [Framing.Sync];
    }

    /** serial_delay, as far as sending is concerned. */
    method Delay()
      requires Valid()
      modifies Objects()
      ensures Valid() && slots[0] == old(slots[0]) && delays == old(delays) + 1
      ensures Framing.PacketsOf(items) == old(Framing.PacketsOf(items)) && old(items) <= items
      ensures Framing.Syncs(items) == old(Framing.Syncs(items)) + uart.syncs(old(delays))
      ensures old(Answered()) ==> Answered()
      ensures slotsUsed <= old(slotsUsed) && current == old(current)
      ensures slotsUsed == 1 ==> pos > old(pos) || (pos == old(pos) && gap < old(gap))
    {
      hide Framing.Encode;
      hide Framing.PacketsOf;
      hide Framing.Syncs;
      for k := 0 to uart.syncs(delays)
        invariant Valid() && slots[0] == old(slots[0]) && delays == old(delays)
        invariant Framing.PacketsOf(items) == old(Framing.PacketsOf(items)) && old(items) <= items
        invariant Framing.Syncs(items) == old(Framing.Syncs(items)) + k
        invariant slotsUsed <= old(slotsUsed) && current == old(current)
        invariant slotsUsed == 1 ==> pos == old(pos) && gap == old(gap)
      {
        Framing.PacketsOfAppend(items, Framing.Sync);
        Framing.SyncsAppend(items, Framing.Sync);
        EchoSync();
      }
      delays := delays + 1;
      Send();
    }

    /** serial_submit: wait for the slot, queue the packet, start sending. */
    method Submit(p: Packet)
      requires Valid() && p.Valid() && p.rp == 0
      requires slotsUsed == 1 ==> slots[0] != p
      modifies Objects(), p
      ensures Valid() && slots[0] == p && delays >= old(delays) && (old(Answered()) ==> Answered())
      ensures Framing.PacketsOf(items)
           == old(Framing.PacketsOf(items)) + [WirePacket(old(p.ptype), old(p.chan), old(p.Content()))]
    {
      hide Framing.Encode;
      hide Framing.PacketsOf;
      hide Framing.Syncs;
      AwaitSlot(p);
      Enqueue(p);
      Send();
    }

    method AwaitSlot(p: Packet)
      requires Valid() && (slotsUsed == 1 ==> slots[0] != p)
      modifies Objects()
      ensures Valid() && slotsUsed == 0 && slots[0] == old(slots[0])
      ensures Framing.PacketsOf(items) == old(Framing.PacketsOf(items)) && old(items) <= items
      ensures unchanged(p, p.buffer) && delays >= old(delays) && (old(Answered()) ==> Answered())
    {
      hide Framing.Encode;
      hide Framing.PacketsOf;
      hide Framing.Syncs;
      while slotsUsed >= NUMBER_OF_SLOTS - 1
        invariant Valid() && slots[0] == old(slots[0])
        invariant Framing.PacketsOf(items) == old(Framing.PacketsOf(items)) && old(items) <= items
        invariant unchanged(p, p.buffer) && (slotsUsed == 1 ==> slots[0] != p)
        invariant delays >= old(delays) && (old(Answered()) ==> Answered())
        decreases slotsUsed, 3 + |current.payload| - pos, gap
      {
        Delay();
      }
    }

    method Enqueue(p: Packet)
      requires Valid() && slotsUsed == 0 && p.Valid() && p.rp == 0
      modifies this, slots
      ensures Valid() && slotsUsed == 1 && slots[0] == p
      ensures items == old(items) + [Framing.Packet(WirePacket(p.ptype, p.chan, p.Content()))]
      ensures Framing.PacketsOf(items) == old(Framing.PacketsOf(items)) + [WirePacket(p.ptype, p.chan, p.Content())]
      ensures delays == old(delays) && Framing.Syncs(items) == old(Framing.Syncs(items))
    {
      hide Framing.Encode;
      hide Framing.Syncs;
      current := WirePacket(p.ptype, p.chan, p.Content());
      Framing.EncodeAppend(items, Framing.Packet(current));
      Framing.PacketsOfAppend(items, Framing.Packet(current));
      Framing.SyncsAppend(items, Framing.Packet(current));
      assert Framing.Encode(items) == wire + [] == wire;
      items := items + [Framing.Packet(current)];
      slots[slotsUsed] := p;
      slotsUsed := slotsUsed + 1;
      // no packet before, so need to start sending
      txstate := TxType;
      pos := 0;
      assert Left() == Framing.Frame(current);
    }

    /** serial_flush */
    method Flush()
      requires Valid()
      modifies Objects()
      ensures Valid() && slotsUsed == 0 && wire == Framing.Encode(items)
      ensures Framing.PacketsOf(items) == old(Framing.PacketsOf(items))
      ensures delays >= old(delays) && (old(Answered()) ==> Answered())
    {
      hide Framing.Encode;
      hide Framing.PacketsOf;
      hide Framing.Syncs;
      while slotsUsed > 0
        invariant Valid() && slots[0] == old(slots[0]) && delays >= old(delays) && (old(Answered()) ==> Answered())
        invariant Framing.PacketsOf(items) == old(Framing.PacketsOf(items)) && old(items) <= items
        decreases slotsUsed, 3 + |current.payload| - pos, gap
      {
        Delay();
      }
      assert wire + [] == wire;
    }
  }
}
