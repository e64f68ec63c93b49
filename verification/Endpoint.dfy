/**
 The far side of a channel: the provider's submit_call_data, the wire and the server, seen from
 the channel (firmware/provider.h, firmware/serial.c).

 One exchange at a time: the packet's bytes are taken out of its buffer one by one, then the
 reply is written into the same buffer one by one, then the callback is due. How long each of
 these steps takes is given by schedule, an arbitrary function; nothing is assumed of it.
 */
module Endpoints {
  import opened Wire
  import opened Packets

  /** What has gone over the wire. */
  datatype WirePacket = WirePacket(ptype: byte, chan: int, payload: seq<byte>)

  /** What the server answers. */
  datatype Reply = Reply(ptype: byte, payload: seq<byte>)

  datatype Callback = PullCallback | PushCallback | CloseCallback

  datatype Stage = Idle | TxHead | TxData | RxHead | RxData

  /** An arbitrary environment: the number of polls before step k, the delays inside submit k, the k-th reply. */
  datatype Environment = Environment(schedule: nat -> nat, submitDelays: nat -> nat, answers: nat -> Reply)

  class Endpoint {
    const env: Environment
    const capacity: nat            // of the packets handed in
    var polls: nat                 // number of polls with a packet in flight
    var clock: nat                 // number of steps taken
    var pause: nat                 // polls left before the next step
    var stage: Stage
    var packet: Packet?            // the one in flight
    var callback: Callback
    var asked: nat                 // number of submits
    var sent: seq<WirePacket>      // transmitted completely
    var taken: seq<byte>           // payload of the packet being transmitted
    ghost var txdata: seq<byte>    // what the packet in flight held when it was submitted
    ghost var txchan: int
    ghost var txtype: byte

    constructor (env: Environment, capacity: nat)
      requires capacity <= 255
      ensures Valid() && !Busy() && asked == 0 && sent == [] && packet == null && polls == 0
      ensures this.env == env && this.capacity == capacity
    {
      this.env, this.capacity := env, capacity;
      polls, clock, pause, stage, packet := 0, 0, 0, Idle, null;
      callback, asked, sent, taken := PullCallback, 0, [], [];
      txdata, txchan, txtype := [], 0, 0;
    }

    predicate Busy()
      reads this
    {
      stage != Idle
    }

    function Answer(): Reply
      requires Busy() && asked > 0
      reads this
    {
      env.answers(asked - 1)
    }

    /** While a packet is in flight nobody else may touch it; Valid says what it then holds. */
    ghost predicate Valid()
      reads this, packet, if packet != null then {packet.buffer} else {}
    {
      && (Busy() ==>
            && packet != null && packet.Valid() && packet.buffer.Length == capacity && asked > 0
            && |txdata| <= capacity && |Answer().payload| <= capacity)
      && (stage == TxHead || stage == TxData ==>
            && packet.wp == |txdata| && packet.Content() == txdata && packet.chan == txchan && packet.ptype == txtype
            && packet.rp <= |txdata| && taken == txdata[..packet.rp])
      && (stage == TxHead ==> packet.rp == 0)
      && (stage == TxData ==> packet.rp < |txdata|)
      && (stage == RxHead || stage == RxData ==> packet.rp == |txdata|)
      && (stage == RxData ==>
            && packet.ptype == Answer().ptype
            && packet.wp < |Answer().payload| && packet.Content() == Answer().payload[..packet.wp])
    }

    /** All packets submitted so far, transmitted or still being transmitted. */
    ghost function Log(): seq<WirePacket>
      reads this
    {
      if stage == TxHead || stage == TxData then sent + [WirePacket(txtype, txchan, txdata)] else sent
    }

    /** Steps left until the callback. */
    ghost function StepsLeft(): nat
      requires Valid()
      reads this, packet, if packet != null then {packet.buffer} else {}
    {
      match stage
      case Idle => 0
      case TxHead => 2 + |txdata| + |Answer().payload|
      case TxData => 1 + (|txdata| - packet.rp) + |Answer().payload|
      case RxHead => 1 + |Answer().payload|
      case RxData => |Answer().payload| - packet.wp
    }

    /** Hand over a packet whose read pointer is at the start; the reply comes back into the same packet. */
    method Submit(p: Packet, callback: Callback)
      requires Valid() && !Busy()
      requires p.Valid() && p.rp == 0 && p.buffer.Length == capacity
      requires |env.answers(asked).payload| <= capacity
      modifies this
      ensures Valid() && Busy() && packet == p && this.callback == callback && asked == old(asked) + 1
      ensures Log() == old(Log()) + [WirePacket(p.ptype, p.chan, p.Content())]
      ensures txdata == p.Content() && polls == old(polls)
    {
      packet := p;
      this.callback := callback;
      asked := asked + 1;
      stage := TxHead;
      taken := [];
      pause := env.schedule(clock);
      txdata, txchan, txtype := p.Content(), p.chan, p.ptype;
    }

    /**
     One poll of the wire. Says whether the callback is due; the packet then holds the reply.
     */
    method Step() returns (done: bool)
      requires Valid()
      modifies this, packet, if packet != null then {packet.buffer} else {}
      ensures Valid() && asked == old(asked) && packet == old(packet) && callback == old(callback)
      ensures polls == old(polls) + if old(Busy()) then 1 else 0
      ensures txdata == old(txdata) && Log() == old(Log())
      ensures !old(Busy()) ==> !Busy() && !done
      ensures old(Busy()) ==> done == !Busy()
      ensures !old(Busy()) && packet != null ==> unchanged(packet, packet.buffer)
      ensures old(Busy()) && Busy() ==>
                StepsLeft() < old(StepsLeft()) || (StepsLeft() == old(StepsLeft()) && pause < old(pause))
      ensures done ==> packet.Valid() && packet.rp == |txdata| && packet.ptype == env.answers(asked - 1).ptype
                       && packet.Content() == env.answers(asked - 1).payload
    {
      done := false;
      if stage == Idle {
        return;
      }
      polls := polls + 1;
      hide Valid;
      hide StepsLeft;
      if pause > 0 {
        Pause(pause - 1, clock);
        return;
      }
      Pause(env.schedule(clock + 1), clock + 1);
      if stage == TxHead || stage == TxData {
        Transmit();
      } else {
        done := Receive();
      }
    }

    /** The bookkeeping of time; nothing else changes. */
    method Pause(newPause: nat, newClock: nat)
      requires Valid()
      modifies this`pause, this`clock
      ensures Valid() && StepsLeft() == old(StepsLeft()) && Log() == old(Log()) && pause == newPause
    {
      pause, clock := newPause, newClock;
    }

    method Transmit()
      requires Valid() && (stage == TxHead || stage == TxData)
      modifies this`stage, this`taken, this`sent, packet`rp
      ensures Valid() && Busy() && txdata == old(txdata) && Log() == old(Log())
      ensures StepsLeft() < old(StepsLeft())
    {
      if stage == TxHead {
        if packet.wp == 0 {
          assert packet.Content() == [];
          sent := sent + [WirePacket(packet.ptype, packet.chan, [])];
          stage := RxHead;
        } else {
          stage := TxData;
        }
      } else {
        var ch := packet.ReadChar();
        taken := taken + [ch];
        if !packet.HasData() {
          assert taken == txdata;
          sent := sent + [WirePacket(packet.ptype, packet.chan, taken)];
          stage := RxHead;
        }
      }
    }

    method Receive() returns (done: bool)
      requires Valid() && (stage == RxHead || stage == RxData)
      modifies this`stage, packet, packet.buffer
      ensures Valid() && done == !Busy() && Log() == old(Log())
      ensures Busy() ==> StepsLeft() < old(StepsLeft())
      ensures done ==> packet.Valid() && packet.rp == |txdata| && packet.ptype == env.answers(asked - 1).ptype
                       && packet.Content() == env.answers(asked - 1).payload
    {
      done := false;
      if stage == RxHead {
        var rc := packet.SetWrite(packet.chan, Answer().ptype, |Answer().payload|);
        stage := RxData;
        if |Answer().payload| == 0 {
          done := true;
          stage := Idle;
        }
      } else {
        packet.WriteChar(Answer().payload[packet.wp]);
        if packet.wp == |Answer().payload| {
          done := true;
          stage := Idle;
        }
      }
    }
  }
}
