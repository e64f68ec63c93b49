/** The server's receiver (pcserver/in_device.c, in_device_loop). */
module InDevices {
  import opened Wire
  import opened Framing

  const BUFSIZE := 8192

  /** What a read gives: an error (worth trying again or not), or some bytes, possibly none. */
  datatype ReadOutcome = ReadError(again: bool) | ReadData(bytes: seq<byte>)

  class InDevice {
    const buf: array<byte>
    var rdp: nat
    var wrp: nat
    var delivered: seq<seq<byte>>   // the frames given to dev_dispatch

    ghost predicate Valid()
      reads this, buf
    {
      buf.Length == BUFSIZE && rdp <= wrp <= BUFSIZE && |Pending()| <= 254
    }

    /** The bytes received that are not dispatched or skipped yet. */
    ghost function Pending(): seq<byte>
      requires rdp <= wrp <= buf.Length
      reads this, buf
    {
      buf[rdp..wrp]
    }

    constructor ()
      ensures Valid() && Pending() == [] && delivered == [] && fresh(buf) && wrp == 0
    {
      buf := new byte[BUFSIZE](_ => 0);
      rdp, wrp, delivered := 0, 0, [];
    }

    method Dispatch(start: nat, len: nat)
      requires start + len <= buf.Length
      modifies this`delivered
      ensures delivered == old(delivered) + [buf[start..start + len]]
    {
      delivered := delivered + [buf[start..start + len]];
    }

    /** One call of the main loop, with what the read gave. */
    method Loop(outcome: ReadOutcome) returns (rc: int)
      requires Valid()
      requires outcome.ReadData? ==> |outcome.bytes| <= BUFSIZE - wrp
      modifies this, buf
      ensures Valid()
      ensures outcome.ReadError? ==>
                rc == (if outcome.again then 1 else 2) && delivered == old(delivered) && Pending() == old(Pending()) && wrp == old(wrp)
      ensures outcome.ReadData? ==>
                var d := Decode(old(Pending()) + outcome.bytes);
                rc == 0 && delivered == old(delivered) + d.frames && Pending() == d.rest
      // a full buffer is compacted by the next call
      ensures outcome.ReadData? && old(wrp) == BUFSIZE ==> wrp <= 254
    {
      if outcome.ReadError? {
        return if outcome.again then 1 else 2;
      }
      Store(outcome.bytes);
      Compact();
      Parse();
      rc := 0;
    }

    /** The read itself: os_read into the buffer behind wrp. */
    method Store(bytes: seq<byte>)
      requires Valid() && |bytes| <= BUFSIZE - wrp
      modifies this`wrp, buf
      ensures rdp <= wrp <= BUFSIZE && wrp == old(wrp) + |bytes| && Pending() == old(Pending()) + bytes
    {
      for i := 0 to |bytes|
        modifies buf
        invariant buf[..wrp] == old(buf[..wrp]) && buf[wrp..wrp + i] == bytes[..i]
      {
        buf[wrp + i] := bytes[i];
      }
      assert buf[rdp..wrp] == old(buf[rdp..wrp]) by {
        assert buf[rdp..wrp] == buf[..wrp][rdp..];
      }
      assert buf[rdp..wrp + |bytes|] == buf[rdp..wrp] + buf[wrp..wrp + |bytes|];
      wrp := wrp + |bytes|;
    }

    /** When the end of the buffer is reached or nothing is pending, move what is pending to the front. */
    method Compact()
      requires buf.Length == BUFSIZE && rdp <= wrp <= BUFSIZE
      modifies this`rdp, this`wrp, buf
      ensures rdp <= wrp <= BUFSIZE && Pending() == old(Pending())
      ensures if old(rdp) != 0 && (old(wrp) == BUFSIZE || old(rdp) == old(wrp)) then rdp == 0 && wrp == old(wrp) - old(rdp)
              else rdp == old(rdp) && wrp == old(wrp)
    {
      if rdp != 0 && (wrp == BUFSIZE || rdp == wrp) {
        if rdp != wrp {
          for i := 0 to wrp - rdp
            modifies buf
            invariant buf[..i] == old(buf[rdp..wrp])[..i]
            invariant buf[rdp + i..wrp] == old(buf[rdp..wrp])[i..]
          {
            assert buf[rdp + i] == buf[rdp + i..wrp][0];
            buf[i] := buf[rdp + i];
            assert buf[rdp + i + 1..wrp] == buf[rdp + i..wrp][1..];
          }
        }
        wrp := wrp - rdp;
        rdp := 0;
      }
    }

    /** Dispatch every complete frame in the buffer. */
    method Parse()
      requires buf.Length == BUFSIZE && rdp <= wrp <= BUFSIZE
      modifies this`rdp, this`delivered
      ensures Valid()
      ensures delivered == old(delivered) + Decode(old(Pending())).frames && Pending() == Decode(old(Pending())).rest
    {
      hide Decode;
      ghost var d := Decode(Pending());
      DecodeRestShort(Pending());
      while wrp - rdp > FSP_LEN
        invariant rdp <= wrp
        invariant delivered + Decode(Pending()).frames == old(delivered) + d.frames && Decode(Pending()).rest == d.rest
      {
        ghost var s := Pending();
        var plen := buf[rdp + FSP_LEN];
        var cmd := buf[rdp + FSP_CMD];
        assert s[FSP_LEN] == plen && s[FSP_CMD] == cmd;
        if cmd == FS_SYNC || plen < FSP_DATA {
          DecodeSkips(s);
          rdp := rdp + 1;
          assert Pending() == s[1..];
        } else if wrp - rdp >= plen {
          DecodeTakes(s);
          Dispatch(rdp, plen);
          rdp := rdp + plen;
          assert Pending() == s[plen..] && delivered[|delivered| - 1] == s[..plen];
        } else {
          break;
        }
      }
      DecodeWaits(Pending());
    }
  }

  function Min(a: int, b: int): int {
    if a < b then a else b
  }

  /**
   Any number of calls on any byte stream, call k reading up to sizes[k] bytes (and no more than
   are there, or fit): the frames delivered are those of the whole stream read so far, decoded at
   once. Two calls that may read do read something, as long as there is something left.
   */
  method ReceiveRun(stream: seq<byte>, sizes: seq<nat>) returns (frames: seq<seq<byte>>, consumed: nat, pending: seq<byte>)
    ensures consumed <= |stream|
    ensures frames == Decode(stream[..consumed]).frames && pending == Decode(stream[..consumed]).rest
    ensures |pending| <= 254
    ensures (forall k :: 0 <= k < |sizes| ==> sizes[k] > 0) ==> consumed == |stream| || |sizes| <= 2 * consumed + 1
  {
    hide Decode;
    var dev := new InDevice();
    consumed := 0;
    DecodeWaits([]);
    assert stream[..0] == [];
    for k := 0 to |sizes|
      invariant fresh(dev) && fresh(dev.buf) && dev.Valid() && consumed <= |stream|
      invariant dev.delivered == Decode(stream[..consumed]).frames && dev.Pending() == Decode(stream[..consumed]).rest
      invariant (forall j :: 0 <= j < k ==> sizes[j] > 0) ==>
                  consumed == |stream| || k + (if dev.wrp < BUFSIZE then 0 else 1) <= 2 * consumed + 1
      invariant k == 0 ==> dev.wrp < BUFSIZE && consumed == 0
    {
      var n := Min(Min(sizes[k], |stream| - consumed), BUFSIZE - dev.wrp);
      var bytes := stream[consumed..consumed + n];
      DecodeAppend(stream[..consumed], bytes);
      assert stream[..consumed] + bytes == stream[..consumed + n];
      var rc := dev.Loop(ReadData(bytes));
      consumed := consumed + n;
    }
    frames := dev.delivered;
    pending := dev.buf[dev.rdp..dev.wrp];
  }

  /** Reading a stream in one way or another makes no difference to the frames delivered. */
  method ChunkIndependence(stream: seq<byte>, sizes1: seq<nat>, sizes2: seq<nat>)
    returns (frames1: seq<seq<byte>>, frames2: seq<seq<byte>>)
    requires forall k :: 0 <= k < |sizes1| ==> sizes1[k] > 0
    requires forall k :: 0 <= k < |sizes2| ==> sizes2[k] > 0
    requires |sizes1| > 2 * |stream| && |sizes2| > 2 * |stream|
    ensures frames1 == frames2 == Decode(stream).frames
  {
    var n1, n2, p1, p2;
    frames1, n1, p1 := ReceiveRun(stream, sizes1);
    frames2, n2, p2 := ReceiveRun(stream, sizes2);
    assert stream[..n1] == stream == stream[..n2];
  }
}
