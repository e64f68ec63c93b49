/** Frames on the serial line: what the firmware sends and how the server finds the frames again. */
module Framing {
  import opened Wire
  import opened Endpoints

  /** What goes over the line: packets, and FS_SYNC bytes between them. */
  datatype Item = Sync | Packet(packet: WirePacket)

  /** Command, total length, channel, payload; each field as the byte the UART gets. */
  function Frame(p: WirePacket): (f: seq<byte>)
    ensures |f| == 3 + |p.payload|
  {
    [p.ptype, (|p.payload| + 3) % 256, p.chan % 256] + p.payload
  }

  function EncodeItem(i: Item): seq<byte> {
    match i
    case Sync => [FS_SYNC]
    case Packet(p) => Frame(p)
  }

  function Encode(items: seq<Item>): seq<byte> {
    if items == [] then [] else Encode(items[..|items| - 1]) + EncodeItem(items[|items| - 1])
  }

  /** Sending a byte moves it from what is left of a frame to what has been sent. */
  lemma {:induction false} ByteSent(all: seq<byte>, sent: seq<byte>, frame: seq<byte>, pos: nat, b: byte)
    requires pos < |frame| && frame[pos] == b && all == sent + frame[pos..]
    ensures all == (sent + [b]) + frame[pos + 1..]
  {
    assert frame[pos..] == [b] + frame[pos + 1..];
  }

  lemma {:induction false} EncodeAppend(items: seq<Item>, i: Item)
    ensures Encode(items + [i]) == Encode(items) + EncodeItem(i)
  {
    assert (items + [i])[..|items|] == items;
  }

  function PacketsOf(items: seq<Item>): seq<WirePacket> {
    if items == [] then []
    else PacketsOf(items[..|items| - 1])
         + if items[|items| - 1].Packet? then [items[|items| - 1].packet] else []
  }

  lemma {:induction false} PacketsOfAppend(items: seq<Item>, i: Item)
    ensures PacketsOf(items + [i]) == PacketsOf(items) + if i.Packet? then [i.packet] else []
  {
    assert (items + [i])[..|items|] == items;
  }

  /** The number of FS_SYNC bytes between the packets. */
  function Syncs(items: seq<Item>): nat {
    if items == [] then 0 else Syncs(items[..|items| - 1]) + if items[|items| - 1].Sync? then 1 else 0
  }

  lemma {:induction false} SyncsAppend(items: seq<Item>, i: Item)
    ensures Syncs(items + [i]) == Syncs(items) + if i.Sync? then 1 else 0
  {
    assert (items + [i])[..|items|] == items;
  }

  // ---------------------------------------------------------------------------------------
  // Decoding a whole stream at once

  datatype Decoded = Decoded(frames: seq<seq<byte>>, rest: seq<byte>)

  /**
   The frames in a byte stream, and the bytes of a frame that is not complete yet. An FS_SYNC and a
   byte that is not followed by a possible length are skipped.
   */
  function Decode(s: seq<byte>): Decoded {
    if |s| <= FSP_LEN then Decoded([], s)
    else if s[FSP_CMD] == FS_SYNC || s[FSP_LEN] < FSP_DATA then Decode(s[1..])
    else if |s| >= s[FSP_LEN] then
      var d := Decode(s[s[FSP_LEN]..]);
      Decoded([s[..s[FSP_LEN]]] + d.frames, d.rest)
    else Decoded([], s)
  }

  lemma {:induction false} DecodeSkips(s: seq<byte>)
    requires |s| > FSP_LEN && (s[FSP_CMD] == FS_SYNC || s[FSP_LEN] < FSP_DATA)
    ensures Decode(s) == Decode(s[1..])
  {
  }

  lemma {:induction false} DecodeTakes(s: seq<byte>)
    requires |s| > FSP_LEN && s[FSP_CMD] != FS_SYNC && FSP_DATA <= s[FSP_LEN] <= |s|
    ensures var len := s[FSP_LEN]; var d := Decode(s[len..]);
            Decode(s) == Decoded([s[..len]] + d.frames, d.rest)
  {
  }

  lemma {:induction false} DecodeWaits(s: seq<byte>)
    requires |s| <= FSP_LEN || (s[FSP_CMD] != FS_SYNC && s[FSP_LEN] >= FSP_DATA && |s| < s[FSP_LEN])
    ensures Decode(s) == Decoded([], s)
  {
  }

  lemma {:induction false} DecodeRestShort(s: seq<byte>)
    ensures |Decode(s).rest| <= 254
    ensures Decode(Decode(s).rest) == Decoded([], Decode(s).rest)
    decreases |s|
  {
    if |s| > FSP_LEN {
      if s[FSP_CMD] == FS_SYNC || s[FSP_LEN] < FSP_DATA {
        DecodeRestShort(s[1..]);
      } else if |s| >= s[FSP_LEN] {
        DecodeRestShort(s[s[FSP_LEN]..]);
      }
    }
  }

  /** A stream can be decoded piece by piece. */
  lemma {:induction false} DecodeAppend(s: seq<byte>, t: seq<byte>)
    ensures var d := Decode(s); var e := Decode(d.rest + t);
            Decode(s + t) == Decoded(d.frames + e.frames, e.rest)
    decreases |s|
  {
    hide Decode;
    if |s| > FSP_LEN && (s[FSP_CMD] == FS_SYNC || s[FSP_LEN] < FSP_DATA) {
      DecodeAppend(s[1..], t);
      assert (s + t)[1..] == s[1..] + t;
      DecodeSkips(s);
      DecodeSkips(s + t);
    } else if |s| > FSP_LEN && |s| >= s[FSP_LEN] {
      var len := s[FSP_LEN];
      DecodeAppend(s[len..], t);
      assert (s + t)[len..] == s[len..] + t;
      assert (s + t)[..len] == s[..len];
      DecodeTakes(s);
      DecodeTakes(s + t);
      var d, e := Decode(s[len..]), Decode(Decode(s[len..]).rest + t);
      assert [s[..len]] + (d.frames + e.frames) == ([s[..len]] + d.frames) + e.frames;
    } else {
      DecodeWaits(s);
    }
  }

  // ---------------------------------------------------------------------------------------
  // Encoding and decoding

  function Frames(ps: seq<WirePacket>): (fs: seq<seq<byte>>)
    ensures |fs| == |ps|
    ensures forall k :: 0 <= k < |ps| ==> fs[k] == Frame(ps[k])
  {
    if ps == [] then [] else Frames(ps[..|ps| - 1]) + [Frame(ps[|ps| - 1])]
  }

  ghost predicate Sendable(p: WirePacket) {
    p.ptype != FS_SYNC && |p.payload| <= 252
  }

  lemma {:induction false} DecodeItem(i: Item, before: seq<byte>)
    requires before == [] || before == [FS_SYNC]
    requires i.Packet? ==> Sendable(i.packet)
    ensures var d := Decode(before + EncodeItem(i));
            && d.frames == (if i.Packet? then [Frame(i.packet)] else [])
            && (d.rest == [] || d.rest == [FS_SYNC])
  {
    var s := before + EncodeItem(i);
    if i.Packet? {
      var f := Frame(i.packet);
      assert f[..|f|] == f && f[|f|..] == [];
      assert Decode([]) == Decoded([], []);
      assert f[FSP_LEN] == |f|;
      assert Decode(f) == Decoded([f], []);
      if before != [] {
        assert s[1..] == f;
      } else {
        assert s == f;
      }
    } else if before != [] {
      assert s[1..] == [FS_SYNC];
    } else {
      assert s == [FS_SYNC];
    }
  }

  /**
   The round trip: whatever FS_SYNC bytes stand between the frames, decoding gives the frames of
   the packets and nothing else, and leaves at most one FS_SYNC.
   */
  lemma {:induction false} DecodeEncode(items: seq<Item>)
    requires forall i :: i in items && i.Packet? ==> Sendable(i.packet)
    ensures Decode(Encode(items)).frames == Frames(PacketsOf(items))
    ensures Decode(Encode(items)).rest == [] || Decode(Encode(items)).rest == [FS_SYNC]
    decreases |items|
  {
    if items != [] {
      var before, last := items[..|items| - 1], items[|items| - 1];
      DecodeEncode(before);
      DecodeAppend(Encode(before), EncodeItem(last));
      DecodeItem(last, Decode(Encode(before)).rest);
      if last.Packet? {
        FramesAppend(PacketsOf(before), last.packet);
      }
    }
  }

  lemma {:induction false} FramesAppend(ps: seq<WirePacket>, p: WirePacket)
    ensures Frames(ps + [p]) == Frames(ps) + [Frame(p)]
  {
  }

  /** A frame determines its packet, up to the byte the channel number is sent as. */
  lemma {:induction false} FrameInjective(p: WirePacket, q: WirePacket)
    requires Frame(p) == Frame(q) && 0 <= p.chan < 256 && 0 <= q.chan < 256
    ensures p == q
  {
    assert p.ptype == Frame(p)[0] && p.chan == Frame(p)[2] && p.payload == Frame(p)[3..];
    assert q.ptype == Frame(q)[0] && q.chan == Frame(q)[2] && q.payload == Frame(q)[3..];
  }

  lemma {:induction false} FramesShorter(s: seq<byte>)
    ensures forall k :: 0 <= k < |Decode(s).frames| ==> |Decode(s).frames[k]| <= |s|
    decreases |s|
  {
    if |s| > FSP_LEN {
      if s[FSP_CMD] == FS_SYNC || s[FSP_LEN] < FSP_DATA {
        FramesShorter(s[1..]);
      } else if |s| >= s[FSP_LEN] {
        FramesShorter(s[s[FSP_LEN]..]);
      }
    }
  }

  /** Exactly the packets of at most 252 bytes whose type is not FS_SYNC survive the line. */
  lemma {:induction false} RoundTripExact(p: WirePacket)
    ensures Decode(Frame(p)) == Decoded([Frame(p)], []) <==> Sendable(p)
  {
    var f := Frame(p);
    if Sendable(p) {
      DecodeItem(Packet(p), []);
      assert [] + EncodeItem(Packet(p)) == f;
      assert f[..|f|] == f && f[|f|..] == [];
      assert Decode([]) == Decoded([], []);
      assert Decode(f) == Decoded([f], []);
    } else {
      FramesShorter(f[1..]);
      assert f[FSP_CMD] == FS_SYNC || f[FSP_LEN] < |f|;
      if f[FSP_CMD] == FS_SYNC || f[FSP_LEN] < FSP_DATA {
        assert Decode(f) == Decode(f[1..]);
        assert |Decode(f).frames| == 1 ==> |Decode(f).frames[0]| < |f|;
      } else {
        assert |Decode(f).frames[0]| == f[FSP_LEN] < |f|;
      }
    }
  }

  // ---------------------------------------------------------------------------------------
  // Streams with other bytes between the frames

  /** A byte that is passed over, or a frame. */
  datatype Piece = Skip(b: byte) | Took(frame: seq<byte>)

  function Glued(pieces: seq<Piece>, rest: seq<byte>): seq<byte> {
    if pieces == [] then rest
    else (match pieces[0] case Skip(b) => [b] case Took(f) => f) + Glued(pieces[1..], rest)
  }

  function TookOf(pieces: seq<Piece>): seq<seq<byte>> {
    if pieces == [] then []
    else (if pieces[0].Took? then [pieces[0].frame] else []) + TookOf(pieces[1..])
  }

  /**
   Only an FS_SYNC (127), and a byte in front of one below 3, is passed over; a frame starts with another byte,
   and its second one is its length; what is left over is a single byte, or begins a frame that is longer.
   */
  ghost predicate Legal(pieces: seq<Piece>, rest: seq<byte>) {
    if pieces == [] then |rest| <= 1 || (rest[0] != 127 && rest[1] >= 3 && rest[1] > |rest|)
    else
      var more := Glued(pieces[1..], rest);
      && (match pieces[0]
          case Skip(b) => more != [] && (b == 127 || more[0] < 3)
          case Took(f) => |f| >= 3 && f[0] != 127 && f[1] == |f|)
      && Legal(pieces[1..], rest)
  }

  /** A stream that is cut so is decoded so, whatever is between its frames. */
  lemma {:induction false} DecodeCut(pieces: seq<Piece>, rest: seq<byte>)
    requires Legal(pieces, rest)
    ensures Decode(Glued(pieces, rest)) == Decoded(TookOf(pieces), rest)
    decreases |pieces|
  {
    if pieces != [] {
      DecodeCut(pieces[1..], rest);
      var s, more := Glued(pieces, rest), Glued(pieces[1..], rest);
      match pieces[0] {
        case Skip(b) =>
          assert s[1..] == more;
          DecodeSkips(s);
        case Took(f) =>
          assert s[..|f|] == f && s[|f|..] == more;
          DecodeTakes(s);
      }
    }
  }
}
