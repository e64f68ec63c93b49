/** Packet buffers (firmware/packet.h, firmware/packet.c). */
module Packets {
  import opened Wire

  class Packet {
    const buffer: array<byte>
    var ptype: byte
    var wp: nat
    var rp: nat
    var chan: int

    ghost predicate Valid()
      reads this
    {
      wp <= buffer.Length <= 255 && rp <= buffer.Length
    }

    /** The bytes written so far. */
    ghost function Content(): seq<byte>
      requires Valid()
      reads this, buffer
    {
      buffer[..wp]
    }

    /** The bytes written and not yet read. */
    ghost function Unread(): seq<byte>
      requires Valid() && rp <= wp
      reads this, buffer
    {
      buffer[rp..wp]
    }

    constructor (len: nat)
      requires len <= 255
      ensures Valid() && fresh(buffer) && buffer.Length == len && wp == rp == 0
    {
      buffer := new byte[len](_ => 0);
      ptype, wp, rp, chan := 0, 0, 0, -3;
    }

    method Reset(channo: int)
      modifies this
      ensures rp == wp == 0 && chan == channo && ptype == old(ptype)
    {
      rp := 0;
      wp := 0;
      chan := channo;
    }

    predicate IsFull()
      reads this
    {
      wp == buffer.Length
    }

    /** Open the packet for receiving; refused if the data would not fit. The read pointer is left alone. */
    method SetWrite(channo: int, ty: byte, datalen: nat) returns (rc: int)
      requires Valid()
      modifies this
      ensures rc == if datalen > buffer.Length then -1 else 0
      ensures rc == 0 ==> ptype == ty && chan == channo && wp == 0 && rp == old(rp)
      ensures rc != 0 ==> ptype == old(ptype) && chan == old(chan) && wp == old(wp) && rp == old(rp)
    {
      if datalen > buffer.Length {
        return -1;
      }
      ptype := ty;
      chan := channo;
      wp := 0;
      return 0;
    }

    /** The buffer has been filled from outside; start reading at its beginning. */
    method SetFilled(channo: int, ty: byte, datalen: nat)
      modifies this
      ensures ptype == ty && chan == channo && wp == datalen && rp == 0
    {
      ptype := ty;
      chan := channo;
      wp := datalen;
      rp := 0;
    }

    /** Append a byte; a full buffer drops it. */
    method WriteChar(ch: byte)
      requires Valid()
      modifies this`wp, buffer
      ensures Valid()
      ensures if old(wp) < buffer.Length then wp == old(wp) + 1 && Content() == old(Content()) + [ch]
              else wp == old(wp) && Content() == old(Content())
    {
      if wp < buffer.Length {
        buffer[wp] := ch;
        wp := wp + 1;
      }
    }

    method ReadChar() returns (ch: byte)
      requires Valid() && rp < buffer.Length
      modifies this`rp
      ensures Valid() && rp == old(rp) + 1 && ch == buffer[old(rp)]
    {
      ch := buffer[rp];
      rp := rp + 1;
    }

    /** Commit a read; says whether there is more to read. */
    method Next() returns (more: bool)
      requires Valid() && rp < buffer.Length
      modifies this`rp
      ensures Valid() && rp == old(rp) + 1 && more == (rp < wp)
    {
      rp := rp + 1;
      more := rp < wp;
    }

    predicate IsLast()
      reads this
    {
      ptype == FS_DATA_EOF
    }

    /** The next byte to read is the last one and goes out with EOF. */
    predicate CurrentIsEof()
      reads this
    {
      IsLast() && rp + 1 >= wp
    }

    predicate HasData()
      reads this
    {
      rp < wp
    }
  }
}
