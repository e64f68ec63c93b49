/**
 Block counts of directory entries (firmware/dirconverter.c, get_lineno).

 A Commodore block holds 254 bytes. The firmware turns a four byte file size into a block count
 without dividing: it multiplies by 1/256 and by a truncated series for 256/254.
 */
module DirConverter {
  import opened Wire

  const MAX_LINE_NUMBER := 65535

  function Min(a: int, b: int): int {
    if a < b then a else b
  }

  /** The file size in the four size bytes of an entry, low byte first. */
  function Size(b0: byte, b1: byte, b2: byte, b3: byte): nat {
    b0 + 0x100 * b1 + 0x10000 * b2 + 0x1000000 * b3
  }

  /** The number of 254 byte blocks that hold n bytes. */
  function Blocks(n: nat): nat {
    (n + 253) / 254
  }

  /** x times 256/254, as the series x + x/128 + x/128^2 + ... with one added for the missing terms. */
  function Series(x: nat): nat {
    x + x / 0x80 + x / 0x4000 + x / 0x20_0000 + x / 0x1000_0000 + 1
  }

  function DigitSum128(x: nat): nat {
    if x == 0 then 0 else x % 128 + DigitSum128(x / 128)
  }

  /** The block count the firmware shows for a size, as one formula. */
  function BlockCount(n: nat, estimate: bool): nat {
    if n >= 0x100_0000 then MAX_LINE_NUMBER
    else if estimate then Min(MAX_LINE_NUMBER, (n + 253) / 256)
    else Min(MAX_LINE_NUMBER, Series(n + 253) / 256)
  }

  // ---------------------------------------------------------------------------------------
  // The byte-wise computation

  /** x is the four bytes x0 to x3; the top one is at most 1 because sizes of 2^24 and more are cut off. */
  ghost predicate BytesOf(x: nat, x0: byte, x1: byte, x2: byte, x3: byte) {
    x == Size(x0, x1, x2, x3) && x3 <= 1
  }

  lemma {:induction false} SmallMultiple(d: int, k: int)
    requires d > 0 && -d < d * k < d
    ensures k == 0
  {
  }

  lemma {:induction false} Quotient(a: int, d: int, q: int, r: int)
    requires d > 0 && a == d * q + r && 0 <= r < d
    ensures a / d == q && a % d == r
  {
    var p := a / d;
    assert a == d * p + a % d;
    assert d * (q - p) == d * q - d * p;
    SmallMultiple(d, q - p);
  }

  // The slices the firmware cuts out of a 16 bit window (low byte a, high byte b).

  lemma {:induction false} Slice7(a: byte, b: byte)
    ensures (a + 0x100 * b) / 0x80 % 0x100 == a / 0x80 + 2 * (b % 0x80)
  {
    Quotient(a + 0x100 * b, 0x80, a / 0x80 + 2 * b, a % 0x80);
    Quotient(a / 0x80 + 2 * b, 0x100, b / 0x80, a / 0x80 + 2 * (b % 0x80));
  }

  lemma {:induction false} Slice6(a: byte, b: byte)
    ensures (a + 0x100 * b) / 0x40 % 4 == a / 0x40
  {
    Quotient(a + 0x100 * b, 0x40, a / 0x40 + 4 * b, a % 0x40);
    Quotient(a / 0x40 + 4 * b, 4, b, a / 0x40);
  }

  lemma {:induction false} SliceUp2(a: byte, b: byte)
    ensures (a + 0x100 * b) * 4 % 0x100 == 4 * (a % 0x40)
  {
    Quotient((a + 0x100 * b) * 4, 0x100, a / 0x40 + 4 * b, 4 * (a % 0x40));
  }

  lemma {:induction false} Slice5(a: byte, b: byte)
    ensures (a + 0x100 * b) / 0x20 % 8 == a / 0x20
  {
    Quotient(a + 0x100 * b, 0x20, a / 0x20 + 8 * b, a % 0x20);
    Quotient(a / 0x20 + 8 * b, 8, b, a / 0x20);
  }

  // x / 128^k, as the sum of the slices of its bytes

  lemma {:induction false} Shift7(x: nat, x0: byte, x1: byte, x2: byte, x3: byte)
    requires BytesOf(x, x0, x1, x2, x3)
    ensures x / 0x80 == x0 / 0x80 + 2 * (x1 % 0x80) + 0x100 * (x1 / 0x80 + 2 * (x2 % 0x80))
                        + 0x1_0000 * (x2 / 0x80 + 2 * x3)
  {
    Quotient(x, 0x80, x0 / 0x80 + 2 * x1 + 0x200 * x2 + 0x2_0000 * x3, x0 % 0x80);
  }

  lemma {:induction false} Shift14(x: nat, x0: byte, x1: byte, x2: byte, x3: byte)
    requires BytesOf(x, x0, x1, x2, x3)
    ensures x / 0x4000 == x1 / 0x40 + 4 * (x2 % 0x40) + 0x100 * (x2 / 0x40 + 4 * x3)
  {
    Quotient(x, 0x4000, x1 / 0x40 + 4 * x2 + 0x400 * x3, x0 + 0x100 * (x1 % 0x40));
  }

  lemma {:induction false} Shift21(x: nat, x0: byte, x1: byte, x2: byte, x3: byte)
    requires BytesOf(x, x0, x1, x2, x3)
    ensures x / 0x20_0000 == x2 / 0x20 + 8 * x3
    ensures x / 0x1000_0000 == 0
  {
    Quotient(x, 0x20_0000, x2 / 0x20 + 8 * x3, x0 + 0x100 * x1 + 0x1_0000 * (x2 % 0x20));
    Quotient(x, 0x1000_0000, 0, x);
  }

  // What the shifted windows add to each byte.

  function Sum0(w0: nat, w1: nat, w2: nat, w3: nat): nat {
    w0 / 0x80 % 0x100 + (w1 / 0x40 % 4 + w2 * 4 % 0x100) + (w2 / 0x20 % 8 + w3 * 8 % 0x100) + w3 / 0x10 % 0x10 + 1
  }

  function Sum1(w1: nat, w2: nat, w3: nat): nat {
    w1 / 0x80 % 0x100 + (w2 / 0x40 % 4 + w3 * 4 % 0x100) + w3 / 0x20 % 8
  }

  function Sum2(w2: nat, w3: nat): nat {
    w2 / 0x80 % 0x100 + w3 / 0x40 % 4
  }

  function Sum3(w3: nat): nat {
    w3 / 0x80 % 0x100
  }

  lemma {:induction false} Sum0Is(x0: byte, x1: byte, x2: byte, x3: byte)
    requires x3 <= 1
    ensures Sum0(x0 + 0x100 * x1, x1 + 0x100 * x2, x2 + 0x100 * x3, x3)
         == (x0 / 0x80 + 2 * (x1 % 0x80)) + (x1 / 0x40 + 4 * (x2 % 0x40)) + (x2 / 0x20 + 8 * x3) + 1
  {
    Slice7(x0, x1);
    Slice6(x1, x2);
    SliceUp2(x2, x3);
    Slice5(x2, x3);
  }

  lemma {:induction false} Sum1Is(x1: byte, x2: byte, x3: byte)
    requires x3 <= 1
    ensures Sum1(x1 + 0x100 * x2, x2 + 0x100 * x3, x3) == (x1 / 0x80 + 2 * (x2 % 0x80)) + (x2 / 0x40 + 4 * x3)
  {
    Slice7(x1, x2);
    Slice6(x2, x3);
  }

  lemma {:induction false} Sum2Is(x2: byte, x3: byte)
    requires x3 <= 1
    ensures Sum2(x2 + 0x100 * x3, x3) == x2 / 0x80 + 2 * x3 && Sum3(x3) == 0
  {
    Slice7(x2, x3);
  }

  /** The byte sums before carrying are the series. */
  lemma {:induction false} ByteSums(x: nat, x0: byte, x1: byte, x2: byte, x3: byte)
    requires BytesOf(x, x0, x1, x2, x3)
    ensures var w0, w1, w2 := x0 + 0x100 * x1, x1 + 0x100 * x2, x2 + 0x100 * x3;
            Series(x) == (x0 + Sum0(w0, w1, w2, x3)) + 0x100 * (x1 + Sum1(w1, w2, x3))
                         + 0x1_0000 * (x2 + Sum2(w2, x3)) + 0x100_0000 * (x3 + Sum3(x3))
    ensures Sum3(x3) == 0
  {
    Shift7(x, x0, x1, x2, x3);
    Shift14(x, x0, x1, x2, x3);
    Shift21(x, x0, x1, x2, x3);
    Sum0Is(x0, x1, x2, x3);
    Sum1Is(x1, x2, x3);
    Sum2Is(x2, x3);
  }

  lemma {:induction false} SumBounds(w0: nat, w1: nat, w2: nat, w3: nat)
    ensures Sum0(w0, w1, w2, w3) < 0x500 && Sum1(w1, w2, w3) < 0x500 && Sum2(w2, w3) < 0x500
  {
  }

  /** Carrying the byte sums and keeping the middle bytes is division by 256, saturated. */
  lemma {:induction false} Carries(t: nat, t0: nat, t1: nat, t2: nat, t3: nat)
    requires t == t0 + 0x100 * t1 + 0x1_0000 * t2 + 0x100_0000 * t3
    requires t0 < 0x600 && t1 < 0x600 && t2 < 0x600 && t3 <= 1
    ensures var c1 := t1 + t0 / 0x100; var c2 := t2 + c1 / 0x100; var c3 := t3 + c2 / 0x100;
            Min(MAX_LINE_NUMBER, t / 256) == if c3 > 0 then MAX_LINE_NUMBER else c1 % 0x100 + c2 % 0x100 * 0x100
  {
    var c1 := t1 + t0 / 0x100;
    var c2 := t2 + c1 / 0x100;
    Quotient(t, 0x100, c1 + 0x100 * t2 + 0x1_0000 * t3, t0 % 0x100);
    assert t / 0x100 == c1 % 0x100 + 0x100 * (c2 % 0x100) + 0x1_0000 * (t3 + c2 / 0x100);
  }

  /** Storing into a uint16_t. */
  function U16(w: nat): nat {
    if w < 0x1_0000 then w else U16(w - 0x1_0000)
  }

  /** Whether the high byte of a window is no longer the byte it was made of. */
  predicate Carried(w: nat, b: byte) {
    w / 0x100 % 0x100 != b
  }

  /** Adding to the low byte of a window: c0 is the carry out of its low byte, c1 the one out of its high byte. */
  lemma {:induction false} WindowPlus(a: byte, b: byte, add: nat, lo: byte, c0: nat, hi: byte, c1: nat)
    requires add <= 253 && a + add == lo + 0x100 * c0 && b + c0 == hi + 0x100 * c1
    ensures U16(a + 0x100 * b + add) == lo + 0x100 * hi
    ensures Carried(lo + 0x100 * hi, b) <==> c0 == 1
  {
    Quotient(lo + 0x100 * hi, 0x100, hi, lo);
  }

  ghost predicate WindowsOf(inw: seq<nat>, x0: byte, x1: byte, x2: byte, x3: byte) {
    |inw| == 4 && inw[0] == x0 + 0x100 * x1 && inw[1] == x1 + 0x100 * x2 && inw[2] == x2 + 0x100 * x3 && inw[3] == x3
  }

  /** x0 to x3 are the bytes of the size b0 to b2 plus 253. */
  ghost predicate Added(b0: byte, b1: byte, b2: byte, x0: byte, x1: byte, x2: byte, x3: byte) {
    exists c0, c1 :: 0 <= c0 <= 1 && 0 <= c1 <= 1 && CarryChain(b0, b1, b2, c0, c1, x0, x1, x2, x3)
  }

  ghost predicate CarryChain(b0: byte, b1: byte, b2: byte, c0: int, c1: int, x0: byte, x1: byte, x2: byte, x3: byte) {
    b0 + 253 == x0 + 0x100 * c0 && b1 + c0 == x1 + 0x100 * c1 && b2 + c1 == x2 + 0x100 * x3
  }

  lemma {:induction false} AddBytes(b0: byte, b1: byte, b2: byte) returns (x0: byte, x1: byte, x2: byte, x3: byte)
    ensures Added(b0, b1, b2, x0, x1, x2, x3)
    ensures BytesOf(Size(b0, b1, b2, 0) + 253, x0, x1, x2, x3)
  {
    var c0 := if b0 + 253 < 0x100 then 0 else 1;
    var c1 := if b1 + c0 < 0x100 then 0 else 1;
    x3 := if b2 + c1 < 0x100 then 0 else 1;
    x0, x1, x2 := b0 + 253 - 0x100 * c0, b1 + c0 - 0x100 * c1, b2 + c1 - 0x100 * x3;
    assert CarryChain(b0, b1, b2, c0, c1, x0, x1, x2, x3);
  }

  method GetLineno(modeByte: byte, attribs: byte, drive: byte, inp: array<byte>) returns (lineno: nat)
    requires inp.Length >= 4
    ensures modeByte == FS_DIR_MOD_NAM || modeByte == FS_DIR_MOD_NAS ==> lineno == drive
    ensures modeByte != FS_DIR_MOD_NAM && modeByte != FS_DIR_MOD_NAS ==>
              lineno == BlockCount((inp[0] as nat) + 0x100 * (inp[1] as nat) + 0x1_0000 * (inp[2] as nat)
                                   + 0x100_0000 * (inp[3] as nat), attribs / 0x10 % 2 == 1)
  {
    lineno := 0;
    if modeByte == FS_DIR_MOD_NAM || modeByte == FS_DIR_MOD_NAS {
      lineno := drive;
    } else {
      // uint16_t in[4]
      var inw := new nat[4];
      var b0: int, b1: int, b2: int, b3: int := inp[0], inp[1], inp[2], inp[3];
      inw[0] := b0 + b1 * 0x100;
      inw[1] := b1 + b2 * 0x100;
      inw[2] := b2 + b3 * 0x100;
      inw[3] := b3;

      if inw[3] > 0 {
        lineno := MAX_LINE_NUMBER;
      } else {
        ghost var x0, x1, x2, x3 := AddBytes(b0, b1, b2);
        AddRest(inw, b0, b1, b2, b3, x0, x1, x2, x3);
        lineno := FromWindows(attribs / FS_DIR_ATTR_ESTIMATE % 2 == 1, inw, Size(b0, b1, b2, b3) + 253, x0, x1, x2, x3);
      }
    }
  }

  /** Add 253, so that the bytes of a last, partly filled block count as a block of their own. */
  method AddRest(inw: array<nat>, ghost b0: byte, b1: byte, b2: byte, b3: byte,
                 ghost x0: byte, ghost x1: byte, ghost x2: byte, ghost x3: byte)
    requires WindowsOf(inw[..], b0, b1, b2, b3) && b3 == 0 && Added(b0, b1, b2, x0, x1, x2, x3)
    modifies inw
    ensures WindowsOf(inw[..], x0, x1, x2, x3)
  {
    hide U16;
    hide Carried;
    ghost var c0, c1 :| 0 <= c0 <= 1 && 0 <= c1 <= 1 && CarryChain(b0, b1, b2, c0, c1, x0, x1, x2, x3);
    WindowPlus(b0, b1, 253, x0, c0, x1, c1);
    inw[0] := U16(inw[0] + 253);
    if Carried(inw[0], b1) {
      WindowPlus(b1, b2, 1, x1, c1, x2, x3);
      inw[1] := U16(inw[1] + 1);
      if Carried(inw[1], b2) {
        WindowPlus(b2, b3, 1, x2, x3, x3, 0);
        inw[2] := U16(inw[2] + 1);
        if Carried(inw[2], b3) {
          assert U16(0 + 1) == 1 by { U16One(); }
          inw[3] := U16(inw[3] + 1);
        }
      }
    }
  }

  lemma {:induction false} U16One()
    ensures U16(1) == 1
  {
  }

  /** The part of get_lineno behind the addition of 253. */
  method FromWindows(estimate: bool, inw: array<nat>, ghost x: nat,
                     ghost x0: byte, ghost x1: byte, ghost x2: byte, ghost x3: byte)
    returns (lineno: nat)
    requires BytesOf(x, x0, x1, x2, x3) && WindowsOf(inw[..], x0, x1, x2, x3)
    ensures lineno == Min(MAX_LINE_NUMBER, (if estimate then x else Series(x)) / 256)
  {
    hide Sum0;
    hide Sum1;
    hide Sum2;
    hide Sum3;
    hide Series;
    // uint16_t tmp[4]
    var tmp := new nat[4];
    LowBytes(inw, tmp, x0, x1, x2, x3);
    ghost var t := x;
    if !estimate {
      ByteSums(x, x0, x1, x2, x3);
      SumBounds(inw[0], inw[1], inw[2], inw[3]);
      AddShifted(inw, tmp);
      t := Series(x);
      ghost var t0, t1, t2, t3 := tmp[0], tmp[1], tmp[2], tmp[3];
      PassCarries(tmp);
      Carries(t, t0, t1, t2, t3);
    } else {
      Carries(t, tmp[0], tmp[1], tmp[2], tmp[3]);
    }
    if tmp[3] > 0 {
      lineno := MAX_LINE_NUMBER;
    } else {
      lineno := tmp[1] % 0x100 + tmp[2] % 0x100 * 0x100;
    }
  }

  method LowBytes(inw: array<nat>, tmp: array<nat>, ghost x0: byte, ghost x1: byte, ghost x2: byte, ghost x3: byte)
    requires inw != tmp && tmp.Length == 4 && WindowsOf(inw[..], x0, x1, x2, x3)
    modifies tmp
    ensures tmp[0] == x0 && tmp[1] == x1 && tmp[2] == x2 && tmp[3] == x3
  {
    tmp[0] := inw[0] % 0x100;
    tmp[1] := inw[1] % 0x100;
    tmp[2] := inw[2] % 0x100;
    tmp[3] := inw[3] % 0x100;
  }

  method PassCarries(tmp: array<nat>)
    requires tmp.Length == 4
    requires tmp[0] < 0x600 && tmp[1] < 0x600 && tmp[2] < 0x600 && tmp[3] < 0x600
    modifies tmp
    ensures var c1 := old(tmp[1]) + old(tmp[0]) / 0x100;
            var c2 := old(tmp[2]) + c1 / 0x100;
            tmp[1] == c1 && tmp[2] == c2 && tmp[3] == old(tmp[3]) + c2 / 0x100
  {
    tmp[1] := U16(tmp[1] + tmp[0] / 0x100 % 0x100);
    tmp[2] := U16(tmp[2] + tmp[1] / 0x100 % 0x100);
    tmp[3] := U16(tmp[3] + tmp[2] / 0x100 % 0x100);
  }

  /** Add the terms 1/128 to 1/128^4 and the rest to the bytes in tmp. */
  method AddShifted(inw: array<nat>, tmp: array<nat>)
    requires inw != tmp && inw.Length == tmp.Length == 4
    requires tmp[0] < 0x100 && tmp[1] < 0x100 && tmp[2] < 0x100 && tmp[3] < 0x100
    modifies tmp
    ensures tmp[0] == old(tmp[0]) + Sum0(inw[0], inw[1], inw[2], inw[3])
    ensures tmp[1] == old(tmp[1]) + Sum1(inw[1], inw[2], inw[3])
    ensures tmp[2] == old(tmp[2]) + Sum2(inw[2], inw[3])
    ensures tmp[3] == old(tmp[3]) + Sum3(inw[3])
  {
    // 1/128
    tmp[0] := U16(tmp[0] + inw[0] / 0x80 % 0x100);
    tmp[1] := U16(tmp[1] + inw[1] / 0x80 % 0x100);
    tmp[2] := U16(tmp[2] + inw[2] / 0x80 % 0x100);
    tmp[3] := U16(tmp[3] + inw[3] / 0x80 % 0x100);
    // 1/128^2
    tmp[0] := U16(tmp[0] + inw[1] / 0x40 % 4 + inw[2] * 4 % 0x100);
    tmp[1] := U16(tmp[1] + inw[2] / 0x40 % 4 + inw[3] * 4 % 0x100);
    tmp[2] := U16(tmp[2] + inw[3] / 0x40 % 4);
    // 1/128^3
    tmp[0] := U16(tmp[0] + inw[2] / 0x20 % 8 + inw[3] * 8 % 0x100);
    tmp[1] := U16(tmp[1] + inw[3] / 0x20 % 8);
    // 1/128^4
    tmp[0] := U16(tmp[0] + inw[3] / 0x10 % 0x10);
    // the missing terms
    tmp[0] := U16(tmp[0] + 1);
  }

  // ---------------------------------------------------------------------------------------
  // How good the series is

  /** The truncated series, in closed form: it falls short of x/127 by the base 128 digit sum of x. */
  lemma {:induction false} SeriesDigits(x: nat)
    requires x < 0x1000_0000
    ensures 127 * (Series(x) - 1) == 128 * x - DigitSum128(x)
    ensures DigitSum128(x) % 127 == x % 127
    ensures DigitSum128(x) <= 381 + x / 0x20_0000
  {
    var a := x / 128;
    var b := a / 128;
    var c := b / 128;
    DivTwice(x, a, b, c);
    assert DigitSum128(c) == c;
    assert DigitSum128(b) == b % 128 + c;
    assert DigitSum128(a) == a % 128 + DigitSum128(b);
    assert DigitSum128(x) == x % 128 + DigitSum128(a);
    var s := DigitSum128(x);
    assert s == x - 127 * (a + b + c);
    Quotient(s, 127, s / 127, s % 127);
    Quotient(x, 127, s / 127 + a + b + c, s % 127);
  }

  lemma {:induction false} DivTwice(x: nat, a: nat, b: nat, c: nat)
    requires a == x / 128 && b == a / 128 && c == b / 128 && x < 0x1000_0000
    ensures b == x / 0x4000 && c == x / 0x20_0000 && x / 0x1000_0000 == 0
    ensures c < 128
  {
    Quotient(x, 0x4000, b, x % 128 + 128 * (a % 128));
    Quotient(x, 0x20_0000, c, x % 128 + 128 * (a % 128) + 0x4000 * (b % 128));
  }

  /** One less than the block count only where the digit sum outweighs what the last block holds. */
  lemma {:induction false} SeriesError(x: nat)
    requires x < 0x100_0000 + 253
    ensures x / 254 - 1 <= Series(x) / 256 <= x / 254
    ensures Series(x) / 256 == x / 254 <==> DigitSum128(x) <= 128 * (x % 254) + 127
  {
    SeriesDigits(x);
    var q, r, s := x / 254, x % 254, DigitSum128(x);
    // 127 * Series(x) == 32512 * q + 128 * r + 127 - s
    assert 127 * Series(x) == 32512 * q + (128 * r + 127 - s);
    var e := if s <= 128 * r + 127 then 0 else 1;
    assert -32512 <= 128 * r + 127 - s < 32512;
    var rest := Series(x) - 256 * (q - e);
    assert 127 * rest == 32512 * e + (128 * r + 127 - s);
    assert 0 <= rest < 256;
    Quotient(Series(x), 256, q - e, rest);
  }

  /** For every size: the shown count is the block count or one less, up to the saturation at 65535. */
  lemma {:induction false} BlockCountError(n: nat)
    ensures Min(MAX_LINE_NUMBER, Blocks(n) - 1) <= BlockCount(n, false) <= Min(MAX_LINE_NUMBER, Blocks(n))
  {
    if n < 0x100_0000 {
      SeriesError(n + 253);
    } else {
      SizeFloor(n);
    }
  }

  lemma {:induction false} SizeFloor(n: nat)
    requires n >= 0x100_0000
    ensures Blocks(n) > MAX_LINE_NUMBER + 1
  {
  }

  /** For every size: exactly when the shown count is the block count. */
  lemma {:induction false} BlockCountExact(n: nat)
    ensures BlockCount(n, false) == Min(MAX_LINE_NUMBER, Blocks(n))
            <==> Blocks(n) > MAX_LINE_NUMBER || DigitSum128(n + 253) <= 128 * ((n + 253) % 254) + 127
  {
    if n < 0x100_0000 {
      SeriesError(n + 253);
    } else {
      SizeFloor(n);
    }
  }

  /** Only a file whose last block holds one or two bytes can be shown a block short. */
  lemma {:induction false} BlockCountShort(n: nat)
    requires n % 254 != 1 && n % 254 != 2
    ensures BlockCount(n, false) == Min(MAX_LINE_NUMBER, Blocks(n))
  {
    BlockCountExact(n);
    var x := n + 253;
    if n < 0x100_0000 {
      SeriesDigits(x);
      var m, d := n / 254, n % 254;
      if d == 0 {
        Quotient(x, 254, m, 253);
      } else {
        Quotient(x, 254, m + 1, d - 1);
      }
      if x % 254 == 2 {
        Quotient(x, 127, 2 * (x / 254), 2);
        assert DigitSum128(x) % 127 == 2;
        assert DigitSum128(x) <= 383;
      }
    } else {
      SizeFloor(n);
    }
  }

  lemma {:induction false} BlockCountSmall(n: nat)
    requires n <= 32512
    ensures BlockCount(n, false) == Blocks(n)
  {
    BlockCountExact(n);
    var x := n + 253;
    SeriesDigits(x);
    var q, r := x / 254, x % 254;
    Quotient(x, 127, 2 * q + (if r >= 127 then 1 else 0), if r >= 127 then r - 127 else r);
    var a := x / 128;
    assert a <= 255;
    assert DigitSum128(a / 128) == a / 128;
    assert DigitSum128(x) == x % 128 + (a % 128 + a / 128);
    if r <= 1 {
      assert DigitSum128(x) % 127 == r;
      assert DigitSum128(x) <= 254;
      if DigitSum128(x) == 254 {
        assert x % 128 == 127 - a / 128 + (127 - a % 128);
      }
    }
  }

  /** The first size that is shown a block short. */
  lemma {:induction false} FirstShort()
    ensures BlockCount(32513, false) == 128 && Blocks(32513) == 129
  {
  }

  lemma {:induction false} DivMonotone(x: nat, y: nat, d: nat)
    requires x <= y && d > 0
    ensures x / d <= y / d
  {
    assert x == d * (x / d) + x % d;
    assert y == d * (y / d) + y % d;
    if y / d < x / d {
      assert d * (x / d - y / d) == d * (x / d) - d * (y / d);
      SmallMultiple(d, x / d - y / d);
    }
  }

  /** A longer file is never shown with fewer blocks; n and m range over all sizes. */
  lemma {:induction false} BlockCountMonotone(n: nat, m: nat, estimate: bool)
    requires n <= m
    ensures BlockCount(n, estimate) <= BlockCount(m, estimate)
  {
    hide Series;
    var x, y := n + 253, m + 253;
    SeriesMonotone(x, y);
    DivMonotone(x, y, 256);
    DivMonotone(Series(x), Series(y), 256);
  }

  lemma {:induction false} SeriesMonotone(x: nat, y: nat)
    requires x <= y
    ensures Series(x) <= Series(y)
  {
    DivMonotone(x, y, 0x80);
    DivMonotone(x, y, 0x4000);
    DivMonotone(x, y, 0x20_0000);
    DivMonotone(x, y, 0x1000_0000);
  }

  /** A provider that puts a block count into the upper size bytes, marked as an estimate, gets it shown. */
  lemma {:induction false} EstimateUnchanged(count: nat)
    ensures BlockCount(256 * count, true) == Min(MAX_LINE_NUMBER, count)
  {
    Quotient(256 * count + 253, 256, count, 253);
  }
}
