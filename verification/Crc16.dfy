/** The checksum of the configuration store (firmware/nvconfig.c, _crc16_update and nv_calc_crc). */
module Crc16 {

  function ShiftXor(c: bv16): bv16 {
    if c & 1 == 1 then (c >> 1) ^ 0xA001 else c >> 1
  }

  function Shifts(c: bv16, n: nat): bv16
    decreases n
  {
    if n == 0 then c else ShiftXor(Shifts(c, n - 1))
  }

  function Xor(c: bv16, d: bv16): bv16 {
    c ^ d
  }

  function Wide(a: bv8): bv16 {
    a as bv16
  }

  /** One byte into the checksum. */
  function Updated(crc: bv16, a: bv8): bv16 {
    Shifts(Xor(crc, Wide(a)), 8)
  }

  /** The checksum of bytes, from a given start value on. */
  function CrcFrom(crc: bv16, bytes: seq<bv8>): bv16 {
    if bytes == [] then crc else Updated(CrcFrom(crc, bytes[..|bytes| - 1]), bytes[|bytes| - 1])
  }

  const INITIAL: bv16 := 0xffff

  function Crc(bytes: seq<bv8>): bv16 {
    CrcFrom(INITIAL, bytes)
  }

  method Update(crc: bv16, a: bv8) returns (r: bv16)
    ensures r == Updated(crc, a)
  {
    r := crc ^ (a as bv16);
    for i := 0 to 8
      invariant r == Shifts(Xor(crc, Wide(a)), i)
    {
      if r & 1 == 1 {
        r := (r >> 1) ^ 0xA001;
      } else {
        r := r >> 1;
      }
    }
  }

  // ---------------------------------------------------------------------------------------
  // The shift and xor step is a bijection, and linear

  lemma {:induction false} ShiftXorInjective(c: bv16, d: bv16)
    requires ShiftXor(c) == ShiftXor(d)
    ensures c == d
  {
  }

  /** The state before a step, from the state after it. */
  function Unshift(c: bv16): bv16 {
    if c & 0x8000 != 0 then ((c ^ 0xA001) << 1) | 1 else c << 1
  }

  lemma {:induction false} UnshiftHigh(c: bv16)
    requires c & 0x8000 != 0
    ensures ShiftXor(((c ^ 0xA001) << 1) | 1) == c
  {
  }

  lemma {:induction false} UnshiftLow(c: bv16)
    requires c & 0x8000 == 0
    ensures ShiftXor(c << 1) == c
  {
  }

  lemma {:induction false} UnshiftRight(c: bv16)
    ensures ShiftXor(Unshift(c)) == c
  {
    hide ShiftXor;
    if c & 0x8000 != 0 {
      UnshiftHigh(c);
    } else {
      UnshiftLow(c);
    }
  }

  lemma {:induction false} ShiftXorBijective(c: bv16)
    ensures ShiftXor(Unshift(c)) == c && Unshift(ShiftXor(c)) == c
  {
    hide ShiftXor;
    hide Unshift;
    UnshiftRight(c);
    UnshiftRight(ShiftXor(c));
    ShiftXorInjective(Unshift(ShiftXor(c)), c);
  }

  lemma {:induction false} ShiftsInjective(c: bv16, d: bv16, n: nat)
    requires Shifts(c, n) == Shifts(d, n)
    ensures c == d
    decreases n
  {
    hide ShiftXor;
    if n > 0 {
      ShiftXorInjective(Shifts(c, n - 1), Shifts(d, n - 1));
      ShiftsInjective(c, d, n - 1);
    }
  }

  lemma {:induction false} LowBits(c: bv16, d: bv16)
    ensures c & 1 == 0 || c & 1 == 1
    ensures (c ^ d) & 1 == if c & 1 == d & 1 then 0 else 1
  {
  }

  lemma {:induction false} LinearEven(c: bv16, d: bv16)
    ensures (c ^ d) >> 1 == (c >> 1) ^ (d >> 1)
  {
  }

  lemma {:induction false} XorShuffle(a: bv16, b: bv16, k: bv16)
    ensures (a ^ k) ^ b == (a ^ b) ^ k
    ensures a ^ (b ^ k) == (a ^ b) ^ k
    ensures (a ^ k) ^ (b ^ k) == a ^ b
  {
  }

  lemma {:induction false} ShiftXorLinear(c: bv16, d: bv16)
    ensures ShiftXor(Xor(c, d)) == Xor(ShiftXor(c), ShiftXor(d))
  {
    LowBits(c, d);
    LowBits(d, c);
    LinearEven(c, d);
    XorShuffle(c >> 1, d >> 1, 0xA001);
  }

  lemma {:induction false} ShiftsLinear(c: bv16, d: bv16, n: nat)
    ensures Shifts(Xor(c, d), n) == Xor(Shifts(c, n), Shifts(d, n))
    decreases n
  {
    hide ShiftXor;
    hide Xor;
    if n > 0 {
      ShiftsLinear(c, d, n - 1);
      ShiftXorLinear(Shifts(c, n - 1), Shifts(d, n - 1));
    }
  }

  /** A difference in one byte reaches the high byte of the checksum. */
  lemma {:induction false} ReachesHighByte(d: bv16)
    requires OneByte(d) && d != 0
    ensures !OneByte(Shifts(d, 8))
  {
    EightSteps(d);
    hide ShiftXor;
    assert Shifts(d, 1) == ShiftXor(d);
    assert Shifts(d, 2) == ShiftXor(ShiftXor(d));
    assert Shifts(d, 4) == ShiftXor(ShiftXor(ShiftXor(ShiftXor(d))));
    assert Shifts(d, 6) == ShiftXor(ShiftXor(Shifts(d, 4)));
    assert Shifts(d, 8) == ShiftXor(ShiftXor(Shifts(d, 6)));
  }

  lemma {:induction false} EightSteps(d: bv16)
    requires OneByte(d) && d != 0
    ensures !OneByte(ShiftXor(ShiftXor(ShiftXor(ShiftXor(ShiftXor(ShiftXor(ShiftXor(ShiftXor(d)))))))))
  {
  }

  /** Only the low byte is used. */
  predicate OneByte(d: bv16) {
    d & 0xff00 == 0
  }

  // How xor behaves, so that the proofs below need not look into it.

  lemma {:induction false} XorCancel(c: bv16, d: bv16, a: bv16)
    requires Xor(c, a) == Xor(d, a)
    ensures c == d
  {
  }

  lemma {:induction false} XorWide(c: bv16, a: bv8, b: bv8)
    requires Xor(c, Wide(a)) == Xor(c, Wide(b))
    ensures a == b
  {
  }

  lemma {:induction false} XorIs(c: bv16, d: bv16)
    ensures Xor(c, d) == c ^ d
  {
  }

  lemma {:induction false} XorCommon(c: bv16, a: bv16, b: bv16)
    ensures Xor(Xor(c, a), Xor(c, b)) == Xor(a, b)
  {
    hide Xor;
    XorIs(c, a);
    XorIs(c, b);
    XorIs(a, b);
    XorIs(c ^ a, c ^ b);
    XorCommonBits(c, a, b);
  }

  lemma {:induction false} XorCommonBits(c: bv16, a: bv16, b: bv16)
    ensures (c ^ a) ^ (c ^ b) == a ^ b
  {
  }

  lemma {:induction false} XorOfBytes(a: bv8, b: bv8)
    ensures OneByte(Xor(Wide(a), Wide(b)))
  {
  }

  lemma {:induction false} XorZero(a: bv8, b: bv8)
    requires Xor(Wide(a), Wide(b)) == 0
    ensures a == b
  {
  }

  lemma {:induction false} XorOneByte(x: bv16, y: bv16, a: bv8, b: bv8)
    requires Xor(x, Wide(a)) == Xor(y, Wide(b))
    ensures OneByte(Xor(x, y))
  {
  }

  // ---------------------------------------------------------------------------------------
  // Damage that is always found

  lemma {:induction false} CrcConcat(crc: bv16, s: seq<bv8>, t: seq<bv8>)
    ensures CrcFrom(crc, s + t) == CrcFrom(CrcFrom(crc, s), t)
    decreases |t|
  {
    hide Updated;
    if t == [] {
      assert s + t == s;
    } else {
      var u := t[..|t| - 1];
      CrcConcat(crc, s, u);
      assert (s + t)[..|s + t| - 1] == s + u;
    }
  }

  lemma {:induction false} UpdatedInjective(c: bv16, d: bv16, a: bv8)
    requires Updated(c, a) == Updated(d, a)
    ensures c == d
  {
    hide Shifts;
    hide Xor;
    ShiftsInjective(Xor(c, Wide(a)), Xor(d, Wide(a)), 8);
    XorCancel(c, d, Wide(a));
  }

  lemma {:induction false} ByteDetected(c: bv16, a: bv8, b: bv8)
    requires Updated(c, a) == Updated(c, b)
    ensures a == b
  {
    hide Shifts;
    hide Xor;
    ShiftsInjective(Xor(c, Wide(a)), Xor(c, Wide(b)), 8);
    XorWide(c, a, b);
  }

  /** Equal bytes keep different checksums different. */
  lemma {:induction false} CrcInjective(c: bv16, d: bv16, s: seq<bv8>)
    requires CrcFrom(c, s) == CrcFrom(d, s)
    ensures c == d
    decreases |s|
  {
    hide Updated;
    if s != [] {
      var u, a := s[..|s| - 1], s[|s| - 1];
      UpdatedInjective(CrcFrom(c, u), CrcFrom(d, u), a);
      CrcInjective(c, d, u);
    }
  }

  /** From the same checksum, two different pairs of bytes lead to different ones. */
  lemma {:induction false} PairDetected(c: bv16, a1: bv8, b1: bv8, a2: bv8, b2: bv8)
    requires Updated(Updated(c, a1), b1) == Updated(Updated(c, a2), b2)
    ensures a1 == a2 && b1 == b2
  {
    hide Shifts;
    hide Xor;
    hide OneByte;
    hide Wide;
    var x, y := Updated(c, a1), Updated(c, a2);
    ShiftsInjective(Xor(x, Wide(b1)), Xor(y, Wide(b2)), 8);
    XorOneByte(x, y, b1, b2);
    XorCommon(c, Wide(a1), Wide(a2));
    XorOfBytes(a1, a2);
    ShiftsLinear(Xor(c, Wide(a1)), Xor(c, Wide(a2)), 8);
    var d := Xor(Wide(a1), Wide(a2));
    assert Shifts(d, 8) == Xor(x, y);
    if d != 0 {
      ReachesHighByte(d);
    }
    XorZero(a1, a2);
    ByteDetected(x, b1, b2);
  }

  /** Two contents that differ in one byte, or within two adjacent ones, never have the same checksum. */
  lemma {:induction false} DamageDetected(s: seq<bv8>, t: seq<bv8>, i: nat)
    requires |s| == |t| && i < |s| && s != t
    requires forall k :: 0 <= k < |s| && k != i && k != i + 1 ==> s[k] == t[k]
    ensures Crc(s) != Crc(t)
  {
    hide Updated;
    if Crc(s) == Crc(t) {
      var n := if i + 1 < |s| then i + 2 else i + 1;
      assert s[..i] == t[..i] && s[n..] == t[n..];
      assert s == s[..n] + s[n..] && t == t[..n] + t[n..];
      CrcConcat(INITIAL, s[..n], s[n..]);
      CrcConcat(INITIAL, t[..n], t[n..]);
      CrcInjective(Crc(s[..n]), Crc(t[..n]), s[n..]);
      var c := Crc(s[..i]);
      assert s[..i + 1][..i] == s[..i] && t[..i + 1][..i] == t[..i];
      if n == i + 2 {
        assert s[..n][..i + 1] == s[..i + 1] && t[..n][..i + 1] == t[..i + 1];
        PairDetected(c, s[i], s[i + 1], t[i], t[i + 1]);
      } else {
        ByteDetected(c, s[i], t[i]);
      }
    }
  }

  // ---------------------------------------------------------------------------------------
  // Bursts of up to 16 bits that touch three bytes

  /** The lowest s bits, which go into the checksum first. */
  function LowMask(s: nat): bv8
    requires 1 <= s <= 7
  {
    match s
    case 1 => 0x01
    case 2 => 0x03
    case 3 => 0x07
    case 4 => 0x0f
    case 5 => 0x1f
    case 6 => 0x3f
    case 7 => 0x7f
  }

  function Up(x: bv16, n: nat): bv16
    decreases n
  {
    if n == 0 then x else Up(x << 1, n - 1)
  }

  /** No bit is lost on the way up. */
  predicate Headroom(x: bv16, n: nat)
    decreases n
  {
    n == 0 || (x & 0x8000 == 0 && Headroom(x << 1, n - 1))
  }

  lemma {:induction false} ShiftsUp(x: bv16, n: nat)
    requires Headroom(x, n)
    ensures Shifts(Up(x, n), n) == x
    decreases n
  {
    hide ShiftXor;
    if n > 0 {
      ShiftsUp(x << 1, n - 1);
      UnshiftLow(x);
    }
  }

  lemma {:induction false} ShiftsSum(c: bv16, m: nat, n: nat)
    ensures Shifts(c, m + n) == Shifts(Shifts(c, m), n)
    decreases n
  {
    hide ShiftXor;
    if n > 0 {
      ShiftsSum(c, m, n - 1);
    }
  }

  lemma {:induction false} ShiftsZero(n: nat)
    ensures Shifts(0, n) == 0
    decreases n
  {
    if n > 0 {
      ShiftsZero(n - 1);
    }
  }

  /** What is added after n steps might as well be added, higher up, before them. */
  lemma {:induction false} AddEarlier(x: bv16, y: bv16, n: nat)
    requires Headroom(y, n)
    ensures Xor(Shifts(x, n), y) == Shifts(Xor(x, Up(y, n)), n)
  {
    hide Xor;
    hide ShiftXor;
    ShiftsUp(y, n);
    ShiftsLinear(x, Up(y, n), n);
  }

  /** The differences x << s, e and f of three bytes are one difference of 16 bits. */
  lemma {:induction false} BurstShifts(x: bv16, e: bv16, f: bv16, s: nat)
    requires 1 <= s <= 7 && Headroom(x, s) && Headroom(e, 8 - s) && Headroom(f, 16 - s)
    ensures Shifts(Xor(Shifts(Xor(Shifts(Up(x, s), 8), e), 8), f), 8)
         == Shifts(Xor(Xor(x, Up(e, 8 - s)), Up(f, 16 - s)), 24 - s)
  {
    hide Xor;
    hide ShiftXor;
    hide Up;
    hide Headroom;
    ShiftsSum(Up(x, s), s, 8 - s);
    ShiftsUp(x, s);
    AddEarlier(x, e, 8 - s);
    var y := Xor(x, Up(e, 8 - s));
    ShiftsSum(y, 8 - s, 8);
    AddEarlier(y, f, 16 - s);
    ShiftsSum(Xor(y, Up(f, 16 - s)), 16 - s, 8);
  }

  lemma {:induction false} UpLast(x: bv16, n: nat)
    requires n > 0
    ensures Up(x, n) == Up(x, n - 1) << 1
    decreases n
  {
    if n > 1 {
      UpLast(x << 1, n - 1);
    }
  }

  lemma {:induction false} Up1(x: bv16)
    ensures Up(x, 1) == x << 1
  {
    assert Up(x << 1, 0) == x << 1;
  }

  lemma {:induction false} Up4(x: bv16)
    ensures Up(x, 2) == x << 2 && Up(x, 3) == x << 3 && Up(x, 4) == x << 4
  {
    hide Up;
    Up1(x);
    UpLast(x, 2);
    UpLast(x, 3);
    UpLast(x, 4);
  }

  lemma {:induction false} Up8(x: bv16)
    ensures Up(x, 5) == x << 5 && Up(x, 6) == x << 6 && Up(x, 7) == x << 7 && Up(x, 8) == x << 8
  {
    hide Up;
    Up4(x);
    UpLast(x, 5);
    UpLast(x, 6);
    UpLast(x, 7);
    UpLast(x, 8);
  }

  lemma {:induction false} Up12(x: bv16)
    ensures Up(x, 9) == x << 9 && Up(x, 10) == x << 10 && Up(x, 11) == x << 11 && Up(x, 12) == x << 12
  {
    hide Up;
    Up8(x);
    UpLast(x, 9);
    UpLast(x, 10);
    UpLast(x, 11);
    UpLast(x, 12);
  }

  lemma {:induction false} Up15(x: bv16)
    ensures Up(x, 13) == x << 13 && Up(x, 14) == x << 14 && Up(x, 15) == x << 15
  {
    hide Up;
    Up12(x);
    UpLast(x, 13);
    UpLast(x, 14);
    UpLast(x, 15);
  }

  lemma {:induction false} Disjoint1(x: bv16, e: bv16, f: bv16)
    requires x & 0xff80 == 0 && e & 0xff00 == 0 && f & 0xfffe == 0 && (x ^ (e << 7)) ^ (f << 15) == 0
    ensures x == 0 && e == 0 && f == 0
  {
  }

  lemma {:induction false} Disjoint2(x: bv16, e: bv16, f: bv16)
    requires x & 0xffc0 == 0 && e & 0xff00 == 0 && f & 0xfffc == 0 && (x ^ (e << 6)) ^ (f << 14) == 0
    ensures x == 0 && e == 0 && f == 0
  {
  }

  lemma {:induction false} Disjoint3(x: bv16, e: bv16, f: bv16)
    requires x & 0xffe0 == 0 && e & 0xff00 == 0 && f & 0xfff8 == 0 && (x ^ (e << 5)) ^ (f << 13) == 0
    ensures x == 0 && e == 0 && f == 0
  {
  }

  lemma {:induction false} Disjoint4(x: bv16, e: bv16, f: bv16)
    requires x & 0xfff0 == 0 && e & 0xff00 == 0 && f & 0xfff0 == 0 && (x ^ (e << 4)) ^ (f << 12) == 0
    ensures x == 0 && e == 0 && f == 0
  {
  }

  lemma {:induction false} Disjoint5(x: bv16, e: bv16, f: bv16)
    requires x & 0xfff8 == 0 && e & 0xff00 == 0 && f & 0xffe0 == 0 && (x ^ (e << 3)) ^ (f << 11) == 0
    ensures x == 0 && e == 0 && f == 0
  {
  }

  lemma {:induction false} Disjoint6(x: bv16, e: bv16, f: bv16)
    requires x & 0xfffc == 0 && e & 0xff00 == 0 && f & 0xffc0 == 0 && (x ^ (e << 2)) ^ (f << 10) == 0
    ensures x == 0 && e == 0 && f == 0
  {
  }

  lemma {:induction false} Disjoint7(x: bv16, e: bv16, f: bv16)
    requires x & 0xfffe == 0 && e & 0xff00 == 0 && f & 0xff80 == 0 && (x ^ (e << 1)) ^ (f << 9) == 0
    ensures x == 0 && e == 0 && f == 0
  {
  }

  /** The highest n bits. */
  function Top(n: nat): bv16 {
    if n == 0 then 0 else Lower(Top(n - 1))
  }

  function Lower(m: bv16): bv16 {
    (m >> 1) | 0x8000
  }

  /** No bit of the mask is set. */
  predicate Off(x: bv16, m: bv16) {
    x & m == 0
  }

  lemma {:induction false} OffLower(x: bv16, m: bv16)
    requires Off(x, Lower(m))
    ensures Off(x, 0x8000) && Off(x << 1, m)
  {
  }

  lemma {:induction false} TopStep(n: nat)
    requires n > 0
    ensures Top(n) == Lower(Top(n - 1))
  {
    hide Lower;
  }

  lemma {:induction false} HeadroomNone(x: bv16)
    ensures Headroom(x, 0)
  {
  }

  lemma {:induction false} HeadroomStep(x: bv16, n: nat)
    requires n > 0 && Off(x, 0x8000) && Headroom(x << 1, n - 1)
    ensures Headroom(x, n)
  {
  }

  lemma {:induction false} HeadroomTop(x: bv16, n: nat)
    requires Off(x, Top(n))
    ensures Headroom(x, n)
    decreases n
  {
    hide Top;
    hide Headroom;
    hide Lower;
    hide Off;
    if n == 0 {
      HeadroomNone(x);
    } else {
      TopStep(n);
      OffLower(x, Top(n - 1));
      HeadroomTop(x << 1, n - 1);
      HeadroomStep(x, n);
    }
  }

  lemma {:induction false} Tops()
    ensures Top(1) == 0x8000 && Top(2) == 0xc000 && Top(3) == 0xe000 && Top(4) == 0xf000
    ensures Top(5) == 0xf800 && Top(6) == 0xfc00 && Top(7) == 0xfe00
    ensures Top(9) == 0xff80 && Top(10) == 0xffc0 && Top(11) == 0xffe0 && Top(12) == 0xfff0
    ensures Top(13) == 0xfff8 && Top(14) == 0xfffc && Top(15) == 0xfffe
  {
    assert Top(8) == 0xff00;
  }

  /** The difference of the first byte is x, moved up by s; the third one's is below. */
  predicate Split(x: bv16, e: bv16, f: bv16, s: nat)
    requires 1 <= s <= 7
  {
    x & 0xff00 == 0 && Off(x << 8, Top(s)) && e & 0xff00 == 0 && Off(f, Top(16 - s))
  }

  lemma {:induction false} Disjoint(x: bv16, e: bv16, f: bv16, s: nat)
    requires 1 <= s <= 7 && Split(x, e, f, s)
    requires Xor(Xor(x, Up(e, 8 - s)), Up(f, 16 - s)) == 0
    ensures x == 0 && e == 0 && f == 0
  {
    Tops();
    Up1(e);
    Up4(e);
    Up8(e);
    Up12(f);
    Up15(f);
    hide Up;
    hide Top;
    match s {
      case 1 => Disjoint1(x, e, f);
      case 2 => Disjoint2(x, e, f);
      case 3 => Disjoint3(x, e, f);
      case 4 => Disjoint4(x, e, f);
      case 5 => Disjoint5(x, e, f);
      case 6 => Disjoint6(x, e, f);
      case 7 => Disjoint7(x, e, f);
    }
  }

  /** The same for the differences of the bytes. */
  lemma {:induction false} BurstZero(x: bv16, e: bv16, f: bv16, s: nat)
    requires 1 <= s <= 7 && Headroom(x, s) && Headroom(e, 8 - s) && Headroom(f, 16 - s) && Split(x, e, f, s)
    requires Shifts(Xor(Shifts(Xor(Shifts(Up(x, s), 8), e), 8), f), 8) == 0
    ensures x == 0 && e == 0 && f == 0
  {
    hide Xor;
    hide Shifts;
    hide Up;
    hide Split;
    hide Headroom;
    BurstShifts(x, e, f, s);
    ShiftsZero(24 - s);
    ShiftsInjective(Xor(Xor(x, Up(e, 8 - s)), Up(f, 16 - s)), 0, 24 - s);
    Disjoint(x, e, f, s);
  }

  /** The difference a of a byte, a byte between and the difference c are 16 bits at most, from the first one that is set on. */
  predicate Short(a: bv8, c: bv8, s: nat)
    requires 1 <= s <= 7
  {
    a & LowMask(s) == 0 && c & !LowMask(s) == 0
  }

  /** A difference of bytes, from which its low bits can be dropped. */
  lemma {:induction false} Dropped(a: bv8, c: bv8, s: nat) returns (x: bv16)
    requires 1 <= s <= 7 && Short(a, c, s)
    ensures Up(x, s) == Wide(a) && (x == 0 ==> a == 0)
    ensures x & 0xff00 == 0 && Off(x << 8, Top(s)) && Off(x, Top(s)) && Off(Wide(c), Top(16 - s))
  {
    Tops();
    hide Up;
    hide Top;
    match s {
      case 1 => x := Wide(a) >> 1; Up1(x);
      case 2 => x := Wide(a) >> 2; Up4(x);
      case 3 => x := Wide(a) >> 3; Up4(x);
      case 4 => x := Wide(a) >> 4; Up4(x);
      case 5 => x := Wide(a) >> 5; Up8(x);
      case 6 => x := Wide(a) >> 6; Up8(x);
      case 7 => x := Wide(a) >> 7; Up8(x);
    }
  }

  /** The difference of two checksums after a byte. */
  lemma {:induction false} UpdatedXor(c: bv16, d: bv16, a: bv8, b: bv8)
    ensures Xor(Updated(c, a), Updated(d, b)) == Shifts(Xor(Xor(c, d), Wide(a ^ b)), 8)
  {
    hide Shifts;
    ShiftsLinear(Xor(c, Wide(a)), Xor(d, Wide(b)), 8);
    XorFour(c, d, a, b);
  }

  lemma {:induction false} XorFour(c: bv16, d: bv16, a: bv8, b: bv8)
    ensures Xor(Xor(c, Wide(a)), Xor(d, Wide(b))) == Xor(Xor(c, d), Wide(a ^ b))
  {
    XorWidens(a, b);
    hide Xor;
    hide Wide;
    XorPairs(c, d, Wide(a), Wide(b));
  }

  lemma {:induction false} XorWidens(a: bv8, b: bv8)
    ensures Wide(a ^ b) == Xor(Wide(a), Wide(b))
  {
  }

  lemma {:induction false} XorPairs(c: bv16, d: bv16, p: bv16, q: bv16)
    ensures Xor(Xor(c, p), Xor(d, q)) == Xor(Xor(c, d), Xor(p, q))
  {
    hide Xor;
    XorRules(c, p, Xor(d, q));
    XorRules(p, d, q);
    XorRules(d, p, q);
    XorRules(c, d, Xor(p, q));
  }

  lemma {:induction false} XorRules(a: bv16, b: bv16, c: bv16)
    ensures Xor(Xor(a, b), c) == Xor(a, Xor(b, c)) && Xor(a, b) == Xor(b, a)
  {
  }

  lemma {:induction false} SelfXor(c: bv16, d: bv16)
    ensures Xor(Xor(c, c), d) == d && Xor(c, c) == 0
  {
  }

  lemma {:induction false} NoDifference(a: bv8, b: bv8)
    requires Wide(a ^ b) == 0 || a ^ b == 0
    ensures a == b
  {
  }

  lemma {:induction false} ByteHeadroom(b: bv8, s: nat)
    requires 1 <= s <= 7
    ensures Headroom(Wide(b), 8 - s) && Wide(b) & 0xff00 == 0
  {
    Tops();
    hide Headroom;
    hide Top;
    assert Wide(b) & 0xff00 == 0;
    match s {
      case 1 => HeadroomTop(Wide(b), 7);
      case 2 => HeadroomTop(Wide(b), 6);
      case 3 => HeadroomTop(Wide(b), 5);
      case 4 => HeadroomTop(Wide(b), 4);
      case 5 => HeadroomTop(Wide(b), 3);
      case 6 => HeadroomTop(Wide(b), 2);
      case 7 => HeadroomTop(Wide(b), 1);
    }
  }

  /** From the same checksum, two different bursts of at most 16 bits that touch three bytes lead to different ones. */
  lemma {:induction false} BurstDetected(
    c: bv16, a1: bv8, b1: bv8, d1: bv8, a2: bv8, b2: bv8, d2: bv8, s: nat)
    requires 1 <= s <= 7 && Short(a1 ^ a2, d1 ^ d2, s)
    requires Updated(Updated(Updated(c, a1), b1), d1) == Updated(Updated(Updated(c, a2), b2), d2)
    ensures a1 == a2 && b1 == b2 && d1 == d2
  {
    var a, b, d := a1 ^ a2, b1 ^ b2, d1 ^ d2;
    var x := Dropped(a, d, s);
    UpdatedXor(c, c, a1, a2);
    UpdatedXor(Updated(c, a1), Updated(c, a2), b1, b2);
    UpdatedXor(Updated(Updated(c, a1), b1), Updated(Updated(c, a2), b2), d1, d2);
    SelfXor(c, Wide(a));
    SelfXor(Updated(Updated(Updated(c, a1), b1), d1), 0);
    ByteHeadroom(b, s);
    hide Updated;
    hide Shifts;
    hide Xor;
    hide Wide;
    hide Up;
    hide Top;
    hide Off;
    hide Headroom;
    HeadroomTop(x, s);
    HeadroomTop(Wide(d), 16 - s);
    BurstZero(x, Wide(b), Wide(d), s);
    NoDifference(a1, a2);
    NoDifference(b1, b2);
    NoDifference(d1, d2);
  }

  /**
   Two contents that differ within three adjacent bytes, in a burst of at most 16 bits, never have the same
   checksum. Together with DamageDetected these are all bursts of up to 16 bits.
   */
  lemma {:induction false} BurstFound(s: seq<bv8>, t: seq<bv8>, i: nat, k: nat)
    requires |s| == |t| && i + 2 < |s| && s != t && 1 <= k <= 7 && Short(s[i] ^ t[i], s[i + 2] ^ t[i + 2], k)
    requires forall m :: 0 <= m < |s| && !(i <= m <= i + 2) ==> s[m] == t[m]
    ensures Crc(s) != Crc(t)
  {
    hide Updated;
    hide Short;
    if Crc(s) == Crc(t) {
      var n := i + 3;
      assert s[..i] == t[..i] && s[n..] == t[n..];
      assert s == s[..n] + s[n..] && t == t[..n] + t[n..];
      CrcConcat(INITIAL, s[..n], s[n..]);
      CrcConcat(INITIAL, t[..n], t[n..]);
      CrcInjective(Crc(s[..n]), Crc(t[..n]), s[n..]);
      ThreeBytes(s, i);
      ThreeBytes(t, i);
      BurstDetected(Crc(s[..i]), s[i], s[i + 1], s[i + 2], t[i], t[i + 1], t[i + 2], k);
    }
  }

  lemma {:induction false} ThreeBytes(s: seq<bv8>, i: nat)
    requires i + 2 < |s|
    ensures Crc(s[..i + 3]) == Updated(Updated(Updated(Crc(s[..i]), s[i]), s[i + 1]), s[i + 2])
  {
    CrcLast(s, i);
    CrcLast(s, i + 1);
    CrcLast(s, i + 2);
  }

  lemma {:induction false} CrcLast(s: seq<bv8>, n: nat)
    requires n < |s|
    ensures Crc(s[..n + 1]) == Updated(Crc(s[..n]), s[n])
  {
    hide Updated;
    assert s[..n + 1][..n] == s[..n];
  }

  // ---------------------------------------------------------------------------------------
  // The check value

  lemma {:induction false} EightShifts(c: bv16)
    ensures Shifts(c, 8) == ShiftXor(ShiftXor(ShiftXor(ShiftXor(ShiftXor(ShiftXor(ShiftXor(ShiftXor(c))))))))
  {
    hide ShiftXor;
    assert Shifts(c, 4) == ShiftXor(ShiftXor(ShiftXor(ShiftXor(c))));
    var d := Shifts(c, 4);
    assert Shifts(c, 6) == ShiftXor(ShiftXor(d));
  }

  lemma {:induction false} UpdateIs(c: bv16, a: bv8)
    ensures var x := c ^ (a as bv16);
      Updated(c, a) == ShiftXor(ShiftXor(ShiftXor(ShiftXor(ShiftXor(ShiftXor(ShiftXor(ShiftXor(x))))))))
  {
    EightShifts(c ^ (a as bv16));
  }

  /** The checksum of the characters "123". */
  lemma {:induction false} CheckValue()
    ensures Crc([0x31, 0x32, 0x33]) == 0x7a75
  {
    var s: seq<bv8> := [0x31, 0x32, 0x33];
    CheckStep(s, 0, 0xffff, 0x947e);
    CheckStep(s, 1, 0x947e, 0xf595);
    CheckStep(s, 2, 0xf595, 0x7a75);
    assert s[..3] == s;
  }

  lemma {:induction false} CheckStep(s: seq<bv8>, i: nat, c: bv16, d: bv16)
    requires i < |s| && Crc(s[..i]) == c
    requires var x := c ^ (s[i] as bv16);
      ShiftXor(ShiftXor(ShiftXor(ShiftXor(ShiftXor(ShiftXor(ShiftXor(ShiftXor(x)))))))) == d
    ensures Crc(s[..i + 1]) == d
  {
    hide ShiftXor, Updated;
    UpdateIs(c, s[i]);
    CrcLast(s, i);
  }
}
