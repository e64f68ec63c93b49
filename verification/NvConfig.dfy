/**
 The configuration store in non-volatile memory (firmware/nvconfig.c): a chain of blocks, one for
 each bus name, in flat memory.
 */
module NvConfig {
  import opened Crc16

  /** A bus name, without the terminating NUL. */
  type Name = seq<bv8>

  const COMMON_NAME: Name := [67, 77, 78]   // "CMN"
  const VERSION: seq<bv8> := [0x01, 0x02, 0x09, 0x00]

  // offsets in a block
  const NV_CRC := 0
  const NV_LINK := 2
  const NV_SIZE := 4
  const NV_VER := 6
  const NV_NAME := 10
  const MAX_LEN_BUSNAME := 10
  const NV_DATA := 20
  const BLOCK_LEN := 23   // the longest block that is written

  /** The part of a bus's configuration that is kept. */
  datatype Config = Config(deviceAddress: bv8, lastUsedDrive: bv8, advancedWildcards: bool)

  predicate NameOk(name: Name) {
    |name| < MAX_LEN_BUSNAME && forall k :: 0 <= k < |name| ==> name[k] != 0
  }

  // ---------------------------------------------------------------------------------------
  // Words in memory, low byte first

  // Numbers and bytes, bit by bit, the highest bit first.

  function Weight(bit: bool, w: nat): nat {
    if bit then w else 0
  }

  function Mask(bit: bool, w: bv8): bv8 {
    if bit then w else 0
  }

  function FromBits(b7: bool, b6: bool, b5: bool, b4: bool, b3: bool, b2: bool, b1: bool, b0: bool): bv8 {
    Mask(b7, 128) | Mask(b6, 64) | Mask(b5, 32) | Mask(b4, 16) | Mask(b3, 8) | Mask(b2, 4) | Mask(b1, 2) | Mask(b0, 1)
  }

  function BitSum(b7: bool, b6: bool, b5: bool, b4: bool, b3: bool, b2: bool, b1: bool, b0: bool): nat {
    Weight(b7, 128) + Weight(b6, 64) + Weight(b5, 32) + Weight(b4, 16)
    + Weight(b3, 8) + Weight(b2, 4) + Weight(b1, 2) + Weight(b0, 1)
  }

  function Rest(b: nat, w: nat): nat {
    if b >= w then b - w else b
  }

  function Byte(b: nat): bv8
    requires b < 256
  {
    var r7 := Rest(b, 128);
    var r6 := Rest(r7, 64);
    var r5 := Rest(r6, 32);
    var r4 := Rest(r5, 16);
    var r3 := Rest(r4, 8);
    var r2 := Rest(r3, 4);
    var r1 := Rest(r2, 2);
    FromBits(b >= 128, r7 >= 64, r6 >= 32, r5 >= 16, r4 >= 8, r3 >= 4, r2 >= 2, r1 >= 1)
  }

  function Value(b: bv8): nat {
    BitSum(b & 128 != 0, b & 64 != 0, b & 32 != 0, b & 16 != 0, b & 8 != 0, b & 4 != 0, b & 2 != 0, b & 1 != 0)
  }

  lemma {:induction false} BitsRoundTrip(b7: bool, b6: bool, b5: bool, b4: bool, b3: bool, b2: bool, b1: bool, b0: bool)
    ensures Value(FromBits(b7, b6, b5, b4, b3, b2, b1, b0)) == BitSum(b7, b6, b5, b4, b3, b2, b1, b0)
  {
  }

  lemma {:induction false} TopBit(b: nat, w: nat)
    requires b < 2 * w
    ensures b == Weight(b >= w, w) + Rest(b, w) && Rest(b, w) < w
  {
  }

  lemma {:induction false} ByteRoundTrip(b: nat)
    requires b < 256
    ensures Value(Byte(b)) == b
  {
    hide FromBits;
    hide Value;
    hide Rest;
    hide Weight;
    TopBit(b, 128);
    var r7 := Rest(b, 128);
    TopBit(r7, 64);
    var r6 := Rest(r7, 64);
    TopBit(r6, 32);
    var r5 := Rest(r6, 32);
    TopBit(r5, 16);
    var r4 := Rest(r5, 16);
    TopBit(r4, 8);
    var r3 := Rest(r4, 8);
    TopBit(r3, 4);
    var r2 := Rest(r3, 4);
    TopBit(r2, 2);
    var r1 := Rest(r2, 2);
    TopBit(r1, 1);
    BitsRoundTrip(b >= 128, r7 >= 64, r6 >= 32, r5 >= 16, r4 >= 8, r3 >= 4, r2 >= 2, r1 >= 1);
  }

  function Low(w: nat): bv8 {
    Byte(w % 256)
  }

  function High(w: nat): bv8 {
    Byte(w / 256 % 256)
  }

  function Word(lo: bv8, hi: bv8): nat {
    Value(lo) + 256 * Value(hi)
  }

  lemma {:induction false} WordRoundTrip(w: nat)
    requires w < 0x1_0000
    ensures Word(Low(w), High(w)) == w
  {
    hide Byte;
    hide Value;
    ByteRoundTrip(w % 256);
    ByteRoundTrip(w / 256 % 256);
  }

  function CrcLow(c: bv16): bv8 {
    (c & 0xff) as bv8
  }

  function CrcHigh(c: bv16): bv8 {
    (c >> 8) as bv8
  }

  /** The checksum is kept completely. */
  lemma {:induction false} CrcBytesInjective(c: bv16, d: bv16)
    requires CrcLow(c) == CrcLow(d) && CrcHigh(c) == CrcHigh(d)
    ensures c == d
  {
  }

  // ---------------------------------------------------------------------------------------
  // Blocks

  /** Number of bytes behind the size field's start that are in use. */
  function SizeOf(name: Name): (n: nat)
    ensures n <= BLOCK_LEN - NV_SIZE
  {
    if name == COMMON_NAME then 17 else 19
  }

  function DataOf(name: Name, c: Config): (d: seq<bv8>)
    ensures |d| <= 3
  {
    if name == COMMON_NAME then [42]
    else [c.deviceAddress, c.lastUsedDrive, if c.advancedWildcards then 1 else 0]
  }

  /** What the size field says: from itself up to the last data byte, whatever the values are. */
  lemma {:induction false} SizeCovers(name: Name, c: Config)
    ensures NV_SIZE + SizeOf(name) == NV_DATA + |DataOf(name, c)|
    ensures DataOf(name, c) == if name == [67, 77, 78] then [42]
                               else [c.deviceAddress, c.lastUsedDrive, if c.advancedWildcards then 1 else 0]
  {
  }

  /** Memory m has the bytes s at address a. */
  ghost predicate At(m: seq<bv8>, a: nat, s: seq<bv8>) {
    a + |s| <= |m| && forall i :: 0 <= i < |s| ==> m[a + i] == s[i]
  }

  /** Version, name and data of a block. */
  ghost predicate Content(b: seq<bv8>, name: Name, c: Config)
    requires |b| == BLOCK_LEN && NameOk(name)
  {
    At(b, NV_VER, VERSION) && At(b, NV_NAME, name) && b[NV_NAME + |name|] == 0 && At(b, NV_DATA, DataOf(name, c))
  }

  /** The bytes b of a block hold the configuration c under the given name. */
  ghost predicate Holds(b: seq<bv8>, link: nat, name: Name, c: Config)
    requires |b| == BLOCK_LEN && NameOk(name)
  {
    && Word(b[2], b[3]) == link
    && Word(b[4], b[5]) == SizeOf(name)
    && b[0] == CrcLow(Crc(b[4..4 + SizeOf(name)])) && b[1] == CrcHigh(Crc(b[4..4 + SizeOf(name)]))
    && Content(b, name, c)
  }

  /** Memory m has a block at address a whose size is legal and whose checksum is right. */
  ghost predicate ValidBlock(m: seq<bv8>, memSize: nat, a: nat)
    requires a + BLOCK_LEN <= |m|
  {
    var size := Word(m[a + NV_SIZE], m[a + NV_SIZE + 1]);
    && size <= memSize && a + NV_SIZE + size <= |m|
    && m[a] == CrcLow(Crc(m[a + NV_SIZE..a + NV_SIZE + size]))
    && m[a + 1] == CrcHigh(Crc(m[a + NV_SIZE..a + NV_SIZE + size]))
  }

  /** Address k belongs to the checksum of the block at a, or to what it covers behind the size field. */
  ghost predicate Covered(m: seq<bv8>, a: nat, k: nat)
    requires a + BLOCK_LEN <= |m|
  {
    a <= k <= a + 1 || a + NV_VER <= k < a + NV_SIZE + Word(m[a + NV_SIZE], m[a + NV_SIZE + 1])
  }

  /**
   After damage to one byte, or to two adjacent ones, that leaves the size field alone, a block is
   still accepted exactly when no covered byte was hit. The link is not covered.
   */
  lemma {:induction false} DamageRejected(m: seq<bv8>, n: seq<bv8>, memSize: nat, a: nat, i: nat)
    requires |m| == |n| && a + BLOCK_LEN <= |m| && ValidBlock(m, memSize, a)
    requires i + 1 < a + NV_SIZE || a + NV_VER <= i
    requires forall k :: 0 <= k < |m| && k != i && k != i + 1 ==> n[k] == m[k]
    ensures ValidBlock(n, memSize, a) <==> forall k: nat :: k < |m| && Covered(m, a, k) ==> n[k] == m[k]
  {
    hide Crc;
    hide Word;
    hide CrcLow;
    hide CrcHigh;
    var first := a + NV_SIZE;
    var end := first + Word(m[first], m[first + 1]);
    var s, t := m[first..end], n[first..end];
    assert Covered(m, a, a) && Covered(m, a, a + 1);
    if s == t {
      forall k: nat | a + NV_VER <= k < end
        ensures n[k] == m[k]
      {
        assert s[k - first] == t[k - first];
      }
    } else {
      var k :| 0 <= k < |s| && s[k] != t[k];
      assert n[first + k] != m[first + k] && first + k in {i, i + 1} && Covered(m, a, first + k);
      DamageDetected(s, t, i - first);
      if CrcLow(Crc(s)) == CrcLow(Crc(t)) && CrcHigh(Crc(s)) == CrcHigh(Crc(t)) {
        CrcBytesInjective(Crc(s), Crc(t));
      }
    }
  }

  // ---------------------------------------------------------------------------------------
  // The memory's layout

  /** Every block that the size check lets be created lies within the memory. */
  ghost predicate Fits(memSize: nat, blkSize: nat, length: nat) {
    && BLOCK_LEN <= blkSize && 1 + BLOCK_LEN <= length
    && forall k: nat {:trigger k * blkSize} :: 1 + k * blkSize <= memSize ==> 1 + k * blkSize + BLOCK_LEN <= length
  }

  lemma {:induction false} Times(k: nat, b: nat)
    ensures k >= 3 ==> k * b >= 3 * b
    ensures k <= 2 ==> k * b <= 2 * b
  {
  }

  /**
   The default split into three blocks of an EEPROM with addresses 0 to memSize: it fits exactly if
   the last address is a multiple of three and a third of it is enough for a block. Else a fourth
   block is let in that does not fit.
   */
  lemma {:induction false} DefaultSplit(memSize: nat)
    requires memSize >= 3
    ensures Fits(memSize, memSize / 3, memSize + 1) <==> memSize % 3 == 0 && memSize >= 3 * BLOCK_LEN
  {
    var b := memSize / 3;
    if memSize % 3 == 0 && memSize >= 3 * BLOCK_LEN {
      forall k: nat | 1 + k * b <= memSize
        ensures 1 + k * b + BLOCK_LEN <= memSize + 1
      {
        Times(k, b);
      }
    } else if memSize % 3 != 0 {
      assert 1 + 3 * b <= memSize;
      assert 1 + 3 * b + BLOCK_LEN > memSize + 1;
    }
  }

  lemma {:induction false} Multiples(j: nat, k: nat, b: nat)
    requires j < k
    ensures j * b + b <= k * b
    decreases k
  {
    if j + 1 < k {
      Multiples(j, k - 1, b);
      assert (k - 1) * b + b == k * b;
    } else {
      assert (j + 1) * b == j * b + b;
    }
  }

  class Store {
    const mem: array<bv8>
    const memSize: nat      // NV_MEM_SIZE
    const blkSize: nat      // NV_BLK_SIZE
    ghost var names: seq<Name>              // the names in the chain's blocks
    ghost var configs: map<Name, Config>    // what is stored
    ghost var open: bool                    // the chain ends at a place without a valid block

    /** The address of block k. */
    function Addr(k: nat): nat {
      1 + k * blkSize
    }

    ghost predicate Layout()
    {
      && Fits(memSize, blkSize, mem.Length) && memSize < 0xffff && mem.Length <= 0x1_0000
      && 19 <= memSize
    }

    ghost function Block(a: nat): seq<bv8>
      requires a + BLOCK_LEN <= mem.Length
      reads mem
    {
      mem[a..a + BLOCK_LEN]
    }

    /** The link field of block k in a chain of n; the last one of an open chain leads to a place without a block. */
    ghost function LinkOf(n: nat, open: bool, k: nat): nat {
      if k + 1 < n || open then Addr(k + 1) else 0
    }

    /** In memory m, block k of the chain holds what is stored under its name. */
    ghost predicate BlockOk(m: seq<bv8>, names: seq<Name>, configs: map<Name, Config>, open: bool, k: nat) {
      && k < |names| && Addr(k) + BLOCK_LEN <= |m| && NameOk(names[k]) && names[k] in configs
      && Holds(m[Addr(k)..Addr(k) + BLOCK_LEN], LinkOf(|names|, open, k), names[k], configs[names[k]])
    }

    /** The chain as a whole: its blocks are at strictly increasing addresses and have different names. */
    ghost predicate Chain(m: seq<bv8>, names: seq<Name>, configs: map<Name, Config>, open: bool) {
      && (forall k :: 0 <= k < |names| ==> BlockOk(m, names, configs, open, k))
      && (forall j, k :: 0 <= j < k < |names| ==> names[j] != names[k])
      && (forall name :: name in configs ==> name in names)
      && (names == [] ==> open) && (open ==> NoBlock(m, |names|))
    }

    /** There is no valid block at block k's place: erased memory, or a damaged block. */
    ghost predicate NoBlock(m: seq<bv8>, k: nat) {
      var a := Addr(k);
      && a + BLOCK_LEN <= |m| && !ValidBlock(m, memSize, a)
      && (var size := Word(m[a + NV_SIZE], m[a + NV_SIZE + 1]); size <= memSize ==> size <= BLOCK_LEN - NV_SIZE)
    }

    ghost predicate Valid()
      reads this, mem
    {
      && Layout()
      && Chain(mem[..], names, configs, open)
    }

    lemma {:induction false} ErasedFound(m: seq<bv8>, memSize: nat)
      requires memSize < 0xffff && 1 + BLOCK_LEN <= |m| && m[1 + NV_SIZE] == 0xff && m[1 + NV_SIZE + 1] == 0xff
      ensures Word(m[1 + NV_SIZE], m[1 + NV_SIZE + 1]) > memSize
    {
    }

    /** An erased memory. */
    constructor (memSize: nat, blkSize: nat, length: nat)
      requires Fits(memSize, blkSize, length) && 19 <= memSize < 0xffff && length <= 0x1_0000
      ensures Valid() && names == [] && configs == map[] && open && fresh(mem)
      ensures this.memSize == memSize && this.blkSize == blkSize && mem.Length == length
    {
      mem := new bv8[length](_ => 0xff);
      this.memSize, this.blkSize := memSize, blkSize;
      names, configs, open := [], map[], true;
      new;
      ErasedFound(mem[..], memSize);
    }

    // -------------------------------------------------------------------------------------
    // Reading

    function ReadWord(addr: nat): nat
      requires addr + 1 < mem.Length
      reads mem
    {
      Word(mem[addr], mem[addr + 1])
    }

    /** nv_calc_crc */
    method CalcCrc(addr: nat, size: nat) returns (crc: bv16)
      requires addr + size <= mem.Length
      ensures crc == Crc(mem[addr..addr + size])
    {
      crc := INITIAL;
      var a := addr;
      var i := size;
      while i > 0
        invariant 0 <= i <= size && a == addr + (size - i)
        invariant crc == Crc(mem[addr..a])
      {
        assert mem[addr..a + 1][..a - addr] == mem[addr..a];
        crc := Update(crc, mem[a]);
        a := a + 1;
        i := i - 1;
      }
    }

    /** nv_is_valid_rtc_block: the checksum behind the size field is right. */
    method IsValidBlock(addr: nat) returns (valid: bool)
      requires addr + BLOCK_LEN <= mem.Length
      requires ReadWord(addr + NV_SIZE) <= memSize ==> addr + NV_SIZE + ReadWord(addr + NV_SIZE) <= mem.Length
      ensures valid <==> ValidBlock(mem[..], memSize, addr)
    {
      hide Crc;
      hide Word;
      hide CrcLow;
      hide CrcHigh;
      ghost var m := mem[..];
      assert ReadWord(addr + NV_SIZE) == Word(m[addr + NV_SIZE], m[addr + NV_SIZE + 1]);
      var savedSize := ReadWord(addr + NV_SIZE);
      if savedSize > memSize {
        return false;
      }
      var crc := CalcCrc(addr + NV_SIZE, savedSize);
      assert m[addr + NV_SIZE..addr + NV_SIZE + savedSize] == mem[addr + NV_SIZE..addr + NV_SIZE + savedSize];
      valid := mem[addr + NV_CRC] == CrcLow(crc) && mem[addr + NV_CRC + 1] == CrcHigh(crc);
    }

    /** nv_read_str */
    method ReadStr(addr: nat, ghost name: Name) returns (s: Name)
      requires NameOk(name) && addr + |name| < mem.Length
      requires At(mem[..], addr, name) && mem[addr + |name|] == 0
      ensures s == name
    {
      forall k | addr <= k < addr + |name|
        ensures mem[k] == name[k - addr] != 0
      {
        assert mem[..][addr + (k - addr)] == name[k - addr];
      }
      s := [];
      var a := addr;
      while mem[a] != 0
        invariant addr <= a <= addr + |name|
        invariant s == name[..a - addr]
        decreases addr + |name| - a
      {
        s := s + [mem[a]];
        a := a + 1;
      }
      assert a == addr + |name|;
    }

    lemma {:induction false} InChain(k: nat)
      requires Valid() && k < |names|
      ensures BlockOk(mem[..], names, configs, open, k)
    {
    }

    lemma {:induction false} BlockValid(m: seq<bv8>, names: seq<Name>, configs: map<Name, Config>, open: bool, k: nat)
      requires Layout() && BlockOk(m, names, configs, open, k)
      ensures ValidBlock(m, memSize, Addr(k))
      ensures Word(m[Addr(k) + NV_SIZE], m[Addr(k) + NV_SIZE + 1]) == SizeOf(names[k])
    {
      hide Crc;
      hide Word;
      hide Holds;
      hide CrcLow;
      hide CrcHigh;
      HoldsFound(m, Addr(k), LinkOf(|names|, open, k), names[k], configs[names[k]]);
    }

    /** What is found at a block of the chain. */
    lemma {:induction false} BlockFound(k: nat)
      requires Layout() && BlockOk(mem[..], names, configs, open, k)
      ensures Addr(k) + BLOCK_LEN <= mem.Length && 0 < Addr(k) < 0x1_0000
      ensures var a := Addr(k);
              && ReadWord(a + NV_SIZE) == SizeOf(names[k]) <= memSize
              && ValidBlock(mem[..], memSize, a)
              && ReadWord(a + NV_LINK) == LinkOf(|names|, open, k)
              && NameOk(names[k])
              && At(mem[..], a + NV_NAME, names[k]) && mem[a + NV_NAME + |names[k]|] == 0
    {
      hide Crc;
      hide Word;
      hide Holds;
      hide ValidBlock;
      BlockValid(mem[..], names, configs, open, k);
      HoldsFound(mem[..], Addr(k), LinkOf(|names|, open, k), names[k], configs[names[k]]);
    }

    lemma {:induction false} HoldsFound(m: seq<bv8>, a: nat, link: nat, name: Name, c: Config)
      requires a + BLOCK_LEN <= |m| && NameOk(name) && Holds(m[a..a + BLOCK_LEN], link, name, c)
      ensures var size := SizeOf(name);
              && Word(m[a + NV_SIZE], m[a + NV_SIZE + 1]) == size && Word(m[a + NV_LINK], m[a + NV_LINK + 1]) == link
              && m[a] == CrcLow(Crc(m[a + NV_SIZE..a + NV_SIZE + size]))
              && m[a + 1] == CrcHigh(Crc(m[a + NV_SIZE..a + NV_SIZE + size]))
      ensures At(m, a + NV_NAME, name) && m[a + NV_NAME + |name|] == 0
      ensures At(m, a + NV_VER, VERSION) && At(m, a + NV_DATA, DataOf(name, c))
    {
      hide Crc;
      hide Word;
      hide DataOf;
      var b := m[a..a + BLOCK_LEN];
      SliceOfBlock(m, b, a, NV_SIZE, NV_SIZE + SizeOf(name));
      BlockAt(m, b, a, NV_NAME, name);
      BlockAt(m, b, a, NV_VER, VERSION);
      BlockAt(m, b, a, NV_DATA, DataOf(name, c));
    }

    /** The blocks of the chain are found valid; behind an open chain none is. */
    method Check(addr: nat, ghost k: nat) returns (valid: bool)
      requires Valid() && addr == Addr(k) && k <= |names| && (k == |names| ==> open)
      ensures valid <==> k < |names|
      ensures valid ==> addr + BLOCK_LEN <= mem.Length && ReadWord(addr + NV_LINK) == LinkOf(|names|, open, k)
      ensures valid ==> NameOk(names[k]) && At(mem[..], addr + NV_NAME, names[k]) && mem[addr + NV_NAME + |names[k]|] == 0
    {
      hide Holds;
      hide Crc;
      hide Word;
      hide At;
      hide ValidBlock;
      if k < |names| {
        BlockFound(k);
      }
      valid := IsValidBlock(addr);
    }

    /** nv_locate: the address of the block with this name, 0 if there is none. */
    method Locate(name: Name) returns (addr: nat)
      requires Valid() && NameOk(name)
      ensures addr == 0 <==> name !in names
      ensures addr != 0 ==> exists k :: 0 <= k < |names| && names[k] == name && addr == Addr(k)
    {
      ChainStarts();
      hide At;
      hide Word;
      hide Chain;
      // start at address 1, skip 0 which may corrupt
      addr := 1;
      ghost var k := 0;
      while addr != 0
        invariant 0 <= k <= |names|
        invariant forall j :: 0 <= j < k ==> names[j] != name
        invariant addr != 0 ==> addr == Addr(k) && (k == |names| ==> open)
        invariant addr == 0 ==> k == |names|
        decreases |names| - k, addr
      {
        var valid := Check(addr, k);
        if valid {
          var stored := ReadStr(addr + NV_NAME, names[k]);
          if stored != name {
            addr := ReadWord(addr + NV_LINK);
            k := k + 1;
          } else {
            break;
          }
        } else {
          addr := 0;
        }
      }
    }

    lemma {:induction false} ChainStarts()
      requires Valid()
      ensures names == [] ==> open
      ensures open ==> Addr(|names|) + BLOCK_LEN <= mem.Length
    {
    }

    // -------------------------------------------------------------------------------------
    // Damage

    /**
     With one covered byte of block g damaged, or two adjacent ones, and the blocks in front of it left alone,
     what is left is the chain of these, which leads to a place without a valid block.
     */
    lemma {:induction false} DamagedChain(
      m: seq<bv8>, n: seq<bv8>, names: seq<Name>, configs: map<Name, Config>, open: bool, g: nat, i: nat)
      requires Layout() && Chain(m, names, configs, open) && |m| == |n| == mem.Length && g < |names|
      requires Addr(g) + BLOCK_LEN <= mem.Length
      requires i + 1 < Addr(g) + NV_SIZE || Addr(g) + NV_VER <= i
      requires forall k :: 0 <= k < |n| && k != i && k != i + 1 ==> n[k] == m[k]
      requires exists k: nat :: k < |n| && Covered(m, Addr(g), k) && n[k] != m[k]
      requires forall k :: 0 <= k < g ==> BlockOk(n, names, configs, open, k)
      ensures Chain(n, names[..g], Restricted(configs, names[..g]), true)
    {
      hide Holds;
      hide Crc;
      hide Word;
      hide Covered;
      hide ValidBlock;
      hide NameOk;
      var before, after := names[..g], Restricted(configs, names[..g]);
      forall k | 0 <= k < g
        ensures BlockOk(n, before, after, true, k)
      {
        assert BlockOk(n, names, configs, open, k);
        assert LinkOf(g, true, k) == LinkOf(|names|, open, k);
      }
      assert BlockOk(m, names, configs, open, g);
      BlockValid(m, names, configs, open, g);
      DamageRejected(m, n, memSize, Addr(g), i);
    }

    /** What is stored. */
    ghost function View(): Entries
      reads this
    {
      Entries(names, configs, open)
    }

    /**
     The memory is damaged. From the first block on that has a covered byte damaged the names are lost, the
     ones in front of it are not; other damage does no harm.
     */
    method Damage(op: Op, ghost room: nat)
      requires Valid() && op.DamageOp? && Spares(View(), blkSize, op)
      modifies this, mem
      ensures Valid() && View() == After(old(View()), op, room, blkSize)
      ensures Masked(old(mem[..]), mem[..], op)
    {
      hide Layout, Chain, BlockOk, Spares, FirstHit, Hit, Restricted, Masked;
      ghost var m, e := mem[..], View();
      Corrupt(op);
      ghost var n := mem[..];
      Damaged(m, n, names, configs, open, op);
      ghost var g := FirstHit(e, blkSize, op, 0);
      if g < |names| {
        names, configs, open := names[..g], Restricted(configs, names[..g]), true;
      }
    }

    /** Two adjacent bytes of memory m are changed by the masks. */
    ghost predicate Masked(m: seq<bv8>, n: seq<bv8>, op: Op)
      requires op.DamageOp?
    {
      && |n| == |m|
      && forall i :: 0 <= i < |m| ==>
           n[i] == if i == op.at then Flip(m[i], op.first) else if i == op.at + 1 then Flip(m[i], op.second) else m[i]
    }

    lemma {:induction false} Damaged(
      m: seq<bv8>, n: seq<bv8>, names: seq<Name>, configs: map<Name, Config>, open: bool, op: Op)
      requires Layout() && Chain(m, names, configs, open) && |m| == mem.Length && op.DamageOp? && Masked(m, n, op)
      requires Spares(Entries(names, configs, open), blkSize, op)
      ensures var g := FirstHit(Entries(names, configs, open), blkSize, op, 0);
        if g < |names| then Chain(n, names[..g], Restricted(configs, names[..g]), true) else Chain(n, names, configs, open)
    {
      hide Holds, ValidBlock, Covered, NameOk, Hit, LeavesFields, NoBlock, BlockOk;
      var e := Entries(names, configs, open);
      var g := FirstHit(e, blkSize, op, 0);
      forall k | 0 <= k < g
        ensures BlockOk(n, names, configs, open, k)
      {
        BlockSpared(m, n, names, configs, open, op, k);
      }
      if g < |names| {
        var i := DamagedAt(m, n, names, configs, open, op, g);
        DamagedChain(m, n, names, configs, open, g, i);
      } else if open {
        PlaceSpared(m, n, op, |names|);
      }
    }

    lemma {:induction false} PlaceSpared(m: seq<bv8>, n: seq<bv8>, op: Op, k: nat)
      requires NoBlock(m, k) && op.DamageOp? && Masked(m, n, op) && LeavesPlace(op, Address(blkSize, k))
      ensures NoBlock(n, k)
    {
      hide NoBlock;
      assert forall i :: Addr(k) <= i < Addr(k) + BLOCK_LEN && i < |m| ==> n[i] == m[i];
      NoBlockFits(m, k);
      NoBlockStays(m, n, k);
    }

    lemma {:induction false} NoBlockFits(m: seq<bv8>, k: nat)
      requires NoBlock(m, k)
      ensures Addr(k) + BLOCK_LEN <= |m|
    {
    }

    /** A block of which no covered byte is damaged is as good as before. */
    lemma {:induction false} BlockSpared(
      m: seq<bv8>, n: seq<bv8>, names: seq<Name>, configs: map<Name, Config>, open: bool, op: Op, k: nat)
      requires BlockOk(m, names, configs, open, k) && op.DamageOp? && Masked(m, n, op)
      requires !Hit(Entries(names, configs, open), blkSize, op, k) && LeavesFields(op, Address(blkSize, k))
      ensures BlockOk(n, names, configs, open, k)
    {
      hide Holds, DataOf, SizeOf;
      var a, used := Addr(k), NV_DATA + |DataOf(names[k], configs[names[k]])|;
      DataShort(names[k], configs[names[k]]);
      forall x | a <= x < a + used
        ensures n[x] == m[x]
      {
        assert a + NV_VER <= x || x < a + NV_LINK ==> Covers(Entries(names, configs, open), blkSize, k, x);
        Unmasked(m[x]);
      }
      HoldsSpared(m[a..a + BLOCK_LEN], n[a..a + BLOCK_LEN], LinkOf(|names|, open, k), names[k], configs[names[k]]);
    }

    lemma {:induction false} HoldsSpared(b: seq<bv8>, d: seq<bv8>, link: nat, name: Name, c: Config)
      requires |b| == |d| == BLOCK_LEN && NameOk(name) && Holds(b, link, name, c)
      requires forall i :: 0 <= i < NV_DATA + |DataOf(name, c)| ==> d[i] == b[i]
      ensures Holds(d, link, name, c)
    {
      hide Crc;
      hide Word;
      SizeCovers(name, c);
      assert d[4..4 + SizeOf(name)] == b[4..4 + SizeOf(name)];
    }

    /** The damaged bytes, and that one of them is covered. */
    lemma {:induction false} DamagedAt(
      m: seq<bv8>, n: seq<bv8>, names: seq<Name>, configs: map<Name, Config>, open: bool, op: Op, g: nat) returns (i: nat)
      requires Layout() && BlockOk(m, names, configs, open, g) && op.DamageOp? && Masked(m, n, op)
      requires Hit(Entries(names, configs, open), blkSize, op, g) && LeavesFields(op, Address(blkSize, g))
      ensures Addr(g) + BLOCK_LEN <= |m| && (i + 1 < Addr(g) + NV_SIZE || Addr(g) + NV_VER <= i)
      ensures forall k :: 0 <= k < |n| && k != i && k != i + 1 ==> n[k] == m[k]
      ensures exists k: nat :: k < |n| && Covered(m, Addr(g), k) && n[k] != m[k]
    {
      hide Holds, Word, ValidBlock, SizeOf, DataOf;
      var e := Entries(names, configs, open);
      i := if op.first != 0 then op.at else op.at + 1;
      BlockValid(m, names, configs, open, g);
      SizeCovers(names[g], configs[names[g]]);
      var x := if op.first != 0 && Covers(e, blkSize, g, op.at) then op.at else op.at + 1;
      assert Covers(e, blkSize, g, x);
      DataShort(names[g], configs[names[g]]);
      assert x < |m| && Covered(m, Addr(g), x);
      Flipped(m[x], if x == op.at then op.first else op.second);
      if op.at < |m| {
        Unmasked(m[op.at]);
      }
    }

    lemma {:induction false} Unmasked(b: bv8)
      ensures Flip(b, 0) == b
    {
    }

    lemma {:induction false} DataShort(name: Name, c: Config)
      ensures NV_DATA + |DataOf(name, c)| <= BLOCK_LEN
    {
    }

    method Corrupt(op: Op)
      requires op.DamageOp?
      modifies mem
      ensures Masked(old(mem[..]), mem[..], op)
    {
      hide Flip;
      var at := op.at;
      if at < mem.Length {
        mem[at] := Flip(mem[at], op.first);
      }
      if at + 1 < mem.Length {
        mem[at + 1] := Flip(mem[at + 1], op.second);
      }
    }

    lemma {:induction false} Flipped(b: bv8, mask: bv8)
      requires mask != 0
      ensures Flip(b, mask) != b
    {
    }

    // -------------------------------------------------------------------------------------
    // Writing

    /** nv_write_word */
    method WriteWord(addr: nat, lo: bv8, hi: bv8)
      requires addr + 1 < mem.Length
      modifies mem
      ensures mem[addr] == lo && mem[addr + 1] == hi
      ensures forall i :: 0 <= i < mem.Length && i != addr && i != addr + 1 ==> mem[i] == old(mem[i])
    {
      mem[addr] := lo;
      mem[addr + 1] := hi;
    }

    /** nv_write_str */
    method WriteStr(addr: nat, s: Name) returns (n: nat)
      requires NameOk(s) && addr + |s| < mem.Length
      modifies mem
      ensures n == |s| + 1
      ensures At(mem[..], addr, s) && mem[addr + |s|] == 0
      ensures forall i :: 0 <= i < mem.Length && !(addr <= i <= addr + |s|) ==> mem[i] == old(mem[i])
    {
      n := 0;
      while n < |s|
        invariant 0 <= n <= |s|
        invariant forall i :: 0 <= i < n ==> mem[addr + i] == s[i]
        invariant forall i :: 0 <= i < mem.Length && !(addr <= i < addr + n) ==> mem[i] == old(mem[i])
      {
        mem[addr + n] := s[n];
        n := n + 1;
      }
      mem[addr + n] := 0;
      n := n + 1;
    }

    /** nv_create_entry: link the new block, number k, to the one before it, and give it its name. */
    method CreateEntry(addr: nat, link: nat, name: Name, ghost k: nat)
      requires NameOk(name) && addr + BLOCK_LEN <= mem.Length <= 0x1_0000 && blkSize >= BLOCK_LEN
      requires addr == Addr(k) && if k == 0 then link == 0 else link == Addr(k - 1) && link + blkSize == addr
      modifies mem
      ensures Created(old(mem[..]), mem[..], k, name)
    {
      hide Word;
      hide Low;
      hide High;
      WordRoundTrip(addr);
      WordRoundTrip(0);
      WriteWord(link + NV_LINK, Low(addr), High(addr));
      WriteWord(addr + NV_LINK, Low(0), High(0));
      var len := WriteStr(addr + NV_NAME, name);
    }

    /** nv_saveaddr: the address to write the configuration to; a new block is linked in. 0: the memory is full. */
    method SaveAddr(name: Name) returns (addr: nat)
      requires Valid() && NameOk(name)
      modifies mem
      ensures name in names ==>
                mem[..] == old(mem[..]) && exists k :: 0 <= k < |names| && names[k] == name && addr == Addr(k)
      ensures Full(name) ==> addr == 0 && mem[..] == old(mem[..])
      ensures name !in names && !Full(name) ==>
                && addr == Addr(|names|) && addr + BLOCK_LEN <= mem.Length
                && Created(old(mem[..]), mem[..], |names|, name)
    {
      hide Holds;
      hide Crc;
      hide Word;
      addr := Locate(name);
      if addr != 0 {
        return;
      }
      var lastLink;
      addr, lastLink := FindEnd();
      if addr == 0 {
        // NV MEM FULL
        return 0;
      }
      CreateEntry(addr, lastLink, name, |names|);
    }

    /** The last block of the chain, and the address for a new one behind it; address 0 if there is no room. */
    method FindEnd() returns (addr: nat, lastLink: nat)
      requires Valid()
      ensures names == [] ==> lastLink == 0
      ensures names != [] ==> lastLink == Addr(|names| - 1) && lastLink + blkSize == Addr(|names|)
      ensures addr == if !open && Addr(|names|) > memSize then 0 else Addr(|names|)
      ensures addr != 0 ==> addr + BLOCK_LEN <= mem.Length
    {
      hide Holds;
      hide Crc;
      hide Word;
      ChainStarts();
      addr := 1;
      lastLink := 0;
      ghost var k := 0;
      while true
        invariant 0 <= k <= |names| && (k == |names| ==> open)
        invariant addr == Addr(k) && lastLink == if k == 0 then 0 else Addr(k - 1)
        decreases |names| - k
      {
        var valid := Check(addr, k);
        if valid {
          lastLink := addr;
          addr := ReadWord(addr + NV_LINK);
          if addr == 0 {
            addr := lastLink + blkSize;
            NextBlock(k);
            if addr > memSize {
              addr := 0;
            }
            return;
          }
          k := k + 1;
        } else {
          return;
        }
      }
    }

    lemma {:induction false} NextBlock(k: nat)
      requires Layout()
      ensures Addr(k) + blkSize == Addr(k + 1)
      ensures Addr(k + 1) <= memSize ==> Addr(k + 1) + BLOCK_LEN <= mem.Length
    {
    }

    /** From memory m to memory n: block k has been linked in and given its name. */
    ghost predicate Created(m: seq<bv8>, n: seq<bv8>, k: nat, name: Name) {
      var a := Addr(k);
      && |m| == |n| && a + BLOCK_LEN <= |n| && NameOk(name)
      && (forall i :: 0 <= i < |n| && !(a <= i < a + BLOCK_LEN) && !(k > 0 && Addr(k - 1) + 2 <= i <= Addr(k - 1) + 3) ==>
            n[i] == m[i])
      && (k > 0 ==> Addr(k - 1) + 3 < |n| && Word(n[Addr(k - 1) + 2], n[Addr(k - 1) + 3]) == a)
      && Word(n[a + 2], n[a + 3]) == 0
      && At(n, a + NV_NAME, name) && n[a + NV_NAME + |name|] == 0
    }

    /** The rest of nv_save_config: version, data, size and, last of all, the checksum. */
    method FillBlock(addr: nat, name: Name, c: Config)
      requires addr + BLOCK_LEN <= mem.Length && NameOk(name)
      requires At(mem[..], addr + NV_NAME, name) && mem[addr + NV_NAME + |name|] == 0
      modifies mem
      ensures Holds(Block(addr), old(ReadWord(addr + NV_LINK)), name, c)
      ensures SealedUpTo(addr, addr + NV_DATA + if name == COMMON_NAME then 1 else 3)
      ensures forall i :: 0 <= i < mem.Length && !(addr <= i < addr + BLOCK_LEN) ==> mem[i] == old(mem[i])
    {
      hide Holds;
      hide Content;
      hide DataOf;
      hide SealedUpTo;
      WriteVersion(addr);
      var p := WriteData(addr, name, c);
      ContentFound(mem[..], addr, name, c);
      Seal(addr, p - addr - NV_SIZE, name, c);
      SealedBlock(addr, old(ReadWord(addr + NV_LINK)), name, c);
    }

    /** The checksum and the size of the block at addr are those of the bytes up to `end`. */
    ghost predicate SealedUpTo(addr: nat, end: nat)
      requires addr + NV_VER <= end <= mem.Length
      reads mem
    {
      && ReadWord(addr + NV_SIZE) == end - addr - NV_SIZE
      && mem[addr] == CrcLow(Crc(mem[addr + NV_SIZE..end])) && mem[addr + 1] == CrcHigh(Crc(mem[addr + NV_SIZE..end]))
    }

    lemma {:induction false} SealedBlock(addr: nat, link: nat, name: Name, c: Config)
      requires addr + BLOCK_LEN <= mem.Length && NameOk(name) && Holds(Block(addr), link, name, c)
      ensures SealedUpTo(addr, addr + NV_DATA + if name == COMMON_NAME then 1 else 3)
    {
      hide Crc, Word, Holds, CrcLow, CrcHigh;
      ghost var m := mem[..];
      SizeCovers(name, c);
      HoldsFound(m, addr, link, name, c);
      var size := SizeOf(name);
      assert m[addr + NV_SIZE..addr + NV_SIZE + size] == mem[addr + NV_SIZE..addr + NV_SIZE + size];
    }

    method WriteData(addr: nat, name: Name, c: Config) returns (p: nat)
      requires addr + BLOCK_LEN <= mem.Length && NameOk(name)
      modifies mem
      ensures p == addr + NV_SIZE + SizeOf(name) && At(mem[..], addr + NV_DATA, DataOf(name, c))
      ensures forall i :: 0 <= i < mem.Length && !(addr + NV_DATA <= i < addr + BLOCK_LEN) ==> mem[i] == old(mem[i])
    {
      p := addr + NV_DATA;
      if name == COMMON_NAME {
        mem[p] := 42;
        p := p + 1;
      } else {
        mem[p], mem[p + 1], mem[p + 2] := c.deviceAddress, c.lastUsedDrive, if c.advancedWildcards then 1 else 0;
        p := p + 3;
      }
    }

    lemma {:induction false} ContentFound(m: seq<bv8>, addr: nat, name: Name, c: Config)
      requires addr + BLOCK_LEN <= |m| && NameOk(name)
      requires At(m, addr + NV_VER, VERSION) && At(m, addr + NV_DATA, DataOf(name, c))
      requires At(m, addr + NV_NAME, name) && m[addr + NV_NAME + |name|] == 0
      ensures Content(m[addr..addr + BLOCK_LEN], name, c)
    {
      hide At;
      hide DataOf;
      var b := m[addr..addr + BLOCK_LEN];
      BlockAt(m, b, addr, NV_VER, VERSION);
      BlockAt(m, b, addr, NV_NAME, name);
      BlockAt(m, b, addr, NV_DATA, DataOf(name, c));
    }

    lemma {:induction false} BlockAt(m: seq<bv8>, b: seq<bv8>, addr: nat, offset: nat, s: seq<bv8>)
      requires addr + BLOCK_LEN <= |m| && |b| == BLOCK_LEN && b == m[addr..addr + BLOCK_LEN]
      requires offset + |s| <= BLOCK_LEN
      ensures At(b, offset, s) <==> At(m, addr + offset, s)
    {
      assert forall k :: 0 <= k < BLOCK_LEN ==> b[k] == m[addr + k];
      if At(b, offset, s) {
        forall i | 0 <= i < |s|
          ensures m[addr + offset + i] == s[i]
        {
          assert b[offset + i] == m[addr + (offset + i)];
        }
      }
    }

    /** Store the size and the checksum. */
    method Seal(addr: nat, nvSize: nat, name: Name, ghost c: Config)
      requires addr + BLOCK_LEN <= mem.Length && NameOk(name) && nvSize == SizeOf(name)
      requires Content(Block(addr), name, c)
      modifies mem
      ensures Holds(Block(addr), old(ReadWord(addr + NV_LINK)), name, c)
      ensures forall i :: 0 <= i < mem.Length && !(addr <= i < addr + BLOCK_LEN) ==> mem[i] == old(mem[i])
    {
      hide Crc;
      hide Word;
      hide Low;
      hide High;
      hide DataOf;
      ghost var before := Block(addr);
      WordRoundTrip(nvSize);
      WriteWord(addr + NV_SIZE, Low(nvSize), High(nvSize));
      var crc := CalcCrc(addr + NV_SIZE, nvSize);
      ghost var used := mem[addr + NV_SIZE..addr + NV_SIZE + nvSize];
      WriteWord(addr + NV_CRC, CrcLow(crc), CrcHigh(crc));
      ghost var b := Block(addr);
      assert mem[addr + NV_SIZE..addr + NV_SIZE + nvSize] == used;
      SliceOfBlock(mem[..], b, addr, NV_SIZE, NV_SIZE + nvSize);
      SameContent(before, b, name, c);
    }

    lemma {:induction false} SliceOfBlock(m: seq<bv8>, b: seq<bv8>, addr: nat, i: nat, j: nat)
      requires addr + BLOCK_LEN <= |m| && b == m[addr..addr + BLOCK_LEN] && i <= j <= BLOCK_LEN
      ensures b[i..j] == m[addr + i..addr + j]
    {
      assert forall k :: 0 <= k < j - i ==> b[i..j][k] == m[addr + i..addr + j][k];
    }

    lemma {:induction false} SameContent(b: seq<bv8>, d: seq<bv8>, name: Name, c: Config)
      requires |b| == |d| == BLOCK_LEN && NameOk(name) && Content(b, name, c)
      requires forall i :: 6 <= i < BLOCK_LEN ==> b[i] == d[i]
      ensures Content(d, name, c)
    {
    }

    /** nv_write_dword of VERSION_U32 */
    method WriteVersion(addr: nat)
      requires addr + BLOCK_LEN <= mem.Length
      modifies mem
      ensures At(mem[..], addr + NV_VER, VERSION)
      ensures forall i :: 0 <= i < mem.Length && !(addr + NV_VER <= i < addr + NV_VER + 4) ==> mem[i] == old(mem[i])
    {
      mem[addr + NV_VER] := VERSION[0];
      mem[addr + NV_VER + 1] := VERSION[1];
      mem[addr + NV_VER + 2] := VERSION[2];
      mem[addr + NV_VER + 3] := VERSION[3];
    }

    lemma {:induction false} Apart(j: nat, k: nat)
      requires j < k
      ensures Addr(j) + blkSize <= Addr(k)
    {
      Multiples(j, k, blkSize);
    }

    /** Writing one block again leaves the others as they are. */
    lemma {:induction false} Overwritten(
      m: seq<bv8>, n: seq<bv8>, names: seq<Name>, configs: map<Name, Config>, open: bool, k: nat, c: Config)
      requires Chain(m, names, configs, open) && k < |names| && |m| == |n| && blkSize >= BLOCK_LEN
      requires Addr(k) + BLOCK_LEN <= |n| && NameOk(names[k])
      requires Holds(n[Addr(k)..Addr(k) + BLOCK_LEN], LinkOf(|names|, open, k), names[k], c)
      requires forall i :: 0 <= i < |n| && !(Addr(k) <= i < Addr(k) + BLOCK_LEN) ==> n[i] == m[i]
      ensures Chain(n, names, configs[names[k] := c], open)
    {
      hide Holds;
      hide NameOk;
      hide NoBlock;
      var after := configs[names[k] := c];
      forall j | 0 <= j < |names|
        ensures BlockOk(n, names, after, open, j)
      {
        assert BlockOk(m, names, configs, open, j);
        if j < k {
          Apart(j, k);
          assert n[Addr(j)..Addr(j) + BLOCK_LEN] == m[Addr(j)..Addr(j) + BLOCK_LEN];
        } else if k < j {
          Apart(k, j);
          assert n[Addr(j)..Addr(j) + BLOCK_LEN] == m[Addr(j)..Addr(j) + BLOCK_LEN];
        }
      }
      if open {
        Apart(k, |names|);
        NoBlockFits(m, |names|);
        NoBlockStays(m, n, |names|);
      }
    }

    /** Without a change at block k's place, there is still no block. */
    lemma {:induction false} NoBlockStays(m: seq<bv8>, n: seq<bv8>, k: nat)
      requires NoBlock(m, k) && |m| == |n| && forall i :: Addr(k) <= i < Addr(k) + BLOCK_LEN ==> n[i] == m[i]
      ensures NoBlock(n, k)
    {
      hide Crc;
      hide Word;
      var a := Addr(k);
      var size := Word(m[a + NV_SIZE], m[a + NV_SIZE + 1]);
      if size <= memSize {
        assert n[a + NV_SIZE..a + NV_SIZE + size] == m[a + NV_SIZE..a + NV_SIZE + size];
      }
    }

    /** The link field is not covered by the checksum: a block can be linked anew without touching the rest. */
    lemma {:induction false} Relinked(b: seq<bv8>, d: seq<bv8>, link: nat, newLink: nat, name: Name, c: Config)
      requires |b| == |d| == BLOCK_LEN && NameOk(name) && Holds(b, link, name, c)
      requires forall i :: 0 <= i < BLOCK_LEN && i != 2 && i != 3 ==> d[i] == b[i]
      requires Word(d[2], d[3]) == newLink
      ensures Holds(d, newLink, name, c)
    {
      hide Crc;
      hide Word;
      hide DataOf;
      hide SizeOf;
      assert d[4..4 + SizeOf(name)] == b[4..4 + SizeOf(name)];
      SameContent(b, d, name, c);
    }

    /** A new block behind the chain, whether that ended regularly or at a place without a valid block. */
    lemma {:induction false} Appended(
      m: seq<bv8>, n: seq<bv8>, names: seq<Name>, configs: map<Name, Config>, open: bool, name: Name, c: Config)
      requires Chain(m, names, configs, open) && |m| == |n| && blkSize >= BLOCK_LEN && NameOk(name) && name !in names
      requires var k := |names|;
               && Addr(k) + BLOCK_LEN <= |n| && Holds(n[Addr(k)..Addr(k) + BLOCK_LEN], 0, name, c)
               && (forall i :: 0 <= i < |n| && !(Addr(k) <= i < Addr(k) + BLOCK_LEN)
                               && !(k > 0 && Addr(k - 1) + 2 <= i <= Addr(k - 1) + 3) ==>
                     n[i] == m[i])
               && (k > 0 ==> Addr(k - 1) + 3 < |n| && Word(n[Addr(k - 1) + 2], n[Addr(k - 1) + 3]) == Addr(k))
      ensures Chain(n, names + [name], configs[name := c], false)
    {
      hide Holds;
      hide NameOk;
      hide Word;
      var k := |names|;
      var after, all := configs[name := c], names + [name];
      forall j | 0 <= j < |all|
        ensures BlockOk(n, all, after, false, j)
      {
        if j < k {
          assert BlockOk(m, names, configs, open, j);
          Apart(j, k);
          if j + 1 == k {
            Relinked(m[Addr(j)..Addr(j) + BLOCK_LEN], n[Addr(j)..Addr(j) + BLOCK_LEN],
                     LinkOf(k, open, j), Addr(k), names[j], configs[names[j]]);
          } else {
            Apart(j, k - 1);
            assert n[Addr(j)..Addr(j) + BLOCK_LEN] == m[Addr(j)..Addr(j) + BLOCK_LEN];
          }
        }
      }
    }

    /** There is no block for this name, and no room for one more. */
    ghost predicate Full(name: Name)
      reads this
    {
      name !in names && !open && Addr(|names|) > memSize
    }

    /**
     nv_save_config: true on errors. A damaged block is overwritten by that of the new name: the names in
     front of it and the new one are a regular chain again, and those behind it are gone.
     */
    method Save(name: Name, c: Config) returns (fail: bool)
      requires Valid() && NameOk(name)
      modifies this, mem
      ensures Valid() && fail == old(Full(name))
      ensures fail ==> configs == old(configs) && names == old(names) && open == old(open) && mem[..] == old(mem[..])
      ensures !fail ==> configs == old(configs)[name := c]
      ensures !fail ==> names == if name in old(names) then old(names) else old(names) + [name]
      ensures !fail ==> open == (old(open) && name in old(names))
    {
      hide Holds;
      hide Chain;
      hide Word;
      hide Crc;
      hide At;
      hide ValidBlock;
      hide BlockOk;
      ghost var m := mem[..];
      var addr := SaveAddr(name);
      if addr == 0 {
        return true;
      }
      ghost var k: nat := |names|;
      if name in names {
        k :| 0 <= k < |names| && names[k] == name && addr == Addr(k);
        InChain(k);
        BlockFound(k);
      } else {
        CreatedFound(m, mem[..], k, name);
      }
      Commit(addr, name, c, m, k);
      fail := false;
    }

    /** Block k has its place, its name and its link; m is the memory before anything was written. */
    method Commit(addr: nat, name: Name, c: Config, ghost m: seq<bv8>, ghost k: nat)
      requires Layout() && Chain(m, names, configs, open) && |m| == mem.Length && NameOk(name) && addr == Addr(k)
      requires addr + BLOCK_LEN <= mem.Length && At(mem[..], addr + NV_NAME, name) && mem[addr + NV_NAME + |name|] == 0
      requires if name in names then
                 k < |names| && names[k] == name && mem[..] == m && ReadWord(addr + NV_LINK) == LinkOf(|names|, open, k)
               else k == |names| && Created(m, mem[..], k, name) && ReadWord(addr + NV_LINK) == 0
      modifies this, mem
      ensures Valid() && configs == old(configs)[name := c]
      ensures names == if name in old(names) then old(names) else old(names) + [name]
      ensures open == (old(open) && name in old(names))
    {
      hide Holds;
      hide Chain;
      hide Word;
      hide Crc;
      hide At;
      hide Created;
      ghost var created := mem[..];
      FillBlock(addr, name, c);
      ghost var n := mem[..];
      assert Block(addr) == n[addr..addr + BLOCK_LEN];
      assert forall i :: 0 <= i < |n| && !(addr <= i < addr + BLOCK_LEN) ==> n[i] == created[i];
      if name in names {
        Overwritten(m, n, names, configs, open, k, c);
      } else {
        CreatedFilled(m, created, n, k, name);
        Appended(m, n, names, configs, open, name, c);
        names, open := names + [name], false;
      }
      configs := configs[name := c];
    }

    /** Filling the new block changes neither the blocks before it nor the link to it. */
    lemma {:induction false} CreatedFilled(m: seq<bv8>, created: seq<bv8>, n: seq<bv8>, k: nat, name: Name)
      requires Created(m, created, k, name) && |n| == |created| && blkSize >= BLOCK_LEN
      requires forall i :: 0 <= i < |n| && !(Addr(k) <= i < Addr(k) + BLOCK_LEN) ==> n[i] == created[i]
      ensures forall i :: 0 <= i < |n| && !(Addr(k) <= i < Addr(k) + BLOCK_LEN)
                          && !(k > 0 && Addr(k - 1) + 2 <= i <= Addr(k - 1) + 3) ==>
                n[i] == m[i]
      ensures k > 0 ==> Addr(k - 1) + 3 < |n| && Word(n[Addr(k - 1) + 2], n[Addr(k - 1) + 3]) == Addr(k)
    {
      hide Word;
      if k > 0 {
        Apart(k - 1, k);
      }
    }

    lemma {:induction false} CreatedFound(m: seq<bv8>, n: seq<bv8>, k: nat, name: Name)
      requires Created(m, n, k, name)
      ensures var a := Addr(k);
              a + BLOCK_LEN <= |n| && At(n, a + NV_NAME, name) && n[a + NV_NAME + |name|] == 0 && Word(n[a + 2], n[a + 3]) == 0
    {
    }

    /**
     nv_restore_config: true on errors. The common block is read, but nothing is taken from it. The
     version is the one that is written, so the block is neither outdated nor without the last entry.
     */
    method Restore(name: Name, rtc: Config) returns (fail: bool, out: Config)
      requires Valid() && NameOk(name)
      ensures fail <==> name !in configs
      ensures fail || name == COMMON_NAME ==> out == rtc
      ensures !fail && name != COMMON_NAME ==> out == configs[name]
    {
      hide Holds;
      hide Word;
      hide Crc;
      out := rtc;
      fail := false;
      hide NoBlock;
      NamesAreKeys(name);
      var addr := Locate(name);
      if addr == 0 {
        return true, rtc;
      }
      ghost var k :| 0 <= k < |names| && names[k] == name && addr == Addr(k);
      InChain(k);
      DataFound(k);
      var outdated := Outdated(mem[addr + NV_VER..addr + NV_VER + 4]);
      VersionCurrent(mem[addr + NV_VER..addr + NV_VER + 4]);
      fail := outdated;
      var p := addr + NV_DATA;
      if name != COMMON_NAME {
        out := Config(mem[p], mem[p + 1], rtc.advancedWildcards);
        if AtLeast(mem[addr + NV_VER..addr + NV_VER + 4], [0x01, 0x02, 0x09, 0x00]) {
          out := Config(mem[p], mem[p + 1], mem[p + 2] != 0);
        }
      }
    }

    lemma {:induction false} NamesAreKeys(name: Name)
      requires Valid()
      ensures name in names <==> name in configs
    {
      if name in names {
        var k :| 0 <= k < |names| && names[k] == name;
        assert BlockOk(mem[..], names, configs, open, k);
      }
    }

    lemma {:induction false} DataFound(k: nat)
      requires Layout() && BlockOk(mem[..], names, configs, open, k)
      ensures Addr(k) + BLOCK_LEN <= mem.Length && names[k] in configs
      ensures mem[Addr(k) + NV_VER..Addr(k) + NV_VER + 4] == VERSION
      ensures var d := DataOf(names[k], configs[names[k]]); var a := Addr(k) + NV_DATA;
              mem[a] == d[0] && (names[k] != COMMON_NAME ==> mem[a + 1] == d[1] && mem[a + 2] == d[2])
    {
      hide Holds;
      var a, m := Addr(k), mem[..];
      HoldsFound(m, a, LinkOf(|names|, open, k), names[k], configs[names[k]]);
      var d := DataOf(names[k], configs[names[k]]);
      assert m[a + NV_DATA + 0] == d[0];
      assert names[k] != COMMON_NAME ==> m[a + NV_DATA + 1] == d[1] && m[a + NV_DATA + 2] == d[2];
      forall i | 0 <= i < 4
        ensures mem[a + NV_VER..a + NV_VER + 4][i] == VERSION[i]
      {
        assert m[a + NV_VER + i] == VERSION[i];
      }
    }
  }

  // ---------------------------------------------------------------------------------------
  // Versions, as four bytes, low byte first

  function DWord(v: seq<bv8>): nat
    requires |v| == 4
  {
    Word(v[0], v[1]) + 0x1_0000 * Word(v[2], v[3])
  }

  predicate AtLeast(v: seq<bv8>, w: seq<bv8>)
    requires |v| == |w| == 4
  {
    DWord(v) >= DWord(w)
  }

  predicate Outdated(v: seq<bv8>)
    requires |v| == 4
  {
    DWord(VERSION) > DWord(v)
  }

  lemma {:induction false} VersionCurrent(v: seq<bv8>)
    requires |v| == 4 && v == VERSION
    ensures !Outdated(v) && AtLeast(v, [0x01, 0x02, 0x09, 0x00])
  {
  }

  // ---------------------------------------------------------------------------------------
  // Whole runs

  /** A save; or damage to the byte at an address and the one behind it, by the bits of the masks. */
  datatype Op = SaveOp(name: Name, config: Config) | DamageOp(at: nat, first: bv8, second: bv8)

  /** The byte with some of its bits changed. */
  function Flip(b: bv8, mask: bv8): bv8 {
    b ^ mask
  }

  /** The names in the order of their blocks, what is stored under them, and whether a place without a block follows. */
  datatype Entries = Entries(names: seq<Name>, configs: map<Name, Config>, open: bool)

  /** The entries of these names only. */
  function Restricted(configs: map<Name, Config>, names: seq<Name>): map<Name, Config> {
    map name | name in configs && name in names :: configs[name]
  }

  /** Where block k is. */
  function Address(blkSize: nat, k: nat): nat {
    1 + k * blkSize
  }

  /** The checksum of block g is at address x, or covers it from the version to the last data byte. */
  predicate Covers(e: Entries, blkSize: nat, g: nat, x: nat) {
    var a := Address(blkSize, g);
    && g < |e.names| && e.names[g] in e.configs
    && (a <= x < a + NV_LINK || a + NV_VER <= x < a + NV_DATA + |DataOf(e.names[g], e.configs[e.names[g]])|)
  }

  predicate Hit(e: Entries, blkSize: nat, op: Op, g: nat)
    requires op.DamageOp?
  {
    (op.first != 0 && Covers(e, blkSize, g, op.at)) || (op.second != 0 && Covers(e, blkSize, g, op.at + 1))
  }

  /** The first block from k on with a covered byte damaged. */
  function FirstHit(e: Entries, blkSize: nat, op: Op, k: nat): (g: nat)
    requires op.DamageOp? && k <= |e.names|
    ensures k <= g <= |e.names| && (g < |e.names| ==> Hit(e, blkSize, op, g))
    ensures forall j :: k <= j < g ==> !Hit(e, blkSize, op, j)
    decreases |e.names| - k
  {
    if k == |e.names| || Hit(e, blkSize, op, k) then k else FirstHit(e, blkSize, op, k + 1)
  }

  /** The size of the block at a is left alone, and its link, unless the checksum in front of it is damaged too. */
  predicate LeavesFields(op: Op, a: nat)
    requires op.DamageOp?
  {
    && (op.first != 0 ==> !(a + NV_LINK <= op.at < a + NV_VER))
    && (op.second != 0 ==>
          && !(a + NV_SIZE <= op.at + 1 < a + NV_VER)
          && (a + NV_LINK <= op.at + 1 < a + NV_SIZE ==> op.first != 0 && a <= op.at < a + NV_LINK))
  }

  predicate LeavesPlace(op: Op, a: nat)
    requires op.DamageOp?
  {
    && (op.first != 0 ==> !(a <= op.at < a + BLOCK_LEN)) && (op.second != 0 ==> !(a <= op.at + 1 < a + BLOCK_LEN))
  }

  /** Damage leaves alone what no checksum protects: links, sizes, and the place that an open chain leads to. */
  predicate Spares(e: Entries, blkSize: nat, op: Op) {
    op.DamageOp? ==>
      && (forall g :: 0 <= g < |e.names| ==> LeavesFields(op, Address(blkSize, g)))
      && (e.open ==> LeavesPlace(op, Address(blkSize, |e.names|)))
  }

  /** One more save, if there is room; one more damage, if it hits a block in use. */
  function After(e: Entries, op: Op, room: nat, blkSize: nat): Entries {
    match op
    case SaveOp(name, config) =>
      if name in e.names then Entries(e.names, e.configs[name := config], e.open)
      else if |e.names| < room then Entries(e.names + [name], e.configs[name := config], false)
      else e
    case DamageOp(_, _, _) =>
      var g := FirstHit(e, blkSize, op, 0);
      if g < |e.names| then Entries(e.names[..g], Restricted(e.configs, e.names[..g]), true) else e
  }

  /** What is stored after the given saves and damages, when the memory has room for so many names. */
  function Stored(ops: seq<Op>, room: nat, blkSize: nat): Entries {
    if ops == [] then Entries([], map[], true)
    else After(Stored(ops[..|ops| - 1], room, blkSize), ops[|ops| - 1], room, blkSize)
  }

  /** The operations of a run: names are names, and damage leaves unprotected fields of what is stored alone. */
  predicate RunOk(ops: seq<Op>, room: nat, blkSize: nat) {
    forall i :: 0 <= i < |ops| ==>
      && (ops[i].SaveOp? ==> NameOk(ops[i].name))
      && Spares(Stored(ops[..i], room, blkSize), blkSize, ops[i])
  }

  /** How many blocks the size check lets be created. */
  function Room(memSize: nat, blkSize: nat): nat
    requires memSize >= 1 && blkSize >= 1
  {
    (memSize - 1) / blkSize + 1
  }

  lemma {:induction false} RoomLeft(memSize: nat, blkSize: nat, n: nat)
    requires memSize >= 1 && blkSize >= 1
    ensures n == 0 || 1 + n * blkSize <= memSize <==> n < Room(memSize, blkSize)
  {
    var q := (memSize - 1) / blkSize;
    assert memSize - 1 == q * blkSize + (memSize - 1) % blkSize;
    if n <= q {
      if n < q {
        Multiples(n, q, blkSize);
      }
    } else {
      Multiples(q, n, blkSize);
    }
  }

  /**
   From erased memory on, over every sequence of saves and of damages that spare the unprotected fields,
   restoring any name gives what has been saved last under it, unless it was lost since.
   */
  method StoreRun(memSize: nat, blkSize: nat, length: nat, ops: seq<Op>, name: Name, rtc: Config)
    returns (fails: seq<bool>, missing: bool, out: Config)
    requires Fits(memSize, blkSize, length) && 19 <= memSize < 0xffff && length <= 0x1_0000
    requires NameOk(name) && RunOk(ops, Room(memSize, blkSize), blkSize)
    ensures |fails| == |ops|
    ensures forall i :: 0 <= i < |ops| ==>
      (fails[i] <==> ops[i].SaveOp? && ops[i].name !in Stored(ops[..i + 1], Room(memSize, blkSize), blkSize).configs)
    ensures missing <==> name !in Stored(ops, Room(memSize, blkSize), blkSize).configs
    ensures out == if missing || name == COMMON_NAME then rtc else Stored(ops, Room(memSize, blkSize), blkSize).configs[name]
  {
    hide Fits;
    hide Room;
    hide Stored;
    hide RunOk;
    hide After;
    hide Spares;
    hide NameOk;
    hide Store.Valid;
    FitsPositive(memSize, blkSize, length);
    var store := new Store(memSize, blkSize, length);
    var room := Room(memSize, blkSize);
    RoomLeft(memSize, blkSize, 0);
    NothingStored(room, blkSize);
    fails := [];
    for i := 0 to |ops|
      invariant fresh(store) && fresh(store.mem) && store.Valid() && store.memSize == memSize && store.blkSize == blkSize
      invariant store.View() == Stored(ops[..i], room, blkSize)
      invariant |store.names| <= room && (store.open ==> |store.names| < room)
      invariant |fails| == i
      invariant forall k :: 0 <= k < i ==>
        (fails[k] <==> ops[k].SaveOp? && ops[k].name !in Stored(ops[..k + 1], room, blkSize).configs)
    {
      StoredStep(ops, room, blkSize, i);
      var fail := OneOp(store, ops[i], room);
      fails := fails + [fail];
    }
    assert ops[..|ops|] == ops;
    missing, out := store.Restore(name, rtc);
  }

  lemma {:induction false} NothingStored(room: nat, blkSize: nat)
    ensures Stored([], room, blkSize) == Entries([], map[], true)
  {
  }

  lemma {:induction false} StoredStep(ops: seq<Op>, room: nat, blkSize: nat, i: nat)
    requires i < |ops| && RunOk(ops, room, blkSize)
    ensures Stored(ops[..i + 1], room, blkSize) == After(Stored(ops[..i], room, blkSize), ops[i], room, blkSize)
    ensures (ops[i].SaveOp? ==> NameOk(ops[i].name)) && Spares(Stored(ops[..i], room, blkSize), blkSize, ops[i])
  {
    hide After, Spares;
    assert ops[..i + 1][..i] == ops[..i];
  }

  method OneOp(store: Store, op: Op, ghost room: nat) returns (fail: bool)
    requires store.Valid() && (op.SaveOp? ==> NameOk(op.name)) && Spares(store.View(), store.blkSize, op)
    requires store.memSize >= 1 && store.blkSize >= 1 && room == Room(store.memSize, store.blkSize)
    requires |store.names| <= room && (store.open ==> |store.names| < room)
    modifies store, store.mem
    ensures store.Valid() && store.View() == After(old(store.View()), op, room, store.blkSize)
    ensures |store.names| <= room && (store.open ==> |store.names| < room)
    ensures fail <==> op.SaveOp? && op.name !in store.configs
  {
    RoomLeft(store.memSize, store.blkSize, |store.names|);
    store.ChainStarts();
    hide Room;
    hide Store.Valid;
    hide Spares;
    match op {
      case SaveOp(name, config) =>
        store.NamesAreKeys(name);
        fail := store.Save(name, config);
      case DamageOp(_, _, _) =>
        fail := false;
        store.Damage(op, room);
    }
  }

  lemma {:induction false} FitsPositive(memSize: nat, blkSize: nat, length: nat)
    requires Fits(memSize, blkSize, length)
    ensures blkSize >= BLOCK_LEN
  {
  }

  /** What is stored is what was saved last under the name, whatever has been saved or damaged since. */
  lemma {:induction false} LastSave(ops: seq<Op>, room: nat, blkSize: nat, i: nat)
    requires i < |ops| && ops[i].SaveOp? && ops[i].name in Stored(ops, room, blkSize).configs
    requires forall k :: i < k < |ops| && ops[k].SaveOp? ==> ops[k].name != ops[i].name
    ensures Stored(ops, room, blkSize).configs[ops[i].name] == ops[i].config
    decreases |ops|
  {
    hide FirstHit;
    StoredNames(ops[..|ops| - 1], room, blkSize);
    if i < |ops| - 1 {
      LastSave(ops[..|ops| - 1], room, blkSize, i);
    }
  }

  /** The names have one block each, and the memory holds no more of them than there is room for. */
  lemma {:induction false} StoredNames(ops: seq<Op>, room: nat, blkSize: nat)
    ensures var e := Stored(ops, room, blkSize);
      && |e.names| <= room && (forall name :: name in e.configs <==> name in e.names)
      && (forall j, k :: 0 <= j < k < |e.names| ==> e.names[j] != e.names[k])
    decreases |ops|
  {
    hide FirstHit;
    if ops != [] {
      StoredNames(ops[..|ops| - 1], room, blkSize);
    }
  }

  /** A block keeps its name and its place until it, or a block in front of it, has a covered byte damaged. */
  lemma {:induction false} StoredStays(ops: seq<Op>, room: nat, blkSize: nat, n: nat, b: nat)
    requires n <= |ops| && b < |Stored(ops[..n], room, blkSize).names|
    requires forall k, g: nat :: n <= k < |ops| && ops[k].DamageOp? && g <= b ==>
      !Hit(Stored(ops[..k], room, blkSize), blkSize, ops[k], g)
    ensures var e, f := Stored(ops, room, blkSize), Stored(ops[..n], room, blkSize);
      b < |e.names| && e.names[b] == f.names[b]
    decreases |ops|
  {
    hide Hit;
    assert ops[..|ops|] == ops;
    if n < |ops| {
      var before := ops[..|ops| - 1];
      assert before[..n] == ops[..n];
      forall k, g: nat | n <= k < |before| && before[k].DamageOp? && g <= b
        ensures !Hit(Stored(before[..k], room, blkSize), blkSize, before[k], g)
      {
        assert before[..k] == ops[..k] && before[k] == ops[k];
      }
      StoredStays(before, room, blkSize, n, b);
    }
  }

  /**
   Damage at address x to the checksum of a block, to its version or name, or to its data: the name is
   missing then, and so are those of the blocks behind it.
   */
  lemma {:induction false} DamageLoses(ops: seq<Op>, room: nat, blkSize: nat, op: Op, g: nat, x: nat)
    requires var e := Stored(ops, room, blkSize); g < |e.names| && e.names[g] in e.configs
    requires op.DamageOp? && ((x == op.at && op.first != 0) || (x == op.at + 1 && op.second != 0))
    requires var e, a := Stored(ops, room, blkSize), 1 + g * blkSize;
      var end := a + NV_DATA + |DataOf(e.names[g], e.configs[e.names[g]])|;
      x == a || x == a + 1 || a + NV_VER <= x < end
    ensures var e, f := Stored(ops, room, blkSize), Stored(ops + [op], room, blkSize);
      forall k :: g <= k < |e.names| ==> e.names[k] !in f.configs
  {
    hide FirstHit;
    var e := Stored(ops, room, blkSize);
    StoredNames(ops, room, blkSize);
    assert (ops + [op])[..|ops|] == ops;
    assert Covers(e, blkSize, g, x) && Hit(e, blkSize, op, g);
  }

  /** Damage elsewhere, be it to the memory of a block behind its data, does no harm. */
  lemma {:induction false} DamageHarmless(ops: seq<Op>, room: nat, blkSize: nat, op: Op)
    requires op.DamageOp?
    requires var e := Stored(ops, room, blkSize);
      forall g :: 0 <= g < |e.names| && e.names[g] in e.configs ==>
        Outside(op, Address(blkSize, g), NV_DATA + |DataOf(e.names[g], e.configs[e.names[g]])|)
    ensures Stored(ops + [op], room, blkSize) == Stored(ops, room, blkSize)
  {
    hide Outside;
    assert (ops + [op])[..|ops|] == ops;
    var e := Stored(ops, room, blkSize);
    forall g: nat | g < |e.names|
      ensures !Hit(e, blkSize, op, g)
    {
      if e.names[g] in e.configs {
        Missed(e, blkSize, op, g);
      }
    }
    NoHit(e, blkSize, op, 0);
  }

  /** Neither the checksum of the block at a changes nor the bytes from its version up to its end. */
  predicate Outside(op: Op, a: nat, end: nat)
    requires op.DamageOp?
  {
    && (op.first != 0 ==> !(a <= op.at <= a + 1 || a + NV_VER <= op.at < a + end))
    && (op.second != 0 ==> !(a <= op.at + 1 <= a + 1 || a + NV_VER <= op.at + 1 < a + end))
  }

  lemma {:induction false} Missed(e: Entries, blkSize: nat, op: Op, g: nat)
    requires op.DamageOp? && g < |e.names| && e.names[g] in e.configs
    requires Outside(op, Address(blkSize, g), NV_DATA + |DataOf(e.names[g], e.configs[e.names[g]])|)
    ensures !Hit(e, blkSize, op, g)
  {
  }

  lemma {:induction false} NoHit(e: Entries, blkSize: nat, op: Op, k: nat)
    requires op.DamageOp? && k <= |e.names| && forall g :: k <= g < |e.names| ==> !Hit(e, blkSize, op, g)
    ensures FirstHit(e, blkSize, op, k) == |e.names|
    decreases |e.names| - k
  {
    if k < |e.names| {
      NoHit(e, blkSize, op, k + 1);
    }
  }
}
