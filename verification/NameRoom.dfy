/** How much room the assembly of a name packet (common/name.c) needs, and what comes out with less. */
module NameRooms {
  import opened Wire
  import opened Names
  import opened NamePackets
  import opened NameAssembly

  /** The byte that follows the drive in the packet, and the first one of the name's source. */
  function First(n: Name): byte {
    if n.drivename.Some? && n.drivename.value != [] then n.drivename.value[0]
    else if n.name != [] then n.name[0] else 0
  }

  /** A drive byte that hits the name's first byte changes it. */
  predicate Marked(n: Name) {
    First(n) != n.drive && (n.drivename.Some? ==> n.drive != 0)
  }

  predicate AllMarked(ns: seq<Name>) {
    forall k :: 0 <= k < |ns| ==> Marked(ns[k])
  }

  lemma {:induction false} FirstEncoded(n: Name)
    requires n.drivename != Some([])
    ensures |EncodeName(n)| >= 2 && EncodeName(n)[1] == First(n)
  {
  }

  /** Nothing is written in front of the given position. */
  lemma {:induction false} DrivenameAbove(b: seq<byte>, p: nat, d: nat)
    requires p <= |b|
    ensures var r := PutDrivename(b, p, d);
      r.Assembled? ==> p <= r.end <= |b| && |r.bytes| == |b| && r.bytes[..p] == b[..p]
  {
    hide Put, Find;
  }

  lemma {:induction false} NameAbove(b: seq<byte>, p: nat, e: Entry)
    requires p <= |b|
    ensures var r := PutName(b, p, e);
      r.Assembled? ==> p < r.end <= |b| && |r.bytes| == |b| && r.bytes[..p] == b[..p]
  {
    hide Put;
  }

  lemma {:induction false} AssembleAbove(b: seq<byte>, p: nat, e: Entry)
    ensures var r := Assemble(b, p, e);
      r.Assembled? ==> p + 1 < r.end <= |b| && |r.bytes| == |b| && r.bytes[..p] == b[..p]
  {
    hide PutDrivename, PutName;
    if p < |b| {
      var c := b[p := e.drive];
      var r := PutDrive(b, p, e);
      if e.drivename.Some? {
        DrivenameAbove(c, p + 1, e.drivename.value);
      }
      assert c[..p] == b[..p];
      if r.Assembled? {
        assert r.bytes[..p] == r.bytes[..p + 1][..p] == c[..p + 1][..p];
        NameAbove(r.bytes, r.end, e);
        var s := PutName(r.bytes, r.end, e);
        assert s.Assembled? ==> s.bytes[..p] == s.bytes[..r.end][..p];
        assert r.bytes[..p] == r.bytes[..r.end][..p];
      }
    }
  }

  lemma {:induction false} AllAbove(b: seq<byte>, p: nat, es: seq<Entry>)
    requires p <= |b|
    ensures var r := AssembleAll(b, p, es);
      r.Assembled? ==> p <= r.end && |r.bytes| == |b| && r.bytes[..p] == b[..p]
    decreases |es|
  {
    hide Assemble;
    if es != [] {
      var r := Assemble(b, p, es[0]);
      AssembleAbove(b, p, es[0]);
      if r.Assembled? {
        AllAbove(r.bytes, r.end, es[1..]);
        var s := AssembleAll(r.bytes, r.end, es[1..]);
        assert s.Assembled? ==> s.bytes[..p] == s.bytes[..r.end][..p];
        assert r.bytes[..p] == r.bytes[..r.end][..p];
      }
    }
  }

  lemma {:induction false} AllSplit(b: seq<byte>, p: nat, es: seq<Entry>, k: nat)
    requires k <= |es|
    ensures AssembleAll(b, p, es) ==
            match AssembleAll(b, p, es[..k])
            case OutOfBuffer => OutOfBuffer
            case Assembled(c, q) => AssembleAll(c, q, es[k..])
    decreases k
  {
    hide Assemble;
    if k == 0 {
      assert es[0..] == es;
    } else {
      var r := Assemble(b, p, es[0]);
      assert es[..k][0] == es[0] && es[..k][1..] == es[1..][..k - 1] && es[k..] == es[1..][k - 1..];
      if r.Assembled? {
        AllSplit(r.bytes, r.end, es[1..], k - 1);
      }
    }
  }

  lemma {:induction false} EncodeSplit(ns: seq<Name>, k: nat)
    requires k <= |ns|
    ensures EncodeNames(ns) == EncodeNames(ns[..k]) + EncodeNames(ns[k..])
    decreases |ns|
  {
    hide EncodeName;
    if k == |ns| {
      assert ns[..k] == ns && ns[k..] == [];
    } else {
      var m := |ns| - 1;
      EncodeSplit(ns[..m], k);
      assert ns[..m][..k] == ns[..k] && ns[..m][k..] == ns[k..][..m - k];
    }
  }

  /** Where the drive byte hits the first byte of the name, it is doubled. */
  lemma {:induction false} HitDoubled(b: seq<byte>, p: nat, e: Entry, n: Name)
    requires Holds(b, e, n) && e.name.Some? && p == Start(e) && n.drivename != Some([])
    requires n.drivename.Some? ==> n.drive != 0
    ensures var r := Assemble(b, p, e);
      r.Assembled? ==> p + 1 < |r.bytes| && r.bytes[p + 1] == n.drive
  {
    hide Put, Find;
    var r := Assemble(b, p, e);
    if r.Assembled? {
      var c := b[p := e.drive];
      var s := PutDrive(b, p, e);
      if e.drivename.Some? {
        var len := Find(c[p..], 0);
        assert c[p..][0] == e.drive;
        assert len > 0;
        var text := c[p..p + len] + [COLON];
        assert s.bytes[p + 1] == s.bytes[p + 1..p + 1 + |text|][0] == text[0] == e.drive;
        NameAbove(s.bytes, s.end, e);
        assert r.bytes[p + 1] == r.bytes[..s.end][p + 1];
      } else {
        var text := c[p..p + e.namelen + 1];
        assert r.bytes[p + 1] == r.bytes[p + 1..p + 1 + |text|][0] == text[0] == e.drive;
      }
    }
  }

  predicate DrivesNamed(ns: seq<Name>) {
    forall k :: 0 <= k < |ns| ==> ns[k].drivename != Some([])
  }

  /** Without enough room there is a first name that is hit, and what has been written then ends where it starts. */
  lemma {:induction false} FirstHit(base: nat, es: seq<Entry>, ns: seq<Name>, start: nat) returns (k: nat)
    requires Chain(es, ns, start) && DrivesNamed(ns) && base <= start && !Room(base, es, ns)
    ensures k < |es| && Room(base, es[..k], ns[..k]) && base + |EncodeNames(ns[..k])| == Start(es[k])
  {
    hide EncodeNames;
    NothingEncoded(ns);
    k := 0;
    while k < |es| && Clear(es[k], ns[k], base + |EncodeNames(ns[..k])|)
      invariant k <= |es| && (k < |es| ==> base + |EncodeNames(ns[..k])| <= Start(es[k]))
      invariant forall m :: 0 <= m < k ==> Clear(es[m], ns[m], base + |EncodeNames(ns[..m])|)
      decreases |es| - k
    {
      EncodeLast(ns, k);
      assert base + |EncodeNames(ns[..k + 1])| <= End(es[k], ns[k]);
      k := k + 1;
    }
    forall m | 0 <= m < k
      ensures Clear(es[..k][m], ns[..k][m], base + |EncodeNames(ns[..k][..m])|)
    {
      assert ns[..k][..m] == ns[..m];
    }
  }

  /**
   Where the packet so far ends at the start of name k, the name's drive byte stands in the packet twice, in
   place of the first byte of its source too.
   */
  lemma {:induction false} OneTooFew(
    a: seq<byte>, b: seq<byte>, base: nat, es: seq<Entry>, ns: seq<Name>, start: nat, k: nat)
    requires Chain(es, ns, start) && HoldAll(a, es, ns) && k < |es| && Marked(ns[k]) && ns[k].drivename != Some([])
    requires Room(base, es[..k], ns[..k]) && base + |EncodeNames(ns[..k])| == Start(es[k])
    requires |a| == |b| && base + |EncodeNames(ns)| <= |b| && b[base..] == a[base..]
    ensures var r, i := AssembleAll(b, base, es), |EncodeNames(ns[..k])| + 1;
      && i < |EncodeNames(ns)|
      && (r.Assembled? ==> |r.bytes| == |b| && r.bytes[base + i] == ns[k].drive != EncodeNames(ns)[i])
  {
    hide Put, EncodeNames, EncodeName, Assemble, AssembleAll, Holds, Room, First;
    var n, e, w := ns[k], es[k], base + |EncodeNames(ns[..k])|;
    EncodeSplit(ns, k);
    EncodeSplit(ns[k..], 1);
    assert ns[k..][..1] == [n] && ns[k..][1..] == ns[k + 1..];
    EncodeOnly(n);
    FirstEncoded(n);
    assert HoldAll(a, es[..k], ns[..k]);
    AllRight(a, b, base, es[..k], ns[..k]);
    var c := Put(b, base, EncodeNames(ns[..k]));
    PutApart(b, base, EncodeNames(ns[..k]), w, |b|);
    RestUnchanged(a, b, c, base, w);
    StartHolds(a, c, e, n, w);
    HitDoubled(c, w, e, n);
    AssembleAbove(c, w, e);
    AllSplit(b, base, es, k);
    var r := Assemble(c, w, e);
    assert [e] + es[k + 1..] == es[k..];
    AssembleStep(c, w, e, es[k + 1..]);
    if r.Assembled? {
      AllAbove(r.bytes, r.end, es[k + 1..]);
      var s := AssembleAll(r.bytes, r.end, es[k + 1..]);
      assert s.Assembled? ==> s.bytes[w + 1] == s.bytes[..r.end][w + 1] == r.bytes[..r.end][w + 1];
    }
  }

  lemma {:induction false} EncodeOnly(n: Name)
    ensures EncodeNames([n]) == EncodeName(n)
  {
    assert [n][..0] == [];
    assert EncodeNames([]) + EncodeName(n) == EncodeName(n);
  }

  lemma {:induction false} StartHolds(a: seq<byte>, b: seq<byte>, e: Entry, n: Name, p: nat)
    requires Holds(a, e, n) && Packed(e, n) && p == Start(e) && |a| == |b| && p <= |b| && b[p..] == a[p..]
    ensures Holds(b, e, n)
  {
    assert Within(e, n, p, |b|);
    assert b[p..|b|] == b[p..] && a[p..|b|] == a[p..];
    StillHolds(a, b, e, n, p, |b|);
  }

  /**
   Exactly: names one behind the other, whose drives differ from what they would hit, are assembled rightly
   if and only if each of them is clear of what is written before it has been read.
   */
  lemma {:induction false} RoomExact(a: seq<byte>, b: seq<byte>, base: nat, es: seq<Entry>, ns: seq<Name>, start: nat)
    requires Chain(es, ns, start) && HoldAll(a, es, ns) && AllMarked(ns) && DrivesNamed(ns) && base <= start
    requires |a| == |b| && base + |EncodeNames(ns)| <= |b| && b[base..] == a[base..]
    ensures AssembleAll(b, base, es) == Assembled(Put(b, base, EncodeNames(ns)), base + |EncodeNames(ns)|)
            <==> Room(base, es, ns)
  {
    hide Put, EncodeNames, Assemble, AssembleAll, Holds, Room, Marked, Chain;
    if Room(base, es, ns) {
      AllRight(a, b, base, es, ns);
    } else {
      var k := FirstHit(base, es, ns, start);
      OneTooFew(a, b, base, es, ns, start, k);
      var i, c := |EncodeNames(ns[..k])| + 1, Put(b, base, EncodeNames(ns));
      assert c[base + i] == c[base..base + |EncodeNames(ns)|][i] == EncodeNames(ns)[i];
    }
  }

  /** The same behind a header. */
  lemma {:induction false} HeaderExact(b: seq<byte>, header: seq<byte>, es: seq<Entry>, ns: seq<Name>, start: nat)
    requires Chain(es, ns, start) && HoldAll(b, es, ns) && AllMarked(ns) && DrivesNamed(ns) && |header| <= start
    requires |header + EncodeNames(ns)| <= |b|
    ensures var packet := header + EncodeNames(ns);
      AssembleAll(Put(b, 0, header), |header|, es) == Assembled(Put(b, 0, packet), |packet|)
      <==> Room(|header|, es, ns)
  {
    hide Put, EncodeNames, AssembleAll, Holds, Room, AllMarked, DrivesNamed, Chain;
    var c := Put(b, 0, header);
    PutApart(b, 0, header, |header|, |b|);
    assert c[|header|..] == c[|header|..|b|] == b[|header|..|b|] == b[|header|..];
    RoomExact(b, c, |header|, es, ns, start);
    PutPut(b, 0, header, EncodeNames(ns));
  }

  // ---------------------------------------------------------------------------------------
  // One name without drive name, wherever it lies

  lemma {:induction false} PutInjective(b: seq<byte>, p: nat, s: seq<byte>, t: seq<byte>)
    requires p + |s| <= |b| && |s| == |t|
    ensures Put(b, p, s) == Put(b, p, t) <==> s == t
  {
    assert s == Put(b, p, s)[p..p + |s|] && t == Put(b, p, t)[p..p + |t|];
  }

  /**
   A name at i, behind a header at the start of the buffer: the packet is right if and only if the header and
   the drive byte do not hit the name, or leave each byte they hit as it is.
   */
  lemma {:induction false} OneNameExact(b: seq<byte>, header: seq<byte>, e: Entry, n: Name, i: nat)
    requires Holds(b, e, n) && e.drivename.None? && e.name == Some(i) && |header| + |EncodeName(n)| <= |b|
    ensures var h := |header|;
      Assemble(Put(b, 0, header), h, e) == Assembled(Put(b, 0, header + EncodeName(n)), h + |EncodeName(n)|)
      <==> forall x :: i <= x <= i + |n.name| && x <= h ==> (header + [e.drive])[x] == b[x]
  {
    hide Put, Assemble, EncodeName, Holds;
    var h, s, top := |header|, n.name + [0], header + [e.drive];
    NameSource(b, e, n, i);
    OneNameIs(b, header, e, i, |s|);
    assert top + s == header + ([e.drive] + s);
    CopiedRight(b, top, s, i);
    CopiedExact(b, top, s, i);
  }

  lemma {:induction false} CopiedRight(b: seq<byte>, top: seq<byte>, s: seq<byte>, i: nat)
    requires |top| + |s| <= |b| && i + |s| <= |b|
    ensures var c := Put(b, 0, top);
      Put(c, |top|, c[i..i + |s|]) == Put(b, 0, top + s) <==> c[i..i + |s|] == s
  {
    hide Put;
    var c := Put(b, 0, top);
    PutPut(b, 0, top, s);
    PutInjective(c, |top|, c[i..i + |s|], s);
  }

  lemma {:induction false} NameSource(b: seq<byte>, e: Entry, n: Name, i: nat)
    requires Holds(b, e, n) && e.drivename.None? && e.name == Some(i)
    ensures EncodeName(n) == [e.drive] + (n.name + [0]) && e.namelen == |n.name|
    ensures i + |n.name| < |b| && b[i..i + |n.name + [0]|] == n.name + [0]
  {
    assert Prefix(n) == [e.drive];
  }

  lemma {:induction false} OneNameIs(b: seq<byte>, header: seq<byte>, e: Entry, i: nat, len: nat)
    requires e.drivename.None? && e.name == Some(i) && e.namelen + 1 == len
    requires |header| + 1 + len <= |b| && i + len <= |b|
    ensures var c := Put(b, 0, header + [e.drive]);
      Assemble(Put(b, 0, header), |header|, e) == Assembled(Put(c, |header| + 1, c[i..i + len]), |header| + 1 + len)
  {
    hide Put;
    PutPut(b, 0, header, [e.drive]);
    PutByte(Put(b, 0, header), |header|, e.drive);
  }

  lemma {:induction false} PutChar(b: seq<byte>, s: seq<byte>, x: nat)
    requires |s| <= |b| && x < |b|
    ensures Put(b, 0, s)[x] == if x < |s| then s[x] else b[x]
  {
  }

  lemma {:induction false} CopiedExact(b: seq<byte>, top: seq<byte>, s: seq<byte>, i: nat)
    requires |top| <= |b| && i + |s| <= |b| && b[i..i + |s|] == s
    ensures Put(b, 0, top)[i..i + |s|] == s <==> forall x :: i <= x < i + |s| && x < |top| ==> top[x] == b[x]
  {
    hide Put;
    var c := Put(b, 0, top);
    forall x | 0 <= x < |b|
      ensures c[x] == if x < |top| then top[x] else b[x]
    {
      PutChar(b, top, x);
    }
    if forall x :: i <= x < i + |s| && x < |top| ==> top[x] == b[x] {
      assert c[i..i + |s|] == b[i..i + |s|];
    } else {
      var x :| i <= x < i + |s| && x < |top| && top[x] != b[x];
      assert c[i..i + |s|][x - i] == c[x] != b[x] == b[i..i + |s|][x - i];
    }
  }

  /**
   A plain file name of an open, without drive and options: two free bytes in front of it are enough, one
   only if the name begins with 255, the number of the unused drive, and none never.
   */
  lemma {:induction false} PlainNameExact(b: seq<byte>, name: seq<byte>, diff: nat)
    requires CString(b, diff, name) && name != [] && |name| + 3 <= |b|
    ensures var n, e := Name(NAMEINFO_UNUSED_DRIVE, None, name), Entry(NAMEINFO_UNUSED_DRIVE, None, Some(diff), |name|);
      Assemble(Put(b, 0, [0]), 1, e) == Assembled(Put(b, 0, [0] + EncodeName(n)), 1 + |EncodeName(n)|)
      <==> diff >= 2 || (diff == 1 && name[0] == NAMEINFO_UNUSED_DRIVE)
  {
    hide Put, Assemble;
    var n, e := Name(NAMEINFO_UNUSED_DRIVE, None, name), Entry(NAMEINFO_UNUSED_DRIVE, None, Some(diff), |name|);
    assert Prefix(n) == [NAMEINFO_UNUSED_DRIVE];
    OneNameExact(b, [0], e, n, diff);
    assert b[diff] == b[diff..diff + |name|][0] == name[0] && name[0] in name;
    assert [0] + [e.drive] == [0, e.drive];
    if diff == 0 {
      assert [0, e.drive][0] != b[0];
    } else if diff == 1 {
      assert [0, e.drive][1] == e.drive;
    }
  }

  // ---------------------------------------------------------------------------------------
  // Any list of names without drive names, wherever they lie

  /** Each byte of a name's source up to p, where its drive is written, is the one that the packet has there. */
  predicate Spared(b: seq<byte>, packet: seq<byte>, e: Entry, n: Name, p: nat)
    requires |packet| <= |b|
  {
    e.name.Some? ==> forall x: nat ::
      e.name.value <= x <= e.name.value + |n.name| && x <= p && x < |packet| ==> packet[x] == b[x]
  }

  predicate Kept(b: seq<byte>, header: seq<byte>, es: seq<Entry>, ns: seq<Name>)
    requires |es| == |ns| && |header + EncodeNames(ns)| <= |b|
  {
    forall k :: 0 <= k < |es| ==> Spared(b, header + EncodeNames(ns), es[k], ns[k], |header + EncodeNames(ns[..k])|)
  }

  predicate Unnamed(es: seq<Entry>) {
    forall k :: 0 <= k < |es| ==> es[k].drivename.None?
  }

  /** The packet up to name k begins the whole packet. */
  lemma {:induction false} PacketPart(header: seq<byte>, ns: seq<Name>, k: nat)
    requires k < |ns|
    ensures header + EncodeNames(ns[..k + 1]) == (header + EncodeNames(ns[..k])) + EncodeName(ns[k])
    ensures header + EncodeNames(ns[..k]) + [ns[k].drive] <= header + EncodeNames(ns)
    ensures header + EncodeNames(ns[..k + 1]) <= header + EncodeNames(ns)
  {
    EncodeSplit(ns, k + 1);
    assert ns[..k + 1][..k] == ns[..k];
    hide EncodeNames;
    assert EncodeName(ns[k])[0] == ns[k].drive;
  }

  /** One name: it is assembled rightly iff it is spared, and its place in the packet is the same anyway. */
  lemma {:induction false} OneStep(b: seq<byte>, header: seq<byte>, e: Entry, n: Name)
    requires Holds(b, e, n) && e.drivename.None? && |header| + |EncodeName(n)| <= |b|
    ensures var r, packet := Assemble(Put(b, 0, header), |header|, e), header + EncodeName(n);
      && (Spared(b, packet, e, n, |header|) ==> r == Assembled(Put(b, 0, packet), |packet|))
      && (!Spared(b, packet, e, n, |header|) ==>
            r.Assembled? && |r.bytes| == |b| && r.end == |packet| && r.bytes[..r.end] != packet)
  {
    hide Put, Assemble;
    var r, packet := Assemble(Put(b, 0, header), |header|, e), header + EncodeName(n);
    if e.name.None? {
      AssembleRight(Put(b, 0, header), |header|, e, n);
      PutPut(b, 0, header, EncodeName(n));
    } else {
      var i := e.name.value;
      NameSource(b, e, n, i);
      OneNameExact(b, header, e, n, i);
      OneNameIs(b, header, e, i, |n.name| + 1);
      assert packet[..|header| + 1] == header + [e.drive];
      assert forall x :: 0 <= x <= |header| ==> packet[x] == (header + [e.drive])[x];
      StepAbove(b, header + [e.drive], |n.name| + 1, i);
      if r.bytes[..r.end] == packet {
        PutWhole(b, r.bytes, packet);
      }
    }
  }

  lemma {:induction false} PutWhole(b: seq<byte>, c: seq<byte>, s: seq<byte>)
    requires |c| == |b| && |s| <= |b| && c[..|s|] == s && c[|s|..] == b[|s|..]
    ensures c == Put(b, 0, s)
  {
    assert c == c[..|s|] + c[|s|..];
  }

  lemma {:induction false} StepAbove(b: seq<byte>, top: seq<byte>, len: nat, i: nat)
    requires |top| + len <= |b| && i + len <= |b|
    ensures var c := Put(b, 0, top); Put(c, |top|, c[i..i + len])[|top| + len..] == b[|top| + len..]
  {
    var c := Put(b, 0, top);
    assert c[|top| + len..] == c[|top|..][len..] && b[|top| + len..] == b[|top|..][len..];
  }

  /** The first names, as long as they are spared. */
  lemma {:induction false} SparedRight(b: seq<byte>, header: seq<byte>, es: seq<Entry>, ns: seq<Name>, m: nat)
    requires HoldAll(b, es, ns) && Unnamed(es) && |header + EncodeNames(ns)| <= |b| && m <= |es|
    requires forall k :: 0 <= k < m ==>
      Spared(b, header + EncodeNames(ns), es[k], ns[k], |header + EncodeNames(ns[..k])|)
    ensures |header + EncodeNames(ns[..m])| <= |b|
    ensures var packet := header + EncodeNames(ns[..m]);
      AssembleAll(Put(b, 0, header), |header|, es[..m]) == Assembled(Put(b, 0, packet), |packet|)
    decreases m
  {
    hide Put, Assemble, AssembleAll, EncodeNames, EncodeName, Holds, Spared;
    if m == 0 {
      NothingEncoded(ns);
      assert header + EncodeNames(ns[..0]) == header && es[..0] == [];
      AssembleNone(Put(b, 0, header), |header|);
    } else {
      var k := m - 1;
      SparedRight(b, header, es, ns, k);
      PacketPart(header, ns, k);
      OneStep(b, header + EncodeNames(ns[..k]), es[k], ns[k]);
      SparedPart(b, header, es, ns, k);
      LastStep(Put(b, 0, header), |header|, es, k);
    }
  }

  /** Only the packet up to the drive matters. */
  lemma {:induction false} SparedPart(b: seq<byte>, header: seq<byte>, es: seq<Entry>, ns: seq<Name>, k: nat)
    requires HoldAll(b, es, ns) && k < |es| && |header + EncodeNames(ns)| <= |b|
    ensures var before := header + EncodeNames(ns[..k]);
      && |before + EncodeName(ns[k])| <= |b|
      && (Spared(b, header + EncodeNames(ns), es[k], ns[k], |before|)
          <==> Spared(b, before + EncodeName(ns[k]), es[k], ns[k], |before|))
  {
    hide EncodeNames, EncodeName, Holds;
    PacketPart(header, ns, k);
    EncodeSome(ns[k]);
    var before, all := header + EncodeNames(ns[..k]), header + EncodeNames(ns);
    assert before + EncodeName(ns[k]) <= all;
  }

  /** Assembling one name more. */
  lemma {:induction false} LastStep(b: seq<byte>, p: nat, es: seq<Entry>, k: nat)
    requires k < |es|
    ensures AssembleAll(b, p, es[..k + 1]) ==
            match AssembleAll(b, p, es[..k])
            case OutOfBuffer => OutOfBuffer
            case Assembled(c, q) => Assemble(c, q, es[k])
  {
    hide Assemble;
    var all := es[..k + 1];
    AllSplit(b, p, all, k);
    assert all[..k] == es[..k] && all[k..] == [es[k]] + [];
    var r := AssembleAll(b, p, es[..k]);
    if r.Assembled? {
      AssembleStep(r.bytes, r.end, es[k], []);
    }
  }

  /** The first name that is not spared comes out wrong, and stays so. */
  lemma {:induction false} HitWrong(b: seq<byte>, header: seq<byte>, es: seq<Entry>, ns: seq<Name>, k: nat)
    requires HoldAll(b, es, ns) && Unnamed(es) && |header + EncodeNames(ns)| <= |b| && k < |es|
    requires forall m :: 0 <= m < k ==>
      Spared(b, header + EncodeNames(ns), es[m], ns[m], |header + EncodeNames(ns[..m])|)
    requires !Spared(b, header + EncodeNames(ns), es[k], ns[k], |header + EncodeNames(ns[..k])|)
    ensures var packet := header + EncodeNames(ns);
      AssembleAll(Put(b, 0, header), |header|, es) != Assembled(Put(b, 0, packet), |packet|)
  {
    hide Put, Assemble, AssembleAll, EncodeNames, EncodeName, Holds, Spared;
    var before, packet := header + EncodeNames(ns[..k]), header + EncodeNames(ns);
    SparedRight(b, header, es, ns, k);
    SparedPart(b, header, es, ns, k);
    OneStep(b, before, es[k], ns[k]);
    LastStep(Put(b, 0, header), |header|, es, k);
    AllSplit(Put(b, 0, header), |header|, es, k + 1);
    PacketPart(header, ns, k);
    var part := before + EncodeName(ns[k]);
    var r := Assemble(Put(b, 0, before), |before|, es[k]);
    AllAbove(r.bytes, r.end, es[k + 1..]);
    var all := AssembleAll(r.bytes, r.end, es[k + 1..]);
    PutBegins(b, packet, part);
  }

  lemma {:induction false} PutBegins(b: seq<byte>, packet: seq<byte>, part: seq<byte>)
    requires part <= packet && |packet| <= |b|
    ensures Put(b, 0, packet)[..|part|] == part
  {
  }

  /**
   Exactly, for any list of names without drive names, wherever they lie and wherever the header ends: the
   packet comes out right if and only if each byte of a name that is written over before the name has been
   copied is written over by itself.
   */
  lemma {:induction false} ListExact(b: seq<byte>, header: seq<byte>, es: seq<Entry>, ns: seq<Name>)
    requires HoldAll(b, es, ns) && Unnamed(es) && |header + EncodeNames(ns)| <= |b|
    ensures var packet := header + EncodeNames(ns);
      AssembleAll(Put(b, 0, header), |header|, es) == Assembled(Put(b, 0, packet), |packet|)
      <==> Kept(b, header, es, ns)
  {
    hide Put, AssembleAll, EncodeNames, Holds, Spared;
    var packet := header + EncodeNames(ns);
    assert es[..|es|] == es && ns[..|es|] == ns;
    if Kept(b, header, es, ns) {
      SparedRight(b, header, es, ns, |es|);
    } else {
      var k := 0;
      while k < |es| && Spared(b, packet, es[k], ns[k], |header + EncodeNames(ns[..k])|)
        invariant k <= |es|
        invariant forall m :: 0 <= m < k ==> Spared(b, packet, es[m], ns[m], |header + EncodeNames(ns[..m])|)
        decreases |es| - k
      {
        k := k + 1;
      }
      HitWrong(b, header, es, ns, k);
    }
  }
}
