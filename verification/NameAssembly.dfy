/**
 Assembling a name packet (common/name.c) in the buffer that holds the names it is made of. The names
 are copied one after the other to the start of the buffer; the question is how far away they must be.
 */
module NameAssembly {
  import opened Wire
  import opened Names
  import opened NamePackets

  const CMD_NONE: byte := 0
  const CMD_SYNTAX: byte := 1
  const CMD_OVERWRITE: byte := 4
  const CMD_DIR: byte := 6
  const CMD_RENAME: byte := 15
  const CMD_ASSIGN: byte := 22
  const CMD_TIME: byte := 26
  const CMD_POSITION: byte := 27
  const CMD_COPY: byte := 30
  const CMD_DUPLICATE: byte := 31

  const STAR: byte := 42

  /** nameinfo_t */
  datatype NameInfo = NameInfo(
    cmd: byte, access: byte, nonblocking: bool, filetype: byte, recordlen: word, trg: Entry, files: seq<Entry>)

  /** The names of a packet, in the order of assembly. */
  function Entries(info: NameInfo): seq<Entry> {
    (if info.trg.name.Some? then [info.trg] else []) + info.files
  }

  predicate DiskCopy(info: NameInfo) {
    (info.cmd == CMD_DUPLICATE || info.cmd == CMD_COPY) && info.trg.name == None
  }

  predicate HoldAll(b: seq<byte>, es: seq<Entry>, ns: seq<Name>) {
    |es| == |ns| && forall k :: 0 <= k < |es| ==> Holds(b, es[k], ns[k])
  }

  // ---------------------------------------------------------------------------------------
  // Room

  /** Writing a name at `p` reaches its source only after it was read. */
  predicate Clear(e: Entry, n: Name, p: nat) {
    && (e.drivename.Some? ==> p < e.drivename.value)
    && (e.name.Some? ==> p + |Prefix(n)| <= e.name.value)
  }

  /** The same for a list of names that is written from `base` on. */
  predicate Room(base: nat, es: seq<Entry>, ns: seq<Name>) {
    |es| == |ns| && forall k :: 0 <= k < |es| ==> Clear(es[k], ns[k], base + |EncodeNames(ns[..k])|)
  }

  function Start(e: Entry): nat
    requires e.name.Some?
  {
    if e.drivename.Some? then e.drivename.value else e.name.value
  }

  function End(e: Entry, n: Name): nat
    requires e.name.Some?
  {
    e.name.value + |n.name| + 1
  }

  /** A name right behind its drive name, as it stands in a command line. */
  predicate Packed(e: Entry, n: Name) {
    && e.name.Some?
    && (if e.drivename.Some?
        then n.drivename.Some? && e.name.value == e.drivename.value + |n.drivename.value| + 1
        else n.drivename == None)
  }

  /** Names one after the other, the first of them at `start` or later. */
  predicate Chain(es: seq<Entry>, ns: seq<Name>, start: nat) {
    && |es| == |ns|
    && (forall k :: 0 <= k < |es| ==> Packed(es[k], ns[k]) && start <= Start(es[k]))
    && (forall k :: 0 < k < |es| ==> End(es[k - 1], ns[k - 1]) <= Start(es[k]))
  }

  /** Names without gaps and without numeric drives: nothing can be gained from the text between them. */
  predicate Tight(es: seq<Entry>, ns: seq<Name>, start: nat) {
    && Chain(es, ns, start) && es != [] && Start(es[0]) == start
    && (forall k :: 0 <= k < |ns| ==> ns[k].drivename != Some([]))
    && (forall k :: 0 < k < |es| ==> End(es[k - 1], ns[k - 1]) == Start(es[k]))
  }

  lemma {:induction false} EncodeLast(ns: seq<Name>, k: nat)
    requires k < |ns|
    ensures |EncodeNames(ns[..k + 1])| == |EncodeNames(ns[..k])| + |EncodeName(ns[k])|
    ensures |EncodeName(ns[k])| > 0
  {
    assert ns[..k + 1][..k] == ns[..k];
  }

  /** The copy gains at most one byte a name on the originals. */
  lemma {:induction false} ChainProgress(base: nat, es: seq<Entry>, ns: seq<Name>, start: nat, k: nat)
    requires Chain(es, ns, start) && k < |es|
    requires base + |es| <= start
    ensures base + |EncodeNames(ns[..k])| + |es| - k <= Start(es[k])
    ensures base + |EncodeNames(ns[..k + 1])| + |es| - k - 1 <= End(es[k], ns[k])
  {
    hide EncodeNames;
    if k == 0 {
      NothingEncoded(ns);
    } else {
      ChainProgress(base, es, ns, start, k - 1);
    }
    EncodeLast(ns, k);
  }

  lemma {:induction false} NothingEncoded(ns: seq<Name>)
    ensures EncodeNames(ns[..0]) == []
  {
  }

  /** One free byte for each name, besides the header, is enough. */
  lemma {:induction false} RoomEnough(base: nat, es: seq<Entry>, ns: seq<Name>, start: nat)
    requires Chain(es, ns, start) && base + |es| <= start
    ensures Room(base, es, ns)
    ensures es != [] ==> base + |EncodeNames(ns)| <= End(es[|es| - 1], ns[|es| - 1])
  {
    hide EncodeNames;
    forall k | 0 <= k < |es|
      ensures Clear(es[k], ns[k], base + |EncodeNames(ns[..k])|)
    {
      ChainProgress(base, es, ns, start, k);
    }
    if es != [] {
      ChainProgress(base, es, ns, start, |es| - 1);
      assert ns[..|es|] == ns;
    }
  }

  lemma {:induction false} TightProgress(base: nat, es: seq<Entry>, ns: seq<Name>, start: nat, k: nat)
    requires Tight(es, ns, start) && k < |es|
    ensures |EncodeNames(ns[..k])| == Start(es[k]) - start + k
  {
    hide EncodeNames;
    if k == 0 {
      NothingEncoded(ns);
    } else {
      TightProgress(base, es, ns, start, k - 1);
      EncodeLast(ns, k - 1);
    }
  }

  /** In a text without slack no name is clear of the packet with less. */
  lemma {:induction false} RoomTight(base: nat, es: seq<Entry>, ns: seq<Name>, start: nat)
    requires Tight(es, ns, start)
    ensures Room(base, es, ns) <==> base + |es| <= start
  {
    hide EncodeNames;
    if base + |es| <= start {
      RoomEnough(base, es, ns, start);
    } else {
      var k := |es| - 1;
      TightProgress(base, es, ns, start, k);
      assert !Clear(es[k], ns[k], base + |EncodeNames(ns[..k])|);
    }
  }

  // ---------------------------------------------------------------------------------------
  // What the assembly makes of a buffer, whatever it holds and however little room there is

  /** The buffer with `s` written at `p`. */
  function Put(b: seq<byte>, p: nat, s: seq<byte>): (r: seq<byte>)
    requires p + |s| <= |b|
    ensures |r| == |b| && r[..p] == b[..p] && r[p..p + |s|] == s && r[p + |s|..] == b[p + |s|..]
  {
    b[..p] + s + b[p + |s|..]
  }

  /** The buffer and the position behind what was written, unless the end of the buffer is passed. */
  datatype Assembly = OutOfBuffer | Assembled(bytes: seq<byte>, end: nat)

  /** The drive name at `d` with a colon, unless it is empty. */
  function PutDrivename(b: seq<byte>, p: nat, d: nat): Assembly {
    if d >= |b| then OutOfBuffer
    else if b[d] == 0 then Assembled(b, p)
    else
      var len := Find(b[d..], 0);
      if d + len == |b| || p + len >= |b| then OutOfBuffer
      else Assembled(Put(b, p, b[d..d + len] + [COLON]), p + len + 1)
  }

  /** The drive byte, and then the drive name. */
  function PutDrive(b: seq<byte>, p: nat, e: Entry): Assembly {
    if p >= |b| then OutOfBuffer
    else
      match e.drivename
      case None => Assembled(b[p := e.drive], p + 1)
      case Some(d) => PutDrivename(b[p := e.drive], p + 1, d)
  }

  /** The name with its NUL, or only a NUL. */
  function PutName(b: seq<byte>, p: nat, e: Entry): Assembly {
    match e.name
    case None => if p >= |b| then OutOfBuffer else Assembled(Put(b, p, [0]), p + 1)
    case Some(i) =>
      var len := e.namelen + 1;
      if i + len > |b| || p + len > |b| then OutOfBuffer else Assembled(Put(b, p, b[i..i + len]), p + len)
  }

  function Assemble(b: seq<byte>, p: nat, e: Entry): Assembly {
    match PutDrive(b, p, e)
    case OutOfBuffer => OutOfBuffer
    case Assembled(c, q) => PutName(c, q, e)
  }

  function AssembleAll(b: seq<byte>, p: nat, es: seq<Entry>): Assembly
    decreases |es|
  {
    if es == [] then Assembled(b, p)
    else
      match Assemble(b, p, es[0])
      case OutOfBuffer => OutOfBuffer
      case Assembled(c, q) => AssembleAll(c, q, es[1..])
  }

  /** The six bytes of a disk copy. */
  function CopyPacket(info: NameInfo): seq<byte> {
    [info.trg.drive, STAR, 0, if info.files == [] then NAMEINFO_UNUSED_DRIVE else info.files[0].drive, STAR, 0]
  }

  function AssemblePacket(b: seq<byte>, trg: nat, info: NameInfo, wide: bool): Assembly {
    var header := if DiskCopy(info) then CopyPacket(info) else Header(info.filetype, info.recordlen, wide);
    if trg + |header| > |b| then OutOfBuffer
    else if DiskCopy(info) then Assembled(Put(b, trg, header), trg + |header|)
    else AssembleAll(Put(b, trg, header), trg + |header|, Entries(info))
  }

  lemma {:induction false} PutPut(b: seq<byte>, p: nat, s: seq<byte>, t: seq<byte>)
    requires p + |s| + |t| <= |b|
    ensures Put(Put(b, p, s), p + |s|, t) == Put(b, p, s + t)
  {
    var c := Put(b, p, s);
    assert c[..p + |s|] == b[..p] + s;
    assert c[p + |s| + |t|..] == b[p + |s| + |t|..];
  }

  lemma {:induction false} PutNothing(b: seq<byte>, p: nat)
    requires p <= |b|
    ensures Put(b, p, []) == b
  {
  }

  /** What is written elsewhere does not change this part. */
  lemma {:induction false} PutApart(b: seq<byte>, p: nat, s: seq<byte>, lo: nat, hi: nat)
    requires p + |s| <= |b| && lo <= hi <= |b| && (hi <= p || p + |s| <= lo)
    ensures Put(b, p, s)[lo..hi] == b[lo..hi]
  {
    var c, q := Put(b, p, s), p + |s|;
    if hi <= p {
      assert c[lo..hi] == c[..p][lo..hi] == b[..p][lo..hi];
    } else {
      assert c[lo..hi] == c[q..][lo - q..hi - q] == b[q..][lo - q..hi - q];
    }
  }

  // ---------------------------------------------------------------------------------------
  // The assembly

  method Store(buf: array<byte>, p: nat, s: seq<byte>)
    requires p + |s| <= buf.Length
    modifies buf
    ensures buf[..] == Put(old(buf[..]), p, s)
  {
    forall k | 0 <= k < |s| {
      buf[p + k] := s[k];
    }
  }

  /** memmove */
  method Move(buf: array<byte>, dst: nat, src: nat, len: nat)
    requires dst + len <= buf.Length && src + len <= buf.Length
    modifies buf
    ensures buf[..] == Put(old(buf[..]), dst, old(buf[src..src + len]))
  {
    forall k | 0 <= k < len {
      buf[dst + k] := buf[src + k];
    }
  }

  /** The drive name in assemble_filename. */
  method AssembleDrivename(buf: array<byte>, p: nat, d: nat) returns (ok: bool, q: nat)
    modifies buf
    ensures match PutDrivename(old(buf[..]), p, d)
            case OutOfBuffer => !ok
            case Assembled(c, r) => ok && buf[..] == c && q == r
  {
    hide Put, Find;
    ok, q := false, p;
    if d >= buf.Length {
      return;
    }
    if buf[d] != 0 {
      ghost var b := buf[..];
      assert buf[d..] == b[d..];
      var len := Find(buf[d..], 0);
      if d + len == buf.Length || q + len >= buf.Length {
        return;
      }
      assert buf[d..d + len] == b[d..d + len];
      Move(buf, q, d, len);
      PutPut(b, q, b[d..d + len], [COLON]);
      q := q + len;
      Store(buf, q, [COLON]);
      q := q + 1;
    }
    ok := true;
  }

  /** The first part of assemble_filename; `ok` is false when it leaves the buffer. */
  method AssembleDrive(buf: array<byte>, p: nat, e: Entry) returns (ok: bool, q: nat)
    modifies buf
    ensures match PutDrive(old(buf[..]), p, e)
            case OutOfBuffer => !ok
            case Assembled(c, r) => ok && buf[..] == c && q == r
  {
    hide PutDrivename;
    ok, q := false, p;
    if q >= buf.Length {
      return;
    }
    ghost var b := buf[..];
    buf[q] := e.drive;
    assert buf[..] == b[q := e.drive];
    q := q + 1;
    ok := true;
    if e.drivename.Some? {
      ok, q := AssembleDrivename(buf, q, e.drivename.value);
    }
  }

  /** The second part of assemble_filename. */
  method AssembleName(buf: array<byte>, p: nat, e: Entry) returns (ok: bool, q: nat)
    modifies buf
    ensures match PutName(old(buf[..]), p, e)
            case OutOfBuffer => !ok
            case Assembled(c, r) => ok && buf[..] == c && q == r
  {
    hide Put;
    ok, q := false, p;
    if e.name.Some? {
      var i, len := e.name.value, e.namelen + 1;
      if i + len > buf.Length || q + len > buf.Length {
        return;
      }
      assert buf[i..i + len] == buf[..][i..i + len];
      Move(buf, q, i, len);
      q := q + len;
    } else {
      if q >= buf.Length {
        return;
      }
      Store(buf, q, [0]);
      q := q + 1;
    }
    ok := true;
  }

  /** assemble_filename */
  method AssembleFilename(buf: array<byte>, p: nat, e: Entry) returns (ok: bool, q: nat)
    modifies buf
    ensures match Assemble(old(buf[..]), p, e)
            case OutOfBuffer => !ok
            case Assembled(c, r) => ok && buf[..] == c && q == r
  {
    hide PutDrive, PutName;
    ok, q := AssembleDrive(buf, p, e);
    if ok {
      ok, q := AssembleName(buf, q, e);
    }
  }

  /** The option string. */
  method AssembleHeader(buf: array<byte>, trg: nat, filetype: byte, recordlen: word, wide: bool) returns (p: nat)
    requires trg + |Header(filetype, recordlen, wide)| <= buf.Length
    modifies buf
    ensures p == trg + |Header(filetype, recordlen, wide)|
    ensures buf[..] == Put(old(buf[..]), trg, Header(filetype, recordlen, wide))
  {
    hide Put, Printed, Header;
    ghost var a := buf[..];
    ghost var done: seq<byte> := [];
    PutNothing(a, trg);
    HeaderParts(filetype, recordlen, wide);
    p := trg;
    if filetype != 0 {
      done := ['T' as byte, EQUALS, filetype];
      Store(buf, p, ['T' as byte, EQUALS, filetype]);
      p := p + 3;
      if recordlen > 0 {
        var digits := Printed(recordlen, wide);
        PutPut(a, trg, done, digits);
        Store(buf, p, digits);
        done := done + digits;
        p := p + |digits|;
      }
    }
    PutPut(a, trg, done, [0]);
    Store(buf, p, [0]);
    p := p + 1;
  }

  lemma {:induction false} HeaderParts(filetype: byte, recordlen: word, wide: bool)
    ensures Header(filetype, recordlen, wide) ==
            (if filetype == 0 then []
             else if recordlen == 0 then ['T' as byte, EQUALS, filetype]
             else ['T' as byte, EQUALS, filetype] + Printed(recordlen, wide)) + [0]
  {
    assert ['T' as byte, EQUALS, filetype] + [] == ['T' as byte, EQUALS, filetype];
  }

  lemma {:induction false} AssembleStep(b: seq<byte>, p: nat, e: Entry, rest: seq<Entry>)
    ensures AssembleAll(b, p, [e] + rest) ==
            match Assemble(b, p, e)
            case OutOfBuffer => OutOfBuffer
            case Assembled(c, q) => AssembleAll(c, q, rest)
  {
    assert ([e] + rest)[1..] == rest;
  }

  /** The target's name, if there is one, and the other names. */
  method AssembleNames(buf: array<byte>, start: nat, info: NameInfo) returns (ok: bool, p: nat)
    modifies buf
    ensures match AssembleAll(old(buf[..]), start, Entries(info))
            case OutOfBuffer => !ok
            case Assembled(c, q) => ok && buf[..] == c && p == q
  {
    hide Assemble, AssembleAll;
    ghost var a := buf[..];
    ok, p := true, start;
    assert info.trg.name.None? ==> Entries(info) == info.files;
    if info.trg.name.Some? {
      AssembleStep(a, p, info.trg, info.files);
      ok, p := AssembleFilename(buf, p, info.trg);
      if !ok {
        return;
      }
    }
    for i := 0 to |info.files|
      invariant ok && AssembleAll(buf[..], p, info.files[i..]) == AssembleAll(a, start, Entries(info))
    {
      assert info.files[i..] == [info.files[i]] + info.files[i + 1..];
      AssembleStep(buf[..], p, info.files[i], info.files[i + 1..]);
      ok, p := AssembleFilename(buf, p, info.files[i]);
      if !ok {
        return;
      }
    }
    AssembleNone(buf[..], p);
  }

  lemma {:induction false} AssembleNone(b: seq<byte>, p: nat)
    ensures AssembleAll(b, p, []) == Assembled(b, p)
  {
  }

  /** assemble_filename_packet: the packet for `info` at `trg`; `ok` is false when it leaves the buffer. */
  method AssembleFilenamePacket(buf: array<byte>, trg: nat, info: NameInfo, wide: bool) returns (ok: bool, len: nat)
    modifies buf
    ensures match AssemblePacket(old(buf[..]), trg, info, wide)
            case OutOfBuffer => !ok
            case Assembled(c, q) => ok && buf[..] == c && len == (q - trg) % 256
  {
    hide Put, Header, AssembleAll;
    ok, len := false, 0;
    var p: nat;
    if (info.cmd == CMD_DUPLICATE || info.cmd == CMD_COPY) && info.trg.name == None {
      var source := if info.files == [] then NAMEINFO_UNUSED_DRIVE else info.files[0].drive;
      if trg + 6 > buf.Length {
        return;
      }
      Store(buf, trg, [info.trg.drive, STAR, 0, source, STAR, 0]);
      p := trg + 6;
    } else {
      if trg + |Header(info.filetype, info.recordlen, wide)| > buf.Length {
        return;
      }
      p := AssembleHeader(buf, trg, info.filetype, info.recordlen, wide);
      ok, p := AssembleNames(buf, p, info);
      if !ok {
        return;
      }
    }
    return true, (p - trg) % 256;
  }

  // ---------------------------------------------------------------------------------------
  // With enough room

  lemma {:induction false} StillString(a: seq<byte>, b: seq<byte>, d: nat, text: seq<byte>)
    requires CString(a, d, text) && |a| == |b| && b[d..d + |text| + 1] == a[d..d + |text| + 1]
    ensures CString(b, d, text) && Find(b[d..], 0) == |text| && b[d..d + |text|] == text
    ensures b[d] != 0 <==> text != []
  {
    assert b[d..d + |text|] == b[d..d + |text| + 1][..|text|] == a[d..d + |text|];
    assert b[d + |text|] == b[d..d + |text| + 1][|text|] == a[d + |text|];
    StringLength(b, d, text);
    assert text != [] ==> b[d] == text[0];
  }

  lemma {:induction false} PutByte(b: seq<byte>, p: nat, x: byte)
    requires p < |b|
    ensures b[p := x] == Put(b, p, [x])
  {
  }

  lemma {:induction false} DrivenameRight(b: seq<byte>, p: nat, d: nat, text: seq<byte>)
    requires CString(b, d, text) && p + |Colonned(text)| <= |b|
    ensures PutDrivename(b, p, d) == Assembled(Put(b, p, Colonned(text)), p + |Colonned(text)|)
  {
    hide Put, Find;
    StillString(b, b, d, text);
    PutNothing(b, p);
  }

  /** The drive and its name are written as they are, if the drive byte is written in front of the drive name. */
  lemma {:induction false} DriveRight(b: seq<byte>, p: nat, e: Entry, n: Name)
    requires Holds(b, e, n) && p + |Prefix(n)| <= |b| && (e.drivename.Some? ==> p < e.drivename.value)
    ensures PutDrive(b, p, e) == Assembled(Put(b, p, Prefix(n)), p + |Prefix(n)|)
  {
    hide Put, Find, Colonned;
    var c := b[p := e.drive];
    PutByte(b, p, e.drive);
    if e.drivename.Some? {
      hide PutDrivename;
      var d, text := e.drivename.value, n.drivename.value;
      PutApart(b, p, [e.drive], d, d + |text| + 1);
      StillString(b, c, d, text);
      DrivenameRight(c, p + 1, d, text);
      PutPut(b, p, [e.drive], Colonned(text));
      assert [e.drive] + Colonned(text) == Prefix(n);
    } else {
      assert [e.drive] == Prefix(n);
    }
  }

  /** A name that is clear of the place it is written to is written as it is. */
  lemma {:induction false} AssembleRight(b: seq<byte>, p: nat, e: Entry, n: Name)
    requires Holds(b, e, n) && Clear(e, n, p) && p + |EncodeName(n)| <= |b|
    ensures Assemble(b, p, e) == Assembled(Put(b, p, EncodeName(n)), p + |EncodeName(n)|)
  {
    hide Put, PutDrive, Prefix, Find, CString;
    DriveRight(b, p, e, n);
    var q, text := p + |Prefix(n)|, n.name + [0];
    var c := Put(b, p, Prefix(n));
    if e.name.Some? {
      var i := e.name.value;
      PutApart(b, p, Prefix(n), i, i + |text|);
      assert b[i..i + |text|] == text;
    } else {
      assert [0] == text;
    }
    PutPut(b, p, Prefix(n), text);
    assert Prefix(n) + text == EncodeName(n);
  }

  lemma {:induction false} RoomRest(base: nat, es: seq<Entry>, ns: seq<Name>)
    requires es != [] && Room(base, es, ns)
    ensures Clear(es[0], ns[0], base)
    ensures Room(base + |EncodeName(ns[0])|, es[1..], ns[1..])
  {
    hide Clear, EncodeNames, EncodeName;
    NothingEncoded(ns);
    assert Clear(es[0], ns[0], base + |EncodeNames(ns[..0])|);
    var q := base + |EncodeName(ns[0])|;
    forall k | 0 <= k < |es| - 1
      ensures Clear(es[1..][k], ns[1..][k], q + |EncodeNames(ns[1..][..k])|)
    {
      EncodeFirst(ns[..k + 1]);
      assert ns[..k + 1][1..] == ns[1..][..k];
      assert Clear(es[k + 1], ns[k + 1], base + |EncodeNames(ns[..k + 1])|);
    }
  }

  /** All names, from a buffer `b` that is still the original one, `a`, from `p` on. */
  lemma {:induction false} AllRight(a: seq<byte>, b: seq<byte>, p: nat, es: seq<Entry>, ns: seq<Name>)
    requires HoldAll(a, es, ns) && Room(p, es, ns) && |a| == |b| && p + |EncodeNames(ns)| <= |b| && b[p..] == a[p..]
    ensures AssembleAll(b, p, es) == Assembled(Put(b, p, EncodeNames(ns)), p + |EncodeNames(ns)|)
    decreases |es|
  {
    hide Holds, Put, EncodeName, EncodeNames, Clear, Room, Assemble;
    if es == [] {
      NothingEncoded(ns);
      assert ns[..0] == ns;
      PutNothing(b, p);
    } else {
      var n := ns[0];
      EncodeFirst(ns);
      EncodeSome(n);
      RoomRest(p, es, ns);
      ClearHolds(a, b, es[0], n, p);
      AssembleRight(b, p, es[0], n);
      var c, q := Put(b, p, EncodeName(n)), p + |EncodeName(n)|;
      PutApart(b, p, EncodeName(n), q, |b|);
      RestUnchanged(a, b, c, p, q);
      AllRight(a, c, q, es[1..], ns[1..]);
      PutPut(b, p, EncodeName(n), EncodeNames(ns[1..]));
    }
  }

  lemma {:induction false} EncodeSome(n: Name)
    ensures |EncodeName(n)| > 0
  {
  }

  lemma {:induction false} RestUnchanged(a: seq<byte>, b: seq<byte>, c: seq<byte>, p: nat, q: nat)
    requires |a| == |b| == |c| && p <= q <= |b| && b[p..] == a[p..] && c[q..|b|] == b[q..|b|]
    ensures c[q..] == a[q..]
  {
    assert b[q..] == b[p..][q - p..];
    assert a[q..] == a[p..][q - p..];
  }

  /** A name that is clear of what was written so far is still there. */
  lemma {:induction false} ClearHolds(a: seq<byte>, b: seq<byte>, e: Entry, n: Name, p: nat)
    requires Holds(a, e, n) && |a| == |b| && p <= |b| && b[p..] == a[p..] && Clear(e, n, p)
    ensures Holds(b, e, n)
  {
    assert Within(e, n, p, |b|);
    assert b[p..|b|] == b[p..] && a[p..|b|] == a[p..];
    StillHolds(a, b, e, n, p, |b|);
  }

  /** What assemble_filename_packet should write. */
  function PacketFor(info: NameInfo, wide: bool, names: seq<Name>): seq<byte> {
    if DiskCopy(info) then CopyPacket(info) else EncodePacket(info.filetype, info.recordlen, wide, names)
  }

  /** With enough room the packet is the same as from a copy of the names elsewhere. */
  lemma {:induction false} PacketRight(b: seq<byte>, trg: nat, info: NameInfo, wide: bool, names: seq<Name>)
    requires trg + |PacketFor(info, wide, names)| <= |b|
    requires !DiskCopy(info) ==>
      && HoldAll(b, Entries(info), names)
      && Room(trg + |Header(info.filetype, info.recordlen, wide)|, Entries(info), names)
    ensures AssemblePacket(b, trg, info, wide) ==
            Assembled(Put(b, trg, PacketFor(info, wide, names)), trg + |PacketFor(info, wide, names)|)
  {
    hide Put, Header, EncodeNames, HoldAll, Room, AssembleAll, Entries;
    if !DiskCopy(info) {
      var header := Header(info.filetype, info.recordlen, wide);
      var p := trg + |header|;
      PutApart(b, trg, header, p, |b|);
      var c := Put(b, trg, header);
      assert c[p..] == c[p..|b|] == b[p..|b|] == b[p..];
      AllRight(b, c, p, Entries(info), names);
      PutPut(b, trg, header, EncodeNames(names));
    }
  }
}
