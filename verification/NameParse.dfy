/**
 Parsing file names and commands (common/name.c), in place: the command line is moved to the end of its
 buffer and its separators are overwritten with NULs.
 */
module NameParsing {
  import opened Wire
  import opened Names
  import opened NamePackets
  import opened NameAssembly

  const MAX_NAMEINFO_FILES := 4

  // ---------------------------------------------------------------------------------------
  // One name

  /** The low byte of a number that strtol returns; a long has 32 bits. */
  function LowByte(v: int): byte {
    (if v > 0x7fffffff then 0x7fffffff else if v < -0x80000000 then -0x80000000 else v) % 256
  }

  /** The drive for the text before a colon: a number up to 9, or a named drive. */
  function DriveNumber(prefix: seq<byte>): (d: byte)
    ensures d <= 9 || d == NAMEINFO_UNDEF_DRIVE
  {
    var (v, end) := ScanNumber(prefix);
    if end < |prefix| || LowByte(v) > 9 then NAMEINFO_UNDEF_DRIVE else LowByte(v)
  }

  function DropCr(s: seq<byte>): seq<byte> {
    if s != [] && s[|s| - 1] == CR then s[..|s| - 1] else s
  }

  /** A name with its drive, up to a comma. */
  function ParseSegment(text: seq<byte>): Name {
    var colon := Find(text, COLON);
    if colon == |text| then Name(NAMEINFO_UNUSED_DRIVE, None, DropCr(text))
    else if colon == 0 then Name(NAMEINFO_LAST_DRIVE, None, DropCr(text[1..]))
    else
      var drive := DriveNumber(text[..colon]);
      Name(drive, if drive == NAMEINFO_UNDEF_DRIVE then Some(text[..colon]) else None, DropCr(text[colon + 1..]))
  }

  function Segment(text: seq<byte>): seq<byte> {
    text[..Find(text, COMMA)]
  }

  /** What follows the first comma. */
  function AfterComma(text: seq<byte>): Option<seq<byte>> {
    var comma := Find(text, COMMA);
    if comma < |text| then Some(text[comma + 1..]) else None
  }

  /** Every name that is parsed survives the transport. */
  lemma {:induction false} SegmentClean(text: seq<byte>)
    requires NulFree(text)
    ensures Clean(ParseSegment(text))
  {
  }

  /**
   The byte in front of an empty name is taken for its last one. If it is a carriage return, it is dropped:
   the length, a byte, becomes 255, and a NUL is written as far behind the name.
   */
  predicate Readable(b: seq<byte>, start: nat, text: seq<byte>) {
    Segment(text) == [] ==> 0 < start <= |b| && b[start - 1] != CR
  }

  /** The colon that counts is the first one, unless a comma comes before it. */
  lemma {:induction false} ColonInSegment(text: seq<byte>)
    ensures var colon, comma := Find(text, COLON), Find(text, COMMA);
      Find(Segment(text), COLON) == if colon < comma then colon else comma
  {
    var colon, comma := Find(text, COLON), Find(text, COMMA);
    var k := if colon < comma then colon else comma;
    hide Find;
    assert text[..comma][..k] == text[..k];
    assert text[..k] <= text[..colon];
    assert COLON !in text[..k];
    FindAt(text[..comma], COLON, k);
  }

  lemma {:induction false} SegmentTail(text: seq<byte>, k: nat)
    requires k <= Find(text, COMMA)
    ensures Find(text[k..], COMMA) == Find(text, COMMA) - k
    ensures Segment(text[k..]) == Segment(text)[k..] && AfterComma(text[k..]) == AfterComma(text)
  {
    hide Find;
    var comma := Find(text, COMMA);
    assert text[k..][..comma - k] == text[..comma][k..];
    FindAt(text[k..], COMMA, comma - k);
    assert comma < |text| ==> text[k..][comma - k + 1..] == text[comma + 1..];
  }

  /** parse_drive, the part before the colon: ends the drive name and finds out the drive. */
  method CutDrive(buf: array<byte>, start: nat, colon: nat, ghost text: seq<byte>)
    returns (drive: byte, drivename: Option<nat>)
    requires CString(buf[..], start, text) && colon == Find(text, COLON) < |text|
    modifies buf
    ensures CString(buf[..], start, text[..colon]) && CString(buf[..], start + colon + 1, text[colon + 1..])
    ensures drive == if colon == 0 then NAMEINFO_LAST_DRIVE else DriveNumber(text[..colon])
    ensures drivename == if drive == NAMEINFO_UNDEF_DRIVE then Some(start) else None
    ensures buf[start + colon] == 0 && SameOutside(old(buf[..]), buf[..], start, start + colon + 1)
  {
    hide Find, DriveNumber;
    ghost var b := buf[..];
    buf[start + colon] := 0;
    SplitString(b, buf[..], start, text, colon);
    assert buf[start..start + colon] == text[..colon];
    drivename := None;
    if colon == 0 {
      drive := NAMEINFO_LAST_DRIVE;
    } else {
      drive := DriveNumber(buf[start..start + colon]);
      if drive == NAMEINFO_UNDEF_DRIVE {
        drivename := Some(start);
      }
    }
  }

  /** parse_drive, the comma: ends the name; `text` is the string at `name`. */
  method CutComma(buf: array<byte>, name: nat, comma: Option<nat>, ghost text: seq<byte>) returns (next: Option<nat>)
    requires CString(buf[..], name, text)
    requires var k := Find(text, COMMA); comma == if k < |text| then Some(name + k) else None
    modifies buf
    ensures CString(buf[..], name, Segment(text))
    ensures match AfterComma(text)
            case None => next == None
            case Some(rest) =>
              next == Some(name + Find(text, COMMA) + 1) && buf[next.value - 1] == 0 && CString(buf[..], next.value, rest)
    ensures var k := name + Find(text, COMMA);
      SameOutside(old(buf[..]), buf[..], k, if k < name + |text| then k + 1 else k)
  {
    hide Find;
    ghost var b := buf[..];
    next := None;
    if comma.Some? {
      buf[comma.value] := 0;
      SplitString(b, buf[..], name, text, Find(text, COMMA));
      next := Some(comma.value + 1);
    } else {
      assert Segment(text) == text;
    }
  }

  /** parse_drive, the end of the name: drops a carriage return; a fault if that is not part of the name. */
  method CutCr(buf: array<byte>, name: nat, ghost text: seq<byte>) returns (len: nat, fault: bool)
    requires CString(buf[..], name, text)
    modifies buf
    ensures fault <==> text == [] && (name == 0 || old(buf[name - 1]) == CR)
    ensures fault ==> buf[..] == old(buf[..])
    ensures !fault ==> len == |DropCr(text)| && CString(buf[..], name, DropCr(text))
    ensures SameOutside(old(buf[..]), buf[..], name, name + |text|)
  {
    hide Find;
    ghost var b := buf[..];
    StringLength(b, name, text);
    assert b[name..] == buf[name..];
    len, fault := Find(buf[name..], 0), false;
    if len == 0 && (name == 0 || buf[name - 1] == CR) {
      return len, true;
    }
    assert text != [] ==> buf[name + len - 1] == text[|text| - 1];
    if buf[name + len - 1] == CR {
      len := len - 1;
      buf[name + len] := 0;
      SplitString(b, buf[..], name, text, len);
    }
  }

  /** parse_drive, everything behind the colon; `text` is the string at `name`. */
  method FinishName(buf: array<byte>, name: nat, comma: Option<nat>, ghost text: seq<byte>)
    returns (len: nat, next: Option<nat>, fault: bool)
    requires CString(buf[..], name, text)
    requires var k := Find(text, COMMA); comma == if k < |text| then Some(name + k) else None
    modifies buf
    ensures fault <==> !Readable(old(buf[..]), name, text)
    ensures !fault ==> len == |DropCr(Segment(text))| && CString(buf[..], name, DropCr(Segment(text)))
    ensures !fault ==> NextAt(buf[..], next, name, text)
    ensures SameOutside(old(buf[..]), buf[..], name, name + |text|)
  {
    hide Find, CString, SameOutside, DropCr, Segment;
    ghost var a, k := buf[..], name + Find(text, COMMA);
    StringAt(a, name, text);
    next := CutComma(buf, name, comma, text);
    ghost var b, end := buf[..], if k < name + |text| then k + 1 else k;
    assert |Segment(text)| == k - name by { SegmentLength(text); }
    if name > 0 {
      ByteOutside(a, b, k, end, name - 1);
    }
    len, fault := CutCr(buf, name, Segment(text));
    if next.Some? && !fault {
      StringOutside(b, buf[..], name, k, next.value, AfterComma(text).value);
      ByteOutside(b, buf[..], name, k, k);
    }
    assert k <= name + |text| && end <= name + |text|;
    SameOutsideBoth(a, b, buf[..], k, end, name, k, name, name + |text|);
  }

  /** After a comma, `next` points to the rest of the text; a NUL is in front of it. */
  predicate NextAt(b: seq<byte>, next: Option<nat>, start: nat, text: seq<byte>) {
    match AfterComma(text)
    case None => next == None
    case Some(rest) =>
      && next == Some(start + |Segment(text)| + 1)
      && 0 < next.value <= |b| && b[next.value - 1] == 0 && CString(b, next.value, rest)
  }

  lemma {:induction false} SegmentLength(text: seq<byte>)
    ensures |Segment(text)| == Find(text, COMMA)
  {
  }

  /** parse_drive, the search for the separators. */
  method FindSeparators(buf: array<byte>, start: nat, ghost text: seq<byte>) returns (len: nat, colon: nat, comma: nat)
    requires CString(buf[..], start, text)
    ensures len == |text| && colon == Find(text, COLON) && comma == Find(text, COMMA) && start + len < buf.Length
  {
    hide Find, CString;
    StringAt(buf[..], start, text);
    assert buf[..][start..] == buf[start..];
    len := Find(buf[start..], 0);
    assert buf[start..start + len] == text;
    colon, comma := Find(buf[start..start + len], COLON), Find(buf[start..start + len], COMMA);
  }

  /** parse_drive: the name at `start`, and where the text goes on after a comma. */
  method ParseDrive(buf: array<byte>, start: nat, ghost text: seq<byte>)
    returns (e: Entry, next: Option<nat>, fault: bool)
    requires CString(buf[..], start, text)
    modifies buf
    ensures fault <==> !Readable(old(buf[..]), start, text)
    ensures !fault ==> DriveParsed(buf[..], e, next, start, text)
    ensures SameOutside(old(buf[..]), buf[..], start, start + |text|)
  {
    hide Find, DriveNumber, CString, Holds, SameOutside, ParseSegment, Packed, NextAt, DropCr, Segment, Start, End, Readable;
    ghost var a := buf[..];
    var len, colon, comma := FindSeparators(buf, start, text);
    var drive, drivename, name := NAMEINFO_UNUSED_DRIVE, None, start;
    if colon < len && colon < comma {
      drive, drivename := CutDrive(buf, start, colon, text);
      name := start + colon + 1;
      AfterNul(buf[..], name, text[colon + 1..]);
      ColonReadable(a, start, text);
    }
    ghost var b, tail := buf[..], text[name - start..];
    SegmentTail(text, name - start);
    assert text[0..] == text;
    len, next, fault := FinishName(buf, name, if comma < len then Some(start + comma) else None, tail);
    e := Entry(drive, drivename, Some(name), len);
    if colon < comma {
      NamedParsed(a, b, buf[..], e, next, start, text);
    } else if !fault {
      PlainParsed(buf[..], e, next, start, text);
    }
  }

  lemma {:induction false} ColonReadable(b: seq<byte>, start: nat, text: seq<byte>)
    requires Find(text, COLON) < Find(text, COMMA)
    ensures Readable(b, start, text)
  {
    SegmentLength(text);
  }

  lemma {:induction false} AfterNul(b: seq<byte>, name: nat, text: seq<byte>)
    requires 0 < name <= |b| && b[name - 1] == 0
    ensures Readable(b, name, text)
  {
  }

  /** The result of parse_drive. */
  predicate DriveParsed(b: seq<byte>, e: Entry, next: Option<nat>, start: nat, text: seq<byte>) {
    var n := ParseSegment(Segment(text));
    && Holds(b, e, n) && Packed(e, n) && start <= Start(e) && End(e, n) <= start + |Segment(text)| + 1
    && NextAt(b, next, start, text)
  }

  lemma {:induction false} PlainParsed(c: seq<byte>, e: Entry, next: Option<nat>, start: nat, text: seq<byte>)
    requires Find(text, COLON) >= Find(text, COMMA)
    requires e == Entry(NAMEINFO_UNUSED_DRIVE, None, Some(start), |DropCr(Segment(text[0..]))|)
    requires CString(c, start, DropCr(Segment(text[0..]))) && NextAt(c, next, start, text[0..])
    ensures DriveParsed(c, e, next, start, text)
  {
    hide Find, CString, Holds, ParseSegment, DropCr, NextAt;
    assert text[0..] == text;
    ColonInSegment(text);
    EntryHolds(c, e, start, Segment(text));
  }

  lemma {:induction false} NamedParsed(a: seq<byte>, b: seq<byte>, c: seq<byte>, e: Entry, next: Option<nat>, start: nat, text: seq<byte>)
    requires Find(text, COLON) < Find(text, COMMA) && start + |text| <= |a|
    requires var colon := Find(text, COLON);
      var name, tail := start + colon + 1, text[colon + 1..];
      var drive := if colon == 0 then NAMEINFO_LAST_DRIVE else DriveNumber(text[..colon]);
      && e == Entry(drive, if drive == NAMEINFO_UNDEF_DRIVE then Some(start) else None, Some(name), |DropCr(Segment(tail))|)
      && SameOutside(a, b, start, name) && SameOutside(b, c, name, name + |tail|)
      && CString(b, start, text[..colon]) && CString(c, name, DropCr(Segment(tail))) && NextAt(c, next, name, tail)
    ensures DriveParsed(c, e, next, start, text) && SameOutside(a, c, start, start + |text|)
  {
    hide Find, CString, Holds, DriveNumber, ParseSegment, DropCr, NextAt, SameOutside;
    var colon := Find(text, COLON);
    var name := start + colon + 1;
    ColonInSegment(text);
    SegmentTail(text, colon + 1);
    assert Segment(text)[..colon] == text[..colon];
    assert start + |text[..colon]| < name;
    StringOutside(b, c, name, start + |text|, start, text[..colon]);
    SameOutsideBoth(a, b, c, start, name, name, start + |text|, start, start + |text|);
    EntryHolds(c, e, start, Segment(text));
    NextMoved(c, next, start, text, colon + 1);
  }

  lemma {:induction false} NextMoved(b: seq<byte>, next: Option<nat>, start: nat, text: seq<byte>, k: nat)
    requires k <= Find(text, COMMA) && NextAt(b, next, start + k, text[k..])
    ensures NextAt(b, next, start, text)
  {
    SegmentTail(text, k);
    SegmentLength(text);
    SegmentLength(text[k..]);
  }

  /** The pointers that are left behind lead to the name. */
  lemma {:induction false} EntryHolds(b: seq<byte>, e: Entry, start: nat, seg: seq<byte>)
    requires var colon := Find(seg, COLON);
      if colon == |seg|
      then e == Entry(NAMEINFO_UNUSED_DRIVE, None, Some(start), |DropCr(seg)|) && CString(b, start, DropCr(seg))
      else
        var name := start + colon + 1;
        var drive := if colon == 0 then NAMEINFO_LAST_DRIVE else DriveNumber(seg[..colon]);
        && e == Entry(drive, if drive == NAMEINFO_UNDEF_DRIVE then Some(start) else None, Some(name), |DropCr(seg[colon + 1..])|)
        && CString(b, start, seg[..colon]) && CString(b, name, DropCr(seg[colon + 1..]))
    ensures var n := ParseSegment(seg);
      Holds(b, e, n) && Packed(e, n) && start <= Start(e) && End(e, n) <= start + |seg| + 1
  {
    hide Find, DriveNumber;
  }

  lemma {:induction false} StringAt(b: seq<byte>, start: nat, text: seq<byte>)
    requires CString(b, start, text)
    ensures start + |text| < |b| && Find(b[start..], 0) == |text| && b[start..start + |text|] == text
  {
    StringLength(b, start, text);
  }

  // ---------------------------------------------------------------------------------------
  // Commands

  /** The drive of the target also applies to files without one; for ASSIGN only after a single colon. */
  function WithDrive(cmd: byte, driveno: byte, n: Name): Name {
    if (cmd != CMD_ASSIGN && n.drive == NAMEINFO_UNUSED_DRIVE) || n.drive == NAMEINFO_LAST_DRIVE
    then n.(drive := driveno) else n
  }

  /** The comma separated names of a text; `None` when there are more than `room`. */
  function FileNames(cmd: byte, driveno: byte, text: Option<seq<byte>>, room: nat): Option<seq<Name>>
    decreases room
  {
    if text.None? then Some([])
    else if room == 0 then None
    else Join([WithDrive(cmd, driveno, ParseSegment(Segment(text.value)))],
              FileNames(cmd, driveno, AfterComma(text.value), room - 1))
  }

  lemma {:induction false} FileStep(cmd: byte, driveno: byte, ns: seq<Name>, text: seq<byte>, room: nat)
    requires room > 0
    ensures Join(ns, FileNames(cmd, driveno, Some(text), room)) ==
            Join(ns + [WithDrive(cmd, driveno, ParseSegment(Segment(text)))],
                 FileNames(cmd, driveno, AfterComma(text), room - 1))
  {
    hide WithDrive, ParseSegment, Segment, AfterComma;
    var n, more := WithDrive(cmd, driveno, ParseSegment(Segment(text))), FileNames(cmd, driveno, AfterComma(text), room - 1);
    assert more.Some? ==> ns + ([n] + more.value) == ns + [n] + more.value;
  }

  /** The names of a list, all of them before `pos`. */
  predicate Listed(b: seq<byte>, es: seq<Entry>, ns: seq<Name>, start: nat, pos: nat) {
    && HoldAll(b, es, ns) && Chain(es, ns, start)
    && forall k :: 0 <= k < |es| ==> Within(es[k], ns[k], 0, pos)
  }

  lemma {:induction false} ListedMore(
    a: seq<byte>, b: seq<byte>, es: seq<Entry>, ns: seq<Name>, e: Entry, n: Name, start: nat, pos: nat, hi: nat, pos': nat)
    requires Listed(a, es, ns, start, pos) && start <= pos
    requires SameOutside(a, b, pos, hi)
    requires Holds(b, e, n) && Packed(e, n) && pos <= Start(e) && End(e, n) <= pos' && pos <= pos'
    ensures Listed(b, es + [e], ns + [n], start, pos')
  {
    hide Holds;
    AllStillHold(a, b, es, ns, pos, pos');
    var fs, ms := es + [e], ns + [n];
    assert Within(e, n, 0, pos');
    forall k | 0 < k < |fs|
      ensures End(fs[k - 1], ms[k - 1]) <= Start(fs[k])
    {
      if k == |es| {
        assert Within(es[k - 1], ns[k - 1], 0, pos);
      }
    }
  }

  lemma {:induction false} NothingListed(b: seq<byte>, start: nat)
    requires start <= |b|
    ensures Listed(b, [], [], start, start) && forall hi: nat :: start <= hi <= |b| ==> SameOutside(b, b, start, hi)
  {
  }

  /** The loop of parse_cmd_pars: the file names of a command, from `start` on. */
  method ParseFiles(buf: array<byte>, start: nat, cmd: byte, driveno: byte, ghost text: seq<byte>)
    returns (ok: bool, files: seq<Entry>, fault: bool)
    requires CString(buf[..], start, text)
    modifies buf
    ensures fault <==> !Readable(old(buf[..]), start, text)
    ensures !fault ==>
      match FileNames(cmd, driveno, Some(text), MAX_NAMEINFO_FILES)
      case None => !ok
      case Some(ns) => ok && Listed(buf[..], files, ns, start, start + |text| + 1)
    ensures SameOutside(old(buf[..]), buf[..], start, start + |text|)
  {
    hide Holds, CString, Listed, Packed, FileNames, Segment, AfterComma, ParseSegment, Join, SameOutside, Readable;
    ok, files, fault := false, [], false;
    var sep := Some(start);
    ghost var a, rest, pos, ns: seq<Name> := buf[..], Some(text), start, [];
    JoinNone(FileNames(cmd, driveno, Some(text), MAX_NAMEINFO_FILES));
    StringAt(a, start, text);
    NothingListed(a, start);
    while sep.Some? && |files| < MAX_NAMEINFO_FILES
      invariant sep.Some? == rest.Some? && |files| == |ns| <= MAX_NAMEINFO_FILES
      invariant sep.Some? ==> sep.value == pos && pos + |rest.value| == start + |text|
      invariant sep.Some? ==> CString(buf[..], pos, rest.value)
      invariant !fault && (sep.Some? && files != [] ==> Readable(buf[..], pos, rest.value))
      invariant if files == [] then buf[..] == a && pos == start && rest == Some(text) else Readable(a, start, text)
      invariant start <= pos && (sep.None? ==> pos == start + |text| + 1)
      invariant Listed(buf[..], files, ns, start, pos)
      invariant FileNames(cmd, driveno, Some(text), MAX_NAMEINFO_FILES) ==
                Join(ns, FileNames(cmd, driveno, rest, MAX_NAMEINFO_FILES - |ns|))
      invariant SameOutside(a, buf[..], start, start + |text|)
    {
      ghost var before, text' := buf[..], rest.value;
      ghost var n := ParseSegment(Segment(text'));
      var e: Entry;
      e, sep, fault := ParseDrive(buf, sep.value, text');
      if fault {
        SameOutsideBoth(a, before, buf[..], start, start + |text|, pos, start + |text|, start, start + |text|);
        return;
      }
      FileStep(cmd, driveno, ns, text', MAX_NAMEINFO_FILES - |ns|);
      FileParsed(before, buf[..], e, n, sep, pos, text', cmd, driveno, files, ns, start);
      if (cmd != CMD_ASSIGN && e.drive == NAMEINFO_UNUSED_DRIVE) || e.drive == NAMEINFO_LAST_DRIVE {
        e := e.(drive := driveno);
      }
      SameOutsideBoth(a, before, buf[..], start, start + |text|, pos, start + |text|, start, start + |text|);
      files, ns := files + [e], ns + [WithDrive(cmd, driveno, n)];
      pos, rest := pos + |Segment(text')| + 1, AfterComma(text');
    }
    ok := sep.None?;
    FilesEnd(cmd, driveno, ns, rest, MAX_NAMEINFO_FILES - |ns|);
  }

  /** One more name in the list, and what holds of the rest. */
  lemma {:induction false} FileParsed(
    a: seq<byte>, b: seq<byte>, e: Entry, n: Name, sep: Option<nat>, pos: nat, text: seq<byte>, cmd: byte, driveno: byte,
    es: seq<Entry>, ns: seq<Name>, start: nat)
    requires n == ParseSegment(Segment(text))
    requires DriveParsed(b, e, sep, pos, text) && SameOutside(a, b, pos, pos + |text|)
    requires Listed(a, es, ns, start, pos) && start <= pos
    ensures var pos', n' := pos + |Segment(text)| + 1, WithDrive(cmd, driveno, n);
      && e.drive == n.drive
      && Listed(b, es + [e.(drive := n'.drive)], ns + [n'], start, pos')
      && (match AfterComma(text)
          case None => sep == None && |Segment(text)| == |text|
          case Some(rest) =>
            && sep == Some(pos') && CString(b, pos', rest) && Readable(b, pos', rest)
            && pos' + |rest| == pos + |text|)
  {
    hide Find, CString, Listed, ParseSegment;
    var n' := WithDrive(cmd, driveno, n);
    HoldsDrive(b, e, n, n'.drive);
    hide Holds;
    ListedMore(a, b, es, ns, e.(drive := n'.drive), WithDrive(cmd, driveno, n), start, pos, pos + |text|, pos + |Segment(text)| + 1);
  }

  lemma {:induction false} HoldsDrive(b: seq<byte>, e: Entry, n: Name, drive: byte)
    requires Holds(b, e, n)
    ensures Holds(b, e.(drive := drive), n.(drive := drive))
  {
  }

  lemma {:induction false} FilesEnd(cmd: byte, driveno: byte, ns: seq<Name>, rest: Option<seq<byte>>, room: nat)
    requires rest.None? || room == 0
    ensures Join(ns, FileNames(cmd, driveno, rest, room)) == if rest.None? then Some(ns) else None
  {
    assert ns + [] == ns;
  }

  /** What a command line asks for: a disk copy, or a packet with a target and other names. */
  datatype Request = Syntax | Copy(to: byte, from: byte) | Request(trg: Option<Name>, files: seq<Name>)

  /** The names of a request, in the order of the packet. */
  function Requested(trg: Option<Name>, files: seq<Name>): seq<Name> {
    (if trg.Some? then [trg.value] else []) + files
  }

  predicate SplitsAtEquals(cmd: byte) {
    cmd == CMD_ASSIGN || cmd == CMD_RENAME || cmd == CMD_COPY
  }

  predicate IsBinary(cmd: byte) {
    cmd == CMD_POSITION || cmd == CMD_TIME
  }

  /** "t=s" */
  predicate IsDriveCopy(text: seq<byte>) {
    |text| == 3 && IsDigit(text[0]) && text[1] == EQUALS && IsDigit(text[2])
  }

  function UpToNul(s: seq<byte>): seq<byte> {
    s[..Find(s, 0)]
  }

  function Text(line: seq<byte>): seq<byte> {
    UpToNul(line[Spaces(line)..])
  }

  /** The names behind the '=' of a command; the drive of the target is the default. */
  function SplitRequest(cmd: byte, text: seq<byte>): (r: Request)
    ensures !r.Copy?
  {
    var eq := Find(text, EQUALS);
    if eq == |text| then Syntax
    else
      var trg := ParseSegment(Segment(text[..eq]));
      var driveno := if trg.drive != NAMEINFO_UNDEF_DRIVE then trg.drive else NAMEINFO_UNUSED_DRIVE;
      match FileNames(cmd, driveno, Some(text[eq + 1..]), MAX_NAMEINFO_FILES)
      case None => Syntax
      case Some(files) => Request(Some(trg), files)
  }

  function TextRequest(cmd: byte, text: seq<byte>): Request {
    if cmd == CMD_DIR && text == [] then Request(None, [Name(NAMEINFO_UNUSED_DRIVE, None, [])])
    else if cmd == CMD_DIR && |text| == 1 && IsDigit(text[0]) then Request(None, [Name(text[0] % 16, None, [])])
    else if (cmd == CMD_DUPLICATE || cmd == CMD_COPY) && IsDriveCopy(text) then Copy(text[0] % 16, text[2] % 16)
    else if SplitsAtEquals(cmd) then SplitRequest(cmd, text)
    else
      match FileNames(cmd, NAMEINFO_UNUSED_DRIVE, Some(text), MAX_NAMEINFO_FILES)
      case None => Syntax
      case Some(files) => Request(None, files)
  }

  /** What the command `cmd` asks for with the rest of its line. */
  function CmdRequest(cmd: byte, line: seq<byte>): Request {
    if IsBinary(cmd) then Request(Some(Name(NAMEINFO_UNUSED_DRIVE, None, line[Spaces(line)..])), [])
    else TextRequest(cmd, Text(line))
  }

  /** The first name that is parsed has a character, or there is no carriage return before it. */
  predicate TextReadable(b: seq<byte>, start: nat, cmd: byte, text: seq<byte>) {
    if cmd == CMD_DIR && text == [] then true
    else if SplitsAtEquals(cmd) then Find(text, EQUALS) < |text| ==> Readable(b, start, text[..Find(text, EQUALS)])
    else Readable(b, start, text)
  }

  predicate CmdReadable(b: seq<byte>, start: nat, cmd: byte, line: seq<byte>) {
    !IsBinary(cmd) ==> TextReadable(b, start + Spaces(line), cmd, Text(line))
  }

  const NO_ENTRY := Entry(NAMEINFO_UNUSED_DRIVE, None, None, 0)

  /** The name info stands for the request; its names are between `start` and `end`. */
  predicate Answers(b: seq<byte>, info: NameInfo, cmd: byte, start: nat, end: nat, request: Request) {
    match request
    case Syntax => info.cmd == CMD_SYNTAX
    case Copy(to, from) =>
      info.cmd == cmd && DiskCopy(info) && info.trg.drive == to && info.files != [] && info.files[0].drive == from
    case Request(trg, files) =>
      && info.cmd == cmd && info.trg.name.Some? == trg.Some? && (trg.None? ==> info.trg.drive == NAMEINFO_UNUSED_DRIVE)
      && Listed(b, Entries(info), Requested(trg, files), start, end) && end <= |b|
  }

  method SkipSpaces(buf: array<byte>, start: nat, len: nat) returns (i: nat)
    requires start + len < buf.Length && buf[start + len] == 0
    ensures i == Spaces(buf[start..start + len])
  {
    ghost var line := buf[start..start + len];
    i := 0;
    while IsSpace(buf[start + i])
      invariant i <= len && forall k :: 0 <= k < i ==> IsSpace(line[k])
      decreases len - i
    {
      assert i < len && buf[start + i] == line[i];
      i := i + 1;
    }
    assert i < len ==> line[i] == buf[start + i];
  }

  /** The search for the '='. */
  method FindEquals(buf: array<byte>, start: nat, ghost text: seq<byte>) returns (len: nat, eq: nat)
    requires CString(buf[..], start, text)
    ensures len == |text| && eq == Find(text, EQUALS) && start + len < buf.Length
  {
    hide Find, CString;
    StringAt(buf[..], start, text);
    assert buf[..][start..] == buf[start..];
    len := Find(buf[start..], 0);
    assert buf[start..start + len] == text;
    eq := Find(buf[start..start + len], EQUALS);
  }

  /** The target in front of the '='. */
  method ParseTarget(buf: array<byte>, start: nat, eq: nat, ghost text: seq<byte>) returns (trg: Entry, fault: bool)
    requires CString(buf[..], start, text) && eq < |text| && start + eq < buf.Length
    modifies buf
    ensures fault <==> !Readable(old(buf[..]), start, text[..eq])
    ensures !fault ==>
      var n := ParseSegment(Segment(text[..eq]));
      trg.drive == n.drive && trg.name.Some? && Listed(buf[..], [trg], [n], start, start + eq + 1)
    ensures CString(buf[..], start + eq + 1, text[eq + 1..]) && Readable(buf[..], start + eq + 1, text[eq + 1..])
  {
    hide CString, Listed, ParseSegment, Segment, DriveParsed, SameOutside, Readable;
    ghost var a, pos := buf[..], start + eq + 1;
    buf[start + eq] := 0;
    ghost var b := buf[..];
    SplitString(a, b, start, text, eq);
    StillReadable(a, b, start, text[..eq], start + eq);
    var unused;
    trg, unused, fault := ParseDrive(buf, start, text[..eq]);
    if !fault {
      FirstListed(b, buf[..], trg, unused, start, text[..eq]);
    }
    StringOutside(b, buf[..], start, start + eq, pos, text[eq + 1..]);
    ByteOutside(b, buf[..], start, start + eq, start + eq);
    AfterNul(buf[..], pos, text[eq + 1..]);
  }

  /** The target and the files around the '=', the part of parse_cmd_pars for ASSIGN, RENAME and COPY. */
  method ParseSplit(buf: array<byte>, start: nat, cmd: byte, ghost text: seq<byte>)
    returns (ok: bool, trg: Entry, files: seq<Entry>, fault: bool)
    requires CString(buf[..], start, text)
    modifies buf
    ensures fault <==> Find(text, EQUALS) < |text| && !Readable(old(buf[..]), start, text[..Find(text, EQUALS)])
    ensures !fault ==>
      match SplitRequest(cmd, text)
      case Request(t, fs) =>
        && ok && t.Some? && trg.name.Some?
        && Listed(buf[..], [trg] + files, [t.value] + fs, start, start + |text| + 1)
      case _ => !ok
  {
    hide CString, Find, Listed, FileNames, ParseSegment, Segment, SameOutside, Readable;
    ok, trg, files, fault := false, NO_ENTRY, [], false;
    var len, eq := FindEquals(buf, start, text);
    if eq == len {
      return;
    }
    trg, fault := ParseTarget(buf, start, eq, text);
    if fault {
      return;
    }
    ghost var c, n, pos := buf[..], ParseSegment(Segment(text[..eq])), start + eq + 1;
    var driveno := if trg.drive != NAMEINFO_UNDEF_DRIVE then trg.drive else NAMEINFO_UNUSED_DRIVE;
    ok, files, fault := ParseFiles(buf, start + eq + 1, cmd, driveno, text[eq + 1..]);
    if ok {
      ghost var fs := FileNames(cmd, driveno, Some(text[eq + 1..]), MAX_NAMEINFO_FILES).value;
      ListedJoin(c, buf[..], [trg], [n], files, fs, start, pos, start + |text|, start + |text| + 1);
    }
  }

  lemma {:induction false} StillReadable(a: seq<byte>, b: seq<byte>, start: nat, text: seq<byte>, k: nat)
    requires start <= k < |a| && b == a[k := 0]
    ensures Readable(a, start, text) <==> Readable(b, start, text)
  {
  }

  /** The target as a list with one name. */
  lemma {:induction false} FirstListed(a: seq<byte>, b: seq<byte>, e: Entry, next: Option<nat>, start: nat, text: seq<byte>)
    requires DriveParsed(b, e, next, start, text) && SameOutside(a, b, start, start + |text|)
    ensures var n := ParseSegment(Segment(text));
      e.drive == n.drive && e.name.Some? && Listed(b, [e], [n], start, start + |text| + 1)
  {
    hide ParseSegment, Find, NextAt;
    var n := ParseSegment(Segment(text));
    assert [] + [e] == [e] && [] + [n] == [n];
    SegmentLength(text);
    ListedMore(a, b, [], [], e, n, start, start, start + |text|, start + |text| + 1);
  }

  /** Two lists, one behind the other; `b` differs from `a` only behind the first one. */
  lemma {:induction false} ListedJoin(
    a: seq<byte>, b: seq<byte>, es: seq<Entry>, ns: seq<Name>, fs: seq<Entry>, ms: seq<Name>,
    start: nat, pos: nat, hi: nat, end: nat)
    requires Listed(a, es, ns, start, pos) && Listed(b, fs, ms, pos, end) && start <= pos <= end
    requires SameOutside(a, b, pos, hi)
    ensures Listed(b, es + fs, ns + ms, start, end)
  {
    hide Holds;
    AllStillHold(a, b, es, ns, pos, end);
    forall k | 0 < k < |es + fs|
      ensures End((es + fs)[k - 1], (ns + ms)[k - 1]) <= Start((es + fs)[k])
    {
      if k == |es| {
        assert Within(es[k - 1], ns[k - 1], 0, pos);
      }
    }
  }

  /** "t=s" at `start`; a digit is looked for before what follows it, so that nothing behind the NUL is read. */
  method FindDriveCopy(buf: array<byte>, start: nat, ghost text: seq<byte>) returns (found: bool)
    requires CString(buf[..], start, text)
    ensures found <==> IsDriveCopy(text)
  {
    assert forall k :: 0 <= k < |text| ==> buf[start + k] == text[k];
    assert buf[start + |text|] == 0;
    found := IsDigit(buf[start]) && buf[start + 1] == EQUALS && IsDigit(buf[start + 2]) && buf[start + 3] == 0;
  }

  /** parse_cmd_pars for everything but binary commands; `text` is the string at `start`. */
  method ParseText(buf: array<byte>, start: nat, cmd: byte, ghost text: seq<byte>) returns (info: NameInfo, fault: bool)
    requires CString(buf[..], start, text)
    modifies buf
    ensures fault <==> !TextReadable(old(buf[..]), start, cmd, text)
    ensures !fault ==> Answers(buf[..], info, cmd, start, start + |text| + 1, TextRequest(cmd, text))
    ensures info.filetype == 0 && info.recordlen == 0
  {
    fault := false;
    hide CString, Find, Listed, FileNames, SplitRequest;
    info := NameInfo(cmd, 0, false, 0, 0, NO_ENTRY, []);
    EnoughText(buf[..], start, text);
    if cmd == CMD_DIR {
      if buf[start] == 0 {
        info := info.(files := [Entry(NAMEINFO_UNUSED_DRIVE, None, Some(start), 0)]);
        EmptyListed(buf[..], NAMEINFO_UNUSED_DRIVE, start, start, start + |text| + 1);
        assert Entries(info) == info.files;
        return;
      }
      if buf[start + 1] == 0 && IsDigit(buf[start]) {
        info := info.(files := [Entry(buf[start] % 16, None, Some(start + 1), 0)]);
        EmptyListed(buf[..], buf[start] % 16, start, start + 1, start + |text| + 1);
        assert Entries(info) == info.files;
        return;
      }
    }
    if cmd == CMD_DUPLICATE || cmd == CMD_COPY {
      var found := FindDriveCopy(buf, start, text);
      if found {
        info := info.(trg := NO_ENTRY.(drive := buf[start] % 16), files := [NO_ENTRY.(drive := buf[start + 2] % 16)]);
        return;
      }
    }
    var ok, trg, files := true, NO_ENTRY, [];
    if cmd == CMD_ASSIGN || cmd == CMD_RENAME || cmd == CMD_COPY {
      ok, trg, files, fault := ParseSplit(buf, start, cmd, text);
    } else {
      ok, files, fault := ParseFiles(buf, start, cmd, NAMEINFO_UNUSED_DRIVE, text);
    }
    info := info.(cmd := if ok then cmd else CMD_SYNTAX, trg := trg, files := files);
    ghost var request := TextRequest(cmd, text);
    if request.Request? && !fault {
      assert request.trg.None? ==> [] + files == files && [] + request.files == request.files;
      AnswersListed(buf[..], info, cmd, start, request.trg, request.files, start + |text| + 1);
    }
  }

  lemma {:induction false} EnoughText(b: seq<byte>, start: nat, text: seq<byte>)
    requires CString(b, start, text)
    ensures start + |text| < |b| && b[start + |text|] == 0
    ensures forall k :: 0 <= k < |text| ==> b[start + k] == text[k] != 0
    ensures b[start] == 0 <==> text == []
    ensures text != [] ==> (b[start + 1] == 0 <==> |text| == 1)
  {
    assert forall k :: 0 <= k < |text| ==> b[start + k] == text[k] && text[k] in text;
  }

  lemma {:induction false} EmptyListed(b: seq<byte>, drive: byte, start: nat, i: nat, end: nat)
    requires start <= i < end <= |b| && b[i] == 0
    ensures Listed(b, [Entry(drive, None, Some(i), 0)], Requested(None, [Name(drive, None, [])]), start, end)
  {
    assert Requested(None, [Name(drive, None, [])]) == [Name(drive, None, [])];
  }

  lemma {:induction false} AnswersListed(b: seq<byte>, info: NameInfo, cmd: byte, start: nat, trg: Option<Name>, files: seq<Name>, end: nat)
    requires info.cmd == cmd && info.trg.name.Some? == trg.Some?
    requires trg.None? ==> info.trg.drive == NAMEINFO_UNUSED_DRIVE
    requires Listed(b, (if trg.Some? then [info.trg] else []) + info.files, Requested(trg, files), start, end) && end <= |b|
    ensures Answers(b, info, cmd, start, end, Request(trg, files))
  {
  }

  /** parse_cmd_pars */
  method ParseCmdPars(buf: array<byte>, start: nat, len: nat, cmd: byte) returns (info: NameInfo, fault: bool)
    requires start + len < buf.Length && buf[start + len] == 0
    modifies buf
    ensures fault <==> !CmdReadable(old(buf[..]), start, cmd, old(buf[start..start + len]))
    ensures !fault ==> Answers(buf[..], info, cmd, start, start + len + 1, CmdRequest(cmd, old(buf[start..start + len])))
    ensures info.filetype == 0 && info.recordlen == 0
  {
    hide Answers, TextRequest, TextReadable;
    ghost var b, line := buf[..], buf[start..start + len];
    var i := SkipSpaces(buf, start, len);
    fault := false;
    if cmd == CMD_POSITION || cmd == CMD_TIME {
      info := NameInfo(cmd, 0, false, 0, 0, Entry(NAMEINFO_UNUSED_DRIVE, None, Some(start + i), len - i), []);
      BinaryAnswers(b, info, cmd, start, len);
    } else {
      TextAt(b, start, len);
      info, fault := ParseText(buf, start + i, cmd, Text(line));
      if !fault {
        AnswersAround(
          buf[..], info, cmd, start + i, start + i + |Text(line)| + 1, start, start + len + 1, TextRequest(cmd, Text(line)));
      }
    }
  }

  lemma {:induction false} BinaryAnswers(b: seq<byte>, info: NameInfo, cmd: byte, start: nat, len: nat)
    requires start + len < |b| && b[start + len] == 0 && IsBinary(cmd)
    requires var i := Spaces(b[start..start + len]);
      info == NameInfo(cmd, 0, false, 0, 0, Entry(NAMEINFO_UNUSED_DRIVE, None, Some(start + i), len - i), [])
    ensures Answers(b, info, cmd, start, start + len + 1, CmdRequest(cmd, b[start..start + len]))
  {
    hide Spaces;
    var line := b[start..start + len];
    var i := Spaces(line);
    Slice(b, start, start + len, i, len);
    assert line[i..len] == line[i..];
  }

  lemma {:induction false} TextAt(b: seq<byte>, start: nat, len: nat)
    requires start + len < |b| && b[start + len] == 0
    ensures var line := b[start..start + len];
      CString(b, start + Spaces(line), Text(line))
  {
    hide Find;
    var line := b[start..start + len];
    var i := Spaces(line);
    var s := line[i..];
    var k := Find(s, 0);
    Slice(b, start, start + len, i, i + k);
    assert line[i..i + k] == s[..k];
    assert k < |s| ==> s[k] == b[start + i + k];
  }

  lemma {:induction false} AnswersAround(
    b: seq<byte>, info: NameInfo, cmd: byte, start: nat, end: nat, start': nat, end': nat, request: Request)
    requires Answers(b, info, cmd, start, end, request) && start' <= start && end <= end' <= |b|
    ensures Answers(b, info, cmd, start', end', request)
  {
    if request.Request? {
      var es, ns := Entries(info), Requested(request.trg, request.files);
      assert forall k :: 0 <= k < |es| ==> Packed(es[k], ns[k]) && start <= Start(es[k]);
      forall k | 0 <= k < |es|
        ensures Within(es[k], ns[k], 0, end')
      {
        assert Within(es[k], ns[k], 0, end);
      }
    }
  }

  // ---------------------------------------------------------------------------------------
  // File names of an open, with options

  datatype OpenState = OpenState(filetype: byte, recordlen: word, access: byte, nonblocking: bool)

  const NO_OPTIONS := OpenState(0, 0, 0, false)

  /** One option at `i`; `None` is a syntax error. */
  function OneOption(s: seq<byte>, i: nat, st: OpenState): Option<OpenState> {
    var c := At(s, i);
    if c == 'L' as byte || c == 'P' as byte || c == 'S' as byte || c == 'U' as byte then
      if st.filetype != 0 || (c == 'L' as byte && At(s, i + 1) != COMMA) then None
      else
        var low := At(s, i + 2);
        var recordlen := if c != 'L' as byte then st.recordlen else if low == 0 then 0 else low + 256 * (At(s, i + 3) as nat);
        Some(st.(filetype := c, recordlen := recordlen))
    else if c == 'R' as byte || c == 'W' as byte || c == 'A' as byte || c == 'X' as byte then
      if st.access != 0 then None else Some(st.(access := c))
    else if c == 'N' as byte then Some(st.(nonblocking := true))
    else None
  }

  /** The options from `i` on, separated by commas; nothing is read behind the record length of an L. */
  function OpenOptions(s: seq<byte>, i: nat, st: OpenState): Option<OpenState>
    decreases if i < |s| then |s| - i else 0
  {
    if At(s, i) == 0 || st.filetype == 'L' as byte then Some(st)
    else
      match OneOption(s, i, st)
      case None => None
      case Some(st') => if At(s, i + 1) != 0 && At(s, i + 1) != COMMA then None else OpenOptions(s, i + 2, st')
  }

  /** The name of an open without the '@' for overwriting. */
  function Body(line: seq<byte>): seq<byte> {
    if line != [] && line[0] == '@' as byte then line[1..] else line
  }

  function OpenTarget(line: seq<byte>): Name {
    ParseSegment(Segment(UpToNul(Body(line))))
  }

  /** The options of an open; a relative file is opened for reading and writing unless the access is given. */
  function OpenParsed(line: seq<byte>): Option<OpenState> {
    var text := UpToNul(Body(line));
    var parsed :=
      if AfterComma(text).None? then Some(NO_OPTIONS) else OpenOptions(Body(line), |Segment(text)| + 1, NO_OPTIONS);
    match parsed
    case None => None
    case Some(st) => Some(if st.access == 0 && st.filetype == 'L' as byte then st.(access := 'X' as byte) else st)
  }

  /** The loop of parse_open; `s` is the text at `base`, followed by two NULs. */
  method ParseOptions(buf: array<byte>, start: nat, ghost base: nat, ghost s: seq<byte>)
    returns (ok: bool, st: OpenState)
    requires base < start <= base + |s| && base + |s| + 1 < buf.Length
    requires forall j :: start <= j <= base + |s| + 1 ==> buf[j] == At(s, j - base)
    ensures match OpenOptions(s, start - base, NO_OPTIONS)
            case None => !ok
            case Some(r) => ok && st == r
  {
    st := NO_OPTIONS;
    ok := false;
    var p := start;
    while buf[p] != 0 && st.filetype != 'L' as byte
      invariant start <= p <= base + |s| + 1
      invariant OpenOptions(s, p - base, st) == OpenOptions(s, start - base, NO_OPTIONS)
      decreases base + |s| + 1 - p
    {
      var c := buf[p];
      if c == 'L' as byte || c == 'P' as byte || c == 'S' as byte || c == 'U' as byte {
        if c == 'L' as byte {
          if buf[p + 1] != COMMA {
            return;
          }
          st := st.(recordlen := buf[p + 2]);
          if st.recordlen != 0 {
            st := st.(recordlen := st.recordlen + 256 * (buf[p + 3] as nat));
          }
        }
        if st.filetype != 0 {
          return;
        }
        st := st.(filetype := c);
      } else if c == 'R' as byte || c == 'W' as byte || c == 'A' as byte || c == 'X' as byte {
        if st.access != 0 {
          return;
        }
        st := st.(access := c);
      } else if c == 'N' as byte {
        st := st.(nonblocking := true);
      } else {
        return;
      }
      p := p + 1;
      if buf[p] != 0 && buf[p] != COMMA {
        return;
      }
      p := p + 1;
    }
    ok := true;
  }

  /** Where the file name starts in an open's text, behind an '@'. */
  function Skipped(line: seq<byte>): nat {
    |line| - |Body(line)|
  }

  /** parse_open, the name; the options are untouched by it. */
  method ParseOpenName(buf: array<byte>, start: nat, ghost body: seq<byte>) returns (trg: Entry, p: Option<nat>, fault: bool)
    requires start + |body| + 1 < buf.Length && buf[start..start + |body|] == body
    requires buf[start + |body|] == 0 && buf[start + |body| + 1] == 0
    modifies buf
    ensures fault <==> !Readable(old(buf[..]), start, UpToNul(body))
    ensures !fault ==> trg.name.Some? && Listed(buf[..], [trg], [ParseSegment(Segment(UpToNul(body)))], start, start + |body| + 1)
    ensures !fault ==> p.Some? == AfterComma(UpToNul(body)).Some?
    ensures !fault && p.Some? ==>
      && p.value == start + |Segment(UpToNul(body))| + 1 <= start + |body|
      && forall j :: p.value <= j <= start + |body| + 1 ==> buf[j] == At(body, j - start)
  {
    hide CString, SameOutside, ParseSegment, Segment, AfterComma, DriveParsed, Readable;
    ghost var a, text := buf[..], UpToNul(body);
    BodyAt(a, start, body);
    StringAt(a, start, text);
    trg, p, fault := ParseDrive(buf, start, text);
    if fault {
      return;
    }
    NameListed(a, buf[..], trg, p, start, text, start + |body| + 1);
    if p.Some? {
      OptionsAt(a, buf[..], trg, p, start, body);
    }
  }

  /** parse_open: the text at `start`; two NULs follow it. */
  method ParseOpen(buf: array<byte>, start: nat, len: nat) returns (info: NameInfo, fault: bool)
    requires start + len + 1 < buf.Length && buf[start + len] == 0 && buf[start + len + 1] == 0
    modifies buf
    ensures var line := old(buf[start..start + len]);
      fault <==> !Readable(old(buf[..]), start + Skipped(line), UpToNul(Body(line)))
    ensures var line := old(buf[start..start + len]);
      !fault ==>
      match OpenParsed(line)
      case None => info.cmd == CMD_SYNTAX
      case Some(st) =>
        && Answers(buf[..], info, if Skipped(line) == 1 then CMD_OVERWRITE else CMD_NONE, start + Skipped(line),
                   start + len + 1, Request(Some(OpenTarget(line)), []))
        && info.filetype == st.filetype && info.recordlen == st.recordlen
        && info.access == st.access && info.nonblocking == st.nonblocking
  {
    hide Holds, ParseSegment, Segment, AfterComma, UpToNul, OpenOptions, Listed, Answers, Readable;
    ghost var line := buf[start..start + len];
    ghost var body := Body(line);
    var cmd, filename := CMD_NONE, start;
    if buf[start] == '@' as byte {
      cmd := CMD_OVERWRITE;
      filename := start + 1;
    }
    assert filename == start + Skipped(line) && body == buf[filename..start + len];
    var trg, p;
    trg, p, fault := ParseOpenName(buf, filename, body);
    var ok, st := true, NO_OPTIONS;
    if p.Some? && !fault {
      ok, st := ParseOptions(buf, p.value, filename, body);
    }
    if !ok {
      return NameInfo(CMD_SYNTAX, st.access, st.nonblocking, st.filetype, st.recordlen, trg, []), fault;
    }
    if st.access == 0 && st.filetype == 'L' as byte {
      st := st.(access := 'X' as byte);
    }
    info := NameInfo(cmd, st.access, st.nonblocking, st.filetype, st.recordlen, trg, []);
    if !fault {
      TargetAnswers(buf[..], info, filename, OpenTarget(line), start + len + 1);
    }
  }

  lemma {:induction false} BodyAt(b: seq<byte>, start: nat, body: seq<byte>)
    requires start + |body| < |b| && b[start..start + |body|] == body && b[start + |body|] == 0
    ensures CString(b, start, UpToNul(body))
  {
    hide Find;
    var k := Find(body, 0);
    assert b[start..start + k] == body[..k];
    assert k < |body| ==> b[start + k] == body[k];
  }

  lemma {:induction false} NameListed(a: seq<byte>, b: seq<byte>, e: Entry, next: Option<nat>, start: nat, text: seq<byte>, end: nat)
    requires DriveParsed(b, e, next, start, text) && SameOutside(a, b, start, start + |text|)
    requires start + |text| < end
    ensures next.Some? == AfterComma(text).Some?
    ensures e.name.Some? && Listed(b, [e], [ParseSegment(Segment(text))], start, end)
  {
    hide ParseSegment, Segment, Holds;
    var n := ParseSegment(Segment(text));
    FirstListed(a, b, e, next, start, text);
    assert Within(e, n, 0, start + |text| + 1) by {
      assert Within([e][0], [n][0], 0, start + |text| + 1);
    }
    Widen(e, n, 0, start + |text| + 1, 0, end);
  }

  lemma {:induction false} TargetAnswers(b: seq<byte>, info: NameInfo, start: nat, n: Name, end: nat)
    requires info.trg.name.Some? && info.files == [] && Listed(b, [info.trg], [n], start, end)
    requires end <= |b|
    ensures Answers(b, info, info.cmd, start, end, Request(Some(n), []))
  {
    assert Entries(info) == [info.trg] && Requested(Some(n), []) == [n] && [info.trg] + info.files == [info.trg];
    AnswersListed(b, info, info.cmd, start, Some(n), [], end);
  }

  /** The options are untouched by the parsing of the name. */
  lemma {:induction false} OptionsAt(a: seq<byte>, b: seq<byte>, e: Entry, next: Option<nat>, start: nat, body: seq<byte>)
    requires next.Some? && DriveParsed(b, e, next, start, UpToNul(body))
    requires SameOutside(a, b, start, start + |UpToNul(body)|)
    requires start + |body| + 1 < |a| && a[start..start + |body|] == body && a[start + |body|] == a[start + |body| + 1] == 0
    ensures next.value == start + |Segment(UpToNul(body))| + 1 <= start + |body|
    ensures forall j :: next.value <= j <= start + |body| + 1 ==> b[j] == At(body, j - start)
  {
    hide Find, Holds, ParseSegment, Packed;
    var text := UpToNul(body);
    var rest := AfterComma(text).value;
    forall j | next.value <= j <= start + |body| + 1
      ensures b[j] == At(body, j - start)
    {
      if j < start + |text| {
        assert b[j] == b[next.value..next.value + |rest|][j - next.value] == rest[j - next.value] == text[j - start];
      } else {
        ByteOutside(a, b, start, start + |text|, j);
        assert j < start + |body| ==> a[j] == a[start..start + |body|][j - start];
      }
    }
  }
}
