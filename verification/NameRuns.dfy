/**
 A file name or command from the bus to the server: parsed in the command buffer, assembled at the start
 of the same buffer (firmware/file.c, firmware/cmd.c), and parsed again on the other side.
 */
module NameRuns {
  import opened Wire
  import opened Names
  import opened NamePackets
  import opened NameAssembly
  import opened NameParsing
  import NameRooms

  /** How parse_filename is called; for a command with what command_find found at the start of the line. */
  datatype Hint = Command(cmd: byte, cmdlen: nat) | Load | Open

  /** What a line means. */
  datatype Meaning = Meaning(cmd: byte, filetype: byte, recordlen: word, request: Request)

  const NO_MEANING := Meaning(CMD_SYNTAX, 0, 0, Syntax)

  predicate IsDirectory(hint: Hint, line: seq<byte>) {
    hint.Load? && line != [] && line[0] == '$' as byte
  }

  function LineMeaning(hint: Hint, line: seq<byte>): (m: Meaning)
    requires hint.Command? ==> hint.cmdlen <= |line|
    ensures m.cmd == CMD_SYNTAX ==> m.request.Syntax?
  {
    if hint.Command? then
      if hint.cmd == CMD_SYNTAX then NO_MEANING
      else Meaning(hint.cmd, 0, 0, CmdRequest(hint.cmd, line[hint.cmdlen..]))
    else if IsDirectory(hint, line) then Meaning(CMD_DIR, 0, 0, CmdRequest(CMD_DIR, line[1..]))
    else
      match OpenParsed(line)
      case None => NO_MEANING
      case Some(st) =>
        Meaning(if Skipped(line) == 1 then CMD_OVERWRITE else CMD_NONE, st.filetype, st.recordlen,
                Request(Some(OpenTarget(line)), []))
  }

  /** The buffer after its first `dlen` bytes were moved to the end of its first `inlen` bytes. */
  function Moved(b: seq<byte>, dlen: nat, inlen: nat): seq<byte>
    requires dlen < inlen <= |b|
  {
    b[..inlen - dlen - 1] + b[..dlen] + [0] + b[inlen..]
  }

  /** The part of a line in front of its names: the command, the '$' of a directory, or the '@' of an open. */
  function Consumed(hint: Hint, line: seq<byte>): nat {
    if hint.Command? then hint.cmdlen else if IsDirectory(hint, line) then 1 else Skipped(line)
  }

  /** The first name that is parsed has a character, or there is no carriage return before it. */
  predicate LineReadable(b: seq<byte>, start: nat, hint: Hint, line: seq<byte>)
    requires hint.Command? ==> hint.cmdlen <= |line|
  {
    var at := start + Consumed(hint, line);
    if hint.Command? then hint.cmd != CMD_SYNTAX ==> CmdReadable(b, at, hint.cmd, line[hint.cmdlen..])
    else if IsDirectory(hint, line) then CmdReadable(b, at, CMD_DIR, line[1..])
    else Readable(b, at, UpToNul(Body(line)))
  }

  /** A line as long as the buffer makes the move leave it; so does an empty name behind a carriage return. */
  predicate Parsable(b: seq<byte>, dlen: nat, inlen: nat, hint: Hint)
    requires dlen <= inlen <= |b| && (hint.Command? ==> hint.cmdlen <= dlen)
  {
    dlen < inlen && LineReadable(Moved(b, dlen, inlen), inlen - dlen - 1, hint, b[..dlen])
  }

  /** The name info stands for the meaning; its names are between `start` and `end`. */
  predicate Stands(b: seq<byte>, info: NameInfo, m: Meaning, start: nat, end: nat) {
    if m.request.Syntax? then info.cmd == CMD_SYNTAX
    else Answers(b, info, m.cmd, start, end, m.request) && info.filetype == m.filetype && info.recordlen == m.recordlen
  }

  /** An open's access letter and its option N are noted. */
  predicate AccessIs(info: NameInfo, hint: Hint, line: seq<byte>) {
    !hint.Command? && !IsDirectory(hint, line) && OpenParsed(line).Some? ==>
      info.access == OpenParsed(line).value.access && info.nonblocking == OpenParsed(line).value.nonblocking
  }

  /** parse_filename; the byte behind the buffer's end is a NUL. A fault is an access outside of the buffer. */
  method ParseFilename(buf: array<byte>, dlen: nat, inlen: nat, hint: Hint) returns (info: NameInfo, fault: bool)
    requires dlen <= inlen < 256 && inlen < buf.Length && buf[inlen] == 0
    requires hint.Command? ==> hint.cmdlen <= dlen
    modifies buf
    ensures fault <==> !Parsable(old(buf[..]), dlen, inlen, hint)
    ensures !fault ==> dlen < inlen
    ensures !fault ==>
      var line := old(buf[..dlen]);
      Stands(buf[..], info, LineMeaning(hint, line), inlen - dlen - 1 + Consumed(hint, line), inlen)
      && AccessIs(info, hint, line)
  {
    hide CmdReadable, Readable, Answers, OpenParsed, CmdRequest, OpenTarget, Body, Skipped, UpToNul, Moved;
    hide Stands, LineMeaning;
    info, fault := NameInfo(CMD_NONE, 0, false, 0, 0, NO_ENTRY, []), false;
    if dlen == inlen {
      return info, true;
    }
    ghost var line := buf[..dlen];
    assert line == buf[..][..dlen];
    var diff := inlen - dlen - 1;
    MoveLine(buf, dlen, inlen);
    assert buf[diff..diff + dlen] == line && (dlen > 0 ==> buf[diff] == line[0]);
    assert hint.Load? ==> (IsDirectory(hint, line) <==> buf[diff] == '$' as byte);
    if hint.Command? {
      info := info.(cmd := hint.cmd);
      if hint.cmd == CMD_SYNTAX {
        SyntaxStands(buf[..], info, hint, line, inlen);
        return;
      }
      assert buf[diff + hint.cmdlen..diff + dlen] == line[hint.cmdlen..];
      info, fault := ParseCmdPars(buf, diff + hint.cmdlen, dlen - hint.cmdlen, hint.cmd);
      if !fault {
        CmdStands(buf[..], info, hint, line, hint.cmd, hint.cmdlen, diff, inlen);
      }
    } else if hint.Load? && buf[diff] == '$' as byte {
      assert buf[diff + 1..diff + dlen] == line[1..];
      info, fault := ParseCmdPars(buf, diff + 1, dlen - 1, CMD_DIR);
      if !fault {
        CmdStands(buf[..], info, hint, line, CMD_DIR, 1, diff, inlen);
      }
    } else {
      info, fault := ParseOpen(buf, diff, dlen);
      if !fault {
        OpenStands(buf[..], info, hint, line, diff, inlen);
      }
    }
  }

  lemma {:induction false} SyntaxStands(b: seq<byte>, info: NameInfo, hint: Hint, line: seq<byte>, end: nat)
    requires hint.Command? && hint.cmd == CMD_SYNTAX && hint.cmdlen <= |line| && info.cmd == CMD_SYNTAX
    ensures forall start: nat :: Stands(b, info, LineMeaning(hint, line), start, end)
  {
  }

  lemma {:induction false} CmdStands(
    b: seq<byte>, info: NameInfo, hint: Hint, line: seq<byte>, cmd: byte, cmdlen: nat, diff: nat, end: nat)
    requires cmdlen <= |line| && cmd != CMD_SYNTAX
    requires hint == Command(cmd, cmdlen) || (IsDirectory(hint, line) && cmd == CMD_DIR && cmdlen == 1)
    requires Answers(b, info, cmd, diff + cmdlen, end, CmdRequest(cmd, line[cmdlen..])) && info.filetype == 0 && info.recordlen == 0
    ensures Stands(b, info, LineMeaning(hint, line), diff + Consumed(hint, line), end)
  {
    hide CmdRequest, Listed;
  }

  lemma {:induction false} OpenStands(b: seq<byte>, info: NameInfo, hint: Hint, line: seq<byte>, diff: nat, end: nat)
    requires !hint.Command? && !IsDirectory(hint, line)
    requires match OpenParsed(line)
             case None => info.cmd == CMD_SYNTAX
             case Some(st) =>
               && Answers(b, info, if Skipped(line) == 1 then CMD_OVERWRITE else CMD_NONE, diff + Skipped(line),
                          end, Request(Some(OpenTarget(line)), []))
               && info.filetype == st.filetype && info.recordlen == st.recordlen
    ensures Stands(b, info, LineMeaning(hint, line), diff + Consumed(hint, line), end)
  {
    hide Answers, OpenParsed, OpenTarget, Skipped;
  }

  /** The move at the beginning of parse_filename. */
  method MoveLine(buf: array<byte>, dlen: nat, inlen: nat)
    requires dlen < inlen <= buf.Length
    modifies buf
    ensures buf[..] == Moved(old(buf[..]), dlen, inlen)
    ensures var diff := inlen - dlen - 1; buf[diff..diff + dlen] == old(buf[..dlen]) && buf[diff + dlen] == 0
    ensures inlen < buf.Length ==> buf[inlen] == old(buf[inlen])
  {
    ghost var a := buf[..];
    var diff := inlen - dlen - 1;
    Move(buf, diff, 0, dlen);
    assert buf[diff..diff + dlen] == a[..dlen];
    buf[diff + dlen] := 0;
    assert buf[..diff] == a[..diff] && buf[inlen..] == a[inlen..];
    assert buf[..] == buf[..diff] + buf[diff..diff + dlen] + [buf[diff + dlen]] + buf[inlen..];
  }

  /** COPY and DUPLICATE without a target are sent as a copy of a whole disk. */
  predicate IsDiskCopy(m: Meaning) {
    m.request.Copy? || ((m.cmd == CMD_DUPLICATE || m.cmd == CMD_COPY) && m.request.Request? && m.request.trg == None)
  }

  function NamesOf(m: Meaning): seq<Name> {
    if m.request.Request? then Requested(m.request.trg, m.request.files) else []
  }

  /** The packet for what a line means. */
  function MeaningPacket(m: Meaning, wide: bool): seq<byte>
    requires IsDiskCopy(m) ==> NamesOf(m) != [] || m.request.Copy?
  {
    if m.request.Copy? then [m.request.to, STAR, 0, m.request.from, STAR, 0]
    else if IsDiskCopy(m) then [NAMEINFO_UNUSED_DRIVE, STAR, 0, NamesOf(m)[0].drive, STAR, 0]
    else EncodePacket(m.filetype, m.recordlen, wide, NamesOf(m))
  }

  /** At least one and at most four files. */
  lemma {:induction false} FileCount(cmd: byte, driveno: byte, text: Option<seq<byte>>, room: nat)
    ensures var r := FileNames(cmd, driveno, text, room);
      r.Some? ==> |r.value| <= room && (text.Some? ==> r.value != [])
    decreases room
  {
    if text.Some? && room > 0 {
      FileCount(cmd, driveno, AfterComma(text.value), room - 1);
    }
  }

  /** A command has one to five names. */
  lemma {:induction false} CommandCount(cmd: byte, line: seq<byte>)
    ensures var r := CmdRequest(cmd, line);
      r.Request? ==> 1 <= |Requested(r.trg, r.files)| <= 5
  {
    hide FileNames, Find, ParseSegment, Spaces, Segment;
    if !IsBinary(cmd) {
      var text := Text(line);
      FileCount(cmd, NAMEINFO_UNUSED_DRIVE, Some(text), MAX_NAMEINFO_FILES);
      var eq := Find(text, EQUALS);
      if eq < |text| {
        var trg := ParseSegment(Segment(text[..eq]));
        var driveno := if trg.drive != NAMEINFO_UNDEF_DRIVE then trg.drive else NAMEINFO_UNUSED_DRIVE;
        FileCount(cmd, driveno, Some(text[eq + 1..]), MAX_NAMEINFO_FILES);
      }
    }
  }

  /** Only an L option sets a record length, and only the four type letters become a type. */
  lemma {:induction false} OptionsSound(s: seq<byte>, i: nat, st: OpenState)
    requires KnownType(st.filetype) && (st.recordlen > 0 ==> st.filetype == 'L' as byte)
    ensures var r := OpenOptions(s, i, st);
      r.Some? ==> KnownType(r.value.filetype) && (r.value.recordlen > 0 ==> r.value.filetype == 'L' as byte)
    decreases if i < |s| then |s| - i else 0
  {
    if At(s, i) != 0 && st.filetype != 'L' as byte {
      var next := OneOption(s, i, st);
      if next.Some? {
        OptionsSound(s, i + 2, next.value);
      }
    }
  }

  lemma {:induction false} OpenSound(line: seq<byte>)
    ensures var r := OpenParsed(line);
      r.Some? ==> KnownType(r.value.filetype) && (r.value.recordlen > 0 ==> r.value.filetype == 'L' as byte)
  {
    hide OpenOptions, UpToNul, Segment, AfterComma;
    OptionsSound(Body(line), |Segment(UpToNul(Body(line)))| + 1, NO_OPTIONS);
  }

  /** There is one free byte for each name besides the header; the text in front of the names counts as free. */
  predicate RoomFor(hint: Hint, line: seq<byte>, wide: bool, free: nat)
    requires hint.Command? ==> hint.cmdlen <= |line|
  {
    var m := LineMeaning(hint, line);
    |Header(m.filetype, m.recordlen, wide)| + |NamesOf(m)| <= free + Consumed(hint, line)
  }

  /**
   The room that is enough in front of the moved line: 5 bytes for a command, whose own text is at least one
   byte long, and for a directory, and 10 for an open, or 11 where an int has 16 bits only.
   */
  lemma {:induction false} RoomNeeded(hint: Hint, line: seq<byte>, wide: bool, free: nat)
    requires hint.Command? ==> 1 <= hint.cmdlen <= |line|
    requires free >= if hint.Command? || IsDirectory(hint, line) then 5 else if wide then 10 else 11
    ensures RoomFor(hint, line, wide, free)
  {
    hide CmdRequest, OpenParsed, Printed;
    var m := LineMeaning(hint, line);
    HeaderSize(m.filetype, m.recordlen, wide);
    if hint.Command? {
      CommandCount(hint.cmd, line[hint.cmdlen..]);
    } else if IsDirectory(hint, line) {
      CommandCount(CMD_DIR, line[1..]);
    }
  }

  lemma {:induction false} SomeNames(hint: Hint, line: seq<byte>)
    requires hint.Command? ==> hint.cmdlen <= |line|
    ensures var m := LineMeaning(hint, line);
      m.request.Request? ==> NamesOf(m) != []
  {
    hide CmdRequest, OpenParsed;
    if hint.Command? {
      CommandCount(hint.cmd, line[hint.cmdlen..]);
    } else if IsDirectory(hint, line) {
      CommandCount(CMD_DIR, line[1..]);
    }
  }

  // ---------------------------------------------------------------------------------------
  // From one end to the other

  /** In the room that is there, the packet is assembled from names that are not overwritten too early. */
  lemma {:induction false} EnoughRoom(b: seq<byte>, info: NameInfo, m: Meaning, wide: bool, start: nat, end: nat)
    requires m.request.Request? && Stands(b, info, m, start, end)
    requires |Header(m.filetype, m.recordlen, wide)| + |NamesOf(m)| <= start <= end
    ensures HoldAll(b, Entries(info), NamesOf(m))
    ensures Room(|Header(m.filetype, m.recordlen, wide)|, Entries(info), NamesOf(m))
    ensures |EncodePacket(m.filetype, m.recordlen, wide, NamesOf(m))| <= end <= |b|
  {
    hide Holds, EncodeNames, Header, Room;
    var es, ns, base := Entries(info), NamesOf(m), |Header(m.filetype, m.recordlen, wide)|;
    RoomEnough(base, es, ns, start);
    if es == [] {
      assert ns == ns[..0];
      NothingEncoded(ns);
    } else {
      assert Within(es[|es| - 1], ns[|es| - 1], 0, end);
    }
  }

  /** The packet that should be assembled is the one for the meaning. */
  lemma {:induction false} SamePacket(b: seq<byte>, info: NameInfo, m: Meaning, wide: bool, start: nat, end: nat)
    requires Stands(b, info, m, start, end) && !m.request.Syntax? && (m.request.Request? ==> NamesOf(m) != [])
    ensures info.cmd == m.cmd && (DiskCopy(info) <==> IsDiskCopy(m))
    ensures PacketFor(info, wide, NamesOf(m)) == MeaningPacket(m, wide)
  {
    hide Holds, EncodePacket, Chain, Within;
    if m.request.Request? && IsDiskCopy(m) {
      assert Entries(info) == info.files && NamesOf(m) == m.request.files;
      assert Holds(b, Entries(info)[0], NamesOf(m)[0]);
      HoldsSameDrive(b, info.files[0], NamesOf(m)[0]);
    }
  }

  lemma {:induction false} HoldsSameDrive(b: seq<byte>, e: Entry, n: Name)
    requires Holds(b, e, n)
    ensures e.drive == n.drive
  {
  }

  /** What is assembled is right if there is room, and always for a disk copy. */
  lemma {:induction false} MeaningRight(b: seq<byte>, info: NameInfo, m: Meaning, wide: bool, start: nat, end: nat)
    requires Stands(b, info, m, start, end) && !m.request.Syntax? && (m.request.Request? ==> NamesOf(m) != [])
    requires |b| >= 6 && start <= end
    requires IsDiskCopy(m) || |Header(m.filetype, m.recordlen, wide)| + |NamesOf(m)| <= start
    ensures var packet := MeaningPacket(m, wide);
      && |packet| <= (if IsDiskCopy(m) then 6 else end) && |packet| <= |b|
      && AssemblePacket(b, 0, info, wide) == Assembled(Put(b, 0, packet), |packet|)
  {
    hide EncodePacket, Header, Room, HoldAll, Put, AssemblePacket, Stands;
    SamePacket(b, info, m, wide, start, end);
    if !IsDiskCopy(m) {
      EnoughRoom(b, info, m, wide, start, end);
      StandsHeader(b, info, m, start, end);
    }
    PacketRight(b, 0, info, wide, NamesOf(m));
  }

  lemma {:induction false} StandsHeader(b: seq<byte>, info: NameInfo, m: Meaning, start: nat, end: nat)
    requires Stands(b, info, m, start, end) && !m.request.Syntax?
    ensures info.filetype == m.filetype && info.recordlen == m.recordlen
  {
  }

  /**
   A line is parsed and the packet assembled at the start of the same buffer. With one free byte for each
   name besides the header the packet is the one for what the line means. With less it is still what the
   assembly makes of the parsed buffer.
   */
  method SendName(buf: array<byte>, dlen: nat, inlen: nat, hint: Hint, wide: bool)
    returns (info: NameInfo, len: nat, fault: bool, ghost parsed: seq<byte>)
    requires dlen <= inlen < 256 && inlen < buf.Length && buf[inlen] == 0 && buf.Length >= 6
    requires hint.Command? ==> hint.cmdlen <= dlen
    modifies buf
    ensures !Parsable(old(buf[..]), dlen, inlen, hint) ==> fault
    ensures Parsable(old(buf[..]), dlen, inlen, hint) ==>
      var line := old(buf[..dlen]);
      var m := LineMeaning(hint, line);
      && Stands(parsed, info, m, inlen - dlen - 1 + Consumed(hint, line), inlen) && AccessIs(info, hint, line)
      && if m.request.Syntax? then !fault && info.cmd == CMD_SYNTAX
         else match AssemblePacket(parsed, 0, info, wide)
              case OutOfBuffer => fault
              case Assembled(c, end) => !fault && buf[..] == c && len == end % 256
    ensures Parsable(old(buf[..]), dlen, inlen, hint) ==>
      var line := old(buf[..dlen]);
      var m := LineMeaning(hint, line);
      !m.request.Syntax? && (IsDiskCopy(m) || RoomFor(hint, line, wide, inlen - dlen - 1)) ==>
        && !fault && (IsDiskCopy(m) ==> NamesOf(m) != [] || m.request.Copy?)
        && |MeaningPacket(m, wide)| <= buf.Length
        && len == |MeaningPacket(m, wide)| && buf[..len] == MeaningPacket(m, wide)
  {
    hide Parsable, LineMeaning, EncodePacket, Header, AssemblePacket, Put, Stands, Consumed, AccessIs;
    ghost var line := buf[..dlen];
    assert line == buf[..][..dlen];
    ghost var m := LineMeaning(hint, line);
    SomeNames(hint, line);
    info, fault := ParseFilename(buf, dlen, inlen, hint);
    len, parsed := 0, buf[..];
    if fault {
      return;
    }
    ghost var start := inlen - dlen - 1 + Consumed(hint, line);
    StandsSyntax(parsed, info, m, start, inlen);
    ConsumedPart(hint, line);
    if info.cmd != CMD_SYNTAX {
      var ok;
      ok, len := AssembleFilenamePacket(buf, 0, info, wide);
      fault := !ok;
      if IsDiskCopy(m) || RoomFor(hint, line, wide, inlen - dlen - 1) {
        MeaningRight(parsed, info, m, wide, start, inlen);
        PutStart(parsed, MeaningPacket(m, wide));
      }
    }
  }

  lemma {:induction false} StandsSyntax(b: seq<byte>, info: NameInfo, m: Meaning, start: nat, end: nat)
    requires Stands(b, info, m, start, end) && (m.cmd == CMD_SYNTAX ==> m.request.Syntax?)
    ensures info.cmd == CMD_SYNTAX <==> m.request.Syntax?
  {
  }

  lemma {:induction false} ConsumedPart(hint: Hint, line: seq<byte>)
    requires hint.Command? ==> hint.cmdlen <= |line|
    ensures Consumed(hint, line) <= |line|
  {
  }

  lemma {:induction false} PutStart(b: seq<byte>, s: seq<byte>)
    requires |s| <= |b|
    ensures Put(b, 0, s)[..|s|] == s
  {
    assert Put(b, 0, s)[..|s|] == Put(b, 0, s)[0..|s|];
  }

  /** A file name without anything that the parser looks for. */
  predicate PlainLine(line: seq<byte>) {
    && line != [] && 0 !in line && COLON !in line && COMMA !in line
    && line[0] != '@' as byte && line[|line| - 1] != CR
  }

  lemma {:induction false} PlainMeaning(line: seq<byte>)
    requires PlainLine(line)
    ensures LineMeaning(Open, line) ==
            Meaning(CMD_NONE, 0, 0, Request(Some(Name(NAMEINFO_UNUSED_DRIVE, None, line)), []))
  {
    FindAt(line, 0, |line|);
    FindAt(line, COLON, |line|);
    FindAt(line, COMMA, |line|);
    hide Find;
    assert Body(line) == line && UpToNul(line) == line && Segment(line) == line;
  }

  function PlainInfo(dlen: nat, free: nat): NameInfo {
    NameInfo(CMD_NONE, 0, false, 0, 0, Entry(NAMEINFO_UNUSED_DRIVE, None, Some(free), dlen), [])
  }

  lemma {:induction false} PlainStands(c: seq<byte>, line: seq<byte>, free: nat)
    requires CString(c, free, line) && PlainLine(line)
    ensures Stands(c, PlainInfo(|line|, free), LineMeaning(Open, line), free, free + |line| + 1)
  {
    hide LineMeaning;
    PlainMeaning(line);
    var n, info := Name(NAMEINFO_UNUSED_DRIVE, None, line), PlainInfo(|line|, free);
    assert Requested(Some(n), []) == [n] && Entries(info) == [info.trg];
    assert Holds(c, info.trg, n) && Within(info.trg, n, 0, free + |line| + 1);
  }

  lemma {:induction false} PlainPacket(line: seq<byte>, wide: bool)
    requires PlainLine(line)
    ensures MeaningPacket(LineMeaning(Open, line), wide) == [0] + EncodeName(Name(NAMEINFO_UNUSED_DRIVE, None, line))
  {
    hide LineMeaning, EncodeName;
    PlainMeaning(line);
    var n := Name(NAMEINFO_UNUSED_DRIVE, None, line);
    NameRooms.EncodeOnly(n);
    assert Requested(Some(n), []) == [n];
    assert Header(0, 0, wide) == [0];
  }

  lemma {:induction false} PlainAssembly(c: seq<byte>, dlen: nat, free: nat, wide: bool)
    requires |c| > 0
    ensures var info := PlainInfo(dlen, free);
      AssemblePacket(c, 0, info, wide) == Assemble(Put(c, 0, [0]), 1, info.trg)
  {
    hide Put, Assemble;
    var info := PlainInfo(dlen, free);
    assert Header(0, 0, wide) == [0];
    assert Entries(info) == [info.trg] + [] && [info.trg] == [info.trg] + [];
    AssembleStep(Put(c, 0, [0]), 1, info.trg, []);
  }

  /** No name of a line has an empty drive name. */
  lemma {:induction false} LineDrives(hint: Hint, line: seq<byte>)
    requires hint.Command? ==> hint.cmdlen <= |line|
    ensures NameRooms.DrivesNamed(NamesOf(LineMeaning(hint, line)))
  {
    if hint.Command? && IsBinary(hint.cmd) {
      BinaryName(hint.cmd, line[hint.cmdlen..]);
    } else {
      LineClean(hint, line);
    }
    hide CmdRequest, OpenParsed, ParseSegment, Segment, UpToNul, NulFree;
  }

  lemma {:induction false} BinaryName(cmd: byte, line: seq<byte>)
    requires IsBinary(cmd)
    ensures var r := CmdRequest(cmd, line); r.Request? && NameRooms.DrivesNamed(Requested(r.trg, r.files))
  {
  }

  /** The packet of a request is its header and its names, and so is what is assembled. */
  lemma {:induction false} RequestPacket(b: seq<byte>, info: NameInfo, m: Meaning, wide: bool, start: nat, end: nat)
    requires Stands(b, info, m, start, end) && m.request.Request? && !IsDiskCopy(m)
    ensures var header := Header(m.filetype, m.recordlen, wide);
      && MeaningPacket(m, wide) == header + EncodeNames(NamesOf(m))
      && HoldAll(b, Entries(info), NamesOf(m)) && Chain(Entries(info), NamesOf(m), start)
      && (|header| <= |b| ==> AssemblePacket(b, 0, info, wide) == AssembleAll(Put(b, 0, header), |header|, Entries(info)))
  {
    hide Holds, EncodeNames, Header, Put, AssembleAll, Chain, Within;
    assert DiskCopy(info) == IsDiskCopy(m);
  }

  /**
   For every line that is no disk copy, on the buffer as it has been parsed: exactly when the packet comes out
   right. Without named drives: if each byte that is written over before it has been copied is written over by
   itself. With any drives, if the header ends in front of the names and none begins with its drive's number:
   if each name is clear of what is written before it has been read.
   */
  lemma {:induction false} LineExact(b: seq<byte>, info: NameInfo, hint: Hint, line: seq<byte>, wide: bool, start: nat, end: nat)
    requires hint.Command? ==> hint.cmdlen <= |line|
    requires var m := LineMeaning(hint, line);
      && m.request.Request? && !IsDiskCopy(m) && Stands(b, info, m, start, end) && |MeaningPacket(m, wide)| <= |b|
    ensures var m := LineMeaning(hint, line);
      var header, es, ns, packet := Header(m.filetype, m.recordlen, wide), Entries(info), NamesOf(m), MeaningPacket(m, wide);
      && |es| == |ns| && packet == header + EncodeNames(ns)
      && (NameRooms.Unnamed(es) ==>
            (AssemblePacket(b, 0, info, wide) == Assembled(Put(b, 0, packet), |packet|)
             <==> NameRooms.Kept(b, header, es, ns)))
      && (|header| <= start && NameRooms.AllMarked(ns) ==>
            (AssemblePacket(b, 0, info, wide) == Assembled(Put(b, 0, packet), |packet|) <==> Room(|header|, es, ns)))
  {
    var m := LineMeaning(hint, line);
    LineDrives(hint, line);
    RequestPacket(b, info, m, wide, start, end);
    hide *;
    var header, es, ns := Header(m.filetype, m.recordlen, wide), Entries(info), NamesOf(m);
    if NameRooms.Unnamed(es) {
      NameRooms.ListExact(b, header, es, ns);
    }
    if |header| <= start && NameRooms.AllMarked(ns) {
      NameRooms.HeaderExact(b, header, es, ns, start);
    }
  }

  /**
   For every plain file name, exactly when its packet comes out right: with two free bytes or more, or with
   one if it begins with 255. So the line "A" with one free byte fails.
   */
  lemma {:induction false} PlainLineExact(b: seq<byte>, dlen: nat, inlen: nat, wide: bool)
    requires dlen < inlen <= |b| && dlen + 3 <= |b| && PlainLine(b[..dlen])
    ensures var line, free, c := b[..dlen], inlen - dlen - 1, Moved(b, dlen, inlen);
      var packet := MeaningPacket(LineMeaning(Open, line), wide);
      && Stands(c, PlainInfo(dlen, free), LineMeaning(Open, line), free, inlen) && |packet| <= |c|
      && (AssemblePacket(c, 0, PlainInfo(dlen, free), wide) == Assembled(Put(c, 0, packet), |packet|)
          <==> free >= 2 || (free == 1 && line[0] == NAMEINFO_UNUSED_DRIVE))
  {
    hide LineMeaning, MeaningPacket, Put, Assemble, AssemblePacket, Stands, Moved;
    var line, free, c := b[..dlen], inlen - dlen - 1, Moved(b, dlen, inlen);
    MovedLine(b, dlen, inlen);
    PlainStands(c, line, free);
    PlainPacket(line, wide);
    PlainAssembly(c, dlen, free, wide);
    NameRooms.PlainNameExact(c, line, free);
  }

  lemma {:induction false} MovedLine(b: seq<byte>, dlen: nat, inlen: nat)
    requires dlen < inlen <= |b| && 0 !in b[..dlen]
    ensures CString(Moved(b, dlen, inlen), inlen - dlen - 1, b[..dlen]) && |Moved(b, dlen, inlen)| == |b|
  {
    var diff, c := inlen - dlen - 1, Moved(b, dlen, inlen);
    assert c[diff..diff + dlen] == b[..dlen];
  }

  lemma {:induction false} FilesClean(cmd: byte, driveno: byte, text: seq<byte>, room: nat)
    requires NulFree(text) && driveno != NAMEINFO_UNDEF_DRIVE
    ensures var r := FileNames(cmd, driveno, Some(text), room);
      r.Some? ==> AllClean(r.value)
    decreases room
  {
    hide ParseSegment, Clean, Segment, AfterComma, WithDrive, Find, Join, AllClean, FileNames, NulFree;
    FirstFile(cmd, driveno, text, room);
    if room > 0 {
      var n, rest := ParseSegment(Segment(text)), AfterComma(text);
      var more := FileNames(cmd, driveno, rest, room - 1);
      SegmentText(text);
      SegmentClean(Segment(text));
      RedirectClean(cmd, driveno, n);
      if rest.Some? {
        FilesClean(cmd, driveno, rest.value, room - 1);
      } else {
        NoneClean(cmd, driveno, room - 1);
      }
      JoinClean(WithDrive(cmd, driveno, n), more);
    }
  }

  lemma {:induction false} NoneClean(cmd: byte, driveno: byte, room: nat)
    ensures FileNames(cmd, driveno, None, room) == Some([]) && AllClean([])
  {
  }

  lemma {:induction false} FirstFile(cmd: byte, driveno: byte, text: seq<byte>, room: nat)
    ensures FileNames(cmd, driveno, Some(text), room) ==
            if room == 0 then None else
            Join([WithDrive(cmd, driveno, ParseSegment(Segment(text)))], FileNames(cmd, driveno, AfterComma(text), room - 1))
  {
    hide Join, WithDrive, ParseSegment, Segment, AfterComma;
  }

  lemma {:induction false} JoinClean(n: Name, more: Option<seq<Name>>)
    requires Clean(n) && (more.Some? ==> AllClean(more.value))
    ensures Join([n], more).Some? ==> AllClean(Join([n], more).value)
  {
    hide Clean;
  }

  lemma {:induction false} RedirectClean(cmd: byte, driveno: byte, n: Name)
    requires Clean(n) && driveno != NAMEINFO_UNDEF_DRIVE
    ensures Clean(WithDrive(cmd, driveno, n))
  {
  }

  lemma {:induction false} UpToNulClean(s: seq<byte>)
    ensures NulFree(UpToNul(s))
  {
  }

  /** All names of a command that is not binary survive the transport. */
  lemma {:induction false} CommandClean(cmd: byte, line: seq<byte>)
    requires !IsBinary(cmd)
    ensures var r := CmdRequest(cmd, line);
      r.Request? ==> AllClean(Requested(r.trg, r.files))
  {
    hide FileNames, Find, ParseSegment, Spaces, Segment, UpToNul, NulFree;
    var text := Text(line);
    UpToNulClean(line[Spaces(line)..]);
    FilesClean(cmd, NAMEINFO_UNUSED_DRIVE, text, MAX_NAMEINFO_FILES);
    var eq := Find(text, EQUALS);
    if eq < |text| {
      SplitClean(text, eq);
      var seg := Segment(text[..eq]);
      SegmentText(text[..eq]);
      SegmentClean(seg);
      var trg := ParseSegment(seg);
      var driveno := if trg.drive != NAMEINFO_UNDEF_DRIVE then trg.drive else NAMEINFO_UNUSED_DRIVE;
      FilesClean(cmd, driveno, text[eq + 1..], MAX_NAMEINFO_FILES);
    }
  }

  lemma {:induction false} SplitClean(text: seq<byte>, k: nat)
    requires NulFree(text) && k < |text|
    ensures NulFree(text[..k]) && NulFree(text[k + 1..])
  {
  }

  lemma {:induction false} SegmentText(text: seq<byte>)
    requires NulFree(text)
    ensures NulFree(Segment(text)) && (AfterComma(text).Some? ==> NulFree(AfterComma(text).value))
  {
    hide Find;
  }

  lemma {:induction false} LineClean(hint: Hint, line: seq<byte>)
    requires hint.Command? ==> hint.cmdlen <= |line| && !IsBinary(hint.cmd)
    ensures AllClean(NamesOf(LineMeaning(hint, line)))
  {
    hide CmdRequest, OpenParsed, ParseSegment, Segment, Clean, UpToNul, NulFree;
    if hint.Command? {
      CommandClean(hint.cmd, line[hint.cmdlen..]);
    } else if IsDirectory(hint, line) {
      CommandClean(CMD_DIR, line[1..]);
    } else {
      UpToNulClean(Body(line));
      SegmentText(UpToNul(Body(line)));
      SegmentClean(Segment(UpToNul(Body(line))));
    }
  }

  /**
   The server reads from the packet exactly what the firmware parsed: the names with their drives, the file
   type and the record length. It fails for a record length of 32768 or more where an int has 16 bits only.
   */
  lemma {:induction false} LineDelivered(hint: Hint, line: seq<byte>, wide: bool)
    requires hint.Command? ==> hint.cmdlen <= |line| && !IsBinary(hint.cmd)
    requires var m := LineMeaning(hint, line); m.request.Request? && !IsDiskCopy(m)
    ensures var m := LineMeaning(hint, line);
      ParsePacket(MeaningPacket(m, wide), MAX_NAMEINFO_FILES + 1) ==
      Parsed(OpenPars(TypeCode(m.filetype), m.recordlen), NamesOf(m))
      <==> wide || m.recordlen < 32768
  {
    hide CmdRequest, OpenParsed, ParsePacket, EncodePacket, Clean;
    var m := LineMeaning(hint, line);
    LineClean(hint, line);
    if hint.Command? {
      CommandCount(hint.cmd, line[hint.cmdlen..]);
    } else if IsDirectory(hint, line) {
      CommandCount(CMD_DIR, line[1..]);
    } else {
      OpenSound(line);
    }
    PacketRead(m.filetype, m.recordlen, wide, NamesOf(m), MAX_NAMEINFO_FILES + 1);
  }

  /**
   The packet of a disk copy has no option string, so that its target is taken for one and never becomes a
   name. A target drive 0 is taken for an empty one; then the '*' behind it becomes a drive.
   */
  lemma {:induction false} DiskCopyMisread(to: byte, from: byte, room: nat)
    requires room >= 2
    ensures ParsePacket([to, STAR, 0, from, STAR, 0], room) ==
            Parsed(NO_PARS, if to == 0 then [Name(STAR, None, []), Name(from, None, [STAR])] else [Name(from, None, [STAR])])
  {
    hide TakeNames, TakeName, OptionsFrom;
    var s := [to, STAR, 0, from, STAR, 0];
    TakeStar(from, room);
    CopyOptions(to, from);
    if to == 0 {
      FindAt(s, 0, 0);
      assert s[1..] == [STAR] + [0, from, STAR, 0];
      TakeBeforeStar(from, room);
    } else {
      FindAt(s, 0, 2);
      assert s[3..] == [from, STAR, 0];
    }
  }

  lemma {:induction false} CopyOptions(to: byte, from: byte)
    ensures OptionsFrom([to, STAR, 0, from, STAR, 0], 0, NO_PARS) == NO_PARS
  {
  }

  lemma {:induction false} TakeStar(from: byte, room: nat)
    requires room > 0
    ensures TakeNames([from, STAR, 0], room) == Some([Name(from, None, [STAR])])
    ensures room > 1 ==> TakeNames([from, STAR, 0], room - 1) == Some([Name(from, None, [STAR])])
  {
    hide TakeName;
    var rest, n := [from, STAR, 0], Name(from, None, [STAR]);
    FindAt([STAR, 0], 0, 1);
    TakeFirst(from, [STAR, 0]);
    assert rest == [from] + [STAR, 0] && [STAR, 0][..1] == [STAR];
    SplitPlain(from, [STAR]);
    assert rest[3..] == [] && [n] + [] == [n];
    assert TakeNames(rest[3..], room - 1) == Some([]);
    assert room > 1 ==> TakeNames(rest[3..], room - 2) == Some([]);
  }

  lemma {:induction false} TakeBeforeStar(from: byte, room: nat)
    requires room >= 2
    ensures TakeNames([STAR] + [0, from, STAR, 0], room) == Some([Name(STAR, None, []), Name(from, None, [STAR])])
  {
    hide TakeName;
    var rest, more, n := [STAR] + [0, from, STAR, 0], [0, from, STAR, 0], Name(STAR, None, []);
    FindAt(more, 0, 0);
    TakeFirst(STAR, more);
    assert more[..0] == [];
    SplitPlain(STAR, []);
    assert rest[2..] == [from, STAR, 0];
    TakeStar(from, room);
    assert [n] + [Name(from, None, [STAR])] == [n, Name(from, None, [STAR])];
  }

  /** The two drives of a disk copy. */
  function CopyDrives(m: Meaning): (byte, byte)
    requires IsDiskCopy(m) && (m.request.Copy? || NamesOf(m) != [])
  {
    if m.request.Copy? then (m.request.to, m.request.from) else (NAMEINFO_UNUSED_DRIVE, NamesOf(m)[0].drive)
  }

  /**
   No disk copy is delivered, in either form: the server never has the two drives with their '*', and of a
   DUPLICATE with names not even a target.
   */
  lemma {:induction false} DiskCopyNeverDelivered(m: Meaning, wide: bool, room: nat)
    requires IsDiskCopy(m) && (m.request.Copy? || NamesOf(m) != []) && room >= 2
    ensures var (to, from) := CopyDrives(m);
      && ParsePacket(MeaningPacket(m, wide), room) ==
         Parsed(NO_PARS, if to == 0 then [Name(STAR, None, []), Name(from, None, [STAR])] else [Name(from, None, [STAR])])
      && (forall pars :: ParsePacket(MeaningPacket(m, wide), room) != Parsed(pars, [Name(to, None, [STAR]), Name(from, None, [STAR])]))
      && (m.request.Request? ==> |ParsePacket(MeaningPacket(m, wide), room).names| == 1)
  {
    var (to, from) := CopyDrives(m);
    DiskCopyMisread(to, from, room);
    var got, meant := ParsePacket(MeaningPacket(m, wide), room), [Name(to, None, [STAR]), Name(from, None, [STAR])];
    assert got.names != meant by {
      assert to == 0 ==> got.names[0].drive != meant[0].drive;
    }
  }

  /**
   The whole way: from the command buffer into the server's list of names. What the line means arrives
   whenever there is room, unless it is a disk copy or its record length is not printed as it is.
   */
  method Deliver(buf: array<byte>, dlen: nat, inlen: nat, hint: Hint, wide: bool)
    returns (ok: bool, pars: OpenPars, names: seq<Entry>, packet: array<byte>)
    requires dlen <= inlen < 256 && inlen < buf.Length && buf[inlen] == 0 && buf.Length >= 6
    requires hint.Command? ==> hint.cmdlen <= dlen && !IsBinary(hint.cmd)
    modifies buf
    ensures fresh(packet)
    ensures var line := old(buf[..dlen]);
      var m := LineMeaning(hint, line);
      && Parsable(old(buf[..]), dlen, inlen, hint) && RoomFor(hint, line, wide, inlen - dlen - 1)
      && m.request.Request? && !IsDiskCopy(m) && (wide || m.recordlen < 32768)
      ==> ok && pars == OpenPars(TypeCode(m.filetype), m.recordlen) && HoldAll(packet[..], names, NamesOf(m))
  {
    hide LineMeaning, Parsable, RoomFor, MeaningPacket, Header, TypeCode, ParsePacket, Holds, AssemblePacket;
    ghost var line := buf[..dlen];
    ghost var m := LineMeaning(hint, line);
    var info, len, fault;
    ghost var parsed;
    info, len, fault, parsed := SendName(buf, dlen, inlen, hint, wide);
    ok, pars, names := false, NO_PARS, [];
    if dlen < inlen {
      StandsAtAll(parsed, info, m, inlen - dlen - 1 + Consumed(hint, line), inlen);
    }
    if fault || info.cmd == CMD_SYNTAX || len > buf.Length {
      packet := new byte[0];
      return;
    }
    packet := new byte[len](i requires 0 <= i < buf.Length reads buf => buf[i]);
    assert packet[..] == buf[..len];
    if m.request.Request? && !IsDiskCopy(m) {
      LineDelivered(hint, line, wide);
    }
    assert packet[0..0 + len] == packet[..];
    ok, pars, names := ParseFilenamePacket(packet, 0, len, MAX_NAMEINFO_FILES + 1);
  }

  lemma {:induction false} StandsAtAll(b: seq<byte>, info: NameInfo, m: Meaning, start: nat, end: nat)
    ensures Stands(b, info, m, start, end) && !m.request.Syntax? ==> info.cmd == m.cmd
  {
  }
}
