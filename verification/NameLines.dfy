/**
 Requests as they are written on a line: printing a request and parsing the line gives the request again,
 and the server gets it. The printed forms use literal characters only.
 */
module NameLines {
  import opened Wire
  import opened Names
  import opened NamePackets
  import opened NameAssembly
  import opened NameParsing
  import opened NameRuns

  // ---------------------------------------------------------------------------------------
  // Numbers

  /** Decimal numbers have their digits' usual values and weights. */
  lemma {:induction false} DecimalDigits(n: nat, digits: seq<byte>, c: byte)
    requires forall k :: 0 <= k < |digits| ==> IsDigit(digits[k])
    requires 48 <= c <= 57
    ensures DigitsValue([]) == 0 && DigitsValue(digits + [c]) == 10 * DigitsValue(digits) + (c as nat - 48)
    ensures Decimal(n) == if n <= 9 then [48 + n] else Decimal(n / 10) + [48 + n % 10]
    ensures IsDigit(c) && Decimal(254) == [50, 53, 52]
  {
    assert (digits + [c])[..|digits|] == digits;
    assert Decimal(2) == [50] && Decimal(25) == Decimal(2) + [53] && Decimal(254) == Decimal(25) + [52];
  }

  /** Spaces, a sign or none, and digits: what strtol takes for a number. */
  ghost predicate Spelled(ws: seq<byte>, sign: seq<byte>, digits: seq<byte>) {
    && (forall k :: 0 <= k < |ws| ==> ws[k] == 32 || 9 <= ws[k] <= 13)
    && sign in {[], [MINUS], [PLUS]}
    && digits != [] && forall k :: 0 <= k < |digits| ==> IsDigit(digits[k])
  }

  lemma {:induction false} SpacesOf(ws: seq<byte>, rest: seq<byte>)
    requires forall k :: 0 <= k < |ws| ==> IsSpace(ws[k])
    requires rest != [] ==> !IsSpace(rest[0])
    ensures Spaces(ws + rest) == |ws|
  {
    if ws == [] {
      assert ws + rest == rest;
    } else {
      assert (ws + rest)[1..] == ws[1..] + rest;
      SpacesOf(ws[1..], rest);
    }
  }

  lemma {:induction false} ScanSpelled(ws: seq<byte>, sign: seq<byte>, digits: seq<byte>)
    requires Spelled(ws, sign, digits)
    ensures var v: int := DigitsValue(digits); var p := ws + sign + digits;
      ScanNumber(p) == (if sign == [MINUS] then -v else v, |p|)
  {
    hide DigitsValue, ScanNumber, Spaces, Digits;
    var p := ws + sign + digits;
    assert p == ws + (sign + digits);
    assert IsDigit(digits[0]);
    assert (sign + digits)[0] == if sign == [] then digits[0] else sign[0];
    SpacesOf(ws, sign + digits);
    DigitsOf(digits);
    assert p[|ws|] == (sign + digits)[0] && p[|ws| + |sign|..] == digits;
    ScanFrom(p, |ws|, sign, digits);
  }

  lemma {:induction false} ScanFrom(p: seq<byte>, i: nat, sign: seq<byte>, digits: seq<byte>)
    requires i + |sign| < |p| && Spaces(p) == i && p[i + |sign|..] == digits && Digits(digits) == |digits|
    requires p[i] == if sign == [] then digits[0] else sign[0]
    requires sign in {[], [MINUS], [PLUS]} && forall k :: 0 <= k < |digits| ==> IsDigit(digits[k])
    ensures var v: int := DigitsValue(digits); ScanNumber(p) == (if sign == [MINUS] then -v else v, |p|)
  {
    hide Spaces, Digits, DigitsValue;
    assert IsDigit(digits[0]);
    assert p[i + |sign|..|p|] == digits;
  }

  /** A number that is scanned to the end is spelled so. */
  lemma {:induction false} ScannedSpelled(p: seq<byte>) returns (ws: seq<byte>, sign: seq<byte>, digits: seq<byte>)
    requires p != [] && ScanNumber(p).1 == |p|
    ensures Spelled(ws, sign, digits) && p == ws + sign + digits
  {
    var i := Spaces(p);
    var j := if i < |p| && (p[i] == MINUS || p[i] == PLUS) then i + 1 else i;
    ws, sign, digits := p[..i], p[i..j], p[j..];
    hide Spaces, Digits, DigitsValue;
    assert sign == if j == i then [] else [p[i]];
    assert forall k :: 0 <= k < |digits| ==> digits[k] == p[j..][k];
  }

  // ---------------------------------------------------------------------------------------
  // Drives

  /** strtol's result in a long of 32 bits, and what a byte keeps of it. */
  function Kept(v: int): int {
    (if v > 2147483647 then 2147483647 else if v < -2147483648 then -2147483648 else v) % 256
  }

  /** Text that is a number. */
  ghost predicate IsNumber(p: seq<byte>) {
    exists ws, sign, digits :: Spelled(ws, sign, digits) && p == ws + sign + digits
  }

  lemma {:induction false} ColonFirst(p: seq<byte>, t: seq<byte>)
    requires COLON !in p
    ensures Find(p + [58] + t, COLON) == |p|
    ensures (p + [58] + t)[..|p|] == p && (p + [58] + t)[|p| + 1..] == t
  {
    var s := p + [58] + t;
    assert s[..|p|] == p;
    FindAt(s, COLON, |p|);
  }

  /**
   A number in front of the colon is the drive if the byte that is kept of it is at most 9; otherwise it is
   the name of a drive.
   */
  lemma {:induction false} NumberedDrive(ws: seq<byte>, sign: seq<byte>, digits: seq<byte>, t: seq<byte>)
    requires Spelled(ws, sign, digits)
    ensures var p := ws + sign + digits;
      var v := if sign == [MINUS] then -(DigitsValue(digits) as int) else DigitsValue(digits);
      ParseSegment(p + [58] + t) == if Kept(v) <= 9 then Name(Kept(v), None, DropCr(t)) else Name(0xfe, Some(p), DropCr(t))
  {
    hide Find, ScanNumber, DigitsValue;
    var p := ws + sign + digits;
    assert IsDigit(digits[0]) && !IsDigit(COLON);
    assert COLON !in p by {
      assert forall k :: 0 <= k < |digits| ==> IsDigit(digits[k]) && digits[k] != COLON;
    }
    ScanSpelled(ws, sign, digits);
    ColonFirst(p, t);
  }

  /** The digit n in front of the colon is drive n. */
  lemma {:induction false} DigitDrive(n: nat, t: seq<byte>)
    requires n <= 9
    ensures ParseSegment([48 + n, 58] + t) == Name(n, None, DropCr(t))
  {
    hide *;
    var d: seq<byte> := [48 + n];
    OneDigit(n);
    assert [] + [] + d == d && d + [58] + t == [48 + n, 58] + t;
    NumberedDrive([], [], d, t);
  }

  lemma {:induction false} OneDigit(n: nat)
    requires n <= 9
    ensures Spelled([], [], [48 + n]) && DigitsValue([48 + n]) == n && Kept(n) == n
  {
  }

  /** Other text in front of the colon is the name of a drive. */
  lemma {:induction false} NamedDrive(p: seq<byte>, t: seq<byte>)
    requires p != [] && COLON !in p && !IsNumber(p)
    ensures ParseSegment(p + [58] + t) == Name(0xfe, Some(p), DropCr(t))
  {
    hide Find, ScanNumber;
    ColonFirst(p, t);
    if ScanNumber(p).1 == |p| {
      var ws, sign, digits := ScannedSpelled(p);
    }
  }

  // ---------------------------------------------------------------------------------------
  // Names

  /** A name as it is written: behind a drive number, a drive name or a single colon, or without any. */
  function Show(n: Name): seq<byte> {
    (if n.drive <= 9 then [48 + n.drive, 58]
     else if n.drive == 0xfd then [58]
     else if n.drivename.Some? then n.drivename.value + [58]
     else [])
    + n.name
  }

  /** A name that can be written so. */
  ghost predicate Showable(n: Name) {
    && 0 !in n.name && COMMA !in n.name && (n.name != [] ==> n.name[|n.name| - 1] != CR)
    && if n.drive <= 9 || n.drive == 0xfd then n.drivename == None
       else if n.drive == 0xff then n.drivename == None && COLON !in n.name
       else n.drive == 0xfe && n.drivename.Some?
            && var d := n.drivename.value;
               d != [] && 0 !in d && COLON !in d && COMMA !in d && !IsNumber(d)
  }

  ghost predicate AllShowable(ns: seq<Name>) {
    forall k :: 0 <= k < |ns| ==> Showable(ns[k])
  }

  /** Reading a name back. */
  lemma {:induction false} ShownParsed(n: Name)
    requires Showable(n)
    ensures ParseSegment(Show(n)) == n
  {
    hide IsNumber, Find, ParseSegment;
    var t := n.name;
    assert DropCr(t) == t;
    if n.drive <= 9 {
      DigitDrive(n.drive, t);
    } else if n.drive == 0xfd {
      ColonOnly(t);
      assert [58] + t == Show(n);
    } else if n.drive == 0xff {
      PlainName(t);
      assert Show(n) == t;
    } else {
      NamedDrive(n.drivename.value, t);
    }
  }

  lemma {:induction false} ShownClean(n: Name)
    requires Showable(n)
    ensures 0 !in Show(n) && COMMA !in Show(n)
  {
    hide IsNumber;
  }

  lemma {:induction false} ColonOnly(t: seq<byte>)
    ensures ParseSegment([58] + t) == Name(0xfd, None, DropCr(t))
  {
    hide Find, DropCr, DriveNumber;
    assert [] + [58] + t == [58] + t && ([58] + t)[1..] == t;
    ColonFirst([], t);
  }

  lemma {:induction false} PlainName(t: seq<byte>)
    requires COLON !in t
    ensures ParseSegment(t) == Name(0xff, None, DropCr(t))
  {
    hide Find, DropCr, DriveNumber;
    FindAt(t, COLON, |t|);
  }

  /** Names with commas between them. */
  function ShowList(ns: seq<Name>): seq<byte>
    requires ns != []
  {
    if |ns| == 1 then Show(ns[0]) else Show(ns[0]) + [44] + ShowList(ns[1..])
  }

  /** These are the names ns, those without a drive on the default drive; in an ASSIGN only behind a single colon. */
  predicate OnDefault(files: seq<Name>, ns: seq<Name>, cmd: byte, driveno: byte) {
    && |files| == |ns|
    && forall k :: 0 <= k < |ns| ==>
         files[k] == if ns[k].drive == 0xfd || (ns[k].drive == 0xff && cmd != CMD_ASSIGN) then ns[k].(drive := driveno) else ns[k]
  }

  lemma {:induction false} CommaFirst(p: seq<byte>, t: seq<byte>)
    requires COMMA !in p
    ensures Segment(p + [44] + t) == p && AfterComma(p + [44] + t) == Some(t)
    ensures Segment(p) == p && AfterComma(p) == None
  {
    hide Find;
    var s := p + [44] + t;
    assert s[..|p|] == p && s[|p| + 1..] == t;
    FindAt(s, COMMA, |p|);
    FindAt(p, COMMA, |p|);
  }

  /** Reading a list back: up to as many names as there is room for. */
  lemma {:induction false} ListParsed(cmd: byte, driveno: byte, ns: seq<Name>, room: nat)
    requires ns != [] && AllShowable(ns)
    ensures var r := FileNames(cmd, driveno, Some(ShowList(ns)), room);
      if |ns| <= room then r.Some? && OnDefault(r.value, ns, cmd, driveno) else r.None?
    decreases room
  {
    hide *;
    if room == 0 {
      NoRoom(cmd, driveno, ShowList(ns));
    } else {
      ListBegins(ns);
      if |ns| == 1 {
        LastName(cmd, driveno, ShowList(ns), room, ns);
      } else {
        ListParsed(cmd, driveno, ns[1..], room - 1);
        FirstName(cmd, driveno, ShowList(ns), room, ns);
      }
    }
  }

  lemma {:induction false} ListBegins(ns: seq<Name>)
    requires ns != [] && AllShowable(ns)
    ensures ParseSegment(Segment(ShowList(ns))) == ns[0]
    ensures if |ns| == 1 then AfterComma(ShowList(ns)) == None
            else AfterComma(ShowList(ns)) == Some(ShowList(ns[1..])) && AllShowable(ns[1..])
  {
    hide Show, Segment, AfterComma, ParseSegment, Showable;
    ShownParsed(ns[0]);
    ShownClean(ns[0]);
    CommaFirst(Show(ns[0]), if |ns| == 1 then [] else ShowList(ns[1..]));
  }

  lemma {:induction false} NoRoom(cmd: byte, driveno: byte, text: seq<byte>)
    ensures FileNames(cmd, driveno, Some(text), 0).None?
  {
  }

  lemma {:induction false} LastName(cmd: byte, driveno: byte, text: seq<byte>, room: nat, ns: seq<Name>)
    requires room > 0 && |ns| == 1 && ParseSegment(Segment(text)) == ns[0] && AfterComma(text) == None
    ensures var r := FileNames(cmd, driveno, Some(text), room); r.Some? && OnDefault(r.value, ns, cmd, driveno)
  {
    hide Segment, AfterComma, ParseSegment;
  }

  lemma {:induction false} FirstName(cmd: byte, driveno: byte, text: seq<byte>, room: nat, ns: seq<Name>)
    requires room > 0 && |ns| > 1 && ParseSegment(Segment(text)) == ns[0] && AfterComma(text) == Some(ShowList(ns[1..]))
    requires var r := FileNames(cmd, driveno, Some(ShowList(ns[1..])), room - 1);
      if |ns| - 1 <= room - 1 then r.Some? && OnDefault(r.value, ns[1..], cmd, driveno) else r.None?
    ensures var r := FileNames(cmd, driveno, Some(text), room);
      if |ns| <= room then r.Some? && OnDefault(r.value, ns, cmd, driveno) else r.None?
  {
    hide Segment, AfterComma, ParseSegment, ShowList;
    var more := FileNames(cmd, driveno, Some(ShowList(ns[1..])), room - 1);
    hide FileNames;
    FileNamesStep(cmd, driveno, text, room);
    if |ns| <= room {
      var files := [WithDrive(cmd, driveno, ns[0])] + more.value;
      forall k | 0 < k < |ns|
        ensures files[k] == more.value[k - 1] && ns[k] == ns[1..][k - 1]
      {
      }
    }
  }

  lemma {:induction false} FileNamesStep(cmd: byte, driveno: byte, text: seq<byte>, room: nat)
    requires room > 0 && AfterComma(text).Some?
    ensures FileNames(cmd, driveno, Some(text), room)
         == Join([WithDrive(cmd, driveno, ParseSegment(Segment(text)))], FileNames(cmd, driveno, AfterComma(text), room - 1))
  {
  }

  // ---------------------------------------------------------------------------------------
  // Commands

  /** Leading spaces, and text behind them that does not begin with one. */
  ghost predicate Indented(ws: seq<byte>, text: seq<byte>) {
    && (forall k :: 0 <= k < |ws| ==> ws[k] == 32 || 9 <= ws[k] <= 13)
    && (text != [] ==> !IsSpace(text[0])) && 0 !in text
  }

  lemma {:induction false} TextIs(ws: seq<byte>, text: seq<byte>)
    requires Indented(ws, text)
    ensures Text(ws + text) == text
  {
    hide Find;
    SpacesOf(ws, text);
    hide Spaces;
    assert (ws + text)[|ws|..] == text;
    FindAt(text, 0, |text|);
    assert text[..|text|] == text;
  }

  lemma {:induction false} ListClean(ns: seq<Name>)
    requires ns != [] && AllShowable(ns)
    ensures 0 !in ShowList(ns)
  {
    hide Show, Showable;
    ShownClean(ns[0]);
    if |ns| > 1 {
      ListClean(ns[1..]);
    }
  }

  /** "t=s" with two digits. */
  predicate DigitPair(text: seq<byte>) {
    |text| == 3 && 48 <= text[0] <= 57 && text[1] == 61 && 48 <= text[2] <= 57
  }

  /**
   A command with a list of names, other than those with a target: up to four names come back, drives and all;
   more are a syntax error.
   */
  lemma {:induction false} ListCommand(cmd: byte, ws: seq<byte>, ns: seq<Name>)
    requires cmd !in {CMD_POSITION, CMD_TIME, CMD_ASSIGN, CMD_RENAME, CMD_COPY}
    requires ns != [] && AllShowable(ns) && Indented(ws, ShowList(ns))
    requires var text := ShowList(ns);
      && (cmd == CMD_DIR ==> text != [] && !(|text| == 1 && 48 <= text[0] <= 57))
      && (cmd == CMD_DUPLICATE ==> !DigitPair(text))
    ensures var r := CmdRequest(cmd, ws + ShowList(ns));
      if |ns| <= 4 then r.Request? && r.trg == None && OnDefault(r.files, ns, cmd, 0xff) else r.Syntax?
  {
    hide ShowList, FileNames, OnDefault, Text;
    TextIs(ws, ShowList(ns));
    ListParsed(cmd, 0xff, ns, 4);
  }

  /** A command with a target: the names without a drive are on the target's one, if that has a number. */
  lemma {:induction false} TargetCommand(cmd: byte, ws: seq<byte>, trg: Name, ns: seq<Name>)
    requires cmd in {CMD_ASSIGN, CMD_RENAME, CMD_COPY} && ns != [] && AllShowable(ns)
    requires Showable(trg) && EQUALS !in Show(trg)
    requires Indented(ws, Show(trg) + [61] + ShowList(ns))
    requires cmd == CMD_COPY ==> !DigitPair(Show(trg) + [61] + ShowList(ns))
    ensures var r := CmdRequest(cmd, ws + (Show(trg) + [61] + ShowList(ns)));
      if |ns| <= 4 then
        r.Request? && r.trg == Some(trg) && OnDefault(r.files, ns, cmd, if trg.drive == 0xfe then 0xff else trg.drive)
      else r.Syntax?
  {
    hide ShowList, FileNames, OnDefault, Text, Find, Show, Showable, ParseSegment, Segment, SplitRequest;
    var text := Show(trg) + [61] + ShowList(ns);
    TextIs(ws, text);
    TargetSplit(cmd, trg, ns);
  }

  lemma {:induction false} TargetSplit(cmd: byte, trg: Name, ns: seq<Name>)
    requires ns != [] && AllShowable(ns) && Showable(trg) && EQUALS !in Show(trg)
    ensures var r := SplitRequest(cmd, Show(trg) + [61] + ShowList(ns));
      if |ns| <= 4 then
        r.Request? && r.trg == Some(trg) && OnDefault(r.files, ns, cmd, if trg.drive == 0xfe then 0xff else trg.drive)
      else r.Syntax?
  {
    hide ShowList, FileNames, OnDefault, Find, Show, Showable, ParseSegment, Segment, AfterComma;
    var text, e := Show(trg) + [61] + ShowList(ns), |Show(trg)|;
    assert text[..e] == Show(trg) && text[e + 1..] == ShowList(ns);
    FindAt(text, EQUALS, e);
    ShownParsed(trg);
    ShownClean(trg);
    CommaFirst(Show(trg), []);
    ListParsed(cmd, if trg.drive == 0xfe then 0xff else trg.drive, ns, 4);
  }

  /** Such a command without '=' is a syntax error. */
  lemma {:induction false} NoTarget(cmd: byte, ws: seq<byte>, text: seq<byte>)
    requires cmd in {CMD_ASSIGN, CMD_RENAME, CMD_COPY} && EQUALS !in text && Indented(ws, text)
    ensures CmdRequest(cmd, ws + text) == Syntax
  {
    hide Text, Find, FileNames;
    TextIs(ws, text);
    FindAt(text, EQUALS, |text|);
  }

  /** A directory of everything, or of one drive; a copy of a whole disk. */
  lemma {:induction false} ShortForms(cmd: byte, ws: seq<byte>, d: nat, e: nat)
    requires Indented(ws, []) && d <= 9 && e <= 9
    ensures CmdRequest(CMD_DIR, ws) == Request(None, [Name(0xff, None, [])])
    ensures CmdRequest(CMD_DIR, ws + [48 + d]) == Request(None, [Name(d, None, [])])
    ensures cmd in {CMD_DUPLICATE, CMD_COPY} ==> CmdRequest(cmd, ws + [48 + d, 61, 48 + e]) == Copy(d, e)
  {
    hide Text, FileNames, SplitRequest;
    assert ws + [] == ws;
    TextIs(ws, []);
    TextIs(ws, [48 + d]);
    TextIs(ws, [48 + d, 61, 48 + e]);
  }

  /** The binary commands: everything behind the spaces is the parameter. */
  lemma {:induction false} BinaryCommand(cmd: byte, ws: seq<byte>, parameter: seq<byte>)
    requires cmd in {CMD_POSITION, CMD_TIME} && (forall k :: 0 <= k < |ws| ==> IsSpace(ws[k]))
    requires parameter != [] ==> !IsSpace(parameter[0])
    ensures CmdRequest(cmd, ws + parameter) == Request(Some(Name(0xff, None, parameter)), [])
  {
    SpacesOf(ws, parameter);
    assert (ws + parameter)[|ws|..] == parameter;
  }

  // ---------------------------------------------------------------------------------------
  // Opens

  /** Options of one letter each, with a comma in front of each. */
  function Lettered(letters: seq<byte>): seq<byte> {
    if letters == [] then [] else [44, letters[0]] + Lettered(letters[1..])
  }

  /** The letters for a type, P, S and U; and those for an access, R, W, A and X. */
  function Types(letters: seq<byte>): seq<byte> {
    if letters == [] then []
    else (if letters[0] in [80, 83, 85] then [letters[0]] else []) + Types(letters[1..])
  }

  function Accesses(letters: seq<byte>): seq<byte> {
    if letters == [] then []
    else (if letters[0] in [82, 87, 65, 88] then [letters[0]] else []) + Accesses(letters[1..])
  }

  /** Known letters, N besides these, with one type and one access at most. */
  predicate Proper(letters: seq<byte>) {
    && (forall k :: 0 <= k < |letters| ==> letters[k] in [80, 83, 85, 82, 87, 65, 88, 78])
    && |Types(letters)| <= 1 && |Accesses(letters)| <= 1
  }

  /** The first of these, or what there was before. */
  function FirstOr(letters: seq<byte>, before: byte): byte {
    if letters == [] then before else letters[0]
  }

  /** The options can follow those before: known letters, and nothing twice. */
  predicate Fit(letters: seq<byte>, st: OpenState) {
    && (forall k :: 0 <= k < |letters| ==> letters[k] in [80, 83, 85, 82, 87, 65, 88, 78])
    && (Types(letters) == [] || (st.filetype == 0 && |Types(letters)| == 1))
    && (Accesses(letters) == [] || (st.access == 0 && |Accesses(letters)| == 1))
  }

  function Then(letters: seq<byte>, st: OpenState): OpenState {
    OpenState(FirstOr(Types(letters), st.filetype), st.recordlen, FirstOr(Accesses(letters), st.access),
              st.nonblocking || 78 in letters)
  }

  /** The options as the loop reads them, up to a comma or the end behind them. */
  lemma {:induction false} LettersRead(s: seq<byte>, i: nat, letters: seq<byte>, tail: seq<byte>, st: OpenState)
    requires 0 < i <= |s| + 1 && s[i - 1..] == Lettered(letters) + tail && (tail != [] ==> tail[0] == 44)
    requires 0 !in letters && 76 !in letters && st.filetype != 76
    ensures OpenOptions(s, i, st) ==
            if Fit(letters, st) then OpenOptions(s, i + 2 * |letters|, Then(letters, st)) else None
    decreases |letters|
  {
    hide *;
    if letters == [] {
      NoLetters(st);
    } else {
      assert letters[0] in letters;
      var c, more := letters[0], letters[1..];
      FirstLetter(s, i, letters, tail);
      var next := OneOption(s, i, st);
      OptionIs(s, i, st, c);
      StepOption(s, i, st);
      if next.Some? {
        LettersRead(s, i + 2, more, tail, next.value);
        FitStep(letters, st, next.value);
      } else {
        NotFit(letters, st);
      }
    }
  }

  lemma {:induction false} NoLetters(st: OpenState)
    ensures Fit([], st) && Then([], st) == st
  {
  }

  lemma {:induction false} FirstLetter(s: seq<byte>, i: nat, letters: seq<byte>, tail: seq<byte>)
    requires 0 < i <= |s| + 1 && s[i - 1..] == Lettered(letters) + tail && (tail != [] ==> tail[0] == 44)
    requires letters != []
    ensures At(s, i) == letters[0] && At(s, i + 1) in {0, 44}
    ensures i + 2 <= |s| + 1 && s[i + 1..] == Lettered(letters[1..]) + tail
  {
    var t := Lettered(letters) + tail;
    assert t == [44, letters[0]] + (Lettered(letters[1..]) + tail);
    assert s[i - 1..][1] == s[i] && s[i - 1..][2..] == s[i + 1..];
    assert i + 1 < |s| ==> s[i + 1] == (Lettered(letters[1..]) + tail)[0];
  }

  /** What one letter does. */
  lemma {:induction false} OptionIs(s: seq<byte>, i: nat, st: OpenState, c: byte)
    requires At(s, i) == c && c != 0 && c != 76
    ensures var next := OneOption(s, i, st);
      if next.Some? then NextIs(c, st, next.value) else Refused(c, st)
  {
  }

  predicate NextIs(c: byte, st: OpenState, next: OpenState) {
    (c in [80, 83, 85] && st.filetype == 0 && next == st.(filetype := c))
    || (c in [82, 87, 65, 88] && st.access == 0 && next == st.(access := c))
    || (c == 78 && next == st.(nonblocking := true))
  }

  predicate Refused(c: byte, st: OpenState) {
    (c in [80, 83, 85] ==> st.filetype != 0) && (c in [82, 87, 65, 88] ==> st.access != 0) && c != 78
  }

  lemma {:induction false} StepOption(s: seq<byte>, i: nat, st: OpenState)
    requires At(s, i) != 0 && st.filetype != 76 && At(s, i + 1) in {0, 44}
    ensures var next := OneOption(s, i, st);
      OpenOptions(s, i, st) == if next.Some? then OpenOptions(s, i + 2, next.value) else None
  {
    hide OneOption;
  }

  lemma {:induction false} FitStep(letters: seq<byte>, st: OpenState, next: OpenState)
    requires letters != [] && NextIs(letters[0], st, next)
    ensures Fit(letters, st) <==> Fit(letters[1..], next)
    ensures Fit(letters, st) ==> Then(letters, st) == Then(letters[1..], next)
  {
    assert forall k :: 0 < k < |letters| ==> letters[k] == letters[1..][k - 1];
  }

  lemma {:induction false} NotFit(letters: seq<byte>, st: OpenState)
    requires letters != [] && Refused(letters[0], st)
    ensures !Fit(letters, st)
  {
  }

  /** An open as it is written: an '@' for overwriting, the name, and what follows it. */
  function OpenText(at: bool, n: Name, tail: seq<byte>): seq<byte> {
    (if at then [64] else []) + (Show(n) + tail)
  }

  /** The name does not look like an '@' itself. */
  ghost predicate Openable(at: bool, n: Name) {
    Showable(n) && (!at && Show(n) != [] ==> Show(n)[0] != 64)
  }

  /** Name and options of an open, when nothing or a comma follows the name. */
  lemma {:induction false} OpenSplit(at: bool, n: Name, tail: seq<byte>)
    requires Openable(at, n) && (tail != [] ==> tail[0] == 44)
    ensures var line, body := OpenText(at, n, tail), Show(n) + tail;
      && Body(line) == body && (Skipped(line) == 1 <==> at) && OpenTarget(line) == n
      && AfterComma(UpToNul(body)).Some? == (tail != []) && |Segment(UpToNul(body))| == |Show(n)|
  {
    hide Show, Showable, ParseSegment, Find, Segment, AfterComma, UpToNul;
    var line, body := OpenText(at, n, tail), Show(n) + tail;
    assert line != [] && !at ==> line == body && line[0] == if Show(n) == [] then 44 else Show(n)[0];
    assert at ==> line[1..] == body;
    ShownParsed(n);
    ShownClean(n);
    UpToNulOf(Show(n), tail);
  }

  lemma {:induction false} UpToNulOf(p: seq<byte>, tail: seq<byte>)
    requires 0 !in p && COMMA !in p && (tail != [] ==> tail[0] == 44)
    ensures var text := UpToNul(p + tail); Segment(text) == p && AfterComma(text).Some? == (tail != [])
  {
    hide Find, Segment, AfterComma;
    var s := p + tail;
    var z := Find(s, 0);
    assert forall k :: 0 <= k < |p| ==> s[k] == p[k] && p[k] != 0;
    if tail == [] {
      assert s[..z] == p;
      CommaFirst(p, []);
    } else {
      assert s[|p|] == 44 && z > |p|;
      var t := s[|p| + 1..z];
      assert s[..z] == p + [44] + t;
      CommaFirst(p, t);
    }
  }

  /**
   The meaning of an open with letters as options, in any order: exactly the lists of known letters with one
   type and one access at most are understood.
   */
  lemma {:induction false} LettersOpen(at: bool, n: Name, letters: seq<byte>)
    requires Openable(at, n) && 0 !in letters && 76 !in letters
    ensures var line := OpenText(at, n, Lettered(letters));
      && OpenParsed(line) == (if Proper(letters)
                              then Some(OpenState(FirstOr(Types(letters), 0), 0, FirstOr(Accesses(letters), 0), 78 in letters))
                              else None)
      && LineMeaning(Open, line) == if Proper(letters)
                                    then Meaning(if at then 4 else 0, FirstOr(Types(letters), 0), 0, Request(Some(n), []))
                                    else Meaning(1, 0, 0, Syntax)
  {
    hide *;
    LettersAlone(n, letters);
    OpenSplit(at, n, Lettered(letters));
    NoRel(letters);
    OpenedIs(OpenText(at, n, Lettered(letters)), n, Show(n) + Lettered(letters), at,
             if Proper(letters) then Some(Then(letters, NO_OPTIONS)) else None);
    ThenIs(letters);
  }

  lemma {:induction false} ThenIs(letters: seq<byte>)
    ensures Then(letters, NO_OPTIONS)
         == OpenState(FirstOr(Types(letters), 0), 0, FirstOr(Accesses(letters), 0), 78 in letters)
  {
  }

  /** The meaning of an open, from its parts. */
  lemma {:induction false} OpenedIs(line: seq<byte>, n: Name, body: seq<byte>, at: bool, parsed: Option<OpenState>)
    requires Body(line) == body && (Skipped(line) == 1 <==> at) && OpenTarget(line) == n
    requires parsed == if AfterComma(UpToNul(body)).None? then Some(NO_OPTIONS)
                       else OpenOptions(body, |Segment(UpToNul(body))| + 1, NO_OPTIONS)
    ensures OpenParsed(line) == match parsed
                                case None => None
                                case Some(st) => Some(if st.access == 0 && st.filetype == 76 then st.(access := 88) else st)
    ensures LineMeaning(Open, line) ==
            match parsed
            case None => Meaning(1, 0, 0, Syntax)
            case Some(st) => Meaning(if at then 4 else 0, st.filetype, st.recordlen, Request(Some(n), []))
  {
    hide Body, Skipped, OpenTarget, AfterComma, UpToNul, OpenOptions, Segment;
  }

  lemma {:induction false} LettersAlone(n: Name, letters: seq<byte>)
    requires 0 !in letters && 76 !in letters
    ensures var body := Show(n) + Lettered(letters);
      (if Proper(letters) then Some(Then(letters, NO_OPTIONS)) else None) ==
      if letters == [] then Some(NO_OPTIONS) else OpenOptions(body, |Show(n)| + 1, NO_OPTIONS)
    ensures if letters == [] then Lettered(letters) == [] else Lettered(letters) != [] && Lettered(letters)[0] == 44
  {
    hide Show, OpenOptions;
    var body, i, tail := Show(n) + Lettered(letters), |Show(n)| + 1, Lettered(letters);
    if letters != [] {
      assert body[i - 1..] == tail == tail + [];
      LettersRead(body, i, letters, [], NO_OPTIONS);
      LetteredLength(letters);
      NothingLeft(body, i + 2 * |letters|, Then(letters, NO_OPTIONS));
    }
  }

  lemma {:induction false} LetteredLength(letters: seq<byte>)
    ensures |Lettered(letters)| == 2 * |letters|
  {
    if letters != [] {
      LetteredLength(letters[1..]);
    }
  }

  lemma {:induction false} NothingLeft(s: seq<byte>, i: nat, st: OpenState)
    requires i >= |s|
    ensures OpenOptions(s, i, st) == Some(st)
  {
  }

  lemma {:induction false} NoRel(letters: seq<byte>)
    requires 76 !in letters
    ensures 76 !in Types(letters) && FirstOr(Types(letters), 0) != 76
  {
    if letters != [] {
      NoRel(letters[1..]);
    }
  }

  /** A relative file: L with the record length, low byte first, behind other options but a type. */
  lemma {:induction false} RelativeOpen(at: bool, n: Name, letters: seq<byte>, rest: seq<byte>)
    requires Openable(at, n) && Proper(letters) && Types(letters) == [] && 0 !in letters
    ensures var line := OpenText(at, n, Lettered(letters) + ([44, 76, 44] + rest));
      var recordlen: nat := if rest == [] || rest[0] == 0 then 0 else rest[0] + 256 * if |rest| > 1 then rest[1] as nat else 0;
      && OpenParsed(line) == Some(OpenState(76, recordlen, FirstOr(Accesses(letters), 88), 78 in letters))
      && LineMeaning(Open, line) == Meaning(if at then 4 else 0, 76, recordlen, Request(Some(n), []))
  {
    hide *;
    var tail := Lettered(letters) + ([44, 76, 44] + rest);
    var st := Then(letters, NO_OPTIONS);
    var recordlen: nat := if rest == [] || rest[0] == 0 then 0 else rest[0] + 256 * if |rest| > 1 then rest[1] as nat else 0;
    NoRelLetters(letters);
    LettersThenRel(n, letters, rest);
    OpenSplit(at, n, tail);
    ThenIs(letters);
    AccessLetters(letters);
    OpenedIs(OpenText(at, n, tail), n, Show(n) + tail, at, Some(st.(filetype := 76, recordlen := recordlen)));
  }

  lemma {:induction false} LettersThenRel(n: Name, letters: seq<byte>, rest: seq<byte>)
    requires Proper(letters) && Types(letters) == [] && 0 !in letters && 76 !in letters
    ensures var tail := Lettered(letters) + ([44, 76, 44] + rest);
      var recordlen: nat := if rest == [] || rest[0] == 0 then 0 else rest[0] + 256 * if |rest| > 1 then rest[1] as nat else 0;
      && tail != [] && tail[0] == 44
      && OpenOptions(Show(n) + tail, |Show(n)| + 1, NO_OPTIONS)
         == Some(Then(letters, NO_OPTIONS).(filetype := 76, recordlen := recordlen))
  {
    hide Show, OpenOptions;
    var tail := Lettered(letters) + ([44, 76, 44] + rest);
    var body, i := Show(n) + tail, |Show(n)| + 1;
    assert body[i - 1..] == tail;
    LettersRead(body, i, letters, [44, 76, 44] + rest, NO_OPTIONS);
    LetteredLength(letters);
    var j := i + 2 * |letters|;
    assert body[j - 1..] == [44, 76, 44] + rest;
    RelRead(body, j, rest, Then(letters, NO_OPTIONS));
  }

  lemma {:induction false} NoRelLetters(letters: seq<byte>)
    requires Proper(letters)
    ensures 76 !in letters
  {
  }

  lemma {:induction false} AccessLetters(letters: seq<byte>)
    ensures 0 !in Accesses(letters)
    ensures FirstOr(Accesses(letters), 88) == if FirstOr(Accesses(letters), 0) == 0 then 88 else FirstOr(Accesses(letters), 0)
  {
    if letters != [] {
      AccessLetters(letters[1..]);
    }
  }

  lemma {:induction false} RelRead(s: seq<byte>, i: nat, rest: seq<byte>, st: OpenState)
    requires 0 < i <= |s| && s[i - 1..] == [44, 76, 44] + rest && st.filetype == 0
    ensures var recordlen: nat := if rest == [] || rest[0] == 0 then 0 else rest[0] + 256 * if |rest| > 1 then rest[1] as nat else 0;
      OpenOptions(s, i, st) == Some(st.(filetype := 76, recordlen := recordlen))
  {
    var t := [44, 76, 44] + rest;
    assert forall k :: 0 <= k < |t| ==> s[i - 1..][k] == t[k];
    assert At(s, i) == 76 && At(s, i + 1) == 44;
    assert At(s, i + 2) == if rest == [] then 0 else rest[0];
    assert At(s, i + 3) == if |rest| <= 1 then 0 else rest[1];
    hide At;
  }

  /** With a LOAD only a '$' at the start makes a difference: what follows it is a directory's text. */
  lemma {:induction false} LoadLines(line: seq<byte>, text: seq<byte>)
    requires line == [] || line[0] != 36
    ensures LineMeaning(Load, line) == LineMeaning(Open, line)
    ensures LineMeaning(Load, [36] + text) == Meaning(CMD_DIR, 0, 0, CmdRequest(CMD_DIR, text))
    ensures LineMeaning(Command(CMD_DIR, 1), [36] + text) == Meaning(CMD_DIR, 0, 0, CmdRequest(CMD_DIR, text))
  {
    hide OpenParsed, CmdRequest;
    assert ([36] + text)[1..] == text;
  }

  // ---------------------------------------------------------------------------------------
  // On the server

  /** The codes for the types, and the numbers behind "T=L", as the server takes them. */
  lemma {:induction false} ServerOptions(n: nat)
    ensures OptionsFrom([84, 61, 83, 0], 0, NO_PARS) == OpenPars(1, 0)
    ensures OptionsFrom([84, 61, 80, 0], 0, NO_PARS) == OpenPars(2, 0)
    ensures OptionsFrom([84, 61, 85, 0], 0, NO_PARS) == OpenPars(3, 0)
    ensures OptionsFrom([0], 0, NO_PARS) == OpenPars(255, 0)
    ensures OptionsFrom([84, 61, 76] + Decimal(n) + [0], 0, NO_PARS) == OpenPars(4, if 0 < n < 131072 then n % 65536 else 0)
    ensures TypeCode(83) == 1 && TypeCode(80) == 2 && TypeCode(85) == 3 && TypeCode(76) == 4 && TypeCode(0) == 255
  {
    hide OptionsFrom, ScanNumber, Decimal, TextFrom;
    OtherRead(83, [], []);
    OtherRead(80, [], []);
    OtherRead(85, [], []);
    assert [84, 61, 83] + [] + [0] + [] == [84, 61, 83, 0];
    assert [84, 61, 80] + [] + [0] + [] == [84, 61, 80, 0];
    assert [84, 61, 85] + [] + [0] + [] == [84, 61, 85, 0];
    NoHeader([]);
    assert [0] + [] == [0];
    var d := Decimal(n);
    var s := [84, 61, 76] + d + [0];
    NoNuls(d);
    RelText(d, []);
    assert s + [] == s && s == [84, 61, 76] + d + [0] + [];
    ScanDecimal(n);
    RelStep(s, d);
  }

  lemma {:induction false} NoNuls(d: seq<byte>)
    requires forall k :: 0 <= k < |d| ==> IsDigit(d[k])
    ensures 0 !in d && COMMA !in d
  {
    assert !IsDigit(0) && !IsDigit(COMMA);
  }

  lemma {:induction false} ShowableClean(n: Name)
    requires Showable(n)
    ensures Clean(n)
  {
    hide IsNumber;
  }

  /**
   An open that is written so arrives: the server reads the name, the code of the type and the record length.
   */
  lemma {:induction false} OpenArrives(at: bool, n: Name, letters: seq<byte>, wide: bool)
    requires Openable(at, n) && Proper(letters) && 0 !in letters && 76 !in letters
    ensures var code: byte := if 83 in letters then 1 else if 80 in letters then 2 else if 85 in letters then 3 else 255;
      ParsePacket(MeaningPacket(LineMeaning(Open, OpenText(at, n, Lettered(letters))), wide), 5)
      == Parsed(OpenPars(code, 0), [n])
  {
    hide *;
    LettersOpen(at, n, letters);
    OpenedClean(at, n);
    TypeOf(letters);
    var t := FirstOr(Types(letters), 0);
    OpenPacket(if at then 4 else 0, t, 0, wide, n);
    Arrives(t, 0, wide, n);
    ServerOptions(0);
  }

  lemma {:induction false} OpenPacket(cmd: byte, filetype: byte, recordlen: word, wide: bool, n: Name)
    requires cmd in {0, 4}
    ensures MeaningPacket(Meaning(cmd, filetype, recordlen, Request(Some(n), [])), wide)
         == EncodePacket(filetype, recordlen, wide, [n])
  {
    hide EncodePacket;
    assert [n] + [] == [n];
  }

  /** The same for a relative file, if its record length is printed as it is. */
  lemma {:induction false} RelativeArrives(at: bool, n: Name, letters: seq<byte>, lo: byte, hi: byte, wide: bool)
    requires Openable(at, n) && Proper(letters) && Types(letters) == [] && 0 !in letters && lo != 0
    requires wide || hi < 128
    ensures ParsePacket(MeaningPacket(LineMeaning(Open, OpenText(at, n, Lettered(letters) + ([44, 76, 44] + [lo, hi]))), wide), 5)
         == Parsed(OpenPars(4, lo + 256 * hi), [n])
  {
    hide *;
    RelativeOpen(at, n, letters, [lo, hi]);
    OpenedClean(at, n);
    OpenPacket(if at then 4 else 0, 76, lo + 256 * hi, wide, n);
    Arrives(76, lo + 256 * hi, wide, n);
    ServerOptions(0);
  }

  lemma {:induction false} OpenedClean(at: bool, n: Name)
    requires Openable(at, n)
    ensures Clean(n)
  {
    ShowableClean(n);
  }

  lemma {:induction false} Arrives(filetype: byte, recordlen: word, wide: bool, n: Name)
    requires Clean(n) && filetype in {0, 80, 83, 85, 76}
    requires recordlen > 0 ==> filetype == 76 && (wide || recordlen < 32768)
    ensures ParsePacket(EncodePacket(filetype, recordlen, wide, [n]), 5) == Parsed(OpenPars(TypeCode(filetype), recordlen), [n])
  {
    PacketRead(filetype, recordlen, wide, [n], 5);
  }

  /** With one type at most, the type is the one among the letters. */
  lemma {:induction false} TypeOf(letters: seq<byte>)
    requires Proper(letters)
    ensures var t := FirstOr(Types(letters), 0);
      && (83 in letters <==> t == 83) && (80 in letters <==> t == 80) && (85 in letters <==> t == 85)
      && t in {0, 80, 83, 85}
  {
    TypesIn(letters);
    assert Types(letters) != [] ==> Types(letters)[0] in Types(letters);
  }

  lemma {:induction false} TypesIn(letters: seq<byte>)
    ensures forall c :: c in Types(letters) <==> c in letters && c in [80, 83, 85]
  {
    if letters != [] {
      TypesIn(letters[1..]);
      assert forall c :: c in letters <==> c == letters[0] || c in letters[1..];
    }
  }

  /** A command with a target that is written so arrives: the server reads the target and the names. */
  lemma {:induction false} CommandArrives(
    cmd: byte, word: seq<byte>, ws: seq<byte>, trg: Name, ns: seq<Name>, wide: bool)
    requires cmd in {CMD_ASSIGN, CMD_RENAME, CMD_COPY} && 0 < |ns| <= 4 && AllShowable(ns)
    requires Showable(trg) && EQUALS !in Show(trg)
    requires Indented(ws, Show(trg) + [61] + ShowList(ns))
    requires cmd == CMD_COPY ==> !DigitPair(Show(trg) + [61] + ShowList(ns))
    ensures var line := word + (ws + (Show(trg) + [61] + ShowList(ns)));
      var r := ParsePacket(MeaningPacket(LineMeaning(Command(cmd, |word|), line), wide), 5);
      && r.Parsed? && r.pars == OpenPars(255, 0) && |r.names| == |ns| + 1 && r.names[0] == trg
      && OnDefault(r.names[1..], ns, cmd, if trg.drive == 0xfe then 0xff else trg.drive)
  {
    hide ShowList, Show, Showable, AllShowable, Indented, CmdRequest, ParsePacket, EncodePacket, DigitPair, TypeCode;
    var rest := ws + (Show(trg) + [61] + ShowList(ns));
    assert (word + rest)[|word|..] == rest;
    TargetCommand(cmd, ws, trg, ns);
    var line := word + rest;
    var m := LineMeaning(Command(cmd, |word|), line);
    assert m == Meaning(cmd, 0, 0, CmdRequest(cmd, rest));
    LineDelivered(Command(cmd, |word|), line, wide);
    ServerOptions(0);
    var files := CmdRequest(cmd, rest).files;
    assert NamesOf(m) == [trg] + files && ([trg] + files)[1..] == files;
    assert ParsePacket(MeaningPacket(m, wide), 5) == Parsed(OpenPars(255, 0), [trg] + files);
  }

  /** The packet as it is sent: the option string, and each name with its drive in front. */
  lemma {:induction false} PacketBytes(filetype: byte, wide: bool, n: Name, d: seq<byte>, t: seq<byte>)
    requires n.name == t && (n.drivename == None ==> d == []) && (d != [] ==> n.drivename == Some(d))
    requires n.drivename.Some? ==> n.drivename == Some(d)
    ensures EncodePacket(filetype, 0, wide, [n])
         == (if filetype == 0 then [0] else [84, 61, filetype, 0])
            + ([n.drive] + (if d == [] then [] else d + [58]) + t + [0])
  {
    var head: seq<byte> := if filetype == 0 then [0] else [84, 61, filetype, 0];
    var named: seq<byte> := if d == [] then [] else d + [58];
    assert Header(filetype, 0, wide) == head;
    assert EncodeName(n) == [n.drive] + named + t + [0];
    assert [n][..0] == [] && EncodeNames([n]) == EncodeName(n);
  }

  /** The packet for a copy of a whole disk. */
  lemma {:induction false} DiskCopyBytes(cmd: byte, word: seq<byte>, ws: seq<byte>, to: nat, from: nat, wide: bool)
    requires cmd in {CMD_DUPLICATE, CMD_COPY} && Indented(ws, []) && to <= 9 && from <= 9
    ensures var line := word + (ws + [48 + to, 61, 48 + from]);
      var m := LineMeaning(Command(cmd, |word|), line);
      m.request == Copy(to, from) && MeaningPacket(m, wide) == [to, 42, 0, from, 42, 0]
  {
    hide CmdRequest;
    var rest := ws + [48 + to, 61, 48 + from];
    assert (word + rest)[|word|..] == rest;
    ShortForms(cmd, ws, to, from);
  }
}
