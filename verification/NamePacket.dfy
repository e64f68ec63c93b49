/**
 The name packet: its layout, as common/name.c assembles it, and the server's parser for it
 (common/name.c, pcserver/openpars.c). A packet is an option string and a list of names.
 */
module NamePackets {
  import opened Wire
  import opened Names

  /** File type and record length of an open. */
  datatype OpenPars = OpenPars(filetype: byte, recordlen: word)

  const NO_PARS := OpenPars(FS_DIR_TYPE_UNKNOWN, 0)

  /** A parsed packet, `Fault` is CBM_ERROR_FAULT. */
  datatype Parsed = Fault | Parsed(pars: OpenPars, names: seq<Name>)

  // ---------------------------------------------------------------------------------------
  // The layout

  /** What sprintf with %d makes of an unsigned 16 bit value; `wide` when an int has more than 16 bits. */
  function Printed(n: word, wide: bool): (s: seq<byte>)
    ensures s != [] && (IsDigit(s[0]) || s[0] == MINUS) && 0 !in s && COMMA !in s
  {
    var digits := Decimal(if wide || n < 32768 then n else 65536 - n);
    assert !IsDigit(0) && !IsDigit(COMMA);
    if wide || n < 32768 then digits else [MINUS] + digits
  }

  /** The option string with its NUL: "T=" with the type letter and the record length, if there are any. */
  function Header(filetype: byte, recordlen: word, wide: bool): seq<byte>
  {
    (if filetype == 0 then []
     else ['T' as byte, EQUALS, filetype] + (if recordlen > 0 then Printed(recordlen, wide) else [])) + [0]
  }

  function Colonned(drivename: seq<byte>): seq<byte> {
    if drivename == [] then [] else drivename + [COLON]
  }

  /** The drive: its number, and its name if it has one. */
  function Prefix(n: Name): seq<byte> {
    [n.drive] + if n.drivename.Some? then Colonned(n.drivename.value) else []
  }

  function EncodeName(n: Name): seq<byte> {
    Prefix(n) + n.name + [0]
  }

  function EncodeNames(names: seq<Name>): seq<byte> {
    if names == [] then [] else EncodeNames(names[..|names| - 1]) + EncodeName(names[|names| - 1])
  }

  function EncodePacket(filetype: byte, recordlen: word, wide: bool, names: seq<Name>): seq<byte>
  {
    Header(filetype, recordlen, wide) + EncodeNames(names)
  }

  /** A header takes at most 9 bytes, 10 where an int has 16 bits only. */
  lemma {:induction false} HeaderSize(filetype: byte, recordlen: word, wide: bool)
    ensures 1 <= |Header(filetype, recordlen, wide)| <= if wide then 9 else 10
  {
    DecimalLength(recordlen);
    if recordlen >= 32768 {
      DecimalLength(65536 - recordlen);
    }
  }

  lemma {:induction false} EncodeFirst(names: seq<Name>)
    requires names != []
    ensures EncodeNames(names) == EncodeName(names[0]) + EncodeNames(names[1..])
  {
    var k := |names| - 1;
    if k > 0 {
      EncodeFirst(names[..k]);
      assert names[..k][1..] == names[1..][..k - 1];
    }
  }

  // ---------------------------------------------------------------------------------------
  // The option string

  /** The byte at `i`; what follows the packet in memory is taken as zero. */
  function At(s: seq<byte>, i: nat): byte {
    if i < |s| then s[i] else 0
  }

  function From(s: seq<byte>, i: nat): seq<byte> {
    if i <= |s| then s[i..] else []
  }

  /** The rest of the string that starts at `i`, without the NUL. */
  function TextFrom(s: seq<byte>, i: nat): seq<byte> {
    From(s, i)[..Find(From(s, i), 0)]
  }

  /** The record length that is stored for a scanned number. */
  function RecordLength(v: int, before: word): word {
    if 0 < v < 131072 then v % 65536 else before
  }

  /** The options from position `i` on. */
  function OptionsFrom(s: seq<byte>, i: nat, pars: OpenPars): OpenPars
    decreases if i < |s| then |s| - i else 0
  {
    var c := At(s, i);
    if c == 0 then pars
    else if c == 't' as byte || c == 'T' as byte then
      if At(s, i + 1) != EQUALS then OptionsFrom(s, i + 2, pars)
      else
        var t := At(s, i + 2);
        if t == 'u' as byte || t == 'U' as byte then OptionsFrom(s, i + 3, pars.(filetype := FS_DIR_TYPE_USR))
        else if t == 'p' as byte || t == 'P' as byte then OptionsFrom(s, i + 3, pars.(filetype := FS_DIR_TYPE_PRG))
        else if t == 's' as byte || t == 'S' as byte then OptionsFrom(s, i + 3, pars.(filetype := FS_DIR_TYPE_SEQ))
        else if t == 'l' as byte || t == 'L' as byte then
          var text := TextFrom(s, i + 3);
          OptionsFrom(s, i + 3 + Find(text, COMMA),
                      OpenPars(FS_DIR_TYPE_REL, RecordLength(ScanNumber(text).0, pars.recordlen)))
        else OptionsFrom(s, i + 3, pars)
    else if c == COMMA then OptionsFrom(s, i + 2, pars)
    else pars
  }

  /** openpars_process_options */
  method ProcessOptions(opts: seq<byte>) returns (pars: OpenPars)
    ensures pars == OptionsFrom(opts, 0, NO_PARS)
  {
    hide TextFrom, ScanNumber, Find;
    pars := NO_PARS;
    var p := 0;
    while At(opts, p) != 0
      invariant OptionsFrom(opts, p, pars) == OptionsFrom(opts, 0, NO_PARS)
      decreases if p < |opts| then |opts| - p else 0
    {
      var c := At(opts, p);
      p := p + 1;
      if c == 't' as byte || c == 'T' as byte {
        p := p + 1;
        if At(opts, p - 1) == EQUALS {
          var typechar := At(opts, p);
          p := p + 1;
          if typechar == 'u' as byte || typechar == 'U' as byte {
            pars := pars.(filetype := FS_DIR_TYPE_USR);
          } else if typechar == 'P' as byte || typechar == 'p' as byte {
            pars := pars.(filetype := FS_DIR_TYPE_PRG);
          } else if typechar == 'S' as byte || typechar == 's' as byte {
            pars := pars.(filetype := FS_DIR_TYPE_SEQ);
          } else if typechar == 'L' as byte || typechar == 'l' as byte {
            pars := pars.(filetype := FS_DIR_TYPE_REL);
            var text := TextFrom(opts, p);
            var (reclenw, end) := ScanNumber(text);
            if end > 0 && reclenw > 0 && reclenw < 131072 {
              pars := pars.(recordlen := reclenw % 65536);
            }
            p := p + Find(text, COMMA);
          }
        }
      } else if c == COMMA {
        p := p + 1;
      } else {
        return;
      }
    }
  }

  /** The type code the server has for a type letter of the firmware. */
  function TypeCode(filetype: byte): byte {
    if filetype == 'S' as byte then FS_DIR_TYPE_SEQ
    else if filetype == 'P' as byte then FS_DIR_TYPE_PRG
    else if filetype == 'U' as byte then FS_DIR_TYPE_USR
    else if filetype == 'L' as byte then FS_DIR_TYPE_REL
    else FS_DIR_TYPE_UNKNOWN
  }

  predicate KnownType(filetype: byte) {
    filetype == 0 || TypeCode(filetype) != FS_DIR_TYPE_UNKNOWN
  }

  lemma {:induction false} RelText(text: seq<byte>, rest: seq<byte>)
    requires 0 !in text
    ensures TextFrom(['T' as byte, EQUALS, 'L' as byte] + text + [0] + rest, 3) == text
  {
    var s := ['T' as byte, EQUALS, 'L' as byte] + text + [0] + rest;
    assert s[3..] == text + [0] + rest;
    FindAt(s[3..], 0, |text|);
  }

  lemma {:induction false} RelLength(recordlen: word, wide: bool)
    ensures var text := if recordlen > 0 then Printed(recordlen, wide) else [];
      RecordLength(ScanNumber(text).0, 0) == if wide || recordlen < 32768 then recordlen else 0
  {
    hide ScanNumber, Decimal;
    ScanDecimal(recordlen);
    if recordlen >= 32768 {
      ScanNegative(65536 - recordlen);
    }
  }

  lemma {:induction false} RelStep(s: seq<byte>, text: seq<byte>)
    requires |s| > 3 + |text| && s[0] == 'T' as byte && s[1] == EQUALS && s[2] == 'L' as byte
    requires TextFrom(s, 3) == text && COMMA !in text && s[3 + |text|] == 0
    ensures OptionsFrom(s, 0, NO_PARS) == OpenPars(FS_DIR_TYPE_REL, RecordLength(ScanNumber(text).0, 0))
  {
    hide TextFrom, ScanNumber, RecordLength, From;
    FindAt(text, COMMA, |text|);
    hide Find;
    assert At(s, 3 + |text|) == 0;
  }

  /** After any other type the options end, at the NUL or at the number printed behind it. */
  lemma {:induction false} OtherRead(filetype: byte, text: seq<byte>, rest: seq<byte>)
    requires filetype != 0 && KnownType(filetype) && filetype != 'L' as byte
    requires text != [] ==> IsDigit(text[0]) || text[0] == MINUS
    ensures OptionsFrom(['T' as byte, EQUALS, filetype] + text + [0] + rest, 0, NO_PARS) == OpenPars(TypeCode(filetype), 0)
  {
    hide TextFrom, ScanNumber, RecordLength, From, Find;
    var s := ['T' as byte, EQUALS, filetype] + text + [0] + rest;
    assert s[0] == 'T' as byte && s[1] == EQUALS && s[2] == filetype;
    assert At(s, 3) == if text == [] then 0 else text[0];
  }

  /** The server reads the type, and the record length unless it was printed as a negative number. */
  lemma {:induction false} HeaderRead(filetype: byte, recordlen: word, wide: bool, rest: seq<byte>)
    requires KnownType(filetype)
    ensures OptionsFrom(Header(filetype, recordlen, wide) + rest, 0, NO_PARS) ==
            OpenPars(TypeCode(filetype), if filetype == 'L' as byte && (wide || recordlen < 32768) then recordlen else 0)
  {
    hide OptionsFrom, TextFrom, ScanNumber, RecordLength, Printed;
    var text := if recordlen > 0 then Printed(recordlen, wide) else [];
    var s := Header(filetype, recordlen, wide) + rest;
    if filetype == 0 {
      assert s == [0] + rest;
      NoHeader(rest);
    } else {
      assert s == ['T' as byte, EQUALS, filetype] + text + [0] + rest;
      if filetype == 'L' as byte {
        RelText(text, rest);
        RelLength(recordlen, wide);
        RelStep(s, text);
      } else {
        OtherRead(filetype, text, rest);
      }
    }
  }

  lemma {:induction false} NoHeader(rest: seq<byte>)
    ensures OptionsFrom([0] + rest, 0, NO_PARS) == NO_PARS
  {
  }

  // ---------------------------------------------------------------------------------------
  // The names

  /** The string behind a drive byte; only an undefined drive has a drive name. */
  function SplitText(drive: byte, text: seq<byte>): Name {
    var colon := Find(text, COLON);
    if drive == NAMEINFO_UNDEF_DRIVE && colon < |text|
    then Name(drive, Some(text[..colon]), text[colon + 1..])
    else Name(drive, None, text)
  }

  /** One name from the start of a packet's rest and the number of bytes it takes; `None` is a fault. */
  function TakeName(s: seq<byte>): (r: Option<(Name, nat)>)
    ensures r.Some? ==> 2 <= r.value.1 <= |s|
  {
    if |s| < 2 then None else
    var z := 1 + Find(s[1..], 0);
    if z >= |s| then None else Some((SplitText(s[0], s[1..z]), z + 1))
  }

  /** At most `room` names from a packet's rest. */
  function TakeNames(s: seq<byte>, room: nat): Option<seq<Name>> {
    if s == [] then Some([])
    else if room == 0 then None
    else match TakeName(s)
      case None => None
      case Some((n, used)) =>
        match TakeNames(s[used..], room - 1)
        case None => None
        case Some(more) => Some([n] + more)
  }

  function ParsePacket(s: seq<byte>, room: nat): Parsed {
    var l := Find(s, 0);
    if l >= |s| then Fault
    else match TakeNames(s[l + 1..], room)
      case None => Fault
      case Some(names) => Parsed(OptionsFrom(s, 0, NO_PARS), names)
  }

  /** The names that survive: no NUL, and a drive name without colon exactly when the drive is not a number. */
  predicate Clean(n: Name) {
    && 0 !in n.name
    && (match n.drivename
        case None => n.drive == NAMEINFO_UNDEF_DRIVE ==> COLON !in n.name
        case Some(d) => n.drive == NAMEINFO_UNDEF_DRIVE && d != [] && 0 !in d && COLON !in d)
  }

  /** The server takes what is shown of a name up to the first NUL. */
  lemma {:induction false} Taken(drive: byte, shown: seq<byte>, rest: seq<byte>)
    ensures var k, r := Find(shown, 0), TakeName([drive] + shown + [0] + rest);
      r == Some((SplitText(drive, shown[..k]), k + 2))
  {
    hide Find, SplitText, TakeName;
    var s := [drive] + shown + [0] + rest;
    var k := Find(shown, 0);
    var t := shown + [0] + rest;
    assert t[k] == 0 && t[..k] == shown[..k];
    FindAt(t, 0, k);
    assert s == [drive] + t;
    TakeFirst(drive, t);
  }

  lemma {:induction false} TakeFirst(drive: byte, t: seq<byte>)
    requires Find(t, 0) < |t|
    ensures TakeName([drive] + t) == Some((SplitText(drive, t[..Find(t, 0)]), Find(t, 0) + 2))
  {
    hide Find, SplitText;
    var s := [drive] + t;
    assert s[1..] == t;
    assert s[1..Find(t, 0) + 1] == t[..Find(t, 0)];
  }

  lemma {:induction false} CleanSplits(n: Name, text: seq<byte>)
    requires Clean(n) && text == Prefix(n)[1..] + n.name
    ensures SplitText(n.drive, text) == n
  {
    if n.drivename.Some? {
      var d := n.drivename.value;
      assert text == d + [COLON] + n.name;
      FindAt(text, COLON, |d|);
      assert text[..|d|] == d && text[|d| + 1..] == n.name;
    }
  }

  lemma {:induction false} SplitsClean(n: Name, text: seq<byte>)
    requires SplitText(n.drive, text) == n && text == Prefix(n)[1..] + n.name && 0 !in text
    ensures Clean(n)
  {
    if n.drivename.Some? {
      var d := n.drivename.value;
      assert d != [] ==> text == d + [COLON] + n.name;
    }
  }

  /** A name is read back, together with its length, exactly when it is clean. */
  lemma {:induction false} NameRead(n: Name, rest: seq<byte>)
    ensures var r := TakeName(EncodeName(n) + rest);
      r.Some? && (r.value.0 == n <==> Clean(n)) && (Clean(n) ==> r.value.1 == |EncodeName(n)|)
  {
    hide TakeName;
    var shown := Prefix(n)[1..] + n.name;
    assert EncodeName(n) + rest == [n.drive] + shown + [0] + rest;
    Taken(n.drive, shown, rest);
    var k := Find(shown, 0);
    var r := TakeName(EncodeName(n) + rest);
    if Clean(n) {
      FindAt(shown, 0, |shown|);
      assert shown[..k] == shown;
      CleanSplits(n, shown);
    } else if r.value.0 == n {
      assert k == |shown| && shown[..k] == shown;
      SplitsClean(n, shown);
    }
  }

  predicate AllClean(names: seq<Name>) {
    forall k :: 0 <= k < |names| ==> Clean(names[k])
  }

  lemma {:induction false} NamesRead(names: seq<Name>, room: nat)
    ensures TakeNames(EncodeNames(names), room) == Some(names) <==> |names| <= room && AllClean(names)
  {
    hide EncodeName, TakeName, Clean;
    if names != [] {
      var n, rest := names[0], EncodeNames(names[1..]);
      EncodeFirst(names);
      NameRead(n, rest);
      assert EncodeNames(names) != [];
      if room > 0 && Clean(n) {
        NamesRead(names[1..], room - 1);
        assert (EncodeName(n) + rest)[|EncodeName(n)|..] == rest;
        assert [n] + names[1..] == names;
      }
    }
  }

  /**
   What the firmware assembles is what the server parses: the same drives, drive names and names, the
   type and the record length, exactly when every name is clean and there is room for all of them, and
   the record length, if any, belongs to a relative file and was not printed as a negative number.
   */
  lemma {:induction false} PacketRead(filetype: byte, recordlen: word, wide: bool, names: seq<Name>, room: nat)
    requires KnownType(filetype)
    ensures ParsePacket(EncodePacket(filetype, recordlen, wide, names), room) ==
            Parsed(OpenPars(TypeCode(filetype), recordlen), names)
            <==>
            && |names| <= room && AllClean(names)
            && (recordlen > 0 ==> filetype == 'L' as byte && (wide || recordlen < 32768))
  {
    hide OptionsFrom, TakeNames, EncodeNames;
    var h, rest := Header(filetype, recordlen, wide), EncodeNames(names);
    HeaderRead(filetype, recordlen, wide, rest);
    NamesRead(names, room);
    assert 0 !in h[..|h| - 1] && h[|h| - 1] == 0;
    assert (h + rest)[..|h| - 1] == h[..|h| - 1];
    FindAt(h + rest, 0, |h| - 1);
    assert (h + rest)[|h|..] == rest;
  }

  // ---------------------------------------------------------------------------------------
  // The server's parser. It puts a NUL over the colon of a drive name.

  /** filename_from_packet */
  method FilenameFromPacket(buf: array<byte>, src: nat, len: nat) returns (ok: bool, e: Entry, used: nat)
    requires src + len <= buf.Length
    modifies buf
    ensures buf[..src] == old(buf[..src])
    ensures match TakeName(old(buf[src..src + len]))
            case None => !ok && buf[..] == old(buf[..])
            case Some((n, u)) =>
              && ok && used == u && u <= len && buf[src + u..] == old(buf[src + u..])
              && Holds(buf[..], e, n) && Within(e, n, src, src + u)
  {
    hide Holds, Within, CString, Find, TakeName, SplitText;
    e := Entry(0, None, None, 0);
    used := 0;
    TakeShape(buf[..], src, len);
    assert buf[..][src..src + len] == buf[src..src + len];
    if len < 2 {
      return false, e, used;
    }
    var p := 1 + Find(buf[src + 1..src + len], 0);
    assert buf[..][src + 1..src + len] == buf[src + 1..src + len];
    if p >= len {
      return false, e, used;
    }
    ghost var text := buf[src + 1..src + p];
    assert buf[..][src + 1..src + p] == text;
    e := Entry(buf[src], None, Some(src + 1), 0);
    if e.drive == NAMEINFO_UNDEF_DRIVE {
      var colon := Find(buf[src + 1..src + p], COLON);
      if colon < p - 1 {
        ghost var before := buf[..];
        buf[src + 1 + colon] := 0;
        SplitString(before, buf[..], src + 1, text, colon);
        NamedHolds(buf[..], src, text, colon);
        e := Entry(e.drive, Some(src + 1), Some(src + 2 + colon), Find(buf[src + 2 + colon..], 0));
        assert buf[..][src + 2 + colon..] == buf[src + 2 + colon..];
        return true, e, p + 1;
      }
    }
    PlainHolds(buf[..], src, text);
    e := e.(namelen := Find(buf[src + 1..], 0));
    assert buf[..][src + 1..] == buf[src + 1..];
    return true, e, p + 1;
  }

  /** What is taken, in terms of the buffer. */
  lemma {:induction false} TakeShape(b: seq<byte>, src: nat, len: nat)
    requires src + len <= |b|
    ensures len < 2 ==> TakeName(b[src..src + len]) == None
    ensures len >= 2 ==>
      var p := 1 + Find(b[src + 1..src + len], 0);
      var taken := TakeName(b[src..src + len]);
      if p >= len then taken == None
      else
        var text := b[src + 1..src + p];
        CString(b, src + 1, text) && taken == Some((SplitText(b[src], text), p + 1))
  {
    hide Find, SplitText;
    var s := b[src..src + len];
    if len >= 2 {
      Slice(b, src, src + len, 1, len);
      assert s[1..len] == s[1..];
      var p := 1 + Find(s[1..], 0);
      if p < len {
        Slice(b, src, src + len, 1, p);
        Slice(s, 1, len, 0, p - 1);
        assert s[1..][..p - 1] == s[1..p];
        assert b[src + p] == s[1..][p - 1];
      }
    }
  }

  lemma {:induction false} Slice(b: seq<byte>, lo: nat, hi: nat, i: nat, j: nat)
    requires lo <= hi <= |b| && i <= j <= hi - lo
    ensures b[lo..hi][i..j] == b[lo + i..lo + j]
  {
    var s, t := b[lo..hi][i..j], b[lo + i..lo + j];
    assert |s| == |t| && forall k :: 0 <= k < j - i ==> s[k] == b[lo..hi][i + k] == b[lo + i + k] == t[k];
  }

  lemma {:induction false} PlainHolds(b: seq<byte>, src: nat, text: seq<byte>)
    requires src < |b| && CString(b, src + 1, text) && (b[src] == NAMEINFO_UNDEF_DRIVE ==> Find(text, COLON) == |text|)
    ensures var e, n := Entry(b[src], None, Some(src + 1), Find(b[src + 1..], 0)), SplitText(b[src], text);
      Holds(b, e, n) && Within(e, n, src, src + |text| + 2)
  {
    hide Find, Holds, CString, SplitText;
    SplitPlain(b[src], text);
    StringLength(b, src + 1, text);
    AloneHolds(b, b[src], src + 1, text);
  }

  lemma {:induction false} AloneHolds(b: seq<byte>, drive: byte, i: nat, name: seq<byte>)
    requires CString(b, i, name)
    ensures Holds(b, Entry(drive, None, Some(i), |name|), Name(drive, None, name))
  {
  }

  lemma {:induction false} SplitPlain(drive: byte, text: seq<byte>)
    requires drive == NAMEINFO_UNDEF_DRIVE ==> Find(text, COLON) == |text|
    ensures SplitText(drive, text) == Name(drive, None, text)
  {
    hide Find;
  }

  /** The pointers into a string whose colon was replaced. */
  lemma {:induction false} NamedHolds(b: seq<byte>, src: nat, text: seq<byte>, colon: nat)
    requires colon < |text| && colon == Find(text, COLON) && src < |b| && b[src] == NAMEINFO_UNDEF_DRIVE
    requires CString(b, src + 1, text[..colon]) && CString(b, src + 2 + colon, text[colon + 1..])
    ensures var i := src + 2 + colon;
      var e, n := Entry(b[src], Some(src + 1), Some(i), Find(b[i..], 0)), SplitText(b[src], text);
      Holds(b, e, n) && Within(e, n, src, src + |text| + 2)
  {
    hide Find, Holds, CString, SplitText;
    var d, name := text[..colon], text[colon + 1..];
    SplitNamed(text, colon);
    StringLength(b, src + 2 + colon, name);
    BothHold(b, b[src], src + 1, d, src + 2 + colon, name);
  }

  lemma {:induction false} SplitNamed(text: seq<byte>, colon: nat)
    requires colon < |text| && colon == Find(text, COLON)
    ensures SplitText(NAMEINFO_UNDEF_DRIVE, text) == Name(NAMEINFO_UNDEF_DRIVE, Some(text[..colon]), text[colon + 1..])
  {
    hide Find;
  }

  lemma {:induction false} BothHold(b: seq<byte>, drive: byte, d: nat, drivename: seq<byte>, i: nat, name: seq<byte>)
    requires CString(b, d, drivename) && CString(b, i, name)
    ensures Holds(b, Entry(drive, Some(d), Some(i), |name|), Name(drive, Some(drivename), name))
  {
  }

  /** parse_filename_packet; `room` is the number of names the caller can take. */
  method ParseFilenamePacket(buf: array<byte>, src: nat, len: nat, room: nat)
    returns (ok: bool, pars: OpenPars, names: seq<Entry>)
    requires src + len <= buf.Length && len < 256
    modifies buf
    ensures match ParsePacket(old(buf[src..src + len]), room)
            case Fault => !ok
            case Parsed(p, ns) =>
              ok && pars == p && |names| == |ns| && forall k :: 0 <= k < |ns| ==> Holds(buf[..], names[k], ns[k])
  {
    hide TakeName, TakeNames, Join, Holds, Within, OptionsFrom, Find;
    pars := NO_PARS;
    names := [];
    ghost var s := buf[src..src + len];
    var l := Find(buf[src..src + len], 0);
    if l >= len {
      return false, pars, names;
    }
    pars := ProcessOptions(buf[src..src + len]);
    var p := src + l + 1;
    ghost var ns: seq<Name> := [];
    assert buf[p..src + len] == s[l + 1..];
    JoinNone(TakeNames(s[l + 1..], room));
    while p < src + len && |names| < room
      invariant src <= p <= src + len && |names| == |ns| <= room
      invariant pars == OptionsFrom(s, 0, NO_PARS)
      invariant forall k :: 0 <= k < |ns| ==> Holds(buf[..], names[k], ns[k]) && Within(names[k], ns[k], 0, p)
      invariant TakeNames(s[l + 1..], room) == Join(ns, TakeNames(buf[p..src + len], room - |ns|))
      decreases src + len - p
    {
      ghost var before := buf[..];
      ghost var rest := buf[p..src + len];
      var found, e, used := FilenameFromPacket(buf, p, src + len - p);
      JoinStep(ns, rest, room - |ns|);
      if !found {
        return false, pars, names;
      }
      ghost var n := TakeName(rest).value.0;
      AllStillHold(before, buf[..], names, ns, p, p + used);
      Widen(e, n, p, p + used, 0, p + used);
      RestSame(before, buf[..], p, used, src + len);
      assert buf[p + used..src + len] == buf[..][p + used..src + len];
      assert rest == before[p..src + len];
      names, ns, p := names + [e], ns + [n], p + used;
    }
    JoinEnds(ns, buf[p..src + len], room - |ns|);
    return p == src + len, pars, names;
  }

  /** The names taken so far, in front of those still to be taken. */
  function Join(ns: seq<Name>, more: Option<seq<Name>>): Option<seq<Name>> {
    match more
    case None => None
    case Some(ms) => Some(ns + ms)
  }

  lemma {:induction false} JoinNone(r: Option<seq<Name>>)
    ensures Join([], r) == r
  {
    assert r.Some? ==> [] + r.value == r.value;
  }

  lemma {:induction false} JoinStep(ns: seq<Name>, s: seq<byte>, room: nat)
    requires s != [] && room > 0
    ensures Join(ns, TakeNames(s, room)) ==
            match TakeName(s)
            case None => None
            case Some((n, used)) => Join(ns + [n], TakeNames(s[used..], room - 1))
  {
    hide TakeName;
    var t := TakeName(s);
    if t.Some? {
      var more := TakeNames(s[t.value.1..], room - 1);
      assert more.Some? ==> ns + ([t.value.0] + more.value) == ns + [t.value.0] + more.value;
    }
  }

  lemma {:induction false} JoinEnds(ns: seq<Name>, s: seq<byte>, room: nat)
    requires s == [] || room == 0
    ensures Join(ns, TakeNames(s, room)) == if s == [] then Some(ns) else None
  {
    assert ns + [] == ns;
  }

  lemma {:induction false} AllStillHold(b: seq<byte>, c: seq<byte>, es: seq<Entry>, ns: seq<Name>, p: nat, q: nat)
    requires p <= q && p <= |b| == |c| && b[..p] == c[..p] && |es| == |ns|
    requires forall k :: 0 <= k < |ns| ==> Holds(b, es[k], ns[k]) && Within(es[k], ns[k], 0, p)
    ensures forall k :: 0 <= k < |ns| ==> Holds(c, es[k], ns[k]) && Within(es[k], ns[k], 0, q)
  {
    hide Holds, Within;
    forall k | 0 <= k < |ns|
      ensures Holds(c, es[k], ns[k]) && Within(es[k], ns[k], 0, q)
    {
      StillHolds(b, c, es[k], ns[k], 0, p);
      Widen(es[k], ns[k], 0, p, 0, q);
    }
  }

  lemma {:induction false} RestSame(b: seq<byte>, c: seq<byte>, p: nat, used: nat, hi: nat)
    requires p + used <= hi <= |b| == |c| && b[p + used..] == c[p + used..]
    ensures c[p + used..hi] == b[p..hi][used..]
  {
    Slice(b, p, hi, used, hi - p);
    assert c[p + used..hi] == c[p + used..][..hi - p - used] == b[p + used..hi];
    assert b[p..hi][used..] == b[p..hi][used..hi - p];
  }

  lemma {:induction false} Widen(e: Entry, n: Name, lo: nat, hi: nat, lo': nat, hi': nat)
    requires Within(e, n, lo, hi) && lo' <= lo && hi <= hi'
    ensures Within(e, n, lo', hi')
  {
  }
}
