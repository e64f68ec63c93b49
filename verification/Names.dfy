/**
 File names as they are passed between the firmware and the server (common/name.h): strings in a
 byte buffer, names with an optional drive, and decimal numbers.
 */
module Names {
  import opened Wire

  const COLON: byte := 58
  const COMMA: byte := 44
  const EQUALS: byte := 61
  const MINUS: byte := 45
  const PLUS: byte := 43
  const CR: byte := 13

  /** A name with its drive, as a value. */
  datatype Name = Name(drive: byte, drivename: Option<seq<byte>>, name: seq<byte>)

  /** The same as the programs hold it: `None` is the NULL pointer, a number a position in the buffer. */
  datatype Entry = Entry(drive: byte, drivename: Option<nat>, name: Option<nat>, namelen: nat)

  /** The position of the first `c`, or the length of the string when there is none (strchr, strlen). */
  function Find(s: seq<byte>, c: byte): (r: nat)
    ensures r <= |s| && c !in s[..r] && (r < |s| ==> s[r] == c)
  {
    if s == [] || s[0] == c then 0 else
    var k := Find(s[1..], c);
    assert s[..k + 1] == [s[0]] + s[1..][..k];
    k + 1
  }

  lemma {:induction false} FindAt(s: seq<byte>, c: byte, r: nat)
    requires r <= |s| && c !in s[..r] && (r < |s| ==> s[r] == c)
    ensures Find(s, c) == r
  {
  }

  predicate NulFree(s: seq<byte>) {
    0 !in s
  }

  /** The string that starts at `start` is `text`: NUL-free, and a NUL follows it. */
  predicate CString(b: seq<byte>, start: nat, text: seq<byte>) {
    start + |text| < |b| && b[start..start + |text|] == text && b[start + |text|] == 0 && 0 !in text
  }

  lemma {:induction false} StringLength(b: seq<byte>, start: nat, text: seq<byte>)
    requires CString(b, start, text)
    ensures Find(b[start..], 0) == |text|
  {
    assert b[start..][..|text|] == text;
    FindAt(b[start..], 0, |text|);
  }

  /** A NUL in place of the character at `i` splits a string in two. */
  lemma {:induction false} SplitString(b: seq<byte>, c: seq<byte>, start: nat, text: seq<byte>, i: nat)
    requires CString(b, start, text) && i < |text| && c == b[start + i := 0]
    ensures CString(c, start, text[..i]) && CString(c, start + i + 1, text[i + 1..])
  {
    assert b[start..start + |text|] == text;
    assert forall k :: 0 <= k < |text| ==> b[start + k] == text[k];
    assert c[start..start + i] == text[..i];
    assert c[start + i + 1..start + |text|] == text[i + 1..];
  }

  /** Two buffers that differ between `lo` and `hi` at most. */
  predicate SameOutside(a: seq<byte>, b: seq<byte>, lo: nat, hi: nat) {
    lo <= hi <= |a| == |b| && a[..lo] == b[..lo] && a[hi..] == b[hi..]
  }

  lemma {:induction false} SameOutsideBoth(a: seq<byte>, b: seq<byte>, c: seq<byte>, lo: nat, hi: nat, lo': nat, hi': nat, l: nat, h: nat)
    requires SameOutside(a, b, lo, hi) && SameOutside(b, c, lo', hi')
    requires l <= lo && l <= lo' && hi <= h && hi' <= h <= |a|
    ensures SameOutside(a, c, l, h)
  {
    assert a[..l] == c[..l] by {
      assert a[..l] == a[..lo][..l] == b[..l] == b[..lo'][..l] == c[..l];
    }
    assert a[h..] == c[h..] by {
      assert a[h..] == a[hi..][h - hi..] == b[h..] == b[hi'..][h - hi'..] == c[h..];
    }
  }

  lemma {:induction false} ByteOutside(b: seq<byte>, c: seq<byte>, lo: nat, hi: nat, k: nat)
    requires SameOutside(b, c, lo, hi) && k < |b| && (k < lo || hi <= k)
    ensures c[k] == b[k]
  {
    if k < lo {
      assert c[k] == c[..lo][k];
    } else {
      assert c[k] == c[hi..][k - hi] && b[k] == b[hi..][k - hi];
    }
  }

  /** A string outside of the part that changed. */
  lemma {:induction false} StringOutside(b: seq<byte>, c: seq<byte>, lo: nat, hi: nat, start: nat, text: seq<byte>)
    requires SameOutside(b, c, lo, hi) && CString(b, start, text) && (start + |text| < lo || hi <= start)
    ensures CString(c, start, text)
  {
    var end := start + |text| + 1;
    if end <= lo {
      assert c[start..end] == c[..lo][start..end] == b[start..end];
    } else {
      assert c[start..end] == c[hi..][start - hi..end - hi] == b[start..end];
    }
    assert c[start..end - 1] == c[start..end][..|text|] && b[start..end - 1] == b[start..end][..|text|];
    assert c[end - 1] == c[start..end][|text|] && b[end - 1] == b[start..end][|text|];
  }

  /** The pointers of `e` lead to the name `n`; only the name itself may hold NUL bytes. */
  predicate Holds(b: seq<byte>, e: Entry, n: Name) {
    && e.drive == n.drive
    && (match e.drivename
        case None => n.drivename == None
        case Some(d) => n.drivename.Some? && CString(b, d, n.drivename.value))
    && (match e.name
        case None => n.name == []
        case Some(i) =>
          && e.namelen == |n.name|
          && i + |n.name| < |b| && b[i..i + |n.name|] == n.name && b[i + |n.name|] == 0)
  }

  /** The strings of a name, with their NULs, lie in a part of the buffer. */
  predicate Within(e: Entry, n: Name, lo: nat, hi: nat) {
    && (e.drivename.Some? ==> n.drivename.Some? && lo <= e.drivename.value && e.drivename.value + |n.drivename.value| < hi)
    && (e.name.Some? ==> lo <= e.name.value && e.name.value + |n.name| < hi)
  }

  /** Writing elsewhere leaves a name alone. */
  lemma {:induction false} StillHolds(b: seq<byte>, c: seq<byte>, e: Entry, n: Name, lo: nat, hi: nat)
    requires Holds(b, e, n) && Within(e, n, lo, hi) && lo <= hi <= |b| == |c|
    requires b[lo..hi] == c[lo..hi]
    ensures Holds(c, e, n)
  {
    assert forall k :: lo <= k < hi ==> b[k] == b[lo..hi][k - lo] == c[k];
    if e.drivename.Some? {
      var d, t := e.drivename.value, n.drivename.value;
      assert c[d..d + |t|] == b[d..d + |t|];
    }
    if e.name.Some? {
      var i := e.name.value;
      assert c[i..i + |n.name|] == b[i..i + |n.name|];
    }
  }

  // ---------------------------------------------------------------------------------------
  // Numbers

  predicate IsSpace(c: byte) { c == 32 || 9 <= c <= 13 }

  predicate IsDigit(c: byte) { 48 <= c <= 57 }

  function Spaces(s: seq<byte>): (r: nat)
    ensures r <= |s| && (r < |s| ==> !IsSpace(s[r])) && forall k :: 0 <= k < r ==> IsSpace(s[k])
  {
    if s == [] || !IsSpace(s[0]) then 0 else 1 + Spaces(s[1..])
  }

  function Digits(s: seq<byte>): (r: nat)
    ensures r <= |s| && (r < |s| ==> !IsDigit(s[r])) && forall k :: 0 <= k < r ==> IsDigit(s[k])
  {
    if s == [] || !IsDigit(s[0]) then 0 else 1 + Digits(s[1..])
  }

  function DigitsValue(s: seq<byte>): nat
    requires forall k :: 0 <= k < |s| ==> IsDigit(s[k])
  {
    if s == [] then 0 else
    var last := s[|s| - 1];
    assert IsDigit(last);
    DigitsValue(s[..|s| - 1]) * 10 + (last as int - 48)
  }

  /** The number at the start of a string and the position after it, 0 when there is none (strtol, sscanf). */
  function ScanNumber(s: seq<byte>): (r: (int, nat))
    ensures r.1 <= |s| && (r.1 == 0 ==> r.0 == 0)
  {
    var i := Spaces(s);
    var j := if i < |s| && (s[i] == MINUS || s[i] == PLUS) then i + 1 else i;
    var k := j + Digits(s[j..]);
    if k == j then (0, 0) else
    assert forall m :: 0 <= m < k - j ==> s[j..k][m] == s[j..][m];
    var v: int := DigitsValue(s[j..k]);
    (if s[i] == MINUS then -v else v, k)
  }

  /** A number in decimal. */
  function Decimal(n: nat): (s: seq<byte>)
    ensures |s| > 0 && forall k :: 0 <= k < |s| ==> IsDigit(s[k])
  {
    if n < 10 then [48 + n] else Decimal(n / 10) + [48 + n % 10]
  }

  lemma {:induction false} DecimalValue(n: nat)
    ensures DigitsValue(Decimal(n)) == n
  {
    if n >= 10 {
      DecimalValue(n / 10);
      assert Decimal(n)[..|Decimal(n)| - 1] == Decimal(n / 10);
    }
  }

  /** Numbers below 65536 have at most five digits. */
  lemma {:induction false} DecimalLength(n: nat)
    requires n < 65536
    ensures |Decimal(n)| <= 5
  {
    assert n / 10 < 6554 && n / 10 / 10 < 656 && n / 10 / 10 / 10 < 66 && n / 10 / 10 / 10 / 10 < 7;
    assert |Decimal(n / 10 / 10 / 10 / 10)| == 1;
    assert |Decimal(n / 10 / 10 / 10)| <= 2;
    assert |Decimal(n / 10 / 10)| <= 3;
    assert |Decimal(n / 10)| <= 4;
  }

  lemma {:induction false} DigitsOf(d: seq<byte>)
    requires forall k :: 0 <= k < |d| ==> IsDigit(d[k])
    ensures Digits(d) == |d|
  {
    if d != [] {
      DigitsOf(d[1..]);
    }
  }

  /** Scanning reads back what was printed. */
  lemma {:induction false} ScanDecimal(n: nat)
    ensures ScanNumber(Decimal(n)) == (n as int, |Decimal(n)|)
  {
    var d := Decimal(n);
    DecimalValue(n);
    DigitsOf(d);
    hide Decimal, DigitsValue, Digits;
    assert IsDigit(d[0]);
    assert d[0..] == d && d[0..|d|] == d;
  }

  lemma {:induction false} ScanNegative(n: nat)
    ensures ScanNumber([MINUS] + Decimal(n)) == (-(n as int), 1 + |Decimal(n)|)
  {
    var d := Decimal(n);
    var s := [MINUS] + d;
    DecimalValue(n);
    DigitsOf(d);
    hide Decimal, DigitsValue, Digits;
    assert s[1..] == d && s[1..|s|] == d;
  }
}
