/**
 Where the advanced matcher (common/wildcard.c) fails: a name it refuses for every pattern with a segment
 whose search can pass by its first occurrence, and something behind it that is then missed.
 */
module WildcardLimits {
  import opened Wildcard

  /** A character that a pattern does not use stands for what a '?' matches. */
  predicate Fresh(z: char, pattern: string) {
    z !in pattern && z != '*' && z != '?'
  }

  function Letter(c: char, z: char): string {
    if c == '*' then "" else if c == '?' then [z] else [c]
  }

  /** The shortest text for the pattern between two positions. */
  function Letters(pattern: string, a: nat, b: nat, z: char): string
    requires a <= b <= |pattern|
    decreases b - a
  {
    if a == b then "" else Letter(pattern[a], z) + Letters(pattern, a + 1, b, z)
  }

  /** The name has this text at a position. */
  predicate TextAt(name: string, i: nat, text: string) {
    i + |text| <= |name| && name[i..i + |text|] == text
  }

  /** The name has at a position what the star-free pattern text from a to b stands for. */
  predicate Suits(name: string, pattern: string, a: nat, b: nat, i: nat)
    requires a <= b <= |pattern|
  {
    i + (b - a) <= |name| && forall k :: a <= k < b ==> pattern[k] == '?' || pattern[k] == name[i + (k - a)]
  }

  lemma {:induction false} LettersSplit(pattern: string, a: nat, b: nat, c: nat, z: char)
    requires a <= b <= c <= |pattern|
    ensures Letters(pattern, a, c, z) == Letters(pattern, a, b, z) + Letters(pattern, b, c, z)
    decreases b - a
  {
    if a < b {
      LettersSplit(pattern, a + 1, b, c, z);
    }
  }

  lemma {:induction false} LettersLiteral(pattern: string, a: nat, b: nat, z: char)
    requires a <= b <= |pattern| && StarFree(pattern, a, b)
    ensures |Letters(pattern, a, b, z)| == b - a
    ensures forall k :: 0 <= k < b - a ==> Letter(pattern[a + k], z) == [Letters(pattern, a, b, z)[k]]
    decreases b - a
  {
    if a < b {
      LettersLiteral(pattern, a + 1, b, z);
      var s, t := Letters(pattern, a, b, z), Letters(pattern, a + 1, b, z);
      assert s == Letter(pattern[a], z) + t && |Letter(pattern[a], z)| == 1;
      hide Letters, Letter;
      forall k | 0 <= k < b - a
        ensures Letter(pattern[a + k], z) == [s[k]]
      {
        if k > 0 {
          assert Letter(pattern[a + 1 + (k - 1)], z) == [t[k - 1]];
        }
      }
    }
  }

  lemma {:induction false} LettersStarFree(pattern: string, a: nat, b: nat, z: char)
    requires a <= b <= |pattern| && Fresh(z, pattern)
    ensures '*' !in Letters(pattern, a, b, z)
    decreases b - a
  {
    if a < b {
      LettersStarFree(pattern, a + 1, b, z);
    }
  }

  lemma {:induction false} TextParts(name: string, i: nat, s: string, t: string)
    requires TextAt(name, i, s + t)
    ensures TextAt(name, i, s) && TextAt(name, i + |s|, t)
  {
    assert name[i..i + |s|] == name[i..i + |s + t|][..|s|];
    assert name[i + |s|..i + |s| + |t|] == name[i..i + |s + t|][|s|..];
  }

  /** The text of a part of the pattern matches this part. */
  lemma {:induction false} LettersGlob(pattern: string, a: nat, b: nat, name: string, i: nat, z: char)
    requires a <= b <= |pattern| && TextAt(name, i, Letters(pattern, a, b, z))
    requires Glob(pattern, b, name, i + |Letters(pattern, a, b, z)|)
    ensures Glob(pattern, a, name, i)
    decreases b - a
  {
    if a < b {
      TextParts(name, i, Letter(pattern[a], z), Letters(pattern, a + 1, b, z));
      LettersGlob(pattern, a + 1, b, name, i + |Letter(pattern[a], z)|, z);
      if pattern[a] == '*' {
        assert GlobFrom(pattern, a + 1, name, i);
      } else {
        assert [name[i]] == name[i..i + 1] == Letter(pattern[a], z);
      }
    }
  }

  /** A name is at least as long as the letters of its pattern. */
  lemma {:induction false} LettersFit(pattern: string, j: nat, name: string, i: nat, z: char)
    requires j <= |pattern| && i <= |name| && Glob(pattern, j, name, i)
    ensures |Letters(pattern, j, |pattern|, z)| <= |name| - i
    decreases |pattern| - j
  {
    if j < |pattern| {
      if pattern[j] == '*' {
        assert GlobFrom(pattern, j + 1, name, i);
        var k :| i <= k <= |name| && Glob(pattern, j + 1, name, k);
        LettersFit(pattern, j + 1, name, k, z);
      } else {
        LettersFit(pattern, j + 1, name, i + 1, z);
      }
    }
  }

  /** Every letter of the pattern occurs in the name. */
  lemma {:induction false} LetterFound(pattern: string, j: nat, name: string, i: nat, k: nat)
    requires j <= k < |pattern| && i <= |name| && Glob(pattern, j, name, i)
    requires pattern[k] != '*' && pattern[k] != '?'
    ensures pattern[k] in name[i..]
    decreases |pattern| - j
  {
    if pattern[j] == '*' {
      assert GlobFrom(pattern, j + 1, name, i);
      var q :| i <= q <= |name| && Glob(pattern, j + 1, name, q);
      LetterFound(pattern, j + 1, name, q, k);
      assert name[q..] == name[i..][q - i..];
    } else if j < k {
      LetterFound(pattern, j + 1, name, i + 1, k);
      assert name[i + 1..] == name[i..][1..];
    } else {
      assert name[i..][0] == name[i];
    }
  }

  // ---------------------------------------------------------------------------------------
  // What the loop does

  /** The text of the pattern's beginning leads the loop straight to the segment behind a star. */
  lemma {:induction false} RunPrefix(name: string, pattern: string, i: nat, j: nat, an: int, pp: int, a: nat, z: char)
    requires j < a < |pattern| && pattern[a - 1] == '*' && Fresh(z, pattern) && '*' !in name
    requires TextAt(name, i, Letters(pattern, j, a, z)) && i + |Letters(pattern, j, a, z)| < |name|
    requires -1 <= an <= |name| && -1 <= pp <= j && (an == -1 <==> pp == -1)
    ensures var i0 := i + |Letters(pattern, j, a, z)|;
      AdvancedRun(name, pattern, i, j, an, pp) == AdvancedRun(name, pattern, i0, a, i0, a)
    decreases a - j
  {
    TextParts(name, i, Letter(pattern[j], z), Letters(pattern, j + 1, a, z));
    assert name[i] in name;
    if pattern[j] == '*' {
      if j + 1 < a {
        RunPrefix(name, pattern, i, j + 1, i, j + 1, a, z);
      }
    } else {
      assert [name[i]] == name[i..i + 1] == Letter(pattern[j], z);
      RunPrefix(name, pattern, i + 1, j + 1, an, pp, a, z);
    }
  }

  /** Where the search for the segment from a to b ends: at j == b, or at the end of the name. */
  function Scan(name: string, pattern: string, a: nat, b: nat, i: nat, j: nat): (r: (nat, nat))
    requires a <= j <= b <= |pattern| && i <= |name|
    ensures i <= r.0 <= |name| && a <= r.1 <= b && (r.1 == b || r.0 == |name|)
    decreases |name| - i
  {
    if j == b || i == |name| then (i, j)
    else Scan(name, pattern, a, b, i + 1, NextState(pattern, a, j, name[i]))
  }

  lemma {:induction false} ScanRuns(name: string, pattern: string, a: nat, b: nat, i: nat, j: nat, an: nat)
    requires Segment(pattern, a, b) && a <= j <= b && i <= |name| && an <= |name|
    ensures var r := Scan(name, pattern, a, b, i, j);
      AdvancedRun(name, pattern, i, j, an, a) == AdvancedRun(name, pattern, r.0, r.1, an, a)
    decreases |name| - i
  {
    if j < b && i < |name| {
      ScanRuns(name, pattern, a, b, i + 1, NextState(pattern, a, j, name[i]), an);
    }
  }

  /** A longer name does not change the search in its beginning. */
  lemma {:induction false} ScanExtends(name: string, more: string, pattern: string, a: nat, b: nat, i: nat, j: nat)
    requires a <= j <= b <= |pattern| && i <= |name|
    ensures var r := Scan(name, pattern, a, b, i, j);
      Scan(name + more, pattern, a, b, i, j) == Scan(name + more, pattern, a, b, r.0, r.1)
    decreases |name| - i
  {
    if j < b && i < |name| {
      assert (name + more)[i] == name[i];
      ScanExtends(name, more, pattern, a, b, i + 1, NextState(pattern, a, j, name[i]));
    }
  }

  /** The search never ends earlier than the rest of the segment takes. */
  lemma {:induction false} ScanTakes(name: string, pattern: string, a: nat, b: nat, i: nat, j: nat)
    requires a <= j <= b <= |pattern| && i <= |name|
    ensures var r := Scan(name, pattern, a, b, i, j);
      r.1 == b ==> r.0 >= i + (b - j)
    decreases |name| - i
  {
    if j < b && i < |name| {
      ScanTakes(name, pattern, a, b, i + 1, NextState(pattern, a, j, name[i]));
    }
  }

  /** Text that matches is scanned without a detour. */
  lemma {:induction false} ScanMatches(name: string, pattern: string, a: nat, b: nat, i: nat, j: nat, k: nat)
    requires a <= j <= k <= b <= |pattern| && Suits(name, pattern, j, k, i)
    ensures Scan(name, pattern, a, b, i, j) == Scan(name, pattern, a, b, i + (k - j), k)
    decreases k - j
  {
    if j < k {
      SuitsRest(name, pattern, j, k, i);
      ScanMatches(name, pattern, a, b, i + 1, j + 1, k);
    }
  }

  lemma {:induction false} SuitsRest(name: string, pattern: string, a: nat, b: nat, i: nat)
    requires a < b <= |pattern| && Suits(name, pattern, a, b, i)
    ensures pattern[a] == '?' || pattern[a] == name[i]
    ensures Suits(name, pattern, a + 1, b, i + 1)
  {
    assert pattern[a] == '?' || pattern[a] == name[i + (a - a)];
  }

  /** Suiting text in a part of the name. */
  lemma {:induction false} SuitsIn(name: string, i0: nat, s: string, pattern: string, a: nat, b: nat, i: nat)
    requires TextAt(name, i0, s) && a <= b <= |pattern| && Suits(s, pattern, a, b, i)
    ensures Suits(name, pattern, a, b, i0 + i)
  {
    forall k | a <= k < b
      ensures pattern[k] == '?' || pattern[k] == name[i0 + i + (k - a)]
    {
      assert s[i + (k - a)] == name[i0..i0 + |s|][i + (k - a)];
    }
  }

  /** After the segment has been found, the rest of the pattern does not fit: the name is refused. */
  lemma {:induction false} FoundTooLate(name: string, pattern: string, a: nat, b: nat, i0: nat, e: nat)
    requires Segment(pattern, a, b) && i0 <= |name| && e < |name| && '*' !in name
    requires Scan(name, pattern, a, b, i0, a) == (e, b)
    requires !GlobFrom(pattern, b + 1, name, e)
    ensures !AdvancedRun(name, pattern, i0, a, i0, a)
  {
    ScanRuns(name, pattern, a, b, i0, a, i0);
    assert name[e] in name;
    if b + 1 == |pattern| {
      assert Glob(pattern, b + 1, name, |name|);
    } else if AdvancedRun(name, pattern, e, b + 1, e, b + 1) {
      RunSound(name, pattern, e, b + 1, e, b + 1);
    }
  }

  /** The same for the whole run: the text of the pattern's beginning comes first. */
  lemma {:induction false} RefusedFrom(name: string, pattern: string, a: nat, b: nat, e: nat, z: char)
    requires Segment(pattern, a, b) && Fresh(z, pattern) && '*' !in name
    requires Letters(pattern, 0, a, z) <= name && e < |name| && |Letters(pattern, 0, a, z)| < |name|
    requires Scan(name, pattern, a, b, |Letters(pattern, 0, a, z)|, a) == (e, b)
    requires !GlobFrom(pattern, b + 1, name, e)
    ensures !AdvancedRun(name, pattern, 0, 0, -1, -1)
  {
    hide Letters, Scan, GlobFrom, AdvancedRun;
    var i0 := |Letters(pattern, 0, a, z)|;
    FoundTooLate(name, pattern, a, b, i0, e);
    assert TextAt(name, 0, Letters(pattern, 0, a, z));
    RunPrefix(name, pattern, 0, 0, -1, -1, a, z);
  }

  // ---------------------------------------------------------------------------------------
  // The trap: an occurrence of the segment that scanning passes by

  function TrapChar(pattern: string, a: nat, d: nat, t: nat, z: char, q: nat): char
    requires t <= d && a + d < |pattern| && (q >= t ==> a + q - t < |pattern|)
  {
    if q < d && pattern[a + q] != '?' then pattern[a + q]
    else if q >= t && pattern[a + q - t] != '?' then pattern[a + q - t]
    else z
  }

  /** Text that begins like the segment, up to a mismatch at d, and holds an occurrence of it from t on. */
  function Trap(pattern: string, a: nat, b: nat, d: nat, t: nat, z: char): (s: string)
    requires a <= b <= |pattern| && t <= d < b - a
    ensures |s| == t + (b - a)
  {
    seq(t + (b - a), q requires 0 <= q < t + (b - a) => TrapChar(pattern, a, d, t, z, q))
  }

  lemma {:induction false} TrapShape(pattern: string, a: nat, b: nat, d: nat, t: nat, z: char)
    requires Segment(pattern, a, b) && 0 < t <= d < b - a && Drops(pattern, a, d, t) && Fresh(z, pattern)
    ensures var s := Trap(pattern, a, b, d, t, z);
      && Suits(s, pattern, a, a + d, 0) && Suits(s, pattern, a, b, t)
      && s[d] != pattern[a + d] && (t == d ==> s[d] != pattern[a])
      && '*' !in s
  {
    var s := Trap(pattern, a, b, d, t, z);
    forall k | a <= k < b
      ensures pattern[k] == '?' || pattern[k] == s[t + (k - a)]
    {
      if t + (k - a) < d {
        var m := k + t;
        assert Compatible(pattern[m], pattern[m - t]);
      }
    }
    assert pattern[a + d] in pattern;
  }

  /** Scanning the trap does not find the occurrence in it, but only one behind it, if any. */
  lemma {:induction false} TrapPasses(name: string, pattern: string, a: nat, b: nat, d: nat, t: nat, z: char, i0: nat)
    requires Segment(pattern, a, b) && 0 < t <= d < b - a && Drops(pattern, a, d, t) && Fresh(z, pattern)
    requires TextAt(name, i0, Trap(pattern, a, b, d, t, z))
    ensures var r := Scan(name, pattern, a, b, i0, a);
      r.1 == b ==> r.0 > i0 + t + (b - a)
  {
    hide Trap, Suits, Drops, Scan, Fresh;
    var s := Trap(pattern, a, b, d, t, z);
    TrapShape(pattern, a, b, d, t, z);
    SuitsIn(name, i0, s, pattern, a, a + d, 0);
    ScanMatches(name, pattern, a, b, i0, a, a + d);
    TextChar(name, i0, s, d);
    LiteralAt(pattern, a, d, t);
    ScanMismatch(name, pattern, a, b, i0 + d, a + d);
    ScanTakes(name, pattern, a, b, i0 + d + 1, if name[i0 + d] == pattern[a] then a + 1 else a);
  }

  lemma {:induction false} LiteralAt(pattern: string, a: nat, d: nat, t: nat)
    requires 0 < t <= d && a + d < |pattern| && Drops(pattern, a, d, t)
    ensures pattern[a + d] != '?'
  {
  }

  lemma {:induction false} TextChar(name: string, i: nat, text: string, k: nat)
    requires TextAt(name, i, text) && k < |text|
    ensures name[i + k] == text[k]
  {
    assert name[i..i + |text|][k] == name[i + k];
  }

  lemma {:induction false} ScanMismatch(name: string, pattern: string, a: nat, b: nat, i: nat, j: nat)
    requires a < j < b <= |pattern| && i < |name| && name[i] != pattern[j] && pattern[j] != '?'
    ensures Scan(name, pattern, a, b, i, j) == Scan(name, pattern, a, b, i + 1, if name[i] == pattern[a] then a + 1 else a)
  {
  }

  lemma {:induction false} LiteralGlob(name: string, pattern: string, a: nat, b: nat, s: nat)
    requires a <= b <= |pattern| && StarFree(pattern, a, b) && Suits(name, pattern, a, b, s)
    requires Glob(pattern, b, name, s + (b - a))
    ensures Glob(pattern, a, name, s)
    decreases b - a
  {
    if a < b {
      SuitsRest(name, pattern, a, b, s);
      LiteralGlob(name, pattern, a + 1, b, s + 1);
    }
  }

  lemma {:induction false} TrapMatches(name: string, pattern: string, a: nat, b: nat, d: nat, t: nat, z: char, i0: nat)
    requires Segment(pattern, a, b) && 0 < t <= d < b - a && Drops(pattern, a, d, t) && Fresh(z, pattern)
    requires TextAt(name, i0, Trap(pattern, a, b, d, t, z)) && Glob(pattern, b, name, i0 + t + (b - a))
    ensures GlobFrom(pattern, a, name, i0)
  {
    hide Trap, Suits, Drops, TextAt, Fresh;
    TrapShape(pattern, a, b, d, t, z);
    SuitsIn(name, i0, Trap(pattern, a, b, d, t, z), pattern, a, b, t);
    LiteralGlob(name, pattern, a, b, i0 + t);
  }

  /** The beginning of the pattern, and a star, in front of what matches the rest. */
  lemma {:induction false} PrefixMatches(name: string, pattern: string, a: nat, z: char)
    requires 0 < a <= |pattern| && pattern[a - 1] == '*'
    requires TextAt(name, 0, Letters(pattern, 0, a, z))
    requires GlobFrom(pattern, a, name, |Letters(pattern, 0, a, z)|)
    ensures Matches(pattern, name)
  {
    LettersSplit(pattern, 0, a - 1, a, z);
    assert Letters(pattern, a - 1, a, z) == "";
    LettersGlob(pattern, 0, a - 1, name, 0, z);
  }

  // ---------------------------------------------------------------------------------------
  // The refused name

  lemma {:induction false} LettersSuit(name: string, pattern: string, a: nat, b: nat, i: nat, z: char)
    requires a <= b <= |pattern| && StarFree(pattern, a, b) && TextAt(name, i, Letters(pattern, a, b, z))
    ensures Suits(name, pattern, a, b, i)
  {
    LettersLiteral(pattern, a, b, z);
    var s := Letters(pattern, a, b, z);
    forall k | a <= k < b
      ensures pattern[k] == '?' || pattern[k] == name[i + (k - a)]
    {
      assert Letter(pattern[a + (k - a)], z) == [s[k - a]];
      TextChar(name, i, s, k - a);
    }
  }

  /** Each letter of the pattern is one of its letters. */
  lemma {:induction false} LettersAround(pattern: string, a: nat, b: nat, k: nat, z: char)
    requires a <= k < b <= |pattern| && pattern[k] != '*'
    ensures |Letters(pattern, a, b, z)| == |Letters(pattern, a, k, z)| + 1 + |Letters(pattern, k + 1, b, z)|
  {
    LettersSplit(pattern, a, k, b, z);
  }

  /** Behind the segment there is a letter; if it is the only one and nothing follows the last star, no '?'. */
  lemma {:induction false} NextLetter(pattern: string, b: nat, l: nat, z: char) returns (k: nat)
    requires b < l <= |pattern| && pattern[b] == '*' && pattern[l - 1] == '*' && StarFree(pattern, l, |pattern|)
    requires !StarsThenText(pattern, b, l) && !OneAny(pattern, b)
    ensures b < k < l && pattern[k] != '*' && |Letters(pattern, b, l, z)| >= 1
    ensures |Letters(pattern, b, l, z)| == 1 && l == |pattern| ==> pattern[k] != '?'
  {
    hide Letters;
    k :| b <= k < l && pattern[k] != '*';
    LettersAround(pattern, b, l, k, z);
    if pattern[k] == '?' && l == |pattern| {
      var m :| b <= m < |pattern| && m != k && pattern[m] != '*';
      if m < k {
        LettersAround(pattern, b, k, m, z);
      } else {
        LettersAround(pattern, k + 1, l, m, z);
      }
    }
  }

  /** With something between, the name is still one of the pattern. */
  lemma {:induction false} TrapNameMatches(
    name: string, pattern: string, a: nat, b: nat, l: nat, d: nat, t: nat, z: char, filler: string)
    requires Segment(pattern, a, b) && 0 < t <= d < b - a && Drops(pattern, a, d, t) && Fresh(z, pattern)
    requires b < l <= |pattern| && pattern[l - 1] == '*'
    requires name == Letters(pattern, 0, a, z) + Trap(pattern, a, b, d, t, z) + Letters(pattern, b, l, z)
                     + filler + Letters(pattern, l, |pattern|, z)
    ensures Matches(pattern, name)
  {
    hide Trap, Letters, Drops, Fresh, Glob;
    var pre, u, y, tail :=
      Letters(pattern, 0, a, z), Trap(pattern, a, b, d, t, z), Letters(pattern, b, l, z), Letters(pattern, l, |pattern|, z);
    var i, n := |pre + u + y|, |name| - |tail|;
    assert TextAt(name, n, tail) && TextAt(name, 0, pre) && TextAt(name, |pre|, u) && TextAt(name, |pre + u|, y);
    TailGlob(name, pattern, l, n, z);
    StarGlob(name, pattern, l - 1, i, n);
    LettersSplit(pattern, b, l - 1, l, z);
    StarLetters(pattern, l - 1, z);
    assert y == Letters(pattern, b, l - 1, z);
    LettersGlob(pattern, b, l - 1, name, |pre + u|, z);
    TrapMatches(name, pattern, a, b, d, t, z, |pre|);
    PrefixMatches(name, pattern, a, z);
  }

  lemma {:induction false} StarLetters(pattern: string, k: nat, z: char)
    requires k < |pattern| && pattern[k] == '*'
    ensures Letters(pattern, k, k + 1, z) == ""
  {
  }

  lemma {:induction false} TailGlob(name: string, pattern: string, l: nat, n: nat, z: char)
    requires l <= |pattern| && TextAt(name, n, Letters(pattern, l, |pattern|, z))
    requires n + |Letters(pattern, l, |pattern|, z)| == |name|
    ensures Glob(pattern, l, name, n)
  {
    LettersGlob(pattern, l, |pattern|, name, n, z);
  }

  lemma {:induction false} StarGlob(name: string, pattern: string, k: nat, i: nat, n: nat)
    requires k < |pattern| && pattern[k] == '*' && i <= n <= |name| && Glob(pattern, k + 1, name, n)
    ensures Glob(pattern, k, name, i)
  {
    assert GlobFrom(pattern, k + 1, name, i);
  }

  /** What is left of the name is too short for the rest of the pattern, or lacks a letter of it. */
  lemma {:induction false} RestMissing(name: string, pattern: string, b: nat, l: nat, z: char, e: nat)
    requires b < l <= |pattern| && pattern[b] == '*' && pattern[l - 1] == '*' && StarFree(pattern, l, |pattern|)
    requires !StarsThenText(pattern, b, l) && !OneAny(pattern, b) && Fresh(z, pattern) && e <= |name|
    requires || |name| - e < |Letters(pattern, b, l, z)| + |Letters(pattern, l, |pattern|, z)|
             || (l == |pattern| && name[e..] == [z])
    ensures !GlobFrom(pattern, b + 1, name, e)
  {
    hide Letters, Glob;
    if GlobFrom(pattern, b + 1, name, e) {
      var q :| e <= q <= |name| && Glob(pattern, b + 1, name, q);
      var k := NextLetter(pattern, b, l, z);
      LettersFit(pattern, b + 1, name, q, z);
      LettersSplit(pattern, b, l, |pattern|, z);
      LettersSplit(pattern, b, b + 1, |pattern|, z);
      StarLetters(pattern, b, z);
      if l == |pattern| && name[e..] == [z] {
        NoLetters(pattern, z);
        if pattern[k] != '?' {
          OnlyFresh(name, pattern, b, q, e, k, z);
        }
      }
    }
  }

  lemma {:induction false} NoLetters(pattern: string, z: char)
    ensures Letters(pattern, |pattern|, |pattern|, z) == ""
  {
  }

  lemma {:induction false} OnlyFresh(name: string, pattern: string, b: nat, q: nat, e: nat, k: nat, z: char)
    requires b < k < |pattern| && pattern[k] != '*' && pattern[k] != '?' && Fresh(z, pattern)
    requires e <= q <= |name| && Glob(pattern, b + 1, name, q)
    ensures name[e..] != [z]
  {
    LetterFound(pattern, b + 1, name, q, k);
    assert name[q..] == name[e..][q - e..];
    assert pattern[k] in name[e..] && pattern[k] != z;
  }

  /** The trap, with the pattern's text in front of it and the letters up to the last star behind it. */
  function Base(pattern: string, a: nat, b: nat, l: nat, d: nat, t: nat, z: char): string
    requires a <= b <= l <= |pattern| && t <= d < b - a
  {
    Letters(pattern, 0, a, z) + Trap(pattern, a, b, d, t, z) + Letters(pattern, b, l, z)
  }

  /** Completes the search, if it has not ended yet, and leaves one useless character if there would be none. */
  function Filler(base: string, pattern: string, a: nat, b: nat, l: nat, i0: nat, z: char): string
    requires a <= b <= l <= |pattern| && i0 <= |base|
  {
    var r := Scan(base, pattern, a, b, i0, a);
    Letters(pattern, r.1, b, z) + if l == |pattern| && (r.1 < b || r.0 == |base|) then [z] else ""
  }

  /** Where the search ends. */
  function FoundAt(base: string, pattern: string, a: nat, b: nat, i0: nat, z: char): nat
    requires a <= b <= |pattern| && i0 <= |base|
  {
    var r := Scan(base, pattern, a, b, i0, a);
    r.0 + |Letters(pattern, r.1, b, z)|
  }

  lemma {:induction false} FillerScan(base: string, more: string, pattern: string, a: nat, b: nat, l: nat, i0: nat, z: char)
    requires Segment(pattern, a, b) && b <= l <= |pattern| && i0 <= |base|
    ensures var name := base + Filler(base, pattern, a, b, l, i0, z) + more;
      Scan(name, pattern, a, b, i0, a) == (FoundAt(base, pattern, a, b, i0, z), b)
  {
    var filler := Filler(base, pattern, a, b, l, i0, z);
    var r := Scan(base, pattern, a, b, i0, a);
    var rest := Letters(pattern, r.1, b, z);
    var name := base + filler + more;
    hide Scan, Letters, Suits;
    LettersLiteral(pattern, r.1, b, z);
    ScanExtends(base, filler + more, pattern, a, b, i0, a);
    assert name == base + (filler + more);
    if r.1 < b {
      assert TextAt(name, |base|, rest);
      LettersSuit(name, pattern, r.1, b, |base|, z);
      ScanMatches(name, pattern, a, b, |base|, r.1, b);
    }
    ScanDone(name, pattern, a, b, FoundAt(base, pattern, a, b, i0, z));
  }

  lemma {:induction false} ScanDone(name: string, pattern: string, a: nat, b: nat, e: nat)
    requires a <= b <= |pattern| && e <= |name|
    ensures Scan(name, pattern, a, b, e, b) == (e, b)
  {
  }

  /** Behind the place where the search ends, too little is left. */
  lemma {:induction false} FillerRest(base: string, tail: string, pattern: string, a: nat, b: nat, l: nat, i0: nat, ys: nat, z: char)
    requires Segment(pattern, a, b) && b <= l <= |pattern| && i0 <= |base| && (tail == "" <==> l == |pattern|)
    requires 0 < ys <= |base| && FoundAt(base, pattern, a, b, i0, z) > |base| - ys
    ensures var name := base + Filler(base, pattern, a, b, l, i0, z) + tail;
      var e := FoundAt(base, pattern, a, b, i0, z);
      e < |name| && (|name| - e < ys + |tail| || (l == |pattern| && name[e..] == [z]))
  {
    hide Scan, Letters;
    var r := Scan(base, pattern, a, b, i0, a);
    NoLettersAt(pattern, b, z);
    var name := base + Filler(base, pattern, a, b, l, i0, z) + tail;
    var e := FoundAt(base, pattern, a, b, i0, z);
    if l == |pattern| && (r.1 < b || r.0 == |base|) {
      assert name == base + Letters(pattern, r.1, b, z) + [z];
      assert name[e..] == [z];
    }
  }

  lemma {:induction false} NoLettersAt(pattern: string, b: nat, z: char)
    requires b <= |pattern|
    ensures Letters(pattern, b, b, z) == ""
  {
  }

  lemma {:induction false} BaseStarFree(pattern: string, a: nat, b: nat, l: nat, d: nat, t: nat, z: char, i0: nat)
    requires Segment(pattern, a, b) && b <= l <= |pattern| && Fresh(z, pattern)
    requires 0 < t <= d < b - a && Drops(pattern, a, d, t)
    requires i0 <= |Base(pattern, a, b, l, d, t, z)|
    ensures '*' !in Base(pattern, a, b, l, d, t, z)
    ensures '*' !in Filler(Base(pattern, a, b, l, d, t, z), pattern, a, b, l, i0, z)
  {
    hide Letters, Trap, Scan;
    LettersStarFree(pattern, 0, a, z);
    LettersStarFree(pattern, b, l, z);
    TrapShape(pattern, a, b, d, t, z);
    var r := Scan(Base(pattern, a, b, l, d, t, z), pattern, a, b, i0, a);
    LettersStarFree(pattern, r.1, b, z);
  }

  /** The search of the trap ends behind the trap. */
  lemma {:induction false} BaseFound(pattern: string, a: nat, b: nat, l: nat, d: nat, t: nat, z: char)
    requires Segment(pattern, a, b) && b < l <= |pattern| && Fresh(z, pattern)
    requires 0 < t <= d < b - a && Drops(pattern, a, d, t)
    ensures var base, i0 := Base(pattern, a, b, l, d, t, z), |Letters(pattern, 0, a, z)|;
      FoundAt(base, pattern, a, b, i0, z) > |base| - |Letters(pattern, b, l, z)|
  {
    hide Letters, Trap, Scan, Fresh, Drops;
    var pre, u, y := Letters(pattern, 0, a, z), Trap(pattern, a, b, d, t, z), Letters(pattern, b, l, z);
    var base := pre + u + y;
    assert TextAt(base, |pre|, u);
    TrapPasses(base, pattern, a, b, d, t, z, |pre|);
    var r := Scan(base, pattern, a, b, |pre|, a);
    LettersLiteral(pattern, r.1, b, z);
  }

  lemma {:induction false} LossyAt(pattern: string, a: nat, b: nat) returns (d: nat, t: nat)
    requires a <= b <= |pattern| && !Lossless(pattern, a, b)
    ensures 0 < t <= d < b - a && Drops(pattern, a, d, t)
  {
    hide Drops;
    d, t :| 0 < t <= d < b - a && Drops(pattern, a, d, t);
  }

  /**
   For a segment whose search can pass by its first occurrence, with a letter between two later stars, there
   is a name of the pattern's language that is refused. The one exception is a single '?' as the only letter
   behind the segment, which fits behind every occurrence.
   */
  lemma {:induction false} LossyRefused(pattern: string, a: nat, b: nat, l: nat, z: char) returns (name: string)
    requires Segment(pattern, a, b) && !Lossless(pattern, a, b) && Fresh(z, pattern)
    requires b < l <= |pattern| && pattern[l - 1] == '*' && StarFree(pattern, l, |pattern|)
    requires !StarsThenText(pattern, b, l) && !OneAny(pattern, b)
    ensures '*' !in name && Matches(pattern, name) && !AdvancedRun(name, pattern, 0, 0, -1, -1)
  {
    hide Letters, Trap, Drops, Lossless, StarsThenText, OneAny, Glob, GlobFrom, AdvancedRun, Scan, Filler, FoundAt, Fresh, TextAt;
    var d, t := LossyAt(pattern, a, b);
    var pre, y, tail := Letters(pattern, 0, a, z), Letters(pattern, b, l, z), Letters(pattern, l, |pattern|, z);
    var base := Base(pattern, a, b, l, d, t, z);
    var filler, e := Filler(base, pattern, a, b, l, |pre|, z), FoundAt(base, pattern, a, b, |pre|, z);
    name := base + filler + tail;
    BaseStarFree(pattern, a, b, l, d, t, z, |pre|);
    LettersStarFree(pattern, l, |pattern|, z);
    LettersLiteral(pattern, l, |pattern|, z);
    TrapNameMatches(name, pattern, a, b, l, d, t, z, filler);
    FillerScan(base, tail, pattern, a, b, l, |pre|, z);
    BaseFound(pattern, a, b, l, d, t, z);
    var k := NextLetter(pattern, b, l, z);
    FillerRest(base, tail, pattern, a, b, l, |pre|, |y|, z);
    RestMissing(name, pattern, b, l, z, e);
    RefusedFrom(name, pattern, a, b, e, z);
  }

  // ---------------------------------------------------------------------------------------
  // A segment in front of the last text

  /** The search in a part of the name. */
  lemma {:induction false} ScanIn(name: string, i0: nat, s: string, pattern: string, a: nat, b: nat, i: nat, j: nat)
    requires TextAt(name, i0, s) && a <= j <= b <= |pattern| && i <= |s|
    ensures var r := Scan(s, pattern, a, b, i, j);
      Scan(name, pattern, a, b, i0 + i, j) == Scan(name, pattern, a, b, i0 + r.0, r.1)
    decreases |s| - i
  {
    if j < b && i < |s| {
      TextChar(name, i0, s, i);
      ScanIn(name, i0, s, pattern, a, b, i + 1, NextState(pattern, a, j, s[i]));
    }
  }

  /** A text that the end of the pattern suits, in which the search ends too early. */
  lemma {:induction false} FindText(pattern: string, a: nat, b: nat, j: nat, k: nat, z: char) returns (s: string, e: nat)
    requires Segment(pattern, a, b) && a <= j <= b && k <= |pattern| && StarFree(pattern, k, |pattern|) && Fresh(z, pattern)
    requires CanFind(pattern, a, b, j, k)
    ensures |s| == |pattern| - k && Suits(s, pattern, k, |pattern|, 0) && '*' !in s
    ensures e < |s| && (j < b ==> 0 < e) && Scan(s, pattern, a, b, 0, j) == (e, b)
    decreases |pattern| - k
  {
    if j == b {
      s, e := Letters(pattern, k, |pattern|, z), 0;
      LettersLiteral(pattern, k, |pattern|, z);
      LettersStarFree(pattern, k, |pattern|, z);
      assert TextAt(s, 0, s);
      LettersSuit(s, pattern, k, |pattern|, 0, z);
    } else {
      var d: char :| CanFind(pattern, a, b, NextState(pattern, a, j, d), k + 1) && (pattern[k] == '?' || pattern[k] == d);
      var c := if d == '*' then z else d;
      assert pattern[j] in pattern && pattern[a] in pattern;
      assert NextState(pattern, a, j, c) == NextState(pattern, a, j, d);
      var rest, f := FindText(pattern, a, b, NextState(pattern, a, j, c), k + 1, z);
      s, e := [c] + rest, f + 1;
      TextInFront(c, rest, pattern, k);
      ScanFirst(c, rest, pattern, a, b, j);
      ScanDone(s, pattern, a, b, e);
    }
  }

  /** One character more in front. */
  lemma {:induction false} TextInFront(c: char, rest: string, pattern: string, k: nat)
    requires k < |pattern| && (pattern[k] == '?' || pattern[k] == c)
    requires |rest| == |pattern| - (k + 1) && Suits(rest, pattern, k + 1, |pattern|, 0)
    ensures Suits([c] + rest, pattern, k, |pattern|, 0)
  {
    var s := [c] + rest;
    forall q | k <= q < |pattern|
      ensures pattern[q] == '?' || pattern[q] == s[q - k]
    {
      if q > k {
        assert pattern[q] == '?' || pattern[q] == rest[0 + (q - (k + 1))];
      }
    }
  }

  lemma {:induction false} ScanFirst(c: char, rest: string, pattern: string, a: nat, b: nat, j: nat)
    requires a <= j < b <= |pattern|
    ensures var s, r := [c] + rest, Scan(rest, pattern, a, b, 0, NextState(pattern, a, j, c));
      Scan(s, pattern, a, b, 0, j) == Scan(s, pattern, a, b, 1 + r.0, r.1)
  {
    var s := [c] + rest;
    assert TextAt(s, 1, rest);
    ScanIn(s, 1, rest, pattern, a, b, 0, NextState(pattern, a, j, c));
  }

  /** Characters that do not occur in the pattern lead the search back to the beginning of a segment with a literal end. */
  lemma {:induction false} Reset(pattern: string, a: nat, b: nat, j: nat, z: char) returns (s: string)
    requires Segment(pattern, a, b) && a <= j < b && pattern[b - 1] != '?' && Fresh(z, pattern)
    ensures '*' !in s && Scan(s, pattern, a, b, 0, j) == (|s|, a)
    decreases b - j
  {
    assert pattern[j] in pattern && pattern[a] in pattern;
    if pattern[j] != '?' {
      s := [z];
      assert Scan(s, pattern, a, b, 1, a) == (1, a);
    } else {
      var rest := Reset(pattern, a, b, j + 1, z);
      s := [z] + rest;
      ScanFirst(z, rest, pattern, a, b, j);
    }
  }

  lemma {:induction false} ScanLetters(pattern: string, a: nat, b: nat, j: nat, k: nat, z: char)
    requires Segment(pattern, a, b) && a <= j <= k < b && Fresh(z, pattern)
    ensures var s := Letters(pattern, j, k, z); '*' !in s && Scan(s, pattern, a, b, 0, j) == (|s|, k)
  {
    var s := Letters(pattern, j, k, z);
    LettersLiteral(pattern, j, k, z);
    LettersStarFree(pattern, j, k, z);
    assert TextAt(s, 0, s);
    LettersSuit(s, pattern, j, k, 0, z);
    ScanMatches(s, pattern, a, b, 0, j, k);
  }

  /** Text that leads the search from j0 to a place from which it ends too early, if there is such a place. */
  lemma {:induction false} Steer(pattern: string, a: nat, b: nat, j0: nat, l: nat, z: char) returns (s: string, j: nat)
    requires Segment(pattern, a, b) && a <= j0 < b && StarsThenText(pattern, b, l) && Fresh(z, pattern)
    requires !Missed(pattern, a, b, l)
    ensures '*' !in s && a <= j < b && CanFind(pattern, a, b, j, l) && Scan(s, pattern, a, b, 0, j0) == (|s|, j)
  {
    j :| a <= j < b && CanFind(pattern, a, b, j, l);
    if pattern[b - 1] == '?' {
      j := b - 1;
      AnyFinds(pattern, a, b, l);
      s := Letters(pattern, j0, j, z);
      ScanLetters(pattern, a, b, j0, j, z);
    } else {
      var there := Letters(pattern, a, j, z);
      var back := Reset(pattern, a, b, j0, z);
      ScanLetters(pattern, a, b, a, j, z);
      s := back + there;
      assert TextAt(s, 0, back) && TextAt(s, |back|, there);
      ScanIn(s, 0, back, pattern, a, b, 0, j0);
      ScanIn(s, |back|, there, pattern, a, b, 0, a);
    }
  }

  lemma {:induction false} AnyFinds(pattern: string, a: nat, b: nat, l: nat)
    requires a < b < |pattern| && pattern[b - 1] == '?' && l <= |pattern| && !Missed(pattern, a, b, l)
    ensures CanFind(pattern, a, b, b - 1, l)
  {
    var j :| a <= j < b && CanFind(pattern, a, b, j, l);
    var c: char :| CanFind(pattern, a, b, NextState(pattern, a, j, c), l + 1) && (pattern[l] == '?' || pattern[l] == c);
    assert CanFind(pattern, a, b, NextState(pattern, a, b - 1, c), l + 1);
  }

  /**
   A lossy segment in front of the last text whose search can end within this text has a refused name: the
   trap, text that leads the search to the right place, and the last text.
   */
  lemma {:induction false} TextRefused(pattern: string, a: nat, b: nat, l: nat, z: char) returns (name: string)
    requires Segment(pattern, a, b) && !Lossless(pattern, a, b) && Fresh(z, pattern)
    requires StarsThenText(pattern, b, l) && !Missed(pattern, a, b, l)
    ensures '*' !in name && Matches(pattern, name) && !AdvancedRun(name, pattern, 0, 0, -1, -1)
  {
    hide Letters, Trap, Drops, Lossless, GlobFrom, AdvancedRun, Scan, Matches, Fresh, TextAt, Suits, CanFind, Missed;
    var d, t := LossyAt(pattern, a, b);
    var pre, u := Letters(pattern, 0, a, z), Trap(pattern, a, b, d, t, z);
    var base := pre + u;
    var j0 := TrapState(pattern, a, b, d, t, z);
    var w, j := Steer(pattern, a, b, j0, l, z);
    var s, e := FindText(pattern, a, b, j, l, z);
    name := base + w + s;
    TrapShape(pattern, a, b, d, t, z);
    LettersStarFree(pattern, 0, a, z);
    ThreeScans(name, base, w, s, pattern, a, b, |pre|, j0, j, e);
    RefusedText(name, base, w, s, pattern, a, b, l, d, t, e, z);
    RefusedFrom(name, pattern, a, b, |base| + |w| + e, z);
  }

  /** Where the trap leads the search. */
  lemma {:induction false} TrapState(pattern: string, a: nat, b: nat, d: nat, t: nat, z: char) returns (j: nat)
    requires Segment(pattern, a, b) && 0 < t <= d < b - a && Drops(pattern, a, d, t) && Fresh(z, pattern)
    ensures a <= j < b
    ensures var pre := Letters(pattern, 0, a, z); var base := pre + Trap(pattern, a, b, d, t, z);
      Scan(base, pattern, a, b, |pre|, a) == (|base|, j)
  {
    hide Trap, Letters, Scan, Drops, Fresh;
    var pre := Letters(pattern, 0, a, z);
    var base := pre + Trap(pattern, a, b, d, t, z);
    assert TextAt(base, |pre|, Trap(pattern, a, b, d, t, z));
    TrapPasses(base, pattern, a, b, d, t, z, |pre|);
    j := Scan(base, pattern, a, b, |pre|, a).1;
  }

  lemma {:induction false} ThreeScans(
    name: string, base: string, w: string, s: string, pattern: string, a: nat, b: nat, i0: nat, j0: nat, j: nat, e: nat)
    requires name == base + w + s && a <= b <= |pattern| && a <= j0 <= b && a <= j <= b && i0 <= |base| && e <= |s|
    requires Scan(base, pattern, a, b, i0, a) == (|base|, j0)
    requires Scan(w, pattern, a, b, 0, j0) == (|w|, j) && Scan(s, pattern, a, b, 0, j) == (e, b)
    ensures Scan(name, pattern, a, b, i0, a) == (|base| + |w| + e, b)
  {
    hide Scan;
    ScanExtends(base, w + s, pattern, a, b, i0, a);
    assert name == base + (w + s);
    assert TextAt(name, |base|, w) && TextAt(name, |base| + |w|, s);
    ScanIn(name, |base|, w, pattern, a, b, 0, j0);
    ScanIn(name, |base| + |w|, s, pattern, a, b, 0, j);
    ScanDone(name, pattern, a, b, |base| + |w| + e);
  }

  lemma {:induction false} RefusedText(
    name: string, base: string, w: string, s: string, pattern: string, a: nat, b: nat, l: nat, d: nat, t: nat, e: nat, z: char)
    requires Segment(pattern, a, b) && 0 < t <= d < b - a && Drops(pattern, a, d, t) && Fresh(z, pattern)
    requires StarsThenText(pattern, b, l) && Suits(s, pattern, l, |pattern|, 0) && |s| == |pattern| - l && 0 < e < |s|
    requires base == Letters(pattern, 0, a, z) + Trap(pattern, a, b, d, t, z) && name == base + w + s
    ensures Matches(pattern, name) && Letters(pattern, 0, a, z) <= name
    ensures !GlobFrom(pattern, b + 1, name, |base| + |w| + e)
  {
    hide Letters, Trap, Drops, Glob, GlobFrom, Suits, Fresh;
    var pre, x := Letters(pattern, 0, a, z), |base| + |w|;
    assert TextAt(name, 0, pre) && TextAt(name, |pre|, Trap(pattern, a, b, d, t, z)) && TextAt(name, x, s);
    SuitsIn(name, x, s, pattern, l, |pattern|, 0);
    AtEnd(name, pattern);
    LiteralGlob(name, pattern, l, |pattern|, x);
    OverlapRest(name, pattern, b, l, |base|, x, x + e);
    TrapMatches(name, pattern, a, b, d, t, z, |pre|);
    PrefixMatches(name, pattern, a, z);
  }

  lemma {:induction false} AtEnd(name: string, pattern: string)
    ensures Glob(pattern, |pattern|, name, |name|)
  {
  }

  lemma {:induction false} OverlapRest(name: string, pattern: string, b: nat, l: nat, i: nat, x: nat, e: nat)
    requires StarsThenText(pattern, b, l) && i <= x < e <= |name| && x + (|pattern| - l) == |name|
    requires Glob(pattern, l, name, x)
    ensures Glob(pattern, b, name, i) && !GlobFrom(pattern, b + 1, name, e)
  {
    StarsReach(pattern, b + 1, l, name, i, x);
    if GlobFrom(pattern, b + 1, name, e) {
      var q :| e <= q <= |name| && Glob(pattern, b + 1, name, q);
      TextAtEnd(pattern, b + 1, l, name, q);
    }
  }

  lemma {:induction false} LastText(pattern: string, b: nat) returns (l: nat)
    requires b < |pattern| && pattern[b] == '*'
    ensures b < l <= |pattern| && pattern[l - 1] == '*' && StarFree(pattern, l, |pattern|)
  {
    l := |pattern|;
    while pattern[l - 1] != '*'
      invariant b < l <= |pattern| && StarFree(pattern, l, |pattern|)
      decreases l
    {
      l := l - 1;
    }
  }

  /**
   Exactly, for every pattern: advanced_match decides it for all names without '*' if and only if each of its
   inner segments is lossless or harmless.
   */
  lemma {:induction false} DecidedExactly(pattern: string, z: char)
    requires Fresh(z, pattern)
    ensures Searchable(pattern)
            <==> forall name: string :: '*' !in name ==> (AdvancedRun(name, pattern, 0, 0, -1, -1) <==> Matches(pattern, name))
  {
    hide Lossless, OneAny, Missed, StarsThenText, Glob, AdvancedRun;
    if Searchable(pattern) {
      forall name: string | '*' !in name
        ensures AdvancedRun(name, pattern, 0, 0, -1, -1) <==> Matches(pattern, name)
      {
        AdvancedDecides(name, pattern);
      }
    } else {
      var a: nat, b: nat :| Segment(pattern, a, b) && !Lossless(pattern, a, b) && !Harmless(pattern, a, b);
      var l := LastText(pattern, b);
      var name;
      if StarsThenText(pattern, b, l) {
        name := TextRefused(pattern, a, b, l, z);
      } else {
        name := LossyRefused(pattern, a, b, l, z);
      }
    }
  }
}
