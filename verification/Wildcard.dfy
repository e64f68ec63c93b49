/**
 File name patterns (common/wildcard.c).

 Names and patterns are the characters in front of the terminating NUL; reading the NUL is
 reaching the end of the sequence. Pointers become indices, a NULL pointer becomes -1.
 */
module Wildcard {

  // ---------------------------------------------------------------------------------------
  // What a pattern means: '*' stands for any string, '?' for any one character.

  /** The pattern from index j on denotes the name from index i on. */
  ghost predicate Glob(pattern: string, j: nat, name: string, i: nat)
    requires j <= |pattern| && i <= |name|
    decreases |pattern| - j, 0
  {
    if j == |pattern| then i == |name|
    else if pattern[j] == '*' then GlobFrom(pattern, j + 1, name, i)
    else i < |name| && (pattern[j] == '?' || pattern[j] == name[i]) && Glob(pattern, j + 1, name, i + 1)
  }

  /** The pattern from index j on denotes some suffix of the name starting at or after index from. */
  ghost predicate GlobFrom(pattern: string, j: nat, name: string, from: nat)
    requires j <= |pattern|
    decreases |pattern| - j, 1
  {
    exists k: nat :: from <= k <= |name| && Glob(pattern, j, name, k)
  }

  ghost predicate Matches(pattern: string, name: string) {
    Glob(pattern, 0, name, 0)
  }

  /** What a character of a pattern can stand for. */
  predicate StandsFor(p: char, part: string) {
    p == '*' || (p == '?' && |part| == 1) || part == [p]
  }

  function Glued(parts: seq<string>): string {
    if parts == [] then "" else parts[0] + Glued(parts[1..])
  }

  /** The parts that the pattern from j on stands for. */
  ghost predicate Fills(pattern: string, j: nat, parts: seq<string>)
    requires j <= |pattern|
  {
    |parts| == |pattern| - j && forall k :: 0 <= k < |parts| ==> StandsFor(pattern[j + k], parts[k])
  }

  /** A name is in the language exactly if it consists of parts that the pattern's characters stand for. */
  lemma {:induction false} MatchesMeans(pattern: string, name: string)
    ensures Matches(pattern, name) <==>
            exists parts: seq<string> :: |parts| == |pattern| && Glued(parts) == name
              && forall k :: 0 <= k < |parts| ==> StandsFor(pattern[k], parts[k])
  {
    assert name[0..] == name;
    if Matches(pattern, name) {
      var parts := PartsOf(pattern, 0, name, 0);
      assert forall k :: 0 <= k < |parts| ==> StandsFor(pattern[0 + k], parts[k]);
    }
    forall parts: seq<string> | |parts| == |pattern| && Glued(parts) == name
                                && forall k :: 0 <= k < |parts| ==> StandsFor(pattern[k], parts[k])
      ensures Matches(pattern, name)
    {
      GlobOf(pattern, 0, name, 0, parts);
    }
  }

  lemma {:induction false} PartsOf(pattern: string, j: nat, name: string, i: nat) returns (parts: seq<string>)
    requires j <= |pattern| && i <= |name| && Glob(pattern, j, name, i)
    ensures Fills(pattern, j, parts) && Glued(parts) == name[i..]
    decreases |pattern| - j
  {
    if j == |pattern| {
      parts := [];
    } else {
      var k: nat := i + 1;
      if pattern[j] == '*' {
        k :| i <= k <= |name| && Glob(pattern, j + 1, name, k);
      }
      var more := PartsOf(pattern, j + 1, name, k);
      parts := [name[i..k]] + more;
      assert parts[1..] == more && name[i..] == name[i..k] + name[k..];
      forall m | 0 <= m < |parts|
        ensures StandsFor(pattern[j + m], parts[m])
      {
        if m > 0 {
          assert StandsFor(pattern[j + 1 + (m - 1)], more[m - 1]);
        }
      }
    }
  }

  lemma {:induction false} GlobOf(pattern: string, j: nat, name: string, i: nat, parts: seq<string>)
    requires j <= |pattern| && i <= |name| && Fills(pattern, j, parts) && Glued(parts) == name[i..]
    ensures Glob(pattern, j, name, i)
    decreases |pattern| - j
  {
    if j < |pattern| {
      var k := i + |parts[0]|;
      assert StandsFor(pattern[j + 0], parts[0]);
      assert name[i..][|parts[0]|..] == name[k..] && name[i..][..|parts[0]|] == parts[0];
      forall m | 0 <= m < |parts[1..]|
        ensures StandsFor(pattern[j + 1 + m], parts[1..][m])
      {
        assert StandsFor(pattern[j + (m + 1)], parts[m + 1]);
      }
      GlobOf(pattern, j + 1, name, k, parts[1..]);
      assert pattern[j] != '*' ==> k == i + 1 && (pattern[j] == '?' || name[i..][0] == pattern[j]);
    }
  }

  /** The value of advanced_match's loop, started in an arbitrary state. */
  predicate AdvancedRun(name: string, pattern: string, i: nat, j: nat, afterName: int, afterPattern: int)
    requires i <= |name| && j <= |pattern|
    requires -1 <= afterName <= |name| && -1 <= afterPattern <= j
    requires afterName == -1 <==> afterPattern == -1
    decreases |pattern| - afterPattern, |name| - afterName, |name| - i, |pattern| - j
  {
    if i == |name| then
      if j == |pattern| then true
      else if pattern[j] == '*' then AdvancedRun(name, pattern, i, j + 1, afterName, afterPattern)
      else if afterName != -1 then
        if afterName == |name| then false
        else AdvancedRun(name, pattern, afterName, afterPattern, afterName + 1, afterPattern)
      else false
    else if j == |pattern| || (name[i] != pattern[j] && pattern[j] != '?') then
      if j < |pattern| && pattern[j] == '*' then
        if j + 1 == |pattern| then true
        else AdvancedRun(name, pattern, i, j + 1, i, j + 1)
      else if afterPattern != -1 then
        if afterPattern != j && name[i] == pattern[afterPattern] then
          AdvancedRun(name, pattern, i + 1, afterPattern + 1, afterName, afterPattern)
        else AdvancedRun(name, pattern, i + 1, afterPattern, afterName, afterPattern)
      else false
    else AdvancedRun(name, pattern, i + 1, j + 1, afterName, afterPattern)
  }

  // ---------------------------------------------------------------------------------------
  // Soundness, for every name and every pattern

  ghost predicate RestartOk(i: nat, j: nat, afterName: int, afterPattern: int) {
    afterName != -1 ==> afterName <= i || (afterName == i + 1 && j == afterPattern)
  }

  lemma {:induction false} RunSound(name: string, pattern: string, i: nat, j: nat, afterName: int, afterPattern: int)
    requires i <= |name| && j <= |pattern|
    requires -1 <= afterName <= |name| && -1 <= afterPattern <= j
    requires afterName == -1 <==> afterPattern == -1
    requires RestartOk(i, j, afterName, afterPattern)
    requires AdvancedRun(name, pattern, i, j, afterName, afterPattern)
    ensures Glob(pattern, j, name, i) || (afterName != -1 && GlobFrom(pattern, afterPattern, name, afterName))
    decreases |pattern| - afterPattern, |name| - afterName, |name| - i, |pattern| - j
  {
    if i == |name| {
      if j == |pattern| {
      } else if pattern[j] == '*' {
        RunSound(name, pattern, i, j + 1, afterName, afterPattern);
      } else {
        RunSound(name, pattern, afterName, afterPattern, afterName + 1, afterPattern);
      }
    } else if j == |pattern| || (name[i] != pattern[j] && pattern[j] != '?') {
      if j < |pattern| && pattern[j] == '*' {
        if j + 1 == |pattern| {
          assert Glob(pattern, j + 1, name, |name|);
        } else {
          RunSound(name, pattern, i, j + 1, i, j + 1);
        }
      } else if afterPattern != j && name[i] == pattern[afterPattern] {
        RunSound(name, pattern, i + 1, afterPattern + 1, afterName, afterPattern);
        if Glob(pattern, afterPattern + 1, name, i + 1) {
          assert Glob(pattern, afterPattern, name, i);
        }
      } else {
        RunSound(name, pattern, i + 1, afterPattern, afterName, afterPattern);
      }
    } else {
      RunSound(name, pattern, i + 1, j + 1, afterName, afterPattern);
    }
  }

  /** advanced_match never accepts a name outside the language of the pattern. */
  lemma {:induction false} AdvancedSound(name: string, pattern: string)
    requires AdvancedRun(name, pattern, 0, 0, -1, -1)
    ensures Matches(pattern, name)
  {
    RunSound(name, pattern, 0, 0, -1, -1);
  }

  // ---------------------------------------------------------------------------------------
  // Completeness

  ghost predicate StarFree(s: string, a: nat, b: nat)
    requires b <= |s|
  {
    forall k :: a <= k < b ==> s[k] != '*'
  }

  /** The text between two stars, of which the first stands just in front of index a. */
  ghost predicate Segment(pattern: string, a: nat, b: nat) {
    0 < a <= b < |pattern| && pattern[a - 1] == '*' && pattern[b] == '*' && StarFree(pattern, a, b)
  }

  /** Some character suits both. */
  predicate Compatible(p: char, q: char) {
    p == '?' || q == '?' || p == q
  }

  /**
   The segment at a does not match its own text at a mismatch: after d characters that match and one that
   does not, a match that starts t characters behind the one given up is still possible, and scanning does
   not go back to it. It does go on with the mismatching character itself, but only if that is the
   segment's first one.
   */
  ghost predicate Drops(pattern: string, a: nat, d: nat, t: nat)
    requires 0 < t <= d && a + d < |pattern|
  {
    && pattern[a + d] != '?'
    && (forall k :: a + t <= k < a + d ==> Compatible(pattern[k], pattern[k - t]))
    && (if t == d then pattern[a] == '?' else pattern[a + d - t] == '?' || pattern[a + d - t] != pattern[a + d])
  }

  /** Scanning for the segment without rewinding the name finds its first occurrence. */
  ghost predicate Lossless(pattern: string, a: nat, b: nat)
    requires a <= b <= |pattern|
  {
    forall d: nat, t: nat :: 0 < t <= d < b - a ==> !Drops(pattern, a, d, t)
  }

  /** From b on there are stars, and behind them, from l on, the text that ends the pattern. */
  ghost predicate StarsThenText(pattern: string, b: nat, l: nat) {
    && b < l <= |pattern| && (forall k :: b <= k < l ==> pattern[k] == '*') && StarFree(pattern, l, |pattern|)
  }

  /** The segment from a to b can end o characters behind the start of the text at l. */
  ghost predicate Overlap(pattern: string, a: nat, b: nat, l: nat, o: nat)
    requires a <= b <= |pattern| && l + o <= |pattern|
  {
    forall k :: a <= k < b && b - o <= k ==> Compatible(pattern[k], pattern[l + o - (b - k)])
  }

  /** How the search for the segment at a goes on after a character: one further, or back to its beginning. */
  function NextState(pattern: string, a: nat, j: nat, c: char): nat
    requires a <= j < |pattern|
  {
    if c == pattern[j] || pattern[j] == '?' then j + 1
    else if j != a && c == pattern[a] then a + 1
    else a
  }

  /**
   The search for the segment from a to b, being at j when character k of the text that ends the pattern
   comes, can end in front of the last character of this text.
   */
  ghost predicate CanFind(pattern: string, a: nat, b: nat, j: nat, k: nat)
    requires a <= j <= b <= |pattern| && k <= |pattern|
    decreases |pattern| - k
  {
    && k < |pattern|
    && (j == b || exists c: char ::
          CanFind(pattern, a, b, NextState(pattern, a, j, c), k + 1) && (pattern[k] == '?' || pattern[k] == c))
  }

  /** Wherever the search is when the text at l comes, it does not end within the text. */
  ghost predicate Missed(pattern: string, a: nat, b: nat, l: nat)
    requires a <= b <= |pattern| && l <= |pattern|
  {
    forall j :: a <= j < b ==> !CanFind(pattern, a, b, j, l)
  }

  /** From b on there is one '?', and stars around it. */
  ghost predicate OneAny(pattern: string, b: nat) {
    exists k: nat :: b < k < |pattern| - 1 && pattern[k] == '?'
      && forall m :: b <= m < |pattern| && m != k ==> pattern[m] == '*'
  }

  /** It does not matter which occurrence of the segment is found: what follows it fits behind any of them. */
  ghost predicate Harmless(pattern: string, a: nat, b: nat)
    requires a <= b <= |pattern|
  {
    || (exists l: nat :: StarsThenText(pattern, b, l) && Missed(pattern, a, b, l))
    || OneAny(pattern, b)
  }

  /** The patterns that the advanced matcher decides. */
  ghost predicate Searchable(pattern: string) {
    forall a: nat, b: nat :: Segment(pattern, a, b) ==> Lossless(pattern, a, b) || Harmless(pattern, a, b)
  }

  ghost predicate OneStarAt(pattern: string, k: nat) {
    k < |pattern| && pattern[k] == '*' && StarFree(pattern, k + 1, |pattern|) && StarFree(pattern, 0, k)
  }

  /** The inputs on which the first star met is not taken for a literal one. */
  ghost predicate StarsApart(name: string, pattern: string, i: nat, j: nat, afterPattern: int) {
    || StarFree(name, 0, |name|)
    || StarFree(pattern, 0, |pattern|)
    || (exists k: nat :: OneStarAt(pattern, k) && !(k < |name| && name[k] == '*')
                    && (afterPattern == -1 && i < |name| ==> i == j))
  }

  /** The segment at ap, up to a star at b, has been matched up to j by what stands in front of i. */
  ghost predicate Matched(name: string, pattern: string, i: nat, j: nat, ap: nat, b: nat)
    requires i <= |name| && ap <= j <= |pattern|
  {
    && Segment(pattern, ap, b) && j <= b && j - ap <= i
    && (forall k :: ap <= k < j ==> pattern[k] == '?' || pattern[k] == name[i - (j - k)])
  }

  /** No start of a lossless segment has been passed by. */
  ghost predicate GoodMiddle(name: string, pattern: string, i: nat, j: nat, ap: nat, b: nat)
    requires i <= |name| && ap <= j <= |pattern|
  {
    && Matched(name, pattern, i, j, ap, b) && Lossless(pattern, ap, b)
    && GlobFrom(pattern, ap, name, i - (j - ap))
  }

  /** Within the text at the end of the name, the search is where it cannot find its segment any more. */
  ghost predicate Late(name: string, pattern: string, i: nat, j: nat, ap: nat, b: nat)
    requires i <= |name| && ap <= j <= b <= |pattern|
  {
    forall l: nat :: StarsThenText(pattern, b, l) && |name| - i < |pattern| - l ==>
      !CanFind(pattern, ap, b, j, |pattern| - (|name| - i))
  }

  /** A start s of a harmless segment is being tried, or still to be tried when the name has ended. */
  ghost predicate GoodLoose(name: string, pattern: string, i: nat, j: nat, an: nat, ap: nat, b: nat, s: nat)
    requires i <= |name| && ap <= j <= |pattern|
  {
    && Matched(name, pattern, i, j, ap, b) && Harmless(pattern, ap, b)
    && s <= |name| && Glob(pattern, ap, name, s) && (an <= s || i - (j - ap) == s)
    && Late(name, pattern, i, j, ap, b)
  }

  /** The name has ended behind a harmless segment, and there is a start s still to be tried. */
  ghost predicate GoodRetry(name: string, pattern: string, i: nat, j: nat, an: nat, ap: nat, b: nat, s: nat)
    requires i <= |name| && ap <= j <= |pattern|
  {
    && Segment(pattern, ap, b) && Harmless(pattern, ap, b)
    && i == |name| && b < j && an <= s <= |name| && Glob(pattern, ap, name, s)
  }

  /** The text after the last star is being matched; s is where it must start. */
  ghost predicate GoodLast(name: string, pattern: string, i: nat, j: nat, an: nat, ap: nat, s: nat)
    requires i <= |name| && ap <= j <= |pattern|
  {
    && 0 < ap < |pattern| && StarFree(pattern, ap, |pattern|)
    && s + (|pattern| - ap) == |name| && Glob(pattern, ap, name, s)
    && (an <= s || i - s == j - ap)
  }

  ghost predicate Good(name: string, pattern: string, i: nat, j: nat, an: int, ap: int)
    requires i <= |name| && -1 <= ap <= j <= |pattern| && (an == -1 <==> ap == -1) && -1 <= an
  {
    || (ap == -1 && Glob(pattern, j, name, i))
    || (i == |name| && Glob(pattern, j, name, i))
    || (ap != -1 && exists b: nat :: GoodMiddle(name, pattern, i, j, ap, b))
    || (ap != -1 && exists b: nat, s: nat :: GoodLoose(name, pattern, i, j, an, ap, b, s))
    || (ap != -1 && exists b: nat, s: nat :: GoodRetry(name, pattern, i, j, an, ap, b, s))
    || (ap != -1 && exists s: nat :: GoodLast(name, pattern, i, j, an, ap, s))
  }

  /** Star-free pattern text consumes one name character per pattern character. */
  lemma {:induction false} GlobLiteral(pattern: string, a: nat, b: nat, name: string, s: nat)
    requires a <= b <= |pattern| && s <= |name|
    requires StarFree(pattern, a, b)
    requires Glob(pattern, a, name, s)
    ensures s + (b - a) <= |name| && Glob(pattern, b, name, s + (b - a))
    ensures forall k :: a <= k < b ==> pattern[k] == '?' || pattern[k] == name[s + (k - a)]
    decreases b - a
  {
    if a < b {
      GlobLiteral(pattern, a + 1, b, name, s + 1);
      forall k | a <= k < b
        ensures pattern[k] == '?' || pattern[k] == name[s + (k - a)]
      {
        if k > a {
          assert name[s + (k - a)] == name[s + 1 + (k - (a + 1))];
        }
      }
    }
  }

  /** Entering the text behind a star: wherever it can match, the new restart point is good. */
  lemma {:induction false} GoodAfterStar(name: string, pattern: string, i: nat, ap: nat)
    requires i <= |name| && 0 < ap < |pattern| && pattern[ap - 1] == '*'
    requires Searchable(pattern) && GlobFrom(pattern, ap, name, i)
    ensures Good(name, pattern, i, ap, i, ap)
  {
    if StarFree(pattern, ap, |pattern|) {
      var k :| i <= k <= |name| && Glob(pattern, ap, name, k);
      GlobLiteral(pattern, ap, |pattern|, name, k);
      assert GoodLast(name, pattern, i, ap, i, ap, k);
    } else {
      var b := FirstStar(pattern, ap);
      assert Segment(pattern, ap, b);
      if Lossless(pattern, ap, b) {
        assert GoodMiddle(name, pattern, i, ap, ap, b);
      } else {
        var s: nat :| i <= s <= |name| && Glob(pattern, ap, name, s);
        LateStart(name, pattern, i, ap, ap, b, s);
        assert GoodLoose(name, pattern, i, ap, i, ap, b, s);
      }
    }
  }

  /** In front of an occurrence there is more of the name than the text behind it. */
  lemma {:induction false} LateStart(name: string, pattern: string, i: nat, j: nat, ap: nat, b: nat, s: nat)
    requires i <= s <= |name| && ap <= j <= b && Segment(pattern, ap, b) && Glob(pattern, ap, name, s)
    ensures Late(name, pattern, i, j, ap, b)
  {
    GlobLiteral(pattern, ap, b, name, s);
    forall l: nat | StarsThenText(pattern, b, l)
      ensures |name| - i >= |pattern| - l
    {
      TextAtEnd(pattern, b, l, name, s + (b - ap));
    }
  }

  lemma {:induction false} LateStep(name: string, pattern: string, i: nat, j: nat, ap: nat, b: nat, s: nat)
    requires i < |name| && ap <= j < b && Segment(pattern, ap, b) && Harmless(pattern, ap, b)
    requires s <= |name| && Glob(pattern, ap, name, s) && Late(name, pattern, i, j, ap, b)
    ensures Late(name, pattern, i + 1, NextState(pattern, ap, j, name[i]), ap, b)
  {
    var next := NextState(pattern, ap, j, name[i]);
    GlobLiteral(pattern, ap, b, name, s);
    forall l: nat | StarsThenText(pattern, b, l) && |name| - (i + 1) < |pattern| - l
      ensures !CanFind(pattern, ap, b, next, |pattern| - (|name| - (i + 1)))
    {
      var k := |pattern| - (|name| - i);
      TextAtEnd(pattern, b, l, name, s + (b - ap));
      GlobLiteral(pattern, l, |pattern|, name, |name| - (|pattern| - l));
      assert pattern[k] == '?' || pattern[k] == name[|name| - (|pattern| - l) + (k - l)];
      assert !CanFind(pattern, ap, b, j, k) by {
        if k == l {
          HarmlessText(pattern, ap, b, l);
        }
      }
      NotFoundStep(pattern, ap, b, j, k, name[i]);
    }
  }

  lemma {:induction false} NotFoundStep(pattern: string, a: nat, b: nat, j: nat, k: nat, c: char)
    requires a <= j < b < |pattern| && k < |pattern| && !CanFind(pattern, a, b, j, k)
    requires pattern[k] == '?' || pattern[k] == c
    ensures !CanFind(pattern, a, b, NextState(pattern, a, j, c), k + 1)
  {
  }

  lemma {:induction false} LastStar(pattern: string, b: nat)
    requires OneAny(pattern, b)
    ensures |pattern| > 0 && pattern[|pattern| - 1] == '*'
  {
  }

  lemma {:induction false} HarmlessText(pattern: string, a: nat, b: nat, l: nat)
    requires a <= b < |pattern| && Harmless(pattern, a, b) && StarsThenText(pattern, b, l) && l < |pattern|
    ensures Missed(pattern, a, b, l)
  {
    if OneAny(pattern, b) {
      LastStar(pattern, b);
      assert false;
    } else {
      var m: nat :| StarsThenText(pattern, b, m) && Missed(pattern, a, b, m);
      assert m == l by {
        assert m < |pattern| ==> pattern[m] != '*';
        assert pattern[l] != '*';
      }
    }
  }

  lemma {:induction false} FirstStar(pattern: string, from: nat) returns (b: nat)
    requires from < |pattern| && !StarFree(pattern, from, |pattern|)
    ensures from <= b < |pattern| && pattern[b] == '*' && StarFree(pattern, from, b)
    decreases |pattern| - from
  {
    if pattern[from] == '*' {
      b := from;
    } else {
      b := FirstStar(pattern, from + 1);
    }
  }

  /** A mismatch inside a lossless segment rules out every start up to the new scan position. */
  lemma {:induction false} MiddleMismatch(name: string, pattern: string, i: nat, j: nat, ap: nat, b: nat)
    requires i < |name| && ap <= j <= |pattern| && GoodMiddle(name, pattern, i, j, ap, b)
    requires j < b && name[i] != pattern[j] && pattern[j] != '?'
    ensures ap != j && name[i] == pattern[ap] ==> GoodMiddle(name, pattern, i + 1, ap + 1, ap, b)
    ensures !(ap != j && name[i] == pattern[ap]) ==> GoodMiddle(name, pattern, i + 1, ap, ap, b)
  {
    var d := j - ap;
    if d > 0 {
      LosslessStart(pattern, ap, b, d);
    }
    var m := i - d;
    assert GlobFrom(pattern, ap, name, m);
    var s :| m <= s <= |name| && Glob(pattern, ap, name, s);
    GlobLiteral(pattern, ap, b, name, s);
    assert s != m by {
      assert pattern[j] == '?' || pattern[j] == name[s + (j - ap)];
    }
    if m < s < i {
      Dropped(name, pattern, i, j, ap, b, s);
      assert false;
    }
    if s == i {
      assert pattern[ap] == '?' || pattern[ap] == name[s + (ap - ap)];
    }
    if ap != j && name[i] == pattern[ap] {
      assert GlobFrom(pattern, ap, name, i);
    } else {
      assert s != i;
      assert GlobFrom(pattern, ap, name, i + 1);
    }
  }

  /** A segment that begins with '?' would drop the start at the mismatch. */
  lemma {:induction false} LosslessStart(pattern: string, a: nat, b: nat, d: nat)
    requires a + d < b <= |pattern| && Lossless(pattern, a, b) && 0 < d && pattern[a + d] != '?'
    ensures pattern[a] != '?'
  {
    assert !Drops(pattern, a, d, d);
  }

  /** An occurrence behind the start that is given up would have been dropped. */
  lemma {:induction false} Dropped(name: string, pattern: string, i: nat, j: nat, ap: nat, b: nat, s: nat)
    requires i < |name| && ap <= j < b < |pattern| && Matched(name, pattern, i, j, ap, b)
    requires name[i] != pattern[j] && pattern[j] != '?'
    requires i - (j - ap) < s < i && s <= |name| && Glob(pattern, ap, name, s)
    ensures var d, t := j - ap, s - (i - (j - ap)); 0 < t < d && Drops(pattern, ap, d, t)
  {
    var d, t := j - ap, s - (i - (j - ap));
    GlobLiteral(pattern, ap, b, name, s);
    forall k | ap + t <= k < j
      ensures Compatible(pattern[k], pattern[k - t])
    {
      assert pattern[k] == '?' || pattern[k] == name[i - (j - k)];
      assert pattern[k - t] == '?' || pattern[k - t] == name[s + (k - t - ap)];
    }
    var k := ap + d - t;
    assert pattern[k] == '?' || pattern[k] == name[s + (k - ap)];
  }

  /** If the name ends while a middle segment is being matched, only stars are left. */
  lemma {:induction false} MiddleAtEnd(name: string, pattern: string, j: nat, ap: nat, b: nat)
    requires ap <= j <= |pattern| && GoodMiddle(name, pattern, |name|, j, ap, b)
    ensures j == b && Glob(pattern, j, name, |name|)
  {
    assert GlobFrom(pattern, ap, name, |name| - (j - ap));
    var s :| |name| - (j - ap) <= s <= |name| && Glob(pattern, ap, name, s);
    GlobLiteral(pattern, ap, b, name, s);
  }

  /** Stars reach what stands behind them from every place in front of it. */
  lemma {:induction false} StarsReach(pattern: string, q: nat, l: nat, name: string, i: nat, x: nat)
    requires q <= l <= |pattern| && i <= x <= |name|
    requires forall k :: q <= k < l ==> pattern[k] == '*'
    requires Glob(pattern, l, name, x)
    ensures GlobFrom(pattern, q, name, i)
    decreases l - q
  {
    if q < l {
      StarsReach(pattern, q + 1, l, name, i, x);
      assert Glob(pattern, q, name, i);
    }
  }

  /** The text behind the last stars can only stand at the end of the name. */
  lemma {:induction false} TextAtEnd(pattern: string, q: nat, l: nat, name: string, i: nat)
    requires q <= l <= |pattern| && i <= |name|
    requires (forall k :: q <= k < l ==> pattern[k] == '*') && StarFree(pattern, l, |pattern|)
    requires Glob(pattern, q, name, i)
    ensures i + (|pattern| - l) <= |name| && Glob(pattern, l, name, |name| - (|pattern| - l))
    decreases l - q
  {
    if q < l {
      assert GlobFrom(pattern, q + 1, name, i);
      var k :| i <= k <= |name| && Glob(pattern, q + 1, name, k);
      TextAtEnd(pattern, q + 1, l, name, k);
    } else {
      GlobLiteral(pattern, l, |pattern|, name, i);
    }
  }

  /** Only stars are left for the end of the name. */
  lemma {:induction false} StarsAtEnd(pattern: string, q: nat, name: string, k: nat)
    requires q <= k < |pattern| && Glob(pattern, q, name, |name|)
    ensures pattern[k] == '*'
    decreases |pattern| - q
  {
    if q < k {
      assert GlobFrom(pattern, q + 1, name, |name|);
      StarsAtEnd(pattern, q + 1, name, k);
    }
  }

  lemma {:induction false} AnyReach(name: string, pattern: string, i: nat, b: nat)
    requires i < |name| && OneAny(pattern, b)
    ensures b < |pattern| && GlobFrom(pattern, b + 1, name, i)
  {
    var k: nat :| b < k < |pattern| - 1 && pattern[k] == '?'
      && forall m :: b <= m < |pattern| && m != k ==> pattern[m] == '*';
    StarsReach(pattern, k + 2, |pattern|, name, i + 1, |name|);
    assert Glob(pattern, k + 1, name, i + 1);
    StarsReach(pattern, b + 1, k, name, i, i);
  }

  /** Any occurrence of a harmless segment can be followed by the rest of the pattern. */
  lemma {:induction false} LooseFound(name: string, pattern: string, i: nat, an: nat, ap: nat, b: nat, s: nat)
    requires i < |name| && ap <= b <= |pattern| && GoodLoose(name, pattern, i, b, an, ap, b, s)
    ensures b < |pattern| && GlobFrom(pattern, b + 1, name, i)
  {
    GlobLiteral(pattern, ap, b, name, s);
    if i - (b - ap) == s {
      assert Glob(pattern, b, name, i);
    } else if OneAny(pattern, b) {
      AnyReach(name, pattern, i, b);
    } else {
      var l: nat :| StarsThenText(pattern, b, l) && Missed(pattern, ap, b, l);
      TextAtEnd(pattern, b, l, name, s + (b - ap));
      var x := |name| - (|pattern| - l);
      assert i <= x;
      StarsReach(pattern, b + 1, l, name, i, x);
    }
  }

  /** A star met in a good state leads to a good state. */
  lemma {:induction false} GoodStar(name: string, pattern: string, i: nat, j: nat, an: int, ap: int)
    requires i < |name| && -1 <= ap <= j < |pattern| && (an == -1 <==> ap == -1) && -1 <= an
    requires Good(name, pattern, i, j, an, ap) && pattern[j] == '*'
    ensures GlobFrom(pattern, j + 1, name, i)
  {
    if Glob(pattern, j, name, i) {
    } else if b: nat :| GoodMiddle(name, pattern, i, j, ap, b) {
      MiddleFound(name, pattern, i, j, ap, b);
    } else if b: nat, s: nat :| GoodLoose(name, pattern, i, j, an, ap, b, s) {
      assert j == b;
      LooseFound(name, pattern, i, an, ap, b, s);
    }
  }

  lemma {:induction false} MiddleFound(name: string, pattern: string, i: nat, j: nat, ap: nat, b: nat)
    requires i <= |name| && ap <= j < |pattern| && GoodMiddle(name, pattern, i, j, ap, b) && pattern[j] == '*'
    ensures GlobFrom(pattern, j + 1, name, i)
  {
    assert j == b;
    assert GlobFrom(pattern, ap, name, i - (j - ap));
    var s :| i - (j - ap) <= s <= |name| && Glob(pattern, ap, name, s);
    GlobLiteral(pattern, ap, b, name, s);
    var k :| s + (b - ap) <= k <= |name| && Glob(pattern, j + 1, name, k);
    assert i <= k;
  }

  /** The same at the end of the name, where the restart pointers stay. */
  lemma {:induction false} EndStar(name: string, pattern: string, j: nat, an: int, ap: int)
    requires -1 <= ap <= j < |pattern| && (an == -1 <==> ap == -1) && -1 <= an
    requires Good(name, pattern, |name|, j, an, ap) && pattern[j] == '*'
    ensures Good(name, pattern, |name|, j + 1, an, ap)
  {
    if Glob(pattern, j, name, |name|) {
      assert GlobFrom(pattern, j + 1, name, |name|);
    } else if b: nat :| GoodMiddle(name, pattern, |name|, j, ap, b) {
      MiddleFound(name, pattern, |name|, j, ap, b);
    } else if b: nat, s: nat :| GoodLoose(name, pattern, |name|, j, an, ap, b, s) {
      GlobLiteral(pattern, ap, b, name, s);
      assert GoodRetry(name, pattern, |name|, j + 1, an, ap, b, s);
    } else if b: nat, s: nat :| GoodRetry(name, pattern, |name|, j, an, ap, b, s) {
      assert GoodRetry(name, pattern, |name|, j + 1, an, ap, b, s);
    }
  }

  lemma {:induction false} RunComplete(name: string, pattern: string, i: nat, j: nat, an: int, ap: int)
    requires i <= |name| && j <= |pattern|
    requires -1 <= an <= |name| && -1 <= ap <= j
    requires an == -1 <==> ap == -1
    requires Searchable(pattern) && StarsApart(name, pattern, i, j, ap)
    requires Good(name, pattern, i, j, an, ap)
    ensures AdvancedRun(name, pattern, i, j, an, ap)
    decreases |pattern| - ap, |name| - an, |name| - i, |pattern| - j
  {
    if i == |name| {
      RunCompleteAtEnd(name, pattern, j, an, ap);
    } else if j < |pattern| && pattern[j] == '*' {
      GoodStar(name, pattern, i, j, an, ap);
      StarNotLiteral(name, pattern, i, j, an, ap);
      if j + 1 < |pattern| {
        GoodAfterStar(name, pattern, i, j + 1);
        RunComplete(name, pattern, i, j + 1, i, j + 1);
      }
    } else if j == |pattern| || (name[i] != pattern[j] && pattern[j] != '?') {
      GoodMismatch(name, pattern, i, j, an, ap);
      if ap != j && name[i] == pattern[ap] {
        RunComplete(name, pattern, i + 1, ap + 1, an, ap);
      } else {
        RunComplete(name, pattern, i + 1, ap, an, ap);
      }
    } else {
      GoodStep(name, pattern, i, j, an, ap);
      RunComplete(name, pattern, i + 1, j + 1, an, ap);
    }
  }

  lemma {:induction false} RunCompleteAtEnd(name: string, pattern: string, j: nat, an: int, ap: int)
    requires j <= |pattern|
    requires -1 <= an <= |name| && -1 <= ap <= j
    requires an == -1 <==> ap == -1
    requires Searchable(pattern) && StarsApart(name, pattern, |name|, j, ap)
    requires Good(name, pattern, |name|, j, an, ap)
    ensures AdvancedRun(name, pattern, |name|, j, an, ap)
    decreases |pattern| - ap, |name| - an, 0, |pattern| - j, 0
  {
    if j == |pattern| {
    } else if pattern[j] == '*' {
      EndStar(name, pattern, j, an, ap);
      RunCompleteAtEnd(name, pattern, j + 1, an, ap);
    } else {
      EndRetry(name, pattern, j, an, ap);
      RunComplete(name, pattern, an, ap, an + 1, ap);
    }
  }

  /** The name has ended too early: trying the next start is good. */
  lemma {:induction false} EndRetry(name: string, pattern: string, j: nat, an: int, ap: int)
    requires -1 <= ap <= j < |pattern| && -1 <= an <= |name| && (an == -1 <==> ap == -1)
    requires Good(name, pattern, |name|, j, an, ap) && pattern[j] != '*'
    ensures 0 <= an < |name| && Good(name, pattern, an, ap, an + 1, ap)
  {
    if b: nat :| ap != -1 && GoodMiddle(name, pattern, |name|, j, ap, b) {
      MiddleAtEnd(name, pattern, j, ap, b);
      assert false;
    } else if b: nat, s: nat :| ap != -1 && GoodLoose(name, pattern, |name|, j, an, ap, b, s) {
      GlobLiteral(pattern, ap, b, name, s);
      LateStart(name, pattern, an, ap, ap, b, s);
      assert GoodLoose(name, pattern, an, ap, an + 1, ap, b, s);
    } else if b: nat, s: nat :| ap != -1 && GoodRetry(name, pattern, |name|, j, an, ap, b, s) {
      if s == |name| {
        StarsAtEnd(pattern, ap, name, j);
        assert false;
      }
      LateStart(name, pattern, an, ap, ap, b, s);
      assert GoodLoose(name, pattern, an, ap, an + 1, ap, b, s);
    } else {
      var s: nat :| GoodLast(name, pattern, |name|, j, an, ap, s);
      assert GoodLast(name, pattern, an, ap, an + 1, ap, s);
    }
  }

  lemma {:induction false} StarNotLiteral(name: string, pattern: string, i: nat, j: nat, an: int, ap: int)
    requires i < |name| && j < |pattern| && -1 <= ap <= j && (an == -1 <==> ap == -1) && -1 <= an
    requires StarsApart(name, pattern, i, j, ap) && pattern[j] == '*'
    requires Good(name, pattern, i, j, an, ap)
    ensures name[i] != '*'
  {
    if !StarFree(name, 0, |name|) && !StarFree(pattern, 0, |pattern|) {
      var k: nat :| OneStarAt(pattern, k) && !(k < |name| && name[k] == '*') && (ap == -1 ==> i == j);
      assert j == k;
      assert ap == -1;
    }
  }

  lemma {:induction false} GoodMismatch(name: string, pattern: string, i: nat, j: nat, an: int, ap: int)
    requires i < |name| && j <= |pattern| && -1 <= ap <= j && (an == -1 <==> ap == -1) && -1 <= an
    requires Searchable(pattern) && Good(name, pattern, i, j, an, ap)
    requires j < |pattern| ==> pattern[j] != '*' && name[i] != pattern[j] && pattern[j] != '?'
    ensures ap != -1
    ensures ap != j && name[i] == pattern[ap] ==> Good(name, pattern, i + 1, ap + 1, an, ap)
    ensures !(ap != j && name[i] == pattern[ap]) ==> Good(name, pattern, i + 1, ap, an, ap)
  {
    if ap != -1 && exists b: nat :: GoodMiddle(name, pattern, i, j, ap, b) {
      var b: nat :| GoodMiddle(name, pattern, i, j, ap, b);
      MiddleMismatch(name, pattern, i, j, ap, b);
    } else if b: nat, s: nat :| ap != -1 && GoodLoose(name, pattern, i, j, an, ap, b, s) {
      LooseMismatch(name, pattern, i, j, an, ap, b, s);
    } else {
      var s: nat :| GoodLast(name, pattern, i, j, an, ap, s);
      if an > s {
        GlobLiteral(pattern, ap, |pattern|, name, s);
        assert false;
      }
      if ap != j && name[i] == pattern[ap] {
        assert GoodLast(name, pattern, i + 1, ap + 1, an, ap, s);
      } else {
        assert GoodLast(name, pattern, i + 1, ap, an, ap, s);
      }
    }
  }

  lemma {:induction false} LooseMismatch(name: string, pattern: string, i: nat, j: nat, an: nat, ap: nat, b: nat, s: nat)
    requires i < |name| && ap <= j < |pattern| && GoodLoose(name, pattern, i, j, an, ap, b, s)
    requires pattern[j] != '*' && name[i] != pattern[j] && pattern[j] != '?'
    ensures ap != j && name[i] == pattern[ap] ==> GoodLoose(name, pattern, i + 1, ap + 1, an, ap, b, s)
    ensures !(ap != j && name[i] == pattern[ap]) ==> GoodLoose(name, pattern, i + 1, ap, an, ap, b, s)
  {
    LateStep(name, pattern, i, j, ap, b, s);
    GlobLiteral(pattern, ap, b, name, s);
    assert pattern[j] == '?' || pattern[j] == name[s + (j - ap)];
  }

  lemma {:induction false} GoodStep(name: string, pattern: string, i: nat, j: nat, an: int, ap: int)
    requires i < |name| && j < |pattern| && -1 <= ap <= j && (an == -1 <==> ap == -1) && -1 <= an
    requires Searchable(pattern) && Good(name, pattern, i, j, an, ap)
    requires pattern[j] != '*' && (name[i] == pattern[j] || pattern[j] == '?')
    ensures Good(name, pattern, i + 1, j + 1, an, ap)
  {
    if ap == -1 {
    } else if b: nat :| GoodMiddle(name, pattern, i, j, ap, b) {
      assert j != b;
      assert GoodMiddle(name, pattern, i + 1, j + 1, ap, b);
    } else if b: nat, s: nat :| GoodLoose(name, pattern, i, j, an, ap, b, s) {
      assert j != b;
      LateStep(name, pattern, i, j, ap, b, s);
      assert GoodLoose(name, pattern, i + 1, j + 1, an, ap, b, s);
    } else {
      var s: nat :| GoodLast(name, pattern, i, j, an, ap, s);
      assert GoodLast(name, pattern, i + 1, j + 1, an, ap, s);
    }
  }

  /**
   For names without '*', advanced_match decides every pattern of whose inner segments (those between two
   stars) each is lossless or harmless. At most one star means no inner segment.
   */
  lemma {:induction false} AdvancedDecides(name: string, pattern: string)
    requires StarFree(name, 0, |name|) && Searchable(pattern)
    ensures AdvancedRun(name, pattern, 0, 0, -1, -1) <==> Matches(pattern, name)
  {
    if Matches(pattern, name) {
      RunComplete(name, pattern, 0, 0, -1, -1);
    } else if AdvancedRun(name, pattern, 0, 0, -1, -1) {
      AdvancedSound(name, pattern);
    }
  }

  /** "Contains" patterns are decided, whatever the text between their two stars. */
  lemma {:induction false} ContainsDecided(name: string, text: string)
    requires StarFree(name, 0, |name|) && StarFree(text, 0, |text|)
    ensures AdvancedRun(name, "*" + text + "*", 0, 0, -1, -1) <==> Matches("*" + text + "*", name)
  {
    var pattern := "*" + text + "*";
    assert forall k :: 0 < k < |pattern| - 1 ==> pattern[k] == text[k - 1];
    forall a: nat, b: nat | Segment(pattern, a, b)
      ensures Harmless(pattern, a, b)
    {
      assert b == |pattern| - 1;
      assert StarsThenText(pattern, b, |pattern|);
    }
    AdvancedDecides(name, pattern);
  }

  /** Where the search ends within the text, its segment overlaps the text. */
  lemma {:induction false} FindOverlaps(pattern: string, a: nat, b: nat, l: nat, j: nat, k: nat) returns (o: nat)
    requires a <= j <= b <= |pattern| && l <= k <= |pattern| && CanFind(pattern, a, b, j, k) && (j < b || l < k)
    requires forall q :: a <= q < j && j - q <= k - l ==> Compatible(pattern[q], pattern[k - (j - q)])
    ensures 0 < o < |pattern| - l && Overlap(pattern, a, b, l, o)
    decreases |pattern| - k
  {
    if j == b {
      o := k - l;
    } else {
      var c: char :| CanFind(pattern, a, b, NextState(pattern, a, j, c), k + 1) && (pattern[k] == '?' || pattern[k] == c);
      o := FindOverlaps(pattern, a, b, l, NextState(pattern, a, j, c), k + 1);
    }
  }

  /** From its last o characters on, the search of an overlapping segment ends within the text. */
  lemma {:induction false} OverlapFinds(pattern: string, a: nat, b: nat, l: nat, o: nat, r: nat)
    requires a <= b <= |pattern| && r <= o <= b - a && l + o < |pattern| && Overlap(pattern, a, b, l, o)
    ensures CanFind(pattern, a, b, b - r, l + o - r)
    decreases r
  {
    if r > 0 {
      OverlapFinds(pattern, a, b, l, o, r - 1);
      var j, k := b - r, l + o - r;
      assert Compatible(pattern[j], pattern[k]);
      var c := if pattern[k] == '?' then pattern[j] else pattern[k];
      assert NextState(pattern, a, j, c) == j + 1;
    }
  }

  /**
   A segment that does not overlap the text is missed in it; if the text is at most one character longer
   than the segment, exactly such a segment is.
   */
  lemma {:induction false} MissedByOverlap(pattern: string, a: nat, b: nat, l: nat)
    requires a <= b <= |pattern| && l <= |pattern|
    ensures (forall o: nat :: 0 < o < |pattern| - l ==> !Overlap(pattern, a, b, l, o)) ==> Missed(pattern, a, b, l)
    ensures Missed(pattern, a, b, l) ==>
              forall o: nat :: 0 < o < |pattern| - l && o <= b - a ==> !Overlap(pattern, a, b, l, o)
  {
    if j: nat :| a <= j < b && CanFind(pattern, a, b, j, l) {
      var o := FindOverlaps(pattern, a, b, l, j, l);
    }
    forall o: nat | 0 < o < |pattern| - l && o <= b - a && Overlap(pattern, a, b, l, o)
      ensures !Missed(pattern, a, b, l)
    {
      OverlapFinds(pattern, a, b, l, o, o);
    }
  }

  /** A segment without '?' whose first character does not come again is lossless. */
  lemma {:induction false} FirstOnceLossless(pattern: string, a: nat, b: nat)
    requires a <= b <= |pattern|
    requires forall k :: a <= k < b ==> pattern[k] != '?' && (k != a ==> pattern[k] != pattern[a])
    ensures Lossless(pattern, a, b)
  {
    forall d: nat, t: nat | 0 < t <= d < b - a
      ensures !Drops(pattern, a, d, t)
    {
      var k := a + t;
      assert t < d ==> !Compatible(pattern[k], pattern[k - t]);
    }
  }

  lemma {:induction false} FewStarsSearchable(pattern: string)
    requires StarFree(pattern, 0, |pattern|) || exists k: nat :: OneStarAt(pattern, k)
    ensures Searchable(pattern)
  {
    if !StarFree(pattern, 0, |pattern|) {
      var k: nat :| OneStarAt(pattern, k);
      assert forall a: nat, b: nat :: Segment(pattern, a, b) ==> a - 1 == k == b;
    }
    assert forall a: nat, b: nat :: !Segment(pattern, a, b);
  }

  /** A pattern without '*' is decided for every name. */
  lemma {:induction false} AdvancedDecidesStarFree(name: string, pattern: string)
    requires StarFree(pattern, 0, |pattern|)
    ensures AdvancedRun(name, pattern, 0, 0, -1, -1) <==> Matches(pattern, name)
  {
    FewStarsSearchable(pattern);
    if Matches(pattern, name) {
      RunComplete(name, pattern, 0, 0, -1, -1);
    } else if AdvancedRun(name, pattern, 0, 0, -1, -1) {
      AdvancedSound(name, pattern);
    }
  }

  ghost predicate Pointwise(name: string, pattern: string, from: nat) {
    |name| == |pattern| && forall q :: from <= q < |name| ==> pattern[q] == '?' || pattern[q] == name[q]
  }

  /** As long as each star of the pattern faces a star of the name, no restart point is ever set. */
  lemma {:induction false} RunLiteral(name: string, pattern: string, i: nat)
    requires i <= |name| && i <= |pattern|
    requires forall q :: i <= q < |pattern| && pattern[q] == '*' ==> q < |name| && name[q] == '*'
    ensures AdvancedRun(name, pattern, i, i, -1, -1) <==> Pointwise(name, pattern, i)
    decreases |name| - i
  {
    if i < |name| && i < |pattern| && (name[i] == pattern[i] || pattern[i] == '?') {
      RunLiteral(name, pattern, i + 1);
    }
  }

  /**
   One star, every name, stars in names included: the only names of the language that are refused
   are those having a '*' where the pattern has its star, and another length than the pattern.
   */
  lemma {:induction false} AdvancedOneStar(name: string, pattern: string, k: nat)
    requires OneStarAt(pattern, k)
    ensures AdvancedRun(name, pattern, 0, 0, -1, -1)
            <==> Matches(pattern, name) && !(k < |name| && name[k] == '*' && |name| != |pattern|)
  {
    FewStarsSearchable(pattern);
    if AdvancedRun(name, pattern, 0, 0, -1, -1) {
      AdvancedSound(name, pattern);
    }
    if k < |name| && name[k] == '*' {
      RunLiteral(name, pattern, 0);
      if Matches(pattern, name) && |name| == |pattern| {
        GlobLiteral(pattern, 0, k, name, 0);
        var s :| k <= s <= |name| && Glob(pattern, k + 1, name, s);
        GlobLiteral(pattern, k + 1, |pattern|, name, s);
        assert s == k + 1;
        forall q | 0 <= q < |name|
          ensures pattern[q] == '?' || pattern[q] == name[q]
        {
          if q < k {
            assert pattern[q] == '?' || pattern[q] == name[0 + (q - 0)];
          } else if q > k {
            assert pattern[q] == '?' || pattern[q] == name[s + (q - (k + 1))];
          }
        }
      }
    } else if Matches(pattern, name) {
      RunComplete(name, pattern, 0, 0, -1, -1);
    }
  }

  /** With an inner segment that is not lossless a name of the language can be refused. */
  lemma {:induction false} AdvancedIncomplete()
    ensures Matches("*aab*c*", "aaabcaabd")
    ensures !AdvancedRun("aaabcaabd", "*aab*c*", 0, 0, -1, -1)
  {
    var p, n := "*aab*c*", "aaabcaabd";
    assert Glob(p, 7, n, 9);
    assert Glob(p, 6, n, 5);
    assert Glob(p, 5, n, 4);
    assert Glob(p, 4, n, 4);
    assert Glob(p, 1, n, 1);
    // behind the second star nothing but "d" is left to search for 'c'
    assert !AdvancedRun(n, p, 9, 5, 9, 5);
    assert !AdvancedRun(n, p, 9, 5, 8, 5);
    assert !AdvancedRun(n, p, 8, 5, 8, 5);
    assert !AdvancedRun(n, p, 8, 4, 0, 1);
    assert !AdvancedRun(n, p, 5, 1, 0, 1);
    assert !AdvancedRun(n, p, 3, 2, 0, 1);
    assert !AdvancedRun(n, p, 0, 1, 0, 1);
  }

  // ---------------------------------------------------------------------------------------
  // The classic matcher

  /** The value of classic_match's loop from position i on. */
  predicate ClassicRun(name: string, pattern: string, i: nat)
    requires i <= |name| && i <= |pattern|
    decreases |pattern| - i
  {
    if i == |name| && i == |pattern| then true
    else if i < |pattern| && pattern[i] == '*' then true
    else if i < |pattern| && pattern[i] == '?' && i < |name| then ClassicRun(name, pattern, i + 1)
    else if i == |name| || i == |pattern| || name[i] != pattern[i] then false
    else ClassicRun(name, pattern, i + 1)
  }

  /** The pattern up to its first star; the classic matcher ignores what follows. */
  function Truncated(pattern: string): string {
    if pattern == "" then ""
    else if pattern[0] == '*' then "*"
    else [pattern[0]] + Truncated(pattern[1..])
  }

  lemma {:induction false} TruncatedShape(pattern: string)
    ensures Truncated(pattern) <= pattern
    ensures StarFree(pattern, 0, |pattern|) ==> Truncated(pattern) == pattern
    ensures forall k: nat :: OneStarAt(pattern, k) && k + 1 == |pattern| ==> Truncated(pattern) == pattern
    ensures forall k :: 0 <= k < |Truncated(pattern)| - 1 ==> pattern[k] != '*'
    ensures |Truncated(pattern)| < |pattern| ==>
              Truncated(pattern) != "" && pattern[|Truncated(pattern)| - 1] == '*'
  {
    if pattern != "" && pattern[0] != '*' {
      var rest := pattern[1..];
      TruncatedShape(rest);
      forall k: nat | OneStarAt(pattern, k) && k + 1 == |pattern|
        ensures Truncated(pattern) == pattern
      {
        assert OneStarAt(rest, k - 1) by {
          assert forall q :: 0 <= q < |rest| ==> rest[q] == pattern[q + 1];
        }
        assert [pattern[0]] + rest == pattern;
      }
      if StarFree(pattern, 0, |pattern|) {
        assert [pattern[0]] + rest == pattern;
      }
    }
  }

  lemma {:induction false} ClassicGlob(name: string, pattern: string, i: nat)
    requires i <= |name| && i <= |Truncated(pattern)|
    requires Truncated(pattern) <= pattern
    requires forall k :: 0 <= k < |Truncated(pattern)| - 1 ==> pattern[k] != '*'
    requires |Truncated(pattern)| < |pattern| ==>
               Truncated(pattern) != "" && pattern[|Truncated(pattern)| - 1] == '*'
    requires i == |Truncated(pattern)| ==> i == |pattern|
    ensures ClassicRun(name, pattern, i) <==> Glob(Truncated(pattern), i, name, i)
    decreases |pattern| - i
  {
    var t := Truncated(pattern);
    if i < |t| {
      assert t[i] == pattern[i];
      if t[i] == '*' {
        assert i == |t| - 1;
        assert Glob(t, i + 1, name, |name|);
      } else if i < |name| {
        assert i + 1 == |t| ==> i + 1 == |pattern|;
        ClassicGlob(name, pattern, i + 1);
      }
    }
  }

  /** classic_match decides, for all inputs, the language of the pattern cut behind its first star. */
  lemma {:induction false} ClassicDecides(name: string, pattern: string)
    ensures ClassicRun(name, pattern, 0) <==> Matches(Truncated(pattern), name)
  {
    TruncatedShape(pattern);
    ClassicGlob(name, pattern, 0);
  }

  lemma {:induction false} GlobImpliesClassic(name: string, pattern: string, i: nat)
    requires i <= |name| && i <= |pattern| && Glob(pattern, i, name, i)
    ensures ClassicRun(name, pattern, i)
    decreases |pattern| - i
  {
    if i < |pattern| && pattern[i] != '*' {
      GlobImpliesClassic(name, pattern, i + 1);
    }
  }

  /** Whatever the advanced matcher accepts, the classic one accepts. */
  lemma {:induction false} AdvancedImpliesClassic(name: string, pattern: string)
    requires AdvancedRun(name, pattern, 0, 0, -1, -1)
    ensures ClassicRun(name, pattern, 0)
  {
    AdvancedSound(name, pattern);
    GlobImpliesClassic(name, pattern, 0);
  }

  /** The two matchers agree when the pattern's only star is its last character, or it has none. */
  lemma {:induction false} MatchersAgree(name: string, pattern: string)
    requires StarFree(name, 0, |name|)
    requires StarFree(pattern, 0, |pattern|) || (pattern != "" && OneStarAt(pattern, |pattern| - 1))
    ensures AdvancedRun(name, pattern, 0, 0, -1, -1) <==> ClassicRun(name, pattern, 0)
  {
    TruncatedShape(pattern);
    FewStarsSearchable(pattern);
    AdvancedDecides(name, pattern);
    ClassicDecides(name, pattern);
  }

  // ---------------------------------------------------------------------------------------
  // The loops

  method AdvancedMatch(name: string, pattern: string) returns (matched: bool)
    ensures matched == AdvancedRun(name, pattern, 0, 0, -1, -1)
    ensures matched ==> Matches(pattern, name)
    ensures StarFree(name, 0, |name|) && Searchable(pattern) && Matches(pattern, name) ==> matched
  {
    matched := true;
    var afterName, afterPattern := -1, -1;
    var i, j := 0, 0;
    while true
      invariant 0 <= i <= |name| && 0 <= j <= |pattern|
      invariant -1 <= afterName <= |name| && -1 <= afterPattern <= j
      invariant afterName == -1 <==> afterPattern == -1
      invariant matched
      invariant AdvancedRun(name, pattern, i, j, afterName, afterPattern) == AdvancedRun(name, pattern, 0, 0, -1, -1)
      decreases |pattern| - afterPattern, |name| - afterName, |name| - i, |pattern| - j
    {
      if i == |name| {
        if j == |pattern| { break; }
        if pattern[j] == '*' {
          j := j + 1;
          continue;
        }
        if afterName != -1 {
          if afterName == |name| {
            matched := false;
            break;
          }
          i := afterName;
          afterName := afterName + 1;
          j := afterPattern;
          continue;
        }
        matched := false;
        break;
      } else if j == |pattern| || (name[i] != pattern[j] && pattern[j] != '?') {
        if j < |pattern| && pattern[j] == '*' {
          j := j + 1;
          afterPattern := j;
          afterName := i;
          if j == |pattern| { break; }
          continue;
        }
        if afterPattern != -1 {
          if afterPattern != j {
            j := afterPattern;
            if name[i] == pattern[j] {
              j := j + 1;
            }
          }
          i := i + 1;
          continue;
        } else {
          matched := false;
          break;
        }
      }
      i := i + 1;
      j := j + 1;
    }
    if matched {
      AdvancedSound(name, pattern);
    }
    if StarFree(name, 0, |name|) && Searchable(pattern) {
      AdvancedDecides(name, pattern);
    }
  }

  method ClassicMatch(name: string, pattern: string) returns (matched: bool)
    ensures matched == ClassicRun(name, pattern, 0)
    ensures matched <==> Matches(Truncated(pattern), name)
  {
    ClassicDecides(name, pattern);
    var i := 0;
    while true
      invariant 0 <= i <= |name| && i <= |pattern|
      invariant ClassicRun(name, pattern, i) == ClassicRun(name, pattern, 0)
      decreases |pattern| - i
    {
      if i == |name| && i == |pattern| { return true; }
      if i < |pattern| && pattern[i] == '*' { return true; }
      if i < |pattern| && pattern[i] == '?' && i < |name| {
        i := i + 1;
        continue;
      }
      if i == |name| || i == |pattern| || name[i] != pattern[i] { break; }
      i := i + 1;
    }
    return false;
  }

  method ComparePattern(name: string, pattern: string, advanced: bool) returns (matched: bool)
    ensures matched ==> Matches(if advanced then pattern else Truncated(pattern), name)
    ensures !advanced && Matches(Truncated(pattern), name) ==> matched
    ensures advanced && StarFree(name, 0, |name|) && Searchable(pattern) && Matches(pattern, name) ==> matched
  {
    if advanced {
      matched := AdvancedMatch(name, pattern);
    } else {
      matched := ClassicMatch(name, pattern);
    }
  }
}
