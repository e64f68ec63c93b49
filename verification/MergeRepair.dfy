/**
 Merging several images of one disk (imgtool/imgtool.c, merge_repair): a vote over the blocks that
 were read as good.
 */
module MergeRepairs {
  import opened Wire

  type Block = seq<byte>

  /** An image as it was read: its type, its blocks, and the controller's error code for each of them. */
  datatype Image = Image(id: int, blocks: seq<Block>, errors: seq<byte>)

  predicate IsBadBlock(code: byte) {
    if code == 1 then false
    else if code == 15 || 2 <= code <= 11 then true
    // unknown codes are treated as errors
    else code != 0
  }

  ghost predicate SameShape(imgs: seq<Image>, blocks: nat) {
    forall i :: 0 <= i < |imgs| ==> |imgs[i].blocks| == |imgs[i].errors| == blocks
  }

  /** Every block has its error code; images of one type have the same number of blocks, others need not. */
  ghost predicate ReadIn(imgs: seq<Image>) {
    && (forall i :: 0 <= i < |imgs| ==> |imgs[i].blocks| == |imgs[i].errors|)
    && forall i, j :: 0 <= i < |imgs| && 0 <= j < |imgs| && imgs[i].id == imgs[j].id ==>
                        |imgs[i].blocks| == |imgs[j].blocks|
  }

  /** Block b of image i has actually been read, without an error. */
  predicate Good(imgs: seq<Image>, blocks: nat, b: nat, i: nat)
    requires SameShape(imgs, blocks) && b < blocks && i < |imgs|
  {
    imgs[i].errors[b] == 1
  }

  predicate Agree(imgs: seq<Image>, blocks: nat, b: nat, i: nat, j: nat)
    requires SameShape(imgs, blocks) && b < blocks && i < |imgs| && j < |imgs|
  {
    Good(imgs, blocks, b, i) && Good(imgs, blocks, b, j) && imgs[i].blocks[b] == imgs[j].blocks[b]
  }

  predicate Differ(imgs: seq<Image>, blocks: nat, b: nat, i: nat, j: nat)
    requires SameShape(imgs, blocks) && b < blocks && i < |imgs| && j < |imgs|
  {
    Good(imgs, blocks, b, i) && Good(imgs, blocks, b, j) && imgs[i].blocks[b] != imgs[j].blocks[b]
  }

  /** How many of the first n images agree with image i, itself not counted. */
  ghost function Others(imgs: seq<Image>, blocks: nat, b: nat, i: nat, n: nat): nat
    requires SameShape(imgs, blocks) && b < blocks && i < |imgs| && n <= |imgs|
  {
    if n == 0 then 0
    else Others(imgs, blocks, b, i, n - 1) + if n - 1 != i && Agree(imgs, blocks, b, i, n - 1) then 1 else 0
  }

  /** How many of the first n images were read as good with this content. */
  ghost function Votes(imgs: seq<Image>, blocks: nat, b: nat, content: Block, n: nat): nat
    requires SameShape(imgs, blocks) && b < blocks && n <= |imgs|
  {
    if n == 0 then 0
    else Votes(imgs, blocks, b, content, n - 1)
         + if Good(imgs, blocks, b, n - 1) && imgs[n - 1].blocks[b] == content then 1 else 0
  }

  /** Two images were read as good, but with different contents. */
  ghost predicate Weak(imgs: seq<Image>, blocks: nat, b: nat)
    requires SameShape(imgs, blocks) && b < blocks
  {
    exists i: nat, j: nat :: i < j < |imgs| && Differ(imgs, blocks, b, i, j)
  }

  lemma {:induction false} OthersAreVotes(imgs: seq<Image>, blocks: nat, b: nat, i: nat, n: nat)
    requires SameShape(imgs, blocks) && b < blocks && i < |imgs| && n <= |imgs|
    ensures Good(imgs, blocks, b, i) ==>
              Votes(imgs, blocks, b, imgs[i].blocks[b], n) == Others(imgs, blocks, b, i, n) + if i < n then 1 else 0
    ensures !Good(imgs, blocks, b, i) ==> Others(imgs, blocks, b, i, n) == 0
    decreases n
  {
    if n > 0 {
      OthersAreVotes(imgs, blocks, b, i, n - 1);
    }
  }

  /** A content somebody voted for is the content of a good image. */
  lemma {:induction false} VoterExists(imgs: seq<Image>, blocks: nat, b: nat, content: Block, n: nat) returns (i: nat)
    requires SameShape(imgs, blocks) && b < blocks && n <= |imgs|
    requires Votes(imgs, blocks, b, content, n) > 0
    ensures i < n && Good(imgs, blocks, b, i) && imgs[i].blocks[b] == content
    decreases n
  {
    if Good(imgs, blocks, b, n - 1) && imgs[n - 1].blocks[b] == content {
      i := n - 1;
    } else {
      i := VoterExists(imgs, blocks, b, content, n - 1);
    }
  }

  // ---------------------------------------------------------------------------------------
  // Scoring

  /** The scores of block b once the pairs before (i, j) have been compared. */
  ghost predicate ScoresBefore(imgs: seq<Image>, blocks: nat, b: nat, score: array2<nat>, i: nat, j: nat)
    requires SameShape(imgs, blocks) && b < blocks
    requires score.Length0 == |imgs| && score.Length1 == blocks && i < j <= |imgs|
    reads score
  {
    forall k :: 0 <= k < |imgs| ==>
      score[k, b] == if k < i then Others(imgs, blocks, b, k, |imgs|)
                     else if k == i then Others(imgs, blocks, b, k, j)
                     else if k < j then Others(imgs, blocks, b, k, i + 1)
                     else Others(imgs, blocks, b, k, i)
  }

  ghost predicate Scored(imgs: seq<Image>, blocks: nat, b: nat, score: array2<nat>)
    requires SameShape(imgs, blocks) && b < blocks
    requires score.Length0 == |imgs| && score.Length1 == blocks
    reads score
  {
    forall k :: 0 <= k < |imgs| ==> score[k, b] == Others(imgs, blocks, b, k, |imgs|)
  }

  lemma {:induction false} OthersSkipsSelf(imgs: seq<Image>, blocks: nat, b: nat, i: nat)
    requires SameShape(imgs, blocks) && b < blocks && i < |imgs|
    ensures Others(imgs, blocks, b, i, i + 1) == Others(imgs, blocks, b, i, i)
  {
  }

  /** A pair before (i, j) differs. */
  ghost predicate WeakBefore(imgs: seq<Image>, blocks: nat, b: nat, i: nat, j: nat)
    requires SameShape(imgs, blocks) && b < blocks
  {
    exists p: nat, q: nat :: p < q < |imgs| && (p < i || (p == i && q < j)) && Differ(imgs, blocks, b, p, q)
  }

  twostate predicate OnlyBlock(b: nat, score: array2<nat>, weak: array<bool>)
    reads score, weak
  {
    && (forall c :: 0 <= c < weak.Length && c != b ==> weak[c] == old(weak[c]))
    && forall k, c :: 0 <= k < score.Length0 && 0 <= c < score.Length1 && c != b ==> score[k, c] == old(score[k, c])
  }

  method ComparePair(imgs: seq<Image>, blocks: nat, b: nat, i: nat, j: nat, score: array2<nat>, weak: array<bool>)
    requires SameShape(imgs, blocks) && b < blocks && i < j < |imgs|
    requires score.Length0 == |imgs| && score.Length1 == blocks && weak.Length == blocks
    requires ScoresBefore(imgs, blocks, b, score, i, j) && (weak[b] <==> WeakBefore(imgs, blocks, b, i, j))
    modifies score, weak
    ensures ScoresBefore(imgs, blocks, b, score, i, j + 1) && (weak[b] <==> WeakBefore(imgs, blocks, b, i, j + 1))
    ensures OnlyBlock(b, score, weak)
  {
    if imgs[i].errors[b] == 1 && imgs[j].errors[b] == 1 {
      if imgs[i].blocks[b] != imgs[j].blocks[b] {
        assert Differ(imgs, blocks, b, i, j);
        weak[b] := true;
      } else {
        score[i, b] := score[i, b] + 1;
        score[j, b] := score[j, b] + 1;
      }
    }
  }

  /** Compare every pair of good copies of block b; the two sides of an agreement both score. */
  method ScoreBlock(imgs: seq<Image>, blocks: nat, b: nat, score: array2<nat>, weak: array<bool>)
    requires SameShape(imgs, blocks) && b < blocks && |imgs| >= 2
    requires score.Length0 == |imgs| && score.Length1 == blocks && weak.Length == blocks
    requires forall k :: 0 <= k < |imgs| ==> score[k, b] == 0
    requires !weak[b]
    modifies score, weak
    ensures Scored(imgs, blocks, b, score) && (weak[b] <==> Weak(imgs, blocks, b))
    ensures OnlyBlock(b, score, weak)
  {
    var i := 0;
    while i < |imgs| - 1
      invariant 0 <= i <= |imgs| - 1
      invariant forall k :: 0 <= k < |imgs| ==>
                  score[k, b] == if k < i then Others(imgs, blocks, b, k, |imgs|) else Others(imgs, blocks, b, k, i)
      invariant weak[b] <==> WeakBefore(imgs, blocks, b, i, i + 1)
      invariant OnlyBlock(b, score, weak)
    {
      OthersSkipsSelf(imgs, blocks, b, i);
      var j := i + 1;
      while j < |imgs|
        invariant i < j <= |imgs|
        invariant ScoresBefore(imgs, blocks, b, score, i, j) && (weak[b] <==> WeakBefore(imgs, blocks, b, i, j))
        invariant OnlyBlock(b, score, weak)
      {
        ComparePair(imgs, blocks, b, i, j, score, weak);
        j := j + 1;
      }
      i := i + 1;
    }
    OthersSkipsSelf(imgs, blocks, b, |imgs| - 1);
  }

  // ---------------------------------------------------------------------------------------
  // Selection

  /** The block and the error code the merged image gets. */
  datatype Choice = Choice(block: Block, code: byte)

  /**
   What is promised of a merged block. Not weak: the content all good copies share, else the first copy
   not marked as bad, else the first one. Weak: one with as many votes as any content has, the first one of
   these, if two images agree at all.
   */
  ghost predicate RightChoice(imgs: seq<Image>, blocks: nat, b: nat, weakEntry: byte, c: Choice)
    requires SameShape(imgs, blocks) && b < blocks && |imgs| > 0
  {
    && (exists i: nat :: i < |imgs| && imgs[i].blocks[b] == c.block)
    && (Weak(imgs, blocks, b) ==>
          && c.code == weakEntry
          && if exists i: nat :: i < |imgs| && Others(imgs, blocks, b, i, |imgs|) > 0 then
               && Votes(imgs, blocks, b, c.block, |imgs|) >= 2
               && (forall other :: Votes(imgs, blocks, b, other, |imgs|) <= Votes(imgs, blocks, b, c.block, |imgs|))
               && exists i: nat :: i < |imgs| && imgs[i].blocks[b] == c.block && FirstTop(imgs, blocks, b, i)
             else c.block == imgs[0].blocks[b])
    && (!Weak(imgs, blocks, b) ==>
          exists i: nat :: i < |imgs| && c == Choice(imgs[i].blocks[b], imgs[i].errors[b]) && BestCopy(imgs, blocks, b, i))
  }

  /** All images with a good copy in front of image i have fewer others that agree with them. */
  ghost predicate FirstTop(imgs: seq<Image>, blocks: nat, b: nat, i: nat)
    requires SameShape(imgs, blocks) && b < blocks && i < |imgs|
  {
    Good(imgs, blocks, b, i)
    && forall k: nat :: k < i && Good(imgs, blocks, b, k) ==>
         Others(imgs, blocks, b, k, |imgs|) < Others(imgs, blocks, b, i, |imgs|)
  }

  /** Image i has the copy to take if all good copies are alike. */
  ghost predicate BestCopy(imgs: seq<Image>, blocks: nat, b: nat, i: nat)
    requires SameShape(imgs, blocks) && b < blocks && i < |imgs|
  {
    if exists k: nat :: k < |imgs| && Good(imgs, blocks, b, k) then
      forall k: nat :: k < |imgs| && Good(imgs, blocks, b, k) ==> Agree(imgs, blocks, b, i, k)
    else if exists k: nat :: k < |imgs| && !IsBadBlock(imgs[k].errors[b]) then
      !IsBadBlock(imgs[i].errors[b]) && forall k :: 0 <= k < i ==> IsBadBlock(imgs[k].errors[b])
    else i == 0
  }

  /** The first image with the highest score. */
  method PickWeak(imgs: seq<Image>, blocks: nat, b: nat, score: array2<nat>) returns (pick: nat)
    requires SameShape(imgs, blocks) && b < blocks && |imgs| >= 2
    requires score.Length0 == |imgs| && score.Length1 == blocks && Scored(imgs, blocks, b, score)
    ensures pick < |imgs|
    ensures forall i :: 0 <= i < |imgs| ==> Others(imgs, blocks, b, i, |imgs|) <= Others(imgs, blocks, b, pick, |imgs|)
    ensures forall i :: 0 <= i < pick ==> Others(imgs, blocks, b, i, |imgs|) < Others(imgs, blocks, b, pick, |imgs|)
    ensures Others(imgs, blocks, b, pick, |imgs|) == 0 ==> pick == 0
  {
    var hiscore := 0;
    for i := 0 to |imgs|
      invariant forall k :: 0 <= k < i ==> score[k, b] <= hiscore
      invariant hiscore == 0 || exists k :: 0 <= k < i && score[k, b] == hiscore
    {
      if score[i, b] > hiscore {
        hiscore := score[i, b];
      }
    }
    pick := 0;
    assert hiscore == 0 ==> score[0, b] == hiscore;
    while score[pick, b] != hiscore
      invariant 0 <= pick < |imgs|
      invariant forall k :: 0 <= k < pick ==> score[k, b] != hiscore
      invariant exists k :: pick <= k < |imgs| && score[k, b] == hiscore
      decreases |imgs| - pick
    {
      pick := pick + 1;
    }
  }

  lemma {:induction false} TopScoreWins(imgs: seq<Image>, blocks: nat, b: nat, pick: nat)
    requires SameShape(imgs, blocks) && b < blocks && pick < |imgs|
    requires forall i :: 0 <= i < |imgs| ==> Others(imgs, blocks, b, i, |imgs|) <= Others(imgs, blocks, b, pick, |imgs|)
    requires Others(imgs, blocks, b, pick, |imgs|) > 0
    ensures Good(imgs, blocks, b, pick)
    ensures Votes(imgs, blocks, b, imgs[pick].blocks[b], |imgs|) == Others(imgs, blocks, b, pick, |imgs|) + 1
    ensures forall other :: Votes(imgs, blocks, b, other, |imgs|) <= Votes(imgs, blocks, b, imgs[pick].blocks[b], |imgs|)
  {
    OthersAreVotes(imgs, blocks, b, pick, |imgs|);
    forall other
      ensures Votes(imgs, blocks, b, other, |imgs|) <= Votes(imgs, blocks, b, imgs[pick].blocks[b], |imgs|)
    {
      if Votes(imgs, blocks, b, other, |imgs|) > 0 {
        var i := VoterExists(imgs, blocks, b, other, |imgs|);
        OthersAreVotes(imgs, blocks, b, i, |imgs|);
      }
    }
  }

  /** The first copy of block b that was read as good, else the first not marked as bad, else the first. */
  method PickBest(imgs: seq<Image>, blocks: nat, b: nat) returns (pick: nat)
    requires SameShape(imgs, blocks) && b < blocks && |imgs| >= 2
    requires !Weak(imgs, blocks, b)
    ensures pick < |imgs| && BestCopy(imgs, blocks, b, pick)
  {
    var i := 0;
    while i < |imgs|
      invariant 0 <= i <= |imgs| && forall k :: 0 <= k < i ==> !Good(imgs, blocks, b, k)
    {
      if imgs[i].errors[b] == 1 {
        assert Good(imgs, blocks, b, i);
        forall k: nat | k < |imgs| && Good(imgs, blocks, b, k)
          ensures Agree(imgs, blocks, b, i, k)
        {
          assert i == k || (i < k && !Differ(imgs, blocks, b, i, k));
        }
        return i;
      }
      i := i + 1;
    }
    i := 0;
    while i < |imgs|
      invariant 0 <= i <= |imgs| && forall k :: 0 <= k < i ==> IsBadBlock(imgs[k].errors[b])
    {
      if !IsBadBlock(imgs[i].errors[b]) {
        return i;
      }
      i := i + 1;
    }
    return 0;
  }

  method MergeBlock(imgs: seq<Image>, blocks: nat, b: nat, weakEntry: byte, score: array2<nat>, weak: array<bool>)
    returns (c: Choice)
    requires SameShape(imgs, blocks) && b < blocks && |imgs| >= 2
    requires score.Length0 == |imgs| && score.Length1 == blocks && weak.Length == blocks
    requires Scored(imgs, blocks, b, score) && (weak[b] <==> Weak(imgs, blocks, b))
    ensures RightChoice(imgs, blocks, b, weakEntry, c)
  {
    if weak[b] {
      var pick := PickWeak(imgs, blocks, b, score);
      c := Choice(imgs[pick].blocks[b], weakEntry);
      if Others(imgs, blocks, b, pick, |imgs|) > 0 {
        TopScoreWins(imgs, blocks, b, pick);
        assert FirstTop(imgs, blocks, b, pick);
      }
    } else {
      var pick := PickBest(imgs, blocks, b);
      c := Choice(imgs[pick].blocks[b], imgs[pick].errors[b]);
    }
  }

  /** merge_repair: -1 for a single image or for images of different types, else every block chosen rightly. */
  method MergeRepair(imgs: seq<Image>, weakEntry: byte)
    returns (rc: int, mergedBlocks: seq<Block>, mergedTable: seq<byte>)
    requires ReadIn(imgs)
    ensures rc == if |imgs| < 2 || exists i :: 0 <= i < |imgs| && imgs[i].id != imgs[0].id then -1 else 0
    ensures rc == 0 ==> SameShape(imgs, |mergedBlocks|) && |mergedTable| == |mergedBlocks|
    ensures rc == 0 ==> forall b :: 0 <= b < |mergedBlocks| ==>
                          RightChoice(imgs, |mergedBlocks|, b, weakEntry, Choice(mergedBlocks[b], mergedTable[b]))
  {
    hide RightChoice;
    if |imgs| < 2 {
      return -1, [], [];
    }
    for i := 1 to |imgs|
      invariant forall k :: 0 <= k < i ==> imgs[k].id == imgs[0].id
    {
      if imgs[i].id != imgs[0].id {
        return -1, [], [];
      }
    }
    var blocks := |imgs[0].blocks|;
    var score := new nat[|imgs|, blocks]((i, b) => 0);
    var weak := new bool[blocks](_ => false);
    for b := 0 to blocks
      invariant forall c :: 0 <= c < b ==> Scored(imgs, blocks, c, score) && (weak[c] <==> Weak(imgs, blocks, c))
      invariant forall k, c :: 0 <= k < |imgs| && b <= c < blocks ==> score[k, c] == 0
      invariant forall c :: b <= c < blocks ==> !weak[c]
    {
      label Before:
      ScoreBlock(imgs, blocks, b, score, weak);
      forall c | 0 <= c < b
        ensures Scored(imgs, blocks, c, score) && (weak[c] <==> Weak(imgs, blocks, c))
      {
        assert old@Before(Scored(imgs, blocks, c, score));
        assert forall k :: 0 <= k < |imgs| ==> score[k, c] == old@Before(score[k, c]);
      }
    }
    var merged := new Block[blocks](_ => []);
    var table := new byte[blocks](_ => 0);
    for b := 0 to blocks
      modifies merged, table
      invariant forall c :: 0 <= c < b ==> RightChoice(imgs, blocks, c, weakEntry, Choice(merged[c], table[c]))
    {
      var c := MergeBlock(imgs, blocks, b, weakEntry, score, weak);
      merged[b], table[b] := c.block, c.code;
    }
    rc, mergedBlocks, mergedTable := 0, merged[..], table[..];
  }

  // ---------------------------------------------------------------------------------------
  // What the choice means

  /** The images that have read block b, without an error, with this content. */
  ghost function Supporters(imgs: seq<Image>, b: nat, content: Block, n: nat): set<nat>
    requires n <= |imgs| && forall i :: 0 <= i < |imgs| ==> b < |imgs[i].blocks| && b < |imgs[i].errors|
  {
    set i: nat | i < n && imgs[i].errors[b] == 1 && imgs[i].blocks[b] == content
  }

  /** Votes are counted right. */
  lemma {:induction false} VotesAre(imgs: seq<Image>, blocks: nat, b: nat, content: Block, n: nat)
    requires SameShape(imgs, blocks) && b < blocks && n <= |imgs|
    ensures Votes(imgs, blocks, b, content, n) == |Supporters(imgs, b, content, n)|
    decreases n
  {
    if n > 0 {
      VotesAre(imgs, blocks, b, content, n - 1);
      var before, now := Supporters(imgs, b, content, n - 1), Supporters(imgs, b, content, n);
      if imgs[n - 1].errors[b] == 1 && imgs[n - 1].blocks[b] == content {
        assert now == before + {n - 1};
      } else {
        assert now == before;
      }
    }
  }

  /** A block is bad for every code but 0 and 1. */
  lemma {:induction false} BadCodes(code: byte)
    ensures IsBadBlock(code) <==> code > 1
  {
  }

  /**
   The choice for a block whose good copies are all alike, in plain terms: their content, as good; without a
   good copy, the first copy with code 0; without that, the first image's copy with its code.
   */
  lemma {:induction false} StrongChoice(imgs: seq<Image>, blocks: nat, b: nat, weakEntry: byte, c: Choice)
    requires SameShape(imgs, blocks) && b < blocks && |imgs| > 0 && RightChoice(imgs, blocks, b, weakEntry, c)
    requires forall i: nat, j: nat :: i < |imgs| && j < |imgs| && imgs[i].errors[b] == 1 && imgs[j].errors[b] == 1 ==>
               imgs[i].blocks[b] == imgs[j].blocks[b]
    ensures forall i: nat :: i < |imgs| && imgs[i].errors[b] == 1 ==> c == Choice(imgs[i].blocks[b], 1)
    ensures (forall k: nat :: k < |imgs| ==> imgs[k].errors[b] != 1) ==>
              forall i: nat :: i < |imgs| && imgs[i].errors[b] == 0 && (forall k: nat :: k < i ==> imgs[k].errors[b] != 0) ==>
                c == Choice(imgs[i].blocks[b], 0)
    ensures (forall k: nat :: k < |imgs| ==> imgs[k].errors[b] > 1) ==> c == Choice(imgs[0].blocks[b], imgs[0].errors[b])
  {
    assert !Weak(imgs, blocks, b);
    var i: nat :| i < |imgs| && c == Choice(imgs[i].blocks[b], imgs[i].errors[b]) && BestCopy(imgs, blocks, b, i);
    forall g: nat | g < |imgs| && imgs[g].errors[b] == 1
      ensures c == Choice(imgs[g].blocks[b], 1)
    {
      assert Good(imgs, blocks, b, g) && Agree(imgs, blocks, b, i, g);
    }
    BadCodes(imgs[i].errors[b]);
    forall z: nat | z < |imgs| && imgs[z].errors[b] == 0
                    && (forall k: nat :: k < |imgs| ==> imgs[k].errors[b] != 1)
                    && (forall k: nat :: k < z ==> imgs[k].errors[b] != 0)
      ensures z == i
    {
      assert !IsBadBlock(imgs[z].errors[b]);
    }
    if forall k: nat :: k < |imgs| ==> imgs[k].errors[b] > 1 {
      forall k: nat | k < |imgs|
        ensures IsBadBlock(imgs[k].errors[b]) && !Good(imgs, blocks, b, k)
      {
        BadCodes(imgs[k].errors[b]);
      }
    }
  }

  /**
   The choice for a block with different good copies: among the contents that most images have read, and at
   least two, the one that comes first; if no two images agree, the first image's copy. Its code is the one
   for weak blocks.
   */
  lemma {:induction false} WeakChoice(imgs: seq<Image>, blocks: nat, b: nat, weakEntry: byte, c: Choice, p: nat, q: nat)
    requires SameShape(imgs, blocks) && b < blocks && |imgs| > 0 && RightChoice(imgs, blocks, b, weakEntry, c)
    requires p < q < |imgs| && imgs[p].errors[b] == 1 && imgs[q].errors[b] == 1 && imgs[p].blocks[b] != imgs[q].blocks[b]
    ensures c.code == weakEntry
    ensures if exists i: nat, j: nat :: i < j < |imgs| && imgs[i].errors[b] == imgs[j].errors[b] == 1
                                        && imgs[i].blocks[b] == imgs[j].blocks[b] then
              && |Supporters(imgs, b, c.block, |imgs|)| >= 2
              && (forall other :: |Supporters(imgs, b, other, |imgs|)| <= |Supporters(imgs, b, c.block, |imgs|)|)
              && exists i: nat :: i < |imgs| && imgs[i].blocks[b] == c.block && imgs[i].errors[b] == 1
                   && forall k: nat :: k < i && imgs[k].errors[b] == 1 ==>
                        |Supporters(imgs, b, imgs[k].blocks[b], |imgs|)| < |Supporters(imgs, b, c.block, |imgs|)|
            else c.block == imgs[0].blocks[b]
  {
    assert Differ(imgs, blocks, b, p, q) && Weak(imgs, blocks, b);
    if i: nat, j: nat :| i < j < |imgs| && imgs[i].errors[b] == imgs[j].errors[b] == 1
                         && imgs[i].blocks[b] == imgs[j].blocks[b] {
      assert Agree(imgs, blocks, b, i, j);
      hide Supporters, Votes;
      OthersPositive(imgs, blocks, b, i, j, |imgs|);
      hide Others, Agree;
      var f: nat :| f < |imgs| && imgs[f].blocks[b] == c.block && FirstTop(imgs, blocks, b, f);
      FirstSupported(imgs, blocks, b, f);
      VotesAre(imgs, blocks, b, c.block, |imgs|);
      forall other
        ensures |Supporters(imgs, b, other, |imgs|)| <= |Supporters(imgs, b, c.block, |imgs|)|
      {
        VotesAre(imgs, blocks, b, other, |imgs|);
      }
    } else {
      forall i: nat | i < |imgs|
        ensures Others(imgs, blocks, b, i, |imgs|) == 0
      {
        NobodyAgrees(imgs, blocks, b, i, |imgs|);
      }
    }
  }

  /** The contents read in front of the first top one have fewer supporters. */
  lemma {:induction false} FirstSupported(imgs: seq<Image>, blocks: nat, b: nat, f: nat)
    requires SameShape(imgs, blocks) && b < blocks && f < |imgs| && FirstTop(imgs, blocks, b, f)
    ensures imgs[f].errors[b] == 1
    ensures forall k: nat :: k < f && imgs[k].errors[b] == 1 ==>
              |Supporters(imgs, b, imgs[k].blocks[b], |imgs|)| < |Supporters(imgs, b, imgs[f].blocks[b], |imgs|)|
  {
    hide Supporters, Votes, Others;
    OthersAreVotes(imgs, blocks, b, f, |imgs|);
    VotesAre(imgs, blocks, b, imgs[f].blocks[b], |imgs|);
    forall k: nat | k < f && imgs[k].errors[b] == 1
      ensures |Supporters(imgs, b, imgs[k].blocks[b], |imgs|)| < |Supporters(imgs, b, imgs[f].blocks[b], |imgs|)|
    {
      assert Good(imgs, blocks, b, k);
      OthersAreVotes(imgs, blocks, b, k, |imgs|);
      VotesAre(imgs, blocks, b, imgs[k].blocks[b], |imgs|);
    }
  }

  /** Unless weak blocks are to be marked, a merged block is marked bad exactly when it is bad in every image. */
  lemma {:induction false} BadIffBadEverywhere(imgs: seq<Image>, blocks: nat, b: nat, weakEntry: byte, c: Choice)
    requires SameShape(imgs, blocks) && b < blocks && |imgs| > 0
    requires RightChoice(imgs, blocks, b, weakEntry, c)
    ensures !IsBadBlock(weakEntry) ==>
              (IsBadBlock(c.code) <==> forall i :: 0 <= i < |imgs| ==> IsBadBlock(imgs[i].errors[b]))
    ensures IsBadBlock(weakEntry) ==>
              (IsBadBlock(c.code)
               <==> Weak(imgs, blocks, b) || forall i :: 0 <= i < |imgs| ==> IsBadBlock(imgs[i].errors[b]))
  {
    if Weak(imgs, blocks, b) {
      var p: nat, q: nat :| p < q < |imgs| && Differ(imgs, blocks, b, p, q);
      assert !IsBadBlock(imgs[p].errors[b]);
    }
  }

  /**
   A weak block is filled with a content that some image read as good exactly when two images agree
   on a good copy, or the first image's content is one.
   */
  lemma {:induction false} WeakChoiceRead(imgs: seq<Image>, blocks: nat, b: nat, weakEntry: byte, c: Choice)
    requires SameShape(imgs, blocks) && b < blocks && |imgs| > 0
    requires RightChoice(imgs, blocks, b, weakEntry, c) && Weak(imgs, blocks, b)
    ensures Votes(imgs, blocks, b, c.block, |imgs|) > 0
            <==> (exists i: nat, j: nat :: i < j < |imgs| && Agree(imgs, blocks, b, i, j))
                 || Votes(imgs, blocks, b, imgs[0].blocks[b], |imgs|) > 0
  {
    if i: nat, j: nat :| i < j < |imgs| && Agree(imgs, blocks, b, i, j) {
      OthersPositive(imgs, blocks, b, i, j, |imgs|);
    } else {
      forall i: nat | i < |imgs|
        ensures Others(imgs, blocks, b, i, |imgs|) == 0
      {
        NobodyAgrees(imgs, blocks, b, i, |imgs|);
      }
    }
  }

  lemma {:induction false} OthersPositive(imgs: seq<Image>, blocks: nat, b: nat, i: nat, j: nat, n: nat)
    requires SameShape(imgs, blocks) && b < blocks && i < |imgs| && j < n <= |imgs| && i != j
    requires Agree(imgs, blocks, b, i, j)
    ensures Others(imgs, blocks, b, i, n) > 0
    decreases n
  {
    if j < n - 1 {
      OthersPositive(imgs, blocks, b, i, j, n - 1);
    }
  }

  lemma {:induction false} NobodyAgrees(imgs: seq<Image>, blocks: nat, b: nat, i: nat, n: nat)
    requires SameShape(imgs, blocks) && b < blocks && i < |imgs| && n <= |imgs|
    requires !exists p: nat, q: nat :: p < q < |imgs| && Agree(imgs, blocks, b, p, q)
    ensures Others(imgs, blocks, b, i, n) == 0
    decreases n
  {
    if n > 0 {
      NobodyAgrees(imgs, blocks, b, i, n - 1);
      assert n - 1 < i ==> !Agree(imgs, blocks, b, n - 1, i);
      assert i < n - 1 ==> !Agree(imgs, blocks, b, i, n - 1);
    }
  }

  /** Two good copies that differ, behind a copy that could not be read: the unread one is taken, as a good block. */
  lemma {:induction false} WeakPicksUnread(c: Choice)
    ensures var imgs := [Image(41, [[0]], [5]), Image(41, [[1]], [1]), Image(41, [[2]], [1])];
            RightChoice(imgs, 1, 0, 1, c) ==> c == Choice([0], 1) && Votes(imgs, 1, 0, c.block, 3) == 0
  {
    var imgs := [Image(41, [[0]], [5]), Image(41, [[1]], [1]), Image(41, [[2]], [1])];
    assert Differ(imgs, 1, 0, 1, 2);
    forall i: nat | i < |imgs|
      ensures Others(imgs, 1, 0, i, |imgs|) == 0
    {
      NobodyAgrees(imgs, 1, 0, i, |imgs|);
    }
    assert Votes(imgs, 1, 0, [0], 1) == 0;
    assert Votes(imgs, 1, 0, [0], 2) == 0;
  }
}
