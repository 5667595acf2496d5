/**
 Greedy encoding equals replaying the merges pass by pass, whenever no merge uses the
 result of a merge of its own or a later rank.
 */
module BpeAgreement {
  import opened BpeMerges

  /** Each merge is a real one, uses only results of earlier merges, and no pair is merged twice. */
  ghost predicate Stratified(ms: seq<MergeOp>) {
    && AllMade(ms)
    && (forall r, s :: 0 <= r < |ms| && 0 <= s < |ms| && (ms[s].left == ms[r].merged || ms[s].right == ms[r].merged)
          ==> r < s)
    && (forall r, s :: 0 <= r < s < |ms| ==> (ms[r].left, ms[r].right) != (ms[s].left, ms[s].right))
  }

  /** Merges built up in layers: from initial symbols and earlier results, each result new. */
  ghost predicate Layered(ms: seq<MergeOp>) {
    && AllMade(ms)
    && (forall r :: 0 <= r < |ms| ==> !IsInitial(ms[r].merged))
    && (forall r, s :: 0 <= r < s < |ms| ==> ms[r].merged != ms[s].merged)
    && (forall s :: 0 <= s < |ms| ==> Grounded(ms, s, ms[s].left) && Grounded(ms, s, ms[s].right))
  }

  ghost predicate Grounded(ms: seq<MergeOp>, s: nat, part: string)
    requires s <= |ms|
  {
    IsInitial(part) || exists q :: 0 <= q < s && part == ms[q].merged
  }

  lemma LayeredIsStratified(ms: seq<MergeOp>)
    requires Layered(ms)
    ensures Stratified(ms)
  {
    forall r, s | 0 <= r < |ms| && 0 <= s < |ms| && (ms[s].left == ms[r].merged || ms[s].right == ms[r].merged)
      ensures r < s
    {
      assert Grounded(ms, s, ms[r].merged);
      var q :| 0 <= q < s && ms[r].merged == ms[q].merged;
    }
    forall r, s | 0 <= r < s < |ms| ensures (ms[r].left, ms[r].right) != (ms[s].left, ms[s].right) {
      assert ms[r].Made() && ms[s].Made();
    }
  }

  lemma BestIsUnique(ranks: Ranks, s: seq<string>, i: nat, j: nat)
    requires IsBest(ranks, s, i) && IsBest(ranks, s, j)
    ensures i == j
  {
    assert Ranked(ranks, s, i) && Ranked(ranks, s, j);
  }

  lemma GreedyUnfolds(ms: seq<MergeOp>, s: seq<string>, i: nat)
    requires IsBest(RanksOf(ms), s, i)
    ensures Greedy(ms, s) == Greedy(ms, MergeAt(s, i, ms[RankAt(RanksOf(ms), s, i)].merged))
  {
    var j: nat :| IsBest(RanksOf(ms), s, j)
                  && Greedy(ms, s) == Greedy(ms, MergeAt(s, j, ms[RankAt(RanksOf(ms), s, j)].merged));
    BestIsUnique(RanksOf(ms), s, i, j);
  }

  /** Every pair that has a rank has rank `r` or more. */
  ghost predicate RanksFrom(ms: seq<MergeOp>, s: seq<string>, r: nat) {
    forall j: nat :: Ranked(RanksOf(ms), s, j) ==> RankAt(RanksOf(ms), s, j) >= r
  }

  lemma RankOfMerge(ms: seq<MergeOp>, r: nat)
    requires Stratified(ms) && r < |ms|
    ensures (ms[r].left, ms[r].right) in RanksOf(ms) && RanksOf(ms)[(ms[r].left, ms[r].right)] == r
  {
    var q := RanksOf(ms)[(ms[r].left, ms[r].right)];
    assert !(r < q);
  }

  ghost predicate LeftmostPair(m: MergeOp, s: seq<string>, i: nat) {
    PairAt(m, s, i) && forall j: nat :: j < i ==> !PairAt(m, s, j)
  }

  lemma LeftmostExists(m: MergeOp, s: seq<string>) returns (i: nat)
    requires HasPair(m, s)
    ensures LeftmostPair(m, s, i)
  {
    var k: nat :| PairAt(m, s, k);
    i := 0;
    while !PairAt(m, s, i)
      invariant i <= k && forall j: nat :: j < i ==> !PairAt(m, s, j)
      decreases k - i
    {
      i := i + 1;
    }
  }

  /** Replacing the leftmost occurrence first does not change what the pass arrives at. */
  lemma {:induction false} PassAfterLeftmost(m: MergeOp, s: seq<string>, i: nat)
    requires m.Made() && LeftmostPair(m, s, i)
    ensures Pass(m, MergeAt(s, i, m.merged)) == Pass(m, s)
    decreases i
  {
    var t := MergeAt(s, i, m.merged);
    if i == 0 {
      assert t == [m.merged] + s[2..];
      assert m.merged != m.left;
    } else {
      assert PairAt(m, s[1..], i - 1);
      forall j: nat | j < i - 1 ensures !PairAt(m, s[1..], j) {
        assert PairAt(m, s[1..], j) <==> PairAt(m, s, j + 1);
      }
      PassAfterLeftmost(m, s[1..], i - 1);
      assert t == [s[0]] + MergeAt(s[1..], i - 1, m.merged);
      assert !PairAt(m, s, 0);
      assert m.merged != m.right;
      assert !PairAt(m, t, 0);
      assert t[1..] == MergeAt(s[1..], i - 1, m.merged);
    }
  }

  /** No merge of rank `r` makes a pair of rank `r` or less that was not there. */
  lemma RanksStayFrom(ms: seq<MergeOp>, s: seq<string>, r: nat, i: nat)
    requires Stratified(ms) && r < |ms| && PairAt(ms[r], s, i) && RanksFrom(ms, s, r)
    ensures RanksFrom(ms, MergeAt(s, i, ms[r].merged), r)
  {
    var ranks, t := RanksOf(ms), MergeAt(s, i, ms[r].merged);
    forall j: nat | Ranked(ranks, t, j) ensures RankAt(ranks, t, j) >= r {
      if i <= j + 1 && j <= i {
        var q := RankAt(ranks, t, j);
        assert ms[q].left == ms[r].merged || ms[q].right == ms[r].merged;
      } else {
        PairsBeside(s, i, ms[r].merged, j);
        assert Ranked(ranks, s, if j < i then j else j + 1);
      }
    }
  }

  /** A pair that does not touch the merged symbol was there before. */
  lemma PairsBeside(s: seq<string>, i: nat, merged: string, j: nat)
    requires i + 1 < |s| && (j + 1 < i || i < j) && j + 2 < |s|
    ensures var t, k := MergeAt(s, i, merged), if j < i then j else j + 1; t[j] == s[k] && t[j + 1] == s[k + 1]
  {
  }

  lemma LeftmostIsBest(ms: seq<MergeOp>, s: seq<string>, r: nat, i: nat)
    requires Stratified(ms) && r < |ms| && LeftmostPair(ms[r], s, i) && RanksFrom(ms, s, r)
    ensures IsBest(RanksOf(ms), s, i) && RankAt(RanksOf(ms), s, i) == r
  {
    var ranks := RanksOf(ms);
    RankOfMerge(ms, r);
    forall j: nat | Ranked(ranks, s, j) && RankAt(ranks, s, j) == r ensures i <= j {
      assert PairAt(ms[r], s, j);
    }
  }

  lemma NextRank(ms: seq<MergeOp>, s: seq<string>, r: nat)
    requires Stratified(ms) && r < |ms| && !HasPair(ms[r], s) && RanksFrom(ms, s, r)
    ensures RanksFrom(ms, s, r + 1)
  {
    var ranks := RanksOf(ms);
    forall j: nat | Ranked(ranks, s, j) ensures RankAt(ranks, s, j) != r {
      if RankAt(ranks, s, j) == r { assert PairAt(ms[r], s, j); }
    }
  }

  /** Greedy choice from symbols that have no pair of a rank below `r` equals the passes from `r` on. */
  lemma {:induction false} GreedyIsFrom(ms: seq<MergeOp>, s: seq<string>, r: nat)
    requires Stratified(ms) && r <= |ms| && RanksFrom(ms, s, r)
    ensures Greedy(ms, s) == From(ms, r, s)
    decreases |ms| - r, |s|
  {
    if r == |ms| {
      forall i: nat ensures !IsBest(RanksOf(ms), s, i) { }
    } else if HasPair(ms[r], s) {
      var i := LeftmostExists(ms[r], s);
      var t := MergeAt(s, i, ms[r].merged);
      LeftmostIsBest(ms, s, r, i);
      GreedyUnfolds(ms, s, i);
      RanksStayFrom(ms, s, r, i);
      GreedyIsFrom(ms, t, r);
      PassAfterLeftmost(ms[r], s, i);
    } else {
      NextRank(ms, s, r);
      PassEliminates(ms[r], s);
      GreedyIsFrom(ms, s, r + 1);
    }
  }

  /** The encoder and the trainer agree on every word. */
  lemma GreedyIsReplay(ms: seq<MergeOp>, s: seq<string>)
    requires Stratified(ms)
    ensures Greedy(ms, s) == Replay(ms, s)
  {
    GreedyIsFrom(ms, s, 0);
    FromStage(ms, 0, s);
  }

  lemma {:induction false} BestExists(ranks: Ranks, s: seq<string>, i: nat) returns (b: nat)
    requires Ranked(ranks, s, i)
    ensures IsBest(ranks, s, b)
    decreases RankAt(ranks, s, i), i
  {
    if j: nat :| Ranked(ranks, s, j)
                 && (RankAt(ranks, s, j) < RankAt(ranks, s, i)
                     || (RankAt(ranks, s, j) == RankAt(ranks, s, i) && j < i)) {
      b := BestExists(ranks, s, j);
    } else {
      b := i;
    }
  }

  /** Encoding stops only when no pair can be merged any more. */
  lemma {:induction false} GreedyExhausts(ms: seq<MergeOp>, s: seq<string>, i: nat)
    ensures !Ranked(RanksOf(ms), Greedy(ms, s), i)
    decreases |s|
  {
    if b: nat :| IsBest(RanksOf(ms), s, b) {
      GreedyUnfolds(ms, s, b);
      GreedyExhausts(ms, MergeAt(s, b, ms[RankAt(RanksOf(ms), s, b)].merged), i);
    } else if Ranked(RanksOf(ms), s, i) {
      var b := BestExists(RanksOf(ms), s, i);
    }
  }

  /** A pair that stands alone is all that its pass replaces. */
  lemma {:induction false} PassOnce(m: MergeOp, s: seq<string>, i: nat)
    requires m.Made() && PairAt(m, s, i) && forall j: nat :: j != i ==> !PairAt(m, s, j)
    ensures Pass(m, s) == MergeAt(s, i, m.merged)
  {
    PassAfterLeftmost(m, s, i);
    var t := MergeAt(s, i, m.merged);
    forall j: nat ensures !PairAt(m, t, j) {
      if j + 1 < i {
        assert !PairAt(m, s, j);
      } else if j > i {
        assert !PairAt(m, s, j + 1);
      }
    }
    PassEliminates(m, t);
  }
}
