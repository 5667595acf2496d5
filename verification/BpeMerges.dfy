/**
 Byte pair encoding, src/embedding/bpe.rs: the two ways in which a list of merges is
 put to work on the symbols of a word.  The trainer makes one left-to-right pass per
 merge; the encoder takes, one at a time, the leftmost pair of the lowest rank.
 */
module BpeMerges {
  const END_OF_WORD := "</w>"

  datatype MergeOp = MergeOp(left: string, right: string, merged: string) {
    /** As built by `MergeOp::new` from two symbols. */
    predicate Made() {
      left != "" && right != "" && merged == left + right
    }
  }

  predicate AllMade(ms: seq<MergeOp>) {
    forall r :: 0 <= r < |ms| ==> ms[r].Made()
  }

  // ----- Symbols of a word

  /** One symbol per character; the last one carries the end marker if `marked`. */
  function Base(x: string, marked: bool): (s: seq<string>)
    ensures |s| == |x|
  {
    seq(|x|, i requires 0 <= i < |x| => if marked && i == |x| - 1 then [x[i]] + END_OF_WORD else [x[i]])
  }

  /** What a word is split into before any merge. */
  function InitialSymbols(word: string): seq<string> {
    Base(word, true)
  }

  predicate IsInitial(sym: string) {
    |sym| == 1 || (|sym| == 5 && sym[1..] == END_OF_WORD)
  }

  function Concat(s: seq<string>): string {
    if s == [] then "" else s[0] + Concat(s[1..])
  }

  lemma {:induction false} ConcatAppend(a: seq<string>, b: seq<string>)
    ensures Concat(a + b) == Concat(a) + Concat(b)
  {
    if a == [] {
      assert a + b == b;
    } else {
      assert (a + b)[1..] == a[1..] + b;
      ConcatAppend(a[1..], b);
    }
  }

  // ----- The trainer's pass

  predicate PairAt(m: MergeOp, s: seq<string>, i: nat) {
    i + 1 < |s| && s[i] == m.left && s[i + 1] == m.right
  }

  ghost predicate HasPair(m: MergeOp, s: seq<string>) {
    exists i: nat :: PairAt(m, s, i)
  }

  /** `apply_merge` on one word: scan from the left, replace, go on behind the replacement. */
  function Pass(m: MergeOp, s: seq<string>): seq<string> {
    if |s| < 2 then s
    else if PairAt(m, s, 0) then [m.merged] + Pass(m, s[2..])
    else [s[0]] + Pass(m, s[1..])
  }

  /** The symbols after the first `r` merges, one pass each. */
  function Stage(ms: seq<MergeOp>, r: nat, s: seq<string>): seq<string>
    requires r <= |ms|
  {
    if r == 0 then s else Pass(ms[r - 1], Stage(ms, r - 1, s))
  }

  /** All passes in order. */
  function Replay(ms: seq<MergeOp>, s: seq<string>): seq<string> {
    Stage(ms, |ms|, s)
  }

  /** The passes from merge `r` on. */
  function From(ms: seq<MergeOp>, r: nat, s: seq<string>): seq<string>
    requires r <= |ms|
    decreases |ms| - r
  {
    if r == |ms| then s else From(ms, r + 1, Pass(ms[r], s))
  }

  lemma {:induction false} FromStage(ms: seq<MergeOp>, r: nat, s: seq<string>)
    requires r <= |ms|
    ensures From(ms, r, Stage(ms, r, s)) == Replay(ms, s)
    decreases |ms| - r
  {
    if r < |ms| { FromStage(ms, r + 1, s); }
  }

  lemma {:induction false} PassConcat(m: MergeOp, s: seq<string>)
    requires m.Made()
    ensures Concat(Pass(m, s)) == Concat(s)
  {
    if |s| >= 2 {
      if PairAt(m, s, 0) {
        PassConcat(m, s[2..]);
        assert s[1..][1..] == s[2..];
        assert ([m.merged] + Pass(m, s[2..]))[1..] == Pass(m, s[2..]);
        assert Concat(s) == s[0] + (s[1] + Concat(s[2..]));
      } else {
        PassConcat(m, s[1..]);
        assert ([s[0]] + Pass(m, s[1..]))[1..] == Pass(m, s[1..]);
      }
    }
  }

  lemma {:induction false} StageConcat(ms: seq<MergeOp>, r: nat, s: seq<string>)
    requires r <= |ms| && AllMade(ms)
    ensures Concat(Stage(ms, r, s)) == Concat(s)
    decreases r
  {
    if r > 0 {
      StageConcat(ms, r - 1, s);
      PassConcat(ms[r - 1], Stage(ms, r - 1, s));
    }
  }

  /** A pass leaves no occurrence of its pair, never lengthens, and shortens if there was one. */
  lemma {:induction false} PassEliminates(m: MergeOp, s: seq<string>)
    requires m.Made()
    ensures !HasPair(m, Pass(m, s))
    ensures |Pass(m, s)| <= |s|
    ensures HasPair(m, s) ==> |Pass(m, s)| < |s|
    ensures !HasPair(m, s) ==> Pass(m, s) == s
    ensures s != [] ==> Pass(m, s) != [] && (Pass(m, s)[0] == s[0] || Pass(m, s)[0] == m.merged)
  {
    if |s| < 2 {
    } else if PairAt(m, s, 0) {
      var rest := Pass(m, s[2..]);
      PassEliminates(m, s[2..]);
      forall i: nat ensures !PairAt(m, [m.merged] + rest, i) {
        assert i > 0 ==> (PairAt(m, [m.merged] + rest, i) <==> PairAt(m, rest, i - 1));
      }
    } else {
      var rest := Pass(m, s[1..]);
      PassEliminates(m, s[1..]);
      forall i: nat ensures !PairAt(m, [s[0]] + rest, i) {
        assert i > 0 ==> (PairAt(m, [s[0]] + rest, i) <==> PairAt(m, rest, i - 1));
      }
      if HasPair(m, s) {
        var i: nat :| PairAt(m, s, i);
        assert PairAt(m, s[1..], i - 1);
      } else {
        forall i: nat ensures !PairAt(m, s[1..], i) {
          assert PairAt(m, s[1..], i) <==> PairAt(m, s, i + 1);
        }
        assert [s[0]] + s[1..] == s;
      }
    }
  }

  // ----- The encoder's greedy choice

  type Ranks = map<(string, string), nat>

  /** `merge_ranks`: a pair's last position in the list of merges. */
  function RanksOf(ms: seq<MergeOp>): (ranks: Ranks)
    ensures forall pr :: pr in ranks ==> ranks[pr] < |ms| && (ms[ranks[pr]].left, ms[ranks[pr]].right) == pr
    ensures forall r :: 0 <= r < |ms| ==> (ms[r].left, ms[r].right) in ranks && r <= ranks[(ms[r].left, ms[r].right)]
  {
    if ms == [] then map[]
    else
      var n := |ms| - 1;
      RanksOf(ms[..n])[(ms[n].left, ms[n].right) := n]
  }

  predicate Ranked(ranks: Ranks, s: seq<string>, i: nat) {
    i + 1 < |s| && (s[i], s[i + 1]) in ranks
  }

  function RankAt(ranks: Ranks, s: seq<string>, i: nat): nat
    requires Ranked(ranks, s, i)
  {
    ranks[(s[i], s[i + 1])]
  }

  /** The leftmost pair of the lowest rank stands at `i`. */
  ghost predicate IsBest(ranks: Ranks, s: seq<string>, i: nat) {
    && Ranked(ranks, s, i)
    && forall j: nat :: Ranked(ranks, s, j) ==>
         RankAt(ranks, s, i) < RankAt(ranks, s, j) || (RankAt(ranks, s, i) == RankAt(ranks, s, j) && i <= j)
  }

  function MergeAt(s: seq<string>, i: nat, merged: string): (t: seq<string>)
    requires i + 1 < |s|
    ensures |t| == |s| - 1
  {
    s[..i] + [merged] + s[i + 2..]
  }

  /** The encoder's loop. */
  ghost function Greedy(ms: seq<MergeOp>, s: seq<string>): seq<string>
    decreases |s|
  {
    if exists i: nat :: IsBest(RanksOf(ms), s, i) then
      var i: nat :| IsBest(RanksOf(ms), s, i);
      Greedy(ms, MergeAt(s, i, ms[RankAt(RanksOf(ms), s, i)].merged))
    else s
  }
}
