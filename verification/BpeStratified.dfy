/**
 Lists of merges learned from words are stratified if inside no word the end marker stands right
 behind a character in which some word of two or more closes, but at most once and right before
 the end of that word itself.
 */
module BpeStratified {
  import opened BpeMerges
  import opened BpeAgreement
  import opened BpeTrained

  /**
   The closing character of a word precedes the marker at most in the word itself, followed by that
   character alone.
   */
  ghost predicate OnlyAtOwnEnd(words: set<string>) {
    forall w, v, i: nat :: w in words && v in words && ClosesInside(w, v, i) ==> w == v && i + 6 == |v|
  }

  lemma ApartIsOnlyAtOwnEnd(words: set<string>)
    requires SuffixesApart(words)
    ensures OnlyAtOwnEnd(words)
  {
  }

  // ----- Where symbols end in the text they spell

  function Reach(s: seq<string>, k: nat): nat
    requires k <= |s|
  {
    |Concat(s[..k])|
  }

  ghost predicate Bound(s: seq<string>, a: nat) {
    exists k: nat :: k <= |s| && Reach(s, k) == a
  }

  lemma ReachNext(s: seq<string>, k: nat)
    requires k < |s|
    ensures Reach(s, k + 1) == Reach(s, k) + |s[k]|
  {
    assert s[..k + 1] == s[..k] + [s[k]];
    ConcatAppend(s[..k], [s[k]]);
    assert Concat([s[k]]) == s[k] + "";
  }

  lemma {:induction false} ReachGrows(s: seq<string>, j: nat, k: nat)
    requires j <= k <= |s|
    ensures Reach(s, j) <= Reach(s, k)
  {
    if j < k {
      ReachGrows(s, j, k - 1);
      ReachNext(s, k - 1);
    }
  }

  /** No symbol ends inside another. */
  lemma NotInside(s: seq<string>, k: nat, a: nat)
    requires k < |s| && Reach(s, k) < a < Reach(s, k + 1)
    ensures !Bound(s, a)
  {
    forall j: nat | j <= |s| ensures Reach(s, j) != a {
      if j <= k { ReachGrows(s, j, k); } else { ReachGrows(s, k + 1, j); }
    }
  }

  /** Passes only take ends away. */
  lemma BoundBefore(m: MergeOp, s: seq<string>, a: nat)
    requires m.Made() && Bound(Pass(m, s), a)
    ensures Bound(s, a)
  {
    var k: nat :| k <= |Pass(m, s)| && Reach(Pass(m, s), k) == a;
    var j := PassSplits(m, s, k);
    PassConcat(m, s[..j]);
    assert Reach(s, j) == a;
  }

  lemma {:induction false} BoundEarlier(ms: seq<MergeOp>, q: nat, r: nat, s: seq<string>, a: nat)
    requires AllMade(ms) && q <= r <= |ms| && Bound(Stage(ms, r, s), a)
    ensures Bound(Stage(ms, q, s), a)
    decreases r
  {
    if q < r {
      BoundBefore(ms[r - 1], Stage(ms, r - 1, s), a);
      BoundEarlier(ms, q, r - 1, s, a);
    }
  }

  /** Where a place of a word is in the word with its marker. */
  function TextEnd(w: string, b: nat): nat {
    if b == |w| then |w| + 4 else b
  }

  /** The symbols before a place spell the characters before it. */
  lemma ReachIs(ms: seq<MergeOp>, r: nat, w: string, i: nat, a: nat)
    requires AllMade(ms) && r <= |ms| && i <= |Stage(ms, r, InitialSymbols(w))| && a <= |w| && w != ""
    requires Stage(ms, r, Base(w[..a], a == |w|)) == Stage(ms, r, InitialSymbols(w))[..i]
    ensures Reach(Stage(ms, r, InitialSymbols(w)), i) == TextEnd(w, a)
  {
    StageConcat(ms, r, Base(w[..a], a == |w|));
    ConcatBase(w[..a], a == |w|);
  }

  lemma Together(ms: seq<MergeOp>, r: nat, w: string)
    requires AllMade(ms) && r <= |ms| && w != ""
    ensures var s := Stage(ms, r, InitialSymbols(w)); Reach(s, |s|) == |w| + 4
  {
    var s := Stage(ms, r, InitialSymbols(w));
    assert s[..|s|] == s;
    StageConcat(ms, r, InitialSymbols(w));
    ConcatBase(w, true);
  }

  /** A pair of different symbols at the end is merged. */
  lemma {:induction false} LastMerged(m: MergeOp, s: seq<string>)
    requires |s| >= 2 && s[|s| - 2] == m.left && s[|s| - 1] == m.right && m.left != m.right
    ensures Pass(m, s) != [] && Pass(m, s)[|Pass(m, s)| - 1] == m.merged
  {
    if |s| > 2 {
      var k := if PairAt(m, s, 0) then 2 else 1;
      assert |s| == 3 ==> k == 1;
      LastMerged(m, s[k..]);
    } else {
      assert s[2..] == [];
    }
  }

  // ----- Parts and results

  /** A symbol that some merge uses, in a word where it is used. */
  lemma PartInPlace(ms: seq<MergeOp>, words: set<string>, q: nat, part: string)
    returns (w: string, k: nat, a: nat, b: nat)
    requires LearnedFrom(ms, words) && AllMade(ms) && q < |ms| && (part == ms[q].left || part == ms[q].right)
    ensures w in words && |w| >= 2 && a < b <= |w|
    ensures var s := Stage(ms, q, InitialSymbols(w));
            && k < |s| && s[k] == part
            && Stage(ms, q, Base(w[a..b], b == |w|)) == [part]
            && Reach(s, k) == a && Reach(s, k + 1) == TextEnd(w, b)
            && (k + 1 == |s| ==> k > 0 && s[k - 1] == ms[q].left && part == ms[q].right)
    ensures part == Concat(Base(w[a..b], b == |w|))
  {
    var i;
    w, i := ShownBy(ms, words, q);
    StageLength(ms, q, InitialSymbols(w));
    k := if part == ms[q].left then i else i + 1;
    assert Stage(ms, q, InitialSymbols(w))[k..k + 1] == [part];
    a, b := StretchOf(ms, q, w, k, k + 1);
    StageLength(ms, q, Base(w[a..b], b == |w|));
    StageConcat(ms, q, Base(w[a..b], b == |w|));
    assert Concat([part]) == part + "";
    ReachIs(ms, q, w, k, a);
    ReachIs(ms, q, w, k + 1, b);
  }

  /** The pair of a merge, in a word where it is merged. */
  lemma PairInPlace(ms: seq<MergeOp>, words: set<string>, r: nat) returns (w: string, i: nat, a: nat, b: nat)
    requires LearnedFrom(ms, words) && AllMade(ms) && r < |ms|
    ensures w in words && a + 2 <= b <= |w|
    ensures var s := Stage(ms, r, InitialSymbols(w));
            && PairAt(ms[r], s, i)
            && Stage(ms, r, Base(w[a..b], b == |w|)) == [ms[r].left, ms[r].right]
            && Reach(s, i) == a && Reach(s, i + 2) == TextEnd(w, b)
    ensures ms[r].merged == Concat(Base(w[a..b], b == |w|))
  {
    w, i := ShownBy(ms, words, r);
    var pair := [ms[r].left, ms[r].right];
    assert Stage(ms, r, InitialSymbols(w))[i..i + 2] == pair;
    a, b := StretchOf(ms, r, w, i, i + 2);
    StageLength(ms, r, Base(w[a..b], b == |w|));
    StageConcat(ms, r, Base(w[a..b], b == |w|));
    TwoParts(ms[r]);
    ReachIs(ms, r, w, i, a);
    ReachIs(ms, r, w, i + 2, b);
  }

  /**
   After a closing pair has been merged, nothing ends between its parts, or nothing ever ended inside
   the left one.
   */
  lemma ClosingPair(ms: seq<MergeOp>, w: string, q: nat, k: nat, a: nat)
    requires AllMade(ms) && q < |ms| && w != "" && k > 0
    requires var s := Stage(ms, q, InitialSymbols(w));
             k + 1 == |s| && Reach(s, k) == a && PairAt(ms[q], s, k - 1) && |ms[q].right| == 5 && a + 5 == |w| + 4
    ensures !Bound(Stage(ms, q + 1, InitialSymbols(w)), a)
            || forall e: nat :: a < e + 5 && e < a ==> !Bound(Stage(ms, q, InitialSymbols(w)), e)
  {
    var s, u := Stage(ms, q, InitialSymbols(w)), Stage(ms, q + 1, InitialSymbols(w));
    assert ms[q].Made();
    if ms[q].left == ms[q].right {
      ReachNext(s, k - 1);
      forall e: nat | a < e + 5 && e < a ensures !Bound(s, e) { NotInside(s, k - 1, e); }
    } else {
      LastMerged(ms[q], s);
      LastIsLong(u, a, |w| + 4) by {
        Together(ms, q + 1, w);
      }
    }
  }

  lemma LastIsLong(u: seq<string>, a: nat, end: nat)
    requires u != [] && Reach(u, |u|) == end && end < a + |u[|u| - 1]| && a < end
    ensures !Bound(u, a)
  {
    ReachNext(u, |u| - 1);
    NotInside(u, |u| - 1, a);
  }

  /** An unmarked pair never comes to end just before a word's last character once a merge has used that end. */
  lemma UnmarkedLater(ms: seq<MergeOp>, w: string, q: nat, r: nat, k: nat, i: nat, a: nat)
    requires AllMade(ms) && q < r < |ms| && |w| >= 2 && a < |w| && k > 0
    requires var s := Stage(ms, q, InitialSymbols(w));
             k + 1 == |s| && Reach(s, k) == a && PairAt(ms[q], s, k - 1)
    requires PairAt(ms[r], Stage(ms, r, InitialSymbols(w)), i)
    ensures var t := Stage(ms, r, InitialSymbols(w)); Reach(t, i) + 5 != a || Reach(t, i + 2) + 1 != |w|
  {
    var t := Stage(ms, r, InitialSymbols(w));
    if Reach(t, i) + 5 == a && Reach(t, i + 2) + 1 == |w| {
      assert Bound(t, |w| - 1);
      if a + 1 < |w| {
        EndTaken(ms, q, r, k, w, a);
      } else {
        InnerEnd(ms, q, r, w, i);
        EndUsed(ms, q, r, k, w, a);
      }
    }
  }

  lemma EndTaken(ms: seq<MergeOp>, q: nat, r: nat, k: nat, w: string, a: nat)
    requires AllMade(ms) && q < r < |ms| && a + 1 < |w|
    requires var s := Stage(ms, q, InitialSymbols(w)); k + 1 == |s| && Reach(s, k) == a
    ensures !Bound(Stage(ms, r, InitialSymbols(w)), |w| - 1)
  {
    Together(ms, q, w);
    NotInside(Stage(ms, q, InitialSymbols(w)), k, |w| - 1);
    if Bound(Stage(ms, r, InitialSymbols(w)), |w| - 1) {
      BoundEarlier(ms, q, r, InitialSymbols(w), |w| - 1);
    }
  }

  lemma EndUsed(ms: seq<MergeOp>, q: nat, r: nat, k: nat, w: string, a: nat)
    requires AllMade(ms) && q < r < |ms| && |w| >= 2 && a + 1 == |w| && k > 0
    requires var s := Stage(ms, q, InitialSymbols(w)); k + 1 == |s| && Reach(s, k) == a && PairAt(ms[q], s, k - 1)
    ensures !Bound(Stage(ms, r, InitialSymbols(w)), a)
            || forall e: nat :: a < e + 5 && e < a ==> !Bound(Stage(ms, q, InitialSymbols(w)), e)
  {
    hide Reach, Stage, Bound, InitialSymbols;
    Together(ms, q, w);
    ReachNext(Stage(ms, q, InitialSymbols(w)), k);
    ClosingPair(ms, w, q, k, a);
    if Bound(Stage(ms, r, InitialSymbols(w)), a) {
      BoundEarlier(ms, q + 1, r, InitialSymbols(w), a);
    }
  }

  /** A pair has an end inside, which has been there before. */
  lemma InnerEnd(ms: seq<MergeOp>, q: nat, r: nat, w: string, i: nat)
    requires AllMade(ms) && q <= r < |ms| && PairAt(ms[r], Stage(ms, r, InitialSymbols(w)), i)
    ensures var t := Stage(ms, r, InitialSymbols(w));
            exists e: nat :: Reach(t, i) < e < Reach(t, i + 2) && Bound(Stage(ms, q, InitialSymbols(w)), e)
  {
    var t := Stage(ms, r, InitialSymbols(w));
    ReachNext(t, i);
    ReachNext(t, i + 1);
    assert ms[r].Made();
    var e := Reach(t, i + 1);
    assert Bound(t, e);
    BoundEarlier(ms, q, r, InitialSymbols(w), e);
  }

  /** No merge produces what it or an earlier merge uses. */
  lemma PartsNotProducedLater(ms: seq<MergeOp>, words: set<string>, q: nat, r: nat, part: string)
    requires LearnedFrom(ms, words) && AllMade(ms) && q <= r < |ms|
    requires OnlyAtOwnEnd(words) && (part == ms[q].left || part == ms[q].right)
    ensures ms[r].merged != part
  {
    if q == r {
      assert ms[q].Made();
    } else {
      hide Stage, Reach, Concat, Base, InitialSymbols, LearnedFrom, OnlyAtOwnEnd, AllMade;
      var v, k, i, j := PartInPlace(ms, words, q, part);
      var w, l, a, b := PairInPlace(ms, words, r);
      if b == |w| && j < |v| {
        MarkedLater(ms, words, q, r, v, k, i, j, w, l, a);
      } else if b < |w| && j == |v| {
        MarkedEarlier(ms, words, q, r, v, k, i, w, l, a, b);
      } else {
        OneOrTwo(ms, q, r, w[a..b], v[i..j], b == |w|);
      }
      if ms[r].merged == part { SameText(w, a, b, v, i, j); }
    }
  }

  lemma SameText(w: string, a: nat, b: nat, v: string, i: nat, j: nat)
    requires a < b <= |w| && i < j <= |v|
    requires Concat(Base(w[a..b], b == |w|)) == Concat(Base(v[i..j], j == |v|))
    ensures if b == |w| && j < |v| then v[i..j] == w[a..] + END_OF_WORD
            else if b < |w| && j == |v| then w[a..b] == v[i..] + END_OF_WORD
            else w[a..b] == v[i..j]
  {
    hide Concat, Base;
    TextTells(w[a..b], b == |w|, v[i..j], j == |v|);
    assert b == |w| ==> w[a..b] == w[a..];
    assert j == |v| ==> v[i..j] == v[i..];
  }

  lemma TextTells(x: string, xMarked: bool, y: string, yMarked: bool)
    requires x != "" && y != "" && Concat(Base(x, xMarked)) == Concat(Base(y, yMarked))
    ensures xMarked && !yMarked ==> y == x + END_OF_WORD
    ensures !xMarked && yMarked ==> x == y + END_OF_WORD
    ensures xMarked == yMarked ==> x == y
  {
    ConcatBase(x, xMarked);
    ConcatBase(y, yMarked);
    if xMarked && yMarked { SameBeforeMarker(x, y); }
    hide Concat, Base;
  }

  lemma OneOrTwo(ms: seq<MergeOp>, q: nat, r: nat, x: string, y: string, marked: bool)
    requires AllMade(ms) && q < r < |ms| && |Stage(ms, q, Base(y, marked))| == 1 && |Stage(ms, r, Base(x, marked))| == 2
    ensures x != y
  {
    OneSymbolStays(ms, q, r, Base(y, marked));
  }

  /** An unmarked part has no end inside at which a closing pair of the same text could begin. */
  lemma MarkedLater(ms: seq<MergeOp>, words: set<string>, q: nat, r: nat, v: string, k: nat, i: nat, j: nat,
                    w: string, l: nat, a: nat)
    requires OnlyAtOwnEnd(words) && AllMade(ms) && q < r < |ms| && w in words && v in words
    requires i < j < |v| && a + 2 <= |w|
    requires var s := Stage(ms, q, InitialSymbols(v)); k < |s| && Reach(s, k) == i && Reach(s, k + 1) == j
    requires l <= |Stage(ms, r, InitialSymbols(w))| && Reach(Stage(ms, r, InitialSymbols(w)), l) == a
    ensures v[i..j] != w[a..] + END_OF_WORD
  {
    if v[i..j] == w[a..] + END_OF_WORD {
      MarkerBehind(w, a, v, i, j);
      BoundEarlier(ms, q, r, InitialSymbols(w), a);
      NotInside(Stage(ms, q, InitialSymbols(v)), k, a);
    }
  }

  lemma MarkedEarlier(ms: seq<MergeOp>, words: set<string>, q: nat, r: nat, v: string, k: nat, i: nat,
                      w: string, l: nat, a: nat, b: nat)
    requires OnlyAtOwnEnd(words) && AllMade(ms) && q < r < |ms| && w in words && v in words
    requires |v| >= 2 && i < |v| && a <= b < |w|
    requires var s := Stage(ms, q, InitialSymbols(v));
             k < |s| && Reach(s, k) == i && Reach(s, k + 1) == |v| + 4
             && (k + 1 == |s| ==> k > 0 && PairAt(ms[q], s, k - 1))
    requires var t := Stage(ms, r, InitialSymbols(w));
             PairAt(ms[r], t, l) && Reach(t, l) == a && Reach(t, l + 2) == b
    ensures w[a..b] != v[i..] + END_OF_WORD
  {
    if w[a..b] == v[i..] + END_OF_WORD {
      MarkerBehind(v, i, w, a, b);
      IsLast(ms, q, v, k);
      UnmarkedLater(ms, w, q, r, k, l, i);
    }
  }

  lemma IsLast(ms: seq<MergeOp>, q: nat, v: string, k: nat)
    requires AllMade(ms) && q <= |ms| && v != ""
    requires var s := Stage(ms, q, InitialSymbols(v)); k < |s| && Reach(s, k + 1) == |v| + 4
    ensures k + 1 == |Stage(ms, q, InitialSymbols(v))|
  {
    var s := Stage(ms, q, InitialSymbols(v));
    Together(ms, q, v);
    if k + 1 < |s| {
      assert s[k + 1] in s;
      SymbolsNonEmpty(ms, q, v, s[k + 1]);
      ReachNext(s, k + 1);
      ReachGrows(s, k + 2, |s|);
    }
  }

  lemma SymbolsNonEmpty(ms: seq<MergeOp>, q: nat, v: string, sym: string)
    requires AllMade(ms) && q <= |ms| && sym in Stage(ms, q, InitialSymbols(v))
    ensures sym != ""
  {
    StageSymbols(ms, q, InitialSymbols(v), sym);
    if sym !in InitialSymbols(v) {
      var p :| 0 <= p < q && sym == ms[p].merged;
      assert ms[p].Made();
    }
  }

  /** A pass brings two symbols together only if one of them is what it produces. */
  lemma {:induction false} PassAddsNoPair(m: MergeOp, s: seq<string>, p: MergeOp)
    requires p.left != m.merged && p.right != m.merged && HasPair(p, Pass(m, s))
    ensures HasPair(p, s)
  {
    var i: nat :| PairAt(p, Pass(m, s), i);
    if |s| >= 2 {
      var k := if PairAt(m, s, 0) then 2 else 1;
      if i > 0 {
        assert PairAt(p, Pass(m, s[k..]), i - 1);
        PassAddsNoPair(m, s[k..], p);
        var j: nat :| PairAt(p, s[k..], j);
        assert PairAt(p, s, j + k);
      } else {
        assert k == 1 && Pass(m, s)[1] == Pass(m, s[1..])[0];
        assert PairAt(p, s, 0);
      }
    }
  }

  lemma {:induction false} PairGone(ms: seq<MergeOp>, words: set<string>, r: nat, s: nat, w: string)
    requires LearnedFrom(ms, words) && AllMade(ms) && OnlyAtOwnEnd(words) && r < s <= |ms|
    ensures !HasPair(ms[r], Stage(ms, s, InitialSymbols(w)))
    decreases s
  {
    var before := Stage(ms, s - 1, InitialSymbols(w));
    if s == r + 1 {
      assert ms[r].Made();
      PassEliminates(ms[r], before);
    } else {
      PairGone(ms, words, r, s - 1, w);
      PartsNotProducedLater(ms, words, r, s - 1, ms[r].left);
      PartsNotProducedLater(ms, words, r, s - 1, ms[r].right);
      if HasPair(ms[r], Pass(ms[s - 1], before)) { PassAddsNoPair(ms[s - 1], before, ms[r]); }
    }
  }

  /** Merges learned from such words are stratified. */
  lemma LearnedStratified(ms: seq<MergeOp>, words: set<string>)
    requires LearnedFrom(ms, words)
    requires OnlyAtOwnEnd(words)
    ensures Stratified(ms)
  {
    LearnedMade(ms, words);
    forall r, s | 0 <= r < |ms| && 0 <= s < |ms| && (ms[s].left == ms[r].merged || ms[s].right == ms[r].merged)
      ensures r < s
    {
      if s <= r { PartsNotProducedLater(ms, words, s, r, ms[r].merged); }
    }
    forall r, s | 0 <= r < s < |ms| ensures (ms[r].left, ms[r].right) != (ms[s].left, ms[s].right) {
      var w, i := ShownBy(ms, words, s);
      PairGone(ms, words, r, s, w);
    }
  }

  /** So encoding agrees with the trainer's passes on every word, seen in training or not. */
  lemma LearnedAgree(ms: seq<MergeOp>, words: set<string>, word: string)
    requires LearnedFrom(ms, words)
    requires OnlyAtOwnEnd(words)
    ensures Greedy(ms, InitialSymbols(word)) == Replay(ms, InitialSymbols(word))
  {
    LearnedStratified(ms, words);
    GreedyIsReplay(ms, InitialSymbols(word));
  }
}
