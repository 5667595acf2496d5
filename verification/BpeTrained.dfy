/**
 What lists of merges learned from words are like.  The reason for all of it is locality: how a
 stretch of symbols came about depends on its own characters only.
 */
module BpeTrained {
  import opened BpeMerges
  import opened BpeAgreement

  ghost predicate MarkerAt(word: string, i: nat) {
    i + 4 <= |word| && word[i..i + 4] == END_OF_WORD
  }

  ghost predicate MarkerFree(word: string) {
    forall i: nat :: !MarkerAt(word, i)
  }

  ghost predicate AllMarkerFree(words: set<string>) {
    forall w :: w in words ==> MarkerFree(w)
  }

  /**
   No word has, before its end, the last character of a word of two or more followed by the
   marker: only there could characters spell what also closes a word.
   */
  ghost predicate SuffixesApart(words: set<string>) {
    forall w, v, i :: w in words && v in words ==> !ClosesInside(w, v, i)
  }

  /** The last character of `w` stands at `i` in `v`, with the marker and more behind it. */
  ghost predicate ClosesInside(w: string, v: string, i: nat) {
    |w| >= 2 && i + 5 < |v| && v[i] == w[|w| - 1] && MarkerAt(v, i + 1)
  }

  lemma MarkerFreeIsApart(words: set<string>)
    requires AllMarkerFree(words)
    ensures SuffixesApart(words)
  {
  }

  /** Merge `r` joins a pair that some training word shows when its turn comes. */
  ghost predicate Shown(ms: seq<MergeOp>, words: set<string>, r: nat)
    requires r < |ms|
  {
    && ms[r].merged == ms[r].left + ms[r].right
    && exists w :: w in words && HasPair(ms[r], Stage(ms, r, InitialSymbols(w)))
  }

  ghost predicate LearnedFrom(ms: seq<MergeOp>, words: set<string>) {
    forall r :: 0 <= r < |ms| ==> Shown(ms, words, r)
  }

  lemma ShownBy(ms: seq<MergeOp>, words: set<string>, r: nat) returns (w: string, i: nat)
    requires LearnedFrom(ms, words) && r < |ms|
    ensures w in words && PairAt(ms[r], Stage(ms, r, InitialSymbols(w)), i)
    ensures ms[r].merged == ms[r].left + ms[r].right
  {
    assert Shown(ms, words, r);
    w :| w in words && HasPair(ms[r], Stage(ms, r, InitialSymbols(w)));
    i :| PairAt(ms[r], Stage(ms, r, InitialSymbols(w)), i);
  }

  // ----- Locality of the passes

  /** Wherever a pass's output is cut, its input can be cut to match. */
  lemma {:induction false} PassSplits(m: MergeOp, s: seq<string>, k: nat) returns (a: nat)
    requires k <= |Pass(m, s)|
    ensures a <= |s| && Pass(m, s[..a]) == Pass(m, s)[..k] && Pass(m, s[a..]) == Pass(m, s)[k..]
    decreases |s|
  {
    if k == 0 {
      a := 0;
    } else if |s| < 2 {
      a := k;
    } else {
      var n := if PairAt(m, s, 0) then 2 else 1;
      var b := PassSplits(m, s[n..], k - 1);
      a := b + n;
      assert s[..a][n..] == s[n..][..b] && s[a..] == s[n..][b..];
      assert PairAt(m, s[..a], 0) <==> n == 2 && a >= 2;
    }
  }

  lemma {:induction false} StageSplits(ms: seq<MergeOp>, r: nat, s: seq<string>, k: nat) returns (a: nat)
    requires r <= |ms| && k <= |Stage(ms, r, s)|
    ensures a <= |s|
    ensures Stage(ms, r, s[..a]) == Stage(ms, r, s)[..k] && Stage(ms, r, s[a..]) == Stage(ms, r, s)[k..]
    decreases r
  {
    if r == 0 {
      a := k;
    } else {
      var b := PassSplits(ms[r - 1], Stage(ms, r - 1, s), k);
      a := StageSplits(ms, r - 1, s, b);
    }
  }

  /** A stretch of symbols is what the passes make of a stretch of the original symbols. */
  lemma StageSegment(ms: seq<MergeOp>, r: nat, s: seq<string>, i: nat, j: nat) returns (a: nat, b: nat)
    requires r <= |ms| && i <= j <= |Stage(ms, r, s)|
    ensures a <= b <= |s| && Stage(ms, r, s[a..b]) == Stage(ms, r, s)[i..j]
    ensures Stage(ms, r, s[..a]) == Stage(ms, r, s)[..i] && Stage(ms, r, s[..b]) == Stage(ms, r, s)[..j]
  {
    b := StageSplits(ms, r, s, j);
    a := StageSplits(ms, r, s[..b], i);
    assert s[..b][a..] == s[a..b] && s[..b][..a] == s[..a];
    assert Stage(ms, r, s)[..j][i..] == Stage(ms, r, s)[i..j];
    assert Stage(ms, r, s)[..j][..i] == Stage(ms, r, s)[..i];
  }

  // ----- Which symbols occur

  lemma {:induction false} PassSymbols(m: MergeOp, s: seq<string>, sym: string)
    requires sym in Pass(m, s)
    ensures sym in s || sym == m.merged
  {
    if |s| >= 2 {
      if PairAt(m, s, 0) {
        if sym != m.merged { PassSymbols(m, s[2..], sym); }
      } else {
        if sym != s[0] { PassSymbols(m, s[1..], sym); }
      }
    }
  }

  lemma {:induction false} StageSymbols(ms: seq<MergeOp>, r: nat, s: seq<string>, sym: string)
    requires r <= |ms| && sym in Stage(ms, r, s)
    ensures sym in s || exists q :: 0 <= q < r && sym == ms[q].merged
    decreases r
  {
    if r > 0 {
      PassSymbols(ms[r - 1], Stage(ms, r - 1, s), sym);
      if sym in Stage(ms, r - 1, s) { StageSymbols(ms, r - 1, s, sym); }
    }
  }

  // ----- Symbols and strings

  lemma {:induction false} ConcatBase(x: string, marked: bool)
    ensures Concat(Base(x, marked)) == if marked && x != "" then x + END_OF_WORD else x
  {
    if |x| > 1 {
      assert Base(x, marked)[1..] == Base(x[1..], marked);
      ConcatBase(x[1..], marked);
      assert x == [x[0]] + x[1..];
    } else if |x| == 1 {
      assert Base(x, marked)[1..] == [];
    }
  }

  lemma BaseSegment(w: string, a: nat, b: nat)
    requires a <= b <= |w|
    ensures InitialSymbols(w)[a..b] == Base(w[a..b], b == |w|)
  {
  }

  lemma SubstringMarkerFree(w: string, a: nat, b: nat)
    requires MarkerFree(w) && a <= b <= |w|
    ensures MarkerFree(w[a..b])
  {
    forall i: nat ensures !MarkerAt(w[a..b], i) {
      if i + 4 <= b - a {
        var x, y := w[a..b][i..i + 4], w[a + i..a + i + 4];
        assert |x| == |y| == 4;
        assert forall k :: 0 <= k < 4 ==> x[k] == y[k];
        assert !MarkerAt(w, a + i);
      }
    }
  }

  /** Stretches of words that spell the same text are the same characters, both at an end or neither. */
  lemma StretchUnique(words: set<string>, w: string, a: nat, b: nat, v: string, i: nat, j: nat)
    requires SuffixesApart(words) && w in words && v in words && |w| >= 2 && |v| >= 2
    requires a < b <= |w| && i < j <= |v|
    requires Concat(Base(w[a..b], b == |w|)) == Concat(Base(v[i..j], j == |v|))
    ensures w[a..b] == v[i..j] && (b == |w| <==> j == |v|)
  {
    ConcatBase(w[a..b], b == |w|);
    ConcatBase(v[i..j], j == |v|);
    if b == |w| && j == |v| {
      SameBeforeMarker(w[a..b], v[i..j]);
    } else if b == |w| {
      MarkerBehind(w, a, v, i, j);
    } else if j == |v| {
      MarkerBehind(v, i, w, a, b);
    }
  }

  lemma SameBeforeMarker(x: string, y: string)
    requires x + END_OF_WORD == y + END_OF_WORD
    ensures x == y
  {
    assert (x + END_OF_WORD)[..|x|] == x && (y + END_OF_WORD)[..|x|] == y;
  }

  lemma MarkerBehind(w: string, a: nat, v: string, i: nat, j: nat)
    requires |w| >= 2 && a < |w| && i <= j < |v| && v[i..j] == w[a..] + END_OF_WORD
    ensures j >= 5 && ClosesInside(w, v, j - 5)
  {
    var x, y := w[a..], v[i..j];
    assert y[|x| - 1] == x[|x| - 1] && y[|x|..] == END_OF_WORD;
    assert v[j - 4..j] == y[|x|..];
  }

  // ----- Learned merges

  lemma LearnedMadeNext(ms: seq<MergeOp>, words: set<string>, r: nat)
    requires LearnedFrom(ms, words) && r < |ms|
    requires forall q :: 0 <= q < r ==> ms[q].Made()
    ensures ms[r].Made()
  {
    var w, i := ShownBy(ms, words, r);
    StageSymbols(ms, r, InitialSymbols(w), ms[r].left);
    StageSymbols(ms, r, InitialSymbols(w), ms[r].right);
  }

  /** Learned merges are real ones. */
  lemma LearnedMade(ms: seq<MergeOp>, words: set<string>)
    requires LearnedFrom(ms, words)
    ensures AllMade(ms)
  {
    for r := 0 to |ms|
      invariant forall q :: 0 <= q < r ==> ms[q].Made()
    {
      LearnedMadeNext(ms, words, r);
    }
  }

  lemma {:induction false} StageLength(ms: seq<MergeOp>, r: nat, s: seq<string>)
    requires r <= |ms| && AllMade(ms)
    ensures |Stage(ms, r, s)| <= |s| && (s != [] ==> Stage(ms, r, s) != [])
    decreases r
  {
    if r > 0 {
      StageLength(ms, r - 1, s);
      PassEliminates(ms[r - 1], Stage(ms, r - 1, s));
    }
  }

  /** Where merge `r` came from: a stretch of a training word that had come down to its two parts. */
  lemma Origin(ms: seq<MergeOp>, words: set<string>, r: nat) returns (w: string, a: nat, b: nat)
    requires LearnedFrom(ms, words) && AllMade(ms) && r < |ms|
    ensures w in words && a + 2 <= b <= |w|
    ensures Stage(ms, r, Base(w[a..b], b == |w|)) == [ms[r].left, ms[r].right]
    ensures ms[r].merged == Concat(Base(w[a..b], b == |w|))
  {
    var i;
    w, i := ShownBy(ms, words, r);
    var pair := [ms[r].left, ms[r].right];
    assert Stage(ms, r, InitialSymbols(w))[i..i + 2] == pair;
    a, b := StretchOf(ms, r, w, i, i + 2);
    StageLength(ms, r, Base(w[a..b], b == |w|));
    StageConcat(ms, r, Base(w[a..b], b == |w|));
    TwoParts(ms[r]);
  }

  lemma TwoParts(m: MergeOp)
    ensures Concat([m.left, m.right]) == m.left + m.right && Concat([m.left]) == m.left
  {
    ConcatAppend([m.left], [m.right]);
    assert [m.left, m.right] == [m.left] + [m.right];
    assert Concat([m.left]) == m.left + "" && Concat([m.right]) == m.right + "";
  }

  /** The characters from which the passes made symbols i to j of a word. */
  lemma StretchOf(ms: seq<MergeOp>, r: nat, w: string, i: nat, j: nat) returns (a: nat, b: nat)
    requires r <= |ms| && i <= j <= |Stage(ms, r, InitialSymbols(w))|
    ensures a <= b <= |w| && Stage(ms, r, Base(w[a..b], b == |w|)) == Stage(ms, r, InitialSymbols(w))[i..j]
    ensures Stage(ms, r, Base(w[..a], a == |w|)) == Stage(ms, r, InitialSymbols(w))[..i]
    ensures Stage(ms, r, Base(w[..b], b == |w|)) == Stage(ms, r, InitialSymbols(w))[..j]
  {
    a, b := StageSegment(ms, r, InitialSymbols(w), i, j);
    BaseSegment(w, a, b);
    BaseSegment(w, 0, a);
    BaseSegment(w, 0, b);
    assert w[0..a] == w[..a] && w[0..b] == w[..b];
    assert InitialSymbols(w)[0..a] == InitialSymbols(w)[..a] && InitialSymbols(w)[0..b] == InitialSymbols(w)[..b];
  }

  lemma {:induction false} OneSymbolStays(ms: seq<MergeOp>, r: nat, q: nat, s: seq<string>)
    requires r <= q <= |ms| && AllMade(ms) && |Stage(ms, r, s)| == 1
    ensures |Stage(ms, q, s)| == 1
    decreases q
  {
    if r < q { OneSymbolStays(ms, r, q - 1, s); }
  }

  /** No two merges produce the same string. */
  lemma ResultsDistinct(ms: seq<MergeOp>, words: set<string>, r: nat, s: nat)
    requires LearnedFrom(ms, words) && AllMade(ms) && r < s < |ms|
    requires SuffixesApart(words)
    ensures ms[r].merged != ms[s].merged
  {
    var w, a, b := Origin(ms, words, r);
    var v, i, j := Origin(ms, words, s);
    OriginBecomesOne(ms, r, s, Base(w[a..b], b == |w|));
    if ms[r].merged == ms[s].merged {
      StretchUnique(words, w, a, b, v, i, j);
    }
  }

  lemma PassOnPair(m: MergeOp)
    ensures Pass(m, [m.left, m.right]) == [m.merged]
  {
    assert [m.left, m.right][2..] == [];
  }

  lemma {:induction false} OriginBecomesOne(ms: seq<MergeOp>, r: nat, s: nat, b: seq<string>)
    requires AllMade(ms) && r < s <= |ms| && Stage(ms, r, b) == [ms[r].left, ms[r].right]
    ensures |Stage(ms, s, b)| == 1
  {
    PassOnPair(ms[r]);
    hide Pass;
    assert Stage(ms, r + 1, b) == Pass(ms[r], Stage(ms, r, b));
    OneSymbolStays(ms, r + 1, s, b);
  }

  lemma MarkerAfterOne(x: string)
    requires MarkerFree(x) && |x| == 5
    ensures x[1..] != END_OF_WORD
  {
    assert !MarkerAt(x, 1);
    assert x[1..5] == x[1..];
  }

  lemma ResultNotInitial(ms: seq<MergeOp>, words: set<string>, r: nat)
    requires LearnedFrom(ms, words) && AllMade(ms) && r < |ms|
    requires AllMarkerFree(words)
    ensures !IsInitial(ms[r].merged)
  {
    var w, a, b := Origin(ms, words, r);
    ConcatBase(w[a..b], b == |w|);
    SubstringMarkerFree(w, a, b);
    if b < |w| && b - a == 5 { MarkerAfterOne(w[a..b]); }
  }

  /** A merge's parts are initial symbols or results of earlier merges. */
  lemma PartsGrounded(ms: seq<MergeOp>, words: set<string>, s: nat, part: string)
    requires LearnedFrom(ms, words) && s < |ms| && (part == ms[s].left || part == ms[s].right)
    ensures Grounded(ms, s, part)
  {
    var w, i := ShownBy(ms, words, s);
    assert part in Stage(ms, s, InitialSymbols(w));
    StageSymbols(ms, s, InitialSymbols(w), part);
    if part in InitialSymbols(w) {
      var k :| 0 <= k < |w| && part == InitialSymbols(w)[k];
      assert |part| == 5 ==> part[1..] == END_OF_WORD;
    }
  }

  /** Merges learned from words free of the marker are even built up in layers. */
  lemma LearnedLayered(ms: seq<MergeOp>, words: set<string>)
    requires LearnedFrom(ms, words) && AllMarkerFree(words)
    ensures Layered(ms)
  {
    LearnedMade(ms, words);
    MarkerFreeIsApart(words);
    hide LearnedFrom, AllMarkerFree, SuffixesApart, IsInitial, Grounded;
    forall r | 0 <= r < |ms| ensures !IsInitial(ms[r].merged) {
      ResultNotInitial(ms, words, r);
    }
    forall r, s | 0 <= r < s < |ms| ensures ms[r].merged != ms[s].merged {
      ResultsDistinct(ms, words, r, s);
    }
    forall s | 0 <= s < |ms| ensures Grounded(ms, s, ms[s].left) && Grounded(ms, s, ms[s].right) {
      PartsGrounded(ms, words, s, ms[s].left);
      PartsGrounded(ms, words, s, ms[s].right);
    }
  }
}
