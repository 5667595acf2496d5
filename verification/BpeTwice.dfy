/**
 Two training words that end alike, in a character, the marker and that character again.  What
 stands before is merged until the last symbols differ; then the end is built up in one word first.
 */
module BpeTwice {
  import opened BpeMerges
  import opened BpeAgreement
  import opened BpeTrained
  import opened BpeMarker
  import opened BpeBreaking

  function Ending(c: char): string {
    [c] + "</w>" + [c]
  }

  function Tail(c: char, late: bool): seq<string> {
    [LeftPart(c, late), RightPart(late), Closing(c)]
  }

  /** The merges leave the end as two symbols and the closing one, whatever stands before it. */
  ghost predicate Tidy(ms: seq<MergeOp>, c: char, late: bool) {
    forall x: string ::
      && Replay(ms, InitialSymbols(x + Ending(c))) == Replay(ms, Base(x, false)) + Tail(c, late)
      && Replay(ms, Base(x + Closing(c), false)) == Replay(ms, Base(x, false)) + Tail(c, late)[..2]
  }

  predicate Ends(x: string, end: string) {
    |x| >= |end| && x[|x| - |end|..] == end
  }

  // ----- The end prepared

  function Start(c: char, late: bool): seq<MergeOp> {
    Prep(c, late)[..3]
  }

  lemma {:induction false} StageOfPrefix(ms: seq<MergeOp>, k: nat, r: nat, s: seq<string>)
    requires r <= k <= |ms|
    ensures Stage(ms[..k], r, s) == Stage(ms, r, s)
    decreases r
  {
    if r > 0 { StageOfPrefix(ms, k, r - 1, s); }
  }

  lemma StartTidy(c: char, late: bool)
    ensures Tidy(Start(c, late), c, late)
  {
    var ms := Start(c, late);
    forall x: string
      ensures Replay(ms, InitialSymbols(x + Ending(c))) == Replay(ms, Base(x, false)) + Tail(c, late)
      ensures Replay(ms, Base(x + Closing(c), false)) == Replay(ms, Base(x, false)) + Tail(c, late)[..2]
    {
      StartAt(c, late, x);
    }
  }

  lemma StartAt(c: char, late: bool, x: string)
    ensures var ms, t := Start(c, late), Tail(c, late);
            && Replay(ms, InitialSymbols(x + Ending(c))) == Replay(ms, Base(x, false)) + t
            && Replay(ms, Base(x + Closing(c), false)) == Replay(ms, Base(x, false)) + t[..2]
  {
    var u, z := Base(x, false), Closing(c);
    assert Base([c], true) == [z] && Base("", false) == [];
    hide Start, Replay, Base;
    SymbolsAround(x, c, [c], true);
    SymbolsAround(x, c, "", false);
    assert x + Ending(c) == x + Closing(c) + [c] && x + Closing(c) == x + Closing(c) + "";
    StartAround(c, late, u, [z]);
    StartAround(c, late, u, []);
    StartNoMore(c, late, z);
    EndPrepared(c, late);
    hide Closing, Ending, Tail, Middle;
  }

  lemma StartAround(c: char, late: bool, u: seq<string>, v: seq<string>)
    requires Fits(c, v)
    ensures Replay(Start(c, late), u + Middle(c, false, 0) + v)
         == Replay(Start(c, late), u) + Middle(c, late, 3) + Replay(Start(c, late), v)
  {
    var ms, mid := Prep(c, late), Middle(c, late, 0);
    assert mid == Middle(c, false, 0);
    PrepAround(c, late, 3, u, v);
    StageOfPrefix(ms, 3, 3, u);
    StageOfPrefix(ms, 3, 3, v);
    StageOfPrefix(ms, 3, 3, u + mid + v);
    hide Stage, Middle, Prep;
  }

  lemma StartNoMore(c: char, late: bool, z: string)
    ensures Replay(Start(c, late), [z]) == [z] && Replay(Start(c, late), []) == []
  {
    StageOfOne(Start(c, late), 3, z);
    StageOfNone(Start(c, late), 3);
  }

  lemma EndPrepared(c: char, late: bool)
    ensures Middle(c, late, 3) == Tail(c, late)[..2] && Tail(c, late) == Tail(c, late)[..2] + [Closing(c)]
  {
  }

  lemma StartLearned(words: set<string>, c: char, late: bool, x: string)
    requires x + Ending(c) in words
    ensures LearnedFrom(Start(c, late), words)
  {
    var v, ms, s := x + Ending(c), Start(c, late), Breaking(c, late, "");
    assert v[|x|] == c && v[|x| + 1..|x| + 5] == END_OF_WORD;
    assert s[..3] == ms;
    forall r | 0 <= r < 3 ensures Shown(ms, words, r) {
      PrepShown(words, late, "", v, |x|, r);
      var w :| w in words && HasPair(s[r], Stage(s, r, InitialSymbols(w)));
      StageOfPrefix(s, 3, r, InitialSymbols(w));
      assert ms[r] == s[r];
    }
  }

  lemma TidyStep(ms: seq<MergeOp>, c: char, late: bool, m: MergeOp)
    requires Tidy(ms, c, late) && m.right != LeftPart(c, late) && m.right != Closing(c)
    requires m.left != LeftPart(c, late) || m.right != RightPart(late)
    ensures Tidy(ms + [m], c, late)
  {
    var t := Tail(c, late);
    forall x: string
      ensures Replay(ms + [m], InitialSymbols(x + Ending(c))) == Replay(ms + [m], Base(x, false)) + t
      ensures Replay(ms + [m], Base(x + Closing(c), false)) == Replay(ms + [m], Base(x, false)) + t[..2]
    {
      var u := Replay(ms, Base(x, false));
      OneMore(ms, m, InitialSymbols(x + Ending(c)));
      OneMore(ms, m, Base(x + Closing(c), false));
      OneMore(ms, m, Base(x, false));
      PassApart(m, u, t);
      PassApart(m, u, t[..2]);
      NothingMerged(m, t);
      NothingMerged(m, t[..2]);
    }
  }

  lemma {:induction false} NothingMerged(m: MergeOp, s: seq<string>)
    requires forall j: nat :: !PairAt(m, s, j)
    ensures Pass(m, s) == s
  {
    if |s| >= 2 {
      assert !PairAt(m, s, 0);
      forall j: nat ensures !PairAt(m, s[1..], j) {
        assert PairAt(m, s[1..], j) <==> PairAt(m, s, j + 1);
      }
      NothingMerged(m, s[1..]);
      assert s == [s[0]] + s[1..];
    }
  }

  // ----- What stands before, merged until it ends in different symbols

  /** What the two words are split into before their common end. */
  function Front(ms: seq<MergeOp>, x: string): seq<string> {
    Replay(ms, Base(x, false))
  }

  /** The last symbol before the end differs from that of the other word and from the symbols of the end. */
  ghost predicate Apart(ms: seq<MergeOp>, c: char, late: bool, p: string, q: string) {
    var a, b := Front(ms, p), Front(ms, q);
    && a != [] && LastOf(a) != LeftPart(c, late) && LastOf(a) != RightPart(late)
    && (b != [] ==> LastOf(b) != LastOf(a))
  }

  lemma {:induction false} Separate(words: set<string>, ms: seq<MergeOp>, c: char, late: bool, p: string, q: string)
    returns (more: seq<MergeOp>)
    requires LearnedFrom(ms, words) && Tidy(ms, c, late) && p + Ending(c) in words && q + Ending(c) in words
    requires p != q && p != "" && p != RightPart(late) && !Ends(p, LeftPart(c, late))
    requires !Ends(p, Closing(c)) && !Ends(q, Closing(c))
    ensures LearnedFrom(more, words) && Tidy(more, c, late) && Apart(more, c, late, p, q)
    decreases |Front(ms, p)| + |Front(ms, q)|
  {
    hide LearnedFrom, Tidy, Front, Ends, Replay, Base;
    var z := LastSymbol(words, ms, c, late, p);
    if z != RightPart(late) && (Front(ms, q) != [] ==> LastOf(Front(ms, q)) != z) {
      more := ms;
    } else {
      var x := LongerFront(words, ms, p, q, z, RightPart(late));
      more := MergeEnd(words, ms, c, late, x, z, p, q);
      more := Separate(words, more, c, late, p, q);
    }
  }

  lemma LastSymbol(words: set<string>, ms: seq<MergeOp>, c: char, late: bool, p: string) returns (z: string)
    requires LearnedFrom(ms, words) && p != "" && !Ends(p, LeftPart(c, late))
    ensures Front(ms, p) != [] && LastOf(Front(ms, p)) == z && z != LeftPart(c, late)
  {
    FrontText(words, ms, p);
    z := LastOf(Front(ms, p));
    EndsWith(Front(ms, p), p);
  }

  /** If both words end in the same symbol, or the first in a symbol that is not all of it, one has more than that. */
  lemma LongerFront(words: set<string>, ms: seq<MergeOp>, p: string, q: string, z: string, right: string)
    returns (x: string)
    requires LearnedFrom(ms, words) && p != q && p != right && Front(ms, p) != [] && LastOf(Front(ms, p)) == z
    requires z == right || (Front(ms, q) != [] && LastOf(Front(ms, q)) == z)
    ensures x in {p, q} && |Front(ms, x)| >= 2 && LastOf(Front(ms, x)) == z
  {
    FrontText(words, ms, p);
    FrontText(words, ms, q);
    if |Front(ms, p)| == 1 {
      OneSymbol(Front(ms, p), p);
      if |Front(ms, q)| == 1 { OneSymbol(Front(ms, q), q); }
    }
    x := if |Front(ms, p)| >= 2 then p else q;
  }

  lemma FrontText(words: set<string>, ms: seq<MergeOp>, x: string)
    requires LearnedFrom(ms, words)
    ensures AllMade(ms) && Concat(Front(ms, x)) == x && (x != "" ==> Front(ms, x) != [])
  {
    LearnedMade(ms, words);
    StageConcat(ms, |ms|, Base(x, false));
    ConcatBase(x, false);
  }

  lemma OneSymbol(a: seq<string>, text: string)
    requires |a| == 1 && Concat(a) == text
    ensures a[0] == text
  {
    assert Concat(a) == a[0] + "";
  }

  /** The last two symbols before the end of one of the words are merged. */
  lemma MergeEnd(words: set<string>, ms: seq<MergeOp>, c: char, late: bool, x: string, z: string, p: string, q: string)
    returns (more: seq<MergeOp>)
    requires LearnedFrom(ms, words) && Tidy(ms, c, late) && x + Ending(c) in words && x in {p, q}
    requires |Front(ms, x)| >= 2 && LastOf(Front(ms, x)) == z && z != LeftPart(c, late) && !Ends(x, Closing(c))
    ensures LearnedFrom(more, words) && Tidy(more, c, late)
    ensures |Front(more, p)| + |Front(more, q)| < |Front(ms, p)| + |Front(ms, q)|
  {
    var a := Front(ms, x);
    var n := |a| - 2;
    var m := MergeOp(a[n], z, a[n] + z);
    assert Replay(ms, InitialSymbols(x + Ending(c))) == a + Tail(c, late);
    assert LeftPart(c, late) + RightPart(late) == Closing(c);
    hide LearnedFrom, Tidy, Front, Ends, Ending, Tail, LeftPart, RightPart, Closing, Replay, InitialSymbols, Concat;
    FrontText(words, ms, x);
    TwoAtEnd(a, x);
    assert PairAt(m, a, n);
    PairInside(m, [], a, Tail(c, late));
    assert [] + a + Tail(c, late) == a + Tail(c, late);
    OneMoreLearned(words, ms, m, x + Ending(c));
    TidyStep(ms, c, late, m);
    more := ms + [m];
    LearnedMade(more, words);
    assert more[|ms|] == m;
    FrontShrinks(ms, m, p);
    FrontShrinks(ms, m, q);
  }

  lemma FrontShrinks(ms: seq<MergeOp>, m: MergeOp, x: string)
    requires m.Made()
    ensures |Front(ms + [m], x)| <= |Front(ms, x)|
    ensures HasPair(m, Front(ms, x)) ==> |Front(ms + [m], x)| < |Front(ms, x)|
  {
    OneMore(ms, m, Base(x, false));
    PassEliminates(m, Front(ms, x));
  }

  lemma TwoAtEnd(a: seq<string>, text: string)
    requires |a| >= 2 && Concat(a) == text
    ensures Ends(text, a[|a| - 1]) && Ends(text, a[|a| - 2] + a[|a| - 1])
  {
    hide Concat, Ends;
    var x, l, r := Concat(a[..|a| - 2]), a[|a| - 2], a[|a| - 1];
    LastTwo(a);
    AtItsEnd(x, l + r);
    AtItsEnd(x + l, r);
    Regrouped(x, l, r);
  }

  lemma Regrouped(x: string, l: string, r: string)
    ensures x + (l + r) == (x + l) + r
  {
  }

  lemma LastTwo(a: seq<string>)
    requires |a| >= 2
    ensures Concat(a) == Concat(a[..|a| - 2]) + (a[|a| - 2] + a[|a| - 1])
  {
    hide Concat;
    var n := |a| - 2;
    assert a == a[..n] + [a[n], a[n + 1]];
    ConcatAppend(a[..n], [a[n], a[n + 1]]);
    ConcatTwo(a[n], a[n + 1]);
  }

  lemma ConcatTwo(l: string, r: string)
    ensures Concat([l, r]) == l + r
  {
    assert [l, r][1..] == [r] && Concat([r]) == r + "";
  }

  lemma AtItsEnd(x: string, end: string)
    ensures Ends(x + end, end)
  {
  }

  // ----- The agreement broken

  /**
   Two merges build up the end of the one word, the third uses its closing symbol, the fourth
   spells the closing symbol in the other.
   */
  function Four(z: string, t: seq<string>): seq<MergeOp>
    requires |t| == 3
  {
    [MergeOp(z, t[0], z + t[0]), MergeOp(z + t[0], t[1], z + t[0] + t[1]),
     MergeOp(z + t[0] + t[1], t[2], z + t[0] + t[1] + t[2]), MergeOp(t[0], t[1], t[2])]
  }

  /** The symbols of the end, and another that is different from the first two. */
  predicate Different(z: string, t: seq<string>) {
    && |t| == 3 && t[2] == t[0] + t[1]
    && z != "" && z != t[0] && z != t[1] && 3 <= |t[0]| && 1 <= |t[1]| <= 2 && |t[2]| == 5
  }

  lemma TailDifferent(c: char, late: bool, z: string)
    requires z != "" && z != LeftPart(c, late) && z != RightPart(late)
    ensures Different(z, Tail(c, late))
  {
  }

  lemma PassFront(m: MergeOp, a: seq<string>, s: seq<string>, i: nat)
    requires m.Made() && PairAt(m, s, i) && forall j: nat :: j != i ==> !PairAt(m, s, j)
    requires s[0] != m.right
    ensures HasPair(m, a + s) && Pass(m, a + s) == Pass(m, a) + MergeAt(s, i, m.merged)
  {
    assert PairAt(m, a + s, |a| + i);
    PassApart(m, a, s);
    PassOnce(m, s, i);
  }

  lemma PassBeside(m: MergeOp, a: seq<string>, s: seq<string>)
    requires forall j: nat :: !PairAt(m, s, j)
    requires a != [] && s != [] ==> LastOf(a) != m.left || s[0] != m.right
    ensures Pass(m, a + s) == Pass(m, a) + s
  {
    PassApart(m, a, s);
    NothingMerged(m, s);
  }

  /** In the first word. */
  lemma Built(z: string, t: seq<string>, a: seq<string>)
    requires Different(z, t)
    ensures var f, s := Four(z, t), a + ([z] + t);
            HasPair(f[0], s) && HasPair(f[1], Pass(f[0], s)) && HasPair(f[2], Pass(f[1], Pass(f[0], s)))
  {
    var f := Four(z, t);
    var one, two := [z + t[0], t[1], t[2]], [z + t[0] + t[1], t[2]];
    hide Pass;
    PassFront(f[0], a, [z] + t, 0);
    assert MergeAt([z] + t, 0, f[0].merged) == one;
    PassFront(f[1], Pass(f[0], a), one, 0);
    assert MergeAt(one, 0, f[1].merged) == two;
    PassFront(f[2], Pass(f[1], Pass(f[0], a)), two, 0);
  }

  /** In the second. */
  lemma LeftAlone(z: string, t: seq<string>, b: seq<string>)
    requires Different(z, t) && (b != [] ==> LastOf(b) != z)
    ensures var f := Four(z, t); HasPair(f[3], Pass(f[2], Pass(f[1], Pass(f[0], b + t))))
  {
    var f := Four(z, t);
    hide Pass;
    var b1 := Pass(f[0], b);
    var b2 := Pass(f[1], b1);
    PassBeside(f[0], b, t);
    PassBeside(f[1], b1, t);
    PassBeside(f[2], b2, t);
    assert PairAt(f[3], Pass(f[2], b2) + t, |Pass(f[2], b2)|);
  }

  /** In a word that has the last symbol before the end, and then the end twice over. */
  lemma ShownTwice(z: string, t: seq<string>)
    requires Different(z, t)
    ensures var f := Four(z, t);
            Pass(f[3], Pass(f[2], Pass(f[1], Pass(f[0], [z] + t[..2] + t)))) == [f[2].left, t[2], t[2]]
  {
    var f, l, r, x := Four(z, t), t[0], t[1], t[2];
    hide Pass;
    assert [z] + t[..2] + t == [z, l, r, l, r, x];
    PassOnce(f[0], [z, l, r, l, r, x], 0);
    assert MergeAt([z, l, r, l, r, x], 0, z + l) == [z + l, r, l, r, x];
    PassOnce(f[1], [z + l, r, l, r, x], 0);
    assert MergeAt([z + l, r, l, r, x], 0, z + l + r) == [z + l + r, l, r, x];
    NothingMerged(f[2], [z + l + r, l, r, x]);
    PassOnce(f[3], [z + l + r, l, r, x], 1);
    assert MergeAt([z + l + r, l, r, x], 1, x) == [z + l + r, x, x];
  }

  /** The word that the encoder splits otherwise. */
  function Doubled(c: char, z: string): string {
    z + Closing(c) + Ending(c)
  }

  lemma {:induction false} SymbolAlone(words: set<string>, ms: seq<MergeOp>, p: string)
    requires LearnedFrom(ms, words) && Front(ms, p) != []
    ensures var z := LastOf(Front(ms, p)); z != "" && Front(ms, z) == [z]
  {
    var a := Front(ms, p);
    var i, j := StageSegment(ms, |ms|, Base(p, false), |a| - 1, |a|);
    UnmarkedSegment(p, i, j);
    var x := p[i..j];
    assert a[|a| - 1..|a|] == [LastOf(a)] && Front(ms, x) == [LastOf(a)];
    FrontText(words, ms, x);
    OneSymbol(Front(ms, x), x);
    assert x == "" ==> Base(x, false) == [];
    StageOfNone(ms, |ms|);
  }

  /** The four merges are learned and break the agreement. */
  lemma FourBreak(words: set<string>, ms: seq<MergeOp>, c: char, late: bool, p: string, q: string)
    requires LearnedFrom(ms, words) && Tidy(ms, c, late) && Apart(ms, c, late, p, q)
    requires p + Ending(c) in words && q + Ending(c) in words
    ensures !AlwaysAgree(words)
  {
    var a, b, t := Front(ms, p), Front(ms, q), Tail(c, late);
    var z := LastOf(a);
    var f, w, v, u := Four(z, t), p + Ending(c), q + Ending(c), Doubled(c, z);
    SymbolAlone(words, ms, p);
    TailDifferent(c, late, z);
    assert a + t == a[..|a| - 1] + ([z] + t);
    Built(z, t, a[..|a| - 1]);
    LeftAlone(z, t, b);
    ShownTwice(z, t);
    assert Replay(ms, InitialSymbols(u)) == [z] + t[..2] + t;
    hide Replay, LearnedFrom, AlwaysAgree, InitialSymbols, Pass, Tidy, Apart;
    Learn(words, ms, f[0], w, w, v, u);
    Learn(words, ms + [f[0]], f[1], w, w, v, u);
    Learn(words, ms + [f[0]] + [f[1]], f[2], w, w, v, u);
    Learn(words, ms + [f[0]] + [f[1]] + [f[2]], f[3], v, w, v, u);
    var all := ms + [f[0]] + [f[1]] + [f[2]] + [f[3]];
    assert all[|ms| + 2] == f[2] && PairAt(f[2], [f[2].left, t[2], t[2]], 0);
    PairLeftBreaks(words, all, u, |ms| + 2, 0);
  }

  lemma Learn(words: set<string>, ms: seq<MergeOp>, m: MergeOp, x: string, w: string, v: string, u: string)
    requires LearnedFrom(ms, words) && x in words && m.merged == m.left + m.right
    requires HasPair(m, Replay(ms, InitialSymbols(x)))
    ensures LearnedFrom(ms + [m], words)
    ensures Replay(ms + [m], InitialSymbols(w)) == Pass(m, Replay(ms, InitialSymbols(w)))
    ensures Replay(ms + [m], InitialSymbols(v)) == Pass(m, Replay(ms, InitialSymbols(v)))
    ensures Replay(ms + [m], InitialSymbols(u)) == Pass(m, Replay(ms, InitialSymbols(u)))
  {
    OneMoreLearned(words, ms, m, x);
    OneMore(ms, m, InitialSymbols(w));
    OneMore(ms, m, InitialSymbols(v));
    OneMore(ms, m, InitialSymbols(u));
  }

  // ----- Any two such words

  lemma DifferentFrontsBreak(words: set<string>, c: char, p: string, q: string)
    requires p + Ending(c) in words && q + Ending(c) in words && p != q && p != ""
    requires !Ends(p, Closing(c)) && !Ends(q, Closing(c))
    ensures !AlwaysAgree(words)
  {
    var late := p == "w>" || Ends(p, [c] + "</");
    StartTidy(c, late);
    StartLearned(words, c, late, p);
    OneCut(c, p);
    var ms := Separate(words, Start(c, late), c, late, p, q);
    FourBreak(words, ms, c, late, p, q);
  }

  /** One of the two cuts of the marker suits. */
  lemma OneCut(c: char, p: string)
    requires p != ""
    ensures var late := p == "w>" || Ends(p, [c] + "</"); p != RightPart(late) && !Ends(p, LeftPart(c, late))
  {
    if Ends(p, [c] + "</") {
      assert p[|p| - 1] == p[|p| - 3..][2] == '/';
    } else if p == "w>" {
      assert |p| == 2;
    }
  }

  lemma SameEndBreaks(words: set<string>, w: string, v: string, i: nat)
    requires w in words && v in words && ClosesInside(w, v, i) && AtBothEnds(w, v, i) && w != v
    ensures !AlwaysAgree(words)
  {
    var c, p, q := v[i], w[..|w| - 6], v[..i];
    EndIs(v, i, c);
    assert w[|w| - 6..] == Ending(c);
    assert w == p + Ending(c) && v == q + Ending(c);
    if Ends(p, Closing(c)) {
      InnerCopy(words, c, p);
    } else if Ends(q, Closing(c)) {
      InnerCopy(words, c, q);
    } else if p != "" {
      DifferentFrontsBreak(words, c, p, q);
    } else {
      DifferentFrontsBreak(words, c, q, p);
    }
  }

  lemma EndIs(v: string, i: nat, c: char)
    requires i + 6 == |v| && v[i] == v[i + 5] == c && MarkerAt(v, i + 1)
    ensures v[i..] == Ending(c)
  {
    assert v[i..] == [v[i]] + v[i + 1..i + 5] + [v[i + 5]];
  }

  /** One more copy in front is a place that is not at the end. */
  lemma InnerCopy(words: set<string>, c: char, p: string)
    requires p + Ending(c) in words && Ends(p, Closing(c))
    ensures !AlwaysAgree(words)
  {
    var w, i := p + Ending(c), |p| - 5;
    assert w[i..i + 5] == p[i..] == Closing(c);
    assert w[i] == w[i..i + 5][0] && w[i + 1..i + 5] == w[i..i + 5][1..];
    OncePlaceBreaks(words, w, w, i);
  }
}
