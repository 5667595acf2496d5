/**
 Places inside a training word from which merges can be learned that break the agreement between
 the encoder of src/embedding/bpe.rs and the trainer's passes.
 */
module BpeBreaking {
  import opened BpeMerges
  import opened BpeTrained
  import opened BpeTraining
  import opened BpeMarker

  /** Whatever is learned from the words, the encoder agrees with the trainer on every word. */
  ghost predicate AlwaysAgree(words: set<string>) {
    forall ms, word :: LearnedFrom(ms, words) ==> Greedy(ms, InitialSymbols(word)) == Replay(ms, InitialSymbols(word))
  }

  /** Both words end in a character, the marker and that character again, and the stretch is that end. */
  predicate AtBothEnds(w: string, v: string, i: nat) {
    i + 6 == |v| && |w| >= 6 && w[|w| - 6..] == v[i..]
  }

  /** The stretch closes in the marker's '>' twice over, with its '<' behind it. */
  predicate Repeats(v: string, i: nat) {
    i + 6 < |v| && v[i] == '>' && v[i + 5] == '<'
  }

  // ----- The word with the stretch inside

  /** What stands behind the stretch begins with the closing symbol only if that is all. */
  lemma AfterStretch(c: char, late: bool, y: string)
    requires y != ""
    ensures var s := Stage(Prep(c, late), |Prep(c, late)|, InitialSymbols(y));
            s != [] && (s[0] == Closing(c) ==> y == [c])
  {
    var ms, z, last := Prep(c, late), y[..|y| - 1], [y[|y| - 1]] + "</w>";
    var x := Stage(ms, |ms|, Base(z, false));
    assert InitialSymbols(y) == Base(z, false) + [last];
    ClosingStays(c, late, |ms|, Base(z, false), last);
    if z == "" {
      StageOfNone(ms, |ms|);
      assert last == Closing(c) ==> last[0] == c;
    } else {
      AllPrepMade(c, late);
      StageLength(ms, |ms|, Base(z, false));
      PrepSymbols(c, late, |ms|, z, x[0]);
    }
  }

  lemma {:induction false} StageOfNone(ms: seq<MergeOp>, r: nat)
    requires r <= |ms|
    ensures Stage(ms, r, []) == []
    decreases r
  {
    if r > 0 { StageOfNone(ms, r - 1); }
  }

  lemma StretchPrepared(late: bool, v: string, i: nat, r: nat)
    requires i + 5 < |v| && MarkerAt(v, i + 1) && !Repeats(v, i) && r <= |Prep(v[i], late)|
    ensures var ms, s := Prep(v[i], late), InitialSymbols(v);
            Stage(ms, r, s) == Stage(ms, r, s[..i]) + Middle(v[i], late, r) + Stage(ms, r, InitialSymbols(v[i + 5..]))
  {
    var s := InitialSymbols(v);
    MiddleInside(v, i);
    assert Middle(v[i], late, 0) == Middle(v[i], false, 0);
    assert s[i + 5..] == InitialSymbols(v[i + 5..]);
    assert i + 6 < |v| ==> s[i + 5] == [v[i + 5]];
    assert i + 6 == |v| ==> |s[i + 5]| == 5;
    PrepAround(v[i], late, r, s[..i], s[i + 5..]);
    hide Stage;
  }

  lemma PairInside(m: MergeOp, u: seq<string>, mid: seq<string>, v: seq<string>)
    requires HasPair(m, mid)
    ensures HasPair(m, u + mid + v)
  {
    var j: nat :| PairAt(m, mid, j);
    assert PairAt(m, u + mid + v, |u| + j);
  }

  /** The merge that uses the closing character leaves the stretch alone. */
  lemma StretchStays(late: bool, v: string, i: nat, part: string)
    requires i + 5 < |v| && MarkerAt(v, i + 1) && !Repeats(v, i)
    requires part != RightPart(late) || v[i + 5..] != [v[i]]
    ensures var ms, n := Breaking(v[i], late, part), |Prep(v[i], late)|;
            HasPair(ms[n + 1], Stage(ms, n + 1, InitialSymbols(v)))
  {
    var c, s := v[i], InitialSymbols(v);
    var ms, n, mid := Breaking(c, late, part), |Prep(c, late)|, [LeftPart(c, late), RightPart(late)];
    StretchPrepared(late, v, i, n);
    AfterStretch(c, late, v[i + 5..]);
    BreakingStage(c, late, part, n, s);
    var u, rest := Stage(Prep(c, late), n, s[..i]), Stage(Prep(c, late), n, InitialSymbols(v[i + 5..]));
    assert |Closing(c)| == 5 && Middle(c, late, n) == mid && PairAt(ms[n + 1], mid, 0);
    StageNext(ms, n, s);
    hide Stage, Pass;
    PassAround(ms[n], u, mid, rest);
    PassIdleTwo(ms[n], mid);
    PairInside(ms[n + 1], Pass(ms[n], u), mid, Pass(ms[n], rest));
  }

  lemma PassIdleTwo(m: MergeOp, mid: seq<string>)
    requires |mid| == 2 && mid[1] != m.right
    ensures Pass(m, mid) == mid
  {
    assert mid[1..][1..] == [] && mid == [mid[0], mid[1]];
  }

  // ----- Breaking merges are learned

  lemma PrepShown(words: set<string>, late: bool, part: string, v: string, i: nat, r: nat)
    requires v in words && i + 5 < |v| && MarkerAt(v, i + 1) && !Repeats(v, i) && r < 3
    ensures Shown(Breaking(v[i], late, part), words, r)
  {
    var c, s := v[i], InitialSymbols(v);
    var ms := Breaking(c, late, part);
    StretchPrepared(late, v, i, r);
    MiddlePair(c, late, r);
    BreakingStage(c, late, part, r, s);
    assert ms[r] == Prep(c, late)[r];
    PrepMade(c, late, r);
    var at := if (c == '<' && r == 0) || (!late && r == 2) then 1 else 0;
    assert PairAt(ms[r], Middle(c, late, r), at);
    PairInside(ms[r], Stage(Prep(c, late), r, s[..i]), Middle(c, late, r),
               Stage(Prep(c, late), r, InitialSymbols(v[i + 5..])));
  }

  /** The closing word teaches the merge that uses its closing symbol. */
  lemma ClosingShown(words: set<string>, c: char, late: bool, w: string)
    requires w in words && |w| >= 2 && w[|w| - 1] == c && Before(c, late, w) != []
    ensures Shown(Breaking(c, late, LastOf(Before(c, late, w))), words, |Prep(c, late)|)
  {
    var x, n := Before(c, late, w), |Prep(c, late)|;
    var part := LastOf(x);
    var ms := Breaking(c, late, part);
    ClosingWord(c, late, n, w);
    BreakingStage(c, late, part, n, InitialSymbols(w));
    assert ms[n] == MergeOp(part, Closing(c), part + Closing(c));
    assert PairAt(ms[n], x + [Closing(c)], |x| - 1);
  }

  lemma BreakingLearned(words: set<string>, w: string, v: string, i: nat, late: bool)
    requires w in words && v in words && ClosesInside(w, v, i) && !Repeats(v, i)
    requires Before(v[i], late, w) != []
    requires LastOf(Before(v[i], late, w)) != RightPart(late) || v[i + 5..] != [v[i]]
    requires late ==> HasPair(Prep(v[i], true)[3], Stage(Prep(v[i], true), 3, InitialSymbols(w)))
    ensures LearnedFrom(Breaking(v[i], late, LastOf(Before(v[i], late, w))), words)
  {
    var c, n := v[i], |Prep(v[i], late)|;
    var part := LastOf(Before(c, late, w));
    var ms := Breaking(c, late, part);
    forall r | 0 <= r < |ms| ensures Shown(ms, words, r) {
      if r < 3 {
        PrepShown(words, late, part, v, i, r);
      } else if r < n {
        BreakingStage(c, late, part, 3, InitialSymbols(w));
        assert ms[3] == Prep(c, true)[3] && ms[3].Made();
      } else if r == n {
        ClosingShown(words, c, late, w);
      } else {
        StretchStays(late, v, i, part);
        assert ms[n + 1].merged == ms[n + 1].left + ms[n + 1].right;
      }
    }
  }

  lemma BreakingPair(words: set<string>, w: string, v: string, i: nat, late: bool)
    requires w in words && v in words && ClosesInside(w, v, i) && !Repeats(v, i)
    requires Before(v[i], late, w) != []
    requires LastOf(Before(v[i], late, w)) != RightPart(late) || v[i + 5..] != [v[i]]
    requires late ==> HasPair(Prep(v[i], true)[3], Stage(Prep(v[i], true), 3, InitialSymbols(w)))
    ensures !AlwaysAgree(words)
  {
    var part := LastOf(Before(v[i], late, w));
    BreakingLearned(words, w, v, i, late);
    PartAlone(v[i], late, w);
    WitnessDisagrees(v[i], late, part);
    hide Breaking, Greedy, Replay, LearnedFrom, InitialSymbols;
    assert LearnedFrom(Breaking(v[i], late, part), words);
  }

  /** One place without either is enough: merges can be learned with which some word is encoded differently. */
  lemma OncePlaceBreaks(words: set<string>, w: string, v: string, i: nat)
    requires w in words && v in words && ClosesInside(w, v, i) && !AtBothEnds(w, v, i) && !Repeats(v, i)
    ensures !AlwaysAgree(words)
  {
    var c := v[i];
    if |w| >= 3 && w[|w| - 3] == 'w' && w[|w| - 2] == '>' && v[i + 5..] == [c] {
      NotAtBothEnds(w, v, i);
      LatePart(c, w);
      hide Before, Stage;
      BreakingPair(words, w, v, i, true);
    } else {
      ClosingWord(c, false, 3, w);
      if v[i + 5..] == [c] { EarlyPart(c, w); }
      hide Stage;
      BreakingPair(words, w, v, i, false);
    }
  }

  lemma NotAtBothEnds(w: string, v: string, i: nat)
    requires ClosesInside(w, v, i) && !AtBothEnds(w, v, i) && v[i + 5..] == [v[i]]
    ensures !(|w| >= 6 && w[|w| - 6..|w| - 1] == Closing(v[i]))
  {
    var c := v[i];
    assert v[i + 5] == v[i + 5..][0];
    assert v[i..] == [c] + v[i + 1..i + 5] + [c];
    assert |w| >= 6 ==> w[|w| - 6..] == w[|w| - 6..|w| - 1] + [c];
  }

  // ----- Merges learned one after the other

  lemma OneMore(ms: seq<MergeOp>, m: MergeOp, s: seq<string>)
    ensures Replay(ms + [m], s) == Pass(m, Replay(ms, s))
  {
    StagePrefix(ms, m, |ms|, s);
    assert (ms + [m])[|ms|] == m;
  }

  lemma OneMoreLearned(words: set<string>, ms: seq<MergeOp>, m: MergeOp, w: string)
    requires LearnedFrom(ms, words) && w in words
    requires m.merged == m.left + m.right && HasPair(m, Replay(ms, InitialSymbols(w)))
    ensures LearnedFrom(ms + [m], words)
  {
    forall r | 0 <= r < |ms + [m]| ensures Shown(ms + [m], words, r) {
      if r < |ms| {
        assert Shown(ms, words, r);
        var x :| x in words && HasPair(ms[r], Stage(ms, r, InitialSymbols(x)));
        StagePrefix(ms, m, r, InitialSymbols(x));
        assert (ms + [m])[r] == ms[r];
      } else {
        StagePrefix(ms, m, r, InitialSymbols(w));
      }
    }
  }

  /** A pair that the passes leave in some word breaks the agreement. */
  lemma PairLeftBreaks(words: set<string>, ms: seq<MergeOp>, word: string, r: nat, i: nat)
    requires LearnedFrom(ms, words) && r < |ms| && PairAt(ms[r], Replay(ms, InitialSymbols(word)), i)
    ensures !AlwaysAgree(words)
  {
    PairLeftDisagrees(ms, InitialSymbols(word), r, i);
    hide Greedy, Replay, LearnedFrom, InitialSymbols;
  }
}
