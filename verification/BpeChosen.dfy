/**
 The trainer's frequency rule can choose merges with which the encoder of src/embedding/bpe.rs
 splits a training word differently from the trainer.
 */
module BpeChosen {
  import opened BpeMerges
  import opened BpeTrained
  import opened BpeTraining
  import opened BpeMarker

  predicate AllDifferent(s: seq<string>) {
    forall i, j :: 0 <= i < j < |s| ==> s[i] != s[j]
  }

  ghost predicate Adjacent(pr: Pair, s: seq<string>) {
    exists i: nat :: i + 1 < |s| && (s[i], s[i + 1]) == pr
  }

  lemma {:induction false} OnceAtMost(pr: Pair, s: seq<string>, freq: nat)
    requires AllDifferent(s)
    ensures Weighted(pr, s, freq) == if Adjacent(pr, s) then freq else 0
  {
    if |s| >= 2 {
      var n := |s| - 1;
      OnceAtMost(pr, s[..n], freq);
      if i: nat :| i + 1 < n && (s[i], s[i + 1]) == pr {
        assert (s[..n][i], s[..n][i + 1]) == pr;
      } else {
        assert !Adjacent(pr, s[..n]);
      }
    }
  }

  lemma OverTwoWords(splits: Splits, freqs: map<string, nat>, pr: Pair, w: string, v: string)
    requires w != v && splits.Keys == {w, v}
    ensures Frequency(splits, freqs, pr)
         == Weighted(pr, splits[w], CountOf(freqs, w)) + Weighted(pr, splits[v], CountOf(freqs, v))
  {
    CountTake(splits, freqs, {w, v}, pr, w);
    assert {w, v} - {w} == {v};
    CountTake(splits, freqs, {v}, pr, v);
    assert {v} - {v} == {};
  }

  /** The splits of the two words before merge `r`. */
  lemma TwoWordsAt(r: nat)
    requires r < 5
    ensures var ms := Breaking('a', false, "x");
            && Stage(ms, r, InitialSymbols("xa")) == FirstAt(r)
            && Stage(ms, r, InitialSymbols("xa</w>z")) == SecondAt(r)
  {
    if r <= 3 {
      BreakingStage('a', false, "x", r, InitialSymbols("xa"));
      BreakingStage('a', false, "x", r, InitialSymbols("xa</w>z"));
      hide *;
      FirstPrepared(r);
      SecondPrepared(r);
    } else {
      TwoWordsAt(3);
      LastStep();
    }
  }

  lemma FirstPrepared(r: nat)
    requires r <= 3
    ensures Stage(Prep('a', false), r, InitialSymbols("xa")) == FirstAt(r)
  {
    assert ['a'] + END_OF_WORD == "a</w>" && InitialSymbols("xa") == ["x"] + ["a</w>"];
    ClosingStays('a', false, r, ["x"], "a</w>");
    StageOfOne(Prep('a', false), r, "x");
  }

  lemma SecondPrepared(r: nat)
    requires r <= 3
    ensures Stage(Prep('a', false), r, InitialSymbols("xa</w>z")) == SecondAt(r)
  {
    var t := InitialSymbols("xa</w>z");
    assert "xa</w>z"[2..6] == END_OF_WORD && ['z'] + END_OF_WORD == "z</w>";
    MiddleInside("xa</w>z", 1);
    assert t[..1] == ["x"] && t[6..] == ["z</w>"];
    PrepAround('a', false, r, ["x"], ["z</w>"]);
    StageOfOne(Prep('a', false), r, "x");
    StageOfOne(Prep('a', false), r, "z</w>");
  }

  /** The merge with the closing symbol changes the first word only. */
  lemma LastStep()
    ensures var m := Breaking('a', false, "x")[3];
            Pass(m, FirstAt(3)) == FirstAt(4) && Pass(m, SecondAt(3)) == SecondAt(4)
  {
    var m := Breaking('a', false, "x")[3];
    assert ['a'] + "</w>" == "a</w>" && "x" + "a</w>" == "xa</w>" && m.Made() && |m.right| == 5;
    PassOnPair(m);
    assert SecondAt(3)[3] == "z</w>" && "z</w>"[0] != 'a';
    PassIdle(m, SecondAt(3));
  }

  lemma BreakingChosenAt(r: nat, freqs: map<string, nat>)
    requires r < 5 && CountOf(freqs, "xa") == CountOf(freqs, "xa</w>z") == 5
    ensures Chosen(Breaking('a', false, "x"), {"xa", "xa</w>z"}, freqs, 2, r)
  {
    var ms, w, v := Breaking('a', false, "x"), "xa", "xa</w>z";
    TwoWordsAt(r);
    PairIsThere(r);
    Distinct(r);
    assert ms[r].merged == ms[r].left + ms[r].right && w != v;
    hide Stage, Breaking, FirstAt, SecondAt, AllDifferent, InitialSymbols;
    assert SplitsAt(ms, r, {w, v})[w] == FirstAt(r) && SplitsAt(ms, r, {w, v})[v] == SecondAt(r);
    ChosenOfTwo(ms, r, freqs, w, v);
  }

  /** With both words counted five times, whatever pair stands in one of the two splits is a most frequent one. */
  lemma ChosenOfTwo(ms: seq<MergeOp>, r: nat, freqs: map<string, nat>, w: string, v: string)
    requires r < 5 && r < |ms| && w != v && CountOf(freqs, w) == CountOf(freqs, v) == 5
    requires ms[r].merged == ms[r].left + ms[r].right
    requires SplitsAt(ms, r, {w, v})[w] == FirstAt(r) && SplitsAt(ms, r, {w, v})[v] == SecondAt(r)
    requires Adjacent((ms[r].left, ms[r].right), if r == 3 then FirstAt(r) else SecondAt(r))
    ensures Chosen(ms, {w, v}, freqs, 2, r)
  {
    var splits, pair := SplitsAt(ms, r, {w, v}), (ms[r].left, ms[r].right);
    Distinct(r);
    AdjacentOccurs(pair, if r == 3 then FirstAt(r) else SecondAt(r));
    CountsInTwo(pair, r);
    OverTwoWords(splits, freqs, pair, w, v);
    hide FirstAt, SecondAt, Weighted, Adjacent, Frequency, Occurrences, AllDifferent, CountOf;
    forall pr ensures Frequency(splits, freqs, pr) <= 5 {
      OverTwoWords(splits, freqs, pr, w, v);
      CountsInTwo(pr, r);
    }
    assert splits.Keys == {w, v};
    hide SplitsAt;
  }

  lemma AdjacentOccurs(pr: Pair, s: seq<string>)
    requires Adjacent(pr, s) && AllDifferent(s)
    ensures Occurrences(pr, s) > 0
  {
    OnceAtMost(pr, s, 1);
    if Occurrences(pr, s) == 0 { NoneWeighsNothing(pr, s, 1); }
  }

  /** No pair counts more than the one word that has it. */
  lemma CountsInTwo(pr: Pair, r: nat)
    requires r < 5
    ensures var sum := Weighted(pr, FirstAt(r), 5) + Weighted(pr, SecondAt(r), 5);
            sum <= 5 && (Adjacent(pr, FirstAt(r)) || Adjacent(pr, SecondAt(r)) ==> sum == 5)
  {
    Distinct(r);
    OnceAtMost(pr, FirstAt(r), 5);
    OnceAtMost(pr, SecondAt(r), 5);
    InOneOnly(pr, r);
    hide Weighted, Adjacent, FirstAt, SecondAt;
  }

  function FirstAt(r: nat): seq<string> {
    if r <= 3 then ["x", "a</w>"] else ["xa</w>"]
  }

  function SecondAt(r: nat): seq<string>
    requires r <= 4
  {
    ["x"] + Middle('a', false, if r == 4 then 3 else r) + ["z</w>"]
  }

  lemma PairIsThere(r: nat)
    requires r < 5
    ensures var m := Breaking('a', false, "x")[r];
            Adjacent((m.left, m.right), if r == 3 then FirstAt(r) else SecondAt(r))
  {
    var m, s := Breaking('a', false, "x")[r], if r == 3 then FirstAt(r) else SecondAt(r);
    assert ['a'] + "</w>" == "a</w>" && ['a'] == "a" && "a" + "<" == "a<" && "a" + "</" == "a</";
    var at := if r == 3 then 0 else if r == 2 then 2 else 1;
    assert (s[at], s[at + 1]) == (m.left, m.right);
  }

  lemma InOneOnly(pr: Pair, r: nat)
    requires r < 5
    ensures !Adjacent(pr, FirstAt(r)) || !Adjacent(pr, SecondAt(r))
  {
    if r <= 3 && Adjacent(pr, FirstAt(r)) {
      var s := SecondAt(r);
      assert pr.1 == "a</w>" && |pr.1| == 5;
      assert forall i :: 0 <= i < |s| ==> s[i] != pr.1 by {
        assert s[|s| - 1] == "z</w>" && s[|s| - 1][0] != pr.1[0];
      }
    }
  }

  lemma Distinct(r: nat)
    requires r < 5
    ensures AllDifferent(SecondAt(r)) && AllDifferent(FirstAt(r))
  {
  }

  /**
   The trainer can choose merges that break the agreement: with both words counted five times
   every pair of every stage counts the same, and the encoder splits the second word otherwise.
   */
  lemma MarkerBreaksAgreement(freqs: map<string, nat>)
    requires freqs == map["xa" := 5, "xa</w>z" := 5]
    ensures AllChosen(Breaking('a', false, "x"), freqs.Keys, freqs, 2)
    ensures var ms, s := Breaking('a', false, "x"), InitialSymbols("xa</w>z"); Greedy(ms, s) != Replay(ms, s)
  {
    ChosenThroughout(freqs);
    SecondWordBreaks();
  }

  lemma ChosenThroughout(freqs: map<string, nat>)
    requires freqs == map["xa" := 5, "xa</w>z" := 5]
    ensures AllChosen(Breaking('a', false, "x"), freqs.Keys, freqs, 2)
  {
    var ms := Breaking('a', false, "x");
    CountedFive(freqs);
    assert |ms| == 5;
    hide Breaking, Chosen, CountOf;
    forall r | 0 <= r < |ms| ensures Chosen(ms, freqs.Keys, freqs, 2, r) {
      BreakingChosenAt(r, freqs);
    }
  }

  lemma SecondWordBreaks()
    ensures var ms, s := Breaking('a', false, "x"), InitialSymbols("xa</w>z"); Greedy(ms, s) != Replay(ms, s)
  {
    assert ['x'] + ['a'] + "</w>" + ['z'] == "xa</w>z" == Witness('a', "x");
    assert Base("x", false) == ["x"] && |Prep('a', false)| == 3;
    hide *;
    StageOfOne(Prep('a', false), 3, "x");
    WitnessDisagrees('a', false, "x");
  }

  lemma CountedFive(freqs: map<string, nat>)
    requires freqs == map["xa" := 5, "xa</w>z" := 5]
    ensures CountOf(freqs, "xa") == CountOf(freqs, "xa</w>z") == 5 && freqs.Keys == {"xa", "xa</w>z"}
  {
  }
}
