/**
 Merges that break the agreement between the encoder of src/embedding/bpe.rs and the trainer.
 One of them, learned from a word that closes in `c`, uses `c` with the end marker; a later one
 spells the same text from the characters of another word.
 */
module BpeMarker {
  import opened BpeMerges
  import opened BpeAgreement
  import opened BpeTrained
  import opened BpeTraining

  // ----- Merges that spell

  /** Merges that bring `c` and the marker's first two characters together. */
  function Head(c: char): seq<MergeOp> {
    if c == '<' then [MergeOp("<", "/", "</"), MergeOp([c], "</", [c] + "</")]
    else [MergeOp([c], "<", [c] + "<"), MergeOp([c] + "<", "/", [c] + "</")]
  }

  /** Merges that bring `c` and the marker down to two symbols, cut before or behind the 'w'. */
  function Prep(c: char, late: bool): (ms: seq<MergeOp>)
    ensures |ms| == if late then 4 else 3
  {
    Head(c) + (if late then [MergeOp([c] + "</", "w", [c] + "</w")] else []) + [MergeOp("w", ">", "w>")]
  }

  function LeftPart(c: char, late: bool): string {
    if late then [c] + "</w" else [c] + "</"
  }

  function RightPart(late: bool): string {
    if late then ">" else "w>"
  }

  /** What the merges make of `c` and the marker behind it, one by one. */
  function Middle(c: char, late: bool, r: nat): (s: seq<string>)
    requires r <= |Prep(c, late)|
    ensures s != []
  {
    if r == 0 then [[c], "<", "/", "w", ">"]
    else if r == 1 then if c == '<' then [[c], "</", "w", ">"] else [[c] + "<", "/", "w", ">"]
    else if r == 2 then [[c] + "</", "w", ">"]
    else [LeftPart(c, late), RightPart(late)]
  }

  function Closing(c: char): string {
    [c] + "</w>"
  }

  /** Then a merge that uses the closing character, and one that spells it. */
  function Breaking(c: char, late: bool, part: string): seq<MergeOp> {
    Prep(c, late) + [MergeOp(part, Closing(c), part + Closing(c))]
    + [MergeOp(LeftPart(c, late), RightPart(late), Closing(c))]
  }

  lemma PrepMade(c: char, late: bool, r: nat)
    requires r < |Prep(c, late)|
    ensures Prep(c, late)[r].Made() && |Prep(c, late)[r].merged| <= 4 && |Prep(c, late)[r].right| <= 2
  {
  }

  // ----- Passes over a part of the symbols

  /** Two stretches are passed over one by one if the pair does not stand across their border. */
  lemma {:induction false} PassApart(m: MergeOp, u: seq<string>, v: seq<string>)
    requires u != [] && v != [] ==> u[|u| - 1] != m.left || v[0] != m.right
    ensures Pass(m, u + v) == Pass(m, u) + Pass(m, v)
  {
    if u == [] || v == [] {
      assert u + v == if u == [] then v else u;
    } else {
      var k := if PairAt(m, u, 0) then 2 else 1;
      assert PairAt(m, u + v, 0) <==> PairAt(m, u, 0);
      PassApart(m, u[k..], v);
      assert (u + v)[k..] == u[k..] + v;
      PassUnfolds(m, u);
      PassUnfolds(m, u + v);
      Append([if k == 2 then m.merged else u[0]], Pass(m, u[k..]), Pass(m, v));
      hide Pass;
    }
  }

  lemma PassUnfolds(m: MergeOp, s: seq<string>)
    requires s != []
    ensures Pass(m, s) == if PairAt(m, s, 0) then [m.merged] + Pass(m, s[2..]) else [s[0]] + Pass(m, s[1..])
  {
    if |s| == 1 {
      assert s[1..] == [] && s == [s[0]];
    }
  }

  lemma PassAround(m: MergeOp, u: seq<string>, mid: seq<string>, v: seq<string>)
    requires mid != [] && mid[0] != m.right && (v == [] || mid[|mid| - 1] != m.left || v[0] != m.right)
    ensures Pass(m, u + mid + v) == Pass(m, u) + Pass(m, mid) + Pass(m, v)
  {
    PassApart(m, u + mid, v);
    PassApart(m, u, mid);
  }

  lemma PassIdle(m: MergeOp, s: seq<string>)
    requires m.Made() && !HasPair(m, s)
    ensures Pass(m, s) == s
  {
    PassEliminates(m, s);
  }

  // ----- The spelling

  /** The one place at which a merge applies, or none. */
  lemma MiddlePair(c: char, late: bool, r: nat)
    requires r < |Prep(c, late)|
    ensures var m, mid := Prep(c, late)[r], Middle(c, late, r);
            if r == 3 then Middle(c, late, 4) == mid && forall j: nat :: !PairAt(m, mid, j)
            else
              var at := if (c == '<' && r == 0) || (!late && r == 2) then 1 else 0;
              && (forall j: nat :: PairAt(m, mid, j) <==> j == at)
              && MergeAt(mid, at, m.merged) == Middle(c, late, r + 1)
  {
    assert r == 3 ==> |LeftPart(c, late)| == 4;
  }

  lemma MiddlePass(c: char, late: bool, r: nat)
    requires r < |Prep(c, late)|
    ensures Pass(Prep(c, late)[r], Middle(c, late, r)) == Middle(c, late, r + 1)
  {
    var m, mid := Prep(c, late)[r], Middle(c, late, r);
    MiddlePair(c, late, r);
    PrepMade(c, late, r);
    hide Pass, Middle, Prep;
    if r == 3 {
      PassIdle(m, mid);
    } else {
      PassOnce(m, mid, if (c == '<' && r == 0) || (!late && r == 2) then 1 else 0);
    }
  }

  /** The closing of a stretch in which '>' would be joined to what follows. */
  predicate Fits(c: char, v: seq<string>) {
    c == '>' && v != [] ==> v[0] != "<"
  }

  /** The stretch stands apart from what is around it. */
  lemma MiddleApart(c: char, late: bool, r: nat)
    requires r < |Prep(c, late)|
    ensures var m, mid := Prep(c, late)[r], Middle(c, late, r);
            mid[0] != m.right && (mid[|mid| - 1] != m.left || (r == 0 && c == '>' && m.right == "<"))
  {
    var m, mid := Prep(c, late)[r], Middle(c, late, r);
    assert r == 3 ==> mid[1] == ">" && |mid[0]| == 4;
    assert r == 2 ==> mid[2] == ">" && |mid[0]| == 3;
    assert r == 1 ==> mid[|mid| - 1] == ">" && (|m.left| == 2 || m.left == "<");
  }

  lemma {:induction false} PrepAround(c: char, late: bool, r: nat, u: seq<string>, v: seq<string>)
    requires Fits(c, v) && r <= |Prep(c, late)|
    ensures var ms := Prep(c, late);
            Stage(ms, r, u + Middle(c, late, 0) + v) == Stage(ms, r, u) + Middle(c, late, r) + Stage(ms, r, v)
  {
    var ms := Prep(c, late);
    if r > 0 {
      PrepAround(c, late, r - 1, u, v);
      MiddlePass(c, late, r - 1);
      MiddleApart(c, late, r - 1);
      assert r == 1 ==> Stage(ms, 0, v) == v;
      PassAround(ms[r - 1], Stage(ms, r - 1, u), Middle(c, late, r - 1), Stage(ms, r - 1, v));
      hide Pass, Middle, Prep;
    }
  }

  lemma MiddleInside(v: string, i: nat)
    requires i + 5 < |v| && MarkerAt(v, i + 1)
    ensures var s := InitialSymbols(v); s == s[..i] + Middle(v[i], false, 0) + s[i + 5..]
  {
    var s, mark := InitialSymbols(v), v[i + 1..i + 5];
    assert mark[0] == v[i + 1] && mark[1] == v[i + 2] && mark[2] == v[i + 3] && mark[3] == v[i + 4];
    assert s[i..i + 5] == Middle(v[i], false, 0);
    assert s == s[..i] + s[i..i + 5] + s[i + 5..];
  }

  /** A text with the marker inside, one symbol a character. */
  lemma SymbolsAround(x: string, c: char, y: string, marked: bool)
    requires y != "" || !marked
    ensures Base(x + Closing(c) + y, marked) == Base(x, false) + Middle(c, false, 0) + Base(y, marked)
  {
    assert Base(Closing(c), false) == Middle(c, false, 0);
    hide Middle;
    BaseOfTwo(x + Closing(c), y, marked);
    BaseOfTwo(x, Closing(c), false);
  }

  lemma BaseOfTwo(x: string, y: string, marked: bool)
    requires y != "" || !marked
    ensures Base(x + y, marked) == Base(x, false) + Base(y, marked)
  {
  }

  /** A symbol with the marker stays as it is, at the end of whatever stands before it. */
  lemma {:induction false} ClosingStays(c: char, late: bool, r: nat, x: seq<string>, z: string)
    requires r <= |Prep(c, late)| && |z| == 5
    ensures Stage(Prep(c, late), r, x + [z]) == Stage(Prep(c, late), r, x) + [z]
  {
    if r > 0 {
      ClosingStays(c, late, r - 1, x, z);
      PrepMade(c, late, r - 1);
      PassApart(Prep(c, late)[r - 1], Stage(Prep(c, late), r - 1, x), [z]);
    }
  }

  lemma PrepSymbols(c: char, late: bool, r: nat, x: string, sym: string)
    requires r <= |Prep(c, late)| && sym in Stage(Prep(c, late), r, Base(x, false))
    ensures 0 < |sym| <= 4
    ensures |sym| == 1 || exists q :: 0 <= q < r && sym == Prep(c, late)[q].merged
  {
    StageSymbols(Prep(c, late), r, Base(x, false), sym);
    if q :| 0 <= q < r && sym == Prep(c, late)[q].merged {
      PrepMade(c, late, q);
    }
  }

  lemma AllPrepMade(c: char, late: bool)
    ensures AllMade(Prep(c, late))
  {
    forall r | 0 <= r < |Prep(c, late)| ensures Prep(c, late)[r].Made() { PrepMade(c, late, r); }
  }

  // ----- The word that closes

  /** What the merges leave of a word before its closing symbol. */
  function Before(c: char, late: bool, w: string): seq<string>
    requires w != ""
  {
    Stage(Prep(c, late), |Prep(c, late)|, Base(w[..|w| - 1], false))
  }

  function LastOf(s: seq<string>): string
    requires s != []
  {
    s[|s| - 1]
  }

  lemma ClosingWord(c: char, late: bool, r: nat, w: string)
    requires |w| >= 2 && w[|w| - 1] == c && r <= |Prep(c, late)|
    ensures var x := Stage(Prep(c, late), r, Base(w[..|w| - 1], false));
            && x != [] && Concat(x) == w[..|w| - 1]
            && Stage(Prep(c, late), r, InitialSymbols(w)) == x + [Closing(c)]
  {
    var y := w[..|w| - 1];
    assert InitialSymbols(w) == Base(y, false) + [Closing(c)];
    ClosingStays(c, late, r, Base(y, false), Closing(c));
    AllPrepMade(c, late);
    StageLength(Prep(c, late), r, Base(y, false));
    StageConcat(Prep(c, late), r, Base(y, false));
    ConcatBase(y, false);
  }

  lemma EndsWith(x: seq<string>, text: string)
    requires x != [] && Concat(x) == text
    ensures |LastOf(x)| <= |text| && text[|text| - |LastOf(x)|..] == LastOf(x)
    ensures Concat(x[..|x| - 1]) == text[..|text| - |LastOf(x)|]
  {
    assert x == x[..|x| - 1] + [LastOf(x)];
    ConcatAppend(x[..|x| - 1], [LastOf(x)]);
    assert Concat([LastOf(x)]) == LastOf(x) + "";
  }

  /** The last symbol left comes from its own characters. */
  lemma PartAlone(c: char, late: bool, w: string)
    requires |w| >= 2 && w[|w| - 1] == c && Before(c, late, w) != []
    ensures var part := LastOf(Before(c, late, w));
            0 < |part| <= 4 && Stage(Prep(c, late), |Prep(c, late)|, Base(part, false)) == [part]
  {
    var ms, y, x := Prep(c, late), w[..|w| - 1], Before(c, late, w);
    var a, b := StageSegment(ms, |ms|, Base(y, false), |x| - 1, |x|);
    assert x[|x| - 1..|x|] == [LastOf(x)];
    UnmarkedSegment(y, a, b);
    PrepSymbols(c, late, |ms|, y, LastOf(x));
    OwnCharacters(c, late, y[a..b], LastOf(x));
  }

  lemma UnmarkedSegment(y: string, a: nat, b: nat)
    requires a <= b <= |y|
    ensures Base(y, false)[a..b] == Base(y[a..b], false)
  {
  }

  lemma OwnCharacters(c: char, late: bool, y: string, part: string)
    requires Stage(Prep(c, late), |Prep(c, late)|, Base(y, false)) == [part]
    ensures y == part
  {
    AllPrepMade(c, late);
    StageConcat(Prep(c, late), |Prep(c, late)|, Base(y, false));
    ConcatBase(y, false);
    assert Concat([part]) == part + "";
  }

  /** If the word does not close after "w>", neither does its last symbol. */
  lemma EarlyPart(c: char, w: string)
    requires |w| >= 2 && w[|w| - 1] == c && !(|w| >= 3 && w[|w| - 3] == 'w' && w[|w| - 2] == '>')
    ensures Before(c, false, w) != [] && LastOf(Before(c, false, w)) != RightPart(false)
  {
    var x := Before(c, false, w);
    ClosingWord(c, false, 3, w);
    var text := w[..|w| - 1];
    EndsWith(x, text);
    assert |text| >= 2 ==> text[|text| - 2..] == [text[|text| - 2], text[|text| - 1]];
  }

  /** If it does, but not after `c` and the whole marker, its 'w' is left for its '>'. */
  lemma LatePart(c: char, w: string)
    requires |w| >= 3 && w[|w| - 1] == c && w[|w| - 2] == '>' && w[|w| - 3] == 'w'
    requires !(|w| >= 6 && w[|w| - 6..|w| - 1] == Closing(c))
    ensures Before(c, true, w) != [] && LastOf(Before(c, true, w)) == "w>"
    ensures HasPair(Prep(c, true)[3], Stage(Prep(c, true), 3, InitialSymbols(w)))
  {
    var ms, z := Prep(c, true), w[..|w| - 2];
    assert |w| >= 6 ==> w[|w| - 6..|w| - 1] == z[|z| - 4..] + [w[|w| - 2]];
    LastIsW(c, z);
    assert Base(w[..|w| - 1], false) == Base(z, false) + [">"];
    AngleStays(c, Base(z, false), 3);
    ClosingWord(c, true, 3, w);
    StageNext(ms, 3, Base(w[..|w| - 1], false));
    hide Stage, Base, Concat;
    AngleJoined(ms[3], Stage(ms, 3, Base(z, false)), Closing(c));
  }

  lemma AngleJoined(m: MergeOp, y: seq<string>, last: string)
    requires m == MergeOp("w", ">", "w>") && y != [] && LastOf(y) == "w"
    ensures var t := Pass(m, y + [">"]); t != [] && LastOf(t) == "w>"
    ensures HasPair(m, y + [">"] + [last])
  {
    assert PairAt(m, y + [">"] + [last], |y| - 1);
    assert y + [">"] == y[..|y| - 1] + ["w", ">"];
    PassApart(m, y[..|y| - 1], ["w", ">"]);
    PassOnPair(m);
  }

  lemma {:induction false} AngleStays(c: char, x: seq<string>, r: nat)
    requires r <= 3
    ensures Stage(Prep(c, true), r, x + [">"]) == Stage(Prep(c, true), r, x) + [">"]
  {
    if r > 0 {
      AngleStays(c, x, r - 1);
      assert Prep(c, true)[r - 1].right != ">";
      PassApart(Prep(c, true)[r - 1], Stage(Prep(c, true), r - 1, x), [">"]);
    }
  }

  lemma LastIsW(c: char, z: string)
    requires z != "" && z[|z| - 1] == 'w' && !(|z| >= 4 && z[|z| - 4..] == [c] + "</w")
    ensures var y := Stage(Prep(c, true), 3, Base(z, false)); y != [] && LastOf(y) == "w"
  {
    var ms := Prep(c, true);
    var y := Stage(ms, 3, Base(z, false));
    AllPrepMade(c, true);
    StageLength(ms, 3, Base(z, false));
    StageConcat(ms, 3, Base(z, false));
    ConcatBase(z, false);
    EndsWith(y, z);
    var sym := LastOf(y);
    PrepSymbols(c, true, 3, z, sym);
    assert z[|z| - |sym|..][|sym| - 1] == z[|z| - 1];
    EndsInW(c, sym);
    hide Stage, Concat, Base, Prep;
  }

  lemma EndsInW(c: char, sym: string)
    requires sym != "" && sym[|sym| - 1] == 'w'
    requires |sym| == 1 || exists q :: 0 <= q < 3 && sym == Prep(c, true)[q].merged
    ensures sym == "w" || (sym == [c] + "</w" && |sym| == 4)
  {
  }

  // ----- The agreement broken

  lemma BreakingStage(c: char, late: bool, part: string, r: nat, s: seq<string>)
    requires r <= |Prep(c, late)|
    ensures Stage(Breaking(c, late, part), r, s) == Stage(Prep(c, late), r, s)
  {
    var m, f := MergeOp(part, Closing(c), part + Closing(c)), MergeOp(LeftPart(c, late), RightPart(late), Closing(c));
    StagePrefix(Prep(c, late), m, r, s);
    StagePrefix(Prep(c, late) + [m], f, r, s);
  }

  /** Replaying can only agree with encoding if it leaves no pair of any merge. */
  lemma PairLeftDisagrees(ms: seq<MergeOp>, s: seq<string>, r: nat, i: nat)
    requires r < |ms| && PairAt(ms[r], Replay(ms, s), i)
    ensures Greedy(ms, s) != Replay(ms, s)
  {
    GreedyExhausts(ms, s, i);
    assert (ms[r].left, ms[r].right) in RanksOf(ms);
    hide Greedy, Replay;
  }

  /** The part, then `c` and the marker's characters, then something else. */
  function Witness(c: char, part: string): string {
    part + [c] + "</w>" + [if c == 'z' then 'y' else 'z']
  }

  lemma WitnessPrepared(c: char, late: bool, part: string)
    requires Stage(Prep(c, late), |Prep(c, late)|, Base(part, false)) == [part]
    ensures var z := [if c == 'z' then 'y' else 'z'] + "</w>";
            Stage(Prep(c, late), |Prep(c, late)|, InitialSymbols(Witness(c, part)))
            == [part, LeftPart(c, late), RightPart(late), z]
  {
    var ms, word, z := Prep(c, late), Witness(c, part), [if c == 'z' then 'y' else 'z'] + "</w>";
    var s := InitialSymbols(word);
    var d := [if c == 'z' then 'y' else 'z'];
    SymbolsAround(part, c, d, true);
    assert word == part + Closing(c) + d;
    assert InitialSymbols(d) == [z] && Middle(c, late, 0) == Middle(c, false, 0);
    PrepAround(c, late, |ms|, Base(part, false), [z]);
    StageOfOne(ms, |ms|, z);
    hide Stage;
  }

  lemma {:induction false} StageOfOne(ms: seq<MergeOp>, r: nat, sym: string)
    requires r <= |ms|
    ensures Stage(ms, r, [sym]) == [sym]
    decreases r
  {
    if r > 0 { StageOfOne(ms, r - 1, sym); }
  }

  lemma WitnessReplayed(c: char, late: bool, part: string)
    requires Stage(Prep(c, late), |Prep(c, late)|, Base(part, false)) == [part] && 0 < |part| <= 4
    ensures var z := [if c == 'z' then 'y' else 'z'] + "</w>";
            Replay(Breaking(c, late, part), InitialSymbols(Witness(c, part))) == [part, Closing(c), z]
  {
    var ms, n, s := Breaking(c, late, part), |Prep(c, late)|, InitialSymbols(Witness(c, part));
    WitnessPrepared(c, late, part);
    BreakingStage(c, late, part, n, s);
    StageNext(ms, n, s);
    StageNext(ms, n + 1, s);
    hide Stage, InitialSymbols;
    WitnessPassed(c, late, part);
  }

  lemma WitnessPassed(c: char, late: bool, part: string)
    requires 0 < |part| <= 4
    ensures var ms, n := Breaking(c, late, part), |Prep(c, late)|;
            var z := [if c == 'z' then 'y' else 'z'] + "</w>";
            Pass(ms[n + 1], Pass(ms[n], [part, LeftPart(c, late), RightPart(late), z])) == [part, Closing(c), z]
  {
    var ms, n := Breaking(c, late, part), |Prep(c, late)|;
    var z := [if c == 'z' then 'y' else 'z'] + "</w>";
    var t := [part, LeftPart(c, late), RightPart(late), z];
    assert |Closing(c)| == |z| == 5 && z[0] != c && ms[n].Made() && ms[n + 1].Made();
    hide Pass;
    PassIdle(ms[n], t);
    PassOnce(ms[n + 1], t, 1);
  }

  lemma StageNext(ms: seq<MergeOp>, r: nat, s: seq<string>)
    requires r < |ms|
    ensures Stage(ms, r + 1, s) == Pass(ms[r], Stage(ms, r, s))
  {
  }

  lemma WitnessDisagrees(c: char, late: bool, part: string)
    requires Stage(Prep(c, late), |Prep(c, late)|, Base(part, false)) == [part] && 0 < |part| <= 4
    ensures var ms, s := Breaking(c, late, part), InitialSymbols(Witness(c, part)); Greedy(ms, s) != Replay(ms, s)
  {
    var ms, s := Breaking(c, late, part), InitialSymbols(Witness(c, part));
    WitnessReplayed(c, late, part);
    assert PairAt(ms[|Prep(c, late)|], Replay(ms, s), 0);
    hide Breaking, Replay, InitialSymbols;
    PairLeftDisagrees(ms, s, |Prep(c, late)|, 0);
  }
}
