/**
 What the work list of src/code/constrained_decoding.rs does, state by state, told without the code's
 own functions: which states processing one state asks for, and how the list grows by just those.
 */
module EarleyWorkList {
  import opened Grammar
  import opened EarleyItems
  import opened EarleyClosure

  /** `x` is a rule of the symbol that `s` expects, with the dot in front and starting here. */
  predicate AskedByPrediction(p: EarleyParser, pos: nat, s: EarleyState, x: EarleyState) {
    && s.ruleIdx < |p.rules| && s.dotPos < |p.rules[s.ruleIdx].rhs|
    && x.ruleIdx < |p.rules| && p.rules[s.ruleIdx].rhs[s.dotPos] == NonTerminal(p.rules[x.ruleIdx].lhs)
    && x.dotPos == 0 && x.startPos == pos
  }

  /** `x` is a state of `waiting` with its dot moved over the left side of the finished rule of `s`. */
  predicate AskedByCompletion(p: EarleyParser, waiting: seq<EarleyState>, s: EarleyState, x: EarleyState) {
    && s.ruleIdx < |p.rules| && s.dotPos == |p.rules[s.ruleIdx].rhs|
    && x.ruleIdx < |p.rules| && 0 < x.dotPos <= |p.rules[x.ruleIdx].rhs|
    && p.rules[x.ruleIdx].rhs[x.dotPos - 1] == NonTerminal(p.rules[s.ruleIdx].lhs)
    && EarleyState(x.ruleIdx, x.dotPos - 1, x.startPos) in waiting
  }

  /** Where states wait that began with `s`: an earlier list, or the current one as far as it has come. */
  ghost predicate Asked(p: EarleyParser, done: seq<seq<EarleyState>>, cur: seq<EarleyState>, s: EarleyState,
                        x: EarleyState)
  {
    || AskedByPrediction(p, |done|, s, x)
    || (s.startPos < |done| && AskedByCompletion(p, done[s.startPos], s, x))
    || (s.startPos == |done| && AskedByCompletion(p, cur, s, x))
  }

  /** Processing `s` makes of the list `cur` one that holds just `cur` and what `s` asked for. */
  ghost predicate Grown(p: EarleyParser, done: seq<seq<EarleyState>>, cur: seq<EarleyState>, s: EarleyState,
                        next: seq<EarleyState>)
  {
    forall x :: x in next <==> x in cur || Asked(p, done, cur, s, x)
  }

  lemma PushedIsGrown(p: EarleyParser, done: seq<seq<EarleyState>>, cur: seq<EarleyState>, s: EarleyState)
    requires p.WellFormed() && p.InRange(|done|, s)
    ensures Grown(p, done, cur, s, PushAll(cur, Candidates(p, done, cur, s)))
  {
    forall x ensures x in Candidates(p, done, cur, s) <==> Asked(p, done, cur, s, x) {
      CandidatesAre(p, done, cur, s, x);
    }
  }

  lemma CandidatesAre(p: EarleyParser, done: seq<seq<EarleyState>>, cur: seq<EarleyState>, s: EarleyState,
                      x: EarleyState)
    requires p.WellFormed() && p.InRange(|done|, s)
    ensures x in Candidates(p, done, cur, s) <==> Asked(p, done, cur, s, x)
  {
    if p.IsComplete(s) {
      MovedAre(p, ListAt(done, cur, s.startPos), s, x);
    }
  }

  lemma MovedAre(p: EarleyParser, waiting: seq<EarleyState>, s: EarleyState, x: EarleyState)
    requires s.ruleIdx < |p.rules| && s.dotPos == |p.rules[s.ruleIdx].rhs|
    ensures x in Moved(p, NonTerminal(p.rules[s.ruleIdx].lhs), waiting) <==> AskedByCompletion(p, waiting, s, x)
  {
    if AskedByCompletion(p, waiting, s, x) {
      var w := EarleyState(x.ruleIdx, x.dotPos - 1, x.startPos);
      assert Advanced(w) == x;
    }
  }

  /** The turn of state `t` finds `n[t]` states and leaves those and the ones asked for, `n[t + 1]` in all. */
  ghost predicate Turn(p: EarleyParser, done: seq<seq<EarleyState>>, r: seq<EarleyState>, n: seq<nat>, t: nat)
    requires t < |r| && |n| == |r| + 1
  {
    && t < n[t] <= n[t + 1] <= |r|
    && forall x :: x in r[..n[t + 1]] <==> x in r[..n[t]] || Asked(p, done, r[..n[t]], r[t], x)
  }

  /** How the list `r` has come about from `start`, from the turn of state `idx` on. */
  ghost predicate WorkedOff(p: EarleyParser, done: seq<seq<EarleyState>>, start: seq<EarleyState>, idx: nat,
                            r: seq<EarleyState>, n: seq<nat>)
  {
    && start <= r && idx <= |start| && |n| == |r| + 1 && n[idx] == |start| && n[|r|] == |r|
    && forall t :: idx <= t < |r| ==> Turn(p, done, r, n, t)
  }

  lemma {:induction false} SaturateWorksOff(p: EarleyParser, done: seq<seq<EarleyState>>, cur: seq<EarleyState>,
                                            idx: nat) returns (n: seq<nat>)
    requires p.WellFormed() && Ranged(p, done) && p.AllInRange(|done|, cur)
    requires NoDuplicates(cur) && idx <= |cur|
    ensures WorkedOff(p, done, cur, idx, Saturate(p, done, cur, idx), n)
    decreases |Universe(p, |done|)| - |cur|, |cur| - idx
  {
    NoDuplicatesBound(cur, Universe(p, |done|));
    var r := Saturate(p, done, cur, idx);
    if idx == |cur| {
      n := seq(|r| + 1, _ => |r|);
    } else {
      CandidatesInRange(p, done, cur, cur[idx]);
      var next := PushAll(cur, Candidates(p, done, cur, cur[idx]));
      NoDuplicatesBound(next, Universe(p, |done|));
      assert r == Saturate(p, done, next, idx + 1);
      var rest := SaturateWorksOff(p, done, next, idx + 1);
      n := rest[idx := |cur|];
      OneTurn(p, done, cur, idx, next, r);
      hide *;
      assert WorkedOff(p, done, cur, idx, r, n) by { EarlierTurn(p, done, cur, idx, next, r, rest); }
    }
  }

  lemma EarlierTurn(p: EarleyParser, done: seq<seq<EarleyState>>, cur: seq<EarleyState>, idx: nat,
                    next: seq<EarleyState>, r: seq<EarleyState>, n: seq<nat>)
    requires WorkedOff(p, done, next, idx + 1, r, n) && cur <= next && idx < |cur|
    requires forall x :: x in next <==> x in cur || Asked(p, done, cur, r[idx], x)
    ensures WorkedOff(p, done, cur, idx, r, n[idx := |cur|])
  {
    hide Asked;
    var m := n[idx := |cur|];
    assert r[..|cur|] == cur && r[..|next|] == next;
    forall t | idx <= t < |r| ensures Turn(p, done, r, m, t) {
      if t > idx { assert Turn(p, done, r, n, t) && m[t] == n[t] && m[t + 1] == n[t + 1]; }
    }
  }

  lemma OneTurn(p: EarleyParser, done: seq<seq<EarleyState>>, cur: seq<EarleyState>, idx: nat,
                next: seq<EarleyState>, r: seq<EarleyState>)
    requires p.WellFormed() && p.AllInRange(|done|, cur) && idx < |cur| && next <= r
    requires next == PushAll(cur, Candidates(p, done, cur, cur[idx]))
    ensures r[idx] == cur[idx] && cur <= next
    ensures forall x :: x in next <==> x in cur || Asked(p, done, cur, r[idx], x)
  {
    assert next[idx] == cur[idx];
    assert p.InRange(|done|, cur[idx]);
    forall x ensures x in next <==> x in cur || Asked(p, done, cur, cur[idx], x) {
      CandidatesAre(p, done, cur, cur[idx], x);
    }
  }

  /** `r` is what the work list makes of `start`. */
  ghost predicate ComesAbout(p: EarleyParser, done: seq<seq<EarleyState>>, start: seq<EarleyState>,
                             r: seq<EarleyState>)
  {
    exists n :: WorkedOff(p, done, start, 0, r, n)
  }

  lemma SaturateComesAbout(p: EarleyParser, done: seq<seq<EarleyState>>, start: seq<EarleyState>)
    requires p.WellFormed() && Ranged(p, done) && p.AllInRange(|done|, start) && NoDuplicates(start)
    ensures ComesAbout(p, done, start, Saturate(p, done, start, 0))
  {
    var n := SaturateWorksOff(p, done, start, 0);
  }

  // ----- The whole chart

  /** The rules of the start symbol, with their dots in front. */
  ghost predicate StartsFresh(p: EarleyParser, start: seq<EarleyState>) {
    forall x :: x in start <==>
      x.ruleIdx < |p.rules| && p.rules[x.ruleIdx].lhs == p.startSymbol && x.dotPos == x.startPos == 0
  }

  /** The states of `list` that expect `token`, with their dots moved over it. */
  ghost predicate StartsScanned(p: EarleyParser, list: seq<EarleyState>, token: string, start: seq<EarleyState>) {
    forall x :: x in start <==>
      && x.ruleIdx < |p.rules| && 0 < x.dotPos <= |p.rules[x.ruleIdx].rhs|
      && p.rules[x.ruleIdx].rhs[x.dotPos - 1] == Terminal(token)
      && EarleyState(x.ruleIdx, x.dotPos - 1, x.startPos) in list
  }

  /** Every list of the chart has come about so, from the start symbol's rules or from what the token moved. */
  lemma {:induction false} ChartWorkedOff(p: EarleyParser, tokens: seq<string>, k: nat)
    returns (start: seq<EarleyState>, n: seq<nat>)
    requires p.WellFormed() && k <= |tokens|
    ensures var c := ChartFor(p, tokens);
            && (if k == 0 then StartsFresh(p, start) else StartsScanned(p, c[k - 1], tokens[k - 1], start))
            && WorkedOff(p, c[..k], start, 0, c[k], n)
    decreases |tokens|
  {
    hide StartsFresh, StartsScanned, WorkedOff, Saturate, PushAll, Predictions, Moved, Scanned, Initial;
    if k == |tokens| {
      start, n := LastListWorkedOff(p, tokens);
    } else {
      start, n := ChartWorkedOff(p, tokens[..|tokens| - 1], k);
      assert ChartFor(p, tokens)[..k] == ChartFor(p, tokens[..|tokens| - 1])[..k];
    }
  }

  lemma LastListWorkedOff(p: EarleyParser, tokens: seq<string>) returns (start: seq<EarleyState>, n: seq<nat>)
    requires p.WellFormed()
    ensures var c, k := ChartFor(p, tokens), |tokens|;
            && (if k == 0 then StartsFresh(p, start) else StartsScanned(p, c[k - 1], tokens[k - 1], start))
            && WorkedOff(p, c[..k], start, 0, c[k], n)
  {
    hide StartsFresh, StartsScanned, WorkedOff, Saturate, Predictions, Moved;
    var c, k := ChartFor(p, tokens), |tokens|;
    if k == 0 {
      start := Initial(p);
      InitialStarts(p);
      n := SaturateWorksOff(p, [], start, 0);
      assert c[..0] == [];
    } else {
      var prev := ChartFor(p, tokens[..k - 1]);
      start := Scanned(p, prev[k - 1], tokens[k - 1]);
      ScannedStarts(p, prev[k - 1], tokens[k - 1]);
      n := SaturateWorksOff(p, prev, start, 0);
      assert c[..k] == prev;
    }
  }

  lemma InitialStarts(p: EarleyParser)
    requires p.WellFormed()
    ensures StartsFresh(p, Initial(p))
  {
  }

  lemma ScannedStarts(p: EarleyParser, list: seq<EarleyState>, token: string)
    ensures StartsScanned(p, list, token, Scanned(p, list, token))
  {
    forall x: EarleyState | x.ruleIdx < |p.rules| && 0 < x.dotPos <= |p.rules[x.ruleIdx].rhs|
               && p.rules[x.ruleIdx].rhs[x.dotPos - 1] == Terminal(token)
               && EarleyState(x.ruleIdx, x.dotPos - 1, x.startPos) in list
      ensures x in Scanned(p, list, token)
    {
      assert Advanced(EarleyState(x.ruleIdx, x.dotPos - 1, x.startPos)) == x;
    }
  }

  /**
   A rule completed over the empty string moves what waits for it in the list as it then is, so at
   least everything before it: what a grammar with epsilon rules gets is no less than that.
   */
  lemma EmptySpansMove(p: EarleyParser, tokens: seq<string>, k: nat, t: nat)
    requires p.WellFormed() && k <= |tokens| && t < |ChartFor(p, tokens)[k]|
    requires ChartFor(p, tokens)[k][t].startPos == k
    ensures var r := ChartFor(p, tokens)[k]; MovedBy(p, r[..t], r, r[t])
  {
    var c := ChartFor(p, tokens);
    var start, n := ChartWorkedOff(p, tokens, k);
    assert Turn(p, c[..k], c[k], n, t) && p.AllInRange(k, c[k]);
    TurnMoves(p, c[..k], c[k], n, t);
  }

  lemma TurnMoves(p: EarleyParser, done: seq<seq<EarleyState>>, r: seq<EarleyState>, n: seq<nat>, t: nat)
    requires t < |r| && |n| == |r| + 1 && Turn(p, done, r, n, t) && p.AllInRange(|done|, r) && r[t].startPos == |done|
    ensures MovedBy(p, r[..n[t]], r, r[t]) && MovedBy(p, r[..t], r, r[t])
  {
    assert r[t] in r && p.InRange(|done|, r[t]);
    forall w | w in r[..n[t]] && Moves(p, r[t], w) ensures Advanced(w) in r {
      var x := Advanced(w);
      assert EarleyState(x.ruleIdx, x.dotPos - 1, x.startPos) == w;
      assert Asked(p, done, r[..n[t]], r[t], x);
      assert x in r[..n[t + 1]];
    }
  }
}
