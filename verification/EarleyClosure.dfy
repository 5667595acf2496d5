/**
 Completeness of the chart of EarleyItems.dfy, as far as the code has it: the lists are closed
 under prediction, scanning and completion, but that a rule completed over the empty string
 must reach every state that waits for it (`NullClosed`); the completer of
 src/code/constrained_decoding.rs looks at the waiting states only once, so this fails for some
 grammars.  In a closed chart dots move over everything that derivations pass over.
 */
module EarleyClosure {
  import opened Wrappers
  import opened Grammar
  import opened EarleyItems
  import opened EarleySoundness

  // ----- What one processed work list is closed under

  ghost predicate Predicted(p: EarleyParser, pos: nat, list: seq<EarleyState>, s: EarleyState) {
    forall nt, r :: p.NextSymbol(s) == Some(NonTerminal(nt)) && r in p.RulesFor(nt) ==> EarleyState(r, 0, pos) in list
  }

  /** Each state of `waiting` that the complete state `c` can move has been moved into `list`. */
  ghost predicate MovedBy(p: EarleyParser, waiting: seq<EarleyState>, list: seq<EarleyState>, c: EarleyState) {
    forall w {:trigger Moves(p, c, w)} :: w in waiting && Moves(p, c, w) ==> Advanced(w) in list
  }

  predicate Moves(p: EarleyParser, c: EarleyState, w: EarleyState) {
    p.IsComplete(c) && p.NextSymbol(w) == Some(NonTerminal(p.rules[c.ruleIdx].lhs))
  }

  ghost predicate Handled(p: EarleyParser, done: seq<seq<EarleyState>>, list: seq<EarleyState>, s: EarleyState) {
    && Predicted(p, |done|, list, s)
    && (s.startPos < |done| ==> MovedBy(p, done[s.startPos], list, s))
  }

  lemma {:induction false} CandidatesHandle(p: EarleyParser, done: seq<seq<EarleyState>>, cur: seq<EarleyState>,
                                            s: EarleyState)
    ensures Handled(p, done, PushAll(cur, Candidates(p, done, cur, s)), s)
  {
    var list := PushAll(cur, Candidates(p, done, cur, s));
    forall nt, r | p.NextSymbol(s) == Some(NonTerminal(nt)) && r in p.RulesFor(nt)
      ensures EarleyState(r, 0, |done|) in list
    {
      assert EarleyState(r, 0, |done|) in Predictions(p.RulesFor(nt), |done|);
    }
  }

  lemma {:induction false} HandledMonotone(p: EarleyParser, done: seq<seq<EarleyState>>, list: seq<EarleyState>,
                                           more: seq<EarleyState>, s: EarleyState)
    requires list <= more && Handled(p, done, list, s)
    ensures Handled(p, done, more, s)
  {
    assert forall x :: x in list ==> x in more;
  }

  ghost predicate HandledUpTo(p: EarleyParser, done: seq<seq<EarleyState>>, list: seq<EarleyState>, idx: nat) {
    forall t :: 0 <= t < idx <= |list| ==> Handled(p, done, list, list[t])
  }

  lemma {:induction false} HandledNext(p: EarleyParser, done: seq<seq<EarleyState>>, cur: seq<EarleyState>, idx: nat)
    requires idx < |cur| && HandledUpTo(p, done, cur, idx)
    ensures HandledUpTo(p, done, PushAll(cur, Candidates(p, done, cur, cur[idx])), idx + 1)
  {
    var next := PushAll(cur, Candidates(p, done, cur, cur[idx]));
    CandidatesHandle(p, done, cur, cur[idx]);
    forall t | 0 <= t < idx + 1 ensures Handled(p, done, next, next[t]) {
      if t < idx { HandledMonotone(p, done, cur, next, cur[t]); }
    }
  }

  lemma {:induction false} SaturateHandles(p: EarleyParser, done: seq<seq<EarleyState>>, cur: seq<EarleyState>,
                                           idx: nat)
    requires p.WellFormed() && Ranged(p, done) && p.AllInRange(|done|, cur)
    requires NoDuplicates(cur) && idx <= |cur|
    requires HandledUpTo(p, done, cur, idx)
    ensures var r := Saturate(p, done, cur, idx); HandledUpTo(p, done, r, |r|)
    decreases |Universe(p, |done|)| - |cur|, |cur| - idx
  {
    NoDuplicatesBound(cur, Universe(p, |done|));
    if idx < |cur| {
      CandidatesInRange(p, done, cur, cur[idx]);
      var next := PushAll(cur, Candidates(p, done, cur, cur[idx]));
      HandledNext(p, done, cur, idx);
      NoDuplicatesBound(next, Universe(p, |done|));
      SaturateHandles(p, done, next, idx + 1);
    }
  }

  // ----- Closure of the whole chart

  ghost predicate Started(p: EarleyParser, chart: seq<seq<EarleyState>>) {
    |chart| > 0 && forall r :: r in p.RulesFor(p.startSymbol) ==> EarleyState(r, 0, 0) in chart[0]
  }

  ghost predicate ScanMoved(p: EarleyParser, tokens: seq<string>, chart: seq<seq<EarleyState>>, k: nat, s: EarleyState)
    requires k < |tokens| && k + 1 < |chart|
  {
    s in chart[k] && p.NextSymbol(s) == Some(Terminal(tokens[k])) ==> Advanced(s) in chart[k + 1]
  }

  ghost predicate ScansClosed(p: EarleyParser, tokens: seq<string>, chart: seq<seq<EarleyState>>) {
    && |chart| == |tokens| + 1
    && forall k, s :: 0 <= k < |tokens| ==> ScanMoved(p, tokens, chart, k, s)
  }

  ghost predicate AllHandled(p: EarleyParser, chart: seq<seq<EarleyState>>) {
    forall k, s {:trigger Handled(p, chart[..k], chart[k], s)} ::
      0 <= k < |chart| && s in chart[k] ==> Handled(p, chart[..k], chart[k], s)
  }

  /** Rules completed over the empty string have moved every state that waits for them. */
  ghost predicate NullClosed(p: EarleyParser, chart: seq<seq<EarleyState>>) {
    forall k, c {:trigger MovedBy(p, chart[k], chart[k], c)} ::
      0 <= k < |chart| && c in chart[k] && c.startPos == k ==> MovedBy(p, chart[k], chart[k], c)
  }

  lemma {:induction false} ClosedAtFirst(p: EarleyParser, first: seq<EarleyState>)
    requires HandledUpTo(p, [], first, |first|) && Initial(p) <= first
    ensures Started(p, [first]) && ScansClosed(p, [], [first]) && AllHandled(p, [first])
  {
    forall r | r in p.RulesFor(p.startSymbol) ensures EarleyState(r, 0, 0) in first {
      assert EarleyState(r, 0, 0) in Initial(p);
    }
    assert [first][..0] == [];
  }

  lemma {:induction false} ClosedSoFar(p: EarleyParser, tokens: seq<string>, prev: seq<seq<EarleyState>>,
                                       last: seq<EarleyState>)
    requires |tokens| > 0 && |prev| == |tokens|
    requires Started(p, prev) && ScansClosed(p, tokens[..|tokens| - 1], prev) && AllHandled(p, prev)
    requires HandledUpTo(p, prev, last, |last|)
    requires forall s :: s in Scanned(p, prev[|prev| - 1], tokens[|prev| - 1]) ==> s in last
    ensures var c := prev + [last]; Started(p, c) && ScansClosed(p, tokens, c) && AllHandled(p, c)
  {
    var n, chart := |tokens| - 1, prev + [last];
    forall k, s | 0 <= k < |chart| && s in chart[k] ensures Handled(p, chart[..k], chart[k], s) {
      if k <= n {
        assert chart[..k] == prev[..k] && chart[k] == prev[k];
      } else {
        assert chart[..k] == prev;
      }
    }
    forall k, s | 0 <= k < |tokens| ensures ScanMoved(p, tokens, chart, k, s) {
      assert chart[k] == prev[k];
      if k == n {
        assert s in prev[n] && p.NextSymbol(s) == Some(Terminal(tokens[n]))
          ==> Advanced(s) in Scanned(p, prev[n], tokens[n]);
      } else {
        assert tokens[..n][k] == tokens[k];
        assert ScanMoved(p, tokens[..n], prev, k, s);
      }
    }
  }

  lemma {:induction false} ChartClosed(p: EarleyParser, tokens: seq<string>)
    requires p.WellFormed()
    ensures var c := ChartFor(p, tokens); Started(p, c) && ScansClosed(p, tokens, c) && AllHandled(p, c)
    decreases |tokens|
  {
    hide Started, ScansClosed, AllHandled, Handled, HandledUpTo, PushAll, Predictions, Moved, Saturate;
    if tokens == [] {
      SaturateHandles(p, [], Initial(p), 0);
      ClosedAtFirst(p, Saturate(p, [], Initial(p), 0));
    } else {
      var n := |tokens| - 1;
      var prev := ChartFor(p, tokens[..n]);
      ChartClosed(p, tokens[..n]);
      SaturateHandles(p, prev, Scanned(p, prev[n], tokens[n]), 0);
      ClosedSoFar(p, tokens, prev, Saturate(p, prev, Scanned(p, prev[n], tokens[n]), 0));
    }
  }

  ghost predicate Closed(p: EarleyParser, tokens: seq<string>, chart: seq<seq<EarleyState>>) {
    && Started(p, chart) && ScansClosed(p, tokens, chart) && AllHandled(p, chart)
    && NullClosed(p, chart) && Ranged(p, chart)
  }

  lemma {:induction false} ClosedCompletes(p: EarleyParser, tokens: seq<string>, chart: seq<seq<EarleyState>>,
                        k: nat, c: EarleyState, w: EarleyState)
    requires Closed(p, tokens, chart) && k <= |tokens| && c in chart[k]
    requires w in chart[c.startPos] && Moves(p, c, w)
    ensures Advanced(w) in chart[k]
  {
    assert Handled(p, chart[..k], chart[k], c);
    if c.startPos < k {
      assert chart[..k][c.startPos] == chart[c.startPos];
      assert MovedBy(p, chart[c.startPos], chart[k], c);
    } else {
      assert MovedBy(p, chart[k], chart[k], c);
    }
  }

  lemma {:induction false} ClosedScans(p: EarleyParser, tokens: seq<string>, chart: seq<seq<EarleyState>>, k: nat,
                                       s: EarleyState)
    requires Closed(p, tokens, chart) && k < |tokens| && s in chart[k]
    requires p.NextSymbol(s) == Some(Terminal(tokens[k]))
    ensures Advanced(s) in chart[k + 1]
  {
    assert ScanMoved(p, tokens, chart, k, s);
  }

  // ----- Completeness

  lemma {:induction false} RuleOf(p: EarleyParser, q: Production) returns (r: nat)
    requires p.WellFormed() && q in p.Productions()
    ensures r < |p.rules| && p.rules[r].lhs == q.lhs && p.rules[r].rhs == q.rhs && r in p.RulesFor(q.lhs)
  {
    r :| r < |p.rules| && Production(p.rules[r].lhs, p.rules[r].rhs) == q;
  }

  lemma {:induction false} PredictedRule(p: EarleyParser, tokens: seq<string>, chart: seq<seq<EarleyState>>,
                      s: EarleyState, j: nat, q: Production) returns (r: nat)
    requires p.WellFormed() && Closed(p, tokens, chart) && j <= |tokens| && s in chart[j]
    requires q in p.Productions() && p.NextSymbol(s) == Some(NonTerminal(q.lhs))
    ensures r < |p.rules| && p.rules[r].lhs == q.lhs && p.rules[r].rhs == q.rhs
    ensures EarleyState(r, 0, j) in chart[j]
    ensures Segment(p, EarleyState(r, 0, j), |q.rhs|) == q.rhs
  {
    r := RuleOf(p, q);
    assert Handled(p, chart[..j], chart[j], s);
  }

  /** The symbols of a rule from its dot up to position `e`. */
  function Segment(p: EarleyParser, s: EarleyState, e: nat): Form
    requires s.ruleIdx < |p.rules| && s.dotPos <= e <= |p.rules[s.ruleIdx].rhs|
  {
    p.rules[s.ruleIdx].rhs[s.dotPos..e]
  }

  lemma {:induction false} SegmentCut(p: EarleyParser, s: EarleyState, e: nat)
    requires s.ruleIdx < |p.rules| && s.dotPos < e <= |p.rules[s.ruleIdx].rhs|
    ensures p.NextSymbol(s).Some?
    ensures Segment(p, s, e) == [p.NextSymbol(s).value] + Segment(p, Advanced(s), e)
  {
  }

  lemma {:induction false} NothingFromNothing(g: set<Production>, v: Form, n: nat)
    requires DerivesIn(g, [], v, n)
    ensures v == []
  {
  }

  lemma {:induction false} NeedsStep(g: set<Production>, nt: string, tokens: seq<string>, n: nat)
    requires DerivesIn(g, [NonTerminal(nt)], Terms(tokens), n)
    ensures n > 0
  {
    var v := Terms(tokens);
    assert |v| > 0 ==> v[0] == Terminal(tokens[0]);
  }

  /** If the symbols between two dots derive the tokens between two positions, the chart moves the dot. */
  lemma {:induction false} DotMoves(p: EarleyParser, tokens: seq<string>, chart: seq<seq<EarleyState>>,
                                    s: EarleyState, e: nat, j: nat, m: nat, n: nat)
    requires p.WellFormed() && Closed(p, tokens, chart) && j <= m <= |tokens|
    requires s in chart[j] && s.ruleIdx < |p.rules| && s.dotPos <= e <= |p.rules[s.ruleIdx].rhs|
    requires DerivesIn(p.Productions(), Segment(p, s, e), Terms(tokens[j..m]), n)
    ensures s.(dotPos := e) in chart[m]
    decreases n, e - s.dotPos
  {
    hide EarleyParser.Productions, DerivesIn, Closed;
    var g, v := p.Productions(), Terms(tokens[j..m]);
    if s.dotPos == e {
      NothingFromNothing(g, v, n);
    } else {
      SegmentCut(p, s, e);
      var k, n1, n2 := DerivesInSplit(g, [p.NextSymbol(s).value], Segment(p, Advanced(s), e), v, n);
      TermsCut(tokens, j, j + k, m);
      SymbolMoves(p, tokens, chart, s, j, j + k, n1);
      DotMoves(p, tokens, chart, Advanced(s), e, j + k, m, n2);
    }
  }

  lemma {:induction false} SymbolMoves(p: EarleyParser, tokens: seq<string>, chart: seq<seq<EarleyState>>,
                                       s: EarleyState, j: nat, i: nat, n: nat)
    requires p.WellFormed() && Closed(p, tokens, chart) && j <= i <= |tokens|
    requires s in chart[j] && p.NextSymbol(s).Some?
    requires DerivesIn(p.Productions(), [p.NextSymbol(s).value], Terms(tokens[j..i]), n)
    ensures Advanced(s) in chart[i]
    decreases n, 0
  {
    hide EarleyParser.Productions, DerivesIn, Closed;
    var g := p.Productions();
    match p.NextSymbol(s).value
    case Terminal(t) =>
      TerminalIsStuck(g, t, Terms(tokens[j..i]), n);
      assert |Terms(tokens[j..i])| == 1 && Terms(tokens[j..i])[0] == Terminal(tokens[j]);
      ClosedScans(p, tokens, chart, j, s);
    case NonTerminal(nt) =>
      NeedsStep(g, nt, tokens[j..i], n);
      var q := FirstRule(g, nt, Terms(tokens[j..i]), n);
      var r := PredictedRule(p, tokens, chart, s, j, q);
      DotMoves(p, tokens, chart, EarleyState(r, 0, j), |q.rhs|, j, i, n - 1);
      ClosedCompletes(p, tokens, chart, i, EarleyState(r, |q.rhs|, j), s);
  }

  /** `sym` follows the tokens from position `j` to position `i`. */
  function Ahead(tokens: seq<string>, j: nat, i: nat, sym: Symbol, rest: Form): Form
    requires j <= i <= |tokens|
  {
    Terms(tokens[j..i]) + [sym] + rest
  }

  lemma {:induction false} AheadCut(tokens: seq<string>, j: nat, i: nat, sym: Symbol, rest: Form, k: nat)
    requires j <= i <= |tokens| && k <= i - j + 1 + |rest|
    ensures var v := Ahead(tokens, j, i, sym, rest);
            if k <= i - j
            then v[..k] == Terms(tokens[j..j + k]) && v[k..] == Ahead(tokens, j + k, i, sym, rest)
            else v[..k] == Ahead(tokens, j, i, sym, rest[..k - (i - j) - 1])
  {
    var a := Terms(tokens[j..i]);
    var v := a + [sym] + rest;
    if k <= i - j {
      assert v[..k] == a[..k] && v[k..] == a[k..] + [sym] + rest;
      TermsCut(tokens, j, j + k, i);
    }
  }

  /** A state whose rest derives tokens followed by `sym` leads to a state that waits for `sym` there. */
  lemma {:induction false} WaitsFor(p: EarleyParser, tokens: seq<string>, chart: seq<seq<EarleyState>>,
                                    s: EarleyState, j: nat, i: nat, sym: Symbol, rest: Form, n: nat)
    returns (w: EarleyState)
    requires p.WellFormed() && Closed(p, tokens, chart) && j <= i <= |tokens|
    requires s in chart[j] && s.ruleIdx < |p.rules| && s.dotPos <= |p.rules[s.ruleIdx].rhs|
    requires DerivesIn(p.Productions(), Segment(p, s, |p.rules[s.ruleIdx].rhs|), Ahead(tokens, j, i, sym, rest), n)
    ensures w in chart[i] && p.NextSymbol(w) == Some(sym)
    decreases n, |p.rules[s.ruleIdx].rhs| - s.dotPos
  {
    hide EarleyParser.Productions, DerivesIn, Closed;
    var g, e := p.Productions(), |p.rules[s.ruleIdx].rhs|;
    var v := Ahead(tokens, j, i, sym, rest);
    if s.dotPos == e {
      NothingFromNothing(g, v, n);
      assert false;
    }
    SegmentCut(p, s, e);
    var k, n1, n2 := DerivesInSplit(g, [p.NextSymbol(s).value], Segment(p, Advanced(s), e), v, n);
    AheadCut(tokens, j, i, sym, rest, k);
    if k <= i - j {
      SymbolMoves(p, tokens, chart, s, j, j + k, n1);
      w := WaitsFor(p, tokens, chart, Advanced(s), j + k, i, sym, rest, n2);
    } else {
      w := WaitsWithin(p, tokens, chart, s, j, i, sym, rest[..k - (i - j) - 1], n1, n);
    }
  }

  lemma {:induction false} WaitsWithin(p: EarleyParser, tokens: seq<string>, chart: seq<seq<EarleyState>>,
                                       s: EarleyState, j: nat, i: nat, sym: Symbol, rest: Form, n: nat, bound: nat)
    returns (w: EarleyState)
    requires p.WellFormed() && Closed(p, tokens, chart) && j <= i <= |tokens| && n <= bound
    requires s in chart[j] && p.NextSymbol(s).Some?
    requires DerivesIn(p.Productions(), [p.NextSymbol(s).value], Ahead(tokens, j, i, sym, rest), n)
    ensures w in chart[i] && p.NextSymbol(w) == Some(sym)
    decreases bound, 0
  {
    hide EarleyParser.Productions;
    var g, first := p.Productions(), p.NextSymbol(s).value;
    var v := Ahead(tokens, j, i, sym, rest);
    if n == 0 {
      assert |v| == 1 && v[i - j] == sym;
      w := s;
    } else if first.Terminal? {
      TerminalIsStuck(g, first.name, v, n);
      assert false;
    } else {
      var q := FirstRule(g, first.name, v, n);
      var r := PredictedRule(p, tokens, chart, s, j, q);
      w := WaitsFor(p, tokens, chart, EarleyState(r, 0, j), j, i, sym, rest, n - 1);
    }
  }
}
