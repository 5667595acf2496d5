/**
 The theorems the recogniser is for: which states its chart holds, which tokens it
 allows next, and when it lets the caller stop, all stated as derivability from the
 start symbol; exactly when they hold; and a grammar for which they fail.
 */
module EarleyAnswers {
  import opened Wrappers
  import opened Grammar
  import opened EarleyItems
  import opened EarleySoundness
  import opened EarleyClosure

  /** Every position holds exactly the states that fit a derivation. */
  ghost predicate Exact(p: EarleyParser, tokens: seq<string>, chart: seq<seq<EarleyState>>)
    requires |chart| == |tokens| + 1
  {
    forall k, s {:trigger Item(p, tokens, k, s)} :: 0 <= k <= |tokens| ==> (s in chart[k] <==> Item(p, tokens, k, s))
  }

  /** A symbol that may follow the tokens is waited for, unless nothing was read and it is the start symbol. */
  lemma Foreseen(p: EarleyParser, tokens: seq<string>, chart: seq<seq<EarleyState>>, i: nat, sym: Symbol)
    returns (w: EarleyState)
    requires p.WellFormed() && Closed(p, tokens, chart) && i <= |tokens|
    requires Viable(p, Terms(tokens[..i]) + [sym])
    ensures (i == 0 && sym == NonTerminal(p.startSymbol)) || (w in chart[i] && p.NextSymbol(w) == Some(sym))
  {
    hide EarleyParser.Productions;
    w := EarleyState(0, 0, 0);
    var g, start := p.Productions(), [NonTerminal(p.startSymbol)];
    var prefix := Terms(tokens[..i]) + [sym];
    var rest :| Derives(g, start, prefix + rest);
    var n: nat :| DerivesIn(g, start, prefix + rest, n);
    assert tokens[0..i] == tokens[..i];
    assert prefix + rest == Ahead(tokens, 0, i, sym, rest);
    if n == 0 {
      assert (prefix + rest)[i] == sym && |prefix + rest| == |start| == 1;
    } else {
      var q := FirstRule(g, p.startSymbol, prefix + rest, n);
      var r := StartRule(p, tokens, chart, q);
      w := WaitsFor(p, tokens, chart, EarleyState(r, 0, 0), 0, i, sym, rest, n - 1);
    }
  }

  lemma StartRule(p: EarleyParser, tokens: seq<string>, chart: seq<seq<EarleyState>>, q: Production) returns (r: nat)
    requires p.WellFormed() && Closed(p, tokens, chart)
    requires q in p.Productions() && q.lhs == p.startSymbol
    ensures r < |p.rules| && p.rules[r].lhs == q.lhs && p.rules[r].rhs == q.rhs
    ensures EarleyState(r, 0, 0) in chart[0]
    ensures Segment(p, EarleyState(r, 0, 0), |q.rhs|) == q.rhs
  {
    r := RuleOf(p, q);
  }

  lemma ClosedIsComplete(p: EarleyParser, tokens: seq<string>, chart: seq<seq<EarleyState>>, k: nat, s: EarleyState)
    requires p.WellFormed() && Closed(p, tokens, chart) && Item(p, tokens, k, s)
    ensures s in chart[k]
  {
    hide EarleyParser.Productions;
    var rule, i := p.rules[s.ruleIdx], s.startPos;
    var q := Production(rule.lhs, rule.rhs);
    RuleInGrammar(p, s.ruleIdx);
    var w := Foreseen(p, tokens, chart, i, NonTerminal(rule.lhs));
    FrontState(p, tokens, chart, s, i, w);
    var n: nat :| DerivesIn(p.Productions(), rule.rhs[..s.dotPos], Terms(tokens[i..k]), n);
    var front := EarleyState(s.ruleIdx, 0, i);
    assert Segment(p, front, s.dotPos) == rule.rhs[..s.dotPos];
    DotMoves(p, tokens, chart, front, s.dotPos, i, k, n);
  }

  lemma FrontState(p: EarleyParser, tokens: seq<string>, chart: seq<seq<EarleyState>>, s: EarleyState,
                   i: nat, w: EarleyState)
    requires p.WellFormed() && Closed(p, tokens, chart) && i <= |tokens| && s.ruleIdx < |p.rules|
    requires var lhs := p.rules[s.ruleIdx].lhs;
             (i == 0 && lhs == p.startSymbol) || (w in chart[i] && p.NextSymbol(w) == Some(NonTerminal(lhs)))
    ensures EarleyState(s.ruleIdx, 0, i) in chart[i]
  {
    if w in chart[i] { assert Handled(p, chart[..i], chart[i], w); }
  }

  /** The chart is exact if and only if completions over the empty string have reached all that wait for them. */
  lemma {:induction false} ExactIffNullClosed(p: EarleyParser, tokens: seq<string>)
    requires p.WellFormed()
    ensures Exact(p, tokens, ChartFor(p, tokens)) <==> NullClosed(p, ChartFor(p, tokens))
  {
    var chart := ChartFor(p, tokens);
    ChartSound(p, tokens);
    ChartClosed(p, tokens);
    if NullClosed(p, chart) {
      forall k, s | 0 <= k <= |tokens| ensures s in chart[k] <==> Item(p, tokens, k, s) {
        if Item(p, tokens, k, s) { ClosedIsComplete(p, tokens, chart, k, s); }
      }
    }
    if Exact(p, tokens, chart) {
      forall k: nat, c: EarleyState | k < |chart| && c in chart[k] && c.startPos == k
        ensures MovedBy(p, chart[k], chart[k], c)
      {
        ExactMoves(p, tokens, chart, k, c);
      }
    }
  }

  lemma ExactMoves(p: EarleyParser, tokens: seq<string>, chart: seq<seq<EarleyState>>, k: nat, c: EarleyState)
    requires |chart| == |tokens| + 1 && Exact(p, tokens, chart)
    requires k < |chart| && c in chart[k] && c.startPos == k
    ensures MovedBy(p, chart[k], chart[k], c)
  {
    forall w | w in chart[k] && Moves(p, c, w) ensures Advanced(w) in chart[k] {
      assert Item(p, tokens, k, c) && Item(p, tokens, k, w);
      ItemCompleted(p, tokens, k, w, c);
    }
  }

  /** A form that the start symbol leads to uses only names in reach. */
  lemma ViableWithin(p: EarleyParser, reach: set<string>, prefix: Form)
    requires Viable(p, prefix) && p.startSymbol in reach
    requires ClosedUnder(p.Productions(), reach) && Nonempty(p.Productions(), reach)
    ensures Within(prefix, reach)
  {
    hide EarleyParser.Productions;
    var g, start := p.Productions(), [NonTerminal(p.startSymbol)];
    var rest :| Derives(g, start, prefix + rest);
    var n: nat :| DerivesIn(g, start, prefix + rest, n);
    ReachGrows(g, reach, start, prefix + rest, n);
    assert forall i :: 0 <= i < |prefix| ==> (prefix + rest)[i] == prefix[i];
  }

  /** Nothing in reach is completed over the empty string. */
  lemma NotCompletedAtOnce(p: EarleyParser, tokens: seq<string>, k: nat, c: EarleyState)
    requires p.NoEpsilonReached() && Item(p, tokens, k, c) && c.startPos == k
    ensures !p.IsComplete(c)
  {
    hide Derives, Viable, EarleyParser.Productions, RewritesAt, Rewrites;
    var g, rule := p.Productions(), p.rules[c.ruleIdx];
    var reach :| p.startSymbol in reach && ClosedUnder(g, reach) && Nonempty(g, reach);
    var prefix := Terms(tokens[..k]);
    ViableWithin(p, reach, prefix + [NonTerminal(rule.lhs)]);
    assert (prefix + [NonTerminal(rule.lhs)])[|prefix|] == NonTerminal(rule.lhs);
    RuleInGrammar(p, c.ruleIdx);
    assert Production(rule.lhs, rule.rhs) in g;
    DerivesNothing(g, reach, rule.rhs[..c.dotPos]) by {
      assert Terms(tokens[k..k]) == [];
    }
  }

  lemma DerivesNothing(g: set<Production>, reach: set<string>, u: Form)
    requires ClosedUnder(g, reach) && Nonempty(g, reach) && Within(u, reach) && Derives(g, u, [])
    ensures u == []
  {
    var n: nat :| DerivesIn(g, u, [], n);
    ReachGrows(g, reach, u, [], n);
  }

  lemma UnreachedNullClosed(p: EarleyParser, tokens: seq<string>)
    requires p.WellFormed() && p.NoEpsilonReached()
    ensures NullClosed(p, ChartFor(p, tokens))
  {
    var chart := ChartFor(p, tokens);
    ChartSound(p, tokens);
    hide Item, EarleyParser.NoEpsilonReached, EarleyParser.WellFormed, ChartFor;
    forall k: nat, c: EarleyState | k < |chart| && c in chart[k] && c.startPos == k ensures !p.IsComplete(c) {
      assert ListSound(p, tokens, k, chart[k]);
      NotCompletedAtOnce(p, tokens, k, c);
    }
  }

  /** Earley's theorem for this code: unless an epsilon rule can be reached, the chart is exact after any tokens. */
  lemma {:induction false} EarleyExactness(p: EarleyParser, tokens: seq<string>)
    requires p.WellFormed() && p.NoEpsilonReached()
    ensures Exact(p, tokens, ChartFor(p, tokens))
  {
    UnreachedNullClosed(p, tokens);
    ExactIffNullClosed(p, tokens);
  }

  // ----- The two answers

  /** A token is expected only if it continues the tokens read to the start of a sentential form. */
  lemma {:induction false} ExpectedSound(p: EarleyParser, tokens: seq<string>, t: string)
    requires p.WellFormed() && t in Expected(p, ChartFor(p, tokens)[|tokens|])
    ensures Viable(p, Terms(tokens + [t]))
  {
    var k := |tokens|;
    ChartSound(p, tokens);
    var list := ChartFor(p, tokens)[k];
    assert ListSound(p, tokens, k, list);
    hide ChartFor, ListsSound, Item, EarleyParser.WellFormed, EarleyParser.Productions, Viable;
    var s :| s in list && p.NextSymbol(s) == Some(Terminal(t));
    hide Expected, EarleyParser.NextSymbol;
    ItemNextViable(p, tokens, k, s, Terminal(t));
    assert tokens[..k] == tokens;
    TermsSnoc(tokens, t);
  }

  lemma TermsSnoc(tokens: seq<string>, t: string)
    ensures Terms(tokens + [t]) == Terms(tokens) + [Terminal(t)]
  {
    TermsConcat(tokens, [t]);
    assert Terms([t]) == [Terminal(t)];
  }

  /** Unless an epsilon rule can be reached the expected tokens are exactly those. */
  lemma {:induction false} ExpectedExact(p: EarleyParser, tokens: seq<string>, t: string)
    requires p.WellFormed() && p.NoEpsilonReached()
    ensures t in Expected(p, ChartFor(p, tokens)[|tokens|]) <==> Viable(p, Terms(tokens + [t]))
  {
    if Viable(p, Terms(tokens + [t])) {
      ClosedUnlessReached(p, tokens);
      TermsSnoc(tokens, t);
      assert tokens[..|tokens|] == tokens;
      var w := Foreseen(p, tokens, ChartFor(p, tokens), |tokens|, Terminal(t));
    }
    if t in Expected(p, ChartFor(p, tokens)[|tokens|]) {
      ExpectedSound(p, tokens, t);
    }
  }

  lemma {:induction false} ClosedUnlessReached(p: EarleyParser, tokens: seq<string>)
    requires p.WellFormed() && p.NoEpsilonReached()
    ensures Closed(p, tokens, ChartFor(p, tokens))
  {
    ChartClosed(p, tokens);
    UnreachedNullClosed(p, tokens);
  }

  /** Stopping is offered only on a sentence of the grammar. */
  lemma {:induction false} CanStopSound(p: EarleyParser, tokens: seq<string>)
    requires p.WellFormed() && CanStop(p, ChartFor(p, tokens)[|tokens|])
    ensures Derives(p.Productions(), [NonTerminal(p.startSymbol)], Terms(tokens))
  {
    var k := |tokens|;
    ChartSound(p, tokens);
    hide ChartFor, Item, EarleyParser.WellFormed, EarleyParser.Productions, Derives;
    var s :| s in ChartFor(p, tokens)[k] && p.IsComplete(s)
             && p.rules[s.ruleIdx].lhs == p.startSymbol && s.startPos == 0;
    assert ListSound(p, tokens, k, ChartFor(p, tokens)[k]);
    CompleteItemDerives(p, tokens, k, s);
    assert tokens[0..k] == tokens;
  }

  lemma CompleteItemDerives(p: EarleyParser, tokens: seq<string>, k: nat, s: EarleyState)
    requires Item(p, tokens, k, s) && p.IsComplete(s)
    ensures Derives(p.Productions(), [NonTerminal(p.rules[s.ruleIdx].lhs)], Terms(tokens[s.startPos..k]))
  {
    hide EarleyParser.Productions, Derives;
    var rule := p.rules[s.ruleIdx];
    assert rule.rhs[..s.dotPos] == rule.rhs;
    RuleInGrammar(p, s.ruleIdx);
    DerivesByRule(p.Productions(), Production(rule.lhs, rule.rhs), Terms(tokens[s.startPos..k]));
  }

  lemma CanStopComplete(p: EarleyParser, tokens: seq<string>, chart: seq<seq<EarleyState>>)
    requires p.WellFormed() && Closed(p, tokens, chart)
    requires Derives(p.Productions(), [NonTerminal(p.startSymbol)], Terms(tokens))
    ensures CanStop(p, chart[|tokens|])
  {
    hide EarleyParser.Productions;
    var g := p.Productions();
    var n: nat :| DerivesIn(g, [NonTerminal(p.startSymbol)], Terms(tokens), n);
    NeedsStep(g, p.startSymbol, tokens, n);
    var q := FirstRule(g, p.startSymbol, Terms(tokens), n);
    var r := StartRule(p, tokens, chart, q);
    assert tokens[0..|tokens|] == tokens;
    DotMoves(p, tokens, chart, EarleyState(r, 0, 0), |q.rhs|, 0, |tokens|, n - 1);
    assert p.IsComplete(EarleyState(r, |q.rhs|, 0));
  }

  /** Unless an epsilon rule can be reached stopping is offered on every sentence of the grammar. */
  lemma CanStopExact(p: EarleyParser, tokens: seq<string>)
    requires p.WellFormed() && p.NoEpsilonReached()
    ensures CanStop(p, ChartFor(p, tokens)[|tokens|])
       <==> Derives(p.Productions(), [NonTerminal(p.startSymbol)], Terms(tokens))
  {
    hide Derives, CanStop;
    var chart := ChartFor(p, tokens);
    if Derives(p.Productions(), [NonTerminal(p.startSymbol)], Terms(tokens)) {
      ClosedUnlessReached(p, tokens);
      CanStopComplete(p, tokens, chart);
    }
    if CanStop(p, chart[|tokens|]) {
      CanStopSound(p, tokens);
    }
  }

  // ----- Why epsilon rules in reach are excluded

  /** S -> A A 'x' and A -> (nothing). */
  function TwiceNullable(): EarleyParser {
    var a := NonTerminal("A");
    EarleyParser("S", map["S" := [0], "A" := [1]], [Rule("S", [a, a, Terminal("x")], 1.0), Rule("A", [], 1.0)])
  }

  /** One turn of the work list at position 0. */
  lemma FirstListStep(p: EarleyParser, cur: seq<EarleyState>, idx: nat, next: seq<EarleyState>)
    requires p.WellFormed() && p.AllInRange(0, cur) && NoDuplicates(cur) && idx < |cur|
    requires next == PushAll(cur, Candidates(p, [], cur, cur[idx]))
    ensures p.AllInRange(0, next) && NoDuplicates(next)
    ensures Saturate(p, [], cur, idx) == Saturate(p, [], next, idx + 1)
  {
    CandidatesInRange(p, [], cur, cur[idx]);
  }

  lemma PushOne(list: seq<EarleyState>, s: EarleyState)
    ensures PushAll(list, [s]) == if s in list then list else list + [s]
  {
    PushAllSnoc(list, [], s);
    assert [] + [s] == [s];
  }

  lemma TwiceNullableWellFormed()
    ensures TwiceNullable().WellFormed()
    ensures TwiceNullable().RulesFor("S") == [0] && TwiceNullable().RulesFor("A") == [1]
  {
  }

  lemma PredictOne(r: nat)
    ensures Predictions([r], 0) == [EarleyState(r, 0, 0)]
  {
  }

  /** Predicting the two names. */
  lemma TwiceNullablePredicts(cur: seq<EarleyState>)
    ensures var p, s0, a, s1 := TwiceNullable(), EarleyState(0, 0, 0), EarleyState(1, 0, 0), EarleyState(0, 1, 0);
            && Initial(p) == [s0]
            && Candidates(p, [], cur, s0) == [a]
            && Candidates(p, [], cur, s1) == [a]
  {
    var p, s0, a, s1 := TwiceNullable(), EarleyState(0, 0, 0), EarleyState(1, 0, 0), EarleyState(0, 1, 0);
    TwiceNullableWellFormed();
    assert p.startSymbol == "S" && p.NextSymbol(s0) == p.NextSymbol(s1) == Some(NonTerminal("A"));
    PredictOne(0);
    PredictOne(1);
    PushOne([], s0);
    hide TwiceNullable, EarleyParser.NextSymbol, EarleyParser.RulesFor, PushAll, Predictions;
  }

  /** Completing the empty rule, which moves the one state that waits. */
  lemma TwiceNullableCompletes()
    ensures var p, s0, a, s1 := TwiceNullable(), EarleyState(0, 0, 0), EarleyState(1, 0, 0), EarleyState(0, 1, 0);
            Candidates(p, [], [s0, a], a) == [s1]
  {
    var p, nt := TwiceNullable(), NonTerminal("A");
    var s0, a := EarleyState(0, 0, 0), EarleyState(1, 0, 0);
    assert p.NextSymbol(s0) == Some(nt) && p.NextSymbol(a) == None && Advanced(s0) == EarleyState(0, 1, 0);
    MovedTwo(p, nt, s0, a);
    hide Moved;
  }

  lemma MovedTwo(p: EarleyParser, sym: Symbol, s: EarleyState, t: EarleyState)
    requires p.NextSymbol(s) == Some(sym) && p.NextSymbol(t) != Some(sym)
    ensures Moved(p, sym, [s, t]) == [Advanced(s)]
  {
    MovedSnoc(p, sym, [], s);
    MovedSnoc(p, sym, [s], t);
    assert [] + [s] == [s] && [s] + [t] == [s, t];
  }

  lemma TwiceNullableChart()
    ensures TwiceNullable().WellFormed()
    ensures ChartFor(TwiceNullable(), [])[0] == [EarleyState(0, 0, 0), EarleyState(1, 0, 0), EarleyState(0, 1, 0)]
  {
    hide EarleyParser.WellFormed, PushAll, Candidates, Initial;
    TwiceNullableWellFormed();
    var p := TwiceNullable();
    var s0, a, s1 := EarleyState(0, 0, 0), EarleyState(1, 0, 0), EarleyState(0, 1, 0);
    var two, three := [s0, a], [s0, a, s1];
    TwiceNullablePredicts([s0]);
    PushOne([s0], a);
    FirstListStep(p, [s0], 0, two);
    TwiceNullableCompletes();
    PushOne(two, s1);
    FirstListStep(p, two, 1, three);
    TwiceNullablePredicts(three);
    PushOne(three, a);
    FirstListStep(p, three, 2, three);
  }

  lemma TwiceNullableDerives()
    ensures Derives(TwiceNullable().Productions(), [NonTerminal("S")], Terms(["x"]))
  {
    hide EarleyParser.Productions, Derives;
    var p := TwiceNullable();
    var g, a, x := p.Productions(), NonTerminal("A"), Terminal("x");
    RuleInGrammar(p, 0);
    RuleInGrammar(p, 1);
    DerivesRefl(g, []);
    DerivesByRule(g, Production("A", []), []);
    DerivesRefl(g, [x]);
    DerivesConcat(g, [a], [], [x], [x]);
    DerivesConcat(g, [a], [], [a] + [x], [] + [x]);
    assert [a] + ([a] + [x]) == [a, a, x] && [] + ([] + [x]) == [x];
    assert Terms(["x"]) == [x];
    DerivesByRule(g, Production("S", [a, a, x]), [x]);
  }

  /** With epsilon rules a token that may follow can be refused: here 'x', the only sentence there is. */
  lemma {:induction false} EpsilonRulesLoseTokens()
    ensures var p := TwiceNullable();
            && p.WellFormed()
            && "x" !in Expected(p, ChartFor(p, [])[0])
            && Derives(p.Productions(), [NonTerminal("S")], Terms(["x"]))
  {
    TwiceNullableChart();
    TwiceNullableDerives();
  }
}
