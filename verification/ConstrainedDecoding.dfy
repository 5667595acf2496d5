/**
 The mutable recogniser of src/code/constrained_decoding.rs: a chart that grows in
 place, a position and a cache.  Its chart is at all times the one EarleyItems.dfy
 defines for the tokens accepted so far.
 */
module ConstrainedDecoding {
  import opened Wrappers
  import opened Grammar
  import opened EarleyItems
  import opened EarleySoundness
  import opened EarleyAnswers
  import opened EarleyWorkList
  import opened Pcfg

  /** `EarleyParser::new`: the rules in whatever order the hash map yields them. */
  method ParserFor(grammar: WeightedCFG) returns (p: EarleyParser)
    ensures p.WellFormed() && p.startSymbol == grammar.startSymbol
    ensures p.Productions() == grammar.rules.Keys && |p.rules| == |grammar.rules|
    ensures forall r :: r in p.rules ==> Production(r.lhs, r.rhs) in grammar.rules
                                         && r.weight == grammar.rules[Production(r.lhs, r.rhs)]
  {
    hide EarleyParser.WellFormed, EarleyParser.Productions;
    p := EarleyParser(grammar.startSymbol, map[], []);
    EmptyParser(grammar.startSymbol);
    var todo := grammar.rules.Keys;
    while todo != {}
      invariant todo <= grammar.rules.Keys && p.WellFormed() && p.startSymbol == grammar.startSymbol
      invariant p.Productions() == grammar.rules.Keys - todo && |p.rules| == |grammar.rules| - |todo|
      invariant forall r :: r in p.rules ==> Production(r.lhs, r.rhs) in grammar.rules
                                             && r.weight == grammar.rules[Production(r.lhs, r.rhs)]
      decreases |todo|
    {
      var q :| q in todo;
      var rule := Rule(q.lhs, q.rhs, grammar.rules[q]);
      AppendedFacts(p, rule);
      p := Appended(p, rule);
      todo := todo - {q};
    }
  }

  lemma EmptyParser(start: string)
    ensures EarleyParser(start, map[], []).WellFormed() && EarleyParser(start, map[], []).Productions() == {}
  {
  }

  function Appended(p: EarleyParser, rule: Rule): EarleyParser {
    p.(rulesByLhs := p.rulesByLhs[rule.lhs := p.RulesFor(rule.lhs) + [|p.rules|]], rules := p.rules + [rule])
  }

  lemma AppendedFacts(p: EarleyParser, rule: Rule)
    requires p.WellFormed()
    ensures Appended(p, rule).WellFormed()
    ensures Appended(p, rule).Productions() == p.Productions() + {Production(rule.lhs, rule.rhs)}
  {
    var more := Appended(p, rule);
    forall nt, i | 0 <= i < |more.RulesFor(nt)|
      ensures more.RulesFor(nt)[i] < |more.rules| && more.rules[more.RulesFor(nt)[i]].lhs == nt
    {
      if i < |p.RulesFor(nt)| { assert more.RulesFor(nt)[i] == p.RulesFor(nt)[i]; }
    }
    forall r | 0 <= r < |more.rules| ensures r in more.RulesFor(more.rules[r].lhs) {
      if r < |p.rules| { assert r in p.RulesFor(p.rules[r].lhs); }
    }
    forall q | q in p.Productions() + {Production(rule.lhs, rule.rhs)} ensures q in more.Productions() {
      if q in p.Productions() {
        var r :| 0 <= r < |p.rules| && q == Production(p.rules[r].lhs, p.rules[r].rhs);
        assert more.rules[r] == p.rules[r];
      } else {
        assert more.rules[|p.rules|] == rule;
      }
    }
  }

  datatype ConstrainedDecodingConfig = ConstrainedDecodingConfig(maxLookahead: nat, cacheStates: bool)

  class EarleyChart {
    var states: seq<seq<EarleyState>>
    var seen: seq<set<EarleyState>>

    /** `seen` mirrors the duplicate-free lists. */
    ghost predicate Valid()
      reads this
    {
      && |states| == |seen|
      && forall i :: 0 <= i < |states| ==>
           NoDuplicates(states[i]) && forall s :: s in seen[i] <==> s in states[i]
    }

    constructor (size: nat)
      ensures Valid()
      ensures |states| == size + 1 && forall i :: 0 <= i <= size ==> states[i] == []
    {
      states := seq(size + 1, _ => []);
      seen := seq(size + 1, _ => {});
    }

    method Add(pos: nat, state: EarleyState) returns (added: bool)
      requires Valid()
      modifies this
      ensures Valid()
      ensures added <==> pos < |old(states)| && state !in old(states)[pos]
      ensures states == if pos < |old(states)| then old(states)[pos := Push(old(states)[pos], state)] else old(states)
    {
      if pos < |states| {
        if state !in seen[pos] {
          seen := seen[pos := seen[pos] + {state}];
          states := states[pos := states[pos] + [state]];
          added := true;
        } else {
          added := false;
        }
      } else {
        added := false;
      }
    }

    function StateCountAt(pos: nat): nat
      reads this
    {
      if pos < |states| then |states[pos]| else 0
    }
  }

  lemma PredictionsNone(rs: seq<nat>, pos: nat, list: seq<EarleyState>)
    ensures PushAll(list, Predictions(rs[..0], pos)) == list
  {
  }

  lemma PredictionsSnoc(rs: seq<nat>, pos: nat, i: nat)
    requires i < |rs|
    ensures Predictions(rs[..i + 1], pos) == Predictions(rs[..i], pos) + [EarleyState(rs[i], 0, pos)]
  {
  }

  lemma SaturateStep(p: EarleyParser, done: seq<seq<EarleyState>>, cur: seq<EarleyState>, idx: nat)
    requires p.WellFormed() && Ranged(p, done) && p.AllInRange(|done|, cur) && NoDuplicates(cur) && idx < |cur|
    ensures var next := PushAll(cur, Candidates(p, done, cur, cur[idx]));
            && p.AllInRange(|done|, next) && NoDuplicates(next) && cur <= next
            && Saturate(p, done, next, idx + 1) == Saturate(p, done, cur, idx)
            && |cur| <= |next| <= |Universe(p, |done|)|
  {
    CandidatesInRange(p, done, cur, cur[idx]);
    NoDuplicatesBound(PushAll(cur, Candidates(p, done, cur, cur[idx])), Universe(p, |done|));
  }

  lemma SaturateEnd(p: EarleyParser, done: seq<seq<EarleyState>>, cur: seq<EarleyState>)
    requires p.WellFormed() && Ranged(p, done) && p.AllInRange(|done|, cur) && NoDuplicates(cur)
    ensures Saturate(p, done, cur, |cur|) == cur
  {
  }

  /** Only the list at `pos` has changed, and finishing it from state `idx` on gives what was to be. */
  ghost predicate Completing(p: EarleyParser, before: seq<seq<EarleyState>>, pos: nat,
                             states: seq<seq<EarleyState>>, idx: nat)
  {
    && p.WellFormed() && pos < |before| == |states| && states == before[pos := states[pos]]
    && Ranged(p, before[..pos]) && p.AllInRange(pos, before[pos]) && NoDuplicates(before[pos])
    && p.AllInRange(pos, states[pos]) && NoDuplicates(states[pos]) && idx <= |states[pos]|
    && Saturate(p, before[..pos], states[pos], idx) == Saturate(p, before[..pos], before[pos], 0)
  }

  lemma NothingCompleted(p: EarleyParser, before: seq<seq<EarleyState>>, pos: nat)
    requires p.WellFormed() && pos < |before| && Ranged(p, before[..pos]) && p.AllInRange(pos, before[pos])
    requires NoDuplicates(before[pos])
    ensures Completing(p, before, pos, before, 0)
  {
    assert before == before[pos := before[pos]];
  }

  lemma CompletingStep(p: EarleyParser, before: seq<seq<EarleyState>>, pos: nat,
                       states: seq<seq<EarleyState>>, idx: nat)
    requires Completing(p, before, pos, states, idx) && idx < |states[pos]|
    ensures p.InRange(pos, states[pos][idx])
    ensures var next := PushAll(states[pos], Candidates(p, states[..pos], states[pos], states[pos][idx]));
            && Completing(p, before, pos, states[pos := next], idx + 1)
            && |states[pos]| <= |next| <= |Universe(p, pos)| && idx < |next|
  {
    assert states[..pos] == before[..pos];
    SaturateStep(p, before[..pos], states[pos], idx);
    var next := PushAll(states[pos], Candidates(p, states[..pos], states[pos], states[pos][idx]));
    assert states[pos := next] == before[pos := next];
    hide Saturate, Candidates, PushAll, Ranged, EarleyParser.WellFormed;
  }

  lemma AllCompleted(p: EarleyParser, before: seq<seq<EarleyState>>, pos: nat, states: seq<seq<EarleyState>>)
    requires pos < |states| && Completing(p, before, pos, states, |states[pos]|)
    ensures states == before[pos := Saturate(p, before[..pos], before[pos], 0)]
    ensures ComesAbout(p, before[..pos], before[pos], states[pos])
  {
    SaturateEnd(p, before[..pos], states[pos]);
    SaturateComesAbout(p, before[..pos], before[pos]);
    hide Saturate, ComesAbout, Ranged, EarleyParser.WellFormed;
  }

  /** Scanning into the empty next position leaves a list that is ready to be completed. */
  lemma {:induction false} ScannedReady(p: EarleyParser, tokens: seq<string>, token: string,
                                        lists: seq<seq<EarleyState>>)
    returns (mid: seq<seq<EarleyState>>)
    requires p.WellFormed() && |tokens| + 1 < |lists|
    requires lists[..|tokens| + 1] == ChartFor(p, tokens) && lists[|tokens| + 1] == []
    ensures var k := |tokens| + 1;
            && mid == lists[k := PushAll(lists[k], Moved(p, Terminal(token), lists[k - 1]))]
            && mid[..k] == ChartFor(p, tokens) && mid[k] == Scanned(p, ChartFor(p, tokens)[k - 1], token)
            && p.AllInRange(k, mid[k]) && NoDuplicates(mid[k])
  {
    var k := |tokens| + 1;
    mid := lists[k := PushAll(lists[k], Moved(p, Terminal(token), lists[k - 1]))];
    assert lists[k - 1] == lists[..k][k - 1];
    assert p.AllInRange(k - 1, lists[k - 1]);
    assert mid[..k] == lists[..k];
  }

  /** Completing that list gives the chart for one more token. */
  lemma CompletedChart(p: EarleyParser, tokens: seq<string>, token: string, mid: seq<seq<EarleyState>>)
    requires p.WellFormed() && |tokens| + 1 < |mid|
    requires mid[..|tokens| + 1] == ChartFor(p, tokens)
    requires mid[|tokens| + 1] == Scanned(p, ChartFor(p, tokens)[|tokens|], token)
    ensures var k := |tokens| + 1;
            mid[k := Saturate(p, mid[..k], mid[k], 0)][..k + 1] == ChartFor(p, tokens + [token])
  {
    ChartForSnoc(p, tokens, token);
  }

  lemma MovedNone(p: EarleyParser, sym: Symbol, list: seq<EarleyState>)
    ensures Moved(p, sym, []) == [] && PushAll(list, []) == list
  {
  }

  class GrammarConstraint {
    const parser: EarleyParser
    const config: ConstrainedDecodingConfig
    var chart: EarleyChart
    var position: nat
    var validTokensCache: Option<set<string>>
    /** The tokens accepted since the last reset. */
    ghost var consumed: seq<string>

    ghost predicate Valid()
      reads this, chart
    {
      && parser.WellFormed()
      && chart.Valid()
      && |chart.states| == 2 * config.maxLookahead + 1
      && position == |consumed| < |chart.states|
      && chart.states[..position + 1] == ChartFor(parser, consumed)
      && (forall i :: position < i < |chart.states| ==> chart.states[i] == [])
      && (validTokensCache.Some? ==> validTokensCache.value == Expected(parser, chart.states[position]))
    }

    constructor (grammar: WeightedCFG, config: ConstrainedDecodingConfig)
      ensures Valid() && fresh(chart)
      ensures parser.startSymbol == grammar.startSymbol && parser.Productions() == grammar.rules.Keys
      ensures this.config == config && consumed == []
    {
      var rules := ParserFor(grammar);
      parser := rules;
      this.config := config;
      chart := new EarleyChart(0);
      position := 0;
      validTokensCache := None;
      consumed := [];
      new;
      Initialize();
    }

    method Reset()
      requires Valid()
      modifies this
      ensures Valid() && fresh(chart)
      ensures consumed == []
    {
      hide EarleyParser.WellFormed, ChartFor, Expected;
      chart := new EarleyChart(0);
      position := 0;
      validTokensCache := None;
      consumed := [];
      Initialize();
    }

    /** A fresh chart whose position 0 is complete; position and cache stay as they are. */
    method Initialize()
      requires parser.WellFormed()
      modifies this
      ensures fresh(chart) && chart.Valid()
      ensures |chart.states| == 2 * config.maxLookahead + 1
      ensures chart.states[..1] == ChartFor(parser, [])
      ensures forall i :: 0 < i < |chart.states| ==> chart.states[i] == []
      ensures position == old(position) && validTokensCache == old(validTokensCache) && consumed == old(consumed)
    {
      chart := new EarleyChart(config.maxLookahead * 2);
      var start := parser.RulesFor(parser.startSymbol);
      for i := 0 to |start|
        invariant fresh(chart) && chart.Valid()
        invariant |chart.states| == 2 * config.maxLookahead + 1
        invariant chart.states[0] == PushAll([], Predictions(start[..i], 0))
        invariant forall j :: 0 < j < |chart.states| ==> chart.states[j] == []
        invariant position == old(position) && validTokensCache == old(validTokensCache) && consumed == old(consumed)
      {
        PredictionsSnoc(start, 0, i);
        PushAllSnoc([], Predictions(start[..i], 0), EarleyState(start[i], 0, 0));
        var _ := chart.Add(0, EarleyState(start[i], 0, 0));
      }
      assert start[..|start|] == start;
      assert chart.states[..0] == [];
      CompleteChart(0);
    }

    /** Prediction for one state: the loop over the rules of `nt`. */
    method Predict(pos: nat, nt: string)
      requires chart.Valid() && pos < |chart.states|
      modifies chart
      ensures chart.Valid()
      ensures chart.states
           == old(chart.states)[pos := PushAll(old(chart.states)[pos], Predictions(parser.RulesFor(nt), pos))]
    {
      var rs := parser.RulesFor(nt);
      ghost var before := chart.states;
      PredictionsNone(rs, pos, before[pos]);
      hide PushAll, Predictions;
      for i := 0 to |rs|
        invariant chart.Valid()
        invariant chart.states == before[pos := PushAll(before[pos], Predictions(rs[..i], pos))]
      {
        PredictionsSnoc(rs, pos, i);
        PushAllSnoc(before[pos], Predictions(rs[..i], pos), EarleyState(rs[i], 0, pos));
        var _ := chart.Add(pos, EarleyState(rs[i], 0, pos));
      }
      assert rs[..|rs|] == rs;
    }

    /** Moves the dot over `sym` for the states that position `from` holds on entry. */
    method MoveDots(from: nat, sym: Symbol, to: nat)
      requires chart.Valid() && from < |chart.states| && to < |chart.states|
      modifies chart
      ensures chart.Valid()
      ensures chart.states
           == old(chart.states)[to := PushAll(old(chart.states)[to], Moved(parser, sym, old(chart.states)[from]))]
    {
      hide Moved, PushAll;
      ghost var before := chart.states;
      ghost var waiting := before[from];
      MovedNone(parser, sym, before[to]);
      var count := chart.StateCountAt(from);
      for idx := 0 to count
        invariant chart.Valid()
        invariant chart.states == before[to := PushAll(before[to], Moved(parser, sym, waiting[..idx]))]
      {
        assert chart.states[from][idx] == waiting[idx];
        var w := chart.states[from][idx];
        assert waiting[..idx + 1] == waiting[..idx] + [w];
        MovedSnoc(parser, sym, waiting[..idx], w);
        if parser.NextSymbol(w) == Some(sym) {
          PushAllSnoc(before[to], Moved(parser, sym, waiting[..idx]), Advanced(w));
          var _ := chart.Add(to, Advanced(w));
        }
      }
      assert waiting[..count] == waiting;
    }

    /** One turn of the work list: prediction or completion for one state. */
    method ProcessState(pos: nat, s: EarleyState)
      requires chart.Valid() && pos < |chart.states| && parser.InRange(pos, s)
      modifies chart
      ensures chart.Valid()
      ensures var before := old(chart.states);
              chart.states == before[pos := PushAll(before[pos], Candidates(parser, before[..pos], before[pos], s))]
      ensures parser.WellFormed() ==>
                Grown(parser, old(chart.states)[..pos], old(chart.states)[pos], s, chart.states[pos])
    {
      hide Grown, EarleyParser.WellFormed;
      if parser.WellFormed() {
        PushedIsGrown(parser, chart.states[..pos], chart.states[pos], s);
      }
      match parser.NextSymbol(s) {
        case Some(NonTerminal(nt)) => Predict(pos, nt);
        case Some(Terminal(_)) =>
        case None =>
          assert chart.states[s.startPos] == ListAt(chart.states[..pos], chart.states[pos], s.startPos);
          MoveDots(s.startPos, NonTerminal(parser.rules[s.ruleIdx].lhs), pos);
      }
    }

    /** The work list: states are processed by index while new ones are appended behind them. */
    method CompleteChart(pos: nat)
      requires parser.WellFormed() && chart.Valid() && pos < |chart.states|
      requires Ranged(parser, chart.states[..pos]) && parser.AllInRange(pos, chart.states[pos])
      modifies chart
      ensures chart.Valid()
      ensures chart.states
           == old(chart.states)[pos := Saturate(parser, old(chart.states)[..pos], old(chart.states)[pos], 0)]
      ensures ComesAbout(parser, old(chart.states)[..pos], old(chart.states)[pos], chart.states[pos])
    {
      hide ComesAbout, Grown, Completing, Saturate, Candidates, PushAll, Ranged;
      hide EarleyParser.WellFormed, EarleyParser.AllInRange, EarleyParser.InRange;
      ghost var before := chart.states;
      var stateIdx := 0;
      NothingCompleted(parser, before, pos);
      while stateIdx < chart.StateCountAt(pos)
        invariant chart.Valid() && |chart.states| == |before| && stateIdx <= |chart.states[pos]|
        invariant Completing(parser, before, pos, chart.states, stateIdx)
        decreases |Universe(parser, pos)| - |chart.states[pos]|, |chart.states[pos]| - stateIdx
      {
        CompletingStep(parser, before, pos, chart.states, stateIdx);
        ProcessState(pos, chart.states[pos][stateIdx]);
        stateIdx := stateIdx + 1;
      }
      AllCompleted(parser, before, pos, chart.states);
    }

    /** Whether `token` may come next; exact unless the grammar reaches an epsilon rule. */
    method IsValidToken(token: string) returns (valid: bool)
      requires Valid()
      ensures valid <==> token in Expected(parser, chart.states[position])
      ensures valid ==> Viable(parser, Terms(consumed + [token]))
      ensures parser.NoEpsilonReached() ==> (valid <==> Viable(parser, Terms(consumed + [token])))
    {
      hide Viable, EarleyParser.NoEpsilonReached, EarleyParser.Productions, EarleyParser.WellFormed, ChartFor;
      if validTokensCache.Some? {
        valid := token in validTokensCache.value;
      } else {
        valid := false;
        var list := chart.states[position];
        for i := 0 to |list|
          invariant !valid && forall j :: 0 <= j < i ==> parser.NextSymbol(list[j]) != Some(Terminal(token))
        {
          if parser.NextSymbol(list[i]) == Some(Terminal(token)) {
            valid := true;
            break;
          }
        }
        assert valid <==> token in Expected(parser, list);
      }
      ExpectedMeaning(token);
    }

    /** The list at the current position is the last one of the chart for the tokens consumed. */
    lemma LastList()
      requires Valid()
      ensures position == |consumed| && |chart.states| == 2 * config.maxLookahead + 1
      ensures chart.states[position] == ChartFor(parser, consumed)[|consumed|]
    {
      assert chart.states[position] == chart.states[..position + 1][position];
    }

    lemma {:induction false} ExpectedMeaning(token: string)
      requires Valid()
      ensures token in Expected(parser, chart.states[position]) ==> Viable(parser, Terms(consumed + [token]))
      ensures parser.NoEpsilonReached() ==>
                (token in Expected(parser, chart.states[position]) <==> Viable(parser, Terms(consumed + [token])))
    {
      assert chart.states[position] == ChartFor(parser, consumed)[|consumed|];
      if token in Expected(parser, chart.states[position]) { ExpectedSound(parser, consumed, token); }
      if parser.NoEpsilonReached() { ExpectedExact(parser, consumed, token); }
    }

    /** All tokens that may come next, from the cache when there is one. */
    method ValidTokens() returns (valid: set<string>)
      requires Valid()
      modifies this`validTokensCache
      ensures Valid()
      ensures valid == Expected(parser, chart.states[position])
      ensures forall t :: t in valid ==> Viable(parser, Terms(consumed + [t]))
      ensures parser.NoEpsilonReached() ==> forall t :: t in valid <==> Viable(parser, Terms(consumed + [t]))
      ensures validTokensCache == if config.cacheStates then Some(valid) else old(validTokensCache)
    {
      if validTokensCache.Some? {
        valid := validTokensCache.value;
      } else {
        valid := {};
        var list := chart.states[position];
        for i := 0 to |list|
          invariant valid == Expected(parser, list[..i])
        {
          var next := parser.NextSymbol(list[i]);
          if next.Some? && next.value.Terminal? {
            valid := valid + {next.value.name};
          }
        }
        assert list[..|list|] == list;
        if config.cacheStates {
          validTokensCache := Some(valid);
        }
      }
      forall t
        ensures t in valid ==> Viable(parser, Terms(consumed + [t]))
        ensures parser.NoEpsilonReached() ==> (t in valid <==> Viable(parser, Terms(consumed + [t])))
      {
        ExpectedMeaning(t);
      }
    }

    /** Reads one token, or changes nothing. */
    method Advance(token: string) returns (ok: bool)
      requires Valid()
      modifies this, chart
      ensures Valid() && chart == old(chart)
      ensures ok <==> token in Expected(parser, old(chart.states)[old(position)])
                      && old(position) + 1 < |old(chart.states)|
      ensures parser.NoEpsilonReached() ==>
                (ok <==> Viable(parser, Terms(old(consumed) + [token])) && old(position) < 2 * config.maxLookahead)
      ensures ok ==> consumed == old(consumed) + [token]
      ensures ok ==> forall i :: 0 <= i <= old(position) ==> chart.states[i] == old(chart.states)[i]
      ensures !ok ==> unchanged(this) && unchanged(chart)
    {
      hide ChartFor, Saturate, PushAll, Moved, Scanned, Viable;
      hide EarleyParser.NoEpsilonReached, EarleyParser.Productions, EarleyParser.WellFormed;
      var valid := IsValidToken(token);
      if !valid {
        return false;
      }
      var currentPos := position;
      var nextPos := currentPos + 1;
      if nextPos >= |chart.states| {
        return false;
      }
      ghost var mid := ScannedReady(parser, consumed, token, chart.states);
      MoveDots(currentPos, Terminal(token), nextPos);
      CompletedChart(parser, consumed, token, mid);
      position := nextPos;
      validTokensCache := None;
      consumed := consumed + [token];
      CompleteChart(nextPos);
      return true;
    }

    /** Whether the tokens read are a sentence; exact unless the grammar reaches an epsilon rule. */
    method CanComplete() returns (complete: bool)
      requires Valid()
      ensures complete ==> Derives(parser.Productions(), [NonTerminal(parser.startSymbol)], Terms(consumed))
      ensures parser.NoEpsilonReached() ==>
                (complete <==> Derives(parser.Productions(), [NonTerminal(parser.startSymbol)], Terms(consumed)))
      ensures complete <==> CanStop(parser, chart.states[position])
    {
      complete := false;
      var list := chart.states[position];
      for i := 0 to |list|
        invariant !complete && !CanStop(parser, list[..i])
      {
        var s := list[i];
        if parser.IsComplete(s) && parser.rules[s.ruleIdx].lhs == parser.startSymbol && s.startPos == 0 {
          complete := true;
          break;
        }
      }
      assert list[..|list|] == list;
      assert list == ChartFor(parser, consumed)[|consumed|];
      if complete { CanStopSound(parser, consumed); }
      if parser.NoEpsilonReached() { CanStopExact(parser, consumed); }
    }
  }
}
