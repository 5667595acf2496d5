/**
 The Earley chart of src/code/constrained_decoding.rs as a function of the rules
 and the tokens consumed: which states each position holds, and in which order.
 The mutable recogniser of ConstrainedDecoding.dfy is proved to compute exactly
 these lists, in this order.
 */
module EarleyItems {
  import opened Wrappers
  import opened Grammar

  datatype Rule = Rule(lhs: string, rhs: seq<Symbol>, weight: real)

  datatype EarleyState = EarleyState(ruleIdx: nat, dotPos: nat, startPos: nat)

  /** The rules in the order in which the grammar's hash map yielded them, with their index. */
  datatype EarleyParser = EarleyParser(startSymbol: string, rulesByLhs: map<string, seq<nat>>, rules: seq<Rule>)
  {
    /** `rulesByLhs` lists, under each left side, exactly the rules that have it. */
    ghost predicate WellFormed() {
      && (forall nt, i :: 0 <= i < |RulesFor(nt)| ==> RulesFor(nt)[i] < |rules| && rules[RulesFor(nt)[i]].lhs == nt)
      && (forall r :: 0 <= r < |rules| ==> r in RulesFor(rules[r].lhs))
    }

    function RulesFor(nt: string): seq<nat> {
      if nt in rulesByLhs then rulesByLhs[nt] else []
    }

    ghost function Productions(): set<Production> {
      set r | 0 <= r < |rules| :: Production(rules[r].lhs, rules[r].rhs)
    }

    /** The rules with empty right sides, if any, are out of reach. */
    ghost predicate NoEpsilonReached() {
      EpsilonOutOfReach(Productions(), startSymbol)
    }

    /** The symbol after the dot, if there is one. */
    function NextSymbol(s: EarleyState): Option<Symbol> {
      if s.ruleIdx < |rules| && s.dotPos < |rules[s.ruleIdx].rhs|
      then Some(rules[s.ruleIdx].rhs[s.dotPos])
      else None
    }

    predicate IsComplete(s: EarleyState) {
      s.ruleIdx < |rules| && s.dotPos >= |rules[s.ruleIdx].rhs|
    }

    predicate InRange(pos: nat, s: EarleyState) {
      s.ruleIdx < |rules| && s.dotPos <= |rules[s.ruleIdx].rhs| && s.startPos <= pos
    }

    predicate AllInRange(pos: nat, list: seq<EarleyState>) {
      forall s :: s in list ==> InRange(pos, s)
    }
  }

  function Advanced(s: EarleyState): EarleyState {
    s.(dotPos := s.dotPos + 1)
  }

  // ----- Insertion without duplicates

  function Push(list: seq<EarleyState>, s: EarleyState): seq<EarleyState> {
    if s in list then list else list + [s]
  }

  predicate NoDuplicates(list: seq<EarleyState>) {
    forall i, j :: 0 <= i < j < |list| ==> list[i] != list[j]
  }

  function PushAll(list: seq<EarleyState>, cands: seq<EarleyState>): (r: seq<EarleyState>)
    ensures list <= r
    ensures NoDuplicates(list) ==> NoDuplicates(r)
    ensures forall s :: s in r <==> s in list || s in cands
  {
    if cands == [] then list
    else
      var init := cands[..|cands| - 1];
      assert cands == init + [cands[|cands| - 1]];
      Push(PushAll(list, init), cands[|cands| - 1])
  }

  lemma PushAllSnoc(list: seq<EarleyState>, cands: seq<EarleyState>, s: EarleyState)
    ensures PushAll(list, cands + [s]) == Push(PushAll(list, cands), s)
  {
    assert (cands + [s])[..|cands|] == cands;
  }

  // ----- Candidates produced by processing one state

  /** Prediction: the rules `rs` with the dot in front, starting here. */
  function Predictions(rs: seq<nat>, pos: nat): (c: seq<EarleyState>)
    ensures |c| == |rs|
    ensures forall s :: s in c <==> s.dotPos == 0 && s.startPos == pos && s.ruleIdx in rs
  {
    var c := seq(|rs|, i requires 0 <= i < |rs| => EarleyState(rs[i], 0, pos));
    assert forall i :: 0 <= i < |rs| ==> c[i].ruleIdx == rs[i];
    c
  }

  /** The states of `list` whose next symbol is `sym`, each with its dot moved over it. */
  function Moved(p: EarleyParser, sym: Symbol, list: seq<EarleyState>): (c: seq<EarleyState>)
    ensures forall s :: s in c <==> exists w :: w in list && p.NextSymbol(w) == Some(sym) && s == Advanced(w)
  {
    if list == [] then []
    else
      var init, last := list[..|list| - 1], list[|list| - 1];
      assert list == init + [last];
      if p.NextSymbol(last) == Some(sym) then Moved(p, sym, init) + [Advanced(last)] else Moved(p, sym, init)
  }

  lemma MovedSnoc(p: EarleyParser, sym: Symbol, list: seq<EarleyState>, w: EarleyState)
    ensures Moved(p, sym, list + [w])
         == if p.NextSymbol(w) == Some(sym) then Moved(p, sym, list) + [Advanced(w)] else Moved(p, sym, list)
  {
    assert (list + [w])[..|list|] == list;
  }

  /** The list at position `i` while position `|done|` is being filled with `cur`. */
  function ListAt(done: seq<seq<EarleyState>>, cur: seq<EarleyState>, i: nat): seq<EarleyState> {
    if i < |done| then done[i] else if i == |done| then cur else []
  }

  /** What `complete_chart` tries to add when it processes state `s`. */
  function Candidates(p: EarleyParser, done: seq<seq<EarleyState>>, cur: seq<EarleyState>, s: EarleyState)
    : seq<EarleyState>
  {
    match p.NextSymbol(s)
    case Some(NonTerminal(nt)) => Predictions(p.RulesFor(nt), |done|)
    case Some(Terminal(_)) => []
    case None =>
      if p.IsComplete(s)
      then Moved(p, NonTerminal(p.rules[s.ruleIdx].lhs), ListAt(done, cur, s.startPos))
      else []
  }

  // ----- The work list reaches a fixed point

  /** Every state a list at position `pos` can hold. */
  ghost function Universe(p: EarleyParser, pos: nat): (u: set<EarleyState>)
    ensures forall s :: s in u <==> p.InRange(pos, s)
  {
    set r: nat, d: nat, i: nat | r < |p.rules| && d <= |p.rules[r].rhs| && i <= pos :: EarleyState(r, d, i)
  }

  lemma {:induction false} NoDuplicatesBound(list: seq<EarleyState>, u: set<EarleyState>)
    requires NoDuplicates(list) && forall s :: s in list ==> s in u
    ensures |list| <= |u|
  {
    if list != [] {
      var init, last := list[..|list| - 1], list[|list| - 1];
      forall s | s in init ensures s in u - {last} { }
      NoDuplicatesBound(init, u - {last});
    }
  }

  ghost predicate Ranged(p: EarleyParser, done: seq<seq<EarleyState>>) {
    forall i :: 0 <= i < |done| ==> p.AllInRange(i, done[i])
  }

  lemma CandidatesInRange(p: EarleyParser, done: seq<seq<EarleyState>>, cur: seq<EarleyState>, s: EarleyState)
    requires p.WellFormed() && Ranged(p, done) && p.AllInRange(|done|, cur)
    ensures p.AllInRange(|done|, Candidates(p, done, cur, s))
  {
    if p.IsComplete(s) {
      var list := ListAt(done, cur, s.startPos);
      assert forall w :: w in list ==> p.InRange(|done|, w);
    }
  }

  /** The list at position `|done|` once every state from index `idx` on has been processed. */
  ghost function Saturate(p: EarleyParser, done: seq<seq<EarleyState>>, cur: seq<EarleyState>, idx: nat)
    : (r: seq<EarleyState>)
    requires p.WellFormed() && Ranged(p, done) && p.AllInRange(|done|, cur)
    requires NoDuplicates(cur) && idx <= |cur|
    ensures cur <= r && NoDuplicates(r) && p.AllInRange(|done|, r)
    decreases |Universe(p, |done|)| - |cur|, |cur| - idx
  {
    NoDuplicatesBound(cur, Universe(p, |done|));
    if idx == |cur| then cur
    else
      CandidatesInRange(p, done, cur, cur[idx]);
      var next := PushAll(cur, Candidates(p, done, cur, cur[idx]));
      NoDuplicatesBound(next, Universe(p, |done|));
      Saturate(p, done, next, idx + 1)
  }

  // ----- The chart

  function Initial(p: EarleyParser): seq<EarleyState> {
    PushAll([], Predictions(p.RulesFor(p.startSymbol), 0))
  }

  /** The states carried over by reading `token` after a position holding `list`. */
  function Scanned(p: EarleyParser, list: seq<EarleyState>, token: string): seq<EarleyState> {
    PushAll([], Moved(p, Terminal(token), list))
  }

  /** The chart after `tokens`: one list for each of the positions 0 .. |tokens|. */
  ghost function ChartFor(p: EarleyParser, tokens: seq<string>): (c: seq<seq<EarleyState>>)
    requires p.WellFormed()
    ensures |c| == |tokens| + 1 && Ranged(p, c)
    ensures forall i :: 0 <= i < |c| ==> NoDuplicates(c[i])
  {
    if tokens == [] then [Saturate(p, [], Initial(p), 0)]
    else
      var n := |tokens| - 1;
      var prev := ChartFor(p, tokens[..n]);
      prev + [Saturate(p, prev, Scanned(p, prev[n], tokens[n]), 0)]
  }

  /** One more token appends one list and leaves the others as they were. */
  lemma ChartForSnoc(p: EarleyParser, tokens: seq<string>, token: string)
    requires p.WellFormed()
    ensures var prev := ChartFor(p, tokens);
            ChartFor(p, tokens + [token]) == prev + [Saturate(p, prev, Scanned(p, prev[|tokens|], token), 0)]
  {
    assert (tokens + [token])[..|tokens|] == tokens;
  }

  // ----- What a list of states lets the caller do

  /** The terminals that some state of `list` waits for. */
  function Expected(p: EarleyParser, list: seq<EarleyState>): (e: set<string>)
    ensures forall t :: t in e <==> exists s :: s in list && p.NextSymbol(s) == Some(Terminal(t))
  {
    set s | s in list && p.NextSymbol(s).Some? && p.NextSymbol(s).value.Terminal? :: p.NextSymbol(s).value.name
  }

  predicate CanStop(p: EarleyParser, list: seq<EarleyState>) {
    exists s :: s in list && p.IsComplete(s) && p.rules[s.ruleIdx].lhs == p.startSymbol && s.startPos == 0
  }
}
