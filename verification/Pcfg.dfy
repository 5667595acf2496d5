/**
 Weighted grammars and their training, src/code/pcfg.rs, with weights as reals.
 A hash map is a `map`; every loop over one visits the keys in an arbitrary order.
 */
module Pcfg {
  import opened Grammar

  // ----- Sums of weights

  ghost function SumOver(weights: map<Production, real>, s: set<Production>): real
    requires s <= weights.Keys
  {
    if s == {} then 0.0
    else
      var p :| p in s;
      weights[p] + SumOver(weights, s - {p})
  }

  /** Any element may be taken out of the sum first. */
  lemma {:induction false} SumTake(weights: map<Production, real>, s: set<Production>, p: Production)
    requires s <= weights.Keys && p in s
    ensures SumOver(weights, s) == weights[p] + SumOver(weights, s - {p})
    decreases |s|
  {
    var q :| q in s && SumOver(weights, s) == weights[q] + SumOver(weights, s - {q});
    if q != p {
      SumTake(weights, s - {q}, p);
      SumTake(weights, s - {p}, q);
      assert s - {q} - {p} == s - {p} - {q};
    }
  }

  /** If one map's weights are those of another divided by `d`, so is their sum. */
  lemma {:induction false} SumScaled(a: map<Production, real>, b: map<Production, real>, s: set<Production>, d: real)
    requires s <= a.Keys && s <= b.Keys && d != 0.0
    requires forall p :: p in s ==> a[p] == b[p] / d
    ensures SumOver(a, s) == SumOver(b, s) / d
    decreases |s|
  {
    if s != {} {
      var p :| p in s;
      SumTake(a, s, p);
      SumTake(b, s, p);
      SumScaled(a, b, s - {p}, d);
      DivideSum(b[p], SumOver(b, s - {p}), d);
    }
  }

  lemma DivideSum(x: real, y: real, d: real)
    requires d != 0.0
    ensures (x + y) / d == x / d + y / d
  {
  }

  ghost function WithLhs(weights: map<Production, real>, lhs: string): set<Production> {
    set p | p in weights && p.lhs == lhs
  }

  /** The merged weight of all rules for `lhs`. */
  ghost function Total(weights: map<Production, real>, lhs: string): real {
    SumOver(weights, WithLhs(weights, lhs))
  }

  function Weight(weights: map<Production, real>, p: Production): real {
    if p in weights then weights[p] else 0.0
  }

  function Probability(weights: map<Production, real>, totals: map<string, real>, p: Production): real {
    var total := if p.lhs in totals then totals[p.lhs] else 1.0;
    if total > 0.0 then Weight(weights, p) / total else 0.0
  }

  /** Adding weight to one production adds it to its left side's total and to no other. */
  lemma TotalAfterAdd(weights: map<Production, real>, p: Production, w: real, lhs: string)
    ensures var after := weights[p := Weight(weights, p) + w];
            Total(after, lhs) == Total(weights, lhs) + (if lhs == p.lhs then w else 0.0)
  {
    var after := weights[p := Weight(weights, p) + w];
    if lhs == p.lhs {
      TotalWith(after, p);
      OthersSame(weights, after, p, lhs);
      if p in weights { TotalWith(weights, p); }
    } else {
      OthersSame(weights, after, p, lhs);
    }
    hide SumOver;
  }

  /** The total for a left side is one rule's weight and that of the others. */
  lemma TotalWith(weights: map<Production, real>, p: Production)
    requires p in weights
    ensures Total(weights, p.lhs) == weights[p] + SumOver(weights, WithLhs(weights, p.lhs) - {p})
  {
    SumTake(weights, WithLhs(weights, p.lhs), p);
  }

  lemma OthersSame(weights: map<Production, real>, after: map<Production, real>, p: Production, lhs: string)
    requires after.Keys == weights.Keys + {p} && forall q :: q in weights && q != p ==> after[q] == weights[q]
    ensures SumOver(after, WithLhs(after, lhs) - {p}) == SumOver(weights, WithLhs(weights, lhs) - {p})
    ensures p !in weights || lhs != p.lhs ==> WithLhs(weights, lhs) - {p} == WithLhs(weights, lhs)
    ensures lhs != p.lhs ==> WithLhs(after, lhs) == WithLhs(after, lhs) - {p}
  {
    assert WithLhs(after, lhs) - {p} == WithLhs(weights, lhs) - {p};
    SumSame(after, weights, WithLhs(weights, lhs) - {p});
  }

  lemma {:induction false} SumSame(a: map<Production, real>, b: map<Production, real>, s: set<Production>)
    requires s <= a.Keys && s <= b.Keys && forall p :: p in s ==> a[p] == b[p]
    ensures SumOver(a, s) == SumOver(b, s)
    decreases |s|
  {
    if s != {} {
      var p :| p in s;
      SumTake(a, s, p);
      SumTake(b, s, p);
      SumSame(a, b, s - {p});
    }
  }

  lemma DividedByItself(d: real)
    requires d != 0.0
    ensures d / d == 1.0
  {
  }

  /** The probabilities of the rules for one left side sum to one if its total is positive, and to nothing if not. */
  lemma ProbabilitiesSum(weights: map<Production, real>, totals: map<string, real>,
                         probs: map<Production, real>, lhs: string)
    requires lhs in totals && totals[lhs] == Total(weights, lhs)
    requires probs.Keys == weights.Keys
    requires forall p :: p in weights ==> probs[p] == Probability(weights, totals, p)
    ensures Total(probs, lhs) == if totals[lhs] > 0.0 then 1.0 else 0.0
  {
    var d, s := totals[lhs], WithLhs(weights, lhs);
    assert WithLhs(probs, lhs) == s;
    if d > 0.0 {
      forall p | p in s ensures probs[p] == weights[p] / d { }
      SumScaled(probs, weights, s, d);
      DividedByItself(d);
    } else {
      SumOfZeros(probs, s);
    }
  }

  lemma {:induction false} SumOfZeros(weights: map<Production, real>, s: set<Production>)
    requires s <= weights.Keys && forall p :: p in s ==> weights[p] == 0.0
    ensures SumOver(weights, s) == 0.0
    decreases |s|
  {
    if s != {} {
      var p :| p in s;
      SumTake(weights, s, p);
      SumOfZeros(weights, s - {p});
    }
  }

  // ----- The index by left side

  function ListWeight(list: seq<(Production, real)>): real {
    if list == [] then 0.0 else ListWeight(list[..|list| - 1]) + list[|list| - 1].1
  }

  lemma ListWeightSnoc(list: seq<(Production, real)>, e: (Production, real))
    ensures ListWeight(list + [e]) == ListWeight(list) + e.1
  {
    assert (list + [e])[..|list|] == list;
  }

  /** What the list holds of one production, added up. */
  function WeightIn(list: seq<(Production, real)>, p: Production): real {
    if list == [] then 0.0
    else WeightIn(list[..|list| - 1], p) + if list[|list| - 1].0 == p then list[|list| - 1].1 else 0.0
  }

  lemma WeightInSnoc(list: seq<(Production, real)>, e: (Production, real), p: Production)
    ensures WeightIn(list + [e], p) == WeightIn(list, p) + if e.0 == p then e.1 else 0.0
    ensures WeightIn([], p) == 0.0
  {
    assert (list + [e])[..|list|] == list;
  }

  /** The index lists rules under their left sides, and what it lists of a rule adds up to its merged weight. */
  ghost predicate Indexed(rules: map<Production, real>, index: map<string, seq<(Production, real)>>) {
    && (forall lhs, e :: lhs in index && e in index[lhs] ==> e.0 in rules && e.0.lhs == lhs)
    && (forall p :: p in rules ==> p.lhs in index && WeightIn(index[p.lhs], p) == rules[p])
  }

  lemma IndexedAfterAdd(rules: map<Production, real>, index: map<string, seq<(Production, real)>>,
                        p: Production, w: real)
    requires Indexed(rules, index)
    ensures Indexed(rules[p := Weight(rules, p) + w],
                    index[p.lhs := (if p.lhs in index then index[p.lhs] else []) + [(p, w)]])
  {
    var list := if p.lhs in index then index[p.lhs] else [];
    forall q ensures WeightIn(list + [(p, w)], q) == WeightIn(list, q) + if q == p then w else 0.0 {
      WeightInSnoc(list, (p, w), q);
    }
    if p !in rules {
      NotListed(list, p);
    }
  }

  lemma {:induction false} NotListed(list: seq<(Production, real)>, p: Production)
    requires forall e :: e in list ==> e.0 != p
    ensures WeightIn(list, p) == 0.0
  {
    if list != [] {
      NotListed(list[..|list| - 1], p);
    }
  }

  lemma IndexedByRebuilding(rules: map<Production, real>, index: map<string, seq<(Production, real)>>)
    requires IndexOf(rules, index, {})
    ensures Indexed(rules, index)
  {
    forall lhs, e | lhs in index && e in index[lhs] ensures e.0 in rules && e.0.lhs == lhs {
      assert e in multiset(index[lhs]);
      assert e in Entries(rules, WithLhs(rules, lhs) - {});
    }
    forall p | p in rules ensures p.lhs in index && WeightIn(index[p.lhs], p) == rules[p] {
      assert Lists(rules, index[p.lhs], WithLhs(rules, p.lhs) - {});
    }
  }

  function Lefts(rules: map<Production, real>): set<string> {
    set p | p in rules :: p.lhs
  }

  /** Conservation: each left side's stored total is the weight of its rules, merged or as listed. */
  ghost predicate Balanced(rules: map<Production, real>, index: map<string, seq<(Production, real)>>,
                           totals: map<string, real>)
  {
    && totals.Keys == index.Keys == Lefts(rules)
    && (forall lhs :: lhs in totals ==> totals[lhs] == Total(rules, lhs) == ListWeight(index[lhs]))
  }

  lemma BalancedAfterAdd(rules: map<Production, real>, index: map<string, seq<(Production, real)>>,
                         totals: map<string, real>, p: Production, w: real)
    requires Balanced(rules, index, totals)
    ensures Balanced(rules[p := Weight(rules, p) + w],
                     index[p.lhs := (if p.lhs in index then index[p.lhs] else []) + [(p, w)]],
                     totals[p.lhs := (if p.lhs in totals then totals[p.lhs] else 0.0) + w])
  {
    var after := rules[p := Weight(rules, p) + w];
    var list := if p.lhs in index then index[p.lhs] else [];
    ListWeightSnoc(list, (p, w));
    TotalAfterAdd(rules, p, w, p.lhs);
    if p.lhs !in totals { assert WithLhs(rules, p.lhs) == {}; }
    forall lhs | lhs in totals && lhs != p.lhs ensures Total(after, lhs) == totals[lhs] {
      TotalAfterAdd(rules, p, w, lhs);
    }
  }

  function Entries(rules: map<Production, real>, ps: set<Production>): set<(Production, real)>
    requires ps <= rules.Keys
  {
    set p | p in ps :: (p, rules[p])
  }

  /** The list has each of the rules once, with its weight, and so weighs what they do. */
  ghost predicate Lists(rules: map<Production, real>, list: seq<(Production, real)>, ps: set<Production>)
    requires ps <= rules.Keys
  {
    && multiset(list) == multiset(Entries(rules, ps)) && ListWeight(list) == SumOver(rules, ps)
    && forall p :: p in ps ==> WeightIn(list, p) == rules[p]
  }

  lemma ListsNone(rules: map<Production, real>)
    ensures Lists(rules, [], {})
  {
    assert Entries(rules, {}) == {};
  }

  lemma ListsOneMore(rules: map<Production, real>, list: seq<(Production, real)>, ps: set<Production>, p: Production)
    requires ps <= rules.Keys && Lists(rules, list, ps) && p in rules && p !in ps
    ensures Lists(rules, list + [(p, rules[p])], ps + {p})
  {
    EntriesOneMore(rules, ps, p);
    ListedOneMore(rules, list, ps, p);
    ListWeightSnoc(list, (p, rules[p]));
    SumTake(rules, ps + {p}, p);
    assert ps + {p} - {p} == ps;
    hide Entries, ListWeight, SumOver, WeightIn;
  }

  lemma ListedOneMore(rules: map<Production, real>, list: seq<(Production, real)>, ps: set<Production>, p: Production)
    requires ps <= rules.Keys && Lists(rules, list, ps) && p in rules && p !in ps
    ensures forall q :: q in ps + {p} ==> WeightIn(list + [(p, rules[p])], q) == rules[q]
  {
    forall e | e in list ensures e.0 != p {
      assert e in multiset(list);
      assert e in Entries(rules, ps);
    }
    NotListed(list, p);
    forall q | q in ps + {p} ensures WeightIn(list + [(p, rules[p])], q) == rules[q] {
      WeightInSnoc(list, (p, rules[p]), q);
    }
  }

  lemma EntriesOneMore(rules: map<Production, real>, ps: set<Production>, p: Production)
    requires ps <= rules.Keys && p in rules && p !in ps
    ensures multiset(Entries(rules, ps + {p})) == multiset(Entries(rules, ps)) + multiset{(p, rules[p])}
  {
    assert Entries(rules, ps + {p}) == Entries(rules, ps) + {(p, rules[p])};
  }

  /** The index of the rules outside `todo`: under each left side, each of its rules once. */
  ghost predicate IndexOf(rules: map<Production, real>, index: map<string, seq<(Production, real)>>,
                          todo: set<Production>)
  {
    && index.Keys == (set p | p in rules && p !in todo :: p.lhs)
    && forall lhs :: lhs in index ==> Lists(rules, index[lhs], WithLhs(rules, lhs) - todo)
  }

  lemma IndexOfStep(rules: map<Production, real>, index: map<string, seq<(Production, real)>>,
                    todo: set<Production>, p: Production)
    requires IndexOf(rules, index, todo) && todo <= rules.Keys && p in todo
    ensures var list := if p.lhs in index then index[p.lhs] else [];
            IndexOf(rules, index[p.lhs := list + [(p, rules[p])]], todo - {p})
  {
    hide Lists;
    var list := if p.lhs in index then index[p.lhs] else [];
    var before := WithLhs(rules, p.lhs) - todo;
    if p.lhs !in index {
      assert before == {};
      ListsNone(rules);
    }
    ListsOneMore(rules, list, before, p);
    LessToDo(rules, todo, p);
    hide WithLhs;
  }

  lemma LessToDo(rules: map<Production, real>, todo: set<Production>, p: Production)
    requires p in rules && p in todo
    ensures WithLhs(rules, p.lhs) - (todo - {p}) == WithLhs(rules, p.lhs) - todo + {p}
    ensures forall lhs :: lhs != p.lhs ==> WithLhs(rules, lhs) - (todo - {p}) == WithLhs(rules, lhs) - todo
  {
  }

  lemma {:induction false} NormalizedBalance(rules: map<Production, real>, totals: map<string, real>,
                                             probs: map<Production, real>,
                                             index: map<string, seq<(Production, real)>>, ones: map<string, real>)
    requires totals.Keys == Lefts(rules) && forall lhs :: lhs in totals ==> totals[lhs] == Total(rules, lhs)
    requires probs.Keys == rules.Keys && IndexOf(probs, index, {})
    requires forall p :: p in rules ==> probs[p] == Probability(rules, totals, p)
    requires ones.Keys == totals.Keys && forall lhs :: lhs in ones ==> ones[lhs] == 1.0
    ensures Balanced(probs, index, ones) <==> forall lhs :: lhs in totals ==> totals[lhs] > 0.0
  {
    IndexKeys(probs, index);
    assert Lefts(probs) == Lefts(rules);
    hide SumOver, Total, ListWeight, Probability, IndexOf;
    forall lhs | lhs in totals
      ensures Total(probs, lhs) == ListWeight(index[lhs])
      ensures Total(probs, lhs) == 1.0 <==> totals[lhs] > 0.0
    {
      IndexWeighs(probs, index, lhs);
      ProbabilitiesSum(rules, totals, probs, lhs);
    }
  }

  lemma IndexKeys(rules: map<Production, real>, index: map<string, seq<(Production, real)>>)
    requires IndexOf(rules, index, {})
    ensures index.Keys == Lefts(rules)
  {
  }

  lemma IndexWeighs(rules: map<Production, real>, index: map<string, seq<(Production, real)>>, lhs: string)
    requires IndexOf(rules, index, {}) && lhs in index
    ensures Total(rules, lhs) == ListWeight(index[lhs])
  {
    assert WithLhs(rules, lhs) - {} == WithLhs(rules, lhs);
    assert Lists(rules, index[lhs], WithLhs(rules, lhs) - {});
  }

  lemma ProbabilityKept(rules: map<Production, real>, totals: map<string, real>,
                        probs: map<Production, real>, ones: map<string, real>, p: Production)
    requires probs.Keys == rules.Keys && ones.Keys == totals.Keys
    requires forall q :: q in rules ==> probs[q] == Probability(rules, totals, q)
    requires forall lhs :: lhs in ones ==> ones[lhs] == 1.0
    ensures Probability(probs, ones, p) == Probability(rules, totals, p)
    ensures p in rules ==> probs[p] == Probability(probs, ones, p)
    ensures p in rules && (p.lhs in totals ==> totals[p.lhs] == 1.0) ==> probs[p] == rules[p]
  {
  }

  lemma NormalizedProbabilities(rules: map<Production, real>, totals: map<string, real>,
                                probs: map<Production, real>, ones: map<string, real>)
    requires probs.Keys == rules.Keys && ones.Keys == totals.Keys
    requires forall q :: q in rules ==> probs[q] == Probability(rules, totals, q)
    requires forall lhs :: lhs in ones ==> ones[lhs] == 1.0
    ensures forall p :: Probability(probs, ones, p) == Probability(rules, totals, p)
    ensures forall p :: p in probs ==> probs[p] == Probability(probs, ones, p)
    ensures (forall lhs :: lhs in totals ==> totals[lhs] == 1.0) ==> probs == rules
  {
    hide Probability;
    forall p
      ensures Probability(probs, ones, p) == Probability(rules, totals, p)
      ensures p in probs ==> probs[p] == Probability(probs, ones, p)
      ensures p in rules && (p.lhs in totals ==> totals[p.lhs] == 1.0) ==> probs[p] == rules[p]
    {
      ProbabilityKept(rules, totals, probs, ones, p);
    }
  }

  class WeightedCFG {
    var rules: map<Production, real>
    var rulesByLhs: map<string, seq<(Production, real)>>
    const startSymbol: string
    var lhsTotals: map<string, real>

    ghost predicate Valid()
      reads this
    {
      Balanced(rules, rulesByLhs, lhsTotals) && Indexed(rules, rulesByLhs)
    }

    constructor (startSymbol: string)
      ensures Valid() && this.startSymbol == startSymbol && rules == map[]
    {
      rules, rulesByLhs, lhsTotals := map[], map[], map[];
      this.startSymbol := startSymbol;
    }

    /** Keeps the balance whatever the weight. */
    method AddRule(production: Production, weight: real)
      requires Valid()
      modifies this
      ensures Valid()
      ensures rules == old(rules)[production := Weight(old(rules), production) + weight]
      ensures var lhs := production.lhs;
              && lhsTotals
                 == old(lhsTotals)[lhs := (if lhs in old(lhsTotals) then old(lhsTotals)[lhs] else 0.0) + weight]
              && rulesByLhs == old(rulesByLhs)[lhs :=
                   (if lhs in old(rulesByLhs) then old(rulesByLhs)[lhs] else []) + [(production, weight)]]
    {
      hide Balanced, Indexed;
      IndexedAfterAdd(rules, rulesByLhs, production, weight);
      BalancedAfterAdd(rules, rulesByLhs, lhsTotals, production, weight);
      var lhs := production.lhs;
      lhsTotals := lhsTotals[lhs := (if lhs in lhsTotals then lhsTotals[lhs] else 0.0) + weight];
      rules := rules[production := Weight(rules, production) + weight];
      rulesByLhs := rulesByLhs[lhs := (if lhs in rulesByLhs then rulesByLhs[lhs] else []) + [(production, weight)]];
    }

    /** Weights become probabilities and totals one; no probability changes, and a second call changes nothing. */
    method Normalize()
      modifies this
      ensures rules.Keys == old(rules).Keys && lhsTotals == map lhs | lhs in old(lhsTotals) :: 1.0
      ensures IndexOf(rules, rulesByLhs, {})
      ensures forall p :: Probability(rules, lhsTotals, p) == Probability(old(rules), old(lhsTotals), p)
      ensures forall p :: p in rules ==> rules[p] == Probability(rules, lhsTotals, p)
      ensures (forall lhs :: lhs in old(lhsTotals) ==> old(lhsTotals)[lhs] == 1.0) ==> rules == old(rules)
      ensures old(Valid()) ==> (Valid() <==> forall lhs :: lhs in old(lhsTotals) ==> old(lhsTotals)[lhs] > 0.0)
    {
      hide Probability, Total, ListWeight, IndexOf;
      ghost var was, sums, valid := rules, lhsTotals, Valid();
      assert valid ==> sums.Keys == Lefts(was) && forall lhs :: lhs in sums ==> sums[lhs] == Total(was, lhs);
      var normalized := NormalizedRules();
      rules := normalized;
      lhsTotals := map lhs | lhs in lhsTotals :: 1.0;
      RebuildIndex();
      IndexedByRebuilding(rules, rulesByLhs);
      hide Balanced, Indexed;
      if valid {
        NormalizedBalance(was, sums, rules, rulesByLhs, lhsTotals);
      }
      NormalizedProbabilities(was, sums, rules, lhsTotals);
    }

    method NormalizedRules() returns (normalized: map<Production, real>)
      ensures normalized.Keys == rules.Keys
      ensures forall p :: p in normalized ==> normalized[p] == Probability(rules, lhsTotals, p)
    {
      normalized := map[];
      var todo := rules.Keys;
      while todo != {}
        invariant todo <= rules.Keys && normalized.Keys == rules.Keys - todo
        invariant forall p :: p in normalized ==> normalized[p] == Probability(rules, lhsTotals, p)
        decreases |todo|
      {
        var p :| p in todo;
        var total := if p.lhs in lhsTotals then lhsTotals[p.lhs] else 1.0;
        normalized := normalized[p := if total > 0.0 then rules[p] / total else 0.0];
        todo := todo - {p};
      }
    }

    method RebuildIndex()
      modifies this`rulesByLhs
      ensures IndexOf(rules, rulesByLhs, {})
    {
      rulesByLhs := map[];
      var todo := rules.Keys;
      while todo != {}
        invariant todo <= rules.Keys && IndexOf(rules, rulesByLhs, todo)
        decreases |todo|
      {
        var p :| p in todo;
        IndexOfStep(rules, rulesByLhs, todo, p);
        rulesByLhs := rulesByLhs[p.lhs := (if p.lhs in rulesByLhs then rulesByLhs[p.lhs] else []) + [(p, rules[p])]];
        todo := todo - {p};
      }
    }
  }
}
