/**
 Training a grammar from syntax trees, src/code/pcfg.rs, and what training and
 recognising guarantee together: a trained grammar accepts the trees it was trained on.
 */
module Training {
  import opened Grammar
  import opened Ast
  import opened Pcfg
  import opened EarleyItems
  import opened EarleySoundness
  import opened EarleyAnswers
  import opened ConstrainedDecoding

  function SymbolFor(node: AstNode): Symbol {
    if node.children == [] && node.text.Some? then Terminal(node.kind) else NonTerminal(node.kind)
  }

  function RightSide(nodes: seq<AstNode>): Form {
    if nodes == [] then []
    else (if nodes[0].isNamed then [SymbolFor(nodes[0])] else []) + RightSide(nodes[1..])
  }

  /** The rule that one node contributes, if any. */
  function OwnRule(node: AstNode): multiset<Production> {
    if node.isNamed && RightSide(node.children) != []
    then multiset{Production(node.kind, RightSide(node.children))}
    else multiset{}
  }

  /** Every rule occurrence extracted from a tree. */
  function RulesOf(node: AstNode): multiset<Production>
    decreases node, 1
  {
    if node.isError || node.isMissing then multiset{} else OwnRule(node) + RulesOfAll(node.children)
  }

  function RulesOfAll(nodes: seq<AstNode>): multiset<Production>
    decreases nodes, 0
  {
    if nodes == [] then multiset{} else RulesOf(nodes[0]) + RulesOfAll(nodes[1..])
  }

  lemma RulesUpTo(nodes: seq<AstNode>, i: nat)
    requires i < |nodes|
    ensures RulesOfAll(nodes[..i + 1]) == RulesOfAll(nodes[..i]) + RulesOf(nodes[i])
  {
    RulesOfAllSnoc(nodes[..i], nodes[i]);
    assert nodes[..i + 1] == nodes[..i] + [nodes[i]];
  }

  lemma {:induction false} RulesOfAllSnoc(nodes: seq<AstNode>, node: AstNode)
    ensures RulesOfAll(nodes + [node]) == RulesOfAll(nodes) + RulesOf(node)
  {
    if nodes == [] {
      assert nodes + [node] == [node] && [node][1..] == [];
    } else {
      assert (nodes + [node])[1..] == nodes[1..] + [node];
      RulesOfAllSnoc(nodes[1..], node);
    }
  }

  // ----- The rules, counted node by node

  /** The nodes that extraction comes to: none that is an error or missing, and none below one. */
  function Visited(nodes: seq<AstNode>): seq<AstNode> {
    if nodes == [] then []
    else
      (if nodes[0].isError || nodes[0].isMissing then [] else [nodes[0]] + Visited(nodes[0].children))
      + Visited(nodes[1..])
  }

  /** Where nothing is wrong, these are all nodes in preorder. */
  lemma {:induction false} VisitedInPreorder(nodes: seq<AstNode>)
    requires forall n :: n in PreorderAll(nodes) ==> !n.isError && !n.isMissing
    ensures Visited(nodes) == PreorderAll(nodes)
    decreases nodes
  {
    if nodes != [] {
      var first := nodes[0];
      assert Preorder(first)[0] == first;
      VisitedInPreorder(first.children);
      VisitedInPreorder(nodes[1..]);
    }
  }

  function NamedOnes(nodes: seq<AstNode>): seq<AstNode> {
    if nodes == [] then [] else (if nodes[0].isNamed then [nodes[0]] else []) + NamedOnes(nodes[1..])
  }

  /**
   The node shows the rule: it is named, of the kind on the left, and its named children, of which
   there are some, are of the kinds on the right, leaves that carry text as terminals.
   */
  predicate ShowsRule(node: AstNode, p: Production) {
    var named := NamedOnes(node.children);
    && node.isNamed && node.kind == p.lhs && 0 < |named| == |p.rhs|
    && forall k :: 0 <= k < |named| ==>
         && p.rhs[k].name == named[k].kind
         && (p.rhs[k].Terminal? <==> named[k].children == [] && named[k].text.Some?)
  }

  function HowMany(nodes: seq<AstNode>, p: Production): nat {
    if nodes == [] then 0 else (if ShowsRule(nodes[0], p) then 1 else 0) + HowMany(nodes[1..], p)
  }

  lemma {:induction false} HowManyAppend(a: seq<AstNode>, b: seq<AstNode>, p: Production)
    ensures HowMany(a + b, p) == HowMany(a, p) + HowMany(b, p)
  {
    if a == [] {
      assert a + b == b;
    } else {
      assert (a + b)[1..] == a[1..] + b;
      HowManyAppend(a[1..], b, p);
    }
  }

  lemma {:induction false} RightSideNamed(nodes: seq<AstNode>)
    ensures var rhs, named := RightSide(nodes), NamedOnes(nodes);
            |rhs| == |named| && forall k :: 0 <= k < |named| ==> rhs[k] == SymbolFor(named[k])
  {
    if nodes != [] { RightSideNamed(nodes[1..]); }
  }

  lemma OwnRuleShown(node: AstNode, p: Production)
    ensures OwnRule(node)[p] == if ShowsRule(node, p) then 1 else 0
  {
    RightSideNamed(node.children);
    var rhs, named := RightSide(node.children), NamedOnes(node.children);
    if ShowsRule(node, p) {
      forall k | 0 <= k < |rhs| ensures rhs[k] == p.rhs[k] { }
      assert rhs == p.rhs;
    }
  }

  /** Each rule is extracted once for each node visited that shows it. */
  lemma {:induction false} RulesCounted(nodes: seq<AstNode>, p: Production)
    ensures RulesOfAll(nodes)[p] == HowMany(Visited(nodes), p)
    decreases nodes
  {
    if nodes != [] {
      var first := nodes[0];
      var below := if first.isError || first.isMissing then [] else [first] + Visited(first.children);
      RulesCounted(nodes[1..], p);
      if !first.isError && !first.isMissing {
        RulesCounted(first.children, p);
        HowManyAppend([first], Visited(first.children), p);
        OwnRuleShown(first, p);
        HowManyOne(first, p);
      }
      HowManyAppend(below, Visited(nodes[1..]), p);
    }
  }

  lemma OneTreeCounted(node: AstNode)
    ensures forall p :: RulesOf(node)[p] == HowMany(Visited([node]), p)
  {
    assert RulesOfAll([node]) == RulesOf(node) by {
      assert [node][1..] == [];
    }
    forall p ensures RulesOf(node)[p] == HowMany(Visited([node]), p) {
      RulesCounted([node], p);
    }
  }

  lemma HowManyOne(node: AstNode, p: Production)
    ensures HowMany([node], p) == if ShowsRule(node, p) then 1 else 0
  {
    assert [node][1..] == [];
  }

  class PcfgTrainer {
    var ruleCounts: map<Production, nat>
    const startSymbol: string
    /** Every rule occurrence seen so far. */
    ghost var observed: multiset<Production>

    ghost predicate Valid()
      reads this
    {
      && (forall p :: p in observed <==> p in ruleCounts)
      && (forall p :: p in ruleCounts ==> ruleCounts[p] == observed[p])
      && (forall p :: p in ruleCounts ==> p.rhs != [])
    }

    constructor (startSymbol: string)
      ensures Valid() && observed == multiset{} && this.startSymbol == startSymbol
    {
      ruleCounts, observed := map[], multiset{};
      this.startSymbol := startSymbol;
    }

    method Record(production: Production)
      requires Valid() && production.rhs != []
      modifies this
      ensures Valid() && observed == old(observed) + multiset{production}
    {
      ruleCounts := ruleCounts[production := (if production in ruleCounts then ruleCounts[production] else 0) + 1];
      observed := observed + multiset{production};
    }

    /** The symbols of the named children. */
    method NamedSymbols(nodes: seq<AstNode>) returns (rhs: Form)
      ensures rhs == RightSide(nodes)
    {
      rhs := [];
      for i := 0 to |nodes|
        invariant rhs + RightSide(nodes[i..]) == RightSide(nodes)
      {
        assert nodes[i..][1..] == nodes[i + 1..];
        if nodes[i].isNamed {
          rhs := rhs + [SymbolFor(nodes[i])];
        }
      }
    }

    /** Counts each rule of the tree once per occurrence. */
    method ExtractRules(node: AstNode)
      requires Valid()
      modifies this
      ensures Valid() && observed == old(observed) + RulesOf(node)
      ensures forall p :: observed[p] == old(observed)[p] + HowMany(Visited([node]), p)
      decreases node, 1
    {
      OneTreeCounted(node);
      hide PcfgTrainer.Valid, HowMany, Visited;
      if node.isError || node.isMissing {
        return;
      }
      if node.isNamed && node.children != [] {
        var rhs := NamedSymbols(node.children);
        if rhs != [] {
          Record(Production(node.kind, rhs));
        }
      }
      assert observed == old(observed) + OwnRule(node);
      TrainFromTrees(node.children);
    }

    method TrainFromTrees(trees: seq<AstNode>)
      requires Valid()
      modifies this
      ensures Valid() && observed == old(observed) + RulesOfAll(trees)
      ensures forall p :: observed[p] == old(observed)[p] + HowMany(Visited(trees), p)
      decreases trees, 0
    {
      assert RulesOfAll(trees[..0]) == multiset{};
      forall p ensures RulesOfAll(trees)[p] == HowMany(Visited(trees), p) { RulesCounted(trees, p); }
      hide PcfgTrainer.Valid, RulesOfAll, RulesOf, HowMany, Visited;
      for i := 0 to |trees|
        invariant Valid() && observed == old(observed) + RulesOfAll(trees[..i])
      {
        ExtractRules(trees[i]);
        RulesUpTo(trees, i);
      }
      assert trees[..|trees|] == trees;
    }

    /** Each observed rule, weighted by how often it was observed; none of them is empty. */
    method ToWeightedCfg() returns (cfg: WeightedCFG)
      requires Valid()
      ensures fresh(cfg) && cfg.Valid() && cfg.startSymbol == startSymbol
      ensures forall p :: p in cfg.rules <==> p in observed
      ensures forall p :: p in cfg.rules ==> cfg.rules[p] == observed[p] as real
      ensures EpsilonFree(cfg.rules.Keys)
    {
      hide WeightedCFG.Valid;
      cfg := new WeightedCFG(startSymbol);
      var todo := ruleCounts.Keys;
      while todo != {}
        invariant todo <= ruleCounts.Keys && fresh(cfg) && cfg.Valid() && cfg.startSymbol == startSymbol
        invariant cfg.rules.Keys == ruleCounts.Keys - todo
        invariant forall p :: p in cfg.rules ==> cfg.rules[p] == ruleCounts[p] as real
        decreases |todo|
      {
        var p :| p in todo;
        cfg.AddRule(p, ruleCounts[p] as real);
        todo := todo - {p};
      }
    }
  }

  // ----- A tree as a sentence

  /** The kinds of the named leaves under named nodes, from left to right. */
  function Yield(node: AstNode): seq<string>
    decreases node, 1
  {
    if node.children == [] then [node.kind] else YieldAll(node.children)
  }

  function YieldAll(nodes: seq<AstNode>): seq<string>
    decreases nodes, 0
  {
    if nodes == [] then [] else (if nodes[0].isNamed then Yield(nodes[0]) else []) + YieldAll(nodes[1..])
  }

  /** Error-free along its named nodes, leaves with text, and no named node with unnamed children only. */
  predicate Teachable(node: AstNode)
    decreases node, 1
  {
    && !node.isError && !node.isMissing
    && (node.children == [] ==> node.text.Some?)
    && (node.children != [] ==> RightSide(node.children) != [])
    && TeachableAll(node.children)
  }

  predicate TeachableAll(nodes: seq<AstNode>)
    decreases nodes, 0
  {
    nodes == [] || ((nodes[0].isNamed ==> Teachable(nodes[0])) && TeachableAll(nodes[1..]))
  }

  ghost predicate Includes(g: set<Production>, rules: multiset<Production>) {
    forall p :: p in rules ==> p in g
  }

  /** The grammar read off a tree derives the tree's leaves. */
  lemma {:induction false} TreeDerives(g: set<Production>, node: AstNode)
    requires node.isNamed && Teachable(node) && Includes(g, RulesOf(node))
    ensures Derives(g, [SymbolFor(node)], Terms(Yield(node)))
    decreases node, 1
  {
    if node.children == [] {
      assert Terms(Yield(node)) == [SymbolFor(node)];
      DerivesRefl(g, [SymbolFor(node)]);
    } else {
      var p := Production(node.kind, RightSide(node.children));
      assert p in RulesOf(node);
      ChildrenDerive(g, node.children);
      DerivesByRule(g, p, Terms(Yield(node)));
    }
  }

  lemma {:induction false} ChildrenDerive(g: set<Production>, nodes: seq<AstNode>)
    requires TeachableAll(nodes) && Includes(g, RulesOfAll(nodes))
    ensures Derives(g, RightSide(nodes), Terms(YieldAll(nodes)))
    decreases nodes, 0
  {
    if nodes == [] {
      DerivesRefl(g, []);
    } else {
      var first, rest := nodes[0], nodes[1..];
      ChildrenDerive(g, rest);
      if first.isNamed {
        TreeDerives(g, first);
        DerivesConcat(g, [SymbolFor(first)], Terms(Yield(first)), RightSide(rest), Terms(YieldAll(rest)));
        TermsConcat(Yield(first), YieldAll(rest));
      } else {
        assert RightSide(nodes) == [] + RightSide(rest) == RightSide(rest);
        assert YieldAll(nodes) == [] + YieldAll(rest) == YieldAll(rest);
      }
    }
  }

  lemma {:induction false} IncludesOne(trees: seq<AstNode>, tree: AstNode, g: set<Production>)
    requires tree in trees && Includes(g, RulesOfAll(trees))
    ensures Includes(g, RulesOf(tree))
  {
    if tree != trees[0] { IncludesOne(trees[1..], tree, g); }
  }

  /** A recogniser for a trained grammar lets each token of the tree through and may stop at its end. */
  lemma TrainedTreeAccepted(p: EarleyParser, tree: AstNode)
    requires p.WellFormed() && p.NoEpsilonReached()
    requires tree.isNamed && tree.children != [] && Teachable(tree) && tree.kind == p.startSymbol
    requires Includes(p.Productions(), RulesOf(tree))
    ensures var y := Yield(tree);
            && CanStop(p, ChartFor(p, y)[|y|])
            && forall k :: 0 <= k < |y| ==> y[k] in Expected(p, ChartFor(p, y[..k])[k])
  {
    hide EarleyParser.Productions;
    var y := Yield(tree);
    TreeDerives(p.Productions(), tree);
    assert SymbolFor(tree) == NonTerminal(p.startSymbol);
    CanStopExact(p, y);
    hide *;
    forall k | 0 <= k < |y| ensures y[k] in Expected(p, ChartFor(p, y[..k])[k]) {
      NextExpected(p, y, k);
    }
  }

  lemma {:induction false} NextExpected(p: EarleyParser, y: seq<string>, k: nat)
    requires p.WellFormed() && p.NoEpsilonReached() && k < |y|
    requires Derives(p.Productions(), [NonTerminal(p.startSymbol)], Terms(y))
    ensures y[k] in Expected(p, ChartFor(p, y[..k])[k])
  {
    hide EarleyParser.Productions;
    assert y[..k] + [y[k]] == y[..k + 1];
    TermsConcat(y[..k + 1], y[k + 1..]);
    assert y[..k + 1] + y[k + 1..] == y;
    ExpectedExact(p, y[..k], y[k]);
  }

  /** Feeding a recogniser tokens that its chart expects one after the other. */
  method Decode(constraint: GrammarConstraint, tokens: seq<string>) returns (complete: bool)
    requires constraint.Valid() && constraint.consumed == [] && |tokens| <= 2 * constraint.config.maxLookahead
    requires forall k :: 0 <= k < |tokens| ==>
               tokens[k] in Expected(constraint.parser, ChartFor(constraint.parser, tokens[..k])[k])
    modifies constraint, constraint.chart
    ensures complete <==> CanStop(constraint.parser, ChartFor(constraint.parser, tokens)[|tokens|])
  {
    hide EarleyParser.WellFormed, EarleyParser.Productions, EarleyParser.NoEpsilonReached;
    hide ChartFor, Expected, CanStop, Viable, Derives;
    for k := 0 to |tokens|
      invariant constraint.Valid() && constraint.chart == old(constraint.chart)
      invariant constraint.consumed == tokens[..k]
    {
      constraint.LastList();
      var ok := constraint.Advance(tokens[k]);
      assert ok;
      assert tokens[..k + 1] == tokens[..k] + [tokens[k]];
    }
    assert tokens[..|tokens|] == tokens;
    constraint.LastList();
    complete := constraint.CanComplete();
  }

  /** Training on some trees, then decoding the leaves of one of them: every token is let through. */
  method TrainThenDecode(trees: seq<AstNode>, tree: AstNode, config: ConstrainedDecodingConfig)
    returns (complete: bool)
    requires tree in trees
    requires tree.isNamed && tree.children != [] && Teachable(tree)
    requires |Yield(tree)| <= 2 * config.maxLookahead
    ensures complete
  {
    hide EarleyParser.WellFormed, EarleyParser.Productions;
    var trainer := new PcfgTrainer(tree.kind);
    trainer.TrainFromTrees(trees);
    var cfg := trainer.ToWeightedCfg();
    var constraint := new GrammarConstraint(cfg, config);
    IncludesOne(trees, tree, cfg.rules.Keys);
    EpsilonFreeOutOfReach(cfg.rules.Keys, tree.kind);
    TrainedTreeAccepted(constraint.parser, tree);
    complete := Decode(constraint, Yield(tree));
  }
}
