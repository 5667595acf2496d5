/**
 The graph of a syntax tree, src/code/cpg.rs, edge by edge: which nodes each node's child and
 sibling edges lead to, in the order in which they were added.
 */
module TreeShape {
  import opened Wrappers
  import opened Ast
  import opened Cpg

  /** The ids of the roots of trees laid out one after the other from `next` on. */
  function RootIds(nodes: seq<AstNode>, next: nat): (ids: seq<nat>)
    ensures |ids| == |nodes|
  {
    if nodes == [] then [] else [next] + RootIds(nodes[1..], next + Size(nodes[0]))
  }

  /** They lie in the range that the trees take. */
  lemma {:induction false} RootIdIn(nodes: seq<AstNode>, next: nat, k: nat)
    requires k < |nodes|
    ensures next <= RootIds(nodes, next)[k] < next + |PreorderAll(nodes)|
  {
    hide *;
    SizeSplits(nodes);
    FirstRoot(nodes, next);
    if k > 0 {
      RootIdIn(nodes[1..], next + Size(nodes[0]), k - 1);
    }
  }

  lemma FirstRoot(nodes: seq<AstNode>, next: nat)
    requires nodes != []
    ensures RootIds(nodes, next) == [next] + RootIds(nodes[1..], next + Size(nodes[0]))
  {
    hide Size, Preorder, PreorderAll;
  }

  /** And ascend. */
  lemma {:induction false} RootIdsAscend(nodes: seq<AstNode>, next: nat, j: nat, k: nat)
    requires j < k < |nodes|
    ensures RootIds(nodes, next)[j] < RootIds(nodes, next)[k]
  {
    hide *;
    FirstRoot(nodes, next);
    if j == 0 {
      RootIdIn(nodes[1..], next + Size(nodes[0]), k - 1);
    } else {
      RootIdsAscend(nodes[1..], next + Size(nodes[0]), j - 1, k - 1);
    }
  }

  // ----- Edges of one kind

  lemma {:induction false} TargetsAppend(a: seq<CpgEdge>, b: seq<CpgEdge>, x: nat, kind: CpgEdgeKind)
    ensures TargetsIn(a + b, x, kind) == TargetsIn(a, x, kind) + TargetsIn(b, x, kind)
  {
    if b == [] {
      assert a + b == a;
    } else {
      assert (a + b)[..|a + b| - 1] == a + b[..|b| - 1];
      TargetsAppend(a, b[..|b| - 1], x, kind);
    }
  }

  lemma TargetsOfOne(e: CpgEdge, x: nat, kind: CpgEdgeKind)
    ensures TargetsIn([e], x, kind) == if e.from == x && e.kind == kind then [e.to] else []
    ensures TargetsIn([], x, kind) == []
  {
    assert [e][..0] == [] && TargetsIn([e][..0], x, kind) == [];
  }

  /** The edges of a tree: one from its parent, and those of its children. */
  lemma TreeTargets(node: AstNode, base: nat, parent: Option<nat>, x: nat, kind: CpgEdgeKind)
    ensures TargetsIn(EdgesOf(node, base, parent), x, kind)
         == (if parent == Some(x) && kind == AstChild then [base] else [])
            + TargetsIn(EdgesAll(node.children, base, base + 1, None), x, kind)
  {
    var first := if parent.Some? then [CpgEdge(parent.value, base, AstChild)] else [];
    TargetsAppend(first, EdgesAll(node.children, base, base + 1, None), x, kind);
    TargetsOfOne(CpgEdge(if parent.Some? then parent.value else 0, base, AstChild), x, kind);
    hide TargetsIn, EdgesAll;
  }

  /** The edges of a list: those of the first tree, one from the sibling before it, and those of the rest. */
  lemma ListTargets(nodes: seq<AstNode>, parent: nat, next: nat, prev: Option<nat>, x: nat, kind: CpgEdgeKind)
    requires nodes != []
    ensures TargetsIn(EdgesAll(nodes, parent, next, prev), x, kind)
         == TargetsIn(EdgesOf(nodes[0], next, Some(parent)), x, kind)
            + (if prev == Some(x) && kind == AstSibling then [next] else [])
            + TargetsIn(EdgesAll(nodes[1..], parent, next + Size(nodes[0]), Some(next)), x, kind)
  {
    var a := EdgesOf(nodes[0], next, Some(parent));
    var b := EdgesAll(nodes[1..], parent, next + Size(nodes[0]), Some(next));
    var sibling := if prev.Some? then [CpgEdge(prev.value, next, AstSibling)] else [];
    FirstEdges(nodes, parent, next, prev);
    TargetsAppend(a + sibling, b, x, kind);
    TargetsAppend(a, sibling, x, kind);
    TargetsOfOne(CpgEdge(if prev.Some? then prev.value else 0, next, AstSibling), x, kind);
    hide TargetsIn, EdgesOf, EdgesAll;
  }

  lemma NoTargets(parent: nat, next: nat, prev: Option<nat>, x: nat, kind: CpgEdgeKind)
    ensures TargetsIn(EdgesAll([], parent, next, prev), x, kind) == [] && ChildTargetsAll([], parent, next, x) == []
  {
  }

  // ----- Children

  /** What the child edges of `x` lead to; the parent outside has one to the tree's root. */
  function ChildTargets(node: AstNode, base: nat, parent: Option<nat>, x: nat): seq<nat> {
    if base <= x < base + Size(node) then RootIds(Preorder(node)[x - base].children, x + 1)
    else if parent == Some(x) then [base]
    else []
  }

  function ChildTargetsAll(nodes: seq<AstNode>, parent: nat, next: nat, x: nat): seq<nat> {
    if next <= x < next + |PreorderAll(nodes)| then RootIds(PreorderAll(nodes)[x - next].children, x + 1)
    else if x == parent then RootIds(nodes, next)
    else []
  }

  lemma {:induction false} ChildrenInTree(node: AstNode, base: nat, parent: Option<nat>, x: nat)
    requires parent.Some? ==> parent.value < base
    ensures TargetsIn(EdgesOf(node, base, parent), x, AstChild) == ChildTargets(node, base, parent, x)
    decreases node, 1
  {
    hide TargetsIn, EdgesOf, EdgesAll, RootIds, PreorderAll;
    TreeTargets(node, base, parent, x, AstChild);
    ChildrenInList(node.children, base, base + 1, None, x);
  }

  lemma {:induction false} ChildrenInList(nodes: seq<AstNode>, parent: nat, next: nat, prev: Option<nat>, x: nat)
    requires parent < next
    ensures TargetsIn(EdgesAll(nodes, parent, next, prev), x, AstChild) == ChildTargetsAll(nodes, parent, next, x)
    decreases nodes, 0
  {
    hide *;
    if nodes == [] {
      NoTargets(parent, next, prev, x, AstChild);
    } else {
      ListTargets(nodes, parent, next, prev, x, AstChild);
      ChildrenInTree(nodes[0], next, Some(parent), x);
      ChildrenInList(nodes[1..], parent, next + Size(nodes[0]), Some(next), x);
      FirstTreeTargets(nodes, parent, next, x);
    }
  }

  lemma FirstTreeTargets(nodes: seq<AstNode>, parent: nat, next: nat, x: nat)
    requires nodes != [] && parent < next
    ensures ChildTargetsAll(nodes, parent, next, x)
         == ChildTargets(nodes[0], next, Some(parent), x)
            + ChildTargetsAll(nodes[1..], parent, next + Size(nodes[0]), x)
  {
    hide Preorder, PreorderAll, RootIds;
    PreorderFirst(nodes);
    FirstRoot(nodes, next);
  }

  // ----- Siblings

  /** No sibling edge leaves the root of a tree, or a node outside it, among the tree's own edges. */
  lemma {:induction false} NoSiblingsInTree(node: AstNode, base: nat, parent: Option<nat>, x: nat)
    requires x <= base || base + Size(node) <= x
    ensures TargetsIn(EdgesOf(node, base, parent), x, AstSibling) == []
    decreases node, 1
  {
    hide TargetsIn, EdgesOf, EdgesAll, PreorderAll;
    TreeTargets(node, base, parent, x, AstSibling);
    NoSiblingsInList(node.children, base, base + 1, None, x);
  }

  lemma {:induction false} NoSiblingsInList(nodes: seq<AstNode>, parent: nat, next: nat, prev: Option<nat>, x: nat)
    requires (x < next || next + |PreorderAll(nodes)| <= x) && prev != Some(x)
    ensures TargetsIn(EdgesAll(nodes, parent, next, prev), x, AstSibling) == []
    decreases nodes, 0
  {
    hide *;
    if nodes == [] {
      NoTargets(parent, next, prev, x, AstSibling);
    } else {
      SizeSplits(nodes);
      ListTargets(nodes, parent, next, prev, x, AstSibling);
      NoSiblingsInTree(nodes[0], next, Some(parent), x);
      NoSiblingsInList(nodes[1..], parent, next + Size(nodes[0]), Some(next), x);
    }
  }

  /** The sibling before a list is linked to the list's first root. */
  lemma SiblingBefore(nodes: seq<AstNode>, parent: nat, next: nat, x: nat)
    requires x < next
    ensures TargetsIn(EdgesAll(nodes, parent, next, Some(x)), x, AstSibling) == if nodes == [] then [] else [next]
  {
    hide *;
    if nodes == [] {
      NoTargets(parent, next, Some(x), x, AstSibling);
    } else {
      ListTargets(nodes, parent, next, Some(x), x, AstSibling);
      NoSiblingsInTree(nodes[0], next, Some(parent), x);
      NoSiblingsInList(nodes[1..], parent, next + Size(nodes[0]), Some(next), x);
    }
  }

  /** The sibling after the `k`th of some ids, if there is one. */
  function After(ids: seq<nat>, k: nat): seq<nat> {
    if k + 1 < |ids| then [ids[k + 1]] else []
  }

  lemma {:induction false} SiblingsOfRoots(nodes: seq<AstNode>, parent: nat, next: nat, prev: Option<nat>, k: nat)
    requires k < |nodes| && (prev.Some? ==> prev.value < next)
    ensures TargetsIn(EdgesAll(nodes, parent, next, prev), RootIds(nodes, next)[k], AstSibling)
         == After(RootIds(nodes, next), k)
    decreases |nodes|
  {
    hide TargetsIn, EdgesOf, EdgesAll, RootIds, Size, Preorder, PreorderAll;
    var x, after := RootIds(nodes, next)[k], next + Size(nodes[0]);
    FirstRoot(nodes, next);
    ListTargets(nodes, parent, next, prev, x, AstSibling);
    NoSiblingsInTree(nodes[0], next, Some(parent), x) by {
      if k > 0 { RootIdIn(nodes[1..], after, k - 1); }
    }
    if k == 0 {
      SiblingBefore(nodes[1..], parent, after, next);
      if |nodes| > 1 { FirstRoot(nodes[1..], after); }
    } else {
      RootIdIn(nodes[1..], after, k - 1);
      SiblingsOfRoots(nodes[1..], parent, after, Some(next), k - 1);
    }
  }

  /** The children of a node of the tree, by their ids. */
  function ChildrenOf(node: AstNode, base: nat, p: nat): seq<nat>
    requires base <= p < base + Size(node)
  {
    RootIds(Preorder(node)[p - base].children, p + 1)
  }

  function ChildrenAmong(nodes: seq<AstNode>, next: nat, p: nat): seq<nat>
    requires next <= p < next + |PreorderAll(nodes)|
  {
    RootIds(PreorderAll(nodes)[p - next].children, p + 1)
  }

  /** A node's child comes later than the node, inside the same tree. */
  lemma {:induction false} ChildInside(node: AstNode, base: nat, p: nat, k: nat)
    requires base <= p < base + Size(node) && k < |ChildrenOf(node, base, p)|
    ensures p < ChildrenOf(node, base, p)[k] < base + Size(node)
    decreases node, 1
  {
    hide RootIds, PreorderAll;
    if p == base {
      RootIdIn(node.children, base + 1, k);
    } else {
      ChildInsideList(node.children, base + 1, p, k);
    }
  }

  lemma {:induction false} ChildInsideList(nodes: seq<AstNode>, next: nat, p: nat, k: nat)
    requires next <= p < next + |PreorderAll(nodes)| && k < |ChildrenAmong(nodes, next, p)|
    ensures p < ChildrenAmong(nodes, next, p)[k] < next + |PreorderAll(nodes)|
    decreases nodes, 0
  {
    hide RootIds, Preorder, PreorderAll;
    NotEmpty(nodes);
    PreorderFirst(nodes);
    if p < next + Size(nodes[0]) {
      ChildInside(nodes[0], next, p, k);
    } else {
      ChildInsideList(nodes[1..], next + Size(nodes[0]), p, k);
    }
  }

  lemma NotEmpty(nodes: seq<AstNode>)
    ensures |PreorderAll(nodes)| > 0 ==> nodes != []
  {
  }

  /** Each child's one sibling edge leads to the next child of the same node; the last one has none. */
  lemma {:induction false} SiblingsInTree(node: AstNode, base: nat, parent: Option<nat>, p: nat, k: nat)
    requires base <= p < base + Size(node) && k < |ChildrenOf(node, base, p)|
    ensures TargetsIn(EdgesOf(node, base, parent), ChildrenOf(node, base, p)[k], AstSibling)
         == After(ChildrenOf(node, base, p), k)
    decreases node, 1
  {
    hide TargetsIn, EdgesOf, EdgesAll, RootIds, PreorderAll;
    TreeTargets(node, base, parent, ChildrenOf(node, base, p)[k], AstSibling);
    if p == base {
      SiblingsOfRoots(node.children, base, base + 1, None, k);
    } else {
      SiblingsInList(node.children, base, base + 1, None, p, k);
    }
  }

  lemma {:induction false} SiblingsInList(nodes: seq<AstNode>, parent: nat, next: nat, prev: Option<nat>,
                                          p: nat, k: nat)
    requires next <= p < next + |PreorderAll(nodes)| && k < |ChildrenAmong(nodes, next, p)|
    requires prev.Some? ==> prev.value < next
    ensures TargetsIn(EdgesAll(nodes, parent, next, prev), ChildrenAmong(nodes, next, p)[k], AstSibling)
         == After(ChildrenAmong(nodes, next, p), k)
    decreases nodes, 0
  {
    hide TargetsIn, EdgesOf, EdgesAll, RootIds, Preorder, PreorderAll;
    NotEmpty(nodes);
    PreorderFirst(nodes);
    var x, after := ChildrenAmong(nodes, next, p)[k], next + Size(nodes[0]);
    ChildInsideList(nodes, next, p, k);
    ListTargets(nodes, parent, next, prev, x, AstSibling);
    if p < after {
      ChildInside(nodes[0], next, p, k);
      SiblingsInTree(nodes[0], next, Some(parent), p, k);
      NoSiblingsInList(nodes[1..], parent, after, Some(next), x);
    } else {
      NoSiblingsInTree(nodes[0], next, Some(parent), x);
      SiblingsInList(nodes[1..], parent, after, Some(next), p, k);
    }
  }

  // ----- The graph of a whole tree

  /** Child `k` of node `p`: its id is where it stands in preorder, and its sibling edge leads to the next child. */
  ghost predicate ChildFits(ast: AstNode, edges: seq<CpgEdge>, p: nat, k: nat)
    requires p < Size(ast) && k < |ChildrenOf(ast, 0, p)|
  {
    var ids := ChildrenOf(ast, 0, p);
    && p < ids[k] < Size(ast) && Preorder(ast)[ids[k]] == Preorder(ast)[p].children[k]
    && TargetsIn(edges, ids[k], AstSibling) == After(ids, k)
  }

  /**
   In the graph of a tree, whatever flow has been added: a node's child edges lead to its children in
   order, and each child's sibling edge to the next one.
   */
  lemma ShapeOfTree(ast: AstNode, flow: seq<CpgEdge>, p: nat)
    requires OnlyFlow(flow) && p < Size(ast)
    ensures var edges, ids := EdgesOf(ast, 0, None) + flow, ChildrenOf(ast, 0, p);
            && |ids| == |Preorder(ast)[p].children|
            && TargetsIn(edges, p, AstChild) == ids
            && (forall k :: 0 <= k < |ids| ==> ChildFits(ast, edges, p, k))
            && (forall j, k :: 0 <= j < k < |ids| ==> ids[j] < ids[k])
            && TargetsIn(edges, 0, AstSibling) == []
  {
    hide TargetsIn, EdgesOf, EdgesAll, PreorderAll, RootIds, OnlyFlow, ChildFits;
    TargetsBesideFlow(EdgesOf(ast, 0, None), flow, p, AstChild);
    TargetsBesideFlow(EdgesOf(ast, 0, None), flow, 0, AstSibling);
    NoSiblingsInTree(ast, 0, None, 0);
    ShapeInTree(ast, p);
    forall k | 0 <= k < |ChildrenOf(ast, 0, p)| ensures ChildFits(ast, EdgesOf(ast, 0, None) + flow, p, k) {
      ChildOfTree(ast, flow, p, k);
    }
    hide Preorder;
  }

  lemma ChildOfTree(ast: AstNode, flow: seq<CpgEdge>, p: nat, k: nat)
    requires OnlyFlow(flow) && p < Size(ast) && k < |ChildrenOf(ast, 0, p)|
    ensures ChildFits(ast, EdgesOf(ast, 0, None) + flow, p, k)
  {
    hide TargetsIn, EdgesOf, EdgesAll, Preorder, PreorderAll, RootIds, OnlyFlow, After;
    TargetsBesideFlow(EdgesOf(ast, 0, None), flow, ChildrenOf(ast, 0, p)[k], AstSibling);
    ChildInside(ast, 0, p, k);
    ChildNode(ast, 0, p, k);
    SiblingsInTree(ast, 0, None, p, k);
  }

  /** The id of a child is where the child stands in preorder. */
  lemma {:induction false} ChildNode(node: AstNode, base: nat, p: nat, k: nat)
    requires base <= p < base + Size(node) && k < |ChildrenOf(node, base, p)|
    ensures base <= ChildrenOf(node, base, p)[k] < base + Size(node)
    ensures Preorder(node)[ChildrenOf(node, base, p)[k] - base] == Preorder(node)[p - base].children[k]
    decreases node, 1
  {
    hide RootIds, PreorderAll;
    ChildInside(node, base, p, k);
    if p == base {
      RootNode(node.children, base + 1, k);
    } else {
      ChildNodeAmong(node.children, base + 1, p, k);
    }
  }

  lemma {:induction false} ChildNodeAmong(nodes: seq<AstNode>, next: nat, p: nat, k: nat)
    requires next <= p < next + |PreorderAll(nodes)| && k < |ChildrenAmong(nodes, next, p)|
    ensures next <= ChildrenAmong(nodes, next, p)[k] < next + |PreorderAll(nodes)|
    ensures PreorderAll(nodes)[ChildrenAmong(nodes, next, p)[k] - next] == PreorderAll(nodes)[p - next].children[k]
    decreases nodes, 0
  {
    hide RootIds, Preorder, PreorderAll;
    NotEmpty(nodes);
    PreorderFirst(nodes);
    ChildInsideList(nodes, next, p, k);
    if p < next + Size(nodes[0]) {
      ChildNode(nodes[0], next, p, k);
    } else {
      ChildNodeAmong(nodes[1..], next + Size(nodes[0]), p, k);
    }
  }

  lemma {:induction false} RootNode(nodes: seq<AstNode>, next: nat, k: nat)
    requires k < |nodes|
    ensures next <= RootIds(nodes, next)[k] < next + |PreorderAll(nodes)|
    ensures PreorderAll(nodes)[RootIds(nodes, next)[k] - next] == nodes[k]
  {
    hide RootIds, Preorder, PreorderAll;
    RootIdIn(nodes, next, k);
    FirstRoot(nodes, next);
    PreorderFirst(nodes);
    if k > 0 { RootNode(nodes[1..], next + Size(nodes[0]), k - 1); }
  }

  lemma Distinct(ids: seq<nat>, a: nat, b: nat)
    requires forall j, k :: 0 <= j < k < |ids| ==> ids[j] < ids[k]
    requires multiset{a, b} <= multiset(ids)
    ensures a in ids && b in ids && a != b
  {
    if a == b {
      assert multiset(ids)[a] >= multiset{a, b}[a] == 2;
      AtMostOnce(ids, a);
    }
    assert a in multiset{a, b} && b in multiset{a, b};
    assert a in multiset(ids) && b in multiset(ids);
  }

  lemma {:induction false} AtMostOnce(ids: seq<nat>, a: nat)
    requires forall j, k :: 0 <= j < k < |ids| ==> ids[j] < ids[k]
    ensures multiset(ids)[a] <= 1
  {
    if ids != [] {
      var init, last := ids[..|ids| - 1], ids[|ids| - 1];
      AtMostOnce(init, a);
      assert ids == init + [last];
      assert forall j :: 0 <= j < |init| ==> init[j] == ids[j] && init[j] < last;
    }
  }

  /**
   Control flow in the graph of a tree, whatever the order of edges: a branch of three children or
   more is left by two edges, true and false, to different children; a loop is entered by one back
   edge, from a child, and a loop's way in and way back are different children if it has several.
   */
  lemma FlowOfTree(ast: AstNode, flow: seq<CpgEdge>, p: nat)
    requires p < Size(ast) && OnlyFlow(flow)
    requires AllFlowFits(NodesFor(Preorder(ast), 0), EdgesOf(ast, 0, None), flow)
    ensures var own, ids, kind := FlowAt(flow, p), ChildrenOf(ast, 0, p), Classify(Preorder(ast)[p].kind);
            && (kind == Branch && |ids| >= 3 ==>
                  && |own| == 2 && own[0].to in ids && own[1].to in ids && own[0].to != own[1].to
                  && own[0].kind == CfgTrue && own[1].kind == CfgFalse && own[0].from == own[1].from == p)
            && (kind == Loop && |ids| >= 1 ==>
                  && |own| >= 2 && own[0].to in ids && own[1].from in ids
                  && own[0].kind == CfgTrue && own[1].kind == CfgBack && own[0].from == own[1].to == p
                  && (|ids| >= 2 ==> own[0].to != own[1].from)
                  && (|own| == 3 ==> own[2].kind == CfgFalse && own[2].from == p) && |own| <= 3)
  {
    hide *;
    var own, ids := FlowAt(flow, p), ChildrenOf(ast, 0, p);
    var nodes, edges := NodesFor(Preorder(ast), 0), EdgesOf(ast, 0, None);
    KindAt(ast, p);
    ShapeInTree(ast, p);
    KnownFlow(nodes, edges, flow, p, ids);
    if nodes[p].kind == Branch && |ids| >= 3 {
      Distinct(ids, own[0].to, own[1].to);
    }
    if nodes[p].kind == Loop && |ids| >= 2 {
      Distinct(ids, own[0].to, own[1].from);
    }
  }

  lemma KindAt(ast: AstNode, p: nat)
    requires p < Size(ast)
    ensures p < |Preorder(ast)| == |NodesFor(Preorder(ast), 0)|
    ensures NodesFor(Preorder(ast), 0)[p].kind == Classify(Preorder(ast)[p].kind)
  {
    hide Preorder, Classify;
  }

  lemma ShapeInTree(ast: AstNode, p: nat)
    requires p < Size(ast)
    ensures var ids := ChildrenOf(ast, 0, p);
            && TargetsIn(EdgesOf(ast, 0, None), p, AstChild) == ids
            && forall j, k :: 0 <= j < k < |ids| ==> ids[j] < ids[k]
  {
    var ids := ChildrenOf(ast, 0, p);
    hide TargetsIn, EdgesOf, EdgesAll, Preorder, PreorderAll, RootIds;
    ChildrenInTree(ast, 0, None, p);
    forall j, k | 0 <= j < k < |ids| ensures ids[j] < ids[k] {
      RootIdsAscend(Preorder(ast)[p].children, p + 1, j, k);
    }
  }

  lemma KnownFlow(nodes: seq<CpgNode>, edges: seq<CpgEdge>, flow: seq<CpgEdge>, p: nat, ids: seq<nat>)
    requires p < |nodes| && AllFlowFits(nodes, edges, flow) && TargetsIn(edges, p, AstChild) == ids
    ensures var own, c := FlowAt(flow, p), multiset(ids);
            && (nodes[p].kind == Branch && |ids| >= 3 ==>
                  && |own| == 2 && own[0] == CpgEdge(p, own[0].to, CfgTrue) && own[1] == CpgEdge(p, own[1].to, CfgFalse)
                  && multiset{own[0].to, own[1].to} <= c)
            && (nodes[p].kind == Loop && |ids| >= 1 ==>
                  && 2 <= |own| <= 3
                  && own[0] == CpgEdge(p, own[0].to, CfgTrue) && own[1] == CpgEdge(own[1].from, p, CfgBack)
                  && own[0].to in ids && own[1].from in ids
                  && (|ids| >= 2 ==> multiset{own[0].to, own[1].from} <= c)
                  && (|own| == 3 ==> own[2].kind == CfgFalse && own[2].from == p))
  {
    assert FlowFits(nodes, edges, p, FlowAt(flow, p)) && |multiset(ids)| == |ids|;
    hide TargetsIn, FlowAt;
  }
}
