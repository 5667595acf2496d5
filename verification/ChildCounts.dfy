/**
 The child counts of src/code/cpg.rs on the graph of a syntax tree: each node's count is its
 number of children in the tree, before and after control flow is added.
 */
module ChildCounts {
  import opened Wrappers
  import opened Ast
  import opened Cpg
  import opened TreeShape

  function Count(edges: seq<CpgEdge>, i: nat): nat {
    |TargetsIn(edges, i, AstChild)|
  }

  predicate LeavesAt(edges: seq<CpgEdge>, k: nat, i: nat, kind: CpgEdgeKind) {
    k < |edges| && edges[k].from == i && edges[k].kind == kind
  }

  /** The edges of a kind that leave a node. */
  function Leaving(edges: seq<CpgEdge>, i: nat, kind: CpgEdgeKind): set<nat> {
    set k: nat | k < |edges| && LeavesAt(edges, k, i, kind)
  }

  /** A node's targets are as many as there are edges of the kind that leave it. */
  lemma {:induction false} TargetsCounted(edges: seq<CpgEdge>, i: nat, kind: CpgEdgeKind)
    ensures |TargetsIn(edges, i, kind)| == |Leaving(edges, i, kind)|
  {
    if edges == [] {
      assert Leaving(edges, i, kind) == {};
    } else {
      var n := |edges| - 1;
      TargetsCounted(edges[..n], i, kind);
      LeavingSnoc(edges, i, kind);
      hide Leaving;
    }
  }

  lemma LeavingSnoc(edges: seq<CpgEdge>, i: nat, kind: CpgEdgeKind)
    requires edges != []
    ensures var n := |edges| - 1;
            |Leaving(edges, i, kind)| == |Leaving(edges[..n], i, kind)| + if LeavesAt(edges, n, i, kind) then 1 else 0
  {
    var n := |edges| - 1;
    var last: set<nat> := if LeavesAt(edges, n, i, kind) then {n} else {};
    forall k: nat ensures k in Leaving(edges, i, kind) <==> k in Leaving(edges[..n], i, kind) + last {
      assert k < n ==> (LeavesAt(edges, k, i, kind) <==> LeavesAt(edges[..n], k, i, kind));
    }
    assert Leaving(edges, i, kind) == Leaving(edges[..n], i, kind) + last;
  }

  /** What a tree's node at id `i` should count; the parent outside counts the tree's root. */
  function TreeCount(node: AstNode, base: nat, parent: Option<nat>, i: nat): nat {
    if base <= i < base + Size(node) then |Preorder(node)[i - base].children|
    else if parent == Some(i) then 1
    else 0
  }

  lemma CountInTree(node: AstNode, base: nat, parent: Option<nat>, i: nat)
    requires parent.Some? ==> parent.value < base
    ensures Count(EdgesOf(node, base, parent), i) == TreeCount(node, base, parent, i)
  {
    hide TargetsIn, EdgesOf, EdgesAll, RootIds, Preorder, PreorderAll;
    ChildrenInTree(node, base, parent, i);
  }

  /** In the graph of a tree each node counts its own children, whatever flow has been added. */
  lemma CountsOfTree(ast: AstNode, flow: seq<CpgEdge>, i: nat)
    requires OnlyFlow(flow) && i < Size(ast)
    ensures |TargetsIn(EdgesOf(ast, 0, None) + flow, i, AstChild)| == |Preorder(ast)[i].children|
  {
    hide TargetsIn, EdgesOf, EdgesAll, Preorder, PreorderAll;
    TargetsBesideFlow(EdgesOf(ast, 0, None), flow, i, AstChild);
    CountInTree(ast, 0, None, i);
  }
}
