/**
 The code property graph of src/code/cpg.rs: numbering a syntax tree, adding control flow,
 and the breadth-first depths.  The graph is a list of nodes, whose ids are their indices,
 and a list of edges; the order in which a node's edges are visited is left open.
 */
module Cpg {
  import opened Wrappers
  import opened Ast

  datatype CpgNodeKind =
    | Function | Parameter | Variable | Type | Call | Return | Branch | Loop | Assignment | BinaryOp
    | UnaryOp | Literal | FieldAccess | IndexAccess | Block | Import | Other

  datatype CpgEdgeKind = AstChild | AstSibling | CfgNext | CfgTrue | CfgFalse | CfgBack | DfgRead | DfgWrite | DfgFlow

  datatype CpgNode = CpgNode(id: nat, kind: CpgNodeKind, name: Option<string>, location: (nat, nat), astKind: string)

  datatype CpgEdge = CpgEdge(from: nat, to: nat, kind: CpgEdgeKind)

  predicate StandsAt(s: string, part: string, i: int) {
    0 <= i <= |s| - |part| && s[i..i + |part|] == part
  }

  predicate Contains(s: string, part: string) {
    exists i :: 0 <= i <= |s| && StandsAt(s, part, i)
  }

  function Classify(kind: string): CpgNodeKind {
    if Contains(kind, "function") || Contains(kind, "method") then Function
    else if Contains(kind, "parameter") || Contains(kind, "param") then Parameter
    else if Contains(kind, "variable") || Contains(kind, "binding") || Contains(kind, "let") then Variable
    else if Contains(kind, "type") && !Contains(kind, "typeof") then Type
    else if Contains(kind, "call") || Contains(kind, "invoke") then Call
    else if Contains(kind, "return") then Return
    else if Contains(kind, "if") || Contains(kind, "match") || Contains(kind, "switch") then Branch
    else if Contains(kind, "for") || Contains(kind, "while") || Contains(kind, "loop") then Loop
    else if Contains(kind, "assignment") || kind == "=" then Assignment
    else if Contains(kind, "binary") then BinaryOp
    else if Contains(kind, "unary") then UnaryOp
    else if Contains(kind, "literal") || Contains(kind, "string") || Contains(kind, "number") then Literal
    else if Contains(kind, "field") || Contains(kind, "member") then FieldAccess
    else if Contains(kind, "index") || Contains(kind, "subscript") then IndexAccess
    else if Contains(kind, "block") || Contains(kind, "body") then Block
    else if Contains(kind, "import") || Contains(kind, "use") || Contains(kind, "include") then Import
    else Other
  }

  /** What a name suggests; "typeof" is no type, and "=" is an assignment. */
  predicate Suggests(kind: string, k: CpgNodeKind) {
    match k
    case Function => Contains(kind, "function") || Contains(kind, "method")
    case Parameter => Contains(kind, "parameter") || Contains(kind, "param")
    case Variable => Contains(kind, "variable") || Contains(kind, "binding") || Contains(kind, "let")
    case Type => Contains(kind, "type") && !Contains(kind, "typeof")
    case Call => Contains(kind, "call") || Contains(kind, "invoke")
    case Return => Contains(kind, "return")
    case Branch => Contains(kind, "if") || Contains(kind, "match") || Contains(kind, "switch")
    case Loop => Contains(kind, "for") || Contains(kind, "while") || Contains(kind, "loop")
    case Assignment => Contains(kind, "assignment") || kind == "="
    case BinaryOp => Contains(kind, "binary")
    case UnaryOp => Contains(kind, "unary")
    case Literal => Contains(kind, "literal") || Contains(kind, "string") || Contains(kind, "number")
    case FieldAccess => Contains(kind, "field") || Contains(kind, "member")
    case IndexAccess => Contains(kind, "index") || Contains(kind, "subscript")
    case Block => Contains(kind, "block") || Contains(kind, "body")
    case Import => Contains(kind, "import") || Contains(kind, "use") || Contains(kind, "include")
    case Other => true
  }

  /** The kinds in the order in which names are tried for them. */
  function Precedence(k: CpgNodeKind): nat {
    match k
    case Function => 0 case Parameter => 1 case Variable => 2 case Type => 3 case Call => 4
    case Return => 5 case Branch => 6 case Loop => 7 case Assignment => 8 case BinaryOp => 9
    case UnaryOp => 10 case Literal => 11 case FieldAccess => 12 case IndexAccess => 13
    case Block => 14 case Import => 15 case Other => 16
  }

  /** A name is classified as the first kind that it suggests. */
  lemma ClassifyIsFirst(kind: string, k: CpgNodeKind)
    ensures Classify(kind) == k <==>
            Suggests(kind, k) && forall j :: Precedence(j) < Precedence(k) ==> !Suggests(kind, j)
  {
    hide Contains;
    var c := Classify(kind);
    assert Suggests(kind, c);
    forall j | Precedence(j) < Precedence(c) ensures !Suggests(kind, j) { }
    assert Precedence(c) == Precedence(k) <==> c == k;
    assert Precedence(c) < Precedence(k) ==> Suggests(kind, c);
  }

  // ----- A tree laid out from id `base` on

  function Size(node: AstNode): (n: nat)
    ensures n >= 1
  {
    |Preorder(node)|
  }

  /** The parent-child pairs of a tree. */
  function Pairs(node: AstNode, base: nat): set<(nat, nat)>
    decreases node, 1
  {
    PairsAll(node.children, base, base + 1)
  }

  function PairsAll(nodes: seq<AstNode>, parent: nat, next: nat): set<(nat, nat)>
    decreases nodes, 0
  {
    if nodes == [] then {}
    else Pairs(nodes[0], next) + {(parent, next)} + PairsAll(nodes[1..], parent, next + Size(nodes[0]))
  }

  /** The edges in the order in which the construction adds them. */
  function EdgesOf(node: AstNode, base: nat, parent: Option<nat>): seq<CpgEdge>
    decreases node, 1
  {
    (if parent.Some? then [CpgEdge(parent.value, base, AstChild)] else [])
    + EdgesAll(node.children, base, base + 1, None)
  }

  function EdgesAll(nodes: seq<AstNode>, parent: nat, next: nat, prev: Option<nat>): seq<CpgEdge>
    decreases nodes, 0
  {
    if nodes == [] then []
    else
      EdgesOf(nodes[0], next, Some(parent))
      + (if prev.Some? then [CpgEdge(prev.value, next, AstSibling)] else [])
      + EdgesAll(nodes[1..], parent, next + Size(nodes[0]), Some(next))
  }

  function NodeFor(node: AstNode, id: nat): (n: CpgNode)
    ensures n.id == id && n.name == node.text && n.location == (node.startByte, node.endByte)
    ensures n.astKind == node.kind && n.kind == Classify(node.kind)
  {
    CpgNode(id, Classify(node.kind), node.text, (node.startByte, node.endByte), node.kind)
  }

  /** The nodes of a list of trees, numbered from `base` on. */
  function NodesFor(order: seq<AstNode>, base: nat): (r: seq<CpgNode>)
    ensures |r| == |order|
  {
    seq(|order|, i requires 0 <= i < |order| => NodeFor(order[i], base + i))
  }

  lemma NodesForAppend(a: seq<AstNode>, b: seq<AstNode>, base: nat)
    ensures NodesFor(a + b, base) == NodesFor(a, base) + NodesFor(b, base + |a|)
  {
  }

  // ----- What the layout is like

  lemma SizeSplits(nodes: seq<AstNode>)
    requires nodes != []
    ensures |PreorderAll(nodes)| == Size(nodes[0]) + |PreorderAll(nodes[1..])|
  {
  }

  /** Pairs run from a smaller to a larger id, inside the range of the tree. */
  lemma {:induction false} PairsAscend(node: AstNode, base: nat, p: nat, c: nat)
    requires (p, c) in Pairs(node, base)
    ensures base <= p < c < base + Size(node)
    decreases node, 1
  {
    PairsAllAscend(node.children, base, base + 1, p, c);
  }

  lemma {:induction false} PairsAllAscend(nodes: seq<AstNode>, parent: nat, next: nat, p: nat, c: nat)
    requires (p, c) in PairsAll(nodes, parent, next) && parent < next
    ensures p == parent || next <= p
    ensures next <= c < next + |PreorderAll(nodes)| && p < c
    decreases nodes, 0
  {
    if nodes != [] {
      var after := next + Size(nodes[0]);
      if (p, c) in Pairs(nodes[0], next) {
        PairsAscend(nodes[0], next, p, c);
      } else if (p, c) != (parent, next) {
        PairsAllAscend(nodes[1..], parent, after, p, c);
      }
    }
  }

  /** Every id of the tree but its first has exactly one parent. */
  lemma {:induction false} ParentExists(node: AstNode, base: nat, c: nat) returns (p: nat)
    requires base < c < base + Size(node)
    ensures (p, c) in Pairs(node, base)
    decreases node, 1
  {
    p := ParentAmong(node.children, base, base + 1, c);
  }

  lemma {:induction false} ParentAmong(nodes: seq<AstNode>, parent: nat, next: nat, c: nat) returns (p: nat)
    requires next <= c < next + |PreorderAll(nodes)|
    ensures (p, c) in PairsAll(nodes, parent, next)
    decreases nodes, 0
  {
    var after := next + Size(nodes[0]);
    if c == next {
      p := parent;
    } else if c < after {
      p := ParentExists(nodes[0], next, c);
    } else {
      p := ParentAmong(nodes[1..], parent, after, c);
    }
  }

  lemma {:induction false} ParentUnique(node: AstNode, base: nat, p: nat, q: nat, c: nat)
    requires (p, c) in Pairs(node, base) && (q, c) in Pairs(node, base)
    ensures p == q
    decreases node, 1
  {
    ParentUniqueAll(node.children, base, base + 1, p, q, c);
  }

  lemma {:induction false} ParentUniqueAll(nodes: seq<AstNode>, parent: nat, next: nat, p: nat, q: nat, c: nat)
    requires (p, c) in PairsAll(nodes, parent, next) && (q, c) in PairsAll(nodes, parent, next) && parent < next
    ensures p == q
    decreases nodes, 0
  {
    var after := next + Size(nodes[0]);
    Where(nodes, parent, next, p, c);
    Where(nodes, parent, next, q, c);
    if c != next {
      if c < after {
        ParentUnique(nodes[0], next, p, q, c);
      } else {
        ParentUniqueAll(nodes[1..], parent, after, p, q, c);
      }
    }
  }

  /** In which of the trees of a list a pair lies is told by its child. */
  lemma Where(nodes: seq<AstNode>, parent: nat, next: nat, p: nat, c: nat)
    requires (p, c) in PairsAll(nodes, parent, next) && parent < next
    ensures nodes != []
    ensures var after := next + Size(nodes[0]);
            if c == next then p == parent
            else if c < after then (p, c) in Pairs(nodes[0], next)
            else (p, c) in PairsAll(nodes[1..], parent, after)
  {
    if (p, c) in Pairs(nodes[0], next) {
      PairsAscend(nodes[0], next, p, c);
    } else if (p, c) != (parent, next) {
      PairsAllAscend(nodes[1..], parent, next + Size(nodes[0]), p, c);
    }
  }

  // ----- Depths

  /** The distance of every id of the tree from its first, plus `d`. */
  function Depths(node: AstNode, base: nat, d: nat): map<nat, nat>
    decreases node, 1
  {
    map[base := d] + DepthsAll(node.children, base + 1, d + 1)
  }

  function DepthsAll(nodes: seq<AstNode>, next: nat, d: nat): map<nat, nat>
    decreases nodes, 0
  {
    if nodes == [] then map[] else Depths(nodes[0], next, d) + DepthsAll(nodes[1..], next + Size(nodes[0]), d)
  }

  lemma {:induction false} DepthsRange(node: AstNode, base: nat, d: nat)
    ensures forall i :: i in Depths(node, base, d) <==> base <= i < base + Size(node)
    ensures Depths(node, base, d)[base] == d
    decreases node, 1
  {
    DepthsAllRange(node.children, base + 1, d + 1);
  }

  lemma {:induction false} DepthsAllRange(nodes: seq<AstNode>, next: nat, d: nat)
    ensures forall i :: i in DepthsAll(nodes, next, d) <==> next <= i < next + |PreorderAll(nodes)|
    decreases nodes, 0
  {
    if nodes != [] {
      DepthsRange(nodes[0], next, d);
      DepthsAllRange(nodes[1..], next + Size(nodes[0]), d);
    }
  }

  /** A child is one further away than its parent. */
  lemma {:induction false} DepthsStep(node: AstNode, base: nat, d: nat, p: nat, c: nat)
    requires (p, c) in Pairs(node, base)
    ensures p in Depths(node, base, d) && c in Depths(node, base, d)
    ensures Depths(node, base, d)[c] == Depths(node, base, d)[p] + 1
    decreases node, 1
  {
    DepthsRange(node, base, d);
    PairsAscend(node, base, p, c);
    DepthsAllStep(node.children, base, base + 1, d, p, c);
    DepthsAllRange(node.children, base + 1, d + 1);
  }

  lemma {:induction false} DepthsAllStep(nodes: seq<AstNode>, parent: nat, next: nat, d: nat, p: nat, c: nat)
    requires (p, c) in PairsAll(nodes, parent, next) && parent < next
    ensures c in DepthsAll(nodes, next, d + 1)
    ensures p == parent ==> DepthsAll(nodes, next, d + 1)[c] == d + 1
    ensures p != parent ==> p in DepthsAll(nodes, next, d + 1)
                            && DepthsAll(nodes, next, d + 1)[c] == DepthsAll(nodes, next, d + 1)[p] + 1
    decreases nodes, 0
  {
    var after := next + Size(nodes[0]);
    Where(nodes, parent, next, p, c);
    DepthsRange(nodes[0], next, d + 1);
    DepthsAllRange(nodes[1..], after, d + 1);
    if c == next {
    } else if c < after {
      DepthsStep(nodes[0], next, d + 1, p, c);
      PairsAscend(nodes[0], next, p, c);
    } else {
      DepthsAllStep(nodes[1..], parent, after, d, p, c);
    }
  }

  // ----- Subtrees

  /** The subtree that id `e` stands for. */
  function SubtreeAt(node: AstNode, base: nat, e: nat): AstNode
    requires base <= e < base + Size(node)
    decreases node, 1
  {
    if e == base then node else SubtreeAmong(node.children, base + 1, e)
  }

  function SubtreeAmong(nodes: seq<AstNode>, next: nat, e: nat): AstNode
    requires next <= e < next + |PreorderAll(nodes)|
    decreases nodes, 0
  {
    var after := next + Size(nodes[0]);
    if e < after then SubtreeAt(nodes[0], next, e) else SubtreeAmong(nodes[1..], after, e)
  }

  /** It is the tree of the node with that id: a contiguous range of ids, from `e` on, is its preorder. */
  lemma {:induction false} SubtreeIsRange(node: AstNode, base: nat, e: nat)
    requires base <= e < base + Size(node)
    ensures var sub := SubtreeAt(node, base, e);
            e + Size(sub) <= base + Size(node) && Preorder(node)[e - base..e - base + Size(sub)] == Preorder(sub)
    decreases node, 1
  {
    if e == base {
      assert Preorder(node)[0..Size(node)] == Preorder(node);
    } else {
      SubtreeIsRangeAmong(node.children, base + 1, e);
      var sub := SubtreeAt(node, base, e);
      SliceBehind([node], PreorderAll(node.children), e - base, Size(sub));
    }
  }

  lemma {:induction false} SubtreeIsRangeAmong(nodes: seq<AstNode>, next: nat, e: nat)
    requires next <= e < next + |PreorderAll(nodes)|
    ensures var sub := SubtreeAmong(nodes, next, e);
            && e + Size(sub) <= next + |PreorderAll(nodes)|
            && PreorderAll(nodes)[e - next..e - next + Size(sub)] == Preorder(sub)
    decreases nodes, 0
  {
    var after, sub := next + Size(nodes[0]), SubtreeAmong(nodes, next, e);
    PreorderFirst(nodes);
    if e < after {
      SubtreeIsRange(nodes[0], next, e);
      SliceInFront(Preorder(nodes[0]), PreorderAll(nodes[1..]), e - next, Size(sub));
    } else {
      SubtreeIsRangeAmong(nodes[1..], after, e);
      SliceBehind(Preorder(nodes[0]), PreorderAll(nodes[1..]), e - next, Size(sub));
    }
  }

  lemma SliceInFront<T>(a: seq<T>, b: seq<T>, i: nat, n: nat)
    requires i + n <= |a|
    ensures (a + b)[i..i + n] == a[i..i + n]
  {
  }

  lemma SliceBehind<T>(a: seq<T>, b: seq<T>, i: nat, n: nat)
    requires |a| <= i && i + n <= |a| + |b|
    ensures (a + b)[i..i + n] == b[i - |a|..i - |a| + n]
  {
  }

  /** A subtree takes a contiguous range of ids, and the pairs that start in it are its own. */
  lemma {:induction false} SubtreePairs(node: AstNode, base: nat, e: nat)
    requires base <= e < base + Size(node)
    ensures var sub := SubtreeAt(node, base, e);
            && e + Size(sub) <= base + Size(node)
            && Pairs(sub, e) <= Pairs(node, base)
            && forall p, c :: (p, c) in Pairs(node, base) && e <= p < e + Size(sub) ==> (p, c) in Pairs(sub, e)
    decreases node, 1
  {
    if e != base { SubtreePairsAmong(node.children, base, base + 1, e); }
  }

  lemma {:induction false} SubtreePairsAmong(nodes: seq<AstNode>, parent: nat, next: nat, e: nat)
    requires next <= e < next + |PreorderAll(nodes)| && parent < next
    ensures var sub := SubtreeAmong(nodes, next, e);
            && e + Size(sub) <= next + |PreorderAll(nodes)|
            && Pairs(sub, e) <= PairsAll(nodes, parent, next)
            && forall p, c :: (p, c) in PairsAll(nodes, parent, next) && e <= p < e + Size(sub) ==>
                 (p, c) in Pairs(sub, e)
    decreases nodes, 0
  {
    var after := next + Size(nodes[0]);
    var sub := SubtreeAmong(nodes, next, e);
    if e < after {
      SubtreePairs(nodes[0], next, e);
    } else {
      SubtreePairsAmong(nodes[1..], parent, after, e);
    }
    forall p, c | (p, c) in PairsAll(nodes, parent, next) && e <= p < e + Size(sub) ensures (p, c) in Pairs(sub, e) {
      PairsAllAscend(nodes, parent, next, p, c);
      Where(nodes, parent, next, p, c);
      if c < after && c != next { PairsAscend(nodes[0], next, p, c); }
      if c >= after { PairsAllAscend(nodes[1..], parent, after, p, c); }
    }
  }

  // ----- The tree edges of a graph

  /** The parent-child pairs among the edges; control and data flow edges are not looked at. */
  function ChildPairs(edges: seq<CpgEdge>): set<(nat, nat)> {
    set e | e in edges && e.kind == AstChild :: (e.from, e.to)
  }

  function ChildCount(edges: seq<CpgEdge>): nat {
    if edges == [] then 0 else (if edges[0].kind == AstChild then 1 else 0) + ChildCount(edges[1..])
  }

  lemma {:induction false} ChildEdgesAppend(a: seq<CpgEdge>, b: seq<CpgEdge>)
    ensures ChildPairs(a + b) == ChildPairs(a) + ChildPairs(b)
    ensures ChildCount(a + b) == ChildCount(a) + ChildCount(b)
  {
    if a == [] {
      assert a + b == b;
    } else {
      assert (a + b)[1..] == a[1..] + b;
      ChildEdgesAppend(a[1..], b);
      assert a == [a[0]] + a[1..] && a + b == [a[0]] + (a[1..] + b);
    }
  }

  lemma OneEdge(e: CpgEdge)
    ensures ChildPairs([e]) == if e.kind == AstChild then {(e.from, e.to)} else {}
    ensures ChildCount([e]) == if e.kind == AstChild then 1 else 0
  {
    assert [e][1..] == [];
  }

  /** The edges of a tree are its pairs, one edge for each id but the first. */
  lemma {:induction false} TreeEdges(node: AstNode, base: nat, parent: Option<nat>)
    ensures ChildPairs(EdgesOf(node, base, parent))
         == Pairs(node, base) + if parent.Some? then {(parent.value, base)} else {}
    ensures ChildCount(EdgesOf(node, base, parent)) == Size(node) - if parent.Some? then 0 else 1
    decreases node, 1
  {
    var first := if parent.Some? then [CpgEdge(parent.value, base, AstChild)] else [];
    ChildEdgesAppend(first, EdgesAll(node.children, base, base + 1, None));
    if parent.Some? { OneEdge(first[0]); }
    TreeEdgesAll(node.children, base, base + 1, None);
  }

  /** The edges of a list of trees match its pairs, one for each id. */
  ghost predicate Matches(nodes: seq<AstNode>, parent: nat, next: nat, prev: Option<nat>) {
    && ChildPairs(EdgesAll(nodes, parent, next, prev)) == PairsAll(nodes, parent, next)
    && ChildCount(EdgesAll(nodes, parent, next, prev)) == |PreorderAll(nodes)|
  }

  lemma {:induction false} TreeEdgesAll(nodes: seq<AstNode>, parent: nat, next: nat, prev: Option<nat>)
    ensures Matches(nodes, parent, next, prev)
    decreases nodes, 0
  {
    hide Matches;
    if nodes == [] {
      NoEdges(parent, next, prev);
    } else {
      TreeEdgesAll(nodes[1..], parent, next + Size(nodes[0]), Some(next));
      TreeEdges(nodes[0], next, Some(parent));
      OneTreeMore(nodes, parent, next, prev);
    }
  }

  lemma {:induction false} OneTreeMore(nodes: seq<AstNode>, parent: nat, next: nat, prev: Option<nat>)
    requires nodes != [] && Matches(nodes[1..], parent, next + Size(nodes[0]), Some(next))
    requires ChildPairs(EdgesOf(nodes[0], next, Some(parent))) == Pairs(nodes[0], next) + {(parent, next)}
    requires ChildCount(EdgesOf(nodes[0], next, Some(parent))) == Size(nodes[0])
    ensures Matches(nodes, parent, next, prev)
  {
    SizeSplits(nodes);
    TreeEdgesStep(nodes, parent, next, prev);
    hide ChildPairs, ChildCount, EdgesOf, EdgesAll, Pairs, Preorder, PreorderAll;
  }

  lemma NoEdges(parent: nat, next: nat, prev: Option<nat>)
    ensures Matches([], parent, next, prev)
  {
    assert EdgesAll([], parent, next, prev) == [];
    assert ChildPairs([]) == {};
  }

  lemma TreeEdgesStep(nodes: seq<AstNode>, parent: nat, next: nat, prev: Option<nat>)
    requires nodes != []
    ensures var a := EdgesOf(nodes[0], next, Some(parent));
            var c := EdgesAll(nodes[1..], parent, next + Size(nodes[0]), Some(next));
            && ChildPairs(EdgesAll(nodes, parent, next, prev)) == ChildPairs(a) + ChildPairs(c)
            && ChildCount(EdgesAll(nodes, parent, next, prev)) == ChildCount(a) + ChildCount(c)
  {
    hide ChildPairs, ChildCount, EdgesOf, EdgesAll;
    var a, c := EdgesOf(nodes[0], next, Some(parent)), EdgesAll(nodes[1..], parent, next + Size(nodes[0]), Some(next));
    FirstEdges(nodes, parent, next, prev);
    if prev.Some? {
      var e := CpgEdge(prev.value, next, AstSibling);
      ChildEdgesAppend(a + [e], c);
      ChildEdgesAppend(a, [e]);
      OneEdge(e);
    } else {
      assert a + [] + c == a + c;
      ChildEdgesAppend(a, c);
    }
  }

  // ----- Distances

  /** `y` is `n` edges down from `x`. */
  ghost predicate Path(pairs: set<(nat, nat)>, x: nat, y: nat, n: nat)
    decreases n
  {
    if n == 0 then x == y else exists z: nat :: Path(pairs, x, z, n - 1) && (z, y) in pairs
  }

  /** `depths` holds exactly what can be reached from `start`, with the length of a shortest path. */
  ghost predicate IsDepths(pairs: set<(nat, nat)>, start: nat, depths: map<nat, nat>) {
    && (forall x :: x in depths ==> Path(pairs, start, x, depths[x]))
    && (forall x: nat, n: nat :: Path(pairs, start, x, n) ==> x in depths && depths[x] <= n)
  }

  /** The children of what has been reached are no more than one further away. */
  ghost predicate OneFurther(pairs: set<(nat, nat)>, depths: map<nat, nat>, x: nat)
    requires x in depths
  {
    forall y: nat :: (x, y) in pairs ==> y in depths && depths[y] <= depths[x] + 1
  }

  lemma {:induction false} ClosedReachesAll(pairs: set<(nat, nat)>, start: nat, depths: map<nat, nat>, x: nat, n: nat)
    requires start in depths && depths[start] == 0
    requires forall z :: z in depths ==> OneFurther(pairs, depths, z)
    requires Path(pairs, start, x, n)
    ensures x in depths && depths[x] <= n
    decreases n
  {
    if n > 0 {
      var z: nat :| Path(pairs, start, z, n - 1) && (z, x) in pairs;
      ClosedReachesAll(pairs, start, depths, z, n - 1);
      assert OneFurther(pairs, depths, z);
    }
  }

  /** In a tree the distances from an id are those of its subtree, whatever other edges the graph has. */
  lemma TreeDepths(ast: AstNode, e: nat, depths: map<nat, nat>)
    requires e < Size(ast) && IsDepths(Pairs(ast, 0), e, depths)
    ensures depths == Depths(SubtreeAt(ast, 0, e), e, 0)
  {
    var pairs, sub := Pairs(ast, 0), SubtreeAt(ast, 0, e);
    var d := Depths(sub, e, 0);
    SubtreePairs(ast, 0, e);
    DepthsRange(sub, e, 0);
    forall x | x in depths ensures x in d && d[x] == depths[x] {
      PathStaysInSubtree(ast, e, x, depths[x]);
    }
    forall x | x in d ensures x in depths {
      SubtreeIsReached(ast, e, x);
    }
  }

  lemma {:induction false} PathStaysInSubtree(ast: AstNode, e: nat, x: nat, n: nat)
    requires e < Size(ast) && Path(Pairs(ast, 0), e, x, n)
    ensures var d := Depths(SubtreeAt(ast, 0, e), e, 0); x in d && d[x] == n
    decreases n
  {
    var sub := SubtreeAt(ast, 0, e);
    DepthsRange(sub, e, 0);
    if n > 0 {
      var z: nat :| Path(Pairs(ast, 0), e, z, n - 1) && (z, x) in Pairs(ast, 0);
      PathStaysInSubtree(ast, e, z, n - 1);
      SubtreePairs(ast, 0, e);
      DepthsStep(sub, e, 0, z, x);
    }
  }

  lemma {:induction false} SubtreeIsReached(ast: AstNode, e: nat, x: nat)
    requires e < Size(ast) && e <= x < e + Size(SubtreeAt(ast, 0, e))
    ensures var d := Depths(SubtreeAt(ast, 0, e), e, 0); x in d && Path(Pairs(ast, 0), e, x, d[x])
    decreases x
  {
    var sub := SubtreeAt(ast, 0, e);
    var d := Depths(sub, e, 0);
    DepthsRange(sub, e, 0);
    if x > e {
      var p := ParentExists(sub, e, x);
      PairsAscend(sub, e, p, x);
      SubtreeIsReached(ast, e, p);
      DepthsStep(sub, e, 0, p, x);
      SubtreePairs(ast, 0, e);
      assert Path(Pairs(ast, 0), e, p, d[x] - 1) && (p, x) in Pairs(ast, 0);
    }
  }

  // ----- The search

  /** What the queue holds waits to be visited: in order of depth, none more than one deeper than the first. */
  ghost predicate QueueInv(depths: map<nat, nat>, queue: seq<(nat, nat)>, front: nat) {
    && (forall i :: 0 <= i < |queue| ==> queue[i].0 in depths && depths[queue[i].0] == queue[i].1)
    && (forall i :: 0 <= i < |queue| ==> front <= queue[i].1 <= front + 1)
    && (forall i, j :: 0 <= i < j < |queue| ==> queue[i].1 <= queue[j].1)
    && (forall x :: x in depths ==> depths[x] <= front + 1)
  }

  ghost predicate Queued(queue: seq<(nat, nat)>, x: nat) {
    exists i :: 0 <= i < |queue| && queue[i].0 == x
  }

  /** Depths are lengths of paths to nodes of the graph, the start's among them. */
  ghost predicate Reached(pairs: set<(nat, nat)>, start: nat, n: nat, depths: map<nat, nat>) {
    && start in depths && depths[start] == 0
    && forall x :: x in depths ==> x < n && Path(pairs, start, x, depths[x])
  }

  /** What has been visited has its children reached. */
  ghost predicate Visited(pairs: set<(nat, nat)>, depths: map<nat, nat>, processed: set<nat>) {
    forall x :: x in processed ==> x in depths && OneFurther(pairs, depths, x)
  }

  /** Everything reached has been visited or waits; what has been visited has its children reached. */
  ghost predicate SearchInv(pairs: set<(nat, nat)>, start: nat, n: nat, depths: map<nat, nat>,
                            queue: seq<(nat, nat)>, processed: set<nat>)
  {
    && Reached(pairs, start, n, depths)
    && (queue != [] ==> QueueInv(depths, queue, queue[0].1))
    && (forall x :: x in depths ==> x in processed || Queued(queue, x))
    && Visited(pairs, depths, processed)
  }

  lemma SearchStarts(pairs: set<(nat, nat)>, start: nat)
    ensures forall n :: start < n ==> SearchInv(pairs, start, n, map[start := 0], [(start, 0)], {})
  {
    assert Path(pairs, start, start, 0);
    assert [(start, 0)][0].0 == start;
  }

  lemma SearchDone(pairs: set<(nat, nat)>, start: nat, n: nat, depths: map<nat, nat>, processed: set<nat>)
    requires SearchInv(pairs, start, n, depths, [], processed)
    ensures IsDepths(pairs, start, depths)
  {
    forall x: nat, k: nat | Path(pairs, start, x, k) ensures x in depths && depths[x] <= k {
      ClosedReachesAll(pairs, start, depths, x, k);
    }
  }

  lemma SearchBounded(pairs: set<(nat, nat)>, start: nat, n: nat, depths: map<nat, nat>,
                      queue: seq<(nat, nat)>, processed: set<nat>)
    requires SearchInv(pairs, start, n, depths, queue, processed)
    ensures |depths| <= n
  {
    BelowBound(depths.Keys, n);
  }

  lemma {:induction false} BelowBound(s: set<nat>, n: nat)
    requires forall x :: x in s ==> x < n
    ensures |s| <= n
  {
    if n == 0 {
      assert s == {};
    } else {
      BelowBound(s - {n - 1}, n - 1);
    }
  }

  /** While the children `seen` of `x` have been looked at. */
  ghost predicate VisitInv(pairs: set<(nat, nat)>, start: nat, n: nat, x: nat, d: nat, depths: map<nat, nat>,
                           queue: seq<(nat, nat)>, processed: set<nat>, seen: set<nat>)
  {
    && x in depths && depths[x] == d
    && Reached(pairs, start, n, depths)
    && QueueInv(depths, queue, d)
    && (forall y :: y in depths ==> y in processed || y == x || Queued(queue, y))
    && Visited(pairs, depths, processed)
    && (forall y :: y in seen ==> y in depths && depths[y] <= d + 1)
  }

  lemma VisitStarts(pairs: set<(nat, nat)>, start: nat, n: nat, depths: map<nat, nat>,
                    queue: seq<(nat, nat)>, processed: set<nat>)
    requires SearchInv(pairs, start, n, depths, queue, processed) && queue != []
    ensures VisitInv(pairs, start, n, queue[0].0, queue[0].1, depths, queue[1..], processed, {})
  {
    hide Reached, Visited;
    forall y | y in depths && y !in processed && y != queue[0].0 ensures Queued(queue[1..], y) {
      var i :| 0 <= i < |queue| && queue[i].0 == y;
      assert queue[1..][i - 1].0 == y;
    }
  }

  lemma VisitReached(pairs: set<(nat, nat)>, start: nat, n: nat, x: nat, d: nat, depths: map<nat, nat>,
                     queue: seq<(nat, nat)>, processed: set<nat>, seen: set<nat>, y: nat)
    requires VisitInv(pairs, start, n, x, d, depths, queue, processed, seen)
    requires (x, y) in pairs && y < n
    ensures y in depths ==> VisitInv(pairs, start, n, x, d, depths, queue, processed, seen + {y})
    ensures y !in depths ==>
              VisitInv(pairs, start, n, x, d, depths[y := d + 1], queue + [(y, d + 1)], processed, seen + {y})
  {
    if y in depths {
      assert depths[y] <= d + 1;
      hide Reached, Visited, Queued, QueueInv;
    } else {
      ReachedMore(pairs, start, n, x, d, depths, y);
      VisitedMore(pairs, depths, processed, y, d + 1);
      QueueMore(depths, queue, d, y);
      QueuedMore(queue, (y, d + 1));
      hide Reached, Visited, Queued, QueueInv;
    }
  }

  lemma ReachedMore(pairs: set<(nat, nat)>, start: nat, n: nat, x: nat, d: nat, depths: map<nat, nat>, y: nat)
    requires Reached(pairs, start, n, depths) && x in depths && depths[x] == d
    requires (x, y) in pairs && y < n && y !in depths
    ensures Reached(pairs, start, n, depths[y := d + 1])
  {
    assert Path(pairs, start, x, d + 1 - 1) && (x, y) in pairs;
    assert Path(pairs, start, y, d + 1);
  }

  lemma VisitedMore(pairs: set<(nat, nat)>, depths: map<nat, nat>, processed: set<nat>, y: nat, d: nat)
    requires Visited(pairs, depths, processed) && y !in depths
    ensures Visited(pairs, depths[y := d], processed)
  {
    forall z | z in processed ensures z in depths[y := d] && OneFurther(pairs, depths[y := d], z) {
      assert OneFurther(pairs, depths, z);
    }
  }

  lemma QueueMore(depths: map<nat, nat>, queue: seq<(nat, nat)>, d: nat, y: nat)
    requires QueueInv(depths, queue, d) && y !in depths
    ensures QueueInv(depths[y := d + 1], queue + [(y, d + 1)], d)
  {
  }

  lemma QueuedMore(queue: seq<(nat, nat)>, e: (nat, nat))
    ensures forall z :: Queued(queue + [e], z) <==> Queued(queue, z) || z == e.0
  {
    var more := queue + [e];
    assert more[|queue|] == e;
    forall z | Queued(queue, z) ensures Queued(more, z) {
      var i :| 0 <= i < |queue| && queue[i].0 == z;
      assert more[i] == queue[i];
    }
  }

  lemma VisitEnds(pairs: set<(nat, nat)>, start: nat, n: nat, x: nat, d: nat, depths: map<nat, nat>,
                  queue: seq<(nat, nat)>, processed: set<nat>, seen: set<nat>)
    requires VisitInv(pairs, start, n, x, d, depths, queue, processed, seen)
    requires forall y: nat :: (x, y) in pairs ==> y in seen
    ensures SearchInv(pairs, start, n, depths, queue, processed + {x})
  {
    hide Reached;
    assert OneFurther(pairs, depths, x);
  }

  /** The nodes and edges so far, with those still to come, make up those of all the children. */
  ghost predicate ToCome(children: seq<AstNode>, parent: nat, i: nat, prev: Option<nat>, nodes: seq<CpgNode>,
                         edges: seq<CpgEdge>, nodes0: seq<CpgNode>, edges0: seq<CpgEdge>)
    requires i <= |children|
  {
    && nodes + NodesFor(PreorderAll(children[i..]), |nodes|) == nodes0 + NodesFor(PreorderAll(children), |nodes0|)
    && edges + EdgesAll(children[i..], parent, |nodes|, prev) == edges0 + EdgesAll(children, parent, |nodes0|, None)
  }

  lemma AllToCome(children: seq<AstNode>, parent: nat, nodes: seq<CpgNode>, edges: seq<CpgEdge>)
    ensures ToCome(children, parent, 0, None, nodes, edges, nodes, edges)
  {
    assert children[0..] == children;
  }

  lemma NoneToCome(children: seq<AstNode>, parent: nat, prev: Option<nat>, nodes: seq<CpgNode>,
                   edges: seq<CpgEdge>, nodes0: seq<CpgNode>, edges0: seq<CpgEdge>)
    requires ToCome(children, parent, |children|, prev, nodes, edges, nodes0, edges0)
    ensures nodes == nodes0 + NodesFor(PreorderAll(children), |nodes0|)
    ensures edges == edges0 + EdgesAll(children, parent, |nodes0|, None)
  {
    assert children[|children|..] == [];
    NoChildren(parent);
    hide NodesFor, EdgesAll, PreorderAll;
  }

  lemma ChildStep(children: seq<AstNode>, parent: nat, i: nat, prev: Option<nat>, nodes: seq<CpgNode>,
                  edges: seq<CpgEdge>, nodes0: seq<CpgNode>, edges0: seq<CpgEdge>)
    requires i < |children| && ToCome(children, parent, i, prev, nodes, edges, nodes0, edges0)
    ensures var next := |nodes|;
            ToCome(children, parent, i + 1, Some(next), nodes + NodesFor(Preorder(children[i]), next),
                   edges + EdgesOf(children[i], next, Some(parent))
                   + (if prev.Some? then [CpgEdge(prev.value, next, AstSibling)] else []), nodes0, edges0)
  {
    var next, after := |nodes|, |nodes| + Size(children[i]);
    var sibling := if prev.Some? then [CpgEdge(prev.value, next, AstSibling)] else [];
    assert |NodesFor(Preorder(children[i]), next)| == Size(children[i]);
    assert children[i..][1..] == children[i + 1..] && children[i..][0] == children[i];
    hide NodesFor, EdgesOf, EdgesAll, Preorder, PreorderAll, Size;
    FirstNodes(children[i..], next);
    FirstEdges(children[i..], parent, next, prev);
    Regroup(nodes, NodesFor(Preorder(children[i]), next), [], NodesFor(PreorderAll(children[i + 1..]), after));
    Regroup(edges, EdgesOf(children[i], next, Some(parent)), sibling,
            EdgesAll(children[i + 1..], parent, after, Some(next)));
  }

  /** A tree's root comes first, then its children. */
  lemma RootFirst(ast: AstNode, idx: nat, parent: Option<nat>)
    ensures NodesFor(Preorder(ast), idx) == [NodeFor(ast, idx)] + NodesFor(PreorderAll(ast.children), idx + 1)
    ensures EdgesOf(ast, idx, parent)
         == (if parent.Some? then [CpgEdge(parent.value, idx, AstChild)] else [])
            + EdgesAll(ast.children, idx, idx + 1, None)
  {
    assert NodesFor([ast], idx) == [NodeFor(ast, idx)];
    NodesForSplit(Preorder(ast), [ast], PreorderAll(ast.children), 1, idx);
  }

  lemma PreorderFirst(nodes: seq<AstNode>)
    requires nodes != []
    ensures PreorderAll(nodes) == Preorder(nodes[0]) + PreorderAll(nodes[1..])
  {
  }

  lemma NodesForSplit(whole: seq<AstNode>, a: seq<AstNode>, b: seq<AstNode>, size: nat, base: nat)
    requires whole == a + b && size == |a|
    ensures NodesFor(whole, base) == NodesFor(a, base) + NodesFor(b, base + size)
  {
    NodesForAppend(a, b, base);
  }

  lemma {:induction false} FirstNodes(nodes: seq<AstNode>, next: nat)
    requires nodes != []
    ensures NodesFor(PreorderAll(nodes), next)
         == NodesFor(Preorder(nodes[0]), next) + NodesFor(PreorderAll(nodes[1..]), next + Size(nodes[0]))
  {
    PreorderFirst(nodes);
    NodesForSplit(PreorderAll(nodes), Preorder(nodes[0]), PreorderAll(nodes[1..]), Size(nodes[0]), next);
    hide *;
  }

  lemma FirstEdges(nodes: seq<AstNode>, parent: nat, next: nat, prev: Option<nat>)
    requires nodes != []
    ensures EdgesAll(nodes, parent, next, prev)
         == EdgesOf(nodes[0], next, Some(parent))
            + (if prev.Some? then [CpgEdge(prev.value, next, AstSibling)] else [])
            + EdgesAll(nodes[1..], parent, next + Size(nodes[0]), Some(next))
  {
  }

  lemma Regroup<T>(a: seq<T>, b: seq<T>, c: seq<T>, d: seq<T>)
    ensures a + (b + c + d) == (a + b + c) + d
    ensures a + (b + d) == (a + b) + d
    ensures c == [] ==> a + b + c == a + b
  {
  }

  lemma NoChildren(parent: nat)
    ensures PreorderAll([]) == [] && forall n :: NodesFor([], n) == []
    ensures forall n, prev :: EdgesAll([], parent, n, prev) == []
  {
  }

  // ----- Control flow

  function TargetsIn(edges: seq<CpgEdge>, idx: nat, kind: CpgEdgeKind): seq<nat> {
    if edges == [] then []
    else
      var last := edges[|edges| - 1];
      TargetsIn(edges[..|edges| - 1], idx, kind) + if last.from == idx && last.kind == kind then [last.to] else []
  }

  /** The targets of one node's edges of one kind, in some order. */
  predicate InSomeOrder(targets: seq<nat>, edges: seq<CpgEdge>, idx: nat, kind: CpgEdgeKind) {
    multiset(targets) == multiset(TargetsIn(edges, idx, kind))
  }

  function FlowEdges(kind: CpgNodeKind, idx: nat, children: seq<nat>, siblings: seq<nat>): seq<CpgEdge> {
    match kind
    case Branch =>
      (if |children| >= 2 then [CpgEdge(idx, children[0], CfgTrue)] else [])
      + if |children| >= 3 then [CpgEdge(idx, children[1], CfgFalse)] else []
    case Loop =>
      (if |children| >= 1 then
         [CpgEdge(idx, children[0], CfgTrue), CpgEdge(children[|children| - 1], idx, CfgBack)]
       else [])
      + if |siblings| >= 1 then [CpgEdge(idx, siblings[0], CfgFalse)] else []
    case _ => []
  }

  ghost predicate NodeFlow(nodes: seq<CpgNode>, edges: seq<CpgEdge>, i: nat, flow: seq<CpgEdge>) {
    i < |nodes| && exists children, siblings ::
      && InSomeOrder(children, edges, i, AstChild) && InSomeOrder(siblings, edges, i, AstSibling)
      && flow == FlowEdges(nodes[i].kind, i, children, siblings)
  }

  /** The flow edges of the first `n` nodes of a graph, node by node. */
  ghost predicate Flow(nodes: seq<CpgNode>, edges: seq<CpgEdge>, n: nat, flow: seq<CpgEdge>) {
    if n == 0 then flow == []
    else
      exists before, last ::
        Flow(nodes, edges, n - 1, before) && NodeFlow(nodes, edges, n - 1, last) && flow == before + last
  }

  function ReturnsIn(nodes: seq<CpgNode>): seq<nat> {
    if nodes == [] then []
    else
      var n := |nodes| - 1;
      ReturnsIn(nodes[..n]) + if nodes[n].kind == Return then [n] else []
  }

  lemma TargetsSnoc(edges: seq<CpgEdge>, i: nat, idx: nat, kind: CpgEdgeKind)
    requires i < |edges|
    ensures multiset(TargetsIn(edges[..i + 1], idx, kind))
         == multiset(TargetsIn(edges[..i], idx, kind))
            + if edges[i].from == idx && edges[i].kind == kind then multiset{edges[i].to} else multiset{}
  {
    assert edges[..i + 1][..i] == edges[..i];
  }

  lemma PutAt(s: seq<nat>, at: nat, x: nat)
    requires at <= |s|
    ensures multiset(s[..at] + [x] + s[at..]) == multiset(s) + multiset{x}
  {
    assert s == s[..at] + s[at..];
  }

  lemma {:induction false} TargetInEdges(edges: seq<CpgEdge>, idx: nat, kind: CpgEdgeKind, t: nat)
    ensures t in TargetsIn(edges, idx, kind) <==> CpgEdge(idx, t, kind) in edges
  {
    if edges != [] {
      TargetInEdges(edges[..|edges| - 1], idx, kind, t);
      assert edges == edges[..|edges| - 1] + [edges[|edges| - 1]];
    }
  }

  lemma OrderedTargets(targets: seq<nat>, edges: seq<CpgEdge>, idx: nat, kind: CpgEdgeKind)
    requires InSomeOrder(targets, edges, idx, kind)
    ensures |targets| == |TargetsIn(edges, idx, kind)|
    ensures forall t :: t in targets ==> CpgEdge(idx, t, kind) in edges
  {
    assert |multiset(targets)| == |targets| && |multiset(TargetsIn(edges, idx, kind))| == |TargetsIn(edges, idx, kind)|;
    forall t | t in targets ensures CpgEdge(idx, t, kind) in edges {
      assert t in multiset(targets);
      TargetInEdges(edges, idx, kind, t);
    }
  }

  predicate OnlyFlow(flow: seq<CpgEdge>) {
    forall e :: e in flow ==> e.kind != AstChild && e.kind != AstSibling
  }

  lemma {:induction false} TargetsBesideFlow(edges: seq<CpgEdge>, flow: seq<CpgEdge>, idx: nat, kind: CpgEdgeKind)
    requires OnlyFlow(flow) && (kind == AstChild || kind == AstSibling)
    ensures TargetsIn(edges + flow, idx, kind) == TargetsIn(edges, idx, kind)
  {
    if flow == [] {
      assert edges + flow == edges;
    } else {
      var init := flow[..|flow| - 1];
      assert (edges + flow)[..|edges + flow| - 1] == edges + init;
      TargetsBesideFlow(edges, init, idx, kind);
    }
  }

  /** What a flow edge may be: it follows a tree edge out of, or back into, a branch or a loop. */
  predicate FollowsTree(nodes: seq<CpgNode>, edges: seq<CpgEdge>, e: CpgEdge) {
    match e.kind
    case CfgTrue => e.from < |nodes| && nodes[e.from].kind in {Branch, Loop} && CpgEdge(e.from, e.to, AstChild) in edges
    case CfgFalse =>
      e.from < |nodes|
      && ((nodes[e.from].kind == Branch && CpgEdge(e.from, e.to, AstChild) in edges)
          || (nodes[e.from].kind == Loop && CpgEdge(e.from, e.to, AstSibling) in edges))
    case CfgBack => e.to < |nodes| && nodes[e.to].kind == Loop && CpgEdge(e.to, e.from, AstChild) in edges
    case _ => false
  }

  lemma FlowEdgesFollowTree(nodes: seq<CpgNode>, edges: seq<CpgEdge>, i: nat, children: seq<nat>, siblings: seq<nat>)
    requires i < |nodes|
    requires forall t :: t in children ==> CpgEdge(i, t, AstChild) in edges
    requires forall t :: t in siblings ==> CpgEdge(i, t, AstSibling) in edges
    ensures forall e :: e in FlowEdges(nodes[i].kind, i, children, siblings) ==> FollowsTree(nodes, edges, e)
  {
    if children != [] {
      assert children[0] in children && children[|children| - 1] in children;
    }
    if |children| > 1 {
      assert children[1] in children;
    }
    if siblings != [] {
      assert siblings[0] in siblings;
    }
  }

  lemma NodeFlowFollowsTree(nodes: seq<CpgNode>, edges: seq<CpgEdge>, i: nat, flow: seq<CpgEdge>)
    requires NodeFlow(nodes, edges, i, flow)
    ensures forall e :: e in flow ==> FollowsTree(nodes, edges, e)
  {
    hide InSomeOrder, FlowEdges, FollowsTree;
    var children, siblings :| InSomeOrder(children, edges, i, AstChild) && InSomeOrder(siblings, edges, i, AstSibling)
                              && flow == FlowEdges(nodes[i].kind, i, children, siblings);
    OrderedTargets(children, edges, i, AstChild);
    OrderedTargets(siblings, edges, i, AstSibling);
    FlowEdgesFollowTree(nodes, edges, i, children, siblings);
  }

  /** Every flow edge follows a tree edge, so none is a tree edge itself. */
  lemma {:induction false} FlowFollowsTree(nodes: seq<CpgNode>, edges: seq<CpgEdge>, n: nat, flow: seq<CpgEdge>)
    requires Flow(nodes, edges, n, flow)
    ensures OnlyFlow(flow) && forall e :: e in flow ==> FollowsTree(nodes, edges, e)
  {
    hide Flow;
    forall e | e in flow ensures FollowsTree(nodes, edges, e) {
      FlowEdgeFollowsTree(nodes, edges, n, flow, e);
    }
  }

  lemma {:induction false} FlowEdgeFollowsTree(nodes: seq<CpgNode>, edges: seq<CpgEdge>, n: nat, flow: seq<CpgEdge>,
                                               e: CpgEdge)
    requires Flow(nodes, edges, n, flow) && e in flow
    ensures FollowsTree(nodes, edges, e)
  {
    hide NodeFlow, FollowsTree;
    if n > 0 {
      var before, last :| Flow(nodes, edges, n - 1, before) && NodeFlow(nodes, edges, n - 1, last)
                          && flow == before + last;
      if e in before {
        FlowEdgeFollowsTree(nodes, edges, n - 1, before, e);
      } else {
        NodeFlowFollowsTree(nodes, edges, n - 1, last);
      }
    }
  }

  predicate Leaves(flow: seq<CpgEdge>, i: nat, kind: CpgEdgeKind) {
    exists k :: 0 <= k < |flow| && flow[k].from == i && flow[k].kind == kind
  }

  /** When a node with that many children and later siblings has a way out of this kind. */
  predicate HasWayOut(node: CpgNodeKind, children: nat, siblings: nat, kind: CpgEdgeKind)
  {
    match kind
    case CfgTrue => (node == Branch && children >= 2) || (node == Loop && children >= 1)
    case CfgFalse => (node == Branch && children >= 3) || (node == Loop && siblings >= 1)
    case _ => false
  }

  /** Which nodes have a way out marked true, and which one marked false. */
  lemma {:induction false} FlowLeaves(nodes: seq<CpgNode>, edges: seq<CpgEdge>, n: nat, flow: seq<CpgEdge>, i: nat,
                                      kind: CpgEdgeKind)
    requires Flow(nodes, edges, n, flow) && n <= |nodes| && (kind == CfgTrue || kind == CfgFalse)
    ensures Leaves(flow, i, kind)
       <==> i < n && HasWayOut(nodes[i].kind, |TargetsIn(edges, i, AstChild)|, |TargetsIn(edges, i, AstSibling)|, kind)
  {
    hide HasWayOut, TargetsIn, NodeFlow, Leaves;
    if n == 0 {
      NothingLeaves(i, kind);
    } else {
      var before, last :| Flow(nodes, edges, n - 1, before) && NodeFlow(nodes, edges, n - 1, last)
                          && flow == before + last;
      LeavesAppend(before, last, i, kind);
      FlowLeaves(nodes, edges, n - 1, before, i, kind);
      NodeFlowLeaves(nodes, edges, n - 1, last, i, kind);
    }
  }

  lemma NothingLeaves(i: nat, kind: CpgEdgeKind)
    ensures !Leaves([], i, kind)
  {
  }

  lemma LeavesAppend(a: seq<CpgEdge>, b: seq<CpgEdge>, i: nat, kind: CpgEdgeKind)
    ensures Leaves(a + b, i, kind) <==> Leaves(a, i, kind) || Leaves(b, i, kind)
  {
    if Leaves(b, i, kind) {
      var k :| 0 <= k < |b| && b[k].from == i && b[k].kind == kind;
      assert (a + b)[|a| + k] == b[k];
    }
    if Leaves(a, i, kind) {
      var k :| 0 <= k < |a| && a[k].from == i && a[k].kind == kind;
      assert (a + b)[k] == a[k];
    }
  }

  lemma FlowEdgesLeave(node: CpgNodeKind, m: nat, children: seq<nat>, siblings: seq<nat>, i: nat, kind: CpgEdgeKind)
    requires kind == CfgTrue || kind == CfgFalse
    ensures Leaves(FlowEdges(node, m, children, siblings), i, kind)
       <==> i == m && HasWayOut(node, |children|, |siblings|, kind)
  {
    var flow := FlowEdges(node, m, children, siblings);
    if Leaves(flow, i, kind) {
      var k :| 0 <= k < |flow| && flow[k].from == i && flow[k].kind == kind;
    }
    if i == m && HasWayOut(node, |children|, |siblings|, kind) {
      var k := if kind == CfgTrue then 0 else |flow| - 1;
      assert flow[k].from == i && flow[k].kind == kind;
    }
  }

  lemma {:induction false} NodeFlowLeaves(nodes: seq<CpgNode>, edges: seq<CpgEdge>, m: nat, flow: seq<CpgEdge>, i: nat,
                                          kind: CpgEdgeKind)
    requires NodeFlow(nodes, edges, m, flow) && (kind == CfgTrue || kind == CfgFalse)
    ensures Leaves(flow, i, kind)
       <==> i == m && HasWayOut(nodes[m].kind, |TargetsIn(edges, m, AstChild)|, |TargetsIn(edges, m, AstSibling)|, kind)
  {
    hide InSomeOrder, FlowEdges, TargetsIn, HasWayOut, Leaves;
    var children, siblings :| InSomeOrder(children, edges, m, AstChild) && InSomeOrder(siblings, edges, m, AstSibling)
                              && flow == FlowEdges(nodes[m].kind, m, children, siblings);
    OrderedTargets(children, edges, m, AstChild);
    OrderedTargets(siblings, edges, m, AstSibling);
    FlowEdgesLeave(nodes[m].kind, m, children, siblings, i, kind);
  }

  // ----- All the flow of one node

  /** A back edge belongs to the loop it enters, any other edge to the node it leaves. */
  predicate Belongs(e: CpgEdge, i: nat) {
    if e.kind == CfgBack then e.to == i else e.from == i
  }

  function FlowAt(flow: seq<CpgEdge>, i: nat): seq<CpgEdge> {
    if flow == [] then []
    else FlowAt(flow[..|flow| - 1], i) + if Belongs(flow[|flow| - 1], i) then [flow[|flow| - 1]] else []
  }

  /** A branch's flow: true to one child if there are two, and false to another if there are three. */
  ghost predicate BranchFlow(i: nat, children: multiset<nat>, own: seq<CpgEdge>) {
    && |own| == (if |children| < 2 then 0 else if |children| == 2 then 1 else 2)
    && (|own| > 0 ==> own[0] == CpgEdge(i, own[0].to, CfgTrue) && own[0].to in children)
    && (|own| > 1 ==> own[1] == CpgEdge(i, own[1].to, CfgFalse) && multiset{own[0].to, own[1].to} <= children)
  }

  /**
   A loop's flow: if it has children, true to one of them and back from one, another one if it has
   several; and false to a later sibling if there is one.
   */
  ghost predicate LoopFlow(i: nat, children: multiset<nat>, siblings: multiset<nat>, own: seq<CpgEdge>) {
    var n := if |children| == 0 then 0 else 2;
    && |own| == n + (if |siblings| == 0 then 0 else 1)
    && (n == 2 ==>
          && own[0] == CpgEdge(i, own[0].to, CfgTrue) && own[0].to in children
          && own[1] == CpgEdge(own[1].from, i, CfgBack) && own[1].from in children
          && (|children| > 1 ==> multiset{own[0].to, own[1].from} <= children))
    && (|siblings| > 0 ==> own[n] == CpgEdge(i, own[n].to, CfgFalse) && own[n].to in siblings)
  }

  /** Whatever order the graph library has, these are all the flow edges that belong to node `i`. */
  ghost predicate FlowFits(nodes: seq<CpgNode>, edges: seq<CpgEdge>, i: nat, own: seq<CpgEdge>) {
    var children, siblings := multiset(TargetsIn(edges, i, AstChild)), multiset(TargetsIn(edges, i, AstSibling));
    if i < |nodes| && nodes[i].kind == Branch then BranchFlow(i, children, own)
    else if i < |nodes| && nodes[i].kind == Loop then LoopFlow(i, children, siblings, own)
    else own == []
  }

  lemma {:induction false} FlowAtAppend(a: seq<CpgEdge>, b: seq<CpgEdge>, i: nat)
    ensures FlowAt(a + b, i) == FlowAt(a, i) + FlowAt(b, i)
  {
    if b == [] {
      assert a + b == a;
    } else {
      assert (a + b)[..|a + b| - 1] == a + b[..|b| - 1];
      FlowAtAppend(a, b[..|b| - 1], i);
    }
  }

  lemma {:induction false} FlowAtAll(flow: seq<CpgEdge>, i: nat)
    ensures (forall e :: e in flow ==> Belongs(e, i)) ==> FlowAt(flow, i) == flow
    ensures (forall e :: e in flow ==> !Belongs(e, i)) ==> FlowAt(flow, i) == []
  {
    if flow != [] {
      assert flow == flow[..|flow| - 1] + [flow[|flow| - 1]];
      FlowAtAll(flow[..|flow| - 1], i);
    }
  }

  lemma TwoOf(s: seq<nat>, i: nat, j: nat)
    requires i < j < |s|
    ensures multiset{s[i], s[j]} <= multiset(s)
  {
    var a, b, c := s[..i], s[i + 1..j], s[j + 1..];
    assert s == a + [s[i]] + b + [s[j]] + c;
    assert multiset(s) == multiset(a) + multiset{s[i]} + multiset(b) + multiset{s[j]} + multiset(c);
  }

  lemma BranchFits(i: nat, children: seq<nat>, siblings: seq<nat>)
    ensures BranchFlow(i, multiset(children), FlowEdges(Branch, i, children, siblings))
    ensures forall e, j: nat :: e in FlowEdges(Branch, i, children, siblings) ==> (Belongs(e, j) <==> j == i)
  {
    assert |multiset(children)| == |children|;
    assert children != [] ==> children[0] in multiset(children);
    if |children| > 1 { TwoOf(children, 0, 1); }
    if |children| == 2 { assert FlowEdges(Branch, i, children, siblings) == [CpgEdge(i, children[0], CfgTrue)]; }
  }

  lemma LoopFits(i: nat, children: seq<nat>, siblings: seq<nat>)
    ensures LoopFlow(i, multiset(children), multiset(siblings), FlowEdges(Loop, i, children, siblings))
    ensures forall e, j: nat :: e in FlowEdges(Loop, i, children, siblings) ==> (Belongs(e, j) <==> j == i)
  {
    var n := |children| - 1;
    assert |multiset(children)| == |children| && |multiset(siblings)| == |siblings|;
    assert siblings != [] ==> siblings[0] in multiset(siblings);
    assert children != [] ==> children[0] in multiset(children) && children[n] in multiset(children);
    if n > 0 { TwoOf(children, 0, n); }
    var out := if siblings == [] then [] else [CpgEdge(i, siblings[0], CfgFalse)];
    if children == [] {
      assert FlowEdges(Loop, i, children, siblings) == out;
    } else {
      assert FlowEdges(Loop, i, children, siblings)
          == [CpgEdge(i, children[0], CfgTrue), CpgEdge(children[n], i, CfgBack)] + out;
    }
    hide FlowEdges;
  }

  lemma FlowEdgesFit(kind: CpgNodeKind, i: nat, children: seq<nat>, siblings: seq<nat>)
    ensures var flow, c, s := FlowEdges(kind, i, children, siblings), multiset(children), multiset(siblings);
            && (forall e, j: nat :: e in flow ==> (Belongs(e, j) <==> j == i))
            && (kind == Branch ==> BranchFlow(i, c, flow)) && (kind == Loop ==> LoopFlow(i, c, s, flow))
            && (kind != Branch && kind != Loop ==> flow == [])
  {
    hide BranchFlow, LoopFlow, Belongs;
    if kind == Branch {
      BranchFits(i, children, siblings);
    } else if kind == Loop {
      LoopFits(i, children, siblings);
    }
  }

  lemma NodeFlowFits(nodes: seq<CpgNode>, edges: seq<CpgEdge>, m: nat, flow: seq<CpgEdge>, i: nat)
    requires NodeFlow(nodes, edges, m, flow)
    ensures if i == m then FlowFits(nodes, edges, i, flow) && FlowAt(flow, i) == flow else FlowAt(flow, i) == []
  {
    hide FlowEdges, BranchFlow, LoopFlow, TargetsIn;
    var children, siblings :| InSomeOrder(children, edges, m, AstChild) && InSomeOrder(siblings, edges, m, AstSibling)
                              && flow == FlowEdges(nodes[m].kind, m, children, siblings);
    FlowEdgesFit(nodes[m].kind, m, children, siblings);
    FlowAtAll(flow, i);
  }

  /** All the flow of each node: what a branch and a loop have, nothing for any other. */
  lemma {:induction false} FlowOfNode(nodes: seq<CpgNode>, edges: seq<CpgEdge>, n: nat, flow: seq<CpgEdge>, i: nat)
    requires Flow(nodes, edges, n, flow) && n <= |nodes|
    ensures if i < n then FlowFits(nodes, edges, i, FlowAt(flow, i)) else FlowAt(flow, i) == []
  {
    hide FlowFits, NodeFlow;
    if n > 0 {
      var before, last :| Flow(nodes, edges, n - 1, before) && NodeFlow(nodes, edges, n - 1, last)
                          && flow == before + last;
      FlowOfNode(nodes, edges, n - 1, before, i);
      NodeFlowFits(nodes, edges, n - 1, last, i);
      FlowAtAppend(before, last, i);
      if i == n - 1 { assert FlowAt(flow, i) == FlowAt(last, i); } else { assert FlowAt(flow, i) == FlowAt(before, i); }
    }
  }

  /** Each node has the flow that fits it, and no other flow edge is there. */
  ghost predicate AllFlowFits(nodes: seq<CpgNode>, edges: seq<CpgEdge>, flow: seq<CpgEdge>) {
    forall i: nat :: FlowFits(nodes, edges, i, FlowAt(flow, i))
  }

  lemma FlowOfAll(nodes: seq<CpgNode>, edges: seq<CpgEdge>, flow: seq<CpgEdge>)
    requires Flow(nodes, edges, |nodes|, flow)
    ensures AllFlowFits(nodes, edges, flow)
  {
    forall i: nat ensures FlowFits(nodes, edges, i, FlowAt(flow, i)) {
      FlowOfNode(nodes, edges, |nodes|, flow, i);
    }
  }

  lemma {:induction false} FlowNext(nodes: seq<CpgNode>, edges: seq<CpgEdge>, i: nat, flow: seq<CpgEdge>,
                                    more: seq<CpgEdge>)
    requires Flow(nodes, edges, i, flow) && NodeFlow(nodes, edges, i, more)
    ensures Flow(nodes, edges, i + 1, flow + more)
  {
  }

  class CodePropertyGraph {
    var nodes: seq<CpgNode>
    var edges: seq<CpgEdge>
    var entryNode: Option<nat>
    var exitNodes: seq<nat>

    constructor ()
      ensures nodes == [] && edges == [] && entryNode == None && exitNodes == []
    {
      nodes, edges, entryNode, exitNodes := [], [], None, [];
    }

    /** A tree takes the next ids, in preorder. */
    method BuildFromAst(ast: AstNode, parent: Option<nat>) returns (idx: nat)
      modifies this`nodes, this`edges
      ensures idx == |old(nodes)|
      ensures nodes == old(nodes) + NodesFor(Preorder(ast), idx)
      ensures edges == old(edges) + EdgesOf(ast, idx, parent)
      decreases ast, 1
    {
      RootFirst(ast, |nodes|, parent);
      hide NodesFor, EdgesOf, EdgesAll, Preorder, PreorderAll;
      idx := |nodes|;
      ghost var nodes0, edges0 := nodes, edges;
      nodes := nodes + [NodeFor(ast, idx)];
      ghost var first := if parent.Some? then [CpgEdge(parent.value, idx, AstChild)] else [];
      if parent.Some? {
        edges := edges + [CpgEdge(parent.value, idx, AstChild)];
      }
      Regroup(nodes0, [NodeFor(ast, idx)], [], NodesFor(PreorderAll(ast.children), idx + 1));
      Regroup(edges0, first, [], EdgesAll(ast.children, idx, idx + 1, None));
      BuildChildren(ast.children, idx);
    }

    /** The loop over the children of `parent`. */
    method BuildChildren(children: seq<AstNode>, parent: nat)
      modifies this`nodes, this`edges
      ensures nodes == old(nodes) + NodesFor(PreorderAll(children), |old(nodes)|)
      ensures edges == old(edges) + EdgesAll(children, parent, |old(nodes)|, None)
      decreases children, 0
    {
      var prev: Option<nat> := None;
      ghost var nodes0, edges0 := nodes, edges;
      AllToCome(children, parent, nodes, edges);
      hide NodesFor, EdgesOf, EdgesAll, Preorder, PreorderAll, ToCome;
      for i := 0 to |children|
        invariant ToCome(children, parent, i, prev, nodes, edges, nodes0, edges0)
      {
        ChildStep(children, parent, i, prev, nodes, edges, nodes0, edges0);
        ghost var same := edges + EdgesOf(children[i], |nodes|, Some(parent));
        assert same + [] == same;
        var childIdx := BuildFromAst(children[i], Some(parent));
        if prev.Some? {
          edges := edges + [CpgEdge(prev.value, childIdx, AstSibling)];
        }
        prev := Some(childIdx);
      }
      NoneToCome(children, parent, prev, nodes, edges, nodes0, edges0);
    }

    /** Edges lead to nodes of the graph, and a node's id is its index. */
    ghost predicate Valid()
      reads this
    {
      && (forall i :: 0 <= i < |nodes| ==> nodes[i].id == i)
      && (forall e :: e in edges ==> e.from < |nodes| && e.to < |nodes|)
      && (entryNode.Some? ==> entryNode.value < |nodes|)
    }

    /** Where depths are measured from: the entry, or else the first node. */
    function Start(): nat
      reads this
    {
      if entryNode.Some? then entryNode.value else 0
    }

    /** The loop over one node's edges, in some order; other kinds of edges are passed over. */
    method Visit(idx: nat, depth: nat, depths0: map<nat, nat>, queue0: seq<(nat, nat)>, ghost processed: set<nat>)
      returns (depths: map<nat, nat>, queue: seq<(nat, nat)>)
      requires Valid() && idx < |nodes|
      requires VisitInv(ChildPairs(edges), Start(), |nodes|, idx, depth, depths0, queue0, processed, {})
      ensures SearchInv(ChildPairs(edges), Start(), |nodes|, depths, queue, processed + {idx})
      ensures |depths| > |depths0| || (depths == depths0 && queue == queue0)
    {
      hide VisitInv, SearchInv;
      depths, queue := depths0, queue0;
      ghost var pairs := ChildPairs(edges);
      var todo: set<nat> := set i: nat | i < |edges| && edges[i].from == idx;
      ghost var seen: set<nat> := {};
      while todo != {}
        invariant forall i :: i in todo ==> i < |edges| && edges[i].from == idx
        invariant VisitInv(pairs, Start(), |nodes|, idx, depth, depths, queue, processed, seen)
        invariant forall i :: 0 <= i < |edges| && edges[i].from == idx && edges[i].kind == AstChild && i !in todo
                    ==> edges[i].to in seen
        invariant |depths| > |depths0| || (depths == depths0 && queue == queue0)
        decreases |todo|
      {
        var i: nat :| i in todo;
        todo := todo - {i};
        if edges[i].kind == AstChild {
          var target := edges[i].to;
          assert edges[i] in edges && (idx, target) in pairs;
          VisitReached(pairs, Start(), |nodes|, idx, depth, depths, queue, processed, seen, target);
          seen := seen + {target};
          if nodes[target].id !in depths {
            assert |depths[target := depth + 1]| == |depths| + 1;
            depths := depths[nodes[target].id := depth + 1];
            queue := queue + [(target, depth + 1)];
          }
        }
      }
      forall y: nat | (idx, y) in pairs ensures y in seen {
        var e :| e in edges && e.kind == AstChild && (e.from, e.to) == (idx, y);
        var i :| 0 <= i < |edges| && edges[i] == e;
      }
      VisitEnds(pairs, Start(), |nodes|, idx, depth, depths, queue, processed, seen);
    }

    /** Breadth-first distances over the tree edges. */
    method ComputeDepths() returns (depths: map<nat, nat>)
      requires Valid()
      ensures nodes == [] ==> depths == map[]
      ensures nodes != [] ==> IsDepths(ChildPairs(edges), Start(), depths)
    {
      depths := map[];
      if nodes == [] {
        return;
      }
      var start := Start();
      var queue := [(start, 0)];
      depths := depths[start := 0];
      ghost var pairs := ChildPairs(edges);
      ghost var processed: set<nat> := {};
      SearchStarts(pairs, start);
      while queue != []
        invariant SearchInv(pairs, start, |nodes|, depths, queue, processed)
        decreases |nodes| - |depths|, |queue|
      {
        var (idx, depth) := queue[0];
        VisitStarts(pairs, start, |nodes|, depths, queue, processed);
        SearchBounded(pairs, start, |nodes|, depths, queue, processed);
        queue := queue[1..];
        depths, queue := Visit(idx, depth, depths, queue, processed);
        processed := processed + {idx};
        SearchBounded(pairs, start, |nodes|, depths, queue, processed);
      }
      SearchDone(pairs, start, |nodes|, depths, processed);
    }

    /** The graph library has an order of its own for a node's edges. */
    method Targets(idx: nat, kind: CpgEdgeKind) returns (targets: seq<nat>)
      ensures InSomeOrder(targets, edges, idx, kind)
    {
      targets := [];
      for i := 0 to |edges|
        invariant multiset(targets) == multiset(TargetsIn(edges[..i], idx, kind))
      {
        hide TargetsIn;
        TargetsSnoc(edges, i, idx, kind);
        if edges[i].from == idx && edges[i].kind == kind {
          var at: nat :| at <= |targets|;
          PutAt(targets, at, edges[i].to);
          targets := targets[..at] + [edges[i].to] + targets[at..];
        }
      }
      assert edges[..|edges|] == edges;
    }

    /** How many tree edges leave each node. */
    method ComputeChildCounts() returns (counts: map<nat, nat>)
      requires Valid()
      ensures forall i: nat :: i in counts <==> i < |nodes|
      ensures forall i :: i in counts ==> counts[i] == |TargetsIn(edges, i, AstChild)|
    {
      counts := map[];
      for i := 0 to |nodes|
        invariant forall j: nat :: j in counts <==> j < i
        invariant forall j :: j in counts ==> counts[j] == |TargetsIn(edges, j, AstChild)|
      {
        var targets := Targets(i, AstChild);
        OrderedTargets(targets, edges, i, AstChild);
        counts := counts[nodes[i].id := |targets|];
      }
    }

    method AddEdge(from: nat, to: nat, kind: CpgEdgeKind)
      modifies this`edges
      ensures edges == old(edges) + [CpgEdge(from, to, kind)]
    {
      edges := edges + [CpgEdge(from, to, kind)];
    }

    /** The flow edges of one branch or loop node. */
    method BuildFlow(idx: nat) returns (ghost flow: seq<CpgEdge>)
      requires idx < |nodes|
      modifies this`edges
      ensures edges == old(edges) + flow && NodeFlow(nodes, old(edges), idx, flow)
      ensures FlowFits(nodes, old(edges), idx, flow)
    {
      var children, siblings := Both(idx);
      flow := FlowEdges(nodes[idx].kind, idx, children, siblings);
      hide InSomeOrder;
      assert NodeFlow(nodes, edges, idx, flow);
      NodeFlowFits(nodes, edges, idx, flow, idx);
      hide FlowFits, NodeFlow;
      if nodes[idx].kind == Branch {
        BuildBranch(idx, children, siblings);
      } else if nodes[idx].kind == Loop {
        BuildLoop(idx, children, siblings);
      }
    }

    method BuildBranch(idx: nat, children: seq<nat>, ghost siblings: seq<nat>)
      modifies this`edges
      ensures edges == old(edges) + FlowEdges(Branch, idx, children, siblings)
    {
      if |children| >= 2 {
        AddEdge(idx, children[0], CfgTrue);
      }
      if |children| >= 3 {
        AddEdge(idx, children[1], CfgFalse);
      }
    }

    method BuildLoop(idx: nat, children: seq<nat>, siblings: seq<nat>)
      modifies this`edges
      ensures edges == old(edges) + FlowEdges(Loop, idx, children, siblings)
    {
      if children != [] {
        AddEdge(idx, children[0], CfgTrue);
        AddEdge(children[|children| - 1], idx, CfgBack);
      }
      if siblings != [] {
        AddEdge(idx, siblings[0], CfgFalse);
      }
    }

    method Both(idx: nat) returns (children: seq<nat>, siblings: seq<nat>)
      ensures InSomeOrder(children, edges, idx, AstChild) && InSomeOrder(siblings, edges, idx, AstSibling)
    {
      children := Targets(idx, AstChild);
      siblings := Targets(idx, AstSibling);
    }

    /** What the loop over the nodes does with one. */
    method VisitNode(i: nat) returns (ghost more: seq<CpgEdge>)
      requires i < |nodes|
      modifies this`edges, this`entryNode, this`exitNodes
      ensures edges == old(edges) + more && NodeFlow(nodes, old(edges), i, more)
      ensures exitNodes == old(exitNodes) + if nodes[i].kind == Return then [i] else []
      ensures entryNode == if nodes[i].kind == Function && old(entryNode).None? then Some(i) else old(entryNode)
    {
      more := [];
      if nodes[i].kind == Function {
        if entryNode.None? {
          entryNode := Some(i);
        }
        NoFlow(nodes, edges, i);
      } else if nodes[i].kind == Return {
        exitNodes := exitNodes + [i];
        NoFlow(nodes, edges, i);
      } else {
        more := BuildFlow(i);
      }
    }

    /**
     Adds the flow edges of all nodes; the first function becomes the entry, the return nodes are
     the exits, and the tree edges stay what they are.
     */
    method BuildCfg()
      requires Valid()
      modifies this`edges, this`entryNode, this`exitNodes
      ensures Valid() && ChildPairs(edges) == ChildPairs(old(edges))
      ensures exists flow :: Flow(nodes, old(edges), |nodes|, flow) && edges == old(edges) + flow
                             && AllFlowFits(nodes, old(edges), flow)
      ensures exitNodes == old(exitNodes) + ReturnsIn(nodes)
      ensures IsEntry(nodes, old(entryNode), entryNode)
    {
      ghost var flow, before, exits0, entry0 := [], edges, exitNodes, entryNode;
      NoneDone(nodes, edges, exitNodes, entryNode);
      hide Done, NodeFlow, AllFlowFits;
      for i := 0 to |nodes|
        invariant Done(nodes, i, before, flow, edges, exits0, exitNodes, entry0, entryNode)
      {
        ghost var edges1, exits1, entry1 := edges, exitNodes, entryNode;
        ghost var more := VisitNode(i);
        OneMoreDone(nodes, i, before, flow, more, edges1, exits0, exits1, entry0, entry1);
        flow := flow + more;
      }
      AllDone(nodes, before, flow, edges, exits0, exitNodes, entry0, entryNode);
    }

    /** The data-flow pass, with the edges it adds as a parameter: tree edges stay. */
    method AddDataFlow(added: seq<CpgEdge>)
      requires Valid()
      requires forall e :: e in added ==>
                 e.kind in {DfgRead, DfgWrite, DfgFlow} && e.from < |nodes| && e.to < |nodes|
      modifies this`edges
      ensures Valid() && edges == old(edges) + added && ChildPairs(edges) == ChildPairs(old(edges))
    {
      ChildEdgesAppend(edges, added);
      assert ChildPairs(added) == {};
      edges := edges + added;
    }
  }

  /** What the loop over the nodes has done after the first `i`. */
  ghost predicate Done(nodes: seq<CpgNode>, i: nat, before: seq<CpgEdge>, flow: seq<CpgEdge>, edges: seq<CpgEdge>,
                       exits0: seq<nat>, exits: seq<nat>, entry0: Option<nat>, entry: Option<nat>)
  {
    && i <= |nodes|
    && edges == before + flow && Flow(nodes, before, i, flow)
    && exits == exits0 + ReturnsIn(nodes[..i])
    && IsEntry(nodes[..i], entry0, entry)
  }

  lemma NoneDone(nodes: seq<CpgNode>, edges: seq<CpgEdge>, exits: seq<nat>, entry: Option<nat>)
    ensures Done(nodes, 0, edges, [], edges, exits, exits, entry, entry)
  {
    NoFlowYet(nodes, edges);
    NoEntryYet(entry);
    assert nodes[..0] == [];
  }

  lemma OneMoreDone(nodes: seq<CpgNode>, i: nat, before: seq<CpgEdge>, flow: seq<CpgEdge>, more: seq<CpgEdge>,
                    edges: seq<CpgEdge>, exits0: seq<nat>, exits: seq<nat>, entry0: Option<nat>, entry: Option<nat>)
    requires i < |nodes| && Done(nodes, i, before, flow, edges, exits0, exits, entry0, entry)
    requires NodeFlow(nodes, edges, i, more)
    ensures Done(nodes, i + 1, before, flow + more, edges + more,
                 exits0, exits + (if nodes[i].kind == Return then [i] else []),
                 entry0, if nodes[i].kind == Function && entry.None? then Some(i) else entry)
  {
    hide Flow, NodeFlow, IsEntry;
    assert nodes[..i + 1][..i] == nodes[..i];
    assert ReturnsIn(nodes[..i + 1]) == ReturnsIn(nodes[..i]) + if nodes[i].kind == Return then [i] else [];
    FlowFollowsTree(nodes, before, i, flow);
    EntryNext(nodes, i, entry0, entry);
    FlowBesideFlow(nodes, before, flow, i, more);
    FlowNext(nodes, before, i, flow, more);
    hide ReturnsIn;
  }

  lemma AllDone(nodes: seq<CpgNode>, before: seq<CpgEdge>, flow: seq<CpgEdge>, edges: seq<CpgEdge>,
                exits0: seq<nat>, exits: seq<nat>, entry0: Option<nat>, entry: Option<nat>)
    requires Done(nodes, |nodes|, before, flow, edges, exits0, exits, entry0, entry)
    requires forall e :: e in before ==> e.from < |nodes| && e.to < |nodes|
    requires entry0.Some? ==> entry0.value < |nodes|
    ensures forall e :: e in edges ==> e.from < |nodes| && e.to < |nodes|
    ensures ChildPairs(edges) == ChildPairs(before) && (entry.Some? ==> entry.value < |nodes|)
    ensures edges == before + flow && Flow(nodes, before, |nodes|, flow) && AllFlowFits(nodes, before, flow)
    ensures exits == exits0 + ReturnsIn(nodes) && IsEntry(nodes, entry0, entry)
  {
    hide Flow, ChildPairs, IsEntry, ReturnsIn, AllFlowFits;
    FlowOfAll(nodes, before, flow);
    assert nodes[..|nodes|] == nodes;
    FlowFollowsTree(nodes, before, |nodes|, flow);
    FlowKeepsValid(nodes, before, flow);
    EntryInRange(nodes, entry0, entry);
  }

  /** An entry there already stays; otherwise it is the first function, if there is one. */
  ghost predicate IsEntry(nodes: seq<CpgNode>, before: Option<nat>, entry: Option<nat>) {
    if before.Some? then entry == before
    else if entry.None? then forall i :: 0 <= i < |nodes| ==> nodes[i].kind != Function
    else
      && entry.value < |nodes| && nodes[entry.value].kind == Function
      && forall i :: 0 <= i < entry.value ==> nodes[i].kind != Function
  }

  lemma EntryNext(nodes: seq<CpgNode>, i: nat, before: Option<nat>, entry: Option<nat>)
    requires i < |nodes| && IsEntry(nodes[..i], before, entry)
    ensures IsEntry(nodes[..i + 1], before, if nodes[i].kind == Function && entry.None? then Some(i) else entry)
  {
    assert nodes[..i + 1] == nodes[..i] + [nodes[i]];
  }

  lemma EntryInRange(nodes: seq<CpgNode>, before: Option<nat>, entry: Option<nat>)
    requires IsEntry(nodes, before, entry) && (before.Some? ==> before.value < |nodes|)
    ensures entry.Some? ==> entry.value < |nodes|
  {
  }

  lemma NoEntryYet(entry: Option<nat>)
    ensures IsEntry([], entry, entry)
  {
  }

  lemma NoFlowYet(nodes: seq<CpgNode>, edges: seq<CpgEdge>)
    ensures Flow(nodes, edges, 0, []) && edges + [] == edges
  {
  }

  lemma NoFlow(nodes: seq<CpgNode>, edges: seq<CpgEdge>, i: nat)
    requires i < |nodes| && nodes[i].kind != Branch && nodes[i].kind != Loop
    ensures NodeFlow(nodes, edges, i, [])
  {
    hide TargetsIn;
    var children, siblings := TargetsIn(edges, i, AstChild), TargetsIn(edges, i, AstSibling);
    assert InSomeOrder(children, edges, i, AstChild) && InSomeOrder(siblings, edges, i, AstSibling);
    hide InSomeOrder;
    assert FlowEdges(nodes[i].kind, i, children, siblings) == [];
  }

  /** Flow edges already there do not change those of a later node. */
  lemma FlowBesideFlow(nodes: seq<CpgNode>, edges: seq<CpgEdge>, flow: seq<CpgEdge>, i: nat, more: seq<CpgEdge>)
    requires OnlyFlow(flow) && NodeFlow(nodes, edges + flow, i, more)
    ensures NodeFlow(nodes, edges, i, more)
  {
    TargetsBesideFlow(edges, flow, i, AstChild);
    TargetsBesideFlow(edges, flow, i, AstSibling);
    var children, siblings :| InSomeOrder(children, edges + flow, i, AstChild)
                              && InSomeOrder(siblings, edges + flow, i, AstSibling)
                              && more == FlowEdges(nodes[i].kind, i, children, siblings);
    assert InSomeOrder(children, edges, i, AstChild) && InSomeOrder(siblings, edges, i, AstSibling);
  }

  lemma FlowKeepsValid(nodes: seq<CpgNode>, edges: seq<CpgEdge>, flow: seq<CpgEdge>)
    requires OnlyFlow(flow) && forall e :: e in flow ==> FollowsTree(nodes, edges, e)
    requires forall e :: e in edges ==> e.from < |nodes| && e.to < |nodes|
    ensures forall e :: e in edges + flow ==> e.from < |nodes| && e.to < |nodes|
    ensures ChildPairs(edges + flow) == ChildPairs(edges)
  {
    ChildEdgesAppend(edges, flow);
    assert ChildPairs(flow) == {};
  }

  /** A tree laid out in an empty graph is a valid graph whose tree edges are the tree's pairs. */
  lemma TreeIsValid(ast: AstNode, cpg: CodePropertyGraph)
    requires cpg.nodes == NodesFor(Preorder(ast), 0) && cpg.edges == EdgesOf(ast, 0, None) && cpg.entryNode == None
    ensures cpg.Valid() && ChildPairs(cpg.edges) == Pairs(ast, 0)
  {
    TreeEdges(ast, 0, None);
    forall e | e in cpg.edges ensures e.from < |cpg.nodes| && e.to < |cpg.nodes| {
      EdgesInRange(ast, 0, None, e);
    }
  }

  lemma {:induction false} EdgesInRange(node: AstNode, base: nat, parent: Option<nat>, e: CpgEdge)
    requires e in EdgesOf(node, base, parent)
    ensures (parent.Some? && e == CpgEdge(parent.value, base, AstChild))
            || (base <= e.from < base + Size(node) && base <= e.to < base + Size(node))
    decreases node, 1
  {
    if !(parent.Some? && e == CpgEdge(parent.value, base, AstChild)) {
      EdgesAllInRange(node.children, base, base + 1, None, e);
    }
  }

  lemma {:induction false} EdgesAllInRange(nodes: seq<AstNode>, parent: nat, next: nat, prev: Option<nat>, e: CpgEdge)
    requires e in EdgesAll(nodes, parent, next, prev) && parent < next && (prev.Some? ==> parent < prev.value < next)
    ensures parent <= e.from < next + |PreorderAll(nodes)| && next <= e.to < next + |PreorderAll(nodes)|
    decreases nodes, 0
  {
    if e in EdgesOf(nodes[0], next, Some(parent)) {
      EdgesInRange(nodes[0], next, Some(parent), e);
    } else if !(prev.Some? && e == CpgEdge(prev.value, next, AstSibling)) {
      EdgesAllInRange(nodes[1..], parent, next + Size(nodes[0]), Some(next), e);
    }
  }

  /**
   From a tree to its depths: exactly the entry's subtree, at its distances in the tree, whatever
   edges the data-flow pass adds.
   */
  method DepthsOfTree(ast: AstNode, dataFlow: seq<CpgEdge>) returns (entry: nat, depths: map<nat, nat>)
    requires forall e :: e in dataFlow ==>
               e.kind in {DfgRead, DfgWrite, DfgFlow} && e.from < Size(ast) && e.to < Size(ast)
    ensures entry < Size(ast)
    ensures exists first :: IsEntry(NodesFor(Preorder(ast), 0), None, first)
                            && entry == if first.Some? then first.value else 0
    ensures var sub := SubtreeAt(ast, 0, entry);
            && sub == Preorder(ast)[entry]
            && entry + Size(sub) <= Size(ast) && Preorder(ast)[entry..entry + Size(sub)] == Preorder(sub)
            && depths == Depths(sub, entry, 0)
            && forall i :: i in depths <==> entry <= i < entry + Size(sub)
  {
    hide EdgesOf, NodesFor, Preorder, Flow, Pairs, IsEntry, IsDepths, Depths, ChildPairs, SubtreeAt;
    var cpg := new CodePropertyGraph();
    var root := cpg.BuildFromAst(ast, None);
    TreeIsValid(ast, cpg);
    cpg.BuildCfg();
    cpg.AddDataFlow(dataFlow);
    entry := cpg.Start();
    depths := cpg.ComputeDepths();
    DepthsFrom(ast, entry, depths);
  }

  lemma DepthsFrom(ast: AstNode, e: nat, depths: map<nat, nat>)
    requires e < Size(ast) && IsDepths(Pairs(ast, 0), e, depths)
    ensures var sub := SubtreeAt(ast, 0, e);
            && sub == Preorder(ast)[e]
            && e + Size(sub) <= Size(ast) && Preorder(ast)[e..e + Size(sub)] == Preorder(sub)
            && depths == Depths(sub, e, 0)
            && forall i :: i in depths <==> e <= i < e + Size(sub)
  {
    TreeDepths(ast, e, depths);
    DepthsRange(SubtreeAt(ast, 0, e), e, 0);
    SubtreeIsRange(ast, 0, e);
    var sub := SubtreeAt(ast, 0, e);
    hide IsDepths, Pairs, Depths, SubtreeAt;
    assert Preorder(ast)[e] == Preorder(ast)[e..e + Size(sub)][0];
  }
}
