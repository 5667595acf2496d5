/**
 The syntax tree of src/code/ast.rs and its explicit-stack traversal.
 Line and column positions are left to the parser library and not part of this model.
 */
module Ast {
  import opened Wrappers

  datatype AstNode = AstNode(
    kind: string, startByte: nat, endByte: nat,
    isNamed: bool, isError: bool, isMissing: bool,
    children: seq<AstNode>, text: Option<string>)

  /** The nodes of a tree, each before its children, children from left to right. */
  function Preorder(node: AstNode): (order: seq<AstNode>)
    ensures |order| >= 1 && order[0] == node
    decreases node, 1
  {
    [node] + PreorderAll(node.children)
  }

  function PreorderAll(nodes: seq<AstNode>): seq<AstNode>
    decreases nodes, 0
  {
    if nodes == [] then [] else Preorder(nodes[0]) + PreorderAll(nodes[1..])
  }

  /** `AstNodeIterator`: a stack whose top is its last element. */
  class AstNodeIterator {
    var stack: seq<AstNode>

    /** What is still to come: the top of the stack first. */
    ghost function Remaining(): seq<AstNode>
      reads this
    {
      Unstacked(stack)
    }

    constructor (root: AstNode)
      ensures Remaining() == Preorder(root)
    {
      stack := [root];
      new;
      UnstackedPush([], root);
      assert [] + [root] == [root] && Preorder(root) + [] == Preorder(root);
    }

    method Next() returns (next: Option<AstNode>)
      modifies this
      ensures old(Remaining()) == [] ==> next == None && Remaining() == []
      ensures old(Remaining()) != [] ==> next == Some(old(Remaining())[0]) && Remaining() == old(Remaining())[1..]
    {
      if stack == [] {
        return None;
      }
      TopComesNext(stack);
      var node := stack[|stack| - 1];
      stack := stack[..|stack| - 1];
      ghost var below := Unstacked(stack);
      var i := |node.children|;
      NoneOnTop(node.children, below);
      hide Unstacked, PreorderAll, Preorder;
      while i > 0
        invariant 0 <= i <= |node.children|
        invariant Unstacked(stack) == PreorderAll(node.children[i..]) + below
      {
        i := i - 1;
        ChildOnTop(node.children, i, below);
        UnstackedPush(stack, node.children[i]);
        stack := stack + [node.children[i]];
      }
      assert node.children[0..] == node.children;
      return Some(node);
    }
  }

  lemma TopComesNext(stack: seq<AstNode>)
    requires stack != []
    ensures var top := stack[|stack| - 1];
            && Unstacked(stack) != [] && Unstacked(stack)[0] == top
            && Unstacked(stack)[1..] == PreorderAll(top.children) + Unstacked(stack[..|stack| - 1])
  {
    var top, rest := stack[|stack| - 1], stack[..|stack| - 1];
    assert Preorder(top) == [top] + PreorderAll(top.children);
    assert Unstacked(stack) == Preorder(top) + Unstacked(rest);
    Behind(top, PreorderAll(top.children), Unstacked(rest));
    hide PreorderAll, Preorder, Unstacked;
  }

  lemma Behind(x: AstNode, a: seq<AstNode>, b: seq<AstNode>)
    ensures var s := ([x] + a) + b; s[0] == x && s[1..] == a + b
  {
  }

  lemma NoneOnTop(children: seq<AstNode>, below: seq<AstNode>)
    ensures PreorderAll(children[|children|..]) + below == below
  {
  }

  lemma ChildOnTop(children: seq<AstNode>, i: nat, below: seq<AstNode>)
    requires i < |children|
    ensures PreorderAll(children[i..]) + below == Preorder(children[i]) + (PreorderAll(children[i + 1..]) + below)
  {
    assert children[i..][1..] == children[i + 1..];
    hide Preorder;
  }

  ghost function Unstacked(stack: seq<AstNode>): seq<AstNode> {
    if stack == [] then [] else Preorder(stack[|stack| - 1]) + Unstacked(stack[..|stack| - 1])
  }

  lemma UnstackedPush(stack: seq<AstNode>, node: AstNode)
    ensures Unstacked(stack + [node]) == Preorder(node) + Unstacked(stack)
  {
    assert (stack + [node])[..|stack|] == stack;
  }
}
