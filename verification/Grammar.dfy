/**
 Context-free grammars and what they derive: the symbols and productions of
 src/code/pcfg.rs, the one-step rewriting relation on sentential forms, and its
 closure.  Everything the recogniser promises is stated against `Derives`.
 */
module Grammar {
  datatype Symbol = NonTerminal(name: string) | Terminal(name: string)

  datatype Production = Production(lhs: string, rhs: seq<Symbol>)

  /** A sentential form. */
  type Form = seq<Symbol>

  function Terms(tokens: seq<string>): (f: Form)
    ensures |f| == |tokens|
  {
    seq(|tokens|, i requires 0 <= i < |tokens| => Terminal(tokens[i]))
  }

  /** `u` with its `i`-th symbol replaced by `mid`. */
  function Splice(u: Form, i: nat, mid: Form): Form
    requires i < |u|
  {
    u[..i] + mid + u[i + 1..]
  }

  ghost predicate RewritesAt(g: set<Production>, u: Form, v: Form, i: nat, p: Production) {
    && p in g
    && i < |u|
    && u[i] == NonTerminal(p.lhs)
    && v == Splice(u, i, p.rhs)
  }

  /** One occurrence of a left-hand side is replaced by a right-hand side. */
  ghost predicate Rewrites(g: set<Production>, u: Form, v: Form) {
    exists i: nat, p: Production :: RewritesAt(g, u, v, i, p)
  }

  ghost predicate DerivesIn(g: set<Production>, u: Form, v: Form, n: nat)
    decreases n
  {
    if n == 0 then u == v
    else exists w: Form :: Rewrites(g, u, w) && DerivesIn(g, w, v, n - 1)
  }

  ghost predicate Derives(g: set<Production>, u: Form, v: Form) {
    exists n: nat :: DerivesIn(g, u, v, n)
  }

  ghost predicate EpsilonFree(g: set<Production>) {
    forall p :: p in g ==> p.rhs != []
  }

  /** The rules for names in `reach` lead to no others. */
  ghost predicate ClosedUnder(g: set<Production>, reach: set<string>) {
    forall q, i :: q in g && q.lhs in reach && 0 <= i < |q.rhs| && q.rhs[i].NonTerminal? ==> q.rhs[i].name in reach
  }

  /** No rule with an empty right side can be reached from the start symbol. */
  ghost predicate EpsilonOutOfReach(g: set<Production>, start: string) {
    exists reach: set<string> :: start in reach && ClosedUnder(g, reach) && Nonempty(g, reach)
  }

  ghost predicate Nonempty(g: set<Production>, reach: set<string>) {
    forall q :: q in g && q.lhs in reach ==> q.rhs != []
  }

  lemma EpsilonFreeOutOfReach(g: set<Production>, start: string)
    requires EpsilonFree(g)
    ensures EpsilonOutOfReach(g, start)
  {
    var reach := {start} + set q, i | q in g && 0 <= i < |q.rhs| && q.rhs[i].NonTerminal? :: q.rhs[i].name;
    assert ClosedUnder(g, reach) && Nonempty(g, reach);
  }

  ghost predicate Within(u: Form, reach: set<string>) {
    forall i :: 0 <= i < |u| && u[i].NonTerminal? ==> u[i].name in reach
  }

  /** From within the reach of rules that are not empty, derivations never shrink a form. */
  lemma {:induction false} ReachGrows(g: set<Production>, reach: set<string>, u: Form, v: Form, n: nat)
    requires ClosedUnder(g, reach) && Nonempty(g, reach) && Within(u, reach) && DerivesIn(g, u, v, n)
    ensures |u| <= |v| && Within(v, reach)
    decreases n
  {
    if n > 0 {
      var w :| Rewrites(g, u, w) && DerivesIn(g, w, v, n - 1);
      var i: nat, q :| RewritesAt(g, u, w, i, q);
      assert w == u[..i] + q.rhs + u[i + 1..];
      ReachGrows(g, reach, w, v, n - 1);
    }
  }

  lemma {:induction false} DerivesInTrans(g: set<Production>, u: Form, v: Form, w: Form, m: nat, n: nat)
    requires DerivesIn(g, u, v, m) && DerivesIn(g, v, w, n)
    ensures DerivesIn(g, u, w, m + n)
    decreases m
  {
    if m > 0 {
      var u' :| Rewrites(g, u, u') && DerivesIn(g, u', v, m - 1);
      DerivesInTrans(g, u', v, w, m - 1, n);
    }
  }

  lemma DerivesTrans(g: set<Production>, u: Form, v: Form, w: Form)
    requires Derives(g, u, v) && Derives(g, v, w)
    ensures Derives(g, u, w)
  {
    var m: nat :| DerivesIn(g, u, v, m);
    var n: nat :| DerivesIn(g, v, w, n);
    DerivesInTrans(g, u, v, w, m, n);
  }

  lemma RewritesInContext(g: set<Production>, a: Form, u: Form, v: Form, b: Form)
    requires Rewrites(g, u, v)
    ensures Rewrites(g, a + u + b, a + v + b)
  {
    var i: nat, p :| RewritesAt(g, u, v, i, p);
    var x := a + u + b;
    assert x[..|a| + i] == a + u[..i];
    assert x[|a| + i + 1..] == u[i + 1..] + b;
    assert RewritesAt(g, x, a + v + b, |a| + i, p);
  }

  lemma {:induction false} DerivesInContext(g: set<Production>, a: Form, u: Form, v: Form, b: Form, n: nat)
    requires DerivesIn(g, u, v, n)
    ensures DerivesIn(g, a + u + b, a + v + b, n)
    decreases n
  {
    if n > 0 {
      var w :| Rewrites(g, u, w) && DerivesIn(g, w, v, n - 1);
      RewritesInContext(g, a, u, w, b);
      DerivesInContext(g, a, w, v, b, n - 1);
    }
  }

  /** Derivations may be carried out inside any context. */
  lemma DerivesContext(g: set<Production>, a: Form, u: Form, v: Form, b: Form)
    requires Derives(g, u, v)
    ensures Derives(g, a + u + b, a + v + b)
  {
    var n: nat :| DerivesIn(g, u, v, n);
    DerivesInContext(g, a, u, v, b, n);
  }

  lemma DerivesConcat(g: set<Production>, u1: Form, v1: Form, u2: Form, v2: Form)
    requires Derives(g, u1, v1) && Derives(g, u2, v2)
    ensures Derives(g, u1 + u2, v1 + v2)
  {
    DerivesContext(g, [], u1, v1, u2);
    DerivesContext(g, v1, u2, v2, []);
    assert [] + u1 + u2 == u1 + u2 && [] + v1 + u2 == v1 + u2;
    assert v1 + u2 + [] == v1 + u2 && v1 + v2 + [] == v1 + v2;
    DerivesTrans(g, u1 + u2, v1 + u2, v1 + v2);
  }

  lemma DerivesRefl(g: set<Production>, u: Form)
    ensures Derives(g, u, u)
  {
    assert DerivesIn(g, u, u, 0);
  }

  /** Expanding a nonterminal by one of its productions and going on. */
  lemma DerivesByRule(g: set<Production>, p: Production, v: Form)
    requires p in g && Derives(g, p.rhs, v)
    ensures Derives(g, [NonTerminal(p.lhs)], v)
  {
    var u := [NonTerminal(p.lhs)];
    assert RewritesAt(g, u, p.rhs, 0, p);
    var n: nat :| DerivesIn(g, p.rhs, v, n);
    assert Rewrites(g, u, p.rhs) && DerivesIn(g, p.rhs, v, n + 1 - 1);
    assert DerivesIn(g, u, v, n + 1);
  }

  lemma SpliceConcat(u1: Form, u2: Form, i: nat, mid: Form)
    requires i < |u1| + |u2|
    ensures i < |u1| ==> Splice(u1 + u2, i, mid) == Splice(u1, i, mid) + u2
    ensures i >= |u1| ==> Splice(u1 + u2, i, mid) == u1 + Splice(u2, i - |u1|, mid)
  {
    if i < |u1| {
      assert (u1 + u2)[..i] == u1[..i] && (u1 + u2)[i + 1..] == u1[i + 1..] + u2;
    } else {
      assert (u1 + u2)[..i] == u1 + u2[..i - |u1|] && (u1 + u2)[i + 1..] == u2[i - |u1| + 1..];
    }
  }

  /** A step on a concatenation is a step on one of its parts. */
  lemma RewritesSplit(g: set<Production>, u1: Form, u2: Form, w: Form) returns (inLeft: bool, x: Form)
    requires Rewrites(g, u1 + u2, w)
    ensures inLeft ==> Rewrites(g, u1, x) && w == x + u2
    ensures !inLeft ==> Rewrites(g, u2, x) && w == u1 + x
  {
    var i: nat, p :| RewritesAt(g, u1 + u2, w, i, p);
    SpliceConcat(u1, u2, i, p.rhs);
    inLeft := i < |u1|;
    if inLeft {
      x := Splice(u1, i, p.rhs);
      assert RewritesAt(g, u1, x, i, p);
    } else {
      x := Splice(u2, i - |u1|, p.rhs);
      assert RewritesAt(g, u2, x, i - |u1|, p);
    }
  }

  /** A derivation from a concatenation splits into derivations from its parts. */
  lemma {:induction false} DerivesInSplit(g: set<Production>, u1: Form, u2: Form, v: Form, n: nat)
    returns (k: nat, n1: nat, n2: nat)
    requires DerivesIn(g, u1 + u2, v, n)
    ensures k <= |v| && n1 + n2 == n
    ensures DerivesIn(g, u1, v[..k], n1) && DerivesIn(g, u2, v[k..], n2)
    decreases n
  {
    hide Rewrites;
    if n == 0 {
      k, n1, n2 := |u1|, 0, 0;
    } else {
      var w :| Rewrites(g, u1 + u2, w) && DerivesIn(g, w, v, n - 1);
      var inLeft, x := RewritesSplit(g, u1, u2, w);
      if inLeft {
        k, n1, n2 := DerivesInSplit(g, x, u2, v, n - 1);
        n1 := n1 + 1;
      } else {
        k, n1, n2 := DerivesInSplit(g, u1, x, v, n - 1);
        n2 := n2 + 1;
      }
    }
  }

  /** A lone terminal derives nothing but itself. */
  lemma TerminalIsStuck(g: set<Production>, t: string, v: Form, n: nat)
    requires DerivesIn(g, [Terminal(t)], v, n)
    ensures n == 0 && v == [Terminal(t)]
  {
  }

  /** The first step from a lone nonterminal picks one of its productions. */
  lemma FirstRule(g: set<Production>, nt: string, v: Form, n: nat) returns (p: Production)
    requires n > 0 && DerivesIn(g, [NonTerminal(nt)], v, n)
    ensures p in g && p.lhs == nt && DerivesIn(g, p.rhs, v, n - 1)
  {
    var u := [NonTerminal(nt)];
    var w :| Rewrites(g, u, w) && DerivesIn(g, w, v, n - 1);
    var i: nat, q :| RewritesAt(g, u, w, i, q);
    assert u[..0] + q.rhs + u[1..] == q.rhs;
    p := q;
  }
}
