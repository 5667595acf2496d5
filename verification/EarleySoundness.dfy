/**
 Soundness of the chart of EarleyItems.dfy: a state in a list fits a derivation from the
 start symbol, for every grammar.
 */
module EarleySoundness {
  import opened Wrappers
  import opened Grammar
  import opened EarleyItems

  /** Some sentential form starts with `prefix`. */
  ghost predicate Viable(p: EarleyParser, prefix: Form) {
    exists rest: Form :: Derives(p.Productions(), [NonTerminal(p.startSymbol)], prefix + rest)
  }

  /** What it means for `s` to belong to position `k`. */
  ghost predicate Item(p: EarleyParser, tokens: seq<string>, k: nat, s: EarleyState) {
    && k <= |tokens|
    && p.InRange(k, s)
    && var rule := p.rules[s.ruleIdx];
       && Derives(p.Productions(), rule.rhs[..s.dotPos], Terms(tokens[s.startPos..k]))
       && Viable(p, Terms(tokens[..s.startPos]) + [NonTerminal(rule.lhs)])
  }

  ghost predicate ListSound(p: EarleyParser, tokens: seq<string>, k: nat, list: seq<EarleyState>) {
    forall s :: s in list ==> Item(p, tokens, k, s)
  }

  lemma {:induction false} TermsConcat(a: seq<string>, b: seq<string>)
    ensures Terms(a + b) == Terms(a) + Terms(b)
  {
  }

  lemma {:induction false} TermsSplit(tokens: seq<string>, i: nat, j: nat, k: nat)
    requires i <= j <= k <= |tokens|
    ensures Terms(tokens[i..k]) == Terms(tokens[i..j]) + Terms(tokens[j..k])
  {
    assert tokens[i..k] == tokens[i..j] + tokens[j..k];
  }

  lemma {:induction false} TermsCut(tokens: seq<string>, i: nat, j: nat, k: nat)
    requires i <= j <= k <= |tokens|
    ensures Terms(tokens[i..k])[..j - i] == Terms(tokens[i..j])
    ensures Terms(tokens[i..k])[j - i..] == Terms(tokens[j..k])
  {
    TermsSplit(tokens, i, j, k);
  }

  lemma {:induction false} ViableByDerivation(p: EarleyParser, a: Form, u: Form, v: Form)
    requires Viable(p, a + u) && Derives(p.Productions(), u, v)
    ensures Viable(p, a + v)
  {
    var rest :| Derives(p.Productions(), [NonTerminal(p.startSymbol)], a + u + rest);
    DerivesContext(p.Productions(), a, u, v, rest);
    DerivesTrans(p.Productions(), [NonTerminal(p.startSymbol)], a + u + rest, a + v + rest);
  }

  lemma {:induction false} ViablePrefix(p: EarleyParser, a: Form, b: Form)
    requires Viable(p, a + b)
    ensures Viable(p, a)
  {
    var rest :| Derives(p.Productions(), [NonTerminal(p.startSymbol)], a + b + rest);
    assert a + b + rest == a + (b + rest);
  }

  lemma {:induction false} RuleInGrammar(p: EarleyParser, r: nat)
    requires r < |p.rules|
    ensures Production(p.rules[r].lhs, p.rules[r].rhs) in p.Productions()
  {
  }

  // ----- Soundness, for every grammar

  /** What a state promises: the tokens so far followed by its next symbol begin a sentential form. */
  lemma {:induction false} ItemNextViable(p: EarleyParser, tokens: seq<string>, k: nat, s: EarleyState, sym: Symbol)
    requires Item(p, tokens, k, s) && p.NextSymbol(s) == Some(sym)
    ensures Viable(p, Terms(tokens[..k]) + [sym])
  {
    hide EarleyParser.Productions, DerivesIn, Derives;
    var g, rule := p.Productions(), p.rules[s.ruleIdx];
    var before, after := rule.rhs[..s.dotPos], rule.rhs[s.dotPos + 1..];
    var a := Terms(tokens[..s.startPos]);
    var middle := Terms(tokens[s.startPos..k]);
    RuleInGrammar(p, s.ruleIdx);
    DerivesRefl(g, rule.rhs);
    DerivesByRule(g, Production(rule.lhs, rule.rhs), rule.rhs);
    assert rule.rhs == before + ([sym] + after);
    DerivesRefl(g, [sym] + after);
    DerivesConcat(g, before, middle, [sym] + after, [sym] + after);
    DerivesTrans(g, [NonTerminal(rule.lhs)], rule.rhs, middle + ([sym] + after));
    ViableByDerivation(p, a, [NonTerminal(rule.lhs)], middle + ([sym] + after));
    TermsSplit(tokens, 0, s.startPos, k);
    assert tokens[0..s.startPos] == tokens[..s.startPos] && tokens[0..k] == tokens[..k];
    assert a + (middle + ([sym] + after)) == (Terms(tokens[..k]) + [sym]) + after;
    ViablePrefix(p, Terms(tokens[..k]) + [sym], after);
  }

  /** Moving the dot over a symbol that derives the next stretch of tokens. */
  lemma {:induction false} ItemAdvanced(p: EarleyParser, tokens: seq<string>, j: nat, m: nat, s: EarleyState,
                                        sym: Symbol)
    requires Item(p, tokens, j, s) && j <= m <= |tokens|
    requires p.NextSymbol(s) == Some(sym)
    requires Derives(p.Productions(), [sym], Terms(tokens[j..m]))
    ensures Item(p, tokens, m, Advanced(s))
  {
    hide EarleyParser.Productions, DerivesIn, Derives;
    var rhs := p.rules[s.ruleIdx].rhs;
    assert rhs[..s.dotPos + 1] == rhs[..s.dotPos] + [sym];
    DerivesConcat(p.Productions(), rhs[..s.dotPos], Terms(tokens[s.startPos..j]), [sym], Terms(tokens[j..m]));
    TermsSplit(tokens, s.startPos, j, m);
  }

  lemma {:induction false} ItemScanned(p: EarleyParser, tokens: seq<string>, k: nat, s: EarleyState)
    requires k < |tokens| && Item(p, tokens, k, s)
    requires p.NextSymbol(s) == Some(Terminal(tokens[k]))
    ensures Item(p, tokens, k + 1, Advanced(s))
  {
    assert Terms(tokens[k..k + 1]) == [Terminal(tokens[k])];
    DerivesRefl(p.Productions(), [Terminal(tokens[k])]);
    ItemAdvanced(p, tokens, k, k + 1, s, Terminal(tokens[k]));
  }

  lemma {:induction false} ItemCompleted(p: EarleyParser, tokens: seq<string>, m: nat, w: EarleyState, c: EarleyState)
    requires Item(p, tokens, m, c) && p.IsComplete(c)
    requires Item(p, tokens, c.startPos, w)
    requires p.NextSymbol(w) == Some(NonTerminal(p.rules[c.ruleIdx].lhs))
    ensures Item(p, tokens, m, Advanced(w))
  {
    hide EarleyParser.Productions, DerivesIn, Derives;
    var rule := p.rules[c.ruleIdx];
    assert rule.rhs[..c.dotPos] == rule.rhs;
    RuleInGrammar(p, c.ruleIdx);
    DerivesByRule(p.Productions(), Production(rule.lhs, rule.rhs), Terms(tokens[c.startPos..m]));
    ItemAdvanced(p, tokens, c.startPos, m, w, NonTerminal(rule.lhs));
  }

  lemma {:induction false} ItemPredicted(p: EarleyParser, tokens: seq<string>, k: nat, r: nat)
    requires k <= |tokens| && r < |p.rules|
    requires Viable(p, Terms(tokens[..k]) + [NonTerminal(p.rules[r].lhs)])
    ensures Item(p, tokens, k, EarleyState(r, 0, k))
  {
    assert Terms(tokens[k..k]) == [];
    DerivesRefl(p.Productions(), []);
    assert p.rules[r].rhs[..0] == [];
  }

  ghost predicate ListsSound(p: EarleyParser, tokens: seq<string>, lists: seq<seq<EarleyState>>) {
    forall i :: 0 <= i < |lists| ==> ListSound(p, tokens, i, lists[i])
  }

  lemma {:induction false} CandidatesSound(p: EarleyParser, tokens: seq<string>, done: seq<seq<EarleyState>>,
                        cur: seq<EarleyState>, s: EarleyState)
    requires p.WellFormed() && ListsSound(p, tokens, done)
    requires |done| <= |tokens| && ListSound(p, tokens, |done|, cur) && s in cur
    ensures ListSound(p, tokens, |done|, Candidates(p, done, cur, s))
  {
    forall c | c in Candidates(p, done, cur, s) ensures Item(p, tokens, |done|, c) {
      match p.NextSymbol(s)
      case Some(NonTerminal(nt)) =>
        ItemNextViable(p, tokens, |done|, s, NonTerminal(nt));
        ItemPredicted(p, tokens, |done|, c.ruleIdx);
      case None =>
        var sym := NonTerminal(p.rules[s.ruleIdx].lhs);
        var w :| w in ListAt(done, cur, s.startPos) && p.NextSymbol(w) == Some(sym) && c == Advanced(w);
        assert Item(p, tokens, s.startPos, w);
        ItemCompleted(p, tokens, |done|, w, s);
    }
  }

  lemma {:induction false} SaturateSound(p: EarleyParser, tokens: seq<string>, done: seq<seq<EarleyState>>,
                                         cur: seq<EarleyState>, idx: nat)
    requires p.WellFormed() && Ranged(p, done) && p.AllInRange(|done|, cur)
    requires NoDuplicates(cur) && idx <= |cur|
    requires |done| <= |tokens| && ListsSound(p, tokens, done) && ListSound(p, tokens, |done|, cur)
    ensures ListSound(p, tokens, |done|, Saturate(p, done, cur, idx))
    decreases |Universe(p, |done|)| - |cur|, |cur| - idx
  {
    hide Item, PushAll, Candidates, ListsSound, Ranged;
    NoDuplicatesBound(cur, Universe(p, |done|));
    if idx < |cur| {
      CandidatesInRange(p, done, cur, cur[idx]);
      CandidatesSound(p, tokens, done, cur, cur[idx]);
      var next := PushAll(cur, Candidates(p, done, cur, cur[idx]));
      NoDuplicatesBound(next, Universe(p, |done|));
      SaturateSound(p, tokens, done, next, idx + 1);
    }
  }

  lemma {:induction false} InitialSound(p: EarleyParser, tokens: seq<string>)
    requires p.WellFormed()
    ensures ListSound(p, tokens, 0, Initial(p))
  {
    var g, start := p.Productions(), [NonTerminal(p.startSymbol)];
    DerivesRefl(g, start);
    assert Terms(tokens[..0]) + start == start == start + [];
    assert Viable(p, start);
    forall s | s in Initial(p) ensures Item(p, tokens, 0, s) {
      assert s.ruleIdx in p.RulesFor(p.startSymbol);
      ItemPredicted(p, tokens, 0, s.ruleIdx);
    }
  }

  lemma {:induction false} ScannedSound(p: EarleyParser, tokens: seq<string>, k: nat, list: seq<EarleyState>)
    requires k < |tokens| && ListSound(p, tokens, k, list)
    ensures ListSound(p, tokens, k + 1, Scanned(p, list, tokens[k]))
  {
    forall s | s in Scanned(p, list, tokens[k]) ensures Item(p, tokens, k + 1, s) {
      var w :| w in list && p.NextSymbol(w) == Some(Terminal(tokens[k])) && s == Advanced(w);
      ItemScanned(p, tokens, k, w);
    }
  }

  /** Only the tokens before position `k` matter to an item there. */
  lemma {:induction false} ItemPrefix(p: EarleyParser, tokens: seq<string>, k: nat, n: nat, s: EarleyState)
    requires k <= n <= |tokens|
    ensures Item(p, tokens, k, s) <==> Item(p, tokens[..n], k, s)
  {
    if p.InRange(k, s) {
      assert tokens[..n][s.startPos..k] == tokens[s.startPos..k];
      assert tokens[..n][..s.startPos] == tokens[..s.startPos];
    }
  }

  /** Every state the recogniser ever holds fits a derivation: for every grammar, epsilon rules included. */
  lemma {:induction false} ChartSound(p: EarleyParser, tokens: seq<string>)
    requires p.WellFormed()
    ensures ListsSound(p, tokens, ChartFor(p, tokens))
    decreases |tokens|
  {
    hide Item, Saturate, PushAll, Moved;
    if tokens == [] {
      InitialSound(p, tokens);
      SaturateSound(p, tokens, [], Initial(p), 0);
    } else {
      var n := |tokens| - 1;
      var prev := ChartFor(p, tokens[..n]);
      ChartSound(p, tokens[..n]);
      forall i, s | 0 <= i < |prev| && s in prev[i] ensures Item(p, tokens, i, s) {
        ItemPrefix(p, tokens, i, n, s);
      }
      ScannedSound(p, tokens, n, prev[n]);
      SaturateSound(p, tokens, prev, Scanned(p, prev[n], tokens[n]), 0);
    }
  }
}
