/**
 Corrections and their ranked list, src/code/correction.rs.  Source text is a sequence of
 bytes and every position a byte offset; confidences are reals.
 */
module Correcting {
  type Bytes = seq<bv8>

  datatype Correction = Correction(startByte: nat, endByte: nat, original: Bytes, replacement: Bytes, confidence: real)

  function Confidence(c: Correction): real {
    c.confidence
  }

  function Position(c: Correction): real {
    c.startByte as real
  }

  // ----- The stable descending sort of the standard library

  ghost predicate Sorted(xs: seq<Correction>, key: Correction -> real) {
    forall i, j :: 0 <= i < j < |xs| ==> key(xs[i]) >= key(xs[j])
  }

  /** `x` goes behind every element that is not smaller. */
  function Insert(xs: seq<Correction>, x: Correction, key: Correction -> real): (r: seq<Correction>)
    ensures multiset(r) == multiset(xs) + multiset{x} && |r| == |xs| + 1
  {
    if xs == [] || key(xs[|xs| - 1]) >= key(x) then xs + [x]
    else
      assert xs == xs[..|xs| - 1] + [xs[|xs| - 1]];
      Insert(xs[..|xs| - 1], x, key) + [xs[|xs| - 1]]
  }

  lemma InsertMembers(xs: seq<Correction>, x: Correction, key: Correction -> real)
    ensures forall y :: y in Insert(xs, x, key) <==> y in xs || y == x
  {
    forall y ensures y in Insert(xs, x, key) <==> y in xs || y == x {
      assert y in Insert(xs, x, key) <==> y in multiset(Insert(xs, x, key));
      assert y in xs <==> y in multiset(xs);
    }
  }

  lemma {:induction false} InsertSorted(xs: seq<Correction>, x: Correction, key: Correction -> real)
    requires Sorted(xs, key)
    ensures Sorted(Insert(xs, x, key), key)
  {
    if xs != [] && key(xs[|xs| - 1]) < key(x) {
      var init, last := xs[..|xs| - 1], xs[|xs| - 1];
      var front := Insert(init, x, key);
      InsertSorted(init, x, key);
      InsertMembers(init, x, key);
      forall i | 0 <= i < |front| ensures key(front[i]) >= key(last) {
        assert front[i] in front;
      }
    }
  }

  function SortDescending(xs: seq<Correction>, key: Correction -> real): (r: seq<Correction>)
    ensures multiset(r) == multiset(xs) && |r| == |xs| && Sorted(r, key)
  {
    if xs == [] then []
    else
      assert xs == xs[..|xs| - 1] + [xs[|xs| - 1]];
      InsertSorted(SortDescending(xs[..|xs| - 1], key), xs[|xs| - 1], key);
      Insert(SortDescending(xs[..|xs| - 1], key), xs[|xs| - 1], key)
  }

  lemma SortMembers(xs: seq<Correction>, key: Correction -> real, x: Correction)
    ensures x in SortDescending(xs, key) <==> x in xs
  {
    assert x in SortDescending(xs, key) <==> x in multiset(SortDescending(xs, key));
    assert x in xs <==> x in multiset(xs);
  }

  function OnlyIf(x: Correction, key: Correction -> real, v: real): seq<Correction> {
    if key(x) == v then [x] else []
  }

  /** The elements whose key is `v`, in order. */
  function WithKey(xs: seq<Correction>, key: Correction -> real, v: real): seq<Correction> {
    if xs == [] then [] else OnlyIf(xs[0], key, v) + WithKey(xs[1..], key, v)
  }

  lemma {:induction false} WithKeySnoc(xs: seq<Correction>, x: Correction, key: Correction -> real, v: real)
    ensures WithKey(xs + [x], key, v) == WithKey(xs, key, v) + OnlyIf(x, key, v)
  {
    hide OnlyIf;
    if xs == [] {
      assert xs + [x] == [x] && [x][1..] == [];
    } else {
      assert (xs + [x])[1..] == xs[1..] + [x] && (xs + [x])[0] == xs[0];
      WithKeySnoc(xs[1..], x, key, v);
      var a, b, c := OnlyIf(xs[0], key, v), WithKey(xs[1..], key, v), OnlyIf(x, key, v);
      assert (a + b) + c == a + (b + c);
    }
  }

  lemma {:induction false} InsertStable(xs: seq<Correction>, x: Correction, key: Correction -> real, v: real)
    ensures WithKey(Insert(xs, x, key), key, v) == WithKey(xs, key, v) + OnlyIf(x, key, v)
  {
    if xs == [] || key(xs[|xs| - 1]) >= key(x) {
      assert Insert(xs, x, key) == xs + [x];
      hide Insert, WithKey, OnlyIf;
      WithKeySnoc(xs, x, key, v);
    } else {
      var init, last := xs[..|xs| - 1], xs[|xs| - 1];
      assert Insert(xs, x, key) == Insert(init, x, key) + [last];
      hide Insert, WithKey, OnlyIf;
      assert xs == init + [last];
      InsertStable(init, x, key, v);
      WithKeySnoc(Insert(init, x, key), last, key, v);
      WithKeySnoc(init, last, key, v);
      OnlyOne(WithKey(init, key, v), x, last, key, v);
    }
  }

  /** Of two elements with different keys at most one has a given key. */
  lemma OnlyOne(a: seq<Correction>, x: Correction, y: Correction, key: Correction -> real, v: real)
    requires key(x) != key(y)
    ensures a + OnlyIf(x, key, v) + OnlyIf(y, key, v) == a + OnlyIf(y, key, v) + OnlyIf(x, key, v)
  {
  }

  /** Elements with equal keys keep their order. */
  lemma {:induction false} SortStable(xs: seq<Correction>, key: Correction -> real, v: real)
    ensures WithKey(SortDescending(xs, key), key, v) == WithKey(xs, key, v)
  {
    hide SortDescending, Insert, WithKey, OnlyIf;
    if xs == [] {
      NoneSorted(key);
    } else {
      var init, last := xs[..|xs| - 1], xs[|xs| - 1];
      assert xs == init + [last];
      SortStable(init, key, v);
      SortSnoc(init, last, key);
      InsertStable(SortDescending(init, key), last, key, v);
      WithKeySnoc(init, last, key, v);
    }
  }

  lemma NoneSorted(key: Correction -> real)
    ensures SortDescending([], key) == []
  {
  }

  lemma {:induction false} WithKeyMember(xs: seq<Correction>, x: Correction, key: Correction -> real)
    ensures x in xs <==> x in WithKey(xs, key, key(x))
  {
    if xs != [] {
      assert xs == [xs[0]] + xs[1..];
      WithKeyMember(xs[1..], x, key);
    }
  }

  /** Sorted lists that agree on the order of equal keys are the same list. */
  lemma {:induction false} SortedUnique(a: seq<Correction>, b: seq<Correction>, key: Correction -> real)
    requires Sorted(a, key) && Sorted(b, key)
    requires forall v :: WithKey(a, key, v) == WithKey(b, key, v)
    ensures a == b
  {
    if a == [] || b == [] {
      if a != [] { WithKeyMember(a, a[0], key); WithKeyMember(b, a[0], key); }
      if b != [] { WithKeyMember(b, b[0], key); WithKeyMember(a, b[0], key); }
    } else {
      WithKeyMember(a, a[0], key);
      WithKeyMember(b, a[0], key);
      WithKeyMember(b, b[0], key);
      WithKeyMember(a, b[0], key);
      assert key(a[0]) == key(b[0]);
      var v := key(a[0]);
      assert WithKey(a, key, v)[0] == a[0] && WithKey(b, key, v)[0] == b[0];
      forall w ensures WithKey(a[1..], key, w) == WithKey(b[1..], key, w) {
        assert WithKey(a, key, w) == WithKey(b, key, w);
        var n := if v == w then 1 else 0;
        assert WithKey(a, key, w)[n..] == WithKey(a[1..], key, w) && WithKey(b, key, w)[n..] == WithKey(b[1..], key, w);
      }
      SortedUnique(a[1..], b[1..], key);
      assert a == [a[0]] + a[1..] && b == [b[0]] + b[1..];
    }
  }

  /** The sort is the only descending arrangement of the elements that keeps equal keys in order. */
  lemma StableSortUnique(xs: seq<Correction>, ys: seq<Correction>, key: Correction -> real)
    requires Sorted(ys, key) && forall v :: WithKey(ys, key, v) == WithKey(xs, key, v)
    ensures ys == SortDescending(xs, key)
  {
    forall v ensures WithKey(ys, key, v) == WithKey(SortDescending(xs, key), key, v) {
      SortStable(xs, key, v);
    }
    SortedUnique(ys, SortDescending(xs, key), key);
  }

  // ----- Keeping only the best

  function Best(xs: seq<Correction>, n: nat): seq<Correction> {
    if |xs| > n then xs[..n] else xs
  }

  lemma {:induction false} SortOfSorted(xs: seq<Correction>, key: Correction -> real)
    requires Sorted(xs, key)
    ensures SortDescending(xs, key) == xs
  {
    StableSortUnique(xs, xs, key);
  }

  /** What falls off the end before an insertion would have fallen off after it. */
  lemma {:induction false} BestInsert(xs: seq<Correction>, x: Correction, key: Correction -> real, n: nat)
    requires Sorted(xs, key)
    ensures Best(Insert(Best(xs, n), x, key), n) == Best(Insert(xs, x, key), n)
  {
    if |xs| > n {
      var init, last := xs[..|xs| - 1], xs[|xs| - 1];
      BestInsert(init, x, key, n);
      assert Best(init, n) == Best(xs, n);
      InsertDropsLast(xs, x, key, n);
    }
  }

  lemma InsertDropsLast(xs: seq<Correction>, x: Correction, key: Correction -> real, n: nat)
    requires Sorted(xs, key) && |xs| > n
    ensures Best(Insert(xs[..|xs| - 1], x, key), n) == Best(Insert(xs, x, key), n)
  {
    var init := xs[..|xs| - 1];
    if key(xs[|xs| - 1]) >= key(x) {
      assert Insert(xs, x, key) == xs + [x];
      assert init == [] || key(init[|init| - 1]) >= key(xs[|xs| - 1]);
      assert Insert(init, x, key) == init + [x];
    }
  }

  lemma SortSnoc(xs: seq<Correction>, x: Correction, key: Correction -> real)
    ensures SortDescending(xs + [x], key) == Insert(SortDescending(xs, key), x, key)
  {
    assert (xs + [x])[..|xs|] == xs;
  }

  /** Truncating after every addition loses nothing: the best of everything are the best of the best so far. */
  lemma {:induction false} BestOfAdded(added: seq<Correction>, x: Correction, key: Correction -> real, n: nat)
    ensures var kept := Best(SortDescending(added, key), n);
            Best(SortDescending(kept + [x], key), n) == Best(SortDescending(added + [x], key), n)
  {
    var all := SortDescending(added, key);
    BestSorted(all, key, n);
    hide Insert, SortDescending, Best, Sorted;
    SortSnoc(added, x, key);
    SortSnoc(Best(all, n), x, key);
    SortOfSorted(Best(all, n), key);
    BestInsert(all, x, key, n);
  }

  lemma BestSorted(xs: seq<Correction>, key: Correction -> real, n: nat)
    requires Sorted(xs, key)
    ensures Sorted(Best(xs, n), key)
  {
  }

  /** No correction has more confidence than one before it. */
  predicate Ranked(cs: seq<Correction>) {
    forall i, j :: 0 <= i < j < |cs| ==> cs[i].confidence >= cs[j].confidence
  }

  /** `kept` are the first `n` of `added` by confidence: as many as there can be, and none left out is better. */
  ghost predicate FirstOf(kept: seq<Correction>, added: seq<Correction>, n: nat) {
    && Ranked(kept) && |kept| == (if |added| < n then |added| else n)
    && multiset(kept) <= multiset(added)
    && forall c, k :: c in multiset(added) - multiset(kept) && k in kept ==> k.confidence >= c.confidence
  }

  lemma BestIsFirst(added: seq<Correction>, n: nat)
    ensures FirstOf(Best(SortDescending(added, Confidence), n), added, n)
  {
    var all := SortDescending(added, Confidence);
    RankedIs(all);
    hide SortDescending;
    CutIsFirst(added, all, n);
  }

  lemma RankedIs(cs: seq<Correction>)
    ensures Sorted(cs, Confidence) <==> Ranked(cs)
  {
    if Sorted(cs, Confidence) {
      forall i, j | 0 <= i < j < |cs| ensures cs[i].confidence >= cs[j].confidence {
        assert Confidence(cs[i]) >= Confidence(cs[j]);
      }
    }
  }

  lemma CutIsFirst(added: seq<Correction>, all: seq<Correction>, n: nat)
    requires Ranked(all) && multiset(all) == multiset(added) && |all| == |added|
    ensures FirstOf(Best(all, n), added, n)
  {
    hide Ranked, Best;
    var kept := Best(all, n);
    var rest := CutAt(all, n);
    RankedAcross(kept, rest);
    TakenAway(multiset(added), multiset(kept), multiset(rest));
    forall c, k | c in multiset(added) - multiset(kept) && k in kept ensures k.confidence >= c.confidence {
      assert c in multiset(rest);
    }
  }

  lemma CutAt(all: seq<Correction>, n: nat) returns (rest: seq<Correction>)
    ensures all == Best(all, n) + rest && multiset(all) == multiset(Best(all, n)) + multiset(rest)
    ensures |Best(all, n)| == if |all| < n then |all| else n
  {
    rest := if |all| > n then all[n..] else [];
    assert all == Best(all, n) + rest;
  }

  lemma RankedAcross(kept: seq<Correction>, rest: seq<Correction>)
    requires Ranked(kept + rest)
    ensures Ranked(kept) && forall k, c :: k in kept && c in rest ==> k.confidence >= c.confidence
  {
    var all := kept + rest;
    assert forall i :: 0 <= i < |kept| ==> all[i] == kept[i];
    assert forall j :: 0 <= j < |rest| ==> all[|kept| + j] == rest[j];
  }

  lemma TakenAway(whole: multiset<Correction>, part: multiset<Correction>, rest: multiset<Correction>)
    requires whole == part + rest
    ensures part <= whole && whole - part == rest
  {
  }

  /** `CorrectionCandidates`. */
  class CorrectionCandidates {
    var corrections: seq<Correction>
    const maxCandidates: nat
    /** Everything ever added, in order. */
    ghost var added: seq<Correction>

    /** The list is the front of the stable descending sort of everything ever added. */
    ghost predicate Valid()
      reads this
    {
      corrections == Best(SortDescending(added, Confidence), maxCandidates)
    }

    constructor (maxCandidates: nat)
      ensures Valid() && this.maxCandidates == maxCandidates && added == [] && corrections == []
    {
      this.maxCandidates, corrections, added := maxCandidates, [], [];
    }

    method Add(correction: Correction)
      requires Valid()
      modifies this
      ensures Valid() && added == old(added) + [correction]
      ensures FirstOf(corrections, added, maxCandidates)
    {
      BestIsFirst(added + [correction], maxCandidates);
      hide FirstOf;
      BestOfAdded(added, correction, Confidence, maxCandidates);
      hide SortDescending;
      corrections := SortDescending(corrections + [correction], Confidence);
      if |corrections| > maxCandidates {
        corrections := corrections[..maxCandidates];
      }
      added := added + [correction];
    }

    method AddAll(more: seq<Correction>)
      requires Valid()
      modifies this
      ensures Valid() && added == old(added) + more
      ensures FirstOf(corrections, added, maxCandidates)
    {
      hide FirstOf, SortDescending, Best;
      for i := 0 to |more|
        invariant Valid() && added == old(added) + more[..i]
      {
        Add(more[i]);
        assert more[..i + 1] == more[..i] + [more[i]];
      }
      assert more[..|more|] == more;
      BestIsFirst(added, maxCandidates);
    }
  }
}
