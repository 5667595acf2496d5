/**
 The correction pipeline's two algorithms, src/code/pipeline.rs: collecting the best
 corrections in a bounded heap, and applying corrections from the back of a text to its front.
 */
module Pipeline {
  import opened Correcting

  // ----- Applying corrections

  /** `replace_range`, and `Correction::apply`. */
  function Replace(text: Bytes, c: Correction): Bytes
    requires c.startByte <= c.endByte <= |text|
  {
    text[..c.startByte] + c.replacement + text[c.endByte..]
  }

  /** One turn of the loop, with its guard. */
  function ApplyOne(text: Bytes, c: Correction): Bytes {
    if c.startByte < |text| && c.startByte <= c.endByte <= |text| then Replace(text, c) else text
  }

  function ApplyInTurn(text: Bytes, cs: seq<Correction>): Bytes {
    if cs == [] then text else ApplyOne(ApplyInTurn(text, cs[..|cs| - 1]), cs[|cs| - 1])
  }

  /** The order in which the pipeline applies corrections: from the back of the text. */
  function FromTheBack(cs: seq<Correction>): seq<Correction> {
    SortDescending(cs, Position)
  }

  function Reverse(cs: seq<Correction>): seq<Correction> {
    if cs == [] then [] else [cs[|cs| - 1]] + Reverse(cs[..|cs| - 1])
  }

  /** The reference: copy the text from `pos` on, putting each replacement in the place of its range. */
  function Splice(text: Bytes, pos: nat, cs: seq<Correction>): Bytes
    requires pos <= |text|
    decreases |cs|
  {
    if cs == [] then text[pos..]
    else if pos <= cs[0].startByte <= cs[0].endByte <= |text| then
      text[pos..cs[0].startByte] + cs[0].replacement + Splice(text, cs[0].endByte, cs[1..])
    else text[pos..]
  }

  /** All corrections at once, by one pass over the text from left to right. */
  function Simultaneous(text: Bytes, cs: seq<Correction>): Bytes {
    Splice(text, 0, Reverse(FromTheBack(cs)))
  }

  predicate InText(text: Bytes, cs: seq<Correction>) {
    forall c :: c in cs ==> c.startByte <= c.endByte <= |text|
  }

  /** No correction is listed twice, ranges start in different places, and none overlaps another. */
  ghost predicate Separate(cs: seq<Correction>) {
    && (forall c :: multiset(cs)[c] <= 1)
    && (forall a, b :: a in cs && b in cs && a != b ==>
          a.startByte != b.startByte && (a.startByte < b.startByte ==> a.endByte <= b.startByte))
  }

  /** Each range ends before the one applied before it starts. */
  predicate BackToFront(cs: seq<Correction>) {
    forall i, j :: 0 <= i < j < |cs| ==> cs[j].endByte <= cs[i].startByte && cs[j].startByte < cs[i].startByte
  }

  /** Only insertions at the very end of the text fail the guard. */
  predicate AtEnd(text: Bytes, c: Correction) {
    c.startByte >= |text|
  }

  method ApplyCorrections(source: Bytes, corrections: seq<Correction>) returns (result: Bytes)
    requires forall c :: c in corrections ==> c.startByte <= c.endByte
    ensures result == ApplyInTurn(source, FromTheBack(corrections))
    ensures Separate(corrections) ==> result == Simultaneous(source, Fitting(source, corrections))
  {
    if Separate(corrections) { OnlyFittingApplied(source, corrections); }
    hide Separate, ApplyInTurn, Simultaneous, Fitting;
    NoneApplied(source);
    if corrections == [] {
      return source;
    }
    var sorted := SortDescending(corrections, Position);
    forall c | c in sorted ensures c.startByte <= c.endByte {
      SortMembers(corrections, Position, c);
    }
    result := ApplySorted(source, sorted);
  }

  method ApplySorted(source: Bytes, sorted: seq<Correction>) returns (result: Bytes)
    requires forall c :: c in sorted ==> c.startByte <= c.endByte
    ensures result == ApplyInTurn(source, sorted)
  {
    hide Replace, ApplyInTurn;
    NoneApplied(source);
    result := source;
    for i := 0 to |sorted|
      invariant result == ApplyInTurn(source, sorted[..i])
    {
      var correction := sorted[i];
      assert sorted[..i + 1] == sorted[..i] + [correction];
      ApplySnoc(source, sorted[..i], correction);
      if correction.startByte < |result| && correction.endByte <= |result| {
        result := Replace(result, correction);
      }
    }
    assert sorted[..|sorted|] == sorted;
  }

  lemma NoneApplied(text: Bytes)
    ensures ApplyInTurn(text, []) == text
  {
  }

  lemma {:induction false} ReverseSnoc(cs: seq<Correction>, c: Correction)
    ensures Reverse(cs + [c]) == [c] + Reverse(cs)
  {
    assert (cs + [c])[..|cs|] == cs;
  }

  lemma ApplySnoc(text: Bytes, cs: seq<Correction>, c: Correction)
    ensures ApplyInTurn(text, cs + [c]) == ApplyOne(ApplyInTurn(text, cs), c)
  {
    assert (cs + [c])[..|cs|] == cs;
  }

  /** Prepending a correction to the pass is replacing its range in the pass's result. */
  lemma SplicePrepend(text: Bytes, c: Correction, cs: seq<Correction>)
    requires c.startByte <= c.endByte <= |text|
    requires cs != [] ==> c.endByte <= cs[0].startByte <= cs[0].endByte <= |text|
    ensures c.endByte <= |Splice(text, 0, cs)|
    ensures Splice(text, 0, [c] + cs) == Replace(Splice(text, 0, cs), c)
  {
    assert ([c] + cs)[1..] == cs;
    var whole := Splice(text, 0, cs);
    if cs == [] {
      assert whole == text;
    } else {
      var first, rest := cs[0], cs[0].replacement + Splice(text, cs[0].endByte, cs[1..]);
      assert whole == text[0..first.startByte] + rest;
      assert Splice(text, c.endByte, cs) == text[c.endByte..first.startByte] + rest;
      assert whole[..c.startByte] == text[0..c.startByte];
      assert whole[c.endByte..] == text[c.endByte..first.startByte] + rest;
    }
  }

  /** Applied back to front, corrections that pass the guard amount to the one pass. */
  lemma {:induction false} BackToFrontIsSplice(text: Bytes, cs: seq<Correction>)
    requires InText(text, cs) && BackToFront(cs) && forall c :: c in cs ==> !AtEnd(text, c)
    ensures ApplyInTurn(text, cs) == Splice(text, 0, Reverse(cs))
    ensures if cs == [] then Reverse(cs) == [] else Reverse(cs) != [] && Reverse(cs)[0] == cs[|cs| - 1]
  {
    if cs == [] {
      assert text[0..] == text;
    } else {
      hide Splice, Replace, ApplyInTurn, Reverse;
      var init, last := cs[..|cs| - 1], cs[|cs| - 1];
      assert cs == init + [last];
      BackToFrontIsSplice(text, init);
      ApplySnoc(text, init, last);
      ReverseSnoc(init, last);
      assert last in cs && (init != [] ==> init[|init| - 1] in cs);
      ApplyLast(text, init, last);
    }
  }

  /** The last correction handled lies before all others, and so passes the guard. */
  lemma ApplyLast(text: Bytes, init: seq<Correction>, last: Correction)
    requires last.startByte <= last.endByte <= |text| && !AtEnd(text, last)
    requires init != [] ==> init[|init| - 1].startByte > last.startByte && last.endByte <= init[|init| - 1].startByte
    requires init != [] ==> init[|init| - 1].startByte <= init[|init| - 1].endByte <= |text|
    requires if init == [] then Reverse(init) == [] else Reverse(init) != [] && Reverse(init)[0] == init[|init| - 1]
    ensures ApplyOne(Splice(text, 0, Reverse(init)), last) == Splice(text, 0, [last] + Reverse(init))
  {
    SplicePrepend(text, last, Reverse(init));
    GuardHolds(text, init, last);
    hide Splice, Reverse, Replace;
  }

  lemma GuardHolds(text: Bytes, init: seq<Correction>, last: Correction)
    requires last.startByte <= last.endByte <= |text| && !AtEnd(text, last)
    requires init != [] ==> init[|init| - 1].startByte > last.startByte && last.endByte <= init[|init| - 1].startByte
    requires init != [] ==> Reverse(init) != [] && Reverse(init)[0] == init[|init| - 1]
                            && init[|init| - 1].startByte <= init[|init| - 1].endByte <= |text|
    ensures var t := Splice(text, 0, Reverse(init)); last.startByte < |t| && last.endByte <= |t|
  {
  }

  lemma TwiceCounts(s: seq<Correction>, i: nat, j: nat)
    requires i < j < |s| && s[i] == s[j]
    ensures multiset(s)[s[i]] >= 2
  {
    var a, b := s[..j], s[j..];
    assert s == a + b;
    assert s[i] == a[i] && s[j] == b[0];
    assert multiset(s) == multiset(a) + multiset(b);
  }

  lemma SeparateIsBackToFront(text: Bytes, cs: seq<Correction>)
    requires InText(text, cs) && Separate(cs)
    ensures InText(text, FromTheBack(cs)) && BackToFront(FromTheBack(cs))
  {
    SortedIsBackToFront(cs);
    forall c | c in FromTheBack(cs) ensures c in cs { SortMembers(cs, Position, c); }
  }

  lemma SortedIsBackToFront(cs: seq<Correction>)
    requires Separate(cs)
    ensures BackToFront(FromTheBack(cs))
  {
    var sorted := FromTheBack(cs);
    forall c | c in sorted ensures c in cs { SortMembers(cs, Position, c); }
    forall i, j | 0 <= i < j < |sorted|
      ensures sorted[j].endByte <= sorted[i].startByte && sorted[j].startByte < sorted[i].startByte
    {
      assert sorted[i] in sorted && sorted[j] in sorted;
      if sorted[i] == sorted[j] { TwiceCounts(sorted, i, j); }
      assert Position(sorted[i]) >= Position(sorted[j]);
    }
  }

  ghost predicate Ascending(text: Bytes, pos: nat, cs: seq<Correction>)
    decreases |cs|
  {
    cs == [] || (pos <= cs[0].startByte <= cs[0].endByte <= |text| && Ascending(text, cs[0].endByte, cs[1..]))
  }

  lemma {:induction false} ReverseAscends(text: Bytes, cs: seq<Correction>)
    requires InText(text, cs) && BackToFront(cs)
    ensures Ascending(text, 0, Reverse(cs))
    ensures if cs == [] then Reverse(cs) == [] else Reverse(cs) != [] && Reverse(cs)[0] == cs[|cs| - 1]
  {
    if cs != [] {
      var init, last := cs[..|cs| - 1], cs[|cs| - 1];
      assert last in cs && forall c :: c in init ==> c in cs;
      ReverseAscends(text, init);
      assert Reverse(cs)[1..] == Reverse(init);
    }
  }

  lemma {:induction false} ReverseCons(c: Correction, cs: seq<Correction>)
    ensures Reverse([c] + cs) == Reverse(cs) + [c]
  {
    if cs == [] {
      assert [c] + cs == [] + [c];
      ReverseSnoc([], c);
    } else {
      var init, last := cs[..|cs| - 1], cs[|cs| - 1];
      assert [c] + cs == ([c] + init) + [last] && cs == init + [last];
      ReverseSnoc([c] + init, last);
      ReverseSnoc(init, last);
      ReverseCons(c, init);
    }
  }

  /** Text inserted at the end stands at the end of the pass's result. */
  lemma {:induction false} SpliceAtEnd(text: Bytes, pos: nat, cs: seq<Correction>, c: Correction)
    requires pos <= |text| && Ascending(text, pos, cs) && c.startByte == c.endByte == |text|
    ensures Splice(text, pos, cs + [c]) == Splice(text, pos, cs) + c.replacement
    decreases |cs|
  {
    if cs == [] {
      assert cs + [c] == [c] && [c][1..] == [];
      assert text[pos..|text|] == text[pos..] && text[|text|..] == [];
    } else {
      assert (cs + [c])[1..] == cs[1..] + [c] && (cs + [c])[0] == cs[0];
      SpliceAtEnd(text, cs[0].endByte, cs[1..], c);
      SpliceUnfolds(text, pos, cs);
      SpliceUnfolds(text, pos, cs + [c]);
      hide Splice;
      var head := text[pos..cs[0].startByte] + cs[0].replacement;
      Regroup(head, Splice(text, cs[0].endByte, cs[1..]), c.replacement);
    }
  }

  lemma Regroup(a: Bytes, b: Bytes, c: Bytes)
    ensures a + (b + c) == (a + b) + c
  {
  }

  lemma SpliceUnfolds(text: Bytes, pos: nat, cs: seq<Correction>)
    requires cs != [] && pos <= cs[0].startByte <= cs[0].endByte <= |text|
    ensures Splice(text, pos, cs)
         == (text[pos..cs[0].startByte] + cs[0].replacement) + Splice(text, cs[0].endByte, cs[1..])
  {
    Regroup(text[pos..cs[0].startByte], cs[0].replacement, Splice(text, cs[0].endByte, cs[1..]));
  }

  lemma {:induction false} SkipFirst(text: Bytes, c: Correction, cs: seq<Correction>)
    requires AtEnd(text, c)
    ensures ApplyInTurn(text, [c] + cs) == ApplyInTurn(text, cs)
  {
    if cs == [] {
      assert [c] + cs == [] + [c];
      ApplySnoc(text, [], c);
    } else {
      var init, last := cs[..|cs| - 1], cs[|cs| - 1];
      assert [c] + cs == ([c] + init) + [last] && cs == init + [last];
      SkipFirst(text, c, init);
      ApplySnoc(text, [c] + init, last);
      ApplySnoc(text, init, last);
    }
  }

  lemma SuffixBackToFront(text: Bytes, cs: seq<Correction>)
    requires InText(text, cs) && BackToFront(cs) && cs != []
    ensures InText(text, cs[1..]) && BackToFront(cs[1..]) && forall c :: c in cs[1..] ==> !AtEnd(text, c)
    ensures !AtEnd(text, cs[0]) ==> forall c :: c in cs ==> !AtEnd(text, c)
  {
    assert cs[0] in cs;
    forall i | 1 <= i < |cs| ensures !AtEnd(text, cs[i]) {
      assert cs[i].startByte < cs[0].startByte;
    }
  }

  /** What the pipeline returns, back to front, is the one pass less any text inserted at the very end. */
  lemma BackToFrontResult(text: Bytes, cs: seq<Correction>)
    requires InText(text, cs) && BackToFront(cs)
    ensures Splice(text, 0, Reverse(cs))
         == ApplyInTurn(text, cs) + if cs != [] && AtEnd(text, cs[0]) then cs[0].replacement else []
  {
    if cs == [] || !AtEnd(text, cs[0]) {
      if cs != [] { SuffixBackToFront(text, cs); }
      BackToFrontIsSplice(text, cs);
    } else {
      var first, rest := cs[0], cs[1..];
      assert first in cs && cs == [first] + rest;
      SuffixBackToFront(text, cs);
      BackToFrontIsSplice(text, rest);
      ReverseAscends(text, rest);
      SpliceAtEnd(text, 0, Reverse(rest), first);
      ReverseCons(first, rest);
      SkipFirst(text, first, rest);
    }
  }

  lemma OnlyTheFirstAtEnd(text: Bytes, cs: seq<Correction>)
    requires InText(text, cs) && BackToFront(cs)
    ensures ApplyInTurn(text, cs) == Splice(text, 0, Reverse(cs))
       <==> forall c :: c in cs && AtEnd(text, c) ==> c.replacement == []
  {
    BackToFrontResult(text, cs);
    hide ApplyInTurn, Splice, Reverse, BackToFront;
    if cs != [] {
      SuffixBackToFront(text, cs);
      assert cs == [cs[0]] + cs[1..];
      assert forall c :: c in cs ==> c == cs[0] || c in cs[1..];
    }
  }

  /**
   For corrections inside the text that do not overlap, in whatever order they are listed,
   applying them equals substituting all of them at once exactly when none of them inserts
   text at the very end: such an insertion fails the loop's guard and is dropped.
   */
  lemma AppliedIsSimultaneous(text: Bytes, cs: seq<Correction>)
    requires InText(text, cs) && Separate(cs)
    ensures ApplyInTurn(text, FromTheBack(cs)) == Simultaneous(text, cs)
       <==> forall c :: c in cs && AtEnd(text, c) ==> c.replacement == []
  {
    var sorted := FromTheBack(cs);
    SeparateIsBackToFront(text, cs);
    hide ApplyInTurn, Splice, Reverse, BackToFront, FromTheBack, Separate, InText;
    OnlyTheFirstAtEnd(text, sorted);
    forall c ensures c in sorted <==> c in cs { MembersFromTheBack(cs, c); }
  }

  lemma {:induction false} MembersFromTheBack(cs: seq<Correction>, c: Correction)
    ensures c in FromTheBack(cs) <==> c in cs
  {
    SortMembers(cs, Position, c);
  }

  // ----- Corrections that do not fit

  /** The correction starts inside the text and ends no later than it. */
  predicate Fits(text: Bytes, c: Correction) {
    c.startByte <= c.endByte <= |text| && c.startByte != |text|
  }

  function Fitting(text: Bytes, cs: seq<Correction>): seq<Correction> {
    if cs == [] then []
    else Fitting(text, cs[..|cs| - 1]) + if Fits(text, cs[|cs| - 1]) then [cs[|cs| - 1]] else []
  }

  lemma {:induction false} FittingMembers(text: Bytes, cs: seq<Correction>, c: Correction)
    ensures c in Fitting(text, cs) <==> c in cs && Fits(text, c)
  {
    if cs != [] {
      assert cs == cs[..|cs| - 1] + [cs[|cs| - 1]];
      FittingMembers(text, cs[..|cs| - 1], c);
    }
  }

  /** From the back, what does not fit comes first, while the text is still what it was, and is skipped. */
  lemma {:induction false} OthersSkipped(text: Bytes, cs: seq<Correction>)
    requires BackToFront(cs) && forall c :: c in cs ==> c.startByte <= c.endByte
    ensures ApplyInTurn(text, cs) == ApplyInTurn(text, Fitting(text, cs))
  {
    hide ApplyInTurn, Fitting, Replace;
    if cs == [] {
      FittingNone(text, 0.0);
    } else {
      var init, last := cs[..|cs| - 1], cs[|cs| - 1];
      assert cs == init + [last] && last in cs;
      OthersSkipped(text, init);
      ApplySnoc(text, init, last);
      FittingSnoc(text, init, last);
      if Fits(text, last) {
        ApplySnoc(text, Fitting(text, init), last);
      } else {
        NothingFitsBehind(text, init, last);
        NoneApplied(text);
        assert Fitting(text, init) + [] == [];
      }
    }
  }

  lemma {:induction false} NothingFitsBehind(text: Bytes, cs: seq<Correction>, last: Correction)
    requires !Fits(text, last) && last.startByte <= last.endByte
    requires forall c :: c in cs ==> last.endByte <= c.startByte && last.startByte < c.startByte
    ensures Fitting(text, cs) == []
  {
    if cs != [] {
      assert cs == cs[..|cs| - 1] + [cs[|cs| - 1]];
      NothingFitsBehind(text, cs[..|cs| - 1], last);
    }
  }

  lemma {:induction false} FittingInOrder(text: Bytes, cs: seq<Correction>)
    requires BackToFront(cs)
    ensures BackToFront(Fitting(text, cs))
  {
    if cs != [] {
      var init, last := cs[..|cs| - 1], cs[|cs| - 1];
      FittingInOrder(text, init);
      forall c | c in Fitting(text, init) ensures last.endByte <= c.startByte && last.startByte < c.startByte {
        FittingMembers(text, init, c);
      }
    }
  }

  // Leaving out what does not fit commutes with sorting.

  lemma {:induction false} FittingSorted(text: Bytes, cs: seq<Correction>)
    requires Sorted(cs, Position)
    ensures Sorted(Fitting(text, cs), Position)
  {
    if cs != [] {
      var init, last := cs[..|cs| - 1], cs[|cs| - 1];
      FittingSorted(text, init);
      forall c | c in Fitting(text, init) ensures Position(c) >= Position(last) {
        FittingMembers(text, init, c);
      }
    }
  }

  lemma {:induction false} FittingWithKey(text: Bytes, cs: seq<Correction>, v: real)
    ensures WithKey(Fitting(text, cs), Position, v) == Fitting(text, WithKey(cs, Position, v))
  {
    hide WithKey, Fitting;
    if cs == [] {
      FittingNone(text, v);
    } else {
      var init, last := cs[..|cs| - 1], cs[|cs| - 1];
      assert cs == init + [last];
      FittingWithKey(text, init, v);
      WithKeySnoc(init, last, Position, v);
      WithKeySnoc(Fitting(text, init), last, Position, v);
      FittingSnoc(text, init, last);
      FittingSnoc(text, WithKey(init, Position, v), last);
      assert WithKey(init, Position, v) + [] == WithKey(init, Position, v);
      assert Fitting(text, init) + [] == Fitting(text, init);
    }
  }

  lemma FittingNone(text: Bytes, v: real)
    ensures Fitting(text, []) == [] && WithKey([], Position, v) == []
  {
  }

  lemma FittingSnoc(text: Bytes, cs: seq<Correction>, c: Correction)
    ensures Fitting(text, cs + [c]) == Fitting(text, cs) + if Fits(text, c) then [c] else []
  {
    assert (cs + [c])[..|cs|] == cs;
  }

  lemma FittingFromTheBack(text: Bytes, cs: seq<Correction>)
    ensures Fitting(text, FromTheBack(cs)) == FromTheBack(Fitting(text, cs))
  {
    hide Fitting, SortDescending, WithKey, Sorted;
    FittingSorted(text, FromTheBack(cs));
    forall v ensures WithKey(Fitting(text, FromTheBack(cs)), Position, v) == WithKey(Fitting(text, cs), Position, v) {
      FittingWithKey(text, FromTheBack(cs), v);
      FittingWithKey(text, cs, v);
      SortStable(cs, Position, v);
    }
    StableSortUnique(Fitting(text, cs), Fitting(text, FromTheBack(cs)), Position);
  }

  /**
   Of corrections that do not overlap, wherever they lie, exactly those that fit are substituted, all
   at once; the others leave no trace, also one that starts inside the text and ends past it.
   */
  lemma OnlyFittingApplied(text: Bytes, cs: seq<Correction>)
    requires Separate(cs) && forall c :: c in cs ==> c.startByte <= c.endByte
    ensures ApplyInTurn(text, FromTheBack(cs)) == Simultaneous(text, Fitting(text, cs))
  {
    hide ApplyInTurn, Splice, Reverse, BackToFront, Separate, Fitting, SortDescending;
    var sorted := FromTheBack(cs);
    forall c | c in sorted ensures c.startByte <= c.endByte { MembersFromTheBack(cs, c); }
    SortedIsBackToFront(cs);
    OthersSkipped(text, sorted);
    FittingInOrder(text, sorted);
    forall c | c in Fitting(text, sorted) ensures c.startByte <= c.endByte <= |text| && !AtEnd(text, c) {
      FittingMembers(text, sorted, c);
    }
    BackToFrontIsSplice(text, Fitting(text, sorted));
    FittingFromTheBack(text, cs);
  }

  /** What the first of two corrections at one place leaves behind that place. */
  function Behind(text: Bytes, a: Correction): Bytes
    requires a.endByte <= |text|
  {
    a.replacement + text[a.endByte..]
  }

  /**
   Of two corrections that start at the same place the one listed first is applied first, so an
   insertion listed second ends up before it; unless the first one has left nothing to insert before.
   */
  lemma TwoAtOnePlace(text: Bytes, a: Correction, b: Correction)
    requires a.startByte == b.startByte == b.endByte && Fits(text, a)
    ensures ApplyInTurn(text, FromTheBack([a, b]))
         == text[..a.startByte] + (if Behind(text, a) == [] then [] else b.replacement + Behind(text, a))
  {
    assert Sorted([a, b], Position);
    assert [] + [a] == [a] && [a] + [b] == [a, b];
    hide ApplyInTurn, ApplyOne, SortDescending, Behind, Sorted;
    SortOfSorted([a, b], Position);
    NoneApplied(text);
    ApplySnoc(text, [], a);
    ApplySnoc(text, [a], b);
    OneAfterOther(text, a, b);
  }

  lemma OneAfterOther(text: Bytes, a: Correction, b: Correction)
    requires a.startByte == b.startByte == b.endByte && Fits(text, a)
    ensures ApplyOne(ApplyOne(text, a), b)
         == text[..a.startByte] + (if Behind(text, a) == [] then [] else b.replacement + Behind(text, a))
  {
    var head, behind := text[..a.startByte], Behind(text, a);
    assert ApplyOne(text, a) == head + behind;
    InsertedBetween(head, behind, b);
    assert head + [] == head;
    hide ApplyOne, Behind;
  }

  lemma InsertedBetween(head: Bytes, behind: Bytes, b: Correction)
    requires b.startByte == b.endByte == |head|
    ensures ApplyOne(head + behind, b) == if behind == [] then head + behind else head + (b.replacement + behind)
  {
    assert (head + behind)[..|head|] == head && (head + behind)[|head|..] == behind;
  }
}
