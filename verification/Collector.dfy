/**
 The streaming collector of src/code/pipeline.rs: a bounded heap of corrections without
 duplicates.  The heap is a multiset whose minimum, where several are equal, may be any of them.
 */
module Collecting {
  import opened Correcting

  type Key = (nat, nat, Bytes)

  function KeyOf(c: Correction): Key {
    (c.startByte, c.endByte, c.replacement)
  }

  ghost predicate HasKey(kept: multiset<Correction>, key: Key) {
    exists h :: h in kept && KeyOf(h) == key
  }

  ghost predicate AllAtLeast(kept: multiset<Correction>, floor: real) {
    forall h :: h in kept ==> h.confidence >= floor
  }

  /** The key of `c` is kept with no less confidence, or all places are taken by corrections no worse. */
  ghost predicate Served(kept: multiset<Correction>, maxSize: nat, c: Correction) {
    || (exists h :: h in kept && KeyOf(h) == KeyOf(c) && h.confidence >= c.confidence)
    || (|kept| == maxSize && AllAtLeast(kept, c.confidence))
  }

  /** `kept` are the best of everything offered at or above the threshold, up to ties. */
  ghost predicate TopBest(kept: multiset<Correction>, offers: seq<Correction>, maxSize: nat, minConfidence: real) {
    forall c :: c in offers && c.confidence >= minConfidence ==> Served(kept, maxSize, c)
  }

  /** Offer i is the first of its key among those at or above the threshold. */
  ghost predicate IsFirst(offers: seq<Correction>, i: nat, minConfidence: real) {
    && i < |offers| && offers[i].confidence >= minConfidence
    && forall k :: 0 <= k < i && offers[k].confidence >= minConfidence ==> KeyOf(offers[k]) != KeyOf(offers[i])
  }

  /** No offer is better than the first one of its key. */
  ghost predicate FirstsAreBest(offers: seq<Correction>, minConfidence: real) {
    forall i: nat, c :: IsFirst(offers, i, minConfidence) && c in offers && KeyOf(c) == KeyOf(offers[i]) ==>
      c.confidence <= offers[i].confidence
  }

  function Keys(offers: seq<Correction>, minConfidence: real): set<Key> {
    set c | c in offers && c.confidence >= minConfidence :: KeyOf(c)
  }

  /** One entry per key. */
  ghost predicate DistinctKeys(heap: multiset<Correction>) {
    && (forall c :: heap[c] <= 1)
    && forall a, b :: a in heap && b in heap && KeyOf(a) == KeyOf(b) ==> a == b
  }

  ghost predicate IsMinimum(heap: multiset<Correction>, m: Correction) {
    m in heap && AllAtLeast(heap, m.confidence)
  }

  lemma {:induction false} MinimumExists(heap: multiset<Correction>) returns (m: Correction)
    requires heap != multiset{}
    ensures IsMinimum(heap, m)
    decreases |heap|
  {
    var c :| c in heap;
    var rest := heap - multiset{c};
    m := c;
    if rest != multiset{} {
      var r := MinimumExists(rest);
      if r.confidence < c.confidence { m := r; }
    }
    forall h | h in heap ensures h.confidence >= m.confidence {
      if h != c { assert h in rest; }
    }
  }

  function Swapped(kept: multiset<Correction>, m: Correction, c: Correction): multiset<Correction> {
    kept - multiset{m} + multiset{c}
  }

  lemma SwappedMembers(kept: multiset<Correction>, m: Correction, c: Correction, h: Correction)
    requires m in kept
    ensures h in Swapped(kept, m, c) ==> h == c || h in kept
    ensures h == c || (h in kept && h != m) ==> h in Swapped(kept, m, c)
    ensures |Swapped(kept, m, c)| == |kept|
  {
  }

  /** Replacing a minimum by something greater still serves whatever was served. */
  lemma ServedAfterSwap(kept: multiset<Correction>, maxSize: nat, m: Correction, c: Correction, o: Correction)
    requires IsMinimum(kept, m) && c.confidence > m.confidence && |kept| == maxSize
    requires Served(kept, maxSize, o)
    ensures Served(Swapped(kept, m, c), maxSize, o)
  {
    var now := Swapped(kept, m, c);
    SwappedMembers(kept, m, c, m);
    if h :| h in kept && KeyOf(h) == KeyOf(o) && h.confidence >= o.confidence && h != m {
      SwappedMembers(kept, m, c, h);
    } else {
      forall h | h in now ensures h.confidence >= o.confidence {
        SwappedMembers(kept, m, c, h);
      }
    }
  }

  lemma TopBestSwapped(kept: multiset<Correction>, offers: seq<Correction>, maxSize: nat, minConfidence: real,
                       m: Correction, c: Correction)
    requires TopBest(kept, offers, maxSize, minConfidence) && |kept| == maxSize && IsMinimum(kept, m)
    requires c.confidence > m.confidence
    ensures TopBest(Swapped(kept, m, c), offers + [c], maxSize, minConfidence)
  {
    forall o | o in offers + [c] && o.confidence >= minConfidence ensures Served(Swapped(kept, m, c), maxSize, o) {
      if o == c {
        SwappedMembers(kept, m, c, c);
      } else {
        ServedAfterSwap(kept, maxSize, m, c, o);
      }
    }
  }

  lemma TopBestPushed(kept: multiset<Correction>, offers: seq<Correction>, maxSize: nat, minConfidence: real,
                      c: Correction)
    requires TopBest(kept, offers, maxSize, minConfidence) && |kept| < maxSize
    ensures TopBest(kept + multiset{c}, offers + [c], maxSize, minConfidence)
  {
    forall o | o in offers + [c] && o.confidence >= minConfidence ensures Served(kept + multiset{c}, maxSize, o) {
      assert c in kept + multiset{c};
      if o != c {
        assert Served(kept, maxSize, o);
        var h :| h in kept && KeyOf(h) == KeyOf(o) && h.confidence >= o.confidence;
        assert h in kept + multiset{c};
      }
    }
  }

  /** An offer that changes nothing is no loss exactly when it was served, or is below the threshold. */
  lemma TopBestUnchanged(kept: multiset<Correction>, offers: seq<Correction>, maxSize: nat, minConfidence: real,
                         c: Correction)
    requires TopBest(kept, offers, maxSize, minConfidence)
    ensures TopBest(kept, offers + [c], maxSize, minConfidence)
       <==> c.confidence < minConfidence || Served(kept, maxSize, c)
  {
    assert c in offers + [c];
    assert forall o :: o in offers + [c] <==> o in offers || o == c;
  }

  /** A kept entry of the key of `c` that has less confidence, for which `c` is passed over. */
  ghost predicate Outdone(kept: multiset<Correction>, c: Correction) {
    exists h :: h in kept && KeyOf(h) == KeyOf(c) && h.confidence < c.confidence
  }

  lemma ServedUnlessOutdone(kept: multiset<Correction>, maxSize: nat, c: Correction)
    requires DistinctKeys(kept) && HasKey(kept, KeyOf(c))
    ensures Served(kept, maxSize, c) <==> !Outdone(kept, c)
  {
  }

  /** The invariant of the collector's fields. */
  ghost predicate HeapInv(heap: multiset<Correction>, seen: set<Key>, offers: seq<Correction>,
                          maxSize: nat, minConfidence: real)
  {
    && |heap| == |seen| <= maxSize && DistinctKeys(heap)
    && (forall key :: key in seen <==> HasKey(heap, key))
    && (forall h :: h in heap ==> h in offers && h.confidence >= minConfidence)
  }

  lemma PushKeepsInv(heap: multiset<Correction>, seen: set<Key>, offers: seq<Correction>,
                     maxSize: nat, minConfidence: real, c: Correction)
    requires HeapInv(heap, seen, offers, maxSize, minConfidence) && |heap| < maxSize
    requires KeyOf(c) !in seen && c.confidence >= minConfidence && c in offers
    ensures HeapInv(heap + multiset{c}, seen + {KeyOf(c)}, offers, maxSize, minConfidence)
  {
    var now := heap + multiset{c};
    assert c !in heap;
    assert forall h :: h in now <==> h in heap || h == c;
    forall a, b | a in now && b in now && KeyOf(a) == KeyOf(b) ensures a == b {
      assert a in heap ==> HasKey(heap, KeyOf(a));
      assert b in heap ==> HasKey(heap, KeyOf(b));
    }
  }

  lemma RemoveKeepsInv(heap: multiset<Correction>, seen: set<Key>, offers: seq<Correction>,
                       maxSize: nat, minConfidence: real, m: Correction)
    requires HeapInv(heap, seen, offers, maxSize, minConfidence) && m in heap
    ensures HeapInv(heap - multiset{m}, seen - {KeyOf(m)}, offers, maxSize, minConfidence)
    ensures |heap - multiset{m}| == |heap| - 1
  {
    var now := heap - multiset{m};
    assert heap[m] == 1 && m !in now;
    assert KeyOf(m) in seen;
    forall key ensures key in seen - {KeyOf(m)} <==> HasKey(now, key) {
      if key in seen - {KeyOf(m)} {
        var h :| h in heap && KeyOf(h) == key;
        assert h in now;
      }
    }
  }

  lemma InvFacts(heap: multiset<Correction>, seen: set<Key>, offers: seq<Correction>, maxSize: nat, minConfidence: real)
    requires HeapInv(heap, seen, offers, maxSize, minConfidence)
    ensures |heap| == |seen| <= maxSize && DistinctKeys(heap) && forall key :: key in seen <==> HasKey(heap, key)
  {
  }

  lemma OfferKeepsInv(heap: multiset<Correction>, seen: set<Key>, offers: seq<Correction>,
                      maxSize: nat, minConfidence: real, c: Correction)
    requires HeapInv(heap, seen, offers, maxSize, minConfidence)
    ensures HeapInv(heap, seen, offers + [c], maxSize, minConfidence)
  {
  }

  /** While there is a place for every key, every key is kept, by its first offer. */
  ghost predicate RoomInv(heap: multiset<Correction>, seen: set<Key>, offers: seq<Correction>,
                          maxSize: nat, minConfidence: real)
  {
    |Keys(offers, minConfidence)| <= maxSize ==>
      && seen == Keys(offers, minConfidence)
      && forall i: nat :: IsFirst(offers, i, minConfidence) ==> offers[i] in heap
  }

  lemma KeysSnoc(offers: seq<Correction>, minConfidence: real, c: Correction)
    ensures Keys(offers + [c], minConfidence)
         == Keys(offers, minConfidence) + if c.confidence >= minConfidence then {KeyOf(c)} else {}
    ensures |Keys(offers, minConfidence)| <= |Keys(offers + [c], minConfidence)|
  {
    assert forall o :: o in offers + [c] <==> o in offers || o == c;
    assert Keys(offers + [c], minConfidence)
        == Keys(offers, minConfidence) + if c.confidence >= minConfidence then {KeyOf(c)} else {};
    if c.confidence >= minConfidence && KeyOf(c) !in Keys(offers, minConfidence) {
      assert |Keys(offers, minConfidence) + {KeyOf(c)}| == |Keys(offers, minConfidence)| + 1;
    } else {
      assert Keys(offers + [c], minConfidence) == Keys(offers, minConfidence);
    }
  }

  /** Which offers are first is settled when they come. */
  lemma FirstSnoc(offers: seq<Correction>, i: nat, minConfidence: real, c: Correction)
    ensures i < |offers| ==> (IsFirst(offers + [c], i, minConfidence) <==> IsFirst(offers, i, minConfidence))
    ensures IsFirst(offers + [c], |offers|, minConfidence)
       <==> c.confidence >= minConfidence && KeyOf(c) !in Keys(offers, minConfidence)
  {
    var more := offers + [c];
    assert forall k :: 0 <= k < |offers| ==> more[k] == offers[k];
    if KeyOf(c) in Keys(offers, minConfidence) {
      var k :| 0 <= k < |offers| && offers[k].confidence >= minConfidence && KeyOf(offers[k]) == KeyOf(c);
      assert more[k] == offers[k];
    }
  }

  /** An offer of a key already seen, or below the threshold, is no first and takes no room. */
  lemma RoomUnchanged(heap: multiset<Correction>, seen: set<Key>, offers: seq<Correction>,
                      maxSize: nat, minConfidence: real, c: Correction)
    requires RoomInv(heap, seen, offers, maxSize, minConfidence)
    requires c.confidence >= minConfidence ==> KeyOf(c) in seen
    ensures RoomInv(heap, seen, offers + [c], maxSize, minConfidence)
  {
    KeysSnoc(offers, minConfidence, c);
    forall i: nat | IsFirst(offers + [c], i, minConfidence) && |Keys(offers + [c], minConfidence)| <= maxSize
      ensures (offers + [c])[i] in heap
    {
      FirstSnoc(offers, i, minConfidence, c);
    }
  }

  lemma RoomPushed(heap: multiset<Correction>, seen: set<Key>, offers: seq<Correction>,
                   maxSize: nat, minConfidence: real, c: Correction)
    requires RoomInv(heap, seen, offers, maxSize, minConfidence) && c.confidence >= minConfidence
    ensures RoomInv(heap + multiset{c}, seen + {KeyOf(c)}, offers + [c], maxSize, minConfidence)
  {
    KeysSnoc(offers, minConfidence, c);
    forall i: nat | IsFirst(offers + [c], i, minConfidence) && |Keys(offers + [c], minConfidence)| <= maxSize
      ensures (offers + [c])[i] in heap + multiset{c}
    {
      FirstSnoc(offers, i, minConfidence, c);
    }
  }

  /** A new key for which there is no place means that there is not a place for every key. */
  lemma NoRoomLeft(heap: multiset<Correction>, seen: set<Key>, offers: seq<Correction>,
                   maxSize: nat, minConfidence: real, c: Correction)
    requires RoomInv(heap, seen, offers, maxSize, minConfidence) && |seen| == maxSize
    requires c.confidence >= minConfidence && KeyOf(c) !in seen
    ensures forall now, keys :: RoomInv(now, keys, offers + [c], maxSize, minConfidence)
  {
    KeysSnoc(offers, minConfidence, c);
    if |Keys(offers, minConfidence)| <= maxSize {
      assert |seen + {KeyOf(c)}| == |seen| + 1;
    }
  }

  /** If no offer has been better than its key's first, the kept ones are the best. */
  ghost predicate BestInv(heap: multiset<Correction>, offers: seq<Correction>, maxSize: nat, minConfidence: real) {
    FirstsAreBest(offers, minConfidence) ==> TopBest(heap, offers, maxSize, minConfidence)
  }

  lemma FirstsBefore(offers: seq<Correction>, minConfidence: real, c: Correction)
    requires FirstsAreBest(offers + [c], minConfidence)
    ensures FirstsAreBest(offers, minConfidence)
  {
    forall i: nat, o | IsFirst(offers, i, minConfidence) && o in offers && KeyOf(o) == KeyOf(offers[i])
      ensures o.confidence <= offers[i].confidence
    {
      FirstSnoc(offers, i, minConfidence, c);
      assert o in offers + [c] && (offers + [c])[i] == offers[i];
    }
  }

  lemma {:induction false} FirstExists(offers: seq<Correction>, j: nat, minConfidence: real) returns (i: nat)
    requires j < |offers| && offers[j].confidence >= minConfidence
    ensures i <= j && IsFirst(offers, i, minConfidence) && KeyOf(offers[i]) == KeyOf(offers[j])
  {
    if IsFirst(offers, j, minConfidence) {
      i := j;
    } else {
      var k :| 0 <= k < j && offers[k].confidence >= minConfidence && KeyOf(offers[k]) == KeyOf(offers[j]);
      i := FirstExists(offers, k, minConfidence);
    }
  }

  /** An offer no better than the first of its key is served as that one is. */
  lemma RepeatServed(heap: multiset<Correction>, offers: seq<Correction>, maxSize: nat, minConfidence: real,
                     c: Correction, h: Correction)
    requires FirstsAreBest(offers + [c], minConfidence) && TopBest(heap, offers, maxSize, minConfidence)
    requires h in offers && h.confidence >= minConfidence && KeyOf(h) == KeyOf(c)
    ensures Served(heap, maxSize, c)
  {
    var j :| 0 <= j < |offers| && offers[j] == h;
    var i := FirstExists(offers, j, minConfidence);
    FirstSnoc(offers, i, minConfidence, c);
    assert c in offers + [c] && (offers + [c])[i] == offers[i];
    assert Served(heap, maxSize, offers[i]);
  }

  /** What one offer does to keeping the best. */
  ghost predicate BestStep(heap: multiset<Correction>, offers: seq<Correction>, maxSize: nat, minConfidence: real,
                           c: Correction, now: multiset<Correction>)
  {
    && BestInv(now, offers + [c], maxSize, minConfidence)
    && (TopBest(heap, offers, maxSize, minConfidence) ==>
          (TopBest(now, offers + [c], maxSize, minConfidence) <==> c.confidence < minConfidence || !Outdone(heap, c)))
  }

  lemma PassedOver(heap: multiset<Correction>, seen: set<Key>, offers: seq<Correction>,
                   maxSize: nat, minConfidence: real, c: Correction)
    requires HeapInv(heap, seen, offers, maxSize, minConfidence) && BestInv(heap, offers, maxSize, minConfidence)
    requires c.confidence < minConfidence || HasKey(heap, KeyOf(c))
             || (|heap| == maxSize && AllAtLeast(heap, c.confidence))
    ensures BestStep(heap, offers, maxSize, minConfidence, c, heap)
  {
    if TopBest(heap, offers, maxSize, minConfidence) {
      TopBestUnchanged(heap, offers, maxSize, minConfidence, c);
      if HasKey(heap, KeyOf(c)) { ServedUnlessOutdone(heap, maxSize, c); }
    }
    if FirstsAreBest(offers + [c], minConfidence) {
      FirstsBefore(offers, minConfidence, c);
      if c.confidence >= minConfidence && HasKey(heap, KeyOf(c)) {
        var h :| h in heap && KeyOf(h) == KeyOf(c);
        RepeatServed(heap, offers, maxSize, minConfidence, c, h);
      }
    }
  }

  lemma TakenIn(heap: multiset<Correction>, offers: seq<Correction>, maxSize: nat, minConfidence: real,
                c: Correction, now: multiset<Correction>)
    requires BestInv(heap, offers, maxSize, minConfidence) && !HasKey(heap, KeyOf(c))
    requires TopBest(heap, offers, maxSize, minConfidence) ==> TopBest(now, offers + [c], maxSize, minConfidence)
    ensures BestStep(heap, offers, maxSize, minConfidence, c, now)
  {
    if FirstsAreBest(offers + [c], minConfidence) {
      FirstsBefore(offers, minConfidence, c);
    }
  }

  /**
   When the kept corrections are the best: whatever the size, if no offer is better than the
   first of its key; and if there is a place for every key, only then.
   */
  lemma BestExactly(heap: multiset<Correction>, seen: set<Key>, offers: seq<Correction>,
                    maxSize: nat, minConfidence: real)
    requires HeapInv(heap, seen, offers, maxSize, minConfidence)
    requires RoomInv(heap, seen, offers, maxSize, minConfidence) && BestInv(heap, offers, maxSize, minConfidence)
    ensures FirstsAreBest(offers, minConfidence) ==> TopBest(heap, offers, maxSize, minConfidence)
    ensures |Keys(offers, minConfidence)| <= maxSize ==>
              (TopBest(heap, offers, maxSize, minConfidence) <==> FirstsAreBest(offers, minConfidence))
  {
    if |Keys(offers, minConfidence)| <= maxSize && TopBest(heap, offers, maxSize, minConfidence) {
      forall i: nat, c | IsFirst(offers, i, minConfidence) && c in offers && KeyOf(c) == KeyOf(offers[i])
        ensures c.confidence <= offers[i].confidence
      {
        assert offers[i] in heap;
        assert c.confidence >= minConfidence ==> Served(heap, maxSize, c);
      }
    }
  }

  /** It is enough that equal keys agree, or that repeats never rise. */
  lemma FallingRepeats(offers: seq<Correction>, minConfidence: real)
    requires forall i, j :: 0 <= i < j < |offers| && KeyOf(offers[i]) == KeyOf(offers[j]) ==>
               offers[j].confidence <= offers[i].confidence || offers[i].confidence < minConfidence
    ensures FirstsAreBest(offers, minConfidence)
  {
    forall i: nat, c | IsFirst(offers, i, minConfidence) && c in offers && KeyOf(c) == KeyOf(offers[i])
      ensures c.confidence <= offers[i].confidence
    {
      var j :| 0 <= j < |offers| && offers[j] == c;
      assert j < i ==> c.confidence < minConfidence;
    }
  }

  lemma FloorLowered(heap: multiset<Correction>, high: real, low: real)
    requires AllAtLeast(heap, high) && low <= high
    ensures AllAtLeast(heap, low)
  {
  }

  lemma SwapKeepsFloor(heap: multiset<Correction>, m: Correction, c: Correction)
    requires IsMinimum(heap, m) && c.confidence > m.confidence
    ensures forall floor :: AllAtLeast(heap, floor) ==> AllAtLeast(Swapped(heap, m, c), floor)
    ensures |Swapped(heap, m, c)| == |heap|
  {
    forall floor | AllAtLeast(heap, floor) ensures AllAtLeast(Swapped(heap, m, c), floor) {
      forall h | h in Swapped(heap, m, c) ensures h.confidence >= floor {
        SwappedMembers(heap, m, c, h);
      }
    }
  }

  lemma SwapKeepsInv(heap: multiset<Correction>, seen: set<Key>, offers: seq<Correction>,
                     maxSize: nat, minConfidence: real, m: Correction, c: Correction)
    requires HeapInv(heap, seen, offers, maxSize, minConfidence) && m in heap
    requires KeyOf(c) !in seen && c.confidence >= minConfidence && c in offers
    ensures HeapInv(Swapped(heap, m, c), seen - {KeyOf(m)} + {KeyOf(c)}, offers, maxSize, minConfidence)
  {
    RemoveKeepsInv(heap, seen, offers, maxSize, minConfidence, m);
    PushKeepsInv(heap - multiset{m}, seen - {KeyOf(m)}, offers, maxSize, minConfidence, c);
  }

  /** All that the collector maintains. */
  ghost predicate CollectorInv(heap: multiset<Correction>, seen: set<Key>, offers: seq<Correction>,
                               maxSize: nat, minConfidence: real)
  {
    && HeapInv(heap, seen, offers, maxSize, minConfidence)
    && RoomInv(heap, seen, offers, maxSize, minConfidence)
    && BestInv(heap, offers, maxSize, minConfidence)
  }

  /**
   What an offer does to the heap: it is taken exactly when it reaches the threshold, its key is
   not kept, and there is room or something worse, in which case a minimum makes way.
   */
  ghost predicate Offered(heap: multiset<Correction>, maxSize: nat, minConfidence: real, c: Correction,
                          added: bool, now: multiset<Correction>)
  {
    && (added <==> c.confidence >= minConfidence && !HasKey(heap, KeyOf(c))
                   && (|heap| < maxSize || !AllAtLeast(heap, c.confidence)))
    && (!added ==> now == heap)
    && (added && |heap| < maxSize ==> now == heap + multiset{c})
    && (added && |heap| >= maxSize ==>
          exists m :: IsMinimum(heap, m) && m.confidence < c.confidence && now == Swapped(heap, m, c))
  }

  /** When an offer is taken, field by field: what is kept already is the same range with the same replacement. */
  ghost predicate Accepted(heap: multiset<Correction>, maxSize: nat, minConfidence: real, c: Correction) {
    && c.confidence >= minConfidence
    && (forall h :: h in heap ==>
          !(h.startByte == c.startByte && h.endByte == c.endByte && h.replacement == c.replacement))
    && (|heap| < maxSize || exists h :: h in heap && h.confidence < c.confidence)
  }

  /** No two kept corrections agree in range and replacement. */
  ghost predicate EditsDiffer(heap: multiset<Correction>) {
    && (forall h :: heap[h] <= 1)
    && forall a, b :: a in heap && b in heap && a != b ==>
         a.startByte != b.startByte || a.endByte != b.endByte || a.replacement != b.replacement
  }

  lemma AcceptedIs(heap: multiset<Correction>, maxSize: nat, minConfidence: real, c: Correction)
    ensures Accepted(heap, maxSize, minConfidence, c)
       <==> c.confidence >= minConfidence && !HasKey(heap, KeyOf(c))
            && (|heap| < maxSize || !AllAtLeast(heap, c.confidence))
  {
  }

  lemma EditsDifferIs(heap: multiset<Correction>, seen: set<Key>, offers: seq<Correction>,
                      maxSize: nat, minConfidence: real)
    requires CollectorInv(heap, seen, offers, maxSize, minConfidence)
    ensures EditsDiffer(heap)
  {
    InvFacts(heap, seen, offers, maxSize, minConfidence);
  }

  /** A full heap stays full, and its least confidence never falls. */
  lemma FloorNeverFalls(heap: multiset<Correction>, maxSize: nat, minConfidence: real, c: Correction,
                        added: bool, now: multiset<Correction>)
    requires Offered(heap, maxSize, minConfidence, c, added, now) && |heap| == maxSize
    ensures |now| == maxSize && forall floor :: AllAtLeast(heap, floor) ==> AllAtLeast(now, floor)
  {
    if added {
      var m :| IsMinimum(heap, m) && m.confidence < c.confidence && now == Swapped(heap, m, c);
      SwapKeepsFloor(heap, m, c);
    }
  }

  lemma Passing(heap: multiset<Correction>, seen: set<Key>, offers: seq<Correction>,
                maxSize: nat, minConfidence: real, c: Correction)
    requires CollectorInv(heap, seen, offers, maxSize, minConfidence)
    requires c.confidence < minConfidence || KeyOf(c) in seen || (|heap| == maxSize && AllAtLeast(heap, c.confidence))
    ensures CollectorInv(heap, seen, offers + [c], maxSize, minConfidence)
    ensures Offered(heap, maxSize, minConfidence, c, false, heap)
    ensures BestStep(heap, offers, maxSize, minConfidence, c, heap)
    ensures !Accepted(heap, maxSize, minConfidence, c) && EditsDiffer(heap)
  {
    AcceptedIs(heap, maxSize, minConfidence, c);
    EditsDifferIs(heap, seen, offers, maxSize, minConfidence);
    hide Accepted, EditsDiffer;
    InvFacts(heap, seen, offers, maxSize, minConfidence);
    OfferKeepsInv(heap, seen, offers, maxSize, minConfidence, c);
    PassedOver(heap, seen, offers, maxSize, minConfidence, c);
    if c.confidence >= minConfidence && KeyOf(c) !in seen {
      NoRoomLeft(heap, seen, offers, maxSize, minConfidence, c);
    } else {
      RoomUnchanged(heap, seen, offers, maxSize, minConfidence, c);
    }
    hide HeapInv, BestInv, TopBest, Keys, Outdone, IsFirst;
  }

  lemma Pushing(heap: multiset<Correction>, seen: set<Key>, offers: seq<Correction>,
                maxSize: nat, minConfidence: real, c: Correction)
    requires CollectorInv(heap, seen, offers, maxSize, minConfidence)
    requires c.confidence >= minConfidence && KeyOf(c) !in seen && |heap| < maxSize
    ensures CollectorInv(heap + multiset{c}, seen + {KeyOf(c)}, offers + [c], maxSize, minConfidence)
    ensures Offered(heap, maxSize, minConfidence, c, true, heap + multiset{c})
    ensures BestStep(heap, offers, maxSize, minConfidence, c, heap + multiset{c})
    ensures Accepted(heap, maxSize, minConfidence, c) && EditsDiffer(heap + multiset{c})
  {
    AcceptedIs(heap, maxSize, minConfidence, c);
    hide Accepted, EditsDiffer;
    InvFacts(heap, seen, offers, maxSize, minConfidence);
    OfferKeepsInv(heap, seen, offers, maxSize, minConfidence, c);
    assert c in offers + [c];
    PushKeepsInv(heap, seen, offers + [c], maxSize, minConfidence, c);
    RoomPushed(heap, seen, offers, maxSize, minConfidence, c);
    if TopBest(heap, offers, maxSize, minConfidence) {
      TopBestPushed(heap, offers, maxSize, minConfidence, c);
    }
    TakenIn(heap, offers, maxSize, minConfidence, c, heap + multiset{c});
    EditsDifferIs(heap + multiset{c}, seen + {KeyOf(c)}, offers + [c], maxSize, minConfidence);
    hide HeapInv, RoomInv, BestInv, TopBest, Keys, Outdone;
  }

  lemma Exchanging(heap: multiset<Correction>, seen: set<Key>, offers: seq<Correction>,
                   maxSize: nat, minConfidence: real, m: Correction, c: Correction)
    requires CollectorInv(heap, seen, offers, maxSize, minConfidence)
    requires c.confidence >= minConfidence && KeyOf(c) !in seen && |heap| == maxSize
    requires IsMinimum(heap, m) && c.confidence > m.confidence
    ensures CollectorInv(Swapped(heap, m, c), seen - {KeyOf(m)} + {KeyOf(c)}, offers + [c], maxSize, minConfidence)
    ensures Offered(heap, maxSize, minConfidence, c, true, Swapped(heap, m, c))
    ensures BestStep(heap, offers, maxSize, minConfidence, c, Swapped(heap, m, c))
    ensures Accepted(heap, maxSize, minConfidence, c) && EditsDiffer(Swapped(heap, m, c))
  {
    AcceptedIs(heap, maxSize, minConfidence, c);
    hide HeapInv, RoomInv, BestInv, TopBest, Outdone, Swapped, BestStep, HasKey, Accepted, EditsDiffer;
    InvFacts(heap, seen, offers, maxSize, minConfidence);
    OfferKeepsInv(heap, seen, offers, maxSize, minConfidence, c);
    assert c in offers + [c] && m in heap && !AllAtLeast(heap, c.confidence);
    SwapKeepsInv(heap, seen, offers + [c], maxSize, minConfidence, m, c);
    NoRoomLeft(heap, seen, offers, maxSize, minConfidence, c);
    if TopBest(heap, offers, maxSize, minConfidence) {
      TopBestSwapped(heap, offers, maxSize, minConfidence, m, c);
    }
    TakenIn(heap, offers, maxSize, minConfidence, c, Swapped(heap, m, c));
    EditsDifferIs(Swapped(heap, m, c), seen - {KeyOf(m)} + {KeyOf(c)}, offers + [c], maxSize, minConfidence);
  }

  lemma NothingOffered(maxSize: nat, minConfidence: real)
    ensures CollectorInv(multiset{}, {}, [], maxSize, minConfidence)
    ensures TopBest(multiset{}, [], maxSize, minConfidence)
  {
    assert forall i: nat :: !IsFirst([], i, minConfidence);
  }

  class StreamingCorrectionCollector {
    var heap: multiset<Correction>
    var seen: set<Key>
    const maxSize: nat
    const minConfidence: real
    /** Everything offered so far, in order. */
    ghost var offers: seq<Correction>

    ghost predicate Valid()
      reads this
    {
      CollectorInv(heap, seen, offers, maxSize, minConfidence)
    }

    ghost predicate KeepsTheBest()
      reads this
    {
      TopBest(heap, offers, maxSize, minConfidence)
    }

    constructor (maxSize: nat, minConfidence: real)
      ensures Valid() && KeepsTheBest() && heap == multiset{} && offers == []
      ensures this.maxSize == maxSize && this.minConfidence == minConfidence
    {
      this.maxSize, this.minConfidence := maxSize, minConfidence;
      heap, seen, offers := multiset{}, {}, [];
      NothingOffered(maxSize, minConfidence);
    }

    /**
     Keeping the best is lost by exactly those calls that offer a kept key again, with more
     confidence than it is kept with.
     */
    method Add(correction: Correction) returns (added: bool)
      requires Valid()
      modifies this
      ensures Valid() && offers == old(offers) + [correction]
      ensures added <==> Accepted(old(heap), maxSize, minConfidence, correction)
      ensures EditsDiffer(heap)
      ensures Offered(old(heap), maxSize, minConfidence, correction, added, heap)
      ensures !added ==> seen == old(seen)
      ensures |old(heap)| == maxSize ==>
                |heap| == maxSize && forall floor :: AllAtLeast(old(heap), floor) ==> AllAtLeast(heap, floor)
      ensures old(KeepsTheBest()) ==>
                (KeepsTheBest() <==> correction.confidence < minConfidence || !Outdone(old(heap), correction))
    {
      InvFacts(heap, seen, offers, maxSize, minConfidence);
      hide HeapInv, RoomInv, BestInv, CollectorInv, TopBest, Outdone, HasKey, Offered, Accepted, EditsDiffer;
      ghost var before := offers;
      offers := offers + [correction];
      if correction.confidence < minConfidence {
        Passing(heap, seen, before, maxSize, minConfidence, correction);
        return false;
      }
      var key := KeyOf(correction);
      if key in seen {
        Passing(heap, seen, before, maxSize, minConfidence, correction);
        return false;
      }
      if |heap| < maxSize {
        Pushing(heap, seen, before, maxSize, minConfidence, correction);
        seen := seen + {key};
        heap := heap + multiset{correction};
        return true;
      }
      if heap != multiset{} {
        var m := Peek();
        if correction.confidence > m.confidence {
          Exchanging(heap, seen, before, maxSize, minConfidence, m, correction);
          FloorNeverFalls(heap, maxSize, minConfidence, correction, true, Swapped(heap, m, correction));
          heap := heap - multiset{m};
          seen := seen - {KeyOf(m)};
          seen := seen + {key};
          heap := heap + multiset{correction};
          return true;
        }
        FloorLowered(heap, m.confidence, correction.confidence);
      }
      Passing(heap, seen, before, maxSize, minConfidence, correction);
      return false;
    }

    /** The heap's minimum; which one, where several are equal, is the heap's choice. */
    method Peek() returns (m: Correction)
      requires heap != multiset{}
      ensures IsMinimum(heap, m)
    {
      ghost var w := MinimumExists(heap);
      assert exists c :: c in heap && forall h :: h in heap ==> c.confidence <= h.confidence;
      m :| m in heap && forall h :: h in heap ==> m.confidence <= h.confidence;
    }

    method AddAll(corrections: seq<Correction>)
      requires Valid()
      modifies this
      ensures Valid() && offers == old(offers) + corrections
      ensures FirstsAreBest(offers, minConfidence) ==> KeepsTheBest()
      ensures |Keys(offers, minConfidence)| <= maxSize ==> (KeepsTheBest() <==> FirstsAreBest(offers, minConfidence))
    {
      hide CollectorInv, Outdone, TopBest, HasKey, AllAtLeast, Swapped;
      for i := 0 to |corrections|
        invariant Valid() && offers == old(offers) + corrections[..i]
      {
        var _ := Add(corrections[i]);
        assert corrections[..i + 1] == corrections[..i] + [corrections[i]];
      }
      assert corrections[..|corrections|] == corrections;
      KeepsTheBestExactly();
    }

    /**
     After any stream the collector keeps the best if no offer is better than the first of its
     key, whatever the size; and if there is a place for every key, only then.
     */
    lemma KeepsTheBestExactly()
      requires Valid()
      ensures FirstsAreBest(offers, minConfidence) ==> KeepsTheBest()
      ensures |Keys(offers, minConfidence)| <= maxSize ==> (KeepsTheBest() <==> FirstsAreBest(offers, minConfidence))
    {
      BestExactly(heap, seen, offers, maxSize, minConfidence);
    }

    /** What was kept, all of it, in descending order of confidence. */
    method Finalize() returns (candidates: CorrectionCandidates)
      requires Valid()
      ensures fresh(candidates) && candidates.Valid() && candidates.maxCandidates == maxSize
      ensures multiset(candidates.corrections) == heap && Sorted(candidates.corrections, Confidence)
      ensures Ranked(candidates.corrections)
    {
      var corrections := InAnyOrder();
      corrections := SortDescending(corrections, Confidence);
      RankedIs(corrections);
      candidates := new CorrectionCandidates(maxSize);
      candidates.AddAll(corrections);
      assert candidates.added == corrections;
      SortOfSorted(corrections, Confidence);
      assert |multiset(corrections)| == |corrections|;
    }

    method InAnyOrder() returns (list: seq<Correction>)
      ensures multiset(list) == heap
    {
      list := [];
      var todo := heap;
      while todo != multiset{}
        invariant multiset(list) + todo == heap
        decreases |todo|
      {
        var c :| c in todo;
        list := list + [c];
        todo := todo - multiset{c};
      }
    }
  }

  /**
   The best can be lost: an edit offered again with more confidence is passed over, and the entry
   that stood in its way goes in favour of something worse.
   */
  method BetterDuplicateIgnored() returns (collector: StreamingCorrectionCollector)
    ensures collector.Valid() && collector.maxSize == 1 && !collector.KeepsTheBest()
    ensures exists best, kept :: best in collector.offers && collector.heap == multiset{kept}
              && best.confidence >= collector.minConfidence
              && KeyOf(best) != KeyOf(kept) && best.confidence > kept.confidence
  {
    var low := Correction(0, 1, [97], [98], 0.5);
    var best := low.(confidence := 0.9);
    var other := Correction(2, 3, [97], [98], 0.6);
    collector := new StreamingCorrectionCollector(1, 0.0);
    hide CollectorInv, TopBest, Outdone, Offered, IsMinimum, Swapped;
    var a := collector.Add(low);
    FirstTaken(low, a, collector.heap);
    var b := collector.Add(best);
    KeyKept(low, best, b, collector.heap);
    var c := collector.Add(other);
    MinimumGone(low, other, c, collector.heap);
    BestGone(best, other, collector.offers);
  }

  lemma FirstTaken(c: Correction, added: bool, now: multiset<Correction>)
    requires Offered(multiset{}, 1, 0.0, c, added, now) && c.confidence >= 0.0
    ensures now == multiset{c}
  {
  }

  lemma KeyKept(kept: Correction, c: Correction, added: bool, now: multiset<Correction>)
    requires Offered(multiset{kept}, 1, 0.0, c, added, now) && KeyOf(kept) == KeyOf(c)
    ensures now == multiset{kept}
  {
    assert kept in multiset{kept};
  }

  lemma MinimumGone(kept: Correction, c: Correction, added: bool, now: multiset<Correction>)
    requires Offered(multiset{kept}, 1, 0.0, c, added, now)
    requires KeyOf(kept) != KeyOf(c) && c.confidence > kept.confidence >= 0.0
    ensures now == multiset{c}
  {
    assert kept in multiset{kept} && |multiset{kept}| == 1;
    var m :| IsMinimum(multiset{kept}, m) && m.confidence < c.confidence && now == Swapped(multiset{kept}, m, c);
    assert m == kept;
  }

  lemma BestGone(best: Correction, other: Correction, offers: seq<Correction>)
    requires best in offers && best.confidence >= 0.0
    requires KeyOf(best) != KeyOf(other) && best.confidence > other.confidence
    ensures !TopBest(multiset{other}, offers, 1, 0.0)
  {
    assert other in multiset{other} && !Served(multiset{other}, 1, best);
  }
}
