/**
 The trainer of src/embedding/bpe.rs: learning merges from word frequencies, and what
 the tokenizer it builds is good for.  Ties between equally frequent pairs and the order
 in which hash maps and sets are visited are left open.
 */
module BpeTraining {
  import opened Wrappers
  import opened BpeMerges
  import opened BpeTrained
  import opened BpeStratified
  import opened BpeTokenizing

  type Pair = (string, string)
  type Splits = map<string, seq<string>>

  /** How often the pair stands in the symbols. */
  function Occurrences(pr: Pair, s: seq<string>): nat {
    if |s| < 2 then 0
    else
      var n := |s| - 1;
      Occurrences(pr, s[..n]) + if (s[n - 1], s[n]) == pr then 1 else 0
  }

  /** The same count with each occurrence weighing `freq`. */
  function Weighted(pr: Pair, s: seq<string>, freq: nat): nat {
    if |s| < 2 then 0
    else
      var n := |s| - 1;
      Weighted(pr, s[..n], freq) + if (s[n - 1], s[n]) == pr then freq else 0
  }

  predicate StandsAt(pr: Pair, s: seq<string>, i: nat) {
    i + 1 < |s| && s[i] == pr.0 && s[i + 1] == pr.1
  }

  /** Where the pair stands; occurrences may overlap. */
  function Places(pr: Pair, s: seq<string>): set<nat> {
    set i: nat | i < |s| && StandsAt(pr, s, i)
  }

  /** Every place counts, overlapping or not, with the word's frequency. */
  lemma {:induction false} WeightedPlaces(pr: Pair, s: seq<string>, freq: nat)
    ensures Occurrences(pr, s) == |Places(pr, s)|
    ensures Weighted(pr, s, freq) == freq * |Places(pr, s)|
  {
    if |s| < 2 {
      assert Places(pr, s) == {};
    } else {
      var n := |s| - 1;
      WeightedPlaces(pr, s[..n], freq);
      PlacesSnoc(pr, s);
      hide Places;
      assert freq * (|Places(pr, s[..n])| + 1) == freq * |Places(pr, s[..n])| + freq;
    }
  }

  lemma PlacesSnoc(pr: Pair, s: seq<string>)
    requires |s| >= 2
    ensures var n := |s| - 1;
            |Places(pr, s)| == |Places(pr, s[..n])| + if (s[n - 1], s[n]) == pr then 1 else 0
  {
    var n := |s| - 1;
    var last: set<nat> := if (s[n - 1], s[n]) == pr then {n - 1} else {};
    forall i: nat ensures i in Places(pr, s) <==> i in Places(pr, s[..n]) + last {
      assert i + 1 < n ==> (StandsAt(pr, s, i) <==> StandsAt(pr, s[..n], i));
    }
    assert n - 1 !in Places(pr, s[..n]);
    assert Places(pr, s) == Places(pr, s[..n]) + last;
  }

  lemma {:induction false} NoneWeighsNothing(pr: Pair, s: seq<string>, freq: nat)
    requires Occurrences(pr, s) == 0
    ensures Weighted(pr, s, freq) == 0
  {
    if |s| >= 2 { NoneWeighsNothing(pr, s[..|s| - 1], freq); }
  }

  lemma {:induction false} OccurrenceAt(pr: Pair, s: seq<string>) returns (i: nat)
    requires Occurrences(pr, s) > 0
    ensures i + 1 < |s| && (s[i], s[i + 1]) == pr
  {
    var n := |s| - 1;
    if (s[n - 1], s[n]) == pr { i := n - 1; } else { i := OccurrenceAt(pr, s[..n]); }
  }

  lemma OneMoreSymbol(was: seq<string>, now: seq<string>, freq: nat)
    requires |now| == |was| + 1 >= 2 && was == now[..|was|]
    ensures forall pr :: Weighted(pr, now, freq)
                      == Weighted(pr, was, freq) + if pr == (now[|was| - 1], now[|was|]) then freq else 0
    ensures forall pr :: Occurrences(pr, now)
                      == Occurrences(pr, was) + if pr == (now[|was| - 1], now[|was|]) then 1 else 0
  {
  }

  /** A word without a count counts for nothing. */
  function CountOf(freqs: map<string, nat>, w: string): (n: nat)
    ensures w !in freqs ==> n == 0
  {
    if w in freqs then freqs[w] else 0
  }

  /** The weighted count of a pair over the words `ws`. */
  ghost function CountOver(splits: Splits, freqs: map<string, nat>, ws: set<string>, pr: Pair): nat
    requires ws <= splits.Keys
  {
    if ws == {} then 0
    else
      var w :| w in ws;
      Weighted(pr, splits[w], CountOf(freqs, w)) + CountOver(splits, freqs, ws - {w}, pr)
  }

  lemma {:induction false} CountTake(splits: Splits, freqs: map<string, nat>, ws: set<string>, pr: Pair, w: string)
    requires ws <= splits.Keys && w in ws
    ensures CountOver(splits, freqs, ws, pr)
         == Weighted(pr, splits[w], CountOf(freqs, w)) + CountOver(splits, freqs, ws - {w}, pr)
    decreases |ws|
  {
    var v :| v in ws && CountOver(splits, freqs, ws, pr)
                        == Weighted(pr, splits[v], CountOf(freqs, v)) + CountOver(splits, freqs, ws - {v}, pr);
    if v != w {
      CountTake(splits, freqs, ws - {v}, pr, w);
      CountTake(splits, freqs, ws - {w}, pr, v);
      assert ws - {v} - {w} == ws - {w} - {v};
    }
  }

  ghost function Frequency(splits: Splits, freqs: map<string, nat>, pr: Pair): nat
  {
    CountOver(splits, freqs, splits.Keys, pr)
  }

  ghost predicate Occurs(splits: Splits, ws: set<string>, pr: Pair)
    requires ws <= splits.Keys
  {
    exists w :: w in ws && Occurrences(pr, splits[w]) > 0
  }

  function Get(counts: map<Pair, nat>, pr: Pair): nat {
    if pr in counts then counts[pr] else 0
  }

  /** The frequency of each pair that occurs, over all words. */
  method CountPairFrequencies(splits: Splits, freqs: map<string, nat>) returns (counts: map<Pair, nat>)
    ensures forall pr :: pr in counts <==> Occurs(splits, splits.Keys, pr)
    ensures forall pr :: pr in counts ==> counts[pr] == Frequency(splits, freqs, pr)
  {
    counts := map[];
    var todo, done: set<string> := splits.Keys, {};
    while todo != {}
      invariant todo + done == splits.Keys && todo !! done
      invariant forall pr :: Get(counts, pr) == CountOver(splits, freqs, done, pr)
      invariant forall pr :: pr in counts <==> Occurs(splits, done, pr)
      decreases |todo|
    {
      var w :| w in todo;
      ghost var before := counts;
      counts := CountInWord(counts, splits[w], CountOf(freqs, w));
      CountedWith(splits, freqs, done, w, before, counts);
      todo, done := todo - {w}, done + {w};
    }
  }

  lemma CountedWith(splits: Splits, freqs: map<string, nat>, done: set<string>, w: string,
                    before: map<Pair, nat>, counts: map<Pair, nat>)
    requires done + {w} <= splits.Keys && w !in done
    requires forall pr :: Get(before, pr) == CountOver(splits, freqs, done, pr)
    requires forall pr :: pr in before <==> Occurs(splits, done, pr)
    requires forall pr :: Get(counts, pr) == Get(before, pr) + Weighted(pr, splits[w], CountOf(freqs, w))
    requires forall pr :: pr in counts <==> pr in before || Occurrences(pr, splits[w]) > 0
    ensures forall pr :: Get(counts, pr) == CountOver(splits, freqs, done + {w}, pr)
    ensures forall pr :: pr in counts <==> Occurs(splits, done + {w}, pr)
  {
    forall pr ensures Get(counts, pr) == CountOver(splits, freqs, done + {w}, pr) {
      CountTake(splits, freqs, done + {w}, pr, w);
      assert done + {w} - {w} == done;
    }
  }

  method CountInWord(before: map<Pair, nat>, symbols: seq<string>, freq: nat) returns (counts: map<Pair, nat>)
    ensures forall pr :: Get(counts, pr) == Get(before, pr) + Weighted(pr, symbols, freq)
    ensures forall pr :: Get(counts, pr) == Get(before, pr) + freq * |Places(pr, symbols)|
    ensures forall pr :: pr in counts <==> pr in before || Occurrences(pr, symbols) > 0
  {
    forall pr ensures Weighted(pr, symbols, freq) == freq * |Places(pr, symbols)| {
      WeightedPlaces(pr, symbols, freq);
    }
    hide Places;
    counts := before;
    if |symbols| < 2 {
      return;
    }
    assert forall pr :: Get(counts, pr) == Get(before, pr) + Weighted(pr, symbols[..1], freq);
    for i := 0 to |symbols| - 1
      invariant forall pr :: Get(counts, pr) == Get(before, pr) + Weighted(pr, symbols[..i + 1], freq)
      invariant forall pr :: pr in counts <==> pr in before || Occurrences(pr, symbols[..i + 1]) > 0
    {
      hide Weighted, Occurrences;
      var pair := (symbols[i], symbols[i + 1]);
      OneMoreSymbol(symbols[..i + 1], symbols[..i + 2], freq);
      counts := counts[pair := Get(counts, pair) + freq];
    }
    assert symbols[..|symbols|] == symbols;
  }

  // ----- The state of training after some merges

  /** The splits of the words after the first `r` merges. */
  function SplitsAt(ms: seq<MergeOp>, r: nat, words: set<string>): Splits
    requires r <= |ms|
  {
    map w | w in words :: Stage(ms, r, InitialSymbols(w))
  }

  lemma {:induction false} StagePrefix(ms: seq<MergeOp>, m: MergeOp, r: nat, s: seq<string>)
    requires r <= |ms|
    ensures Stage(ms + [m], r, s) == Stage(ms, r, s)
  {
    if r > 0 { StagePrefix(ms, m, r - 1, s); }
  }

  lemma SplitsPrefix(ms: seq<MergeOp>, m: MergeOp, r: nat, words: set<string>)
    requires r <= |ms|
    ensures SplitsAt(ms + [m], r, words) == SplitsAt(ms, r, words)
  {
    forall w | w in words ensures SplitsAt(ms + [m], r, words)[w] == SplitsAt(ms, r, words)[w] {
      StagePrefix(ms, m, r, InitialSymbols(w));
    }
  }

  /** Merge `r` joins a most frequent pair of its stage, frequent enough to be merged. */
  ghost predicate Chosen(ms: seq<MergeOp>, words: set<string>, freqs: map<string, nat>, minFrequency: nat, r: nat)
    requires r < |ms|
  {
    var splits, pair := SplitsAt(ms, r, words), (ms[r].left, ms[r].right);
    && ms[r].merged == ms[r].left + ms[r].right
    && Occurs(splits, words, pair)
    && Frequency(splits, freqs, pair) >= minFrequency
    && forall pr :: Frequency(splits, freqs, pr) <= Frequency(splits, freqs, pair)
  }

  ghost predicate AllChosen(ms: seq<MergeOp>, words: set<string>, freqs: map<string, nat>, minFrequency: nat)
  {
    forall r :: 0 <= r < |ms| ==> Chosen(ms, words, freqs, minFrequency, r)
  }

  lemma ChosenPrefix(ms: seq<MergeOp>, m: MergeOp, words: set<string>, freqs: map<string, nat>,
                     minFrequency: nat, r: nat)
    requires r < |ms|
    ensures Chosen(ms + [m], words, freqs, minFrequency, r) == Chosen(ms, words, freqs, minFrequency, r)
  {
    SplitsPrefix(ms, m, r, words);
  }

  lemma ChosenLearned(ms: seq<MergeOp>, words: set<string>, freqs: map<string, nat>, minFrequency: nat)
    requires AllChosen(ms, words, freqs, minFrequency)
    ensures LearnedFrom(ms, words)
  {
    forall r | 0 <= r < |ms| ensures Shown(ms, words, r) {
      assert Chosen(ms, words, freqs, minFrequency, r);
      var pair := (ms[r].left, ms[r].right);
      var w :| w in words && Occurrences(pair, SplitsAt(ms, r, words)[w]) > 0;
      var i := OccurrenceAt(pair, Stage(ms, r, InitialSymbols(w)));
      assert PairAt(ms[r], Stage(ms, r, InitialSymbols(w)), i);
    }
  }

  lemma {:induction false} NoOccurrenceNoCount(splits: Splits, freqs: map<string, nat>, ws: set<string>, pr: Pair)
    requires ws <= splits.Keys && !Occurs(splits, ws, pr)
    ensures CountOver(splits, freqs, ws, pr) == 0
    decreases |ws|
  {
    if ws != {} {
      var w :| w in ws;
      CountTake(splits, freqs, ws, pr, w);
      NoneWeighsNothing(pr, splits[w], CountOf(freqs, w));
      NoOccurrenceNoCount(splits, freqs, ws - {w}, pr);
    }
  }

  /** Accepting a most frequent pair as the next merge. */
  lemma ChosenNext(ms: seq<MergeOp>, words: set<string>, freqs: map<string, nat>, minFrequency: nat,
                   counts: map<Pair, nat>, best: Pair)
    requires AllChosen(ms, words, freqs, minFrequency)
    requires var splits := SplitsAt(ms, |ms|, words);
             && (forall pr :: pr in counts <==> Occurs(splits, words, pr))
             && (forall pr :: pr in counts ==> counts[pr] == Frequency(splits, freqs, pr))
    requires best in counts && counts[best] >= minFrequency && forall pr :: pr in counts ==> counts[pr] <= counts[best]
    ensures AllChosen(ms + [MergeOp(best.0, best.1, best.0 + best.1)], words, freqs, minFrequency)
  {
    var more := ms + [MergeOp(best.0, best.1, best.0 + best.1)];
    var splits := SplitsAt(ms, |ms|, words);
    SplitsPrefix(ms, more[|ms|], |ms|, words);
    assert splits.Keys == words;
    forall pr ensures Frequency(splits, freqs, pr) <= Frequency(splits, freqs, best) {
      if pr !in counts { NoOccurrenceNoCount(splits, freqs, words, pr); }
    }
    forall r | 0 <= r < |more| ensures Chosen(more, words, freqs, minFrequency, r) {
      if r < |ms| { ChosenPrefix(ms, more[|ms|], words, freqs, minFrequency, r); }
    }
  }

  lemma SplitsNext(ms: seq<MergeOp>, m: MergeOp, words: set<string>, next: Splits)
    requires var splits := SplitsAt(ms, |ms|, words);
             next.Keys == splits.Keys && forall w :: w in splits ==> next[w] == Pass(m, splits[w])
    ensures next == SplitsAt(ms + [m], |ms| + 1, words)
  {
    SplitsPrefix(ms, m, |ms|, words);
    forall w | w in words ensures next[w] == SplitsAt(ms + [m], |ms| + 1, words)[w] {
      StagePrefix(ms, m, |ms|, InitialSymbols(w));
    }
  }

  /** The strings that merges produce. */
  function Results(ms: seq<MergeOp>): set<string> {
    if ms == [] then {} else Results(ms[..|ms| - 1]) + {ms[|ms| - 1].merged}
  }

  lemma ResultsSnoc(ms: seq<MergeOp>, m: MergeOp)
    ensures Results(ms + [m]) == Results(ms) + {m.merged}
  {
    assert (ms + [m])[..|ms|] == ms;
  }

  /** Each merge adds at most one token. */
  lemma {:induction false} VocabularySize(vocab: set<string>, ms: seq<MergeOp>)
    ensures |vocab + Results(ms)| <= |vocab| + |ms|
  {
    if ms == [] {
      assert vocab + Results(ms) == vocab;
    } else {
      var init, last := ms[..|ms| - 1], ms[|ms| - 1];
      VocabularySize(vocab, init);
      assert vocab + Results(ms) == (vocab + Results(init)) + {last.merged};
    }
  }

  lemma {:induction false} ResultsAre(ms: seq<MergeOp>, t: string)
    ensures t in Results(ms) <==> exists r :: 0 <= r < |ms| && ms[r].merged == t
  {
    if ms != [] {
      var init, last := ms[..|ms| - 1], ms[|ms| - 1];
      ResultsAre(init, t);
      if r :| 0 <= r < |init| && init[r].merged == t {
        assert ms[r].merged == t;
      }
      if r :| 0 <= r < |ms| && ms[r].merged == t && r < |ms| - 1 {
        assert init[r].merged == t;
      }
    }
  }

  lemma {:induction false} ResultsOfAll(ms: seq<MergeOp>, r: nat)
    requires r < |ms|
    ensures ms[r].merged in Results(ms)
  {
    if r < |ms| - 1 { ResultsOfAll(ms[..|ms| - 1], r); }
  }

  lemma SplitsKeys(ms: seq<MergeOp>, r: nat, words: set<string>)
    requires r <= |ms|
    ensures SplitsAt(ms, r, words).Keys == words
  {
  }

  // ----- Sizes

  ghost function TotalSymbols(splits: Splits, ws: set<string>): nat
    requires ws <= splits.Keys
  {
    if ws == {} then 0
    else
      var w :| w in ws;
      |splits[w]| + TotalSymbols(splits, ws - {w})
  }

  lemma {:induction false} TotalTake(splits: Splits, ws: set<string>, w: string)
    requires ws <= splits.Keys && w in ws
    ensures TotalSymbols(splits, ws) == |splits[w]| + TotalSymbols(splits, ws - {w})
    decreases |ws|
  {
    var v :| v in ws && TotalSymbols(splits, ws) == |splits[v]| + TotalSymbols(splits, ws - {v});
    if v != w {
      TotalTake(splits, ws - {v}, w);
      TotalTake(splits, ws - {w}, v);
      assert ws - {v} - {w} == ws - {w} - {v};
    }
  }

  lemma {:induction false} TotalNotMore(a: Splits, b: Splits, ws: set<string>)
    requires ws <= a.Keys && ws <= b.Keys && forall w :: w in ws ==> |a[w]| <= |b[w]|
    ensures TotalSymbols(a, ws) <= TotalSymbols(b, ws)
    decreases |ws|
  {
    if ws != {} {
      var w :| w in ws;
      TotalTake(a, ws, w);
      TotalTake(b, ws, w);
      TotalNotMore(a, b, ws - {w});
    }
  }

  lemma {:induction false} TotalAtLeastOneEach(splits: Splits, ws: set<string>)
    requires ws <= splits.Keys && forall w :: w in ws ==> splits[w] != []
    ensures TotalSymbols(splits, ws) >= |ws|
    decreases |ws|
  {
    if ws != {} {
      var w :| w in ws;
      TotalTake(splits, ws, w);
      TotalAtLeastOneEach(splits, ws - {w});
    }
  }

  lemma PassShrinks(m: MergeOp, s: seq<string>)
    requires m.Made()
    ensures |Pass(m, s)| <= |s|
    ensures Occurrences((m.left, m.right), s) > 0 ==> |Pass(m, s)| < |s|
    ensures Occurrences((m.left, m.right), Pass(m, s)) == 0
  {
    PassEliminates(m, s);
    if Occurrences((m.left, m.right), s) > 0 {
      var i := OccurrenceAt((m.left, m.right), s);
      assert PairAt(m, s, i);
    }
    if Occurrences((m.left, m.right), Pass(m, s)) > 0 {
      var i := OccurrenceAt((m.left, m.right), Pass(m, s));
      assert PairAt(m, Pass(m, s), i);
    }
  }

  /** An accepted merge removes every occurrence of its pair and strictly shrinks the splits. */
  lemma MergeShrinks(m: MergeOp, a: Splits, b: Splits)
    requires m.Made() && b.Keys == a.Keys && forall w :: w in a ==> b[w] == Pass(m, a[w])
    requires Occurs(a, a.Keys, (m.left, m.right))
    ensures TotalSymbols(b, b.Keys) < TotalSymbols(a, a.Keys)
    ensures !Occurs(b, b.Keys, (m.left, m.right))
  {
    forall w | w in a ensures |b[w]| <= |a[w]| && Occurrences((m.left, m.right), b[w]) == 0 {
      PassShrinks(m, a[w]);
    }
    var w :| w in a && Occurrences((m.left, m.right), a[w]) > 0;
    PassShrinks(m, a[w]);
    TotalTake(a, a.Keys, w);
    TotalTake(b, b.Keys, w);
    TotalNotMore(b, a, a.Keys - {w});
  }

  lemma SplitsNonEmpty(ms: seq<MergeOp>, words: set<string>)
    requires AllMade(ms) && "" !in words
    ensures forall w :: w in words ==> SplitsAt(ms, |ms|, words)[w] != []
  {
    forall w | w in words ensures SplitsAt(ms, |ms|, words)[w] != [] {
      StageLength(ms, |ms|, InitialSymbols(w));
    }
  }

  lemma NothingChosen(words: set<string>, freqs: map<string, nat>, minFrequency: nat)
    ensures AllChosen([], words, freqs, minFrequency)
  {
  }

  // ----- What the splits spell

  /** Every word's symbols spell the word and the end marker. */
  predicate SpellWords(splits: Splits) {
    forall w :: w in splits ==> Concat(splits[w]) == if w == "" then "" else w + END_OF_WORD
  }

  predicate SymbolsIn(splits: Splits, vocab: set<string>) {
    forall w, sym :: w in splits && sym in splits[w] ==> sym in vocab
  }

  lemma SplitsSpell(ms: seq<MergeOp>, words: set<string>)
    requires AllMade(ms)
    ensures SpellWords(SplitsAt(ms, |ms|, words))
  {
    forall w | w in words
      ensures Concat(Stage(ms, |ms|, InitialSymbols(w))) == if w == "" then "" else w + END_OF_WORD
    {
      StageConcat(ms, |ms|, InitialSymbols(w));
      ConcatBase(w, true);
    }
  }

  lemma SymbolsStayIn(ms: seq<MergeOp>, words: set<string>, vocab0: set<string>)
    requires SymbolsIn(SplitsAt([], 0, words), vocab0)
    ensures SymbolsIn(SplitsAt(ms, |ms|, words), vocab0 + Results(ms))
  {
    var before, splits := SplitsAt([], 0, words), SplitsAt(ms, |ms|, words);
    forall w, sym | w in splits && sym in splits[w] ensures sym in vocab0 + Results(ms) {
      StageSymbols(ms, |ms|, InitialSymbols(w), sym);
      if sym in InitialSymbols(w) {
        assert sym in before[w];
      } else {
        var q :| 0 <= q < |ms| && sym == ms[q].merged;
        ResultsOfAll(ms, q);
      }
    }
  }

  /** No pair left in the splits is frequent enough to be merged. */
  ghost predicate NoneFrequent(splits: Splits, freqs: map<string, nat>, minFrequency: nat) {
    forall pr :: Occurs(splits, splits.Keys, pr) ==> Frequency(splits, freqs, pr) < minFrequency
  }

  /** What holds between merges. */
  ghost predicate Learning(ms: seq<MergeOp>, freqs: map<string, nat>, minFrequency: nat, splits: Splits,
                           vocab: set<string>, splits0: Splits, vocab0: set<string>)
  {
    && AllChosen(ms, freqs.Keys, freqs, minFrequency)
    && splits0 == SplitsAt([], 0, freqs.Keys)
    && splits == SplitsAt(ms, |ms|, freqs.Keys) && splits.Keys == freqs.Keys
    && vocab == vocab0 + Results(ms)
    && TotalSymbols(splits, splits.Keys) + |ms| <= TotalSymbols(splits0, splits0.Keys)
  }

  lemma NothingLearned(freqs: map<string, nat>, minFrequency: nat, splits0: Splits, vocab0: set<string>)
    requires splits0 == SplitsAt([], 0, freqs.Keys)
    ensures Learning([], freqs, minFrequency, splits0, vocab0, splits0, vocab0)
  {
    SplitsKeys([], 0, freqs.Keys);
    NothingChosen(freqs.Keys, freqs, minFrequency);
    assert vocab0 + Results([]) == vocab0;
  }

  /** One more merge learned. */
  lemma MergeLearned(ms: seq<MergeOp>, freqs: map<string, nat>, minFrequency: nat, splits: Splits,
                     vocab: set<string>, splits0: Splits, vocab0: set<string>,
                     counts: map<Pair, nat>, best: Pair, next: Splits)
    requires Learning(ms, freqs, minFrequency, splits, vocab, splits0, vocab0)
    requires forall pr :: pr in counts <==> Occurs(splits, splits.Keys, pr)
    requires forall pr :: pr in counts ==> counts[pr] == Frequency(splits, freqs, pr)
    requires best in counts && counts[best] >= minFrequency && forall pr :: pr in counts ==> counts[pr] <= counts[best]
    requires next.Keys == splits.Keys
    requires forall w :: w in splits ==> next[w] == Pass(MergeOp(best.0, best.1, best.0 + best.1), splits[w])
    ensures Learning(ms + [MergeOp(best.0, best.1, best.0 + best.1)], freqs, minFrequency, next,
                     vocab + {best.0 + best.1}, splits0, vocab0)
  {
    hide SplitsAt, AllChosen, Frequency, TotalSymbols, Results;
    var m := MergeOp(best.0, best.1, best.0 + best.1);
    ChosenNext(ms, freqs.Keys, freqs, minFrequency, counts, best);
    SplitsNext(ms, m, freqs.Keys, next);
    ChosenLearned(ms + [m], freqs.Keys, freqs, minFrequency);
    LearnedMade(ms + [m], freqs.Keys);
    assert (ms + [m])[|ms|].Made();
    MergeShrinks(m, splits, next);
    ResultsSnoc(ms, m);
    hide Occurs, LearnedFrom;
  }

  /** What holds when learning ends. */
  lemma AllLearned(ms: seq<MergeOp>, freqs: map<string, nat>, minFrequency: nat, splits: Splits,
                   vocab: set<string>, splits0: Splits, vocab0: set<string>)
    requires Learning(ms, freqs, minFrequency, splits, vocab, splits0, vocab0)
    ensures AllChosen(ms, freqs.Keys, freqs, minFrequency) && AllMade(ms)
    ensures splits == SplitsAt(ms, |ms|, freqs.Keys) && vocab == vocab0 + Results(ms)
    ensures SpellWords(splits) && (SymbolsIn(splits0, vocab0) ==> SymbolsIn(splits, vocab))
    ensures TotalSymbols(splits, splits.Keys) + |ms| <= TotalSymbols(splits0, splits0.Keys)
    ensures "" !in freqs ==> |ms| + |freqs.Keys| <= TotalSymbols(splits0, splits0.Keys)
  {
    hide SymbolsIn, SpellWords, AllMade, AllChosen, TotalSymbols, Results, SplitsAt;
    ChosenLearned(ms, freqs.Keys, freqs, minFrequency);
    LearnedMade(ms, freqs.Keys);
    SplitsSpell(ms, freqs.Keys);
    if SymbolsIn(splits0, vocab0) {
      SymbolsStayIn(ms, freqs.Keys, vocab0);
    }
    if "" !in freqs {
      SplitsNonEmpty(ms, freqs.Keys);
      TotalAtLeastOneEach(splits, splits.Keys);
    }
  }

  ghost predicate Distinct(tokens: seq<string>) {
    forall i, j :: 0 <= i < j < |tokens| ==> tokens[i] != tokens[j]
  }

  datatype BpeTrainer = BpeTrainer(vocabSize: nat, minFrequency: nat, specialTokens: seq<string>) {

    /** Characters of all words, and each word split into them. */
    method InitializeVocab(freqs: map<string, nat>) returns (vocab: set<string>, splits: Splits)
      ensures splits == SplitsAt([], 0, freqs.Keys)
      ensures vocab == set w, sym | w in freqs && sym in InitialSymbols(w) :: sym
    {
      vocab, splits := {}, map[];
      var todo := freqs.Keys;
      while todo != {}
        invariant todo <= freqs.Keys
        invariant splits == SplitsAt([], 0, freqs.Keys - todo)
        invariant vocab == set w, sym | w in freqs.Keys - todo && sym in InitialSymbols(w) :: sym
        decreases |todo|
      {
        var word :| word in todo;
        var chars := InitialSymbols(word);
        vocab := vocab + set sym | sym in chars;
        splits := splits[word := chars];
        todo := todo - {word};
      }
    }

    /** One merge applied to one word, in place from left to right. */
    method MergeWord(before: seq<string>, m: MergeOp) returns (symbols: seq<string>)
      ensures symbols == Pass(m, before)
    {
      symbols := before;
      var i := 0;
      while i + 1 < |symbols|
        invariant i <= |symbols|
        invariant symbols[..i] + Pass(m, symbols[i..]) == Pass(m, before)
        decreases |symbols| - i
      {
        hide Pass;
        PassFrom(m, symbols, i);
        if symbols[i] == m.left && symbols[i + 1] == m.right {
          symbols := MergeAt(symbols, i, m.merged);
        }
        i := i + 1;
      }
      assert symbols[..i] + symbols[i..] == symbols;
    }

    method ApplyMerge(before: Splits, m: MergeOp) returns (splits: Splits)
      ensures splits.Keys == before.Keys && forall w :: w in before ==> splits[w] == Pass(m, before[w])
    {
      splits := before;
      var todo := before.Keys;
      while todo != {}
        invariant todo <= before.Keys && splits.Keys == before.Keys
        invariant forall w :: w in before ==> splits[w] == if w in todo then before[w] else Pass(m, before[w])
        decreases |todo|
      {
        var word :| word in todo;
        var symbols := MergeWord(splits[word], m);
        splits := splits[word := symbols];
        todo := todo - {word};
      }
    }

    /** Learns a most frequent pair at a time until the vocabulary is full or no pair is frequent enough. */
    method LearnMerges(vocab0: set<string>, splits0: Splits, freqs: map<string, nat>)
      returns (vocab: set<string>, splits: Splits, merges: seq<MergeOp>)
      requires splits0 == SplitsAt([], 0, freqs.Keys)
      ensures AllChosen(merges, freqs.Keys, freqs, minFrequency) && AllMade(merges)
      ensures splits == SplitsAt(merges, |merges|, freqs.Keys)
      ensures vocab == vocab0 + Results(merges)
      ensures |vocab| <= if merges == [] then |vocab0| else vocabSize
      ensures SymbolsIn(splits0, vocab0) ==> SymbolsIn(splits, vocab)
      ensures SpellWords(splits)
      ensures merges != [] ==> |vocab0| + |merges| <= vocabSize
      ensures TotalSymbols(splits, splits.Keys) + |merges| <= TotalSymbols(splits0, splits0.Keys)
      ensures "" !in freqs ==> |merges| + |freqs.Keys| <= TotalSymbols(splits0, splits0.Keys)
      ensures |vocab0| + |merges| < vocabSize ==> NoneFrequent(splits, freqs, minFrequency)
    {
      vocab, splits, merges := vocab0, splits0, [];
      NothingLearned(freqs, minFrequency, splits0, vocab0);
      hide Learning, Frequency, Occurs;
      var target := Room(vocab0);
      var frequent := true;
      while |merges| < target && frequent
        invariant |merges| <= target
        invariant Learning(merges, freqs, minFrequency, splits, vocab, splits0, vocab0)
        invariant !frequent ==> NoneFrequent(splits, freqs, minFrequency)
        decreases target - |merges|, frequent
      {
        var counts := CountPairFrequencies(splits, freqs);
        var best := MostFrequent(counts);
        if best.None? || counts[best.value] < minFrequency {
          frequent := false;
        } else {
          var m := MergeOp(best.value.0, best.value.1, best.value.0 + best.value.1);
          ghost var before := vocab;
          vocab := vocab + {m.merged};
          var next := ApplyMerge(splits, m);
          MergeLearned(merges, freqs, minFrequency, splits, before, splits0, vocab0, counts, best.value, next);
          splits := next;
          merges := merges + [m];
        }
      }
      AllLearned(merges, freqs, minFrequency, splits, vocab, splits0, vocab0);
      VocabularySize(vocab0, merges);
    }

    /** How many merges the target size leaves room for. */
    function Room(vocab: set<string>): (n: nat)
      ensures n > 0 ==> |vocab| + n == vocabSize
      ensures n == 0 ==> |vocab| >= vocabSize
    {
      if vocabSize > |vocab| then vocabSize - |vocab| else 0
    }

    /** A key with the largest count, whichever the hash map yields. */
    method MostFrequent(counts: map<Pair, nat>) returns (best: Option<Pair>)
      ensures best.None? <==> counts == map[]
      ensures best.Some? ==> best.value in counts && forall pr :: pr in counts ==> counts[pr] <= counts[best.value]
    {
      best := None;
      var todo := counts.Keys;
      while todo != {}
        invariant todo <= counts.Keys && (best.None? <==> todo == counts.Keys)
        invariant best.Some? ==> best.value in counts
        invariant best.Some? ==> forall pr :: pr in counts && pr !in todo ==> counts[pr] <= counts[best.value]
        decreases |todo|
      {
        var pr :| pr in todo;
        if best.None? || counts[best.value] <= counts[pr] {
          best := Some(pr);
        }
        todo := todo - {pr};
      }
    }

    /** Special token number `i` gets id `i`; a repeated one keeps its last. */
    method NumberSpecials() returns (ids: map<string, nat>)
      ensures LastNumbered(ids, specialTokens) && forall t :: t in ids <==> t in specialTokens
      ensures NumberedBelow(ids, |specialTokens|)
      ensures |ids| == |specialTokens| ==> OneToOne(ids)
      ensures |ids| == |specialTokens| <==> Distinct(specialTokens)
    {
      ids := map[];
      NoneNumbered();
      hide NumberedFor;
      for i := 0 to |specialTokens|
        invariant NumberedFor(ids, specialTokens[..i])
      {
        OneMoreNumbered(ids, specialTokens[..i], specialTokens[i]);
        assert specialTokens[..i + 1] == specialTokens[..i] + [specialTokens[i]];
        ids := ids[specialTokens[i] := i];
      }
      assert specialTokens[..|specialTokens|] == specialTokens;
      AllNumbered(ids, specialTokens);
    }

    /** The special tokens in order, then every other token, each with the next free id. */
    method NumberTokens(tokens: set<string>) returns (ids: map<string, nat>)
      ensures forall t :: t in ids <==> t in tokens || t in specialTokens
      ensures LastNumbered(ids, specialTokens)
      ensures forall t :: t in tokens && t !in specialTokens ==> ids[t] >= |specialTokens|
      ensures Dense(ids) <==> Distinct(specialTokens)
    {
      hide LastNumbered, NumberedBelow, NumberedMore, OneToOne, Distinct, Dense;
      ids := NumberSpecials();
      var idx: nat := |specialTokens|;
      var todo := tokens;
      ghost var specials, more: set<string> := ids, {};
      NoMoreNumbered(specials, idx);
      while todo != {}
        invariant todo + more == tokens && NumberedMore(ids, specials, |specialTokens|, more, idx)
        decreases |todo|
      {
        var token :| token in todo;
        NumberedStep(ids, specials, |specialTokens|, more, idx, token);
        todo, more := todo - {token}, more + {token};
        if token !in ids {
          ids := ids[token := idx];
          idx := idx + 1;
        }
      }
      AllTokensNumbered(ids, specials, specialTokens, tokens, idx);
    }

    /** The whole of training, from word frequencies to a tokenizer. */
    method Train(freqs: map<string, nat>) returns (tokenizer: BpeTokenizer, ghost splits: Splits)
      ensures fresh(tokenizer) && tokenizer.Valid() && AllMade(tokenizer.merges)
      ensures AllChosen(tokenizer.merges, freqs.Keys, freqs, minFrequency) && LearnedFrom(tokenizer.merges, freqs.Keys)
      ensures splits == SplitsAt(tokenizer.merges, |tokenizer.merges|, freqs.Keys)
      ensures forall t :: t in tokenizer.vocab <==>
                t in specialTokens || t in Initials(freqs) || exists m :: m in tokenizer.merges && m.merged == t
      ensures CoversMerges(tokenizer.vocab, tokenizer.merges)
      ensures forall w :: w in freqs ==> Covers(tokenizer.vocab, InitialSymbols(w))
      ensures LastNumbered(tokenizer.vocab, specialTokens)
      ensures Invertible(tokenizer.vocab, tokenizer.reverseVocab) <==> Distinct(specialTokens)
      ensures var n, ms := |Initials(freqs)|, |tokenizer.merges|;
              && (ms > 0 ==> n + ms <= vocabSize)
              && (n + ms < vocabSize ==> NoneFrequent(splits, freqs, minFrequency))
              && |tokenizer.vocab| <= |specialTokens| + if ms == 0 then n else vocabSize
      ensures splits.Keys == freqs.Keys && SpellWords(splits) && SymbolsIn(splits, tokenizer.vocab.Keys)
      ensures OnlyAtOwnEnd(freqs.Keys) ==> forall w :: w in freqs ==> EncodedWord(tokenizer.merges, w) == splits[w]
    {
      hide AllChosen, NoneFrequent, TotalSymbols, SplitsAt, Stage, Results, SymbolsIn, SpellWords, LearnedFrom,
        Distinct, Dense, Invertible, LastNumbered, Covers, CoversMerges;
      var vocab0, splits0 := InitializeVocab(freqs);
      var vocab, finalSplits, merges := LearnMerges(vocab0, splits0, freqs);
      var ids := NumberTokens(vocab);
      tokenizer := new BpeTokenizer(ids, merges);
      splits := finalSplits;
      Trained(merges, freqs, minFrequency, vocab0, splits0, vocab, splits, ids);
      TrainedVocabulary(merges, vocab0, vocab, specialTokens, ids);
      DenseInvertible(ids, tokenizer.reverseVocab);
    }
  }

  /** The symbols that the words are made of before any merge. */
  function Initials(freqs: map<string, nat>): set<string> {
    set w, sym | w in freqs && sym in InitialSymbols(w) :: sym
  }

  lemma TrainedVocabulary(merges: seq<MergeOp>, vocab0: set<string>, vocab: set<string>, specials: seq<string>,
                          ids: map<string, nat>)
    requires vocab == vocab0 + Results(merges) && forall t :: t in ids <==> t in vocab || t in specials
    ensures forall t :: t in ids <==> t in specials || t in vocab0 || exists m :: m in merges && m.merged == t
    ensures |ids| <= |specials| + |vocab|
  {
    forall t ensures t in Results(merges) <==> exists m :: m in merges && m.merged == t { ResultsAre(merges, t); }
    assert ids.Keys == vocab + set t | t in specials;
    SetOfSeq(specials);
  }

  lemma {:induction false} SetOfSeq(s: seq<string>)
    ensures |set t | t in s| <= |s|
  {
    if s != [] {
      SetOfSeq(s[1..]);
      assert (set t | t in s) == {s[0]} + set t | t in s[1..];
    }
  }

  /** What holds of the outcome of learning, once its tokens have ids. */
  lemma Trained(merges: seq<MergeOp>, freqs: map<string, nat>, minFrequency: nat, vocab0: set<string>,
                splits0: Splits, vocab: set<string>, splits: Splits, ids: map<string, nat>)
    requires AllChosen(merges, freqs.Keys, freqs, minFrequency)
    requires splits0 == SplitsAt([], 0, freqs.Keys) && splits == SplitsAt(merges, |merges|, freqs.Keys)
    requires vocab0 == set w, sym | w in freqs && sym in InitialSymbols(w) :: sym
    requires vocab == vocab0 + Results(merges) && forall t :: t in vocab ==> t in ids
    requires SymbolsIn(splits0, vocab0) ==> SymbolsIn(splits, vocab)
    ensures LearnedFrom(merges, freqs.Keys) && splits.Keys == freqs.Keys
    ensures CoversMerges(ids, merges)
    ensures forall w :: w in freqs ==> Covers(ids, InitialSymbols(w))
    ensures SymbolsIn(splits, ids.Keys)
    ensures OnlyAtOwnEnd(freqs.Keys) ==> forall w :: w in freqs ==> EncodedWord(merges, w) == splits[w]
  {
    ChosenLearned(merges, freqs.Keys, freqs, minFrequency);
    SplitsKeys(merges, |merges|, freqs.Keys);
    InitialsCovered(freqs, vocab0, splits0, ids);
    if OnlyAtOwnEnd(freqs.Keys) {
      EncodedAsSplit(merges, freqs.Keys);
    }
    hide AllChosen, LearnedFrom, OnlyAtOwnEnd, SplitsAt, Stage, EncodedWord, Covers, InitialSymbols;
    forall r | 0 <= r < |merges| ensures merges[r].merged in ids {
      ResultsOfAll(merges, r);
    }
  }

  lemma InitialsCovered(freqs: map<string, nat>, vocab0: set<string>, splits0: Splits, ids: map<string, nat>)
    requires splits0 == SplitsAt([], 0, freqs.Keys) && forall t :: t in vocab0 ==> t in ids
    requires vocab0 == set w, sym | w in freqs && sym in InitialSymbols(w) :: sym
    ensures SymbolsIn(splits0, vocab0)
    ensures forall w :: w in freqs ==> Covers(ids, InitialSymbols(w))
  {
    hide InitialSymbols;
  }

  lemma EncodedAsSplit(merges: seq<MergeOp>, words: set<string>)
    requires LearnedFrom(merges, words) && OnlyAtOwnEnd(words)
    ensures forall w :: w in words ==> EncodedWord(merges, w) == SplitsAt(merges, |merges|, words)[w]
  {
    forall w | w in words ensures EncodedWord(merges, w) == SplitsAt(merges, |merges|, words)[w] {
      LearnedAgree(merges, words, w);
      hide LearnedFrom, OnlyAtOwnEnd, Stage, Greedy, InitialSymbols;
      assert EncodedWord(merges, w) == Greedy(merges, InitialSymbols(w));
      assert Replay(merges, InitialSymbols(w)) == Stage(merges, |merges|, InitialSymbols(w));
    }
  }

  /** One position of the scan: the pass goes on behind the replacement. */
  lemma PassFrom(m: MergeOp, symbols: seq<string>, i: nat)
    requires i + 1 < |symbols|
    ensures var now := if PairAt(m, symbols, i) then MergeAt(symbols, i, m.merged) else symbols;
            symbols[..i] + Pass(m, symbols[i..]) == now[..i + 1] + Pass(m, now[i + 1..])
  {
    var rest, done := symbols[i..], symbols[..i];
    assert PairAt(m, symbols, i) <==> PairAt(m, rest, 0);
    if PairAt(m, symbols, i) {
      var now := MergeAt(symbols, i, m.merged);
      assert now[i + 1..] == rest[2..] && now[..i + 1] == done + [m.merged];
      Append(done, [m.merged], Pass(m, rest[2..]));
    } else {
      assert symbols[i + 1..] == rest[1..] && symbols[..i + 1] == done + [rest[0]];
      Append(done, [rest[0]], Pass(m, rest[1..]));
    }
    hide MergeAt;
  }

  lemma Append(a: seq<string>, b: seq<string>, c: seq<string>)
    ensures a + (b + c) == (a + b) + c
  {
  }

  /** Ids count up from zero; the last one given out is still in use. */
  predicate NumberedBelow(ids: map<string, nat>, idx: nat) {
    && |ids| <= idx
    && (forall t :: t in ids ==> ids[t] < idx)
    && (idx > 0 ==> exists t :: t in ids && ids[t] == idx - 1)
  }

  lemma NumberNext(ids: map<string, nat>, idx: nat, token: string)
    requires NumberedBelow(ids, idx)
    ensures NumberedBelow(ids[token := idx], idx + 1)
    ensures |ids[token := idx]| == |ids| + if token in ids then 0 else 1
    ensures token !in ids && OneToOne(ids) ==> OneToOne(ids[token := idx])
  {
    var more := ids[token := idx];
    assert token in more && more[token] == idx + 1 - 1;
    if token in ids {
      assert more.Keys == ids.Keys;
    } else {
      assert more.Keys == ids.Keys + {token};
    }
  }

  lemma NumberedDense(ids: map<string, nat>, idx: nat)
    requires NumberedBelow(ids, idx) && (|ids| == idx ==> OneToOne(ids))
    ensures Dense(ids) <==> |ids| == idx
  {
  }

  /** Each token's id is the last place at which it is listed. */
  ghost predicate LastNumbered(ids: map<string, nat>, tokens: seq<string>) {
    forall t :: t in tokens ==>
      && t in ids && ids[t] < |tokens| && tokens[ids[t]] == t
      && forall j :: ids[t] < j < |tokens| ==> tokens[j] != t
  }

  /** The ids after the special tokens, `n` of them, and then `more` have been numbered. */
  ghost predicate NumberedMore(ids: map<string, nat>, specials: map<string, nat>, n: nat, more: set<string>, idx: nat)
  {
    && n <= idx && NumberedBelow(ids, idx)
    && (forall t :: t in ids <==> t in specials || t in more)
    && (forall t :: t in ids ==> if t in specials then ids[t] == specials[t] else ids[t] >= n)
    && (|ids| == idx <==> |specials| == n) && (|specials| == n ==> OneToOne(ids))
  }

  lemma NoMoreNumbered(specials: map<string, nat>, n: nat)
    requires NumberedBelow(specials, n) && (|specials| == n ==> OneToOne(specials))
    ensures NumberedMore(specials, specials, n, {}, n)
  {
  }

  lemma NumberedStep(ids: map<string, nat>, specials: map<string, nat>, n: nat, more: set<string>, idx: nat, t: string)
    requires NumberedMore(ids, specials, n, more, idx)
    ensures if t in ids then NumberedMore(ids, specials, n, more + {t}, idx)
            else NumberedMore(ids[t := idx], specials, n, more + {t}, idx + 1)
  {
    if t !in ids { NumberNext(ids, idx, t); }
    assert |ids| <= idx;
    hide NumberedBelow, OneToOne;
  }

  lemma AllTokensNumbered(ids: map<string, nat>, specials: map<string, nat>, tokens: seq<string>,
                          more: set<string>, idx: nat)
    requires NumberedMore(ids, specials, |tokens|, more, idx) && LastNumbered(specials, tokens)
    requires (forall t :: t in specials <==> t in tokens) && (|specials| == |tokens| <==> Distinct(tokens))
    ensures forall t :: t in ids <==> t in more || t in tokens
    ensures LastNumbered(ids, tokens) && forall t :: t in more && t !in tokens ==> ids[t] >= |tokens|
    ensures Dense(ids) <==> Distinct(tokens)
  {
    NumberedDense(ids, idx);
    hide NumberedBelow, Dense, Distinct, OneToOne;
  }

  lemma LastNumberedSnoc(ids: map<string, nat>, tokens: seq<string>, t: string)
    requires LastNumbered(ids, tokens)
    ensures LastNumbered(ids[t := |tokens|], tokens + [t])
  {
  }

  /** The ids after numbering tokens one after the other. */
  ghost predicate NumberedFor(ids: map<string, nat>, tokens: seq<string>) {
    && NumberedBelow(ids, |tokens|)
    && LastNumbered(ids, tokens) && (forall t :: t in ids <==> t in tokens)
    && (|ids| == |tokens| <==> Distinct(tokens))
    && (|ids| == |tokens| ==> OneToOne(ids))
  }

  lemma NoneNumbered()
    ensures NumberedFor(map[], [])
  {
  }

  lemma OneMoreNumbered(ids: map<string, nat>, tokens: seq<string>, t: string)
    requires NumberedFor(ids, tokens)
    ensures NumberedFor(ids[t := |tokens|], tokens + [t])
  {
    DistinctSnoc(tokens, t);
    NumberNext(ids, |tokens|, t);
    LastNumberedSnoc(ids, tokens, t);
    assert |ids| <= |tokens|;
    hide NumberedBelow, LastNumbered, OneToOne, Distinct;
  }

  lemma AllNumbered(ids: map<string, nat>, tokens: seq<string>)
    requires NumberedFor(ids, tokens)
    ensures NumberedBelow(ids, |tokens|) && LastNumbered(ids, tokens) && forall t :: t in ids <==> t in tokens
    ensures |ids| == |tokens| ==> OneToOne(ids)
    ensures |ids| == |tokens| <==> Distinct(tokens)
  {
  }

  lemma DistinctSnoc(tokens: seq<string>, t: string)
    ensures Distinct(tokens + [t]) <==> Distinct(tokens) && t !in tokens
  {
    var more := tokens + [t];
    if Distinct(more) {
      forall i | 0 <= i < |tokens| ensures tokens[i] != t {
        assert more[i] != more[|tokens|];
      }
      forall i, j | 0 <= i < j < |tokens| ensures tokens[i] != tokens[j] {
        assert more[i] != more[j];
      }
    }
  }

  predicate OneToOne(ids: map<string, nat>) {
    forall t, u :: t in ids && u in ids && ids[t] == ids[u] ==> t == u
  }

  /** Training, encoding and decoding together: a text comes back as its words joined by spaces. */
  method TrainEncodeDecode(trainer: BpeTrainer, freqs: map<string, nat>, text: string) returns (decoded: string)
    requires "" !in freqs && Distinct(trainer.specialTokens)
    requires forall w :: w in SplitWhitespace(text) ==> MarkerFree(w)
    requires forall w, c :: w in SplitWhitespace(text) && c in InitialSymbols(w) ==>
               exists v :: v in freqs && c in InitialSymbols(v)
    ensures decoded == JoinWords(SplitWhitespace(text))
  {
    var tokenizer, _ := trainer.Train(freqs);
    var words := SplitWhitespace(text);
    assert Encodable(tokenizer.vocab, words);
    var ids := tokenizer.Encode(text);
    decoded := tokenizer.Decode(ids);
    RoundTrip(tokenizer.vocab, tokenizer.reverseVocab, tokenizer.merges, text);
  }
}
