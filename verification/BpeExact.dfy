/**
 For which training words the encoder of src/embedding/bpe.rs agrees with the trainer's passes on
 every word, whatever has been learned from them.
 */
module BpeExact {
  import opened BpeMerges
  import opened BpeTrained
  import opened BpeStratified
  import opened BpeBreaking
  import opened BpeRepeats
  import opened BpeTwice

  /**
   One place is enough at which a closing character precedes the marker other than at its own
   word's end: merges can be learned with which some word is encoded differently.
   */
  lemma OnePlaceBreaks(words: set<string>, w: string, v: string, i: nat)
    requires w in words && v in words && ClosesInside(w, v, i) && !(w == v && i + 6 == |v|)
    ensures !AlwaysAgree(words)
  {
    if v[i] == '>' && i + 6 < |v| {
      RepeatBreaks(words, w, v, i);
    } else if AtBothEnds(w, v, i) {
      SameEndBreaks(words, w, v, i);
    } else {
      OncePlaceBreaks(words, w, v, i);
    }
  }

  /** Agreement is sure if there is none. */
  lemma SurelyAgree(words: set<string>)
    requires OnlyAtOwnEnd(words)
    ensures AlwaysAgree(words)
  {
    hide OnlyAtOwnEnd, Greedy, Replay, LearnedFrom;
    forall ms, word | LearnedFrom(ms, words)
      ensures Greedy(ms, InitialSymbols(word)) == Replay(ms, InitialSymbols(word))
    {
      LearnedAgree(ms, words, word);
    }
  }

  /** The exact condition, for all sets of words. */
  lemma AgreeExactly(words: set<string>)
    ensures AlwaysAgree(words) <==> OnlyAtOwnEnd(words)
  {
    if OnlyAtOwnEnd(words) {
      SurelyAgree(words);
    } else {
      var w, v, i: nat :| w in words && v in words && ClosesInside(w, v, i) && !(w == v && i + 6 == |v|);
      OnePlaceBreaks(words, w, v, i);
    }
  }
}
