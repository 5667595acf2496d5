/**
 The tokenizer of src/embedding/bpe.rs: encoding with a cache, decoding, and the round trip.
 Strings are sequences of characters; ids are natural numbers.
 */
module BpeTokenizing {
  import opened BpeMerges
  import opened BpeAgreement
  import opened BpeTrained

  // ----- Text and words

  /** The characters with the Unicode property White_Space. */
  predicate IsWhitespace(c: char) {
    || '\U{0009}' <= c <= '\U{000D}' || c == ' ' || c == '\U{0085}' || c == '\U{00A0}' || c == '\U{1680}'
    || '\U{2000}' <= c <= '\U{200A}' || c == '\U{2028}' || c == '\U{2029}' || c == '\U{202F}'
    || c == '\U{205F}' || c == '\U{3000}'
  }

  /** The 25 of them: spaces within a line, ends of lines, and spaces of other widths. */
  lemma WhitespaceIs(c: char)
    ensures var spaces, ends := "\t \U{00A0}\U{1680}\U{202F}\U{205F}\U{3000}",
                                "\n\r\U{000B}\U{000C}\U{0085}\U{2028}\U{2029}";
            var wide := "\U{2000}\U{2001}\U{2002}\U{2003}\U{2004}\U{2005}\U{2006}\U{2007}\U{2008}\U{2009}\U{200A}";
            IsWhitespace(c) <==> c in spaces || c in ends || c in wide
  {
  }

  function WordLength(text: string): (n: nat)
    ensures n <= |text| && forall i :: 0 <= i < n ==> !IsWhitespace(text[i])
    ensures text != "" && !IsWhitespace(text[0]) ==> n > 0
  {
    if text == "" || IsWhitespace(text[0]) then 0 else 1 + WordLength(text[1..])
  }

  predicate IsWord(w: string) {
    w != "" && forall i :: 0 <= i < |w| ==> !IsWhitespace(w[i])
  }

  function SplitWhitespace(text: string): (words: seq<string>)
    ensures forall w :: w in words ==> IsWord(w)
  {
    if text == "" then []
    else if IsWhitespace(text[0]) then SplitWhitespace(text[1..])
    else
      var n := WordLength(text);
      [text[..n]] + SplitWhitespace(text[n..])
  }

  function Letters(text: string): string {
    if text == "" then ""
    else (if IsWhitespace(text[0]) then "" else [text[0]]) + Letters(text[1..])
  }

  /** The words are all the text but its whitespace, in order. */
  lemma {:induction false} WordsKeepLetters(text: string)
    ensures Concat(SplitWhitespace(text)) == Letters(text)
    decreases |text|
  {
    if text != "" {
      if IsWhitespace(text[0]) {
        WordsKeepLetters(text[1..]);
      } else {
        var n := WordLength(text);
        WordsKeepLetters(text[n..]);
        LettersOfWord(text, n);
      }
    }
  }

  lemma {:induction false} LettersOfWord(text: string, n: nat)
    requires n <= |text| && forall i :: 0 <= i < n ==> !IsWhitespace(text[i])
    ensures Letters(text) == text[..n] + Letters(text[n..])
  {
    if n > 0 {
      LettersOfWord(text[1..], n - 1);
      assert text[..n] == [text[0]] + text[1..][..n - 1] && text[1..][n - 1..] == text[n..];
    }
  }

  /** And they are as long as can be: between two there is whitespace, so joined they split the same way. */
  lemma {:induction false} JoinedSplits(words: seq<string>)
    requires forall w :: w in words ==> IsWord(w)
    ensures SplitWhitespace(JoinWords(words)) == words
  {
    if words != [] {
      var rest := if |words| == 1 then "" else " " + JoinWords(words[1..]);
      assert JoinWords(words) == words[0] + rest;
      assert words[0] in words && forall w :: w in words[1..] ==> w in words;
      FirstWord(words[0], rest);
      JoinedSplits(words[1..]);
      assert words == [words[0]] + words[1..];
      if |words| > 1 {
        assert rest[1..] == JoinWords(words[1..]);
      }
    }
  }

  lemma FirstWord(w: string, rest: string)
    requires IsWord(w) && (rest == "" || IsWhitespace(rest[0]))
    ensures SplitWhitespace(w + rest) == [w] + SplitWhitespace(rest)
  {
    WordEnds(w, rest);
    assert (w + rest)[0] == w[0] && (w + rest)[..|w|] == w && (w + rest)[|w|..] == rest;
  }

  lemma {:induction false} WordEnds(w: string, rest: string)
    requires (forall i :: 0 <= i < |w| ==> !IsWhitespace(w[i])) && (rest == "" || IsWhitespace(rest[0]))
    ensures WordLength(w + rest) == |w|
  {
    if w == "" {
      assert w + rest == rest;
    } else {
      assert (w + rest)[1..] == w[1..] + rest;
      WordEnds(w[1..], rest);
    }
  }

  /** The words of a text are those before any whitespace character of it and those behind. */
  lemma {:induction false} SplitAtWhitespace(a: string, c: char, b: string)
    requires IsWhitespace(c)
    ensures SplitWhitespace(a + [c] + b) == SplitWhitespace(a) + SplitWhitespace(b)
    decreases |a|
  {
    var text := a + [c] + b;
    if a == "" {
      assert text[1..] == b;
    } else if IsWhitespace(a[0]) {
      assert text[1..] == a[1..] + [c] + b;
      SplitAtWhitespace(a[1..], c, b);
    } else {
      var n := WordLength(a);
      WordBefore(a, c, b);
      assert text[..n] == a[..n] && text[n..] == a[n..] + [c] + b;
      SplitAtWhitespace(a[n..], c, b);
    }
  }

  lemma {:induction false} WordBefore(a: string, c: char, b: string)
    requires IsWhitespace(c)
    ensures WordLength(a + [c] + b) == WordLength(a)
  {
    if a != "" && !IsWhitespace(a[0]) {
      assert (a + [c] + b)[1..] == a[1..] + [c] + b;
      WordBefore(a[1..], c, b);
    }
  }

  function TrimEnd(s: string): (r: string)
    ensures r <= s && (r == "" || !IsWhitespace(r[|r| - 1]))
    ensures forall i :: |r| <= i < |s| ==> IsWhitespace(s[i])
  {
    if s != "" && IsWhitespace(s[|s| - 1]) then TrimEnd(s[..|s| - 1]) else s
  }

  function JoinWords(words: seq<string>): string {
    if words == [] then "" else if |words| == 1 then words[0] else words[0] + " " + JoinWords(words[1..])
  }

  predicate EndsWord(token: string) {
    |token| >= 4 && token[|token| - 4..] == END_OF_WORD
  }

  // ----- What encoding and decoding compute

  /** The ids of those tokens that have one. */
  function IdsOf(vocab: map<string, nat>, tokens: seq<string>): seq<nat> {
    if tokens == [] then []
    else
      var n := |tokens| - 1;
      IdsOf(vocab, tokens[..n]) + if tokens[n] in vocab then [vocab[tokens[n]]] else []
  }

  /** Those tokens that have an id. */
  function Known(vocab: map<string, nat>, tokens: seq<string>): seq<string> {
    if tokens == [] then []
    else (if tokens[0] in vocab then [tokens[0]] else []) + Known(vocab, tokens[1..])
  }

  lemma {:induction false} KnownSnoc(vocab: map<string, nat>, tokens: seq<string>, t: string)
    ensures Known(vocab, tokens + [t]) == Known(vocab, tokens) + if t in vocab then [t] else []
  {
    if tokens == [] {
      assert tokens + [t] == [t] && [t][1..] == [];
    } else {
      assert (tokens + [t])[1..] == tokens[1..] + [t];
      KnownSnoc(vocab, tokens[1..], t);
    }
  }

  /** A token without an id is left out; every other one gives its own id. */
  lemma {:induction false} IdsOfKnown(vocab: map<string, nat>, tokens: seq<string>)
    ensures var ids, known := IdsOf(vocab, tokens), Known(vocab, tokens);
            |ids| == |known| && forall k :: 0 <= k < |ids| ==> known[k] in vocab && ids[k] == vocab[known[k]]
  {
    if tokens != [] {
      var n := |tokens| - 1;
      IdsOfKnown(vocab, tokens[..n]);
      KnownSnoc(vocab, tokens[..n], tokens[n]);
      assert tokens == tokens[..n] + [tokens[n]];
    }
  }

  /** What the ids stand for: looked up again they give those tokens, in order. */
  ghost predicate StandFor(vocab: map<string, nat>, reverse: seq<string>, ids: seq<nat>, tokens: seq<string>) {
    && |ids| == |Known(vocab, tokens)|
    && forall k :: 0 <= k < |ids| ==>
         && Known(vocab, tokens)[k] in vocab && ids[k] == vocab[Known(vocab, tokens)[k]]
         && (Invertible(vocab, reverse) ==> ids[k] < |reverse| && reverse[ids[k]] == Known(vocab, tokens)[k])
  }

  lemma IdsStandFor(vocab: map<string, nat>, reverse: seq<string>, tokens: seq<string>)
    ensures StandFor(vocab, reverse, IdsOf(vocab, tokens), tokens)
  {
    IdsOfKnown(vocab, tokens);
    hide Known, IdsOf;
  }

  /** The tokens of all the words, one word after the other. */
  ghost function EncodedTokens(ms: seq<MergeOp>, words: seq<string>): seq<string> {
    if words == [] then [] else EncodedWord(ms, words[0]) + EncodedTokens(ms, words[1..])
  }

  lemma {:induction false} EncodedTokensSnoc(ms: seq<MergeOp>, words: seq<string>, w: string)
    ensures EncodedTokens(ms, words + [w]) == EncodedTokens(ms, words) + EncodedWord(ms, w)
  {
    hide EncodedWord;
    if words == [] {
      assert words + [w] == [w] && [w][1..] == [];
    } else {
      assert (words + [w])[1..] == words[1..] + [w];
      EncodedTokensSnoc(ms, words[1..], w);
    }
  }

  lemma {:induction false} IdsOfAppend(vocab: map<string, nat>, a: seq<string>, b: seq<string>)
    ensures IdsOf(vocab, a + b) == IdsOf(vocab, a) + IdsOf(vocab, b)
  {
    if b == [] {
      assert a + b == a;
    } else {
      assert (a + b)[..|a + b| - 1] == a + b[..|b| - 1];
      IdsOfAppend(vocab, a, b[..|b| - 1]);
    }
  }

  /** Encoding word by word looks up the tokens of the whole text. */
  lemma {:induction false} EncodedIdsAre(vocab: map<string, nat>, ms: seq<MergeOp>, words: seq<string>)
    ensures EncodedIds(vocab, ms, words) == IdsOf(vocab, EncodedTokens(ms, words))
  {
    if words != [] {
      hide IdsOf, EncodedTokens, EncodedWord;
      var init, w := words[..|words| - 1], words[|words| - 1];
      assert words == init + [w];
      EncodedIdsAre(vocab, ms, init);
      EncodedTokensSnoc(ms, init, w);
      IdsOfAppend(vocab, EncodedTokens(ms, init), EncodedWord(ms, w));
    } else {
      assert EncodedTokens(ms, words) == [];
    }
  }

  ghost function EncodedWord(ms: seq<MergeOp>, word: string): seq<string> {
    if word == "" then [] else Greedy(ms, InitialSymbols(word))
  }

  ghost function EncodedIds(vocab: map<string, nat>, ms: seq<MergeOp>, words: seq<string>): seq<nat> {
    if words == [] then []
    else
      var n := |words| - 1;
      EncodedIds(vocab, ms, words[..n]) + IdsOf(vocab, EncodedWord(ms, words[n]))
  }

  /** The end marker becomes a space; any other token stays what it is. */
  function Spell(token: string): (text: string)
    ensures forall x: string :: token == x + END_OF_WORD ==> text == x + " "
    ensures (forall x: string :: token != x + END_OF_WORD) ==> text == token
  {
    assert EndsWord(token) ==> token == token[..|token| - 4] + END_OF_WORD;
    if EndsWord(token) then token[..|token| - 4] + " " else token
  }

  function SpellId(reverse: seq<string>, id: nat): string {
    if id < |reverse| then Spell(reverse[id]) else ""
  }

  /** The text of the ids that have a token, before trimming. */
  function SpellIds(reverse: seq<string>, ids: seq<nat>): string {
    if ids == [] then "" else SpellIds(reverse, ids[..|ids| - 1]) + SpellId(reverse, ids[|ids| - 1])
  }

  lemma SpellNone(reverse: seq<string>)
    ensures SpellIds(reverse, []) == ""
  {
  }

  lemma SpellIdIs(reverse: seq<string>, id: nat)
    ensures id >= |reverse| ==> SpellId(reverse, id) == ""
    ensures id < |reverse| ==>
              var token := reverse[id];
              SpellId(reverse, id) == if EndsWord(token) then token[..|token| - 4] + " " else token
  {
  }

  /** The ids below `n`. */
  function Below(ids: seq<nat>, n: nat): seq<nat> {
    if ids == [] then [] else Below(ids[..|ids| - 1], n) + if ids[|ids| - 1] < n then [ids[|ids| - 1]] else []
  }

  /** Ids without a place in the table might as well not be there. */
  lemma {:induction false} OthersPassedOver(reverse: seq<string>, ids: seq<nat>)
    ensures SpellIds(reverse, ids) == SpellIds(reverse, Below(ids, |reverse|))
  {
    if ids != [] {
      var init, id := ids[..|ids| - 1], ids[|ids| - 1];
      OthersPassedOver(reverse, init);
      if id < |reverse| {
        assert Below(ids, |reverse|) == Below(init, |reverse|) + [id];
        hide Below, SpellId;
        SpellIdsSnoc(reverse, Below(init, |reverse|), id);
      } else {
        assert Below(ids, |reverse|) == Below(init, |reverse|) && SpellId(reverse, id) == "";
        hide Below, SpellId;
      }
    }
  }

  lemma SpellIdsSnoc(reverse: seq<string>, ids: seq<nat>, id: nat)
    ensures SpellIds(reverse, ids + [id]) == SpellIds(reverse, ids) + SpellId(reverse, id)
  {
    assert (ids + [id])[..|ids|] == ids;
  }

  lemma {:induction false} SpellIdsAppend(reverse: seq<string>, a: seq<nat>, b: seq<nat>)
    ensures SpellIds(reverse, a + b) == SpellIds(reverse, a) + SpellIds(reverse, b)
    decreases |b|
  {
    if b == [] {
      assert a + b == a && SpellIds(reverse, b) == "";
    } else {
      var init, id := b[..|b| - 1], b[|b| - 1];
      assert a + b == (a + init) + [id] && b == init + [id];
      SpellIdsAppend(reverse, a, init);
      SpellIdsAppendOne(reverse, a, init, id);
    }
  }

  lemma SpellIdsAppendOne(reverse: seq<string>, a: seq<nat>, init: seq<nat>, id: nat)
    requires SpellIds(reverse, a + init) == SpellIds(reverse, a) + SpellIds(reverse, init)
    ensures SpellIds(reverse, (a + init) + [id]) == SpellIds(reverse, a) + SpellIds(reverse, init + [id])
  {
    hide SpellId, SpellIds;
    SpellIdsSnoc(reverse, a + init, id);
    SpellIdsSnoc(reverse, init, id);
    var x, y, z := SpellIds(reverse, a), SpellIds(reverse, init), SpellId(reverse, id);
    assert (x + y) + z == x + (y + z);
  }

  // ----- The round trip

  /** Ids and tokens are in one-to-one correspondence. */
  predicate Invertible(vocab: map<string, nat>, reverse: seq<string>) {
    forall t :: t in vocab ==> vocab[t] < |reverse| && reverse[vocab[t]] == t
  }

  predicate Covers(vocab: map<string, nat>, s: seq<string>) {
    forall sym :: sym in s ==> sym in vocab
  }

  predicate CoversMerges(vocab: map<string, nat>, ms: seq<MergeOp>) {
    forall r :: 0 <= r < |ms| ==> ms[r].merged in vocab
  }

  /** `s` is a split of the word, its last symbol holding the whole end marker. */
  predicate SplitOf(vocab: map<string, nat>, word: string, s: seq<string>) {
    s != [] && Concat(s) == word + END_OF_WORD && Covers(vocab, s) && |s[|s| - 1]| >= 4
  }

  lemma InitialSplit(vocab: map<string, nat>, word: string)
    requires word != "" && Covers(vocab, InitialSymbols(word))
    ensures SplitOf(vocab, word, InitialSymbols(word))
  {
    ConcatBase(word, true);
  }

  lemma MergeKeepsSplit(vocab: map<string, nat>, word: string, s: seq<string>, i: nat, merged: string)
    requires SplitOf(vocab, word, s) && i + 1 < |s| && merged == s[i] + s[i + 1] && merged in vocab
    ensures SplitOf(vocab, word, MergeAt(s, i, merged))
  {
    MergeKeepsText(s, i, merged);
    MergeSymbols(s, i, merged);
    hide Concat, MergeAt;
  }

  lemma MergeKeepsText(s: seq<string>, i: nat, merged: string)
    requires i + 1 < |s| && merged == s[i] + s[i + 1]
    ensures Concat(MergeAt(s, i, merged)) == Concat(s)
  {
    var a, pair, b := s[..i], [s[i], s[i + 1]], s[i + 2..];
    assert s == (a + pair) + b && MergeAt(s, i, merged) == (a + [merged]) + b;
    ConcatOne(merged);
    ConcatTwo(s[i], s[i + 1]);
    hide Concat, MergeAt;
    ConcatAppend(a + pair, b);
    ConcatAppend(a, pair);
    ConcatAppend(a + [merged], b);
    ConcatAppend(a, [merged]);
  }

  lemma ConcatOne(x: string)
    ensures Concat([x]) == x
  {
    assert Concat([x]) == x + "";
  }

  lemma ConcatTwo(x: string, y: string)
    ensures Concat([x, y]) == x + y
  {
    ConcatOne(y);
    assert [x, y][1..] == [y];
  }

  /** The symbols are old ones and the new one, and the last still ends as before. */
  lemma MergeSymbols(s: seq<string>, i: nat, merged: string)
    requires i + 1 < |s| && merged == s[i] + s[i + 1]
    ensures var t := MergeAt(s, i, merged);
            t != [] && |t[|t| - 1]| >= |s[|s| - 1]| && forall sym :: sym in t ==> sym in s || sym == merged
  {
  }

  /** Merging greedily from a split of the word ends in a split of the word. */
  lemma {:induction false} GreedyKeepsSplit(vocab: map<string, nat>, ms: seq<MergeOp>, word: string, s: seq<string>)
    requires AllMade(ms) && CoversMerges(vocab, ms) && SplitOf(vocab, word, s)
    ensures SplitOf(vocab, word, Greedy(ms, s))
    decreases |s|
  {
    var ranks := RanksOf(ms);
    if i: nat :| IsBest(ranks, s, i) {
      var m := ms[RankAt(ranks, s, i)];
      assert m.left == s[i] && m.right == s[i + 1] && m.Made();
      GreedyUnfolds(ms, s, i);
      MergeKeepsSplit(vocab, word, s, i, m.merged);
      GreedyKeepsSplit(vocab, ms, word, MergeAt(s, i, m.merged));
    }
  }

  lemma {:induction false} SpellBack(vocab: map<string, nat>, reverse: seq<string>, tokens: seq<string>)
    requires Invertible(vocab, reverse) && Covers(vocab, tokens)
    requires forall t :: t in tokens ==> !EndsWord(t)
    ensures SpellIds(reverse, IdsOf(vocab, tokens)) == Concat(tokens)
  {
    if tokens != [] {
      var n := |tokens| - 1;
      var init, last := tokens[..n], tokens[n];
      assert tokens == init + [last] && last in tokens && forall t :: t in init ==> t in tokens;
      SpellBack(vocab, reverse, init);
      ConcatAppend(init, [last]);
      ConcatOne(last);
      assert IdsOf(vocab, tokens) == IdsOf(vocab, init) + [vocab[last]];
      hide Concat, SpellIds, IdsOf;
      SpellIdsSnoc(reverse, IdsOf(vocab, init), vocab[last]);
    }
  }

  lemma {:induction false} MemberInConcat(s: seq<string>, t: string) returns (k: nat)
    requires t in s
    ensures k + |t| <= |Concat(s)| && Concat(s)[k..k + |t|] == t
  {
    if s[0] == t {
      k := 0;
    } else {
      var j := MemberInConcat(s[1..], t);
      k := |s[0]| + j;
      assert Concat(s)[|s[0]|..] == Concat(s[1..]);
      assert Concat(s)[|s[0]|..][j..j + |t|] == Concat(s)[k..k + |t|];
    }
  }

  lemma EndInsideMarks(word: string, s: seq<string>, t: string)
    requires Concat(s) <= word && t in s && EndsWord(t)
    ensures !MarkerFree(word)
  {
    var k := MemberInConcat(s, t);
    var i := k + |t| - 4;
    assert word[k..k + |t|] == Concat(s)[k..k + |t|] == t;
    assert word[k..k + |t|][|t| - 4..] == word[i..i + 4];
    assert MarkerAt(word, i);
  }

  lemma CutBeforeEnd(word: string, head: string, last: string)
    requires head + last == word + END_OF_WORD && |last| >= 4
    ensures head <= word && EndsWord(last) && head + last[..|last| - 4] == word
  {
    var whole := word + END_OF_WORD;
    assert last == whole[|head|..];
    assert last[|last| - 4..] == whole[|word|..] == END_OF_WORD;
    assert head == whole[..|head|];
    assert last[..|last| - 4] == whole[|head|..|word|];
  }

  /** One encoded word decodes to the word and a space. */
  lemma WordRoundTrip(vocab: map<string, nat>, reverse: seq<string>, word: string, s: seq<string>)
    requires Invertible(vocab, reverse) && MarkerFree(word) && SplitOf(vocab, word, s)
    ensures SpellIds(reverse, IdsOf(vocab, s)) == word + " "
  {
    hide EndsWord, MarkerFree, SpellIds;
    var init, last := s[..|s| - 1], s[|s| - 1];
    assert s == init + [last];
    ConcatAppend(init, [last]);
    assert Concat([last]) == last + "" == last;
    CutBeforeEnd(word, Concat(init), last);
    forall t | t in init ensures !EndsWord(t) {
      if EndsWord(t) { EndInsideMarks(word, init, t); }
    }
    SpellBack(vocab, reverse, init);
    SpellIdsSnoc(reverse, IdsOf(vocab, init), vocab[last]);
    assert Spell(last) == last[..|last| - 4] + " ";
    assert Concat(init) + (last[..|last| - 4] + " ") == word + " ";
  }

  function Spaced(words: seq<string>): string {
    if words == [] then "" else Spaced(words[..|words| - 1]) + words[|words| - 1] + " "
  }

  /** The words may be encoded: their characters are in the vocabulary and none spells the marker. */
  ghost predicate Encodable(vocab: map<string, nat>, words: seq<string>) {
    forall w :: w in words ==> IsWord(w) && MarkerFree(w) && Covers(vocab, InitialSymbols(w))
  }

  lemma {:induction false} OneWordRoundTrip(vocab: map<string, nat>, reverse: seq<string>, ms: seq<MergeOp>, w: string)
    requires Invertible(vocab, reverse) && AllMade(ms) && CoversMerges(vocab, ms) && Encodable(vocab, [w])
    ensures SpellIds(reverse, IdsOf(vocab, EncodedWord(ms, w))) == w + " "
  {
    assert w in [w];
    InitialSplit(vocab, w);
    GreedyKeepsSplit(vocab, ms, w, InitialSymbols(w));
    WordRoundTrip(vocab, reverse, w, EncodedWord(ms, w));
  }

  lemma {:induction false} WordsRoundTrip(vocab: map<string, nat>, reverse: seq<string>, ms: seq<MergeOp>,
                                          words: seq<string>)
    requires Invertible(vocab, reverse) && AllMade(ms) && CoversMerges(vocab, ms) && Encodable(vocab, words)
    ensures SpellIds(reverse, EncodedIds(vocab, ms, words)) == Spaced(words)
  {
    if words != [] {
      hide SpellIds, IdsOf, Greedy, MarkerFree, IsWord;
      var init, w := words[..|words| - 1], words[|words| - 1];
      WordsRoundTrip(vocab, reverse, ms, init);
      OneWordRoundTrip(vocab, reverse, ms, w);
      SpellIdsAppend(reverse, EncodedIds(vocab, ms, init), IdsOf(vocab, EncodedWord(ms, w)));
      assert Spaced(init) + (w + " ") == Spaced(init) + w + " ";
    }
  }

  lemma {:induction false} JoinSnoc(words: seq<string>, w: string)
    ensures JoinWords(words + [w]) == Spaced(words) + w
  {
    if words == [] {
      assert words + [w] == [w];
    } else {
      var more := words + [w];
      assert more[1..] == words[1..] + [w];
      JoinSnoc(words[1..], w);
      SpacedFront(words);
    }
  }

  lemma SpacedSnoc(words: seq<string>, w: string)
    ensures Spaced(words + [w]) == Spaced(words) + w + " "
  {
    assert (words + [w])[..|words|] == words;
  }

  lemma {:induction false} SpacedFront(words: seq<string>)
    requires words != []
    ensures Spaced(words) == words[0] + " " + Spaced(words[1..])
  {
    if |words| == 1 {
      assert words == [] + [words[0]];
      SpacedSnoc([], words[0]);
      assert words[1..] == [];
    } else {
      hide Spaced;
      var init, last := words[..|words| - 1], words[|words| - 1];
      SpacedFront(init);
      assert words == init + [last] && words[1..] == init[1..] + [last];
      SpacedSnoc(init, last);
      SpacedSnoc(init[1..], last);
      FourTogether(words[0] + " ", Spaced(init[1..]), last, " ");
    }
  }

  lemma FourTogether(a: string, b: string, c: string, d: string)
    ensures (a + b) + c + d == a + (b + c + d)
  {
  }

  lemma SpacedTrims(words: seq<string>)
    requires forall w :: w in words ==> IsWord(w)
    ensures TrimEnd(Spaced(words)) == JoinWords(words)
  {
    if words != [] {
      var init, w := words[..|words| - 1], words[|words| - 1];
      assert words == init + [w];
      JoinSnoc(init, w);
      assert IsWord(w);
      TrimOneSpace(Spaced(init) + w);
    }
  }

  lemma TrimOneSpace(s: string)
    requires s != "" && !IsWhitespace(s[|s| - 1])
    ensures TrimEnd(s + " ") == s
  {
    assert (s + " ")[..|s|] == s;
  }

  /** Decoding an encoded text gives its words, joined by single spaces. */
  lemma {:induction false} RoundTrip(vocab: map<string, nat>, reverse: seq<string>, ms: seq<MergeOp>, text: string)
    requires Invertible(vocab, reverse) && AllMade(ms) && CoversMerges(vocab, ms)
    requires Encodable(vocab, SplitWhitespace(text))
    ensures TrimEnd(SpellIds(reverse, EncodedIds(vocab, ms, SplitWhitespace(text)))) == JoinWords(SplitWhitespace(text))
  {
    WordsRoundTrip(vocab, reverse, ms, SplitWhitespace(text));
    SpacedTrims(SplitWhitespace(text));
  }

  // ----- The tokenizer

  /** `reverse` names, for each id below its length, a token with that id, or the empty one if there is none. */
  predicate ReverseOf(vocab: map<string, nat>, reverse: seq<string>) {
    && |reverse| == |vocab|
    && (forall i :: 0 <= i < |reverse| && reverse[i] != "" ==> reverse[i] in vocab && vocab[reverse[i]] == i)
    && forall t :: t in vocab && vocab[t] < |reverse| ==>
         reverse[vocab[t]] in vocab && vocab[reverse[vocab[t]]] == vocab[t]
  }

  /** Ids below the size of the vocabulary, no two tokens sharing one. */
  predicate Dense(vocab: map<string, nat>) {
    && (forall t :: t in vocab ==> vocab[t] < |vocab|)
    && (forall t, u :: t in vocab && u in vocab && vocab[t] == vocab[u] ==> t == u)
  }

  /** A cache of bounded size, of nothing but encodings. */
  ghost predicate Caches(cache: map<string, seq<string>>, ms: seq<MergeOp>) {
    |cache| <= 100_000 && forall w :: w in cache ==> cache[w] == EncodedWord(ms, w)
  }

  lemma CachesOne(cache: map<string, seq<string>>, ms: seq<MergeOp>, w: string)
    requires Caches(cache, ms)
    ensures w in cache ==> cache[w] == EncodedWord(ms, w) && cache[w := cache[w]] == cache
    ensures |cache| < 100_000 ==> Caches(cache[w := EncodedWord(ms, w)], ms)
  {
  }

  /** The best pair's place, or -1 if no pair has a rank. */
  ghost predicate BestOrNone(ranks: Ranks, s: seq<string>, best: int) {
    && (best >= 0 ==> IsBest(ranks, s, best))
    && (best < 0 ==> forall j: nat :: !Ranked(ranks, s, j))
  }

  lemma EncodingStarts(ms: seq<MergeOp>, word: string)
    requires word != ""
    ensures Greedy(ms, InitialSymbols(word)) == EncodedWord(ms, word)
  {
  }

  lemma EncodingStep(ms: seq<MergeOp>, s: seq<string>, best: int)
    requires BestOrNone(RanksOf(ms), s, best) && best >= 0
    ensures Ranked(RanksOf(ms), s, best)
    ensures var rank := RanksOf(ms)[(s[best], s[best + 1])];
            rank < |ms| && Greedy(ms, MergeAt(s, best, ms[rank].merged)) == Greedy(ms, s)
  {
    GreedyUnfolds(ms, s, best);
  }

  lemma EncodingEnds(ms: seq<MergeOp>, s: seq<string>, best: int)
    requires BestOrNone(RanksOf(ms), s, best) && best < 0
    ensures Greedy(ms, s) == s
  {
  }

  class BpeTokenizer {
    const vocab: map<string, nat>
    const reverseVocab: seq<string>
    const merges: seq<MergeOp>
    const mergeRanks: Ranks
    const maxCacheSize: nat := 100_000
    var cache: map<string, seq<string>>

    ghost predicate Valid()
      reads this
    {
      && ReverseOf(vocab, reverseVocab)
      && mergeRanks == RanksOf(merges)
      && Caches(cache, merges)
    }

    constructor (vocab: map<string, nat>, merges: seq<MergeOp>)
      ensures Valid() && this.vocab == vocab && this.merges == merges
    {
      var reverse := Inverted(vocab);
      var ranks := RanksByPair(merges);
      this.vocab, this.merges, reverseVocab, mergeRanks, cache := vocab, merges, reverse, ranks, map[];
    }

    static method Inverted(vocab: map<string, nat>) returns (reverse: seq<string>)
      ensures ReverseOf(vocab, reverse)
    {
      reverse := seq(|vocab|, _ => "");
      var todo := vocab.Keys;
      while todo != {}
        invariant todo <= vocab.Keys && |reverse| == |vocab|
        invariant forall i :: 0 <= i < |reverse| && reverse[i] != "" ==> reverse[i] in vocab && vocab[reverse[i]] == i
        invariant forall t :: t in vocab && t !in todo && vocab[t] < |reverse| ==>
                    reverse[vocab[t]] in vocab && vocab[reverse[vocab[t]]] == vocab[t]
        decreases |todo|
      {
        var token :| token in todo;
        if vocab[token] < |reverse| {
          reverse := reverse[vocab[token] := token];
        }
        todo := todo - {token};
      }
    }

    static method RanksByPair(merges: seq<MergeOp>) returns (ranks: Ranks)
      ensures ranks == RanksOf(merges)
    {
      ranks := map[];
      for i := 0 to |merges|
        invariant ranks == RanksOf(merges[..i])
      {
        ranks := ranks[(merges[i].left, merges[i].right) := i];
        assert merges[..i + 1][..i] == merges[..i];
      }
      assert merges[..|merges|] == merges;
    }

    /** The scan for the best merge: the leftmost pair of the lowest rank, if any pair has one. */
    method FindBest(symbols: seq<string>) returns (best: int)
      requires Valid()
      ensures BestOrNone(mergeRanks, symbols, best)
    {
      hide BpeTokenizer.Valid;
      best := -1;
      var bestRank := 0;
      for i := 0 to |symbols| - (if symbols == [] then 0 else 1)
        invariant best < 0 ==> forall j: nat :: j < i ==> !Ranked(mergeRanks, symbols, j)
        invariant best >= 0 ==> best < i && Ranked(mergeRanks, symbols, best)
        invariant best >= 0 ==> bestRank == RankAt(mergeRanks, symbols, best)
        invariant best >= 0 ==> forall j: nat :: j < i && Ranked(mergeRanks, symbols, j) ==>
                    || bestRank < RankAt(mergeRanks, symbols, j)
                    || (bestRank == RankAt(mergeRanks, symbols, j) && best <= j)
      {
        if (symbols[i], symbols[i + 1]) in mergeRanks {
          var rank := mergeRanks[(symbols[i], symbols[i + 1])];
          if best < 0 || rank < bestRank {
            best, bestRank := i, rank;
          }
        }
      }
    }

    /** The greedy encoding of a word, cached or not. */
    method EncodeWord(word: string) returns (symbols: seq<string>)
      requires Valid()
      modifies this
      ensures Valid() && symbols == EncodedWord(merges, word)
      ensures cache == if word != "" && |old(cache)| < 100_000 then old(cache)[word := symbols] else old(cache)
    {
      if word == "" {
        return [];
      }
      CachesOne(cache, merges, word);
      hide Caches;
      if word in cache {
        return cache[word];
      }
      hide Greedy, EncodedWord, BestOrNone, RanksOf, ReverseOf, MergeAt, InitialSymbols;
      symbols := InitialSymbols(word);
      EncodingStarts(merges, word);
      var best := FindBest(symbols);
      while best >= 0
        invariant BestOrNone(mergeRanks, symbols, best) && cache == old(cache)
        invariant Greedy(merges, symbols) == EncodedWord(merges, word)
        decreases |symbols|, best
      {
        EncodingStep(merges, symbols, best);
        var rank := mergeRanks[(symbols[best], symbols[best + 1])];
        symbols := MergeAt(symbols, best, merges[rank].merged);
        best := FindBest(symbols);
      }
      EncodingEnds(merges, symbols, best);
      if |cache| < maxCacheSize {
        cache := cache[word := symbols];
      }
    }

    /** The ids of the tokens that have one. */
    method LookUp(tokens: seq<string>) returns (ids: seq<nat>)
      ensures ids == IdsOf(vocab, tokens) && StandFor(vocab, reverseVocab, ids, tokens)
    {
      IdsStandFor(vocab, reverseVocab, tokens);
      hide StandFor;
      ids := [];
      for k := 0 to |tokens|
        invariant ids == IdsOf(vocab, tokens[..k])
      {
        assert tokens[..k + 1][..k] == tokens[..k];
        if tokens[k] in vocab {
          ids := ids + [vocab[tokens[k]]];
        }
      }
      assert tokens[..|tokens|] == tokens;
    }

    method Encode(text: string) returns (ids: seq<nat>)
      requires Valid()
      modifies this
      ensures Valid() && ids == EncodedIds(vocab, merges, SplitWhitespace(text))
      ensures StandFor(vocab, reverseVocab, ids, EncodedTokens(merges, SplitWhitespace(text)))
    {
      EncodedIdsAre(vocab, merges, SplitWhitespace(text));
      IdsStandFor(vocab, reverseVocab, EncodedTokens(merges, SplitWhitespace(text)));
      hide BpeTokenizer.Valid, IdsOf, EncodedWord, EncodedTokens, StandFor;
      var words := SplitWhitespace(text);
      ids := [];
      for i := 0 to |words|
        invariant Valid() && ids == EncodedIds(vocab, merges, words[..i])
      {
        var tokens := EncodeWord(words[i]);
        var wordIds := LookUp(tokens);
        ids := ids + wordIds;
        assert words[..i + 1][..i] == words[..i];
      }
      assert words[..|words|] == words;
    }

    /** The tokens themselves. */
    method EncodeToTokens(text: string) returns (tokens: seq<string>)
      requires Valid()
      modifies this
      ensures Valid() && tokens == EncodedTokens(merges, SplitWhitespace(text))
    {
      hide BpeTokenizer.Valid, EncodedWord;
      var words := SplitWhitespace(text);
      tokens := [];
      for i := 0 to |words|
        invariant Valid() && tokens == EncodedTokens(merges, words[..i])
      {
        var more := EncodeWord(words[i]);
        EncodedTokensSnoc(merges, words[..i], words[i]);
        assert words[..i + 1] == words[..i] + [words[i]];
        tokens := tokens + more;
      }
      assert words[..|words|] == words;
    }

    method Decode(ids: seq<nat>) returns (text: string)
      requires Valid()
      ensures text == TrimEnd(SpellIds(reverseVocab, ids))
      ensures text == TrimEnd(SpellIds(reverseVocab, Below(ids, |reverseVocab|)))
    {
      hide Below, SpellIds, SpellId, TrimEnd;
      OthersPassedOver(reverseVocab, ids);
      SpellNone(reverseVocab);
      var result := "";
      for i := 0 to |ids|
        invariant result == SpellIds(reverseVocab, ids[..i])
      {
        assert ids[..i + 1] == ids[..i] + [ids[i]];
        SpellIdsSnoc(reverseVocab, ids[..i], ids[i]);
        SpellIdIs(reverseVocab, ids[i]);
        if ids[i] < |reverseVocab| {
          var token := reverseVocab[ids[i]];
          if EndsWord(token) {
            assert result + (token[..|token| - 4] + " ") == result + token[..|token| - 4] + " ";
            result := result + token[..|token| - 4];
            result := result + " ";
          } else {
            result := result + token;
          }
        }
      }
      assert ids[..|ids|] == ids;
      text := TrimEnd(result);
    }
  }

  /** Ids and tokens correspond one to one exactly when the vocabulary is dense. */
  lemma DenseInvertible(vocab: map<string, nat>, reverse: seq<string>)
    requires ReverseOf(vocab, reverse)
    ensures Invertible(vocab, reverse) <==> Dense(vocab)
  {
    if Invertible(vocab, reverse) {
      forall t, u | t in vocab && u in vocab && vocab[t] == vocab[u] ensures t == u {
        assert reverse[vocab[t]] == t && reverse[vocab[u]] == u;
      }
    }
  }
}
