# libgrammstein in Dafny

A model of the stateful core of libgrammstein, a Rust library of language-model building blocks,
with proofs about it. `dafny verify dfyconfig.toml` checks everything.

Six parts are modelled, each in the form the Rust code has: classes with the same fields where
methods update an object, loops where the code loops, functions where it computes a value.

**Grammar-constrained decoding.** `GrammarConstraint` is an incremental Earley recogniser. Its chart
grows in place through a work list; it answers which terminals may come next, whether a token is
accepted and whether the input may stop. `Grammar.dfy` defines derivations independently of any
parser. `EarleyItems.dfy` gives the chart as a function of the tokens read, `EarleyWorkList.dfy`
tells turn by turn what the work list adds, `ConstrainedDecoding.dfy` proves the class computes it,
and `EarleySoundness.dfy`, `EarleyClosure.dfy` and `EarleyAnswers.dfy` prove what it means. The
completer looks once at the states waiting for a completed symbol, so a symbol that derives nothing
can be completed before a later state waits for it: answers are always sound, the chart is exact if
and only if it is closed under moves over empty spans, grammars from whose start symbol no epsilon
rule can be reached always give such charts, and `EpsilonRulesLoseTokens` is one with epsilon rules
that loses a token. The trainer never records an empty right side, so `Training.TrainThenDecode`
goes the whole way from trees to an accepted token sequence.

**Byte-pair encoding.** The trainer applies each merge in a left-to-right pass over every word, one
merge after the other; the encoder looks again and again for the leftmost pair of lowest rank.
`BpeAgreement.dfy` proves the two agree on every word for any stratified merge list;
`BpeTrained.dfy` and `BpeStratified.dfy` prove that training gives only stratified lists if inside
no training word the end-of-word marker, with more behind it, stands right behind a character in
which some word of two or more closes, except once in that word itself, right before its end, as in
"xa</w>a". `BpeMarker.dfy`, `BpeBreaking.dfy`, `BpeRepeats.dfy` and `BpeTwice.dfy` learn breaking
merges from any other such place, so that `BpeExact.AgreeExactly` is an exact condition for all sets
of words; `BpeChosen.dfy` shows two words and their counts from which the trainer can choose
breaking merges. `BpeTokenizer.dfy` proves that decoding undoes encoding and `BpeTrainer.dfy` puts
training, encoding and decoding together.

**Prefetching.** A producer thread fills a bounded channel, a consumer reads it, and dropping the
reader sets a flag, drains the channel and joins the thread. `Prefetch.dfy` is the protocol as
interleaved steps, one program counter a thread. Conservation of the corpus, absence of deadlock,
termination of every run and of every drop, and the shape of what is delivered are proved for every
reachable state. Dropping never hangs because the capacity is at least two; `CapacityOneHangs`
reaches the stuck state for capacity one.

**Corrections.** A bounded heap without duplicates, a list kept sorted and cut at every step, and
replacement from back to front, each proved equal to a plain specification or equal to it under an
exact condition. The heap passes over a kept edit offered again with more confidence, so it keeps
the best of any stream in which no offer is better than the first of its key, and if there is a
place for every key, of no other. `AppliedIsSimultaneous` finds that text inserted at the very end
of the source is dropped, and that nothing else is.

**Syntax trees and the code property graph.** Preorder traversal with an explicit stack, numbering a
tree into a graph, the flow edges, child counts and breadth-first depths; edit positions in UTF-8
text, where columns counted in characters and columns counted in bytes part ways.

**Streaming audio frames.** Extracting from a buffer call by call against one call on the whole
recording: the same number of frames at the same places, with the one sample a call that
pre-emphasis makes different stated exactly.

Numbers are unbounded: `usize`, `u32` and `u64` do not wrap. Floating-point weights, confidences and
samples are reals. Where a hash map, a binary heap or the graph library decides an order, the model
leaves the choice open and the results hold for every choice.

Four methods have no counterpart in the source: `Training.Decode`, `Training.TrainThenDecode`,
`BpeTraining.TrainEncodeDecode` and `Cpg.DepthsOfTree` use the modelled operations as a client
would. `Collecting.BetterDuplicateIgnored` builds a counterexample from the collector's own
operations.

## Model

| member | source | states |
|---|---|---|
| EarleyItems.PushAll | src/code/constrained_decoding.rs:143-154 | adding states through `seen` keeps the list without duplicates, keeps what was there as a prefix, and holds exactly the old states and the new |
| EarleyItems.NoDuplicatesBound | src/code/constrained_decoding.rs:242-249 | a list without duplicates is no longer than the finite universe of its states, the measure that ends the work list |
| EarleyItems.Universe | src/code/constrained_decoding.rs:36-50 | every state in range of a position is in a finite universe of rule, dot and start |
| EarleyItems.CandidatesInRange | src/code/constrained_decoding.rs:249-309 | prediction and completion only produce states whose rule, dot and start are in range |
| EarleyItems.Saturate | src/code/constrained_decoding.rs:242-311 | the finished list extends the list it started from, has no duplicates and stays in range |
| EarleyItems.ChartFor | src/code/constrained_decoding.rs:224-238 | one list a position, each without duplicates and in range |
| EarleyItems.ChartForSnoc | src/code/constrained_decoding.rs:381-405 | reading one more token leaves all earlier lists alone and appends the completion of what is scanned |
| EarleyWorkList.CandidatesAre | src/code/constrained_decoding.rs:255-305 | processing a state asks for exactly these: the rules of the non-terminal it expects, starting here; or, once it is finished, the states that wait for its left side where it began, in an earlier list or in this one as far as it has come, with their dots moved |
| EarleyWorkList.SaturateWorksOff | src/code/constrained_decoding.rs:242-311 | the finished list has come about turn by turn: after each state's turn the list holds what it held before and what that state asked for, no more and no less |
| EarleyWorkList.ChartWorkedOff | src/code/constrained_decoding.rs:224-405 | every list of the chart has come about so, from the start symbol's rules or from the states that the token moved, whatever the grammar |
| EarleyWorkList.EmptySpansMove | src/code/constrained_decoding.rs:274-305 | a rule completed over nothing, at any position, moves everything that waited for it before |
| EarleySoundness.ItemPredicted | src/code/constrained_decoding.rs:262-271 | a rule predicted for an expected non-terminal is a true item: what it starts from is derivable from the start symbol |
| EarleySoundness.ItemCompleted | src/code/constrained_decoding.rs:274-305 | moving a waiting state over a completed one keeps it a true item |
| EarleySoundness.ItemScanned | src/code/constrained_decoding.rs:381-396 | moving a state over the token read keeps it a true item |
| EarleySoundness.ItemNextViable | src/code/constrained_decoding.rs:314-334 | the symbol after a true item's dot extends what was read to a prefix of a sentential form |
| EarleySoundness.ChartSound | src/code/constrained_decoding.rs:224-311 | for every grammar, epsilon rules included, and every input, every state of the chart is a true item: the symbols before its dot derive the tokens it spans, and the start symbol derives the tokens before it, its left side and some rest |
| EarleySoundness.SaturateSound | src/code/constrained_decoding.rs:242-311 | completing a list of true items adds only true items |
| EarleyClosure.SaturateHandles | src/code/constrained_decoding.rs:249-309 | when the work list ends, every state of it has been predicted from, or moved over by, what its position then held, up to states waiting where the completed span is empty |
| EarleyClosure.ChartClosed | src/code/constrained_decoding.rs:224-311 | the whole chart is closed under prediction, scanning, and completion of non-empty spans |
| EarleyClosure.DotMoves | src/code/constrained_decoding.rs:274-305 | in a closed chart a dot moves over every stretch of symbols that derives the tokens in between |
| EarleyClosure.SymbolMoves | src/code/constrained_decoding.rs:274-305 | in a closed chart a dot moves over a non-terminal that derives the tokens in between |
| EarleyClosure.WaitsFor | src/code/constrained_decoding.rs:262-271 | in a closed chart, a symbol that some derivation from a present rule needs next has a state waiting for it |
| EarleyAnswers.ClosedIsComplete | src/code/constrained_decoding.rs:242-311 | a chart closed also over empty spans contains every true item |
| EarleyAnswers.ExactIffNullClosed | src/code/constrained_decoding.rs:276-305 | the chart holds exactly the true items if and only if it is closed under moves over empty spans, whatever the grammar |
| Grammar.ReachGrows | src/code/constrained_decoding.rs:276-305 | where no epsilon rule is in reach, derivations never shrink a form and stay in reach |
| Grammar.EpsilonFreeOutOfReach | src/code/pcfg.rs:314-317 | a grammar without epsilon rules, such as every trained one, reaches none |
| EarleyAnswers.UnreachedNullClosed | src/code/constrained_decoding.rs:276-305 | unless an epsilon rule can be reached from the start symbol, every chart is so closed |
| EarleyAnswers.EarleyExactness | src/code/constrained_decoding.rs:224-311 | Earley's theorem for this code: unless an epsilon rule can be reached from the start symbol, for every input, a state is in list k exactly when it is a true item there |
| EarleyAnswers.ExpectedSound | src/code/constrained_decoding.rs:337-359 | a token reported as next always extends what was read to a prefix of a sentential form, for every grammar |
| EarleyAnswers.ExpectedExact | src/code/constrained_decoding.rs:337-359 | unless an epsilon rule can be reached from the start symbol, the reported tokens are exactly those |
| EarleyAnswers.CanStopSound | src/code/constrained_decoding.rs:408-422 | a parse reported complete is one: the start symbol derives the tokens, for every grammar |
| EarleyAnswers.CanStopComplete | src/code/constrained_decoding.rs:408-422 | with a fully closed chart a derivable input is reported complete |
| EarleyAnswers.CanStopExact | src/code/constrained_decoding.rs:408-422 | unless an epsilon rule can be reached from the start symbol, the input is reported complete exactly when the start symbol derives it |
| EarleyAnswers.EpsilonRulesLoseTokens | src/code/constrained_decoding.rs:276-305 | a grammar with epsilon rules and a sentence of it whose token the recogniser does not expect |
| ConstrainedDecoding.ParserFor | src/code/constrained_decoding.rs:78-96 | the parser's indexed rules are the grammar's rules with their weights, each once, and the index lists for each left side exactly its rules |
| ConstrainedDecoding.EarleyChart.Add | src/code/constrained_decoding.rs:143-154 | a state is added at its position exactly when it was not there; `seen` stays the set of the list |
| ConstrainedDecoding.GrammarConstraint.constructor | src/code/constrained_decoding.rs:198-208 | built from a grammar: its parser has the grammar's start symbol and productions, it has read nothing, and its chart is that of the empty input |
| ConstrainedDecoding.GrammarConstraint.Reset | src/code/constrained_decoding.rs:216-221 | back to having read nothing, with a fresh chart and no cache |
| ConstrainedDecoding.GrammarConstraint.Initialize | src/code/constrained_decoding.rs:224-239 | a fresh chart whose first list is complete, and neither position nor cache touched |
| ConstrainedDecoding.GrammarConstraint.Predict | src/code/constrained_decoding.rs:262-271 | adds the rules of the expected non-terminal, starting here, and nothing else |
| ConstrainedDecoding.GrammarConstraint.MoveDots | src/code/constrained_decoding.rs:274-305 | moves the dot for the states that the earlier list held when the loop began, even when it is the list being extended |
| ConstrainedDecoding.GrammarConstraint.ProcessState | src/code/constrained_decoding.rs:249-309 | one turn of the work list adds exactly what its state asks for, by prediction, or by completion over an earlier span or over nothing |
| ConstrainedDecoding.GrammarConstraint.CompleteChart | src/code/constrained_decoding.rs:242-311 | ends for every grammar, changes only this position, and leaves there the list that comes about turn by turn, each state adding just what it asks for |
| ConstrainedDecoding.GrammarConstraint.IsValidToken | src/code/constrained_decoding.rs:314-334 | cached or not: yes only for tokens that extend the input viably, and unless an epsilon rule can be reached from the start symbol, for all of them |
| ConstrainedDecoding.GrammarConstraint.ExpectedMeaning | src/code/constrained_decoding.rs:314-359 | what the list at the current position expects, in terms of derivations from the start symbol |
| ConstrainedDecoding.GrammarConstraint.ValidTokens | src/code/constrained_decoding.rs:337-359 | the set of such tokens; the cache is filled only when the configuration asks and never changes an answer |
| ConstrainedDecoding.GrammarConstraint.Advance | src/code/constrained_decoding.rs:364-405 | succeeds exactly when the token is valid and the chart has room for one more position; then the token is appended and earlier lists stay; a failed call changes nothing |
| ConstrainedDecoding.GrammarConstraint.CanComplete | src/code/constrained_decoding.rs:408-422 | sound for every grammar; unless an epsilon rule can be reached from the start symbol, true exactly when the tokens read are a sentence |
| Pcfg.TotalAfterAdd | src/code/pcfg.rs:131-145 | adding weight to a production adds it to its left side's merged weight and to no other |
| Pcfg.BalancedAfterAdd | src/code/pcfg.rs:131-145 | conservation: each stored total stays the sum of the merged rules and of the indexed list, also when a production is added again |
| Pcfg.IndexedAfterAdd | src/code/pcfg.rs:131-145 | the index lists only rules, each under its left side, and what it lists of a rule adds up to the rule's merged weight |
| Pcfg.ProbabilitiesSum | src/code/pcfg.rs:153-161 | probabilities of one left side sum to one exactly when its total is positive, and to zero otherwise |
| Pcfg.ProbabilityKept | src/code/pcfg.rs:218-242 | one production's probability is the same before and after normalising and equals its new weight |
| Pcfg.NormalizedProbabilities | src/code/pcfg.rs:218-242 | normalising keeps every probability, and changes nothing when the totals already are one |
| Pcfg.NormalizedBalance | src/code/pcfg.rs:218-242 | after normalising, totals of one agree with rules and index exactly when every total was positive |
| Pcfg.WeightedCFG.AddRule | src/code/pcfg.rs:131-145 | merges the weight into the rule and the total, lists the production with its weight under its left side, and keeps the grammar balanced and its index adding up to its rules |
| Pcfg.WeightedCFG.Normalize | src/code/pcfg.rs:218-242 | whatever the grammar's state: keeps every probability, makes weight equal probability and every total one, changes no rule when the totals were one already, so a second call changes nothing; a balanced grammar stays balanced exactly when every total was positive |
| Pcfg.WeightedCFG.NormalizedRules | src/code/pcfg.rs:219-225 | the new weights are the probabilities under the old ones |
| Pcfg.WeightedCFG.RebuildIndex | src/code/pcfg.rs:234-241 | each rule stands under its left side, once, with its weight, in whatever order the map gives |
| Training.RulesOfAllSnoc | src/code/pcfg.rs:320-323 | rules of a list of trees are those of its trees together |
| Training.RulesCounted | src/code/pcfg.rs:290-324 | the rules extracted from trees contain each rule as often as there are nodes visited that show it |
| Training.VisitedInPreorder | src/code/pcfg.rs:320-323 | where no node is in error or missing, extraction comes to all nodes in preorder |
| Training.PcfgTrainer.NamedSymbols | src/code/pcfg.rs:298-312 | the right side: named leaves that carry text as terminals, other named children as non-terminals, unnamed ones left out |
| Training.PcfgTrainer.ExtractRules | src/code/pcfg.rs:290-324 | counts each rule once for every node visited that shows it, where a node shows a rule if it is named, of the kind on the left, and its named children are of the kinds on the right, leaves with text as terminals; error and missing nodes, and what is below them, are not visited |
| Training.PcfgTrainer.TrainFromTrees | src/code/pcfg.rs:274-288 | training on several trees counts each rule once for every node in them that is visited and shows it |
| Training.PcfgTrainer.ToWeightedCfg | src/code/pcfg.rs:327-335 | each rule seen, and no other, gets its count as weight; the grammar has no epsilon rule |
| Training.TreeDerives | src/code/pcfg.rs:290-324 | the rules taken from a tree derive the sequence of its named leaf kinds from its root |
| Training.TrainedTreeAccepted | src/code/constrained_decoding.rs:314-422 | a recogniser whose grammar includes a tree's rules expects each token of that tree in turn and may stop at its end |
| Training.TrainThenDecode | src/code/pcfg.rs:274-335 | end to end, for all trees: train, build the constraint, feed a training tree's tokens that fit the chart; every one is accepted and the parse reports complete |
| BpeMerges.PassConcat | src/embedding/bpe.rs:429-446 | a pass never changes the text its symbols spell |
| BpeMerges.StageConcat | src/embedding/bpe.rs:357-407 | so a whole training run does not either: every split spells its word and the marker |
| BpeMerges.PassEliminates | src/embedding/bpe.rs:429-446 | after a pass the pair is nowhere in the split |
| BpeMerges.FromStage | src/embedding/bpe.rs:357-407 | replaying all merges is replaying a first part and then the rest |
| BpeMerges.RanksOf | src/embedding/bpe.rs:83-87 | each ranked pair has the position of a merge that makes it, and every merge's pair is ranked |
| BpeAgreement.BestIsUnique | src/embedding/bpe.rs:149-161 | lowest rank, then leftmost, names one position |
| BpeAgreement.PassAfterLeftmost | src/embedding/bpe.rs:131-179 | merging the leftmost occurrence first and then making the pass is the pass: the confluence step |
| BpeAgreement.RanksStayFrom | src/embedding/bpe.rs:131-179 | with stratified merges, a merge never brings back a pair of lower rank |
| BpeAgreement.LeftmostIsBest | src/embedding/bpe.rs:149-161 | when no lower rank is left, the encoder picks this merge's leftmost pair |
| BpeAgreement.GreedyIsFrom | src/embedding/bpe.rs:131-179 | the encoder from any intermediate point equals the passes still to make |
| BpeAgreement.GreedyIsReplay | src/embedding/bpe.rs:131-179 | for every stratified merge list and every symbol sequence, lowest-rank-leftmost encoding equals one pass a merge in order |
| BpeAgreement.GreedyExhausts | src/embedding/bpe.rs:147-171 | when the encoder stops, no ranked pair is left, stratified or not |
| BpeAgreement.LayeredIsStratified | src/embedding/bpe.rs:131-179 | merges that use only initial symbols and earlier results, none producing an initial symbol or another's result, are stratified |
| BpeAgreement.PassOnce | src/embedding/bpe.rs:429-446 | where a pair stands only once, the pass merges it and nothing else |
| BpeTrained.PassSplits | src/embedding/bpe.rs:429-446 | a pass's result can be cut anywhere, and the two parts are passes of two parts |
| BpeTrained.StageSegment | src/embedding/bpe.rs:357-407 | a stretch of a word's split is the split of a stretch of the word |
| BpeTrained.Origin | src/embedding/bpe.rs:357-407 | each learned merge comes from a stretch of a training word that had been reduced to just its two parts |
| BpeTrained.ResultsDistinct | src/embedding/bpe.rs:357-407 | no two learned merges make the same token, if inside no word the marker stands right behind a character in which a longer word than one character closes |
| BpeTrained.ResultNotInitial | src/embedding/bpe.rs:357-407 | no merge learned from words without the marker makes a token that is an initial symbol |
| BpeTrained.PartsGrounded | src/embedding/bpe.rs:357-407 | each learned merge uses only initial symbols and results of earlier merges |
| BpeTrained.LearnedLayered | src/embedding/bpe.rs:357-407 | merges learned from words without the marker are built up in layers: initial symbols, then earlier results, every result new |
| BpeTrained.MarkerFreeIsApart | src/embedding/bpe.rs:333-354 | words without the marker inside meet the weaker condition |
| BpeTrained.StretchUnique | src/embedding/bpe.rs:333-354 | under it, the text a stretch spells tells which characters it is and whether it closes a word |
| BpeStratified.ApartIsOnlyAtOwnEnd | src/embedding/bpe.rs:333-354 | suffixes that are apart meet the weaker condition: a closing character precedes the marker inside a word at most in its own word, followed by that character alone |
| BpeStratified.BoundEarlier | src/embedding/bpe.rs:357-407 | where a symbol ends after some merges, one ended before |
| BpeStratified.PartsNotProducedLater | src/embedding/bpe.rs:357-407 | under the weaker condition, no learned merge produces what it or an earlier one uses |
| BpeStratified.PairGone | src/embedding/bpe.rs:357-407 | and once a pair has been merged it never stands in a training word again |
| BpeStratified.LearnedStratified | src/embedding/bpe.rs:357-407 | so everything learned from such words is stratified, whatever the frequencies and ties |
| BpeStratified.LearnedAgree | src/embedding/bpe.rs:131-179 | with such merges the encoder agrees with the trainer on every word, seen or not |
| BpeMarker.PrepAround | src/embedding/bpe.rs:429-446 | the merges that build the marker's characters into symbols work inside a word without touching what is around them |
| BpeMarker.PairLeftDisagrees | src/embedding/bpe.rs:131-179 | where the passes leave a ranked pair, the encoder's result is another |
| BpeMarker.WitnessDisagrees | src/embedding/bpe.rs:131-179 | with breaking merges, of which the last spells what an earlier one uses, a word is encoded differently from the trainer's passes |
| BpeBreaking.BreakingLearned | src/embedding/bpe.rs:357-407 | breaking merges can be learned from any words with a closing character before the marker, unless both words end in that same stretch or the stretch reads "></w><" |
| BpeBreaking.OncePlaceBreaks | src/embedding/bpe.rs:131-179 | and so such a place breaks the agreement, whatever the other words are |
| BpeRepeats.RepeatBreaks | src/embedding/bpe.rs:131-179 | so does a '>' before the marker with at least two more characters behind it, in however many copies of the marker |
| BpeTwice.Separate | src/embedding/bpe.rs:357-407 | what stands before the common end of two different words can be merged until it ends in different symbols, with the end left as it is |
| BpeTwice.SameEndBreaks | src/embedding/bpe.rs:131-179 | so two different words that both end in a character, the marker and that character again break it too |
| BpeExact.OnePlaceBreaks | src/embedding/bpe.rs:131-179 | whatever the other words are, one place at which a closing character precedes the marker, other than right before the end of its own word, breaks the agreement |
| BpeExact.SurelyAgree | src/embedding/bpe.rs:131-179 | if there is no such place, encoder and trainer agree on every word with everything that can be learned |
| BpeExact.AgreeExactly | src/embedding/bpe.rs:131-179 | for every set of training words: encoder and trainer agree on every word with everything that can be learned exactly when a closing character precedes the marker inside a word at most in its own word, right before the end |
| BpeChosen.MarkerBreaksAgreement | src/embedding/bpe.rs:357-407 | two words, each counted five times, for which the trainer's frequency rule can choose merges with which encoder and trainer split the second word differently |
| BpeTokenizing.SplitWhitespace | src/embedding/bpe.rs:184-192 | the pieces are non-empty and contain no whitespace |
| BpeTokenizing.WordsKeepLetters | src/embedding/bpe.rs:184-192 | the words are all the text but its whitespace, in order |
| BpeTokenizing.JoinedSplits | src/embedding/bpe.rs:184-192 | words joined by single spaces split into just those words |
| BpeTokenizing.SplitAtWhitespace | src/embedding/bpe.rs:184-185 | at any whitespace character a text splits into the words before it and the words behind it |
| BpeTokenizing.WhitespaceIs | src/embedding/bpe.rs:184-185 | which 25 characters are whitespace |
| BpeTokenizing.TrimEnd | src/embedding/bpe.rs:215 | what is cut off is whitespace only, and no whitespace is left at the end |
| BpeTokenizing.IdsStandFor | src/embedding/bpe.rs:189 | for all tokens and vocabularies: the ids are those of the tokens that have one, in order; looked up again they give just these tokens if ids can be inverted |
| BpeTokenizing.EncodedIdsAre | src/embedding/bpe.rs:184-199 | encoding to ids looks up the tokens that encoding to tokens gives |
| BpeTokenizing.OthersPassedOver | src/embedding/bpe.rs:202-204 | ids without a place in the table might as well not be there |
| BpeTokenizing.Spell | src/embedding/bpe.rs:207-212 | a token with the end marker behind it is spelled without it and with a space, any other as it is |
| BpeTokenizing.MergeKeepsSplit | src/embedding/bpe.rs:163-169 | a merge in the encoder keeps a split of the word into vocabulary tokens |
| BpeTokenizing.GreedyKeepsSplit | src/embedding/bpe.rs:131-179 | so the encoder's result is one |
| BpeTokenizing.WordRoundTrip | src/embedding/bpe.rs:202-216 | the ids of any split of a marker-free word decode to the word and a space |
| BpeTokenizing.WordsRoundTrip | src/embedding/bpe.rs:184-216 | the ids of several words decode to the words, a space after each |
| BpeTokenizing.RoundTrip | src/embedding/bpe.rs:184-216 | decoding an encoded text gives its words joined by single spaces |
| BpeTokenizing.DenseInvertible | src/embedding/bpe.rs:76-81 | looking a token's id up in the reverse table gives the token back for all tokens exactly when the ids are distinct and below the size of the vocabulary |
| BpeTokenizing.BpeTokenizer.constructor | src/embedding/bpe.rs:75-97 | ranks and reverse table belong to the vocabulary and the merges; places of the table that are no token's id are empty |
| BpeTokenizing.BpeTokenizer.FindBest | src/embedding/bpe.rs:149-161 | finds the lowest-rank, leftmost pair, or that there is none |
| BpeTokenizing.BpeTokenizer.EncodeWord | src/embedding/bpe.rs:131-179 | the greedy encoding of the word, from the cache or not; the cache only ever holds such encodings, at most 100000 of them, and takes this one in while it has room |
| BpeTokenizing.BpeTokenizer.LookUp | src/embedding/bpe.rs:188-189 | ids of the tokens that have one, in order, whatever the tokens; looked up again they give just these tokens if ids can be inverted |
| BpeTokenizing.BpeTokenizer.Encode | src/embedding/bpe.rs:184-192 | ids of the words' encodings, in order, those tokens left out that have no id |
| BpeTokenizing.BpeTokenizer.EncodeToTokens | src/embedding/bpe.rs:195-199 | the tokens of the words' encodings, in order |
| BpeTokenizing.BpeTokenizer.Decode | src/embedding/bpe.rs:202-216 | the tokens' text with each closing marker as a space, trimmed at the end; ids out of range are passed over |
| BpeTraining.CountPairFrequencies | src/embedding/bpe.rs:410-426 | each pair that occurs, and no other, with its occurrences weighted by word frequency; a word without one counts for nothing |
| BpeTraining.WeightedPlaces | src/embedding/bpe.rs:417-423 | a pair counts with the word's frequency for every place at which it stands, overlapping or not |
| BpeTraining.CountInWord | src/embedding/bpe.rs:417-423 | one word adds its frequency to each pair for every place at which the pair stands |
| BpeTraining.PassShrinks | src/embedding/bpe.rs:429-446 | a pass never lengthens a split, shortens it when the pair occurs, and leaves no occurrence |
| BpeTraining.MergeShrinks | src/embedding/bpe.rs:429-446 | an accepted merge strictly shrinks the total number of symbols and removes its pair from every word |
| BpeTraining.ChosenNext | src/embedding/bpe.rs:366-405 | a most frequent pair at or above the minimum extends a list of chosen merges |
| BpeTraining.ChosenLearned | src/embedding/bpe.rs:366-405 | chosen merges are learned ones: each pair occurred in some word when it was chosen |
| BpeTraining.SplitsSpell | src/embedding/bpe.rs:357-407 | after any number of merges every split spells its word and the marker |
| BpeTraining.SymbolsStayIn | src/embedding/bpe.rs:357-407 | and its symbols are initial ones or results |
| BpeTraining.BpeTrainer.InitializeVocab | src/embedding/bpe.rs:333-354 | each word split into its characters with the marker on the last, and the vocabulary of just those symbols |
| BpeTraining.BpeTrainer.MergeWord | src/embedding/bpe.rs:436-445 | the scan over one word makes the pass |
| BpeTraining.BpeTrainer.ApplyMerge | src/embedding/bpe.rs:429-446 | the pass over every word |
| BpeTraining.BpeTrainer.MostFrequent | src/embedding/bpe.rs:370-374 | some pair of highest count, whichever the map order gives among ties, or none |
| BpeTraining.BpeTrainer.LearnMerges | src/embedding/bpe.rs:357-407 | every merge a most frequent pair when chosen; every split spells its word and the marker, with all its symbols in the vocabulary; the vocabulary is the initial one and the results; if anything is merged, initial symbols and merges together are no more than the target size, and if they are fewer, no pair reaches the minimum frequency; at most total symbols less one a word of merges |
| BpeTraining.VocabularySize | src/embedding/bpe.rs:383-384 | each merge adds at most one token, so the vocabulary keeps to its target size |
| BpeTraining.BpeTrainer.NumberSpecials | src/embedding/bpe.rs:290-294 | a special token's id is its last place in the list, and ids are all different exactly when the tokens are |
| BpeTraining.BpeTrainer.NumberTokens | src/embedding/bpe.rs:286-302 | just the special and the learned tokens get ids: special ones their last place in the list, all others ids behind those; ids are distinct and dense exactly when the special tokens are distinct |
| BpeTraining.BpeTrainer.Train | src/embedding/bpe.rs:268-305 | the merges are chosen by frequency; the vocabulary is just special tokens, initial symbols and results, no larger than the target size and the special tokens; merges and initial symbols keep to the target size, and stop short of it only when no pair is frequent enough; every final split spells its word in tokens that have ids; ids can be inverted exactly when the special tokens are distinct; if inside no word the marker stands right behind a closing character, but at most at the end of that closing word, every training word encodes to its final split |
| BpeTraining.TrainEncodeDecode | src/embedding/bpe.rs:184-305 | end to end: train, encode, decode gives the words joined by single spaces, for all texts of marker-free words over the symbols of the training words |
| Prefetch.Clamp | src/corpus/prefetch.rs:140-149 | the value within the bounds, or else the bound it passed |
| Prefetch.ComputeBufferBatches | src/corpus/prefetch.rs:140-149 | between 2 and 32; more than 2 only if that many batches, of a hundred bytes a sentence, fit in the share of the memory available, fewer than 32 only if one more would not |
| Prefetch.EffectiveBufferBatches | src/corpus/prefetch.rs:105-111 | the channel's capacity: without automatic tuning what is configured, raised to 2 or cut to 64; with it, what the share of the memory available holds |
| PrefetchProofs.ContentKept | src/corpus/prefetch.rs:432-462 | a producer step loses no sentence as long as it does not stop or panic |
| PrefetchProofs.ShapeAfterSend | src/corpus/prefetch.rs:446-474 | what is sent keeps its shape: full batches, then at most one partial one, then one terminal message |
| PrefetchProofs.InvKept | src/corpus/prefetch.rs:281-475 | one step of either thread keeps the protocol's invariant |
| PrefetchTheorems.Conservation | src/corpus/prefetch.rs:281-475 | in every reachable state before stop or panic: yielded, current batch, channel, partial batch and unread input, in this order, are the corpus |
| PrefetchTheorems.DeliveredIsPrefix | src/corpus/prefetch.rs:281-475 | in every reachable state, stopped or panicked ones too, what is delivered is a prefix of the corpus |
| PrefetchTheorems.OneTerminalMessage | src/corpus/prefetch.rs:456-474 | at most one terminal message is sent, nothing follows it, and it says error exactly when the reader panicked |
| PrefetchTheorems.TerminalStillThere | src/corpus/prefetch.rs:281-308 | a consumer that waits for a producer that is gone still finds a message, so the channel is never seen closed |
| PrefetchTheorems.NeverBothBlocked | src/corpus/prefetch.rs:281-308 | consumer and producer are never blocked together |
| PrefetchTheorems.BatchesOfEnded | src/corpus/prefetch.rs:446-462 | a finished stream has the corpus length over the batch size, rounded up, many batches |
| PrefetchTheorems.UndisturbedRunDelivers | src/corpus/prefetch.rs:281-334 | a run without stop or panic that comes to rest has yielded the whole corpus in that many batches, all full but perhaps the last |
| PrefetchTheorems.EveryRunEnds | src/corpus/prefetch.rs:281-334 | stopped, panicked or neither, a run that comes to rest before a drop has ended: the consumer knows it, has been given just what was sent, and the last message says whether the reader panicked |
| PrefetchTheorems.OneAtATime | src/corpus/prefetch.rs:281-474 | one step reads one sentence, sends one message or takes one; a call that returns has given one sentence, or one batch where batches are asked for, or has come to the end |
| PrefetchTheorems.RankDrops | src/corpus/prefetch.rs:281-475 | every step of either thread lowers one measure |
| PrefetchTheorems.RunsAreShort | src/corpus/prefetch.rs:281-475 | so every interleaving ends, within 7 n + 15 steps for n sentences |
| PrefetchTheorems.AtMostTwoAfterStop | src/corpus/prefetch.rs:432-474 | once the flag is set the producer sends at most two more messages, in every interleaving |
| PrefetchTheorems.DropNeverStuck | src/corpus/prefetch.rs:337-357 | with capacity at least two, at every point of a drop some step is possible, and while joining the producer's is |
| PrefetchTheorems.DropTerminates | src/corpus/prefetch.rs:337-357 | every interleaving of a drop is bounded, and where it ends the thread is joined and both are gone; the reader's panic included |
| PrefetchTheorems.EveryDropEnds | src/corpus/prefetch.rs:205-239 | so for a reader made from any configuration, with any memory available |
| PrefetchTheorems.CapacityOneHangs | src/corpus/prefetch.rs:337-357 | with capacity one, a reachable state in which the join waits for a producer that can never move: the bound is tight |
| Correcting.Insert | src/code/correction.rs:211-215 | the new element and the old ones, no more and no less |
| Correcting.InsertSorted | src/code/correction.rs:211-215 | a sorted list stays sorted |
| Correcting.SortDescending | src/code/correction.rs:211-215 | a sorted permutation |
| Correcting.SortStable | src/code/correction.rs:211-215 | equal confidences keep their order |
| Correcting.StableSortUnique | src/code/correction.rs:211-215 | any sorted list that keeps equal elements in order is the result, so this is the library's stable sort |
| Correcting.BestInsert | src/code/correction.rs:208-223 | cutting before inserting and cutting again loses nothing |
| Correcting.BestOfAdded | src/code/correction.rs:208-223 | one more element: sorting and cutting the kept ones gives the best of everything added |
| Correcting.BestIsFirst | src/code/correction.rs:208-223 | the first part of the sort, in terms of confidences: descending, as many as there can be, none left out better than one kept |
| Correcting.CorrectionCandidates.Add | src/code/correction.rs:208-223 | the kept list is, after every call, the first part of the stable descending sort of everything ever added: in descending confidence, as many as there can be, none left out better than one kept |
| Correcting.CorrectionCandidates.AddAll | src/code/correction.rs:226-230 | the same for a whole list |
| Pipeline.ApplyCorrections | src/code/pipeline.rs:415-435 | applies the corrections from the highest start down, skipping those out of bounds of the text so far; if none overlaps another, the result is the substitution, all at once, of just those that start inside the text and end no later than it |
| Pipeline.SplicePrepend | src/code/pipeline.rs:425-432 | replacing in front of already spliced text is splicing one more correction |
| Pipeline.BackToFrontIsSplice | src/code/pipeline.rs:415-435 | applying from the back equals splicing the original in one pass from the left, nothing skipped, if none starts at the end |
| Pipeline.SeparateIsBackToFront | src/code/pipeline.rs:420-422 | sorting corrections that do not overlap puts each wholly before the one handled before it |
| Pipeline.BackToFrontResult | src/code/pipeline.rs:415-435 | in general the splice is the result followed by the text the last correction would insert at the end |
| Pipeline.OnlyFittingApplied | src/code/pipeline.rs:415-435 | of corrections that do not overlap, wherever they lie, exactly those that start inside the text and end no later than it are substituted, all at once; one that ends past the text leaves no trace |
| Pipeline.FittingFromTheBack | src/code/pipeline.rs:420-422 | leaving out what does not fit commutes with the sort |
| Pipeline.TwoAtOnePlace | src/code/pipeline.rs:420-432 | of two corrections at the same place the one listed first is applied first, so an insertion listed second ends up in front of it, or is dropped if the first one has left nothing behind |
| Pipeline.AppliedIsSimultaneous | src/code/pipeline.rs:415-435 | for corrections in range, apart from each other and in any order, the result is the simultaneous substitution exactly when none inserts text at the very end of the source |
| Collecting.MinimumExists | src/code/pipeline.rs:106-107 | a heap that is not empty has a least element |
| Collecting.ServedAfterSwap | src/code/pipeline.rs:106-123 | replacing the least element by a better one serves everything that was served |
| Collecting.TopBestSwapped | src/code/pipeline.rs:106-123 | so the kept corrections stay the best of all offered, whatever their keys |
| Collecting.TopBestPushed | src/code/pipeline.rs:99-104 | as they do while there is room |
| Collecting.RepeatServed | src/code/pipeline.rs:87-97 | an offer passed over for its key is no loss if no offer is better than its key's first |
| Collecting.FallingRepeats | src/code/pipeline.rs:87-97 | that is so if equal keys agree or repeats never rise |
| Collecting.FloorNeverFalls | src/code/pipeline.rs:106-123 | a full heap stays full and its least confidence never falls |
| Collecting.BestExactly | src/code/pipeline.rs:81-126 | the kept ones are the best if no offer is better than the first of its key, whatever the size; with a place for every key, only then |
| Collecting.StreamingCorrectionCollector.KeepsTheBestExactly | src/code/pipeline.rs:81-133 | the same of a collector after any stream |
| Collecting.StreamingCorrectionCollector.Add | src/code/pipeline.rs:81-126 | accepted exactly when confident enough, no kept correction has the same range and replacement, and there is room or something less confident, of which a least one goes; no two kept ones have the same range and replacement; keeping the best is lost by exactly the calls that offer a kept key at the threshold or above with more confidence than it is kept with |
| Collecting.StreamingCorrectionCollector.AddAll | src/code/pipeline.rs:129-133 | offers the stream in order; afterwards the kept ones are the best of everything offered if no offer is better than the first of its key, and with a place for every key only then |
| Collecting.StreamingCorrectionCollector.Finalize | src/code/pipeline.rs:136-153 | the kept corrections, all of them, in descending confidence |
| Collecting.BetterDuplicateIgnored | src/code/pipeline.rs:87-123 | a collector of size one and three offers after which one at the threshold or above is lost to a worse one, and the kept ones are not the best |
| Ast.AstNodeIterator.constructor | src/code/ast.rs:225-227 | everything in preorder is still to come |
| Ast.AstNodeIterator.Next | src/code/ast.rs:233-241 | gives the next node in preorder, and none exactly when all have been given |
| Ast.UnstackedPush | src/code/ast.rs:233-240 | what pushing one more subtree adds |
| Cpg.PairsAscend | src/code/cpg.rs:374-430 | each tree edge goes from a smaller to a larger id, inside the subtree's contiguous range |
| Cpg.ParentExists | src/code/cpg.rs:374-430 | every id but the first has a parent |
| Cpg.ParentUnique | src/code/cpg.rs:374-430 | and only one |
| Cpg.TreeEdges | src/code/cpg.rs:374-430 | the child edges are exactly the tree's parent-child pairs, one less than there are nodes |
| Cpg.SubtreeIsRange | src/code/cpg.rs:374-430 | each subtree is a contiguous range of ids: from a node's id on, the preorder of the whole is the preorder of that node's subtree |
| Cpg.SubtreePairs | src/code/cpg.rs:374-430 | the edges within a subtree's range are those of the subtree laid out on its own from that id |
| Cpg.ClassifyIsFirst | src/code/cpg.rs:432-462 | a node is of the first kind, in a fixed order of precedence, that its name suggests |
| Cpg.NodeFor | src/code/cpg.rs:375-384 | a graph node carries its id, the syntax node's kind, text and byte range, and the class of that kind |
| Cpg.DepthsRange | src/code/cpg.rs:299-328 | a subtree's depths cover exactly its range of ids |
| Cpg.DepthsStep | src/code/cpg.rs:299-328 | a child is one deeper than its parent |
| Cpg.ClosedReachesAll | src/code/cpg.rs:299-328 | a set of depths with nothing left to visit contains everything reachable, at no more than its distance |
| Cpg.TreeDepths | src/code/cpg.rs:299-328 | distances in the graph of a tree are those in the start node's subtree |
| Cpg.CodePropertyGraph.BuildFromAst | src/code/cpg.rs:374-430 | numbers the nodes in preorder and adds exactly the child and sibling edges of the tree |
| Cpg.CodePropertyGraph.BuildChildren | src/code/cpg.rs:410-427 | the same for the children of one node, with an edge between neighbours |
| Cpg.CodePropertyGraph.Visit | src/code/cpg.rs:312-323 | one node's turn: new children one deeper, at the end of the queue, in any order of its edges |
| Cpg.CodePropertyGraph.ComputeDepths | src/code/cpg.rs:299-328 | shortest distances over child edges from the entry, for exactly the nodes reachable, in any graph and whatever other edges it has |
| Cpg.CodePropertyGraph.ComputeChildCounts | src/code/cpg.rs:331-346 | for each node the number of its child edges |
| Cpg.CodePropertyGraph.Targets | src/code/cpg.rs:485-491 | the targets of a node's edges of one kind, each as often as there are edges, in any order |
| Cpg.CodePropertyGraph.BuildFlow | src/code/cpg.rs:484-559 | the flow edges of one node, whatever order the graph library has: a branch one to a child if there are two, and one to another child if there are three; a loop one to a child and one back from a child, another one if there are several, and one to a later sibling |
| Cpg.CodePropertyGraph.VisitNode | src/code/cpg.rs:472-560 | one node's turn: entry, exit or flow edges by its kind |
| Cpg.CodePropertyGraph.BuildCfg | src/code/cpg.rs:465-564 | only adds flow edges, each node just those that fit it: one back edge into each loop with children, from a child, and none elsewhere; the first function becomes the entry unless there is one, the return nodes the exits; tree edges stay |
| Cpg.CodePropertyGraph.AddDataFlow | src/code/cpg.rs:566-628 | data-flow edges, whichever they are, leave the graph valid and its tree edges as they were |
| Cpg.FlowFollowsTree | src/code/cpg.rs:484-559 | each flow edge follows a tree edge: true and false out of a branch to a child, true out of a loop to a child and back from a child, false out of a loop to its sibling |
| Cpg.FlowLeaves | src/code/cpg.rs:484-559 | exactly the branches with two children and the loops with one have a true edge out; exactly the branches with three and the loops with a later sibling a false one |
| Cpg.FlowOfNode | src/code/cpg.rs:484-559 | all flow edges that leave a branch or a loop, or go back into a loop, counted and placed without naming an order of edges; no other node has any |
| Cpg.FlowBesideFlow | src/code/cpg.rs:484-559 | flow edges added before do not change what a later node gets |
| Cpg.DepthsOfTree | src/code/cpg.rs:159-166 | from a tree to its depths, with control flow and any data-flow edges in between: exactly the ids of the subtree of the first function node, or of the whole tree without one, which is the node with the entry id and a contiguous range of ids, at their distances in the tree |
| TreeShape.ChildrenInTree | src/code/cpg.rs:374-430 | a node's child edges lead to its children, by their ids and in order |
| TreeShape.SiblingsInTree | src/code/cpg.rs:410-427 | each child's one sibling edge leads to the next child of the same node, and the last child has none |
| TreeShape.ShapeOfTree | src/code/cpg.rs:374-430 | both for all nodes of a tree, whatever flow has been added: a child's id is where it stands in preorder |
| TreeShape.FlowOfTree | src/code/cpg.rs:484-559 | in the graph of a tree, whatever the order of edges: a branch of three children is left by a true and a false edge to different children; a loop is entered by one back edge, and its way in and its way back are different children if it has several |
| ChildCounts.CountInTree | src/code/cpg.rs:331-346 | edge counts of a laid-out tree, for every id inside and outside it |
| ChildCounts.CountsOfTree | src/code/cpg.rs:331-346 | in a tree's graph each node's count is its number of children, whatever flow edges there are |
| ChildCounts.TargetsCounted | src/code/cpg.rs:335-345 | in any graph a node's targets of a kind are as many as the edges of that kind that leave it |
| Edits.Boundary | src/code/ast.rs:34-35 | the character a byte offset falls before, or that it falls inside one |
| Edits.BoundaryAt | src/code/ast.rs:34-35 | each number of characters has its own byte offset |
| Edits.ByteOffsetToPosition | src/code/ast.rs:33-52 | line and column of the text before the offset, the end of the source for offsets past it, and a panic exactly inside a character |
| Edits.PlaceAppend | src/code/ast.rs:393-400 | where a text ends depends only on where it starts, how many lines it has and how long the last is |
| Edits.InsertionEnds | src/code/ast.rs:393-410 | the new end byte is a boundary of the new source; the new end position is right for columns in bytes, and for columns in characters exactly when the last inserted line has only one-byte characters |
| Edits.InsertionDescribes | src/code/ast.rs:393-410 | all six fields say where the old and the new text begin and end: always with columns in bytes, with columns in characters exactly when the last inserted line has only one-byte characters |
| Edits.DeletionDescribes | src/code/ast.rs:414-428 | so do those of a deletion, however columns are counted |
| Edits.InsertionUndone | src/code/ast.rs:393-428 | deleting what an insertion put in is that insertion the other way round |
| Edits.Utf8Width | src/code/ast.rs:33-52 | the least number of bytes that can carry the character in UTF-8 |
| Features.FrameCount | src/acoustic/features.rs:905-910 | one frame for audio up to a frame long, none exactly for no audio, and else the last frame fits and one more would not |
| Features.ApplyPreEmphasis | src/acoustic/features.rs:551-564 | each sample less the weighted sample before it; a weight of zero changes nothing |
| Features.ExtractFrame | src/acoustic/features.rs:567-579 | a stretch of the signal, zeros after its end |
| Features.ExtractFrames | src/acoustic/features.rs:692-711 | frames start at 0, S, 2S, ..., as many as the count promises |
| Features.DrainFitsWhen | src/acoustic/features.rs:963-978 | for a shift within the frame, draining exceeds the buffer exactly when it is not empty and shorter than a shift |
| Features.FullFramesDrain | src/acoustic/features.rs:963-978 | extracting from at least one frame never panics exactly when the shift is within the frame |
| Features.StreamingFeatureExtractor.AddSamples | src/acoustic/features.rs:950-953 | appends and reports the frames available |
| Features.StreamingFeatureExtractor.ExtractFilterbank | src/acoustic/features.rs:963-978 | the buffer's frames, with one shift a frame drained and counted; or a panic that leaves the buffer |
| Features.StreamingFeatureExtractor.FlushFilterbank | src/acoustic/features.rs:999-1013 | the frames of the buffer padded with zeros to one frame; the buffer is emptied and the count of samples processed stays |
| Features.StreamingFeatureExtractor.Reset | src/acoustic/features.rs:1032-1035 | back to an empty buffer and no samples processed |
| Features.AddKeepsAligned | src/acoustic/features.rs:950-953 | more audio does not change the frames given out |
| Features.ExtractKeepsAligned | src/acoustic/features.rs:963-978 | extraction from a full frame keeps the buffer the audio from the samples processed on, and brings the number of frames to that of the whole recording |
| Features.CarefulRunsAlign | src/acoustic/features.rs:950-978 | in every run that extracts only from full frames or from nothing, no drain panics and the stream stays aligned |
| Features.StreamMatchesBatch | src/acoustic/features.rs:950-978 | after any such run the frames are those of one call on all the audio, in number and place and sample for sample, but for the first sample of each later call, which differs by the pre-emphasis of the sample before it |
| Features.ShortExtraction | src/acoustic/features.rs:963-978 | extraction from less than a frame goes through with the right count exactly when it is the first and a shift is there |
| Features.FlushIsPaddedExtraction | src/acoustic/features.rs:999-1013 | flushing gives what an extraction would after adding the padding, so its count is that of the padded recording |

## Left out

- EarleyAnswers.EarleyExactness: assumes that no epsilon rule can be reached from the start symbol, because the code is not complete otherwise; `ExactIffNullClosed` is the exact condition on a chart and `EpsilonRulesLoseTokens` a failing grammar. Which grammars with reachable epsilon rules still give exact charts depends on the order in which a hash map yields the rules.
- BpeExact.AgreeExactly: ranges over all merges that some order of choices can learn from the words; which of them frequencies can choose is shown for one pair of words, by `BpeChosen.MarkerBreaksAgreement`.
- BpeTokenizing.RoundTrip: asks for words without the marker inside and with their symbols in the vocabulary, since the decoder reads a marker as a space and the encoder skips unknown symbols.
- Collecting.StreamingCorrectionCollector.KeepsTheBestExactly: with fewer places than keys, gives no condition on the stream alone that is also necessary, because it would depend on which of several least entries the heap gives up; the contract of `Add` has the exact condition call by call.
- Cpg.CodePropertyGraph.BuildFlow: does not say which child gets which flow edge, because the graph library orders a node's edges.
- ConstrainedDecoding.GrammarConstraint.Initialize: is public in the source and leaves position and cache alone; the model calls it only from the constructor and `Reset`, as the source does.
- ConstrainedDecoding.ParserFor: keeps the start symbol and the rules of the grammar; the constraint's copy of the grammar's other fields is not kept.
- Floating point: rounding, infinities and NaN; weights, confidences, memory fractions and samples are reals.
- Machine integers: overflow of `usize`, `u32` ids and `u64` counts.
- Prefetching is a state machine over both threads rather than a class; the corpus is finite, the memory probe is a parameter, and the producer's branch for a receiver already dropped is absent because both drops keep the receiver alive until the thread has been joined. Nothing is claimed about a batch iterator made from a reader that has begun to yield.
- The binary heap's own layout: the collector's heap is a multiset of which some least element can be removed.
- Corrections keep positions, texts and confidence; kind, source and context and the filters over them are not part of this model, nor is the panic of replacing inside a character.
- Reading a corpus and counting and lower-casing its words: training starts from non-empty words with their counts.
- In the code property graph: which data-flow edges are added (`DepthsOfTree` takes any), edge labels, the maps by location and variable, and the queries over them.
- Graph node and edge storage of the graph library, and tree-sitter: a syntax tree is a datatype, ids are indices, and line and column fields of nodes are not carried.
- Window weights, spectra, mel and cepstral filters, normalisation and delta features; the other three extraction functions share the frame loop of the one modelled.
- The finite-state export in `src/code/wfst_export.rs`: it goes on from a non-terminal's entry state, so there is no preservation of language to prove.
- Token masks, decoding vocabularies, subword hashing, quality statistics and other simple tables and counters, which would add only easy members.
- Storage, checkpoints, sharding, importers, neural models and command lines.
