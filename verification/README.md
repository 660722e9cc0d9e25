# Prediction-based speculative decoding, modelled in Dafny

This project models the core of a Huffman decoder that speculates: it
guesses where the next codewords start, decodes at several offsets at once,
and keeps the chain of decodes that line up. The model is written as pure
functions over immutable data. It is organised in modules:

- `Huffman` holds the frequency table, the Huffman tree and the code map.
  It covers `build_huffman_tree`, `generate_huffman_codes`/`generate`,
  `encode`, `decode`, `build_decoding_tree` and `get_bit_lengths`.
  `HuffmanProperties` proves three things: the generated code is a binary
  prefix code; encoding and then decoding returns the data; and a decoding
  tree rebuilt from a code regenerates exactly that code.
- `DecodingStatistics` holds the counters record of a decoder.
  `SingleDecoder` models one decode attempt at a bit offset (`_decode`) and
  the statistics it keeps. `SingleDecoderProperties` ties that attempt to
  the codewords of the tree, in both directions.
- `SpeculativeDecoder` models `speculate` and the `decode` loop.
  `SpeculativeProperties` proves the end-to-end guarantee. Speculative
  decoding of an encoded message returns exactly that message. This holds
  whatever the predictor guesses, as long as no negative chain cap is set.
- `Predictors` models the base, static and dynamic predictors and the
  zero-order reconstructor. `PredictorProperties` states what each one
  predicts after feeding and after reconstruction.
- `KGram` is the k-gram model. It is related to a reference state computed
  from the whole history of fed symbols.
- `ConditionalScheme` covers the probabilities conditioned on the context,
  the ranking per context and the assignment table. `SimpleScheme` covers
  an outcome list with probabilities and its top-`n`.
- `Variants` covers the j-sets, the baseline set, `_for_future` and the
  v-set.
- `Wrappers`, `Collections` and `Counters` are supporting modules.
  - `Wrappers` holds the `Result`/`Option` types.
  - `Collections` holds sorting, `Take` (Python's `[:n]`) and the
    distinct-element lemmas.
  - `Counters` holds counters kept as lists of `(key, count)` in the order
    keys were first counted, which is how a Python dict iterates them.

Representation choices:

- Huffman symbols are integers. The k-gram model's symbols, and the
  lengths the predictors and schemes work on, are natural numbers.
- Bit strings are `seq<char>`, as in the source, which works on `str`.
- Python's `None` root or child is the tree `Nil`.
- Python floats are `real`.
- Exceptions the source raises are `Err` values of a `Result`:
  - an unknown symbol in `encode`;
  - a missing child in `decode`;
  - the base predictor's missing method: `predict` and `reconstruct` raise
    `NotImplementedError`, and `implicitly_predict`, which it does not
    define, raises `AttributeError`;
  - `KeyError` of an unseen context;
  - `max([])`;
  - `IndexError` and `ValueError` in the simple scheme.
- Where the source iterates a dict whose order the result depends on, the
  model fixes one order, ascending keys. This applies to the heap seeding in
  `build_huffman_tree`.

## Model

| member | source | states |
|---|---|---|
| DecodingStatistics.Default | source/decoders/DecodingStatistics.py:8-12 | a fresh record has every counter at zero and satisfies the counting invariant (total = successes + failures) |
| DecodingStatistics.Reset | source/decoders/DecodingStatistics.py:28-34 | whatever the counters held, reset gives the fresh record |
| DecodingStatistics.SuccessRate | source/decoders/DecodingStatistics.py:15-19 | 0 before any call; otherwise rate × total = successes; within [0, 1] whenever the counters are consistent |
| DecodingStatistics.AverageBitsPerDecode | source/decoders/DecodingStatistics.py:22-26 | 0 before any call; otherwise average × total = bits processed; never negative |
| DecodingStatistics.ToDict | source/decoders/DecodingStatistics.py:36-46 | the dictionary carries the five counters unchanged and the two derived rates |
| Huffman.BuildHuffmanTree | source/huffman/Huffman.py:82-128 | no tree exactly for an empty table; otherwise a full binary tree whose leaves are exactly the table's symbols and whose root weight is the total frequency; one symbol gives that symbol's leaf, two or more an inner root |
| Huffman.Encode | source/huffman/Huffman.py:241-273 | fails exactly when the code map is non-empty and some data symbol has no code, naming the first such symbol; otherwise the concatenated codewords, whose length is the sum of the code lengths; an empty map encodes to nothing |
| Huffman.EncodeSymbols | source/huffman/Huffman.py:263-273 | the encoding loop succeeds exactly when every symbol has a code and then yields the concatenation of their codewords |
| Huffman.Decode | source/huffman/Huffman.py:276-319 | empty input or no tree decodes to nothing; a root that holds a symbol (for a Huffman tree, exactly a lone leaf) yields that symbol once per bit; a successful decode yields at most one symbol per bit |
| Huffman.LengthMap | source/huffman/Huffman.py:226-238 | exactly the coded symbols of the data are keyed, each to its code length |
| Huffman.MaxLength | source/huffman/Huffman.py:236-238 | an upper bound on every coded symbol's length that some symbol attains, 0 when none is coded |
| Huffman.GetBitLengths | source/huffman/Huffman.py:203-238 | empty data or codes give empty results; otherwise one length per data symbol (0 when uncoded), the per-symbol length map, and its maximum |
| Huffman.MaxOfLengthMap | source/huffman/Huffman.py:236-238 | the reported maximum bounds every entry of the length map and is attained by one when the map is non-empty |
| Huffman.GenerateCodes | source/huffman/Huffman.py:131-175 | `generate_huffman_codes`, the walk that extends a prefix by "0" left and "1" right; its soundness and completeness are `GenerateSound` and `GenerateComplete` |
| HuffmanProperties.GenerateSound | source/huffman/Huffman.py:158-175 | every code generated under a prefix starts with that prefix and walks the tree from there to its symbol |
| HuffmanProperties.GenerateComplete | source/huffman/Huffman.py:158-175 | every symbol some walk of the tree reaches receives a code |
| HuffmanProperties.FullReachable | source/huffman/Huffman.py:119-126 | every leaf symbol of a merged (full) tree is reached by some walk |
| HuffmanProperties.TreeCodesPrefixFree | source/huffman/Huffman.py:170-173 | codes that walk one tree to their symbols are binary and no code is a prefix of another |
| HuffmanProperties.FullTreeCodes | source/huffman/Huffman.py:158-175 | for a full tree the generated codes are keyed exactly by its leaves and walk the tree to them |
| Huffman.Generate | source/huffman/Huffman.py:178-200 | `generate`; what it returns is stated by `GenerateIsPrefixCode` and `OneSymbolCode` |
| HuffmanProperties.GenerateIsPrefixCode | source/huffman/Huffman.py:178-200 | `generate` codes exactly the table's symbols with non-empty binary prefix-free codes that walk the Huffman tree; a lone symbol gets "0" |
| HuffmanProperties.OneSymbolCode | source/huffman/Huffman.py:196-200 | a one-symbol table is coded as that symbol ↦ "0" |
| HuffmanProperties.RoundTrip | source/huffman/Huffman.py:263-319 | for any tree that walks every codeword to its symbol, decoding the encoding returns the data |
| HuffmanProperties.RoundTripHuffmanTree | source/huffman/Huffman.py:82-319 | decoding the encoding under `generate(f)` with the Huffman tree of `f` returns the data, for every data over the table, including the one-symbol case |
| HuffmanProperties.DecodeDropsIncompleteTail | source/huffman/Huffman.py:300-319 | trailing bits that are a proper prefix of a codeword are dropped without error |
| HuffmanProperties.WalkDeadEnd | source/huffman/Huffman.py:303-312 | a walk through symbol-less nodes that asks for a missing child raises, whatever bits follow |
| HuffmanProperties.DecodeRaisesAtDeadEnd | source/huffman/Huffman.py:303-312 | after any whole codewords, bits that lead to a missing child make `decode` raise |
| HuffmanProperties.WalkCodeword | source/huffman/Huffman.py:300-317 | walking a codeword emits its symbol and restarts at the root |
| Huffman.BuildDecodingTree | source/huffman/Huffman.py:322-358 | `build_decoding_tree`; its nodes and symbols are stated by `DecodingTreeNodes`, `DecodingTreeSymbol` and `DecodingTreeWalks`, and `RegenerateCodes` inverts it |
| HuffmanProperties.InsertShape | source/huffman/Huffman.py:343-356 | inserting a code creates exactly the nodes on its path and stores the symbol at its end, nothing else changes |
| HuffmanProperties.InsertAllShape | source/huffman/Huffman.py:340-358 | after inserting a list of codes a node exists exactly on some code's path, holding the last symbol inserted there |
| HuffmanProperties.DecodingTreeNodes | source/huffman/Huffman.py:340-358 | a path has a node in the decoding tree exactly when it is a prefix of some code |
| HuffmanProperties.DecodingTreeSymbol | source/huffman/Huffman.py:340-358 | a path holds symbol `s` in the decoding tree exactly when it is `s`'s code |
| HuffmanProperties.DecodingTreeWalks | source/huffman/Huffman.py:322-358 | for a non-empty binary prefix-free code the decoding tree walks every codeword to its symbol |
| HuffmanProperties.RegenerateCodes | source/huffman/Huffman.py:131-175 | generating codes from the decoding tree of a binary prefix-free code gives back that code (inverse of `build_decoding_tree`) |
| HuffmanProperties.RoundTripDecodingTree | source/huffman/Huffman.py:322-358 | decoding the encoding with the tree built from a binary prefix-free code returns the data |
| HuffmanProperties.RoundTripGeneratedDecodingTree | source/huffman/Huffman.py:178-358 | decoding the encoding of data over the table with `build_decoding_tree(generate(f))` returns the data |
| HuffmanProperties.EncodedLengthIsSum | source/huffman/Huffman.py:226-273 | the encoded length equals the sum of the per-symbol lengths `get_bit_lengths` reports |
| SingleDecoder.Walk | source/decoders/SingleDecoder.py:84-109 | the traversal succeeds exactly when it yields a symbol; it reports at least the bits already read and never more than remain; a failure counts at least one bit unless the input ran out |
| SingleDecoder.DecodeAt | source/decoders/SingleDecoder.py:47-109 | empty data, an offset past the end or no tree fail having read nothing; a root holding a symbol decodes it in one bit; otherwise between 1 and the remaining bits are read |
| SingleDecoder.NewDecoder | source/decoders/SingleDecoder.py:8-20 | the decoder starts at its root with fresh counters and remembers the root's symbol whenever the root holds one, with or without children (for a Huffman-generated code, exactly a lone leaf) |
| SingleDecoder.UpdateStats | source/decoders/SingleDecoder.py:117-134 | one more call, its bits, one more success or failure, a single-symbol decode counted for a one-bit success of a decoder that remembers a root symbol; consistent counters stay consistent |
| SingleDecoder.Decode | source/decoders/SingleDecoder.py:22-45 | the result is the attempt at the offset, the decoder is back at its root and only its counters change |
| SingleDecoderProperties.StatisticsReportCalls | source/decoders/SingleDecoder.py:137-169 | for a decoder with fresh counters (new or reset), after a series of calls `statistics` reports exactly the number of calls, the successes, the failures and the bits read by those calls, and `get_statistics_summary` reports the same counters with the two rates of those counters |
| SingleDecoderProperties.SingleSymbolsReported | source/decoders/SingleDecoder.py:131-169 | from a zero single-symbol counter, `statistics` and `get_statistics_summary` report every success as a single-symbol decode when the root holds a symbol and none otherwise |
| SingleDecoder.ResetStatistics | source/decoders/SingleDecoder.py:154-158 | fresh counters, the rest of the decoder untouched |
| SingleDecoderProperties.WalkSound | source/decoders/SingleDecoder.py:84-106 | a successful traversal read exactly a path from the node to the returned symbol |
| SingleDecoderProperties.WalkComplete | source/decoders/SingleDecoder.py:84-106 | when the bits ahead spell a path to a symbol, the traversal returns that symbol and length |
| SingleDecoderProperties.DecodeAtSound | source/decoders/SingleDecoder.py:47-109 | a successful decode read exactly a codeword of the tree, which names the symbol returned |
| SingleDecoderProperties.DecodeAtComplete | source/decoders/SingleDecoder.py:47-109 | a codeword starting at the offset is decoded, with its symbol and its length |
| SingleDecoderProperties.DecodeAtFailsIff | source/decoders/SingleDecoder.py:47-109 | a decode fails exactly when no codeword of the tree is a prefix of the remaining bits |
| SingleDecoderProperties.DecodeAtFailure | source/decoders/SingleDecoder.py:84-109 | a failed decode read a binary path of the tree and then met a missing child, a non-bit character or the end of the data |
| SingleDecoderProperties.DecodeAtBoundary | source/decoders/SingleDecoder.py:47-109 | in an encoded message, decoding at the start of the i-th codeword returns the i-th symbol and its code length |
| SingleDecoderProperties.DecodeBetween | source/decoders/SingleDecoder.py:47-109 | a codeword is decoded at its offset whatever bits surround it |
| SingleDecoderProperties.DecodeMany | source/decoders/SingleDecoder.py:22-45 | a series of calls returns the attempt at each offset and keeps the tree, the remembered root symbol and consistency |
| SingleDecoderProperties.CountersCountCalls | source/decoders/SingleDecoder.py:117-134 | the counters grow by exactly the number of calls, the successes, the failures and the bits read; for a decoder that remembers the root's symbol as `__init__` does, the single-symbol counter grows by every success when the root holds a symbol and by none otherwise |
| SpeculativeDecoder.NewSpeculativeDecoder | source/decoders/SpeculativeDecoder.py:11-17 | starts at position 0 with the given tree, width, predictor and chain cap |
| SpeculativeDecoder.Flush | source/decoders/SpeculativeDecoder.py:19-22 | back to position 0, nothing else changed |
| SpeculativeDecoder.Run | source/decoders/SpeculativeDecoder.py:104-132 | sequential decoding from an offset: non-empty exactly when the first attempt succeeds, which heads it |
| SpeculativeDecoder.RunSucceeds | source/decoders/SpeculativeDecoder.py:104-132 | every step of a sequential run is a success with a symbol that read at least one bit |
| SpeculativeDecoder.RunSplits | source/decoders/SpeculativeDecoder.py:126-128 | a run is any prefix of it followed by the run from where that prefix ends |
| SpeculativeDecoder.Collect | source/decoders/SpeculativeDecoder.py:48-54 | the result table holds exactly the offsets tried inside the data whose decode succeeded, each with that decode |
| SpeculativeDecoder.Chain | source/decoders/SpeculativeDecoder.py:57-69 | the `while current_offset in results` loop of `speculate`; `ChainLength` bounds it and `ChainIsRun` shows it is a prefix of sequential decoding |
| SpeculativeDecoder.ChainLength | source/decoders/SpeculativeDecoder.py:60-69 | the chain is no longer than the number of successful offsets, so the chain loop ends |
| SpeculativeDecoder.ChainIsRun | source/decoders/SpeculativeDecoder.py:60-69 | following the table from an offset gives a prefix of the sequential run from there |
| SpeculativeDecoder.ChainIsFollow | source/decoders/SpeculativeDecoder.py:48-69 | the chain over the results of the tried offsets that decoded is the sequential run followed while each next start offset was tried |
| SpeculativeDecoder.FollowStops | source/decoders/SpeculativeDecoder.py:64-69 | every followed result starts at a tried offset, and the first result of the run left out starts at an untried one |
| SpeculativeDecoder.LinkedTried | source/decoders/SpeculativeDecoder.py:45-69 | the uncapped chain of one speculation commits only results whose start offset was 0 or a predicted length |
| SpeculativeDecoder.LinkedStops | source/decoders/SpeculativeDecoder.py:45-69 | the uncapped chain stops before a result of the run only when that result's start offset was not predicted |
| SpeculativeDecoder.Truncate | source/decoders/SpeculativeDecoder.py:73-76 | a prefix of the chain: all of it with no or a zero cap, at most the cap for a positive one, all but the last `-cap` for a negative one |
| SpeculativeDecoder.SpeculateAt | source/decoders/SpeculativeDecoder.py:44-76 | the committed chain is the sequential run followed while each next start offset was tried (`Follow`), cut by the cap; so it is a prefix of the run, at most one longer than the guesses, within a positive cap, non-empty exactly when the decode at offset 0 succeeds (no negative cap), every committed result starts at a tried offset, and unless the cap cut it the chain stops only at the end of the run or before a result whose start was not predicted; truly guessed exactly when the decode at offset 0 succeeded with a predicted length |
| SpeculativeDecoder.Speculate | source/decoders/SpeculativeDecoder.py:24-76 | nothing past the end; fails exactly for the base predictor inside the data; otherwise, with the predictor's `width` guesses, the facts of `SpeculateAt` over the decoders of the tree: a prefix of the run, committed results start at tried offsets, and the chain extends while the next start offset was predicted |
| SpeculativeDecoder.Decode | source/decoders/SpeculativeDecoder.py:78-134 | fails exactly when the base predictor would be asked; the symbols are those of sequential decoding (all of them without a negative cap); the position and the fed predictor follow the committed results and the position stays between its start and the end of the data; successes = symbols = sum of commits; tries = (width + 1) per iteration including the last failed one; iteration i's commit count and truly-predicted flag are exactly the chain length and flag that `speculate` returns from where the earlier iterations left the decoder (`CommitsAfter`) |
| SpeculativeDecoder.RunWithin | source/decoders/SpeculativeDecoder.py:104-128 | sequential decoding from a position inside the data never reads past its end |
| SpeculativeDecoder.DecodeWith | source/decoders/SpeculativeDecoder.py:78-134 | the same loop over any decoder that reads at least one bit per success: each commit within 1..width + 1, each flag at most 1, and iteration i commits exactly the next results of the run and the flag that its speculation returns |
| SpeculativeDecoder.FeedAllConcat | source/decoders/SpeculativeDecoder.py:121-124 | feeding two batches of lengths is feeding their concatenation |
| SpeculativeProperties.RunFromBoundary | source/decoders/SpeculativeDecoder.py:104-132 | decoders that decode each codeword at its boundary make the run from a boundary yield the remaining symbols and end at the end of the message |
| SpeculativeProperties.HuffmanRun | source/decoders/SpeculativeDecoder.py:104-132 | over a message encoded with `generate(f)` the sequential run of the decoding tree yields the message and uses every bit |
| SpeculativeProperties.DecodeEncoded | source/decoders/SpeculativeDecoder.py:78-134 | speculative decoding of an encoded message, with any non-base predictor and no negative cap, returns the message and stops at its end |
| SpeculativeProperties.DecodeWholeRun | source/decoders/SpeculativeDecoder.py:104-132 | without a negative cap the loop decodes the whole sequential run and stops where it ends |
| PredictorProperties.CardinalityLimitsPrediction | source/predictors/StaticPredictor.py:13-21 | for the static and zero-order predictors `cardinality` is the number of candidates, and `implicitly_predict(n)` returns `min(n, cardinality)` of them, all of them exactly when `n` reaches it; for the dynamic predictor it counts the contexts of the table; the base predictor has 0 and cannot predict; feeding never changes it |
| Predictors.Feed | source/predictors/DynamicPredictor.py:14-15 | only the dynamic predictor changes: its context drops the oldest length and appends the new one, the table and backup untouched |
| Predictors.ImplicitlyPredict | source/predictors/DynamicPredictor.py:25-28 | fails exactly for the base predictor; otherwise the first `min(n, available)` candidates (vector, the context's entry or the backup, or the ranking) |
| Predictors.Predict | source/predictors/DynamicPredictor.py:30-32 | fails exactly for the base predictor; otherwise feeds the previous length, then predicts implicitly; the static and zero-order ones are not changed |
| Predictors.NewDynamic | source/predictors/DynamicPredictor.py:9-12 | keeps the table and the context and stores the backup sorted ascending, as a permutation |
| Predictors.NewZeroOrder | source/predictors/ZeroOrderProbabilitiesReconstructor.py:9-13 | before reconstruction it predicts nothing and has cardinality 0 |
| Predictors.Counts | source/predictors/ZeroOrderProbabilitiesReconstructor.py:23-31 | the frequency table of the data: its symbols, each with its number of occurrences |
| Predictors.LengthCounts | source/predictors/ZeroOrderProbabilitiesReconstructor.py:49-54 | each occurring code length with the number of symbols that have it |
| Predictors.Reconstruct | source/predictors/BasePredictor.py:20-21 | only the zero-order predictor reconstructs; the others fail |
| PredictorProperties.FeedKeepsStateless | source/predictors/StaticPredictor.py:20-24 | feeding leaves the static, base and zero-order predictors and their predictions as they were |
| PredictorProperties.DynamicWindow | source/predictors/DynamicPredictor.py:14-15 | after feeding lengths the dynamic context is the last `|context|` of the old context followed by them |
| PredictorProperties.DynamicPredictsFromRecent | source/predictors/DynamicPredictor.py:25-28 | once enough lengths were fed, the dynamic prediction is the table entry of the most recent lengths, or the backup, cut to `n` |
| Predictors.ZeroOrderFrom | source/predictors/ZeroOrderProbabilitiesReconstructor.py:23-31 | the predictor `reconstruct` builds from data; its length table is stated by `ZeroOrderLengths` and its ranking by `ZeroOrderRanking` |
| PredictorProperties.ZeroOrderLengths | source/predictors/ZeroOrderProbabilitiesReconstructor.py:23-31 | after reconstruction the length table has exactly the code lengths of the data's Huffman code, each counting the distinct symbols of that length |
| PredictorProperties.ZeroOrderRanking | source/predictors/ZeroOrderProbabilitiesReconstructor.py:49-57 | the ranking lists each occurring length once, in non-increasing `count(l)·2^-l`, and the cardinality is the number of lengths |
| PredictorProperties.LengthMapOfData | source/huffman/Huffman.py:226-238 | for a code over exactly the data's symbols, one length per position and a length map keyed by the data's symbols |
| KGram.NewModel | source/theory/KGramModel.py:8-15 | k empty context slots and nothing counted |
| KGram.ContextList | source/theory/KGramModel.py:22-23 | the context list has k entries: `None` padding, then the last symbols fed |
| KGram.Feed | source/theory/KGramModel.py:21-33 | fails exactly for k = 0 (`pop(0)` on the empty context list raises IndexError); keeps k |
| KGram.Train | source/theory/KGramModel.py:39-41 | fails exactly when k = 0 and the sample is non-empty; keeps k |
| KGram.MostFrequentOutcomes | source/theory/KGramModel.py:43-44 | for `n >= 0`, `min(n, distinct symbols)` outcomes |
| KGram.Grams | source/theory/KGramModel.py:29-33 | one counted window per symbol fed after the context first filled |
| KGram.FeedFollowsReference | source/theory/KGramModel.py:21-33 | feeding the state of a history gives the state of the extended history |
| KGram.TrainFresh | source/theory/KGramModel.py:39-41 | training a fresh model on a sample gives the state of that history |
| KGram.GramWindows | source/theory/KGramModel.py:29-33 | the i-th counted window is the k symbols starting at i + 1: the first full window is never counted |
| KGram.TrainedOutcomes | source/theory/KGramModel.py:18-27 | after training, each symbol's outcome count is its number of occurrences, the number of outcomes is the number of distinct symbols, and the alphabet is the set of symbols |
| KGram.TrainedGrams | source/theory/KGramModel.py:21-41 | after training, the window is the last k symbols, the model is ready exactly when k symbols were fed, every window is counted as often as it occurs, and max(0, len − k) windows were counted |
| KGram.FirstWindowNotCounted | source/theory/KGramModel.py:29-33 | after exactly k symbols the model is ready but has counted nothing |
| KGram.TrainedValid | source/theory/KGramModel.py:21-41 | a trained model's counters are well formed and every counted window has k alphabet symbols |
| KGram.MostFrequentRanked | source/theory/KGramModel.py:43-44 | distinct fed symbols in non-increasing count, and no symbol left out is more frequent than one listed |
| ConditionalScheme.Normalize | source/theory/conditional/ConditionalProbabilisticScheme.py:25-28 | normalising keeps the keys in order |
| ConditionalScheme.TallyCounts | source/theory/conditional/ConditionalProbabilisticScheme.py:18-21 | the tally counts each outcome under a context as the k-gram context+outcome, and the context as the sum over its k-grams |
| ConditionalScheme.TallyTotal | source/theory/conditional/ConditionalProbabilisticScheme.py:18-21 | the tally total is the number of counted windows |
| ConditionalScheme.NormalizeByTotal | source/theory/conditional/ConditionalProbabilisticScheme.py:25-28 | dividing counts by their total gives values that add up to 1 |
| ConditionalScheme.NewScheme | source/theory/conditional/ConditionalProbabilisticScheme.py:9-28 | the constructor: the scheme keeps the model and its tables are those `TallyCounts`, `SeenContexts` and `NormalizeByTotal` describe |
| ConditionalScheme.SeenContexts | source/theory/conditional/ConditionalProbabilisticScheme.py:23 | a context is in the table exactly when some counted k-gram extends it |
| ConditionalScheme.P | source/theory/conditional/ConditionalProbabilisticScheme.py:30-33 | `p(outcome, context)`; its value is stated by `PIsRatio` and `PSumsToOne` |
| ConditionalScheme.PIsRatio | source/theory/conditional/ConditionalProbabilisticScheme.py:30-33 | p(o given c) is count(c+o) / count(c), 0 for an unseen context |
| ConditionalScheme.PSumsToOne | source/theory/conditional/ConditionalProbabilisticScheme.py:25-28 | the outcome probabilities of a seen context add up to 1 |
| ConditionalScheme.PContext | source/theory/conditional/ConditionalProbabilisticScheme.py:35-36 | `p_context(context)`; its value is stated by `PContextIsRatio` and `PContextSumsToOne` |
| ConditionalScheme.PContextIsRatio | source/theory/conditional/ConditionalProbabilisticScheme.py:35-36 | p(c) is count(c) / total, 0 when nothing was counted |
| ConditionalScheme.PContextSumsToOne | source/theory/conditional/ConditionalProbabilisticScheme.py:25-28 | the context probabilities cover exactly the seen contexts and add up to 1 when anything was counted |
| ConditionalScheme.TableOutcomes | source/theory/conditional/ConditionalProbabilisticScheme.py:18-23 | a seen context lists each outcome once, exactly those counted after it |
| Collections.SortByKeyDescStable | source/theory/conditional/ConditionalProbabilisticScheme.py:45 | sorting by a key, largest first, is stable: the elements of any one key leave in the order they arrived, as `sorted(..., reverse=True)` keeps them |
| ConditionalScheme.MostFrequentOutcomesOnContext | source/theory/conditional/ConditionalProbabilisticScheme.py:44-45 | fails exactly for an unseen context; never longer than the context's outcome list |
| ConditionalScheme.OnContextRanked | source/theory/conditional/ConditionalProbabilisticScheme.py:44-45 | distinct counted outcomes with their probabilities, in non-increasing probability, `min(n, outcomes)` of them, and no outcome left out is more probable than one listed |
| ConditionalScheme.PadFacts | source/theory/conditional/ConditionalProbabilisticScheme.py:55-61 | padding keeps the list free of repeats, adds only offered outcomes and stops at `n` or when the offers run out |
| ConditionalScheme.BuildAssignmentTable | source/theory/conditional/ConditionalProbabilisticScheme.py:47-63 | `build_assignment_table(n)`; when it fails is stated by `AssignmentEntryDefined` and `AssignmentTableDefined`, its keys and entries by `AssignmentTableKeys` and `AssignmentTableEntries` |
| ConditionalScheme.AssignmentTableKeys | source/theory/conditional/ConditionalProbabilisticScheme.py:47-63 | a built table has exactly one entry per seen context |
| ConditionalScheme.AssignmentEntryDefined | source/theory/conditional/ConditionalProbabilisticScheme.py:52-54 | a context's entry is defined exactly when its top-`n` is non-empty (`max` of an empty list raises) |
| ConditionalScheme.AssignmentTableDefined | source/theory/conditional/ConditionalProbabilisticScheme.py:47-63 | the table is built for every `n >= 1`; for `n = 0` only when no context was seen; for negative `n` when every context has more than `-n` outcomes |
| ConditionalScheme.AssignmentTableEntries | source/theory/conditional/ConditionalProbabilisticScheme.py:47-63 | for `n >= 1` each entry is strictly increasing, contains the context's top-`n` outcomes, draws from the alphabet and has `min(n, number of outcomes)` lengths |
| SimpleScheme.IndexOf | source/theory/simple/SimpleProbabilisticScheme.py:9-10 | the first position holding the outcome |
| SimpleScheme.P | source/theory/simple/SimpleProbabilisticScheme.py:9-10 | 0 for an outcome not listed |
| SimpleScheme.PAtFirstOccurrence | source/theory/simple/SimpleProbabilisticScheme.py:9-10 | a listed outcome's probability is the one at its first position, an index error when that position has none |
| SimpleScheme.ScoresDefined | source/theory/simple/SimpleProbabilisticScheme.py:13 | scoring succeeds exactly when every outcome's first position has a probability |
| SimpleScheme.GetTop | source/theory/simple/SimpleProbabilisticScheme.py:12-18 | a scoring error propagates; otherwise fails with `ValueError` exactly when more outcomes are asked for than listed |
| SimpleScheme.GetTopRanked | source/theory/simple/SimpleProbabilisticScheme.py:12-18 | a successful top-`n` has `n` listed outcomes in non-increasing probability, and no outcome left out is more probable than one kept |
| Variants.JSet | source/optimizers/VariantsGenerator.py:30-40 | `_get_j_set(j)`; `JSetIsSums` states it is exactly the sums of `j` lengths |
| Variants.JSetIsSums | source/optimizers/VariantsGenerator.py:30-40 | the j-set is exactly the set of sums of `j` lengths (repetition allowed) |
| Variants.JSetOne | source/optimizers/VariantsGenerator.py:30-40 | the 1-set is the set of lengths |
| Variants.UnionIsLevels | source/optimizers/VariantsGenerator.py:42-44 | the union up to `j` holds exactly the members of some j-set with `1 <= k <= j` |
| Variants.UnionLarge | source/optimizers/VariantsGenerator.py:46-47 | with a positive length the union up to `j` has at least `j` sums, so the recursion ends |
| Variants.BaselineSet | source/optimizers/VariantsGenerator.py:29-48 | `get_baseline_set(n, j)`; its result is stated by `BaselineIsSmallest` and `BaselineFromLengths`, and `UnionLarge` makes the recursion end |
| Variants.BaselineIsSmallest | source/optimizers/VariantsGenerator.py:29-48 | the baseline is strictly increasing, has `n` sums from the union at the level reached, and no sum left out is smaller than one kept |
| Variants.BaselineFromLengths | source/optimizers/VariantsGenerator.py:29-48 | with enough distinct lengths the baseline is the `n` smallest lengths |
| Variants.Cwr | source/optimizers/VariantsGenerator.py:13-14 | `combinations_with_replacement` over positions; `CwrSound` and `CwrComplete` state what it draws |
| Variants.CwrSound | source/optimizers/VariantsGenerator.py:13-14 | `combinations_with_replacement` draws non-decreasing position lists of length `r` |
| Variants.CwrComplete | source/optimizers/VariantsGenerator.py:13-14 | every non-decreasing position list is drawn |
| Variants.ForFuture | source/optimizers/VariantsGenerator.py:12-18 | `_for_future(r)`; its error cases and its sums are stated by `ForFutureIsUnion` |
| Variants.ForFutureIsUnion | source/optimizers/VariantsGenerator.py:12-18 | `_for_future(r)` raises ValueError exactly for a negative `r` or for no lengths with `r = 0` (the `math.comb` total has a negative argument); otherwise it equals the union of the j-sets for `1 <= j <= r` |
| Variants.ForFutureOne | source/optimizers/VariantsGenerator.py:12-18 | `_for_future(1)` is the set of lengths |
| Variants.Combinations | source/optimizers/VariantsGenerator.py:23-25 | `itertools.combinations`; `CombinationsSound` and `CombinationsComplete` state what it draws |
| Variants.CombinationsSound | source/optimizers/VariantsGenerator.py:23-25 | a combination of a strictly increasing list is a strictly increasing sub-list of length `w` |
| Variants.CombinationsComplete | source/optimizers/VariantsGenerator.py:23-25 | every strictly increasing sub-list is a combination |
| Variants.GenerateVSet | source/optimizers/VariantsGenerator.py:20-27 | `generate_v_set(r, w)`; its errors and its members are stated by `VSetIsSubsets` |
| Variants.VSetIsSubsets | source/optimizers/VariantsGenerator.py:20-27 | `generate_v_set(r, w)` raises ValueError exactly for a negative `r` or `w` or for no lengths with `r = 0`, the error of `_for_future` first; otherwise it holds exactly the strictly increasing `w`-lists of sums of at most `r` lengths |

## Left out

- Progress bars (`tqdm`), timing and printing are not modelled. The one
  effect of a progress bar on results is modelled: `_for_future` computes
  the bar's total with `math.comb`, which raises ValueError for no lengths
  with `r = 0` (see `Variants.ForFuture`).
- `SingleDecoder.Statistics` and `SingleDecoder.StatisticsSummary` are plain
  reads of the counters. What they report after a series of calls is stated
  by `SingleDecoderProperties.StatisticsReportCalls`.
- `requires_training` is `False` on the base predictor and no predictor
  overrides it. It is a constant and has no member.
- `SpeculativeDecoder.Decode` returns the decoded symbols as a list. The
  source converts them with `bytes(...)`, which raises for symbols outside
  0..255; that conversion is not modelled.
- The `_previous` field of the speculative decoder is written but never
  read, so it is not modelled.
- `current_position` and `speculation_width` of the speculative decoder are
  plain field reads.
- The speculative decoder's own single decoders each keep statistics. Those
  counters are not tracked inside `SpeculativeDecoder`. They are modelled
  once, for one decoder, in `SingleDecoder`.
- `Huffman.BuildHuffmanTree`: Python's heap breaks ties by comparing
  frequencies only, so the tree's shape depends on `heapq` internals. The
  model merges the first two entries of minimal weight in a list seeded in
  ascending symbol order. Only facts that hold for every tie-breaking are
  proved: a full tree, the leaves, the root weight, and a prefix code that
  round-trips. Code optimality is not stated.
- `Huffman.BuildDecodingTree` inserts codes in ascending symbol order, not
  in the dict's insertion order. For a prefix-free code the tree is the
  same whatever the order. For other codes, the facts `InsertAllShape`
  proves hold for every insertion order.
- `get_compression_ratio` is left out: it does floating point arithmetic
  on lengths `get_bit_lengths` already gives.
- `Node.__lt__` and `__str__` of the statistics record are left out.
- The `name` of each predictor is left out: it only returns a label.
- The zero-order predictor's `probabilistic_scheme` and `_prepare` build a
  `SimpleProbabilisticScheme` object. The model keeps only the ranking they
  lead to (`count(l)·2^-l`, largest first).
- `Predictors.Cardinality`, `Predictors.Feed` and `Predictors.Predict` treat
  the lengths and vectors as natural numbers. Negative lengths never arise
  from a Huffman code.
- `ConditionalScheme.P` and `PContext` read the tables without a side
  effect. The source's reads can write. After construction the outer map
  is a plain `dict`, so `p` on an unseen context returns 0 and inserts
  nothing. But `p` on a seen context and an unseen outcome inserts
  `outcome ↦ 0.0` into that context's inner `defaultdict`. That outcome
  then appears in `most_frequent_outcomes_on_context` and can change the
  padded vectors of `build_assignment_table`. Likewise `p_context` on an
  unseen context inserts it with probability 0 into the table that
  `get_contexts_and_probabilities` returns.
- `ConditionalScheme.MostFrequentOutcomesOnContext` and
  `ConditionalScheme.BuildAssignmentTable` model a scheme on which `p` was
  never called with an unseen outcome, and `PContextSumsToOne` one on which
  `p_context` was never called with an unseen context.
- `build_assignment_table` also accumulates `weighted_map_p`, which it never
  returns. Only its `max([])` error is modelled, and no floating point sum
  is kept.
- `get_contexts_and_probabilities` only returns the table. The scheme's own
  `most_frequent_outcomes` only delegates to `KGram.MostFrequentOutcomes`.
  Neither has a separate member.
- `get_scheme_for_sum` builds a distribution of sums with an FFT
  convolution in floating point, and is left out.
- The statistical calculations, `SimpleOptimizer`, the simulator, the
  scripts and `BinaryReader` are callers of the core and are not modelled.
- `SingleDecoder.DecodeAt` and `SingleDecoder.Decode` take the offset as a
  natural number. The source accepts a negative `position`: it passes the
  `position >= len(data)` guard, and `range(position, len(data))` then
  reads bits counted from the end, so a call can read more than
  `len(data) - position` bits. No caller in the repository passes one.
- `SpeculativeDecoder.NewSpeculativeDecoder` takes the width as a natural
  number. With a negative `speculation_width` the source builds no single
  decoders, and `speculate` raises IndexError whenever bits remain. No
  caller in the repository passes one.
- `Predictors.ImplicitlyPredict` and `Predictors.Predict` take `n` as a
  natural number. With a negative `n` the source's `[:n]` drops the last
  `-n` candidates instead. No caller in the repository passes one.
- `KGram.NewModel` takes `k` as a natural number. A negative `k` gives
  meaningless slices in Python and is not modelled.
- `KGram` takes the symbols it is fed as natural numbers (`seq<nat>`),
  while `feed(symbol: int)` accepts any integer. The repository trains it
  only on codeword lengths from `get_bit_lengths`, which are never
  negative (source/scripts/context_free.py:58-59,
  source/scripts/context_aware.py:31-32).
- `ConditionalScheme.NewScheme` requires a valid model, which has
  `k >= 1`. The source also accepts an untrained `KGramModel(0)` and then
  builds empty tables; that case is not modelled. Every caller in the
  repository builds the model with `k >= 2` (source/scripts/context_free.py:58,
  source/scripts/context_aware.py:31).
- `Variants.BaselineSet`: requires a positive length, or that the union
  already has `n` sums. Without one of these, for example for all-zero
  lengths or no lengths when `n >= 2`, the source keeps recursing with
  `j + 1` and CPython raises RecursionError. The `requires` excludes those
  inputs, so that error is not modelled. CPython's recursion depth limit
  (about 1000 frames) is not modelled either: with positive lengths the
  source also raises RecursionError once it needs that many levels, for
  example lengths `[1]` with `n = 2000`, where the model returns the
  baseline.
- `Variants` takes the lengths as natural numbers (`seq<nat>`). The
  lengths are codeword lengths, which are never negative.
- `Variants.GenerateVSet` iterates the sums in ascending order, not in the
  set's iteration order. The resulting set does not depend on the order.
- Passing a table that is not a dict raises a `TypeError` in
  `build_huffman_tree`. The model's types rule this out.
