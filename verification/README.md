# Access-log tokenizers and poker hand evaluators, in Dafny

This project models the core of a Python homework repository. It has two parts.

The first part is the line readers of an nginx access-log analyzer:

- `split_by_space` cuts a log line at spaces, except inside quoted or bracketed spans.
- `parse_line` pairs the resulting tokens with the thirteen field names of the `ui_short` log format.
- `process_log_line` strips backslash artefacts from `request_time`, turns it into a number, and updates the dictionary in place.
- The earlier tokenizer `parse_items` and its helper `check_chunk_end` walk a line once, cutting "chunks".

The second part is two poker hand evaluators:

- The later evaluator covers `card_ranks`, `flush`, `straight`, `kind`, `two_pair`, `hand_rank` and `compare_rank_info`. It also covers the searches `best_hand` and `best_wild_hand`, which uses jokers and `hand_options`.
- The earlier evaluator covers `rank2num`, `card_ranks`, `flush`, `straight`, `kind`, `two_pair`, `hand_rank` and `best_hand`, which picks its answer with `max`.

Files:

- `wrappers.dfy` holds `Option` and `Result`.
- `seqs.dfy` holds the Python building blocks the evaluators rely on: `Counter` counts and key order, `sorted`, `itertools.combinations`, and list/tuple comparison (`LexLess`).
- `log_analyzer.dfy` models hw-01-log_analyzer/log_analyzer.py.
- `chunk_parser.dfy` models hw-01/log-analyzer/log_analyzer.py.
- `poker.dfy` and `poker_search.dfy` model hw-02-poker/poker.py.
- `early_poker.dfy` models hw-01/poker.py.

Code with loops is written as methods whose loop invariants tie them to a specification function over prefixes: `split_by_space`, `parse_items`, `remove_redundant`, the later `kind`, `best_hand`, `hand_options` and `best_wild_hand`. `process_log_line` mutates its dictionary, so the dictionary is the class `LogDict` with a `map` field. Expression-only code is written as functions with lemmas.

Where the docstrings and the code disagree, the model follows the code:

- The earlier `card_ranks` sorts upwards, although its docstring says downwards.
- The later `kind` returns the highest rank with the count, or 0, not "the first rank or None".
- The later `two_pair` returns a list of ranks, not `True`.
- `straight` in the later evaluator looks for rising neighbours in ranks that are sorted downwards, so it never holds (`Poker.StraightFalseOnDescending`). The red joker stands in for hearts and `'W'`, not diamonds (`PokerSearch.RedJokerSuits`).
- `split_by_space` drops the line's last character from its final item. `parse_items` appends the line's last character twice to its final chunk (`ChunkParser.FinalItemRepeatsLastCharacter`).
- The rest of log_analyzer.py (reading the log files and the `main` loop) is not part of this model; the modelled functions do no aggregation or reporting.

## Model

| member | source | states |
|---|---|---|
| LogAnalyzer.ScanPrefix | hw-01-log_analyzer/log_analyzer.py:15-28 | the state after the loop has read a prefix: every item cut so far is a non-empty span that ends before the current start |
| LogAnalyzer.SplitSpans | hw-01-log_analyzer/log_analyzer.py:26-28 | every item span is non-empty and ends before the line's last character, which is never part of an item |
| LogAnalyzer.Items | hw-01-log_analyzer/log_analyzer.py:11-29 | the items `split_by_space` returns: the line's slices at the scan's spans; `LogAnalyzer.SplitSpansShape` says which spans those are |
| LogAnalyzer.SplitBySpace | hw-01-log_analyzer/log_analyzer.py:11-29 | the loop returns exactly the items of the scan; every item is non-empty; a line of at most one character gives no item |
| LogAnalyzer.MarkersStep | hw-01-log_analyzer/log_analyzer.py:19-20 | reading one more character adds one to the quote/bracket count exactly when it is one of the item symbols |
| LogAnalyzer.CutKeepsInvariant | hw-01-log_analyzer/log_analyzer.py:21-25 | cutting at a separating space keeps the scan invariant |
| LogAnalyzer.OtherKeepsInvariant | hw-01-log_analyzer/log_analyzer.py:18-22 | any other character keeps the scan invariant |
| LogAnalyzer.ScanInvariantHolds | hw-01-log_analyzer/log_analyzer.py:15-28 | after every prefix, the cut items are ordered maximal runs of non-separators and every non-separator before the start is covered |
| LogAnalyzer.IsMarker | hw-01-log_analyzer/log_analyzer.py:11-20 | the default `item_symbols`: `"`, `[` and `]` flip the "inside an item" flag |
| LogAnalyzer.InsideIsMarkerParity | hw-01-log_analyzer/log_analyzer.py:17-20 | the "inside an item" flag is set exactly when an odd number of `"`, `[`, `]` has been read |
| LogAnalyzer.SplitSpansShape | hw-01-log_analyzer/log_analyzer.py:11-29 | the items are, in order, the maximal runs of characters that are not separating spaces, up to the line's last character |
| LogAnalyzer.FinalSpanShape | hw-01-log_analyzer/log_analyzer.py:26-28 | the last item appended after the loop keeps the item spans ordered and maximal |
| LogAnalyzer.NoMarkersEvenParity | hw-01-log_analyzer/log_analyzer.py:19-20 | without quotes or brackets the symbol count stays zero, so the scan never enters an item |
| LogAnalyzer.UnmarkedItemsHaveNoSpace | hw-01-log_analyzer/log_analyzer.py:11-29 | without quotes or brackets no item contains a space |
| LogAnalyzer.MarkersUnchanged | hw-01-log_analyzer/log_analyzer.py:19-20 | reading characters that are not item symbols leaves the symbol count unchanged |
| LogAnalyzer.UnbalancedMarkerCollapses | hw-01-log_analyzer/log_analyzer.py:18-28 | after an unmatched quote or bracket, the rest of the line, apart from its last character, is one item |
| LogAnalyzer.SchemaNames | hw-01-log_analyzer/log_analyzer.py:43-46 | the schema has thirteen distinct field names, `request_time` last |
| LogAnalyzer.ParseFields | hw-01-log_analyzer/log_analyzer.py:43-48 | the keys are the first `min(13, #items)` field names, each mapped to the token at its position |
| LogAnalyzer.ZipPrefixFields | hw-01-log_analyzer/log_analyzer.py:48 | zipping the first `n` names with the tokens maps exactly those names, each to its own token |
| LogAnalyzer.RequestTimePresent | hw-01-log_analyzer/log_analyzer.py:43-48 | `request_time` is present exactly when the line has at least thirteen tokens, and is then the thirteenth |
| LogAnalyzer.ParseLine | hw-01-log_analyzer/log_analyzer.py:32-48 | the new dictionary holds the zipped fields of the line's tokens |
| LogAnalyzer.Without | hw-01-log_analyzer/log_analyzer.py:58 | `str.replace(pat, "")` never lengthens the text |
| LogAnalyzer.WithoutAbsent | hw-01-log_analyzer/log_analyzer.py:58 | replacing a pattern that cannot occur changes nothing |
| LogAnalyzer.WithoutCharacter | hw-01-log_analyzer/log_analyzer.py:58 | removing a one-character pattern leaves no occurrence of that character |
| LogAnalyzer.CleanedInTwoPasses | hw-01-log_analyzer/log_analyzer.py:55-59 | cleaning removes every `\n` pair, then every remaining backslash |
| LogAnalyzer.Cleaned | hw-01-log_analyzer/log_analyzer.py:55-59 | the text `remove_redundant` returns: every pattern of `to_remove` deleted in turn; `LogAnalyzer.CleanedInTwoPasses` spells out the two passes |
| LogAnalyzer.RemoveRedundant | hw-01-log_analyzer/log_analyzer.py:55-59 | the loop's result is the cleaned text, which holds no backslash |
| LogAnalyzer.CleanedHasNoBackslash | hw-01-log_analyzer/log_analyzer.py:55-59 | cleaned text holds no backslash |
| LogAnalyzer.CleanedIdempotent | hw-01-log_analyzer/log_analyzer.py:55-59 | text without a backslash is left as it is, and cleaning twice is cleaning once |
| LogAnalyzer.ProcessFields | hw-01-log_analyzer/log_analyzer.py:51-62 | fails exactly when `request_time` is missing, is not text, or its cleaned text is not a number; otherwise only `request_time` changes, into that number |
| LogAnalyzer.ProcessLogLine | hw-01-log_analyzer/log_analyzer.py:51-62 | on success the same dictionary is updated in place and returned; on failure it is left unchanged |
| LogAnalyzer.ReadLineSucceeds | hw-01-log_analyzer/log_analyzer.py:47-61 | a line is processed successfully exactly when it has at least thirteen tokens and the cleaned thirteenth one is a number |
| ChunkParser.IsSpace | hw-01/log-analyzer/log_analyzer.py:47 | the characters `str.isspace()` accepts, which `strip()` removes |
| ChunkParser.CheckChunkEnd | hw-01/log-analyzer/log_analyzer.py:26-35 | `]` always closes; a quote closes when one was seen; a space closes when no bracket or quote was seen; nothing else closes |
| ChunkParser.TrimStart | hw-01/log-analyzer/log_analyzer.py:47 | the result starts with no whitespace, and only whitespace was dropped |
| ChunkParser.TrimEnd | hw-01/log-analyzer/log_analyzer.py:47 | the result ends with no whitespace, and only whitespace was dropped |
| ChunkParser.TrimStartIsSuffix | hw-01/log-analyzer/log_analyzer.py:47 | trimming the front leaves a suffix of the text |
| ChunkParser.TrimEndIsPrefix | hw-01/log-analyzer/log_analyzer.py:47 | trimming the back leaves a prefix of the text |
| ChunkParser.Strip | hw-01/log-analyzer/log_analyzer.py:47 | `str.strip()` leaves no whitespace at either end |
| ChunkParser.StripIsSlice | hw-01/log-analyzer/log_analyzer.py:47 | `str.strip()` is a slice of the text with only whitespace outside it |
| ChunkParser.ChunkStep | hw-01/log-analyzer/log_analyzer.py:43-49 | one turn of the loop: open a chunk with the character, close the open chunk when `check_chunk_end` says so, or extend it |
| ChunkParser.ChunkPrefix | hw-01/log-analyzer/log_analyzer.py:42-49 | after a prefix, every closed chunk and the open position lie within it |
| ChunkParser.StrippedChunks | hw-01/log-analyzer/log_analyzer.py:47 | each emitted item is the stripped text of its chunk |
| ChunkParser.ChunkItems | hw-01/log-analyzer/log_analyzer.py:38-51 | the items after the whole line: the stripped closed chunks, then the stripped final item with the last character appended once more |
| ChunkParser.ParseItems | hw-01/log-analyzer/log_analyzer.py:38-51 | the loop returns the items of the chunk scan: one per closed chunk plus the final one, each stripped |
| ChunkParser.ChunkStepItems | hw-01/log-analyzer/log_analyzer.py:43-49 | one character adds an item exactly when a chunk is open and the character closes it; the open chunk is the text since its opening |
| ChunkParser.OpenKeepsInvariant | hw-01/log-analyzer/log_analyzer.py:43-45 | opening a chunk keeps the scan invariant |
| ChunkParser.ClosedChunk | hw-01/log-analyzer/log_analyzer.py:46-48 | a chunk that a character closes, with no earlier closing position, is a chunk of the line ending at that character |
| ChunkParser.CloseFacts | hw-01/log-analyzer/log_analyzer.py:46-48 | closing clears the in-process flag, records the chunk after the earlier ones so they still tile the line, and the item includes the closing character |
| ChunkParser.CloseKeepsInvariant | hw-01/log-analyzer/log_analyzer.py:46-48 | closing a chunk keeps the scan invariant |
| ChunkParser.ExtendKeepsInvariant | hw-01/log-analyzer/log_analyzer.py:49 | extending the open chunk keeps the scan invariant |
| ChunkParser.ChunkInvariantHolds | hw-01/log-analyzer/log_analyzer.py:42-49 | after every prefix the closed chunks tile the text read so far |
| ChunkParser.ChunksTileLine | hw-01/log-analyzer/log_analyzer.py:38-51 | the closed chunks tile the line from its start, each at least two characters; an open chunk runs to the end, and none of its characters closes it |
| ChunkParser.ChunkItemsStripped | hw-01/log-analyzer/log_analyzer.py:47-50 | no item returned starts or ends with whitespace |
| ChunkParser.FinalItemRepeatsLastCharacter | hw-01/log-analyzer/log_analyzer.py:49-50 | the final item ends with the line's last character twice |
| Seqs.Distinct | hw-02-poker/poker.py:91-93 | `Counter` keys: the elements of the list, each once, in order of first occurrence |
| Seqs.DistinctPrefix | hw-02-poker/poker.py:91-93 | the keys of a prefix are the first keys of the whole |
| Seqs.DistinctOrder | hw-02-poker/poker.py:91-93 | whatever precedes a key's first occurrence is an earlier key |
| Seqs.SortDescending | hw-02-poker/poker.py:66 | `sorted(..., reverse=True)` is a non-increasing permutation |
| Seqs.SortAscending | hw-01/poker.py:58 | `sorted` is an ascending permutation |
| Seqs.AscendingUnique | hw-01/poker.py:58 | an ascending permutation is unique |
| Seqs.Filter | hw-02-poker/poker.py:105 | a list comprehension with a condition keeps exactly the elements that pass |
| Seqs.FilterNoDup | hw-02-poker/poker.py:105 | filtering keys leaves keys without repeats |
| Seqs.Map | hw-02-poker/poker.py:66 | the list comprehension in the later `card_ranks` and the `map` in the earlier one (hw-01/poker.py line 58): one result per element, each the function of the element at that position |
| Seqs.Combinations | hw-02-poker/poker.py:131 | `itertools.combinations(s, k)`: every entry has `k` elements in the order of `s`; there is one exactly when `k <= len(s)` |
| Seqs.CombinationsComplete | hw-02-poker/poker.py:131 | every way of keeping `k` elements of the list in their order is among the combinations |
| Seqs.CombinationsCount | hw-02-poker/poker.py:131 | there are `C(len(s), k)` combinations, by Pascal's rule |
| Seqs.CombinationMembers | hw-02-poker/poker.py:131 | a combination's elements come from the list |
| Seqs.SubsequenceIncluded | hw-02-poker/poker.py:131 | a subsequence takes no element more often than the list holds it |
| Seqs.LexIrreflexive | hw-01/poker.py:101 | no list is less than itself |
| Seqs.LexTransitive | hw-01/poker.py:101 | list comparison is transitive |
| Seqs.LexTotal | hw-01/poker.py:101 | of two different lists one is less |
| Seqs.Max | hw-01/poker.py:36 | `max` is an element no element exceeds |
| Poker.Suit | hw-02-poker/poker.py:49-51 | `get_suite`: the card's second character |
| Poker.Rank | hw-02-poker/poker.py:54-60 | the rank is two more than the card's position in `23456789TJQKA` |
| Poker.CardRanks | hw-02-poker/poker.py:63-66 | the hand's ranks, from high to low, as a permutation, each between 2 and 14 |
| Poker.SuitCount | hw-02-poker/poker.py:72 | the number of cards of a suit is at most the hand size |
| Poker.SuitCountFull | hw-02-poker/poker.py:69-72 | the count equals the hand size exactly when every card has that suit |
| Poker.Flush | hw-02-poker/poker.py:69-72 | a flush exactly when every card has the first card's suit |
| Poker.Neighbours | hw-02-poker/poker.py:78-84 | the neighbour string has a `1` exactly where the next rank is one higher |
| Poker.FindFrom | hw-02-poker/poker.py:85 | the first occurrence of the pattern from a position, or -1 when there is none |
| Poker.Find | hw-02-poker/poker.py:85 | `str.find`: -1 exactly when the pattern does not occur, otherwise its first occurrence |
| Poker.Ones | hw-02-poker/poker.py:85 | `"1" * k` |
| Poker.Straight | hw-02-poker/poker.py:75-85 | `straight(ranks, k)`: `k` ones in a row in the neighbour string; `Poker.StraightIsRisingRun` gives its meaning |
| Poker.StraightIsRisingRun | hw-02-poker/poker.py:75-85 | `straight(ranks, k)` holds exactly when `k + 1` consecutive ranks each rise by one |
| Poker.StraightHasRun | hw-02-poker/poker.py:75-85 | a straight's found position starts such a rising run |
| Poker.RunMakesStraight | hw-02-poker/poker.py:75-85 | a rising run anywhere makes `straight` true |
| Poker.StraightFalseOnDescending | hw-02-poker/poker.py:63-85 | on ranks sorted downwards, as `card_ranks` gives them, `straight` never holds |
| Poker.KindOver | hw-02-poker/poker.py:93-96 | the loop result over some keys is 0 or a key with count `n`, and no such key is larger |
| Poker.KindOf | hw-02-poker/poker.py:88-96 | `kind(n, ranks)` is the highest rank with count exactly `n`, or 0 when none has it |
| Poker.Kind | hw-02-poker/poker.py:88-96 | the loop computes that rank |
| Poker.TwoPair | hw-02-poker/poker.py:99-105 | `None` exactly when no rank occurs twice; otherwise the ranks that occur twice, each once |
| Poker.Classify | hw-02-poker/poker.py:26-46 | the if-chain of `hand_rank` on the sorted ranks and the flush test; `Poker.ClassifyIsHighest` says which branch it takes |
| Poker.HandRank | hw-02-poker/poker.py:26-46 | `hand_rank(hand)`: the chain on `card_ranks(hand)` and `flush(hand)` |
| Poker.ClassifyIsHighest | hw-02-poker/poker.py:26-46 | on positive ranks, the branch taken is the highest category whose own description fits: a run of five rises, ranks occurring four, three or two times, one suit; a single pair fits two pairs as well as one pair |
| Poker.HoldsRun | hw-02-poker/poker.py:29-37 | the straight categories' descriptions agree with `straight(ranks)` |
| Poker.HoldsCounts | hw-02-poker/poker.py:31-44 | the four, full house, three and pair descriptions agree with `kind` being non-zero |
| Poker.HoldsTwoPair | hw-02-poker/poker.py:41-42 | `two_pair` answers exactly when some rank occurs twice |
| Poker.KindOfFound | hw-02-poker/poker.py:88-96 | on positive ranks, `kind(n, ranks)` is non-zero exactly when some rank occurs `n` times |
| Poker.HandRankIsHighest | hw-02-poker/poker.py:26-46 | `hand_rank` answers with the highest category that fits the hand |
| Poker.CardRanksSorted | hw-02-poker/poker.py:63-66 | `card_ranks` of a rankable hand is non-empty, sorted downwards, and every rank is at least 2 |
| Poker.ClassifyMeaning | hw-02-poker/poker.py:26-46 | each category's payload: four of a kind and its single kicker, the full house's three and two, the flush's ranks, the three, and the pairs |
| Poker.ClassifyHighCard | hw-02-poker/poker.py:26-46 | a high card has no flush and no rank occurring two, three or four times |
| Poker.HandRankMeaning | hw-02-poker/poker.py:26-46 | the same payload facts for `hand_rank(hand)` |
| Poker.HandRankHighCard | hw-02-poker/poker.py:26-46 | a high-card hand is not a flush and has no pair, three or four of a kind |
| Poker.FourOfAKindFound | hw-02-poker/poker.py:31-32 | a hand with four cards of one rank is ranked four of a kind |
| Poker.ClassifyFindsFour | hw-02-poker/poker.py:31-32 | the same, on sorted ranks |
| Poker.HandRankNeverStraight | hw-02-poker/poker.py:26-38 | `hand_rank` never answers straight or straight flush |
| Poker.ClassifyNeverStraight | hw-02-poker/poker.py:26-38 | the same, on ranks sorted downwards |
| Poker.HandRankNeverOnePair | hw-02-poker/poker.py:41-44 | `hand_rank` never answers one pair, because `two_pair` is truthy for a single pair |
| Poker.ClassifyNeverOnePair | hw-02-poker/poker.py:41-44 | the same, on sorted ranks |
| Poker.CompareRankInfo | hw-02-poker/poker.py:108-124 | with no best yet the answer is yes; between categories, the higher category wins |
| Poker.Key | hw-02-poker/poker.py:108-124 | the compared key starts with the category |
| Poker.CompareByKey | hw-02-poker/poker.py:108-124 | `compare_rank_info(a, b)` is a lexicographic "greater than": for flushes whether the ranks hold a four-card straight, for full houses three then two, for four of a kind the sum of four and kicker, otherwise the category alone |
| Poker.LexPairs | hw-02-poker/poker.py:113-114 | two keys with equal heads compare by their second entries |
| Poker.LexTriples | hw-02-poker/poker.py:115-119 | three-entry keys with equal heads compare by the second entries, then the third |
| Poker.CompareIrreflexive | hw-02-poker/poker.py:108-124 | no value beats itself |
| Poker.CompareAsymmetric | hw-02-poker/poker.py:108-124 | two values never beat each other |
| Poker.CompareTransitive | hw-02-poker/poker.py:108-124 | beating is transitive |
| Poker.CompareNotBeatenStep | hw-02-poker/poker.py:133-135 | a value that beats the current best is not beaten by anything the best was not beaten by |
| Poker.FlushesTie | hw-02-poker/poker.py:113-114 | since `straight(ranks, 4)` never holds on sorted ranks, no flush beats another |
| Poker.ClassifyFlushesTie | hw-02-poker/poker.py:113-114 | the same, on sorted ranks |
| Poker.ClassifyFlushRanks | hw-02-poker/poker.py:35-36 | a flush carries the sorted ranks |
| PokerSearch.ScanBest | hw-02-poker/poker.py:129-136 | the scan's position exists exactly when there is a value, and is in range |
| PokerSearch.ScanBestStep | hw-02-poker/poker.py:131-135 | one more value takes the kept position exactly when nothing is kept yet or it beats the kept value |
| PokerSearch.ScanBestMaximal | hw-02-poker/poker.py:129-136 | for any comparison that is irreflexive and under which beating the kept value means beating all it beat, no scanned value beats the kept one |
| PokerSearch.BeatsIsStrict | hw-02-poker/poker.py:108-124 | `compare_rank_info` never prefers a value to itself, and a value that beats the best is beaten by nothing the best was not |
| PokerSearch.NothingBeatsScanBest | hw-02-poker/poker.py:129-136 | under `compare_rank_info`, no scanned value beats the one the scan keeps |
| PokerSearch.Values | hw-02-poker/poker.py:132 | `hand_rank` of each combination |
| PokerSearch.BestOf | hw-02-poker/poker.py:129-136 | the scan's answer is `None` exactly when there is nothing to scan, and is otherwise one of the candidates |
| PokerSearch.BestOfStep | hw-02-poker/poker.py:131-135 | one more candidate replaces the best exactly when `compare_rank_info` says it is better |
| PokerSearch.BestOfPrefixStep | hw-02-poker/poker.py:131-135 | the same step on prefixes of the candidate list |
| PokerSearch.BestOfMaximal | hw-02-poker/poker.py:129-136 | no candidate beats the answer |
| PokerSearch.CombinationsRankable | hw-02-poker/poker.py:131-132 | every five-card combination of valid cards can be ranked |
| PokerSearch.BestHand | hw-02-poker/poker.py:127-136 | the loop returns the scan's answer over the five-card combinations |
| PokerSearch.BestOfCombinations | hw-02-poker/poker.py:127-136 | `best_hand` answers `None` exactly below five cards; otherwise it gives five cards of the hand in hand order, beaten by no combination |
| PokerSearch.BestHandBeatsEveryChoice | hw-02-poker/poker.py:127-136 | no way of keeping five of the hand's cards in order beats `best_hand`'s answer |
| PokerSearch.JokerSuits | hw-02-poker/poker.py:144 | `suites`: clubs and spades for the black joker, hearts and `W` for the red one |
| PokerSearch.Wildcards | hw-02-poker/poker.py:143-145 | 26 two-character cards, each with a real rank and one of the joker's two suits |
| PokerSearch.WildcardsAreProduct | hw-02-poker/poker.py:143-145 | a card is a replacement exactly when it is a rank followed by one of the joker's suits |
| PokerSearch.RedJokerSuits | hw-02-poker/poker.py:144 | the red joker offers `'W'` cards and never diamonds |
| PokerSearch.IndexOf | hw-02-poker/poker.py:150 | the first position of the card |
| PokerSearch.RemoveFirst | hw-02-poker/poker.py:150 | `list.remove` drops one copy of the card |
| PokerSearch.OptionsOverShape | hw-02-poker/poker.py:147-152 | each option is the hand minus the joker plus a replacement not already held |
| PokerSearch.OptionsOverComplete | hw-02-poker/poker.py:147-152 | every replacement not already held gives an option |
| PokerSearch.Options | hw-02-poker/poker.py:139-153 | `hand_options(hand, joker)`: nothing without the joker, otherwise one hand per replacement not held; `PokerSearch.OptionsShape` and `PokerSearch.OptionsComplete` characterise it |
| PokerSearch.OptionsShape | hw-02-poker/poker.py:139-153 | each option of `hand_options` is the hand minus one joker plus a replacement card not already held |
| PokerSearch.OptionsComplete | hw-02-poker/poker.py:139-153 | every replacement card not already held gives an option |
| PokerSearch.HandOptions | hw-02-poker/poker.py:139-153 | the loop builds exactly those options, in product order |
| PokerSearch.OptionReady | hw-02-poker/poker.py:148-152 | an option keeps the hand size, loses that joker and keeps the other joker's count |
| PokerSearch.SwapKeepsReady | hw-02-poker/poker.py:148-152 | swapping a joker for a real card not held leaves a hand of valid distinct cards without that joker, and the other joker's count unchanged |
| PokerSearch.OptionsReady | hw-02-poker/poker.py:139-153 | every option has valid distinct cards, the original size and no copy of the replaced joker |
| PokerSearch.OptionsPlayable | hw-02-poker/poker.py:139-153 | with the other joker absent, every option is a full hand of valid cards |
| PokerSearch.ExpandPlayable | hw-02-poker/poker.py:158-162 | replacing the red joker in every black-joker option gives full hands of valid cards |
| PokerSearch.Expand | hw-02-poker/poker.py:161-162 | the red-joker options of each black-joker option, in order |
| PokerSearch.WildHands | hw-02-poker/poker.py:156-166 | the hands `best_wild_hand` searches, by which jokers the hand holds |
| PokerSearch.WildHandsPlayable | hw-02-poker/poker.py:156-166 | every hand searched has the original size and no joker |
| PokerSearch.AllCombosRankable | hw-02-poker/poker.py:173-175 | every combination visited is five valid cards |
| PokerSearch.ExpandStep | hw-02-poker/poker.py:161-162 | one more black-joker option appends its red-joker options |
| PokerSearch.AllCombos | hw-02-poker/poker.py:173-174 | every five-card combination of every hand, hand after hand |
| PokerSearch.WildCandidates | hw-02-poker/poker.py:156-174 | the five-card hands `best_wild_hand` compares |
| PokerSearch.AllCombosStep | hw-02-poker/poker.py:173-174 | one more hand appends its combinations to those visited |
| PokerSearch.BestOfConcatStep | hw-02-poker/poker.py:174-178 | one more combination in the nested loop is one step of the scan |
| PokerSearch.WildCandidatesFacts | hw-02-poker/poker.py:156-168 | the candidates are rankable, and without a joker they are the combinations `best_hand` scans |
| PokerSearch.AllCombosSingle | hw-02-poker/poker.py:167-168 | scanning one hand's combinations is `best_hand`'s scan |
| PokerSearch.BestWildHandIsBest | hw-02-poker/poker.py:156-179 | the answer is five valid cards with no joker, beaten by no candidate |
| PokerSearch.BestWildHand | hw-02-poker/poker.py:156-179 | the method returns the scan's answer over every combination of every joker replacement, or `best_hand`'s answer without a joker |
| PokerSearch.JokerHands | hw-02-poker/poker.py:158-166 | the hands built are exactly the joker replacements, black joker first |
| PokerSearch.ScanCombos | hw-02-poker/poker.py:174-178 | the inner loop continues the scan over one hand's combinations, ending with the answer over all candidates seen so far |
| PokerSearch.ScanHands | hw-02-poker/poker.py:171-179 | the nested loops return the scan's answer over every combination of every hand |
| EarlyPoker.ValidCard | hw-01/poker.py:28-29 | a card whose first character is a one-character key of `rank2num`, followed by a suit |
| EarlyPoker.RankNum | hw-01/poker.py:28-29 | `rank2num[ch]` is the character's position in `123456789TJQKA`, counted from one |
| EarlyPoker.Rank | hw-01/poker.py:58 | a card's rank lies between 1 and 14 |
| EarlyPoker.CardRanks | hw-01/poker.py:55-58 | the hand's ranks from low to high, as a permutation, each between 1 and 14 |
| EarlyPoker.CardRanksUnique | hw-01/poker.py:55-58 | every ascending arrangement of the ranks is `card_ranks` |
| EarlyPoker.Suit | hw-01/poker.py:63 | the card's second character |
| EarlyPoker.Flush | hw-01/poker.py:61-63 | a flush exactly when all cards share a suit; one card or none is a flush |
| EarlyPoker.Straight | hw-01/poker.py:66-69 | `straight(ranks)`: each rank is one less than the next; `EarlyPoker.StraightIsRun` gives its meaning |
| EarlyPoker.StraightIsRun | hw-01/poker.py:66-69 | `straight` holds exactly when the ranks count up by one from the first; at most one rank is a straight |
| EarlyPoker.StraightAt | hw-01/poker.py:66-69 | in a straight the `i`-th rank is the first plus `i` |
| EarlyPoker.FirstWithCount | hw-01/poker.py:78-79 | `None` exactly when no key has the count; otherwise a key with that count |
| EarlyPoker.FirstWithCountIsFirst | hw-01/poker.py:78-79 | no key before the answer has the count |
| EarlyPoker.Kind | hw-01/poker.py:72-79 | `None` exactly when no rank occurs `n` times; otherwise a rank occurring `n` times |
| EarlyPoker.KindIsFirstKey | hw-01/poker.py:72-79 | the answer is the first `Counter` key with count `n` |
| EarlyPoker.DistinctAscending | hw-01/poker.py:75 | on ascending ranks the `Counter` keys are strictly ascending |
| EarlyPoker.KindSmallest | hw-01/poker.py:72-79 | on ascending ranks `kind(n)` is the smallest rank occurring `n` times |
| EarlyPoker.CountsOf | hw-01/poker.py:86 | `cnt.values()` in key order |
| EarlyPoker.WithCount | hw-01/poker.py:88-89 | the keys with a given count, in key order |
| EarlyPoker.WithCountSize | hw-01/poker.py:86-89 | as many keys have count `n` as the value `n` occurs among the counts |
| EarlyPoker.WithCountAscending | hw-01/poker.py:88-89 | selected keys keep an increasing order |
| EarlyPoker.WithCountNoDup | hw-01/poker.py:88-89 | selected keys are distinct |
| EarlyPoker.SortsToOneTwoTwo | hw-01/poker.py:86 | a list sorts to `[1, 2, 2]` exactly when it holds one 1 and two 2s |
| EarlyPoker.TwoPairCounts | hw-01/poker.py:86 | the counts sort to `[1, 2, 2]` exactly when they are one, two and two, and then two keys are pairs |
| EarlyPoker.PairsFacts | hw-01/poker.py:88-89 | the two paired ranks differ, occur twice, are the only such ranks, and come lower first on ascending ranks |
| EarlyPoker.TwoPair | hw-01/poker.py:82-89 | `two_pair(ranks)`: the paired keys when the counts sort to `[1, 2, 2]`; `EarlyPoker.TwoPairMeaning` gives its meaning |
| EarlyPoker.TwoPairMeaning | hw-01/poker.py:82-89 | `two_pair` answers exactly for two pairs and a single, naming the two paired ranks, lower first on sorted ranks |
| EarlyPoker.Classify | hw-01/poker.py:32-52 | the if-chain of `hand_rank` on the sorted ranks and the flush test; `EarlyPoker.ClassifyIsHighest` says which branch it takes |
| EarlyPoker.HandRank | hw-01/poker.py:32-52 | `hand_rank(hand)`: the chain on `card_ranks(hand)` and `flush(hand)` |
| EarlyPoker.ClassifyIsHighest | hw-01/poker.py:32-52 | the branch taken is the highest category whose own description fits the ranks and `flush` |
| EarlyPoker.HasCountKind | hw-01/poker.py:37-49 | `kind(n)` is truthy exactly when some rank occurs `n` times |
| EarlyPoker.ClassifyPayload | hw-01/poker.py:32-52 | each category's payload: a straight's top is its lowest plus length minus one; the four, three and pairs have their counts |
| EarlyPoker.ClassifyStraightHigh | hw-01/poker.py:35-44 | a straight, flush or not, carries its lowest rank plus its length minus one |
| EarlyPoker.ClassifyKindCounts | hw-01/poker.py:37-50 | four of a kind, full house, three of a kind and one pair carry ranks occurring four, three and two, two and two times |
| EarlyPoker.ClassifyTwoPairs | hw-01/poker.py:47-48 | two pairs carry two different ranks, each occurring twice, lower first |
| EarlyPoker.ClassifyCarriesRanks | hw-01/poker.py:41-52 | a high card, one pair, two pairs, three of a kind or flush carries the sorted ranks |
| EarlyPoker.ClassifyComparable | hw-01/poker.py:37-38 | every value of five ranks can be compared: a four of a kind has its kicker |
| EarlyPoker.StraightTop | hw-01/poker.py:36-44 | the `max` of an ascending straight is its first rank plus its length minus one |
| EarlyPoker.FiveCardsKicker | hw-01/poker.py:38 | in five cards, four of a kind leaves a single kicker |
| EarlyPoker.HandRankIsHighest | hw-01/poker.py:32-52 | `hand_rank` answers with the highest category that fits the hand |
| EarlyPoker.FiveCardsComparable | hw-01/poker.py:38 | every five-card value can be compared: the kicker is present |
| EarlyPoker.Key | hw-01/poker.py:32-52 | the flattened tuple starts with the category |
| EarlyPoker.CategoryDecides | hw-01/poker.py:32-52 | a higher category always compares greater |
| EarlyPoker.MaxIndex | hw-01/poker.py:101 | the position `max` settles on is in range |
| EarlyPoker.MaxIndexIsFirstMaximal | hw-01/poker.py:101 | no key exceeds the one `max` returns, and every earlier key is smaller |
| EarlyPoker.Keys | hw-01/poker.py:96-101 | one compared key per combination |
| EarlyPoker.CombinationsFiveCards | hw-01/poker.py:95 | every combination is five valid cards |
| EarlyPoker.BestHand | hw-01/poker.py:92-101 | `best_hand` returns five of the hand's cards, in hand order |
| EarlyPoker.BestHandIsFirstBest | hw-01/poker.py:92-101 | the answer is beaten by no combination and comes before every combination that ties with it |
| EarlyPoker.BestHandBeatsEveryChoice | hw-01/poker.py:92-101 | no way of keeping five of the hand's cards in order has a larger `hand_rank` than the answer |

## Left out

- File I/O is not modelled: `open_logfile`, `open_log` and both `main` functions (gzip and plain file reading, progress printing, the read loops), with the `index2props` coercion in the earlier `main`.
- `float(...)` in `process_log_line` is the parameter `parse`, a function from text to an optional number. Floating point itself is not modelled.
- LogAnalyzer.ProcessFields: the `KeyError` for a missing `request_time` and the `ValueError` of `float` are one `Result` failure, not Python exceptions.
- ChunkParser.ParseItems: requires a non-empty line. On an empty line the source fails, because the loop variable is never bound.
- ChunkParser.IsSpace: lists the characters `str.isspace()` accepts; Unicode tables beyond that list are not modelled.
- Poker.Rank: covers only the rank characters `23456789TJQKA`. `int()` would also accept `0`, `1` and other Unicode digits, and raises `ValueError` on anything else. Malformed cards are excluded by precondition.
- EarlyPoker.BestHand: requires at least five cards. With fewer, `combinations` is empty and the source's `max` raises `ValueError`.
- LogAnalyzer.IsMarker: fixes `item_symbols` to its default `("\"", "[", "]")`; a caller-supplied tuple of markers is not modelled.
- EarlyPoker.RankNum: covers only the one-character keys of `rank2num`; the `KeyError` for any other first character is excluded by precondition.
- Poker.Flush: requires a non-empty hand, where the source raises `IndexError`.
- PokerSearch.BestWildHand: requires at most one joker of each colour. With two of the same joker the source ranks a joker card and fails.
- The `print` calls in both `best_hand` functions are not modelled.
- The hw-01 `best_wild_hand` is a stub returning `None` and is not modelled.
- tests.py and utils.py are not part of this model, including `select_recent_log` and `build_report`, which the analyzer imports. Neither deco.py is part of this model.
- Python's mixed-type tuple comparison is replaced by datatypes and an explicit lexicographic order on flattened keys (`Poker.Key`, `EarlyPoker.Key`).
- EarlyPoker.Key: requires a comparable value. A four of a kind without a kicker, which never arises for five cards, would raise `TypeError` in Python when compared.
- EarlyPoker.TwoPair: the stable sort of the `Counter` items by falling count is represented by its outcome, the paired keys in key order.
- The searches return candidates as lists; that `combinations` yields tuples is not modelled.
