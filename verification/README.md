# Yurine, verified: range search, index and snapshots

Yurine searches a corpus of token sequences for every segment whose weighted edit
distance from a query is within a threshold. The edit costs are arbitrary
non-negative functions: they may be asymmetric, break the triangle inequality, make
substituting a token for itself costly, and bear no relation between substitution
and deletion plus insertion. This project models the search pipeline, the index it
reads and the snapshot files both are saved in, and proves that they do what the
library promises.

**Search.** The distance of two sequences is specified as the least cost of an
explicit edit script (`EditScripts.IsDistance`), not as a recurrence. Against that
specification stand the shared dynamic-programming kernel, the anchored verifier
with its cached and pruned tries (mutable nodes), the exhaustive verifier, the
primal-dual selection loop over an array of items, the neighborhoods and the ladder
of radii, candidate generation, query encoding and engine construction.
`RangeSearch.SearchWithMetrics` joins them: on any engine that represents the data
sequences, a search returns exactly the non-empty segments within the threshold,
each once, in order and with its distance, or it declines, and when it declines is
an if-and-only-if. On an engine opened from a file and not verified, whose postings
may name anything, it reports only alignments of stored segments at their true cost,
or the first candidate the file cannot back.

**Index.** The counting-offset build equals the inverted index of the corpus, and
verifying an index by counting alone accepts exactly that index.

**Snapshots.** The file layout always passes the parser's structural checks, the
parser accepts exactly the files that keep every structural promise, and opening
undoes saving for the search engine and for custom cost policies. What opens is
also characterized for arbitrary bytes: exactly the engines and the policies that a
well-formed file holds.

How numbers are modelled:

- Costs on the main line are whole numbers of quanta, so the next representable cost
  is one quantum more and a strict bound one above the threshold admits exactly the
  distances at most the threshold. `Policy.max` is the largest cost. A cell of the
  dynamic program is `Finite(n)` with `n` at most the largest cost, or `Infinite`.
- Payments inside the selection loop are `real`.
- Two questions are about rounding itself and are answered with rounding modelled:
  `SinglePrecision` has a 24-bit significand, gradual underflow and
  round-to-nearest-even (section 4.3.1 of IEEE 754-2019), and `RoundedSelection`
  allows any addition of values that is monotone and neutral at zero, of which
  single-precision addition is proved to be one.
- Symbols, identifiers and positions are bounded by their 32-bit widths, file
  offsets and lengths by 64 bits, where the library checks them; host sizes are
  64-bit.

Modules, in reading order: `Wrappers`, `Types`, `Collections`, `Costs`,
`EditScripts`, `Kernel`, `BidirectionalTrie`, `AnchoredVerification`,
`SmithWaterman`, `Agreement`, `Sorting`, `Store`, `Postings`, `IndexVerification`,
`Vocabulary`, `Encoding`, `Engine`, `Neighborhood`, `KnapsackCover`, `Selection`,
`Eta`, `Filtering`, `RangeSearch`, `SinglePrecision`, `RoundedSelection`,
`SaturatedCount`, `Bytes`, `FileLayout`, `FileParser`, `WrittenFiles`, `Codecs`,
`CostMetadata`, `CostContents`, `CustomCosts`, `CostFiles`, `EngineSnapshot`.

Where code and documentation disagree, the code is followed:

- `src/search/filtering.rs:56-58` says that a saturated candidate count stays above
  every limit. It does not exceed the limit `usize::MAX`.
  `SaturatedCount.LargestLimitIsNotExceeded` gives a search where that shows: 2^32
  strings of 256 equal symbols, and a query of 2^24 positions that each cost one to
  delete. No cost sum of that search is rounded in single precision, so the up-front
  check admits it, every selection takes all positions, and there are 2^64
  candidates. `Filtering.LimitDecisionIsExactIff` is the exact condition on the
  limit under which the decision is right for every count.

## Model

| member | source | states |
|---|---|---|
| RangeSearch.SearchWithMetrics | src/search/range_search.rs:172-194 | for any costs, on any assembled engine over an owned checked store or a mapped one: where the engine represents the data sequences, success returns exactly the non-empty segments whose least script cost is at most the threshold, each once, ordered, with that cost, and no candidate or unknown-string error is possible; on any other, every match is a segment of the stored corpus that spells vocabulary tokens, with the cost of a script over those tokens, so never below their distance, and the only further errors are those of the first candidate the stored arrays cannot back; the search is declined as unavailable if and only if the threshold reaches the cost of deleting the query; too-expensive is reported only when the selection settled on has more candidates than the limit, with their saturated number, and an answer or an invalid candidate only when it does not; that selection is made at the least radius that selects, from the threshold's share per query position upwards; invalid cost is exactly a threshold that is not a number between zero and the largest cost; the three measurements describe that selection |
| RangeSearch.Search | src/search/range_search.rs:165-168 | the same matches, and each error under the same condition: for the selection settled on, more candidates than the limit decline the search, otherwise the first invalid candidate does, otherwise the matches are the anchored answers of its candidates; with no limit, a valid threshold below the query's deletion cost always gets an answer, except from stored arrays that cannot back a candidate |
| RangeSearch.SearchQueryString | src/search/range_search.rs:196-242 | over symbols: exact answers where the index inverts the corpus, and on any engine exactly the anchored answers of candidates that all passed validation, or the first invalid one's error; exact decline condition; the measurements describe the selection used, and the limit is compared with the number of candidates that would be generated |
| RangeSearch.StartingRadiusIsShare | src/search/range_search.rs:97-109 | the starting radius times the query length is at most the threshold, and the next radius times it is more; zero for an empty query |
| RangeSearch.VerifiedIsAlignment | src/store.rs:60-72 | whatever the postings of a mapped index name, a reported segment lies in its string, spells vocabulary tokens and has the cost of an edit script from the query to those tokens |
| RangeSearch.OnlyTokensArePriced | src/search/encoding.rs:89-97 | every symbol of the query, of the alphabet and of a validated candidate's string stands for a token, so looking up its token never panics |
| RangeSearch.InvalidIsUnreadable | src/search/verification.rs:74-97 | a generated candidate can only fail validation by its string, its data position or a symbol of its string, never by its query position |
| RangeSearch.RepresentedIsExact | src/search/verification.rs:32-36 | where the index inverts the corpus, all candidates validate and the anchored answers reported are the exact answers |
| RangeSearch.SelectPositions | src/search/range_search.rs:258-293 | the binary search keeps the selection made at the least radius, among all radii at least the derived one, at which selection succeeds, and fails only when no radius succeeds |
| RangeSearch.SelectAt | src/search/range_search.rs:296-313 | at one radius selection succeeds exactly when the contributions together leave the bound |
| RangeSearch.AnswersAreUnique | src/search/verification.rs:32-36 | ordered lists holding exactly the answers are equal, so the radius cannot show in the matches |
| RangeSearch.VerifiedIsExact | src/search/verification/bidirectional_trie.rs:15-22 | once the bound is within the query's deletion cost, a substring is within the bound over all scripts exactly when it is over scripts using a generated candidate, at the same cost |
| RangeSearch.CandidatesValidate | src/search/verification.rs:74-97 | every candidate generated on a represented corpus passes validation, also over a mapped store |
| AnchoredVerification.Verify | src/search/verification/bidirectional_trie.rs:126-233 | fails with the first invalid candidate's error, otherwise reports, strictly ordered, exactly the substrings whose least cost over scripts pairing some candidate is within the bound, with that cost |
| AnchoredVerification.DuplicatesDoNotShow | src/search/filtering.rs:14-20 | candidates with the same elements give the same matches, in whatever order and however often each is listed |
| AnchoredVerification.ValidatedCandidateString | src/search/verification.rs:74-97 | success exactly for a candidate whose string exists, whose positions are in range and, on a mapped store, whose string has only vocabulary symbols; otherwise the first failed check names the error, with its numbers |
| AnchoredVerification.VerifyCandidates | src/search/verification/bidirectional_trie.rs:147-218 | after all candidates, sharing the tries, the table holds exactly the least cost through any candidate of each segment within the bound |
| AnchoredVerification.VerifyCandidate | src/search/verification/bidirectional_trie.rs:148-160 | one candidate adds exactly what it reaches within the bound; an anchor too dear reaches nothing |
| AnchoredVerification.ExtendAnchor | src/search/verification/bidirectional_trie.rs:162-217 | walking both directions with pruning records exactly the segments the anchor reaches within the bound, keeping the smaller of two costs |
| AnchoredVerification.OfferIsVia | src/search/verification/bidirectional_trie.rs:200-217 | the sum of the two walked cells and the anchor is admitted exactly when the least cost through the anchor is within the bound, and is that cost |
| AnchoredVerification.LeastViaIsAnchoredAnswer | src/search/verification/bidirectional_trie.rs:3-6 | the least two-sided cost over the candidates is the least cost over scripts that pair a candidate |
| AnchoredVerification.AnchoredAnswerIsLeastVia | src/search/verification/bidirectional_trie.rs:3-6 | and conversely |
| AnchoredVerification.CollectMatches | src/search/verification/bidirectional_trie.rs:220-232 | reading the ordered table gives each tabulated segment once, in order |
| EditScripts.WedIsDistance | src/search/verification.rs:140-176 | the recurrence is the least cost over all edit scripts, and some script attains it |
| EditScripts.ReversalKeepsDistance | src/search/verification/bidirectional_trie.rs:67-86 | reversing both sequences keeps the distance |
| EditScripts.NoAnchoredScriptIsCheaper | src/search/verification/bidirectional_trie.rs:200-207 | splitting a script at a pairing: no script through an anchor costs less than prefix, anchor and suffix together |
| EditScripts.AnchoredWedIsLeast | src/search/verification/bidirectional_trie.rs:3-6 | prefix distance plus anchor plus suffix distance is the least cost over scripts pairing the two positions, and never below the distance |
| Kernel.RootColumn | src/search/verification.rs:123-138 | the loop computes the capped distances of every query prefix to the empty string |
| Kernel.StepDp | src/search/verification.rs:141-176 | a column of capped distances becomes the column for one more data symbol |
| Kernel.FloorDecidesExhaustion | src/search/verification/bidirectional_trie.rs:115-119 | the column minimum is below the budget exactly when some query prefix is |
| Kernel.ExhaustionIsFinal | src/search/verification/bidirectional_trie.rs:115-119 | the column minimum never falls as the data grows, so stopping early is safe |
| BidirectionalTrie.CachedPrefixDistances | src/search/verification/bidirectional_trie.rs:88-124 | whatever the trie holds, the walk returns the capped distances of a fresh program up to the first exhausted prefix, and every node still holds the column of its path |
| BidirectionalTrie.Child | src/search/verification/bidirectional_trie.rs:109-113 | an existing edge is followed and nothing else changes; a missing one is added with the stepped column |
| BidirectionalTrie.WalkLosesNothing | src/search/verification/bidirectional_trie.rs:115-119 | beyond the end of a pruned walk every distance is at least the budget |
| BidirectionalTrie.WalkIsDetermined | src/search/verification/bidirectional_trie.rs:104-113 | two walks over the same symbols with the same budget return the same distances, whatever the cache held before each |
| BidirectionalTrie.TrieForest.BackwardRoot | src/search/verification/bidirectional_trie.rs:170-175 | the backward root of a position is reused or created over the reversed query prefix |
| BidirectionalTrie.TrieForest.WalkBackward | src/search/verification/bidirectional_trie.rs:176-184 | the cached walk over the reversed query prefix, keeping every trie of the forest valid |
| BidirectionalTrie.TrieForest.ForwardRoot | src/search/verification/bidirectional_trie.rs:186-191 | the forward root of a position is reused or created over the query suffix |
| BidirectionalTrie.TrieForest.WalkForward | src/search/verification/bidirectional_trie.rs:192-198 | the cached walk over the query suffix, keeping every trie of the forest valid |
| SmithWaterman.Verify | src/search/verification/smith_waterman.rs:32-53 | the exhaustive verifier reports exactly the admitted substrings of the candidates' strings, with their edit distance, ordered |
| SmithWaterman.EnumerateSubstringMatches | src/search/verification/smith_waterman.rs:72-151 | the nested loops over two buffers allocated once report exactly the admitted non-empty substrings of one string, by start and then end |
| SmithWaterman.EnumerateFrom | src/search/verification/smith_waterman.rs:91-148 | for one start, the two buffers, refilled and swapped at every end, measure every end |
| SmithWaterman.NextColumn | src/search/verification/smith_waterman.rs:110-133 | refilling the spare buffer in place gives the next column of capped distances |
| SmithWaterman.RefillRoot | src/search/verification/smith_waterman.rs:96-104 | refilling a buffer in place gives the column of the empty data prefix |
| Agreement.AnchoringIsExactIff | src/search/verification/bidirectional_trie.rs:8-16 | some anchor lies on a best script of every pair of non-empty sequences if and only if no substitution costs more than deleting and inserting |
| Agreement.AnchoringLosesNothing | src/search/verification/bidirectional_trie.rs:8-13 | within that inequality a best script can be taken through an anchor |
| Agreement.VerifiersAgree | src/search/verification/smith_waterman.rs:20-31 | on all anchors, a non-empty query and costs within the inequality, any lists meeting the two verifiers' contracts are equal |
| Costs.FromInclusive | src/search/bound.rs:19-36 | fails only for the largest cost; otherwise the bound admits exactly the distances at most the threshold |
| KnapsackCover.CoverGainsResidual | src/search/filtering/candidate.rs:89-101 | whatever covers the bound gains the whole residual outside the chosen set |
| KnapsackCover.TightSetGainsAtMostTwice | src/search/filtering/candidate.rs:89-101 | a set that stops covering without its last member gains at most twice the residual |
| KnapsackCover.RoundKeepsCertificate | src/search/filtering/candidate.rs:86-137 | a round keeps the payments a feasible dual solution, tight for the chosen positions |
| KnapsackCover.CertifiedIsTwoApproximation | src/search/filtering/candidate.rs:20-21 | a certified cover holds at most twice the postings of any cover |
| Selection.Select | src/search/filtering/candidate.rs:40-141 | success exactly when the counts fit and the contributions leave the bound; the selected positions carry their neighborhoods, leave the bound, and hold at most twice the postings of any positions that do |
| Selection.SelectFrom | src/search/filtering/candidate.rs:80-140 | the loop over the mutable items keeps the certificate and fails only when all contributions stay below the bound |
| Selection.PickBest | src/search/filtering/candidate.rs:91-107 | the first unselected position with the least unpaid-to-gain ratio, or none when none can gain |
| Selection.PayAndMark | src/search/filtering/candidate.rs:111-127 | every unselected position that can gain pays its gain times the ratio, and only the best one is marked and emptied |
| Selection.CountNeighbors | src/search/filtering/candidate.rs:64-69 | the neighborhood's posting count, or the failure exactly when it leaves the integer range |
| Selection.Score | src/search/filtering/candidate.rs:60-78 | one unpaid item per query position, in order |
| Neighborhood.SubstitutionNeighborhood.Scan | src/search/filtering/neighborhood.rs:50-70 | one pass gives the neighbors in alphabet order and the cheapest way out |
| Neighborhood.NewNeighborhood | src/search/filtering/neighborhood.rs:22-36 | accepts exactly the alphabets without repetition |
| Neighborhood.NoCheaperWayOut | src/search/filtering/neighborhood.rs:43-49 | deleting the symbol, or substituting one outside its neighborhood, costs at least the way out |
| Neighborhood.WayOutIsAttained | src/search/filtering/neighborhood.rs:60-68 | the way out is the cost of one of those edits |
| Neighborhood.WayOutGrows | src/search/filtering/eta.rs:10-15 | a wider radius never makes the way out cheaper |
| Neighborhood.SameBetweenCosts | src/search/filtering/eta.rs:39-40 | neighborhoods and ways out change only at substitution costs |
| Eta.WiderRadiiAreTheCostsAbove | src/search/filtering/eta.rs:48-70 | exactly the substitution costs above the radius, strictly increasing |
| Eta.SomeRadiusLeavesIff | src/search/filtering/eta.rs:21-34 | the deletion check holds if and only if some radius from the derived one on makes the contributions leave the bound |
| Eta.LadderReaches | src/search/filtering/eta.rs:36-40 | of any property that widening keeps and only crossing a substitution cost brings about, a radius that has it is preceded by a rung that already does |
| Eta.LeavingWidens | src/search/filtering/eta.rs:10-15 | leaving the bound is such a property |
| Eta.NarrowedIsLeast | src/search/range_search.rs:278-292 | once the binary search has closed in, the rung found is the least radius from the starting one with the property, and no rung means no radius |
| Eta.ContributionsGrow | src/search/filtering/eta.rs:10-15 | the contributions together grow with the radius |
| Eta.CountsFitOnRealIndex | src/search/filtering/candidate.rs:64-69 | distinct posting lists of one index cannot overflow the count |
| Filtering.GenerateCandidates | src/search/filtering.rs:25-43 | the anchors in selected-position, neighborhood and postings order |
| Filtering.CandidateAt | src/search/filtering.rs:10-43 | the candidate of a posting of a neighbor of a selected position stands after those of the earlier positions, of its earlier neighbors and of its earlier postings |
| Filtering.CountCandidates | src/search/filtering.rs:59-65 | without reading a posting, the number of candidates generation gives, saturated |
| Filtering.LimitDecisionIsExactIff | src/search/range_search.rs:217-226 | comparing the saturated count with a limit decides like the exact count, for every count, if and only if the limit is below the largest integer |
| SaturatedCount.LargestLimitIsNotExceeded | src/search/filtering.rs:56-65 | in single precision, for an input whose numbers are all representable and which the deletion check admits, every selection on the inverted index has more candidates than the largest limit, while the saturated count does not exceed it |
| SaturatedCount.WholeSelectionIsSelection | src/search/filtering/candidate.rs:40-141 | selecting all positions leaves the bound, with at most twice the postings of any other choice, so a selection exists |
| SaturatedCount.EverySelectionIsWhole | src/search/filtering/candidate.rs:40-141 | no selection for that query is smaller: it takes every position, each with the whole alphabet |
| SaturatedCount.RoundedSelectionIsWhole | src/search/filtering/candidate.rs:86-137 | neither is one made with single-precision sums |
| SaturatedCount.OnesAddExactly | src/search/filtering/eta.rs:29-33 | up to two to the 24th, ones are added in single precision without rounding, in every selection |
| Filtering.CandidatesAreDistinct | src/search/filtering.rs:14-20 | a selection on an inverted index generates no candidate twice |
| Filtering.FilteringIsComplete | src/search/filtering/candidate.rs:83-85 | every script from the query to a corpus segment below the bound pairs a selected position with a neighbor, at a generated candidate |
| Filtering.AnsweredIffWithinBound | src/search/verification.rs:32-36 | within the bound, the least cost over scripts using a candidate is the edit distance |
| RoundedSelection.SelectRounded | src/search/filtering/candidate.rs:86-137 | for any addition of values that is closed, monotone and neutral at zero, and a positive residual below the bound, selection succeeds exactly when the query-order sum leaves the bound, whichever positions the ratios prefer |
| RoundedSelection.SinglePrecisionRounds | src/search/filtering/candidate.rs:86-137 | single-precision addition, infinity included, and the residual it leaves meet those hypotheses on the single-precision values |
| RoundedSelection.SelectSinglePrecision | src/search/filtering/candidate.rs:30-33 | so selection in single precision succeeds exactly when the query-order sum leaves the bound |
| RoundedSelection.OrderDecidesSums | src/search/filtering/candidate.rs:123-130 | the same single-precision contributions end below a bound in one order and reach it in another |
| RoundedSelection.WidestRadiusAgreesWithCheck | src/search/filtering/candidate.rs:123-130 | at the widest radius that sum leaves the bound exactly when the up-front deletion check passes |
| RoundedSelection.SelectPositionsRounded | src/search/range_search.rs:258-293 | under any such addition the binary search over radii settles on the least radius whose query-order sum leaves the bound, and it succeeds exactly when the up-front deletion check passes: no admitted query is declined |
| RoundedSelection.SelectPositionsSinglePrecision | src/search/range_search.rs:258-293 | so it does in single precision, on single-precision costs |
| RoundedSelection.LeavingRoundedWidens | src/search/filtering/eta.rs:10-15 | rounding keeps the order: the query-order sum never falls as the radius grows, and changes only at substitution costs |
| RoundedSelection.SomeRadiusLeavesRoundedIff | src/search/filtering/eta.rs:21-34 | the rounded deletion check passes if and only if some radius from the derived one on leaves the bound |
| RoundedSelection.PartAtMostWhole | src/search/filtering/candidate.rs:30-33 | adding in query order, part of the contributions never exceeds all of them, and equals them when the rest cannot gain |
| SinglePrecision.AddDistanceIsExactAboutOverflow | src/search/verification.rs:99-121 | the error-free transformation yields infinity if and only if the real sum exceeds the largest value, and the rounded sum otherwise |
| SinglePrecision.ExactSumsAreCapped | src/search/verification.rs:106-121 | where the in-range sum is representable, it is the capped addition of the main line |
| SinglePrecision.RoundIsMonotone | src/search/filtering/candidate.rs:123-130 | rounding to nearest even is monotone |
| SinglePrecision.ExactSumsGiveTheCappedDistance | src/search/verification.rs:141-176 | the single-precision recurrence with exact in-range additions is the exact distance capped once at the end |
| SinglePrecision.RootColumn32 | src/search/verification.rs:123-138 | the root loop in single precision computes the single-precision recurrence of every query prefix |
| SinglePrecision.StepDp32 | src/search/verification.rs:141-176 | so does the stepping loop, for one more data symbol |
| SinglePrecision.ExactSumsGiveExactColumns | src/search/verification.rs:118-176 | columns of single-precision loops whose in-range additions are exact are columns of the exact capped program |
| Encoding.Encode | src/search/encoding.rs:27-59 | equal symbols exactly for equal tokens, query-only symbols beyond the vocabulary, decoding inverts; fails exactly when the temporary symbols run out |
| Encoding.EncodingPreservesDistance | src/search/encoding.rs:89-115 | the least script cost over symbols is the least script cost over tokens |
| Encoding.EncodingPreservesWed | src/search/encoding.rs:99-115 | so is the recurrence |
| Encoding.DecodedScript | src/search/encoding.rs:89-115 | every script over symbols that stand for tokens is a script over those tokens, of the same cost |
| Vocabulary.VocabularyBuilder.Insert | src/vocabulary.rs:33-40 | a new token is appended, only its frequency grows by one, and tokens stay in first-seen order |
| Vocabulary.VocabularyBuilder.InsertAll | src/vocabulary.rs:43-50 | frequencies grow by the number of occurrences |
| Vocabulary.VocabularyBuilder.Build | src/vocabulary.rs:55-65 | a bijection of exactly the inserted tokens with consecutive symbols, by descending number of occurrences among everything inserted and then by first occurrence; fails exactly when they run out |
| Vocabulary.VocabularyOrder | src/vocabulary.rs:52-54 | symbols follow descending frequency, and first-seen order among equals |
| Vocabulary.SortedByFrequency | src/vocabulary.rs:52-54 | a stable sort by frequency is the order by occurrences and first occurrence |
| Sorting.ClassKeepsOrder | src/vocabulary.rs:52-58 | elements a sort does not tell apart keep their order |
| Vocabulary.FromTokens | src/vocabulary.rs:93-106 | accepts exactly the duplicate-free token lists that fit, and numbers them in order |
| Vocabulary.AssignSymbols | src/vocabulary.rs:59-62 | each token's symbol is its index |
| Vocabulary.LookupsAreInverse | src/vocabulary.rs:109-120 | a token's symbol and a symbol's token undo each other, and the reserved symbol names no token |
| Store.CorpusStoreBuilder.AddString | src/store.rs:32-36 | the cut corpus gains exactly this string |
| Store.CorpusStoreBuilder.Build | src/store.rs:39-47 | the store returns the added strings |
| Store.CorpusStore.ValidateSymbols | src/store.rs:159-167 | succeeds exactly when every symbol is known |
| Postings.PostingsIndexBuilder.AddPosting | src/postings.rs:140-146 | appends, or rejects exactly the symbols outside the vocabulary |
| Postings.PostingsIndexBuilder.Build | src/postings.rs:149-174 | sorting, deduplicating, counting and summing give each symbol the strictly increasing list of exactly its postings |
| Postings.CountOffsets | src/postings.rs:155-161 | each offset is the number of postings of smaller symbols |
| Postings.SliceIsRun | src/postings.rs:103-115 | the slice between two such offsets is the symbol's run |
| Postings.AlphabetOccurs | src/postings.rs:33-42 | the alphabet of an inverted index is exactly the occurring symbols, increasing |
| IndexVerification.VerifyIndex | src/postings.rs:49-76 | once the corpus symbols are known, accepts exactly the inverted index of the corpus |
| IndexVerification.VerifyStore | src/store.rs:88-96 | accepts exactly the stores whose symbols are in the vocabulary and whose strings can be identified; the error names an unknown symbol that is stored, or the identifier overflow |
| IndexVerification.CountingFindsEveryOccurrence | src/postings.rs:44-54 | matching slices and equal totals leave no occurrence out of the index |
| IndexVerification.Pigeonhole | src/postings.rs:50-54 | distinct numbers below a bound reach its size exactly when they are all of them |
| IndexVerification.AcceptedIffInverted | src/postings.rs:49-76 | the checks together hold if and only if the index inverts the corpus |
| IndexVerification.InvertedIndexIsUnique | src/postings.rs:49-76 | two indexes inverting one corpus are equal |
| Engine.SearchEngineBuilder.AddSequence | src/search/builder.rs:43-53 | returns the insertion order, or fails exactly when identifiers or positions run out |
| Engine.SearchEngineBuilder.Build | src/search/builder.rs:62-94 | building succeeds exactly when the distinct tokens fit the symbol range; the engine represents exactly the added sequences, and its symbols number the tokens by how often they occur in them, equally frequent ones by their first occurrence |
| Engine.SearchEngineBuilder.BuildVocabulary | src/search/builder.rs:65-69 | a vocabulary of all added tokens, exactly when they fit the symbol range, the more frequent token first and of equally frequent ones the one that occurs first |
| Engine.FromParts | src/search.rs:67-76 | success exactly when every stored symbol is known and the strings can be identified, with the index's alphabet as the neighborhood |
| Engine.FromUnverifiedParts | src/search.rs:83-96 | never fails: the alphabet of an index has no repetition |
| Engine.Verify | src/search.rs:102-105 | accepts exactly the engines whose stored symbols are known and whose index inverts the corpus |
| Engine.VerifiedIndexIsTheBuiltOne | src/search.rs:102-105 | an accepted index equals the one the builder makes |
| Engine.VerifiedEngineRepresents | src/search.rs:98-105 | an assembled engine that verifies represents the sequences its corpus decodes to, so every search on it is exact |
| Engine.RepresentingIsSearchable | src/search.rs:67-76 | an engine that represents data sequences meets what a search asks of an engine |
| Engine.AccessedStringIsKnown | src/store.rs:60-72 | every string the store hands out consists of vocabulary symbols: an owned store was checked whole, a mapped one checks each string |
| FileLayout.WriteFile | src/persistence/format.rs:290-389 | writes header, codec, table and padded payloads; fails exactly for an over-long codec identifier or a length beyond 64 bits |
| FileLayout.PlaceSections | src/persistence/format.rs:301-324 | the checked cursor places every section, and overflows exactly when the end leaves the range |
| FileLayout.WritePadding | src/persistence/format.rs:398-409 | chunks of at most 64 add up to the padding |
| FileLayout.AlignUpIsAligned | src/persistence/format.rs:391-396 | the aligned offset is a multiple, not below the value, less than one alignment away |
| FileParser.Parse | src/persistence/format.rs:430-484 | accepts exactly the files whose header, codec, table, sections and structure keep every promise and in which no byte belongs to two of the header, the codec identifier, the section table and the sections, and returns the sections by kind; names an unsupported version, a foreign byte order, another codec and another codec version |
| FileParser.ParseContents | src/persistence/format.rs:486-564 | the same for what follows the fixed header; another codec or codec version is named before anything else is looked at |
| FileParser.CheckCodec | src/persistence/format.rs:492-516 | accepts exactly the expected codec, and tells another identifier from another version |
| FileParser.ParseTable | src/persistence/format.rs:518-545 | accepts exactly the tables that list aligned in-file sections of different kinds |
| FileParser.ParseEntry | src/persistence/format.rs:530-541 | accepts exactly the entries that list a section that fits |
| FileParser.ListedSection | src/persistence/format.rs:530-545 | in a valid layout a listed section is found by its kind, lies in the file and suits its elements |
| FileParser.ValidateHeader | src/persistence/format.rs:701-724 | accepts exactly the expected constants and kind, and names an unsupported version |
| FileParser.ValidateSection | src/persistence/format.rs:736-755 | accepts exactly the sections inside the file whose length and offset suit their elements |
| FileParser.CheckedRange | src/persistence/format.rs:798-809 | exactly the ranges inside the file, with their bytes |
| FileParser.ValidateNonOverlapping | src/persistence/format.rs:757-784 | sorting and comparing neighbors accepts exactly the regions that pairwise share no byte |
| FileParser.RegionsShareNoByte | src/persistence/format.rs:546-556 | the listed regions are pairwise apart if and only if no byte belongs to two of the header, the codec identifier, the table and the sections |
| FileParser.ApartMeansNoSharedByte | src/persistence/format.rs:757-784 | two regions are apart exactly when they share no byte |
| FileParser.SortApart | src/persistence/format.rs:772-774 | whether regions are pairwise apart does not depend on their order |
| FileParser.ValidateOffsets | src/persistence/format.rs:786-796 | accepts exactly the arrays that run monotonically from zero to the payload length |
| FileParser.PersistedFile.ValidateStructure | src/persistence/format.rs:615-685 | accepts exactly the section set of the file kind with consistent offset arrays and counts |
| WrittenFiles.WrittenLayoutIsValid | src/persistence/format.rs:301-324 | every written file has the exact length, sections in range, aligned and of different kinds, and pairwise disjoint regions |
| WrittenFiles.WrittenSection | src/persistence/format.rs:371-377 | looking a written section up by kind gives back exactly its bytes |
| WrittenFiles.HeaderRoundTrip | src/persistence/format.rs:47-59 | reading a written header gives back every field |
| WrittenFiles.WrittenHeader | src/persistence/format.rs:47-59 | every header field of a written file at its offset, with its constant; the table starts at the first multiple of eight after the codec identifier |
| WrittenFiles.EntryRoundTrip | src/persistence/format.rs:67-73 | reading a written table entry gives back the descriptor |
| WrittenFiles.WrittenEntry | src/persistence/format.rs:67-73 | every field of a written table entry at its offset, and the section's bytes where it says |
| WrittenFiles.PlacedInOrder | src/persistence/format.rs:307-324 | of two sections the earlier one ends before the later one begins |
| WrittenFiles.PlacedTightly | src/persistence/format.rs:307-324 | every section starts at the first suitable offset after the one before it, and the file ends with the last one |
| WrittenFiles.PaddingIsZero | src/persistence/format.rs:398-409 | every byte of a written file outside the header, the codec identifier, the table and the sections is zero |
| EngineSnapshot.SaveWith | src/search/persistence.rs:21-68 | success writes a snapshot of an engine whose corpus and index verify; otherwise it does not verify, a token does not round-trip, or the format's limits are exceeded |
| EngineSnapshot.OpenWith | src/search/persistence.rs:74-96 | for all bytes, an engine opens if and only if they are a well-formed file that holds it: its arrays number by number, tokens that decode from the slices its offsets cut, a duplicate-free vocabulary, sizes that agree; a snapshot of any storable engine opens as that engine over mapped arrays; what opens can be sliced, verified and searched |
| EngineSnapshot.ViewsHold | src/search/persistence.rs:85-95 | the typed views of an accepted file are the parts of an engine if and only if its sections hold that engine number by number |
| EngineSnapshot.OpenVerified | src/persistence.rs:25-26 | for all bytes, an engine opens and verifies if and only if they are a well-formed file that holds it and its index inverts its corpus; it represents the sequences its corpus decodes to, and every snapshot of an engine that verifies passes |
| EngineSnapshot.FrameTokens | src/search/persistence.rs:23-36 | the offsets cut the blob into the encodings in order; fails exactly when a token does not round-trip |
| EngineSnapshot.DecodeTokens | src/search/persistence.rs:76-83 | the result is exactly what the slices decode to, in order, and the framed tokens come back |
| EngineSnapshot.SnapshotIsValid | src/persistence/format.rs:617-656 | a snapshot keeps the structural promises of the search-engine kind |
| EngineSnapshot.SnapshotHolds | src/search/persistence.rs:38-66 | token offsets, blob, corpus and postings all read back |
| EngineSnapshot.SnapshotNumbers | src/search/persistence.rs:38-66 | the numbers by which a snapshot names its kind and its six sections, in their order |
| EngineSnapshot.BuiltEnginesAreStorable | src/search/builder.rs:62-94 | an engine the builder made can be stored |
| EngineSnapshot.OpenedEngineRepresents | src/search/persistence.rs:85-95 | the opened engine represents the same sequences, so searches on it answer exactly |
| CustomCosts.SaveMetadata | src/costs/custom/persistence.rs:22-87 | succeeds exactly when every token of a rule round-trips, whatever order the maps are visited in |
| CustomCosts.SaveRules | src/costs/custom/persistence.rs:32-57 | one row per rule in strictly increasing key order; the duplicate check never fires |
| CustomCosts.SavedOrder | src/costs/custom/persistence.rs:31-40 | of two saved rules, at the first token they differ in, and there at the first differing byte, the earlier one's is smaller |
| CustomCosts.SavedBytesAreDetermined | src/costs/custom/persistence.rs:21-31 | two saves of one policy give the same bytes |
| CustomCosts.MetadataRoundTrip | src/costs/custom/persistence.rs:97-152 | opening saved metadata restores every default and rule, passes the rule-count and duplicate checks and consumes all bytes |
| CustomCosts.OpenMetadata | src/costs/custom/persistence.rs:97-152 | for all bytes, a policy opens if and only if they describe it: the version, three costs that are finite and non-negative or negative zero, three counts, exactly that many rules that decode, all with different keys, and nothing after them |
| CustomCosts.ParsedIffDescribed | src/costs/custom/persistence.rs:97-152 | the meaning the loops compute is the policy the bytes describe, for all bytes |
| CustomCosts.BadDefaultIsInvalidCost | src/costs/custom/persistence.rs:105-107 | a default that is not a number, infinite or negative is reported as an invalid cost |
| CustomCosts.OpenRules | src/costs/custom/persistence.rs:115-142 | for all bytes, one rule table opens exactly when that many rules stand at the cursor, each decoding to the right number of tokens with a cost, none pairing a token with itself, all with different keys; the cursor ends behind them |
| CostContents.TableRead | src/costs/custom/persistence.rs:115-142 | reading a table that stands at a position gives its rules and its end |
| CostContents.TableFound | src/costs/custom/persistence.rs:115-142 | what is read successfully is a table that stands there |
| CostContents.ExtendsIffGathers | src/costs/custom/persistence.rs:126-133 | inserting rules one by one, each required to be new, gives exactly the table with all of them when their keys differ |
| CustomCosts.ValidateRuleCounts | src/costs/custom/persistence.rs:200-216 | accepts exactly the counts whose least size fits in the remaining bytes |
| CustomCosts.RejectDuplicates | src/costs/custom/persistence.rs:189-198 | fails exactly when two neighboring rows have the same key |
| CostFiles.SaveWith | src/costs/custom/persistence.rs:22-96 | success writes a file of the policy; otherwise a token does not round-trip or the format's limits are exceeded |
| CostFiles.CostFileNumbers | src/costs/custom/persistence.rs:89-95 | the numbers by which a cost file names its kind and its section |
| CostFiles.OpenWith | src/costs/custom/persistence.rs:97-152 | for all bytes, a policy opens if and only if they are a well-formed file whose metadata describes it; a saved file of any valid policy opens as that policy, and what opens is valid |
| CostFiles.CostFilesAreDeterministic | src/costs/custom/persistence.rs:21-31 | two saves of one policy write the same file |
| CostMetadata.MetadataReader.Array | src/costs/persistence.rs:75-89 | returns the next bytes and advances past them, or fails exactly when they run out |
| CostMetadata.MetadataReader.Bytes | src/costs/persistence.rs:46-59 | a length-prefixed range, read at the cursor |
| CostMetadata.PushBytes | src/costs/persistence.rs:89-92 | appends the length and the bytes |
| CostMetadata.KeyReadsBack | src/costs/custom/persistence.rs:117-118 | the tokens of a written rule read back and decode to themselves |
| CostMetadata.CostFromBits | src/costs.rs:86-96 | accepts exactly the bits of finite non-negative values and of negative zero, which is zero |
| Codecs.EncodingIsInjective | src/persistence/codec.rs:9-12 | tokens that round-trip have different encodings |
| Bytes.U64sRoundTrip | src/persistence/format.rs:271-273 | reading a written array of 64-bit numbers gives it back |
| Bytes.U32sRoundTrip | src/persistence/format.rs:274-276 | and of 32-bit numbers |
| Bytes.LeByte | src/persistence/format.rs:271-280 | byte i of a written number is its digit of weight 256 to the i |
| Bytes.FromLeRoundTrip | src/persistence/format.rs:271-280 | reading bytes as a number and writing it gives back the bytes |

## Left out

- Single-precision arithmetic on the main line: the anchored sum and the column sum can round differently there (`src/search/range_search.rs:643-645`), so the end-to-end theorem is stated for exact costs; `SinglePrecision` and `RoundedSelection` cover the two places where rounding itself is the point.
- RangeSearch.SearchWithMetrics: the query length is unbounded in the library only up to memory; a query longer than 2^32 positions may report a position overflow, which the contract names.
- RangeSearch.SearchWithMetrics: requires that the postings of the index fit in the address space, which holds of any index in memory.
- RoundedSelection.SelectRounded: leaves open which position the rounded ratios prefer, because the claim holds for every choice; the exact ratios are in `Selection`.
- RoundedSelection.SelectPositionsRounded: the overflow of a candidate count, which also fails a selection, is not part of it; `Eta.CountsFitOnRealIndex` shows that no index in memory brings it about.
- EditCosts implementations: a policy is an arbitrary function, so Levenshtein costs, embedding costs with their normalization and dot products, and the setters and lookups of custom costs would only be instances.
- The per-position memo of reversed and sliced query strings (`src/search/verification/bidirectional_trie.rs:143-168`): it caches pure values, which the model recomputes.
- Encoding.EncodedCosts: a symbol in neither the vocabulary nor the query panics in the library; the model gives it cost zero, and `RangeSearch.OnlyTokensArePriced` shows that no search reaches one.
- CustomCosts.CustomCosts: the two-level table of substitution rules is one map keyed by token pairs, and a cost is its 32-bit pattern.
- Codecs.Codec: encoding and decoding are functions of the token and the bytes; codecs with internal state are not modelled, nor are the two built-in codecs.
- FileParser.Parse: the UTF-8 check of the recorded codec identifier is folded into the comparison with the expected one, since an identifier that is not UTF-8 never equals it; only the error it reports differs.
- Embedding sections and the writer's row-selection of floats: reading validates embedding files, but writing them is not modelled.
- Memory mapping, alignment of mapped memory, unsafe casts, big-endian hosts, temporary files, flushing and atomic renames: operating-system behaviour; files are byte sequences.
- Hash maps, ordered maps and the library's sorts: mathematical maps visited in any order, and a specified stable sort.
- Lazy validation of embedding rows, thread safety, and every complexity claim.
- The command line, tokenizers, corpus readers and writers, configuration, benchmarks and scripts.
