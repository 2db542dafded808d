# card_analyzer in Dafny

A verified model of the core of *card_analyzer*, a Telegram bot that judges
how far the reviews of a marketplace product card can be trusted. It has
three parts.

- **The review analyzer** (`app/analyzer.py`):
  - the tokenizer and its lexicons;
  - 3-token shingles and the Jaccard index;
  - the sentiment tests;
  - the trust scorer `trust_score_details`, with its four signals, capped penalties, clamped score and ordered reasons;
  - the suspicious-review filter `detect_suspicious_reviews`, with its three passes over one drop set and the union-find over the first 450 reviews;
  - the "clean" rating;
  - the complaint-excerpt extractor `summarize_stub`.
- **The decision logic of the SQLite store** (`app/storage.py`). It is a
  `Storage` class whose three tables are fields:
  - the TTL cache;
  - the fixed-window per-user rate limiter;
  - the price-snapshot log.
- **The pure helpers of the marketplace client** (`app/wb_client.py`):
  - `extract_nmid`, with the `NMID_RE` pattern written as a scanner;
  - `parse_price`;
  - `total_stock`.

Loops in the source are methods with loop invariants, each proved against a
specification function. Examples: `Tokenize` against `Tokens`,
`TrustScoreDetails` against `Assess`, `DetectSuspiciousReviews` against
`Suspicious`/`SuspiciousCounts`, `SummarizeStub` against `AgeFailures`, and
`TotalStock` against `StockTotal`. The properties the code promises are
lemmas about those functions.

The in-place union-find of the near-duplicate pass works on an `array<nat>`:
- `find` does path halving;
- `union` hangs one root under another;
- a ghost rank shows that every parent chain ends.

The roots it leaves are proved to label exactly the connected components of
the similar pairs.

Ratios are exact reals. `int(x)` of a non-negative value is `Floor`.
`jaccard(a, b) >= 0.8` is the integer test `5·|a∩b| >= 4·|a∪b|`, proved
equivalent to it.

A lexicon quirk is kept as written. `NEG_WORDS` is built by splitting one
string on spaces, so "не работает", "не советую" and "не подошел" become
single words. The entry "не" can never match, because every token is at
least three characters long (`Reviews.ShortNegWordNeverMatches`).

Files, one module each: `wrappers`, `text`, `lexicon`, `tokenizer`,
`reviews`, `similarity`, `sampling`, `trust`, `graph`, `union_find`,
`grouping`, `suspicious`, `clean_rating`, `excerpts`, `storage`,
`wb_client`.

## Model

| member | source | states |
|---|---|---|
| Text.Lower | app/analyzer.py:80 | no upper-case ASCII or Russian letter is left; each upper-case letter becomes its lower-case partner (`Ё` becomes `ё`); every other character is unchanged; whitespace stays whitespace |
| Text.Strip | app/wb_client.py:11 | the result is a contiguous middle slice of the input with only whitespace cut from either end, and it neither starts nor ends with whitespace; an all-blank text becomes empty; an already stripped text is unchanged |
| Text.StripWithin | app/analyzer.py:82 | `strip()` introduces no character |
| Text.CollapseWithin | app/analyzer.py:82 | collapsing whitespace runs introduces no character other than a space |
| Text.SplitWords | app/analyzer.py:84 | every word of `split()` is non-empty, holds no whitespace and takes its characters from the text |
| Text.Replace | app/analyzer.py:307 | same length; each occurrence of the character is replaced and nothing else changes |
| Tokenizer.Blank | app/analyzer.py:81 | every character outside `[a-zа-я0-9\s-]` becomes a space and all others are kept, `ё` included among the blanked |
| Tokenizer.TrimHyphens | app/analyzer.py:85 | `strip("-")`: the word neither starts nor ends with `-` and takes its characters from the original |
| Tokenizer.PreparedIsAllowed | app/analyzer.py:80-82 | after lowering, blanking, collapsing and stripping only allowed characters remain |
| Tokenizer.SelectIsTokens | app/analyzer.py:84-90 | every word the loop keeps from clean words is a well-formed token |
| Tokenizer.TokensAreWellFormed | app/analyzer.py:79-91 | every token has at least 3 characters, is not in `RU_STOP`, has no `-` at either end and uses only `[a-zа-я0-9-]` |
| Tokenizer.Tokenize | app/analyzer.py:79-91 | the loop returns `Tokens(text)`, the kept trimmed words in text order, and every token is well formed |
| Reviews.ShortNegWordNeverMatches | app/analyzer.py:108-110 | "не" is a negative word, yet a text is negative exactly when a negative word of 3 or more letters is among its tokens |
| Reviews.Norms | app/analyzer.py:131 | one normalized text per review, `re.sub(r"\s+", " ", t.lower()).strip()`, in order |
| Similarity.ShinglesShape | app/analyzer.py:94-97 | fewer than 3 tokens give the token set; otherwise at most `len-2` shingles, each a join of 3 consecutive tokens |
| Similarity.Jaccard | app/analyzer.py:100-105 | the index lies in [0, 1] |
| Similarity.JaccardSymmetric | app/analyzer.py:100-105 | `jaccard(a, b) == jaccard(b, a)` |
| Similarity.JaccardEdgeCases | app/analyzer.py:100-105 | two empty sets score 0; a non-empty set scores 1 against itself |
| Similarity.SimilarIsThreshold | app/analyzer.py:141 | the integer test holds exactly when `jaccard(a, b) >= 0.8` |
| Similarity.SimilarSymmetric | app/analyzer.py:268 | the similarity test is symmetric |
| Sampling.SampleSize | app/analyzer.py:137 | `min(n, 450)`: at most n and at most 450, and equal to one of them |
| Sampling.ShingleList | app/analyzer.py:127-128 | exactly m shingle sets, one per sampled review |
| Sampling.VisitedStep | app/analyzer.py:138-140 | each inner step visits exactly the pair (i, j), never visited before |
| Sampling.VisitedRow | app/analyzer.py:138-139 | finishing row i is starting row i + 1 |
| Sampling.VisitedAll | app/analyzer.py:138-139 | after the last row every pair i < j of the sample has been visited |
| Sampling.SimilarStep | app/analyzer.py:141-142 | a step adds the pair to the similar pairs exactly when it is similar |
| Sampling.SimilarAmongSize | app/analyzer.py:143 | there are no more similar pairs than pairs |
| Sampling.SimilarPairsThreshold | app/analyzer.py:141 | a sampled pair is an edge exactly when its Jaccard index reaches 0.8 |
| Trust.Ratio | app/analyzer.py:143 | `num / max(1, den)` lies in [0, 1], is 0 exactly when num is 0, and is 1 exactly when num == den > 0 |
| Trust.AllIdenticalExactRatio | app/analyzer.py:131-132 | two or more reviews with one normalized text give an exact-duplicate ratio of 1 |
| Trust.MaxDayCount | app/analyzer.py:152-153 | `max(Counter(dates).values())`: no day is counted more often, and some day reaches it |
| Trust.CappedRange | app/analyzer.py:145 | `int(min(cap, cap * x))` lies in [0, cap] for x in [0, 1] |
| Trust.EmptyInput | app/analyzer.py:122-123 | no reviews: score 50, the single "nothing to evaluate" reason, no signals, penalties `{no_reviews: 0}` |
| Trust.SignalsInRange | app/analyzer.py:130-201 | every ratio lies in [0, 1]; the sample is `min(n, 450)`; at most n rated reviews |
| Trust.PenaltiesAndScore | app/analyzer.py:145-181 | duplicates in [0, 40], the other three penalties in [0, 20], score is 100 minus their sum and lies in [0, 100] |
| Trust.ReasonsFollowThresholds | app/analyzer.py:183-192 | each threshold reason is listed exactly when its unrounded ratio exceeds its threshold; the fallback exactly when none does |
| Trust.ReasonsShape | app/analyzer.py:183-192 | the fallback stands alone; 1 to 4 reasons, never the empty-input reason, in the fixed order without repetition |
| Trust.FiredMembers | app/analyzer.py:183-190 | a threshold reason is appended exactly when its flag is set, and nothing is appended when no flag is |
| Trust.AppendIf | app/analyzer.py:183-190 | a conditional append adds the reason only when its flag is set, and keeps the list in the fixed order |
| Trust.CountRow | app/analyzer.py:139-142 | one row of the inner loop brings both counters to the pairs visited, and the similar pairs among them, up to the next row |
| Trust.CountNearPairs | app/analyzer.py:135-143 | `total_pairs` is the number of pairs of the sample; `near_pairs` the number of similar ones |
| Trust.CountMismatches | app/analyzer.py:158-170 | `rated` counts rated reviews, `mismatch` the mismatched ones, and `mismatch <= rated` |
| Trust.TrustScoreDetails | app/analyzer.py:118-203 | the scorer's result is `Assess(reviews)`: score in [0, 100] and a non-empty reason list |
| Graph.IdentityLabels | app/analyzer.py:253 | with no edges, each element alone is its own cluster |
| Graph.Merged | app/analyzer.py:264 | relabelling b's class with a's label puts a and b together and leaves other classes alone |
| Graph.MergeEdge | app/analyzer.py:261-264 | after adding the edge (a, b), the merged labels still name exactly the connected components |
| Graph.ComponentIsLabelClass | app/analyzer.py:271-273 | under exact labels, a node's cluster is the set of nodes sharing its root |
| UnionFind.Root | app/analyzer.py:255-259 | the parent chain from x ends at a root, an element that is its own parent |
| UnionFind.InitialRoots | app/analyzer.py:253 | `list(range(m))` is ranked and every element is its own root |
| UnionFind.HalvingKeepsRoots | app/analyzer.py:257 | `rep[x] = rep[rep[x]]` keeps the ranking and changes the root of no element |
| UnionFind.Find | app/analyzer.py:255-259 | `find(x)` returns the root of x, and path halving changes no element's root |
| UnionFind.LinkRoots | app/analyzer.py:263-264 | hanging root rb under root ra relabels exactly b's class with a's root |
| UnionFind.Union | app/analyzer.py:261-264 | afterwards the roots are the old roots with b's class merged into a's |
| Grouping.Insert | app/analyzer.py:233 | `setdefault(k, []).append(i)`: the key is present and its list gains i at the end |
| Grouping.GroupOrder | app/analyzer.py:230-233 | the dictionary's key order lists each key once, and exactly the keys present |
| Grouping.GroupSound | app/analyzer.py:230-233 | every bucket is non-empty, increasing, and holds only indices carrying its key |
| Grouping.GroupComplete | app/analyzer.py:230-233 | every index sits in the bucket of its key |
| Grouping.BucketIsClass | app/analyzer.py:230-233 | a bucket holds exactly the indices with that key, without repeats |
| Grouping.SurvivorUnique | app/analyzer.py:236-240 | a bucket keeps at most one member |
| Grouping.FirstKept | app/analyzer.py:236-240 | `kept` is the first member not already dropped, when there is one |
| Grouping.Others | app/analyzer.py:241-242 | the members other than `kept` |
| Grouping.DropMember | app/analyzer.py:241-245 | one turn drops the member unless it is kept, and counts it only if it was not dropped before |
| Grouping.DropOthers | app/analyzer.py:241-245 | every member but `kept` is dropped, and the count is the number newly dropped |
| Grouping.CollapseGroup | app/analyzer.py:234-245 | a bucket below the size threshold is untouched; otherwise all but its survivor are dropped, counting only new drops |
| Grouping.CollapseStep | app/analyzer.py:234-245 | one bucket adds exactly its own share of the pass's drops |
| Grouping.CollapseGroups | app/analyzer.py:234-245 | the pass over all buckets drops exactly the non-survivors of every big enough class, and counts them |
| Grouping.CollapsedMember | app/analyzer.py:234-245 | in a big enough class, a member stays exactly when it is the first one not dropped earlier |
| Grouping.CollapsedKeepsOne | app/analyzer.py:234-245 | of two indices with one key, a pass with threshold 2 or less drops at least one |
| Suspicious.Classify | app/analyzer.py:216-227 | too short is tested first; a mismatch counts only for a review that is not too short |
| Suspicious.Tally | app/analyzer.py:217-227 | one review moves the drop set and both counters of the first loop on by one index |
| Suspicious.FlagShortAndMismatched | app/analyzer.py:215-227 | the first loop drops exactly the short and the mismatched reviews and counts each kind |
| Suspicious.GroupByText | app/analyzer.py:230-233 | `norm_map` is the grouping of indices by normalized text |
| Suspicious.LinkPair | app/analyzer.py:267-269 | after one visited pair, the roots still label exactly the clusters of the similar pairs visited |
| Suspicious.LinkRow | app/analyzer.py:266-269 | after one row, the roots label exactly the clusters of the similar pairs visited |
| Suspicious.LinkSimilar | app/analyzer.py:253-269 | after the pair loop, the roots label exactly the connected components of the similar pairs |
| Suspicious.GroupByRoot | app/analyzer.py:271-273 | `groups` is the grouping of the sample by root, and the roots are unchanged |
| Suspicious.NearGroups | app/analyzer.py:248-273 | the buckets are the clusters: two sampled reviews share one when a chain of similar pairs joins them |
| Suspicious.ClustersAreComponents | app/analyzer.py:275-287 | collapsing root buckets of three or more drops the non-survivors of components of three or more |
| Suspicious.DetectSuspiciousReviews | app/analyzer.py:206-289 | returns the drop set `Suspicious` and the counts `SuspiciousCounts` |
| Suspicious.FirstPassParts | app/analyzer.py:215-227 | short and mismatch never overlap; the first pass drops exactly the short or mismatched reviews |
| Suspicious.DropsAreIndices | app/analyzer.py:211-289 | only indices of reviews are dropped |
| Suspicious.CountsAddUp | app/analyzer.py:212-287 | the four counts add up to the size of the drop set |
| Suspicious.FlaggedAreDropped | app/analyzer.py:217-227 | every too-short and every mismatched review is dropped |
| Suspicious.ExactDuplicatesKeepFirst | app/analyzer.py:234-245 | in a text group of two or more, a review survives the exact pass exactly when it is the first one the first pass kept |
| Suspicious.OneCopySurvives | app/analyzer.py:234-245 | of two reviews with the same normalized text, at least one is dropped |
| Suspicious.NearMember | app/analyzer.py:275-287 | in a cluster of three or more, a review stays exactly when it is the first one not dropped earlier |
| Suspicious.NearKeepsOne | app/analyzer.py:275-287 | of two similar reviews in a cluster of three or more, the near pass leaves at most one |
| Suspicious.NearPassScope | app/analyzer.py:248-287 | past the first 450 reviews, or in clusters below three, the near pass drops nothing |
| Suspicious.OneNearDuplicateSurvives | app/analyzer.py:266-287 | of two sampled reviews with Jaccard index at least 0.8 in a cluster of three or more, at least one is dropped |
| Suspicious.EmptyInput | app/analyzer.py:211-212 | no reviews: nothing dropped and every count 0 |
| CleanRating.KeptRatingsEnumerate | app/analyzer.py:293 | the `j`-th kept rating is the rating of the `j`-th kept rated review: the enumeration is increasing and holds exactly the reviews that are rated and not dropped, so each contributes its rating once |
| CleanRating.CleanRating | app/analyzer.py:292-297 | `avg` is absent exactly when `count` is 0; otherwise `avg * count` is the sum of the kept ratings |
| CleanRating.CountIsKeptRated | app/analyzer.py:293-297 | `count` is the number of indices not dropped whose review has a rating |
| CleanRating.DroppingMoreKeepsFewer | app/analyzer.py:293 | a larger drop set never raises `count` |
| CleanRating.CountAtMostRated | app/analyzer.py:293-297 | `count` is at most the number of rated reviews, and equal to it when nothing is dropped |
| CleanRating.KeptRatingsFromReviews | app/analyzer.py:293 | every kept rating is the rating of a kept review |
| CleanRating.AverageWithinRatings | app/analyzer.py:296 | with ratings in [lo, hi], the average lies in [lo, hi] as well |
| Excerpts.MatchAt | app/analyzer.py:23 | a match of `AGE_PATTERN` at a position ends more than 5 characters later, inside the text |
| Excerpts.AfterKeyword | app/analyzer.py:23 | the part after "через" ends inside the text |
| Excerpts.SearchFrom | app/analyzer.py:305 | a reported match lies inside the text, at or after the search start |
| Excerpts.SearchFindsMatch | app/analyzer.py:305 | what the search reports is a match |
| Excerpts.SearchIsLeftmost | app/analyzer.py:305 | no match starts before the reported one |
| Excerpts.SearchMissesOnlyWithoutMatch | app/analyzer.py:305-306 | the search fails only when no position starts a match |
| Excerpts.Fragment | app/analyzer.py:307 | the one-line fragment holds no newline and is no longer than the text |
| Excerpts.Quote | app/analyzer.py:308 | fragments up to 120 characters are quoted whole; longer ones as their first 120 plus `…` |
| Excerpts.ThreeFromPrefix | app/analyzer.py:309-310 | stopping after the third hit loses nothing: the first three hits are those of the prefix |
| Excerpts.AgeExcerpt | app/analyzer.py:305-308 | one review yields its excerpt exactly when the pattern occurs in its text |
| Excerpts.SummarizeStub | app/analyzer.py:300-311 | the loop with its early `break` returns `AgeFailures(reviews)` |
| Excerpts.FirstThreePicked | app/analyzer.py:303-310 | at most three values, taken from the first picked elements in order |
| Excerpts.AgeFailuresAreFirstHits | app/analyzer.py:302-311 | at most three excerpts, each from a matching review rated 2 or less or not rated, in input order, with no earlier hit skipped |
| Store.SetThenGet | app/storage.py:57-82 | a value just set is served while `later - now <= ttl`, and not after |
| Store.SetKeepsOthers | app/storage.py:74-82 | setting one key changes what no other key returns |
| Store.GetIsStable | app/storage.py:62-68 | deleting a stale entry on read changes no answer given at that moment |
| Store.CountsStayWithin | app/storage.py:85-107 | with `max_requests >= 1`, every stored count stays between 1 and `max_requests` |
| Store.RateTouchesOnlyUser | app/storage.py:85-107 | a denied request changes nothing; an allowed one touches only its own user's row |
| Store.RateOutcomes | app/storage.py:91-107 | unseen user: allowed, (now, 1); window over: allowed, (now, 1); full: denied, unchanged; else allowed, count + 1 |
| Store.AtMostMaxPerWindow | app/storage.py:96-107 | requests inside one window are allowed at most `max - count` times |
| Store.RowsOf | app/storage.py:132 | the article's rows, all from the table, no more than the table holds |
| Store.InsertNewest | app/storage.py:132 | inserting into the newest-first list adds exactly the new row |
| Store.NewestFirstIsSorted | app/storage.py:132 | `ORDER BY ts DESC` yields non-increasing time stamps |
| Store.NewestFirstPermutes | app/storage.py:132 | the ordering holds exactly the article's rows |
| Store.RowsOfComplete | app/storage.py:132 | every row of the article is selected |
| Store.LatestIsRow | app/storage.py:113-116 | the latest row is a row of that article |
| Store.LatestIsNewest | app/storage.py:113-116 | the row `LIMIT 1` compares with is the first row of the article's newest-first history |
| Store.AddSnapshotAppendsAtMostOne | app/storage.py:110-128 | prices equal to the latest snapshot's add nothing; any other snapshot appends exactly one row stamped `ts` or now |
| Store.RepeatedSnapshotIsSkipped | app/storage.py:110-128 | once a snapshot newer than all stored ones is added, the same prices offered again are skipped |
| Store.HistoryIsNewestFirst | app/storage.py:130-137 | the points are newest first, `min(limit, rows)` of them, or all of them for a negative limit |
| Store.HistoryRowsBelong | app/storage.py:130-137 | every listed point is a snapshot of that article |
| Store.HistoryStartsNewest | app/storage.py:130-137 | no snapshot of the article is newer than the first point listed |
| Store.Storage.constructor | app/storage.py:40-43 | a freshly created database has all three tables empty |
| Store.Storage.CacheGet | app/storage.py:57-72 | returns a live entry's text; a stale entry is deleted and reads as missing; other tables unchanged |
| Store.Storage.CacheSet | app/storage.py:74-82 | upserts the key's row with `updated_at = now`; other tables unchanged |
| Store.Storage.RateLimitAllow | app/storage.py:85-107 | the answer and the new table follow the four branches; other tables unchanged |
| Store.Storage.PriceAddSnapshot | app/storage.py:110-128 | appends the snapshot unless it repeats the article's latest prices; other tables unchanged |
| Store.Storage.PriceGetHistory | app/storage.py:130-137 | the article's points, newest first, at most `limit` of them when `limit >= 0` |
| WbClient.DecimalValue | app/wb_client.py:13 | `int()` of d digits is below 10^d |
| WbClient.GroupAt | app/wb_client.py:8 | an attempt's group follows its key and spans 6 to 12 characters inside the text |
| WbClient.SearchNmid | app/wb_client.py:14 | a reported position is one where an attempt succeeds |
| WbClient.DigitRunIsRun | app/wb_client.py:8 | a digit run is all digits and ends at a non-digit or at the end |
| WbClient.GroupIsGreedy | app/wb_client.py:8 | the group is all digits and stops at 12 digits or where the digits stop |
| WbClient.SearchIsLeftmost | app/wb_client.py:14 | no successful attempt starts before the reported one |
| WbClient.SearchFailsOnlyWithoutMatch | app/wb_client.py:14-16 | the search fails only when every attempt fails |
| WbClient.ExtractNmid | app/wb_client.py:10-17 | a returned article number is never negative |
| WbClient.LinkNumberBelowTrillion | app/wb_client.py:8-17 | a number read from a link has at most 12 digits, so it is below 10^12 |
| WbClient.NothingFound | app/wb_client.py:10-16 | nothing is returned exactly when the stripped text is not all digits and no attempt succeeds; blank text returns nothing |
| WbClient.DecimalRoundTrip | app/wb_client.py:13 | `int(str(n)) == n` |
| WbClient.DecimalIsBare | app/wb_client.py:11-12 | `str(n)` survives `strip()` and passes `isdigit()` |
| WbClient.NumberRoundTrip | app/wb_client.py:11-13 | an article number sent on its own is read back as itself |
| WbClient.LinkIsStripped | app/wb_client.py:11-12 | a key, digits and a tail ending in a non-blank survive `strip()` unchanged and are not all digits |
| WbClient.LinkGroup | app/wb_client.py:14-17 | an attempt on a key followed by 6 to 12 digits and then no digit succeeds, with exactly those digits as its group |
| WbClient.LinkRoundTrip | app/wb_client.py:14-17 | `/catalog/<n>` or `nm=<n>` with a 6 to 12 digit n, followed by nothing or by a tail that starts with a non-digit and ends in a non-blank, yields n |
| WbClient.ParsePrice | app/wb_client.py:75-84 | both prices are present or both are absent |
| WbClient.ParsePriceTakesFirst | app/wb_client.py:78-83 | the prices come from the first size that has both |
| WbClient.ParsePriceNone | app/wb_client.py:77-84 | `(None, None)` exactly when no size has both prices |
| WbClient.StockQuantities | app/wb_client.py:94-98 | no more integer quantities than stocks |
| WbClient.AddStocks | app/wb_client.py:94-98 | the inner loop adds one size's integer `qty` values to `total` and sets `found` when there was one |
| WbClient.TotalStock | app/wb_client.py:87-99 | the nested loop returns `StockTotal(p)` |
| WbClient.StockQuantitiesEmpty | app/wb_client.py:94-99 | a stock list yields no quantity exactly when no `qty` is an integer |
| WbClient.QuantitiesEmpty | app/wb_client.py:93-99 | no quantity at all exactly when no size yields one |
| WbClient.StockTotalNone | app/wb_client.py:88-99 | an integer `totalQuantity` wins; otherwise nothing is returned exactly when no stock has an integer `qty` |
| WbClient.StockTotalNonNegative | app/wb_client.py:91-99 | with no negative quantities, the summed stock is not negative |

## Left out

- `extract_reviews` and `_to_datetime` (app/analyzer.py:32-76) turn raw JSON into reviews. The model starts from built `Review` records. `created` is kept only as the calendar day it yields, an integer.
- Floating point: every ratio is an exact real.
- CleanRating.CleanRating: `avg` is the exact mean of the kept ratings; `round(avg, 2)` is not modelled.
- Trust.TrustScoreDetails: the signals are exact reals, not the `float` values the dictionary holds. A threshold comparison right at a rounding boundary may differ from the double-precision result. The `int(...)` floors of the four penalties can differ too, and so can the score. Whenever `cap·x` is an integer in exact arithmetic, the double product can fall just below it, so that penalty and the score can be one lower in the source than in the model. Example: four unrated reviews "и", "и", "в", "на". Every token list is empty, so the near-duplicate ratio is 0 and the exact-duplicate ratio is 1/3. Line 145 then computes `40*(0.7*0.0+0.3*0.333…)` = 3.9999999999999996 in doubles, which `int` floors to 3. The model computes exactly 4. The score is 77 in the source and 76 in the model. A near-duplicate ratio of 1/7 shows the same split.
- The regular-expression engine: `AGE_PATTERN`, `NMID_RE` and the character filter of `tokenize` are hand-written scanners.
- Unicode: `lower()` covers ASCII letters and Russian letters (with `Ё`). `\w` covers ASCII letters, digits, `_` and the Russian alphabet only. `\d` and `str.isdigit()` are ASCII digits only. Python's `\w` also matches `і`, `ї`, `є`, `ґ`, `ў`, Kazakh letters and every other Unicode alphanumeric. On such text the age excerpt is shorter in the model: for "через 3 днів", line 305 matches the whole phrase, while `Excerpts.WordRun` stops at `і` and the excerpt is "через 3 дн".
- WbClient.ExtractNmid: only ASCII digits are recognised. Where the source differs, the model returns nothing or a shorter number. Other Unicode decimal digits (for example Arabic-Indic `٣`) pass `isdigit()` and `\d`, and `int()` accepts them, so the source reads them as part of the number. A bare text of such digits gives a number in the source and nothing in the model. A link whose ASCII digits are followed by one gives a longer number in the source: `/catalog/1234567٨` gives 12345678 in the source and 1234567 in the model. Characters such as `²` pass `isdigit()`, but `int()` rejects them, so lines 12-13 raise `ValueError`. That exception path is not modelled.
- `int()` coercion of JSON values in `parse_price`: a size's prices are given as optional integers.
- `total_stock` reads JSON values that are absent, integer, boolean (Python's `bool` is an `int`, counted as 0 or 1) or anything else.
- The clock: `time.time()` becomes the integer parameter `now` of every storage method.
- SQLite plumbing: connections, SQL text, commits, indices and `close()`.
- JSON encoding of cached values: they are stored as opaque text.
- Store.Storage.CacheGet: returns the stored text rather than the decoded value. The source's `None` for a text that fails to decode is not modelled.
- Ties in `ORDER BY ts DESC`: rows with equal time stamps are taken in insertion (rowid) order. SQLite does not promise that order.
- The network methods `WBClient.get_product` and `get_feedbacks`: HTTP calls.
- `app/bot.py`, `app/main.py` and `app/config.py`: message handlers, rendering, start-up and configuration.
- Token order: no separate lemma states that tokens follow the text. `Tokens` is defined word by word over `split()` in order, and `Tokenize` is proved equal to it.
