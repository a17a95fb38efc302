# fast-simple-lcsk in Dafny

A model of the fast-simple-lcsk library, with proofs about it. The library computes LCSk and LCSk++
between two byte strings `a` and `b`:

- **LCSk** is the longest common subsequence built from whole common k-windows ("k-matches").
- **LCSk++** also allows runs longer than k that extend a k-match one diagonal step at a time.

A reconstruction is a list of index pairs `(i, j)` with `a[i] == b[j]`, strictly increasing in both
coordinates. Two notions of a well-formed reconstruction are used:

- `Alignment.ValidAlignment` is the per-coordinate run test of the library's judge `ValidLcsk`.
  The maximal runs of consecutive row indices, and separately those of column indices, have a
  length that is a multiple of k (LCSk) or at least k (LCSk++).
- `Alignment.BlockAlignment` adds the diagonal test. Every maximal diagonal stretch, where each
  pair is one step down and one step right of the previous one, has a good length too. This is
  what a chain of k-matches and their one-step extensions really is. For LCSk++ it is strictly
  stronger than the per-coordinate test (see "## Findings").

The value both sparse algorithms compute is defined on its own in `Optimum`. `Optimum.Score` of a
k-match is its best chain value, and `Optimum.Best` is the best score of all k-matches.

The model covers every part of the library:

- **Text** (`text.dfy`): byte strings and k-windows.
- **Hashing** (`hashing.dfy`): the perfect base-sigma rolling hash `RollingHasher`, as a class whose
  `hash` and `col` fields change.
- **Alphabet** (`alphabet.dfy`): alphabet compression (`PrepareAlphabet`).
- **MatchMaking** (`match_maker.dfy`): the naive and the perfect-hash match makers, as classes. On
  their i-th call they list every j with `a[i, i+k) == b[j, j+k)`.
- **Events** (`events.dfy`): the two row-gated FIFO queues of begin and end events
  (`MatchEventsQueue`).
- **Counting** (`object_counter.dfy`) and **MatchPairs** (`match_pair.dfy`):
  - the created / alive / max-alive counters of `ObjectCounter`;
  - the `MatchPair` record, which links back to the match it extends.
- **Optimum** (`optimum.dfy`): the score of a k-match and the best score, as recursive functions.
  Their upper-bound and witness lemmas are here too.
- **FastLcsk** (`fast_lcsk.dfy`), **FastScores** (`fast_scores.dfy`) and **FastSweep**
  (`fast_sweep.dfy`): the fast sparse algorithm.
  - FastLcsk has the queries, by an amortised forward scan or by a binary search, and the row
    updates for LCSk and for LCSk++. It also has the reconstruction, which walks the `prev`
    chain, and the table invariant.
  - FastScores proves the threshold property. Every table slot holds a scored pair, and every
    k-match already swept reaches the slot of its score, so that the last slot holds the best
    score.
  - FastSweep is the sweep over the rows of `a` and the entry points.
- **SlowLcsk** (`slow_lcsk.dfy`) and **FullTable** (`full_dp.dfy`): the reference algorithms of the
  testing utilities.
  - `get_matches` finds all k-matches by hashing.
  - A quadratic sparse dynamic program runs over the sorted matches, followed by its reconstruction.
  - The full-table dynamic program `LcskSlow` computes the length alone.
- **Validity** (`validity.dfy`): the executable judge `ValidLcsk`, modelled both as written and as
  evidently intended.
- **TestLcsk** (`test_lcsk.dfy`): the comparison harness `test_lcsk`, with every one of its
  assertions proved.
- **StatsFasta** (`stats_fasta.dfy`): the `stats_fasta` experiment. It assembles FASTA records,
  keeps only the bases A, C, G, T, counts the ordered pairs of equal k-mers and runs the fast
  algorithm. Its assertion says that exactly one `MatchPair` is created per k-match, plus one
  sentinel.

Loops of the source are loops with invariants, and each such loop is proved against a
function or predicate that says what it computes. Objects whose fields the source updates are
classes:

- the rolling hasher;
- the match makers;
- the events queue;
- the object counter.

The compressed table, the previous-row list and the reconstructions are `seq` values that the
methods return updated.

The main results:

- **Fast algorithm:** `FastSweep.LcsKSparseFast` and `FastSweep.LcsKppSparseFast` always return a
  block alignment of length `Optimum.Best`.
  - The reconstruction is empty exactly when the strings share no k-window.
  - For LCSk its length is a multiple of k.
  - For LCSk, exactly `1 + (number of k-matches)` pair objects are created, whichever query routine
    is chosen on each row. LCSk++ also creates the placeholder pairs of its padding, which are not
    counted in closed form.
- **Slow algorithms:** the slow sparse algorithms return a block alignment of length
  `Optimum.Best`, empty exactly when the strings share no k-window. Fast and slow lengths are
  therefore equal, which is what `test_lcsk` asserts. The full-table length is at most the length
  of either string and is the length of some valid alignment.
- **`stats_fasta`:** the k-mer pair count plus one equals the number of pair objects created, which
  is the assertion of `stats_fasta`.
- **Findings:** see "## Findings".
  - `ValidLcsk` as written accepts a reconstruction whose last run is a single pair.
  - For LCSk++, even the corrected per-coordinate test accepts lists that are not made of
    diagonal blocks.
  - The perfect-hash match maker only works with assertions compiled in.

Strings are `seq<Byte>`, with `Byte` a `char` below 256. A `char` id table of the source is a
`seq<int>` of 256 entries (`IdTable`). The model follows the source for bytes below 128, where
no id can exceed a `char`. Hashes and counters are unbounded integers.

## Model

| member | source | states |
|---|---|---|
| Text.WindowCount | fast_simple_lcsk/match_maker.cc:89 | the number of k-windows of s: i is below it exactly when s[i, i+k) lies inside s |
| Hashing.ValueBound | fast_simple_lcsk/rolling_hasher.cc:22-31 | the base-sigma value of a window whose ids are below sigma lies in [0, sigma^len) |
| Hashing.ValueAppend | fast_simple_lcsk/rolling_hasher.cc:25 | Horner's rule splits at any point: Value(u + v) = Value(u) * sigma^(length of v) + Value(v) |
| Hashing.RollStep | fast_simple_lcsk/rolling_hasher.cc:29-30 | multiplying the previous window's hash by sigma, adding the next id and reducing mod sigma^k gives the hash of the next window |
| Hashing.ValueInjective | fast_simple_lcsk/match_maker.h:58-61 | for equal-length texts with consistent ids below sigma, equal values hold exactly when the texts are equal |
| Hashing.WindowHashPerfect | fast_simple_lcsk/match_maker.h:58-61 | two k-windows of a and b hash alike if and only if they are equal (the perfect-hash claim) |
| Hashing.RollingHasher.constructor | fast_simple_lcsk/rolling_hasher.h:23-34 | stores s, k, the id table and sigma; hashMod = sigma^k (at least 1, so the modulus never divides by zero); col starts at 0 |
| Hashing.RollingHasher.Next | fast_simple_lcsk/rolling_hasher.cc:17-34 | fails exactly when col + k exceeds the length of s, changing nothing; otherwise returns the hash of s[col, col+k), which is below hashMod, and advances col by one |
| Alphabet.FirstOccurrencesSpec | fast_simple_lcsk/match_maker.cc:73-82 | the list of first occurrences holds every character of s once and nothing else |
| Alphabet.IndexOf | fast_simple_lcsk/match_maker.cc:74 | the position of c in d, or -1 exactly when c does not occur; the position is the first occurrence |
| Alphabet.PrepareAlphabet | fast_simple_lcsk/match_maker.cc:67-83 | ids 0, 1, ... go to the characters of a then b in order of first occurrence; every other byte keeps -1; sigma is the number of distinct characters |
| Alphabet.TableStep | fast_simple_lcsk/match_maker.cc:74-76 | one loop step: a character without an id gets the next id and joins the first-occurrence list; one with an id changes nothing |
| Alphabet.AlphabetIsPerfect | fast_simple_lcsk/match_maker.h:70-72 | the table PrepareAlphabet builds gives every character of a and b an id below sigma, different characters different ids, and -1 exactly to bytes not in a + b |
| MatchMaking.MatchesUpToSpec | fast_simple_lcsk/match_maker.cc:37-41 | the naive scan of the first n columns lists exactly the matching j < n, in strictly increasing order |
| MatchMaking.RowMatchesSpec | fast_simple_lcsk/match_maker.h:27-29 | the list for row i holds exactly the j with a[i, i+k) == b[j, j+k), each once, ascending |
| MatchMaking.RowMatchesEmpty | fast_simple_lcsk/match_maker.cc:35 | a row without a window of a has no matches |
| MatchMaking.BucketIsMatches | fast_simple_lcsk/match_maker.cc:58 | the bucket of a's window hash is that window's list of matches in b, because the hash is perfect |
| MatchMaking.NaiveMatchMaker.constructor | fast_simple_lcsk/match_maker.h:46-47 | stores a, b, k and starts at row 0 |
| MatchMaking.NaiveMatchMaker.GetNextMatches | fast_simple_lcsk/match_maker.cc:32-45 | succeeds exactly when row + k is at most the length of a, returning row's matches and advancing row by one; otherwise returns the empty list and leaves row unchanged |
| MatchMaking.PerfectHashMatchMaker.constructor | fast_simple_lcsk/match_maker.h:64-73 | stores a, b, k, row 0; builds the alphabet of a then b, a fresh hasher over a, and the buckets of b |
| MatchMaking.PerfectHashMatchMaker.InitBMap | fast_simple_lcsk/match_maker.cc:85-94 | every bucket is the ascending list of the starts of b whose window has that hash |
| MatchMaking.PerfectHashMatchMaker.GetNextMatches | fast_simple_lcsk/match_maker.cc:47-64 | the same outcome as the naive maker: row's matches and row + 1, or failure with the empty list and row unchanged; the hasher stays in step with row |
| MatchMaking.LookupKeeps | fast_simple_lcsk/match_maker.cc:58 | the empty bucket that a lookup of a missing hash inserts changes no lookup |
| MatchMaking.CopyBucket | fast_simple_lcsk/match_maker.cc:58-60 | the copy loop returns the bucket itself |
| MatchMaking.Create | fast_simple_lcsk/match_maker.cc:20-30 | whatever kind is asked for, a valid perfect-hash maker over a, b, k at row 0 |
| MatchMaking.StepBoth | fast_simple_lcsk/match_maker.cc:32-64 | one call on each maker at the same row gives the same success flag and the same list, and both rows move alike |
| MatchMaking.RunRows | fast_simple_lcsk/match_maker.cc:32-64 | calling both makers until they fail yields the same lists, one per window of a |
| MatchMaking.RowsSpec | fast_simple_lcsk/match_maker.h:27-29 | the i-th collected list is row i's list of matches |
| MatchMaking.RunBoth | fast_simple_lcsk/match_maker.cc:32-64 | fresh naive and perfect-hash makers agree at every row, and the i-th list is row i's matches |
| MatchMaking.BucketsWithoutAssertsSpec | fast_simple_lcsk/match_maker.cc:85-94 | built without assertions, bucket 0 holds every window start of b and no other bucket exists |
| MatchMaking.RowWithoutAssertsAll | fast_simple_lcsk/match_maker.cc:47-64 | built without assertions, every row of a is answered with every window start of b, matching or not |
| MatchMaking.WithoutAssertsMismatch | fast_simple_lcsk/match_maker.cc:57 | for a = b = "ab" and k = 1, row 0 yields columns 0 and 1 without assertions, while its only match is 0 |
| Events.RowPrefix | fast_simple_lcsk/match_events_queue.h:34-41 | the length of the maximal prefix of events on the given row: everything before it is on the row, the event after it is not |
| Events.MatchEventsQueue.constructor | fast_simple_lcsk/match_events_queue.h:24-25 | both queues start empty |
| Events.MatchEventsQueue.AddBegin | fast_simple_lcsk/match_events_queue.h:27-29 | appends the event to the back of begin; end is untouched |
| Events.MatchEventsQueue.AddEnd | fast_simple_lcsk/match_events_queue.h:30-32 | appends the event to the back of end; begin is untouched |
| Events.MatchEventsQueue.PopBegin | fast_simple_lcsk/match_events_queue.h:34-41 | succeeds exactly when begin is non-empty and its front is on row; then returns and removes the front, otherwise changes nothing and leaves the caller's event as it was |
| Events.MatchEventsQueue.PopEnd | fast_simple_lcsk/match_events_queue.h:43-50 | the same as PopBegin, on end |
| Events.DrainStep | fast_simple_lcsk/match_events_queue.h:34-41 | a pop succeeds exactly when the row prefix is non-empty, and each success shortens it by one: popping until failure removes exactly the row prefix |
| Counting.ObjectCounter.constructor | util/object_counter.h:35-37 | all three counters start at 0 |
| Counting.ObjectCounter.Construct | util/object_counter.h:20-24 | created and alive grow by one and maxAlive becomes max(maxAlive, alive); alive <= maxAlive and alive <= created are kept |
| Counting.ObjectCounter.Destruct | util/object_counter.h:26-28 | alive drops by one; created and maxAlive are unchanged; the invariant is kept |
| MatchPairs.NewMatchPair | fast_simple_lcsk/match_pair.h:33-34 | the record holds the four fields as given, and one more object is created and alive |
| MatchPairs.NewDefaultMatchPair | fast_simple_lcsk/match_pair.h:31 | prev is null, and one more object is created and alive |
| Optimum.Score | fast_simple_lcsk/lcsk.cc:84-97 | every score is at least k: a whole k-match or a one-step continuation of a scored k-match |
| Optimum.BeforeUpper | fast_simple_lcsk/lcsk.cc:137-147 | the best score before (x, y) bounds the score of every k-match in that range |
| Optimum.BeforeWitness | fast_simple_lcsk/lcsk.cc:137-147 | a positive best score before (x, y) is the score of some k-match in that range |
| Optimum.BestZero | fast_simple_lcsk/lcsk.cc:226-227 | the best score is 0 exactly when a and b share no k-window |
| Optimum.BestUpper | fast_simple_lcsk/lcsk.cc:226-227 | the best score bounds the score of every k-match |
| Optimum.ScoreMultiple | fast_simple_lcsk/lcsk.cc:112-117 | without continuations every score is a multiple of k |
| Alignment.Runs | util/lcsk_testing.cc:230-261 | the lengths of the maximal runs of consecutive values; there is a run exactly when the list is non-empty |
| Alignment.RunsSnoc | util/lcsk_testing.cc:240-245 | one more value lengthens the last run when it continues it, and otherwise opens a run of one |
| Alignment.RunsAppendBlock | fast_simple_lcsk/lcsk.cc:47-49 | appending a consecutive block lengthens the last run by its length or adds a run of that length |
| Alignment.RunsAppendBreak | fast_simple_lcsk/lcsk.cc:44-46 | where consecutive values break, the runs of the two sides are joined |
| Alignment.MultipleOfMod | util/lcsk_testing.cc:249 | the division-free multiple test agrees with the source's run % k == 0 |
| Alignment.AlignmentLength | util/lcsk_testing.cc:267-296 | a valid reconstruction is no longer than either string |
| Alignment.ReconIsValid | fast_simple_lcsk/lcsk.cc:35-57 | the reconstruction of a well-linked pair's chain is a valid alignment as long as its dp, ending at the pair's end |
| Alignment.PieceFacts | fast_simple_lcsk/lcsk.cc:44-54 | what one pair adds is a whole k-match after its predecessor's end, or (LCSk++ only) a single pair one diagonal step after it, and its length is the dp gained |
| Alignment.JoinValid | util/lcsk_testing.cc:230-264 | a valid reconstruction followed by a well-placed, run-shaped block is valid |
| Alignment.DiagKeyStep | fast_simple_lcsk/lcsk.cc:90-92 | between increasing rows of a, the diagonal key steps by one exactly for a one-step diagonal move, so key runs are diagonal stretches |
| Alignment.ReconIsBlock | fast_simple_lcsk/lcsk.cc:35-57 | the reconstruction of a well-linked chain is a block alignment: each piece is a whole k-match or one diagonal step lengthening the block before it |
| FastLcsk.WellLinkedIsShaped | fast_simple_lcsk/lcsk.cc:44-52 | along a well-linked chain every link is a whole-match link or a one-step diagonal, so the source's assertion in the reconstruction holds |
| FastLcsk.PushWholeMatch | fast_simple_lcsk/lcsk.cc:47-49 | the inner loop pushes the k pairs of the match, last pair first |
| FastLcsk.DescendingIsBlock | fast_simple_lcsk/lcsk.cc:56 | reversing the pushed pairs gives the whole match in ascending order |
| FastLcsk.FillLcskReconstruction | fast_simple_lcsk/lcsk.cc:35-57 | the output is the ascending reconstruction of the chain from best (empty for a null best) |
| FastLcsk.FirstAtLeast | fast_simple_lcsk/lcsk.cc:137-140 | the first slot whose end column is at least j: every slot before it ends before j |
| FastLcsk.FirstAtLeastUnique | fast_simple_lcsk/lcsk.cc:166-169 | a search that stops at the first slot not below j stops at FirstAtLeast |
| FastLcsk.LowerBound | fast_simple_lcsk/lcsk.cc:166-169 | binary search by end column on a sorted table returns FirstAtLeast |
| FastLcsk.AmortizedQuery | fast_simple_lcsk/lcsk.cc:137-148 | the scan moves from its start to FirstAtLeast(T, j); the event's pair is built from the slot before it; one object is created |
| FastLcsk.AmortizedRowQuery | fast_simple_lcsk/lcsk.cc:124-150 | the begin events of row are popped and, in order, their end events appended; one object per event is created |
| FastLcsk.ElementwiseQuery | fast_simple_lcsk/lcsk.cc:165-186 | the search key is rewritten into the event's pair, the same one AmortizedQuery builds; one object is created |
| FastLcsk.ElementwiseRowQuery | fast_simple_lcsk/lcsk.cc:152-188 | the same new queues and the same count as AmortizedRowQuery, so the choice between the two queries changes nothing |
| FastLcsk.EndsStep | fast_simple_lcsk/lcsk.cc:142-148 | each event's end is computed from the table alone, so the ends of a prefix extend one event at a time |
| FastLcsk.RaisedSpec | fast_simple_lcsk/lcsk.cc:84-97 | P is relinked to a previous-row pair exactly when one ends one column before P and its dp plus one beats P's; otherwise P is unchanged |
| FastLcsk.Continuation | fast_simple_lcsk/lcsk.cc:85-97 | the continuation index reaches the first pair not ending more than one column before P, and P comes back raised |
| FastLcsk.PaddedSpec | fast_simple_lcsk/lcsk.cc:102-106 | padding keeps the old slots, grows the table to dp + 1 slots, and gives each new slot end column j + 1 |
| FastLcsk.WrittenDownSpec | fast_simple_lcsk/lcsk.cc:108-110 | the write loop puts P in exactly the slots of (lo, idx] whose end column is beyond j, the rest unchanged |
| FastLcsk.PadWriteSpec | fast_simple_lcsk/lcsk.cc:101-110 | the LCSk++ write puts P in every slot of (dp - k, dp] that is new or ends after j; every other slot keeps its pair |
| FastLcsk.PadWriteKeeps | fast_simple_lcsk/lcsk.cc:101-110 | the write keeps the table sorted, keeps slot 0, refines the old table, and slot dp ends no later than j |
| FastLcsk.PadAndWrite | fast_simple_lcsk/lcsk.cc:101-110 | computes the LCSk++ write and counts one object per placeholder slot added |
| FastLcsk.LcskWrite | fast_simple_lcsk/lcsk.cc:112-117 | slot dp / k is appended when it is one past the end, replaced when P ends earlier, and otherwise left alone |
| FastLcsk.RowUpdate | fast_simple_lcsk/lcsk.cc:64-122 | the end events of row are popped and filed in order; the new table and the new previous row are the row's filed pairs; only LCSk++ placeholders create objects |
| FastLcsk.RowTableStep | fast_simple_lcsk/lcsk.cc:78-119 | filing one more event extends the row's table and pairs by that event alone |
| FastLcsk.QueryPairOk | fast_simple_lcsk/lcsk.cc:142-147 | on a table keeping the invariant, the pair for a k-match at (row, j) ends at (row + k - 1, j + k - 1), is well linked and is ready to be filed |
| FastLcsk.QueryPairLinked | fast_simple_lcsk/lcsk.cc:143-147 | the pair links to the sentinel or to a pair whose match ends before its own starts, with dp raised by k |
| FastLcsk.QueryPairPending | fast_simple_lcsk/lcsk.cc:142 | the slot before the first end column >= j exists (slot 0 ends before j) and the new pair is ready for filing |
| FastLcsk.FileOk | fast_simple_lcsk/lcsk.cc:99-117 | filing a ready well-linked pair keeps the table invariant (sentinel in slot 0, sorted end columns, dp = k * slot in LCSk, dp >= slot in LCSk++) and refines the table |
| FastLcsk.RaisedOk | fast_simple_lcsk/lcsk.cc:90-97 | a continued pair stays well linked and ready to be filed |
| FastLcsk.RowTableKeeps | fast_simple_lcsk/lcsk.cc:78-121 | filing a whole row moves the table invariant on to the next row, refines the table, and makes the filed pairs the next previous row |
| FastLcsk.QueueAfterQuery | fast_simple_lcsk/lcsk.cc:206-221 | the queries of a row queue, after the existing end events, ready end events on row + k - 1, in column order |
| FastLcsk.QueueBeforeUpdate | fast_simple_lcsk/lcsk.cc:78 | before the update, the row's end events are the queue's row prefix and the rest lie on later rows |
| FastLcsk.FinalOk | fast_simple_lcsk/lcsk.cc:226-227 | the last slot, unless it is the sentinel, heads a chain whose reconstruction is valid and as long as its dp |
| FastSweep.PushBegins | fast_simple_lcsk/lcsk.cc:208-210 | one begin event per matching column, in the maker's order, at the back of the queue |
| FastSweep.QueryRow | fast_simple_lcsk/lcsk.cc:212-221 | whichever query is chosen, the row's begin events are consumed and their end events queued; the queue keeps its invariant and now carries, for every k-match starting on row, its whole-match value |
| FastSweep.UpdateRow | fast_simple_lcsk/lcsk.cc:223 | the row update leaves a threshold table for the rows up to row + 1 and, for LCSk++, the row's scored pairs as the next previous row |
| FastSweep.SweepRow | fast_simple_lcsk/lcsk.cc:206-223 | one row of the sweep keeps the sweep invariant, including the score invariant, moves the maker on a row, and creates one object per match of the row (LCSk) |
| FastSweep.Sweep | fast_simple_lcsk/lcsk.cc:205-224 | after every row of a and the one after it the table keeps its invariant and is a threshold table for all k-matches; LCSk created one object per k-match |
| FastSweep.Reconstruct | fast_simple_lcsk/lcsk.cc:226-227 | a block alignment whose length is the last slot's dp, which is the best score; a multiple of k in LCSk |
| FastSweep.LcsKSparseFastImpl | fast_simple_lcsk/lcsk.cc:190-228 | returns a block alignment of length Best, empty exactly when there is no k-match; in LCSk its length is a multiple of k and 1 + (number of k-matches) objects are created, whatever query is chosen per row |
| FastSweep.LcsKSparseFast | fast_simple_lcsk/lcsk.cc:235-238 | an LCSk block alignment of length Best for LCSk, a multiple of k, empty exactly when there is no k-match; one object per k-match plus the sentinel |
| FastSweep.LcsKppSparseFast | fast_simple_lcsk/lcsk.cc:240-243 | an LCSk++ block alignment of length Best for LCSk++, empty exactly when there is no k-match |
| FastScores.QueryScore | fast_simple_lcsk/lcsk.cc:137-147 | on a threshold table, the pair a query builds for the k-match at (row, j) has dp equal to the match's whole-match value: k plus the best score ending before it in both strings |
| FastScores.RaisedScore | fast_simple_lcsk/lcsk.cc:84-97 | LCSk++: continuing a pair that carries its whole-match value from the previous row's pairs gives it exactly its score |
| FastScores.RowScores | fast_simple_lcsk/lcsk.cc:78-119 | filing a row's events keeps the table a threshold table for the matches above the row, and every filed pair reaches the slot of its dp |
| FastScores.QueueScoresAfterQuery | fast_simple_lcsk/lcsk.cc:206-221 | after the queries of row, every queued end event carries its whole-match value, and every k-match starting on row or before has its end event queued |
| FastScores.TableScoresNext | fast_simple_lcsk/lcsk.cc:78-121 | once every k-match ending on row has its pair filed, the table is a threshold table before row + 1 |
| FastScores.PrevScoresNext | fast_simple_lcsk/lcsk.cc:118-121 | LCSk++: the pairs a row files, ascending by column and scored, are one per k-match ending on the row |
| FastScores.RowUpdateScores | fast_simple_lcsk/lcsk.cc:64-122 | the row update leaves a threshold table before row + 1, the rest of the queue keeps its scores, and (LCSk++) the filed pairs are the next previous row |
| FastScores.FinalScore | fast_simple_lcsk/lcsk.cc:226 | after the last row the last slot's dp is the best score of all k-matches |
| SlowLcsk.PushedSpec | util/lcsk_testing.cc:101-112 | the collected pairs are exactly the k-matches (i, j) with j < n, each once |
| SlowLcsk.Insert | util/lcsk_testing.cc:114 | insertion into an ascending list keeps it ascending, adds exactly one element and keeps the others |
| SlowLcsk.SortPairs | util/lcsk_testing.cc:114 | the sorted list is strictly ascending in the standard pair order and holds exactly the same pairs |
| SlowLcsk.PrefixHash | util/lcsk_testing.cc:93-94 | the value of a prefix reduced mod sigma^k is the hash of its last k characters |
| SlowLcsk.RollingStep | util/lcsk_testing.cc:93-94 | one rolling step keeps the hash equal to the prefix value mod sigma^k, and from k characters on to the last window's hash |
| SlowLcsk.FourPow | util/lcsk_testing.cc:87-89 | 4^k == 2^(2k), so the source's assertion for a four-letter alphabet holds |
| SlowLcsk.HashModulus | util/lcsk_testing.cc:84-89 | the modulus is sigma^k, and 2^(2k) when sigma is 4 |
| SlowLcsk.IndexWindows | util/lcsk_testing.cc:91-99 | every bucket of the index lists, in order, the window starts of a with that hash |
| SlowLcsk.CollectPairs | util/lcsk_testing.cc:101-112 | the pairs pushed are exactly, in push order, the k-matches found by scanning b |
| SlowLcsk.GetMatches | util/lcsk_testing.cc:59-115 | a strictly ascending list of exactly the pairs (i, j) with a[i, i+k) == b[j, j+k) |
| SlowLcsk.BestLink | util/lcsk_testing.cc:172-191 | the inner loop's value is at least k and at least every earlier offer; the link is -1 (value k) or an earlier match achieving the value, and it is the last match offering that much |
| SlowLcsk.OfferStep | util/lcsk_testing.cc:173-190 | one inner step records j's offer, and only a strictly better offer moves the link |
| SlowLcsk.DpBellman | util/lcsk_testing.cc:154-158 | on sorted matches every possible predecessor comes earlier, so dp[i] is the best over all matches |
| SlowLcsk.SparseDp | util/lcsk_testing.cc:155-200 | every dp entry and link satisfies the dynamic program; the best index is the first maximum; the reconstruction follows its links (empty for no matches) |
| SlowLcsk.DpMultiple | util/lcsk_testing.cc:177-179 | without continuations every dp value is a multiple of k |
| SlowLcsk.FillReconstruction | util/lcsk_testing.cc:117-152 | the output is the ascending reconstruction of the links from the last index |
| SlowLcsk.SlowReconIsChain | util/lcsk_testing.cc:125-151 | walking the index links gives the same pairs as walking the corresponding chain of match pairs |
| SlowLcsk.ChainWellLinked | util/lcsk_testing.cc:168-191 | links that keep the dynamic program's promise form well-linked chains |
| SlowLcsk.SlowReconValid | util/lcsk_testing.cc:117-152 | following the links from any match gives a block alignment, non-empty and as long as its dp value |
| SlowLcsk.DpIsScore | util/lcsk_testing.cc:155-200 | on the sorted list of all k-matches, every dp entry is the score of its match |
| SlowLcsk.SlowBest | util/lcsk_testing.cc:193-200 | the largest dp entry is the best score |
| SlowLcsk.LcskSparseSlowImpl | util/lcsk_testing.cc:202-208 | a block alignment of length Best, empty exactly when a and b share no k-window; a multiple of k for LCSk |
| SlowLcsk.LcskSparseSlow | util/lcsk_testing.cc:301-304 | an LCSk block alignment of length Best for LCSk, a multiple of k, empty exactly when there is no k-match |
| SlowLcsk.LcskppSparseSlow | util/lcsk_testing.cc:306-309 | an LCSk++ block alignment of length Best for LCSk++, empty exactly when there is no k-match |
| FullTable.Dp | util/lcsk_testing.cc:271-296 | every table value lies between 0 and min(i, j) |
| FullTable.LcskSlowImpl | util/lcsk_testing.cc:269-297 | the loops compute the last cell of the table's recurrence |
| FullTable.FillRow | util/lcsk_testing.cc:277-293 | after row i every cell of rows 0..i holds its recurrence value and later rows are untouched |
| FullTable.FillCell | util/lcsk_testing.cc:278-292 | the cell is the max of its upper and left neighbours and of the diagonal scan up to the first mismatch |
| FullTable.DpMonotone | util/lcsk_testing.cc:278 | a cell bounds every cell above and to the left of it |
| FullTable.DpMultiple | util/lcsk_testing.cc:289-290 | for LCSk every table value is a multiple of K |
| FullTable.DpCases | util/lcsk_testing.cc:278-291 | a positive cell takes its value from the cell above, the cell to the left, or a usable common suffix |
| FullTable.DiagWitness | util/lcsk_testing.cc:282-291 | a positive diagonal value comes from a usable common-suffix length that the scan passed |
| FullTable.DpWitness | util/lcsk_testing.cc:269-297 | every table value is the length of a valid alignment of a[..i] and b[..j] |
| FullTable.LcskSlow | util/lcsk_testing.cc:321-324 | a length that is at most the length of either string, a multiple of K, and the length of some valid LCSk alignment (not proved the largest) |
| FullTable.LcskppSlow | util/lcsk_testing.cc:326-329 | a length that is at most the length of either string and the length of some valid LCSk++ alignment (not proved the largest) |
| Validity.BadRunTest | util/lcsk_testing.cc:249 | the source's rejection test of a run is the negation of a good run |
| Validity.RunsKept | util/lcsk_testing.cc:230-261 | the runs finished before i stay as they are when more values follow |
| Validity.LoopAsWrittenMeaning | util/lcsk_testing.cc:230-262 | the run loop as written judges all finished runs but skips a last run of length one |
| Validity.CharactersMatch | util/lcsk_testing.cc:214-227 | the first loop accepts exactly when every pair is inside both strings and indexes equal characters |
| Validity.RunsCheckAsWritten | util/lcsk_testing.cc:230-264 | the second loop accepts exactly when the pairs strictly increase and both coordinates pass the run loop as written |
| Validity.ValidLcsk | util/lcsk_testing.cc:210-265 | the check as written accepts exactly the lists that are matched, increasing, and whose runs are good except possibly a last run of one pair |
| Validity.LoopCorrectedMeaning | util/lcsk_testing.cc:230-262 | the corrected loop judges every run, the last one included |
| Validity.RunsCheckCorrected | util/lcsk_testing.cc:230-264 | the corrected second loop accepts exactly when the pairs increase and both coordinates pass the corrected run loop |
| Validity.ValidLcskCorrected | util/lcsk_testing.cc:210-265 | the corrected check accepts exactly the lists passing the per-coordinate run test (ValidAlignment), the last run included |
| Validity.ValidIsAccepted | util/lcsk_testing.cc:210-265 | the check as written never rejects a valid reconstruction |
| Validity.TrailingSingletonAccepted | util/lcsk_testing.cc:247-253 | with k = 2 the check as written accepts (0, 0), (1, 1), (3, 3) on "aaaa", which is not a valid LCS2 reconstruction |
| Validity.DiagonalRunsCheck | util/lcsk_testing.cc:230-264 | a diagonal run loop, shaped like the corrected coordinate loops, accepts exactly when every maximal diagonal stretch has a good length |
| Validity.ValidLcskBlocks | util/lcsk_testing.cc:210-265 | the check with the diagonal test added accepts exactly the block alignments |
| Validity.OffDiagonalAccepted | util/lcsk_testing.cc:230-264 | with k = 2 and LCSk++, the list (0, 0), (1, 1), (2, 3), (4, 4), (5, 5) on "xxxxxx" is accepted as written and passes the per-coordinate test, yet is no block alignment |
| StatsFasta.BaseIdsConsistent | experiment/stats_fasta.cc:35-39 | on texts of bases, equal ids mean equal characters |
| StatsFasta.OtherBytesCollide | experiment/stats_fasta.cc:35-39 | a byte outside A, C, G, T shares A's id |
| StatsFasta.CountKmers | experiment/stats_fasta.cc:40-46 | each hash's count is the number of windows of s with that hash |
| StatsFasta.SumSquaresBump | experiment/stats_fasta.cc:45 | one more window with an old count c raises the sum of squares by 2c + 1 |
| StatsFasta.PairsStep | experiment/stats_fasta.cc:43-46 | one more window adds 2 * (earlier equal windows) + 1 ordered pairs |
| StatsFasta.SumOfSquares | experiment/stats_fasta.cc:47-50 | the sum of the squared counts, in whatever order the map yields its keys |
| StatsFasta.PairsAreMatches | experiment/stats_fasta.cc:34-52 | on a text of bases, ordered pairs with equal hashes are the k-matches of s against itself |
| StatsFasta.CountMatchPairs | experiment/stats_fasta.cc:34-52 | the number of ordered pairs of windows with equal hashes; on a text of bases, the number of k-matches of s against itself |
| StatsFasta.FirstHeaderSpec | experiment/stats_fasta.cc:73 | the first header found is a header and no earlier line is one |
| StatsFasta.RecordsCount | experiment/stats_fasta.cc:66-85 | a file has one record per header, or one record when it has no header |
| StatsFasta.SectionsSnocHeader | experiment/stats_fasta.cc:73-78 | a header after the first one closes the current record and opens an empty one |
| StatsFasta.SectionsSnocLine | experiment/stats_fasta.cc:79-83 | a data line extends the last record; empty and ',' lines leave it as it is |
| StatsFasta.AssembleSequences | experiment/stats_fasta.cc:66-85 | the assembly loop produces the records of the file |
| StatsFasta.OnlyBasesCounts | experiment/stats_fasta.cc:87-92 | the filtered text holds each base as often as the input and nothing else |
| StatsFasta.OnlyBasesAppend | experiment/stats_fasta.cc:87-92 | filtering distributes over concatenation, so order is preserved |
| StatsFasta.OnlyBasesKeeps | experiment/stats_fasta.cc:87-92 | a text of bases is left as it is |
| StatsFasta.FilterBases | experiment/stats_fasta.cc:87-92 | the bases of all records, in order |
| StatsFasta.StatsFasta | experiment/stats_fasta.cc:54-111 | returns the filtered text's length, the best LCSk score of the text against itself (a multiple of k, at most that length), and the k-mer pair count; the count plus one equals the number of pair objects created |
| TestLcsk.TestLcsk | test_lcsk.cc:49-80 | every assertion of the harness holds: slow and fast sizes agree for LCSk and for LCSk++ and ValidLcsk accepts all four reconstructions; the size returned is the best LCSk score |

## Left out

- FullTable.LcskSlow, FullTable.LcskppSlow: the value is proved to be at most the length of either string and the length of some valid alignment, not the largest such length. The converse of FullTable.DpWitness, that no valid alignment of the prefixes is longer than the cell, is not proved. Neither is the claim of lcsk_testing.cc:280-281 that capping the diagonal scan at 2K loses nothing. So the full-table length is not tied to Optimum.Best.
- Optimum.Best: it is the best chain score of the two sparse dynamic programs, defined by recursion over k-matches. That no block alignment is longer than it, which would make it the LCSk / LCSk++ length over all alignments, is not proved.
- MatchMaking.PerfectHashMatchMaker.InitBMap, MatchMaking.PerfectHashMatchMaker.GetNextMatches: the model assumes assertions are compiled in. Lines 53, 57, 90 and 93 of match_maker.cc call the hasher's `Next` inside `assert`, so a build without assertions never advances the hashers (see "## Findings").
- The amortised-or-element-wise choice of lcsk.cc:214-215 uses floating-point logarithms. It is the parameter `useAmortized`, and every result is proved for any choice.
- Hash values are unbounded. So the model has no 64-bit wrap-around of `hash * sigma` in the rolling hashers. It also does not model the `log` guard and `exit(1)` of lcsk_testing.cc:73-78, which protect the 64-bit assumption.
- `int`, `long long` and `uint64_t` overflow of dp values, positions and the counters is not modelled.
- A negative `char` used as a table index is not modelled: bytes are 0..255, and the model follows the source only for bytes below 128. Ids are `int` where the source stores them in a `char`, which cannot wrap for such inputs: at most 128 distinct bytes give ids below 128.
- The match makers, the hasher and the algorithms require k >= 1. With k = 0 the source reads `s[col - 1]` at col 0 and divides by k.
- `main`'s argument-count check, `stoi`, file reading and printing are left out. StatsFasta takes the file's lines and k, and returns the printed values except `max_objects_alive`.
- `shared_ptr` lifetimes are left out: destructor timing is not modelled, so `objects_alive` and `max_objects_alive` are not tracked by the algorithms. `Construct` and `Destruct` are modelled on their own.
- `MatchPair` is an immutable value. The source changes a pair in place only while one event holds it (lcsk.cc:94-95 and 178-184), so value semantics does not change the result.
- The iteration order of `unordered_map` and `unordered_multimap` is not modelled. In `SumOfSquares` the order is an arbitrary choice of key. The buckets are lists in insertion order, which the source produces and `get_matches` then sorts away.
- SlowLcsk.SortPairs: `std::sort` is modelled by insertion into an ascending list. On the duplicate-free input the result is the same list.
- SlowLcsk.SparseDp requires the matches to be sorted. This is the `is_sorted` assertion of lcsk_testing.cc:158.
- The exposed wrappers `ValidLcsk` / `ValidLcskpp` (lcsk_testing.cc:311-319) are the `pp` argument of Validity.ValidLcsk.
- `prepare_alphabet` (lcsk_testing.cc:33-48) is the same code as `PrepareAlphabet`, and Alphabet.PrepareAlphabet models both.
- Records: data lines before the first header are dropped, as the source's `current_seq = ""` does.
- The tests' random string generators (util/random_strings.h), main.cc and experiment/gen_ratios_humangenome.py are not part of this model.

## Findings

| source | as written | input that shows it | evidently intended | confidence | as-written member | corrected member |
|---|---|---|---|---|---|---|
| util/lcsk_testing.cc:247-253 | When the last pair does not continue the run before it, the loop judges the earlier run and resets `run_a` to 1. The last pair's own run of length one is never judged, and a one-element list is never checked at all. | a = b = "aaaa", k = 2, reconstruction (0, 0), (1, 1), (3, 3) in LCSk mode: accepted, though its last run has length 1. | Judge every maximal run, the last one included, so that exactly the lists passing the per-coordinate run test are accepted. | not executed | Validity.TrailingSingletonAccepted | Validity.ValidLcskCorrected |
| util/lcsk_testing.cc:230-264 | In LCSk++ mode the check judges the runs of row indices and of column indices separately. It never asks whether the pairs form diagonal blocks, so a list whose row and column runs are long enough is accepted even when a pair lies on no k-match. | a = b = "xxxxxx", k = 2, LCSk++ reconstruction (0, 0), (1, 1), (2, 3), (4, 4), (5, 5): rows run 0-2 and 4-5, columns 0-1 and 3-5, all at least 2, so it is accepted; but (2, 3) is a diagonal stretch of one. | Also judge the maximal diagonal stretches, so that exactly the unions of k-matches and their one-step extensions are accepted. Both sparse algorithms are proved to return such lists. | not executed | Validity.OffDiagonalAccepted | Validity.ValidLcskBlocks |
| fast_simple_lcsk/match_maker.cc:53-93 | `GetNextMatches` and `InitBMap` call the hasher's `Next` only inside `assert(...)` (lines 53, 57, 90, 93). Compiled with NDEBUG, the calls vanish and `hash` stays 0. Every window of b goes to bucket 0, and every row of a reads bucket 0. | a = b = "ab", k = 1: row 0 yields columns 0 and 1, while only column 0 matches. | Call `Next` outside the assertion and assert on its result, so that row i yields exactly its matches whatever the build. | not executed | MatchMaking.WithoutAssertsMismatch | MatchMaking.PerfectHashMatchMaker.GetNextMatches |
