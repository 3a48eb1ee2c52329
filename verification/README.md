# Vedox core: a Dafny model

Vedox keeps a workspace of Markdown documents: it diffs them, indexes them, tracks the
links between them, and serves them to an editor and to agents. This project models the
parts of its Go code in which state, arithmetic or concurrency is the difficulty, and
proves what they promise. Paths below are relative to the repository's root.

| module | models | main results |
|---|---|---|
| `EditGraph`, `Myers`, `Changes`, `BlockDiff`, `Reordering`, `Replacement` | the block-level Myers diff, `internal/history/differ.go` | The script is shortest among all scripts and turns old into new; the unclipped search stops at exactly the far corner; every delete and insert is accounted for; the diff is empty exactly when old is a subsequence of new with the same texts, and reports texts that stay exactly when their order changed; what each edit is reported as, and what replacing one block in place is |
| `Lines`, `Splitter`, `BlockShapes`, `Blocks` | the Markdown splitter of the same file | Splitting partitions the non-blank lines, follows headings, and is a normal form exactly if blank lines do not hide front matter; blocks are what their text says, hold the lines of their kind, and are as long as they can be |
| `EditDistance` | `internal/db/dupcheck.go` | The single-row program computes the least cost of an edit script, which is a metric |
| `RefCounts`, `Like` | `internal/docgraph/store.go` | After any run a count equals its edges exactly if no deletion has left it behind; escaped prefixes match literally, and unescaped ones only without metacharacters |
| `GraphQuery`, `GraphFacts` | `internal/docgraph/graph_query.go` | Nodes tell their documents and count their edges, the cap keeps the best ranked nodes, and the result does not depend on map order |
| `WriterFunnel` | `internal/db/writer.go` | Committed jobs are serial in queue order, at most once, and truthfully answered, in every interleaving; exactly when a cancelled job can still commit, and which jobs are never answered |
| `IndexerMachine` | `internal/indexer/indexer.go` | The WaitGroup counts live work, firings carry the right operation, and exactly when something is left, or written, after shutdown |
| `ReplayWindow` | `internal/agentauth` | The exact condition under which a nonce is accepted twice, and its composition with the clock check |
| `Rollup` | `internal/analytics/aggregator.go`, `internal/db/globaldb.go` | Counts are at least once always, and exactly once exactly in the runs of harmless acts |
| `TaskOrder` | `internal/api/tasks.go`, `internal/db/tasks.go` | Positions never come closer than the minimum gap; a move reorders the list as dragged |
| `Preview` | `internal/codepreview/resolver.go` | When a preview is the file byte for byte, what a range contains, and that ranges rebuild the file |

## How the model is built

Code that updates things in place is modelled by methods with loops over arrays, or by
classes whose methods reassign their fields (`SearchStep`, `AdvanceRow`, `FilterEdges`,
`GraphStore`, `GraphNode`, `NonceCache`, `Gate`, `Aggregator`, `TaskStore`). Each such
method is proved equal to a specification function, and the properties are lemmas about
that function. Protocols with several goroutines (`WriterFunnel`, `IndexerMachine`) are
state machines whose steps are the atomic actions of the goroutines, so that a run is any
interleaving. Optional values and error returns are in `Outcomes`.

`dafny verify dfyconfig.toml` checks the whole project with Dafny's default limits.

What the outside world contributes is a parameter: clock readings, whether a transaction
commits, Go's path functions, the character equality of LIKE, the order of a map
iteration (an arbitrary choice from a set). Strings are sequences of code points; in
`Preview`, which works on a file's bytes, a character stands for a byte.
Go's `int` is unbounded except where its width decides something: durations in
`ReplayWindow` saturate at 64 bits, and `Preview.Atoi` has the range of a 64-bit integer.

### The edit graph

The diff's array is not clipped to the grid, so a stored `x` may exceed the old length and
`y` the new one. `Reach(a, b, d, x, y)` is reachability on the extended grid. A step's
diagonals k = -d, -d + 2, ..., d are numbered j = 0, ..., d with k = 2j - d, and `rows[d]`
lists the stored x by j. `StoredIsFurthest` holds off the grid too, and `Clip` shows that
a path pays one edit for every step outside, which is why the first hit of the stopping
test is at exactly (n, m).

## Where the code does something other than its comments say

- A `Modified` change can have equal old and new text (`SwapIsModifiedIntoItself`), when
  two blocks of one section swap places. It has exactly if the script rotates a stretch of
  blocks by one (`ModifiedIntoItselfIff`); with no matched block between the two edits it
  cannot (`FoldedTextsDiffer`). On the documents: texts that stay are reported if and only
  if they do not come in the same order in both (`NothingKeptIsReportedIff`,
  `ReportsReordering`).
- Replacing a block in place is one modification, except that when the next block has the
  old text it is reported as an addition and a move; which block of a run of equal texts is
  held to have come decides on its section (`ReplacementIsModificationIff`,
  `DiffOfReplacement`).
- A second copy of an existing block yields no change at all (`EmptyDiff`).
- The comment on the Levenshtein row (dupcheck.go, line 25) has its two prefixes the
  wrong way round; `RowIs` states the invariant that holds.
- The counts table is said never to drift (docgraph/store.go, lines 55-58; migration 007,
  lines 11-15). Deleting a document removes its edges by the foreign key's cascade without
  touching the counts; they stay right if and only if it had no outgoing reference
  (`CascadeKeepsCountsIff`). Over a whole run a count is right if and only if no deletion
  has left it behind since it was last refreshed (`CountIsExactIff`, `CountsNeverDrift`),
  and a wrong one is too high (`CountsNeverTooLow`). `DeleteRefs`, whose comment says to call it when a document is
  deleted, repairs this only when it is called before the deletion
  (`ClearingBeforeDeletionIsSafe`, `ClearingAfterDeletionIsTooLate`).
- The aggregator is said to process each row exactly once and not to double-count on
  restart. The cursor lives in memory and the upsert adds, so a restart counts everything
  again (`RestartCountsAgain`), a failing cycle adds what it got through once more
  (`FailingCyclesInflate`), and an event without a date or kind stops the cursor for good
  (`UnacceptableEventBlocksCursor`). Counts are exact exactly in the runs whose every act
  is harmless where it happens (`ExactIffHarmless`).
- The indexer resets a timer under its mutex although the timer may have fired already;
  the callback then runs twice for one `Add`, and the counter can go below zero
  (`LateResetUnderflows`), at which Go's WaitGroup panics and the process crashes. The
  counter is exact if and only if there was no such reset. It can also reach zero too early
  without ever going below: then Stop, which promises that every callback has exited,
  returns while one is at work, and the index is written afterwards
  (`LateResetWritesAfterDone`). When the loop is done nothing is left if and only if there
  was no such reset (`NothingLeftIff`), and a write can still start if and only if a
  callback has taken an operation by then (`WritesAfterDoneIff`).
- The drain on shutdown is meant to keep submitters from blocking forever; a job that
  enters the queue after the drain's last step is never answered, and only those
  (`AnsweredIffBeforeExit`, `JobCanBeStranded`). A submitter can be told "cancelled"
  although its job was committed, if and only if the cancellation comes after the test of
  the context with which the commit begins (`CancelledYetCommittedIff`). Before that the job
  is never committed (`CancelledInTimeNeverCommits`), and before its transaction begins it
  never runs (`CancelledInTimeNeverRuns`).
- A document is not always split like its own blocks printed again: blank lines on top are
  dropped, which can turn what follows into front matter, and nothing else can
  (`SplitAgain`).
- The clock check admits timestamps within five minutes of the clock, and besides them
  those at least 2^63 ns ahead: Go's time difference saturates, and negating the least
  duration leaves it negative (`SkewCheckAdmits`, `FarFutureStaysValid`).
- The limit on preview ranges is documented as end - start <= 500; the code refuses
  end - start + 1 > 500 (`Preview.Resolve`).
- A preview normalises "\r\n", but a file whose only "\r\n" is its last line end is still
  shown unchanged (`FullPreviewIsFileIff`).

## Model

| member | source | states |
|---|---|---|
| EditDistance.Levenshtein | apps/cli/internal/db/dupcheck.go:13-45 | The in-place single-row program, with its swap to the shorter string, returns the recursive edit distance for all inputs |
| EditDistance.AdvanceRow | apps/cli/internal/db/dupcheck.go:31-43 | One pass of the inner loop takes the row from the distances to the first i - 1 runes to those to the first i |
| EditDistance.DistanceIsLeastCost | apps/cli/internal/db/dupcheck.go:10-45 | The distance is attained by some script of insertions, deletions and substitutions, and no script is cheaper |
| EditDistance.DropLast | apps/cli/internal/db/dupcheck.go:36-40 | Dropping a last rune changes the distance by at most one, which is why equal runes may be kept for free |
| EditDistance.Symmetric | apps/cli/internal/db/dupcheck.go:17-20 | The distance is symmetric, which is what makes the swap sound |
| EditDistance.Triangle | apps/cli/internal/db/dupcheck.go:10-45 | Going through a third string is never shorter |
| EditDistance.Bounds | apps/cli/internal/db/dupcheck.go:53-64 | The distance lies between the difference of the lengths and the longer length |
| EditDistance.ZeroIffEqual | apps/cli/internal/db/dupcheck.go:47-52 | The distance is zero exactly on equal strings |
| EditDistance.ComposeTurns | apps/cli/internal/db/dupcheck.go:10-45 | Two scripts that meet in the middle compose into one that costs no more than both |
| EditDistance.TitleSimilarity | apps/cli/internal/db/dupcheck.go:53-65 | The similarity is in [0, 1], is 1 exactly for equal titles, and is 1 minus distance over the longer length |
| EditDistance.Min3 | apps/cli/internal/db/dupcheck.go:67-79 | The least of the three, and one of them |
| EditGraph.SnakeIsRun | apps/cli/internal/history/differ.go:328-332 | A snake consists of equal blocks, stays inside both lists, and cannot be continued |
| EditGraph.StoredIsReached | apps/cli/internal/history/differ.go:318-339 | Every x the search stores belongs to a point some path with exactly d edits reaches, on or off the grid |
| EditGraph.StoredIsFurthest | apps/cli/internal/history/differ.go:306-307 | No path with d edits gets further on its diagonal, on or off the grid, and its diagonal is one the step visits |
| EditGraph.Clip | apps/cli/internal/history/differ.go:309-339 | A path that ends outside the grid has paid one edit for each step outside it |
| EditGraph.StopIsExact | apps/cli/internal/history/differ.go:334-338 | The stopping test cannot succeed before the edit length, and succeeds there at exactly (n, m), never past it |
| EditGraph.SearchStops | apps/cli/internal/history/differ.go:318-347 | The stopping test succeeds at a step if and only if it is step n + m - 2 LCS |
| EditGraph.EditLengthIsLeast | apps/cli/internal/history/differ.go:290-347 | n + m - 2 LCS is the least number of edits with which the far corner is reached at all |
| EditGraph.LcsIsLongest | apps/cli/internal/history/differ.go:273-289 | The recursive LCS length is attained by a common subsequence, and no common subsequence is longer |
| EditGraph.NoShorterScript | apps/cli/internal/history/differ.go:278-281 | No sequence of keeping, dropping and inserting blocks turns old into new with fewer edits |
| Myers.ExtendSnake | apps/cli/internal/history/differ.go:328-332 | The loop runs to the end of the maximal run of equal blocks |
| Myers.Advance | apps/cli/internal/history/differ.go:320-332 | From the neighbouring diagonals of the step before, the next furthest point; all array indices are in range |
| Myers.SearchStep | apps/cli/internal/history/differ.go:319-339 | Overwriting the array in place destroys no value still needed, and the step reports exactly whether some diagonal arrives |
| Myers.ForwardPass | apps/cli/internal/history/differ.go:305-347 | The search always ends, at d = n + m - 2 LCS, and its snapshots hold the furthest points of every step before |
| Myers.StepBack | apps/cli/internal/history/differ.go:356-383 | The back-trace picks the edit and the point that the search came from |
| Myers.BackTrace | apps/cli/internal/history/differ.go:349-384 | Reading the snapshots backwards records the script's edits, last first |
| Myers.ReverseInPlace | apps/cli/internal/history/differ.go:386-390 | Reverses the recorded edits in place |
| Myers.ComesFromGrid | apps/cli/internal/history/differ.go:369-380 | A point of the grid is entered from a point of the grid, so every recorded index is in range |
| Myers.ReplayedIsInOrder | apps/cli/internal/history/differ.go:266-271 | A script that can be replayed names old and new indices in range and strictly increasing |
| Myers.ScriptPatches | apps/cli/internal/history/differ.go:349-390 | Replaying the back-traced edits on the old blocks gives the new ones |
| Myers.ScriptIsShortest | apps/cli/internal/history/differ.go:290-390 | The script turns old into new, is in order, has n + m - 2 LCS edits, and no script of any kind has fewer |
| Changes.OpsToChanges | apps/cli/internal/history/differ.go:430-492 | The folding loop computes the recursive account of the script that the lemmas below are about |
| Changes.EditsContribute | apps/cli/internal/history/differ.go:430-492 | What the folding loop reports is what each edit contributes, read off that edit and its neighbours: a delete and the insert right after it are one modification exactly if the blocks have the same kind and section and are no headings |
| Changes.DiffIsContributions | apps/cli/internal/history/differ.go:392-492 | So the diff of two block lists is what the edits of its script contribute, in order |
| Changes.PairIsModificationIff | apps/cli/internal/history/differ.go:434-472 | Of a delete of one block directly followed by an insert of another the diff says, after the deletes before it, Modified with both texts exactly if kind and section agree and it is no heading; otherwise Moved if the text is still there, and Removed if not |
| Changes.DeletesAreAccounted | apps/cli/internal/history/differ.go:434-472 | Every delete yields exactly one change that is not an addition, in script order |
| Changes.InsertsAreAccounted | apps/cli/internal/history/differ.go:473-489 | No insert is presented twice, every insert of a text the old document lacks is presented, and in script order |
| Changes.LabelsAreTruthful | apps/cli/internal/history/differ.go:437-488 | Moved and modified texts occur in both documents as the label says, added ones only in the new, removed ones only in the old, in blocks of the kind and section the change names |
| Changes.EmptyDiff | apps/cli/internal/history/differ.go:475-479 | The diff is empty if and only if old is a subsequence of new and new has no text that old lacks |
| BlockDiff.InsertsOnly | apps/cli/internal/history/differ.go:396-409 | Adds every block in order |
| BlockDiff.DeletesOnly | apps/cli/internal/history/differ.go:412-425 | Removes every block in order |
| BlockDiff.FastPathsAgree | apps/cli/internal/history/differ.go:294-303 | The fast paths for an empty side give what the general path would give |
| BlockDiff.MyersDiff | apps/cli/internal/history/differ.go:290-393 | Search, back-trace and folding together compute the diff of the two block lists |
| BlockDiff.DiffDocs | apps/cli/internal/history/differ.go:81-85 | The diff of two documents is the diff of what they split into |
| BlockDiff.LayoutIsIgnored | apps/cli/internal/history/differ.go:76-85 | A document differs neither from itself nor, unless dropping blank lines on top gives it front matter, from its blocks printed with single blank lines |
| BlockDiff.DiffAccounts | apps/cli/internal/history/differ.go:392-492 | Exactly the old blocks outside the longest common subsequence are reported, once each; inserted texts are presented as described and in order; labels are true |
| BlockDiff.RowsAreUnique | apps/cli/internal/history/differ.go:318-347 | What the search stores is determined by the two lists, so the back-trace yields one script |
| BlockDiff.FoldedTextsDiffer | apps/cli/internal/history/differ.go:436-451 | A delete directly followed by an insert, with no matched block in between, never folds a text into itself |
| BlockDiff.SameTextIffRotated | apps/cli/internal/history/differ.go:349-384 | The blocks between a delete and the insert right after it are matched, and the two edits concern the same text if and only if the stretch they enclose is the old one rotated by one |
| BlockDiff.ModifiedIntoItselfIff | apps/cli/internal/history/differ.go:436-451 | Some change is modified into itself if and only if somewhere the script rotates a stretch by one block that keeps its kind and section and is no heading |
| BlockDiff.SwapIsModifiedIntoItself | apps/cli/internal/history/differ.go:436-451 | Swapping two blocks of one section is reported as the first modified into itself |
| Replacement.ScriptOfReplacement | apps/cli/internal/history/differ.go:318-390 | When one text is replaced in place the script is the delete and then the insert, or, exactly if the old text also comes next, the insert and then the delete; and at which indices |
| Replacement.DiffOfReplacement | apps/cli/internal/history/differ.go:290-492 | What the diff says of any replacement of one block by another in place, wherever their texts recur |
| Replacement.ReplacementIsModificationIff | apps/cli/internal/history/differ.go:290-492 | That is the one modification of the old block into the new if and only if the texts differ, the next block does not have the old text, and the old block is no heading and has the kind and section of the new one, or of the last block of the run if the new text also comes next |
| Replacement.FreshReplacement | apps/cli/internal/history/differ.go:290-492 | So when neither text comes next, kind and section decide |
| Reordering.CommonIsLongestIff | apps/cli/internal/history/differ.go:273-289 | The old texts that occur in the new document are a longest common subsequence if and only if they come in the same order there |
| Reordering.ScriptDeletes | apps/cli/internal/history/differ.go:349-390 | The script deletes every old text that the new document lacks, and as many texts as the longest common subsequence leaves out |
| Reordering.NothingKeptIsReportedIff | apps/cli/internal/history/differ.go:434-472 | No change but an addition speaks of a text that the new document still has if and only if the texts that stay come in the same order in both |
| Reordering.ReportsReordering | apps/cli/internal/history/differ.go:436-461 | If they do, nothing is moved or modified into itself; if they do not, some text that stays is reported as moved or modified |
| Splitter.SplitBlocks | apps/cli/internal/history/differ.go:96-221 | The one-pass splitter computes the recursive splitting that the lemmas below are about |
| Splitter.SplitBody | apps/cli/internal/history/differ.go:121-218 | The body loop, from any line on |
| Splitter.ScanTo | apps/cli/internal/history/differ.go:149-152 | The inner loops find the first line that ends the block |
| Splitter.KeptLines | apps/cli/internal/history/differ.go:132-217 | A block's text has as many lines as the block takes up, untouched but for the outer ends |
| Splitter.BodyKeepsLines | apps/cli/internal/history/differ.go:121-218 | Every non-blank line of the body is in exactly one block, in order |
| Splitter.SplitKeepsLines | apps/cli/internal/history/differ.go:96-221 | The same for whole documents, front matter included |
| Splitter.SectionsFollowHeadings | apps/cli/internal/history/differ.go:132-143 | A body block's section is the text of the last heading at or before it |
| Splitter.SectionsOfDocument | apps/cli/internal/history/differ.go:99-143 | The same for whole documents; front matter can only come first |
| Splitter.BlockAgain | apps/cli/internal/history/differ.go:121-218 | A block's own lines, followed by a blank line or the end, split into that block again |
| Splitter.SplitAgain | apps/cli/internal/history/differ.go:96-221 | Printing a document's blocks and splitting again gives the same blocks if and only if no blank lines on top come before what would otherwise be front matter |
| BlockShapes.HeadingIff | apps/cli/internal/history/differ.go:223-245 | A line is a heading of a level with a rest if and only if it is one to six hash signs and then nothing, or a space and the rest |
| BlockShapes.ListMarkerIff | apps/cli/internal/history/differ.go:247-262 | A line is a list item if and only if it starts with a dash, star or plus, or digits and a period, and then a space |
| BlockShapes.FenceIff | apps/cli/internal/history/differ.go:146-146 | A line opens a fence if and only if it starts with three backticks or three tildes |
| BlockShapes.BlocksReadAs | apps/cli/internal/history/differ.go:121-218 | Every body block's kind, level, heading text and fence language can be read off its own first line, and none of its later lines ends it |
| BlockShapes.BlocksHoldTheirLines | apps/cli/internal/history/differ.go:99-218 | Of every block of a document: a heading is one line; no line of a fence between its first and last closes it; the lines of a list after its first are markers or indented, and not blank; no line of a paragraph is blank, a heading, a fence or a marker; front matter lies between two rules and holds none |
| BlockShapes.FrontMatterIff | apps/cli/internal/history/differ.go:104-119 | A document starts with front matter if and only if its first line is a rule and a later one is too |
| BlockShapes.BlocksAreMaximal | apps/cli/internal/history/differ.go:121-218 | Every body block is a run of the document's lines that ends at the end of the document, after its closing fence, or before a line that cannot be part of it |
| Lines.JoinSplit | apps/cli/internal/history/differ.go:97-97 | Joining the lines of a text gives the text back |
| Lines.SplitJoin | apps/cli/internal/history/differ.go:111-111 | Splitting joined lines gives the lines back |
| Lines.TrimSpace | apps/cli/internal/history/differ.go:124-124 | The loop strips exactly the surrounding white space |
| Lines.TrimIs | apps/cli/internal/history/differ.go:124-124 | What is taken off is white space in the sense of Unicode, and what is left neither starts nor ends with any |
| RefCounts.GraphStore.RefreshOutgoingCount | apps/cli/internal/docgraph/store.go:364-384 | Sets a document's outgoing count to its edges and keeps its backlink count |
| RefCounts.GraphStore.RefreshInboundCount | apps/cli/internal/docgraph/store.go:386-411 | Sets a target's backlink count to its inbound edges and keeps its outgoing count; the empty target has no row |
| RefCounts.GraphStore.Recount | apps/cli/internal/docgraph/store.go:127-135 | Refreshing the affected targets in any order has one outcome |
| RefCounts.GraphStore.SaveRefs | apps/cli/internal/docgraph/store.go:63-138 | Replaces a document's edges by exactly the references given, leaves all others, and recounts; fails without a trace for an unknown document or when the engine fails |
| RefCounts.GraphStore.DeleteRefs | apps/cli/internal/docgraph/store.go:204-227 | Removes a document's edges, leaves all others, and recounts |
| RefCounts.GraphStore.DeleteDoc | apps/cli/internal/db/store.go:228-236 | Deletes the row and, by the cascade, exactly the document's edges, and leaves the counts alone |
| RefCounts.SaveReplaces | apps/cli/internal/docgraph/store.go:80-108 | After a save the document's references are exactly those given, in order and with every field, and the rows of all other documents are what they were |
| RefCounts.CountsAreNumbersOfRows | apps/cli/internal/docgraph/store.go:364-411 | The counts compared with are the number of the document's rows, and the number of rows that point at it by a link that is not a source-code cross-link |
| RefCounts.SaveKeepsCounts | apps/cli/internal/docgraph/store.go:53-58 | Rewriting keeps every count exact: self-links, repeats, unchanged and absent targets included |
| RefCounts.ClearKeepsCounts | apps/cli/internal/docgraph/store.go:200-203 | So does clearing |
| RefCounts.CountIsExactIff | apps/cli/internal/docgraph/store.go:53-58 | After any sequence of SaveRefs, DeleteRefs and deletions of documents, each count of an id equals its edges, a missing row meaning zero, if and only if no deletion has left that count behind since it was last refreshed |
| RefCounts.CountsNeverDrift | apps/cli/internal/docgraph/store.go:53-58 | After any such sequence all counts are exact if and only if no count is left behind; in particular when only documents without outgoing references were deleted |
| RefCounts.CountsNeverTooLow | apps/cli/internal/db/store.go:228-236 | With deletions of any documents in between, no count is ever below the edges |
| RefCounts.CascadeKeepsCountsIff | apps/cli/internal/db/migrations/005_doc_graph.sql:8-29 | After a document is deleted the counts are exact if and only if it had no outgoing reference |
| RefCounts.ClearingAfterDeletionIsTooLate | apps/cli/internal/docgraph/store.go:200-203 | Clearing after the deletion leaves the counts exact if and only if there was no counted target |
| RefCounts.ClearingBeforeDeletionIsSafe | apps/cli/internal/docgraph/store.go:200-203 | Clearing before the deletion keeps the counts exact |
| Like.EscapeOne | apps/cli/internal/docgraph/store.go:416-422 | The three replacement passes over one character act as one escape |
| Like.EscapeSum | apps/cli/internal/docgraph/store.go:416-422 | So escaping works character by character on any string |
| Like.EscapedPrefixIsLiteral | apps/cli/internal/docgraph/store.go:241-251 | The pattern built from a prefix matches a string if and only if the string starts with the prefix, up to the engine's character equality |
| Like.UnescapedIsLiteralIff | apps/cli/internal/docgraph/store.go:239-242 | Without escaping that holds if and only if the prefix contains no metacharacter |
| GraphQuery.LoadProjectDocs | apps/cli/internal/docgraph/graph_query.go:197-236 | One node per document, shared by the id map and, for the first of each base name, the slug map |
| GraphQuery.LinkEdges | apps/cli/internal/docgraph/graph_query.go:98-119 | One edge per reference in row order, the set of missing targets, and degrees that count the edges at both ends |
| GraphQuery.CountEdge | apps/cli/internal/docgraph/graph_query.go:113-118 | Incrementing through shared nodes adds the edge to the right two counts and to no other |
| GraphQuery.Materialise | apps/cli/internal/docgraph/graph_query.go:121-136 | The list holds every known and every missing node exactly once, in whatever order |
| GraphQuery.Sort | apps/cli/internal/docgraph/graph_query.go:142-152 | A permutation in which no node comes after one that it outranks |
| GraphQuery.FilterEdges | apps/cli/internal/docgraph/graph_query.go:163-172 | Filtering into the front of the slice being read keeps exactly the edges with both ends retained |
| GraphQuery.GetGraphForProject | apps/cli/internal/docgraph/graph_query.go:69-181 | The graph is a ranking of all nodes cut at the cap, the edges between what is left, and totals from before the cut; it is refused for an empty project and when a query fails |
| GraphQuery.ResolvesToFirstKnown | apps/cli/internal/docgraph/graph_query.go:263-311 | A reference resolves to the first of its candidates that is a document, path before slug, and is broken if and only if none is |
| GraphQuery.BrokenMeansUnknown | apps/cli/internal/docgraph/graph_query.go:270-311 | A resolved target is a document; a made-up id is one only for a document id that is not a path |
| GraphQuery.MadeUpIdsAreUnknown | apps/cli/internal/docgraph/graph_query.go:301-311 | With path-like document ids no missing node takes a document's id |
| GraphQuery.NodesAreDistinct | apps/cli/internal/docgraph/graph_query.go:121-136 | Each node occurs once and no two share an id |
| GraphQuery.EmittedIdsAreDistinct | apps/cli/internal/docgraph/graph_query.go:121-157 | No two emitted nodes share an id |
| GraphQuery.RankingIsTransitive | apps/cli/internal/docgraph/graph_query.go:142-152 | The comparison is a weak order, as sort.Slice demands |
| GraphQuery.RankingIsTotal | apps/cli/internal/docgraph/graph_query.go:138-152 | It leaves no ties between different ids |
| GraphQuery.GraphIsDetermined | apps/cli/internal/docgraph/graph_query.go:121-152 | The order of map iteration and the treatment of ties cannot be seen in the result |
| GraphQuery.CapKeepsTheBest | apps/cli/internal/docgraph/graph_query.go:153-157 | Every retained node strictly outranks every dropped one: no fewer links, and with as many no older; and nodes are dropped only when the cap is full |
| GraphQuery.KeptIsExact | apps/cli/internal/docgraph/graph_query.go:158-172 | The kept edges are those with both ends retained, in the original order |
| GraphQuery.DegreesAddUp | apps/cli/internal/docgraph/graph_query.go:113-118 | The documents' out-degrees add up to the edges that leave a document, their in-degrees to the edges that reach one |
| GraphQuery.RowOrderIsIrrelevant | apps/cli/internal/docgraph/graph_query.go:223-229 | When no two documents share a base name, resolution does not depend on the order of the rows |
| GraphFacts.EdgesTellReferences | apps/cli/internal/docgraph/graph_query.go:99-112 | One edge per reference, in order: its source, its kind as it goes over the wire, a document as target, or for a broken one the path it would have if it looks like one, and else its text |
| GraphFacts.SlugsAreFirst | apps/cli/internal/docgraph/graph_query.go:223-229 | A base name stands for the first document that has it |
| GraphFacts.NodesTell | apps/cli/internal/docgraph/graph_query.go:108-136 | Every node has a document's id, fields and slug and as degrees the numbers of edges into and from it, before any edge is dropped; or it is made up for the target of a broken edge, with no degrees |
| GraphFacts.EmittedNodesTell | apps/cli/internal/docgraph/graph_query.go:108-157 | In an emitted graph the id settles which |
| GraphFacts.TotalsAreCounts | apps/cli/internal/docgraph/graph_query.go:138-157 | The totals are one node per document and per broken target and one edge per reference; nodes are dropped, and the graph says so, exactly if there are more than the cap |
| GraphFacts.EmittedEdgesTell | apps/cli/internal/docgraph/graph_query.go:158-172 | Exactly the edges with an emitted node at both ends are emitted, in order |
| GraphFacts.NodesAreInOrder | apps/cli/internal/docgraph/graph_query.go:142-152 | Emitted nodes come by number of links, most first, then by time, latest first, then by id |
| GraphFacts.LessIff | apps/cli/internal/docgraph/graph_query.go:148-151 | The comparison of times and ids is dictionary order |
| WriterFunnel.Serializable | apps/cli/internal/db/writer.go:45-82 | In every interleaving the database is the committed functions applied one at a time, in the order in which their jobs entered the queue |
| WriterFunnel.AtMostOnce | apps/cli/internal/db/writer.go:45-64 | No job runs twice or is answered twice, and answers come in queue order |
| WriterFunnel.ResultsAreTrue | apps/cli/internal/db/writer.go:84-101 | nil means committed, an error not committed, "shutting down" and "closed" never run |
| WriterFunnel.RefusalsAreTrue | apps/cli/internal/db/writer.go:84-94 | "closed" and "shutting down" are said only once close has begun; the queue never holds more than 128 jobs |
| WriterFunnel.SubmitIff | apps/cli/internal/db/writer.go:86-94 | A call of submit can be enqueued if and only if the queue has room, told "closed" if and only if close has begun, and "cancelled" if and only if its context is |
| WriterFunnel.WaitIff | apps/cli/internal/db/writer.go:95-100 | A waiting call can be told exactly the answer that was sent, and "cancelled" if and only if its context is |
| WriterFunnel.WriterMovesIff | apps/cli/internal/db/writer.go:45-64 | The writer can always take a step unless it has exited, or waits with an empty queue and before close |
| WriterFunnel.NothingRunsAfterClose | apps/cli/internal/db/writer.go:103-111 | Once close has returned nothing runs, commits or is answered |
| WriterFunnel.AnsweredIffBeforeExit | apps/cli/internal/db/writer.go:49-59 | Once the writer has exited, an enqueued job is answered, and a submitter still waiting can receive, if and only if the job was enqueued before the last step of the drain; the submitter of any other leaves only by its own cancellation |
| WriterFunnel.StrandedJobIsNeverAnswered | apps/cli/internal/db/writer.go:49-59 | In particular a job still queued when the writer has exited is never answered |
| WriterFunnel.JobCanBeStranded | apps/cli/internal/db/writer.go:49-59 | Such a run exists |
| WriterFunnel.CancelledInTimeNeverRuns | apps/cli/internal/db/writer.go:66-73 | A job whose context is cancelled before its transaction begins never runs |
| WriterFunnel.CancelledInTimeNeverCommits | apps/cli/internal/db/writer.go:66-82 | A job whose context is cancelled before its commit begins is never committed |
| WriterFunnel.CancelledYetCommittedIff | apps/cli/internal/db/writer.go:66-100 | A cancellation can end with the submitter told so and the job committed if and only if it comes after the context test with which the commit begins; at each of those moments there is such a run |
| WriterFunnel.CancelledCanBeCommitted | apps/cli/internal/db/writer.go:95-100 | Such a moment is reached from the start |
| IndexerMachine.WaitGroupCountsLiveWork | apps/cli/internal/indexer/indexer.go:287-298 | The counter is armed timers plus unfinished callbacks less late resets, hence exact if and only if there was none |
| IndexerMachine.TimersMatchPending | apps/cli/internal/indexer/indexer.go:274-324 | Whenever the mutex is free, timers and pending operations have the same paths |
| IndexerMachine.FiringsCarryTheGist | apps/cli/internal/indexer/indexer.go:278-285 | Each firing carries the first remove or rename since the path's last firing, or else the latest event |
| IndexerMachine.WritesFollowEvents | apps/cli/internal/indexer/indexer.go:327-345 | The index is written only for events on the path, and deleted from exactly when one of them was a remove or rename |
| IndexerMachine.NoEventIsLost | apps/cli/internal/indexer/indexer.go:268-324 | Until the stop signal, every path with a pending operation has an armed timer or a callback that has yet to take the operation |
| IndexerMachine.NoneStartsAfterStop | apps/cli/internal/indexer/indexer.go:301-309 | A callback that has not passed its check of the stop signal when the signal comes takes no operation and writes nothing |
| IndexerMachine.NoneTakesWhileDraining | apps/cli/internal/indexer/indexer.go:180-190 | While the timers are drained the stop signal is set and no operation is taken |
| IndexerMachine.NothingIsStuck | apps/cli/internal/indexer/indexer.go:170-200 | In every reachable state armed timers can fire and callbacks can go on, unless one waits for the mutex while the loop drains; the loop takes every event until it leaves, can leave and drain, and is done as soon as the counter is zero |
| IndexerMachine.NothingLeftIff | apps/cli/internal/indexer/indexer.go:161-197 | When the loop is done, which is when Stop returns, no armed timer and no callback is left if and only if no timer was reset after firing |
| IndexerMachine.WritesAfterDoneIff | apps/cli/internal/indexer/indexer.go:161-197 | Once the loop is done, a write can still start if and only if some callback has taken an operation that it has yet to carry out |
| IndexerMachine.NoWriteAfterDone | apps/cli/internal/indexer/indexer.go:161-197 | If none has, no write starts later in the run; without a late reset there is no callback at all |
| IndexerMachine.LateResetWritesAfterDone | apps/cli/internal/indexer/indexer.go:287-324 | A reset of a timer that has fired can let the loop be done while a callback is at work, which then writes, with the counter never below zero up to then |
| IndexerMachine.LateResetUnderflows | apps/cli/internal/indexer/indexer.go:287-290 | A reset of a timer that has fired can drive the counter below zero |
| ReplayWindow.SkewCheckAdmits | apps/cli/internal/agentauth/hmac.go:63-79 | The check admits a timestamp if and only if it is within five minutes of the clock or at least 2^63 ns ahead |
| ReplayWindow.NonceCache.CheckAndRecord | apps/cli/internal/agentauth/nonce.go:73-94 | Lets a tuple through exactly if it is absent or expired, and records it then and only then |
| ReplayWindow.RememberedSince | apps/cli/internal/agentauth/nonce.go:41-45 | A recorded tuple stays in the cache behind exactly the other tuples recorded since, as long as there is room |
| ReplayWindow.WindowIsExact | apps/cli/internal/agentauth/nonce.go:66-94 | A repeat is let through if and only if ten thousand other tuples came in between or ten minutes have passed |
| ReplayWindow.RecordingsAreApart | apps/cli/internal/agentauth/nonce.go:17-20 | With a clock that does not run backwards and fewer tuples in between, two acceptances are at least ten minutes apart |
| ReplayWindow.Gate.Handle | apps/cli/internal/agentauth/middleware.go:82-197 | A request is served if and only if its key is known and not revoked, its timestamp is on time, its body is readable, its secret is found, it is signed, the limiter allows it, its nonce is new or expired, and it is in scope; which outcome every other gets; the limiter is asked and the nonce recorded only after the checks before them have passed |
| ReplayWindow.SecondPassIsOnTheEdge | apps/cli/internal/agentauth/middleware.go:101-179 | A signed request gets past clock check and cache twice only on the very edge: on one clock reading, exactly ten minutes apart |
| ReplayWindow.FarFutureStaysValid | apps/cli/internal/agentauth/hmac.go:71-77 | A timestamp centuries ahead passes the check now and an hour later |
| Rollup.Aggregator.IncrementDailyEvent | apps/cli/internal/db/globaldb.go:514-533 | Adds to one day's count, refuses an empty date or kind, and may fail before or after the commit |
| Rollup.Aggregator.CountTail | apps/cli/internal/analytics/aggregator.go:160-186 | The single pass counts the events after the cursor by day and kind, and finds the last id |
| Rollup.BetweenCounts | apps/cli/internal/analytics/aggregator.go:160-186 | The counts that the statements below compare are numbers of events with that date and kind in a range of ids |
| Rollup.Aggregator.TailAndRollup | apps/cli/internal/analytics/aggregator.go:147-206 | Which counts are added and when the cursor moves, as a step of the machine the lemmas below are about |
| Rollup.CycleAdds | apps/cli/internal/analytics/aggregator.go:195-205 | A cycle that succeeds adds each key's tail and passes exactly that many events |
| Rollup.NeverUndercounts | apps/cli/internal/analytics/aggregator.go:17-20 | However cycles fail or the aggregator restarts, no count is below the events the cursor has passed |
| Rollup.ExactStepIff | apps/cli/internal/analytics/aggregator.go:147-206 | An act keeps exact counts exact if and only if it is harmless: a new event, a successful cycle, a failing cycle that got nothing into the table, or a restart before the cursor has passed an event; and nothing makes counts exact again |
| Rollup.ExactIffHarmless | apps/cli/internal/analytics/aggregator.go:5-10 | At the end of a run every count is exactly the events passed if and only if that was so at its start and every act was harmless where it happened |
| Rollup.ExactWithoutFailures | apps/cli/internal/analytics/aggregator.go:5-7 | In particular with no failure and no restart |
| Rollup.RestartCountsAgain | apps/cli/internal/analytics/aggregator.go:8-10 | Whenever the restart comes, the next successful cycle counts the events passed before it once more; a count stays exact exactly if its key had none |
| Rollup.CycleCanSucceedIff | apps/cli/internal/analytics/aggregator.go:195-205 | Some run ends with a cycle that succeeds if and only if every event after the cursor has a date and a kind: otherwise no cycle ever succeeds again, whatever happens in between |
| Rollup.UnacceptableEventBlocksCursor | apps/cli/internal/db/globaldb.go:521-524 | An event without a date or kind makes every later cycle fail |
| Rollup.FailingCyclesInflate | apps/cli/internal/analytics/aggregator.go:195-201 | Each failing cycle adds the counts it got through once more |
| TaskOrder.TaskStore.ListTasks | apps/cli/internal/db/tasks.go:31-58 | The project's tasks, each once, by position |
| TaskOrder.TaskStore.NextTaskPosition | apps/cli/internal/db/tasks.go:80-92 | One more than the greatest position, or 1 |
| TaskOrder.TaskStore.Create | apps/cli/internal/api/tasks.go:67-120 | Which requests are refused, and the step that the others take |
| TaskOrder.TaskStore.LeavesGaps | apps/cli/internal/api/tasks.go:229-237 | The least adjacent gap decides whether any two tasks are too close |
| TaskOrder.TaskStore.RenumberTasks | apps/cli/internal/db/tasks.go:186-204 | Moves the listed tasks to 1, 2, 3, ... and touches nothing else |
| TaskOrder.TaskStore.Update | apps/cli/internal/api/tasks.go:129-191 | Which requests are refused or find nothing, the step that the others take, and that the renumbered list is returned exactly if the move brings two tasks too close |
| TaskOrder.TaskStore.Delete | apps/cli/internal/db/tasks.go:161-180 | Removes the task of that project and id, or finds none |
| TaskOrder.RenumberingKeepsOrder | apps/cli/internal/db/tasks.go:182-185 | Renumbering spaces the tasks out, keeps their order, and changes only positions |
| TaskOrder.ListedAgain | apps/cli/internal/api/tasks.go:239-243 | A renumbered project lists in the order that is returned |
| TaskOrder.OthersUntouched | apps/cli/internal/db/tasks.go:139-142 | A request for one project leaves the tasks of the others alone |
| TaskOrder.MoveRestoresSpacing | apps/cli/internal/api/tasks.go:124-128 | After a move any two tasks of the project are at least 0.001 apart, whatever held before |
| TaskOrder.AlwaysSpaced | apps/cli/internal/api/tasks.go:219-245 | In every state that requests lead to, any two tasks of a project are at least 0.001 apart |
| TaskOrder.NewTaskIsLast | apps/cli/internal/db/tasks.go:78-92 | A new task is last in every listing, at least 1 after the others |
| TaskOrder.NewTaskIsAsAsked | apps/cli/internal/api/tasks.go:67-120 | A new task has the fields it was asked for, at 1, or 1 after the last task |
| TaskOrder.MoveLandsWhereDropped | apps/cli/internal/api/tasks.go:165-188 | A moved task ends up on the right side of every other task, renumbered or not, and the others keep their order |
| TaskOrder.MoveReorders | apps/cli/internal/api/tasks.go:122-188 | The listing after a move is the one before with the task taken out and put in where it was dropped |
| TaskOrder.UpdateChangesFields | apps/cli/internal/db/tasks.go:94-159 | An update changes the fields it names and no others |
| TaskOrder.MoveRenumbersIff | apps/cli/internal/api/tasks.go:165-191 | A moved task is where it was dropped and the others are where they were, unless two of them would be less than 0.001 apart: exactly then the project is numbered 1, 2, 3, ... in its order |
| TaskOrder.ListingIsUnique | apps/cli/internal/db/tasks.go:31-38 | Between requests there is only one listing, although the query leaves ties open |
| Preview.ParseAnchor | apps/cli/internal/codepreview/resolver.go:316-354 | A parsed anchor is absent or a range 1 <= start <= end of 64-bit integers |
| Preview.AnchorRoundTrip | apps/cli/internal/codepreview/resolver.go:309-315 | Anchors in their written forms are read back |
| Preview.AnchorIff | apps/cli/internal/codepreview/resolver.go:316-354 | A fragment is accepted if and only if it is L and a number, or L, a number, "-L" and a number not smaller; a number is decimal, may have a plus sign, and is positive and below 2^63 |
| Preview.UnifyChangesIff | apps/cli/internal/codepreview/resolver.go:475-476 | Normalising line ends changes a text if and only if it has a "\r\n", and then shortens it |
| Preview.UnifyLines | apps/cli/internal/codepreview/resolver.go:475-476 | Normalising takes one carriage return off the end of every line but the last |
| Preview.FileLinesAre | apps/cli/internal/codepreview/resolver.go:464-483 | The lines of a file are those between its newlines without the carriage returns before them; a final newline begins no line |
| Preview.SplitFile | apps/cli/internal/codepreview/resolver.go:464-483 | The lines of a file, its final newline not counting as a line |
| Preview.Resolve | apps/cli/internal/codepreview/resolver.go:218-305 | Which error each file and anchor gives, and which lines a preview holds |
| Preview.FullPreviewIsFileIff | apps/cli/internal/codepreview/resolver.go:268-295 | An untruncated full preview is the file byte for byte if and only if no "\r\n" precedes its final newline |
| Preview.RangeHasItsLines | apps/cli/internal/codepreview/resolver.go:287-289 | A range comes back as exactly its end - start + 1 lines |
| Preview.RangesRebuild | apps/cli/internal/codepreview/resolver.go:287-289 | Adjacent ranges joined by newlines give the range they cover |
| Preview.WholeFileFromRanges | apps/cli/internal/codepreview/resolver.go:287-295 | Any partition of a file into ranges gives back the full preview, but for the final newline |

## Left out

- EditDistance.TitleSimilarity: quotients are real numbers; the rounding of Go's floating-point division is not modelled.
- TaskOrder.AlwaysSpaced: positions are real numbers, so neither rounding nor positions too large for their gap to be represented are modelled; requests follow one another, since creating a task reads and inserts in two steps; and a failing database, after which a task stays where it was dropped, is not part of a run.
- TaskOrder.TaskStore.Update: the response body and the checks of the URL's project name and task id.
- GraphQuery.LoadProjectDocs: the rows are taken as the queries return them; which references the prefix query selects is `Like`.
- GraphQuery.BrokenMeansUnknown: path cleaning and joining, base names, trimming and slugs are arbitrary functions, so nothing is said about which file a link ends up at. The extractor has already resolved Markdown links, and they are joined with the source directory again.
- GraphQuery.Sort: stands for the library's sort; only what it guarantees is used.
- WriterFunnel.ResultsAreTrue: a commit that reports an error is taken to have left no trace. Beginning a transaction, running a function in it and committing it may each fail at any moment. As Go's database/sql documents, a transaction neither begins nor starts to commit under a cancelled context; its inside is not modelled further, so a cancelled transaction that the package rolls back early shows only as a failure.
- WriterFunnel.NothingRunsAfterClose: safety only; that a submitter is answered at all is not claimed, and is false.
- IndexerMachine.NoWriteAfterDone: real time and the order of the operating system's events are left out: an armed timer may fire at any moment. Pausing between events, the watcher's own goroutine and a Stop before Start are not part of the machine.
- ReplayWindow.Gate.Handle: signatures, hashes and the key store's answers are parameters; the inside of the rate limiter is not modelled.
- ReplayWindow.RecordingsAreApart: concerns one process; the cache is empty after a restart. The cache reads its clock before it takes the mutex (nonce.go, lines 75-77), so concurrent requests can be recorded in another order than their readings even on a clock that never runs back; such runs are not covered.
- Rollup.ExactWithoutFailures: the analytics cache and the summary queries are left out; how a timestamp is cut down to a date is a parameter.
- RefCounts.CountsNeverDrift: the time columns, and reading edges back, are left out; the database is two tables and a transaction an update that may fail.
- Preview.Resolve: URL parsing, path checks, symbolic links, the secret-file list, the languages, and reading in chunks; the file's bytes are given.
- Splitter.SplitBlocks: a document is a sequence of code points, so invalid UTF-8 is not modelled.
- Summaries and labels of changes, HTTP handlers and routing, commands, the editor, providers, daemon installation, file-system boundaries and git calls: plumbing, or easy members only.
- The link extractor's line numbers: its two passes count from different bases.
