# Proofs about Git's core algorithms

A Dafny model of the algorithms in the `git/` directory that are hard to get right, with proofs of what
they promise. Each module follows one part of the C sources, in its own imperative form: commits are
objects with flag bits, cache trees are nodes owned by their parents, lists are doubly linked, tables are
arrays changed in place. Methods are proved against specifications; lemmas prove what the specifications
promise. `dafny verify dfyconfig.toml` checks everything.

## The commit graph

`CommitGraph` has the commit objects and reachability. `CommitMarks` clears flag bits, `Painting` is the
walk that paints two sides down to their common ancestors, `MergeBases`, `Redundancy` and `Heads`
build merge bases, ancestry tests and head reduction on it. The walk stops as soon as only STALE commits
are queued, so it does not see the whole graph, and its order depends on commit dates that may be wrong.
The results are exact all the same. To show it for all dates at once, the walk here takes any commit off
the queue. One invariant carries everything: a painted commit that is not queued has handed its outgoing
flags to all its parents. The acyclicity of the history does the rest.

`PriorityQueue` is the binary heap, `TopoSort` the topological sort that uses it, `Bisect` the search for the
commit that halves a list best.

## Deltas

`DeltaFormat` is the format with a reference decoder. `DeltaHash` is the rolling hash, and why it is that of
the window; `DeltaTables` has the two tables and shows that they are what the hash needs. `DeltaEncoder` is
the encoder with its pending insert slot, backward extension and split copies, `DeltaIndexing` the index
with its thinned-out buckets.

## The cache tree

`CacheIndex` defines what the tree hashes of a sorted index are, from scratch. `CachedTree` says when a
cached tree is sound and what an invalidation keeps; `CacheUpdate` has the steps of an update on values;
`IndexMarks` says what entries marked for removal or as intent to add do to tree objects and counts;
`TreeText` reads tree objects back, and so says what the hash of a tree tells of the index;
`CacheTreeNodes` has the nodes themselves, `IndexCache` the index that owns them. `CacheTreeText` and
`CacheTreeFile` print and parse.

## The rest

`LineMerge` and `CombineDiff`: merging lost lines of several parents. `LineEndings` and `SafeCrlf`: conversion
of line endings, and what its check notices; `StreamFilters`, `StreamCascade` and `FilteredStreams`: the
conversion in chunks. `SpanHash` and `CountChanges`: similarity by hashed spans. `Attributes`: attribute
macros. `Base85`: base-85 text. `ConfigSyntax`, `ConfigRoundTrip`, `ConfigLines` and `ConfigFile`: the
configuration writer and reader. `Basics` holds what all share.

## What turned out not to hold everywhere

- `create_delta` computes `outsize * 3 / 2` in 32 bits. From 8192 bytes the buffer grows properly thirty
  times, to 1570824171 bytes; the next time it shrinks to 208752608 (`DeltaEncoder.LengthsRight`,
  `DeltaEncoder.LastGrowth`). A limit of at most 1570824171 bytes prevents that for every target: when the
  buffer has been cut to the limit, the loop stops before it grows again. Without such a limit the encoder
  overruns its buffer exactly if it has written to within 34 bytes of that length (`MakeRoom`); a caller is
  safe if 12 + 2 * trg_size + 34 is below it (`SizesFit`), and is not if the headers, the bytes of the target
  that the source does not have, and one byte for every 127 of these begun reach it less 34
  (`FewestBytes`). For a source of at most 16 bytes, which has no index entries, and for one without a byte
  in common with the target it is exact with all bytes of the target in place of these (`DiffDelta`).
- `do_find_bisection` counts merges that leave the tree alone, although the number it counts up to does
  not (`Bisect.CounterOff`), so that it may stop before every weight is known. It then finds the best of
  the commits weighed so far (`Weighed`), which is optimal exactly if none of the others splits more evenly
  (`OptimalIff`). All weights it needs are known if there is no such merge, if no tree-changing commit has
  exactly one listed parent, or if such merges are fewer than these commits and the list has children
  before parents (`Weighable`); if these commits are not more than the merges, none of them is weighed
  (`Starved`). `Bisect.CountedTooSoon` shows six commits for which the choice is not optimal.
- The second loop of `update_one` looks at the marks of a subdirectory's first entry as if they were the
  subdirectory's. A directory whose first entry is marked is left out of its parent's tree, whatever else
  is in it (`IndexMarks.DirectoryLost`; `IndexMarks.LinesExact` and `IndexMarks.LiveTree` say exactly when
  nothing is lost), and an entry marked for removal is counted as skipped once more for every directory it
  is the first of, so that the entry count is wrong (`IndexMarks.CountedTwice`; `IndexMarks.SkipsExact` says
  exactly when it is right). When the marked entries are removed the tree then claims something false,
  exactly if there was such a directory in one that is known (`IndexMarks.RemovalExact`).
- A second update while the marked entries are still there passes a known subdirectory over by the count
  without them, which is too little exactly if there are some (`IndexMarks.KnownAdvances`); if its parent is
  not known, the subdirectory is met again (`IndexMarks.ListedTwice`, `IndexMarks.ListedOnceIff`). If the
  root is known and stored nothing happens (`IndexState.Update`).
- `verify_cache` compares neighbours only. `IndexCache.ConflictShowsIff` says exactly which conflicts it
  sees; `IndexCache.MissedConflict` shows one it does not.
- core.safecrlf promises a complaint if a text will not come back as it was. `SafeCrlf.CheckIsExact` says
  exactly when it keeps that promise: it does not notice a CR lost from CR CR LF where the conversion is not
  guessed and a checkout gives CRLF (`SafeCrlf.ReturnLost`), nor CRs added to a text whose version in the index has some
  (`SafeCrlf.ReturnGained`).
- `lf_to_crlf_filter_fn` drops a held character when it is fed an empty chunk. It is the only input for
  which the filter breaks its contract, and no caller in `convert.c` feeds empty chunks.
- A configuration value with a carriage return survives writing and reading exactly if it is put in quotes
  for another reason (`ConfigRoundTrip.WriteReadRoundTrip`).

## Model

| member | source | states |
|---|---|---|
| CommitGraph.ReachClosed | git/commit.c:526-563 | A set closed under parent links that holds a commit holds everything the commit reaches; the induction behind every walk |
| CommitGraph.ReachTrans | git/commit.c:1037-1055 | Ancestry is transitive |
| CommitGraph.ReachAntisym | git/commit.c:900-954 | In an acyclic history two commits that reach each other are one commit |
| CommitGraph.DescendantsShrink | git/commit.c:657-766 | A child has strictly fewer listed descendants than its parent; the measure for climbing to a head |
| CommitMarks.ClearCommitMarks1 | git/commit.c:526-546 | One unrolled first-parent walk: what it clears, and that the marks still to clear are reached from the commits it leaves on the list |
| CommitMarks.ClearList | git/commit.c:548-558 | The loop over the work list clears exactly what the tips reach through marked commits and ends with an empty list |
| CommitMarks.ClearCommitMarksMany | git/commit.c:548-558 | The mark is gone from exactly the commits the given ones reach through marked commits; every other flag of every commit is as before |
| CommitMarks.ClearCommitMarks | git/commit.c:560-563 | The same from one commit |
| CommitMarks.ClearTwice | git/commit.c:986-987 | Clearing from some tips and then from others misses nothing that all of them together reach |
| CommitMarks.SupportedMarksReached | git/commit.c:526-563 | Marks that trace back, child by child, to a tip are all reached from the tips through marked commits, although clearing stops at unmarked ones |
| Painting.InsertByDate | git/commit.c:465-476 | Insertion into a date-ordered list, behind every commit that is not older |
| Painting.OutgoingIsHandedOn | git/commit.c:826-831 | ORing the outgoing flags into a parent makes the parent carry them |
| Painting.PaintParent | git/commit.c:824-831 | One parent: it is skipped if it has all the flags already, else it gains them, is queued, and the number of unset flag bits goes down |
| Painting.PaintParents | git/commit.c:822-832 | The loop over the parents keeps the closure invariant: a painted commit that is not queued has handed its outgoing flags to all its parents |
| Painting.MarkResult | git/commit.c:814-817 | A commit where both sides meet is recorded once as a result, in date order; it gains the RESULT flag and nothing else changes |
| Painting.QueueHasNonstale | git/commit.c:778-787 | True exactly if some queued commit is not stale |
| Painting.PaintBoundsClosed | git/commit.c:790-837 | The paint stays where it belongs: first side below the one commit, second side below the others, STALE only below common ancestors |
| Painting.TakeCommit | git/commit.c:808-821 | Taking any queued commit in hand keeps the closure invariant; the flags it is going to hand on are its paint, with STALE added where both sides meet |
| Painting.PaintRound | git/commit.c:808-833 | One round: afterwards fewer flag bits are unset, or as many and the queue is shorter; the closure invariant holds |
| Painting.PaintLoop | git/commit.c:808-833 | The loop ends for every order in which commits leave the queue, with the closure invariant and only stale commits queued |
| Painting.SideArrives | git/commit.c:808-833 | At the early stop a side has still arrived at every commit it reaches along a way without stale commits |
| Painting.BestIsFound | git/commit.c:808-833 | Every best common ancestor is a result and not stale, whatever the dates and the pop order |
| Painting.TwoArrivesAtOne | git/commit.c:1037-1055 | The one commit carries the second side exactly if some other commit is it or descends from it |
| Painting.TracedIsReached | git/commit.c:526-563 | Every painted commit is reached from the tips through painted commits, so clearing from the tips removes all paint |
| Painting.PaintDownToCommon | git/commit.c:790-837 | The walk as a whole: results newest first without repeats, all of them common ancestors, no best one missing or stale; all paint traceable to the tips; nothing but paint flags changed |
| MergeBases.BestAbove | git/commit.c:846-871 | Above every common ancestor stands a best one |
| MergeBases.HeadAbove | git/commit.c:900-954 | Above every member of a list stands a member no other member descends from |
| MergeBases.HeadsAreBest | git/commit.c:979-994 | In a list that holds all best common ancestors and only common ancestors, the members no other descends from are exactly the best ones |
| MergeBases.ClearWalk | git/commit.c:1051-1053 | Clearing from the same tips removes every paint flag a walk has left anywhere and nothing else |
| MergeBases.InMergeBasesMany | git/commit.c:1037-1055 | True exactly if the commit is one of the references or an ancestor of one, for every date and pop order; all flags restored |
| MergeBases.IsDescendantOf | git/commit.c:1019-1032 | True for an empty list, else exactly if some listed commit is the commit or its ancestor |
| MergeBases.SelfIsBest | git/commit.c:845-852 | A commit among the others is itself the only best common ancestor |
| MergeBases.MergeBasesMany | git/commit.c:839-871 | Results newest first without repeats and without stale ones: common ancestors, with every best one among them |
| Redundancy.MemberIsBelow | git/commit.c:930-932 | The second side on the member in hand means another member descends from it |
| Redundancy.UnmarkedAbove | git/commit.c:919-932 | If some member descends from this one, then so does one not marked redundant yet: skipping marked ones loses nothing |
| Redundancy.WalkAndMark | git/commit.c:924-935 | One round marks only redundant members, and marks the member in hand whenever it is redundant |
| Redundancy.CompareWithRest | git/commit.c:919-940 | After the round all flags are as before the round |
| Redundancy.FindRedundant | git/commit.c:917-940 | After all rounds a member is marked exactly if another member descends from it |
| Redundancy.SelectBoth | git/commit.c:942-949 | Kept and dropped members together are the members, each as often as before |
| Redundancy.Gather | git/commit.c:942-949 | Writes the selected members in their old order behind those written before |
| Redundancy.RemoveRedundant | git/commit.c:900-954 | A stable partition: in front exactly the members no other member descends from, behind the others, flags restored |
| Heads.SingleBaseIsExact | git/commit.c:971-977 | A single result needs no redundancy removal |
| Heads.KeptBases | git/commit.c:989-994 | What redundancy removal keeps of the results are exactly the best common ancestors |
| Heads.GetMergeBasesMany0 | git/commit.c:956-995 | For at least one other commit: exactly the best common ancestors, newest first, without repeats; with cleanup no paint is left |
| Heads.GetMergeBasesMany | git/commit.c:997-1002 | The same with cleanup, every flag restored |
| Heads.GetMergeBases | git/commit.c:1011-1014 | The best common ancestors of two commits |
| Heads.BelowBases | git/commit.c:873-898 | Below the merge bases of two commits lies exactly what lies below both |
| Heads.OctopusRound | git/commit.c:884-896 | One round: the best common ancestors of the tip with each commit found before, one list behind the other |
| Heads.RoundFinds | git/commit.c:884-896 | A commit is in a round's result exactly if it is a best common ancestor of the tip and some commit found before |
| Heads.OctopusBelow | git/commit.c:873-898 | After each round, below what has been found lies exactly what lies below all tips up to there |
| Heads.GetOctopusMergeBases | git/commit.c:873-898 | Round after round exactly the best common ancestors of a tip with each commit found before, one list behind the other (`Octopus`), and so the best common ancestors themselves for two tips; below the result lies exactly what lies below every input |
| Heads.UniqueHeads | git/commit.c:1075-1090 | The three flag loops yield the first occurrences in order and leave no STALE flag, even if heads were stale before |
| Heads.ReduceHeads | git/commit.c:1065-1095 | The heads no other head descends from, each once, in the order first given |
| PriorityQueue.PrioQueue.Put | git/prio-queue.c:39-59 | Adds one entry with the next insertion number and keeps the heap |
| PriorityQueue.PrioQueue.Get | git/prio-queue.c:61-90 | Takes out one entry: with a comparison one of largest key, without one the last put |
| PriorityQueue.PrioQueue.GetEntry | git/prio-queue.c:61-90 | The entry taken comes before all others, the older one on equal keys |
| PriorityQueue.PrioQueue.Reverse | git/prio-queue.c:20-28 | Reverses the stack in place |
| PriorityQueue.RootIsFirst | git/prio-queue.c:4-11 | In a heap the root comes before every entry |
| PriorityQueue.LiftStep | git/prio-queue.c:50-58 | Exchanging an entry with its parent moves the only possible fault of the heap up one level |
| PriorityQueue.SinkStep | git/prio-queue.c:76-88 | Exchanging an entry with its first child moves the only possible fault down one level |
| PriorityQueue.DataRearranged | git/prio-queue.c:13-18 | Rearranging entries keeps what is queued |
| TopoSort.CountLinks | git/commit.c:687-707 | Each counter is one more than the number of parent links from listed commits, repeated parents counted as often as they occur |
| TopoSort.TakeBack | git/commit.c:738-752 | Taking back one link never brings a counter below one; at one the commit is ready, and only then |
| TopoSort.SomeTip | git/commit.c:735-760 | As long as commits remain one of them has no remaining child, so the queue does not run dry early |
| TopoSort.EmitInOrder | git/commit.c:735-760 | Emitting a commit without remaining children keeps the order topological |
| TopoSort.EmitGreedy | git/commit.c:735-760 | Emitting the newest ready commit keeps every emission newest among those that were ready |
| TopoSort.LastLink | git/commit.c:738-752 | A link taken back that makes its target ready is the last one to it, also when a parent is named more than once |
| TopoSort.StackNext | git/commit.c:735-760 | What lies further up on the stack became ready later: the parents an emitted commit releases lie above everything else, in the order of their last links |
| TopoSort.EmitLastReady | git/commit.c:735-760 | Emitting the commit on top of the stack keeps every emission the one that had become ready last |
| TopoSort.EmitNext | git/commit.c:735-760 | One round keeps the counters exact, the queue equal to the ready commits, and the order |
| TopoSort.SortInTopologicalOrder | git/commit.c:657-766 | A permutation in which no commit comes after a listed commit it is reached from through listed commits; by commit date no commit whose listed children are out has a later date than the one that comes next, by author date the same of author dates; in graph order each emitted commit is the one that had become ready last, and the tips come in their given order |
| Bisect.CountDistance | git/bisect.c:37-62 | Marks everything open the commit reaches through open commits and returns how many of these change the tree |
| Bisect.WeighByCounting | git/bisect.c:306-307 | The exact weight of one commit, all marks removed again |
| Bisect.ReachPeel | git/bisect.c:37-62 | What a commit reaches is itself and what its parents reach without it |
| Bisect.SingleParentWeight | git/bisect.c:317-351 | With one listed parent the weight is the parent's, plus one if the commit changes the tree |
| Bisect.HalfwayIsOptimal | git/bisect.c:98-117 | A commit that is exactly half-way is beaten by none |
| Bisect.CountInterestingParents | git/bisect.c:85-96 | The number of parents in the list |
| Bisect.InitWeights | git/bisect.c:256-283 | Every commit starts with its exact weight or the mark of what is unknown about it; the counter says how many weights count |
| Bisect.WeighMerges | git/bisect.c:301-313 | The loop over the merges keeps every weight exact, or stops at a commit that is half-way |
| Bisect.LowestUnknown | git/bisect.c:317-351 | As long as a weight is unknown, some commit without one has a parent with one: the filling loop makes progress |
| Bisect.FillWeights | git/bisect.c:317-351 | The filling loop ends, for every list: at a commit that is half-way, or with exact weights for exactly the commits that passes over the list, up to the one after which the counter says "enough", give one to (`Fills`); that is every weight that matters under `Weighable`, and none is filled in where the tree-changing commits with one listed parent are not more than the merges that leave the tree alone |
| Bisect.FillPass | git/bisect.c:318-350 | One pass gives exactly those commits a weight that have a listed parent with one when their turn comes (`PassTo`), some more in every pass, and all if parents come first |
| Bisect.FillsOn | git/bisect.c:317-351 | A pass taken while the counter is short does not change what is weighed in the end |
| Bisect.FillsGrows | git/bisect.c:317-351 | No weight is lost on the way, and none outside the list is filled in |
| Bisect.CounterOff | git/bisect.c:301-351 | At any time the counter is what it counts up to, less the tree-changing commits without a weight, plus the merges that leave the tree alone and have one: it says "enough" exactly if the first are not more than the second |
| Bisect.ParentBefore | git/bisect.c:318-351 | In a list with parents first one pass fills in everything: the parent of a commit still unknown has been passed |
| Bisect.BestBisection | git/bisect.c:160-182 | The first tree-changing commit with the largest distance; the head if no distance is known |
| Bisect.DoFindBisection | git/bisect.c:249-359 | For every list: of the tree-changing commits that are weighed in the end (`Weighed`) none splits more evenly than the commit found, whose weight is exact; the head is returned if none is weighed (`Picks`). If the counter does not end the filling loop too early, none at all does |
| Bisect.FindBisection | git/bisect.c:361-404 | The interesting commits are searched in reverse order (`Backwards`): of those that change the tree and are weighed in the end one is found such that no other of them has a larger min(w, nr - w), with its exact weight w; under a condition on the list (`Weighable`) no other commit at all has; the last of the list if none is weighed |
| Bisect.BackwardsOrder | git/bisect.c:369-394 | A list with children first is searched with parents first |
| Bisect.OptimalIff | git/bisect.c:317-356 | The best of the commits that were weighed, whichever these are, is optimal exactly if no tree-changing commit without a weight splits more evenly |
| Bisect.CountedTooSoon | git/bisect.c:301-317 | Six commits, two of them merges that leave the tree alone: the counter says 4 of 4, a commit exactly half-way keeps its mark -1, and no commit that was weighed is optimal |
| DeltaFormat.GetDeltaHdrSize | git/delta.h:89-102 | Reads seven bits a byte up to the first byte without the top bit |
| DeltaFormat.SizeRoundTrip | git/delta.h:89-102 | Reading a size header undoes writing it, whatever follows |
| DeltaFormat.CommandEmits | git/patch-delta.c:39-74 | A command that is accepted emits something: the bytes behind it, as many as it says, or a piece of the source; what follows is the rest of the text |
| DeltaFormat.CopySpelledOut | git/patch-delta.c:41-50 | A copy command with all operands: four bytes of offset, three of size, the low ones first, and a size of zero for 64KB |
| DeltaFormat.SampleDelta | git/patch-delta.c:17-86 | The delta 40 40 90 40 gives back a source of 64 bytes |
| DeltaFormat.BadCommands | git/patch-delta.c:51-73 | A command byte of zero, literals that are not there and a copy beyond the source are refused |
| DeltaFormat.ApplyConcat | git/delta.h:71-80 | Decoding two command sequences one after the other emits what they emit one after the other |
| DeltaHash.RollStays | git/diff-delta.c:372-373 | Rolling keeps the hash below 2^31, so the table access stays in range |
| DeltaHash.FirstByte | git/diff-delta.c:372-373 | If the table `T` adds up bit by bit, the hash of a text is that of its first byte, shifted on, added to that of the rest |
| DeltaHash.WindowMoves | git/diff-delta.c:372-373 | If besides `U` holds what a byte has become fifteen bytes later, taking out the byte that leaves the window and shifting in the next one turns the hash of a window into that of the next window |
| DeltaTables.GitMatches | git/diff-delta.c:23-113 | The tables of `diff-delta.c` are such tables |
| DeltaEncoder.FirstLiterals | git/diff-delta.c:359-365 | The first sixteen bytes are pending literals, and the value in hand is their hash |
| DeltaEncoder.RollWindow | git/diff-delta.c:456-461 | After a copy the value is the hash of the sixteen bytes before the place reached |
| DeltaEncoder.SearchFinds | git/diff-delta.c:370-395 | A search where the window equals that of an entry and three more bytes agree finds at least four bytes |
| DeltaEncoder.CommonMatches | git/diff-delta.c:385-391 | The length found by comparing bytes is the length of a match |
| DeltaEncoder.FindMatch | git/diff-delta.c:375-394 | The match kept is one, and if the bucket ascends none in the bucket is longer (unless it is long enough to stop); ending at the first entry too near the end loses nothing |
| DeltaEncoder.ExtendBack | git/diff-delta.c:411-423 | Backward extension: the literals taken back are part of the longer match, and they are as many as are pending and agree |
| DeltaEncoder.LiteralsFlush | git/diff-delta.c:424-425 | With their count written into the slot left free, the pending literals are one insert command |
| DeltaEncoder.CopyReadsBack | git/diff-delta.c:432-449 | Offset and size of a copy command are read back, zero bytes left out and a size of 0x10000 written as none |
| DeltaEncoder.CopyRound | git/diff-delta.c:407-462 | The commands written so far emit the target up to the end of the copy; matches over 64KB are split and the rest carried over; how many literals are taken back and how far the round gets is exact |
| DeltaEncoder.LiteralRound | git/diff-delta.c:397-406 | The pending literals grow by one; at 0x7f their count is filled in |
| DeltaEncoder.Round | git/diff-delta.c:369-463 | One round keeps the output right, its length at most twice the target done so far plus the headers; it passes one byte or copies at least four, and copies where the window of an entry and three more bytes are found; the value in hand stays the hash of the window |
| DeltaEncoder.MakeRoom | git/diff-delta.c:464-476 | Before every round there is room for a largest round, or the delta is given up, or the buffer has become smaller than what it holds: exactly if nothing limits it and it is within one round of the last length |
| DeltaEncoder.LengthsRight | git/diff-delta.c:466-466 | After growing k times the 32-bit buffer length is the one that is meant, half as large again each time, exactly if k is at most 30 |
| DeltaEncoder.LastGrowth | git/diff-delta.c:466-466 | The 30th growth gives 1570824171 bytes, the 31st wraps around to 208752608, less than what the buffer holds |
| DeltaEncoder.GrowthMakesRoom | git/diff-delta.c:464-467 | Each of the first thirty times, growing makes room for more than a largest round |
| DeltaEncoder.LiteralSizeNext | git/diff-delta.c:397-406 | A literal takes one byte, and one more at the start of each run of 127 |
| DeltaEncoder.DeltaLongEnough | git/delta.h:82-83 | Every delta produced has at least the four bytes the decoder demands |
| DeltaEncoder.EmitsAllPatches | git/diff-delta.c:318-489 | Headers followed by commands that emit the whole target are a delta for it |
| DeltaEncoder.CreateDelta | git/diff-delta.c:318-489 | For every target and limit: whenever a delta is returned, decoding it against the source gives the target and it is no longer than the limit; unless the buffer overruns, one is returned for every target that is not empty if there is no limit or room for two bytes for each of the target's; the buffer overruns only if nothing limits it and the target is large enough; it overruns whatever the index offers if the bytes the source does not have are enough for it, and if no entry of the index agrees with the target for four bytes exactly if the literals reach the last length. The rounds cover the target, and each that begins where the window of an entry and three more bytes are found copies (`Covered`) |
| DeltaEncoder.SelfFirst | git/diff-delta.c:370-395 | For a target equal to the source the first search finds all that is left |
| DeltaEncoder.StraightCopy | git/diff-delta.c:407-462 | And then one copy follows the other, 64KB each, to the end |
| DeltaEncoder.FewestNeeded | git/diff-delta.c:397-406 | No delta for the target is shorter than the headers, the bytes of the target that the source does not have, and one more for each 127 of these begun |
| DeltaEncoder.NothingInCommon | git/diff-delta.c:397-406 | For a target without a byte of the source no delta is shorter than the one that consists of literals |
| DeltaIndexing.BlocksAscend | git/diff-delta.c:181-202 | The entries ascend, point into the source and carry the hash of the block they end |
| DeltaIndexing.EveryBlockIsFound | git/diff-delta.c:181-202 | Every block has an entry with its hash at its own place or at a lower one |
| DeltaIndexing.Populate | git/diff-delta.c:172-202 | Every bucket's list holds exactly its entries, lowest first; the bucket counts and the total are right after merging equal neighbours |
| DeltaIndexing.PutBlock | git/diff-delta.c:189-201 | One block: either the newest entry moves down to it or a new one heads its bucket |
| DeltaIndexing.PassOver | git/diff-delta.c:243-248 | The inner loop never runs past the last entry and leaves the balance between -63 and 0 |
| DeltaIndexing.KeepOne | git/diff-delta.c:241-250 | One step of the thinning: from the k-th to the (k+1)-th place, which is k n / 64 rounded up |
| DeltaIndexing.KeptAll | git/diff-delta.c:228-251 | The last entry is passed after exactly HASH_LIMIT steps with the balance at zero |
| DeltaIndexing.ThinnedIs | git/diff-delta.c:204-252 | Of more than 64 entries the 64 at places k n / 64, rounded up, stay |
| DeltaIndexing.CullBucket | git/diff-delta.c:225-251 | Exactly HASH_LIMIT entries stay, the k-th at place k n / 64 rounded up, in order; other buckets are untouched |
| DeltaIndexing.CullAll | git/diff-delta.c:216-252 | All buckets are limited; the entry count goes down by what was taken out |
| DeltaIndexing.Pack | git/diff-delta.c:279-292 | Each bucket is copied in order and in full; together they are as many as the count says |
| DeltaIndexing.ThinnedAscends | git/diff-delta.c:204-215 | Thinning keeps the ascending order that the early end of the search relies on |
| DeltaIndexing.CreateDeltaIndex | git/diff-delta.c:133-296 | Nothing for an empty source; else each bucket is the thinned list of the entries with its hash, ascending and inside the source |
| DeltaIndexing.DiffDelta | git/delta.h:57-69 | Indexing and encoding together: the delta decodes to the target; each round that begins where the window of an entry and three more bytes are found copies at least four bytes; a target of at least twenty bytes equal to the source gives a delta within any limit that leaves room for the headers and seven bytes for each 64KB begun, and no longer than that; the buffer overruns if the bytes that only the target has are enough for it, and for a source of at most 16 bytes, or one that has no byte in common with the target, exactly from a certain size on |
| DeltaIndexing.IndexIsHashed | git/diff-delta.c:181-296 | Every entry stands in the bucket of the hash of the sixteen bytes up to it |
| DeltaIndexing.FirstBlockFirst | git/diff-delta.c:181-296 | The first block of the source comes first in its bucket, however crowded that is |
| DeltaIndexing.TableSize | git/diff-delta.c:145-160 | There are as many buckets as the least power of two, sixteen at least, that is not below a quarter of the blocks |
| LineMerge.LcsIsBound | git/combine-diff.c:202-220 | No common subsequence is longer than the table entry |
| LineMerge.LcsIsReached | git/combine-diff.c:202-220 | Some common subsequence is as long |
| LineMerge.MergeLength | git/combine-diff.c:164-285 | The merged list has the lengths of both lists minus the table entry |
| LineMerge.MergeKeepsView | git/combine-diff.c:229-271 | The lines an earlier parent lost are the same, in the same order |
| LineMerge.MergeShowsNew | git/combine-diff.c:229-271 | The lines marked with the new parent match its list one by one |
| LineMerge.MergeShowsNewExactly | git/combine-diff.c:121-159 | With exact comparison they are the new list |
| LineMerge.MergeNothing | git/combine-diff.c:173-179 | Merging with an empty list changes nothing |
| LineMerge.MergeApart | git/combine-diff.c:202-271 | Lists that share no line stand one behind the other, the base in front |
| CombineDiff.Unlink | git/combine-diff.c:240-248 | Takes a node out of a doubly linked list and leaves both parts well linked |
| CombineDiff.LinkIn | git/combine-diff.c:251-265 | Puts a node between two others, with links in both directions |
| CombineDiff.FillTable | git/combine-diff.c:192-220 | Table and directions agree with the recursive definition everywhere |
| CombineDiff.WalkBack | git/combine-diff.c:229-271 | The walk over the directions relinks both lists into the merged one |
| CombineDiff.CoalesceLines | git/combine-diff.c:164-285 | The base list becomes the merged list, linked consistently in both directions, with its count |
| CacheIndex.RunIsAll | git/cache-tree.c:279-282 | In a sorted index the entries below a directory stand together, so the loop may stop at the first that does not belong |
| CacheIndex.DirStep | git/cache-tree.c:273-312 | Passing a subdirectory passes all its entries and no others, and it does not come up again |
| CacheIndex.BufferDir | git/cache-tree.c:336-387 | The tree object from some entry on begins with the line of the subdirectory that entry lies in |
| CachedTree.InvalidateKeepsSound | git/cache-tree.c:102-147 | If the index changes only in entries that a path touches (of that name, below it, or files where it needs a directory) and that path is invalidated, whatever the tree still claims to know is true of the new index |
| CachedTree.InvalidateKeepsUnskipped | git/cache-tree.c:102-147 | Nor does any known node have entries marked for removal below it, if their paths are invalidated when they are marked |
| CachedTree.KnownIsExact | git/cache-tree.c:239-261 | If known nodes are complete, a known root means that every subdirectory on every level has a node with the right hash and count |
| CachedTree.SoundSame | git/cache-tree.c:239-261 | What holds of a node depends only on the entries below its directory |
| CachedTree.InvalidatedShaped | git/cache-tree.c:102-147 | Invalidation keeps the subtrees of all levels in order |
| CachedTree.InvalidatedNodes | git/cache-tree.c:102-147 | Invalidating a path makes the nodes of the directories on the way to it unknown and changes nothing else of them; a node of its own name goes with all below it; every other node stays as it is |
| CacheTreeNodes.CacheTree.SubtreePos | git/cache-tree.c:45-64 | Binary search: the place of the name, or where it would go to keep the length-then-bytes order |
| CacheTreeNodes.CacheTree.FindSubtree | git/cache-tree.c:66-75 | The place of a subtree, or a negative number exactly if there is none |
| CacheTreeNodes.CacheTree.FindOrAddSubtree | git/cache-tree.c:66-94 | The place of a subtree, which is inserted in order if it was missing |
| CacheTreeNodes.CacheTree.DoInvalidatePath | git/cache-tree.c:102-147 | Every node on the way becomes unknown, a subtree of the path's own name is removed, all else stays |
| CacheTreeNodes.CacheTree.DiscardUnusedSubtrees | git/cache-tree.c:208-223 | Exactly the used subtrees stay, in order |
| CacheTreeNodes.CacheTree.UpdateOne | git/cache-tree.c:239-417 | Success returns the number of entries of the directory and how many of them are skipped, gives the node the hash of the tree object made from scratch (when repairing, if the subtrees are known), and makes it known with the count less what is skipped if nothing in it is an intent to add, no more is skipped than there is and, when repairing, the database has the trees; soundness of the whole subtree is kept on failure too; it succeeds whenever objects are present or not asked for and writing works; a node that is known and stored is left as it is, and the number returned is that of its entries exactly if none of them is marked for removal |
| CacheTreeNodes.CacheTree.UpdateSubtrees | git/cache-tree.c:272-313 | The first loop updates every subdirectory once, marks exactly those as used, and adds up what they skip |
| CacheTreeNodes.CacheTree.UpdateSub | git/cache-tree.c:294-311 | One step: the subdirectory's node is found or made, updated with the entries it has, and skipped over by their number |
| CacheTreeNodes.CacheTree.BuildTree | git/cache-tree.c:319-393 | The second loop yields the tree object computed from scratch, lines of marked entries left out, and counts what is skipped; the node is to stay unknown if a subtree is unknown or an entry is an intent to add |
| CacheTreeNodes.CacheTree.NextLine | git/cache-tree.c:320-387 | One line: the missing object is noticed before the marks are looked at; a removed entry is skipped and counted, an intent to add makes the node unknown |
| CacheTreeNodes.CacheTree.WriteTree | git/cache-tree.c:319-417 | The node is made known exactly with the hash of the tree object from scratch |
| CacheUpdate.SubEnds | git/cache-tree.c:298-311 | Exchanging a subtree for its update keeps what is known of all the others |
| CacheUpdate.DiscardCollects | git/cache-tree.c:314-314 | After discarding, the subtrees are exactly the subdirectories |
| CacheUpdate.Built | git/cache-tree.c:319-393 | All lines together are the tree object computed from scratch |
| CacheUpdate.Finished | git/cache-tree.c:395-410 | Recording hash and count keeps the tree sound, whatever was skipped |
| CacheUpdate.KnownIsSure | git/cache-tree.c:260-261 | A known node without entries marked for removal below it is sure to stay known |
| IndexCache.VerifyCache | git/cache-tree.c:155-206 | Accepts exactly an index without unmerged entries in which no entry conflicts with the next one |
| IndexCache.ConflictShowsIff | git/cache-tree.c:179-202 | A file in the way of a directory is seen exactly if no name that continues the file's name with a character before the slash exists |
| IndexCache.MissedConflict | git/cache-tree.c:184-202 | "a", "a-b" and "a/c" pass although "a" and "a/c" conflict |
| IndexCache.IndexState.Change | git/cache-tree.c:149-153 | Any addition, replacement, removal or marking of entries that one path touches, a file for a directory and the other way round included, keeps the cache tree sound with its invalidation |
| IndexCache.IndexState.Update | git/cache-tree.c:419-433 | After success the root has the hash of the tree made from scratch (when repairing, if the database has the trees), and no index of other names, modes and object names has a tree of that hash unless two different tree objects of one directory have one hash (`Tells`); root and every directory node are known with the hash and entry count a computation from scratch gives, less what is skipped, if nothing is marked as intent to add and no directory counts more as skipped than it has entries; if moreover no subdirectory begins with an entry to be removed, hash and count are those of the entries that stay; a second update in a row, over entries still marked, changes nothing; failure keeps what is known true; it fails only for the stated reasons |
| TreeText.LineReadBack | git/cache-tree.c:385-387 | A line of a tree object is read back: the mode in octal up to the blank, the name up to the NUL, and the twenty bytes of the object name |
| TreeText.TreeReadBack | git/cache-tree.c:320-387 | Reading the tree object of a directory gives its lines, for names without a NUL |
| TreeText.TreeLinesAre | git/cache-tree.c:320-387 | A line is among them exactly if it has name, mode and object name of a live file that stands directly in the directory, or 40000, the name and the tree hash of a subdirectory whose first entry is live |
| TreeText.TreeOrdered | git/cache-tree.c:320-387 | The lines ascend, each name once, a subdirectory sorted as if its name ended in a slash |
| TreeText.HashTellsAll | git/cache-tree.c:320-387 | Two indexes of live entries that have the same tree hash for a directory hold the same names, modes and object names there, or two different tree objects of one directory have the same hash |
| TreeText.TwoFiles | git/cache-tree.c:385-387 | The tree of a file and of an executable one in a subdirectory, byte by byte |
| IndexCache.IndexState.RemoveMarked | git/read-cache.c:532-550 | The marked entries go, the others stay in order, and all that the cache tree knows is true of what is left exactly if no subdirectory of a known directory begins with a marked entry |
| IndexMarks.SkipsExact | git/cache-tree.c:311-370 | The number counted as skipped is never less than that of the entries marked for removal, and is that number exactly if no subdirectory on any level begins with one |
| IndexMarks.CountedTwice | git/cache-tree.c:367-370 | One removed entry, alone in a directory, is counted twice |
| IndexMarks.LiveTree | git/cache-tree.c:320-387 | If every subdirectory on every level that has a live entry begins with one, the tree object made is that of the live entries alone |
| IndexMarks.LinesExact | git/cache-tree.c:320-387 | A tree object never has more lines than its live entries need, and as many exactly if every subdirectory on that level that has a live entry begins with one |
| IndexMarks.DirectoryLost | git/cache-tree.c:377-380 | A directory with a live entry is left out because its first entry is an intent to add |
| IndexMarks.RemovalExact | git/cache-tree.c:362-410 | Removing the marked entries keeps all claims of the tree true exactly if no subdirectory of a known directory, on any level, begins with one |
| IndexMarks.StartsWellCounted | git/cache-tree.c:408-412 | If no subdirectory begins with an entry to be removed, no directory counts more as skipped than it has entries |
| IndexMarks.KnownAdvances | git/cache-tree.c:260-261 | What is returned for a node that is known is never more than the number of its entries, and is that number exactly if none of them is marked for removal |
| IndexMarks.ListedOnceIff | git/cache-tree.c:274-309 | As long as no subdirectory is passed over by more than its entries, none is met twice exactly if each is passed over by as many as it has |
| IndexMarks.ListedTwice | git/cache-tree.c:260-309 | A subdirectory of three entries, one of them marked for removal, counts as two once it is known, and is met twice by the next update |
| CacheTreeText.StrtolDecimal | git/cache-tree.c:500-507 | strtol undoes %d for every int, whatever follows |
| CacheTreeText.ReadUndoesWrite | git/cache-tree.c:480-561 | Reading a written tree gives the same names, order, counts and known hashes, and stops exactly at its end |
| CacheTreeText.PutIntoSlot | git/cache-tree.c:546-551 | Filling the slot that is found or made is insertion in order |
| CacheTreeText.SamplePrinted | git/cache-tree.c:435-464 | A root that is not known with one subtree that is, byte by byte |
| CacheTreeText.SamplePut | git/cache-tree.c:35-43 | A subtree of a shorter name stands before one of a longer name |
| CacheTreeFile.WriteOne | git/cache-tree.c:435-473 | Dies exactly if subtrees are out of order somewhere, and else appends the printed tree |
| CacheTreeFile.ReadOne | git/cache-tree.c:480-561 | Builds the tree the text describes, fails on malformed text, dies on repeated names |
| CacheTreeFile.CacheTreeRead | git/cache-tree.c:563-568 | Text that does not begin with an empty name gives nothing |
| CacheTreeFile.CacheTreeWrite | git/cache-tree.c:475-478 | Writing from the root with an empty name |
| CacheTreeFile.WriteAndRead | git/cache-tree.c:475-568 | The round trip over live trees |
| LineEndings.GatherStats | git/convert.c:33-74 | Counts of NUL, CR, LF, CRLF, printable and unprintable characters, an end-of-file character at the end left out |
| LineEndings.AlreadyCrlf | git/convert.c:264-270 | Where every LF follows a CR the conversion changes nothing |
| LineEndings.CrlfToWorktree | git/convert.c:253-310 | For every attribute and setting, guesses included: every bare LF becomes CRLF if the text is to be converted, and it reports "unchanged" exactly if nothing changes; with eol=crlf it always is, with eol=lf and -text never, with text by core.autocrlf and else core.eol |
| LineEndings.CrlfToGit | git/convert.c:168-251 | For every attribute and setting: every CR before an LF is dropped if the text is to be converted, also by the loop that drops all CRs after a guess; it warns or dies exactly if the text is converted and its line endings are not those a checkout gives; a dry run gives the same answer |
| LineEndings.InPerAttribute | git/convert.c:98-154 | Attribute by attribute: with text, eol=lf and eol=crlf every CR before an LF is dropped; the complaint is about CRLFs with eol=lf, about bare LFs with eol=crlf, and by core.autocrlf and else core.eol with text |
| LineEndings.AllCounted | git/convert.c:41-69 | Every character is counted as printable, unprintable, CR or LF |
| LineEndings.PrintableAre | git/convert.c:52-68 | Which control characters count as printable |
| LineEndings.BinaryIff | git/convert.c:79-96 | Binary is what has a NUL, or less than 128 printable characters to each unprintable one |
| LineEndings.ThereAndBack | git/convert.c:168-310 | Converting to the working tree and back is converting to the repository right away |
| LineEndings.NoBareReturn | git/convert.c:193-199 | There are as many CRs as CRLFs exactly if an LF follows each CR |
| SafeCrlf.AsBinary | git/convert.c:79-96 | Conversion in either direction does not change whether a text counts as binary |
| SafeCrlf.RestoredIff | git/convert.c:143-153 | Dropping the CRs and adding them again restores a text exactly if a CR precedes each LF and no LF has two of them before it |
| SafeCrlf.CheckIsExact | git/convert.c:123-154 | A text that is checked in and out again is as it was exactly if core.safecrlf does not complain, it has no doubled CR before an LF where checkouts give CRLF and nothing is guessed, and it is not a text without CRs whose version in the index has one |
| SafeCrlf.ReturnLost | git/convert.c:240-245 | CR CR LF is checked in and comes back as CR LF, without complaint |
| SafeCrlf.ReturnGained | git/convert.c:204-211 | A text without CRs, where the index has one with CRs, comes back with CRs, without complaint |
| SafeCrlf.GuessIsSafe | git/convert.c:204-211 | With core.autocrlf and no attribute, checking a text out and in again does not change it, whatever it holds |
| SafeCrlf.OutAndIn | git/convert.c:168-310 | With attributes, checking out and in again is the same as checking in right away |
| StreamFilters.LfStep | git/convert.c:985-1018 | What one character does to output and held character, also when the output is full |
| StreamCascade.Run | git/convert.c:1339-1344 | For every cutting of the input into chunks and every room for output in each call: feeding all chunks and then draining ends, and puts out what the filter makes of the whole input |
| StreamCascade.RunLfToCrlf | git/convert.c:952-1038 | For the LF-to-CRLF filter that is the whole-buffer conversion |
| FilteredStreams.FilteredStream.Read | git/streaming.c:193-246 | Hands out exactly the next characters of the conversion of what the upstream delivers, as many as asked for or all that are left, however the upstream cuts its input; the loop ends. If the upstream fails it hands out as many as asked for or fails, so that a failure is never taken for an end, and it fails only if all but what the filter holds back has been handed out |
| FilteredStreams.FilteredStream.Round | git/streaming.c:198-243 | One round hands out the front of what is owed or keeps it, and brings the loop nearer its end |
| FilteredStreams.ReadToEnd | git/streaming.c:517-544 | Reading portions of any sizes until nothing comes gives the conversion of the whole input, or fails exactly if the upstream does |
| StreamFilters.StreamingIsWholeBuffer | git/convert.c:952-1029 | From its initial state the filter's total output is the whole-buffer conversion, and an empty cascade's is the composition |
| StreamFilters.FeedTwoStep | git/convert.c:1076-1086 | Feeding the buffer to the second filter keeps the cascade's total output |
| StreamFilters.FeedOneStep | git/convert.c:1088-1103 | Feeding the first filter into the empty buffer keeps it too |
| StreamCascade.LfToCrlfFilter.Filter | git/convert.c:952-1029 | Each call keeps the total output, stays within the room given, and makes progress; the one exception is an empty chunk while a character other than CR is held |
| StreamCascade.LossIsLoss | git/convert.c:964-976 | In that exception the held character is lost |
| StreamCascade.LfToCrlfFilter.Convert | git/convert.c:977-1026 | The main loop, for every room from some place on |
| StreamCascade.NullFilter | git/convert.c:903-920 | Copies as much as fits |
| StreamCascade.CascadeFilter.Filter | git/convert.c:1061-1122 | For any two filters that keep the contract, the cascade keeps it for their composition; the loop ends |
| StreamCascade.CascadeFilter.Round | git/convert.c:1073-1119 | One round keeps the total output and brings the loop nearer its end |
| StreamCascade.StreamFilter | git/convert.c:1339-1344 | Every filter built from these keeps the contract of a stream filter |
| StreamCascade.JoinFilters | git/convert.c:1137-1153 | The joined filter does first the one and then the other; a null filter is left away |
| SpanHash.NotEntered | git/diffcore-delta.c:82-107 | An empty slot met while probing shows that the hash value is not in the table |
| SpanHash.PassedAll | git/diffcore-delta.c:82-107 | Probing that passes every slot means a full table, so it always finds a slot |
| SpanHash.EnterKeeps | git/diffcore-delta.c:90-97 | Entering a hash value keeps all entries findable |
| SpanHash.RoomToGrow | git/diffcore-delta.c:28-38 | Growing leaves room, and with hash values below HASHBASE the table never exceeds 2^17 slots |
| SpanHash.SpanHashTop.AddSpanHash | git/diffcore-delta.c:82-107 | Adds the bytes to one hash value's count and to no other, growing if need be |
| SpanHash.SpanHashTop.Rehash | git/diffcore-delta.c:49-80 | The table of twice the size holds the same counts |
| CountChanges.SortSorts | git/diffcore-delta.c:109-121 | Sorting keeps the counts |
| CountChanges.HashChars | git/diffcore-delta.c:123-164 | The sorted table counts exactly the spans of the file, CR of CRLF ignored in text |
| CountChanges.MixRotates | git/diffcore-delta.c:140-151 | The accumulators are the halves of a word of 64 bits that is rotated by seven before the byte is added |
| CountChanges.BitsApart | git/diffcore-delta.c:149-150 | The bits that are joined do not overlap, so that `^` is an addition |
| CountChanges.LastByteCounts | git/diffcore-delta.c:149-154 | Spans that differ in their last byte alone have different hash values |
| CountChanges.SpanGoesOn | git/diffcore-delta.c:152-157 | Without a line feed a span goes on to 64 characters, and what is left of less is not counted |
| CountChanges.LinesApart | git/diffcore-delta.c:136-158 | The spans of whole lines and what follows are those of each by itself |
| CountChanges.OneLine | git/diffcore-delta.c:136-158 | A line of seven characters: accumulators and span |
| CountChanges.Merge | git/diffcore-delta.c:195-224 | The merge of two tables sums minima and excesses over all hash values |
| CountChanges.CopiedAndAdded | git/diffcore-delta.c:17-19 | Copied and added bytes add up to the destination's |
| CountChanges.SwapAddsNothing | git/diffcore-delta.c:195-224 | A file whose lines are put into another order has nothing added |
| CountChanges.DiffcoreCountChanges | git/diffcore-delta.c:166-233 | Copied is the sum over hash values of min(source, destination), added the sum of max(0, destination - source), together all counted bytes of the destination, whether or not tables of earlier calls are used; tables made are kept for later calls |
| CountChanges.TableFor | git/diffcore-delta.c:177-193 | The table kept for a file, or else a new one, which is kept if there is a place for it |
| Attributes.AttrCheck.FillOne | git/attr.c:657-677 | The same values as without the early exit; rem stays at least the number of unknown attributes and goes down by one for each that becomes known, which is each write; ends for cyclic macros |
| Attributes.AttrCheck.Fill | git/attr.c:679-694 | The same for the rules of one file |
| Attributes.AttrCheck.MacroexpandOne | git/attr.c:696-719 | The definition that counts is applied |
| Attributes.AttrCheck.FindMacro | git/attr.c:705-713 | The search finds the definition in the topmost file that has one, there the last, and none exactly if no file has one (`MacroIs`) |
| Attributes.AttrCheck.CollectSomeAttrs | git/attr.c:726-768 | An attribute has a value exactly if a rule that matches, or the definition that counts of a macro that is true, speaks of it, and the value is what one of them says (`Explained`); if no such definition speaks of it, the topmost file, there the last rule, and there the last state decides (`Decided`); all in all the values are those of one rule with all states that apply |
| Attributes.MacroIs | git/attr.c:705-713 | The macro found is the j-th rule of the i-th file exactly if that one defines it, no rule behind it there does, and none in a file above; none is found exactly if there is none |
| Attributes.MacroIsText | git/attr.c:696-719 | Setting a macro to true is the same as writing the states of its definition in its place |
| Attributes.FillsConcat | git/attr.c:657-677 | Of states one behind the other those behind come first |
| Attributes.StackIsText | git/attr.c:679-768 | The rules of all files that match are as good as one rule with all their states, the lowest file's in front |
| Attributes.FoundIsExplained | git/attr.c:657-768 | What a collection finds, by the places of the rules and definitions it comes from |
| Attributes.StackSaidIs | git/attr.c:657-768 | What decides, by its place: no rule that matches speaks of the attribute in a file above, further down in the file, or further behind in the rule |
| Attributes.FillAmounts | git/attr.c:657-719 | Of the states applied no attribute stays unknown, every macro that became true is applied in full, and every value found stands in one of these states or in such a macro |
| Attributes.FoundThen | git/attr.c:679-694 | One collection after the other finds what both together say |
| Attributes.StackAmounts | git/attr.c:679-768 | All rules of all files together: a value for each attribute they speak of, macros made true applied in full, no value from elsewhere |
| Attributes.StackPrecedes | git/attr.c:657-768 | An attribute that stands in no macro gets what the topmost file says that speaks of it, in the last rule there that matches and does so |
| Base85.PrepBase85 | git/base85.c:29-38 | Fills the table unless that has been done; the table inverts the alphabet |
| Base85.Encode85 | git/base85.c:79-102 | Every group of up to four bytes, zero-padded, becomes five characters |
| Base85.DecodeGroup | git/base85.c:46-64 | A group is accepted exactly if its five characters are in the alphabet and the value fits into 32 bits; nothing wraps |
| Base85.Unpack | git/base85.c:69-72 | Turning the word yields its bytes, most significant first |
| Base85.Decode85 | git/base85.c:40-77 | Decodes group by group or reports the first bad one |
| Base85.DecodeUndoesEncode | git/base85.c:40-102 | Decoding undoes encoding for every byte string, partial final groups included |
| Base85.AlphabetIs | git/base85.c:15-25 | The alphabet |
| Base85.SampleGroups | git/base85.c:79-102 | Three groups as they are encoded |
| ConfigFile.ConfigSource.GetNextChar | git/config.c:235-256 | CR LF reads as a newline, a lone CR as itself, the end as a newline with the end flag; the line number goes up by one for each newline |
| ConfigFile.ConfigSource.ParseValue | git/config.c:258-317 | Agrees with the value grammar: quotes, escapes, blanks, comments |
| ConfigFile.ConfigSource.GetValue | git/config.c:324-360 | A name, then perhaps a value, makes one callback, which sees the number of the line just ended |
| ConfigFile.ConfigSource.GetBaseVar | git/config.c:398-412 | A section name, with or without a subsection |
| ConfigFile.ConfigSource.GetExtendedBaseVar | git/config.c:362-396 | The subsection in quotes |
| ConfigFile.ConfigSource.GitParseSource | git/config.c:414-477 | Makes exactly the callbacks of the grammar, up to the first that is refused, and accepts exactly the texts it accepts, byte order mark included; each callback sees the number of its line (one more is possible for the last one, if the text ends in a backslash), and an error names the line of the next character or the one before |
| ConfigFile.CutAtRefusal | git/config.c:466-471 | The callbacks made are the first of the text, all of them taken except perhaps the last; without a refusal they are all |
| ConfigFile.StoreWriteSection | git/config.c:1729-1752 | Writes the header, with the subsection escaped |
| ConfigFile.StoreWritePair | git/config.c:1754-1800 | Writes the line, with the value escaped, in quotes where needed |
| ConfigFile.GitConfigParseKey | git/config.c:1851-1907 | Accepts exactly well-formed keys and puts section and name into lower case |
| ConfigRoundTrip.QuotedReadBack | git/config.c:258-317 | In quotes every value is read back |
| ConfigRoundTrip.PlainReadBack | git/config.c:258-317 | Without quotes a value is read back if it has no CR, no comment character and no blank at its ends |
| ConfigRoundTrip.NoReturnRead | git/config.c:235-317 | Without quotes no CR is ever read into a value |
| ConfigRoundTrip.SubReadBack | git/config.c:378-390 | A subsection is read back, whatever it contains but newlines |
| ConfigRoundTrip.WriteReadRoundTrip | git/config.c:1729-1800 | For every accepted key: one callback with the normalised key and the value as it was, if and only if the value has no CR or is one of those put in quotes |
| ConfigRoundTrip.PlainWritten | git/config.c:1754-1800 | A plain value stands behind a tab, the name and an equals sign between blanks |
| ConfigRoundTrip.QuotedWritten | git/config.c:1754-1800 | A value with blanks at its ends or a comment character stands in quotes |
| ConfigRoundTrip.SectionWritten | git/config.c:1729-1752 | A section stands in brackets, a subsection in quotes behind a blank |
| ConfigLines.CrlfReadAlike | git/config.c:235-256 | A text whose lines end in CR LF makes the same callbacks as the one whose lines end in LF |
| ConfigLines.KeysRead | git/config.c:324-464 | Every key the reader reports is one that git_config_parse_key accepts and leaves as it is, or a name before any section |
| ConfigFile.KeyReadParsed | git/config.c:1851-1907 | Such a key is accepted, and is already what it is normalised to |
| ConfigLines.LowerIs | git/config.c:334-334 | Capital letters become small ones, and nothing else changes |
| ConfigLines.CharsAre | git/config.c:319-322 | A key is made of letters, digits and hyphens; blank are space, tab, LF and CR |
| ConfigLines.EscapesRead | git/config.c:290-309 | The escapes there are: tab, backspace, newline, backslash and quote |
| ConfigLines.SampleRead | git/config.c:414-477 | A section, a variable and a comment, character by character |
| ConfigFile.WriteAndRead | git/config.c:1729-1907 | The same for the functions themselves, from key to callback |

## Left out

- Painting.PopAny: takes any commit off the queue, where the source takes the first of a date-ordered list; every run of the source is one of these runs.
- Painting.PaintDownToCommon: a commit that cannot be parsed ends the walk as in the source, and then only soundness of the results is promised, not completeness.
- Bisect with find_all: the sorted list and its cut are not modelled.
- TopoSort.SortInTopologicalOrder: counters are unbounded; the source's are ints.
- PriorityQueue.PrioQueue.Put: the insertion number is unbounded, so it does not wrap; comparisons are by a key.
- DeltaEncoder.CreateDelta: allocation does not fail; source and target are below 4GB; the hash tables are parameters (those of the source are in `DeltaTables`); what is written after an overrun is not modelled, the model stops there.
- DeltaIndexing.CreateDeltaIndex: the bucket tables are maps from bucket numbers, visited in some order instead of counting up; memory sizes are not modelled and allocation does not fail.
- CombineDiff.CoalesceLines: parents are a set of numbers, so the width of the parent bit mask is not modelled; freeing matched lines is not either.
- LineMerge: comparison flags that ignore white space are any relation between lines; only exact comparison is spelled out.
- CacheTreeNodes.CacheTree.UpdateOne: an entry marked both for removal and as intent to add is one marked for removal; whoever marks an entry for removal has to invalidate its path, as in the source (`IndexState.Change`); a known node with entries marked for removal below it, which only a second update in a row meets, is covered where that node is the one updated and is stored, and for its parents by `IndexMarks.ListedOnceIff`; success is promised for writing, and with missing objects allowed for dry runs and repairs, but not for dry runs and repairs that ask for every object.
- CacheTreeNodes.ObjectStore.Write: an object's name is an uninterpreted function of its text.
- CacheTreeText.Strtol: works on the rest of the text only, where the source may look past the end of its buffer.
- FilteredStreams.ReadToEnd: skipping blocks of zeros and failing to write are left out.
- LineEndings.GatherStats: counters do not wrap at 32 bits.
- LineEndings.CrlfToGit: what the index holds for the path is a parameter; external filters and the ident conversion around it are left out.
- CountChanges.SortSpans: `qsort` is an insertion sort.
- ConfigFile.ConfigSource: the in-place editor is left out.
- StreamCascade.OtherFilter.Filter: the ident filter is not modelled; any filter that keeps the contract stands for it, and filters do not fail.
- Attributes.AttrCheck.CollectSomeAttrs: collects all attributes; the shortcut for attributes never used in a file, building the stack and pattern matching are left out.
- commit buffers, grafts, signatures, commit writing and object parsing in `commit.c`: input and output around the graph.
- `prime_cache_tree`, `cache_tree_find`, `cache_tree_fully_valid`: short recursions over the same tree.
- processes, sockets, locks, files, terminals and option parsing throughout; the Rails files.
