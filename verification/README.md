# Verified models of screenpipe's scorers, chat store, walk throttle and text tools

This project models five parts of the repository in Dafny and proves what they
are for.

* **Evaluation scorers.** Word and character error rate by Levenshtein distance,
  the longest-common-run merge helper, and the diarization error rate with its
  greedy speaker matching.
* **Chat persistence.** The write-to-temporary-then-rename protocol, the
  collapsing of duplicate conversations, the paged listing, and the cached
  directory listing.
* **Accessibility-walk throttle.** The per-app window, tiers and decay, over
  whole runs of calls.
* **Timeline composition and RTTM text.** Who speaks at each instant of a composed
  recording, and the printing and parsing of RTTM records (Appendix A of the RT-09
  Rich Transcription Meeting Recognition Evaluation Plan).
* **Text chunking and host matching.** Overlapping chunks, and blocked-host
  patterns in terms of domain labels (section 3.1 of RFC 1034).

Seconds and rates are exact reals, durations and instants of the throttle are
integer nanoseconds, chat times are integer milliseconds, and text is a sequence
of Unicode scalars. Loops, tables and objects that the sources update in place are
methods, arrays and classes here, each proved against a function or predicate; the
theorems are lemmas about those.

## Layout

| file | contents |
|---|---|
| `Options.dfy`, `Text.dfy`, `Segments.dfy`, `FrameCount.dfy` | shared vocabulary: options and results, whitespace and words, labelled stretches, counting frames |
| `EditDistance.dfy` | edit chains, the distance, both dynamic programs |
| `WordErrorRate.dfy` | normalization and the two error rates |
| `CommonRun.dfy` | longest common run of words |
| `SpeakerMapping.dfy` | greedy speaker assignment |
| `Diarization.dfy` | frames, tally, score, voice-activity rates |
| `ChatSave.dfy` | the save protocol as a state machine |
| `ChatDedup.dfy`, `ChatPaging.dfy` | duplicate collapsing, and the listing that collects, collapses and sorts a page |
| `ChatCache.dfy` | the cached listing |
| `WalkBudget.dfy` | the walk throttle |
| `Compose.dfy` | the template composer |
| `Decimal.dfy`, `Numerals.dfy`, `Rttm.dfy` | decimal numbers, which texts are read as which number, and RTTM text |
| `ComposedRttm.dfy` | the composer's output, written and read back |
| `ChunkText.dfy` | overlapping chunks |
| `HostMatch.dfy` | host patterns |

`dafny verify dfyconfig.toml` checks everything.

## Where the sources disagree with their comments or with each other

* `der.rs` says greedy matching is exact when each hypothesis cluster has a unique
  best reference. Two clusters may share that best reference, and then greedy can
  miss the optimum (`SharedBestIsNotExact`); `GreedyIsExact` gives the exact
  condition under which every cluster gets its best reference.
* `chat-storage.ts` says an orphaned temporary file is cleaned up by the next save.
  Temporary names are unique, so no later save touches it (`CrashLeavesOrphan`,
  `OrphansStay`).
* The same file collapses duplicates in one pass. A second pass can collapse more
  (`DedupIsNotIdempotent`); `IdempotentOnIff` and `StaysIdempotentIff` say when not.
* `budget.rs` says a new app may be walked at once. That needs a clock that reaches
  back ten minutes (`FirstWalkIffClockOldEnough`). Decay is described as moving
  toward Light; it can also escalate (`DecayCanEscalate`, exactly when by
  `DecayEscalatesIff`), and the truncation count is not bounded by the window
  (`TruncationsAreUnbounded`, exactly when by `CountStaysInWindowIff`).
* The two word-error-rate programs disagree on an empty reference with a non-empty
  hypothesis: 1 in `wer.rs`, 0 in `bench_quality.rs` (`BenchWordErrorRate`).
* `server_bin.rs` takes the chunk size from the request; with size 0 and some text
  its loop never ends (`SizeZeroNeverEnds`), with any other size it does.
* `write_rttm` accepts any template name as file id; one of two words shifts every
  field when read back (`TwoWordIdIsMisread`, `IdIsSafeIff`).

## Model

| member | source | states |
|---|---|---|
| `EditDistance.LeastEdits` | crates/screenpipe-audio-eval/src/wer.rs:108-128 | the distance is the length of a shortest chain of single insertions, deletions and substitutions: some chain has that length and none is shorter |
| `EditDistance.Metric` | crates/screenpipe-audio-eval/src/wer.rs:108-128 | symmetric, zero exactly on equal sequences, triangle inequality, between the length difference and the longer length |
| `EditDistance.TwoRowLevenshtein` | crates/screenpipe-audio-eval/src/wer.rs:108-128 | the two-row program with exchanged arguments and swapped rows returns that distance |
| `EditDistance.FillRow` | crates/screenpipe-audio-eval/src/wer.rs:120-124 | the inner loop turns row i-1 of the table into row i |
| `EditDistance.FullMatrixLevenshtein` | crates/screenpipe-audio/examples/bench_quality.rs:65-85 | the full-matrix program returns the same distance on every input |
| `WordErrorRate.Normalize` | crates/screenpipe-audio-eval/src/wer.rs:90-106 | the one-pass buffer with its flag gives lowercase, strip, collapse, trim as the header describes them step by step |
| `WordErrorRate.PushLower` | crates/screenpipe-audio-eval/src/wer.rs:94-103 | one character's lowercase expansion keeps the buffer equal to the words read so far |
| `WordErrorRate.NormalizeIdempotent` | crates/screenpipe-audio-eval/src/wer.rs:8-12 | normalized text is a fixed point of normalization |
| `WordErrorRate.SameNormalForm` | crates/screenpipe-audio-eval/src/wer.rs:90-106 | two texts normalize alike exactly when they have the same tokens |
| `WordErrorRate.NormalKeepsText` | crates/screenpipe-audio-eval/src/wer.rs:90-106 | apart from spaces, normal form is the letters, digits and apostrophes of the lowercase text, in order |
| `WordErrorRate.TokensConcat` | crates/screenpipe-audio-eval/src/wer.rs:100-103 | whitespace parts tokens, whatever stands on both sides |
| `Text.WhitespaceIs` | crates/screenpipe-audio-eval/src/wer.rs:100 | the 25 Unicode whitespace characters, by number |
| `WordErrorRate.OneToken` | crates/screenpipe-audio-eval/src/wer.rs:94-103 | text without whitespace is one token, or none if nothing of it is kept |
| `WordErrorRate.RateIsRate` | crates/screenpipe-audio-eval/src/wer.rs:41-45 | the rate times the reference length is the edit distance |
| `WordErrorRate.RateZero` | crates/screenpipe-audio-eval/src/wer.rs:41-45 | a rate is zero exactly for equal sequences, and at most 1 when the hypothesis is no longer than the reference |
| `WordErrorRate.WordErrorRate` | crates/screenpipe-audio-eval/src/wer.rs:28-46 | least edits per reference token, 0 or 1 for an empty reference; zero exactly when the token sequences are equal |
| `WordErrorRate.CharErrorRate` | crates/screenpipe-audio-eval/src/wer.rs:48-58 | the same per character of the normalized text; zero exactly when the token sequences are equal |
| `WordErrorRate.WordAndCharRatesVanishTogether` | crates/screenpipe-audio-eval/src/wer.rs:28-58 | the word rate is zero exactly when the character rate is |
| `WordErrorRate.BenchWordErrorRate` | crates/screenpipe-audio/examples/bench_quality.rs:19-51 | least edits between the lowercased words; the same rate as the evaluation scorer's on equal tokens, exactly unless the reference is empty and the hypothesis is not |
| `CommonRun.LongestCommonRun` | crates/screenpipe-audio/examples/bench_quality.rs:125-148 | returns a genuine common run, no common run is longer, the first such in table order, and None exactly when no word is shared |
| `CommonRun.FillRow` | crates/screenpipe-audio/examples/bench_quality.rs:133-142 | one row of the table and the running best position |
| `SpeakerMapping.OverlapTable` | crates/screenpipe-audio-eval/src/der.rs:421-429 | the table holds exactly the overlapping pairs with their frame counts |
| `SpeakerMapping.SortedPairs` | crates/screenpipe-audio-eval/src/der.rs:431-432 | some order of the table's pairs that is descending in overlap; any such order may result |
| `SpeakerMapping.ClaimAll` | crates/screenpipe-audio-eval/src/der.rs:434-443 | the pass over the pairs with its map and claimed set |
| `SpeakerMapping.GreedySpeakerMapping` | crates/screenpipe-audio-eval/src/der.rs:417-444 | the mapping is the greedy result of some descending order |
| `SpeakerMapping.GreedyIsMaximal` | crates/screenpipe-audio-eval/src/der.rs:412-444 | for every such order: one-to-one, only overlapping pairs, nothing can be added, and every pair left out shares a side with a chosen one of no less overlap |
| `SpeakerMapping.GreedyIsHalfOptimal` | crates/screenpipe-audio-eval/src/der.rs:417-444 | its total overlap is at least half that of any one-to-one map |
| `SpeakerMapping.GreedyIsExact` | crates/screenpipe-audio-eval/src/der.rs:7-13 | when every label has a strictly best reference, greedy picks exactly those pairs if and only if the references are pairwise different, and then no map has a larger total |
| `SpeakerMapping.HalfIsTight` | crates/screenpipe-audio-eval/src/der.rs:431-442 | three frames on which greedy reaches exactly half of the optimum |
| `SpeakerMapping.SharedBestIsNotExact` | crates/screenpipe-audio-eval/src/der.rs:8-13 | seven frames on which each label has a strictly best reference and greedy misses the optimum |
| `Diarization.IndexRange` | crates/screenpipe-audio-eval/src/der.rs:402-404 | the floor and ceiling indices select exactly the 10 ms frames the segment meets, for negative starts too |
| `Diarization.Paint` | crates/screenpipe-audio-eval/src/der.rs:401-408 | overwrites exactly those frames |
| `Diarization.RenderFrames` | crates/screenpipe-audio-eval/src/der.rs:399-410 | each frame carries the last segment that meets it, else silence |
| `Diarization.LastSegmentWins` | crates/screenpipe-audio-eval/src/der.rs:399-410 | a frame, 10 ms from 0.01 i on, carries the speaker of the last segment that overlaps it |
| `Diarization.SilentElsewhere` | crates/screenpipe-audio-eval/src/der.rs:399-410 | a frame that no segment overlaps is silent |
| `Diarization.NothingIsCutOff` | crates/screenpipe-audio-eval/src/der.rs:328-346 | no segment meets a frame beyond the computed frame count |
| `Diarization.TimelineLength` | crates/screenpipe-audio-eval/src/der.rs:328-345 | no frames if nothing ends after 0, otherwise just as many that the last one begins when or after everything has ended |
| `Diarization.CountErrors` | crates/screenpipe-audio-eval/src/der.rs:349-373 | the four counters are the counts of speech, false-alarm, missed and confused frames after renaming |
| `Diarization.SpeechIsAccountedFor` | crates/screenpipe-audio-eval/src/der.rs:348-373 | frames where both speak are matched, confused, or agree by a coincidence of names; the first two suffice exactly when there is no coincidence, in particular with disjoint names |
| `Diarization.ConfusionIsBounded` | crates/screenpipe-audio-eval/src/der.rs:412-444 | with disjoint names, greedy's confusion is at most halfway between that of any one-to-one map and all shared speech |
| `Diarization.SpeechSplits` | crates/screenpipe-audio-eval/src/der.rs:359-373 | reference speech is missed frames plus frames where both speak; missed plus confused never exceed it |
| `FrameCount.CountIsCardinality` | crates/screenpipe-audio-eval/src/der.rs:354-373 | a counter is the size of the set of frames it counts |
| `Diarization.ScoreLaws` | crates/screenpipe-audio-eval/src/der.rs:375-396 | the error rate is the sum of its parts, missed plus confused rates are at most 1, and it is zero exactly when all three counts are |
| `Diarization.ScoreDer` | crates/screenpipe-audio-eval/src/der.rs:327-397 | for some greedy mapping of the painted timelines and n frames of reference speech: the three rates times n are the false-alarm, missed and confused frames, the error rate times n is their sum, and the speech lasts n times 10 ms; without reference speech all five are 0 |
| `Diarization.VadRates` | crates/screenpipe-audio-eval/src/der.rs:156-193 | each rate times the silent or speaking reference frames is the number of wrong ones among them, and 0 if there are none |
| `Diarization.VadAgrees` | crates/screenpipe-audio-eval/src/der.rs:156-193 | missed detection equals the separately computed false-negative rate, and false alarms are the filled silence frames |
| `Diarization.ScorePipeline` | crates/screenpipe-audio-eval/src/der.rs:94-117 | the same score, the two voice-activity rates of the same timelines, and a missed-detection rate equal to the false-negative rate |
| `Diarization.RelabellingScoresZero` | crates/screenpipe-audio-eval/src/der.rs:327-397 | hypothesis frames that rename the reference one-to-one, even permuting its own names, score zero |
| `Diarization.RelabelledSegmentsScoreZero` | crates/screenpipe-audio-eval/src/der.rs:471-477 | the same for segments whose speakers are renamed one-to-one |
| `Diarization.RelabellingIff` | crates/screenpipe-audio-eval/src/der.rs:327-397 | for all names: the hypothesis is a one-to-one renaming of the reference exactly when the score is zero, no frame agrees by a coincidence of names, and no false alarm is dropped for want of reference speech |
| `Diarization.ZeroScoreIffRelabelling` | crates/screenpipe-audio-eval/src/der.rs:327-397 | the case of reference speech and disjoint names, where a zero score alone decides |
| `Diarization.SharedNameHidesConfusion` | crates/screenpipe-audio-eval/src/der.rs:349-352 | a coincidence does occur: with a shared name an unmapped label's raw name hides its error and the score is zero |
| `ChatSave.NamesDoNotMeet` | apps/screenpipe-app-tauri/lib/chat-storage.ts:199-207 | a conversation's file is listed and its temporary file never is |
| `ChatSave.SameFileIff` | apps/screenpipe-app-tauri/lib/chat-storage.ts:74-77 | two conversations share a file exactly when their ids differ only where both have a reserved character or an underscore |
| `ChatSave.StepKeepsStaging` | apps/screenpipe-app-tauri/lib/chat-storage.ts:99-116 | every step of every save keeps each temporary file equal to what its own save has written |
| `ChatSave.SavesAreAtomic` | apps/screenpipe-app-tauri/lib/chat-storage.ts:79-117 | in every interleaving with partial writes, failures, crashes and deletions, the listed files evolve like a store with atomic puts and deletions |
| `ChatSave.LastTouchDecides` | apps/screenpipe-app-tauri/lib/chat-storage.ts:79-142 | after any interleaving a conversation's file is what its last rename or deletion made of it, the whole body or nothing, and unchanged without either |
| `ChatSave.NoTornFile` | apps/screenpipe-app-tauri/lib/chat-storage.ts:84-89 | a conversation file is absent, as at the start, or the complete body of a save of that file |
| `ChatSave.RenameFindsItsFile` | apps/screenpipe-app-tauri/lib/chat-storage.ts:91-105 | no rename fails because its temporary file is gone; it installs the whole body and takes the temporary file away |
| `ChatSave.DoneLeavesNothing` | apps/screenpipe-app-tauri/lib/chat-storage.ts:99-105 | in every interleaving, a save that is done has no temporary file, then or later |
| `ChatSave.CleanupLeavesNothing` | apps/screenpipe-app-tauri/lib/chat-storage.ts:110-114 | a cleanup removes the temporary file and nothing a reader can see |
| `ChatSave.SaveGoesThrough` | apps/screenpipe-app-tauri/lib/chat-storage.ts:99-105 | a run of a single save, written in two parts cut anywhere, that replaces its conversation and changes nothing else |
| `ChatSave.RefusedSaveChangesNothing` | apps/screenpipe-app-tauri/lib/chat-storage.ts:110-115 | a run whose rename is refused and cleaned up, which leaves every file as it was |
| `ChatSave.OrphansStay` | apps/screenpipe-app-tauri/lib/chat-storage.ts:84-89 | the temporary file of a crashed save is never removed by anything later |
| `ChatSave.CrashLeavesOrphan` | apps/screenpipe-app-tauri/lib/chat-storage.ts:99-102 | for any save, a run whose crash right after the file is created leaves such a file |
| `ChatSave.SharedTmpTears` | apps/screenpipe-app-tauri/lib/chat-storage.ts:91-98 | with a shared temporary name, a run that leaves neither body under the conversation's name |
| `ChatDedup.FindInBucket` | apps/screenpipe-app-tauri/lib/chat-storage.ts:388-398 | the bucket scan finds the slot that a scan of all kept rows finds first |
| `ChatDedup.Place` | apps/screenpipe-app-tauri/lib/chat-storage.ts:381-409 | one row: kept rows follow the plain scan and the index stays exact |
| `ChatDedup.DedupeConversationMetas` | apps/screenpipe-app-tauri/lib/chat-storage.ts:375-412 | the indexed program returns what the plain scan returns |
| `ChatDedup.DedupPartitions` | apps/screenpipe-app-tauri/lib/chat-storage.ts:372-411 | every row goes to exactly one slot with its key, slots stand in the order of their first rows and show one of their rows, none better; every row without a key or with creation time 0 is its own slot |
| `ChatDedup.MostCompleteCopyWins` | apps/screenpipe-app-tauri/lib/chat-storage.ts:350-370 | a finished copy never gives way to an unfinished one, then more messages win, then the later update |
| `ChatDedup.UnchangedIffNoTwins` | apps/screenpipe-app-tauri/lib/chat-storage.ts:381-411 | a list comes back unchanged exactly when no two of its rows have the same non-empty key and creation times that are both non-zero and at most 1,800,000 ms apart |
| `ChatDedup.PairIsMergedIff` | apps/screenpipe-app-tauri/lib/chat-storage.ts:391-404 | two rows come back as one, the better or else the first, exactly under that condition |
| `ChatDedup.StaysIdempotentIff` | apps/screenpipe-app-tauri/lib/chat-storage.ts:375-412 | as a list grows, a second pass changes nothing exactly as long as no new row replaces one kept row while it is the same chat as a later one |
| `ChatDedup.IdempotentOnIff` | apps/screenpipe-app-tauri/lib/chat-storage.ts:375-412 | every list of rows from a collection is collapsed in one pass exactly when no row of it is the same chat as two rows that are not, and better than one of them |
| `ChatDedup.NoneBetweenIsIdempotent` | apps/screenpipe-app-tauri/lib/chat-storage.ts:375-412 | for one list it is enough that no row stands so between two earlier ones |
| `ChatDedup.OnePassSuffices` | apps/screenpipe-app-tauri/lib/chat-storage.ts:375-412 | in particular if no later row is better than an earlier one with its key, or if being the same chat is transitive on the rows |
| `ChatDedup.BetweenIsNotIdempotent` | apps/screenpipe-app-tauri/lib/chat-storage.ts:399-402 | any such three rows need a second pass: replacing a representative moves its creation time into the window of another |
| `ChatDedup.DedupIsNotIdempotent` | apps/screenpipe-app-tauri/lib/chat-storage.ts:399-402 | such rows exist: created 40, 75 and 60 minutes in, the last one better |
| `ChatPaging.CollectPage` | apps/screenpipe-app-tauri/lib/chat-storage.ts:420-449 | the early-exit loop returns the page of matching readable rows at the offset |
| `ChatPaging.PageRows` | apps/screenpipe-app-tauri/lib/chat-storage.ts:434-442 | row k of a page is row offset + k of the list; the page ends at the limit or at the end of the list |
| `ChatPaging.ListedIff` | apps/screenpipe-app-tauri/lib/chat-storage.ts:305-317 | a readable row is listed exactly if it is hidden where only hidden ones are asked for, else not hidden where those are excluded, and of the kind asked for, if one other than "all" is |
| `ChatPaging.MatchingConcat` | apps/screenpipe-app-tauri/lib/chat-storage.ts:430-433 | rows are listed in the order of the entries |
| `ChatPaging.PagesTile` | apps/screenpipe-app-tauri/lib/chat-storage.ts:43-48 | consecutive pages neither skip nor repeat a matching row |
| `ChatPaging.ListConversations` | apps/screenpipe-app-tauri/lib/chat-storage.ts:414-456 | the listing is the page of matching rows, collapsed, then sorted by update time, newest first and stably |
| `ChatPaging.SortIsStable` | apps/screenpipe-app-tauri/lib/chat-storage.ts:453-455 | the sort is descending and keeps the order of rows with one update time |
| `ChatPaging.StableSortIsUnique` | apps/screenpipe-app-tauri/lib/chat-storage.ts:453-455 | there is only one such order |
| `ChatCache.OrderEntriesByMtime` | apps/screenpipe-app-tauri/lib/chat-storage.ts:237-261 | whatever order the directory is read in, the one listing sorted by time, then name, both descending |
| `ChatCache.ListingIsUnique` | apps/screenpipe-app-tauri/lib/chat-storage.ts:258-260 | there is only one such listing |
| `ChatCache.RememberExact` | apps/screenpipe-app-tauri/lib/chat-storage.ts:214-220 | moving a written entry to the front gives the fresh listing exactly when it is newer than every other file, or as new and later by name |
| `ChatCache.ForgetIsFresh` | apps/screenpipe-app-tauri/lib/chat-storage.ts:222-225 | dropping a deleted entry gives the fresh listing |
| `ChatCache.RunKeepsCacheFresh` | apps/screenpipe-app-tauri/lib/chat-storage.ts:263-272 | over every sequential run with increasing write times, a populated cache is the fresh listing |
| `ChatCache.ListedIff` | apps/screenpipe-app-tauri/lib/chat-storage.ts:263-272 | after any such run, the listing has exactly the names whose last operation was a save, and those there from the start and never touched |
| `ChatCache.ConversationIndex.constructor` | apps/screenpipe-app-tauri/lib/chat-storage.ts:25-27 | starts without a cache |
| `ChatCache.ConversationIndex.Save` | apps/screenpipe-app-tauri/lib/chat-storage.ts:103-109 | the new files and cache; a fresh cache stays fresh if the write is the latest |
| `ChatCache.ConversationIndex.Delete` | apps/screenpipe-app-tauri/lib/chat-storage.ts:133-142 | the new files and cache; a fresh cache stays fresh |
| `ChatCache.ConversationIndex.Invalidate` | apps/screenpipe-app-tauri/lib/chat-storage.ts:158-160 | drops the cache |
| `ChatCache.ConversationIndex.OrderedEntries` | apps/screenpipe-app-tauri/lib/chat-storage.ts:263-272 | the cached listing if there is one, else a fresh one; equal to a fresh one if the cache was |
| `WalkBudget.RunKeepsTiers` | crates/screenpipe-a11y/src/budget.rs:79-121 | in every reachable state the stored tier is the computed one and the window holds at most eight samples |
| `WalkBudget.TierByTotals` | crates/screenpipe-a11y/src/budget.rs:71-108 | the tier follows the exact total of the window and the count; cutting the average to whole nanoseconds never changes it |
| `WalkBudget.AnswersAreIndependent` | crates/screenpipe-a11y/src/budget.rs:140-189 | an app's answers depend on its own calls only |
| `WalkBudget.AnswerFollowsTier` | crates/screenpipe-a11y/src/budget.rs:155-180 | over every run, an answer about an app once walked allows a walk exactly from 200 ms, 2 s, 5 s or 60 s after its last one, with 5000, 2000, 1000 or 500 nodes and 250, 200, 150 or 100 ms, as the tier is Light, Moderate, Heavy or Critical |
| `WalkBudget.NoEarlyWalk` | crates/screenpipe-a11y/src/budget.rs:147-172 | for 30 s after a walk the app keeps the tier it was left in, so it may be walked exactly from 200 ms, 2 s or 5 s on if Light, Moderate or Heavy, and not at all if Critical |
| `WalkBudget.WalkAfterAMinute` | crates/screenpipe-a11y/src/budget.rs:149-172 | a minute after its last walk an app may always be walked |
| `WalkBudget.WalkAfterAQuietMinute` | crates/screenpipe-a11y/src/budget.rs:140-172 | so may any app that was ever asked about, after a minute without a call about it |
| `WalkBudget.AskedOnlyWalkIff` | crates/screenpipe-a11y/src/budget.rs:60-69 | an app that was only asked about may be walked exactly from 200 ms after the date its first call gave it |
| `WalkBudget.FirstWalkIffClockOldEnough` | crates/screenpipe-a11y/src/budget.rs:60-69 | an unknown app may be walked at once exactly when the clock reaches back ten minutes |
| `WalkBudget.RecoveryIff` | crates/screenpipe-a11y/src/budget.rs:79-108 | for walks recorded back to back, without a question in between: after eight or more untruncated ones under 50 ms, Light exactly when the slides have used up all but two truncations |
| `WalkBudget.RecoversWithin` | crates/screenpipe-a11y/src/budget.rs:79-120 | from every reachable state and however questions about the app and calls about others are mixed in, Light after at least eight such walks and at least twice the truncations plus three less the window length |
| `WalkBudget.AlwaysRecovers` | crates/screenpipe-a11y/src/budget.rs:79-120 | in particular after eight walks plus two for every truncation |
| `WalkBudget.RecoveryIsSharp` | crates/screenpipe-a11y/src/budget.rs:110-120 | one walk fewer is not enough: for every n from 2, a reachable full window with 2n + 3 truncations that 4n quick walks, with decays in between, leave Critical; from n = 6 these are more than eight plus the truncation count |
| `WalkBudget.DecayIff` | crates/screenpipe-a11y/src/budget.rs:110-120 | a question changes an app exactly if it has rested for more than 30 s, is not Light and has at least three samples; the newest half stays, rounded up, and two truncations go |
| `WalkBudget.DecayEscalatesIff` | crates/screenpipe-a11y/src/budget.rs:110-120 | when decay fires, the tier gets worse exactly if the newest half of the window alone averages 250 ms under Heavy or 150 ms under Moderate; Critical never does |
| `WalkBudget.DecayCanEscalate` | crates/screenpipe-a11y/src/budget.rs:110-120 | it happens: after two instant walks and two of 400 ms a Heavy app is answered as Critical |
| `WalkBudget.TruncationsAreUnbounded` | crates/screenpipe-a11y/src/budget.rs:79-120 | for every n, a run in order of time that leaves eight samples and 8 + 2n truncations |
| `WalkBudget.RecordKeepsCountInWindow` | crates/screenpipe-a11y/src/budget.rs:79-91 | recording a walk keeps the truncation count within the number of samples |
| `WalkBudget.DecayKeepsCountIff` | crates/screenpipe-a11y/src/budget.rs:110-120 | a decay does so exactly when the truncations less two fit in the half of the window that stays; always for at most five samples |
| `WalkBudget.CountStaysInWindowIff` | crates/screenpipe-a11y/src/budget.rs:79-120 | over a whole run the count stays within the window exactly when every decay in it is of that kind |
| `WalkBudget.AppCost.constructor` | crates/screenpipe-a11y/src/budget.rs:60-69 | a fresh cost |
| `WalkBudget.AppCost.Average` | crates/screenpipe-a11y/src/budget.rs:71-77 | the whole-nanosecond mean, zero for no samples |
| `WalkBudget.AppCost.TierNow` | crates/screenpipe-a11y/src/budget.rs:93-108 | the tier of the current window and count |
| `WalkBudget.AppCost.Record` | crates/screenpipe-a11y/src/budget.rs:79-91 | the whole new cost after a walk |
| `WalkBudget.AppCost.MaybeDecay` | crates/screenpipe-a11y/src/budget.rs:111-120 | the whole new cost after a possible decay |
| `WalkBudget.AppWalkBudget.constructor` | crates/screenpipe-a11y/src/budget.rs:132-136 | the empty run |
| `WalkBudget.AppWalkBudget.GetEntry` | crates/screenpipe-a11y/src/budget.rs:141-144 | the app's cost object, created on first use, shared with no other app |
| `WalkBudget.AppWalkBudget.ShouldWalk` | crates/screenpipe-a11y/src/budget.rs:140-180 | the answer, with the literal interval and limits of its tier, and the new table, other apps unchanged |
| `WalkBudget.AppWalkBudget.RecordWalk` | crates/screenpipe-a11y/src/budget.rs:183-189 | the new table, other apps unchanged |
| `Compose.SliceFits` | crates/screenpipe-audio-eval/src/compose.rs:121-139 | the sample slice is in bounds, its length is the crop's to within one sample, its start to within half a sample |
| `Compose.CopyLabels` | crates/screenpipe-audio-eval/src/compose.rs:144-164 | appends each label's part inside the crop, shifted and renamed |
| `Compose.PieceExact` | crates/screenpipe-audio-eval/src/compose.rs:121-164 | u seconds into its place, the labels emitted for a clip are exactly those its source carries u seconds after the template's crop start, a negative one counting as 0, inside the clip and before its crop end; named by a clip-and-label entry, else a label entry, else both names joined |
| `Compose.LabelsStayInSlot` | crates/screenpipe-audio-eval/src/compose.rs:136-164 | a clip's labels begin in its slot and end at most one sample after it |
| `Compose.ComposeTemplate` | crates/screenpipe-audio-eval/src/compose.rs:76-173 | samples, labels and duration of the whole template, or the error of its first bad segment |
| `Compose.ComposesIff` | crates/screenpipe-audio-eval/src/compose.rs:88-135 | a template composes exactly when no silence is negative and every crop start lies before its crop end and its clip's end; the error names the first segment where this fails |
| `Compose.SlotsFollowTemplate` | crates/screenpipe-audio-eval/src/compose.rs:86-139 | slots follow each other from 0; a silence is as long as it says to half a sample, a clip as long as from crop start to crop end, capped to the clip, to one sample |
| `Compose.SilenceIsQuiet` | crates/screenpipe-audio-eval/src/compose.rs:93-94 | every sample of a silence is 0.00001 |
| `Compose.TimelineIsPreserved` | crates/screenpipe-audio-eval/src/compose.rs:85-167 | in the whole output, from one sample after a slot begins until it ends, the active labels are exactly those its source carries that long after the template's crop start, under the names the template gives, and none in a silence |
| `Compose.AudioIsAligned` | crates/screenpipe-audio-eval/src/compose.rs:122-139 | a slot's audio is the clip sample for sample, from within half a sample of 16000 times the template's crop start, or of 0 if that is negative |
| `Decimal.FloatRoundTrip` | crates/screenpipe-audio-eval/src/rttm.rs:47-52 | parsing a number printed to three places gives the number rounded to thousandths, negative ones too |
| `Decimal.MillisAreNearest` | crates/screenpipe-audio-eval/src/compose.rs:225-231 | three-place printing keeps a nearest thousandth, the even one of two |
| `Numerals.ReadIffDenotes` | crates/screenpipe-audio-eval/src/rttm.rs:47-52 | a field is read as v exactly when it is a numeral of value v: optional sign, digits with an optional point and at least one digit, optional exponent; its digits as one integer, shifted by the exponent less the places after the point |
| `Numerals.PointIsRead` | crates/screenpipe-audio-eval/src/rttm.rs:47-52 | digits, a point and k digits are read as the number whose 10 to the k-fold is all the digits together |
| `Numerals.ScaleLaw` | crates/screenpipe-audio-eval/src/rttm.rs:47-52 | one place to the right is worth ten times as much, for positive and negative exponents |
| `Numerals.DigitLaw` | crates/screenpipe-audio-eval/src/rttm.rs:47-52 | a further digit adds its value to ten times the digits before it |
| `Numerals.DigitIs` | crates/screenpipe-audio-eval/src/rttm.rs:47-52 | the digits are the ten ASCII ones |
| `Rttm.WriteRttm` | crates/screenpipe-audio-eval/src/compose.rs:218-234 | one ten-field record per segment, in order |
| `Rttm.LineWords` | crates/screenpipe-audio-eval/src/compose.rs:225-231 | the words of a line: SPEAKER, the file id, 1, start, duration, two <NA>, the speaker, two <NA> |
| `Rttm.ParseEach` | crates/screenpipe-audio-eval/src/rttm.rs:26-60 | the loop returns the first bad line's error, else all segments in order |
| `Rttm.ParseRttm` | crates/screenpipe-audio-eval/src/rttm.rs:25-61 | comments, blank lines and other record types skipped; short lines and bad numbers rejected with their line number |
| `Rttm.LineMeaning` | crates/screenpipe-audio-eval/src/rttm.rs:27-58 | blank lines and comments give nothing; fewer than eight words are an error with the line number and the count; another record type gives nothing; a bad fourth or fifth word is a start or duration error with the line number; otherwise one segment with those two numbers and the eighth word |
| `Rttm.FirstBadLine` | crates/screenpipe-audio-eval/src/rttm.rs:26-58 | the text is rejected with an error exactly if that is the error of its first bad line, lines counted from 1 |
| `Rttm.FirstLine` | crates/screenpipe-audio-eval/src/rttm.rs:27 | a newline ends a line, blank ones included, and drops a carriage return before it |
| `Rttm.LastLine` | crates/screenpipe-audio-eval/src/rttm.rs:27 | the last line needs no newline, and nothing follows the last newline |
| `Rttm.LineByWords` | crates/screenpipe-audio-eval/src/rttm.rs:27-32 | trimming a line never matters: its words decide whether it is blank, a comment or a record |
| `Rttm.RttmRoundTrip` | crates/screenpipe-audio-eval/src/compose.rs:225-231 | with a file id of one word on one line, reading what was written returns the segments in order, times within half a millisecond, exactly when every speaker name is one word |
| `Rttm.IdIsSafeIff` | crates/screenpipe-audio-eval/src/compose.rs:218-234 | a file id is safe for all segments with one-word names exactly when it is one word, spaces around it allowed, on one line |
| `Rttm.TwoWordIdIsMisread` | crates/screenpipe-audio-eval/src/compose.rs:225-231 | with a file id of two words every segment is read back with start 1, its start as duration and the name <NA>, without an error |
| `Rttm.ParsedNamesAreWords` | crates/screenpipe-audio-eval/src/rttm.rs:32-53 | every speaker name the parser returns, from any text, is non-empty and free of whitespace |
| `Rttm.MillisAreStable` | crates/screenpipe-audio-eval/src/compose.rs:227-230 | a second write and read loses nothing more |
| `ComposedRttm.ComposedLabelsAreReadBack` | crates/screenpipe-audio-eval/src/compose.rs:141-171 | for clips and tables without whitespace in their names, the composer's label file is read back as its labels at millisecond precision |
| `ChunkText.Chunk` | crates/screenpipe-apple-intelligence/src/server_bin.rs:347-369 | terminates for every chunk size of at least 1 and on empty text; chunks at regular steps, only the last reaching the end |
| `ChunkText.SizeZeroNeverEnds` | crates/screenpipe-apple-intelligence/src/server_bin.rs:357-366 | with size 0 and some text, n turns of the loop leave n empty chunks, the start at 0 and the guard true |
| `ChunkText.OverlapIsSeventh` | crates/screenpipe-apple-intelligence/src/server_bin.rs:352 | the overlap is a seventh of the size, rounded down |
| `ChunkText.ChunksFit` | crates/screenpipe-apple-intelligence/src/server_bin.rs:358-360 | no chunk exceeds the size, and each later one is longer than the overlap |
| `ChunkText.ChunksRebuildText` | crates/screenpipe-apple-intelligence/src/server_bin.rs:346-369 | dropping each later chunk's overlap and joining gives back the text |
| `ChunkText.CoverageIff` | crates/screenpipe-apple-intelligence/src/server_bin.rs:346-369 | every stretch of a length lies whole in some chunk exactly when there is one chunk or the length is at most the overlap plus one |
| `HostMatch.MatchIsByLabels` | crates/screenpipe-a11y/src/url_filter.rs:49-70 | for all strings, the string test holds exactly when the pattern's one label occurs among the host's labels, or its several labels end them |
| `HostMatch.SubdomainsAreMatched` | crates/screenpipe-a11y/src/url_filter.rs:55-58 | every subdomain of a matched host is matched |
| `HostMatch.BlockingIsByLabels` | crates/screenpipe-a11y/src/url_filter.rs:31-38 | a parsed URL is blocked exactly when some pattern matches by labels, and then so are all subdomains |
| `HostMatch.BlockingWithoutHost` | crates/screenpipe-a11y/src/url_filter.rs:40-45 | without a host, a URL is blocked exactly when some pattern occurs somewhere in it |

## Left out

- Floating-point rounding, infinities and NaN: numbers are exact, and the float parser accepts only finite decimal numerals.
- Unicode tables for lowercase and alphanumeric characters: parameters of the normalizer, with the few laws it needs; whitespace is the full Unicode property.
- Saturation and overflow of machine integers: counters, lengths and durations are unbounded.
- `score_transcription`, throughput, boundary error and speaker continuity: averages and per-segment sums that add only easy members.
- `char_accuracy` of the benchmark: it divides a distance in characters by a length in bytes, which no law relates.
- The tokenization in front of the longest common run, and the overlap merge that uses it: the run is found on word lists.
- Audio decoding, resampling, WAV writing, template and directory loading: decoded samples, parsed labels and the source's base name are part of the template.
- JSON encoding and the directory prefix of the chat store: a save is its body and its name, and the file system offers atomic rename.
- `ChatSave.SharedTmpTears`: a second writer reopening the shared name truncates it; writes through an old file handle after a rename are not modelled.
- `ChatPaging.ListConversations`: limits and offsets are whole and not negative, and a missing chats directory is an empty list of entries.
- The extraction of dedup keys and completed-reply flags from messages, conversation search, and flag updates, which are documented as last writer wins.
- Concurrent refreshes of the listing cache and the cache's directory tag: the freshness theorem is about sequential operations in one directory.
- `ChatCache.OrderEntriesByMtime`: name collation is any strict total order, and a file's four timestamps are one sort time.
- `prefilter_for_actions` and `dedup_todos`: keyword filtering and similarity heuristics without a law to prove.
- URL parsing in front of the host matcher: the lowercase host, or its absence, is given.
- Window-pattern filters, HTTP handlers, prompts, foreign calls, user interface and build scripts.
