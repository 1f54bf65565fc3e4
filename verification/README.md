# txtodo: a verified model of the text engine

This project models the pure text engine of txtodo and the planners built on it, and proves what the
repository relies on them for:

- the line and character diff, its replay, and the line diff that finds moves;
- the three-way merge behind the git merge driver;
- reading, printing and editing a todo.txt line, and the two ways a line is completed;
- reading and writing a whole file byte for byte;
- the plans that carry a command's effect to the daemon (`do`, `archive`, edits, `del`, `add`), against the daemon's
  own replay of them;
- the framing of a bundle: records, sealed chunks, and reading them back, with a codec, a cipher, a sink and a source that
  may each refuse;
- day counting and the relay's rate limiter.

Code that works in place is modelled in place: the diff's one array `V` and its trace, the parser's cursor,
the draft under edit, the chunk writer and the record reader with their buffers, the limiter's map. Each such
method is proved against a function or predicate on values, and the results are lemmas about those. `Lists`,
`Lines`, `Wrappers` and `Octets` hold what the other modules share.

What a reader should know before the table:

- **The merge can drop a blank line.** A merged file that ends in a blank line loses it when neither side's
  text ends in a newline. `MergeOrder.LossIsTold` says exactly when, from the three files; a newline at the end of
  either side, or no blank line to keep, is enough to lose nothing (`MergeOrder.NewlineKeepsAll`).
  `Merge3.ABlankLineCanBeLost` gives three small files that lose one.
- **An unchanged side does not always give the other file.** The module documentation
  (crates/txtodo-core/src/merge3.rs:22-24) says that a side unchanged since the base leaves the other side's file exactly
  as it was. When `theirs` is the unchanged one, it does if and only if the file of `ours` is empty or ends in a newline,
  or `theirs` does not end in one (`MergeFiles.UnchangedTheirsFile`); otherwise the file gains a newline
  (`MergeFiles.UnchangedTheirsAddsNewline`). When `ours` is, the same is asked of the file of `theirs`, and the lines must
  come out in its order: the lines shared stand in the same order in both files and no added line comes right after a
  line that is shared again further on (`MergeFiles.UnchangedOursFile`, for all files, repeated lines included).
  `MergeFiles.UnchangedOursAddsNewline`, `MergeOrder.UnchangedOursReorders` and `MergeOrder.AddedBetweenCopiesMoves` are
  files that break each part.
- **Completing and reopening** gives a line back under an exact condition in the editor (`Completion.CompleteThenReopen`)
  and under another in the prompt bar (`Toggles.ToggleTwice`), and the two completions agree under a third
  (`Chips.CompletionsAgree`). All three are if-and-only-if statements over every open line of the strict grammar; `Examples`
  holds a line for each way the first and the third fail.
- **Strict reading accepts more than the published grammar**, though it is documented to refuse any deviation
  (crates/txtodo-core/src/parse.rs:2): control characters count as word characters (`StrictLines.BellIsAccepted`). A line it
  accepts is in the grammar of specs/todotxt.abnf if and only if it has none (`StrictLines.StrictAndPublished`).
- **Reopening is not idempotent between edits**, though documented so (crates/txtodo-core/src/edit.rs:127): a done line whose
  description starts with an `x` of its own reads as done again once reopened (`Idempotence.ReopenTwice`, with the exact
  condition; `Examples.ReopenedTwiceDiffers`). Completing is (`Idempotence.CompleteTwice`), and inside one edit both are.
- **An edited line may read as another task than the edit made.** A description that starts with `x`, a priority or a date
  after an edit is read as that piece where the line has none (`EditLaws.PrependedMarkIsTaken`). `Respelled.PrefixEditReads`
  and `Respelled.DescriptionEditReads` say exactly when a line reads as what its edits made of it, for any line and any
  edits; `EditLaws` says it op by op, with the text and the words each op leaves.
- **Lines without an id are matched by a hash**, though documented as matched by their exact bytes
  (crates/txtodo-core/src/diff.rs:95-96). The hash is a parameter here and every result holds for every hash. Such lines are
  always matched by their bytes if and only if the hash never gives two of them one value
  (`LineKeys.MatchesBytesIffInjective`), and no hash into 64 bits manages that (`LineKeys.ExactMatchFails`). On files where
  none collide they are (`LineKeys.NoCollisionMatchesBytes`).
- **A blank line left out has no mutation.** When a file only lost lines, its plan goes out if and only if no blank is among
  them (`InPlacePlans.ShrunkIsPlanned`), whether the lines carry ids or not.
- **Appends stop at a trailing blank line.** Tasks appended to a file are sent as mutations if and only if the old file
  did not end in a blank line (`DaemonMode.PlanMutations`): the daemon puts an append before the blanks at the end.
- **Line numbers are 32 bits wide.** A reference to a line too far down carries the largest number instead
  (crates/txtodo-cli/src/daemon_mode.rs:188). Plans of plain edits and of an archive are therefore right exactly when
  every changed line can be numbered (`LineEdits.EditsReachTarget`, `ArchivePlan.PlanReproduces`); the final check in
  `plan_mutations` never lets a wrong one out.
- **A record over the cap is exported but never imported.** The exporter only asserts the cap in debug builds
  (crates/txtodo-daemon/src/bundle_wire.rs:57). `BundleImport.ExportThenImport` shows that a bundle comes back exactly when
  no record is over it.
- **No chunks at all read as an empty bundle.** Of a bundle's own chunks an import accepts the whole bundle, or none of them
  (`BundleImport.OnlyTheWholeBundle`).

## Model

| member | source | states |
|---|---|---|
| EditGraph.LcsIsLargest | crates/txtodo-core/src/diff.rs:188-215 | no common subsequence of two texts is longer than the recursive LCS the diff is measured against |
| EditGraph.LcsIsAttained | crates/txtodo-core/src/diff.rs:188-215 | some common subsequence is that long |
| EditGraph.ScriptCostsAtLeastDistance | crates/txtodo-core/src/diff.rs:188-215 | no edit script is cheaper than the lengths minus twice the LCS |
| EditGraph.MismatchEndsRound | crates/txtodo-core/src/diff.rs:198-207 | a cursor left past the box, or stopped at a mismatch, is the furthest point its diagonal reaches at that cost |
| Myers.GoalIsExact | crates/txtodo-core/src/diff.rs:206-210 | when both cursors have passed their ends, they stand exactly at the corner and the round number is the distance |
| Myers.Slide | crates/txtodo-core/src/diff.rs:203-206 | follows equal elements to the first mismatch or the edge of the box |
| Myers.Round | crates/txtodo-core/src/diff.rs:197-213 | one round over the one array keeps every entry at its furthest point, and stops if and only if the round number is the distance |
| Myers.Retrace | crates/txtodo-core/src/diff.rs:223-246 | one round backwards emits the snake and the one step before it, and lands on the recorded point |
| Myers.Backtrack | crates/txtodo-core/src/diff.rs:219-251 | from the trace a gap-free script from the origin to the corner, one insert or delete a round, the common prefix kept first |
| Myers.Diff | crates/txtodo-core/src/diff.rs:188-251 | for all inputs ends, stays inside its array, and returns a script of exactly the lengths minus twice the LCS inserts and deletes, which keeps what both texts start with before anything else |
| TextDiff.ReplayEdits | crates/txtodo-crdt/src/text.rs:16-45 | the two-cursor replay computes the replay function: it fails where an assertion or a position would, and nowhere else |
| TextDiff.FittingEditsReplay | crates/txtodo-crdt/src/text.rs:16-45 | any edit list that fits source and target replays to the target up to its last edit, then the source |
| TextDiff.ReplayRefuses | crates/txtodo-crdt/src/text.rs:16-45 | the replay refuses an edit if and only if it goes back, or reaches past what is left of the source |
| TextDiff.DiffText | crates/txtodo-core/src/diff.rs:156-177 | the run-merged edits replay on the source to exactly the target, change the fewest characters, and no two neighbours could be one |
| LineDiffs.ScriptAccounts | crates/txtodo-core/src/diff.rs:97-125 | the lined steps use each line of both files once, in order |
| LineDiffs.PairMoves | crates/txtodo-core/src/diff.rs:128-153 | ends, loses and repeats no line, keeps matched lines rising and the steps matched at the start, and leaves no id both deleted and inserted |
| LineDiffs.DiffLines | crates/txtodo-core/src/diff.rs:97-125 | every old line once in order and every new line once, keeps byte-equal, moves under one id, as many matches as the longest common subsequence, the lines both files start with matched where they stand; with equal keys every line stays in place |
| LineDiffs.NothingNewOnlyDeletes | crates/txtodo-core/src/diff.rs:97-153 | when the new keys are the old ones with some left out, the diff keeps, changes or deletes each old line in turn and inserts none |
| LineKeys.ChangeWithoutIdCollides | crates/txtodo-core/src/diff.rs:84-112 | a change of a line without an id joins two different lines without an id that share a hash |
| LineKeys.NoCollisionMatchesBytes | crates/txtodo-core/src/diff.rs:95-96 | when no two different lines without an id share a hash, such lines are matched by their exact bytes |
| LineKeys.MatchesBytesIffInjective | crates/txtodo-core/src/diff.rs:84-96 | lines without an id are matched by their exact bytes in every diff if and only if the hash keeps all of them apart |
| LineKeys.HashesCollide | crates/txtodo-core/src/diff.rs:75-93 | any hash into 64 bits gives two different lines without an id one value |
| LineKeys.ExactMatchFails | crates/txtodo-core/src/diff.rs:75-96 | for any hash into 64 bits, some two different lines without an id are one change and nothing else: the documented exact match fails |
| LineKeys.KeysTellApart | crates/txtodo-core/src/diff.rs:84-93 | lines of one key that differ are tasks, on files whose hashes do not collide and on files of tasks only |
| Lines.SplitJoin | crates/txtodo-core/src/merge3.rs:94-120 | newline-free lines joined and split are the same lines |
| Merge3.WantKeepsPromises | crates/txtodo-core/src/merge3.rs:9-20 | the copies wanted are symmetric in the sides, let deletions and additions stand, and invent nothing |
| Merge3.KeptCopies | crates/txtodo-core/src/merge3.rs:41-50 | what stays of ours is the wanted copies of each line, up to those ours has |
| Merge3.OwedIsAvailable | crates/txtodo-core/src/merge3.rs:51-58 | theirs always has the copies still owed |
| Merge3.MergedCopies | crates/txtodo-core/src/merge3.rs:31-91 | the result holds exactly the wanted copies of every line |
| Merge3.SidesAreSymmetric | crates/txtodo-core/src/merge3.rs:20-20 | swapping ours and theirs gives the same multiset of lines |
| Merge3.OursKeepsItsOrder | crates/txtodo-core/src/merge3.rs:22-24 | the lines kept of ours are a subsequence of ours and of the result, and are all the result has room for |
| Merge3.UnchangedTheirsLeavesOurs | crates/txtodo-core/src/merge3.rs:31-91 | when theirs has the base's lines, or ours', in whatever order, the merged lines are exactly those of ours |
| MergeOrder.UnchangedOursGivesTheirs | crates/txtodo-core/src/merge3.rs:31-91 | when ours has the base's lines in their order, the merged lines are exactly those of theirs if and only if the shared lines stand in one order and no added line comes right after a line that is shared again further on |
| MergeOrder.DistinctTheirs | crates/txtodo-core/src/merge3.rs:31-91 | with no line twice in theirs, the merged lines are those of theirs if and only if the shared lines stand in one order |
| MergeOrder.UnchangedOursReorders | crates/txtodo-core/src/merge3.rs:22-24 | two files where theirs only swapped two lines and the result is not theirs |
| MergeOrder.AddedBetweenCopiesMoves | crates/txtodo-core/src/merge3.rs:65-91 | two files where the shared lines stand in one order and an added line still moves, past the later copy of the line before it |
| MergeFiles.UnchangedTheirsFile | crates/txtodo-core/src/merge3.rs:22-24 | when theirs is unchanged, or only reordered, the merged file is exactly that of ours if and only if ours is empty or ends in a newline, or theirs does not |
| MergeFiles.UnchangedOursFile | crates/txtodo-core/src/merge3.rs:22-24 | when ours is unchanged, the merged file is exactly that of theirs if and only if the line condition holds and theirs is empty or ends in a newline, or ours does not |
| MergeFiles.JoinedIsTheirs | crates/txtodo-core/src/merge3.rs:94-120 | joined lines that are a file byte for byte are the lines of that file |
| MergeFiles.UnchangedTheirsAddsNewline | crates/txtodo-core/src/merge3.rs:111-120 | three small files: theirs is the base, and the file of ours gains a final newline |
| MergeFiles.UnchangedOursAddsNewline | crates/txtodo-core/src/merge3.rs:111-120 | three small files: ours is the base, the lines come out as theirs, and the file of theirs gains a final newline |
| Merge3.AddedLineFollowsItsPredecessor | crates/txtodo-core/src/merge3.rs:65-91 | each added line goes right after the nearest line before it in theirs that the result has, or first |
| Merge3.Counts | crates/txtodo-core/src/merge3.rs:102-108 | the map counts the copies of every line |
| Merge3.MarkExtra | crates/txtodo-core/src/merge3.rs:70-79 | marks the last copies of a line in theirs, as many as are owed |
| Merge3.InsertTheirs | crates/txtodo-core/src/merge3.rs:65-91 | the loop over theirs builds the merged lines |
| Merge3.Merge | crates/txtodo-core/src/merge3.rs:31-61 | the method's text is the merged lines joined |
| Merge3.ReadBack | crates/txtodo-core/src/merge3.rs:94-120 | the merged text reads back as the merged lines, but for a last blank with no newline after it |
| Merge3.MergedTextCopies | crates/txtodo-core/src/merge3.rs:31-120 | the merged file holds the wanted copies of every line if and only if the merged lines do not end in a blank with neither side ending in a newline |
| MergeOrder.EndIsTold | crates/txtodo-core/src/merge3.rs:65-91 | what the merged lines end in, and whether the slot is there, told from the kept and the extra lines alone |
| MergeOrder.LossIsTold | crates/txtodo-core/src/merge3.rs:31-120 | no line is lost if and only if a side ends in a newline or the end told from the three files is no blank |
| MergeOrder.NewlineKeepsAll | crates/txtodo-core/src/merge3.rs:111-120 | a newline at the end of either side, or no blank line wanted, is enough to lose none |
| Merge3.ABlankLineCanBeLost | crates/txtodo-core/src/merge3.rs:111-120 | three files whose merge loses the blank all of them hold |
| Dates.ReadNumber | crates/txtodo-core/src/types.rs:120-133 | the digit loop reads the number, and nothing on any non-digit |
| Dates.ParseShow | crates/txtodo-core/src/types.rs:65-104 | a date survives being printed and parsed |
| Dates.ShowParse | crates/txtodo-core/src/types.rs:65-104 | parsing accepts one spelling of each date |
| Dates.DateDigits | crates/txtodo-core/src/types.rs:65-104 | a printed date is its year in four digits, its month in two and its day in two, in that order |
| Dates.NextDayIsOneMore | crates/txtodo-core/src/universal.rs:16-29 | the next calendar day is one more, across month ends, leap days and 400-year eras |
| Dates.DayOneIsZero | crates/txtodo-core/src/universal.rs:16-29 | the count is zero on 1970-01-01 |
| Dates.CivilRises | crates/txtodo-core/src/universal.rs:16-29 | the count rises with the calendar, for all years |
| Dates.DaysBetweenMeasures | crates/txtodo-core/src/universal.rs:32-35 | day distances add up, are antisymmetric, zero only for equal dates, and signed by the calendar |
| RateLimit.Limiter.Allow | relay/src/ratelimit.rs:25-39 | the answer and the new windows are those of the value model, which `RateLimit.AllowedIffUnderCap` ties to the requests alone; other groups' windows stay |
| RateLimit.AtMostCapPerWindow | relay/src/ratelimit.rs:25-39 | over every run a fixed window allows at most the cap |
| RateLimit.AtMostTwiceCapPerInterval | relay/src/ratelimit.rs:25-39 | any half-open interval as long as a window sees at most twice the cap |
| RateLimit.GroupsAreIndependent | relay/src/ratelimit.rs:25-39 | a group is answered as if it were alone |
| RateLimit.AllowedIffUnderCap | relay/src/ratelimit.rs:25-39 | over every run, whatever the clock and the window, a request is allowed if and only if fewer than the cap of its group's requests came since its window opened: at the group's first request, and then at its first one a window's length or more after the last opener |
| RateLimit.FirstIsAllowed | relay/src/ratelimit.rs:25-39 | a group's first request is allowed unless the cap is zero |
| TodoFile.ParseFile | crates/txtodo-core/src/file.rs:40-136 | the lines, endings, BOM and dominant ending of any bytes, each line with the lenient parser's quirks and the mixed ending noted; `TodoFile.EndingIsMajority` and `FileEndings` say which ending that is and which lines are marked |
| TodoFile.ToBytes | crates/txtodo-core/src/file.rs:158-184 | the bytes of any list of lines, however it was rearranged |
| TodoFile.ParseThenWrite | crates/txtodo-core/src/file.rs:80-175 | reading and writing back reproduces every byte string |
| TodoFile.LinesAreNeverGlued | crates/txtodo-core/src/file.rs:153-175 | what is written of newline-free lines reads back as the same lines in the same order |
| TodoFile.EndingIsMajority | crates/txtodo-core/src/file.rs:139-151 | the file's ending is a carriage return and newline if and only if more places hold a line that ends so than hold one that ends in a newline alone |
| TodoFile.MissingEndingIsTheFiles | crates/txtodo-core/src/file.rs:158-184 | a line without an ending that is written before another gets the ending of the file it was read from |
| TodoFile.MarkIsKeptApart | crates/txtodo-core/src/file.rs:80-112 | a byte order mark in front changes nothing of what is read but that it was there |
| TodoFile.NewlineIsTheLastLines | crates/txtodo-core/src/file.rs:80-112 | the trailing newline is noted if and only if the last line has an ending |
| FileEndings.MixedIsOtherEnding | crates/txtodo-core/src/file.rs:88-93 | a line is marked as mixed if and only if it has an ending and not the file's; no line is marked so for its own text |
| FileEndings.OneEndingIsTheFiles | crates/txtodo-core/src/file.rs:80-151 | when all endings are the same one, it is the file's, and no line is marked |
| FileEndings.OneLineFile | crates/txtodo-core/src/file.rs:80-151 | all that is read from one letter and a newline |
| Scanner.ChunksCover | crates/txtodo-core/src/scanner.rs:22-42 | the chunks cover the text without gaps, words and whitespace in turn |
| Scanner.Chunks | crates/txtodo-core/src/scanner.rs:22-42 | the scanning loop yields those chunks |
| Words.TagOfKey | crates/txtodo-core/src/tokenize.rs:130-178 | a tag word is its key, a colon and a value that is not empty |
| Words.FoundWordIsTag | crates/txtodo-core/src/edit.rs:157-168 | the word found for a key is a tag of that key |
| Words.FindTagAppend | crates/txtodo-core/src/edit.rs:157-168 | words added at the end are looked at last |
| WordLists.SchemeIs | crates/txtodo-core/src/urls.rs:5-22 | the schemes are the eight names, in any case |
| WordLists.TagIsKeyWord | crates/txtodo-core/src/tokenize.rs:130-178 | a word is a tag of a key if and only if it is the key, a colon and a value, and the key is no scheme, holds no colon and starts with no sigil |
| WordLists.FindTagSplits | crates/txtodo-core/src/edit.rs:157-168 | the tag found for a key is the first tag of that key among the words, whitespace around it |
| WordLists.NoTagNoFind | crates/txtodo-core/src/edit.rs:157-168 | when none is found, no word is a tag of the key |
| LineParser.Parser.SeparatorStep | crates/txtodo-core/src/parse.rs:108-134 | the cursor's separator does what the value parser does, errors and quirks included |
| LineParser.Parser.Completed | crates/txtodo-core/src/parse.rs:138-155 | the lookahead over chunks decides completion as the text does |
| LineParser.Parser.TakePriorityStep | crates/txtodo-core/src/parse.rs:215-224 | takes a priority and its separator, or nothing |
| LineParser.Parser.TakeDateStep | crates/txtodo-core/src/parse.rs:228-242 | takes a date, refuses a date-shaped word in strict mode |
| LineParser.Parser.CompletedPrefixStep | crates/txtodo-core/src/parse.rs:178-206 | the completed prefix with its lenient places for a priority, as the value parser takes them; what that reads is `LenientLines.LenientReads` |
| LineParser.Parser.IncompletePrefixStep | crates/txtodo-core/src/parse.rs:209-212 | priority, then creation date |
| LineParser.Parser.DescriptionStep | crates/txtodo-core/src/parse.rs:254-287 | the separators of the description checked chunk by chunk, its text verbatim |
| LineParser.Parser.TaskStep | crates/txtodo-core/src/parse.rs:158-175 | prefix and description of a whole line |
| LineParser.ParseChunks | crates/txtodo-core/src/parse.rs:14-56 | the cursor over chunks returns what the value parser returns, for every line in both modes: strict reading is then told by `StrictLines.StrictAccepts` and `StrictErrors.StrictFault`, lenient by `LenientLines.LenientReads` and `Deviations.NotedIffDeviates` |
| Grammar.PrintedIsEmitted | crates/txtodo-core/src/format.rs:35-72 | the prefix formatter writes the grammar's own form |
| Grammar.StrictReadsPrinted | crates/txtodo-core/src/parse.rs:14-287 | strict reading accepts exactly the lines that some prefix and well-spaced description print as, and each as that one task; so printing after parsing is the identity |
| StrictLines.StrictAccepts | crates/txtodo-core/src/parse.rs:14-287 | strict reading accepts a line if and only if it is blank, or words with single spaces between them and no date-shaped word that is no day where a date may stand |
| StrictLines.PublishedIsWords | specs/todotxt.abnf:11-27 | as texts, the lines of the published grammar are the blank one and single-spaced words without control characters |
| StrictLines.StrictAndPublished | specs/todotxt.abnf:11-27 | a line strict reading accepts is in the published grammar if and only if it has no control character, and of that grammar it accepts exactly the lines with no such false date |
| StrictLines.BellIsAccepted | crates/txtodo-core/src/parse.rs:2-3 | a line strict reading accepts that is not in the published grammar |
| StrictErrors.StrictFault | crates/txtodo-core/src/parse.rs:78-134 | strict reading refuses a line at its first fault and names it: whitespace that is no single space between words, or a false date in the place of a creation date, with all text before it accepted; which of the rules is named follows from where the fault stands |
| Grammar.PrefixOver | crates/txtodo-core/src/parse.rs:158-251 | a printed prefix reads back as itself in both modes |
| Grammar.LenientRuns | crates/txtodo-core/src/parse.rs:254-287 | lenient reading never fails on a description |
| Completion.LenientIsTotal | crates/txtodo-core/src/parse.rs:14-56 | lenient reading never fails |
| LenientLines.PiecesRead | crates/txtodo-core/src/parse.rs:158-287 | a line put together from a mark, priorities, dates and a description with any whitespace between them, none of them missed, reads leniently as the task of those pieces and with exactly the quirks that the pieces' places, the gaps, the description and its reference call for |
| LenientLines.EveryLineIsLaidOut | crates/txtodo-core/src/parse.rs:158-287 | every line is put together so |
| LenientLines.LenientReads | crates/txtodo-core/src/parse.rs:14-287 | lenient reading gives a task and a set of quirks if and only if the line is laid out in pieces that make that task and call for those quirks |
| Deviations.NotedIffDeviates | crates/txtodo-core/src/parse.rs:14-287 | each quirk is noted of a line if and only if its deviation is in the text: indentation, whitespace at the end, a tab or a second space between words, a mark with no date after it, a priority word right after the mark or after the dates, a first reference that names no list |
| Deviations.PiecesByWords | crates/txtodo-core/src/parse.rs:178-206 | which pieces a marked line has, told from its words by their places |
| Deviations.RefIsNoted | crates/txtodo-core/src/parse.rs:35-41 | the reference quirk is noted if and only if the first `ref:` word of the description has a value that is no slug |
| Deviations.SlugIs | crates/txtodo-core/src/task.rs:13-28 | a slug is 1 to 64 of the published characters, the first a small letter or a digit |
| Deviations.PriorityBehindMarkReads | crates/txtodo-core/src/parse.rs:178-206 | a done line with its priority before one or two dates reads as done with all of them, and only that place is noted of its prefix |
| Deviations.EarlyPriorityIsRead | crates/txtodo-core/src/parse.rs:178-206 | what `x (A) 2026-01-01 foo` reads as |
| Completion.CompleteThenReopen | crates/txtodo-core/src/edit.rs:212-277 | for every open strict line, completing and reopening through text gives the line back if and only if it does not start with the word x, its description not with a priority word, and it has no pri tag of its own that interferes |
| Completion.RoundTripReturns | crates/txtodo-core/src/edit.rs:212-277 | the returning half, for every today |
| Completion.MarkerIsLost | crates/txtodo-core/src/edit.rs:212-277 | a leading x does not come back |
| Completion.OwnTagIsLost | crates/txtodo-core/src/edit.rs:224-238 | an interfering pri tag does not come back |
| Completion.PriorityFirstIsLost | crates/txtodo-core/src/edit.rs:224-238 | a description that starts with a priority word does not come back |
| Completion.BlankComesBack | crates/txtodo-core/src/edit.rs:212-312 | a blank line completed and reopened is blank again |
| Idempotence.CompleteTwice | crates/txtodo-core/src/edit.rs:122-126 | for every line and any two days, completing a completed line again changes nothing |
| Idempotence.ReopenTwice | crates/txtodo-core/src/edit.rs:127-131 | for every line, reopening again changes nothing if and only if the line was not a done one with no priority, creation date or pri letter whose description starts with the word x |
| Idempotence.ReopeningChanges | crates/txtodo-core/src/edit.rs:224-277 | reopening a line that reads as done always changes it |
| Idempotence.AgainInOneEdit | crates/txtodo-core/src/edit.rs:122-131 | repeated inside one edit, completing and reopening change nothing |
| Examples.ReopenedTwiceDiffers | crates/txtodo-core/src/edit.rs:127-131 | `x 2020-01-01 x foo` reopens to `x foo`, which reopening changes again |
| Examples.MarkerDoesNotComeBack | crates/txtodo-core/src/edit.rs:212-277 | `x foo` is an open line that does not come back |
| Examples.PriorityFirstDoesNotComeBack | crates/txtodo-core/src/edit.rs:224-238 | `2020-01-01 (A) t` is an open line that does not come back |
| Examples.OwnTagDoesNotComeBack | crates/txtodo-core/src/edit.rs:224-238 | `t pri:B` is an open line that does not come back |
| LineEditor.Editor.SetTag | crates/txtodo-core/src/edit.rs:170-177 | the draft's description becomes what the value function says, which `EditLaws.SetTagLaw` tells by its words |
| LineEditor.Editor.RemoveTag | crates/txtodo-core/src/edit.rs:180-194 | the draft's description becomes what the value function says, which `EditLaws.RemoveTagLaw` tells by its words |
| LineEditor.Editor.Append | crates/txtodo-core/src/edit.rs:196-201 | the text is put after the description, as `EditLaws.AppendLaw` tells of the line |
| LineEditor.Editor.Prepend | crates/txtodo-core/src/edit.rs:203-210 | the text is put before the description, as `EditLaws.PrependLaw` tells of the line |
| LineEditor.Editor.Complete | crates/txtodo-core/src/edit.rs:212-222 | the draft becomes the completed draft, its priority a pri tag |
| LineEditor.Editor.Uncomplete | crates/txtodo-core/src/edit.rs:224-238 | the draft becomes the reopened draft; the slice after pri: is never out of range |
| LineEditor.Editor.Apply | crates/txtodo-core/src/edit.rs:142-154 | each op does to the draft what its value function says; what that makes of a line is told op by op in `EditLaws` |
| LineEditor.Join | crates/txtodo-core/src/edit.rs:282-299 | trims or separates the prefix slice before the description |
| LineEditor.Apply | crates/txtodo-core/src/edit.rs:241-277 | the edited line, told op by op in `EditLaws`, with its ending kept; an opaque line or one not touched stays as it was, quirks included, and a rebuilt one has the quirks it reads with |
| LineEditor.DescriptionIsTail | crates/txtodo-core/src/format.rs:75-80 | the description is what the line ends with, so the split never falls outside it |
| LineEditor.UntouchedBytesStay | crates/txtodo-core/src/edit.rs:241-243 | the part not edited keeps its bytes |
| LineEditor.EditsKeepOneLine | crates/txtodo-core/src/edit.rs:55-131 | edits accepted by the builders never put a line break into a line |
| Rereads.ReadsBack | crates/txtodo-core/src/parse.rs:158-287 | a line put together from pieces and a description reads back as them if and only if the description does not start with a word that a missing piece would take |
| Respelled.PrintedReadsBack | crates/txtodo-core/src/format.rs:35-72 | a printed line reads back as its prefix and description under exactly that condition, indentation included |
| Respelled.PrefixEditReads | crates/txtodo-core/src/edit.rs:241-277 | for any edits that change the prefix: the line they print, and exactly when it reads as what they made of the draft |
| Respelled.DescriptionEditReads | crates/txtodo-core/src/edit.rs:241-299 | for any edits that change only the description: the bytes before it stay, and exactly when the line reads as what they made of the draft |
| EditLaws.SetPriorityOpen | crates/txtodo-core/src/edit.rs:144-144 | on any open line the priority set is the one read back, and all else reads as before if and only if the description was not indented |
| EditLaws.SetPriorityDone | crates/txtodo-core/src/edit.rs:252-258 | on any done line it becomes the first `pri:` word, in place or last; exactly when the rest reads as before |
| EditLaws.ClearPriorityLaw | crates/txtodo-core/src/edit.rs:145-145 | the line without its priority, and exactly when the rest reads as before |
| EditLaws.SetDescriptionLaw | crates/txtodo-core/src/edit.rs:146-146 | the new text stands where the old description did, and exactly when it reads as the description |
| EditLaws.DescriptionTaken | crates/txtodo-core/src/edit.rs:282-291 | with its description emptied, a line is what stood before it without the whitespace at the end, and reads so |
| EditLaws.AppendLaw | crates/txtodo-core/src/edit.rs:196-201 | appended text follows the line after one space; its words come last and the rest reads as before |
| EditLaws.PrependLaw | crates/txtodo-core/src/edit.rs:203-210 | prepended text starts the description, one space and the old description after it; the words in that order, and exactly when it reads so |
| EditLaws.SetTagLaw | crates/txtodo-core/src/edit.rs:170-177 | after a tag is set the prefix reads as before, the first tag of the key is the new one in the place of the old or last, and every other word of the description keeps its place |
| EditLaws.SetTagInText | crates/txtodo-core/src/edit.rs:170-177 | all text around the replaced tag stays |
| EditLaws.RemoveTagLaw | crates/txtodo-core/src/edit.rs:180-194 | after a tag is removed exactly that one word is gone; without one nothing changes |
| EditLaws.RemoveTagInText | crates/txtodo-core/src/edit.rs:180-194 | one space goes with it, the one before or else the one behind; exactly when the rest reads as the description |
| EditLaws.CompleteLaw | crates/txtodo-core/src/edit.rs:212-222 | what completing makes of any line and when it reads so, its priority the first `pri:` word; a done line stays |
| EditLaws.UncompleteLaw | crates/txtodo-core/src/edit.rs:224-238 | what reopening makes of any line and when it reads so, the letter of its first `pri:` word its priority; an open line stays |
| EditLaws.BuiltIff | crates/txtodo-core/src/edit.rs:55-121 | which arguments the builders take, and what they refuse the others for |
| EditLaws.BuyMilk | crates/txtodo-core/src/edit.rs:203-210 | `buy` prepended to `milk` |
| EditLaws.FooIsB | crates/txtodo-core/src/edit.rs:144-144 | the priority B set on `foo` |
| EditLaws.PrependedMarkIsTaken | crates/txtodo-core/src/edit.rs:203-210 | `x` prepended to `milk` makes a line that reads as done |
| Chips.ReopenWords | crates/txtodo-core/src/chips.rs:176-202 | the filtering loop drops the first pri word and remembers its letter, as the value form that `Toggles` proves things about |
| Chips.ToggleComplete | crates/txtodo-core/src/chips.rs:153-172 | the parts pushed are those of the value function |
| Chips.ToggleOpen | crates/txtodo-core/src/chips.rs:65-172 | what toggling writes for an open line, from the task the strict parser reads |
| Chips.AgreeOnOpen | crates/txtodo-core/src/chips.rs:153-172 | without a marker or glued text, both completions agree if and only if no priority meets a pri tag |
| Chips.DisagreeOnGlued | crates/txtodo-core/src/chips.rs:65-75 | text glued to a priority makes them differ |
| Chips.DisagreeOnMarker | crates/txtodo-core/src/chips.rs:142-172 | a leading x makes them differ |
| Chips.CompletionsAgree | crates/txtodo-core/src/chips.rs:153-172 | the two implementations of completing a line agree if and only if the line has no leading x, no glued priority, and no priority beside a pri tag |
| Examples.GluedIsCompletedTwoWays | crates/txtodo-core/src/chips.rs:65-75 | `(A)foo` is an open line the two completions write differently |
| Examples.MarkerIsCompletedTwoWays | crates/txtodo-core/src/chips.rs:142-172 | `x foo` is an open line the two completions write differently |
| Examples.TagIsCompletedTwoWays | crates/txtodo-core/src/chips.rs:153-172 | `(A) t pri:B` is an open line the two completions write differently |
| Toggles.ToggleTwice | crates/txtodo-core/src/chips.rs:142-202 | toggling an open line twice gives it back if and only if it does not start like a completed line, no text is glued to a priority, and from its first pri word on every word is its own priority's tag |
| Toggles.OpenTogglesBack | crates/txtodo-core/src/chips.rs:153-202 | for lines without a mark or glued text, exactly the condition on the tags |
| Toggles.GluedComesApart | crates/txtodo-core/src/chips.rs:65-75 | text glued to a priority comes back apart from it |
| Toggles.FakeMarkIsLost | crates/txtodo-core/src/chips.rs:142-149 | a line that only looks completed does not come back |
| Examples.FalseMarkDoesNotToggleBack | crates/txtodo-core/src/chips.rs:142-149 | `x 2020-13-01 foo` is an open line that does not toggle back |
| Examples.GluedDoesNotToggleBack | crates/txtodo-core/src/chips.rs:65-75 | `(A)foo` is an open line that does not toggle back |
| Examples.OwnTagDoesNotToggleBack | crates/txtodo-core/src/chips.rs:176-202 | `t pri:B` is an open line that does not toggle back |
| TodoLines.LinesWithIdsAreTasks | crates/txtodo-core/src/file.rs:41-54 | a line with an id is a text line that is not blank, and only the empty line is blank; which lines have one is `LineIds.IdIsFirstIdWord` |
| LineIds.UlidIsText | crates/txtodo-core/src/ulid.rs:26-46 | the ids accepted are the 26-letter words over the Crockford alphabet that start at most with 7 |
| LineIds.TaskIdIsFirst | crates/txtodo-core/src/task.rs:90-93 | a task has an id if and only if the first `id:` word of its description, told from the words alone, is `id:` and that id |
| LineIds.IdIsFirstIdWord | crates/txtodo-core/src/task.rs:90-93 | the same for any line; blank and undecodable lines have no words |
| ChangedLines.ChangeUnderId | crates/txtodo-core/src/diff.rs:84-125 | a line that changed under its id is one change in every diff, for every hash |
| ChangedLines.EditUnderId | crates/txtodo-cli/src/daemon_mode.rs:213-331 | unless it was completed, what is sent is one edit that names it by number and id |
| ChangedLines.WrittenOut | crates/txtodo-cli/src/daemon_mode.rs:213-331 | that diff and that plan for two lines written out, whatever the hash |
| PlanCheck.Replay | crates/txtodo-cli/src/plan_check.rs:32-69 | the growing and shrinking list ends as the replay function says, skips a mutation of no kind, and stops where the daemon would refuse |
| PlanCheck.ReplayedAppend | crates/txtodo-cli/src/plan_check.rs:32-69 | replaying two lists in turn is replaying them joined |
| PlanCheck.MoveAmongTasks | crates/txtodo-cli/src/plan_check.rs:60-63 | among tasks a line sent to the end lands after all the others |
| PlanLaws.AddStep | crates/txtodo-cli/src/plan_check.rs:16-64 | an added line goes after the last line that is not blank |
| PlanLaws.MoveStep | crates/txtodo-cli/src/plan_check.rs:16-63 | so does a line sent to the end |
| PlanLaws.CompleteStep | crates/txtodo-cli/src/plan_check.rs:40-51 | a completed line stays where only blanks follow it, and else goes there; a completion that changes nothing moves nothing |
| PlanLaws.InPlaceSteps | crates/txtodo-cli/src/plan_check.rs:36-59 | an edit and a delete act on the named line alone |
| PlanLaws.RefusedSteps | crates/txtodo-cli/src/plan_check.rs:25-69 | numbers that name no line or a blank one, and a completion on no day, are refused |
| CompletePlan.Plan | crates/txtodo-cli/src/complete_plan.rs:82-114 | the pass over the old file returns the plan function's plan |
| CompletePlan.CompletionIsDaemons | crates/txtodo-cli/src/complete_plan.rs:19-39 | a completion read off two lines is what the daemon's own completion writes, its date surviving print and parse |
| PlanLaws.CompletionIsSeen | crates/txtodo-cli/src/complete_plan.rs:19-39 | and every open line completed on a day is seen as its completion on that day |
| PlanLaws.OneCompletion | crates/txtodo-cli/src/complete_plan.rs:82-114 | the plan of a file of one line that was completed |
| PlanLaws.KeysAreIds | crates/txtodo-cli/src/complete_plan.rs:41-57 | two task lines have one key if and only if they share an id, or have none and are equal |
| CompletePlan.CompleteAmongTasks | crates/txtodo-cli/src/plan_check.rs:40-51 | completing a line among tasks moves it after all the others, the last one included |
| CompletePlan.HalfwayDone | crates/txtodo-cli/src/complete_plan.rs:100-112 | the k-th completed line stands k places higher, and joins the done ones |
| CompletePlan.PlannedReplays | crates/txtodo-cli/src/complete_plan.rs:88-112 | after any part of the plan the file is open lines, lines to come, done lines |
| CompletePlan.PlanReproduces | crates/txtodo-cli/src/complete_plan.rs:82-114 | a returned plan replayed on the old file gives exactly the new one |
| CompletePlan.CounterpartIs | crates/txtodo-cli/src/complete_plan.rs:66-78 | the place found for a line is the one of its key, or, when no line has that key, its only completion |
| CompletePlan.PlanIffCompleted | crates/txtodo-cli/src/complete_plan.rs:82-114 | a plan is returned if and only if both files are as long, no line is blank or keyed like another, and the new one is the old one with some lines completed and moved last, each kind in old order, under numbers that fit |
| LineEdits.EditsReplay | crates/txtodo-cli/src/plan_check.rs:36-39 | what edits under the old numbering leave, numbers that saturate included |
| LineEdits.EditsReachTarget | crates/txtodo-cli/src/daemon_mode.rs:180-194 | edits give the target if and only if every changed line can be numbered |
| ArchivePlan.Edits | crates/txtodo-cli/src/archive_plan.rs:48-65 | one edit per changed line, under the old numbering |
| ArchivePlan.Moves | crates/txtodo-cli/src/archive_plan.rs:70-84 | one move per done line, each numbered past the moves before it |
| ArchivePlan.Plan | crates/txtodo-cli/src/archive_plan.rs:90-109 | the plan function's plan |
| ArchivePlan.MovesReplay | crates/txtodo-cli/src/archive_plan.rs:67-84 | the moves put the done lines after the open ones, both in old order, whatever the lines say |
| ArchivePlan.PlanReproduces | crates/txtodo-cli/src/archive_plan.rs:90-109 | a returned plan gives exactly the new file if and only if every changed line can be numbered |
| ArchivePlan.PlanIffArchived | crates/txtodo-cli/src/archive_plan.rs:86-109 | a plan is returned if and only if the new file has the same distinct ids, done lines last, each kind in old order, some line moved, and the batch and its numbers fit |
| PlanLaws.DoneByText | crates/txtodo-cli/src/archive_plan.rs:36-40 | the lines archived start with the word x and a space, and read as done |
| PlanLaws.OneArchived | crates/txtodo-cli/src/archive_plan.rs:90-109 | the plan of a done line above an open one |
| DiffPlan.Classify | crates/txtodo-cli/src/daemon_mode.rs:213-248 | the steps sorted into kinds, or nothing at the first step no mutation expresses |
| DiffPlan.PairBlanks | crates/txtodo-cli/src/daemon_mode.rs:307-313 | each inserted blank takes one delete of its own index, or there is no plan |
| DiffPlan.BottomUpReorders | crates/txtodo-cli/src/daemon_mode.rs:314-314 | sorting the deletes loses none |
| DiffPlan.PlanFromDiff | crates/txtodo-cli/src/daemon_mode.rs:281-330 | the diff's plan, as a function of the steps |
| InPlacePlans.DeletesReplay | crates/txtodo-cli/src/daemon_mode.rs:262-264 | deletes from the bottom up name every line as the old file numbered it |
| InPlacePlans.LineByLineReproduces | crates/txtodo-cli/src/daemon_mode.rs:274-331 | steps that only keep, edit and delete tasks always become a plan that gives the new file |
| InPlacePlans.BlanksLeft | crates/txtodo-cli/src/daemon_mode.rs:213-248 | when every old line is kept, changed or deleted, the old blanks are the new ones and those deleted |
| InPlacePlans.ShrunkIsPlanned | crates/txtodo-cli/src/daemon_mode.rs:274-331 | when the new file is the old one by key with some lines left out, ids or none, and no key joins a blank or undecodable line to a different one, a plan goes out and gives the new file if and only if no blank was left out |
| InPlacePlans.SameOrderIsEdits | crates/txtodo-cli/src/daemon_mode.rs:274-331 | lines that stay where they are become one edit per changed line |
| DiffPlan.DiffNeverMixes | crates/txtodo-cli/src/daemon_mode.rs:300-306 | a diff's plan never deletes and appends |
| AlignedDiffs.SameIsMatched | crates/txtodo-core/src/diff.rs:97-153 | when keys agree only in the same places, every such place is matched where it is |
| AlignedDiffs.AlignedStays | crates/txtodo-core/src/diff.rs:97-153 | such a diff moves nothing, deletes and inserts only in the other places, and takes both files in order |
| AlignedDiffs.PrefixStays | crates/txtodo-core/src/diff.rs:97-153 | when the new file starts with the old one's keys, the diff matches every old line where it stands and only inserts, whatever keys repeat |
| AlignedPlans.ClassifiedWalk | crates/txtodo-cli/src/daemon_mode.rs:213-248 | what its steps are sorted into, step by step |
| AlignedPlans.PairedInTurn | crates/txtodo-cli/src/daemon_mode.rs:307-313 | blanks inserted where lines were deleted each mark that line's delete |
| AlignedPlans.TailIsNewFrom | crates/txtodo-cli/src/daemon_mode.rs:197-203 | when only the end of the file is new, the append check passes |
| AlignedPlans.AddsReplay | crates/txtodo-cli/src/plan_check.rs:64-64 | appends after a last task land at the end in their order |
| AlignedPlans.BlankStaysLast | crates/txtodo-cli/src/plan_check.rs:16-24 | a blank last line stays last under any appends |
| AlignedPlans.BlanksReplay | crates/txtodo-cli/src/plan_check.rs:52-59 | deletes that leave blanks give the new file under the old numbering |
| AlignedPlans.AppendedIsPlanned | crates/txtodo-cli/src/daemon_mode.rs:274-331 | tasks appended after edits in place always become a plan, whatever keys repeat, and it gives the new file if and only if the old one did not end in a blank line |
| AlignedPlans.BlankedIsPlanned | crates/txtodo-cli/src/daemon_mode.rs:274-331 | tasks deleted with a blank left in their place become a plan that gives the new file, when no line that stays is keyed like another and none like a blank |
| DaemonMode.PlanMutations | crates/txtodo-cli/src/daemon_mode.rs:265-331 | whatever is returned reproduces the new file, names old lines by their numbers and ids, and never mixes deletes with appends; a completion comes first, then an archive; lines that stay or change under their id get a plan if and only if it is a completion or every number fits; lines left out, ids or none, if and only if no blank is among them, as long as no key joins a blank or undecodable line to a different one; appended tasks if and only if the old file did not end in a blank; tasks blanked in a file with no blank line, beside lines with keys of their own and none keyed like a blank, always |
| PlanRefs.DiffNames | crates/txtodo-cli/src/daemon_mode.rs:180-194 | every reference of a diff's plan carries the number of an old line and that line's id |
| PlanRefs.OtherPlansName | crates/txtodo-cli/src/daemon_mode.rs:180-194 | so does every reference of a completion or an archive, the number counted after the lines above that went to the end |
| BundleWire.ToLittleEndian | crates/txtodo-daemon/src/bundle_wire.rs:55-62 | the length prefix reads back as the length |
| BundleWire.LowestByteFirst | crates/txtodo-daemon/src/bundle_wire.rs:55-62 | the four bytes of the prefix, the lowest first |
| BundleWire.BundleRecordReader.Feed | crates/txtodo-daemon/src/bundle_wire.rs:98-108 | the loop returns every whole record in carry and piece, keeps the rest, or refuses as reading does |
| BundleWire.BundleRecordReader.TryTakeOne | crates/txtodo-daemon/src/bundle_wire.rs:111-128 | one record off the front, nothing yet, or the refusal |
| BundleWire.LeftoverIsShort | crates/txtodo-daemon/src/bundle_wire.rs:88-90 | a reader never holds on to a whole record or more than one |
| BundleWire.ReadInPieces | crates/txtodo-daemon/src/bundle_wire.rs:98-128 | reading in two pieces, cut anywhere, is reading whole |
| BundleWire.CutsDoNotMatter | crates/txtodo-daemon/src/bundle_wire.rs:98-128 | any partition gives the same records, the same refusal, the same leftover |
| BundleWire.StreamReadsBack | crates/txtodo-daemon/src/bundle_wire.rs:55-128 | a stream reads back as its records up to the first over the cap, which is refused |
| BundleWire.BadBodyIsRefused | crates/txtodo-daemon/src/bundle_wire.rs:98-128 | a body the codec refuses stops the reading, after all the records before it |
| BundleWire.CutStream | crates/txtodo-daemon/src/bundle_wire.rs:98-137 | a stream cut anywhere reads as the records that end by then, the bytes after them left over |
| BundleWire.CutIsTruncated | crates/txtodo-daemon/src/bundle_wire.rs:131-137 | a cut leaves nothing over if and only if it falls between records |
| BundleChunks.FullChunks | crates/txtodo-daemon/src/bundle_export.rs:95-112 | every chunk but the last holds exactly the maximum |
| BundleChunks.LastChunk | crates/txtodo-daemon/src/bundle_export.rs:114-118 | the last chunk is shorter, possibly empty |
| BundleChunks.PiecesMakeStream | crates/txtodo-daemon/src/bundle_export.rs:95-118 | the chunks put together are the stream |
| BundleChunks.CutGrows | crates/txtodo-daemon/src/bundle_export.rs:95-103 | more bytes leave the full chunks as they were |
| BundleChunks.ChunkWriter.WriteRecord | crates/txtodo-daemon/src/bundle_export.rs:95-103 | after each record, everything written is in full sealed chunks handed over or in the buffer, short of one more; a record the codec refuses changes nothing, and a refusal of the cipher or the sink is the first of the stream |
| BundleChunks.ChunkWriter.FlushFullChunk | crates/txtodo-daemon/src/bundle_export.rs:105-112 | one full chunk leaves the buffer, sealed under the next number and handed over, or is refused by the cipher or the sink |
| BundleChunks.ChunkWriter.Finish | crates/txtodo-daemon/src/bundle_export.rs:114-118 | the rest is sealed as the last chunk, and the whole stream is sealed and handed over, or refused |
| BundleChunks.RefusalStays | crates/txtodo-daemon/src/bundle_export.rs:95-112 | the first chunk refused decides the outcome, whatever would have come after it |
| BundleChunks.EarlyRefusal | crates/txtodo-daemon/src/bundle_export.rs:95-118 | a refusal among the first records is the outcome of the whole stream |
| BundleChunks.Export | crates/txtodo-daemon/src/bundle_export.rs:95-118 | writing all records seals the stream of them, or reports the first refusal of the cipher or the sink before the first record the codec refuses, or that record's |
| BundleChunks.StreamIsSent | crates/txtodo-daemon/src/bundle_export.rs:95-118 | a stream is handed over if and only if each piece is sealed in its place and taken by the sink, and otherwise the first that is not says which refused it |
| BundleChunks.ExportIsSent | crates/txtodo-daemon/src/bundle_export.rs:95-118 | an export goes through if and only if the codec takes every record and every piece is handed over; exactly when the codec's refusal is what is reported |
| BundleImport.DecryptAllRecords | crates/txtodo-daemon/src/bundle_import.rs:106-138 | the lookahead loop opens each chunk in its place, the last as the last, and reports the first error in order: no key, a failing source, a chunk that does not open, a record that does not read |
| BundleImport.NoKeyNoImport | crates/txtodo-daemon/src/bundle_import.rs:106-111 | without a key nothing imports |
| BundleImport.ImportStops | crates/txtodo-daemon/src/bundle_import.rs:106-138 | once some chunks have opened and read, what the next one makes of the import: a failing source, a chunk that does not open, a record that does not read, or, at the last, the records of all of them |
| BundleImport.ExportThenImport | crates/txtodo-daemon/src/bundle_import.rs:106-138 | a sealed stream of records comes back as those records if and only if none is over the cap, else as the refusal of the first that is |
| BundleImport.NoneOrAllChunks | crates/txtodo-daemon/src/bundle_import.rs:104-138 | chunks of a bundle that import are none at all or all of them, once each, in order |
| BundleImport.OnlyTheWholeBundle | crates/txtodo-daemon/src/bundle_import.rs:104-138 | of a bundle's chunks, however delivered, an import accepts exactly none at all, read as an empty bundle, or the whole bundle with no record over the cap, and only from a source that does not fail |
| BundleImport.VerifyFileSet | crates/txtodo-daemon/src/bundle_import.rs:217-243 | accepts if and only if the files received are the manifest's, each once, each hashing to what it claims; the first file that is wrong says which error it is |

## Left out

- Characters and bytes: text is a sequence of characters, a file a sequence of bytes; UTF-8 is a parameter where a file is read, and otherwise not modelled. A line whose bytes are not text is opaque, never equal to text and never parsed.
- The FNV hash, the postcard codec, the cipher and blake3 are parameters; the bundle results ask of them that decoding undoes encoding, that a sealed chunk opens to what it sealed, and only in its own place. A sink answers by the chunk and its number alone.
- A ULID is its text; the bits it stands for are not computed. Each value has one spelling, so equality is the same.
- Machine arithmetic: counts and offsets are unbounded except where the code checks or saturates (line numbers, batch size, record lengths, the limiter's clock).
- The words of error messages, tracing and debug assertions as such; what the assertions claim is proved where it matters.
- I/O, the clock and the network: `today`, the limiter's clock, what a source yields and the files are arguments.
- Loro: the evolving text that the replay drives is modelled, its merge is not.
- The kinds of mutation a plan never holds are one kind, which the replay refuses; a mutation that names no task is one that names line zero.
- The token spans of the tokenizer, the caret of a chip, the priority chip, and the grouping of the universal view are left out.
- The daemon's actors, its store, the control channel and the desktop are not part of this model.
- Staging of bundle records, signatures, the clear header and manifest frames, and what is written to disk after the checks.
- DaemonMode.PlanMutations: beyond the shapes its contract names (a completion, an archive, edits in place, tasks left out, blanked or appended) it says only that what it returns reproduces the new file. Tasks blanked beside lines that stay and share a key, or in a file that has blanks already, may pair with another line's delete, so nothing is promised there.
- Merge3.MarkExtra, Merge3.InsertTheirs: nested loops of one function are separate methods here, with the loops' own order kept.
