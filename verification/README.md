# DeusWatch agent: verified models

This project models the parts of the DeusWatch endpoint agent (and two worker algorithms) whose
correctness is not visible from one function: the line diff behind file-integrity alerts, the
benchmark rule language, the store-and-forward buffer and its drain loop, the real-time trigger,
the snapshot uploader, the integrity scanner with its snapshot stores, the kill-switch, host
isolation and the block list, the OSV scan, the executable-hash cache, the `/proc/<pid>/stat`
parsers and the report schedule. `dafny verify dfyconfig.toml` checks all of it.

## How it is organised

| file | what it holds |
|---|---|
| `Text.dfy` | the operations of Go's `strings` package the other modules need, with their laws |
| `LineDiff.dfy` | LCS table, edit script, 200-line cap, large-file summary |
| `RuleLanguage.dfy` | syntax tree, parser and printer of benchmark rules; the round trip |
| `RuleEvaluator.dfy` | the meaning of a rule on a host, and the evaluator that works on the text |
| `RuleLaws.dfy` | what rule texts say about a host, in the host's own terms |
| `Benchmark.dfy` | all/any/none, checks and policies, laws of the verdicts |
| `StoreForward.dfy` | buffer file names, sorted listings by name and by stamp, the disk buffer as an object |
| `Delivery.dfy` | flush, save, prune and drain as an interleaved protocol |
| `Watcher.dfy` | event loop, debounce timer, one-slot trigger and scan loop as a protocol in time |
| `Uploader.dfy` | the snapshot uploader loop |
| `Fim.dfy` | the snapshot stores and the integrity scanner |
| `Versions.dfy` | captures, restores and restarts over any history of the files |
| `KillSwitch.dfy` | the kill decision and the kill against a changing process table |
| `Firewall.dfy` | nftables scripts with a packet semantics, and the block list |
| `Containment.dfy` | the isolation table and the containment poll loop |
| `OsvScan.dfy` | the OSV scans of the worker |
| `HashCache.dfy` | the executable-hash cache |
| `ProcStat.dfy` | the two parsers of a stat line |
| `Schedule.dfy` | the report schedule |

Code that loops or updates state is a method or a class proved against a function or relation on
values; the claims over whole histories are lemmas about that function or relation. Concurrent
parts are step relations in which every file, network or channel operation is one step. Clocks,
the network, the file system, the process table and library functions whose internals do not
matter (regular expressions, SHA-256, IP parsing, `strings.ToLower` on process names, path
cleaning) are parameters, quantified over.

## What the source does that its comments do not say

For each of these, one lemma gives inputs on which the expected property fails, and another one
the exact condition under which it holds.

- A diff of exactly 200 changed lines is complete and still carries the truncation marker: that of
  an empty text file that gets 200 lines is one (`CompleteDiffIsMarked`, `MarkerVersusTruncation`).
- A change that only rewrites line endings has an empty diff (`LineEndingsGoUnreported`,
  `EmptyIffSameUpToLineEndings`).
- A second `not` is rejected as an unknown rule type, so prefixing `not` negates a rule exactly
  when it is not negated already, or cannot be evaluated anyway (`SecondNotIsRejected`,
  `NotFormNegates`, `AllIsNoneOfNotForms`).
- A resent batch whose removal fails is delivered again by the next pass (`FailedRemovalRepeats`),
  and file names follow the wall clock, so after it was set back the later batch leaves first
  (`ClockSetBackReorders`); delivery in save order without repetition holds exactly when neither
  happens (`OrderKeptExactlyWhen`). No batch is lost either way (`NothingLost`).
- For the same reason a save can succeed and drop the very batch it saved (`DroppedByOwnSave`); the
  batch survives exactly when fewer than max batches have later names (`SurvivesOwnSave`).
- After a failed POST the uploader may send more than 7 MiB (`OversizedAfterFailure`) or more than
  100 items (`OvercountAfterFailure`) at once. Every POST of every run respects the limits exactly
  when the POSTs triggered by arrivals do not fail; failing ticks do no harm
  (`LimitsKeptExactlyWhen`).
- `ClearIsolation` ignores the error of `nft delete`, and the loop then forgets the table
  (`FailedClearIsForgotten`): the flag describes the kernel exactly when no failed clear is
  outstanding (`FlagDescribesTable`), and such a table, like one found after a restart, is never
  lifted (`OrphanIsNeverLifted`).
- The allow-list key joins with commas, so an address holding a comma can hide a new order
  (`CommaHidesAnOrder`); an order is in force exactly when it is not skipped or has the same
  possible addresses as the standing one (`InForceExactlyWhen`), as it always has when no address
  holds a comma (`LastOrderIsInForce`).
- The kill signal is sent by process id, so it can hit another process if the target exits between
  lookup and kill (`SignalCanHitAnother`). That it hits the detected one is guaranteed exactly when
  no time passes in between, or when the kill is accepted and `failed` is reported all the same;
  `killed` does not tell (`SureHitExactlyWhen`).
- The hash cache files the digest it read under the size and mtime it statted before, so a
  replacement in between leaves a wrong digest (`RaceLeavesWrongDigest`). An answer is sure to be
  current exactly when stat and read are one moment, for the lookup itself and for every lookup of
  the same path that stored within the last 30 minutes (`CurrentExactlyWhen`).
- A baseline snapshot is looked for first and written later, so of two sources that watch the same
  path the second write can replace the first (`SecondWriteWins`); the original is preserved exactly
  when no path is watched by two sources (`FirstWinsExactlyWhen`).
- A latest summary that cannot be read counts as none, and is repeated ten minutes later
  (`UnreadableSummaryIsRepeated`); summaries keep their distance exactly when it can always be read
  (`DistanceKeptExactlyWhen`).
- A pinned schedule whose interval is one hour more than whole days depends on the minutes of the
  ticks (`MinutesDecide`, `DayDecidesExactlyWhen`).
- Debouncing alone gives no upper bound on the delay of a scan (`BurstPostpones`): a callback can
  start before the next event re-arms the timer exactly when the gap reaches the debounce interval
  (`GapDecides`).

## Model

| member | source | states |
|---|---|---|
| LineDiff.FillTable | internal/agent/fimdiff.go:120-135 | every table cell is the length of a longest common subsequence of the two suffixes: some common subsequence has that length and none is longer |
| LineDiff.LcsLenIsLongest | internal/agent/fimdiff.go:125-135 | the recurrence of the table computes the maximum over all common subsequences |
| LineDiff.WalkTurns | internal/agent/fimdiff.go:142-168 | the uncapped walk is a script that reads the old lines, writes the new lines and keeps as many lines as a longest common subsequence has |
| LineDiff.WalkIsShortest | internal/agent/fimdiff.go:102-168 | the walk makes m+n-2·lcs changes, and no script from the old to the new lines makes fewer |
| LineDiff.EmitChanges | internal/agent/fimdiff.go:137-173 | the loops with their early exits output the first 200 changes of that script, and the marker from 200 changes on |
| LineDiff.MarkerVersusTruncation | internal/agent/fimdiff.go:138-172 | the marker appears exactly from 200 changes on, while changes are left out exactly from 201 on |
| LineDiff.CompleteDiffIsMarked | internal/agent/fimdiff.go:137-174 | when an empty text gets 200 lines all of them are shown and the diff is marked as truncated |
| LineDiff.CountDifferences | internal/agent/fimdiff.go:179-195 | added and removed are the sizes of the two line-multiset differences, whatever order the map is ranged over |
| LineDiff.SummaryIsLowerBound | internal/agent/fimdiff.go:116-118 | old lines minus removed equals new lines minus added, and neither count exceeds that of any script between the two texts, the full diff included |
| LineDiff.UnifiedDiff | internal/agent/fimdiff.go:106-174 | the text returned: empty for equal texts, the summary above the cell limit, else the joined report of the shortest script |
| LineDiff.EmptyIffSameUpToLineEndings | internal/agent/fimdiff.go:106-112 | exactly when the diff is empty |
| LineDiff.LineEndingsGoUnreported | internal/agent/fimdiff.go:106-112 | rewriting the line ending of any one-line text gives an empty diff |
| LineDiff.ReportReadsBack | internal/agent/fimdiff.go:169-174 | splitting a diff text at newlines gives back the reported lines |
| LineDiff.ReportSays | internal/agent/fimdiff.go:137-174 | each shown line is + and a line of the new text for an addition, - and a line of the old text for a removal |
| LineDiff.RemovalsFirst | internal/agent/fimdiff.go:142-168 | for texts without a common line all removals are shown before all additions |
| LineDiff.SummaryReadsBack | internal/agent/fimdiff.go:194-198 | above two million cells, cutting the text at its phrases gives back the lines added, the lines removed and the two lengths |
| LineDiff.UnixTextReplaces | internal/agent/fimdiff.go:200-205 | line endings are replaced by cutting at every CR LF and joining with LF |
| LineDiff.SplitLinesFaithful | internal/agent/fimdiff.go:200-205 | the lines are newline-free, rejoin to the normalised text, and are none only for the empty text |
| RuleRoundTrip.CompareReadsBack | internal/agent/sca_policy.go:325 | the numeric-compare pattern, lazy prefix included, reads back pattern, operator and number of every printed comparison |
| RuleRoundTrip.AtomReadsBack | internal/agent/sca_policy.go:348-370 | every printed content test reads back as the same kind of test |
| RuleRoundTrip.TestReadsBack | internal/agent/sca_policy.go:331-346 | a chain of tests joined by && reads back test by test, blank tests and the empty chain included |
| RuleRoundTrip.ArrowSplits | internal/agent/sca_policy.go:440-443 | only the first arrow splits: a test holding further arrows survives whole |
| RuleRoundTrip.BodyReadsBack | internal/agent/sca_policy.go:229-321 | each of the five rule kinds with its arrow chain reads back |
| RuleRoundTrip.RuleReadsBack | internal/agent/sca_policy.go:212-227 | parsing the text of a writable rule, negated or not, gives the rule |
| RuleEvaluator.MatchOne | internal/agent/sca_policy.go:348-437 | one content test on text is the meaning of the test it denotes, errors included |
| RuleEvaluator.MatchTest | internal/agent/sca_policy.go:331-346 | a chain stops at the first answer other than true, which is the meaning of the parsed chain |
| RuleEvaluator.MatchEntries | internal/agent/sca_policy.go:259-286 | the directory loop returns the first error or success among the entries |
| RuleEvaluator.EvalPositive | internal/agent/sca_policy.go:229-321 | on every text and host the answer is the meaning of the parsed body, malformed text included |
| RuleEvaluator.EvalRule | internal/agent/sca_policy.go:212-227 | on every text and host the answer is the meaning of the parsed rule |
| RuleEvaluator.PrintedRuleMeans | internal/agent/sca_policy.go:200-227 | evaluating the text of a writable rule gives the rule's own meaning on every host |
| RuleLaws.BareRules | internal/agent/sca_policy.go:229-321 | a rule without a test holds exactly when the file, directory, command output or registry key is there or the process runs; not reverses it |
| RuleLaws.MissingIsNo | internal/agent/sca_policy.go:239-321 | a missing file, directory or registry value, or a command that cannot run, makes a rule with any test false |
| RuleLaws.ValuePresent | internal/agent/sca_policy.go:300-316 | a registry rule with a value name holds exactly when the value is there |
| RuleLaws.TestsAreUniform | internal/agent/sca_policy.go:229-321 | the same test on the same text gives the same verdict for a file, a command's output and a registry value |
| RuleLaws.SearchRules | internal/agent/sca_policy.go:355-361 | r: holds exactly when the pattern compiles and matches, !r: exactly when it compiles and does not match, and otherwise neither can be evaluated |
| RuleLaws.CaptureSearches | internal/agent/sca_policy.go:362-365 | n: without a comparison searches like r: |
| RuleLaws.LiteralRules | internal/agent/sca_policy.go:366-369 | plain text holds exactly when it occurs in the content, and !text exactly when it does not |
| RuleLaws.ComparisonRules | internal/agent/sca_policy.go:398-437 | a numeric comparison holds exactly when the pattern compiles and finds a number in the relation its operator text names; no number found is false, a target out of range unevaluable |
| RuleLaws.NumbersCompare | internal/agent/sca_policy.go:398-437 | between two written 64-bit numbers the comparison is the one of the operator text |
| RuleLaws.ChainRules | internal/agent/sca_policy.go:336-345 | t && u gives the second verdict when the first is true, and else the first |
| RuleLaws.BlankTests | internal/agent/sca_policy.go:348-351 | a blank test in a chain is true |
| RuleLaws.DirNameRules | internal/agent/sca_policy.go:259-273 | a directory rule holds exactly when some entry's name matches |
| RuleLaws.DirContentRules | internal/agent/sca_policy.go:259-286 | with a content pattern it holds exactly when some matching entry can be read under the directory and its content matches |
| RuleLaws.DirFirstError | internal/agent/sca_policy.go:264-268 | a name pattern that does not compile makes a directory rule unevaluable as soon as there is an entry |
| RuleLaws.TrailingSlashes | internal/agent/sca_policy.go:274 | slashes at the end of the directory do not change where its entries are read |
| RuleLaws.SpellingDoesNotMatter | internal/agent/sca_policy.go:212-239 | letter case of not and of the rule type, and blanks around a rule, do not change the verdict |
| RuleLaws.UnknownRulesErr | internal/agent/sca_policy.go:229-233 | a text without a colon or with an unknown type cannot be evaluated |
| Benchmark.EvalCondition | internal/agent/sca_policy.go:161-198 | no rules, the first rule error, an unknown condition, or the combinator over the rule verdicts |
| Benchmark.ConditionWords | internal/agent/sca_policy.go:173-197 | on rules that do not err, any asks for some true rule, none for no true rule, all and the empty word for every rule, in any letter case; another word is an error |
| Benchmark.Applies | internal/agent/sca_policy.go:123-129 | a policy applies without requirements or when they hold; an unevaluable requirement means it does not |
| Benchmark.Evaluate | internal/agent/sca_policy.go:132-158 | one result per check, in order |
| Benchmark.ResultSays | internal/agent/sca_policy.go:132-158 | a result names its policy and check, passes or fails with the condition, and gives the reason of the first rule that cannot be evaluated |
| Benchmark.FailedExactlyWhen | internal/agent/sca_policy.go:143-154 | a check is failed exactly when it has rules, none errs, the condition is known and does not hold; not applicable exactly when one of these is missing |
| Benchmark.OrderDoesNotMatter | internal/agent/sca_policy.go:161-198 | the verdict class depends only on which rules a check has |
| Benchmark.NoneNegatesAny | internal/agent/sca_policy.go:181-194 | none is the negation of any |
| Benchmark.NotFormNegates | internal/agent/sca_policy.go:212-227 | prefixing not negates a rule's verdict if and only if the rule is not negated already or errs |
| Benchmark.SecondNotIsRejected | internal/agent/sca_policy.go:212-227 | a negated process rule has a verdict on every host, and errs once another not is put in front |
| Benchmark.AllIsNoneOfNotForms | internal/agent/sca_policy.go:173-194 | all over rules agrees with none over their not forms if and only if no rule is negated already or some rule errs |
| BufferNames.NamesSortByStamp | internal/agent/buffer.go:39 | file names sort by time stamp, and within one nanosecond by the wrapped counter |
| BufferNames.NameSays | internal/agent/buffer.go:39 | a name is twenty digits of the nanoseconds, a dash, six digits of the counter and .json |
| NameListings.NameOfStamp | internal/agent/buffer.go:39 | the name a save gives a batch is the name of its stamp |
| NameListings.NamesOrder | internal/agent/buffer.go:39 | the string order of batch names is the numeric order of their stamps, nanosecond and counter together |
| NameListings.NamesListStamps | internal/agent/buffer.go:47-60 | a listing of batch names in string order lists exactly their stamps in increasing order, which is what the delivery protocol assumes of a listing |
| DiskBuffer.Buffer.Pending | internal/agent/buffer.go:47-60 | the listing holds exactly the files named .json, no directories, in string order; an unreadable directory is an error |
| DiskBuffer.Buffer.Save | internal/agent/buffer.go:36-44 | the batch is written under the stamped name, then every batch with at least max later ones is gone unless its removal fails, the new one included; without failed removals at most max are left and they are the last in name order; a failed write changes nothing, a failed listing leaves the batch on disk |
| DiskBuffer.SurvivesOwnSave | internal/agent/buffer.go:35-44 | a batch is still there after its own save if and only if fewer than max batches have later names or its removal fails |
| DiskBuffer.DroppedByOwnSave | internal/agent/buffer.go:36-44 | after the clock was set back, a save into a full buffer of one drops the batch it saved |
| DiskBuffer.Buffer.Prune | internal/agent/buffer.go:66-75 | exactly the batches that have at least max later ones are removed, save those whose removal fails, which is ignored; other directory entries stay |
| DiskBuffer.PruneKeepsNewest | internal/agent/buffer.go:66-75 | without failed removals at most max batches are left, whatever was dropped is older than all of them, and something is dropped only down to max |
| DiskBuffer.Buffer.Remove | internal/agent/buffer.go:63 | removes that file and no other, or reports an error and removes nothing |
| Delivery.NothingLost | cmd/agent/main.go:261-277 | under every interleaving and failure, and however the clock moves, each batch written to the buffer is on disk unchanged, delivered, discarded as unreadable, or pruned with at least max batches saved under later names; what is delivered is what was saved |
| Delivery.FailedSendsAreKept | cmd/agent/main.go:260-277 | over every run the i-th batch whose send failed is in hand, or its write failed, or it was saved under a stamp and is on disk or was resent with its own content, discarded or pruned; the saves happened in that order |
| Delivery.PassClears | cmd/agent/main.go:409-424 | a pass in which every send and removal succeeds leaves none of its files on disk, whatever is saved meanwhile |
| Delivery.DeliveredInSaveOrder | cmd/agent/main.go:401-427 | while the drain loop's removals succeed and the clock is not set back, batches leave in the order they were saved and none twice |
| Delivery.FailedRemovalRepeats | cmd/agent/main.go:414-424 | a batch whose removal fails after the resend is delivered again by the next pass |
| Delivery.ClockSetBackReorders | cmd/agent/main.go:408-424 | of two batches saved around a clock that was set back the later one leaves first, with every removal succeeding |
| Delivery.OrderKeptExactlyWhen | cmd/agent/main.go:401-427 | delivery in save order without repetition holds over every run if and only if the drain loop's removals succeed and the clock is not set back |
| Delivery.SaveLeavesAtMostMax | internal/agent/buffer.go:66-75 | a save without failed removals ends with at most max files, whatever the drain loop and the clock do meanwhile |
| Delivery.StepInv | cmd/agent/main.go:401-427 | every single operation of flush, save, prune and drain keeps the invariants behind these results |
| Watcher.NoLostWakeUp | internal/agent/fimwatch.go:47-86 | in every interleaving, until a scan starts after an event was taken, the watcher is about to arm the timer, the timer is armed, a callback is under way or a trigger is queued; at most one scan is queued |
| Watcher.WakeUpArrives | internal/agent/fim.go:575-586 | without new events the three loops make a bounded number of steps while time passes, and once no step is left and the timer is not running every event is covered by a scan started after it |
| Watcher.ScansCover | internal/agent/fim.go:575-586 | a scan started by the trigger or the poll covers every event taken before, a scheduled snapshot none |
| Watcher.GapDecides | internal/agent/fimwatch.go:73-78 | a callback can start before the next event re-arms the timer if and only if the gap reaches the debounce interval, and is certain to if and only if the gap exceeds debounce and runtime latency together |
| Watcher.BurstIsSilent | internal/agent/fimwatch.go:49-78 | over every run: while events arm the timer less than the debounce interval apart no callback starts and nothing is queued; none has started only if no gap exceeded debounce and latency |
| Watcher.BurstPostpones | internal/agent/fimwatch.go:73-78 | events a fixed short gap apart keep the first one waiting for any multiple of that gap |
| Uploader.Flush | cmd/agent/main.go:802-817 | a flush posts the batch; on failure it keeps the newest 2000 items and recounts their bytes |
| Uploader.Run | cmd/agent/main.go:790-838 | the select loop with its final flush is the fold of its turns |
| Uploader.EveryRun | cmd/agent/main.go:790-838 | the byte count is exact, at most 2000 items wait, the received stream is in order the delivered and dropped stretches and then the batch, every dropped stretch is a single item, the delivered stretches are the successful POSTs, and a POST that does not follow a failed one has 1 to 100 items and at most 7 MiB unless it is a single item |
| Uploader.DropsAreTheOldest | cmd/agent/main.go:806-833 | after any run the next turn drops something if and only if an item arrives while 2000 wait, none of them is delivered first and the POST of 2001 fails; then the oldest alone is dropped and 2000 wait |
| Uploader.TickPosts | cmd/agent/main.go:834-835 | after any run a tick makes exactly one POST of everything that waits, none if nothing does; if it succeeds nothing waits and the whole stream is accounted for, if it fails nothing is gone |
| Uploader.RetryDelivers | cmd/agent/main.go:806-817 | what a failed tick left waiting the next good tick delivers in one piece |
| Uploader.FinalFlush | cmd/agent/main.go:820-823 | the final flush acts as a tick, so a successful one leaves nothing behind |
| Uploader.UnblockedPostsFit | cmd/agent/main.go:782-788 | a POST that does not follow a failed one has at most 100 items and, unless it is single, at most 7 MiB of contents, diffs and 256 bytes per item |
| Uploader.SmallRunsWait | cmd/agent/main.go:824-833 | fewer than 100 items below 7 MiB together are not posted before a tick |
| Uploader.FittingItemJoins | cmd/agent/main.go:826-833 | an item that fits goes out with what waits, at once if it fills the limit exactly |
| Uploader.MisfitWaits | cmd/agent/main.go:826-828 | an item that does not fit is posted only after what waits |
| Uploader.OversizedAfterFailure | cmd/agent/main.go:826-833 | when the POST that should make room fails, two items of 4 MiB go out in one POST |
| Uploader.OvercountAfterFailure | cmd/agent/main.go:829-833 | when the POST of 100 items fails, the next arrival sends 101 |
| Uploader.LimitsKeptExactlyWhen | cmd/agent/main.go:802-837 | every POST of every run has at most 100 items and 7 MiB, unless it is a single item, if and only if the POSTs triggered by arrivals do not fail, whether or not ticks do |
| Snapshots.ValidBlobKey | internal/agent/fimsnap.go:66-77 | accepts exactly the strings of 64 hex digits |
| Snapshots.HexDigits | internal/agent/fimsnap.go:70-75 | the accepted characters are the sixteen hexadecimal digits in either case |
| Snapshots.BlobKeyIsOneSegment | internal/agent/fimsnap.go:55-65 | an accepted key holds no separator and no dot |
| Snapshots.Store.Ensure | internal/agent/fimsnap.go:124-134 | the first content stays; a failed write leaves none |
| Snapshots.Store.SaveVersion | internal/agent/fimsnap.go:82-103 | an existing blob is left as it is, a bad key is refused, only a new blob is created |
| Snapshots.Store.ReadVersion | internal/agent/fimsnap.go:107-120 | the blob's content, or none for a bad key, a missing blob or a failed read |
| Snapshots.Store.Restore | internal/agent/fimsnap.go:164-172 | writes the baseline back to its path and nothing else; without a baseline, or when the read or the write fails, no file changes |
| Snapshots.Store.RestoreVersion | internal/agent/fimsnap.go:148-156 | writes the named version's content to the path, or changes no file |
| Snapshots.Store.RestoreContent | internal/agent/fimsnap.go:158-162 | writes the given content to the path, or changes no file |
| Scanner.FimScanner.Scan | internal/agent/fim.go:245-306 | a failed walk changes nothing; the first successful scan only primes; a later one reports exactly the expected changes, each path once; text files get their first snapshot |
| Scanner.CompareFile | internal/agent/fim.go:269-296 | the change for one present path: created, modified or encrypted with its diff, or none |
| Scanner.ChangeSays | internal/agent/fim.go:262-330 | every reported change is created, modified, deleted or encrypted exactly as old and new state say, carries the right hash, size and mode, and the diff from the old text to the new |
| Scanner.ReportIsComplete | internal/agent/fim.go:268-305 | a path is reported exactly when it is new, gone, or differs in hash, size or mode |
| Scanner.ReplayScan | internal/agent/fim.go:268-305 | folding one scan's changes over the previous view gives the new view of hash, size and mode |
| Scanner.ReplayRun | internal/agent/fim.go:242-315 | over any sequence of scans, failed ones included, nothing is emitted before the first successful one, and folding everything emitted over its view gives the latest view |
| Versions.Versioner.CaptureVersion | internal/agent/fim.go:449-484 | a capture stores the content, remembers the hash and ships metadata with the diff to the previous version, or changes nothing |
| Versions.Versioner.CaptureVersionNow | internal/agent/fim.go:53-71 | an on-demand capture succeeds exactly for a small text file that can be stored |
| Versions.CaptureShips | internal/agent/fim.go:449-484 | a capture ships exactly one item, with its path, hash, size, trigger, content and diff, when the file is a small text that this source has not captured last and that can be stored, and else changes nothing |
| Versions.UnchangedIsShippedOnce | internal/agent/fim.go:446-466 | an unchanged file is shipped once, and once more after a restart |
| Versions.VersionsAreFaithful | internal/agent/fimsnap.go:82-156 | over any history of any number of sources, restarts included, every blob's key is the hash of its content, metadata is shipped only for a stored blob and content shipped along has the announced hash, and restoring captured versions writes back exactly their contents if and only if no two captured contents collide |
| Versions.RestoreIsUndoable | cmd/agent/main.go:712-727 | the capture before a restore, of a stored version or of content from the manager, makes it undoable at any later time |
| Versions.RestoreActionWrites | cmd/agent/main.go:712-727 | the restore action writes the manager's content, or else the stored version, and no other file |
| Versions.BaselineIsFirst | internal/agent/fimsnap.go:122-172 | when no path is watched by two sources: from any contents of the store and over any history with restarts and interleaved scans, a path's baseline is the first content recorded for it, for ever, and that is what Restore writes back |
| Versions.SecondWriteWins | internal/agent/fimsnap.go:124-134 | two sources that watch a path can both find no snapshot, and then the later write replaces the earlier one |
| Versions.FirstWinsExactlyWhen | internal/agent/fimsnap.go:124-134 | the first baseline of every path is preserved over every run if and only if no path is watched by two sources |
| KillSwitch.RunKillSwitch | internal/agent/killproc.go:196-214 | at most one kill, only after a lookup that found an unprotected matching process; killed implies that the instance captured at detection runs neither on return nor later, however ids are recycled; failed after an accepted kill implies that the signal hit that instance |
| KillSwitch.KilledMeansGone | internal/agent/killproc.go:129-151 | with non-empty start tokens unique per instance, a matching lookup followed by a lookup that no longer finds it means the detected instance has ended for good |
| KillSwitch.FailedMeansHit | internal/agent/killproc.go:205-212 | a matching lookup followed by one that still finds the process means that the signal in between went to the detected instance |
| KillSwitch.SureHitExactlyWhen | internal/agent/killproc.go:200-213 | over all timelines, that the signal hits the detected instance is guaranteed if and only if no time passes between lookup and kill, or the kill is accepted and failed is reported |
| KillSwitch.SignalCanHitAnother | internal/agent/killproc.go:200-213 | for every positive delay of the kill there is a run, with a named unprotected program, in which the target exits before it, the process that got its id is signalled and killed is reported |
| KillSwitch.DirectoryDoesNotHide | internal/agent/killproc.go:82-118 | a built-in protected program is refused behind any directory, in any letter case and on either separator |
| KillSwitch.ProtectedExactlyWhen | internal/agent/killproc.go:97-127 | protected are exactly init and the kernel, the agent, its parent unless that is init, and processes that go by a built-in or operator's name |
| KillSwitch.OperatorListProtects | internal/agent/killproc.go:117-125 | a program the operator lists is refused behind any directory and in any letter case |
| KillSwitch.DecisionTable | internal/agent/killproc.go:129-194 | the decision by the strongest evidence both sides have: start token, then executable, then name; and every refusal |
| KillSwitch.UnixServicesAreListed | internal/agent/killproc.go:70-73 | the Unix services named in the source are protected |
| KillSwitch.WindowsServicesAreListed | internal/agent/killproc.go:74-80 | the Windows processes and the agent's own names are protected |
| KillSwitch.ShellIsNotListed | internal/agent/killproc.go:66-68 | the Windows shell is deliberately not protected |
| Nft.ReplaceInstalls | internal/agent/firewall.go:44-48 | from any prior state an add-delete-define script installs precisely the defined table and touches nothing else |
| Blocklist.SplitBlockIPs | internal/agent/firewall.go:16-29 | the two lists hold exactly the parseable addresses, one family each |
| Blocklist.BlocklistRuleset | internal/agent/firewall.go:39-66 | the script succeeds from any state and installs the table for exactly the listed addresses |
| Blocklist.BlocksExactly | internal/agent/firewall.go:51-56 | in that table an incoming packet is dropped exactly when its source is listed, in either family, and nothing else is |
| Blocklist.Reconcile | internal/agent/firewall.go:31-58 | other tables stay, applying twice is applying once, and only the set of parsed addresses matters |
| Containment.IsolationScript | internal/agent/isolation_linux.go:24-62 | the isolation script succeeds from any state and installs the table for exactly the parseable addresses |
| Containment.IsolatesExactly | internal/agent/isolation_linux.go:54-61 | isolation lets through loopback, known connections and the allowed peers, and forwards nothing |
| Containment.RunContainment | cmd/agent/main.go:528-566 | the poll loop is the fold of its ticks |
| Containment.GatewayStaysReachable | cmd/agent/main.go:525-563 | from an unisolated start every gateway address stays reachable in every state, whatever fails |
| Containment.FlagDescribesTable | cmd/agent/main.go:532-562 | the flag agrees with the kernel if and only if no failed clear is outstanding, and with the key it names the installed allow-list |
| Containment.LiftRestores | cmd/agent/main.go:556-562 | after any history a lift that succeeds takes the flag down and, if it was up, removes the table and nothing else |
| Containment.FailuresChangeNothing | cmd/agent/main.go:538-553 | a failed fetch and a failed apply change nothing |
| Containment.FailedClearIsForgotten | cmd/agent/main.go:556-562 | isolating and then lifting while nft fails leaves the table installed and the flag down |
| Containment.OrphanIsNeverLifted | internal/agent/isolation_linux.go:76-82 | a table the flag does not know of survives every directive to lift isolation |
| Containment.KeyIsInjective | cmd/agent/main.go:545-548 | the key tells comma-free lists apart, but for the empty list and one blank entry |
| Containment.LastOrderIsInForce | cmd/agent/main.go:544-555 | at the end of any comma-free history whose last tick orders isolation without a failure, exactly the ordered addresses are let through |
| Containment.CommaHidesAnOrder | cmd/agent/main.go:546-549 | with a comma inside an address a new order is skipped although the table does not allow what it asks for |
| Containment.InForceExactlyWhen | cmd/agent/main.go:544-555 | after any history, a successful order is in force for every address parser if and only if it is not skipped or its comma-free, non-blank entries are those of the standing order |
| OsvScan.FetchMissing | cmd/worker/scoring.go:394-417 | the fetch loop resolves exactly the uncached ids and writes every fetched record exactly once, in order, in writes of 200 rows and one shorter last one |
| OsvScan.MakeFindings | cmd/worker/scoring.go:419-448 | the findings are the first per key of what every owner's ids give |
| OsvScan.FirstPerKeyIsFaithful | cmd/worker/scoring.go:421-437 | at most one finding per key, every finding is genuine, no key is lost |
| OsvScan.FirstIsKept | cmd/worker/scoring.go:434-437 | of the findings that share a key the first is kept |
| OsvScan.KeyTells | cmd/worker/scoring.go:432-437 | two findings count as one exactly when they name the same vulnerability and package and, for dependencies, the same version |
| OsvScan.ScanFinds | cmd/worker/scoring.go:419-448 | every finding reports a record of an id of its owner with severity, score, fixed version and CVE or else id; every such hit is represented, and no two findings share a key |
| OsvScan.ScanAgent | cmd/worker/scoring.go:379-449 | the findings depend neither on the order of the ids nor on the writes, only on cached records and the client's answers |
| OsvScan.CacheIsTransparent | cmd/worker/scoring.go:390-406 | from any correct cache an error-free scan finds what looking every id up finds |
| OsvScan.WritesFillCache | cmd/worker/scoring.go:404-417 | when records carry the id they were fetched under, the writes add exactly the fetched records and the cache stays correct |
| HashCache.HashStore.GetOrComputeHash | internal/agent/process_snapshot.go:68-96 | a lookup that no other one interrupts, as a function of the cache and the file system at the moments it looks; its two critical sections are the operations that interleave below |
| HashCache.FreshAnswer | internal/agent/process_snapshot.go:68-96 | a path nothing was stored for is answered exactly when it is regular at the stat and a whole regular file of at most 64 MiB at the read, with that content's digest |
| HashCache.NoFileNoAnswer | internal/agent/process_snapshot.go:71-74 | a file that is gone or not regular at the stat gets no answer |
| HashCache.StoredIsReused | internal/agent/process_snapshot.go:76-81 | within 30 minutes and with the same size and mtime the stored digest is returned unread, and afterwards it is not |
| HashCache.AnswersAreRecent | internal/agent/process_snapshot.go:49-96 | over every interleaving of lookups the cache never exceeds 4096 entries, and an answer was read by this lookup or by one that had stored it less than 30 minutes before and had seen the same size and mtime |
| HashCache.CurrentExactlyWhen | internal/agent/process_snapshot.go:68-96 | in a given schedule the answer is the digest of the file as statted, in every world whose content changes show in size or mtime, if and only if stat and read are one moment for the lookup and for every lookup of the path that stored within the last 30 minutes |
| HashCache.AnswersAreCurrent | internal/agent/process_snapshot.go:68-96 | over every interleaving an answer is current if neither the lookup nor one that stores is raced by a replacement |
| HashCache.RaceLeavesWrongDigest | internal/agent/process_snapshot.go:71-92 | a replacement between stat and read leaves a wrong digest that is returned later |
| ProcStat.StatRoundTrip | internal/agent/killproc_procstat.go:16-31 | for every process name, blanks and parentheses included, parsing a formatted line gives back name, parent and start time |
| ProcStat.ReadStatRoundTrip | internal/agent/process_snapshot_linux.go:100-149 | for every process name, reading a formatted line gives back the name, the parent id and the start time as numbers |
| ProcStat.ParsersAgree | internal/agent/process_snapshot_linux.go:100-141 | on every input both parsers accept the same layouts and extract the same three fields, and readStat refuses a good layout exactly when one of the two numbers does not convert |
| Schedule.RunScheduler | cmd/worker/main.go:877-919 | the ticker loop with live configuration, failing steps and late stamps is the fold of its turns |
| Schedule.StoredOnlyWhen | cmd/worker/main.go:884-917 | a summary is stored only by a turn with an analyzer and a configuration that is switched on, in its hour if it names one, and under the stamp it was saved with |
| Schedule.FirstSummary | cmd/worker/main.go:849-871 | with none stored yet the first turn that can make a summary makes one |
| Schedule.HoursOfDay | cmd/worker/main.go:857-859 | hours are 3600 seconds and run from midnight |
| Schedule.SmoothRuns | cmd/worker/main.go:877-919 | when every turn works under one configuration, the stored summaries are the due ticks the two schedule laws speak of |
| Schedule.DistanceKeptExactlyWhen | cmd/worker/main.go:893-900 | with failing and late summaries, consecutive ones keep the configured distance over every run if and only if the latest summary can always be read |
| Schedule.UnreadableSummaryIsRepeated | cmd/worker/main.go:893-900 | two turns ten minutes apart both store a summary when the second cannot read the first one's |
| Schedule.DriftingSchedule | cmd/worker/main.go:853-856 | unpinned, consecutive summaries are at least the interval apart and each comes at the first tick at which it is due |
| Schedule.PinnedSchedule | cmd/worker/main.go:857-870 | pinned, summaries come in that hour of exactly every k-th day from the first tick in it on, each at the first such tick of its day, k being the interval rounded up to days |
| Schedule.MinutesDecide | cmd/worker/main.go:863-870 | with 25 hours at midnight, the same hour of the same day is too early at its start and due at half past |
| Schedule.DayDecidesExactlyWhen | cmd/worker/main.go:863-870 | whether a tick in the appointed hour is due depends on the day alone if and only if the interval is not one hour more than whole days |

## Left out

- HTTP handlers, storage, message bus and UI: plumbing over code whose contracts are not part of this model.
- Regular expressions, SHA-256, IP parsing, JSON and Shannon entropy are parameters; the numeric-compare pattern of the rule language is modelled exactly.
- Who-data attribution of changes and the CIS clause list of a result: extra fields copied along.
- Partial file writes: a write to the buffer or a snapshot is one step, so a reader never meets a half-written file.
- Preservation of file permissions on restore, directory walking and exclude patterns: behaviour of the operating system.
- The Windows variants of isolation and process control.
- Turning the start time from jiffies into a wall-clock time in `readStat`: the model stops at the number of jiffies.
- Cancellation of the watcher and scan loops: the trigger protocol is stated for as long as they are not told to stop.
- Metadata dropped before the uploader because its channel is full: the uploader's stream starts at what it receives.
- Schedule.PinnedSchedule: is about turns in which everything works and summaries are stamped at their tick, as `Schedule.DriftingSchedule` is; over failing and late ones `Schedule.DistanceKeptExactlyWhen` bounds the distance.
- Summaries made on request: the schedule sees only those it stored itself.
- Changes to the snapshot directory by anything other than the agent, and a store that is switched off.
- The interleaving of two captures: a capture of a version is one step, since a blob's content is given by its key.
- Two batches under one name: that takes the same nanosecond and the same counter value again, so a save uses an unused stamp.
- BufferNames.NamesSortByStamp: requires nanoseconds of at most 20 digits, which every 63-bit nanosecond clock value has.
- Lengths are unbounded integers; the products and sums in the source stay below 63 bits for any input that fits in memory.
