# Verified models of the scanner's core logic

This project models the parts of the scanner whose correctness is not visible in any single
function: a concurrent pipeline, a graph search that decides which findings are suppressed, an
in-memory filesystem, the filtering of results, and four smaller components. Each part is proved
against a statement that does not follow the code: a property of all interleavings, of all walks
in a graph, of a flat path map, of an order-free description of the report.

`dafny verify dfyconfig.toml` checks everything.

| files | component |
|---|---|
| `Pipeline`, `PipelineProgress`, `PipelineLeaks`, `PipelineErrors`, `PipelineWorkers`, `PipelineCalls` | `pkg/parallel`: producer, workers, closer and consumer as one transition system; `Pipeline.Do` and `WalkDir` are its two instances |
| `VexGraph`, `VexFilter` | `pkg/vex/vex.go`: the search up the parent graph and the removal of findings |
| `MapTree`, `MapFile`, `MapFS`, `OpenFile` | `pkg/mapfs`: the tree as a value and its flat view, the same tree on the heap, the filesystem over it, and readers with a position |
| `Ordering`, `VulnFilter`, `DedupKey`, `ReportOrder`, `ResultFilter`, `IgnoreRules`, `RuleFilter` | `pkg/result` and the report order of `pkg/types/vulnerability.go` |
| `License` | `pkg/licensing/scanner.go` |
| `Levels`, `Severity`, `FillInfo` | `pkg/vulnerability/vulnerability.go` |
| `ModuleMerge` | the merging of results in `pkg/module/module.go` |
| `Sublists` | what it means to filter a list, used by several parts |
| `CheckBundle` | `pkg/policy/policy.go` as a state machine over a clock, a file and a registry |

## What the proofs found

Some natural expectations are false of the code. In each case the code is modelled as it is, an
input shows the failure, and the exact condition is proved.

- A pipeline with a negative worker count waits for ever if there is an item to process, and only
  then (`PipelineProgress.NeverStuckIff`, `PipelineCalls.DoNeverStuckIff`). The default of 5 covers
  the count 0 only.
- When `onResult` fails, `Do` returns at once and does not cancel its goroutines; they can wait for
  ever (`PipelineLeaks.EarlyReturnCanLeak`). `PipelineLeaks.CanLeakIff` says for which calls this is
  possible; if no callback fails, it takes a worker and two items (`PipelineCalls.DoLeaksIff`).
  Without a failing `onResult` it does not happen (`PipelineLeaks.AcceptedFinishes`).
- The search up the graph can keep a finding although every walk to the root is blocked, because of
  its fail-safe for dead ends (`VexGraph.FailSafeKeepsBlocked`; `TrueExactly` is the condition for
  given verdicts, `FailSafeHarmlessIff` the condition on the graph).
- A finding in a component that is its own only parent is removed although no VEX document said
  anything (`VexGraph.LoneSelfParentUnanchored`; `RemovalRestsOnVerdictIff` is the condition).
- A file written to the path of the filesystem's root is accepted and cannot be read back
  (`MapTree.ReadBackIff`).
- Two different packages can share a deduplication key, and one of them then disappears from the
  report (`DedupKey.FindingLost`). Equal keys mean the same finding exactly when the parts before the
  path have equally many slashes (`DedupKey.KeyTellsApartIff`), and the report shows every finding
  that the policy leaves exactly when all survivors with equal keys do (`DedupKey.ReportShowsEachIff`).
- Which of several entries with the same key and fixed version is reported depends on the order of
  the input (`ReportOrder.OrderMatters`, `ReportOrder.OrderFreeIff`).
- `FilterFunc` fails on a filesystem with a file under the root's own path, unless the filter drops
  it (`MapFS.RootFileStopsFilter`, `MapFS.FS.FilterFunc`). If that file stands for a directory on
  disk, the walk does not end (`MapFS.WalkLoops`).
- Severity selection does not terminate when it reaches `auto` and the data source itself is called
  `auto` (`Severity.AutoSourceDiverges`, `Severity.TerminatesIff`).
- A check bundle of an unexpected major version is downloaded again in every session, however
  recent it is (`CheckBundle.UnexpectedAlwaysRefetched`). Contacts with the registry stay a day apart
  exactly when nobody checks again within a day of such a download
  (`CheckBundle.ContactsADayApartIff`).

## Model

| member | source | states |
|---|---|---|
| `Pipeline.InvStep` | pkg/parallel/pipeline.go:56-111 | Every step of producer, worker, closer, consumer or outside cancellation keeps the protocol invariant: items conserved, channels used safely, errors and outputs justified |
| `Pipeline.ItemsConserved` | pkg/parallel/pipeline.go:60-94 | In every reachable state the items are, as multisets, the unsent plus those held by workers plus those delivered, swallowed or dropped on error |
| `Pipeline.ChannelDiscipline` | pkg/parallel/pipeline.go:57-99 | In every reachable state nothing is sent on a closed channel, neither channel is reopened, and `results` is closed only after the producer and all workers have exited |
| `Pipeline.NilMeansEveryItem` | pkg/parallel/pipeline.go:48-112 | In every interleaving, a nil return means that every item was delivered exactly once with an output of its callback, or swallowed exactly once, and that nothing failed |
| `PipelineProgress.MeasureDrops` | pkg/parallel/pipeline.go:56-111 | A natural-number measure drops on every step of every goroutine, error and cancellation steps included |
| `PipelineProgress.EveryRunEnds` | pkg/parallel/pipeline.go:56-111 | No run is longer than 6 steps per position plus 2 per worker plus 5 |
| `PipelineProgress.StuckExactly` | pkg/parallel/pipeline.go:56-111 | A reachable state without a next step is exactly a finished one, one leaked by a failing `onResult`, or one starved for lack of any worker |
| `PipelineProgress.CancelDrains` | pkg/parallel/pipeline.go:66-90 | After a cancellation every maximal run finishes, even when nobody receives results |
| `PipelineProgress.NeverStuckIff` | pkg/parallel/pipeline.go:34-94 | While the consumer ranges no reachable state is stuck, if and only if the worker count is not negative or no item is ever offered |
| `PipelineProgress.CallReturns` | pkg/parallel/pipeline.go:101-111 | Under that condition every run that cannot be continued has returned from the call |
| `PipelineLeaks.AcceptedFinishes` | pkg/parallel/pipeline.go:96-111 | A maximal run in which no result is rejected has finished completely, unless no worker was ever started |
| `PipelineLeaks.LeakNeeds` | pkg/parallel/pipeline.go:86-106 | A state in which goroutines wait for ever needs workers, a prefix of positions that caused no error, and two possible results in it, or one more than there are workers if an item still waits |
| `PipelineLeaks.LeakFollows` | pkg/parallel/pipeline.go:86-106 | Wherever that is so, some run rejects the first result and ends with goroutines waiting for ever |
| `PipelineLeaks.CanLeakIff` | pkg/parallel/pipeline.go:48-112 | For every call with terminating callbacks, a leak is possible if and only if there are workers and the input starts with enough possible results before anything that must fail |
| `PipelineLeaks.SuccessfulLeaksIff` | pkg/parallel/pipeline.go:48-112 | When every position is an item and every callback succeeds, exactly if a worker runs and there are two items |
| `PipelineLeaks.EarlyReturnCanLeak` | pkg/parallel/pipeline.go:102-106 | Two items and one worker are such a call |
| `PipelineErrors.ReturnedErrorIsReal` | pkg/parallel/pipeline.go:83-111 | A returned error is one that `onResult` gave in this run or one that a callback or the walk gives; the context's error only if the context was cancelled from outside, so it never masks the failure that cancelled the group |
| `PipelineErrors.FirstErrorReturned` | pkg/parallel/pipeline.go:56-111 | The error of the first goroutine to exit with one is what the call returns, whatever errors follow, unless `onResult` rejects a result |
| `PipelineWorkers.NeverMoreAtOnce` | pkg/parallel/pipeline.go:34-94 | Never more callbacks run at once than workers were asked for; 0 asks for five, a negative count for none |
| `PipelineWorkers.AllAtOnce` | pkg/parallel/pipeline.go:34-94 | With enough items that many do run at once in some interleaving |
| `PipelineErrors.UndisturbedReturnsNil` | pkg/parallel/pipeline.go:48-112 | If nothing can fail, nobody cancels and every result is accepted, every maximal run returns nil and has delivered every item |
| `PipelineCalls.DoNilDeliversAll` | pkg/parallel/pipeline.go:48-112 | If `Do` returns nil, the results handed to `onResult` are, as a multiset, the images of the items |
| `PipelineCalls.DoNeverStuckIff` | pkg/parallel/pipeline.go:28-94 | `Do` cannot get stuck while receiving, if and only if the worker count is not negative or there is no item |
| `PipelineCalls.DoLeaksIff` | pkg/parallel/pipeline.go:48-112 | If no `onItem` fails, `Do` can leave goroutines waiting for ever exactly if a worker runs and there are at least two items |
| `PipelineCalls.WalkNeverStuckIff` | pkg/parallel/walk.go:19-85 | `WalkDir` cannot get stuck while receiving, if and only if the worker count is not negative or the first entry not passed by is no non-empty file |
| `PipelineCalls.WalkLeaksIff` | pkg/parallel/walk.go:19-115 | `WalkDir` can leave goroutines waiting for ever exactly if workers run and enough files give results before any entry that causes an error: two in the whole walk, or one more than there are workers before some file |
| `PipelineCalls.WalkReturnedError` | pkg/parallel/walk.go:28-115 | An error returned by `WalkDir` is that of an entry, of an entry's information, of a file that cannot be opened or read, or of `onResult`; never one of `onFile`, and the context's only after an outside cancellation |
| `PipelineCalls.WalkNilDeliversAll` | pkg/parallel/walk.go:19-115 | If `WalkDir` returns nil, `onResult` got exactly one call for each regular non-empty file whose `onFile` succeeded, with its result, and no entry or file was broken |
| `VexGraph.Dfs` | pkg/vex/vex.go:187-216 | The search terminates on every finite graph and answers true exactly when a simple all-affected path outside the visited set ends at a root or dead end; the captured variable ends as the last positive verdict asked for; false without a verdict means that no path exists whatever VEX says |
| `VexGraph.LastBlocks` | pkg/vex/vex.go:160-167 | The verdict recorded by a search is on the first not-affected component of some simple path up from the leaf |
| `VexGraph.LastVerdictIsLast` | pkg/vex/vex.go:162-165 | A positive verdict asked for later overrides all earlier ones |
| `VexGraph.SecondParentRecorded` | pkg/vex/vex.go:162-165 | A leaf under two components that are both not affected records the verdict on the second |
| `VexGraph.Simplify` | pkg/vex/vex.go:207-212 | Every walk, cycles included, contains a simple path with the same ends: the reduction from walks to the per-path visited sets |
| `VexGraph.FalseBlocksEveryWalk` | pkg/vex/vex.go:178-219 | If `reachRoot` is false, every walk of any length from the leaf to a root passes a component judged not affected, unless the leaf alone was |
| `VexGraph.TrueExactly` | pkg/vex/vex.go:181-218 | `reachRoot` is true exactly when the leaf is not excluded alone and an all-affected walk reaches a root or a simple all-affected path ends where all parents lie earlier on it |
| `VexGraph.FailSafeKeepsBlocked` | pkg/vex/vex.go:195-199 | A three-node graph in which every walk to the root is blocked and `reachRoot` is still true |
| `VexGraph.RemovalRestsOnVerdictIff` | pkg/vex/vex.go:187-216 | For all possible verdicts, a removal records a positive verdict that the search asked for, if and only if the leaf has a simple path to a root or dead end in the bare graph |
| `VexGraph.FailSafeHarmlessIff` | pkg/vex/vex.go:187-216 | For all possible verdicts, a finding is kept only with an unblocked walk to a root, if and only if no simple path from the leaf reaches a dead end without passing a root |
| `VexGraph.NoSelfParentAnchors` | pkg/vex/vex.go:195-212 | Every leaf has such a path when no component but a root is its own parent |
| `VexGraph.LoneSelfParentUnanchored` | pkg/vex/vex.go:203-215 | In any graph, a component other than a root that is its own only parent has none |
| `VexFilter.NotAffected` | pkg/vex/vex.go:139-146 | The first document with a positive verdict decides; no verdict exactly when no document has one |
| `VexFilter.RunReachRoot` | pkg/vex/vex.go:160-219 | The answer is `ReachRoot`; the captured finding is the verdict on the leaf alone or the last one of the search; a false answer without a verdict means an unanchored leaf |
| `VexFilter.Result.FilterVulnerabilities` | pkg/vex/vex.go:148-175 | A finding stays exactly if its component is unknown, or no document excludes the component by itself and some walk up the parents, on which no document excludes any component with the first as subcomponent, reaches a root or runs dry; the others are replaced, in order, by what a document said about the component or one above it |
| `VexFilter.KeptIffStillAffected` | pkg/vex/vex.go:153-174 | That condition on the graph and the documents is the answer of the search |
| `VexFilter.SelectPartitions` | pkg/vex/vex.go:153-174 | Kept and removed findings are together the input, as multisets |
| `VexFilter.SelectInOrder` | pkg/vex/vex.go:153-174 | Each part is read off the input at increasing positions, which are exactly the positions of its findings |
| `VexFilter.NoSelfParentExplains` | pkg/vex/vex.go:160-172 | When no component but a root is its own parent, each entry is a positive verdict on the very finding that it replaces |
| `MapTree.MkdirRefines` | pkg/mapfs/file.go:172-204 | Creating directories on the tree is: fail if a file lies on the way, else add every missing prefix to the flat map |
| `MapTree.StoreRefines` | pkg/mapfs/file.go:206-249 | Writing a file is: fail unless the parent is a directory, else replace the path, drop everything below it and touch nothing else |
| `MapTree.RemoveRefines` | pkg/mapfs/file.go:89-111 | Removing is: fail if missing, or if not recursive and something lies below, else drop the path and all below it |
| `MapTree.StepRefines` | pkg/mapfs/file.go:73-249 | Each operation gives the flat operation's map and error, keeps the tree well-formed, and changes nothing when it fails |
| `MapTree.RunRefines` | pkg/mapfs/file.go:73-249 | Any run of operations on the tree is the same run on the flat map, with the same errors, and the result is prefix-closed |
| `MapTree.MkdirMakes` | pkg/mapfs/file.go:172-204 | After a successful mkdir every path on the way is a directory, an old one unchanged and a new one with the permission bits asked for; nothing else changes |
| `MapTree.WriteReadsBack` | pkg/mapfs/file.go:206-249 | A successful write is read back with the data and mode, or the underlying path, that were given |
| `MapTree.RemoveTakes` | pkg/mapfs/file.go:73-111 | Remove takes away a path with nothing below it and refuses one with something below it; with recursion it takes both; nothing else changes |
| `MapTree.RootPaths` | pkg/mapfs/file.go:73-132 | "" and "." stand for the root, on which mkdir and remove do nothing |
| `MapTree.FlatPrefixClosed` | pkg/mapfs/file.go:172-249 | In the flat view every proper prefix of a path is a directory |
| `MapTree.GetFileIsLookup` | pkg/mapfs/file.go:113-132 | `getFile` on the tree finds exactly what the flat map holds |
| `MapTree.ReadBackIff` | pkg/mapfs/file.go:113-249 | A successfully written file is read back, if and only if its path is not the root's |
| `MapFile.MkdirThroughChild` | pkg/mapfs/file.go:183-203 | Storing the child first and descending afterwards gives the same tree as descending first |
| `MapFile.File.GetFile` | pkg/mapfs/file.go:113-132 | The heap node found stands for the subtree of the value tree |
| `MapFile.File.LoadOrStore` | pkg/mapfs/file.go:183-194 | An existing child is returned and nothing changes; otherwise a new empty directory is added |
| `MapFile.File.MkdirAll` | pkg/mapfs/file.go:172-204 | The heap tree changes exactly as the value tree does, with the same error, and stays a tree without sharing |
| `MapFile.File.Store` | pkg/mapfs/file.go:206-249 | The same for writing a file |
| `MapFile.File.RemovePath` | pkg/mapfs/file.go:89-111 | The same for removing |
| `MapFS.Walk` | pkg/mapfs/fs.go:82-88 | The walk lists every path of the tree and nothing else, in strictly ascending order of names at the first difference, a directory before its content; so each path once |
| `MapFS.AscendingParentsFirst` | pkg/mapfs/fs.go:82-88 | In that order every path comes after all its parents |
| `MapFS.PathLessExactly` | pkg/mapfs/file.go:160 | The order spelled out: equal up to some place, where the first path ends or has the smaller name |
| `MapFS.ListDir` | pkg/mapfs/file.go:134-162 | The names of a directory, each once and sorted |
| `MapFS.EntryAt` | pkg/mapfs/file.go:134-162 | The entry listed for a path of the walk is the node at that path, also for a file under a name of the root |
| `MapFS.VisitPath` | pkg/mapfs/fs.go:82-106 | At one path the callback copies exactly directories and unfiltered files, passes filtered ones, and aborts or attempts a write that must fail exactly at the nodes of `FilterFails`; it goes round in circles exactly at those of `WalkLoops` |
| `MapFS.FilteredContent` | pkg/mapfs/fs.go:87-105 | Path by path: a kept virtual file has its data and mode, a kept real file its underlying path, a directory its permission bits, and nothing else is there |
| `MapFS.RootFileStopsFilter` | pkg/mapfs/fs.go:97-103 | A file written to the root's own path stops a filter that keeps everything |
| `MapFS.CleanNamesStep` | pkg/mapfs/fs.go:200-274 | The operations keep every node under a proper name, except for files written to the root's own path, and never make a directory with an underlying path |
| `MapFS.FS.MkdirAll` | pkg/mapfs/fs.go:219-221 | Acts on the heap tree as `MapTree.Step` does, error included |
| `MapFS.FS.WriteFile` | pkg/mapfs/fs.go:200-205 | The same; an empty underlying path is refused |
| `MapFS.FS.WriteVirtualFile` | pkg/mapfs/fs.go:208-210 | The same; a directory mode is refused |
| `MapFS.FS.Remove` | pkg/mapfs/fs.go:267-274 | The same; removing the root does nothing |
| `MapFS.FS.FilterFunc` | pkg/mapfs/fs.go:80-112 | Builds a new filesystem with the same directories and exactly the unfiltered files with their data or underlying path, leaves this one unchanged; it completes exactly when the filter fails on no file, every real file is a file on disk, and the filter drops every file under the root's own path; an endless walk needs a disk directory under the root's own path |
| `OpenFile.OpenMapFile.Read` | pkg/mapfs/file.go:297-311 | Copies the next bytes to the front of the buffer and advances by their number; EOF at the end of the data |
| `OpenFile.OpenMapFile.Seek` | pkg/mapfs/file.go:313-331 | Moves to the target if it lies within the data, else reports an error and stays |
| `OpenFile.OpenMapFile.ReadAt` | pkg/mapfs/file.go:333-346 | Reads at the given place without moving the position; fewer bytes than asked for mean EOF |
| `OpenFile.OpenMapFile.ReadSizes` | pkg/mapfs/file.go:297-311 | Any sequence of reads returns consecutive pieces, and a call reports EOF exactly when the calls before it returned all the data |
| `OpenFile.OpenMapFile.ReadAll` | pkg/mapfs/file.go:297-311 | Reading until EOF gives exactly the rest of the data |
| `OpenFile.PiecesConcat` | pkg/mapfs/file.go:297-311 | The pieces of any sequence of reads, put together, are the data from the start position on |
| `OpenFile.EofExactlyWhenExhausted` | pkg/mapfs/file.go:297-311 | With a non-empty buffer a read returns nothing exactly when everything has been returned before |
| `OpenFile.MapDir.ReadDir` | pkg/mapfs/file.go:366-380 | Returns the next entries in order, all of them for a non-positive count; EOF only for a positive count with nothing left |
| `OpenFile.MapDir.ReadPages` | pkg/mapfs/file.go:366-380 | Page after page lists each remaining entry once, in order |
| `Ordering.StrLessExactly` | pkg/types/vulnerability.go:48-67 | String order spelled out: equal up to some place, where the first ends or has the smaller character |
| `Ordering.LessExactly` | pkg/types/vulnerability.go:46-68 | The report order spelled out: name, package ID, version ascending, severity descending, then ID and path ascending |
| `Ordering.LessIsStrictTotal` | pkg/types/vulnerability.go:46-68 | `Less` is irreflexive, asymmetric, transitive, and total on entries with different deduplication keys |
| `Ordering.SortedUnique` | pkg/result/filter.go:79 | Comparable elements can be sorted in one way only, by whatever algorithm |
| `Ordering.SortBySeverity` | pkg/result/filter.go:79 | The result is a permutation of the input in report order |
| `DedupKey.KeyTellsApartIff` | pkg/result/filter.go:108 | Entries with equal keys agree in all five fields if and only if the four parts before the path have equally many slashes |
| `DedupKey.ReportShowsEachIff` | pkg/result/filter.go:107-116 | Under any policy: every surviving finding whose key the policy leaves is reported under its own five fields, if and only if survivors with such a key agree in those slash counts |
| `DedupKey.FindingLost` | pkg/result/filter.go:107-116 | Two surviving findings in different packages of which the report shows only the first |
| `ReportOrder.OrderFreeIff` | pkg/result/filter.go:349-352 | The entries reported are the same for every order of the input, if and only if survivors that tie for the highest fixed version of a key are equal or removed by the policy |
| `ReportOrder.OrderMatters` | pkg/result/filter.go:349-352 | Two entries that differ in their details only, for which the order decides |
| `ReportOrder.PackagesTogether` | pkg/types/vulnerability.go:46-68 | In a sorted report the entries of one package stand together, the more severe ones first |
| `VulnFilter.DedupStep` | pkg/result/filter.go:107-112 | One round of the loop keeps, for each key, the first entry with the highest fixed version |
| `VulnFilter.PickedUnique` | pkg/result/filter.go:107-112 | There is one such entry per key |
| `VulnFilter.ReportDetermined` | pkg/result/filter.go:79-120 | The report is a function of the input, whatever the iteration order of the map and the sorting algorithm |
| `VulnFilter.SurvivorsAreFilter` | pkg/result/filter.go:86-105 | The survivors are, in order, the inputs of a severity asked for ("" read as "UNKNOWN") and a status not excluded that no rule ignores |
| `VulnFilter.IgnoredAreFilter` | pkg/result/filter.go:100-105 | The ignored records are, in order, such inputs that a rule ignores, each with the statement of the rule |
| `VulnFilter.EveryInputAccounted` | pkg/result/filter.go:84-120 | An input is neither recorded nor among the survivors exactly when its severity was not asked for or its status was excluded; an ignored one is recorded with its statement; every other one is represented by a same-key entry with at least its fixed version, which is reported unless the policy removes it |
| `VulnFilter.ReportedAreWanted` | pkg/result/filter.go:84-120 | Every entry reported is an input of a severity asked for and a status not excluded that no rule ignores and the policy keeps |
| `VulnFilter.FatesCount` | pkg/result/filter.go:84-120 | Survivors, ignored records and dropped entries add up to the input |
| `VulnFilter.FixedVersionOrderFree` | pkg/result/filter.go:349-352 | The fixed version reported for a key does not depend on the order of the input |
| `ResultFilter.CollectUnique` | pkg/result/filter.go:84-113 | The loop leaves one picked entry per key of the survivors, and one record per ignored input |
| `ResultFilter.DedupsChosen` | pkg/result/filter.go:115-119 | The values of that map are exactly the entries the report is made of |
| `ResultFilter.MapValues` | pkg/result/filter.go:116 | Lists every value of the map once, in any order |
| `ResultFilter.FilterByRego` | pkg/result/filter.go:302-321 | Splits findings by verdict, each part in order; fails exactly when some evaluation fails |
| `ResultFilter.TallyAgrees` | pkg/result/filter.go:144-150 | The number of failures counted is the number of failures listed; successes are listed only on request |
| `ResultFilter.IgnoredMisconfsAreFilter` | pkg/result/filter.go:128-142 | The records are, in order, the misconfigurations of a wanted severity that a rule ignores, with its statement |
| `ResultFilter.ListedAreWanted` | pkg/result/filter.go:127-151 | What is listed has a wanted severity, is not ignored, and is a failure unless others are asked for |
| `ResultFilter.JudgedSplit` | pkg/result/filter.go:262-282 | Per status, kept and removed findings add up to what was there |
| `ResultFilter.Result.FilterVulnerabilities` | pkg/result/filter.go:84-120 | Leaves the picked survivors and appends the ignored ones with their statements |
| `ResultFilter.Result.FilterMisconfigurations` | pkg/result/filter.go:122-158 | Lists, in order, exactly the wanted findings that are failures or asked for besides, records the ignored ones, and counts the wanted failures and successes; or leaves no summary and no list |
| `ResultFilter.Result.ApplyMisconfPolicy` | pkg/result/filter.go:262-282 | Keeps the counters in step with the list; no counter goes negative and a missing summary is never touched |
| `ResultFilter.Result.ApplyVulnPolicy` | pkg/result/filter.go:254-260 | Keeps the findings the policy does not ignore and records the others; an evaluation error changes nothing |
| `ResultFilter.Result.ApplyPolicy` | pkg/result/filter.go:238-282 | Succeeds exactly when every evaluation does, and then splits both lists and records what it removes |
| `ResultFilter.Result.FilterResult` | pkg/result/filter.go:63-82 | On success the vulnerabilities are the one report of the input, all of it of wanted severity and status, the misconfigurations are those kept, the summary counts their failures, and each finding taken out by a rule or the policy is recorded once; it fails exactly when an evaluation does |
| `IgnoreRules.MatchPath` | pkg/result/ignore.go:104-116 | True exactly when there is no pattern or some pattern matches |
| `IgnoreRules.MatchPURL` | pkg/result/ignore.go:118-129 | True exactly when there is no package URL, no rule URL, or some rule URL matches |
| `IgnoreRules.Match` | pkg/result/ignore.go:88-102 | Finds the first rule that applies, and nothing exactly when none does |
| `IgnoreRules.MatchVulnerability` | pkg/result/ignore.go:153-164 | The first rule for the target, else the first for the package path, else none |
| `IgnoreRules.MatchMisconfiguration` | pkg/result/ignore.go:166-173 | The first rule for the first identifier that has one |
| `IgnoreRules.IgnoreFindings.Prune` | pkg/result/ignore.go:131-141 | Leaves, in order, exactly the rules without an expiry or that expire now or later |
| `IgnoreRules.PrunedSuppressesIff` | pkg/result/ignore.go:88-141 | After pruning a finding is suppressed exactly when a rule written for its identifier, path and package has no expiry or expires now or later |
| `IgnoreRules.SuppressionsOnlyEnd` | pkg/result/ignore.go:131-141 | As time goes by no suppression is added, and a rule without an expiry is never lost |
| `IgnoreRules.FirstRuleIsFirst` | pkg/result/ignore.go:88-102 | The rule that decides is the first that applies, and there is none exactly when none applies |
| `RuleFilter.IgnoredIffCovered` | pkg/result/filter.go:91-105 | A vulnerability of a wanted severity and status is ignored exactly when a rule in force is written for it by target or by package path, and the statement is that of such a rule |
| `RuleFilter.CountedIffUncovered` | pkg/result/filter.go:128-145 | A misconfiguration of a wanted severity is counted exactly when no rule in force is written for any of its identifiers |
| `RuleFilter.FilterByRules` | pkg/result/ignore.go:255-256 | Filtering with the pruned rules of an ignore file gives the report, list and summary of those rules, and what they or the policy take out is recorded once |
| `License.UnknownIff` | pkg/licensing/scanner.go:59-64 | The category is unknown exactly when some leaf is |
| `License.NoChoiceCheaper` | pkg/licensing/scanner.go:59-71 | No way of resolving the `OR`s has a lower maximum severity than the one detected |
| `License.SomeChoiceExact` | pkg/licensing/scanner.go:59-71 | Some way of resolving them has exactly that maximum |
| `License.SeverityIsMinMax` | pkg/licensing/scanner.go:44-111 | Unknown if any leaf is unknown, else the minimum over all resolutions of the maximum over the leaves taken |
| `License.LevelsExactly` | pkg/licensing/scanner.go:99-111 | Without unknown leaves: critical exactly when a forbidden license cannot be avoided, at least high when a forbidden or restricted one cannot, and so on down |
| `License.LookupExactly` | pkg/licensing/scanner.go:113-124 | A leaf gets a category configured with one of its names, or unknown if there is none |
| `License.LookupDeterminedIff` | pkg/licensing/scanner.go:113-124 | The categories of the leaves are independent of the map's iteration order, if and only if no leaf matches two categories |
| `License.BetweenExtremes` | pkg/licensing/scanner.go:44-124 | However the leaves are looked up, the result lies between matching every leaf as low and as high as possible |
| `License.SeverityDeterminedIff` | pkg/licensing/scanner.go:44-124 | The severity is independent of the map's iteration order if and only if these two extremes have the same severity, even if a leaf matches two categories |
| `Severity.TerminatesIff` | pkg/vulnerability/vulnerability.go:129-174 | The two mutually recursive functions terminate, if and only if `auto` is not reached, or the data source is not `auto`, or it has a vendor severity |
| `Severity.AutoSourceDiverges` | pkg/vulnerability/vulnerability.go:152-174 | The data source `auto` without a vendor severity recurses for ever |
| `Severity.AutoPrecedence` | pkg/vulnerability/vulnerability.go:152-174 | Detection gives the source's own severity; else that of GitHub for GHSA identifiers if it has one, else that of NVD, provided it is not unknown; else the entry's own; else unknown. An unknown severity from GitHub is not looked up further at NVD |
| `Severity.DetectedExactly` | pkg/vulnerability/vulnerability.go:152-174 | The same precedence clause by clause, from the vendor severities named "ghsa" and "nvd" |
| `Severity.SelectExactly` | pkg/vulnerability/vulnerability.go:129-150 | The first configured source that is "auto" or has a vendor severity decides; without one the severity is unknown |
| `Severity.SelectIsGetSeverity` | pkg/vulnerability/vulnerability.go:129-150 | Whenever it terminates, the mutual recursion computes the plain search through the sources |
| `Severity.SelectNotEmpty` | pkg/vulnerability/vulnerability.go:129-174 | The selected severity is never empty, and a named source has that very severity |
| `FillInfo.FillEntry` | pkg/vulnerability/vulnerability.go:66-122 | One entry becomes the completed entry: status, severity, source, vendor severities and URL |
| `FillInfo.FillAll` | pkg/vulnerability/vulnerability.go:64-127 | Every entry of the slice is completed in place, independently of the others |
| `FillInfo.FillStatus` | pkg/vulnerability/vulnerability.go:70-74 | The status is fixed exactly with a fixed version, and an unknown one becomes affected |
| `FillInfo.FillUnlisted` | pkg/vulnerability/vulnerability.go:76-85 | An entry unknown to the database keeps its details, and an empty severity becomes unknown |
| `FillInfo.FillListed` | pkg/vulnerability/vulnerability.go:87-121 | A known entry gets the database's details; it keeps a severity that came with a source and gets a selected one otherwise, with the base ID before the ID as data source, and GitHub only for "GHSA-" identifiers |
| `FillInfo.FillIdempotent` | pkg/vulnerability/vulnerability.go:64-127 | Filling again with the same database changes nothing |
| `FillInfo.EmptySeverityIff` | pkg/vulnerability/vulnerability.go:64-127 | A severity stays empty exactly for an entry known to the database that came with a severity source and no severity |
| `ModuleMerge.UpdateResults` | pkg/module/module.go:572-608 | The nested loops leave the same findings at the same places, each with the details that were last returned about it for the target, class and type |
| `ModuleMerge.DeleteResults` | pkg/module/module.go:610-637 | The nested loops leave, in order, exactly the vulnerabilities for which no result of the same target, class and type returned one with the same ID, package name, path and version, and likewise misconfigurations by ID, lines and status |
| `ModuleMerge.DeletedStripped` | pkg/module/module.go:610-637 | The single filter leaves exactly those findings |
| `ModuleMerge.UpdatedRefreshed` | pkg/module/module.go:572-608 | The single override gives each finding exactly those details |
| `ModuleMerge.UpdatedNext` | pkg/module/module.go:572-608 | One more returned result continues the single override |
| `ModuleMerge.DeletedNext` | pkg/module/module.go:610-637 | One more returned result continues the single filter |
| `ModuleMerge.OverrideIsLastMatch` | pkg/module/module.go:578-602 | Overriding in turn leaves the details of the last match |
| `ModuleMerge.UpdateKeepsIdentity` | pkg/module/module.go:572-608 | An update keeps number, order and identity of findings, gives each its last match's details, and is idempotent |
| `ModuleMerge.DeleteIdempotent` | pkg/module/module.go:610-637 | Deleting twice is deleting once |
| `CheckBundle.Client.NeedsUpdate` | pkg/policy/policy.go:197-267 | When the registry is asked, what is answered in each case including errors, and what is left in the metadata file |
| `CheckBundle.Client.Download` | pkg/policy/policy.go:116-158 | Success stores digest, time, version and custom flag; a failure leaves the old file or, for a failing encoder, a corrupt one |
| `CheckBundle.Client.Session` | pkg/commands/operation/operation.go:101-111 | A session is one step of the abstract machine |
| `CheckBundle.ContactLeaves` | pkg/policy/policy.go:116-267 | After a contact the stored digest is the one seen last, and exactly when the next session makes contact |
| `CheckBundle.QuietKeepsFile` | pkg/policy/policy.go:235-238 | Sessions without contact leave the file alone |
| `CheckBundle.ContactsADayApartIff` | pkg/policy/policy.go:116-267 | In any run with a clock that never runs backwards, sessions that contact the registry are at least 24 hours apart if and only if every session that fetches a bundle of an unexpected version is followed by one at least 24 hours later |
| `CheckBundle.ContactsADayApart` | pkg/policy/policy.go:116-267 | In any run with a clock that never runs backwards and bundles of an expected version, sessions that contact the registry are at least 24 hours apart |
| `CheckBundle.UnexpectedAlwaysRefetched` | pkg/policy/policy.go:225-232 | Once a bundle of an unexpected version was fetched, every later session downloads again while the registry offers such versions |

## Left out

- The errgroup, channel and context contracts are assumed: a member's error report and exit are one
  step, a send and its receive are one step, `Wait` returns after all members. Progress bars and
  logging are not modelled.
- `onItem`, `onResult` and `onFile` are arbitrary; progress statements assume that `onItem` and
  `onFile` return.
- The wrapping of errors with messages is not modelled.
- VEX document formats and their matching: the verdict is an arbitrary pure function. The map from
  package UIDs to components is given; which of two components with the same UID it keeps is not
  modelled. Every recorded parent is taken to be a component.
- Path cleaning and splitting: paths start as the parts of a cleaned path. Volume names and paths
  above the root are not modelled.
- Sizes and times of nodes, `Stat`, `Glob`, `Sub`, `CopyDir`, and the
  operating system's files behind underlying paths.
- MapFS.VisitPath: a failing `os.Stat` or a directory behind a real file stops the walk at that node;
  in the source it stops while the directory above, or the node's own content, is listed.
- MapFS.FS.FilterFunc: does not state which comes first when one node stops the walk and another one
  sends it round in circles.
- MapFile.File.Store: does not model concurrent writers of the same node; the maps inside nodes are
  plain maps.
- Ordering.SortBySeverity: an insertion sort stands in for Go's sort; only its contract is used.
- The severity comparison of the vulnerability database library is taken as the difference of ranks.
- ResultFilter.Result.ApplyPolicy: does not model secrets, licenses, or reading and preparing the
  policy file, which can fail as well, because they repeat the same filter.
- ResultFilter.Result.FilterResult: does not model the secrets, licenses and cryptographic findings of
  a result, so it succeeds where the source can still fail on those.
- Secrets, licenses and cryptographic findings in a result, and their filters; Rego evaluation, glob and
  package-URL matching are arbitrary functions.
- The parser, normaliser and text patterns of licenses; the model starts from a parsed expression.
- FillInfo.FillAll: requires that the selection terminates for every entry, as the code does;
  `Severity.TerminatesIff` says when. The choice of the primary URL is an arbitrary function.
- The Wasm runtime, `findIDs` and the insert action of modules.
- Downloading and unpacking of artifacts, JSON encoding, the clock and the disk: what they answer is
  a parameter.
- CheckBundle.Client.Session: models sessions in which every step succeeds; failing steps are in the
  contracts of `NeedsUpdate` and `Download`.
- Machine integers: counters, offsets and times are unbounded.
- CLI wiring, registries, caches, RPC conversion and report rendering.
