# Orca: verified models

This project models the parts of Orca whose correctness is a statement about all inputs or all runs, and
proves those statements with Dafny 4.11. `dafny verify dfyconfig.toml` checks the whole project.

| files | what they model |
|---|---|
| `WindowsArguments` | the launcher that prints an argument vector as one Windows command line, and a reader that follows Microsoft's "Parsing C command-line arguments" |
| `AgentAwake`, `AwakeStatuses`, `LidHistory`, `AwakeHost` | the keep-awake service and the Linux lid-sleep assertion: two objects that call each other, their timers and retry window, and an environment that may throw at every call |
| `EditDistance`, `CommandSuggestion` | edit distance by two swapped rows, and typo recovery with its guard against destructive commands |
| `AccessibilityTree`, `ElementText`, `ElementMeaning`, `TabCompaction`, `LostTabRecord`, `PythonText` | the capped, eliding walk over an accessibility tree, what it says of one element, the lookup that follows a record back to its element, the in-place compaction of browser tabs, and a window on which it loses a record |
| `EntryGuard` | the worklist that collects the chunks a plain-Node entry reaches, and the electron test |
| `ArgParser`, `ShellQuoting`, `ScriptLines`, `DueDate` | the command-line parser, quoting for a POSIX shell and the tokenizer for leading words, line scanning of hook scripts, the due-date check |
| `DockIcon`, `ProjectRuntime` | the promise chain that persists the Dock icon, and the batched lookup of project runtimes |
| `JavaScriptText`, `Digits`, `Options` | white space of JavaScript, decimal numbers, the option type |

Conventions. Text is `seq<char>`, except in `CommandSuggestion`, which counts edits and so works on UTF-16 code
units. Elsewhere the characters that the modelled code tests lie in the Basic Multilingual Plane, so that working on
Unicode scalar values changes nothing but the exclusion of unpaired surrogates. Time is an integer number of
milliseconds. Code that throws returns an outcome instead. A choice that belongs to the environment (a call that
throws, a child that exits, a clock that jumps) is left open, so a contract holds for every such choice. Calls and
callbacks are steps of their own. A history field (`history`, `blockerCalls`, `asked`, `killed`, `issued`, `overtaken`, `rows`, `gone`)
records what a run has done so that a property of the whole run can be stated; it is specification only.

Results that the code meets only under a condition are stated with that condition, both ways:

- The tokenizer for leading words drops empty words and turns a single quote into a backslash
  (`ShellQuoting.TokenizerAgreesIff`).
- A repeated flag comes back intact iff no value holds the separator, and only from its last bare occurrence on
  (`ArgParser.RepeatedValuesComeBack`).
- The parser's look-ahead may see other command words than the parser goes on to read: `ArgParser.LookAheadMayDiffer`
  is a command line. They take the same tokens for command words iff, before each token that is no flag, the number
  of unknown flags in a row is odd exactly when the parser takes the token for the value of the last of them
  (`ArgParser.SamePositionsIff`); on an unambiguous command line, iff flags without a value come in pairs
  before what follows them (`ArgParser.UnambiguousInStepIff`). They agree on every path iff the words are the same (`ArgParser.PathsAgreeIff`),
  which they may be by chance at other positions (`ArgParser.SameWordsByChance`).
- Stale Dock-icon requests issue commands: one that became stale while its `ClearIcon` was in flight still clears
  the two attributes (`DockIcon.SupersededClassicStillClears` is a run). A run issues a stale command iff a request
  was accepted while a `ClearIcon` was in flight that has settled since (`DockIcon.Run`); one continuation does iff
  its classic icon has been superseded (`DockIcon.DockIconPersistence.Continue`).
- Tab compaction takes the record of a line that stays iff that record has the index of a line that goes
  (`TabCompaction.CompactionIntactIff`). Indexes repeat only after a compaction, so that the first one is exact
  (`TabCompaction.FirstCompaction`), and a walk keeps all such records unless a later compaction meets such a clash
  (`AccessibilityTree.RenderedKeeps`); `LostTabRecord.SecondCompactionLosesRecord` is a window with two tab lists on
  which the second takes a record of the first.
- The batched runtime lookup differs from the single one only for a remote repository that shares its identifier
  with a local one (`ProjectRuntime.BatchAgreesIff`).
- The retry window is kept iff no failure comes to be pending with an earlier time than one before it that no stop has
  followed (`LidHistory.WindowAlwaysKeptIff`, at one moment `LidHistory.WindowKeptIff`). A clock that does not run back
  suffices; `LidHistory.ClockBackBreaksWindow` is a run on which it goes back and the window is broken. The window of
  the failure directly before a spawn is kept in any case (`LidHistory.RetryWindowAnyClock`).

## Model

| member | source | states |
|---|---|---|
| WindowsArguments.QuoteArgument | native/windows-cli-launcher/OrcaCliLauncher.cs:93-131 | the two loops produce the escaped form that the round trip below is proved about |
| WindowsArguments.BuildArguments | native/windows-cli-launcher/OrcaCliLauncher.cs:82-91 | the command line, read with any of the three runtimes' rules, gives back the CLI path and exactly the arguments |
| WindowsArguments.EscapedReads | native/windows-cli-launcher/OrcaCliLauncher.cs:105-130 | text escaped with any number of backslashes held back reads, inside quotes, as those backslashes and the value |
| WindowsArguments.BareReads | native/windows-cli-launcher/OrcaCliLauncher.cs:95-103 | a value without quotes or white space may stand unquoted: its backslashes stay literal |
| WindowsArguments.ReadingUndoesPrinting | native/windows-cli-launcher/OrcaCliLauncher.cs:82-131 | for every path and argument list, whether a doubled quote toggles, stays or ends: reading the printed line returns the list |
| WindowsArguments.CommandLineInjective | native/windows-cli-launcher/OrcaCliLauncher.cs:82-131 | different argument vectors never print the same command line |
| WindowsArguments.LeftAloneIff | native/windows-cli-launcher/OrcaCliLauncher.cs:93-103 | a value stands unquoted iff it is not empty and holds no double quote and no white space of Unicode |
| AwakeStatuses.NextExpiry | src/main/agent-awake-service.ts:136-151 | the scan finds the earliest expiry strictly after now among observed working statuses, or that there is none |
| AwakeStatuses.WantsBlockingIff | src/main/agent-awake-service.ts:107-132 | blocking is wanted iff the service is enabled and some observed working status has not yet gone stale |
| AwakeStatuses.NoTimerOnlyAtExpiry | src/main/agent-awake-service.ts:105-162 | blocking is wanted with no timer armed only at an instant at which all statuses that ask for it expire |
| AwakeStatuses.ReleasedAfterLastExpiry | src/main/agent-awake-service.ts:105-132 | an enabled service asks for release iff every observed working status expired strictly before |
| AwakeStatuses.TimerMissesNothing | src/main/agent-awake-service.ts:134-162 | after a scan the answer cannot change before the timer is due, and without a timer it is release |
| LidHistory.AttemptKeepsLaws | src/main/linux-lid-sleep-assertion.ts:57-70 | an attempt through the open gate keeps conservation of children and the pacing of spawns |
| LidHistory.SpawnKeepsLaws | src/main/linux-lid-sleep-assertion.ts:90-113 | a new child is counted once, and the failure before it may be forgotten |
| LidHistory.StopKeepsLaws | src/main/linux-lid-sleep-assertion.ts:116-133 | stopping turns the current child into a killed one and reopens the gate |
| LidHistory.ReportKeepsLaws | src/main/linux-lid-sleep-assertion.ts:146-157 | reporting turns the current child into a reported one; it was neither stopped nor reported before |
| LidHistory.FailureKeepsLaws | src/main/linux-lid-sleep-assertion.ts:170-186 | a failure closes the gate for the retry window, or for good if the program is missing |
| LidHistory.RetryWindow | src/main/linux-lid-sleep-assertion.ts:57-65 | over a whole history: no spawn after ENOENT, and none within 30000 ms of a failure unless stop ran in between or a later failure bears an earlier time |
| LidHistory.WindowKeptIff | src/main/linux-lid-sleep-assertion.ts:57-65 | at one moment: the gate keeps the window of a failure that no stop has followed iff that failure is not later than the pending one |
| LidHistory.WindowAlwaysKeptIff | src/main/linux-lid-sleep-assertion.ts:57-65 | over any history, at every moment that a stop does not follow: the gate keeps the window of every failure that no stop has followed iff no failure comes to be pending with an earlier time than such a one before it |
| LidHistory.ClockBackBreaksWindow | src/main/linux-lid-sleep-assertion.ts:57-65 | four turns on which the clock goes back: a spawn at 80000 although an attempt failed at 100000 and nothing was stopped |
| LidHistory.RefreshIsTurn | src/main/agent-awake-service.ts:105-118 | every refresh of a lawful assertion is one of the turns that such runs are made of |
| LidHistory.RetryWindowAnyClock | src/main/linux-lid-sleep-assertion.ts:57-65 | with any clock, a spawn keeps the window of the failure it directly follows |
| AgentAwake.LinuxLidSleepAssertion.Start | src/main/linux-lid-sleep-assertion.ts:57-114 | attempts iff on Linux, childless, available and past the gate; the outcome is a tracked child or a handled failure; the timer is armed iff the gate is closed |
| AgentAwake.LinuxLidSleepAssertion.Stop | src/main/linux-lid-sleep-assertion.ts:116-133 | no child, gate or timer is left, and a child that ran has been sent exactly one kill |
| AgentAwake.LinuxLidSleepAssertion.HandleChildFailure | src/main/linux-lid-sleep-assertion.ts:139-159 | a child that is listened to is reported once and detached; one that was stopped or reported changes nothing |
| AgentAwake.LinuxLidSleepAssertion.DetachChildListeners | src/main/linux-lid-sleep-assertion.ts:161-168 | exactly this child's listeners and clean-up entry go |
| AgentAwake.LinuxLidSleepAssertion.HandleFailure | src/main/linux-lid-sleep-assertion.ts:170-186 | ENOENT is final and silent; otherwise gate and timer are set and the owner refreshes, which cannot spawn; the re-entrant chain terminates |
| AgentAwake.LinuxLidSleepAssertion.ScheduleRetry | src/main/linux-lid-sleep-assertion.ts:213-225 | an armed timer is left alone, otherwise it is due when the gate opens |
| AgentAwake.LinuxLidSleepAssertion.ResetRetrySuppression | src/main/linux-lid-sleep-assertion.ts:227-234 | neither gate nor timer is left |
| AgentAwake.LinuxLidSleepAssertion.RetryTimerFires | src/main/linux-lid-sleep-assertion.ts:218-221 | the owner refreshes, after which the timer is armed again iff the gate is closed, anew and for the instant at which it opens |
| AgentAwake.AgentAwakeService.constructor | src/main/agent-awake-service.ts:54-82 | a new service holds every invariant and nothing else |
| AgentAwake.AgentAwakeService.Refresh | src/main/agent-awake-service.ts:105-118 | the stale timer is set for the next expiry; if blocking is wanted nothing is stopped, the tracked blocker is asked about, a new one is started if there is none or it is off, and one just started is asked about; otherwise the tracked one is stopped; the Linux assertion is started or stopped with it |
| AgentAwake.AgentAwakeService.ScheduleStaleTimer | src/main/agent-awake-service.ts:134-162 | the timer is armed iff an observed working status expires later than now, and for the earliest such expiry |
| AgentAwake.AgentAwakeService.StartBlocker | src/main/agent-awake-service.ts:172-190 | the calls it makes and the blocker it leaves tracked, exactly: ask, start unless it may still be on, ask again; nothing is stopped, and no started blocker is ever untracked |
| AgentAwake.AgentAwakeService.BeginBlocker | src/main/agent-awake-service.ts:175-181 | the first half of that: a new blocker is started and tracked, and asked about, unless the start throws |
| AgentAwake.StartingNeverStops | src/main/agent-awake-service.ts:172-190 | starting, once or again after a failure, only adds calls, at least one, and none of them stops a blocker |
| AgentAwake.AgentAwakeService.StopBlocker | src/main/agent-awake-service.ts:240-257 | the tracked blocker is stopped and forgotten only if Electron says that it is off |
| AgentAwake.AgentAwakeService.ReconcileBlocker | src/main/agent-awake-service.ts:259-278 | asks once whether the tracked blocker is on; only a No forgets it, an unanswered question counts as still on |
| AgentAwake.AgentAwakeService.SetEnabled | src/main/agent-awake-service.ts:84-90 | a change refreshes, a repetition does nothing |
| AgentAwake.AgentAwakeService.SetStatuses | src/main/agent-awake-service.ts:92-95 | the new statuses are the ones refreshed with |
| AgentAwake.AgentAwakeService.PowerResumes | src/main/agent-awake-service.ts:74-78 | a resume refreshes, while subscribed |
| AgentAwake.AgentAwakeService.StaleTimerFires | src/main/agent-awake-service.ts:155-158 | the timer refreshes and is set anew for the next expiry |
| AgentAwake.AgentAwakeService.Dispose | src/main/agent-awake-service.ts:97-103 | timer, subscription, blocker and assertion are released; an exception from the macOS assertion leaves the Linux one as it was |
| AgentAwake.Turn | src/main/agent-awake-service.ts:84-118 | any input at all, allowed callbacks only: exactly what it sets, whether it refreshes, that nothing is stopped while blocking is wanted, and which failure it may add - an exit is never ENOENT; every invariant is kept and the assertion makes a turn |
| AgentAwake.Run | src/main/agent-awake-service.ts:42-279 | after any run from the start: no blocker untracked, and where Electron neither throws nor drops blockers exactly one is on iff the last refresh wanted blocking; every child exactly one of current, killed, reported, timer iff gate, nothing after ENOENT, and the retry window kept unless a later failure bears an earlier time, which a clock that does not run back excludes |
| EditDistance.NoScriptIsShorter | src/cli/command-suggestion.ts:50-72 | no script of insertions, deletions and substitutions, anywhere and in any order, is shorter than the distance |
| EditDistance.ShortestScript | src/cli/command-suggestion.ts:50-72 | a script as long as the distance exists |
| EditDistance.DistanceIsLeastLength | src/cli/command-suggestion.ts:50-72 | the recursion that the rows fill is the least length of an edit script |
| EditDistance.EditChangesByOne | src/cli/command-suggestion.ts:64-65 | one edit at any place changes the distance to a third text by at most one |
| EditDistance.Symmetric | src/cli/command-suggestion.ts:50-72 | the distance is symmetric |
| EditDistance.Triangle | src/cli/command-suggestion.ts:50-72 | the triangle inequality |
| EditDistance.ZeroIffEqual | src/cli/command-suggestion.ts:50-72 | zero iff equal |
| EditDistance.Bounds | src/cli/command-suggestion.ts:50-72 | between the difference of the lengths and the greater of them |
| EditDistance.Levenshtein | src/cli/command-suggestion.ts:50-72 | two swapped rows return the least length of an edit script |
| CommandSuggestion.DestructiveVerbs | src/cli/command-suggestion.ts:21-31 | exactly the last tokens of all paths and aliases of destructive commands |
| CommandSuggestion.IntendsDestruction | src/cli/command-suggestion.ts:36-43 | true iff some verb is within one edit of the token |
| CommandSuggestion.RankIsBest | src/cli/command-suggestion.ts:75-81 | ranking distinct labels picks exactly the best three or fewer at distance one to three, in order; labels that collate as equal keep the order in which they came up |
| CommandSuggestion.BestIsUnique | src/cli/command-suggestion.ts:75-81 | being the best leaves no choice where the order decides: two best lists are equal |
| CommandSuggestion.SuggestCommands | src/cli/command-suggestion.ts:84-111 | under any collation the suggestions are the best of the competing texts - the first tokens of all paths and aliases for a single token, else the paths and aliases of the same length - with ties in order of appearance; without destructive intent each is a path of a harmless command |
| CommandSuggestion.JoinedIsSpelled | src/cli/command-suggestion.ts:85-103 | a text is the joined path iff it is its tokens in order with one space between any two |
| CommandSuggestion.CandidateText | src/cli/command-suggestion.ts:92-103 | a path competes against a single token with its first one, against a longer input only if it is as long, and then with all of its tokens |
| ElementText.LineShowsIndex | native/computer-use-linux/runtime.py:420-432 | the number read from the start of a record's line is the record's index |
| ElementMeaning.LineReads | native/computer-use-linux/runtime.py:419-431 | what the line says: index, role, title; the value unless it is blank or the title; the texts of a summarised container or of a row; the actions that not every element offers |
| ElementMeaning.SnippetsAre | native/computer-use-linux/runtime.py:354-375 | the collected texts are the first different ones of the labels in the order of the tree, at most so many and 80 characters each |
| ElementMeaning.SummarisedIff | native/computer-use-linux/runtime.py:377-400 | a subtree is summarised iff it is a nameless container of nothing but plain elements, at most four levels down, that carry at least two different texts |
| ElementMeaning.EndsAtIff | native/computer-use-linux/runtime.py:271-284 | the children of a shown element are left out iff it is summarised, or one of the ten compact roles with a name, an identifier or a value |
| ElementMeaning.ShouldElideIff | native/computer-use-linux/runtime.py:396-400 | an element is left out iff it is a container without name, identifier, value, summary and actions and with at most one readable child |
| ElementMeaning.MeaningfulAre | native/computer-use-linux/runtime.py:238-248 | the actions kept are those that are none of the seven that every element offers |
| ElementMeaning.TabLineIff | native/computer-use-linux/runtime.py:419-486 | the line of an element is taken for a tab line iff its role is one of the three, or goes on with a space, a parenthesis or a comma after one of them; a role that ends in space or is "page" is not decided by itself |
| AccessibilityTree.FindElement | native/computer-use-linux/runtime.py:727-767 | the cursor loop finds the element at the path iff its role, name, identifier and actions are those recorded, and nothing otherwise |
| AccessibilityTree.Walk | native/computer-use-linux/runtime.py:402-439 | the in-place walk renders exactly the tree's rendering, compactions included, that the results below are about |
| AccessibilityTree.WalkChildren | native/computer-use-linux/runtime.py:415-416 | the same for the readable children of an element, in order, each under its own index |
| AccessibilityTree.RenderedIsProcess | native/computer-use-linux/runtime.py:402-439 | as long as nothing is compacted, the rendering is what the visits in preorder give under the caps |
| AccessibilityTree.VisitsFollowPaths | native/computer-use-linux/runtime.py:402-439 | every visit, through elided containers too, is of the element its path leads to |
| AccessibilityTree.VisitsAreReached | native/computer-use-linux/runtime.py:402-439 | every visit is of an element above which all are bare containers or do not stand for their subtrees; it is too deep iff more than 64 elements are shown above it, else left out iff it is a bare container, else indented by the number of elements shown above it |
| AccessibilityTree.ReachedAreVisited | native/computer-use-linux/runtime.py:402-439 | every such element is visited |
| AccessibilityTree.VisitsOnce | native/computer-use-linux/runtime.py:402-439 | no element is visited twice |
| AccessibilityTree.Covered | native/computer-use-linux/runtime.py:402-439 | every element of the tree is visited, or lies below one too deep or one that stands for its subtree |
| AccessibilityTree.ProcessMeans | native/computer-use-linux/runtime.py:403-418 | the caps leave the first 1200 recorded visits, numbered in order, each with its line; truncated iff a visit was too deep or came too late |
| AccessibilityTree.RecordsAreFound | native/computer-use-linux/runtime.py:727-767 | looking up any record of the walk returns the very element it was made from |
| AccessibilityTree.NothingMissing | native/computer-use-linux/runtime.py:402-441 | if nothing is truncated, every element of the tree is a bare container, or is recorded, or lies below a recorded element that is summarised or a compact control with a label |
| AccessibilityTree.ShownIff | native/computer-use-linux/runtime.py:402-439 | if nothing is truncated, an element has a record iff it is no bare container and every element above it is a bare container or does not stand for its subtree |
| AccessibilityTree.RenderedKeeps | native/computer-use-linux/runtime.py:402-475 | whatever is compacted, every line is that of a visit or a marker and every record has its line; unless a compaction clashes, and the first never does, every such line has its record |
| AccessibilityTree.RenderedComplete | native/computer-use-linux/runtime.py:402-475 | whatever is compacted, unless truncated every element to be shown has its line or went with it, and nothing is lost otherwise |
| AccessibilityTree.RenderedOrdered | native/computer-use-linux/runtime.py:402-475 | whatever is compacted, the lines that are left stand in the order of the tree |
| AccessibilityTree.RenderedFlags | native/computer-use-linux/runtime.py:403-407 | there are at most 1200 records; the depth flag is only set for an element too deep, and if less than 1200 are to be shown both flags are set iff there is one |
| AccessibilityTree.RenderAccessibilityTree | native/computer-use-linux/runtime.py:349-441 | every record of the result is found again; all of the above, with and without compaction; without one the records and lines are the first 1200 shown elements in order, and unless truncated no element is unaccounted for |
| TabCompaction.FindTabLines | native/computer-use-linux/runtime.py:445-450 | exactly the direct tab lines, in ascending order |
| TabCompaction.TabLineReads | native/computer-use-linux/runtime.py:478-486 | a tab line is tabs, a number, a space, one of the three roles in letters of any case, and then nothing more or a space, a parenthesis or a comma |
| TabCompaction.TabLineOf | native/computer-use-linux/runtime.py:478-486 | every such line is one |
| TabCompaction.ActiveLineIff | native/computer-use-linux/runtime.py:488-495 | a line is active iff it is marked as selected, or its record is selected or has the value 1 |
| TabCompaction.CompactsIff | native/computer-use-linux/runtime.py:445-461 | something is compacted iff there are at least ten direct tab lines, one of them active and one not |
| TabCompaction.DeleteInactiveTabs | native/computer-use-linux/runtime.py:462-472 | deleting from the last line back removes exactly the inactive tab lines, counts them and gathers their record indexes |
| TabCompaction.CompactRenderedBrowserTabs | native/computer-use-linux/runtime.py:444-475 | nothing changes unless there are ten tab lines, some active and some not; then exactly the inactive tab lines and the records with their indexes go, and one marker with the count stands at the first tab's place |
| TabCompaction.RecordGoesIff | native/computer-use-linux/runtime.py:462-474 | a record goes iff an inactive tab line shows its index |
| TabCompaction.CompactionIntactIff | native/computer-use-linux/runtime.py:462-475 | if each line had its record, then each line that stays still has it iff none shares an index with a line that goes |
| TabCompaction.MarkerIsNoTab | native/computer-use-linux/runtime.py:475-485 | the marker's number is the count, and no later compaction takes the marker for a tab line or a record's line |
| TabCompaction.FirstCompaction | native/computer-use-linux/runtime.py:462-475 | while record k has index k and belongs to line k, the records that go are exactly those of the lines that go |
| LostTabRecord.ListRendered | native/computer-use-linux/runtime.py:402-475 | a list of ten or more tabs, one of them selected, renders as its line, a marker and the selected tab; every other record with an index of its tabs goes |
| LostTabRecord.SecondCompactionLosesRecord | native/computer-use-linux/runtime.py:408-474 | a window with two tab lists, walked from the start: the second compaction deletes the record of a tab of the first list whose line stays |
| EntryGuard.CollectReachableChunks | build-plugins/plain-node-entry-guard.ts:26-49 | terminates on any graph and returns each chunk reachable through known chunks exactly once and nothing else |
| EntryGuard.NothingForgotten | build-plugins/plain-node-entry-guard.ts:33-47 | an empty stack with all seen imports means that all reachable chunks were found |
| EntryGuard.RequiresElectronIff | build-plugins/plain-node-entry-guard.ts:24 | the test holds iff the pattern occurs somewhere, with any spaces where it allows them |
| EntryGuard.AssertNoElectronRequire | build-plugins/plain-node-entry-guard.ts:51-66 | passes iff no reachable chunk requires electron, and otherwise names one that does |
| ArgParser.CommandPathStartsAt | src/cli/args.ts:80-94 | the cursor loop decides whether a registered path starts here, flags and their values skipped |
| ArgParser.PathStartsIffPrefix | src/cli/args.ts:80-94 | on any command line a path starts here iff it is a prefix of the words that the look-ahead sees |
| ArgParser.YieldsIff | src/cli/args.ts:122-128 | a flag before the command gives up its value iff the words seen after it begin with a registered path and those seen one token later do not |
| ArgParser.StepsAlikeIff | src/cli/args.ts:83-135 | at a flag the look-ahead and the parser pass over the same tokens iff the flag stands alone, or a token follows that is no flag and that is not given up to a command |
| ArgParser.SamePositionsIff | src/cli/args.ts:80-138 | the look-ahead and the parser take the same tokens for command words iff they are in step: before each token that is no flag, an odd number of unknown flags in a row stands exactly when the parser reads it as a value |
| ArgParser.PathsAgreeIff | src/cli/args.ts:80-138 | the look-ahead accepts here exactly the paths whose words the parser reads next iff it sees the words that the parser reads |
| ArgParser.PathStartsIffParsed | src/cli/args.ts:80-138 | in step, a path starts here iff the parser reads its words next |
| ArgParser.UnambiguousInStepIff | src/cli/args.ts:80-138 | on an unambiguous command line the two are in step iff before each word and each flag with a separate value an even number of bare flags stands in a row |
| ArgParser.SameWordsByChance | src/cli/args.ts:80-138 | `--foo x --bar --baz x` where x x is a command: the words are the same although the look-ahead sees the second x and the parser reads the first |
| ArgParser.FlagBeforeFlag | src/cli/args.ts:80-135 | whenever two unknown flags stand before two commands, the look-ahead sees the first command and the parser reads the second |
| ArgParser.LookAheadMayDiffer | src/cli/args.ts:80-135 | `--foo --bar x y` is such a command line |
| ArgParser.ParseArgs | src/cli/args.ts:96-140 | the loop with its look-ahead computes the outcome that the round trips below are about |
| ArgParser.ParsingUndoesPrinting | src/cli/args.ts:96-140 | what is spelled without ambiguity, separate values included, parses to the same words and to the last value of each flag |
| ArgParser.PlainSpellingsRoundTrip | src/cli/args.ts:96-140 | words, `--name=value` and known boolean flags mix in any order under any registry |
| ArgParser.UpdateAccounts | src/cli/args.ts:71-78 | each flag read combines with the earlier values of that flag and leaves all others alone |
| ArgParser.RepeatedValuesComeBack | src/cli/flags.ts:23-39 | the values of a repeated flag after its last bare occurrence come back in order without the empty ones, iff none of them holds the separator |
| ArgParser.RepeatedValuesRoundTrip | src/cli/flags.ts:23-39 | the same from any unambiguous command line on, through the parser |
| ArgParser.LabelsRoundTrip | src/cli/flags.ts:23-39 | in particular, every `--label=value` comes back in order |
| ShellQuoting.QuotedIsOneWord | src/cli/shell-command-quote.ts:1-9 | a POSIX shell reads the quoted value as one word equal to it, for every value |
| ShellQuoting.QuotedListReads | src/cli/shell-command-quote.ts:1-9 | quoted values with spaces between them are read as exactly these words |
| ShellQuoting.EscapersAgree | src/main/external-editor-launch.ts:25-30 | the launcher's escaping of paths is the same quoting, so the two results above hold of it |
| ShellQuoting.TokenizeLeadingShellWords | src/cli/codex-command-classification.ts:86-122 | the scanner with its early return computes the tokens that the agreement below is about |
| ShellQuoting.TokensGrow | src/cli/codex-command-classification.ts:86-122 | tokens found are kept, a token begun only grows, no token is empty, and there are no more than asked for |
| ShellQuoting.QuoteIsLost | src/cli/codex-command-classification.ts:93-104 | a quoted value with a single quote comes back as something else |
| ShellQuoting.TokenizerAgreesIff | src/cli/codex-command-classification.ts:86-122 | on quoted words with limit n the first n words come back, iff none of them is empty or holds a single quote |
| ShellQuoting.QuotedWordsComeBack | src/cli/codex-command-classification.ts:86-122 | words in double or single quotes that hold no such quote come back as they are, one token each |
| ShellQuoting.LeftAloneIff | src/cli/shell-command-quote.ts:1-9 | a value is left unquoted iff it is not empty and all its characters are harmless |
| ScriptLines.NormalizeCrlfScriptLineEndings | src/main/hooks.ts:471-490 | the chunked loop replaces every CRLF by LF and nothing else |
| ScriptLines.IterateLfScriptLines | src/main/hooks.ts:425-440 | the lines are those of the normalised script split at LF |
| ScriptLines.BuildWindowsRunnerScript | src/main/hooks.ts:404-423 | the header and then the rows of each of those lines |
| ScriptLines.BuildPosixRunnerScript | src/main/hooks.ts:467-469 | the header and then the normalised script |
| JavaScriptText.TrimTakesSpaces | src/main/hooks.ts:411 | trimming takes exactly the white space before the first and after the last character that is none |
| ScriptLines.WindowsRunnerRows | src/main/hooks.ts:404-423 | split at CRLF, the runner has for each line in order one call and one guard, or one blank row |
| ScriptLines.PosixRunnerLines | src/main/hooks.ts:467-469 | split at LF, the runner has the same lines after its header |
| DueDate.YearIsUnique | src/cli/linear-request-builders.ts:94-95 | the year of a day is the only one that has begun and not ended |
| DueDate.CalendarDateRoundTrip | src/cli/linear-request-builders.ts:93-98 | a calendar date turned into a day turns back into itself |
| DueDate.OverflowCheckIsCalendar | src/cli/linear-request-builders.ts:93-98 | overflow and comparison hold iff the numbers name a calendar date of the year 100 or later |
| DueDate.DueDateIsCalendarDate | src/cli/linear-request-builders.ts:87-102 | accepted iff given, of the form dddd-dd-dd, and such a date; otherwise the first failing condition is reported |
| DueDate.DateTextAcceptedIff | src/cli/linear-request-builders.ts:87-102 | year, month and day printed in four, two and two digits with hyphens are accepted iff they are a calendar date of the year 100 or later |
| DueDate.AcceptedIsDateText | src/cli/linear-request-builders.ts:87-102 | every accepted value is such a text |
| DockIcon.BoundedCommand.constructor | src/main/app-icon.ts:136-208 | starts with one timer armed; a child is known iff execFile returned one without throwing; settled at once iff execFile throws or calls back |
| DockIcon.BoundedCommand.Finish | src/main/app-icon.ts:149-162 | settles, once, and no timer is left armed |
| DockIcon.BoundedCommand.FinishAfterFallback | src/main/app-icon.ts:164-174 | the same after the fallback |
| DockIcon.BoundedCommand.FallbackFires | src/main/app-icon.ts:176-189 | without a child it settles; with one it stays unsettled, its exit and close settle it, the second timer is armed in place of the first, and the child is sent a kill |
| DockIcon.DockIconPersistence.Persist | src/main/app-icon.ts:262-275 | an accepted request is chained on the last one and issues nothing itself; it overtakes the work whose `ClearIcon` is in flight |
| DockIcon.DockIconPersistence.React | src/main/app-icon.ts:214-287 | a work that may be called is the next in request order and nothing of an earlier one is in flight; a stale one issues nothing, the latest one its first command, in the state that execFile leaves it in |
| DockIcon.DockIconPersistence.Continue | src/main/app-icon.ts:254-287 | both attributes are cleared after the classic icon's first command, and the turn ends when all commands have settled; a stale command is issued iff the classic icon has been superseded |
| DockIcon.DockIconPersistence.ClearAttributes | src/main/app-icon.ts:254-259 | the two attribute clears are issued together |
| DockIcon.DockIconPersistence.CommandHappens | src/main/app-icon.ts:145-207 | callbacks, exits and timers of one command leave all else alone; a command whose child is known settles only by its callback, by that child's end after the fallback or by the second timer; a timer always brings settling nearer |
| DockIcon.DockIconPersistence.StartWork | src/main/app-icon.ts:214-287 | the work that is called is the next one in the queue, and all works before it have settled |
| DockIcon.Step | src/main/app-icon.ts:136-288 | one step of a run changes at most one command, in one of the ways just named; a work goes on exactly if it may be called or continued, and no later work is called before all commands of the earlier one have settled |
| DockIcon.Run | src/main/app-icon.ts:136-288 | after any requests, calls, callbacks and continuations in any order: works in request order and one at a time; the commands that a work has issued are exactly those of its phase, one to set a custom icon, three to clear the classic one; a stale command iff a request was accepted during a `ClearIcon` that has settled, every command settled at most once and then without a timer, and the latest request last |
| DockIcon.StaleIff | src/main/app-icon.ts:254-287 | in any reachable state, some command was stale iff some work was overtaken whose `ClearIcon` has settled |
| DockIcon.LatestRequestWins | src/main/app-icon.ts:274-279 | once the chain has settled, all commands have, and the last work to issue one is that of the last accepted request |
| DockIcon.Drain | src/main/app-icon.ts:136-219 | from any state the timers alone settle the whole chain |
| DockIcon.SupersededClassicStillClears | src/main/app-icon.ts:280-283 | a run in which a superseded classic request still issues its attribute clears |
| ProjectRuntime.ResolveForRepos | src/main/local-project-runtime-resolution.ts:60-92 | every local repository gets what the single lookup gives it, the first listing project winning, and there are no other entries |
| ProjectRuntime.BatchAgreesIff | src/main/local-project-runtime-resolution.ts:43-92 | the batch agrees with the single lookup except on a remote repository that shares the identifier of a listed local one |

## Left out

- The macOS sleep assertion: on Linux it does nothing, and elsewhere the Linux one does nothing. Its calls have no part in the state of `AgentAwakeService`, and its own callback is not modelled; only that disposing of it may throw.
- The lid assertion's `logFailure` and failure streak, and all other logging and error texts.
- Timer delays beyond 2147483647 ms, which Node replaces by 1 ms: timers are recorded with the instant at which they should be due, and may fire at any time.
- A power-save blocker that throws from start but starts nonetheless: Electron's start is taken to start nothing when it throws.
- AccessibilityTree.RenderAccessibilityTree: frames, toolkit names and window handles are not part of a record, texts are read once and not truncated again, `str.lower` is left open, and an accessibility tree is finite and does not change between the walk and the lookup.
- TabCompaction.CompactRenderedBrowserTabs: indexes are told apart as in the code. A line that has lost its record in a clash may itself go in a later compaction, so that a walk with a clash may end with a record for each line; what one call loses is exact.
- TabCompaction.IsTabLine: digits are the ASCII digits, the only ones that a rendered line starts with.
- CommandSuggestion.SuggestCommands: the locale's collation is any total preorder on labels. Suggestions for flags use the same ranking and are not modelled.
- ArgParser.ParseArgs: the insertion order of the flag map. Validation, positional normalisation and help are not modelled.
- ShellQuoting.QuotedIsOneWord: the Windows branch of the quoting. The reader reads no text in double quotes and no expansions: the quoting writes none. Whether a shell takes the word for a reserved word or an alias is outside word reading.
- EntryGuard.AssertNoElectronRequire: the smoke load of the daemon entry, and the bundler that supplies the chunks.
- DockIcon.BoundedCommand.FallbackFires: that killing the child succeeds; the second timer does not depend on it.
- DockIcon: the lengths of the two time limits; timers may fire at any time.
- DueDate.DueDateIsCalendarDate: times of day; only whole days occur.
- ProjectRuntime.ResolveForRepos: how a project's runtime follows from preference, settings and WSL availability is a parameter, and the store does not change during a call.
- Processes, files, sockets, AT-SPI, Electron's power interfaces and the clipboard: each call is an operation that may succeed, fail or throw. The user interface, formatting and mobile code are not modelled.
