# Orca: verified models of its algorithms and state machines

Dafny models of the parts of Orca whose correctness is not obvious from reading one function: the keep-awake
controller, typo recovery, command-line quoting, the shell-ready scanner, scrollback snapshots, two concurrency
protocols, release ordering and selection, the macOS install guard, accessibility-tree rendering, the chunk-graph guard
and script line endings. Each model follows its source branch by branch; what the source promises is proved about it for
all inputs, all runs or all interleavings.

| file | what it is about |
|---|---|
| `Basics.dfy`, `Sorting.dfy` | strings as UTF-16 code units, `filter`, the stable sort by a comparator |
| `AwakeDecision.dfy`, `KeepAwake.dfy` | when the machine is kept awake, and the three objects that do it |
| `EditDistance.dfy`, `CommandSuggestion.dfy` | Levenshtein distance as a metric, and the suggestions built on it |
| `ArgvQuoting.dfy` | Windows command-line quoting against the Microsoft argument parser |
| `ShellReadyScanner.dfy` | the streaming marker matcher and the terminal session that feeds it |
| `ByteTrimming.dfy`, `Utf8.dfy`, `ScrollbackSnapshots.dfy` | byte-limited trimming, UTF-8, and the snapshot store |
| `WorkerPool.dfy`, `UsernameEnrichment.dfy` | the bounded worker pool, and single flight with one queued rerun |
| `VersionOrder.dfy`, `PrereleaseFeed.dfy` | semantic-version precedence, and which release is offered |
| `MacInstallGuard.dfy` | holding back quits until an update can be applied |
| `AccessibilityTree.dfy`, `ElementNumbers.dfy`, `TreeRenderer.dfy` | rendering a tree within bounds, finding an element again, and what the displayed numbers are worth |
| `ChunkReachability.dfy`, `LineEndings.dfy` | the plain-Node entry guard, and CRLF handling in setup scripts |

Conventions:

- An object or a module whose variables the source updates in place is a class whose methods update the same
  variables. Where the source is a protocol between asynchronous steps, the statements about runs are lemmas about
  sequences of steps on values, and the object carries its own history: its `Valid()` says that its variables are what
  that run leads to, every method keeps it, and so what is proved of runs holds of the object.
- The world is nondeterministic: spawning, killing, Electron's power-save blockers and canonicalization may each come
  out either way; file writes and manifest readiness are arbitrary functions of what they are asked about.
- One asynchronous event sees one reading of the clock. `localeCompare` is any total preorder, and `Number(...)` of a
  digit string is any function of its value (rounding included); where the order of numbers matters, it is taken to keep
  the order of the two that are compared.
- Calls into Electron and the system are recorded with how they came out, and results are stated on that record.
- Strings are sequences of UTF-16 code units, lone surrogates included.

Where the code does less than its surroundings suggest, the code is kept and the exact condition is proved:

- A status that expires at the very moment of a refresh still blocks but arms no timer, so a stale timer that fires on
  the exact millisecond keeps the machine awake with nothing left to end it (`DecisionStandsIff`,
  `TimerFiringOnTimeIsTooEarly`).
- A concurrency of NaN starts no workers and yields an array of missing entries (`ResultIgnoresInterleaving`).
- A quit held back by the macOS guard hangs, with no timer left to end the app, if it is abandoned first (by a reset, a
  new download or a failed install), or as long as readiness without a newer version has disarmed its timer and neither
  an install nor readiness with a newer version has followed (`HeldQuitIsAnsweredIff`, `HeldQuitIsTrappedIff`).
- If the store throws while it is handed an answer, the pass ends, and the repositories after it are not attempted in
  that pass. A rerun that was already queued takes them up if they are still listed; without one nothing is attempted
  until the next request. The probe itself is documented never to reject (`Quiescence`, `ThrowEndsThePass`).
- A repository that was listed at a request, but removed before the queued pass begins, stays unattempted
  (`RemovedBeforeTheRerunIsMissed`).
- Unparseable versions compare equal to everything (`TransitiveIffParseable`).
- Omitting inactive browser tabs shrinks the list whose length numbers the next record, so a number can be given twice
  and stand on the line of the wrong element (`NumbersLeadBackIff`, `NumberedAndLeadsBackIff`, `LeafReachesTheTab`).
- The comment above `fetchNewerReleaseTag` lists the cases without a tag; the code has one more, a newest release whose
  assets are not there yet (`SelectionFollowsNewest`).

## Model

| member | source | states |
|---|---|---|
| AwakeDecision.EarliestExpiry | src/main/agent-awake-service.ts:137-154 | the loop finds the least expiry strictly after now among working, observed statuses with a finite time, or nothing if there is none |
| AwakeDecision.ShouldBlockIff | src/main/agent-awake-service.ts:105-132 | blocking is decided exactly if the setting is on and some status was observed in this runtime, is working, and is at most two hours old |
| AwakeDecision.DecisionStandsIff | src/main/agent-awake-service.ts:125-154 | the decision equals a fresh evaluation at every moment until the stale timer is due, exactly unless blocking rests on statuses that all expire at this very moment |
| AwakeDecision.TimerFiringOnTimeIsTooEarly | src/main/agent-awake-service.ts:130-158 | a stale timer firing exactly on time for the last status finds it eligible, keeps blocking and arms nothing; one millisecond later it would release |
| KeepAwake.AttemptKeepsPace | src/main/linux-lid-sleep-assertion.ts:57-64 | spawning behind an open retry gate never comes within 30 seconds of a failure that no stop followed |
| KeepAwake.FailureKeepsPace | src/main/linux-lid-sleep-assertion.ts:176-184 | recording a failure keeps that pace once the gate is shut for 30 seconds or the helper is known to be missing |
| KeepAwake.StopKeepsPace | src/main/linux-lid-sleep-assertion.ts:116-133 | a stop lifts the gate without breaking the pace |
| KeepAwake.SleepAssertion.Start | src/main/linux-lid-sleep-assertion.ts:57-114 | after start, with all nested callbacks, the platform's assertion has a live helper, an armed retry timer or is unavailable for good; behind an open gate the helper was spawned, and a child that was there or was spawned stays; nothing covered before is uncovered; the recursion terminates because each failure shuts a gate |
| KeepAwake.SleepAssertion.TrySpawn | src/main/macos-system-sleep-assertion.ts:65-94 | exactly one call to spawn is made, and its outcome is passed on; a spawned helper gets listeners and clears the retry state, a failed one leaves the state for the failure handler |
| KeepAwake.SleepAssertion.Stop | src/main/linux-lid-sleep-assertion.ts:116-137 | after stop there is no child, retry timer or retry deadline, every spawned helper has been killed or has reported failure, and no timer is pending |
| KeepAwake.SleepAssertion.HandleFailure | src/main/linux-lid-sleep-assertion.ts:170-186 | a missing helper makes the assertion unavailable without a callback; any other failure shuts the gate for 30 seconds and leaves a completed refresh behind; while the decision is to block, no helper of its kind is spawned on the way |
| KeepAwake.SleepAssertion.HandleChildFailure | src/main/macos-system-sleep-assertion.ts:121-141 | a failing child, also one reported twice or after its stop, ends up not live, and the assertions agree with the last decision again |
| KeepAwake.SleepAssertion.RetryTimerFires | src/main/linux-lid-sleep-assertion.ts:213-225 | the retry timer, early or late, leaves a completed refresh behind |
| KeepAwake.SleepAssertion.ScheduleRetry | src/main/linux-lid-sleep-assertion.ts:213-225 | at most one retry timer is pending, due when the gate opens and at most 30 seconds ahead |
| KeepAwake.AgentAwakeService.Refresh | src/main/agent-awake-service.ts:105-118 | after every refresh the stale timer is armed for the earliest expiry. If the decision is not to block, Electron was asked to stop the remembered blocker, nothing was spawned, the assertions are idle, and if no call went wrong no blocker is started. If it is to block, Electron was asked to start a blocker or did not deny that the remembered one is started, a helper was spawned exactly if its gate was open, the platform's assertion is covered, and if no call went wrong the remembered blocker is the one started |
| KeepAwake.AgentAwakeService.ScheduleStaleTimer | src/main/agent-awake-service.ts:134-170 | exactly one stale timer is pending, due at the earliest expiry, or none if there is no expiry ahead |
| KeepAwake.AgentAwakeService.StartBlocker | src/main/agent-awake-service.ts:172-190 | Electron is asked to start a blocker unless it did not deny that the remembered one is started; if no call went wrong the remembered blocker is started, and whatever throws, no other one is |
| KeepAwake.AgentAwakeService.StopBlocker | src/main/agent-awake-service.ts:240-257 | Electron is asked to stop the remembered blocker; if no call went wrong none is left, and one that could not be stopped stays remembered |
| KeepAwake.AgentAwakeService.ReconcileBlocker | src/main/agent-awake-service.ts:259-278 | Electron is asked once whether the remembered blocker is started, and it is forgotten exactly if the answer is no |
| KeepAwake.AgentAwakeService.SetEnabled | src/main/agent-awake-service.ts:84-90 | a changed setting is followed by a refresh, with its calls, that settles everything |
| KeepAwake.AgentAwakeService.SetStatuses | src/main/agent-awake-service.ts:92-95 | new statuses are followed by a refresh, with its calls, that settles everything |
| KeepAwake.AgentAwakeService.OnPowerResume | src/main/agent-awake-service.ts:75-78 | a resume re-establishes what the decision asks for |
| KeepAwake.AgentAwakeService.StaleTimerFires | src/main/agent-awake-service.ts:155-158 | the stale timer leaves a completed refresh behind |
| KeepAwake.AgentAwakeService.Dispose | src/main/agent-awake-service.ts:97-103 | after disposal no timer is pending, no helper is live, and Electron was asked to stop the remembered blocker |
| EditDistance.Levenshtein | src/cli/command-suggestion.ts:50-72 | the two-row table with swapped buffers yields the recursive edit distance |
| EditDistance.FillRow | src/cli/command-suggestion.ts:61-66 | the inner loop turns one row of the table into the next |
| EditDistance.DistanceIsShortestScript | src/cli/command-suggestion.ts:50-72 | a number is the distance exactly if it is the least count of single-character insertions, deletions and replacements from one string to the other |
| EditDistance.DistanceZeroIffEqual | src/cli/command-suggestion.ts:50-72 | the distance is zero exactly for equal strings |
| EditDistance.DistanceSymmetric | src/cli/command-suggestion.ts:50-72 | the distance is symmetric |
| EditDistance.DistanceTriangle | src/cli/command-suggestion.ts:50-72 | the distance satisfies the triangle inequality |
| EditDistance.DistanceBounds | src/cli/command-suggestion.ts:50-72 | the distance lies between the difference of the lengths and the greater length |
| CommandSuggestion.ShortlistIsTheBest | src/cli/command-suggestion.ts:75-81 | the shortlist is sorted, within the threshold, and leaves out nothing better than what it keeps |
| CommandSuggestion.DestructiveVerbs | src/cli/command-suggestion.ts:21-31 | the verbs are the last words of all paths and aliases of destructive commands |
| CommandSuggestion.IntendsDestruction | src/cli/command-suggestion.ts:36-43 | destructive intent means some destructive verb within distance one |
| CommandSuggestion.IntentIsAtMostOneEdit | src/cli/command-suggestion.ts:9-12 | within distance one means equal or a single edit away |
| CommandSuggestion.ScoreCandidates | src/cli/command-suggestion.ts:89-109 | every admissible candidate is scored once, with its true distance |
| CommandSuggestion.SuggestCommands | src/cli/command-suggestion.ts:84-111 | at most three suggestions, none twice, within distance three, each the first word of a path for a one-word command and otherwise a path as long as the command; a destructive command is among them only if the last word of the input is within one edit of the last word of a destructive path, and then it competes like any other; closest first; nothing is passed over for a worse one |
| ArgvQuoting.QuoteArgument | native/windows-cli-launcher/OrcaCliLauncher.cs:93-131 | the loop over characters writes the quoted form |
| ArgvQuoting.BuildArguments | native/windows-cli-launcher/OrcaCliLauncher.cs:82-91 | the Microsoft parser, under either quote-doubling rule, turns the built line back into exactly the path and the arguments |
| ArgvQuoting.ParseInvertsQuoted | native/windows-cli-launcher/OrcaCliLauncher.cs:93-131 | one quoted argument parses back to itself and consumes nothing of what follows |
| ArgvQuoting.ParseInvertsCommandLine | native/windows-cli-launcher/OrcaCliLauncher.cs:82-131 | parsing undoes printing for every non-empty argument list |
| ArgvQuoting.LeftAloneIff | native/windows-cli-launcher/OrcaCliLauncher.cs:93-103 | an argument is left as it is exactly if it is not empty and holds neither a double quote nor white space |
| ShellReadyScanner.ScanState.Scan | src/main/shell-ready-marker-scanner.ts:26-69 | matched iff the stream so far holds the marker; before that, output plus held bytes are the input and the held bytes are the longest suffix that could start a marker; on a match exactly the first marker is removed |
| ShellReadyScanner.ScanState.Drain | src/main/shell-ready-marker-scanner.ts:19-24 | draining hands out the held bytes and resets the matcher |
| ShellReadyScanner.HeldAfterMatch | src/main/shell-ready-marker-scanner.ts:31-34 | a matching character extends the longest held prefix by one |
| ShellReadyScanner.HeldAfterMismatch | src/main/shell-ready-marker-scanner.ts:35-45 | restarting after one character still finds the longest held prefix |
| ShellReadyScanner.NoInnerBorder | src/main/shell-ready-marker-scanner.ts:1-2 | because the escape occurs only at the marker's start, no shorter suffix of a held prefix starts a marker |
| ShellReadyScanner.MarkerEndsHere | src/main/shell-ready-marker-scanner.ts:46-54 | the marker is complete, for the first time, exactly when a full prefix is held and BEL arrives |
| ShellReadyScanner.Session.HandleSubprocessData | src/main/daemon/session.ts:558-568 | for every division of the stream into chunks, a session emits the stream without its first marker |
| ShellReadyScanner.Session.OnShellReadyTimeout | src/main/daemon/session.ts:634-667 | on timeout the held bytes are released, so that everything written so far has been emitted |
| ByteTrimming.TrailingBytes | src/main/terminal-scrollback-snapshots.ts:66-76 | the write-side trimmer keeps the last bytes from the first character boundary |
| ByteTrimming.ReadTrailing | src/main/terminal-scrollback-snapshots.ts:78-96 | the read-side trimmer keeps the last bytes of the file from the first character boundary |
| ByteTrimming.TrimmingKeepsLongestSuffix | src/main/terminal-scrollback-snapshots.ts:66-76 | trimming bytes keeps exactly the longest suffix of the characters that fits |
| ByteTrimming.LongestFittingIsLongest | src/main/terminal-scrollback-snapshots.ts:66-76 | no longer suffix of the characters fits |
| ByteTrimming.TrimmingLosesAtMostThreeBytes | src/main/terminal-scrollback-snapshots.ts:71-75 | at most three bytes more than necessary are lost |
| ByteTrimming.TrimmingTwice | src/main/terminal-scrollback-snapshots.ts:116-142 | trimming on writing and again on reading equals trimming once to the smaller limit |
| Utf8.DecodeInvertsEncode | src/main/terminal-scrollback-snapshots.ts:67-95 | decoding undoes encoding |
| Utf8.CutCharacterIsReplacedOnce | src/main/terminal-scrollback-snapshots.ts:95 | a character cut short at the end of a file decodes to one replacement character |
| Utf8.MalformedIsMaximal | src/main/terminal-scrollback-snapshots.ts:95 | where a file holds no character, one replacement stands for the longest beginning of a character, or for a single byte |
| Utf8.UnitsOfScalars | src/main/terminal-scrollback-snapshots.ts:67-95 | through UTF-8 a string comes back with the same length, only its lone surrogates replaced by U+FFFD |
| ScrollbackSnapshots.WriteSnapshot | src/main/terminal-scrollback-snapshots.ts:98-134 | an empty buffer or a failed write stores nothing and returns no ref; otherwise the trimmed bytes are stored under the ref |
| ScrollbackSnapshots.ReadSnapshot | src/main/terminal-scrollback-snapshots.ts:45-64 | a malformed ref reads as nothing; otherwise the profile's file if it exists and can be read, else the fallback's, else nothing; whatever the file holds, its last bytes are decoded, malformed ones to replacement characters |
| ScrollbackSnapshots.WrittenRefsAreReadable | src/main/terminal-scrollback-snapshots.ts:40-50 | every ref that is written has the form a read accepts, and no two leaves share one |
| ScrollbackSnapshots.ReadsBackWhatWasWritten | src/main/terminal-scrollback-snapshots.ts:66-148 | what is stored is the longest suffix of the buffer's characters within 5 MiB, and it always decodes, to the longest suffix within 512 KiB |
| ScrollbackSnapshots.ReplayIsSuffix | src/main/terminal-scrollback-snapshots.ts:66-148 | the replayed text is a suffix of the buffer with its lone surrogates replaced, and all of it if the buffer fits |
| ScrollbackSnapshots.MigrateLayout | src/main/terminal-scrollback-snapshots.ts:178-214 | every buffered leaf ends with exactly one of a ref and its unchanged buffer, other leaves keep their refs, unchanged is reported exactly when nothing could be done, and written buffers are on disk |
| ScrollbackSnapshots.MigrateSession | src/main/terminal-scrollback-snapshots.ts:173-220 | the same for every tab; an unchanged session is returned as it is |
| ScrollbackSnapshots.MigrationSettles | src/main/terminal-scrollback-snapshots.ts:173-220 | migrating again with the same write outcomes finds nothing to do |
| ScrollbackSnapshots.MigrationLosesNothing | src/main/terminal-scrollback-snapshots.ts:186-198 | after migration each buffer is still in the session or replays from the snapshot its ref names, and that ref is one a read accepts |
| WorkerPool.Pool.ResumeWorker | src/main/usage-worktree-canonicalizer.ts:22-32 | one resumption of a pool in any reachable state: the awaited answer fills its own slot and no other, the worker goes on with an index nobody has claimed or ends once all are claimed, and the bound on calls in flight is kept |
| WorkerPool.Pool.Settle | src/main/usage-worktree-canonicalizer.ts:34-36 | once all workers have settled, a rejection is passed on, and otherwise the result is the promised list, exactly unless concurrency was NaN for a non-empty input |
| WorkerPool.ClaimedExactlyOnce | src/main/usage-worktree-canonicalizer.ts:20-27 | in every interleaving exactly the indices below the next index are claimed, each once |
| WorkerPool.ConcurrencyIsBounded | src/main/usage-worktree-canonicalizer.ts:18-34 | the number of workers is min(n, max(1, floor(concurrency))), never more calls are in flight than that, and no index twice |
| WorkerPool.NobodyIsStuck | src/main/usage-worktree-canonicalizer.ts:20-34 | in every run each worker that has not ended can go on |
| WorkerPool.RunsAreShort | src/main/usage-worktree-canonicalizer.ts:22-34 | every run ends: each step claims an index or ends a worker |
| WorkerPool.ResultIgnoresInterleaving | src/main/usage-worktree-canonicalizer.ts:18-36 | when all workers have finished without rejection the result is the same for every interleaving, exactly unless concurrency was NaN for a non-empty input |
| WorkerPool.ResultIsSortedPermutation | src/main/usage-worktree-canonicalizer.ts:35 | that result is a permutation of the inputs with their own canonical paths, longest first, ties in input order |
| UsernameEnrichment.Enrichment.Requested | src/main/repo-git-username-enrichment.ts:61-71 | in any reachable state, a request is served by a pass that begins with the repositories of this moment, or by one that is queued |
| UsernameEnrichment.Enrichment.ProbeAnswered | src/main/repo-git-username-enrichment.ts:37-50 | a pass goes on by calling git with the path of a local repository of its snapshot that no earlier pass has probed, or has probed every one of them |
| UsernameEnrichment.Enrichment.PassSettled | src/main/repo-git-username-enrichment.ts:75-81 | a settled pass leaves a local repository of its snapshot without a probe exactly if it was cut short; a queued pass begins at once, with the repositories of this moment |
| UsernameEnrichment.SingleFlight | src/main/repo-git-username-enrichment.ts:16-45 | at most one pass runs at a time, and no path is probed in two passes under one host |
| UsernameEnrichment.Quiescence | src/main/repo-git-username-enrichment.ts:61-82 | at rest the last snapshot is no older than the last request, and git was called with the path of every local repository in it, exactly unless in the last pass the store threw while something was still to come |
| UsernameEnrichment.ThrowEndsThePass | src/main/repo-git-username-enrichment.ts:36-50 | after a throw and without a further request, nothing more is attempted if no rerun is queued; if one is, exactly that pass follows, and at rest it has attempted all that was listed when it began, exactly unless it is cut short as well |
| UsernameEnrichment.QueuedPassTakesUpTheRest | src/main/repo-git-username-enrichment.ts:75-80 | the queued pass takes up every local repository listed and not yet probed at that moment, including what a throw gave up, and probes the first at once |
| UsernameEnrichment.QueuedRerunAttemptsTheRest | src/main/repo-git-username-enrichment.ts:65-80 | a run in which what a throw gave up is probed without any request after the throw |
| UsernameEnrichment.RequestedReposAreAttempted | src/main/repo-git-username-enrichment.ts:65-82 | at rest, unless the last pass was cut short, git has been called with the path of every repository listed at the last request and still listed when the last pass began that is not a folder and has no connection, or an empty one |
| UsernameEnrichment.NothingRequestedIsMissed | src/main/repo-git-username-enrichment.ts:65-82 | if nothing is removed after the last request, and the last pass was not cut short, git has at rest been called with the path of every local repository listed at it, whatever was removed or thrown before |
| UsernameEnrichment.RemovedBeforeTheRerunIsMissed | src/main/repo-git-username-enrichment.ts:28-35 | a repository listed at a request and removed before the queued pass begins stays unprobed, without any throw |
| UsernameEnrichment.ProbedIffListed | src/main/repo-git-username-enrichment.ts:28-38 | git is called only with paths of repositories that were listed when some pass began, are no folders and have no connection, or an empty one; and with all of them at rest if nothing ever throws |
| UsernameEnrichment.PassesComeToRest | src/main/repo-git-username-enrichment.ts:71-81 | without new requests every event brings the protocol closer to rest |
| VersionOrder.ParseInvertsWrite | src/main/updater-fallback.ts:97-110 | every well-formed version text parses to its numbers and identifiers, without the build metadata |
| VersionOrder.OnlyWellFormedTextsParse | src/main/updater-fallback.ts:97-110 | nothing but well-formed version texts parses |
| VersionOrder.NumeralIsPositional | src/main/updater-fallback.ts:107 | a numeral is worth the sum of its digits times the powers of ten of their places |
| VersionOrder.NumeralOrder | src/main/updater-fallback.ts:128-132 | of two numerals without leading zeros the lower one is shorter, or equally long and first in dictionary order; they are worth the same only if they are the same |
| VersionOrder.PaddedTextsParse | src/main/updater-fallback.ts:97-110 | white space around it and one v before it do not matter to what a well-formed text is read as |
| VersionOrder.OnlyPaddedTextsParse | src/main/updater-fallback.ts:97-116 | a text is valid only if it is a well-formed one, but for white space around it and one v before it |
| VersionOrder.CompareFlips | src/main/updater-fallback.ts:145-189 | swapping the arguments flips the sign |
| VersionOrder.CompareTransitive | src/main/updater-fallback.ts:145-189 | on valid versions the comparison is transitive, and strict if one step is |
| VersionOrder.TransitiveIffParseable | src/main/updater-fallback.ts:146-150 | a set of strings is ordered transitively exactly if all of them parse or no two of them differ |
| VersionOrder.CompareIsPrecedence | src/main/updater-fallback.ts:128-189 | the comparison is the precedence of section 11 of Semantic Versioning 2.0.0, stated by first differences, up to collation |
| VersionOrder.CoresCompareAsTexts | src/main/updater-fallback.ts:152-158 | of two version texts whose core numbers first differ at the k-th, the lower one has the shorter k-th numeral, or the first in dictionary order |
| VersionOrder.PrereleaseNumeralsCompareAsTexts | src/main/updater-fallback.ts:172-186 | the same for dot-separated prerelease identifiers that first differ at two numerals: rc.2 comes before rc.10 |
| Basics.SplitInvertsJoin | src/main/updater-fallback.ts:108 | pieces without the separator are what splitting finds in the text they are joined to |
| Basics.JoinInvertsSplit | src/main/updater-fallback.ts:108 | the pieces of any text, joined by the separator, give the text back |
| VersionOrder.BuildMetadataIsIgnored | src/main/updater-fallback.ts:97-110 | build metadata does not affect any comparison |
| VersionOrder.LeadingVIsIgnored | src/main/updater-fallback.ts:98 | a leading v does not affect any comparison |
| PrereleaseFeed.FetchReleaseFeedTags | src/main/updater-prerelease-feed.ts:65-76 | the loop and the sort produce the valid tags, newest first |
| PrereleaseFeed.CandidatesAreSorted | src/main/updater-prerelease-feed.ts:75-201 | the candidates are the valid tags of the feed that may be offered (stable: no prerelease part; perf: exactly "rc", a numeral and "perf"; prereleases: any but those) in non-increasing version order |
| PrereleaseFeed.SelectionStaysOnChannel | src/main/updater-prerelease-feed.ts:183-245 | every offered tag and every last good tag is a ready release of the feed that the channel allows, and there is no update exactly if no such release of the feed is newer than what is running |
| PrereleaseFeed.NewerFormAPrefix | src/main/updater-prerelease-feed.ts:202-204 | if a candidate is newer than what is running, so is every candidate before it |
| PrereleaseFeed.NewestNewerIsFirst | src/main/updater-prerelease-feed.ts:202-207 | the search finds index zero or nothing |
| PrereleaseFeed.FirstIsNewest | src/main/updater-prerelease-feed.ts:196-204 | no candidate is newer than the first |
| PrereleaseFeed.SelectionFollowsNewest | src/main/updater-prerelease-feed.ts:183-245 | no update iff no release of the feed that the channel allows is newer; ready iff the newest candidate is ready, which then heads the list; otherwise the last good tag is the newest ready one among the first six candidates |
| PrereleaseFeed.ReadyListDescends | src/main/updater-prerelease-feed.ts:237-244 | the offered tags are ready releases that the channel allows, in non-increasing version order |
| MacInstallGuard.Guard.ResetMacInstallState | src/main/updater-mac-install.ts:28-33 | in any reachable state, a reset gives up every quit still undecided: no timer, no install in flight, and nothing left for readiness to hand over |
| MacInstallGuard.Guard.BeginMacUpdateDownload | src/main/updater-mac-install.ts:35-38 | the same, and from then on quits can be held back again |
| MacInstallGuard.Guard.ResetQuitForUpdateState | src/main/updater.ts:664-671 | a failed install gives up every quit still undecided, and another install can start |
| MacInstallGuard.Guard.PerformQuitAndInstall | src/main/updater.ts:563-575 | a call while an install is in progress is ignored; any other starts one, which answers every quit still undecided, and none is held back while it is in flight |
| MacInstallGuard.Guard.QuitAndInstall | src/main/updater.ts:1264-1287 | a request to install is held back exactly if no install is delayed or in progress and a newer update is downloaded in full, not staged since the last download began; it then has a timer due within 15 seconds, and otherwise an install is on its way |
| MacInstallGuard.Guard.DeferMacQuitUntilInstallerReady | src/main/updater-mac-install.ts:77-117 | what is held back has a timer due within 15 seconds, and those held back before keep theirs |
| MacInstallGuard.Guard.OnBeforeQuit | src/main/updater-events.ts:110-137 | a quit is prevented exactly if, by what happened before, a newer update is downloaded in full, not staged since the last download began, and no install is under way; it then has a timer due within 15 seconds, and otherwise nothing changes |
| MacInstallGuard.Guard.OnTimeout | src/main/updater-mac-install.ts:94-114 | a timer that is due always quits the app, that quit is never prevented, and every quit still undecided is answered by it |
| MacInstallGuard.Guard.HandleMacInstallerReady | src/main/updater-mac-install.ts:119-147 | readiness disarms the timer and hands over an install exactly if the update is newer and a quit is pending; an undecided quit is thereby answered, or stays undecided if the update is not newer |
| MacInstallGuard.RunKeepsInv | src/main/updater-mac-install.ts:7-147 | in every run an armed timer means a pending request without readiness, a pending request has a timer or readiness, an install in flight has neither, no bypass outlives its quit, and a request stands for a quit held back and not let go, reset or installed since |
| MacInstallGuard.TimeoutQuitIsLetThrough | src/main/updater-mac-install.ts:94-114 | in every run an armed timer issues a quit behind the bypass, the listener lets it through, and the bypass is used up by it |
| MacInstallGuard.HeldQuitIsAnsweredIff | src/main/updater-mac-install.ts:16-18 | in every run, a quit held back has been let go or handed to an install, or has a timer due within 15 seconds of it, exactly unless it is abandoned first, or is still undecided after readiness without a newer version |
| MacInstallGuard.HeldQuitIsTrappedIff | src/main/updater-mac-install.ts:107-113 | if no other install is on its way and nobody asks again, then, however much time passes, nothing has ended the app and nothing is on its way that would, exactly under that same condition on what follows the quit |
| MacInstallGuard.HangingRuns | src/main/updater-mac-install.ts:28-38 | such runs exist: a quit, then a reset, a new download or readiness without a newer version, then any amount of time; a newer readiness after that still serves the quit in the last case and in no other |
| MacInstallGuard.HandoffServesAHeldQuit | src/main/updater-mac-install.ts:131-142 | readiness starts the install exactly if the update is newer and a quit was held back that has not been let go, reset or installed since |
| MacInstallGuard.QuitIsHeldIff | src/main/updater-events.ts:110-137 | exactly which quits are held back, by the events that came before |
| TreeRenderer.RenderAccessibilityTree | native/computer-use-linux/runtime.py:402-441 | the renderer, run on a window: within its bounds, every record leading back to its node, the capped preorder without compaction, and with it numbers that lead back under exactly the conditions below |
| TreeRenderer.Renderer.WalkNode | native/computer-use-linux/runtime.py:402-438 | at every step the lists stay within their bounds, every record resolves on the unchanged tree, and the lines from before stay |
| TreeRenderer.Renderer.CompactRenderedBrowserTabs | native/computer-use-linux/runtime.py:444-475 | the in-place deletions and the insertion leave the compacted lists |
| AccessibilityTree.RenderedRecordsResolve | native/computer-use-linux/runtime.py:727-767 | every record, below elided nodes and after compaction too, resolves to the node it was taken from |
| AccessibilityTree.FoundIff | native/computer-use-linux/runtime.py:727-767 | a saved element is found exactly at the end of its path, and only if role, name, id and actions are unchanged |
| AccessibilityTree.RenderIsBounded | native/computer-use-linux/runtime.py:402-440 | at most 1200 records, and no line deeper than 64 |
| AccessibilityTree.RenderIsPreorderPrefix | native/computer-use-linux/runtime.py:402-440 | without compaction the rendering is the first 1200 nodes of the depth-limited preorder, one line per record, each record's index its position |
| AccessibilityTree.UntruncatedIsComplete | native/computer-use-linux/runtime.py:403-407 | if the truncation flag is off, the whole tree was rendered |
| AccessibilityTree.TruncatedIff | native/computer-use-linux/runtime.py:403-407 | the truncation flag is on exactly if a node is reached that is deeper than 64 or comes after 1200 lines, elided ones included |
| AccessibilityTree.DepthFlag | native/computer-use-linux/runtime.py:403-407 | the depth flag is on only if some node is deeper than 64, and with fewer than 1200 lines it is the truncation flag |
| AccessibilityTree.CompactsIff | native/computer-use-linux/runtime.py:444-471 | lines are compacted exactly if at least ten are tabs of the depth, some active and some not |
| ElementNumbers.UncompactedLeadsBack | native/computer-use-linux/runtime.py:402-440 | without compaction the first record with a displayed number is that of the element the line was rendered for |
| ElementNumbers.NumbersLeadBackIff | native/computer-use-linux/runtime.py:408-475 | with compaction, every displayed number leads to its own element exactly if the walk never lists a node while the count of records is the number of a record still there; then lines and records match one to one |
| ElementNumbers.NumberedAndLeadsBackIff | native/computer-use-linux/runtime.py:408-475 | index and position are equal and numbers lead back exactly if every compaction of the walk omits the last of the records there are |
| ElementNumbers.NumberReachesNode | src/main/computer/desktop-script-action.ts:215-230 | a number that leads back reaches, through the first record that carries it, the very node of its line on the unchanged tree |
| ElementNumbers.TabBarBreaksNumbering | native/computer-use-linux/runtime.py:436-475 | on every tab bar whose last tab is the active one, indices and positions differ |
| ElementNumbers.TabbedWindowLeadsBackIff | native/computer-use-linux/runtime.py:408-475 | in a window with such a bar and plain leaves after it, numbers lead back exactly if there are fewer leaves than inactive tabs |
| ElementNumbers.LeafReachesTheTab | native/computer-use-linux/runtime.py:408-475 | with more leaves, the line of a leaf shows the number of the active tab, and the first record with that number is the tab |
| ChunkReachability.CollectReachableChunks | build-plugins/plain-node-entry-guard.ts:26-49 | the walk ends on every graph and returns, once each, exactly the chunks reachable through present chunks |
| ChunkReachability.AssertNoElectronRequire | build-plugins/plain-node-entry-guard.ts:51-66 | the guard passes exactly if no reachable chunk requires electron |
| LineEndings.NormalizeCrlfScriptLineEndings | src/main/hooks.ts:465-484 | the index scan replaces every CRLF by LF and nothing else |
| LineEndings.IterateLfScriptLines | src/main/hooks.ts:424-439 | the yielded lines are the lines of the normalized script |
| LineEndings.IteratedLinesAreTheNormalizedScript | src/main/hooks.ts:424-484 | joined by LF, those lines are the normalized script |
| LineEndings.BuildWindowsRunnerScript | src/main/hooks.ts:403-422 | the Windows runner is its header followed by one rendered command per line of the normalized script |
| LineEndings.BuildPosixRunnerScript | src/main/hooks.ts:461-463 | the lines of the POSIX runner are its two header lines, the same lines of the normalized script, and a final empty one |

## Left out

- KeepAwake.SleepAssertion.Start: the clock stands still within one event; if 30 seconds could pass inside nested callbacks, the recursion would have no bound.
- Logging and the suppression of repeated warnings in the sleep assertions: no effect on timers, children or decisions.
- The default callback of an assertion without an owner: only assertions wired to the service are modelled.
- VersionOrder.CompareIsPrecedence: numerals of more than 308 digits become Infinity in JavaScript and their difference NaN; the model's numbers are finite.
- VersionOrder.CoresCompareAsTexts: speaks of numerals that JavaScript does not round to one and the same number.
- VersionOrder.CompareIsPrecedence: the host's collation takes the place of the ASCII order the standard asks for.
- ScrollbackSnapshots.WriteSnapshot: the temporary file and the rename are one atomic write; the 16 bytes of sha256 in a ref are an injective function of tab and leaf.
- UsernameEnrichment.RequestedReposAreAttempted: one store; a store whose repository listing throws, and what is written back to the store, are not modelled.
- TreeRenderer.Renderer.WalkNode: which nodes are elided, suppressed, or read as tabs is arbitrary data of the node instead of being computed from roles and texts.
- ArgvQuoting.BuildArguments: NUL characters, which would end a Windows command line, are treated like any other.
- MacInstallGuard.Guard.OnTimeout: the app's quit reaches the before-quit listener at once, before any other event.
- MacInstallGuard.Guard.HandleMacInstallerReady: when a queued handoff runs, and whether the install it starts succeeds, is left open.
- MacInstallGuard.Guard.PerformQuitAndInstall: only what happens before its first await; the cleanup, the native call and the watchdog belong to the rest of the updater.
- Fetching: feeds, manifests and assets are parameters; regular expressions over the feed's text and YAML are not modelled.
- The rest of the updater (attempt ids, retry cadence, the install watchdog) and of the accessibility bridge (screenshots, focus, input).
- User interface, telemetry, IPC wiring and output formatting: large, but without properties that span functions.
