# vivarium in Dafny

vivarium keeps one microVM per project: it builds it, boots it, reuses it, stops it and destroys it. This
project models the parts of it whose correctness is decided by its own code rather than by the programs it
calls, and proves what those parts promise.

Programs outside it (`nix`, `nix-store`, `systemctl`, the guest agent), the kernel and the file system appear
as answers that can be anything, or as operations that can fail. A process may die between any two file
operations. Where an object updates fields or a loop builds a value in the source, the model is a class or a
method with a loop, proved against a specification; protocols of several processes are state machines over
their steps; the rest is functions and lemmas.

| module | what it models |
|---|---|
| `CivilCalendar`, `Rfc3339`, `Decimal` | the era arithmetic between days and dates, and the instant printer and parser over it |
| `Retention`, `Durations` | which generations a prune selects, and the age argument |
| `Profile` | the generation profile: append, activate, rollback and prune over numbered roots, records, lock snapshots and `current` |
| `Publish` | the staged publish of a file and the swap of the `current` symlink, against power loss |
| `RuntimeDirectory`, `Presence`, `Target` | the runtime directory and its two sweeps, the judgment of what is behind a target, and any number of `viv` processes acting on it under the startup lock |
| `StopLadder` | the stop ladder, its deadlines and its rungs |
| `Follower`, `Stream` | the console follower against the writer's rotations, and when the stream is over |
| `Readiness`, `Handoff` | the readiness report, and the handoff between launcher, supervisor and supervision task |
| `NixStrings`, `NixLeaf` | the Nix string escape and the generated manifest leaf, with a reader of both |
| `Json`, `Diagnostic` | the hand-written failure object, with a reader, and source positions |
| `Grammar`, `Verbs`, `Utf8` | the lift of global flags, the dispatch, and the parsers of `exec` and of the other verbs with value flags |
| `Volumes` | volume enumeration, disk totals and the volume prune |
| `Inputs` | the union of flake inputs |
| `Fleet` | fleet measurement and admission |

## Where the code says less than its comments

Each is a lemma with the exact condition, or a run that shows the difference.

- `append` says a number whose registration failed "stays burned"; it is free again as soon as its record is
  removed, and one of `append`'s own exits removes it (`Profile.BurnedWhileTheRecordStays`,
  `Profile.AFailedRegistrationFreesTheNumber`). With neither directory readable a rooted number can be taken
  again, and exactly then an exit of `append` is inconsistent (`Profile.NextIsRootedExactly`,
  `Profile.ExitsAreConsistentExactlyOffTheRoots`, `Profile.UnreadableDirectoriesRelabel`).
- `--keep 0`, or an age that has passed the newest generation, drops the largest number once `current` has
  moved back, and exactly then the next build takes a number already used
  (`Profile.TheNextBuildReusesExactly`, with a run in `Profile.KeepZeroReusesANumber`).
- The follower says a drained descriptor and an identity check lose nothing. Bytes appended between the
  zero-length read and the stat that finds the file moved are lost, and so is a generation rotated away between
  that stat and the next open; nothing else is (`Follower.NothingIsLostExactlyWhenNothingSlips`, with runs in
  `Follower.AnAppendBeforeTheStatIsLost` and `Follower.ARotationBeforeTheOpenIsLost`).
- A cold start that finds no control socket leaves an older `vm.pid` in place. A launcher that dies beside one
  while its boot is in flight lets the next process take the live VM for dead, and only then: it repairs it,
  forced stop included, or chooses a second cold start
  (`Target.AnAbandonedBootIsTakenForDeadExactlyBesideAPidRecord`). The cold start goes no further, because the
  unit's name is taken (`Target.ALaunchNeverMeetsALiveVm`).
- `destroy` can reach its removals under a live VM exactly when its boot was abandoned beside a pid record or
  without a boot record (`Target.AnAbandonedBootIsRemovedUnderExactly`). Both kinds of abandonment can be come
  to from every start (`Target.UncleanAbandonmentsAreReached`).
- The stop ladder reads a manager that does not answer as a unit that is gone, so a reported stop is certain
  exactly when its last reading was answered or the unit was not loaded
  (`StopLadder.AStopIsCertainExactlyWhenWitnessed`, with a run over an active unit in
  `StopLadder.SilenceReadsAsGone`). It never says anything about the moment after
  (`StopLadder.AStopSaysNothingAboutLater`).
- `volume prune` takes its survey before the lock, although it says the lock comes before the state is read. A
  successful prune takes the image of a declared volume exactly when one of its orphans has been declared since
  (`Volumes.SurveyThenPrune`, `Volumes.AStaleSurveyTakesADeclaredImage`).
- `near_ceiling` answers yes under every ceiling above zero for a use whose tenfold leaves 64 bits
  (`Fleet.NearCeilingExactly`).
- Help is said to win wherever it stands before the first `--`. It is not heard in a value slot
  (`Grammar.HelpIsHeardExactlyOutsideSlots`). On an accepted line that is where the verb reads a value
  (`Verbs.CommandValuesAreTheSlots`); on a refused one it can be behind a flag the form does not have
  (`Verbs.HelpBehindAForeignFlagIsNotHeard`).

## Model

| member | source | states |
|---|---|---|
| CivilCalendar.YearOfEraBrackets | src/config/generations.rs:491-492 | over a whole era of 146097 days the year formula enters and leaves every year on the right day |
| CivilCalendar.EraFloors | src/config/generations.rs:489 | the truncating era division floors, for negative days as well |
| CivilCalendar.DaysRoundTrip | src/config/generations.rs:485-507 | every integer day, negative ones included, names a date of the Gregorian calendar, and that date names the day |
| CivilCalendar.DateRoundTrip | src/config/generations.rs:485-507 | every valid date, of any year, is given back by the day it maps to |
| CivilCalendar.RoundTripsExactlyDates | src/config/generations.rs:469-476 | a year, month and day survive the trip exactly when they are a date, the test the parser relies on |
| CivilCalendar.TomorrowIsTheNextDay | src/config/generations.rs:485-507 | the successor of a day's date is the date of the next day |
| CivilCalendar.CivilFromDaysIsTheCalendar | src/config/generations.rs:485-497 | day 0 is 1970-01-01 and each day is one calendar step from its neighbours |
| CivilCalendar.CalendarIsUnique | src/config/generations.rs:485-497 | any numbering with that origin and that step is this one |
| CivilCalendar.DateOrderIsDayOrder | src/config/generations.rs:485-507 | dates compare as their days do, both ways |
| Rfc3339.ParseOfPrint | src/config/generations.rs:428-483 | reading a printed instant gives it back exactly when it lies before the end of year 9999, and is refused after |
| Rfc3339.PrintedForm | src/config/generations.rs:428-443 | a printed instant is the calendar date of its day and the clock of the seconds left, each field in its place between the separators |
| Rfc3339.PrintOfParse | src/config/generations.rs:445-483 | an accepted text is what the printer writes for the instant it is read as |
| Rfc3339.AcceptedAreThePrinted | src/config/generations.rs:428-483 | the accepted texts are exactly the printed instants of the four-digit years |
| Rfc3339.NonDatesAreRefused | src/config/generations.rs:469-476 | a text with plausible fields that name no calendar date is refused, never normalised |
| Durations.SecondsOfPrint | src/cli/grammar.rs:1080-1105 | a count and a unit are read as that many seconds exactly when 64 bits hold them |
| Durations.UnitsInSeconds | src/cli/grammar.rs:1093-1104 | the seconds of each unit in numbers, up to 64 bits |
| Durations.AcceptedIsACountAndAUnit | src/cli/grammar.rs:1080-1105 | whatever is accepted is a zero-padded count and one of the four units, read as that many seconds; a bare number never is |
| Retention.KeepRetainsTheNewest | src/cli/generations.rs:256-278 | `--keep n` selects exactly the non-current rows that n or more rows outnumber |
| Retention.OlderThanReadsTheAge | src/cli/generations.rs:279-292 | `--older-than` selects exactly the non-current rows whose readable build instant lies before the threshold |
| Retention.WhenTheLargestGoes | src/cli/generations.rs:256-294 | when a selection reaches the row with the largest number |
| Retention.FilterKeepsOrder | src/cli/generations.rs:262-278 | a selection keeps the oldest-first order of the rows |
| Profile.NextIsAboveAll | src/config/generations.rs:113-116 | the next number is above every link and record exactly when the scan read a directory that holds the highest one |
| Profile.RecordsDecideTheNumber | src/config/generations.rs:332-341 | in a consistent profile a readable record directory is enough for a number above everything |
| Profile.NextIsRootedExactly | src/config/generations.rs:332-357 | the number a build takes is a rooted one exactly when neither directory could be read and root 1 exists |
| Profile.ExitsAreConsistentExactlyOffTheRoots | src/config/generations.rs:205-247 | every place `append` can stop leaves a consistent profile exactly when its number is not a rooted one |
| Profile.TheNextBuildReusesExactly | src/cli/generations.rs:256-294 | after a prune the next number is one used before exactly when the prune reached the highest: not current, and `--keep 0`, or a record whose printed instant the age has passed |
| Profile.KeepZeroReusesANumber | src/cli/generations.rs:256-294 | two builds, a rollback, `--keep 0` and a build: the last takes the number of the second |
| Profile.UnreadableDirectoriesRelabel | src/config/generations.rs:348-357 | with neither directory readable a build's first publish makes an older root's record lie |
| Profile.BurnedWhileTheRecordStays | src/config/generations.rs:232-245 | after a failed registration the number is skipped exactly while its record could not be removed |
| Profile.AFailedRegistrationFreesTheNumber | src/config/generations.rs:232-245 | the exit of `append` that takes record and snapshot back after a failed registration leaves the same number as the next one |
| Profile.SelectionSparesCurrent | src/cli/generations.rs:262 | a selection names listed rows only, and never the one `current` points at |
| Profile.SelectedAreTheReached | src/cli/generations.rs:256-294 | from the files alone: a selection is the seen numbers that are not current and have that many newer ones, or whose record prints an instant the age has passed; its rows say what links and records hold |
| Profile.KeepSparesTheHighest | src/cli/generations.rs:256-278 | `--keep n` with n at least 1 leaves the highest number alone, whatever the scan could read |
| Profile.UnlinkedIsConsistent | src/config/generations.rs:168-170 | a fresh number without its root leaves the profile consistent, whatever else of it landed |
| Profile.WholeIsConsistent | src/config/generations.rs:213-247 | a number written whole keeps the profile consistent before and after `current` moves |
| Profile.Profile.Next | src/config/generations.rs:113-116 | one past the highest number seen, 1 for none |
| Profile.Profile.PublishLock | src/config/generations.rs:360-426 | the snapshot is the old or the new one; a failure after the rename leaves the new |
| Profile.Profile.PublishRecord | src/config/generations.rs:360-426 | the same for a record |
| Profile.Profile.Label | src/config/generations.rs:205-230 | the snapshot and record half touches no root, no pointer and no other number |
| Profile.Profile.Root | src/config/generations.rs:231-245 | the root is registered, or everything of the number may be taken back and nothing else; a failed registration tries both removals |
| Profile.Profile.Append | src/config/generations.rs:182-248 | the whole new profile on success, which exits a failure or death can stop at, and consistency at every one for a number that is not rooted |
| Profile.Profile.SetCurrent | src/config/generations.rs:258-296 | `current` is the old or the new one, nothing else changes |
| Profile.Profile.Unlink | src/config/generations.rs:308-329 | a root goes before its record and snapshot, so a partial unlink stays consistent |
| Profile.Profile.List | src/config/generations.rs:120-135 | one row per number seen, oldest first, with the store path its link holds, the record it has and whether it is current |
| Profile.Profile.Prune | src/cli/generations.rs:40-102 | refused whole exactly when the running build's link is reached; otherwise on success exactly the reached numbers lose link, record and snapshot and every other number keeps its own; partially on failure |
| Profile.Profile.Activate | src/cli/generations.rs:107-178 | `current` moves only to a retained generation, for rollback the highest below it; refused exactly when there is none |
| Profile.Profile.Do | src/cli/generations.rs:40-178 | every verb does what it was asked, however far it gets, and keeps the profile consistent, a build as long as it could read one of the directories; with the records read and no prune by age the highest number stays in sight |
| Profile.Profile.History | src/config/generations.rs:182-329 | over any history with deaths and failures anywhere each verb does what it was asked from what the one before left, every root stays labelled and `current` rooted; with the records read and `--keep` prunes successful numbers strictly increase |
| Publish.StagingNamesAreApart | src/config/atomic.rs:98-106 | a staging name is no destination, no record name, and different for each counter value |
| Publish.CrashReadsWhole | src/config/atomic.rs:113-118 | what is claimed to survive is what a reader finds after power loss, and the next publish can start from it |
| Publish.AfterRename | src/config/atomic.rs:108-111 | renaming a flushed file adds exactly its text to what power loss may leave |
| Publish.RenameIsSafeExactlyWhenFlushed | src/config/generations.rs:394-411 | the rename keeps the destination whole exactly when the staged file was flushed before it |
| Publish.AfterDirectoryFlush | src/config/atomic.rs:113-118 | flushing the directory leaves power loss nothing but the current entry |
| Publish.Directory.CreateTemp | src/config/atomic.rs:77-96 | the staged name was free; it runs out only after 64 taken names |
| Publish.Directory.Fill | src/config/generations.rs:385-402 | the staged file holds the text and is flushed |
| Publish.Directory.Replace | src/config/generations.rs:403-420 | the destination is its old text or the staged one, durably the staged one once the directory is flushed |
| Publish.Directory.Publish | src/config/generations.rs:360-426 | at every crash point the destination is one whole text, after success durably the new one; every other file is untouched |
| Publish.Directory.SwapPointer | src/config/generations.rs:258-296 | the same for the `current` symlink |
| Publish.Directory.History | src/config/generations.rs:360-426 | after any sequence of publishes power loss leaves the last successful text or a later attempt |
| Presence.WrittenPidIsReadBack | src/cli/lifecycle.rs:409-431 | a written pid is read back as the process it names |
| Presence.PidsExactly | src/cli/lifecycle.rs:409-431 | a number between spaces, with or without a plus sign, is a pid exactly when it is positive and fits 31 bits |
| Presence.UnitsOwnExactly | src/cli/lifecycle.rs:506-512 | which unit states hold a VM, which do not, and that no other is known |
| Presence.StatesByTheirFacts | src/cli/lifecycle.rs:626-668 | each of the six states by exactly its facts; a running one is judged live by the same facts |
| RuntimeDirectory.Directory.ClearRuntime | src/cli/destroy.rs:122-137 | the loop over entries rebinds none, keeps the lock wherever it stops, and on success leaves nothing else |
| RuntimeDirectory.Directory.CleanupRuntime | src/launch/supervisor.rs:883-975 | the supervisor's sweep keeps the lock wherever it stops, removes nothing when it finds an unknown name, and on success leaves nothing but the lock |
| RuntimeDirectory.Directory.ConfirmTeardown | src/cli/lifecycle.rs:2596-2625 | a stop is confirmed exactly when nothing but the lock is left |
| Target.TheKernelMaySay | src/cli/lifecycle.rs:409-431 | whatever of it fails, the recorded pid's liveness is no answer or the true one |
| Target.ThePathnameStays | src/cli/lifecycle.rs:284-300 | no step rebinds the lock's name: opening binds it only when absent, and no sweep, repair or record takes it away |
| Target.StepKeepsLockInv | src/cli/lifecycle.rs:268-334 | whoever is past the lock holds the inode its name leads to |
| Target.MutualExclusion | src/cli/lifecycle.rs:268-334 | over every run two processes are never past the lock together, both sweeps of the directory included |
| Target.UnlinkingTheLockEndsTheExclusion | src/cli/destroy.rs:93-99 | were the pathname removed, the next process would get past a held lock |
| Target.RunsKeepInv | src/cli/lifecycle.rs:409-478 | what a process concluded about a dead VM stays true while it holds the lock |
| Target.NoDestructiveStepOnALiveVm | src/cli/lifecycle.rs:1312-1513 | every repair meets a dead VM, and whoever is about to boot is right to, unless a boot was abandoned beside a pid record; so does every `destroy` removal unless one was abandoned beside that or without a boot record |
| Target.ALiveVmIsJudgedDeadExactlyBesideAGonePid | src/cli/lifecycle.rs:456-478 | a live VM can be judged dead by a booting verb exactly while its pid record names a gone process, and in no state of a clean run |
| Target.AnAbandonedBootIsTakenForDeadExactlyBesideAPidRecord | src/cli/lifecycle.rs:1318-1331 | in any run from a start, an abandoned boot can be followed by a repair of the live VM, and by a second cold start chosen beside it, exactly when a pid record was there |
| Target.ALaunchNeverMeetsALiveVm | src/launch/systemd.rs:19-27 | over every run, abandonments included, a launch that is accepted meets a dead VM, since a live one's unit has the name |
| Target.AnAbandonedBootIsRemovedUnderExactly | src/cli/destroy.rs:52-91 | it can be followed by a removal under the live VM exactly when a pid record was there or no boot record was |
| Target.UncleanAbandonmentsAreReached | src/cli/lifecycle.rs:1319-1320 | both happen: from every start a clean run comes to a boot that can be repaired over once abandoned, and to one that can be removed under |
| StopLadder.Ladder.PollUntil | src/cli/lifecycle.rs:2783-2803 | polls end at the first reading that the unit is gone, or at most one poll and one answer past the deadline |
| StopLadder.Ladder.Reap | src/cli/lifecycle.rs:2815-2822 | fifty readings at most after a delivered kill |
| StopLadder.Ladder.StopUnit | src/cli/lifecycle.rs:2730-2850 | the manager's rungs in order; a kill only after the whole grace, which is none for `--force`, the given seconds, or ten, and never under a negative one; success only on a unit that reads as gone, every reading true or unanswered, and the bound in time |
| StopLadder.Ladder.Run | src/cli/lifecycle.rs:2654-2850 | a ready agent is asked unless `--force` or a zero timeout, and given two seconds or the timeout when that is less; no kill before the grace in numbers, and after an acknowledged ask ten seconds later still; it ends within grace + 15.2 s after one and min(2 s, grace) + grace + 5.1 s otherwise, plus latencies; success means read as gone, and can be relied on exactly when that reading was answered or the unit was not loaded; the rung is the deepest entered, and readings are a tenth of a second apart |
| StopLadder.WhatReadsAsGone | src/cli/lifecycle.rs:2757-2800 | which readings end a stop: inactive, failed, no answer, or no such unit; and that none of them came before the end |
| StopLadder.AStopIsCertainExactlyWhenWitnessed | src/cli/lifecycle.rs:2757-2800 | for what the ladder saw of any manager, a reported stop leaves only gone units possible exactly when its last reading was answered or the unit was not loaded |
| StopLadder.AStopSaysNothingAboutLater | src/cli/lifecycle.rs:2730-2834 | whatever was seen, the unit may be in any state at the next moment |
| StopLadder.SilenceReadsAsGone | src/cli/lifecycle.rs:515-522 | with a manager that never answers a forced stop reports success over a unit that is active throughout |
| Follower.NextKeepsInv | src/cli/attach.rs:77-128 | in every interleaving the sink is one contiguous range of each generation in writing order |
| Follower.Conservation | src/cli/attach.rs:77-128 | every byte written since `resuming` is in the sink, lost or pending; the sink is all of it exactly when none is lost or pending |
| Follower.LossGrowsExactlyAtLosingSteps | src/cli/attach.rs:107-121 | loss is permanent, and which two kinds of step cause it |
| Follower.NothingIsLostExactlyWithoutLosingSteps | src/cli/attach.rs:48-128 | over any run nothing is lost exactly when no step of it is one of those |
| Follower.OwedMeansAppended | src/cli/attach.rs:105-106 | at an identity check the open generation owes bytes exactly when something was appended to it since its zero-length read |
| Follower.NothingIsLostExactlyWhenNothingSlips | src/cli/attach.rs:48-128 | over any run nothing is lost exactly when no append to the open generation falls between its last zero-length read and the check that lets it go, and no generation that holds anything leaves the path unopened |
| Follower.AQuietPollIsComplete | src/cli/attach.rs:107-121 | a poll whose last check finds a drained generation leaves nothing pending |
| Follower.AnAppendBeforeTheStatIsLost | src/cli/attach.rs:105-121 | an append between the zero-length read and the stat that finds the path gone is lost |
| Follower.ARotationBeforeTheOpenIsLost | src/cli/attach.rs:79-121 | a generation rotated away between the stat that saw it and the next open is lost whole |
| Follower.ADrainedPointIsReached | src/cli/attach.rs:56-68 | the starting point of both is reached whenever a capture exists |
| Follower.ResumedIsInv | src/cli/attach.rs:49-68 | `resuming` skips exactly what exists and holds an existing capture at its end |
| Follower.Follower.constructor | src/cli/attach.rs:56-68 | the same for the object |
| Follower.Follower.Read | src/cli/attach.rs:97-104 | one read forwards the next bytes of the open generation and returns none exactly at its end |
| Follower.Follower.Drain | src/cli/attach.rs:96-104 | the read loop terminates beside any finite writer, with the generation drained at its last read |
| Follower.Follower.OpenPath | src/cli/attach.rs:80-92 | a path that leads nowhere ends the poll quietly |
| Follower.Follower.Check | src/cli/attach.rs:105-121 | the identity check: done, or on to a newer generation |
| Follower.Follower.Poll | src/cli/attach.rs:77-128 | `poll` is a run of the steps above beside any writer, terminates, reports exactly what it forwarded, and beside a silent writer leaves nothing |
| Stream.Follow | src/cli/attach.rs:145-184 | the stream polls the follower each turn and ends at the first turn by which three polls in a row were quiet with the VM out of its running states, or at an earlier cancellation, with one more poll; if the writer was silent by then, the sink is everything written and not lost |
| Readiness.DecodeOfEncode | src/launch/readiness.rs:64-96 | a report is read back as its status |
| Readiness.WireForm | src/launch/readiness.rs:51-75 | the bytes of both reports |
| Readiness.DecodeByVersion | src/launch/readiness.rs:78-96 | a report of any other schema version is named as such or malformed past 32 bits, never taken for a status, in each of the three shapes of a record |
| Readiness.TornReportIsMalformed | src/launch/readiness.rs:90-96 | every proper prefix of a report is malformed |
| Handoff.StepKeepsInv | src/bin/vivarium-supervisor.rs:151-203 | what the connection carries is always a prefix of the one report the first message calls for |
| Handoff.SuccessIsNeverMadeUp | src/main.rs:482-485 | whatever dies and whenever, success and exit 0 mean the first message was `ProcessReady` |
| Handoff.EveryRunIsShort | src/main.rs:492-503 | every interleaving ends, within a bound that needs no fair scheduler |
| Handoff.NobodyIsStuck | src/bin/vivarium-supervisor.rs:175-203 | while anyone is unfinished, some step is possible |
| Handoff.HandoffDelivers | src/bin/vivarium-supervisor.rs:163-203 | without a death a launcher whose supervisor connected reads exactly one complete report to end of file, and all three results follow from the first message and the supervision's end |
| Handoff.EitherReportArrives | src/bin/vivarium-supervisor.rs:151-203 | and they do arrive: for either first message and either end of the supervision there is a run without a death that reads that report and ends as it says |
| NixStrings.NixStringIsOnePass | src/config/flake.rs:1081-1088 | the five successive replacements are one left-to-right escape |
| NixStrings.ReadOfNixString | src/config/flake.rs:1081-1088 | a Nix reader of the literal gets the text back and stops at its closing quote, so no quote is bare and no interpolation live |
| NixStrings.ReadOfEscaped | src/config/flake.rs:1081-1088 | the same for the escape on its own, whatever follows |
| NixStrings.WhatBareTextIsReadAs | src/config/flake.rs:1081-1088 | what the escaped characters would be read as bare: an end, an interpolation, an escape or a newline; only a newline would have stood for itself |
| NixLeaf.RenderManifestModule | src/config/flake.rs:975-1072 | the buffer the loops push is the specified leaf |
| NixLeaf.RenderTables | src/config/flake.rs:976-1042 | the same for the body of the table |
| NixLeaf.PushRows | src/config/flake.rs:979-1004 | a loop over rows pushes exactly their texts in order |
| NixLeaf.PushResources | src/config/flake.rs:1010-1017 | the resources table, left out when neither ceiling is authored |
| NixLeaf.PushVolume | src/config/flake.rs:1031-1042 | the volume table, with exactly its authored parts |
| NixLeaf.PushEgress | src/config/flake.rs:1050-1069 | the egress table, with exactly its authored parts |
| NixLeaf.ReadOfLeaf | src/config/flake.rs:975-1079 | a reader of the leaf recovers every table of it |
| NixLeaf.LeafSaysWhatIsDeclared | src/config/flake.rs:975-1079 | in the manifest's own terms: the reader finds the authored mounts, then one writable mount per workspace from and to its own path, in order, and every other table entry by entry |
| NixLeaf.LeafIsInjective | src/config/flake.rs:975-1079 | two manifests with the same leaf mount the same trees in the same order and declare the same volumes, environment, ceilings and egress |
| Json.ReadOfEscaped | src/diagnostic.rs:284-302 | every string survives escaping and reading (section 7 of RFC 8259) |
| Json.EscapesExactly | src/diagnostic.rs:284-302 | only what a string cannot hold bare is escaped, and how many characters that takes |
| Json.ParseOfPrint | src/diagnostic.rs:243-276 | every value of the compact form is well formed and is read back whole |
| Json.NothingMayFollow | src/launch/readiness.rs:90-96 | a text is one value: with more punctuation behind it it is refused |
| Diagnostic.JsonString | src/diagnostic.rs:284-302 | the loop writes the quoted escape of its argument |
| Diagnostic.LocusJson | src/diagnostic.rs:264-276 | a locus is written as the object or string the contract fixes |
| Diagnostic.ToJson | src/diagnostic.rs:243-262 | the pushed fields make exactly one JSON object, the failure's |
| Diagnostic.ReaderRecoversEverySlot | src/diagnostic.rs:243-276 | a reader finds id, code, what, where and why, and the accepted list and hint exactly when they apply |
| Diagnostic.IdsAreSpelled | src/diagnostic.rs:44-56 | an id is its namespace's name, a dot and its condition |
| Diagnostic.LocusIsReadByItsKeys | src/diagnostic.rs:264-276 | which keys a reader finds behind `where` for each of the three loci, and which it does not |
| Diagnostic.IdTextIsInjective | src/diagnostic.rs:243-276 | an id's namespace and condition come apart at its first dot |
| Diagnostic.FailureObjectIsInjective | src/diagnostic.rs:243-276 | two failures with the same object are the same failure |
| Diagnostic.InSource | src/diagnostic.rs:134-150 | the loop counts the line and column of an offset, or of the end |
| Diagnostic.LinesAreCounted | src/diagnostic.rs:134-150 | the line is one more than the newlines before the offset |
| Diagnostic.ColumnsAreCounted | src/diagnostic.rs:134-150 | the column is one more than the characters since the last newline, or since the start |
| Diagnostic.PositionsAreOrdered | src/diagnostic.rs:134-150 | positions grow with the offset, so no two places share one |
| Grammar.LiftGlobals | src/cli/grammar.rs:316-372 | the loop over argv is the fold that takes a value slot in the same turn |
| Utf8.Utf8Exactly | src/cli/grammar.rs:337-340 | the texts `to_str` answers for are exactly the encodings of Unicode scalar values (sections 3 and 4 of RFC 3629) |
| Grammar.LoudnessOf | src/cli/grammar.rs:325-371 | `-q` silences whatever came before it, each `v` adds one from there or from silence up, three is the top, and nothing else counts |
| Grammar.LoudnessIsNamed | src/cli/grammar.rs:365-371 | the level stays between silence and three, and the five levels' names |
| Grammar.AskingWins | src/cli/grammar.rs:237-256 | a line is a request for help exactly when one stands outside value slots and before the boundary, and for the version exactly when one of those does and none for help |
| Grammar.LinesAreDispatched | src/cli/grammar.rs:258-290 | otherwise the first kept token is one of the fifteen verbs or refused, its parser gets the rest as it is, and the answer carries the line's loudness |
| Grammar.EnvAssignmentIsExact | src/cli/grammar.rs:747-764 | an `--env` operand is read as the one assignment that spells it |
| Grammar.Exec | src/cli/grammar.rs:679-740 | the loop of the `exec` parser computes its specification |
| Grammar.Parse | src/cli/grammar.rs:237-290 | lift, dispatch and help in the source's order |
| Grammar.LiftKeepsTheRest | src/cli/grammar.rs:303-372 | for every verb, what the lift keeps behind it: everything but the global flags outside value slots and before the boundary |
| Grammar.OnlyFlagsOpenSlots | src/cli/grammar.rs:303-314 | a value slot is opened only behind one of six verbs |
| Grammar.TwoPassesAreOne | src/cli/grammar.rs:316-740 | lifting and then parsing `exec` is one pass over the raw line, errors included |
| Grammar.ExecReadsTheRawLine | src/cli/grammar.rs:237-740 | a whole `exec` line is decided by that pass from the token after the verb |
| Grammar.GuestArgvIsVerbatim | src/cli/grammar.rs:679-740 | a parsed `exec` runs the raw tokens after the first `--` that is no `--env` operand |
| Grammar.SessionIsReadBack | src/cli/grammar.rs:237-764 | every session with a command and valid names has a line, of `-t`, `--env` operands, `--` and the command, that is parsed as exactly it |
| Grammar.SessionIsWhatTheLineSays | src/cli/grammar.rs:679-764 | a parsed session sets, in order, what the operands before the boundary spell, and has a terminal exactly when `-t` or `--tty` stands outside them; then stdin is one and no `-T` is there |
| Grammar.ConclusionsExactly | src/cli/grammar.rs:705-732 | when each check behind the walk refuses, in its order |
| Grammar.OperandRefusalsExactly | src/cli/grammar.rs:691-764 | an `--env` without an operand, or with one that has no name, is refused as such |
| Grammar.GuestTailIsInert | src/cli/grammar.rs:316-372 | no token past that boundary is lifted |
| Grammar.GlobalFlagsMoveFreely | src/cli/grammar.rs:303-372 | a global flag and an ordinary token beside it may be swapped outside value slots and before the boundary |
| Grammar.HelpIsHeardExactlyOutsideSlots | src/cli/grammar.rs:340-364 | a request for help is heard exactly when it stands outside value slots and before the boundary |
| Verbs.ReadFlags | src/cli/grammar.rs:508-516 | the loop of the five parsers computes its specification for every form |
| Verbs.NumbersExactly | src/cli/grammar.rs:598-606 | a number is read with or without a plus sign, and a timeout with a minus, exactly as far as 64 bits go |
| Verbs.CommandIsReadBack | src/cli/grammar.rs:488-1105 | every command of the five verbs has a line that is read back as it, numbers, ages and the indefinite wait included |
| Verbs.AcceptedIsSound | src/cli/grammar.rs:488-1105 | whatever is accepted has every value in its flag's domain, no two contradicting flags, and exactly one retention argument for a prune |
| Verbs.CoherenceIsChecked | src/cli/grammar.rs:614-1071 | which flags may stand together, and which two a refusal names, or what it says is missing |
| Verbs.RefusedValuesAreNamed | src/cli/grammar.rs:766-1133 | a refused value is named with its flag, as not UTF-8, outside the domain or malformed |
| Verbs.RefusedTokensAreNamed | src/cli/grammar.rs:1135-1140 | any other refused token is unknown, but for a malformed number of `activate` |
| Verbs.SubcommandsExactly | src/cli/grammar.rs:830-1075 | `generations` and `memory` need one of their subcommands, and name what they got |
| Verbs.TurnsAgree | src/cli/grammar.rs:303-314 | in every form, a token the lift's table gives a value wants one or is refused, nothing else wants one, and the boundary is refused |
| Verbs.TwoPassesAreOneCommand | src/cli/grammar.rs:316-1117 | lifting and then parsing any of the five verbs is one pass over the raw tokens, refusals included |
| Verbs.CommandValuesAreTheSlots | src/cli/grammar.rs:303-1133 | on an accepted line the raw tokens read as values are exactly those the lift kept as values |
| Verbs.VerbsReadTheRawLine | src/cli/grammar.rs:237-1133 | both for a whole command line, from the token after the verb |
| Verbs.HelpBehindAForeignFlagIsNotHeard | src/cli/grammar.rs:303-364 | on a refused line the lift keeps more: `config eval --manifest --help` is a usage error |
| Volumes.Enumerate | src/cli/volume.rs:339-431 | it fails exactly on a named image that cannot be looked at; else one row per reserved, declared or found name, each row the one its name has, and their sum the named images' |
| Volumes.Declare | src/cli/volume.rs:348-392 | the rows of the first two arms |
| Volumes.Place | src/cli/volume.rs:395-428 | one image fills in its row or becomes an orphan's, and changes no other |
| Volumes.OrphansAreWhatNothingDeclares | src/cli/volume.rs:333-338 | orphans are exactly the image names minus the reserved pair minus the live declarations |
| Volumes.RowsSayWhoDeclares | src/cli/volume.rs:344-423 | over the record and the manifest: an unreserved row is an orphan exactly when no leaf has its name and no layer but the manifest is remembered, under the current composition, to declare it; mount and layer are the first record's, else the leaf's |
| Volumes.RowsSayWhatIsThere | src/cli/volume.rs:395-428 | a row with an image has its 512-byte blocks and its length |
| Volumes.RowsSayTheCeiling | src/cli/volume.rs:363-392 | a declared row without one has the remembered size, else the leaf's, in GiB |
| Volumes.DiskTotals | src/cli/volume.rs:296-309 | both sums over all images, or a failure exactly when one cannot be looked at |
| Volumes.TotalsAdd | src/cli/volume.rs:296-309 | both sums are additive over any split of the files |
| Volumes.TotalsOfOne | src/cli/volume.rs:296-309 | and of one file they are its 512-byte blocks and its length |
| Volumes.ListJoinsWithStatus | src/cli/volume.rs:289-295 | the listed bytes are the disk total exactly when no image with a name that is not UTF-8 occupies any |
| Volumes.Directory.Prune | src/cli/volume.rs:145-168 | a success removes exactly the orphans and reports exactly their bytes; a dry run removes none and previews the same, and an unapproved one removes none and reports none |
| Volumes.PruneLeavesNoOrphan | src/cli/volume.rs:103-168 | enumerated again, no orphan is left and every other row is unchanged |
| Volumes.SurveyThenPrune | src/cli/volume.rs:103-168 | a prune takes only images that are unreserved, no leaf's and no piece's under an unchanged composition at the survey, and a successful one takes all of those; it takes the image of a declared volume exactly when one of them has been declared since |
| Volumes.AStaleSurveyTakesADeclaredImage | src/cli/volume.rs:109-120 | one such survey, concretely |
| Inputs.InputUnion.Merge | src/config/input.rs:153-179 | it fails exactly on a different source for a known name, naming both declarers; else the union gains the declarations |
| Inputs.InputUnion.Resolve | src/config/flake.rs:277-322 | the fold succeeds exactly when no name has two sources, with each name's source and each declarer once, in order |
| Inputs.MergedIsUnion | src/config/input.rs:153-179 | one merge takes the union of some artifacts to that of one more |
| Inputs.DeclarersArePermuted | src/config/input.rs:160-163 | permuting the artifacts permutes each name's declarers |
| Inputs.OrderDoesNotMatter | src/config/flake.rs:277-322 | success, names and sources are the same for every permutation of the artifacts |
| Fleet.MeasuredUse | src/cli/fleet.rs:364-400 | the loop counts the running and the measured members and sums the measured ones, saturating |
| Fleet.AFigureExistsExactly | src/cli/fleet.rs:364-473 | there is a figure exactly when a running member reports, or nobody runs and the scan saw all; it is the measured sum as far as 64 bits go |
| Fleet.TargetMembers | src/cli/fleet.rs:431-457 | the inner loop finds target directories only, and all of them when no look failed |
| Fleet.RuntimeMembers | src/cli/fleet.rs:410-463 | the walk finds target directories only, calls itself complete exactly when no look that mattered failed, and then found all of them |
| Fleet.AdmitExactly | src/cli/lifecycle.rs:731-745 | the subtraction test is the unbounded comparison with one GiB of reserve, and the decision for each missing reading |
| Fleet.NoFalseAlarm | src/cli/lifecycle.rs:731-745 | from the walk on: a figure never exceeds the true total of everything that is there, a warning on it is a warning on the true total, and both are exact when the walk is complete, all report and 64 bits hold the sum |
| Fleet.NearCeilingExactly | src/cli/fleet.rs:321-330 | exact for every ceiling while ten times the use fits 64 bits, yes beyond for one above zero, and no without either reading |

## Left out

- What `nix`, `nix-store`, `systemctl`, the guest agent and the file system do: they are arbitrary answers. The root registrar is taken to be all or nothing, and a live VM's unit to read as owning it whenever the manager answers.
- `viv start`'s own path to a boot: it launches whenever the target does not read as running and relies on the unit's name to refuse a second boot. `Target` has the verbs that go through `reusable`, and `destroy`.
- Numbers at the end of their width: a generation number past 64 bits, seconds and ages past 64 bits, disk sums past 64 bits; only the arithmetic the code saturates or checks on purpose is bounded.
- Profile.Profile.Next: a directory entry that cannot be read is dropped from a scan that otherwise succeeds (src/config/generations.rs:353); a scan here sees a directory whole or not at all.
- Target.NoDestructiveStepOnALiveVm: `discriminate` takes a record it cannot look at for one that is not there (src/cli/lifecycle.rs:614); looks at the two records always work here.
- Profile files vivarium did not write, such as a root named `+5` or `007`, and read faults on the `current` symlink itself.
- Profile.Profile.History: a prune by age is allowed but may drop the highest number, so increasing numbers are stated for `--keep` prunes; power loss is stated for `Publish` only, since the registrar creates the root and nobody flushes its directory.
- Publish.Directory.SwapPointer: a symlink's text is taken to reach the disk with the link, since nothing flushes it by itself.
- Follower.Follower.Poll: errors of the sink and of opening or reading the capture, which end the poll with the error; and a first open that fails although the capture exists. An inode held open is not reused, so identity is the generation.
- The supervision task's inside, the 30-second wait as a clock (a launcher may give up whenever nobody has connected), and the launcher's steps before its socket is bound.
- The exact bytes of the readiness report beyond its JSON form, and JSON with surrogate pairs or numbers that are not unsigned integers.
- Byte offsets inside a character in `in_source`, paths shown lossily, and NUL in Nix strings.
- Grammar.Parse: a verb other than `exec` stands as the tokens it is handed. `Verbs` parses those of `config`, `start`, `stop`, `generations` and `memory`; the verbs without value flags have no parser here. Messages and usage texts are left out.
- Volumes.Enumerate: the order of the declared rows among themselves; the two sums of a directory that changes while it is walked; and the first look at a file, in the listing, where one that cannot be told to be a file is dropped without a word, so that the failure stated is the second look's.
- Inputs.InputUnion.Merge: which of several conflicts in one artifact is named.
- StopLadder.Ladder.Run: without a deadline the ladder waits for ever; the model looks at any finite number of its polls. Time is whole milliseconds, with one longest answer of the manager.
- RuntimeDirectory.Directory.CleanupRuntime: that the supervisor afterwards removes the directory itself when no lock is in it.
- Trimming by Unicode spaces other than the ASCII ones around a pid record.
- Trim, update, sessions, doctor reports, artifact lookup, lock migration, merge analysis, materialization, the registry and all human rendering: input and output in sequence, or facts of one branch.
