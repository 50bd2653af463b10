# Process orchestrator: console multiplexer and process supervisor

This project models the core of a small process orchestrator, which starts
groups of long-running services from a configuration and keeps them running.
The core has two parts. Both are stated as Dafny definitions and proved
against specifications.

- **The console multiplexer** (`ConsoleManager.print`). Every running service
  and the orchestrator itself write to one terminal. The console remembers:
  - which source wrote last;
  - whether that source left its line unfinished ("dangling").

  From this it decides:
  - whether to commit the other source's line with a newline first;
  - whether to draw the new content over the current line (the chunk held a
    carriage return) or as ordinary text;
  - whether to end the line (the chunk ended with a newline).

  `Console.Render` is the specification of one call. `Console.ConsoleManager`
  is the object, and its `Print` method updates the fields step by step and
  appends to the console output. `PyText` gives Python's `str.strip()` and
  `str.isspace()` over Unicode code points. `LogForwarding.ForwardLogs` is a
  service's log forwarder: it pushes the decoded chunks of one service into
  the console under the service's coloured tag.
- **The supervisor** (`ProcessManager`). It keeps a table of running
  services keyed by service name and supports these operations:
  - start one service;
  - stop one service, marking it as stopped on purpose first and removing it
    afterwards whatever happened;
  - start and stop groups, and stop everything;
  - one pass of the crash monitor, which drops every entry whose process has
    exited and restarts the ones not stopped on purpose;
  - report statuses.

  `Supervision` states each operation as a function of the state before it.
  `ProcessManagement.ProcessManager` performs the operations in place, with
  the same loops over snapshots as the code, and each method is proved to
  end in the state the function gives. The table is a Python `dict`, so it
  keeps insertion order (`OrderedDict.Dict`), and every loop over a snapshot
  of it visits the names in that order.

The operating system is represented by parameters:
- `SpawnOutcome` says whether `Popen` produced a child and gave it a pid, or
  raised.
- `StopOutcome` says how a stop went:
  - the child exited within the grace period;
  - it did not and was killed;
  - it did not and the kill itself raised;
  - the process was already gone;
  - signalling failed.
- The set `exited` holds the pids whose `poll()` is not `None`.
- `clock` gives the time a service starts.
- `hash` is Python's string hash, which is seeded per run.

`ServiceStatus` (models.py:5-11) is the datatype `Supervision.ServiceStatus`.
Its three status literals are the datatype `StatusKind`.

The console strips each chunk on its own (console_manager.py:35-48) and
keeps no buffer across calls, so a line split over several reads is not
rendered like the same line read whole. `Console.SplitChunkIsRenderedTwice`
shows the consequence: a line split across two reads gets the tag twice.

`service_groups` is a YAML mapping, so its group ids are distinct. The
manager is built only from a list of groups with distinct ids
(`Supervision.GroupIdsDistinct`), and its invariant keeps that fact.

## Model

| member | source | states |
|---|---|---|
| PyText.TrimStart | console_manager.py:44 | the result is a suffix of the input, everything cut off is whitespace, and it does not start with whitespace |
| PyText.TrimEnd | console_manager.py:44 | the result is a prefix of the input, everything cut off is whitespace, and it does not end with whitespace |
| PyText.Strip | console_manager.py:44 | `str.strip()`: the result has no whitespace at either end, and it is empty exactly when the input is all whitespace |
| PyText.StripIsInfix | console_manager.py:44 | the stripped text is a contiguous piece of the input with only whitespace on either side |
| PyText.StripEmptiness | console_manager.py:44-48 | from the facts about trimming either end: the stripped text is empty exactly when the whole message is whitespace |
| PyText.StripPlacement | console_manager.py:44 | from the facts about trimming either end: the stripped text sits in the message right after the cut leading whitespace, with only whitespace after it |
| Console.Render | console_manager.py:20-85 | a blank message writes nothing and changes nothing, and only a blank one writes nothing; otherwise the last writer becomes the source and the dangling flag becomes "message does not end with a newline"; the output ends with a newline exactly when the message does |
| Console.RenderEdges | console_manager.py:55-70 | for a tag that does not start with a newline, the output starts with one exactly when the message is not blank and another source left its line dangling (the commit); for a tag with no carriage return, the output holds one exactly when the message is not blank and holds one |
| Console.RenderKeepsCursorConsistent | console_manager.py:55-57 | after any call, the dangling flag is true exactly when the output does not end at the start of a line, and a dangling line always has a known writer |
| Console.SwitchStartsOnFreshLine | console_manager.py:55-57 | when another source takes over, the cursor is at the start of a line once the commit newline (if any) is written, so the new source never draws over the old line |
| Console.SameWriterNeverCommits | console_manager.py:55 | for a tag that does not start with a newline, a source continuing its own output never gets a commit newline |
| Console.FreshManagerNeverCommits | console_manager.py:15-18 | for a tag that does not start with a newline, the first message a fresh manager prints is never preceded by a commit newline |
| Console.SplitChunkIsRenderedTwice | console_manager.py:35-48 | a line read whole is written as prefix, content and newline, but the same line read in two pieces is written as two prefixed pieces |
| Console.ContinuedLine | console_manager.py:74-85 | a source finishing its own dangling line writes prefix, content and newline, with no commit |
| Console.StripOfWord | console_manager.py:44 | text with no whitespace at either end, optionally followed by a newline, strips to itself |
| Console.ConsoleManager.constructor | console_manager.py:13-18 | a new manager has no last writer, is not dangling, and has written nothing |
| Console.ConsoleManager.Print | console_manager.py:20-85 | the new fields and the text appended to the output are exactly those of `Render` on the old fields, and the dangling flag stays truthful about the output |
| Orchestrator.LevelColor | process_manager.py:45-49 | "warn" gives yellow, "error" gives red, and any other level (including unknown ones) gives green |
| Orchestrator.OrchestratorPrefix | process_manager.py:50 | the orchestrator's tag is non-empty and holds neither a leading newline nor a carriage return |
| Orchestrator.PrintOrchestrator | process_manager.py:44-52 | the orchestrator prints its message with a newline appended, under its own name and tag, through the console |
| Orchestrator.OrchestratorLineIsFinalized | process_manager.py:52 | every non-blank orchestrator line leaves the console not dangling and owned by the orchestrator |
| Orchestrator.PyMod | process_manager.py:97 | Python's `%`: the result has the divisor's sign and is smaller than it in magnitude, and the dividend is divisor times floor quotient plus it |
| Orchestrator.GroupColorIndex | process_manager.py:97-98 | the palette index computed from any hash is within the ten colours, so the lookup never fails |
| Orchestrator.ServicePrefix | process_manager.py:97-100 | a service's tag is non-empty, does not start with a newline, and has no carriage return unless the service name has one |
| LogForwarding.RenderAll | process_manager.py:106-117 | a run that writes nothing leaves the console as it was; `RenderAllOwnership` and `RenderAllKeepsCursorConsistent` state the rest |
| LogForwarding.WarningText | process_manager.py:121 | the warning starts with the fixed text and the service name, ends with the error text, and has exactly the length of the pieces together |
| LogForwarding.RenderAllOwnership | process_manager.py:106-117 | a run of blank chunks writes nothing and changes nothing; once any chunk has content, the console belongs to that service |
| LogForwarding.RenderAllKeepsCursorConsistent | process_manager.py:106-117 | forwarding any run of chunks keeps the dangling flag truthful about the console |
| LogForwarding.ForwardChunks | process_manager.py:106-117 | the read loop leaves the console in the state, and with the output appended, of rendering every non-empty chunk in order |
| LogForwarding.ForwardLogs | process_manager.py:91-127 | the console ends as if each non-empty chunk had been printed in order under the service's tag; after a read error a warning line naming the service and the error follows |
| OrderedDict.Without | process_manager.py:209-210 | removing a name keeps exactly the other names, still distinct; a name not listed changes nothing |
| OrderedDict.WithoutAt | process_manager.py:209-210 | removing the only occurrence of a name closes the gap: the names before and after it keep their order |
| OrderedDict.DistinctPrefix | process_manager.py:219 | every prefix of a list of distinct keys is distinct |
| OrderedDict.DistinctSnoc | process_manager.py:171 | appending a new key to distinct keys keeps them distinct |
| OrderedDict.DistinctPairwise | process_manager.py:219 | keys are distinct exactly when no two positions hold the same key |
| OrderedDict.Dict.Put | process_manager.py:171 | `d[k] = v`: the entry is set, a new key goes to the end of the order, and an existing key keeps its place |
| OrderedDict.Dict.Remove | process_manager.py:209-210 | `del d[k]`: exactly that entry is gone, the key list loses exactly that key, and an absent key changes nothing |
| OrderedDict.WithoutBetween | process_manager.py:209-210 | taking a name out from between two runs of other names leaves the two runs joined, in order |
| OrderedDict.RemoveKeepsOrder | process_manager.py:209-210 | after `del d[k]`, the other keys are listed in the same order as before, with the gap closed |
| OrderedDict.Empty | process_manager.py:69 | the empty table has no entries and no keys |
| Supervision.StartService | process_manager.py:129-177 | a successful spawn enters the service under its name, not marked as stopped, with its pid and start time, a new name going to the end of the table's order as `d[k] = v` puts it, and returns true; a failed spawn leaves the table alone and returns false; the log gains "starting" and then "started" or "failed" |
| Supervision.SignalView | process_manager.py:186 | the table as the stop signal finds it: the entry being stopped is already marked as stopped on purpose, and nothing else differs |
| Supervision.OutcomeEvents | process_manager.py:195-206 | each way a stop can go adds one log line about that service; it reports a forced kill exactly when the grace period expired |
| Supervision.StopService | process_manager.py:179-210 | an absent name changes nothing; otherwise that entry is removed in every outcome and no other entry changes, and the table it is removed from is the one with the entry already marked (`SignalView`); only a kill that raises after the grace period escapes |
| Supervision.StopRemovesEntry | process_manager.py:186-210 | removing the marked entry leaves exactly the other entries, and a table with no marked entry still has none afterwards |
| Supervision.StopNames | process_manager.py:257-258 | keeps the table well formed; what it does is stated by `StopNamesSpec`, `StopNamesSnoc` and `StopNamesAfterRaise` |
| Supervision.StopNamesSpec | process_manager.py:257-258 | stopping names in turn removes only listed entries and changes none of the others; when nothing raised, every listed name is gone |
| Supervision.StopNamesSnoc | process_manager.py:257-258 | one more name continues the run, unless a stop has already raised |
| Supervision.StopNamesAfterRaise | process_manager.py:257-258 | once a stop raises, the remaining names are never reached |
| Supervision.GroupMembers | process_manager.py:253-256 | the names selected are exactly the table's entries whose group is the given one, each once, in table order |
| Supervision.MembersAmongInOrder | process_manager.py:253-256 | selecting from distinct keys gives distinct names, in the keys' order |
| Supervision.InOrderExtend | process_manager.py:253-256 | one more key, selected or not, keeps the selection in the keys' order |
| Supervision.StopGroup | process_manager.py:250-258 | unless a stop raised, no entry of the group is left; entries of other groups are untouched, and nothing is added |
| Supervision.StopAll | process_manager.py:260-264 | unless a stop raised, the table ends empty; whatever remains is unchanged |
| Supervision.StopAllAbortsAfterFailedKill | process_manager.py:197-201 | when the first service's kill raises, the call raises and the second service is still running |
| Supervision.StopNamesContinuing | process_manager.py:257-258 | stopping that carries on past a raising kill removes every listed name and only those |
| Supervision.StopAllContinuing | process_manager.py:260-264 | the corrected stop of everything leaves the table empty in every outcome |
| Supervision.StopNamesContinuingAgrees | process_manager.py:257-258 | when no stop raises, carrying on and giving up are the same run |
| Supervision.StopAllContinuingAgrees | process_manager.py:260-264 | when no kill fails, the corrected stop of everything ends exactly like the written one |
| Supervision.PrefixStep | process_manager.py:219 | one step further into the snapshot of names reaches a name not seen before |
| Supervision.Visit | process_manager.py:220-226 | a live process leaves everything as it was; an exited one is deleted from the table as `del` does, the other names keeping their order, and when it was not marked as stopped on purpose its record is collected and a crash line logged; otherwise nothing is collected or logged |
| Supervision.ReapPrefix | process_manager.py:219-226 | after the first `n` snapshot names, the table is `Survivors` of the snapshot and the collected records are `Crashes` of the snapshot, whatever the log |
| Supervision.Reap | process_manager.py:219-226 | the names left in the table are exactly those whose process is alive, in their old order; the entries and records are stated by `ReapPrefix`, `SurvivorsRemain` and `ReapCollectsCrashes` |
| Supervision.LiveKeys | process_manager.py:219-226 | the names given whose process has not exited, never more than were given; `LiveKeysMembers` states which they are |
| Supervision.LiveKeysMembers | process_manager.py:219-226 | the live names are exactly the given names whose process has not exited |
| Supervision.ReapKeepsOrder | process_manager.py:219-226 | after the first `n` snapshot names, the table lists the visited names still alive, in snapshot order, then the names not yet visited |
| Supervision.VisitKeepsOrder | process_manager.py:220-226 | one turn of the loop, deleting the next name exactly when its process exited, keeps that listing one name further |
| Supervision.SurvivorsRemain | process_manager.py:219-226 | after the first `n` names, exactly the visited entries with exited processes are gone, and the rest are unchanged |
| Supervision.RemainingStep | process_manager.py:220-226 | visiting one more name, and removing it when its process exited, keeps the statement of what remains true one name further |
| Supervision.Crashes | process_manager.py:219-223 | no more records are collected than names visited; `CrashesAreExited`, `CrashesComplete` and `CrashesDistinct` state which |
| Supervision.CrashesAreExited | process_manager.py:220-223 | every collected record is the snapshot entry of a visited name whose process exited without being marked as stopped on purpose |
| Supervision.CrashesComplete | process_manager.py:220-223 | every visited name whose process exited unmarked has its entry collected |
| Supervision.CrashesDistinct | process_manager.py:219-223 | no service name is collected twice |
| Supervision.ReapCollectsCrashes | process_manager.py:219-226 | the records collected for restart are exactly the visited entries that exited without being marked as stopped on purpose, each under a different name |
| Supervision.RestartAll | process_manager.py:229-230 | keeps the table well formed; what it does is stated by `RestartAllKeepsOthers` and `RestartAllRestores` |
| Supervision.RestartAllKeepsOthers | process_manager.py:229-230 | restarting leaves every name that was not collected as it was, and adds no name that was not collected |
| Supervision.RestartAllRestores | process_manager.py:229-230 | with distinct collected names absent from the table, each collected service is back exactly when its spawn succeeded, as a fresh record of the same service and group that is not marked |
| Supervision.MonitorCycle | process_manager.py:217-230 | keeps the table well formed; what it does is stated by `MonitorCycleSpec` and `MonitorIgnoresStopInFlight` |
| Supervision.MonitorCycleSpec | process_manager.py:217-230 | one monitor pass keeps live entries unchanged and drops exited entries that were marked; an exited entry that was not marked is back exactly when its restart succeeded, as a fresh record of the same service and group; no other name appears |
| Supervision.MonitorIgnoresStopInFlight | process_manager.py:186 | a service being stopped is never restarted: if its process has exited the monitor drops it, and otherwise the entry stays as marked |
| Supervision.StatusFor | process_manager.py:275-291 | the status is running exactly when the service has an entry whose process has not exited, and then carries its pid, start time and "Running since" text; otherwise it is stopped with no pid or time; it is never crashed |
| Supervision.LookupGroup | process_manager.py:234 | the service list of the first group with the id, or nothing exactly when no group has it |
| Supervision.LookupGroupUnique | process_manager.py:234 | with distinct group ids, each group's id finds exactly that group's service list |
| Supervision.GroupNotFound | process_manager.py:235-236 | the single status for an unknown or empty group is "group_" plus the id, stopped, with the not-found text |
| Supervision.StartEach | process_manager.py:238-248 | one status per listed service and a well-formed table; what it does is stated by `StartEachReports`, `StartEachKeepsEntries`, `StartEachStartsSpawned` and `StartEachStatuses` |
| Supervision.StartEachReports | process_manager.py:238-248 | one status per listed service, in list order, each under the listed name and the group id |
| Supervision.StartEachKeepsEntries | process_manager.py:241-246 | existing entries are never replaced, only listed names are added, and added entries are not marked as stopped on purpose |
| Supervision.StartEachStartsSpawned | process_manager.py:241-246 | each listed service whose spawn succeeds is in the table afterwards |
| Supervision.StartEachStatuses | process_manager.py:241-248 | with distinct names, each returned status is the one the final table gives |
| Supervision.StartKeepsOthers | process_manager.py:241-246 | starting or skipping one listed service leaves the entries of every other name as they were |
| Supervision.StatusesExtend | process_manager.py:239-247 | with distinct names, the statuses gathered so far stay those of the table after one more service is started |
| Supervision.StatusesSurvive | process_manager.py:275-291 | statuses of names other than the one whose entry changed are unchanged |
| Supervision.StartEachAllPresent | process_manager.py:241-243 | when every listed service is already running, the loop changes nothing and only reports |
| Supervision.StartGroup | process_manager.py:232-248 | keeps the table well formed; what it does is stated by `StartGroupSpec` and `StartGroupTwice` |
| Supervision.StartGroupSpec | process_manager.py:232-248 | an unknown or empty group gets the not-found status alone and changes nothing; otherwise there is one status per listed service, named as listed, and every existing entry is kept |
| Supervision.StartGroupTwice | process_manager.py:238-248 | once a first call has started every service of the group, a second call changes nothing, whatever its spawns would do |
| Supervision.Configured | process_manager.py:269-271 | the configured services in configuration order; `ConfiguredMembers` states which they are |
| Supervision.ConfiguredMembers | process_manager.py:269-271 | the configured services are exactly the pairs of a group id and one of that group's services |
| Supervision.GroupStatuses | process_manager.py:271-272 | the statuses of one group's services; `GroupStatusesSpec` states them |
| Supervision.GroupStatusesSpec | process_manager.py:271-272 | one status per service of the group, in order, each as the single-service query gives it |
| Supervision.AllStatuses | process_manager.py:266-273 | the statuses of all configured services; `AllStatusesSpec` states them |
| Supervision.AllStatusesSpec | process_manager.py:266-273 | one status per configured service, in configuration order, each as the single-service query gives it |
| Supervision.AllStoppedWhenIdle | process_manager.py:266-291 | with nothing running, every configured service is reported stopped with no pid |
| ProcessManagement.ProcessManager.constructor | process_manager.py:66-69 | given groups with distinct ids, a new manager holds those groups, an empty table and no log lines |
| ProcessManagement.ProcessManager.StartSingleService | process_manager.py:129-177 | the table, the log and the result are those of `StartService` |
| ProcessManagement.ProcessManager.StopSingleService | process_manager.py:179-210 | the table, the log and whether an exception escapes are those of `StopService` |
| ProcessManagement.ProcessManager.StopEach | process_manager.py:257-258 | the loop over a snapshot of names ends as `StopNames` does, giving up at the first stop that raises |
| ProcessManagement.ProcessManager.StopGroup | process_manager.py:250-258 | ends as `Supervision.StopGroup` does |
| ProcessManagement.ProcessManager.StopAll | process_manager.py:260-264 | ends as `Supervision.StopAll` does |
| ProcessManagement.ProcessManager.ReapExited | process_manager.py:219-226 | the first loop of a monitor pass ends as `Reap` does |
| ProcessManagement.ProcessManager.VisitEntry | process_manager.py:220-226 | one turn of the first loop ends as `Visit` does: a crash line and the record are added for an unmarked exited process, and an exited entry is removed |
| ProcessManagement.ProcessManager.RestartCrashed | process_manager.py:228-230 | the second loop ends as `RestartAll` does |
| ProcessManagement.ProcessManager.MonitorCycle | process_manager.py:217-230 | one monitor pass ends as `Supervision.MonitorCycle` does |
| ProcessManagement.ProcessManager.StartOne | process_manager.py:240-247 | a listed service already in the table changes nothing; any other is started as `StartService` does; the status returned is the one the table then gives |
| ProcessManagement.ProcessManager.StartGroup | process_manager.py:232-248 | the table, the log and the statuses are those of `Supervision.StartGroup` |
| ProcessManagement.ProcessManager.GetAllStatuses | process_manager.py:266-273 | one status per configured service, in configuration order, each as `StatusFor` gives it on the current table |

## Left out

- Threads and locks are left out. These are the console lock, the monitor thread, `_shutdown_event`, `start_monitoring` and `stop_monitoring`. Every operation is one atomic step. Races on the unlocked table are not modelled. The one interleaving that is modelled is a stop in progress seen by the monitor (`SignalView`).
- The monitor's `sleep(5)` and its outer loop are left out; `MonitorCycle` is one pass.
- Process spawning is reduced to `SpawnOutcome`. This covers `pty.openpty`, `Popen`, `os.setsid`, closing the child's end of the pty, starting the forwarder thread, `Path.expanduser` and the Windows branches.
- Signals and timing are reduced to `StopOutcome`. This covers `os.killpg`, `getpgid`, SIGINT, SIGKILL, the 10-second wait and `terminate`.
- Supervision.StartService: an exception before the spawn is treated like a failed spawn, so the model logs "starting" and then "failed". A missing `working_dir` key raises at process_manager.py:134, before the "Starting" line at :136, so there the source logs only "failed". A missing `script` key raises after that line, as the model has it. Descriptors leaked when the spawn fails after `openpty` are not modelled.
- Supervision.StatusFor: `exited` is fixed for the whole call, whereas `poll()` is asked afresh at each query.
- The supervisor's `print_orchestrator` lines are kept as an `Event` log instead of console text. The console side of `print_orchestrator` is modelled separately, in `Orchestrator.PrintOrchestrator`. The wording of each line, with its pid, path and exit code, and its level (`info`, `warn` or `error`) are not modelled.
- The log forwarder's byte pump is given as a list of chunks that are already decoded. This covers `os.read` of 1024 bytes, UTF-8 decoding with replacement, and closing the descriptor. A read error is given as its message text.
- Python's `hash()` is a parameter, because it is seeded per run. `datetime.now()` is a parameter too, and only its `isoformat()` text is kept.
- YAML loading is left out. The manager is built from the already parsed `service_groups`, given as a list of groups in file order. A configuration without `service_groups` is the empty list.
- main.py, with its HTTP routes, is not part of this model.
- Rendering of ANSI sequences on a real terminal is left out; the output is a string.

## Findings

| source | as written | input that shows it | evidently intended | confidence | as-written member | corrected member |
|---|---|---|---|---|---|---|
| process_manager.py:197-201, 260-264 | The SIGKILL escalation runs inside the `except subprocess.TimeoutExpired` handler. An exception there escapes `_stop_single_service` after the `finally`, for example `ProcessLookupError` from `getpgid` when the child exits just after the timeout and is reaped before the kill, say by the monitor thread's concurrent `poll()` (an exited child that is not yet reaped still has a process group). It also aborts the loop of `stop_all`, and the same holds for `stop_group`. | Two services running, where the first does not stop within the grace period and its kill raises. `stop_all` raises, and the second service is never signalled. | Shutting down stops every service, even when one kill fails. | medium, not executed | Supervision.StopAllAbortsAfterFailedKill | Supervision.StopAllContinuing |

`ProcessManagement.ProcessManager` follows the code as written, and its `StopAll` ends as `Supervision.StopAll` does. `Supervision.StopAllContinuing` is the corrected definition. `Supervision.StopAllContinuingAgrees` proves that it agrees with the written one whenever no kill fails.
