# pcef / pyqode core logic in Dafny

This project models two parts of the pcef/pyqode editor toolkit and proves properties about them.

**pcef/core/system.py**
- The sequential job runner. `JobRunner` keeps a FIFO queue of `JobThread`s and a `running` flag. `startJob` appends a job and may force a stop of the head. `executeNext` pops the head and starts the next job. `stopJob` posts an event that later calls the head's `stopRun` through an `Invoker`.
- `TextStyle`'s four-token text format.
- `inheritors`, the work-list closure over `__subclasses__()`.

**pyqode/core/widgets/filesystem_treeview.py**
- The ignore-pattern list.
- The filter rule of `FilterProxyModel`.
- The newline-joined URL list that `_UrlListMimeData` puts on the clipboard.
- How `FileSystemContextMenu` derives the file-explorer name and command and caches them.

The runner is an immutable state machine (`JobRunner.Runner`). Five events drive it:
- the caller's `startJob`;
- the caller's `stopJob`;
- a live thread's `run` coming to its end;
- delivery of the oldest posted stop, which `Invoker.event` turns into a call of the bound `stopRun`;
- discarding of a posted stop that a later post has replaced. Each post replaces `caller.invoker`, so Qt may drop the earlier event with its old receiver.

The last three come from the environment, in any order. Starting a thread (`QThread.start`) is not an event: it happens inside `startJob` and `executeNext`.

A thread's behaviour is the sequence of actions it performs (`JobThreads.Action`): body call, finish-hook call, termination, or raise. So "body, then `onFinish`" and "`onFinish`, then `terminate`" are statements about sequences.

Results proved:
- **FIFO start order.** Every reachable state has `running` exactly when the queue is non-empty. Jobs start in submission order.
- **Stale-stop hazard.** A stop is bound to `queue[0].stopRun` when it is posted. If it is delivered after that job already finished, it pops a different job, whose thread keeps running, and starts the one after it. `JobRunner.StaleStopHazard` gives a concrete trace of this.
- **Clean runs.** In traces without such a stale delivery, at most one thread is live at every event boundary (`JobRunner.CleanAtMostOne`). Inside a stop delivery there is a moment with two: `stopRun` calls `executeNext`, which starts the next head, before it terminates its own thread (`JobRunner.StopRunOverlap`).
- **Forced submission on an idle runner.** `force` on an idle runner posts a stop for the job it has just submitted and started (`JobRunner.ForceOnIdleTargetsNewJob`). If that job returns before the stop is delivered, the stop is stale (`JobRunner.ForcedStopGoesStale`).
- **`TextStyle` finding.** `from_string` reads the underline flag from the wrong token; see Findings.

Three behaviours of the job queue follow from the code and are easy to miss:
- `startJob` with `force` posts a stop for `queue[0]` even on an idle runner (pcef/core/system.py:189-198). The job just submitted is then the head, so a forced submission on an idle runner posts a stop for its own job. If the job returns before delivery, the stop is stale (`JobRunner.StaleStopHazard`, `JobRunner.ForcedStopGoesStale`). The class docstring (system.py:171-173) promises only that the running job is stopped.
- `startJob` creates the thread object when the job is submitted, not when it starts. On an idle runner it then reconfigures `queue[0]` with the same body and arguments before starting it (system.py:185-198).
- A stop is bound to `queue[0].stopRun` when it is posted (system.py:208-211) and can be delivered after that job has already finished and been popped by `executeNext` (system.py:200-206) (`JobRunner.StaleStopHazard`).

Modules: `Results`, `Strings` (Python string built-ins), `JobThreads`, `JobRunner`, `JobDrain`, `TextStyles`, `Inheritors`, `IgnorePatterns`, `FilterProxy`, `UrlListMime`, `FileExplorer`.

Inputs the model takes as parameters:
- The operating-system calls (`os.path.dirname`, `join`, `normpath`, `listdir`, `ismount`) and `fnmatch` are total functions in a `FilterProxy.OsServices` record.
- The platform is a `FileExplorer.Platform` value.
- The output of `xdg-mime` is a string. A call that exits with a non-zero status reads as empty output, as in the source.

## Model

| member | source | states |
|---|---|---|
| JobThreads.NewThread | pcef/core/system.py:127-131 | a new thread has no callable body or finish hook and empty positional and keyword arguments |
| JobThreads.SetMethods | pcef/core/system.py:150-152 | installs exactly the given body and finish hook and keeps the arguments |
| JobThreads.SetParameters | pcef/core/system.py:154-156 | replaces the arguments and keeps both callbacks |
| JobThreads.OnFinishAtMostOnce | pcef/core/system.py:158-160 | `onFinish` calls the hook at most once, and exactly once iff the hook is set, truthy and callable; an absent or non-callable hook is skipped |
| JobThreads.RunRaisesIffNoBody | pcef/core/system.py:162-167 | `run` raises iff no callable body is set, and then calls nothing |
| JobThreads.RunBodyThenFinish | pcef/core/system.py:162-165 | with a callable body, `run` first calls it with the stored arguments, then the finish hook exactly once if callable, and never terminates or raises |
| JobThreads.OnFinish | pcef/core/system.py:158-160 | `onFinish` performs at most one action, a finish-hook call, and performs one exactly when the hook is set, truthy and callable |
| JobThreads.Run | pcef/core/system.py:162-167 | `run` raises first exactly when no callable body is set; otherwise it calls the body with the stored arguments and then does what `onFinish` does; it never terminates its own thread |
| JobThreads.StopRun | pcef/core/system.py:146-148 | `stopRun` does what `onFinish` does and then terminates the thread, as its last action |
| JobThreads.StopRunFinishesFirst | pcef/core/system.py:146-148 | `stopRun` ends with one termination, and any finish-hook call comes before it |
| JobRunner.Configure | pcef/core/system.py:186-188 | the thread `startJob` builds, and the head's reconfiguration at lines 195-196, runs exactly the submitted body with the submitted arguments and has `executeNext` as its finish hook, whatever the thread held before |
| JobRunner.ExecuteNext | pcef/core/system.py:200-206 | no-op except clearing `running` on an empty queue; otherwise removes only the head, keeps the rest in order, and starts the new head iff one remains, so `running` holds iff the queue is non-empty afterwards |
| JobRunner.StopJob | pcef/core/system.py:208-211 | nothing on an empty queue; otherwise exactly one stop is posted, aimed at `queue[0]` |
| JobRunner.StartJob | pcef/core/system.py:184-198 | appends exactly one new job at the tail and keeps earlier entries and their order, with or without `force`; `running` is true afterwards; a forced stop targets the old head, or the new job on an idle runner; the new thread's finish hook is `executeNext` |
| JobRunner.InitInv | pcef/core/system.py:175-176 | the empty, idle runner satisfies the runner invariant and the clean-run invariant |
| JobRunner.StartJobInv | pcef/core/system.py:184-198 | `startJob` preserves `running` iff non-empty queue, the contiguous id block in the queue, and the started trace being the first submissions in order |
| JobRunner.StartJobClean | pcef/core/system.py:184-198 | `startJob` keeps "only the head's thread is live" |
| JobRunner.StopJobInv | pcef/core/system.py:208-211 | posting a stop preserves both invariants |
| JobRunner.StepThreadEnds | pcef/core/system.py:162-167 | a thread that returns runs `executeNext` on its own behalf and ends; one whose body is not callable just ends |
| JobRunner.StepDeliverStop | pcef/core/system.py:133-148 | delivering a posted stop runs the target's `onFinish`, which is `executeNext`, and then terminates the target |
| JobRunner.StopRunOverlap | pcef/core/system.py:146-148 | when a stop is delivered to a live head with a job behind it, the state after `onFinish` and before `terminate` has both jobs' threads live; the target is no longer live once the event ends |
| JobRunner.FinishJobInv | pcef/core/system.py:200-206 | a finish-hook call from any thread preserves the runner invariant |
| JobRunner.FinishHeadClean | pcef/core/system.py:200-206 | the head finishing preserves the clean-run invariant |
| JobRunner.Step | pcef/core/system.py:113-116 | one event: a thread whose `run` (system.py:162-167) ends is no longer live; delivering the oldest stop consumes it and ends its target's thread through `stopRun` (system.py:146-148); dropping a replaced stop removes exactly that stop and changes nothing else; none of the three posts a stop or submits a job |
| JobRunner.DropStopInv | pcef/core/system.py:134-137 | discarding a replaced stop keeps the runner invariant |
| JobRunner.StepInv | pcef/core/system.py:184-211 | every enabled event, including the discarding of a replaced stop, preserves the runner invariant |
| JobRunner.StepClean | pcef/core/system.py:184-211 | every enabled event except the delivery of a stale stop preserves the clean-run invariant; discarding a stop is one of them |
| JobRunner.TraceInv | pcef/core/system.py:184-211 | the invariant holds after any trace, and the clean invariant after any clean trace |
| JobRunner.FifoStarts | pcef/core/system.py:190-205 | from the empty runner, `running` holds iff the queue is non-empty, and the started jobs are exactly the first submissions in order: FIFO, never reordered |
| JobRunner.CleanAtMostOne | pcef/core/system.py:190-205 | without stale stop deliveries, at every event boundary at most one thread is live, it is the head's, and `executeNext` ran once per popped job on that job's behalf, in order |
| JobRunner.StopJobTargetsHead | pcef/core/system.py:208-211 | `stopJob` changes nothing on an empty queue, else appends one stop for `queue[0]` and leaves queue, flag and live threads alone |
| JobRunner.ForceOnIdleTargetsNewJob | pcef/core/system.py:189-198 | on an idle runner a forced submission posts its stop for the job it has just submitted and started |
| JobRunner.ForceOnBusyTargetsHead | pcef/core/system.py:189-193 | on a busy runner a forced submission stops the running head, not the new job, and the new job waits behind all older jobs |
| JobRunner.IdleStartRunsSubmittedBody | pcef/core/system.py:194-198 | the reconfiguration of `queue[0]` on an idle runner touches only the new job, so it runs the submitted body and arguments |
| JobRunner.HazardFirstHalf | pcef/core/system.py:208-211 | a stop posted for job 0 stays pending after job 0 finished on its own and job 1 became the head |
| JobRunner.HazardSecondHalf | pcef/core/system.py:146-148 | delivering that stale stop pops job 1 while its thread runs and starts job 2 beside it |
| JobRunner.StaleStopHazard | pcef/core/system.py:200-211 | a valid event trace ends with two live threads, job 1 dropped from the queue, and `executeNext` run twice for job 0 |
| JobRunner.VisitsPrepend | pcef/core/system.py:113-116 | a run of enabled steps stays one when one more enabled step is put in front of it |
| JobRunner.VisitsCons | pcef/core/system.py:113-116 | a run of enabled steps stays one, and free of stale deliveries, when one more enabled step that delivers no stale stop is put in front of it |
| JobRunner.VisitsStale | pcef/core/system.py:200-211 | a run of enabled steps in which some delivery meets a stale stop is a trace that is not clean |
| JobRunner.VisitsClean | pcef/core/system.py:184-211 | a sequence of states joined by enabled steps, none of which delivers a stale stop, is a trace from its first state and a clean one |
| JobRunner.ReplacedDelivery | pcef/core/system.py:146-148 | with only job 1 live and queued and only its stop waiting, delivering that stop is not stale and leaves nothing live, the queue empty, the runner idle and both jobs finished |
| JobRunner.ReplacedDrop | pcef/core/system.py:134-137 | with stops for job 0 (already ended) and job 1 waiting, dropping the older one and delivering the newer one is a run free of stale deliveries that drains the runner |
| JobRunner.ReplacedSecondHalf | pcef/core/system.py:134-137 | after job 0 finished with its stop pending, a second stop for job 1 is posted, the stale one is dropped, and job 1's is delivered to the live head, ending with nothing live and the queue empty |
| JobRunner.ReplacedStopTail | pcef/core/system.py:134-137 | from the first stop request on, the events "job 0 returns, stop, drop the first stop, deliver" visit states with no stale delivery and drain the runner |
| JobRunner.ReplacedStopStates | pcef/core/system.py:134-137 | the whole replaced-stop scenario from the initial runner visits states in which no delivery meets a stale stop, ending drained with both jobs finished |
| JobRunner.ReplacedStopDropped | pcef/core/system.py:134-137 | the run "submit two jobs, stop, job 0 returns, stop, the first stop is discarded, the second is delivered" is a clean trace: `executeNext` runs once for each job and the runner ends empty and idle with no thread live |
| JobRunner.ForcedStaleDelivery | pcef/core/system.py:200-211 | the stop for job 0 delivered while job 1 is the head is stale: it pops job 1, leaves its thread live and runs `executeNext` a second time for job 0 |
| JobRunner.ForcedResubmit | pcef/core/system.py:184-198 | after the forced job has returned, a plain submission starts job 1 while job 0's stop still waits, and that stop's delivery is stale |
| JobRunner.ForcedJobReturns | pcef/core/system.py:189-211 | after a forced submission on an idle runner, job 0 returns, a plain submission follows, and the delivery of job 0's stop then meets a stale stop and leaves job 1's thread live with the queue empty |
| JobRunner.ForcedStopGoesStale | pcef/core/system.py:189-211 | "forced submit on an idle runner, its job returns, plain submit, deliver" is a trace that is not clean: it ends with the queue empty and `running` false while job 1's thread is still live, and `executeNext` has run twice for job 0 |
| JobRunner.NonCallableBodyStalls | pcef/core/system.py:162-167 | a job whose body is not callable raises without calling `executeNext`, so the runner stays `running` with it at the head and later submissions start nothing |
| JobDrain.SubmitAll | pcef/core/system.py:184-198 | after `n` plain submissions to a new runner the queue holds jobs `0 .. n-1` in order and only the head has been started |
| JobDrain.SubmitNext | pcef/core/system.py:184-198 | one more plain submission queues job `n` behind jobs `0 .. n-1`, keeps the invariants and starts nothing new on a busy runner |
| JobDrain.DrainAll | pcef/core/system.py:200-206 | letting the queued jobs return one by one, head first, is a valid trace that empties the queue and leaves the runner idle |
| JobDrain.QueueDraining | pcef/core/system.py:184-206 | the schedule of `n` plain submissions to a new runner followed by the jobs returning one by one, head first, starts exactly jobs `0 .. n-1` and runs `executeNext` once for each, in submission order, ending with an empty queue and `running` false |
| TextStyles.Format | pcef/core/system.py:56-67 | `__str__` starts with the colour name followed by a space |
| TextStyles.FormatTokens | pcef/core/system.py:56-67 | `__str__` emits exactly four space-separated tokens: colour, `bold`/`nbold`, `italic`/`nitalic`, `underlined`/`nunderlined` |
| TextStyles.ParseAsWritten | pcef/core/system.py:69-81 | fails iff the token count is not four; colour is token 1, bold iff token 2 is "bold", italic iff token 3 is "italic", underlined iff token 2 is "underlined", so never both bold and underlined |
| TextStyles.Parse | pcef/core/system.py:69-81 | the same parser with the underline flag read from token 4 |
| TextStyles.AsWrittenRoundTrip | pcef/core/system.py:56-81 | parsing `__str__` output with the code as written keeps colour, bold and italic but always yields not underlined |
| TextStyles.AsWrittenLosesUnderline | pcef/core/system.py:79-81 | with the code as written, `from_string(str(t)) == t` holds exactly for the styles that are not underlined |
| TextStyles.RoundTrip | pcef/core/system.py:56-81 | with the corrected parser, parsing `__str__` output gives back the style |
| TextStyles.CanonicalRoundTrip | pcef/core/system.py:56-81 | every canonical string, a "#rrggbb" colour in lower-case hexadecimal as `QColor.name()` writes it followed by three flag tokens, is reproduced by formatting what the corrected parser reads |
| Inheritors.Inheritors | pcef/core/system.py:84-93 | the loop terminates on every finite hierarchy and returns exactly the classes reachable from `k` by one or more subclass edges |
| Inheritors.AddSubclasses | pcef/core/system.py:89-92 | the inner loop adds every subclass of `parent` to the result; it pushes exactly the newly found classes, once each, after the existing work list |
| Inheritors.AddOne | pcef/core/system.py:90-92 | adding a new subclass keeps a witness chain for every found class and keeps every work entry either `k` or found |
| Inheritors.MeasureDrops | pcef/core/system.py:86-92 | each popped entry lowers "classes not yet found + work-list length" by one, so the loop terminates |
| Inheritors.ClosedAfterAdd | pcef/core/system.py:87-92 | after popping `parent` and adding its subclasses, every found class's subclasses are found or it is still waiting in the work list |
| Inheritors.ClosedHoldsInheritors | pcef/core/system.py:86-93 | with an empty work list, every class that inherits from `k` has been found |
| Inheritors.WitnessedInherit | pcef/core/system.py:86-93 | every found class inherits from `k` |
| Inheritors.ChainEndsInClosed | pcef/core/system.py:84-93 | a set closed under subclasses that holds `k`'s subclasses holds every class reachable from `k` |
| Inheritors.CoverSet | pcef/core/system.py:89-92 | every class the loop can add comes from one finite set |
| IgnorePatterns.AddIgnorePatterns | pyqode/core/widgets/filesystem_treeview.py:176-191 | appends each argument in order, a list argument flattened by one level; the patterns already present are untouched |
| IgnorePatterns.FlattenAppend | pyqode/core/widgets/filesystem_treeview.py:186-191 | flattening distributes over concatenation of argument lists |
| IgnorePatterns.IgnoreDirectories | pyqode/core/widgets/filesystem_treeview.py:139-151 | passes each argument to `add_ignore_patterns` on its own, so the list grows by exactly the flattened arguments, in order |
| IgnorePatterns.IgnoreExtensions | pyqode/core/widgets/filesystem_treeview.py:153-168 | appends "*" + `ext` for each extension in order and keeps the earlier patterns |
| IgnorePatterns.ClearIgnorePatterns | pyqode/core/widgets/filesystem_treeview.py:170-174 | the pattern list is empty afterwards |
| IgnorePatterns.AddAfterClear | pyqode/core/widgets/filesystem_treeview.py:170-191 | after clearing, the list holds exactly the patterns added since |
| IgnorePatterns.ProxyPatterns | pyqode/core/widgets/filesystem_treeview.py:235-237 | the proxy's patterns are the five defaults followed by the user patterns in order, and nothing else |
| FilterProxy.NewProxy | pyqode/core/widgets/filesystem_treeview.py:45-50 | a new proxy has the five default patterns, no siblings and no root |
| FilterProxy.SetRootPath | pyqode/core/widgets/filesystem_treeview.py:52-63 | the root is set; the sibling list is replaced by the normalised paths of the parent directory's entries other than the root, and holds nothing else; the patterns are unchanged |
| FilterProxy.FilterAcceptsRow | pyqode/core/widgets/filesystem_treeview.py:65-78 | fails iff no root was set; otherwise accepts iff the root is a mount point, or the normalised path is not a sibling and no ignore pattern matches the file name |
| UrlListMime.Format | pyqode/core/widgets/filesystem_treeview.py:340-342 | the copy format exactly when `copy`, else the cut format |
| UrlListMime.FormatInjective | pyqode/core/widgets/filesystem_treeview.py:340-342 | the copy and cut formats are distinct |
| UrlListMime.Formats | pyqode/core/widgets/filesystem_treeview.py:337-338 | `formats()` is exactly `[format(self.copy)]` |
| UrlListMime.SetList | pyqode/core/widgets/filesystem_treeview.py:313-320 | stores under the object's own format, keeps the copy flag, and leaves payloads under other formats alone |
| UrlListMime.ListFrom | pyqode/core/widgets/filesystem_treeview.py:322-335 | yields at least one URL, none containing a newline; a missing payload reads as one empty URL |
| UrlListMime.RoundTrip | pyqode/core/widgets/filesystem_treeview.py:313-335 | `list_from(set_list(urls)) == urls` for every non-empty list of URLs without newlines |
| UrlListMime.EmptyListReadsBackOneEmptyUrl | pyqode/core/widgets/filesystem_treeview.py:313-335 | the empty list reads back as `['']` |
| UrlListMime.ReadStoreStable | pyqode/core/widgets/filesystem_treeview.py:313-335 | storing what was read back leaves the object unchanged |
| UrlListMime.OtherFormatUnaffected | pyqode/core/widgets/filesystem_treeview.py:313-342 | storing as copied does not change what reading for a cut returns, and vice versa |
| FileExplorer.LinuxExplorerName | pyqode/core/widgets/filesystem_treeview.py:757-763 | empty output gives ""; the name is no longer than the output, has no dot, no upper-case letter and no line break; its value is pinned by the entry lemmas below |
| FileExplorer.StripDesktop | pyqode/core/widgets/filesystem_treeview.py:758-759 | `replace('.desktop', '')` on text ending in ".desktop" with no other occurrence removes exactly that suffix |
| FileExplorer.StripFolderHandler | pyqode/core/widgets/filesystem_treeview.py:759 | `replace('-folder-handler', '')` on text ending in "-folder-handler" with no other occurrence removes exactly that suffix |
| FileExplorer.NoDesktopInHandler | pyqode/core/widgets/filesystem_treeview.py:758-759 | appending "-folder-handler" to text without ".desktop" creates no ".desktop" |
| FileExplorer.EntryName | pyqode/core/widgets/filesystem_treeview.py:757-760 | a first line "<p>.desktop" or "<p>-folder-handler.desktop", for `p` without either suffix or a line break, names the last dot-separated piece of `p`, lower-cased, whether or not a line break follows |
| FileExplorer.DesktopEntryName | pyqode/core/widgets/filesystem_treeview.py:757-760 | "<vendor>.<name>.desktop" on the first line, such as "org.gnome.Nautilus.desktop", names `name` lower-cased ("nautilus") |
| FileExplorer.FolderHandlerEntryName | pyqode/core/widgets/filesystem_treeview.py:757-760 | "<vendor>.<name>-folder-handler.desktop" on the first line names `name` lower-cased |
| FileExplorer.BareEntryName | pyqode/core/widgets/filesystem_treeview.py:757-760 | "<name>.desktop" or "<name>-folder-handler.desktop" on the first line, such as "nautilus-folder-handler.desktop", names `name` lower-cased |
| FileExplorer.GetLinuxFileExplorer | pyqode/core/widgets/filesystem_treeview.py:749-765 | returns the cached name if any; otherwise the derived name, cached only when the output was non-empty; the cached command is untouched |
| FileExplorer.LinuxExplorerCached | pyqode/core/widgets/filesystem_treeview.py:749-765 | once cached, the name is returned whatever `xdg-mime` prints later |
| FileExplorer.ProgramName | pyqode/core/widgets/filesystem_treeview.py:804-807 | the first space-separated token when it is relative; when it is absolute, the suffix of that token after its last "/"; never contains a space |
| FileExplorer.SetFileExplorerCommand | pyqode/core/widgets/filesystem_treeview.py:803-809 | caches the command and its program name |
| FileExplorer.LinuxCommand | pyqode/core/widgets/filesystem_treeview.py:788-793 | nautilus and dolphin get "--select", any other explorer gets the path alone |
| FileExplorer.GetFileExplorerCommand | pyqode/core/widgets/filesystem_treeview.py:784-801 | the cached command if any; otherwise the platform's command, then cached; an unknown platform fails |
| FileExplorer.GetFileExplorerName | pyqode/core/widgets/filesystem_treeview.py:767-778 | "Finder" on macOS, "Explorer" on Windows, otherwise the capitalised program name of the explorer command, failing exactly when that command fails |
| FileExplorer.SetThenGet | pyqode/core/widgets/filesystem_treeview.py:784-809 | after `set_file_explorer_command(cmd)` every platform's command lookup returns `cmd`, and the cached explorer is its program name |
| FileExplorer.SetThenName | pyqode/core/widgets/filesystem_treeview.py:767-809 | after a user-set command, the explorer name off macOS and Windows is that command's capitalised program name |
| FileExplorer.CommandCached | pyqode/core/widgets/filesystem_treeview.py:784-801 | the command is computed once; a second lookup returns the first result and leaves the cache as it is |
| FileExplorer.CapitalizedNames | pyqode/core/widgets/filesystem_treeview.py:770-778 | "finder" and "explorer" capitalise to "Finder" and "Explorer" |
| Strings.Join | pcef/core/system.py:67 | `sep.join(parts)`: the empty list joins to ""; the result starts with the first part, followed by the separator when there is a second part |
| Strings.Split | pcef/core/system.py:70 | Python's `str.split(sep)`: at least one piece, none containing the separator, a single piece iff the separator does not occur |
| Strings.SplitJoin | pcef/core/system.py:67-70 | splitting a join of separator-free pieces gives the pieces back |
| Strings.JoinSplit | pyqode/core/widgets/filesystem_treeview.py:320-331 | joining the pieces of a split gives the string back |
| Strings.SplitFirstIsPrefix | pyqode/core/widgets/filesystem_treeview.py:805 | the first piece is the prefix before the first separator |
| Strings.LastPiece | pyqode/core/widgets/filesystem_treeview.py:759-760 | `split(sep)[-1]` holds no separator |
| Strings.LastPieceAfter | pyqode/core/widgets/filesystem_treeview.py:759-760 | the last piece of `a + sep + b`, for separator-free `b`, is `b` |
| Strings.LastPieceIsSuffix | pyqode/core/widgets/filesystem_treeview.py:759-760 | `split(sep)[-1]` is the suffix after the last separator, or the whole string |
| Strings.FirstLine | pyqode/core/widgets/filesystem_treeview.py:758 | `splitlines()[0]`: the longest prefix without a line break |
| Strings.FirstLineWhole | pyqode/core/widgets/filesystem_treeview.py:758 | text without a line break is its own first line |
| Strings.FirstLineOfLine | pyqode/core/widgets/filesystem_treeview.py:758 | a line followed by a line break is the first line |
| Strings.RemoveAll | pyqode/core/widgets/filesystem_treeview.py:758-759 | `replace(pat, '')` never lengthens the string or introduces characters |
| Strings.RemoveAllAbsent | pyqode/core/widgets/filesystem_treeview.py:758-759 | removing a pattern that never occurs changes nothing |
| Strings.NoStraddle | pyqode/core/widgets/filesystem_treeview.py:758-759 | no occurrence of the pattern starts inside `x` in `x + y` when none lies in `x` and no proper suffix of the pattern begins `y` |
| Strings.RemoveAllKeepsPrefix | pyqode/core/widgets/filesystem_treeview.py:758-759 | a prefix in which no occurrence starts is kept |
| Strings.Lower | pyqode/core/widgets/filesystem_treeview.py:760 | `lower()` keeps length and every character that is not an upper-case letter, and maps each upper-case letter to its own lower-case letter |
| Strings.Capitalize | pyqode/core/widgets/filesystem_treeview.py:778 | `capitalize()` keeps length, maps a lower-case first letter to its own upper-case letter and each later upper-case letter to its own lower-case letter, and keeps every other character |

## Left out

- Real concurrency. A thread's `run` ending, the delivery of a posted stop and the discarding of a replaced one are events the environment may interleave with the caller's calls in any order. `QThread.start` and `terminate` are actions inside `startJob`, `executeNext` and `stopRun`. Each event is atomic, though in the source `executeNext` runs on the worker thread and could interleave with the caller's `startJob` or `stopJob`.
- The `Invoker` and `InvokeEvent` objects. They are modelled as a FIFO list of posted stops. `stopJobThreadInstance` replaces `caller.invoker` on each post, which may let Qt discard an earlier undelivered event. The model lets any stop except the newest be discarded (`DropStop`), without deciding when Qt actually does so. So it admits every delivery order the source can show, and some it may not.
- The class-level `__jobqueue`, which every `JobRunner` instance shares, and the instance attribute that `self.__jobRunning = True` creates. The model has one runner, with its queue and flag together.
- `JobThread.__repr__` and `JobRunner.__repr__`: formatting only.
- The moment inside one stop delivery when two job threads run: `executeNext` starts the next head before `terminate` ends the target, and `QThread.terminate` itself takes effect asynchronously. The model's events are atomic, so `JobRunner.CleanAtMostOne` speaks of event boundaries only. `JobRunner.StopRunOverlap` exhibits the intermediate state.
- The body's own effects and exceptions. In the model every callable body returns. In the source, a body that raises skips `onFinish`, which would leave the runner `running` as `JobRunner.NonCallableBodyStalls` shows for a non-callable body.
- `QColor` parsing and `name()`. The colour is an opaque string. So `TextStyles.CanonicalRoundTrip` is stated only for colours already in the "#rrggbb" lower-case form that `name()` returns; a name such as "red" would come back from `QColor` as "#ff0000".
- TextStyles.RoundTrip: requires a colour without spaces, which `QColor.name()` always gives ("#rrggbb").
- TextStyles.AsWrittenRoundTrip: requires a colour without spaces, which `QColor.name()` always gives ("#rrggbb").
- TextStyles.AsWrittenLosesUnderline: requires a colour without spaces, which `QColor.name()` always gives ("#rrggbb").
- TextStyles.FormatTokens: requires a colour without spaces, which `QColor.name()` always gives ("#rrggbb").
- `TextStyle.__init__`, which sets a default style (an invalid `QColor`, all flags false) and calls `from_string` only for a non-empty style. Also left out: running under `python -O`, which skips the `assert` in `from_string`. The model always checks the token count and reports `WrongTokenCount`.
- `findSettingsDirectory` (home directory lookup, `mkdir`) and `find_subpackages` (`pkgutil`, printing): I/O only.
- `os.path.dirname`, `join`, `normpath`, `listdir`, `ismount` and `fnmatch` are supplied as functions, not modelled.
- FilterProxy.SetRootPath states which paths the sibling list holds, in both directions, but not their order. `filterAcceptsRow` uses only membership.
- FilterProxy.SetRootPath: has no error path. In the source `os.listdir(parent_dir)` (pyqode/core/widgets/filesystem_treeview.py:60) raises for a missing or unreadable parent directory, and for a path with no directory part, since `dirname` then gives "" and `listdir("")` fails. By then `_ignored_unused` has been cleared and `_root` set (lines 57-58), so the proxy is left half-updated. The model's `listdir` is total.
- The tree view's `set_root_path` branches for invisibility (deferral to `showEvent`), UNC paths on Windows, and `isfile`. Also all Qt model, index, menu, icon, signal and dialog plumbing, and the file operations (`_paste`, `delete`, `rename`, `create_*`).
- The locale byte encoding in `set_list` and the UTF-8 decoding in `list_from` are the identity.
- `subprocess` calls, `platform.system()` and `show_in_explorer`. The `xdg-mime` output and the platform are parameters.
- The errors `get_linux_file_explorer` does not catch. Only `subprocess.CalledProcessError` (a non-zero exit) becomes empty output. A missing `xdg-mime` binary (`FileNotFoundError`) and output that is not valid UTF-8 (`UnicodeDecodeError` from `.decode()`) propagate through `get_file_explorer_command` and `get_file_explorer_name` to their callers. The model has no such error.
- FileExplorer.LinuxExplorerName: its own contract states only the shape of the name. Its value is pinned by `FileExplorer.EntryName` and its corollaries for first lines that are desktop entries, which is what `xdg-mime` prints. It is not pinned for other output.
- FileExplorer.LinuxExplorerName: changes the case of ASCII letters only, while Python's `lower` also maps other Unicode letters.
- Strings.Lower: changes the case of ASCII letters only, while Python's `lower` also maps other Unicode letters.
- Strings.Capitalize: changes the case of ASCII letters only, while Python's `capitalize` also maps other Unicode letters.
- `get_linux_file_explorer` reads `cls._explorer` but writes `FileSystemContextMenu._explorer`. The model has one cache, which is what happens when the method is called on `FileSystemContextMenu` itself.
- `os.path.isabs` and `os.path.split` follow POSIX: absolute means a leading "/", and the tail is what follows the last "/".

## Findings

| source | as written | input that shows it | evidently intended | confidence | as-written member | corrected member |
|---|---|---|---|---|---|---|
| pcef/core/system.py:80 | `from_string` sets `underlined` when `tokens[1] == "underlined"`, the token that holds `bold`/`nbold` | `from_string("#000000 nbold nitalic underlined")` yields underlined = false, so `from_string(str(style))` loses the underline of every underlined style | test `tokens[3]`, the token `__str__` writes the underline flag to | high; not executed | TextStyles.AsWrittenLosesUnderline | TextStyles.RoundTrip |
