# Projeto_Ping: a verified model of the host-probing window

Projeto_Ping is a small PyQt5 program. The user types a comma-separated
list of hosts and presses "Ping". The window lists each host as
"host: Pinging...", disables the button and starts one `PingWorker` per
host on a thread pool. Each worker runs `ping` once, with a 3-second
timeout, and emits `(host, "On")` or `(host, "Off")`. The slot
`update_result` rewrites the row of that host. When no row says
"Pinging..." any more, it re-enables the button. Each running copy of the
program titles its window "Grupo A", "Grupo B", … from a counter kept in
a temporary file.

The model has six modules:

- `Text` (text.dfy): Python's `str.split` with one separator character, `sep.join` and `str.strip()`. Whitespace is the exact set of characters `str.isspace()` accepts.
- `HostParsing` (host_parsing.dfy): turning the input text into hosts (`[h.strip() for h in text.split(",") if h.strip()]`).
- `Probe` (probe.dfy): one worker. It covers the stripped host, the platform-dependent `ping` command, the folding of every process outcome into "On"/"Off", and the single emission.
- `ResultList` (result_list.dfy): what the window shows, as values. A `Display` holds the row texts, `items_map` and the button state. `AfterStart` is `start_ping`, `AfterUpdate` is one `update_result` call, and `Deliver` applies a sequence of results in delivery order. Qt delivers queued signals one at a time on the GUI thread, so any interleaving of the workers is one such sequence.
- `App` (app.dfy): the window as a class whose fields the slots update in place. Each method is proved to produce exactly the display the `ResultList` function gives.
- `InstanceName` (instance_name.dfy): the counter arithmetic and the label of `get_instance_name`.

`items_map` maps each host to the index of its row. Its three states are:

- `NotCreated`: before the first non-empty batch the attribute does not exist, and `update_result` raises `AttributeError`.
- `Live`: the map refers to rows that exist.
- `Deleted`: after `result_list.clear()` on the "no hosts" path, the stored items are deleted C++ objects, and `setText` on one raises `RuntimeError`.

Either exception ends the slot before the completion scan, so the rows,
the map and the button are left as they were. `UpdateResult` returns the
fault instead of raising it. Neither fault can arise in the program as
written: workers exist only after `items_map` is set, and the "no hosts"
path cannot run while a batch is pending, because the button is disabled
then.

A host entered twice is not tracked as two probes. `items_map` keeps only
its last row, the earlier row stays "Pinging..." for ever, and the button
is never re-enabled (`ResultList.DuplicateHostStalls`). With distinct
hosts, `ResultList.DistinctBatchEnablesButton` and
`ResultList.DistinctWorkersSettle` prove that the batch completes in any
delivery order.

## Model

| member | source | states |
|---|---|---|
| Text.Strip | Projeto_Ping.py:103 | `strip()` leaves no whitespace at either end and never lengthens the text |
| Text.StripPadded | Projeto_Ping.py:103 | stripping a stripped body padded with whitespace on both sides gives back exactly that body |
| Text.StripIdempotent | Projeto_Ping.py:43 | stripping an already stripped host (the worker strips again) changes nothing |
| Text.StripEmptyIff | Projeto_Ping.py:103 | `h.strip()` is empty exactly when `h` is all whitespace (both directions) |
| Text.Split | Projeto_Ping.py:103 | `split(",")` always yields at least one field; `SplitSpec` fixes the fields' content |
| Text.SplitSpec | Projeto_Ping.py:103 | no field of `split(",")` contains a comma, and joining the fields with commas gives the input back |
| Text.SplitAround | Projeto_Ping.py:103 | splitting around one comma splits the text on each side independently and concatenates the results |
| Text.SplitJoin | Projeto_Ping.py:103 | round trip: comma-free fields survive join-then-split unchanged |
| HostParsing.NonBlankStripped | Projeto_Ping.py:103 | the comprehension keeps at most one host per field; `NonBlankStrippedHosts` says what each kept host looks like |
| HostParsing.NonBlankStrippedHosts | Projeto_Ping.py:103 | every kept entry is a host: non-empty, stripped and comma-free |
| HostParsing.ParseHosts | Projeto_Ping.py:103 | every parsed host is non-empty, stripped and comma-free |
| HostParsing.ParseHostsAround | Projeto_Ping.py:103 | parsing keeps input order: hosts before a comma, then hosts after it |
| HostParsing.ParseHostsField | Projeto_Ping.py:103 | a comma-free text yields its stripped self, or no host when it is blank |
| HostParsing.ParseHostsEmptyIff | Projeto_Ping.py:103-104 | the "no hosts" path is taken exactly when the text holds only commas and whitespace |
| HostParsing.BlankFieldsExample | Projeto_Ping.py:103-104 | the input "   ,  ," yields no host |
| Probe.NewWorker | Projeto_Ping.py:41-43 | the worker keeps `host.strip()` of its own input: no whitespace at either end, and an already stripped host unchanged |
| Probe.IsWindows | Projeto_Ping.py:47 | `platform.system().lower() == "windows"` holds exactly for the seven letters of "windows", each in either case |
| Probe.CountFlag | Projeto_Ping.py:47 | the count flag is "-n" exactly on Windows (any letter case), "-c" otherwise |
| Probe.PingCommand | Projeto_Ping.py:47-48 | the command is `ping <flag> 1 <host>` |
| Probe.PingCommandInjective | Projeto_Ping.py:47-48 | two commands are equal exactly when they name the same host and the same platform flag |
| Probe.WindowsSpellings | Projeto_Ping.py:47 | "Windows", "WINDOWS", "windows" select "-n"; "Linux", "Darwin", "Windows NT" do not |
| Probe.Classify | Projeto_Ping.py:50-64 | the status is "On" exactly when the process exited with code 0; a non-zero exit, a timeout or any other failure gives "Off" |
| Probe.Run | Projeto_Ping.py:46-66 | one emission, carrying the worker's own host; "On" exactly when the ping command for that host succeeded |
| Probe.Workers | Projeto_Ping.py:123-126 | one worker per host, in list order, each built from its host |
| Probe.Emissions | Projeto_Ping.py:123-126 | the batch emits one result per worker, each that worker's `run` |
| ResultList.ResultRow | Projeto_Ping.py:131 | the row text is the host, then ": ", then the status, and nothing else |
| ResultList.IsPending | Projeto_Ping.py:139 | a row is pending exactly when it is some text followed by "Pinging..." |
| ResultList.PendingRows | Projeto_Ping.py:112-115 | one row per host, in order, each "host: Pinging..." and pending |
| ResultList.ResultRowSettled | Projeto_Ping.py:131 | a row rewritten with "On" or "Off" no longer ends with "Pinging..." |
| ResultList.ItemsIndex | Projeto_Ping.py:120 | the map's keys are exactly the hosts; each is mapped to a row of that host, the last one when it repeats |
| ResultList.ItemsIndexDistinct | Projeto_Ping.py:120 | with distinct hosts, host `i` is mapped to row `i` |
| ResultList.Cleared | Projeto_Ping.py:105 | clearing the list leaves no live map; an existing map now refers to deleted items |
| ResultList.AfterStart | Projeto_Ping.py:101-120 | no host: only the informational row, map cleared, button untouched; otherwise one pending row per host, map rebuilt, button disabled; the map stays consistent with the rows |
| ResultList.SlotFaultOf | Projeto_Ping.py:129-131 | `AttributeError` exactly when `items_map` was never set; `RuntimeError` exactly when the host maps to a deleted item; otherwise no fault |
| ResultList.AfterUpdate | Projeto_Ping.py:128-143 | on a fault nothing changes; otherwise only the mapped row is rewritten to "host: status", and the button is re-enabled exactly when no row is pending |
| ResultList.Deliver | Projeto_Ping.py:128-143 | any sequence of results keeps the map and the number of rows, and keeps the map consistent |
| ResultList.LastReportFound | Projeto_Ping.py:128-131 | a host has a last reported status exactly when a result for it was delivered, and that status is one delivered for it |
| ResultList.RowsAfterStep | Projeto_Ping.py:128-131 | one more result rewrites at most the row the map gives for its host |
| ResultList.DeliverAfterStart | Projeto_Ping.py:110-143 | after a batch and any results: each row shows its host's last status if the map points to it, and is pending otherwise; the button is disabled exactly while a row is pending |
| ResultList.DistinctRowSettled | Projeto_Ping.py:137-141 | with distinct hosts, a row is settled exactly when its host has reported |
| ResultList.DistinctBatchEnablesButton | Projeto_Ping.py:137-143 | with distinct hosts, the button is re-enabled exactly when every host has reported, in any delivery order |
| ResultList.DuplicateHostStalls | Projeto_Ping.py:120-143 | a repeated host's earlier row stays "Pinging..." and the button stays disabled, whatever results arrive |
| ResultList.DistinctWorkersSettle | Projeto_Ping.py:123-143 | once every worker's result of a distinct batch is delivered, in any order, the button is enabled and each row shows its host's probe status |
| ResultList.DistinctBatchSettles | Projeto_Ping.py:101-143 | the same, starting from the text typed into the input field |
| App.PingApp.constructor | Projeto_Ping.py:69-99 | a new window: empty list, no `items_map`, button enabled, no worker |
| App.PingApp.StartPing | Projeto_Ping.py:101-126 | the display becomes `AfterStart` of the parsed hosts, and one worker per parsed host is added to the pool, in order |
| App.PingApp.StartBatch | Projeto_Ping.py:104-126 | the same, for an already parsed host list |
| App.PingApp.ListPending | Projeto_Ping.py:112-115 | the loop leaves exactly one pending row per host, in order |
| App.PingApp.StartWorkers | Projeto_Ping.py:123-126 | the loop appends one worker per host to the pool, in order |
| App.PingApp.UpdateResult | Projeto_Ping.py:128-143 | the display becomes `AfterUpdate`; the fault returned is the exception the slot raises; no worker is started |
| App.PingApp.AllDone | Projeto_Ping.py:138-141 | the scan answers true exactly when no row ends with "Pinging..." |
| InstanceName.NextCount | Projeto_Ping.py:23-31 | the new count is the stored one plus one, and 1 when no counter file existed |
| InstanceName.InstanceLabel | Projeto_Ping.py:33 | a label exists exactly when 64 + count is a character; it is "Grupo " followed by that one character |
| InstanceName.FirstInstanceIsA | Projeto_Ping.py:20-33 | the first copy is titled "Grupo A" |
| InstanceName.LettersForFirst26 | Projeto_Ping.py:33 | counts 1 to 26 give "Grupo A" to "Grupo Z" in order |
| InstanceName.LabelsDistinct | Projeto_Ping.py:33 | different counts give different labels |
| InstanceName.TwentySeventhInstance | Projeto_Ping.py:33 | the 27th copy is titled "Grupo [", not a letter |

## Left out

- Running `ping`: `subprocess.run`, its output redirection and its 3-second timeout are not modelled. Each worker takes the process outcome from a `runner` parameter, and `Probe.ProcessOutcome` names the outcomes the `except` clauses distinguish.
- Probe.Run: `runner` is a function of the command, so two workers for the same host always get the same outcome. Two real `ping` runs can differ. No lemma relies on this: the completion lemmas assume distinct hosts, and `DuplicateHostStalls` holds for any results.
- App.PingApp.UpdateResult: an exception raised in a slot is not propagated. Under PyQt5 5.5 and later, with the default `sys.excepthook`, it ends the process. The model returns the fault and leaves the display unchanged. Neither fault state is reachable, for the reasons given above.
- `platform.system()` is not modelled. The platform name is a parameter.
- Concurrency: `QThreadPool` and the worker threads are not modelled. Their results reach the window one at a time, as a sequence of `update_result` calls in any order. The model quantifies over every such sequence.
- Signal wiring (`WorkerSignals`, `connect`) is not modelled. A worker's emission is the `update_result` call it causes.
- Widget presentation is not modelled: foreground colours (lines 114, 133-135), the window title call, the minimum size and the layouts.
- `get_instance_name` file I/O (lines 21-31) is not modelled: the temporary directory, creating the file with "0", reading, and writing back. The stored counter is a parameter. A non-numeric file makes `int()` raise. Writing a shorter number over a longer one with `seek(0)` and no truncation leaves stale digits. Neither is modelled.
- `closeEvent` (deleting the counter file) and `main` are not modelled.
- InstanceName.InstanceLabel: Python's `chr` accepts surrogate code points (0xD800-0xDFFF), but a Dafny `char` cannot hold one, so the model reports `SurrogateCodePoint` there instead of a label.
- Placeholder text of the input field (line 85) is not modelled. It is never read.
