# PCB burner: a Dafny model of the production cycle

The PCB burner is a desktop tool for a small production line. It loads a CSV
file with one record per board: an id, a model name, image-file columns, a
burn count and two status columns (`passed_test`, `printed`). It then runs
each board through a fixed cycle:

1. The operator selects a record.
2. The firmware images named by `hex_map.csv` are flashed with esptool. The
   chip can be erased first.
3. The operator inspects the board in a countdown dialog.
4. A label with the record's setup payload goes to a serial printer.
5. The cycle restarts. The processed model and id are remembered for the
   automatic choice of the next model button and row.

The record file is saved after every change of a field.

This project models that core and proves what each step does to the records,
the event log, the printer output and the window.

- `wrappers.dfy`: `Option` and `Result`.
- `text.dfy` (`Text`): the Python string operations the program relies on.
  These are `in`, `str.replace`, `split(' ')`, `' '.join`, `int()` and
  `str()` of integers. The module also covers the `.....` escaping of spaces
  in image paths.
- `table.dfy` (`RecordTable`): the record table.
  - A cell is NaN, an integer or a string. Python's `==` never holds on NaN.
  - Loading with `fill_nans` and the removal of `*` summary markers.
  - Saving, where `-1` is written as an empty cell, and reading the file back.
  - The per-model eligibility lists.
  - The one-field update `update_model` performs.
- `summary.dfy` (`Summary`):
  - the colour rule of summary rows;
  - the automatic choice of model button and row;
  - the flash/print button rule.
- `command.dfy` (`FlashCommand`): the flash command built from the hex map,
  and the argument vector built from a command.
- `espwrapper.dfy` (`EspWrapper`): `run_command` of `espwrapper.py`.
  - `sys.argv` is swapped and then restored.
  - Exception arguments collapse into one message.
  - The caller turns the outcome into a `{'success', 'data'}` result.
- `inspect.dfy` (`Inspect`): the inspection dialog as a class.
  - A countdown is decremented once per timer tick.
  - Both verdict buttons are enabled on the tick where the count reaches 0.
  - `reportResult` records the verdict.
- `cycle.dfy` (`Cycle`): the main window as a class, `Controller`.
  - Its state is a `Screen`. It holds:
    - the file name and the in-memory frame;
    - the files on disk and the event log;
    - the processed record, with the model and id remembered for the next
      selection;
    - the enabled widgets;
    - the lines sent to the printer port.
  - Each handler of the window is a method. Its `ensures` ties the new state
    to a transition function of the old state: `LogSpec`, `UpdateSpec`,
    `RestartSpec`, `CoreSpec`, `BurnResultSpec`, `InspectSpec`, `PrintSpec`,
    `SelectSpec`, `ReadSpec` and the others.
- `cycle_facts.dfy` (`CycleFacts`): what those transitions promise.
  - Which fields of which records each outcome writes. Every other field of
    every record is kept.
  - What reaches the log and the printer.
  - How erase and burn success are decided.
  - Where the cycle stands afterwards.
  - That the file on disk holds the frame after every transition that
    writes it. A load that fails breaks this (see below).

The tool's effects are passed in as parameters:

- the esptool run: a function from the argument vector to the text it streams
  and how `main` ends;
- the operator's inspection verdict;
- the printer's fault, if any;
- the contents of the files on disk.

The model keeps several behaviours of the source as written, and lemmas
state them:

- Both log checks search the whole accumulated log, so text left by an
  earlier cycle counts (`CycleFacts.StaleResetMarker`).
- A failed erase is reported through `burn_result`, so it marks the record
  as failed (`CycleFacts.EraseFailureMarks`).
- The failure path writes the string `'-1'`. On reload it reads back as the
  integer -1 (`CycleFacts.StartOverReloads`).
- The remembered model name is looked up in a list of ids. While it equals
  no eligible id (names are text, ids integers, say), it does not steer the
  choice of model button (`Summary.PreselectedModelIgnored`). An all-digit
  model name that equals an eligible id does steer it.
- The line 109 filter never matches, so shared image names are filled too.
- Escaping is not reversible for every path. A dot just before a space
  comes back moved (`Text.EscapeRoundTripDotBeforeSpace`).
- Selection reads the summary cell at the frame position of `id`, which is
  the id cell only when `id` is the first column of the record file
  (`CycleFacts.SelectReadsStatusMark`).
- A summary table that cannot be drawn stops a successful burn before the
  inspection (`CycleFacts.BurnSuccess`).
- A file that fails to load still becomes the shown file name, while the old
  frame stays. The next record update saves the old frame over that file
  (`CycleFacts.FailedLoadOverwrites`).

## Model

| member | source | states |
|---|---|---|
| Text.ReplaceAbsent | src/main/python/frmMain.py:117-118 | replacing a pattern that does not occur leaves the text unchanged, so unmarked column names keep their name |
| Text.EscapeNoSpace | src/main/python/frmMain.py:331 | an escaped image path contains no space, so it stays one token when the command is split |
| Text.EscapeRoundTrip | src/main/python/frmMain.py:331 | unescaping (line 288) restores an escaped path when the path holds no `.....` and no dot directly before a space |
| Text.RoundTripSafeAfter | src/main/python/frmMain.py:331 | after a run of fewer than five dots, a text the round trip gives back holds no `.....` and no dot before a space |
| Text.EscapeRoundTripExact | src/main/python/frmMain.py:331 | unescaping (line 288) restores an escaped path exactly when the path holds no `.....` and no dot directly before a space |
| Text.EscapeRoundTripDotBeforeSpace | src/main/python/frmMain.py:331 | counterexample: `a. b` contains no `.....` but comes back as `a .b` |
| Text.UnescapeNoDot | src/main/python/frmMain.py:288 | a token without dots is unchanged by the unescape |
| Text.SplitJoin | src/main/python/frmMain.py:334 | splitting on single spaces undoes joining tokens that contain no space |
| Text.SplitJoinPrefix | src/main/python/frmMain.py:335 | splitting a joined prefix followed by more text yields the prefix tokens, then the split of the rest |
| Text.ParseIntToString | src/main/python/frmMain.py:273 | `int()` of the text of an integer id gives back that id |
| Text.IntToStringMinusOne | src/main/python/frmMain.py:435-436 | the text of an integer is `-1` exactly for -1, so saving blanks no other integer |
| RecordTable.ColumnIndex | src/main/python/frmMain.py:269 | the position found holds the name and no earlier column does; none is found exactly when the name is absent |
| RecordTable.FillSpec | src/main/python/frmMain.py:100-107 | filling keeps the column names and the number of records, and every record stays as wide as the header |
| RecordTable.FillNans | src/main/python/frmMain.py:100-107 | the loop that collects the plain and `*`-marked target columns, then fills and converts them, yields `FillSpec` |
| RecordTable.FillSpecAt | src/main/python/frmMain.py:100-107 | a cell of a target column is its NaN-filled, type-converted value; every other cell is unchanged |
| RecordTable.FillSpecSucceeds | src/main/python/frmMain.py:107 | filling fails only when a target cell cannot be converted |
| RecordTable.StatusNames | src/main/python/frmMain.py:103-104 | a column is a target of `['burned']` or of the status columns iff it is that name plain or with `*`, and `burned` is not a status column |
| RecordTable.SwNames | src/main/python/frmMain.py:109 | the image columns are the `sw` entries of every hex-map row in order, the shared images included |
| RecordTable.LoadSpec | src/main/python/frmMain.py:99-122 | a load keeps the original names, strips `*` from the in-memory names, keeps the record count, and locates the id, model, burned and status columns |
| RecordTable.LoadDefaults | src/main/python/frmMain.py:109-112 | after a load, a blank status cell is -1, a blank `burned` cell is 0 and a blank image-path cell is `''`, for plain and marked names alike |
| RecordTable.StripAll | src/main/python/frmMain.py:116-120 | each in-memory column name is its original name with `*` removed |
| RecordTable.StripMarkerSpec | src/main/python/frmMain.py:118 | a stripped name contains no `*`, and a name without `*` is unchanged |
| RecordTable.StripMarkerTrailing | src/main/python/frmMain.py:103 | the marked variant `col*` strips back to the name of `col` |
| RecordTable.SummaryColumnsMarked | src/main/python/frmMain.py:127-128 | a name is a summary column iff it is the stripped name of a marked original column |
| RecordTable.Persist | src/main/python/frmMain.py:431-439 | the saved file has the original (marked) names as header, one line per record and one field per cell |
| RecordTable.ReadCsv | src/main/python/frmMain.py:99 | the read frame has the file's header and one record per line |
| RecordTable.StatusRoundTrip | src/main/python/frmMain.py:435-436 | an integer status, or the text `'-1'`, saved and reloaded with the -1 default comes back as the same integer (the text as -1) |
| RecordTable.BurnedRoundTrip | src/main/python/frmMain.py:435-436 | a burn count saved and reloaded with the 0 default comes back unchanged, except that -1 comes back as 0 |
| RecordTable.ReloadImagePaths | src/main/python/frmMain.py:110 | reloading fills the image columns of a saved frame without failing, and every other cell reads back as it was saved |
| RecordTable.ReloadBurned | src/main/python/frmMain.py:111 | the `burned` fill of a reloaded frame succeeds and restores the saved burn counts |
| RecordTable.ReloadStatus | src/main/python/frmMain.py:112 | the status fill of a reloaded frame succeeds and restores each status, with the text `'-1'` becoming -1 |
| RecordTable.ReloadRestores | src/main/python/frmMain.py:431-439 | saving and reloading a frame gives the same original and in-memory column names, the same record count, and the same burned and status cells, with `'-1'` read as -1 |
| RecordTable.AvailableSublist | src/main/python/frmMain.py:195-213 | the eligible ids are an order-preserving sub-list of the model's ids, so the button's done count lies between 0 and the total |
| RecordTable.AvailableMembers | src/main/python/frmMain.py:195-202 | an id is eligible for a model iff some record of that model that is not both passed and printed has that id |
| RecordTable.SetWhere | src/main/python/frmMain.py:405-406 | the field is set in exactly the records whose id equals the given id; every other field of every record is unchanged |
| Summary.RowStyle | src/main/python/frmMain.py:149-158 | a row both passed and printed starts green on white, one with both 0 starts red on white, and one with -1 or differing statuses starts black on grey |
| Summary.Lookup | src/main/python/frmMain.py:149-150 | a field is found iff the column exists, and the value found is that column's value |
| Summary.RenderFrom | src/main/python/frmMain.py:161-181 | a summary row has one cell per summary column |
| Summary.Render | src/main/python/frmMain.py:161-181 | the cell loop, where each status column restyles itself and every cell after it, yields `RenderFrom` |
| Summary.RenderRow | src/main/python/frmMain.py:145-181 | a row is drawn iff both status columns exist and their shared text is -1, 0 or 1 (or they differ); when drawn, its cells follow the row's starting style |
| Summary.RenderPrefixStyle | src/main/python/frmMain.py:161-175 | every cell before the first status column has the row's starting style |
| Summary.RenderAgreeing | src/main/python/frmMain.py:155-170 | when both statuses are the same 0 or 1, every cell of the row has that status's colour |
| Summary.LoadSummary | src/main/python/frmMain.py:130-157 | the record loop gets through iff no column is marked, or both statuses are marked and every record's shared status text has a colour |
| Summary.SummaryDrawsWhen | src/main/python/frmMain.py:130-157 | with both statuses marked and all statuses -1, 0 or 1 the table is drawn; with some column marked but a status unmarked, a table holding a record makes it raise |
| Summary.Effective | src/main/python/frmMain.py:257-258 | a remembered id counts only if it is among the eligible ids |
| Summary.FirstWanted | src/main/python/frmMain.py:257-263 | the chosen row is a row of the table (what it satisfies is `FirstWantedSpec`) |
| Summary.SelectRow | src/main/python/frmMain.py:235-263 | the row loop selects exactly `FirstWanted` |
| Summary.FirstWantedSpec | src/main/python/frmMain.py:257-263 | the selected row belongs to the model and is eligible; it is the remembered id when that id is eligible; no earlier row qualifies; with no selection, no row qualifies |
| Summary.SelectsUnfinished | src/main/python/frmMain.py:257-263 | with one finished and one open record of a model, only the open one is eligible and it is the one selected |
| Summary.FirstClicked | src/main/python/frmMain.py:210-220 | the clicked button is the first whose model passes the test of lines 216-219; none is clicked iff no model passes it |
| Summary.ClickModelButton | src/main/python/frmMain.py:204-227 | the button loop clicks exactly `FirstClicked` |
| Summary.PreselectedModelIgnored | src/main/python/frmMain.py:216-219 | a remembered model name that is not an eligible id changes nothing; the first model with an eligible record is clicked, or none if there is none |
| Summary.ButtonsAfterSelect | src/main/python/frmMain.py:188-193 | a record not passed enables flash and disables print; a passed, unprinted one does the reverse; a finished one leaves both buttons as they were |
| FlashCommand.JoinPathEnds | src/main/python/frmMain.py:330 | joining with an absolute part yields that part; otherwise the result ends with the second part |
| FlashCommand.FileFor | src/main/python/frmMain.py:322-328 | a shared image names itself; any other entry takes the record's text in the first column of that name, is a `TypeError` when that value is not text, and a `KeyError` when the record lacks the column |
| FlashCommand.FlashPairs | src/main/python/frmMain.py:320-333 | a built image list has at most one pair per hex-map row |
| FlashCommand.Pieces | src/main/python/frmMain.py:332 | there is one command piece per image pair |
| FlashCommand.Flatten | src/main/python/frmMain.py:332-334 | the tokens are the address and the path of each pair, pair by pair |
| FlashCommand.BuildCommand | src/main/python/frmMain.py:320-335 | the loop succeeds iff `FlashPairs` does, then yields the command line of those pairs; otherwise it yields the same error |
| FlashCommand.FlashPairsPrefixFails | src/main/python/frmMain.py:320-333 | once a prefix of the hex map fails, the whole build fails with that error |
| FlashCommand.FlashPairsSucceeds | src/main/python/frmMain.py:320-333 | the build succeeds iff every hex-map row resolves to a file |
| FlashCommand.FlashPairsImages | src/main/python/frmMain.py:320-333 | a successful build resolved every hex-map row and yields one (address, path under `sw`) pair per row with a non-empty file, in hex-map order |
| FlashCommand.UnescapeAll | src/main/python/frmMain.py:287-288 | every token is unescaped, one output per input token |
| FlashCommand.BuildArgv | src/main/python/frmMain.py:283-288 | the argument vector is the esptool path, baud, port and the unescaped tokens of the command |
| FlashCommand.JoinPieces | src/main/python/frmMain.py:332-334 | joining the `hex path` pieces equals joining all addresses and escaped paths as separate tokens |
| FlashCommand.EscapedTokensNoSpace | src/main/python/frmMain.py:331 | with plain addresses, no escaped token contains a space |
| FlashCommand.UnescapeEscapedTokens | src/main/python/frmMain.py:287-288 | unescaping the escaped tokens gives back the addresses and the original paths |
| FlashCommand.FlagTokensPlain | src/main/python/frmMain.py:335 | the fixed flash flags contain neither spaces nor dots |
| FlashCommand.PlainHead | src/main/python/frmMain.py:287-288 | space-free, dot-free leading tokens pass through the split and unescape unchanged |
| FlashCommand.ImagesArgv | src/main/python/frmMain.py:287-288 | the image part of the command splits back into address, path, address, path, ...; with no images it leaves one empty token |
| FlashCommand.FlagsArgv | src/main/python/frmMain.py:335 | the command's tokens are the fixed flash flags followed by the image tokens |
| FlashCommand.FlashArgv | src/main/python/frmMain.py:286-288 | the flash tokens are the flags, then each image's address and its original path in hex-map order (one empty token when there are none) |
| EspWrapper.ErrorText | src/main/python/espwrapper.py:14-22 | a two-element args tuple gives its second element; any other non-empty tuple gives its first; non-tuple args give their text; an empty tuple gives the `IndexError` text |
| EspWrapper.Outcome | src/main/python/frmMain.py:290-294 | a normal return is `{'success': True}`; an exit of the interpreter gives no result; a raise gives a failure |
| EspWrapper.MessageCarried | src/main/python/espwrapper.py:14-22 | a one-message error reaches the log as that message, and an `(errno, text)` pair as the text |
| EspWrapper.FailureHasMessage | src/main/python/frmMain.py:290-294 | short of an interpreter exit, the run succeeds iff the tool returned, and a message comes back iff it failed |
| EspWrapper.RunCommand | src/main/python/espwrapper.py:3-24 | `sys.argv` is restored whatever the tool does; a load failure is reported as such; otherwise the result and streamed text are those of running the tool on the given argv |
| Inspect.TimeoutFromConfig | src/main/python/frmInspect.py:9 | a missing key gives 15, an integer is used as is, text gives the integer `int()` parses from it or an error carrying that text, and NaN is an error |
| Inspect.CountdownState | src/main/python/frmInspect.py:27-37 | after opening with count `t` and `k` further ticks, the count is `t-1-k`, the caption shows `t-k`, the buttons are enabled iff `0 <= t <= k`, and a timer is pending iff `t-k != 0` |
| Inspect.CountdownFrom | src/main/python/frmInspect.py:27-37 | further ticks continue the same countdown |
| Inspect.ButtonsEnabledAfterTimeout | src/main/python/frmInspect.py:30-35 | from `t >= 0` the buttons stay disabled with a timer pending before tick `t`, and are enabled with no timer at tick `t`; from a negative start they are never enabled |
| Inspect.InspectDialog.constructor | src/main/python/frmInspect.py:6-25 | the dialog opens with verdict false and both buttons disabled, then performs its first tick |
| Inspect.InspectDialog.Countdown | src/main/python/frmInspect.py:27-37 | one tick shows the count, enables both buttons iff it is 0, re-arms otherwise, and decrements the count by one |
| Inspect.InspectDialog.ReportResult | src/main/python/frmInspect.py:39-41 | the verdict is recorded and the dialog closes |
| Inspect.DialogVerdictNeedsButton | src/main/python/frmInspect.py:15-18 | the dialog returns `True` exactly when the operator chose Good and the Good button is enabled once the countdown has run out |
| Inspect.RunDialog | src/main/python/frmInspect.py:6-41 | from `t >= 0`, the timer fires exactly `t` more times after the first tick (t+1 ticks in all); the verdict is clicked with both buttons enabled, the caption at 0 and no timer pending, and the closed dialog returns it |
| Cycle.LogSpec | src/main/python/frmMain.py:457-461 | the log grows by the data and a newline if asked; nothing else changes |
| Cycle.PersistSpec | src/main/python/frmMain.py:431-439 | after saving, the file on disk holds the frame; only the disk changes |
| Cycle.UpdateSpec | src/main/python/frmMain.py:405-407 | only the records and the disk change, and the file holds the updated frame |
| Cycle.RestartSpec | src/main/python/frmMain.py:441-455 | the restart keeps the log and a saved file; `RestartAfter` states the result |
| Cycle.RunSpec | src/main/python/frmMain.py:282-294 | running the tool only appends to the log; `BurnWithoutErase` states the log and the result of one run |
| Cycle.CoreSpec | src/main/python/frmMain.py:296-314 | erasing and burning only append to the log; `EraseGate`, `BurnWithoutErase` and `LoadFailure` state the erase gate and the result |
| Cycle.PrintSpec | src/main/python/frmMain.py:409-429 | printing keeps the window consistent and the file saved; `PrintOutcome` and `PrintLog` state what it writes |
| Cycle.LabelSpec | src/main/python/frmMain.py:416-426 | announcing, writing and recording the label keeps the selection, the layout and the columns, and leaves the window consistent and the file saved; `PrintLog` states the lines sent and logged |
| Cycle.InspectSpec | src/main/python/frmMain.py:388-403 | recording the verdict keeps the window consistent and the file saved; `InspectRows` states the fields each verdict writes |
| Cycle.BurnLogSpec | src/main/python/frmMain.py:356-367 | the burn report only appends to the log and enables the window; `BurnLog` states the lines |
| Cycle.CountBurnSpec | src/main/python/frmMain.py:370 | raising the burn count keeps the selection, the layout and the log, and leaves the file saved |
| Cycle.BurnPassedSpec | src/main/python/frmMain.py:369-386 | the success branch, which stops after the new count when the summary table cannot be drawn or `reboot_timeout` is not an integer, keeps the window consistent and the file saved; `BurnSuccess` states the fields |
| Cycle.BurnFailedSpec | src/main/python/frmMain.py:376-379 | the failure branch leaves the file saved; `BurnFailedOutcome` states the fields |
| Cycle.BurnResultSpec | src/main/python/frmMain.py:351-379 | handling a result keeps the window consistent and the file saved; `BurnSuccess` and `BurnFailure` state both branches |
| Cycle.ExecuteBurnSpec | src/main/python/frmMain.py:316-349 | a whole burn keeps the window consistent and the file saved; `BurnRun`, `ToolExitFreezes` and `EraseFailureMarks` state the steps |
| Cycle.BurnCommandSpec | src/main/python/frmMain.py:334-349 | running a built command and handling its result keeps the window consistent, and a saved file stays saved; `BurnRun` states the steps |
| Cycle.BurnSpec | src/main/python/frmMain.py:276-280 | the flash button's handler keeps the window consistent and the file saved; `ToolExitFreezes` states the tool-exit case |
| Cycle.FirstWithId | src/main/python/frmMain.py:273 | the record found is the first whose id equals the given one; none is found iff no record has it |
| Cycle.SelectedText | src/main/python/frmMain.py:269-272 | the text read is the current row's cell at the frame position of `id`, and there is none when no row is current or the row is too short |
| Cycle.SelectSpec | src/main/python/frmMain.py:184-193 | a selection never touches the log or the file; `SelectById`, `SelectShownRow` and `SelectKeeps` state the selection |
| Cycle.ButtonsSpec | src/main/python/frmMain.py:186-193 | choosing the enabled buttons keeps the selection, the log and a saved file; `ButtonsAfterSelect` states the rule |
| Cycle.ReadSpec | src/main/python/frmMain.py:92-125 | loading keeps the window consistent; `ReadLoaded`, `ReadReloadable` and `StartOverReloads` state what is loaded, `FailedLoadOverwrites` what a failed load leaves |
| Cycle.InstallSpec | src/main/python/frmMain.py:114-125 | a loaded frame is saved at once; `InstallFields` states the installed frame, the save and the restart |
| Cycle.StartOverSpec | src/main/python/frmMain.py:80-84 | reloading keeps the window consistent; `StartOverReloads` states what is restored |
| Cycle.Controller.constructor | src/main/python/frmMain.py:29-34 | the window starts with no frame, no selection, nothing remembered and an empty log |
| Cycle.Controller.LogEvent | src/main/python/frmMain.py:457-461 | the new state is `LogSpec` of the old |
| Cycle.Controller.PersistDataCsv | src/main/python/frmMain.py:431-439 | the new state is `PersistSpec` of the old |
| Cycle.Controller.UpdateModel | src/main/python/frmMain.py:405-407 | the new state is `UpdateSpec` of the old |
| Cycle.Controller.RestartCycle | src/main/python/frmMain.py:441-455 | the new state is `RestartSpec` of the old |
| Cycle.Controller.RunBurner | src/main/python/frmMain.py:282-294 | the new state and result are `RunSpec`'s, and `sys.argv` is restored |
| Cycle.Controller.ExecuteBurnCore | src/main/python/frmMain.py:296-314 | the new state and result are `CoreSpec`'s, and `sys.argv` is restored |
| Cycle.Controller.SendToPrinter | src/main/python/frmMain.py:409-429 | the new state is `PrintSpec` of the old |
| Cycle.Controller.PrintLabel | src/main/python/frmMain.py:416-426 | the label reports success iff the port opens, writes and closes without fault; the new state is `LabelSpec` of the old |
| Cycle.Controller.InspectResult | src/main/python/frmMain.py:388-403 | the new state is `InspectSpec` of the old |
| Cycle.Controller.EnablePrint | src/main/python/frmMain.py:400 | only the print button changes, and a consistent window stays consistent |
| Cycle.Controller.BurnResult | src/main/python/frmMain.py:351-379 | the new state is `BurnResultSpec` of the old |
| Cycle.Controller.LogBurnResult | src/main/python/frmMain.py:356-367 | the new state is `BurnLogSpec` of the old |
| Cycle.Controller.GetInspectResult | src/main/python/frmMain.py:381-386 | no verdict iff `int()` rejects `reboot_timeout`, which leaves the window disabled; otherwise the verdict is `DialogVerdict` of the operator's choice and the window is enabled again; nothing else changes |
| Cycle.Controller.BurnPassed | src/main/python/frmMain.py:369-375 | the new state is `BurnPassedSpec` of the old, with `LoadSummary` and `GetInspectResult` deciding where it stops |
| Cycle.Controller.ExecuteBurn | src/main/python/frmMain.py:316-349 | the new state is `ExecuteBurnSpec` of the old, and `sys.argv` is restored |
| Cycle.Controller.BurnCommand | src/main/python/frmMain.py:334-349 | the new state is `BurnCommandSpec` of the old, and `sys.argv` is restored |
| Cycle.Controller.Burn | src/main/python/frmMain.py:276-280 | the new state is `BurnSpec` of the old, and `sys.argv` is restored |
| Cycle.Controller.ItemSelected | src/main/python/frmMain.py:184-193 | the new state is `SelectSpec` of the old |
| Cycle.Controller.RefreshButtons | src/main/python/frmMain.py:186-193 | the new state is `ButtonsSpec` of the old |
| Cycle.Controller.ReadDataCsv | src/main/python/frmMain.py:92-125 | the new state is `ReadSpec` of the old |
| Cycle.Controller.Install | src/main/python/frmMain.py:114-125 | the new state is `InstallSpec` of the old |
| Cycle.Controller.StartOver | src/main/python/frmMain.py:80-84 | the new state is `StartOverSpec` of the old |
| CycleFacts.UpdateRows | src/main/python/frmMain.py:405-406 | `update_model` changes only field `prop` of the records whose id equals `id` |
| CycleFacts.PrintOutcome | src/main/python/frmMain.py:409-429 | without a `setup_payload` column nothing changes; otherwise `printed` becomes 1 iff open, write and close all succeed (else 0), print is disabled, the cycle restarts remembering model and id, and the file is saved |
| CycleFacts.PrintLog | src/main/python/frmMain.py:413-427 | the label line goes to the printer port iff open and write succeed, and the log gains the printing line and its verdict |
| CycleFacts.InspectFailed | src/main/python/frmMain.py:388-403 | a reject sets `passed_test` to 0 and `printed` to `'-1'`, logs FAILED, restarts and saves, and prints nothing |
| CycleFacts.InspectPassed | src/main/python/frmMain.py:395-400 | without autoprint, an accept sets `passed_test` to 1, logs PASSED, enables print and keeps the selection |
| CycleFacts.InspectPrints | src/main/python/frmMain.py:395-398 | with autoprint, an accept sets `passed_test` to 1 and `printed` to the print outcome, and the cycle restarts |
| CycleFacts.InspectPrintsLog | src/main/python/frmMain.py:392-398 | with autoprint, an accept logs PASSED and then the printing lines, and sends the label when open and write succeed |
| CycleFacts.InspectRows | src/main/python/frmMain.py:388-403 | the fields each verdict writes, and whether the cycle restarts or waits for the print button |
| CycleFacts.BurnLog | src/main/python/frmMain.py:356-365 | the log gains the tool's message, or the missing-reset message when the tool succeeded without the marker, then the separator and the verdict |
| CycleFacts.BurnFailedLog | src/main/python/frmMain.py:356-367 | after a failed burn the log gains the tool's message, or the missing-reset message when the tool succeeded, then the separator and FAILURE |
| CycleFacts.BurnFailedOutcome | src/main/python/frmMain.py:376-379 | a failed burn sets both statuses to the text `'-1'` and restarts |
| CycleFacts.BurnFailure | src/main/python/frmMain.py:351-379 | when the tool failed or the log lacks the reset marker, both statuses become `'-1'`, the cycle restarts without inspection, and the log ends with FAILURE |
| CycleFacts.BurnPassedSteps | src/main/python/frmMain.py:369-374 | a successful burn raises `burned` by exactly 1 without changing whether the summary can be drawn, then announces the inspection |
| CycleFacts.CountKeepsDrawn | src/main/python/frmMain.py:370-372 | raising the burn count does not change whether the summary table can be drawn |
| CycleFacts.BurnSuccess | src/main/python/frmMain.py:351-386 | when the tool succeeded and the log has the reset marker, `burned` goes up by 1; if the summary table can be drawn and `reboot_timeout` parses, the fields of the dialog's verdict follow; otherwise the handler stops with the selection kept and the burn report last in the log, the window disabled exactly in the timeout case |
| CycleFacts.BurnInspected | src/main/python/frmMain.py:369-386 | the inspected case of `BurnSuccess` |
| CycleFacts.BurnStopped | src/main/python/frmMain.py:369-386 | the stopped cases of `BurnSuccess` |
| CycleFacts.BurnRun | src/main/python/frmMain.py:316-349 | a burn logs the separator, runs the erase/flash core on the built command, and hands any result to `burn_result` |
| CycleFacts.EraseArgv | src/main/python/frmMain.py:297-300 | the erase runs esptool with path, baud, port and `erase_flash` |
| CycleFacts.FlashArgvInCycle | src/main/python/frmMain.py:320-335 | the flash runs esptool with path, baud, port, the flags and each image's address and path |
| CycleFacts.EraseGate | src/main/python/frmMain.py:296-310 | the flash runs only if the erase returned and the log shows the erase completed; otherwise the failure carries the tool's message or the default erase-failed text |
| CycleFacts.BurnWithoutErase | src/main/python/frmMain.py:311-314 | without erase, the log names the model and the result is the flash run's |
| CycleFacts.LoadFailure | src/main/python/frmMain.py:290-294 | when esptool cannot be loaded, the result is a failure with that message and no tool output is logged |
| CycleFacts.StaleResetMarker | src/main/python/frmMain.py:356-358 | a reset marker left from an earlier cycle makes any normal return count as a successful burn |
| CycleFacts.ToolExitFreezes | src/main/python/frmMain.py:276-280 | when the tool exits the interpreter, the window stays disabled and no record changes |
| CycleFacts.EraseFailureMarks | src/main/python/frmMain.py:304-310 | a failed erase marks both statuses `'-1'` and restarts the cycle |
| CycleFacts.SelectById | src/main/python/frmMain.py:268-274 | selecting a row whose cell at the frame position of `id` shows `n` processes the first record with id `n` and applies the button rule; records, file and log are unchanged |
| CycleFacts.SelectShownRow | src/main/python/frmMain.py:268-274 | when `id` is the first column, selecting the drawn summary row of a record processes the first record with its id |
| CycleFacts.SelectReadsStatusMark | src/main/python/frmMain.py:269-273 | when `id` is the second column, the cell read is a status mark that `int()` rejects, so the selection changes nothing |
| CycleFacts.StartOverReloads | src/main/python/frmMain.py:80-84 | reloading a saved frame restores its names, record count, burn counts and statuses (`'-1'` read as -1) and drops the selection; the remembered model and id become those of the record that was still selected, because `restart_cycle` overrides the reset |
| CycleFacts.FailedLoadOverwrites | src/main/python/frmMain.py:96-107 | a file that fails to load becomes the shown name with the old frame and selection kept, and the next record update saves the old frame into it |
| CycleFacts.ReadReloadable | src/main/python/frmMain.py:99-125 | a frame `read_data_csv` installs is saved and has the stripped names and the layout a reload needs |

## Left out

- Qt widgets are not modelled: layouts, stylesheets, header sizing, the alpha dimming of unavailable rows and message boxes. Only the enabled flags the cycle reads are kept.
- Threads, `threading.Timer` and the signal bridge are not modelled. The calls they deliver happen in order. The tool's streamed text is in the log before the result is handled.
- The esptool module is not modelled. A run is a function from the argument vector to streamed text and an outcome. A failure to load it is a message parameter.
- `serialport.py` is not modelled. A print is one of four outcomes: success, or failure at open, at write or at close.
- `populate_open_ports`, `load_config`, `populate_hex_map`, `autoload_models`, the file dialog and `main.py` are not modelled. The hex map, ports, check boxes and folder are a fixed `Setup`. The dialog's answer is a parameter.
- The contents of files on disk are a map from file name to header and lines. CSV quoting and byte-level encoding are not modelled.
- `model_clicked`'s row hiding, `load_summary`'s table widget and the model button captions are not modelled. Only the colour rule, whether `load_summary` raises, the selection rule and the done count are.
- `load_summary` also ends `restart_cycle`. A raise there comes after every change the handler makes, so the model does not track it.
- The timer that clicks the chosen model button after a restart is not modelled. `Summary` states the choice of button and row, but no lemma connects it to the model and id `RestartSpec` remembers.
- Text.ParseInt: accepts an optional minus sign followed by decimal digits. It rejects the surrounding whitespace, `+` and `_` that Python's `int()` accepts. RecordTable.ReadCell reads cells with it, so floats in the file are read as text.
- RecordTable.LoadSpec: a file lacking any of `id`, `model`, `burned`, `passed_test` or `printed` is rejected at load. The source loads it and raises `KeyError` at the first use. Short CSV lines are rejected where pandas pads them with NaN.
- Cycle.SelectSpec: an id text that `int()` rejects, or an id no record has, leaves the state unchanged. The source raises inside the handler.
- Summary.FirstWanted: `ids` are taken as given. `model_clicked` reads them with `int()` from the summary column at the frame position of `id` (lines 232 and 236), so they are the records' ids only when `id` is the first column of the record file. Otherwise the source raises or compares other numbers.
- Summary.SelectRow: the same `ids` as `Summary.FirstWanted`, taken as given.
- FlashCommand.JoinPath: POSIX `os.path.join`. On Windows `ntpath.join` uses `\` and treats drive letters differently. That platform is not modelled.
- RecordTable.ReadCell: infers a type per cell, where pandas infers one per column. An image-path column holding `5` and a blank is read by pandas as floats and used as `5.0`. The model keeps `5`.
- RecordTable.ColumnIndex: two headers that are equal once `*` is stripped (`a` and `a*`) give pandas a duplicate label, whose lookups return several columns. The model uses the first.
- Cycle.ExecuteBurnSpec: a record missing an image column, or holding a non-text file name, leaves the state unchanged. The source raises before logging anything.
- Cycle.BurnPassedSpec: a text burn count stops the success branch after the burn report. The source raises at `+ 1`.
- Inspect.TimeoutFromConfig: a float `reboot_timeout` such as `2.5` is not modelled. `int()` truncates it.
- Cycle.PrintSpec: a record without a `setup_payload` column leaves the state unchanged. The source raises `KeyError` before logging.
- Inspect.RunDialog: requires `t >= 0`, and models only a click on a verdict button. Qt closes a dialog on Esc through `reject()`, at any tick, with `result` still False. From a negative start Esc is the only way out (`ButtonsEnabledAfterTimeout`). In the cycle the operator's choice is a parameter, and `DialogVerdict` gives False for a negative count, so the value Esc returns is covered but the early close is not.
- FlashCommand.FlashArgv: stated only for paths without `.....` and without a dot before a space. For other paths the source's unescape changes the path (`Text.EscapeRoundTripDotBeforeSpace`).
- EspWrapper.RunCommand: `SystemExit` from the tool is an `Exited` outcome with no result. The handler never runs and the window stays disabled (`CycleFacts.ToolExitFreezes`).
