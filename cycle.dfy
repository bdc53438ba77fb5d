/** The production cycle of the main window (`frmMain.Ui`): load the record
    file, select a record, burn it, inspect the board, print its label, and
    start over, saving the record file after every change. The window's state
    is a `Screen`; each handler of the source is a method of `Controller`
    whose new state is a transition function of the old one, and the lemmas
    state what those transitions promise. */
module Cycle {
  import opened Wrappers
  import opened Text
  import opened RecordTable
  import opened Summary
  import opened FlashCommand
  import opened EspWrapper
  import Inspect

  // ---- fixed texts ----

  const Separator: string := "――――――――――――――――――"
  const ResetMarker: string := "Hard resetting via RTS pin"
  const EraseDone: string := "Chip erase completed successfully"
  const EraseFailed: string := "Chip erase failed..."
  const NoResetMessage: string := "Error: never received resetting via RTS pin signal..."

  function Verdict(ok: bool): string {
    if ok then "SUCCESS" else "FAILURE"
  }

  // ---- state ----

  /** `processing_model`: a copy of the selected record together with the
      column names it was taken under and the positions of its fields. */
  datatype Snapshot = Snapshot(columns: seq<string>, record: Record, layout: Layout)

  predicate SnapOk(p: Snapshot) {
    |p.record| == |p.columns| && LayoutFits(p.layout, p.columns)
  }

  /** What can go wrong at the printer: opening the port, writing the label,
      or closing the port. */
  datatype PrinterFault = NoFault | OpenFails | WriteFails | CloseFails

  /** The settings the cycle reads but never changes: the hex map, the
      installation folder, the two serial ports, the two check boxes, and
      the `reboot_timeout` entry of the configuration, if there is one. */
  datatype Setup = Setup(hexMap: seq<HexEntry>, basePath: string, burnerPort: string,
                         printerPort: string, erase: bool, autoprint: bool,
                         rebootTimeout: Option<Cell>)

  /** The window: the record file name, the in-memory frame (columns in
      memory, original names, rows, field positions), the files on disk, the
      event log, the selected record, the remembered model and id, the
      enabled widgets, and the lines sent to the printer port. */
  datatype Screen = Screen(
    csvName: string, loaded: bool, columns: seq<string>, orig: seq<string>, rows: seq<Record>,
    layout: Layout, disk: map<string, Csv>, log: string, processing: Option<Snapshot>,
    preselected: Option<(Cell, Cell)>, centralEnabled: bool, flashEnabled: bool,
    printEnabled: bool, printerOut: seq<(string, string)>)

  predicate Ok(s: Screen) {
    (s.loaded ==> Table(s.columns, s.rows).Rectangular() && LayoutFits(s.layout, s.columns)) &&
    (!s.loaded ==> s.rows == [] && s.processing.None?) &&
    (s.processing.Some? ==> SnapOk(s.processing.value))
  }

  /** The record file on disk holds the in-memory frame. */
  predicate Saved(s: Screen) {
    s.loaded ==> s.csvName in s.disk && s.disk[s.csvName] == Persist(Table(s.columns, s.rows), s.orig)
  }

  function Id(s: Screen): Cell
    requires Ok(s) && s.processing.Some?
  {
    s.processing.value.record[s.processing.value.layout.id]
  }

  // ---- transitions ----

  /** `log_event` (lines 457-461). */
  function LogSpec(s: Screen, data: string, newline: bool): (r: Screen)
    ensures r.log == s.log + data + (if newline then "\n" else "")
    ensures r == s.(log := r.log)
  {
    s.(log := s.log + data + (if newline then "\n" else ""))
  }

  /** `persist_data_csv` (lines 431-439). */
  function PersistSpec(s: Screen): (r: Screen)
    ensures s.loaded ==> Saved(r)
    ensures r == s.(disk := r.disk)
  {
    s.(disk := s.disk[s.csvName := Persist(Table(s.columns, s.rows), s.orig)])
  }

  /** `update_model` (lines 405-407): the field at `col` of every record
      whose id equals `id` becomes `value`, then the file is saved. */
  function UpdateSpec(s: Screen, id: Cell, col: nat, value: Cell): (r: Screen)
    requires Ok(s) && s.loaded && col < |s.columns|
    ensures Ok(r) && Saved(r) && r == s.(rows := r.rows, disk := r.disk)
  {
    PersistSpec(s.(rows := SetWhere(s.rows, s.layout.id, id, col, value)))
  }

  /** `restart_cycle` (lines 441-455): remember the model and id of the
      record just processed, drop the selection, disable flashing. */
  function RestartSpec(s: Screen): (r: Screen)
    requires Ok(s)
    ensures Ok(r) && (Saved(s) ==> Saved(r)) && r.log == s.log
  {
    s.(preselected := if s.processing.Some? then
         Some((s.processing.value.record[s.processing.value.layout.model], Id(s))) else None,
       processing := None, centralEnabled := true, flashEnabled := false)
  }

  /** The argument vector `run_command` builds for `command`. */
  function BurnerArgv(setup: Setup, command: string): seq<string> {
    ArgvHead(EspToolPath(setup.basePath), setup.burnerPort) + UnescapeAll(Split(command))
  }

  /** `run_command` (lines 282-294) with the tool's streamed output going to
      the log; no result when the tool exits the interpreter. */
  function RunSpec(setup: Setup, s: Screen, command: string, load: Option<string>,
                   tool: seq<string> -> ToolRun): (r: (Screen, Option<CommandResult>))
    ensures r.0 == s.(log := r.0.log)
  {
    var argv := BurnerArgv(setup, command);
    var out := if load.Some? then "" else tool(argv).output;
    (s.(log := s.log + out),
     if load.Some? then Some(CommandResult(false, load)) else Outcome(tool(argv).outcome))
  }

  /** `execute_burn_core` (lines 296-314): with erasing chosen, the flash
      command runs only after an erase the tool reports as completed. */
  function CoreSpec(setup: Setup, s: Screen, command: string, load: Option<string>,
                    tool: seq<string> -> ToolRun): (r: (Screen, Option<CommandResult>))
    requires Ok(s) && s.processing.Some?
    ensures r.0 == s.(log := r.0.log)
  {
    if setup.erase then
      var s1 := LogSpec(s, "Erasing chip...", true);
      var (s2, er) := RunSpec(setup, s1, "erase_flash", load, tool);
      if er.None? then (s2, None)
      else if er.value.success && Contains(s2.log, EraseDone) then RunSpec(setup, s2, command, load, tool)
      else (s2, Some(CommandResult(false, if er.value.data.Some? then er.value.data else Some(EraseFailed))))
    else
      RunSpec(setup, LogSpec(s, "Burning model " + CellText(Id(s)), true), command, load, tool)
  }

  /** `send_to_printer` (lines 409-429): the label line goes out when the
      port opens and takes the write; `printed` is 1 only when closing
      succeeds as well. */
  function PrintSpec(setup: Setup, s: Screen, fault: PrinterFault): (r: Screen)
    requires Ok(s)
    ensures Ok(r) && (Saved(s) ==> Saved(r))
  {
    if s.processing.None? then s
    else
      var p := s.processing.value;
      match ColumnIndex(p.columns, "setup_payload")
      case None => s
      case Some(j) =>
        var s3 := LabelSpec(setup, s, j, fault);
        var s4 := LogSpec(s3, "Printing model " + CellText(Id(s)) + " result: " + Verdict(fault == NoFault), true);
        RestartSpec(s4.(printEnabled := false))
  }

  /** Lines 416-426 of `send_to_printer`: the announcement, the label line
      `payload\r\n` when the port opens and takes the write, and the
      record's `printed` field, 1 only when closing succeeds as well. */
  function LabelSpec(setup: Setup, s: Screen, j: nat, fault: PrinterFault): (r: Screen)
    requires Ok(s) && s.processing.Some? && j < |s.processing.value.record|
    ensures Ok(r) && Saved(r) && r.processing == s.processing && r.layout == s.layout && r.columns == s.columns
  {
    var p := s.processing.value;
    var s1 := LogSpec(s, "Printing model " + CellText(Id(s)), true);
    var sent := fault == NoFault || fault == CloseFails;
    var s2 := if sent then s1.(printerOut := s1.printerOut + [(setup.printerPort, CellText(p.record[j]) + "\r\n")]) else s1;
    UpdateSpec(s2, Id(s), s.layout.printed, Int(if fault == NoFault then 1 else 0))
  }

  /** `inspect_result` (lines 388-403). */
  function InspectSpec(setup: Setup, s: Screen, valid: bool, fault: PrinterFault): (r: Screen)
    requires Ok(s)
    ensures Ok(r) && (Saved(s) ==> Saved(r))
  {
    if s.processing.None? then s
    else
      var s1 := UpdateSpec(s, Id(s), s.layout.passed, Int(if valid then 1 else 0));
      var s2 := LogSpec(s1, "Inspecting model " + CellText(Id(s)) + " result: " + (if valid then "PASSED" else "FAILED"), true);
      if valid then
        if setup.autoprint then PrintSpec(setup, s2, fault) else s2.(printEnabled := true)
      else RestartSpec(UpdateSpec(s2, Id(s), s.layout.printed, Str("-1")))
  }

  /** Whether a burn counts as successful: the tool returned and the reset
      message appears somewhere in the whole event log. */
  predicate BurnSucceeded(s: Screen, res: CommandResult) {
    res.success && Contains(s.log, ResetMarker)
  }

  /** The log lines `burn_result` writes (lines 357-369): the error message
      if any, a separator and the verdict; then the window is enabled. */
  function BurnLogSpec(s: Screen, res: CommandResult): (r: Screen)
    requires Ok(s) && s.processing.Some?
    ensures r == s.(log := r.log, centralEnabled := true)
  {
    var ok := BurnSucceeded(s, res);
    var data := if res.success && !ok && res.data.None? then Some(NoResetMessage) else res.data;
    var s1 := if data.Some? then LogSpec(s, data.value, true) else s;
    var s2 := LogSpec(LogSpec(s1, Separator, true), "Burning model " + CellText(Id(s)) + " result: " + Verdict(ok), true);
    s2.(centralEnabled := true)
  }

  /** The success branch of `burn_result` (lines 369-375): the burn count
      is raised, the summary table is redrawn, the inspection dialog runs
      with the window disabled (lines 381-386), a line announces the
      inspection, and the verdict is recorded. Adding one to a text count
      raises, and so does a summary table that cannot be drawn; either ends
      the handler there. A `reboot_timeout` that `int()` rejects raises
      while the dialog is built, which leaves the window disabled. `valid`
      is the operator's choice, which counts only as `DialogVerdict` says. */
  function BurnPassedSpec(setup: Setup, s: Screen, valid: bool, fault: PrinterFault): (r: Screen)
    requires Ok(s) && s.processing.Some?
    ensures Ok(r) && (Saved(s) ==> Saved(r))
  {
    var p := s.processing.value;
    if p.record[p.layout.burned].Str? then s
    else
      var s1 := CountBurnSpec(s);
      if !Drawn(s1) then s1
      else match Inspect.TimeoutFromConfig(setup.rebootTimeout)
        case Failure(_) => s1.(centralEnabled := false)
        case Success(t) =>
          var s2 := LogSpec(s1.(centralEnabled := true), "Inspecting model " + CellText(Id(s)), true);
          InspectSpec(setup, s2, Inspect.DialogVerdict(t, valid), fault)
  }

  /** Line 370: the burn count of the record becomes the selected copy's
      count plus one (NaN plus one stays NaN), and the file is saved. */
  function CountBurnSpec(s: Screen): (r: Screen)
    requires Ok(s) && s.processing.Some?
    requires !s.processing.value.record[s.processing.value.layout.burned].Str?
    ensures Ok(r) && Saved(r) && r.processing == s.processing && r.layout == s.layout && r.columns == s.columns
    ensures r.log == s.log && r.orig == s.orig
  {
    var p := s.processing.value;
    UpdateSpec(s, Id(s), s.layout.burned, PlusOne(p.record[p.layout.burned]))
  }

  lemma OkFits(s: Screen)
    requires Ok(s)
    ensures Fits(s.rows, s.layout)
  {
  }

  /** Whether `load_summary` (line 372) draws the summary table of the
      frame, whose marked columns are read off the original names. */
  predicate Drawn(s: Screen)
    requires Ok(s)
  {
    OkFits(s);
    SummaryDraws(SummaryColumns(s.orig), s.rows, s.layout)
  }

  /** `model['burned'] + 1` on a number: NaN stays NaN. */
  function PlusOne(c: Cell): Cell
    requires !c.Str?
  {
    if c.Int? then Int(c.i + 1) else Blank
  }

  /** The failure branch of `burn_result` (lines 377-379): both statuses of
      the record become the text '-1' and the cycle restarts. */
  function BurnFailedSpec(s: Screen): (r: Screen)
    requires Ok(s) && s.processing.Some?
    ensures Ok(r) && Saved(r)
  {
    RestartSpec(UpdateSpec(UpdateSpec(s, Id(s), s.layout.passed, Str("-1")), Id(s), s.layout.printed, Str("-1")))
  }

  /** `burn_result` (lines 351-379); `valid` is the verdict the operator
      gives in the inspection dialog. */
  function BurnResultSpec(setup: Setup, s: Screen, res: CommandResult, valid: bool, fault: PrinterFault): (r: Screen)
    requires Ok(s)
    ensures Ok(r) && (Saved(s) ==> Saved(r))
  {
    if s.processing.None? then s
    else if BurnSucceeded(s, res) then BurnPassedSpec(setup, BurnLogSpec(s, res), valid, fault)
    else BurnFailedSpec(BurnLogSpec(s, res))
  }

  /** `execute_burn` from the separator on (lines 334-349), then the
      result handler when the run came back. */
  function BurnCommandSpec(setup: Setup, s: Screen, command: string, load: Option<string>,
                           tool: seq<string> -> ToolRun, valid: bool, fault: PrinterFault): (r: Screen)
    requires Ok(s) && s.processing.Some?
    ensures Ok(r) && (Saved(s) ==> Saved(r))
  {
    var c := CoreSpec(setup, LogSpec(s, Separator, true), command, load, tool);
    if c.1.None? then c.0 else BurnResultSpec(setup, c.0, c.1.value, valid, fault)
  }

  /** `execute_burn` (lines 316-349) followed by the result handler; a
      record without a value for one of the hex map's images raises before
      anything is logged. */
  function ExecuteBurnSpec(setup: Setup, s: Screen, load: Option<string>, tool: seq<string> -> ToolRun,
                           valid: bool, fault: PrinterFault): (r: Screen)
    requires Ok(s)
    ensures Ok(r) && (Saved(s) ==> Saved(r))
  {
    if s.processing.None? then s
    else
      var p := s.processing.value;
      match FlashPairs(setup.hexMap, p.columns, p.record, setup.basePath)
      case Failure(_) => s
      case Success(ps) =>
        BurnCommandSpec(setup, s, CommandLine(ps), load, tool, valid, fault)
  }

  /** `burn` (lines 276-280): the window is disabled until the result
      handler enables it again. */
  function BurnSpec(setup: Setup, s: Screen, load: Option<string>, tool: seq<string> -> ToolRun,
                    valid: bool, fault: PrinterFault): (r: Screen)
    requires Ok(s)
    ensures Ok(r) && (Saved(s) ==> Saved(r))
  {
    if s.processing.None? then s
    else ExecuteBurnSpec(setup, s.(centralEnabled := false), load, tool, valid, fault)
  }

  /** The position of the first record whose id equals `id`. */
  function FirstWithId(rows: seq<Record>, idCol: nat, id: Cell): (r: Option<nat>)
    requires forall k :: 0 <= k < |rows| ==> idCol < |rows[k]|
    ensures r.Some? ==> r.value < |rows| && PyEq(rows[r.value][idCol], id)
    ensures r.Some? ==> forall k :: 0 <= k < r.value ==> !PyEq(rows[k][idCol], id)
    ensures r.None? ==> forall k :: 0 <= k < |rows| ==> !PyEq(rows[k][idCol], id)
  {
    if |rows| == 0 then None
    else if PyEq(rows[0][idCol], id) then Some(0)
    else match FirstWithId(rows[1..], idCol, id)
      case None => None
      case Some(k) => Some(k + 1)
  }

  /** The cell `get_selected_item` reads (lines 269-272): in the summary
      table's current row, if any, the cell in the column where `id` stands
      in the frame. The table shows `id` first, so this is the id cell only
      when `id` is the first column of the record file; no cell there reads
      as no selection. */
  function SelectedText(s: Screen, row: Option<seq<string>>): (r: Option<string>)
    ensures r.Some? <==> row.Some? && s.layout.id < |row.value|
    ensures r.Some? ==> r.value == row.value[s.layout.id]
  {
    if row.Some? && s.layout.id < |row.value| then Some(row.value[s.layout.id]) else None
  }

  /** `item_selected` with `get_selected_item` (lines 184-193, 268-274):
      `row` holds the texts of the summary table's current row, if a row is
      current. A text `int` rejects, or an id no record has, raises and
      changes nothing. */
  function SelectSpec(s: Screen, row: Option<seq<string>>): (r: Screen)
    requires Ok(s)
    ensures Ok(r) && (Saved(s) ==> Saved(r)) && r.log == s.log
  {
    var text := SelectedText(s, row);
    if text.Some? && (ParseInt(text.value).None? ||
                      FirstWithId(s.rows, s.layout.id, Int(ParseInt(text.value).value)).None?) then s
    else
      var s1 := if text.None? then s
        else s.(processing := Some(Snapshot(s.columns,
                  s.rows[FirstWithId(s.rows, s.layout.id, Int(ParseInt(text.value).value)).value], s.layout)));
      ButtonsSpec(s1)
  }

  /** The rest of `item_selected` (lines 186-193): the flash and print
      buttons follow the statuses of the selected record. */
  function ButtonsSpec(s: Screen): (r: Screen)
    requires Ok(s)
    ensures Ok(r) && (Saved(s) ==> Saved(r)) && r.log == s.log && r.processing == s.processing
  {
    if s.processing.None? then s
    else
      var p := s.processing.value;
      var (flash, printing) := ButtonsAfterSelect(p.record[p.layout.passed], p.record[p.layout.printed],
                                                  s.flashEnabled, s.printEnabled);
      s.(flashEnabled := flash, printEnabled := printing)
  }

  /** `read_data_csv` (lines 99-125): `filename` is the name asked for (empty
      when none is), `chosen` the file dialog's answer. A missing file, a
      malformed one, or a value `fill_nans` cannot convert raises after the
      file name is shown, and nothing else changes. */
  function ReadSpec(setup: Setup, s: Screen, filename: string, chosen: string): (r: Screen)
    requires Ok(s)
    ensures Ok(r)
  {
    var name := if filename != "" then filename else chosen;
    if name == "" then s
    else
      var s1 := s.(csvName := name);
      if name !in s.disk || !ReadCsv(s.disk[name]).Rectangular() then s1
      else match LoadSpec(ReadCsv(s.disk[name]), setup.hexMap)
        case Failure(_) => s1
        case Success(l) => InstallSpec(s1, l)
  }

  /** The end of `read_data_csv` (lines 114-125): the loaded frame replaces
      the old one, is saved at once, and the cycle restarts. */
  function InstallSpec(s: Screen, l: Loaded): (r: Screen)
    requires Ok(s) && l.table.Rectangular() && LayoutFits(l.layout, l.table.columns)
    ensures Ok(r) && Saved(r)
  {
    var s2 := PersistSpec(s.(loaded := true, columns := l.table.columns, orig := l.orig,
                             rows := l.table.rows, layout := l.layout));
    RestartSpec(LogSpec(s2, "Models loaded from CSV: " + s.csvName, true))
  }

  /** `start_over` (lines 80-84). */
  function StartOverSpec(setup: Setup, s: Screen): (r: Screen)
    requires Ok(s)
    ensures Ok(r)
  {
    var s1 := s.(preselected := None);
    if s.loaded then ReadSpec(setup, s1, s.csvName, "") else s1
  }

  // ---- the window ----

  class Controller {
    const setup: Setup
    const sys: Sys
    var csvName: string
    var loaded: bool
    var columns: seq<string>
    var orig: seq<string>
    var rows: seq<Record>
    var layout: Layout
    var disk: map<string, Csv>
    var log: string
    var processing: Option<Snapshot>
    var preselected: Option<(Cell, Cell)>
    var centralEnabled: bool
    var flashEnabled: bool
    var printEnabled: bool
    var printerOut: seq<(string, string)>

    function State(): Screen
      reads this
    {
      Screen(csvName, loaded, columns, orig, rows, layout, disk, log, processing, preselected,
             centralEnabled, flashEnabled, printEnabled, printerOut)
    }

    /** The window before any record file is loaded (lines 29-34). */
    constructor (setup0: Setup, sys0: Sys, files: map<string, Csv>)
      ensures setup == setup0 && sys == sys0
      ensures State() == Screen("", false, [], [], [], Layout(0, 0, 0, 0, 0), files, "", None, None,
                                true, false, false, [])
    {
      setup := setup0;
      sys := sys0;
      csvName := "";
      loaded := false;
      columns := [];
      orig := [];
      rows := [];
      layout := Layout(0, 0, 0, 0, 0);
      disk := files;
      log := "";
      processing := None;
      preselected := None;
      centralEnabled := true;
      flashEnabled := false;
      printEnabled := false;
      printerOut := [];
    }

    method LogEvent(data: string, newline: bool)
      modifies this
      ensures State() == LogSpec(old(State()), data, newline)
      ensures Ok(old(State())) ==> Ok(State())
    {
      log := log + data;
      if newline {
        log := log + "\n";
      }
    }

    method PersistDataCsv()
      modifies this
      ensures State() == PersistSpec(old(State()))
    {
      disk := disk[csvName := Persist(Table(columns, rows), orig)];
    }

    method UpdateModel(id: Cell, col: nat, value: Cell)
      requires Ok(State()) && loaded && col < |columns|
      modifies this
      ensures State() == UpdateSpec(old(State()), id, col, value)
    {
      rows := SetWhere(rows, layout.id, id, col, value);
      PersistDataCsv();
    }

    /** The loaded frame takes the place of the old one. */
    method Replace(l: Loaded)
      requires Ok(State()) && l.table.Rectangular() && LayoutFits(l.layout, l.table.columns)
      modifies this
      ensures State() == old(State()).(loaded := true, columns := l.table.columns, orig := l.orig,
                                       rows := l.table.rows, layout := l.layout)
      ensures Ok(State())
    {
      loaded, columns, orig, rows, layout := true, l.table.columns, l.orig, l.table.rows, l.layout;
    }

    /** The tool's message, when there is one, as a line of the log. */
    method LogNote(data: Option<string>)
      modifies this
      ensures State() == if data.Some? then LogSpec(old(State()), data.value, true) else old(State())
      ensures Ok(old(State())) ==> Ok(State())
    {
      if data.Some? {
        LogEvent(data.value, true);
      }
    }

    /** `btnPrint.setEnabled(on)`. */
    method EnablePrint(on: bool)
      modifies this
      ensures State() == old(State()).(printEnabled := on)
      ensures Ok(old(State())) ==> Ok(State())
    {
      printEnabled := on;
    }

    method RestartCycle()
      requires Ok(State())
      modifies this
      ensures State() == RestartSpec(old(State()))
    {
      if processing.Some? {
        var p := processing.value;
        preselected := Some((p.record[p.layout.model], p.record[p.layout.id]));
      } else {
        preselected := None;
      }
      processing := None;
      centralEnabled := true;
      flashEnabled := false;
    }

    method RunBurner(command: string, load: Option<string>, tool: seq<string> -> ToolRun)
      returns (r: Option<CommandResult>)
      modifies this, sys
      ensures (State(), r) == RunSpec(setup, old(State()), command, load, tool)
      ensures sys.argv == old(sys.argv)
    {
      var argv := BuildArgv(setup.basePath, setup.burnerPort, command);
      var output;
      r, output := RunCommand(sys, argv, load, tool);
      log := log + output;
    }

    method ExecuteBurnCore(command: string, load: Option<string>, tool: seq<string> -> ToolRun)
      returns (r: Option<CommandResult>)
      requires Ok(State()) && processing.Some?
      modifies this, sys
      ensures (State(), r) == CoreSpec(setup, old(State()), command, load, tool)
      ensures sys.argv == old(sys.argv)
    {
      if setup.erase {
        LogEvent("Erasing chip...", true);
        var er := RunBurner("erase_flash", load, tool);
        if er.None? {
          return None;
        }
        if er.value.success && Contains(log, EraseDone) {
          r := RunBurner(command, load, tool);
        } else {
          r := Some(CommandResult(false, if er.value.data.Some? then er.value.data else Some(EraseFailed)));
        }
      } else {
        var p := processing.value;
        LogEvent("Burning model " + CellText(p.record[p.layout.id]), true);
        r := RunBurner(command, load, tool);
      }
    }

    method SendToPrinter(fault: PrinterFault)
      requires Ok(State())
      modifies this
      ensures State() == PrintSpec(setup, old(State()), fault)
    {
      if processing.None? {
        return;
      }
      var p := processing.value;
      var j := ColumnIndex(p.columns, "setup_payload");
      if j.None? {
        return;
      }
      var id := p.record[p.layout.id];
      var success := PrintLabel(j.value, fault);
      LogEvent("Printing model " + CellText(id) + " result: " + Verdict(success), true);
      EnablePrint(false);
      RestartCycle();
    }

    /** The announcement, the label and the `printed` field of
        `send_to_printer`. */
    method PrintLabel(j: nat, fault: PrinterFault) returns (success: bool)
      requires Ok(State()) && processing.Some? && j < |processing.value.record|
      modifies this
      ensures success == (fault == NoFault)
      ensures State() == LabelSpec(setup, old(State()), j, fault)
    {
      var p := processing.value;
      var id := p.record[p.layout.id];
      LogEvent("Printing model " + CellText(id), true);
      success := false;
      if fault != OpenFails && fault != WriteFails {
        printerOut := printerOut + [(setup.printerPort, CellText(p.record[j]) + "\r\n")];
        success := fault != CloseFails;
      }
      UpdateModel(id, layout.printed, Int(if success then 1 else 0));
    }

    method InspectResult(valid: bool, fault: PrinterFault)
      requires Ok(State())
      modifies this
      ensures State() == InspectSpec(setup, old(State()), valid, fault)
    {
      if processing.None? {
        return;
      }
      var id := processing.value.record[processing.value.layout.id];
      UpdateModel(id, layout.passed, Int(if valid then 1 else 0));
      LogEvent("Inspecting model " + CellText(id) + " result: " + (if valid then "PASSED" else "FAILED"), true);
      if valid {
        if setup.autoprint {
          SendToPrinter(fault);
        } else {
          EnablePrint(true);
        }
      } else {
        UpdateModel(id, layout.printed, Str("-1"));
        RestartCycle();
      }
    }

    method BurnResult(res: CommandResult, valid: bool, fault: PrinterFault)
      requires Ok(State())
      modifies this
      ensures State() == BurnResultSpec(setup, old(State()), res, valid, fault)
    {
      if processing.None? {
        return;
      }
      var success := res.success && Contains(log, ResetMarker);
      LogBurnResult(res);
      if success {
        BurnPassed(valid, fault);
      } else {
        var id := processing.value.record[processing.value.layout.id];
        UpdateModel(id, layout.passed, Str("-1"));
        UpdateModel(id, layout.printed, Str("-1"));
        RestartCycle();
      }
    }

    method LogBurnResult(res: CommandResult)
      requires Ok(State()) && processing.Some?
      modifies this
      ensures State() == BurnLogSpec(old(State()), res)
    {
      var id := processing.value.record[processing.value.layout.id];
      var success := res.success;
      var data := res.data;
      if success {
        if !Contains(log, ResetMarker) {
          success := false;
          if data.None? {
            data := Some(NoResetMessage);
          }
        }
      }
      LogNote(data);
      LogEvent(Separator, true);
      LogEvent("Burning model " + CellText(id) + " result: " + Verdict(success), true);
      centralEnabled := true;
    }

    /** `get_inspect_result` (lines 381-386): the window is disabled while
        the dialog runs and enabled again after it. `None` where building the
        dialog raises, which leaves the window disabled; otherwise the
        verdict the dialog returns for the operator's choice `valid`. */
    method GetInspectResult(valid: bool) returns (verdict: Option<bool>)
      modifies this
      ensures verdict.None? <==> Inspect.TimeoutFromConfig(setup.rebootTimeout).Failure?
      ensures verdict.Some? ==>
        verdict.value == Inspect.DialogVerdict(Inspect.TimeoutFromConfig(setup.rebootTimeout).value, valid)
      ensures State() == old(State()).(centralEnabled := verdict.Some?)
    {
      centralEnabled := false;
      var timeout := Inspect.TimeoutFromConfig(setup.rebootTimeout);
      if timeout.Failure? {
        return None;
      }
      var result := false;
      if timeout.value >= 0 {
        var ticks, final;
        result, ticks, final := Inspect.RunDialog(timeout.value, valid);
      }
      centralEnabled := true;
      return Some(result);
    }

    method BurnPassed(valid: bool, fault: PrinterFault)
      requires Ok(State()) && processing.Some?
      modifies this
      ensures State() == BurnPassedSpec(setup, old(State()), valid, fault)
    {
      var p := processing.value;
      var id := p.record[p.layout.id];
      var burned := p.record[p.layout.burned];
      if burned.Str? {
        return;
      }
      ghost var s0 := State();
      var count := PlusOne(burned);
      UpdateModel(id, layout.burned, count);
      ghost var s1 := CountBurnSpec(s0);
      assert State() == s1;
      OkFits(s1);
      var drawn := LoadSummary(SummaryColumns(orig), rows, layout);
      if !drawn {
        return;
      }
      var verdict := GetInspectResult(valid);
      if verdict.None? {
        return;
      }
      LogEvent("Inspecting model " + CellText(id), true);
      ghost var s2 := LogSpec(s1.(centralEnabled := true), "Inspecting model " + CellText(Id(s0)), true);
      assert State() == s2 && Ok(s2);
      InspectResult(verdict.value, fault);
    }

    method ExecuteBurn(load: Option<string>, tool: seq<string> -> ToolRun, valid: bool, fault: PrinterFault)
      requires Ok(State())
      modifies this, sys
      ensures State() == ExecuteBurnSpec(setup, old(State()), load, tool, valid, fault)
      ensures sys.argv == old(sys.argv)
    {
      if processing.None? {
        return;
      }
      var p := processing.value;
      var command := BuildCommand(setup.hexMap, p.columns, p.record, setup.basePath);
      if command.Failure? {
        return;
      }
      BurnCommand(command.value, load, tool, valid, fault);
    }

    /** The separator, the burn proper, then the result handler when the
        run came back. */
    method BurnCommand(command: string, load: Option<string>, tool: seq<string> -> ToolRun, valid: bool,
                       fault: PrinterFault)
      requires Ok(State()) && processing.Some?
      modifies this, sys
      ensures State() == BurnCommandSpec(setup, old(State()), command, load, tool, valid, fault)
      ensures sys.argv == old(sys.argv)
    {
      LogEvent(Separator, true);
      var res := ExecuteBurnCore(command, load, tool);
      if res.Some? {
        BurnResult(res.value, valid, fault);
      }
    }

    method Burn(load: Option<string>, tool: seq<string> -> ToolRun, valid: bool, fault: PrinterFault)
      requires Ok(State())
      modifies this, sys
      ensures State() == BurnSpec(setup, old(State()), load, tool, valid, fault)
      ensures sys.argv == old(sys.argv)
    {
      if processing.None? {
        return;
      }
      centralEnabled := false;
      ExecuteBurn(load, tool, valid, fault);
    }

    method ItemSelected(row: Option<seq<string>>)
      requires Ok(State())
      modifies this
      ensures State() == SelectSpec(old(State()), row)
    {
      var text := None;
      if row.Some? && layout.id < |row.value| {
        text := Some(row.value[layout.id]);
      }
      if text.Some? {
        var n := ParseInt(text.value);
        if n.None? {
          return;
        }
        var k := FirstWithId(rows, layout.id, Int(n.value));
        if k.None? {
          return;
        }
        processing := Some(Snapshot(columns, rows[k.value], layout));
      }
      RefreshButtons();
    }

    /** Lines 186-193 of `item_selected`. */
    method RefreshButtons()
      requires Ok(State())
      modifies this
      ensures State() == ButtonsSpec(old(State()))
    {
      if processing.None? {
        return;
      }
      var p := processing.value;
      var buttons := ButtonsAfterSelect(p.record[p.layout.passed], p.record[p.layout.printed],
                                        flashEnabled, printEnabled);
      flashEnabled, printEnabled := buttons.0, buttons.1;
    }

    method ReadDataCsv(filename: string, chosen: string)
      requires Ok(State())
      modifies this
      ensures State() == ReadSpec(setup, old(State()), filename, chosen)
    {
      var name := if filename != "" then filename else chosen;
      if name == "" {
        return;
      }
      csvName := name;
      if name !in disk {
        return;
      }
      var raw := ReadCsv(disk[name]);
      if !raw.Rectangular() {
        return;
      }
      var loadedTable := LoadSpec(raw, setup.hexMap);
      if loadedTable.Failure? {
        return;
      }
      Install(loadedTable.value);
    }

    method Install(l: Loaded)
      requires Ok(State()) && l.table.Rectangular() && LayoutFits(l.layout, l.table.columns)
      modifies this
      ensures State() == InstallSpec(old(State()), l)
    {
      ghost var s0 := State();
      Replace(l);
      ghost var s1 := State();
      PersistDataCsv();
      ghost var s2 := PersistSpec(s1);
      assert State() == s2 && Ok(s2);
      LogEvent("Models loaded from CSV: " + csvName, true);
      assert State() == LogSpec(s2, "Models loaded from CSV: " + s0.csvName, true);
      RestartCycle();
    }

    method StartOver()
      requires Ok(State())
      modifies this
      ensures State() == StartOverSpec(setup, old(State()))
    {
      preselected := None;
      if loaded {
        ReadDataCsv(csvName, "");
      }
    }
  }
}
