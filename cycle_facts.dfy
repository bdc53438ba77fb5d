/** What the production cycle promises, stated over the transition
    functions of `Cycle`: which fields of the processed record each outcome
    writes, what reaches the event log and the printer, where the cycle
    stands afterwards, and how the record file holds all of it. */
module CycleFacts {
  import opened Wrappers
  import opened Text
  import opened RecordTable
  import opened Summary
  import opened FlashCommand
  import opened EspWrapper
  import opened Cycle
  import Inspect

  /** `after` is the record `before` with, when its id equals `id`, the
      field at each position `j` of `changes` set to `changes[j]`; every
      other field is kept. */
  predicate RecordChanged(before: Record, after: Record, idCol: nat, id: Cell, changes: map<nat, Cell>) {
    |after| == |before| &&
    (idCol < |before| ==> forall j :: 0 <= j < |before| ==>
      after[j] == if PyEq(before[idCol], id) && j in changes then changes[j] else before[j])
  }

  /** `after` is `before` with every record changed as `RecordChanged`
      says: the records whose id equals `id` take the changes, every other
      record is kept. */
  predicate RowsChanged(before: seq<Record>, after: seq<Record>, idCol: nat, id: Cell,
                        changes: map<nat, Cell>) {
    |after| == |before| &&
    forall k :: 0 <= k < |before| ==> RecordChanged(before[k], after[k], idCol, id, changes)
  }

  /** The change of one field of a record. */
  function Mark(col: nat, v: Cell): map<nat, Cell> {
    map[col := v]
  }

  /** The fields a failed burn sets: `passed_test` and `printed` both
      become the text '-1'. */
  function FailedMarks(l: Layout): map<nat, Cell> {
    Mark(l.passed, Str("-1")) + Mark(l.printed, Str("-1"))
  }

  lemma UpdateRows(s: Screen, id: Cell, col: nat, value: Cell)
    requires Ok(s) && s.loaded && col < |s.columns|
    ensures RowsChanged(s.rows, UpdateSpec(s, id, col, value).rows, s.layout.id, id, Mark(col, value))
  {
  }

  /** Two updates of a record in a row, the first leaving the id column
      alone, make the changes of both, the second winning where they
      overlap. */
  lemma ChainRecord(a: Record, b: Record, c: Record, idCol: nat, id: Cell,
                    m1: map<nat, Cell>, m2: map<nat, Cell>)
    requires RecordChanged(a, b, idCol, id, m1) && RecordChanged(b, c, idCol, id, m2)
    requires idCol !in m1
    ensures RecordChanged(a, c, idCol, id, m1 + m2)
  {
    if idCol < |a| {
      assert b[idCol] == a[idCol];
      forall j | 0 <= j < |a|
        ensures c[j] == if PyEq(a[idCol], id) && j in m1 + m2 then (m1 + m2)[j] else a[j]
      {
        assert b[j] == if PyEq(a[idCol], id) && j in m1 then m1[j] else a[j];
        assert c[j] == if PyEq(b[idCol], id) && j in m2 then m2[j] else b[j];
      }
    }
  }

  /** The same for every record of the table. */
  lemma ChainRows(a: seq<Record>, b: seq<Record>, c: seq<Record>, idCol: nat, id: Cell,
                  m1: map<nat, Cell>, m2: map<nat, Cell>)
    requires RowsChanged(a, b, idCol, id, m1) && RowsChanged(b, c, idCol, id, m2)
    requires idCol !in m1
    ensures RowsChanged(a, c, idCol, id, m1 + m2)
  {
    forall k | 0 <= k < |a| ensures RecordChanged(a[k], c[k], idCol, id, m1 + m2) {
      ChainRecord(a[k], b[k], c[k], idCol, id, m1, m2);
    }
  }

  /** One line of the event log. */
  function Entry(data: string): string {
    data + "\n"
  }

  lemma LogEntry(s: Screen, data: string)
    ensures LogSpec(s, data, true).log == s.log + Entry(data)
  {
    assert s.log + data + "\n" == s.log + (data + "\n");
  }

  /** The record selected for processing: its model and its id. */
  function Selected(s: Screen): (Cell, Cell)
    requires Ok(s) && s.processing.Some?
  {
    (s.processing.value.record[s.processing.value.layout.model], Id(s))
  }

  /** Where the cycle stands after it restarts: nothing selected, flashing
      disabled, the window enabled, and the finished record remembered for
      the next selection. */
  predicate Restarted(s: Screen, r: Screen)
    requires Ok(s) && s.processing.Some?
  {
    r.processing.None? && r.preselected == Some(Selected(s)) && !r.flashEnabled && r.centralEnabled
  }

  /** The state `send_to_printer` leaves when the record has a
      `setup_payload` field, step by step (lines 409-429). */
  lemma {:induction false} PrintSteps(setup: Setup, s: Screen, fault: PrinterFault, j: nat)
    returns (s2: Screen, s3: Screen)
    requires Ok(s) && s.processing.Some?
    requires ColumnIndex(s.processing.value.columns, "setup_payload") == Some(j)
    ensures Ok(s2) && s2.loaded && s.layout.printed < |s2.columns|
    ensures s2.rows == s.rows && s2.layout == s.layout && s2.processing == s.processing && s2.columns == s.columns
    ensures s2.log == s.log + Entry("Printing model " + CellText(Id(s)))
    ensures s2.printerOut == s.printerOut + (if fault == NoFault || fault == CloseFails then
      [(setup.printerPort, CellText(s.processing.value.record[j]) + "\r\n")] else [])
    ensures s3 == UpdateSpec(s2, Id(s), s.layout.printed, Int(if fault == NoFault then 1 else 0))
    ensures s3 == LabelSpec(setup, s, j, fault)
    ensures PrintSpec(setup, s, fault) ==
      RestartSpec(LogSpec(s3, "Printing model " + CellText(Id(s)) + " result: " + Verdict(fault == NoFault), true).(printEnabled := false))
  {
    var p := s.processing.value;
    var s1 := LogSpec(s, "Printing model " + CellText(Id(s)), true);
    LogEntry(s, "Printing model " + CellText(Id(s)));
    var sent := fault == NoFault || fault == CloseFails;
    s2 := if sent then s1.(printerOut := s1.printerOut + [(setup.printerPort, CellText(p.record[j]) + "\r\n")]) else s1;
    s3 := UpdateSpec(s2, Id(s), s.layout.printed, Int(if fault == NoFault then 1 else 0));
  }

  /** `send_to_printer`: without a `setup_payload` field nothing happens
      at all; with one, `printed` becomes 1 only when opening, writing and
      closing the port all work, the print button is disabled and the cycle
      restarts. */
  lemma {:induction false} PrintOutcome(setup: Setup, s: Screen, fault: PrinterFault)
    requires Ok(s) && s.processing.Some?
    ensures var p := s.processing.value;
      ColumnIndex(p.columns, "setup_payload").None? ==> PrintSpec(setup, s, fault) == s
    ensures var p := s.processing.value;
      var r := PrintSpec(setup, s, fault);
      ColumnIndex(p.columns, "setup_payload").Some? ==>
        RowsChanged(s.rows, r.rows, s.layout.id, Id(s), Mark(s.layout.printed, Int(if fault == NoFault then 1 else 0))) &&
        Restarted(s, r) && !r.printEnabled && Saved(r)
  {
    var p := s.processing.value;
    match ColumnIndex(p.columns, "setup_payload")
    case None =>
    case Some(j) =>
      var s2, s3 := PrintSteps(setup, s, fault, j);
      UpdateRows(s2, Id(s), s.layout.printed, Int(if fault == NoFault then 1 else 0));
      var t := LogSpec(s3, "Printing model " + CellText(Id(s)) + " result: " + Verdict(fault == NoFault), true).(printEnabled := false);
      assert t.rows == s3.rows && t.processing == s.processing && Saved(t) && !t.printEnabled;
      RestartAfter(s, t);
  }

  /** Restarting a state that still processes the record of `s`. */
  lemma RestartAfter(s: Screen, t: Screen)
    requires Ok(s) && s.processing.Some? && Ok(t) && t.processing == s.processing
    ensures var r := RestartSpec(t);
      Restarted(s, r) && r.rows == t.rows && r.printEnabled == t.printEnabled && (Saved(t) ==> Saved(r))
  {
  }

  /** What `send_to_printer` sends and logs: the payload line goes to the
      printer port unless opening or writing fails, and two log lines name
      the record and the outcome. */
  lemma {:induction false} PrintLog(setup: Setup, s: Screen, fault: PrinterFault)
    requires Ok(s) && s.processing.Some?
    requires ColumnIndex(s.processing.value.columns, "setup_payload").Some?
    ensures var p := s.processing.value;
      var r := PrintSpec(setup, s, fault);
      var id := CellText(Id(s));
      var line := CellText(p.record[ColumnIndex(p.columns, "setup_payload").value]) + "\r\n";
      r.printerOut == s.printerOut + (if fault == NoFault || fault == CloseFails then [(setup.printerPort, line)] else []) &&
      r.log == s.log + Entry("Printing model " + id) + Entry("Printing model " + id + " result: " + Verdict(fault == NoFault))
  {
    var j := ColumnIndex(s.processing.value.columns, "setup_payload").value;
    var s2, s3 := PrintSteps(setup, s, fault, j);
    var ok := fault == NoFault;
    var s4 := LogSpec(s3, "Printing model " + CellText(Id(s)) + " result: " + Verdict(ok), true);
    LogEntry(s3, "Printing model " + CellText(Id(s)) + " result: " + Verdict(ok));
  }

  /** `inspect_result`, step by step (lines 388-403): `passed_test`
      becomes the verdict and the verdict is logged. */
  lemma {:induction false} InspectSteps(setup: Setup, s: Screen, valid: bool, fault: PrinterFault)
    returns (s2: Screen)
    requires Ok(s) && s.processing.Some?
    ensures Ok(s2) && s2.loaded && s2.processing == s.processing && s2.layout == s.layout
    ensures s2.columns == s.columns && s2.printerOut == s.printerOut && Id(s2) == Id(s)
    ensures s.layout.printed < |s2.columns| && s.layout.id != s.layout.passed
    ensures RowsChanged(s.rows, s2.rows, s.layout.id, Id(s), Mark(s.layout.passed, Int(if valid then 1 else 0)))
    ensures s2.log == s.log + Entry("Inspecting model " + CellText(Id(s)) + " result: " + (if valid then "PASSED" else "FAILED"))
    ensures s2 == LogSpec(UpdateSpec(s, Id(s), s.layout.passed, Int(if valid then 1 else 0)),
                          "Inspecting model " + CellText(Id(s)) + " result: " + (if valid then "PASSED" else "FAILED"), true)
  {
    var s1 := UpdateSpec(s, Id(s), s.layout.passed, Int(if valid then 1 else 0));
    UpdateRows(s, Id(s), s.layout.passed, Int(if valid then 1 else 0));
    s2 := LogSpec(s1, "Inspecting model " + CellText(Id(s)) + " result: " + (if valid then "PASSED" else "FAILED"), true);
    LogEntry(s1, "Inspecting model " + CellText(Id(s)) + " result: " + (if valid then "PASSED" else "FAILED"));
  }

  /** `inspect_result` on a bad board: `passed_test` becomes 0,
      `printed` the text '-1', the verdict is logged and the cycle
      restarts. */
  lemma {:induction false} InspectFailed(setup: Setup, s: Screen, fault: PrinterFault)
    requires Ok(s) && s.processing.Some?
    ensures var r := InspectSpec(setup, s, false, fault);
      RowsChanged(s.rows, r.rows, s.layout.id, Id(s), Mark(s.layout.passed, Int(0)) + Mark(s.layout.printed, Str("-1"))) &&
      r.log == s.log + Entry("Inspecting model " + CellText(Id(s)) + " result: FAILED") &&
      Restarted(s, r) && Saved(r) && r.printerOut == s.printerOut
  {
    var s2 := InspectSteps(setup, s, false, fault);
    var s3 := UpdateSpec(s2, Id(s), s.layout.printed, Str("-1"));
    assert InspectSpec(setup, s, false, fault) == RestartSpec(s3);
    UpdateRows(s2, Id(s), s.layout.printed, Str("-1"));
    ChainRows(s.rows, s2.rows, s3.rows, s.layout.id, Id(s), Mark(s.layout.passed, Int(0)), Mark(s.layout.printed, Str("-1")));
  }

  /** `inspect_result` on a good board without automatic printing:
      `passed_test` becomes 1, the verdict is logged, and the record stays
      selected with the print button enabled. */
  lemma {:induction false} InspectPassed(setup: Setup, s: Screen, fault: PrinterFault)
    requires Ok(s) && s.processing.Some? && !setup.autoprint
    ensures var r := InspectSpec(setup, s, true, fault);
      RowsChanged(s.rows, r.rows, s.layout.id, Id(s), Mark(s.layout.passed, Int(1))) &&
      r.log == s.log + Entry("Inspecting model " + CellText(Id(s)) + " result: PASSED") &&
      r.printEnabled && r.processing == s.processing && Saved(r) && r.printerOut == s.printerOut
  {
    var s2 := InspectSteps(setup, s, true, fault);
    assert InspectSpec(setup, s, true, fault) == s2.(printEnabled := true);
  }

  /** `inspect_result` on a good board with automatic printing goes
      straight to `send_to_printer` once the verdict is recorded. */
  lemma {:induction false} InspectThenPrint(setup: Setup, s: Screen, fault: PrinterFault) returns (s2: Screen)
    requires Ok(s) && s.processing.Some? && setup.autoprint
    ensures Ok(s2) && s2.processing == s.processing && s2.layout == s.layout && Id(s2) == Id(s)
    ensures s2.printerOut == s.printerOut && s.layout.id != s.layout.passed
    ensures RowsChanged(s.rows, s2.rows, s.layout.id, Id(s), Mark(s.layout.passed, Int(1)))
    ensures s2.log == s.log + Entry("Inspecting model " + CellText(Id(s)) + " result: PASSED")
    ensures InspectSpec(setup, s, true, fault) == PrintSpec(setup, s2, fault)
  {
    s2 := InspectSteps(setup, s, true, fault);
  }

  /** `inspect_result` on a good board with automatic printing: the label
      is printed at once, so `passed_test` becomes 1 and `printed` tells
      whether printing worked, and the cycle restarts. */
  lemma {:induction false} InspectPrints(setup: Setup, s: Screen, fault: PrinterFault)
    requires Ok(s) && s.processing.Some? && setup.autoprint
    requires ColumnIndex(s.processing.value.columns, "setup_payload").Some?
    ensures var r := InspectSpec(setup, s, true, fault);
      RowsChanged(s.rows, r.rows, s.layout.id, Id(s),
                  Mark(s.layout.passed, Int(1)) + Mark(s.layout.printed, Int(if fault == NoFault then 1 else 0))) &&
      Restarted(s, r) && !r.printEnabled && Saved(r)
  {
    var s2 := InspectThenPrint(setup, s, fault);
    PrintAfterInspect(setup, s, s2, fault);
  }

  lemma {:induction false} PrintAfterInspect(setup: Setup, s: Screen, s2: Screen, fault: PrinterFault)
    requires Ok(s) && s.processing.Some?
    requires ColumnIndex(s.processing.value.columns, "setup_payload").Some?
    requires Ok(s2) && s2.processing == s.processing && s2.layout == s.layout && s.layout.id != s.layout.passed
    requires RowsChanged(s.rows, s2.rows, s.layout.id, Id(s), Mark(s.layout.passed, Int(1)))
    ensures var r := PrintSpec(setup, s2, fault);
      RowsChanged(s.rows, r.rows, s.layout.id, Id(s),
                  Mark(s.layout.passed, Int(1)) + Mark(s.layout.printed, Int(if fault == NoFault then 1 else 0))) &&
      Restarted(s, r) && !r.printEnabled && Saved(r)
  {
    var r := PrintSpec(setup, s2, fault);
    PrintOutcome(setup, s2, fault);
    var v := Int(if fault == NoFault then 1 else 0);
    ChainRows(s.rows, s2.rows, r.rows, s.layout.id, Id(s), Mark(s.layout.passed, Int(1)), Mark(s.layout.printed, v));
  }

  /** What automatic printing after a good inspection sends and logs: the
      payload line unless the port cannot be opened or written, then the
      verdict and both printing lines. */
  lemma {:induction false} InspectPrintsLog(setup: Setup, s: Screen, fault: PrinterFault)
    requires Ok(s) && s.processing.Some? && setup.autoprint
    requires ColumnIndex(s.processing.value.columns, "setup_payload").Some?
    ensures var r := InspectSpec(setup, s, true, fault);
      var p := s.processing.value;
      var id := CellText(Id(s));
      var line := CellText(p.record[ColumnIndex(p.columns, "setup_payload").value]) + "\r\n";
      r.printerOut == s.printerOut + (if fault == NoFault || fault == CloseFails then [(setup.printerPort, line)] else []) &&
      r.log == s.log + Entry("Inspecting model " + id + " result: PASSED") + Entry("Printing model " + id) +
               Entry("Printing model " + id + " result: " + Verdict(fault == NoFault))
  {
    var s2 := InspectThenPrint(setup, s, fault);
    PrintLog(setup, s2, fault);
  }

  /** The lines `burn_result` writes before acting on the verdict (lines
      357-369): the tool's error message, or a note that the reset message
      never came when the tool reported success without it; a separator;
      and the verdict. */
  lemma {:induction false} BurnLog(s: Screen, res: CommandResult)
    requires Ok(s) && s.processing.Some?
    ensures var r := BurnLogSpec(s, res);
      r.log == s.log + (if res.data.Some? then Entry(res.data.value)
                        else if res.success && !BurnSucceeded(s, res) then Entry(NoResetMessage) else "") +
               Entry(Separator) + Entry("Burning model " + CellText(Id(s)) + " result: " + Verdict(BurnSucceeded(s, res)))
    ensures Ok(BurnLogSpec(s, res)) && Id(BurnLogSpec(s, res)) == Id(s)
  {
    var ok := BurnSucceeded(s, res);
    var data := if res.success && !ok && res.data.None? then Some(NoResetMessage) else res.data;
    var note := if data.Some? then Entry(data.value) else "";
    var s1 := if data.Some? then LogSpec(s, data.value, true) else s;
    if data.Some? {
      LogEntry(s, data.value);
    } else {
      assert s.log + note == s.log;
    }
    assert s1.log == s.log + note;
    var s2 := LogSpec(s1, Separator, true);
    LogEntry(s1, Separator);
    var verdict := "Burning model " + CellText(Id(s)) + " result: " + Verdict(ok);
    LogEntry(s2, verdict);
    assert BurnLogSpec(s, res).log == LogSpec(s2, verdict, true).log;
  }

  /** The event log of a failed burn: the tool's message, or the missing
      reset notice when the tool itself succeeded, then the verdict
      FAILURE. */
  lemma {:induction false} BurnFailedLog(s: Screen, res: CommandResult)
    requires Ok(s) && s.processing.Some? && !BurnSucceeded(s, res)
    ensures BurnLogSpec(s, res).log ==
      s.log + (if res.data.Some? then Entry(res.data.value) else if res.success then Entry(NoResetMessage) else "") +
      Entry(Separator) + Entry("Burning model " + CellText(Id(s)) + " result: " + Verdict(false))
  {
    var data := if res.success && res.data.None? then Some(NoResetMessage) else res.data;
    var s1 := if data.Some? then LogSpec(s, data.value, true) else s;
    if data.Some? {
      LogEntry(s, data.value);
    } else {
      assert s.log + "" == s.log;
    }
    var s2 := LogSpec(s1, Separator, true);
    LogEntry(s1, Separator);
    var verdict := "Burning model " + CellText(Id(s)) + " result: " + Verdict(false);
    LogEntry(s2, verdict);
    assert BurnLogSpec(s, res).log == LogSpec(s2, verdict, true).log;
  }

  /** The failure branch of `burn_result` on its own: both statuses of the
      record become the text '-1', the file is saved and the cycle
      restarts. */
  lemma {:induction false} BurnFailedOutcome(s: Screen)
    requires Ok(s) && s.processing.Some?
    ensures var r := BurnFailedSpec(s);
      RowsChanged(s.rows, r.rows, s.layout.id, Id(s), FailedMarks(s.layout)) &&
      Restarted(s, r) && Saved(r) && r.log == s.log && r.printerOut == s.printerOut
  {
    var a := UpdateSpec(s, Id(s), s.layout.passed, Str("-1"));
    UpdateRows(s, Id(s), s.layout.passed, Str("-1"));
    var b := UpdateSpec(a, Id(s), s.layout.printed, Str("-1"));
    UpdateRows(a, Id(s), s.layout.printed, Str("-1"));
    ChainRows(s.rows, a.rows, b.rows, s.layout.id, Id(s), Mark(s.layout.passed, Str("-1")), Mark(s.layout.printed, Str("-1")));
  }

  /** A burn that fails, because the tool failed or because the reset
      message is nowhere in the event log, marks the record's statuses as
      the text '-1', logs why and the verdict FAILURE, saves the file and
      restarts the cycle. */
  lemma {:induction false} BurnFailure(setup: Setup, s: Screen, res: CommandResult, valid: bool, fault: PrinterFault)
    requires Ok(s) && s.processing.Some? && !BurnSucceeded(s, res)
    ensures var r := BurnResultSpec(setup, s, res, valid, fault);
      RowsChanged(s.rows, r.rows, s.layout.id, Id(s), FailedMarks(s.layout)) &&
      Restarted(s, r) && Saved(r) && r.printerOut == s.printerOut &&
      r.log == s.log + (if res.data.Some? then Entry(res.data.value) else if res.success then Entry(NoResetMessage) else "") +
               Entry(Separator) + Entry("Burning model " + CellText(Id(s)) + " result: " + Verdict(false))
  {
    var s1 := BurnLogSpec(s, res);
    BurnFailedLog(s, res);
    assert s1.rows == s.rows && s1.layout == s.layout && s1.processing == s.processing;
    BurnFailedOutcome(s1);
    assert BurnResultSpec(setup, s, res, valid, fault) == BurnFailedSpec(s1);
  }

  /** The fields `inspect_result` writes into the processed record: a bad
      board gets `passed_test` 0 and `printed` '-1'; a good one
      `passed_test` 1, and with automatic printing also `printed`, 1 only
      when printing worked. */
  function InspectChanges(l: Layout, setup: Setup, valid: bool, fault: PrinterFault): map<nat, Cell> {
    if !valid then Mark(l.passed, Int(0)) + Mark(l.printed, Str("-1"))
    else if setup.autoprint then Mark(l.passed, Int(1)) + Mark(l.printed, Int(if fault == NoFault then 1 else 0))
    else Mark(l.passed, Int(1))
  }

  lemma {:induction false} InspectRows(setup: Setup, s: Screen, valid: bool, fault: PrinterFault)
    requires Ok(s) && s.processing.Some?
    requires valid && setup.autoprint ==> ColumnIndex(s.processing.value.columns, "setup_payload").Some?
    ensures var r := InspectSpec(setup, s, valid, fault);
      RowsChanged(s.rows, r.rows, s.layout.id, Id(s), InspectChanges(s.layout, setup, valid, fault)) && Saved(r) &&
      (!valid || setup.autoprint ==> Restarted(s, r)) &&
      (valid && !setup.autoprint ==> r.processing == s.processing && r.printEnabled)
  {
    if !valid {
      InspectFailed(setup, s, fault);
    } else if setup.autoprint {
      InspectPrints(setup, s, fault);
    } else {
      InspectPassed(setup, s, fault);
    }
  }

  /** The success branch of `burn_result`, step by step (lines 369-375):
      `burned` becomes the selected copy's count plus one, the summary
      table is drawn as before the update, the window is enabled again after
      the dialog, a line announces the inspection, and `inspect_result`
      follows. */
  lemma {:induction false} BurnPassedSteps(setup: Setup, s: Screen, valid: bool, fault: PrinterFault, b: int)
    returns (s1: Screen, s2: Screen)
    requires Ok(s) && s.processing.Some?
    requires s.processing.value.record[s.processing.value.layout.burned] == Int(b)
    ensures s1 == CountBurnSpec(s) && s1.log == s.log && Saved(s1) && (Drawn(s1) <==> Drawn(s))
    ensures Ok(s2) && s2.processing == s.processing && s2.layout == s.layout && Id(s2) == Id(s)
    ensures s2.columns == s.columns && s.layout.id != s.layout.burned
    ensures RowsChanged(s.rows, s1.rows, s.layout.id, Id(s), Mark(s.layout.burned, Int(b + 1)))
    ensures RowsChanged(s.rows, s2.rows, s.layout.id, Id(s), Mark(s.layout.burned, Int(b + 1)))
    ensures s2.log == s.log + Entry("Inspecting model " + CellText(Id(s)))
    ensures s2 == LogSpec(s1.(centralEnabled := true), "Inspecting model " + CellText(Id(s)), true)
  {
    s1 := UpdateSpec(s, Id(s), s.layout.burned, Int(b + 1));
    UpdateRows(s, Id(s), s.layout.burned, Int(b + 1));
    assert PlusOne(Int(b)) == Int(b + 1);
    CountKeepsDrawn(s);
    s2 := LogSpec(s1.(centralEnabled := true), "Inspecting model " + CellText(Id(s)), true);
    LogEntry(s1.(centralEnabled := true), "Inspecting model " + CellText(Id(s)));
  }

  /** Raising the burn count leaves both statuses of every record, and so
      whether the summary table can be drawn, as they were. */
  lemma CountKeepsDrawn(s: Screen)
    requires Ok(s) && s.processing.Some?
    requires !s.processing.value.record[s.processing.value.layout.burned].Str?
    ensures Drawn(CountBurnSpec(s)) <==> Drawn(s)
  {
    var r := CountBurnSpec(s);
    var l := s.layout;
    assert l.burned != l.passed && l.burned != l.printed;
    forall k | 0 <= k < |s.rows|
      ensures r.rows[k][l.passed] == s.rows[k][l.passed] && r.rows[k][l.printed] == s.rows[k][l.printed]
    {
    }
  }

  lemma {:induction false} InspectAfterBurn(setup: Setup, s: Screen, s2: Screen, valid: bool, fault: PrinterFault, b: int)
    requires Ok(s) && s.processing.Some?
    requires valid && setup.autoprint ==> ColumnIndex(s.processing.value.columns, "setup_payload").Some?
    requires Ok(s2) && s2.processing == s.processing && s2.layout == s.layout && s.layout.id != s.layout.burned
    requires RowsChanged(s.rows, s2.rows, s.layout.id, Id(s), Mark(s.layout.burned, Int(b + 1)))
    ensures var r := InspectSpec(setup, s2, valid, fault);
      RowsChanged(s.rows, r.rows, s.layout.id, Id(s),
                  Mark(s.layout.burned, Int(b + 1)) + InspectChanges(s.layout, setup, valid, fault)) && Saved(r) &&
      (!valid || setup.autoprint ==> Restarted(s, r)) &&
      (valid && !setup.autoprint ==> r.processing == s.processing && r.printEnabled)
  {
    var r := InspectSpec(setup, s2, valid, fault);
    InspectRows(setup, s2, valid, fault);
    ChainRows(s.rows, s2.rows, r.rows, s.layout.id, Id(s), Mark(s.layout.burned, Int(b + 1)),
              InspectChanges(s.layout, setup, valid, fault));
  }

  /** A burn that succeeds (the tool returned and the reset message is in
      the event log) adds one to the selected copy's `burned` count in the
      record, then records the dialog's verdict as `inspect_result` does,
      and saves the file. When the summary table cannot be drawn, or the
      configured `reboot_timeout` is not an integer, the handler stops after
      saving the new count: the selection stays, the log ends with the burn
      report, and in the second case the window stays disabled. */
  lemma {:induction false} BurnSuccess(setup: Setup, s: Screen, res: CommandResult, valid: bool, fault: PrinterFault, b: int)
    requires Ok(s) && s.processing.Some? && BurnSucceeded(s, res)
    requires s.processing.value.record[s.processing.value.layout.burned] == Int(b)
    requires valid && setup.autoprint ==> ColumnIndex(s.processing.value.columns, "setup_payload").Some?
    ensures var r := BurnResultSpec(setup, s, res, valid, fault);
      var to := Inspect.TimeoutFromConfig(setup.rebootTimeout);
      Drawn(s) && to.Success? ==>
      var v := Inspect.DialogVerdict(to.value, valid);
      RowsChanged(s.rows, r.rows, s.layout.id, Id(s),
                  Mark(s.layout.burned, Int(b + 1)) + InspectChanges(s.layout, setup, v, fault)) && Saved(r) &&
      (!v || setup.autoprint ==> Restarted(s, r)) &&
      (v && !setup.autoprint ==> r.processing == s.processing && r.printEnabled)
    ensures var r := BurnResultSpec(setup, s, res, valid, fault);
      !Drawn(s) || Inspect.TimeoutFromConfig(setup.rebootTimeout).Failure? ==>
      RowsChanged(s.rows, r.rows, s.layout.id, Id(s), Mark(s.layout.burned, Int(b + 1))) && Saved(r) &&
      r.processing == s.processing && r.log == BurnLogSpec(s, res).log &&
      r.centralEnabled == !Drawn(s)
  {
    if Drawn(s) && Inspect.TimeoutFromConfig(setup.rebootTimeout).Success? {
      BurnInspected(setup, s, res, valid, fault, b);
    } else {
      BurnStopped(setup, s, res, valid, fault, b);
    }
  }

  lemma BurnInspected(setup: Setup, s: Screen, res: CommandResult, valid: bool, fault: PrinterFault, b: int)
    requires Ok(s) && s.processing.Some? && BurnSucceeded(s, res) && Drawn(s)
    requires Inspect.TimeoutFromConfig(setup.rebootTimeout).Success?
    requires s.processing.value.record[s.processing.value.layout.burned] == Int(b)
    requires valid && setup.autoprint ==> ColumnIndex(s.processing.value.columns, "setup_payload").Some?
    ensures var r := BurnResultSpec(setup, s, res, valid, fault);
      var v := Inspect.DialogVerdict(Inspect.TimeoutFromConfig(setup.rebootTimeout).value, valid);
      RowsChanged(s.rows, r.rows, s.layout.id, Id(s),
                  Mark(s.layout.burned, Int(b + 1)) + InspectChanges(s.layout, setup, v, fault)) && Saved(r) &&
      (!v || setup.autoprint ==> Restarted(s, r)) &&
      (v && !setup.autoprint ==> r.processing == s.processing && r.printEnabled)
  {
    var v := Inspect.DialogVerdict(Inspect.TimeoutFromConfig(setup.rebootTimeout).value, valid);
    var s0 := BurnLogSpec(s, res);
    BurnLog(s, res);
    var s1, s2 := BurnPassedSteps(setup, s0, v, fault, b);
    InspectAfterBurn(setup, s0, s2, v, fault, b);
  }

  lemma BurnStopped(setup: Setup, s: Screen, res: CommandResult, valid: bool, fault: PrinterFault, b: int)
    requires Ok(s) && s.processing.Some? && BurnSucceeded(s, res)
    requires !Drawn(s) || Inspect.TimeoutFromConfig(setup.rebootTimeout).Failure?
    requires s.processing.value.record[s.processing.value.layout.burned] == Int(b)
    ensures var r := BurnResultSpec(setup, s, res, valid, fault);
      RowsChanged(s.rows, r.rows, s.layout.id, Id(s), Mark(s.layout.burned, Int(b + 1))) && Saved(r) &&
      r.processing == s.processing && r.log == BurnLogSpec(s, res).log &&
      r.centralEnabled == !Drawn(s)
  {
    var s0 := BurnLogSpec(s, res);
    BurnLog(s, res);
    var s1, s2 := BurnPassedSteps(setup, s0, valid, fault, b);
  }

  // ---- running the flashing tool ----

  /** The erase command reaches the tool as the single word `erase_flash`
      after the common head of every command. */
  lemma EraseArgv(setup: Setup)
    ensures BurnerArgv(setup, "erase_flash") == ArgvHead(EspToolPath(setup.basePath), setup.burnerPort) + ["erase_flash"]
  {
    var w := "erase_flash";
    assert NoSpace(w) && NoDot(w);
    SplitFromLast(w, "");
    assert "" + w == w;
    UnescapeNoDot(w);
  }

  /** The flash command of a record reaches the tool as the fixed flags
      followed by each address and its image path, paths with spaces
      intact; with no images at all a trailing empty argument is left. */
  lemma FlashArgvInCycle(setup: Setup, ps: seq<(string, string)>)
    requires forall k :: 0 <= k < |ps| ==> PlainAddress(ps[k].0) && EscapeSafe(ps[k].1)
    ensures BurnerArgv(setup, CommandLine(ps)) ==
      ArgvHead(EspToolPath(setup.basePath), setup.burnerPort) +
      (FlashFlagTokens + (if |ps| == 0 then [""] else Flatten(ps)))
  {
    FlashArgv(ps);
  }

  /** With erasing chosen, `execute_burn_core` flashes only when the erase
      run returned and the erase confirmation is somewhere in the event log;
      otherwise it reports the erase's own error, or "Chip erase
      failed...", without flashing. */
  lemma {:induction false} EraseGate(setup: Setup, s: Screen, command: string, tool: seq<string> -> ToolRun)
    requires Ok(s) && s.processing.Some? && setup.erase
    ensures var erase := tool(BurnerArgv(setup, "erase_flash"));
      var flash := tool(BurnerArgv(setup, command));
      var logged := s.log + Entry("Erasing chip...") + erase.output;
      var r := CoreSpec(setup, s, command, None, tool);
      (erase.outcome.Returned? && Contains(logged, EraseDone) ==>
         r.1 == Outcome(flash.outcome) && r.0.log == logged + flash.output) &&
      (erase.outcome.Returned? && !Contains(logged, EraseDone) ==>
         r.1 == Some(CommandResult(false, Some(EraseFailed))) && r.0.log == logged) &&
      (erase.outcome.Raised? ==>
         r.1 == Some(CommandResult(false, Some(ErrorText(erase.outcome.args)))) && r.0.log == logged) &&
      (erase.outcome.Exited? ==> r.1.None? && r.0.log == logged)
  {
    var s1 := LogSpec(s, "Erasing chip...", true);
    LogEntry(s, "Erasing chip...");
    var (s2, er) := RunSpec(setup, s1, "erase_flash", None, tool);
    assert s2.log == s.log + Entry("Erasing chip...") + tool(BurnerArgv(setup, "erase_flash")).output;
  }

  /** Without erasing, `execute_burn_core` logs which record it burns and
      runs the flash command once. */
  lemma {:induction false} BurnWithoutErase(setup: Setup, s: Screen, command: string, tool: seq<string> -> ToolRun)
    requires Ok(s) && s.processing.Some? && !setup.erase
    ensures var flash := tool(BurnerArgv(setup, command));
      var r := CoreSpec(setup, s, command, None, tool);
      r.1 == Outcome(flash.outcome) && r.0.log == s.log + Entry("Burning model " + CellText(Id(s))) + flash.output
  {
    LogEntry(s, "Burning model " + CellText(Id(s)));
  }

  /** When the tool's module cannot be loaded, no command runs: the burn
      fails with the loader's message, nothing of the tool's reaches the
      log, and no erase is attempted before it. */
  lemma {:induction false} LoadFailure(setup: Setup, s: Screen, command: string, m: string, tool: seq<string> -> ToolRun)
    requires Ok(s) && s.processing.Some?
    ensures var r := CoreSpec(setup, s, command, Some(m), tool);
      r.1 == Some(CommandResult(false, Some(m))) &&
      r.0.log == s.log + Entry(if setup.erase then "Erasing chip..." else "Burning model " + CellText(Id(s)))
  {
    if setup.erase {
      LogEntry(s, "Erasing chip...");
      assert s.log + Entry("Erasing chip...") + "" == s.log + Entry("Erasing chip...");
    } else {
      LogEntry(s, "Burning model " + CellText(Id(s)));
      assert s.log + Entry("Burning model " + CellText(Id(s))) + "" == s.log + Entry("Burning model " + CellText(Id(s)));
    }
  }

  // ---- the whole burn ----

  /** `execute_burn` for a record whose command could be built: a
      separator line, `execute_burn_core`, then `burn_result` on its result
      when there is one. */
  lemma {:induction false} BurnRun(setup: Setup, s: Screen, tool: seq<string> -> ToolRun, valid: bool,
                                   fault: PrinterFault, ps: seq<(string, string)>)
    returns (c: (Screen, Option<CommandResult>))
    requires Ok(s) && s.processing.Some?
    requires FlashPairs(setup.hexMap, s.processing.value.columns, s.processing.value.record, setup.basePath) == Success(ps)
    ensures Ok(c.0) && c.0.rows == s.rows && c.0.layout == s.layout && c.0.processing == s.processing
    ensures c.0.centralEnabled == s.centralEnabled && c.0.disk == s.disk && Id(c.0) == Id(s)
    ensures c == CoreSpec(setup, LogSpec(s, Separator, true), CommandLine(ps), None, tool)
    ensures ExecuteBurnSpec(setup, s, None, tool, valid, fault) ==
      if c.1.None? then c.0 else BurnResultSpec(setup, c.0, c.1.value, valid, fault)
  {
    var s1 := LogSpec(s, Separator, true);
    LogEntry(s, Separator);
    c := CoreSpec(setup, s1, CommandLine(ps), None, tool);
  }

  /** The reset message is looked for in the whole event log, so one left
      there by an earlier burn makes any later burn whose tool merely
      returns count as a success, whatever the tool printed this time (and
      `BurnSuccess` then raises the count and inspects the board). */
  lemma {:induction false} StaleResetMarker(setup: Setup, s: Screen, command: string, tool: seq<string> -> ToolRun)
    requires Ok(s) && s.processing.Some? && !setup.erase
    requires Contains(s.log, ResetMarker)
    requires tool(BurnerArgv(setup, command)).outcome.Returned?
    ensures var c := CoreSpec(setup, s, command, None, tool);
      c.1 == Some(CommandResult(true, None)) && BurnSucceeded(c.0, c.1.value)
  {
    var flash := tool(BurnerArgv(setup, command));
    BurnWithoutErase(setup, s, command, tool);
    ContainsAppendRight(s.log, Entry("Burning model " + CellText(Id(s))), ResetMarker);
    ContainsAppendRight(s.log + Entry("Burning model " + CellText(Id(s))), flash.output, ResetMarker);
  }

  /** A tool run that exits the interpreter never produces a result, so
      `burn_result` never runs: the window stays disabled and the record
      and the selection stay as they were. */
  lemma {:induction false} ToolExitFreezes(setup: Setup, s: Screen, tool: seq<string> -> ToolRun, valid: bool,
                                           fault: PrinterFault, ps: seq<(string, string)>)
    requires Ok(s) && s.processing.Some? && !setup.erase
    requires FlashPairs(setup.hexMap, s.processing.value.columns, s.processing.value.record, setup.basePath) == Success(ps)
    requires tool(BurnerArgv(setup, CommandLine(ps))).outcome.Exited?
    ensures var r := BurnSpec(setup, s, None, tool, valid, fault);
      !r.centralEnabled && r.rows == s.rows && r.disk == s.disk && r.processing == s.processing
  {
    var c := BurnRun(setup, s.(centralEnabled := false), tool, valid, fault, ps);
    BurnWithoutErase(setup, LogSpec(s.(centralEnabled := false), Separator, true), CommandLine(ps), tool);
  }

  // ---- selection and reloading ----

  /** Selecting a summary row whose cell at the frame position of `id`
      shows `n` selects the first record whose id is `n`, and sets the
      buttons by its statuses: flashing when it has not passed, printing
      when it passed but is not printed, and neither changed when it is
      done. Rows, file and log are untouched. */
  lemma {:induction false} SelectById(s: Screen, row: seq<string>, n: int, k: nat)
    requires Ok(s) && s.loaded && k < |s.rows|
    requires s.layout.id < |row| && row[s.layout.id] == IntToString(n)
    requires PyEq(s.rows[k][s.layout.id], Int(n))
    requires forall i :: 0 <= i < k ==> !PyEq(s.rows[i][s.layout.id], Int(n))
    ensures var r := SelectSpec(s, Some(row));
      var passed := s.rows[k][s.layout.passed];
      var printed := s.rows[k][s.layout.printed];
      r.processing == Some(Snapshot(s.columns, s.rows[k], s.layout)) &&
      (passed != Int(1) ==> r.flashEnabled && !r.printEnabled) &&
      (passed == Int(1) && printed != Int(1) ==> !r.flashEnabled && r.printEnabled) &&
      (passed == Int(1) && printed == Int(1) ==> r.flashEnabled == s.flashEnabled && r.printEnabled == s.printEnabled) &&
      r.rows == s.rows && r.disk == s.disk && r.log == s.log
  {
    ParseIntToString(n);
    assert FirstWithId(s.rows, s.layout.id, Int(n)) == Some(k);
  }

  /** The texts of a drawn summary row. */
  function Texts(cells: seq<SummaryCell>): (r: seq<string>)
    ensures |r| == |cells| && forall i :: 0 <= i < |cells| ==> r[i] == cells[i].text
  {
    seq(|cells|, i requires 0 <= i < |cells| => cells[i].text)
  }

  /** When `id` is the first column of the record file, selecting the drawn
      summary row of a record, which shows the id first, selects the first
      record with that id. */
  lemma SelectShownRow(s: Screen, keys: seq<string>, values: seq<Cell>, st: Style, n: int, k: nat)
    requires Ok(s) && s.loaded && s.layout.id == 0 && k < |s.rows|
    requires |keys| == |values| && |keys| > 0 && keys[0] == "id" && values[0] == Int(n)
    requires PyEq(s.rows[k][0], Int(n)) && forall i :: 0 <= i < k ==> !PyEq(s.rows[i][0], Int(n))
    ensures SelectSpec(s, Some(Texts(RenderFrom(keys, values, st)))).processing ==
      Some(Snapshot(s.columns, s.rows[k], s.layout))
  {
    var row := Texts(RenderFrom(keys, values, st));
    assert "id" !in BoolColumns;
    assert row[0] == IntToString(n);
    SelectById(s, row, n, k);
  }

  /** When `id` is the second column of the record file and the statuses
      are the marked columns, the cell read is a status mark, which `int`
      rejects: the selection changes nothing. */
  lemma SelectReadsStatusMark(s: Screen, idText: string)
    requires Ok(s) && s.layout.id == 1
    ensures SelectSpec(s, Some([idText, "✓", "✓"])) == s
  {
    assert SelectedText(s, Some([idText, "✓", "✓"])) == Some("✓");
    assert !IsDigit("✓"[0]);
    assert ParseInt("✓").None?;
  }

  /** With no row selected the earlier selection stays, even after the
      record file was reloaded; a text `int` rejects changes nothing. */
  lemma SelectKeeps(s: Screen, row: seq<string>)
    requires Ok(s)
    ensures SelectSpec(s, None).processing == s.processing
    ensures s.layout.id < |row| && ParseInt(row[s.layout.id]).None? ==> SelectSpec(s, Some(row)) == s
  {
  }

  /** Starting over reloads the record file just saved: the same columns,
      as many records, and in the `burned` and status columns the same
      values, the text '-1' written by a failure coming back as the number
      -1. Nothing stays selected, but a record that was selected is
      remembered again for the next selection, overriding the reset of the
      remembered model and id. */
  lemma {:induction false} StartOverReloads(setup: Setup, s: Screen)
    requires Ok(s) && s.loaded && s.csvName != "" && Saved(s)
    requires s.columns == StripAll(s.orig) && LayoutOf(s.columns) == Some(s.layout)
    requires StatusCellsOk(Table(s.columns, s.rows), s.orig, setup.hexMap)
    ensures var r := StartOverSpec(setup, s);
      r.loaded && r.columns == s.columns && r.orig == s.orig && r.layout == s.layout &&
      |r.rows| == |s.rows| && Saved(r) && r.processing.None? &&
      r.preselected == (if s.processing.Some? then Some(Selected(s)) else None) &&
      forall k, j :: 0 <= k < |s.rows| && 0 <= j < |s.orig| &&
                     (Matches(s.orig[j], "burned") || IsTarget(s.orig[j], StatusColumns)) ==>
        r.rows[k][j] == (if s.rows[k][j] == Str("-1") then Int(-1) else s.rows[k][j])
  {
    var t := Table(s.columns, s.rows);
    ReloadRestores(t, s.orig, setup.hexMap);
    var raw := ReadCsv(s.disk[s.csvName]);
    assert raw == ReadCsv(Persist(t, s.orig));
    var l := LoadSpec(raw, setup.hexMap).value;
    var s0 := s.(preselected := None);
    ReadLoaded(setup, s0, s.csvName, l);
    var s1 := s0.(csvName := s.csvName);
    InstallFields(s1, l);
  }

  /** A file that fails to load still becomes the shown file name (line 96
      runs before the load), while the old frame and selection stay. The
      next record update, a Print click for instance, then saves the old
      frame over the file that failed to load. */
  lemma FailedLoadOverwrites(setup: Setup, s: Screen, name: string, id: Cell, col: nat, v: Cell)
    requires Ok(s) && s.loaded && col < |s.columns|
    requires name != "" && name in s.disk && ReadCsv(s.disk[name]).Rectangular()
    requires LoadSpec(ReadCsv(s.disk[name]), setup.hexMap).Failure?
    ensures var r := ReadSpec(setup, s, name, "");
      r.csvName == name && r.rows == s.rows && r.columns == s.columns && r.orig == s.orig &&
      r.processing == s.processing &&
      UpdateSpec(r, id, col, v).disk[name] ==
        Persist(Table(s.columns, SetWhere(s.rows, s.layout.id, id, col, v)), s.orig)
  {
  }

  /** A frame that `read_data_csv` installs has the in-memory names and
      field positions a reload produces: names stripped of `*`, and the
      layout found from them. */
  lemma ReadReloadable(setup: Setup, s: Screen, name: string, l: Loaded)
    requires Ok(s) && name != "" && name in s.disk && ReadCsv(s.disk[name]).Rectangular()
    requires LoadSpec(ReadCsv(s.disk[name]), setup.hexMap) == Success(l)
    ensures var r := ReadSpec(setup, s, name, "");
      r.loaded && r.csvName == name && Saved(r) &&
      r.columns == StripAll(r.orig) && LayoutOf(r.columns) == Some(r.layout)
  {
    ReadLoaded(setup, s, name, l);
    InstallFields(s.(csvName := name), l);
  }

  /** `read_data_csv` on a file that loads. */
  lemma ReadLoaded(setup: Setup, s: Screen, name: string, l: Loaded)
    requires Ok(s) && name != "" && name in s.disk && ReadCsv(s.disk[name]).Rectangular()
    requires LoadSpec(ReadCsv(s.disk[name]), setup.hexMap) == Success(l)
    ensures l.table.Rectangular() && LayoutFits(l.layout, l.table.columns)
    ensures ReadSpec(setup, s, name, "") == InstallSpec(s.(csvName := name), l)
  {
  }

  /** What `read_data_csv` leaves after loading a frame: the frame, saved,
      and the cycle restarted. */
  lemma InstallFields(s: Screen, l: Loaded)
    requires Ok(s) && l.table.Rectangular() && LayoutFits(l.layout, l.table.columns)
    ensures var r := InstallSpec(s, l);
      r.loaded && r.columns == l.table.columns && r.orig == l.orig && r.rows == l.table.rows &&
      r.layout == l.layout && Saved(r) && r.processing.None? &&
      r.preselected == (if s.processing.Some? then Some(Selected(s)) else None)
  {
  }

  /** An erase that fails, by raising or by leaving no confirmation in the
      log, is handed to `burn_result` like a failed burn: nothing is
      flashed, the record's statuses become the text '-1' and the cycle
      restarts. */
  lemma {:induction false} EraseFailureMarks(setup: Setup, s: Screen, tool: seq<string> -> ToolRun, valid: bool,
                                             fault: PrinterFault, ps: seq<(string, string)>)
    requires Ok(s) && s.processing.Some? && setup.erase
    requires FlashPairs(setup.hexMap, s.processing.value.columns, s.processing.value.record, setup.basePath) == Success(ps)
    requires var erase := tool(BurnerArgv(setup, "erase_flash"));
      erase.outcome.Raised? ||
      (erase.outcome.Returned? && !Contains(s.log + Entry(Separator) + Entry("Erasing chip...") + erase.output, EraseDone))
    ensures var r := ExecuteBurnSpec(setup, s, None, tool, valid, fault);
      RowsChanged(s.rows, r.rows, s.layout.id, Id(s), FailedMarks(s.layout)) &&
      Restarted(s, r)
  {
    var c := BurnRun(setup, s, tool, valid, fault, ps);
    var s1 := LogSpec(s, Separator, true);
    LogEntry(s, Separator);
    EraseGate(setup, s1, CommandLine(ps), tool);
    assert c.1.Some? && !c.1.value.success;
    BurnFailure(setup, c.0, c.1.value, valid, fault);
  }
}
