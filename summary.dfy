/** The pure rules of the main window: how a summary row is coloured
    (`load_summary`), which model button is clicked and which row selected
    automatically after a cycle (`create_model_buttons`, `model_clicked`), and
    which of the flash and print buttons a selection enables
    (`item_selected`). */
module Summary {
  import opened Wrappers
  import opened Text
  import opened RecordTable

  // ---- colours (frmMain.py lines 139-181) ----

  datatype Tone = LightGray | Red | Green
  datatype Ink = Black | White
  datatype Style = Style(bg: Tone, fg: Ink)
  datatype SummaryCell = SummaryCell(text: string, style: Style)

  /** The `colors` dictionary, keyed by the text of a status. */
  function ToneOf(text: string): Option<Tone> {
    if text == "-1" then Some(LightGray)
    else if text == "0" then Some(Red)
    else if text == "1" then Some(Green)
    else None
  }

  /** The style a row starts with: the status colour in white when both
      statuses have the same known text, grey with black otherwise; `None`
      where the dictionary lookup raises (a shared status other than -1, 0
      or 1). */
  function RowStyle(passed: Cell, printed: Cell): (r: Option<Style>)
    ensures (passed == Int(1) && printed == Int(1)) ==> r == Some(Style(Green, White))
    ensures (passed == Int(0) && printed == Int(0)) ==> r == Some(Style(Red, White))
    ensures CellText(passed) == "-1" || CellText(passed) != CellText(printed) ==>
      r == Some(Style(LightGray, Black))
  {
    var p, q := CellText(passed), CellText(printed);
    if p != "-1" && p == q then
      match ToneOf(p)
      case None => None
      case Some(t) => Some(Style(t, White))
    else Some(Style(LightGray, Black))
  }

  const BoolColumns: seq<string> := ["passed_test", "printed"]

  /** Python's `str.isnumeric` on the texts that occur here. */
  predicate IsNumeric(s: string) {
    |s| > 0 && AllDigits(s)
  }

  /** One cell of a summary row and the style the next cell inherits: a
      status column shows a tick or a cross on green or red when its text is
      numeric, a dot on grey when it is -1, and it changes the style of every
      cell after it. */
  function StyleCell(key: string, value: Cell, st: Style): (SummaryCell, Style) {
    var text := CellText(value);
    if key in BoolColumns && IsNumeric(text) then
      var st' := if value == Int(1) then Style(Green, White) else Style(Red, White);
      (SummaryCell(if value == Int(1) then "✓" else "✕", st'), st')
    else if key in BoolColumns && text == "-1" then
      var st' := Style(LightGray, Black);
      (SummaryCell("•", st'), st')
    else (SummaryCell(text, st), st)
  }

  /** The cells of a row rendered left to right from style `st`. */
  function RenderFrom(keys: seq<string>, values: seq<Cell>, st: Style): (r: seq<SummaryCell>)
    requires |keys| == |values|
    ensures |r| == |keys|
  {
    if |keys| == 0 then []
    else var (c, st') := StyleCell(keys[0], values[0], st);
      [c] + RenderFrom(keys[1..], values[1..], st')
  }

  /** The value under the first key `name` of a row. */
  function Lookup(keys: seq<string>, values: seq<Cell>, name: string): (r: Option<Cell>)
    requires |keys| == |values|
    ensures r.Some? <==> name in keys
    ensures r.Some? ==> exists j :: 0 <= j < |keys| && keys[j] == name && values[j] == r.value
  {
    match ColumnIndex(keys, name)
    case None => None
    case Some(j) => Some(values[j])
  }

  /** Renders one summary row (the body of the loop at lines 145-181); `None`
      where the source raises: a status missing from the summary columns or
      an unknown shared status. */
  method RenderRow(keys: seq<string>, values: seq<Cell>) returns (r: Option<seq<SummaryCell>>)
    requires |keys| == |values|
    ensures r.Some? <==> ("passed_test" in keys && "printed" in keys &&
      RowStyle(Lookup(keys, values, "passed_test").value, Lookup(keys, values, "printed").value).Some?)
    ensures r.Some? ==> r.value == RenderFrom(keys, values,
      RowStyle(Lookup(keys, values, "passed_test").value, Lookup(keys, values, "printed").value).value)
  {
    var passed := Lookup(keys, values, "passed_test");
    var printed := Lookup(keys, values, "printed");
    if passed.None? || printed.None? {
      return None;
    }
    var start := RowStyle(passed.value, printed.value);
    if start.None? {
      return None;
    }
    var cells := Render(keys, values, start.value);
    return Some(cells);
  }

  /** The loop over the cells of one row, threading the inherited style. */
  method Render(keys: seq<string>, values: seq<Cell>, start: Style) returns (cells: seq<SummaryCell>)
    requires |keys| == |values|
    ensures cells == RenderFrom(keys, values, start)
  {
    var st := start;
    cells := [];
    var i := 0;
    while i < |keys|
      invariant 0 <= i <= |keys|
      invariant cells + RenderFrom(keys[i..], values[i..], st) == RenderFrom(keys, values, start)
    {
      var (c, st') := StyleCell(keys[i], values[i], st);
      assert RenderFrom(keys[i..], values[i..], st) == [c] + RenderFrom(keys[i + 1..], values[i + 1..], st') by {
        assert keys[i..][1..] == keys[i + 1..];
        assert values[i..][1..] == values[i + 1..];
      }
      cells := cells + [c];
      st := st';
      i := i + 1;
    }
    assert keys[i..] == [];
  }

  /** Cells before the first status column keep the row's starting style. */
  lemma {:induction false} RenderPrefixStyle(keys: seq<string>, values: seq<Cell>, st: Style, j: nat)
    requires |keys| == |values| && j < |keys|
    requires forall i :: 0 <= i <= j ==> keys[i] !in BoolColumns
    ensures RenderFrom(keys, values, st)[j].style == st
  {
    if j > 0 {
      RenderPrefixStyle(keys[1..], values[1..], st, j - 1);
    }
  }

  /** A row whose statuses are both 1 is green with white text in every cell,
      and one whose statuses are both 0 red, provided every status column of
      the row holds that same value. */
  lemma {:induction false} RenderAgreeing(keys: seq<string>, values: seq<Cell>, v: int)
    requires |keys| == |values| && (v == 0 || v == 1)
    requires forall i :: 0 <= i < |keys| && keys[i] in BoolColumns ==> values[i] == Int(v)
    ensures var st := if v == 1 then Style(Green, White) else Style(Red, White);
      forall i :: 0 <= i < |keys| ==> RenderFrom(keys, values, st)[i].style == st
  {
    var st := if v == 1 then Style(Green, White) else Style(Red, White);
    if |keys| > 0 {
      if keys[0] in BoolColumns {
        assert CellText(Int(v)) == NatToString(v);
        assert IsNumeric(CellText(values[0]));
      }
      assert StyleCell(keys[0], values[0], st).1 == st;
      RenderAgreeing(keys[1..], values[1..], v);
      forall i | 0 <= i < |keys| ensures RenderFrom(keys, values, st)[i].style == st {
        if i > 0 {
          assert RenderFrom(keys, values, st)[i] == RenderFrom(keys[1..], values[1..], st)[i - 1];
        }
      }
    }
  }

  // ---- the whole table (frmMain.py lines 130-181) ----

  /** Whether `load_summary` gets through the row of record `r`: both
      statuses are among the shown columns, and a text they share has a
      colour. */
  predicate RowDraws(summary: seq<string>, r: Record, l: Layout)
    requires l.passed < |r| && l.printed < |r|
  {
    "passed_test" in summary && "printed" in summary && RowStyle(r[l.passed], r[l.printed]).Some?
  }

  /** `load_summary` returns at once when no column is marked with `*`;
      otherwise it draws every record, and raises at the first one that
      `RowDraws` rejects. */
  predicate SummaryDraws(summary: seq<string>, rows: seq<Record>, l: Layout)
    requires Fits(rows, l)
  {
    summary == [] || forall k :: 0 <= k < |rows| ==> RowDraws(summary, rows[k], l)
  }

  /** Putting `id` in front of the marked columns changes neither status's
      presence. */
  lemma KeysMarked(summary: seq<string>)
    ensures ("passed_test" in ["id"] + summary) == ("passed_test" in summary)
    ensures ("printed" in ["id"] + summary) == ("printed" in summary)
  {
    assert (["id"] + summary)[1..] == summary;
  }

  /** The loop of `load_summary` over the records, with the marked columns
      `summary` shown after `id`; `false` where it raises. */
  method LoadSummary(summary: seq<string>, rows: seq<Record>, l: Layout) returns (drawn: bool)
    requires Fits(rows, l)
    ensures drawn == SummaryDraws(summary, rows, l)
  {
    if summary == [] {
      return true;
    }
    var keys := ["id"] + summary;
    KeysMarked(summary);
    var marked := "passed_test" in keys && "printed" in keys;
    var k := 0;
    while k < |rows|
      invariant 0 <= k <= |rows|
      invariant forall j :: 0 <= j < k ==> RowDraws(summary, rows[j], l)
    {
      if !marked {
        // `row['passed_test']` or `row['printed']` raises
        assert !RowDraws(summary, rows[k], l);
        return false;
      }
      if !RowDraws(summary, rows[k], l) {
        // with both statuses present, only the colour lookup can raise
        return false;
      }
      k := k + 1;
    }
    return true;
  }

  /** With both statuses marked and every status -1, 0 or 1 the table is
      drawn; with another column marked but a status unmarked, any record
      makes it raise. */
  lemma SummaryDrawsWhen(summary: seq<string>, rows: seq<Record>, l: Layout)
    requires Fits(rows, l)
    ensures ("passed_test" in summary && "printed" in summary &&
             forall k :: 0 <= k < |rows| ==> Status(rows[k][l.passed]) && Status(rows[k][l.printed])) ==>
      SummaryDraws(summary, rows, l)
    ensures summary != [] && |rows| > 0 && ("passed_test" !in summary || "printed" !in summary) ==>
      !SummaryDraws(summary, rows, l)
  {
    if "passed_test" in summary && "printed" in summary &&
       (forall k :: 0 <= k < |rows| ==> Status(rows[k][l.passed]) && Status(rows[k][l.printed])) {
      forall k | 0 <= k < |rows| ensures RowDraws(summary, rows[k], l) {
        StatusStyle(rows[k][l.passed], rows[k][l.printed]);
      }
    }
    if summary != [] && |rows| > 0 && ("passed_test" !in summary || "printed" !in summary) {
      assert !RowDraws(summary, rows[0], l);
    }
  }

  /** A status value the program writes: -1, 0 or 1. */
  predicate Status(c: Cell) {
    c == Int(-1) || c == Int(0) || c == Int(1)
  }

  lemma StatusStyle(p: Cell, q: Cell)
    requires Status(p) && Status(q)
    ensures RowStyle(p, q).Some?
  {
    assert CellText(Int(-1)) == "-1" by { IntToStringMinusOne(-1); }
    assert CellText(Int(0)) == "0" && CellText(Int(1)) == "1";
  }

  // ---- automatic selection (frmMain.py lines 204-263) ----

  /** Python's `x in items`. */
  predicate PyIn(x: Cell, items: seq<Cell>) {
    exists i :: 0 <= i < |items| && PyEq(items[i], x)
  }

  /** A remembered value counts only when it is among the available ids. */
  function Effective(pre: Option<Cell>, available: seq<Cell>): (r: Option<Cell>)
    ensures r.Some? ==> PyIn(r.value, available)
  {
    if pre.Some? && PyIn(pre.value, available) then pre else None
  }

  /** The row test at line 260: the remembered id if it is still available,
      otherwise any available id. */
  predicate WantedRow(id: Cell, pre: Option<Cell>, available: seq<Cell>) {
    var p := Effective(pre, available);
    (p.Some? && PyEq(p.value, id)) || (p.None? && PyIn(id, available))
  }

  /** The first row of `model` that `WantedRow` accepts; `FirstWantedSpec`
      states what the row found satisfies. */
  function FirstWanted(ids: seq<Cell>, models: seq<Cell>, model: Cell, pre: Option<Cell>,
                       available: seq<Cell>): (r: Option<nat>)
    requires |ids| == |models|
    ensures r.Some? ==> r.value < |ids|
  {
    if |ids| == 0 then None
    else if PyEq(model, models[0]) && WantedRow(ids[0], pre, available) then Some(0)
    else match FirstWanted(ids[1..], models[1..], model, pre, available)
      case None => None
      case Some(k) => Some(k + 1)
  }

  /** `model_clicked`'s selection loop: the rows of the summary table, each
      with its id and model, and the first wanted row of the clicked model is
      selected. */
  method SelectRow(ids: seq<Cell>, models: seq<Cell>, model: Cell, pre: Option<Cell>,
                   available: seq<Cell>) returns (selected: Option<nat>)
    requires |ids| == |models|
    ensures selected == FirstWanted(ids, models, model, pre, available)
  {
    var preselected := Effective(pre, available);
    selected := None;
    var row := 0;
    while row < |ids|
      invariant 0 <= row <= |ids|
      invariant selected.None? ==> (FirstWanted(ids, models, model, pre, available) ==
        match FirstWanted(ids[row..], models[row..], model, pre, available)
        case None => None
        case Some(k) => Some(k + row))
      invariant selected.Some? ==> selected == FirstWanted(ids, models, model, pre, available)
    {
      FirstWantedStep(ids, models, model, pre, available, row);
      if PyEq(model, models[row]) && selected.None? &&
         ((preselected.Some? && PyEq(preselected.value, ids[row])) || (preselected.None? && PyIn(ids[row], available))) {
        selected := Some(row);
      }
      row := row + 1;
    }
    assert ids[row..] == [];
  }

  lemma FirstWantedStep(ids: seq<Cell>, models: seq<Cell>, model: Cell, pre: Option<Cell>,
                        available: seq<Cell>, row: nat)
    requires |ids| == |models| && row < |ids|
    ensures FirstWanted(ids[row..], models[row..], model, pre, available) ==
      if PyEq(model, models[row]) && WantedRow(ids[row], pre, available) then Some(0)
      else match FirstWanted(ids[row + 1..], models[row + 1..], model, pre, available)
        case None => None
        case Some(k) => Some(k + 1)
  {
    assert ids[row..][1..] == ids[row + 1..];
    assert models[row..][1..] == models[row + 1..];
  }

  /** The selected row belongs to the clicked model, carries an available id,
      is the remembered record when that one is still available, and no
      earlier row of the model qualifies; nothing is selected only when no
      row qualifies. */
  lemma {:induction false} FirstWantedSpec(ids: seq<Cell>, models: seq<Cell>, model: Cell,
                                           pre: Option<Cell>, available: seq<Cell>)
    requires |ids| == |models|
    ensures var r := FirstWanted(ids, models, model, pre, available);
      (r.Some? ==> PyEq(model, models[r.value]) && PyIn(ids[r.value], available) &&
                   (Effective(pre, available).Some? ==> PyEq(Effective(pre, available).value, ids[r.value])) &&
                   forall k :: 0 <= k < r.value ==> !(PyEq(model, models[k]) && WantedRow(ids[k], pre, available))) &&
      (r.None? ==> forall k :: 0 <= k < |ids| ==> !(PyEq(model, models[k]) && WantedRow(ids[k], pre, available)))
  {
    if |ids| > 0 {
      FirstWantedSpec(ids[1..], models[1..], model, pre, available);
      var r := FirstWanted(ids, models, model, pre, available);
      if r.Some? && r.value > 0 {
        assert ids[r.value] == ids[1..][r.value - 1];
        assert models[r.value] == models[1..][r.value - 1];
        forall k | 1 <= k < r.value
          ensures !(PyEq(model, models[k]) && WantedRow(ids[k], pre, available))
        {
          assert ids[k] == ids[1..][k - 1] && models[k] == models[1..][k - 1];
        }
      }
      if r.None? {
        forall k | 1 <= k < |ids|
          ensures !(PyEq(model, models[k]) && WantedRow(ids[k], pre, available))
        {
          assert ids[k] == ids[1..][k - 1] && models[k] == models[1..][k - 1];
        }
      }
      if r == Some(0) {
        var e := Effective(pre, available);
        if e.Some? {
          var i :| 0 <= i < |available| && PyEq(available[i], e.value);
          assert PyEq(available[i], ids[0]);
        }
      }
    }
  }

  /** A model group with one finished record and one still to be done, and
      no remembered record: clicking the group selects the unfinished one. */
  lemma SelectsUnfinished(done: Cell, open: Cell, model: Cell, layout: Layout, doneRow: Record, openRow: Record)
    requires !done.Blank? && !open.Blank? && !model.Blank? && done != open
    requires layout == Layout(0, 1, 2, 3, 4)
    requires doneRow == [done, model, Int(1), Int(1), Int(1)]
    requires openRow == [open, model, Int(1), Int(-1), Int(-1)]
    ensures var rows := [doneRow, openRow];
      AvailableIds(rows, layout, model) == [open] &&
      FirstWanted([done, open], [model, model], model, None, AvailableIds(rows, layout, model)) == Some(1)
  {
    var rows := [doneRow, openRow];
    assert Done(doneRow, layout) && !Done(openRow, layout);
    assert rows[1..] == [openRow] && rows[1..][1..] == [];
    assert InModel(doneRow, layout, model) && InModel(openRow, layout, model);
    assert AvailableIds(rows[1..][1..], layout, model) == [];
    assert AvailableIds(rows[1..], layout, model) == [open];
    assert AvailableIds(rows, layout, model) == [open];
    assert !PyIn(done, [open]);
    assert PyEq([open][0], open);
    assert [done, open][1..] == [open];
    assert [model, model][1..] == [model];
  }

  /** The test at lines 216-219 for the button of `model`: it is the
      remembered model, if that one survives the test at line 217, or any
      model with an available record when none survives. */
  predicate Clicks(model: Cell, rows: seq<Record>, l: Layout, preModel: Option<Cell>)
    requires Fits(rows, l)
  {
    var available := AvailableIds(rows, l, model);
    var p := Effective(preModel, available);
    (p.Some? && PyEq(model, p.value)) || (p.None? && |available| > 0)
  }

  /** `create_model_buttons`' choice of the model button to click: the
      first button whose model passes `Clicks`, if any. */
  function FirstClicked(models: seq<Cell>, rows: seq<Record>, l: Layout, preModel: Option<Cell>): (r: Option<nat>)
    requires Fits(rows, l)
    ensures r.Some? ==> r.value < |models| && Clicks(models[r.value], rows, l, preModel)
    ensures r.Some? ==> forall k :: 0 <= k < r.value ==> !Clicks(models[k], rows, l, preModel)
    ensures r.None? ==> forall k :: 0 <= k < |models| ==> !Clicks(models[k], rows, l, preModel)
  {
    if |models| == 0 then None
    else if Clicks(models[0], rows, l, preModel) then Some(0)
    else match FirstClicked(models[1..], rows, l, preModel)
        case None => None
        case Some(k) => Some(k + 1)
  }

  /** The button loop of `create_model_buttons`. */
  method ClickModelButton(models: seq<Cell>, rows: seq<Record>, l: Layout, preModel: Option<Cell>)
    returns (clicked: Option<nat>)
    requires Fits(rows, l)
    ensures clicked == FirstClicked(models, rows, l, preModel)
  {
    clicked := None;
    var index := 0;
    while index < |models|
      invariant 0 <= index <= |models|
      invariant clicked.None? ==> forall k :: 0 <= k < index ==> !Clicks(models[k], rows, l, preModel)
      invariant clicked.Some? ==> clicked.value < index && Clicks(models[clicked.value], rows, l, preModel)
      invariant clicked.Some? ==> forall k :: 0 <= k < clicked.value ==> !Clicks(models[k], rows, l, preModel)
    {
      var model := models[index];
      var available := AvailableIds(rows, l, model);
      var preselected := Effective(preModel, available);
      if clicked.None? && ((preselected.Some? && PyEq(model, preselected.value)) ||
                           (preselected.None? && |available| > 0)) {
        clicked := Some(index);
      }
      index := index + 1;
    }
    var first := FirstClicked(models, rows, l, preModel);
    if clicked.Some? && first.Some? {
      assert !(first.value < clicked.value) && !(clicked.value < first.value);
    }
  }

  /** The remembered model name is looked up among record ids (line 217).
      While it never equals an available id, as when names are strings and
      ids integers, it is ignored and the first model with an available record
      is clicked. */
  lemma {:induction false} PreselectedModelIgnored(models: seq<Cell>, rows: seq<Record>, l: Layout, name: Cell)
    requires Fits(rows, l)
    requires forall m :: m in models ==> !PyIn(name, AvailableIds(rows, l, m))
    ensures FirstClicked(models, rows, l, Some(name)) == FirstClicked(models, rows, l, None)
    ensures var r := FirstClicked(models, rows, l, Some(name));
      (r.Some? ==> |AvailableIds(rows, l, models[r.value])| > 0 &&
                   forall k :: 0 <= k < r.value ==> |AvailableIds(rows, l, models[k])| == 0) &&
      (r.None? ==> forall k :: 0 <= k < |models| ==> |AvailableIds(rows, l, models[k])| == 0)
  {
    if |models| > 0 {
      assert models[0] in models;
      forall m | m in models[1..] ensures !PyIn(name, AvailableIds(rows, l, m)) {
        assert m in models;
      }
      PreselectedModelIgnored(models[1..], rows, l, name);
      var r := FirstClicked(models, rows, l, Some(name));
      if r.Some? && r.value > 0 {
        assert models[r.value] == models[1..][r.value - 1];
        forall k | 1 <= k < r.value ensures |AvailableIds(rows, l, models[k])| == 0 {
          assert models[k] == models[1..][k - 1];
        }
      }
      if r.None? {
        forall k | 1 <= k < |models| ensures |AvailableIds(rows, l, models[k])| == 0 {
          assert models[k] == models[1..][k - 1];
        }
      }
    }
  }

  // ---- flash and print buttons (frmMain.py lines 184-193) ----

  /** The enabled states of the flash and print buttons after a record is
      selected: flashing is offered until the record passed inspection, then
      printing until it was printed; a finished record leaves both as they
      were. */
  function ButtonsAfterSelect(passed: Cell, printed: Cell, flash: bool, printing: bool): (r: (bool, bool))
    ensures !PyEq(passed, Int(1)) ==> r == (true, false)
    ensures PyEq(passed, Int(1)) && !PyEq(printed, Int(1)) ==> r == (false, true)
    ensures PyEq(passed, Int(1)) && PyEq(printed, Int(1)) ==> r == (flash, printing)
  {
    if !PyEq(passed, Int(1)) then (true, false)
    else if !PyEq(printed, Int(1)) then (false, true)
    else (flash, printing)
  }
}
