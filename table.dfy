/** The per-device record table of the burner: what `read_data_csv` makes of
    the CSV file (defaults filled in, `*` summary markers stripped from the
    column names), what `persist_data_csv` writes back, the eligibility
    filter behind the model buttons, and the single-field update. */
module RecordTable {
  import opened Wrappers
  import opened Text

  /** One cell as pandas holds it: NaN, an integer or a string. */
  datatype Cell = Blank | Int(i: int) | Str(s: string)

  /** Python's `str(value)`; NaN prints as "nan". */
  function CellText(c: Cell): string {
    match c
    case Blank => "nan"
    case Int(i) => IntToString(i)
    case Str(s) => s
  }

  /** Python's `==` between two cells: NaN equals nothing, not even NaN, and
      an integer never equals a string. */
  predicate PyEq(a: Cell, b: Cell) {
    a == b && !a.Blank?
  }

  type Record = seq<Cell>

  /** The pandas frame: column names and rows of cells, one per column. */
  datatype Table = Table(columns: seq<string>, rows: seq<Record>) {
    predicate Rectangular() {
      forall k :: 0 <= k < |rows| ==> |rows[k]| == |columns|
    }
  }

  /** One row of `hex_map.csv`: a flash address and either a shared image
      file name or the name of the record column holding the image path. */
  datatype HexEntry = HexEntry(hex: string, sw: string)

  /** The shared images, named literally in the hex map (frmMain.py line 17). */
  const CommonBins: seq<string> := ["a.bin", "b.bin", "c.bin", "d.bin"]

  datatype LoadError = BadValue | MissingColumn(name: string)

  /** Position of the first column called `name`. */
  function ColumnIndex(columns: seq<string>, name: string): (r: Option<nat>)
    ensures r.Some? ==> r.value < |columns| && columns[r.value] == name
    ensures r.Some? ==> forall j :: 0 <= j < r.value ==> columns[j] != name
    ensures r.None? <==> name !in columns
  {
    if |columns| == 0 then None
    else if columns[0] == name then Some(0)
    else match ColumnIndex(columns[1..], name)
      case None => None
      case Some(j) => Some(j + 1)
  }

  // ---- fill_nans (frmMain.py lines 100-107) ----

  /** `name` is one of the variants `col` or `col*` that `fill_nans` looks for. */
  predicate Matches(name: string, col: string) {
    name == col || name == col + "*"
  }

  predicate IsTarget(name: string, cols: seq<string>) {
    exists i :: 0 <= i < |cols| && Matches(name, cols[i])
  }

  /** `fillna(val)` followed by `astype(type(val))` on one cell: a NaN becomes
      `val`; a string target turns every value into its `str`, an integer
      target parses strings with `int` and fails on anything else. */
  function Filled(c: Cell, val: Cell): Option<Cell> {
    var f := if c.Blank? then val else c;
    if val.Int? then
      match f
      case Int(i) => Some(Int(i))
      case Str(s) => (match ParseInt(s) case Some(i) => Some(Int(i)) case None => None)
      case Blank => None
    else Some(Str(CellText(f)))
  }

  /** The frame after `fill_nans(cols, val)`, or the error `astype` raises. */
  function FillSpec(t: Table, cols: seq<string>, val: Cell): (r: Result<Table, LoadError>)
    requires t.Rectangular()
    ensures r.Success? ==> r.value.columns == t.columns && |r.value.rows| == |t.rows| && r.value.Rectangular()
  {
    if exists k, j :: 0 <= k < |t.rows| && 0 <= j < |t.columns| &&
                      IsTarget(t.columns[j], cols) && Filled(t.rows[k][j], val).None?
    then Failure(BadValue)
    else Success(Table(t.columns, seq(|t.rows|, k requires 0 <= k < |t.rows| =>
      seq(|t.columns|, j requires 0 <= j < |t.columns| =>
        if IsTarget(t.columns[j], cols) then Filled(t.rows[k][j], val).value else t.rows[k][j]))))
  }

  /** `fill_nans`: collects the column names to fill, then fills and casts
      them in one go. */
  method FillNans(data: Table, cols: seq<string>, val: Cell) returns (r: Result<Table, LoadError>)
    requires data.Rectangular()
    ensures r == FillSpec(data, cols, val)
  {
    var values: seq<string> := [];
    var i := 0;
    while i < |cols|
      invariant 0 <= i <= |cols|
      invariant forall name :: name in values <==> name in data.columns && IsTarget(name, cols[..i])
    {
      var col := cols[i];
      var variants := [col, col + "*"];
      var v := 0;
      ghost var before := values;
      while v < 2
        invariant 0 <= v <= 2
        invariant forall name :: name in values <==>
          name in before || (name in data.columns && name in variants[..v])
      {
        if variants[v] in data.columns {
          values := values + [variants[v]];
        }
        v := v + 1;
      }
      forall name
        ensures name in values <==> name in data.columns && IsTarget(name, cols[..i + 1])
      {
        assert cols[..i + 1][i] == col;
        assert variants[..2] == variants;
        if IsTarget(name, cols[..i + 1]) && !Matches(name, col) {
          var m :| 0 <= m < i + 1 && Matches(name, cols[..i + 1][m]);
          assert cols[..i][m] == cols[..i + 1][m];
        }
        if IsTarget(name, cols[..i]) {
          var m :| 0 <= m < i && Matches(name, cols[..i][m]);
          assert cols[..i + 1][m] == cols[..i][m];
        }
      }
      i := i + 1;
    }
    assert cols[..i] == cols;
    var hit := seq(|data.columns|, j requires 0 <= j < |data.columns| => data.columns[j] in values);
    assert forall j :: 0 <= j < |data.columns| ==> hit[j] == IsTarget(data.columns[j], cols);
    if exists k, j :: 0 <= k < |data.rows| && 0 <= j < |data.columns| &&
                      hit[j] && Filled(data.rows[k][j], val).None? {
      ghost var k, j :| 0 <= k < |data.rows| && 0 <= j < |data.columns| &&
                        hit[j] && Filled(data.rows[k][j], val).None?;
      assert IsTarget(data.columns[j], cols);
      r := Failure(BadValue);
    } else {
      r := Success(Table(data.columns, seq(|data.rows|, k requires 0 <= k < |data.rows| =>
        seq(|data.columns|, j requires 0 <= j < |data.columns| =>
          if hit[j] then Filled(data.rows[k][j], val).value else data.rows[k][j]))));
      var spec := FillSpec(data, cols, val);
      assert spec.Success?;
      forall k | 0 <= k < |data.rows| ensures r.value.rows[k] == spec.value.rows[k] {
        assert forall j :: 0 <= j < |data.columns| ==> r.value.rows[k][j] == spec.value.rows[k][j];
      }
      assert r.value.rows == spec.value.rows;
    }
  }

  // ---- read_data_csv (frmMain.py lines 99-122) ----

  /** The image-path columns of the hex map. The filter at line 109 tests the
      whole hex-map record against `common_bins`, which never matches, so the
      shared image names are kept too. */
  function SwNames(hexMap: seq<HexEntry>): (r: seq<string>)
    ensures |r| == |hexMap| && forall i :: 0 <= i < |r| ==> r[i] == hexMap[i].sw
  {
    seq(|hexMap|, i requires 0 <= i < |hexMap| => hexMap[i].sw)
  }

  const StatusColumns: seq<string> := ["passed_test", "printed"]

  /** `column.replace('*', '')`. */
  function StripMarker(name: string): string {
    Replace(name, "*", "")
  }

  function StripAll(names: seq<string>): (r: seq<string>)
    ensures |r| == |names| && forall j :: 0 <= j < |names| ==> r[j] == StripMarker(names[j])
  {
    seq(|names|, j requires 0 <= j < |names| => StripMarker(names[j]))
  }

  /** Column positions of the fields the cycle reads and writes. */
  datatype Layout = Layout(id: nat, model: nat, burned: nat, passed: nat, printed: nat)

  /** The positions of the fields `id`, `model`, `burned`, `passed_test` and
      `printed`, when all of them are present. */
  function LayoutOf(columns: seq<string>): (r: Option<Layout>)
    ensures r.Some? ==> LayoutFits(r.value, columns)
  {
    match (ColumnIndex(columns, "id"), ColumnIndex(columns, "model"), ColumnIndex(columns, "burned"),
           ColumnIndex(columns, "passed_test"), ColumnIndex(columns, "printed"))
    case (Some(i), Some(m), Some(b), Some(p), Some(q)) => Some(Layout(i, m, b, p, q))
    case _ => None
  }

  predicate LayoutFits(l: Layout, columns: seq<string>) {
    l.id < |columns| && l.model < |columns| && l.burned < |columns| &&
    l.passed < |columns| && l.printed < |columns| &&
    columns[l.id] == "id" && columns[l.model] == "model" && columns[l.burned] == "burned" &&
    columns[l.passed] == "passed_test" && columns[l.printed] == "printed"
  }

  function FirstMissing(columns: seq<string>): string {
    if "id" !in columns then "id"
    else if "model" !in columns then "model"
    else if "burned" !in columns then "burned"
    else if "passed_test" !in columns then "passed_test"
    else "printed"
  }

  /** What loading a CSV leaves in memory. */
  datatype Loaded = Loaded(table: Table, orig: seq<string>, layout: Layout)

  /** `read_data_csv` from the parsed file to the in-memory frame: image-path
      blanks become '', `burned` blanks 0, status blanks -1; then the `*`
      markers are dropped from the column names. */
  function LoadSpec(raw: Table, hexMap: seq<HexEntry>): (r: Result<Loaded, LoadError>)
    requires raw.Rectangular()
    ensures r.Success? ==> r.value.orig == raw.columns && r.value.table.Rectangular()
    ensures r.Success? ==> r.value.table.columns == StripAll(raw.columns)
    ensures r.Success? ==> |r.value.table.rows| == |raw.rows|
    ensures r.Success? ==> LayoutFits(r.value.layout, r.value.table.columns)
    ensures r.Success? ==> LayoutOf(r.value.table.columns) == Some(r.value.layout)
  {
    match FillSpec(raw, SwNames(hexMap), Str(""))
    case Failure(e) => Failure(e)
    case Success(t1) =>
      match FillSpec(t1, ["burned"], Int(0))
      case Failure(e) => Failure(e)
      case Success(t2) =>
        match FillSpec(t2, StatusColumns, Int(-1))
        case Failure(e) => Failure(e)
        case Success(t3) =>
          var columns := StripAll(t3.columns);
          match LayoutOf(columns)
          case None => Failure(MissingColumn(FirstMissing(columns)))
          case Some(l) => Success(Loaded(Table(columns, t3.rows), t3.columns, l))
  }

  /** After loading, a blank status cell is -1, a blank `burned` cell is 0
      and a blank image-path cell is '', under the plain and the `*` name. */
  lemma LoadDefaults(raw: Table, hexMap: seq<HexEntry>, k: nat, j: nat)
    requires raw.Rectangular() && k < |raw.rows| && j < |raw.columns|
    requires raw.rows[k][j] == Blank
    requires LoadSpec(raw, hexMap).Success?
    ensures var t := LoadSpec(raw, hexMap).value.table;
      (IsTarget(raw.columns[j], StatusColumns) ==> t.rows[k][j] == Int(-1)) &&
      (Matches(raw.columns[j], "burned") ==> t.rows[k][j] == Int(0)) &&
      ((IsTarget(raw.columns[j], SwNames(hexMap)) && !Matches(raw.columns[j], "burned") &&
        !IsTarget(raw.columns[j], StatusColumns)) ==> t.rows[k][j] == Str(""))
  {
    var t1 := FillSpec(raw, SwNames(hexMap), Str("")).value;
    var t2 := FillSpec(t1, ["burned"], Int(0)).value;
    var t3 := FillSpec(t2, StatusColumns, Int(-1)).value;
    assert LoadSpec(raw, hexMap).value.table.rows[k][j] == t3.rows[k][j];
    FillDefaults(raw, SwNames(hexMap), k, j);
  }

  /** `LoadDefaults` for the three `fill_nans` calls in a row. */
  lemma FillDefaults(raw: Table, sw: seq<string>, k: nat, j: nat)
    requires raw.Rectangular() && k < |raw.rows| && j < |raw.columns|
    requires raw.rows[k][j] == Blank
    requires FillSpec(raw, sw, Str("")).Success?
    requires FillSpec(FillSpec(raw, sw, Str("")).value, ["burned"], Int(0)).Success?
    requires FillSpec(FillSpec(FillSpec(raw, sw, Str("")).value, ["burned"], Int(0)).value, StatusColumns, Int(-1)).Success?
    ensures var t := FillSpec(FillSpec(FillSpec(raw, sw, Str("")).value, ["burned"], Int(0)).value, StatusColumns, Int(-1)).value;
      (IsTarget(raw.columns[j], StatusColumns) ==> t.rows[k][j] == Int(-1)) &&
      (Matches(raw.columns[j], "burned") ==> t.rows[k][j] == Int(0)) &&
      ((IsTarget(raw.columns[j], sw) && !Matches(raw.columns[j], "burned") &&
        !IsTarget(raw.columns[j], StatusColumns)) ==> t.rows[k][j] == Str(""))
  {
    var name := raw.columns[j];
    var t1 := FillSpec(raw, sw, Str("")).value;
    var t2 := FillSpec(t1, ["burned"], Int(0)).value;
    FillSpecAt(raw, sw, Str(""), k, j);
    FillSpecAt(t1, ["burned"], Int(0), k, j);
    FillSpecAt(t2, StatusColumns, Int(-1), k, j);
    StatusNames(name);
    var c1 := t1.rows[k][j];
    assert c1 == Blank || c1 == Str("");
    assert ParseInt("") == None;
  }

  /** The cell a successful `fill_nans` leaves at row `k`, column `j`. */
  lemma FillSpecAt(t: Table, cols: seq<string>, val: Cell, k: nat, j: nat)
    requires t.Rectangular() && k < |t.rows| && j < |t.columns|
    requires FillSpec(t, cols, val).Success?
    ensures IsTarget(t.columns[j], cols) ==> Filled(t.rows[k][j], val).Some?
    ensures FillSpec(t, cols, val).value.rows[k][j] ==
      if IsTarget(t.columns[j], cols) then Filled(t.rows[k][j], val).value else t.rows[k][j]
  {
  }

  /** Which of the `fill_nans` name lists a column name belongs to. */
  lemma StatusNames(name: string)
    ensures IsTarget(name, ["burned"]) <==> Matches(name, "burned")
    ensures IsTarget(name, StatusColumns) <==> Matches(name, "passed_test") || Matches(name, "printed")
    ensures Matches(name, "burned") ==> !IsTarget(name, StatusColumns)
  {
    if Matches(name, "burned") { assert Matches(name, ["burned"][0]); }
    if Matches(name, "passed_test") { assert Matches(name, StatusColumns[0]); }
    if Matches(name, "printed") { assert Matches(name, StatusColumns[1]); }
    if Matches(name, "burned") {
      assert name == "burned" || name == "burned*";
    }
  }

  // ---- summary columns (frmMain.py lines 114-128) ----

  /** `get_summary_columns`: the marked columns, in order, under their
      in-memory names. */
  function SummaryColumns(orig: seq<string>): seq<string> {
    if |orig| == 0 then []
    else (if Contains(orig[0], "*") then [StripMarker(orig[0])] else []) + SummaryColumns(orig[1..])
  }

  /** The summary columns are exactly the in-memory names of the marked
      columns. */
  lemma {:induction false} SummaryColumnsMarked(orig: seq<string>, name: string)
    ensures name in SummaryColumns(orig) <==>
      exists j :: 0 <= j < |orig| && Contains(orig[j], "*") && StripMarker(orig[j]) == name
  {
    if |orig| > 0 {
      SummaryColumnsMarked(orig[1..], name);
      if exists j :: 0 <= j < |orig[1..]| && Contains(orig[1..][j], "*") && StripMarker(orig[1..][j]) == name {
        var j :| 0 <= j < |orig[1..]| && Contains(orig[1..][j], "*") && StripMarker(orig[1..][j]) == name;
        assert orig[j + 1] == orig[1..][j];
      }
      if exists j :: 0 <= j < |orig| && Contains(orig[j], "*") && StripMarker(orig[j]) == name {
        var j :| 0 <= j < |orig| && Contains(orig[j], "*") && StripMarker(orig[j]) == name;
        if j > 0 { assert orig[1..][j - 1] == orig[j]; }
      }
    }
  }

  /** Stripping leaves no marker behind, and an unmarked name is kept as is. */
  lemma {:induction false} StripMarkerSpec(name: string)
    ensures !Contains(StripMarker(name), "*")
    ensures !Contains(name, "*") ==> StripMarker(name) == name
    decreases |name|
  {
    if !Contains(name, "*") { ReplaceAbsent(name, "*", ""); }
    if |name| > 0 {
      StripMarkerSpec(name[1..]);
      assert name[..1] == [name[0]];
      var rest := StripMarker(name[1..]);
      if name[0] != '*' {
        assert StripMarker(name) == [name[0]] + rest;
        if Contains([name[0]] + rest, "*") {
          var i :| 0 <= i <= |[name[0]] + rest| && OccursAt([name[0]] + rest, "*", i);
          assert i > 0;
          assert rest[i - 1..i] == "*";
          assert OccursAt(rest, "*", i - 1);
        }
      } else {
        assert name[..1] == "*";
        assert StripMarker(name) == "" + rest == rest;
        assert OccursAt(name, "*", 0);
      }
    }
  }

  /** Marking a column with a trailing `*` gives the same in-memory name. */
  lemma {:induction false} StripMarkerTrailing(name: string)
    ensures StripMarker(name + "*") == StripMarker(name)
    decreases |name|
  {
    var s := name + "*";
    if |name| == 0 {
      assert StripMarker("*") == "" + StripMarker("");
    } else {
      StripMarkerTrailing(name[1..]);
      assert s[..1] == name[..1] == [name[0]];
      assert s[1..] == name[1..] + "*";
    }
  }

  // ---- persist_data_csv (frmMain.py lines 431-439) ----

  /** The file image `to_csv` writes: a header and the cell texts. */
  datatype Csv = Csv(header: seq<string>, lines: seq<seq<string>>)

  /** `astype(str)` then `replace('-1', '')` on one cell. */
  function PersistCell(c: Cell): string {
    if CellText(c) == "-1" then "" else CellText(c)
  }

  /** `persist_data_csv`: every cell as text with "-1" left empty, under the
      original (marked) column names. */
  function Persist(t: Table, orig: seq<string>): (r: Csv)
    ensures r.header == orig && |r.lines| == |t.rows|
    ensures forall k :: 0 <= k < |t.rows| ==> |r.lines[k]| == |t.rows[k]|
  {
    Csv(orig, seq(|t.rows|, k requires 0 <= k < |t.rows| =>
      seq(|t.rows[k]|, j requires 0 <= j < |t.rows[k]| => PersistCell(t.rows[k][j]))))
  }

  /** The strings `read_csv` reads as NaN by default. */
  const NaTokens: set<string> := {"", "#N/A", "#N/A N/A", "#NA", "-1.#IND", "-1.#QNAN", "-NaN",
    "-nan", "1.#IND", "1.#QNAN", "<NA>", "N/A", "NA", "NULL", "NaN", "None", "n/a", "nan", "null"}

  /** How `read_csv` reads one field: a NaN token is NaN, a decimal integer an
      integer, anything else a string. */
  function ReadCell(s: string): Cell {
    match ParseInt(s)
    case Some(i) => Int(i)
    case None => if s in NaTokens then Blank else Str(s)
  }

  function ReadCsv(f: Csv): (t: Table)
    ensures t.columns == f.header && |t.rows| == |f.lines|
  {
    Table(f.header, seq(|f.lines|, k requires 0 <= k < |f.lines| =>
      seq(|f.lines[k]|, j requires 0 <= j < |f.lines[k]| => ReadCell(f.lines[k][j]))))
  }

  /** A status value survives a save and a reload: -1 (written as an empty
      field, whether stored as the integer or as the string '-1') comes back as
      -1, any other integer as itself. */
  lemma StatusRoundTrip(c: Cell)
    requires c.Int? || c == Str("-1")
    ensures Filled(ReadCell(PersistCell(c)), Int(-1)) ==
      Some(if c == Str("-1") then Int(-1) else c)
  {
    if c.Int? {
      IntToStringMinusOne(c.i);
      ParseIntToString(c.i);
    }
  }

  /** The `burned` count survives a save and a reload, except -1, which is
      written as an empty field and comes back as the default 0. */
  lemma BurnedRoundTrip(n: int)
    ensures Filled(ReadCell(PersistCell(Int(n))), Int(0)) == Some(Int(if n == -1 then 0 else n))
  {
    IntToStringMinusOne(n);
    ParseIntToString(n);
  }

  lemma FillSpecSucceeds(t: Table, cols: seq<string>, val: Cell)
    requires t.Rectangular()
    requires forall k, j :: 0 <= k < |t.rows| && 0 <= j < |t.columns| && IsTarget(t.columns[j], cols) ==>
      Filled(t.rows[k][j], val).Some?
    ensures FillSpec(t, cols, val).Success?
  {
  }

  /** What a loaded table keeps in its status and `burned` columns: integers,
      or the string '-1' that the failure paths write. */
  predicate StatusCellsOk(t: Table, orig: seq<string>, hexMap: seq<HexEntry>)
    requires t.Rectangular() && |orig| == |t.columns|
  {
    forall j :: 0 <= j < |orig| ==>
      (IsTarget(orig[j], SwNames(hexMap)) ==> !Matches(orig[j], "burned") && !IsTarget(orig[j], StatusColumns)) &&
      (Matches(orig[j], "burned") ==> forall k :: 0 <= k < |t.rows| ==> t.rows[k][j].Int? && t.rows[k][j].i != -1) &&
      (IsTarget(orig[j], StatusColumns) ==> forall k :: 0 <= k < |t.rows| ==>
         t.rows[k][j].Int? || t.rows[k][j] == Str("-1"))
  }

  /** Saving and reloading gives back the same column names (with and
      without markers) and the same status values, the string '-1' coming
      back as the integer -1. */
  lemma ReloadRestores(t: Table, orig: seq<string>, hexMap: seq<HexEntry>)
    requires t.Rectangular() && |orig| == |t.columns| && t.columns == StripAll(orig)
    requires LayoutOf(t.columns).Some?
    requires StatusCellsOk(t, orig, hexMap)
    ensures var f := ReadCsv(Persist(t, orig));
      f.Rectangular() && LoadSpec(f, hexMap).Success? &&
      var l := LoadSpec(f, hexMap).value;
      l.orig == orig && l.table.columns == t.columns && |l.table.rows| == |t.rows| &&
      forall k, j :: (0 <= k < |t.rows| && 0 <= j < |orig| &&
                      (Matches(orig[j], "burned") || IsTarget(orig[j], StatusColumns))) ==>
        l.table.rows[k][j] == (if t.rows[k][j] == Str("-1") then Int(-1) else t.rows[k][j])
  {
    var f := ReadCsv(Persist(t, orig));
    var t1 := ReloadImagePaths(t, orig, hexMap);
    var t2 := ReloadBurned(t, orig, hexMap, t1);
    var t3 := ReloadStatus(t, orig, hexMap, t2);
    assert LoadSpec(f, hexMap) == Success(Loaded(Table(StripAll(t3.columns), t3.rows), t3.columns,
      LayoutOf(StripAll(t3.columns)).value));
  }

  /** Reloading, first `fill_nans` call: it succeeds and leaves every column
      that is not an image path as `read_csv` gave it. */
  lemma ReloadImagePaths(t: Table, orig: seq<string>, hexMap: seq<HexEntry>) returns (t1: Table)
    requires t.Rectangular() && |orig| == |t.columns|
    ensures ReadCsv(Persist(t, orig)).Rectangular()
    ensures FillSpec(ReadCsv(Persist(t, orig)), SwNames(hexMap), Str("")) == Success(t1)
    ensures t1.Rectangular() && t1.columns == orig && |t1.rows| == |t.rows|
    ensures forall k, j :: 0 <= k < |t.rows| && 0 <= j < |orig| && !IsTarget(orig[j], SwNames(hexMap)) ==>
      t1.rows[k][j] == ReadCell(PersistCell(t.rows[k][j]))
  {
    var f := ReadCsv(Persist(t, orig));
    FillSpecSucceeds(f, SwNames(hexMap), Str(""));
    t1 := FillSpec(f, SwNames(hexMap), Str("")).value;
    forall k, j | 0 <= k < |t.rows| && 0 <= j < |orig| && !IsTarget(orig[j], SwNames(hexMap))
      ensures t1.rows[k][j] == ReadCell(PersistCell(t.rows[k][j]))
    {
      FillSpecAt(f, SwNames(hexMap), Str(""), k, j);
    }
  }

  /** Reloading, second call: every `burned` count comes back. */
  lemma ReloadBurned(t: Table, orig: seq<string>, hexMap: seq<HexEntry>, t1: Table) returns (t2: Table)
    requires t.Rectangular() && |orig| == |t.columns| && StatusCellsOk(t, orig, hexMap)
    requires t1.Rectangular() && t1.columns == orig && |t1.rows| == |t.rows|
    requires forall k, j :: 0 <= k < |t.rows| && 0 <= j < |orig| && !IsTarget(orig[j], SwNames(hexMap)) ==>
      t1.rows[k][j] == ReadCell(PersistCell(t.rows[k][j]))
    ensures FillSpec(t1, ["burned"], Int(0)) == Success(t2)
    ensures t2.Rectangular() && t2.columns == orig && |t2.rows| == |t.rows|
    ensures forall k, j :: 0 <= k < |t.rows| && 0 <= j < |orig| && !IsTarget(orig[j], SwNames(hexMap)) ==>
      t2.rows[k][j] == if Matches(orig[j], "burned") then t.rows[k][j] else ReadCell(PersistCell(t.rows[k][j]))
  {
    forall k, j | 0 <= k < |t.rows| && 0 <= j < |orig| && IsTarget(orig[j], ["burned"])
      ensures Filled(t1.rows[k][j], Int(0)) == Some(t.rows[k][j])
    {
      StatusNames(orig[j]);
      BurnedRoundTrip(t.rows[k][j].i);
    }
    FillSpecSucceeds(t1, ["burned"], Int(0));
    t2 := FillSpec(t1, ["burned"], Int(0)).value;
    forall k, j | 0 <= k < |t.rows| && 0 <= j < |orig| && !IsTarget(orig[j], SwNames(hexMap))
      ensures t2.rows[k][j] == if Matches(orig[j], "burned") then t.rows[k][j] else ReadCell(PersistCell(t.rows[k][j]))
    {
      StatusNames(orig[j]);
      FillSpecAt(t1, ["burned"], Int(0), k, j);
    }
  }

  /** Reloading, third call: every status value comes back, '-1' as -1. */
  lemma ReloadStatus(t: Table, orig: seq<string>, hexMap: seq<HexEntry>, t2: Table) returns (t3: Table)
    requires t.Rectangular() && |orig| == |t.columns| && StatusCellsOk(t, orig, hexMap)
    requires t2.Rectangular() && t2.columns == orig && |t2.rows| == |t.rows|
    requires forall k, j :: 0 <= k < |t.rows| && 0 <= j < |orig| && !IsTarget(orig[j], SwNames(hexMap)) ==>
      t2.rows[k][j] == if Matches(orig[j], "burned") then t.rows[k][j] else ReadCell(PersistCell(t.rows[k][j]))
    ensures FillSpec(t2, StatusColumns, Int(-1)) == Success(t3)
    ensures t3.columns == orig && |t3.rows| == |t.rows|
    ensures forall k, j :: (0 <= k < |t.rows| && 0 <= j < |orig| &&
                            (Matches(orig[j], "burned") || IsTarget(orig[j], StatusColumns))) ==>
      t3.rows[k][j] == (if t.rows[k][j] == Str("-1") then Int(-1) else t.rows[k][j])
  {
    forall k, j | 0 <= k < |t.rows| && 0 <= j < |orig| && IsTarget(orig[j], StatusColumns)
      ensures Filled(t2.rows[k][j], Int(-1)) == Some(if t.rows[k][j] == Str("-1") then Int(-1) else t.rows[k][j])
    {
      StatusNames(orig[j]);
      StatusRoundTrip(t.rows[k][j]);
    }
    FillSpecSucceeds(t2, StatusColumns, Int(-1));
    t3 := FillSpec(t2, StatusColumns, Int(-1)).value;
    forall k, j | 0 <= k < |t.rows| && 0 <= j < |orig| &&
        (Matches(orig[j], "burned") || IsTarget(orig[j], StatusColumns))
      ensures t3.rows[k][j] == (if t.rows[k][j] == Str("-1") then Int(-1) else t.rows[k][j])
    {
      StatusNames(orig[j]);
      FillSpecAt(t2, StatusColumns, Int(-1), k, j);
    }
  }

  // ---- get_available_models (frmMain.py lines 195-202) ----

  predicate Fits(rows: seq<Record>, l: Layout) {
    forall k :: 0 <= k < |rows| ==>
      l.id < |rows[k]| && l.model < |rows[k]| && l.burned < |rows[k]| &&
      l.passed < |rows[k]| && l.printed < |rows[k]|
  }

  /** A record that passed inspection and was printed. */
  predicate Done(r: Record, l: Layout)
    requires l.passed < |r| && l.printed < |r|
  {
    PyEq(r[l.passed], Int(1)) && PyEq(r[l.printed], Int(1))
  }

  predicate InModel(r: Record, l: Layout, model: Cell)
    requires l.model < |r|
  {
    PyEq(r[l.model], model)
  }

  /** The ids of the records of `model`, in table order (`items`). */
  function ModelIds(rows: seq<Record>, l: Layout, model: Cell): seq<Cell>
    requires Fits(rows, l)
  {
    if |rows| == 0 then []
    else (if InModel(rows[0], l, model) then [rows[0][l.id]] else []) + ModelIds(rows[1..], l, model)
  }

  /** The ids of the records of `model` still to be finished
      (`available_items`). */
  function AvailableIds(rows: seq<Record>, l: Layout, model: Cell): seq<Cell>
    requires Fits(rows, l)
  {
    if |rows| == 0 then []
    else (if InModel(rows[0], l, model) && !Done(rows[0], l) then [rows[0][l.id]] else [])
         + AvailableIds(rows[1..], l, model)
  }

  /** `a` is `b` with some elements left out, the order kept. */
  predicate IsSubsequence<T(==)>(a: seq<T>, b: seq<T>)
    decreases |b|
  {
    if |a| == 0 then true
    else if |b| == 0 then false
    else (a[0] == b[0] && IsSubsequence(a[1..], b[1..])) || IsSubsequence(a, b[1..])
  }

  lemma {:induction false} SubsequenceLength<T>(a: seq<T>, b: seq<T>)
    requires IsSubsequence(a, b)
    ensures |a| <= |b|
    decreases |b|
  {
    if |a| > 0 {
      if a[0] == b[0] && IsSubsequence(a[1..], b[1..]) {
        SubsequenceLength(a[1..], b[1..]);
      } else {
        SubsequenceLength(a, b[1..]);
      }
    }
  }

  lemma {:induction false} SubsequenceSkip<T>(a: seq<T>, b: seq<T>, x: T)
    requires IsSubsequence(a, b)
    ensures IsSubsequence(a, [x] + b)
  {
    if |a| > 0 {
      assert ([x] + b)[1..] == b;
    }
  }

  /** The eligible list is an order-preserving sub-list of the model's ids, so
      the button's done count `len(items) - len(available)` lies between 0 and
      `len(items)`. */
  lemma {:induction false} AvailableSublist(rows: seq<Record>, l: Layout, model: Cell)
    requires Fits(rows, l)
    ensures IsSubsequence(AvailableIds(rows, l, model), ModelIds(rows, l, model))
    ensures 0 <= |ModelIds(rows, l, model)| - |AvailableIds(rows, l, model)| <= |ModelIds(rows, l, model)|
  {
    if |rows| > 0 {
      AvailableSublist(rows[1..], l, model);
      var a, m := AvailableIds(rows[1..], l, model), ModelIds(rows[1..], l, model);
      if InModel(rows[0], l, model) {
        assert ModelIds(rows, l, model) == [rows[0][l.id]] + m;
        if !Done(rows[0], l) {
          assert AvailableIds(rows, l, model) == [rows[0][l.id]] + a;
          assert ([rows[0][l.id]] + a)[1..] == a;
          assert ([rows[0][l.id]] + m)[1..] == m;
        } else {
          assert AvailableIds(rows, l, model) == a;
          SubsequenceSkip(a, m, rows[0][l.id]);
        }
      } else {
        assert ModelIds(rows, l, model) == m;
        assert AvailableIds(rows, l, model) == a;
      }
    }
    SubsequenceLength(AvailableIds(rows, l, model), ModelIds(rows, l, model));
  }

  /** An id is eligible for a model exactly when some record of that model
      carries it and is not both passed and printed. */
  lemma {:induction false} AvailableMembers(rows: seq<Record>, l: Layout, model: Cell, x: Cell)
    requires Fits(rows, l)
    ensures x in AvailableIds(rows, l, model) <==>
      exists k :: 0 <= k < |rows| && InModel(rows[k], l, model) && !Done(rows[k], l) && rows[k][l.id] == x
  {
    if |rows| > 0 {
      AvailableMembers(rows[1..], l, model, x);
      if exists k :: 0 <= k < |rows| && InModel(rows[k], l, model) && !Done(rows[k], l) && rows[k][l.id] == x {
        var k :| 0 <= k < |rows| && InModel(rows[k], l, model) && !Done(rows[k], l) && rows[k][l.id] == x;
        if k > 0 { assert rows[1..][k - 1] == rows[k]; }
      }
      if exists k :: 0 <= k < |rows[1..]| && InModel(rows[1..][k], l, model) && !Done(rows[1..][k], l) && rows[1..][k][l.id] == x {
        var k :| 0 <= k < |rows[1..]| && InModel(rows[1..][k], l, model) && !Done(rows[1..][k], l) && rows[1..][k][l.id] == x;
        assert rows[k + 1] == rows[1..][k];
      }
    }
  }

  // ---- update_model (frmMain.py lines 405-407) ----

  /** `models.loc[models['id'] == id, prop] = value`, with `prop` at
      position `col`. */
  function SetWhere(rows: seq<Record>, idCol: nat, id: Cell, col: nat, value: Cell): (r: seq<Record>)
    requires forall k :: 0 <= k < |rows| ==> idCol < |rows[k]| && col < |rows[k]|
    ensures |r| == |rows|
    ensures forall k :: 0 <= k < |rows| ==> |r[k]| == |rows[k]|
    ensures forall k, j :: 0 <= k < |rows| && 0 <= j < |rows[k]| ==>
      r[k][j] == if j == col && PyEq(rows[k][idCol], id) then value else rows[k][j]
  {
    seq(|rows|, k requires 0 <= k < |rows| =>
      if PyEq(rows[k][idCol], id) then rows[k][col := value] else rows[k])
  }
}
