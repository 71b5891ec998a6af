/** `Areas<>::populateFromAuthorityByYearCSV`: a header naming the
    authority code column and one column per year, then one row per local
    authority holding that authority's reading for each year, all for the
    dataset's single Measure. */
module ByYearCsv {
  import opened Wrappers
  import opened Text
  import opened Areas
  import opened Filters
  import opened AreaRegistry
  import opened Datasets
  import opened Adapters
  import Measures

  const AUTH_CODE_COLUMN: string := "Areas::populateFromAuthorityCodeCSV: Must specify valid AUTH_CODE column!"

  /** The header value that marks the authority code column; every other
      column is marked with its year. */
  const CODE_COLUMN: int := -1

  /** The error any failure inside a row becomes. The line number is the
      program's counter, which starts at 2 and advances only after an
      imported row. */
  function LineError(lineNo: nat): Error {
    RuntimeError("Areas<>::populateFromAuthorityByYearCSV: Error on or near line " + NatToString(lineNo))
  }

  // ---------------------------------------------------------------------
  // Header
  // ---------------------------------------------------------------------

  /** One header cell: the authority code heading marks the code column,
      anything else is read with `std::stoi` as a year. Without an
      authority code heading, or for a year out of `int` range, the header
      is rejected; a cell that is not a number at all lets `stoi`'s
      `invalid_argument` through. */
  function HeaderCell(cell: string, cols: Columns): (r: Result<int>)
    ensures AuthCode !in cols ==> r == Failure(RuntimeError(AUTH_CODE_COLUMN))
    ensures AuthCode in cols && cell == cols[AuthCode] ==> r == Success(CODE_COLUMN)
    ensures AuthCode in cols && cell != cols[AuthCode] && StoI(cell).Success? ==> r == StoI(cell)
    ensures AuthCode in cols && cell != cols[AuthCode] && StoI(cell).Failure? ==>
      r == Failure(if StoI(cell).error.OutOfRange? then RuntimeError(AUTH_CODE_COLUMN) else StoI(cell).error)
  {
    if AuthCode !in cols then Failure(RuntimeError(AUTH_CODE_COLUMN))
    else if cell == cols[AuthCode] then Success(CODE_COLUMN)
    else match StoI(cell)
      case Success(year) => Success(year)
      case Failure(e) => if e.OutOfRange? then Failure(RuntimeError(AUTH_CODE_COLUMN)) else Failure(e)
  }

  /** The header row, cell by cell: the first rejected cell decides the
      error; otherwise one column marker per cell. */
  function HeaderCells(cells: seq<string>, cols: Columns): (r: Result<seq<int>>)
    ensures r.Success? <==> forall i :: 0 <= i < |cells| ==> HeaderCell(cells[i], cols).Success?
    ensures r.Success? ==> |r.value| == |cells|
    ensures r.Success? ==> forall i :: 0 <= i < |cells| ==> HeaderCell(cells[i], cols) == Success(r.value[i])
    ensures r.Failure? ==> exists i :: 0 <= i < |cells| && HeaderCell(cells[i], cols) == Failure(r.error) &&
                                      forall j :: 0 <= j < i ==> HeaderCell(cells[j], cols).Success?
    decreases |cells|
  {
    if cells == [] then Success([])
    else
      var tail := cells[1..];
      assert forall i :: 0 <= i < |tail| ==> tail[i] == cells[i + 1];
      match HeaderCell(cells[0], cols)
      case Failure(e) => Failure(e)
      case Success(h) =>
        match HeaderCells(tail, cols)
        case Failure(e) =>
          ghost var i :| 0 <= i < |tail| && HeaderCell(tail[i], cols) == Failure(e) &&
                         forall j :: 0 <= j < i ==> HeaderCell(tail[j], cols).Success?;
          assert HeaderCell(cells[i + 1], cols) == Failure(e);
          Failure(e)
        case Success(hs) => Success([h] + hs)
  }

  // ---------------------------------------------------------------------
  // Rows
  // ---------------------------------------------------------------------

  /** What the cell loop has gathered of a row: whether an authority code
      was accepted, the code, and the readings by year. */
  datatype RowScan = RowScan(importArea: bool, code: string, readings: map<int, real>)

  const START: RowScan := RowScan(false, "", map[])

  /** Every year gathered passes the year filter. */
  predicate ReadingsAdmitted(scan: RowScan, years: YearRange) {
    forall y :: y in scan.readings ==> YearAdmitted(years, y)
  }

  /** An accepted code passes `isLocalAuthorityFiltered`. */
  predicate CodeAdmitted(r: Registry, scan: RowScan, filter: set<string>) {
    scan.importArea ==> filter == {} || WildcardCount(filter, scan.code) > 0 || scan.code in r.byCode
  }

  /** The cell loop from column `col`. A cell beyond the header, or a year
      cell `std::stod` cannot read, fails the row (`None`). A code cell the
      area filter excludes ends the loop; any other code cell is accepted.
      A year cell outside the year filter, or blank, is skipped; otherwise
      its reading is kept unless the year already has one. */
  function ScanCells(r: Registry, headers: seq<int>, cells: seq<string>, col: nat,
                     filter: set<string>, years: YearRange, scan: RowScan): (res: Option<RowScan>)
    requires col <= |cells|
    ensures res.Some? ==> scan.readings.Keys <= res.value.readings.Keys
    ensures res.Some? && ReadingsAdmitted(scan, years) ==> ReadingsAdmitted(res.value, years)
    ensures res.Some? && CodeAdmitted(r, scan, filter) ==> CodeAdmitted(r, res.value, filter)
    ensures |cells| > |headers| && col <= |headers| && res.Some? ==>
      exists i :: col <= i < |headers| && headers[i] == CODE_COLUMN
    decreases |cells| - col
  {
    if col == |cells| then Some(scan)
    else if col >= |headers| then None
    else
      var ident := headers[col];
      var cell := cells[col];
      if ident == CODE_COLUMN then
        if filter != {} && IsLocalAuthorityFiltered(r, filter, cell) then Some(scan)
        else ScanCells(r, headers, cells, col + 1, filter, years, scan.(importArea := true, code := cell))
      else if !YearAdmitted(years, ident) || cell == "" then
        ScanCells(r, headers, cells, col + 1, filter, years, scan)
      else
        match StoD(cell)
        case Failure(_) => None
        case Success(v) =>
          var readings := if ident in scan.readings then scan.readings else scan.readings[ident := v];
          ScanCells(r, headers, cells, col + 1, filter, years, scan.(readings := readings))
  }

  /** The row loop, from the row counted as line `lineNo`. A row whose
      cell loop fails, or an imported row when the column specification
      names no single Measure, fails the adapter, keeping every row stored
      before it. A row without an accepted code is skipped. An imported row
      deposits its readings in the Measure named by the specification,
      under its lower-cased code. */
  function ByYearRows(r: Registry, headers: seq<int>, rows: seq<string>, cols: Columns,
                      filter: set<string>, years: YearRange, lineNo: nat): (res: Ingest)
    ensures r.byCode.Keys <= res.registry.byCode.Keys
    ensures res.registry.byName == r.byName
    decreases |rows|
  {
    if rows == [] then Loaded(r)
    else
      match ScanCells(r, headers, Fields(rows[0], ','), 0, filter, years, START)
      case None => Failed(LineError(lineNo), r)
      case Some(scan) =>
        if !scan.importArea then ByYearRows(r, headers, rows[1..], cols, filter, years, lineNo)
        else if SingleMeasureCode !in cols || SingleMeasureName !in cols then Failed(LineError(lineNo), r)
        else
          var key := Lower(cols[SingleMeasureCode]);
          LowerNormalises(cols[SingleMeasureCode]);
          var r1 := Deposit(r, NewArea(scan.code), key, cols[SingleMeasureName], scan.readings);
          ByYearRows(r1, headers, rows[1..], cols, filter, years, lineNo + 1)
  }

  /** `Areas<>::populateFromAuthorityByYearCSV`: no line at all is an
      error; a rejected header fails before any row; otherwise the rows
      follow. */
  function PopulateFromAuthorityByYearCSV(r: Registry, text: string, cols: Columns,
                                          filter: set<string>, years: YearRange): (res: Ingest)
    ensures Lines(text) == [] ==> res == Failed(RuntimeError(NO_DATA), r)
    ensures Lines(text) != [] && HeaderCells(Fields(Lines(text)[0], ','), cols).Failure? ==>
      res == Failed(HeaderCells(Fields(Lines(text)[0], ','), cols).error, r)
    ensures Lines(text) != [] && HeaderCells(Fields(Lines(text)[0], ','), cols).Success? ==>
      res == ByYearRows(r, HeaderCells(Fields(Lines(text)[0], ','), cols).value, Lines(text)[1..], cols, filter, years, 2)
  {
    var lines := Lines(text);
    if lines == [] then Failed(RuntimeError(NO_DATA), r)
    else
      match HeaderCells(Fields(lines[0], ','), cols)
      case Failure(e) => Failed(e, r)
      case Success(headers) => ByYearRows(r, headers, lines[1..], cols, filter, years, 2)
  }

  // ---------------------------------------------------------------------
  // Properties of the adapter
  // ---------------------------------------------------------------------

  /** A row the row loop gets past: its cell loop does not fail, and an
      imported row finds a single Measure in the column specification. */
  predicate RowPasses(r: Registry, headers: seq<int>, row: string, cols: Columns, filter: set<string>, years: YearRange) {
    var scan := ScanCells(r, headers, Fields(row, ','), 0, filter, years, START);
    scan.Some? && (scan.value.importArea ==> SingleMeasureCode in cols && SingleMeasureName in cols)
  }

  /** Cell `i` (from column `col` on) is the first non-blank cell of year
      `y`, an admitted year, and `std::stod` reads it as `v`. */
  predicate FirstReading(headers: seq<int>, cells: seq<string>, years: YearRange, col: nat, i: nat, y: int, v: real) {
    col <= i < |cells| && i < |headers| && headers[i] == y && y != CODE_COLUMN && YearAdmitted(years, y) &&
    cells[i] != "" && StoD(cells[i]) == Success(v) &&
    forall j :: col <= j < i ==> headers[j] != y || cells[j] == ""
  }

  /** What the cell loop records: the readings it started with stay as
      they were, and every reading it adds is the first non-blank cell of
      an admitted year, so a blank cell never becomes a reading and a later
      cell of the same year does not replace an earlier one. An accepted
      code is the one it started with or the text of a code cell. */
  lemma {:induction false} ScanCellsReadings(r: Registry, headers: seq<int>, cells: seq<string>, col: nat,
                                             filter: set<string>, years: YearRange, scan: RowScan)
    requires col <= |cells|
    requires ScanCells(r, headers, cells, col, filter, years, scan).Some?
    ensures var res := ScanCells(r, headers, cells, col, filter, years, scan).value;
      forall y :: y in scan.readings ==> y in res.readings && res.readings[y] == scan.readings[y]
    ensures var res := ScanCells(r, headers, cells, col, filter, years, scan).value;
      forall y :: y in res.readings && y !in scan.readings ==>
        exists i :: FirstReading(headers, cells, years, col, i, y, res.readings[y])
    ensures var res := ScanCells(r, headers, cells, col, filter, years, scan).value;
      res.importArea ==> ((scan.importArea && res.code == scan.code) ||
        exists k :: col <= k < |cells| && k < |headers| && headers[k] == CODE_COLUMN && res.code == cells[k])
    decreases |cells| - col
  {
    if col < |cells| {
      var res := ScanCells(r, headers, cells, col, filter, years, scan).value;
      var ident := headers[col];
      var cell := cells[col];
      if ident == CODE_COLUMN {
        if !(filter != {} && IsLocalAuthorityFiltered(r, filter, cell)) {
          var next := scan.(importArea := true, code := cell);
          ScanCellsReadings(r, headers, cells, col + 1, filter, years, next);
          ScanCellsShift(headers, cells, years, col, col + 1, res.readings, scan.readings);
        }
      } else if !YearAdmitted(years, ident) || cell == "" {
        ScanCellsReadings(r, headers, cells, col + 1, filter, years, scan);
        ScanCellsShift(headers, cells, years, col, col + 1, res.readings, scan.readings);
        assert res.importArea ==> ((scan.importArea && res.code == scan.code) ||
          exists k :: col <= k < |cells| && k < |headers| && headers[k] == CODE_COLUMN && res.code == cells[k]);
      } else {
        var v := StoD(cell).value;
        var next := scan.(readings := if ident in scan.readings then scan.readings else scan.readings[ident := v]);
        ScanCellsReadings(r, headers, cells, col + 1, filter, years, next);
        forall y | y in res.readings && y !in scan.readings
          ensures exists i :: FirstReading(headers, cells, years, col, i, y, res.readings[y])
        {
          if y == ident {
            assert FirstReading(headers, cells, years, col, col, y, res.readings[y]);
          } else {
            var i :| FirstReading(headers, cells, years, col + 1, i, y, res.readings[y]);
            assert FirstReading(headers, cells, years, col, i, y, res.readings[y]);
          }
        }
        assert res.importArea ==> ((scan.importArea && res.code == scan.code) ||
          exists k :: col <= k < |cells| && k < |headers| && headers[k] == CODE_COLUMN && res.code == cells[k]);
      }
    }
  }

  /** A first reading from column `col + 1` on is one from `col` on, when
      column `col` is not a non-blank cell of an admitted year. */
  lemma ScanCellsShift(headers: seq<int>, cells: seq<string>, years: YearRange, col: nat, after: nat,
                       got: map<int, real>, before: map<int, real>)
    requires col < |cells| && col < |headers| && after == col + 1
    requires headers[col] == CODE_COLUMN || !YearAdmitted(years, headers[col]) || cells[col] == ""
    requires forall y :: y in got && y !in before ==> exists i :: FirstReading(headers, cells, years, after, i, y, got[y])
    ensures forall y :: y in got && y !in before ==> exists i :: FirstReading(headers, cells, years, col, i, y, got[y])
  {
    forall y | y in got && y !in before
      ensures exists i :: FirstReading(headers, cells, years, col, i, y, got[y])
    {
      var i :| FirstReading(headers, cells, years, after, i, y, got[y]);
      assert FirstReading(headers, cells, years, col, i, y, got[y]);
    }
  }

  /** With no area filter nothing stops the cell loop early, so every
      non-blank cell of an admitted year gives its year a reading, and a
      row with a code cell is imported. */
  lemma {:induction false} ScanCellsRecordsEveryCell(r: Registry, headers: seq<int>, cells: seq<string>, col: nat,
                                                     years: YearRange, scan: RowScan)
    requires col <= |cells|
    requires ScanCells(r, headers, cells, col, {}, years, scan).Some?
    ensures var res := ScanCells(r, headers, cells, col, {}, years, scan).value;
      forall i :: (col <= i < |cells| && i < |headers| && headers[i] != CODE_COLUMN &&
                   YearAdmitted(years, headers[i]) && cells[i] != "") ==> headers[i] in res.readings
    ensures var res := ScanCells(r, headers, cells, col, {}, years, scan).value;
      (scan.importArea || exists k :: col <= k < |cells| && k < |headers| && headers[k] == CODE_COLUMN) ==> res.importArea
    decreases |cells| - col
  {
    if col < |cells| {
      var res := ScanCells(r, headers, cells, col, {}, years, scan).value;
      var ident := headers[col];
      var cell := cells[col];
      var next: RowScan;
      if ident == CODE_COLUMN {
        next := scan.(importArea := true, code := cell);
      } else if !YearAdmitted(years, ident) || cell == "" {
        next := scan;
      } else {
        var v := StoD(cell).value;
        next := scan.(readings := if ident in scan.readings then scan.readings else scan.readings[ident := v]);
      }
      assert res == ScanCells(r, headers, cells, col + 1, {}, years, next).value;
      ScanCellsRecordsEveryCell(r, headers, cells, col + 1, years, next);
      ScanCellsReadings(r, headers, cells, col + 1, {}, years, next);
    }
  }

  /** A failing first row leaves the container as it was. */
  lemma ByYearRowsFailsAtOnce(r: Registry, headers: seq<int>, rows: seq<string>, cols: Columns,
                              filter: set<string>, years: YearRange, lineNo: nat)
    requires rows != [] && !RowPasses(r, headers, rows[0], cols, filter, years)
    ensures ByYearRows(r, headers, rows, cols, filter, years, lineNo) == Failed(LineError(lineNo), r)
  {
  }

  /** One step of the row loop past a first row that passes: the container
      and counter the rest of the rows start from. */
  lemma ByYearRowsUnfold(r: Registry, headers: seq<int>, rows: seq<string>, cols: Columns,
                         filter: set<string>, years: YearRange, lineNo: nat) returns (scan: RowScan, r1: Registry, n1: nat)
    requires rows != [] && RowPasses(r, headers, rows[0], cols, filter, years)
    ensures ByYearRows(r, headers, rows, cols, filter, years, lineNo) == ByYearRows(r1, headers, rows[1..], cols, filter, years, n1)
    ensures ScanCells(r, headers, Fields(rows[0], ','), 0, filter, years, START) == Some(scan)
    ensures !scan.importArea ==> r1 == r && n1 == lineNo
    ensures scan.importArea ==> SingleMeasureCode in cols && SingleMeasureName in cols
    ensures scan.importArea ==> IsLowered(Lower(cols[SingleMeasureCode]))
    ensures scan.importArea ==>
      r1 == Deposit(r, NewArea(scan.code), Lower(cols[SingleMeasureCode]), cols[SingleMeasureName], scan.readings)
  {
    scan := ScanCells(r, headers, Fields(rows[0], ','), 0, filter, years, START).value;
    if !scan.importArea {
      r1, n1 := r, lineNo;
    } else {
      LowerNormalises(cols[SingleMeasureCode]);
      r1 := Deposit(r, NewArea(scan.code), Lower(cols[SingleMeasureCode]), cols[SingleMeasureName], scan.readings);
      n1 := lineNo + 1;
    }
  }

  /** The adapter keeps the container invariant. */
  lemma {:induction false} ByYearRowsKeepsValid(r: Registry, headers: seq<int>, rows: seq<string>, cols: Columns,
                                                filter: set<string>, years: YearRange, lineNo: nat)
    requires RegistryValid(r)
    ensures RegistryValid(ByYearRows(r, headers, rows, cols, filter, years, lineNo).registry)
    decreases |rows|
  {
    if rows != [] {
      if !RowPasses(r, headers, rows[0], cols, filter, years) {
        ByYearRowsFailsAtOnce(r, headers, rows, cols, filter, years, lineNo);
      } else {
        var scan, r1, n1 := ByYearRowsUnfold(r, headers, rows, cols, filter, years, lineNo);
        if scan.importArea {
          DepositKeepsValid(r, NewArea(scan.code), Lower(cols[SingleMeasureCode]), cols[SingleMeasureName], scan.readings);
        }
        ByYearRowsKeepsValid(r1, headers, rows[1..], cols, filter, years, n1);
      }
    }
  }

  /** Every reading the adapter stores is for a year the year filter
      admits. */
  lemma {:induction false} ByYearRowsKeepsYearsWithin(r: Registry, headers: seq<int>, rows: seq<string>, cols: Columns,
                                                      filter: set<string>, years: YearRange, lineNo: nat)
    requires YearsWithin(r, years)
    ensures YearsWithin(ByYearRows(r, headers, rows, cols, filter, years, lineNo).registry, years)
    decreases |rows|
  {
    if rows != [] {
      if !RowPasses(r, headers, rows[0], cols, filter, years) {
        ByYearRowsFailsAtOnce(r, headers, rows, cols, filter, years, lineNo);
      } else {
        var scan, r1, n1 := ByYearRowsUnfold(r, headers, rows, cols, filter, years, lineNo);
        if scan.importArea {
          assert ReadingsAdmitted(START, years);
          DepositKeepsYearsWithin(r, NewArea(scan.code), Lower(cols[SingleMeasureCode]), cols[SingleMeasureName], scan.readings, years);
        }
        ByYearRowsKeepsYearsWithin(r1, headers, rows[1..], cols, filter, years, n1);
      }
    }
  }

  /** Every Area the adapter adds has a code the area filter admits: the
      new Areas carry no names, so only the code can score. */
  lemma {:induction false} ByYearRowsAdmitsOnlyFiltered(before: Registry, r: Registry, headers: seq<int>, rows: seq<string>, cols: Columns,
                                                        filter: set<string>, years: YearRange, lineNo: nat)
    requires NewAreasAdmitted(before, r, filter)
    ensures NewAreasAdmitted(before, ByYearRows(r, headers, rows, cols, filter, years, lineNo).registry, filter)
    decreases |rows|
  {
    if rows != [] {
      if !RowPasses(r, headers, rows[0], cols, filter, years) {
        ByYearRowsFailsAtOnce(r, headers, rows, cols, filter, years, lineNo);
      } else {
        var scan, r1, n1 := ByYearRowsUnfold(r, headers, rows, cols, filter, years, lineNo);
        if scan.importArea {
          assert CodeAdmitted(r, START, filter);
          DepositKeepsNewAreasAdmitted(before, r, NewArea(scan.code), Lower(cols[SingleMeasureCode]), cols[SingleMeasureName], scan.readings, filter);
        }
        ByYearRowsAdmitsOnlyFiltered(before, r1, headers, rows[1..], cols, filter, years, n1);
      }
    }
  }

  /** A by-year row gives its Area no names, so every Area the import adds
      is admitted through its code alone. */
  lemma {:induction false} ByYearRowsAdmitsOnlyCodes(before: Registry, r: Registry, headers: seq<int>, rows: seq<string>, cols: Columns,
                                                     filter: set<string>, years: YearRange, lineNo: nat)
    requires NewAreasAdmittedBy(before, r, filter, {})
    ensures NewAreasAdmittedBy(before, ByYearRows(r, headers, rows, cols, filter, years, lineNo).registry, filter, {})
    decreases |rows|
  {
    if rows != [] {
      if !RowPasses(r, headers, rows[0], cols, filter, years) {
        ByYearRowsFailsAtOnce(r, headers, rows, cols, filter, years, lineNo);
      } else {
        var scan, r1, n1 := ByYearRowsUnfold(r, headers, rows, cols, filter, years, lineNo);
        if scan.importArea {
          assert CodeAdmitted(r, START, filter);
          DepositKeepsNewAreasAdmittedBy(before, r, NewArea(scan.code), Lower(cols[SingleMeasureCode]), cols[SingleMeasureName],
                                         scan.readings, filter, {});
        }
        ByYearRowsAdmitsOnlyCodes(before, r1, headers, rows[1..], cols, filter, years, n1);
      }
    }
  }

  /** A row with a code cell, imported with no area filter: the import
      loads, the Area is found under the code the row gives, the Measure
      under the specification's lower-cased code, and every non-blank cell
      of an admitted year is found under its year, holding the value of the
      first non-blank cell of that year. */
  lemma ByYearRowStoresReadings(r: Registry, headers: seq<int>, row: string, cols: Columns,
                                years: YearRange, lineNo: nat)
    requires SingleMeasureCode in cols && SingleMeasureName in cols
    requires ScanCells(r, headers, Fields(row, ','), 0, {}, years, START).Some?
    requires exists k :: 0 <= k < |Fields(row, ',')| && k < |headers| && headers[k] == CODE_COLUMN
    ensures var cells := Fields(row, ',');
      var res := ByYearRows(r, headers, [row], cols, {}, years, lineNo);
      var code := ScanCells(r, headers, cells, 0, {}, years, START).value.code;
      var key := Lower(cols[SingleMeasureCode]);
      res.Loaded? &&
      (exists k :: 0 <= k < |cells| && k < |headers| && headers[k] == CODE_COLUMN && code == cells[k]) &&
      GetArea(res.registry, code).Success? &&
      GetMeasure(GetArea(res.registry, code).value, key).Success? &&
      forall i :: (0 <= i < |cells| && i < |headers| && headers[i] != CODE_COLUMN &&
                   YearAdmitted(years, headers[i]) && cells[i] != "") ==>
        var got := Measures.GetValue(GetMeasure(GetArea(res.registry, code).value, key).value, headers[i]);
        got.Success? && exists j :: FirstReading(headers, cells, years, 0, j, headers[i], got.value)
  {
    var cells := Fields(row, ',');
    var scan := ScanCells(r, headers, cells, 0, {}, years, START).value;
    var key := Lower(cols[SingleMeasureCode]);
    ScanCellsRecordsEveryCell(r, headers, cells, 0, years, START);
    ScanCellsReadings(r, headers, cells, 0, {}, years, START);
    assert RowPasses(r, headers, row, cols, {}, years);
    var s1, r1, n1 := ByYearRowsUnfold(r, headers, [row], cols, {}, years, lineNo);
    assert [row][1..] == [];
    assert ByYearRows(r, headers, [row], cols, {}, years, lineNo) == Loaded(r1);
    assert r1 == Deposit(r, NewArea(scan.code), key, cols[SingleMeasureName], scan.readings);
    DepositStoresReadings(r, NewArea(scan.code), key, cols[SingleMeasureName], scan.readings);
  }

  /** A worked row of the population file: with years 1991 and 1992 in the
      header, the row "W06000011,,711.68" stores 711.68 for 1992 and, the
      1991 cell being blank, no reading at all for 1991. */
  lemma BlankCellStoresNothing()
    ensures var res := ByYearRows(EMPTY, [CODE_COLUMN, 1991, 1992], ["W06000011,,711.68"], COMPLETE_POP.cols, {}, ALL_YEARS, 2);
      res.Loaded? &&
      GetArea(res.registry, "W06000011").Success? &&
      GetMeasure(GetArea(res.registry, "W06000011").value, "pop").Success? &&
      Measures.GetValue(GetMeasure(GetArea(res.registry, "W06000011").value, "pop").value, 1992) == Success(711.68) &&
      Measures.GetValue(GetMeasure(GetArea(res.registry, "W06000011").value, "pop").value, 1991).Failure?
  {
    var row := "W06000011,,711.68";
    var headers := [CODE_COLUMN, 1991, 1992];
    var readings := map[1992 := 711.68];
    WorkedRowScan();
    WorkedMeasureCode();
    var a := NewArea("W06000011");
    assert RowPasses(EMPTY, headers, row, COMPLETE_POP.cols, {}, ALL_YEARS);
    var scan, r1, n1 := ByYearRowsUnfold(EMPTY, headers, [row], COMPLETE_POP.cols, {}, ALL_YEARS, 2);
    assert [row][1..] == [];
    assert r1 == Deposit(EMPTY, a, "pop", "Population", readings);
    assert r1.byCode["W06000011"].measures["pop"] == Deposited(a, "pop", "Population", readings);
  }

  /** The cell loop over the worked row. */
  lemma WorkedRowScan()
    ensures ScanCells(EMPTY, [CODE_COLUMN, 1991, 1992], Fields("W06000011,,711.68", ','), 0, {}, ALL_YEARS, START)
      == Some(RowScan(true, "W06000011", map[1992 := 711.68]))
  {
    WorkedFields();
    WorkedCellLoop();
  }

  lemma WorkedFields()
    ensures Fields("W06000011,,711.68", ',') == ["W06000011", "", "711.68"]
  {
    var cells := ["W06000011", "", "711.68"];
    assert Join(cells, ',') == "W06000011,,711.68";
    assert forall k :: 0 <= k < |cells| ==> ',' !in cells[k];
    JoinSplit(cells, ',');
  }

  lemma WorkedCellLoop()
    ensures ScanCells(EMPTY, [CODE_COLUMN, 1991, 1992], ["W06000011", "", "711.68"], 0, {}, ALL_YEARS, START)
      == Some(RowScan(true, "W06000011", map[1992 := 711.68]))
  {
    var cells := ["W06000011", "", "711.68"];
    var headers := [CODE_COLUMN, 1991, 1992];
    var found := RowScan(true, "W06000011", map[1992 := 711.68]);
    WorkedLastCell();
    assert ScanCells(EMPTY, headers, cells, 1, {}, ALL_YEARS, found.(readings := map[])) == Some(found);
  }

  lemma WorkedLastCell()
    ensures var found := RowScan(true, "W06000011", map[1992 := 711.68]);
      ScanCells(EMPTY, [CODE_COLUMN, 1991, 1992], ["W06000011", "", "711.68"], 2, {}, ALL_YEARS, found.(readings := map[]))
        == Some(found)
  {
    var found := RowScan(true, "W06000011", map[1992 := 711.68]);
    WorkedReading();
    assert ScanCells(EMPTY, [CODE_COLUMN, 1991, 1992], ["W06000011", "", "711.68"], 3, {}, ALL_YEARS, found) == Some(found);
  }

  /** The population file's Measure code, lower-cased. */
  lemma WorkedMeasureCode()
    ensures Lower(COMPLETE_POP.cols[SingleMeasureCode]) == "pop"
  {
    assert COMPLETE_POP.cols[SingleMeasureCode] == "Pop";
    assert Lower("Pop") == "pop";
  }

  /** `std::stod` reads "711.68" as 711.68. */
  lemma WorkedReading()
    ensures StoD("711.68") == Success(711.68)
  {
    var u: string := "711.68";
    assert SpaceRun(u) == 0;
    assert u[0..] == u && Unsign(u) == (false, u);
    WorkedWholePart();
    WorkedFractionPart();
    assert u[..3] == "711";
    assert DigitsValue(u[..3]) as real + FractionValue(u, 3) == 711.68;
  }

  lemma WorkedWholePart()
    ensures DigitRun("711.68") == 3
    ensures DigitsValue("711") == 711
  {
    assert "711"[..2] == "71" && "71"[..1] == "7" && "7"[..0] == "";
  }

  lemma WorkedFractionPart()
    ensures FractionRun("711.68", 3) == 2
    ensures FractionValue("711.68", 3) == 0.68
  {
    assert "711.68"[4..] == "68";
    assert DigitRun("68") == 2 && "68"[..2] == "68" && "68"[..1] == "6" && "6"[..0] == "";
    assert DigitsValue("68") == 68 && Pow10(2) == 100;
  }
}
