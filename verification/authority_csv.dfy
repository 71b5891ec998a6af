/** `Areas<>::populateFromAuthorityCodeCSV`: a header line, then one row
    per local authority with its code, English name and Welsh name in the
    first three comma-separated columns. */
module AuthorityCsv {
  import opened Wrappers
  import opened Text
  import opened Areas
  import opened Filters
  import opened AreaRegistry
  import opened Adapters

  /** The error a malformed row raises. The line number is the program's
      counter, which starts at 2 and advances only after an imported row. */
  function LineError(lineNo: nat): Error {
    RuntimeError("AreaCSVParser::parse: Error on or near line " + NatToString(lineNo))
  }

  /** A row the area filter drops: a filter is set and none of the code,
      the English name and the Welsh name scores against it. */
  predicate RowExcluded(filter: set<string>, code: string, eng: string, cym: string) {
    filter != {} && WildcardCount(filter, code) == 0 &&
    WildcardCount(filter, eng) == 0 && WildcardCount(filter, cym) == 0
  }

  /** The Area a row describes: `Area(code)` with its English and Welsh
      names set. */
  function RowArea(code: string, eng: string, cym: string): (a: Area)
    ensures a.code == code && a.measures == map[]
    ensures a.names == map["eng" := eng, "cym" := cym]
    ensures AreaValid(a)
  {
    assert IsLangCode("eng") && IsLangCode("cym");
    LowerNormalises("eng");
    LowerNormalises("cym");
    var named := SetName(NewArea(code), "eng", eng).value;
    SetName(named, "cym", cym).value
  }

  /** An imported row: the Area is stored (merged into a stored Area of the
      same code), then both names are indexed, first name wins. */
  function ImportRow(r: Registry, code: string, eng: string, cym: string): (r': Registry)
    ensures r'.byCode.Keys == r.byCode.Keys + {code}
    ensures forall c :: c in r.byCode && c != code ==> r'.byCode[c] == r.byCode[c]
    ensures code !in r.byCode ==> r'.byCode[code] == RowArea(code, eng, cym)
    ensures code in r.byCode ==> r'.byCode[code] == MergeInto(r.byCode[code], RowArea(code, eng, cym))
    ensures r'.byName.Keys == r.byName.Keys + {eng, cym}
    ensures eng !in r.byName ==> r'.byName[eng] == code
    ensures cym !in r.byName ==> r'.byName[cym] == code
    ensures forall n :: n in r.byName ==> r'.byName[n] == r.byName[n]
    ensures RegistryValid(r) ==> RegistryValid(r')
  {
    var stored := SetArea(r, code, RowArea(code, eng, cym));
    IndexName(IndexName(stored, eng, code), cym, code)
  }

  /** The row loop, from the row counted as line `lineNo`. A row with fewer
      than three fields fails, keeping every row stored before it. */
  function CodeRows(r: Registry, rows: seq<string>, filter: set<string>, lineNo: nat): (res: Ingest)
    ensures r.byCode.Keys <= res.registry.byCode.Keys
    ensures r.byName.Keys <= res.registry.byName.Keys
    decreases |rows|
  {
    if rows == [] then Loaded(r)
    else
      var f := Fields(rows[0], ',');
      var res :=
        if |f| < 3 then Failed(LineError(lineNo), r)
        else if RowExcluded(filter, f[0], f[1], f[2]) then CodeRows(r, rows[1..], filter, lineNo)
        else CodeRows(ImportRow(r, f[0], f[1], f[2]), rows[1..], filter, lineNo + 1);
      assert forall i :: 1 <= i < |rows| ==> rows[i] == rows[1..][i - 1];
      res
  }

  /** `Areas<>::populateFromAuthorityCodeCSV`: no line at all is an error;
      otherwise the first line is the header and is skipped. */
  function PopulateFromAuthorityCodeCSV(r: Registry, text: string, filter: set<string>): (res: Ingest)
    ensures Lines(text) == [] ==> res == Failed(RuntimeError(NO_DATA), r)
    ensures Lines(text) != [] ==> res == CodeRows(r, Lines(text)[1..], filter, 2)
  {
    var lines := Lines(text);
    if lines == [] then Failed(RuntimeError(NO_DATA), r)
    else CodeRows(r, lines[1..], filter, 2)
  }

  // ---------------------------------------------------------------------
  // Properties of the adapter
  // ---------------------------------------------------------------------

  /** A row that is imported: three fields and not excluded by the filter. */
  predicate RowImported(row: string, filter: set<string>) {
    var f := Fields(row, ',');
    |f| >= 3 && !RowExcluded(filter, f[0], f[1], f[2])
  }

  /** How many of the first `k` rows are imported. */
  function ImportedBefore(rows: seq<string>, filter: set<string>, k: nat): (n: nat)
    requires k <= |rows|
    ensures n <= k
  {
    if k == 0 then 0
    else (if RowImported(rows[0], filter) then 1 else 0) + ImportedBefore(rows[1..], filter, k - 1)
  }

  /** Without an area filter every well-formed row is imported, so every
      row before a short one counts. */
  lemma {:induction false} ImportedBeforeUnfiltered(rows: seq<string>, k: nat)
    requires k <= |rows|
    requires forall i :: 0 <= i < k ==> |Fields(rows[i], ',')| >= 3
    ensures ImportedBefore(rows, {}, k) == k
  {
    if k > 0 {
      assert forall i :: 0 <= i < k - 1 ==> rows[1..][i] == rows[i + 1];
      ImportedBeforeUnfiltered(rows[1..], k - 1);
    }
  }

  /** The adapter keeps the container invariant. */
  lemma {:induction false} CodeRowsKeepsValid(r: Registry, rows: seq<string>, filter: set<string>, lineNo: nat)
    requires RegistryValid(r)
    ensures RegistryValid(CodeRows(r, rows, filter, lineNo).registry)
    decreases |rows|
  {
    if rows != [] {
      var f := Fields(rows[0], ',');
      if |f| >= 3 {
        if RowExcluded(filter, f[0], f[1], f[2]) {
          CodeRowsKeepsValid(r, rows[1..], filter, lineNo);
        } else {
          CodeRowsKeepsValid(ImportRow(r, f[0], f[1], f[2]), rows[1..], filter, lineNo + 1);
        }
      }
    }
  }

  /** An imported row's Area is admitted by the filter, and stays admitted
      when merged into a stored Area of the same code. */
  lemma ImportRowKeepsAdmitted(before: Registry, r: Registry, code: string, eng: string, cym: string, filter: set<string>)
    requires NewAreasAdmitted(before, r, filter)
    requires !RowExcluded(filter, code, eng, cym)
    ensures NewAreasAdmitted(before, ImportRow(r, code, eng, cym), filter)
  {
    var r' := ImportRow(r, code, eng, cym);
    ImportedAreaAdmitted(r, code, eng, cym, filter);
    forall c | c in r'.byCode && c !in before.byCode
      ensures AreaAdmitted(filter, c, r'.byCode[c])
    {
      if c != code {
        assert r'.byCode[c] == r.byCode[c];
      }
    }
  }

  /** The Area stored for an imported row carries the row's two names. */
  lemma ImportedAreaNames(r: Registry, code: string, eng: string, cym: string)
    ensures var stored := ImportRow(r, code, eng, cym).byCode[code];
      "eng" in stored.names && "cym" in stored.names &&
      stored.names["eng"] == eng && stored.names["cym"] == cym
  {
    var incoming := RowArea(code, eng, cym);
    assert "eng" in incoming.names && "cym" in incoming.names;
  }

  /** The Area stored for a row the filter lets through is admitted. */
  lemma ImportedAreaAdmitted(r: Registry, code: string, eng: string, cym: string, filter: set<string>)
    requires !RowExcluded(filter, code, eng, cym)
    ensures AreaAdmitted(filter, code, ImportRow(r, code, eng, cym).byCode[code])
  {
    var stored := ImportRow(r, code, eng, cym).byCode[code];
    ImportedAreaNames(r, code, eng, cym);
    if filter != {} && WildcardCount(filter, code) == 0 {
      if WildcardCount(filter, eng) > 0 {
        assert stored.names["eng"] == eng;
      } else {
        assert stored.names["cym"] == cym;
      }
    }
  }

  /** Every Area the adapter adds is admitted by the area filter: no
      filter, or its code or one of its names scores against it. */
  lemma {:induction false} CodeRowsAdmitsOnlyFiltered(before: Registry, r: Registry, rows: seq<string>, filter: set<string>, lineNo: nat)
    requires NewAreasAdmitted(before, r, filter)
    ensures NewAreasAdmitted(before, CodeRows(r, rows, filter, lineNo).registry, filter)
    decreases |rows|
  {
    if rows != [] {
      var f := Fields(rows[0], ',');
      if |f| >= 3 {
        if RowExcluded(filter, f[0], f[1], f[2]) {
          CodeRowsAdmitsOnlyFiltered(before, r, rows[1..], filter, lineNo);
        } else {
          ImportRowKeepsAdmitted(before, r, f[0], f[1], f[2], filter);
          CodeRowsAdmitsOnlyFiltered(before, ImportRow(r, f[0], f[1], f[2]), rows[1..], filter, lineNo + 1);
        }
      }
    }
  }

  /** One step of the row loop past a well-formed first row: the container
      and counter the rest of the rows start from. */
  lemma CodeRowsUnfold(r: Registry, rows: seq<string>, filter: set<string>, lineNo: nat) returns (r1: Registry, n1: nat)
    requires rows != [] && |Fields(rows[0], ',')| >= 3
    ensures CodeRows(r, rows, filter, lineNo) == CodeRows(r1, rows[1..], filter, n1)
    ensures RowImported(rows[0], filter) ==> n1 == lineNo + 1
    ensures !RowImported(rows[0], filter) ==> n1 == lineNo && r1 == r
    ensures RowImported(rows[0], filter) ==>
      var f := Fields(rows[0], ','); r1 == ImportRow(r, f[0], f[1], f[2])
  {
    var f := Fields(rows[0], ',');
    if RowExcluded(filter, f[0], f[1], f[2]) {
      r1, n1 := r, lineNo;
    } else {
      r1, n1 := ImportRow(r, f[0], f[1], f[2]), lineNo + 1;
    }
  }

  /** Past a well-formed first row, the loop carries on from some
      container and line number. */
  lemma CodeRowsNext(r: Registry, rows: seq<string>, filter: set<string>, lineNo: nat) returns (r1: Registry, n1: nat)
    requires rows != [] && |Fields(rows[0], ',')| >= 3
    ensures CodeRows(r, rows, filter, lineNo) == CodeRows(r1, rows[1..], filter, n1)
    ensures n1 == lineNo + (if RowImported(rows[0], filter) then 1 else 0)
  {
    r1, n1 := CodeRowsUnfold(r, rows, filter, lineNo);
  }

  /** A first row with fewer than three fields stops the adapter with the
      current line number, leaving the container as it was. */
  lemma CodeRowsShortRow(r: Registry, rows: seq<string>, filter: set<string>, lineNo: nat)
    requires rows != [] && |Fields(rows[0], ',')| < 3
    ensures CodeRows(r, rows, filter, lineNo) == Failed(LineError(lineNo), r)
  {
  }

  /** With no short row the adapter loads; with one it fails
      (`CodeRowsFailureLine`). */
  lemma {:induction false} CodeRowsLoadsWellFormed(r: Registry, rows: seq<string>, filter: set<string>, lineNo: nat)
    requires forall i :: 0 <= i < |rows| ==> |Fields(rows[i], ',')| >= 3
    ensures CodeRows(r, rows, filter, lineNo).Loaded?
    decreases |rows|
  {
    if rows != [] {
      var r1, n1 := CodeRowsNext(r, rows, filter, lineNo);
      var tail := rows[1..];
      assert forall i :: 0 <= i < |tail| ==> tail[i] == rows[i + 1];
      CodeRowsLoadsWellFormed(r1, tail, filter, n1);
    }
  }

  /** When every row is well formed, every row the filter admits has its
      Area stored and both its names indexed. */
  lemma {:induction false} CodeRowsStoresImportedRows(r: Registry, rows: seq<string>, filter: set<string>, lineNo: nat, i: int)
    requires 0 <= i < |rows| && RowImported(rows[i], filter)
    requires CodeRows(r, rows, filter, lineNo).Loaded?
    ensures Fields(rows[i], ',')[0] in CodeRows(r, rows, filter, lineNo).registry.byCode
    ensures Fields(rows[i], ',')[1] in CodeRows(r, rows, filter, lineNo).registry.byName
    ensures Fields(rows[i], ',')[2] in CodeRows(r, rows, filter, lineNo).registry.byName
    decreases |rows|
  {
    var r1, n1 := CodeRowsUnfold(r, rows, filter, lineNo);
    if i > 0 {
      assert rows[1..][i - 1] == rows[i];
      CodeRowsStoresImportedRows(r1, rows[1..], filter, n1, i - 1);
    }
  }

  /** The line a failure reports: the first row with fewer than three
      fields fails, and the number in its message is the starting line plus
      the rows imported before it. Rows the filter skipped are not counted,
      so after a skipped row the number is below the row's line in the
      file. */
  lemma {:induction false} CodeRowsFailureLine(r: Registry, rows: seq<string>, filter: set<string>, lineNo: nat, k: int)
    requires 0 <= k < |rows| && |Fields(rows[k], ',')| < 3
    requires forall i :: 0 <= i < k ==> |Fields(rows[i], ',')| >= 3
    ensures CodeRows(r, rows, filter, lineNo).Failed?
    ensures CodeRows(r, rows, filter, lineNo).error == LineError(lineNo + ImportedBefore(rows, filter, k))
    decreases |rows|
  {
    if k == 0 {
      CodeRowsShortRow(r, rows, filter, lineNo);
    } else {
      var r1, n1 := CodeRowsNext(r, rows, filter, lineNo);
      var tail := rows[1..];
      assert forall i :: 0 <= i < k - 1 ==> tail[i] == rows[i + 1];
      assert tail[k - 1] == rows[k];
      CodeRowsFailureLine(r1, tail, filter, n1, k - 1);
    }
  }
}
