/** `Areas<>::populate`: hands a stream to the adapter its data type
    selects. */
module Populate {
  import opened Wrappers
  import Text
  import opened AreaRegistry
  import opened Datasets
  import opened Adapters
  import AuthorityCsv
  import ByYearCsv
  import WelshStatsJson

  const UNEXPECTED_TYPE: string := "Areas::populate: Unexpected data type"

  /** An input stream as the adapters read it: its text, line by line, and
      what the JSON parser makes of the same text. */
  datatype Stream = Stream(text: string, json: WelshStatsJson.JsonDoc)

  /** The overload with filters: each adapter is called with the filters
      it takes (the code CSV only the area filter, the by-year CSV the area
      and year filters, the JSON all three); `DataType::None` is rejected. */
  function Populate(r: Registry, s: Stream, dataType: DataType, cols: Columns,
                    areasFilter: set<string>, measuresFilter: set<string>, years: YearRange): (res: Ingest)
    ensures dataType == NoneType ==> res == Failed(RuntimeError(UNEXPECTED_TYPE), r)
    ensures dataType == AuthorityCodeCSV ==> res == AuthorityCsv.PopulateFromAuthorityCodeCSV(r, s.text, areasFilter)
    ensures dataType == AuthorityByYearCSV ==> res == ByYearCsv.PopulateFromAuthorityByYearCSV(r, s.text, cols, areasFilter, years)
    ensures dataType == WelshStatsJSON ==>
      res == WelshStatsJson.PopulateFromWelshStatsJSON(r, s.json, cols, areasFilter, measuresFilter, years)
  {
    match dataType
    case AuthorityCodeCSV => AuthorityCsv.PopulateFromAuthorityCodeCSV(r, s.text, areasFilter)
    case WelshStatsJSON => WelshStatsJson.PopulateFromWelshStatsJSON(r, s.json, cols, areasFilter, measuresFilter, years)
    case AuthorityByYearCSV => ByYearCsv.PopulateFromAuthorityByYearCSV(r, s.text, cols, areasFilter, years)
    case NoneType => Failed(RuntimeError(UNEXPECTED_TYPE), r)
  }

  /** The overload without filters: only the code CSV and the JSON are
      accepted, and they import everything. */
  function PopulateUnfiltered(r: Registry, s: Stream, dataType: DataType, cols: Columns): (res: Ingest)
    ensures dataType == AuthorityCodeCSV || dataType == WelshStatsJSON ==>
      res == Populate(r, s, dataType, cols, {}, {}, ALL_YEARS)
    ensures dataType == NoneType || dataType == AuthorityByYearCSV ==> res == Failed(RuntimeError(UNEXPECTED_TYPE), r)
  {
    if dataType == AuthorityCodeCSV then AuthorityCsv.PopulateFromAuthorityCodeCSV(r, s.text, {})
    else if dataType == WelshStatsJSON then WelshStatsJson.PopulateFromWelshStatsJSON(r, s.json, cols, {}, {}, ALL_YEARS)
    else Failed(RuntimeError(UNEXPECTED_TYPE), r)
  }

  /** Whatever the data type and however the import ends, the container
      invariant holds afterwards and no Area is lost. */
  lemma PopulateKeepsValid(r: Registry, s: Stream, dataType: DataType, cols: Columns,
                           areasFilter: set<string>, measuresFilter: set<string>, years: YearRange)
    requires RegistryValid(r)
    ensures RegistryValid(Populate(r, s, dataType, cols, areasFilter, measuresFilter, years).registry)
    ensures r.byCode.Keys <= Populate(r, s, dataType, cols, areasFilter, measuresFilter, years).registry.byCode.Keys
  {
    var lines := Text.Lines(s.text);
    match dataType
    case AuthorityCodeCSV =>
      if lines != [] {
        AuthorityCsv.CodeRowsKeepsValid(r, lines[1..], areasFilter, 2);
      }
    case AuthorityByYearCSV =>
      if lines != [] {
        var header := ByYearCsv.HeaderCells(Text.Fields(lines[0], ','), cols);
        if header.Success? {
          ByYearCsv.ByYearRowsKeepsValid(r, header.value, lines[1..], cols, areasFilter, years, 2);
        }
      }
    case WelshStatsJSON =>
      var spec := WelshStatsJson.JsonColumnsOf(cols);
      if s.json.Parsed? && spec.Success? {
        WelshStatsJson.JsonRecordsKeepsValid(r, s.json.records, spec.value, areasFilter, measuresFilter, years);
      }
    case NoneType =>
  }

  /** Every Area an import adds is admitted by the area filter, whatever
      the data type and however the import ends. */
  lemma PopulateAdmitsOnlyFiltered(r: Registry, s: Stream, dataType: DataType, cols: Columns,
                                   areasFilter: set<string>, measuresFilter: set<string>, years: YearRange)
    ensures NewAreasAdmitted(r, Populate(r, s, dataType, cols, areasFilter, measuresFilter, years).registry, areasFilter)
  {
    var lines := Text.Lines(s.text);
    assert NewAreasAdmitted(r, r, areasFilter);
    match dataType
    case AuthorityCodeCSV =>
      if lines != [] {
        AuthorityCsv.CodeRowsAdmitsOnlyFiltered(r, r, lines[1..], areasFilter, 2);
      }
    case AuthorityByYearCSV =>
      if lines != [] {
        var header := ByYearCsv.HeaderCells(Text.Fields(lines[0], ','), cols);
        if header.Success? {
          ByYearCsv.ByYearRowsAdmitsOnlyFiltered(r, r, header.value, lines[1..], cols, areasFilter, years, 2);
        }
      }
    case WelshStatsJSON =>
      var spec := WelshStatsJson.JsonColumnsOf(cols);
      if s.json.Parsed? && spec.Success? {
        WelshStatsJson.JsonRecordsAdmitsOnlyFiltered(r, r, s.json.records, spec.value, areasFilter, measuresFilter, years);
      }
    case NoneType =>
  }

  /** The readings-bearing formats store only years the year filter
      admits; the JSON also stores only Measures the measures filter admits
      (the by-year CSV takes no measures filter). */
  lemma PopulateRespectsYearsAndMeasures(r: Registry, s: Stream, dataType: DataType, cols: Columns,
                                         areasFilter: set<string>, measuresFilter: set<string>, years: YearRange)
    requires dataType == WelshStatsJSON || dataType == AuthorityByYearCSV
    requires YearsWithin(r, years)
    ensures YearsWithin(Populate(r, s, dataType, cols, areasFilter, measuresFilter, years).registry, years)
    ensures dataType == WelshStatsJSON && MeasuresWithin(r, measuresFilter) ==>
      MeasuresWithin(Populate(r, s, dataType, cols, areasFilter, measuresFilter, years).registry, measuresFilter)
  {
    var lines := Text.Lines(s.text);
    if dataType == AuthorityByYearCSV {
      if lines != [] {
        var header := ByYearCsv.HeaderCells(Text.Fields(lines[0], ','), cols);
        if header.Success? {
          ByYearCsv.ByYearRowsKeepsYearsWithin(r, header.value, lines[1..], cols, areasFilter, years, 2);
        }
      }
    } else {
      var spec := WelshStatsJson.JsonColumnsOf(cols);
      if s.json.Parsed? && spec.Success? {
        WelshStatsJson.JsonRecordsKeepsYearsWithin(r, s.json.records, spec.value, areasFilter, measuresFilter, years);
        if MeasuresWithin(r, measuresFilter) {
          WelshStatsJson.JsonRecordsKeepsMeasuresWithin(r, s.json.records, spec.value, areasFilter, measuresFilter, years);
        }
      }
    }
  }
}
