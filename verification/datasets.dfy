/** The static description of every dataset the program can import: which
    adapter parses it and which column heading holds which field. */
module Datasets {
  import opened Wrappers
  import opened Text

  /** The fields an adapter looks up in a column specification. */
  datatype SourceColumn =
    | AuthCode
    | AuthNameEng
    | AuthNameCym
    | MeasureCode
    | MeasureName
    | SingleMeasureCode
    | SingleMeasureName
    | Year
    | Value

  /** The format of a data source, which selects the adapter. `NoneType`
      is the program's `DataType::None`. */
  datatype DataType = NoneType | AuthorityCodeCSV | WelshStatsJSON | AuthorityByYearCSV

  /** A column specification: the heading (or, for the single-measure
      fields, the constant) for each field. */
  type Columns = map<SourceColumn, string>

  /** `InputFileSource`: the command-line code, display name, file name,
      adapter and column specification of one dataset. */
  datatype InputFileSource = InputFileSource(code: string, name: string, file: string, parser: DataType, cols: Columns)

  const AREAS: InputFileSource := InputFileSource(
    "areas", "areas", "areas.csv", AuthorityCodeCSV,
    map[AuthCode := "Local authority code", AuthNameEng := "Name (eng)", AuthNameCym := "Name (cym)"])

  const POPDEN: InputFileSource := InputFileSource(
    "popden", "Population density", "popu1009.json", WelshStatsJSON,
    map[AuthCode := "Localauthority_Code", AuthNameEng := "Localauthority_ItemName_ENG",
        MeasureCode := "Measure_Code", MeasureName := "Measure_ItemName_ENG",
        Year := "Year_Code", Value := "Data"])

  const BIZ: InputFileSource := InputFileSource(
    "biz", "Active Businesses", "econ0080.json", WelshStatsJSON,
    map[AuthCode := "Area_Code", AuthNameEng := "Area_ItemName_ENG",
        MeasureCode := "Variable_Code", MeasureName := "Variable_ItemNotes_ENG",
        Year := "Year_Code", Value := "Data"])

  const AQI: InputFileSource := InputFileSource(
    "aqi", "Air Quality Indicators", "envi0201.json", WelshStatsJSON,
    map[AuthCode := "Area_Code", AuthNameEng := "Area_ItemName_ENG",
        MeasureCode := "Pollutant_ItemName_ENG", MeasureName := "Pollutant_ItemName_ENG",
        Year := "Year_Code", Value := "Data"])

  const TRAINS: InputFileSource := InputFileSource(
    "trains", "Rail passenger journeys", "tran0152.json", WelshStatsJSON,
    map[AuthCode := "LocalAuthority_Code", AuthNameEng := "LocalAuthority_ItemName_ENG",
        SingleMeasureCode := "rail", SingleMeasureName := "Rail passenger journeys",
        Year := "Year_Code", Value := "Data"])

  const COMPLETE_POPDEN: InputFileSource := InputFileSource(
    "complete-popden", "Population density", "complete-popu1009-popden.csv", AuthorityByYearCSV,
    map[AuthCode := "AuthorityCode", SingleMeasureCode := "Dens", SingleMeasureName := "Population density"])

  const COMPLETE_POP: InputFileSource := InputFileSource(
    "complete-pop", "Population", "complete-popu1009-pop.csv", AuthorityByYearCSV,
    map[AuthCode := "AuthorityCode", SingleMeasureCode := "Pop", SingleMeasureName := "Population"])

  const COMPLETE_AREA: InputFileSource := InputFileSource(
    "complete-area", "Land area", "complete-popu1009-area.csv", AuthorityByYearCSV,
    map[AuthCode := "AuthorityCode", SingleMeasureCode := "Area", SingleMeasureName := "Land area"])

  /** `InputFiles::DATASETS`, in table order. */
  const DATASETS: seq<InputFileSource> :=
    [POPDEN, BIZ, AQI, TRAINS, COMPLETE_POPDEN, COMPLETE_POP, COMPLETE_AREA]

  /** The first dataset in `table` whose code is `code`, as the program's
      linear scan finds it. */
  function LookupIn(table: seq<InputFileSource>, code: string): (r: Option<InputFileSource>)
    ensures r.Some? <==> exists i :: 0 <= i < |table| && table[i].code == code
    ensures r.Some? ==> r.value in table && r.value.code == code
  {
    if table == [] then None
    else if table[0].code == code then Some(table[0])
    else
      var r := LookupIn(table[1..], code);
      assert forall i :: 1 <= i < |table| ==> table[i] == table[1..][i - 1];
      r
  }

  function Lookup(code: string): Option<InputFileSource> {
    LookupIn(DATASETS, code)
  }

  /** Every dataset's code is lower case and differs from every other and
      from "all", so a lower-cased argument selects at most one dataset
      and never collides with the keyword. */
  lemma CodesDistinct()
    ensures |DATASETS| == 7
    ensures forall i, j :: 0 <= i < j < |DATASETS| ==> DATASETS[i].code != DATASETS[j].code
    ensures forall i :: 0 <= i < |DATASETS| ==> DATASETS[i].code != "all"
    ensures forall i :: 0 <= i < |DATASETS| ==> IsLowered(DATASETS[i].code)
  {
  }

  /** Each dataset is found under its own code. */
  lemma LookupFindsEachDataset(i: int)
    requires 0 <= i < |DATASETS|
    ensures Lookup(DATASETS[i].code) == Some(DATASETS[i])
  {
    var t := DATASETS;
    assert t[0].code == "popden" && t[1].code == "biz" && t[2].code == "aqi" && t[3].code == "trains";
    assert t[4].code == "complete-popden" && t[5].code == "complete-pop" && t[6].code == "complete-area";
  }
}
