/** `Areas<>::populateFromWelshStatsJSON`: a JSON document whose `value`
    array holds one record per reading, each naming the local authority,
    optionally the Measure, the year and the value, under the headings the
    column specification gives. */
module WelshStatsJson {
  import opened Wrappers
  import opened Text
  import opened Measures
  import opened Areas
  import opened Filters
  import opened AreaRegistry
  import opened Datasets
  import opened Adapters

  /** A JSON value as far as the adapter inspects it: strings, numbers and
      booleans are read; arrays and objects are only ever rejected. */
  datatype JValue = JString(str: string) | JNumber(num: real) | JBool(b: bool) | JNull | JArray | JObject

  /** One record of the `value` array: its fields by heading. */
  type Record = map<string, JValue>

  /** What the JSON parser makes of the stream: the records of its `value`
      array, the parser's error text, or a document without such an array,
      given by its top-level value (`JObject` for an object that has no
      `value` member). */
  datatype JsonDoc = Parsed(records: seq<Record>) | Malformed(what: string) | Other(top: JValue)

  const INVALID_JSON: string := "Areas::populateFromWelshStatsJSON: Invalid JSON: "
  const INCOMPLETE: string := "Areas::populateFromWelshStatsJSON: Incomplete column specification!"
  const NO_MEASURE: string := "Areas::populateFromWelshStatsJSON: Incomplete column specification, no measure details specified!"
  const INDEX_ERROR: string := "[json.exception.type_error.305] cannot use operator[] with a string argument with "
  const AREA_MISMATCH: string :=
    "Areas::populateFromWelshStatsJSON: Column specification did not match file for COL_AUTHORITY_CODE or COL_AREA_NAME!"

  // ---------------------------------------------------------------------
  // Reading fields
  // ---------------------------------------------------------------------

  /** `data[key]` on a mutable record: a missing field reads as null. */
  function Field(rec: Record, key: string): (v: JValue)
    ensures key in rec ==> v == rec[key]
    ensures key !in rec ==> v == JNull
  {
    if key in rec then rec[key] else JNull
  }

  /** The type name the JSON library puts in its conversion errors. */
  function TypeName(v: JValue): string {
    match v
    case JString(_) => "string"
    case JNumber(_) => "number"
    case JBool(_) => "boolean"
    case JNull => "null"
    case JArray => "array"
    case JObject => "object"
  }

  /** Conversion to `std::string`: only a string converts. */
  function AsString(v: JValue): (r: Result<string>)
    ensures r.Success? <==> v.JString?
    ensures r.Success? ==> r.value == v.str
    ensures r.Failure? ==> r.error == TypeError("[json.exception.type_error.302] type must be string, but is " + TypeName(v))
  {
    if v.JString? then Success(v.str)
    else Failure(TypeError("[json.exception.type_error.302] type must be string, but is " + TypeName(v)))
  }

  /** Conversion to `double`: only a number converts; the library's
      floating-point conversion rejects a boolean like any other
      non-number. */
  function AsNumber(v: JValue): (r: Result<real>)
    ensures r.Success? <==> v.JNumber?
    ensures v.JNumber? ==> r == Success(v.num)
    ensures r.Failure? ==> r.error == TypeError("[json.exception.type_error.302] type must be number, but is " + TypeName(v))
  {
    match v
    case JNumber(n) => Success(n)
    case _ => Failure(TypeError("[json.exception.type_error.302] type must be number, but is " + TypeName(v)))
  }

  /** The reading of a record's value field: converted as a number; when
      that fails, converted as a string and read with `std::stod`, and the
      errors of that second attempt go through. */
  function ReadingOf(v: JValue): (r: Result<real>)
    ensures v.JNumber? ==> r == Success(v.num)
    ensures v.JString? ==> r == StoD(v.str)
    ensures v.JBool? || v.JNull? || v.JArray? || v.JObject? ==>
      r == Failure(TypeError("[json.exception.type_error.302] type must be string, but is " + TypeName(v)))
  {
    match AsNumber(v)
    case Success(x) => Success(x)
    case Failure(_) =>
      var s :- AsString(v);
      StoD(s)
  }

  // ---------------------------------------------------------------------
  // Column specification
  // ---------------------------------------------------------------------

  /** Where a record's Measure comes from: two fields of the record, or a
      fixed code and label for a single-measure dataset. */
  datatype MeasureSource = PerRecord(codeField: string, nameField: string) | Fixed(code: string, title: string)

  /** The headings the adapter reads. */
  datatype JsonColumns = JsonColumns(code: string, name: string, year: string, value: string, measure: MeasureSource)

  /** The headings for the authority code, English name, year and value
      are required; then a Measure code and name heading, or failing that a
      single Measure code and name. */
  function JsonColumnsOf(cols: Columns): (r: Result<JsonColumns>)
    ensures r.Success? <==>
      AuthCode in cols && AuthNameEng in cols && Year in cols && Value in cols &&
      ((MeasureCode in cols && MeasureName in cols) || (SingleMeasureCode in cols && SingleMeasureName in cols))
    ensures !(AuthCode in cols && AuthNameEng in cols && Year in cols && Value in cols) ==> r == Failure(OutOfRange(INCOMPLETE))
    ensures r.Success? ==>
      r.value.code == cols[AuthCode] && r.value.name == cols[AuthNameEng] &&
      r.value.year == cols[Year] && r.value.value == cols[Value]
    ensures r.Success? && MeasureCode in cols && MeasureName in cols ==> r.value.measure == PerRecord(cols[MeasureCode], cols[MeasureName])
    ensures r.Success? && !(MeasureCode in cols && MeasureName in cols) ==>
      r.value.measure == Fixed(cols[SingleMeasureCode], cols[SingleMeasureName])
    ensures r.Failure? && AuthCode in cols && AuthNameEng in cols && Year in cols && Value in cols ==>
      r.error == OutOfRange(NO_MEASURE)
  {
    if !(AuthCode in cols && AuthNameEng in cols && Year in cols && Value in cols) then Failure(OutOfRange(INCOMPLETE))
    else if MeasureCode in cols && MeasureName in cols then
      Success(JsonColumns(cols[AuthCode], cols[AuthNameEng], cols[Year], cols[Value], PerRecord(cols[MeasureCode], cols[MeasureName])))
    else if SingleMeasureCode in cols && SingleMeasureName in cols then
      Success(JsonColumns(cols[AuthCode], cols[AuthNameEng], cols[Year], cols[Value], Fixed(cols[SingleMeasureCode], cols[SingleMeasureName])))
    else Failure(OutOfRange(NO_MEASURE))
  }

  /** The Measure code and label of a record, before the code is
      lower-cased. */
  function MeasureOf(rec: Record, source: MeasureSource): (r: Result<(string, string)>)
    ensures source.Fixed? ==> r == Success((source.code, source.title))
    ensures source.PerRecord? ==>
      (r.Success? <==> Field(rec, source.codeField).JString? && Field(rec, source.nameField).JString?)
  {
    match source
    case Fixed(code, title) => Success((code, title))
    case PerRecord(codeField, nameField) =>
      var code :- AsString(Field(rec, codeField));
      var title :- AsString(Field(rec, nameField));
      Success((code, title))
  }

  // ---------------------------------------------------------------------
  // Records
  // ---------------------------------------------------------------------

  /** The area filter of this adapter: with a filter set, a record passes
      when its code or English name scores, or when its Area is already
      stored with a Welsh name that scores. */
  predicate RecordAreaAdmitted(r: Registry, filter: set<string>, code: string, eng: string) {
    filter == {} || WildcardCount(filter, code) != 0 || WildcardCount(filter, eng) != 0 ||
    (code in r.byCode && GetName(r.byCode[code], "cym").Success? &&
     WildcardCount(filter, GetName(r.byCode[code], "cym").value) != 0)
  }

  /** `Area(code)` with its English name set. */
  function NamedArea(code: string, eng: string): (a: Area)
    ensures a == Area(code, map["eng" := eng], map[])
    ensures AreaValid(a)
  {
    assert IsLangCode("eng");
    LowerNormalises("eng");
    SetName(NewArea(code), "eng", eng).value
  }

  /** One record, in the program's order: the code and English name must
      be strings; the area filter may skip the record; the Measure is read
      and its lower-cased code may be skipped by the measures filter; the
      year must be a string `std::stoi` reads, and may be skipped by the
      year filter; the value must convert. The reading is then deposited,
      and a new Area is created with its English name, which is indexed.
      `Success(r)` unchanged is a skipped record. */
  function JsonRecord(r: Registry, rec: Record, spec: JsonColumns,
                      areasFilter: set<string>, measuresFilter: set<string>, years: YearRange): (res: Result<Registry>)
    ensures res.Success? ==> r.byCode.Keys <= res.value.byCode.Keys && r.byName.Keys <= res.value.byName.Keys
    ensures !(Field(rec, spec.code).JString? && Field(rec, spec.name).JString?) ==> res == Failure(OutOfRange(AREA_MISMATCH))
  {
    var code := AsString(Field(rec, spec.code));
    var eng := AsString(Field(rec, spec.name));
    if code.Failure? || eng.Failure? then Failure(OutOfRange(AREA_MISMATCH))
    else if !RecordAreaAdmitted(r, areasFilter, code.value, eng.value) then Success(r)
    else
      var (measureCode, title) :- MeasureOf(rec, spec.measure);
      var key := Lower(measureCode);
      LowerNormalises(measureCode);
      if measuresFilter != {} && key !in measuresFilter then Success(r)
      else
        var yearText :- AsString(Field(rec, spec.year));
        var year :- StoI(yearText);
        if !YearAdmitted(years, year) then Success(r)
        else
          var value :- ReadingOf(Field(rec, spec.value));
          var r1 := Deposit(r, NamedArea(code.value, eng.value), key, title, map[year := value]);
          if code.value in r.byCode then Success(r1)
          else Success(IndexName(r1, eng.value, code.value))
  }

  /** The record loop. The first failing record ends it, keeping every
      record stored before it. */
  function JsonRecords(r: Registry, recs: seq<Record>, spec: JsonColumns,
                       areasFilter: set<string>, measuresFilter: set<string>, years: YearRange): (res: Ingest)
    ensures r.byCode.Keys <= res.registry.byCode.Keys
    decreases |recs|
  {
    if recs == [] then Loaded(r)
    else
      match JsonRecord(r, recs[0], spec, areasFilter, measuresFilter, years)
      case Failure(e) => Failed(e, r)
      case Success(r1) => JsonRecords(r1, recs[1..], spec, areasFilter, measuresFilter, years)
  }

  /** `j["value"]` on a document without a `value` array, followed by the
      record loop over it. A null document is first turned into an empty
      object; in an object the missing member reads as null; and null
      iterates as no records. Any other top-level kind cannot be indexed by
      a string, which is the library's type error 305. */
  function ValueMember(top: JValue): (r: Result<seq<Record>>)
    ensures r.Success? <==> top.JNull? || top.JObject?
    ensures r.Success? ==> r.value == []
    ensures r.Failure? ==> r.error == TypeError(INDEX_ERROR + TypeName(top))
  {
    match top
    case JNull => Success([])
    case JObject => Success([])
    case _ => Failure(TypeError(INDEX_ERROR + TypeName(top)))
  }

  /** `Areas<>::populateFromWelshStatsJSON`: a document that does not parse
      fails first, then an incomplete column specification, then the
      records are read in order. */
  function PopulateFromWelshStatsJSON(r: Registry, doc: JsonDoc, cols: Columns,
                                      areasFilter: set<string>, measuresFilter: set<string>, years: YearRange): (res: Ingest)
    ensures doc.Malformed? ==> res == Failed(RuntimeError(INVALID_JSON + doc.what), r)
    ensures doc.Parsed? && JsonColumnsOf(cols).Failure? ==> res == Failed(JsonColumnsOf(cols).error, r)
    ensures doc.Parsed? && JsonColumnsOf(cols).Success? ==>
      res == JsonRecords(r, doc.records, JsonColumnsOf(cols).value, areasFilter, measuresFilter, years)
    ensures doc.Other? && JsonColumnsOf(cols).Failure? ==> res == Failed(JsonColumnsOf(cols).error, r)
    ensures doc.Other? && JsonColumnsOf(cols).Success? ==>
      if doc.top.JNull? || doc.top.JObject? then res == Loaded(r)
      else res == Failed(TypeError(INDEX_ERROR + TypeName(doc.top)), r)
  {
    match doc
    case Malformed(what) => Failed(RuntimeError(INVALID_JSON + what), r)
    case Parsed(recs) =>
      (match JsonColumnsOf(cols)
       case Failure(e) => Failed(e, r)
       case Success(spec) => JsonRecords(r, recs, spec, areasFilter, measuresFilter, years))
    case Other(top) =>
      match JsonColumnsOf(cols)
      case Failure(e) => Failed(e, r)
      case Success(spec) =>
        match ValueMember(top)
        case Failure(e) => Failed(e, r)
        case Success(recs) => JsonRecords(r, recs, spec, areasFilter, measuresFilter, years)
  }

  /** The array document `[1,2]` passes the column checks and then fails
      on `j["value"]`, leaving the container as it was. */
  lemma ArrayDocumentFails(r: Registry, cols: Columns, areasFilter: set<string>, measuresFilter: set<string>, years: YearRange)
    requires JsonColumnsOf(cols).Success?
    ensures PopulateFromWelshStatsJSON(r, Other(JArray), cols, areasFilter, measuresFilter, years)
      == Failed(TypeError("[json.exception.type_error.305] cannot use operator[] with a string argument with array"), r)
  {
  }

  // ---------------------------------------------------------------------
  // Properties of the adapter
  // ---------------------------------------------------------------------

  /** What a record that does not fail did: nothing (`stored` false), or
      one deposit of `value` for `year` under the lower-cased Measure code
      `key`, with every filter passed. */
  lemma JsonRecordStep(r: Registry, rec: Record, spec: JsonColumns,
                       areasFilter: set<string>, measuresFilter: set<string>, years: YearRange)
    returns (stored: bool, code: string, eng: string, key: string, title: string, year: int, value: real)
    requires JsonRecord(r, rec, spec, areasFilter, measuresFilter, years).Success?
    ensures !stored ==> JsonRecord(r, rec, spec, areasFilter, measuresFilter, years).value == r
    ensures stored ==> IsLowered(key) && RecordAreaAdmitted(r, areasFilter, code, eng)
    ensures stored ==> (measuresFilter == {} || key in measuresFilter) && YearAdmitted(years, year)
    ensures stored ==>
      var r1 := Deposit(r, NamedArea(code, eng), key, title, map[year := value]);
      JsonRecord(r, rec, spec, areasFilter, measuresFilter, years).value ==
        if code in r.byCode then r1 else IndexName(r1, eng, code)
  {
    stored, code, eng, key, title, year, value := false, "", "", "", "", 0, 0.0;
    var c := AsString(Field(rec, spec.code));
    var e := AsString(Field(rec, spec.name));
    if RecordAreaAdmitted(r, areasFilter, c.value, e.value) {
      var (mc, t) := MeasureOf(rec, spec.measure).value;
      var k := Lower(mc);
      LowerNormalises(mc);
      if measuresFilter == {} || k in measuresFilter {
        var y := StoI(AsString(Field(rec, spec.year)).value).value;
        if YearAdmitted(years, y) {
          stored, code, eng, key, title, year, value := true, c.value, e.value, k, t, y, ReadingOf(Field(rec, spec.value)).value;
        }
      }
    }
  }

  /** The adapter keeps the container invariant. */
  lemma {:induction false} JsonRecordsKeepsValid(r: Registry, recs: seq<Record>, spec: JsonColumns,
                                                 areasFilter: set<string>, measuresFilter: set<string>, years: YearRange)
    requires RegistryValid(r)
    ensures RegistryValid(JsonRecords(r, recs, spec, areasFilter, measuresFilter, years).registry)
    decreases |recs|
  {
    if recs != [] {
      var res := JsonRecord(r, recs[0], spec, areasFilter, measuresFilter, years);
      if res.Success? {
        var stored, code, eng, key, title, year, value := JsonRecordStep(r, recs[0], spec, areasFilter, measuresFilter, years);
        if stored {
          DepositKeepsValid(r, NamedArea(code, eng), key, title, map[year := value]);
        }
        JsonRecordsKeepsValid(res.value, recs[1..], spec, areasFilter, measuresFilter, years);
      }
    }
  }

  /** Every reading the adapter stores is for a year the year filter
      admits. */
  lemma {:induction false} JsonRecordsKeepsYearsWithin(r: Registry, recs: seq<Record>, spec: JsonColumns,
                                                       areasFilter: set<string>, measuresFilter: set<string>, years: YearRange)
    requires YearsWithin(r, years)
    ensures YearsWithin(JsonRecords(r, recs, spec, areasFilter, measuresFilter, years).registry, years)
    decreases |recs|
  {
    if recs != [] {
      var res := JsonRecord(r, recs[0], spec, areasFilter, measuresFilter, years);
      if res.Success? {
        var stored, code, eng, key, title, year, value := JsonRecordStep(r, recs[0], spec, areasFilter, measuresFilter, years);
        if stored {
          DepositKeepsYearsWithin(r, NamedArea(code, eng), key, title, map[year := value], years);
        }
        JsonRecordsKeepsYearsWithin(res.value, recs[1..], spec, areasFilter, measuresFilter, years);
      }
    }
  }

  /** Every Measure the adapter stores has a code the measures filter
      admits. */
  lemma {:induction false} JsonRecordsKeepsMeasuresWithin(r: Registry, recs: seq<Record>, spec: JsonColumns,
                                                          areasFilter: set<string>, measuresFilter: set<string>, years: YearRange)
    requires MeasuresWithin(r, measuresFilter)
    ensures MeasuresWithin(JsonRecords(r, recs, spec, areasFilter, measuresFilter, years).registry, measuresFilter)
    decreases |recs|
  {
    if recs != [] {
      var res := JsonRecord(r, recs[0], spec, areasFilter, measuresFilter, years);
      if res.Success? {
        var stored, code, eng, key, title, year, value := JsonRecordStep(r, recs[0], spec, areasFilter, measuresFilter, years);
        if stored {
          DepositKeepsMeasuresWithin(r, NamedArea(code, eng), key, title, map[year := value], measuresFilter);
        }
        JsonRecordsKeepsMeasuresWithin(res.value, recs[1..], spec, areasFilter, measuresFilter, years);
      }
    }
  }

  /** Every Area the adapter adds has a code or English name the area
      filter admits: a Welsh name can admit only an Area already stored. */
  lemma {:induction false} JsonRecordsAdmitsOnlyFiltered(before: Registry, r: Registry, recs: seq<Record>, spec: JsonColumns,
                                                         areasFilter: set<string>, measuresFilter: set<string>, years: YearRange)
    requires NewAreasAdmitted(before, r, areasFilter)
    ensures NewAreasAdmitted(before, JsonRecords(r, recs, spec, areasFilter, measuresFilter, years).registry, areasFilter)
    decreases |recs|
  {
    if recs != [] {
      var res := JsonRecord(r, recs[0], spec, areasFilter, measuresFilter, years);
      if res.Success? {
        var stored, code, eng, key, title, year, value := JsonRecordStep(r, recs[0], spec, areasFilter, measuresFilter, years);
        if stored {
          var a := NamedArea(code, eng);
          if code !in r.byCode && areasFilter != {} && WildcardCount(areasFilter, code) == 0 {
            assert a.names["eng"] == eng;
          }
          DepositKeepsNewAreasAdmitted(before, r, a, key, title, map[year := value], areasFilter);
        }
        JsonRecordsAdmitsOnlyFiltered(before, res.value, recs[1..], spec, areasFilter, measuresFilter, years);
      }
    }
  }

  /** Sharper: every Area the adapter adds is admitted through its code or
      its English name, the only name a new Area gets. */
  lemma {:induction false} JsonRecordsAdmitsOnlyCodeOrEnglish(before: Registry, r: Registry, recs: seq<Record>, spec: JsonColumns,
                                                              areasFilter: set<string>, measuresFilter: set<string>, years: YearRange)
    requires NewAreasAdmittedBy(before, r, areasFilter, {"eng"})
    ensures NewAreasAdmittedBy(before, JsonRecords(r, recs, spec, areasFilter, measuresFilter, years).registry, areasFilter, {"eng"})
    decreases |recs|
  {
    if recs != [] {
      var res := JsonRecord(r, recs[0], spec, areasFilter, measuresFilter, years);
      if res.Success? {
        var stored, code, eng, key, title, year, value := JsonRecordStep(r, recs[0], spec, areasFilter, measuresFilter, years);
        if stored {
          var a := NamedArea(code, eng);
          if code !in r.byCode && areasFilter != {} && WildcardCount(areasFilter, code) == 0 {
            assert a.names["eng"] == eng;
            assert AdmittedBy(areasFilter, code, a, {"eng"});
          }
          DepositKeepsNewAreasAdmittedBy(before, r, a, key, title, map[year := value], areasFilter, {"eng"});
        }
        JsonRecordsAdmitsOnlyCodeOrEnglish(before, res.value, recs[1..], spec, areasFilter, measuresFilter, years);
      }
    }
  }

  /** A record whose fields are all present and convert, and which every
      filter admits, stores its reading: the Area is found under the code,
      the Measure under the lower-cased code, and the value under the
      year. */
  lemma JsonRecordStoresReading(r: Registry, rec: Record, spec: JsonColumns,
                                areasFilter: set<string>, measuresFilter: set<string>, years: YearRange,
                                code: string, eng: string, measureCode: string, title: string, year: int, v: real)
    requires Field(rec, spec.code) == JString(code) && Field(rec, spec.name) == JString(eng)
    requires MeasureOf(rec, spec.measure) == Success((measureCode, title))
    requires Field(rec, spec.year).JString? && StoI(Field(rec, spec.year).str) == Success(year)
    requires ReadingOf(Field(rec, spec.value)) == Success(v)
    requires RecordAreaAdmitted(r, areasFilter, code, eng)
    requires measuresFilter == {} || Lower(measureCode) in measuresFilter
    requires YearAdmitted(years, year)
    ensures JsonRecord(r, rec, spec, areasFilter, measuresFilter, years).Success?
    ensures var r' := JsonRecord(r, rec, spec, areasFilter, measuresFilter, years).value;
      GetArea(r', code).Success? &&
      GetMeasure(GetArea(r', code).value, measureCode).Success? &&
      GetValue(GetMeasure(GetArea(r', code).value, measureCode).value, year) == Success(v)
  {
    LowerNormalises(measureCode);
    var key := Lower(measureCode);
    var r1 := Deposit(r, NamedArea(code, eng), key, title, map[year := v]);
    JsonRecordAdmitted(r, rec, spec, areasFilter, measuresFilter, years, code, eng, measureCode, title, year, v);
    DepositStoresReadings(r, NamedArea(code, eng), key, title, map[year := v]);
    var r' := JsonRecord(r, rec, spec, areasFilter, measuresFilter, years).value;
    assert r'.byCode == r1.byCode;
  }

  lemma JsonRecordAdmitted(r: Registry, rec: Record, spec: JsonColumns,
                           areasFilter: set<string>, measuresFilter: set<string>, years: YearRange,
                           code: string, eng: string, measureCode: string, title: string, year: int, v: real)
    requires Field(rec, spec.code) == JString(code) && Field(rec, spec.name) == JString(eng)
    requires MeasureOf(rec, spec.measure) == Success((measureCode, title))
    requires Field(rec, spec.year).JString? && StoI(Field(rec, spec.year).str) == Success(year)
    requires ReadingOf(Field(rec, spec.value)) == Success(v)
    requires RecordAreaAdmitted(r, areasFilter, code, eng)
    requires measuresFilter == {} || Lower(measureCode) in measuresFilter
    requires YearAdmitted(years, year)
    ensures IsLowered(Lower(measureCode))
    ensures var r1 := Deposit(r, NamedArea(code, eng), Lower(measureCode), title, map[year := v]);
      JsonRecord(r, rec, spec, areasFilter, measuresFilter, years) ==
        Success(if code in r.byCode then r1 else IndexName(r1, eng, code))
  {
    LowerNormalises(measureCode);
  }

  /** A record that every filter admits but whose value is a boolean fails
      the import: the floating-point conversion rejects it, and the string
      conversion tried next rejects it too. */
  lemma JsonRecordBooleanValueFails(r: Registry, rec: Record, spec: JsonColumns,
                                    areasFilter: set<string>, measuresFilter: set<string>, years: YearRange,
                                    code: string, eng: string, measureCode: string, title: string, year: int)
    requires Field(rec, spec.code) == JString(code) && Field(rec, spec.name) == JString(eng)
    requires MeasureOf(rec, spec.measure) == Success((measureCode, title))
    requires Field(rec, spec.year).JString? && StoI(Field(rec, spec.year).str) == Success(year)
    requires Field(rec, spec.value).JBool?
    requires RecordAreaAdmitted(r, areasFilter, code, eng)
    requires measuresFilter == {} || Lower(measureCode) in measuresFilter
    requires YearAdmitted(years, year)
    ensures JsonRecord(r, rec, spec, areasFilter, measuresFilter, years) ==
      Failure(TypeError("[json.exception.type_error.302] type must be string, but is boolean"))
  {
    LowerNormalises(measureCode);
  }
}
