/** The format adapters of `Areas<>`: each reads one data source and folds
    its rows into the container, through `setArea`, `setMeasure` and
    `setValue`. An adapter that fails part-way keeps every row it stored
    before the failure, so both outcomes carry the container. */
module Adapters {
  import opened Wrappers
  import opened Text
  import opened Measures
  import opened Areas
  import opened Filters
  import opened AreaRegistry
  import opened Datasets

  /** The outcome of one adapter call: the container after every row, or
      the error together with the container as the failing row left it. */
  datatype Ingest = Loaded(registry: Registry) | Failed(error: Error, registry: Registry)

  /** What both CSV adapters raise for a stream without a single line. */
  const NO_DATA: string := "Areas::populateFromAuthorityCodeCSV: File contains no data"

  /** A value of C++ `unsigned int`. */
  type u32 = n: int | 0 <= n < 0x1_0000_0000

  /** `std::tuple<unsigned int, unsigned int>`: the inclusive year range. */
  datatype YearRange = YearRange(lo: u32, hi: u32)

  /** The range that filters nothing. */
  const ALL_YEARS: YearRange := YearRange(0, 0)

  /** The year filter applies only when both bounds are non-zero. */
  predicate YearsFilterEnabled(years: YearRange) {
    years.lo != 0 && years.hi != 0
  }

  /** A year passes the filter, compared as `unsigned int` as the program
      compares it. */
  predicate YearAdmitted(years: YearRange, year: int) {
    !YearsFilterEnabled(years) || (years.lo <= ToU32(year) && ToU32(year) <= years.hi)
  }

  // ---------------------------------------------------------------------
  // Filters as invariants of the container
  // ---------------------------------------------------------------------

  /** Every reading of the Area is for a year the filter admits. */
  predicate AreaYearsWithin(a: Area, years: YearRange) {
    forall k :: k in a.measures ==> forall y :: y in a.measures[k].data ==> YearAdmitted(years, y)
  }

  predicate YearsWithin(r: Registry, years: YearRange) {
    forall c :: c in r.byCode ==> AreaYearsWithin(r.byCode[c], years)
  }

  /** Every Measure of the Area has a code the measures filter admits. */
  predicate AreaMeasuresWithin(a: Area, measures: set<string>) {
    measures == {} || forall k :: k in a.measures ==> k in measures
  }

  predicate MeasuresWithin(r: Registry, measures: set<string>) {
    forall c :: c in r.byCode ==> AreaMeasuresWithin(r.byCode[c], measures)
  }

  /** An Area stored under `code` is one the area filter lets in: there is
      no filter, or the code or one of the Area's names scores against it. */
  predicate AreaAdmitted(filter: set<string>, code: string, a: Area) {
    filter == {} || WildcardCount(filter, code) > 0 ||
    exists lang :: lang in a.names && WildcardCount(filter, a.names[lang]) > 0
  }

  /** Every Area that `after` holds and `before` did not is admitted. */
  predicate NewAreasAdmitted(before: Registry, after: Registry, filter: set<string>) {
    forall c :: c in after.byCode && c !in before.byCode ==> AreaAdmitted(filter, c, after.byCode[c])
  }

  /** An Area stored under `code` that the filter lets in through its code
      or through its name in one of `langs` alone. */
  predicate AdmittedBy(filter: set<string>, code: string, a: Area, langs: set<string>) {
    filter == {} || WildcardCount(filter, code) > 0 ||
    exists lang :: lang in langs && lang in a.names && WildcardCount(filter, a.names[lang]) > 0
  }

  /** Every Area that `after` holds and `before` did not is admitted
      through its code or its name in one of `langs`. */
  predicate NewAreasAdmittedBy(before: Registry, after: Registry, filter: set<string>, langs: set<string>) {
    forall c :: c in after.byCode && c !in before.byCode ==> AdmittedBy(filter, c, after.byCode[c], langs)
  }

  // ---------------------------------------------------------------------
  // Storing readings
  // ---------------------------------------------------------------------

  /** The Measure stored under `key` after `readings` are deposited in `a`:
      the existing Measure with the readings upserted and its label kept,
      or a new Measure with the readings. */
  function Deposited(a: Area, key: string, title: string, readings: map<int, real>): (m: Measure)
    ensures m.data == (if key in a.measures then a.measures[key].data else map[]) + readings
    ensures key !in a.measures ==> m.title == title
    ensures key in a.measures ==> m.title == a.measures[key].title
    ensures key in a.measures && Measures.Valid(a.measures[key]) ==> Measures.Valid(m)
    ensures key !in a.measures ==> Measures.Valid(m)
  {
    if key in a.measures then SetAll(a.measures[key], readings)
    else SetAll(NewMeasure(key, title), readings)
  }

  /** Readings deposited in one Area: into its Measure `key` when
      `Area::getMeasure` finds one (label untouched), else into a new
      Measure stored with `Area::setMeasure`. */
  function DepositInto(a: Area, key: string, title: string, readings: map<int, real>): (a': Area)
    requires IsLowered(key)
    ensures a' == a.(measures := a.measures[key := Deposited(a, key, title, readings)])
  {
    LowerNormalises(key);
    match GetMeasure(a, key)
    case Success(m) => a.(measures := a.measures[key := SetAll(m, readings)])
    case Failure(_) => SetMeasure(a, key, SetAll(NewMeasure(key, title), readings))
  }

  /** Depositing keeps the Area invariant. */
  lemma DepositIntoKeepsValid(a: Area, key: string, title: string, readings: map<int, real>)
    requires IsLowered(key)
    ensures WellFormed(a) ==> WellFormed(DepositInto(a, key, title, readings))
    ensures AreaValid(a) ==> AreaValid(DepositInto(a, key, title, readings))
  {
    var d := Deposited(a, key, title, readings);
    var a' := DepositInto(a, key, title, readings);
    assert a'.measures == a.measures[key := d];
    if AreaValid(a) {
      assert Measures.Valid(d);
      forall k | k in a'.measures
        ensures Measures.Valid(a'.measures[k])
      {
        if k != key {
          assert a'.measures[k] == a.measures[k];
        }
      }
    }
  }

  /** The last step both the by-year CSV and the JSON adapters take for an
      admitted row: a known Area has the readings deposited in place; for an
      unknown code `newArea` (the new Area, with its names but no Measures
      yet) has them deposited and is stored with `Areas<>::setArea`. The
      name index is left to the caller. */
  function Deposit(r: Registry, newArea: Area, key: string, title: string, readings: map<int, real>): (r': Registry)
    requires WellFormed(newArea) && IsLowered(key)
    ensures r'.byName == r.byName
    ensures r'.byCode.Keys == r.byCode.Keys + {newArea.code}
    ensures forall c :: c in r.byCode && c != newArea.code ==> r'.byCode[c] == r.byCode[c]
    ensures newArea.code in r.byCode ==> r'.byCode[newArea.code] == DepositInto(r.byCode[newArea.code], key, title, readings)
    ensures newArea.code !in r.byCode ==> r'.byCode[newArea.code] == DepositInto(newArea, key, title, readings)
  {
    var code := newArea.code;
    if code in r.byCode then r.(byCode := r.byCode[code := DepositInto(r.byCode[code], key, title, readings)])
    else
      DepositIntoKeepsValid(newArea, key, title, readings);
      SetArea(r, code, DepositInto(newArea, key, title, readings))
  }

  /** Depositing keeps the container invariant when the new Area is valid
      and carries the code it is stored under. */
  lemma DepositKeepsValid(r: Registry, newArea: Area, key: string, title: string, readings: map<int, real>)
    requires WellFormed(newArea) && IsLowered(key)
    requires RegistryValid(r) && AreaValid(newArea)
    ensures RegistryValid(Deposit(r, newArea, key, title, readings))
  {
    var code := newArea.code;
    var r' := Deposit(r, newArea, key, title, readings);
    var a := if code in r.byCode then r.byCode[code] else newArea;
    assert a.code == code && AreaValid(a);
    DepositIntoKeepsValid(a, key, title, readings);
    assert r'.byCode[code] == DepositInto(a, key, title, readings);
    assert r'.byCode[code].code == code;
    forall c | c in r'.byCode
      ensures r'.byCode[c].code == c && AreaValid(r'.byCode[c])
    {
      if c != code {
        assert r'.byCode[c] == r.byCode[c];
      }
    }
  }

  /** Depositing readings the year filter admits keeps every stored year
      admitted. */
  lemma DepositKeepsYearsWithin(r: Registry, newArea: Area, key: string, title: string, readings: map<int, real>, years: YearRange)
    requires WellFormed(newArea) && IsLowered(key)
    requires YearsWithin(r, years) && AreaYearsWithin(newArea, years)
    requires forall y :: y in readings ==> YearAdmitted(years, y)
    ensures YearsWithin(Deposit(r, newArea, key, title, readings), years)
  {
    var code := newArea.code;
    var r' := Deposit(r, newArea, key, title, readings);
    var a := if code in r.byCode then r.byCode[code] else newArea;
    DepositIntoKeepsYearsWithin(a, key, title, readings, years);
    forall c | c in r'.byCode
      ensures AreaYearsWithin(r'.byCode[c], years)
    {
      if c != code {
        assert r'.byCode[c] == r.byCode[c];
      }
    }
  }

  lemma DepositIntoKeepsYearsWithin(a: Area, key: string, title: string, readings: map<int, real>, years: YearRange)
    requires IsLowered(key) && AreaYearsWithin(a, years)
    requires forall y :: y in readings ==> YearAdmitted(years, y)
    ensures AreaYearsWithin(DepositInto(a, key, title, readings), years)
  {
    var a' := DepositInto(a, key, title, readings);
    var d := Deposited(a, key, title, readings);
    assert a'.measures == a.measures[key := d];
    forall k, y | k in a'.measures && y in a'.measures[k].data
      ensures YearAdmitted(years, y)
    {
      if k != key {
        assert a'.measures[k] == a.measures[k];
      }
    }
  }

  /** Depositing under a code the measures filter admits keeps every stored
      Measure code admitted. */
  lemma DepositKeepsMeasuresWithin(r: Registry, newArea: Area, key: string, title: string, readings: map<int, real>, measures: set<string>)
    requires WellFormed(newArea) && IsLowered(key)
    requires MeasuresWithin(r, measures) && AreaMeasuresWithin(newArea, measures)
    requires measures == {} || key in measures
    ensures MeasuresWithin(Deposit(r, newArea, key, title, readings), measures)
  {
    var code := newArea.code;
    var r' := Deposit(r, newArea, key, title, readings);
    var a := if code in r.byCode then r.byCode[code] else newArea;
    DepositIntoKeepsMeasuresWithin(a, key, title, readings, measures);
    forall c | c in r'.byCode
      ensures AreaMeasuresWithin(r'.byCode[c], measures)
    {
      if c != code {
        assert r'.byCode[c] == r.byCode[c];
      }
    }
  }

  lemma DepositIntoKeepsMeasuresWithin(a: Area, key: string, title: string, readings: map<int, real>, measures: set<string>)
    requires IsLowered(key) && AreaMeasuresWithin(a, measures)
    requires measures == {} || key in measures
    ensures AreaMeasuresWithin(DepositInto(a, key, title, readings), measures)
  {
    var a' := DepositInto(a, key, title, readings);
    assert a'.measures.Keys == a.measures.Keys + {key};
  }

  /** Depositing readings changes no code or name, so the Areas added since
      `before` stay admitted, provided a new Area is admitted itself. */
  lemma DepositKeepsNewAreasAdmitted(before: Registry, r: Registry, newArea: Area, key: string, title: string, readings: map<int, real>, filter: set<string>)
    requires WellFormed(newArea) && IsLowered(key)
    requires NewAreasAdmitted(before, r, filter)
    requires newArea.code in r.byCode || AreaAdmitted(filter, newArea.code, newArea)
    ensures NewAreasAdmitted(before, Deposit(r, newArea, key, title, readings), filter)
  {
    var code := newArea.code;
    var r' := Deposit(r, newArea, key, title, readings);
    var a := if code in r.byCode then r.byCode[code] else newArea;
    assert r'.byCode[code].names == a.names;
    forall c | c in r'.byCode && c !in before.byCode
      ensures AreaAdmitted(filter, c, r'.byCode[c])
    {
      if c != code {
        assert r'.byCode[c] == r.byCode[c];
      } else if code in r.byCode {
        assert AreaAdmitted(filter, c, a);
      }
    }
  }

  /** The same for admission through the code or the names in `langs`. */
  lemma DepositKeepsNewAreasAdmittedBy(before: Registry, r: Registry, newArea: Area, key: string, title: string,
                                       readings: map<int, real>, filter: set<string>, langs: set<string>)
    requires WellFormed(newArea) && IsLowered(key)
    requires NewAreasAdmittedBy(before, r, filter, langs)
    requires newArea.code in r.byCode || AdmittedBy(filter, newArea.code, newArea, langs)
    ensures NewAreasAdmittedBy(before, Deposit(r, newArea, key, title, readings), filter, langs)
  {
    var code := newArea.code;
    var r' := Deposit(r, newArea, key, title, readings);
    var a := if code in r.byCode then r.byCode[code] else newArea;
    assert r'.byCode[code].names == a.names;
    forall c | c in r'.byCode && c !in before.byCode
      ensures AdmittedBy(filter, c, r'.byCode[c], langs)
    {
      if c != code {
        assert r'.byCode[c] == r.byCode[c];
      } else if code in r.byCode {
        assert AdmittedBy(filter, c, a, langs);
      }
    }
  }

  /** After a deposit the Area is found under its code, the Measure under
      `key`, and every deposited reading under its year. */
  lemma DepositStoresReadings(r: Registry, newArea: Area, key: string, title: string, readings: map<int, real>)
    requires WellFormed(newArea) && IsLowered(key)
    ensures var r' := Deposit(r, newArea, key, title, readings);
      GetArea(r', newArea.code).Success? &&
      GetMeasure(GetArea(r', newArea.code).value, key).Success? &&
      forall y :: y in readings ==> GetValue(GetMeasure(GetArea(r', newArea.code).value, key).value, y) == Success(readings[y])
  {
    var code := newArea.code;
    var r' := Deposit(r, newArea, key, title, readings);
    var a := if code in r.byCode then r.byCode[code] else newArea;
    LowerNormalises(key);
    assert r'.byCode[code] == DepositInto(a, key, title, readings);
    assert r'.byCode[code].measures[key] == Deposited(a, key, title, readings);
  }
}
