/** Normalisation of the command-line arguments into the filters and the
    dataset list the ingestion engine is driven by. The raw option values
    are the input: `None` for an option that was not given, so the
    library's "option not present" exception becomes a case of the
    datatype. */
module Arguments {
  import opened Wrappers
  import opened Text
  import opened Datasets
  import opened AreaRegistry
  import opened Adapters

  const YEARS_ERROR: string := "Invalid input for years argument"
  const NO_MATCH: string := "No dataset matches key: "

  /** The value of the years option when it is not given. */
  const YEARS_DEFAULT: string := "0"

  // ---------------------------------------------------------------------
  // Datasets
  // ---------------------------------------------------------------------

  /** An argument entry that names one dataset rather than "all". */
  predicate Recognised(entry: string) {
    var code := Lower(entry);
    code != "all" && Lookup(code).Some?
  }

  /** The index of the first entry that is "all" or names no dataset, or
      `|entries|` when every entry names a dataset. */
  function FirstUnrecognised(entries: seq<string>): (k: nat)
    ensures k <= |entries|
    ensures forall j :: 0 <= j < k ==> Recognised(entries[j])
    ensures k < |entries| ==> !Recognised(entries[k])
  {
    if entries == [] then 0
    else if !Recognised(entries[0]) then 0
    else
      var k := 1 + FirstUnrecognised(entries[1..]);
      assert forall j :: 1 <= j < |entries| ==> entries[j] == entries[1..][j - 1];
      k
  }

  /** The datasets named by `entries`, one per entry, in argument order. */
  function Named(entries: seq<string>): (ds: seq<InputFileSource>)
    requires forall j :: 0 <= j < |entries| ==> Recognised(entries[j])
    ensures |ds| == |entries|
  {
    seq(|entries|, j requires 0 <= j < |entries| => NamedBy(entries[j]))
  }

  /** The dataset one recognised entry names. */
  function NamedBy(entry: string): (d: InputFileSource)
    requires Recognised(entry)
    ensures d in DATASETS && d.code == Lower(entry)
  {
    Lookup(Lower(entry)).value
  }

  /** `parseDatasetsArg`: an absent or empty argument selects the whole
      table. Otherwise the entries are lower-cased and looked up one by one
      in the table; "all" selects the whole table, discarding what was
      picked so far, and the first code the table does not hold is an
      error. Duplicates are kept. */
  method ParseDatasetsArg(arg: Option<seq<string>>) returns (r: Result<seq<InputFileSource>>)
    ensures arg.None? || arg.value == [] ==> r == Success(DATASETS)
    ensures arg.Some? && arg.value != [] ==> r == Selected(arg.value)
  {
    if arg.None? || arg.value == [] {
      return Success(DATASETS);
    }
    r := SelectDatasets(arg.value);
  }

  /** What a non-empty list of entries selects: the named datasets when
      every entry names one, else what the first entry that does not
      decides, the whole table for "all" and an error otherwise. */
  function Selected(entries: seq<string>): Result<seq<InputFileSource>> {
    var k := FirstUnrecognised(entries);
    if k == |entries| then Success(Named(entries))
    else
      var bad := Lower(entries[k]);
      if bad == "all" then Success(DATASETS) else Failure(InvalidArgument(NO_MATCH + bad))
  }

  /** The loop over the entries, in argument order. */
  method SelectDatasets(entries: seq<string>) returns (r: Result<seq<InputFileSource>>)
    ensures r == Selected(entries)
  {
    var chosen: seq<InputFileSource> := [];
    var n := 0;
    while n < |entries|
      invariant 0 <= n <= |entries|
      invariant forall j :: 0 <= j < n ==> Recognised(entries[j])
      invariant |chosen| == n
      invariant forall j :: 0 <= j < n ==> chosen[j] == NamedBy(entries[j])
    {
      var code := Lower(entries[n]);
      if code == "all" {
        NotRecognisedEndsScan(entries, n);
        return Success(DATASETS);
      }
      var found := FindDataset(code);
      if found.None? {
        NotRecognisedEndsScan(entries, n);
        return Failure(InvalidArgument(NO_MATCH + code));
      }
      SelectionGrows(entries, n, chosen, found.value);
      chosen := chosen + [found.value];
      n := n + 1;
    }
    AllRecognised(entries);
    assert chosen == Named(entries);
    return Success(chosen);
  }

  /** One more recognised entry extends the selection by its dataset. */
  lemma SelectionGrows(entries: seq<string>, n: nat, chosen: seq<InputFileSource>, d: InputFileSource)
    requires n < |entries| && |chosen| == n
    requires forall j :: 0 <= j < n ==> Recognised(entries[j])
    requires forall j :: 0 <= j < n ==> chosen[j] == NamedBy(entries[j])
    requires Lower(entries[n]) != "all" && Lookup(Lower(entries[n])) == Some(d)
    ensures forall j :: 0 <= j < n + 1 ==> Recognised(entries[j])
    ensures forall j :: 0 <= j < n + 1 ==> (chosen + [d])[j] == NamedBy(entries[j])
  {
    assert Recognised(entries[n]);
  }

  /** The linear scan of the table for one lower-cased code. */
  method FindDataset(code: string) returns (found: Option<InputFileSource>)
    ensures found == Lookup(code)
  {
    var i := 0;
    while i < |DATASETS|
      invariant 0 <= i <= |DATASETS|
      invariant forall j :: 0 <= j < i ==> DATASETS[j].code != code
    {
      if DATASETS[i].code == code {
        LookupFindsFirst(DATASETS, code, i);
        return Some(DATASETS[i]);
      }
      i := i + 1;
    }
    return None;
  }

  /** The scan's own loop stops where `FirstUnrecognised` points. */
  lemma NotRecognisedEndsScan(entries: seq<string>, n: nat)
    requires n < |entries|
    requires forall j :: 0 <= j < n ==> Recognised(entries[j])
    requires !Recognised(entries[n])
    ensures FirstUnrecognised(entries) == n
  {
  }

  lemma AllRecognised(entries: seq<string>)
    requires forall j :: 0 <= j < |entries| ==> Recognised(entries[j])
    ensures FirstUnrecognised(entries) == |entries|
  {
  }

  /** The table scan stops at the first row with the code it looks for. */
  lemma {:induction false} LookupFindsFirst(table: seq<InputFileSource>, code: string, i: nat)
    requires i < |table| && table[i].code == code
    requires forall j :: 0 <= j < i ==> table[j].code != code
    ensures LookupIn(table, code) == Some(table[i])
    decreases i
  {
    if i > 0 {
      LookupFindsFirst(table[1..], code, i - 1);
    }
  }

  /** "all" selects the whole table wherever it stands, once every entry
      before it names a dataset: what was picked before it is dropped. */
  lemma AllSelectsWholeTable(entries: seq<string>, i: nat)
    requires i < |entries| && EqualsIgnoreCase(entries[i], "all")
    requires forall j :: 0 <= j < i ==> Recognised(entries[j])
    ensures Selected(entries) == Success(DATASETS)
  {
    assert Lower("all") == "all" by { LowerNormalises("all"); }
    NotRecognisedEndsScan(entries, i);
  }

  /** The first entry naming no dataset is reported, lower-cased, even
      when an "all" follows it. */
  lemma UnknownCodeFails(entries: seq<string>, i: nat)
    requires i < |entries| && Lower(entries[i]) != "all" && Lookup(Lower(entries[i])).None?
    requires forall j :: 0 <= j < i ==> Recognised(entries[j])
    ensures Selected(entries) == Failure(InvalidArgument(NO_MATCH + Lower(entries[i])))
  {
    NotRecognisedEndsScan(entries, i);
  }

  /** A successful selection only ever holds datasets of the table, and it
      is the whole table or one dataset per entry. */
  lemma SelectionFromTable(entries: seq<string>)
    requires Selected(entries).Success?
    ensures forall d :: d in Selected(entries).value ==> d in DATASETS
    ensures Selected(entries).value == DATASETS || |Selected(entries).value| == |entries|
  {
  }

  /** Whatever is chosen comes from the table, and the datasets chosen by
      name are exactly those named, each under its own code. */
  lemma NamedDatasetsComeFromTable(entries: seq<string>)
    requires forall j :: 0 <= j < |entries| ==> Recognised(entries[j])
    ensures forall j :: 0 <= j < |entries| ==>
      Named(entries)[j] in DATASETS && Named(entries)[j].code == Lower(entries[j])
  {
  }

  /** Naming every dataset by its own code, in any capitalisation, selects
      the table back in table order. */
  lemma NamingEveryCodeSelectsTable(entries: seq<string>)
    requires |entries| == |DATASETS|
    requires forall j :: 0 <= j < |entries| ==> Lower(entries[j]) == DATASETS[j].code
    ensures forall j :: 0 <= j < |entries| ==> Recognised(entries[j])
    ensures Named(entries) == DATASETS
  {
    CodesDistinct();
    forall j | 0 <= j < |entries|
      ensures Lookup(Lower(entries[j])) == Some(DATASETS[j])
    {
      LookupFindsEachDataset(j);
    }
  }

  // ---------------------------------------------------------------------
  // Areas and measures
  // ---------------------------------------------------------------------

  /** `parseAreasArg`: the codes as given (not lower-cased), or the empty
      set, meaning no filter, when the option is absent or any entry is
      "all" in any capitalisation. */
  function ParseAreasArg(arg: Option<seq<string>>): (areas: set<string>)
    ensures areas == {} <==> arg.None? || |arg.value| == 0 || exists e :: e in arg.value && EqualsIgnoreCase(e, "all")
    ensures areas != {} ==> forall e :: e in areas <==> e in arg.value
  {
    match arg
    case None => {}
    case Some(entries) =>
      var given := set e | e in entries;
      if exists e :: e in given && Lower(e) == "all" then {}
      else
        assert Lower("all") == "all" by { LowerNormalises("all"); }
        assert entries != [] ==> entries[0] in given;
        given
  }

  /** An area filter built from the argument admits every code listed in
      it, whatever the registry holds. */
  lemma AreasArgAdmitsListedCodes(arg: Option<seq<string>>, r: Registry, code: string)
    requires arg.Some? && code in arg.value
    ensures !IsLocalAuthorityFiltered(r, ParseAreasArg(arg), code)
  {
    AdmittedCodes(r, ParseAreasArg(arg), code);
  }

  /** `parseMeasuresArg`: every entry lower-cased, or the empty set, meaning
      no filter, when the option is absent or an entry is "all" in any
      capitalisation. */
  function ParseMeasuresArg(arg: Option<seq<string>>): (measures: set<string>)
    ensures forall m :: m in measures ==> IsLowered(m)
    ensures measures == {} <==> arg.None? || |arg.value| == 0 || exists e :: e in arg.value && EqualsIgnoreCase(e, "all")
  {
    match arg
    case None => {}
    case Some(entries) =>
      var lowered := set e | e in entries :: Lower(e);
      assert Lower("all") == "all" by { LowerNormalises("all"); }
      assert entries != [] ==> Lower(entries[0]) in lowered;
      assert forall m :: m in lowered ==> IsLowered(m) by {
        forall e | e in entries ensures IsLowered(Lower(e)) { LowerNormalises(e); }
      }
      if "all" in lowered then {} else lowered
  }

  /** With a measures filter in force, a measure code is admitted exactly
      when the argument lists it in some capitalisation: the filter is
      compared with lower-cased codes, so it ignores case. */
  lemma MeasuresArgIgnoresCase(arg: Option<seq<string>>, code: string)
    requires ParseMeasuresArg(arg) != {}
    ensures Lower(code) in ParseMeasuresArg(arg) <==> exists e :: e in arg.value && EqualsIgnoreCase(e, code)
  {
  }

  // ---------------------------------------------------------------------
  // Years
  // ---------------------------------------------------------------------

  /** The `invalid_argument` from `stoi` is reported as a bad years
      argument; its `out_of_range` is not caught. */
  function YearsFailure(e: Error): (r: Result<YearRange>)
    ensures r.Failure?
    ensures e.InvalidArgument? ==> r.error == InvalidArgument(YEARS_ERROR)
  {
    if e.InvalidArgument? then Failure(InvalidArgument(YEARS_ERROR)) else Failure(e)
  }

  /** The two ends of a range: `stoi` on each part, converted to unsigned;
      the first part's error is reported first. */
  function YearsPair(first: string, second: string): Result<YearRange> {
    match StoI(first)
    case Failure(e) => YearsFailure(e)
    case Success(lo) =>
      match StoI(second)
      case Failure(e) => YearsFailure(e)
      case Success(hi) => Success(YearRange(ToU32(lo), ToU32(hi)))
  }

  /** The range read from the bytes on either side of the hyphen at `h`. */
  function YearsAround(bytes: string, h: nat): Result<YearRange>
    requires h < |bytes|
  {
    YearsPair(bytes[..h], bytes[h + 1..])
  }

  /** `parseYearsArg` on the option's text, held by the program as its
      UTF-8 bytes: "0" and "0-0" mean no filter; otherwise a value with a
      hyphen must be nine bytes long and is read as two numbers split at
      the first hyphen, and a value without one must be four bytes long
      and is read as one year used for both ends. Each number is what
      `stoi` reads, converted to unsigned; the order of the two ends is not
      checked. */
  function ParseYearsArg(value: string): (r: Result<YearRange>)
    ensures value == "0" || value == "0-0" ==> r == Success(ALL_YEARS)
    ensures r.Success? && value != "0" && value != "0-0" ==>
      if '-' in value then |Utf8(value)| == 9 else |Utf8(value)| == 4
    ensures '-' !in value && |Utf8(value)| == 4 ==>
      r == match StoI(Utf8(value))
           case Success(y) => Success(YearRange(ToU32(y), ToU32(y)))
           case Failure(e) => YearsFailure(e)
    ensures '-' in value && |Utf8(value)| == 9 ==>
      '-' in Utf8(value) && r == YearsAround(Utf8(value), Find(Utf8(value), '-'))
  {
    Utf8KeepsAscii(value, '-');
    ParseYearsBytes(Utf8(value))
  }

  /** The same on the bytes themselves. */
  function ParseYearsBytes(bytes: string): (r: Result<YearRange>)
    ensures bytes == "0" || bytes == "0-0" ==> r == Success(ALL_YEARS)
    ensures r.Success? && bytes != "0" && bytes != "0-0" ==>
      if '-' in bytes then |bytes| == 9 else |bytes| == 4
    ensures '-' in bytes && |bytes| == 9 ==> r == YearsAround(bytes, Find(bytes, '-'))
  {
    var h := Find(bytes, '-');
    if h < |bytes| then
      if bytes == "0-0" then Success(ALL_YEARS)
      else if |bytes| != 9 then Failure(InvalidArgument(YEARS_ERROR))
      else
        YearsAround(bytes, h)
    else
      if bytes == "0" then Success(ALL_YEARS)
      else if |bytes| != 4 then Failure(InvalidArgument(YEARS_ERROR))
      else
        match StoI(bytes)
        case Failure(e) => YearsFailure(e)
        case Success(y) => Success(YearRange(ToU32(y), ToU32(y)))
  }

  /** Every way the years argument can fail is the one `invalid_argument`:
      each number read is at most eight bytes long, so `stoi` can never
      report it out of range. */
  lemma YearsArgOnlyError(value: string)
    ensures ParseYearsArg(value).Failure? ==> ParseYearsArg(value).error == InvalidArgument(YEARS_ERROR)
  {
    var bytes := Utf8(value);
    var h := Find(bytes, '-');
    if h < |bytes| {
      if |bytes| == 9 {
        StoIShortInRange(bytes[..h]);
        StoIShortInRange(bytes[h + 1..]);
      }
    } else if |bytes| == 4 {
      StoIShortInRange(bytes);
    }
  }

  /** Lengths are counted in bytes: four characters one of which needs two
      bytes are rejected, where four ASCII digits would be a year. */
  lemma YearsArgCountsBytes()
    ensures ParseYearsArg("199\U{E9}") == Failure(InvalidArgument(YEARS_ERROR))
  {
    var value := "199\U{E9}";
    assert !IsAscii(value[3]);
    assert '-' !in value;
    Utf8KeepsAscii(value, '-');
    assert |Utf8(value)| > 4;
  }

  /** The option's default selects no year filter. */
  lemma YearsDefaultIsNoFilter()
    ensures ParseYearsArg(YEARS_DEFAULT) == Success(ALL_YEARS)
    ensures !YearsFilterEnabled(ParseYearsArg(YEARS_DEFAULT).value)
  {
  }

  /** A four-digit year prints as four digits, none of them a hyphen, and
      reads back as itself. */
  lemma FourDigitYear(y: nat)
    requires 1000 <= y <= 9999
    ensures |NatToString(y)| == 4 && '-' !in NatToString(y)
    ensures StoI(NatToString(y)) == Success(y)
  {
    var a := y / 10;
    var b := a / 10;
    var c := b / 10;
    assert 1 <= c < 10 && |NatToString(c)| == 1;
    assert |NatToString(b)| == 2;
    assert |NatToString(a)| == 3;
    StoIOfIntToString(y);
  }

  /** A four-digit year on its own filters to exactly that year. */
  lemma YearsArgSingleYear(y: nat)
    requires 1000 <= y <= 9999
    ensures ParseYearsArg(NatToString(y)) == Success(YearRange(y, y))
  {
    FourDigitYear(y);
  }

  /** "YYYY-ZZZZ" filters to the range from YYYY to ZZZZ, in the order
      written, even when the start is after the end. */
  lemma YearsArgRange(lo: nat, hi: nat)
    requires 1000 <= lo <= 9999 && 1000 <= hi <= 9999
    ensures ParseYearsArg(NatToString(lo) + "-" + NatToString(hi)) == Success(YearRange(lo, hi))
  {
    FourDigitYear(lo);
    FourDigitYear(hi);
    RangeText(NatToString(lo), NatToString(hi));
    var value := NatToString(lo) + "-" + NatToString(hi);
    assert YearsAround(value, 4) == YearsPair(NatToString(lo), NatToString(hi));
  }

  /** Two four-digit numbers around a hyphen: ASCII text whose first
      hyphen is at index 4. */
  lemma RangeText(first: string, second: string)
    requires |first| == 4 && |second| == 4 && AllDigits(first) && AllDigits(second)
    ensures var value := first + "-" + second;
      |value| == 9 && '-' in value && Utf8(value) == value && Find(value, '-') == 4 &&
      value[..4] == first && value[5..] == second
  {
    var value := first + "-" + second;
    assert value[4] == '-';
    assert forall j :: 0 <= j < 4 ==> value[j] == first[j];
    assert forall j :: 0 <= j < |value| ==> IsAscii(value[j]);
    assert value[..4] == first;
    assert value[5..] == second;
  }

  /** A year filter parsed from a range admits exactly the years between
      its ends. */
  lemma YearsArgRangeAdmits(lo: nat, hi: nat, year: int)
    requires 1000 <= lo <= 9999 && 1000 <= hi <= 9999
    requires 0 <= year < 0x1_0000_0000
    ensures var r := ParseYearsArg(NatToString(lo) + "-" + NatToString(hi));
      r.Success? && (YearAdmitted(r.value, year) <==> lo <= year <= hi)
  {
    YearsArgRange(lo, hi);
  }
}
