# Beth Yw? ingestion engine, modelled in Dafny

Beth Yw? imports Welsh Government statistics about local authorities. The files come in three formats:
- a CSV of authority codes and names;
- a "wide" CSV with one column per year;
- the StatsWales JSON export.

Everything ends up in one container, `Areas<>`. It maps each authority code to an `Area`. An Area holds its names by language and its statistics. Each statistic is a `Measure`: a year-to-value map with a cached sum. A second index maps area names to codes.

This project models that engine as pure functions over immutable datatypes:
- `Measures` (measure.dfy) models `Measure`: upsert, average, first-to-last difference and percentage, and equality.
- `Areas` (areas.dfy) models `Area`: language-checked names, case-folded measure codes, and merge-on-insert.
- `AreaRegistry` (registry.dfy) models the `Areas<>` container: `setArea`'s merge, `getArea`'s code-then-name lookup, the name index, and the retroactive area filter.
- `Filters` (filters.dfy) models the wildcard score used by every area filter, both as a reference definition and as the program's loop.
- `Adapters` (adapters.dfy) holds what the three format adapters share:
  - the year filter;
  - how a row's readings are deposited in the container;
  - the invariants every import keeps.
- `AuthorityCsv`, `ByYearCsv` and `WelshStatsJson` model the three format adapters. Each is a fold over rows or records. The first failure ends the fold, and everything stored before it is kept.
- `Populate` models the dispatch on the data type.
- `Arguments` models the normalisation of the command-line options into filters and a dataset list.
- `Datasets` is the static dataset table.
- `Text` models the string primitives the program relies on:
  - ASCII `tolower`;
  - `getline` splitting;
  - `std::stoi`, `std::stod` and `std::to_string`;
  - `unsigned int` conversion;
  - the UTF-8 bytes a `std::string` holds for command-line text.
- `Wrappers` holds `Option`, `Result` and the exception kinds.

An exception is a `Failure` carrying the exception class and its message. An adapter returns `Loaded(registry)` or `Failed(error, registry)`. In the failure case, the registry is the partly filled container the program leaves behind.

Values are `real`, so the sum invariant `sum == Σ readings` holds exactly in the model. The program computes it with floating point.

## Model

| member | source | states |
|---|---|---|
| Measures.NewMeasure | solution/measure.cpp:49-56 | the code is stored lower-cased (equal to the argument ignoring case), the label verbatim, no readings, and the sum invariant holds |
| Measures.GetValue | solution/measure.cpp:143-149 | succeeds exactly for a year with a reading and returns it; otherwise `out_of_range("No value found for year " + year)` |
| Measures.SetValue | solution/measure.cpp:173-193 | afterwards the readings are the old ones with `year` set to `value`; size grows by one only for a new year; the cached sum stays the total of the readings |
| Measures.SetValueTwice | solution/measure.cpp:173-182 | a second upsert of the same year overrides the first, and `getValue` returns the last value |
| Measures.SetAll | data.cpp:1225-1227 | upserting every reading of a map leaves old readings for other years and the incoming ones for theirs; the sum invariant is kept |
| Measures.Merge | data.cpp:527-543 | the merged Measure keeps its code and takes the incoming label; overlapping years take the incoming value, others are kept from either side; its size is the size of the union of years |
| Measures.Average | solution/measure.cpp:283-289 | 0 with no readings, otherwise a value that times the number of readings is the total of the readings |
| Measures.Difference | solution/measure.cpp:234-240 | 0 with no readings |
| Measures.DifferenceIsLastMinusFirst | solution/measure.cpp:234-240 | the difference is the reading of the latest year minus the reading of the earliest year |
| Measures.DifferenceAsPercentage | solution/measure.cpp:259-265 | 0 with no readings, otherwise a value that times the earliest reading is 100 times the difference |
| Measures.SingleReadingHasNoTrend | solution/measure.cpp:234-265 | with one reading both the difference and the percentage are 0 |
| Measures.Equal | solution/measure.cpp:403-408 | equal exactly when code, label, readings and sum are equal |
| Measures.EqualIgnoresCachedSum | solution/measure.cpp:403-408 | for Measures keeping the sum invariant, the sum adds nothing: equality is code, label and readings |
| Areas.NewArea | data.cpp:342-350 | a new Area has its code, no names and no Measures |
| Areas.SetName | data.cpp:426-442 | succeeds exactly for a three-letter ASCII language code, storing the name under the lower-cased code; otherwise `invalid_argument` with the program's message |
| Areas.GetName | data.cpp:388-391 | succeeds exactly when the lower-cased language code has a name, and returns it |
| Areas.SetNameThenGetName | data.cpp:388-442 | after `setName`, `getName` with the same code in any case returns the new name, and with any other code returns what it returned before |
| Areas.GetMeasureAsWritten | data.cpp:501-503 | succeeds exactly when the key, as given, is stored |
| Areas.GetMeasure | data.cpp:501-503 | succeeds exactly when the lower-cased key is stored (the documented behaviour) |
| Areas.GetMeasureAgreesOnLoweredKeys | data.cpp:501-503 | for a key already in lower case the written and documented lookups agree |
| Areas.MixedCaseMeasureLookup | data.cpp:501-543 | a Measure set under "Pop" is not found by the written lookup under "Pop" but is found by the documented one |
| Areas.SetMeasure | data.cpp:527-543 | the key is lower-cased; a new key inserts the Measure, a stored one is merged; code, names and all other Measures are unchanged |
| Areas.SetMeasureTwiceMerges | data.cpp:527-543 | setting a new code then the same code in another case adds one Measure, whose label is the second label and whose readings are the union, the second winning |
| Areas.HeaderLineAsWritten | data.cpp:636-657 | the header line for an Area with no names, or only an English name, as the program prints it |
| Areas.HeaderLine | data.cpp:636-657 | the header line as documented in all four name cases |
| Areas.HeaderLinesAgreeUnlessOnlyWelsh | data.cpp:636-657 | the written and documented header lines agree exactly when the Area does not have a Welsh name without an English one |
| Areas.WelshOnlyHeader | data.cpp:636-657 | an Area named only "Powys" in Welsh is printed "PowysUnnamed (W06000023)" instead of "Powys (W06000023)" |
| Areas.Equal | data.cpp:687-692 | equal exactly when code, names and Measures are equal |
| Filters.WildcardCount | data.cpp:844-873 | the score is at most the number of needles plus one, and at most twice the number of needles; an exact match scores at least one |
| Filters.Search | data.cpp:858-866 | the case-insensitive `std::search` returns the first offset where the needle occurs in the upper-cased haystack, or the end |
| Filters.WildcardCountSet | data.cpp:844-873 | the program's loop computes exactly the reference score: one for an exact match plus one per needle occurring case-insensitively in the haystack |
| Filters.ExactTermScoresTwice | data.cpp:844-873 | a non-empty haystack that is itself a needle scores at least two |
| Filters.ScorePositiveIff | data.cpp:844-873 | the score is positive exactly when the haystack is a needle or some needle occurs in it |
| Filters.EmptyHaystack | data.cpp:844-873 | the empty haystack scores only its exact match |
| Filters.SearchIgnoresCase | data.cpp:851-866 | haystacks that differ only in letter case match the same needles |
| AreaRegistry.MergeInto | data.cpp:727-746 | merging keeps the code; incoming names win, other names are kept; a Measure code present on one side only keeps that side's Measure, and one present on both sides becomes the existing Measure merged with the incoming one as `setMeasure` does; well-formedness and the sum invariants are kept |
| AreaRegistry.MergeIntoSetsMeasures | data.cpp:737-739 | the merge equals merging all other Measures and then calling `setMeasure` for the last one, so it does not depend on visit order |
| AreaRegistry.MergeIntoSetsNames | data.cpp:732-735 | the merge equals merging all other names and then calling `setName` for the last one, which succeeds |
| AreaRegistry.SetArea | data.cpp:727-746 | an unknown code inserts the Area; a known one is merged; other codes and the name index are unchanged; the container invariant is kept |
| AreaRegistry.GetArea | data.cpp:813-826 | succeeds exactly when the key is a code, or a name indexed to a code; the code is tried first; otherwise `out_of_range("No area found matching " + key)` |
| AreaRegistry.GetAreaByName | data.cpp:813-826 | in a valid container, a name that is not also a code finds the Area it is indexed to |
| AreaRegistry.SetAreaThenGetArea | data.cpp:727-826 | an inserted Area is found under its code and the container grows by one |
| AreaRegistry.IndexName | data.cpp:1043-1044 | the name index keeps the first code a name was given; the Areas are unchanged |
| AreaRegistry.IsLocalAuthorityFiltered | data.cpp:889-926 | an Area is excluded exactly when a filter is set, its code scores 0 and the code is not stored yet: the loop over names cannot change the answer |
| AreaRegistry.AdmittedCodes | data.cpp:889-926 | a code named in the filter, or already stored, is never excluded |
| Datasets.LookupIn | solution/bethyw.cpp:214-222 | the scan finds a dataset exactly when some row of the table has the code, and returns a row with that code |
| Datasets.CodesDistinct | datasets.h:173-181 | the table has seven datasets with distinct lower-case codes, none of them "all" |
| Datasets.LookupFindsEachDataset | datasets.h:173-181 | each dataset is found under its own code |
| Adapters.Deposited | data.cpp:1216-1249 | the Measure a row's readings end up in: the stored Measure with the readings upserted (keeping its label), or a new Measure with the row's label |
| Adapters.DepositIntoKeepsValid | data.cpp:1216-1249 | depositing readings keeps an Area well formed and keeps every Measure's sum invariant |
| Adapters.Deposit | data.cpp:1216-1249 | a stored Area gets the readings deposited; an unknown code stores the new Area with the readings; nothing else changes |
| Adapters.DepositKeepsValid | data.cpp:1216-1249 | a deposit keeps the container invariant |
| Adapters.DepositKeepsYearsWithin | data.cpp:1187-1191 | depositing admitted readings keeps every stored year inside the year filter |
| Adapters.DepositKeepsMeasuresWithin | data.cpp:1484-1490 | depositing under an admitted Measure code keeps every stored Measure inside the measures filter |
| Adapters.DepositKeepsNewAreasAdmitted | data.cpp:1445-1471 | depositing an admitted Area keeps every added Area admitted by the area filter |
| Adapters.DepositStoresReadings | data.cpp:1216-1249 | after a deposit each deposited year is found through `getArea`, `getMeasure` and `getValue` with its value |
| AuthorityCsv.RowArea | data.cpp:1040-1042 | a row's Area has its code, exactly the names "eng" and "cym", and no Measures |
| AuthorityCsv.ImportRow | data.cpp:1040-1044 | the row's Area is inserted or merged, both names are indexed with the first code winning, and the container invariant is kept |
| AuthorityCsv.PopulateFromAuthorityCodeCSV | data.cpp:1003-1007 | an input without a line fails with "File contains no data"; otherwise the header is skipped and the rows are read from line 2 |
| AuthorityCsv.CodeRowsKeepsValid | data.cpp:997-1054 | the import keeps the container invariant |
| AuthorityCsv.CodeRowsAdmitsOnlyFiltered | data.cpp:1029-1034 | every Area the import adds has its code or a name scoring against the area filter |
| AuthorityCsv.CodeRowsLoadsWellFormed | data.cpp:1013-1047 | with no row shorter than three fields, the import loads |
| AuthorityCsv.CodeRowsStoresImportedRows | data.cpp:1036-1044 | every row the filter admits has its Area stored and both names indexed |
| AuthorityCsv.CodeRowsFailureLine | data.cpp:1011-1053 | the first short row fails the import with "Error on or near line N", where N is the start line plus the rows imported before it |
| AuthorityCsv.ImportedBeforeUnfiltered | data.cpp:1011-1047 | with no filter, every row before the short one is counted, so N is that row's own line |
| ByYearCsv.HeaderCell | data.cpp:1135-1146 | the authority code heading marks the code column; other cells are years read with `stoi`; an out-of-range year or a missing code heading is "Must specify valid AUTH_CODE column!" |
| ByYearCsv.HeaderCells | data.cpp:1133-1148 | the header is accepted exactly when every cell is, and then gives one marker per cell; otherwise the first rejected cell's error |
| ByYearCsv.ScanCells | data.cpp:1169-1200 | the cell loop only adds readings, keeps only admitted years and only an admitted code; it gets past the header's last column only when a code column is still ahead, where a filtered code stops it |
| ByYearCsv.PopulateFromAuthorityByYearCSV | data.cpp:1127-1149 | no line is "File contains no data", a rejected header fails before any row, otherwise the rows are read from line 2 |
| ByYearCsv.ByYearRowsKeepsValid | data.cpp:1153-1252 | the import keeps the container invariant |
| ByYearCsv.ByYearRowsKeepsYearsWithin | data.cpp:1187-1191 | every stored reading is for a year the filter admits |
| ByYearCsv.ByYearRowsAdmitsOnlyFiltered | data.cpp:1175-1179 | every Area the import adds is admitted by the area filter: its code or one of its names scores |
| ByYearCsv.ByYearRowsAdmitsOnlyCodes | data.cpp:1175-1179 | sharper: every Area the import adds is admitted through its code alone, since a by-year row gives its Area no names |
| ByYearCsv.ScanCellsReadings | data.cpp:1169-1200 | readings already gathered are kept; every reading added is the first non-blank cell of an admitted year, read by `stod`, so blank cells add nothing and a later cell of the same year does not replace an earlier one; an accepted code is the text of a code cell |
| ByYearCsv.ScanCellsRecordsEveryCell | data.cpp:1169-1200 | with no area filter every non-blank cell of an admitted year gives its year a reading, and a row with a code cell is imported |
| ByYearCsv.ByYearRowStoresReadings | data.cpp:1169-1251 | a row with a code cell loads; its Area, its Measure and every non-blank admitted year are then found through `getArea`, `getMeasure` and `getValue`, holding the first non-blank cell's value |
| ByYearCsv.BlankCellStoresNothing | data.cpp:1193-1198 | the row "W06000011,,711.68" under years 1991 and 1992 stores 711.68 for 1992 and no reading for the blank 1991 cell |
| WelshStatsJson.AsString | data.cpp:1436-1443 | a JSON value converts to a string exactly when it is a string; otherwise the library's type error |
| WelshStatsJson.AsNumber | data.cpp:1501-1502 | the floating-point conversion succeeds exactly for a number; a boolean, like null, an array or an object, is the library's "type must be number" error |
| WelshStatsJson.ReadingOf | data.cpp:1499-1506 | a number is read directly, a string through `stod`; a boolean, null, array or object fails the string fallback with "type must be string, but is …" |
| WelshStatsJson.JsonColumnsOf | data.cpp:1387-1415 | the column specification is accepted exactly when it names code, English name, year and value, and either a per-record or a fixed Measure (per-record preferred) |
| WelshStatsJson.JsonRecord | data.cpp:1433-1445 | a record whose code or English name is not a string fails with the column-mismatch error; otherwise codes and names are only added |
| WelshStatsJson.PopulateFromWelshStatsJSON | data.cpp:1375-1430 | an unparsable document fails first, then an incomplete specification, then the records are read in order; a document with no `value` array either has no records (null, or an object without the member) or fails on `j["value"]` with the library's type error 305 |
| WelshStatsJson.ValueMember | data.cpp:1430 | indexing a document by `"value"` succeeds with no records exactly for null and an object, and otherwise fails with "cannot use operator[] with a string argument with" and the kind |
| WelshStatsJson.ArrayDocumentFails | data.cpp:1430 | the document `[1,2]` passes the column checks and then fails with type error 305, leaving the container unchanged |
| WelshStatsJson.JsonRecordStep | data.cpp:1447-1536 | a record is skipped unchanged, or its reading is deposited with every filter passed and the lower-cased code |
| WelshStatsJson.JsonRecordsKeepsValid | data.cpp:1430-1537 | the import keeps the container invariant |
| WelshStatsJson.JsonRecordsKeepsYearsWithin | data.cpp:1492-1497 | every stored year is admitted by the year filter |
| WelshStatsJson.JsonRecordsKeepsMeasuresWithin | data.cpp:1484-1490 | every stored Measure code is admitted by the measures filter |
| WelshStatsJson.JsonRecordsAdmitsOnlyFiltered | data.cpp:1447-1471 | every Area the import adds is admitted by the area filter: its code or one of its names scores |
| WelshStatsJson.JsonRecordsAdmitsOnlyCodeOrEnglish | data.cpp:1447-1471 | sharper: every Area the import adds is admitted through its code or its English name; a Welsh name admits only an Area already stored |
| WelshStatsJson.JsonRecordStoresReading | data.cpp:1508-1536 | a well-typed record passing every filter is then found through `getArea`, `getMeasure` and `getValue` |
| WelshStatsJson.JsonRecordAdmitted | data.cpp:1508-1536 | such a record deposits its reading, and indexes the English name only for a new Area |
| WelshStatsJson.JsonRecordBooleanValueFails | data.cpp:1499-1506 | a record every filter admits but whose value is a boolean fails the import with "type must be string, but is boolean" |
| Populate.Populate | data.cpp:1693-1725 | each data type goes to its adapter with the filters it takes; `None` is "Unexpected data type" |
| Populate.PopulateUnfiltered | data.cpp:1592-1610 | the unfiltered overload accepts only the code CSV and the JSON, importing everything |
| Populate.PopulateKeepsValid | data.cpp:1693-1725 | whatever the type and outcome, the container invariant holds and no code is lost |
| Populate.PopulateAdmitsOnlyFiltered | data.cpp:1693-1725 | every Area added is admitted by the area filter |
| Populate.PopulateRespectsYearsAndMeasures | data.cpp:1693-1725 | the readings formats store only admitted years, and the JSON only admitted Measures |
| Arguments.FirstUnrecognised | solution/bethyw.cpp:205-226 | the index of the first entry that is "all" or names no dataset: every entry before it names one |
| Arguments.ParseDatasetsArg | solution/bethyw.cpp:185-236 | an absent or empty option selects the whole table; otherwise the result is the reference selection |
| Arguments.SelectDatasets | solution/bethyw.cpp:205-233 | the program's nested loops compute exactly the reference selection |
| Arguments.FindDataset | solution/bethyw.cpp:214-222 | the inner scan finds the same dataset as the lookup |
| Arguments.AllSelectsWholeTable | solution/bethyw.cpp:208-212 | "all" in any case, after only recognised codes, selects the whole table in table order |
| Arguments.UnknownCodeFails | solution/bethyw.cpp:224-226 | the first unknown code fails with "No dataset matches key: " and the lower-cased code, even if "all" follows |
| Arguments.SelectionFromTable | solution/bethyw.cpp:185-236 | a selection holds only datasets of the table: the whole table, or one per entry |
| Arguments.NamedDatasetsComeFromTable | solution/bethyw.cpp:214-222 | each selected dataset has the lower-cased code of its entry |
| Arguments.NamingEveryCodeSelectsTable | solution/bethyw.cpp:205-226 | naming every code, in any case and in table order, selects the table |
| Arguments.ParseAreasArg | solution/bethyw.cpp:263-285 | no filter exactly when the option is absent, empty or has "all" in any case; otherwise exactly the entries, not lower-cased |
| Arguments.AreasArgAdmitsListedCodes | solution/bethyw.cpp:263-285 | a code listed in the option is never excluded by the resulting filter |
| Arguments.ParseMeasuresArg | solution/bethyw.cpp:312-339 | every filter entry is lower case; no filter exactly when the option is absent, empty or has "all" in any case |
| Arguments.MeasuresArgIgnoresCase | solution/bethyw.cpp:312-339 | with a filter, a lower-cased Measure code is admitted exactly when the option lists it in some case |
| Arguments.ParseYearsArg | solution/bethyw.cpp:365-402 | "0" and "0-0" mean no filter; a success otherwise is 9 bytes long (UTF-8) with a hyphen or 4 without; a four-byte value without a hyphen gives (y, y) from `stoi` on its bytes; a nine-byte value with a hyphen gives (lo, hi) from `stoi` on the bytes before and after the first hyphen, each converted to unsigned, or the first of those reads' errors |
| Arguments.YearsArgCountsBytes | solution/bethyw.cpp:384-388 | lengths are counted in bytes, so "199é" (five bytes) is rejected with the years error |
| Arguments.YearsArgOnlyError | solution/bethyw.cpp:372-397 | every failure is `invalid_argument("Invalid input for years argument")`: no part is long enough for `stoi` to overflow |
| Arguments.YearsDefaultIsNoFilter | solution/bethyw.cpp:142 | the option's default "0" disables the year filter |
| Arguments.YearsArgSingleYear | solution/bethyw.cpp:384-392 | a four-digit year filters to exactly that year |
| Arguments.YearsArgRange | solution/bethyw.cpp:372-382 | "YYYY-ZZZZ" gives (YYYY, ZZZZ) in the order written, without checking the order |
| Arguments.YearsArgRangeAdmits | solution/bethyw.cpp:372-382 | the filter from a range admits exactly the years between its ends |

## Left out

- Stream I/O is left out. The adapters receive the input as text (`Populate.Stream`). The "Stream not open" check in `populate` is not modelled.
- The JSON text parser is left out. `Populate.Stream` carries its outcome: a parse error, the records under `"value"`, or the top-level kind of a document that has no `value` array. Other shapes are given by the records they behave as. A `value` member that is null gives no records, and one that is an object gives its members' values in order. An element that is not an object fails at its first field exactly as an empty record does, with the column-mismatch error, so it is written as the empty record. The same holds for a `value` that is a single non-object value. The messages of the JSON library's type errors are reproduced only for conversion to strings and numbers and for indexing by a string.
- Text.StoD: models `std::stod` only for plain decimal notation. Exponents, hexadecimal, `inf` and `nan` are not modelled, and the value is exact rather than rounded to a `double`. Its `out_of_range` error is not modelled either: a number too large for a `double` (or one that underflows it, such as a 400-digit cell) gives `Success` with the exact value. The program instead reports such a by-year CSV row as "Error on or near line N" (data.cpp:1196, caught at 1254-1259) and lets the error escape from the JSON adapter (data.cpp:1505). Without floating point in the model there is no `double` range to compare against.
- Printing is left out except for the header line of an Area: Measure rendering, `setw` and `toJSON`.
- Argument extraction is left out: cxxopts parsing, the "Invalid input for … argument" `bad_cast` branches and the program's exit paths. Each parser takes the option's raw value, `None` when the option was not given.
- `Area::mNamesList` is not modelled. The engine only initialises it empty and compares it in `operator==`; nothing ever adds to it. It is therefore always empty, and `Areas.Equal` is exact without it.
- Iteration order of unordered containers is not modelled. Filters are sets, and a JSON record is a map.
- The line counter's `unsigned int` wrap-around is not modelled, because no input has 2^32 lines.
- AreaRegistry.SetArea: requires a well-formed Area (three-letter lower-case language codes, lower-case Measure codes). The program builds every Area it stores that way, so the precondition states what its callers guarantee, not a check the program makes.
- Measures.DifferenceAsPercentage: requires the earliest reading to be non-zero. The program divides by it without a guard.
- ByYearCsv.ByYearRowsKeepsYearsWithin: covers the year filter only. The by-year CSV takes no measures filter, so nothing about Measure codes is claimed for it.

## Findings

| source | as written | input that shows it | evidently intended | confidence | as-written member | corrected member |
|---|---|---|---|---|---|---|
| data.cpp:501-503 | `getMeasure` looks the key up exactly as given | `setMeasure("Pop", m)` then `getMeasure("Pop")` throws, because the Measure is stored under "pop" | the key is lower-cased first, as the operation's documentation and `setMeasure` do | not executed; medium (every caller inside the engine passes a lower-case key) | Areas.GetMeasureAsWritten, Areas.MixedCaseMeasureLookup | Areas.GetMeasure |
| data.cpp:636-657 | "Unnamed" is printed whenever there is no English name | an Area with only the Welsh name "Powys" prints "PowysUnnamed (W06000023)" | "Unnamed" only when the Area has no name at all | not executed; medium | Areas.HeaderLineAsWritten, Areas.WelshOnlyHeader | Areas.HeaderLine |
