/** `Areas<>`: the container of every imported Area, indexed by local
    authority code, with a second index from area names to codes. */
module AreaRegistry {
  import opened Wrappers
  import opened Text
  import opened Measures
  import opened Areas
  import opened Filters

  datatype Registry = Registry(byCode: map<string, Area>, byName: map<string, string>)

  /** `Areas<>()`: nothing imported. */
  const EMPTY: Registry := Registry(map[], map[])

  /** The container invariant: each Area is stored under its own code and
      keeps the Area invariant, and every name points at a stored code. */
  ghost predicate RegistryValid(r: Registry) {
    (forall c :: c in r.byCode ==> r.byCode[c].code == c && AreaValid(r.byCode[c])) &&
    (forall n :: n in r.byName ==> r.byName[n] in r.byCode)
  }

  lemma EmptyValid()
    ensures RegistryValid(EMPTY)
  {
  }

  /** `Areas<>::size`: the number of Areas. */
  function Size(r: Registry): nat {
    |r.byCode|
  }

  // ---------------------------------------------------------------------
  // Merging one Area into another
  // ---------------------------------------------------------------------

  /** The Measure stored under `k` once `incoming` is merged into
      `existing`. */
  function MergedMeasure(existing: map<string, Measure>, incoming: map<string, Measure>, k: string): Measure
    requires k in existing || k in incoming
  {
    if k !in incoming then existing[k]
    else if k in existing then Merge(existing[k], incoming[k])
    else incoming[k]
  }

  /** The merge branch of `Areas<>::setArea`: every name of `incoming` is
      set on `existing` and every Measure of `incoming` is set on it. The
      code and the other names and Measures of `existing` stay. */
  function MergeInto(existing: Area, incoming: Area): (r: Area)
    ensures r.code == existing.code
    ensures r.names.Keys == existing.names.Keys + incoming.names.Keys
    ensures forall lang :: lang in incoming.names ==> r.names[lang] == incoming.names[lang]
    ensures forall lang :: lang in existing.names && lang !in incoming.names ==> r.names[lang] == existing.names[lang]
    ensures r.measures.Keys == existing.measures.Keys + incoming.measures.Keys
    ensures forall k :: k in existing.measures && k !in incoming.measures ==> r.measures[k] == existing.measures[k]
    ensures forall k :: k in incoming.measures && k !in existing.measures ==> r.measures[k] == incoming.measures[k]
    ensures forall k :: k in existing.measures && k in incoming.measures ==>
      r.measures[k] == Merge(existing.measures[k], incoming.measures[k])
    ensures WellFormed(existing) && WellFormed(incoming) ==> WellFormed(r)
    ensures AreaValid(existing) && AreaValid(incoming) ==> AreaValid(r)
  {
    Area(existing.code, existing.names + incoming.names, MergedMeasures(existing.measures, incoming.measures))
  }

  function MergedMeasures(existing: map<string, Measure>, incoming: map<string, Measure>): map<string, Measure> {
    map k | k in existing.Keys + incoming.Keys :: MergedMeasure(existing, incoming, k)
  }

  /** The merge does not depend on the order the program visits the
      incoming Measures in: it is the same as merging all the others and
      then calling `Area::setMeasure` for the last one. */
  lemma MergeIntoSetsMeasures(existing: Area, incoming: Area, k: string)
    requires WellFormed(incoming) && k in incoming.measures
    ensures MergeInto(existing, incoming) ==
            SetMeasure(MergeInto(existing, incoming.(measures := incoming.measures - {k})), k, incoming.measures[k])
  {
    LowerNormalises(k);
    var m := incoming.measures[k];
    var rest := incoming.(measures := incoming.measures - {k});
    var mid := MergeInto(existing, rest);
    var stored := if k in mid.measures then Merge(mid.measures[k], m) else m;
    assert SetMeasure(mid, k, m) == mid.(measures := mid.measures[k := stored]);
    MergedMeasuresStep(existing.measures, incoming.measures, k);
  }

  lemma MergedMeasuresStep(existing: map<string, Measure>, incoming: map<string, Measure>, k: string)
    requires k in incoming
    ensures var mid := MergedMeasures(existing, incoming - {k});
            var stored := if k in mid then Merge(mid[k], incoming[k]) else incoming[k];
            MergedMeasures(existing, incoming) == mid[k := stored]
  {
    var rest := incoming - {k};
    var mid := MergedMeasures(existing, rest);
    var lhs := MergedMeasures(existing, incoming);
    var stored := if k in mid then Merge(mid[k], incoming[k]) else incoming[k];
    assert lhs.Keys == mid[k := stored].Keys;
    forall j | j in lhs
      ensures lhs[j] == mid[k := stored][j]
    {
      if j == k {
        assert lhs[k] == MergedMeasure(existing, incoming, k);
        if k in existing {
          assert mid[k] == existing[k];
        }
      } else {
        assert lhs[j] == MergedMeasure(existing, incoming, j);
        assert mid[j] == MergedMeasure(existing, rest, j);
      }
    }
  }

  /** Likewise for names: merging is merging all other names and then
      calling `Area::setName` for the last one, which succeeds. */
  lemma MergeIntoSetsNames(existing: Area, incoming: Area, lang: string)
    requires WellFormed(incoming) && lang in incoming.names
    ensures SetName(MergeInto(existing, incoming.(names := incoming.names - {lang})), lang, incoming.names[lang]).Success?
    ensures MergeInto(existing, incoming) ==
            SetName(MergeInto(existing, incoming.(names := incoming.names - {lang})), lang, incoming.names[lang]).value
  {
    assert IsLangCode(lang);
    assert Lower(lang) == lang;
    var rest := incoming.(names := incoming.names - {lang});
    assert existing.names + incoming.names == (existing.names + rest.names)[lang := incoming.names[lang]];
  }

  // ---------------------------------------------------------------------
  // setArea, getArea and the name index
  // ---------------------------------------------------------------------

  /** `Areas<>::setArea`: a new code stores the Area as it is; a known code
      has the incoming names and Measures merged into the stored Area. The
      name index is not touched. The incoming Area's names are keyed by
      language codes, which is what `Area::setName` guarantees of every
      Area, so the merge's calls to `setName` cannot fail. */
  function SetArea(r: Registry, key: string, value: Area): (r': Registry)
    requires WellFormed(value)
    ensures r'.byName == r.byName
    ensures r'.byCode.Keys == r.byCode.Keys + {key}
    ensures forall c :: c in r.byCode && c != key ==> r'.byCode[c] == r.byCode[c]
    ensures key !in r.byCode ==> r'.byCode[key] == value
    ensures key in r.byCode ==> r'.byCode[key] == MergeInto(r.byCode[key], value)
    ensures RegistryValid(r) && value.code == key && AreaValid(value) ==> RegistryValid(r')
  {
    if key in r.byCode then r.(byCode := r.byCode[key := MergeInto(r.byCode[key], value)])
    else r.(byCode := r.byCode[key := value])
  }

  /** `Areas<>::getArea`: by code first, then by name through the name
      index, else `out_of_range`. */
  function GetArea(r: Registry, key: string): (res: Result<Area>)
    ensures res.Success? <==> key in r.byCode || (key in r.byName && r.byName[key] in r.byCode)
    ensures key in r.byCode ==> res == Success(r.byCode[key])
    ensures key !in r.byCode && res.Success? ==> res.value == r.byCode[r.byName[key]]
    ensures res.Failure? ==> res.error == OutOfRange("No area found matching " + key)
  {
    if key in r.byCode then Success(r.byCode[key])
    else if key in r.byName && r.byName[key] in r.byCode then Success(r.byCode[r.byName[key]])
    else Failure(OutOfRange("No area found matching " + key))
  }

  /** In a valid container every indexed name finds an Area. */
  lemma GetAreaByName(r: Registry, name: string)
    requires RegistryValid(r) && name in r.byName && name !in r.byCode
    ensures GetArea(r, name) == Success(r.byCode[r.byName[name]])
  {
  }

  /** An Area stored under a new code is found again under that code. */
  lemma SetAreaThenGetArea(r: Registry, key: string, value: Area)
    requires WellFormed(value) && key !in r.byCode
    ensures GetArea(SetArea(r, key, value), key) == Success(value)
    ensures Size(SetArea(r, key, value)) == Size(r) + 1
  {
  }

  /** `mAreasByName.emplace(name, code)`: the first code recorded for a
      name stays. */
  function IndexName(r: Registry, name: string, code: string): (r': Registry)
    ensures r'.byCode == r.byCode
    ensures r'.byName.Keys == r.byName.Keys + {name}
    ensures name in r.byName ==> r'.byName == r.byName
    ensures name !in r.byName ==> r'.byName[name] == code
    ensures forall n :: n in r.byName ==> r'.byName[n] == r.byName[n]
    ensures RegistryValid(r) && code in r.byCode ==> RegistryValid(r')
  {
    if name in r.byName then r else r.(byName := r.byName[name := code])
  }

  // ---------------------------------------------------------------------
  // Area filter
  // ---------------------------------------------------------------------

  /** Some name of the Area scores above one against the filter. */
  predicate NameMatches(filter: set<string>, a: Area) {
    exists lang :: lang in a.names && WildcardCount(filter, a.names[lang]) > 1
  }

  /** `Areas<>::isLocalAuthorityFiltered`, branch by branch: no filter
      admits everything; a code scoring against the filter is admitted; an
      unknown code is excluded; a known code is admitted whether or not one
      of its names matches. */
  function IsLocalAuthorityFiltered(r: Registry, filter: set<string>, code: string): (excluded: bool)
    ensures excluded <==> filter != {} && WildcardCount(filter, code) == 0 && code !in r.byCode
  {
    if filter == {} then false
    else if WildcardCount(filter, code) > 0 then false
    else if code !in r.byCode then true
    else if NameMatches(filter, r.byCode[code]) then false
    else false
  }

  /** A code is admitted by a filter it scores against, and by any filter
      once its Area is stored. */
  lemma AdmittedCodes(r: Registry, filter: set<string>, code: string)
    ensures code in filter ==> !IsLocalAuthorityFiltered(r, filter, code)
    ensures code in r.byCode ==> !IsLocalAuthorityFiltered(r, filter, code)
  {
    if code in filter {
      assert WildcardCount(filter, code) >= 1;
    }
  }
}
