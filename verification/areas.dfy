/** An Area: one local authority, identified by its code, with its names
    keyed by three-letter language code and its Measures keyed by
    lower-cased measure code. */
module Areas {
  import opened Wrappers
  import opened Text
  import opened Measures

  datatype Area = Area(code: string, names: map<string, string>, measures: map<string, Measure>)

  const LANG_CODE_ERROR: string := "Area::setName: Language code must be three alphabetical letters only"

  /** The message `std::map::at` raises for a missing key. */
  const MAP_AT: string := "map::at"

  predicate IsAsciiLetter(c: char) {
    IsUpperAscii(c) || IsLowerAscii(c)
  }

  /** A stored language code: exactly three lower-case ASCII letters. */
  predicate IsLangCode(lang: string) {
    |lang| == 3 && forall i :: 0 <= i < |lang| ==> IsLowerAscii(lang[i])
  }

  /** What the setters of an Area guarantee of its maps: every name is
      keyed by a language code and every measure by a lower-cased code. */
  predicate WellFormed(a: Area) {
    (forall lang :: lang in a.names ==> IsLangCode(lang)) &&
    (forall key :: key in a.measures ==> IsLowered(key))
  }

  /** The Area invariant: well-formed maps, and the sum invariant of every
      Measure it holds. */
  ghost predicate AreaValid(a: Area) {
    WellFormed(a) && forall key :: key in a.measures ==> Measures.Valid(a.measures[key])
  }

  /** `Area(localAuthorityCode)`: no names and no measures. */
  function NewArea(code: string): (a: Area)
    ensures a.code == code && a.names == map[] && a.measures == map[]
    ensures AreaValid(a)
  {
    Area(code, map[], map[])
  }

  /** `Area::size`: the number of measures. */
  function Size(a: Area): nat {
    |a.measures|
  }

  // ---------------------------------------------------------------------
  // Names
  // ---------------------------------------------------------------------

  /** `Area::setName`: the language code is lower-cased; unless it is then
      three letters a-z the call fails with `invalid_argument`, otherwise
      the name for that language is inserted or replaced. */
  function SetName(a: Area, lang: string, name: string): (r: Result<Area>)
    ensures r.Success? <==> |lang| == 3 && forall i :: 0 <= i < |lang| ==> IsAsciiLetter(lang[i])
    ensures r.Success? ==> r.value == a.(names := a.names[Lower(lang) := name])
    ensures r.Failure? ==> r.error == InvalidArgument(LANG_CODE_ERROR)
    ensures r.Success? && WellFormed(a) ==> WellFormed(r.value)
    ensures r.Success? && AreaValid(a) ==> AreaValid(r.value)
  {
    var l := Lower(lang);
    assert IsLangCode(l) <==> |lang| == 3 && forall i :: 0 <= i < |lang| ==> IsAsciiLetter(lang[i]) by {
      LowerIsLetter(lang);
    }
    if IsLangCode(l) then Success(a.(names := a.names[l := name]))
    else Failure(InvalidArgument(LANG_CODE_ERROR))
  }

  /** Lower-casing yields a lower-case letter exactly where there was a
      letter of either case. */
  lemma LowerIsLetter(s: string)
    ensures forall i :: 0 <= i < |s| ==> (IsLowerAscii(Lower(s)[i]) <==> IsAsciiLetter(s[i]))
  {
    forall i | 0 <= i < |s|
      ensures IsLowerAscii(Lower(s)[i]) <==> IsAsciiLetter(s[i])
    {
      var c := s[i];
      assert Lower(s)[i] == ToLower(c);
    }
  }

  /** `Area::getName`: the name for a language, looked up case-insensitively,
      or `out_of_range` when none was set. */
  function GetName(a: Area, lang: string): (r: Result<string>)
    ensures r.Success? <==> Lower(lang) in a.names
    ensures r.Success? ==> r.value == a.names[Lower(lang)]
    ensures r.Failure? ==> r.error == OutOfRange(MAP_AT)
  {
    var l := Lower(lang);
    if l in a.names then Success(a.names[l]) else Failure(OutOfRange(MAP_AT))
  }

  /** A name set under a language code is read back under that code in any
      letter case, and the other languages' names are unaffected. */
  lemma SetNameThenGetName(a: Area, lang: string, name: string, query: string)
    requires SetName(a, lang, name).Success?
    ensures EqualsIgnoreCase(query, lang) ==> GetName(SetName(a, lang, name).value, query) == Success(name)
    ensures !EqualsIgnoreCase(query, lang) ==> GetName(SetName(a, lang, name).value, query) == GetName(a, query)
  {
  }

  // ---------------------------------------------------------------------
  // Measures
  // ---------------------------------------------------------------------

  /** `Area::getMeasure` as written: the key is looked up exactly as given,
      although the operation is documented as case-insensitive. */
  function GetMeasureAsWritten(a: Area, key: string): (r: Result<Measure>)
    ensures r.Success? <==> key in a.measures
    ensures r.Success? ==> r.value == a.measures[key]
    ensures r.Failure? ==> r.error == OutOfRange(MAP_AT)
  {
    if key in a.measures then Success(a.measures[key]) else Failure(OutOfRange(MAP_AT))
  }

  /** `Area::getMeasure` as documented: the key is lower-cased, as
      `setMeasure` lower-cases it, before the lookup. */
  function GetMeasure(a: Area, key: string): (r: Result<Measure>)
    ensures r.Success? <==> Lower(key) in a.measures
    ensures r.Success? ==> r.value == a.measures[Lower(key)]
    ensures r.Failure? ==> r.error == OutOfRange(MAP_AT)
  {
    GetMeasureAsWritten(a, Lower(key))
  }

  /** For a key that is already lower case, which is how every caller inside
      the ingestion engine passes it, the two lookups agree. */
  lemma GetMeasureAgreesOnLoweredKeys(a: Area, key: string)
    requires IsLowered(key)
    ensures GetMeasureAsWritten(a, key) == GetMeasure(a, key)
  {
    LowerNormalises(key);
  }

  /** A Measure stored under "Pop" is kept under "pop", so asking for it by
      the code it was stored with fails as written and succeeds as
      documented. */
  lemma MixedCaseMeasureLookup(m: Measure)
    ensures var a := SetMeasure(NewArea("W06000023"), "Pop", m);
      GetMeasureAsWritten(a, "Pop").Failure? && GetMeasure(a, "Pop") == Success(m)
  {
    var a := SetMeasure(NewArea("W06000023"), "Pop", m);
    assert Lower("Pop") == "pop";
    assert "Pop" != "pop";
    assert a.measures.Keys == {"pop"};
  }

  /** `Area::setMeasure`: the key is lower-cased; a Measure already stored
      under it takes the incoming label and readings (`Measures.Merge`),
      otherwise the incoming Measure is stored as it is. */
  function SetMeasure(a: Area, key: string, m: Measure): (r: Area)
    ensures r.code == a.code && r.names == a.names
    ensures r.measures.Keys == a.measures.Keys + {Lower(key)}
    ensures forall k :: k in a.measures && k != Lower(key) ==> r.measures[k] == a.measures[k]
    ensures Lower(key) !in a.measures ==> r.measures[Lower(key)] == m
    ensures Lower(key) in a.measures ==> r.measures[Lower(key)] == Merge(a.measures[Lower(key)], m)
    ensures WellFormed(a) ==> WellFormed(r)
    ensures AreaValid(a) && Measures.Valid(m) ==> AreaValid(r)
  {
    var k := Lower(key);
    LowerNormalises(key);
    if k in a.measures then a.(measures := a.measures[k := Merge(a.measures[k], m)])
    else a.(measures := a.measures[k := m])
  }

  /** Storing a Measure under a code in one case and again in another case
      keeps one Measure: the size grows only the first time, and the stored
      Measure has the second label and every reading of both, the second
      Measure's readings winning for a year both hold. */
  lemma SetMeasureTwiceMerges(a: Area, k1: string, k2: string, m1: Measure, m2: Measure)
    requires Lower(k1) !in a.measures && EqualsIgnoreCase(k1, k2)
    ensures Size(SetMeasure(a, k1, m1)) == Size(a) + 1
    ensures Size(SetMeasure(SetMeasure(a, k1, m1), k2, m2)) == Size(a) + 1
    ensures GetMeasure(SetMeasure(SetMeasure(a, k1, m1), k2, m2), k1).Success?
    ensures GetMeasure(SetMeasure(SetMeasure(a, k1, m1), k2, m2), k1).value.title == m2.title
    ensures GetMeasure(SetMeasure(SetMeasure(a, k1, m1), k2, m2), k1).value.data == m1.data + m2.data
  {
    var a1 := SetMeasure(a, k1, m1);
    assert a1.measures.Keys == a.measures.Keys + {Lower(k1)};
    var a2 := SetMeasure(a1, k2, m2);
    assert a2.measures.Keys == a1.measures.Keys;
    var merged := a2.measures[Lower(k1)];
    assert merged.data == m1.data + m2.data;
  }

  // ---------------------------------------------------------------------
  // Header line of the printed form
  // ---------------------------------------------------------------------

  /** The first line `operator<<` writes for an Area, as written: the English
      name, then " / " and the Welsh name when both exist (the Welsh name
      alone when only it exists), then "Unnamed" whenever there is no
      English name, then the code in brackets. */
  function HeaderLineAsWritten(a: Area): (r: string)
    ensures "eng" !in a.names && "cym" !in a.names ==> r == "Unnamed (" + a.code + ")"
    ensures "eng" in a.names && "cym" !in a.names ==> r == a.names["eng"] + " (" + a.code + ")"
  {
    var hasEng := "eng" in a.names;
    var eng := if hasEng then a.names["eng"] else "";
    var cym := if "cym" in a.names then (if hasEng then " / " else "") + a.names["cym"] else "";
    eng + cym + (if hasEng then "" else "Unnamed") + " (" + a.code + ")"
  }

  /** The header line as documented: both names joined by " / ", the one
      name when there is one, "Unnamed" only when there is none. */
  function HeaderLine(a: Area): (r: string)
    ensures "eng" !in a.names && "cym" !in a.names ==> r == "Unnamed (" + a.code + ")"
    ensures "eng" in a.names && "cym" !in a.names ==> r == a.names["eng"] + " (" + a.code + ")"
    ensures "eng" !in a.names && "cym" in a.names ==> r == a.names["cym"] + " (" + a.code + ")"
    ensures "eng" in a.names && "cym" in a.names ==> r == a.names["eng"] + " / " + a.names["cym"] + " (" + a.code + ")"
  {
    var shown :=
      if "eng" in a.names && "cym" in a.names then a.names["eng"] + " / " + a.names["cym"]
      else if "eng" in a.names then a.names["eng"]
      else if "cym" in a.names then a.names["cym"]
      else "Unnamed";
    shown + " (" + a.code + ")"
  }

  /** The written and documented headers agree except when the Area has a
      Welsh name and no English one. */
  lemma HeaderLinesAgreeUnlessOnlyWelsh(a: Area)
    ensures HeaderLineAsWritten(a) == HeaderLine(a) <==> !("eng" !in a.names && "cym" in a.names)
  {
    if "eng" !in a.names && "cym" in a.names {
      var w := HeaderLineAsWritten(a);
      var c := HeaderLine(a);
      var n := a.names["cym"];
      assert w == n + "Unnamed" + " (" + a.code + ")";
      assert c == n + " (" + a.code + ")";
      assert |w| == |c| + 7;
    } else if "eng" in a.names && "cym" in a.names {
      assert HeaderLineAsWritten(a) == a.names["eng"] + " / " + a.names["cym"] + " (" + a.code + ")";
    }
  }

  /** An Area named only in Welsh ("Powys" under "cym", code "W06000023") is
      printed as "PowysUnnamed (W06000023)" where "Powys (W06000023)" is
      meant. */
  lemma WelshOnlyHeader()
    ensures HeaderLineAsWritten(Area("W06000023", map["cym" := "Powys"], map[])) == "PowysUnnamed (W06000023)"
    ensures HeaderLine(Area("W06000023", map["cym" := "Powys"], map[])) == "Powys (W06000023)"
  {
  }

  /** `operator==` on Areas: code, names and measures (the Measures compared
      with their own `operator==`). */
  function Equal(a: Area, b: Area): (r: bool)
    ensures r <==> a == b
  {
    a.code == b.code && a.names == b.names && a.measures == b.measures
  }
}
