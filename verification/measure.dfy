/** A Measure: one statistical indicator's readings for one area, keyed by
    year, with a cached running sum of the readings. Values are `real`, so
    the cached sum is exact here where the program's `double` sum rounds. */
module Measures {
  import opened Wrappers
  import opened Text

  /** `title` holds the measure's human-readable label. */
  datatype Measure = Measure(codename: string, title: string, data: map<int, real>, sum: real)

  // ---------------------------------------------------------------------
  // Years in order
  // ---------------------------------------------------------------------

  /** A set that is not empty has a member. */
  lemma HasMember(s: set<int>)
    requires s != {}
    ensures exists x :: x in s
  {
    var none: set<int> := {};
    assert (forall x :: x !in s) ==> s == none;
  }

  predicate IsLeast(s: set<int>, x: int) {
    x in s && forall z :: z in s ==> x <= z
  }

  predicate IsGreatest(s: set<int>, x: int) {
    x in s && forall z :: z in s ==> z <= x
  }

  lemma {:induction false} LeastExists(s: set<int>)
    requires s != {}
    ensures exists x :: IsLeast(s, x)
    decreases |s|
  {
    HasMember(s);
    var y :| y in s;
    if s == {y} {
      assert IsLeast(s, y);
    } else {
      LeastExists(s - {y});
      var x :| IsLeast(s - {y}, x);
      var m := if x <= y then x else y;
      forall z | z in s
        ensures m <= z
      {
        if z != y {
          assert z in s - {y};
        }
      }
      assert IsLeast(s, m);
    }
  }

  lemma {:induction false} GreatestExists(s: set<int>)
    requires s != {}
    ensures exists x :: IsGreatest(s, x)
    decreases |s|
  {
    HasMember(s);
    var y :| y in s;
    if s == {y} {
      assert IsGreatest(s, y);
    } else {
      GreatestExists(s - {y});
      var x :| IsGreatest(s - {y}, x);
      var m := if y <= x then x else y;
      forall z | z in s
        ensures z <= m
      {
        if z != y {
          assert z in s - {y};
        }
      }
      assert IsGreatest(s, m);
    }
  }

  /** The earliest year of a non-empty set. */
  function MinOf(s: set<int>): (x: int)
    requires s != {}
    ensures IsLeast(s, x)
  {
    LeastExists(s);
    var x :| IsLeast(s, x);
    x
  }

  /** The latest year of a non-empty set. */
  function MaxOf(s: set<int>): (x: int)
    requires s != {}
    ensures IsGreatest(s, x)
  {
    GreatestExists(s);
    var x :| IsGreatest(s, x);
    x
  }

  predicate StrictlyIncreasing(ys: seq<int>) {
    forall i, j :: 0 <= i < j < |ys| ==> ys[i] < ys[j]
  }

  /** The years of a set in ascending order, as `std::map` iterates them. */
  function Ascending(s: set<int>): (ys: seq<int>)
    ensures StrictlyIncreasing(ys)
    ensures forall y :: y in ys <==> y in s
    ensures |ys| == |s|
    decreases |s|
  {
    if s == {} then []
    else
      var x := MinOf(s);
      var rest := Ascending(s - {x});
      assert forall i :: 0 <= i < |rest| ==> rest[i] in s - {x};
      [x] + rest
  }

  // ---------------------------------------------------------------------
  // The sum invariant
  // ---------------------------------------------------------------------

  /** The total of the readings of `m` for the years `ks`, earliest first,
      independent of any cache. */
  function SumOver(m: map<int, real>, ks: set<int>): real
    requires ks <= m.Keys
    decreases |ks|
  {
    if ks == {} then 0.0
    else
      var y := MinOf(ks);
      m[y] + SumOver(m, ks - {y})
  }

  /** The total of every reading in `m`. */
  function SumOf(m: map<int, real>): real {
    SumOver(m, m.Keys)
  }

  /** The total does not depend on which year is taken out first. */
  lemma {:induction false} SumOverRemove(m: map<int, real>, ks: set<int>, k: int)
    requires ks <= m.Keys && k in ks
    ensures SumOver(m, ks) == m[k] + SumOver(m, ks - {k})
    decreases |ks|
  {
    var y := MinOf(ks);
    assert SumOver(m, ks) == m[y] + SumOver(m, ks - {y});
    if y != k {
      SumOverRemove(m, ks - {y}, k);
      assert (ks - {y}) - {k} == (ks - {k}) - {y};
      var y' := MinOf(ks - {k});
      assert y' == y;
      assert SumOver(m, ks - {k}) == m[y] + SumOver(m, (ks - {k}) - {y});
    }
  }

  /** The total only reads the readings of the years it sums. */
  lemma {:induction false} SumOverAgree(m1: map<int, real>, m2: map<int, real>, ks: set<int>)
    requires ks <= m1.Keys && ks <= m2.Keys
    requires forall y :: y in ks ==> m1[y] == m2[y]
    ensures SumOver(m1, ks) == SumOver(m2, ks)
    decreases |ks|
  {
    if ks != {} {
      var y := MinOf(ks);
      SumOverAgree(m1, m2, ks - {y});
      assert SumOver(m1, ks) == m1[y] + SumOver(m1, ks - {y});
      assert SumOver(m2, ks) == m2[y] + SumOver(m2, ks - {y});
    }
  }

  /** The class invariant: the cached sum is the total of the readings. */
  ghost predicate Valid(m: Measure) {
    m.sum == SumOf(m.data)
  }

  // ---------------------------------------------------------------------
  // Construction, lookup and upsert
  // ---------------------------------------------------------------------

  /** `Measure(codename, label)`: the code is stored lower-cased, the label
      verbatim, with no readings and a zero sum. */
  function NewMeasure(codename: string, title: string): (m: Measure)
    ensures IsLowered(m.codename) && EqualsIgnoreCase(m.codename, codename)
    ensures m.title == title
    ensures m.data == map[] && Valid(m)
  {
    LowerNormalises(codename);
    Measure(Lower(codename), title, map[], 0.0)
  }

  /** `Measure::size`: number of years with a reading. */
  function Size(m: Measure): nat {
    |m.data|
  }

  /** `Measure::getValue`: the reading for `year`, or `out_of_range` with
      the message "No value found for year <year>". */
  function GetValue(m: Measure, year: int): (r: Result<real>)
    ensures r.Success? <==> year in m.data
    ensures r.Success? ==> r.value == m.data[year]
    ensures r.Failure? ==> r.error == OutOfRange("No value found for year " + IntToString(year))
  {
    if year in m.data then Success(m.data[year])
    else Failure(OutOfRange("No value found for year " + IntToString(year)))
  }

  /** `Measure::setValue`: upsert one reading, adjusting the cached sum by
      taking out the old reading (if any) and adding the new one. */
  function SetValue(m: Measure, year: int, value: real): (r: Measure)
    ensures r.codename == m.codename && r.title == m.title
    ensures r.data == m.data[year := value]
    ensures Size(r) == if year in m.data then Size(m) else Size(m) + 1
    ensures Valid(m) ==> Valid(r)
  {
    var r := Measure(m.codename, m.title, m.data[year := value],
                     (if year in m.data then m.sum - m.data[year] else m.sum) + value);
    assert Valid(m) ==> Valid(r) by {
      var ks := m.data.Keys - {year};
      SumOverRemove(r.data, r.data.Keys, year);
      assert r.data.Keys - {year} == ks;
      SumOverAgree(r.data, m.data, ks);
      if year in m.data {
        SumOverRemove(m.data, m.data.Keys, year);
      } else {
        assert ks == m.data.Keys;
      }
    }
    r
  }

  /** Setting the same year twice is the same as setting it once to the
      second value: size, data and sum carry no trace of the first value. */
  lemma SetValueTwice(m: Measure, year: int, v1: real, v2: real)
    ensures SetValue(SetValue(m, year, v1), year, v2) == SetValue(m, year, v2)
    ensures GetValue(SetValue(SetValue(m, year, v1), year, v2), year) == Success(v2)
  {
  }

  // ---------------------------------------------------------------------
  // Bulk upsert and merge
  // ---------------------------------------------------------------------

  /** The readings of `src` for the years listed in `ys`. */
  function Restrict(src: map<int, real>, ys: seq<int>): map<int, real> {
    map y | y in ys && y in src :: src[y]
  }

  /** Upserts the readings of `src` for the years `ys`, in that order. */
  function SetEach(m: Measure, src: map<int, real>, ys: seq<int>): (r: Measure)
    requires forall i :: 0 <= i < |ys| ==> ys[i] in src
    ensures r.codename == m.codename && r.title == m.title
    ensures r.data == m.data + Restrict(src, ys)
    ensures Valid(m) ==> Valid(r)
    decreases |ys|
  {
    if ys == [] then
      assert m.data + Restrict(src, ys) == m.data;
      m
    else
      var last := ys[|ys| - 1];
      var prefix := ys[..|ys| - 1];
      assert ys == prefix + [last];
      var before := SetEach(m, src, prefix);
      RestrictSnoc(src, prefix, last);
      UnionUpdate(m.data, Restrict(src, prefix), last, src[last]);
      SetValue(before, last, src[last])
  }

  lemma UnionUpdate(a: map<int, real>, b: map<int, real>, k: int, v: real)
    ensures (a + b)[k := v] == a + b[k := v]
  {
  }

  lemma RestrictSnoc(src: map<int, real>, prefix: seq<int>, last: int)
    requires last in src
    ensures Restrict(src, prefix + [last]) == Restrict(src, prefix)[last := src[last]]
  {
    var ys := prefix + [last];
    assert forall y :: y in ys <==> y == last || y in prefix;
  }

  /** Upserts every reading of `src`, in ascending year order. */
  function SetAll(m: Measure, src: map<int, real>): (r: Measure)
    ensures r.codename == m.codename && r.title == m.title
    ensures r.data == m.data + src
    ensures Valid(m) ==> Valid(r)
  {
    var ys := Ascending(src.Keys);
    assert Restrict(src, ys) == src;
    SetEach(m, src, ys)
  }

  /** The merge step of `Area::setMeasure` when the code is already present:
      the incoming label replaces the old one and every incoming reading is
      upserted. The codename stays that of the existing measure. */
  function Merge(existing: Measure, incoming: Measure): (r: Measure)
    ensures r.codename == existing.codename
    ensures r.title == incoming.title
    ensures r.data.Keys == existing.data.Keys + incoming.data.Keys
    ensures forall y :: y in incoming.data ==> r.data[y] == incoming.data[y]
    ensures forall y :: y in existing.data && y !in incoming.data ==> r.data[y] == existing.data[y]
    ensures Size(r) == |existing.data.Keys + incoming.data.Keys|
    ensures Valid(existing) ==> Valid(r)
  {
    SetAll(existing.(title := incoming.title), incoming.data)
  }

  // ---------------------------------------------------------------------
  // Derived statistics
  // ---------------------------------------------------------------------

  /** `Measure::getAverage`: 0 when there are no readings, else the cached
      sum over the number of readings. */
  function Average(m: Measure): (r: real)
    ensures Size(m) == 0 ==> r == 0.0
    ensures Valid(m) && Size(m) > 0 ==> r * (Size(m) as real) == SumOf(m.data)
  {
    if Size(m) == 0 then 0.0 else m.sum / (Size(m) as real)
  }

  /** The least element of a set is unique. */
  lemma LeastUnique(s: set<int>, a: int, b: int)
    requires IsLeast(s, a) && IsLeast(s, b)
    ensures a == b
  {
  }

  /** The greatest element of a set is unique. */
  lemma GreatestUnique(s: set<int>, a: int, b: int)
    requires IsGreatest(s, a) && IsGreatest(s, b)
    ensures a == b
  {
  }

  /** `Measure::getDifference`: 0 when there are no readings, else the
      reading of the latest year minus the reading of the earliest year. */
  function Difference(m: Measure): (r: real)
    ensures Size(m) == 0 ==> r == 0.0
  {
    if Size(m) == 0 then 0.0
    else m.data[MaxOf(m.data.Keys)] - m.data[MinOf(m.data.Keys)]
  }

  /** For any earliest year `lo` and latest year `hi` of the readings, the
      difference is the reading of `hi` minus the reading of `lo`. */
  lemma DifferenceIsLastMinusFirst(m: Measure, lo: int, hi: int)
    requires IsLeast(m.data.Keys, lo) && IsGreatest(m.data.Keys, hi)
    ensures Difference(m) == m.data[hi] - m.data[lo]
  {
    assert m.data.Keys != {};
    LeastUnique(m.data.Keys, lo, MinOf(m.data.Keys));
    GreatestUnique(m.data.Keys, hi, MaxOf(m.data.Keys));
  }

  /** `Measure::getDifferenceAsPercentage`: 0 when there are no readings,
      else the difference as a percentage of the earliest year's reading.
      The program does not guard against that reading being zero, so this
      is required of the caller. */
  function DifferenceAsPercentage(m: Measure): (r: real)
    requires m.data.Keys != {} ==> m.data[MinOf(m.data.Keys)] != 0.0
    ensures m.data.Keys == {} ==> r == 0.0
    ensures m.data.Keys != {} ==> r * m.data[MinOf(m.data.Keys)] == Difference(m) * 100.0
  {
    if m.data.Keys == {} then 0.0
    else Percent(Difference(m), m.data[MinOf(m.data.Keys)])
  }

  /** `d` as a percentage of `base`. */
  function Percent(d: real, base: real): (r: real)
    requires base != 0.0
    ensures r * base == d * 100.0
  {
    var q := d / base;
    assert q * base == d;
    q * 100.0
  }

  /** With a single reading the first and last years coincide, so both
      differences are zero (not a division fault), as with no reading. */
  lemma SingleReadingHasNoTrend(m: Measure, year: int, value: real)
    requires m.data == map[year := value] && value != 0.0
    ensures Difference(m) == 0.0
    ensures DifferenceAsPercentage(m) == 0.0
  {
    assert m.data.Keys == {year};
    assert IsLeast(m.data.Keys, year) && IsGreatest(m.data.Keys, year);
  }

  /** `operator==` on Measures: codename, label, readings and sum. */
  function Equal(a: Measure, b: Measure): (r: bool)
    ensures r <==> a == b
  {
    a.codename == b.codename && a.title == b.title && a.data == b.data && a.sum == b.sum
  }

  /** While the sum invariant holds the cached sum adds nothing to equality:
      two Measures are equal exactly when codename, label and readings are. */
  lemma EqualIgnoresCachedSum(a: Measure, b: Measure)
    requires Valid(a) && Valid(b)
    ensures Equal(a, b) <==> a.codename == b.codename && a.title == b.title && a.data == b.data
  {
  }
}
