/** `Areas<>::wildcardCountSet`: how strongly a string matches a set of
    filter terms. One point when the string is itself a term (compared
    exactly), plus one point for every term occurring somewhere in the
    string, compared ignoring ASCII case. */
module Filters {
  import opened Text

  /** `n` occurs in `h` at offset `i`, ignoring ASCII case. */
  predicate MatchesAt(h: string, n: string, i: int) {
    0 <= i && i + |n| <= |h| && forall j :: 0 <= j < |n| ==> ToUpper(h[i + j]) == ToUpper(n[j])
  }

  /** `std::search` finds `n` in `h` before the end of `h`. An empty term is
      found at the start of any non-empty string and not in the empty one. */
  predicate Found(h: string, n: string) {
    exists i :: 0 <= i < |h| && MatchesAt(h, n, i)
  }

  /** The terms found in `h`. */
  function Matched(needles: set<string>, h: string): set<string> {
    set n | n in needles && Found(h, n)
  }

  /** The reference definition of the score. */
  function WildcardCount(needles: set<string>, h: string): (c: nat)
    ensures c <= |needles| + 1
    ensures c <= 2 * |needles|
    ensures h in needles ==> c >= 1
  {
    assert Matched(needles, h) <= needles;
    SubsetCard(Matched(needles, h), needles);
    assert h in needles ==> |needles| >= 1 by {
      if h in needles { SubsetCard({h}, needles); }
    }
    (if h in needles then 1 else 0) + |Matched(needles, h)|
  }

  lemma SubsetCard(a: set<string>, b: set<string>)
    requires a <= b
    ensures |a| <= |b|
  {
    assert b == a + (b - a);
  }

  /** The haystack copy the program searches: every ASCII letter upper-cased. */
  function Upper(s: string): (r: string)
    ensures |r| == |s|
    ensures forall i :: 0 <= i < |s| ==> r[i] == ToUpper(s[i])
  {
    seq(|s|, i requires 0 <= i < |s| => ToUpper(s[i]))
  }

  /** `n` occurs at offset `k` of the upper-cased copy `hu` under the
      predicate `ch1 == toupper(ch2)` that the program passes to
      `std::search`. */
  predicate UpperMatchAt(hu: string, n: string, k: int) {
    0 <= k && k + |n| <= |hu| && forall j :: 0 <= j < |n| ==> hu[k + j] == ToUpper(n[j])
  }

  /** `std::search` over the upper-cased copy `hu` of the haystack: the
      first offset where `n` occurs, or `|hu|` when there is none. */
  method Search(hu: string, n: string) returns (pos: nat)
    ensures pos <= |hu|
    ensures pos < |hu| ==> UpperMatchAt(hu, n, pos)
    ensures forall k :: 0 <= k < pos ==> !UpperMatchAt(hu, n, k)
  {
    pos := 0;
    while pos < |hu|
      invariant pos <= |hu|
      invariant forall k :: 0 <= k < pos ==> !UpperMatchAt(hu, n, k)
    {
      if pos + |n| <= |hu| {
        var j := 0;
        while j < |n| && hu[pos + j] == ToUpper(n[j])
          invariant 0 <= j <= |n|
          invariant forall t :: 0 <= t < j ==> hu[pos + t] == ToUpper(n[t])
        {
          j := j + 1;
        }
        if j == |n| {
          return;
        }
        assert hu[pos + j] != ToUpper(n[j]);
      }
      pos := pos + 1;
    }
  }

  /** Searching the upper-cased copy finds a term exactly when the term
      occurs in the original string ignoring case. */
  lemma SearchUpperCopy(h: string, n: string, k: int)
    ensures MatchesAt(h, n, k) <==> UpperMatchAt(Upper(h), n, k)
  {
  }

  lemma HasNeedle(s: set<string>)
    requires s != {}
    ensures exists n :: n in s
  {
    var none: set<string> := {};
    assert (forall n :: n !in s) ==> s == none;
  }

  /** `Areas<>::wildcardCountSet`: counts the exact match, then searches the
      upper-cased haystack for each term in turn. */
  method WildcardCountSet(needles: set<string>, h: string) returns (count: nat)
    ensures count == WildcardCount(needles, h)
  {
    count := if h in needles then 1 else 0;
    var hu := Upper(h);
    var rest := needles;
    ghost var seen: set<string> := {};
    while rest != {}
      invariant rest + seen == needles && rest !! seen
      invariant count == (if h in needles then 1 else 0) + |Matched(seen, h)|
      decreases |rest|
    {
      HasNeedle(rest);
      var n :| n in rest;
      var pos := Search(hu, n);
      assert pos < |hu| <==> Found(h, n) by {
        if pos < |hu| {
          SearchUpperCopy(h, n, pos);
        } else {
          forall k | 0 <= k < |h|
            ensures !MatchesAt(h, n, k)
          {
            SearchUpperCopy(h, n, k);
          }
        }
      }
      MatchedAdd(seen, h, n);
      if pos < |hu| {
        count := count + 1;
      }
      rest := rest - {n};
      seen := seen + {n};
    }
    assert seen == needles;
  }

  lemma MatchedAdd(s: set<string>, h: string, n: string)
    requires n !in s
    ensures |Matched(s + {n}, h)| == |Matched(s, h)| + (if Found(h, n) then 1 else 0)
  {
    if Found(h, n) {
      assert Matched(s + {n}, h) == Matched(s, h) + {n};
    } else {
      assert Matched(s + {n}, h) == Matched(s, h);
    }
  }

  // ---------------------------------------------------------------------
  // Properties of the score
  // ---------------------------------------------------------------------

  /** A non-empty string that is itself a term scores at least two: once
      for the exact match and once for finding itself. */
  lemma ExactTermScoresTwice(needles: set<string>, h: string)
    requires h in needles && h != ""
    ensures WildcardCount(needles, h) >= 2
  {
    assert MatchesAt(h, h, 0);
    assert h in Matched(needles, h);
  }

  /** The score is positive exactly when the string is a term or some term
      occurs in it ignoring case. */
  lemma ScorePositiveIff(needles: set<string>, h: string)
    ensures WildcardCount(needles, h) > 0 <==> h in needles || exists n :: n in needles && Found(h, n)
  {
    if exists n :: n in needles && Found(h, n) {
      var n :| n in needles && Found(h, n);
      assert n in Matched(needles, h);
    }
  }

  /** No term scores against the empty string except the empty term, and
      that only through the exact comparison. */
  lemma EmptyHaystack(needles: set<string>)
    ensures WildcardCount(needles, "") == if "" in needles then 1 else 0
  {
    assert Matched(needles, "") == {};
  }

  /** The search half ignores case: strings equal up to ASCII case find the
      same terms, and differ in score only through the exact match. */
  lemma {:induction false} SearchIgnoresCase(needles: set<string>, h1: string, h2: string)
    requires Upper(h1) == Upper(h2)
    ensures Matched(needles, h1) == Matched(needles, h2)
  {
    assert |h1| == |h2|;
    forall n, i
      ensures MatchesAt(h1, n, i) <==> MatchesAt(h2, n, i)
    {
      SearchUpperCopy(h1, n, i);
      SearchUpperCopy(h2, n, i);
    }
  }
}
