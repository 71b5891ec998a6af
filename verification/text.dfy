/** Character and string primitives of the C++ standard library that the
    ingestion engine leans on: `::tolower`/`::toupper` in the "C" locale,
    `std::getline` with a delimiter, `std::stoi`, `std::stod` and
    `std::to_string` for integers. */
module Text {
  import opened Wrappers

  // ---------------------------------------------------------------------
  // Case conversion ("C" locale: only ASCII letters change)
  // ---------------------------------------------------------------------

  predicate IsUpperAscii(c: char) {
    'A' <= c <= 'Z'
  }

  predicate IsLowerAscii(c: char) {
    'a' <= c <= 'z'
  }

  function ToLower(c: char): char {
    if IsUpperAscii(c) then (c as int + 32) as char else c
  }

  function ToUpper(c: char): char {
    if IsLowerAscii(c) then (c as int - 32) as char else c
  }

  /** `std::transform(s.begin(), s.end(), s.begin(), ::tolower)` */
  function Lower(s: string): (r: string)
    ensures |r| == |s|
    ensures forall i :: 0 <= i < |s| ==> r[i] == ToLower(s[i])
  {
    seq(|s|, i requires 0 <= i < |s| => ToLower(s[i]))
  }

  /** No ASCII capital letter occurs in `s`. */
  predicate IsLowered(s: string) {
    forall i :: 0 <= i < |s| ==> !IsUpperAscii(s[i])
  }

  /** Lowering leaves no capital behind, and a lowered string is a fixed
      point of `Lower`, so normalising twice is the same as once. */
  lemma LowerNormalises(s: string)
    ensures IsLowered(Lower(s))
    ensures IsLowered(s) ==> Lower(s) == s
    ensures Lower(Lower(s)) == Lower(s)
  {
    assert IsLowered(Lower(s));
    if IsLowered(s) {
      assert forall i :: 0 <= i < |s| ==> ToLower(s[i]) == s[i];
    }
    assert forall i :: 0 <= i < |s| ==> ToLower(ToLower(s[i])) == ToLower(s[i]);
  }

  /** Two strings are equal ignoring ASCII case. */
  predicate EqualsIgnoreCase(a: string, b: string) {
    Lower(a) == Lower(b)
  }

  // ---------------------------------------------------------------------
  // Splitting on a delimiter (std::getline with a delimiter character)
  // ---------------------------------------------------------------------

  /** `std::string::find` of one character: the index of its first
      occurrence, or `|s|` (standing for `npos`) when it does not occur. */
  function Find(s: string, c: char): (i: nat)
    ensures i <= |s|
    ensures forall j :: 0 <= j < i ==> s[j] != c
    ensures i < |s| ==> s[i] == c
    ensures i == |s| <==> c !in s
  {
    if s == [] then 0
    else if s[0] == c then 0
    else 1 + Find(s[1..], c)
  }

  /** Every piece between delimiters, including empty ones at either end. */
  function Split(s: string, d: char): (r: seq<string>)
    ensures |r| >= 1
    decreases |s|
  {
    if |s| == 0 then [""]
    else if s[0] == d then [""] + Split(s[1..], d)
    else
      var rest := Split(s[1..], d);
      [[s[0]] + rest[0]] + rest[1..]
  }

  /** Glues pieces back together with the delimiter between them. */
  function Join(parts: seq<string>, d: char): string
    requires |parts| >= 1
    decreases |parts|
  {
    if |parts| == 1 then parts[0] else parts[0] + [d] + Join(parts[1..], d)
  }

  /** `Split` loses nothing: joining its pieces gives back the input, and no
      piece contains the delimiter. */
  lemma {:induction false} SplitJoin(s: string, d: char)
    ensures Join(Split(s, d), d) == s
    ensures forall k :: 0 <= k < |Split(s, d)| ==> d !in Split(s, d)[k]
    decreases |s|
  {
    if |s| == 0 {
    } else if s[0] == d {
      SplitJoin(s[1..], d);
      var rest := Split(s[1..], d);
      assert Split(s, d) == [""] + rest;
      assert ([""] + rest)[1..] == rest;
      assert s == [d] + s[1..];
      forall k | 0 <= k < |Split(s, d)|
        ensures d !in Split(s, d)[k]
      {
        if k > 0 {
          assert Split(s, d)[k] == rest[k - 1];
        }
      }
    } else {
      SplitJoin(s[1..], d);
      var rest := Split(s[1..], d);
      var r := [[s[0]] + rest[0]] + rest[1..];
      assert Split(s, d) == r;
      if |rest| == 1 {
        assert Join(r, d) == [s[0]] + rest[0];
        assert s == [s[0]] + s[1..];
      } else {
        assert r[1..] == rest[1..];
        assert Join(rest, d) == rest[0] + [d] + Join(rest[1..], d);
        assert Join(r, d) == ([s[0]] + rest[0]) + [d] + Join(rest[1..], d);
        assert s == [s[0]] + s[1..];
      }
      forall k | 0 <= k < |r|
        ensures d !in r[k]
      {
        if k == 0 {
          assert d !in rest[0];
          assert forall j :: 0 <= j < |r[0]| ==> r[0][j] != d by {
            forall j | 0 <= j < |r[0]|
              ensures r[0][j] != d
            {
              if j > 0 {
                assert r[0][j] == rest[0][j - 1];
              }
            }
          }
        } else {
          assert r[k] == rest[k];
        }
      }
    }
  }

  /** The fields that repeated `std::getline(stream, field, d)` calls
      deliver: the pieces of `Split`, except that a final empty piece is
      never delivered, because a read that extracts nothing fails. */
  function Fields(s: string, d: char): seq<string> {
    var f := Split(s, d);
    if f[|f| - 1] == "" then f[..|f| - 1] else f
  }

  /** The lines `std::getline(is, line)` delivers from a whole stream. */
  function Lines(text: string): seq<string> {
    Fields(text, '\n')
  }

  /** A piece without the delimiter splits into itself. */
  lemma {:induction false} SplitNoDelimiter(p: string, d: char)
    requires d !in p
    ensures Split(p, d) == [p]
    decreases |p|
  {
    if p != [] {
      SplitNoDelimiter(p[1..], d);
      assert [p[0]] + p[1..] == p;
    }
  }

  /** A first piece without the delimiter, then the delimiter, splits off
      as the first piece. */
  lemma {:induction false} SplitFirstPiece(p: string, d: char, t: string)
    requires d !in p
    ensures Split(p + [d] + t, d) == [p] + Split(t, d)
    decreases |p|
  {
    var s := p + [d] + t;
    if p == [] {
      assert s == [d] + t && s[1..] == t;
    } else {
      assert s[0] == p[0] && s[1..] == p[1..] + [d] + t;
      SplitFirstPiece(p[1..], d, t);
      assert [p[0]] + p[1..] == p;
    }
  }

  /** The other round trip: pieces without the delimiter, joined, split
      back into the same pieces. */
  lemma {:induction false} JoinSplit(parts: seq<string>, d: char)
    requires |parts| >= 1
    requires forall k :: 0 <= k < |parts| ==> d !in parts[k]
    ensures Split(Join(parts, d), d) == parts
    decreases |parts|
  {
    if |parts| == 1 {
      SplitNoDelimiter(parts[0], d);
    } else {
      JoinSplit(parts[1..], d);
      SplitFirstPiece(parts[0], d, Join(parts[1..], d));
      assert [parts[0]] + parts[1..] == parts;
    }
  }

  lemma SplitLastEmpty(s: string, d: char)
    ensures Split(s, d)[|Split(s, d)| - 1] == "" <==> (s == "" || s[|s| - 1] == d)
    decreases |s|
  {
    if |s| > 0 {
      SplitLastEmpty(s[1..], d);
      if s[0] != d {
        var rest := Split(s[1..], d);
        if |rest| == 1 {
          assert Split(s, d) == [[s[0]] + rest[0]];
        } else {
          assert Split(s, d)[|Split(s, d)| - 1] == rest[|rest| - 1];
        }
      }
    }
  }

  /** Reading fields delivers nothing exactly when the input is empty, and
      otherwise delivers the pieces between delimiters with the delimiters
      themselves removed. */
  lemma FieldsEmptyIff(s: string, d: char)
    ensures Fields(s, d) == [] <==> s == ""
    ensures s != "" ==> Join(Fields(s, d), d) == s || Join(Fields(s, d), d) + [d] == s
  {
    SplitLastEmpty(s, d);
    SplitJoin(s, d);
    var f := Split(s, d);
    if s != "" && f[|f| - 1] == "" {
      assert |f| >= 2;
      JoinDropLastEmpty(f, d);
    }
  }

  lemma {:induction false} JoinDropLastEmpty(f: seq<string>, d: char)
    requires |f| >= 2 && f[|f| - 1] == ""
    ensures Join(f[..|f| - 1], d) + [d] == Join(f, d)
    decreases |f|
  {
    if |f| == 2 {
      assert f[..1] == [f[0]];
      assert Join(f[1..], d) == "";
    } else {
      JoinDropLastEmpty(f[1..], d);
      assert f[1..][..|f| - 2] == f[..|f| - 1][1..];
      assert Join(f[..|f| - 1], d) == f[0] + [d] + Join(f[..|f| - 1][1..], d);
    }
  }

  // ---------------------------------------------------------------------
  // Decimal numbers
  // ---------------------------------------------------------------------

  const INT_MIN: int := -0x8000_0000
  const INT_MAX: int := 0x7fff_ffff

  /** `unsigned int` conversion of an `int`: arithmetic modulo 2^32. */
  function ToU32(n: int): (r: int)
    ensures 0 <= r < 0x1_0000_0000
    ensures 0 <= n < 0x1_0000_0000 ==> r == n
  {
    n % 0x1_0000_0000
  }

  predicate IsDigit(c: char) {
    '0' <= c <= '9'
  }

  function DigitValue(c: char): nat
    requires IsDigit(c)
  {
    c as int - '0' as int
  }

  function DigitChar(n: nat): (c: char)
    requires n < 10
    ensures IsDigit(c) && DigitValue(c) == n
  {
    ('0' as int + n) as char
  }

  predicate AllDigits(s: string) {
    forall i :: 0 <= i < |s| ==> IsDigit(s[i])
  }

  /** `isspace` in the "C" locale. */
  predicate IsSpace(c: char) {
    c == ' ' || c == '\t' || c == '\n' || c == '\r' || c == '\U{B}' || c == '\U{C}'
  }

  /** Length of the leading run of white space. */
  function SpaceRun(s: string): (n: nat)
    ensures n <= |s|
    ensures forall i :: 0 <= i < n ==> IsSpace(s[i])
    ensures n < |s| ==> !IsSpace(s[n])
  {
    if |s| == 0 || !IsSpace(s[0]) then 0 else 1 + SpaceRun(s[1..])
  }

  /** Length of the leading run of decimal digits. */
  function DigitRun(s: string): (n: nat)
    ensures n <= |s|
    ensures AllDigits(s[..n])
    ensures n < |s| ==> !IsDigit(s[n])
  {
    if |s| == 0 || !IsDigit(s[0]) then 0
    else
      var n := 1 + DigitRun(s[1..]);
      assert forall i :: 1 <= i < n ==> s[..n][i] == s[1..][..n - 1][i - 1];
      n
  }

  lemma DigitRunOfDigits(s: string)
    requires AllDigits(s)
    ensures DigitRun(s) == |s|
  {
    if |s| > 0 {
      DigitRunOfDigits(s[1..]);
    }
  }

  /** Value of a string of decimal digits, most significant first. */
  function DigitsValue(ds: string): nat
    requires AllDigits(ds)
    decreases |ds|
  {
    if |ds| == 0 then 0
    else DigitsValue(ds[..|ds| - 1]) * 10 + DigitValue(ds[|ds| - 1])
  }

  function Pow10(k: nat): (p: nat)
    ensures p >= 1
  {
    if k == 0 then 1 else 10 * Pow10(k - 1)
  }

  lemma {:induction false} DigitsValueBound(ds: string)
    requires AllDigits(ds)
    ensures DigitsValue(ds) < Pow10(|ds|)
    decreases |ds|
  {
    if |ds| > 0 {
      DigitsValueBound(ds[..|ds| - 1]);
    }
  }

  lemma Pow10Monotone(a: nat, b: nat)
    requires a <= b
    ensures Pow10(a) <= Pow10(b)
    decreases b
  {
    if a < b {
      Pow10Monotone(a, b - 1);
    }
  }

  /** Splits off an optional leading sign: (negative, rest). */
  function Unsign(t: string): (bool, string) {
    if |t| > 0 && (t[0] == '+' || t[0] == '-') then (t[0] == '-', t[1..])
    else (false, t)
  }

  /** `std::stoi`: skips leading white space, reads an optional sign and the
      longest run of digits, ignores whatever follows; throws
      `invalid_argument` when no digit is read and `out_of_range` when the
      value does not fit in an `int`. */
  function StoI(s: string): (r: Result<int>)
    ensures r.Success? ==> INT_MIN <= r.value <= INT_MAX
    ensures r.Failure? ==> r.error in {InvalidArgument("stoi"), OutOfRange("stoi")}
  {
    var (neg, u) := Unsign(s[SpaceRun(s)..]);
    var n := DigitRun(u);
    if n == 0 then Failure(InvalidArgument("stoi"))
    else
      var mag: int := DigitsValue(u[..n]);
      var v := if neg then -mag else mag;
      if v < INT_MIN || v > INT_MAX then Failure(OutOfRange("stoi"))
      else Success(v)
  }

  /** A number read by `StoI` from at most `k` characters (sign and white
      space included) has fewer than `k` significant digits' worth of
      magnitude. */
  lemma StoIShortInRange(s: string)
    requires |s| <= 8
    ensures StoI(s).Success? || StoI(s).error == InvalidArgument("stoi")
  {
    var (neg, u) := Unsign(s[SpaceRun(s)..]);
    var n := DigitRun(u);
    if n > 0 {
      DigitsValueBound(u[..n]);
      Pow10Monotone(n, 8);
      assert Pow10(8) == 100000000;
    }
  }

  /** `std::to_string` of a non-negative integer. */
  function NatToString(n: nat): (r: string)
    ensures |r| >= 1 && AllDigits(r)
    decreases n
  {
    if n < 10 then [DigitChar(n)] else NatToString(n / 10) + [DigitChar(n % 10)]
  }

  /** `std::to_string` of an integer. */
  function IntToString(i: int): string {
    if i < 0 then "-" + NatToString(-i) else NatToString(i)
  }

  lemma {:induction false} DigitsOfNatToString(n: nat)
    ensures DigitsValue(NatToString(n)) == n
    decreases n
  {
    var r := NatToString(n);
    if n >= 10 {
      DigitsOfNatToString(n / 10);
      assert r[..|r| - 1] == NatToString(n / 10);
    }
  }

  /** `std::stoi` reads back what `std::to_string` wrote, for every `int`. */
  lemma StoIOfIntToString(i: int)
    requires INT_MIN <= i <= INT_MAX
    ensures StoI(IntToString(i)) == Success(i)
  {
    var s := IntToString(i);
    var digits := NatToString(if i < 0 then -i else i);
    DigitsOfNatToString(if i < 0 then -i else i);
    assert !IsSpace(s[0]);
    assert s[SpaceRun(s)..] == s;
    var (neg, u) := Unsign(s);
    assert u == digits;
    DigitRunOfDigits(u);
    assert u[..|u|] == u;
  }

  /** `std::stod` restricted to plain decimal notation: optional white space
      and sign, digits with an optional fractional part, at least one digit;
      whatever follows is ignored. Throws `invalid_argument` when no digit
      is read. The value is exact, so the `out_of_range` a `double` would
      overflow or underflow into is not produced. */
  function StoD(s: string): (r: Result<real>)
    ensures r.Failure? ==> r.error == InvalidArgument("stod")
  {
    var (neg, u) := Unsign(s[SpaceRun(s)..]);
    var n := DigitRun(u);
    var m := FractionRun(u, n);
    if n == 0 && m == 0 then Failure(InvalidArgument("stod"))
    else
      var v := DigitsValue(u[..n]) as real + FractionValue(u, n);
      Success(if neg then -v else v)
  }

  /** Number of digits after a decimal point that follows `n` leading digits. */
  function FractionRun(u: string, n: nat): nat
    requires n <= |u|
  {
    if n < |u| && u[n] == '.' then DigitRun(u[n + 1..]) else 0
  }

  /** Value of the digits after a decimal point that follows `n` leading digits. */
  function FractionValue(u: string, n: nat): real
    requires n <= |u|
  {
    if n < |u| && u[n] == '.' then
      var m := DigitRun(u[n + 1..]);
      (DigitsValue(u[n + 1..][..m]) as real) / (Pow10(m) as real)
    else 0.0
  }

  /** `std::stod` reads back a non-negative whole number written by
      `std::to_string`. */
  lemma StoDOfNatToString(n: nat)
    ensures StoD(NatToString(n)) == Success(n as real)
  {
    var s := NatToString(n);
    DigitsOfNatToString(n);
    assert s[SpaceRun(s)..] == s;
    assert Unsign(s) == (false, s);
    DigitRunOfDigits(s);
    assert s[..|s|] == s;
    assert FractionRun(s, |s|) == 0;
    assert FractionValue(s, |s|) == 0.0;
  }

  // ---------------------------------------------------------------------
  // Bytes
  // ---------------------------------------------------------------------

  predicate IsAscii(c: char) {
    c as int < 0x80
  }

  /** The UTF-8 encoding of one character, each byte held in a `char`
      below 256. */
  function Utf8Char(c: char): (b: string)
    ensures 1 <= |b| <= 4
    ensures |b| == 1 <==> IsAscii(c)
    ensures IsAscii(c) ==> b == [c]
    ensures !IsAscii(c) ==> forall i :: 0 <= i < |b| ==> 0x80 <= b[i] as int < 0x100
  {
    var n := c as int;
    if n < 0x80 then [c]
    else if n < 0x800 then [(0xC0 + n / 0x40) as char, (0x80 + n % 0x40) as char]
    else if n < 0x1_0000 then
      [(0xE0 + n / 0x1000) as char, (0x80 + (n / 0x40) % 0x40) as char, (0x80 + n % 0x40) as char]
    else
      [(0xF0 + n / 0x4_0000) as char, (0x80 + (n / 0x1000) % 0x40) as char,
       (0x80 + (n / 0x40) % 0x40) as char, (0x80 + n % 0x40) as char]
  }

  /** The bytes a `std::string` holds for a command-line value: the UTF-8
      encoding of its text, one `char` per byte. ASCII text is its own
      encoding, and only ASCII text is as long as its encoding. */
  function Utf8(s: string): (b: string)
    ensures |b| >= |s|
    ensures (forall i :: 0 <= i < |s| ==> IsAscii(s[i])) ==> b == s
    ensures |b| == |s| <==> forall i :: 0 <= i < |s| ==> IsAscii(s[i])
  {
    if s == [] then []
    else
      var rest := Utf8(s[1..]);
      assert forall i :: 1 <= i < |s| ==> s[1..][i - 1] == s[i];
      Utf8Char(s[0]) + rest
  }

  /** An ASCII character occurs in the encoding exactly when it occurs in
      the text: every byte of a longer encoding is at least 0x80. */
  lemma {:induction false} Utf8KeepsAscii(s: string, c: char)
    requires IsAscii(c)
    ensures c in Utf8(s) <==> c in s
  {
    if s != [] {
      Utf8KeepsAscii(s[1..], c);
      var head := Utf8Char(s[0]);
      assert Utf8(s) == head + Utf8(s[1..]);
      assert c in head <==> c == s[0];
      assert c in s <==> c == s[0] || c in s[1..];
    }
  }
}
