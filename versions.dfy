/** The dotted-version comparator `compare_versions` of bypass_version.py.

    A version string is split on every `.` (empty pieces included, as Python's
    `str.split('.')` does), each piece is parsed as a decimal integer, and the
    two segment lists are compared index by index, a missing segment counting
    as 0.  The first index at which the segments differ decides the result. */
module Versions {
  import opened Wrappers

  /** The exception `int(x)` raises: the first piece that is not a decimal number. */
  datatype ParseError = InvalidSegment(segment: string)

  // ---------------------------------------------------------------------------
  // Splitting on '.'
  // ---------------------------------------------------------------------------

  /** `s.split('.')`: the pieces between the dots, so |pieces| is one more than
      the number of dots in `s`, and `""` splits into `[""]`. */
  function Split(s: string): (pieces: seq<string>)
    ensures |pieces| >= 1
    decreases |s|
  {
    if s == [] then [""]
    else
      var rest := Split(s[1..]);
      if s[0] == '.' then [""] + rest
      else [[s[0]] + rest[0]] + rest[1..]
  }

  /** No piece contains a dot. */
  lemma {:induction false} SplitDotFree(s: string)
    ensures forall k :: 0 <= k < |Split(s)| ==> '.' !in Split(s)[k]
    decreases |s|
  {
    if s != [] {
      SplitDotFree(s[1..]);
      var rest := Split(s[1..]);
      if s[0] != '.' {
        assert '.' !in [s[0]] + rest[0];
        assert forall k :: 1 <= k < |Split(s)| ==> Split(s)[k] == rest[k];
      } else {
        assert forall k :: 1 <= k < |Split(s)| ==> Split(s)[k] == rest[k - 1];
      }
    }
  }

  /** `'.'.join(pieces)`, the inverse of Split. */
  function JoinDots(pieces: seq<string>): (s: string)
    requires |pieces| >= 1
    decreases |pieces|
  {
    if |pieces| == 1 then pieces[0] else pieces[0] + "." + JoinDots(pieces[1..])
  }

  lemma {:induction false} JoinSplit(s: string)
    ensures JoinDots(Split(s)) == s
    decreases |s|
  {
    if s != [] {
      var rest := Split(s[1..]);
      JoinSplit(s[1..]);
      if s[0] == '.' {
        assert ([""] + rest)[1..] == rest;
      } else if |rest| > 1 {
        var pieces := [[s[0]] + rest[0]] + rest[1..];
        assert pieces[1..] == rest[1..];
        assert JoinDots(rest) == rest[0] + "." + JoinDots(rest[1..]);
        assert s == [s[0]] + s[1..];
      } else {
        assert s == [s[0]] + s[1..];
      }
    }
  }

  /** A dot-free word splits into itself. */
  lemma {:induction false} SplitWord(w: string)
    requires '.' !in w
    ensures Split(w) == [w]
    decreases |w|
  {
    if w != [] {
      assert '.' !in w[1..] by {
        forall k | 0 <= k < |w[1..]| ensures w[1..][k] != '.' { assert w[1..][k] == w[k + 1]; }
      }
      SplitWord(w[1..]);
      assert [w[0]] + w[1..] == w;
    }
  }

  /** Splitting `w + "." + t` for a dot-free `w` peels `w` off the front. */
  lemma {:induction false} SplitDotted(w: string, t: string)
    requires '.' !in w
    ensures Split(w + "." + t) == [w] + Split(t)
    decreases |w|
  {
    if w == [] {
      assert (w + "." + t)[1..] == t;
    } else {
      assert '.' !in w[1..] by {
        forall k | 0 <= k < |w[1..]| ensures w[1..][k] != '.' { assert w[1..][k] == w[k + 1]; }
      }
      SplitDotted(w[1..], t);
      assert (w + "." + t)[1..] == w[1..] + "." + t;
      assert [w[0]] + w[1..] == w;
    }
  }

  lemma {:induction false} SplitJoin(pieces: seq<string>)
    requires |pieces| >= 1
    requires forall k :: 0 <= k < |pieces| ==> '.' !in pieces[k]
    ensures Split(JoinDots(pieces)) == pieces
    decreases |pieces|
  {
    if |pieces| == 1 {
      SplitWord(pieces[0]);
    } else {
      SplitJoin(pieces[1..]);
      SplitDotted(pieces[0], JoinDots(pieces[1..]));
      assert [pieces[0]] + pieces[1..] == pieces;
    }
  }

  /** Appending `".0"` appends one piece `"0"`. */
  lemma {:induction false} SplitAppendZero(s: string)
    ensures Split(s + ".0") == Split(s) + ["0"]
  {
    var pieces := Split(s);
    JoinSplit(s);
    SplitDotFree(s);
    var longer := pieces + ["0"];
    assert forall k :: 0 <= k < |longer| ==> '.' !in longer[k] by {
      forall k | 0 <= k < |longer| ensures '.' !in longer[k] {
        if k < |pieces| { assert longer[k] == pieces[k]; } else { assert longer[k] == "0"; }
      }
    }
    JoinDotsSnoc(pieces, "0");
    assert JoinDots(longer) == s + ".0";
    SplitJoin(longer);
  }

  lemma {:induction false} JoinDotsSnoc(pieces: seq<string>, w: string)
    requires |pieces| >= 1
    ensures JoinDots(pieces + [w]) == JoinDots(pieces) + "." + w
    decreases |pieces|
  {
    if |pieces| == 1 {
      assert (pieces + [w])[1..] == [w];
    } else {
      JoinDotsSnoc(pieces[1..], w);
      assert (pieces + [w])[1..] == pieces[1..] + [w];
    }
  }

  // ---------------------------------------------------------------------------
  // Decimal segments
  // ---------------------------------------------------------------------------

  predicate IsDigit(c: char) {
    '0' <= c <= '9'
  }

  /** What `int(x)` accepts here: a non-empty string of ASCII digits. */
  predicate IsDigits(s: string) {
    |s| > 0 && forall k :: 0 <= k < |s| ==> IsDigit(s[k])
  }

  function DigitValue(c: char): (d: nat)
    requires IsDigit(c)
    ensures d < 10
  {
    (c as int) - ('0' as int)
  }

  function DigitChar(d: nat): (c: char)
    requires d < 10
    ensures IsDigit(c) && DigitValue(c) == d
  {
    (('0' as int) + d) as char
  }

  lemma DigitsDotFree(s: string)
    requires IsDigits(s)
    ensures '.' !in s
  {
  }

  /** The value of a digit string, most significant digit first. */
  function DecimalValue(s: string): nat
    requires forall k :: 0 <= k < |s| ==> IsDigit(s[k])
    decreases |s|
  {
    if s == [] then 0 else DecimalValue(s[..|s| - 1]) * 10 + DigitValue(s[|s| - 1])
  }

  /** `int(x)` on one piece: the value of a digit string, or nothing. */
  function ParseSegment(x: string): (r: Option<nat>)
    ensures r.Some? <==> IsDigits(x)
  {
    if IsDigits(x) then Some(DecimalValue(x)) else None
  }

  /** The shortest decimal numeral of `n`, as `str(n)` writes it. */
  function Decimal(n: nat): (s: string)
    ensures IsDigits(s)
    decreases n
  {
    if n < 10 then [DigitChar(n)] else Decimal(n / 10) + [DigitChar(n % 10)]
  }

  lemma {:induction false} DecimalRoundTrip(n: nat)
    ensures ParseSegment(Decimal(n)) == Some(n)
    decreases n
  {
    var s := Decimal(n);
    if n < 10 {
      assert s == [DigitChar(n)];
      assert s[..|s| - 1] == [];
      assert DecimalValue(s) == DigitValue(DigitChar(n));
    } else {
      DecimalRoundTrip(n / 10);
      assert s[..|s| - 1] == Decimal(n / 10);
    }
  }

  lemma {:induction false} LeadingZeroValue(s: string)
    requires forall k :: 0 <= k < |s| ==> IsDigit(s[k])
    ensures DecimalValue("0" + s) == DecimalValue(s)
    decreases |s|
  {
    if s != [] {
      var t := "0" + s;
      assert t[..|t| - 1] == "0" + s[..|s| - 1];
      assert t[|t| - 1] == s[|s| - 1];
      LeadingZeroValue(s[..|s| - 1]);
    }
  }

  /** Like Python's `int`, a leading zero does not change a segment's value. */
  lemma LeadingZeroIgnored(x: string)
    requires IsDigits(x)
    ensures ParseSegment("0" + x) == ParseSegment(x)
  {
    var t := "0" + x;
    assert forall k :: 0 <= k < |t| ==> IsDigit(t[k]) by {
      forall k | 0 <= k < |t| ensures IsDigit(t[k]) {
        if k > 0 { assert t[k] == x[k - 1]; }
      }
    }
    LeadingZeroValue(x);
  }

  // ---------------------------------------------------------------------------
  // Parsing a version string
  // ---------------------------------------------------------------------------

  /** `[int(x) for x in pieces]`: fails on the first piece that is not a number. */
  function ParseParts(pieces: seq<string>): (r: Result<seq<nat>, ParseError>)
    ensures r.Success? ==> |r.value| == |pieces|
    decreases |pieces|
  {
    if pieces == [] then Success([])
    else match ParseSegment(pieces[0])
      case None => Failure(InvalidSegment(pieces[0]))
      case Some(n) =>
        match ParseParts(pieces[1..])
        case Failure(e) => Failure(e)
        case Success(rest) => Success([n] + rest)
  }

  /** The list parses exactly when every piece is a digit string, each value is
      its piece's value, and a failure names a piece that is not a number. */
  lemma {:induction false} ParsePartsMeaning(pieces: seq<string>)
    ensures var r := ParseParts(pieces);
            (r.Success? <==> forall k :: 0 <= k < |pieces| ==> IsDigits(pieces[k]))
            && (r.Success? ==> forall k :: 0 <= k < |pieces| ==> ParseSegment(pieces[k]) == Some(r.value[k]))
            && (r.Failure? ==> r.error.segment in pieces && !IsDigits(r.error.segment))
    decreases |pieces|
  {
    if pieces != [] {
      ParsePartsMeaning(pieces[1..]);
      assert forall k :: 1 <= k < |pieces| ==> pieces[k] == pieces[1..][k - 1];
    }
  }

  lemma {:induction false} ParsePartsSnoc(pieces: seq<string>, w: string, n: nat)
    requires ParseParts(pieces).Success? && ParseSegment(w) == Some(n)
    ensures ParseParts(pieces + [w]) == Success(ParseParts(pieces).value + [n])
    decreases |pieces|
  {
    if pieces == [] {
      var single := [w];
      assert pieces + [w] == single;
      assert single[0] == w && single[1..] == [];
      assert ParseParts(single[1..]) == Success([]);
      assert ParseParts(single) == Success([n] + []);
      assert [n] + [] == [n] == ParseParts(pieces).value + [n];
    } else {
      ParsePartsSnoc(pieces[1..], w, n);
      assert (pieces + [w])[1..] == pieces[1..] + [w];
      assert (pieces + [w])[0] == pieces[0];
      var n0 := ParseSegment(pieces[0]).value;
      var rest := ParseParts(pieces[1..]).value;
      assert ParseParts(pieces).value == [n0] + rest;
      assert ParseParts(pieces + [w]) == Success([n0] + (rest + [n]));
      assert [n0] + (rest + [n]) == ([n0] + rest) + [n];
    }
  }

  /** The segment list of a version string, or the piece that does not parse. */
  function ParseVersion(s: string): (r: Result<seq<nat>, ParseError>)
    ensures r.Success? ==> |r.value| >= 1
  {
    ParseParts(Split(s))
  }

  /** A version string is well formed when every piece is a digit string. */
  predicate WellFormed(s: string) {
    ParseVersion(s).Success?
  }

  /** The dotted string of a segment list, the inverse of ParseVersion. */
  function FormatVersion(parts: seq<nat>): (s: string)
    requires |parts| >= 1
    decreases |parts|
  {
    if |parts| == 1 then Decimal(parts[0]) else Decimal(parts[0]) + "." + FormatVersion(parts[1..])
  }

  function Decimals(parts: seq<nat>): (pieces: seq<string>)
    ensures |pieces| == |parts|
    ensures forall k :: 0 <= k < |parts| ==> pieces[k] == Decimal(parts[k])
    decreases |parts|
  {
    if parts == [] then [] else [Decimal(parts[0])] + Decimals(parts[1..])
  }

  lemma {:induction false} FormatIsJoin(parts: seq<nat>)
    requires |parts| >= 1
    ensures FormatVersion(parts) == JoinDots(Decimals(parts))
    decreases |parts|
  {
    if |parts| > 1 {
      FormatIsJoin(parts[1..]);
      assert Decimals(parts)[1..] == Decimals(parts[1..]);
    }
  }

  /** Parsing the decimal forms of a list of values gives the list back. */
  lemma {:induction false} ParsePartsDecimals(parts: seq<nat>)
    ensures ParseParts(Decimals(parts)) == Success(parts)
    decreases |parts|
  {
    if parts != [] {
      ParsePartsDecimals(parts[1..]);
      DecimalRoundTrip(parts[0]);
      var pieces := Decimals(parts);
      assert pieces[0] == Decimal(parts[0]);
      assert pieces[1..] == Decimals(parts[1..]);
      assert parts == [parts[0]] + parts[1..];
    }
  }

  /** Every segment list prints to a string that parses back to it. */
  lemma FormatRoundTrip(parts: seq<nat>)
    requires |parts| >= 1
    ensures ParseVersion(FormatVersion(parts)) == Success(parts)
  {
    var pieces := Decimals(parts);
    FormatIsJoin(parts);
    forall k | 0 <= k < |pieces| ensures '.' !in pieces[k] {
      DecimalRoundTrip(parts[k]);
      DigitsDotFree(pieces[k]);
    }
    SplitJoin(pieces);
    ParsePartsDecimals(parts);
  }

  // ---------------------------------------------------------------------------
  // Comparing segment lists
  // ---------------------------------------------------------------------------

  function Max(x: int, y: int): int {
    if x < y then y else x
  }

  /** Segment `i` of `p`, a missing segment counting as 0. */
  function At(p: seq<nat>, i: nat): nat {
    if i < |p| then p[i] else 0
  }

  /** The loop of compare_versions from index `i` on: -1, 0 or 1 from the
      first index at which the segments differ. */
  function CompareFrom(a: seq<nat>, b: seq<nat>, i: nat): (r: int)
    ensures r == -1 || r == 0 || r == 1
    decreases Max(|a|, |b|) - i
  {
    if i >= Max(|a|, |b|) then 0
    else if At(a, i) < At(b, i) then -1
    else if At(a, i) > At(b, i) then 1
    else CompareFrom(a, b, i + 1)
  }

  /** Segments `i` up to (not including) `k` agree. */
  predicate AgreeBetween(a: seq<nat>, b: seq<nat>, i: nat, k: nat) {
    forall j: nat :: i <= j < k ==> At(a, j) == At(b, j)
  }

  /** CompareFrom returns 0 exactly when all segments from `i` agree, and -1
      (or 1) exactly when the first segment from `i` at which they differ is
      smaller (or larger) in `a`. */
  lemma {:induction false} CompareFromMeaning(a: seq<nat>, b: seq<nat>, i: nat)
    ensures CompareFrom(a, b, i) == 0 <==> forall j: nat :: i <= j ==> At(a, j) == At(b, j)
    ensures CompareFrom(a, b, i) == -1 <==> exists k: nat :: i <= k && At(a, k) < At(b, k) && AgreeBetween(a, b, i, k)
    ensures CompareFrom(a, b, i) == 1 <==> exists k: nat :: i <= k && At(a, k) > At(b, k) && AgreeBetween(a, b, i, k)
    decreases Max(|a|, |b|) - i
  {
    if i >= Max(|a|, |b|) {
      assert forall j: nat :: i <= j ==> At(a, j) == 0 == At(b, j);
    } else if At(a, i) < At(b, i) {
      assert AgreeBetween(a, b, i, i);
    } else if At(a, i) > At(b, i) {
      assert AgreeBetween(a, b, i, i);
    } else {
      CompareFromMeaning(a, b, i + 1);
      var r := CompareFrom(a, b, i + 1);
      if r == -1 {
        var k: nat :| i + 1 <= k && At(a, k) < At(b, k) && AgreeBetween(a, b, i + 1, k);
        assert AgreeBetween(a, b, i, k);
      } else if r == 1 {
        var k: nat :| i + 1 <= k && At(a, k) > At(b, k) && AgreeBetween(a, b, i + 1, k);
        assert AgreeBetween(a, b, i, k);
      }
      forall k: nat | i <= k && AgreeBetween(a, b, i, k) && At(a, k) != At(b, k)
        ensures i + 1 <= k && AgreeBetween(a, b, i + 1, k)
      {
      }
    }
  }

  /** `compare_versions` on two strings: -1, 0 or 1, or the ValueError of `int()`. */
  function CompareStrings(version1: string, version2: string): (r: Result<int, ParseError>)
    ensures r.Success? <==> WellFormed(version1) && WellFormed(version2)
    ensures r.Success? ==> r.value == -1 || r.value == 0 || r.value == 1
    ensures !WellFormed(version1) ==> r == Failure(ParseVersion(version1).error)
  {
    var v1Parts :- ParseVersion(version1);
    var v2Parts :- ParseVersion(version2);
    Success(CompareFrom(v1Parts, v2Parts, 0))
  }

  /** `compare_versions` as the source writes it: parse both lists, then walk
      the indices with early returns. */
  method CompareVersions(version1: string, version2: string) returns (r: Result<int, ParseError>)
    ensures r == CompareStrings(version1, version2)
  {
    var p1 := ParseVersion(version1);
    if p1.Failure? {
      return Failure(p1.error);
    }
    var p2 := ParseVersion(version2);
    if p2.Failure? {
      return Failure(p2.error);
    }
    var v1Parts, v2Parts := p1.value, p2.value;
    for i := 0 to Max(|v1Parts|, |v2Parts|)
      invariant CompareFrom(v1Parts, v2Parts, i) == CompareFrom(v1Parts, v2Parts, 0)
    {
      var v1 := if i < |v1Parts| then v1Parts[i] else 0;
      var v2 := if i < |v2Parts| then v2Parts[i] else 0;
      if v1 < v2 {
        return Success(-1);
      } else if v1 > v2 {
        return Success(1);
      }
    }
    return Success(0);
  }

  // ---------------------------------------------------------------------------
  // Algebraic properties
  // ---------------------------------------------------------------------------

  lemma ComparePartsReflexive(a: seq<nat>)
    ensures CompareFrom(a, a, 0) == 0
  {
    CompareFromMeaning(a, a, 0);
  }

  lemma {:induction false} ComparePartsAntisymmetric(a: seq<nat>, b: seq<nat>, i: nat)
    ensures CompareFrom(b, a, i) == -CompareFrom(a, b, i)
    decreases Max(|a|, |b|) - i
  {
    if i < Max(|a|, |b|) && At(a, i) == At(b, i) {
      ComparePartsAntisymmetric(a, b, i + 1);
    }
  }

  lemma {:induction false} ComparePartsTransitive(a: seq<nat>, b: seq<nat>, c: seq<nat>, i: nat)
    requires CompareFrom(a, b, i) <= 0 && CompareFrom(b, c, i) <= 0
    ensures CompareFrom(a, c, i) <= 0
    decreases Max(Max(|a|, |b|), |c|) - i
  {
    if i < Max(Max(|a|, |b|), |c|) && At(a, i) == At(b, i) == At(c, i) {
      ComparePartsTransitive(a, b, c, i + 1);
    }
  }

  /** Only the segment values matter, not how many trailing zeros are spelt out. */
  lemma ComparePartsTrailingZero(a: seq<nat>, b: seq<nat>)
    ensures CompareFrom(a + [0], b, 0) == CompareFrom(a, b, 0)
  {
    assert forall j: nat :: At(a + [0], j) == At(a, j);
    CompareFromMeaning(a + [0], b, 0);
    CompareFromMeaning(a, b, 0);
    if CompareFrom(a, b, 0) == -1 {
      var k: nat :| At(a, k) < At(b, k) && AgreeBetween(a, b, 0, k);
      assert AgreeBetween(a + [0], b, 0, k);
    } else if CompareFrom(a, b, 0) == 1 {
      var k: nat :| At(a, k) > At(b, k) && AgreeBetween(a, b, 0, k);
      assert AgreeBetween(a + [0], b, 0, k);
    }
  }

  /** compare_versions returns -1, 0 or 1 exactly when both strings are well
      formed, and otherwise raises on a piece that is not a number. */
  lemma CompareStringsDefined(version1: string, version2: string)
    ensures var r := CompareStrings(version1, version2);
            (r.Success? <==> WellFormed(version1) && WellFormed(version2))
            && (r.Success? ==> r.value == -1 || r.value == 0 || r.value == 1)
            && (r.Failure? ==> !IsDigits(r.error.segment)
                               && (r.error.segment in Split(version1) || r.error.segment in Split(version2)))
  {
    ParsePartsMeaning(Split(version1));
    ParsePartsMeaning(Split(version2));
  }

  /** compare_versions(s, s) == 0 for every well-formed s. */
  lemma CompareStringsReflexive(s: string)
    requires WellFormed(s)
    ensures CompareStrings(s, s) == Success(0)
  {
    ComparePartsReflexive(ParseVersion(s).value);
  }

  /** compare_versions(b, a) == -compare_versions(a, b) for well-formed a, b. */
  lemma CompareStringsAntisymmetric(v1: string, v2: string)
    requires WellFormed(v1) && WellFormed(v2)
    ensures CompareStrings(v2, v1).Success?
    ensures CompareStrings(v2, v1).value == -CompareStrings(v1, v2).value
  {
    ComparePartsAntisymmetric(ParseVersion(v1).value, ParseVersion(v2).value, 0);
  }

  lemma CompareStringsTransitive(v1: string, v2: string, v3: string)
    requires WellFormed(v1) && WellFormed(v2) && WellFormed(v3)
    requires CompareStrings(v1, v2).value <= 0 && CompareStrings(v2, v3).value <= 0
    ensures CompareStrings(v1, v3).value <= 0
  {
    ComparePartsTransitive(ParseVersion(v1).value, ParseVersion(v2).value, ParseVersion(v3).value, 0);
  }

  /** A trailing ".0" changes nothing: "1.5" and "1.5.0" compare alike against every version. */
  lemma CompareStringsTrailingZero(v1: string, v2: string)
    requires WellFormed(v1)
    ensures WellFormed(v1 + ".0")
    ensures CompareStrings(v1 + ".0", v2) == CompareStrings(v1, v2)
  {
    SplitAppendZero(v1);
    var parts := ParseVersion(v1).value;
    assert ParseSegment("0") == Some(0) by {
      assert "0"[..0] == [];
    }
    ParsePartsSnoc(Split(v1), "0", 0);
    ComparePartsTrailingZero(parts, if ParseVersion(v2).Success? then ParseVersion(v2).value else []);
  }

  /** FormatRoundTrip for a literal `s`, used by the worked examples. */
  lemma ParsesAs(s: string, parts: seq<nat>)
    requires |parts| >= 1 && s == FormatVersion(parts)
    ensures ParseVersion(s) == Success(parts)
  {
    FormatRoundTrip(parts);
  }

  /** "1.5" and "1.5.0" compare equal. */
  lemma CompareExampleEqual()
    ensures CompareStrings("1.5", "1.5.0") == Success(0)
  {
    assert Decimal(0) == "0" && Decimal(1) == "1" && Decimal(5) == "5";
    ParsesAs("1.5", [1, 5]);
    ParsesAs("1.5.0", [1, 5, 0]);
    assert CompareFrom([1, 5], [1, 5, 0], 0) == 0;
  }

  /** "1.5" is older than "1.5.1". */
  lemma CompareExampleOlder()
    ensures CompareStrings("1.5", "1.5.1") == Success(-1)
  {
    assert Decimal(1) == "1" && Decimal(5) == "5";
    ParsesAs("1.5", [1, 5]);
    ParsesAs("1.5.1", [1, 5, 1]);
    assert At([1, 5], 2) < At([1, 5, 1], 2);
  }

  /** "2.0.0" is newer than "1.9.9". */
  lemma CompareExampleNewer()
    ensures CompareStrings("2.0.0", "1.9.9") == Success(1)
  {
    assert Decimal(0) == "0" && Decimal(1) == "1" && Decimal(2) == "2" && Decimal(9) == "9";
    ParsesAs("2.0.0", [2, 0, 0]);
    ParsesAs("1.9.9", [1, 9, 9]);
    assert At([2, 0, 0], 0) > At([1, 9, 9], 0);
  }

  /** The empty piece of "1..2" is not a number, so the comparison fails. */
  lemma CompareExampleEmptySegment(other: string)
    ensures CompareStrings("1..2", other) == Failure(InvalidSegment(""))
  {
    assert Split("1..2") == ["1", "", "2"] by {
      SplitWord("1");
      SplitWord("2");
      SplitDotted("", "2");
      SplitDotted("1", ".2");
      assert "1..2" == "1" + "." + ".2";
      assert ".2" == "" + "." + "2";
    }
    assert ParseSegment("1") == Some(1) by { assert "1"[..0] == []; }
  }
}
