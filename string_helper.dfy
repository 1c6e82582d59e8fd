/**
 * StringHelper::getSimilarity (app/Helpers/StringHelper.php): both descriptions lose
 * every ASCII digit, then PHP's similar_text scores the cleaned strings.
 *
 * A PHP string is a byte string; here it is a `string` whose elements are its bytes.
 * similar_text is a PHP builtin. It is written out below as PHP implements it
 * (php_similar_str and php_similar_char): find the first longest common substring
 * in scan order, count its length, and recurse into the parts left and right of it.
 */
module StringHelper {

  /** A byte matched by the character class [0-9]. */
  predicate IsDigit(c: char)
  {
    '0' <= c <= '9'
  }

  predicate HasNoDigit(s: string)
  {
    forall i :: 0 <= i < |s| ==> !IsDigit(s[i])
  }

  /** preg_replace('/[0-9]+/', '', s): every run of digits is deleted, every other byte kept in order. */
  function StripDigits(s: string): (r: string)
    ensures HasNoDigit(r)
    ensures |r| <= |s|
    decreases |s|
  {
    if s == [] then []
    else if IsDigit(s[|s| - 1]) then StripDigits(s[..|s| - 1])
    else StripDigits(s[..|s| - 1]) + [s[|s| - 1]]
  }

  /** Stripping works piecewise: a digit never joins or splits the bytes around it. */
  lemma {:induction false} StripDigitsConcat(a: string, b: string)
    ensures StripDigits(a + b) == StripDigits(a) + StripDigits(b)
    decreases |b|
  {
    if b != [] {
      assert (a + b)[..|a + b| - 1] == a + b[..|b| - 1];
      StripDigitsConcat(a, b[..|b| - 1]);
    } else {
      assert a + b == a;
    }
  }

  /** A string without digits is left as it is. */
  lemma {:induction false} StripDigitsKeepsDigitFree(s: string)
    requires HasNoDigit(s)
    ensures StripDigits(s) == s
    decreases |s|
  {
    if s != [] {
      StripDigitsKeepsDigitFree(s[..|s| - 1]);
    }
  }

  /** Stripping twice is stripping once. */
  lemma StripDigitsIdempotent(s: string)
    ensures StripDigits(StripDigits(s)) == StripDigits(s)
  {
    StripDigitsKeepsDigitFree(StripDigits(s));
  }

  /** Exactly the digits go: every other byte keeps its number of occurrences. */
  lemma {:induction false} StripDigitsCounts(s: string, c: char)
    ensures multiset(StripDigits(s))[c] == if IsDigit(c) then 0 else multiset(s)[c]
    decreases |s|
  {
    if s != [] {
      StripDigitsCounts(s[..|s| - 1], c);
      assert s == s[..|s| - 1] + [s[|s| - 1]];
    }
  }

  // ---------------------------------------------------------------------------
  // similar_text
  // ---------------------------------------------------------------------------

  /**
   * The state of php_similar_str's scan: the start of the best common substring in
   * each string, its length, and how many times the best length was improved.
   */
  datatype Match = Match(pos1: nat, pos2: nat, max: nat, count: nat)

  /** The innermost loop of php_similar_str: the length of the common run starting at a[p] and b[q]. */
  function CommonRun<T(==)>(a: seq<T>, b: seq<T>, p: nat, q: nat): (l: nat)
    requires p <= |a| && q <= |b|
    ensures p + l <= |a| && q + l <= |b|
    ensures a[p..p + l] == b[q..q + l]
    ensures p + l < |a| && q + l < |b| ==> a[p + l] != b[q + l]
    decreases |a| - p
  {
    if p < |a| && q < |b| && a[p] == b[q] then
      var l := CommonRun(a, b, p + 1, q + 1);
      SliceCons(a, p, l);
      SliceCons(b, q, l);
      1 + l
    else 0
  }

  lemma SliceCons<T>(s: seq<T>, p: nat, l: nat)
    requires p + 1 + l <= |s|
    ensures s[p..p + 1 + l] == [s[p]] + s[p + 1..p + 1 + l]
  {
  }

  /** A scan state that describes a real common substring (or none yet). */
  ghost predicate MatchIn<T>(a: seq<T>, b: seq<T>, m: Match)
  {
    && m.pos1 <= |a| && m.pos2 <= |b|
    && (m.max > 0 ==> m.pos1 < |a| && m.pos2 < |b| && CommonRun(a, b, m.pos1, m.pos2) == m.max)
  }

  /** (p', q') is visited at or after (p, q) by the two nested loops of php_similar_str. */
  predicate ScannedFrom(p: nat, q: nat, p': nat, q': nat)
  {
    p' > p || (p' == p && q' >= q)
  }

  /** The two outer loops of php_similar_str from position (p, q) on; a run replaces the best only when strictly longer. */
  function Scan<T(==)>(a: seq<T>, b: seq<T>, p: nat, q: nat, best: Match): (m: Match)
    requires p <= |a| && q <= |b|
    requires MatchIn(a, b, best)
    ensures MatchIn(a, b, m)
    ensures m.max >= best.max
    ensures m.max == best.max ==> m == best
    ensures forall p': nat, q': nat :: ScannedFrom(p, q, p', q') && p' < |a| && q' < |b| ==> CommonRun(a, b, p', q') <= m.max
    decreases |a| - p, |b| - q
  {
    if p == |a| then best
    else if q == |b| then
      var m := Scan(a, b, p + 1, 0, best);
      assert forall p': nat, q': nat :: ScannedFrom(p, q, p', q') && p' < |a| && q' < |b| ==> ScannedFrom(p + 1, 0, p', q');
      m
    else
      var l := CommonRun(a, b, p, q);
      var m := Scan(a, b, p, q + 1, if l > best.max then Match(p, q, l, best.count + 1) else best);
      assert l <= m.max;
      assert forall p': nat, q': nat :: ScannedFrom(p, q, p', q') ==> (p' == p && q' == q) || ScannedFrom(p, q + 1, p', q');
      m
  }

  /** php_similar_str: the first longest common substring, in scan order. */
  function FirstLongest<T(==)>(a: seq<T>, b: seq<T>): (m: Match)
    ensures MatchIn(a, b, m)
    ensures forall p: nat, q: nat :: p < |a| && q < |b| ==> CommonRun(a, b, p, q) <= m.max
  {
    Scan(a, b, 0, 0, Match(0, 0, 0, 0))
  }

  /** php_similar_char: the number of matching bytes similar_text counts. */
  function SimilarChar<T(==)>(a: seq<T>, b: seq<T>): (sum: nat)
    ensures sum <= |a| && sum <= |b|
    decreases |a|
  {
    var m := FirstLongest(a, b);
    if m.max == 0 then 0
    else
      var left :=
        if m.pos1 > 0 && m.pos2 > 0 && m.count > 1
        then SimilarChar(a[..m.pos1], b[..m.pos2]) else 0;
      var right :=
        if m.pos1 + m.max < |a| && m.pos2 + m.max < |b|
        then SimilarChar(a[m.pos1 + m.max..], b[m.pos2 + m.max..]) else 0;
      m.max + left + right
  }

  /** The percentage similar_text writes to its third argument: 0 for two empty strings, else sim * 200 / (|a| + |b|). */
  function SimilarTextPercent(a: string, b: string): (percent: real)
    ensures 0.0 <= percent <= 100.0
    ensures percent == 100.0 <==> a != [] && SimilarChar(a, b) == |a| == |b|
  {
    if |a| + |b| == 0 then 0.0
    else
      var n := (|a| + |b|) as real;
      var m := SimilarChar(a, b);
      PercentBounds(m, |a|, |b|);
      (200 * m) as real / n
  }

  lemma PercentBounds(m: nat, la: nat, lb: nat)
    requires la + lb > 0 && m <= la && m <= lb
    ensures 0.0 <= (200 * m) as real / (la + lb) as real <= 100.0
    ensures (200 * m) as real / (la + lb) as real == 100.0 <==> m == la == lb
  {
    var n := (la + lb) as real;
    var r := (200 * m) as real / n;
    assert r * n == (200 * m) as real;
    assert 200 * m <= 100 * (la + lb);
    assert 100.0 * n == (100 * (la + lb)) as real;
    Scale(r, 100.0, n);
    Scale(0.0, r, n);
    assert r == 100.0 <==> (200 * m) as real == (100 * (la + lb)) as real;
    assert r == 100.0 <==> 200 * m == 100 * (la + lb);
    assert 200 * m == 100 * (la + lb) <==> m == la == lb;
  }

  /** Multiplying both sides by a positive number keeps an order or an equation. */
  lemma Scale(x: real, y: real, n: real)
    requires n > 0.0
    ensures x <= y <==> x * n <= y * n
    ensures x == y <==> x * n == y * n
  {
  }

  /** StringHelper::getSimilarity. */
  function GetSimilarity(str1: string, str2: string): (percent: real)
    ensures 0.0 <= percent <= 100.0
  {
    SimilarTextPercent(StripDigits(str1), StripDigits(str2))
  }

  // ---------------------------------------------------------------------------
  // Properties of the score
  // ---------------------------------------------------------------------------

  /** The float test `percent > threshold` is the integer test 200 * sim > threshold * (|a| + |b|). */
  lemma PercentAbove(a: string, b: string, threshold: nat)
    ensures SimilarTextPercent(a, b) > threshold as real
        <==> 200 * SimilarChar(a, b) > threshold * (|a| + |b|)
  {
    if |a| + |b| > 0 {
      RatioAbove(200 * SimilarChar(a, b), |a| + |b|, threshold);
    }
  }

  lemma RatioAbove(x: nat, n: nat, t: nat)
    requires n > 0
    ensures x as real / n as real > t as real <==> x > t * n
  {
    var r := x as real / n as real;
    assert r * n as real == x as real;
    Scale(r, t as real, n as real);
    assert (t * n) as real == t as real * n as real;
  }

  /** A string scores all of its bytes against itself, so equal non-empty strings score 100. */
  lemma {:induction false} SimilarCharSelf<T>(a: seq<T>)
    ensures SimilarChar(a, a) == |a|
  {
    if a != [] {
      SelfMatchFirst(a);
    }
  }

  lemma {:induction false} CommonRunSelf<T>(a: seq<T>, p: nat)
    requires p <= |a|
    ensures CommonRun(a, a, p, p) == |a| - p
    decreases |a| - p
  {
    if p < |a| {
      CommonRunSelf(a, p + 1);
    }
  }

  /** Scanning a string against itself: the run at (0, 0) is the whole string and nothing later beats it. */
  lemma SelfMatchFirst<T>(a: seq<T>)
    requires a != []
    ensures FirstLongest(a, a).pos1 == 0 && FirstLongest(a, a).max == |a|
  {
    CommonRunSelf(a, 0);
    var first := Match(0, 0, |a|, 1);
    assert FirstLongest(a, a) == Scan(a, a, 0, 1, first);
    var m := Scan(a, a, 0, 1, first);
    assert m.max <= |a| by {
      if m.max > 0 {
        assert m.pos1 + m.max <= |a|;
      }
    }
  }

  /** Strings that share no byte score nothing. */
  lemma {:induction false} SimilarCharDisjoint<T>(a: seq<T>, b: seq<T>)
    requires forall i, j :: 0 <= i < |a| && 0 <= j < |b| ==> a[i] != b[j]
    ensures SimilarChar(a, b) == 0
  {
    if FirstLongest(a, b).max > 0 {
      assert false;
    }
  }

  /** Descriptions that are equal once their digits are gone score 100, unless nothing is left of them. */
  lemma GetSimilarityEqualStripped(str1: string, str2: string)
    requires StripDigits(str1) == StripDigits(str2)
    ensures GetSimilarity(str1, str2) == if StripDigits(str1) == [] then 0.0 else 100.0
  {
    SimilarCharSelf(StripDigits(str1));
  }

  /** Descriptions whose cleaned forms share no byte score 0. */
  lemma GetSimilarityDisjoint(str1: string, str2: string)
    requires forall i, j ::
      (0 <= i < |StripDigits(str1)| && 0 <= j < |StripDigits(str2)|) ==> StripDigits(str1)[i] != StripDigits(str2)[j]
    ensures GetSimilarity(str1, str2) == 0.0
  {
    SimilarCharDisjoint(StripDigits(str1), StripDigits(str2));
  }

  /** Only the cleaned forms matter: changing the digits of a description never changes its score. */
  lemma GetSimilarityIgnoresDigits(str1: string, str1': string, str2: string, str2': string)
    requires StripDigits(str1) == StripDigits(str1') && StripDigits(str2) == StripDigits(str2')
    ensures GetSimilarity(str1, str2) == GetSimilarity(str1', str2')
  {
  }

  /** All-digit (or empty) descriptions on both sides score 0. */
  lemma GetSimilarityAllDigits(str1: string, str2: string)
    requires forall i :: 0 <= i < |str1| ==> IsDigit(str1[i])
    requires forall i :: 0 <= i < |str2| ==> IsDigit(str2[i])
    ensures GetSimilarity(str1, str2) == 0.0
  {
    AllDigitsStripToEmpty(str1);
    AllDigitsStripToEmpty(str2);
  }

  lemma {:induction false} AllDigitsStripToEmpty(s: string)
    requires forall i :: 0 <= i < |s| ==> IsDigit(s[i])
    ensures StripDigits(s) == []
    decreases |s|
  {
    if s != [] {
      AllDigitsStripToEmpty(s[..|s| - 1]);
    }
  }

  // The scans behind SimilarityNotSymmetric, each visited position asserted from the
  // last back to the first.

  lemma ScanBCb(a: string, b: string)
    requires a == "b" && b == "cb"
    ensures FirstLongest(a, b) == Match(0, 1, 1, 1)
  {
    assert Scan(a, b, 0, 2, Match(0, 1, 1, 1)) == Match(0, 1, 1, 1);
    assert CommonRun(a, b, 0, 1) == 1;
    assert Scan(a, b, 0, 1, Match(0, 0, 0, 0)) == Match(0, 1, 1, 1);
    assert CommonRun(a, b, 0, 0) == 0;
    assert Scan(a, b, 0, 0, Match(0, 0, 0, 0)) == Match(0, 1, 1, 1);
  }

  lemma ScanAbBacb(a: string, b: string)
    requires a == "ab" && b == "bacb"
    ensures FirstLongest(a, b) == Match(0, 1, 1, 1)
  {
    assert Scan(a, b, 1, 4, Match(0, 1, 1, 1)) == Match(0, 1, 1, 1);
    assert CommonRun(a, b, 1, 3) == 1;
    assert Scan(a, b, 1, 3, Match(0, 1, 1, 1)) == Match(0, 1, 1, 1);
    assert CommonRun(a, b, 1, 2) == 0;
    assert Scan(a, b, 1, 2, Match(0, 1, 1, 1)) == Match(0, 1, 1, 1);
    assert CommonRun(a, b, 1, 1) == 0;
    assert Scan(a, b, 1, 1, Match(0, 1, 1, 1)) == Match(0, 1, 1, 1);
    assert CommonRun(a, b, 1, 0) == 1;
    assert Scan(a, b, 1, 0, Match(0, 1, 1, 1)) == Match(0, 1, 1, 1);
    assert Scan(a, b, 0, 4, Match(0, 1, 1, 1)) == Match(0, 1, 1, 1);
    assert CommonRun(a, b, 0, 3) == 0;
    assert Scan(a, b, 0, 3, Match(0, 1, 1, 1)) == Match(0, 1, 1, 1);
    assert CommonRun(a, b, 0, 2) == 0;
    assert Scan(a, b, 0, 2, Match(0, 1, 1, 1)) == Match(0, 1, 1, 1);
    assert CommonRun(a, b, 0, 1) == 1;
    assert Scan(a, b, 0, 1, Match(0, 0, 0, 0)) == Match(0, 1, 1, 1);
    assert CommonRun(a, b, 0, 0) == 0;
    assert Scan(a, b, 0, 0, Match(0, 0, 0, 0)) == Match(0, 1, 1, 1);
  }

  lemma ScanBacbAb(a: string, b: string)
    requires a == "bacb" && b == "ab"
    ensures FirstLongest(a, b) == Match(0, 1, 1, 1)
  {
    assert Scan(a, b, 3, 2, Match(0, 1, 1, 1)) == Match(0, 1, 1, 1);
    assert CommonRun(a, b, 3, 1) == 1;
    assert Scan(a, b, 3, 1, Match(0, 1, 1, 1)) == Match(0, 1, 1, 1);
    assert CommonRun(a, b, 3, 0) == 0;
    assert Scan(a, b, 3, 0, Match(0, 1, 1, 1)) == Match(0, 1, 1, 1);
    assert Scan(a, b, 2, 2, Match(0, 1, 1, 1)) == Match(0, 1, 1, 1);
    assert CommonRun(a, b, 2, 1) == 0;
    assert Scan(a, b, 2, 1, Match(0, 1, 1, 1)) == Match(0, 1, 1, 1);
    assert CommonRun(a, b, 2, 0) == 0;
    assert Scan(a, b, 2, 0, Match(0, 1, 1, 1)) == Match(0, 1, 1, 1);
    assert Scan(a, b, 1, 2, Match(0, 1, 1, 1)) == Match(0, 1, 1, 1);
    assert CommonRun(a, b, 1, 1) == 0;
    assert Scan(a, b, 1, 1, Match(0, 1, 1, 1)) == Match(0, 1, 1, 1);
    assert CommonRun(a, b, 1, 0) == 1;
    assert Scan(a, b, 1, 0, Match(0, 1, 1, 1)) == Match(0, 1, 1, 1);
    assert Scan(a, b, 0, 2, Match(0, 1, 1, 1)) == Match(0, 1, 1, 1);
    assert CommonRun(a, b, 0, 1) == 1;
    assert Scan(a, b, 0, 1, Match(0, 0, 0, 0)) == Match(0, 1, 1, 1);
    assert CommonRun(a, b, 0, 0) == 0;
    assert Scan(a, b, 0, 0, Match(0, 0, 0, 0)) == Match(0, 1, 1, 1);
  }


  /**
   * The score is not symmetric: which run is taken first depends on the scan order.
   * "ab" against "bacb" takes the "a", then the "b" after it on both sides; "bacb"
   * against "ab" takes the leading "b", and nothing of "ab" is left after its "b".
   */
  lemma SimilarityNotSymmetric(a: string, b: string)
    requires a == "ab" && b == "bacb"
    ensures GetSimilarity(a, b) == 200.0 / 3.0
    ensures GetSimilarity(b, a) == 100.0 / 3.0
  {
    ScanAbBacb(a, b);
    ScanBacbAb(b, a);
    ScanBCb(a[1..], b[2..]);
    assert SimilarChar(a[1..], b[2..]) == 1;
    assert SimilarChar(a, b) == 2;
    assert SimilarChar(b, a) == 1;
    StripDigitsKeepsDigitFree(a);
    StripDigitsKeepsDigitFree(b);
  }
}
