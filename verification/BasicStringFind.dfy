/** `BasicString::FindRange` and the searches it dispatches to: a naive scan, a hybrid scan that gives
    up after sixteen failed candidates, and the Two-Way algorithm of Crochemore and Perrin. */
module BasicStringFind {
  import opened Substring
  import opened CriticalFactorization

  // ----- Maximal suffix -----

  /** Among the starts inside `x[..j]`, the one at `i` is not above the one at `ms` so far. */
  ghost predicate LeSoFar(reversed: bool, x: seq<int>, i: nat, ms: nat, j: nat)
  {
    || (ms <= i <= j <= |x| && forall a, b :: i <= a < j && b == a - i + ms ==> x[a] == x[b])
    || exists l: nat :: i + l < j && Below(reversed, x, i, ms, l)
  }

  /** The suffix at `i` loses to some later suffix. */
  ghost predicate Beaten(reversed: bool, x: seq<int>, i: nat)
  {
    exists b: nat, l: nat :: i < b && Below(reversed, x, i, b, l)
  }

  ghost predicate ScanInvariant(reversed: bool, x: seq<int>, ms: nat, j: nat, k: nat)
  {
    && ms < j <= |x| && ms + k <= j
    && SmallestPeriodOn(x, ms, j, k)
    && (forall i: nat :: i < ms ==> Beaten(reversed, x, i))
    && (forall i: nat :: ms < i < j ==> LeSoFar(reversed, x, i, ms, j))
  }

  /** A start that still ties with `ms` sees, one unit further, at least the unit seen one period back. */
  lemma TiedStartSeesMore(reversed: bool, x: seq<int>, ms: nat, j: nat, k: nat, i: nat)
    requires ScanInvariant(reversed, x, ms, j, k) && j < |x| && ms + k <= i <= j
    requires PeriodOn(x, ms, j, i - ms)
    ensures x[j - (i - ms)] == x[j - k] || Lt(reversed, x[j - k], x[j - (i - ms)])
  {
    var q := i - ms;
    var start := ms + (q - k);
    if start > ms {
      assert LeSoFar(reversed, x, start, ms, j);
      var depth := j - q - ms;
      forall a, b | start <= a < start + depth && b == a - start + ms ensures x[a] == x[b] {
        assert x[a] == x[a + k];
        assert x[b] == x[b + q];
      }
      assert start + depth == j - k && ms + depth == j - q;
      if l: nat :| start + l < j && Below(reversed, x, start, ms, l) {
        assert l >= depth by {
          assert x[start + l] != x[ms + l];
        }
        if l > depth {
          assert x[start + depth] == x[ms + depth];
        }
      } else {
        assert x[start + depth] == x[ms + depth];
      }
    }
  }

  /** Every start stays at or below `ms` when the next unit is at most the one a period back. */
  lemma StartsStayBelow(reversed: bool, x: seq<int>, ms: nat, j: nat, k: nat, i: nat)
    requires ScanInvariant(reversed, x, ms, j, k) && j < |x| && ms < i <= j
    requires x[j] == x[j - k] || Lt(reversed, x[j], x[j - k])
    ensures LeSoFar(reversed, x, i, ms, j + 1)
    ensures Lt(reversed, x[j], x[j - k]) ==> exists l: nat :: i + l < j + 1 && Below(reversed, x, i, ms, l)
  {
    if l: nat :| i + l < j && Below(reversed, x, i, ms, l) {
      assert i + l < j + 1 && Below(reversed, x, i, ms, l);
    } else {
      assert i < j ==> LeSoFar(reversed, x, i, ms, j);
      assert forall a, b :: i <= a < j && b == a - i + ms ==> x[a] == x[b];
      assert PeriodOn(x, ms, j, i - ms);
      assert i - ms >= k;
      TiedStartSeesMore(reversed, x, ms, j, k, i);
      if x[j] != x[j - (i - ms)] {
        assert Below(reversed, x, i, ms, j - i);
      }
    }
  }

  lemma ScanMatches(reversed: bool, x: seq<int>, ms: nat, j: nat, k: nat)
    requires ScanInvariant(reversed, x, ms, j, k) && j < |x| && x[j] == x[j - k]
    ensures ScanInvariant(reversed, x, ms, j + 1, k)
  {
    var next := j + 1;
    forall i: nat | ms < i < next ensures LeSoFar(reversed, x, i, ms, next) {
      StartsStayBelow(reversed, x, ms, j, k, i);
    }
    forall q | 1 <= q < k ensures !PeriodOn(x, ms, next, q) {
      assert !PeriodOn(x, ms, j, q);
    }
  }

  lemma ScanDescends(reversed: bool, x: seq<int>, ms: nat, j: nat, k: nat)
    requires ScanInvariant(reversed, x, ms, j, k) && j < |x| && Lt(reversed, x[j], x[j - k])
    ensures ScanInvariant(reversed, x, ms, j + 1, j + 1 - ms)
  {
    var next := j + 1;
    forall i: nat | ms < i < next ensures LeSoFar(reversed, x, i, ms, next) {
      StartsStayBelow(reversed, x, ms, j, k, i);
    }
    forall q | 1 <= q < next - ms ensures !PeriodOn(x, ms, next, q) {
      var i := ms + q;
      StartsStayBelow(reversed, x, ms, j, k, i);
      var l: nat :| i + l < j + 1 && Below(reversed, x, i, ms, l);
      assert x[i + l] != x[ms + l];
    }
  }

  lemma ScanRestarts(reversed: bool, x: seq<int>, ms: nat, j: nat, k: nat)
    requires ScanInvariant(reversed, x, ms, j, k) && j < |x| && Lt(reversed, x[j - k], x[j])
    ensures ScanInvariant(reversed, x, j - k + 1, j - k + 2, 1)
  {
    forall i: nat | i < j - k + 1 ensures Beaten(reversed, x, i) {
      if i >= ms {
        assert Below(reversed, x, i, i + k, j - k - i);
      }
    }
  }

  /** Once the scan has reached the end, `ms` starts the greatest suffix. */
  lemma {:induction false} BeatenStartsAreLower(reversed: bool, x: seq<int>, ms: nat, k: nat, a: nat)
    requires ScanInvariant(reversed, x, ms, |x|, k) && a <= |x|
    ensures SuffixLe(reversed, x, a, ms)
    decreases |x| - a
  {
    if a < ms {
      assert Beaten(reversed, x, a);
      var b: nat, l: nat :| a < b && Below(reversed, x, a, b, l);
      BeatenStartsAreLower(reversed, x, ms, k, b);
      BelowTransitive(reversed, x, a, b, ms, l);
    } else if ms < a < |x| {
      assert LeSoFar(reversed, x, a, ms, |x|);
    }
  }

  lemma ScanFinishes(reversed: bool, x: seq<int>, ms: nat, k: nat)
    requires ScanInvariant(reversed, x, ms, |x|, k)
    ensures IsMaximalSuffix(reversed, x, ms)
  {
    forall a | 0 <= a <= |x| ensures LexLe(reversed, x[a..], x[ms..]) {
      BeatenStartsAreLower(reversed, x, ms, k, a);
      SuffixLeImpliesLexLe(reversed, x, a, ms);
    }
  }

  /** The greatest suffix of `needle` and that suffix's smallest period. The restart at `j - k + 1`
      moves `j` back, so the measure is the pair of distances. */
  method MaximalSuffix(needle: seq<int>, reversed: bool) returns (ms: nat, k: nat)
    ensures needle == [] ==> ms == 0 && k == 1
    ensures needle != [] ==> IsMaximalSuffix(reversed, needle, ms)
    ensures needle != [] ==> ms + k <= |needle| && SmallestPeriodOn(needle, ms, |needle|, k)
  {
    ms, k := 0, 1;
    var j: nat := 1;
    while j < |needle|
      invariant needle == [] ==> ms == 0 && k == 1
      invariant needle != [] ==> ScanInvariant(reversed, needle, ms, j, k)
      decreases |needle| - ms, |needle| - j
    {
      var cur, expected := needle[j], needle[j - k];
      if cur == expected {
        ScanMatches(reversed, needle, ms, j, k);
        j := j + 1;
      } else if Lt(reversed, expected, cur) {
        ScanRestarts(reversed, needle, ms, j, k);
        ms := j - k + 1;
        j := ms + 1;
        k := 1;
      } else {
        ScanDescends(reversed, needle, ms, j, k);
        j := j + 1;
        k := j - ms;
      }
    }
    if needle != [] {
      ScanFinishes(reversed, needle, ms, k);
    }
  }

  // ----- Critical factorization -----

  /** `c` starts the greatest suffix in one order and is not before the greatest suffix of the other. */
  ghost predicate LaterMaximalSuffix(x: seq<int>, c: nat)
  {
    exists reversed: bool, d: nat :: IsLater(reversed, x, c, d)
  }

  ghost predicate IsLater(reversed: bool, x: seq<int>, c: nat, d: nat)
  {
    IsMaximalSuffix(reversed, x, c) && IsMaximalSuffix(!reversed, x, d) && d <= c
  }

  method ComputeCriticalFactorization(needle: seq<int>) returns (criticalPos: nat, period: nat)
    requires needle != []
    ensures LaterMaximalSuffix(needle, criticalPos) && IsCritical(needle, criticalPos)
    ensures criticalPos + period <= |needle| && SmallestPeriodOn(needle, criticalPos, |needle|, period)
  {
    var fMs, fK := MaximalSuffix(needle, false);
    var rMs, rK := MaximalSuffix(needle, true);
    if fMs > rMs {
      criticalPos, period := fMs, fK;
      CriticalFactorizationTheorem(false, needle, fMs, rMs);
      assert IsLater(false, needle, fMs, rMs);
    } else {
      criticalPos, period := rMs, rK;
      CriticalFactorizationTheorem(true, needle, rMs, fMs);
      assert IsLater(true, needle, rMs, fMs);
    }
  }

  /** The left part repeats one period later. */
  predicate HasPeriodAtCriticalPosition(needle: seq<int>, period: nat, criticalPos: nat)
    requires period <= |needle|
  {
    criticalPos <= |needle| - period && needle[..criticalPos] == needle[period..period + criticalPos]
  }

  /** The test compares only the left part, yet decides whether the whole needle has the period. */
  lemma PeriodTestIsExact(x: seq<int>, c: nat, p: nat)
    requires c + p <= |x| && PeriodOn(x, c, |x|, p)
    ensures HasPeriodAtCriticalPosition(x, p, c) <==> HasPeriod(x, p)
  {
    if HasPeriodAtCriticalPosition(x, p, c) {
      forall i, j | 0 <= i && j < |x| && j == i + p ensures x[i] == x[j] {
        if i < c {
          assert x[..c][i] == x[p..p + c][i];
        }
      }
    }
    if HasPeriod(x, p) {
      assert x[..c] == x[p..p + c];
    }
  }

  // ----- Shifts never skip an occurrence -----

  /** The units `x[lo..hi]` match the text aligned at `cur`. */
  ghost predicate MatchesAt(text: seq<int>, x: seq<int>, cur: nat, lo: nat, hi: nat)
  {
    hi <= |x| && cur + hi <= |text| && forall k :: lo <= k < hi ==> text[cur + k] == x[k]
  }

  /** An occurrence `s` later makes a square at `c` once `x[c..c + l]` is matched and `s` fits in it,
      or the whole right part is matched. */
  lemma OccurrenceMakesSquare(text: seq<int>, x: seq<int>, cur: nat, c: nat, hi: nat, s: nat)
    requires c <= hi && MatchesAt(text, x, cur, c, hi)
    requires s >= 1 && Occurs(text, x, cur + s) && (c + s <= hi || hi == |x|)
    ensures LocalPeriod(x, c, s)
  {
    OccursPointwise(text, x, cur + s);
    forall i, j | 0 <= i && c - s <= i < c && j < |x| && j == i + s ensures x[i] == x[j] {
      assert text[cur + s + i] == x[i];
      assert text[cur + j] == x[j];
    }
  }

  /** An occurrence that overlaps the matched units of the right part agrees with the next unit too. */
  lemma OccurrenceExtendsMatch(text: seq<int>, x: seq<int>, cur: nat, c: nat, j: nat, s: nat)
    requires IsCritical(x, c) && c <= j < |x| && cur + |x| <= |text|
    requires MatchesAt(text, x, cur, c, j) && Occurs(text, x, cur + s) && c + s <= j
    ensures text[cur + j] == x[j]
  {
    OccursPointwise(text, x, cur + s);
    if s >= 1 {
      OccurrenceMakesSquare(text, x, cur, c, j, s);
      assert HasPeriod(x, s);
      assert x[j - s] == x[j];
    }
    assert text[cur + s + (j - s)] == x[j - s];
  }

  /** A mismatch in the right part at `j` rules out the next `j - c` alignments. */
  lemma RightMismatchSkip(text: seq<int>, x: seq<int>, cur: nat, c: nat, j: nat)
    requires IsCritical(x, c) && c <= j < |x| && cur + |x| <= |text|
    requires MatchesAt(text, x, cur, c, j) && text[cur + j] != x[j]
    ensures NoneIn(text, x, cur, cur + (j - c + 1))
  {
    forall i | cur <= i < cur + (j - c + 1) && Occurs(text, x, i) ensures false {
      OccurrenceExtendsMatch(text, x, cur, c, j, i - cur);
    }
  }

  /** When the right part is matched, a later occurrence is at least a smallest period away. */
  lemma OccurrenceIsAPeriodAway(text: seq<int>, x: seq<int>, cur: nat, c: nat, p: nat, s: nat)
    requires IsCritical(x, c) && c + p <= |x| && SmallestPeriodOn(x, c, |x|, p)
    requires MatchesAt(text, x, cur, c, |x|) && s >= 1 && Occurs(text, x, cur + s)
    ensures s >= p
  {
    OccurrenceMakesSquare(text, x, cur, c, |x|, s);
    assert HasPeriod(x, s);
    assert PeriodOn(x, c, |x|, s);
  }

  /** A mismatch in the left part rules out the next `p - 1` alignments. */
  lemma PeriodicShiftSkip(text: seq<int>, x: seq<int>, cur: nat, c: nat, p: nat)
    requires IsCritical(x, c) && c + p <= |x| && SmallestPeriodOn(x, c, |x|, p)
    requires MatchesAt(text, x, cur, c, |x|) && !Occurs(text, x, cur)
    ensures NoneIn(text, x, cur, cur + p)
  {
    forall i | cur < i < cur + p && Occurs(text, x, i) ensures false {
      OccurrenceIsAPeriodAway(text, x, cur, c, p, i - cur);
    }
  }

  /** When the right part is matched, an occurrence no further than either part is long
      gives the needle the right part's period. */
  lemma NearOccurrenceGivesPeriod(text: seq<int>, x: seq<int>, cur: nat, c: nat, p: nat, s: nat)
    requires LaterMaximalSuffix(x, c) && IsCritical(x, c) && c + p <= |x| && SmallestPeriodOn(x, c, |x|, p)
    requires MatchesAt(text, x, cur, c, |x|) && s >= 1 && Occurs(text, x, cur + s)
    requires s <= c || c + s <= |x|
    ensures HasPeriod(x, p)
  {
    var reversed: bool, d: nat :| IsLater(reversed, x, c, d);
    OccurrenceMakesSquare(text, x, cur, c, |x|, s);
    LocalPeriodExceedsLeftPart(reversed, x, c, s);
    ShortPeriodIsRightPeriod(reversed, x, c, d, p, s);
  }

  /** Without that period, a mismatch in the left part rules out as many alignments as the longer part is long. */
  lemma AperiodicShiftSkip(text: seq<int>, x: seq<int>, cur: nat, c: nat, p: nat, longer: nat)
    requires LaterMaximalSuffix(x, c) && IsCritical(x, c) && c + p <= |x| && SmallestPeriodOn(x, c, |x|, p)
    requires !HasPeriod(x, p) && (longer <= c || c + longer <= |x|)
    requires MatchesAt(text, x, cur, c, |x|) && !Occurs(text, x, cur)
    ensures NoneIn(text, x, cur, cur + longer + 1)
  {
    forall i | cur < i < cur + longer + 1 && Occurs(text, x, i) ensures false {
      NearOccurrenceGivesPeriod(text, x, cur, c, p, i - cur);
    }
  }

  /** After a shift by the period, the prefix of length `n - p` is known to match. */
  lemma ShiftByPeriodRemembers(text: seq<int>, x: seq<int>, cur: nat, c: nat, p: nat)
    requires c <= p <= |x| && HasPeriod(x, p) && MatchesAt(text, x, cur, c, |x|)
    ensures MatchesAt(text, x, cur + p, 0, |x| - p)
  {
    forall k | 0 <= k < |x| - p ensures text[cur + p + k] == x[k] {
      assert text[cur + (p + k)] == x[p + k];
    }
  }

  lemma PeriodExceedsCriticalPosition(x: seq<int>, c: nat, p: nat)
    requires LaterMaximalSuffix(x, c) && HasPeriod(x, p)
    ensures c < p
  {
    var reversed: bool, d: nat :| IsLater(reversed, x, c, d);
    LocalPeriodExceedsLeftPart(reversed, x, c, p);
  }

  lemma FullMatchOccurs(text: seq<int>, x: seq<int>, cur: nat)
    requires cur + |x| <= |text|
    ensures Occurs(text, x, cur) <==> MatchesAt(text, x, cur, 0, |x|)
  {
    OccursPointwise(text, x, cur);
  }

  // ----- The searches -----

  /** Scan of the periodic branch, with its memory of the prefix already matched. */
  method TwoWayPeriodic(haystack: seq<int>, needle: seq<int>, pos: nat, criticalPos: nat, period: nat)
    returns (r: SearchResult)
    requires |needle| >= 2 && pos < |haystack| && |needle| <= |haystack| - pos
    requires LaterMaximalSuffix(needle, criticalPos) && IsCritical(needle, criticalPos)
    requires criticalPos + period <= |needle| && SmallestPeriodOn(needle, criticalPos, |needle|, period)
    requires HasPeriod(needle, period)
    ensures IsFirst(haystack, needle, pos, r)
  {
    PeriodExceedsCriticalPosition(needle, criticalPos, period);
    var lastStart := |haystack| - |needle|;
    var memory: nat, cur := 0, pos;
    while cur <= lastStart
      invariant pos <= cur && memory < |needle|
      invariant NoneIn(haystack, needle, pos, cur)
      invariant cur <= lastStart ==> MatchesAt(haystack, needle, cur, 0, memory)
      decreases |haystack| - cur
    {
      var j: nat := if criticalPos < memory then memory else criticalPos;
      while j < |needle| && needle[j] == haystack[cur + j]
        invariant criticalPos <= j <= |needle|
        invariant MatchesAt(haystack, needle, cur, criticalPos, j)
      {
        j := j + 1;
      }
      if j < |needle| {
        RightMismatchSkip(haystack, needle, cur, criticalPos, j);
        cur := cur + (j - criticalPos + 1);
        memory := 0;
        continue;
      }
      j := criticalPos;
      while j > memory && needle[j - 1] == haystack[cur + j - 1]
        invariant 0 <= j <= criticalPos && (memory <= criticalPos ==> memory <= j)
        invariant MatchesAt(haystack, needle, cur, j, |needle|)
      {
        j := j - 1;
      }
      FullMatchOccurs(haystack, needle, cur);
      if j <= memory {
        return At(cur);
      }
      assert needle[j - 1] != haystack[cur + (j - 1)];
      PeriodicShiftSkip(haystack, needle, cur, criticalPos, period);
      ShiftByPeriodRemembers(haystack, needle, cur, criticalPos, period);
      cur := cur + period;
      memory := |needle| - period;
    }
    NothingPastTheEnd(haystack, needle, pos, cur);
    return Npos;
  }

  /** Scan of the branch where the needle does not have the right part's period. */
  method TwoWayAperiodic(haystack: seq<int>, needle: seq<int>, pos: nat, criticalPos: nat, ghost period: nat)
    returns (r: SearchResult)
    requires |needle| >= 2 && pos < |haystack| && |needle| <= |haystack| - pos
    requires LaterMaximalSuffix(needle, criticalPos) && IsCritical(needle, criticalPos)
    requires criticalPos + period <= |needle| && SmallestPeriodOn(needle, criticalPos, |needle|, period)
    requires !HasPeriod(needle, period)
    ensures IsFirst(haystack, needle, pos, r)
  {
    var lastStart := |haystack| - |needle|;
    var longer := if criticalPos < |needle| - criticalPos then |needle| - criticalPos else criticalPos;
    var shift := longer + 1;
    var cur := pos;
    while cur <= lastStart
      invariant pos <= cur && NoneIn(haystack, needle, pos, cur)
      decreases |haystack| - cur
    {
      var j := criticalPos;
      while j < |needle| && needle[j] == haystack[cur + j]
        invariant criticalPos <= j <= |needle|
        invariant MatchesAt(haystack, needle, cur, criticalPos, j)
      {
        j := j + 1;
      }
      if j < |needle| {
        RightMismatchSkip(haystack, needle, cur, criticalPos, j);
        cur := cur + (j - criticalPos + 1);
        continue;
      }
      j := criticalPos;
      while j > 0 && needle[j - 1] == haystack[cur + j - 1]
        invariant 0 <= j <= criticalPos
        invariant MatchesAt(haystack, needle, cur, j, |needle|)
      {
        j := j - 1;
      }
      FullMatchOccurs(haystack, needle, cur);
      if j == 0 {
        return At(cur);
      }
      assert needle[j - 1] != haystack[cur + (j - 1)];
      AperiodicShiftSkip(haystack, needle, cur, criticalPos, period, longer);
      cur := cur + shift;
    }
    NothingPastTheEnd(haystack, needle, pos, cur);
    return Npos;
  }

  method FindRangeTwoWay(haystack: seq<int>, needle: seq<int>, pos: nat) returns (r: SearchResult)
    requires |needle| >= 2 && pos < |haystack| && |needle| <= |haystack| - pos
    ensures IsFirst(haystack, needle, pos, r)
  {
    var criticalPos, period := ComputeCriticalFactorization(needle);
    PeriodTestIsExact(needle, criticalPos, period);
    if HasPeriodAtCriticalPosition(needle, period, criticalPos) {
      r := TwoWayPeriodic(haystack, needle, pos, criticalPos, period);
    } else {
      r := TwoWayAperiodic(haystack, needle, pos, criticalPos, period);
    }
  }

  /** `traits_type::find` over `count` units starting at `start`. */
  method FindUnit(text: seq<int>, start: nat, count: nat, unit: int) returns (r: SearchResult)
    requires start + count <= |text|
    ensures r.At? ==> start <= r.index < start + count && text[r.index] == unit
    ensures r.At? ==> forall k :: start <= k < r.index ==> text[k] != unit
    ensures r.Npos? ==> forall k :: start <= k < start + count ==> text[k] != unit
  {
    for i := start to start + count
      invariant forall k :: start <= k < i ==> text[k] != unit
    {
      if text[i] == unit {
        return At(i);
      }
    }
    return Npos;
  }

  /** Positions whose first unit differs hold no occurrence. */
  lemma FirstUnitFilter(text: seq<int>, x: seq<int>, lo: nat, hi: nat)
    requires |x| >= 1 && hi + |x| <= |text| + 1
    requires forall k :: lo <= k < hi ==> text[k] != x[0]
    ensures NoneIn(text, x, lo, hi)
  {
    forall i | lo <= i < hi ensures !Occurs(text, x, i) {
      assert text[i..i + |x|][0] == text[i];
    }
  }

  method FindRangeNaive(haystack: seq<int>, needle: seq<int>, pos: nat) returns (r: SearchResult)
    requires |needle| > 0 && pos < |haystack| && |needle| <= |haystack| - pos
    ensures IsFirst(haystack, needle, pos, r)
  {
    var lastStart := |haystack| - |needle|;
    var cur := pos;
    while cur <= lastStart
      invariant pos <= cur <= lastStart + 1 && NoneIn(haystack, needle, pos, cur)
    {
      var found := FindUnit(haystack, cur, |haystack| - cur - |needle| + 1, needle[0]);
      if found.Npos? {
        FirstUnitFilter(haystack, needle, cur, lastStart + 1);
        return Npos;
      }
      FirstUnitFilter(haystack, needle, cur, found.index);
      cur := found.index;
      if haystack[cur..cur + |needle|] == needle {
        return At(cur);
      }
      cur := cur + 1;
    }
    return Npos;
  }

  const MAX_NAIVE_CANDIDATES: nat := 16

  /** The last unit first, then the whole candidate. */
  method CandidateMatches(haystack: seq<int>, needle: seq<int>, at: nat) returns (matches: bool)
    requires |needle| >= 1 && at + |needle| <= |haystack|
    ensures matches <==> Occurs(haystack, needle, at)
  {
    var last := |needle| - 1;
    if haystack[at + last] != needle[last] {
      OccursPointwise(haystack, needle, at);
      return false;
    }
    matches := haystack[at..at + |needle|] == needle;
  }

  method FindRangeHybrid(haystack: seq<int>, needle: seq<int>, pos: nat) returns (r: SearchResult)
    requires |needle| >= 2 && pos < |haystack| && |needle| <= |haystack| - pos
    ensures IsFirst(haystack, needle, pos, r)
  {
    var lastStart := |haystack| - |needle|;
    var failedCandidates, cur := 0, pos;
    while cur <= lastStart
      invariant pos <= cur <= lastStart + 1 && NoneIn(haystack, needle, pos, cur)
    {
      var found := FindUnit(haystack, cur, |haystack| - cur - |needle| + 1, needle[0]);
      if found.Npos? {
        FirstUnitFilter(haystack, needle, cur, lastStart + 1);
        return Npos;
      }
      FirstUnitFilter(haystack, needle, cur, found.index);
      cur := found.index;
      var matches := CandidateMatches(haystack, needle, cur);
      if matches {
        return At(cur);
      }
      cur := cur + 1;
      failedCandidates := failedCandidates + 1;
      if failedCandidates == MAX_NAIVE_CANDIDATES && cur <= lastStart {
        r := FindRangeTwoWay(haystack, needle, cur);
        return;
      }
    }
    return Npos;
  }

  /** The dispatcher, for every haystack, needle and start. */
  method FindRange(haystack: seq<int>, needle: seq<int>, pos: nat) returns (r: SearchResult)
    ensures IsFirst(haystack, needle, pos, r)
  {
    if |needle| == 0 {
      return if pos <= |haystack| then At(pos) else Npos;
    }
    if pos >= |haystack| || |needle| > |haystack| - pos {
      return Npos;
    }
    if |needle| == 1 {
      r := FindUnit(haystack, pos, |haystack| - pos, needle[0]);
      FirstUnitFilter(haystack, needle, pos, if r.At? then r.index else |haystack|);
      if r.At? {
        OccursPointwise(haystack, needle, r.index);
      }
      return;
    }
    var remaining := |haystack| - pos;
    if |needle| < 8 || remaining < 128 {
      r := FindRangeNaive(haystack, needle, pos);
    } else {
      r := FindRangeHybrid(haystack, needle, pos);
    }
  }
}
