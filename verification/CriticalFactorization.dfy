/** The combinatorics of words behind the Two-Way search: suffix order, periods and the
    critical factorization theorem. Code units are integers, so that the model covers every
    character width; `reversed` selects the opposite alphabet order. */
module CriticalFactorization {

  predicate Lt(reversed: bool, a: int, b: int)
  {
    if reversed then b < a else a < b
  }

  /** The segment `x[a..b]` has period `p`. */
  ghost predicate PeriodOn(x: seq<int>, a: int, b: int, p: int)
    requires 0 <= a && b <= |x|
  {
    p >= 1 && forall i, j :: a <= i && j < b && j == i + p ==> x[i] == x[j]
  }

  ghost predicate HasPeriod(x: seq<int>, p: int)
  {
    PeriodOn(x, 0, |x|, p)
  }

  /** `p` is the smallest period of `x[a..b]`. */
  ghost predicate SmallestPeriodOn(x: seq<int>, a: int, b: int, p: int)
    requires 0 <= a && b <= |x|
  {
    PeriodOn(x, a, b, p) && forall q :: 1 <= q < p ==> !PeriodOn(x, a, b, q)
  }

  /** Lexicographic order on whole sequences: `s` is a prefix of `t`, or is smaller where they first differ. */
  ghost predicate LexLe(reversed: bool, s: seq<int>, t: seq<int>)
  {
    s <= t || exists l: nat :: l < |s| && l < |t| && s[..l] == t[..l] && Lt(reversed, s[l], t[l])
  }

  /** `x[m..]` is the greatest suffix of `x` in the chosen order. */
  ghost predicate IsMaximalSuffix(reversed: bool, x: seq<int>, m: nat)
  {
    m < |x| && forall a :: 0 <= a <= |x| ==> LexLe(reversed, x[a..], x[m..])
  }

  /** A square of half-length `s` is centred at `c`, as far as it fits inside `x`. */
  ghost predicate LocalPeriod(x: seq<int>, c: nat, s: nat)
  {
    s >= 1 && forall i, j :: 0 <= i && c - s <= i < c && j < |x| && j == i + s ==> x[i] == x[j]
  }

  /** Cutting `x` at `c` is critical: the local periods at `c` are exactly the periods of `x`. */
  ghost predicate IsCritical(x: seq<int>, c: nat)
  {
    forall s: nat :: LocalPeriod(x, c, s) <==> HasPeriod(x, s)
  }

  /** The suffix at `a` first differs from the suffix at `b` after `l` units, and is smaller there. */
  ghost predicate Below(reversed: bool, x: seq<int>, a: nat, b: nat, l: nat)
  {
    && a + l < |x| && b + l < |x|
    && (forall i, j :: a <= i < a + l && j == i - a + b ==> x[i] == x[j])
    && Lt(reversed, x[a + l], x[b + l])
  }

  /** The suffix at `a` is a prefix of the suffix at `b`. */
  ghost predicate PrefixOf(x: seq<int>, a: nat, b: nat)
  {
    b <= a <= |x| && forall i, j :: a <= i < |x| && j == i - a + b ==> x[i] == x[j]
  }

  ghost predicate SuffixLe(reversed: bool, x: seq<int>, a: nat, b: nat)
  {
    PrefixOf(x, a, b) || exists l: nat :: Below(reversed, x, a, b, l)
  }

  lemma SuffixLeImpliesLexLe(reversed: bool, x: seq<int>, a: nat, b: nat)
    requires a <= |x| && b <= |x| && SuffixLe(reversed, x, a, b)
    ensures LexLe(reversed, x[a..], x[b..])
  {
    var s, t := x[a..], x[b..];
    if PrefixOf(x, a, b) {
      assert s == t[..|s|];
    } else {
      var l: nat :| Below(reversed, x, a, b, l);
      assert s[l] == x[a + l] && t[l] == x[b + l];
      assert s[..l] == t[..l];
    }
  }

  lemma LexLtIsBelow(reversed: bool, x: seq<int>, a: nat, b: nat, l: nat)
    requires a + l < |x| && b + l < |x| && x[a..][..l] == x[b..][..l] && Lt(reversed, x[a + l], x[b + l])
    ensures Below(reversed, x, a, b, l)
  {
    forall i, j | a <= i < a + l && j == i - a + b ensures x[i] == x[j] {
      assert x[a..][..l][i - a] == x[b..][..l][i - a];
    }
  }

  lemma LexLeImpliesSuffixLe(reversed: bool, x: seq<int>, a: nat, b: nat)
    requires a <= |x| && b <= |x| && LexLe(reversed, x[a..], x[b..])
    ensures SuffixLe(reversed, x, a, b)
  {
    var s, t := x[a..], x[b..];
    if s <= t {
      forall i, j | a <= i < |x| && j == i - a + b ensures x[i] == x[j] {
        assert s[i - a] == t[i - a];
      }
    } else {
      var l: nat :| l < |s| && l < |t| && s[..l] == t[..l] && Lt(reversed, s[l], t[l]);
      LexLtIsBelow(reversed, x, a, b, l);
    }
  }

  lemma MaximalSuffixDominates(reversed: bool, x: seq<int>, m: nat, a: nat)
    requires IsMaximalSuffix(reversed, x, m) && a <= |x|
    ensures SuffixLe(reversed, x, a, m)
  {
    LexLeImpliesSuffixLe(reversed, x, a, m);
  }

  /** Nothing lies strictly above a maximal suffix. */
  lemma NotBelow(reversed: bool, x: seq<int>, m: nat, a: nat, l: nat)
    requires IsMaximalSuffix(reversed, x, m)
    ensures !Below(reversed, x, m, a, l)
  {
    if a <= |x| && l < |x| {
      MaximalSuffixDominates(reversed, x, m, a);
      if !PrefixOf(x, a, m) {
        var k: nat :| Below(reversed, x, a, m, k);
        assert x[a + k] != x[m + k];
        assert l < k ==> x[a + l] == x[m + l];
      }
    }
  }

  lemma BelowTransitive(reversed: bool, x: seq<int>, a: nat, b: nat, c: nat, l: nat)
    requires Below(reversed, x, a, b, l) && SuffixLe(reversed, x, b, c)
    ensures SuffixLe(reversed, x, a, c)
  {
    if PrefixOf(x, b, c) {
      assert x[b + l] == x[c + l];
      assert Below(reversed, x, a, c, l) by {
        forall i, j | a <= i < a + l && j == i - a + c ensures x[i] == x[j] {
          assert x[i] == x[i - a + b];
        }
      }
    } else {
      var k: nat :| Below(reversed, x, b, c, k);
      var m := if l < k then l else k;
      assert l < k ==> x[b + l] == x[c + l];
      assert k < l ==> x[a + k] == x[b + k];
      assert Below(reversed, x, a, c, m) by {
        forall i, j | a <= i < a + m && j == i - a + c ensures x[i] == x[j] {
          assert x[i] == x[i - a + b];
        }
      }
    }
  }

  /** No square around the start of a maximal suffix has its left half inside `x`. */
  lemma LocalPeriodExceedsLeftPart(reversed: bool, x: seq<int>, c: nat, s: nat)
    requires IsMaximalSuffix(reversed, x, c) && LocalPeriod(x, c, s)
    ensures s > c
  {
    if s <= c {
      MaximalSuffixDominates(reversed, x, c, c - s);
      var l: nat :| Below(reversed, x, c - s, c, l);
      assert l >= s;
      var k := l - s;
      assert Below(reversed, x, c, c + s, k) by {
        forall i, j | c <= i < c + k && j == i - c + (c + s) ensures x[i] == x[j] {
        }
      }
      NotBelow(reversed, x, c, c + s, k);
    }
  }

  /** A difference behind a repeated stretch, seen from the start of the stretch in the other order. */
  lemma BelowStretched(reversed: bool, x: seq<int>, c: nat, d: nat, s: nat, l: nat)
    requires d <= c && c + s <= |x| && Below(reversed, x, c + s, c, l)
    requires forall i, j :: d <= i < c && j == i + s ==> x[i] == x[j]
    ensures Below(!reversed, x, d, d + s, c - d + l)
  {
    forall i, j | d <= i < d + (c - d + l) && j == i - d + (d + s) ensures x[i] == x[j] {
      if i >= c {
        assert x[j] == x[i];
      }
    }
  }

  /** When the stretch between the two maximal-suffix starts repeats `s` further on, the suffix at
      `c + s` is bounded by the suffix at `c` in both alphabet orders, so it is a prefix of it. */
  lemma RepeatedStretchGivesPeriod(reversed: bool, x: seq<int>, c: nat, d: nat, s: nat)
    requires IsMaximalSuffix(reversed, x, c) && IsMaximalSuffix(!reversed, x, d) && d <= c
    requires s >= 1 && c + s <= |x|
    requires forall i, j :: d <= i < c && j == i + s ==> x[i] == x[j]
    ensures PeriodOn(x, c, |x|, s)
  {
    MaximalSuffixDominates(reversed, x, c, c + s);
    if !PrefixOf(x, c + s, c) {
      var l: nat :| Below(reversed, x, c + s, c, l);
      BelowStretched(reversed, x, c, d, s, l);
      NotBelow(!reversed, x, d, d + s, c - d + l);
    }
  }

  /** The critical factorization theorem, for the later of the two maximal-suffix starts. */
  lemma CriticalFactorizationTheorem(reversed: bool, x: seq<int>, c: nat, d: nat)
    requires IsMaximalSuffix(reversed, x, c) && IsMaximalSuffix(!reversed, x, d) && d <= c
    ensures IsCritical(x, c)
  {
    forall s: nat | LocalPeriod(x, c, s) ensures HasPeriod(x, s) {
      LocalPeriodExceedsLeftPart(reversed, x, c, s);
      if c + s <= |x| {
        RepeatedStretchGivesPeriod(reversed, x, c, d, s);
      }
    }
  }

  /** Equal residues are equal units inside a periodic segment. */
  lemma {:induction false} PeriodMultiple(x: seq<int>, a: nat, b: nat, p: nat, k: nat, i: nat)
    requires a <= b <= |x| && PeriodOn(x, a, b, p)
    requires a <= i && i + k * p < b
    ensures x[i] == x[i + k * p]
    decreases k
  {
    if k > 0 {
      assert k * p == (k - 1) * p + p;
      PeriodMultiple(x, a, b, p, k - 1, i);
      assert x[i + (k - 1) * p] == x[i + (k - 1) * p + p];
    }
  }

  /** Peeling one smallest period of the right part off a repetition of the stretch `x[d..c]`. */
  lemma StretchMovesDown(reversed: bool, x: seq<int>, c: nat, d: nat, p: nat, q: nat)
    requires IsMaximalSuffix(reversed, x, c) && IsMaximalSuffix(!reversed, x, d) && d <= c
    requires PeriodOn(x, c, |x|, p) && p < q && c + q <= |x|
    requires forall i, j :: d <= i < c && j == i + q ==> x[i] == x[j]
    ensures q - p >= c - d
    ensures forall i, j :: d <= i < c && j == i + (q - p) ==> x[i] == x[j]
  {
    var s := q - p;
    if s < c - d {
      assert LocalPeriod(x, c, s) by {
        forall i, j | 0 <= i && c - s <= i < c && j < |x| && j == i + s ensures x[i] == x[j] {
          assert x[i] == x[i + q];
          assert x[j] == x[j + p];
        }
      }
      LocalPeriodExceedsLeftPart(reversed, x, c, s);
    }
    forall i, j | d <= i < c && j == i + s ensures x[i] == x[j] {
      assert x[i] == x[i + q];
      assert x[j] == x[j + p];
    }
  }

  /** Every such repetition distance is a multiple of the right part's smallest period. */
  lemma {:induction false} StretchAtMultiples(reversed: bool, x: seq<int>, c: nat, d: nat, p: nat, q: nat)
    returns (k: nat)
    requires IsMaximalSuffix(reversed, x, c) && IsMaximalSuffix(!reversed, x, d) && d <= c
    requires SmallestPeriodOn(x, c, |x|, p) && q >= 1 && c + q <= |x|
    requires forall i, j :: d <= i < c && j == i + q ==> x[i] == x[j]
    ensures q == k * p
    decreases q
  {
    RepeatedStretchGivesPeriod(reversed, x, c, d, q);
    if q == p {
      k := 1;
    } else {
      StretchMovesDown(reversed, x, c, d, p, q);
      k := StretchAtMultiples(reversed, x, c, d, p, q - p);
      k := k + 1;
    }
  }

  /** A period of `x` no longer than the right part forces the right part's smallest period on all of `x`. */
  lemma ShortPeriodIsRightPeriod(reversed: bool, x: seq<int>, c: nat, d: nat, p: nat, s: nat)
    requires IsMaximalSuffix(reversed, x, c) && IsMaximalSuffix(!reversed, x, d) && d <= c
    requires SmallestPeriodOn(x, c, |x|, p)
    requires HasPeriod(x, s) && c < s && c + s <= |x|
    ensures HasPeriod(x, p)
  {
    var k := StretchAtMultiples(reversed, x, c, d, p, s);
    forall i, j | 0 <= i && j < |x| && j == i + p ensures x[i] == x[j] {
      if i < c {
        assert s == (k - 1) * p + p;
        assert x[i] == x[i + s];
        if j < c {
          assert x[j] == x[j + s];
          assert x[i + s] == x[i + s + p];
        } else {
          PeriodMultiple(x, c, |x|, p, k - 1, j);
        }
      }
    }
  }
}
