/** The probe offsets of the program, and what growth does with them: a table of up to 64 slots grows without losing
    anything, and one of any multiple of 8192 slots can lose an entry. */
module DenseMapOffsets {
  import opened DenseMapList
  import opened DenseMapChains
  import opened DenseMapReach
  import opened DenseMap
  import opened DenseMapGrowth
  import opened DenseMapLoss

  // ----- The table -----

  function Triangle(m: nat): nat
  {
    if m == 0 then 0 else Triangle(m - 1) + m
  }

  /** The offsets past the triangle number of 72: larger triangle numbers. */
  function LargeOffset(i: nat): nat
  {
    if i < 90 then
      if i == 83 then 8515 else if i == 84 then 19110 else if i == 85 then 42778 else if i == 86 then 96141
      else if i == 87 then 216153 else if i == 88 then 486591 else 1092981
    else if i < 97 then
      if i == 90 then 2458653 else if i == 91 then 5532801 else if i == 92 then 12442566
      else if i == 93 then 27993903 else if i == 94 then 62983476 else if i == 95 then 141717030 else 318844378
    else if i < 104 then
      if i == 97 then 717352503 else if i == 98 then 1614057336 else if i == 99 then 3631522476
      else if i == 100 then 8170957530 else if i == 101 then 18384510628 else if i == 102 then 41364789378
      else 93070452520
    else if i < 111 then
      if i == 104 then 209408356380 else if i == 105 then 471168559170 else if i == 106 then 1060128894105
      else if i == 107 then 2385289465695 else if i == 108 then 5366898840628 else if i == 109 then 12075518705635
      else 27169915244790
    else if i < 118 then
      if i == 111 then 61132312065111 else if i == 112 then 137547689707000 else if i == 113 then 309482283181501
      else if i == 114 then 696335127828753 else if i == 115 then 1566753995631385
      else if i == 116 then 3525196511162271 else 7931691992677701
    else if i < 125 then
      if i == 118 then 17846306936293605 else if i == 119 then 40154190677507445
      else if i == 120 then 90346928918121501 else if i == 121 then 203280589587557251
      else if i == 122 then 457381325854679626 else if i == 123 then 1029107982097042876 else 2315492959180353330
    else
      5209859154120846435
  }

  function Offset(i: nat): nat
  {
    if i < 16 then i else if i < 83 then Triangle(i - 10) else LargeOffset(i)
  }

  function ProbeOffsets(): (offsets: seq<nat>)
    ensures |offsets| == NUM_OFFSET_DISTS
  {
    seq(NUM_OFFSET_DISTS, i requires 0 <= i => Offset(i))
  }

  // ----- Small tables: the triangle numbers reach enough slots -----

  predicate IsPowerOfTwo(p: nat)
  {
    p == 1 || (p >= 2 && p % 2 == 0 && IsPowerOfTwo(p / 2))
  }

  lemma EvenFactor(x: int, y: int, w: int)
    requires x % 2 == 1 && x * y == 2 * w
    ensures y % 2 == 0 && x * (y / 2) == w
  {
    var a, b := x / 2, y / 2;
    assert x * y == (2 * a + 1) * y == 2 * (a * y) + y;
    assert x * (2 * b) == 2 * (x * b);
  }

  /** An odd factor does not help to reach a multiple of a power of two. */
  lemma {:induction false} OddFactor(x: int, y: int, p: nat, q: int) returns (r: int)
    requires IsPowerOfTwo(p) && x % 2 == 1 && x * y == p * q
    ensures y == p * r
    decreases p
  {
    if p == 1 {
      r := y;
    } else {
      var half := p / 2;
      TwiceProduct(half, q, p);
      EvenFactor(x, y, half * q);
      r := OddFactor(x, y / 2, half, q);
      TwiceProduct(half, r, p);
    }
  }

  lemma TwiceProduct(a: int, b: int, p: int)
    requires p == 2 * a
    ensures p * b == 2 * (a * b)
  {
  }

  lemma {:induction false} TriangleDouble(m: nat)
    ensures 2 * Triangle(m) == m * (m + 1)
  {
    if m > 0 {
      TriangleDouble(m - 1);
    }
  }

  lemma TriangleGap(a: nat, b: nat, d: int, e: int)
    requires d == a - b && e == a + b + 1
    ensures 2 * (Triangle(a) - Triangle(b)) == d * e
  {
    TriangleDouble(a);
    TriangleDouble(b);
    DifferenceOfProducts(a, b, d, e);
  }

  lemma DifferenceOfProducts(a: int, b: int, d: int, e: int)
    requires d == a - b && e == a + b + 1
    ensures d * e == a * (a + 1) - b * (b + 1)
  {
    assert d * e == a * e - b * e;
    assert a * e == a * (a + 1) + a * b;
    assert b * e == b * (b + 1) + a * b;
  }

  lemma EqualRemainders(x: nat, y: nat, n: nat) returns (q: int)
    requires n >= 1 && x % n == y % n
    ensures x - y == n * q
  {
    q := x / n - y / n;
    assert n * q == n * (x / n) - n * (y / n);
  }

  lemma BelowIsNoMultiple(y: nat, p: nat, r: int)
    requires 0 < y < p
    ensures y != p * r
  {
    MulAtLeast(p, r);
  }

  lemma OddTimesSmall(x: int, y: nat, p: nat, q: int)
    requires IsPowerOfTwo(p) && x % 2 == 1 && 0 < y < p
    ensures x * y != p * q
  {
    if x * y == p * q {
      var r := OddFactor(x, y, p, q);
      BelowIsNoMultiple(y, p, r);
      assert false;
    }
  }

  /** Two positive numbers below a power of two, one of them odd, do not multiply to a multiple of it. */
  lemma TwoFactors(d: nat, e: nat, p: nat, q: int)
    requires IsPowerOfTwo(p) && 0 < d < p && 0 < e < p && (d + e) % 2 == 1
    ensures d * e != p * q
  {
    if d % 2 == 1 {
      OddTimesSmall(d, e, p, q);
    } else {
      OddTimesSmall(e, d, p, q);
    }
  }

  lemma GapIsNoMultiple(a: nat, b: nat, n: nat, q: int)
    requires IsPowerOfTwo(n) && b < a < n
    ensures Triangle(a) - Triangle(b) != n * q
  {
    var d, e, p := a - b, a + b + 1, 2 * n;
    TriangleGap(a, b, d, e);
    assert p / 2 == n && IsPowerOfTwo(p);
    TwoFactors(d, e, p, q);
    TwiceProduct(n, q, p);
  }

  /** Triangle numbers below a power of two differ modulo that power. */
  lemma TrianglesDiffer(a: nat, b: nat, n: nat)
    requires IsPowerOfTwo(n) && b < a < n
    ensures Triangle(a) % n != Triangle(b) % n
  {
    if Triangle(a) % n == Triangle(b) % n {
      var q := EqualRemainders(Triangle(a), Triangle(b), n);
      GapIsNoMultiple(a, b, n, q);
      assert false;
    }
  }

  ghost function TriangleReach(n: nat, hi: nat): set<nat>
    requires n >= 1
  {
    set m | 6 <= m < hi :: Triangle(m) % n
  }

  lemma {:induction false} TriangleReachCount(n: nat, hi: nat)
    requires IsPowerOfTwo(n) && 6 <= hi <= n
    ensures |TriangleReach(n, hi)| == hi - 6
    decreases hi
  {
    if hi > 6 {
      TriangleReachCount(n, hi - 1);
      assert TriangleReach(n, hi) == TriangleReach(n, hi - 1) + {Triangle(hi - 1) % n};
      forall m | 6 <= m < hi - 1 ensures Triangle(m) % n != Triangle(hi - 1) % n {
        TrianglesDiffer(hi - 1, m, n);
      }
    } else {
      assert TriangleReach(n, hi) == {};
    }
  }

  /** The probes reach more slots of a grown table of at most 128 slots than the old one has. */
  lemma SmallTableReach(env: Env)
    requires env.n in {16, 32, 64, 128} && env.offsets == ProbeOffsets()
    ensures |Reach(env)| > env.n / 2
  {
    var hi := if env.n < 73 then env.n else 73;
    SmallPowersOfTwo();
    TriangleReachCount(env.n, hi);
    TrianglesAreReached(env, hi);
    SubsetCount(TriangleReach(env.n, hi), Reach(env));
  }

  lemma SmallPowersOfTwo()
    ensures IsPowerOfTwo(16) && IsPowerOfTwo(32) && IsPowerOfTwo(64) && IsPowerOfTwo(128)
  {
    assert IsPowerOfTwo(8);
  }

  lemma OffsetIsReached(env: Env, i: nat)
    requires env.n >= 1 && 0 < i < |env.offsets| && env.offsets[i] % env.n != 0
    ensures env.offsets[i] % env.n in Reach(env)
  {
  }

  lemma TriangleIsReached(env: Env, m: nat)
    requires IsPowerOfTwo(env.n) && 6 <= m < env.n && m < 73 && env.offsets == ProbeOffsets()
    ensures Triangle(m) % env.n in Reach(env)
  {
    TrianglesDiffer(m, 0, env.n);
    ModUnique(0, env.n, 0, 0);
    assert env.offsets[m + 10] == Offset(m + 10) == Triangle(m);
    OffsetIsReached(env, m + 10);
  }

  lemma TrianglesAreReached(env: Env, hi: nat)
    requires IsPowerOfTwo(env.n) && hi <= env.n && hi <= 73 && env.offsets == ProbeOffsets()
    ensures TriangleReach(env.n, hi) <= Reach(env)
  {
    forall t | t in TriangleReach(env.n, hi) ensures t in Reach(env) {
      var m :| 6 <= m < hi && Triangle(m) % env.n == t;
      TriangleIsReached(env, m);
    }
  }

  /** A table of at most 64 slots takes every new key, and loses nothing when it grows for it. */
  method InsertIntoSmall(m: DenseMapObj, bigger: DenseMapObj, k: Key, v: Value, assign: bool)
    returns (impl: DenseMapObj, index: int, inserted: bool)
    requires m != bigger && m.Valid() && bigger.Valid() && bigger.Entries() == []
    requires m.env.n in {8, 16, 32, 64} && bigger.env.n == 2 * m.env.n && bigger.env.offsets == ProbeOffsets()
    modifies m, bigger
    ensures impl.Valid() && IsFull(impl.slots, index) && impl.slots[index].key == k
    ensures inserted <==> !old(HasKey(m.Entries(), k))
    ensures inserted ==> impl.Entries() == old(m.Entries()) + [(k, v)]
    ensures !inserted && !assign ==> impl.Entries() == old(m.Entries())
    ensures !inserted && assign ==>
              exists i :: 0 <= i < |old(m.Entries())| && IsMovedToBack(old(m.Entries()), impl.Entries(), i, k, v)
  {
    SmallTableReach(bigger.env);
    EntriesFit(m);
    ghost var kept;
    var torn;
    impl, index, inserted, torn, kept := InsertImpl(m, bigger, k, v, assign);
  }

  // ----- Large tables: the probes do not meet -----

  ghost predicate DifferentProbes(offsets: seq<nat>, n: nat)
    requires n >= 1
  {
    forall i, j :: 0 <= i < |offsets| && 0 <= j < |offsets| && offsets[i] % n == offsets[j] % n ==> i == j
  }

  /** Offsets that are few for a table of `n` slots. */
  ghost predicate FewProbes(offsets: seq<nat>, n: nat)
  {
    && 2 <= |offsets| <= NUM_OFFSET_DISTS && |offsets| + 2 <= n * 3 / 4 && offsets[0] == 0 && offsets[1] == 1
    && DifferentProbes(offsets, n) && NoWayBack(offsets, n)
  }

  const FOLD: nat := 8192

  /** The distance to the nearest multiple of 8192. */
  function Fold(x: nat): nat
  {
    var r := x % FOLD;
    if r <= FOLD - r then r else FOLD - r
  }

  /** Which large offset has the given distance. */
  function IndexOfFold(c: nat): nat
  {
    if c < 1053 then
      if c == 29 then 109 else if c == 323 then 83 else if c == 348 then 101 else if c == 586 then 122
      else if c == 651 then 119 else if c == 684 then 99 else if c == 699 then 117 else 0
    else if c < 1839 then
      if c == 1053 then 90 else if c == 1082 then 92 else if c == 1469 then 113 else if c == 1528 then 112
      else if c == 1775 then 114 else if c == 1818 then 85 else if c == 1832 then 103 else 0
    else if c < 2841 then
      if c == 1839 then 93 else if c == 1918 then 102 else if c == 2114 then 105 else if c == 2163 then 86
      else if c == 2277 then 118 else if c == 2726 then 84 else if c == 2778 then 100 else 0
    else if c < 3201 then
      if c == 2841 then 115 else if c == 2947 then 121 else if c == 2985 then 111 else if c == 3020 then 108
      else if c == 3101 then 120 else if c == 3161 then 87 else if c == 3171 then 125 else 0
    else if c < 3622 then
      if c == 3201 then 91 else if c == 3225 then 106 else if c == 3263 then 88 else if c == 3380 then 94
      else if c == 3445 then 89 else if c == 3516 then 123 else if c == 3546 then 96 else 0
    else if c < 4068 then
      if c == 3622 then 95 else if c == 3639 then 97 else if c == 3850 then 110 else if c == 3890 then 124
      else if c == 3935 then 107 else if c == 3960 then 98 else if c == 3999 then 116 else 0
    else
      if c == 4068 then 104 else 0
  }

  /** The triangle numbers of this and the next lie around the distance of a large offset, if it is below that of 72. */
  function RootBelow(i: nat): nat
  {
    if i < 90 then
      if i == 83 then 24 else if i == 84 then 72 else if i == 85 then 59 else if i == 86 then 65
      else if i == 87 then 72 else if i == 88 then 72 else 72
    else if i < 97 then
      if i == 90 then 45 else if i == 91 then 72 else if i == 92 then 46 else if i == 93 then 60
      else if i == 94 then 72 else if i == 95 then 72 else 72
    else if i < 104 then
      if i == 97 then 72 else if i == 98 then 72 else if i == 99 then 36 else if i == 100 then 72
      else if i == 101 then 25 else if i == 102 then 61 else 60
    else if i < 111 then
      if i == 104 then 72 else if i == 105 then 64 else if i == 106 then 72 else if i == 107 then 72
      else if i == 108 then 72 else if i == 109 then 7 else 72
    else if i < 118 then
      if i == 111 then 72 else if i == 112 then 54 else if i == 113 then 53 else if i == 114 then 59
      else if i == 115 then 72 else if i == 116 then 72 else 36
    else if i < 125 then
      if i == 118 then 66 else if i == 119 then 35 else if i == 120 then 72 else if i == 121 then 72
      else if i == 122 then 33 else if i == 123 then 72 else 72
    else
      72
  }

  /** The distance of a large offset tells which one it is, and is no triangle number of 6 to 72. */
  predicate LargeIsApart(i: nat)
  {
    var c, r := Fold(LargeOffset(i)), RootBelow(i);
    IndexOfFold(c) == i && 16 <= c < FOLD / 2 && r * (r + 1) < 2 * c && (r >= 72 || 2 * c < (r + 1) * (r + 2))
  }

  predicate ApartBetween(i: nat, hi: nat)
    decreases hi - i
  {
    i >= hi || (LargeIsApart(i) && ApartBetween(i + 1, hi))
  }

  lemma {:induction false} EachIsApart(i: nat, lo: nat, hi: nat)
    requires ApartBetween(lo, hi) && lo <= i < hi
    ensures LargeIsApart(i)
    decreases i - lo
  {
    if lo < i {
      EachIsApart(i, lo + 1, hi);
    }
  }

  lemma FirstLargesApart()
    ensures ApartBetween(83, 90)
  {
  }

  lemma SecondLargesApart()
    ensures ApartBetween(90, 97)
  {
  }

  lemma ThirdLargesApart()
    ensures ApartBetween(97, 104)
  {
  }

  lemma FourthLargesApart()
    ensures ApartBetween(104, 111)
  {
  }

  lemma FifthLargesApart()
    ensures ApartBetween(111, 118)
  {
  }

  lemma SixthLargesApart()
    ensures ApartBetween(118, 122)
  {
  }

  lemma LastLargesApart()
    ensures ApartBetween(122, 126)
  {
  }

  lemma LargesAreApart(i: nat)
    requires 83 <= i < NUM_OFFSET_DISTS
    ensures LargeIsApart(i)
  {
    if i < 90 {
      FirstLargesApart();
      EachIsApart(i, 83, 90);
    } else if i < 97 {
      SecondLargesApart();
      EachIsApart(i, 90, 97);
    } else if i < 104 {
      ThirdLargesApart();
      EachIsApart(i, 97, 104);
    } else if i < 111 {
      FourthLargesApart();
      EachIsApart(i, 104, 111);
    } else if i < 118 {
      FifthLargesApart();
      EachIsApart(i, 111, 118);
    } else if i < 122 {
      SixthLargesApart();
      EachIsApart(i, 118, 122);
    } else {
      LastLargesApart();
      EachIsApart(i, 122, 126);
    }
  }

  lemma {:induction false} TriangleGrows(a: nat, b: nat)
    requires a < b
    ensures Triangle(a) < Triangle(b)
  {
    if a < b - 1 {
      TriangleGrows(a, b - 1);
    }
  }

  /** The small offsets are their own distances; those of triangle numbers up to 72 end at 2628. */
  lemma SmallFold(i: nat)
    requires i < 83
    ensures Fold(Offset(i)) == Offset(i) <= 2628 && (i >= 1 ==> Offset(i) >= 1) && (i >= 16 ==> Offset(i) >= 21)
  {
    if i >= 16 {
      TriangleDouble(i - 10);
      TriangleDouble(6);
      TriangleDouble(72);
      if i > 16 {
        TriangleGrows(6, i - 10);
      }
      if i < 82 {
        TriangleGrows(i - 10, 72);
      }
    }
  }

  lemma SmallFoldsDiffer(i: nat, j: nat)
    requires i < j < 83
    ensures Offset(i) != Offset(j)
  {
    SmallFold(j);
    if i >= 16 {
      TriangleGrows(i - 10, j - 10);
    }
  }

  lemma BetweenTriangles(c: nat, r: nat, m: nat)
    requires r * (r + 1) < 2 * c && (r >= 72 || 2 * c < (r + 1) * (r + 2)) && m <= 72
    ensures Triangle(m) != c
  {
    TriangleDouble(r);
    TriangleDouble(r + 1);
    if m < r {
      TriangleGrows(m, r);
    } else if r + 1 < m {
      TriangleGrows(r + 1, m);
    }
  }

  lemma LargeFoldIsNotSmall(i: nat, j: nat)
    requires i < 83 <= j < NUM_OFFSET_DISTS
    ensures Offset(i) != Fold(Offset(j))
  {
    LargesAreApart(j);
    if i >= 16 {
      BetweenTriangles(Fold(LargeOffset(j)), RootBelow(j), i - 10);
    }
  }

  /** No two offsets are equally far from the multiples of 8192, and none but the first is on one or halfway between. */
  lemma FoldsDiffer(i: nat, j: nat)
    requires i < NUM_OFFSET_DISTS && j < NUM_OFFSET_DISTS && Fold(Offset(i)) == Fold(Offset(j))
    ensures i == j && (i >= 1 ==> 0 < Fold(Offset(i)) < FOLD / 2)
  {
    if i < 83 {
      SmallFold(i);
    } else {
      LargesAreApart(i);
    }
    if j < 83 {
      SmallFold(j);
    } else {
      LargesAreApart(j);
    }
    if i < j < 83 {
      SmallFoldsDiffer(i, j);
    } else if j < i < 83 {
      SmallFoldsDiffer(j, i);
    } else if i < 83 <= j {
      LargeFoldIsNotSmall(i, j);
    } else if j < 83 <= i {
      LargeFoldIsNotSmall(j, i);
    }
  }

  // ----- Modulo a multiple of 8192 -----

  /** Numbers equal modulo a multiple of 8192 are equal modulo 8192. */
  lemma ModOfMultiple(x: nat, n: nat, c: nat)
    requires n == FOLD * c && c >= 1
    ensures x % n % FOLD == x % FOLD
  {
    var q, r := x / n, x % n;
    assert n * q == FOLD * (c * q);
    ModUnique(x, FOLD, c * q + r / FOLD, r % FOLD);
  }

  lemma OffsetsDiffer(n: nat, c: nat, i: nat, j: nat)
    requires n == FOLD * c && c >= 1 && i < NUM_OFFSET_DISTS && j < NUM_OFFSET_DISTS && Offset(i) % n == Offset(j) % n
    ensures i == j
  {
    ModOfMultiple(Offset(i), n, c);
    ModOfMultiple(Offset(j), n, c);
    FoldsDiffer(i, j);
  }

  lemma OffsetsDoNotCancel(n: nat, c: nat, i: nat, j: nat)
    requires n == FOLD * c && c >= 1 && 0 < i < NUM_OFFSET_DISTS && 0 < j < NUM_OFFSET_DISTS
    ensures (Offset(i) + Offset(j)) % n != 0
  {
    if (Offset(i) + Offset(j)) % n == 0 {
      ModOfMultiple(Offset(i) + Offset(j), n, c);
      SumIsMultiple(Offset(i), Offset(j));
      FoldsDiffer(i, j);
      assert false;
    }
  }

  /** Numbers whose sum is a multiple of 8192 are equally far from the multiples. */
  lemma SumIsMultiple(x: nat, y: nat)
    requires (x + y) % FOLD == 0
    ensures Fold(x) == Fold(y) && (x % FOLD + y % FOLD == FOLD || (x % FOLD == 0 && y % FOLD == 0))
  {
  }

  lemma ProgramHasFewProbes(n: nat)
    requires n >= 1 && n % FOLD == 0
    ensures FewProbes(ProbeOffsets(), n)
  {
    var offsets, c := ProbeOffsets(), n / FOLD;
    forall i, j | 0 <= i < |offsets| && 0 <= j < |offsets| && offsets[i] % n == offsets[j] % n ensures i == j {
      OffsetsDiffer(n, c, i, j);
    }
    forall i, j | 0 < i < |offsets| && 0 < j < |offsets| ensures (offsets[i] + offsets[j]) % n != 0 {
      OffsetsDoNotCancel(n, c, i, j);
    }
  }

  // ----- The run with given offsets -----

  /** Key 0 stands for the first offset, the last key for the second, of distance 1. */
  function OffsetIndex(j: nat, count: nat): (i: nat)
    requires j < count && count >= 2
    ensures i < count && (i == 0 <==> j == 0)
  {
    if j == 0 then 0 else if j + 1 < count then j + 1 else 1
  }

  lemma OffsetHasKey(i: nat, count: nat) returns (j: nat)
    requires i < count && count >= 2
    ensures j < count && OffsetIndex(j, count) == i
  {
    j := if i == 0 then 0 else if i == 1 then count - 1 else i - 1;
  }

  /** A key for every slot of the grown table that the probes from slot 0 reach, and a second one for slot 0. */
  function ClusterHomes(offsets: seq<nat>, n: nat): (homes: seq<nat>)
    requires |offsets| >= 2 && n >= 1
    ensures |homes| == |offsets| + 1
  {
    seq(|offsets|, j requires 0 <= j < |offsets| => offsets[OffsetIndex(j, |offsets|)] % (2 * n)) + [0]
  }

  lemma ModHalf(x: nat, n: nat)
    requires n >= 1
    ensures x % (2 * n) % n == x % n
  {
    var q, r := x / (2 * n), x % (2 * n);
    TwiceProduct(n, q, 2 * n);
    assert n * (2 * q + r / n) == 2 * (n * q) + n * (r / n);
    ModUnique(x, n, 2 * q + r / n, r % n);
  }

  lemma GrownOffsetsDiffer(offsets: seq<nat>, n: nat, i: nat, j: nat)
    requires n >= 1 && DifferentProbes(offsets, n) && i < |offsets| && j < |offsets| && i != j
    ensures offsets[i] % (2 * n) != offsets[j] % (2 * n)
  {
    ModHalf(offsets[i], n);
    ModHalf(offsets[j], n);
  }

  lemma OffsetsMakeCluster(offsets: seq<nat>, n: nat)
    requires FewProbes(offsets, n)
    ensures IsCluster(ClusterHomes(offsets, n), n)
  {
    var homes := ClusterHomes(offsets, n);
    ModUnique(0, 2 * n, 0, 0);
    ModUnique(1, 2 * n, 0, 1);
    assert homes[0] == 0 && homes[|homes| - 2] == 1;
    forall i, j | 0 <= i < j < |homes| - 1 ensures homes[i] != homes[j] {
      GrownOffsetsDiffer(offsets, n, OffsetIndex(i, |offsets|), OffsetIndex(j, |offsets|));
    }
  }

  lemma OffsetsLeaveRoom(offsets: seq<nat>, n: nat)
    requires FewProbes(offsets, n)
    ensures IsRoomy(ClusterHomes(offsets, n), Env(n, offsets, OldHome(ClusterHomes(offsets, n), n)))
  {
    var homes := ClusterHomes(offsets, n);
    OffsetsMakeCluster(offsets, n);
    assert offsets[0] % n == 0;
    ReachCount(Env(n, offsets, OldHome(homes, n)));
  }

  lemma OffsetsAreCovered(offsets: seq<nat>, n: nat)
    requires FewProbes(offsets, n)
    ensures var env := Env(2 * n, offsets, NewHome(ClusterHomes(offsets, n), n));
      EnvOk(env) && ProbesCovered(ClusterHomes(offsets, n), env)
  {
    var homes := ClusterHomes(offsets, n);
    var env := Env(2 * n, offsets, NewHome(homes, n));
    OffsetsMakeCluster(offsets, n);
    assert offsets[0] % n == 0;
    forall i | 0 < i < |offsets| ensures Belongs(homes, ProbeSlot(env, 0, i)) {
      var j := OffsetHasKey(i, |offsets|);
      assert homes[j] == ProbeSlot(env, 0, i);
    }
  }

  ghost function ReachBelow(offsets: seq<nat>, n: nat, c: nat): set<nat>
    requires n >= 1 && c <= |offsets|
  {
    set i | 0 < i < c :: offsets[i] % n
  }

  lemma {:induction false} ReachBelowCount(offsets: seq<nat>, n: nat, c: nat)
    requires n >= 1 && 1 <= c <= |offsets| && DifferentProbes(offsets, n)
    ensures |ReachBelow(offsets, n, c)| == c - 1
    decreases c
  {
    if c > 1 {
      ReachBelowCount(offsets, n, c - 1);
      assert ReachBelow(offsets, n, c) == ReachBelow(offsets, n, c - 1) + {offsets[c - 1] % n};
    } else {
      assert ReachBelow(offsets, n, c) == {};
    }
  }

  lemma ReachCount(env: Env)
    requires env.n >= 1 && |env.offsets| >= 1 && env.offsets[0] == 0 && DifferentProbes(env.offsets, env.n)
    ensures |Reach(env)| == |env.offsets| - 1
  {
    ReachBelowCount(env.offsets, env.n, |env.offsets|);
    assert env.offsets[0] % env.n == 0;
    assert Reach(env) == ReachBelow(env.offsets, env.n, |env.offsets|);
  }

  /** With offsets that are few for a table of `n` slots, growing that table can lose an entry: a run of insertions
      from the empty map, each of them successful, leaves the entries `before`; the last insertion grows the table,
      reports that its key is in, and leaves fewer. */
  method RunThatLoses(n: nat, offsets: seq<nat>)
    returns (m: DenseMapObj, ghost before: seq<Item>, k: Key, inserted: bool, ghost kept: seq<Item>)
    requires FewProbes(offsets, n)
    ensures m.Valid() && m.env.n == 2 * n && m.env.offsets == offsets
    ensures DistinctKeys(before) && !HasKey(before, k) && IsSubsequence(kept, before) && |kept| < |before|
    ensures inserted && m.Entries() == kept + [(k, 0)]
  {
    var homes := ClusterHomes(offsets, n);
    OffsetsMakeCluster(offsets, n);
    OffsetsLeaveRoom(offsets, n);
    OffsetsAreCovered(offsets, n);
    var small := new DenseMapObj(n, offsets, OldHome(homes, n));
    m := new DenseMapObj(2 * n, offsets, NewHome(homes, n));
    before, k, inserted, kept := GrowthLosesEntry(homes, small, m);
  }

  /** The program's own offsets, and any table of a multiple of 8192 slots. */
  method ProgramLoses(n: nat)
    returns (m: DenseMapObj, ghost before: seq<Item>, k: Key, inserted: bool, ghost kept: seq<Item>)
    requires n >= 1 && n % FOLD == 0
    ensures m.Valid() && m.env.n == 2 * n && m.env.offsets == ProbeOffsets()
    ensures DistinctKeys(before) && !HasKey(before, k) && IsSubsequence(kept, before) && |kept| < |before|
    ensures inserted && m.Entries() == kept + [(k, 0)]
  {
    ProgramHasFewProbes(n);
    m, before, k, inserted, kept := RunThatLoses(n, ProbeOffsets());
  }
}
