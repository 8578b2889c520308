/** Shape and stride metadata of tensors, the row-major layout, and slices that share a buffer. A failed
    fatal check ends the program; the model returns `Fatal` in its place. */
module Tensors {

  const MAX_RANK: nat := 8
  const INT64_MIN: int := -0x8000_0000_0000_0000
  const INT64_MAX: int := 0x7FFF_FFFF_FFFF_FFFF
  const UINT64_MAX: int := 0xFFFF_FFFF_FFFF_FFFF

  datatype Checked<T> = Fatal | Ok(value: T)

  predicate AreInt64(s: seq<int>) { forall i :: 0 <= i < |s| ==> INT64_MIN <= s[i] <= INT64_MAX }
  predicate NonNegative(s: seq<int>) { forall i :: 0 <= i < |s| ==> s[i] >= 0 }
  predicate Positive(s: seq<int>) { forall i :: 0 <= i < |s| ==> s[i] > 0 }

  // ----- Index arithmetic -----

  function Product(dims: seq<int>): int
  {
    if dims == [] then 1 else dims[0] * Product(dims[1..])
  }

  /** The element offset of an index under given strides. */
  function Offset(idx: seq<int>, strides: seq<int>): int
    requires |idx| == |strides|
  {
    if idx == [] then 0 else idx[0] * strides[0] + Offset(idx[1..], strides[1..])
  }

  ghost predicate IndexOf(idx: seq<int>, dims: seq<int>)
  {
    |idx| == |dims| && forall i :: 0 <= i < |dims| ==> 0 <= idx[i] < dims[i]
  }

  function RowMajor(dims: seq<int>): (r: seq<int>)
    ensures |r| == |dims|
  {
    if dims == [] then [] else [Product(dims[1..])] + RowMajor(dims[1..])
  }

  lemma {:induction false} StrideIsInnerProduct(dims: seq<int>, i: nat)
    requires i < |dims|
    ensures RowMajor(dims)[i] == Product(dims[i + 1..])
    decreases i
  {
    if i > 0 {
      StrideIsInnerProduct(dims[1..], i - 1);
      assert dims[1..][i - 1 + 1..] == dims[i + 1..];
    }
  }

  lemma {:induction false} ProductSign(dims: seq<int>)
    requires NonNegative(dims)
    ensures Product(dims) >= 0 && (Positive(dims) <==> Product(dims) > 0)
    decreases |dims|
  {
    if dims != [] {
      ProductSign(dims[1..]);
      assert Positive(dims) <==> dims[0] > 0 && Positive(dims[1..]);
      if dims[0] > 0 && Product(dims[1..]) > 0 {
        MulPositive(dims[0], Product(dims[1..]));
      }
    }
  }

  lemma MulPositive(a: int, b: int)
    requires a > 0 && b > 0
    ensures a * b >= a && a * b >= b
  {
  }

  lemma MulMonotone(a: int, b: int, c: int)
    requires 0 <= a <= b && c >= 0
    ensures 0 <= a * c <= b * c
  {
  }

  /** Row-major offsets of valid indices stay below the number of elements. */
  lemma {:induction false} RowMajorInRange(dims: seq<int>, idx: seq<int>)
    requires IndexOf(idx, dims)
    ensures 0 <= Offset(idx, RowMajor(dims)) < Product(dims)
    decreases |dims|
  {
    if dims != [] {
      RowMajorInRange(dims[1..], idx[1..]);
      assert RowMajor(dims)[1..] == RowMajor(dims[1..]);
      var p := Product(dims[1..]);
      MulMonotone(idx[0], dims[0] - 1, p);
      assert (dims[0] - 1) * p == dims[0] * p - p;
    }
  }

  /** The index at a row-major offset. */
  function Unravel(dims: seq<int>, offset: int): seq<int>
    requires Positive(dims)
  {
    if dims == [] then [] else
      ProductSign(dims[1..]);
      [offset / Product(dims[1..])] + Unravel(dims[1..], offset % Product(dims[1..]))
  }

  /** Every offset below the number of elements is the offset of its index ... */
  lemma {:induction false} OffsetOfUnravel(dims: seq<int>, offset: int)
    requires Positive(dims) && 0 <= offset < Product(dims)
    ensures IndexOf(Unravel(dims, offset), dims)
    ensures Offset(Unravel(dims, offset), RowMajor(dims)) == offset
    decreases |dims|
  {
    if dims != [] {
      ProductSign(dims[1..]);
      var p := Product(dims[1..]);
      DivBelow(offset, dims[0], p);
      OffsetOfUnravel(dims[1..], offset % p);
      var idx := Unravel(dims, offset);
      assert idx[1..] == Unravel(dims[1..], offset % p);
      assert RowMajor(dims)[1..] == RowMajor(dims[1..]);
    }
  }

  lemma DivBelow(a: int, n: int, p: int)
    requires p > 0 && 0 <= a < n * p
    ensures 0 <= a / p < n && 0 <= a % p < p && a == a / p * p + a % p
  {
    if a / p >= n {
      MulMonotone(if n >= 0 then n else 0, a / p, p);
    }
  }

  /** ... and of no other index: the row-major map is a bijection. */
  lemma {:induction false} UnravelOfOffset(dims: seq<int>, idx: seq<int>)
    requires IndexOf(idx, dims)
    ensures Positive(dims) && Unravel(dims, Offset(idx, RowMajor(dims))) == idx
    decreases |dims|
  {
    assert Positive(dims) by {
      forall i | 0 <= i < |dims|
        ensures dims[i] > 0
      {
        assert idx[i] < dims[i];
      }
    }
    if dims != [] {
      var p := Product(dims[1..]);
      var rest := Offset(idx[1..], RowMajor(dims[1..]));
      RowMajorInRange(dims[1..], idx[1..]);
      UnravelOfOffset(dims[1..], idx[1..]);
      assert RowMajor(dims)[1..] == RowMajor(dims[1..]);
      DivUnique(idx[0], p, rest);
    }
  }

  lemma DivUnique(q: int, p: int, r: int)
    requires 0 <= r < p
    ensures (q * p + r) / p == q && (q * p + r) % p == r
  {
    var x := q * p + r;
    var d := q - x / p;
    assert x == x / p * p + x % p;
    assert d * p == q * p - x / p * p;
    SmallMultiple(d, p, x % p - r);
  }

  lemma SmallMultiple(d: int, p: int, e: int)
    requires -p < e < p && d * p == e
    ensures d == 0
  {
    var a := if d < 0 then -d else d;
    assert a * p == e || a * p == -e;
    if a > 0 {
      MulMonotone(1, a, p);
    }
  }

  // ----- What the metadata queries compute -----

  /** The element count, multiplied up front to back in 64 unsigned bits. */
  predicate CountFits(dims: seq<int>)
  {
    (forall k :: 0 <= k <= |dims| ==> Product(dims[..k]) <= UINT64_MAX) && Product(dims) <= INT64_MAX
  }

  /** The product of some of the first `n` dimensions, front to back, leaves 64 unsigned bits. */
  ghost predicate CountOverflows(dims: seq<int>, n: nat)
    requires n <= |dims|
  {
    exists k :: 0 <= k <= n && Product(dims[..k]) > UINT64_MAX
  }

  lemma CountStep(dims: seq<int>, n: nat)
    requires n < |dims| && NonNegative(dims)
    ensures CountOverflows(dims, n + 1) <==> CountOverflows(dims, n) || Product(dims[..n + 1]) > UINT64_MAX
    ensures Product(dims[..n + 1]) == Product(dims[..n]) * dims[n] >= 0
  {
    ProductSnoc(dims, n);
    ProductSign(dims[..n + 1]);
  }

  /** The strides of dimensions `k` and up that matter are row-major, and so is what they lead to. */
  ghost predicate ContiguousFrom(dims: seq<int>, strides: seq<int>, k: int)
    requires |dims| == |strides| && 0 <= k <= |dims|
  {
    forall i :: k <= i < |dims| && dims[i] != 1 ==> RowMajorAt(dims, strides, i) && Product(dims[i..]) <= INT64_MAX
  }

  /** Coming from the innermost dimension, a wrong stride is met before an overflow. */
  ghost predicate WrongStrideFirst(dims: seq<int>, strides: seq<int>)
    requires |dims| == |strides|
  {
    exists i :: 0 <= i < |dims| && dims[i] != 1 && !RowMajorAt(dims, strides, i) && ContiguousFrom(dims, strides, i + 1)
  }

  /** What the contiguity test answers. */
  ghost function Contiguity(dims: seq<int>, strides: seq<int>): Checked<bool>
    requires |dims| == |strides|
  {
    if ContiguousFrom(dims, strides, 0) then Ok(true)
    else if WrongStrideFirst(dims, strides) then Ok(false)
    else Fatal
  }

  ghost predicate RowMajorAt(dims: seq<int>, strides: seq<int>, i: int)
    requires |dims| == |strides| && 0 <= i < |dims|
  {
    strides[i] == Product(dims[i + 1..])
  }

  function LastIndex(dims: seq<int>): (idx: seq<int>)
    ensures |idx| == |dims|
  {
    seq(|dims|, i requires 0 <= i < |dims| => dims[i] - 1)
  }

  /** The offset check fails on a negative stride at or before the first empty dimension, or on overflow. */
  predicate OffsetFits(dims: seq<int>, strides: seq<int>)
    requires |dims| == |strides|
  {
    && (forall i :: 0 <= i < |dims| && Positive(dims[..i]) ==> strides[i] >= 0)
    && (Positive(dims) ==> Offset(LastIndex(dims), strides) <= INT64_MAX)
  }

  function MaxOffset(dims: seq<int>, strides: seq<int>): int
    requires |dims| == |strides|
  {
    if Positive(dims) then Offset(LastIndex(dims), strides) else 0
  }

  /** The last index has the largest offset of all valid ones. */
  lemma {:induction false} LastIndexIsFarthest(dims: seq<int>, strides: seq<int>, idx: seq<int>)
    requires |dims| == |strides| && NonNegative(strides) && IndexOf(idx, dims)
    ensures 0 <= Offset(idx, strides) <= Offset(LastIndex(dims), strides)
    decreases |dims|
  {
    if dims != [] {
      LastIndexIsFarthest(dims[1..], strides[1..], idx[1..]);
      assert LastIndex(dims)[1..] == LastIndex(dims[1..]);
      MulMonotone(idx[0], dims[0] - 1, strides[0]);
    }
  }

  /** One more dimension scales the product and adds a term. */
  lemma {:induction false} ProductSnoc(dims: seq<int>, k: nat)
    requires k < |dims|
    ensures Product(dims[..k + 1]) == Product(dims[..k]) * dims[k]
    decreases k
  {
    if k > 0 {
      ProductSnoc(dims[1..], k - 1);
      assert dims[..k + 1][1..] == dims[1..][..k] && dims[..k][1..] == dims[1..][..k - 1];
      assert dims[0] * (Product(dims[1..][..k - 1]) * dims[k]) == dims[0] * Product(dims[1..][..k - 1]) * dims[k];
    }
  }

  lemma {:induction false} OffsetSnoc(idx: seq<int>, strides: seq<int>, k: nat)
    requires k < |idx| == |strides|
    ensures Offset(idx[..k + 1], strides[..k + 1]) == Offset(idx[..k], strides[..k]) + idx[k] * strides[k]
    decreases k
  {
    if k > 0 {
      OffsetSnoc(idx[1..], strides[1..], k - 1);
      assert idx[..k + 1][1..] == idx[1..][..k] && idx[..k][1..] == idx[1..][..k - 1];
      assert strides[..k + 1][1..] == strides[1..][..k] && strides[..k][1..] == strides[1..][..k - 1];
    }
  }

  lemma ProductCons(dims: seq<int>, i: nat)
    requires i < |dims|
    ensures Product(dims[i..]) == dims[i] * Product(dims[i + 1..])
  {
    assert dims[i..][1..] == dims[i + 1..];
  }

  // ----- Row-major layout and contiguity -----

  /** Row-major strides can be stored when every inner product fits; the outermost dimension takes no part. */
  ghost predicate StridesFit(dims: seq<int>)
  {
    forall k :: 1 <= k < |dims| ==> Product(dims[k..]) <= INT64_MAX
  }

  /** Each stride is the next inner one times the next inner dimension. */
  lemma StrideStep(dims: seq<int>, i: nat)
    requires 0 < i < |dims| && NonNegative(dims)
    ensures RowMajor(dims)[i - 1] == RowMajor(dims)[i] * dims[i] >= 0
    ensures RowMajor(dims)[i - 1] > INT64_MAX ==> !StridesFit(dims)
  {
    StrideIsInnerProduct(dims, i - 1);
    StrideIsInnerProduct(dims, i);
    ProductCons(dims, i);
    ProductSign(dims[i..]);
  }

  lemma RowMajorFits(dims: seq<int>)
    requires forall j :: 0 <= j < |dims| ==> 0 <= RowMajor(dims)[j] <= INT64_MAX
    ensures StridesFit(dims)
  {
    forall k | 1 <= k < |dims|
      ensures Product(dims[k..]) <= INT64_MAX
    {
      StrideIsInnerProduct(dims, k - 1);
    }
  }

  /** A fresh row-major layout passes the contiguity test exactly when its element count fits as well. */
  lemma RowMajorIsContiguous(dims: seq<int>)
    requires NonNegative(dims) && StridesFit(dims)
    ensures ContiguousFrom(dims, RowMajor(dims), 0) <==> Product(dims) <= INT64_MAX
    ensures forall i :: 0 <= i < |dims| ==> RowMajorAt(dims, RowMajor(dims), i)
  {
    assert dims[0..] == dims;
    forall i | 0 <= i < |dims|
      ensures RowMajorAt(dims, RowMajor(dims), i)
    {
      StrideIsInnerProduct(dims, i);
    }
    if dims != [] && dims[0] == 1 {
      ProductCons(dims, 0);
      if |dims| == 1 {
        assert dims[1..] == [];
      }
    }
  }

  /** A layout whose element count overflows although its strides fit: no stride is wrong, so the test neither
      holds nor fails. */
  lemma ContiguityTestMayOverflow()
    ensures var dims := [0x4000_0000_0000_0000, 4];
      && StridesFit(dims) && RowMajor(dims) == [4, 1]
      && !ContiguousFrom(dims, RowMajor(dims), 0) && !WrongStrideFirst(dims, RowMajor(dims))
  {
    var dims := [0x4000_0000_0000_0000, 4];
    assert dims[2..] == [] && dims[1..] == [4] && dims[1..][1..] == [];
    assert Product(dims[1..]) == 4 && Product(dims[2..]) == 1;
    RowMajorIsContiguous(dims);
    AllRightStrides(dims, RowMajor(dims));
  }

  function Unit(n: nat, k: nat): (idx: seq<int>)
    ensures |idx| == n
  {
    seq(n, i => if i == k then 1 else 0)
  }

  lemma {:induction false} OffsetOfUnit(strides: seq<int>, k: nat)
    ensures Offset(Unit(|strides|, k), strides) == if k < |strides| then strides[k] else 0
    decreases |strides|
  {
    if strides != [] {
      if k == 0 {
        assert Unit(|strides|, k)[1..] == Unit(|strides| - 1, |strides|);
        OffsetOfUnit(strides[1..], |strides|);
      } else {
        assert Unit(|strides|, k)[1..] == Unit(|strides| - 1, k - 1);
        OffsetOfUnit(strides[1..], k - 1);
      }
    }
  }

  /** Strides that are row-major wherever a dimension is not 1 address as the row-major ones do. */
  lemma {:induction false} MatchingStridesAddressAlike(dims: seq<int>, strides: seq<int>, idx: seq<int>)
    requires |dims| == |strides| && IndexOf(idx, dims)
    requires forall i :: 0 <= i < |dims| && dims[i] != 1 ==> RowMajorAt(dims, strides, i)
    ensures Offset(idx, strides) == Offset(idx, RowMajor(dims))
    decreases |dims|
  {
    if dims != [] {
      forall i | 0 <= i < |dims| - 1 && dims[1..][i] != 1
        ensures RowMajorAt(dims[1..], strides[1..], i)
      {
        assert RowMajorAt(dims, strides, i + 1);
        assert dims[1..][i + 1..] == dims[i + 2..];
      }
      MatchingStridesAddressAlike(dims[1..], strides[1..], idx[1..]);
      assert RowMajor(dims)[1..] == RowMajor(dims[1..]);
      if dims[0] != 1 {
        assert RowMajorAt(dims, strides, 0);
      }
    }
  }

  ghost predicate AddressesRowMajor(dims: seq<int>, strides: seq<int>)
    requires |dims| == |strides|
  {
    forall idx :: IndexOf(idx, dims) ==> Offset(idx, strides) == Offset(idx, RowMajor(dims))
  }

  /** The element one step along a dimension tells its stride. */
  lemma AddressTellsStride(dims: seq<int>, strides: seq<int>, i: nat)
    requires |dims| == |strides| && Positive(dims) && AddressesRowMajor(dims, strides) && i < |dims| && dims[i] != 1
    ensures RowMajorAt(dims, strides, i)
  {
    var e := Unit(|dims|, i);
    assert IndexOf(e, dims);
    OffsetOfUnit(strides, i);
    OffsetOfUnit(RowMajor(dims), i);
    StrideIsInnerProduct(dims, i);
  }

  /** What the contiguity test decides: for a layout without empty dimensions and a count that fits, it holds
      exactly when every element sits at its row-major offset. */
  lemma ContiguityIsRowMajorAddressing(dims: seq<int>, strides: seq<int>)
    requires |dims| == |strides| && Positive(dims) && Product(dims) <= INT64_MAX
    ensures ContiguousFrom(dims, strides, 0) <==> AddressesRowMajor(dims, strides)
  {
    if ContiguousFrom(dims, strides, 0) {
      forall idx | IndexOf(idx, dims)
        ensures Offset(idx, strides) == Offset(idx, RowMajor(dims))
      {
        MatchingStridesAddressAlike(dims, strides, idx);
      }
    }
    if AddressesRowMajor(dims, strides) {
      forall i | 0 <= i < |dims| && dims[i] != 1
        ensures RowMajorAt(dims, strides, i) && Product(dims[i..]) <= INT64_MAX
      {
        AddressTellsStride(dims, strides, i);
        SuffixProductsAreSmaller(dims, i);
      }
    }
  }

  lemma {:induction false} SuffixProductsAreSmaller(dims: seq<int>, i: nat)
    requires Positive(dims) && i <= |dims|
    ensures 0 < Product(dims[i..]) <= Product(dims)
    decreases i
  {
    if i == 0 {
      assert dims[0..] == dims;
      ProductSign(dims);
    } else {
      SuffixProductsAreSmaller(dims, i - 1);
      ProductCons(dims, i - 1);
      ProductSign(dims[i..]);
      MulPositive(dims[i - 1], Product(dims[i..]));
    }
  }

  class ShapeAndStride {
    var initialized: bool
    var size: nat
    const shape: array<int>
    const strides: array<int>

    ghost predicate Valid()
      reads this, shape, strides
    {
      && shape != strides && shape.Length == strides.Length == MAX_RANK && size <= MAX_RANK
      && (!initialized ==> size == 0)
      && NonNegative(shape[..size]) && AreInt64(shape[..size]) && AreInt64(strides[..size])
      && (forall i :: size <= i < MAX_RANK ==> shape[i] == 0 && strides[i] == 0)
    }

    ghost function Dims(): seq<int>
      reads this, shape
      requires size <= shape.Length
    {
      shape[..size]
    }

    ghost function Strides(): seq<int>
      reads this, strides
      requires size <= strides.Length
    {
      strides[..size]
    }

    constructor ()
      ensures Valid() && !initialized && fresh(shape) && fresh(strides)
    {
      shape := new int[MAX_RANK](_ => 0);
      strides := new int[MAX_RANK](_ => 0);
      initialized, size := false, 0;
    }

    /** Takes over given shape and strides; a failed check leaves the metadata alone. */
    method Set(newShape: seq<int>, newStrides: seq<int>) returns (ok: bool)
      requires Valid() && AreInt64(newShape) && AreInt64(newStrides)
      modifies this, shape, strides
      ensures ok <==> |newShape| == |newStrides| <= MAX_RANK && NonNegative(newShape)
      ensures Valid()
      ensures ok ==> initialized && Dims() == newShape && Strides() == newStrides
      ensures !ok ==> initialized == old(initialized) && Dims() == old(Dims()) && Strides() == old(Strides())
    {
      if |newShape| != |newStrides| || |newShape| > MAX_RANK {
        return false;
      }
      ok := DimsAreNonNegative(newShape);
      if ok {
        StoreShape(newShape);
        StoreStrides(newStrides);
      }
    }

    static method DimsAreNonNegative(s: seq<int>) returns (ok: bool)
      ensures ok <==> NonNegative(s)
    {
      for i := 0 to |s|
        invariant forall j :: 0 <= j < i ==> s[j] >= 0
      {
        if s[i] < 0 {
          return false;
        }
      }
      ok := true;
    }

    /** Stores a shape and zeroes the unused slots. */
    method StoreShape(newShape: seq<int>)
      requires shape != strides && shape.Length == MAX_RANK >= |newShape|
      modifies this, shape
      ensures initialized && size == |newShape| && Dims() == newShape
      ensures forall i :: size <= i < MAX_RANK ==> shape[i] == 0
    {
      size, initialized := |newShape|, true;
      for i := 0 to MAX_RANK
        invariant size == |newShape| && initialized
        invariant forall j :: 0 <= j < i ==> shape[j] == if j < |newShape| then newShape[j] else 0
      {
        shape[i] := if i < |newShape| then newShape[i] else 0;
      }
      assert shape[..size] == newShape;
    }

    method StoreStrides(newStrides: seq<int>)
      requires shape != strides && strides.Length == MAX_RANK && size == |newStrides| <= MAX_RANK
      modifies strides
      ensures Strides() == newStrides && forall i :: size <= i < MAX_RANK ==> strides[i] == 0
    {
      for i := 0 to MAX_RANK
        invariant forall j :: 0 <= j < i ==> strides[j] == if j < |newStrides| then newStrides[j] else 0
      {
        strides[i] := if i < |newStrides| then newStrides[i] else 0;
      }
      assert strides[..size] == newStrides;
    }

    /** Takes over a shape and computes row-major strides from the innermost dimension out. */
    method SetContiguous(newShape: seq<int>) returns (ok: bool)
      requires Valid() && AreInt64(newShape)
      modifies this, shape, strides
      ensures ok <==> |newShape| <= MAX_RANK && NonNegative(newShape) && StridesFit(newShape)
      ensures ok ==> Valid() && initialized && Dims() == newShape && Strides() == RowMajor(newShape)
    {
      if |newShape| > MAX_RANK {
        return false;
      }
      ok := DimsAreNonNegative(newShape);
      if ok {
        StoreShape(newShape);
        ok := FillStrides(newShape);
      }
    }

    method FillStrides(ghost dims: seq<int>) returns (ok: bool)
      requires shape != strides && shape.Length == strides.Length == MAX_RANK && size <= MAX_RANK
      requires Dims() == dims && NonNegative(dims)
      modifies strides
      ensures ok <==> StridesFit(dims)
      ensures ok ==> Strides() == RowMajor(dims) && AreInt64(RowMajor(dims))
      ensures ok ==> forall i :: size <= i < MAX_RANK ==> strides[i] == 0
    {
      ghost var rowMajor := RowMajor(dims);
      if size > 0 {
        StrideIsInnerProduct(dims, size - 1);
        strides[size - 1] := 1;
        var i := size - 1;
        while i > 0
          invariant 0 <= i < size && Dims() == dims
          invariant forall j :: i <= j < size ==> strides[j] == rowMajor[j]
          invariant forall j :: i <= j < size ==> 0 <= rowMajor[j] <= INT64_MAX
        {
          StrideStep(dims, i);
          var next := strides[i] * shape[i];
          if next > INT64_MAX {
            return false;
          }
          i := i - 1;
          strides[i] := next;
        }
      }
      RowMajorFits(dims);
      for i := size to MAX_RANK
        invariant Dims() == dims && Strides() == rowMajor
        invariant forall j :: size <= j < i ==> strides[j] == 0
      {
        strides[i] := 0;
      }
      ok := true;
    }

    /** The number of elements: 0 before initialization, and a fatal check when a running product overflows. */
    method Numel() returns (r: Checked<int>)
      requires Valid()
      ensures !initialized ==> r == Ok(0)
      ensures initialized ==> r == if CountFits(Dims()) then Ok(Product(Dims())) else Fatal
    {
      if size == 0 {
        return Ok(if initialized then 1 else 0);
      }
      ghost var dims := Dims();
      var count, overflow := 1, false;
      for i := 0 to size
        invariant !overflow ==> count == Product(dims[..i]) >= 0
        invariant overflow <==> CountOverflows(dims, i)
      {
        CountStep(dims, i);
        var product := count * shape[i];
        if product > UINT64_MAX {
          overflow := true;
        }
        count := product % (UINT64_MAX + 1);
      }
      assert dims[..size] == dims;
      overflow := overflow || count > INT64_MAX;
      r := if overflow then Fatal else Ok(count);
    }

    /** The contiguity test, innermost dimension first: the first wrong stride decides, and an overflow met
        before that is fatal. */
    method IsContiguous() returns (r: Checked<bool>)
      requires Valid()
      ensures r == if initialized then Contiguity(Dims(), Strides()) else Ok(false)
    {
      ghost var dims, strs := Dims(), Strides();
      if size == 0 {
        return Ok(initialized);
      }
      var expected, i := 1, size;
      assert dims[size..] == [];
      while i > 0
        invariant 0 <= i <= size && expected == Product(dims[i..]) && expected >= 0
        invariant ContiguousFrom(dims, strs, i)
      {
        i := i - 1;
        var next := expected * shape[i];
        ContiguityStep(dims, strs, i, expected, next);
        if shape[i] != 1 {
          if strides[i] != expected {
            return Ok(false);
          }
          if next > INT64_MAX {
            return Fatal;
          }
          expected := next;
        }
      }
      r := Ok(true);
    }

    /** The largest offset a valid index reaches, 0 for an empty tensor. */
    method MaxElementOffset() returns (r: Checked<int>)
      requires Valid()
      ensures r == if OffsetFits(Dims(), Strides()) then Ok(MaxOffset(Dims(), Strides())) else Fatal
    {
      ghost var dims, strs := Dims(), Strides();
      if size == 0 {
        assert LastIndex(dims) == [];
        return Ok(0);
      }
      for i := 0 to size
        invariant Positive(dims[..i])
        invariant forall j :: 0 <= j < i ==> strs[j] >= 0
      {
        if strides[i] < 0 {
          assert strs[i] < 0;
          return Fatal;
        }
        if shape[i] == 0 {
          EmptyDimensionStopsTheCheck(dims, strs, i);
          return Ok(0);
        }
      }
      assert dims[..size] == dims && NonNegative(strs);
      r := SumTerms();
    }

    method SumTerms() returns (r: Checked<int>)
      requires Valid() && Positive(Dims()) && NonNegative(Strides())
      ensures r == if Offset(LastIndex(Dims()), Strides()) <= INT64_MAX then Ok(Offset(LastIndex(Dims()), Strides()))
              else Fatal
    {
      ghost var dims, strs := Dims(), Strides();
      ghost var last := LastIndex(dims);
      var offset := 0;
      for i := 0 to size
        invariant offset == Offset(last[..i], strs[..i]) && 0 <= offset <= INT64_MAX
      {
        var term := (shape[i] - 1) * strides[i];
        assert term == last[i] * strs[i];
        MulMonotone(0, shape[i] - 1, strides[i]);
        OffsetSnoc(last, strs, i);
        PartialOffsetBelow(last, strs, i + 1);
        if term > INT64_MAX || offset > INT64_MAX - term {
          return Fatal;
        }
        offset := offset + term;
      }
      assert last[..size] == last && strs[..size] == strs;
      r := Ok(offset);
    }
  }

  lemma FreshLayout(dims: seq<int>)
    requires NonNegative(dims) && StridesFit(dims)
    ensures Contiguity(dims, RowMajor(dims)) == if Product(dims) <= INT64_MAX then Ok(true) else Fatal
  {
    RowMajorIsContiguous(dims);
    AllRightStrides(dims, RowMajor(dims));
  }

  /** Making a layout contiguous and testing it: whenever the shape is accepted the test holds, or fails fatally
      when the element count overflows. */
  method ContiguousThenTest(dims: seq<int>) returns (accepted: bool, r: Checked<bool>)
    requires AreInt64(dims)
    ensures accepted <==> |dims| <= MAX_RANK && NonNegative(dims) && StridesFit(dims)
    ensures accepted ==> r == if Product(dims) <= INT64_MAX then Ok(true) else Fatal
  {
    var layout := new ShapeAndStride();
    accepted := layout.SetContiguous(dims);
    r := Fatal;
    if accepted {
      FreshLayout(dims);
      r := layout.IsContiguous();
    }
  }

  lemma FirstWrongStride(dims: seq<int>, strides: seq<int>, i: nat)
    requires |dims| == |strides| && i < |dims| && dims[i] != 1 && !RowMajorAt(dims, strides, i)
             && ContiguousFrom(dims, strides, i + 1)
    ensures Contiguity(dims, strides) == Ok(false)
  {
  }

  lemma OverflowBeforeWrongStride(dims: seq<int>, strides: seq<int>, i: nat)
    requires |dims| == |strides| && i < |dims| && dims[i] != 1 && Product(dims[i..]) > INT64_MAX
    requires RowMajorAt(dims, strides, i) && ContiguousFrom(dims, strides, i + 1)
    ensures Contiguity(dims, strides) == Fatal
  {
    forall k | 0 <= k <= i
      ensures !ContiguousFrom(dims, strides, k)
    {
    }
  }

  /** One dimension of the contiguity test. */
  lemma ContiguityStep(dims: seq<int>, strides: seq<int>, i: nat, expected: int, next: int)
    requires |dims| == |strides| && i < |dims| && NonNegative(dims) && ContiguousFrom(dims, strides, i + 1)
    requires expected == Product(dims[i + 1..]) && next == expected * dims[i]
    ensures next == Product(dims[i..]) >= 0 && (dims[i] == 1 ==> next == expected && ContiguousFrom(dims, strides, i))
    ensures dims[i] != 1 && strides[i] != expected ==> Contiguity(dims, strides) == Ok(false)
    ensures dims[i] != 1 && strides[i] == expected ==>
              if next > INT64_MAX then Contiguity(dims, strides) == Fatal else ContiguousFrom(dims, strides, i)
  {
    ProductCons(dims, i);
    ProductSign(dims[i..]);
    if dims[i] != 1 && !RowMajorAt(dims, strides, i) {
      FirstWrongStride(dims, strides, i);
    } else if dims[i] != 1 && next > INT64_MAX {
      OverflowBeforeWrongStride(dims, strides, i);
    }
  }

  lemma AllRightStrides(dims: seq<int>, strides: seq<int>)
    requires |dims| == |strides| && forall i :: 0 <= i < |dims| && dims[i] != 1 ==> RowMajorAt(dims, strides, i)
    ensures !WrongStrideFirst(dims, strides)
  {
  }

  lemma EmptyDimensionStopsTheCheck(dims: seq<int>, strides: seq<int>, i: nat)
    requires |dims| == |strides| && i < |dims| && dims[i] == 0
    requires forall j :: 0 <= j <= i ==> strides[j] >= 0
    ensures OffsetFits(dims, strides) && MaxOffset(dims, strides) == 0
  {
    forall j | i < j <= |dims|
      ensures !Positive(dims[..j])
    {
      assert dims[..j][i] == 0;
    }
  }

  lemma {:induction false} PartialOffsetBelow(idx: seq<int>, strides: seq<int>, k: nat)
    requires |idx| == |strides| && k <= |idx| && NonNegative(idx) && NonNegative(strides)
    ensures 0 <= Offset(idx[..k], strides[..k]) <= Offset(idx, strides)
    decreases |idx|
  {
    if k == 0 {
      OffsetNonNegative(idx, strides);
    } else {
      PartialOffsetBelow(idx[1..], strides[1..], k - 1);
      assert idx[..k][1..] == idx[1..][..k - 1] && strides[..k][1..] == strides[1..][..k - 1];
      MulMonotone(0, idx[0], strides[0]);
    }
  }

  lemma {:induction false} OffsetNonNegative(idx: seq<int>, strides: seq<int>)
    requires |idx| == |strides| && NonNegative(idx) && NonNegative(strides)
    ensures Offset(idx, strides) >= 0
    decreases |idx|
  {
    if idx != [] {
      OffsetNonNegative(idx[1..], strides[1..]);
      MulMonotone(0, idx[0], strides[0]);
    }
  }

  // ----- Tensors -----

  /** A tensor over a buffer of `bufferBytes` bytes, starting `byteOffset` bytes into it. */
  datatype Tensor = Uninitialized
      | Tensor(bufferBytes: nat, byteOffset: nat, itemsize: nat, dims: seq<int>, strides: seq<int>)

  /** The bytes from the first element to the end of the farthest one. */
  function MaxTouchedSpanBytes(t: Tensor): Checked<nat>
    requires t.Tensor? ==> |t.dims| == |t.strides| && NonNegative(t.dims) && NonNegative(t.strides)
  {
    if t.Uninitialized? || !Positive(t.dims) then Ok(0)
    else
      OffsetNonNegative(LastIndex(t.dims), t.strides);
      var touched := MaxOffset(t.dims, t.strides) + 1;
      if touched * t.itemsize > UINT64_MAX then Fatal else Ok(touched * t.itemsize)
  }

  function StorageRangeIsValid(t: Tensor): Checked<bool>
    requires t.Tensor? ==> |t.dims| == |t.strides| && NonNegative(t.dims) && NonNegative(t.strides)
  {
    if t.Uninitialized? || t.byteOffset > t.bufferBytes then Ok(false)
    else
      match MaxTouchedSpanBytes(t)
      case Fatal => Fatal
      case Ok(span) =>
        if span == 0 then Ok(true)
        else if t.byteOffset + span > UINT64_MAX then Ok(false)
        else Ok(t.byteOffset + span <= t.bufferBytes)
  }

  /** What the constructor checks of every tensor. */
  predicate Validated(t: Tensor)
  {
    && t.Tensor? && t.bufferBytes <= UINT64_MAX && t.byteOffset <= t.bufferBytes && t.itemsize > 0
    && |t.dims| == |t.strides| <= MAX_RANK && NonNegative(t.dims) && NonNegative(t.strides)
    && AreInt64(t.dims) && AreInt64(t.strides)
    && CountFits(t.dims) && OffsetFits(t.dims, t.strides)
    && StorageRangeIsValid(t) == Ok(true)
  }

  /** The byte address, inside the buffer, of an element. */
  ghost function Address(t: Tensor, idx: seq<int>): int
    requires t.Tensor? && |idx| == |t.strides|
  {
    t.byteOffset + Offset(idx, t.strides) * t.itemsize
  }

  /** Every element of a validated tensor lies inside the buffer. */
  lemma ElementsInsideBuffer(t: Tensor, idx: seq<int>)
    requires Validated(t) && IndexOf(idx, t.dims)
    ensures 0 <= Address(t, idx) && Address(t, idx) + t.itemsize <= t.bufferBytes
  {
    UnravelOfOffset(t.dims, idx);
    LastIndexIsFarthest(t.dims, t.strides, idx);
    var o, m := Offset(idx, t.strides), MaxOffset(t.dims, t.strides);
    MulMonotone(o, m, t.itemsize);
    assert (m + 1) * t.itemsize == m * t.itemsize + t.itemsize;
    MulPositive(m + 1, t.itemsize);
  }

  // ----- Slices -----

  function NormalizeBound(idx: int, dimSize: nat): (r: nat)
    ensures r <= dimSize
    ensures 0 <= idx <= dimSize ==> r == idx
    ensures idx + dimSize < 0 ==> r == 0
    ensures idx > dimSize ==> r == dimSize
    ensures 0 <= idx + dimSize && idx < 0 ==> r == idx + dimSize
  {
    var v := if idx < 0 then idx + dimSize else idx;
    if v < 0 then 0 else if v > dimSize then dimSize else v
  }

  /** How many of `begin, begin + step, ...` come before `finish`. */
  function SliceCount(begin: int, finish: int, step: int): (n: int)
    requires step > 0
  {
    if finish <= begin then 0 else (finish - begin + step - 1) / step
  }

  lemma SliceCountIsExact(begin: int, finish: int, step: int, i: nat)
    requires step > 0
    ensures SliceCount(begin, finish, step) >= 0
    ensures i < SliceCount(begin, finish, step) <==> begin + i * step < finish
  {
    if finish > begin {
      var e := finish - begin + step - 1;
      var n := e / step;
      assert e == n * step + e % step && 0 <= e % step < step;
      if i < n {
        MulMonotone(i + 1, n, step);
        assert (i + 1) * step == i * step + step;
      } else {
        MulMonotone(n, i, step);
      }
    } else {
      MulMonotone(0, i, step);
    }
  }

  /** An index into a slice, as an index into what was sliced. */
  ghost function SourceIndex(idx: seq<int>, d: nat, begin: int, step: int): seq<int>
    requires d < |idx|
  {
    idx[d := begin + idx[d] * step]
  }

  /** Stepping the stride and moving the base address the elements of the slice as those of the source. */
  lemma {:induction false} SteppedOffset(idx: seq<int>, strides: seq<int>, d: nat, begin: int, step: int)
    requires d < |idx| == |strides|
    ensures Offset(SourceIndex(idx, d, begin, step), strides) == Offset(idx, strides[d := strides[d] * step])
            + begin * strides[d]
    decreases d
  {
    var source, stepped := SourceIndex(idx, d, begin, step), strides[d := strides[d] * step];
    if d == 0 {
      assert source[1..] == idx[1..] && stepped[1..] == strides[1..];
      assert (begin + idx[0] * step) * strides[0] == begin * strides[0] + idx[0] * (strides[0] * step);
    } else {
      SteppedOffset(idx[1..], strides[1..], d - 1, begin, step);
      assert source[1..] == SourceIndex(idx[1..], d - 1, begin, step);
      assert stepped[1..] == strides[1..][d - 1 := strides[1..][d - 1] * step];
    }
  }

  function NormalizedDim(dim: int, rank: nat): int { if dim < 0 then dim + rank else dim }

  function SliceBegin(t: Tensor, d: nat, start: int): nat
    requires t.Tensor? && d < |t.dims| && NonNegative(t.dims)
  {
    NormalizeBound(start, t.dims[d])
  }

  function SliceFinish(t: Tensor, d: nat, start: int, end: int): nat
    requires t.Tensor? && d < |t.dims| && NonNegative(t.dims)
  {
    var begin, finish := SliceBegin(t, d, start), NormalizeBound(end, t.dims[d]);
    if finish < begin then begin else finish
  }

  /** `out` shares `t`'s buffer and holds, along dimension `d`, exactly the elements `begin, begin + step, ...`
      before `finish`, each at the address it has in `t`. */
  ghost predicate IsSlice(out: Tensor, t: Tensor, d: nat, begin: int, finish: int, step: int)
    requires t.Tensor? && |t.dims| == |t.strides| && d < |t.dims| && step > 0
  {
    && out.Tensor? && out.bufferBytes == t.bufferBytes && out.itemsize == t.itemsize
    && out.dims == t.dims[d := SliceCount(begin, finish, step)] && |out.strides| == |t.strides|
    && forall idx :: IndexOf(idx, out.dims) ==>
         IndexOf(SourceIndex(idx, d, begin, step), t.dims)
             && Address(out, idx) == Address(t, SourceIndex(idx, d, begin, step))
  }

  /** No element that the bounds select is missing from a slice. */
  lemma SliceMissesNothing(out: Tensor, t: Tensor, d: nat, begin: int, finish: int, step: int, idx: seq<int>)
    requires t.Tensor? && |t.dims| == |t.strides| && d < |t.dims| && step > 0 && IsSlice(out, t, d, begin, finish, step)
    requires IndexOf(idx, t.dims) && begin <= idx[d] < finish && (idx[d] - begin) % step == 0
    ensures var at := idx[d := (idx[d] - begin) / step];
      IndexOf(at, out.dims) && SourceIndex(at, d, begin, step) == idx && Address(out, at) == Address(t, idx)
  {
    var i := (idx[d] - begin) / step;
    assert idx[d] == begin + i * step;
    assert i >= 0;
    SliceCountIsExact(begin, finish, step, i);
    var at := idx[d := i];
    assert SourceIndex(at, d, begin, step) == idx;
  }

  /** The fatal checks a slice can run into. The last one comes from validating the result: an empty slice keeps
      no element inside the buffer, so its offset has to be checked by itself. */
  ghost predicate SliceFails(t: Tensor, dim: int, start: int, end: int, step: int)
    requires t.Tensor? ==> Validated(t)
  {
    t.Uninitialized? || step <= 0 || !(0 <= NormalizedDim(dim, |t.dims|) < |t.dims|) ||
    var d := NormalizedDim(dim, |t.dims|);
    var begin, finish, stride := SliceBegin(t, d, start), SliceFinish(t, d, start, end), t.strides[d];
    var delta := begin * stride;
    || StepOverflows(t, d, begin, finish, step)
    || delta > INT64_MAX || delta * t.itemsize > UINT64_MAX || t.byteOffset + delta * t.itemsize > UINT64_MAX
    || (!Positive(t.dims[d := SliceCount(begin, finish, step)]) && t.byteOffset + delta * t.itemsize > t.bufferBytes)
  }

  ghost predicate StepOverflows(t: Tensor, d: nat, begin: int, finish: int, step: int)
    requires t.Tensor? && d < |t.dims| == |t.strides|
  {
    (finish > begin && finish - begin + step - 1 > INT64_MAX) || t.strides[d] * step > INT64_MAX
  }

  function SliceTensor(t: Tensor, d: nat, begin: nat, finish: int, step: int): Tensor
    requires t.Tensor? && |t.dims| == |t.strides| && d < |t.dims| && step > 0 && t.strides[d] >= 0
  {
    MulMonotone(0, begin, t.strides[d]);
    MulMonotone(0, begin * t.strides[d], t.itemsize);
    t.(byteOffset := t.byteOffset + begin * t.strides[d] * t.itemsize,
       dims := t.dims[d := SliceCount(begin, finish, step)],
       strides := t.strides[d := t.strides[d] * step])
  }

  lemma SliceIndexInRange(t: Tensor, d: nat, begin: nat, finish: int, step: int, idx: seq<int>)
    requires t.Tensor? && d < |t.dims| == |t.strides| && step > 0 && begin <= finish <= t.dims[d]
    requires IndexOf(idx, t.dims[d := SliceCount(begin, finish, step)])
    ensures IndexOf(SourceIndex(idx, d, begin, step), t.dims)
  {
    var dims := t.dims[d := SliceCount(begin, finish, step)];
    SliceCountIsExact(begin, finish, step, idx[d]);
    MulMonotone(0, idx[d], step);
    forall i | 0 <= i < |t.dims|
      ensures 0 <= SourceIndex(idx, d, begin, step)[i] < t.dims[i]
    {
      assert 0 <= idx[i] < dims[i];
    }
  }

  /** The slice's elements are the source's, at the same addresses. */
  lemma SliceSharesElements(t: Tensor, d: nat, begin: nat, finish: int, step: int)
    requires t.Tensor? && d < |t.dims| == |t.strides| && step > 0 && begin <= finish <= t.dims[d] && t.strides[d] >= 0
    ensures IsSlice(SliceTensor(t, d, begin, finish, step), t, d, begin, finish, step)
  {
    var out := SliceTensor(t, d, begin, finish, step);
    forall idx | IndexOf(idx, out.dims)
      ensures IndexOf(SourceIndex(idx, d, begin, step), t.dims)
      ensures Address(out, idx) == Address(t, SourceIndex(idx, d, begin, step))
    {
      SliceIndexInRange(t, d, begin, finish, step, idx);
      SteppedOffset(idx, t.strides, d, begin, step);
      Distribute(Offset(idx, out.strides), begin * t.strides[d], t.itemsize);
    }
  }

  lemma Distribute(a: int, b: int, c: int)
    ensures (a + b) * c == a * c + b * c
  {
  }

  /** The farthest element of a slice is an element of the source. */
  lemma SliceReach(t: Tensor, d: nat, begin: nat, finish: int, step: int)
    requires Validated(t) && d < |t.dims| && step > 0 && begin <= finish <= t.dims[d]
    requires Positive(t.dims[d := SliceCount(begin, finish, step)])
    ensures var out := SliceTensor(t, d, begin, finish, step);
      MaxOffset(out.dims, out.strides) + begin * t.strides[d] <= MaxOffset(t.dims, t.strides)
    ensures Positive(t.dims)
  {
    var out := SliceTensor(t, d, begin, finish, step);
    var last := LastIndex(out.dims);
    SliceIndexInRange(t, d, begin, finish, step, last);
    var source := SourceIndex(last, d, begin, step);
    UnravelOfOffset(t.dims, source);
    SteppedOffset(last, t.strides, d, begin, step);
    LastIndexIsFarthest(t.dims, t.strides, source);
  }

  lemma {:induction false} SmallerDimsSmallerProduct(small: seq<int>, large: seq<int>)
    requires |small| == |large| && forall i :: 0 <= i < |small| ==> 0 <= small[i] <= large[i]
    ensures 0 <= Product(small) <= Product(large)
    decreases |small|
  {
    if small != [] {
      SmallerDimsSmallerProduct(small[1..], large[1..]);
      var p, q := Product(small[1..]), Product(large[1..]);
      MulMonotone(small[0], large[0], p);
      MulMonotone(p, q, large[0]);
    }
  }

  lemma SliceCountFits(t: Tensor, d: nat, n: int)
    requires Validated(t) && d < |t.dims| && 0 <= n <= t.dims[d]
    ensures CountFits(t.dims[d := n])
  {
    var dims := t.dims[d := n];
    forall k | 0 <= k <= |dims|
      ensures Product(dims[..k]) <= UINT64_MAX
    {
      SmallerDimsSmallerProduct(dims[..k], t.dims[..k]);
    }
    SmallerDimsSmallerProduct(dims, t.dims);
  }

  lemma SliceCountBelow(begin: int, finish: int, step: int)
    requires step > 0 && begin <= finish
    ensures 0 <= SliceCount(begin, finish, step) <= finish - begin
  {
    var n := finish - begin;
    SliceCountIsExact(begin, finish, step, n);
    MulMonotone(1, step, n);
    assert 1 * n == n && step * n == n * step;
  }

  /** A slice with elements passes validation whatever the bounds, and computing its offset cannot overflow. */
  lemma SliceWithElementsIsValid(t: Tensor, d: nat, begin: nat, finish: int, step: int)
    requires Validated(t) && d < |t.dims| && step > 0 && begin <= finish <= t.dims[d]
    requires Positive(t.dims[d := SliceCount(begin, finish, step)]) && t.strides[d] * step <= INT64_MAX
    ensures begin * t.strides[d] <= INT64_MAX
    ensures t.byteOffset + begin * t.strides[d] * t.itemsize <= t.bufferBytes
    ensures Validated(SliceTensor(t, d, begin, finish, step))
  {
    var out := SliceTensor(t, d, begin, finish, step);
    var delta, reach, m := begin * t.strides[d], MaxOffset(out.dims, out.strides), MaxOffset(t.dims, t.strides);
    SliceReach(t, d, begin, finish, step);
    SliceCountBelow(begin, finish, step);
    SliceCountFits(t, d, out.dims[d]);
    MulMonotone(0, begin, t.strides[d]);
    MulMonotone(0, t.strides[d], step);
    OffsetNonNegative(LastIndex(out.dims), out.strides);
    MulMonotone(delta + (reach + 1), m + 1, t.itemsize);
    Distribute(delta, reach + 1, t.itemsize);
    MulMonotone(0, delta, t.itemsize);
    MulPositive(reach + 1, t.itemsize);
    MulPositive(m + 1, t.itemsize);
  }

  /** A slice without elements passes validation exactly when its offset is still inside the buffer. */
  lemma EmptySliceIsValid(t: Tensor, d: nat, begin: nat, finish: int, step: int)
    requires Validated(t) && d < |t.dims| && step > 0 && begin <= finish <= t.dims[d]
    requires !Positive(t.dims[d := SliceCount(begin, finish, step)]) && t.strides[d] * step <= INT64_MAX
    ensures Validated(SliceTensor(t, d, begin, finish, step)) <==>
              t.byteOffset + begin * t.strides[d] * t.itemsize <= t.bufferBytes
  {
    var out := SliceTensor(t, d, begin, finish, step);
    SliceCountBelow(begin, finish, step);
    SliceCountFits(t, d, out.dims[d]);
    MulMonotone(0, t.strides[d], step);
  }

  /** For a slice that keeps at least one element only the step can make a check fail. */
  lemma SliceWithElementsFailsOnStepOnly(t: Tensor, d: nat, start: int, end: int, step: int)
    requires Validated(t) && d < |t.dims| && step > 0
    requires Positive(t.dims[d := SliceCount(SliceBegin(t, d, start), SliceFinish(t, d, start, end), step)])
    ensures SliceFails(t, d, start, end, step) <==>
            StepOverflows(t, d, SliceBegin(t, d, start), SliceFinish(t, d, start, end), step)
  {
    var begin, finish := SliceBegin(t, d, start), SliceFinish(t, d, start, end);
    MulMonotone(0, begin, t.strides[d]);
    MulMonotone(0, begin * t.strides[d], t.itemsize);
    if t.strides[d] * step <= INT64_MAX {
      SliceWithElementsIsValid(t, d, begin, finish, step);
    }
  }

  /** An empty slice at the end of a widely strided tensor starts outside the buffer and is refused. */
  lemma EmptySliceMayBeRefused()
    ensures var t := Tensor(11, 0, 1, [2], [10]);
      Validated(t) && SliceFails(t, 0, 2, 2, 1) && !SliceFails(t, 0, 1, 1, 1)
  {
    var t := Tensor(11, 0, 1, [2], [10]);
    assert LastIndex(t.dims) == [1] && [1][1..] == [] && t.strides[1..] == [];
    assert Offset([1], [10]) == 10 + Offset([1][1..], [10][1..]);
    assert t.dims[1..] == [] && Product(t.dims) == 2;
    assert t.dims[..0] == [] && t.dims[..1] == t.dims;
    var empty := t.dims[0 := SliceCount(2, 2, 1)];
    assert empty[0] == 0 && !Positive(empty);
  }

  /** The slice along one dimension, negative dimension and bounds counting from the end. */
  method Slice(t: Tensor, dim: int, start: int, end: int, step: int) returns (r: Checked<Tensor>)
    requires t.Tensor? ==> Validated(t)
    ensures r.Fatal? <==> SliceFails(t, dim, start, end, step)
    ensures r.Ok? ==> Validated(r.value)
    ensures r.Ok? ==> var d := NormalizedDim(dim, |t.dims|);
              IsSlice(r.value, t, d, SliceBegin(t, d, start), SliceFinish(t, d, start, end), step)
  {
    if t.Uninitialized? || step <= 0 {
      return Fatal;
    }
    var rank := |t.dims|;
    var d := if dim < 0 then dim + rank else dim;
    if rank < 1 || !(0 <= d < rank) {
      return Fatal;
    }
    var begin := NormalizeBound(start, t.dims[d]);
    var finish := NormalizeBound(end, t.dims[d]);
    if finish < begin {
      finish := begin;
    }
    var count := 0;
    if finish - begin > 0 {
      if finish - begin + (step - 1) > INT64_MAX {
        return Fatal;
      }
      count := (finish - begin + (step - 1)) / step;
    }
    if t.strides[d] * step > INT64_MAX {
      return Fatal;
    }
    MulMonotone(0, t.strides[d], step);
    var delta := begin * t.strides[d];
    MulMonotone(0, begin, t.strides[d]);
    if delta > INT64_MAX || delta * t.itemsize > UINT64_MAX || t.byteOffset + delta * t.itemsize > UINT64_MAX {
      return Fatal;
    }
    MulMonotone(0, delta, t.itemsize);
    var outShape, outStrides := CopyLayout(t.dims, t.strides, d, count, t.strides[d] * step);
    var out := t.(byteOffset := t.byteOffset + delta * t.itemsize, dims := outShape, strides := outStrides);
    assert out == SliceTensor(t, d, begin, finish, step);
    SliceSharesElements(t, d, begin, finish, step);
    if Positive(out.dims) {
      SliceWithElementsIsValid(t, d, begin, finish, step);
    } else {
      EmptySliceIsValid(t, d, begin, finish, step);
    }
    r := if Validated(out) then Ok(out) else Fatal;
  }

  /** Copies shape and strides, one dimension replaced. */
  method CopyLayout(dims: seq<int>, strides: seq<int>, d: nat, n: int, stride: int)
    returns (outShape: seq<int>, outStrides: seq<int>)
    requires d < |dims| == |strides|
    ensures outShape == dims[d := n] && outStrides == strides[d := stride]
  {
    outShape, outStrides := [], [];
    for i := 0 to |dims|
      invariant outShape == dims[..i] && outStrides == strides[..i]
    {
      outShape, outStrides := outShape + [dims[i]], outStrides + [strides[i]];
    }
    outShape, outStrides := outShape[d := n], outStrides[d := stride];
  }
}
