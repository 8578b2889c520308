/** A span cut into objects of one size, with a bitmap of free objects at its start. A 64-bit word is
    modelled by the set of its set bits. */
module SpanBitmap {

  const PAGE_SIZE: nat := 4096
  const WORD_BITS: nat := 64
  const ALIGNMENT: nat := 16

  // ----- Layout -----

  function MaxObjects(total: nat, size: nat): nat
    requires size > 0
  {
    var bits, unit := total * 8, size * 8 + 1;
    QuotientIsNat(bits, unit);
    bits / unit
  }

  lemma QuotientIsNat(a: nat, d: nat)
    requires d > 0
    ensures a / d >= 0
  {
    var q := a / d;
    assert a == d * q + a % d;
    assert d * (q + 1) > 0;
  }

  function BitmapWords(total: nat, size: nat): nat
    requires size > 0
  {
    (MaxObjects(total, size) + WORD_BITS - 1) / WORD_BITS
  }

  /** Where the objects start: after the bitmap, rounded up to the alignment. */
  function DataOffset(total: nat, size: nat): nat
    requires size > 0
  {
    (BitmapWords(total, size) * 8 + ALIGNMENT - 1) / ALIGNMENT * ALIGNMENT
  }

  function Capacity(total: nat, size: nat): nat
    requires size > 0
  {
    if DataOffset(total, size) >= total then 0 else (total - DataOffset(total, size)) / size
  }

  /** The one shape whose capacity outgrows its own bitmap: an even number of words, and a total of
      exactly that many full words of objects, the words themselves and one more object. */
  predicate Overflows(total: nat, size: nat)
    requires size > 0
  {
    var b := BitmapWords(total, size);
    b % 2 == 0 && total == WORD_BITS * b * size + 8 * b + size
  }

  lemma CeilDiv(m: nat, b: nat)
    requires b == (m + WORD_BITS - 1) / WORD_BITS
    ensures m <= WORD_BITS * b
  {
  }

  lemma DivLe(a: nat, d: nat, q: nat)
    requires d > 0
    ensures a / d > q <==> a >= (q + 1) * d
  {
    assert a == a / d * d + a % d;
    if a / d > q {
      assert a / d * d >= (q + 1) * d;
    }
    if a / d <= q {
      assert a / d * d <= q * d;
    }
  }

  /** The bitmap words never exceed the estimate, which bounds the total. */
  lemma TotalBound(total: nat, size: nat)
    requires size > 0
    ensures total <= WORD_BITS * BitmapWords(total, size) * size + 8 * BitmapWords(total, size) + size
  {
    var m, b := MaxObjects(total, size), BitmapWords(total, size);
    CeilDiv(m, b);
    DivLe(total * 8, size * 8 + 1, WORD_BITS * b);
    assert total * 8 < (WORD_BITS * b + 1) * (size * 8 + 1);
    assert (WORD_BITS * b + 1) * (size * 8 + 1) == WORD_BITS * b * size * 8 + size * 8 + WORD_BITS * b + 1;
  }

  /** The bitmap has room for every object, except in exactly that shape. */
  lemma CapacityFitsBitmap(total: nat, size: nat)
    requires size > 0
    ensures Capacity(total, size) <= WORD_BITS * BitmapWords(total, size) <==> !Overflows(total, size)
  {
    var b, off := BitmapWords(total, size), DataOffset(total, size);
    TotalBound(total, size);
    assert off == 8 * b + (if b % 2 == 0 then 0 else 8);
    if off < total {
      DivLe(total - off, size, WORD_BITS * b);
      assert (WORD_BITS * b + 1) * size == WORD_BITS * b * size + size;
    }
  }

  /** The shape exists: one page cut into one object has no bitmap word at all, and objects of 2032 bytes in 64
      pages have one object more than two words have bits. */
  lemma SomeShapesOverflow()
    ensures Overflows(PAGE_SIZE, 4096) && Capacity(PAGE_SIZE, 4096) == 1 && BitmapWords(PAGE_SIZE, 4096) == 0
    ensures Overflows(64 * PAGE_SIZE, 2032) && Capacity(64 * PAGE_SIZE, 2032) == 129
            && BitmapWords(64 * PAGE_SIZE, 2032) == 2
  {
  }

  /** Bitmap and objects do not overlap and stay inside the span. */
  lemma LayoutInside(total: nat, size: nat, i: nat)
    requires size > 0 && i < Capacity(total, size)
    ensures 8 * BitmapWords(total, size) <= DataOffset(total, size) + i * size
    ensures DataOffset(total, size) + (i + 1) * size <= total
  {
    var room := total - DataOffset(total, size);
    DivLe(room, size, i);
  }

  /** Distinct objects do not overlap. */
  lemma ObjectsDisjoint(first: nat, size: nat, i: nat, j: nat, p: int)
    requires i != j && first + i * size <= p < first + i * size + size
    ensures !(first + j * size <= p < first + j * size + size)
  {
    if i < j {
      assert (i + 1) * size <= j * size;
    } else {
      assert (j + 1) * size <= i * size;
    }
  }

  // ----- The bitmap -----

  /** Object `i` is free. */
  predicate IsFree(bitmap: seq<set<nat>>, i: nat)
  {
    i / WORD_BITS < |bitmap| && i % WORD_BITS in bitmap[i / WORD_BITS]
  }

  function Below(n: nat): (r: set<nat>)
    ensures |r| == n && forall i :: i in r <==> 0 <= i < n
  {
    if n == 0 then {} else Below(n - 1) + {n - 1}
  }

  /** The free objects among the first `n`. */
  ghost function FreeBelow(bitmap: seq<set<nat>>, n: nat): (r: set<nat>)
    ensures forall i: nat :: i in r <==> i < n && IsFree(bitmap, i)
  {
    set i | i in Below(n) && IsFree(bitmap, i)
  }

  /** `std::countr_zero`. */
  function LowestBit(w: set<nat>, from: nat): (r: nat)
    requires exists b :: b in w && from <= b < WORD_BITS
    ensures from <= r < WORD_BITS && r in w && forall b :: from <= b < r ==> b !in w
    decreases WORD_BITS - from
  {
    if from in w then from else LowestBit(w, from + 1)
  }

  ghost predicate BitmapOk(bitmap: seq<set<nat>>, capacity: nat, useCount: nat, scanCursor: nat)
  {
    && capacity <= WORD_BITS * |bitmap|
    && (forall k :: 0 <= k < |bitmap| ==> WordOk(bitmap[k], k, capacity))
    && (forall k :: 0 <= k < |bitmap| && k < scanCursor ==> bitmap[k] == {})
    && useCount + |FreeBelow(bitmap, capacity)| == capacity
  }

  /** Only bits of existing objects are set. */
  ghost predicate WordOk(w: set<nat>, k: nat, capacity: nat)
  {
    forall b :: b in w ==> b < WORD_BITS && k * WORD_BITS + b < capacity
  }

  lemma SetBitIsFree(bitmap: seq<set<nat>>, k: nat, b: nat)
    requires k < |bitmap| && b in bitmap[k] && b < WORD_BITS
    ensures IsFree(bitmap, k * WORD_BITS + b)
  {
    assert (k * WORD_BITS + b) / WORD_BITS == k && (k * WORD_BITS + b) % WORD_BITS == b;
  }

  /** Clearing or setting one bit changes one object's state. */
  lemma FreeAfterUpdate(bitmap: seq<set<nat>>, w: set<nat>, idx: nat, i: nat)
    requires idx / WORD_BITS < |bitmap|
    requires forall b :: b != idx % WORD_BITS ==> (b in w <==> b in bitmap[idx / WORD_BITS])
    ensures IsFree(bitmap[idx / WORD_BITS := w], i) <==> if i == idx then idx % WORD_BITS in w else IsFree(bitmap, i)
  {
  }

  lemma AfterClear(bitmap: seq<set<nat>>, capacity: nat, useCount: nat, scanCursor: nat, k: nat, b: nat)
    requires BitmapOk(bitmap, capacity, useCount, scanCursor) && k < |bitmap| && b in bitmap[k]
    ensures var bitmap' := bitmap[k := bitmap[k] - {b}];
      var idx := k * WORD_BITS + b;
      && idx < capacity && IsFree(bitmap, idx)
      && FreeBelow(bitmap', capacity) == FreeBelow(bitmap, capacity) - {idx}
      && BitmapOk(bitmap', capacity, useCount + 1, scanCursor)
  {
    assert WordOk(bitmap[k], k, capacity);
    var idx := k * WORD_BITS + b;
    var bitmap' := bitmap[k := bitmap[k] - {b}];
    SetBitIsFree(bitmap, k, b);
    assert idx / WORD_BITS == k && idx % WORD_BITS == b;
    forall i: nat ensures IsFree(bitmap', i) <==> i != idx && IsFree(bitmap, i) {
      FreeAfterUpdate(bitmap, bitmap[k] - {b}, idx, i);
    }
    assert FreeBelow(bitmap', capacity) == FreeBelow(bitmap, capacity) - {idx};
    forall m | 0 <= m < |bitmap'| ensures WordOk(bitmap'[m], m, capacity) {
      assert WordOk(bitmap[m], m, capacity);
    }
  }

  lemma AfterSet(bitmap: seq<set<nat>>, capacity: nat, useCount: nat, scanCursor: nat, idx: nat)
    requires BitmapOk(bitmap, capacity, useCount, scanCursor) && idx < capacity && !IsFree(bitmap, idx)
    ensures var k := idx / WORD_BITS;
      var bitmap' := bitmap[k := bitmap[k] + {idx % WORD_BITS}];
      && useCount > 0
      && FreeBelow(bitmap', capacity) == FreeBelow(bitmap, capacity) + {idx}
      && BitmapOk(bitmap', capacity, useCount - 1, if k < scanCursor then k else scanCursor)
  {
    var k, b := idx / WORD_BITS, idx % WORD_BITS;
    var w := bitmap[k] + {b};
    var bitmap' := bitmap[k := w];
    forall i: nat ensures IsFree(bitmap', i) <==> i == idx || IsFree(bitmap, i) {
      FreeAfterUpdate(bitmap, w, idx, i);
    }
    assert FreeBelow(bitmap', capacity) == FreeBelow(bitmap, capacity) + {idx};
    SubsetCardinality(FreeBelow(bitmap', capacity), Below(capacity));
    forall m | 0 <= m < |bitmap'| ensures WordOk(bitmap'[m], m, capacity) {
      assert WordOk(bitmap[m], m, capacity);
    }
  }

  lemma SubsetCardinality(a: set<nat>, b: set<nat>)
    requires a <= b
    ensures |a| <= |b|
  {
    assert b == a + (b - a);
  }

  lemma FullMeansNoneFree(bitmap: seq<set<nat>>, capacity: nat, useCount: nat, scanCursor: nat)
    requires BitmapOk(bitmap, capacity, useCount, scanCursor) && useCount >= capacity
    ensures FreeBelow(bitmap, capacity) == {}
  {
  }

  /** The cursor may move up to the word just used, and past it when that emptied it. */
  lemma CursorAfterClear(bitmap: seq<set<nat>>, capacity: nat, useCount: nat, scanCursor: nat, k: nat, w: set<nat>)
    requires k < |bitmap| && BitmapOk(bitmap[k := w], capacity, useCount, scanCursor)
    requires forall m :: 0 <= m < k ==> bitmap[m] == {}
    ensures BitmapOk(bitmap[k := w], capacity, useCount, if w == {} then k + 1 else k)
  {
  }

  /** With every word empty nothing is free. */
  lemma NoSetBit(bitmap: seq<set<nat>>, n: nat)
    requires forall k :: 0 <= k < |bitmap| && k * WORD_BITS < n ==> bitmap[k] == {}
    ensures FreeBelow(bitmap, n) == {}
  {
  }

  /** The bitmap with its first `cap` bits set. */
  method FillBitmap(words: nat, cap: nat) returns (bits: seq<set<nat>>)
    requires cap <= WORD_BITS * words
    ensures |bits| == words && BitmapOk(bits, cap, 0, 0) && FreeBelow(bits, cap) == Below(cap)
  {
    var full, tail := cap / WORD_BITS, cap % WORD_BITS;
    bits := seq(words, _ => {});
    for i := 0 to full
      invariant |bits| == words
      invariant forall k :: 0 <= k < i ==> bits[k] == Below(WORD_BITS)
    {
      bits := bits[i := Below(WORD_BITS)];
    }
    if full < words {
      bits := bits[full := Below(tail)];
      for i := full + 1 to words
        invariant |bits| == words
        invariant forall k :: 0 <= k < full ==> bits[k] == Below(WORD_BITS)
        invariant bits[full] == Below(tail)
        invariant forall k :: full < k < i ==> bits[k] == {}
      {
        bits := bits[i := {}];
      }
    }
    AllFreeInitially(bits, cap);
  }

  lemma IndexOfAddress(idx: nat, size: nat)
    requires size > 0
    ensures idx * size / size == idx
  {
    DivLe(idx * size, size, idx);
    assert idx * size < (idx + 1) * size;
    if idx > 0 {
      DivLe(idx * size, size, idx - 1);
    }
  }

  /** The number of the object at an address. */
  method ObjectIndex(ptr: nat, first: nat, size: nat, ghost idx: nat) returns (global: nat)
    requires size > 0 && ptr == first + idx * size
    ensures global == idx
  {
    IndexOfAddress(idx, size);
    global := (ptr - first) / size;
  }

  class Span {
    var base: nat
    var objSize: nat
    var objOffset: nat
    var capacity: nat
    var useCount: nat
    var scanCursor: nat
    var bitmap: seq<set<nat>>  // the words reserved at the start of the pages

    ghost predicate Valid()
      reads this
    {
      objSize > 0 && BitmapOk(bitmap, capacity, useCount, scanCursor)
    }

    /** The objects not handed out. */
    ghost function FreeObjects(): set<nat>
      reads this
      requires Valid()
    {
      FreeBelow(bitmap, capacity)
    }

    function GetBitmapNum(): nat
      reads this
    {
      (capacity + 63) / WORD_BITS
    }

    function AddressOf(i: nat): nat
      reads this
    {
      base + objOffset + i * objSize
    }

    /** Lays out `pageNum` pages at `start` as objects of `size` bytes, all free. */
    constructor Init(start: nat, pageNum: nat, size: nat)
      requires size > 0 && !Overflows(pageNum * PAGE_SIZE, size)
      ensures Valid() && useCount == 0 && FreeObjects() == Below(capacity)
      ensures base == start && objSize == size && capacity == Capacity(pageNum * PAGE_SIZE, size)
      ensures objOffset == DataOffset(pageNum * PAGE_SIZE, size) && |bitmap| == BitmapWords(pageNum * PAGE_SIZE, size)
    {
      var total := pageNum * PAGE_SIZE;
      CapacityFitsBitmap(total, size);
      base, objSize, objOffset, capacity := start, size, DataOffset(total, size), Capacity(total, size);
      useCount, scanCursor := 0, 0;
      var bits := FillBitmap(BitmapWords(total, size), Capacity(total, size));
      bitmap := bits;
    }

    /** Hands out the lowest free object, or nothing when the span is full. */
    method AllocObject() returns (found: bool, ptr: nat, ghost idx: nat)
      requires Valid()
      modifies this`bitmap, this`useCount, this`scanCursor
      ensures Valid()
      ensures found <==> old(useCount) < capacity
      ensures found <==> old(FreeObjects()) != {}
      ensures !found ==> bitmap == old(bitmap) && useCount == old(useCount)
      ensures found ==>
                && idx in old(FreeObjects()) && (forall i :: i in old(FreeObjects()) ==> idx <= i)
                && ptr == AddressOf(idx)
                && FreeObjects() == old(FreeObjects()) - {idx} && useCount == old(useCount) + 1
    {
      found, ptr, idx := false, 0, 0;
      if useCount >= capacity {
        FullMeansNoneFree(bitmap, capacity, useCount, scanCursor);
        return;
      }
      var i := FirstWord();
      if i < GetBitmapNum() {
        found := true;
        ptr, idx := TakeFrom(i);
        return;
      }
      NoSetBit(bitmap, capacity);
    }

    /** Clears the lowest bit of the first non-empty word. */
    method TakeFrom(i: nat) returns (ptr: nat, ghost idx: nat)
      requires Valid() && i < |bitmap| && bitmap[i] != {} && forall k :: 0 <= k < i ==> bitmap[k] == {}
      modifies this`bitmap, this`useCount, this`scanCursor
      ensures Valid() && useCount == old(useCount) + 1 && ptr == AddressOf(idx)
      ensures idx in old(FreeObjects()) && (forall k :: k in old(FreeObjects()) ==> idx <= k)
      ensures FreeObjects() == old(FreeObjects()) - {idx}
    {
      WordHasBit(bitmap, capacity, useCount, scanCursor, i);
      var bit := LowestBit(bitmap[i], 0);
      ptr, idx := TakeBit(i, bit);
    }

    method TakeBit(i: nat, bit: nat) returns (ptr: nat, ghost idx: nat)
      requires Valid() && i < |bitmap| && forall k :: 0 <= k < i ==> bitmap[k] == {}
      requires bit < WORD_BITS && bit in bitmap[i] && forall b :: 0 <= b < bit ==> b !in bitmap[i]
      modifies this`bitmap, this`useCount, this`scanCursor
      ensures Valid() && useCount == old(useCount) + 1 && ptr == AddressOf(idx)
      ensures idx in old(FreeObjects()) && (forall k :: k in old(FreeObjects()) ==> idx <= k)
      ensures FreeObjects() == old(FreeObjects()) - {idx}
    {
      TakeLowest(bitmap, capacity, useCount, scanCursor, i, bit);
      var val, n := bitmap[i] - {bit}, i * WORD_BITS + bit;
      idx, ptr := n, AddressOf(n);
      Install(bitmap[i := val], useCount + 1, if val == {} then i + 1 else i);
    }

    /** The scan from the cursor: the first word with a set bit, or the number of words. */
    method FirstWord() returns (i: nat)
      requires Valid()
      ensures forall k :: 0 <= k < i && k < |bitmap| ==> bitmap[k] == {}
      ensures i < GetBitmapNum() ==> i < |bitmap| && bitmap[i] != {}
    {
      i := scanCursor;
      while i < GetBitmapNum()
        invariant forall k :: 0 <= k < i && k < |bitmap| ==> bitmap[k] == {}
      {
        if bitmap[i] != {} {
          return;
        }
        i := i + 1;
      }
    }

    /** Takes back an object that was handed out. */
    method FreeObject(ptr: nat, ghost idx: nat)
      requires Valid() && idx < capacity && idx !in FreeObjects() && ptr == AddressOf(idx)
      modifies this`bitmap, this`useCount, this`scanCursor
      ensures Valid()
      ensures FreeObjects() == old(FreeObjects()) + {idx} && useCount == old(useCount) - 1
    {
      var global := ObjectIndex(ptr, base + objOffset, objSize, idx);
      SetBit(global);
    }

    method SetBit(global: nat)
      requires Valid() && global < capacity && global !in FreeObjects()
      modifies this`bitmap, this`useCount, this`scanCursor
      ensures Valid()
      ensures FreeObjects() == old(FreeObjects()) + {global} && useCount == old(useCount) - 1
    {
      AfterSet(bitmap, capacity, useCount, scanCursor, global);
      var word := global / WORD_BITS;
      Install(bitmap[word := bitmap[word] + {global % WORD_BITS}], useCount - 1,
              if word < scanCursor then word else scanCursor);
    }

    /** Takes over a bitmap with its count and cursor. */
    method Install(newBitmap: seq<set<nat>>, newCount: nat, newCursor: nat)
      requires objSize > 0 && BitmapOk(newBitmap, capacity, newCount, newCursor)
      modifies this`bitmap, this`useCount, this`scanCursor
      ensures Valid() && bitmap == newBitmap && useCount == newCount && scanCursor == newCursor
    {
      bitmap, useCount, scanCursor := newBitmap, newCount, newCursor;
    }
  }

  lemma WordHasBit(bitmap: seq<set<nat>>, capacity: nat, useCount: nat, scanCursor: nat, i: nat)
    requires BitmapOk(bitmap, capacity, useCount, scanCursor) && i < |bitmap| && bitmap[i] != {}
    ensures exists b :: b in bitmap[i] && 0 <= b < WORD_BITS
  {
    assert WordOk(bitmap[i], i, capacity);
    var b :| b in bitmap[i];
  }

  lemma FirstBitsSet(bits: seq<set<nat>>, cap: nat, i: nat)
    requires cap <= WORD_BITS * |bits| && i < cap
    requires forall k :: 0 <= k < |bits| ==>
               bits[k] == if k < cap / WORD_BITS then Below(WORD_BITS)
                   else if k == cap / WORD_BITS then Below(cap % WORD_BITS) else {}
    ensures IsFree(bits, i)
  {
    var k := i / WORD_BITS;
    assert k < |bits| && k <= cap / WORD_BITS;
  }

  lemma AllFreeInitially(bits: seq<set<nat>>, cap: nat)
    requires cap <= WORD_BITS * |bits|
    requires forall k :: 0 <= k < |bits| ==>
               bits[k] == if k < cap / WORD_BITS then Below(WORD_BITS)
                   else if k == cap / WORD_BITS then Below(cap % WORD_BITS) else {}
    ensures BitmapOk(bits, cap, 0, 0) && FreeBelow(bits, cap) == Below(cap)
  {
    forall i: nat | i < cap ensures IsFree(bits, i) {
      FirstBitsSet(bits, cap, i);
    }
    assert FreeBelow(bits, cap) == Below(cap);
    forall k | 0 <= k < |bits| ensures WordOk(bits[k], k, cap) {
      assert cap == cap / WORD_BITS * WORD_BITS + cap % WORD_BITS;
    }
  }

  /** The lowest bit of the first non-empty word is the lowest free object. */
  lemma LowestOverall(bitmap: seq<set<nat>>, k: nat, b: nat, capacity: nat)
    requires k < |bitmap| && b < WORD_BITS && b in bitmap[k] && forall c :: 0 <= c < b ==> c !in bitmap[k]
    requires forall m :: 0 <= m < k ==> bitmap[m] == {}
    ensures forall i :: i in FreeBelow(bitmap, capacity) ==> k * WORD_BITS + b <= i
  {
    forall i | i in FreeBelow(bitmap, capacity) ensures k * WORD_BITS + b <= i {
      assert i / WORD_BITS >= k;
    }
  }

  /** Clearing the lowest bit of the first non-empty word takes the lowest free object. */
  lemma TakeLowest(bitmap: seq<set<nat>>, capacity: nat, useCount: nat, scanCursor: nat, k: nat, b: nat)
    requires BitmapOk(bitmap, capacity, useCount, scanCursor) && k < |bitmap| && b < WORD_BITS && b in bitmap[k]
    requires (forall c :: 0 <= c < b ==> c !in bitmap[k]) && forall m :: 0 <= m < k ==> bitmap[m] == {}
    ensures var bitmap' := bitmap[k := bitmap[k] - {b}];
      var idx := k * WORD_BITS + b;
      && idx in FreeBelow(bitmap, capacity) && (forall i :: i in FreeBelow(bitmap, capacity) ==> idx <= i)
      && FreeBelow(bitmap', capacity) == FreeBelow(bitmap, capacity) - {idx}
      && BitmapOk(bitmap', capacity, useCount + 1, if bitmap[k] - {b} == {} then k + 1 else k)
  {
    AfterClear(bitmap, capacity, useCount, scanCursor, k, b);
    LowestOverall(bitmap, k, b, capacity);
    CursorAfterClear(bitmap, capacity, useCount + 1, scanCursor, k, bitmap[k] - {b});
  }
}
