/** Size classes: eight-byte steps up to 128 bytes, then four classes per power of two. */
module SizeClass {
  import SpanBitmap

  function Pow2(n: nat): (r: nat)
    ensures r >= 1
  {
    if n == 0 then 1 else 2 * Pow2(n - 1)
  }

  /** `std::bit_width(x) - 1` for a positive `x`. */
  function Msb(x: nat): (m: nat)
    requires x >= 1
    ensures Pow2(m) <= x < 2 * Pow2(m)
  {
    if x == 1 then 0 else Msb(x / 2) + 1
  }

  function CalculateIndex(size: nat): nat
  {
    if size == 0 then 0
    else if size <= 128 then (size - 1) / 8
    else
      var msb := Msb(size - 1);
      Pow2Grows(7, msb, size - 1);
      16 + (msb - 7) * 4 + (size - 1) / Pow2(msb - 2) % 4
  }

  function CalculateSize(idx: nat): nat
  {
    if idx < 16 then (idx + 1) * 8
    else
      var group, step := (idx - 16) / 4, (idx - 16) % 4;
      Pow2(group + 7) + (step + 1) * Pow2(group + 5)
  }

  /** A number of at least 2^n has its top bit at `n` or above. */
  lemma {:induction false} Pow2Grows(n: nat, m: nat, x: nat)
    requires Pow2(n) <= x < 2 * Pow2(m)
    ensures n <= m
    decreases n
  {
    if m < n {
      Pow2Monotone(m + 1, n);
    }
  }

  lemma {:induction false} Pow2Monotone(m: nat, n: nat)
    requires m <= n
    ensures Pow2(m) <= Pow2(n)
    decreases n - m
  {
    if m < n {
      Pow2Monotone(m, n - 1);
    }
  }

  /** The class of index `16 + 4 * g + step` ends at `5 + step` quarters of its power of two. */
  lemma SizeOfStep(g: nat, step: nat)
    requires step < 4
    ensures CalculateSize(16 + 4 * g + step) == (5 + step) * Pow2(g + 5)
  {
    GroupAndStep(g, step, 16 + 4 * g + step - 16);
    var unit := Pow2(g + 5);
    assert Pow2(g + 7) == 2 * Pow2(g + 6) && Pow2(g + 6) == 2 * unit;
    assert (5 + step) * unit == 4 * unit + (step + 1) * unit;
  }

  lemma GroupAndStep(g: nat, step: nat, x: nat)
    requires step < 4 && x == 4 * g + step
    ensures x / 4 == g && x % 4 == step
  {
  }

  /** `a` lies in the step that starts at `q` quarters. */
  lemma QuotientBounds(a: nat, d: nat, q: nat)
    requires d > 0 && q == a / d
    ensures q * d <= a < (q + 1) * d
  {
    assert a == q * d + a % d;
  }

  lemma QuotientInOctave(a: nat, d: nat)
    requires d > 0 && 4 * d <= a < 8 * d
    ensures 4 <= a / d < 8
  {
    SpanBitmap.DivLe(a, d, 3);
    SpanBitmap.DivLe(a, d, 7);
  }

  /** The step below the one of `q` quarters in group `g` ends at `q` quarters. */
  lemma SizeBelowStep(g: nat, q: nat)
    requires 4 <= q < 8
    ensures CalculateSize(16 + 4 * g + (q - 4) - 1) == q * Pow2(g + 5)
  {
    var idx := 16 + 4 * g + (q - 4) - 1;
    if q > 4 {
      assert idx == 16 + 4 * g + (q - 5);
      SizeOfStep(g, q - 5);
    } else if g > 0 {
      var g' := g - 1;
      assert idx == 16 + 4 * g' + 3;
      SizeOfStep(g', 3);
      assert Pow2(g + 5) == 2 * Pow2(g' + 5);
    } else {
      assert idx == 15 && Pow2(5) == 32;
    }
  }

  /** Every size, not only the class boundaries: its class is the smallest that holds it. */
  lemma IndexIsSmallestClass(size: nat)
    requires size >= 1
    ensures size <= CalculateSize(CalculateIndex(size))
    ensures CalculateIndex(size) > 0 ==> CalculateSize(CalculateIndex(size) - 1) < size
  {
    if size > 128 {
      var g, q := LargeIndex(size);
      SizeOfStep(g, q - 4);
      SizeBelowStep(g, q);
    }
  }

  /** The class of a large size, by its power of two and the quarter of it the size falls into. */
  lemma LargeIndex(size: nat) returns (g: nat, q: nat)
    requires size > 128
    ensures 4 <= q < 8 && CalculateIndex(size) == 16 + 4 * g + (q - 4)
    ensures q * Pow2(g + 5) < size <= (q + 1) * Pow2(g + 5)
  {
    var a := size - 1;
    var msb := Msb(a);
    Pow2Grows(7, msb, a);
    var d := Pow2(msb - 2);
    assert Pow2(msb) == 2 * Pow2(msb - 1) && Pow2(msb - 1) == 2 * d;
    QuotientInOctave(a, d);
    g, q := msb - 7, a / d;
    QuotientBounds(a, d, q);
    assert q % 4 == q - 4;
  }

  /** Sizes of classes grow strictly with the index. */
  lemma SizeIncreases(idx: nat)
    ensures CalculateSize(idx) < CalculateSize(idx + 1)
  {
    if idx == 15 {
      SizeOfStep(0, 0);
      assert Pow2(5) == 32;
    } else if idx > 15 {
      var g, step := (idx - 16) / 4, (idx - 16) % 4;
      assert idx == 16 + 4 * g + step;
      SizeOfStep(g, step);
      var p := Pow2(g + 5);
      if step < 3 {
        SizeOfStep(g, step + 1);
        assert (6 + step) * p == (5 + step) * p + p;
      } else {
        SizeOfStep(g + 1, 0);
        assert idx + 1 == 16 + 4 * (g + 1) + 0;
        assert Pow2(g + 1 + 5) == 2 * p;
      }
    }
  }

  lemma {:induction false} SizeMonotone(i: nat, j: nat)
    requires i < j
    ensures CalculateSize(i) < CalculateSize(j)
    decreases j - i
  {
    SizeIncreases(j - 1);
    if i < j - 1 {
      SizeMonotone(i, j - 1);
    }
  }

  /** Index inverts size on every class. */
  lemma IndexOfSize(idx: nat)
    ensures CalculateIndex(CalculateSize(idx)) == idx
  {
    var s := CalculateSize(idx);
    if idx > 0 {
      SizeMonotone(0, idx);
    }
    assert s >= 1;
    IndexIsSmallestClass(s);
    var k := CalculateIndex(s);
    if k < idx {
      SizeMonotone(k, idx);
    } else if idx < k - 1 {
      SizeMonotone(idx, k - 1);
    }
  }

  // ----- The spans the central cache cuts up -----

  const MAX_TC_SIZE: nat := 32768
  const NUM_SIZE_CLASSES: nat := 48
  const MAX_BATCH_SIZE: nat := 512
  const MAX_PAGE_NUM: nat := 128

  /** The classes up to the last one are exactly those of at most `MAX_TC_SIZE` bytes. */
  lemma LastClass()
    ensures CalculateIndex(MAX_TC_SIZE) == NUM_SIZE_CLASSES - 1 && CalculateSize(NUM_SIZE_CLASSES - 1) == MAX_TC_SIZE
  {
    assert CalculateSize(47) == 32768;
    IndexOfSize(47);
  }

  function BatchSize(size: nat): nat
    requires size > 0
  {
    var batch := MAX_TC_SIZE / size;
    if batch < 2 then 2 else if batch > MAX_BATCH_SIZE then MAX_BATCH_SIZE else batch
  }

  /** The pages of a span for a class: eight batches, at least 32 KiB, at most the largest cached span. */
  function MovePages(size: nat): nat
    requires size > 0
  {
    var wanted := BatchSize(size) * 8 * size;
    var bytes := if wanted < 32 * 1024 then 32 * 1024 else wanted;
    var pages := (bytes + SpanBitmap.PAGE_SIZE - 1) / SpanBitmap.PAGE_SIZE;
    if pages > MAX_PAGE_NUM then MAX_PAGE_NUM else pages
  }

  predicate SpanFits(size: nat)
    requires size > 0
  {
    !SpanBitmap.Overflows(MovePages(size) * SpanBitmap.PAGE_SIZE, size)
  }

  /** The span of a class does not overflow when its total, less one object, lies strictly between two multiples of
      what two bitmap words and their objects take. */
  lemma SizeFits(size: nat, quotient: nat, pages: nat, q: nat)
    requires size > 0 && quotient * size <= MAX_TC_SIZE < (quotient + 1) * size
    requires var batch := if quotient < 2 then 2 else if quotient > MAX_BATCH_SIZE then MAX_BATCH_SIZE else quotient;
      var bytes := if batch * 8 * size < 32768 then 32768 else batch * 8 * size;
      pages <= MAX_PAGE_NUM && bytes > (pages - 1) * 4096 && (pages < MAX_PAGE_NUM ==> bytes <= pages * 4096)
    requires q * (128 * size + 16) < pages * 4096 - size < (q + 1) * (128 * size + 16)
    ensures SpanFits(size)
  {
    QuotientIs(MAX_TC_SIZE, size, quotient);
    assert MovePages(size) == pages;
    NoEvenWords(pages * 4096, size, q);
  }

  lemma QuotientIs(a: nat, d: nat, q: nat)
    requires d > 0 && q * d <= a < (q + 1) * d
    ensures a / d == q
  {
    SpanBitmap.DivLe(a, d, q);
    if q > 0 {
      SpanBitmap.DivLe(a, d, q - 1);
    }
  }

  lemma NoEvenWords(total: nat, size: nat, q: nat)
    requires size > 0 && q * (128 * size + 16) < total - size < (q + 1) * (128 * size + 16)
    ensures !SpanBitmap.Overflows(total, size)
  {
    var b, d := SpanBitmap.BitmapWords(total, size), 128 * size + 16;
    var c := b / 2;
    if b % 2 == 0 {
      assert SpanBitmap.WORD_BITS * b * size + 8 * b == c * d;
      NotBetween(c, q, d, total - size);
    }
  }

  lemma NotBetween(c: nat, q: nat, d: nat, x: int)
    requires q * d < x < (q + 1) * d
    ensures c * d != x
  {
    if c <= q {
      assert c * d <= q * d;
    } else {
      assert c * d >= (q + 1) * d;
    }
  }

  lemma SmallSizesFit(size: nat)
    requires size % 8 == 0 && 0 < size <= 128
    ensures SpanFits(size)
  {
    if size == 8 {
      SizeFits(8, 4096, 8, 31);
    } else if size == 16 {
      SizeFits(16, 2048, 16, 31);
    } else if size == 24 {
      SizeFits(24, 1365, 24, 31);
    } else if size == 32 {
      SizeFits(32, 1024, 32, 31);
    } else if size == 40 {
      SizeFits(40, 819, 40, 31);
    } else if size == 48 {
      SizeFits(48, 682, 48, 31);
    } else if size == 56 {
      SizeFits(56, 585, 56, 31);
    } else if size == 64 {
      SizeFits(64, 512, 64, 31);
    } else if size == 72 {
      SizeFits(72, 455, 64, 28);
    } else if size == 80 {
      SizeFits(80, 409, 64, 25);
    } else if size == 88 {
      SizeFits(88, 372, 64, 23);
    } else if size == 96 {
      SizeFits(96, 341, 64, 21);
    } else if size == 104 {
      SizeFits(104, 315, 64, 19);
    } else if size == 112 {
      SizeFits(112, 292, 64, 18);
    } else if size == 120 {
      SizeFits(120, 273, 64, 17);
    } else if size == 128 {
      SizeFits(128, 256, 64, 15);
    }
  }

  lemma SizesFrom160(size: nat)
    requires size in {160, 192, 224, 256, 320, 384, 448, 512}
    ensures SpanFits(size)
  {
    if size == 160 {
      SizeFits(160, 204, 64, 12);
    } else if size == 192 {
      SizeFits(192, 170, 64, 10);
    } else if size == 224 {
      SizeFits(224, 146, 64, 9);
    } else if size == 256 {
      SizeFits(256, 128, 64, 7);
    } else if size == 320 {
      SizeFits(320, 102, 64, 6);
    } else if size == 384 {
      SizeFits(384, 85, 64, 5);
    } else if size == 448 {
      SizeFits(448, 73, 64, 4);
    } else if size == 512 {
      SizeFits(512, 64, 64, 3);
    }
  }

  lemma SizesFrom640(size: nat)
    requires size in {640, 768, 896, 1024, 1280, 1536, 1792, 2048}
    ensures SpanFits(size)
  {
    if size == 640 {
      SizeFits(640, 51, 64, 3);
    } else if size == 768 {
      SizeFits(768, 42, 63, 2);
    } else if size == 896 {
      SizeFits(896, 36, 63, 2);
    } else if size == 1024 {
      SizeFits(1024, 32, 64, 1);
    } else if size == 1280 {
      SizeFits(1280, 25, 63, 1);
    } else if size == 1536 {
      SizeFits(1536, 21, 63, 1);
    } else if size == 1792 {
      SizeFits(1792, 18, 63, 1);
    } else if size == 2048 {
      SizeFits(2048, 16, 64, 0);
    }
  }

  lemma SizesFrom2560(size: nat)
    requires size in {2560, 3072, 3584, 4096, 5120, 6144, 7168, 8192}
    ensures SpanFits(size)
  {
    if size == 2560 {
      SizeFits(2560, 12, 60, 0);
    } else if size == 3072 {
      SizeFits(3072, 10, 60, 0);
    } else if size == 3584 {
      SizeFits(3584, 9, 63, 0);
    } else if size == 4096 {
      SizeFits(4096, 8, 64, 0);
    } else if size == 5120 {
      SizeFits(5120, 6, 60, 0);
    } else if size == 6144 {
      SizeFits(6144, 5, 60, 0);
    } else if size == 7168 {
      SizeFits(7168, 4, 56, 0);
    } else if size == 8192 {
      SizeFits(8192, 4, 64, 0);
    }
  }

  lemma SizesFrom10240(size: nat)
    requires size in {10240, 12288, 14336, 16384, 20480, 24576, 28672, 32768}
    ensures SpanFits(size)
  {
    if size == 10240 {
      SizeFits(10240, 3, 60, 0);
    } else if size == 12288 {
      SizeFits(12288, 2, 48, 0);
    } else if size == 14336 {
      SizeFits(14336, 2, 56, 0);
    } else if size == 16384 {
      SizeFits(16384, 2, 64, 0);
    } else if size == 20480 {
      SizeFits(20480, 1, 80, 0);
    } else if size == 24576 {
      SizeFits(24576, 1, 96, 0);
    } else if size == 28672 {
      SizeFits(28672, 1, 112, 0);
    } else if size == 32768 {
      SizeFits(32768, 1, 128, 0);
    }
  }

  /** No class ever asks for a span whose capacity outgrows its bitmap. */
  lemma ClassSpansFit(idx: nat)
    requires idx < NUM_SIZE_CLASSES
    ensures CalculateSize(idx) > 0 && SpanFits(CalculateSize(idx))
  {
    if idx < 16 {
      SmallSizesFit(CalculateSize(idx));
    } else {
      var g, step := (idx - 16) / 4, (idx - 16) % 4;
      SizeOfStep(g, step);
      LargeClassFits(g, step);
    }
  }

  lemma LargeClassFits(g: nat, step: nat)
    requires g < 8 && step < 4
    ensures (5 + step) * Pow2(g + 5) > 0 && SpanFits((5 + step) * Pow2(g + 5))
  {
    PowersOfTwo();
    var size := (5 + step) * Pow2(g + 5);
    if g < 2 {
      SizesFrom160(size);
    } else if g < 4 {
      SizesFrom640(size);
    } else if g < 6 {
      SizesFrom2560(size);
    } else {
      SizesFrom10240(size);
    }
  }

  lemma PowersOfTwo()
    ensures Pow2(5) == 32 && Pow2(6) == 64 && Pow2(7) == 128 && Pow2(8) == 256
    ensures Pow2(9) == 512 && Pow2(10) == 1024 && Pow2(11) == 2048 && Pow2(12) == 4096
  {
  }

  /** The smallest class comes close: its total has the critical form, but with an odd number of words. */
  lemma SmallestClassIsClose()
    ensures var total := MovePages(8) * SpanBitmap.PAGE_SIZE;
      var b := SpanBitmap.BitmapWords(total, 8);
      CalculateSize(0) == 8 && b == 63 && total == SpanBitmap.WORD_BITS * b * 8 + 8 * b + 8
  {
  }

  /** What the central cache does with the pages it gets for a class. */
  method InitSpanForClass(idx: nat, start: nat) returns (span: SpanBitmap.Span)
    requires idx < NUM_SIZE_CLASSES
    ensures fresh(span) && span.Valid() && span.useCount == 0 && span.objSize == CalculateSize(idx)
    ensures span.FreeObjects() == SpanBitmap.Below(span.capacity)
  {
    ClassSpansFit(idx);
    span := new SpanBitmap.Span.Init(start, MovePages(CalculateSize(idx)), CalculateSize(idx));
  }
}
