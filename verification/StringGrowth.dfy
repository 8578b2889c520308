/** Capacity growth of the char string: half again below a page, a quarter again with rounding to whole
    pages above, and what a run of appends costs. */
module StringGrowth {

  datatype Checked = CapacityError | Capacity(value: nat)

  const SMALL_CAPACITY: nat := 23
  const MIN_HEAP_CAPACITY: nat := 32
  const PAGE_SIZE: nat := 4096
  const LARGE_THRESHOLD: nat := 4095
  const MAX_CAPACITY: nat := 0x3FFF_FFFF_FFFF_FFFF  // 62 bits of payload

  /** The largest capacity that can still grow by a quarter: four fifths of the limit. */
  const GROWABLE_CAPACITY: nat := 3689348814741910323

  function Max(a: nat, b: nat): nat { if a < b then b else a }

  function MinHeapCapacity(required: nat): nat
  {
    Max(required, MIN_HEAP_CAPACITY)
  }

  function NextCapacity(oldCap: nat, required: nat): nat
  {
    if required <= oldCap then oldCap else Max(Max(required, oldCap + oldCap / 2), MIN_HEAP_CAPACITY)
  }

  function LargeNextCapacity(oldCap: nat, required: nat): nat
  {
    var growth := if oldCap / 4 == 0 then 1 else oldCap / 4;
    Max(required, oldCap + growth)
  }

  /** The largest capacity whose buffer, terminator included, takes the same number of pages. */
  function RoundUpCapacityToPage(capacity: nat): Checked
  {
    var bytes := capacity + 1;
    var remainder := bytes % PAGE_SIZE;
    if remainder == 0 then Capacity(capacity)
    else
      var rounded := bytes + (PAGE_SIZE - remainder) - 1;
      if rounded > MAX_CAPACITY then CapacityError else Capacity(rounded)
  }

  function CheckedNextCapacity(oldCap: nat, required: nat): Checked
  {
    if required > MAX_CAPACITY then CapacityError
    else
      var capacity := if oldCap >= LARGE_THRESHOLD then LargeNextCapacity(oldCap, required)
          else NextCapacity(oldCap, required);
      if capacity > MAX_CAPACITY then CapacityError
      else if capacity >= LARGE_THRESHOLD then RoundUpCapacityToPage(capacity)
      else Capacity(capacity)
  }

  /** Growth never falls short, and large buffers are whole pages. */
  lemma GrowthIsEnough(oldCap: nat, required: nat)
    ensures var c := CheckedNextCapacity(oldCap, required);
      c.Capacity? ==>
        required <= c.value <= MAX_CAPACITY && (c.value >= LARGE_THRESHOLD ==> (c.value + 1) % PAGE_SIZE == 0)
  {
    var capacity := if oldCap >= LARGE_THRESHOLD then LargeNextCapacity(oldCap, required)
        else NextCapacity(oldCap, required);
    RoundingIsTight(capacity);
  }

  /** Growth is refused exactly when the requirement is above the limit or the buffer is too large to grow by a
      quarter; rounding to pages never refuses, because the limit fills its last page. */
  lemma GrowthFailsIff(oldCap: nat, required: nat)
    ensures CheckedNextCapacity(oldCap, required).CapacityError? <==>
            required > MAX_CAPACITY || oldCap > GROWABLE_CAPACITY
  {
    assert oldCap + oldCap / 4 > MAX_CAPACITY <==> oldCap > GROWABLE_CAPACITY;
    var capacity := if oldCap >= LARGE_THRESHOLD then LargeNextCapacity(oldCap, required)
        else NextCapacity(oldCap, required);
    if capacity <= MAX_CAPACITY {
      RoundingSucceeds(capacity);
    }
  }

  lemma RoundingSucceeds(capacity: nat)
    requires capacity <= MAX_CAPACITY
    ensures RoundUpCapacityToPage(capacity).Capacity?
  {
    var bytes := capacity + 1;
    var pages := bytes / PAGE_SIZE;
    assert bytes == PAGE_SIZE * pages + bytes % PAGE_SIZE && MAX_CAPACITY + 1 == PAGE_SIZE * 0x4_0000_0000_0000;
  }

  /** Rounding gives the least page-filling capacity. */
  lemma RoundingIsTight(capacity: nat)
    ensures var c := RoundUpCapacityToPage(capacity);
      c.Capacity? ==> capacity <= c.value < capacity + PAGE_SIZE && (c.value + 1) % PAGE_SIZE == 0
    ensures capacity <= MAX_CAPACITY && RoundUpCapacityToPage(capacity).Capacity? ==>
            RoundUpCapacityToPage(capacity).value <= MAX_CAPACITY
  {
  }

  // ----- The cost of a run of appends -----

  /** A string while characters are appended one by one: its size, its capacity and the characters that
      reallocation has copied so far. */
  datatype Run = Run(size: nat, cap: nat, copied: nat)

  const EMPTY_RUN := Run(0, SMALL_CAPACITY, 0)

  /** `push_back`: in place while there is room; from the inline buffer to the heap; or to a larger heap buffer.
      A capacity error changes nothing. */
  function PushBack(r: Run): Run
  {
    if r.size < r.cap then r.(size := r.size + 1)
    else if r.cap == SMALL_CAPACITY then Run(r.size + 1, MinHeapCapacity(r.size + 1), r.copied + r.size)
    else
      match CheckedNextCapacity(r.cap, r.size + 1)
      case CapacityError => r
      case Capacity(c) => Run(r.size + 1, c, r.copied + r.size)
  }

  function PushBacks(n: nat): Run
  {
    if n == 0 then EMPTY_RUN else PushBack(PushBacks(n - 1))
  }

  /** A full large buffer grows by at least a quarter, counting the terminator. */
  lemma LargeStepGrowsByQuarter(cap: nat)
    requires cap >= LARGE_THRESHOLD && (cap + 1) % PAGE_SIZE == 0
    ensures var c := CheckedNextCapacity(cap, cap + 1);
      c.Capacity? ==> 4 * (c.value + 1) >= 5 * (cap + 1)
  {
    var m := (cap + 1) / PAGE_SIZE;
    assert cap + 1 == PAGE_SIZE * m;
    assert cap / 4 == 1024 * m - 1;
    var candidate := LargeNextCapacity(cap, cap + 1);
    assert candidate == 5120 * m - 2;
    var c := RoundUpCapacityToPage(candidate);
    if c.Capacity? {
      RoundingIsTight(candidate);
      var k := (c.value + 1) / PAGE_SIZE;
      assert c.value + 1 == PAGE_SIZE * k && PAGE_SIZE * k >= 5120 * m - 1;
      assert 4 * k >= 5 * m;
    }
  }

  /** A full smaller buffer grows by half, up to rounding. */
  lemma SmallStepGrowsByHalf(cap: nat)
    requires MIN_HEAP_CAPACITY <= cap < LARGE_THRESHOLD
    ensures var c := CheckedNextCapacity(cap, cap + 1);
      c.Capacity? && 2 * c.value + 1 >= 3 * cap
  {
    var candidate := NextCapacity(cap, cap + 1);
    RoundingIsTight(candidate);
  }

  /** What holds after every append: the copies so far are less than four buffers, and less than five per character. */
  ghost predicate Amortized(r: Run)
  {
    && r.size <= r.cap
    && (r.cap == SMALL_CAPACITY ==> r.copied == 0)
    && (r.cap != SMALL_CAPACITY ==> r.cap >= MIN_HEAP_CAPACITY && r.copied + 8 <= 4 * (r.cap + 1))
    && (r.cap >= LARGE_THRESHOLD ==> (r.cap + 1) % PAGE_SIZE == 0)
    && r.copied <= 5 * r.size && (r.size > 0 ==> r.copied < 5 * r.size)
  }

  lemma PushBackStaysAmortized(r: Run)
    requires Amortized(r)
    ensures Amortized(PushBack(r))
  {
    if r.size == r.cap && r.cap != SMALL_CAPACITY {
      GrowthIsEnough(r.cap, r.cap + 1);
      if r.cap >= LARGE_THRESHOLD {
        LargeStepGrowsByQuarter(r.cap);
      } else {
        SmallStepGrowsByHalf(r.cap);
      }
    }
  }

  /** Any run of appends to an empty string copies fewer than five characters per append. */
  lemma {:induction false} PushBacksAreLinear(n: nat)
    ensures Amortized(PushBacks(n)) && PushBacks(n).size <= n
    ensures n > 0 ==> PushBacks(n).copied < 5 * n
    decreases n
  {
    if n > 0 {
      PushBacksAreLinear(n - 1);
      PushBackStaysAmortized(PushBacks(n - 1));
    }
  }

  /** A run that was refused an append stays short of its length. */
  lemma {:induction false} RefusedStaysBehind(m: nat, n: nat)
    requires m <= n && PushBacks(m).size < m
    ensures PushBacks(n).size < n
    decreases n
  {
    if m < n {
      RefusedStaysBehind(m, n - 1);
    }
  }

  /** Every append up to four fifths of the capacity limit succeeds. */
  lemma {:induction false} PushBacksSucceed(n: nat)
    requires n <= GROWABLE_CAPACITY + 1
    ensures PushBacks(n).size == n
    decreases n
  {
    if n > 0 {
      PushBacksSucceed(n - 1);
      PushBacksAreLinear(n - 1);
      PushBackSucceeds(PushBacks(n - 1));
    }
  }

  lemma PushBackSucceeds(r: Run)
    requires r.size <= r.cap && r.size <= GROWABLE_CAPACITY
    ensures PushBack(r).size == r.size + 1
  {
    if r.size == r.cap {
      GrowthFailsIff(r.cap, r.size + 1);
    }
  }
}
