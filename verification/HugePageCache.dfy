/** The lock-free cache of 2 MiB pages: two Treiber stacks of slot indices, one of free slots and one of
    used ones, with tagged heads. Each atomic operation is one step, any number of threads interleave,
    and memory is sequentially consistent. Heads carry the full update count as tag; the
    compare-and-swap sees only its low 48 bits. */
module HugePageCache {

  const INVALID: nat := 0xFFFF
  const TAG_RANGE: nat := 0x1_0000_0000_0000
  const HUGE_PAGE_SIZE: nat := 0x20_0000

  datatype Head = Head(index: nat, tag: nat)
  datatype Stack = Free | Used
  datatype Op = Get | Put(page: nat)

  datatype Pc =
    | Idle
    | PopLoaded(op: Op, seen: Head)
    | PopRead(op: Op, seen: Head, succ: nat)
    | Popped(op: Op, index: nat, taken: nat)  // `taken` records the page in the slot at the moment of the pop
    | PushStart(op: Op, index: nat, value: nat)
    | PushLoaded(op: Op, index: nat, value: nat, seen: Head)
    | PushStored(op: Op, index: nat, value: nat, seen: Head)
    | Done(op: Op, success: bool, value: nat)
  {
    /** The slot this thread owns exclusively, if any. */
    predicate Holds(i: nat) {
      (Popped? || PushStart? || PushLoaded? || PushStored?) && index == i
    }
  }

  datatype State = State(free: Head, used: Head, next: seq<nat>, page: seq<nat>, threads: seq<Pc>)
  {
    function HeadOf(k: Stack): Head {
      match k case Free => free case Used => used
    }
    function WithHead(k: Stack, h: Head): State {
      match k case Free => this.(free := h) case Used => this.(used := h)
    }
    function At(t: nat, pc: Pc): State
      requires t < |threads|
    {
      this.(threads := threads[t := pc])
    }
  }

  /** What the scheduler may choose for the thread that runs: the call it starts, and whether a weak
      compare-and-swap fails spuriously. */
  datatype Choice = Choice(call: Op, spurious: bool)

  function PopFrom(op: Op): Stack { if op.Get? then Used else Free }
  function PushTo(op: Op): Stack { if op.Get? then Free else Used }

  predicate CasMatches(h: Head, seen: Head)
  {
    h.index == seen.index && h.tag % TAG_RANGE == seen.tag % TAG_RANGE
  }

  function AfterPopLoad(op: Op, h: Head): Pc
  {
    if h.index == INVALID then Done(op, false, 0) else PopLoaded(op, h)
  }

  /** One atomic operation of thread `t`. */
  function Step(s: State, t: nat, c: Choice): State
    requires t < |s.threads| && Indexable(s)
  {
    match s.threads[t]
    case Idle => s.At(t, AfterPopLoad(c.call, s.HeadOf(PopFrom(c.call))))
    case PopLoaded(op, seen) => s.At(t, PopRead(op, seen, s.next[seen.index]))
    case PopRead(op, seen, succ) =>
      var h := s.HeadOf(PopFrom(op));
      if CasMatches(h, seen) && !c.spurious then
        s.WithHead(PopFrom(op), Head(succ, h.tag + 1)).At(t, Popped(op, seen.index, s.page[seen.index]))
      else
        s.At(t, AfterPopLoad(op, h))
    case Popped(op, index, _) =>
      (match op
       case Get => s.At(t, PushStart(op, index, s.page[index]))
       case Put(p) => s.(page := s.page[index := p]).At(t, PushStart(op, index, p)))
    case PushStart(op, index, value) => s.At(t, PushLoaded(op, index, value, s.HeadOf(PushTo(op))))
    case PushLoaded(op, index, value, seen) =>
      s.(next := s.next[index := seen.index]).At(t, PushStored(op, index, value, seen))
    case PushStored(op, index, value, seen) =>
      var h := s.HeadOf(PushTo(op));
      if CasMatches(h, seen) && !c.spurious then
        s.WithHead(PushTo(op), Head(index, h.tag + 1)).At(t, Done(op, true, value))
      else
        s.At(t, PushLoaded(op, index, value, h))
    case Done(_, _, _) => s.At(t, Idle)
  }

  /** The slot indices threads carry are inside the arrays. */
  ghost predicate Indexable(s: State)
  {
    && |s.next| == |s.page|
    && (forall t :: 0 <= t < |s.threads| ==> PcIndexable(s.threads[t], |s.next|))
  }

  ghost predicate PcIndexable(pc: Pc, n: nat)
  {
    && (pc.PopLoaded? || pc.PopRead? ==> pc.seen.index < n)
    && (pc.Popped? || pc.PushStart? || pc.PushLoaded? || pc.PushStored? ==> pc.index < n)
  }

  /** Fewer than 2^48 updates happened to the head since a popping thread loaded it. */
  predicate Timely(s: State, t: nat)
    requires t < |s.threads|
  {
    var pc := s.threads[t];
    pc.PopRead? ==> s.HeadOf(PopFrom(pc.op)).tag < pc.seen.tag + TAG_RANGE
  }

  // ----- The invariant -----

  ghost predicate Distinct(l: seq<nat>)
  {
    forall i, j :: 0 <= i < j < |l| ==> l[i] != l[j]
  }

  /** Following `next` from `head` visits exactly the slots of `l`, in order. */
  ghost predicate IsStack(next: seq<nat>, head: nat, l: seq<nat>)
  {
    && (forall i :: 0 <= i < |l| ==> l[i] < |next|)
    && Distinct(l)
    && head == (if l == [] then INVALID else l[0])
    && (forall i, j :: 0 <= i && j < |l| && j == i + 1 ==> next[l[i]] == l[j])
    && (l != [] ==> next[l[|l| - 1]] == INVALID)
  }

  /** A loaded head is current or has been left behind by the tag. */
  ghost predicate NotAhead(seen: Head, h: Head)
  {
    seen.tag <= h.tag && (seen.tag == h.tag ==> seen == h)
  }

  ghost predicate PcOk(s: State, pc: Pc)
    requires |s.next| == |s.page| && PcIndexable(pc, |s.next|)
  {
    && (pc.PopLoaded? || pc.PopRead? ==> NotAhead(pc.seen, s.HeadOf(PopFrom(pc.op))))
    && (pc.PopRead? && pc.seen == s.HeadOf(PopFrom(pc.op)) ==> pc.succ == s.next[pc.seen.index])
    && (pc.Popped? && pc.op.Get? ==> pc.taken == s.page[pc.index])
    && ((pc.PushStart? || pc.PushLoaded? || pc.PushStored?) && pc.op.Put? ==>
          pc.value == pc.op.page == s.page[pc.index])
    && (pc.PushStored? ==> s.next[pc.index] == pc.seen.index)
  }

  /** The free stack, the used stack and the threads' hands partition the slots. */
  ghost predicate Partition(s: State, f: seq<nat>, u: seq<nat>)
  {
    && (forall i :: i in f ==> i !in u)
    && (forall t, i :: 0 <= t < |s.threads| && s.threads[t].Holds(i) ==> i !in f && i !in u)
    && (forall t1, t2, i :: 0 <= t1 < t2 < |s.threads| && s.threads[t1].Holds(i) ==> !s.threads[t2].Holds(i))
    && (forall i :: 0 <= i < |s.next| ==> i in f || i in u || exists t :: 0 <= t < |s.threads| && s.threads[t].Holds(i))
  }

  ghost predicate Inv(s: State, f: seq<nat>, u: seq<nat>)
  {
    && Indexable(s) && |s.next| < INVALID
    && IsStack(s.next, s.free.index, f) && IsStack(s.next, s.used.index, u)
    && (forall t :: 0 <= t < |s.threads| ==> PcOk(s, s.threads[t]))
    && Partition(s, f, u)
  }

  // ----- The stacks after a step -----

  ghost predicate PopsNow(s: State, t: nat, c: Choice, k: Stack)
    requires t < |s.threads|
  {
    var pc := s.threads[t];
    pc.PopRead? && PopFrom(pc.op) == k && CasMatches(s.HeadOf(k), pc.seen) && !c.spurious
  }

  ghost predicate PushesNow(s: State, t: nat, c: Choice, k: Stack)
    requires t < |s.threads|
  {
    var pc := s.threads[t];
    pc.PushStored? && PushTo(pc.op) == k && CasMatches(s.HeadOf(k), pc.seen) && !c.spurious
  }

  ghost function ListAfter(s: State, t: nat, c: Choice, k: Stack, l: seq<nat>): seq<nat>
    requires t < |s.threads|
  {
    if PopsNow(s, t, c, k) && l != [] then l[1..]
    else if PushesNow(s, t, c, k) then [s.threads[t].index] + l
    else l
  }

  /** What a step writes: at most one link, one page, one head, and its own thread's position. */
  ghost predicate Effects(s: State, t: nat, c: Choice, s': State)
    requires t < |s.threads| && Indexable(s)
  {
    var pc := s.threads[t];
    && s'.next == (if pc.PushLoaded? then s.next[pc.index := pc.seen.index] else s.next)
    && s'.page == (if pc.Popped? && pc.op.Put? then s.page[pc.index := pc.op.page] else s.page)
    && HeadEffect(s, t, c, Free, s'.free) && HeadEffect(s, t, c, Used, s'.used)
    && |s'.threads| == |s.threads| && s'.threads == s.threads[t := s'.threads[t]]
  }

  ghost predicate HeadEffect(s: State, t: nat, c: Choice, k: Stack, h': Head)
    requires t < |s.threads|
  {
    var pc, h := s.threads[t], s.HeadOf(k);
    h' == if PopsNow(s, t, c, k) then Head(pc.succ, h.tag + 1)
        else if PushesNow(s, t, c, k) then Head(pc.index, h.tag + 1) else h
  }

  lemma StepEffects(s: State, t: nat, c: Choice)
    requires t < |s.threads| && Indexable(s)
    ensures Effects(s, t, c, Step(s, t, c))
  {
    assert PcIndexable(s.threads[t], |s.next|);
  }

  /** A compare-and-swap of a pop that succeeds in time found the head it loaded, and installs that slot's
      successor in the current stack: the A-B-A exchange cannot happen. */
  lemma PopInstallsTrueSuccessor(s: State, t: nat, c: Choice, k: Stack, f: seq<nat>, u: seq<nat>)
    requires Inv(s, f, u) && t < |s.threads| && Timely(s, t) && PopsNow(s, t, c, k)
    ensures var l := if k.Free? then f else u;
      var pc := s.threads[t];
      && l != [] && pc.seen == s.HeadOf(k) && pc.seen.index == l[0]
      && pc.succ == (if |l| == 1 then INVALID else l[1])
      && Step(s, t, c).HeadOf(k) == Head(pc.succ, s.HeadOf(k).tag + 1)
  {
    var pc := s.threads[t];
    var h := s.HeadOf(k);
    assert PcOk(s, pc);
    EqualResidues(pc.seen.tag, h.tag);
    var l := if k.Free? then f else u;
    assert IsStack(s.next, h.index, l);
    assert |l| > 1 ==> s.next[l[0]] == l[1];
  }

  lemma EqualResidues(a: nat, b: nat)
    requires a <= b < a + TAG_RANGE && a % TAG_RANGE == b % TAG_RANGE
    ensures a == b
  {
  }

  // ----- Preservation -----

  lemma PopKeepsStack(next: seq<nat>, l: seq<nat>)
    requires l != [] && IsStack(next, l[0], l)
    ensures IsStack(next, if |l| == 1 then INVALID else l[1], l[1..])
    ensures l[0] !in l[1..]
  {
    var r := l[1..];
    assert forall i :: 0 <= i < |r| ==> r[i] == l[i + 1];
  }

  lemma PushKeepsStack(next: seq<nat>, head: nat, l: seq<nat>, index: nat)
    requires IsStack(next, head, l) && index < |next| && index !in l && next[index] == head
    ensures IsStack(next, index, [index] + l)
  {
    var r := [index] + l;
    assert forall i :: 0 < i < |r| ==> r[i] == l[i - 1] && r[i] in l;
    forall i, j | 0 <= i && j < |r| && j == i + 1 ensures next[r[i]] == r[j] {
      if i > 0 {
        assert r[i] == l[i - 1] && r[j] == l[i];
      }
    }
  }

  /** Writing the link of a slot outside the stack leaves the stack alone. */
  lemma StoreKeepsStack(next: seq<nat>, head: nat, l: seq<nat>, index: nat, v: nat)
    requires IsStack(next, head, l) && index < |next| && index !in l
    ensures IsStack(next[index := v], head, l)
  {
    assert forall i :: 0 <= i < |l| ==> l[i] in l;
  }

  lemma StepKeepsStacks(s: State, t: nat, c: Choice, k: Stack, f: seq<nat>, u: seq<nat>)
    requires Inv(s, f, u) && t < |s.threads| && Timely(s, t)
    ensures var l := if k.Free? then f else u;
      var s' := Step(s, t, c);
      IsStack(s'.next, s'.HeadOf(k).index, ListAfter(s, t, c, k, l))
  {
    StepEffects(s, t, c);
    StackAfterEffects(s, t, c, k, f, u, Step(s, t, c));
  }

  lemma StackAfterEffects(s: State, t: nat, c: Choice, k: Stack, f: seq<nat>, u: seq<nat>, s': State)
    requires Inv(s, f, u) && t < |s.threads| && Timely(s, t) && Effects(s, t, c, s')
    ensures var l := if k.Free? then f else u;
      IsStack(s'.next, s'.HeadOf(k).index, ListAfter(s, t, c, k, l))
  {
    var l := if k.Free? then f else u;
    var pc := s.threads[t];
    if PopsNow(s, t, c, k) {
      PopInstallsTrueSuccessor(s, t, c, k, f, u);
      PopKeepsStack(s.next, l);
    } else if PushesNow(s, t, c, k) {
      assert pc.Holds(pc.index) && PcOk(s, pc);
      PushKeepsStack(s.next, s.HeadOf(k).index, l, pc.index);
    } else if pc.PushLoaded? {
      assert pc.Holds(pc.index);
      StoreKeepsStack(s.next, s.HeadOf(k).index, l, pc.index, pc.seen.index);
    }
  }

  lemma StepKeepsPcs(s: State, t: nat, c: Choice, f: seq<nat>, u: seq<nat>, r: nat)
    requires Inv(s, f, u) && t < |s.threads| && Timely(s, t) && r < |s.threads|
    ensures var s' := Step(s, t, c);
      |s'.next| == |s'.page| == |s.next| && |s'.threads| == |s.threads| &&
      PcIndexable(s'.threads[r], |s'.next|) && PcOk(s', s'.threads[r])
  {
    var s' := Step(s, t, c);
    var pc := s.threads[t];
    assert PcOk(s, pc) && PcIndexable(pc, |s.next|);
    assert IsStack(s.next, s.free.index, f) && IsStack(s.next, s.used.index, u);
    StepEffects(s, t, c);
    if r != t {
      OthersUndisturbed(s, t, c, f, u, r, s');
    }
  }

  /** A thread's step cannot touch what another thread owns or has correctly read. */
  lemma OthersUndisturbed(s: State, t: nat, c: Choice, f: seq<nat>, u: seq<nat>, r: nat, s': State)
    requires Inv(s, f, u) && t < |s.threads| && r < |s.threads| && r != t && Effects(s, t, c, s')
    ensures |s'.next| == |s'.page| == |s.next|
    ensures PcIndexable(s.threads[r], |s'.next|) && PcOk(s', s.threads[r])
    ensures forall i: nat :: s.threads[r].Holds(i) ==>
            i < |s.next| && s'.next[i] == s.next[i] && s'.page[i] == s.page[i]
  {
    var pc, other := s.threads[t], s.threads[r];
    assert PcOk(s, other) && PcIndexable(other, |s.next|) && PcIndexable(pc, |s.next|);
    if pc.PushLoaded? || pc.Popped? {
      assert pc.Holds(pc.index);
      assert forall i :: other.Holds(i) ==> i != pc.index;
      if other.PopRead? && other.seen == s.HeadOf(PopFrom(other.op)) {
        TopIsNotHeld(s, f, u, PopFrom(other.op), t);
      }
    }
  }

  /** No thread holds the slot on top of a stack. */
  lemma TopIsNotHeld(s: State, f: seq<nat>, u: seq<nat>, k: Stack, t: nat)
    requires Inv(s, f, u) && t < |s.threads|
    ensures s.HeadOf(k).index < |s.next| ==> !s.threads[t].Holds(s.HeadOf(k).index)
  {
    var l := if k.Free? then f else u;
    assert IsStack(s.next, s.HeadOf(k).index, l);
    assert l != [] ==> l[0] in l;
  }

  lemma StepKeepsPartition(s: State, t: nat, c: Choice, f: seq<nat>, u: seq<nat>)
    requires Inv(s, f, u) && t < |s.threads| && Timely(s, t)
    ensures Partition(Step(s, t, c), ListAfter(s, t, c, Free, f), ListAfter(s, t, c, Used, u))
  {
    var pc := s.threads[t];
    if PopsNow(s, t, c, Free) {
      PopInstallsTrueSuccessor(s, t, c, Free, f, u);
      PartitionAfterPop(s, Step(s, t, c), t, f, u);
    } else if PopsNow(s, t, c, Used) {
      PopInstallsTrueSuccessor(s, t, c, Used, f, u);
      PartitionSwap(s, f, u);
      PartitionAfterPop(s, Step(s, t, c), t, u, f);
      PartitionSwap(Step(s, t, c), u[1..], f);
    } else if PushesNow(s, t, c, Free) {
      PartitionAfterPush(s, Step(s, t, c), t, f, u);
    } else if PushesNow(s, t, c, Used) {
      PartitionSwap(s, f, u);
      PartitionAfterPush(s, Step(s, t, c), t, u, f);
      PartitionSwap(Step(s, t, c), [pc.index] + u, f);
    } else {
      PartitionSameHands(s, Step(s, t, c), t, f, u);
    }
  }

  lemma PartitionSwap(s: State, f: seq<nat>, u: seq<nat>)
    requires Partition(s, f, u)
    ensures Partition(s, u, f)
  {
  }

  lemma PartitionSameHands(s: State, s': State, t: nat, f: seq<nat>, u: seq<nat>)
    requires Partition(s, f, u) && t < |s.threads| && |s'.next| == |s.next|
    requires |s'.threads| == |s.threads| && s'.threads == s.threads[t := s'.threads[t]]
    requires forall i: nat :: s'.threads[t].Holds(i) <==> s.threads[t].Holds(i)
    ensures Partition(s', f, u)
  {
    forall r, i: nat | 0 <= r < |s.threads| ensures s'.threads[r].Holds(i) <==> s.threads[r].Holds(i) {
    }
    forall i: nat | i < |s'.next| && i !in f && i !in u
      ensures exists r :: 0 <= r < |s'.threads| && s'.threads[r].Holds(i) {
      var r :| 0 <= r < |s.threads| && s.threads[r].Holds(i);
      assert s'.threads[r].Holds(i);
    }
  }

  lemma PartitionAfterPop(s: State, s': State, t: nat, l: seq<nat>, m: seq<nat>)
    requires Partition(s, l, m) && t < |s.threads| && |s'.next| == |s.next|
    requires l != [] && Distinct(l)
    requires |s'.threads| == |s.threads| && s'.threads == s.threads[t := s'.threads[t]]
    requires forall i: nat :: !s.threads[t].Holds(i)
    requires forall i: nat :: s'.threads[t].Holds(i) <==> i == l[0]
    ensures Partition(s', l[1..], m)
  {
    assert l == [l[0]] + l[1..];
    assert l[0] in l && l[0] !in l[1..];
    forall i: nat | i < |s'.next| && i !in l[1..] && i !in m
      ensures exists r :: 0 <= r < |s'.threads| && s'.threads[r].Holds(i) {
      if i == l[0] {
        assert s'.threads[t].Holds(i);
      } else {
        var r :| 0 <= r < |s.threads| && s.threads[r].Holds(i);
        assert s'.threads[r].Holds(i);
      }
    }
  }

  lemma PartitionAfterPush(s: State, s': State, t: nat, l: seq<nat>, m: seq<nat>)
    requires Partition(s, l, m) && t < |s.threads| && |s'.next| == |s.next|
    requires s.threads[t].PushStored?
    requires |s'.threads| == |s.threads| && s'.threads == s.threads[t := s'.threads[t]]
    requires forall i: nat :: !s'.threads[t].Holds(i)
    ensures Partition(s', [s.threads[t].index] + l, m)
  {
    var x := s.threads[t].index;
    var r := [x] + l;
    assert s.threads[t].Holds(x);
    assert forall i :: i in r <==> i == x || i in l;
    forall i: nat | i < |s'.next| && i !in r && i !in m
      ensures exists k :: 0 <= k < |s'.threads| && s'.threads[k].Holds(i) {
      var k :| 0 <= k < |s.threads| && s.threads[k].Holds(i);
      assert s'.threads[k].Holds(i);
    }
  }

  /** Every timely step keeps the invariant, with the stacks changed as the step says. */
  lemma StepKeepsInv(s: State, t: nat, c: Choice, f: seq<nat>, u: seq<nat>)
    requires Inv(s, f, u) && t < |s.threads| && Timely(s, t)
    ensures Inv(Step(s, t, c), ListAfter(s, t, c, Free, f), ListAfter(s, t, c, Used, u))
  {
    var s' := Step(s, t, c);
    forall r | 0 <= r < |s'.threads| ensures PcIndexable(s'.threads[r], |s'.next|) && PcOk(s', s'.threads[r]) {
      StepKeepsPcs(s, t, c, f, u, r);
    }
    StepKeepsPcs(s, t, c, f, u, t);
    StepKeepsStacks(s, t, c, Free, f, u);
    StepKeepsStacks(s, t, c, Used, f, u);
    StepKeepsPartition(s, t, c, f, u);
  }

  // ----- Runs -----

  datatype Action = Action(thread: nat, choice: Choice)

  /** A pointer `SystemFree` may cache: not null and aligned to a huge page. */
  predicate IsHugePageAligned(p: nat)
  {
    p != 0 && p % HUGE_PAGE_SIZE == 0
  }

  /** The cache as constructed: all slots on the free stack, no thread inside a call. */
  ghost predicate Initial(s: State)
  {
    && 0 < |s.next| < INVALID && |s.page| == |s.next|
    && (forall i :: 0 <= i < |s.next| ==> s.next[i] == if i == |s.next| - 1 then INVALID else i + 1)
    && s.free == Head(0, 0) && s.used == Head(INVALID, 0)
    && (forall t :: 0 <= t < |s.threads| ==> s.threads[t] == Idle)
  }

  ghost predicate IsStep(s: State, a: Action, s': State)
  {
    Indexable(s) && a.thread < |s.threads| && Timely(s, a.thread) && s' == Step(s, a.thread, a.choice)
  }

  ghost predicate IsRun(states: seq<State>, actions: seq<Action>)
  {
    && |states| == |actions| + 1 && Initial(states[0])
    && (forall i :: 0 <= i < |actions| ==> IsStep(states[i], actions[i], states[i + 1]))
  }

  lemma InitialInv(s: State)
    requires Initial(s)
    ensures Inv(s, seq(|s.next|, i => i), [])
  {
    var all := seq(|s.next|, i => i);
    forall i | 0 <= i < |s.next| ensures i in all {
      assert all[i] == i;
    }
  }

  /** What a step does to the cache as its callers see it. */
  datatype Event = Internal | Stored(page: nat) | Taken(page: nat) | FoundEmpty

  ghost function EventOf(s: State, t: nat, c: Choice): Event
    requires t < |s.threads| && Indexable(s)
  {
    var pc := s.threads[t];
    if PushesNow(s, t, c, Used) then Stored(pc.value)
    else if PopsNow(s, t, c, Used) then Taken(s.page[pc.seen.index])
    else if Step(s, t, c).threads[t] == Done(Get, false, 0) then FoundEmpty
    else Internal
  }

  /** The pages on the used stack, top first. */
  ghost function Contents(s: State, u: seq<nat>): seq<nat>
    requires forall i :: 0 <= i < |u| ==> u[i] < |s.page|
  {
    seq(|u|, i requires 0 <= i < |u| => s.page[u[i]])
  }

  /** The specification: a last-in, first-out stack of pages. */
  ghost predicate StackStep(before: seq<nat>, e: Event, after: seq<nat>)
  {
    match e
    case Internal => after == before
    case Stored(p) => after == [p] + before
    case Taken(p) => before == [p] + after
    case FoundEmpty => before == [] && after == before
  }

  /** Outside the successful exchanges on the used stack, no step changes a page on it. */
  lemma CachedPagesUntouched(s: State, t: nat, c: Choice, f: seq<nat>, u: seq<nat>)
    requires Inv(s, f, u) && t < |s.threads|
    ensures |Step(s, t, c).page| == |s.page|
    ensures forall i :: 0 <= i < |u| ==> u[i] < |s.page| && Step(s, t, c).page[u[i]] == s.page[u[i]]
  {
    StepEffects(s, t, c);
    var pc := s.threads[t];
    assert pc.Popped? ==> pc.Holds(pc.index) && pc.index !in u;
    assert forall i :: 0 <= i < |u| ==> u[i] in u;
  }

  /** A `Get` that gives up has just seen an empty used stack. */
  lemma EmptyMeansEmpty(s: State, t: nat, c: Choice, f: seq<nat>, u: seq<nat>)
    requires Inv(s, f, u) && t < |s.threads| && EventOf(s, t, c).FoundEmpty?
    ensures u == [] && ListAfter(s, t, c, Used, u) == u
  {
  }

  /** Each step of each thread refines one step of the specification. */
  lemma StepRefinesStack(s: State, t: nat, c: Choice, f: seq<nat>, u: seq<nat>)
    requires Inv(s, f, u) && t < |s.threads| && Timely(s, t)
    ensures var s', u' := Step(s, t, c), ListAfter(s, t, c, Used, u);
      (forall i :: 0 <= i < |u'| ==> u'[i] < |s'.page|) && StackStep(Contents(s, u), EventOf(s, t, c), Contents(s', u'))
  {
    assert PcOk(s, s.threads[t]);
    StepEffects(s, t, c);
    var s', e := Step(s, t, c), EventOf(s, t, c);
    if e.FoundEmpty? {
      EmptyMeansEmpty(s, t, c, f, u);
    }
    CachedPagesUntouched(s, t, c, f, u);
    if PopsNow(s, t, c, Used) {
      PopInstallsTrueSuccessor(s, t, c, Used, f, u);
    }
    ContentsAfter(s, t, c, f, u, s');
    var pc, pops, pushes := s.threads[t], PopsNow(s, t, c, Used), PushesNow(s, t, c, Used);
    EventIsStackStep(Contents(s, u), e, Contents(s', ListAfter(s, t, c, Used, u)), pops, pushes,
                     if pops then s.page[pc.seen.index] else 0, if pushes then pc.value else 0);
  }

  lemma EventIsStackStep(before: seq<nat>, e: Event, after: seq<nat>, pops: bool, pushes: bool, page: nat, value: nat)
    requires pops ==> !pushes && before != [] && before[0] == page && e == Taken(page)
    requires pushes ==> e == Stored(value)
    requires !pops && !pushes ==> e == Internal || (e == FoundEmpty && before == [])
    requires after == if pops then before[1..] else if pushes then [value] + before else before
    ensures StackStep(before, e, after)
  {
  }

  lemma ContentsAfter(s: State, t: nat, c: Choice, f: seq<nat>, u: seq<nat>, s': State)
    requires Inv(s, f, u) && t < |s.threads| && |s'.page| == |s.page|
    requires forall i :: 0 <= i < |u| ==> u[i] < |s.page| && s'.page[u[i]] == s.page[u[i]]
    requires PopsNow(s, t, c, Used) ==> u != [] && s.threads[t].seen.index == u[0]
    requires PushesNow(s, t, c, Used) ==> s'.page[s.threads[t].index] == s.threads[t].value
    ensures var u' := ListAfter(s, t, c, Used, u);
      && (forall i :: 0 <= i < |u'| ==> u'[i] < |s'.page|)
      && Contents(s', u') == (if PopsNow(s, t, c, Used) then Contents(s, u)[1..]
                              else if PushesNow(s, t, c, Used) then [s.threads[t].value] + Contents(s, u)
                                  else Contents(s, u))
      && (PopsNow(s, t, c, Used) ==> Contents(s, u)[0] == s.page[s.threads[t].seen.index])
  {
    assert Contents(s', u) == Contents(s, u);
  }

  ghost function Log(states: seq<State>, actions: seq<Action>): seq<Event>
    requires IsRun(states, actions)
  {
    seq(|actions|, i requires 0 <= i < |actions| => assert IsStep(states[i], actions[i], states[i + 1]);
      EventOf(states[i], actions[i].thread, actions[i].choice))
  }

  /** `history` is a run of the specification with the given events. */
  ghost predicate IsStackHistory(history: seq<seq<nat>>, log: seq<Event>)
  {
    && |history| == |log| + 1 && history[0] == []
    && (forall i :: 0 <= i < |log| ==> StackStep(history[i], log[i], history[i + 1]))
  }

  /** Over every interleaving of any number of threads the slots stay partitioned and the cache behaves as
      one stack of pages. */
  lemma {:induction false} RunIsLinearizable(states: seq<State>, actions: seq<Action>)
    returns (f: seq<nat>, u: seq<nat>, history: seq<seq<nat>>)
    requires IsRun(states, actions)
    ensures Inv(states[|actions|], f, u)
    ensures IsStackHistory(history, Log(states, actions)) && history[|actions|] == Contents(states[|actions|], u)
    decreases |actions|
  {
    var n := |actions|;
    if n == 0 {
      InitialInv(states[0]);
      f, u, history := seq(|states[0].next|, i => i), [], [[]];
    } else {
      RunPrefix(states, actions, n - 1);
      f, u, history := RunIsLinearizable(states[..n], actions[..n - 1]);
      var s, a := states[n - 1], actions[n - 1];
      assert IsStep(s, a, states[n]);
      StepKeepsInv(s, a.thread, a.choice, f, u);
      StepRefinesStack(s, a.thread, a.choice, f, u);
      f, u := ListAfter(s, a.thread, a.choice, Free, f), ListAfter(s, a.thread, a.choice, Used, u);
      HistoryExtends(history, Log(states, actions), Contents(states[n], u));
      history := history + [Contents(states[n], u)];
    }
  }

  lemma RunPrefix(states: seq<State>, actions: seq<Action>, k: nat)
    requires IsRun(states, actions) && k <= |actions|
    ensures IsRun(states[..k + 1], actions[..k]) && Log(states[..k + 1], actions[..k]) == Log(states, actions)[..k]
  {
    forall i | 0 <= i < k ensures IsStep(states[..k + 1][i], actions[..k][i], states[..k + 1][i + 1]) {
      assert IsStep(states[i], actions[i], states[i + 1]);
    }
    assert IsRun(states[..k + 1], actions[..k]);
  }

  lemma HistoryExtends(history: seq<seq<nat>>, log: seq<Event>, last: seq<nat>)
    requires log != [] && IsStackHistory(history, log[..|log| - 1])
    requires StackStep(history[|log| - 1], log[|log| - 1], last)
    ensures IsStackHistory(history + [last], log)
  {
    var h, n := history + [last], |log|;
    forall i | 0 <= i < n ensures StackStep(h[i], log[i], h[i + 1]) {
      if i < n - 1 {
        assert log[..n - 1][i] == log[i];
      }
    }
  }

  ghost function StoredPages(log: seq<Event>): multiset<nat>
  {
    if log == [] then multiset{} else
      var l := log[|log| - 1];
      StoredPages(log[..|log| - 1]) + if l.Stored? then multiset{l.page} else multiset{}
  }

  ghost function TakenPages(log: seq<Event>): multiset<nat>
  {
    if log == [] then multiset{} else
      var l := log[|log| - 1];
      TakenPages(log[..|log| - 1]) + if l.Taken? then multiset{l.page} else multiset{}
  }

  /** Pages are conserved: what was stored is what was taken plus what is cached, so each page stored is
      handed out at most once. */
  lemma {:induction false} PagesConserved(history: seq<seq<nat>>, log: seq<Event>)
    requires IsStackHistory(history, log)
    ensures StoredPages(log) == TakenPages(log) + multiset(history[|log|])
    decreases |log|
  {
    var n := |log|;
    if n > 0 {
      PagesConserved(history[..n], log[..n - 1]);
      assert StackStep(history[n - 1], log[n - 1], history[n]);
    }
  }

  // ----- Return values -----

  /** The thread is inside a `Get` that took `p`, or has just returned from it. */
  ghost predicate Carries(pc: Pc, p: nat)
  {
    && !pc.Idle? && pc.op.Get?
    && (if pc.Popped? then pc.taken == p
        else (pc.PushStart? || pc.PushLoaded? || pc.PushStored? || (pc.Done? && pc.success)) && pc.value == p)
  }

  lemma CarriedPageStays(s: State, a: Action, s': State, f: seq<nat>, u: seq<nat>, t: nat, p: nat)
    requires Inv(s, f, u) && IsStep(s, a, s') && t < |s.threads| && Carries(s.threads[t], p)
    ensures s'.threads[t] == Idle || Carries(s'.threads[t], p)
  {
    assert PcOk(s, s.threads[t]);
  }

  lemma TakingThreadCarries(s: State, a: Action, s': State, f: seq<nat>, u: seq<nat>)
    requires Inv(s, f, u) && IsStep(s, a, s') && EventOf(s, a.thread, a.choice).Taken?
    ensures Carries(s'.threads[a.thread], EventOf(s, a.thread, a.choice).page)
  {
  }

  lemma InvAlongRun(states: seq<State>, actions: seq<Action>, k: nat) returns (f: seq<nat>, u: seq<nat>)
    requires IsRun(states, actions) && k <= |actions|
    ensures Inv(states[k], f, u)
  {
    RunPrefix(states, actions, k);
    var history;
    f, u, history := RunIsLinearizable(states[..k + 1], actions[..k]);
  }

  /** A `Get` returns the page it took from the stack, whatever the other threads did in between. */
  lemma {:induction false} GetReturnsTakenPage(states: seq<State>, actions: seq<Action>, i: nat, j: nat, t: nat, p: nat)
    requires IsRun(states, actions) && i < j <= |actions| && t == actions[i].thread
    requires IsStep(states[i], actions[i], states[i + 1])
    requires EventOf(states[i], t, actions[i].choice) == Taken(p)
    requires forall k :: i < k <= j ==> t < |states[k].threads| && states[k].threads[t] != Idle
    ensures Carries(states[j].threads[t], p)
    decreases j
  {
    var f, u := InvAlongRun(states, actions, j - 1);
    assert IsStep(states[j - 1], actions[j - 1], states[j]);
    if j == i + 1 {
      TakingThreadCarries(states[i], actions[i], states[j], f, u);
    } else {
      GetReturnsTakenPage(states, actions, i, j - 1, t, p);
      CarriedPageStays(states[j - 1], actions[j - 1], states[j], f, u, t, p);
    }
  }

  // ----- Only aligned pages come out -----

  ghost predicate AllAligned(s: State, u: seq<nat>)
  {
    && (forall i :: i in u && i < |s.page| ==> IsHugePageAligned(s.page[i]))
    && (forall t :: 0 <= t < |s.threads| ==> PcAligned(s.threads[t]))
  }

  ghost predicate PcAligned(pc: Pc)
  {
    && (!pc.Idle? && pc.op.Put? ==> IsHugePageAligned(pc.op.page))
    && (!pc.Idle? && pc.op.Get? ==>
          && (pc.Popped? ==> IsHugePageAligned(pc.taken))
          && (pc.PushStart? || pc.PushLoaded? || pc.PushStored? || (pc.Done? && pc.success) ==>
              IsHugePageAligned(pc.value)))
  }

  lemma StepKeepsAligned(s: State, a: Action, s': State, f: seq<nat>, u: seq<nat>)
    requires Inv(s, f, u) && AllAligned(s, u) && IsStep(s, a, s')
    requires a.choice.call.Put? ==> IsHugePageAligned(a.choice.call.page)
    ensures AllAligned(s', ListAfter(s, a.thread, a.choice, Used, u))
  {
    StepEffects(s, a.thread, a.choice);
    if PopsNow(s, a.thread, a.choice, Used) {
      PopInstallsTrueSuccessor(s, a.thread, a.choice, Used, f, u);
    }
    OwnPcStaysAligned(s, a, s', f, u);
    forall t | 0 <= t < |s'.threads| ensures PcAligned(s'.threads[t]) {
      if t != a.thread {
        assert s'.threads[t] == s.threads[t];
      }
    }
    StackedPagesStayAligned(s, a, s', f, u);
  }

  lemma OwnPcStaysAligned(s: State, a: Action, s': State, f: seq<nat>, u: seq<nat>)
    requires Inv(s, f, u) && AllAligned(s, u) && IsStep(s, a, s')
    requires a.choice.call.Put? ==> IsHugePageAligned(a.choice.call.page)
    requires PopsNow(s, a.thread, a.choice, Used) ==> u != [] && s.threads[a.thread].seen.index == u[0]
    ensures PcAligned(s'.threads[a.thread])
  {
    var pc := s.threads[a.thread];
    assert PcOk(s, pc) && PcAligned(pc);
    assert u != [] ==> u[0] in u;
  }

  lemma StackedPagesStayAligned(s: State, a: Action, s': State, f: seq<nat>, u: seq<nat>)
    requires Inv(s, f, u) && AllAligned(s, u) && a.thread < |s.threads| && Effects(s, a.thread, a.choice, s')
    ensures forall i :: i in ListAfter(s, a.thread, a.choice, Used, u) && i < |s'.page| ==>
            IsHugePageAligned(s'.page[i])
  {
    var pc := s.threads[a.thread];
    assert PcOk(s, pc) && PcAligned(pc);
    if pc.Popped? {
      assert pc.Holds(pc.index);
    }
    assert u != [] ==> forall i :: i in u[1..] ==> i in u;
  }

  /** `SystemFree` only puts aligned pages, so in every run each page `SystemAlloc` gets passes its own
      alignment test: the branch that would drop a page is never taken. */
  lemma {:induction false} CachedPagesStayAligned(states: seq<State>, actions: seq<Action>)
    returns (f: seq<nat>, u: seq<nat>)
    requires IsRun(states, actions)
    requires forall i :: 0 <= i < |actions| && actions[i].choice.call.Put? ==>
             IsHugePageAligned(actions[i].choice.call.page)
    ensures Inv(states[|actions|], f, u) && AllAligned(states[|actions|], u)
    ensures forall t :: 0 <= t < |states[|actions|].threads| ==>
              var pc := states[|actions|].threads[t];
              pc.Done? && pc.op.Get? && pc.success ==> IsHugePageAligned(pc.value)
    decreases |actions|
  {
    var n := |actions|;
    if n == 0 {
      InitialInv(states[0]);
      f, u := seq(|states[0].next|, i => i), [];
    } else {
      f, u := CachedPagesStayAligned(states[..n], actions[..n - 1]);
      var s, a := states[n - 1], actions[n - 1];
      assert IsStep(s, a, states[n]);
      StepKeepsInv(s, a.thread, a.choice, f, u);
      StepKeepsAligned(s, a, states[n], f, u);
      f, u := ListAfter(s, a.thread, a.choice, Free, f), ListAfter(s, a.thread, a.choice, Used, u);
    }
    assert forall t :: 0 <= t < |states[n].threads| ==> PcAligned(states[n].threads[t]);
  }

  // ----- A pop that comes too late -----

  /** Some run of timely steps leads to `s`. */
  ghost predicate Reachable(s: State)
  {
    exists states, actions :: IsRun(states, actions) && states[|actions|] == s
  }

  lemma ReachStep(s: State, t: nat, c: Choice)
    requires Reachable(s) && Indexable(s) && t < |s.threads| && Timely(s, t)
    ensures Reachable(Step(s, t, c))
  {
    var states, actions :| IsRun(states, actions) && states[|actions|] == s;
    var s', a := Step(s, t, c), Action(t, c);
    var states', actions' := states + [s'], actions + [a];
    assert IsStep(s, a, s');
    forall i | 0 <= i < |actions'| ensures IsStep(states'[i], actions'[i], states'[i + 1]) {
      if i < |actions| {
        assert IsStep(states[i], actions[i], states[i + 1]);
      }
    }
    assert IsRun(states', actions');
  }

  /** Reachable, and safe to step. */
  ghost predicate Ready(s: State)
  {
    Reachable(s) && Indexable(s)
  }

  /** A step of a thread whose exchange, if it is about to make one, sees the head it loaded. */
  lemma StepOn(s: State, t: nat, op: Op) returns (s': State)
    requires Ready(s) && t < |s.threads|
    requires s.threads[t].PopRead? ==> s.threads[t].seen == s.HeadOf(PopFrom(s.threads[t].op))
    requires PcIndexable(Step(s, t, Choice(op, false)).threads[t], |s.next|)
    ensures s' == Step(s, t, Choice(op, false)) && Ready(s')
  {
    s' := Step(s, t, Choice(op, false));
    ReachStep(s, t, Choice(op, false));
    StepEffects(s, t, Choice(op, false));
  }

  /** A call's pop, undisturbed: the thread ends up holding the top slot. */
  lemma PopAlone(s: State, t: nat, op: Op) returns (s': State)
    requires Ready(s) && t < |s.threads| && s.threads[t] == Idle && s.HeadOf(PopFrom(op)).index < |s.next| < INVALID
    ensures var h := s.HeadOf(PopFrom(op));
      s' == s.WithHead(PopFrom(op), Head(s.next[h.index], h.tag + 1)).At(t, Popped(op, h.index, s.page[h.index]))
    ensures Ready(s')
  {
    var s1 := StepOn(s, t, op);
    var s2 := StepOn(s1, t, op);
    s' := StepOn(s2, t, op);
    assert s'.threads == s.threads[t := s'.threads[t]];
  }

  /** The rest of the call, undisturbed: the slot, with its page, goes onto the other stack. */
  lemma PushAlone(s: State, t: nat) returns (s': State)
    requires Ready(s) && t < |s.threads| && s.threads[t].Popped?
    ensures var op, i := s.threads[t].op, s.threads[t].index;
      var h := s.HeadOf(PushTo(op));
      && i < |s.next| == |s.page|
      && s' == s.WithHead(PushTo(op), Head(i, h.tag + 1)).(next := s.next[i := h.index],
                          page := if op.Put? then s.page[i := op.page] else s.page, threads := s.threads[t := Idle])
    ensures Ready(s')
  {
    var op, i := s.threads[t].op, s.threads[t].index;
    assert PcIndexable(s.threads[t], |s.next|);
    var s1 := StepOn(s, t, op);
    var s2 := StepOn(s1, t, op);
    var s3 := StepOn(s2, t, op);
    var s4 := StepOn(s3, t, op);
    s' := StepOn(s4, t, op);
    assert s'.threads == s.threads[t := Idle];
  }

  /** A whole call, undisturbed. */
  lemma CallAlone(s: State, t: nat, op: Op) returns (s': State)
    requires Ready(s) && t < |s.threads| && s.threads[t] == Idle && s.HeadOf(PopFrom(op)).index < |s.next| < INVALID
    ensures var from, to := s.HeadOf(PopFrom(op)), s.HeadOf(PushTo(op));
      && |s.page| == |s.next|
      && s' == s.WithHead(PopFrom(op), Head(s.next[from.index], from.tag + 1))
                .WithHead(PushTo(op), Head(from.index, to.tag + 1))
                .(next := s.next[from.index := to.index],
                  page := if op.Put? then s.page[from.index := op.page] else s.page)
    ensures Ready(s')
  {
    var s1 := PopAlone(s, t, op);
    s' := PushAlone(s1, t);
    assert s'.threads == s.threads;
  }

  // The pages of the run.
  const FIRST_PAGE: nat := HUGE_PAGE_SIZE
  const SECOND_PAGE: nat := 2 * HUGE_PAGE_SIZE
  const THIRD_PAGE: nat := 3 * HUGE_PAGE_SIZE

  /** Slots 1 and 2 are cached, in this order. Thread 0 stands before the exchange of a Get that loaded slot 1 when
      slot 0 came after it; thread 2 has taken slot 0 since. The used head has been updated `4 + 2 * rounds` times
      in between. */
  ghost function Stalled(rounds: nat): State
  {
    State(Head(INVALID, 5 + 2 * rounds), Head(1, 6 + 2 * rounds), [INVALID, 2, INVALID],
          [FIRST_PAGE, SECOND_PAGE, THIRD_PAGE],
          [PopRead(Get, Head(1, 2), 0), Idle, Popped(Get, 0, FIRST_PAGE), Idle])
  }

  lemma OnePageCached() returns (s: State)
    ensures s == State(Head(1, 1), Head(0, 1), [INVALID, 2, INVALID], [FIRST_PAGE, 0, 0], [Idle, Idle, Idle, Idle])
    ensures Ready(s)
  {
    var s0 := State(Head(0, 0), Head(INVALID, 0), [1, 2, INVALID], [0, 0, 0], [Idle, Idle, Idle, Idle]);
    assert Initial(s0);
    var none: seq<Action> := [];
    assert IsRun([s0], none) && [s0][|none|] == s0;
    s := CallAlone(s0, 3, Put(FIRST_PAGE));
  }

  lemma TwoPagesCached() returns (s: State)
    ensures s == State(Head(2, 2), Head(1, 2), [INVALID, 0, INVALID], [FIRST_PAGE, SECOND_PAGE, 0],
            [Idle, Idle, Idle, Idle])
    ensures Ready(s)
  {
    var s1 := OnePageCached();
    s := CallAlone(s1, 3, Put(SECOND_PAGE));
  }

  lemma FirstThreadStalls() returns (s: State)
    ensures s == State(Head(2, 2), Head(1, 2), [INVALID, 0, INVALID], [FIRST_PAGE, SECOND_PAGE, 0],
                       [PopRead(Get, Head(1, 2), 0), Idle, Idle, Idle])
    ensures Ready(s)
  {
    var s0 := TwoPagesCached();
    var s1 := StepOn(s0, 0, Get);
    s := StepOn(s1, 0, Get);
    assert s.threads == [PopRead(Get, Head(1, 2), 0), Idle, Idle, Idle];
  }

  lemma TwoThreadsTakeBoth() returns (s: State)
    ensures s == State(Head(2, 2), Head(INVALID, 4), [INVALID, 0, INVALID], [FIRST_PAGE, SECOND_PAGE, 0],
                       [PopRead(Get, Head(1, 2), 0), Popped(Get, 1, SECOND_PAGE), Popped(Get, 0, FIRST_PAGE), Idle])
    ensures Ready(s)
  {
    var t0 := PopRead(Get, Head(1, 2), 0);
    var s0 := FirstThreadStalls();
    var s1 := PopAlone(s0, 1, Get);
    assert s1 == State(Head(2, 2), Head(0, 3), [INVALID, 0, INVALID], [FIRST_PAGE, SECOND_PAGE, 0],
                       [t0, Popped(Get, 1, SECOND_PAGE), Idle, Idle]);
    s := PopAlone(s1, 2, Get);
  }

  lemma ThirdSlotIsUsed() returns (s: State)
    ensures s == State(Head(INVALID, 3), Head(2, 5), [INVALID, 0, INVALID], [FIRST_PAGE, SECOND_PAGE, THIRD_PAGE],
                       [PopRead(Get, Head(1, 2), 0), Popped(Get, 1, SECOND_PAGE), Popped(Get, 0, FIRST_PAGE), Idle])
    ensures Ready(s)
  {
    var s0 := TwoThreadsTakeBoth();
    s := CallAlone(s0, 3, Put(THIRD_PAGE));
  }

  /** The second page, handed out by thread 1, comes back. */
  lemma OthersOvertake()
    ensures Ready(Stalled(0))
  {
    var s0 := ThirdSlotIsUsed();
    var s1 := PushAlone(s0, 1);
    assert s1 == State(Head(1, 4), Head(2, 5), [INVALID, INVALID, INVALID], [FIRST_PAGE, SECOND_PAGE, THIRD_PAGE],
                       [PopRead(Get, Head(1, 2), 0), Idle, Popped(Get, 0, FIRST_PAGE), Idle]);
    var s2 := CallAlone(s1, 3, Put(SECOND_PAGE));
    assert s2 == Stalled(0);
  }

  /** A Get by thread 3, and a Put of the page it got, bring the same slots back, two updates later. */
  lemma {:induction false} Overtaking(rounds: nat)
    ensures Ready(Stalled(rounds))
    decreases rounds
  {
    if rounds == 0 {
      OthersOvertake();
    } else {
      var s := Stalled(rounds - 1);
      Overtaking(rounds - 1);
      var s1 := CallAlone(s, 3, Get);
      assert s1.free == Head(1, 4 + 2 * rounds) && s1.used == Head(2, 5 + 2 * rounds)
             && s1.next == [INVALID, INVALID, INVALID];
      var s2 := CallAlone(s1, 3, Put(SECOND_PAGE));
      assert s2 == Stalled(rounds);
    }
  }

  /** The bound is sharp. A run of timely steps leads to a pop that comes exactly 2^48 updates after its load and
      succeeds: it installs slot 0, which is not on the stack but in the hands of another thread. */
  lemma WrappedTagAllowsAba() returns (s: State)
    ensures Reachable(s) && Inv(s, [], [1, 2]) && |s.threads| == 4
    ensures s.threads[0].PopRead? && s.used.tag == s.threads[0].seen.tag + TAG_RANGE
    ensures PopsNow(s, 0, Choice(Get, false), Used)
    ensures Step(s, 0, Choice(Get, false)).used.index == 0 && Step(s, 0, Choice(Get, false)).threads[2].Holds(0)
  {
    var rounds := TAG_RANGE / 2 - 2;
    Overtaking(rounds);
    s := Stalled(rounds);
    StalledInv(rounds);
  }

  lemma StalledInv(rounds: nat)
    ensures Inv(Stalled(rounds), [], [1, 2])
  {
    var s, u: seq<nat> := Stalled(rounds), [1, 2];
    assert IsStack(s.next, 1, u);
    assert s.threads[2].Holds(0) && 1 in u && 2 in u;
    assert forall t :: 0 <= t < 4 ==> PcOk(s, s.threads[t]);
  }
}
