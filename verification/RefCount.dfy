/** Intrusive strong and weak reference counting. Each atomic operation on the two counters, and each call
    of the deleter, is one step; any number of threads interleave. Handles belong to threads and may be
    copied, dropped, promoted and passed on. Counters do not wrap. */
module RefCount {

  /** Where a thread is inside `DecRef`, `DecWeakRef` or `TryPromoteWeakPtr`. */
  datatype Pc =
    | Idle
    | Promoting(seen: int)   // loaded the strong count
    | LastStrong             // took the strong count to zero
    | DestroyBoth            // saw only the strong group's own weak reference: about to destroy the payload
    | FreeBoth               // and then to free the storage
    | DestroyPayload         // saw weak handles: about to destroy the payload
    | DropGroupRef           // about to drop the strong group's weak reference
    | FreeStorage            // took the weak count to zero: about to free the storage
  {
    /** The thread holds the weak reference that belongs to the group of strong handles. */
    predicate HoldsGroupRef() {
      LastStrong? || DestroyBoth? || FreeBoth? || DestroyPayload? || DropGroupRef?
    }

    predicate TearsDown() {
      HoldsGroupRef() || FreeStorage?
    }
  }

  datatype Call = CopyStrong | CopyWeak | MakeWeak | DropStrong | DropWeak | Promote | GiveStrong(to: nat)
      | GiveWeak(to: nat)

  datatype State = State(
    strong: int, weak: int,              // the header's counters
    destroyed: nat, freed: nat,          // how often the payload was destroyed and the storage freed
    strongHeld: seq<nat>, weakHeld: seq<nat>, pcs: seq<Pc>)

  function Sum(s: seq<nat>): nat
  {
    if s == [] then 0 else s[0] + Sum(s[1..])
  }

  lemma {:induction false} SumUpdate(s: seq<nat>, i: nat, v: nat)
    requires i < |s|
    ensures Sum(s[i := v]) + s[i] == Sum(s) + v
  {
    if i > 0 {
      assert s[i := v][1..] == s[1..][i - 1 := v];
      SumUpdate(s[1..], i - 1, v);
    } else {
      assert s[i := v][1..] == s[1..];
    }
  }

  lemma {:induction false} SumBounds(s: seq<nat>, i: nat)
    requires i < |s|
    ensures s[i] <= Sum(s)
  {
    if i > 0 {
      SumBounds(s[1..], i - 1);
    }
  }

  lemma {:induction false} SumZero(s: seq<nat>)
    ensures Sum(s) == 0 <==> forall i :: 0 <= i < |s| ==> s[i] == 0
  {
    if s != [] {
      SumZero(s[1..]);
      assert forall i :: 1 <= i < |s| ==> s[i] == s[1..][i - 1];
      assert Sum(s) == 0 ==> forall i :: 0 <= i < |s[1..]| ==> s[1..][i] == 0;
    }
  }

  ghost predicate Shape(s: State)
  {
    |s.strongHeld| == |s.weakHeld| == |s.pcs|
  }

  /** Thread `t` can run: it is inside an operation, or holds the handle the call starts from. */
  ghost predicate Enabled(s: State, t: nat, call: Call)
  {
    && Shape(s) && t < |s.pcs|
    && (s.pcs[t].Idle? ==>
          && (call.CopyStrong? || call.MakeWeak? || call.DropStrong? || call.GiveStrong? ==> s.strongHeld[t] > 0)
          && (call.CopyWeak? || call.DropWeak? || call.Promote? || call.GiveWeak? ==> s.weakHeld[t] > 0)
          && (call.GiveStrong? || call.GiveWeak? ==> call.to < |s.pcs|))
    && (s.pcs[t].Promoting? ==> s.weakHeld[t] > 0)
  }

  function Minus(s: seq<nat>, i: nat): seq<nat>
    requires i < |s| && s[i] > 0
  {
    s[i := s[i] - 1]
  }

  function Plus(s: seq<nat>, i: nat): seq<nat>
    requires i < |s|
  {
    s[i := s[i] + 1]
  }

  /** A load of the strong count during a promotion: zero ends it in failure. */
  function AfterLoad(count: int): Pc
  {
    if count > 0 then Promoting(count) else Idle
  }

  /** Starting a call, up to and including its first atomic operation. */
  function Begin(s: State, t: nat, call: Call): State
    requires Enabled(s, t, call) && s.pcs[t].Idle?
  {
    match call
    case CopyStrong => s.(strong := s.strong + 1, strongHeld := Plus(s.strongHeld, t))
    case CopyWeak => s.(weak := s.weak + 1, weakHeld := Plus(s.weakHeld, t))
    case MakeWeak => s.(weak := s.weak + 1, weakHeld := Plus(s.weakHeld, t))
    case DropStrong =>
      s.(strong := s.strong - 1, strongHeld := Minus(s.strongHeld, t),
         pcs := s.pcs[t := if s.strong == 1 then LastStrong else Idle])
    case DropWeak =>
      s.(weak := s.weak - 1, weakHeld := Minus(s.weakHeld, t),
         pcs := s.pcs[t := if s.weak == 1 then FreeStorage else Idle])
    case Promote => s.(pcs := s.pcs[t := AfterLoad(s.strong)])
    case GiveStrong(to) => s.(strongHeld := Plus(Minus(s.strongHeld, t), to))
    case GiveWeak(to) => s.(weakHeld := Plus(Minus(s.weakHeld, t), to))
  }

  /** Continuing the operation the thread is inside of. */
  function Continue(s: State, t: nat, spurious: bool): State
    requires Shape(s) && t < |s.pcs| && !s.pcs[t].Idle?
  {
    match s.pcs[t]
    case Promoting(seen) =>
      if s.strong == seen && !spurious then
        s.(strong := seen + 1, strongHeld := Plus(s.strongHeld, t), pcs := s.pcs[t := Idle])
      else s.(pcs := s.pcs[t := AfterLoad(s.strong)])
    case LastStrong => s.(pcs := s.pcs[t := if s.weak == 1 then DestroyBoth else DestroyPayload])
    case DestroyBoth => s.(destroyed := s.destroyed + 1, pcs := s.pcs[t := FreeBoth])
    case FreeBoth => s.(freed := s.freed + 1, pcs := s.pcs[t := Idle])
    case DestroyPayload => s.(destroyed := s.destroyed + 1, pcs := s.pcs[t := DropGroupRef])
    case DropGroupRef =>
      s.(weak := s.weak - 1, pcs := s.pcs[t := if s.weak == 1 then FreeStorage else Idle])
    case FreeStorage => s.(freed := s.freed + 1, pcs := s.pcs[t := Idle])
  }

  // ----- The invariant -----

  ghost predicate OneTearsDown(s: State)
  {
    forall t, r :: 0 <= t < r < |s.pcs| ==> !(s.pcs[t].TearsDown() && s.pcs[r].TearsDown())
  }

  /** What the counters and the object look like while thread `t` is at its program counter. */
  ghost predicate PcOk(s: State, t: nat)
    requires Shape(s) && t < |s.pcs|
  {
    var pc := s.pcs[t];
    && (pc.Promoting? ==> s.weakHeld[t] > 0 && pc.seen > 0)
    && (pc.HoldsGroupRef() ==> s.strong == 0 && s.freed == 0 && s.weak == Sum(s.weakHeld) + 1)
    && (pc.LastStrong? || pc.DestroyBoth? || pc.DestroyPayload? ==> s.destroyed == 0)
    && (pc.FreeBoth? || pc.DropGroupRef? || pc.FreeStorage? ==> s.destroyed == 1)
    && (pc.DestroyBoth? || pc.FreeBoth? ==> s.weak == 1)
    && (pc.FreeStorage? ==> s.strong == 0 && s.freed == 0 && s.weak == 0 && Sum(s.weakHeld) == 0)
  }

  ghost predicate TearingDown(s: State)
  {
    exists t :: 0 <= t < |s.pcs| && s.pcs[t].TearsDown()
  }

  ghost predicate Inv(s: State)
  {
    && Shape(s)
    && s.strong == Sum(s.strongHeld)
    && OneTearsDown(s)
    && (forall t :: 0 <= t < |s.pcs| ==> PcOk(s, t))
    && (s.strong > 0 ==> s.weak == Sum(s.weakHeld) + 1 && s.destroyed == 0 && s.freed == 0)
    && (s.strong == 0 && !TearingDown(s) ==>
          && s.destroyed == 1
          && (if Sum(s.weakHeld) > 0 then s.freed == 0 && s.weak == Sum(s.weakHeld) else s.freed == 1))
  }

  /** What callers rely on: destruction and release happen at most once and in order, never under a handle. */
  ghost predicate Safe(s: State)
  {
    && s.destroyed <= 1 && s.freed <= s.destroyed
    && (Sum(s.strongHeld) > 0 ==> s.destroyed == 0)
    && (Sum(s.strongHeld) + Sum(s.weakHeld) > 0 ==> s.freed == 0)
  }

  lemma InvIsSafe(s: State)
    requires Inv(s)
    ensures Safe(s)
  {
    if TearingDown(s) {
      var t :| 0 <= t < |s.pcs| && s.pcs[t].TearsDown();
      assert PcOk(s, t);
    }
  }

  /** Every counter access finds the storage not yet freed. */
  lemma HeaderIsAlive(s: State, t: nat, call: Call)
    requires Inv(s) && Enabled(s, t, call)
    ensures s.freed == 0
    ensures s.pcs[t].Idle? && call.DropStrong? ==> s.strong > 0 // no counter drops below zero
    ensures (s.pcs[t].Idle? && call.DropWeak?) || s.pcs[t].DropGroupRef? ==> s.weak > 0
  {
    SumBounds(s.strongHeld, t);
    SumBounds(s.weakHeld, t);
    assert PcOk(s, t);
    if TearingDown(s) {
      var r :| 0 <= r < |s.pcs| && s.pcs[r].TearsDown();
      assert PcOk(s, r);
    }
  }

  function Step(s: State, t: nat, call: Call, spurious: bool): State
    requires Enabled(s, t, call)
  {
    if s.pcs[t].Idle? then Begin(s, t, call) else Continue(s, t, spurious)
  }

  /** While there is a strong handle, or a weak handle that is the last reference of all, nobody tears down. */
  lemma NobodyTearsDown(s: State, r: nat)
    requires Inv(s) && r < |s.pcs| && (s.strong > 0 || (Sum(s.weakHeld) > 0 && s.weak == 1))
    ensures !s.pcs[r].TearsDown()
  {
    assert PcOk(s, r);
  }

  /** The invariant follows thread by thread when the program counters stay, except that `t` may start to tear down. */
  lemma InvFromThreads(s: State, s': State, t: nat)
    requires Inv(s) && Shape(s') && |s'.pcs| == |s.pcs| && t < |s.pcs| && s'.pcs == s.pcs[t := s'.pcs[t]]
    requires s'.strong == Sum(s'.strongHeld)
    requires s'.pcs[t].TearsDown() && !s.pcs[t].TearsDown() ==> forall r :: 0 <= r < |s.pcs| ==> !s.pcs[r].TearsDown()
    requires forall r :: 0 <= r < |s'.pcs| ==> PcOk(s', r)
    requires s'.strong > 0 ==> s'.weak == Sum(s'.weakHeld) + 1 && s'.destroyed == 0 && s'.freed == 0
    requires s'.strong == 0 && !TearingDown(s') ==>
      && s'.destroyed == 1
      && (if Sum(s'.weakHeld) > 0 then s'.freed == 0 && s'.weak == Sum(s'.weakHeld) else s'.freed == 1)
    ensures Inv(s')
  {
    forall i, j | 0 <= i < j < |s'.pcs| ensures !(s'.pcs[i].TearsDown() && s'.pcs[j].TearsDown()) {
      assert !(s.pcs[i].TearsDown() && s.pcs[j].TearsDown());
    }
  }

  lemma TearingDownStays(s: State, s': State, t: nat)
    requires |s'.pcs| == |s.pcs| && t < |s.pcs| && s'.pcs == s.pcs[t := s'.pcs[t]]
    requires !s.pcs[t].TearsDown()
    ensures TearingDown(s) ==> TearingDown(s')
  {
    if TearingDown(s) {
      var r :| 0 <= r < |s.pcs| && s.pcs[r].TearsDown();
      assert s'.pcs[r] == s.pcs[r];
    }
  }

  lemma DropStrongKeepsInv(s: State, t: nat)
    requires Inv(s) && Enabled(s, t, DropStrong) && s.pcs[t].Idle?
    ensures Inv(Begin(s, t, DropStrong))
  {
    var s' := Begin(s, t, DropStrong);
    SumBounds(s.strongHeld, t);
    SumUpdate(s.strongHeld, t, s.strongHeld[t] - 1);
    forall r | 0 <= r < |s.pcs| ensures PcOk(s', r) && !s.pcs[r].TearsDown() {
      NobodyTearsDown(s, r);
      assert PcOk(s, r);
    }
    assert s'.strong == 0 ==> s'.pcs[t].TearsDown();
    InvFromThreads(s, s', t);
  }

  lemma DropWeakKeepsInv(s: State, t: nat)
    requires Inv(s) && Enabled(s, t, DropWeak) && s.pcs[t].Idle?
    ensures Inv(Begin(s, t, DropWeak))
  {
    var s' := Begin(s, t, DropWeak);
    HeaderIsAlive(s, t, DropWeak);
    SumBounds(s.weakHeld, t);
    SumUpdate(s.weakHeld, t, s.weakHeld[t] - 1);
    forall r | 0 <= r < |s.pcs| && s.weak == 1 ensures !s.pcs[r].TearsDown() {
      NobodyTearsDown(s, r);
    }
    forall r | 0 <= r < |s.pcs| ensures PcOk(s', r) {
      assert PcOk(s, r);
    }
    TearingDownStays(s, s', t);
    assert s'.pcs[t].TearsDown() ==> TearingDown(s');
    InvFromThreads(s, s', t);
  }

  /** A handle operation changes each count by as much as the handles of its kind. */
  lemma HandleSums(s: State, t: nat, call: Call)
    requires Enabled(s, t, call) && s.pcs[t].Idle? && !call.DropStrong? && !call.DropWeak?
    ensures var s' := Begin(s, t, call);
      && Sum(s'.strongHeld) - Sum(s.strongHeld) == s'.strong - s.strong
      && Sum(s'.weakHeld) - Sum(s.weakHeld) == s'.weak - s.weak
  {
    match call {
      case CopyStrong => SumUpdate(s.strongHeld, t, s.strongHeld[t] + 1);
      case CopyWeak => SumUpdate(s.weakHeld, t, s.weakHeld[t] + 1);
      case MakeWeak => SumUpdate(s.weakHeld, t, s.weakHeld[t] + 1);
      case Promote =>
      case GiveStrong(to) =>
        SumUpdate(s.strongHeld, t, s.strongHeld[t] - 1);
        SumUpdate(Minus(s.strongHeld, t), to, Minus(s.strongHeld, t)[to] + 1);
      case GiveWeak(to) =>
        SumUpdate(s.weakHeld, t, s.weakHeld[t] - 1);
        SumUpdate(Minus(s.weakHeld, t), to, Minus(s.weakHeld, t)[to] + 1);
    }
  }

  lemma HandleStepKeepsInv(s: State, t: nat, call: Call)
    requires Inv(s) && Enabled(s, t, call) && s.pcs[t].Idle? && !call.DropStrong? && !call.DropWeak?
    ensures Inv(Begin(s, t, call))
  {
    HeaderIsAlive(s, t, call);
    SumBounds(s.strongHeld, t);
    SumBounds(s.weakHeld, t);
    var s' := Begin(s, t, call);
    HandleSums(s, t, call);
    forall r | 0 <= r < |s'.pcs| ensures PcOk(s', r) {
      assert PcOk(s, r);
    }
    TearingDownStays(s, s', t);
    InvFromThreads(s, s', t);
  }

  lemma PromoteKeepsInv(s: State, t: nat, spurious: bool)
    requires Inv(s) && t < |s.pcs| && s.pcs[t].Promoting?
    ensures Inv(Continue(s, t, spurious))
  {
    var s' := Continue(s, t, spurious);
    SumUpdate(s.strongHeld, t, s.strongHeld[t] + 1);
    forall r | 0 <= r < |s'.pcs| ensures PcOk(s', r) {
      assert PcOk(s, r) && PcOk(s, t);
      if s.strong > 0 {
        NobodyTearsDown(s, r);
      }
    }
    TearingDownStays(s, s', t);
    InvFromThreads(s, s', t);
  }

  lemma TearDownKeepsInv(s: State, t: nat, spurious: bool)
    requires Inv(s) && t < |s.pcs| && s.pcs[t].TearsDown()
    ensures Inv(Continue(s, t, spurious))
  {
    var s' := Continue(s, t, spurious);
    assert PcOk(s, t);
    forall r | 0 <= r < |s'.pcs| ensures PcOk(s', r) {
      assert PcOk(s, r);
      assert r != t ==> !s.pcs[r].TearsDown();
    }
    assert s'.pcs[t].TearsDown() ==> TearingDown(s');
    InvFromThreads(s, s', t);
  }

  lemma StepKeepsInv(s: State, t: nat, call: Call, spurious: bool)
    requires Inv(s) && Enabled(s, t, call)
    ensures Inv(Step(s, t, call, spurious))
  {
    if s.pcs[t].Promoting? {
      PromoteKeepsInv(s, t, spurious);
    } else if !s.pcs[t].Idle? {
      TearDownKeepsInv(s, t, spurious);
    } else if call.DropStrong? {
      DropStrongKeepsInv(s, t);
    } else if call.DropWeak? {
      DropWeakKeepsInv(s, t);
    } else {
      HandleStepKeepsInv(s, t, call);
    }
  }

  /** Once the strong count is zero it stays zero: no promotion succeeds, no strong handle reappears. */
  lemma NoResurrection(s: State, t: nat, call: Call, spurious: bool)
    requires Inv(s) && Enabled(s, t, call) && s.strong == 0
    ensures Step(s, t, call, spurious).strong == 0
    ensures Sum(Step(s, t, call, spurious).strongHeld) == 0
  {
    StepKeepsInv(s, t, call, spurious);
    SumBounds(s.strongHeld, t);
    assert PcOk(s, t);
  }

  /** A promotion that succeeds yields a strong handle to a payload that is alive. */
  lemma PromotionFindsLivePayload(s: State, t: nat, call: Call, spurious: bool)
    requires Inv(s) && Enabled(s, t, call) && s.pcs[t].Promoting?
    requires Step(s, t, call, spurious).strongHeld != s.strongHeld
    ensures s.strong > 0 && s.destroyed == 0 && Step(s, t, call, spurious).destroyed == 0
  {
    assert PcOk(s, t);
  }

  const COUNTER_RANGE: nat := 0x1_0000_0000

  /** The counters stay inside their 32 bits as long as fewer than 2^32 strong and 2^32 - 1 weak handles exist. */
  lemma CountersFit(s: State)
    requires Inv(s) && Sum(s.strongHeld) < COUNTER_RANGE && Sum(s.weakHeld) < COUNTER_RANGE - 1
    ensures 0 <= s.strong < COUNTER_RANGE
    ensures s.freed == 0 ==> 0 <= s.weak < COUNTER_RANGE
  {
    if TearingDown(s) {
      var t :| 0 <= t < |s.pcs| && s.pcs[t].TearsDown();
      assert PcOk(s, t);
    }
  }

  // ----- Runs -----

  /** `make_object`: one strong handle, held by thread `t`, and the group's weak reference. */
  ghost predicate Initial(s: State)
  {
    && Shape(s) && s.strong == 1 && s.weak == 1 && s.destroyed == 0 && s.freed == 0
    && Sum(s.strongHeld) == 1 && Sum(s.weakHeld) == 0
    && (forall t :: 0 <= t < |s.pcs| ==> s.pcs[t].Idle?)
  }

  datatype Action = Action(thread: nat, call: Call, spurious: bool)

  ghost predicate IsStep(s: State, a: Action, s': State)
  {
    Enabled(s, a.thread, a.call) && s' == Step(s, a.thread, a.call, a.spurious)
  }

  ghost predicate IsRun(states: seq<State>, actions: seq<Action>)
  {
    && |states| == |actions| + 1 && Initial(states[0])
    && (forall i :: 0 <= i < |actions| ==> IsStep(states[i], actions[i], states[i + 1]))
  }

  /** Safety in every reachable state, and nothing left over once the threads are done. */
  lemma {:induction false} RunsAreSafe(states: seq<State>, actions: seq<Action>, k: nat)
    requires IsRun(states, actions) && k <= |actions|
    ensures Inv(states[k]) && Safe(states[k])
    ensures (forall t :: 0 <= t < |states[k].pcs| ==> states[k].pcs[t].Idle?) && Sum(states[k].strongHeld) == 0 ==>
              && states[k].destroyed == 1
              && (states[k].freed == 1 <==> Sum(states[k].weakHeld) == 0)
    decreases k
  {
    if k > 0 {
      RunsAreSafe(states, actions, k - 1);
      var a := actions[k - 1];
      assert IsStep(states[k - 1], a, states[k]);
      StepKeepsInv(states[k - 1], a.thread, a.call, a.spurious);
    }
    InvIsSafe(states[k]);
  }
}
