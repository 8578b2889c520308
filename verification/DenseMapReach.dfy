/** Which slots the probes of the dense map look at, and how many of them there are. */
module DenseMapReach {
  import opened DenseMapList
  import opened DenseMapChains

  /** The slot a probe looks at. */
  function ProbeSlot(env: Env, s: int, i: nat): (t: nat)
    requires env.n >= 1 && i < |env.offsets|
    ensures t < env.n
  {
    (s + env.offsets[i]) % env.n
  }

  /** Probing and following a chain use the same arithmetic. */
  lemma ProbeIsNextSlot(env: Env, s: int, i: nat)
    requires env.n >= 1 && i < |env.offsets| && s >= 0
    ensures ProbeSlot(env, s, i) == NextSlot(env, s, i)
  {
    var t := s + env.offsets[i];
    if t < env.n {
      assert t % env.n == t;
    }
  }

  /** Every probe offset leads from `s` to an occupied slot. */
  ghost predicate NoEmptyInReach(env: Env, slots: seq<Slot>, s: int)
    requires env.n >= 1 && |slots| == env.n
  {
    forall i :: 0 < i < |env.offsets| ==> !slots[ProbeSlot(env, s, i)].Empty?
  }

  /** Some entry has no empty slot in reach of its probes. */
  ghost predicate SomeHemmedIn(env: Env, slots: seq<Slot>)
    requires env.n >= 1 && |slots| == env.n
  {
    exists s :: IsFull(slots, s) && NoEmptyInReach(env, slots, s)
  }

  // ----- How many slots the probes reach -----

  /** The distances, modulo the table size, at which the probes of an entry look. */
  ghost function Reach(env: Env): set<nat>
    requires env.n >= 1
  {
    (set i | 0 < i < |env.offsets| :: env.offsets[i] % env.n) - {0}
  }

  lemma MulAtLeast(n: nat, k: int)
    requires n >= 1
    ensures k >= 1 ==> n * k >= n
    ensures k <= -1 ==> n * k <= 0 - n
  {
    if k >= 1 {
      assert n * (k - 1) >= 0;
    } else if k <= -1 {
      assert n * (0 - k - 1) >= 0;
    }
  }

  /** Two remainders whose numbers differ by a multiple are the same. */
  lemma SameRemainder(n: nat, q: int, a: int, b: int)
    requires n >= 1 && 0 <= a < n && 0 <= b < n && n * q == a - b
    ensures a == b
  {
    MulAtLeast(n, q);
  }

  /** The probes of an entry look at every other slot. */
  ghost predicate ReachesAll(env: Env)
    requires env.n >= 1
  {
    forall d :: 0 < d < env.n ==> d in Reach(env)
  }

  lemma ModUnique(x: int, n: nat, q: int, r: int)
    requires n >= 1 && x == n * q + r && 0 <= r < n
    ensures x % n == r
  {
    var k := x / n;
    assert n * (k - q) == n * k - n * q;
    SameRemainder(n, k - q, r, x % n);
  }

  lemma ModOfMod(s: int, o: int, n: nat)
    requires n >= 1
    ensures (s + o % n) % n == (s + o) % n
  {
    var t := s + o % n;
    assert n * (o / n + t / n) == n * (o / n) + n * (t / n);
    ModUnique(s + o, n, o / n + t / n, t % n);
  }

  /** Distinct distances lead to distinct slots. */
  lemma SameResidue(s: int, x: int, y: int, n: nat)
    requires n >= 1 && 0 <= x < n && 0 <= y < n && (s + x) % n == (s + y) % n
    ensures x == y
  {
    var a, b := (s + x) / n, (s + y) / n;
    assert n * (a - b) == n * a - n * b;
    SameRemainder(n, a - b, x, y);
  }

  ghost function Shifted(d: set<nat>, s: int, n: nat): set<int>
    requires n >= 1
  {
    set x | x in d :: (s + x) % n
  }

  lemma ShiftedFresh(d: set<nat>, x: int, s: int, n: nat)
    requires n >= 1 && 0 <= x < n && x !in d && forall y :: y in d ==> 0 <= y < n
    ensures (s + x) % n !in Shifted(d, s, n)
    ensures Shifted(d + {x}, s, n) == Shifted(d, s, n) + {(s + x) % n}
  {
    forall y | y in d && (s + y) % n == (s + x) % n ensures false {
      SameResidue(s, x, y, n);
    }
  }

  lemma {:induction false} ShiftedCount(d: set<nat>, s: int, n: nat)
    requires n >= 1 && forall x :: x in d ==> 0 <= x < n
    ensures |Shifted(d, s, n)| == |d|
    decreases d
  {
    if d != {} {
      var x :| x in d;
      var rest := d - {x};
      ShiftedCount(rest, s, n);
      ShiftedFresh(rest, x, s, n);
      assert rest + {x} == d;
    }
  }

  ghost function Elements(order: seq<int>): set<int>
  {
    set t | t in order
  }

  lemma {:induction false} ElementsCount(order: seq<int>)
    ensures |Elements(order)| <= |order|
  {
    if order != [] {
      var last := |order| - 1;
      ElementsCount(order[..last]);
      assert order == order[..last] + [order[last]];
      assert Elements(order) == Elements(order[..last]) + {order[last]};
    }
  }

  lemma SubsetCount(a: set<int>, b: set<int>)
    requires a <= b
    ensures |a| <= |b|
  {
    assert b == a + (b - a);
  }

  /** The slots a hemmed-in entry looks at are all different, occupied and not its own. */
  lemma HemmedInSlots(env: Env, slots: seq<Slot>, s: int)
    requires env.n >= 1 && |slots| == env.n && NoEmptyInReach(env, slots, s) && 0 <= s < env.n
    ensures var far := Shifted(Reach(env), s, env.n);
      && |far| == |Reach(env)| && s !in far
      && forall t :: t in far ==> 0 <= t < |slots| && !slots[t].Empty?
  {
    var far := Shifted(Reach(env), s, env.n);
    ShiftedCount(Reach(env), s, env.n);
    forall t | t in far ensures 0 <= t < |slots| && !slots[t].Empty? && t != s {
      var d :| d in Reach(env) && t == (s + d) % env.n;
      var i :| 0 < i < |env.offsets| && env.offsets[i] % env.n == d;
      ModOfMod(s, env.offsets[i], env.n);
      assert t == ProbeSlot(env, s, i);
      if t == s {
        ModUnique(s, env.n, 0, s);
        SameResidue(s, d, 0, env.n);
      }
    }
  }

  /** Occupied slots are on the list or reserved, so a hemmed-in entry needs that many entries around it. */
  lemma HemmedInCount(env: Env, slots: seq<Slot>, order: seq<int>, reserved: set<int>, s: int)
    requires env.n >= 1 && |slots| == env.n && NoEmptyInReach(env, slots, s) && 0 <= s < env.n && s in order
    requires forall t :: 0 <= t < |slots| && !slots[t].Empty? ==> t in order || t in reserved
    ensures |Reach(env)| + 1 <= |order| + |reserved|
  {
    HemmedInSlots(env, slots, s);
    var far := Shifted(Reach(env), s, env.n);
    var taken := Elements(order) + reserved;
    assert far + {s} <= taken;
    SubsetCount(far + {s}, taken);
    ElementsCount(order);
  }

  ghost predicate ShareHome(env: Env, items: seq<(Key, Value)>, i: int, j: int, k: int)
  {
    && 0 <= i < |items| && 0 <= j < |items| && 0 <= k < |items| && i != j && i != k && j != k
    && env.home(items[i].0) == env.home(items[j].0) == env.home(items[k].0)
  }

  /** Three entries share a home slot. */
  ghost predicate Crowded(env: Env, items: seq<(Key, Value)>)
  {
    exists i, j, k :: ShareHome(env, items, i, j, k)
  }

  lemma ChainCrowds(env: Env, slots: seq<Slot>, head: int, tail: int, order: seq<int>, h: int, c: seq<int>)
    requires env.n >= 1 && ListOk(slots, head, tail, order) && Covers(slots, order)
    requires ChainOk(env, slots, h, c) && |c| >= 3
    ensures (forall s :: s in order ==> IsFull(slots, s)) && Crowded(env, Items(slots, order))
  {
    ListIsFull(slots, head, tail, order);
    StretchIsFull(env, slots, h, c, true, -1);
    assert c[0] in c && c[1] in c && c[2] in c;
    var i :| 0 <= i < |order| && order[i] == c[0];
    var j :| 0 <= j < |order| && order[j] == c[1];
    var k :| 0 <= k < |order| && order[k] == c[2];
    var items := Items(slots, order);
    assert ShareHome(env, items, i, j, k);
  }

  ghost predicate HasLongChain(chains: map<int, seq<int>>)
  {
    exists h :: h in chains && |chains[h]| >= 3
  }

  lemma LongChainCrowds(env: Env, slots: seq<Slot>, head: int, tail: int, order: seq<int>, chains: map<int, seq<int>>)
    requires env.n >= 1 && ListOk(slots, head, tail, order) && Covers(slots, order) && ChainsOk(env, slots, chains)
    ensures (forall s :: s in order ==> IsFull(slots, s))
            && (HasLongChain(chains) ==> Crowded(env, Items(slots, order)))
  {
    ListIsFull(slots, head, tail, order);
    if HasLongChain(chains) {
      var h :| h in chains && |chains[h]| >= 3;
      ChainCrowds(env, slots, head, tail, order, h, chains[h]);
    }
  }

  // ----- Distinct numbers -----

  ghost function AllSlots(n: nat): (r: set<int>)
    ensures |r| == n && forall i :: i in r <==> 0 <= i < n
  {
    if n == 0 then {} else AllSlots(n - 1) + {n - 1}
  }

  lemma {:induction false} DistinctFit(order: seq<int>, n: nat)
    requires Distinct(order) && forall i :: 0 <= i < |order| ==> 0 <= order[i] < n
    ensures |order| <= n
    decreases n
  {
    if order != [] {
      var last := |order| - 1;
      var rest := order[..last];
      var lower := seq(last, i requires 0 <= i < last => if rest[i] == n - 1 then order[last] else rest[i]);
      DistinctFit(lower, n - 1);
    }
  }

  lemma TwoElements(c: seq<int>, a: int, b: int)
    requires Distinct(c) && a in c && b in c && a != b && forall i :: 0 <= i < |c| ==> c[i] == a || c[i] == b
    ensures |c| == 2
  {
    var which := seq(|c|, k requires 0 <= k < |c| => if c[k] == a then 0 else 1);
    assert Distinct(which);
    DistinctFit(which, 2);
    assert |c| >= 2;
  }
}
