/** Growing can lose an entry. The run shown fills every slot that the probes from slot 0 of the grown table reach
    with entries that belong there; of two entries that belong to slot 0 one then has no place. */
module DenseMapLoss {
  import opened DenseMapList
  import opened DenseMapChains
  import opened DenseMapReach
  import opened DenseMap
  import opened DenseMapGrowth

  // ----- What a table without torn chains looks like -----

  /** A key that is present has the head of its chain in its home slot. */
  lemma HomeSlotIsHead(m: DenseMapObj, k: Key)
    requires m.Valid() && HasKey(m.Entries(), k)
    ensures var h := m.env.home(k);
      && IsFull(m.slots, h) && m.slots[h].isHead && m.env.home(m.slots[h].key) == h
          && HasKey(m.Entries(), m.slots[h].key)
  {
    m.KeyInSlot(k);
    var s :| IsFull(m.slots, s) && m.slots[s].key == k;
    assert OnChain(m.env, m.slots, m.chains, s);
    var h := m.env.home(k);
    assert ChainOk(m.env, m.slots, h, m.chains[h]) && LinkOk(m.env, m.slots, h, m.chains[h], 0, true, -1);
    m.KeyInSlot(m.slots[h].key);
  }

  /** No key but `k1` and `k2` has home slot `h`. */
  ghost predicate OnlyTwo(m: DenseMapObj, h: int, k1: Key, k2: Key)
    reads m
    requires m.ListValid()
  {
    forall k :: HasKey(m.Entries(), k) && m.env.home(k) == h ==> k == k1 || k == k2
  }

  /** Two keys with one home slot: one is in it, the other where a probe from it leads. */
  lemma PairChain(m: DenseMapObj, h: int, k1: Key, k2: Key) returns (off: nat)
    requires m.Valid() && HasKey(m.Entries(), k1) && HasKey(m.Entries(), k2) && k1 != k2
    requires m.env.home(k1) == h == m.env.home(k2) && OnlyTwo(m, h, k1, k2)
    ensures 0 < off < |m.env.offsets| && h in m.chains && m.chains[h] == [h, ProbeSlot(m.env, h, off)]
    ensures forall s :: s in m.chains[h] ==> IsFull(m.slots, s) && m.env.home(m.slots[s].key) == h
  {
    m.KeyInSlot(k1);
    m.KeyInSlot(k2);
    var a :| IsFull(m.slots, a) && m.slots[a].key == k1;
    var b :| IsFull(m.slots, b) && m.slots[b].key == k2;
    assert OnChain(m.env, m.slots, m.chains, a) && OnChain(m.env, m.slots, m.chains, b);
    var c := m.chains[h];
    assert ChainOk(m.env, m.slots, h, c);
    StretchIsFull(m.env, m.slots, h, c, true, -1);
    forall i | 0 <= i < |c| ensures c[i] == a || c[i] == b {
      assert c[i] in c;
      m.KeyInSlot(m.slots[c[i]].key);
    }
    TwoElements(c, a, b);
    assert LinkOk(m.env, m.slots, h, c, 0, true, -1);
    off := m.slots[h].off;
    ProbeIsNextSlot(m.env, h, off);
  }

  // ----- The keys -----

  /** Home slots in the grown table: key `j` belongs to `homes[j]`, and of the following keys each to a slot of its
      own. The old table uses one bit of the hash less. */
  function HomeOf(homes: seq<nat>, n: nat, k: Key): nat
  {
    if 0 <= k < |homes| then homes[k] else if |homes| <= k < |homes| + 2 * n then k - |homes| else 0
  }

  function NewHome(homes: seq<nat>, n: nat): Key -> nat
  {
    k => HomeOf(homes, n, k)
  }

  function OldHome(homes: seq<nat>, n: nat): Key -> nat
  {
    k => HomeOf(homes, n, k) / 2
  }

  /** The first and the last key belong to slot 0, the one before the last to slot 1, and no others share a slot. */
  ghost predicate IsCluster(homes: seq<nat>, n: nat)
  {
    && n >= 1 && |homes| >= 3 && homes[0] == 0 == homes[|homes| - 1] && homes[|homes| - 2] == 1
    && (forall j :: 0 <= j < |homes| ==> homes[j] < 2 * n)
    && (forall i, j :: 0 <= i < j < |homes| - 1 ==> homes[i] != homes[j])
  }

  /** No key of the cluster belongs to slot `p` of the old table. */
  ghost predicate IsFreeHome(homes: seq<nat>, p: int)
  {
    forall j :: 0 <= j < |homes| ==> homes[j] / 2 != p
  }

  /** Keys of the run: the cluster, and fillers that belong elsewhere. */
  ghost predicate IsRunKey(homes: seq<nat>, n: nat, k: Key)
  {
    0 <= k < |homes| || (|homes| <= k < |homes| + 2 * n && IsFreeHome(homes, (k - |homes|) / 2))
  }

  /** Only the first and the last key of the cluster share a home slot in the grown table. */
  lemma SharedHomes(homes: seq<nat>, n: nat, k1: Key, k2: Key)
    requires IsCluster(homes, n) && IsRunKey(homes, n, k1) && IsRunKey(homes, n, k2) && k1 != k2
    requires HomeOf(homes, n, k1) == HomeOf(homes, n, k2)
    ensures (k1 == 0 && k2 == |homes| - 1) || (k1 == |homes| - 1 && k2 == 0)
  {
  }

  ghost predicate OfRun(homes: seq<nat>, n: nat, items: seq<Item>)
  {
    forall k :: HasKey(items, k) ==> IsRunKey(homes, n, k)
  }

  ghost predicate HasCluster(homes: seq<nat>, items: seq<Item>)
  {
    forall k: Key :: 0 <= k < |homes| ==> HasKey(items, k)
  }

  lemma NotCrowded(homes: seq<nat>, n: nat, env: Env, items: seq<Item>)
    requires IsCluster(homes, n) && env.home == NewHome(homes, n) && OfRun(homes, n, items) && DistinctKeys(items)
    ensures !Crowded(env, items)
  {
    forall i, j, k | ShareHome(env, items, i, j, k) ensures false {
      var a, b, c := items[i].0, items[j].0, items[k].0;
      assert HasKey(items, a) && HasKey(items, b) && HasKey(items, c);
      assert a != b && a != c && b != c;
      SharedHomes(homes, n, a, b);
      SharedHomes(homes, n, a, c);
    }
  }

  // ----- The grown table has no room -----

  /** Every slot a probe from slot 0 leads to has a key of the cluster that belongs there. */
  ghost predicate ProbesCovered(homes: seq<nat>, env: Env)
  {
    env.n >= 1 && forall i :: 0 < i < |env.offsets| ==> Belongs(homes, ProbeSlot(env, 0, i))
  }

  ghost predicate Belongs(homes: seq<nat>, t: nat)
  {
    exists j :: 0 <= j < |homes| - 1 && homes[j] == t
  }

  ghost predicate IsGrown(homes: seq<nat>, n: nat, m: DenseMapObj)
    reads m
  {
    m.Valid() && m.env.n == 2 * n && m.env.home == NewHome(homes, n) && ProbesCovered(homes, m.env)
    && OfRun(homes, n, m.Entries())
  }

  lemma PairAtZero(homes: seq<nat>, n: nat, m: DenseMapObj) returns (t: nat)
    requires IsCluster(homes, n) && IsGrown(homes, n, m)
    requires HasKey(m.Entries(), 0) && HasKey(m.Entries(), |homes| - 1)
    ensures Belongs(homes, t) && 0 in m.chains && m.chains[0] == [0, t]
    ensures forall s :: s in m.chains[0] ==> IsFull(m.slots, s) && m.env.home(m.slots[s].key) == 0
    ensures t != 0
  {
    forall k | HasKey(m.Entries(), k) && m.env.home(k) == 0 ensures k == 0 || k == |homes| - 1 {
      if k != 0 {
        SharedHomes(homes, n, 0, k);
      }
    }
    var off := PairChain(m, 0, 0, |homes| - 1);
    t := ProbeSlot(m.env, 0, off);
    assert ChainOk(m.env, m.slots, 0, [0, t]);
    assert [0, t][0] == 0 && [0, t][1] == t;
  }

  /** No table of the grown size whose chains are whole holds all of them: the second entry of slot 0 would have to
      be where another one belongs. */
  lemma NoRoomForAll(homes: seq<nat>, n: nat, m: DenseMapObj)
    requires IsCluster(homes, n) && IsGrown(homes, n, m)
    ensures !HasCluster(homes, m.Entries())
  {
    if HasCluster(homes, m.Entries()) {
      var t := PairAtZero(homes, n, m);
      assert m.chains[0][1] == t && t in m.chains[0];
      var j :| 0 <= j < |homes| - 1 && homes[j] == t;
      HomeSlotIsHead(m, j);
      assert false;
    }
  }

  /** A slot is occupied by an entry that belongs there, or a key of the cluster belongs there. */
  lemma SlotBelongs(homes: seq<nat>, n: nat, m: DenseMapObj, t: nat)
    requires IsCluster(homes, n) && IsGrown(homes, n, m) && IsFull(m.slots, t)
    ensures Belongs(homes, t) || (HasKey(m.Entries(), m.slots[t].key) && HomeOf(homes, n, m.slots[t].key) == t)
  {
    var k := m.slots[t].key;
    m.KeyInSlot(k);
    if m.env.home(k) != t {
      HomeSlotIsHead(m, k);
      SharedHomes(homes, n, k, m.slots[m.env.home(k)].key);
      var t' := PairAtZero(homes, n, m);
      assert OnChain(m.env, m.slots, m.chains, t);
    }
  }

  /** The key that belongs to slot `2 * p + 1` of the grown table. */
  function LateKey(homes: seq<nat>, p: nat): Key
  {
    |homes| + 2 * p + 1
  }

  /** As long as that key is missing, its slot is empty. */
  lemma LateSlotIsEmpty(homes: seq<nat>, n: nat, m: DenseMapObj, p: nat)
    requires IsCluster(homes, n) && IsGrown(homes, n, m) && p < n && IsFreeHome(homes, p)
    requires !HasKey(m.Entries(), LateKey(homes, p))
    ensures m.slots[2 * p + 1].Empty?
  {
    var t := 2 * p + 1;
    if IsFull(m.slots, t) {
      SlotBelongs(homes, n, m, t);
      assert false;
    }
  }

  // ----- The old table takes them all -----

  /** The first `c` keys with a value. */
  ghost function FirstKeys(c: nat): seq<Item>
  {
    seq(c, j => (j, 0))
  }

  lemma NextKeyIsNew(c: nat)
    ensures !HasKey(FirstKeys(c), c) && FirstKeys(c + 1) == FirstKeys(c) + [(c, 0)]
  {
  }

  /** No two probes lead back to where they started. */
  ghost predicate NoWayBack(offsets: seq<nat>, n: nat)
    requires n >= 1
  {
    forall i, j :: 0 < i < |offsets| && 0 < j < |offsets| ==> (offsets[i] + offsets[j]) % n != 0
  }

  /** While there are fewer entries than probes, none is refused. */
  method InsertNext(m: DenseMapObj, c: nat)
    requires m.Valid() && m.Entries() == FirstKeys(c) && c + 1 <= m.env.n * 3 / 4 && c < |Reach(m.env)|
    modifies m
    ensures m.Valid() && m.Entries() == FirstKeys(c + 1)
  {
    NextKeyIsNew(c);
    EntriesFit(m);
    var index, inserted := m.TryInsertOrUpdate(c, 0, false);
  }

  /** Nor is one that belongs on the chain of key 0, when the end of that chain has an empty slot in reach. */
  method InsertBehindZero(m: DenseMapObj, c: nat)
    requires m.Valid() && m.Entries() == FirstKeys(c) && c + 1 <= m.env.n * 3 / 4 && c > 0
    requires m.env.home(c) == m.env.home(0) && !m.EndIsHemmedIn(m.env.home(0))
    modifies m
    ensures m.Valid() && m.Entries() == FirstKeys(c + 1)
  {
    NextKeyIsNew(c);
    EntriesFit(m);
    assert m.Entries()[0].0 == 0;
    HomeSlotIsHead(m, 0);
    var index, inserted := m.TryInsertOrUpdate(c, 0, false);
  }

  lemma EndIsFull(m: DenseMapObj, h: int)
    requires m.Valid() && h in m.chains && m.chains[h] != []
    ensures var e := m.chains[h][|m.chains[h]| - 1];
      IsFull(m.slots, e) && e in m.order
  {
    assert ChainOk(m.env, m.slots, h, m.chains[h]);
    StretchIsFull(m.env, m.slots, h, m.chains[h], true, -1);
    assert m.chains[h][|m.chains[h]| - 1] in m.chains[h];
  }

  /** With as many entries as probes the end of a chain is not hemmed in. */
  lemma EndIsFree(m: DenseMapObj, h: int)
    requires m.Valid() && m.size <= |Reach(m.env)|
    ensures !m.EndIsHemmedIn(h)
  {
    if m.EndIsHemmedIn(h) {
      EndIsFull(m, h);
      HemmedInCount(m.env, m.slots, m.order, {}, m.chains[h][|m.chains[h]| - 1]);
      assert false;
    }
  }

  lemma FarSlotsAreListed(m: DenseMapObj, e: nat)
    requires m.Valid() && e < m.env.n && NoEmptyInReach(m.env, m.slots, e)
    ensures Shifted(Reach(m.env), e, m.env.n) <= Elements(m.order)
  {
    HemmedInSlots(m.env, m.slots, e);
    forall t | t in Shifted(Reach(m.env), e, m.env.n) ensures t in Elements(m.order) {
      assert IsFull(m.slots, t);
    }
  }

  lemma CountWithTwoMore(far: set<int>, order: seq<int>, e: int)
    requires far <= Elements(order) && e in order && 0 in order && e !in far && 0 !in far && e != 0
    ensures |far| + 2 <= |order|
  {
    SubsetCount(far + {e, 0}, Elements(order));
    ElementsCount(order);
  }

  /** With one more it is not either, if the head lies out of its reach. */
  lemma PairEndIsFree(m: DenseMapObj)
    requires m.Valid() && m.size <= |Reach(m.env)| + 1 && NoWayBack(m.env.offsets, m.env.n)
    requires exists off :: 0 < off < |m.env.offsets| && 0 in m.chains && m.chains[0] == [0, ProbeSlot(m.env, 0, off)]
    ensures !m.EndIsHemmedIn(0)
  {
    if m.EndIsHemmedIn(0) {
      var off :| 0 < off < |m.env.offsets| && 0 in m.chains && m.chains[0] == [0, ProbeSlot(m.env, 0, off)];
      var e := ProbeSlot(m.env, 0, off);
      EndIsFull(m, 0);
      HemmedInSlots(m.env, m.slots, e);
      FarSlotsAreListed(m, e);
      ZeroOutOfReach(m.env, off);
      assert ChainOk(m.env, m.slots, 0, [0, e]) && LinkOk(m.env, m.slots, 0, [0, e], 0, true, -1);
      CountWithTwoMore(Shifted(Reach(m.env), e, m.env.n), m.order, e);
      assert false;
    }
  }

  lemma ZeroOutOfReach(env: Env, off: nat)
    requires env.n >= 1 && 0 < off < |env.offsets| && NoWayBack(env.offsets, env.n)
    ensures 0 !in Shifted(Reach(env), env.offsets[off] % env.n, env.n)
  {
    forall d | d in Reach(env) && (env.offsets[off] % env.n + d) % env.n == 0 ensures false {
      var i :| 0 < i < |env.offsets| && env.offsets[i] % env.n == d;
      ModOfMod(env.offsets[off] % env.n, env.offsets[i], env.n);
      ModOfMod(env.offsets[i], env.offsets[off], env.n);
    }
  }

  /** What the run needs of the old table. */
  ghost predicate IsRoomy(homes: seq<nat>, env: Env)
  {
    && EnvOk(env) && env.home == OldHome(homes, env.n) && |homes| + 1 <= env.n * 3 / 4
    && |Reach(env)| == |homes| - 2 && NoWayBack(env.offsets, env.n)
  }

  /** Inserts the keys that will not fit into the grown table. */
  method InsertCluster(homes: seq<nat>, m: DenseMapObj)
    requires m.Valid() && m.Entries() == [] && IsCluster(homes, m.env.n) && IsRoomy(homes, m.env)
    modifies m
    ensures m.Valid() && m.Entries() == FirstKeys(|homes|)
  {
    for j := 0 to |homes| - 2
      invariant m.Valid() && m.Entries() == FirstKeys(j)
    {
      InsertNext(m, j);
    }
    EntriesFit(m);
    EndIsFree(m, 0);
    InsertBehindZero(m, |homes| - 2);
    InsertLast(homes, m);
  }

  method InsertLast(homes: seq<nat>, m: DenseMapObj)
    requires m.Valid() && IsCluster(homes, m.env.n) && m.Entries() == FirstKeys(|homes| - 1) && IsRoomy(homes, m.env)
    modifies m
    ensures m.Valid() && m.Entries() == FirstKeys(|homes|)
  {
    EntriesFit(m);
    OldPair(homes, m);
    PairEndIsFree(m);
    InsertBehindZero(m, |homes| - 1);
  }

  /** In the old table the two keys of slots 0 and 1 share slot 0, and no other of the keys so far does. */
  lemma OldPair(homes: seq<nat>, m: DenseMapObj)
    requires m.Valid() && IsCluster(homes, m.env.n) && m.Entries() == FirstKeys(|homes| - 1)
    requires m.env.home == OldHome(homes, m.env.n)
    ensures exists off :: 0 < off < |m.env.offsets| && 0 in m.chains && m.chains[0] == [0, ProbeSlot(m.env, 0, off)]
  {
    var last := |homes| - 2;
    assert m.Entries()[0].0 == 0 && m.Entries()[last].0 == last;
    forall k | HasKey(m.Entries(), k) && m.env.home(k) == 0 ensures k == 0 || k == last {
      assert 0 <= k <= last;
    }
    var off := PairChain(m, 0, 0, last);
  }

  // ----- The run -----

  /** A table with fewer entries than slots has an empty slot. */
  method FindEmpty(m: DenseMapObj) returns (p: nat)
    requires m.Valid() && m.size < m.env.n
    ensures p < m.env.n && m.slots[p].Empty?
  {
    p := 0;
    while p < m.env.n && !m.slots[p].Empty?
      invariant p <= m.env.n && forall t :: 0 <= t < p ==> !m.slots[t].Empty?
    {
      p := p + 1;
    }
    if p == m.env.n {
      SubsetCount(AllSlots(m.env.n), Elements(m.order));
      ElementsCount(m.order);
      assert false;
    }
  }

  /** The cluster, and fillers with even home slots in the grown table. */
  ghost predicate IsRunList(homes: seq<nat>, n: nat, items: seq<Item>)
  {
    && OfRun(homes, n, items) && HasCluster(homes, items)
    && forall k :: HasKey(items, k) && k >= |homes| ==> (k - |homes|) % 2 == 0
  }

  function FillerKey(homes: seq<nat>, p: nat): Key
  {
    |homes| + 2 * p
  }

  /** Inserts a filler in an empty slot of the old table. */
  method InsertFiller(homes: seq<nat>, m: DenseMapObj) returns (p: nat)
    requires m.Valid() && IsCluster(homes, m.env.n) && m.env.home == OldHome(homes, m.env.n) && m.size < m.env.n
    requires IsRunList(homes, m.env.n, m.Entries())
    modifies m
    ensures m.Valid() && IsRunList(homes, m.env.n, m.Entries()) && m.size == old(m.size) + 1
    ensures p < m.env.n && IsFreeHome(homes, p) && HasKey(m.Entries(), FillerKey(homes, p))
  {
    p := FindEmpty(m);
    EmptyIsFree(homes, m, p);
    ghost var before := m.Entries();
    EntriesFit(m);
    var k := FillerKey(homes, p);
    AfterFiller(homes, m.env.n, before, p);
    var index, inserted := m.TryInsertOrUpdate(k, 0, false);
    EntriesFit(m);
  }

  lemma EmptyIsFree(homes: seq<nat>, m: DenseMapObj, p: nat)
    requires m.Valid() && IsCluster(homes, m.env.n) && m.env.home == OldHome(homes, m.env.n)
    requires IsRunList(homes, m.env.n, m.Entries()) && p < m.env.n && m.slots[p].Empty?
    ensures IsFreeHome(homes, p) && !HasKey(m.Entries(), FillerKey(homes, p)) && m.env.home(FillerKey(homes, p)) == p
  {
    forall c | 0 <= c < |homes| ensures homes[c] / 2 != p {
      HomeSlotIsHead(m, c);
    }
    if HasKey(m.Entries(), FillerKey(homes, p)) {
      HomeSlotIsHead(m, FillerKey(homes, p));
      assert false;
    }
  }

  lemma AfterFiller(homes: seq<nat>, n: nat, items: seq<Item>, p: nat)
    requires IsRunList(homes, n, items) && IsFreeHome(homes, p) && p < n
    ensures IsRunList(homes, n, items + [(FillerKey(homes, p), 0)])
    ensures HasKey(items + [(FillerKey(homes, p), 0)], FillerKey(homes, p))
  {
    KeysAfter(items, FillerKey(homes, p));
  }

  lemma KeysAfter(items: seq<Item>, k: Key)
    ensures forall c :: HasKey(items + [(k, 0)], c) <==> HasKey(items, c) || c == k
  {
    var items' := items + [(k, 0)];
    assert items'[|items|].0 == k;
    forall c | HasKey(items, c) ensures HasKey(items', c) {
      var i :| 0 <= i < |items| && items[i].0 == c;
      assert items'[i].0 == c;
    }
    forall c | HasKey(items', c) ensures HasKey(items, c) || c == k {
      var i :| 0 <= i < |items'| && items'[i].0 == c;
      if i < |items| {
        assert items[i].0 == c;
      }
    }
  }

  lemma FirstKeysAreRun(homes: seq<nat>, n: nat)
    ensures IsRunList(homes, n, FirstKeys(|homes|))
  {
    var items := FirstKeys(|homes|);
    forall k: Key | 0 <= k < |homes| ensures HasKey(items, k) {
      assert items[k].0 == k;
    }
  }

  /** Fills the old table with the cluster and with fillers, up to its load limit. */
  method FillUp(homes: seq<nat>, m: DenseMapObj) returns (p: nat)
    requires m.Valid() && m.Entries() == [] && IsCluster(homes, m.env.n) && IsRoomy(homes, m.env)
    modifies m
    ensures m.Valid() && IsRunList(homes, m.env.n, m.Entries()) && m.IsTableFull()
    ensures p < m.env.n && IsFreeHome(homes, p) && HasKey(m.Entries(), FillerKey(homes, p))
  {
    InsertCluster(homes, m);
    EntriesFit(m);
    FirstKeysAreRun(homes, m.env.n);
    p := InsertFiller(homes, m);
    while !m.IsTableFull()
      invariant m.Valid() && IsRunList(homes, m.env.n, m.Entries())
      invariant p < m.env.n && IsFreeHome(homes, p) && HasKey(m.Entries(), FillerKey(homes, p))
      decreases m.env.n - m.size
    {
      p := InsertFiller(homes, m);
    }
  }

  lemma BeforeGrowing(homes: seq<nat>, m: DenseMapObj, p: nat)
    requires m.Valid() && IsCluster(homes, m.env.n) && m.env.home == OldHome(homes, m.env.n)
    requires IsRunList(homes, m.env.n, m.Entries()) && p < m.env.n && HasKey(m.Entries(), FillerKey(homes, p))
    ensures !HasKey(m.Entries(), LateKey(homes, p)) && m.env.home(LateKey(homes, p)) == p && !m.slots[p].Empty?
  {
    HomeSlotIsHead(m, FillerKey(homes, p));
  }

  /** What there is after growing for the late key. */
  lemma AfterGrowing(homes: seq<nat>, n: nat, before: seq<Item>, kept: seq<Item>, m: DenseMapObj, p: nat,
                     inserted: bool)
    requires IsCluster(homes, n) && IsRunList(homes, n, before) && p < n && IsFreeHome(homes, p)
    requires IsSubsequence(kept, before) && !HasKey(before, LateKey(homes, p))
    requires m.Valid() && m.env.n == 2 * n && m.env.home == NewHome(homes, n) && ProbesCovered(homes, m.env)
    requires m.Entries() == if inserted then kept + [(LateKey(homes, p), 0)] else kept
    requires !inserted ==> !m.slots[2 * p + 1].Empty?
    ensures inserted && kept != before
  {
    SubsequenceFacts(kept, before);
    KeysAfter(kept, LateKey(homes, p));
    assert IsRunKey(homes, n, LateKey(homes, p));
    NoRoomForAll(homes, n, m);
    if !inserted {
      LateSlotIsEmpty(homes, n, m, p);
    }
  }

  /** A run of insertions, none of them refused, after which growing to hold one more key loses an entry, and yet
      reports that the key is in. */
  method GrowthLosesEntry(homes: seq<nat>, m: DenseMapObj, bigger: DenseMapObj)
    returns (ghost before: seq<Item>, k: Key, inserted: bool, ghost kept: seq<Item>)
    requires m != bigger && m.Valid() && m.Entries() == [] && bigger.Valid() && bigger.Entries() == []
    requires bigger.env.n == 2 * m.env.n && bigger.env.home == NewHome(homes, m.env.n)
    requires IsCluster(homes, m.env.n) && IsRoomy(homes, m.env) && ProbesCovered(homes, bigger.env)
    modifies m, bigger
    ensures DistinctKeys(before) && !HasKey(before, k) && IsSubsequence(kept, before) && |kept| < |before|
    ensures inserted && bigger.Valid() && bigger.Entries() == kept + [(k, 0)]
  {
    var p := FillUp(homes, m);
    k, before := LateKey(homes, p), m.Entries();
    BeforeGrowing(homes, m, p);
    ValidKeysAreDistinct(m);
    NotCrowded(homes, m.env.n, bigger.env, before);
    var impl, index, torn;
    impl, index, inserted, torn, kept := InsertImpl(m, bigger, k, 0, false);
    assert !torn && impl == bigger;
    AfterGrowing(homes, m.env.n, before, kept, bigger, p, inserted);
  }
}
