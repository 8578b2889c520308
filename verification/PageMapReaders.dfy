/** Readers of the page map beside its writer. A reader takes no lock: each of its loads is one step, and so is
    each store the writer makes while it holds the shard's mutex; memory is sequentially consistent. Allocation
    always selects shard zero, so there is one writer at a time. The writer's steps are the stores `SetSpan` and
    `ClearRange` consist of, in any order and for any pages. */
module PageMapReaders {
  import opened RadixPageMap

  /** Where a reader is inside `GetSpan`: which node its next load reads, or the answer. */
  datatype Reader =
    | Idle
    | AtRoot(page: nat)
    | AtNode(page: nat, level: nat, node: nat)
    | Done(page: nat, span: nat)

  datatype State = State(published: bool, tree: Radix, places: seq<Place>, readers: seq<Reader>)

  datatype Action =
    | Publish                        // the root becomes visible
    | Link(page: nat)                // the first node missing on the path to the page
    | Write(page: nat, span: nat)    // the page's entry in its leaf
    | Start(reader: nat, page: nat)  // the load of the root pointer
    | Load(reader: nat)              // the next load of a reader

  // ----- The writer -----

  /** The first missing node on the path to `p`, fresh from the pool and linked in. */
  ghost function AfterLink(t: Radix, places: seq<Place>, p: nat): (Radix, seq<Place>)
    requires WellFormed(t, places) && p < PAGE_LIMIT && Node3(t, places, p) == 0
  {
    if Node1(t, places, p) == 0 then
      (Grow(t).(root := t.root[Index0(p) := |t.pool| + 1]), places + [Place(1, p / L0_COVERAGE)])
    else if Node2(t, places, p) == 0 then
      (Linked(t, places, Node1(t, places, p), Index1(p)), places + [Place(2, p / L1_COVERAGE)])
    else
      (Linked(t, places, Node2(t, places, p), Index2(p)), places + [Place(3, p / L2_COVERAGE)])
  }

  /** Nodes stay where they are once linked. */
  ghost predicate PathKept(t: Radix, places: seq<Place>, t': Radix, places': seq<Place>, q: nat)
    requires WellFormed(t, places) && WellFormed(t', places') && q < PAGE_LIMIT
  {
    && (Node1(t, places, q) != 0 ==> Node1(t', places', q) == Node1(t, places, q))
    && (Node2(t, places, q) != 0 ==> Node2(t', places', q) == Node2(t, places, q))
    && (Node3(t, places, q) != 0 ==> Node3(t', places', q) == Node3(t, places, q))
  }

  ghost predicate PathsKept(t: Radix, places: seq<Place>, t': Radix, places': seq<Place>)
    requires WellFormed(t, places) && WellFormed(t', places')
  {
    forall q: nat :: q < PAGE_LIMIT ==> PathKept(t, places, t', places', q)
  }

  /** Filling an empty entry, or any entry of a leaf, keeps the paths. */
  lemma StoreKeepsPaths(t: Radix, places: seq<Place>, id: nat, i: nat, v: nat)
    requires WellFormed(t, places) && 0 < id <= |t.pool| && i < FANOUT
    requires WellFormed(t.Store(id, i, v), places) && (places[id - 1].level == 3 || t.pool[id - 1][i] == 0)
    ensures PathsKept(t, places, t.Store(id, i, v), places)
  {
    var t' := t.Store(id, i, v);
    forall q: nat | q < PAGE_LIMIT ensures PathKept(t, places, t', places, q) {
      assert Node1(t', places, q) == Node1(t, places, q);
    }
  }

  lemma RootLinkKeepsPaths(t: Radix, places: seq<Place>, p: nat)
    requires WellFormed(t, places) && p < PAGE_LIMIT && Node1(t, places, p) == 0
    ensures var t' := Grow(t).(root := t.root[Index0(p) := |t.pool| + 1]);
      var places' := places + [Place(1, p / L0_COVERAGE)];
      WellFormed(t', places') && PathsKept(t, places, t', places')
  {
    var t' := Grow(t).(root := t.root[Index0(p) := |t.pool| + 1]);
    var places' := places + [Place(1, p / L0_COVERAGE)];
    GrowKeepsLookups(t, places, Place(1, p / L0_COVERAGE));
    LinkUnderRoot(t, places, p);
    forall q: nat | q < PAGE_LIMIT ensures PathKept(t, places, t', places', q) {
      if Index0(q) != Index0(p) {
        assert Node1(t', places', q) == Node1(Grow(t), places', q);
        assert Node2(t', places', q) == Node2(Grow(t), places', q);
      }
    }
  }

  lemma GrowThenStoreKeepsPaths(t: Radix, places: seq<Place>, place: Place, id: nat, i: nat)
    requires WellFormed(t, places) && 1 <= place.level <= 3 && 0 < id <= |t.pool| && i < FANOUT
    requires WellFormed(Linked(t, places, id, i), places + [place])
    requires |t.pool[id - 1]| == FANOUT && t.pool[id - 1][i] == 0
    ensures PathsKept(t, places, Linked(t, places, id, i), places + [place])
  {
    var g, places' := Grow(t), places + [place];
    GrowKeepsLookups(t, places, place);
    StoreKeepsPaths(g, places', id, i, |t.pool| + 1);
    forall q: nat | q < PAGE_LIMIT ensures PathKept(t, places, Linked(t, places, id, i), places', q) {
      assert PathKept(g, places', g.Store(id, i, |t.pool| + 1), places', q);
    }
  }

  lemma LinkKeepsPaths(t: Radix, places: seq<Place>, p: nat)
    requires WellFormed(t, places) && p < PAGE_LIMIT && Node3(t, places, p) == 0
    ensures var (t', places') := AfterLink(t, places, p);
      WellFormed(t', places') && SameLookups(t, places, t', places') && PathsKept(t, places, t', places')
  {
    if Node1(t, places, p) == 0 {
      LinkUnderRoot(t, places, p);
      RootLinkKeepsPaths(t, places, p);
    } else if Node2(t, places, p) == 0 {
      LinkUnderLevel1(t, places, p);
      assert NodeOk(t.pool[Node1(t, places, p) - 1], places, places[Node1(t, places, p) - 1]);
      GrowThenStoreKeepsPaths(t, places, Place(2, p / L1_COVERAGE), Node1(t, places, p), Index1(p));
    } else {
      LinkUnderLevel2(t, places, p);
      assert NodeOk(t.pool[Node2(t, places, p) - 1], places, places[Node2(t, places, p) - 1]);
      GrowThenStoreKeepsPaths(t, places, Place(3, p / L2_COVERAGE), Node2(t, places, p), Index2(p));
    }
  }

  // ----- The readers -----

  ghost function NodeAt(s: State, p: nat, level: nat): nat
    requires WellFormed(s.tree, s.places) && p < PAGE_LIMIT && 1 <= level <= 3
  {
    if level == 1 then Node1(s.tree, s.places, p)
    else if level == 2 then Node2(s.tree, s.places, p)
    else Node3(s.tree, s.places, p)
  }

  function IndexAt(p: nat, level: nat): (i: nat)
    requires 1 <= level <= 3
    ensures i < FANOUT
  {
    if level == 1 then Index1(p) else if level == 2 then Index2(p) else Index3(p)
  }

  /** A reader inside the tree stands on its page's path. */
  ghost predicate ReaderOk(s: State, r: Reader)
    requires WellFormed(s.tree, s.places)
  {
    match r
    case AtRoot(p) => s.published && p < PAGE_LIMIT
    case AtNode(p, level, node) =>
      s.published && p < PAGE_LIMIT && 1 <= level <= 3 && node != 0 && node == NodeAt(s, p, level)
    case _ => true
  }

  ghost predicate TreeOk(s: State)
  {
    WellFormed(s.tree, s.places) && (!s.published ==> s.tree.pool == [])
  }

  ghost predicate Inv(s: State)
  {
    TreeOk(s) && forall i :: 0 <= i < |s.readers| ==> ReaderOk(s, s.readers[i])
  }

  ghost function View(s: State, p: nat): nat
    requires TreeOk(s)
  {
    if s.published then Lookup(s.tree, s.places, p) else 0
  }

  /** The reader after its next load. */
  ghost function Loaded(s: State, r: Reader): Reader
    requires TreeOk(s) && ReaderOk(s, r) && (r.AtRoot? || r.AtNode?)
  {
    match r
    case AtRoot(p) =>
      var v := s.tree.root[Index0(p)];
      if v == 0 then Done(p, 0) else AtNode(p, 1, v)
    case AtNode(p, level, node) =>
      assert NodeOk(s.tree.pool[node - 1], s.places, s.places[node - 1]);
      var v := s.tree.pool[node - 1][IndexAt(p, level)];
      if level == 3 then Done(p, v) else if v == 0 then Done(p, 0) else AtNode(p, level + 1, v)
  }

  ghost function Started(s: State, p: nat): Reader
  {
    if !s.published || Index0(p) >= FANOUT then Done(p, 0) else AtRoot(p)
  }

  ghost predicate Next(s: State, a: Action, s': State)
    requires Inv(s)
  {
    match a
    case Publish => s' == s.(published := true)
    case Link(p) =>
      && s.published && p < PAGE_LIMIT && Node3(s.tree, s.places, p) == 0
      && var (t, places) := AfterLink(s.tree, s.places, p); s' == s.(tree := t, places := places)
    case Write(p, v) =>
      && s.published && p < PAGE_LIMIT && Node3(s.tree, s.places, p) != 0
      && s' == s.(tree := LeafWritten(s, p, v))
    case Start(i, p) =>
      && i < |s.readers| && (s.readers[i].Idle? || s.readers[i].Done?)
      && s' == s.(readers := s.readers[i := Started(s, p)])
    case Load(i) =>
      && i < |s.readers| && (s.readers[i].AtRoot? || s.readers[i].AtNode?)
      && s' == s.(readers := s.readers[i := Loaded(s, s.readers[i])])
  }

  ghost function LeafWritten(s: State, p: nat, v: nat): Radix
    requires TreeOk(s) && p < PAGE_LIMIT && Node3(s.tree, s.places, p) != 0
  {
    var leaf := Node3(s.tree, s.places, p);
    assert NodeOk(s.tree.pool[leaf - 1], s.places, s.places[leaf - 1]);
    s.tree.Store(leaf, Index3(p), v)
  }

  /** A store of the writer keeps the tree and the paths, and changes the span of the page written at most. */
  lemma WriterStep(s: State, a: Action, s': State)
    requires Inv(s) && Next(s, a, s') && !a.Start? && !a.Load?
    ensures TreeOk(s') && PathsKept(s.tree, s.places, s'.tree, s'.places)
    ensures forall q: nat :: View(s', q) == if a.Write? && a.page == q then a.span else View(s, q)
  {
    match a
    case Publish =>
    case Link(p) => LinkKeepsPaths(s.tree, s.places, p);
    case Write(p, v) =>
      LeafStore(s.tree, s.places, p, Node3(s.tree, s.places, p), v);
      StoreKeepsPaths(s.tree, s.places, Node3(s.tree, s.places, p), Index3(p), v);
  }

  /** A load keeps the reader on the path, and an answer is the span the map holds at that moment. */
  lemma LoadIsRight(s: State, r: Reader)
    requires TreeOk(s) && ReaderOk(s, r) && (r.AtRoot? || r.AtNode?)
    ensures ReaderOk(s, Loaded(s, r)) && (Loaded(s, r).AtNode? || Loaded(s, r).Done?) && Loaded(s, r).page == r.page
    ensures Loaded(s, r).Done? ==> Loaded(s, r).span == View(s, r.page)
  {
  }

  /** A run from the empty map. Steps are defined on states that satisfy the invariant, which all of them do. */
  ghost predicate IsRun(states: seq<State>, actions: seq<Action>)
  {
    && |states| == |actions| + 1 && states[0].tree == Radix(seq(FANOUT, _ => 0), []) && states[0].places == []
    && !states[0].published && (forall i :: 0 <= i < |states[0].readers| ==> states[0].readers[i].Idle?)
    && forall k :: 0 <= k < |actions| ==> Inv(states[k]) ==> Next(states[k], actions[k], states[k + 1])
  }

  lemma StepKeepsInv(s: State, a: Action, s': State)
    requires Inv(s) && Next(s, a, s')
    ensures Inv(s')
  {
    match a
    case Start(i, p) =>
    case Load(i) => LoadIsRight(s, s.readers[i]);
    case _ =>
      WriterStep(s, a, s');
      forall i | 0 <= i < |s.readers| ensures ReaderOk(s', s'.readers[i]) {
        var r := s.readers[i];
        assert ReaderOk(s, r);
        if r.AtNode? {
          assert PathKept(s.tree, s.places, s'.tree, s'.places, r.page);
        }
      }
  }

  lemma {:induction false} RunKeepsInv(states: seq<State>, actions: seq<Action>, k: nat)
    requires IsRun(states, actions) && k <= |actions|
    ensures Inv(states[k])
  {
    if k > 0 {
      RunKeepsInv(states, actions, k - 1);
      StepKeepsInv(states[k - 1], actions[k - 1], states[k]);
    }
  }

  /** Every answer is the span that the map holds for the page at the step that gives it. */
  lemma ReadsAreLinearizable(states: seq<State>, actions: seq<Action>, k: nat, i: nat)
    requires IsRun(states, actions) && k < |actions| && i < |states[k].readers|
    requires actions[k] == Load(i) || (actions[k].Start? && actions[k].reader == i)
    ensures Inv(states[k]) && i < |states[k + 1].readers|
    ensures states[k + 1].readers[i].Done? ==>
              states[k + 1].readers[i].span == View(states[k], states[k + 1].readers[i].page)
  {
    RunKeepsInv(states, actions, k);
    assert Next(states[k], actions[k], states[k + 1]);
    if actions[k].Load? {
      LoadIsRight(states[k], states[k].readers[i]);
    }
  }

  /** Reader `i` has been looking up `p`, and no other page, since step `a`. */
  ghost predicate OneRead(states: seq<State>, actions: seq<Action>, a: nat, b: nat, i: nat, p: nat)
  {
    && a < b <= |actions| && actions[a] == Start(i, p)
    && forall k :: a < k < b ==> !(actions[k].Start? && actions[k].reader == i)
  }

  /** A page that keeps its span throughout a read is found, whatever the writer does to other pages meanwhile. */
  lemma {:induction false} StableMappingIsFound(
      states: seq<State>, actions: seq<Action>, a: nat, b: nat, i: nat, p: nat, v: nat)
    requires IsRun(states, actions) && OneRead(states, actions, a, b, i, p)
    requires forall k :: a <= k < b ==> TreeOk(states[k]) && View(states[k], p) == v
    ensures Inv(states[b]) && i < |states[b].readers| && !states[b].readers[i].Idle? && states[b].readers[i].page == p
    ensures states[b].readers[i].Done? ==> states[b].readers[i].span == v
    decreases b
  {
    RunKeepsInv(states, actions, b - 1);
    RunKeepsInv(states, actions, b);
    assert TreeOk(states[b - 1]) && View(states[b - 1], p) == v;
    if a < b - 1 {
      StableMappingIsFound(states, actions, a, b - 1, i, p, v);
      if actions[b - 1] == Load(i) {
        LoadIsRight(states[b - 1], states[b - 1].readers[i]);
      }
    }
  }
}
