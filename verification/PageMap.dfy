/** The page map: a four-level radix tree, built lazily, from page ids to spans. Nodes live in a pool and
    refer to each other by number, 0 standing for null; leaves hold span numbers, 0 again for null. */
module RadixPageMap {

  const FANOUT: nat := 512              // entries per node, 9 bits per level
  const L2_COVERAGE: nat := 512         // pages below one level-2 entry
  const L1_COVERAGE: nat := 262144      // pages below one level-1 entry
  const L0_COVERAGE: nat := 134217728   // pages below one root entry
  const PAGE_LIMIT: nat := 68719476736  // pages below the root

  /** The storage of the tree: the root's entries and the pool of nodes; node `k` is `pool[k - 1]`. */
  datatype Radix = Radix(root: seq<nat>, pool: seq<seq<nat>>)
  {
    /** Entry `i` of node `id`; null has only null entries. */
    function Child(id: nat, i: nat): nat
      requires id != 0 ==> id <= |pool| && i < |pool[id - 1]|
    {
      if id == 0 then 0 else pool[id - 1][i]
    }

    function Store(id: nat, i: nat, v: nat): Radix
      requires 0 < id <= |pool| && i < |pool[id - 1]|
    {
      var node: seq<nat> := pool[id - 1][i := v];
      this.(pool := pool[id - 1 := node])
    }
  }

  /** The place of a node: its level and the page-id bits above it. */
  datatype Place = Place(level: nat, prefix: nat)

  /** The entry `v` of a node at `place` is null or leads to the node at the place it extends to. */
  ghost predicate EntryOk(places: seq<Place>, place: Place, i: nat, v: nat)
  {
    v == 0 || (v <= |places| && places[v - 1] == Place(place.level + 1, place.prefix * FANOUT + i))
  }

  ghost predicate NodeOk(node: seq<nat>, places: seq<Place>, place: Place)
  {
    && |node| == FANOUT && 1 <= place.level <= 3
    && (place.level < 3 ==> forall i :: 0 <= i < FANOUT ==> EntryOk(places, place, i, node[i]))
  }

  /** Every reference leads to a node whose place extends the referring place, so no two slots share a node. */
  ghost predicate WellFormed(t: Radix, places: seq<Place>)
  {
    && |t.root| == FANOUT && |places| == |t.pool|
    && (forall i :: 0 <= i < FANOUT ==> EntryOk(places, Place(0, 0), i, t.root[i]))
    && (forall k :: 0 <= k < |t.pool| ==> NodeOk(t.pool[k], places, places[k]))
  }

  function Index0(p: nat): nat { p / L0_COVERAGE }
  function Index1(p: nat): nat { p / L1_COVERAGE % FANOUT }
  function Index2(p: nat): nat { p / L2_COVERAGE % FANOUT }
  function Index3(p: nat): nat { p % FANOUT }

  /** The bits above a level extend those above the level before it. */
  lemma PrefixExtends(p: nat)
    ensures p / L1_COVERAGE == p / L0_COVERAGE * FANOUT + Index1(p)
    ensures p / L2_COVERAGE == p / L1_COVERAGE * FANOUT + Index2(p)
  {
  }

  /** The nodes on the path to page `p`. */
  function Node1(t: Radix, ghost places: seq<Place>, p: nat): (n: nat)
    requires WellFormed(t, places) && p < PAGE_LIMIT
    ensures n <= |t.pool| && (n != 0 ==> places[n - 1] == Place(1, p / L0_COVERAGE))
  {
    assert EntryOk(places, Place(0, 0), Index0(p), t.root[Index0(p)]);
    t.root[Index0(p)]
  }

  function Node2(t: Radix, ghost places: seq<Place>, p: nat): (n: nat)
    requires WellFormed(t, places) && p < PAGE_LIMIT
    ensures n <= |t.pool| && (n != 0 ==> places[n - 1] == Place(2, p / L1_COVERAGE))
  {
    var n := Node1(t, places, p);
    assert n != 0 ==> NodeOk(t.pool[n - 1], places, places[n - 1]);
    assert n != 0 ==> EntryOk(places, places[n - 1], Index1(p), t.pool[n - 1][Index1(p)]);
    PrefixExtends(p);
    t.Child(n, Index1(p))
  }

  function Node3(t: Radix, ghost places: seq<Place>, p: nat): (n: nat)
    requires WellFormed(t, places) && p < PAGE_LIMIT
    ensures n <= |t.pool| && (n != 0 ==> places[n - 1] == Place(3, p / L2_COVERAGE))
  {
    var n := Node2(t, places, p);
    assert n != 0 ==> NodeOk(t.pool[n - 1], places, places[n - 1]);
    assert n != 0 ==> EntryOk(places, places[n - 1], Index2(p), t.pool[n - 1][Index2(p)]);
    PrefixExtends(p);
    t.Child(n, Index2(p))
  }

  /** The span the tree holds for page `p`, 0 when there is none. */
  function Lookup(t: Radix, ghost places: seq<Place>, p: nat): nat
    requires WellFormed(t, places)
  {
    if p < PAGE_LIMIT then t.Child(Node3(t, places, p), Index3(p)) else 0
  }

  ghost predicate SameLookups(t: Radix, places: seq<Place>, t': Radix, places': seq<Place>)
    requires WellFormed(t, places) && WellFormed(t', places')
  {
    forall q: nat :: Lookup(t', places', q) == Lookup(t, places, q)
  }

  lemma SameLookupsCompose(t1: Radix, places1: seq<Place>, t2: Radix, places2: seq<Place>, t3: Radix,
                           places3: seq<Place>)
    requires WellFormed(t1, places1) && WellFormed(t2, places2) && WellFormed(t3, places3)
    requires SameLookups(t1, places1, t2, places2) && SameLookups(t2, places2, t3, places3)
    ensures SameLookups(t1, places1, t3, places3)
  {
    forall q: nat ensures Lookup(t3, places3, q) == Lookup(t1, places1, q) {
      assert Lookup(t2, places2, q) == Lookup(t1, places1, q);
    }
  }

  /** Pages that agree on the bits above a level share the path down to it. */
  lemma SharedPath(t: Radix, places: seq<Place>, p: nat, q: nat)
    requires WellFormed(t, places) && p < PAGE_LIMIT && q < PAGE_LIMIT
    ensures p / L0_COVERAGE == q / L0_COVERAGE ==> Node1(t, places, p) == Node1(t, places, q)
    ensures p / L1_COVERAGE == q / L1_COVERAGE ==> Node2(t, places, p) == Node2(t, places, q)
    ensures p / L2_COVERAGE == q / L2_COVERAGE ==> Node3(t, places, p) == Node3(t, places, q)
  {
  }

  /** A missing subtree maps no page: skipping to its end passes over nothing. */
  lemma MissingSubtreeIsEmpty(t: Radix, places: seq<Place>, p: nat, coverage: nat, q: nat)
    requires WellFormed(t, places) && p < PAGE_LIMIT
    requires || (coverage == L0_COVERAGE && Node1(t, places, p) == 0)
             || (coverage == L1_COVERAGE && Node2(t, places, p) == 0)
             || (coverage == L2_COVERAGE && Node3(t, places, p) == 0)
    requires p <= q < p + (coverage - p % coverage)
    ensures Lookup(t, places, q) == 0
  {
    if coverage == L0_COVERAGE {
      assert p / L0_COVERAGE == q / L0_COVERAGE;
    } else if coverage == L1_COVERAGE {
      assert p / L1_COVERAGE == q / L1_COVERAGE;
    } else {
      assert p / L2_COVERAGE == q / L2_COVERAGE;
    }
    if q < PAGE_LIMIT {
      SharedPath(t, places, p, q);
    }
  }

  /** A node fresh from the pool, not yet linked. */
  function Grow(t: Radix): Radix
  {
    t.(pool := t.pool + [seq(FANOUT, _ => 0)])
  }

  /** A fresh node linked into entry `i` of node `id`. */
  function Linked(t: Radix, ghost places: seq<Place>, id: nat, i: nat): Radix
    requires WellFormed(t, places) && 0 < id <= |t.pool| && i < FANOUT
  {
    assert NodeOk(t.pool[id - 1], places, places[id - 1]);
    Grow(t).Store(id, i, |t.pool| + 1)
  }

  lemma GrowKeepsLookups(t: Radix, places: seq<Place>, place: Place)
    requires WellFormed(t, places) && 1 <= place.level <= 3
    ensures WellFormed(Grow(t), places + [place])
    ensures forall q: nat :: q < PAGE_LIMIT ==>
              && Node1(Grow(t), places + [place], q) == Node1(t, places, q)
              && Node2(Grow(t), places + [place], q) == Node2(t, places, q)
              && Node3(Grow(t), places + [place], q) == Node3(t, places, q)
    ensures forall q: nat :: Lookup(Grow(t), places + [place], q) == Lookup(t, places, q)
  {
    var t', places' := Grow(t), places + [place];
    assert forall k :: 0 <= k < |t.pool| ==> t'.pool[k] == t.pool[k] && places'[k] == places[k];
    assert WellFormed(t', places');
  }

  /** A store at a level keeps the tree well formed when the value fits the place. */
  lemma StoreWellFormed(t: Radix, places: seq<Place>, id: nat, i: nat, v: nat)
    requires WellFormed(t, places) && 0 < id <= |t.pool| && i < FANOUT
    requires places[id - 1].level < 3 ==> 0 < v <= |t.pool|
    requires places[id - 1].level < 3 ==>
             places[v - 1] == Place(places[id - 1].level + 1, places[id - 1].prefix * FANOUT + i)
    ensures WellFormed(t.Store(id, i, v), places)
  {
    var t' := t.Store(id, i, v);
    assert forall k :: 0 <= k < |t.pool| && k != id - 1 ==> t'.pool[k] == t.pool[k];
    assert t'.pool[id - 1] == t.pool[id - 1][i := v];
  }

  /** A page is determined by its leaf and its entry in it. */
  lemma LeafEntryDeterminesPage(t: Radix, places: seq<Place>, p: nat, q: nat)
    requires WellFormed(t, places) && p < PAGE_LIMIT && q < PAGE_LIMIT
    requires Node3(t, places, p) != 0 && Node3(t, places, p) == Node3(t, places, q) && Index3(p) == Index3(q)
    ensures p == q
  {
    assert p / L2_COVERAGE == q / L2_COVERAGE;
  }

  /** The path to `q` after a store into a node of each level: it changes only below the slot written. */
  lemma PathAfterStore1(t: Radix, places: seq<Place>, id: nat, i: nat, v: nat, q: nat)
    requires WellFormed(t, places) && 0 < id <= |t.pool| && i < FANOUT && q < PAGE_LIMIT
    requires WellFormed(t.Store(id, i, v), places) && places[id - 1].level == 1
    ensures var t' := t.Store(id, i, v);
      Node2(t', places, q) == if Node1(t, places, q) == id && Index1(q) == i then v else Node2(t, places, q)
  {
    assert Node1(t.Store(id, i, v), places, q) == Node1(t, places, q);
  }

  lemma LookupAfterStore1(t: Radix, places: seq<Place>, id: nat, i: nat, v: nat, q: nat)
    requires WellFormed(t, places) && 0 < id <= |t.pool| && i < FANOUT && q < PAGE_LIMIT
    requires WellFormed(t.Store(id, i, v), places) && places[id - 1].level == 1
    requires !(Node1(t, places, q) == id && Index1(q) == i)
    ensures Lookup(t.Store(id, i, v), places, q) == Lookup(t, places, q)
  {
    PathAfterStore1(t, places, id, i, v, q);
    assert Node3(t.Store(id, i, v), places, q) == Node3(t, places, q);
  }

  lemma PathAfterStore2(t: Radix, places: seq<Place>, id: nat, i: nat, v: nat, q: nat)
    requires WellFormed(t, places) && 0 < id <= |t.pool| && i < FANOUT && q < PAGE_LIMIT
    requires WellFormed(t.Store(id, i, v), places) && places[id - 1].level == 2
    ensures var t' := t.Store(id, i, v);
      if Node2(t, places, q) == id && Index2(q) == i then Node3(t', places, q) == v
      else Lookup(t', places, q) == Lookup(t, places, q)
  {
    var t' := t.Store(id, i, v);
    assert Node1(t', places, q) == Node1(t, places, q);
    assert Node2(t', places, q) == Node2(t, places, q);
    if !(Node2(t, places, q) == id && Index2(q) == i) {
      assert Node3(t', places, q) == Node3(t, places, q);
    }
  }

  lemma PathAfterStore3(t: Radix, places: seq<Place>, id: nat, i: nat, v: nat, q: nat)
    requires WellFormed(t, places) && 0 < id <= |t.pool| && i < FANOUT && q < PAGE_LIMIT
    requires WellFormed(t.Store(id, i, v), places) && places[id - 1].level == 3
    ensures var t' := t.Store(id, i, v);
      && Node3(t', places, q) == Node3(t, places, q)
      && Lookup(t', places, q) == if Node3(t, places, q) == id && Index3(q) == i then v else Lookup(t, places, q)
  {
    var t' := t.Store(id, i, v);
    assert Node1(t', places, q) == Node1(t, places, q);
    assert Node2(t', places, q) == Node2(t, places, q);
  }

  /** Writing one leaf entry changes the lookup of one page. */
  lemma LeafStore(t: Radix, places: seq<Place>, p: nat, leaf: nat, span: nat)
    requires WellFormed(t, places) && p < PAGE_LIMIT && leaf == Node3(t, places, p) && leaf != 0
    ensures var t' := t.Store(leaf, Index3(p), span);
      && WellFormed(t', places)
      && (forall q: nat :: q < PAGE_LIMIT ==> Node3(t', places, q) == Node3(t, places, q))
      && (forall q: nat :: Lookup(t', places, q) == if q == p then span else Lookup(t, places, q))
  {
    var i := Index3(p);
    var t' := t.Store(leaf, i, span);
    StoreWellFormed(t, places, leaf, i, span);
    forall q: nat | q < PAGE_LIMIT
      ensures Node3(t', places, q) == Node3(t, places, q)
      ensures Lookup(t', places, q) == if q == p then span else Lookup(t, places, q)
    {
      PathAfterStore3(t, places, leaf, i, span, q);
      if Node3(t, places, q) == leaf && Index3(q) == i {
        LeafEntryDeterminesPage(t, places, p, q);
      }
    }
  }

  /** Linking a fresh node into an empty root entry maps no page. */
  lemma LinkUnderRoot(t: Radix, places: seq<Place>, p: nat)
    requires WellFormed(t, places) && p < PAGE_LIMIT && Node1(t, places, p) == 0
    ensures var t' := Grow(t).(root := t.root[Index0(p) := |t.pool| + 1]);
      var places' := places + [Place(1, p / L0_COVERAGE)];
      && WellFormed(t', places') && Node1(t', places', p) == |t.pool| + 1
      && SameLookups(t, places, t', places')
  {
    var t' := Grow(t).(root := t.root[Index0(p) := |t.pool| + 1]);
    var places' := places + [Place(1, p / L0_COVERAGE)];
    GrowKeepsLookups(t, places, Place(1, p / L0_COVERAGE));
    forall q: nat | q < PAGE_LIMIT ensures Lookup(t', places', q) == Lookup(t, places, q) {
      if Index0(q) == Index0(p) {
        assert Node2(t', places', q) == 0 && Node2(t, places, q) == 0;
      } else {
        assert Node1(t', places', q) == Node1(Grow(t), places', q);
        assert Node2(t', places', q) == Node2(Grow(t), places', q);
        assert Node3(t', places', q) == Node3(Grow(t), places', q);
      }
    }
  }

  /** Likewise below a level-1 node. */
  lemma LinkUnderLevel1(t: Radix, places: seq<Place>, p: nat)
    requires WellFormed(t, places) && p < PAGE_LIMIT && Node1(t, places, p) != 0 && Node2(t, places, p) == 0
    ensures var t' := Linked(t, places, Node1(t, places, p), Index1(p));
      var places' := places + [Place(2, p / L1_COVERAGE)];
      && WellFormed(t', places') && Node2(t', places', p) == |t.pool| + 1
      && SameLookups(t, places, t', places')
  {
    var parent, i, newId := Node1(t, places, p), Index1(p), |t.pool| + 1;
    var places' := places + [Place(2, p / L1_COVERAGE)];
    GrowKeepsLookups(t, places, Place(2, p / L1_COVERAGE));
    var g := Grow(t);
    var t' := Linked(t, places, parent, i);
    assert t' == g.Store(parent, i, newId);
    assert p / L1_COVERAGE == p / L0_COVERAGE * FANOUT + Index1(p);
    StoreWellFormed(g, places', parent, i, newId);
    PathAfterStore1(g, places', parent, i, newId, p);
    forall q: nat | q < PAGE_LIMIT ensures Lookup(t', places', q) == Lookup(g, places', q) {
      PathAfterStore1(g, places', parent, i, newId, q);
      if Node1(g, places', q) == parent && Index1(q) == i {
        assert Node3(t', places', q) == 0 && Node2(g, places', q) == 0;
      } else {
        LookupAfterStore1(g, places', parent, i, newId, q);
      }
    }
  }

  /** Likewise below a level-2 node. */
  lemma LinkUnderLevel2(t: Radix, places: seq<Place>, p: nat)
    requires WellFormed(t, places) && p < PAGE_LIMIT && Node2(t, places, p) != 0 && Node3(t, places, p) == 0
    ensures var t' := Linked(t, places, Node2(t, places, p), Index2(p));
      var places' := places + [Place(3, p / L2_COVERAGE)];
      && WellFormed(t', places') && Node3(t', places', p) == |t.pool| + 1
      && SameLookups(t, places, t', places')
  {
    var parent, i, newId := Node2(t, places, p), Index2(p), |t.pool| + 1;
    var places' := places + [Place(3, p / L2_COVERAGE)];
    GrowKeepsLookups(t, places, Place(3, p / L2_COVERAGE));
    var g := Grow(t);
    var t' := Linked(t, places, parent, i);
    assert t' == g.Store(parent, i, newId);
    assert p / L2_COVERAGE == p / L1_COVERAGE * FANOUT + Index2(p);
    StoreWellFormed(g, places', parent, i, newId);
    PathAfterStore2(g, places', parent, i, newId, p);
    forall q: nat | q < PAGE_LIMIT ensures Lookup(t', places', q) == Lookup(g, places', q) {
      PathAfterStore2(g, places', parent, i, newId, q);
      if Node2(g, places', q) == parent && Index2(q) == i {
        assert Node3(g, places', q) == 0;
      }
    }
  }

  /** The entries after a page's own, up to the end of the leaf, belong to the following pages. */
  lemma SameLeaf(t: Radix, places: seq<Place>, p: nat, k: nat)
    requires WellFormed(t, places) && p < PAGE_LIMIT && Index3(p) + k < FANOUT
    ensures p + k < PAGE_LIMIT && Index3(p + k) == Index3(p) + k
    ensures Node3(t, places, p + k) == Node3(t, places, p)
  {
    assert (p + k) / L2_COVERAGE == p / L2_COVERAGE;
    SharedPath(t, places, p, p + k);
  }

  /** `t` is `before` with the first `k` entries of leaf `p3` from page `p` on set to `span`. */
  ghost predicate FilledSoFar(before: Radix, t: Radix, places: seq<Place>, p: nat, p3: nat, k: nat, span: nat)
    requires p < PAGE_LIMIT
  {
    && WellFormed(before, places) && WellFormed(t, places) && p3 == Node3(t, places, p) && |t.pool| == |before.pool|
    && (forall q: nat :: Lookup(t, places, q) == if p <= q < p + k then span else Lookup(before, places, q))
  }

  lemma FillOne(before: Radix, t: Radix, places: seq<Place>, p: nat, p3: nat, k: nat, span: nat)
    requires p < PAGE_LIMIT && FilledSoFar(before, t, places, p, p3, k, span) && p3 != 0 && Index3(p) + k < FANOUT
    ensures FilledSoFar(before, t.Store(p3, Index3(p) + k, span), places, p, p3, k + 1, span)
  {
    SameLeaf(t, places, p, k);
    LeafStore(t, places, p + k, p3, span);
  }

  /** Creates the node missing at a level of the path to `p`; no page changes its span. */
  method EnsureLevel1(t: Radix, ghost places: seq<Place>, p: nat)
    returns (t': Radix, ghost places': seq<Place>, p1: nat)
    requires WellFormed(t, places) && p < PAGE_LIMIT
    ensures WellFormed(t', places') && SameLookups(t, places, t', places')
    ensures p1 != 0 && p1 == Node1(t', places', p)
  {
    t', places', p1 := t, places, t.root[Index0(p)];
    if p1 == 0 {
      LinkUnderRoot(t, places, p);
      p1 := |t.pool| + 1;
      t' := Grow(t).(root := t.root[Index0(p) := p1]);
      places' := places + [Place(1, p / L0_COVERAGE)];
    }
  }

  method EnsureLevel2(t: Radix, ghost places: seq<Place>, p: nat, p1: nat)
    returns (t': Radix, ghost places': seq<Place>, p2: nat)
    requires WellFormed(t, places) && p < PAGE_LIMIT && p1 != 0 && p1 == Node1(t, places, p)
    ensures WellFormed(t', places') && SameLookups(t, places, t', places')
    ensures p2 != 0 && p2 == Node2(t', places', p)
  {
    assert NodeOk(t.pool[p1 - 1], places, places[p1 - 1]);
    t', places', p2 := t, places, t.Child(p1, Index1(p));
    if p2 == 0 {
      LinkUnderLevel1(t, places, p);
      p2 := |t.pool| + 1;
      t' := Linked(t, places, p1, Index1(p));
      places' := places + [Place(2, p / L1_COVERAGE)];
    }
  }

  method EnsureLevel3(t: Radix, ghost places: seq<Place>, p: nat, p2: nat)
    returns (t': Radix, ghost places': seq<Place>, p3: nat)
    requires WellFormed(t, places) && p < PAGE_LIMIT && p2 != 0 && p2 == Node2(t, places, p)
    ensures WellFormed(t', places') && SameLookups(t, places, t', places')
    ensures p3 != 0 && p3 == Node3(t', places', p)
  {
    assert NodeOk(t.pool[p2 - 1], places, places[p2 - 1]);
    t', places', p3 := t, places, t.Child(p2, Index2(p));
    if p3 == 0 {
      LinkUnderLevel2(t, places, p);
      p3 := |t.pool| + 1;
      t' := Linked(t, places, p2, Index2(p));
      places' := places + [Place(3, p / L2_COVERAGE)];
    }
  }

  class PageMap {
    var published: bool  // the root is reachable for readers
    var tree: Radix
    ghost var places: seq<Place>

    ghost predicate Valid()
      reads this
    {
      WellFormed(tree, places) && (!published ==> tree.pool == [])
    }

    /** The page map as callers see it. */
    ghost function View(p: nat): nat
      reads this
      requires Valid()
    {
      if published then Lookup(tree, places, p) else 0
    }

    constructor ()
      ensures Valid() && forall p: nat :: View(p) == 0
    {
      published := false;
      tree := Radix(seq(FANOUT, _ => 0), []);
      places := [];
    }

    method GetSpan(p: nat) returns (span: nat)
      requires Valid()
      ensures span == View(p)
    {
      if !published {
        return 0;
      }
      var i0 := Index0(p);
      if i0 >= FANOUT {
        return 0;
      }
      var p1 := tree.root[i0];
      if p1 == 0 {
        return 0;
      }
      var p2 := tree.pool[p1 - 1][Index1(p)];
      assert p2 == Node2(tree, places, p);
      if p2 == 0 {
        return 0;
      }
      var p3 := tree.pool[p2 - 1][Index2(p)];
      assert p3 == Node3(tree, places, p);
      if p3 == 0 {
        return 0;
      }
      return tree.pool[p3 - 1][Index3(p)];
    }

    /** Creates the nodes missing on the path to `p` and returns the leaf. */
    method Descend(p: nat) returns (p3: nat)
      requires Valid() && published && p < PAGE_LIMIT
      modifies this
      ensures Valid() && published && p3 != 0 && p3 == Node3(tree, places, p)
      ensures SameLookups(old(tree), old(places), tree, places)
    {
      ghost var places1, places2, places3;
      var t1, t2, t3, p1, p2;
      t1, places1, p1 := EnsureLevel1(tree, places, p);
      t2, places2, p2 := EnsureLevel2(t1, places1, p, p1);
      t3, places3, p3 := EnsureLevel3(t2, places2, p, p2);
      SameLookupsCompose(tree, places, t1, places1, t2, places2);
      SameLookupsCompose(tree, places, t2, places2, t3, places3);
      tree, places := t3, places3;
    }

    /** Writes `cnt` consecutive entries of the leaf that holds `p`. */
    method FillLeaf(p: nat, p3: nat, cnt: nat, span: nat)
      requires Valid() && published && p < PAGE_LIMIT && p3 != 0 && p3 == Node3(tree, places, p)
      requires Index3(p) + cnt <= FANOUT
      modifies this`tree
      ensures Valid()
      ensures forall q: nat :: View(q) == if p <= q < p + cnt then span else old(View(q))
    {
      ghost var before := tree;
      for k := 0 to cnt
        invariant FilledSoFar(before, tree, places, p, p3, k, span)
      {
        FillOne(before, tree, places, p, p3, k, span);
        tree := tree.Store(p3, Index3(p) + k, span);
      }
    }

    /** Maps every page of a span to it, and no other page. */
    method SetSpan(span: nat, startPage: nat, pageNum: nat)
      requires Valid() && startPage + pageNum <= PAGE_LIMIT
      modifies this
      ensures Valid() && published
      ensures forall p: nat :: View(p) == if startPage <= p < startPage + pageNum then span else old(View(p))
    {
      if !published {
        tree := tree.(root := seq(FANOUT, _ => 0));
        published := true;
        assert forall p: nat :: p < PAGE_LIMIT ==> Node1(tree, places, p) == 0;
      }
      var start, end := startPage, startPage + pageNum;
      while start < end
        invariant Valid() && published && startPage <= start <= end
        invariant forall p: nat :: View(p) == if startPage <= p < start then span else old(View(p))
      {
        var cnt := SetLeafPart(span, start, end);
        start := start + cnt;
      }
    }

    /** Maps the pages from `start` on that share a leaf. */
    method SetLeafPart(span: nat, start: nat, end: nat) returns (cnt: nat)
      requires Valid() && published && start < end <= PAGE_LIMIT
      modifies this
      ensures Valid() && published && 0 < cnt <= end - start
      ensures forall p: nat :: View(p) == if start <= p < start + cnt then span else old(View(p))
    {
      var p3 := Descend(start);
      assert forall p: nat :: View(p) == old(View(p));
      cnt := if end - start < FANOUT - Index3(start) then end - start else FANOUT - Index3(start);
      FillLeaf(start, p3, cnt, span);
    }

    /** Unmaps exactly the pages of a range, stepping over subtrees that were never built. */
    method ClearRange(startPage: nat, pageNum: nat)
      requires Valid() && startPage + pageNum <= PAGE_LIMIT
      modifies this`tree
      ensures Valid()
      ensures forall p: nat :: View(p) == if startPage <= p < startPage + pageNum then 0 else old(View(p))
    {
      if !published {
        return;
      }
      var cur, remaining := startPage, pageNum;
      while remaining > 0
        invariant Valid() && cur + remaining == startPage + pageNum && startPage <= cur && remaining >= 0
        invariant forall p: nat :: View(p) == if startPage <= p < cur then 0 else old(View(p))
      {
        var p1 := tree.root[Index0(cur)];
        var p2 := tree.Child(p1, Index1(cur));
        var p3 := tree.Child(p2, Index2(cur));
        if p1 == 0 || p2 == 0 || p3 == 0 {
          var coverage := if p1 == 0 then L0_COVERAGE else if p2 == 0 then L1_COVERAGE else L2_COVERAGE;
          var skip := coverage - cur % coverage;
          var step := if remaining < skip then remaining else skip;
          forall q: nat | cur <= q < cur + step ensures Lookup(tree, places, q) == 0 {
            MissingSubtreeIsEmpty(tree, places, cur, coverage, q);
          }
          cur := cur + step;
          remaining := remaining - step;
          continue;
        }
        var i3 := Index3(cur);
        var cnt := if remaining < FANOUT - i3 then remaining else FANOUT - i3;
        FillLeaf(cur, p3, cnt, 0);
        cur := cur + cnt;
        remaining := remaining - cnt;
      }
    }
  }
}
