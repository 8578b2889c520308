/** Growing the dense map: the entries are inserted again, in order, into a table of twice the size. The program
    does not look at the outcome of those insertions. */
module DenseMapGrowth {
  import opened DenseMapList
  import opened DenseMapChains
  import opened DenseMapReach
  import opened DenseMap

  type Item = (Key, Value)

  ghost predicate DistinctKeys(items: seq<Item>)
  {
    forall i, j :: 0 <= i < j < |items| ==> items[i].0 != items[j].0
  }

  lemma ValidKeysAreDistinct(m: DenseMapObj)
    requires m.Valid()
    ensures DistinctKeys(m.Entries())
  {
    forall i, j | 0 <= i < j < |m.Entries()| ensures m.Entries()[i].0 != m.Entries()[j].0 {
      m.EntriesHaveDistinctKeys(i, j);
    }
  }

  /** A table holds at most one entry a slot. */
  lemma EntriesFit(m: DenseMapObj)
    requires m.ListValid()
    ensures m.size == |m.Entries()| <= m.env.n
  {
    ListIsFull(m.slots, m.head, m.tail, m.order);
    forall i | 0 <= i < |m.order| ensures 0 <= m.order[i] < m.env.n {
      assert IsFull(m.slots, m.order[i]);
    }
    DistinctFit(m.order, m.env.n);
  }

  // ----- Sequences with entries left out -----

  /** `places` says where the entries of `a` are in `b`, in order. */
  ghost predicate Embeds(a: seq<Item>, b: seq<Item>, places: seq<int>)
  {
    && |places| == |a|
    && (forall i :: 0 <= i < |a| ==> 0 <= places[i] < |b| && b[places[i]] == a[i])
    && (forall i, j :: 0 <= i < j < |a| ==> places[i] < places[j])
  }

  /** `a` is `b` with some entries left out, the others in order. */
  ghost predicate IsSubsequence(a: seq<Item>, b: seq<Item>)
  {
    exists places :: Embeds(a, b, places)
  }

  lemma SubsequenceFacts(a: seq<Item>, b: seq<Item>)
    requires IsSubsequence(a, b)
    ensures |a| <= |b|
    ensures forall k :: HasKey(a, k) ==> HasKey(b, k)
  {
    var places :| Embeds(a, b, places);
    DistinctFit(places, |b|);
    forall k | HasKey(a, k) ensures HasKey(b, k) {
      var i :| 0 <= i < |a| && a[i].0 == k;
      assert b[places[i]].0 == k;
    }
  }

  lemma SubsequenceCrowds(a: seq<Item>, b: seq<Item>, env: Env)
    requires IsSubsequence(a, b) && Crowded(env, a)
    ensures Crowded(env, b)
  {
    var places :| Embeds(a, b, places);
    var i, j, k :| ShareHome(env, a, i, j, k);
    assert ShareHome(env, b, places[i], places[j], places[k]);
  }

  /** `kept` are the entries among the first `i` that made it, all of them as long as `ok` holds. */
  ghost predicate Kept(kept: seq<Item>, items: seq<Item>, i: nat, ok: bool)
    requires i <= |items|
  {
    IsSubsequence(kept, items[..i]) && if ok then kept == items[..i] else |kept| < i
  }

  lemma KeepNext(kept: seq<Item>, items: seq<Item>, i: nat, ok: bool)
    requires i < |items| && Kept(kept, items, i, ok)
    ensures Kept(kept + [items[i]], items, i + 1, ok)
  {
    var places :| Embeds(kept, items[..i], places);
    assert Embeds(kept + [items[i]], items[..i + 1], places + [i]);
    assert items[..i + 1] == items[..i] + [items[i]];
  }

  lemma DropNext(kept: seq<Item>, items: seq<Item>, i: nat, ok: bool)
    requires i < |items| && Kept(kept, items, i, ok)
    ensures Kept(kept, items, i + 1, false)
  {
    var places :| Embeds(kept, items[..i], places);
    assert Embeds(kept, items[..i + 1], places);
  }

  lemma NextIsNew(kept: seq<Item>, items: seq<Item>, i: nat, ok: bool)
    requires i < |items| && Kept(kept, items, i, ok) && DistinctKeys(items)
    ensures !HasKey(kept, items[i].0) && |kept| <= i
  {
    SubsequenceFacts(kept, items[..i]);
  }

  lemma KeptOfAll(kept: seq<Item>, items: seq<Item>, i: nat, ok: bool)
    requires i <= |items| && Kept(kept, items, i, ok) && (ok ==> i == |items|)
    ensures IsSubsequence(kept, items) && (if ok then kept == items else |kept| < |items|)
  {
    var places :| Embeds(kept, items[..i], places);
    assert Embeds(kept, items, places);
    assert items[..|items|] == items;
  }

  /** Probes that look at every slot of a table of twice the size reach more slots than there can be entries. */
  lemma FullReachIsEnough(m: DenseMapObj, bigger: Env)
    requires m.ListValid() && m.env.n >= 2 && bigger.n == 2 * m.env.n && ReachesAll(bigger)
    ensures |m.Entries()| < |Reach(bigger)|
  {
    EntriesFit(m);
    SubsetCount(AllSlots(bigger.n), Reach(bigger) + {0});
  }

  // ----- Rehashing -----

  /** Inserts one entry again. */
  method Reinsert(target: DenseMapObj, k: Key, v: Value, assign: bool, ok: bool, ghost items: seq<Item>, ghost i: nat)
    returns (ok': bool, torn: bool)
    requires target.Valid() && DistinctKeys(items) && i < |items| && items[i] == (k, v)
    requires Kept(target.Entries(), items, i, ok)
    modifies target
    ensures target.ListValid() && (torn || target.Valid()) && Kept(target.Entries(), items, i + 1, ok')
    ensures torn ==> !ok' && Crowded(target.env, target.Entries())
    ensures ok && !ok' ==> i + 1 > target.env.n * 3 / 4 || |Reach(target.env)| <= i
    ensures ok' ==> ok
  {
    NextIsNew(target.Entries(), items, i, ok);
    KeepNext(target.Entries(), items, i, ok);
    DropNext(target.Entries(), items, i, ok);
    EntriesFit(target);
    var index, inserted := target.TryInsertOrUpdate(k, v, assign);
    ok' := ok && inserted;
    torn := index == -1 && target.slots[target.env.home(k)].Protected?;
  }

  /** Inserts the entries again along the iteration list; the source may have torn chains, only its list is used.
      An entry that finds no slot is lost and the loop goes on, as long as the target's chains are whole. */
  method Rehash(source: DenseMapObj, target: DenseMapObj, assign: bool) returns (ok: bool, torn: bool)
    requires source != target && source.ListValid() && DistinctKeys(source.Entries())
    requires target.Valid() && target.Entries() == []
    modifies target
    ensures target.ListValid() && (torn || target.Valid())
    ensures IsSubsequence(target.Entries(), source.Entries())
    ensures ok <==> target.Entries() == source.Entries()
    ensures !ok ==> |target.Entries()| < |source.Entries()|
    ensures torn ==> !ok && Crowded(target.env, source.Entries())
    ensures !ok && 2 * source.env.n <= target.env.n ==> |Reach(target.env)| < |source.Entries()|
  {
    EntriesFit(source);
    FirstPosition(source.slots, source.head, source.tail, source.order);
    ok, torn := ReinsertAll(source.slots, source.head, source.order, target, assign);
  }

  /** The loop of it, along the list that starts at `head`. */
  method ReinsertAll(slots: seq<Slot>, head: int, ghost order: seq<int>, target: DenseMapObj, assign: bool)
    returns (ok: bool, torn: bool)
    requires AtPosition(slots, order, head, 0) && forall i :: 0 <= i < |order| ==> IsFull(slots, order[i])
    requires DistinctKeys(Items(slots, order)) && target.Valid() && target.Entries() == []
    modifies target
    ensures target.ListValid() && (torn || target.Valid())
    ensures IsSubsequence(target.Entries(), Items(slots, order))
    ensures if ok then target.Entries() == Items(slots, order) else |target.Entries()| < |order|
    ensures torn ==> !ok && Crowded(target.env, Items(slots, order))
    ensures !ok ==> |order| > target.env.n * 3 / 4 || |Reach(target.env)| < |order|
  {
    ghost var items, i := Items(slots, order), 0;
    var idx := head;
    ok, torn := true, false;
    assert Embeds([], items[..0], []);
    while idx != -1
      invariant i <= |order| && AtPosition(slots, order, idx, i)
      invariant !torn && target.Valid() && Kept(target.Entries(), items, i, ok)
      invariant !ok ==> |order| > target.env.n * 3 / 4 || |Reach(target.env)| < |order|
      decreases |order| - i
    {
      NextPosition(slots, order, idx, i);
      ok, torn := Reinsert(target, slots[idx].key, slots[idx].value, assign, ok, items, i);
      i := i + 1;
      if torn {
        break;
      }
      idx := slots[idx].next;
    }
    KeptOfAll(target.Entries(), items, i, ok);
    if torn {
      SubsequenceCrowds(target.Entries(), items, target.env);
    }
  }

  /** The walk along an iteration list is at its position `i`. */
  ghost predicate AtPosition(slots: seq<Slot>, order: seq<int>, idx: int, i: nat)
  {
    && (forall j :: 0 <= j < |order| ==> NodeOk(slots, order, j))
    && i <= |order| && idx == AtOrNone(order, i) && (idx == -1 ==> i == |order|)
  }

  lemma FirstPosition(slots: seq<Slot>, head: int, tail: int, order: seq<int>)
    requires ListOk(slots, head, tail, order)
    ensures AtPosition(slots, order, head, 0) && forall i :: 0 <= i < |order| ==> IsFull(slots, order[i])
  {
    ListIsFull(slots, head, tail, order);
    if order != [] {
      assert NodeOk(slots, order, 0);
    }
  }

  lemma NextPosition(slots: seq<Slot>, order: seq<int>, idx: int, i: nat)
    requires AtPosition(slots, order, idx, i) && idx != -1 && forall i :: 0 <= i < |order| ==> IsFull(slots, order[i])
    ensures IsFull(slots, idx) && i < |order| && Items(slots, order)[i] == (slots[idx].key, slots[idx].value)
    ensures AtPosition(slots, order, slots[idx].next, i + 1)
  {
    assert NodeOk(slots, order, i);
    if i + 1 < |order| {
      assert NodeOk(slots, order, i + 1);
    }
  }

  /** Insertion that grows the table when it finds no slot. What is there after growing is `kept`, and the new entry
      if it found a slot. The answer does not tell whether `kept` is everything. */
  method InsertImpl(m: DenseMapObj, bigger: DenseMapObj, k: Key, v: Value, assign: bool)
    returns (impl: DenseMapObj, index: int, inserted: bool, torn: bool, ghost kept: seq<Item>)
    requires m != bigger && m.Valid() && bigger.Valid() && bigger.Entries() == [] && bigger.env.n == 2 * m.env.n
    modifies m, bigger
    ensures impl == m || impl == bigger
    ensures index != -1 ==> impl.Valid() && IsFull(impl.slots, index) && impl.slots[index].key == k
    ensures inserted <==> index != -1 && !old(HasKey(m.Entries(), k))
    ensures old(HasKey(m.Entries(), k)) ==> impl == m
    ensures impl == m ==> index != -1 && !torn
    ensures impl == m && inserted ==> m.Entries() == old(m.Entries()) + [(k, v)]
    ensures impl == m && !inserted && !assign ==> m.Entries() == old(m.Entries())
    ensures impl == m && !inserted && assign ==>
              exists i :: 0 <= i < |old(m.Entries())| && IsMovedToBack(old(m.Entries()), m.Entries(), i, k, v)
    ensures impl == bigger ==> bigger.ListValid() && (torn || bigger.Valid())
    ensures impl == bigger ==> bigger.Entries() == if inserted then kept + [(k, v)] else kept
    ensures impl == bigger ==> IsSubsequence(kept, old(m.Entries()))
    ensures impl == bigger && kept != old(m.Entries()) ==>
              |kept| < |old(m.Entries())| && |Reach(bigger.env)| < |old(m.Entries())|
    ensures torn ==> impl == bigger && index == -1 && Crowded(bigger.env, old(m.Entries()))
    ensures impl == bigger && !torn && index == -1 ==> !bigger.slots[bigger.env.home(k)].Empty?
    ensures !inserted && impl == bigger && m.env.n >= 2 ==> |Reach(bigger.env)| <= |old(m.Entries())|
    ensures !old(HasKey(m.Entries(), k)) && old(m.IsTableFull()) && !old(m.slots)[m.env.home(k)].Empty? ==>
            impl == bigger
  {
    ValidKeysAreDistinct(m);
    EntriesFit(m);
    kept, torn := [], false;
    index, inserted := m.TryInsertOrUpdate(k, v, assign);
    if index != -1 {
      return m, index, inserted, false, kept;
    }
    var ok;
    ok, torn := Rehash(m, bigger, assign);
    impl, kept := bigger, bigger.Entries();
    SubsequenceFacts(kept, m.Entries());
    EntriesFit(bigger);
    if torn {
      return bigger, -1, false, true, kept;
    }
    index, inserted := bigger.TryInsertOrUpdate(k, v, assign);
    torn := index == -1 && bigger.slots[bigger.env.home(k)].Protected?;
    if torn {
      SubsequenceCrowds(kept, m.Entries(), bigger.env);
    }
  }
}
