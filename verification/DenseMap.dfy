/** The dense hash map: search, insertion with relocation, erasure and the rehash loop, refining a sequence of
    entries with distinct keys in insertion order. */
module DenseMap {
  import opened DenseMapList
  import opened DenseMapChains
  import opened DenseMapReach

  ghost predicate HasKey(items: seq<(Key, Value)>, k: Key)
  {
    exists i :: 0 <= i < |items| && items[i].0 == k
  }

  /** `after` is `before` with entry `i`, whose key is `k`, moved to the back with value `v`. */
  ghost predicate IsMovedToBack(before: seq<(Key, Value)>, after: seq<(Key, Value)>, i: int, k: Key, v: Value)
    requires 0 <= i < |before|
  {
    before[i].0 == k && after == before[..i] + before[i + 1..] + [(k, v)]
  }

  /** `after` is `before` without entry `i`, whose key is `k`. */
  ghost predicate IsErased(before: seq<(Key, Value)>, after: seq<(Key, Value)>, i: int, k: Key)
    requires 0 <= i < |before|
  {
    before[i].0 == k && after == before[..i] + before[i + 1..]
  }

  lemma TwiceSame(a: seq<Slot>, b: seq<Slot>, c: seq<Slot>)
    requires SameData(a, b) && SameData(b, c)
    ensures SameData(a, c)
  {
    forall s | 0 <= s < |a| ensures SameSlot(a[s], c[s]) {
      assert SameSlot(a[s], b[s]) && SameSlot(b[s], c[s]);
    }
  }

  /** Entries outside `gone` are still in their slots. */
  ghost predicate KeepsOthers(before: seq<Slot>, after: seq<Slot>, gone: set<int>)
  {
    forall s :: IsFull(before, s) && s !in gone ==> IsFull(after, s) && after[s].key == before[s].key
  }

  class DenseMapObj {
    const env: Env
    var slots: seq<Slot>
    var size: nat
    var head: int
    var tail: int
    ghost var order: seq<int>               // the iteration list
    ghost var chains: map<int, seq<int>>    // the chain of each head slot

    /** The iteration list is well formed and holds exactly the entries. */
    ghost predicate ListValid()
      reads this
    {
      && EnvOk(env) && |slots| == env.n && size == |order|
      && ListOk(slots, head, tail, order) && Covers(slots, order)
    }

    ghost predicate Valid()
      reads this
    {
      ListValid() && ChainsOk(env, slots, chains)
    }

    /** The abstract value: keys and values in iteration order. */
    ghost function Entries(): seq<(Key, Value)>
      reads this
      requires ListValid()
    {
      ListIsFull(slots, head, tail, order);
      Items(slots, order)
    }

    constructor (n: nat, offsets: seq<nat>, home: Key -> nat)
      requires EnvOk(Env(n, offsets, home))
      ensures Valid() && Entries() == [] && env == Env(n, offsets, home)
    {
      env := Env(n, offsets, home);
      slots := seq(n, _ => Empty);
      size, head, tail, order, chains := 0, -1, -1, [], map[];
    }

    /** A key is among the entries exactly when some slot holds it. */
    lemma KeyInSlot(k: Key)
      requires ListValid()
      ensures HasKey(Entries(), k) <==> exists s :: IsFull(slots, s) && slots[s].key == k
    {
      ListIsFull(slots, head, tail, order);
      if s :| IsFull(slots, s) && slots[s].key == k {
        assert s in order;
        var i :| 0 <= i < |order| && order[i] == s;
        assert Entries()[i].0 == k;
      }
      if HasKey(Entries(), k) {
        var i :| 0 <= i < |Entries()| && Entries()[i].0 == k;
        assert IsFull(slots, order[i]);
      }
    }

    /** No two entries have the same key. */
    lemma EntriesHaveDistinctKeys(i: nat, j: nat)
      requires Valid() && i < j < |order|
      ensures Entries()[i].0 != Entries()[j].0
    {
      ListIsFull(slots, head, tail, order);
      assert IsFull(slots, order[i]) && IsFull(slots, order[j]);
    }

    /** Walks the chain of the key's home slot. */
    method Search(k: Key) returns (index: int)
      requires Valid()
      ensures index == -1 <==> !HasKey(Entries(), k)
      ensures index != -1 ==> IsFull(slots, index) && slots[index].key == k
    {
      KeyInSlot(k);
      index := env.home(k);
      ghost var h := index;
      if !(slots[index].Full? && slots[index].isHead) {
        assert forall s :: IsFull(slots, s) && env.home(slots[s].key) == h ==> OnChain(env, slots, chains, s);
        if h in chains {
          ChainHeadIsFull(env, slots, chains, h);
        }
        return -1;
      }
      assert OnChain(env, slots, chains, index);
      ghost var c := chains[env.home(slots[index].key)];
      ghost var i := HeadIsFirst(index);
      while true
        invariant h in chains && c == chains[h] && 0 <= i < |c| && c[i] == index
        invariant ChainOk(env, slots, h, c)
        invariant forall j :: 0 <= j < i ==> IsFull(slots, c[j]) && slots[c[j]].key != k
        decreases |c| - i
      {
        OffsetTellsEnd(env, slots, h, c, i);
        if slots[index].key == k {
          return;
        }
        if slots[index].off == 0 {
          forall s | IsFull(slots, s) ensures slots[s].key != k {
            assert OnChain(env, slots, chains, s);
          }
          return -1;
        }
        index := NextSlot(env, index, slots[index].off);
        i := i + 1;
      }
    }

    /** A slot marked as head starts the chain of its own index. */
    lemma HeadIsFirst(s: int) returns (i: nat)
      requires Valid() && IsFull(slots, s) && slots[s].isHead
      ensures i == 0 && env.home(slots[s].key) == s && s in chains && chains[s] != [] && chains[s][0] == s
    {
      assert OnChain(env, slots, chains, s);
      var h := env.home(slots[s].key);
      var k :| 0 <= k < |chains[h]| && chains[h][k] == s;
      assert ChainOk(env, slots, h, chains[h]);
      assert LinkOk(env, slots, h, chains[h], k, true, -1);
      i := 0;
    }

    /** The first probe offset that leads to an empty slot. */
    method GetNextEmptySlot(s: int) returns (found: bool, off: nat, e: int)
      requires EnvOk(env) && |slots| == env.n && 0 <= s < |slots|
      ensures found ==> 0 < off < |env.offsets| && 0 <= e < |slots| && slots[e].Empty? && NextSlot(env, s, off) == e
      ensures !found <==> NoEmptyInReach(env, slots, s)
    {
      for i := 1 to |env.offsets|
        invariant forall j :: 0 < j < i ==> !slots[ProbeSlot(env, s, j)].Empty?
      {
        var candidate := ProbeSlot(env, s, i);
        if slots[candidate].Empty? {
          ProbeIsNextSlot(env, s, i);
          return true, i, candidate;
        }
      }
      return false, 0, 0;
    }

    /** The predecessor of an entry that is not a head. */
    method FindPrevSlot(s: int) returns (prev: int, ghost h: int, ghost i: nat)
      requires Valid() && IsFull(slots, s) && !slots[s].isHead
      ensures h == env.home(slots[s].key) && h in chains && 1 <= i < |chains[h]|
      ensures chains[h][i] == s && chains[h][i - 1] == prev
      ensures IsFull(slots, prev) && 0 < slots[prev].off < |env.offsets| && NextSlot(env, prev, slots[prev].off) == s
    {
      h := env.home(slots[s].key);
      assert OnChain(env, slots, chains, s);
      ghost var c := chains[h];
      ghost var target :| 0 <= target < |c| && c[target] == s;
      assert ChainOk(env, slots, h, c) && LinkOk(env, slots, h, c, target, true, -1);
      var cur := env.home(slots[s].key);
      prev := cur;
      i := 1;
      OffsetTellsEnd(env, slots, h, c, 0);
      cur := NextSlot(env, cur, slots[cur].off);
      while s != cur
        invariant 1 <= i <= target && c[i] == cur && c[i - 1] == prev
        decreases target - i
      {
        OffsetTellsEnd(env, slots, h, c, i);
        prev := cur;
        cur := NextSlot(env, cur, slots[cur].off);
        i := i + 1;
      }
      OffsetTellsEnd(env, slots, h, c, i - 1);
    }

    /** Moves the entry `r` to the empty slot `e` and links it behind `prev`. */
    method MoveBehind(prev: int, r: int, e: int, off: nat, reserve: bool)
      requires ListValid() && IsFull(slots, prev) && IsFull(slots, r) && prev != r
      requires 0 <= e < |slots| && slots[e].Empty? && off < |env.offsets|
      modifies this`slots, this`head, this`tail, this`order
      ensures ListValid() && SameEntries(old(slots), old(order), slots, order)
      ensures SameData(Moved(old(slots), prev, r, e, off, reserve), slots)
    {
      assert r in order;
      ghost var k :| 0 <= k < |order| && order[k] == r;
      MoveBehindOk(slots, head, tail, order, k, prev, e, off, reserve);
      var after := Relocated(slots, head, tail, prev, r, e, off, reserve);
      Install(after, if r == head then e else head, if r == tail then e else tail, order[k := e]);
    }

    /** Takes over slots and list ends that fit together. */
    method Install(after: seq<Slot>, newHead: int, newTail: int, ghost newOrder: seq<int>)
      requires EnvOk(env) && |after| == env.n && size == |newOrder|
      requires ListOk(after, newHead, newTail, newOrder) && Covers(after, newOrder)
      modifies this`slots, this`head, this`tail, this`order
      ensures ListValid() && slots == after && order == newOrder
    {
      slots, head, tail, order := after, newHead, newTail, newOrder;
    }

    /** Clears `target`, the body of a foreign chain, by moving that chain's rest to other slots. A failure
        midway leaves the chains torn, but every entry on the iteration list, in order. */
    method TryAllocateListHead(target: int) returns (ok: bool)
      requires Valid() && IsFull(slots, target) && !slots[target].isHead
      modifies this`slots, this`head, this`tail, this`order, this`chains
      ensures ListValid() && SameEntries(old(slots), old(order), slots, order)
      ensures ok ==> slots[target].Protected? && target !in chains && ChainsOk(env, slots[target := Empty], chains)
      ensures !ok ==> SomeHemmedIn(env, slots)
      ensures !ok ==> |Reach(env)| <= size && chains == old(chains)
      ensures !ok && !slots[target].Protected? ==> slots == old(slots)
      ensures !ok && slots[target].Protected? ==> HasLongChain(chains)
    {
      var prev, h, i := FindPrevSlot(target);
      StartSplit(env, slots, chains, h, i);
      ghost var built;
      ok, built := RelocateRest(target, prev, h, chains[h][..i], chains[h][i..]);
      if ok {
        FinishSplit(env, slots, chains, h, built, target);
        chains := chains[h := built];
        if target in chains {
          ChainHeadIsFull(env, slots[target := Empty], chains, target);
        }
      }
    }

    /** The loop of it: each element of the rest of the chain finds a new slot behind the part already rebuilt. */
    method RelocateRest(target: int, prev0: int, ghost h: int, ghost built0: seq<int>, ghost rest0: seq<int>)
      returns (ok: bool, ghost built: seq<int>)
      requires ListValid() && rest0 != [] && target == rest0[0]
      requires SplitOk(env, slots, chains, h, built0, rest0, true, target) && prev0 == built0[|built0| - 1]
      modifies this`slots, this`head, this`tail, this`order
      ensures ListValid() && SameEntries(old(slots), old(order), slots, order)
      ensures ok ==> SplitOk(env, slots, chains, h, built, [], false, target)
      ensures !ok ==> SomeHemmedIn(env, slots)
      ensures !ok ==> |Reach(env)| <= size
      ensures !ok ==> 0 <= target < |slots| && if slots[target].Protected? then |rest0| >= 2 else slots == old(slots)
    {
      var prev, r, isFirst := prev0, target, true;
      ghost var rest := rest0;
      built := built0;
      SelfEntries();
      while true
        invariant ListValid() && rest != [] && r == rest[0]
        invariant SplitOk(env, slots, chains, h, built, rest, isFirst, target) && prev == built[|built| - 1]
        invariant SameEntries(old(slots), old(order), slots, order)
        invariant if isFirst then slots == old(slots) && rest == rest0 else |rest| < |rest0|
        decreases |rest|
      {
        var moved, e, rOff := RelocateNext(prev, r, isFirst, h, built, rest, target, old(slots), old(order));
        if !moved {
          return false, built;
        }
        isFirst := false;
        prev, built, rest := e, built + [e], rest[1..];
        if rOff == 0 {
          break;
        }
        r := NextSlot(env, r, rOff);
      }
      assert rest == [];
      ok := true;
    }

    predicate IsTableFull()
      reads this
    {
      size + 1 > env.n * 3 / 4
    }

    /** Constructs an entry in a vacant slot and appends it to the iteration list. */
    method CreateEntry(s: int, x: Slot)
      requires ListValid() && 0 <= s < |slots| && !slots[s].Full? && x.Full?
      modifies this`slots, this`size, this`head, this`tail, this`order
      ensures ListValid() && SameData(old(slots)[s := x], slots) && IsFull(slots, s)
      ensures Appended(old(slots), old(order), slots, order, x.key, x.value)
    {
      AppendOk(slots, head, tail, order, s, x);
      slots := PushBack(slots[s := x], tail, s);
      head := if head == -1 && tail == -1 then s else head;
      tail := s;
      size := size + 1;
      order := order + [s];
    }

    /** The end of the chain of `h` has no empty slot in reach. */
    ghost predicate EndIsHemmedIn(h: int)
      reads this
    {
      Valid() && h in chains && chains[h] != [] && NoEmptyInReach(env, slots, chains[h][|chains[h]| - 1])
    }

    /** Inserts a new key, or updates an existing one when `assign` is set; -1 says that no slot was found. That
        leaves the map as it was, unless the home slot is reserved: then a relocation has stopped midway and torn a
        chain, which takes three entries with one home slot. */
    method TryInsertOrUpdate(k: Key, v: Value, assign: bool) returns (index: int, inserted: bool)
      requires Valid()
      modifies this`slots, this`size, this`head, this`tail, this`order, this`chains
      ensures ListValid() && (index != -1 ==> Valid() && IsFull(slots, index) && slots[index].key == k)
      ensures inserted <==> index != -1 && !old(HasKey(Entries(), k))
      ensures inserted ==> Entries() == old(Entries()) + [(k, v)]
      ensures old(HasKey(Entries(), k)) ==> index != -1
      ensures old(HasKey(Entries(), k)) && assign ==>
              exists i :: 0 <= i < |old(Entries())| && IsMovedToBack(old(Entries()), Entries(), i, k, v)
      ensures !inserted && !(old(HasKey(Entries(), k)) && assign) ==> Entries() == old(Entries())
      ensures !old(HasKey(Entries(), k)) && old(slots)[env.home(k)].Empty? ==> inserted
      ensures inserted && !old(slots)[env.home(k)].Empty? ==> !old(IsTableFull())
      ensures index == -1 && !old(IsTableFull()) ==> SomeHemmedIn(env, slots)
      ensures inserted && old(slots)[env.home(k)].Empty? ==> index == env.home(k)
      ensures inserted && IsFull(old(slots), env.home(k)) && old(slots)[env.home(k)].isHead ==> old(slots)[index].Empty?
      ensures index == -1 && IsFull(old(slots), env.home(k)) && old(slots)[env.home(k)].isHead ==>
                slots == old(slots) && (old(IsTableFull()) || old(EndIsHemmedIn(env.home(k))))
      ensures index == -1 ==> !slots[env.home(k)].Empty? && (old(IsTableFull()) || |Reach(env)| <= size)
      ensures index == -1 && !slots[env.home(k)].Protected? ==> Valid()
      ensures index == -1 && slots[env.home(k)].Protected? ==> Crowded(env, Entries())
    {
      index := Search(k);
      if index != -1 {
        if assign {
          Assign(index, v);
        }
        return index, false;
      }
      KeyInSlot(k);
      var node: int := env.home(k);
      if slots[node].Empty? {
        InsertHead(node, k, v);
        return node, true;
      }
      if !slots[node].isHead {
        if IsTableFull() {
          return -1, false;
        }
        index := InsertDisplacing(node, k, v);
        return index, index != -1;
      }
      ghost var first := HeadIsFirst(node);
      index := InsertTail(node, k, v);
      return index, index != -1;
    }

    /** Case 1: the home slot is empty. */
    method InsertHead(node: int, k: Key, v: Value)
      requires Valid() && node == env.home(k) && slots[node].Empty?
      requires forall s :: IsFull(slots, s) ==> slots[s].key != k
      modifies this`slots, this`size, this`head, this`tail, this`order, this`chains
      ensures Valid() && Entries() == old(Entries()) + [(k, v)] && IsFull(slots, node) && slots[node].key == k
    {
      var x := Full(true, 0, k, v, -1, -1);
      if node in chains {
        ChainHeadIsFull(env, slots, chains, node);
      }
      assert slots[node := Empty] == slots;
      NewHead(env, slots, chains, node, x);
      ghost var filled := slots[node := x];
      CreateEntry(node, x);
      chains := chains[node := [node]];
      ChainsIgnoreLinks(env, filled, slots, chains);
      assert SameSlot(filled[node], slots[node]);
      AppendedItems(old(slots), old(order), slots, order, k, v);
    }

    /** Case 2: the home slot holds the body of another chain, which has to move. */
    method InsertDisplacing(node: int, k: Key, v: Value) returns (index: int)
      requires Valid() && node == env.home(k) && IsFull(slots, node) && !slots[node].isHead
      requires forall s :: IsFull(slots, s) ==> slots[s].key != k
      modifies this`slots, this`size, this`head, this`tail, this`order, this`chains
      ensures ListValid()
      ensures index == -1 ==> Entries() == old(Entries()) && |Reach(env)| <= size && !slots[node].Empty?
      ensures index == -1 ==> SomeHemmedIn(env, slots)
      ensures index == -1 && !slots[node].Protected? ==> Valid()
      ensures index == -1 && slots[node].Protected? ==> Crowded(env, Entries())
      ensures index != -1 ==> Valid() && index == node && Entries() == old(Entries()) + [(k, v)]
      ensures index != -1 ==> IsFull(slots, node) && slots[node].key == k
    {
      ListIsFull(slots, head, tail, order);
      LongChainCrowds(env, slots, head, tail, order, chains);
      var ok := TryAllocateListHead(node);
      ghost var before, orderBefore := slots, order;
      SameItems(old(slots), old(order), slots, order);
      if !ok {
        return -1;
      }
      KeysStayAway(old(slots), old(order), slots, order, k);
      var x := Full(true, 0, k, v, -1, -1);
      NewHead(env, slots, chains, node, x);
      ghost var filled := slots[node := x];
      CreateEntry(node, x);
      chains := chains[node := [node]];
      ChainsIgnoreLinks(env, filled, slots, chains);
      assert SameSlot(filled[node], slots[node]);
      AppendedItems(before, orderBefore, slots, order, k, v);
      index := node;
    }

    /** Case 3: the home slot heads the key's chain; the entry goes behind its last element. */
    method InsertTail(node: int, k: Key, v: Value) returns (index: int)
      requires Valid() && node == env.home(k) && IsFull(slots, node) && slots[node].isHead && node in chains
               && chains[node] != []
      requires forall s :: IsFull(slots, s) ==> slots[s].key != k
      modifies this`slots, this`size, this`head, this`tail, this`order, this`chains
      ensures ListValid()
      ensures index == -1 ==> slots == old(slots) && order == old(order) && Entries() == old(Entries()) && Valid()
      ensures index == -1 ==> old(IsTableFull()) || (old(EndIsHemmedIn(node)) && |Reach(env)| < size)
      ensures index == -1 <==>
                old(IsTableFull()) || NoEmptyInReach(env, old(slots), old(chains)[node][|old(chains)[node]| - 1])
      ensures index == -1 && !old(IsTableFull()) ==> SomeHemmedIn(env, slots)
      ensures index != -1 ==> 0 <= index < |old(slots)| && old(slots)[index].Empty?
      ensures index != -1 ==> Valid() && Entries() == old(Entries()) + [(k, v)]
      ensures index != -1 ==> IsFull(slots, index) && slots[index].key == k
    {
      ghost var i := HeadIsFirst(node);
      var last := LastOfChain(node);
      if IsTableFull() {
        return -1;
      }
      var found, off, e := GetNextEmptySlot(last);
      if !found {
        HemmedInCount(env, slots, order, {}, last);
        return -1;
      }
      var x := Full(false, 0, k, v, -1, -1);
      NewTail(env, slots, chains, node, e, off, x);
      ghost var linked := slots[e := x][last := slots[last].(off := off)];
      CreateBehind(last, off, e, x);
      chains := chains[node := chains[node] + [e]];
      ChainsIgnoreLinks(env, linked, slots, chains);
      assert SameSlot(linked[e], slots[e]);
      AppendedItems(old(slots), old(order), slots, order, k, v);
      index := e;
    }

    /** Constructs an entry in the empty slot `e` and links it behind `last`. */
    method CreateBehind(last: int, off: nat, e: int, x: Slot)
      requires ListValid() && IsFull(slots, last) && 0 <= e < |slots| && slots[e].Empty? && x.Full?
      modifies this`slots, this`size, this`head, this`tail, this`order
      ensures ListValid() && SameData(old(slots)[e := x][last := old(slots)[last].(off := off)], slots)
      ensures Appended(old(slots), old(order), slots, order, x.key, x.value)
    {
      InsideList(slots, head, tail, order, last, slots[last].(off := off));
      slots := slots[last := slots[last].(off := off)];
      assert forall s :: IsFull(slots, s) <==> IsFull(old(slots), s);
      ghost var before := slots;
      assert SameEntries(old(slots), order, before, order) by {
        ListIsFull(slots, head, tail, order);
      }
      assert slots[e := x] == old(slots)[e := x][last := old(slots)[last].(off := off)];
      CreateEntry(e, x);
      AppendedAfterSame(old(slots), old(order), before, old(order), slots, order, x.key, x.value);
    }

    /** The end of the chain that starts at `node`. */
    method LastOfChain(node: int) returns (last: int)
      requires Valid() && node in chains
      ensures last == chains[node][|chains[node]| - 1] && IsFull(slots, last)
    {
      ghost var c, i := chains[node], 0;
      assert ChainOk(env, slots, node, c);
      last := node;
      while true
        invariant 0 <= i < |c| && c[i] == last
        decreases |c| - i
      {
        OffsetTellsEnd(env, slots, node, c, i);
        if slots[last].off == 0 {
          return;
        }
        last := NextSlot(env, last, slots[last].off);
        i := i + 1;
      }
    }

    /** Gives an entry a new value and moves it to the back of the iteration list. */
    method Assign(s: int, v: Value)
      requires Valid() && IsFull(slots, s)
      modifies this`slots, this`head, this`tail, this`order
      ensures Valid() && IsFull(slots, s) && slots[s].key == old(slots)[s].key
      ensures exists i :: 0 <= i < |old(Entries())| && IsMovedToBack(old(Entries()), Entries(), i, old(slots)[s].key, v)
    {
      assert s in order;
      ghost var k :| 0 <= k < |order| && order[k] == s;
      ListIsFull(slots, head, tail, order);
      ChainsIgnoreValue(env, slots, chains, s, v);
      ghost var written := slots[s := slots[s].(value := v)];
      AssignAndMove(s, v, k);
      ChainsIgnoreLinks(env, written, slots, chains);
      assert SameSlot(written[s], slots[s]);
      UpdatedItems(old(slots), old(order), slots, order, k, v);
      assert IsMovedToBack(old(Entries()), Entries(), k, old(slots)[s].key, v);
    }

    method AssignAndMove(s: int, v: Value, ghost k: nat)
      requires ListValid() && k < |order| && order[k] == s && IsFull(slots, s)
      modifies this`slots, this`head, this`tail, this`order
      ensures ListValid() && SameData(old(slots)[s := old(slots)[s].(value := v)], slots)
      ensures order == Without(old(order), k) + [s]
    {
      UpdateOk(slots, head, tail, order, k, v);
      slots := slots[s := slots[s].(value := v)];
      var p, n := slots[s].prev, slots[s].next;
      slots := Remove(slots, head, tail, s);
      head, tail := if s == head then n else head, if s == tail then p else tail;
      slots := PushBack(slots, tail, s);
      head := if head == -1 && tail == -1 then s else head;
      tail := s;
      order := Without(order, k) + [s];
    }

    /** Unlinks a node from the iteration list; its own links stay. */
    method IterListRemove(node: int, ghost k: nat)
      requires ListOk(slots, head, tail, order) && k < |order| && order[k] == node
      modifies this`slots, this`head, this`tail, this`order
      ensures ListOk(slots, head, tail, order) && order == Without(old(order), k) && node !in order
      ensures SameData(old(slots), slots)
    {
      RemoveOk(slots, head, tail, order, k);
      var p, n := slots[node].prev, slots[node].next;
      slots := Remove(slots, head, tail, node);
      head, tail := if node == head then n else head, if node == tail then p else tail;
      order := Without(order, k);
    }

    /** Puts `dst` in the place of `src` in the iteration list. */
    method IterListReplace(src: int, dst: int, ghost k: nat)
      requires ListOk(slots, head, tail, order) && k < |order| && order[k] == src && IsFull(slots, dst) && dst !in order
      modifies this`slots, this`head, this`tail, this`order
      ensures ListOk(slots, head, tail, order) && order == old(order)[k := dst]
      ensures SameData(old(slots), slots)
    {
      ReplaceOk(slots, head, tail, order, k, dst);
      slots := Replace(slots, head, tail, src, dst);
      head, tail := if src == head then dst else head, if src == tail then dst else tail;
      order := order[k := dst];
    }

    /** Removes the entry at `index`; the invalid index is the end of the list and removes nothing. The position
        returned is that of the next entry, read before anything moves: it still holds that entry unless the entry
        ended the chain of the erased one and was moved away. */
    method Erase(index: int) returns (next: int)
      requires Valid() && (index == -1 || IsFull(slots, index))
      modifies this`slots, this`size, this`head, this`tail, this`order, this`chains
      ensures Valid()
      ensures next == if index == -1 then -1 else old(slots)[index].next
      ensures index != -1 && next != -1 ==> IsFull(old(slots), next)
      ensures index != -1 && next != -1 ==> var h := env.home(old(slots)[index].key);
                && h in old(chains) && old(chains)[h] != []
                && (IsFull(slots, next) <==> next != old(chains)[h][|old(chains)[h]| - 1])
                && (IsFull(slots, next) ==> slots[next].key == old(slots)[next].key)
      ensures index == -1 ==> Entries() == old(Entries())
      ensures index != -1 ==>
                exists i :: 0 <= i < |old(Entries())| && IsErased(old(Entries()), Entries(), i, old(slots)[index].key)
    {
      if index == -1 {
        return -1;
      }
      assert index in order;
      ghost var k :| 0 <= k < |order| && order[k] == index;
      ListIsFull(slots, head, tail, order);
      next := slots[index].next;
      NextIsAnother(k);
      if slots[index].off != 0 {
        EraseInner(index, k);
      } else {
        EraseLast(index, k);
      }
      DroppedItems(old(slots), old(order), slots, order, k);
      assert IsErased(old(Entries()), Entries(), k, old(slots)[index].key);
    }

    lemma NextIsAnother(k: nat)
      requires ListValid() && k < |order|
      ensures IsFull(slots, order[k]) && slots[order[k]].next != order[k]
      ensures slots[order[k]].next != -1 ==> IsFull(slots, slots[order[k]].next)
    {
      assert NodeOk(slots, order, k);
      assert k + 1 < |order| ==> NodeOk(slots, order, k + 1);
    }

    /** The entry ends its chain: cut the link to it and empty the slot. */
    method EraseLast(cur: int, ghost k: nat)
      requires Valid() && k < |order| && order[k] == cur && IsFull(slots, cur) && slots[cur].off == 0
      modifies this`slots, this`size, this`head, this`tail, this`order, this`chains
      ensures Valid() && Dropped(old(slots), old(order), slots, order, k)
      ensures KeepsOthers(old(slots), slots, {cur})
      ensures var h := env.home(old(slots)[cur].key);
        h in old(chains) && old(chains)[h] != [] && old(chains)[h][|old(chains)[h]| - 1] == cur
    {
      ghost var h, c, i := ChainOf(cur);
      OffsetTellsEnd(env, slots, h, c, i);
      if slots[cur].isHead {
        EraseOnly(cur, k);
      } else {
        EraseEnd(cur, k, h);
      }
    }

    /** The entry is a chain by itself. */
    method EraseOnly(cur: int, ghost k: nat)
      requires Valid() && k < |order| && order[k] == cur && IsFull(slots, cur) && slots[cur].off == 0
               && slots[cur].isHead
      modifies this`slots, this`size, this`head, this`tail, this`order, this`chains
      ensures Valid() && Dropped(old(slots), old(order), slots, order, k)
      ensures KeepsOthers(old(slots), slots, {cur})
    {
      ghost var h, c, i := ChainOf(cur);
      OffsetTellsEnd(env, slots, h, c, i);
      ghost var first := HeadIsFirst(cur);
      DropOnly(env, slots, chains, cur);
      ghost var expected := slots[cur := Empty];
      Unlink(cur, k);
      chains := chains - {h};
      ChainsIgnoreLinks(env, expected, slots, chains);
    }

    /** The entry has a predecessor, which becomes the end. */
    method EraseEnd(cur: int, ghost k: nat, ghost h: int)
      requires Valid() && k < |order| && order[k] == cur && IsFull(slots, cur) && slots[cur].off == 0
               && !slots[cur].isHead
      requires h == env.home(slots[cur].key) && h in chains && |chains[h]| >= 1 && chains[h][|chains[h]| - 1] == cur
      modifies this`slots, this`size, this`head, this`tail, this`order, this`chains
      ensures Valid() && Dropped(old(slots), old(order), slots, order, k)
      ensures KeepsOthers(old(slots), slots, {cur})
    {
      ghost var c := chains[h];
      var prev, h2, i2 := FindPrevSlot(cur);
      assert i2 == |c| - 1 && prev != cur by {
        assert ChainOk(env, slots, h, c);
      }
      EraseBehind(prev, cur, k, h);
    }

    method EraseBehind(prev: int, cur: int, ghost k: nat, ghost h: int)
      requires Valid() && k < |order| && order[k] == cur && IsFull(slots, cur) && IsFull(slots, prev) && prev != cur
      requires h in chains && |chains[h]| >= 2 && chains[h][|chains[h]| - 1] == cur
               && chains[h][|chains[h]| - 2] == prev
      modifies this`slots, this`size, this`head, this`tail, this`order, this`chains
      ensures Valid() && Dropped(old(slots), old(order), slots, order, k)
      ensures KeepsOthers(old(slots), slots, {cur})
    {
      DropLast(env, slots, chains, h);
      ghost var expected := slots[cur := Empty][prev := slots[prev].(off := 0)];
      CutAndUnlink(prev, cur, k);
      chains := chains[h := chains[h][..|chains[h]| - 1]];
      ChainsIgnoreLinks(env, expected, slots, chains);
    }

    /** The chain an entry is on, and its position. */
    lemma ChainOf(s: int) returns (h: int, c: seq<int>, i: nat)
      requires Valid() && IsFull(slots, s)
      ensures h == env.home(slots[s].key) && h in chains && c == chains[h] && i < |c| && c[i] == s
      ensures ChainOk(env, slots, h, c)
    {
      h := env.home(slots[s].key);
      assert OnChain(env, slots, chains, s);
      c := chains[h];
      i :| 0 <= i < |c| && c[i] == s;
    }

    method Unlink(cur: int, ghost k: nat)
      requires ListValid() && k < |order| && order[k] == cur && IsFull(slots, cur)
      modifies this`slots, this`size, this`head, this`tail, this`order
      ensures ListValid() && SameData(old(slots)[cur := Empty], slots)
      ensures Dropped(old(slots), old(order), slots, order, k) && KeepsOthers(old(slots), slots, {cur})
    {
      UnlinkOk(slots, head, tail, order, k);
      var p, n := slots[cur].prev, slots[cur].next;
      slots := Remove(slots, head, tail, cur)[cur := Empty];
      head, tail := if cur == head then n else head, if cur == tail then p else tail;
      size := size - 1;
      order := Without(order, k);
      SameDataKeeps(old(slots)[cur := Empty], slots);
    }

    method CutAndUnlink(prev: int, cur: int, ghost k: nat)
      requires ListValid() && k < |order| && order[k] == cur && IsFull(slots, cur) && IsFull(slots, prev) && prev != cur
      modifies this`slots, this`size, this`head, this`tail, this`order
      ensures ListValid() && SameData(old(slots)[cur := Empty][prev := old(slots)[prev].(off := 0)], slots)
      ensures Dropped(old(slots), old(order), slots, order, k) && KeepsOthers(old(slots), slots, {cur})
    {
      InsideList(slots, head, tail, order, prev, slots[prev].(off := 0));
      slots := slots[prev := slots[prev].(off := 0)];
      assert forall s :: IsFull(slots, s) <==> IsFull(old(slots), s);
      ghost var cut := slots;
      assert cut[cur := Empty] == old(slots)[cur := Empty][prev := old(slots)[prev].(off := 0)];
      Unlink(cur, k);
      forall i | 0 <= i < |order|
        ensures SameItem(old(slots), old(order)[if i < k then i else i + 1], slots, order[i])
      {
        assert SameItem(cut, old(order)[if i < k then i else i + 1], slots, order[i]);
      }
    }

    /** The entry has successors: the last one of its chain moves into its slot. */
    method EraseInner(cur: int, ghost kc: nat)
      requires Valid() && kc < |order| && order[kc] == cur && IsFull(slots, cur) && slots[cur].off != 0
      modifies this`slots, this`size, this`head, this`tail, this`order, this`chains
      ensures Valid() && Dropped(old(slots), old(order), slots, order, kc)
      ensures var h := env.home(old(slots)[cur].key);
        && h in old(chains) && old(chains)[h] != []
        && var last := old(chains)[h][|old(chains)[h]| - 1];
           !IsFull(slots, last) && KeepsOthers(old(slots), slots, {cur, last})
    {
      ghost var h, c, i := ChainOf(cur);
      OffsetTellsEnd(env, slots, h, c, i);
      var prev, last := LastTwo(cur, h, i);
      assert last in order;
      ghost var kl :| 0 <= kl < |order| && order[kl] == last;
      assert cur in c;
      FillFromEnd(cur, prev, last, h, kc, kl);
    }

    /** The end of the chain gives its data to `cur` and goes. */
    method FillFromEnd(cur: int, prev: int, last: int, ghost h: int, ghost kc: nat, ghost kl: nat)
      requires Valid() && kc < |order| && order[kc] == cur && kl < |order| && order[kl] == last && cur != last
               && prev != last
      requires IsFull(slots, cur) && IsFull(slots, last) && IsFull(slots, prev)
      requires h in chains && |chains[h]| >= 2 && cur in chains[h]
      requires last == chains[h][|chains[h]| - 1] && prev == chains[h][|chains[h]| - 2]
      modifies this`slots, this`size, this`head, this`tail, this`order, this`chains
      ensures Valid() && Dropped(old(slots), old(order), slots, order, kc)
      ensures !IsFull(slots, last) && KeepsOthers(old(slots), slots, {cur, last})
    {
      SwapAndDropLast(env, slots, chains, h, cur);
      ghost var swapped := Swapped(slots, cur, last);
      ghost var expected := swapped[last := Empty][prev := swapped[prev].(off := 0)];
      MoveLastInto(cur, prev, last, kc, kl);
      chains := chains[h := chains[h][..|chains[h]| - 1]];
      ChainsIgnoreLinks(env, expected, slots, chains);
      SwappedKeeps(old(slots), slots, cur, prev, last);
    }

    /** The last element of the chain through `cur` and the one before it. */
    method LastTwo(cur: int, ghost h: int, ghost i: nat) returns (prev: int, last: int)
      requires Valid() && h in chains && i + 1 < |chains[h]| && chains[h][i] == cur
      ensures last == chains[h][|chains[h]| - 1] && prev == chains[h][|chains[h]| - 2]
      ensures IsFull(slots, last) && IsFull(slots, prev) && last != cur && last != prev
    {
      ghost var c, j := chains[h], i + 1;
      assert ChainOk(env, slots, h, c);
      OffsetTellsEnd(env, slots, h, c, i);
      prev := cur;
      last := NextSlot(env, cur, slots[cur].off);
      OffsetTellsEnd(env, slots, h, c, i + 1);
      while slots[last].off != 0
        invariant i < j < |c| && c[j] == last && c[j - 1] == prev && IsFull(slots, last)
        decreases |c| - j
      {
        OffsetTellsEnd(env, slots, h, c, j);
        prev := last;
        last := NextSlot(env, last, slots[last].off);
        j := j + 1;
        OffsetTellsEnd(env, slots, h, c, j);
      }
      OffsetTellsEnd(env, slots, h, c, j);
      OffsetTellsEnd(env, slots, h, c, j - 1);
    }

    /** Unlinks `cur`, hands it the list position and the data of `last`, and empties `last`. */
    method MoveLastInto(cur: int, prev: int, last: int, ghost kc: nat, ghost kl: nat)
      requires ListValid() && kc < |order| && order[kc] == cur && kl < |order| && order[kl] == last && cur != last
      requires IsFull(slots, cur) && IsFull(slots, last) && IsFull(slots, prev) && prev != last
      modifies this`slots, this`size, this`head, this`tail, this`order
      ensures ListValid() && Dropped(old(slots), old(order), slots, order, kc)
      ensures var swapped := Swapped(old(slots), cur, last);
        SameData(swapped[last := Empty][prev := swapped[prev].(off := 0)], slots)
    {
      ghost var at := if kl < kc then kl else kl - 1;
      IterListRemove(cur, kc);
      ghost var removed := slots;
      assert SameSlot(old(slots)[cur], slots[cur]);
      IterListReplace(last, cur, at);
      TwiceSame(old(slots), removed, slots);
      OverwriteData(cur, prev, last, old(order), kc, kl, old(slots));
      size := size - 1;
      SwappedIsOverwritten(old(slots), slots, cur, prev, last);
      OverwrittenSlots(old(slots), slots, cur, prev, last);
      OverwrittenItems(old(slots), old(order), slots, order, kc, kl);
    }

    method OverwriteData(cur: int, prev: int, last: int, ghost order0: seq<int>, ghost kc: nat, ghost kl: nat,
                         ghost slots0: seq<Slot>)
      requires ListOk(slots, head, tail, order) && SameData(slots0, slots) && Covers(slots0, order0) && Distinct(order0)
      requires kc < |order0| && order0[kc] == cur && kl < |order0| && order0[kl] == last && cur != last
      requires order == Without(order0, kc)[if kl < kc then kl else kl - 1 := cur]
      requires IsFull(slots0, cur) && IsFull(slots0, last) && IsFull(slots0, prev) && prev != last
      modifies this`slots
      ensures ListOk(slots, head, tail, order) && Covers(slots, order)
      ensures var swapped := Swapped(slots0, cur, last);
        SameData(swapped[last := Empty][prev := swapped[prev].(off := 0)], slots)
    {
      OverwrittenData(slots0, slots, cur, prev, last);
      MembersAfterOverwrite(order0, kc, kl, last);
      OverwrittenList(slots, head, tail, order, cur, prev, last);
      var after := Overwritten(slots, cur, prev, last);
      OverwrittenCovers(slots0, after, order0, order, kc, kl, prev);
      slots := after;
    }

    /** One round of the relocation: the first entry of the rest moves behind `prev`, if a slot is in reach. */
    method RelocateOne(prev: int, r: int, isFirst: bool, ghost h: int, ghost built: seq<int>, ghost rest: seq<int>,
                       target: int)
      returns (moved: bool, e: int, rOff: nat)
      requires ListValid() && SplitOk(env, slots, chains, h, built, rest, isFirst, target)
      requires rest != [] && r == rest[0] && prev == built[|built| - 1]
      modifies this`slots, this`head, this`tail, this`order
      ensures ListValid() && SameEntries(old(slots), old(order), slots, order)
      ensures !moved ==> slots == old(slots) && IsFull(slots, prev) && NoEmptyInReach(env, slots, prev)
      ensures !moved ==> |Reach(env)| <= size && 0 <= target < |slots| && (isFirst <==> !slots[target].Protected?)
      ensures moved ==> SplitOk(env, slots, chains, h, built + [e], rest[1..], false, target)
      ensures moved ==> rOff < |env.offsets| && (rOff == 0 <==> |rest| == 1)
      ensures moved && |rest| > 1 ==> NextSlot(env, r, rOff) == rest[1]
    {
      StretchIsFull(env, slots, h, built, true, if isFirst then rest[0] else -1);
      assert prev in built;
      SelfEntries();
      rOff := 0;
      var off;
      moved, off, e := GetNextEmptySlot(prev);
      if !moved {
        HemmedInCount(env, slots, order, {target}, prev);
        StretchHead(env, slots, h, rest);
        return;
      }
      StretchHead(env, slots, h, rest);
      MoveOne(env, slots, chains, h, built, rest, isFirst, target, e, off);
      rOff := slots[r].off;
      ghost var before := slots;
      MoveBehind(prev, r, e, off, isFirst);
      SplitIgnoresLinks(env, Moved(before, prev, r, e, off, isFirst), slots, chains, h, built + [e], rest[1..], false,
          target);
    }

    /** The same, in the middle of the relocation: the entries are still those of the start. */
    method RelocateNext(prev: int, r: int, isFirst: bool, ghost h: int, ghost built: seq<int>, ghost rest: seq<int>,
                        target: int, ghost slots0: seq<Slot>, ghost order0: seq<int>)
      returns (moved: bool, e: int, rOff: nat)
      requires ListValid() && SplitOk(env, slots, chains, h, built, rest, isFirst, target)
      requires rest != [] && r == rest[0] && prev == built[|built| - 1] && SameEntries(slots0, order0, slots, order)
      modifies this`slots, this`head, this`tail, this`order
      ensures ListValid() && SameEntries(slots0, order0, slots, order)
      ensures !moved ==> slots == old(slots) && SomeHemmedIn(env, slots)
      ensures !moved ==> |Reach(env)| <= size && 0 <= target < |slots| && (isFirst <==> !slots[target].Protected?)
      ensures moved ==> SplitOk(env, slots, chains, h, built + [e], rest[1..], false, target)
      ensures moved ==> rOff < |env.offsets| && (rOff == 0 <==> |rest| == 1)
      ensures moved && |rest| > 1 ==> NextSlot(env, r, rOff) == rest[1]
    {
      ghost var before, orderBefore := slots, order;
      moved, e, rOff := RelocateOne(prev, r, isFirst, h, built, rest, target);
      SameEntriesTransitive(slots0, order0, before, orderBefore, slots, order);
    }

    lemma SelfEntries()
      requires ListValid()
      ensures SameEntries(slots, order, slots, order)
    {
      ListIsFull(slots, head, tail, order);
    }

  }

  /** `cur` takes over the data of `last`, which is emptied, and `prev` becomes the end of the chain. */
  function Overwritten(slots: seq<Slot>, cur: int, prev: int, last: int): seq<Slot>
    requires IsFull(slots, cur) && IsFull(slots, last) && IsFull(slots, prev) && prev != last && cur != last
  {
    var moved := slots[cur := slots[cur].(key := slots[last].key, value := slots[last].value)];
    var emptied := moved[last := Empty];
    emptied[prev := emptied[prev].(off := 0)]
  }

  lemma OverwrittenList(slots: seq<Slot>, head: int, tail: int, order: seq<int>, cur: int, prev: int, last: int)
    requires ListOk(slots, head, tail, order) && last !in order
    requires IsFull(slots, cur) && IsFull(slots, last) && IsFull(slots, prev) && prev != last && cur != last
    ensures ListOk(Overwritten(slots, cur, prev, last), head, tail, order)
  {
    var moved := slots[cur := slots[cur].(key := slots[last].key, value := slots[last].value)];
    InsideList(slots, head, tail, order, cur, moved[cur]);
    OutsideList(moved, head, tail, order, last, Empty);
    var emptied := moved[last := Empty];
    InsideList(emptied, head, tail, order, prev, emptied[prev].(off := 0));
  }

  lemma OverwrittenData(slots0: seq<Slot>, slots: seq<Slot>, cur: int, prev: int, last: int)
    requires SameData(slots0, slots) && IsFull(slots0, cur) && IsFull(slots0, last) && IsFull(slots0, prev)
    requires prev != last && cur != last
    ensures IsFull(slots, cur) && IsFull(slots, last) && IsFull(slots, prev)
    ensures var swapped := Swapped(slots0, cur, last);
      SameData(swapped[last := Empty][prev := swapped[prev].(off := 0)], Overwritten(slots, cur, prev, last))
  {
    assert SameSlot(slots0[cur], slots[cur]) && SameSlot(slots0[last], slots[last])
           && SameSlot(slots0[prev], slots[prev]);
    var swapped, after := Swapped(slots0, cur, last), Overwritten(slots, cur, prev, last);
    var before := swapped[last := Empty][prev := swapped[prev].(off := 0)];
    forall t | 0 <= t < |slots0| ensures SameSlot(before[t], after[t]) {
      assert SameSlot(slots0[t], slots[t]);
    }
  }

  /** Only what `cur` gets from the exchange matters, as `last` is emptied. */
  lemma SwappedIsOverwritten(a: seq<Slot>, b: seq<Slot>, cur: int, prev: int, last: int)
    requires IsFull(a, cur) && IsFull(a, last) && IsFull(a, prev) && cur != last && prev != last
    requires var swapped := Swapped(a, cur, last);
      SameData(swapped[last := Empty][prev := swapped[prev].(off := 0)], b)
    ensures var moved := a[cur := a[cur].(key := a[last].key, value := a[last].value)];
      SameData(moved[last := Empty][prev := moved[prev].(off := 0)], b)
  {
    var swapped, moved := Swapped(a, cur, last), a[cur := a[cur].(key := a[last].key, value := a[last].value)];
    assert swapped[last := Empty] == moved[last := Empty];
  }

  lemma OverwrittenCovers(slots0: seq<Slot>, after: seq<Slot>, order0: seq<int>, order: seq<int>, kc: nat, kl: nat,
                          prev: int)
    requires Covers(slots0, order0) && Distinct(order0) && kc < |order0| && kl < |order0| && kc != kl
    requires order == Without(order0, kc)[if kl < kc then kl else kl - 1 := order0[kc]]
    requires IsFull(slots0, order0[kc]) && IsFull(slots0, order0[kl]) && IsFull(slots0, prev) && prev != order0[kl]
    requires var swapped := Swapped(slots0, order0[kc], order0[kl]);
      SameData(swapped[order0[kl] := Empty][prev := swapped[prev].(off := 0)], after)
    ensures Covers(after, order)
  {
    var swapped := Swapped(slots0, order0[kc], order0[kl]);
    var before := swapped[order0[kl] := Empty][prev := swapped[prev].(off := 0)];
    forall t ensures IsFull(after, t) <==> t in order {
      MembersAfterOverwrite(order0, kc, kl, t);
      assert 0 <= t < |before| ==> SameSlot(before[t], after[t]);
      assert IsFull(slots0, t) <==> t in order0;
    }
  }

  /** Entries that are the same have the same keys. */
  lemma SameDataKeeps(a: seq<Slot>, b: seq<Slot>)
    requires SameData(a, b)
    ensures KeepsOthers(a, b, {}) && forall s :: IsFull(b, s) ==> IsFull(a, s)
  {
    forall s | 0 <= s < |a| ensures IsFull(a, s) <==> IsFull(b, s) {
      assert SameSlot(a[s], b[s]);
    }
  }

  lemma SwappedKeeps(before: seq<Slot>, after: seq<Slot>, cur: int, prev: int, last: int)
    requires IsFull(before, cur) && IsFull(before, last) && IsFull(before, prev) && prev != last
    requires var swapped := Swapped(before, cur, last);
      SameData(swapped[last := Empty][prev := swapped[prev].(off := 0)], after)
    ensures !IsFull(after, last) && KeepsOthers(before, after, {cur, last})
  {
    var swapped := Swapped(before, cur, last);
    SameDataKeeps(swapped[last := Empty][prev := swapped[prev].(off := 0)], after);
  }

  lemma KeysStayAway(a: seq<Slot>, order: seq<int>, b: seq<Slot>, order': seq<int>, k: Key)
    requires SameEntries(a, order, b, order') && Covers(b, order') && forall s :: IsFull(a, s) ==> a[s].key != k
    ensures forall s :: IsFull(b, s) ==> b[s].key != k
  {
    forall s | IsFull(b, s) ensures b[s].key != k {
      assert s in order';
      var i :| 0 <= i < |order'| && order'[i] == s;
      assert SameItem(a, order[i], b, order'[i]);
    }
  }

  lemma StretchHead(env: Env, slots: seq<Slot>, h: int, rest: seq<int>)
    requires env.n >= 1 && rest != [] && Stretch(env, slots, h, rest, false, -1)
    ensures IsFull(slots, rest[0]) && slots[rest[0]].off < |env.offsets|
    ensures slots[rest[0]].off == 0 <==> |rest| == 1
    ensures |rest| > 1 ==> NextSlot(env, rest[0], slots[rest[0]].off) == rest[1]
  {
    assert LinkOk(env, slots, h, rest, 0, false, -1);
    if |rest| > 1 {
      assert LinkOk(env, slots, h, rest, 1, false, -1);
    }
  }

  /** The slots after `r` has moved to the empty slot `e`, linked behind `prev`. */
  function Relocated(slots: seq<Slot>, head: int, tail: int, prev: int, r: int, e: int, off: nat,
                     reserve: bool): seq<Slot>
    requires IsFull(slots, prev) && IsFull(slots, r) && prev != r && 0 <= e < |slots| && slots[e].Empty?
    requires r != head ==> IsFull(slots, slots[r].prev)
    requires r != tail ==> IsFull(slots, slots[r].next)
  {
    var copied := slots[e := Full(false, 0, slots[r].key, slots[r].value, -1, -1)];
    var replaced := Replace(copied, head, tail, r, e);
    assert SameSlot(copied[prev], replaced[prev]);
    var moved := MoveEntry(slots, head, tail, r, e, if reserve then Protected else Empty);
    moved[prev := moved[prev].(off := off)]
  }

  /** The effect of a relocation step on list, chains and entries. */
  lemma MoveBehindOk(slots: seq<Slot>, head: int, tail: int, order: seq<int>, k: nat, prev: int, e: int, off: nat,
                     reserve: bool)
    requires ListOk(slots, head, tail, order) && Covers(slots, order) && k < |order|
    requires IsFull(slots, prev) && prev != order[k] && 0 <= e < |slots| && slots[e].Empty?
    ensures var r := order[k];
      && IsFull(slots, r) && (r != head ==> IsFull(slots, slots[r].prev))
          && (r != tail ==> IsFull(slots, slots[r].next))
      && var after := Relocated(slots, head, tail, prev, r, e, off, reserve);
         && ListOk(after, if r == head then e else head, if r == tail then e else tail, order[k := e])
         && Covers(after, order[k := e]) && |after| == |slots|
         && SameData(Moved(slots, prev, r, e, off, reserve), after)
         && SameEntries(slots, order, after, order[k := e])
  {
    var r := order[k];
    var vacated := if reserve then Protected else Empty;
    MoveEntryOk(slots, head, tail, order, k, e, vacated);
    var moved := MoveEntry(slots, head, tail, r, e, vacated);
    OffsetChange(slots[e := slots[r].(isHead := false, off := 0)][r := vacated], moved, prev, off);
    var after := moved[prev := moved[prev].(off := off)];
    InsideList(moved, if r == head then e else head, if r == tail then e else tail, order[k := e], prev, after[prev]);
    MovedItems(slots, order, after, order[k := e], k, e, r, prev, off, reserve);
  }

  /** Writing the offset index of one entry. */
  lemma OffsetChange(a: seq<Slot>, b: seq<Slot>, prev: int, off: nat)
    requires SameData(a, b) && IsFull(a, prev)
    ensures IsFull(b, prev) && SameData(a[prev := a[prev].(off := off)], b[prev := b[prev].(off := off)])
    ensures forall s :: IsFull(b[prev := b[prev].(off := off)], s) <==> IsFull(b, s)
  {
    assert SameSlot(a[prev], b[prev]);
    var a', b' := a[prev := a[prev].(off := off)], b[prev := b[prev].(off := off)];
    forall s | 0 <= s < |a| ensures SameSlot(a'[s], b'[s]) {
      assert SameSlot(a[s], b[s]);
    }
  }

  lemma MovedItems(a: seq<Slot>, order: seq<int>, b: seq<Slot>, order': seq<int>, k: nat, e: int, r: int, prev: int,
                   off: nat, reserve: bool)
    requires IsFull(a, prev) && IsFull(a, r) && prev != r && 0 <= e < |a| && a[e].Empty?
    requires Distinct(order) && Covers(a, order) && k < |order| && order[k] == r && order' == order[k := e]
    requires SameData(Moved(a, prev, r, e, off, reserve), b)
    ensures SameEntries(a, order, b, order')
  {
    var m := Moved(a, prev, r, e, off, reserve);
    forall i | 0 <= i < |order| ensures SameItem(a, order[i], b, order'[i]) {
      assert order[i] in order;
      assert SameSlot(m[order'[i]], b[order'[i]]);
    }
  }

  // ----- The position Erase returns -----

  lemma EmptySlots(m: DenseMapObj)
    requires m.Valid()
    ensures forall s :: 0 <= s < |m.slots| && s !in m.order ==> m.slots[s].Empty?
  {
    forall s | 0 <= s < |m.slots| && s !in m.order ensures m.slots[s].Empty? {
      assert !IsFull(m.slots, s);
    }
  }

  /** The only entry sits in its home slot and heads its chain. */
  lemma OneEntry(m: DenseMapObj, h: int, k: Key, v: Value)
    requires m.Valid() && m.Entries() == [(k, v)] && m.env.home(k) == h
    ensures m.order == [h] && IsFull(m.slots, h) && m.slots[h].isHead && m.slots[h].key == k
  {
    var a := m.order[0];
    assert NodeOk(m.slots, m.order, 0) && m.Entries()[0] == (m.slots[a].key, m.slots[a].value);
    assert OnChain(m.env, m.slots, m.chains, a);
    var c := m.chains[h];
    assert ChainOk(m.env, m.slots, h, c) && LinkOk(m.env, m.slots, h, c, 0, true, -1);
    assert h in m.order;
  }

  /** Two entries of the same home slot, the first of them in it: the second follows the first both in the
      iteration order and on the chain, which it ends. */
  lemma TwoOnOneChain(m: DenseMapObj, h: int, k1: Key, v1: Value, k2: Key, v2: Value)
    requires m.Valid() && m.Entries() == [(k1, v1), (k2, v2)] && m.env.home(k1) == h == m.env.home(k2) && k1 != k2
    requires IsFull(m.slots, h) && m.slots[h].key == k1
    ensures |m.order| == 2 && m.order[0] == h && m.slots[h].next == m.order[1] >= 0 && h in m.chains
            && m.chains[h] == m.order
  {
    var a, b := m.order[0], m.order[1];
    assert NodeOk(m.slots, m.order, 0) && NodeOk(m.slots, m.order, 1);
    assert m.Entries()[0] == (m.slots[a].key, m.slots[a].value) && m.Entries()[1] == (m.slots[b].key, m.slots[b].value);
    assert OnChain(m.env, m.slots, m.chains, a) && OnChain(m.env, m.slots, m.chains, b);
    var c := m.chains[h];
    assert ChainOk(m.env, m.slots, h, c);
    forall i | 0 <= i < |c| ensures c[i] == a || c[i] == b {
      assert LinkOk(m.env, m.slots, h, c, i, true, -1) && c[i] in m.order;
    }
    DistinctPair(c, a, b);
  }

  lemma DistinctPair(c: seq<int>, a: int, b: int)
    requires Distinct(c) && c != [] && c[0] == a && b in c && a != b
    requires forall i :: 0 <= i < |c| ==> c[i] == a || c[i] == b
    ensures c == [a, b]
  {
    assert a == c[0] && a in c;
    TwoElements(c, a, b);
    assert c[1] == b;
  }

  lemma ProbeElsewhere(h: nat, o: nat, n: nat)
    requires h < n && 0 < o < n
    ensures (h + o) % n != h
  {
    if h + o < n {
      assert (h + o) % n == h + o;
    } else {
      assert (h + o) % n == (h + o - n) % n == h + o - n;
    }
  }

  /** In every table of at least eight slots, erasing the first of two entries with the same home slot returns a
      position that holds nothing, although an entry is left. */
  method EraseReturnsEmptyPosition(n: nat, offsets: seq<nat>, home: Key -> nat, k1: Key, v1: Value, k2: Key, v2: Value)
    returns (m: DenseMapObj, next: int)
    requires EnvOk(Env(n, offsets, home)) && n >= 8 && |offsets| >= 2 && offsets[1] < n
    requires home(k1) == home(k2) && k1 != k2
    ensures m.Valid() && m.Entries() == [(k2, v2)]
    ensures next != -1 && !IsFull(m.slots, next)
  {
    m := InsertTwo(n, offsets, home, k1, v1, k2, v2);
    TwoOnOneChain(m, home(k1), k1, v1, k2, v2);
    next := m.Erase(home(k1));
  }

  method InsertTwo(n: nat, offsets: seq<nat>, home: Key -> nat, k1: Key, v1: Value, k2: Key, v2: Value)
    returns (m: DenseMapObj)
    requires EnvOk(Env(n, offsets, home)) && n >= 8 && |offsets| >= 2 && offsets[1] < n
    requires home(k1) == home(k2) && k1 != k2
    ensures fresh(m) && m.Valid() && m.env == Env(n, offsets, home) && m.Entries() == [(k1, v1), (k2, v2)]
    ensures IsFull(m.slots, home(k1)) && m.slots[home(k1)].key == k1
  {
    m := new DenseMapObj(n, offsets, home);
    var h := home(k1);
    EmptySlots(m);
    var first, inserted := m.TryInsertOrUpdate(k1, v1, false);
    OneEntry(m, h, k1, v1);
    EmptySlots(m);
    ProbeElsewhere(h, offsets[1], n);
    assert m.slots[ProbeSlot(m.env, h, 1)].Empty?;
    ghost var before := m.slots;
    var second;
    second, inserted := m.TryInsertOrUpdate(k2, v2, false);
    assert inserted;
    HomeSlotKept(m, h, second, k1, v1, k2, v2);
  }

  lemma HomeSlotKept(m: DenseMapObj, h: int, second: int, k1: Key, v1: Value, k2: Key, v2: Value)
    requires m.Valid() && m.Entries() == [(k1, v1), (k2, v2)] && m.env.home(k1) == h == m.env.home(k2)
    requires IsFull(m.slots, second) && m.slots[second].key == k2 && second != h
    ensures IsFull(m.slots, h) && m.slots[h].key == k1
  {
    var a, b := m.order[0], m.order[1];
    assert NodeOk(m.slots, m.order, 0) && NodeOk(m.slots, m.order, 1);
    assert m.Entries()[0] == (m.slots[a].key, m.slots[a].value) && m.Entries()[1] == (m.slots[b].key, m.slots[b].value);
    assert OnChain(m.env, m.slots, m.chains, a);
    var c := m.chains[h];
    assert ChainOk(m.env, m.slots, h, c) && LinkOk(m.env, m.slots, h, c, 0, true, -1);
    assert h in m.order;
  }
}
