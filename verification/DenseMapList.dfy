/** Slots of the dense hash map and the doubly linked iteration list threaded through them. A slot joins the
    metadata byte and the entry storage; index -1 stands for the invalid index. */
module DenseMapList {

  // Keys and values are only compared and copied, so integers stand for them.
  type Key = int
  type Value = int

  datatype Slot =
    | Empty
    | Protected
    | Full(isHead: bool, off: nat, key: Key, value: Value, prev: int, next: int)

  // ----- The metadata byte -----

  const NUM_OFFSET_DISTS: nat := 126
  const EMPTY_SLOT: nat := 0xFF
  const PROTECTED_SLOT: nat := 0xFE
  const TAIL_FLAG: nat := 0x80

  function Encode(s: Slot): nat
  {
    match s
    case Empty => EMPTY_SLOT
    case Protected => PROTECTED_SLOT
    case Full(isHead, off, _, _, _, _) => (if isHead then 0 else TAIL_FLAG) + off
  }

  /** The byte tells the four kinds of slots and their offset index apart. */
  lemma MetadataIsFaithful(s: Slot)
    requires s.Full? ==> s.off < NUM_OFFSET_DISTS
    ensures Encode(s) < 256
    ensures Encode(s) == EMPTY_SLOT <==> s.Empty?
    ensures Encode(s) == PROTECTED_SLOT <==> s.Protected?
    ensures Encode(s) < TAIL_FLAG <==> s.Full? && s.isHead
    ensures s.Full? ==> Encode(s) % TAIL_FLAG == s.off
  {
  }

  // ----- The iteration list -----

  predicate IsFull(slots: seq<Slot>, s: int)
  {
    0 <= s < |slots| && slots[s].Full?
  }

  ghost predicate Distinct(order: seq<int>)
  {
    forall i, j :: 0 <= i < j < |order| ==> order[i] != order[j]
  }

  /** The slot at position `i` of the order, or -1 beyond its ends. */
  function AtOrNone(order: seq<int>, i: int): int
  {
    if 0 <= i < |order| then order[i] else -1
  }

  ghost predicate NodeOk(slots: seq<Slot>, order: seq<int>, i: int)
    requires 0 <= i < |order|
  {
    && IsFull(slots, order[i])
    && slots[order[i]].prev == AtOrNone(order, i - 1)
    && slots[order[i]].next == AtOrNone(order, i + 1)
  }

  /** The links spell out `order`, in both directions. */
  ghost predicate ListOk(slots: seq<Slot>, head: int, tail: int, order: seq<int>)
  {
    && Distinct(order)
    && head == AtOrNone(order, 0) && tail == AtOrNone(order, |order| - 1)
    && (forall i :: 0 <= i < |order| ==> NodeOk(slots, order, i))
  }

  /** Two tables that differ in list links only. */
  ghost predicate SameData(a: seq<Slot>, b: seq<Slot>)
  {
    |a| == |b| && forall s :: 0 <= s < |a| ==> SameSlot(a[s], b[s])
  }

  ghost predicate SameSlot(a: Slot, b: Slot)
  {
    match a
    case Full(_, _, _, _, _, _) =>
      b.Full? && b.isHead == a.isHead && b.off == a.off && b.key == a.key && b.value == a.value
    case _ => b == a
  }

  function SetPrev(slots: seq<Slot>, s: int, p: int): (r: seq<Slot>)
    requires IsFull(slots, s)
    ensures SameData(slots, r)
  {
    slots[s := slots[s].(prev := p)]
  }

  function SetNext(slots: seq<Slot>, s: int, n: int): (r: seq<Slot>)
    requires IsFull(slots, s)
    ensures SameData(slots, r)
  {
    slots[s := slots[s].(next := n)]
  }

  /** `IterListPushBack`: the slots afterwards; head and tail follow from the order. */
  function PushBack(slots: seq<Slot>, tail: int, node: int): (r: seq<Slot>)
    requires IsFull(slots, node) && (tail == -1 || IsFull(slots, tail))
    ensures SameData(slots, r)
  {
    var linked := SetNext(SetPrev(slots, node, tail), node, -1);
    if tail == -1 then linked else SetNext(linked, tail, node)
  }

  lemma PushBackOk(slots: seq<Slot>, head: int, tail: int, order: seq<int>, node: int)
    requires ListOk(slots, head, tail, order) && IsFull(slots, node) && node !in order
    ensures tail == -1 || IsFull(slots, tail)
    ensures (head == -1 && tail == -1) <==> order == []
    ensures ListOk(PushBack(slots, tail, node), if order == [] then node else head, node, order + [node])
  {
    var n := |order|;
    if n > 0 {
      assert NodeOk(slots, order, 0) && NodeOk(slots, order, n - 1);
    }
    var slots', order' := PushBack(slots, tail, node), order + [node];
    forall i | 0 <= i < |order'| ensures NodeOk(slots', order', i) {
      if i < n {
        assert NodeOk(slots, order, i);
        assert order[i] in order;
      }
    }
  }

  /** `IterListRemove` of a node: its neighbours link to each other; its own links stay. */
  function Remove(slots: seq<Slot>, head: int, tail: int, node: int): (r: seq<Slot>)
    requires IsFull(slots, node)
    requires node != head ==> IsFull(slots, slots[node].prev)
    requires node != tail ==> IsFull(slots, slots[node].next)
    ensures SameData(slots, r)
  {
    var p, n := slots[node].prev, slots[node].next;
    var s1 := if node == head then slots else SetNext(slots, p, n);
    if node == tail then s1 else SetPrev(s1, n, p)
  }

  function Without(order: seq<int>, k: nat): seq<int>
    requires k < |order|
  {
    order[..k] + order[k + 1..]
  }

  lemma RemoveOk(slots: seq<Slot>, head: int, tail: int, order: seq<int>, k: nat)
    requires ListOk(slots, head, tail, order) && k < |order|
    ensures var node := order[k];
      && IsFull(slots, node)
      && (node == head <==> k == 0) && (node == tail <==> k == |order| - 1)
      && (node != head ==> IsFull(slots, slots[node].prev)) && (node != tail ==> IsFull(slots, slots[node].next))
      && ListOk(Remove(slots, head, tail, node), if node == head then slots[node].next else head,
                if node == tail then slots[node].prev else tail, Without(order, k))
      && order[k] !in Without(order, k)
  {
    var node := order[k];
    assert NodeOk(slots, order, k);
    assert NodeOk(slots, order, 0) && NodeOk(slots, order, |order| - 1);
    if k > 0 {
      assert NodeOk(slots, order, k - 1);
    }
    if k + 1 < |order| {
      assert NodeOk(slots, order, k + 1);
    }
    var slots', order' := Remove(slots, head, tail, node), Without(order, k);
    forall i | 0 <= i < |order'| ensures NodeOk(slots', order', i) {
      assert NodeOk(slots, order, if i < k then i else i + 1);
    }
  }

  /** `IterListReplace`: `dst` takes the place of `src`. */
  function Replace(slots: seq<Slot>, head: int, tail: int, src: int, dst: int): (r: seq<Slot>)
    requires IsFull(slots, src) && IsFull(slots, dst)
    requires src != head ==> IsFull(slots, slots[src].prev)
    requires src != tail ==> IsFull(slots, slots[src].next)
    ensures SameData(slots, r)
  {
    var s1 := SetNext(SetPrev(slots, dst, slots[src].prev), dst, slots[src].next);
    var s2 := if src == head then s1 else SetNext(s1, s1[src].prev, dst);
    if src == tail then s2 else SetPrev(s2, s2[src].next, dst)
  }

  lemma ReplaceOk(slots: seq<Slot>, head: int, tail: int, order: seq<int>, k: nat, dst: int)
    requires ListOk(slots, head, tail, order) && k < |order| && IsFull(slots, dst) && dst !in order
    ensures var src := order[k];
      && IsFull(slots, src)
      && (src == head <==> k == 0) && (src == tail <==> k == |order| - 1)
      && (src != head ==> IsFull(slots, slots[src].prev)) && (src != tail ==> IsFull(slots, slots[src].next))
      && ListOk(Replace(slots, head, tail, src, dst), if src == head then dst else head,
                if src == tail then dst else tail, order[k := dst])
  {
    var src := order[k];
    assert NodeOk(slots, order, k);
    assert NodeOk(slots, order, 0) && NodeOk(slots, order, |order| - 1);
    if k > 0 {
      assert NodeOk(slots, order, k - 1);
    }
    if k + 1 < |order| {
      assert NodeOk(slots, order, k + 1);
    }
    var slots', order' := Replace(slots, head, tail, src, dst), order[k := dst];
    forall i | 0 <= i < |order'| ensures NodeOk(slots', order', i) {
      ReplaceNode(slots, head, tail, order, k, dst, i);
    }
  }

  lemma ReplaceNode(slots: seq<Slot>, head: int, tail: int, order: seq<int>, k: nat, dst: int, i: nat)
    requires ListOk(slots, head, tail, order) && k < |order| && IsFull(slots, dst) && dst !in order && i < |order|
    requires var src := order[k];
      && IsFull(slots, src) && (src == head <==> k == 0) && (src == tail <==> k == |order| - 1)
      && (src != head ==> IsFull(slots, slots[src].prev)) && (src != tail ==> IsFull(slots, slots[src].next))
    ensures NodeOk(Replace(slots, head, tail, order[k], dst), order[k := dst], i)
  {
    assert NodeOk(slots, order, k) && NodeOk(slots, order, i);
    assert order[i] in order && order[k] in order;
  }

  /** A change of a slot outside the list does not disturb the list. */
  lemma OutsideList(slots: seq<Slot>, head: int, tail: int, order: seq<int>, s: int, x: Slot)
    requires ListOk(slots, head, tail, order) && 0 <= s < |slots| && s !in order
    ensures ListOk(slots[s := x], head, tail, order)
  {
    var slots' := slots[s := x];
    forall i | 0 <= i < |order| ensures NodeOk(slots', order, i) {
      assert NodeOk(slots, order, i) && order[i] in order;
    }
  }

  /** A change that keeps a node's links does not disturb the list either. */
  lemma InsideList(slots: seq<Slot>, head: int, tail: int, order: seq<int>, s: int, x: Slot)
    requires ListOk(slots, head, tail, order) && IsFull(slots, s) && x.Full?
    requires x.prev == slots[s].prev && x.next == slots[s].next
    ensures ListOk(slots[s := x], head, tail, order)
  {
    var slots' := slots[s := x];
    forall i | 0 <= i < |order| ensures NodeOk(slots', order, i) {
      assert NodeOk(slots, order, i);
    }
  }

  /** The entries in list order. */
  ghost function Items(slots: seq<Slot>, order: seq<int>): seq<(Key, Value)>
    requires forall i :: 0 <= i < |order| ==> IsFull(slots, order[i])
  {
    seq(|order|, i requires 0 <= i < |order| => assert IsFull(slots, order[i]);
        (slots[order[i]].key, slots[order[i]].value))
  }

  lemma ListIsFull(slots: seq<Slot>, head: int, tail: int, order: seq<int>)
    requires ListOk(slots, head, tail, order)
    ensures forall i :: 0 <= i < |order| ==> IsFull(slots, order[i])
  {
    forall i | 0 <= i < |order| ensures IsFull(slots, order[i]) {
      assert NodeOk(slots, order, i);
    }
  }

  /** The list covers exactly the occupied slots. */
  ghost predicate Covers(slots: seq<Slot>, order: seq<int>)
  {
    forall s :: IsFull(slots, s) <==> s in order
  }

  // ----- Moving an entry to another slot -----

  /** The steps of moving `r` to the empty slot `e`: copy the data, hand over the list position, vacate. */
  function MoveEntry(slots: seq<Slot>, head: int, tail: int, r: int, e: int, vacated: Slot): seq<Slot>
    requires IsFull(slots, r) && 0 <= e < |slots| && slots[e].Empty?
    requires r != head ==> IsFull(slots, slots[r].prev)
    requires r != tail ==> IsFull(slots, slots[r].next)
  {
    var copied := slots[e := Full(false, 0, slots[r].key, slots[r].value, -1, -1)];
    Replace(copied, head, tail, r, e)[r := vacated]
  }

  lemma MoveEntryList(slots: seq<Slot>, head: int, tail: int, order: seq<int>, k: nat, e: int, vacated: Slot)
    requires ListOk(slots, head, tail, order) && k < |order|
    requires 0 <= e < |slots| && slots[e].Empty? && e !in order && !vacated.Full?
    ensures var r := order[k];
      && IsFull(slots, r) && (r != head ==> IsFull(slots, slots[r].prev))
          && (r != tail ==> IsFull(slots, slots[r].next))
      && ListOk(MoveEntry(slots, head, tail, r, e, vacated), if r == head then e else head,
                if r == tail then e else tail, order[k := e])
  {
    var r := order[k];
    RemoveOk(slots, head, tail, order, k);
    var copied := slots[e := Full(false, 0, slots[r].key, slots[r].value, -1, -1)];
    OutsideList(slots, head, tail, order, e, copied[e]);
    ReplaceOk(copied, head, tail, order, k, e);
    NotReplaced(order, k, e);
    OutsideList(Replace(copied, head, tail, r, e), if r == head then e else head, if r == tail then e else tail,
                order[k := e], r, vacated);
  }

  lemma MoveEntryCovers(slots: seq<Slot>, replaced: seq<Slot>, order: seq<int>, k: nat, e: int, vacated: Slot)
    requires Covers(slots, order) && Distinct(order) && k < |order| && IsFull(slots, order[k])
    requires 0 <= e < |slots| && slots[e].Empty? && !vacated.Full?
    requires SameData(slots[e := slots[order[k]].(isHead := false, off := 0)], replaced)
    ensures Covers(replaced[order[k] := vacated], order[k := e])
    ensures SameData(slots[e := slots[order[k]].(isHead := false, off := 0)][order[k] := vacated],
            replaced[order[k] := vacated])
  {
    var copied := slots[e := slots[order[k]].(isHead := false, off := 0)];
    assert forall s :: 0 <= s < |slots| ==> SameSlot(copied[s], replaced[s]);
    var after, order' := replaced[order[k] := vacated], order[k := e];
    forall s ensures IsFull(after, s) <==> s in order' {
      MembersAfterReplace(order, k, e, s);
    }
  }

  lemma MoveEntryOk(slots: seq<Slot>, head: int, tail: int, order: seq<int>, k: nat, e: int, vacated: Slot)
    requires ListOk(slots, head, tail, order) && Covers(slots, order) && k < |order|
    requires 0 <= e < |slots| && slots[e].Empty? && !vacated.Full?
    ensures var r := order[k];
      && IsFull(slots, r) && (r != head ==> IsFull(slots, slots[r].prev))
          && (r != tail ==> IsFull(slots, slots[r].next))
      && var slots' := MoveEntry(slots, head, tail, r, e, vacated);
         && ListOk(slots', if r == head then e else head, if r == tail then e else tail, order[k := e])
         && Covers(slots', order[k := e])
         && SameData(slots[e := slots[r].(isHead := false, off := 0)][r := vacated], slots')
  {
    var r := order[k];
    assert !IsFull(slots, e) && e !in order;
    MoveEntryList(slots, head, tail, order, k, e, vacated);
    var replaced := Replace(slots[e := Full(false, 0, slots[r].key, slots[r].value, -1, -1)], head, tail, r, e);
    ReplacedData(slots, head, tail, r, e);
    MoveEntryCovers(slots, replaced, order, k, e, vacated);
  }

  lemma ReplacedData(slots: seq<Slot>, head: int, tail: int, r: int, e: int)
    requires IsFull(slots, r) && 0 <= e < |slots| && slots[e].Empty?
    requires r != head ==> IsFull(slots, slots[r].prev)
    requires r != tail ==> IsFull(slots, slots[r].next)
    ensures SameData(slots[e := slots[r].(isHead := false, off := 0)],
                     Replace(slots[e := Full(false, 0, slots[r].key, slots[r].value, -1, -1)], head, tail, r, e))
  {
    var copied := slots[e := Full(false, 0, slots[r].key, slots[r].value, -1, -1)];
    var replaced := Replace(copied, head, tail, r, e);
    assert forall s :: 0 <= s < |slots| ==> SameSlot(copied[s], replaced[s]);
  }

  lemma NotReplaced(order: seq<int>, k: nat, e: int)
    requires Distinct(order) && k < |order| && e !in order
    ensures order[k] !in order[k := e]
  {
  }

  lemma MembersAfterReplace(order: seq<int>, k: nat, e: int, s: int)
    requires Distinct(order) && k < |order| && e !in order
    ensures s in order[k := e] <==> s == e || (s in order && s != order[k])
  {
    if s in order && s != order[k] {
      var i :| 0 <= i < |order| && order[i] == s;
      assert order[k := e][i] == s;
    }
    assert order[k := e][k] == e;
  }

  /** Slot `s` of `a` and slot `t` of `b` hold the same key and value. */
  predicate SameItem(a: seq<Slot>, s: int, b: seq<Slot>, t: int)
  {
    IsFull(a, s) && IsFull(b, t) && a[s].key == b[t].key && a[s].value == b[t].value
  }

  /** Lists that hold the same entries position by position have the same items. */
  lemma SameItems(a: seq<Slot>, order: seq<int>, b: seq<Slot>, order': seq<int>)
    requires |order| == |order'|
    requires forall i :: 0 <= i < |order| ==> SameItem(a, order[i], b, order'[i])
    ensures forall i :: 0 <= i < |order| ==> IsFull(a, order[i])
    ensures forall i :: 0 <= i < |order'| ==> IsFull(b, order'[i])
    ensures Items(a, order) == Items(b, order')
  {
    forall i | 0 <= i < |order| ensures IsFull(a, order[i]) && IsFull(b, order'[i]) {
      assert SameItem(a, order[i], b, order'[i]);
    }
    forall i | 0 <= i < |order| ensures Items(a, order)[i] == Items(b, order')[i] {
      assert SameItem(a, order[i], b, order'[i]);
    }
  }

  ghost predicate SameEntries(a: seq<Slot>, order: seq<int>, b: seq<Slot>, order': seq<int>)
  {
    && |order| == |order'|
    && (forall i :: 0 <= i < |order| ==> SameItem(a, order[i], b, order'[i]))
  }

  lemma SameEntriesTransitive(a: seq<Slot>, o: seq<int>, b: seq<Slot>, p: seq<int>, c: seq<Slot>, q: seq<int>)
    requires SameEntries(a, o, b, p) && SameEntries(b, p, c, q)
    ensures SameEntries(a, o, c, q)
  {
    forall i | 0 <= i < |o| ensures SameItem(a, o[i], c, q[i]) {
      assert SameItem(a, o[i], b, p[i]) && SameItem(b, p[i], c, q[i]);
    }
  }

  // ----- Adding an entry at the end -----

  lemma AppendOk(slots: seq<Slot>, head: int, tail: int, order: seq<int>, s: int, x: Slot)
    requires ListOk(slots, head, tail, order) && Covers(slots, order)
    requires 0 <= s < |slots| && !slots[s].Full? && x.Full?
    ensures var filled := slots[s := x];
      && (tail == -1 || IsFull(filled, tail)) && ((head == -1 && tail == -1) <==> order == [])
      && var after := PushBack(filled, tail, s);
         && ListOk(after, if order == [] then s else head, s, order + [s])
         && Covers(after, order + [s]) && SameData(filled, after)
         && Appended(slots, order, after, order + [s], x.key, x.value)
  {
    assert !IsFull(slots, s) && s !in order;
    var filled := slots[s := x];
    OutsideList(slots, head, tail, order, s, x);
    PushBackOk(filled, head, tail, order, s);
    var after, order' := PushBack(filled, tail, s), order + [s];
    assert forall t :: 0 <= t < |slots| ==> SameSlot(filled[t], after[t]);
    forall i | 0 <= i < |order| ensures SameItem(slots, order[i], after, order'[i]) {
      assert order[i] in order;
    }
  }

  /** `b` holds the entries of `a` and then one more. */
  ghost predicate Appended(a: seq<Slot>, order: seq<int>, b: seq<Slot>, order': seq<int>, k: Key, v: Value)
  {
    && |order'| == |order| + 1
    && (forall i :: 0 <= i < |order| ==> SameItem(a, order[i], b, order'[i]))
    && IsFull(b, order'[|order|]) && b[order'[|order|]].key == k && b[order'[|order|]].value == v
  }

  // ----- Moving an entry to the end with a new value -----

  lemma UpdateOk(slots: seq<Slot>, head: int, tail: int, order: seq<int>, k: nat, v: Value)
    requires ListOk(slots, head, tail, order) && Covers(slots, order) && k < |order|
    ensures var s := order[k];
      && IsFull(slots, s)
      && var written := slots[s := slots[s].(value := v)];
         && (s != head ==> IsFull(written, written[s].prev)) && (s != tail ==> IsFull(written, written[s].next))
         && var removed := Remove(written, head, tail, s);
            var head1 := if s == head then written[s].next else head;
            var tail1 := if s == tail then written[s].prev else tail;
            && (tail1 == -1 || IsFull(removed, tail1)) && ((head1 == -1 && tail1 == -1) <==> |order| == 1)
            && var after := PushBack(removed, tail1, s);
               && ListOk(after, if |order| == 1 then s else head1, s, Without(order, k) + [s])
               && Covers(after, Without(order, k) + [s]) && SameData(written, after)
  {
    var s := order[k];
    assert NodeOk(slots, order, k);
    var written := slots[s := slots[s].(value := v)];
    InsideList(slots, head, tail, order, s, written[s]);
    RemoveOk(written, head, tail, order, k);
    var removed := Remove(written, head, tail, s);
    var head1 := if s == head then written[s].next else head;
    var tail1 := if s == tail then written[s].prev else tail;
    assert SameSlot(written[s], removed[s]);
    PushBackOk(removed, head1, tail1, Without(order, k), s);
    var after := PushBack(removed, tail1, s);
    assert forall t :: 0 <= t < |slots| ==> SameSlot(written[t], removed[t]) && SameSlot(removed[t], after[t]);
    forall t ensures IsFull(after, t) <==> t in Without(order, k) + [s] {
      MembersWithout(order, k, t);
      assert IsFull(slots, t) <==> t in order;
    }
  }

  lemma MembersWithout(order: seq<int>, k: nat, t: int)
    requires Distinct(order) && k < |order|
    ensures t in Without(order, k) <==> t in order && t != order[k]
  {
    if t in order && t != order[k] {
      var i :| 0 <= i < |order| && order[i] == t;
      assert Without(order, k)[if i < k then i else i - 1] == t;
    }
  }

  lemma AppendedItems(a: seq<Slot>, order: seq<int>, b: seq<Slot>, order': seq<int>, k: Key, v: Value)
    requires Appended(a, order, b, order', k, v)
    ensures forall i :: 0 <= i < |order| ==> IsFull(a, order[i])
    ensures forall i :: 0 <= i < |order'| ==> IsFull(b, order'[i])
    ensures Items(b, order') == Items(a, order) + [(k, v)]
  {
    forall i | 0 <= i < |order| ensures IsFull(a, order[i]) && IsFull(b, order'[i]) {
      assert SameItem(a, order[i], b, order'[i]);
    }
    forall i | 0 <= i < |order'| ensures Items(b, order')[i] == (Items(a, order) + [(k, v)])[i] {
      if i < |order| {
        assert SameItem(a, order[i], b, order'[i]);
      }
    }
  }

  lemma AppendedAfterSame(a: seq<Slot>, o: seq<int>, b: seq<Slot>, p: seq<int>, c: seq<Slot>, q: seq<int>, k: Key,
                          v: Value)
    requires SameEntries(a, o, b, p) && Appended(b, p, c, q, k, v)
    ensures Appended(a, o, c, q, k, v)
  {
    forall i | 0 <= i < |o| ensures SameItem(a, o[i], c, q[i]) {
      assert SameItem(a, o[i], b, p[i]) && SameItem(b, p[i], c, q[i]);
    }
  }

  /** The items after an entry's value is replaced and it moves to the end. */
  lemma UpdatedItems(a: seq<Slot>, order: seq<int>, b: seq<Slot>, order': seq<int>, k: nat, v: Value)
    requires k < |order| && Distinct(order) && order' == Without(order, k) + [order[k]]
    requires IsFull(a, order[k]) && forall i :: 0 <= i < |order| ==> IsFull(a, order[i])
    requires SameData(a[order[k] := a[order[k]].(value := v)], b)
    ensures forall i :: 0 <= i < |order'| ==> IsFull(b, order'[i])
    ensures Items(b, order') == Items(a, order)[..k] + Items(a, order)[k + 1..] + [(a[order[k]].key, v)]
  {
    var w := a[order[k] := a[order[k]].(value := v)];
    forall i | 0 <= i < |order'| ensures IsFull(b, order'[i]) && SameSlot(w[order'[i]], b[order'[i]]) {
      assert order'[i] == order[if i < k then i else if i < |order| - 1 then i + 1 else k];
    }
    var items := Items(a, order)[..k] + Items(a, order)[k + 1..] + [(a[order[k]].key, v)];
    forall i | 0 <= i < |order'| ensures Items(b, order')[i] == items[i] {
      assert SameSlot(w[order'[i]], b[order'[i]]);
    }
  }

  // ----- Erasing -----

  /** `b` holds the entries of `a` except the one at position `k`. */
  ghost predicate Dropped(a: seq<Slot>, order: seq<int>, b: seq<Slot>, order': seq<int>, k: nat)
  {
    && k < |order| && |order'| == |order| - 1
    && (forall i :: 0 <= i < |order'| ==> SameItem(a, order[if i < k then i else i + 1], b, order'[i]))
  }

  lemma DroppedItems(a: seq<Slot>, order: seq<int>, b: seq<Slot>, order': seq<int>, k: nat)
    requires Dropped(a, order, b, order', k) && forall i :: 0 <= i < |order| ==> IsFull(a, order[i])
    ensures forall i :: 0 <= i < |order'| ==> IsFull(b, order'[i])
    ensures Items(b, order') == Items(a, order)[..k] + Items(a, order)[k + 1..]
  {
    forall i | 0 <= i < |order'| ensures IsFull(b, order'[i]) {
      assert SameItem(a, order[if i < k then i else i + 1], b, order'[i]);
    }
    var items := Items(a, order)[..k] + Items(a, order)[k + 1..];
    forall i | 0 <= i < |order'| ensures Items(b, order')[i] == items[i] {
      assert SameItem(a, order[if i < k then i else i + 1], b, order'[i]);
    }
  }

  lemma UnlinkCovers(slots: seq<Slot>, removed: seq<Slot>, order: seq<int>, k: nat)
    requires SameData(slots, removed) && Covers(slots, order) && Distinct(order) && k < |order|
             && IsFull(slots, order[k])
    ensures Covers(removed[order[k] := Empty], Without(order, k))
    ensures SameData(slots[order[k] := Empty], removed[order[k] := Empty])
  {
    var s, order' := order[k], Without(order, k);
    var after := removed[s := Empty];
    forall t | 0 <= t < |slots| ensures SameSlot(slots[s := Empty][t], after[t]) {
      assert SameSlot(slots[t], removed[t]);
    }
    forall t ensures IsFull(after, t) <==> t in order' {
      MembersWithout(order, k, t);
      assert 0 <= t < |slots| ==> SameSlot(slots[t], removed[t]);
    }
  }

  lemma UnlinkDrops(slots: seq<Slot>, removed: seq<Slot>, order: seq<int>, k: nat)
    requires SameData(slots, removed) && Covers(slots, order) && Distinct(order) && k < |order|
             && IsFull(slots, order[k])
    ensures Dropped(slots, order, removed[order[k] := Empty], Without(order, k), k)
  {
    var after, order' := removed[order[k] := Empty], Without(order, k);
    forall i | 0 <= i < |order'| ensures SameItem(slots, order[if i < k then i else i + 1], after, order'[i]) {
      var j := if i < k then i else i + 1;
      assert order[j] in order && order'[i] == order[j] != order[k];
      assert SameSlot(slots[order[j]], removed[order[j]]);
    }
  }

  /** Unlinking an entry and emptying its slot. */
  lemma UnlinkOk(slots: seq<Slot>, head: int, tail: int, order: seq<int>, k: nat)
    requires ListOk(slots, head, tail, order) && Covers(slots, order) && k < |order|
    ensures var s := order[k];
      && IsFull(slots, s) && (s != head ==> IsFull(slots, slots[s].prev))
          && (s != tail ==> IsFull(slots, slots[s].next))
      && var after := Remove(slots, head, tail, s)[s := Empty];
         && ListOk(after, if s == head then slots[s].next else head, if s == tail then slots[s].prev else tail,
                   Without(order, k))
         && Covers(after, Without(order, k)) && SameData(slots[s := Empty], after)
         && Dropped(slots, order, after, Without(order, k), k)
  {
    RemoveOk(slots, head, tail, order, k);
    var s := order[k];
    var removed, order' := Remove(slots, head, tail, s), Without(order, k);
    UnlinkCovers(slots, removed, order, k);
    UnlinkDrops(slots, removed, order, k);
    OutsideList(removed, if s == head then slots[s].next else head, if s == tail then slots[s].prev else tail,
                order', s, Empty);
  }

  /** Members of the order after an overwrite: all but `last`. */
  lemma MembersAfterOverwrite(order: seq<int>, kc: nat, kl: nat, t: int)
    requires Distinct(order) && kc < |order| && kl < |order| && kc != kl
    ensures var at := if kl < kc then kl else kl - 1;
      t in Without(order, kc)[at := order[kc]] <==> t in order && t != order[kl]
  {
    var at := if kl < kc then kl else kl - 1;
    var order1 := Without(order, kc);
    assert order1[at] == order[kl];
    MembersWithout(order, kc, t);
    MembersWithout(order, kc, order[kc]);
    WithoutDistinct(order, kc);
    MembersAfterReplace(order1, at, order[kc], t);
  }

  lemma WithoutDistinct(order: seq<int>, k: nat)
    requires Distinct(order) && k < |order|
    ensures Distinct(Without(order, k))
  {
  }

  /** Items after an overwrite: the entry at `kc` is gone, that of `last` now sits in its slot. */
  lemma OverwrittenSlots(a: seq<Slot>, b: seq<Slot>, cur: int, prev: int, last: int)
    requires IsFull(a, cur) && IsFull(a, last) && IsFull(a, prev) && cur != last && prev != last
    requires var moved := a[cur := a[cur].(key := a[last].key, value := a[last].value)];
      SameData(moved[last := Empty][prev := moved[prev].(off := 0)], b)
    ensures forall t :: IsFull(a, t) && t != cur && t != last ==> SameItem(a, t, b, t)
    ensures SameItem(a, last, b, cur)
  {
    var moved := a[cur := a[cur].(key := a[last].key, value := a[last].value)];
    var before := moved[last := Empty][prev := moved[prev].(off := 0)];
    assert forall t :: 0 <= t < |a| ==> SameSlot(before[t], b[t]);
  }

  lemma OverwrittenItems(a: seq<Slot>, order: seq<int>, b: seq<Slot>, order': seq<int>, kc: nat, kl: nat)
    requires Distinct(order) && Covers(a, order) && kc < |order| && kl < |order| && kc != kl && |a| == |b|
    requires order' == Without(order, kc)[if kl < kc then kl else kl - 1 := order[kc]]
    requires forall t :: IsFull(a, t) && t != order[kc] && t != order[kl] ==> SameItem(a, t, b, t)
    requires SameItem(a, order[kl], b, order[kc])
    ensures Dropped(a, order, b, order', kc)
  {
    forall i | 0 <= i < |order'| ensures SameItem(a, order[if i < kc then i else i + 1], b, order'[i]) {
      var j := if i < kc then i else i + 1;
      assert order[j] in order && IsFull(a, order[j]);
    }
  }
}
