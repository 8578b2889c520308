/** Where the objects of one size class are: in span bitmaps, in the transfer cache, in thread caches, in
    batches between locks, or with callers. Every locked region of the central cache is one step, or several
    when it handles several objects; any number of threads interleave, each in any order of its steps. */
module ObjectFlow {
  import SpanBitmap

  const MAX_BATCH: nat := 512

  datatype Obj = Obj(span: nat, index: nat)

  /** The bitmap view of a span: the indices of its free objects. */
  datatype SpanState = SpanState(free: set<nat>, capacity: nat, useCount: nat)

  datatype Thread = Thread(
    cache: seq<Obj>,      // the thread's free list, head first
    batch: seq<Obj>,      // objects fetched for the thread, not yet delivered
    prefetch: seq<Obj>,   // objects fetched for the transfer cache, not yet published
    returning: seq<Obj>,  // objects on their way back to the central cache
    user: seq<Obj>,       // objects in the hands of the caller
    releasing: seq<nat>)  // empty spans on their way to the page cache
  {
    /** How often the thread holds `o`. */
    ghost function Count(o: Obj): nat {
      multiset(cache)[o] + multiset(batch)[o] + multiset(prefetch)[o] + multiset(returning)[o] + multiset(user)[o]
    }
  }

  datatype State = State(
    spans: map<nat, SpanState>,
    list: seq<nat>,        // the bucket's span list
    transfer: seq<Obj>,    // the transfer cache
    limit: nat,            // and its capacity
    threads: seq<Thread>)

  datatype Step =
    | Grab(num: nat)                        // pop up to `num` objects from the transfer cache
    | Extract(index: nat, prefetch: bool)   // allocate an object from the first span
    | Rotate                                // the first span is full: move it to the back
    | AddSpan(id: nat, capacity: nat)       // a fresh span from the page cache
    | Publish                               // prefetched objects fill the transfer cache; the rest goes back
    | Deliver                               // the batch joins the thread cache
    | Malloc                                // the caller takes an object from the thread cache
    | Free(i: nat)                          // the caller returns its object `i`
    | Handoff(i: nat, to: nat)              // the caller passes its object `i` to another thread
    | Trim(num: nat)                        // up to `num` objects leave the thread cache
    | ReturnToTransfer                      // returning objects fill the transfer cache
    | ReturnToSpan                          // a returning object goes back to its bitmap
    | ReleaseSpan                           // an empty span goes to the page cache

  function Reverse(s: seq<Obj>): seq<Obj>
  {
    if s == [] then [] else Reverse(s[1..]) + [s[0]]
  }

  lemma {:induction false} ReverseKeepsElements(s: seq<Obj>)
    ensures multiset(Reverse(s)) == multiset(s)
    decreases |s|
  {
    if s != [] {
      ReverseKeepsElements(s[1..]);
      assert s == [s[0]] + s[1..];
    }
  }

  function Min(a: nat, b: nat): nat { if a < b then a else b }

  function Room(s: State): nat { if |s.transfer| < s.limit then s.limit - |s.transfer| else 0 }

  function RemoveAt<T>(s: seq<T>, i: nat): seq<T>
    requires i < |s|
  {
    s[..i] + s[i + 1..]
  }

  function EraseId(s: seq<nat>, x: nat): seq<nat>
  {
    if s == [] then [] else if s[0] == x then s[1..] else [s[0]] + EraseId(s[1..], x)
  }

  ghost predicate Enabled(s: State, t: nat, a: Step)
  {
    && t < |s.threads|
    && var th := s.threads[t];
      match a
      case Extract(index, _) =>
        && s.list != [] && s.list[0] in s.spans && index in s.spans[s.list[0]].free
        && forall k :: k in s.spans[s.list[0]].free ==> index <= k
      case Rotate => s.list != [] && s.list[0] in s.spans && s.spans[s.list[0]].free == {}
      case AddSpan(id, _) => id !in s.spans
      case Malloc => th.cache != []
      case Free(i) => i < |th.user|
      case Handoff(i, to) => i < |th.user| && to < |s.threads|
      case ReturnToSpan => th.returning != [] && th.returning[0].span in s.spans
      case ReleaseSpan => th.releasing != [] && th.releasing[0] in s.spans
      case _ => true
  }

  function Put(s: State, t: nat, th: Thread): State
    requires t < |s.threads|
  {
    s.(threads := s.threads[t := th])
  }

  function Apply(s: State, t: nat, a: Step): State
    requires Enabled(s, t, a)
  {
    var th := s.threads[t];
    match a
    case Grab(num) =>
      var k := |s.transfer| - Min(num, |s.transfer|);
      Put(s.(transfer := s.transfer[..k]), t, th.(batch := Reverse(s.transfer[k..]) + th.batch))
    case Extract(index, forPrefetch) =>
      var id := s.list[0];
      var sp := s.spans[id];
      var o := Obj(id, index);
      Put(s.(spans := s.spans[id := sp.(free := sp.free - {index}, useCount := sp.useCount + 1)]), t,
          if forPrefetch then th.(prefetch := th.prefetch + [o]) else th.(batch := [o] + th.batch))
    case Rotate => s.(list := s.list[1..] + [s.list[0]])
    case AddSpan(id, capacity) =>
      s.(spans := s.spans[id := SpanState(SpanBitmap.Below(capacity), capacity, 0)], list := [id] + s.list)
    case Publish =>
      var k := Min(|th.prefetch|, Room(s));
      Put(s.(transfer := s.transfer + th.prefetch[..k]), t,
          th.(prefetch := [], returning := Reverse(th.prefetch[k..]) + th.returning))
    case Deliver => Put(s, t, th.(cache := th.batch + th.cache, batch := []))
    case Malloc => Put(s, t, th.(cache := th.cache[1..], user := th.user + [th.cache[0]]))
    case Free(i) => Put(s, t, th.(user := RemoveAt(th.user, i), cache := [th.user[i]] + th.cache))
    case Handoff(i, to) =>
      var o := th.user[i];
      var s1 := Put(s, t, th.(user := RemoveAt(th.user, i)));
      Put(s1, to, s1.threads[to].(user := s1.threads[to].user + [o]))
    case Trim(num) =>
      var k := Min(num, |th.cache|);
      Put(s, t, th.(cache := th.cache[k..], returning := Reverse(th.cache[..k]) + th.returning))
    case ReturnToTransfer =>
      var k := Min(Min(|th.returning|, MAX_BATCH), Room(s));
      Put(s.(transfer := s.transfer + th.returning[..k]), t, th.(returning := th.returning[k..]))
    case ReturnToSpan =>
      var o := th.returning[0];
      var sp := s.spans[o.span];
      var sp' := sp.(free := sp.free + {o.index}, useCount := if sp.useCount > 0 then sp.useCount - 1 else 0);
      var front := if sp'.useCount + 1 == sp.capacity then [o.span] + EraseId(s.list, o.span) else s.list;
      var empty := sp'.useCount == 0;
      Put(s.(spans := s.spans[o.span := sp'], list := if empty then EraseId(front, o.span) else front), t,
          th.(returning := th.returning[1..], releasing := th.releasing + if empty then [o.span] else []))
    case ReleaseSpan =>
      Put(s.(spans := s.spans - {th.releasing[0]}), t, th.(releasing := th.releasing[1..]))
  }

  // ----- The invariant -----

  /** How often the threads hold `o`. */
  ghost function Held(threads: seq<Thread>, o: Obj): nat
  {
    if threads == [] then 0 else threads[0].Count(o) + Held(threads[1..], o)
  }

  /** How often `o` is found outside the bitmaps. */
  ghost function Outside(s: State, o: Obj): nat
  {
    multiset(s.transfer)[o] + Held(s.threads, o)
  }

  /** The object exists and its bitmap bit is clear. */
  ghost predicate IsOut(s: State, o: Obj)
  {
    o.span in s.spans && o.index < s.spans[o.span].capacity && o.index !in s.spans[o.span].free
  }

  ghost predicate SpanOk(sp: SpanState)
  {
    (forall i :: i in sp.free ==> i < sp.capacity) && sp.useCount + |sp.free| == sp.capacity
  }

  ghost function Releasing(threads: seq<Thread>, id: nat): nat
  {
    if threads == [] then 0 else multiset(threads[0].releasing)[id] + Releasing(threads[1..], id)
  }

  /** How often a span is in the bucket's list or on its way out. */
  ghost function SpanPlaces(s: State, id: nat): nat
  {
    multiset(s.list)[id] + Releasing(s.threads, id)
  }

  /** An object is once outside the bitmaps when its bit is clear, and nowhere outside otherwise. */
  ghost predicate ObjectOk(s: State, o: Obj)
  {
    Outside(s, o) == if IsOut(s, o) then 1 else 0
  }

  /** A live span is in one place, and empty when it is on its way out. */
  ghost predicate PlaceOk(s: State, id: nat)
  {
    && SpanPlaces(s, id) == (if id in s.spans then 1 else 0)
    && (Releasing(s.threads, id) > 0 && id in s.spans ==> s.spans[id].useCount == 0)
  }

  ghost predicate Inv(s: State)
  {
    && (forall id :: id in s.spans ==> SpanOk(s.spans[id]))
    && (forall o :: ObjectOk(s, o))
    && (forall id :: PlaceOk(s, id))
    && |s.transfer| <= s.limit
  }

  // ----- Sums over threads -----

  lemma {:induction false} HeldUpdate(threads: seq<Thread>, t: nat, th: Thread, o: Obj)
    requires t < |threads|
    ensures Held(threads[t := th], o) + threads[t].Count(o) == Held(threads, o) + th.Count(o)
  {
    var u := threads[t := th];
    if t == 0 {
      assert u[1..] == threads[1..];
    } else {
      assert u[1..] == threads[1..][t - 1 := th];
      HeldUpdate(threads[1..], t - 1, th, o);
    }
  }

  lemma {:induction false} ReleasingUpdate(threads: seq<Thread>, t: nat, th: Thread, id: nat)
    requires t < |threads|
    ensures Releasing(threads[t := th], id) + multiset(threads[t].releasing)[id]
         == Releasing(threads, id) + multiset(th.releasing)[id]
  {
    var u := threads[t := th];
    if t == 0 {
      assert u[1..] == threads[1..];
    } else {
      assert u[1..] == threads[1..][t - 1 := th];
      ReleasingUpdate(threads[1..], t - 1, th, id);
    }
  }

  lemma {:induction false} HeldIncludes(threads: seq<Thread>, t: nat, o: Obj, id: nat)
    requires t < |threads|
    ensures threads[t].Count(o) <= Held(threads, o)
    ensures multiset(threads[t].releasing)[id] <= Releasing(threads, id)
  {
    if t > 0 {
      HeldIncludes(threads[1..], t - 1, o, id);
    }
  }

  lemma SplitSeq<T>(s: seq<T>, k: nat)
    requires k <= |s|
    ensures multiset(s) == multiset(s[..k]) + multiset(s[k..])
  {
    assert s == s[..k] + s[k..];
  }

  lemma RemoveOne<T>(s: seq<T>, i: nat)
    requires i < |s|
    ensures multiset(s) == multiset(RemoveAt(s, i)) + multiset{s[i]}
  {
    assert s == s[..i] + [s[i]] + s[i + 1..];
  }

  lemma {:induction false} EraseOne(s: seq<nat>, x: nat)
    ensures x in s ==> multiset(s) == multiset(EraseId(s, x)) + multiset{x}
    ensures x !in s ==> EraseId(s, x) == s
  {
    if s != [] {
      assert s == [s[0]] + s[1..];
      EraseOne(s[1..], x);
    }
  }

  // ----- Steps that only move objects outside the bitmaps -----

  ghost predicate Moves(a: Step)
  {
    a.Grab? || a.Publish? || a.Deliver? || a.Malloc? || a.Free? || a.Handoff? || a.Trim? || a.ReturnToTransfer?
  }

  lemma MoveKeepsSpans(s: State, t: nat, a: Step, id: nat)
    requires Enabled(s, t, a) && Moves(a)
    ensures var s' := Apply(s, t, a);
      s'.spans == s.spans && s'.list == s.list && Releasing(s'.threads, id) == Releasing(s.threads, id)
  {
    var s' := Apply(s, t, a);
    if a.Handoff? {
      var s1 := Put(s, t, s.threads[t].(user := RemoveAt(s.threads[t].user, a.i)));
      ReleasingUpdate(s.threads, t, s1.threads[t], id);
      ReleasingUpdate(s1.threads, a.to, s'.threads[a.to], id);
    } else {
      ReleasingUpdate(s.threads, t, s'.threads[t], id);
    }
  }

  /** A step of one thread conserves `o` when the thread and the transfer cache together do. */
  lemma ExchangeConserves(s: State, t: nat, s': State, th: Thread, o: Obj)
    requires t < |s.threads| && s'.threads == s.threads[t := th]
    requires multiset(s'.transfer)[o] + th.Count(o) == multiset(s.transfer)[o] + s.threads[t].Count(o)
    ensures Outside(s', o) == Outside(s, o)
  {
    HeldUpdate(s.threads, t, th, o);
  }

  lemma GrabConserves(s: State, t: nat, num: nat, o: Obj)
    requires Enabled(s, t, Grab(num))
    ensures Outside(Apply(s, t, Grab(num)), o) == Outside(s, o)
  {
    var s' := Apply(s, t, Grab(num));
    var k := |s.transfer| - Min(num, |s.transfer|);
    var th := s.threads[t].(batch := Reverse(s.transfer[k..]) + s.threads[t].batch);
    assert s'.threads == s.threads[t := th] && s'.transfer == s.transfer[..k];
    SplitSeq(s.transfer, k);
    BatchGrows(s.threads[t], s.transfer[k..], o);
    ExchangeConserves(s, t, s', th, o);
  }

  lemma BatchGrows(th: Thread, added: seq<Obj>, o: Obj)
    ensures th.(batch := Reverse(added) + th.batch).Count(o) == th.Count(o) + multiset(added)[o]
  {
    var batch := Reverse(added) + th.batch;
    ReverseKeepsElements(added);
    assert multiset(batch) == multiset(added) + multiset(th.batch);
  }

  lemma PublishConserves(s: State, t: nat, o: Obj)
    requires Enabled(s, t, Publish)
    ensures Outside(Apply(s, t, Publish), o) == Outside(s, o)
  {
    var s' := Apply(s, t, Publish);
    var prefetch := s.threads[t].prefetch;
    var k := Min(|prefetch|, Room(s));
    SplitSeq(prefetch, k);
    ReverseKeepsElements(prefetch[k..]);
    ExchangeConserves(s, t, s', s'.threads[t], o);
  }

  lemma ReturnToTransferConserves(s: State, t: nat, o: Obj)
    requires Enabled(s, t, ReturnToTransfer)
    ensures Outside(Apply(s, t, ReturnToTransfer), o) == Outside(s, o)
  {
    var s' := Apply(s, t, ReturnToTransfer);
    var returning := s.threads[t].returning;
    SplitSeq(returning, Min(Min(|returning|, MAX_BATCH), Room(s)));
    ExchangeConserves(s, t, s', s'.threads[t], o);
  }

  lemma CacheStepConserves(s: State, t: nat, a: Step, o: Obj)
    requires Enabled(s, t, a) && (a.Deliver? || a.Malloc? || a.Free? || a.Trim?)
    ensures Outside(Apply(s, t, a), o) == Outside(s, o)
  {
    var th := s.threads[t];
    var s' := Apply(s, t, a);
    match a {
      case Deliver =>
      case Malloc => assert th.cache == [th.cache[0]] + th.cache[1..];
      case Free(i) => RemoveOne(th.user, i);
      case Trim(num) =>
        SplitSeq(th.cache, Min(num, |th.cache|));
        ReverseKeepsElements(th.cache[..Min(num, |th.cache|)]);
    }
    ExchangeConserves(s, t, s', s'.threads[t], o);
  }

  lemma HandoffConserves(s: State, t: nat, i: nat, to: nat, o: Obj)
    requires Enabled(s, t, Handoff(i, to))
    ensures Outside(Apply(s, t, Handoff(i, to)), o) == Outside(s, o)
  {
    var th := s.threads[t];
    var s' := Apply(s, t, Handoff(i, to));
    RemoveOne(th.user, i);
    var s1 := Put(s, t, th.(user := RemoveAt(th.user, i)));
    HeldUpdate(s.threads, t, s1.threads[t], o);
    HeldUpdate(s1.threads, to, s'.threads[to], o);
  }

  lemma MoveConserves(s: State, t: nat, a: Step, o: Obj)
    requires Enabled(s, t, a) && Moves(a)
    ensures Outside(Apply(s, t, a), o) == Outside(s, o)
  {
    match a {
      case Handoff(i, to) => HandoffConserves(s, t, i, to, o);
      case Grab(num) => GrabConserves(s, t, num, o);
      case Publish => PublishConserves(s, t, o);
      case ReturnToTransfer => ReturnToTransferConserves(s, t, o);
      case _ => CacheStepConserves(s, t, a, o);
    }
  }

  /** The transfer cache never holds more than its array has room for. */
  lemma MoveKeepsRoom(s: State, t: nat, a: Step)
    requires |s.transfer| <= s.limit && Enabled(s, t, a) && Moves(a)
    ensures |Apply(s, t, a).transfer| <= Apply(s, t, a).limit == s.limit
  {
  }

  lemma MoveKeepsInv(s: State, t: nat, a: Step)
    requires Inv(s) && Enabled(s, t, a) && Moves(a)
    ensures Inv(Apply(s, t, a))
  {
    var s' := Apply(s, t, a);
    forall o ensures ObjectOk(s', o) {
      assert ObjectOk(s, o);
      MoveConserves(s, t, a, o);
      MoveKeepsSpans(s, t, a, 0);
    }
    forall id ensures PlaceOk(s', id) {
      assert PlaceOk(s, id);
      MoveKeepsSpans(s, t, a, id);
    }
    MoveKeepsSpans(s, t, a, 0);
    MoveKeepsRoom(s, t, a);
  }

  // ----- Steps on the bitmaps and the span list -----

  lemma ExtractKeepsInv(s: State, t: nat, index: nat, forPrefetch: bool)
    requires Inv(s) && Enabled(s, t, Extract(index, forPrefetch))
    ensures Inv(Apply(s, t, Extract(index, forPrefetch)))
  {
    var s' := Apply(s, t, Extract(index, forPrefetch));
    ExtractedKeepsInv(s, s', t, s.list[0], index);
  }

  /** A bit was cleared while thread `t` gained the object. */
  ghost predicate Extracted(s: State, s': State, t: nat, id: nat, index: nat)
  {
    && t < |s.threads| && id in s.list && id in s.spans && index in s.spans[id].free
    && s'.spans == s.spans[id := s.spans[id].(free := s.spans[id].free - {index}, useCount := s.spans[id].useCount + 1)]
    && s'.list == s.list && s'.transfer == s.transfer && s'.limit == s.limit
    && |s'.threads| == |s.threads| && s'.threads == s.threads[t := s'.threads[t]]
    && (forall p :: s'.threads[t].Count(p) == s.threads[t].Count(p) + if p == Obj(id, index) then 1 else 0)
    && s'.threads[t].releasing == s.threads[t].releasing
  }

  lemma ExtractedObjects(s: State, s': State, t: nat, id: nat, index: nat, p: Obj)
    requires Extracted(s, s', t, id, index) && SpanOk(s.spans[id]) && ObjectOk(s, p)
    ensures ObjectOk(s', p)
  {
    HeldUpdate(s.threads, t, s'.threads[t], p);
    assert IsOut(s', p) <==> IsOut(s, p) || p == Obj(id, index);
  }

  lemma ExtractedPlaces(s: State, s': State, t: nat, id: nat, index: nat, k: nat)
    requires Extracted(s, s', t, id, index) && PlaceOk(s, k)
    ensures PlaceOk(s', k)
  {
    ReleasingUpdate(s.threads, t, s'.threads[t], k);
    assert k == id ==> multiset(s.list)[k] > 0;
  }

  lemma ExtractedKeepsInv(s: State, s': State, t: nat, id: nat, index: nat)
    requires Inv(s) && Extracted(s, s', t, id, index)
    ensures Inv(s')
  {
    assert SpanOk(s.spans[id]);
    forall p ensures ObjectOk(s', p) {
      ExtractedObjects(s, s', t, id, index, p);
    }
    forall k ensures PlaceOk(s', k) {
      ExtractedPlaces(s, s', t, id, index, k);
    }
  }

  lemma RotateKeepsInv(s: State, t: nat)
    requires Inv(s) && Enabled(s, t, Rotate)
    ensures Inv(Apply(s, t, Rotate))
  {
    var s' := Apply(s, t, Rotate);
    assert s.list == [s.list[0]] + s.list[1..];
    forall id ensures PlaceOk(s', id) {
      assert PlaceOk(s, id);
    }
    forall o ensures ObjectOk(s', o) {
      assert ObjectOk(s, o);
    }
  }

  lemma AddSpanKeepsInv(s: State, t: nat, id: nat, capacity: nat)
    requires Inv(s) && Enabled(s, t, AddSpan(id, capacity))
    ensures Inv(Apply(s, t, AddSpan(id, capacity)))
  {
    var s' := Apply(s, t, AddSpan(id, capacity));
    assert PlaceOk(s, id);
    forall o ensures ObjectOk(s', o) {
      assert ObjectOk(s, o);
    }
    forall k ensures PlaceOk(s', k) {
      assert PlaceOk(s, k);
    }
  }

  /** A span being released has every bit set, so nobody holds one of its objects. */
  lemma ReleasedSpanIsUnused(s: State, id: nat, o: Obj)
    requires Inv(s) && id in s.spans && Releasing(s.threads, id) > 0 && o.span == id
    ensures Outside(s, o) == 0 && !IsOut(s, o)
  {
    var sp := s.spans[id];
    assert PlaceOk(s, id) && ObjectOk(s, o);
    assert SpanOk(sp) && sp.useCount == 0;
    assert sp.free <= SpanBitmap.Below(sp.capacity);
    FullSubset(sp.free, SpanBitmap.Below(sp.capacity));
    assert !IsOut(s, o);
  }

  lemma FullSubset(a: set<nat>, b: set<nat>)
    requires a <= b && |a| == |b|
    ensures a == b
  {
    assert b == a + (b - a);
  }

  lemma ReleaseKeepsInv(s: State, t: nat)
    requires Inv(s) && Enabled(s, t, ReleaseSpan)
    ensures Inv(Apply(s, t, ReleaseSpan))
  {
    var th := s.threads[t];
    var s' := Apply(s, t, ReleaseSpan);
    assert th.releasing == [th.releasing[0]] + th.releasing[1..];
    ReleasedKeepsInv(s, s', t, th.releasing[0]);
  }

  /** Span `id` is gone from the map and from thread `t`'s outgoing list. */
  ghost predicate Released(s: State, s': State, t: nat, id: nat)
  {
    && t < |s.threads| && id in s.spans
    && s'.spans == s.spans - {id} && s'.list == s.list && s'.transfer == s.transfer && s'.limit == s.limit
    && |s'.threads| == |s.threads| && s'.threads == s.threads[t := s'.threads[t]]
    && (forall p :: s'.threads[t].Count(p) == s.threads[t].Count(p))
    && multiset(s.threads[t].releasing) == multiset(s'.threads[t].releasing) + multiset{id}
  }

  lemma ReleasedObjects(s: State, s': State, t: nat, id: nat, o: Obj)
    requires Inv(s) && Released(s, s', t, id)
    ensures ObjectOk(s', o)
  {
    HeldUpdate(s.threads, t, s'.threads[t], o);
    assert ObjectOk(s, o);
    if o.span == id {
      HeldIncludes(s.threads, t, o, id);
      ReleasedSpanIsUnused(s, id, o);
    }
  }

  lemma ReleasedPlaces(s: State, s': State, t: nat, id: nat, k: nat)
    requires Released(s, s', t, id) && PlaceOk(s, k)
    ensures PlaceOk(s', k)
  {
    HeldIncludes(s.threads, t, Obj(0, 0), k);
    ReleasingUpdate(s.threads, t, s'.threads[t], k);
  }

  lemma ReleasedKeepsInv(s: State, s': State, t: nat, id: nat)
    requires Inv(s) && Released(s, s', t, id)
    ensures Inv(s')
  {
    forall o ensures ObjectOk(s', o) {
      ReleasedObjects(s, s', t, id, o);
    }
    forall k ensures PlaceOk(s', k) {
      ReleasedPlaces(s, s', t, id, k);
    }
  }

  /** The object a thread is returning is out, its span is in the bucket's list, and its bit is clear:
      `FreeObject` never sees a double free. */
  lemma ReturningObjectIsOut(s: State, t: nat)
    requires Inv(s) && Enabled(s, t, ReturnToSpan)
    ensures var o := s.threads[t].returning[0];
      && IsOut(s, o) && Outside(s, o) == 1 && s.spans[o.span].useCount > 0
      && Releasing(s.threads, o.span) == 0 && o.span in s.list && multiset(s.list)[o.span] == 1
  {
    var o := s.threads[t].returning[0];
    HeldIncludes(s.threads, t, o, 0);
    assert multiset(s.threads[t].returning)[o] > 0;
    assert ObjectOk(s, o);
    var sp := s.spans[o.span];
    assert SpanOk(sp);
    assert sp.free <= SpanBitmap.Below(sp.capacity) - {o.index};
    FreeIsSmaller(sp.free, SpanBitmap.Below(sp.capacity), o.index);
    assert PlaceOk(s, o.span);
  }

  lemma FreeIsSmaller(a: set<nat>, b: set<nat>, x: nat)
    requires a <= b - {x} && x in b
    ensures |a| < |b|
  {
    assert b == a + (b - a) && x in b - a;
  }

  ghost function ListAfterReturn(s: State, o: Obj, useCount: nat, capacity: nat): seq<nat>
  {
    var front := if useCount + 1 == capacity then [o.span] + EraseId(s.list, o.span) else s.list;
    if useCount == 0 then EraseId(front, o.span) else front
  }

  lemma ListAfterReturnPlaces(s: State, o: Obj, useCount: nat, capacity: nat, k: nat)
    requires multiset(s.list)[o.span] == 1
    ensures multiset(ListAfterReturn(s, o, useCount, capacity))[k] ==
            multiset(s.list)[k] - if useCount == 0 && k == o.span then 1 else 0
  {
    EraseOne(s.list, o.span);
    var front := if useCount + 1 == capacity then [o.span] + EraseId(s.list, o.span) else s.list;
    assert multiset(front) == multiset(s.list);
    EraseOne(front, o.span);
    assert o.span in multiset(front);
  }

  lemma ReturnToSpanObjects(s: State, t: nat, p: Obj)
    requires Inv(s) && Enabled(s, t, ReturnToSpan)
    ensures var s' := Apply(s, t, ReturnToSpan);
      ObjectOk(s', p)
  {
    ReturningObjectIsOut(s, t);
    var th := s.threads[t];
    var o := th.returning[0];
    var s' := Apply(s, t, ReturnToSpan);
    assert th.returning == [o] + th.returning[1..];
    ReturnedObjects(s, s', t, o, p);
  }

  lemma ReturnedObjects(s: State, s': State, t: nat, o: Obj, p: Obj)
    requires Inv(s) && t < |s.threads| && IsOut(s, o) && Outside(s, o) == 1
    requires o.span in s'.spans && s'.spans == s.spans[o.span := s'.spans[o.span]] && s'.transfer == s.transfer
    requires s'.spans[o.span].free == s.spans[o.span].free + {o.index}
             && s'.spans[o.span].capacity == s.spans[o.span].capacity
    requires |s'.threads| == |s.threads| && s'.threads == s.threads[t := s'.threads[t]]
    requires s.threads[t].Count(p) == s'.threads[t].Count(p) + if p == o then 1 else 0
    ensures ObjectOk(s', p)
  {
    HeldUpdate(s.threads, t, s'.threads[t], p);
    assert ObjectOk(s, p);
    assert IsOut(s', p) <==> IsOut(s, p) && p != o;
  }

  lemma ReturnToSpanPlaces(s: State, t: nat, k: nat)
    requires Inv(s) && Enabled(s, t, ReturnToSpan)
    ensures PlaceOk(Apply(s, t, ReturnToSpan), k)
  {
    assert PlaceOk(s, k);
    ReturningObjectIsOut(s, t);
    var th := s.threads[t];
    var o := th.returning[0];
    var s' := Apply(s, t, ReturnToSpan);
    var useCount, capacity := s'.spans[o.span].useCount, s.spans[o.span].capacity;
    assert s'.list == ListAfterReturn(s, o, useCount, capacity);
    ReleasingUpdate(s.threads, t, s'.threads[t], k);
    ListAfterReturnPlaces(s, o, useCount, capacity, k);
  }

  lemma ReturnToSpanKeepsInv(s: State, t: nat)
    requires Inv(s) && Enabled(s, t, ReturnToSpan)
    ensures Inv(Apply(s, t, ReturnToSpan))
  {
    ReturningObjectIsOut(s, t);
    var o := s.threads[t].returning[0];
    var s' := Apply(s, t, ReturnToSpan);
    assert SpanOk(s.spans[o.span]);
    assert SpanOk(s'.spans[o.span]);
    forall p ensures ObjectOk(s', p) {
      ReturnToSpanObjects(s, t, p);
    }
    forall k ensures PlaceOk(s', k) {
      ReturnToSpanPlaces(s, t, k);
    }
  }

  lemma StepKeepsInv(s: State, t: nat, a: Step)
    requires Inv(s) && Enabled(s, t, a)
    ensures Inv(Apply(s, t, a))
  {
    match a {
      case Extract(index, forPrefetch) => ExtractKeepsInv(s, t, index, forPrefetch);
      case Rotate => RotateKeepsInv(s, t);
      case AddSpan(id, capacity) => AddSpanKeepsInv(s, t, id, capacity);
      case ReturnToSpan => ReturnToSpanKeepsInv(s, t);
      case ReleaseSpan => ReleaseKeepsInv(s, t);
      case _ => MoveKeepsInv(s, t, a);
    }
  }

  /** The lookup of a returning object's span, and of a span being released, never fails. */
  lemma ReturnsNeverStuck(s: State, t: nat)
    requires Inv(s) && t < |s.threads|
    ensures s.threads[t].returning != [] ==> Enabled(s, t, ReturnToSpan)
    ensures s.threads[t].releasing != [] ==> Enabled(s, t, ReleaseSpan)
  {
    var th := s.threads[t];
    if th.returning != [] {
      var o := th.returning[0];
      HeldIncludes(s.threads, t, o, 0);
      assert multiset(th.returning)[o] > 0;
      assert ObjectOk(s, o);
    }
    if th.releasing != [] {
      var id := th.releasing[0];
      HeldIncludes(s.threads, t, Obj(0, 0), id);
      assert multiset(th.releasing)[id] > 0;
      assert PlaceOk(s, id);
    }
  }

  // ----- Runs -----

  datatype Action = Action(thread: nat, step: Step)

  ghost predicate Initial(s: State)
  {
    && s.spans == map[] && s.list == [] && s.transfer == []
    && (forall t :: 0 <= t < |s.threads| ==> s.threads[t] == Thread([], [], [], [], [], []))
  }

  ghost predicate IsStep(s: State, a: Action, s': State)
  {
    Enabled(s, a.thread, a.step) && s' == Apply(s, a.thread, a.step)
  }

  ghost predicate IsRun(states: seq<State>, actions: seq<Action>)
  {
    && |states| == |actions| + 1 && Initial(states[0])
    && (forall i :: 0 <= i < |actions| ==> IsStep(states[i], actions[i], states[i + 1]))
  }

  lemma {:induction false} NothingHeld(threads: seq<Thread>, o: Obj, id: nat)
    requires forall t :: 0 <= t < |threads| ==> threads[t] == Thread([], [], [], [], [], [])
    ensures Held(threads, o) == 0 && Releasing(threads, id) == 0
  {
    if threads != [] {
      NothingHeld(threads[1..], o, id);
    }
  }

  /** In every reachable state each object is in exactly one place: its bitmap, or one position of one
      sequence outside; and each span is in the list or on its way out. */
  lemma {:induction false} RunsKeepInv(states: seq<State>, actions: seq<Action>, k: nat)
    requires IsRun(states, actions) && k <= |actions|
    ensures Inv(states[k])
    decreases k
  {
    if k == 0 {
      forall o ensures ObjectOk(states[0], o) {
        NothingHeld(states[0].threads, o, 0);
      }
      forall id ensures PlaceOk(states[0], id) {
        NothingHeld(states[0].threads, Obj(0, 0), id);
      }
    } else {
      RunsKeepInv(states, actions, k - 1);
      assert IsStep(states[k - 1], actions[k - 1], states[k]);
      StepKeepsInv(states[k - 1], actions[k - 1].thread, actions[k - 1].step);
    }
  }

  /** An object a caller receives is held by nobody else: not by another caller, cache or batch, and
      not marked free. */
  lemma MallocIsExclusive(s: State, t: nat, r: nat)
    requires Inv(s) && Enabled(s, t, Malloc) && r < |s.threads|
    ensures var s' := Apply(s, t, Malloc);
      var o := s.threads[t].cache[0];
      && IsOut(s', o) && multiset(s'.threads[t].user)[o] == 1 && multiset(s'.transfer)[o] == 0
      && s'.threads[t].Count(o) == 1 && (r != t ==> s'.threads[r].Count(o) == 0)
  {
    var o := s.threads[t].cache[0];
    var s' := Apply(s, t, Malloc);
    StepKeepsInv(s, t, Malloc);
    HeldIncludes(s'.threads, t, o, 0);
    assert multiset(s'.threads[t].user)[o] >= 1;
    assert ObjectOk(s', o);
    if r != t {
      TwoHolders(s'.threads, t, r, o);
    }
  }

  lemma {:induction false} TwoHolders(threads: seq<Thread>, t: nat, r: nat, o: Obj)
    requires t < |threads| && r < |threads| && r != t
    ensures threads[t].Count(o) + threads[r].Count(o) <= Held(threads, o)
  {
    if t == 0 {
      HeldIncludes(threads[1..], r - 1, o, 0);
    } else if r == 0 {
      HeldIncludes(threads[1..], t - 1, o, 0);
    } else {
      TwoHolders(threads[1..], t - 1, r - 1, o);
    }
  }
}
