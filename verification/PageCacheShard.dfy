/** One page-cache shard: free spans in buckets by page count, a page map over all live spans, splitting
    on allocation, coalescing on release, and the scavenger that takes idle spans out of the buckets while
    it returns their memory outside the lock. Span metadata is named by number, 0 standing for null.
    The outcome of system and metadata allocation is a parameter. */
module PageCacheShard {

  const MAX_PAGE_NUM: nat := 128
  const TIME_RANGE: nat := 0x1_0000_0000_0000_0000

  datatype Span = Span(start: nat, num: nat, used: bool, committed: bool, lastUsed: nat)

  // ----- Lists -----

  ghost predicate NoDuplicates(s: seq<nat>)
  {
    forall i, j :: 0 <= i < j < |s| ==> s[i] != s[j]
  }

  /** `SpanList::erase`. */
  function Erase(s: seq<nat>, x: nat): seq<nat>
  {
    if s == [] then [] else if s[0] == x then s[1..] else [s[0]] + Erase(s[1..], x)
  }

  lemma {:induction false} EraseRemoves(s: seq<nat>, x: nat)
    requires NoDuplicates(s)
    ensures NoDuplicates(Erase(s, x))
    ensures forall y :: y in Erase(s, x) <==> y in s && y != x
  {
    if s != [] {
      EraseRemoves(s[1..], x);
      assert s == [s[0]] + s[1..];
      var e := Erase(s[1..], x);
      assert s[0] !in s[1..];
      forall i, j | 0 <= i < j < |[s[0]] + e| ensures ([s[0]] + e)[i] != ([s[0]] + e)[j] {
        assert ([s[0]] + e)[j] in e;
      }
    }
  }

  // ----- Structure of a shard -----

  predicate Covers(spans: map<nat, Span>, id: nat, p: int)
  {
    id in spans && spans[id].start <= p < spans[id].start + spans[id].num
  }

  /** The page map sends exactly the pages of live spans to their spans. */
  ghost predicate PagesOk(spans: map<nat, Span>, pages: map<nat, nat>)
  {
    && (forall id, p: nat :: Covers(spans, id, p) ==> p in pages && pages[p] == id)
    && (forall p :: p in pages ==> Covers(spans, pages[p], p))
  }

  ghost predicate BucketOk(spans: map<nat, Span>, i: nat, list: seq<nat>)
  {
    NoDuplicates(list) && forall id :: id in list ==> id in spans && !spans[id].used && spans[id].num == i
  }

  ghost predicate SpanOk(spans: map<nat, Span>, buckets: seq<seq<nat>>, id: nat)
    requires id in spans && |buckets| == MAX_PAGE_NUM + 1
  {
    && id != 0 && spans[id].num >= 1
    && (!spans[id].used ==> spans[id].num <= MAX_PAGE_NUM && id in buckets[spans[id].num])
  }

  /** Bucket `i` holds exactly the free spans of `i` pages. */
  ghost predicate BucketsOk(spans: map<nat, Span>, buckets: seq<seq<nat>>)
  {
    && |buckets| == MAX_PAGE_NUM + 1
    && (forall i :: 0 <= i <= MAX_PAGE_NUM ==> BucketOk(spans, i, buckets[i]))
    && (forall id :: id in spans ==> SpanOk(spans, buckets, id))
  }

  /** A span is marked used exactly while a caller holds it or the scavenger has detached it. */
  ghost predicate UseOk(spans: map<nat, Span>, held: set<nat>, detached: map<nat, nat>)
  {
    && held <= spans.Keys && detached.Keys <= spans.Keys && held !! detached.Keys
    && (forall id :: id in spans ==> (spans[id].used <==> id in held || id in detached))
    && (forall id :: id in detached ==> spans[id].num == detached[id])
  }

  /** Live spans never overlap. */
  lemma LiveSpansDisjoint(spans: map<nat, Span>, pages: map<nat, nat>, a: nat, b: nat)
    requires PagesOk(spans, pages) && a in spans && b in spans && a != b
    requires spans[a].num >= 1 && spans[b].num >= 1
    ensures spans[a].start + spans[a].num <= spans[b].start || spans[b].start + spans[b].num <= spans[a].start
  {
    var p := if spans[a].start < spans[b].start then spans[b].start else spans[a].start;
    assert !(Covers(spans, a, p) && Covers(spans, b, p));
  }

  function Range(start: nat, num: nat): (r: set<nat>)
    ensures forall p :: p in r <==> start <= p < start + num
  {
    if num == 0 then {} else Range(start, num - 1) + {start + num - 1}
  }

  /** `PageMap::SetSpan` on the map view. */
  function SetRange(pages: map<nat, nat>, start: nat, num: nat, id: nat): map<nat, nat>
  {
    pages + map p | p in Range(start, num) :: id
  }

  /** `PageMap::ClearRange` on the map view. */
  function ClearRange(pages: map<nat, nat>, start: nat, num: nat): map<nat, nat>
  {
    map p | p in pages && !(start <= p < start + num) :: pages[p]
  }

  ghost predicate Unmapped(pages: map<nat, nat>, start: nat, num: nat)
  {
    forall p :: start <= p < start + num ==> p !in pages
  }

  // ----- Effect of each change on the structure -----

  /** A new span on pages that were not mapped. */
  lemma MapNewSpan(spans: map<nat, Span>, pages: map<nat, nat>, id: nat, s: Span)
    requires PagesOk(spans, pages) && id !in spans && Unmapped(pages, s.start, s.num)
    ensures PagesOk(spans[id := s], SetRange(pages, s.start, s.num, id))
  {
    var spans', pages' := spans[id := s], SetRange(pages, s.start, s.num, id);
    forall x, p: nat | Covers(spans', x, p) ensures p in pages' && pages'[p] == x {
      if x != id {
        assert Covers(spans, x, p);
      }
    }
    forall p | p in pages' ensures Covers(spans', pages'[p], p) {
      if !(s.start <= p < s.start + s.num) {
        assert Covers(spans, pages[p], p);
      }
    }
  }

  /** Splitting: the first `n` pages of `big` go to the new span `small`. */
  lemma MapSplit(spans: map<nat, Span>, pages: map<nat, nat>, big: nat, small: nat, n: nat, b: Span, s: Span)
    requires PagesOk(spans, pages) && big in spans && small !in spans && 1 <= n < spans[big].num
    requires s.start == spans[big].start && s.num == n
    requires b.start == spans[big].start + n && b.num == spans[big].num - n
    ensures PagesOk(spans[small := s][big := b], SetRange(SetRange(pages, s.start, s.num, small), b.start, b.num, big))
    ensures SetRange(SetRange(pages, s.start, s.num, small), b.start, b.num, big).Keys == pages.Keys
  {
    var spans' := spans[small := s][big := b];
    var pages' := SetRange(SetRange(pages, s.start, s.num, small), b.start, b.num, big);
    forall x, p: nat | Covers(spans', x, p) ensures p in pages' && pages'[p] == x {
      if x != big && x != small {
        assert Covers(spans, x, p);
        assert !Covers(spans, big, p);
      }
    }
    forall p | p in pages' ensures p in pages && Covers(spans', pages'[p], p) {
      if Covers(spans, big, p) {
        assert p in pages;
      } else {
        assert Covers(spans, pages[p], p);
      }
    }
    assert forall p :: p in pages ==> p in pages';
  }

  /** Changing a span's flags but not its pages. */
  lemma MapFlags(spans: map<nat, Span>, pages: map<nat, nat>, id: nat, s: Span)
    requires PagesOk(spans, pages) && id in spans && s.start == spans[id].start && s.num == spans[id].num
    ensures PagesOk(spans[id := s], pages)
  {
    var spans' := spans[id := s];
    assert forall x, p: nat :: Covers(spans', x, p) <==> Covers(spans, x, p);
    assert forall p :: p in pages ==> Covers(spans, pages[p], p);
  }

  lemma UnmapSpan(spans: map<nat, Span>, pages: map<nat, nat>, id: nat)
    requires PagesOk(spans, pages) && id in spans
    ensures PagesOk(spans - {id}, ClearRange(pages, spans[id].start, spans[id].num))
  {
    var spans', pages' := spans - {id}, ClearRange(pages, spans[id].start, spans[id].num);
    forall x, p: nat | Covers(spans', x, p) ensures p in pages' && pages'[p] == x {
      assert Covers(spans, x, p);
      assert !Covers(spans, id, p);
    }
    forall p | p in pages' ensures Covers(spans', pages'[p], p) {
      assert Covers(spans, pages[p], p);
    }
  }

  /** The scavenger takes committed spans whose idle time, modulo the clock's range, reached the threshold. */
  predicate IsIdle(s: Span, now: nat, threshold: nat)
  {
    s.committed && (now - s.lastUsed) % TIME_RANGE >= threshold
  }

  /** For a span last used before the pass read the clock this is idle time. */
  lemma IdleMeansIdle(s: Span, now: nat, threshold: nat)
    requires s.lastUsed <= now < TIME_RANGE
    ensures IsIdle(s, now, threshold) <==> s.committed && now - s.lastUsed >= threshold
  {
  }

  /** The clock is read once per pass. A span released after that has a difference that wraps, and counts as idle
      unless it was released almost a whole clock range later. */
  lemma LaterReleaseLooksIdle(s: Span, now: nat, threshold: nat)
    requires now < s.lastUsed < TIME_RANGE
    ensures IsIdle(s, now, threshold) <==> s.committed && s.lastUsed - now <= TIME_RANGE - threshold
    ensures IsIdle(Span(1, 1, false, true, 1001), 1000, 10000)
  {
    assert (now - s.lastUsed) % TIME_RANGE == now - s.lastUsed + TIME_RANGE;
  }

  // ----- Scavenging -----

  /** So far the scavenger has moved exactly the spans of `list` from bucket `i` to its own list. */
  ghost predicate Detached(spans0: map<nat, Span>, detached0: map<nat, nat>, spans: map<nat, Span>,
                           detached: map<nat, nat>, list: seq<nat>, i: nat)
  {
    && NoDuplicates(list) && spans.Keys == spans0.Keys
    && (forall x :: x in list <==> x in detached && x !in detached0)
    && (forall x :: x in detached0 ==> x in detached && detached[x] == detached0[x])
    && (forall x :: x in list ==> detached[x] == i)
    && (forall x :: x in spans && x !in list ==> spans[x] == spans0[x])
  }

  /** The first `k` spans of the bucket have been looked at, and those that were idle are in `list`. */
  ghost predicate Scavenging(spans0: map<nat, Span>, detached0: map<nat, nat>, spans: map<nat, Span>,
                             detached: map<nat, nat>, bucket: seq<nat>, list: seq<nat>, i: nat,
                             snapshot: seq<nat>, k: nat, now: nat, threshold: nat)
  {
    && Detached(spans0, detached0, spans, detached, list, i) && NoDuplicates(snapshot) && k <= |snapshot|
    && (forall m :: 0 <= m < |snapshot| ==> snapshot[m] in spans0)
    && (forall m :: k <= m < |snapshot| ==> snapshot[m] in bucket)
    && (forall x :: x in list ==> x in snapshot[..k])
    && (forall m :: 0 <= m < k ==> (snapshot[m] in list <==> IsIdle(spans0[snapshot[m]], now, threshold)))
  }

  lemma NotYetTaken(spans0: map<nat, Span>, detached0: map<nat, nat>, spans: map<nat, Span>, detached: map<nat, nat>,
                    bucket: seq<nat>, list: seq<nat>, i: nat, snapshot: seq<nat>, k: nat, now: nat, threshold: nat)
    requires k < |snapshot|
    requires Scavenging(spans0, detached0, spans, detached, bucket, list, i, snapshot, k, now, threshold)
    ensures var cur := snapshot[k];
      cur !in list && cur in bucket && cur in spans && spans[cur] == spans0[cur]
  {
    assert snapshot[k] !in snapshot[..k];
  }

  lemma ScavengePasses(spans0: map<nat, Span>, detached0: map<nat, nat>, spans: map<nat, Span>, detached: map<nat, nat>,
                       bucket: seq<nat>, list: seq<nat>, i: nat, snapshot: seq<nat>, k: nat, now: nat, threshold: nat)
    requires k < |snapshot| && snapshot[k] in spans && !IsIdle(spans[snapshot[k]], now, threshold)
    requires Scavenging(spans0, detached0, spans, detached, bucket, list, i, snapshot, k, now, threshold)
    ensures Scavenging(spans0, detached0, spans, detached, bucket, list, i, snapshot, k + 1, now, threshold)
  {
    NotYetTaken(spans0, detached0, spans, detached, bucket, list, i, snapshot, k, now, threshold);
    assert snapshot[..k + 1] == snapshot[..k] + [snapshot[k]];
  }

  lemma ScavengeTakes(spans0: map<nat, Span>, detached0: map<nat, nat>, spans: map<nat, Span>, detached: map<nat, nat>,
                      bucket: seq<nat>, bucket': seq<nat>, list: seq<nat>, i: nat, snapshot: seq<nat>, k: nat, now: nat,
                      threshold: nat)
    requires k < |snapshot| && snapshot[k] in spans && IsIdle(spans[snapshot[k]], now, threshold)
    requires Scavenging(spans0, detached0, spans, detached, bucket, list, i, snapshot, k, now, threshold)
    requires snapshot[k] !in detached && forall y :: y in bucket' <==> y in bucket && y != snapshot[k]
    ensures var cur := snapshot[k];
      Scavenging(spans0, detached0, spans[cur := spans[cur].(used := true)], detached[cur := i], bucket',
                 list + [cur], i, snapshot, k + 1, now, threshold)
  {
    NotYetTaken(spans0, detached0, spans, detached, bucket, list, i, snapshot, k, now, threshold);
    assert snapshot[..k + 1] == snapshot[..k] + [snapshot[k]];
  }

  // ----- Coalescing -----

  /** While `id` grows, its pages may still be mapped to spans already deleted. */
  ghost predicate PagesOkExcept(spans: map<nat, Span>, pages: map<nat, nat>, id: nat)
  {
    && id in spans
    && (forall p: nat :: Covers(spans, id, p) ==> p in pages)
    && (forall x, p: nat :: x != id && Covers(spans, x, p) ==> p in pages && pages[p] == x && !Covers(spans, id, p))
    && (forall p :: p in pages ==> Covers(spans, id, p) || Covers(spans, pages[p], p))
  }

  /** The free span next to `id`, found through the page map, ends where `id` starts or starts where it ends. */
  lemma NeighbourAdjoins(spans: map<nat, Span>, pages: map<nat, nat>, id: nat, p: nat)
    requires PagesOkExcept(spans, pages, id) && spans[id].num >= 1 && p in pages && !Covers(spans, id, p)
    ensures var x := pages[p];
      && x != id && Covers(spans, x, p)
      && (p + 1 == spans[id].start ==> spans[x].start + spans[x].num == spans[id].start)
      && (p == spans[id].start + spans[id].num ==> spans[x].start == p)
  {
    var x := pages[p];
    assert Covers(spans, x, p);
    assert Covers(spans, id, spans[id].start) && Covers(spans, id, spans[id].start + spans[id].num - 1);
    assert !Covers(spans, x, spans[id].start);
    assert !Covers(spans, x, spans[id].start + spans[id].num - 1);
  }

  /** Merging the neighbour `x` into `id`. */
  lemma MergeKeepsPages(spans: map<nat, Span>, pages: map<nat, nat>, id: nat, x: nat, s: Span)
    requires PagesOkExcept(spans, pages, id) && x in spans && x != id
    requires s.num == spans[id].num + spans[x].num
    requires || (spans[x].start + spans[x].num == spans[id].start == s.start + spans[x].num)
             || (spans[id].start + spans[id].num == spans[x].start && s.start == spans[id].start)
    ensures PagesOkExcept((spans - {x})[id := s], pages, id)
    ensures forall p: nat :: Covers((spans - {x})[id := s], id, p) <==> Covers(spans, id, p) || Covers(spans, x, p)
  {
    var spans' := (spans - {x})[id := s];
    assert forall p: nat :: Covers(spans', id, p) <==> Covers(spans, id, p) || Covers(spans, x, p);
    forall y, p: nat | y != id && Covers(spans', y, p)
      ensures p in pages && pages[p] == y && !Covers(spans', id, p)
    {
      assert Covers(spans, y, p);
    }
    forall p | p in pages ensures Covers(spans', id, p) || Covers(spans', pages[p], p) {
      if !Covers(spans, id, p) {
        assert Covers(spans, pages[p], p);
      }
    }
  }

  /** Rewriting the mappings of the grown span restores the page map. */
  lemma FinishMerge(spans: map<nat, Span>, pages: map<nat, nat>, id: nat, s: Span)
    requires PagesOkExcept(spans, pages, id) && s.start == spans[id].start && s.num == spans[id].num
    ensures PagesOk(spans[id := s], SetRange(pages, s.start, s.num, id))
    ensures SetRange(pages, s.start, s.num, id).Keys == pages.Keys
  {
    var spans', pages' := spans[id := s], SetRange(pages, s.start, s.num, id);
    assert forall x, p: nat :: Covers(spans', x, p) <==> Covers(spans, x, p);
    forall p | p in pages' ensures p in pages && Covers(spans', pages'[p], p) {
      assert s.start <= p < s.start + s.num ==> Covers(spans, id, p);
    }
    assert forall p :: p in pages ==> p in pages';
  }

  /** What release leaves beside the coalesced span: nothing, a span in use, or one too large to merge. */
  ghost predicate NotMergeable(spans: map<nat, Span>, pages: map<nat, nat>, id: nat, q: int)
    requires id in spans
  {
    q in pages && q >= 0 && pages[q] in spans ==>
      spans[pages[q]].used || spans[id].num + spans[pages[q]].num > MAX_PAGE_NUM
  }

  ghost predicate LeftSettled(spans: map<nat, Span>, pages: map<nat, nat>, id: nat)
    requires id in spans
  {
    spans[id].start > 0 ==> NotMergeable(spans, pages, id, spans[id].start - 1)
  }

  ghost predicate RightSettled(spans: map<nat, Span>, pages: map<nat, nat>, id: nat)
    requires id in spans
  {
    NotMergeable(spans, pages, id, spans[id].start + spans[id].num)
  }

  /** Every span that was live is untouched, or was free and lies inside `id` now. */
  ghost predicate AbsorbedInto(before: map<nat, Span>, after: map<nat, Span>, id: nat)
  {
    && (forall x :: x in after ==> x in before)
    && (forall x :: x in before && x != id ==>
          if x in after then after[x] == before[x]
          else !before[x].used && forall p: nat :: Covers(before, x, p) ==> Covers(after, id, p))
  }

  lemma StartGrowing(spans: map<nat, Span>, pages: map<nat, nat>, id: nat)
    requires PagesOk(spans, pages) && id in spans
    ensures PagesOkExcept(spans, pages, id)
  {
    forall x, p: nat | x != id && Covers(spans, x, p) ensures !Covers(spans, id, p) {
      assert pages[p] == x;
    }
  }

  /** Freeing the grown span and rewriting its mappings leaves its neighbours as they were. */
  lemma NeighbourStays(spans: map<nat, Span>, pages: map<nat, nat>, id: nat, s: Span, q: int)
    requires PagesOkExcept(spans, pages, id) && s.start == spans[id].start && s.num == spans[id].num
    requires !Covers(spans, id, q) && NotMergeable(spans, pages, id, q)
    ensures NotMergeable(spans[id := s], SetRange(pages, s.start, s.num, id), id, q)
  {
    var pages' := SetRange(pages, s.start, s.num, id);
    if q in pages' && q >= 0 {
      assert q in pages && pages'[q] == pages[q];
      assert Covers(spans, pages[q], q);
    }
  }

  lemma NeighboursStay(spans: map<nat, Span>, pages: map<nat, nat>, id: nat, s: Span)
    requires PagesOkExcept(spans, pages, id) && s.start == spans[id].start && s.num == spans[id].num
    requires LeftSettled(spans, pages, id) && RightSettled(spans, pages, id)
    ensures LeftSettled(spans[id := s], SetRange(pages, s.start, s.num, id), id)
    ensures RightSettled(spans[id := s], SetRange(pages, s.start, s.num, id), id)
  {
    if s.start > 0 {
      NeighbourStays(spans, pages, id, s, s.start - 1);
    }
    NeighbourStays(spans, pages, id, s, s.start + s.num);
  }

  /** A neighbour that was too large, or in use, stays so while the span grows on the other side. */
  lemma GrowthKeepsLeft(spans: map<nat, Span>, pages: map<nat, nat>, id: nat, x: nat, s: Span)
    requires id in spans && LeftSettled(spans, pages, id) && s.used && s.start == spans[id].start
             && s.num >= spans[id].num
    ensures LeftSettled((spans - {x})[id := s], pages, id)
  {
  }

  lemma ReleaseKeepsUse(before: map<nat, Span>, spans: map<nat, Span>, held: set<nat>, detached: map<nat, nat>,
                        id: nat, s: Span)
    requires UseOk(before, held, detached) && id in held && id in spans && AbsorbedInto(before, spans, id)
    requires !s.used && s.start == spans[id].start && s.num == spans[id].num && CoversAtLeast(before, spans, id)
    ensures UseOk(spans[id := s], held - {id}, detached)
    ensures Undisturbed(before, spans[id := s], held + detached.Keys - {id})
    ensures AbsorbedInto(before, spans[id := s], id)
    ensures CoversAtLeast(before, spans[id := s], id)
  {
    forall x | x in held + detached.Keys - {id} ensures x in spans && spans[x] == before[x] {
      assert before[x].used;
    }
  }

  /** `id` has kept its pages. */
  ghost predicate CoversAtLeast(before: map<nat, Span>, after: map<nat, Span>, id: nat)
  {
    forall p: nat :: Covers(before, id, p) ==> Covers(after, id, p)
  }

  /** `id` consists of its old pages and those of the spans that are gone, and of nothing else. */
  ghost predicate IsUnion(before: map<nat, Span>, after: map<nat, Span>, id: nat)
  {
    forall p: nat :: Covers(after, id, p) <==> Covers(before, id, p) || exists x :: x !in after && Covers(before, x, p)
  }

  lemma CoalescedIsUnion(before: map<nat, Span>, pages: map<nat, nat>, after: map<nat, Span>, pages': map<nat, nat>,
                         id: nat)
    requires PagesOk(before, pages) && PagesOk(after, pages') && pages'.Keys == pages.Keys
    requires id in after && AbsorbedInto(before, after, id) && CoversAtLeast(before, after, id)
    ensures IsUnion(before, after, id)
  {
    forall p: nat | Covers(after, id, p)
      ensures Covers(before, id, p) || exists x :: x !in after && Covers(before, x, p)
    {
      var x := pages[p];
      assert Covers(before, x, p);
      assert x != id && x in after ==> Covers(after, x, p);
    }
    forall p: nat, x | x !in after && Covers(before, x, p)
      ensures Covers(after, id, p)
    {
    }
  }

  /** Freeing the grown span under its final mappings. */
  lemma GrownBecomesFree(before: map<nat, Span>, spans: map<nat, Span>, pages: map<nat, nat>, held: set<nat>,
                         detached: map<nat, nat>, id: nat, s: Span)
    requires PagesOkExcept(spans, pages, id) && PagesOk(before, pages) && UseOk(before, held, detached) && id in held
    requires AbsorbedInto(before, spans, id) && CoversAtLeast(before, spans, id)
    requires LeftSettled(spans, pages, id) && RightSettled(spans, pages, id)
    requires !s.used && s.start == spans[id].start && s.num == spans[id].num
    ensures var spans', pages' := spans[id := s], SetRange(pages, s.start, s.num, id);
      && PagesOk(spans', pages') && pages'.Keys == pages.Keys && UseOk(spans', held - {id}, detached)
      && Undisturbed(before, spans', held + detached.Keys - {id})
      && AbsorbedInto(before, spans', id) && IsUnion(before, spans', id)
      && LeftSettled(spans', pages', id) && RightSettled(spans', pages', id)
  {
    FinishMerge(spans, pages, id, s);
    NeighboursStay(spans, pages, id, s);
    ReleaseKeepsUse(before, spans, held, detached, id, s);
    CoalescedIsUnion(before, pages, spans[id := s], SetRange(pages, s.start, s.num, id), id);
  }

  lemma AbsorbMore(before: map<nat, Span>, spans: map<nat, Span>, id: nat, x: nat, s: Span)
    requires AbsorbedInto(before, spans, id) && id in spans && x in spans && x != id && !spans[x].used
    requires CoversAtLeast(before, spans, id)
    requires forall p: nat :: Covers((spans - {x})[id := s], id, p) <==> Covers(spans, id, p) || Covers(spans, x, p)
    ensures AbsorbedInto(before, (spans - {x})[id := s], id)
    ensures CoversAtLeast(before, (spans - {x})[id := s], id)
  {
    var spans' := (spans - {x})[id := s];
    forall y | y in before && y != id && y !in spans'
      ensures !before[y].used && forall p: nat :: Covers(before, y, p) ==> Covers(spans', id, p) {
      if y == x {
        assert forall p: nat :: Covers(before, x, p) ==> Covers(spans, x, p);
      }
    }
  }

  // ----- Effect of each change on the buckets -----

  lemma EraseHead(s: seq<nat>)
    requires s != []
    ensures Erase(s, s[0]) == s[1..]
  {
  }

  /** A free span leaves its bucket and becomes used. */
  lemma TakeFree(spans: map<nat, Span>, buckets: seq<seq<nat>>, id: nat, s: Span)
    requires BucketsOk(spans, buckets) && id in spans && !spans[id].used && s.used && s.num >= 1
    ensures BucketsOk(spans[id := s], buckets[spans[id].num := Erase(buckets[spans[id].num], id)])
  {
    var n := spans[id].num;
    assert SpanOk(spans, buckets, id);
    assert BucketOk(spans, n, buckets[n]);
    EraseRemoves(buckets[n], id);
    var spans', buckets' := spans[id := s], buckets[n := Erase(buckets[n], id)];
    forall i | 0 <= i <= MAX_PAGE_NUM ensures BucketOk(spans', i, buckets'[i]) {
      assert BucketOk(spans, i, buckets[i]);
    }
    forall x | x in spans' ensures SpanOk(spans', buckets', x) {
      assert SpanOk(spans, buckets, x);
    }
  }

  /** A span that is in no bucket becomes free and joins the bucket of its size, at either end. */
  lemma PutFree(spans: map<nat, Span>, buckets: seq<seq<nat>>, id: nat, s: Span, list: seq<nat>)
    requires BucketsOk(spans, buckets) && (id in spans ==> spans[id].used)
    requires id != 0 && !s.used && 1 <= s.num <= MAX_PAGE_NUM
    requires list == [id] + buckets[s.num] || list == buckets[s.num] + [id]
    ensures BucketsOk(spans[id := s], buckets[s.num := list])
  {
    var spans', buckets' := spans[id := s], buckets[s.num := list];
    forall i | 0 <= i <= MAX_PAGE_NUM ensures id !in buckets[i] && BucketOk(spans', i, buckets'[i]) {
      assert BucketOk(spans, i, buckets[i]);
    }
    forall x | x in spans' ensures SpanOk(spans', buckets', x) {
      if x != id {
        assert SpanOk(spans, buckets, x);
      }
    }
  }

  /** A used span changes size, or appears. */
  lemma PutUsed(spans: map<nat, Span>, buckets: seq<seq<nat>>, id: nat, s: Span)
    requires BucketsOk(spans, buckets) && (id in spans ==> spans[id].used) && id != 0 && s.used && s.num >= 1
    ensures BucketsOk(spans[id := s], buckets)
  {
    var spans' := spans[id := s];
    forall i | 0 <= i <= MAX_PAGE_NUM ensures BucketOk(spans', i, buckets[i]) {
      assert BucketOk(spans, i, buckets[i]);
    }
    forall x | x in spans' ensures SpanOk(spans', buckets, x) {
      if x != id {
        assert SpanOk(spans, buckets, x);
      }
    }
  }

  lemma DropUsed(spans: map<nat, Span>, buckets: seq<seq<nat>>, id: nat)
    requires BucketsOk(spans, buckets) && id in spans && spans[id].used
    ensures BucketsOk(spans - {id}, buckets)
  {
    forall i | 0 <= i <= MAX_PAGE_NUM ensures BucketOk(spans - {id}, i, buckets[i]) {
      assert BucketOk(spans, i, buckets[i]);
    }
    forall x | x in spans - {id} ensures SpanOk(spans - {id}, buckets, x) {
      assert SpanOk(spans, buckets, x);
    }
  }

  /** A free neighbour leaves its bucket and is deleted while the used span `id` takes over its pages. */
  lemma MergeKeepsBuckets(spans: map<nat, Span>, buckets: seq<seq<nat>>, id: nat, x: nat, s: Span)
    requires BucketsOk(spans, buckets) && id in spans && spans[id].used && x in spans && !spans[x].used
    requires s.used && s.num >= 1
    ensures BucketsOk((spans - {x})[id := s], buckets[spans[x].num := Erase(buckets[spans[x].num], x)])
  {
    var buckets' := buckets[spans[x].num := Erase(buckets[spans[x].num], x)];
    assert SpanOk(spans, buckets, x) && SpanOk(spans, buckets, id);
    var marked := spans[x := spans[x].(used := true)];
    TakeFree(spans, buckets, x, spans[x].(used := true));
    DropUsed(marked, buckets', x);
    assert marked - {x} == spans - {x};
    PutUsed(spans - {x}, buckets', id, s);
  }

  /** The smallest bucket of at least `n` pages that is not empty, or one past the last. */
  ghost function FirstFit(buckets: seq<seq<nat>>, n: nat): (i: nat)
    requires |buckets| == MAX_PAGE_NUM + 1 && n <= MAX_PAGE_NUM + 1
    ensures n <= i <= MAX_PAGE_NUM + 1 && (i <= MAX_PAGE_NUM ==> buckets[i] != [])
    ensures forall k :: n <= k < i ==> buckets[k] == []
    decreases MAX_PAGE_NUM + 1 - n
  {
    if n > MAX_PAGE_NUM || buckets[n] != [] then n else FirstFit(buckets, n + 1)
  }

  lemma FirstFitIs(buckets: seq<seq<nat>>, n: nat, i: nat)
    requires |buckets| == MAX_PAGE_NUM + 1 && n <= i <= MAX_PAGE_NUM + 1
    requires (i <= MAX_PAGE_NUM ==> buckets[i] != []) && forall k :: n <= k < i ==> buckets[k] == []
    ensures FirstFit(buckets, n) == i
  {
    var f := FirstFit(buckets, n);
    assert !(f < i) && !(i < f);
  }

  const MAX_REQUEST: nat := 0xFFFF_FFFF

  /** When an allocation succeeds, given the buckets and the outcome of the system's allocations. */
  ghost predicate CanAlloc(buckets: seq<seq<nat>>, n: nat, os: nat, refillMeta: nat, spanMeta: nat)
    requires |buckets| == MAX_PAGE_NUM + 1
  {
    if n == 0 || n > MAX_REQUEST then false
    else if n > MAX_PAGE_NUM then os != 0 && spanMeta != 0
    else
      var i := FirstFit(buckets, n);
      || i == n
      || (i <= MAX_PAGE_NUM && spanMeta != 0)
      || (i > MAX_PAGE_NUM && os != 0 && refillMeta != 0 && (n == MAX_PAGE_NUM || spanMeta != 0))
  }

  /** Spans that nobody may touch: those callers hold and those the scavenger has detached. */
  ghost predicate Undisturbed(before: map<nat, Span>, after: map<nat, Span>, ids: set<nat>)
  {
    forall x :: x in ids ==> x in before && x in after && after[x] == before[x]
  }

  // ----- The shard -----

  class Shard {
    var spans: map<nat, Span>       // live span metadata
    var buckets: seq<seq<nat>>      // free lists by page count, front first
    var pages: map<nat, nat>        // the page map
    ghost var held: set<nat>        // spans in the hands of callers
    ghost var detached: map<nat, nat>  // spans the scavenger took out, with the bucket they came from

    ghost predicate Valid()
      reads this
    {
      PagesOk(spans, pages) && BucketsOk(spans, buckets) && UseOk(spans, held, detached)
    }

    constructor ()
      ensures Valid() && spans == map[] && pages == map[] && held == {} && detached == map[]
    {
      spans, pages, held, detached := map[], map[], {}, map[];
      buckets := seq(MAX_PAGE_NUM + 1, _ => []);
    }

    /** Takes the first span of a non-empty bucket. */
    method TakeExact(n: nat) returns (id: nat)
      requires Valid() && 1 <= n <= MAX_PAGE_NUM && buckets[n] != []
      modifies this
      ensures Valid() && id == old(buckets[n][0]) && id in old(spans) && !old(spans[id].used) && old(spans[id].num) == n
      ensures held == old(held) + {id} && id !in old(held) && detached == old(detached) && pages == old(pages)
      ensures spans == old(spans)[id := old(spans[id]).(used := true, committed := true)]
    {
      id := buckets[n][0];
      assert BucketOk(spans, n, buckets[n]) && SpanOk(spans, buckets, id);
      var s := spans[id].(used := true, committed := true);
      EraseHead(buckets[n]);
      TakeFree(spans, buckets, id, s);
      MapFlags(spans, pages, id, s);
      buckets := buckets[n := buckets[n][1..]];
      spans := spans[id := s];
      held := held + {id};
    }

    /** Splits `n` pages off the first span of bucket `i`; without metadata the span goes back. */
    method Split(n: nat, i: nat, meta: nat, now: nat) returns (id: nat)
      requires Valid() && 1 <= n < i <= MAX_PAGE_NUM && buckets[i] != [] && meta !in spans
      modifies this
      ensures Valid() && id == meta && detached == old(detached) && pages.Keys == old(pages.Keys)
      ensures meta == 0 ==> spans == old(spans) && buckets == old(buckets) && pages == old(pages) && held == old(held)
      ensures meta != 0 ==> held == old(held) + {meta} && meta !in old(held)
      ensures meta != 0 ==> spans.Keys == old(spans.Keys) + {meta} && spans[meta].num == n && spans[meta].committed
      ensures meta != 0 ==>
                old(buckets[i][0]) in old(spans) && spans[meta].start == old(spans)[old(buckets[i][0])].start
      ensures meta != 0 ==> forall x :: x in old(spans) && old(spans[x].used) ==> spans[x] == old(spans[x])
    {
      var bigId := buckets[i][0];
      assert BucketOk(spans, i, buckets[i]) && SpanOk(spans, buckets, bigId);
      var big := spans[bigId];
      var rest := buckets[i][1..];
      if meta == 0 {
        assert buckets[i] == [bigId] + rest;
        buckets := buckets[i := rest];
        buckets := buckets[i := [bigId] + rest];
        return 0;
      }
      var s := Span(big.start, n, true, true, 0);
      var b := Span(big.start + n, big.num - n, false, true, now);
      CarveOff(bigId, meta, s, b);
      id := meta;
    }

    /** The first span of its bucket becomes `s`, under the new number, and the rest `b`. */
    method CarveOff(bigId: nat, meta: nat, s: Span, b: Span)
      requires Valid() && bigId in spans && !spans[bigId].used && spans[bigId].num <= MAX_PAGE_NUM
      requires meta != 0 && meta !in spans && 1 <= s.num < spans[bigId].num && s.used && !b.used
      requires buckets[spans[bigId].num] != [] && buckets[spans[bigId].num][0] == bigId
      requires s.start == spans[bigId].start && b.start == s.start + s.num && b.num == spans[bigId].num - s.num
      modifies this
      ensures Valid() && spans == old(spans)[meta := s][bigId := b] && held == old(held) + {meta}
      ensures detached == old(detached) && pages.Keys == old(pages.Keys)
    {
      var i := spans[bigId].num;
      var popped := buckets[i := buckets[i][1..]];
      var buckets' := popped[b.num := [bigId] + popped[b.num]];
      var spans' := spans[meta := s][bigId := b];
      var pages' := SetRange(SetRange(pages, s.start, s.num, meta), b.start, b.num, bigId);
      SplitKeepsStructure(spans, buckets, pages, bigId, meta, s, b);
      SplitKeepsUse(spans, held, detached, bigId, meta, s, b);
      Install(spans', buckets', pages', held + {meta});
    }

    /** Takes over spans, buckets, mappings and holders that fit together. */
    method Install(newSpans: map<nat, Span>, newBuckets: seq<seq<nat>>, newPages: map<nat, nat>,
                   ghost newHeld: set<nat>)
      requires PagesOk(newSpans, newPages) && BucketsOk(newSpans, newBuckets) && UseOk(newSpans, newHeld, detached)
      modifies this`spans, this`buckets, this`pages, this`held
      ensures Valid() && spans == newSpans && buckets == newBuckets && pages == newPages && held == newHeld
    {
      spans, buckets, pages, held := newSpans, newBuckets, newPages, newHeld;
    }

    /** A fresh free span of the largest size. */
    method Refill(os: nat, meta: nat, now: nat)
      requires Valid() && meta != 0 && meta !in spans && Unmapped(pages, os, MAX_PAGE_NUM)
      modifies this
      ensures Valid() && held == old(held) && detached == old(detached)
      ensures spans == old(spans)[meta := Span(os, MAX_PAGE_NUM, false, true, now)]
      ensures pages == SetRange(old(pages), os, MAX_PAGE_NUM, meta)
      ensures buckets == old(buckets)[MAX_PAGE_NUM := [meta] + old(buckets)[MAX_PAGE_NUM]]
    {
      var s := Span(os, MAX_PAGE_NUM, false, true, now);
      PutFree(spans, buckets, meta, s, [meta] + buckets[MAX_PAGE_NUM]);
      MapNewSpan(spans, pages, meta, s);
      spans := spans[meta := s];
      buckets := buckets[MAX_PAGE_NUM := [meta] + buckets[MAX_PAGE_NUM]];
      pages := SetRange(pages, os, MAX_PAGE_NUM, meta);
    }

    /** A span larger than any bucket, straight from the system. */
    method AddOversized(n: nat, os: nat, meta: nat)
      requires Valid() && n > MAX_PAGE_NUM && meta != 0 && meta !in spans && Unmapped(pages, os, n)
      modifies this
      ensures Valid() && held == old(held) + {meta} && detached == old(detached) && buckets == old(buckets)
      ensures spans == old(spans)[meta := Span(os, n, true, true, 0)]
      ensures pages == SetRange(old(pages), os, n, meta)
    {
      var s := Span(os, n, true, true, 0);
      PutUsed(spans, buckets, meta, s);
      MapNewSpan(spans, pages, meta, s);
      spans := spans[meta := s];
      pages := SetRange(pages, os, n, meta);
      held := held + {meta};
    }

    /** Takes a span of `n` pages out of the first bucket that has one large enough. */
    method TakeFitting(n: nat, spanMeta: nat, now: nat) returns (fits: bool, id: nat)
      requires Valid() && 1 <= n <= MAX_PAGE_NUM && spanMeta !in spans
      modifies this
      ensures Valid() && detached == old(detached) && pages.Keys == old(pages.Keys)
      ensures fits <==> FirstFit(old(buckets), n) <= MAX_PAGE_NUM
      ensures !fits ==> spans == old(spans) && buckets == old(buckets) && pages == old(pages)
      ensures id != 0 <==> fits && (FirstFit(old(buckets), n) == n || spanMeta != 0)
      ensures id == 0 ==> held == old(held)
      ensures id != 0 ==> id !in old(held) && held == old(held) + {id} && id in spans
      ensures id != 0 ==> spans[id].num == n && spans[id].committed
      ensures id != 0 ==>
                var first := old(buckets)[FirstFit(old(buckets), n)][0];
                && first in old(spans) && spans[id].start == old(spans)[first].start
                && (FirstFit(old(buckets), n) == n ==> id == first)
      ensures Undisturbed(old(spans), spans, old(held) + old(detached.Keys))
    {
      if buckets[n] != [] {
        FirstFitIs(buckets, n, n);
        assert BucketOk(spans, n, buckets[n]) && SpanOk(spans, buckets, buckets[n][0]);
        id := TakeExact(n);
        return true, id;
      }
      var i := n + 1;
      while i <= MAX_PAGE_NUM && buckets[i] == []
        invariant n + 1 <= i <= MAX_PAGE_NUM + 1
        invariant forall k :: n <= k < i ==> buckets[k] == []
      {
        i := i + 1;
      }
      FirstFitIs(buckets, n, i);
      if i > MAX_PAGE_NUM {
        return false, 0;
      }
      id := Split(n, i, spanMeta, now);
      fits := true;
    }

    /** Allocates a span of `n` pages. `os` is the page the system would return, `refillMeta` and `spanMeta` the
        metadata for a refill and for the span itself; 0 stands for failure of each. The measure shows
        that at most one refill precedes the answer. */
    method AllocSpanLocked(n: nat, os: nat, refillMeta: nat, spanMeta: nat, now: nat) returns (id: nat)
      requires Valid() && refillMeta !in spans && spanMeta !in spans && (refillMeta != 0 ==> refillMeta != spanMeta)
      requires os != 0 ==> Unmapped(pages, os, if n > MAX_PAGE_NUM then n else MAX_PAGE_NUM)
      modifies this
      ensures Valid() && detached == old(detached)
      ensures id != 0 <==> old(CanAlloc(buckets, n, os, refillMeta, spanMeta))
      ensures Undisturbed(old(spans), spans, old(held) + old(detached.Keys))
      ensures id == 0 ==> held == old(held)
      ensures id != 0 ==> id !in old(held) && held == old(held) + {id} && id in spans
      ensures id != 0 ==> spans[id].num == n && spans[id].committed
      ensures id != 0 && n <= MAX_PAGE_NUM ==>
                var i := FirstFit(old(buckets), n);
                && (i == n ==> id == old(buckets)[n][0] && spans[id].start == old(spans)[id].start)
                && (n < i <= MAX_PAGE_NUM ==> old(buckets)[i][0] in old(spans) &&
                                              spans[id].start == old(spans)[old(buckets)[i][0]].start)
                && (i > MAX_PAGE_NUM ==> spans[id].start == os)
      ensures id != 0 && n > MAX_PAGE_NUM ==> spans[id].start == os
      ensures || pages.Keys == old(pages.Keys)
              || (os != 0 && pages.Keys == old(pages.Keys) + Range(os, if n > MAX_PAGE_NUM then n else MAX_PAGE_NUM))
    {
      if n == 0 || n > MAX_REQUEST {
        return 0;
      }
      if n > MAX_PAGE_NUM {
        if os == 0 || spanMeta == 0 {
          return 0;
        }
        AddOversized(n, os, spanMeta);
        return spanMeta;
      }
      id := AllocCached(n, os, refillMeta, spanMeta, now);
    }

    /** Requests that a bucket may serve: take a span that fits, or refill and try again. */
    method AllocCached(n: nat, os: nat, refillMeta: nat, spanMeta: nat, now: nat) returns (id: nat)
      requires Valid() && refillMeta !in spans && spanMeta !in spans && (refillMeta != 0 ==> refillMeta != spanMeta)
      requires 1 <= n <= MAX_PAGE_NUM && (os != 0 ==> Unmapped(pages, os, MAX_PAGE_NUM))
      modifies this
      ensures Valid() && detached == old(detached)
      ensures id != 0 <==> old(CanAlloc(buckets, n, os, refillMeta, spanMeta))
      ensures Undisturbed(old(spans), spans, old(held) + old(detached.Keys))
      ensures id == 0 ==> held == old(held)
      ensures id != 0 ==> id !in old(held) && held == old(held) + {id} && id in spans
      ensures id != 0 ==> spans[id].num == n && spans[id].committed
      ensures id != 0 ==>
                var i := FirstFit(old(buckets), n);
                && (i == n ==> id == old(buckets)[n][0] && spans[id].start == old(spans)[id].start)
                && (n < i <= MAX_PAGE_NUM ==> old(buckets)[i][0] in old(spans) &&
                                              spans[id].start == old(spans)[old(buckets)[i][0]].start)
                && (i > MAX_PAGE_NUM ==> spans[id].start == os)
      ensures pages.Keys == old(pages.Keys) || (os != 0 && pages.Keys == old(pages.Keys) + Range(os, MAX_PAGE_NUM))
    {
      ghost var refills := 0;
      while true
        invariant Valid() && held == old(held) && detached == old(detached) && spanMeta !in spans
        invariant refills == 0 || refills == 1
        invariant refills == 0 ==> spans == old(spans) && buckets == old(buckets) && pages == old(pages)
        invariant refills == 1 ==> os != 0 && refillMeta != 0 && FirstFit(old(buckets), n) > MAX_PAGE_NUM
        invariant refills == 1 ==> RefilledFrom(old(spans), old(buckets), old(pages), os, refillMeta)
        decreases 1 - refills
      {
        if refills == 1 {
          FirstFitAfterRefill(old(buckets), buckets, n, refillMeta);
        }
        var fits;
        fits, id := TakeFitting(n, spanMeta, now);
        if fits {
          return;
        }
        if os == 0 || refillMeta == 0 {
          return 0;
        }
        Refill(os, refillMeta, now);
        refills := refills + 1;
      }
    }

    /** What holds while the span being released grows. */
    ghost predicate Growing(id: nat, before: map<nat, Span>)
      reads this
    {
      && PagesOkExcept(spans, pages, id) && BucketsOk(spans, buckets)
      && id in before && spans[id].used && 1 <= spans[id].num <= MAX_PAGE_NUM
      && AbsorbedInto(before, spans, id)
      && CoversAtLeast(before, spans, id)
    }

    /** Merges the free neighbour `x` into `id`. */
    method Absorb(id: nat, x: nat, s: Span, ghost before: map<nat, Span>)
      requires Growing(id, before) && x in spans && x != id && !spans[x].used
      requires s.used && s.num == spans[id].num + spans[x].num <= MAX_PAGE_NUM
      requires || (spans[x].start + spans[x].num == spans[id].start == s.start + spans[x].num)
               || (spans[id].start + spans[id].num == spans[x].start && s.start == spans[id].start)
      modifies this`spans, this`buckets
      ensures Growing(id, before) && spans == (old(spans) - {x})[id := s] && s.num > old(spans[id]).num
    {
      assert SpanOk(spans, buckets, id) && SpanOk(spans, buckets, x);
      MergeKeepsPages(spans, pages, id, x, s);
      MergeKeepsBuckets(spans, buckets, id, x, s);
      AbsorbMore(before, spans, id, x, s);
      buckets := buckets[spans[x].num := Erase(buckets[spans[x].num], x)];
      spans := (spans - {x})[id := s];
    }

    method MergeLeft(id: nat, ghost before: map<nat, Span>)
      requires Growing(id, before)
      modifies this`spans, this`buckets
      ensures Growing(id, before) && LeftSettled(spans, pages, id)
    {
      while true
        invariant Growing(id, before)
        decreases MAX_PAGE_NUM - spans[id].num
      {
        if spans[id].start == 0 {
          break;
        }
        var q := spans[id].start - 1;
        if q !in pages {
          break;
        }
        var x := pages[q];
        NeighbourAdjoins(spans, pages, id, q);
        if spans[x].used || spans[id].num + spans[x].num > MAX_PAGE_NUM {
          break;
        }
        Absorb(id, x, spans[id].(start := spans[x].start, num := spans[id].num + spans[x].num), before);
      }
    }

    method MergeRight(id: nat, ghost before: map<nat, Span>)
      requires Growing(id, before) && LeftSettled(spans, pages, id)
      modifies this`spans, this`buckets
      ensures Growing(id, before) && LeftSettled(spans, pages, id) && RightSettled(spans, pages, id)
    {
      var settled := false;
      while !settled
        invariant Growing(id, before) && LeftSettled(spans, pages, id)
        invariant settled ==> RightSettled(spans, pages, id)
        decreases !settled, MAX_PAGE_NUM - spans[id].num
      {
        settled := StepRight(id, before);
      }
    }

    method StepRight(id: nat, ghost before: map<nat, Span>) returns (settled: bool)
      requires Growing(id, before) && LeftSettled(spans, pages, id)
      modifies this`spans, this`buckets
      ensures Growing(id, before) && LeftSettled(spans, pages, id)
      ensures if settled then RightSettled(spans, pages, id) else spans[id].num > old(spans[id].num)
    {
      var q := spans[id].start + spans[id].num;
      if q !in pages {
        return true;
      }
      var x := pages[q];
      NeighbourAdjoins(spans, pages, id, q);
      if spans[x].used || spans[id].num + spans[x].num > MAX_PAGE_NUM {
        return true;
      }
      var s := spans[id].(num := spans[id].num + spans[x].num);
      GrowthKeepsLeft(spans, pages, id, x, s);
      Absorb(id, x, s, before);
      settled := false;
    }

    /** Takes a span back from its caller, coalescing it with free neighbours within the page limit. */
    method ReleaseSpanLocked(id: nat, now: nat)
      requires Valid() && id in held
      modifies this
      ensures Valid() && held == old(held) - {id} && detached == old(detached)
      ensures Undisturbed(old(spans), spans, old(held) + old(detached.Keys) - {id})
      ensures old(spans[id]).num > MAX_PAGE_NUM ==>
                && spans == old(spans) - {id} && buckets == old(buckets)
                && pages.Keys == old(pages.Keys) - Range(old(spans[id]).start, old(spans[id]).num)
      ensures old(spans[id]).num <= MAX_PAGE_NUM ==>
                && pages.Keys == old(pages.Keys)
                && id in spans && !spans[id].used && AbsorbedInto(old(spans), spans, id)
                && IsUnion(old(spans), spans, id)
                && buckets[spans[id].num] != [] && buckets[spans[id].num][0] == id
                && LeftSettled(spans, pages, id) && RightSettled(spans, pages, id)
    {
      if spans[id].num > MAX_PAGE_NUM {
        ReleaseOversized(id);
      } else {
        Coalesce(id, now);
      }
    }

    /** A span that fits a bucket absorbs its free neighbours and is freed. */
    method Coalesce(id: nat, now: nat)
      requires Valid() && id in held && spans[id].num <= MAX_PAGE_NUM
      modifies this
      ensures Valid() && held == old(held) - {id} && detached == old(detached) && pages.Keys == old(pages.Keys)
      ensures Undisturbed(old(spans), spans, old(held) + old(detached.Keys) - {id})
      ensures id in spans && !spans[id].used && AbsorbedInto(old(spans), spans, id) && IsUnion(old(spans), spans, id)
      ensures buckets[spans[id].num] != [] && buckets[spans[id].num][0] == id
      ensures LeftSettled(spans, pages, id) && RightSettled(spans, pages, id)
    {
      ghost var before := spans;
      assert SpanOk(spans, buckets, id);
      StartGrowing(spans, pages, id);
      MergeLeft(id, before);
      MergeRight(id, before);
      FreeGrown(id, before, now);
    }

    /** A span larger than any bucket goes straight back to the system. */
    method ReleaseOversized(id: nat)
      requires Valid() && id in held && spans[id].num > MAX_PAGE_NUM
      modifies this
      ensures Valid() && held == old(held) - {id} && detached == old(detached) && buckets == old(buckets)
      ensures spans == old(spans) - {id}
      ensures pages.Keys == old(pages.Keys) - Range(old(spans[id]).start, old(spans[id]).num)
    {
      UnmapSpan(spans, pages, id);
      DropUsed(spans, buckets, id);
      pages := ClearRange(pages, spans[id].start, spans[id].num);
      spans := spans - {id};
      held := held - {id};
    }

    /** The coalesced span goes to the front of its bucket and its mappings are rewritten. */
    method FreeGrown(id: nat, ghost before: map<nat, Span>, now: nat)
      requires Growing(id, before) && id in held && UseOk(before, held, detached) && PagesOk(before, pages)
      requires LeftSettled(spans, pages, id) && RightSettled(spans, pages, id)
      modifies this`spans, this`buckets, this`pages, this`held
      ensures Valid() && held == old(held) - {id} && pages.Keys == old(pages.Keys)
      ensures Undisturbed(before, spans, old(held) + detached.Keys - {id})
      ensures id in spans && !spans[id].used && AbsorbedInto(before, spans, id) && IsUnion(before, spans, id)
      ensures buckets[spans[id].num] != [] && buckets[spans[id].num][0] == id
      ensures LeftSettled(spans, pages, id) && RightSettled(spans, pages, id)
    {
      var s := spans[id].(used := false, committed := true, lastUsed := now);
      assert SpanOk(spans, buckets, id);
      var spans', pages' := spans[id := s], SetRange(pages, s.start, s.num, id);
      var buckets' := buckets[s.num := [id] + buckets[s.num]];
      PutFree(spans, buckets, id, s, [id] + buckets[s.num]);
      GrownBecomesFree(before, spans, pages, held, detached, id, s);
      Install(spans', buckets', pages', held - {id});
    }

    // ----- The scavenger -----

    /** First locked region: takes the committed spans idle for `threshold` out of bucket `i`. `corrupt` reports
        a used span in the free list; times are 64-bit, so their difference wraps. */
    method ScavengeDetach(i: nat, now: nat, threshold: nat) returns (list: seq<nat>, corrupt: bool)
      requires Valid() && 1 <= i <= MAX_PAGE_NUM
      modifies this
      ensures Valid() && held == old(held) && pages == old(pages) && !corrupt
      ensures NoDuplicates(list) && forall x :: x in list <==> x in detached && x !in old(detached)
      ensures forall x :: x in old(detached) ==> x in detached && detached[x] == old(detached)[x]
      ensures forall x :: x in list ==> detached[x] == i
      ensures forall x :: x in list <==> x in old(buckets[i]) && x in old(spans) &&
                                         IsIdle(old(spans)[x], now, threshold)
      ensures Undisturbed(old(spans), spans, old(spans.Keys) - (set x | x in list))
    {
      list, corrupt := [], false;
      var snapshot := buckets[i];
      assert BucketOk(spans, i, buckets[i]);
      for k := 0 to |snapshot|
        invariant Valid() && held == old(held) && pages == old(pages) && !corrupt
        invariant Scavenging(old(spans), old(detached), spans, detached, buckets[i], list, i, snapshot, k, now,
                  threshold)
      {
        list, corrupt := ScavengeOne(i, snapshot, k, now, threshold, list, old(spans), old(detached));
      }
    }

    method ScavengeOne(i: nat, snapshot: seq<nat>, k: nat, now: nat, threshold: nat, list: seq<nat>,
                       ghost spans0: map<nat, Span>, ghost detached0: map<nat, nat>)
      returns (list': seq<nat>, corrupt: bool)
      requires Valid() && 1 <= i <= MAX_PAGE_NUM && k < |snapshot|
      requires Scavenging(spans0, detached0, spans, detached, buckets[i], list, i, snapshot, k, now, threshold)
      modifies this
      ensures Valid() && held == old(held) && pages == old(pages) && !corrupt
      ensures Scavenging(spans0, detached0, spans, detached, buckets[i], list', i, snapshot, k + 1, now, threshold)
    {
      var cur := snapshot[k];
      assert BucketOk(spans, i, buckets[i]);
      NotYetTaken(spans0, detached0, spans, detached, buckets[i], list, i, snapshot, k, now, threshold);
      if spans[cur].used {
        return list, true;
      }
      list', corrupt := list, false;
      if IsIdle(spans[cur], now, threshold) {
        ghost var spans1, detached1, bucket1 := spans, detached, buckets[i];
        DetachOne(i, cur);
        list' := list + [cur];
        ScavengeTakes(spans0, detached0, spans1, detached1, bucket1, buckets[i], list, i, snapshot, k, now, threshold);
      } else {
        ScavengePasses(spans0, detached0, spans, detached, buckets[i], list, i, snapshot, k, now, threshold);
      }
    }

    method DetachOne(i: nat, cur: nat)
      requires Valid() && 1 <= i <= MAX_PAGE_NUM && cur in buckets[i]
      modifies this
      ensures Valid() && held == old(held) && pages == old(pages)
      ensures old(cur in spans) && cur !in old(detached) && detached == old(detached)[cur := i]
      ensures spans == old(spans)[cur := old(spans)[cur].(used := true)]
      ensures forall y :: y in buckets[i] <==> y in old(buckets[i]) && y != cur
    {
      assert BucketOk(spans, i, buckets[i]);
      assert SpanOk(spans, buckets, cur);
      var s := spans[cur].(used := true);
      EraseRemoves(buckets[i], cur);
      TakeFree(spans, buckets, cur, s);
      MapFlags(spans, pages, cur, s);
      buckets := buckets[i := Erase(buckets[i], cur)];
      spans := spans[cur := s];
      detached := detached[cur := i];
    }

    /** Outside the lock: the system drops the memory of one detached span. */
    method ScavengeRelease(x: nat, dropped: bool)
      requires Valid() && x in detached
      modifies this`spans
      ensures Valid()
      ensures spans == old(spans)[x := old(spans)[x].(committed := if dropped then false else old(spans)[x].committed)]
    {
      if dropped {
        var s := spans[x].(committed := false);
        assert SpanOk(spans, buckets, x);
        PutUsed(spans, buckets, x, s);
        MapFlags(spans, pages, x, s);
        spans := spans[x := s];
      }
      assert spans == old(spans)[x := spans[x]];
    }

    /** Second locked region: puts one detached span back at the end of its bucket. */
    method ScavengeReattach(i: nat, x: nat, now: nat)
      requires Valid() && x in detached && detached[x] == i && i <= MAX_PAGE_NUM
      modifies this
      ensures Valid() && held == old(held) && pages == old(pages) && detached == old(detached) - {x}
      ensures spans == old(spans)[x := old(spans)[x].(used := false, lastUsed := now)]
      ensures buckets == old(buckets)[i := old(buckets)[i] + [x]]
    {
      var s := spans[x].(used := false, lastUsed := now);
      assert SpanOk(spans, buckets, x);
      PutFree(spans, buckets, x, s, buckets[i] + [x]);
      MapFlags(spans, pages, x, s);
      spans := spans[x := s];
      buckets := buckets[i := buckets[i] + [x]];
      detached := detached - {x};
    }

    /** The shard is what it was plus one free span of the largest size at `os`. */
    ghost predicate RefilledFrom(spans0: map<nat, Span>, buckets0: seq<seq<nat>>, pages0: map<nat, nat>, os: nat,
                                 meta: nat)
      reads this
    {
      && |buckets0| == |buckets| == MAX_PAGE_NUM + 1
      && meta in spans && spans[meta].start == os && spans[meta].num == MAX_PAGE_NUM && !spans[meta].used
      && spans == spans0[meta := spans[meta]] && meta !in spans0
      && pages.Keys == pages0.Keys + Range(os, MAX_PAGE_NUM)
      && buckets == buckets0[MAX_PAGE_NUM := [meta] + buckets0[MAX_PAGE_NUM]]
    }
  }

  lemma FirstFitAfterRefill(before: seq<seq<nat>>, after: seq<seq<nat>>, n: nat, meta: nat)
    requires |before| == |after| == MAX_PAGE_NUM + 1 && n <= MAX_PAGE_NUM && FirstFit(before, n) > MAX_PAGE_NUM
    requires after == before[MAX_PAGE_NUM := [meta] + before[MAX_PAGE_NUM]]
    ensures FirstFit(after, n) == MAX_PAGE_NUM && after[MAX_PAGE_NUM] == [meta]
  {
    assert before[MAX_PAGE_NUM] == [];
    FirstFitIs(after, n, MAX_PAGE_NUM);
  }

  lemma SplitKeepsUse(spans: map<nat, Span>, held: set<nat>, detached: map<nat, nat>, bigId: nat, meta: nat, s: Span,
                      b: Span)
    requires UseOk(spans, held, detached) && bigId in spans && !spans[bigId].used && meta !in spans && s.used && !b.used
    ensures UseOk(spans[meta := s][bigId := b], held + {meta}, detached)
    ensures forall x :: x in spans && spans[x].used ==> spans[meta := s][bigId := b][x] == spans[x]
  {
  }

  lemma SplitKeepsStructure(spans: map<nat, Span>, buckets: seq<seq<nat>>, pages: map<nat, nat>,
                            bigId: nat, meta: nat, s: Span, b: Span)
    requires PagesOk(spans, pages) && BucketsOk(spans, buckets) && bigId in spans && !spans[bigId].used
    requires meta != 0 && meta !in spans && 1 <= s.num < spans[bigId].num && s.used && !b.used
    requires buckets[spans[bigId].num] != [] && buckets[spans[bigId].num][0] == bigId
    requires s.start == spans[bigId].start && b.start == s.start + s.num && b.num == spans[bigId].num - s.num
    ensures PagesOk(spans[meta := s][bigId := b],
            SetRange(SetRange(pages, s.start, s.num, meta), b.start, b.num, bigId))
    ensures SetRange(SetRange(pages, s.start, s.num, meta), b.start, b.num, bigId).Keys == pages.Keys
    ensures var popped := buckets[spans[bigId].num := buckets[spans[bigId].num][1..]];
      BucketsOk(spans[meta := s][bigId := b], popped[b.num := [bigId] + popped[b.num]])
  {
    var i := spans[bigId].num;
    var popped := buckets[i := buckets[i][1..]];
    assert SpanOk(spans, buckets, bigId);
    MapSplit(spans, pages, bigId, meta, s.num, b, s);
    EraseHead(buckets[i]);
    var marked := spans[bigId := spans[bigId].(used := true)];
    TakeFree(spans, buckets, bigId, spans[bigId].(used := true));
    PutUsed(marked, popped, meta, s);
    PutFree(marked[meta := s], popped, bigId, b, [bigId] + popped[b.num]);
    assert marked[meta := s][bigId := b] == spans[meta := s][bigId := b];
  }
}
