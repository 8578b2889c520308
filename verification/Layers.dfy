/** How the layers of the allocator fit together. The page cache uses the radix page map through its map view, and
    the object flow uses span bitmaps through their sets of free objects; here the operations of the lower layer are
    shown to do on that view what the upper layer takes them to do. */
module Layers {
  import RadixPageMap
  import PageCacheShard
  import SpanBitmap
  import ObjectFlow

  // ----- The radix page map under the page cache -----

  /** The tree holds exactly the mappings of `pages`; null stands for no mapping. */
  ghost predicate Holds(tree: RadixPageMap.PageMap, pages: map<nat, nat>)
    reads tree
  {
    tree.Valid() && forall p: nat :: tree.View(p) == if p in pages then pages[p] else 0
  }

  method SetSpan(tree: RadixPageMap.PageMap, ghost pages: map<nat, nat>, start: nat, num: nat, id: nat)
    requires Holds(tree, pages) && start + num <= RadixPageMap.PAGE_LIMIT
    modifies tree
    ensures Holds(tree, PageCacheShard.SetRange(pages, start, num, id))
  {
    tree.SetSpan(id, start, num);
  }

  method ClearRange(tree: RadixPageMap.PageMap, ghost pages: map<nat, nat>, start: nat, num: nat)
    requires Holds(tree, pages) && start + num <= RadixPageMap.PAGE_LIMIT
    modifies tree
    ensures Holds(tree, PageCacheShard.ClearRange(pages, start, num))
  {
    tree.ClearRange(start, num);
  }

  /** With the mappings of a shard in the tree, a lookup finds the one live span that covers the page, or none. */
  method FindSpan(tree: RadixPageMap.PageMap, shard: PageCacheShard.Shard, p: nat) returns (id: nat)
    requires shard.Valid() && Holds(tree, shard.pages)
    ensures forall x :: PageCacheShard.Covers(shard.spans, x, p) <==> x == id && id != 0
  {
    id := tree.GetSpan(p);
    if p in shard.pages {
      assert PageCacheShard.Covers(shard.spans, shard.pages[p], p);
      assert PageCacheShard.SpanOk(shard.spans, shard.buckets, shard.pages[p]);
    }
  }

  // ----- Span bitmaps under the object flow -----

  ghost function StateOf(span: SpanBitmap.Span): ObjectFlow.SpanState
    requires span.Valid()
    reads span
  {
    ObjectFlow.SpanState(span.FreeObjects(), span.capacity, span.useCount)
  }

  /** Span `id` of the flow is `span`. */
  ghost predicate Stands(span: SpanBitmap.Span, s: ObjectFlow.State, id: nat)
    reads span
  {
    span.Valid() && id in s.spans && s.spans[id] == StateOf(span)
  }

  /** Allocating from the first span is the flow's extraction of the lowest free object; a failure is the flow's
      sign to rotate. */
  method Extract(span: SpanBitmap.Span, ghost s: ObjectFlow.State, ghost t: nat, ghost forPrefetch: bool)
    returns (found: bool, ptr: nat, ghost index: nat)
    requires t < |s.threads| && s.list != [] && Stands(span, s, s.list[0])
    modifies span
    ensures found ==> ptr == span.AddressOf(index) && ObjectFlow.Enabled(s, t, ObjectFlow.Extract(index, forPrefetch))
    ensures found ==> Stands(span, ObjectFlow.Apply(s, t, ObjectFlow.Extract(index, forPrefetch)), s.list[0])
    ensures !found ==> ObjectFlow.Enabled(s, t, ObjectFlow.Rotate)
    ensures !found ==> Stands(span, ObjectFlow.Apply(s, t, ObjectFlow.Rotate), s.list[0])
  {
    found, ptr, index := span.AllocObject();
  }

  /** Giving an object back to its bitmap is the flow's return of it, and meets the bitmap's condition. */
  method ReturnToSpan(span: SpanBitmap.Span, ghost s: ObjectFlow.State, ghost t: nat, ptr: nat)
    requires ObjectFlow.Inv(s) && ObjectFlow.Enabled(s, t, ObjectFlow.ReturnToSpan)
    requires var o := s.threads[t].returning[0];
      Stands(span, s, o.span) && ptr == span.AddressOf(o.index)
    modifies span
    ensures Stands(span, ObjectFlow.Apply(s, t, ObjectFlow.ReturnToSpan), s.threads[t].returning[0].span)
  {
    ghost var o := s.threads[t].returning[0];
    ObjectFlow.ReturningObjectIsOut(s, t);
    span.FreeObject(ptr, o.index);
  }

  /** A span just initialized is what the flow adds. */
  lemma FreshSpan(span: SpanBitmap.Span, s: ObjectFlow.State, t: nat, id: nat)
    requires span.Valid() && span.useCount == 0 && span.FreeObjects() == SpanBitmap.Below(span.capacity)
    requires ObjectFlow.Enabled(s, t, ObjectFlow.AddSpan(id, span.capacity))
    ensures Stands(span, ObjectFlow.Apply(s, t, ObjectFlow.AddSpan(id, span.capacity)), id)
  {
  }
}
