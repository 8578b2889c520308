/** The small-string-optimized core of the char string. Short strings live inside the 24 bytes of the
    object, whose last byte is both the terminator of a full string and the size tag; longer ones live on
    the heap, and the same byte then holds the category bits of the packed capacity (little endian). */
module StringCore {
  import opened StringGrowth

  type Byte = b: int | 0 <= b < 256

  const STORAGE_BYTES: nat := 24
  const TOP_BYTE: nat := 0x100_0000_0000_0000       // 2^56
  const EXTERNAL_TAG: nat := 0x8000_0000_0000_0000  // 0x80 in the top byte
  const PAYLOAD_RANGE: nat := 0x4000_0000_0000_0000 // 2^62

  datatype Category = IsSmall | IsExternal | IsInvalid

  /** The storage union: inline bytes, or a heap buffer with size and packed capacity. */
  datatype Rep = Inline(bytes: seq<Byte>) | Heap(buffer: seq<Byte>, size: nat, capTag: nat)

  function PackCapacityWithTag(capacity: nat): nat { capacity + EXTERNAL_TAG }
  function UnpackCapacity(capTag: nat): nat { capTag % PAYLOAD_RANGE }

  /** The last byte of the storage. */
  function Probe(r: Rep): int
    requires r.Inline? ==> |r.bytes| == STORAGE_BYTES
  {
    if r.Inline? then r.bytes[STORAGE_BYTES - 1] else r.capTag / TOP_BYTE
  }

  datatype DecodedProbe = DecodedProbe(category: Category, size: int, capacity: int)

  /** What the last byte alone says about the storage. */
  function DecodeProbe(r: Rep): DecodedProbe
    requires r.Inline? ==> |r.bytes| == STORAGE_BYTES
  {
    var probe := Probe(r);
    if probe < STORAGE_BYTES then DecodedProbe(IsSmall, SMALL_CAPACITY - probe, SMALL_CAPACITY)
    else if 0x80 <= probe < 0xC0 && r.Heap? then DecodedProbe(IsExternal, r.size, UnpackCapacity(r.capTag))
    else DecodedProbe(IsInvalid, 0, 0)
  }

  /** Packing keeps the capacity and marks the storage as external, whatever the capacity. */
  lemma PackedCapacityRoundTrip(r: Rep, capacity: nat)
    requires r.Heap? && r.capTag == PackCapacityWithTag(capacity) && capacity <= MAX_CAPACITY
    ensures UnpackCapacity(r.capTag) == capacity
    ensures DecodeProbe(r) == DecodedProbe(IsExternal, r.size, capacity)
  {
    assert r.capTag / TOP_BYTE >= 0x80 && r.capTag / TOP_BYTE < 0xC0;
    assert EXTERNAL_TAG == 2 * PAYLOAD_RANGE;
  }

  /** The buffer is of the kind the tag says, with room for the capacity and the terminator. */
  ghost predicate Shaped(r: Rep)
  {
    match r
    case Inline(bytes) => |bytes| == STORAGE_BYTES && bytes[STORAGE_BYTES - 1] < STORAGE_BYTES
    case Heap(buffer, size, capTag) => |buffer| > 0 && HeapShaped(|buffer| - 1, size, capTag)
  }

  ghost predicate HeapShaped(cap: nat, size: nat, capTag: nat)
  {
    SMALL_CAPACITY < cap <= MAX_CAPACITY && capTag == PackCapacityWithTag(cap) && size <= cap
  }

  function Buffer(r: Rep): seq<Byte> { if r.Inline? then r.bytes else r.buffer }

  function WithBuffer(r: Rep, b: seq<Byte>): Rep
  {
    if r.Inline? then Inline(b) else r.(buffer := b)
  }

  function SizeOf(r: Rep): nat
    requires Shaped(r)
  {
    if r.Inline? then SMALL_CAPACITY - r.bytes[STORAGE_BYTES - 1] else r.size
  }

  function CapacityOf(r: Rep): nat
    requires Shaped(r)
  {
    |Buffer(r)| - 1
  }

  /** The decoder agrees with the shape. */
  lemma DecoderAgrees(r: Rep)
    requires Shaped(r)
    ensures DecodeProbe(r) == DecodedProbe(if r.Inline? then IsSmall else IsExternal, SizeOf(r), CapacityOf(r))
  {
    if r.Heap? {
      PackedCapacityRoundTrip(r, |r.buffer| - 1);
    }
  }

  ghost predicate ValidRep(r: Rep)
  {
    Shaped(r) && Buffer(r)[SizeOf(r)] == 0
  }

  function ContentsOf(r: Rep): seq<Byte>
    requires Shaped(r)
  {
    Buffer(r)[..SizeOf(r)]
  }

  // ----- Memory -----

  /** `memmove` inside one buffer. */
  function Move(b: seq<Byte>, dst: nat, src: nat, n: nat): (r: seq<Byte>)
    requires dst + n <= |b| && src + n <= |b|
    ensures |r| == |b|
  {
    b[..dst] + b[src..src + n] + b[dst + n..]
  }

  /** `memcpy` from another buffer. */
  function Copy(b: seq<Byte>, dst: nat, src: seq<Byte>): (r: seq<Byte>)
    requires dst + |src| <= |b|
    ensures |r| == |b|
  {
    b[..dst] + src + b[dst + |src|..]
  }

  function Splice(s: seq<Byte>, pos: nat, erased: nat, src: seq<Byte>): seq<Byte>
    requires pos + erased <= |s|
  {
    s[..pos] + src + s[pos + erased..]
  }

  // ----- Setting the size -----

  function Resized(r: Rep, n: nat): Rep
    requires Shaped(r) && n <= CapacityOf(r)
  {
    if r.Inline? then Inline(r.bytes[n := 0][STORAGE_BYTES - 1 := SMALL_CAPACITY - n])
    else Heap(r.buffer[n := 0], n, r.capTag)
  }

  /** Setting the size keeps the bytes before it and writes terminator and tag, also where they coincide. */
  lemma ResizedIsValid(r: Rep, n: nat)
    requires Shaped(r) && n <= CapacityOf(r)
    ensures ValidRep(Resized(r, n)) && ContentsOf(Resized(r, n)) == Buffer(r)[..n]
    ensures CapacityOf(Resized(r, n)) == CapacityOf(r)
  {
  }

  // ----- In-place edits -----

  /** An edit of the buffer that ends with the terminator keeps the storage decodable. */
  lemma EditKeepsShape(r: Rep, b: seq<Byte>)
    requires Shaped(r) && |b| == |Buffer(r)|
    requires r.Inline? ==> b[STORAGE_BYTES - 1] < STORAGE_BYTES
    ensures Shaped(WithBuffer(r, b)) && CapacityOf(WithBuffer(r, b)) == CapacityOf(r) && Buffer(WithBuffer(r, b)) == b
  {
  }

  /** Opening or closing the gap: the tail and its terminator move to `pos + count`. */
  lemma TailMoves(r: Rep, pos: nat, erased: nat, count: nat)
    requires ValidRep(r) && pos + erased <= SizeOf(r) && SizeOf(r) - erased + count <= CapacityOf(r)
    ensures var size := SizeOf(r);
      var b := Move(Buffer(r), pos + count, pos + erased, size - (pos + erased) + 1);
      && b[pos + count..size - erased + count] == Buffer(r)[pos + erased..size]
      && b[size - erased + count] == 0
      && b[..pos + count] == Buffer(r)[..pos + count]
      && (r.Inline? ==> b[STORAGE_BYTES - 1] < STORAGE_BYTES)
  {
    var size := SizeOf(r);
    var n := size - (pos + erased);
    StretchMoves(Buffer(r), pos + count, pos + erased, n);
  }

  /** Moving a stretch and the byte after it. */
  lemma StretchMoves(b: seq<Byte>, dst: nat, src: nat, n: nat)
    requires dst + n < |b| && src + n < |b|
    ensures var c := Move(b, dst, src, n + 1);
      && c[dst..dst + n] == b[src..src + n] && c[dst + n] == b[src + n] && c[..dst] == b[..dst]
      && (dst + n + 1 < |b| ==> c[|b| - 1] == b[|b| - 1])
  {
    var c := Move(b, dst, src, n + 1);
    assert c[dst..dst + n + 1] == b[src..src + n + 1];
    assert c[dst..dst + n] == c[dst..dst + n + 1][..n] && b[src..src + n] == b[src..src + n + 1][..n];
    assert c[dst + n] == c[dst..dst + n + 1][n];
  }

  /** The gap between the kept prefix and the moved tail is filled with `src`. */
  lemma FillGap(s: seq<Byte>, b: seq<Byte>, pos: nat, erased: nat, src: seq<Byte>)
    requires pos + erased <= |s| && |s| - erased + |src| <= |b|
    requires b[..pos] == s[..pos] && b[pos + |src|..|s| - erased + |src|] == s[pos + erased..]
    ensures Copy(b, pos, src)[..|s| - erased + |src|] == Splice(s, pos, erased, src)
  {
    var n := |s| - erased + |src|;
    var c := Copy(b, pos, src);
    assert c[..n] == b[..pos] + src + b[pos + |src|..n];
  }

  // ----- Sources -----

  /** What a `const char*` and a count may denote: bytes elsewhere, or a stretch of the string's own buffer up
      to and including its terminator. */
  datatype Source = Foreign(bytes: seq<Byte>) | Own(offset: nat, count: nat)

  ghost predicate Readable(r: Rep, src: Source)
    requires Shaped(r)
  {
    src.Own? ==> src.offset + src.count <= SizeOf(r) + 1
  }

  function Count(src: Source): nat { if src.Own? then src.count else |src.bytes| }

  /** The bytes denoted before the operation. */
  function SourceBytes(r: Rep, src: Source): seq<Byte>
    requires Shaped(r) && Readable(r, src)
  {
    if src.Own? then Buffer(r)[src.offset..src.offset + src.count] else src.bytes
  }

  /** A proper stretch of the string's own content that runs on to the terminator, when the string has to
      reallocate. The copy of the old content does not include the terminator, so the last byte is then read from
      where it is written to: from fresh memory, by a copy that must not overlap. */
  predicate TakesTerminatorAndGrows(r: Rep, src: Source)
    requires Shaped(r)
  {
    src.Own? && src.offset < SizeOf(r) && src.offset + src.count == SizeOf(r) + 1
        && SizeOf(r) + src.count > CapacityOf(r)
  }

  /** What an append leaves: the old content and the source's bytes, except that such a source's last byte comes
      out as `stray`, which may be anything. The terminator alone, appended within the capacity, is also copied
      between ranges that overlap, but they are one and the same byte: whatever is stored there was read there, so
      it stays 0. */
  ghost function Appended(r: Rep, src: Source, stray: Byte): seq<Byte>
    requires Shaped(r) && Readable(r, src)
  {
    if TakesTerminatorAndGrows(r, src) then ContentsOf(r) + ContentsOf(r)[src.offset..] + [stray]
    else ContentsOf(r) + SourceBytes(r, src)
  }

  /** An append is sure to be a concatenation exactly when the source is not of that kind. */
  lemma AppendIsExactIff(r: Rep, src: Source)
    requires ValidRep(r) && Readable(r, src)
    ensures (forall stray: Byte :: Appended(r, src, stray) == ContentsOf(r) + SourceBytes(r, src)) <==>
              !TakesTerminatorAndGrows(r, src)
  {
    if TakesTerminatorAndGrows(r, src) {
      var s, bytes, stray: Byte := ContentsOf(r), SourceBytes(r, src), 1;
      var last := |s| + src.count - 1;
      assert (s + bytes)[last] == bytes[src.count - 1] == 0;
      assert Appended(r, src, stray)[last] == 1;
    }
  }

  /** A full inline string appended to itself with its terminator. */
  lemma AppendMayTakeStrayByte(stray: Byte)
    ensures var r := Inline(seq(STORAGE_BYTES, i => if i == STORAGE_BYTES - 1 then 0 else 7));
      && ValidRep(r) && Readable(r, Own(0, 24)) && TakesTerminatorAndGrows(r, Own(0, 24))
      && Appended(r, Own(0, 24), stray)[46] == stray && (ContentsOf(r) + SourceBytes(r, Own(0, 24)))[46] == 0
  {
  }

  class BasicStringCore {
    var rep: Rep

    ghost predicate Valid()
      reads this
    {
      ValidRep(rep)
    }

    ghost function Contents(): seq<Byte>
      reads this
      requires Valid()
    {
      ContentsOf(rep)
    }

    function Capacity(): nat
      reads this
      requires Valid()
    {
      CapacityOf(rep)
    }

    constructor ()
      ensures Valid() && Contents() == [] && Capacity() == SMALL_CAPACITY
    {
      rep := Inline(seq(STORAGE_BYTES, i => if i == STORAGE_BYTES - 1 then SMALL_CAPACITY else 0));
    }

    /** A heap buffer of `newCap` bytes plus terminator, with the old content; `raw` is what fresh memory holds. */
    method Reallocate(newCap: nat, raw: Byte)
      requires Valid() && |Contents()| <= newCap && SMALL_CAPACITY < newCap <= MAX_CAPACITY
      modifies this
      ensures Valid() && Contents() == old(Contents()) && Capacity() == newCap
    {
      var size := SizeOf(rep);
      var block := seq(newCap + 1, _ => raw);
      block := Copy(block, 0, Buffer(rep)[..size]);
      block := block[size := 0];
      rep := Heap(block, size, PackCapacityWithTag(newCap));
      assert Contents() == old(Contents());
    }

    method Reserve(newCap: nat, raw: Byte)
      requires Valid() && newCap <= MAX_CAPACITY
      modifies this
      ensures Valid() && Contents() == old(Contents()) && Capacity() == Max(old(Capacity()), newCap)
    {
      if newCap > CapacityOf(rep) {
        Reallocate(newCap, raw);
      }
    }

    /** Ends an in-place edit: the buffer's first `n` bytes become the content. */
    method Commit(b: seq<Byte>, n: nat)
      requires Shaped(rep) && |b| == |Buffer(rep)| && n <= CapacityOf(rep)
      requires rep.Inline? ==> b[STORAGE_BYTES - 1] < STORAGE_BYTES
      modifies this
      ensures Valid() && Contents() == b[..n] && Capacity() == old(CapacityOf(rep))
    {
      EditKeepsShape(rep, b);
      ResizedIsValid(WithBuffer(rep, b), n);
      rep := Resized(WithBuffer(rep, b), n);
    }

    /** Appends the source's bytes; false reports a capacity error. `stray` is what a copy onto itself leaves. */
    method Append(src: Source, raw: Byte, stray: Byte) returns (ok: bool)
      requires Valid() && Readable(rep, src)
      modifies this
      ensures Valid()
      ensures !ok ==> rep == old(rep)
      ensures var newSize := |old(Contents())| + Count(src);
        !ok <==>
          && Count(src) > 0 && newSize > old(Capacity())
          && (newSize > MAX_CAPACITY || old(Capacity()) > GROWABLE_CAPACITY)
      ensures ok ==> Contents() == Appended(old(rep), src, stray)
    {
      var n := Count(src);
      if n == 0 {
        return true;
      }
      var size := SizeOf(rep);
      var newSize := size + n;
      if newSize > CapacityOf(rep) {
        var cap := CheckedNextCapacity(CapacityOf(rep), newSize);
        GrowthIsEnough(CapacityOf(rep), newSize);
        GrowthFailsIff(CapacityOf(rep), newSize);
        if cap.CapacityError? {
          return false;
        }
        AppendGrowing(src, cap.value, raw, stray);
        return true;
      }
      AppendInPlace(src);
      return true;
    }

    method AppendInPlace(src: Source)
      requires Valid() && Readable(rep, src) && |Contents()| + Count(src) <= Capacity() && Count(src) > 0
      modifies this
      ensures Valid() && Contents() == old(Contents()) + SourceBytes(old(rep), src) && Capacity() == old(Capacity())
    {
      var size, n := SizeOf(rep), Count(src);
      var b := Buffer(rep);
      b := if src.Own? then Move(b, size, src.offset, n) else Copy(b, size, src.bytes);
      assert b[..size + n] == ContentsOf(rep) + SourceBytes(rep, src);
      b := b[size + n := 0];
      Commit(b, size + n);
    }

    method AppendGrowing(src: Source, newCap: nat, raw: Byte, stray: Byte)
      requires Valid() && Readable(rep, src) && Count(src) > 0
      requires Capacity() < |Contents()| + Count(src) <= newCap <= MAX_CAPACITY
      modifies this
      ensures Valid() && Capacity() == newCap
      ensures Contents() == Appended(old(rep), src, stray)
    {
      var size, n := SizeOf(rep), Count(src);
      var block := FreshBlock(newCap, raw, ContentsOf(rep));
      OwnBytesBeforeTerminator(rep, src);
      GrowingResult(ContentsOf(rep), block, src, SourceBytes(rep, src), stray);
      block := AppendToBlock(block, size, src, SourceBytes(rep, src), stray);
      TakeOver(block, size + n, newCap);
    }

    /** Takes over a block from the heap, and writes the terminator. */
    method TakeOver(block: seq<Byte>, size: nat, cap: nat)
      requires |block| == cap + 1 && SMALL_CAPACITY < cap <= MAX_CAPACITY && size <= cap
      modifies this
      ensures Valid() && Contents() == block[..size] && Capacity() == cap
    {
      var ended := block[size := 0];
      assert ended[..size] == block[..size];
      rep := Heap(ended, size, PackCapacityWithTag(cap));
    }

    /** Replaces `erased` bytes at `pos` by the source's bytes, whatever the source overlaps; false reports a
        capacity error, which leaves the string alone. */
    method ReplaceRange(pos: nat, erased: nat, src: Source, raw: Byte) returns (ok: bool)
      requires Valid() && pos + erased <= |Contents()| && Readable(rep, src)
      modifies this
      ensures Valid()
      ensures ok <==> |old(Contents())| - erased + Count(src) <= MAX_CAPACITY
      ensures !ok ==> rep == old(rep)
      ensures ok ==> Contents() == Splice(old(Contents()), pos, erased, SourceBytes(old(rep), src))
    {
      var size, n := SizeOf(rep), Count(src);
      var newSize := size - erased + n;
      if newSize > MAX_CAPACITY {
        return false;
      }
      ok := true;
      if erased == 0 && n == 0 {
        assert Contents() == Splice(Contents(), pos, 0, []);
        return;
      }
      if n == 0 {
        EraseRangeFast(pos, erased);
        return;
      }
      if src.Foreign? {
        if n == erased {
          ReplaceSameSizeFast(pos, src.bytes);
          return;
        }
        if n < erased {
          ReplaceShrinkFast(pos, erased, src.bytes);
          return;
        }
        if newSize <= CapacityOf(rep) {
          ReplaceGrowInplaceFast(pos, erased, src.bytes);
          return;
        }
      }
      ReplaceReallocateSlow(pos, erased, SourceBytes(rep, src), newSize, raw);
    }

    method EraseRangeFast(pos: nat, erased: nat)
      requires Valid() && pos + erased <= |Contents()| && erased > 0
      modifies this
      ensures Valid() && Contents() == Splice(old(Contents()), pos, erased, []) && Capacity() == old(Capacity())
    {
      var size := SizeOf(rep);
      EraseResult(rep, pos, erased);
      var b := Move(Buffer(rep), pos, pos + erased, size - (pos + erased) + 1);
      Commit(b, size - erased);
    }

    method ReplaceSameSizeFast(pos: nat, src: seq<Byte>)
      requires Valid() && pos + |src| <= |Contents()| && src != []
      modifies this
      ensures Valid() && Contents() == Splice(old(Contents()), pos, |src|, src) && Capacity() == old(Capacity())
    {
      var b := Copy(Buffer(rep), pos, src);
      EditKeepsShape(rep, b);
      rep := WithBuffer(rep, b);
      assert Contents() == Splice(old(Contents()), pos, |src|, src);
    }

    /** Fewer bytes than before: copy first, then close the gap. */
    method ReplaceShrinkFast(pos: nat, erased: nat, src: seq<Byte>)
      requires Valid() && pos + erased <= |Contents()| && 0 < |src| < erased
      modifies this
      ensures Valid() && Contents() == Splice(old(Contents()), pos, erased, src) && Capacity() == old(Capacity())
    {
      var size := SizeOf(rep);
      ShrinkResult(rep, pos, erased, src);
      Commit(GapClosed(Buffer(rep), size, pos, erased, src), size - erased + |src|);
    }

    /** More bytes than before: open the gap first, then copy. */
    method ReplaceGrowInplaceFast(pos: nat, erased: nat, src: seq<Byte>)
      requires Valid() && pos + erased <= |Contents()| && |src| > erased
      requires |Contents()| - erased + |src| <= Capacity()
      modifies this
      ensures Valid() && Contents() == Splice(old(Contents()), pos, erased, src) && Capacity() == old(Capacity())
    {
      var size := SizeOf(rep);
      GrowResult(rep, pos, erased, src);
      Commit(GapOpened(Buffer(rep), size, pos, erased, src), size - erased + |src|);
    }

    /** Builds the result in another string and takes over its storage. */
    method ReplaceReallocateSlow(pos: nat, erased: nat, src: seq<Byte>, newSize: nat, raw: Byte)
      requires Valid() && pos + erased <= |Contents()| && newSize == |Contents()| - erased + |src| <= MAX_CAPACITY
      modifies this
      ensures Valid() && Contents() == Splice(old(Contents()), pos, erased, src)
      ensures Capacity() == Max(SMALL_CAPACITY, newSize)
    {
      var content := ContentsOf(rep);
      var tmp := new BasicStringCore();
      tmp.Reserve(newSize, raw);
      tmp.AppendThree(content[..pos], src, content[pos + erased..]);
      rep := tmp.rep;
    }

    method AppendThree(a: seq<Byte>, b: seq<Byte>, c: seq<Byte>)
      requires Valid() && Contents() == [] && |a| + |b| + |c| <= Capacity()
      modifies this
      ensures Valid() && Contents() == a + b + c && Capacity() == old(Capacity())
    {
      AppendWithin(a);
      assert Contents() == a;
      AppendWithin(b);
      AppendWithin(c);
    }

    /** An append for which there is room. */
    method AppendWithin(src: seq<Byte>)
      requires Valid() && |Contents()| + |src| <= Capacity()
      modifies this
      ensures Valid() && Contents() == old(Contents()) + src && Capacity() == old(Capacity())
    {
      if src != [] {
        AppendInPlace(Foreign(src));
      }
    }

    /** Replaces `erased` bytes at `pos` by `count` copies of `ch`. */
    method ReplaceFill(pos: nat, erased: nat, count: nat, ch: Byte, raw: Byte) returns (ok: bool)
      requires Valid() && pos + erased <= |Contents()|
      modifies this
      ensures Valid()
      ensures ok <==> |old(Contents())| - erased + count <= MAX_CAPACITY
      ensures !ok ==> rep == old(rep)
      ensures ok ==> Contents() == Splice(old(Contents()), pos, erased, seq(count, _ => ch))
    {
      var newSize := SizeOf(rep) - erased + count;
      if newSize > MAX_CAPACITY {
        return false;
      }
      ok := true;
      var fill: seq<Byte> := seq(count, _ => ch);
      if erased == 0 && count == 0 {
        assert Contents() == Splice(Contents(), pos, 0, fill);
        return;
      }
      if count == 0 {
        EraseRangeFast(pos, erased);
        assert fill == [];
        return;
      }
      if newSize > CapacityOf(rep) {
        ReplaceReallocateSlow(pos, erased, fill, newSize, raw);
      } else if count == erased {
        ReplaceSameSizeFast(pos, fill);
      } else if count < erased {
        ReplaceShrinkFast(pos, erased, fill);
      } else {
        ReplaceGrowInplaceFast(pos, erased, fill);
      }
    }

    /** Appends one byte; the capacity and the bytes copied follow the growth policy step by step. */
    method PushBack(ch: Byte, raw: Byte, ghost copied: nat) returns (ok: bool, ghost after: Run)
      requires Valid()
      modifies this
      ensures Valid()
      ensures !ok ==> rep == old(rep)
      ensures ok ==> Contents() == old(Contents()) + [ch]
      ensures after == StringGrowth.PushBack(Run(|old(Contents())|, old(Capacity()), copied))
      ensures after.size == |Contents()| && after.cap == Capacity()
    {
      var size := SizeOf(rep);
      ghost var before := Run(size, CapacityOf(rep), copied);
      after := StringGrowth.PushBack(before);
      if size < CapacityOf(rep) {
        PushInPlace(ch);
        return true, after;
      }
      if rep.Inline? {
        GrowAndPush(ch, MinHeapCapacity(size + 1), raw);
        return true, after;
      }
      var cap := CheckedNextCapacity(CapacityOf(rep), size + 1);
      GrowthIsEnough(CapacityOf(rep), size + 1);
      if cap.CapacityError? {
        return false, after;
      }
      GrowAndPush(ch, cap.value, raw);
      ok := true;
    }

    method GrowAndPush(ch: Byte, newCap: nat, raw: Byte)
      requires Valid() && |Contents()| < newCap && SMALL_CAPACITY < newCap <= MAX_CAPACITY
      modifies this
      ensures Valid() && Contents() == old(Contents()) + [ch] && Capacity() == newCap
    {
      Reallocate(newCap, raw);
      PushInPlace(ch);
    }

    method PushInPlace(ch: Byte)
      requires Valid() && |Contents()| < Capacity()
      modifies this
      ensures Valid() && Contents() == old(Contents()) + [ch] && Capacity() == old(Capacity())
    {
      var size := SizeOf(rep);
      var b := Buffer(rep)[size := ch];
      b := b[size + 1 := 0];
      assert b[..size + 1] == ContentsOf(rep) + [ch];
      Commit(b, size + 1);
    }
  }

  /** Appending bytes one by one to an empty string follows the growth run whose copying is bounded. */
  method PushAll(bytes: seq<Byte>, raw: Byte) returns (s: BasicStringCore, ok: bool, ghost copied: nat)
    ensures s.Valid() && (ok ==> s.Contents() == bytes)
    ensures ok <==> PushBacks(|bytes|).size == |bytes|
    ensures |bytes| <= GROWABLE_CAPACITY + 1 ==> ok
    ensures ok ==> s.Capacity() == PushBacks(|bytes|).cap && copied == PushBacks(|bytes|).copied
    ensures ok && bytes != [] ==> copied < 5 * |bytes|
  {
    ghost var pushed, run;
    s, ok, pushed, run := PushEach(bytes, raw);
    copied := run.copied;
    PushBacksAreLinear(|bytes|);
    if |bytes| <= GROWABLE_CAPACITY + 1 {
      PushBacksSucceed(|bytes|);
    }
    if !ok {
      RefusedStaysBehind(pushed + 1, |bytes|);
    }
    assert bytes[..|bytes|] == bytes;
  }

  /** The loop of it: `pushed` bytes are in, and the next one was refused or there is none. */
  method PushEach(bytes: seq<Byte>, raw: Byte) returns (s: BasicStringCore, ok: bool, ghost pushed: nat, ghost run: Run)
    ensures s.Valid() && pushed <= |bytes| && s.Contents() == bytes[..pushed]
    ensures run == PushBacks(pushed) && run.size == pushed && run.cap == s.Capacity()
    ensures ok ==> pushed == |bytes|
    ensures !ok ==> pushed < |bytes| && PushBacks(pushed + 1).size == pushed
  {
    s := new BasicStringCore();
    ok, pushed, run := true, 0, EMPTY_RUN;
    for i := 0 to |bytes|
      invariant s.Valid() && fresh(s) && s.Contents() == bytes[..i] && ok && pushed == i
      invariant run == PushBacks(i) && run.size == i && run.cap == s.Capacity()
    {
      ghost var after;
      ok, after := PushNext(s, bytes[i], raw, i, run);
      if !ok {
        return;
      }
      run, pushed := after, i + 1;
      assert bytes[..i + 1] == bytes[..i] + [bytes[i]];
    }
  }

  method PushNext(s: BasicStringCore, ch: Byte, raw: Byte, ghost i: nat, ghost run: Run)
    returns (ok: bool, ghost after: Run)
    requires s.Valid() && |s.Contents()| == i && run == PushBacks(i) && run.size == i && run.cap == s.Capacity()
    modifies s
    ensures s.Valid() && after == PushBacks(i + 1) && after.cap == s.Capacity()
    ensures ok ==> s.Contents() == old(s.Contents()) + [ch] && after.size == i + 1
    ensures !ok ==> s.Contents() == old(s.Contents()) && s.Capacity() == old(s.Capacity()) && after.size == i
  {
    ok, after := s.PushBack(ch, raw, run.copied);
    assert run == Run(i, old(s.Capacity()), run.copied);
  }

  lemma EraseResult(r: Rep, pos: nat, erased: nat)
    requires ValidRep(r) && pos + erased <= SizeOf(r)
    ensures var b := Move(Buffer(r), pos, pos + erased, SizeOf(r) - (pos + erased) + 1);
      && b[..SizeOf(r) - erased] == Splice(ContentsOf(r), pos, erased, [])
      && (r.Inline? ==> b[STORAGE_BYTES - 1] < STORAGE_BYTES)
  {
    TailMoves(r, pos, erased, 0);
    ErasedBytes(Buffer(r), SizeOf(r), pos, erased);
  }

  lemma ErasedBytes(b: seq<Byte>, size: nat, pos: nat, erased: nat)
    requires pos + erased <= size < |b|
    ensures Move(b, pos, pos + erased, size - (pos + erased) + 1)[..size - erased] == Splice(b[..size], pos, erased, [])
  {
    var n := size - (pos + erased);
    var c := Move(b, pos, pos + erased, n + 1);
    StretchMoves(b, pos, pos + erased, n);
    assert c[..size - erased] == c[..pos] + c[pos..pos + n];
  }

  /** The bytes with the gap opened and then filled. */
  function GapOpened(b: seq<Byte>, size: nat, pos: nat, erased: nat, src: seq<Byte>): (r: seq<Byte>)
    requires pos + erased <= size < |b| && size - erased + |src| < |b|
    ensures |r| == |b|
  {
    Copy(Move(b, pos + |src|, pos + erased, size - (pos + erased) + 1), pos, src)
  }

  /** The bytes with the source copied in and the gap behind it closed. */
  function GapClosed(b: seq<Byte>, size: nat, pos: nat, erased: nat, src: seq<Byte>): (r: seq<Byte>)
    requires pos + erased <= size < |b| && |src| <= erased
    ensures |r| == |b|
  {
    Move(Copy(b, pos, src), pos + |src|, pos + erased, size - (pos + erased) + 1)
  }

  lemma GrowResult(r: Rep, pos: nat, erased: nat, src: seq<Byte>)
    requires ValidRep(r) && pos + erased <= SizeOf(r) && SizeOf(r) - erased + |src| <= CapacityOf(r)
    ensures var b := GapOpened(Buffer(r), SizeOf(r), pos, erased, src);
      && b[..SizeOf(r) - erased + |src|] == Splice(ContentsOf(r), pos, erased, src)
      && (r.Inline? ==> b[STORAGE_BYTES - 1] < STORAGE_BYTES)
  {
    TailMoves(r, pos, erased, |src|);
    GrownBytes(Buffer(r), SizeOf(r), pos, erased, src);
  }

  lemma GrownBytes(b: seq<Byte>, size: nat, pos: nat, erased: nat, src: seq<Byte>)
    requires pos + erased <= size < |b| && size - erased + |src| < |b|
    ensures GapOpened(b, size, pos, erased, src)[..size - erased + |src|] == Splice(b[..size], pos, erased, src)
  {
    var n, at := size - (pos + erased), pos + |src|;
    var c := Move(b, at, pos + erased, n + 1);
    StretchMoves(b, at, pos + erased, n);
    PrefixOfPrefix(b, c, pos, at, size);
    TailOfContent(b, size, pos + erased);
    FillGap(b[..size], c, pos, erased, src);
  }

  lemma PrefixOfPrefix(b: seq<Byte>, c: seq<Byte>, pos: nat, at: nat, size: nat)
    requires pos <= at <= |b| && at <= |c| && pos <= size <= |b| && c[..at] == b[..at]
    ensures c[..pos] == b[..size][..pos]
  {
    assert c[..pos] == c[..at][..pos] && b[..pos] == b[..at][..pos];
  }

  lemma TailOfContent(b: seq<Byte>, size: nat, from: nat)
    requires from <= size <= |b|
    ensures b[from..size] == b[..size][from..]
  {
  }

  lemma ShrinkResult(r: Rep, pos: nat, erased: nat, src: seq<Byte>)
    requires ValidRep(r) && pos + erased <= SizeOf(r) && |src| < erased
    ensures var b := GapClosed(Buffer(r), SizeOf(r), pos, erased, src);
      && b[..SizeOf(r) - erased + |src|] == Splice(ContentsOf(r), pos, erased, src)
      && (r.Inline? ==> b[STORAGE_BYTES - 1] < STORAGE_BYTES)
  {
    ShrunkBytes(Buffer(r), SizeOf(r), pos, erased, src);
    ShrunkTail(Buffer(r), SizeOf(r), pos, erased, src, STORAGE_BYTES - 1);
  }

  lemma ShrunkBytes(b: seq<Byte>, size: nat, pos: nat, erased: nat, src: seq<Byte>)
    requires pos + erased <= size < |b| && |src| < erased
    ensures GapClosed(b, size, pos, erased, src)[..size - erased + |src|] == Splice(b[..size], pos, erased, src)
  {
    var copied, n := Copy(b, pos, src), size - (pos + erased);
    StretchMoves(copied, pos + |src|, pos + erased, n);
    var c := Move(copied, pos + |src|, pos + erased, n + 1);
    assert c[..pos + |src| + n] == c[..pos + |src|] + c[pos + |src|..pos + |src| + n];
    CopiedParts(b, size, pos, erased, src);
  }

  lemma CopiedParts(b: seq<Byte>, size: nat, pos: nat, erased: nat, src: seq<Byte>)
    requires pos + erased <= size < |b| && |src| < erased
    ensures Copy(b, pos, src)[..pos + |src|] == b[..size][..pos] + src
    ensures Copy(b, pos, src)[pos + erased..size] == b[..size][pos + erased..]
  {
  }

  /** Bytes at or past the old size stay. */
  lemma ShrunkTail(b: seq<Byte>, size: nat, pos: nat, erased: nat, src: seq<Byte>, i: nat)
    requires pos + erased <= size < |b| && |src| < erased
    ensures size <= i < |b| ==> GapClosed(b, size, pos, erased, src)[i] == b[i]
  {
  }

  lemma OwnBytesBeforeTerminator(r: Rep, src: Source)
    requires Shaped(r) && Readable(r, src)
    ensures src.Own? && src.offset + src.count <= SizeOf(r) ==>
              SourceBytes(r, src) == ContentsOf(r)[src.offset..src.offset + src.count]
  {
  }

  /** A new block that starts with the given content. */
  function FreshBlock(cap: nat, raw: Byte, content: seq<Byte>): (r: seq<Byte>)
    requires |content| <= cap
    ensures |r| == cap + 1 && r[..|content|] == content
  {
    Copy(seq(cap + 1, _ => raw), 0, content)
  }

  /** The append to a block that holds the old content: from the block itself when the source was inside it. */
  function AppendToBlock(block: seq<Byte>, size: nat, src: Source, bytes: seq<Byte>, stray: Byte): (r: seq<Byte>)
    requires |bytes| == Count(src) && size + Count(src) < |block|
    requires src.Own? && src.offset < size ==> src.offset + src.count <= size + 1
    ensures |r| == |block|
  {
    if src.Own? && src.offset < size then
      var copied := Copy(block, size, block[src.offset..src.offset + src.count]);
      if src.offset + src.count == size + 1 then copied[size + src.count - 1 := stray] else copied
    else Copy(block, size, bytes)
  }

  /** The content of the new block, by kind of source. */
  lemma GrowingResult(s: seq<Byte>, block: seq<Byte>, src: Source, bytes: seq<Byte>, stray: Byte)
    requires Count(src) > 0 && |s| + Count(src) < |block| && block[..|s|] == s && |bytes| == Count(src)
    requires src.Own? && src.offset < |s| ==> src.offset + src.count <= |s| + 1
    requires src.Own? && src.offset + src.count <= |s| ==> bytes == s[src.offset..src.offset + src.count]
    ensures var after := AppendToBlock(block, |s|, src, bytes, stray)[..|s| + Count(src)];
      if src.Own? && src.offset < |s| && src.offset + src.count == |s| + 1 then after == s + s[src.offset..] + [stray]
      else after == s + bytes
  {
    if src.Own? && src.offset < |s| {
      if src.offset + src.count == |s| + 1 {
        assert block[src.offset..|s|] == s[src.offset..];
      } else {
        assert block[src.offset..src.offset + src.count] == bytes;
      }
    }
  }
}
