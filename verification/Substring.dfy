/** What a substring search must return, independently of any algorithm. */
module Substring {

  /** A search result: the index found, or `Npos` for "not found". */
  datatype SearchResult = Npos | At(index: nat)

  /** `needle` occurs in `text` at `i`. */
  predicate Occurs<T(==)>(text: seq<T>, needle: seq<T>, i: int)
  {
    0 <= i && i + |needle| <= |text| && text[i..i + |needle|] == needle
  }

  /** `needle` occurs nowhere in `text` at an index in `[lo, hi)`. */
  ghost predicate NoneIn<T>(text: seq<T>, needle: seq<T>, lo: int, hi: int)
  {
    forall i :: lo <= i < hi ==> !Occurs(text, needle, i)
  }

  /** `r` is the least index at or after `pos` where `needle` occurs, or `Npos` when there is none. */
  ghost predicate IsFirst<T>(text: seq<T>, needle: seq<T>, pos: nat, r: SearchResult)
  {
    match r
    case At(i) => pos <= i && Occurs(text, needle, i) && NoneIn(text, needle, pos, i)
    case Npos => forall i :: pos <= i ==> !Occurs(text, needle, i)
  }

  /** The specification leaves no freedom: two searches that meet it agree. */
  lemma FirstIsUnique<T>(text: seq<T>, needle: seq<T>, pos: nat, r: SearchResult, s: SearchResult)
    requires IsFirst(text, needle, pos, r) && IsFirst(text, needle, pos, s)
    ensures r == s
  {
    if r.At? && s.At? {
      assert !(r.index < s.index) && !(s.index < r.index);
    }
  }

  /** Occurrence, one element at a time. */
  lemma OccursPointwise<T>(text: seq<T>, needle: seq<T>, i: nat)
    requires i + |needle| <= |text|
    ensures Occurs(text, needle, i) <==> forall k :: 0 <= k < |needle| ==> text[i + k] == needle[k]
  {
    var window := text[i..i + |needle|];
    assert forall k :: 0 <= k < |needle| ==> window[k] == text[i + k];
  }

  /** The positions past the last one that fits hold no occurrence. */
  lemma NothingPastTheEnd<T>(text: seq<T>, needle: seq<T>, pos: nat, cur: nat)
    requires NoneIn(text, needle, pos, cur) && cur + |needle| > |text|
    ensures IsFirst(text, needle, pos, Npos)
  {
  }
}
