/** `String::find`: the naive, Knuth-Morris-Pratt and Boyer-Moore searches. */
module StringFind {
  import opened Substring

  // ----- Naive search -----

  method NaiveSearch(text: string, pat: string, pos0: nat) returns (r: SearchResult)
    ensures IsFirst(text, pat, pos0, r)
  {
    var n, sz, pos := |pat|, |text|, pos0;
    if n == 0 {
      return if pos <= sz then At(pos) else Npos;
    }
    if pos >= sz || sz - pos < n {
      return Npos;
    }
    while pos <= sz - n
      invariant pos0 <= pos && NoneIn(text, pat, pos0, pos)
    {
      var i, found := pos, false;
      while i <= sz - n
        invariant pos <= i && !found && NoneIn(text, pat, pos0, i)
      {
        if text[i] == pat[0] {
          found := true;
          break;
        }
        OccursPointwise(text, pat, i);
        i := i + 1;
      }
      if !found {
        NothingPastTheEnd(text, pat, pos0, i);
        return Npos;
      }
      if text[i..i + n] == pat {
        return At(i);
      }
      pos := i + 1;
    }
    NothingPastTheEnd(text, pat, pos0, pos);
    return Npos;
  }

  // ----- Knuth-Morris-Pratt -----

  /** `pat[..b]` is a proper border of `pat[..i]`. */
  ghost predicate IsBorder(pat: string, i: nat, b: nat)
  {
    b < i <= |pat| && forall k, l :: 0 <= k < b && l == k + (i - b) ==> pat[k] == pat[l]
  }

  ghost predicate IsLongestBorder(pat: string, i: nat, b: nat)
  {
    IsBorder(pat, i, b) && forall c: nat :: IsBorder(pat, i, c) ==> c <= b
  }

  /** `next[k]` is the longest proper border of `pat[..k + 1]`, for every `k` below `i`. */
  ghost predicate IsBorderTable(pat: string, next: seq<nat>, i: nat)
  {
    i <= |next| && forall k :: 0 <= k < i ==> IsLongestBorder(pat, k + 1, next[k])
  }

  /** A border of the next prefix extends a border of this one. */
  lemma ShorterBorder(pat: string, i: nat, b: nat)
    requires b >= 1 && IsBorder(pat, i + 1, b)
    ensures i >= 1 && IsBorder(pat, i, b - 1) && pat[b - 1] == pat[i]
  {
    assert pat[b - 1] == pat[b - 1 + (i + 1 - b)];
  }

  /** The borders of a border are borders, so the longest one below `j` is the longest border of `pat[..j]`. */
  lemma NextBorder(pat: string, i: nat, j: nat, c: nat)
    requires IsBorder(pat, i, j) && c < j
    ensures IsBorder(pat, i, c) <==> IsBorder(pat, j, c)
  {
    if IsBorder(pat, j, c) {
      forall k, l | 0 <= k < c && l == k + (i - c) ensures pat[k] == pat[l] {
        assert pat[k] == pat[k + (j - c)];
        assert pat[k + (j - c)] == pat[k + (j - c) + (i - j)];
      }
    }
    if IsBorder(pat, i, c) {
      forall k, l | 0 <= k < c && l == k + (j - c) ensures pat[k] == pat[l] {
        assert pat[k] == pat[k + (i - c)];
        assert pat[l] == pat[l + (i - j)];
      }
    }
  }

  ghost predicate BordersBounded(pat: string, i: nat, bound: int)
  {
    forall c: nat :: IsBorder(pat, i, c) ==> c <= bound
  }

  /** Borders of the next prefix are at most one longer than the longest border of this one. */
  lemma BoundNextBorders(pat: string, i: nat, b: nat)
    requires BordersBounded(pat, i, b)
    ensures BordersBounded(pat, i + 1, b + 1)
  {
    var next := i + 1;
    forall c: nat | IsBorder(pat, next, c) ensures c <= b + 1 {
      if c >= 1 {
        ShorterBorder(pat, i, c);
      }
    }
  }

  lemma BorderMismatch(pat: string, i: nat, j: nat, b: nat)
    requires 1 <= j < i < |pat| && IsBorder(pat, i, j) && BordersBounded(pat, i + 1, j + 1)
    requires pat[i] != pat[j] && IsLongestBorder(pat, j, b)
    ensures IsBorder(pat, i, b) && BordersBounded(pat, i + 1, b + 1)
  {
    NextBorder(pat, i, j, b);
    var next := i + 1;
    forall c: nat | IsBorder(pat, next, c) ensures c <= b + 1 {
      if c >= 1 {
        ShorterBorder(pat, i, c);
        if c - 1 < j {
          NextBorder(pat, i, j, c - 1);
        }
      }
    }
  }

  lemma NoBorder(pat: string, i: nat)
    requires 1 <= i < |pat| && BordersBounded(pat, i + 1, 1) && pat[i] != pat[0]
    ensures IsLongestBorder(pat, i + 1, 0)
  {
    var next := i + 1;
    forall c: nat | IsBorder(pat, next, c) ensures c <= 0 {
      if c == 1 {
        ShorterBorder(pat, i, c);
      }
    }
  }

  /** A border that a match extends as far as the bound allows is the longest. */
  lemma BorderMatch(pat: string, i: nat, j: nat)
    requires 1 <= i < |pat| && IsBorder(pat, i, j) && BordersBounded(pat, i + 1, j + 1) && pat[i] == pat[j]
    ensures IsLongestBorder(pat, i + 1, j + 1)
  {
    var i', j' := i + 1, j + 1;
    forall k, l | 0 <= k < j' && l == k + (i' - j') ensures pat[k] == pat[l] {
      if k < j {
        assert pat[k] == pat[k + (i - j)];
      }
    }
    assert IsBorder(pat, i', j');
  }

  method BuildNext(pat: string) returns (next: seq<nat>)
    requires |pat| >= 1
    ensures |next| == |pat| && IsBorderTable(pat, next, |pat|)
  {
    var n := |pat|;
    next := seq(n, _ => 0);
    var i: nat, j: nat := 1, 0;
    while i < n
      invariant |next| == n && 1 <= i <= n && j < i
      invariant IsBorderTable(pat, next, i)
      invariant forall k :: i <= k < n ==> next[k] == 0
      invariant i < n ==> IsBorder(pat, i, j) && BordersBounded(pat, i + 1, j + 1)
      decreases n - i, j
    {
      if pat[i] == pat[j] {
        BorderMatch(pat, i, j);
        j := j + 1;
        next := next[i := j];
        i := i + 1;
        BoundNextBorders(pat, i, j);
      } else if j == 0 {
        NoBorder(pat, i);
        i := i + 1;
        BoundNextBorders(pat, i, j);
      } else {
        BorderMismatch(pat, i, j, next[j - 1]);
        j := next[j - 1];
      }
    }
  }

  /** The `j` units before `i` match the pattern's first `j`. */
  ghost predicate PrefixEndsAt(text: string, pat: string, i: nat, j: nat)
  {
    j <= i <= |text| && j <= |pat| && forall k :: 0 <= k < j ==> text[i - j + k] == pat[k]
  }

  /** An occurrence inside the matched window gives the matched prefix a border. */
  lemma OccurrenceGivesBorder(text: string, pat: string, i: nat, j: nat, s: nat)
    requires PrefixEndsAt(text, pat, i, j) && i - j < s < i && Occurs(text, pat, s)
    requires j < |pat|
    ensures IsBorder(pat, j, i - s)
  {
    OccursPointwise(text, pat, s);
    forall k, l | 0 <= k < i - s && l == k + (j - (i - s)) ensures pat[k] == pat[l] {
      assert text[s + k] == pat[k];
      assert text[i - j + l] == pat[l];
    }
  }

  /** After a mismatch, falling back to the longest border skips no occurrence. */
  lemma FallBack(text: string, pat: string, pos0: nat, i: nat, j: nat, b: nat)
    requires PrefixEndsAt(text, pat, i, j) && 1 <= j < |pat| && i < |text| && text[i] != pat[j]
    requires NoneIn(text, pat, pos0, i - j) && IsLongestBorder(pat, j, b)
    ensures PrefixEndsAt(text, pat, i, b) && NoneIn(text, pat, pos0, i - b)
  {
    forall k | 0 <= k < b ensures text[i - b + k] == pat[k] {
      assert pat[k] == pat[k + (j - b)];
      assert text[i - j + (k + (j - b))] == pat[k + (j - b)];
    }
    assert !Occurs(text, pat, i - j) by {
      if i - j + |pat| <= |text| {
        OccursPointwise(text, pat, i - j);
      }
    }
    forall s | i - j < s < i - b && Occurs(text, pat, s) ensures false {
      OccurrenceGivesBorder(text, pat, i, j, s);
    }
  }

  method KMPSearch(text: string, pat: string, pos: nat) returns (r: SearchResult)
    ensures IsFirst(text, pat, pos, r)
  {
    var n, sz := |pat|, |text|;
    if n == 0 {
      return if pos <= sz then At(pos) else Npos;
    }
    if pos >= sz || sz - pos < n {
      return Npos;
    }
    var next := BuildNext(pat);
    var i: nat, j: nat := pos, 0;
    while i < sz && j < n
      invariant pos <= i - j && i <= sz
      invariant PrefixEndsAt(text, pat, i, j)
      invariant NoneIn(text, pat, pos, i - j)
      decreases sz - i, j
    {
      if text[i] == pat[j] {
        i := i + 1;
        j := j + 1;
      } else if j == 0 {
        OccursPointwise(text, pat, if i + n <= sz then i else 0);
        i := i + 1;
      } else {
        FallBack(text, pat, pos, i, j, next[j - 1]);
        j := next[j - 1];
      }
    }
    if j == n {
      OccursPointwise(text, pat, i - n);
      return At(i - n);
    }
    return Npos;
  }

  // ----- Boyer-Moore -----

  /** The length of a C string: everything before the first NUL of the buffer. */
  function Strlen(buf: string): (m: nat)
    requires '\0' in buf
    ensures m < |buf| && buf[m] == '\0' && '\0' !in buf[..m]
  {
    if buf[0] == '\0' then 0 else
      var rest := Strlen(buf[1..]);
      assert buf[..rest + 1] == [buf[0]] + buf[1..][..rest];
      1 + rest
  }

  function CString(buf: string): string
    requires '\0' in buf
  {
    buf[..Strlen(buf)]
  }

  /** `right` maps each character of `pat` to its last index. */
  ghost predicate IsBadCharTable(pat: string, right: map<char, nat>)
  {
    && (forall c :: c in right <==> c in pat)
    && (forall c :: c in right ==> right[c] < |pat| && pat[right[c]] == c)
    && (forall i :: 0 <= i < |pat| ==> pat[i] in right && i <= right[pat[i]])
  }

  method CreateBadCharRule(buf: string) returns (right: map<char, nat>)
    requires '\0' in buf
    ensures IsBadCharTable(CString(buf), right)
  {
    var pat := CString(buf);
    right := map[];
    for i := 0 to |pat|
      invariant forall c :: c in right ==> right[c] < i && pat[right[c]] == c
      invariant forall k :: 0 <= k < i ==> pat[k] in right && k <= right[pat[k]]
    {
      right := right[pat[i] := i];
    }
  }

  /** The suffix of length `len` reappears at `p`, away from the end and not preceded by the same character. */
  ghost predicate StrongMatch(pat: string, len: nat, p: nat)
  {
    && 1 <= len && p + len < |pat|
    && (forall k, l :: p <= k < p + len && l == k - p + (|pat| - len) ==> pat[k] == pat[l])
    && (p == 0 || pat[p - 1] != pat[|pat| - 1 - len])
  }

  /** `suffix[len]` is the rightmost strong match ending at or before index `i - 1`, or -1. */
  ghost predicate IsSuffixEntry(pat: string, i: int, len: nat, entry: int)
  {
    && (entry == -1 || (0 <= entry && entry + len <= i && StrongMatch(pat, len, entry)))
    && (forall p: nat :: p + len <= i && StrongMatch(pat, len, p) ==> p <= entry)
  }

  ghost predicate GoodSuffixTablesUpTo(pat: string, suffix: seq<int>, prefix: seq<bool>, i: int)
  {
    && |suffix| == |prefix| == |pat| >= 1
    && suffix[0] == |pat| && !prefix[0]
    && (forall len :: 1 <= len < |pat| ==> IsSuffixEntry(pat, i, len, suffix[len]))
    && (forall len :: 1 <= len < |pat| ==> (prefix[len] <==> len <= i && StrongMatch(pat, len, 0)))
  }

  ghost predicate AreGoodSuffixTables(pat: string, suffix: seq<int>, prefix: seq<bool>)
  {
    GoodSuffixTablesUpTo(pat, suffix, prefix, |pat| - 1)
  }

  /** At most one strong match ends at each index. */
  lemma StrongMatchUnique(pat: string, len1: nat, p1: nat, len2: nat, p2: nat)
    requires StrongMatch(pat, len1, p1) && StrongMatch(pat, len2, p2) && p1 + len1 == p2 + len2
    ensures len1 == len2
  {
  }

  /** Recording the strong match that ends at `i`, if any, extends the tables by one index. */
  lemma TablesStep(pat: string, suffix: seq<int>, prefix: seq<bool>, i: nat, len: nat, p: nat)
    requires GoodSuffixTablesUpTo(pat, suffix, prefix, i) && i <= |pat| - 2
    requires len >= 1 && p + len == i + 1 && StrongMatch(pat, len, p)
    ensures GoodSuffixTablesUpTo(pat, suffix[len := p], if p == 0 then prefix[len := true] else prefix, i + 1)
  {
    var suffix', prefix' := suffix[len := p], if p == 0 then prefix[len := true] else prefix;
    forall l | 1 <= l < |pat| ensures IsSuffixEntry(pat, i + 1, l, suffix'[l]) {
      forall q: nat | q + l <= i + 1 && StrongMatch(pat, l, q) ensures q <= suffix'[l] {
        if q + l == i + 1 {
          StrongMatchUnique(pat, l, q, len, p);
        }
      }
    }
    forall l | 1 <= l < |pat| ensures prefix'[l] <==> l <= i + 1 && StrongMatch(pat, l, 0) {
      if l == i + 1 && StrongMatch(pat, l, 0) {
        StrongMatchUnique(pat, l, 0, len, p);
      }
    }
  }

  lemma TablesSkip(pat: string, suffix: seq<int>, prefix: seq<bool>, i: nat)
    requires GoodSuffixTablesUpTo(pat, suffix, prefix, i) && i <= |pat| - 2
    requires pat[i] != pat[|pat| - 1]
    ensures GoodSuffixTablesUpTo(pat, suffix, prefix, i + 1)
  {
    forall l: nat, q: nat | StrongMatch(pat, l, q) ensures q + l != i + 1 {
      assert pat[q + l - 1] == pat[q + l - 1 - q + (|pat| - l)];
    }
    forall l | 1 <= l < |pat| ensures IsSuffixEntry(pat, i + 1, l, suffix[l]) {
      assert IsSuffixEntry(pat, i, l, suffix[l]);
    }
  }

  /** Compares backwards from `i` and from the end; `j` is where the two stop agreeing. */
  method MatchBackwards(pat: string, i: nat) returns (j: int)
    requires i <= |pat| - 2
    ensures -1 <= j <= i
    ensures j == i <==> pat[i] != pat[|pat| - 1]
    ensures j < i ==> StrongMatch(pat, i - j, j + 1)
  {
    var m := |pat|;
    j := i;
    while j >= 0 && pat[j] == pat[m - 1 - (i - j)]
      invariant -1 <= j <= i
      invariant j < i ==> pat[i] == pat[m - 1]
      invariant forall k, l :: j < k <= i && l == m - 1 - (i - k) ==> pat[k] == pat[l]
    {
      j := j - 1;
    }
  }

  method CreateGoodSuffixRule(buf: string) returns (suffix: seq<int>, prefix: seq<bool>)
    requires '\0' in buf && Strlen(buf) >= 1
    ensures AreGoodSuffixTables(CString(buf), suffix, prefix)
  {
    suffix, prefix := FillTables(CString(buf));
  }

  lemma TablesStart(pat: string)
    requires |pat| >= 1
    ensures GoodSuffixTablesUpTo(pat, seq(|pat|, i => if i == 0 then |pat| else -1), seq(|pat|, _ => false), 0)
  {
  }

  method FillTables(pat: string) returns (suffix: seq<int>, prefix: seq<bool>)
    requires |pat| >= 1
    ensures AreGoodSuffixTables(pat, suffix, prefix)
  {
    var m := |pat|;
    suffix := seq(m, i => if i == 0 then m else -1);
    prefix := seq(m, _ => false);
    TablesStart(pat);
    for i := 0 to m - 1
      invariant GoodSuffixTablesUpTo(pat, suffix, prefix, i)
    {
      var j := MatchBackwards(pat, i);
      if j == -1 {
        TablesStep(pat, suffix, prefix, i, i + 1, 0);
        suffix := suffix[i + 1 := 0];
        prefix := prefix[i + 1 := true];
      } else if j != i {
        TablesStep(pat, suffix, prefix, i, i - j, j + 1);
        suffix := suffix[i - j := j + 1];
      } else {
        TablesSkip(pat, suffix, prefix, i);
      }
    }
  }

  /** Shifting by `s` keeps the matched suffix after `j` matched and puts another character under `j`. */
  ghost predicate GoodShift(pat: string, j: nat, s: int)
  {
    && s >= 1
    && (forall k, l :: j < l < |pat| && 0 <= k && l == k + s ==> pat[k] == pat[l])
    && (0 <= j - s && j < |pat| ==> pat[j - s] != pat[j])
  }

  /** The last loop of the good-suffix shift: the longest proper prefix that is also a suffix. */
  function PrefixShift(k: int, m: nat, prefix: seq<bool>): int
    requires k < |prefix|
    decreases k
  {
    if k < 1 then m else if prefix[k] then m - k else PrefixShift(k - 1, m, prefix)
  }

  function Delta2(j: nat, m: nat, suffix: seq<int>, prefix: seq<bool>): int
    requires j < m && m - 1 - j < |suffix| && |suffix| == |prefix|
  {
    var len := m - 1 - j;
    if suffix[len] != -1 then j - suffix[len] + 1 else PrefixShift(len - 1, m, prefix)
  }

  method ComputeDelta2(j: nat, m: nat, suffix: seq<int>, prefix: seq<bool>) returns (r: int)
    requires j < m && m - 1 - j < |suffix| && |suffix| == |prefix|
    requires suffix[0] != -1
    ensures r == Delta2(j, m, suffix, prefix)
  {
    var len := m - 1 - j;
    if suffix[len] != -1 {
      return j - suffix[len] + 1;
    }
    var k := len - 1;
    while k >= 1
      invariant k < |prefix|
      invariant PrefixShift(len - 1, m, prefix) == PrefixShift(k, m, prefix)
    {
      if prefix[k] {
        return m - k;
      }
      k := k - 1;
    }
    return m;
  }

  /** A good shift reaching into the pattern is a strong match, one reaching beyond it is a border. */
  lemma GoodShiftIsMatch(pat: string, j: nat, s: nat)
    requires j + 1 < |pat| && GoodShift(pat, j, s) && s < |pat|
    ensures s <= j + 1 ==> StrongMatch(pat, |pat| - 1 - j, j + 1 - s)
    ensures s > j + 1 ==> StrongMatch(pat, |pat| - s, 0)
  {
  }

  lemma {:induction false} PrefixShiftIsLeast(pat: string, j: nat, k: int, suffix: seq<int>, prefix: seq<bool>)
    requires AreGoodSuffixTables(pat, suffix, prefix) && j + 1 < |pat| && 0 <= k < |pat| - 1 - j
    ensures var r := PrefixShift(k, |pat|, prefix);
      |pat| - k <= r <= |pat| && GoodShift(pat, j, r) && forall s :: |pat| - k <= s < r ==> !GoodShift(pat, j, s)
    decreases k
  {
    if k >= 1 && !prefix[k] {
      PrefixShiftIsLeast(pat, j, k - 1, suffix, prefix);
      assert !StrongMatch(pat, k, 0);
    }
  }

  /** The tables yield the least good shift: none smaller would fit the text already seen. */
  lemma Delta2IsLeastGoodShift(pat: string, j: nat, suffix: seq<int>, prefix: seq<bool>)
    requires AreGoodSuffixTables(pat, suffix, prefix) && j + 1 < |pat|
    ensures var r := Delta2(j, |pat|, suffix, prefix);
      1 <= r <= |pat| && GoodShift(pat, j, r) && forall s :: 1 <= s < r ==> !GoodShift(pat, j, s)
  {
    var m := |pat|;
    var len := m - 1 - j;
    assert IsSuffixEntry(pat, m - 1, len, suffix[len]);
    if suffix[len] == -1 {
      PrefixShiftIsLeast(pat, j, len - 1, suffix, prefix);
    }
    var r := Delta2(j, m, suffix, prefix);
    forall s | 1 <= s < r && GoodShift(pat, j, s) ensures false {
      GoodShiftIsMatch(pat, j, s);
    }
  }

  function Delta1(right: map<char, nat>, c: char, j: nat): (r: int)
    ensures 1 <= r <= j + 1
  {
    if c in right then (if j <= right[c] then 1 else j - right[c]) else j + 1
  }

  // The tables are built from the C string in the needle's buffer, `whole`, whatever count is searched for. From
  // here on the needle is a prefix `pat` of `whole`.

  /** An occurrence that covers the text's character under `j` is at least the bad-character shift away. */
  lemma OccurrenceRespectsDelta1(text: string, whole: string, pat: string, right: map<char, nat>, pos: nat, j: nat,
                                 i: nat)
    requires IsBadCharTable(whole, right) && pat <= whole && j < |pat| && pos + |pat| <= |text|
    requires pos < i && Occurs(text, pat, i)
    ensures i >= pos + Delta1(right, text[pos + j], j)
  {
    OccursPointwise(text, pat, i);
    var k := j - (i - pos);
    if k >= 0 {
      assert text[i + k] == pat[k] == whole[k];
    }
  }

  /** The bad-character shift skips no alignment, also when the table knows a longer string. */
  lemma Delta1Skip(text: string, whole: string, pat: string, right: map<char, nat>, pos: nat, j: nat)
    requires IsBadCharTable(whole, right) && pat <= whole && j < |pat| && pos + |pat| <= |text|
             && text[pos + j] != pat[j]
    ensures NoneIn(text, pat, pos, pos + Delta1(right, text[pos + j], j))
  {
    OccursPointwise(text, pat, pos);
    forall i | pos < i < pos + Delta1(right, text[pos + j], j) && Occurs(text, pat, i) ensures false {
      OccurrenceRespectsDelta1(text, whole, pat, right, pos, j, i);
    }
  }

  /** An occurrence after a mismatch at `j` is a good shift away. */
  lemma OccurrenceIsGoodShift(text: string, pat: string, pos: nat, j: nat, i: nat)
    requires j < |pat| && pos + |pat| <= |text| && text[pos + j] != pat[j]
    requires forall k :: j < k < |pat| ==> text[pos + k] == pat[k]
    requires pos < i && Occurs(text, pat, i)
    ensures GoodShift(pat, j, i - pos)
  {
    OccursPointwise(text, pat, i);
    var s := i - pos;
    forall k, l | j < l < |pat| && 0 <= k && l == k + s ensures pat[k] == pat[l] {
      assert text[i + k] == pat[k];
    }
    if 0 <= j - s {
      assert text[i + (j - s)] == pat[j - s];
    }
  }

  // ----- When the tables serve the needle -----

  ghost function RightmostMatch(pat: string, len: nat, p: int): int
    decreases p
  {
    if p < 0 then -1 else if StrongMatch(pat, len, p) then p else RightmostMatch(pat, len, p - 1)
  }

  ghost function SuffixTable(pat: string): (r: seq<int>)
    ensures |r| == |pat|
  {
    seq(|pat|, len requires 0 <= len < |pat| => if len == 0 then |pat| else RightmostMatch(pat, len, |pat| - 1 - len))
  }

  ghost function PrefixTable(pat: string): (r: seq<bool>)
    ensures |r| == |pat|
  {
    seq(|pat|, len requires 0 <= len < |pat| => StrongMatch(pat, len, 0))
  }

  lemma {:induction false} RightmostMatchIs(pat: string, len: nat, p: int)
    ensures var r := RightmostMatch(pat, len, p);
      && -1 <= r <= (if p < 0 then -1 else p) && (r >= 0 ==> StrongMatch(pat, len, r))
      && (forall q: nat :: q <= p && StrongMatch(pat, len, q) ==> q <= r)
    decreases p
  {
    if p >= 0 && !StrongMatch(pat, len, p) {
      RightmostMatchIs(pat, len, p - 1);
    }
  }

  /** The two tables are determined by the string. */
  lemma TablesAreUnique(pat: string, suffix: seq<int>, prefix: seq<bool>)
    requires AreGoodSuffixTables(pat, suffix, prefix)
    ensures suffix == SuffixTable(pat) && prefix == PrefixTable(pat)
  {
    forall len | 1 <= len < |pat| ensures suffix[len] == SuffixTable(pat)[len] {
      assert IsSuffixEntry(pat, |pat| - 1, len, suffix[len]);
      RightmostMatchIs(pat, len, |pat| - 1 - len);
    }
  }

  lemma TablesExist(pat: string)
    requires |pat| >= 1
    ensures AreGoodSuffixTables(pat, SuffixTable(pat), PrefixTable(pat))
  {
    forall len | 1 <= len < |pat| ensures IsSuffixEntry(pat, |pat| - 1, len, SuffixTable(pat)[len]) {
      RightmostMatchIs(pat, len, |pat| - 1 - len);
    }
  }

  /** The good-suffix shift the tables of `whole` give its first `n` characters after a mismatch at `j`. As a
      difference of 64-bit indices it wraps when it is negative. */
  ghost function TableShift(whole: string, n: nat, j: nat): int
    requires j < n <= |whole|
  {
    Delta2(j, n, SuffixTable(whole), PrefixTable(whole))
  }

  /** That shift is not negative and passes over no shift that fits the needle. */
  ghost predicate ShiftFits(whole: string, n: nat, j: nat)
    requires j < n <= |whole|
  {
    TableShift(whole, n, j) >= 0 && forall s :: 1 <= s < TableShift(whole, n, j) ==> !GoodShift(whole[..n], j, s)
  }

  /** What the search needs of the string the tables are built from. */
  ghost predicate TablesServe(whole: string, n: nat)
    requires n <= |whole|
  {
    forall j: nat :: j + 1 < n ==> ShiftFits(whole, n, j)
  }

  /** The whole string, and its first character, are always served. */
  lemma TablesServeWhole(whole: string)
    requires |whole| >= 1
    ensures TablesServe(whole, |whole|) && TablesServe(whole, 1)
  {
    TablesExist(whole);
    assert whole[..|whole|] == whole;
    forall j: nat | j + 1 < |whole| ensures ShiftFits(whole, |whole|, j) {
      Delta2IsLeastGoodShift(whole, j, SuffixTable(whole), PrefixTable(whole));
    }
  }

  /** A shift that fits skips no alignment. */
  lemma TableShiftSkip(text: string, whole: string, n: nat, pos: nat, j: nat)
    requires j + 1 < n <= |whole| && ShiftFits(whole, n, j) && pos + n <= |text|
    requires text[pos + j] != whole[j] && forall k :: j < k < n ==> text[pos + k] == whole[k]
    ensures NoneIn(text, whole[..n], pos, pos + TableShift(whole, n, j))
  {
    var pat := whole[..n];
    OccursPointwise(text, pat, pos);
    forall i | pos < i < pos + TableShift(whole, n, j) && Occurs(text, pat, i) ensures false {
      OccurrenceIsGoodShift(text, pat, pos, j, i);
    }
  }

  /** The inner loop: bad-character shifts until the last character matches, signalled by adding
      `large` to the position, or until the needle no longer fits. */
  method SkipToLastChar(text: string, ghost whole: string, pat: string, right: map<char, nat>, pos0: nat, start: nat)
    returns (pos: nat)
    requires pat != [] && pat <= whole && IsBadCharTable(whole, right) && start <= |text| - |pat|
    requires pos0 <= start && NoneIn(text, pat, pos0, start)
    ensures var large := |text| + |pat|;
      if pos < large then start < pos && pos > |text| - |pat| && NoneIn(text, pat, pos0, pos)
      else start <= pos - large <= |text| - |pat| && NoneIn(text, pat, pos0, pos - large) &&
           text[pos - large + |pat| - 1] == pat[|pat| - 1]
  {
    var n, sz := |pat|, |text|;
    var large := sz + n;
    pos := start;
    while pos <= sz - n
      invariant start <= pos
      invariant pos < large ==> NoneIn(text, pat, pos0, pos)
      invariant pos >= large ==> start <= pos - large <= sz - n && NoneIn(text, pat, pos0, pos - large)
      invariant pos >= large ==> text[pos - large + n - 1] == pat[n - 1]
      decreases sz - pos
    {
      if text[pos + n - 1] == pat[n - 1] {
        pos := pos + large;
      } else {
        Delta1Skip(text, whole, pat, right, pos, n - 1);
        pos := pos + Delta1(right, text[pos + n - 1], n - 1);
      }
    }
  }

  /** The outer loop, given tables that serve the needle. */
  method BoyerMooreScan(text: string, ghost whole: string, pat: string, pos0: nat,
                        right: map<char, nat>, suffix: seq<int>, prefix: seq<bool>) returns (r: SearchResult)
    requires pat != [] && pos0 < |text| && |pat| <= |text| - pos0
    requires pat <= whole && IsBadCharTable(whole, right) && AreGoodSuffixTables(whole, suffix, prefix)
    requires TablesServe(whole, |pat|)
    ensures IsFirst(text, pat, pos0, r)
  {
    TablesAreUnique(whole, suffix, prefix);
    assert whole[..|pat|] == pat;
    var n, sz, pos := |pat|, |text|, pos0;
    var large := sz + n;
    while pos <= sz - n
      invariant pos0 <= pos && NoneIn(text, pat, pos0, pos)
      decreases sz - pos
    {
      pos := SkipToLastChar(text, whole, pat, right, pos0, pos);
      if pos < large {
        break;
      }
      pos := pos - large;
      var j: int := n - 1;
      while j >= 0 && text[pos + j] == pat[j]
        invariant -1 <= j < n
        invariant j == n - 1 ==> text[pos + j] == pat[j]
        invariant forall k :: j < k < n ==> text[pos + k] == pat[k]
      {
        j := j - 1;
      }
      if j == -1 {
        OccursPointwise(text, pat, pos);
        return At(pos);
      }
      Delta1Skip(text, whole, pat, right, pos, j);
      assert ShiftFits(whole, n, j);
      TableShiftSkip(text, whole, n, pos, j);
      var d1 := Delta1(right, text[pos + j], j);
      var d2 := ComputeDelta2(j, n, suffix, prefix);
      pos := pos + if d1 < d2 then d2 else d1;
    }
    NothingPastTheEnd(text, pat, pos0, pos);
    return Npos;
  }

  /** The counts `n` for which a search for the first `n` characters of `buf` is right on every text. */
  ghost predicate CountIsServed(buf: string, n: nat)
    requires '\0' in buf
  {
    n == 0 || (n <= Strlen(buf) && TablesServe(CString(buf), n))
  }

  /** Boyer-Moore over the first `n` characters of a NUL-terminated buffer. The tables are only built, and only
      matter, when the needle fits into the text. */
  method BoyerMooreSearch(text: string, buf: string, pos: nat, n: nat) returns (r: SearchResult)
    requires '\0' in buf && n <= |buf|
    requires CountIsServed(buf, n) || pos >= |text| || |text| - pos < n
    ensures IsFirst(text, buf[..n], pos, r)
  {
    if n == 0 {
      return if pos <= |text| then At(pos) else Npos;
    }
    if pos >= |text| || |text| - pos < n {
      return Npos;
    }
    var right := CreateBadCharRule(buf);
    var suffix, prefix := CreateGoodSuffixRule(buf);
    assert buf[..n] == CString(buf)[..n];
    r := BoyerMooreScan(text, CString(buf), buf[..n], pos, right, suffix, prefix);
  }

  datatype FindMethod = Naive | KMP | BoyerMoore

  /** `String::find`: all three methods give the one possible answer. */
  method Find(text: string, buf: string, pos: nat, n: nat, how: FindMethod) returns (r: SearchResult)
    requires n <= |buf|
    requires how.BoyerMoore? ==> '\0' in buf && (CountIsServed(buf, n) || pos >= |text| || |text| - pos < n)
    ensures IsFirst(text, buf[..n], pos, r)
  {
    match how
    case BoyerMoore => r := BoyerMooreSearch(text, buf, pos, n);
    case KMP => r := KMPSearch(text, buf[..n], pos);
    case Naive => r := NaiveSearch(text, buf[..n], pos);
  }

  // ----- Boyer-Moore for every count: a run of the outer loop -----

  const SIZE_RANGE: int := 0x1_0000_0000_0000_0000

  /** How a round of the outer loop ends: with an answer, at the next position, or reading past the tables. */
  datatype Round = Returned(r: SearchResult) | Moved(pos: nat) | Overrun

  ghost function LastIndexOf(pat: string, c: char): (i: nat)
    requires c in pat
    ensures i < |pat| && pat[i] == c && forall k :: i < k < |pat| ==> pat[k] != c
  {
    var i := |pat| - 1;
    if pat[i] == c then i else
      assert pat == pat[..i] + [pat[i]];
      LastIndexOf(pat[..i], c)
  }

  ghost function BadCharTable(pat: string): (right: map<char, nat>)
    ensures IsBadCharTable(pat, right)
  {
    map c | c in pat :: LastIndexOf(pat, c)
  }

  ghost function SkipBadChars(text: string, pat: string, right: map<char, nat>, pos: nat): (p: nat)
    requires pat != []
    ensures p >= pos && (p + |pat| <= |text| ==> text[p + |pat| - 1] == pat[|pat| - 1])
    decreases |text| - pos
  {
    if pos + |pat| > |text| || text[pos + |pat| - 1] == pat[|pat| - 1] then pos
    else SkipBadChars(text, pat, right, pos + Delta1(right, text[pos + |pat| - 1], |pat| - 1))
  }

  ghost function MismatchFrom(text: string, pat: string, pos: nat, j: int): (r: int)
    requires j < |pat| && pos + |pat| <= |text| && j >= -1
    ensures -1 <= r <= j && (r >= 0 ==> text[pos + r] != pat[r])
    ensures forall k :: r < k <= j ==> text[pos + k] == pat[k]
  {
    if j == -1 || text[pos + j] != pat[j] then j else MismatchFrom(text, pat, pos, j - 1)
  }

  /** `pos + max(d1, d2)` in 64 unsigned bits. */
  ghost function Advance(pos: nat, d1: nat, d2: int): nat
    requires d2 > -SIZE_RANGE
  {
    var shift := if d2 < 0 then SIZE_RANGE + d2 else if d1 < d2 then d2 else d1;
    if pos + shift >= SIZE_RANGE then pos + shift - SIZE_RANGE else pos + shift
  }

  lemma {:induction false} PrefixShiftPositive(k: int, m: nat, prefix: seq<bool>)
    requires k < |prefix| && k < m
    ensures 0 <= PrefixShift(k, m, prefix) <= m
    decreases k
  {
    if k >= 1 && !prefix[k] {
      PrefixShiftPositive(k - 1, m, prefix);
    }
  }

  /** The table shift moves by at most the needle, forwards, and by less than the string, backwards. */
  lemma TableShiftBounds(whole: string, n: nat, j: nat)
    requires j + 1 < n && n - 1 - j < |whole|
    ensures -|whole| < Delta2(j, n, SuffixTable(whole), PrefixTable(whole)) <= n
  {
    var len := n - 1 - j;
    RightmostMatchIs(whole, len, |whole| - 1 - len);
    if SuffixTable(whole)[len] == -1 {
      PrefixShiftPositive(len - 1, n, PrefixTable(whole));
    }
  }

  /** The round from the moment the last character matches at `p`. */
  ghost function Compare(text: string, whole: string, pat: string, right: map<char, nat>, p: nat): Round
    requires pat != [] && |whole| < SIZE_RANGE && p + |pat| <= |text| && text[p + |pat| - 1] == pat[|pat| - 1]
  {
    var n := |pat|;
    var j := MismatchFrom(text, pat, p, n - 1);
    if j == -1 then Returned(At(p))
    else if n - 1 - j >= |whole| then Overrun
    else
      TableShiftBounds(whole, n, j);
      Moved(Advance(p, Delta1(right, text[p + j], j), Delta2(j, n, SuffixTable(whole), PrefixTable(whole))))
  }

  ghost function OneRound(text: string, whole: string, pat: string, pos: nat): Round
    requires pat != [] && |whole| < SIZE_RANGE
  {
    var right := BadCharTable(whole);
    var p := SkipBadChars(text, pat, right, pos);
    if p + |pat| > |text| then Returned(Npos) else Compare(text, whole, pat, right, p)
  }

  ghost function Rounds(text: string, whole: string, pat: string, pos: nat, fuel: nat): Round
    requires pat != [] && |whole| < SIZE_RANGE
    decreases fuel
  {
    if fuel == 0 then Moved(pos)
    else
      match OneRound(text, whole, pat, pos)
      case Moved(next) => Rounds(text, whole, pat, next, fuel - 1)
      case other => other
  }

  /** The whole search, stopped after `fuel` rounds. A buffer that starts with NUL has tables without any entry,
      and filling in the first one already overruns them. */
  ghost function SearchRun(text: string, buf: string, pos: nat, n: nat, fuel: nat): Round
    requires '\0' in buf && n <= |buf| < SIZE_RANGE
  {
    if n == 0 then Returned(if pos <= |text| then At(pos) else Npos)
    else if pos >= |text| || |text| - pos < n then Returned(Npos)
    else if Strlen(buf) == 0 then Overrun
    else Rounds(text, CString(buf), buf[..n], pos, fuel)
  }

  /** The search comes to an end with the right answer. */
  ghost predicate FindsFirst(text: string, buf: string, pos: nat, n: nat)
    requires '\0' in buf && n <= |buf| < SIZE_RANGE
  {
    exists fuel: nat, r :: SearchRun(text, buf, pos, n, fuel) == Returned(r) && IsFirst(text, buf[..n], pos, r)
  }

  ghost predicate AlwaysFindsFirst(buf: string, n: nat)
    requires '\0' in buf && n <= |buf| < SIZE_RANGE
  {
    forall text: string, pos: nat :: |text| < SIZE_RANGE / 2 ==> FindsFirst(text, buf, pos, n)
  }

  lemma {:induction false} SkipBadCharsSkipsNone(text: string, whole: string, pat: string, right: map<char, nat>,
                                                 pos: nat)
    requires pat != [] && pat <= whole && IsBadCharTable(whole, right)
    ensures NoneIn(text, pat, pos, SkipBadChars(text, pat, right, pos))
    decreases |text| - pos
  {
    var n := |pat|;
    if pos + n <= |text| && text[pos + n - 1] != pat[n - 1] {
      var next := pos + Delta1(right, text[pos + n - 1], n - 1);
      Delta1Skip(text, whole, pat, right, pos, n - 1);
      SkipBadCharsSkipsNone(text, whole, pat, right, next);
    }
  }

  /** The round answered rightly, or moved forward over positions without an occurrence. */
  ghost predicate RoundIsRight(text: string, pat: string, pos: nat, round: Round)
  {
    match round
    case Returned(r) => IsFirst(text, pat, pos, r)
    case Moved(next) => next > pos && NoneIn(text, pat, pos, next)
    case Overrun => false
  }

  /** Moving on by the larger of two shifts that pass over nothing, the first of them positive. */
  lemma AdvanceSkipsNone(text: string, pat: string, p: nat, d1: nat, d2: int)
    requires 1 <= d1 < SIZE_RANGE / 2 && 0 <= d2 < SIZE_RANGE / 2 && p < SIZE_RANGE / 2
    requires NoneIn(text, pat, p, p + d1) && NoneIn(text, pat, p, p + d2)
    ensures RoundIsRight(text, pat, p, Moved(Advance(p, d1, d2)))
  {
  }

  lemma MismatchMovesOn(text: string, whole: string, pat: string, right: map<char, nat>, p: nat, j: nat)
    requires pat <= whole && |whole| < SIZE_RANGE && IsBadCharTable(whole, right) && j + 1 < |pat|
             && ShiftFits(whole, |pat|, j)
    requires |text| < SIZE_RANGE / 2 && p + |pat| <= |text|
    requires text[p + j] != pat[j] && forall k :: j < k < |pat| ==> text[p + k] == pat[k]
    ensures RoundIsRight(text, pat, p, Moved(Advance(p, Delta1(right, text[p + j], j), TableShift(whole, |pat|, j))))
  {
    var n := |pat|;
    assert whole[..n] == pat;
    Delta1Skip(text, whole, pat, right, p, j);
    TableShiftSkip(text, whole, n, p, j);
    TableShiftBounds(whole, n, j);
    AdvanceSkipsNone(text, pat, p, Delta1(right, text[p + j], j), TableShift(whole, n, j));
  }

  lemma CompareIsRight(text: string, whole: string, pat: string, right: map<char, nat>, p: nat)
    requires pat != [] && pat <= whole && |whole| < SIZE_RANGE && TablesServe(whole, |pat|)
             && IsBadCharTable(whole, right)
    requires |text| < SIZE_RANGE / 2 && p + |pat| <= |text| && text[p + |pat| - 1] == pat[|pat| - 1]
    ensures RoundIsRight(text, pat, p, Compare(text, whole, pat, right, p))
  {
    var j := MismatchFrom(text, pat, p, |pat| - 1);
    if j >= 0 {
      MismatchMovesOn(text, whole, pat, right, p, j);
    } else {
      OccursPointwise(text, pat, p);
    }
  }

  lemma LaterRoundIsRight(text: string, pat: string, pos: nat, p: nat, round: Round)
    requires pos <= p && NoneIn(text, pat, pos, p) && RoundIsRight(text, pat, p, round)
    ensures RoundIsRight(text, pat, pos, round)
  {
  }

  lemma RoundSkipsNone(text: string, whole: string, pat: string, pos: nat)
    requires pat != [] && pat <= whole && |whole| < SIZE_RANGE && TablesServe(whole, |pat|)
    requires |text| < SIZE_RANGE / 2
    ensures RoundIsRight(text, pat, pos, OneRound(text, whole, pat, pos))
  {
    var right := BadCharTable(whole);
    var p := SkipBadChars(text, pat, right, pos);
    SkipBadCharsSkipsNone(text, whole, pat, right, pos);
    if p + |pat| <= |text| {
      CompareIsRight(text, whole, pat, right, p);
      LaterRoundIsRight(text, pat, pos, p, Compare(text, whole, pat, right, p));
    } else {
      NothingPastTheEnd(text, pat, pos, p);
    }
  }

  lemma {:induction false} RoundsFindFirst(text: string, whole: string, pat: string, pos: nat, fuel: nat)
    requires pat != [] && pat <= whole && |whole| < SIZE_RANGE && TablesServe(whole, |pat|)
    requires |text| < SIZE_RANGE / 2 && fuel + pos > |text| && fuel > 0
    ensures Rounds(text, whole, pat, pos, fuel).Returned?
    ensures IsFirst(text, pat, pos, Rounds(text, whole, pat, pos, fuel).r)
    decreases fuel
  {
    RoundSkipsNone(text, whole, pat, pos);
    var round := OneRound(text, whole, pat, pos);
    if round.Moved? && fuel > 1 {
      RoundsFindFirst(text, whole, pat, round.pos, fuel - 1);
      LaterRoundIsRight(text, pat, pos, round.pos, Rounds(text, whole, pat, round.pos, fuel - 1));
    }
  }

  // ----- Counts that are not served -----

  function OtherThan(c: char): (d: char)
    ensures d != c
  {
    if c == 'a' then 'b' else 'a'
  }

  /** The first round on a text that matches after `j` and not at `j`. */
  lemma FirstRound(text: string, whole: string, pat: string, j: nat)
    requires |whole| < SIZE_RANGE && j + 1 < |pat| <= |text|
    requires text[j] != pat[j] && forall k :: j < k < |pat| ==> text[k] == pat[k]
    ensures |pat| - 1 - j >= |whole| ==> OneRound(text, whole, pat, 0) == Overrun
    ensures |pat| - 1 - j < |whole| ==>
              var d2 := Delta2(j, |pat|, SuffixTable(whole), PrefixTable(whole));
              d2 > -SIZE_RANGE && OneRound(text, whole, pat, 0) ==
                  Moved(Advance(0, Delta1(BadCharTable(whole), text[j], j), d2))
  {
    var right := BadCharTable(whole);
    assert SkipBadChars(text, pat, right, 0) == 0;
    assert MismatchFrom(text, pat, 0, |pat| - 1) == j;
    if |pat| - 1 - j < |whole| {
      TableShiftBounds(whole, |pat|, j);
    }
  }

  /** The needle at `s`, over the needle at 0 with another character under `j`. */
  function Overlap(pat: string, j: nat, s: nat): (text: string)
    requires j < |pat| && s < |pat|
    ensures |text| == |pat| + s
  {
    seq(|pat| + s, i requires 0 <= i < |pat| + s =>
        if i >= s then pat[i - s] else if i == j then OtherThan(pat[j]) else pat[i])
  }

  /** For a good shift the two agree after `j` and differ at `j`. */
  lemma OverlapMatches(pat: string, j: nat, s: nat)
    requires j < |pat| && 1 <= s < |pat| && GoodShift(pat, j, s)
    ensures Overlap(pat, j, s)[j] != pat[j]
    ensures forall k :: j < k < |pat| ==> Overlap(pat, j, s)[k] == pat[k]
    ensures Occurs(Overlap(pat, j, s), pat, s)
  {
    var text := Overlap(pat, j, s);
    forall k | j < k < |pat| ensures text[k] == pat[k] {
      if k >= s {
        assert pat[k - s] == pat[k];
      }
    }
    OccursPointwise(text, pat, s);
  }

  /** When the shift passes over one that fits, that overlap hides an occurrence from the search. */
  lemma PassedOverShiftFails(whole: string, n: nat, j: nat, s: nat) returns (text: string)
    requires j + 1 < n <= |whole| < SIZE_RANGE / 4 && 1 <= s < TableShift(whole, n, j) && GoodShift(whole[..n], j, s)
    ensures |text| == n + s && s < n && Occurs(text, whole[..n], s)
    ensures OneRound(text, whole, whole[..n], 0).Moved? && OneRound(text, whole, whole[..n], 0).pos + n > |text|
  {
    var pat := whole[..n];
    TableShiftBounds(whole, n, j);
    OverlapMatches(pat, j, s);
    text := Overlap(pat, j, s);
    FirstRound(text, whole, pat, j);
    AdvancePasses(Delta1(BadCharTable(whole), text[j], j), TableShift(whole, n, j), s);
  }

  lemma AdvancePasses(d1: nat, d2: int, s: nat)
    requires s < d2 < SIZE_RANGE / 4 && d1 < SIZE_RANGE / 4
    ensures Advance(0, d1, d2) > s
  {
  }

  /** The needle with another character at `j`, and the needle behind it. */
  function SpoiltThenWhole(pat: string, j: nat): (text: string)
    requires j < |pat|
    ensures |text| == 2 * |pat| && text[j] != pat[j] && Occurs(text, pat, |pat|)
    ensures forall k :: j < k < |pat| ==> text[k] == pat[k]
  {
    pat[j := OtherThan(pat[j])] + pat
  }

  /** When the shift is negative it wraps, and the search gives up at once. */
  lemma NegativeShiftFails(whole: string, n: nat, j: nat) returns (text: string)
    requires j + 1 < n <= |whole| < SIZE_RANGE / 4 && TableShift(whole, n, j) < 0
    ensures |text| == 2 * n && Occurs(text, whole[..n], n)
    ensures OneRound(text, whole, whole[..n], 0).Moved? && OneRound(text, whole, whole[..n], 0).pos + n > |text|
  {
    var pat := whole[..n];
    TableShiftBounds(whole, n, j);
    text := SpoiltThenWhole(pat, j);
    FirstRound(text, whole, pat, j);
  }

  /** A first move past the end ends the search without an answer. */
  lemma GivesUp(text: string, whole: string, pat: string, i: nat, fuel: nat, r: SearchResult)
    requires pat != [] && |whole| < SIZE_RANGE && Occurs(text, pat, i)
    requires OneRound(text, whole, pat, 0).Moved? && OneRound(text, whole, pat, 0).pos + |pat| > |text|
    requires Rounds(text, whole, pat, 0, fuel) == Returned(r)
    ensures !IsFirst(text, pat, 0, r)
  {
    var next := OneRound(text, whole, pat, 0).pos;
    assert fuel >= 2;
    assert Rounds(text, whole, pat, next, fuel - 1) == OneRound(text, whole, pat, next) == Returned(Npos);
  }

  /** A count inside the C string that the tables do not serve: some text has an occurrence that is not found. */
  lemma UnservedCountFails(buf: string, n: nat) returns (text: string)
    requires '\0' in buf && |buf| < SIZE_RANGE / 4 && n <= Strlen(buf) && !TablesServe(CString(buf), n)
    ensures |text| < SIZE_RANGE / 2 && !FindsFirst(text, buf, 0, n)
  {
    var whole, pat := CString(buf), buf[..n];
    assert whole[..n] == pat;
    var j: nat :| j + 1 < n && !ShiftFits(whole, n, j);
    var i: nat;
    if TableShift(whole, n, j) < 0 {
      text := NegativeShiftFails(whole, n, j);
      i := n;
    } else {
      var s: nat :| 1 <= s < TableShift(whole, n, j) && GoodShift(pat, j, s);
      text := PassedOverShiftFails(whole, n, j, s);
      i := s;
    }
    forall fuel: nat, r | SearchRun(text, buf, 0, n, fuel) == Returned(r) ensures !IsFirst(text, pat, 0, r) {
      GivesUp(text, whole, pat, i, fuel, r);
    }
  }

  /** A count that reaches past the first NUL: the tables end before the needle does. On a text that differs from
      the needle in its first character only, the search asks for an entry they do not have. */
  lemma EmbeddedNulOverrunsTables(buf: string, n: nat, fuel: nat)
    requires '\0' in buf && Strlen(buf) < n <= |buf| < SIZE_RANGE && fuel > 0
    ensures SearchRun([OtherThan(buf[0])] + buf[1..n], buf, 0, n, fuel) == Overrun
  {
    var text, whole, pat := [OtherThan(buf[0])] + buf[1..n], CString(buf), buf[..n];
    if Strlen(buf) >= 1 {
      assert forall k :: 0 < k < n ==> text[k] == pat[k];
      FirstRound(text, whole, pat, 0);
    }
  }

  /** The search is right on every text exactly for the counts that are served. */
  lemma BoyerMooreIsExactIff(buf: string, n: nat)
    requires '\0' in buf && n <= |buf| < SIZE_RANGE / 4
    ensures AlwaysFindsFirst(buf, n) <==> CountIsServed(buf, n)
  {
    if CountIsServed(buf, n) {
      forall text: string, pos: nat | |text| < SIZE_RANGE / 2 ensures FindsFirst(text, buf, pos, n) {
        ServedCountFinds(text, buf, pos, n);
      }
    } else if n <= Strlen(buf) {
      var text := UnservedCountFails(buf, n);
    } else {
      var text := [OtherThan(buf[0])] + buf[1..n];
      forall fuel: nat, r ensures SearchRun(text, buf, 0, n, fuel) != Returned(r) {
        if fuel > 0 {
          EmbeddedNulOverrunsTables(buf, n, fuel);
        }
      }
      assert !FindsFirst(text, buf, 0, n);
    }
  }

  lemma ServedCountFinds(text: string, buf: string, pos: nat, n: nat)
    requires '\0' in buf && n <= |buf| < SIZE_RANGE && CountIsServed(buf, n) && |text| < SIZE_RANGE / 2
    ensures FindsFirst(text, buf, pos, n)
  {
    var fuel := |text| + 1;
    var run := SearchRun(text, buf, pos, n, fuel);
    if n > 0 && pos < |text| && n <= |text| - pos {
      assert buf[..n] == CString(buf)[..n];
      RoundsFindFirst(text, CString(buf), buf[..n], pos, fuel);
    }
    assert run.Returned? && IsFirst(text, buf[..n], pos, run.r);
  }

  /** The first two characters of "aab" are not served: a mismatch at 0 shifts by 2 where 1 fits. */
  lemma LongerBufferSkipsOccurrence()
    ensures Strlen("aab\0") == 3 && CString("aab\0") == "aab" && TableShift("aab", 2, 0) == 2
    ensures !CountIsServed("aab\0", 2)
  {
    assert Strlen("aab\0") == 3 by {
      assert "aab\0"[1..] == "ab\0" && "ab\0"[1..] == "b\0" && "b\0"[1..] == "\0";
    }
    var pat := "aab";
    assert !StrongMatch(pat, 1, 0) by {
      assert pat[0] != pat[2];
    }
    assert !StrongMatch(pat, 1, 1) by {
      assert pat[1] != pat[2];
    }
    assert SuffixTable(pat)[1] == RightmostMatch(pat, 1, 1) == RightmostMatch(pat, 1, 0) == -1;
    assert pat[..2] == "aa" && GoodShift("aa", 0, 1);
    assert !ShiftFits(pat, 2, 0);
  }

  /** For the first two characters of "xyazba" the shift is negative: the last 'a' reappears after them. */
  lemma LongerBufferMayWrap()
    ensures TableShift("xyazba", 2, 0) == -1 && !TablesServe("xyazba", 2)
  {
    var pat := "xyazba";
    assert !StrongMatch(pat, 1, 4) by {
      assert pat[4] != pat[5];
    }
    assert !StrongMatch(pat, 1, 3) by {
      assert pat[3] != pat[5];
    }
    assert StrongMatch(pat, 1, 2);
    assert RightmostMatch(pat, 1, 4) == RightmostMatch(pat, 1, 3) == RightmostMatch(pat, 1, 2) == 2;
    assert SuffixTable(pat)[1] == 2;
    assert !ShiftFits(pat, 2, 0);
  }
}
