/** Hash chains of the dense map: every entry lies on the chain that starts at its key's home slot, and the
    chain's links are offset indices in the metadata. */
module DenseMapChains {
  import opened DenseMapList

  /** Table size, probe offsets and the home slot of each key. */
  datatype Env = Env(n: nat, offsets: seq<nat>, home: Key -> nat)

  ghost predicate EnvOk(env: Env)
  {
    && env.n >= 1 && 1 <= |env.offsets| <= NUM_OFFSET_DISTS && env.offsets[0] == 0
    && (forall i :: 0 < i < |env.offsets| ==> env.offsets[i] != 0)
    && (forall k: Key :: env.home(k) < env.n)
  }

  /** The slot an offset index leads to: the probe wraps around a table whose size is a power of two. */
  function NextSlot(env: Env, s: int, off: nat): int
    requires env.n >= 1 && off < |env.offsets|
  {
    var t := s + env.offsets[off];
    if t >= env.n then t % env.n else t
  }

  /** The chain continues from `s` to `after`, or ends there when `after` is -1. */
  ghost predicate NextIs(env: Env, slots: seq<Slot>, s: int, after: int)
    requires env.n >= 1 && IsFull(slots, s)
  {
    && slots[s].off < |env.offsets|
    && if after == -1 then slots[s].off == 0 else slots[s].off != 0 && NextSlot(env, s, slots[s].off) == after
  }

  /** Element `i` of a stretch of the chain of `h`; `first` says the stretch starts with the head. */
  ghost predicate LinkOk(env: Env, slots: seq<Slot>, h: int, c: seq<int>, i: int, first: bool, after: int)
    requires env.n >= 1 && 0 <= i < |c|
  {
    && IsFull(slots, c[i]) && env.home(slots[c[i]].key) == h
    && slots[c[i]].isHead == (first && i == 0)
    && NextIs(env, slots, c[i], if i + 1 < |c| then c[i + 1] else after)
  }

  ghost predicate Stretch(env: Env, slots: seq<Slot>, h: int, c: seq<int>, first: bool, after: int)
    requires env.n >= 1
  {
    Distinct(c) && forall i :: 0 <= i < |c| ==> LinkOk(env, slots, h, c, i, first, after)
  }

  ghost predicate ChainOk(env: Env, slots: seq<Slot>, h: int, c: seq<int>)
    requires env.n >= 1
  {
    c != [] && c[0] == h && Stretch(env, slots, h, c, true, -1)
  }

  ghost predicate KeysDistinct(slots: seq<Slot>)
  {
    forall s, t :: IsFull(slots, s) && IsFull(slots, t) && s != t ==> slots[s].key != slots[t].key
  }

  ghost predicate OnChain(env: Env, slots: seq<Slot>, chains: map<int, seq<int>>, s: int)
    requires IsFull(slots, s)
  {
    var h := env.home(slots[s].key);
    h in chains && s in chains[h]
  }

  /** Every entry is on the one chain of its home slot; no slot is reserved. */
  ghost predicate ChainsOk(env: Env, slots: seq<Slot>, chains: map<int, seq<int>>)
    requires env.n >= 1
  {
    && |slots| == env.n && KeysDistinct(slots)
    && (forall h :: h in chains ==> ChainOk(env, slots, h, chains[h]))
    && (forall s :: IsFull(slots, s) ==> OnChain(env, slots, chains, s))
    && (forall s :: 0 <= s < |slots| ==> !slots[s].Protected?)
  }

  /** The links of the iteration list do not matter to the chains. */
  lemma ChainsIgnoreLinks(env: Env, a: seq<Slot>, b: seq<Slot>, chains: map<int, seq<int>>)
    requires env.n >= 1 && ChainsOk(env, a, chains) && SameData(a, b)
    ensures ChainsOk(env, b, chains)
  {
    assert forall s :: 0 <= s < |a| ==> SameSlot(a[s], b[s]);
    forall h | h in chains ensures ChainOk(env, b, h, chains[h]) {
      StretchIgnoresLinks(env, a, b, h, chains[h], true, -1);
    }
    forall s | IsFull(b, s) ensures OnChain(env, b, chains, s) {
      assert OnChain(env, a, chains, s);
    }
  }

  lemma StretchIgnoresLinks(env: Env, a: seq<Slot>, b: seq<Slot>, h: int, c: seq<int>, first: bool, after: int)
    requires env.n >= 1 && Stretch(env, a, h, c, first, after) && SameData(a, b)
    ensures Stretch(env, b, h, c, first, after)
  {
    forall i | 0 <= i < |c| ensures LinkOk(env, b, h, c, i, first, after) {
      assert LinkOk(env, a, h, c, i, first, after) && SameSlot(a[c[i]], b[c[i]]);
    }
  }

  /** A slot is on at most one chain. */
  lemma OneChain(env: Env, slots: seq<Slot>, chains: map<int, seq<int>>, g: int, h: int, s: int)
    requires env.n >= 1 && ChainsOk(env, slots, chains) && g in chains && h in chains && s in chains[g]
             && s in chains[h]
    ensures g == h
  {
    var i :| 0 <= i < |chains[g]| && chains[g][i] == s;
    var j :| 0 <= j < |chains[h]| && chains[h][j] == s;
    assert ChainOk(env, slots, g, chains[g]) && ChainOk(env, slots, h, chains[h]);
    assert LinkOk(env, slots, g, chains[g], i, true, -1) && LinkOk(env, slots, h, chains[h], j, true, -1);
  }

  /** The offset index tells whether the chain goes on, and where. */
  lemma OffsetTellsEnd(env: Env, slots: seq<Slot>, h: int, c: seq<int>, i: nat)
    requires env.n >= 1 && ChainOk(env, slots, h, c) && i < |c|
    ensures IsFull(slots, c[i]) && slots[c[i]].off < |env.offsets|
    ensures slots[c[i]].off == 0 <==> i == |c| - 1
    ensures i + 1 < |c| ==> NextSlot(env, c[i], slots[c[i]].off) == c[i + 1]
  {
    assert LinkOk(env, slots, h, c, i, true, -1);
    if i + 1 < |c| {
      assert LinkOk(env, slots, h, c, i + 1, true, -1);
    }
  }

  // ----- Changes off the stretch -----

  /** Writing a slot that is not on a stretch leaves the stretch alone. */
  lemma StretchElsewhere(env: Env, slots: seq<Slot>, h: int, c: seq<int>, first: bool, after: int,
                               s: int, x: Slot)
    requires env.n >= 1 && Stretch(env, slots, h, c, first, after) && 0 <= s < |slots| && s !in c
    ensures Stretch(env, slots[s := x], h, c, first, after)
  {
    var slots' := slots[s := x];
    forall i | 0 <= i < |c| ensures LinkOk(env, slots', h, c, i, first, after) {
      assert LinkOk(env, slots, h, c, i, first, after) && c[i] in c;
    }
  }

  /** A new head in an empty slot starts a chain. */
  lemma NewHead(env: Env, slots: seq<Slot>, chains: map<int, seq<int>>, h: int, x: Slot)
    requires EnvOk(env) && |slots| == env.n && 0 <= h < env.n && !slots[h].Full?
    requires ChainsOk(env, slots[h := Empty], chains) && h !in chains
    requires x.Full? && x.isHead && x.off == 0 && env.home(x.key) == h
    requires forall s :: IsFull(slots, s) ==> slots[s].key != x.key
    ensures ChainsOk(env, slots[h := x], chains[h := [h]])
  {
    var before, slots', chains' := slots[h := Empty], slots[h := x], chains[h := [h]];
    assert before[h := x] == slots';
    forall g | g in chains' ensures ChainOk(env, slots', g, chains'[g]) {
      if g != h {
        assert ChainOk(env, before, g, chains[g]);
        StretchIsFull(env, before, g, chains[g], true, -1);
        StretchElsewhere(env, before, g, chains[g], true, -1, h, x);
      } else {
        assert LinkOk(env, slots', h, [h], 0, true, -1);
      }
    }
    forall s | IsFull(slots', s) ensures OnChain(env, slots', chains', s) {
      if s != h {
        assert IsFull(before, s) && OnChain(env, before, chains, s);
      }
    }
    forall s, t | IsFull(slots', s) && IsFull(slots', t) && s != t ensures slots'[s].key != slots'[t].key {
      assert s != h ==> IsFull(before, s) && IsFull(slots, s);
      assert t != h ==> IsFull(before, t) && IsFull(slots, t);
    }
  }

  lemma StretchIsFull(env: Env, slots: seq<Slot>, h: int, c: seq<int>, first: bool, after: int)
    requires env.n >= 1 && Stretch(env, slots, h, c, first, after)
    ensures forall s :: s in c ==> IsFull(slots, s) && env.home(slots[s].key) == h
  {
    forall s | s in c ensures IsFull(slots, s) && env.home(slots[s].key) == h {
      var i :| 0 <= i < |c| && c[i] == s;
      assert LinkOk(env, slots, h, c, i, first, after);
    }
  }

  /** A new entry in an empty slot, linked from the last element of its chain. */
  lemma NewTail(env: Env, slots: seq<Slot>, chains: map<int, seq<int>>, h: int, e: int, off: nat, x: Slot)
    requires EnvOk(env) && ChainsOk(env, slots, chains) && h in chains && 0 <= e < env.n && slots[e].Empty?
    requires x.Full? && !x.isHead && x.off == 0 && env.home(x.key) == h
    requires 0 < off < |env.offsets| && IsFull(slots, chains[h][|chains[h]| - 1])
    requires NextSlot(env, chains[h][|chains[h]| - 1], off) == e
    requires forall s :: IsFull(slots, s) ==> slots[s].key != x.key
    ensures var last := chains[h][|chains[h]| - 1];
      ChainsOk(env, slots[e := x][last := slots[last].(off := off)], chains[h := chains[h] + [e]])
  {
    var c := chains[h];
    var last := c[|c| - 1];
    assert ChainOk(env, slots, h, c);
    StretchIsFull(env, slots, h, c, true, -1);
    var slots' := slots[e := x][last := slots[last].(off := off)];
    var c' := c + [e];
    var chains' := chains[h := c'];
    forall i | 0 <= i < |c'| ensures LinkOk(env, slots', h, c', i, true, -1) {
      if i < |c| {
        assert LinkOk(env, slots, h, c, i, true, -1) && c[i] in c;
      }
    }
    assert last in c;
    forall g | g in chains' && g != h ensures ChainOk(env, slots', g, chains'[g]) {
      assert ChainOk(env, slots, g, chains[g]);
      StretchIsFull(env, slots, g, chains[g], true, -1);
      StretchElsewhere(env, slots, g, chains[g], true, -1, e, x);
      StretchElsewhere(env, slots[e := x], g, chains[g], true, -1, last, slots[last].(off := off));
    }
    forall s | IsFull(slots', s) ensures OnChain(env, slots', chains', s) {
      if s != e {
        assert OnChain(env, slots, chains, s);
      }
    }
  }

  // ----- Erasing -----

  /** Two entries of one chain may trade their data. */
  lemma SwapData(env: Env, slots: seq<Slot>, chains: map<int, seq<int>>, h: int, a: int, b: int)
    requires env.n >= 1 && ChainsOk(env, slots, chains) && h in chains && a in chains[h] && b in chains[h]
    requires IsFull(slots, a) && IsFull(slots, b)
    ensures ChainsOk(env, Swapped(slots, a, b), chains)
  {
    var slots' := Swapped(slots, a, b);
    assert ChainOk(env, slots, h, chains[h]);
    StretchIsFull(env, slots, h, chains[h], true, -1);
    forall g | g in chains ensures ChainOk(env, slots', g, chains[g]) {
      assert ChainOk(env, slots, g, chains[g]);
      forall i | 0 <= i < |chains[g]| ensures LinkOk(env, slots', g, chains[g], i, true, -1) {
        assert LinkOk(env, slots, g, chains[g], i, true, -1);
      }
    }
    forall s | IsFull(slots', s) ensures OnChain(env, slots', chains, s) {
      assert OnChain(env, slots, chains, s);
    }
  }

  function Swapped(slots: seq<Slot>, a: int, b: int): seq<Slot>
    requires IsFull(slots, a) && IsFull(slots, b)
  {
    slots[a := slots[a].(key := slots[b].key, value := slots[b].value)]
         [b := slots[b].(key := slots[a].key, value := slots[a].value)]
  }

  /** The last entry of a chain goes and the one before it becomes the end. */
  lemma DropLast(env: Env, slots: seq<Slot>, chains: map<int, seq<int>>, h: int)
    requires env.n >= 1 && ChainsOk(env, slots, chains) && h in chains && |chains[h]| >= 2
    ensures var c := chains[h];
      var last, prev := c[|c| - 1], c[|c| - 2];
      && IsFull(slots, prev) && last != prev && 0 <= last < |slots|
      && ChainsOk(env, slots[last := Empty][prev := slots[prev].(off := 0)], chains[h := c[..|c| - 1]])
  {
    var c := chains[h];
    var last, prev := c[|c| - 1], c[|c| - 2];
    assert ChainOk(env, slots, h, c);
    StretchIsFull(env, slots, h, c, true, -1);
    assert last in c && prev in c;
    var x := slots[prev].(off := 0);
    var slots', c' := slots[last := Empty][prev := x], c[..|c| - 1];
    var chains' := chains[h := c'];
    forall i | 0 <= i < |c'| ensures LinkOk(env, slots', h, c', i, true, -1) {
      assert LinkOk(env, slots, h, c, i, true, -1);
    }
    forall g | g in chains' && g != h ensures ChainOk(env, slots', g, chains'[g]) {
      assert ChainOk(env, slots, g, chains[g]);
      StretchIsFull(env, slots, g, chains[g], true, -1);
      StretchElsewhere(env, slots, g, chains[g], true, -1, last, Empty);
      StretchElsewhere(env, slots[last := Empty], g, chains[g], true, -1, prev, x);
    }
    forall s | IsFull(slots', s) ensures OnChain(env, slots', chains', s) {
      assert OnChain(env, slots, chains, s);
      if env.home(slots[s].key) == h {
        var i :| 0 <= i < |c| && c[i] == s;
        assert c'[i] == s;
      }
    }
  }

  /** A chain of one entry disappears with it. */
  lemma DropOnly(env: Env, slots: seq<Slot>, chains: map<int, seq<int>>, h: int)
    requires env.n >= 1 && ChainsOk(env, slots, chains) && h in chains && |chains[h]| == 1
    ensures 0 <= h < |slots| && ChainsOk(env, slots[h := Empty], chains - {h})
  {
    assert ChainOk(env, slots, h, chains[h]);
    StretchIsFull(env, slots, h, chains[h], true, -1);
    assert h in chains[h];
    var slots', chains' := slots[h := Empty], chains - {h};
    forall g | g in chains' ensures ChainOk(env, slots', g, chains'[g]) {
      assert ChainOk(env, slots, g, chains[g]);
      StretchIsFull(env, slots, g, chains[g], true, -1);
      StretchElsewhere(env, slots, g, chains[g], true, -1, h, Empty);
    }
    forall s | IsFull(slots', s) ensures OnChain(env, slots', chains', s) {
      assert OnChain(env, slots, chains, s);
    }
  }

  // ----- Relocating the rest of a chain -----

  /** The chain of `h` is being moved away from `target`: `built` is its part in place, `rest` the part still to
      move. `linked` says the two are still linked, which is before the first move; from then on `target` is
      reserved. */
  ghost predicate SplitOk(env: Env, slots: seq<Slot>, chains: map<int, seq<int>>, h: int,
                          built: seq<int>, rest: seq<int>, linked: bool, target: int)
    requires env.n >= 1
  {
    && |slots| == env.n && KeysDistinct(slots) && h in chains && 0 <= target < |slots|
    && (forall g :: g in chains && g != h ==> ChainOk(env, slots, g, chains[g]))
    && built != [] && built[0] == h && (linked ==> rest != [] && rest[0] == target)
    && Stretch(env, slots, h, built, true, if linked then rest[0] else -1)
    && Stretch(env, slots, h, rest, false, -1)
    && (forall s :: s in built ==> s !in rest)
    && (forall s :: IsFull(slots, s) ==> OnSplit(env, slots, chains, h, built, rest, s))
    && (forall s :: 0 <= s < |slots| && slots[s].Protected? ==> s == target)
    && (!linked ==> slots[target].Protected?)
  }

  ghost predicate OnSplit(env: Env, slots: seq<Slot>, chains: map<int, seq<int>>, h: int,
                          built: seq<int>, rest: seq<int>, s: int)
    requires IsFull(slots, s)
  {
    var g := env.home(slots[s].key);
    if g == h then s in built || s in rest else g in chains && s in chains[g]
  }

  /** Cutting an intact chain before its element `i`. */
  lemma StartSplit(env: Env, slots: seq<Slot>, chains: map<int, seq<int>>, h: int, i: nat)
    requires env.n >= 1 && ChainsOk(env, slots, chains) && h in chains && 1 <= i < |chains[h]|
    ensures SplitOk(env, slots, chains, h, chains[h][..i], chains[h][i..], true, chains[h][i])
  {
    var c := chains[h];
    assert ChainOk(env, slots, h, c);
    StretchIsFull(env, slots, h, c, true, -1);
    var built, rest := c[..i], c[i..];
    assert c[i] in c;
    forall k | 0 <= k < |built| ensures LinkOk(env, slots, h, built, k, true, rest[0]) {
      assert LinkOk(env, slots, h, c, k, true, -1);
    }
    forall k | 0 <= k < |rest| ensures LinkOk(env, slots, h, rest, k, false, -1) {
      assert LinkOk(env, slots, h, c, i + k, true, -1);
    }
    forall s | IsFull(slots, s) ensures OnSplit(env, slots, chains, h, built, rest, s) {
      assert OnChain(env, slots, chains, s);
      assert c == built + rest;
    }
  }

  /** Once everything has moved, the chain is whole again around the reserved slot. */
  lemma FinishSplit(env: Env, slots: seq<Slot>, chains: map<int, seq<int>>, h: int, built: seq<int>, target: int)
    requires env.n >= 1 && SplitOk(env, slots, chains, h, built, [], false, target)
    ensures ChainsOk(env, slots[target := Empty], chains[h := built])
  {
    var slots', chains' := slots[target := Empty], chains[h := built];
    StretchIsFull(env, slots, h, built, true, -1);
    StretchElsewhere(env, slots, h, built, true, -1, target, Empty);
    forall g | g in chains' && g != h ensures ChainOk(env, slots', g, chains'[g]) {
      assert ChainOk(env, slots, g, chains[g]);
      StretchIsFull(env, slots, g, chains[g], true, -1);
      StretchElsewhere(env, slots, g, chains[g], true, -1, target, Empty);
    }
    forall s | IsFull(slots', s) ensures OnChain(env, slots', chains', s) {
      assert IsFull(slots, s) && OnSplit(env, slots, chains, h, built, [], s);
    }
  }

  /** The slots after the first entry `r` of the rest has moved to the empty slot `e` behind `prev`. */
  function Moved(slots: seq<Slot>, prev: int, r: int, e: int, off: nat, reserve: bool): seq<Slot>
    requires IsFull(slots, prev) && IsFull(slots, r) && 0 <= e < |slots|
  {
    slots[e := slots[r].(isHead := false, off := 0)][r := if reserve then Protected else Empty]
         [prev := slots[prev].(off := off)]
  }

  lemma MoveOne(env: Env, slots: seq<Slot>, chains: map<int, seq<int>>, h: int, built: seq<int>, rest: seq<int>,
                linked: bool, target: int, e: int, off: nat)
    requires EnvOk(env) && SplitOk(env, slots, chains, h, built, rest, linked, target) && rest != []
    requires 0 <= e < |slots| && slots[e].Empty? && 0 < off < |env.offsets|
    requires NextSlot(env, built[|built| - 1], off) == e
    ensures var prev := built[|built| - 1];
      && IsFull(slots, prev) && IsFull(slots, rest[0]) && prev != rest[0]
      && SplitOk(env, Moved(slots, prev, rest[0], e, off, linked), chains, h, built + [e], rest[1..], false, target)
  {
    var prev, r := built[|built| - 1], rest[0];
    var after := if linked then rest[0] else -1;
    StretchIsFull(env, slots, h, built, true, after);
    StretchIsFull(env, slots, h, rest, false, -1);
    assert prev in built && r in rest;
    MoveOneBuilt(env, slots, h, built, rest, linked, e, off);
    MoveOneRest(env, slots, h, built, rest, linked, e, off);
    var slots' := Moved(slots, prev, r, e, off, linked);
    forall g | g in chains && g != h ensures ChainOk(env, slots', g, chains[g]) {
      assert ChainOk(env, slots, g, chains[g]);
      StretchIsFull(env, slots, g, chains[g], true, -1);
      var x := slots[r].(isHead := false, off := 0);
      StretchElsewhere(env, slots, g, chains[g], true, -1, e, x);
      StretchElsewhere(env, slots[e := x], g, chains[g], true, -1, r, if linked then Protected else Empty);
      StretchElsewhere(env, slots[e := x][r := if linked then Protected else Empty], g, chains[g], true, -1,
                       prev, slots[prev].(off := off));
    }
    forall s | IsFull(slots', s) ensures OnSplit(env, slots', chains, h, built + [e], rest[1..], s) {
      if s != e {
        assert OnSplit(env, slots, chains, h, built, rest, s);
        assert rest == [r] + rest[1..];
      }
    }
  }

  lemma MoveOneBuilt(env: Env, slots: seq<Slot>, h: int, built: seq<int>, rest: seq<int>, linked: bool, e: int,
                     off: nat)
    requires env.n >= 1 && built != [] && rest != [] && (forall s :: s in built ==> s !in rest)
    requires Stretch(env, slots, h, built, true, if linked then rest[0] else -1)
    requires Stretch(env, slots, h, rest, false, -1)
    requires 0 <= e < |slots| && slots[e].Empty? && 0 < off < |env.offsets|
    requires NextSlot(env, built[|built| - 1], off) == e
    ensures IsFull(slots, built[|built| - 1]) && IsFull(slots, rest[0])
    ensures Stretch(env, Moved(slots, built[|built| - 1], rest[0], e, off, linked), h, built + [e], true, -1)
  {
    var after := if linked then rest[0] else -1;
    StretchIsFull(env, slots, h, built, true, after);
    StretchIsFull(env, slots, h, rest, false, -1);
    assert built[|built| - 1] in built && rest[0] in rest;
    var slots', c := Moved(slots, built[|built| - 1], rest[0], e, off, linked), built + [e];
    forall i | 0 <= i < |c| ensures LinkOk(env, slots', h, c, i, true, -1) {
      if i < |built| {
        assert LinkOk(env, slots, h, built, i, true, after) && built[i] in built;
      }
    }
  }

  lemma MoveOneRest(env: Env, slots: seq<Slot>, h: int, built: seq<int>, rest: seq<int>, linked: bool, e: int, off: nat)
    requires env.n >= 1 && built != [] && rest != [] && (forall s :: s in built ==> s !in rest)
    requires Stretch(env, slots, h, built, true, if linked then rest[0] else -1)
    requires Stretch(env, slots, h, rest, false, -1)
    requires 0 <= e < |slots| && slots[e].Empty? && 0 < off < |env.offsets|
    ensures IsFull(slots, built[|built| - 1]) && IsFull(slots, rest[0])
    ensures Stretch(env, Moved(slots, built[|built| - 1], rest[0], e, off, linked), h, rest[1..], false, -1)
    ensures forall s :: s in built + [e] ==> s !in rest[1..]
  {
    var after := if linked then rest[0] else -1;
    StretchIsFull(env, slots, h, built, true, after);
    StretchIsFull(env, slots, h, rest, false, -1);
    assert built[|built| - 1] in built && rest[0] in rest;
    var slots', c := Moved(slots, built[|built| - 1], rest[0], e, off, linked), rest[1..];
    forall i | 0 <= i < |c| ensures LinkOk(env, slots', h, c, i, false, -1) {
      assert LinkOk(env, slots, h, rest, i + 1, false, -1) && rest[i + 1] in rest;
    }
  }

  lemma SplitIgnoresLinks(env: Env, a: seq<Slot>, b: seq<Slot>, chains: map<int, seq<int>>, h: int,
                          built: seq<int>, rest: seq<int>, linked: bool, target: int)
    requires env.n >= 1 && SplitOk(env, a, chains, h, built, rest, linked, target) && SameData(a, b)
    ensures SplitOk(env, b, chains, h, built, rest, linked, target)
  {
    assert forall s :: 0 <= s < |a| ==> SameSlot(a[s], b[s]);
    StretchIgnoresLinks(env, a, b, h, built, true, if linked then rest[0] else -1);
    StretchIgnoresLinks(env, a, b, h, rest, false, -1);
    forall g | g in chains && g != h ensures ChainOk(env, b, g, chains[g]) {
      assert ChainOk(env, a, g, chains[g]);
      StretchIgnoresLinks(env, a, b, g, chains[g], true, -1);
    }
    forall s | IsFull(b, s) ensures OnSplit(env, b, chains, h, built, rest, s) {
      assert OnSplit(env, a, chains, h, built, rest, s);
    }
  }

  /** Values do not matter to the chains. */
  lemma ChainsIgnoreValue(env: Env, slots: seq<Slot>, chains: map<int, seq<int>>, s: int, v: Value)
    requires env.n >= 1 && ChainsOk(env, slots, chains) && IsFull(slots, s)
    ensures ChainsOk(env, slots[s := slots[s].(value := v)], chains)
  {
    var slots' := slots[s := slots[s].(value := v)];
    forall h | h in chains ensures ChainOk(env, slots', h, chains[h]) {
      assert ChainOk(env, slots, h, chains[h]);
      forall i | 0 <= i < |chains[h]| ensures LinkOk(env, slots', h, chains[h], i, true, -1) {
        assert LinkOk(env, slots, h, chains[h], i, true, -1);
      }
    }
    forall t | IsFull(slots', t) ensures OnChain(env, slots', chains, t) {
      assert OnChain(env, slots, chains, t);
    }
  }

  /** A chain starts at a slot that holds its head. */
  lemma ChainHeadIsFull(env: Env, slots: seq<Slot>, chains: map<int, seq<int>>, h: int)
    requires env.n >= 1 && ChainsOk(env, slots, chains) && h in chains
    ensures IsFull(slots, h) && slots[h].isHead
  {
    assert ChainOk(env, slots, h, chains[h]);
    assert LinkOk(env, slots, h, chains[h], 0, true, -1);
  }

  /** Erasing an entry with successors: its data leaves with the last element of the chain. */
  lemma SwapAndDropLast(env: Env, slots: seq<Slot>, chains: map<int, seq<int>>, h: int, cur: int)
    requires env.n >= 1 && ChainsOk(env, slots, chains) && h in chains && |chains[h]| >= 2 && cur in chains[h]
    requires IsFull(slots, cur) && IsFull(slots, chains[h][|chains[h]| - 1])
    ensures var c := chains[h];
      var last, prev := c[|c| - 1], c[|c| - 2];
      var swapped := Swapped(slots, cur, last);
      && IsFull(swapped, prev) && last != prev && 0 <= last < |slots|
      && ChainsOk(env, swapped[last := Empty][prev := swapped[prev].(off := 0)], chains[h := c[..|c| - 1]])
  {
    var c := chains[h];
    var last := c[|c| - 1];
    assert last in c;
    SwapData(env, slots, chains, h, cur, last);
    DropLast(env, Swapped(slots, cur, last), chains, h);
  }
}
