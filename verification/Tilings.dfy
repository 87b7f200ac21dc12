/** How a virtual range is cut into pages: the greedy choice of `map_cont`, and why no
    other choice needs fewer pages. */
module Tilings {
  import opened PageSizes
  import opened PageTables
  import opened Results

  /** The page size picked at one step of the loop. */
  function Choose(v: nat, p: nat, remains: nat, huge: bool): (s: PageSize) {
    if huge && remains >= Bytes(Size1G) && Aligned(v, Size1G) && Aligned(p, Size1G) then Size1G
    else if huge && remains >= Bytes(Size2M) && Aligned(v, Size2M) && Aligned(p, Size2M) then Size2M
    else BASE
  }

  lemma ChooseFits(v: nat, p: nat, remains: nat, huge: bool)
    requires Aligned(v, BASE) && Aligned(remains, BASE) && remains > 0
    ensures var s := Choose(v, p, remains, huge);
            && IsPageSize(s) && Bytes(s) <= remains && Aligned(v, s)
            && Aligned(v + Bytes(s), BASE) && Aligned(remains - Bytes(s), BASE)
            && Aligned(AlignDown(BASE, p), s)
            && AlignDown(s, p) == AlignDown(BASE, p)
            && AlignDown(BASE, p + Bytes(s)) == AlignDown(BASE, p) + Bytes(s)
  {
    hide Aligned, AlignDown;
    var s := Choose(v, p, remains, huge);
    BaseIsSmallest(s);
    AlignedGap(0, remains, BASE);
    AlignedSum(v, Bytes(s), BASE);
    AlignedSum(remains, Bytes(s), BASE);
    AlignDownFits(BASE, p);
    if s != BASE {
      AlignedSmaller(p, BASE, s);
      AlignDownSelf(s, p);
      AlignDownSelf(BASE, p);
    }
    AlignedSum(AlignDown(BASE, p), Bytes(s), BASE);
    AlignDownUnique(BASE, AlignDown(BASE, p) + Bytes(s), p + Bytes(s));
  }

  /** The sizes `map_cont` picks, in order. */
  function Greedy(v: nat, p: nat, n: nat, huge: bool): (ts: seq<PageSize>)
    requires Aligned(v, BASE) && Aligned(n, BASE)
    decreases n
  {
    if n == 0 then [] else
      ChooseFits(v, p, n, huge);
      var s := Choose(v, p, n, huge);
      [s] + Greedy(v + Bytes(s), p + Bytes(s), n - Bytes(s), huge)
  }

  /** `ts` cuts `[v, v + n)`, mapped to `[p, p + n)`, into pages that are naturally aligned in
      both address spaces. */
  ghost predicate Tiles(v: nat, p: nat, n: nat, ts: seq<PageSize>)
    decreases |ts|
  {
    if ts == [] then n == 0 else
      var s := ts[0];
      && IsPageSize(s) && Bytes(s) <= n && Aligned(v, s) && Aligned(p, s)
      && Tiles(v + Bytes(s), p + Bytes(s), n - Bytes(s), ts[1..])
  }

  function Total(ts: seq<PageSize>): (n: nat) {
    if ts == [] then 0 else Bytes(ts[0]) + Total(ts[1..])
  }

  lemma {:induction false} TilesTotal(v: nat, p: nat, n: nat, ts: seq<PageSize>)
    requires Tiles(v, p, n, ts)
    ensures Total(ts) == n
    decreases |ts|
  {
    if ts != [] {
      TilesTotal(v + Bytes(ts[0]), p + Bytes(ts[0]), n - Bytes(ts[0]), ts[1..]);
    }
  }

  lemma {:induction false} TilesSnoc(v: nat, p: nat, n: nat, ts: seq<PageSize>, s: PageSize)
    requires Tiles(v, p, n, ts)
    requires IsPageSize(s) && Aligned(v + n, s) && Aligned(p + n, s)
    ensures Tiles(v, p, n + Bytes(s), ts + [s])
    decreases |ts|
  {
    hide Aligned, AlignDown;
    if ts == [] {
      assert (ts + [s])[1..] == [];
    } else {
      TilesSnoc(v + Bytes(ts[0]), p + Bytes(ts[0]), n - Bytes(ts[0]), ts[1..], s);
      assert (ts + [s])[1..] == ts[1..] + [s];
    }
  }

  /** The greedy sizes tile the range over the frame that holds `p`.  When `p` is not a
      base-page address the physical side is the enclosing frame, not `p` itself. */
  lemma {:induction false} GreedyTiles(v: nat, p: nat, n: nat, huge: bool)
    requires Aligned(v, BASE) && Aligned(n, BASE)
    ensures Tiles(v, AlignDown(BASE, p), n, Greedy(v, p, n, huge))
    decreases n
  {
    hide Aligned, AlignDown, Choose;
    if n != 0 {
      ChooseFits(v, p, n, huge);
      var s := Choose(v, p, n, huge);
      GreedyTiles(v + Bytes(s), p + Bytes(s), n - Bytes(s), huge);
      var ts := Greedy(v, p, n, huge);
      assert ts[1..] == Greedy(v + Bytes(s), p + Bytes(s), n - Bytes(s), huge);
    }
  }

  // ----- greedy is optimal

  /** A tiling that has entered an aligned block without leaving it has a cut at its end. */
  lemma {:induction false} CutAtBlockEnd(b: nat, large: PageSize, v: nat, p: nat, n: nat, ts: seq<PageSize>)
    returns (k: nat)
    requires IsPageSize(large) && Aligned(b, large)
    requires b < v <= b + Bytes(large) <= v + n
    requires Tiles(v, p, n, ts)
    ensures k <= |ts|
    ensures var d := b + Bytes(large) - v; Tiles(v + d, p + d, n - d, ts[k..])
    decreases |ts|
  {
    hide Aligned, AlignDown;
    if v == b + Bytes(large) {
      k := 0;
      assert ts[0..] == ts;
    } else {
      var s := ts[0];
      if Bytes(large) <= Bytes(s) {
        AlignedSmaller(v, large, s);
        AlignedGap(b, v, large);
        assert false;
      }
      NestedBlocks(v, s, b, large);
      k := CutAtBlockEnd(b, large, v + Bytes(s), p + Bytes(s), n - Bytes(s), ts[1..]);
      assert ts[1..][k..] == ts[k + 1..];
      k := k + 1;
    }
  }

  lemma ChooseLargest(v: nat, p: nat, n: nat, s: PageSize)
    requires IsPageSize(s) && Bytes(s) <= n && Aligned(v, s) && Aligned(p, s)
    ensures Bytes(s) <= Bytes(Choose(v, p, n, true))
  {
    hide Aligned, AlignDown;
    if s == Size1G {
    } else if s == BASE {
      BaseIsSmallest(Choose(v, p, n, true));
    }
  }

  /** No tiling by naturally aligned pages uses fewer pages than the greedy one. */
  lemma {:induction false} GreedyFewest(v: nat, p: nat, n: nat, ts: seq<PageSize>)
    requires Aligned(v, BASE) && Aligned(n, BASE)
    requires Tiles(v, p, n, ts)
    ensures |Greedy(v, p, n, true)| <= |ts|
    decreases n
  {
    hide Aligned, AlignDown;
    if n != 0 {
      var s, g := ts[0], Choose(v, p, n, true);
      ChooseFits(v, p, n, true);
      ChooseLargest(v, p, n, s);
      var rest: seq<PageSize>;
      if s == g {
        rest := ts[1..];
      } else {
        NestedBlocks(v, s, v, g);
        var k := CutAtBlockEnd(v, g, v + Bytes(s), p + Bytes(s), n - Bytes(s), ts[1..]);
        rest := ts[1..][k..];
      }
      GreedyFewest(v + Bytes(g), p + Bytes(g), n - Bytes(g), rest);
    }
  }

  // ----- what installing a tiling means

  function Install(ls: Leaves, v: nat, p: nat, ts: seq<PageSize>, flags: MMUFlags): (r: Leaves)
    decreases |ts|
  {
    if ts == [] then ls else
      Install(ls[v := Leaf(ts[0], p, flags)], v + Bytes(ts[0]), p + Bytes(ts[0]), ts[1..], flags)
  }

  lemma {:induction false} InstallSnoc(ls: Leaves, v: nat, p: nat, ts: seq<PageSize>, s: PageSize, flags: MMUFlags)
    ensures Install(ls, v, p, ts + [s], flags)
         == Install(ls, v, p, ts, flags)[v + Total(ts) := Leaf(s, p + Total(ts), flags)]
    decreases |ts|
  {
    hide Aligned, AlignDown;
    if ts == [] {
      assert (ts + [s])[1..] == [];
    } else {
      assert (ts + [s])[1..] == ts[1..] + [s];
      InstallSnoc(ls[v := Leaf(ts[0], p, flags)], v + Bytes(ts[0]), p + Bytes(ts[0]), ts[1..], s, flags);
    }
  }

  /** The linear translation of a contiguous mapping over a table that translates by `ls`. */
  function Linear(ls: Leaves, v: nat, p: nat, n: nat, flags: MMUFlags, a: nat): (r: Option<Translation>) {
    if v <= a < v + n then Some(Translation(p + (a - v), Permissions(flags))) else Translate(ls, a)
  }

  lemma InsertOne(ls: Leaves, v: nat, leaf: Leaf, a: nat)
    requires LeavesOk(ls) && LeafOk(v, leaf) && !Overlaps(ls, v, v + Bytes(leaf.size))
    ensures LeavesOk(ls[v := leaf])
    ensures Translate(ls[v := leaf], a) == Linear(ls, v, leaf.paddr, Bytes(leaf.size), leaf.flags, a)
  {
    hide Aligned, AlignDown;
    var ls' := ls[v := leaf];
    assert v !in ls;
    assert LeavesOk(ls');
    if v <= a < v + Bytes(leaf.size) {
      TranslateCovered(ls', v, a);
    } else {
      TranslateSame(ls, ls', a);
    }
  }

  /** Installing any tiling over free addresses gives the same linear translation, page size
      notwithstanding, and leaves every other address alone. */
  lemma {:induction false} InstallTranslates(ls: Leaves, v: nat, p: nat, n: nat, ts: seq<PageSize>, flags: MMUFlags, a: nat)
    requires LeavesOk(ls) && Tiles(v, p, n, ts) && !Overlaps(ls, v, v + n)
    ensures LeavesOk(Install(ls, v, p, ts, flags))
    ensures Translate(Install(ls, v, p, ts, flags), a) == Linear(ls, v, p, n, flags, a)
    decreases |ts|
  {
    hide Aligned, AlignDown, Translate;
    if ts != [] {
      var s := ts[0];
      var leaf := Leaf(s, p, flags);
      InsertOne(ls, v, leaf, a);
      InstallTranslates(ls[v := leaf], v + Bytes(s), p + Bytes(s), n - Bytes(s), ts[1..], flags, a);
    }
  }

  /** The leaves after `map_cont` has run to its end. */
  function MapRange(ls: Leaves, v: nat, p: nat, n: nat, flags: MMUFlags): (r: Leaves)
    requires Aligned(v, BASE) && Aligned(n, BASE)
  {
    Install(ls, v, AlignDown(BASE, p), Greedy(v, p, n, HugePage in flags), flags)
  }

  lemma MapRangeTranslates(ls: Leaves, v: nat, p: nat, n: nat, flags: MMUFlags, a: nat)
    requires LeavesOk(ls) && Aligned(v, BASE) && Aligned(n, BASE) && !Overlaps(ls, v, v + n)
    ensures LeavesOk(MapRange(ls, v, p, n, flags))
    ensures Translate(MapRange(ls, v, p, n, flags), a) == Linear(ls, v, AlignDown(BASE, p), n, flags, a)
  {
    hide Aligned, AlignDown;
    GreedyTiles(v, p, n, HugePage in flags);
    InstallTranslates(ls, v, AlignDown(BASE, p), n, Greedy(v, p, n, HugePage in flags), flags, a);
  }

  /** With and without `HUGE_PAGE` the same addresses reach the same bytes. */
  lemma HugeAndBaseAgree(ls: Leaves, v: nat, p: nat, n: nat, flags: MMUFlags, a: nat)
    requires LeavesOk(ls) && Aligned(v, BASE) && Aligned(n, BASE) && !Overlaps(ls, v, v + n)
    ensures Translate(MapRange(ls, v, p, n, flags + {HugePage}), a)
         == Translate(MapRange(ls, v, p, n, flags - {HugePage}), a)
  {
    hide Aligned, AlignDown, MapRange, Translate;
    MapRangeTranslates(ls, v, p, n, flags + {HugePage}, a);
    MapRangeTranslates(ls, v, p, n, flags - {HugePage}, a);
    assert Permissions(flags + {HugePage}) == Permissions(flags - {HugePage});
  }

  /** Only the virtual start and the length are checked for alignment, never the physical
      start.  The promised translation `p + (a - v)` holds exactly when `p` is aligned too. */
  lemma PhysicalStartMustBeAligned(ls: Leaves, v: nat, p: nat, n: nat, flags: MMUFlags, a: nat)
    requires LeavesOk(ls) && Aligned(v, BASE) && Aligned(n, BASE) && !Overlaps(ls, v, v + n)
    requires v <= a < v + n
    ensures Translate(MapRange(ls, v, p, n, flags), a) == Some(Translation(p + (a - v), Permissions(flags)))
       <==> Aligned(p, BASE)
  {
    hide Aligned, AlignDown, MapRange, Translate;
    MapRangeTranslates(ls, v, p, n, flags, a);
    AlignDownSelf(BASE, p);
  }
}
