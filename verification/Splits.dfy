/** Which leaves `unmap_cont` leaves behind: those clear of the range, and the parts outside it
    of the at most two pages that stick out, mapped again with the largest aligned pages. */
module Splits {
  import opened PageSizes
  import opened PageTables
  import opened RangeSpecs
  import opened Results
  import opened Tilings

  predicate Meets(k: nat, leaf: Leaf, lo: nat, hi: nat) {
    lo < hi && k < hi && lo < k + Bytes(leaf.size)
  }

  /** The leaves that have no address in `[lo, hi)`. */
  function Outside(ls: Leaves, lo: nat, hi: nat): (r: Leaves) {
    map k | k in ls && !Meets(k, ls[k], lo, hi) :: ls[k]
  }

  lemma PartsAligned(ls: Leaves, a: nat)
    requires LeavesOk(ls) && Aligned(a, BASE)
    ensures LeafAt(ls, a).Some? ==>
              var k := LeafAt(ls, a).value;
              && Covers(ls, k, a) && k in ls
              && Aligned(k, BASE) && Aligned(a - k, BASE) && Aligned(k + Bytes(ls[k].size) - a, BASE)
  {
    hide Aligned, AlignDown, PageOffset, LeafAt;
    QueryOffset(ls, a);
    if LeafAt(ls, a).Some? {
      var k := LeafAt(ls, a).value;
      var s := ls[k].size;
      BaseIsSmallest(s);
      AlignedSmaller(k, BASE, s);
      AlignedSum(a, k, BASE);
      AlignedSum(k, Bytes(s), BASE);
      AlignedSum(k + Bytes(s), a, BASE);
    }
  }

  /** `m` with the part below `lo` of the page that sticks out there. */
  ghost function WithLow(ls: Leaves, lo: nat, m: Leaves): (r: Leaves)
    requires LeavesOk(ls) && Aligned(lo, BASE)
  {
    PartsAligned(ls, lo);
    match LeafAt(ls, lo)
    case None => m
    case Some(k) =>
      if k < lo then MapRange(m, k, ls[k].paddr, lo - k, ls[k].flags + {HugePage}) else m
  }

  /** `m` with the part from `hi` on of the page that sticks out there. */
  ghost function WithHigh(ls: Leaves, hi: nat, m: Leaves): (r: Leaves)
    requires LeavesOk(ls) && Aligned(hi, BASE)
  {
    PartsAligned(ls, hi);
    match LeafAt(ls, hi)
    case None => m
    case Some(k) =>
      if k < hi
      then MapRange(m, hi, ls[k].paddr + (hi - k), k + Bytes(ls[k].size) - hi, ls[k].flags + {HugePage})
      else m
  }

  /** The loop has come from `lo` to `v`, and no page reaches beyond `v`. */
  ghost function PrunedTo(ls: Leaves, lo: nat, v: nat): (r: Leaves)
    requires LeavesOk(ls) && Aligned(lo, BASE)
  {
    if lo >= v then ls else WithLow(ls, lo, Outside(ls, lo, v))
  }

  ghost function Pruned(ls: Leaves, lo: nat, hi: nat): (r: Leaves)
    requires LeavesOk(ls) && Aligned(lo, BASE) && Aligned(hi, BASE)
  {
    if lo >= hi then ls else WithHigh(ls, hi, PrunedTo(ls, lo, hi))
  }

  // ----- a gap

  lemma GapMeetsNothing(ls: Leaves, k: nat, v: nat)
    requires LeavesOk(ls) && Aligned(v, BASE) && Translate(ls, v).None? && k in ls
    ensures !Meets(k, ls[k], v, v + Bytes(BASE))
  {
    hide Aligned, Translate;
    TranslateUncovered(ls, v);
    if Meets(k, ls[k], v, v + Bytes(BASE)) {
      BasePageCovered(ls, k, v, if k < v then v else k);
    }
  }

  lemma GapPrunes(ls: Leaves, lo: nat, v: nat)
    requires LeavesOk(ls) && Aligned(lo, BASE) && Aligned(v, BASE) && lo <= v && Translate(ls, v).None?
    ensures PrunedTo(ls, lo, v + Bytes(BASE)) == PrunedTo(ls, lo, v)
  {
    hide Aligned, Translate, LeafAt, MapRange;
    var w := v + Bytes(BASE);
    forall k | k in ls
      ensures Meets(k, ls[k], lo, w) <==> Meets(k, ls[k], lo, v)
    {
      GapMeetsNothing(ls, k, v);
    }
    if lo < v {
      assert Outside(ls, lo, w) == Outside(ls, lo, v);
    } else {
      assert Outside(ls, lo, w) == ls;
      UncoveredLeafAt(ls, v);
    }
  }

  lemma UncoveredLeafAt(ls: Leaves, v: nat)
    requires LeavesOk(ls)
    ensures Translate(ls, v).None? <==> LeafAt(ls, v).None?
  {
    hide Aligned, AlignDown;
    LeafAtCovers(ls, v);
  }

  // ----- a page

  /** The only page that meets a stretch of one page is that page. */
  lemma StretchOfPage(ls: Leaves, k: nat, lo: nat, hi: nat, j: nat)
    requires LeavesOk(ls) && k in ls && k <= lo < hi <= k + Bytes(ls[k].size) && j in ls
    ensures Meets(j, ls[j], lo, hi) <==> j == k
  {
    hide Aligned;
  }

  lemma FirstPagePrunes(ls: Leaves, k: nat, lo: nat, v: nat)
    requires LeavesOk(ls) && Aligned(lo, BASE)
    requires Covers(ls, k, lo) && lo < v <= k + Bytes(ls[k].size)
    ensures Aligned(k, BASE) && Aligned(lo - k, BASE)
    ensures PrunedTo(ls, lo, v) == if k < lo then MapRange(ls - {k}, k, ls[k].paddr, lo - k, ls[k].flags + {HugePage})
                                   else ls - {k}
  {
    hide Aligned, LeafAt, MapRange, Meets;
    forall j | j in ls
      ensures Meets(j, ls[j], lo, v) <==> j == k
    {
      StretchOfPage(ls, k, lo, v, j);
    }
    assert Outside(ls, lo, v) == ls - {k};
    PartsAligned(ls, lo);
    LeafAtCovers(ls, lo);
  }

  lemma {:induction false} InstallWithout(ls: Leaves, v: nat, p: nat, n: nat, ts: seq<PageSize>, flags: MMUFlags, k: nat)
    requires Tiles(v, p, n, ts) && v + n <= k
    ensures Install(ls - {k}, v, p, ts, flags) == Install(ls, v, p, ts, flags) - {k}
    decreases |ts|
  {
    hide Aligned;
    if ts != [] {
      var leaf := Leaf(ts[0], p, flags);
      assert (ls - {k})[v := leaf] == ls[v := leaf] - {k};
      InstallWithout(ls[v := leaf], v + Bytes(ts[0]), p + Bytes(ts[0]), n - Bytes(ts[0]), ts[1..], flags, k);
    }
  }

  lemma WithLowWithout(ls: Leaves, lo: nat, m: Leaves, k: nat)
    requires LeavesOk(ls) && Aligned(lo, BASE) && lo <= k
    ensures WithLow(ls, lo, m - {k}) == WithLow(ls, lo, m) - {k}
  {
    hide Aligned, AlignDown, LeafAt, Greedy, Tiles, Install;
    PartsAligned(ls, lo);
    if LeafAt(ls, lo).Some? {
      var j := LeafAt(ls, lo).value;
      var flags := ls[j].flags + {HugePage};
      GreedyTiles(j, ls[j].paddr, lo - j, HugePage in flags);
      InstallWithout(m, j, AlignDown(BASE, ls[j].paddr), lo - j, Greedy(j, ls[j].paddr, lo - j, HugePage in flags), flags, k);
    }
  }

  lemma LaterPagePrunes(ls: Leaves, lo: nat, k: nat, v: nat)
    requires LeavesOk(ls) && Aligned(lo, BASE)
    requires lo < k && k in ls && k < v <= k + Bytes(ls[k].size)
    ensures PrunedTo(ls, lo, v) == PrunedTo(ls, lo, k) - {k}
  {
    hide Aligned, WithLow;
    forall j | j in ls
      ensures Meets(j, ls[j], lo, v) <==> Meets(j, ls[j], lo, k) || j == k
    {
      StretchOfPage(ls, k, k, v, j);
    }
    assert Outside(ls, lo, v) == Outside(ls, lo, k) - {k};
    WithLowWithout(ls, lo, Outside(ls, lo, k), k);
  }

  // ----- the end

  lemma HighPart(ls: Leaves, k: nat, hi: nat, m: Leaves)
    requires LeavesOk(ls) && Aligned(hi, BASE) && Covers(ls, k, hi) && k < hi
    ensures Aligned(k + Bytes(ls[k].size) - hi, BASE)
    ensures WithHigh(ls, hi, m)
         == MapRange(m, hi, ls[k].paddr + (hi - k), k + Bytes(ls[k].size) - hi, ls[k].flags + {HugePage})
  {
    hide Aligned, LeafAt, MapRange;
    PartsAligned(ls, hi);
    LeafAtCovers(ls, hi);
  }

  lemma NoHighPart(ls: Leaves, hi: nat, m: Leaves)
    requires LeavesOk(ls) && Aligned(hi, BASE)
    requires forall k :: k in ls ==> !(k < hi < k + Bytes(ls[k].size))
    ensures WithHigh(ls, hi, m) == m
  {
    hide Aligned, LeafAt, MapRange;
    PartsAligned(ls, hi);
  }

  /** A page that ends at `hi`, or a gap before it, leaves nothing to stick out. */
  lemma NothingSticksOut(ls: Leaves, lo: nat, hi: nat)
    requires LeavesOk(ls) && lo < hi && Aligned(hi, BASE)
    requires (Aligned(lo, BASE) && hi == lo + Bytes(BASE) && Translate(ls, lo).None?)
          || exists k :: k in ls && k <= lo && hi == k + Bytes(ls[k].size)
    ensures forall j :: j in ls ==> !(j < hi < j + Bytes(ls[j].size))
  {
    hide Aligned, Translate;
    forall j | j in ls
      ensures !(j < hi < j + Bytes(ls[j].size))
    {
      if k :| k in ls && k <= lo && hi == k + Bytes(ls[k].size) {
        StretchOfPage(ls, k, k, hi, j);
      } else {
        GapMeetsNothing(ls, j, lo);
      }
    }
  }

  /** When no page sticks out, the pages inside the range go and nothing else happens. */
  lemma PrunedWithoutCuts(ls: Leaves, lo: nat, hi: nat)
    requires LeavesOk(ls) && Aligned(lo, BASE) && Aligned(hi, BASE) && !Cuts(ls, lo, hi)
    ensures Pruned(ls, lo, hi) == Outside(ls, lo, hi)
  {
    hide Aligned, LeafAt, MapRange;
    PartsAligned(ls, lo);
    PartsAligned(ls, hi);
  }

  lemma {:induction false} InstallElsewhere(ls: Leaves, v: nat, p: nat, n: nat, ts: seq<PageSize>, flags: MMUFlags, k: nat)
    requires Tiles(v, p, n, ts) && k in ls && (k < v || v + n <= k)
    ensures k in Install(ls, v, p, ts, flags) && Install(ls, v, p, ts, flags)[k] == ls[k]
    decreases |ts|
  {
    hide Aligned;
    if ts != [] {
      InstallElsewhere(ls[v := Leaf(ts[0], p, flags)], v + Bytes(ts[0]), p + Bytes(ts[0]), n - Bytes(ts[0]), ts[1..], flags, k);
    }
  }

  /** `map_cont` over free addresses and then `unmap_cont` of the same range give back the very
      leaves there were. */
  lemma UnmapUndoesMap(ls: Leaves, v: nat, p: nat, n: nat, flags: MMUFlags)
    requires LeavesOk(ls) && Aligned(v, BASE) && Aligned(n, BASE) && Aligned(v + n, BASE) && !Overlaps(ls, v, v + n)
    ensures LeavesOk(MapRange(ls, v, p, n, flags))
    ensures Pruned(MapRange(ls, v, p, n, flags), v, v + n) == ls
  {
    hide Aligned, AlignDown, LeafAt, Greedy, Install, Tiles, Pruned, Translate;
    var ls', ts := MapRange(ls, v, p, n, flags), Greedy(v, p, n, HugePage in flags);
    MapRangeTranslates(ls, v, p, n, flags, v);
    if n == 0 {
      EmptyMapRange(ls, v, p, flags);
      assert Outside(ls, v, v + n) == ls;
      PrunedNothing(ls, v);
    } else {
      GreedyTiles(v, p, n, HugePage in flags);
      MapRangeKeys(ls, v, p, n, flags);
      forall k | k in ls
        ensures k in ls' && ls'[k] == ls[k] && !Meets(k, ls[k], v, v + n)
      {
        InstallElsewhere(ls, v, AlignDown(BASE, p), n, ts, flags, k);
      }
      PrunedWithoutCuts(ls', v, v + n);
      assert Outside(ls', v, v + n) == ls;
    }
  }

  lemma EmptyMapRange(ls: Leaves, v: nat, p: nat, flags: MMUFlags)
    requires Aligned(v, BASE)
    ensures Aligned(0, BASE) && MapRange(ls, v, p, 0, flags) == ls
  {
  }

  lemma PrunedNothing(ls: Leaves, v: nat)
    requires LeavesOk(ls) && Aligned(v, BASE)
    ensures Pruned(ls, v, v) == ls
  {
  }

  // ----- the loop

  /** The table of the loop at `v`. */
  ghost predicate PruneState(ls: Leaves, cur: Leaves, start: nat, v: nat, end: nat)
    requires LeavesOk(ls) && Aligned(start, BASE) && Aligned(end, BASE)
  {
    cur == if v < end then PrunedTo(ls, start, v) else Pruned(ls, start, end)
  }

  lemma PruneStart(ls: Leaves, start: nat, end: nat)
    requires LeavesOk(ls) && Aligned(start, BASE) && Aligned(end, BASE) && start <= end
    ensures PruneState(ls, ls, start, start, end)
  {
  }

  lemma PruneEnd(ls: Leaves, cur: Leaves, start: nat, end: nat)
    requires LeavesOk(ls) && Aligned(start, BASE) && Aligned(end, BASE) && PruneState(ls, cur, start, end, end)
    ensures cur == Pruned(ls, start, end)
  {
  }

  lemma PruneGap(ls: Leaves, cur: Leaves, start: nat, v: nat, end: nat)
    requires LeavesOk(ls) && Aligned(start, BASE) && Aligned(end, BASE) && Aligned(v, BASE)
    requires start <= v < end && v + Bytes(BASE) <= end && PruneState(ls, cur, start, v, end)
    requires Removed(ls, cur, start, v) && Translate(cur, v).None?
    ensures PruneState(ls, cur, start, v + Bytes(BASE), end)
  {
    hide Aligned, PrunedTo, WithHigh, Translate;
    var w := v + Bytes(BASE);
    assert Translate(ls, v) == Translate(cur, v);
    GapPrunes(ls, start, v);
    if w == end {
      NothingSticksOut(ls, v, end);
      NoHighPart(ls, end, cur);
    }
  }

  /** A turn of the loop that removes the page at `k`; `mid` is the table when the part before
      the range is back. */
  lemma PrunePage(ls: Leaves, before: Leaves, mid: Leaves, cur: Leaves, k: nat, start: nat, v: nat, removeEnd: nat,
                  end: nat)
    requires LeavesOk(ls) && Aligned(start, BASE) && Aligned(end, BASE)
    requires start <= v < removeEnd <= end && PruneState(ls, before, start, v, end)
    requires Covers(ls, k, v) && (start < v ==> k == v)
    requires Aligned(k, BASE) && Aligned(v - k, BASE) && Aligned(removeEnd, BASE)
    requires removeEnd == if end < k + Bytes(ls[k].size) then end else k + Bytes(ls[k].size)
    requires Aligned(k + Bytes(ls[k].size) - removeEnd, BASE)
    requires var flags := ls[k].flags + {HugePage};
             && mid == (if k < v then MapRange(before - {k}, k, ls[k].paddr, v - k, flags) else before - {k})
             && cur == (if removeEnd < k + Bytes(ls[k].size)
                        then MapRange(mid, removeEnd, ls[k].paddr + (removeEnd - k), k + Bytes(ls[k].size) - removeEnd, flags)
                        else mid)
    ensures PruneState(ls, cur, start, removeEnd, end)
  {
    hide Aligned, PrunedTo, WithHigh, MapRange;
    if start == v {
      NothingPruned(ls, start);
      FirstPagePrunes(ls, k, start, removeEnd);
    } else {
      LaterPagePrunes(ls, start, k, removeEnd);
    }
    if removeEnd < k + Bytes(ls[k].size) {
      HighPart(ls, k, end, mid);
    } else if removeEnd == end {
      NothingSticksOut(ls, v, end);
      NoHighPart(ls, end, mid);
    }
  }

  lemma NothingPruned(ls: Leaves, lo: nat)
    requires LeavesOk(ls) && Aligned(lo, BASE)
    ensures PrunedTo(ls, lo, lo) == ls
  {
  }
}
