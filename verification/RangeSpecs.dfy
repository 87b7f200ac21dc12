/** What `map_cont` and `unmap_cont` promise, and the steps of their loops. */
module RangeSpecs {
  import opened PageSizes
  import opened PageTables
  import opened Tilings
  import opened Results

  type PagingResult<+T> = Result<T, PagingError>

  /** Nothing in `[lo, hi)` stands in the way of mapping pages there. */
  ghost predicate Clear(ls: Leaves, dirs: set<Slot>, lo: nat, hi: nat) {
    && !Overlaps(ls, lo, hi)
    && (forall d :: d in dirs ==> !(lo <= d.start && d.start + Bytes(d.size) <= hi))
  }

  lemma ClearNotBlocked(ls: Leaves, dirs: set<Slot>, lo: nat, hi: nat, s: PageSize)
    requires Clear(ls, dirs, lo, hi) && lo + Bytes(s) <= hi
    ensures !Blocked(ls, dirs, lo, s)
  {
  }

  /** Exactly the addresses of `[lo, hi)` lose their translation. */
  ghost predicate Removed(ls: Leaves, ls': Leaves, lo: nat, hi: nat) {
    forall a: nat :: Translate(ls', a) == if lo <= a < hi then None else Translate(ls, a)
  }

  /** Where page `i` of the tiling `ts` from `start` begins. */
  function PageStart(start: nat, ts: seq<PageSize>, i: nat): (v: nat)
    requires i <= |ts|
  {
    start + Total(ts[..i])
  }

  /** No page of the tiling `ts` from `start` is blocked. */
  ghost predicate Admitted(ls: Leaves, dirs: set<Slot>, start: nat, ts: seq<PageSize>) {
    forall i :: 0 <= i < |ts| ==> !Blocked(ls, dirs, PageStart(start, ts, i), ts[i])
  }

  /** Exactly the first `done` pages of the greedy tiling were added.  Judged on the table
      before the call, none of them was blocked, and a refusal is `AlreadyMapped` exactly when
      the next page was. */
  ghost predicate MapContOutcome(ls: Leaves, dirs: set<Slot>, ls': Leaves, start: nat, size: nat, startPaddr: nat,
                                 flags: MMUFlags, r: PagingResult<()>, done: nat)
    requires Aligned(start, BASE) && Aligned(size, BASE)
  {
    var ts := Greedy(start, startPaddr, size, HugePage in flags);
    && done <= |ts|
    && (r.Ok? <==> done == |ts|)
    && ls' == Install(ls, start, AlignDown(BASE, startPaddr), ts[..done], flags)
    && (forall k :: k in ls ==> k in ls' && ls'[k] == ls[k])
    && Admitted(ls, dirs, start, ts[..done])
    && (r.Err? ==>
          && r.error != NotMapped
          && (r.error == AlreadyMapped <==> Blocked(ls, dirs, PageStart(start, ts, done), ts[done])))
  }

  /** Unless memory runs out, `map_cont` succeeds exactly when no page of its tiling was
      blocked in the table before the call. */
  lemma MapContRefusal(ls: Leaves, dirs: set<Slot>, ls': Leaves, start: nat, size: nat, startPaddr: nat,
                       flags: MMUFlags, r: PagingResult<()>, done: nat)
    requires Aligned(start, BASE) && Aligned(size, BASE)
    requires MapContOutcome(ls, dirs, ls', start, size, startPaddr, flags, r, done)
    ensures r != Err(NoMemory) ==>
              (r.Ok? <==> Admitted(ls, dirs, start, Greedy(start, startPaddr, size, HugePage in flags)))
  {
    hide Aligned, AlignDown, Blocked, Install, PageStart;
    var ts := Greedy(start, startPaddr, size, HugePage in flags);
    if r.Ok? {
      assert ts[..done] == ts;
    }
  }

  /** Nothing is refused over a clear range. */
  lemma ClearIsAdmitted(ls: Leaves, dirs: set<Slot>, ls': Leaves, start: nat, size: nat, startPaddr: nat,
                        flags: MMUFlags, r: PagingResult<()>, done: nat)
    requires Aligned(start, BASE) && Aligned(size, BASE)
    requires MapContOutcome(ls, dirs, ls', start, size, startPaddr, flags, r, done)
    requires Clear(ls, dirs, start, start + size)
    ensures r != Err(AlreadyMapped)
  {
    hide Aligned, AlignDown, Install, Greedy, Blocked, Clear;
    if r.Err? {
      var ts := Greedy(start, startPaddr, size, HugePage in flags);
      GreedyTiles(start, startPaddr, size, HugePage in flags);
      TilesPrefix(start, AlignDown(BASE, startPaddr), size, ts, done + 1);
      TotalSnoc(ts[..done], ts[done]);
      assert ts[..done + 1] == ts[..done] + [ts[done]];
      var at := start + Total(ts[..done]);
      ClearPart(ls, dirs, start, start + size, at, at + Bytes(ts[done]));
      ClearNotBlocked(ls, dirs, at, at + Bytes(ts[done]), ts[done]);
    }
  }

  lemma {:induction false} TotalSnoc(ts: seq<PageSize>, s: PageSize)
    ensures Total(ts + [s]) == Total(ts) + Bytes(s)
  {
    if ts == [] {
      assert ([s])[1..] == [];
      assert ts + [s] == [s];
    } else {
      TotalSnoc(ts[1..], s);
      assert (ts + [s])[1..] == ts[1..] + [s];
    }
  }

  lemma PageStartSnoc(start: nat, ts: seq<PageSize>, s: PageSize, i: nat)
    requires i <= |ts|
    ensures PageStart(start, ts + [s], i) == PageStart(start, ts, i)
  {
    assert (ts + [s])[..i] == ts[..i];
  }

  lemma AdmittedSnoc(ls: Leaves, dirs: set<Slot>, start: nat, ts: seq<PageSize>, s: PageSize)
    requires Admitted(ls, dirs, start, ts) && !Blocked(ls, dirs, PageStart(start, ts, |ts|), s)
    ensures Admitted(ls, dirs, start, ts + [s])
  {
    hide Blocked, PageStart;
    forall i | 0 <= i < |ts + [s]|
      ensures !Blocked(ls, dirs, PageStart(start, ts + [s], i), (ts + [s])[i])
    {
      PageStartSnoc(start, ts, s, i);
    }
  }

  /** The loop has mapped the pages `sofar`, which reach from `start` to `v`. */
  ghost predicate Progress(ls: Leaves, dirs: set<Slot>, ls': Leaves, start: nat, size: nat, startPaddr: nat,
                           flags: MMUFlags, v: nat, sofar: seq<PageSize>)
  {
    var q := AlignDown(BASE, startPaddr);
    && start <= v <= start + size
    && Aligned(start, BASE) && Aligned(size, BASE)
    && Aligned(v, BASE) && Aligned(start + size - v, BASE)
    && AlignDown(BASE, startPaddr + (v - start)) == q + (v - start)
    && Greedy(start, startPaddr, size, HugePage in flags)
       == sofar + Greedy(v, startPaddr + (v - start), start + size - v, HugePage in flags)
    && Tiles(start, q, v - start, sofar)
    && ls' == Install(ls, start, q, sofar, flags)
    && (forall k :: k in ls ==> k in ls' && ls'[k] == ls[k])
    && !Overlaps(ls, start, v)
    && Admitted(ls, dirs, start, sofar)
  }

  lemma ProgressStart(ls: Leaves, dirs: set<Slot>, start: nat, size: nat, startPaddr: nat, flags: MMUFlags)
    requires Aligned(start, BASE) && Aligned(size, BASE)
    ensures Progress(ls, dirs, ls, start, size, startPaddr, flags, start, [])
  {
  }

  lemma ProgressChoice(ls: Leaves, dirs: set<Slot>, ls': Leaves, start: nat, size: nat, startPaddr: nat, flags: MMUFlags,
                       v: nat, sofar: seq<PageSize>)
    requires Progress(ls, dirs, ls', start, size, startPaddr, flags, v, sofar) && v < start + size
    ensures var s := Choose(v, startPaddr + (v - start), start + size - v, HugePage in flags);
            IsPageSize(s) && Aligned(v, s) && v + Bytes(s) <= start + size && Bytes(s) > 0
  {
    hide Aligned, AlignDown;
    ChooseFits(v, startPaddr + (v - start), start + size - v, HugePage in flags);
  }

  /** The page at `v` is the next one of the tiling. */
  lemma NextPage(ls: Leaves, dirs: set<Slot>, ls': Leaves, start: nat, size: nat, startPaddr: nat, flags: MMUFlags,
                 v: nat, sofar: seq<PageSize>)
    requires Aligned(start, BASE) && Aligned(size, BASE)
    requires Progress(ls, dirs, ls', start, size, startPaddr, flags, v, sofar) && v < start + size
    ensures var ts := Greedy(start, startPaddr, size, HugePage in flags);
            && |sofar| < |ts| && PageStart(start, ts, |sofar|) == v
            && ts[|sofar|] == Choose(v, startPaddr + (v - start), start + size - v, HugePage in flags)
  {
    hide Aligned, AlignDown, Blocked, Admitted, Choose;
    var ts := Greedy(start, startPaddr, size, HugePage in flags);
    TilesTotal(start, AlignDown(BASE, startPaddr), v - start, sofar);
    assert ts[..|sofar|] == sofar;
  }

  /** What the loop has added lies below `v`, so the table before the call decides whether the
      next page is blocked. */
  lemma BlockedBefore(ls: Leaves, dirs: set<Slot>, ls': Leaves, dirs': set<Slot>, start: nat, size: nat,
                      startPaddr: nat, flags: MMUFlags, v: nat, sofar: seq<PageSize>, s: PageSize)
    requires Progress(ls, dirs, ls', start, size, startPaddr, flags, v, sofar)
    requires dirs <= dirs' && NewTablesWithin(dirs, dirs', start, v)
    ensures Blocked(ls', dirs', v, s) <==> Blocked(ls, dirs, v, s)
  {
    hide Aligned, AlignDown, Greedy, Admitted;
    InstallKeys(ls, start, AlignDown(BASE, startPaddr), v - start, sofar, flags);
  }

  lemma ProgressStop(ls: Leaves, dirs: set<Slot>, ls': Leaves, start: nat, size: nat, startPaddr: nat,
                     flags: MMUFlags, v: nat, sofar: seq<PageSize>, r: PagingResult<()>)
    requires Progress(ls, dirs, ls', start, size, startPaddr, flags, v, sofar) && v < start + size
    requires Aligned(start, BASE) && Aligned(size, BASE)
    requires r.Err? && r.error != NotMapped
    requires r.error == AlreadyMapped
        <==> Blocked(ls, dirs, v, Choose(v, startPaddr + (v - start), start + size - v, HugePage in flags))
    ensures MapContOutcome(ls, dirs, ls', start, size, startPaddr, flags, r, |sofar|)
  {
    hide Aligned, AlignDown, Blocked, Admitted, PageStart, Choose;
    var ts := Greedy(start, startPaddr, size, HugePage in flags);
    NextPage(ls, dirs, ls', start, size, startPaddr, flags, v, sofar);
    assert ts[..|sofar|] == sofar;
  }

  lemma ProgressStep(ls: Leaves, dirs: set<Slot>, ls': Leaves, dirs': set<Slot>, start: nat, size: nat, startPaddr: nat,
                     flags: MMUFlags, v: nat, sofar: seq<PageSize>)
    requires Progress(ls, dirs, ls', start, size, startPaddr, flags, v, sofar) && v < start + size
    requires var s := Choose(v, startPaddr + (v - start), start + size - v, HugePage in flags);
             !Blocked(ls', dirs', v, s) && !Blocked(ls, dirs, v, s)
    ensures var p := startPaddr + (v - start);
            var s := Choose(v, p, start + size - v, HugePage in flags);
            Progress(ls, dirs, ls'[v := Leaf(s, AlignDown(s, p), flags)], start, size, startPaddr, flags,
                     v + Bytes(s), sofar + [s])
  {
    hide Aligned, AlignDown, Choose, Admitted;
    var q, p, n := AlignDown(BASE, startPaddr), startPaddr + (v - start), start + size - v;
    var s := Choose(v, p, n, HugePage in flags);
    ChooseFits(v, p, n, HugePage in flags);
    TilesTotal(start, q, v - start, sofar);
    TilesSnoc(start, q, v - start, sofar, s);
    InstallSnoc(ls, start, q, sofar, s, flags);
    assert sofar[..|sofar|] == sofar;
    AdmittedSnoc(ls, dirs, start, sofar, s);
    OverlapExtends(ls, ls', start, v, v + Bytes(s));
    var tail := Greedy(v + Bytes(s), p + Bytes(s), n - Bytes(s), HugePage in flags);
    assert sofar + ([s] + tail) == (sofar + [s]) + tail;
    assert v !in ls';
  }

  lemma ProgressEnd(ls: Leaves, dirs: set<Slot>, ls': Leaves, start: nat, size: nat, startPaddr: nat,
                    flags: MMUFlags, sofar: seq<PageSize>)
    requires Progress(ls, dirs, ls', start, size, startPaddr, flags, start + size, sofar)
    requires Aligned(start, BASE) && Aligned(size, BASE)
    ensures MapContOutcome(ls, dirs, ls', start, size, startPaddr, flags, Ok(()), |sofar|)
    ensures ls' == MapRange(ls, start, startPaddr, size, flags)
    ensures !Overlaps(ls, start, start + size)
  {
    hide Aligned, AlignDown, Admitted;
    assert Greedy(start, startPaddr, size, HugePage in flags) == sofar;
    assert sofar[..|sofar|] == sofar;
  }

  /** Every table that is new in `dirs'` starts below `hi` and reaches beyond `lo`. */
  ghost predicate NewTablesWithin(dirs: set<Slot>, dirs': set<Slot>, lo: nat, hi: nat) {
    forall d :: d in dirs' && d !in dirs ==> d.start < hi && lo < d.start + Bytes(d.size)
  }

  lemma TablesStart(dirs: set<Slot>, lo: nat, hi: nat)
    ensures NewTablesWithin(dirs, dirs, lo, hi)
  {
  }

  lemma NewTablesStep(dirs: set<Slot>, mid: set<Slot>, dirs': set<Slot>, lo: nat, v: nat, s: PageSize, hi: nat)
    requires NewTablesWithin(dirs, mid, lo, v) && dirs' <= mid + Ancestors(v, s) && lo <= v < hi
    ensures NewTablesWithin(dirs, dirs', lo, hi)
  {
    hide Aligned, AlignDown;
    AlignDownFits(Size1G, v);
    AlignDownFits(Size2M, v);
  }

  lemma OverlapExtends(ls: Leaves, ls': Leaves, lo: nat, mid: nat, hi: nat)
    requires lo <= mid <= hi && !Overlaps(ls, lo, mid) && !Overlaps(ls', mid, hi)
    requires forall k :: k in ls ==> k in ls' && ls'[k] == ls[k]
    ensures !Overlaps(ls, lo, hi)
  {
  }

  lemma GrowTables(ls: Leaves, dirs: set<Slot>, dirs': set<Slot>, v: nat, s: PageSize)
    requires Radix(ls, dirs) && IsPageSize(s) && Aligned(v, s) && !Blocked(ls, dirs, v, s)
    requires dirs <= dirs' <= dirs + Ancestors(v, s)
    requires dirs' != dirs && s != Size1G ==> Slot(AlignDown(Size1G, v), Size1G) in dirs'
    ensures Radix(ls, dirs')
  {
    hide Aligned, AlignDown;
    forall d | d in dirs'
      ensures Ancestors(d.start, d.size) <= dirs'
    {
      AncestorsClosed(v, s);
      assert d in dirs ==> RadixDir(dirs, d);
    }
    RadixGrow(ls, dirs, dirs', v, s);
  }

  lemma RadixRemove(ls: Leaves, dirs: set<Slot>, k: nat)
    requires Radix(ls, dirs)
    ensures Radix(ls - {k}, dirs)
  {
    forall j | j in ls - {k}
      ensures RadixLeaf(ls - {k}, dirs, j)
    {
      assert RadixLeaf(ls, dirs, j);
    }
  }

  lemma OldLeavesKept(ls: Leaves, dirs: set<Slot>, ls': Leaves, start: nat, size: nat, startPaddr: nat,
                      flags: MMUFlags, r: PagingResult<()>, done: nat)
    requires Aligned(start, BASE) && Aligned(size, BASE)
    requires MapContOutcome(ls, dirs, ls', start, size, startPaddr, flags, r, done)
    ensures forall k :: k in ls ==> k in ls' && ls'[k] == ls[k]
  {
    hide Aligned, AlignDown, Greedy, Install, Admitted, Blocked;
  }

  /** A table missing later was missing from the start. */
  lemma MissingBefore(dirs: set<Slot>, dirs': set<Slot>, tops: set<nat>, tops': set<nat>, v: nat, s: PageSize)
    requires dirs <= dirs' && tops <= tops' && MissingTable(dirs', tops', v, s)
    ensures MissingTable(dirs, tops, v, s)
  {
  }

  // ----- the leaves map_cont adds

  /** The leaves that are new lie in the range, over consecutive frames from `p` on, with the
      given flags; without `HUGE_PAGE` they are base pages. */
  ghost predicate NewLeaves(ls: Leaves, ls': Leaves, start: nat, size: nat, p: nat, flags: MMUFlags) {
    forall k :: k in ls' && k !in ls ==>
      && start <= k && k + Bytes(ls'[k].size) <= start + size
      && ls'[k].paddr == AlignDown(BASE, p) + (k - start) && ls'[k].flags == flags
      && (HugePage !in flags ==> ls'[k].size == BASE && Aligned(k, BASE))
  }

  /** There is a new leaf at every base page of the range. */
  ghost predicate NewAtEveryBasePage(ls: Leaves, ls': Leaves, start: nat, size: nat) {
    forall k: nat :: k in ls' && k !in ls <==> start <= k < start + size && Aligned(k, BASE)
  }

  predicate AllBase(ts: seq<PageSize>) {
    forall i :: 0 <= i < |ts| ==> ts[i] == BASE
  }

  lemma {:induction false} InstallKeeps(ls: Leaves, v: nat, p: nat, ts: seq<PageSize>, flags: MMUFlags, k: nat)
    requires k in ls && k < v
    ensures k in Install(ls, v, p, ts, flags) && Install(ls, v, p, ts, flags)[k] == ls[k]
    decreases |ts|
  {
    if ts != [] {
      InstallKeeps(ls[v := Leaf(ts[0], p, flags)], v + Bytes(ts[0]), p + Bytes(ts[0]), ts[1..], flags, k);
    }
  }

  lemma {:induction false} InstallNew(ls: Leaves, v: nat, p: nat, n: nat, ts: seq<PageSize>, flags: MMUFlags, k: nat)
    requires Tiles(v, p, n, ts) && k in Install(ls, v, p, ts, flags) && k !in ls
    ensures var leaf := Install(ls, v, p, ts, flags)[k];
            && v <= k && k + Bytes(leaf.size) <= v + n
            && leaf.paddr == p + (k - v) && leaf.flags == flags && leaf.size in ts && Aligned(k, leaf.size)
    decreases |ts|
  {
    hide Aligned;
    if ts != [] {
      var s, ls1 := ts[0], ls[v := Leaf(ts[0], p, flags)];
      if k == v {
        InstallKeeps(ls1, v + Bytes(s), p + Bytes(s), ts[1..], flags, k);
      } else {
        InstallNew(ls1, v + Bytes(s), p + Bytes(s), n - Bytes(s), ts[1..], flags, k);
      }
    }
  }

  lemma {:induction false} InstallEveryBasePage(ls: Leaves, v: nat, p: nat, n: nat, ts: seq<PageSize>, flags: MMUFlags, k: nat)
    requires Tiles(v, p, n, ts) && AllBase(ts)
    requires v <= k < v + n && Aligned(k, BASE)
    ensures k in Install(ls, v, p, ts, flags)
    decreases |ts|
  {
    hide Aligned;
    var ls1 := ls[v := Leaf(ts[0], p, flags)];
    assert ts[0] == BASE;
    if k == v {
      InstallKeeps(ls1, v + Bytes(BASE), p + Bytes(BASE), ts[1..], flags, k);
    } else {
      AlignedGap(v, k, BASE);
      InstallEveryBasePage(ls1, v + Bytes(BASE), p + Bytes(BASE), n - Bytes(BASE), ts[1..], flags, k);
    }
  }

  /** Without `HUGE_PAGE` only base pages are chosen. */
  lemma {:induction false} GreedyBase(v: nat, p: nat, n: nat)
    requires Aligned(v, BASE) && Aligned(n, BASE)
    ensures AllBase(Greedy(v, p, n, false))
    decreases n
  {
    hide Aligned, AlignDown;
    if n != 0 {
      ChooseFits(v, p, n, false);
      GreedyBase(v + Bytes(BASE), p + Bytes(BASE), n - Bytes(BASE));
    }
  }

  lemma MapContAdds(ls: Leaves, dirs: set<Slot>, ls': Leaves, start: nat, size: nat, p: nat, flags: MMUFlags,
                    r: PagingResult<()>, done: nat)
    requires Aligned(start, BASE) && Aligned(size, BASE)
    requires MapContOutcome(ls, dirs, ls', start, size, p, flags, r, done)
    ensures NewLeaves(ls, ls', start, size, p, flags)
    ensures r.Ok? && HugePage !in flags && !Overlaps(ls, start, start + size) ==>
              NewAtEveryBasePage(ls, ls', start, size)
  {
    hide Aligned, AlignDown, Greedy, Install, Admitted, Blocked, Tiles;
    var ts, q := Greedy(start, p, size, HugePage in flags), AlignDown(BASE, p);
    GreedyTiles(start, p, size, HugePage in flags);
    TilesPrefix(start, q, size, ts, done);
    if HugePage !in flags {
      GreedyBase(start, p, size);
    }
    forall k | k in ls' && k !in ls
      ensures start <= k && k + Bytes(ls'[k].size) <= start + size
      ensures ls'[k].paddr == q + (k - start) && ls'[k].flags == flags
      ensures HugePage !in flags ==> ls'[k].size == BASE && Aligned(k, BASE)
    {
      InstallNew(ls, start, q, Total(ts[..done]), ts[..done], flags, k);
    }
    if r.Ok? && HugePage !in flags && !Overlaps(ls, start, start + size) {
      assert ts[..done] == ts;
      forall k: nat | start <= k < start + size && Aligned(k, BASE)
        ensures k in ls' && k !in ls
      {
        InstallEveryBasePage(ls, start, q, size, ts, flags, k);
      }
    }
  }

  // ----- after map_cont, address by address

  lemma {:induction false} TilesPrefix(v: nat, p: nat, n: nat, ts: seq<PageSize>, k: nat)
    requires Tiles(v, p, n, ts) && k <= |ts|
    ensures Total(ts[..k]) <= n
    ensures Tiles(v, p, Total(ts[..k]), ts[..k])
    decreases |ts|
  {
    hide Aligned;
    if k > 0 {
      TilesPrefix(v + Bytes(ts[0]), p + Bytes(ts[0]), n - Bytes(ts[0]), ts[1..], k - 1);
      assert ts[..k][1..] == ts[1..][..k - 1];
    }
  }

  /** Success or not, `map_cont` translates a prefix of the range linearly and nothing else. */
  lemma MapContTranslates(ls: Leaves, dirs: set<Slot>, ls': Leaves, start: nat, size: nat, p: nat,
                          flags: MMUFlags, r: PagingResult<()>, done: nat)
    returns (m: nat)
    requires Aligned(start, BASE) && Aligned(size, BASE)
    requires MapContOutcome(ls, dirs, ls', start, size, p, flags, r, done)
    requires LeavesOk(ls) && !Overlaps(ls, start, start + size)
    ensures m <= size && (r.Ok? ==> m == size)
    ensures forall a: nat :: Translate(ls', a) == Linear(ls, start, AlignDown(BASE, p), m, flags, a)
  {
    hide Aligned, AlignDown, Translate, Linear, Blocked, Admitted;
    var ts, q := Greedy(start, p, size, HugePage in flags), AlignDown(BASE, p);
    GreedyTiles(start, p, size, HugePage in flags);
    TilesPrefix(start, q, size, ts, done);
    m := Total(ts[..done]);
    if r.Ok? {
      assert ts[..done] == ts;
      TilesTotal(start, q, size, ts);
    }
    forall a: nat
      ensures Translate(ls', a) == Linear(ls, start, q, m, flags, a)
    {
      InstallTranslates(ls, start, q, m, ts[..done], flags, a);
    }
  }

  /** Installing adds leaves only inside the tiled range. */
  lemma {:induction false} InstallKeys(ls: Leaves, v: nat, p: nat, n: nat, ts: seq<PageSize>, flags: MMUFlags)
    requires Tiles(v, p, n, ts)
    ensures var ls' := Install(ls, v, p, ts, flags);
            forall k :: k in ls' ==>
              || (k in ls && ls'[k] == ls[k])
              || (v <= k && k + Bytes(ls'[k].size) <= v + n)
    decreases |ts|
  {
    hide Aligned;
    if ts != [] {
      InstallKeys(ls[v := Leaf(ts[0], p, flags)], v + Bytes(ts[0]), p + Bytes(ts[0]), n - Bytes(ts[0]), ts[1..], flags);
    }
  }

  lemma MapRangeKeys(ls: Leaves, v: nat, p: nat, n: nat, flags: MMUFlags)
    requires Aligned(v, BASE) && Aligned(n, BASE)
    ensures var ls' := MapRange(ls, v, p, n, flags);
            forall k :: k in ls' ==>
              || (k in ls && ls'[k] == ls[k])
              || (v <= k && k + Bytes(ls'[k].size) <= v + n)
  {
    hide Aligned, AlignDown;
    GreedyTiles(v, p, n, HugePage in flags);
    InstallKeys(ls, v, AlignDown(BASE, p), n, Greedy(v, p, n, HugePage in flags), flags);
  }

  // ----- unmap_cont

  /** Whatever is lost is lost entirely, and belonged to the range or to a page meeting it. */
  ghost predicate LostOnlyNear(ls: Leaves, ls': Leaves, lo: nat, hi: nat) {
    forall a: nat :: Translate(ls', a) != Translate(ls, a) ==>
      && Translate(ls', a).None?
      && (lo <= a < hi || exists k: nat :: Covers(ls, k, a) && k < hi && lo < k + Bytes(ls[k].size))
  }

  /** Only addresses of the page at `k` changed, and those were lost. */
  ghost predicate LostInside(ls: Leaves, ls': Leaves, k: nat) {
    forall a: nat :: Translate(ls', a) != Translate(ls, a) ==> Translate(ls', a).None? && Covers(ls, k, a)
  }

  /** The pages reaching beyond `v` are still the original ones. */
  ghost predicate Untouched(ls: Leaves, ls': Leaves, v: nat) {
    forall k :: k in ls' && v < k + Bytes(ls'[k].size) ==> k in ls && ls[k] == ls'[k]
  }

  lemma RemovedNothing(ls: Leaves, v: nat)
    ensures Removed(ls, ls, v, v)
  {
  }

  lemma UntouchedStart(ls: Leaves, v: nat)
    ensures Untouched(ls, ls, v)
  {
  }

  lemma RangeBounds(start: nat, size: nat)
    requires Aligned(start, BASE) && Aligned(size, BASE)
    ensures Aligned(start + size, BASE)
  {
    AlignedSum(start, size, BASE);
  }

  lemma QueryOffset(ls: Leaves, a: nat)
    requires LeavesOk(ls)
    ensures LeafAt(ls, a).Some? ==>
              var k := LeafAt(ls, a).value;
              k in ls && Covers(ls, k, a) && k <= a < k + Bytes(ls[k].size)
              && AlignDown(ls[k].size, a) == k && PageOffset(ls[k].size, a) == a - k
  {
    hide Aligned, AlignDown, PageOffset, LeafAt;
    LeafAtCovers(ls, a);
    if LeafAt(ls, a).Some? {
      var k := LeafAt(ls, a).value;
      AlignDownUnique(ls[k].size, k, a);
    }
  }

  lemma BasePageCovered(ls: Leaves, k: nat, v: nat, a: nat)
    requires LeavesOk(ls) && Covers(ls, k, a) && Aligned(v, BASE) && v <= a < v + Bytes(BASE)
    ensures Covers(ls, k, v)
  {
    BaseIsSmallest(ls[k].size);
    NestedBlocks(v, BASE, k, ls[k].size);
  }

  /** An unmapped base-page address starts a whole unmapped base page. */
  lemma GapIsBase(ls0: Leaves, ls: Leaves, start: nat, v: nat, end: nat)
    requires LeavesOk(ls) && Translate(ls, v).None?
    requires Aligned(v, BASE) && Aligned(end, BASE) && start <= v < end
    requires Removed(ls0, ls, start, v) && Untouched(ls0, ls, v)
    ensures Removed(ls0, ls, start, v + Bytes(BASE)) && Untouched(ls0, ls, v + Bytes(BASE))
    ensures v + Bytes(BASE) <= end && Aligned(v + Bytes(BASE), BASE) && Bytes(BASE) > 0
  {
    hide Aligned, LeafAt, Translate;
    AlignedGap(v, end, BASE);
    AlignedSelf(BASE);
    AlignedSum(v, Bytes(BASE), BASE);
    TranslateUncovered(ls, v);
    forall a: nat | v <= a < v + Bytes(BASE)
      ensures Translate(ls, a) == None
    {
      TranslateUncovered(ls, a);
      if k: nat :| Covers(ls, k, a) {
        BasePageCovered(ls, k, v, a);
        assert false;
      }
    }
  }

  /** The three pieces of a page cut by the range are made of base pages. */
  lemma SplitBounds(ls: Leaves, k: nat, v: nat, removeEnd: nat, end: nat)
    requires LeavesOk(ls) && Covers(ls, k, v)
    requires Aligned(v, BASE) && Aligned(end, BASE) && v < end
    requires removeEnd == if end < k + Bytes(ls[k].size) then end else k + Bytes(ls[k].size)
    ensures v < removeEnd && Aligned(k, BASE) && Aligned(v - k, BASE) && Aligned(removeEnd, BASE)
    ensures Aligned(k + Bytes(ls[k].size) - removeEnd, BASE)
  {
    hide Aligned;
    var s := ls[k].size;
    BaseIsSmallest(s);
    AlignedSmaller(k, BASE, s);
    AlignedSum(v, k, BASE);
    AlignedSum(k, Bytes(s), BASE);
    AlignedSum(k + Bytes(s), removeEnd, BASE);
  }

  /** Removing a leaf clears its whole block: no table was left below it. */
  lemma UnmapClears(ls: Leaves, dirs: set<Slot>, k: nat)
    requires Radix(ls, dirs) && k in ls
    ensures Clear(ls - {k}, dirs, k, k + Bytes(ls[k].size))
  {
    hide Aligned, AlignDown, Ancestors;
    RadixLeavesOk(ls, dirs);
    var s := ls[k].size;
    assert RadixLeaf(ls, dirs, k);
    forall d | d in dirs && k <= d.start && d.start + Bytes(d.size) <= k + Bytes(s)
      ensures false
    {
      assert RadixDir(dirs, d);
      if d.size != s {
        AncestorOfBlock(d.start, d.size, k, s);
      }
    }
  }

  lemma UnmapRemoves(ls: Leaves, k: nat)
    requires LeavesOk(ls) && k in ls
    ensures LeavesOk(ls - {k})
    ensures Removed(ls, ls - {k}, k, k + Bytes(ls[k].size))
  {
    hide Aligned, Translate;
    var ls' := ls - {k};
    forall a: nat
      ensures Translate(ls', a) == if k <= a < k + Bytes(ls[k].size) then None else Translate(ls, a)
    {
      if k <= a < k + Bytes(ls[k].size) {
        TranslateUncovered(ls', a);
      } else {
        TranslateSame(ls, ls', a);
      }
    }
  }

  lemma ClearPart(ls: Leaves, dirs: set<Slot>, lo: nat, hi: nat, lo': nat, hi': nat)
    requires Clear(ls, dirs, lo, hi) && lo <= lo' && hi' <= hi
    ensures Clear(ls, dirs, lo', hi') && !Overlaps(ls, lo', hi')
  {
  }

  /** Mapping part of a removed page back restores that part's translation. */
  lemma Refill(ls: Leaves, cur: Leaves, cur': Leaves, k: nat, at: nat, m: nat, flags: MMUFlags, a: nat)
    requires LeavesOk(ls) && k in ls && k <= at && at + m <= k + Bytes(ls[k].size)
    requires Permissions(flags) == Permissions(ls[k].flags)
    requires Translate(cur', a) == Linear(cur, at, ls[k].paddr + (at - k), m, flags, a)
    ensures Translate(cur', a) == if at <= a < at + m then Translate(ls, a) else Translate(cur, a)
  {
    hide Translate;
    if at <= a < at + m {
      TranslateCovered(ls, k, a);
    }
  }

  lemma FrameOfPart(ls: Leaves, k: nat, d: nat)
    requires LeavesOk(ls) && k in ls && Aligned(d, BASE)
    ensures AlignDown(BASE, ls[k].paddr + d) == ls[k].paddr + d
  {
    hide Aligned, AlignDown;
    BaseIsSmallest(ls[k].size);
    AlignedSmaller(ls[k].paddr, BASE, ls[k].size);
    AlignedSum(ls[k].paddr, d, BASE);
    AlignDownSelf(BASE, ls[k].paddr + d);
  }

  /** Re-mapping `[at, at + n)` of the page at `k`, which had been removed. */
  lemma PartRemapped(before: Leaves, cur: Leaves, dirs: set<Slot>, cur': Leaves, k: nat, at: nat, n: nat,
                     flags: MMUFlags, r: PagingResult<()>, done: nat)
    returns (m: nat)
    requires LeavesOk(before) && LeavesOk(cur)
    requires k in before && k <= at && at + n <= k + Bytes(before[k].size)
    requires Aligned(at, BASE) && Aligned(n, BASE) && Aligned(at - k, BASE)
    requires flags == before[k].flags + {HugePage}
    requires !Overlaps(cur, at, at + n)
    requires MapContOutcome(cur, dirs, cur', at, n, before[k].paddr + (at - k), flags, r, done)
    ensures m <= n && (r.Ok? ==> m == n)
    ensures r.Err? ==> r.error != NotMapped
    ensures forall a: nat :: Translate(cur', a) == if at <= a < at + m then Translate(before, a) else Translate(cur, a)
  {
    hide Aligned, AlignDown, Translate, Linear;
    var p := before[k].paddr + (at - k);
    FrameOfPart(before, k, at - k);
    m := MapContTranslates(cur, dirs, cur', at, n, p, flags, r, done);
    assert Permissions(flags) == Permissions(before[k].flags);
    forall a: nat
      ensures Translate(cur', a) == if at <= a < at + m then Translate(before, a) else Translate(cur, a)
    {
      Refill(before, cur, cur', k, at, m, flags, a);
    }
  }

  lemma PrefixRemapped(before: Leaves, rest: Leaves, dirs: set<Slot>, cur: Leaves, k: nat, v: nat,
                       flags: MMUFlags, r: PagingResult<()>, done: nat)
    requires LeavesOk(before) && LeavesOk(rest) && Covers(before, k, v)
    requires Aligned(k, BASE) && Aligned(v - k, BASE)
    requires flags == before[k].flags + {HugePage}
    requires Removed(before, rest, k, k + Bytes(before[k].size)) && !Overlaps(rest, k, v)
    requires MapContOutcome(rest, dirs, cur, k, v - k, before[k].paddr, flags, r, done)
    ensures r.Ok? ==> Removed(before, cur, v, k + Bytes(before[k].size))
    ensures r.Err? ==> r.error != NotMapped && LostInside(before, cur, k)
  {
    hide Translate, MapContOutcome, Overlaps;
    var m := PartRemapped(before, rest, dirs, cur, k, k, v - k, flags, r, done);
  }

  lemma SuffixRemapped(before: Leaves, mid: Leaves, dirs: set<Slot>, cur: Leaves, k: nat, v: nat, removeEnd: nat,
                       flags: MMUFlags, r: PagingResult<()>, done: nat)
    requires LeavesOk(before) && LeavesOk(mid) && Covers(before, k, v)
    requires v < removeEnd <= k + Bytes(before[k].size)
    requires Aligned(k, BASE) && Aligned(removeEnd, BASE) && Aligned(k + Bytes(before[k].size) - removeEnd, BASE)
    requires flags == before[k].flags + {HugePage}
    requires Removed(before, mid, v, k + Bytes(before[k].size))
    requires !Overlaps(mid, removeEnd, k + Bytes(before[k].size))
    requires MapContOutcome(mid, dirs, cur, removeEnd, k + Bytes(before[k].size) - removeEnd,
                            before[k].paddr + (removeEnd - k), flags, r, done)
    ensures r.Ok? ==> Removed(before, cur, v, removeEnd)
    ensures r.Err? ==> r.error != NotMapped && LostInside(before, cur, k)
  {
    hide Translate, MapContOutcome, Overlaps, Aligned;
    AlignedSum(removeEnd, k, BASE);
    var m := PartRemapped(before, mid, dirs, cur, k, removeEnd, k + Bytes(before[k].size) - removeEnd, flags, r, done);
  }

  /** Mapping the prefix again leaves the suffix clear. */
  lemma ClearAfterPrefix(rest: Leaves, dirs: set<Slot>, cur: Leaves, dirs': set<Slot>, k: nat, v: nat,
                         removeEnd: nat, hi: nat, p: nat, flags: MMUFlags)
    requires Aligned(k, BASE) && k <= v && Aligned(v - k, BASE) && v < removeEnd <= hi
    requires Clear(rest, dirs, k, hi) && NewTablesWithin(dirs, dirs', k, v)
    requires cur == MapRange(rest, k, p, v - k, flags)
    ensures Clear(cur, dirs', removeEnd, hi) && !Overlaps(cur, removeEnd, hi)
  {
    hide Aligned, MapRange;
    MapRangeKeys(rest, k, p, v - k, flags);
  }

  lemma UntouchedStep(ls0: Leaves, before: Leaves, cur: Leaves, k: nat, v: nat, removeEnd: nat, p: nat, flags: MMUFlags)
    requires Untouched(ls0, before, v) && Covers(before, k, v) && v < removeEnd
    requires Aligned(k, BASE) && Aligned(v - k, BASE)
    requires if k < v then cur == MapRange(before - {k}, k, p, v - k, flags) else cur == before - {k}
    ensures Untouched(ls0, cur, removeEnd)
  {
    hide Aligned, MapRange;
    if k < v {
      MapRangeKeys(before - {k}, k, p, v - k, flags);
    }
  }

  /** A page of the table sticks out of `[lo, hi)`. */
  ghost predicate Cuts(ls: Leaves, lo: nat, hi: nat) {
    exists k :: k in ls && (k < lo < k + Bytes(ls[k].size) || k < hi < k + Bytes(ls[k].size))
  }

  /** The loop splits only pages that were there before the call and stick out of the range. */
  lemma SplitCuts(ls0: Leaves, cur: Leaves, k: nat, start: nat, v: nat, end: nat)
    requires LeavesOk(cur) && start <= v < end && Covers(cur, k, v)
    requires Removed(ls0, cur, start, v) && Untouched(ls0, cur, v)
    requires k < v || end < k + Bytes(cur[k].size)
    ensures Cuts(ls0, start, end)
  {
    hide Translate;
    assert k in ls0 && ls0[k] == cur[k];
    PageAtCursor(ls0, cur, k, start, v);
  }

  lemma SamePage(ls0: Leaves, cur: Leaves, k: nat, v: nat)
    requires Covers(cur, k, v) && Untouched(ls0, cur, v)
    ensures Covers(ls0, k, v) && ls0[k] == cur[k]
  {
  }

  /** Behind its start the loop meets pages at their first address. */
  lemma PageAtCursor(ls0: Leaves, cur: Leaves, k: nat, start: nat, v: nat)
    requires LeavesOk(cur) && start <= v && Covers(cur, k, v) && Removed(ls0, cur, start, v)
    ensures start < v ==> k == v
  {
    hide Translate;
    if start < v && k < v {
      var a := if k < start then start else k;
      assert Translate(cur, a) == None;
      TranslateCovered(cur, k, a);
    }
  }

  /** When memory runs out, only the page being split has lost anything outside the range. */
  lemma LossNear(ls0: Leaves, before: Leaves, cur: Leaves, k: nat, start: nat, v: nat, end: nat)
    requires start <= v < end && Covers(before, k, v)
    requires Removed(ls0, before, start, v) && Untouched(ls0, before, v) && LostInside(before, cur, k)
    ensures LostOnlyNear(ls0, cur, start, end)
  {
    hide Translate;
    forall a: nat | Translate(cur, a) != Translate(ls0, a)
      ensures Translate(cur, a).None?
      ensures start <= a < end || exists j: nat :: Covers(ls0, j, a) && j < end && start < j + Bytes(ls0[j].size)
    {
      if !(start <= a < end) {
        assert Translate(before, a) == Translate(ls0, a);
        assert Covers(ls0, k, a);
      }
    }
  }

  lemma RemovedStep(ls0: Leaves, before: Leaves, cur: Leaves, start: nat, v: nat, v': nat)
    requires Removed(ls0, before, start, v) && Removed(before, cur, v, v') && start <= v <= v'
    ensures Removed(ls0, cur, start, v')
  {
    hide Translate;
  }

  // ----- laws that relate calls

  /** `map_cont` and then `unmap_cont` of the same range give back every old translation. */
  lemma MapThenUnmap(ls: Leaves, v: nat, p: nat, n: nat, flags: MMUFlags, ls': Leaves)
    requires LeavesOk(ls) && Aligned(v, BASE) && Aligned(n, BASE) && !Overlaps(ls, v, v + n)
    requires Removed(MapRange(ls, v, p, n, flags), ls', v, v + n)
    ensures forall a: nat :: Translate(ls', a) == Translate(ls, a)
  {
    hide Aligned, MapRange, Translate;
    forall a: nat
      ensures Translate(ls', a) == Translate(ls, a)
    {
      MapRangeTranslates(ls, v, p, n, flags, a);
      FreeIsUnmapped(ls, v, v + n, a);
    }
  }

  lemma FreeIsUnmapped(ls: Leaves, lo: nat, hi: nat, a: nat)
    requires LeavesOk(ls) && !Overlaps(ls, lo, hi)
    ensures lo <= a < hi ==> Translate(ls, a).None?
  {
    hide Translate;
    TranslateUncovered(ls, a);
  }

  /** Unmapping `[a, b)` and then `[b, c)` is unmapping `[a, c)`. */
  lemma UnmapInTwoSteps(ls: Leaves, once: Leaves, first: Leaves, both: Leaves, a: nat, b: nat, c: nat)
    requires a <= b <= c
    requires Removed(ls, once, a, c)
    requires Removed(ls, first, a, b) && Removed(first, both, b, c)
    ensures forall x: nat :: Translate(both, x) == Translate(once, x)
  {
    hide Translate;
    RemovedStep(ls, first, both, a, b, c);
    forall x: nat
      ensures Translate(both, x) == Translate(once, x)
    {
      assert Translate(once, x) == if a <= x < c then None else Translate(ls, x);
    }
  }
}
