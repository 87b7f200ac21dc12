/** A radix page table and its primitive operations.

    The table is kept as its terminal entries (`leaves`, keyed by the first virtual address
    they map) and the entries that point to a lower table (`dirs`).  Lower tables are never
    freed, so a slot can hold a table in which nothing is mapped; such a slot still refuses
    a huge page. */
module PageTables {
  import opened PageSizes
  import opened Results

  datatype Flag = Cache1 | Cache2 | Read | Write | Execute | User | HugePage | Device
  type MMUFlags = set<Flag>

  datatype PagingError = NoMemory | NotMapped | AlreadyMapped

  datatype Leaf = Leaf(size: PageSize, paddr: nat, flags: MMUFlags)
  type Leaves = map<nat, Leaf>

  datatype Slot = Slot(start: nat, size: PageSize)

  // ----- what a set of leaves means, address by address

  predicate Covers(ls: Leaves, k: nat, a: nat) {
    k in ls && k <= a < k + Bytes(ls[k].size)
  }

  ghost predicate LeafOk(k: nat, leaf: Leaf) {
    IsPageSize(leaf.size) && Aligned(k, leaf.size) && Aligned(leaf.paddr, leaf.size)
  }

  ghost predicate LeavesOk(ls: Leaves) {
    && (forall k :: k in ls ==> LeafOk(k, ls[k]))
    && (forall j, k :: j in ls && k in ls && j < k ==> j + Bytes(ls[j].size) <= k)
  }

  ghost predicate Overlaps(ls: Leaves, lo: nat, hi: nat) {
    lo < hi && exists k :: k in ls && k < hi && lo < k + Bytes(ls[k].size)
  }

  predicate HasLeaf(ls: Leaves, k: nat, s: PageSize) {
    k in ls && ls[k].size == s
  }

  /** The table walk: the largest size is inspected first. */
  function LeafAt(ls: Leaves, a: nat): (r: Option<nat>) {
    var g, m, b := AlignDown(Size1G, a), AlignDown(Size2M, a), AlignDown(BASE, a);
    if HasLeaf(ls, g, Size1G) then Some(g)
    else if HasLeaf(ls, m, Size2M) then Some(m)
    else if HasLeaf(ls, b, BASE) then Some(b)
    else None
  }

  datatype Translation = Translation(paddr: nat, permissions: MMUFlags)

  function Permissions(flags: MMUFlags): MMUFlags {
    flags - {HugePage}
  }

  /** Permissions forget the page size and nothing else. */
  lemma PermissionsExact(f: MMUFlags, g: MMUFlags)
    ensures Permissions(f) == Permissions(g) <==> f + {HugePage} == g + {HugePage}
  {
    assert Permissions(f) + {HugePage} == f + {HugePage} && Permissions(g) + {HugePage} == g + {HugePage};
    assert f + {HugePage} - {HugePage} == Permissions(f) && g + {HugePage} - {HugePage} == Permissions(g);
  }

  /** The translation of one virtual address: physical address and permission bits. */
  function Translate(ls: Leaves, a: nat): (r: Option<Translation>) {
    match LeafAt(ls, a)
    case None => None
    case Some(k) =>
      if Covers(ls, k, a) then Some(Translation(ls[k].paddr + (a - k), Permissions(ls[k].flags))) else None
  }

  /** The walk finds the leaf that covers the address, whatever its size. */
  lemma LeafAtCovers(ls: Leaves, a: nat)
    requires LeavesOk(ls)
    ensures LeafAt(ls, a).Some? ==> Covers(ls, LeafAt(ls, a).value, a)
    ensures forall k: nat :: Covers(ls, k, a) ==> LeafAt(ls, a) == Some(k)
  {
    hide Aligned, AlignDown;
    AlignDownFits(Size1G, a);
    AlignDownFits(Size2M, a);
    AlignDownFits(BASE, a);
    forall k: nat | Covers(ls, k, a)
      ensures LeafAt(ls, a) == Some(k)
    {
      assert LeafOk(k, ls[k]);
      AlignDownUnique(ls[k].size, k, a);
    }
  }

  lemma TranslateCovered(ls: Leaves, k: nat, a: nat)
    requires LeavesOk(ls) && Covers(ls, k, a)
    ensures Translate(ls, a) == Some(Translation(ls[k].paddr + (a - k), Permissions(ls[k].flags)))
  {
    LeafAtCovers(ls, a);
  }

  lemma TranslateUncovered(ls: Leaves, a: nat)
    requires LeavesOk(ls)
    ensures Translate(ls, a).None? <==> forall k: nat :: !Covers(ls, k, a)
  {
    LeafAtCovers(ls, a);
  }

  /** Two leaf maps that agree on the leaves covering an address translate it alike. */
  lemma TranslateSame(ls: Leaves, ls': Leaves, a: nat)
    requires LeavesOk(ls) && LeavesOk(ls')
    requires forall k: nat :: Covers(ls, k, a) ==> Covers(ls', k, a) && ls'[k] == ls[k]
    requires forall k: nat :: Covers(ls', k, a) ==> Covers(ls, k, a)
    ensures Translate(ls, a) == Translate(ls', a)
  {
    LeafAtCovers(ls, a);
    LeafAtCovers(ls', a);
    if k: nat :| Covers(ls, k, a) {
      TranslateCovered(ls, k, a);
      TranslateCovered(ls', k, a);
    } else {
      TranslateUncovered(ls, a);
      TranslateUncovered(ls', a);
    }
  }

  // ----- the radix tree

  /** The slots that hold the tables on the way to an entry of the given size. */
  function Ancestors(a: nat, s: PageSize): (r: set<Slot>) {
    match s
    case Size1G => {}
    case Size2M => {Slot(AlignDown(Size1G, a), Size1G)}
    case _ => {Slot(AlignDown(Size1G, a), Size1G), Slot(AlignDown(Size2M, a), Size2M)}
  }

  ghost predicate RadixLeaf(ls: Leaves, dirs: set<Slot>, k: nat)
    requires k in ls
  {
    && LeafOk(k, ls[k])
    && Ancestors(k, ls[k].size) <= dirs
    && Slot(k, ls[k].size) !in dirs
  }

  ghost predicate RadixDir(dirs: set<Slot>, d: Slot) {
    && (d.size == Size2M || d.size == Size1G)
    && Aligned(d.start, d.size)
    && Ancestors(d.start, d.size) <= dirs
  }

  /** Every entry hangs under allocated tables, and no slot is both an entry and a table. */
  ghost predicate Radix(ls: Leaves, dirs: set<Slot>) {
    && (forall k :: k in ls ==> RadixLeaf(ls, dirs, k))
    && (forall d :: d in dirs ==> RadixDir(dirs, d))
  }

  /** A leaf whose block meets a larger aligned block has that block's slot as an ancestor. */
  lemma AncestorOfBlock(k: nat, s: PageSize, b: nat, large: PageSize)
    requires IsPageSize(s) && Aligned(k, s)
    requires (large == Size2M || large == Size1G) && Bytes(s) < Bytes(large) && Aligned(b, large)
    requires k < b + Bytes(large) && b < k + Bytes(s)
    ensures Slot(b, large) in Ancestors(k, s)
  {
    NestedBlocks(k, s, b, large);
    AlignDownUnique(large, b, k);
  }

  /** In a radix tree mappings cannot overlap: the tree shape alone keeps pages apart. */
  lemma RadixLeavesOk(ls: Leaves, dirs: set<Slot>)
    requires Radix(ls, dirs)
    ensures LeavesOk(ls)
  {
    forall j, k | j in ls && k in ls && j < k
      ensures j + Bytes(ls[j].size) <= k
    {
      assert RadixLeaf(ls, dirs, j) && RadixLeaf(ls, dirs, k);
      if k < j + Bytes(ls[j].size) {
        if Bytes(ls[k].size) > Bytes(ls[j].size) {
          NestedBlocks(j, ls[j].size, k, ls[k].size);
        } else if ls[k].size == ls[j].size {
          AlignedGap(j, k, ls[j].size);
        } else {
          AncestorOfBlock(k, ls[k].size, j, ls[j].size);
        }
        assert false;
      }
    }
  }

  /** A leaf of equal or larger size that meets an aligned block covers its first address. */
  lemma LargerLeafCovers(ls: Leaves, k: nat, v: nat, s: PageSize)
    requires k in ls && LeafOk(k, ls[k]) && IsPageSize(s) && Aligned(v, s)
    requires k < v + Bytes(s) && v < k + Bytes(ls[k].size)
    requires Bytes(s) <= Bytes(ls[k].size)
    ensures AlignDown(ls[k].size, v) == k
  {
    NestedBlocks(v, s, k, ls[k].size);
    AlignDownUnique(ls[k].size, k, v);
  }

  /** A slot refuses a mapping when a leaf overlaps it or a table hangs from it. */
  ghost predicate Blocked(ls: Leaves, dirs: set<Slot>, v: nat, s: PageSize) {
    Overlaps(ls, v, v + Bytes(s)) || Slot(v, s) in dirs
  }

  /** What the walk inspects decides `Blocked`: a leaf of the same or a larger size, or a table. */
  predicate WalkBlocked(ls: Leaves, dirs: set<Slot>, v: nat, s: PageSize) {
    || (s != Size1G && HasLeaf(ls, AlignDown(Size1G, v), Size1G))
    || (s == BASE && HasLeaf(ls, AlignDown(Size2M, v), Size2M))
    || HasLeaf(ls, v, s)
    || Slot(v, s) in dirs
  }

  lemma WalkBlockedCorrect(ls: Leaves, dirs: set<Slot>, v: nat, s: PageSize)
    requires Radix(ls, dirs) && IsPageSize(s) && Aligned(v, s)
    ensures WalkBlocked(ls, dirs, v, s) <==> Blocked(ls, dirs, v, s)
  {
    AlignDownFits(Size1G, v);
    AlignDownFits(Size2M, v);
    if k :| k in ls && k < v + Bytes(s) && v < k + Bytes(ls[k].size) {
      assert RadixLeaf(ls, dirs, k);
      if Bytes(ls[k].size) < Bytes(s) {
        AncestorOfBlock(k, ls[k].size, v, s);
      } else {
        LargerLeafCovers(ls, k, v, s);
        AlignDownUnique(s, v, v);
      }
      assert WalkBlocked(ls, dirs, v, s);
      assert Overlaps(ls, v, v + Bytes(s));
    } else {
      assert !Overlaps(ls, v, v + Bytes(s));
      var g, m := AlignDown(Size1G, v), AlignDown(Size2M, v);
      assert !(HasLeaf(ls, g, Size1G) && s != Size1G);
      assert !(HasLeaf(ls, m, Size2M) && s == BASE);
      assert !HasLeaf(ls, v, s);
    }
  }

  /** Adding an unblocked leaf under its ancestors keeps the tree well formed. */
  lemma RadixInsert(ls: Leaves, dirs: set<Slot>, dirs': set<Slot>, v: nat, leaf: Leaf)
    requires Radix(ls, dirs) && LeafOk(v, leaf) && !Blocked(ls, dirs, v, leaf.size)
    requires dirs' == dirs + Ancestors(v, leaf.size)
    ensures Radix(ls[v := leaf], dirs')
  {
    forall d | d in dirs'
      ensures Ancestors(d.start, d.size) <= dirs'
    {
      AncestorsClosed(v, leaf.size);
      assert d in dirs ==> RadixDir(dirs, d);
    }
    RadixGrow(ls, dirs, dirs', v, leaf.size);
    var ls' := ls[v := leaf];
    AncestorsLarger(v, leaf.size);
    forall k | k in ls'
      ensures RadixLeaf(ls', dirs', k)
    {
      if k != v {
        assert RadixLeaf(ls, dirs', k);
      }
    }
  }

  lemma AncestorsLarger(v: nat, s: PageSize)
    requires IsPageSize(s)
    ensures forall d :: d in Ancestors(v, s) ==> Bytes(s) < Bytes(d.size)
  {
  }

  /** The tables above a table are among the tables above anything below it. */
  lemma AncestorsClosed(v: nat, s: PageSize)
    ensures forall d :: d in Ancestors(v, s) ==> Ancestors(d.start, d.size) <= Ancestors(v, s)
  {
    var m := AlignDown(Size2M, v);
    AlignDownFits(Size1G, v);
    AlignDownFits(Size2M, v);
    NestedBlocks(m, Size2M, AlignDown(Size1G, v), Size1G);
    AlignDownUnique(Size1G, AlignDown(Size1G, v), m);
  }

  /** Allocating some of the tables above an unblocked slot keeps the tree well formed. */
  lemma RadixGrow(ls: Leaves, dirs: set<Slot>, dirs': set<Slot>, v: nat, s: PageSize)
    requires Radix(ls, dirs) && IsPageSize(s) && Aligned(v, s) && !Overlaps(ls, v, v + Bytes(s))
    requires dirs <= dirs' <= dirs + Ancestors(v, s)
    requires forall d :: d in dirs' ==> Ancestors(d.start, d.size) <= dirs'
    ensures Radix(ls, dirs')
  {
    AlignDownFits(Size1G, v);
    AlignDownFits(Size2M, v);
    forall d | d in dirs'
      ensures RadixDir(dirs', d)
    {
      if d in dirs {
        assert RadixDir(dirs, d);
      }
    }
    forall k | k in ls
      ensures RadixLeaf(ls, dirs', k)
    {
      assert RadixLeaf(ls, dirs, k);
      var d := Slot(k, ls[k].size);
      if d in Ancestors(v, s) {
        assert false;
      }
    }
  }

  // ----- the top level

  type TableLevels = n: nat | n == 3 || n == 4 witness 3

  /** Three or four levels, chosen per target and left without a value.  With four, each slot
      of the root holds a table for 512G. */
  const LEVELS: TableLevels
  const TOP_BYTES := 0x80_0000_0000

  function TopOf(a: nat): (i: nat) {
    a / TOP_BYTES
  }

  /** Everything in the tree hangs from a slot of the root that holds a table. */
  ghost predicate Rooted(ls: Leaves, dirs: set<Slot>, tops: set<nat>) {
    LEVELS == 4 ==>
      && (forall k :: k in ls ==> TopOf(k) in tops)
      && (forall d :: d in dirs ==> TopOf(d.start) in tops)
  }

  lemma TopUnique(i: nat, a: nat)
    requires i * TOP_BYTES <= a < i * TOP_BYTES + TOP_BYTES
    ensures TopOf(a) == i
  {
  }

  lemma TopAligned(i: nat, s: PageSize)
    ensures Aligned(i * TOP_BYTES, s)
  {
    var n := TOP_BYTES / Bytes(s);
    assert n * Bytes(s) == TOP_BYTES;
    MultipleAligned(i * n, s);
    assert i * n * Bytes(s) == i * (n * Bytes(s));
  }

  lemma TopOfBlock(s: PageSize, a: nat)
    ensures TopOf(AlignDown(s, a)) == TopOf(a)
  {
    var i, b := TopOf(a), AlignDown(s, a);
    assert i * TOP_BYTES <= a < i * TOP_BYTES + TOP_BYTES;
    hide Aligned, AlignDown, TopOf;
    TopAligned(i, s);
    AlignDownFits(s, a);
    if b < i * TOP_BYTES {
      AlignedGap(b, i * TOP_BYTES, s);
    }
    TopUnique(i, b);
  }

  /** Whatever blocks a page hangs from the same slot of the root. */
  lemma BlockedIsRooted(ls: Leaves, dirs: set<Slot>, tops: set<nat>, v: nat, s: PageSize)
    requires WalkBlocked(ls, dirs, v, s) && Rooted(ls, dirs, tops)
    ensures LEVELS == 4 ==> TopOf(v) in tops
  {
    hide AlignDown, TopOf;
    TopOfBlock(Size1G, v);
    TopOfBlock(Size2M, v);
  }

  lemma RootedGrow(ls: Leaves, dirs: set<Slot>, dirs': set<Slot>, tops: set<nat>, v: nat, s: PageSize)
    requires Rooted(ls, dirs, tops) && dirs' <= dirs + Ancestors(v, s)
    requires LEVELS == 4 ==> TopOf(v) in tops
    ensures Rooted(ls, dirs', tops)
  {
    hide AlignDown, TopOf;
    TopOfBlock(Size1G, v);
    TopOfBlock(Size2M, v);
  }

  /** Some table on the way to the page has still to be allocated. */
  ghost predicate MissingTable(dirs: set<Slot>, tops: set<nat>, v: nat, s: PageSize) {
    !(Ancestors(v, s) <= dirs) || (LEVELS == 4 && TopOf(v) !in tops)
  }
}
