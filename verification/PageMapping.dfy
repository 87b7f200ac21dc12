/** The mutable page table: its primitives, and the two loops `map_cont` and `unmap_cont`. */
module PageMapping {
  import opened PageSizes
  import opened PageTables
  import opened Tilings
  import opened RangeSpecs
  import opened Results
  import opened Splits

  class PageTable {
    var leaves: Leaves
    var dirs: set<Slot>
    var tops: set<nat>   // the slots of a fourth-level root that hold a table

    ghost predicate Valid()
      reads this
      ensures Valid() ==> Radix(leaves, dirs) && LeavesOk(leaves) && Rooted(leaves, dirs, tops)
    {
      if Radix(leaves, dirs) then RadixLeavesOk(leaves, dirs); Rooted(leaves, dirs, tops) else false
    }

    constructor ()
      ensures Valid() && leaves == map[] && dirs == {}
      ensures forall a: nat :: Translate(leaves, a).None?
    {
      leaves := map[];
      dirs := {};
      tops := {};
    }

    /** Allocate the table that hangs from `slot`, unless it exists.  Frame allocation may
        fail at any time. */
    method EnsureTable(slot: Slot) returns (r: PagingResult<()>)
      modifies this`dirs
      ensures r.Ok? ==> dirs == old(dirs) + {slot}
      ensures r.Err? ==> r.error == NoMemory && dirs == old(dirs) && slot !in dirs
    {
      r := Ok(());
      if slot !in dirs {
        var frame: bool := *;
        if frame {
          dirs := dirs + {slot};
        } else {
          r := Err(NoMemory);
        }
      }
    }

    /** The same for the slot of the root that `v` belongs to. */
    method EnsureTop(v: nat) returns (r: PagingResult<()>)
      modifies this`tops
      ensures r.Ok? ==> tops == old(tops) + if LEVELS == 4 then {TopOf(v)} else {}
      ensures r.Err? ==> r.error == NoMemory && tops == old(tops) && LEVELS == 4 && TopOf(v) !in tops
    {
      r := Ok(());
      if LEVELS == 4 && TopOf(v) !in tops {
        var frame: bool := *;
        if frame {
          tops := tops + {TopOf(v)};
        } else {
          r := Err(NoMemory);
        }
      }
    }

    /** Map one page to the frame of `paddr`. */
    method Map(v: nat, s: PageSize, paddr: nat, flags: MMUFlags) returns (r: PagingResult<()>)
      requires Valid() && IsPageSize(s) && Aligned(v, s)
      modifies this
      ensures Valid()
      ensures r == Err(AlreadyMapped) <==> old(Blocked(leaves, dirs, v, s))
      ensures r.Ok? ==> leaves == old(leaves)[v := Leaf(s, AlignDown(s, paddr), flags)]
      ensures r.Err? ==> leaves == old(leaves) && r.error != NotMapped
      ensures r == Err(NoMemory) ==> MissingTable(old(dirs), old(tops), v, s)
      ensures old(dirs) <= dirs <= old(dirs) + Ancestors(v, s)
      ensures r.Ok? ==> dirs == old(dirs) + Ancestors(v, s)
      ensures old(tops) <= tops <= old(tops) + {TopOf(v)}
    {
      hide Aligned, AlignDown, Radix, TopOf;
      WalkBlockedCorrect(leaves, dirs, v, s);
      if WalkBlocked(leaves, dirs, v, s) {
        BlockedIsRooted(leaves, dirs, tops, v, s);
      }
      r := EnsureTop(v);
      if r.Err? { return; }
      if WalkBlocked(leaves, dirs, v, s) {
        return Err(AlreadyMapped);
      }
      AncestorsClosed(v, s);
      if s != Size1G {
        r := EnsureTable(Slot(AlignDown(Size1G, v), Size1G));
        GrowTables(leaves, old(dirs), dirs, v, s);
        RootedGrow(leaves, old(dirs), dirs, tops, v, s);
        if r.Err? { return; }
      }
      if s == BASE {
        r := EnsureTable(Slot(AlignDown(Size2M, v), Size2M));
        GrowTables(leaves, old(dirs), dirs, v, s);
        RootedGrow(leaves, old(dirs), dirs, tops, v, s);
        if r.Err? { return; }
      }
      assert dirs == old(dirs) + Ancestors(v, s);
      AlignDownFits(s, paddr);
      RadixInsert(leaves, old(dirs), dirs, v, Leaf(s, AlignDown(s, paddr), flags));
      leaves := leaves[v := Leaf(s, AlignDown(s, paddr), flags)];
      r := Ok(());
    }

    /** Remove the page that covers `v`.  Tables are kept. */
    method Unmap(v: nat) returns (r: PagingResult<(nat, PageSize)>)
      requires Valid()
      modifies this`leaves
      ensures Valid()
      ensures old(LeafAt(leaves, v)).None? ==> r == Err(NotMapped) && leaves == old(leaves)
      ensures old(LeafAt(leaves, v)).Some? ==>
                var k := old(LeafAt(leaves, v)).value;
                && k in old(leaves)
                && r == Ok((old(leaves)[k].paddr, old(leaves)[k].size))
                && leaves == old(leaves) - {k}
    {
      match LeafAt(leaves, v)
      case None => r := Err(NotMapped);
      case Some(k) =>
        r := Ok((leaves[k].paddr, leaves[k].size));
        RadixRemove(leaves, dirs, k);
        leaves := leaves - {k};
    }

    /** Physical address (with the offset inside the page), flags and size for `v`. */
    method Query(v: nat) returns (r: PagingResult<(nat, MMUFlags, PageSize)>)
      requires Valid()
      ensures r == Err(NotMapped) <==> Translate(leaves, v).None?
      ensures r.Err? ==> r.error == NotMapped
      ensures r.Ok? ==>
                var (paddr, flags, size) := r.value;
                var k := AlignDown(size, v);
                && Translate(leaves, v) == Some(Translation(paddr, Permissions(flags)))
                && LeafAt(leaves, v) == Some(k) && Covers(leaves, k, v) && k in leaves
                && leaves[k] == Leaf(size, paddr - (v - k), flags) && PageOffset(size, v) == v - k
    {
      hide Aligned, AlignDown, PageOffset;
      QueryOffset(leaves, v);
      match LeafAt(leaves, v)
      case None => r := Err(NotMapped);
      case Some(k) =>
        r := Ok((leaves[k].paddr + PageOffset(leaves[k].size, v), leaves[k].flags, leaves[k].size));
    }

    /** Map a contiguous range, with the largest aligned pages when `HugePage` is set.

        `done` is the number of pages mapped: all of them on success, and on failure exactly
        those before the page that was refused. */
    method MapCont(start: nat, size: nat, startPaddr: nat, flags: MMUFlags)
      returns (r: PagingResult<()>, ghost done: nat)
      requires Valid() && Aligned(start, BASE) && Aligned(size, BASE)
      modifies this
      ensures Valid()
      ensures MapContOutcome(old(leaves), old(dirs), leaves, start, size, startPaddr, flags, r, done)
      ensures r.Ok? ==> leaves == MapRange(old(leaves), start, startPaddr, size, flags)
      ensures r.Ok? ==> !Overlaps(old(leaves), start, start + size)
      ensures r != Err(NoMemory) ==>
                (r.Ok? <==> Admitted(old(leaves), old(dirs), start, Greedy(start, startPaddr, size, HugePage in flags)))
      ensures old(Clear(leaves, dirs, start, start + size)) ==> r != Err(AlreadyMapped)
      ensures var ts := Greedy(start, startPaddr, size, HugePage in flags);
              r == Err(NoMemory) ==>
                done < |ts| && MissingTable(old(dirs), old(tops), PageStart(start, ts, done), ts[done])
      ensures forall k :: k in old(leaves) ==> k in leaves && leaves[k] == old(leaves)[k]
      ensures NewLeaves(old(leaves), leaves, start, size, startPaddr, flags)
      ensures r.Ok? && HugePage !in flags ==> NewAtEveryBasePage(old(leaves), leaves, start, size)
      ensures old(dirs) <= dirs
      ensures NewTablesWithin(old(dirs), dirs, start, start + size)
      ensures old(tops) <= tops
    {
      hide *;
      var vaddr, paddr, end := start, startPaddr, start + size;
      ghost var sofar: seq<PageSize> := [];
      ProgressStart(leaves, dirs, start, size, startPaddr, flags);
      TablesStart(dirs, start, vaddr);
      while vaddr < end
        invariant Valid() && start <= vaddr <= end && paddr == startPaddr + (vaddr - start)
        invariant Progress(old(leaves), old(dirs), leaves, start, size, startPaddr, flags, vaddr, sofar)
        invariant old(dirs) <= dirs && NewTablesWithin(old(dirs), dirs, start, vaddr)
        invariant old(tops) <= tops
        decreases end - vaddr
      {
        ghost var before, dirsBefore, topsBefore := leaves, dirs, tops;
        var s := Choose(vaddr, paddr, end - vaddr, HugePage in flags);
        ProgressChoice(old(leaves), old(dirs), leaves, start, size, startPaddr, flags, vaddr, sofar);
        BlockedBefore(old(leaves), old(dirs), leaves, dirs, start, size, startPaddr, flags, vaddr, sofar, s);
        r := Map(vaddr, s, paddr, flags);
        if r.Err? {
          NewTablesStep(old(dirs), dirsBefore, dirs, start, vaddr, s, end);
          ProgressStop(old(leaves), old(dirs), leaves, start, size, startPaddr, flags, vaddr, sofar, r);
          MapContRefusal(old(leaves), old(dirs), leaves, start, size, startPaddr, flags, r, |sofar|);
          MapContAdds(old(leaves), old(dirs), leaves, start, size, startPaddr, flags, r, |sofar|);
          OldLeavesKept(old(leaves), old(dirs), leaves, start, size, startPaddr, flags, r, |sofar|);
          NextPage(old(leaves), old(dirs), leaves, start, size, startPaddr, flags, vaddr, sofar);
          if r == Err(NoMemory) {
            MissingBefore(old(dirs), dirsBefore, old(tops), topsBefore, vaddr, s);
          }
          if Clear(old(leaves), old(dirs), start, end) {
            ClearIsAdmitted(old(leaves), old(dirs), leaves, start, size, startPaddr, flags, r, |sofar|);
          }
          return r, |sofar|;
        }
        NewTablesStep(old(dirs), dirsBefore, dirs, start, vaddr, s, vaddr + Bytes(s));
        ProgressStep(old(leaves), old(dirs), before, dirsBefore, start, size, startPaddr, flags, vaddr, sofar);
        sofar := sofar + [s];
        vaddr := vaddr + Bytes(s);
        paddr := paddr + Bytes(s);
      }
      ProgressEnd(old(leaves), old(dirs), leaves, start, size, startPaddr, flags, sofar);
      MapContRefusal(old(leaves), old(dirs), leaves, start, size, startPaddr, flags, Ok(()), |sofar|);
      MapContAdds(old(leaves), old(dirs), leaves, start, size, startPaddr, flags, Ok(()), |sofar|);
      OldLeavesKept(old(leaves), old(dirs), leaves, start, size, startPaddr, flags, Ok(()), |sofar|);
      return Ok(()), |sofar|;
    }

    /** Unmap a contiguous range.  A page that sticks out of the range is split: the parts
        outside are mapped again. */
    method UnmapCont(start: nat, size: nat) returns (r: PagingResult<()>)
      requires Valid() && Aligned(start, BASE) && Aligned(size, BASE)
      modifies this
      ensures Valid()
      ensures r.Ok? ==> Removed(old(leaves), leaves, start, start + size)
      ensures r.Ok? ==> (RangeBounds(start, size); leaves == Pruned(old(leaves), start, start + size))
      ensures old(dirs) <= dirs
      ensures r.Err? ==> r.error == NoMemory && LostOnlyNear(old(leaves), leaves, start, start + size)
      ensures !Cuts(old(leaves), start, start + size) ==>
                && r.Ok? && leaves == Outside(old(leaves), start, start + size)
                && dirs == old(dirs) && tops == old(tops)
    {
      hide *;
      var vaddr, end := start, start + size;
      RemovedNothing(leaves, start);
      UntouchedStart(leaves, start);
      RangeBounds(start, size);
      PruneStart(leaves, start, end);
      while vaddr < end
        invariant Valid() && start <= vaddr <= end && Aligned(vaddr, BASE)
        invariant Removed(old(leaves), leaves, start, vaddr)
        invariant vaddr < end ==> Untouched(old(leaves), leaves, vaddr)
        invariant PruneState(old(leaves), leaves, start, vaddr, end)
        invariant old(dirs) <= dirs
        invariant dirs != old(dirs) || tops != old(tops) ==> Cuts(old(leaves), start, end)
        decreases end - vaddr
      {
        ghost var before := leaves;
        var q := Query(vaddr);
        match q {
          case Err(NotMapped) =>
            GapIsBase(old(leaves), leaves, start, vaddr, end);
            PruneGap(old(leaves), leaves, start, vaddr, end);
            vaddr := vaddr + Bytes(BASE);
            continue;
          case Err(e) =>
            return Err(e);
          case Ok(_) =>
        }
        var (paddr, flags, pageSize) := q.value;
        var mappingStart := AlignDown(pageSize, vaddr);
        var mappingEnd := mappingStart + Bytes(pageSize);
        var removeEnd := if end < mappingEnd then end else mappingEnd;
        var paddrStart := paddr - PageOffset(pageSize, vaddr);
        ghost var k := mappingStart;
        SplitBounds(leaves, k, vaddr, removeEnd, end);
        PageAtCursor(old(leaves), leaves, k, start, vaddr);
        SamePage(old(leaves), leaves, k, vaddr);
        if k < vaddr || end < mappingEnd {
          SplitCuts(old(leaves), leaves, k, start, vaddr, end);
        }
        UnmapClears(leaves, dirs, k);
        var u := Unmap(vaddr);
        match u {
          case Err(e) => return Err(e);
          case Ok(_) =>
        }
        ghost var rest := leaves;
        UnmapRemoves(before, k);
        var remap := flags + {HugePage};
        ghost var mid, dirsMid := leaves, dirs;
        if mappingStart < vaddr {
          ghost var done;
          ClearPart(leaves, dirs, k, mappingEnd, k, vaddr);
          r, done := MapCont(mappingStart, vaddr - mappingStart, paddrStart, remap);
          PrefixRemapped(before, rest, dirsMid, leaves, k, vaddr, remap, r, done);
          if r.Err? {
            LossNear(old(leaves), before, leaves, k, start, vaddr, end);
            return;
          }
          ClearAfterPrefix(rest, dirsMid, leaves, dirs, k, vaddr, removeEnd, mappingEnd, paddrStart, remap);
          mid, dirsMid := leaves, dirs;
        } else {
          ClearPart(leaves, dirs, k, mappingEnd, removeEnd, mappingEnd);
        }
        if removeEnd < mappingEnd {
          ghost var done;
          r, done := MapCont(removeEnd, mappingEnd - removeEnd, paddrStart + removeEnd - mappingStart, remap);
          SuffixRemapped(before, mid, dirsMid, leaves, k, vaddr, removeEnd, remap, r, done);
          if r.Err? {
            LossNear(old(leaves), before, leaves, k, start, vaddr, end);
            return;
          }
        } else {
          UntouchedStep(old(leaves), before, leaves, k, vaddr, removeEnd, paddrStart, remap);
        }
        PrunePage(old(leaves), before, mid, leaves, k, start, vaddr, removeEnd, end);
        RemovedStep(old(leaves), before, leaves, start, vaddr, removeEnd);
        vaddr := removeEnd;
      }
      PruneEnd(old(leaves), leaves, start, end);
      if !Cuts(old(leaves), start, end) {
        PrunedWithoutCuts(old(leaves), start, end);
      }
      return Ok(());
    }
  }

  /** Tables outlive the pages mapped through them.  On a fresh table, once a base page has been
      mapped and unmapped, nothing is mapped, and yet a 2M page and a 1G page are refused. */
  method LeftoverTableRefusesHugePage(v: nat, paddr: nat, flags: MMUFlags)
    returns (table: PageTable, first: PagingResult<()>, second: PagingResult<(nat, PageSize)>,
             third: PagingResult<()>, fourth: PagingResult<()>)
    requires Aligned(v, BASE)
    ensures first.Err? ==> first.error == NoMemory
    ensures first.Ok? ==>
              && second == Ok((AlignDown(BASE, paddr), BASE))
              && third == Err(AlreadyMapped) && fourth == Err(AlreadyMapped)
              && forall a: nat :: Translate(table.leaves, a).None?
  {
    hide Aligned, AlignDown;
    table := new PageTable();
    second, third, fourth := Err(NotMapped), Ok(()), Ok(());
    first := table.Map(v, BASE, paddr, flags);
    if first.Ok? {
      AlignDownFits(Size2M, v);
      AlignDownFits(Size1G, v);
      LeafAtCovers(table.leaves, v);
      assert Covers(table.leaves, v, v);
      second := table.Unmap(v);
      third := table.Map(AlignDown(Size2M, v), Size2M, paddr, flags);
      fourth := table.Map(AlignDown(Size1G, v), Size1G, paddr, flags);
    }
  }
}
