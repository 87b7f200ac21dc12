/** Seeding the frame allocator from the memory map, and carving the dynamic heap out of it. */
module FrameSeeding {
  import opened Results

  type PageBytes = n: nat | n == 0x1000 || n == 0x4000 witness 0x1000

  /** The page size is fixed per target.  It is left without a value, so that every proof
      covers both. */
  const PAGE: PageBytes

  const HEAP_SIZE := 0x2000_0000    // 512 MiB
  const HEAP_ALIGN := 0x1000_0000   // 256 MiB

  /** The physical addresses from `start` up to, not including, `end`. */
  datatype Region = Region(start: nat, end: nat)

  function FrameOf(a: nat): (f: nat) {
    a / PAGE
  }

  function Frames(lo: nat, hi: nat): (fs: set<nat>)
    ensures forall f :: f in fs <==> lo <= f < hi
    decreases if lo < hi then hi - lo else 0
  {
    if lo >= hi then {} else {lo} + Frames(lo + 1, hi)
  }

  function AlignUp(a: nat): (r: nat)
    ensures a <= r < a + HEAP_ALIGN && r % HEAP_ALIGN == 0
  {
    (a + HEAP_ALIGN - 1) / HEAP_ALIGN * HEAP_ALIGN
  }

  /** Where the heap would go in one region. */
  function HeapIn(r: Region): (h: Option<Region>) {
    var start := AlignUp(r.start);
    if start + HEAP_SIZE <= r.end then Some(Region(start, start + HEAP_SIZE)) else None
  }

  /** The heap goes into the first region that has room for it. */
  function HeapRegion(rs: seq<Region>): (h: Option<Region>) {
    if rs == [] then None
    else if HeapIn(rs[0]).Some? then HeapIn(rs[0])
    else HeapRegion(rs[1..])
  }

  predicate Contains(r: Region, heap: Region) {
    r.start <= heap.start && heap.end <= r.end
  }

  /** The frames one region adds. */
  function Inserted(r: Region, heap: Option<Region>): (fs: set<nat>)
    requires r.end > 0
  {
    var lo, hi := FrameOf(r.start), FrameOf(r.end - 1) + 1;
    if heap.Some? && Contains(r, heap.value)
    then Frames(lo, FrameOf(heap.value.start)) + Frames(FrameOf(heap.value.end), hi)
    else Frames(lo, hi)
  }

  predicate Bounded(rs: seq<Region>) {
    forall i :: 0 <= i < |rs| ==> rs[i].end > 0
  }

  function InsertedAll(rs: seq<Region>, heap: Option<Region>): (fs: set<nat>)
    requires Bounded(rs)
  {
    if rs == [] then {} else InsertedAll(rs[..|rs| - 1], heap) + Inserted(rs[|rs| - 1], heap)
  }

  // ----- the allocator

  class FrameAllocator {
    var free: set<nat>

    constructor ()
      ensures free == {}
    {
      free := {};
    }

    method Insert(lo: nat, hi: nat)
      modifies this
      ensures free == old(free) + Frames(lo, hi)
    {
      free := free + Frames(lo, hi);
    }
  }

  method FindHeap(rs: seq<Region>) returns (heap: Option<Region>)
    ensures heap == HeapRegion(rs)
  {
    for i := 0 to |rs|
      invariant HeapRegion(rs) == HeapRegion(rs[i..])
    {
      assert rs[i..][1..] == rs[i + 1..];
      if HeapIn(rs[i]).Some? {
        return HeapIn(rs[i]);
      }
    }
    heap := None;
  }

  /** The turn of the loop for one region. */
  method InsertRegion(allocator: FrameAllocator, r: Region, heap: Option<Region>)
    requires r.end > 0
    modifies allocator
    ensures allocator.free == old(allocator.free) + Inserted(r, heap)
  {
    hide FrameOf;
    var frameStart := FrameOf(r.start);
    var frameEnd := FrameOf(r.end - 1) + 1;
    if heap.Some? && Contains(r, heap.value) {
      var heapStart := FrameOf(heap.value.start);
      var heapEnd := FrameOf(heap.value.end);
      if frameStart < heapStart {
        allocator.Insert(frameStart, heapStart);
      }
      if heapEnd < frameEnd {
        allocator.Insert(heapEnd, frameEnd);
      }
    } else if frameStart < frameEnd {
      allocator.Insert(frameStart, frameEnd);
    }
  }

  /** A region that ends at 0 has no last byte. */
  datatype Underflow = Underflow

  /** Seed the allocator; the heap, where there is one, is kept out of it.  `done` regions are
      inserted: all of them, unless one ends at 0. */
  method InsertRegions(allocator: FrameAllocator, rs: seq<Region>, dynamicHeap: bool)
    returns (r: Result<Option<Region>, Underflow>, ghost done: nat)
    modifies allocator
    ensures done <= |rs| && Bounded(rs[..done]) && (done < |rs| ==> rs[done].end == 0)
    ensures r.Ok? <==> Bounded(rs)
    ensures var heap := if dynamicHeap then HeapRegion(rs) else None;
            && (r.Ok? ==> r.value == heap && done == |rs|)
            && allocator.free == old(allocator.free) + InsertedAll(rs[..done], heap)
  {
    hide Inserted, HeapRegion;
    var heap := None;
    if dynamicHeap {
      heap := FindHeap(rs);
    }
    for i := 0 to |rs|
      invariant Bounded(rs[..i])
      invariant allocator.free == old(allocator.free) + InsertedAll(rs[..i], heap)
    {
      if rs[i].end == 0 {
        return Err(Underflow), i;
      }
      assert rs[..i + 1][..i] == rs[..i];
      InsertRegion(allocator, rs[i], heap);
    }
    assert rs[..|rs|] == rs;
    return Ok(heap), |rs|;
  }

  // ----- what is inserted

  /** Some byte of the region lies in frame `f`. */
  ghost predicate Touches(r: Region, f: nat) {
    exists a: nat :: r.start <= a < r.end && FrameOf(a) == f
  }

  ghost predicate TouchedByAny(rs: seq<Region>, f: nat) {
    exists i :: 0 <= i < |rs| && Touches(rs[i], f)
  }

  predicate Empty(r: Region) {
    r.end <= r.start
  }

  /** No byte belongs to two regions. */
  ghost predicate Disjoint(rs: seq<Region>) {
    forall i, j :: 0 <= i < j < |rs| ==>
      Empty(rs[i]) || Empty(rs[j]) || rs[i].end <= rs[j].start || rs[j].end <= rs[i].start
  }

  predicate HeapFrame(heap: Option<Region>, f: nat) {
    heap.Some? && FrameOf(heap.value.start) <= f < FrameOf(heap.value.end)
  }

  lemma FrameBounds(a: nat)
    ensures FrameOf(a) * PAGE <= a < FrameOf(a) * PAGE + PAGE
  {
  }

  lemma FrameMonotone(a: nat, b: nat)
    requires a <= b
    ensures FrameOf(a) <= FrameOf(b)
  {
    if PAGE == 0x1000 {
    } else {
    }
  }

  lemma FrameStart(f: nat)
    ensures FrameOf(f * PAGE) == f
  {
    if PAGE == 0x1000 {
    } else {
    }
  }

  /** The index range computed for a region is the set of frames it touches. */
  lemma RegionFrames(r: Region, f: nat)
    requires r.start < r.end
    ensures f in Frames(FrameOf(r.start), FrameOf(r.end - 1) + 1) <==> Touches(r, f)
  {
    hide FrameOf;
    if Touches(r, f) {
      var a: nat :| r.start <= a < r.end && FrameOf(a) == f;
      FrameMonotone(r.start, a);
      FrameMonotone(a, r.end - 1);
    }
    if FrameOf(r.start) <= f <= FrameOf(r.end - 1) {
      if f == FrameOf(r.start) {
        assert Touches(r, f);
      } else {
        FrameStart(f);
        FrameBounds(r.start);
        FrameBounds(r.end - 1);
        PageMultiple(FrameOf(r.start) + 1, f);
        PageMultiple(f, FrameOf(r.end - 1));
        assert Touches(r, f);
      }
    }
  }

  lemma PageMultiple(x: nat, y: nat)
    requires x <= y
    ensures x * PAGE <= y * PAGE
    ensures (x + 1) * PAGE == x * PAGE + PAGE
  {
  }

  lemma {:induction false} HeapInsideARegion(rs: seq<Region>)
    requires HeapRegion(rs).Some?
    ensures exists k :: 0 <= k < |rs| && Contains(rs[k], HeapRegion(rs).value)
    ensures HeapRegion(rs).value.end == HeapRegion(rs).value.start + HEAP_SIZE
    ensures HeapRegion(rs).value.start % HEAP_ALIGN == 0
  {
    if HeapIn(rs[0]).None? {
      HeapInsideARegion(rs[1..]);
      var k :| 0 <= k < |rs[1..]| && Contains(rs[1..][k], HeapRegion(rs[1..]).value);
      assert rs[k + 1] == rs[1..][k];
    } else {
      assert Contains(rs[0], HeapRegion(rs).value);
    }
  }

  /** A heap is found exactly when some region has room for an aligned one. */
  lemma {:induction false} HeapFoundWheneverPossible(rs: seq<Region>)
    ensures HeapRegion(rs).Some? <==>
              exists i, at: nat :: 0 <= i < |rs| && HeapFits(rs[i], at)
  {
    if rs != [] {
      HeapFoundWheneverPossible(rs[1..]);
      if HeapIn(rs[0]).Some? {
        assert HeapFits(rs[0], HeapIn(rs[0]).value.start);
      } else {
        if i, at: nat :| 0 <= i < |rs| && HeapFits(rs[i], at) {
          if i == 0 {
            AlignUpIsLowest(rs[0].start, at);
          } else {
            assert HeapFits(rs[1..][i - 1], at);
          }
        }
        if HeapRegion(rs[1..]).Some? {
          var i, at: nat :| 0 <= i < |rs[1..]| && HeapFits(rs[1..][i], at);
          assert HeapFits(rs[i + 1], at);
        }
      }
    }
  }

  predicate HeapFits(r: Region, at: nat) {
    at % HEAP_ALIGN == 0 && r.start <= at && at + HEAP_SIZE <= r.end
  }

  lemma AlignUpIsLowest(a: nat, at: nat)
    requires at % HEAP_ALIGN == 0 && a <= at
    ensures AlignUp(a) <= at
  {
  }

  /** The heap goes to the lowest aligned place of the first region that has room. */
  lemma {:induction false} HeapIsFirstFit(rs: seq<Region>)
    requires HeapRegion(rs).Some?
    ensures var h := HeapRegion(rs).value;
            exists k :: 0 <= k < |rs| && HeapFits(rs[k], h.start)
                        && (forall at: nat :: HeapFits(rs[k], at) ==> h.start <= at)
                        && (forall i, at: nat :: 0 <= i < k ==> !HeapFits(rs[i], at))
    ensures HeapRegion(rs).value.end == HeapRegion(rs).value.start + HEAP_SIZE
  {
    var h := HeapRegion(rs).value;
    if HeapIn(rs[0]).Some? {
      forall at: nat | HeapFits(rs[0], at)
        ensures h.start <= at
      {
        AlignUpIsLowest(rs[0].start, at);
      }
      assert HeapFits(rs[0], h.start);
    } else {
      HeapIsFirstFit(rs[1..]);
      var k :| 0 <= k < |rs[1..]| && HeapFits(rs[1..][k], h.start)
               && (forall at: nat :: HeapFits(rs[1..][k], at) ==> h.start <= at)
               && (forall i, at: nat :: 0 <= i < k ==> !HeapFits(rs[1..][i], at));
      forall i, at: nat | 0 <= i < k + 1
        ensures !HeapFits(rs[i], at)
      {
        if i == 0 && HeapFits(rs[0], at) {
          AlignUpIsLowest(rs[0].start, at);
        } else if i > 0 {
          assert rs[i] == rs[1..][i - 1];
        }
      }
      assert HeapFits(rs[k + 1], h.start);
    }
  }

  /** A frame boundary separates addresses and frames alike. */
  lemma BoundarySeparates(b: nat, a: nat)
    requires b % PAGE == 0
    ensures FrameOf(a) < FrameOf(b) <==> a < b
  {
    if PAGE == 0x1000 {
    } else {
    }
  }

  lemma HeapOnBoundaries(start: nat)
    requires start % HEAP_ALIGN == 0
    ensures start % PAGE == 0 && (start + HEAP_SIZE) % PAGE == 0
  {
    if PAGE == 0x1000 {
    } else {
    }
  }

  /** The heap is made of whole frames. */
  lemma HeapFrameBytes(start: nat, a: nat)
    requires start % HEAP_ALIGN == 0
    ensures FrameOf(start) <= FrameOf(a) < FrameOf(start + HEAP_SIZE) <==> start <= a < start + HEAP_SIZE
    ensures FrameOf(start + HEAP_SIZE) == FrameOf(start + HEAP_SIZE - 1) + 1
  {
    hide FrameOf;
    HeapOnBoundaries(start);
    BoundarySeparates(start, a);
    BoundarySeparates(start + HEAP_SIZE, a);
    BoundaryFrames(start + HEAP_SIZE);
  }

  /** The heap was looked for in these regions, or not at all. */
  ghost predicate HeapOf(rs: seq<Region>, heap: Option<Region>) {
    heap == None || heap == HeapRegion(rs)
  }

  /** One region contributes the frames it touches, except those of the heap. */
  lemma InsertedByRegion(rs: seq<Region>, i: nat, heap: Option<Region>, f: nat)
    requires Disjoint(rs) && HeapOf(rs, heap)
    requires i < |rs| && !Empty(rs[i])
    ensures f in Inserted(rs[i], heap) <==> Touches(rs[i], f) && !HeapFrame(heap, f)
  {
    hide FrameOf, HeapRegion;
    RegionFrames(rs[i], f);
    if heap.Some? {
      HeapInsideARegion(rs);
      var h := heap.value;
      if Contains(rs[i], h) {
        HeapFrameBytes(h.start, h.start);
        FrameMonotone(rs[i].start, h.start);
        FrameMonotone(h.end - 1, rs[i].end - 1);
      } else if Touches(rs[i], f) && HeapFrame(heap, f) {
        var k :| 0 <= k < |rs| && Contains(rs[k], h);
        var a: nat :| rs[i].start <= a < rs[i].end && FrameOf(a) == f;
        HeapFrameBytes(h.start, a);
        assert false;
      }
    }
  }

  lemma {:induction false} InsertedByAll(rs: seq<Region>, heap: Option<Region>, f: nat)
    requires Bounded(rs)
    ensures f in InsertedAll(rs, heap) <==> exists i :: 0 <= i < |rs| && f in Inserted(rs[i], heap)
  {
    hide Inserted;
    if rs != [] {
      var n := |rs| - 1;
      InsertedByAll(rs[..n], heap, f);
      if f in InsertedAll(rs, heap) {
        if f in InsertedAll(rs[..n], heap) {
          var i :| 0 <= i < n && f in Inserted(rs[..n][i], heap);
          assert f in Inserted(rs[i], heap);
        }
      }
      if i :| 0 <= i < |rs| && f in Inserted(rs[i], heap) {
        if i < n {
          assert f in Inserted(rs[..n][i], heap);
        }
      }
    }
  }

  /** A frame of the heap is touched by the region the heap lies in. */
  lemma HeapFrameTouched(rs: seq<Region>, heap: Option<Region>, f: nat)
    requires HeapOf(rs, heap) && HeapFrame(heap, f)
    ensures TouchedByAny(rs, f)
  {
    hide FrameOf, HeapRegion;
    HeapInsideARegion(rs);
    var k :| 0 <= k < |rs| && Contains(rs[k], heap.value);
    FrameStart(f);
    HeapFrameBytes(heap.value.start, f * PAGE);
    assert Touches(rs[k], f);
  }

  // ----- empty regions

  /** The frame computed for the last byte of an empty region is not below its first. */
  predicate Stray(r: Region)
    requires r.end > 0
  {
    Empty(r) && FrameOf(r.end - 1) == FrameOf(r.start)
  }

  /** An empty region, inverted or not, inserts the frame it starts in exactly when it is
      stray; it touches no frame at all. */
  lemma EmptyRegionInserts(rs: seq<Region>, heap: Option<Region>, r: Region)
    requires HeapOf(rs, heap) && Empty(r) && r.end > 0
    ensures Inserted(r, heap) == if Stray(r) then {FrameOf(r.start)} else {}
    ensures forall f: nat :: !Touches(r, f)
  {
    hide FrameOf, HeapRegion;
    FrameMonotone(r.end - 1, r.start);
    if heap.Some? {
      HeapInsideARegion(rs);
    }
  }

  /** Inserted frames and heap frames are together exactly the frames the regions touch. */
  ghost predicate InsertedPlusHeapIsTouched(rs: seq<Region>, heap: Option<Region>)
    requires Bounded(rs)
  {
    forall f: nat :: f in InsertedAll(rs, heap) || HeapFrame(heap, f) <==> TouchedByAny(rs, f)
  }

  ghost predicate HeapStaysOut(rs: seq<Region>, heap: Option<Region>)
    requires Bounded(rs)
  {
    forall f: nat :: f in InsertedAll(rs, heap) ==> !HeapFrame(heap, f)
  }

  /** The frame `f` is inserted on account of a stray region. */
  ghost predicate StrayFrame(rs: seq<Region>, f: nat)
    requires Bounded(rs)
  {
    exists i :: 0 <= i < |rs| && Stray(rs[i]) && FrameOf(rs[i].start) == f
  }

  lemma InsertedFrames(rs: seq<Region>, heap: Option<Region>, f: nat)
    requires Bounded(rs) && Disjoint(rs) && HeapOf(rs, heap)
    ensures f in InsertedAll(rs, heap) <==> (TouchedByAny(rs, f) && !HeapFrame(heap, f)) || StrayFrame(rs, f)
  {
    hide Inserted, FrameOf, HeapRegion;
    InsertedByAll(rs, heap, f);
    forall i | 0 <= i < |rs|
      ensures f in Inserted(rs[i], heap) <==>
                (Touches(rs[i], f) && !HeapFrame(heap, f)) || (Stray(rs[i]) && FrameOf(rs[i].start) == f)
    {
      if Empty(rs[i]) {
        EmptyRegionInserts(rs, heap, rs[i]);
      } else {
        InsertedByRegion(rs, i, heap, f);
      }
    }
  }

  /** For disjoint regions the seeding is right exactly when every stray region starts in a
      frame that some region touches and that is not part of the heap. */
  lemma SeedingExact(rs: seq<Region>, heap: Option<Region>)
    requires Bounded(rs) && Disjoint(rs) && HeapOf(rs, heap)
    ensures InsertedPlusHeapIsTouched(rs, heap) <==>
              forall i :: 0 <= i < |rs| && Stray(rs[i]) ==> TouchedByAny(rs, FrameOf(rs[i].start))
    ensures HeapStaysOut(rs, heap) <==>
              forall i :: 0 <= i < |rs| && Stray(rs[i]) ==> !HeapFrame(heap, FrameOf(rs[i].start))
  {
    hide InsertedAll, Inserted, FrameOf, HeapRegion, HeapFrame, TouchedByAny, Stray;
    forall f: nat
      ensures f in InsertedAll(rs, heap) <==> (TouchedByAny(rs, f) && !HeapFrame(heap, f)) || StrayFrame(rs, f)
      ensures HeapFrame(heap, f) ==> TouchedByAny(rs, f)
    {
      InsertedFrames(rs, heap, f);
      if HeapFrame(heap, f) {
        HeapFrameTouched(rs, heap, f);
      }
    }
    forall i | 0 <= i < |rs| && Stray(rs[i])
      ensures StrayFrame(rs, FrameOf(rs[i].start))
    {
    }
  }

  /** For disjoint regions that are not empty the seeding is right. */
  lemma NonEmptySeeding(rs: seq<Region>, heap: Option<Region>)
    requires forall i :: 0 <= i < |rs| ==> rs[i].start < rs[i].end
    requires Disjoint(rs) && HeapOf(rs, heap)
    ensures InsertedPlusHeapIsTouched(rs, heap) && HeapStaysOut(rs, heap)
  {
    hide InsertedPlusHeapIsTouched, HeapStaysOut, HeapRegion;
    SeedingExact(rs, heap);
  }

  /** An empty and an inverted region that insert a frame no region touches, and an empty one
      that hands out a frame of the heap. */
  lemma StrayRegionsBreakSeeding()
    ensures !InsertedPlusHeapIsTouched([Region(0x1_0064, 0x1_0064)], None)
    ensures !InsertedPlusHeapIsTouched([Region(0x1_00C8, 0x1_0064)], None)
    ensures var rs := [Region(0, HEAP_SIZE), Region(0x64, 0x64)];
            Disjoint(rs) && HeapRegion(rs).Some? && !HeapStaysOut(rs, HeapRegion(rs))
  {
    hide InsertedPlusHeapIsTouched, HeapStaysOut;
    var empty, inverted := [Region(0x1_0064, 0x1_0064)], [Region(0x1_00C8, 0x1_0064)];
    SeedingExact(empty, None);
    SeedingExact(inverted, None);
    assert Stray(empty[0]) && !TouchedByAny(empty, FrameOf(empty[0].start));
    assert Stray(inverted[0]) && !TouchedByAny(inverted, FrameOf(inverted[0].start));
    var rs := [Region(0, HEAP_SIZE), Region(0x64, 0x64)];
    assert HeapIn(rs[0]) == Some(Region(0, HEAP_SIZE));
    SeedingExact(rs, HeapRegion(rs));
    assert Stray(rs[1]) && HeapFrame(HeapRegion(rs), FrameOf(rs[1].start));
  }

  lemma BoundaryFrames(at: nat)
    requires at > 0
    ensures FrameOf(at - 1) + 1 == if at % PAGE == 0 then FrameOf(at) else FrameOf(at) + 1
  {
    if PAGE == 0x1000 {
    } else {
    }
  }
}
