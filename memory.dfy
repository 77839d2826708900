/**
 * Address-space bookkeeping: mapping areas that own one frame per mapped
 * page, and the memory space that maps, unmaps and resizes them. The page
 * table is a map from virtual page number to entry; the frame allocator hands
 * out frame numbers it has never handed out before.
 */
module Memory {
  import opened Wrappers

  datatype MapType = Identity | Framed | Direct | Linear

  datatype AreaType = UserElf | UserStackGuardBase | UserStack | UserStackGuardTop | UserBrk | Kernel

  datatype PteFlag = Valid | Readable | Writable | Executable | User

  type PteFlags = set<PteFlag>

  datatype Pte = Pte(ppn: nat, flags: PteFlags)

  /** The pages `start` (inclusive) to `end` (exclusive). */
  datatype VpnRange = VpnRange(start: nat, end: nat) {
    predicate WellFormed() { start <= end }
    predicate Contains(vpn: nat) { start <= vpn < end }
  }

  /** What a predicate over mapping areas may look at. */
  datatype AreaInfo = AreaInfo(range: VpnRange, areaType: AreaType, mapType: MapType, permissions: PteFlags)

  /** The physical frame allocator, as a source of frame numbers never handed out before. */
  class FrameAllocator {
    var used: set<nat>
    var next: nat

    ghost predicate Valid()
      reads this
    {
      forall p :: p in used ==> p < next
    }

    constructor ()
      ensures Valid() && used == {}
    {
      used, next := {}, 0;
    }

    method Alloc() returns (ppn: nat)
      requires Valid()
      modifies this
      ensures Valid()
      ensures ppn !in old(used) && used == old(used) + {ppn}
    {
      ppn := next;
      used := used + {ppn};
      next := next + 1;
    }
  }

  class PageTable {
    var entries: map<nat, Pte>

    constructor ()
      ensures entries == map[]
    {
      entries := map[];
    }

    method MapSingle(vpn: nat, ppn: nat, flags: PteFlags)
      modifies this
      ensures entries == old(entries)[vpn := Pte(ppn, flags)]
    {
      entries := entries[vpn := Pte(ppn, flags)];
    }

    method UnmapSingle(vpn: nat)
      modifies this
      ensures entries == old(entries) - {vpn}
    {
      entries := entries - {vpn};
    }
  }

  /** A contiguous range of pages with one type and one set of permissions. */
  class MappingArea {
    var range: VpnRange
    const areaType: AreaType
    const mapType: MapType
    /** The frame owned for each mapped page. */
    var allocatedFrames: map<nat, nat>
    const permissions: PteFlags

    constructor (range: VpnRange, areaType: AreaType, mapType: MapType, permissions: PteFlags)
      ensures this.range == range && this.areaType == areaType && this.mapType == mapType
      ensures this.permissions == permissions && allocatedFrames == map[]
    {
      this.range := range;
      this.areaType := areaType;
      this.mapType := mapType;
      this.permissions := permissions;
      allocatedFrames := map[];
    }

    /** A copy of `them`'s layout that owns no frames yet. */
    constructor CloneFrom(them: MappingArea)
      ensures range == them.range && areaType == them.areaType && mapType == them.mapType
      ensures permissions == them.permissions && allocatedFrames == map[]
    {
      range := them.range;
      areaType := them.areaType;
      mapType := them.mapType;
      permissions := them.permissions;
      allocatedFrames := map[];
    }

    function Info(): AreaInfo
      reads this
    {
      AreaInfo(range, areaType, mapType, permissions)
    }

    function Contains(vpn: nat): (r: bool)
      reads this
      ensures r <==> range.start <= vpn < range.end
    {
      range.Contains(vpn)
    }

    function HasOwnershipOf(vpn: nat): (r: bool)
      reads this
      ensures r <==> vpn in allocatedFrames.Keys
    {
      vpn in allocatedFrames
    }

    /**
     * Maps one page to a freshly allocated frame with the area's permissions
     * and takes ownership of the frame.
     */
    method ApplyMappingSingle(vpn: nat, pt: PageTable, alloc: FrameAllocator)
      requires alloc.Valid()
      modifies this, pt, alloc
      ensures alloc.Valid() && range == old(range)
      ensures vpn in allocatedFrames
      ensures allocatedFrames == old(allocatedFrames)[vpn := allocatedFrames[vpn]]
      ensures allocatedFrames[vpn] !in old(alloc.used) && alloc.used == old(alloc.used) + {allocatedFrames[vpn]}
      ensures pt.entries == old(pt.entries)[vpn := Pte(allocatedFrames[vpn], permissions)]
    {
      var frame := alloc.Alloc();
      pt.MapSingle(vpn, frame, permissions);
      allocatedFrames := allocatedFrames[vpn := frame];
    }

    /** Maps every page of the range, each to its own fresh frame. */
    method ApplyMapping(pt: PageTable, alloc: FrameAllocator)
      requires alloc.Valid() && range.WellFormed()
      modifies this, pt, alloc
      ensures alloc.Valid() && range == old(range) && old(alloc.used) <= alloc.used
      ensures forall v :: v in allocatedFrames <==> v in old(allocatedFrames) || range.Contains(v)
      ensures forall v :: v in pt.entries <==> v in old(pt.entries) || range.Contains(v)
      ensures forall v :: range.Contains(v) ==>
        pt.entries[v] == Pte(allocatedFrames[v], permissions) && allocatedFrames[v] !in old(alloc.used)
      ensures forall v :: v in old(allocatedFrames) && !range.Contains(v) ==> allocatedFrames[v] == old(allocatedFrames)[v]
      ensures forall v :: v in old(pt.entries) && !range.Contains(v) ==> pt.entries[v] == old(pt.entries)[v]
    {
      MapPages(range.start, range.end, pt, alloc);
    }

    /** Maps the pages `from` to `to` one by one, as the mapping loops over a page range do. */
    method MapPages(from: nat, to: nat, pt: PageTable, alloc: FrameAllocator)
      requires alloc.Valid() && from <= to
      modifies this, pt, alloc
      ensures alloc.Valid() && range == old(range) && old(alloc.used) <= alloc.used
      ensures forall v :: v in allocatedFrames <==> v in old(allocatedFrames) || from <= v < to
      ensures forall v :: v in pt.entries <==> v in old(pt.entries) || from <= v < to
      ensures forall v :: from <= v < to ==>
        pt.entries[v] == Pte(allocatedFrames[v], permissions) && allocatedFrames[v] !in old(alloc.used)
      ensures forall v :: v in old(allocatedFrames) && !(from <= v < to) ==> allocatedFrames[v] == old(allocatedFrames)[v]
      ensures forall v :: v in old(pt.entries) && !(from <= v < to) ==> pt.entries[v] == old(pt.entries)[v]
    {
      for vpn := from to to
        invariant alloc.Valid() && range == old(range) && old(alloc.used) <= alloc.used
        invariant forall v :: v in allocatedFrames <==> v in old(allocatedFrames) || from <= v < vpn
        invariant forall v :: v in pt.entries <==> v in old(pt.entries) || from <= v < vpn
        invariant forall v :: from <= v < vpn ==>
          pt.entries[v] == Pte(allocatedFrames[v], permissions) && allocatedFrames[v] !in old(alloc.used)
        invariant forall v :: v in old(allocatedFrames) && !(from <= v < vpn) ==> allocatedFrames[v] == old(allocatedFrames)[v]
        invariant forall v :: v in old(pt.entries) && !(from <= v < vpn) ==> pt.entries[v] == old(pt.entries)[v]
      {
        ApplyMappingSingle(vpn, pt, alloc);
      }
    }

    /** Unmaps one page and gives up the frame it owned. */
    method RevokeMappingSingle(vpn: nat, pt: PageTable)
      modifies this, pt
      ensures range == old(range)
      ensures allocatedFrames == old(allocatedFrames) - {vpn}
      ensures pt.entries == old(pt.entries) - {vpn}
    {
      pt.UnmapSingle(vpn);
      allocatedFrames := allocatedFrames - {vpn};
    }

    /** Unmaps every page of the range; afterwards the area owns none of them. */
    method RevokeMapping(pt: PageTable)
      requires range.WellFormed()
      modifies this, pt
      ensures range == old(range)
      ensures allocatedFrames == old(allocatedFrames) - RangeSet(range)
      ensures forall v :: range.Contains(v) ==> !HasOwnershipOf(v)
      ensures pt.entries == old(pt.entries) - RangeSet(range)
    {
      UnmapPages(range.start, range.end, pt);
    }

    /** Unmaps the pages `from` to `to` one by one. */
    method UnmapPages(from: nat, to: nat, pt: PageTable)
      requires from <= to
      modifies this, pt
      ensures range == old(range)
      ensures allocatedFrames == old(allocatedFrames) - RangeSet(VpnRange(from, to))
      ensures pt.entries == old(pt.entries) - RangeSet(VpnRange(from, to))
    {
      for vpn := from to to
        invariant range == old(range)
        invariant allocatedFrames == old(allocatedFrames) - RangeSet(VpnRange(from, vpn))
        invariant pt.entries == old(pt.entries) - RangeSet(VpnRange(from, vpn))
      {
        RevokeMappingSingle(vpn, pt);
        RangeSetExtend(from, vpn);
      }
    }
  }

  /** The set of pages in a range. */
  function RangeSet(r: VpnRange): (s: set<nat>)
    ensures forall v :: v in s <==> r.Contains(v)
    decreases r.end - r.start
  {
    if r.start >= r.end then {} else {r.start} + RangeSet(VpnRange(r.start + 1, r.end))
  }

  lemma {:induction false} RangeSetExtend(from: nat, to: nat)
    requires from <= to
    ensures RangeSet(VpnRange(from, to + 1)) == RangeSet(VpnRange(from, to)) + {to}
  {
  }

  /**
   * The index of the first element satisfying `p`, as `Iterator::position`
   * finds it.
   */
  function Position(s: seq<AreaInfo>, p: AreaInfo -> bool): (r: Option<nat>)
    ensures r.Some? ==> r.value < |s| && p(s[r.value]) && forall j :: 0 <= j < r.value ==> !p(s[j])
    ensures r.None? ==> forall j :: 0 <= j < |s| ==> !p(s[j])
  {
    if s == [] then None
    else if p(s[0]) then Some(0)
    else match Position(s[1..], p)
      case None => None
      case Some(k) => Some(k + 1)
  }

  /** The first match is at `k` when `k` matches and nothing before it does. */
  lemma PositionSome(s: seq<AreaInfo>, p: AreaInfo -> bool, k: nat)
    requires k < |s| && p(s[k]) && forall j :: 0 <= j < k ==> !p(s[j])
    ensures Position(s, p) == Some(k)
  {
  }

  /** Nothing matches when no element does. */
  lemma PositionNone(s: seq<AreaInfo>, p: AreaInfo -> bool)
    requires forall j :: 0 <= j < |s| ==> !p(s[j])
    ensures Position(s, p) == None
  {
  }

  /** The elements of `s` that do not satisfy `p`, in order. */
  function Reject(s: seq<AreaInfo>, p: AreaInfo -> bool): (r: seq<AreaInfo>)
    ensures |r| <= |s|
  {
    if s == [] then []
    else if p(s[0]) then Reject(s[1..], p)
    else [s[0]] + Reject(s[1..], p)
  }

  /** Removing the first match of `p` does not change which elements are kept. */
  lemma {:induction false} RejectSkipsFirstMatch(s: seq<AreaInfo>, p: AreaInfo -> bool, k: nat)
    requires k < |s| && p(s[k]) && forall j :: 0 <= j < k ==> !p(s[j])
    ensures Reject(s[..k] + s[k + 1..], p) == Reject(s, p)
  {
    if k > 0 {
      RejectSkipsFirstMatch(s[1..], p, k - 1);
      assert s[..k] + s[k + 1..] == [s[0]] + (s[1..][..k - 1] + s[1..][k..]);
    } else {
      assert s[..k] + s[k + 1..] == s[1..];
    }
  }

  /** With no match at all, every element is kept. */
  lemma {:induction false} RejectNoMatch(s: seq<AreaInfo>, p: AreaInfo -> bool)
    requires forall j :: 0 <= j < |s| ==> !p(s[j])
    ensures Reject(s, p) == s
  {
    if s != [] {
      RejectNoMatch(s[1..], p);
    }
  }

  /** The pages of every element of `s` that satisfies `p`: what removing all of them unmaps. */
  function RemovedPages(s: seq<AreaInfo>, p: AreaInfo -> bool): (r: set<nat>)
    ensures forall v :: v in r <==> exists i :: 0 <= i < |s| && p(s[i]) && s[i].range.Contains(v)
  {
    if s == [] then {}
    else if p(s[0]) then RangeSet(s[0].range) + RemovedPages(s[1..], p)
    else RemovedPages(s[1..], p)
  }

  /** Removing the first match of `p` takes its pages out of those still to be removed. */
  lemma {:induction false} RemovedPagesSkipsFirstMatch(s: seq<AreaInfo>, p: AreaInfo -> bool, k: nat)
    requires k < |s| && p(s[k]) && forall j :: 0 <= j < k ==> !p(s[j])
    ensures RemovedPages(s, p) == RangeSet(s[k].range) + RemovedPages(s[..k] + s[k + 1..], p)
  {
    if k > 0 {
      RemovedPagesSkipsFirstMatch(s[1..], p, k - 1);
      assert s[..k] + s[k + 1..] == [s[0]] + (s[1..][..k - 1] + s[1..][k..]);
    } else {
      assert s[..k] + s[k + 1..] == s[1..];
    }
  }

  /** The predicate that picks the areas starting at page `vpn`. */
  function StartsAt(vpn: nat): AreaInfo -> bool
  {
    (info: AreaInfo) => info.range.start == vpn
  }

  datatype BrkError = NewEndBelowStart | NewEndAboveEnd

  /** The "not set" marker the empty space stores for the brk index and start. */
  const USIZE_MAX: nat := 0xFFFF_FFFF_FFFF_FFFF

  /** An address space: its page table and its mapping areas, one of them the heap (brk) area. */
  class MemorySpace {
    const pageTable: PageTable
    var areas: seq<MappingArea>
    var brkAreaIdx: nat
    var brkStart: nat

    ghost predicate Valid()
      reads this, areas
    {
      && (forall i, j :: 0 <= i < j < |areas| ==> areas[i] != areas[j])
      && (forall i :: 0 <= i < |areas| ==> areas[i].range.WellFormed())
    }

    /** The areas as values, in order. */
    ghost function Infos(): (s: seq<AreaInfo>)
      reads this, areas
      ensures |s| == |areas|
    {
      seq(|areas|, i reads this, areas requires 0 <= i < |areas| => areas[i].Info())
    }

    /** A space with no areas, whose brk area index and start are not yet set. */
    constructor Empty()
      ensures Valid() && fresh(pageTable) && areas == [] && pageTable.entries == map[]
      ensures brkAreaIdx == USIZE_MAX && brkStart == USIZE_MAX
    {
      pageTable := new PageTable();
      areas := [];
      brkAreaIdx := USIZE_MAX;
      brkStart := USIZE_MAX;
    }

    /** The page range of the heap area. */
    function BrkPageRange(): (r: VpnRange)
      requires brkAreaIdx < |areas|
      reads this, areas[brkAreaIdx]
      ensures r == areas[brkAreaIdx].range
    {
      areas[brkAreaIdx].range
    }

    /**
     * Grows the brk area to end at page `newEnd`, mapping each added page to
     * a fresh frame. An end below the area's start is refused; the current
     * end is accepted as it is.
     */
    method IncreaseBrk(newEnd: nat, alloc: FrameAllocator) returns (r: Result<(), BrkError>)
      requires Valid() && alloc.Valid() && brkAreaIdx < |areas|
      requires !(areas[brkAreaIdx].range.start <= newEnd < areas[brkAreaIdx].range.end)
      modifies areas[brkAreaIdx], pageTable, alloc
      ensures Valid() && alloc.Valid()
      ensures var brk := areas[brkAreaIdx];
        if newEnd < old(brk.range.start) then
          r == Err(NewEndBelowStart) && brk.range == old(brk.range)
          && brk.allocatedFrames == old(brk.allocatedFrames) && pageTable.entries == old(pageTable.entries)
        else
          && r == Ok(())
          && brk.range == VpnRange(old(brk.range.start), newEnd)
          && (forall v :: v in brk.allocatedFrames <==> v in old(brk.allocatedFrames) || old(brk.range.end) <= v < newEnd)
          && (forall v :: v in pageTable.entries <==> v in old(pageTable.entries) || old(brk.range.end) <= v < newEnd)
          && (forall v :: old(brk.range.end) <= v < newEnd ==>
                pageTable.entries[v] == Pte(brk.allocatedFrames[v], brk.permissions)
                && brk.allocatedFrames[v] !in old(alloc.used))
          && (forall v :: v in old(brk.allocatedFrames) && !(old(brk.range.end) <= v < newEnd) ==>
                brk.allocatedFrames[v] == old(brk.allocatedFrames)[v])
          && (forall v :: v in old(pageTable.entries) && !(old(brk.range.end) <= v < newEnd) ==>
                pageTable.entries[v] == old(pageTable.entries)[v])
    {
      var brk := areas[brkAreaIdx];
      if newEnd < brk.range.start {
        return Err(NewEndBelowStart);
      }
      var oldEnd := brk.range.end;
      if newEnd == oldEnd {
        return Ok(());
      }
      brk.MapPages(oldEnd, newEnd, pageTable, alloc);
      brk.range := VpnRange(brk.range.start, newEnd);
      return Ok(());
    }

    /**
     * Shrinks the brk area to end at page `newEnd`, unmapping the pages past
     * it. An end past the current end or below the start is refused.
     */
    method ShrinkBrk(newEnd: nat) returns (r: Result<(), BrkError>)
      requires Valid() && brkAreaIdx < |areas|
      modifies areas[brkAreaIdx], pageTable
      ensures Valid()
      ensures var brk := areas[brkAreaIdx];
        if newEnd > old(brk.range.end) || newEnd < old(brk.range.start) then
          && r == Err(if newEnd > old(brk.range.end) then NewEndAboveEnd else NewEndBelowStart)
          && brk.range == old(brk.range)
          && brk.allocatedFrames == old(brk.allocatedFrames) && pageTable.entries == old(pageTable.entries)
        else
          && r == Ok(())
          && brk.range == VpnRange(old(brk.range.start), newEnd)
          && brk.allocatedFrames == old(brk.allocatedFrames) - RangeSet(VpnRange(newEnd, old(brk.range.end)))
          && pageTable.entries == old(pageTable.entries) - RangeSet(VpnRange(newEnd, old(brk.range.end)))
    {
      var brk := areas[brkAreaIdx];
      if newEnd > brk.range.end {
        return Err(NewEndAboveEnd);
      }
      if newEnd < brk.range.start {
        return Err(NewEndBelowStart);
      }
      var oldEnd := brk.range.end;
      if newEnd == oldEnd {
        assert RangeSet(VpnRange(newEnd, oldEnd)) == {};
        return Ok(());
      }
      brk.UnmapPages(newEnd, oldEnd, pageTable);
      brk.range := VpnRange(brk.range.start, newEnd);
      return Ok(());
    }

    /**
     * Growing the brk area and shrinking it back restores its range and
     * leaves neither the area nor the page table with any of the added pages.
     */
    method GrowThenShrinkBrk(newEnd: nat, alloc: FrameAllocator)
      requires Valid() && alloc.Valid() && brkAreaIdx < |areas|
      requires areas[brkAreaIdx].range.end <= newEnd
      modifies areas[brkAreaIdx], pageTable, alloc
      ensures Valid()
      ensures areas[brkAreaIdx].range == old(areas[brkAreaIdx].range)
      ensures var added := RangeSet(VpnRange(old(areas[brkAreaIdx].range.end), newEnd));
        && areas[brkAreaIdx].allocatedFrames == old(areas[brkAreaIdx].allocatedFrames) - added
        && pageTable.entries == old(pageTable.entries) - added
    {
      var oldEnd := areas[brkAreaIdx].range.end;
      var grown := IncreaseBrk(newEnd, alloc);
      var shrunk := ShrinkBrk(oldEnd);
      assert shrunk == Ok(());
    }

    /** Maps every page of `area` and appends it to the areas. */
    method MapArea(area: MappingArea, alloc: FrameAllocator)
      requires Valid() && alloc.Valid() && area !in areas && area.range.WellFormed()
      modifies this, pageTable, area, alloc
      ensures Valid() && alloc.Valid() && areas == old(areas) + [area]
      ensures brkAreaIdx == old(brkAreaIdx) && brkStart == old(brkStart)
      ensures area.range == old(area.range) && old(alloc.used) <= alloc.used
      ensures forall v :: area.range.Contains(v) ==>
        && area.HasOwnershipOf(v) && area.allocatedFrames[v] !in old(alloc.used)
        && v in pageTable.entries && pageTable.entries[v] == Pte(area.allocatedFrames[v], area.permissions)
      ensures forall v :: v in area.allocatedFrames <==> v in old(area.allocatedFrames) || area.range.Contains(v)
      ensures forall v :: v in pageTable.entries <==> v in old(pageTable.entries) || area.range.Contains(v)
      ensures forall v :: v in old(pageTable.entries) && !area.range.Contains(v) ==>
        pageTable.entries[v] == old(pageTable.entries)[v]
    {
      area.ApplyMapping(pageTable, alloc);
      areas := areas + [area];
    }

    /** The index of the first area whose description satisfies `p`. */
    method AreaPosition(p: AreaInfo -> bool) returns (r: Option<nat>)
      requires Valid()
      ensures r == Position(Infos(), p)
    {
      ghost var infos := Infos();
      var i := 0;
      while i < |areas| && !p(areas[i].Info())
        invariant 0 <= i <= |areas|
        invariant forall j :: 0 <= j < i ==> !p(infos[j])
      {
        i := i + 1;
      }
      if i == |areas| {
        PositionNone(infos, p);
        return None;
      }
      assert infos[i] == areas[i].Info();
      PositionSome(infos, p, i);
      return Some(i);
    }

    /** Removes the area at index `k` from the list and unmaps all of its pages. */
    method RemoveArea(k: nat)
      requires Valid() && k < |areas|
      modifies this, pageTable, areas[k]
      ensures Valid() && brkAreaIdx == old(brkAreaIdx) && brkStart == old(brkStart)
      ensures areas == old(areas[..k]) + old(areas[k + 1..])
      ensures pageTable.entries == old(pageTable.entries) - RangeSet(old(areas[k].range))
      ensures old(areas[k]).allocatedFrames == old(areas[k].allocatedFrames) - RangeSet(old(areas[k].range))
      ensures Infos() == old(Infos())[..k] + old(Infos())[k + 1..]
    {
      ghost var infos := Infos();
      var area := areas[k];
      areas := areas[..k] + areas[k + 1..];
      assert forall a :: a in areas ==> a != area;
      area.RevokeMapping(pageTable);
      assert Infos() == infos[..k] + infos[k + 1..];
    }

    /**
     * Removes the first area whose description satisfies `p` and unmaps its
     * pages. Reports whether there was one.
     */
    method UnmapFirstAreaThat(p: AreaInfo -> bool) returns (found: bool)
      requires Valid()
      modifies this, pageTable, areas
      ensures Valid() && brkAreaIdx == old(brkAreaIdx) && brkStart == old(brkStart)
      ensures found == Position(old(Infos()), p).Some?
      ensures !found ==> areas == old(areas) && pageTable.entries == old(pageTable.entries)
      ensures found ==>
        var k := Position(old(Infos()), p).value;
        && areas == old(areas[..k]) + old(areas[k + 1..])
        && pageTable.entries == old(pageTable.entries) - RangeSet(old(areas[k].range))
        && old(areas[k]).allocatedFrames == old(areas[k].allocatedFrames) - RangeSet(old(areas[k].range))
      ensures forall a :: a in areas ==> a in old(areas) && unchanged(a)
      ensures Infos() == if found then
        var k := Position(old(Infos()), p).value; old(Infos())[..k] + old(Infos())[k + 1..]
        else old(Infos())
    {
      var index := AreaPosition(p);
      if index.None? {
        return false;
      }
      RemoveArea(index.value);
      return true;
    }

    /**
     * One round of the removal loop: removes the first match, if any. The
     * areas that survive in the end, and the pages that stay mapped in the
     * end, are the same before and after the round.
     */
    method UnmapNextMatch(p: AreaInfo -> bool) returns (more: bool)
      requires Valid()
      modifies this, pageTable, areas
      ensures Valid() && brkAreaIdx == old(brkAreaIdx) && brkStart == old(brkStart)
      ensures more == Position(old(Infos()), p).Some?
      ensures !more ==> areas == old(areas) && pageTable.entries == old(pageTable.entries)
      ensures more ==>
        var k := Position(old(Infos()), p).value;
        && areas == old(areas[..k]) + old(areas[k + 1..])
        && pageTable.entries == old(pageTable.entries) - RangeSet(old(areas[k].range))
      ensures Reject(Infos(), p) == Reject(old(Infos()), p)
      ensures pageTable.entries - RemovedPages(Infos(), p) == old(pageTable.entries) - RemovedPages(old(Infos()), p)
      ensures |areas| <= |old(areas)| && (more ==> |areas| < |old(areas)|)
      ensures !more ==> Position(Infos(), p).None?
      ensures forall a :: a in areas ==> a in old(areas) && unchanged(a)
    {
      ghost var before := Infos();
      ghost var entries := pageTable.entries;
      more := UnmapFirstAreaThat(p);
      if more {
        var k := Position(before, p).value;
        RejectSkipsFirstMatch(before, p, k);
        RemovedPagesSkipsFirstMatch(before, p, k);
        assert before[k].range == old(areas[k].range);
      }
    }

    /**
     * Removes every area whose description satisfies `p`, unmapping the
     * pages of each. Each round removes one area, so the loop ends.
     */
    method UnmapAllAreasThat(p: AreaInfo -> bool)
      requires Valid()
      modifies this, pageTable, areas
      ensures Valid() && brkAreaIdx == old(brkAreaIdx) && brkStart == old(brkStart)
      ensures forall i :: 0 <= i < |areas| ==> !p(areas[i].Info())
      ensures Infos() == Reject(old(Infos()), p)
      ensures pageTable.entries == old(pageTable.entries) - RemovedPages(old(Infos()), p)
      ensures forall a :: a in areas ==> a in old(areas) && unchanged(a)
    {
      var more := true;
      while more
        invariant Valid() && brkAreaIdx == old(brkAreaIdx) && brkStart == old(brkStart)
        invariant Reject(Infos(), p) == Reject(old(Infos()), p)
        invariant pageTable.entries - RemovedPages(Infos(), p) == old(pageTable.entries) - RemovedPages(old(Infos()), p)
        invariant !more ==> Position(Infos(), p).None?
        invariant forall a :: a in areas ==> a in old(areas) && unchanged(a)
        decreases |areas| + (if more then 1 else 0)
      {
        assert forall i :: 0 <= i < |areas| ==> areas[i] in old(areas);
        more := UnmapNextMatch(p);
      }
      RejectNoMatch(Infos(), p);
      assert RemovedPages(Infos(), p) == {};
      forall i | 0 <= i < |areas| ensures !p(areas[i].Info()) {
        assert Infos()[i] == areas[i].Info();
      }
    }

    /**
     * Removes the first area that starts at page `vpn` and unmaps its pages;
     * with no such area nothing changes.
     */
    method UnmapAreaStartsWith(vpn: nat) returns (found: bool)
      requires Valid()
      modifies this, pageTable, areas
      ensures Valid() && brkAreaIdx == old(brkAreaIdx) && brkStart == old(brkStart)
      ensures found <==> exists i :: 0 <= i < |old(areas)| && old(areas[i].range.start) == vpn
      ensures found == Position(old(Infos()), StartsAt(vpn)).Some?
      ensures !found ==> areas == old(areas) && pageTable.entries == old(pageTable.entries)
      ensures found ==>
        var k := Position(old(Infos()), StartsAt(vpn)).value;
        && k < |old(areas)| && old(areas[k].range.start) == vpn
        && (forall j :: 0 <= j < k ==> old(areas[j].range.start) != vpn)
        && areas == old(areas[..k]) + old(areas[k + 1..])
        && pageTable.entries == old(pageTable.entries) - RangeSet(old(areas[k].range))
        && old(areas[k]).allocatedFrames == old(areas[k].allocatedFrames) - RangeSet(old(areas[k].range))
      ensures forall a :: a in areas ==> a in old(areas) && unchanged(a)
    {
      ghost var infos := Infos();
      found := UnmapFirstAreaThat(StartsAt(vpn));
      if found {
        var k := Position(infos, StartsAt(vpn)).value;
        assert infos[k] == old(areas[k].Info());
        forall j | 0 <= j < k ensures old(areas[j].range.start) != vpn {
          assert infos[j] == old(areas[j].Info());
        }
      } else {
        forall i | 0 <= i < |old(areas)| ensures old(areas[i].range.start) != vpn {
          assert infos[i] == old(areas[i].Info());
        }
      }
    }
  }
}
