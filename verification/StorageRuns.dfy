/**
  The allocator on the table of regions (kernel/real.cxx), each slot empty or a region in some state:
  what every run of region::create, alloc and free over several regions keeps.
 */
module StorageRuns {
  import opened Wrappers
  import opened StorageLayout
  import opened StorageSafety

  type Regions = seq<Option<Storage>>

  predicate Apart(a: Storage, b: Storage) {
    a.base + a.size <= b.base || b.base + b.size <= a.base
  }

  /** Every region keeps its invariant, and no two overlap. */
  ghost predicate RegionsInv(rs: Regions) {
    && (forall i :: 0 <= i < |rs| && rs[i].Some? ==> Inv(rs[i].value))
    && (forall i, j :: 0 <= i < j < |rs| && rs[i].Some? && rs[j].Some? ==> Apart(rs[i].value, rs[j].value))
  }

  predicate Serves(s: Storage, size: nat, align: nat)
    requires 2 <= |s.view| && s.view[0].used
  {
    !Alloc(s.base, s.size, s.view, size, align).Null?
  }

  /** The first region from i on with a block for the request; |rs| when there is none. */
  ghost function Server(rs: Regions, size: nat, align: nat, i: nat): (r: nat)
    requires RegionsInv(rs) && i <= |rs|
    ensures i <= r <= |rs|
    ensures r < |rs| ==> rs[r].Some? && Serves(rs[r].value, size, align)
    ensures forall j :: i <= j < r && rs[j].Some? ==> !Serves(rs[j].value, size, align)
    decreases |rs| - i
  {
    if i == |rs| then i
    else if rs[i].Some? && Serves(rs[i].value, size, align) then i
    else Server(rs, size, align, i + 1)
  }

  /** The first region from i on that holds the byte; |rs| when there is none. */
  function Holder(rs: Regions, ptr: nat, i: nat): (r: nat)
    requires i <= |rs|
    ensures i <= r <= |rs|
    ensures r < |rs| ==> rs[r].Some? && HoldsByte(rs[r].value, ptr)
    ensures forall j :: i <= j < r && rs[j].Some? ==> !HoldsByte(rs[j].value, ptr)
    decreases |rs| - i
  {
    if i == |rs| then i
    else if rs[i].Some? && HoldsByte(rs[i].value, ptr) then i
    else Holder(rs, ptr, i + 1)
  }

  /** The first empty slot from i on. */
  function EmptySlot(rs: Regions, i: nat): (r: nat)
    requires i <= |rs|
    ensures i <= r <= |rs|
    ensures r < |rs| ==> rs[r].None?
    ensures forall j :: i <= j < r ==> rs[j].Some?
    decreases |rs| - i
  {
    if i == |rs| || rs[i].None? then i else EmptySlot(rs, i + 1)
  }

  lemma ServerIs(rs: Regions, size: nat, align: nat, at: nat)
    requires RegionsInv(rs) && at <= |rs|
    requires at < |rs| ==> rs[at].Some? && Serves(rs[at].value, size, align)
    requires forall j :: 0 <= j < at && rs[j].Some? ==> !Serves(rs[j].value, size, align)
    ensures Server(rs, size, align, 0) == at
  {
  }

  lemma HolderIs(rs: Regions, ptr: nat, at: nat)
    requires at <= |rs|
    requires at < |rs| ==> rs[at].Some? && HoldsByte(rs[at].value, ptr)
    requires forall j :: 0 <= j < at && rs[j].Some? ==> !HoldsByte(rs[j].value, ptr)
    ensures Holder(rs, ptr, 0) == at
  {
  }

  lemma EmptySlotIs(rs: Regions, at: nat)
    requires at <= |rs| && (at < |rs| ==> rs[at].None?)
    requires forall j :: 0 <= j < at ==> rs[j].Some?
    ensures EmptySlot(rs, 0) == at
  {
  }

  // ----- Calls

  datatype TableCall =
    | Creates(base: nat, size: nat)
    | Allocs(size: nat, align: nat)
    | Frees(ptr: nat)

  /** What a caller would have to check: a new region lies apart from the others and is not too small, an
      alloc is safe in the region that serves it, and a free does not hit a table. */
  ghost predicate CallAllowed(rs: Regions, c: TableCall)
    requires RegionsInv(rs)
  {
    match c
    case Creates(base, size) =>
      && base + size < WORD && 8192 <= size && EmptySlot(rs, 0) < |rs|
      && forall i :: 0 <= i < |rs| && rs[i].Some? ==> Apart(rs[i].value, Storage(base, size, [], map[]))
    case Allocs(size, align) =>
      var at := Server(rs, size, align, 0);
      0 < size && (at < |rs| ==> AllocSafe(rs[at].value, size, align))
    case Frees(ptr) =>
      var at := Holder(rs, ptr, 0);
      at < |rs| ==> !HitsTable(rs[at].value, ptr)
  }

  ghost predicate CanRun(rs: Regions, c: TableCall) {
    RegionsInv(rs) && CallAllowed(rs, c)
  }

  /** The state of the table after the call. */
  ghost function CallOn(rs: Regions, c: TableCall): (r: Regions)
    requires RegionsInv(rs) && CallAllowed(rs, c)
    ensures |r| == |rs|
  {
    match c
    case Creates(base, size) =>
      rs[EmptySlot(rs, 0) := Some(Storage(base, size, CreateView(size), map[]))]
    case Allocs(size, align) =>
      var at := Server(rs, size, align, 0);
      if at == |rs| then rs
      else
        SafeAllocKeeps(rs[at].value, size, align);
        rs[at := AfterAlloc(rs[at].value, size, align)]
    case Frees(ptr) =>
      var at := Holder(rs, ptr, 0);
      if at == |rs| then rs else rs[at := Some(AfterFree(rs[at].value, ptr))]
  }

  lemma OneRegionChanged(rs: Regions, at: nat, s: Storage)
    requires RegionsInv(rs) && at < |rs| && Inv(s)
    requires forall i :: 0 <= i < |rs| && i != at && rs[i].Some? ==> Apart(rs[i].value, s)
    ensures RegionsInv(rs[at := Some(s)])
  {
  }

  lemma ApartFromOthers(rs: Regions, at: nat, s: Storage)
    requires RegionsInv(rs) && at < |rs| && rs[at].Some?
    requires s.base == rs[at].value.base && s.size == rs[at].value.size
    ensures forall i :: 0 <= i < |rs| && i != at && rs[i].Some? ==> Apart(rs[i].value, s)
  {
  }

  lemma AfterAllocPlace(s: Storage, size: nat, align: nat)
    requires 2 <= |s.view| && s.view[0].used && AfterAlloc(s, size, align).Some?
    ensures AfterAlloc(s, size, align).value.base == s.base && AfterAlloc(s, size, align).value.size == s.size
  {
  }

  lemma CallKeepsInvariant(rs: Regions, c: TableCall)
    requires RegionsInv(rs) && CallAllowed(rs, c)
    ensures RegionsInv(CallOn(rs, c))
  {
    hide Inv, AllocSafe, AfterAlloc, AfterFree, HoldsByte, Serves;
    match c
    case Creates(base, size) =>
      CreateWellFormedExactly(base, size);
      OneRegionChanged(rs, EmptySlot(rs, 0), Storage(base, size, CreateView(size), map[]));
    case Allocs(size, align) =>
      var at := Server(rs, size, align, 0);
      if at < |rs| {
        SafeAllocKeeps(rs[at].value, size, align);
        InvShape(rs[at].value);
        AfterAllocPlace(rs[at].value, size, align);
        var t := AfterAlloc(rs[at].value, size, align).value;
        ApartFromOthers(rs, at, t);
        OneRegionChanged(rs, at, t);
      }
    case Frees(ptr) =>
      var at := Holder(rs, ptr, 0);
      if at < |rs| {
        InvShape(rs[at].value);
        FreeKeepsExactly(rs[at].value, ptr);
        AfterFreePlace(rs[at].value, ptr);
        var t := AfterFree(rs[at].value, ptr);
        ApartFromOthers(rs, at, t);
        OneRegionChanged(rs, at, t);
      }
  }

  lemma InvShape(s: Storage)
    requires Inv(s)
    ensures 2 <= |s.view| && s.view[0].used && WellFormed(s.view, s.size)
  {
  }

  lemma AfterFreePlace(s: Storage, ptr: nat)
    ensures AfterFree(s, ptr).base == s.base && AfterFree(s, ptr).size == s.size
  {
  }

  // ----- Runs

  ghost predicate RunAllowed(rs: Regions, cs: seq<TableCall>)
    requires RegionsInv(rs)
    decreases |cs|
  {
    cs == [] || (CallAllowed(rs, cs[0])
                 && (CallKeepsInvariant(rs, cs[0]); RunAllowed(CallOn(rs, cs[0]), cs[1..])))
  }

  ghost function RunOn(rs: Regions, cs: seq<TableCall>): (r: Regions)
    requires RegionsInv(rs) && RunAllowed(rs, cs)
    ensures RegionsInv(r) && |r| == |rs|
    decreases |cs|
  {
    if cs == [] then rs
    else
      CallKeepsInvariant(rs, cs[0]);
      RunOn(CallOn(rs, cs[0]), cs[1..])
  }

  predicate LiveIn(rs: Regions, i: nat, p: nat) {
    i < |rs| && rs[i].Some? && p in rs[i].value.live
  }

  /** Over every run from an empty table, whatever regions it creates: two live allocations never overlap,
      be they in one region or in two. */
  lemma RunLiveApart(n: nat, cs: seq<TableCall>, i: nat, p: nat, j: nat, q: nat)
    requires RegionsInv(NoRegions(n)) && RunAllowed(NoRegions(n), cs)
    requires var rs := RunOn(NoRegions(n), cs); LiveIn(rs, i, p) && LiveIn(rs, j, q) && (i != j || p != q)
    ensures var rs := RunOn(NoRegions(n), cs);
            p + rs[i].value.live[p] <= q || q + rs[j].value.live[q] <= p
  {
    LiveAcrossApart(RunOn(NoRegions(n), cs), i, p, j, q);
  }

  function NoRegions(n: nat): (rs: Regions)
    ensures |rs| == n && forall i :: 0 <= i < n ==> rs[i].None?
  {
    seq(n, _ => None)
  }

  lemma LiveAcrossApart(rs: Regions, i: nat, p: nat, j: nat, q: nat)
    requires RegionsInv(rs) && LiveIn(rs, i, p) && LiveIn(rs, j, q) && (i != j || p != q)
    ensures p + rs[i].value.live[p] <= q || q + rs[j].value.live[q] <= p
  {
    LiveAllocationsApart(rs[i].value, p, if i == j then q else p);
    LiveAllocationsApart(rs[j].value, q, q);
    if i < j {
      assert Apart(rs[i].value, rs[j].value);
    } else if j < i {
      assert Apart(rs[j].value, rs[i].value);
    }
  }

  /** The call frees the block of region i that the allocation at p lives in. */
  ghost predicate FreesIn(rs: Regions, c: TableCall, i: nat, p: nat)
    requires LiveIn(rs, i, p)
  {
    c.Frees? && Holder(rs, c.ptr, 0) == i && FreesBlockOf(rs[i].value, CallFree(c.ptr), p)
  }

  lemma CallKeepsLive(rs: Regions, c: TableCall, i: nat, p: nat)
    requires RegionsInv(rs) && CallAllowed(rs, c) && LiveIn(rs, i, p) && !FreesIn(rs, c, i, p)
    ensures LiveIn(CallOn(rs, c), i, p) && CallOn(rs, c)[i].value.live[p] == rs[i].value.live[p]
  {
    hide AllocSafe, AfterAlloc, AfterFree, HoldsByte, Serves, FreesBlockOf;
    match c
    case Creates(_, _) =>
    case Allocs(size, align) =>
      if Server(rs, size, align, 0) == i {
        SafeAllocKeeps(rs[i].value, size, align);
        AllocKeepsLive(rs[i].value, size, align, p);
      }
    case Frees(ptr) =>
      if Holder(rs, ptr, 0) == i {
        FreeKeepsOtherLive(rs[i].value, ptr, p);
      }
  }

  lemma FreeKeepsOtherLive(s: Storage, ptr: nat, p: nat)
    requires p in s.live && !FreesBlockOf(s, CallFree(ptr), p)
    ensures p in AfterFree(s, ptr).live && AfterFree(s, ptr).live[p] == s.live[p]
  {
    hide Locate, Free, Start;
  }

  ghost predicate RunNeverFrees(rs: Regions, cs: seq<TableCall>, i: nat, p: nat)
    requires RegionsInv(rs) && RunAllowed(rs, cs) && LiveIn(rs, i, p)
    decreases |cs|
  {
    cs == [] ||
    (!FreesIn(rs, cs[0], i, p)
     && (CallKeepsInvariant(rs, cs[0]); CallKeepsLive(rs, cs[0], i, p);
         RunNeverFrees(CallOn(rs, cs[0]), cs[1..], i, p)))
  }

  /** Over every run on the whole table a live allocation stays where it is, in its region and with its
      requested size, until its own block is freed. */
  lemma {:induction false} RunKeepsLive(rs: Regions, cs: seq<TableCall>, i: nat, p: nat)
    requires RegionsInv(rs) && RunAllowed(rs, cs) && LiveIn(rs, i, p) && RunNeverFrees(rs, cs, i, p)
    ensures var r := RunOn(rs, cs);
            LiveIn(r, i, p) && r[i].value.live[p] == rs[i].value.live[p]
            && Served(r[i].value, p, rs[i].value.live[p])
    decreases |cs|
  {
    if cs == [] {
      assert Inv(rs[i].value);
    } else {
      CallKeepsInvariant(rs, cs[0]);
      CallKeepsLive(rs, cs[0], i, p);
      RunKeepsLive(CallOn(rs, cs[0]), cs[1..], i, p);
    }
  }
}
