/**
  The table of regions of the real-storage allocator (kernel/real.cxx): creation on a free slot and
  the loops of alloc, free and get_stats over the public regions.
 */
module RealStorageTable {
  import opened Wrappers
  import opened StorageLayout
  import opened StorageSafety
  import opened RealStorage
  import opened StorageRuns

  const MAX_PMM_REGIONS: nat := 8

  function FreeBytes(v: seq<Extent>): nat {
    if v == [] then 0 else (if v[0].used then 0 else v[0].size) + FreeBytes(v[1..])
  }

  function UsedBytes(v: seq<Extent>): nat {
    if v == [] then 0 else (if v[0].used then v[0].size else 0) + UsedBytes(v[1..])
  }

  lemma {:induction false} FreePlusUsed(v: seq<Extent>)
    ensures FreeBytes(v) + UsedBytes(v) == Total(v)
  {
    if v != [] {
      FreePlusUsed(v[1..]);
    }
  }

  lemma {:induction false} BytesNext(v: seq<Extent>, k: nat)
    requires k < |v|
    ensures FreeBytes(v[..k+1]) == FreeBytes(v[..k]) + (if v[k].used then 0 else v[k].size)
    ensures UsedBytes(v[..k+1]) == UsedBytes(v[..k]) + (if v[k].used then v[k].size else 0)
    decreases k
  {
    if k > 0 {
      BytesNext(v[1..], k - 1);
      assert v[..k+1][1..] == v[1..][..k] && v[..k][1..] == v[1..][..k-1];
    }
  }

  lemma BytesOfOne(e: Extent)
    ensures UsedBytes([e]) == (if e.used then e.size else 0) && FreeBytes([e]) == (if e.used then 0 else e.size)
  {
    assert [e][1..] == [];
  }

  lemma {:induction false} UsedConcat(a: seq<Extent>, b: seq<Extent>)
    ensures UsedBytes(a + b) == UsedBytes(a) + UsedBytes(b)
  {
    if a == [] {
      assert a + b == b;
    } else {
      assert (a + b)[1..] == a[1..] + b;
      UsedConcat(a[1..], b);
    }
  }

  lemma UsedAround(v: seq<Extent>, i: nat)
    requires i < |v|
    ensures UsedBytes(v) == UsedBytes(v[..i]) + (if v[i].used then v[i].size else 0) + UsedBytes(v[i+1..])
  {
    assert v == v[..i] + ([v[i]] + v[i+1..]);
    UsedConcat(v[..i], [v[i]] + v[i+1..]);
    UsedConcat([v[i]], v[i+1..]);
    BytesOfOne(v[i]);
  }

  lemma UsedOfShifted(v: seq<Extent>, i: nat, grown: bool)
    requires 2 <= |v| && 0 < i < |v| && v[0].used && (grown && i != 1 ==> GROWTH <= v[1].size && !v[1].used)
    ensures UsedBytes(Shifted(v, i, grown)[..i]) == UsedBytes(v[..i]) + if grown then 768 else 0
    ensures |Shifted(v, i, grown)| == |v| && Shifted(v, i, grown)[i+1..] == v[i+1..]
  {
    if grown {
      var w := Shifted(v, i, grown);
      assert w[..i][1..] == w[1..i] && v[..i][1..] == v[1..i];
      if i > 1 {
        assert w[1..i][1..] == v[1..i][1..];
      }
    }
  }

  lemma UsedOfCarve(w: seq<Extent>, i: nat, keep: bool, left: nat, size: nat, right: nat)
    requires i < |w|
    ensures UsedBytes(Carve(w, i, keep, left, size, right)) == UsedBytes(w[..i]) + size + UsedBytes(w[i+1..])
  {
    hide UsedBytes;
    var l := if keep then [Extent(left, false)] else [];
    var u := [Extent(size, true)];
    var r := if right == 0 then [] else [Extent(right, false)];
    BytesOfOne(Extent(left, false));
    BytesOfOne(Extent(size, true));
    BytesOfOne(Extent(right, false));
    NothingUsed();
    UsedConcat(w[..i], l);
    UsedConcat(w[..i] + l, u);
    UsedConcat(w[..i] + l + u, r);
    UsedConcat(w[..i] + l + u + r, w[i+1..]);
  }

  lemma NothingUsed()
    ensures UsedBytes([]) == 0
  {
  }

  /** A safe allocation moves the bytes of the object from the free to the used ones, and the 768 bytes by which the
      table grew when it had to. */
  lemma AllocMovesBytes(v: seq<Extent>, i: nat, left: nat, size: nat)
    requires CanPlace(v, i, left, size) && v[0].used
    ensures var moved := size + if Grown(v, i, left, size) then 768 else 0;
            && UsedBytes(Placed(v, i, left, size)) == UsedBytes(v) + moved
            && FreeBytes(Placed(v, i, left, size)) == FreeBytes(v) - moved
  {
    hide UsedBytes, FreeBytes, Carve, Shifted, Total;
    var grown := Grown(v, i, left, size);
    UsedOfShifted(v, i, grown);
    UsedOfCarve(Shifted(v, i, grown), i, left != 0, if grown && i == 1 then left - GROWTH else left, size,
                v[i].size - left - size);
    UsedAround(v, i);
    PlacedTotal(v, i, left, size);
    FreePlusUsed(v);
    FreePlusUsed(Placed(v, i, left, size));
  }

  class Table {
    const regions: seq<Region>

    constructor ()
      ensures Valid() && fresh(regions)
      ensures forall i :: 0 <= i < |regions| ==> !regions[i].isPublic
    {
      var rs: seq<Region> := [];
      while |rs| < MAX_PMM_REGIONS
        invariant |rs| <= MAX_PMM_REGIONS && fresh(rs)
        invariant forall i :: 0 <= i < |rs| ==> !rs[i].isPublic
        invariant forall i, j :: 0 <= i < j < |rs| ==> rs[i] != rs[j]
      {
        var r := new Region();
        rs := rs + [r];
      }
      regions := rs;
    }

    ghost predicate Valid()
      reads this, regions
    {
      && |regions| == MAX_PMM_REGIONS
      && (forall i, j :: 0 <= i < j < |regions| ==> regions[i] != regions[j])
      && forall i :: 0 <= i < |regions| && regions[i].isPublic ==> regions[i].Valid()
    }

    ghost predicate AllLinked()
      reads this, regions
    {
      forall i :: 0 <= i < |regions| && regions[i].isPublic ==> Linked(regions[i].heap, regions[i].chain)
    }

    /** The states of the regions, slot by slot. */
    ghost function States(): (rs: Regions)
      reads this, regions
      requires AllLinked()
      ensures |rs| == |regions|
      ensures forall i :: 0 <= i < |regions| ==> rs[i].Some? == regions[i].isPublic
      ensures forall i :: 0 <= i < |regions| && rs[i].Some? ==> rs[i].value == regions[i].State()
    {
      StatesTo(|regions|)
    }

    ghost function StatesTo(n: nat): (rs: Regions)
      reads this, regions
      requires AllLinked() && n <= |regions|
      ensures |rs| == n
      ensures forall i :: 0 <= i < n ==> rs[i].Some? == regions[i].isPublic
      ensures forall i :: 0 <= i < n && rs[i].Some? ==> rs[i].value == regions[i].State()
    {
      if n == 0 then []
      else StatesTo(n - 1) + [if regions[n-1].isPublic then Some(regions[n-1].State()) else None]
    }

    /** region::create: the first slot not in use; None when the kernel would panic. */
    method Create(base: nat, size: nat) returns (r: Option<nat>)
      requires Valid() && base + size < WORD
      modifies regions
      ensures AllLinked()
      ensures var rs := old(States());
              var at := EmptySlot(rs, 0);
              && r == (if at < |rs| then Some(at) else None)
              && States() == if at < |rs| then rs[at := Some(Storage(base, size, CreateView(size), map[]))] else rs
      ensures Valid() <==> r.None? || 8192 <= size
    {
      ghost var was := States();
      var i := 0;
      while i < |regions|
        invariant i <= |regions|
        invariant forall j :: 0 <= j < |regions| ==> unchanged(regions[j])
        invariant forall j :: 0 <= j < i ==> was[j].Some?
      {
        if !regions[i].isPublic {
          EmptySlotIs(was, i);
          regions[i].Create(base, size);
          return Some(i);
        }
        i := i + 1;
      }
      EmptySlotIs(was, i);
      return None;
    }

    /** alloc: the first public region with a block that passes the test serves the request. The ghost
        result is its index. A call that is allowed does what it does on the states of the regions. */
    method Alloc(length: nat, align: nat) returns (r: AllocResult, ghost at: nat)
      requires Valid() && 0 < length
      modifies regions
      ensures AllLinked()
      ensures at <= |regions| && (r.NullPointer? <==> at == |regions|)
      ensures forall j :: 0 <= j < at ==> Refuses(old(States()), j, length, align)
      ensures forall j :: 0 <= j < |regions| && j != at ==> unchanged(regions[j])
      ensures at == |regions| ==> Valid() && States() == old(States())
      ensures at < |regions| ==>
                && old(States())[at].Some? && Inv(old(States())[at].value) && States()[at].Some?
                && AllocDid(old(States())[at].value, length, align, r, States()[at].value)
                && (AllocSafe(old(States())[at].value, length, align) ==> Valid())
      ensures old(CanRun(States(), Allocs(length, align))) ==>
                Valid() && !r.Faulted? && States() == CallOn(old(States()), Allocs(length, align))
    {
      ghost var was := States();
      hide AllocSafe, Serves, Inv, AllocDid, StorageLayout.Alloc, CallOn, CanRun, StatesTo;
      hide LinkAt, Distinct, Visits, ViewOf;
      var i := 0;
      while i < |regions|
        invariant i <= |regions|
        invariant Valid() && States() == was
        invariant forall j :: 0 <= j < |regions| ==> unchanged(regions[j])
        invariant forall j :: 0 <= j < i ==> Refuses(was, j, length, align)
      {
        if regions[i].isPublic {
          r := AllocIn(i, length, align);
          if !r.NullPointer? {
            at := i;
            AllocOnTable(was, length, align, i, r, States()[i].value);
            return;
          }
        }
        i := i + 1;
      }
      r, at := NullPointer, i;
      NothingOnTable(was, length, align);
    }

    /** alloc on the region in slot i. */
    method AllocIn(i: nat, length: nat, align: nat) returns (r: AllocResult)
      requires Valid() && 0 < length && i < |regions| && regions[i].isPublic
      modifies regions[i]
      ensures AllLinked() && States()[i].Some? && States() == old(States())[i := States()[i]]
      ensures r.NullPointer? ==> Valid() && States() == old(States()) && unchanged(regions[i])
      ensures r.NullPointer? ==> Refuses(old(States()), i, length, align)
      ensures old(States())[i].Some? && Inv(old(States())[i].value)
      ensures AllocDid(old(States())[i].value, length, align, r, States()[i].value)
      ensures AllocSafe(old(States())[i].value, length, align) ==> Valid()
    {
      hide AllocSafe, StatesTo, LinkAt, Distinct, Visits, ViewOf, StorageLayout.Alloc;
      r := regions[i].Alloc(length, align);
    }

    /** free on the region in slot i. */
    method FreeIn(i: nat, ptr: nat) returns (found: bool)
      requires Valid() && i < |regions| && regions[i].isPublic
      modifies regions[i]
      ensures AllLinked() && old(States())[i].Some? && old(States())[i].value.view != []
      ensures found == HoldsByte(old(States())[i].value, ptr)
      ensures States() == old(States())[i := Some(AfterFree(old(States())[i].value, ptr))]
      ensures Valid() <==> !HitsTable(old(States())[i].value, ptr)
      ensures !found ==> Valid() && States() == old(States()) && unchanged(regions[i])
    {
      hide Total, Merge, Locate, StatesTo, LinkAt, Distinct, Visits, ViewOf;
      found := regions[i].Free(ptr);
    }

    /** free: the first public region with a block that holds ptr frees that block. */
    method Free(ptr: nat) returns (ghost at: nat)
      requires Valid()
      modifies regions
      ensures AllLinked() && at == Holder(old(States()), ptr, 0)
      ensures forall j :: 0 <= j < |regions| && j != at ==> unchanged(regions[j])
      ensures at == |regions| ==> Valid() && States() == old(States())
      ensures at < |regions| ==>
                && States() == old(States())[at := Some(AfterFree(old(States())[at].value, ptr))]
                && old(States())[at].value.view != []
                && (Valid() <==> !HitsTable(old(States())[at].value, ptr))
      ensures old(CanRun(States(), Frees(ptr))) ==>
                Valid() && States() == CallOn(old(States()), Frees(ptr))
    {
      hide Total, Merge, Locate, Holder, HoldsByte, Inv, CallOn, CanRun, StatesTo, LinkAt, Distinct, Visits, ViewOf;
      ghost var was := States();
      var i := 0;
      while i < |regions|
        invariant i <= |regions|
        invariant Valid() && States() == was
        invariant forall j :: 0 <= j < |regions| ==> unchanged(regions[j])
        invariant forall j :: 0 <= j < i && was[j].Some? ==> !HoldsByte(was[j].value, ptr)
      {
        if regions[i].isPublic {
          var found := FreeIn(i, ptr);
          if found {
            at := i;
            HolderIs(was, ptr, i);
            FreeOnTable(was, ptr);
            return;
          }
        }
        i := i + 1;
      }
      at := i;
      HolderIs(was, ptr, i);
      FreeOnTable(was, ptr);
    }

    ghost function Publics(i: nat): nat
      reads regions
      requires i <= |regions|
    {
      if i == 0 then 0 else Publics(i - 1) + (if regions[i-1].isPublic then 1 else 0)
    }

    /** Free bytes, used bytes and size of the public ones among the first i regions. */
    ghost function Bytes(i: nat): (nat, nat, nat)
      reads this, regions
      requires i <= |regions| && Valid()
    {
      if i == 0 then (0, 0, 0)
      else
        var (f, u, s) := Bytes(i - 1);
        if !regions[i-1].isPublic then (f, u, s)
        else (f + FreeBytes(regions[i-1].View()), u + UsedBytes(regions[i-1].View()), s + regions[i-1].size)
    }

    /** The table has eight slots. */
    lemma EightRegions()
      requires Valid()
      ensures |regions| == 8
    {
    }

    /** get_stats: the bytes of the free and of the used blocks; together they are all the public regions. */
    method GetStats() returns (freeSize: nat, usedSize: nat, nRegions: nat)
      requires Valid()
      ensures nRegions == Publics(|regions|)
      ensures freeSize == Bytes(|regions|).0 && usedSize == Bytes(|regions|).1
      ensures freeSize + usedSize == Bytes(|regions|).2
    {
      freeSize, usedSize, nRegions := 0, 0, 0;
      var i := 0;
      while i < |regions|
        invariant i <= |regions|
        invariant nRegions == Publics(i)
        invariant freeSize == Bytes(i).0 && usedSize == Bytes(i).1 && freeSize + usedSize == Bytes(i).2
      {
        if regions[i].isPublic {
          var f, u := RegionStats(regions[i]);
          FreePlusUsed(regions[i].View());
          freeSize, usedSize, nRegions := freeSize + f, usedSize + u, nRegions + 1;
        }
        i := i + 1;
      }
    }
  }

  /** The slot takes no part in the calls, or its region has nothing for this one. */
  ghost predicate Refuses(rs: Regions, i: nat, size: nat, align: nat)
    requires i < |rs|
  {
    rs[i].Some? ==> Inv(rs[i].value) && !Serves(rs[i].value, size, align)
  }

  lemma AllocOnTable(rs: Regions, size: nat, align: nat, at: nat, r: AllocResult, t: Storage)
    requires at < |rs| && rs[at].Some? && Inv(rs[at].value) && !r.NullPointer?
    requires AllocDid(rs[at].value, size, align, r, t)
    requires forall j :: 0 <= j < at ==> Refuses(rs, j, size, align)
    ensures CanRun(rs, Allocs(size, align)) ==>
              AllocSafe(rs[at].value, size, align) && !r.Faulted?
              && CallOn(rs, Allocs(size, align)) == rs[at := Some(t)]
  {
    hide Inv, Serves, AllocSafe, AfterAlloc, AllocDid;
    if CanRun(rs, Allocs(size, align)) {
      RefusalsServeNot(rs, at, size, align);
      DidServe(rs[at].value, size, align, r, t);
      ServerIs(rs, size, align, at);
      InvShape(rs[at].value);
      SafeAllocKeeps(rs[at].value, size, align);
      AfterAllocDid(rs[at].value, size, align, r, t);
    }
  }

  lemma FreeOnTable(rs: Regions, ptr: nat)
    ensures CanRun(rs, Frees(ptr)) ==>
              var at := Holder(rs, ptr, 0);
              if at == |rs| then CallOn(rs, Frees(ptr)) == rs
              else
                && !HitsTable(rs[at].value, ptr)
                && CallOn(rs, Frees(ptr)) == rs[at := Some(AfterFree(rs[at].value, ptr))]
  {
    hide HoldsByte, AfterFree;
  }

  lemma RefusalsServeNot(rs: Regions, at: nat, size: nat, align: nat)
    requires RegionsInv(rs) && at <= |rs| && forall j :: 0 <= j < at ==> Refuses(rs, j, size, align)
    ensures forall j :: 0 <= j < at && rs[j].Some? ==> !Serves(rs[j].value, size, align)
  {
    hide Serves;
    forall j | 0 <= j < at && rs[j].Some?
      ensures !Serves(rs[j].value, size, align)
    {
      assert Refuses(rs, j, size, align);
    }
  }

  lemma DidServe(s: Storage, size: nat, align: nat, r: AllocResult, t: Storage)
    requires Inv(s) && AllocDid(s, size, align, r, t) && !r.NullPointer?
    ensures Serves(s, size, align)
  {
  }

  lemma AfterAllocDid(s: Storage, size: nat, align: nat, r: AllocResult, t: Storage)
    requires 2 <= |s.view| && s.view[0].used && AllocDid(s, size, align, r, t)
    ensures AfterAlloc(s, size, align) == if r.Faulted? then None else Some(t)
  {
    hide StorageLayout.Alloc;
  }

  lemma NothingOnTable(rs: Regions, size: nat, align: nat)
    requires forall j :: 0 <= j < |rs| ==> Refuses(rs, j, size, align)
    ensures CanRun(rs, Allocs(size, align)) ==> CallOn(rs, Allocs(size, align)) == rs
  {
    hide Inv, Serves, AllocSafe;
    if CanRun(rs, Allocs(size, align)) {
      RefusalsServeNot(rs, |rs|, size, align);
      ServerIs(rs, size, align, |rs|);
    }
  }

  method RegionStats(r: Region) returns (freeSize: nat, usedSize: nat)
    requires r.Valid()
    ensures freeSize == FreeBytes(r.View()) && usedSize == UsedBytes(r.View())
  {
    freeSize, usedSize := 0, 0;
    var block := Some(0);
    ghost var k := 0;
    ghost var v := r.View();
    while block.Some?
      invariant k <= |r.chain| && v == r.View()
      invariant block == if k < |r.chain| then Some(r.chain[k]) else None
      invariant freeSize == FreeBytes(v[..k]) && usedSize == UsedBytes(v[..k])
      decreases |r.chain| - k
    {
      ViewAt(r.heap, r.chain, k);
      BytesNext(v, k);
      var b := r.heap[block.value];
      if b.flags.FreeBlock? {
        freeSize := freeSize + b.size;
      } else if b.flags.UsedBlock? {
        usedSize := usedSize + b.size;
      }
      block, k := b.next, k + 1;
    }
    assert v[..k] == v;
  }
}
