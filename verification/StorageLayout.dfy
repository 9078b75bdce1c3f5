/**
  What the real-storage allocator (kernel/real.cxx) does to the chain of blocks of one region, as
  functions on the sequence of extents the chain describes. The class in RealStorage.dfy walks and
  rewrites the descriptors themselves and is proved against these functions.

  Extent 0 is the descriptor table and extent 1 is the block of descriptor heap[1], the one that
  pays for growing the table.
 */
module StorageLayout {
  import opened Wrappers
  import opened NatArithmetic

  /** Modulus of size_t and uintptr_t. */
  const WORD: nat := 0x1_0000_0000_0000_0000
  /** Size of a descriptor: flags, size and next on a 64-bit target. */
  const BLOCK_SIZE: nat := 24
  /** Bytes moved from heap[1] to the table when it is full: room for 32 descriptors. */
  const GROWTH: nat := 768

  datatype Extent = Extent(size: nat, used: bool)

  function Total(v: seq<Extent>): nat {
    if v == [] then 0 else v[0].size + Total(v[1..])
  }

  /** Offset of extent i from the start of the region. */
  function Start(v: seq<Extent>, i: nat): nat
    requires i <= |v|
  {
    Total(v[..i])
  }

  lemma {:induction false} TotalConcat(a: seq<Extent>, b: seq<Extent>)
    ensures Total(a + b) == Total(a) + Total(b)
  {
    if a == [] {
      assert a + b == b;
    } else {
      assert (a + b)[1..] == a[1..] + b;
      TotalConcat(a[1..], b);
    }
  }

  lemma TotalUpdate(v: seq<Extent>, i: nat, e: Extent)
    requires i < |v|
    ensures Total(v[i := e]) == Total(v) - v[i].size + e.size
  {
    assert v == v[..i] + ([v[i]] + v[i+1..]);
    assert v[i := e] == v[..i] + ([e] + v[i+1..]);
    TotalConcat(v[..i], [v[i]] + v[i+1..]);
    TotalConcat(v[..i], [e] + v[i+1..]);
  }

  /** Replacing extent j by the extents of mid. */
  lemma TotalSplice(v: seq<Extent>, j: nat, mid: seq<Extent>)
    requires j < |v|
    ensures Total(v[..j] + mid + v[j+1..]) == Total(v) - v[j].size + Total(mid)
  {
    TotalConcat(v[..j] + mid, v[j+1..]);
    TotalConcat(v[..j], mid);
    TotalConcat(v[..j] + [v[j]], v[j+1..]);
    TotalConcat(v[..j], [v[j]]);
    assert v == v[..j] + [v[j]] + v[j+1..];
  }

  lemma StartNext(v: seq<Extent>, i: nat)
    requires i < |v|
    ensures Start(v, i + 1) == Start(v, i) + v[i].size
  {
    assert v[..i+1] == v[..i] + [v[i]];
    TotalConcat(v[..i], [v[i]]);
  }

  lemma StartOfFirst(v: seq<Extent>)
    ensures Start(v, 0) == 0
  {
  }

  lemma StartMonotone(v: seq<Extent>, i: nat, j: nat)
    requires i <= j <= |v|
    ensures Start(v, i) <= Start(v, j) <= Total(v)
  {
    assert v[..j] == v[..i] + v[i..j];
    TotalConcat(v[..i], v[i..j]);
    assert v == v[..j] + v[j..];
    TotalConcat(v[..j], v[j..]);
  }

  lemma StartBehind(a: seq<Extent>, t: seq<Extent>, j: nat)
    requires j <= |t|
    ensures Start(a + t, |a| + j) == Total(a) + Start(t, j)
  {
    assert (a + t)[..|a| + j] == a + t[..j];
    TotalConcat(a, t[..j]);
  }

  lemma TotalOfPair(a: Extent, b: Extent)
    ensures Total([a, b]) == a.size + b.size
  {
    assert [a, b] == [a] + [b];
    TotalConcat([a], [b]);
  }

  // ----- The invariant

  ghost predicate NoAdjacentFree(v: seq<Extent>) {
    forall k :: 0 <= k < |v| - 1 ==> v[k].used || v[k+1].used
  }

  /** The table holds every descriptor of the chain, the extents tile the region, only heap[1] may be
      empty, and two neighbours are never both free. */
  ghost predicate WellFormed(v: seq<Extent>, size: nat) {
    && 2 <= |v|
    && v[0].used
    && v[0].size % BLOCK_SIZE == 0
    && |v| * BLOCK_SIZE <= v[0].size
    && (forall k :: 0 <= k < |v| && k != 1 ==> v[k].size > 0)
    && Total(v) == size
    && NoAdjacentFree(v)
  }

  /** A region together with the allocations handed out and not freed yet: address to requested size. */
  datatype Storage = Storage(base: nat, size: nat, view: seq<Extent>, live: map<nat, nat>)

  /** The allocation of n bytes at p is served by the used extent k. */
  ghost predicate ServedBy(s: Storage, p: nat, n: nat, k: nat) {
    1 <= k < |s.view| && s.view[k].used && s.base + Start(s.view, k) == p && 0 < n <= s.view[k].size
  }

  ghost predicate Served(s: Storage, p: nat, n: nat) {
    exists k: nat :: ServedBy(s, p, n, k)
  }

  ghost predicate Inv(s: Storage) {
    && s.base + s.size < WORD
    && WellFormed(s.view, s.size)
    && forall p :: p in s.live ==> Served(s, p, s.live[p])
  }

  // ----- Creating a region

  /** A new region: the table and one free block. The subtraction is size_t arithmetic. */
  function CreateView(size: nat): seq<Extent> {
    var table := (size / 8192 + 1) * BLOCK_SIZE;
    [Extent(table, true), Extent((size - table) % WORD, false)]
  }

  /** With less than 8192 bytes the table has room for heap[0] only, so heap[1] lies outside it. */
  lemma CreateWellFormedExactly(base: nat, size: nat)
    requires base + size < WORD
    ensures Inv(Storage(base, size, CreateView(size), map[])) <==> 8192 <= size
  {
    var v := CreateView(size);
    assert Total(v) == v[0].size + v[1].size by { TotalConcat([v[0]], [v[1]]); }
  }

  /** The table has a descriptor of 24 bytes for every 8192 bytes of the region and one more, and the rest of the
      region is free. */
  lemma CreatedInNumbers(k: nat, rest: nat)
    requires rest < 8192 && 24 * k + 24 <= 8192 * k + rest < 0x1_0000_0000_0000_0000
    ensures CreateView(8192 * k + rest)
         == [Extent(24 * k + 24, true), Extent(8192 * k + rest - (24 * k + 24), false)]
  {
    assert (8192 * k + rest) / 8192 == k;
  }

  // ----- Choosing a block

  /** The test of alloc: the block is not used and seems large enough for an aligned object. */
  predicate Fits(cp: nat, e: Extent, size: nat, align: nat) {
    && !e.used
    && !((align != 0 && e.size < (size + cp % align) % WORD) || e.size < size)
  }

  /** Without an alignment the test is exact. */
  lemma FitsUnaligned(cp: nat, e: Extent, size: nat)
    ensures Fits(cp, e, size, 0) <==> !e.used && size <= e.size
  {
  }

  /** The first extent from i on that passes the test; |v| when there is none. */
  function FirstFit(base: nat, v: seq<Extent>, size: nat, align: nat, i: nat): (r: nat)
    requires i <= |v|
    ensures i <= r <= |v|
    ensures r < |v| ==> Fits(base + Start(v, r), v[r], size, align)
    ensures forall k :: i <= k < r ==> !Fits(base + Start(v, k), v[k], size, align)
    decreases |v| - i
  {
    if i == |v| then i
    else if Fits(base + Start(v, i), v[i], size, align) then i
    else FirstFit(base, v, size, align, i + 1)
  }

  function AlignDown(a: nat, align: nat): nat {
    if align == 0 then a else a - a % align
  }

  /** Bytes left in front of the object, in size_t arithmetic. */
  function LeftSize(cp: nat, bs: nat, size: nat, align: nat): nat
    requires size <= bs
  {
    (AlignDown(cp + bs - size, align) - cp) % WORD
  }

  /** An object that has no place at an aligned address behind the start of its block wraps the left size around at
      2 to the 64, and so does the slack of a very large one. */
  lemma LeftSizeInNumbers(cp: nat, bs: nat, size: nat, align: nat)
    requires size <= bs && cp + bs < 0x1_0000_0000_0000_0000
    ensures var a := if align == 0 then cp + bs - size else cp + bs - size - (cp + bs - size) % align;
            LeftSize(cp, bs, size, align) == if a >= cp then a - cp else 0x1_0000_0000_0000_0000 - (cp - a)
    ensures Fits(1, Extent(0xffff_ffff_ffff_ffff, false), 0xffff_ffff_ffff_ffff, 2)
    ensures !Fits(1, Extent(0xffff_ffff_ffff_fffe, false), 0xffff_ffff_ffff_fffe, 2)
  {
    var x := cp + bs - size;
    var a := if align == 0 then x else x - x % align;
    if align != 0 {
      DivMod(x, align);
    }
    assert AlignDown(x, align) == a;
  }

  /** The block has room for the object at an aligned address. */
  ghost predicate HasSlot(cp: nat, bs: nat, size: nat, align: nat) {
    exists q :: cp <= q && q + size <= cp + bs && AlignedTo(q, align)
  }

  ghost predicate AlignedTo(q: nat, align: nat) {
    align == 0 || q % align == 0
  }

  lemma AlignDownIsHighest(a: nat, align: nat, q: nat)
    requires q <= a && AlignedTo(q, align)
    ensures q <= AlignDown(a, align)
  {
    if align != 0 {
      DivMod(a, align);
      DivMod(q, align);
      MultipleOrder(q / align, a / align, align, a % align);
    }
  }

  lemma AlignDownAligned(a: nat, align: nat)
    ensures AlignDown(a, align) <= a
    ensures AlignedTo(AlignDown(a, align), align)
    ensures align != 0 ==> a - AlignDown(a, align) < align
  {
    if align != 0 {
      DivMod(a, align);
      assert (align * (a / align)) % align == 0 by { MultipleMod(align, a / align); }
    }
  }

  lemma HasSlotExactly(cp: nat, bs: nat, size: nat, align: nat)
    requires size <= bs
    ensures HasSlot(cp, bs, size, align) <==> cp <= AlignDown(cp + bs - size, align)
  {
    var a := cp + bs - size;
    AlignDownAligned(a, align);
    if HasSlot(cp, bs, size, align) {
      var q :| cp <= q && q + size <= cp + bs && AlignedTo(q, align);
      AlignDownIsHighest(a, align, q);
    }
    if cp <= AlignDown(a, align) {
      assert AlignDown(a, align) + size <= cp + bs;
    }
  }

  /** The slack an aligned object really needs: the distance from cp to the next multiple of align. */
  function Slack(cp: nat, align: nat): nat
    requires align != 0
  {
    if cp % align == 0 then 0 else align - cp % align
  }

  lemma SlotSlack(cp: nat, bs: nat, size: nat, align: nat)
    requires size <= bs && align != 0
    ensures HasSlot(cp, bs, size, align) <==> size + Slack(cp, align) <= bs
  {
    var q := cp + Slack(cp, align);
    DivMod(cp, align);
    assert q % align == 0 by {
      var k := if cp % align == 0 then cp / align else cp / align + 1;
      assert align * (cp / align + 1) == align * (cp / align) + align;
      assert q == align * k;
      MultipleMod(align, k);
    }
    if HasSlot(cp, bs, size, align) {
      var p :| cp <= p && p + size <= cp + bs && AlignedTo(p, align);
      if p < q {
        SlotBelow(cp, p, align);
      }
    }
    if q + size <= cp + bs {
      assert AlignedTo(q, align);
    }
  }

  /** No multiple of align lies strictly between cp and the next one. */
  lemma SlotBelow(cp: nat, p: nat, align: nat)
    requires align != 0 && cp % align != 0 && cp <= p && p % align == 0
    ensures cp + (align - cp % align) <= p
  {
    DivMod(cp, align);
    DivMod(p, align);
    if p / align < cp / align {
      MultipleMonotone(align, p / align, cp / align);
    } else if cp / align < p / align {
      MultipleMonotone(align, cp / align, p / align);
    }
  }

  /** The test of alloc asks for a slack of cp % align instead. */
  lemma FitsSlack(cp: nat, bs: nat, size: nat, align: nat)
    requires size <= bs && align != 0 && size + cp % align < WORD
    ensures Fits(cp, Extent(bs, false), size, align) <==> size + cp % align <= bs
  {}

  ghost predicate TestIsSound(cp: nat, align: nat)
    requires align != 0
  {
    forall bs: nat, size: nat ::
      0 < size <= bs && size + cp % align < WORD && Fits(cp, Extent(bs, false), size, align)
      ==> HasSlot(cp, bs, size, align)
  }

  ghost predicate TestIsComplete(cp: nat, align: nat)
    requires align != 0
  {
    forall bs: nat, size: nat ::
      0 < size <= bs && size + cp % align < WORD && HasSlot(cp, bs, size, align)
      ==> Fits(cp, Extent(bs, false), size, align)
  }

  /** The test accepts only blocks with an aligned slot exactly when cp is aligned or in the upper
      half of its alignment unit ... */
  lemma FitTestSoundExactly(cp: nat, align: nat)
    requires 0 < align < WORD
    ensures TestIsSound(cp, align) <==> (cp % align == 0 || align <= 2 * (cp % align))
  {
    var m := cp % align;
    if Slack(cp, align) <= m {
      forall bs: nat, size: nat | 0 < size <= bs && size + m < WORD && Fits(cp, Extent(bs, false), size, align)
        ensures HasSlot(cp, bs, size, align)
      {
        FitsSlack(cp, bs, size, align);
        SlotSlack(cp, bs, size, align);
      }
    } else {
      FitsSlack(cp, 1 + m, 1, align);
      SlotSlack(cp, 1 + m, 1, align);
      assert !TestIsSound(cp, align);
    }
  }

  /** ... and it accepts every block with an aligned slot exactly when cp is aligned or in the lower half. */
  lemma FitTestCompleteExactly(cp: nat, align: nat)
    requires 0 < align < WORD
    ensures TestIsComplete(cp, align) <==> (cp % align == 0 || 2 * (cp % align) <= align)
  {
    var m := cp % align;
    var slack := Slack(cp, align);
    if m <= slack || m == 0 {
      forall bs: nat, size: nat | 0 < size <= bs && size + m < WORD && HasSlot(cp, bs, size, align)
        ensures Fits(cp, Extent(bs, false), size, align)
      {
        FitsSlack(cp, bs, size, align);
        SlotSlack(cp, bs, size, align);
      }
    } else {
      FitsSlack(cp, 1 + slack, 1, align);
      SlotSlack(cp, 1 + slack, 1, align);
      assert !TestIsComplete(cp, align);
    }
  }

  // ----- Allocating

  /** Fault: the code follows a null pointer. Null: alloc returns nullptr. */
  datatype AllocOutcome = Fault | Null | Done(view: seq<Extent>, ptr: nat)

  /** Growing the table moves bytes from heap[1] to heap[0]. */
  function Grow(v: seq<Extent>): seq<Extent>
    requires 2 <= |v| && GROWTH <= v[1].size
  {
    v[0 := Extent(v[0].size + GROWTH, v[0].used)][1 := Extent(v[1].size - GROWTH, v[1].used)]
  }

  predicate CanGrow(v: seq<Extent>)
    requires 2 <= |v|
  {
    !v[1].used && GROWTH <= v[1].size
  }

  /** The extents after block::create found a descriptor; None when it returned nullptr. */
  function Claim(v: seq<Extent>): (r: Option<seq<Extent>>)
    requires 2 <= |v|
    ensures r.Some? ==> |r.value| == |v|
    ensures r.Some? ==> forall k :: 2 <= k < |v| ==> r.value[k] == v[k]
  {
    if |v| < v[0].size / BLOCK_SIZE then Some(v)
    else if CanGrow(v) then Some(Grow(v))
    else None
  }

  /** A descriptor is found when the table has room for one more of 24 bytes, or when heap[1] is not used and can give
      the 768 bytes of 32 descriptors away. */
  lemma ClaimInNumbers(v: seq<Extent>)
    requires 2 <= |v|
    ensures Claim(v) == if 24 * (|v| + 1) <= v[0].size then Some(v)
                        else if !v[1].used && 768 <= v[1].size then
                          Some([Extent(v[0].size + 768, v[0].used), Extent(v[1].size - 768, false)] + v[2..])
                        else None
  {
    if CanGrow(v) {
      assert Grow(v) == [Extent(v[0].size + 768, v[0].used), Extent(v[1].size - 768, false)] + v[2..];
    }
  }

  /** The left split: block i keeps the first left bytes, a new used block takes the rest. */
  function SplitLeft(v: seq<Extent>, i: nat, left: nat): Option<seq<Extent>>
    requires 2 <= |v| && 0 < i < |v|
  {
    var w := v[i := Extent(left, false)];
    match Claim(w)
    case None => None
    case Some(u) => Some(u[..i+1] + [Extent((v[i].size - left) % WORD, true)] + u[i+1..])
  }

  /** The right split of block j down to size bytes. When no descriptor is left, the code stores
      nullptr as the successor and so drops the rest of the chain. */
  function SplitRight(v: seq<Extent>, j: nat, size: nat): seq<Extent>
    requires 2 <= |v| && 0 < j < |v|
  {
    var right := (v[j].size - size) % WORD;
    if right == 0 then v[j := Extent(v[j].size, true)]
    else match Claim(v)
      case None => v[..j] + [Extent((v[j].size - right) % WORD, true)]
      case Some(u) => u[..j] + [Extent((u[j].size - right) % WORD, true), Extent(right, false)] + u[j+1..]
  }

  /** Serving size bytes from block i, which starts at cp, behind left bytes that stay free. */
  function PlaceAt(cp: nat, v: seq<Extent>, i: nat, left: nat, size: nat): AllocOutcome
    requires 2 <= |v| && 0 < i < |v|
  {
    if left == 0 then Done(SplitRight(v, i, size), cp)
    else match SplitLeft(v, i, left)
      case None => Fault
      case Some(w) => Done(SplitRight(w, i + 1, size), (cp + left) % WORD)
  }

  function Place(base: nat, v: seq<Extent>, i: nat, size: nat, align: nat): AllocOutcome
    requires 2 <= |v| && 0 < i < |v| && size <= v[i].size
  {
    var cp := base + Start(v, i);
    PlaceAt(cp, v, i, LeftSize(cp, v[i].size, size, align), size)
  }

  /** alloc on one public region. */
  function Alloc(base: nat, regionSize: nat, v: seq<Extent>, size: nat, align: nat): AllocOutcome
    requires 2 <= |v| && v[0].used
  {
    if size > regionSize then Null
    else
      var i := FirstFit(base, v, size, align, 0);
      if i == |v| then Null else Place(base, v, i, size, align)
  }

  // ----- Freeing

  /** The extent that holds the byte at offset off; |v| when there is none. */
  function Locate(v: seq<Extent>, off: nat, i: nat): (r: nat)
    requires i <= |v|
    ensures i <= r <= |v|
    ensures r < |v| ==> Start(v, r) <= off < Start(v, r) + v[r].size
    ensures forall k :: i <= k < r ==> !(Start(v, k) <= off < Start(v, k) + v[k].size)
    decreases |v| - i
  {
    if i == |v| then i
    else if Start(v, i) <= off < Start(v, i) + v[i].size then i
    else Locate(v, off, i + 1)
  }

  /** The forward loop of block::merge. After each merge it steps to the next block whatever the
      state of that block, so a used block can take over a free one behind it. */
  function Absorb(s: seq<Extent>): seq<Extent>
    requires s != []
  {
    if |s| == 1 || s[1].used then s
    else [Extent(s[0].size + s[1].size, s[0].used)] + (if |s| == 2 then [] else Absorb(s[2..]))
  }

  /** The backward step of block::merge on the freed block i: the extents and the index it goes on from. */
  function MergeBack(v: seq<Extent>, i: nat): (seq<Extent>, nat)
    requires i < |v|
  {
    if i > 0 && !v[i-1].used
    then (v[..i-1] + [Extent(v[i-1].size + v[i].size, false)] + v[i+1..], i - 1)
    else (v, i)
  }

  /** block::merge on block i, looking for free neighbours. */
  function Merge(v: seq<Extent>, i: nat): seq<Extent>
    requires i < |v|
  {
    var (m, b) := MergeBack(v, i);
    m[..b] + Absorb(m[b..])
  }

  /** free of the byte at offset off of one region. */
  function Free(v: seq<Extent>, off: nat): seq<Extent> {
    var i := Locate(v, off, 0);
    if i == |v| then v else Merge(v[i := Extent(v[i].size, false)], i)
  }
}
