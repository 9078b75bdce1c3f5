/**
  The real-storage allocator (kernel/real.cxx): a table of block descriptors kept inside the region
  it manages and threaded by `next` into a chain in address order. The methods walk and rewrite the
  descriptors as the source does and are proved against the functions of StorageLayout.
 */
module RealStorage {
  import opened Sequences
  import opened Wrappers
  import opened StorageLayout
  import opened StorageSafety

  datatype Flag = NotPresent | FreeBlock | UsedBlock

  /** A descriptor; next is the index of the next descriptor in the table, None for nullptr. */
  datatype Block = Block(flags: Flag, size: nat, next: Option<nat>)

  const EMPTY := Block(NotPresent, 0, None)

  // ----- Chains

  /** Element k of the chain is a present descriptor whose next is element k + 1. */
  ghost predicate LinkAt(heap: seq<Block>, chain: seq<nat>, k: nat)
    requires k < |chain|
  {
    && chain[k] < |heap|
    && !heap[chain[k]].flags.NotPresent?
    && heap[chain[k]].next == (if k + 1 < |chain| then Some(chain[k+1]) else None)
  }

  ghost predicate Distinct(chain: seq<nat>) {
    forall k, l :: 0 <= k < l < |chain| ==> chain[k] != chain[l]
  }

  /** chain lists, in order, the descriptors reached from its first one by following next. */
  ghost predicate Linked(heap: seq<Block>, chain: seq<nat>) {
    && chain != []
    && Distinct(chain)
    && forall k: nat {:trigger LinkAt(heap, chain, k)} :: k < |chain| ==> LinkAt(heap, chain, k)
  }

  ghost predicate Visits(chain: seq<nat>, d: nat) {
    exists k :: 0 <= k < |chain| && chain[k] == d
  }

  /** A chain that visits every present descriptor, and so each one exactly once. */
  ghost predicate Chained(heap: seq<Block>, chain: seq<nat>) {
    && Linked(heap, chain)
    && forall d: nat {:trigger Visits(chain, d)} ::
         d < |heap| && !heap[d].flags.NotPresent? ==> Visits(chain, d)
  }

  /** The table starts with heap[0], which records its length, and heap[1] is second. */
  ghost predicate Tabled(heap: seq<Block>, chain: seq<nat>) {
    && Chained(heap, chain)
    && 2 <= |chain| && chain[0] == 0 && chain[1] == 1
    && 2 <= |heap|
    && heap[0].size == |heap| * BLOCK_SIZE
  }

  function ExtentOf(b: Block): Extent {
    Extent(b.size, b.flags.UsedBlock?)
  }

  /** The extents of the descriptors of a chain. */
  ghost function ViewOf(heap: seq<Block>, chain: seq<nat>): (v: seq<Extent>)
    requires Linked(heap, chain)
    ensures |v| == |chain|
  {
    seq(|chain|, k requires 0 <= k < |chain| =>
          assert LinkAt(heap, chain, k); ExtentOf(heap[chain[k]]))
  }

  lemma ViewAt(heap: seq<Block>, chain: seq<nat>, k: nat)
    requires Linked(heap, chain) && k < |chain|
    ensures chain[k] < |heap| && !heap[chain[k]].flags.NotPresent?
    ensures heap[chain[k]].next == (if k + 1 < |chain| then Some(chain[k+1]) else None)
    ensures ViewOf(heap, chain)[k] == ExtentOf(heap[chain[k]])
  {
    assert LinkAt(heap, chain, k);
  }

  predicate NextInTable(heap: seq<Block>, b: nat) {
    b < |heap| && (heap[b].next.Some? ==> heap[b].next.value < |heap|)
  }

  lemma LinkedNext(heap: seq<Block>, chain: seq<nat>, k: nat)
    requires Linked(heap, chain) && k < |chain|
    ensures NextInTable(heap, chain[k])
  {
    ViewAt(heap, chain, k);
    if k + 1 < |chain| {
      ViewAt(heap, chain, k + 1);
    }
  }

  /** Rewriting size and flags of one descriptor of the chain. */
  lemma Rewritten(heap: seq<Block>, chain: seq<nat>, k: nat, flags: Flag, size: nat)
    requires Linked(heap, chain) && k < |chain| && chain[k] < |heap| && !flags.NotPresent?
    ensures var h := heap[chain[k] := Block(flags, size, heap[chain[k]].next)];
            && Linked(h, chain)
            && ViewOf(h, chain) == ViewOf(heap, chain)[k := Extent(size, flags.UsedBlock?)]
            && (Chained(heap, chain) ==> Chained(h, chain))
  {
    var h := heap[chain[k] := Block(flags, size, heap[chain[k]].next)];
    forall l: nat | l < |chain|
      ensures LinkAt(h, chain, l)
    {
      ViewAt(heap, chain, l);
    }
    forall l: nat | l < |chain|
      ensures ViewOf(h, chain)[l] == ViewOf(heap, chain)[k := Extent(size, flags.UsedBlock?)][l]
    {
      ViewAt(heap, chain, l);
      ViewAt(h, chain, l);
    }
    if Chained(heap, chain) {
      forall d: nat | d < |h| && !h[d].flags.NotPresent?
        ensures Visits(chain, d)
      {
        if d == chain[k] {
          assert Visits(chain, d);
        }
      }
    }
  }

  /** The table after descriptor k of the chain took over its successor, whose descriptor becomes empty. */
  ghost function Taken(heap: seq<Block>, chain: seq<nat>, k: nat): seq<Block>
    requires Linked(heap, chain) && k + 1 < |chain|
  {
    ViewAt(heap, chain, k);
    ViewAt(heap, chain, k + 1);
    var b, n := chain[k], chain[k+1];
    heap[n := heap[n].(flags := NotPresent)][b := Block(heap[b].flags, heap[b].size + heap[n].size, heap[n].next)]
  }

  lemma TakenLinked(heap: seq<Block>, chain: seq<nat>, k: nat)
    requires Linked(heap, chain) && k + 1 < |chain|
    ensures Linked(Taken(heap, chain, k), Without(chain, k + 1))
  {
    var h, c := Taken(heap, chain, k), Without(chain, k + 1);
    ViewAt(heap, chain, k);
    forall l: nat | l < |c|
      ensures LinkAt(h, c, l)
    {
      var o := if l <= k then l else l + 1;
      assert c[l] == chain[o];
      ViewAt(heap, chain, o);
      ViewAt(heap, chain, k + 1);
      assert chain[o] != chain[k+1];
      assert o != k ==> chain[o] != chain[k];
    }
  }

  lemma TakenView(heap: seq<Block>, chain: seq<nat>, k: nat)
    requires Linked(heap, chain) && k + 1 < |chain|
    ensures Linked(Taken(heap, chain, k), Without(chain, k + 1))
    ensures var v := ViewOf(heap, chain);
            ViewOf(Taken(heap, chain, k), Without(chain, k + 1))
            == v[..k] + [Extent(v[k].size + v[k+1].size, v[k].used)] + v[k+2..]
  {
    TakenLinked(heap, chain, k);
    var h, c, v := Taken(heap, chain, k), Without(chain, k + 1), ViewOf(heap, chain);
    var w := v[..k] + [Extent(v[k].size + v[k+1].size, v[k].used)] + v[k+2..];
    forall l: nat | l < |c|
      ensures ViewOf(h, c)[l] == w[l]
    {
      var o := if l <= k then l else l + 1;
      assert c[l] == chain[o];
      ViewAt(heap, chain, o);
      ViewAt(heap, chain, k + 1);
      ViewAt(h, c, l);
      assert chain[o] != chain[k+1];
      assert o != k ==> chain[o] != chain[k];
    }
  }

  lemma TakenChained(heap: seq<Block>, chain: seq<nat>, k: nat)
    requires Chained(heap, chain) && k + 1 < |chain|
    ensures Chained(Taken(heap, chain, k), Without(chain, k + 1))
  {
    TakenLinked(heap, chain, k);
    ViewAt(heap, chain, k);
    ViewAt(heap, chain, k + 1);
    assert chain[k] != chain[k+1];
    var h, c := Taken(heap, chain, k), Without(chain, k + 1);
    forall d: nat | d < |h| && !h[d].flags.NotPresent?
      ensures Visits(c, d)
    {
      assert Visits(chain, d);
      var l :| 0 <= l < |chain| && chain[l] == d;
      assert l != k + 1;
      assert c[if l <= k then l else l - 1] == d;
    }
  }

  // ----- Empty descriptors

  predicate HasEmpty(heap: seq<Block>) {
    exists d :: 0 <= d < |heap| && heap[d].flags.NotPresent?
  }

  /** Pigeonhole: distinct numbers below n are at most n many, and fewer when one of them is missed. */
  lemma {:induction false} DistinctBelow(c: seq<nat>, n: nat)
    requires Distinct(c) && forall k :: 0 <= k < |c| ==> c[k] < n
    ensures |c| <= n
    ensures forall d: nat {:trigger Visits(c, d)} :: d < n && !Visits(c, d) ==> |c| < n
    decreases n
  {
    assert |c| > 0 ==> c[0] < n;
    if n > 0 {
      if Visits(c, n - 1) {
        var k: nat :| k < |c| && c[k] == n - 1;
        var r := Without(c, k);
        assert forall l :: 0 <= l < |r| ==> r[l] == c[if l < k then l else l + 1];
        DistinctBelow(r, n - 1);
        forall d: nat | d < n && !Visits(c, d)
          ensures |c| < n
        {
          assert d != n - 1;
          assert !Visits(r, d);
        }
      } else {
        assert forall l :: 0 <= l < |c| ==> c[l] != n - 1;
        DistinctBelow(c, n - 1);
      }
    }
  }

  /** Numbers below n that are all visited are at least n many. */
  lemma {:induction false} VisitingAll(c: seq<nat>, n: nat)
    requires forall d: nat {:trigger Visits(c, d)} :: d < n ==> Visits(c, d)
    ensures n <= |c|
    decreases n
  {
    if n > 0 {
      assert Visits(c, n - 1);
      var k: nat :| k < |c| && c[k] == n - 1;
      var r := Without(c, k);
      forall d: nat | d < n - 1
        ensures Visits(r, d)
      {
        assert Visits(c, d);
        var l :| 0 <= l < |c| && c[l] == d;
        assert r[if l < k then l else l - 1] == d;
      }
      VisitingAll(r, n - 1);
    }
  }

  /** There is an empty descriptor exactly when the chain is shorter than the table. */
  lemma EmptyExactly(heap: seq<Block>, chain: seq<nat>)
    requires Chained(heap, chain)
    ensures HasEmpty(heap) <==> |chain| < |heap|
  {
    forall k | 0 <= k < |chain|
      ensures chain[k] < |heap|
    {
      ViewAt(heap, chain, k);
    }
    DistinctBelow(chain, |heap|);
    if HasEmpty(heap) {
      var d: nat :| d < |heap| && heap[d].flags.NotPresent?;
      if Visits(chain, d) {
        var k: nat :| k < |chain| && chain[k] == d;
        ViewAt(heap, chain, k);
      }
    } else {
      VisitingAll(chain, |heap|);
    }
  }

  /** The table after block::create moved bytes from heap[1] to it and cleared the new descriptors. */
  function GrownHeap(heap: seq<Block>): seq<Block>
    requires 2 <= |heap| && GROWTH <= heap[1].size
  {
    heap[0 := heap[0].(size := heap[0].size + GROWTH)][1 := heap[1].(size := heap[1].size - GROWTH)]
    + seq(32, _ => EMPTY)
  }

  /** 32 empty descriptors behind the others. */
  lemma GrownInNumbers(heap: seq<Block>)
    requires 2 <= |heap| && 768 <= heap[1].size
    ensures var h := GrownHeap(heap);
            && |h| == |heap| + 32 && (forall d :: |heap| <= d < |h| ==> h[d].flags.NotPresent?)
            && (forall d :: 2 <= d < |heap| ==> h[d] == heap[d])
            && h[0] == heap[0].(size := heap[0].size + 768) && h[1] == heap[1].(size := heap[1].size - 768)
  {
  }

  lemma GrownTable(heap: seq<Block>, chain: seq<nat>)
    requires Tabled(heap, chain) && GROWTH <= heap[1].size
    ensures Tabled(GrownHeap(heap), chain)
    ensures ViewOf(GrownHeap(heap), chain) == Grow(ViewOf(heap, chain))
  {
    var h := GrownHeap(heap);
    forall k: nat | k < |chain|
      ensures LinkAt(h, chain, k) && ExtentOf(h[chain[k]]) == Grow(ViewOf(heap, chain))[k]
    {
      ViewAt(heap, chain, 0);
      ViewAt(heap, chain, 1);
      ViewAt(heap, chain, k);
    }
    forall k: nat | k < |chain|
      ensures ViewOf(h, chain)[k] == Grow(ViewOf(heap, chain))[k]
    {
      ViewAt(h, chain, k);
    }
  }

  /** The table after the empty descriptor d was filled and stored as the successor of descriptor k. */
  ghost function Inserted(heap: seq<Block>, b: nat, d: nat, flags: Flag, size: nat): seq<Block>
    requires b < |heap| && d < |heap|
  {
    var h := heap[d := Block(flags, size, heap[b].next)];
    h[b := h[b].(next := Some(d))]
  }

  ghost function With<T>(s: seq<T>, k: nat, x: T): seq<T>
    requires k <= |s|
  {
    s[..k] + [x] + s[k..]
  }

  lemma WithAt<T>(s: seq<T>, k: nat, x: T, l: nat)
    requires k <= |s| && l <= |s|
    ensures |With(s, k, x)| == |s| + 1
    ensures With(s, k, x)[l] == if l < k then s[l] else if l == k then x else s[l - 1]
  {
  }

  lemma EmptyNotOnChain(heap: seq<Block>, chain: seq<nat>, d: nat, l: nat)
    requires Linked(heap, chain) && d < |heap| && heap[d].flags.NotPresent? && l < |chain|
    ensures chain[l] != d
  {
    ViewAt(heap, chain, l);
  }

  lemma InsertedDistinct(chain: seq<nat>, k: nat, d: nat)
    requires Distinct(chain) && k < |chain| && forall l :: 0 <= l < |chain| ==> chain[l] != d
    ensures Distinct(With(chain, k + 1, d))
  {
    var c := With(chain, k + 1, d);
    forall i, j | 0 <= i < j < |c|
      ensures c[i] != c[j]
    {
      WithAt(chain, k + 1, d, i);
      WithAt(chain, k + 1, d, j);
    }
  }

  lemma InsertedAt(heap: seq<Block>, chain: seq<nat>, k: nat, d: nat, flags: Flag, size: nat, l: nat)
    requires Linked(heap, chain) && k < |chain| && chain[k] < |heap|
    requires d < |heap| && heap[d].flags.NotPresent? && !flags.NotPresent? && l <= |chain|
    ensures var h, c := Inserted(heap, chain[k], d, flags, size), With(chain, k + 1, d);
            && |c| == |chain| + 1 && LinkAt(h, c, l)
            && ExtentOf(h[c[l]]) == With(ViewOf(heap, chain), k + 1, Extent(size, flags.UsedBlock?))[l]
  {
    hide With, ViewOf;
    WithAt(chain, k + 1, d, l);
    WithAt(ViewOf(heap, chain), k + 1, Extent(size, flags.UsedBlock?), l);
    if l < |chain| {
      WithAt(chain, k + 1, d, l + 1);
    }
    ViewAt(heap, chain, k);
    EmptyNotOnChain(heap, chain, d, k);
    if l != k + 1 {
      var o := if l <= k then l else l - 1;
      ViewAt(heap, chain, o);
      EmptyNotOnChain(heap, chain, d, o);
      assert o != k ==> chain[o] != chain[k];
    }
  }

  lemma InsertedLinked(heap: seq<Block>, chain: seq<nat>, k: nat, d: nat, flags: Flag, size: nat)
    requires Linked(heap, chain) && k < |chain| && chain[k] < |heap|
    requires d < |heap| && heap[d].flags.NotPresent? && !flags.NotPresent?
    ensures Linked(Inserted(heap, chain[k], d, flags, size), With(chain, k + 1, d))
    ensures var v := ViewOf(heap, chain);
            ViewOf(Inserted(heap, chain[k], d, flags, size), With(chain, k + 1, d))
            == With(v, k + 1, Extent(size, flags.UsedBlock?))
  {
    hide Inserted, LinkAt, ViewOf, ExtentOf, With;
    var h, c := Inserted(heap, chain[k], d, flags, size), With(chain, k + 1, d);
    InsertedAt(heap, chain, k, d, flags, size, 0);
    forall l: nat | l < |chain|
      ensures chain[l] != d
    {
      EmptyNotOnChain(heap, chain, d, l);
    }
    InsertedDistinct(chain, k, d);
    var w := With(ViewOf(heap, chain), k + 1, Extent(size, flags.UsedBlock?));
    WithAt(ViewOf(heap, chain), k + 1, Extent(size, flags.UsedBlock?), 0);
    forall l: nat | l < |c|
      ensures LinkAt(h, c, l)
    {
      InsertedAt(heap, chain, k, d, flags, size, l);
    }
    forall l: nat | l < |c|
      ensures ViewOf(h, c)[l] == w[l]
    {
      InsertedAt(heap, chain, k, d, flags, size, l);
      ViewAt(h, c, l);
    }
  }

  lemma InsertedChained(heap: seq<Block>, chain: seq<nat>, k: nat, d: nat, flags: Flag, size: nat)
    requires Chained(heap, chain) && k < |chain| && chain[k] < |heap|
    requires d < |heap| && heap[d].flags.NotPresent? && !flags.NotPresent?
    ensures Chained(Inserted(heap, chain[k], d, flags, size), With(chain, k + 1, d))
  {
    InsertedLinked(heap, chain, k, d, flags, size);
    ViewAt(heap, chain, k);
    var h, c := Inserted(heap, chain[k], d, flags, size), With(chain, k + 1, d);
    forall e: nat | e < |h| && !h[e].flags.NotPresent?
      ensures Visits(c, e)
    {
      if e == d {
        assert c[k+1] == d;
      } else {
        assert Visits(chain, e);
        var l :| 0 <= l < |chain| && chain[l] == e;
        assert c[if l <= k then l else l + 1] == e;
      }
    }
  }

  /** Storing nullptr as the successor of descriptor k cuts the chain behind it. */
  lemma CutBehind(heap: seq<Block>, chain: seq<nat>, k: nat)
    requires Linked(heap, chain) && k < |chain| && chain[k] < |heap|
    ensures var h := heap[chain[k] := heap[chain[k]].(next := None)];
            && Linked(h, chain[..k+1])
            && ViewOf(h, chain[..k+1]) == ViewOf(heap, chain)[..k+1]
  {
    var h, c := heap[chain[k] := heap[chain[k]].(next := None)], chain[..k+1];
    forall l: nat | l < |c|
      ensures LinkAt(h, c, l)
    {
      ViewAt(heap, chain, l);
    }
    forall l: nat | l < |c|
      ensures ViewOf(h, c)[l] == ViewOf(heap, chain)[..k+1][l]
    {
      ViewAt(heap, chain, l);
      ViewAt(h, c, l);
    }
  }

  /** Claim in terms of the table: an empty descriptor, or growth, or neither. */
  lemma ClaimFromTable(heap: seq<Block>, chain: seq<nat>)
    requires Tabled(heap, chain)
    ensures var v := ViewOf(heap, chain);
            && (HasEmpty(heap) ==> Claim(v) == Some(v))
            && (!HasEmpty(heap) && heap[1].flags.FreeBlock? && GROWTH <= heap[1].size ==> Claim(v) == Some(Grow(v)))
            && (!HasEmpty(heap) && !(heap[1].flags.FreeBlock? && GROWTH <= heap[1].size) ==> Claim(v).None?)
  {
    ViewAt(heap, chain, 0);
    ViewAt(heap, chain, 1);
    EmptyExactly(heap, chain);
    assert |heap| * BLOCK_SIZE / BLOCK_SIZE == |heap|;
  }

  lemma InsertedTabled(heap: seq<Block>, chain: seq<nat>, k: nat, d: nat, flags: Flag, size: nat)
    requires Tabled(heap, chain) && 1 <= k < |chain| && chain[k] < |heap|
    requires d < |heap| && heap[d].flags.NotPresent? && !flags.NotPresent?
    ensures Tabled(Inserted(heap, chain[k], d, flags, size), With(chain, k + 1, d))
  {
    InsertedChained(heap, chain, k, d, flags, size);
    ViewAt(heap, chain, 0);
  }

  lemma ShrunkBefore(u: seq<Extent>, k: nat, e: Extent, x: Extent)
    requires k < |u|
    ensures With(u, k + 1, e)[k := x] == u[..k] + [x, e] + u[k+1..] && With(u, k + 1, e)[k] == u[k]
  {
  }

  /** r and t are what alloc on a region in state s returns and leaves behind. */
  ghost predicate AllocDid(s: Storage, size: nat, align: nat, r: AllocResult, t: Storage)
    requires 2 <= |s.view| && s.view[0].used
  {
    match StorageLayout.Alloc(s.base, s.size, s.view, size, align)
    case Fault => r == Faulted
    case Null => r == NullPointer && t == s
    case Done(v, p) => r == Pointer(p) && t == s.(view := v, live := s.live[p := size])
  }

  lemma FirstFitSkips(base: nat, v: seq<Extent>, size: nat, align: nat, k: nat)
    requires k < |v| && !Fits(base + Start(v, k), v[k], size, align)
    ensures FirstFit(base, v, size, align, k) == FirstFit(base, v, size, align, k + 1)
    ensures Start(v, k + 1) == Start(v, k) + v[k].size
  {
    StartNext(v, k);
  }

  lemma AllocStarts(s: Storage, size: nat, align: nat, k: nat)
    requires Inv(s) && 0 < size <= s.size && k == Chosen(s, size, align) && k < |s.view|
    ensures 0 < k && size <= s.view[k].size < WORD && !s.view[k].used
    ensures AllocSafe(s, size, align) ==> CanPlace(s.view, k, Left(s, k, size, align), size)
  {
    ChosenBlock(s, size, align);
    BlockInRegion(s, k);
    if AllocSafe(s, size, align) {
      AllocOfSafe(s, size, align);
    }
  }

  /** What a safe alloc leaves behind. */
  lemma SafeAllocDid(s: Storage, size: nat, align: nat, r: AllocResult, t: Storage)
    requires Inv(s) && 0 < size && AllocDid(s, size, align, r, t) && AllocSafe(s, size, align)
    ensures Inv(t)
  {
    hide AllocSafe, StorageLayout.Alloc;
    SafeAllocKeeps(s, size, align);
  }

  /** What the forward loop still makes of the extents when it has reached extent j. */
  ghost function Ahead(v: seq<Extent>, j: nat): seq<Extent> {
    if j < |v| then v[..j] + Absorb(v[j..]) else v
  }

  lemma AheadFrom(v: seq<Extent>, j: nat)
    requires j < |v|
    ensures Ahead(v, j) == v[..j] + Absorb(v[j..])
  {
  }

  lemma AheadStops(v: seq<Extent>, j: nat)
    requires j <= |v| && (j + 1 < |v| ==> v[j+1].used)
    ensures Ahead(v, j) == v
  {
    if j < |v| {
      AbsorbStops(v, j);
    }
  }

  /** One turn of the forward loop of block::merge, on the extents. */
  lemma AbsorbTurn(v: seq<Extent>, j: nat)
    requires j + 1 < |v| && !v[j+1].used
    ensures var w := v[..j] + [Extent(v[j].size + v[j+1].size, v[j].used)] + v[j+2..];
            && |w| == |v| - 1
            && v[..j] + Absorb(v[j..]) == if j + 1 == |w| then w else w[..j+1] + Absorb(w[j+1..])
  {
    var e := Extent(v[j].size + v[j+1].size, v[j].used);
    var w := v[..j] + [e] + v[j+2..];
    assert v[j..][2..] == v[j+2..] == w[j+1..];
    assert w[..j+1] == v[..j] + [e];
    if j + 1 < |w| {
      assert v[..j] + ([e] + Absorb(v[j+2..])) == v[..j] + [e] + Absorb(v[j+2..]);
    }
  }

  lemma AbsorbStops(v: seq<Extent>, j: nat)
    requires j < |v| && (j + 1 < |v| ==> v[j+1].used)
    ensures v[..j] + Absorb(v[j..]) == v
  {
    assert v == v[..j] + v[j..];
  }

  lemma LocateSkips(v: seq<Extent>, off: nat, k: nat)
    requires k < |v| && !(Start(v, k) <= off < Start(v, k) + v[k].size)
    ensures Locate(v, off, k) == Locate(v, off, k + 1)
    ensures Start(v, k + 1) == Start(v, k) + v[k].size
    ensures Start(v, k) <= off ==> Start(v, k + 1) <= off
  {
    StartNext(v, k);
  }

  /** r says whether a block held ptr, and t is what free on a region in state s leaves behind. */
  ghost predicate FreeDid(s: Storage, ptr: nat, r: bool, t: Storage) {
    t == AfterFree(s, ptr) && r == HoldsByte(s, ptr)
  }

  lemma FreeConcludes(s: Storage, ptr: nat, k: nat, t: Storage)
    requires s.base <= ptr <= s.base + s.size && k == Locate(s.view, ptr - s.base, 0) && k < |s.view|
    requires t == s.(view := Merge(s.view[k := Extent(s.view[k].size, false)], k),
                     live := s.live - {s.base + Start(s.view, k)})
    ensures t == AfterFree(s, ptr)
  {}

  // ----- One region

  /** Faulted: the code follows a null pointer and does not return. */
  datatype AllocResult = Pointer(ptr: nat) | NullPointer | Faulted

  class Region {
    var isPublic: bool
    var base: nat
    var size: nat
    /** The descriptors from the start of the region on; heap[0] is also region->head. */
    var heap: seq<Block>
    ghost var chain: seq<nat>
    ghost var live: map<nat, nat>

    /** A slot of the table of regions that is not in use. */
    constructor ()
      ensures !isPublic
    {
      isPublic, base, size, heap := false, 0, 0, [];
      chain, live := [], map[];
    }

    ghost function View(): seq<Extent>
      reads this
      requires Linked(heap, chain)
    {
      ViewOf(heap, chain)
    }

    ghost function State(): Storage
      reads this
      requires Linked(heap, chain)
    {
      Storage(base, size, View(), live)
    }

    ghost predicate Valid()
      reads this
    {
      Tabled(heap, chain) && Inv(State())
    }

    /** region::create on a free slot. The code writes heap[1] even when the table holds heap[0] only. */
    method Create(start: nat, length: nat)
      requires start + length < WORD
      modifies this
      ensures isPublic && base == start && size == length
      ensures Linked(heap, chain) && State() == Storage(start, length, CreateView(length), map[])
      ensures Valid() <==> 8192 <= length
    {
      base, size, isPublic := start, length, true;
      var n := length / 8192 + 1;
      heap := seq(if n < 2 then 2 else n, _ => EMPTY);
      heap := heap[0 := Block(UsedBlock, n * BLOCK_SIZE, Some(1))];
      heap := heap[1 := Block(FreeBlock, (length - heap[0].size) % WORD, None)];
      chain, live := [0, 1], map[];
      assert LinkAt(heap, chain, 0) && LinkAt(heap, chain, 1);
      ViewAt(heap, chain, 0);
      ViewAt(heap, chain, 1);
      assert View() == CreateView(length);
      assert chain[0] == 0 && chain[1] == 1;
      assert Visits(chain, 0) && Visits(chain, 1);
      CreateWellFormedExactly(start, length);
    }

    /** block::create: the first empty descriptor is filled, or else the table grows by 32 descriptors
        that heap[1] pays for, or else nullptr is returned. */
    method BlockCreate(length: nat, flags: Flag, next: Option<nat>) returns (r: Option<nat>)
      requires 2 <= |heap| && heap[0].size == |heap| * BLOCK_SIZE
      modifies this`heap
      ensures r.None? <==> !old(HasEmpty(heap)) && !(old(heap[1].flags.FreeBlock?) && GROWTH <= old(heap[1].size))
      ensures r.None? ==> heap == old(heap)
      ensures r.Some? && old(HasEmpty(heap)) ==>
                && r.value < |old(heap)| && old(heap)[r.value].flags.NotPresent?
                && (forall d :: 0 <= d < r.value ==> !old(heap)[d].flags.NotPresent?)
                && heap == old(heap)[r.value := Block(flags, length, next)]
      ensures r.Some? && !old(HasEmpty(heap)) ==>
                && r.value == |old(heap)|
                && heap == GrownHeap(old(heap))[r.value := Block(flags, length, next)]
    {
      var n := heap[0].size / BLOCK_SIZE;
      var d := 0;
      while d < n
        invariant 0 <= d <= n == |heap| && heap == old(heap)
        invariant forall e :: 0 <= e < d ==> !heap[e].flags.NotPresent?
      {
        if heap[d].flags.NotPresent? {
          heap := heap[d := Block(flags, length, next)];
          return Some(d);
        }
        d := d + 1;
      }
      if !heap[1].flags.FreeBlock? || heap[1].size < BLOCK_SIZE * 32 {
        return None;
      }
      heap := heap[0 := heap[0].(size := heap[0].size + BLOCK_SIZE * 32)];
      heap := heap[1 := heap[1].(size := heap[1].size - BLOCK_SIZE * 32)];
      heap := heap + seq(32, _ => EMPTY);
      heap := heap[n := Block(flags, length, next)];
      return Some(n);
    }

    /** block->next = block::create(region, length, flags, block->next), with block the k-th of the chain. */
    method CreateAfter(block: nat, ghost k: nat, length: nat, flags: Flag)
      requires Tabled(heap, chain) && 1 <= k < |chain| && chain[k] == block && block < |heap| && !flags.NotPresent?
      modifies this`heap, this`chain
      ensures Linked(heap, chain)
      ensures match Claim(old(View()))
              case Some(u) =>
                && Tabled(heap, chain) && |chain| == |old(chain)| + 1 && chain[..k+1] == old(chain)[..k+1]
                && View() == With(u, k + 1, Extent(length, flags.UsedBlock?))
              case None =>
                && chain == old(chain)[..k+1]
                && View() == old(View())[..k+1]
    {
      ClaimFromTable(heap, chain);
      ghost var grown := if HasEmpty(heap) then heap else if Claim(View()).Some? then GrownHeap(heap) else heap;
      if grown != heap {
        GrownTable(heap, chain);
      }
      var r := BlockCreate(length, flags, heap[block].next);
      heap := heap[block := heap[block].(next := r)];
      if r.Some? {
        assert heap == Inserted(grown, block, r.value, flags, length);
        InsertedLinked(grown, chain, k, r.value, flags, length);
        InsertedTabled(grown, chain, k, r.value, flags, length);
        chain := With(chain, k + 1, r.value);
      } else {
        CutBehind(grown, chain, k);
        chain := chain[..k+1];
      }
    }

    /** Writing size and flags of the k-th block of the chain. */
    method SetBlock(block: nat, ghost k: nat, length: nat, flags: Flag)
      requires Linked(heap, chain) && k < |chain| && chain[k] == block && block < |heap| && !flags.NotPresent?
      modifies this`heap
      ensures heap == old(heap)[block := Block(flags, length, old(heap)[block].next)]
      ensures Linked(heap, chain) && View() == old(View())[k := Extent(length, flags.UsedBlock?)]
      ensures old(Chained(heap, chain)) ==> Chained(heap, chain)
      ensures old(Tabled(heap, chain)) && 1 <= k ==> Tabled(heap, chain)
    {
      Rewritten(heap, chain, k, flags, length);
      heap := heap[block := Block(flags, length, heap[block].next)];
    }

    /** The walk of alloc to the first block that passes the test. */
    method FindBlock(length: nat, align: nat) returns (block: Option<nat>, ptr: nat)
      requires Linked(heap, chain) && chain[0] == 0
      ensures var k := FirstFit(base, View(), length, align, 0);
              && block == (if k < |chain| then Some(chain[k]) else None)
              && ptr == base + Start(View(), k)
    {
      ghost var k := 0;
      block, ptr := Some(0), base;
      while block.Some?
        invariant k <= |chain|
        invariant block == if k < |chain| then Some(chain[k]) else None
        invariant ptr == base + Start(View(), k)
        invariant FirstFit(base, View(), length, align, 0) == FirstFit(base, View(), length, align, k)
        decreases |chain| - k
      {
        ViewAt(heap, chain, k);
        var b := heap[block.value];
        if Fits(ptr, ExtentOf(b), length, align) {
          return;
        }
        FirstFitSkips(base, View(), length, align, k);
        ptr, block, k := ptr + b.size, b.next, k + 1;
      }
    }

    /** The left split of alloc: the new block for the rest, or nullptr when no descriptor is left. */
    method TakeLeft(block: nat, ghost k: nat, left: nat) returns (next: Option<nat>)
      requires Tabled(heap, chain) && 1 <= k < |chain| && chain[k] == block && block < |heap|
      modifies this`heap, this`chain
      ensures Linked(heap, chain)
      ensures next.Some? <==> SplitLeft(old(View()), k, left).Some?
      ensures next.Some? ==> Tabled(heap, chain) && View() == SplitLeft(old(View()), k, left).value
      ensures next.Some? ==> k + 1 < |chain| && next.value == chain[k+1] < |heap|
    {
      ViewAt(heap, chain, k);
      var nextSize := (heap[block].size - left) % WORD;
      SetBlock(block, k, left, FreeBlock);
      CreateAfter(block, k, nextSize, UsedBlock);
      ViewAt(heap, chain, k);
      next := heap[block].next;
      if next.Some? {
        ViewAt(heap, chain, k + 1);
      }
    }

    /** The splits of alloc: left bytes stay free in front of the object, the rest behind it. */
    method Take(block: nat, ghost k: nat, cp: nat, left: nat, length: nat) returns (r: AllocResult)
      requires Tabled(heap, chain) && 1 <= k < |chain| && chain[k] == block && block < |heap|
      requires !View()[k].used && length <= View()[k].size < WORD
      modifies this`heap, this`chain
      ensures Linked(heap, chain)
      ensures match PlaceAt(cp, old(View()), k, left, length)
              case Fault => r == Faulted
              case Null => false
              case Done(v, p) => r == Pointer(p) && View() == v
      ensures CanPlace(old(View()), k, left, length) ==> Tabled(heap, chain)
    {
      if CanPlace(View(), k, left, length) {
        CanPlaceClaims(View(), k, left, length);
      }
      if left == 0 {
        TakeRight(block, k, length);
        r := Pointer(cp);
      } else {
        var next := TakeLeft(block, k, left);
        if next.None? {
          return Faulted;
        }
        TakeRight(next.value, k + 1, length);
        r := Pointer((cp + left) % WORD);
      }
    }

    /** The right split of alloc, and marking the block as used. */
    method TakeRight(block: nat, ghost k: nat, length: nat)
      requires Tabled(heap, chain) && 1 <= k < |chain| && chain[k] == block && block < |heap|
      modifies this`heap, this`chain
      ensures Linked(heap, chain) && View() == SplitRight(old(View()), k, length)
      ensures old(Claim(View())).Some? || old(View()[k].size) == length ==> Tabled(heap, chain)
    {
      hide Total, LinkAt, Distinct, Visits, ViewOf, HasEmpty, Claim;
      ViewAt(heap, chain, k);
      var right := (heap[block].size - length) % WORD;
      if right != 0 {
        ghost var v := View();
        CreateAfter(block, k, right, FreeBlock);
        ViewAt(heap, chain, k);
        var left := (heap[block].size - right) % WORD;
        ghost var x := Extent(left, true);
        SetBlock(block, k, left, UsedBlock);
        match Claim(v) {
          case Some(u) => ShrunkBefore(u, k, Extent(right, false), x);
          case None => assert v[..k+1][k := x] == v[..k] + [x];
        }
      } else {
        SetBlock(block, k, heap[block].size, UsedBlock);
      }
    }

    /** The bytes in front of the object; the subtraction wraps when the block has no aligned slot. */
    method LeftOf(bs: nat, cp: nat, length: nat, align: nat) returns (left: nat)
      requires length <= bs < WORD
      ensures left == LeftSize(cp, bs, length, align)
    {
      if align != 0 {
        left := ((cp + bs - length) - (cp + bs - length) % align - cp) % WORD;
      } else {
        left := bs - length;
      }
    }

    /** alloc on this region. */
    method Alloc(length: nat, align: nat) returns (r: AllocResult)
      requires Valid() && 0 < length
      modifies this`heap, this`chain, this`live
      ensures Linked(heap, chain) && AllocDid(old(State()), length, align, r, State())
      ensures r.NullPointer? ==> heap == old(heap) && chain == old(chain)
      ensures AllocSafe(old(State()), length, align) ==> Valid()
    {
      ghost var s := State();
      if length > size {
        return NullPointer;
      }
      ghost var k := Chosen(s, length, align);
      var found, cp := FindBlock(length, align);
      if found.None? {
        return NullPointer;
      }
      r := AllocFrom(found.value, k, cp, length, align);
    }

    /** alloc from the chosen block on. */
    method AllocFrom(block: nat, ghost k: nat, cp: nat, length: nat, align: nat) returns (r: AllocResult)
      requires Valid() && 0 < length <= size
      requires k == Chosen(State(), length, align) && k < |chain| && block == chain[k]
      requires cp == base + Start(View(), k)
      modifies this`heap, this`chain, this`live
      ensures Linked(heap, chain) && AllocDid(old(State()), length, align, r, State())
      ensures !r.NullPointer?
      ensures AllocSafe(old(State()), length, align) ==> Valid()
    {
      hide Total, PlaceAt, CanPlace, LeftSize, FirstFit, AllocSafe, StorageLayout.Alloc;
      hide LinkAt, Distinct, Visits, ViewOf;
      ghost var s := State();
      ViewAt(heap, chain, k);
      AllocStarts(s, length, align, k);
      AllocIsPlaceAt(s, length, align);
      var left := LeftOf(heap[block].size, cp, length, align);
      r := Take(block, k, cp, left, length);
      if r.Pointer? {
        live := live[r.ptr := length];
      }
      if AllocSafe(s, length, align) {
        SafeAllocDid(s, length, align, r, State());
      }
    }

    /** The k-th block of the chain takes over the next one, whose descriptor becomes empty. */
    method TakeOver(block: nat, ghost k: nat)
      requires Chained(heap, chain) && k + 1 < |chain| && chain[k] == block && block < |heap|
      modifies this`heap, this`chain
      ensures |heap| == |old(heap)| && Chained(heap, chain) && chain == Without(old(chain), k + 1)
      ensures var v := old(View());
              View() == v[..k] + [Extent(v[k].size + v[k+1].size, v[k].used)] + v[k+2..]
      ensures old(Tabled(heap, chain)) && 1 <= k ==> Tabled(heap, chain)
    {
      ViewAt(heap, chain, 0);
      ViewAt(heap, chain, k);
      ViewAt(heap, chain, k + 1);
      assert chain[k] != chain[k+1];
      TakenView(heap, chain, k);
      TakenChained(heap, chain, k);
      ghost var taken := Taken(heap, chain, k);
      var next := heap[block].next.value;
      heap := heap[next := heap[next].(flags := NotPresent)];
      heap := heap[block := heap[block].(size := heap[block].size + heap[next].size)];
      heap := heap[block := heap[block].(next := heap[next].next)];
      assert heap == taken;
      chain := Without(chain, k + 1);
    }

    /** block::merge of the freed k-th block; its callers ignore the block it returns. */
    method BlockMerge(prev: Option<nat>, block0: nat, ghost k: nat)
      requires Chained(heap, chain) && k < |chain| && chain[k] == block0 && block0 < |heap|
      requires heap[block0].flags.FreeBlock?
      requires prev == if k == 0 then None else Some(chain[k-1])
      modifies this`heap, this`chain
      ensures Chained(heap, chain) && View() == Merge(old(View()), k)
      ensures old(Tabled(heap, chain)) && 1 <= k && old(View()[0].used) ==> Tabled(heap, chain)
    {
      ghost var goal := Merge(View(), k);
      var block := block0;
      ghost var j := k;
      if k > 0 {
        ViewAt(heap, chain, k - 1);
      }
      if prev.Some? && heap[prev.value].flags.FreeBlock? {
        ViewAt(heap, chain, k);
        TakeOver(prev.value, k - 1);
        block, j := prev.value, k - 1;
      }
      Absorbing(Some(block), j, goal);
    }

    /** The forward loop of block::merge. */
    method Absorbing(first: Option<nat>, ghost j0: nat, ghost goal: seq<Extent>)
      requires Chained(heap, chain) && j0 < |chain| && first == Some(chain[j0])
      requires goal == View()[..j0] + Absorb(View()[j0..])
      modifies this`heap, this`chain
      ensures Chained(heap, chain) && View() == goal
      ensures old(Tabled(heap, chain)) && 1 <= j0 ==> Tabled(heap, chain)
    {
      hide Absorb, Ahead, LinkAt, Distinct, Visits, ViewOf;
      var block := first;
      ghost var j := j0;
      AheadFrom(View(), j);
      LinkedNext(heap, chain, j);
      while block.Some? && heap[block.value].next.Some? && heap[heap[block.value].next.value].flags.FreeBlock?
        invariant Chained(heap, chain) && j0 <= j <= |chain|
        invariant block == if j < |chain| then Some(chain[j]) else None
        invariant block.Some? ==> NextInTable(heap, block.value)
        invariant goal == Ahead(View(), j)
        invariant old(Tabled(heap, chain)) && 1 <= j0 ==> Tabled(heap, chain)
        decreases |chain| - j
      {
        block := AbsorbNext(block.value, j);
        j := j + 1;
      }
      if block.Some? {
        ViewAt(heap, chain, j);
        if j + 1 < |chain| {
          ViewAt(heap, chain, j + 1);
        }
      }
      AheadStops(View(), j);
    }

    /** One turn of the forward loop: take over the next block and step to the one behind it. */
    method AbsorbNext(block: nat, ghost j: nat) returns (next: Option<nat>)
      requires Chained(heap, chain) && j < |chain| && chain[j] == block && NextInTable(heap, block)
      requires heap[block].next.Some? && heap[heap[block].next.value].flags.FreeBlock?
      modifies this`heap, this`chain
      ensures Chained(heap, chain) && |chain| == |old(chain)| - 1 && j < |chain|
      ensures next == if j + 1 < |chain| then Some(chain[j+1]) else None
      ensures next.Some? ==> NextInTable(heap, next.value)
      ensures Ahead(View(), j + 1) == Ahead(old(View()), j)
      ensures old(Tabled(heap, chain)) && 1 <= j ==> Tabled(heap, chain)
    {
      ViewAt(heap, chain, j);
      ViewAt(heap, chain, j + 1);
      AbsorbTurn(View(), j);
      hide LinkAt, Distinct, Visits, ViewOf, Absorb;
      TakeOver(block, j);
      ViewAt(heap, chain, j);
      next := heap[block].next;
      if j + 1 < |chain| {
        LinkedNext(heap, chain, j + 1);
      }
    }

    /** free on this region; the result is false when the walk of the caller goes on to the next region. */
    method Free(ptr: nat) returns (found: bool)
      requires Valid()
      modifies this`heap, this`chain, this`live
      ensures Chained(heap, chain) && FreeDid(old(State()), ptr, found, State())
      ensures Valid() <==> !HitsTable(old(State()), ptr)
      ensures !found ==> heap == old(heap) && chain == old(chain) && live == old(live)
    {
      hide Total, Merge, Locate, LinkAt, Distinct, Visits, ViewOf, WellFormed, Served;
      ghost var s := State();
      FreeKeepsExactly(s, ptr);
      if ptr < base || ptr > base + size {
        return false;
      }
      ghost var k := Locate(View(), ptr - base, 0);
      LocateFirst(View(), ptr - base);
      var prev, found' := FindByte(ptr);
      if found'.None? {
        return false;
      }
      FreeBlockAt(prev, found'.value, k, ptr);
      return true;
    }

    /** The walk of free to the block that holds ptr. The early return for a walk past ptr is never
        taken: the walk starts at or before ptr and the blocks leave no gap. */
    method FindByte(ptr: nat) returns (prev: Option<nat>, found: Option<nat>)
      requires Chained(heap, chain) && chain[0] == 0 && base <= ptr
      ensures var k := Locate(View(), ptr - base, 0);
              && found == (if k < |chain| then Some(chain[k]) else None)
              && prev == (if k == 0 then None else Some(chain[k-1]))
      ensures found.Some? ==> found.value < |heap|
    {
      hide Locate, Total, Start, LinkAt, Distinct, Visits, ViewOf;
      StartOfFirst(View());
      ghost var k := 0;
      var currentPtr := base;
      prev, found := None, Some(0);
      while found.Some?
        invariant k <= |chain|
        invariant found == if k < |chain| then Some(chain[k]) else None
        invariant prev == if k == 0 then None else Some(chain[k-1])
        invariant currentPtr == base + Start(View(), k) && currentPtr <= ptr
        invariant Locate(View(), ptr - base, 0) == Locate(View(), ptr - base, k)
        decreases |chain| - k
      {
        ViewAt(heap, chain, k);
        var block := found.value;
        if ptr >= currentPtr && ptr < currentPtr + heap[block].size {
          LocateUnique(View(), ptr - base, k);
          return;
        }
        LocateSkips(View(), ptr - base, k);
        currentPtr, prev, found, k := currentPtr + heap[block].size, found, heap[block].next, k + 1;
      }
    }

    /** free from the block that holds ptr on. */
    method FreeBlockAt(prev: Option<nat>, block: nat, ghost k: nat, ptr: nat)
      requires Valid() && base <= ptr <= base + size && k == Locate(View(), ptr - base, 0)
      requires k < |chain| && block == chain[k] && block < |heap|
      requires prev == if k == 0 then None else Some(chain[k-1])
      modifies this`heap, this`chain, this`live
      ensures Chained(heap, chain) && State() == AfterFree(old(State()), ptr)
      ensures 0 < k ==> Tabled(heap, chain)
    {
      hide Total, Merge, Locate, LinkAt, Distinct, Visits, ViewOf;
      ghost var s := State();
      ViewAt(heap, chain, k);
      SetBlock(block, k, heap[block].size, FreeBlock);
      assert 0 < k ==> View()[0].used;
      BlockMerge(prev, block, k);
      live := live - {base + Start(s.view, k)};
      FreeConcludes(s, ptr, k, State());
    }
  }
}
