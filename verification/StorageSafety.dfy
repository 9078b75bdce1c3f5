/**
  What alloc and free keep true of a region, over single calls and over whole runs. The functions
  are those of StorageLayout.
 */
module StorageSafety {
  import opened Wrappers
  import opened StorageLayout

  // ----- When alloc is safe

  /** The block the first-fit walk stops at. */
  function Chosen(s: Storage, size: nat, align: nat): nat {
    FirstFit(s.base, s.view, size, align, 0)
  }

  function Left(s: Storage, i: nat, size: nat, align: nat): nat
    requires i < |s.view| && size <= s.view[i].size
  {
    LeftSize(s.base + Start(s.view, i), s.view[i].size, size, align)
  }

  function SplitsNeeded(bs: nat, left: nat, size: nat): nat {
    (if left == 0 then 0 else 1) + (if bs == left + size then 0 else 1)
  }

  /** Enough empty descriptors, or heap[1] can still pay for more once its own left part is cut. */
  predicate DescriptorsSuffice(v: seq<Extent>, i: nat, left: nat, size: nat)
    requires 2 <= |v| && 0 < i < |v|
  {
    || |v| + SplitsNeeded(v[i].size, left, size) <= v[0].size / BLOCK_SIZE
    || (!v[1].used && GROWTH <= (if i == 1 then left else v[1].size))
  }

  /** What a caller would have to check before calling alloc. */
  ghost predicate AllocSafe(s: Storage, size: nat, align: nat)
    requires WellFormed(s.view, s.size)
  {
    var i := Chosen(s, size, align);
    size > s.size || i == |s.view| ||
    (HasSlot(s.base + Start(s.view, i), s.view[i].size, size, align)
     && DescriptorsSuffice(s.view, i, Left(s, i, size, align), size))
  }

  /** The state after alloc; None when the code follows a null pointer. */
  function AfterAlloc(s: Storage, size: nat, align: nat): Option<Storage>
    requires 2 <= |s.view| && s.view[0].used
  {
    match Alloc(s.base, s.size, s.view, size, align)
    case Fault => None
    case Null => Some(s)
    case Done(v, p) => Some(s.(view := v, live := s.live[p := size]))
  }

  // ----- The shape of a safe allocation

  /** Block i of w carved into a left part (kept even when growth emptied it), the object and a right part. */
  function Carve(w: seq<Extent>, i: nat, keep: bool, left: nat, size: nat, right: nat): seq<Extent>
    requires i < |w|
  {
    w[..i]
    + (if keep then [Extent(left, false)] else [])
    + [Extent(size, true)]
    + (if right == 0 then [] else [Extent(right, false)])
    + w[i+1..]
  }

  /** The extents around block i after a growth of the table that heap[1] paid for. */
  function Shifted(v: seq<Extent>, i: nat, grown: bool): seq<Extent>
    requires 2 <= |v| && 0 < i < |v|
    requires grown && i != 1 ==> GROWTH <= v[1].size
  {
    if !grown then v
    else if i == 1 then v[0 := Extent(v[0].size + GROWTH, v[0].used)]
    else Grow(v)
  }

  function Grown(v: seq<Extent>, i: nat, left: nat, size: nat): bool
    requires 2 <= |v| && 0 < i < |v|
  {
    v[0].size / BLOCK_SIZE < |v| + SplitsNeeded(v[i].size, left, size)
  }

  lemma LeftWithoutWrap(cp: nat, bs: nat, size: nat, align: nat)
    requires size <= bs && cp + bs < WORD && HasSlot(cp, bs, size, align)
    ensures cp + LeftSize(cp, bs, size, align) == AlignDown(cp + bs - size, align)
    ensures LeftSize(cp, bs, size, align) + size <= bs
  {
    HasSlotExactly(cp, bs, size, align);
    AlignDownAligned(cp + bs - size, align);
    var d := AlignDown(cp + bs - size, align) - cp;
    assert d % WORD == d;
  }

  lemma BlockInRegion(s: Storage, i: nat)
    requires Inv(s) && i < |s.view|
    ensures Start(s.view, i) + s.view[i].size <= s.size
    ensures s.base + Start(s.view, i) + s.view[i].size < WORD
  {
    StartNext(s.view, i);
    StartMonotone(s.view, i + 1, |s.view|);
  }

  lemma SlotArithmetic(s: Storage, i: nat, size: nat, align: nat)
    requires Inv(s) && i < |s.view| && size <= s.view[i].size
    requires HasSlot(s.base + Start(s.view, i), s.view[i].size, size, align)
    ensures var left, cp := Left(s, i, size, align), s.base + Start(s.view, i);
            left + size <= s.view[i].size && cp + left == AlignDown(cp + s.view[i].size - size, align)
  {
    BlockInRegion(s, i);
    LeftWithoutWrap(s.base + Start(s.view, i), s.view[i].size, size, align);
  }

  lemma ShapeWithoutLeft(v: seq<Extent>, i: nat, size: nat)
    requires 2 <= |v| && 0 < i < |v| && size <= v[i].size < WORD && !v[i].used
    requires |v| <= v[0].size / BLOCK_SIZE
    requires DescriptorsSuffice(v, i, 0, size)
    ensures SplitRight(v, i, size)
         == Carve(Shifted(v, i, Grown(v, i, 0, size)), i, false, 0, size, v[i].size - size)
  {
    var right := v[i].size - size;
    assert right % WORD == right;
    if right == 0 {
      assert v[i := Extent(size, true)] == Carve(v, i, false, 0, size, 0);
    } else {
      var u := Shifted(v, i, Grown(v, i, 0, size));
      assert Claim(v) == Some(u);
      assert u[i] == v[i];
      assert size % WORD == size;
    }
  }

  lemma ShapeOfLeft(v: seq<Extent>, i: nat, left: nat, size: nat)
    requires 2 <= |v| && 0 < i < |v| && 0 < left && left + size <= v[i].size < WORD && !v[i].used
    requires |v| <= v[0].size / BLOCK_SIZE
    requires DescriptorsSuffice(v, i, left, size)
    ensures var w := SplitLeft(v, i, left);
            var u := Shifted(v, i, v[0].size / BLOCK_SIZE <= |v|);
            && w.Some?
            && w.value == u[..i]
                          + [Extent(if v[0].size / BLOCK_SIZE <= |v| && i == 1 then left - GROWTH else left, false),
                                    Extent(v[i].size - left, true)] + u[i+1..]
  {
    assert (v[i].size - left) % WORD == v[i].size - left;
    var w := v[i := Extent(left, false)];
    if |v| < v[0].size / BLOCK_SIZE {
      assert Claim(w) == Some(w);
    } else {
      assert CanGrow(w);
    }
  }

  lemma RightShape(w: seq<Extent>, x: seq<Extent>, i: nat, l: Extent, m: nat, size: nat)
    requires 2 <= |w| && 2 <= |x| && 0 < i < |x| && size < m < WORD
    requires Claim(w) == Some(x[..i] + [l, Extent(m, true)] + x[i+1..])
    requires i + 1 < |w| && w[i+1] == Extent(m, true)
    ensures SplitRight(w, i + 1, size)
         == x[..i] + [l] + [Extent(size, true)] + [Extent(m - size, false)] + x[i+1..]
  {
    assert (m - size) % WORD == m - size && size % WORD == size;
    var u := x[..i] + [l, Extent(m, true)] + x[i+1..];
    assert u[..i+1] == x[..i] + [l];
    assert u[i+2..] == x[i+1..];
  }

  lemma ShapeWithLeft(v: seq<Extent>, i: nat, left: nat, size: nat)
    requires 2 <= |v| && 0 < i < |v| && 0 < left && left + size <= v[i].size < WORD && !v[i].used
    requires |v| <= v[0].size / BLOCK_SIZE
    requires DescriptorsSuffice(v, i, left, size)
    ensures var w := SplitLeft(v, i, left);
            var grown := Grown(v, i, left, size);
            && w.Some?
            && SplitRight(w.value, i + 1, size)
               == Carve(Shifted(v, i, grown), i, true, if grown && i == 1 then left - GROWTH else left,
                        size, v[i].size - left - size)
  {
    hide Claim, SplitLeft, SplitRight, Total, Carve, Shifted, Grown, DescriptorsSuffice;
    ShapeOfLeft(v, i, left, size);
    GrownExactly(v, i, left, size);
    var w := SplitLeft(v, i, left).value;
    var grown := Grown(v, i, left, size);
    var m := v[i].size - left;
    var x := Shifted(v, i, grown);
    var l := Extent(if grown && i == 1 then left - GROWTH else left, false);
    CarveParts(x, i, l, size, m - size);
    if m == size {
      NothingRight(w, x, i, l, m);
    } else {
      SecondClaim(v, i, left, size);
      RightShape(w, x, i, l, m, size);
    }
  }

  lemma GrownExactly(v: seq<Extent>, i: nat, left: nat, size: nat)
    requires 2 <= |v| && 0 < i < |v| && 0 < left && left + size <= v[i].size
    requires |v| <= v[0].size / BLOCK_SIZE && DescriptorsSuffice(v, i, left, size)
    ensures var grown := Grown(v, i, left, size);
            && (grown && i != 1 ==> GROWTH <= v[1].size) && |Shifted(v, i, grown)| == |v|
            && (grown && i == 1 ==> GROWTH <= left)
            && (v[i].size == left + size ==> (grown <==> v[0].size / BLOCK_SIZE <= |v|))
  {
  }

  lemma CarveParts(x: seq<Extent>, i: nat, l: Extent, size: nat, right: nat)
    requires i < |x| && !l.used
    ensures Carve(x, i, true, l.size, size, right)
         == if right == 0 then x[..i] + [l] + [Extent(size, true)] + x[i+1..]
            else x[..i] + [l] + [Extent(size, true)] + [Extent(right, false)] + x[i+1..]
  {
    assert x[..i] + [l] + [Extent(size, true)] + [] == x[..i] + [l] + [Extent(size, true)];
  }

  lemma NothingRight(w: seq<Extent>, x: seq<Extent>, i: nat, l: Extent, m: nat)
    requires 2 <= |w| && 0 < i < |x|
    requires w == x[..i] + [l, Extent(m, true)] + x[i+1..]
    ensures SplitRight(w, i + 1, m) == x[..i] + [l] + [Extent(m, true)] + x[i+1..]
  {
    hide Claim;
    assert w[i+1] == Extent(m, true);
    assert w[i+1 := Extent(m, true)] == w;
    assert x[..i] + [l] + [Extent(m, true)] == x[..i] + [l, Extent(m, true)];
  }

  lemma SecondClaim(v: seq<Extent>, i: nat, left: nat, size: nat)
    requires 2 <= |v| && 0 < i < |v| && 0 < left && left + size < v[i].size < WORD && !v[i].used
    requires |v| <= v[0].size / BLOCK_SIZE
    requires DescriptorsSuffice(v, i, left, size)
    ensures var w := SplitLeft(v, i, left);
            var grown := Grown(v, i, left, size);
            var x := Shifted(v, i, grown);
            && w.Some?
            && Claim(w.value) == Some(x[..i] + [Extent(if grown && i == 1 then left - GROWTH else left, false),
                                                Extent(v[i].size - left, true)] + x[i+1..])
  {
    ShapeOfLeft(v, i, left, size);
    var w := SplitLeft(v, i, left).value;
    var x := Shifted(v, i, Grown(v, i, left, size));
    if v[0].size / BLOCK_SIZE == |v| + 1 {
      assert CanGrow(w);
      assert Grow(w) == x[..i] + [Extent(if i == 1 then left - GROWTH else left, false),
                                  Extent(v[i].size - left, true)] + x[i+1..];
    }
  }

  ghost predicate CanPlace(v: seq<Extent>, i: nat, left: nat, size: nat) {
    && 2 <= |v| && 0 < i < |v|
    && 0 < size && left + size <= v[i].size && !v[i].used
    && |v| <= v[0].size / BLOCK_SIZE
    && DescriptorsSuffice(v, i, left, size)
  }

  /** The extents after a safe allocation. */
  ghost function Placed(v: seq<Extent>, i: nat, left: nat, size: nat): seq<Extent>
    requires CanPlace(v, i, left, size)
  {
    var grown := Grown(v, i, left, size);
    Carve(Shifted(v, i, grown), i, left != 0, if grown && i == 1 then left - GROWTH else left,
          size, v[i].size - left - size)
  }

  lemma PlaceAtShape(cp: nat, v: seq<Extent>, i: nat, left: nat, size: nat)
    requires CanPlace(v, i, left, size) && cp + v[i].size < WORD
    ensures PlaceAt(cp, v, i, left, size) == Done(Placed(v, i, left, size), cp + left)
  {
    assert (cp + left) % WORD == cp + left;
    if left == 0 {
      ShapeWithoutLeft(v, i, size);
    } else {
      ShapeWithLeft(v, i, left, size);
    }
  }

  /** A safe allocation finds a descriptor for each split. */
  lemma CanPlaceClaims(v: seq<Extent>, i: nat, left: nat, size: nat)
    requires CanPlace(v, i, left, size) && v[i].size < WORD
    ensures left == 0 ==> v[i].size == size || Claim(v).Some?
    ensures left != 0 ==> SplitLeft(v, i, left).Some?
    ensures left != 0 ==> var w := SplitLeft(v, i, left).value; w[i+1].size == size || Claim(w).Some?
  {
    if left != 0 {
      ShapeOfLeft(v, i, left, size);
      if left + size != v[i].size {
        SecondClaim(v, i, left, size);
      }
    }
  }

  // ----- What a safe allocation keeps

  lemma CarveTotal(w: seq<Extent>, i: nat, keep: bool, left: nat, size: nat, right: nat)
    requires i < |w| && (!keep ==> left == 0)
    ensures Total(Carve(w, i, keep, left, size, right)) == Total(w[..i]) + left + size + right + Total(w[i+1..])
  {
    var l := if keep then [Extent(left, false)] else [];
    var r := if right == 0 then [] else [Extent(right, false)];
    TotalConcat(w[..i] + l + [Extent(size, true)] + r, w[i+1..]);
    TotalConcat(w[..i] + l + [Extent(size, true)], r);
    TotalConcat(w[..i] + l, [Extent(size, true)]);
    TotalConcat(w[..i], l);
  }

  /** Growth moves bytes between extents 0 and 1 only, so everything behind them stays where it was. */
  lemma ShiftedStart(v: seq<Extent>, i: nat, grown: bool, k: nat)
    requires 2 <= |v| && 0 < i < |v| && k <= i
    requires grown && i != 1 ==> GROWTH <= v[1].size
    requires grown ==> k != 1
    ensures Total(Shifted(v, i, grown)[..k]) == Total(v[..k])
  {
    if grown && 2 <= k {
      var a := v[..k][0 := Extent(v[0].size + GROWTH, v[0].used)];
      assert Shifted(v, i, grown)[..k] == a[1 := Extent(v[1].size - GROWTH, v[1].used)];
      TotalUpdate(v[..k], 0, a[0]);
      TotalUpdate(a, 1, Extent(v[1].size - GROWTH, v[1].used));
    }
  }

  lemma PlacedTotal(v: seq<Extent>, i: nat, left: nat, size: nat)
    requires CanPlace(v, i, left, size)
    ensures Total(Placed(v, i, left, size)) == Total(v)
  {
    hide Total, Carve;
    var grown := Grown(v, i, left, size);
    var w := Shifted(v, i, grown);
    CarveTotal(w, i, left != 0, if grown && i == 1 then left - GROWTH else left, size, v[i].size - left - size);
    assert w[i+1..] == v[i+1..];
    TotalAround(v, i);
    if grown && i == 1 {
      TotalOfFirst(w);
      TotalOfFirst(v);
    } else {
      ShiftedStart(v, i, grown, i);
    }
  }

  lemma TotalAround(v: seq<Extent>, i: nat)
    requires i < |v|
    ensures Total(v) == Total(v[..i]) + v[i].size + Total(v[i+1..])
  {
    StartNext(v, i);
    StartFromTail(v, i + 1);
  }

  lemma TotalOfFirst(v: seq<Extent>)
    requires v != []
    ensures Total(v[..1]) == v[0].size
  {
    StartNext(v, 0);
  }

  /** The parts of the carved block. */
  lemma PlacedParts(v: seq<Extent>, i: nat, left: nat, size: nat)
    requires CanPlace(v, i, left, size)
    ensures var p := Placed(v, i, left, size);
            var l, right := if left == 0 then 0 else 1, v[i].size - left - size;
            && |p| == |v| + SplitsNeeded(v[i].size, left, size)
            && p[i+l] == Extent(size, true)
            && (left != 0 ==> !p[i].used && (i != 1 || !Grown(v, i, left, size) ==> p[i].size == left))
            && (right != 0 ==> p[i+l+1] == Extent(right, false))
            && p[0] == Extent(v[0].size + (if Grown(v, i, left, size) then GROWTH else 0), v[0].used)
  {}

  /** The extents before and behind the carved block. */
  lemma PlacedRest(v: seq<Extent>, i: nat, left: nat, size: nat, k: nat)
    requires CanPlace(v, i, left, size) && k < |v| && k != i
    ensures var p := Placed(v, i, left, size);
            && |p| == |v| + SplitsNeeded(v[i].size, left, size)
            && (k < i ==> p[k].used == v[k].used)
            && (k < i && (1 < k || (k == 1 && v[1].used)) ==> p[k] == v[k])
            && (i < k ==> p[k + |p| - |v|] == v[k])
  {}

  lemma PlacedNoAdjacentFree(v: seq<Extent>, i: nat, left: nat, size: nat)
    requires CanPlace(v, i, left, size) && NoAdjacentFree(v)
    ensures NoAdjacentFree(Placed(v, i, left, size))
  {
    PlacedParts(v, i, left, size);
    var p := Placed(v, i, left, size);
    var d := |p| - |v|;
    forall k | 0 <= k < |p| - 1
      ensures p[k].used || p[k+1].used
    {
      if i + d <= k {
        PlacedRest(v, i, left, size, k - d + 1);
        if i + d < k {
          PlacedRest(v, i, left, size, k - d);
        }
        assert v[k-d].used || v[k-d+1].used;
      } else if k < i {
        PlacedRest(v, i, left, size, k);
        if k + 1 < i {
          PlacedRest(v, i, left, size, k + 1);
        }
        assert v[k].used || v[k+1].used;
      }
    }
  }

  lemma PlacedTable(v: seq<Extent>, i: nat, left: nat, size: nat)
    requires CanPlace(v, i, left, size) && v[0].size % BLOCK_SIZE == 0
    ensures var p := Placed(v, i, left, size);
            p[0].size % BLOCK_SIZE == 0 && |p| * BLOCK_SIZE <= p[0].size
  {
    PlacedParts(v, i, left, size);
  }

  lemma PlacedPositive(v: seq<Extent>, i: nat, left: nat, size: nat, k: nat)
    requires CanPlace(v, i, left, size)
    requires forall j :: 0 <= j < |v| && j != 1 ==> v[j].size > 0
    requires k < |Placed(v, i, left, size)| && k != 1
    ensures Placed(v, i, left, size)[k].size > 0
  {
    PlacedParts(v, i, left, size);
    var d := |Placed(v, i, left, size)| - |v|;
    if i + d < k {
      PlacedRest(v, i, left, size, k - d);
    } else if k < i {
      PlacedRest(v, i, left, size, k);
    }
  }

  lemma PlacedWellFormed(v: seq<Extent>, i: nat, left: nat, size: nat, total: nat)
    requires CanPlace(v, i, left, size) && WellFormed(v, total)
    ensures WellFormed(Placed(v, i, left, size), total)
  {
    PlacedTotal(v, i, left, size);
    PlacedNoAdjacentFree(v, i, left, size);
    PlacedTable(v, i, left, size);
    var p := Placed(v, i, left, size);
    forall k | 0 <= k < |p| && k != 1
      ensures p[k].size > 0
    {
      PlacedPositive(v, i, left, size, k);
    }
    assert p[0].used by { PlacedParts(v, i, left, size); }
  }

  lemma PlacedKeepsBefore(v: seq<Extent>, i: nat, left: nat, size: nat, k: nat)
    requires CanPlace(v, i, left, size) && 1 <= k < i && v[k].used
    ensures var p := Placed(v, i, left, size);
            k < |p| && p[k] == v[k] && Start(p, k) == Start(v, k)
  {
    var grown := Grown(v, i, left, size);
    PlacedRest(v, i, left, size, k);
    assert Placed(v, i, left, size)[..k] == Shifted(v, i, grown)[..k];
    ShiftedStart(v, i, grown, k);
  }

  lemma PlacedKeepsBehind(v: seq<Extent>, i: nat, left: nat, size: nat, k: nat)
    requires CanPlace(v, i, left, size) && i < k < |v|
    ensures var p := Placed(v, i, left, size);
            |v| <= |p| && p[k + |p| - |v|] == v[k] && Start(p, k + |p| - |v|) == Start(v, k)
  {
    hide Placed;
    var p := Placed(v, i, left, size);
    PlacedTotal(v, i, left, size);
    PlacedTail(v, i, left, size, k);
    PlacedRest(v, i, left, size, k);
    StartFromTail(p, k + |p| - |v|);
    StartFromTail(v, k);
  }

  lemma StartFromTail(v: seq<Extent>, k: nat)
    requires k <= |v|
    ensures Start(v, k) == Total(v) - Total(v[k..])
  {
    TotalConcat(v[..k], v[k..]);
    assert v == v[..k] + v[k..];
  }

  /** Every used extent behind the table stays where it was and as large as it was. */
  lemma PlacedKeepsUsed(v: seq<Extent>, i: nat, left: nat, size: nat, k: nat)
    requires CanPlace(v, i, left, size) && 1 <= k < |v| && v[k].used
    ensures var p := Placed(v, i, left, size);
            var k' := if k < i then k else k + |p| - |v|;
            0 <= k' < |p| && p[k'] == v[k] && Start(p, k') == Start(v, k)
  {
    if k < i {
      PlacedKeepsBefore(v, i, left, size, k);
    } else {
      PlacedKeepsBehind(v, i, left, size, k);
    }
  }

  lemma PlacedTail(v: seq<Extent>, i: nat, left: nat, size: nat, k: nat)
    requires CanPlace(v, i, left, size) && i < k <= |v|
    ensures var p := Placed(v, i, left, size);
            |v| <= |p| && p[k + |p| - |v|..] == v[k..]
  {
    hide Total;
    PlacedParts(v, i, left, size);
    var w := Shifted(v, i, Grown(v, i, left, size));
    assert w[i+1..] == v[i+1..];
    var l := if Grown(v, i, left, size) && i == 1 then left - GROWTH else left;
    var right := v[i].size - left - size;
    SuffixOf(w[..i] + (if left != 0 then [Extent(l, false)] else []) + [Extent(size, true)]
             + (if right == 0 then [] else [Extent(right, false)]), v, i + 1, k);
  }

  lemma SuffixOf(a: seq<Extent>, v: seq<Extent>, i: nat, k: nat)
    requires i <= k <= |v|
    ensures (a + v[i..])[|a| + k - i..] == v[k..]
  {}

  /** The object starts left bytes into the chosen block, even when the table grew in between. */
  lemma PlacedObject(v: seq<Extent>, i: nat, left: nat, size: nat)
    requires CanPlace(v, i, left, size)
    ensures var p := Placed(v, i, left, size);
            var k := if left == 0 then i else i + 1;
            k < |p| && p[k] == Extent(size, true) && Start(p, k) == Start(v, i) + left
  {
    PlacedParts(v, i, left, size);
    var p := Placed(v, i, left, size);
    var grown := Grown(v, i, left, size);
    var w := Shifted(v, i, grown);
    assert p[..i] == w[..i];
    if grown && i == 1 {
      assert p[1].size == left - GROWTH;
      StartNext(p, 0);
      StartNext(p, 1);
      StartNext(v, 0);
    } else {
      ShiftedStart(v, i, grown, i);
      if left != 0 {
        StartNext(p, i);
      }
    }
  }

  // ----- alloc keeps the invariant exactly when it is safe

  lemma ChosenBlock(s: Storage, size: nat, align: nat)
    requires Inv(s) && 0 < size && Chosen(s, size, align) < |s.view|
    ensures var i := Chosen(s, size, align);
            && 0 < i && !s.view[i].used && size <= s.view[i].size
            && |s.view| <= s.view[0].size / BLOCK_SIZE
  {}

  lemma AllocIsPlaceAt(s: Storage, size: nat, align: nat)
    requires Inv(s) && 0 < size <= s.size && Chosen(s, size, align) < |s.view|
    ensures var i := Chosen(s, size, align);
            && 0 < i && size <= s.view[i].size
            && Alloc(s.base, s.size, s.view, size, align)
               == PlaceAt(s.base + Start(s.view, i), s.view, i, Left(s, i, size, align), size)
  {
    hide PlaceAt, LeftSize, Total;
    ChosenBlock(s, size, align);
  }

  lemma SafeCanPlace(s: Storage, size: nat, align: nat)
    requires Inv(s) && 0 < size <= s.size && Chosen(s, size, align) < |s.view| && AllocSafe(s, size, align)
    ensures var i := Chosen(s, size, align);
            && 0 < i && size <= s.view[i].size
            && CanPlace(s.view, i, Left(s, i, size, align), size)
  {
    ChosenBlock(s, size, align);
    SlotArithmetic(s, Chosen(s, size, align), size, align);
  }

  lemma AllocOfSafe(s: Storage, size: nat, align: nat)
    requires Inv(s) && 0 < size <= s.size && Chosen(s, size, align) < |s.view| && AllocSafe(s, size, align)
    ensures var i := Chosen(s, size, align);
            && 0 < i && size <= s.view[i].size
            && CanPlace(s.view, i, Left(s, i, size, align), size)
            && Alloc(s.base, s.size, s.view, size, align)
               == Done(Placed(s.view, i, Left(s, i, size, align), size),
                       s.base + Start(s.view, i) + Left(s, i, size, align))
  {
    hide PlaceAt, Placed, LeftSize, DescriptorsSuffice, Total, FirstFit;
    SafeCanPlace(s, size, align);
    AllocIsPlaceAt(s, size, align);
    var i := Chosen(s, size, align);
    BlockInRegion(s, i);
    PlaceAtShape(s.base + Start(s.view, i), s.view, i, Left(s, i, size, align), size);
  }

  lemma StillServed(s: Storage, t: Storage, p: nat, n: nat, i: nat, left: nat, size: nat)
    requires Served(s, p, n) && CanPlace(s.view, i, left, size)
    requires t.base == s.base && t.view == Placed(s.view, i, left, size)
    ensures Served(t, p, n)
  {
    var k: nat :| ServedBy(s, p, n, k);
    PlacedKeepsUsed(s.view, i, left, size, k);
    assert ServedBy(t, p, n, if k < i then k else k + |t.view| - |s.view|);
  }

  lemma PlacedKeepsInv(s: Storage, t: Storage, i: nat, left: nat, size: nat)
    requires Inv(s) && CanPlace(s.view, i, left, size)
    requires t == s.(view := Placed(s.view, i, left, size), live := s.live[s.base + Start(s.view, i) + left := size])
    ensures Inv(t)
  {
    hide Total, Placed, WellFormed, Grown;
    PlacedWellFormed(s.view, i, left, size, s.size);
    PlacedObject(s.view, i, left, size);
    var q := s.base + Start(s.view, i) + left;
    assert ServedBy(t, q, size, if left == 0 then i else i + 1);
    forall p | p in t.live
      ensures Served(t, p, t.live[p])
    {
      if p != q {
        StillServed(s, t, p, s.live[p], i, left, size);
      }
    }
  }

  lemma SafeAllocKeeps(s: Storage, size: nat, align: nat)
    requires Inv(s) && 0 < size && AllocSafe(s, size, align)
    ensures AfterAlloc(s, size, align).Some? && Inv(AfterAlloc(s, size, align).value)
  {
    hide Total, Placed, PlaceAt, LeftSize, HasSlot, DescriptorsSuffice;
    var i := Chosen(s, size, align);
    if size <= s.size && i < |s.view| {
      AllocOfSafe(s, size, align);
      PlacedKeepsInv(s, AfterAlloc(s, size, align).value, i, Left(s, i, size, align), size);
    }
  }

  // ----- and only when it is safe

  lemma GrowStart(v: seq<Extent>, k: nat)
    requires 2 <= k <= |v| && GROWTH <= v[1].size
    ensures Total(Grow(v)[..k]) == Total(v[..k])
  {
    var a := v[..k][0 := Extent(v[0].size + GROWTH, v[0].used)];
    assert Grow(v)[..k] == a[1 := Extent(v[1].size - GROWTH, v[1].used)];
    TotalUpdate(v[..k], 0, a[0]);
    TotalUpdate(a, 1, Extent(v[1].size - GROWTH, v[1].used));
  }

  lemma ClaimStart(v: seq<Extent>, k: nat)
    requires 2 <= k <= |v| && Claim(v).Some?
    ensures Total(Claim(v).value[..k]) == Total(v[..k])
  {
    if Claim(v).value != v {
      GrowStart(v, k);
    }
  }

  /** Without a descriptor for the right part the rest of the chain is lost. */
  lemma TruncatedTotal(w: seq<Extent>, j: nat, size: nat)
    requires 2 <= |w| && 0 < j < |w| && size < w[j].size < WORD && Claim(w).None?
    ensures Total(SplitRight(w, j, size)) == Start(w, j) + size
  {
    assert (w[j].size - size) % WORD == w[j].size - size;
    assert size % WORD == size;
    TotalConcat(w[..j], [Extent(size, true)]);
  }

  lemma ClaimTotal(v: seq<Extent>)
    requires 2 <= |v| && Claim(v).Some?
    ensures Total(Claim(v).value) == Total(v)
  {
    ClaimStart(v, |v|);
    assert Claim(v).value[..|v|] == Claim(v).value && v[..|v|] == v;
  }

  lemma SplitRightShape(w: seq<Extent>, j: nat, size: nat)
    requires 2 <= j < |w| && size < w[j].size < WORD && Claim(w).Some?
    ensures var u := Claim(w).value;
            SplitRight(w, j, size) == u[..j] + [Extent(size, true), Extent(w[j].size - size, false)] + u[j+1..]
  {
    assert (w[j].size - size) % WORD == w[j].size - size && size % WORD == size;
  }

  lemma SplitRightTotal(w: seq<Extent>, j: nat, size: nat)
    requires 2 <= j < |w| && size < w[j].size < WORD && Claim(w).Some?
    ensures Total(SplitRight(w, j, size)) == Total(w)
  {
    var u := Claim(w).value;
    ClaimTotal(w);
    SplitRightShape(w, j, size);
    SpliceInTwo(u, j, Extent(size, true), Extent(w[j].size - size, false));
  }

  lemma SpliceInTwo(u: seq<Extent>, j: nat, a: Extent, b: Extent)
    requires j < |u| && a.size + b.size == u[j].size
    ensures Total(u[..j] + [a, b] + u[j+1..]) == Total(u)
  {
    TotalOfPair(a, b);
    TotalSplice(u, j, [a, b]);
  }

  /** The left split of a block, whatever left is: the prefix up to the left part and the total. */
  lemma SplitLeftTotals(v: seq<Extent>, i: nat, left: nat)
    requires 2 <= |v| && 0 < i < |v| && SplitLeft(v, i, left).Some?
    ensures var w := SplitLeft(v, i, left).value;
            && |w| == |v| + 1
            && w[i+1] == Extent((v[i].size - left) % WORD, true)
            && Start(w, i + 1) == Start(v, i) + left
            && Total(w) == Total(v) - v[i].size + left + (v[i].size - left) % WORD
  {
    var x := v[i := Extent(left, false)];
    var u := Claim(x).value;
    var w := SplitLeft(v, i, left).value;
    assert w[..i+1] == u[..i+1];
    ClaimStart(x, i + 1);
    StartNext(x, i);
    assert x[..i] == v[..i];
    ClaimTotal(x);
    TotalUpdate(v, i, Extent(left, false));
    InsertTotal(u, i + 1, w[i+1]);
  }

  lemma InsertTotal(u: seq<Extent>, j: nat, e: Extent)
    requires j <= |u|
    ensures Total(u[..j] + [e] + u[j..]) == Total(u) + e.size
  {
    TotalOfThree(u[..j], [e], u[j..]);
    TotalOfThree(u[..j], [], u[j..]);
    assert u == u[..j] + [] + u[j..];
  }

  lemma TotalOfThree(a: seq<Extent>, b: seq<Extent>, c: seq<Extent>)
    ensures Total(a + b + c) == Total(a) + Total(b) + Total(c)
  {
    TotalConcat(a + b, c);
    TotalConcat(a, b);
  }

  lemma WithoutSlotWraps(cp: nat, bs: nat, size: nat, align: nat)
    requires size <= bs && cp + bs < WORD && !HasSlot(cp, bs, size, align)
    ensures var left := LeftSize(cp, bs, size, align);
            var a := AlignDown(cp + bs - size, align);
            a < cp && left == WORD - (cp - a) && (bs - left) % WORD == bs + (cp - a)
  {
    HasSlotExactly(cp, bs, size, align);
    var a := AlignDown(cp + bs - size, align);
    var d := a - cp;
    assert d % WORD == d + WORD;
    var m := bs + (cp - a);
    assert (m - WORD) % WORD == m;
  }

  /** A block without an aligned slot that passes the test gets a left part of almost 2^64 bytes. */
  lemma WithoutSlotBreaks(cp: nat, v: seq<Extent>, i: nat, size: nat, align: nat, base: nat, total: nat)
    requires WellFormed(v, total) && base + total < WORD && 0 < i < |v| && 0 < size <= v[i].size
    requires cp == base + Start(v, i) && cp + v[i].size <= base + total
    requires !HasSlot(cp, v[i].size, size, align)
    ensures var o := PlaceAt(cp, v, i, LeftSize(cp, v[i].size, size, align), size);
            o.Fault? || (o.Done? && Total(o.view) > total)
  {
    var left := LeftSize(cp, v[i].size, size, align);
    WithoutSlotWraps(cp, v[i].size, size, align);
    if SplitLeft(v, i, left).Some? {
      SplitLeftTotals(v, i, left);
      var w := SplitLeft(v, i, left).value;
      if Claim(w).None? {
        TruncatedTotal(w, i + 1, size);
      } else {
        SplitRightTotal(w, i + 1, size);
      }
    }
  }

  lemma NoDescriptorBreaks(cp: nat, v: seq<Extent>, i: nat, left: nat, size: nat, total: nat)
    requires WellFormed(v, total) && 0 < i < |v| && 0 < size && left + size <= v[i].size < WORD && !v[i].used
    requires !DescriptorsSuffice(v, i, left, size)
    requires !(i == 1 && left == 0 && CanGrow(v))
    ensures var o := PlaceAt(cp, v, i, left, size);
            o.Fault? || (o.Done? && Total(o.view) < total)
  {
    StartNext(v, i);
    StartMonotone(v, i + 1, |v|);
    if left == 0 {
      TruncatedTotal(v, i, size);
    } else if SplitLeft(v, i, left).Some? {
      SplitLeftTotals(v, i, left);
      var w := SplitLeft(v, i, left).value;
      assert (v[i].size - left) % WORD == v[i].size - left;
      TruncatedTotal(w, i + 1, size);
    }
  }

  /** Growing the table while heap[1] itself is handed out from its first byte moves heap[1] away
      from the address that alloc returns. */
  lemma GrowthUnderObject(s: Storage, t: Storage, size: nat)
    requires Inv(s) && CanGrow(s.view) && |s.view| == s.view[0].size / BLOCK_SIZE
    requires 0 < size < s.view[1].size < WORD
    requires t.base == s.base
    requires Done(t.view, s.base + Start(s.view, 1)) == PlaceAt(s.base + Start(s.view, 1), s.view, 1, 0, size)
    ensures !Served(t, s.base + Start(s.view, 1), size)
  {
    assert (s.view[1].size - size) % WORD == s.view[1].size - size;
    assert t.view[..1] == Grow(s.view)[..1];
    StartNext(s.view, 0);
    StartNext(t.view, 0);
    if Served(t, s.base + Start(s.view, 1), size) {
      var k: nat :| ServedBy(t, s.base + Start(s.view, 1), size, k);
      StartMonotone(t.view, 1, k);
    }
  }

  lemma UnsafeAllocBreaks(s: Storage, size: nat, align: nat)
    requires Inv(s) && 0 < size && !AllocSafe(s, size, align)
    ensures AfterAlloc(s, size, align).Some? ==> !Inv(AfterAlloc(s, size, align).value)
  {
    hide Total, PlaceAt;
    ChosenBlock(s, size, align);
    AllocIsPlaceAt(s, size, align);
    var i := Chosen(s, size, align);
    if !HasSlot(s.base + Start(s.view, i), s.view[i].size, size, align) {
      SlotShortageBreaks(s, size, align, i);
    } else {
      SlotArithmetic(s, i, size, align);
      DescriptorShortageBreaks(s, size, align, i, Left(s, i, size, align));
    }
  }

  lemma SlotShortageBreaks(s: Storage, size: nat, align: nat, i: nat)
    requires Inv(s) && 0 < i < |s.view| && 0 < size <= s.view[i].size
    requires !HasSlot(s.base + Start(s.view, i), s.view[i].size, size, align)
    requires Alloc(s.base, s.size, s.view, size, align)
          == PlaceAt(s.base + Start(s.view, i), s.view, i, Left(s, i, size, align), size)
    ensures AfterAlloc(s, size, align).Some? ==> !Inv(AfterAlloc(s, size, align).value)
  {
    hide PlaceAt, LeftSize, HasSlot, FirstFit;
    BlockInRegion(s, i);
    WithoutSlotBreaks(s.base + Start(s.view, i), s.view, i, size, align, s.base, s.size);
  }

  lemma DescriptorShortageBreaks(s: Storage, size: nat, align: nat, i: nat, left: nat)
    requires Inv(s) && 0 < i < |s.view| && 0 < size && left + size <= s.view[i].size && !s.view[i].used
    requires !DescriptorsSuffice(s.view, i, left, size)
    requires Alloc(s.base, s.size, s.view, size, align) == PlaceAt(s.base + Start(s.view, i), s.view, i, left, size)
    ensures AfterAlloc(s, size, align).Some? ==> !Inv(AfterAlloc(s, size, align).value)
  {
    hide Total;
    BlockInRegion(s, i);
    if i == 1 && left == 0 && CanGrow(s.view) {
      var t := AfterAlloc(s, size, align).value;
      GrowthUnderObject(s, t, size);
      assert s.base + Start(s.view, 1) in t.live;
    } else {
      NoDescriptorBreaks(s.base + Start(s.view, i), s.view, i, left, size, s.size);
    }
  }

  /** alloc keeps the invariant exactly when the chosen block has an aligned slot and descriptors suffice. */
  lemma AllocKeepsExactly(s: Storage, size: nat, align: nat)
    requires Inv(s) && 0 < size
    ensures (AfterAlloc(s, size, align).Some? && Inv(AfterAlloc(s, size, align).value)) <==> AllocSafe(s, size, align)
  {
    if AllocSafe(s, size, align) {
      SafeAllocKeeps(s, size, align);
    } else {
      UnsafeAllocBreaks(s, size, align);
    }
  }

  // ----- First calls on a new region that break it

  lemma NewRegionChooses(base: nat, size: nat, align: nat)
    requires base + 8192 < WORD && 0 < size <= 8144
    requires Fits(base + 48, Extent(8144, false), size, align)
    ensures var v := [Extent(48, true), Extent(8144, false)];
            && CreateView(8192) == v && FirstFit(base, v, size, align, 0) == 1
            && Alloc(base, 8192, v, size, align)
               == PlaceAt(base + 48, v, 1, LeftSize(base + 48, 8144, size, align), size)
  {
    var v := [Extent(48, true), Extent(8144, false)];
    StartNext(v, 0);
    assert !Fits(base + Start(v, 0), v[0], size, align);
    assert FirstFit(base, v, size, align, 0) == FirstFit(base, v, size, align, 1);
  }

  /** On a new region of 8192 bytes at a page boundary, a first request of 5000 bytes at a page boundary
      passes the fit test although the region has no aligned slot for it: the address returned is that of
      the descriptor table itself. */
  lemma FirstAllocReturnsTable(base: nat)
    requires base % 4096 == 0 && base + 8192 < WORD
    ensures var s := Storage(base, 8192, CreateView(8192), map[]);
            && Inv(s) && !AllocSafe(s, 5000, 4096)
            && Alloc(base, 8192, s.view, 5000, 4096)
               == Done([Extent(816, true), Extent(WORD - 816, false), Extent(5000, true), Extent(3192, false)], base)
            && !Inv(AfterAlloc(s, 5000, 4096).value)
  {
    hide LeftSize, HasSlot, Inv, PlaceAt, AllocSafe, Chosen, AlignDown;
    var s := Storage(base, 8192, CreateView(8192), map[]);
    CreateWellFormedExactly(base, 8192);
    FirstAtPage(base);
    NewRegionChooses(base, 5000, 4096);
    TableSlot(base);
    TableReturned(base + 48);
    WithoutTableSlot(s);
    AllocKeepsExactly(s, 5000, 4096);
  }

  lemma FirstAtPage(base: nat)
    requires base % 4096 == 0 && base < WORD
    ensures Fits(base + 48, Extent(8144, false), 5000, 4096)
    ensures (base + 48 + (WORD - 48)) % WORD == base
  {
    assert (base + 48) % 4096 == 48;
  }

  lemma TableSlot(base: nat)
    requires base % 4096 == 0
    ensures AlignDown(base + 48 + 8144 - 5000, 4096) == base
    ensures LeftSize(base + 48, 8144, 5000, 4096) == WORD - 48
    ensures !HasSlot(base + 48, 8144, 5000, 4096)
  {
    assert (base + 3192) % 4096 == 3192;
    HasSlotExactly(base + 48, 8144, 5000, 4096);
    assert (-48) % WORD == WORD - 48;
  }

  lemma WithoutTableSlot(s: Storage)
    requires s.base % 4096 == 0 && Inv(s) && s.size == 8192
    requires s.view == [Extent(48, true), Extent(8144, false)] && FirstFit(s.base, s.view, 5000, 4096, 0) == 1
    ensures !AllocSafe(s, 5000, 4096)
  {
    TableSlot(s.base);
    hide LeftSize, HasSlot, FirstFit, AlignDown;
    StartNext(s.view, 0);
    assert Start(s.view, 1) == 48;
  }

  lemma TableReturned(cp: nat)
    ensures PlaceAt(cp, [Extent(48, true), Extent(8144, false)], 1, WORD - 48, 5000)
         == Done([Extent(816, true), Extent(WORD - 816, false), Extent(5000, true), Extent(3192, false)],
                 (cp + (WORD - 48)) % WORD)
  {
    var v := [Extent(48, true), Extent(8144, false)];
    var w := v[1 := Extent(WORD - 48, false)];
    var u := [Extent(816, true), Extent(WORD - 816, false)];
    assert Claim(w) == Some(Grow(w)) && Grow(w) == u;
    var x := [Extent(816, true), Extent(WORD - 816, false), Extent(8192, true)];
    assert (8144 - (WORD - 48)) % WORD == 8192;
    assert u[..2] + [Extent(8192, true)] + u[2..] == x;
    assert SplitLeft(v, 1, WORD - 48) == Some(x);
    assert Claim(x) == Some(x);
    assert SplitRight(x, 2, 5000) == x[..2] + [Extent(5000, true), Extent(3192, false)];
  }

  /** On a new region of 8192 bytes at a multiple of 16, a first request of 8136 bytes at a multiple of 16
      is served from the first byte behind the table; the descriptor for the 8 bytes left makes the table
      grow over the object. */
  lemma FirstAllocUnderTable(base: nat)
    requires base % 16 == 0 && base + 8192 < WORD
    ensures var s := Storage(base, 8192, CreateView(8192), map[]);
            && Inv(s) && !AllocSafe(s, 8136, 16)
            && Alloc(base, 8192, s.view, 8136, 16)
               == Done([Extent(816, true), Extent(7368, true), Extent(8, false)], base + 48)
            && !Inv(AfterAlloc(s, 8136, 16).value)
  {
    hide LeftSize, Inv, PlaceAt, AllocSafe, Chosen;
    var s := Storage(base, 8192, CreateView(8192), map[]);
    CreateWellFormedExactly(base, 8192);
    FirstAtSixteen(base);
    NewRegionChooses(base, 8136, 16);
    GrownOverObject(base + 48);
    WithoutDescriptor(s);
    AllocKeepsExactly(s, 8136, 16);
  }

  lemma FirstAtSixteen(base: nat)
    requires base % 16 == 0
    ensures (base + 48) % 16 == 0 && Fits(base + 48, Extent(8144, false), 8136, 16)
    ensures AlignDown(base + 48 + 8144 - 8136, 16) == base + 48
    ensures LeftSize(base + 48, 8144, 8136, 16) == 0
  {
    assert (base + 56) % 16 == 8;
  }

  lemma WithoutDescriptor(s: Storage)
    requires s.base % 16 == 0 && Inv(s) && s.size == 8192
    requires s.view == [Extent(48, true), Extent(8144, false)] && FirstFit(s.base, s.view, 8136, 16, 0) == 1
    ensures !AllocSafe(s, 8136, 16)
  {
    FirstAtSixteen(s.base);
    hide LeftSize, FirstFit;
    StartNext(s.view, 0);
    assert Start(s.view, 1) == 48;
  }

  lemma GrownOverObject(cp: nat)
    ensures PlaceAt(cp, [Extent(48, true), Extent(8144, false)], 1, 0, 8136)
         == Done([Extent(816, true), Extent(7368, true), Extent(8, false)], cp)
  {
    var v := [Extent(48, true), Extent(8144, false)];
    var u := [Extent(816, true), Extent(7376, false)];
    assert Claim(v) == Some(Grow(v)) && Grow(v) == u;
    assert SplitRight(v, 1, 8136) == u[..1] + [Extent(7368, true), Extent(8, false)];
  }

  // ----- Where alloc puts the object, and when it gives up

  /** alloc returns nullptr exactly when no block passes the test, or the region is too small. */
  lemma AllocNullExactly(s: Storage, size: nat, align: nat)
    requires Inv(s) && 0 < size
    ensures Alloc(s.base, s.size, s.view, size, align).Null?
       <==> (size > s.size
             || forall k :: 0 <= k < |s.view| ==> !Fits(s.base + Start(s.view, k), s.view[k], size, align))
  {
    var i := Chosen(s, size, align);
    if size <= s.size && i < |s.view| {
      AllocIsPlaceAt(s, size, align);
      assert Fits(s.base + Start(s.view, i), s.view[i], size, align);
    }
  }

  /** A safe allocation lies in the first block that passes the test, at the highest aligned address
      the block has room for, so that less than one alignment unit is left behind it. */
  lemma AllocHighestAligned(s: Storage, size: nat, align: nat)
    requires Inv(s) && 0 < size <= s.size && Chosen(s, size, align) < |s.view| && AllocSafe(s, size, align)
    ensures var o := Alloc(s.base, s.size, s.view, size, align);
            var i := Chosen(s, size, align);
            && o.Done? && i < |s.view|
            && (forall k :: 0 <= k < i ==> !Fits(s.base + Start(s.view, k), s.view[k], size, align))
            && var cp, end := s.base + Start(s.view, i), s.base + Start(s.view, i) + s.view[i].size;
            && cp <= o.ptr && o.ptr + size <= end
            && HighestBelow(o.ptr, size, end, align)
            && end - (o.ptr + size) < (if align == 0 then 1 else align)
  {
    hide Total, Placed, PlaceAt, AlignDown, LeftSize, HasSlot, DescriptorsSuffice, CanPlace;
    hide HighestBelow, FirstFit, Fits;
    var i := Chosen(s, size, align);
    AllocOfSafe(s, size, align);
    SlotArithmetic(s, i, size, align);
    AlignDownHighest(s.base + Start(s.view, i) + s.view[i].size, size, align);
  }

  /** p is aligned, and no aligned object of that size that ends by end starts higher. */
  ghost predicate HighestBelow(p: nat, size: nat, end: nat, align: nat) {
    AlignedTo(p, align) && forall q: nat :: AlignedTo(q, align) && q + size <= end ==> q <= p
  }

  lemma AlignDownHighest(end: nat, size: nat, align: nat)
    requires size <= end
    ensures var p := AlignDown(end - size, align);
            p + size <= end && HighestBelow(p, size, end, align)
            && end - (p + size) < (if align == 0 then 1 else align)
  {
    AlignDownAligned(end - size, align);
    forall q: nat | AlignedTo(q, align) && q + size <= end
      ensures q <= AlignDown(end - size, align)
    {
      AlignDownIsHighest(end - size, align, q);
    }
  }

  // ----- What free keeps

  lemma {:induction false} AbsorbTotal(s: seq<Extent>)
    requires s != []
    ensures Total(Absorb(s)) == Total(s)
    ensures 1 <= |Absorb(s)| <= |s|
    ensures Absorb(s)[0].used == s[0].used && s[0].size <= Absorb(s)[0].size
  {
    if |s| > 1 && !s[1].used {
      assert s[1..][1..] == s[2..];
      if |s| > 2 {
        AbsorbTotal(s[2..]);
      }
      var m := Extent(s[0].size + s[1].size, s[0].used);
      TotalConcat([m], if |s| == 2 then [] else Absorb(s[2..]));
    }
  }

  lemma {:induction false} AbsorbNoAdjacentFree(s: seq<Extent>)
    requires s != [] && NoAdjacentFree(s[1..])
    ensures NoAdjacentFree(Absorb(s))
    decreases |s|
  {
    if |s| == 1 || s[1].used {
      forall k | 0 <= k < |s| - 1
        ensures s[k].used || s[k+1].used
      {
        if k > 0 {
          assert s[1..][k-1].used || s[1..][k].used;
        }
      }
    } else if |s| > 2 {
      assert s[1..][0].used || s[1..][1].used;
      forall k | 0 <= k < |s[2..][1..]| - 1
        ensures s[2..][1..][k].used || s[2..][1..][k+1].used
      {
        assert s[1..][k+2].used || s[1..][k+3].used;
      }
      AbsorbNoAdjacentFree(s[2..]);
      AbsorbTotal(s[2..]);
      var r := Absorb(s[2..]);
      forall k | 0 <= k < |Absorb(s)| - 1
        ensures Absorb(s)[k].used || Absorb(s)[k+1].used
      {
        if k > 0 {
          assert r[k-1].used || r[k].used;
        }
      }
    }
  }

  lemma {:induction false} AbsorbPositive(s: seq<Extent>)
    requires s != [] && forall k :: 1 <= k < |s| ==> s[k].size > 0
    ensures forall k :: 1 <= k < |Absorb(s)| ==> Absorb(s)[k].size > 0
    decreases |s|
  {
    if |s| > 2 && !s[1].used {
      assert forall k :: 1 <= k < |s[2..]| ==> s[2..][k] == s[k+2];
      AbsorbPositive(s[2..]);
      AbsorbTotal(s[2..]);
    }
  }

  /** A used extent is never absorbed: it keeps its place, and its size at least. */
  lemma {:induction false} AbsorbKeepsUsed(s: seq<Extent>, k: nat) returns (k': nat)
    requires k < |s| && s[k].used
    ensures k' <= k && k' < |Absorb(s)|
    ensures Absorb(s)[k'].used && s[k].size <= Absorb(s)[k'].size
    ensures Start(Absorb(s), k') == Start(s, k)
    ensures k' == 0 <==> k == 0
    decreases |s|
  {
    if |s| == 1 || s[1].used {
      k' := k;
    } else if k == 0 {
      k' := 0;
    } else {
      var j := AbsorbKeepsUsed(s[2..], k - 2);
      k' := j + 1;
      StartBehind([Extent(s[0].size + s[1].size, s[0].used)], Absorb(s[2..]), j);
      StartBehind([s[0], s[1]], s[2..], k - 2);
      TotalOfPair(s[0], s[1]);
      assert s == [s[0], s[1]] + s[2..];
    }
  }

  /** The freed block: i with its neighbours, and no other pair of free neighbours around it. */
  ghost predicate FreeableAt(w: seq<Extent>, i: nat) {
    && 0 < i < |w| && w[0].used && !w[i].used
    && (forall k :: 0 <= k < |w| - 1 && k != i && k + 1 != i ==> w[k].used || w[k+1].used)
  }

  lemma MergeBackTotal(w: seq<Extent>, i: nat)
    requires i < |w|
    ensures var (m, b) := MergeBack(w, i);
            b < |m| && Total(m) == Total(w) && |m| <= |w| && b <= i
  {
    if i > 0 && !w[i-1].used {
      PairTotal(w, i);
    }
  }

  lemma PairTotal(w: seq<Extent>, i: nat)
    requires 0 < i < |w|
    ensures Total(w[..i-1] + [Extent(w[i-1].size + w[i].size, false)] + w[i+1..]) == Total(w)
  {
    var e := Extent(w[i-1].size + w[i].size, false);
    TotalOfThree(w[..i-1], [e], w[i+1..]);
    StartNext(w, i - 1);
    StartNext(w, i);
    StartFromTail(w, i + 1);
  }

  lemma MergeBackShape(w: seq<Extent>, i: nat)
    requires FreeableAt(w, i)
    ensures var (m, b) := MergeBack(w, i);
            && 0 < b < |m| && !m[b].used && m[0].used && m[0] == w[0]
            && m[b-1].used
            && (forall k :: 0 <= k < |m| - 1 && k != b ==> m[k].used || m[k+1].used)
  {
    var (m, b) := MergeBack(w, i);
    if b < i {
      assert i == 1 || w[i-2].used;
      forall k | 0 <= k < |m| - 1 && k != b
        ensures m[k].used || m[k+1].used
      {
        if k < b {
          assert w[k].used || w[k+1].used;
        } else {
          assert w[k+1].used || w[k+2].used;
        }
      }
    } else {
      assert m == w;
    }
  }

  lemma MergeTotal(w: seq<Extent>, i: nat)
    requires i < |w|
    ensures Total(Merge(w, i)) == Total(w) && 1 <= |Merge(w, i)| <= |w|
  {
    MergeBackTotal(w, i);
    var (m, b) := MergeBack(w, i);
    AbsorbTotal(m[b..]);
    TotalConcat(m[..b], Absorb(m[b..]));
    TotalConcat(m[..b], m[b..]);
    assert m == m[..b] + m[b..];
  }

  lemma MergeNoAdjacentFree(w: seq<Extent>, i: nat)
    requires FreeableAt(w, i)
    ensures NoAdjacentFree(Merge(w, i))
  {
    MergeBackShape(w, i);
    var (m, b) := MergeBack(w, i);
    var t := m[b..];
    forall k | 0 <= k < |t[1..]| - 1
      ensures t[1..][k].used || t[1..][k+1].used
    {
      assert m[b+1+k].used || m[b+2+k].used;
    }
    AbsorbNoAdjacentFree(t);
    var a := Absorb(t);
    var r := Merge(w, i);
    forall k | 0 <= k < |r| - 1
      ensures r[k].used || r[k+1].used
    {
      if k + 1 < b {
        assert m[k].used || m[k+1].used;
      } else if b <= k {
        assert a[k-b].used || a[k-b+1].used;
      }
    }
  }

  lemma MergePositive(w: seq<Extent>, i: nat)
    requires FreeableAt(w, i)
    requires forall k :: 0 <= k < |w| && k != 1 ==> w[k].size > 0
    ensures forall k :: 0 <= k < |Merge(w, i)| && k != 1 ==> Merge(w, i)[k].size > 0
  {
    MergeBackShape(w, i);
    var (m, b) := MergeBack(w, i);
    forall k | 0 <= k < |m| && k != 1
      ensures m[k].size > 0
    {
      if b < i && b < k {
        assert m[k] == w[k+1];
      }
    }
    AbsorbPositive(m[b..]);
    AbsorbTotal(m[b..]);
  }

  lemma MergeBackKeepsUsed(w: seq<Extent>, i: nat, k: nat)
    requires i < |w| && k < |w| && w[k].used && k != i
    ensures var (m, b) := MergeBack(w, i);
            var k' := if k < i || b == i then k else k - 1;
            && k' < |m| && m[k'] == w[k] && Start(m, k') == Start(w, k)
            && k' != b && (k < i <==> k' < b)
  {
    var (m, b) := MergeBack(w, i);
    if b < i {
      if k < i {
        assert m[..k] == w[..k];
      } else {
        MergeBackTotal(w, i);
        assert m[k-1..] == w[k..];
        StartFromTail(m, k - 1);
        StartFromTail(w, k);
      }
    }
  }

  lemma MergeKeepsUsed(w: seq<Extent>, i: nat, k: nat) returns (k': nat)
    requires i < |w| && k < |w| && w[k].used && k != i
    ensures k' < |Merge(w, i)| && Merge(w, i)[k'].used && w[k].size <= Merge(w, i)[k'].size
    ensures Start(Merge(w, i), k') == Start(w, k)
    ensures k < i ==> k' == k
    ensures k > i ==> k' > 0
  {
    hide Absorb, MergeBack, Total;
    MergeBackKeepsUsed(w, i, k);
    MergeBackTotal(w, i);
    var (m, b) := MergeBack(w, i);
    AbsorbTotal(m[b..]);
    if k < i {
      k' := k;
      assert Merge(w, i)[..k] == m[..k];
    } else {
      var l := if b == i then k else k - 1;
      var j := AbsorbKeepsUsed(m[b..], l - b);
      k' := b + j;
      StartBehind(m[..b], Absorb(m[b..]), j);
      StartBehind(m[..b], m[b..], l - b);
      assert m == m[..b] + m[b..];
    }
  }

  // ----- free keeps the invariant exactly when it does not hit the table

  /** The state after free. A pointer one past the region passes the range test but lies in no block. */
  function AfterFree(s: Storage, ptr: nat): Storage {
    if ptr < s.base || s.base + s.size < ptr then s
    else
      var i := Locate(s.view, ptr - s.base, 0);
      s.(view := Free(s.view, ptr - s.base),
         live := if i == |s.view| then s.live else s.live - {s.base + Start(s.view, i)})
  }

  /** Some block of the region holds the byte at ptr. */
  predicate HoldsByte(s: Storage, ptr: nat) {
    s.base <= ptr <= s.base + s.size && Locate(s.view, ptr - s.base, 0) < |s.view|
  }

  predicate HitsTable(s: Storage, ptr: nat)
    requires s.view != []
  {
    s.base <= ptr < s.base + s.view[0].size
  }

  /** A byte that no block up to k holds lies behind those blocks. */
  lemma {:induction false} BehindBlocks(v: seq<Extent>, off: nat, k: nat)
    requires k <= |v| && forall j :: 0 <= j < k ==> !(Start(v, j) <= off < Start(v, j) + v[j].size)
    ensures Start(v, k) <= off
    decreases k
  {
    hide Start;
    if k == 0 {
      StartOfFirst(v);
    } else {
      BehindBlocks(v, off, k - 1);
      StartNext(v, k - 1);
    }
  }

  /** free finds a block for an address exactly when the address lies in the region. */
  lemma HoldsByteExactly(s: Storage, ptr: nat)
    requires Inv(s)
    ensures HoldsByte(s, ptr) <==> s.base <= ptr < s.base + s.size
  {
    if s.base <= ptr <= s.base + s.size {
      var off := ptr - s.base;
      var i := Locate(s.view, off, 0);
      assert s.view[..|s.view|] == s.view;
      if i == |s.view| {
        BehindBlocks(s.view, off, i);
      } else {
        StartNext(s.view, i);
        StartMonotone(s.view, i + 1, |s.view|);
      }
    }
  }

  lemma LocateFirst(v: seq<Extent>, off: nat)
    requires v != []
    ensures Locate(v, off, 0) == 0 <==> off < v[0].size
  {}

  lemma FreeWellFormed(v: seq<Extent>, i: nat, total: nat)
    requires WellFormed(v, total) && 0 < i < |v|
    ensures WellFormed(Merge(v[i := Extent(v[i].size, false)], i), total)
  {
    var w := v[i := Extent(v[i].size, false)];
    TotalUpdate(v, i, w[i]);
    forall k | 0 <= k < |w| - 1 && k != i && k + 1 != i
      ensures w[k].used || w[k+1].used
    {
      assert v[k].used || v[k+1].used;
    }
    MergeTotal(w, i);
    MergeNoAdjacentFree(w, i);
    MergePositive(w, i);
    MergeBackShape(w, i);
    var (m, b) := MergeBack(w, i);
    AbsorbTotal(m[b..]);
  }

  lemma FreeKeepsServed(s: Storage, t: Storage, i: nat, p: nat, n: nat)
    requires Served(s, p, n) && 0 < i < |s.view| && p != s.base + Start(s.view, i)
    requires t.base == s.base && t.view == Merge(s.view[i := Extent(s.view[i].size, false)], i)
    ensures Served(t, p, n)
  {
    var w := s.view[i := Extent(s.view[i].size, false)];
    var k: nat :| ServedBy(s, p, n, k);
    if i < k {
      assert w[..k] == s.view[..k][i := w[i]];
      TotalUpdate(s.view[..k], i, w[i]);
    } else {
      assert w[..k] == s.view[..k];
    }
    var k' := MergeKeepsUsed(w, i, k);
    assert ServedBy(t, p, n, k');
  }

  lemma FreeOfTableBreaks(s: Storage, ptr: nat)
    requires Inv(s) && HitsTable(s, ptr)
    ensures !Inv(AfterFree(s, ptr))
  {
    StartNext(s.view, 0);
    StartMonotone(s.view, 1, |s.view|);
    LocateFirst(s.view, ptr - s.base);
    var w := s.view[0 := Extent(s.view[0].size, false)];
    assert w[0..] == w;
    AbsorbTotal(w);
    assert AfterFree(s, ptr).view == [] + Absorb(w);
  }

  lemma FreeOfBlockKeeps(s: Storage, t: Storage, i: nat)
    requires Inv(s) && 0 < i < |s.view|
    requires t == s.(view := Merge(s.view[i := Extent(s.view[i].size, false)], i),
                     live := s.live - {s.base + Start(s.view, i)})
    ensures Inv(t)
  {
    FreeWellFormed(s.view, i, s.size);
    forall p | p in t.live
      ensures Served(t, p, t.live[p])
    {
      FreeKeepsServed(s, t, i, p, s.live[p]);
    }
  }

  lemma FreeOutsideTableKeeps(s: Storage, ptr: nat)
    requires Inv(s) && !HitsTable(s, ptr)
    ensures Inv(AfterFree(s, ptr))
  {
    hide Total, Merge;
    if s.base <= ptr <= s.base + s.size {
      var i := Locate(s.view, ptr - s.base, 0);
      LocateFirst(s.view, ptr - s.base);
      if i < |s.view| {
        FreeOfBlockKeeps(s, AfterFree(s, ptr), i);
      }
    }
  }

  lemma FreeKeepsExactly(s: Storage, ptr: nat)
    requires Inv(s)
    ensures Inv(AfterFree(s, ptr)) <==> !HitsTable(s, ptr)
  {
    if HitsTable(s, ptr) {
      FreeOfTableBreaks(s, ptr);
    } else {
      FreeOutsideTableKeeps(s, ptr);
    }
  }

  lemma MergeOfSeparated(v: seq<Extent>, i: nat)
    requires 0 < i < |v| && v[i-1].used && (i + 1 < |v| ==> v[i+1].used)
    ensures Merge(v, i) == v
  {
    assert v == v[..i] + v[i..];
    assert Absorb(v[i..]) == v[i..];
  }

  lemma FreeOfFreeBlock(v: seq<Extent>, off: nat, total: nat)
    requires WellFormed(v, total)
    requires var i := Locate(v, off, 0); i < |v| && !v[i].used
    ensures Free(v, off) == v
  {
    var i := Locate(v, off, 0);
    assert v[i := Extent(v[i].size, false)] == v;
    assert v[i-1].used;
    assert i + 1 < |v| ==> v[i+1].used;
    MergeOfSeparated(v, i);
  }

  lemma RemoveAbsent<K, V>(m: map<K, V>, k: K)
    requires k !in m
    ensures m - {k} == m
  {}

  /** Freeing a byte of a block that is already free changes nothing. */
  lemma DoubleFreeIsHarmless(s: Storage, ptr: nat, i: nat)
    requires Inv(s) && s.base <= ptr < s.base + s.size
    requires i == Locate(s.view, ptr - s.base, 0) && i < |s.view| && !s.view[i].used
    ensures AfterFree(s, ptr) == s
  {
    FreeOfFreeBlock(s.view, ptr - s.base, s.size);
    FreeBlockNotLive(s, i);
    NothingFreed(s, ptr, i);
  }

  lemma NothingFreed(s: Storage, ptr: nat, i: nat)
    requires s.base <= ptr && i == Locate(s.view, ptr - s.base, 0) && i < |s.view|
    requires Free(s.view, ptr - s.base) == s.view && s.base + Start(s.view, i) !in s.live
    ensures AfterFree(s, ptr) == s
  {
    hide Locate, Merge, Total;
    RemoveAbsent(s.live, s.base + Start(s.view, i));
  }

  lemma FreeBlockNotLive(s: Storage, i: nat)
    requires Inv(s) && i < |s.view| && !s.view[i].used && 0 < s.view[i].size
    ensures s.base + Start(s.view, i) !in s.live
  {
    var p := s.base + Start(s.view, i);
    if p in s.live {
      var k: nat :| ServedBy(s, p, s.live[p], k);
      BlocksApart(s.view, i, k);
    }
  }

  // ----- Live allocations

  lemma BlocksApart(v: seq<Extent>, i: nat, k: nat)
    requires i < |v| && k < |v| && i != k
    ensures Start(v, i) + v[i].size <= Start(v, k) || Start(v, k) + v[k].size <= Start(v, i)
  {
    StartNext(v, i);
    StartNext(v, k);
    if i < k {
      StartMonotone(v, i + 1, k);
    } else {
      StartMonotone(v, k + 1, i);
    }
  }

  /** Every live allocation lies inside the region, outside the table and apart from every other one. */
  lemma LiveAllocationsApart(s: Storage, p: nat, q: nat)
    requires Inv(s) && p in s.live && q in s.live
    ensures s.base + s.view[0].size <= p && p + s.live[p] <= s.base + s.size
    ensures p != q ==> p + s.live[p] <= q || q + s.live[q] <= p
  {
    var k: nat :| ServedBy(s, p, s.live[p], k);
    var l: nat :| ServedBy(s, q, s.live[q], l);
    BlocksApart(s.view, 0, k);
    BlockInRegion(s, k);
    StartNext(s.view, 0);
    StartMonotone(s.view, 1, k);
    if p != q {
      BlocksApart(s.view, k, l);
    }
  }

  /** What alloc returns lies apart from everything that is live. */
  lemma NewAllocationApart(s: Storage, size: nat, align: nat, p: nat)
    requires Inv(s) && 0 < size && AllocSafe(s, size, align) && p in s.live
    requires Alloc(s.base, s.size, s.view, size, align).Done?
    ensures var q := Alloc(s.base, s.size, s.view, size, align).ptr;
            p + s.live[p] <= q || q + size <= p
  {
    var i := Chosen(s, size, align);
    AllocOfSafe(s, size, align);
    SlotArithmetic(s, i, size, align);
    var k: nat :| ServedBy(s, p, s.live[p], k);
    BlocksApart(s.view, i, k);
  }

  // ----- Runs

  datatype Call = CallAlloc(size: nat, align: nat) | CallFree(ptr: nat)

  ghost predicate Allowed(s: Storage, c: Call)
    requires Inv(s)
  {
    match c
    case CallAlloc(size, align) => 0 < size && AllocSafe(s, size, align)
    case CallFree(ptr) => !HitsTable(s, ptr)
  }

  ghost function Step(s: Storage, c: Call): (t: Storage)
    requires Inv(s) && Allowed(s, c)
    ensures Inv(t) && t.base == s.base && t.size == s.size
  {
    match c
    case CallAlloc(size, align) =>
      SafeAllocKeeps(s, size, align);
      AfterAlloc(s, size, align).value
    case CallFree(ptr) =>
      FreeKeepsExactly(s, ptr);
      AfterFree(s, ptr)
  }

  ghost predicate AllAllowed(s: Storage, cs: seq<Call>)
    requires Inv(s)
    decreases |cs|
  {
    cs == [] || (Allowed(s, cs[0]) && AllAllowed(Step(s, cs[0]), cs[1..]))
  }

  ghost function Run(s: Storage, cs: seq<Call>): Storage
    requires Inv(s) && AllAllowed(s, cs)
    decreases |cs|
  {
    if cs == [] then s else Run(Step(s, cs[0]), cs[1..])
  }

  /** In every state of every run from the creation of a region of at least 8192 bytes the chain tiles
      the region without two adjacent free blocks, and every live allocation is served. */
  lemma {:induction false} RunsKeepInvariant(s: Storage, cs: seq<Call>)
    requires Inv(s) && AllAllowed(s, cs)
    ensures Inv(Run(s, cs)) && Run(s, cs).base == s.base && Run(s, cs).size == s.size
    decreases |cs|
  {
    if cs != [] {
      RunsKeepInvariant(Step(s, cs[0]), cs[1..]);
    }
  }

  /** The call frees the block that the allocation at p lives in. */
  ghost predicate FreesBlockOf(s: Storage, c: Call, p: nat) {
    c.CallFree? && s.base <= c.ptr <= s.base + s.size
    && var i := Locate(s.view, c.ptr - s.base, 0); i < |s.view| && s.base + Start(s.view, i) == p
  }

  ghost predicate NeverFreed(s: Storage, cs: seq<Call>, p: nat)
    requires Inv(s) && AllAllowed(s, cs)
    decreases |cs|
  {
    cs == [] || (!FreesBlockOf(s, cs[0], p) && NeverFreed(Step(s, cs[0]), cs[1..], p))
  }

  lemma AllocKeepsLive(s: Storage, size: nat, align: nat, p: nat)
    requires Inv(s) && 0 < size && AllocSafe(s, size, align) && p in s.live && AfterAlloc(s, size, align).Some?
    ensures var t := AfterAlloc(s, size, align).value; p in t.live && t.live[p] == s.live[p]
  {
    if Alloc(s.base, s.size, s.view, size, align).Done? {
      NewAllocationApart(s, size, align, p);
      assert Served(s, p, s.live[p]);
    }
  }

  lemma StepKeepsLive(s: Storage, c: Call, p: nat)
    requires Inv(s) && Allowed(s, c) && p in s.live && !FreesBlockOf(s, c, p)
    ensures p in Step(s, c).live && Step(s, c).live[p] == s.live[p]
  {
    hide Total, FirstFit, Locate, Placed, PlaceAt, HasSlot, Merge, WellFormed;
    if c.CallAlloc? {
      SafeAllocKeeps(s, c.size, c.align);
      AllocKeepsLive(s, c.size, c.align, p);
    }
  }

  /** A live allocation stays at its address, with its requested size, until its block is freed. */
  lemma {:induction false} LiveUntilFreed(s: Storage, cs: seq<Call>, p: nat)
    requires Inv(s) && AllAllowed(s, cs) && p in s.live && NeverFreed(s, cs, p)
    ensures p in Run(s, cs).live && Run(s, cs).live[p] == s.live[p]
    ensures Served(Run(s, cs), p, s.live[p])
    decreases |cs|
  {
    if cs == [] {
      assert Served(s, p, s.live[p]);
    } else {
      StepKeepsLive(s, cs[0], p);
      LiveUntilFreed(Step(s, cs[0]), cs[1..], p);
    }
  }

  // ----- What free undoes

  /** The extents of v after alloc and free of the same object: only the table may have grown. */
  ghost function Regrown(v: seq<Extent>, i: nat, left: nat, size: nat): seq<Extent>
    requires CanPlace(v, i, left, size)
  {
    if Grown(v, i, left, size) then Grow(v) else v
  }

  lemma LocateUnique(v: seq<Extent>, off: nat, k: nat)
    requires k < |v| && Start(v, k) <= off < Start(v, k) + v[k].size
    ensures Locate(v, off, 0) == k
  {
    var i := Locate(v, off, 0);
    if i != k && i < |v| {
      BlocksApart(v, i, k);
    }
  }

  lemma AbsorbIdentityExactly(s: seq<Extent>)
    requires s != []
    ensures Absorb(s) == s <==> (|s| == 1 || s[1].used)
  {
    if |s| > 2 && !s[1].used {
      AbsorbTotal(s[2..]);
    }
  }

  /** The extents from the freed object on, merged with its left part, before the forward loop. */
  ghost function FreedTail(v: seq<Extent>, i: nat, left: nat, size: nat): seq<Extent>
    requires CanPlace(v, i, left, size)
  {
    var right := v[i].size - left - size;
    [Extent(left + size - (if Grown(v, i, left, size) && i == 1 then GROWTH else 0), false)]
    + (if right == 0 then [] else [Extent(right, false)])
    + v[i+1..]
  }

  lemma MergeBackWithoutLeft(v: seq<Extent>, i: nat, size: nat)
    requires CanPlace(v, i, 0, size) && v[i-1].used
    ensures var p := Placed(v, i, 0, size);
            && i < |p|
            && MergeBack(p[i := Extent(size, false)], i)
               == (Shifted(v, i, Grown(v, i, 0, size))[..i] + FreedTail(v, i, 0, size), i)
  {
    hide Total;
    var p := Placed(v, i, 0, size);
    PlacedParts(v, i, 0, size);
    PlacedRest(v, i, 0, size, i - 1);
    var x := Shifted(v, i, Grown(v, i, 0, size));
    assert p == x[..i] + ([Extent(size, true)] + FreedTail(v, i, 0, size)[1..]);
    assert p[i := Extent(size, false)] == x[..i] + FreedTail(v, i, 0, size);
  }

  lemma MergeBackSpliced(x: seq<Extent>, l: Extent, n: nat, rest: seq<Extent>)
    requires !l.used
    ensures MergeBack(x + [l] + [Extent(n, false)] + rest, |x| + 1) == (x + ([Extent(l.size + n, false)] + rest), |x|)
  {
    var q := x + [l] + [Extent(n, false)] + rest;
    assert q[..|x|] == x && q[|x|+2..] == rest;
    assert x + [Extent(l.size + n, false)] + rest == x + ([Extent(l.size + n, false)] + rest);
  }

  lemma UpdateBetween(a: seq<Extent>, e: Extent, e': Extent, b: seq<Extent>)
    ensures (a + [e] + b)[|a| := e'] == a + [e'] + b
  {}

  lemma MergeBackWithLeft(v: seq<Extent>, i: nat, left: nat, size: nat)
    requires CanPlace(v, i, left, size) && left != 0
    ensures var p := Placed(v, i, left, size);
            && i + 1 < |p|
            && MergeBack(p[i+1 := Extent(size, false)], i + 1)
               == (Shifted(v, i, Grown(v, i, left, size))[..i] + FreedTail(v, i, left, size), i)
  {
    var grown := Grown(v, i, left, size);
    var x := Shifted(v, i, grown)[..i];
    var l := Extent(if grown && i == 1 then left - GROWTH else left, false);
    var right := v[i].size - left - size;
    var r := if right == 0 then [] else [Extent(right, false)];
    Regroup(x + [l] + [Extent(size, true)], r, v[i+1..]);
    Regroup([Extent(l.size + size, false)], r, v[i+1..]);
    UpdateBetween(x + [l], Extent(size, true), Extent(size, false), r + v[i+1..]);
    MergeBackSpliced(x, l, size, r + v[i+1..]);
  }

  lemma Regroup(a: seq<Extent>, b: seq<Extent>, c: seq<Extent>)
    ensures a + b + c == a + (b + c)
  {}

  /** Freeing what alloc just returned restores every extent (up to growth of the table) exactly when
      nothing was cut off on the right or the block after the next one is not free: otherwise the
      forward loop goes on and lets used blocks take over the free ones behind them. */
  lemma FreeUndoesAllocExactly(v: seq<Extent>, i: nat, left: nat, size: nat, total: nat)
    requires WellFormed(v, total) && CanPlace(v, i, left, size)
    ensures Free(Placed(v, i, left, size), Start(v, i) + left) == Regrown(v, i, left, size)
       <==> (v[i].size == left + size || |v| <= i + 2 || v[i+2].used)
  {
    assert v[i-1].used && (i + 1 < |v| ==> v[i+1].used);
    FreeOfPlaced(v, i, left, size);
    RestoredShape(v, i, left, size);
    AbsorbOfFreedTail(v, i, left, size);
    var x := Shifted(v, i, Grown(v, i, left, size))[..i];
    CompareTails(x, FreedTail(v, i, left, size), Regrown(v, i, left, size));
  }

  /** Block i and its free neighbours as one free block, and nothing else changed. */
  function Coalesced(v: seq<Extent>, i: nat): seq<Extent>
    requires 0 < i < |v|
  {
    var lo := if v[i-1].used then i else i - 1;
    var hi := if i + 1 < |v| && !v[i+1].used then i + 2 else i + 1;
    v[..lo] + [Extent(Total(v[lo..hi]), false)] + v[hi..]
  }

  /** What the backward step of a free makes of the blocks from the freed one on. */
  lemma FreedBackwards(v: seq<Extent>, i: nat)
    requires 0 < i < |v|
    ensures var lo := if v[i-1].used then i else i - 1;
            MergeBack(v[i := Extent(v[i].size, false)], i)
            == (v[..lo] + ([Extent(Total(v[lo..i+1]), false)] + v[i+1..]), lo)
  {
    var w := v[i := Extent(v[i].size, false)];
    if v[i-1].used {
      assert v[i..i+1] == [v[i]];
      assert w == v[..i] + ([Extent(v[i].size, false)] + v[i+1..]);
    } else {
      assert v[i-1..i+1] == [v[i-1], v[i]];
      TotalOfPair(v[i-1], v[i]);
      var e := Extent(v[i-1].size + v[i].size, false);
      assert w[..i-1] == v[..i-1] && w[i+1..] == v[i+1..];
      Regroup(v[..i-1], [e], v[i+1..]);
    }
  }

  lemma MergeOfFreed(v: seq<Extent>, i: nat)
    requires 0 < i < |v|
    ensures var lo := if v[i-1].used then i else i - 1;
            Merge(v[i := Extent(v[i].size, false)], i)
            == v[..lo] + Absorb([Extent(Total(v[lo..i+1]), false)] + v[i+1..])
  {
    hide Absorb, MergeBack, Total;
    FreedBackwards(v, i);
    var lo := if v[i-1].used then i else i - 1;
    var t := [Extent(Total(v[lo..i+1]), false)] + v[i+1..];
    var m := v[..lo] + t;
    assert m[..lo] == v[..lo] && m[lo..] == t;
  }

  /** The forward loop from a block on: it takes over the block behind it or stops there. */
  lemma AbsorbOnce(s: seq<Extent>)
    requires s != []
    ensures Absorb(s) == if |s| == 1 || s[1].used then s
                         else [Extent(s[0].size + s[1].size, s[0].used)] + if |s| == 2 then [] else Absorb(s[2..])
  {
  }

  lemma SamePrefix(x: seq<Extent>, a: seq<Extent>, b: seq<Extent>)
    ensures x + a == x + b <==> a == b
  {
    assert (x + a)[|x|..] == a && (x + b)[|x|..] == b;
  }

  lemma FreedWithNext(v: seq<Extent>, i: nat, lo: nat)
    requires lo <= i && i + 1 < |v|
    ensures Total(v[lo..i+2]) == Total(v[lo..i+1]) + v[i+1].size
  {
    assert v[lo..i+2] == v[lo..i+1] + [v[i+1]];
    TotalConcat(v[lo..i+1], [v[i+1]]);
  }

  /** Freeing any used block makes one free block of it and its free neighbours, and changes nothing else,
      exactly when the block behind it is used, or absent, or the third block behind it is. Otherwise the
      forward loop goes on, and the used block behind the free one takes over the free block behind itself. */
  lemma FreeCoalescesExactly(v: seq<Extent>, off: nat, total: nat)
    requires WellFormed(v, total)
    requires var i := Locate(v, off, 0); 0 < i < |v| && v[i].used
    ensures var i := Locate(v, off, 0);
            Free(v, off) == Coalesced(v, i)
            <==> (i + 1 >= |v| || v[i+1].used || i + 3 >= |v| || v[i+3].used)
  {
    hide Locate, Merge, Total, WellFormed, Coalesced;
    MergeCoalescesExactly(v, Locate(v, off, 0));
  }

  lemma MergeCoalescesExactly(v: seq<Extent>, i: nat)
    requires 0 < i < |v|
    ensures Merge(v[i := Extent(v[i].size, false)], i) == Coalesced(v, i)
            <==> (i + 1 >= |v| || v[i+1].used || i + 3 >= |v| || v[i+3].used)
  {
    hide Merge, Absorb, Total;
    MergeOfFreed(v, i);
    var lo := if v[i-1].used then i else i - 1;
    var n, t := Total(v[lo..i+1]), v[i+1..];
    var s := [Extent(n, false)] + t;
    AbsorbOnce(s);
    if i + 1 < |v| && !v[i+1].used {
      FreedWithNext(v, i, lo);
      assert s[1] == t[0] && s[2..] == v[i+2..];
      RestAbsorbed(v[..lo], Extent(n + v[i+1].size, false), v[i+2..]);
    } else {
      Regroup(v[..lo], [Extent(n, false)], t);
    }
  }

  lemma RestAbsorbed(x: seq<Extent>, e: Extent, r: seq<Extent>)
    ensures x + ([e] + (if r == [] then [] else Absorb(r))) == x + [e] + r <==> |r| <= 1 || r[1].used
  {
    hide Absorb;
    var a := if r == [] then [] else Absorb(r);
    if r != [] {
      AbsorbIdentityExactly(r);
    }
    Regroup(x, [e], r);
    SamePrefix(x, [e] + a, [e] + r);
    SamePrefix([e], a, r);
  }

  lemma FreeOfPlaced(v: seq<Extent>, i: nat, left: nat, size: nat)
    requires CanPlace(v, i, left, size) && v[i-1].used
    ensures var m := Shifted(v, i, Grown(v, i, left, size))[..i] + FreedTail(v, i, left, size);
            Free(Placed(v, i, left, size), Start(v, i) + left) == m[..i] + Absorb(m[i..])
  {
    hide Absorb, MergeBack, Total, Placed, Locate;
    PlacedObject(v, i, left, size);
    var k := if left == 0 then i else i + 1;
    LocateUnique(Placed(v, i, left, size), Start(v, i) + left, k);
    if left == 0 {
      MergeBackWithoutLeft(v, i, size);
    } else {
      MergeBackWithLeft(v, i, left, size);
    }
    FreeIsMerge(Placed(v, i, left, size), Start(v, i) + left, k,
                Shifted(v, i, Grown(v, i, left, size))[..i] + FreedTail(v, i, left, size), i);
  }

  lemma FreeIsMerge(p: seq<Extent>, off: nat, k: nat, m: seq<Extent>, b: nat)
    requires k < |p| && Locate(p, off, 0) == k && b < |m|
    requires MergeBack(p[k := Extent(p[k].size, false)], k) == (m, b)
    ensures Free(p, off) == m[..b] + Absorb(m[b..])
  {}

  lemma CompareTails(x: seq<Extent>, t: seq<Extent>, r: seq<Extent>)
    requires t != [] && |x| <= |r| && r[..|x|] == x
    ensures var m := x + t;
            m[..|x|] + Absorb(m[|x|..]) == r <==> Absorb(t) == r[|x|..]
  {
    var m := x + t;
    assert m[..|x|] == x && m[|x|..] == t;
    assert (x + Absorb(t))[|x|..] == Absorb(t);
    assert r == x + r[|x|..];
  }

  lemma AbsorbOfFreedTail(v: seq<Extent>, i: nat, left: nat, size: nat)
    requires CanPlace(v, i, left, size) && (i + 1 < |v| ==> v[i+1].used)
    ensures var r := Regrown(v, i, left, size);
            |r| == |v| && (Absorb(FreedTail(v, i, left, size)) == r[i..]
                           <==> (v[i].size == left + size || |v| <= i + 2 || v[i+2].used))
  {
    RestoredShape(v, i, left, size);
    var t, r := FreedTail(v, i, left, size), Regrown(v, i, left, size);
    if v[i].size == left + size {
      assert Absorb(t) == t;
    } else {
      assert t[2..] == v[i+1..];
      assert r[i..][1..] == v[i+1..];
      if i + 1 < |v| {
        AbsorbIdentityExactly(v[i+1..]);
        assert Absorb(t)[1..] == Absorb(v[i+1..]);
        assert Absorb(t) == [r[i..][0]] + Absorb(v[i+1..]);
      }
    }
  }

  lemma RestoredShape(v: seq<Extent>, i: nat, left: nat, size: nat)
    requires CanPlace(v, i, left, size)
    ensures var grown := Grown(v, i, left, size);
            var r := Regrown(v, i, left, size);
            && |r| == |v| && r[..i] == Shifted(v, i, grown)[..i]
            && r[i..] == [Extent(v[i].size - (if grown && i == 1 then GROWTH else 0), false)] + v[i+1..]
  {}
}
