/**
  The entries of segment and page tables (kernel/s390/virtual.hxx), address arithmetic, and a flat map
  from page numbers to page entries that the two-level tables stand for.
 */
module PageTables {
  import opened NatArithmetic

  const PAGE: nat := 4096
  const PAGES: nat := 256
  const SEGMENTS: nat := 2048
  const SEGMENT: nat := 0x10_0000
  /** Pages of the address space: the indices ignore higher bits of an address. */
  const ALL_PAGES: nat := 0x8_0000
  /** Modulus of size_t and uintptr_t. */
  const WORD: nat := 0x1_0000_0000_0000_0000
  /** The origin masks are 32 bits wide. */
  const MASK_LIMIT: nat := 0x1_0000_0000
  const SEGMENT_INVALID: nat := 32
  const PAGE_INVALID: nat := 1024

  function SegmentIndex(va: nat): (s: nat)
    ensures s < SEGMENTS
  {
    va / SEGMENT % SEGMENTS
  }

  function PageIndex(va: nat): (p: nat)
    ensures p < PAGES
  {
    va / PAGE % PAGES
  }

  function PageNumber(va: nat): (n: nat)
    ensures n < ALL_PAGES
  {
    va / PAGE % ALL_PAGES
  }

  /** The parts of an address: 12 bits in the page, 8 for the page in its segment and 11 for the segment; higher
      bits are not looked at. */
  lemma AddressOf(high: nat, s: nat, p: nat, b: nat)
    requires s < 2048 && p < 256 && b < 4096
    ensures var va := high * 0x8000_0000 + s * 0x10_0000 + p * 0x1000 + b;
            SegmentIndex(va) == s && PageIndex(va) == p && PageNumber(va) == s * 256 + p && va % PAGE == b
  {
    var va := high * 0x8000_0000 + s * 0x10_0000 + p * 0x1000 + b;
    assert va / PAGE == high * 0x8_0000 + s * 0x100 + p;
    assert va / SEGMENT == high * 0x800 + s;
  }

  lemma PageNumberParts(va: nat)
    ensures PageNumber(va) / PAGES == SegmentIndex(va) && PageNumber(va) % PAGES == PageIndex(va)
    ensures PageNumber(va) == SegmentIndex(va) * PAGES + PageIndex(va)
  {
    SegmentOfPage(va);
    LowDigits(va / PAGE);
    TwoDigits(va / PAGE / PAGES % SEGMENTS, va / PAGE % PAGES);
  }

  lemma SegmentOfPage(va: nat)
    ensures va / SEGMENT == va / PAGE / PAGES
  {
  }

  lemma LowDigits(q: nat)
    ensures q % ALL_PAGES == q / PAGES % SEGMENTS * PAGES + q % PAGES
  {
  }

  lemma TwoDigits(s: nat, p: nat)
    requires p < PAGES
    ensures (s * PAGES + p) / PAGES == s && (s * PAGES + p) % PAGES == p
  {
  }

  /** Addresses wrap around at 64 bits. */
  function Wrap(a: nat): nat {
    a % WORD
  }

  /** The indices look at fewer bits. */
  lemma WrappedPageNumber(a: nat)
    ensures PageNumber(Wrap(a)) == PageNumber(a)
  {
    var w := a % WORD;
    var k := a / WORD;
    assert a == WORD * k + w;
    assert a / PAGE == ALL_PAGES * (0x2_0000_0000 * k) + w / PAGE;
  }

  /** The bit of weight w is set. */
  predicate Bit(e: nat, w: nat)
    requires w > 0
  {
    e / w % 2 == 1
  }

  /** e | w for a weight w. */
  function SetBit(e: nat, w: nat): nat
    requires w > 0
  {
    if Bit(e, w) then e else e + w
  }

  /** A bit is set in e | f exactly when it is in one of them. */
  lemma {:induction false} BitOrBits(e: nat, f: nat, k: nat)
    ensures Pow2(k) > 0 && (Bit(BitOr(e, f), Pow2(k)) <==> Bit(e, Pow2(k)) || Bit(f, Pow2(k)))
    decreases k
  {
    Pow2Positive(k);
    if e == 0 || f == 0 {
      NoBitInZero(Pow2(k));
    } else if k > 0 {
      Pow2Positive(k - 1);
      BitOrBits(e / 2, f / 2, k - 1);
      BitOfHalf(e, k);
      BitOfHalf(f, k);
      BitOfHalf(BitOr(e, f), k);
      assert BitOr(e, f) / 2 == BitOr(e / 2, f / 2);
    }
  }

  lemma NoBitInZero(w: nat)
    requires w > 0
    ensures !Bit(0, w)
  {
    assert 0 / w == 0;
  }

  lemma {:induction false} Pow2Positive(k: nat)
    ensures Pow2(k) > 0
  {
    if k > 0 {
      Pow2Positive(k - 1);
    }
  }

  lemma BitOfHalf(e: nat, k: nat)
    requires k > 0 && Pow2(k - 1) > 0
    ensures Pow2(k) > 0 && (Bit(e, Pow2(k)) <==> Bit(e / 2, Pow2(k - 1)))
  {
    HalvedTwice(e, Pow2(k - 1));
  }

  lemma HalvedTwice(e: nat, m: nat)
    requires m > 0
    ensures e / (2 * m) == e / 2 / m
  {
    var q := e / 2 / m;
    DivMod(e / 2, m);
    assert e == 2 * (e / 2) + e % 2;
    assert e == 2 * (m * q) + (2 * (e / 2 % m) + e % 2);
    assert 2 * (m * q) == 2 * m * q;
    DivUnique(e, 2 * m, q, 2 * (e / 2 % m) + e % 2);
  }

  lemma DivUnique(x: nat, n: nat, q: nat, r: nat)
    requires n > 0 && x == n * q + r && r < n
    ensures x / n == q
  {
    DivMod(x, n);
    var p := x / n;
    if p < q {
      MultipleMonotone(n, p, q);
    } else if q < p {
      MultipleMonotone(n, q, p);
    }
  }

  /** Marking an entry sets that bit and leaves all others. */
  lemma SetBitIsOr(e: nat, k: nat)
    ensures Pow2(k) > 0 && SetBit(e, Pow2(k)) == BitOr(e, Pow2(k))
  {
    Pow2Positive(k);
    SetBitOr(e, k);
  }

  lemma {:induction false} SetBitOr(e: nat, k: nat)
    requires Pow2(k) > 0
    ensures SetBit(e, Pow2(k)) == BitOr(e, Pow2(k))
    decreases k
  {
    if e == 0 {
      NoBitInZero(Pow2(k));
    } else if k > 0 {
      Pow2Positive(k - 1);
      SetBitOr(e / 2, k - 1);
      BitOfHalf(e, k);
      assert Pow2(k) / 2 == Pow2(k - 1) && Pow2(k) % 2 == 0;
    }
  }

  lemma SetPageInvalid(e: nat)
    ensures Bit(SetBit(e, PAGE_INVALID), PAGE_INVALID)
  {}

  lemma SetSegmentInvalid(e: nat)
    ensures Bit(SetBit(e, SEGMENT_INVALID), SEGMENT_INVALID)
  {}

  function SegmentOrigin(e: nat): nat {
    e % MASK_LIMIT / 2048 * 2048
  }

  function PageOrigin(e: nat): (a: nat)
    ensures a % PAGE == 0
    ensures a < MASK_LIMIT
  {
    e % MASK_LIMIT / PAGE * PAGE
  }

  /** Bitwise or. */
  function BitOr(a: nat, b: nat): nat
    decreases a + b
  {
    if a == 0 then b else if b == 0 then a
    else 2 * BitOr(a / 2, b / 2) + (if a % 2 == 1 || b % 2 == 1 then 1 else 0)
  }

  function Pow2(k: nat): nat {
    if k == 0 then 1 else 2 * Pow2(k - 1)
  }

  lemma {:induction false} BitOrDisjoint(a: nat, b: nat, k: nat)
    requires Pow2(k) > 0 && a % Pow2(k) == 0 && b < Pow2(k)
    ensures BitOr(a, b) == a + b
    decreases k
  {
    if k > 0 && a != 0 && b != 0 {
      HalfMultiple(a, Pow2(k - 1));
      BitOrDisjoint(a / 2, b / 2, k - 1);
    }
  }

  lemma HalfMultiple(a: nat, m: nat)
    requires m > 0 && a % (2 * m) == 0
    ensures a % 2 == 0 && (a / 2) % m == 0
  {
    var q := a / (2 * m);
    assert a == 2 * m * q;
    assert 2 * m * q == 2 * (m * q);
    assert a / 2 == m * q;
    MultipleMod(m, q);
  }

  /** A page address and an offset or flags below the page size do not overlap. */
  lemma BitOrPage(a: nat, b: nat)
    requires a % PAGE == 0 && b < PAGE
    ensures BitOr(a, b) == a + b
  {
    assert Pow2(6) == 64;
    assert Pow2(12) == PAGE;
    BitOrDisjoint(a, b, 12);
  }

  /** With flags in the low 12 bits, an entry gives the frame back exactly when it lies below 4 GiB. */
  lemma FrameRestoredExactly(phys: nat, flags: nat)
    requires phys % PAGE == 0 && flags < PAGE
    ensures PageOrigin(BitOr(phys, flags)) == phys <==> phys < MASK_LIMIT
  {
    hide BitOr, PageOrigin;
    BitOrPage(phys, flags);
    var q := phys / PAGE;
    assert phys == PAGE * q;
    OriginOfSum(q, flags);
  }

  lemma OriginOfSum(q: nat, flags: nat)
    requires flags < PAGE
    ensures PageOrigin(PAGE * q + flags) == PAGE * (q % 0x10_0000)
  {
    var r := q % 0x10_0000;
    var e := PAGE * q + flags;
    assert q == 0x10_0000 * (q / 0x10_0000) + r;
    assert e == MASK_LIMIT * (q / 0x10_0000) + (PAGE * r + flags);
    assert e % MASK_LIMIT == PAGE * r + flags;
  }

  // ----- The flat map

  type Flat = map<nat, nat>

  /** Some page of the segment is mapped. */
  ghost predicate InUse(f: Flat, s: nat) {
    exists n :: n in f && n / PAGES == s
  }

  function SegmentOf(va: nat, i: nat): nat {
    PageNumber(va + PAGE * i) / PAGES
  }

  /** map_page on the flat map: it fails when the segment needs a page table and storage is not granted. */
  ghost function FlatPage(f: Flat, n: nat, entry: nat, granted: bool): Flat {
    if granted || InUse(f, n / PAGES) then f[n := entry] else f
  }

  /** map_range on the flat map: n single pages, whatever becomes of each; grants says of every call whether
      storage would be granted. */
  ghost function FlatRange(f: Flat, va: nat, phys: nat, flags: nat, grants: nat -> bool, n: nat): Flat {
    if n == 0 then f
    else FlatPage(FlatRange(f, va, phys, flags, grants, n - 1), PageNumber(va + PAGE * (n - 1)),
                  BitOr(Wrap(phys + PAGE * (n - 1)), flags), grants(n - 1))
  }

  /** Page i of the range has a page table when its turn comes: its segment was in use, or an earlier page of
      the segment or the page itself was granted one. */
  ghost predicate ServedPage(f: Flat, va: nat, grants: nat -> bool, i: nat) {
    InUse(f, SegmentOf(va, i)) || exists k: nat :: k <= i && GrantedFor(va, grants, k, SegmentOf(va, i))
  }

  predicate GrantedFor(va: nat, grants: nat -> bool, k: nat, s: nat) {
    SegmentOf(va, k) == s && grants(k)
  }

  lemma FlatPageInUse(f: Flat, n: nat, entry: nat, granted: bool, s: nat)
    ensures InUse(FlatPage(f, n, entry, granted), s) <==> InUse(f, s) || (granted && n / PAGES == s)
  {
    var g := FlatPage(f, n, entry, granted);
    if InUse(f, s) {
      var m :| m in f && m / PAGES == s;
      assert m in g;
    }
    if granted && n / PAGES == s {
      assert n in g;
    }
  }

  /** The segments in use after n pages. */
  lemma {:induction false} RangeInUse(f: Flat, va: nat, phys: nat, flags: nat, grants: nat -> bool, n: nat, s: nat)
    ensures InUse(FlatRange(f, va, phys, flags, grants, n), s)
            <==> InUse(f, s) || exists k: nat :: k < n && GrantedFor(va, grants, k, s)
    decreases n
  {
    if n > 0 {
      RangeInUse(f, va, phys, flags, grants, n - 1, s);
      FlatPageInUse(FlatRange(f, va, phys, flags, grants, n - 1), PageNumber(va + PAGE * (n - 1)),
                    BitOr(Wrap(phys + PAGE * (n - 1)), flags), grants(n - 1), s);
      assert GrantedFor(va, grants, n - 1, s) <==> grants(n - 1) && SegmentOf(va, n - 1) == s;
    }
  }

  /** What one more page does to the flat map. */
  lemma FlatRangeNext(f: Flat, va: nat, phys: nat, flags: nat, grants: nat -> bool, n: nat)
    ensures var before := FlatRange(f, va, phys, flags, grants, n);
            FlatRange(f, va, phys, flags, grants, n + 1)
            == if ServedPage(f, va, grants, n)
               then before[PageNumber(va + PAGE * n) := BitOr(Wrap(phys + PAGE * n), flags)] else before
  {
    hide BitOr, PageNumber;
    RangeInUse(f, va, phys, flags, grants, n, SegmentOf(va, n));
    if grants(n) {
      assert GrantedFor(va, grants, n, SegmentOf(va, n));
    }
  }

  lemma FlatRangeNothing(f: Flat, va: nat, phys: nat, flags: nat, grants: nat -> bool)
    ensures FlatRange(f, va, phys, flags, grants, 0) == f
  {
  }

  ghost predicate PageSet(g: Flat, q: nat, entry: nat) {
    q in g && g[q] == entry
  }

  ghost predicate PageKept(f: Flat, g: Flat, q: nat) {
    (q in g <==> q in f) && (q in f ==> g[q] == f[q])
  }

  /** Pages outside of the range, and pages whose call failed, keep their entries. */
  lemma {:induction false} RangeKeeps(f: Flat, va: nat, phys: nat, flags: nat, grants: nat -> bool, n: nat, q: nat)
    requires forall i :: 0 <= i < n && ServedPage(f, va, grants, i) ==> PageNumber(va + PAGE * i) != q
    ensures PageKept(f, FlatRange(f, va, phys, flags, grants, n), q)
    decreases n
  {
    if n > 0 {
      RangeKeeps(f, va, phys, flags, grants, n - 1, q);
      FlatRangeNext(f, va, phys, flags, grants, n - 1);
    } else {
      FlatRangeNothing(f, va, phys, flags, grants);
    }
  }

  /** A served page of a range that does not wrap around the address space gets its entry. */
  lemma {:induction false} RangeSets(f: Flat, va: nat, phys: nat, flags: nat, grants: nat -> bool, n: nat, i: nat)
    requires va % PAGE == 0 && i < n <= ALL_PAGES && ServedPage(f, va, grants, i)
    ensures PageSet(FlatRange(f, va, phys, flags, grants, n), PageNumber(va + PAGE * i),
                    BitOr(Wrap(phys + PAGE * i), flags))
    decreases n
  {
    hide BitOr, PageNumber, ServedPage, FlatRange;
    FlatRangeNext(f, va, phys, flags, grants, n - 1);
    if i < n - 1 {
      RangeSets(f, va, phys, flags, grants, n - 1, i);
      PagesApart(va, i, n - 1);
    }
  }

  /** Pages less than the size of the address space apart have different numbers. */
  lemma PagesApart(va: nat, i: nat, j: nat)
    requires va % PAGE == 0 && i < j < i + ALL_PAGES
    ensures PageNumber(va + PAGE * i) != PageNumber(va + PAGE * j)
  {
    assert (va + PAGE * i) / PAGE == va / PAGE + i;
    assert (va + PAGE * j) / PAGE == va / PAGE + j;
  }

  lemma PageOfByte(va: nat, b: nat)
    requires va % PAGE == 0
    ensures PageNumber(va + b) == PageNumber(va + PAGE * (b / PAGE)) && (va + b) % PAGE == b % PAGE
  {
    assert (va + b) / PAGE == va / PAGE + b / PAGE;
    assert (va + PAGE * (b / PAGE)) / PAGE == va / PAGE + b / PAGE;
  }

  /** Byte b of the range translates to byte b of the frames. */
  ghost predicate ByteMapped(f: Flat, va: nat, phys: nat, b: nat) {
    PageNumber(va + b) in f && PageOrigin(f[PageNumber(va + b)]) + (va + b) % PAGE == phys + b
  }

  ghost predicate RangeMapped(f: Flat, va: nat, phys: nat, n: nat) {
    forall b: nat :: b < PAGE * n ==> ByteMapped(f, va, phys, b)
  }

  ghost predicate RangeServed(f: Flat, va: nat, grants: nat -> bool, n: nat) {
    forall i: nat :: i < n ==> ServedPage(f, va, grants, i)
  }

  /** After map_range every byte of the range translates to the matching physical byte exactly when the
      range does not wrap around the address space, the frames end by 4 GiB, and every segment that had no
      page table was granted one in time. An error of map_page is not reported. */
  lemma RangeMappedExactly(f: Flat, va: nat, phys: nat, flags: nat, grants: nat -> bool, n: nat)
    requires va % PAGE == 0 && phys % PAGE == 0 && flags < PAGE && n > 0
    ensures RangeMapped(FlatRange(f, va, phys, flags, grants, n), va, phys, n)
            <==> n <= ALL_PAGES && phys + PAGE * n <= MASK_LIMIT && RangeServed(f, va, grants, n)
  {
    var g := FlatRange(f, va, phys, flags, grants, n);
    hide FlatRange, ServedPage, ByteMapped, PageNumber;
    if !(n <= ALL_PAGES && phys + PAGE * n <= MASK_LIMIT) {
      RangeTooLong(g, va, phys, n);
    } else if RangeServed(f, va, grants, n) {
      forall b: nat | b < PAGE * n
        ensures ByteMapped(g, va, phys, b)
      {
        assert b / PAGE < n;
        ByteInRange(f, va, phys, flags, grants, n, b);
      }
    } else {
      var i: nat :| i < n && !ServedPage(f, va, grants, i);
      PageFailed(f, va, phys, flags, grants, n, i);
    }
  }

  /** A page that is not served stays without an entry. */
  lemma PageFailed(f: Flat, va: nat, phys: nat, flags: nat, grants: nat -> bool, n: nat, i: nat)
    requires va % PAGE == 0 && i < n <= ALL_PAGES && !ServedPage(f, va, grants, i)
    ensures !ByteMapped(FlatRange(f, va, phys, flags, grants, n), va, phys, PAGE * i)
  {
    var q := PageNumber(va + PAGE * i);
    assert q !in f;
    hide FlatRange, PageNumber, ServedPage;
    forall j | 0 <= j < n && ServedPage(f, va, grants, j)
      ensures PageNumber(va + PAGE * j) != q
    {
      if i < j {
        PagesApart(va, i, j);
      } else if j < i {
        PagesApart(va, j, i);
      }
    }
    RangeKeeps(f, va, phys, flags, grants, n, q);
  }

  lemma RangeTooLong(g: Flat, va: nat, phys: nat, n: nat)
    requires va % PAGE == 0 && phys % PAGE == 0 && n > 0
    requires ALL_PAGES < n || MASK_LIMIT < phys + PAGE * n
    ensures !RangeMapped(g, va, phys, n)
  {
    hide PageOrigin;
    if MASK_LIMIT < phys + PAGE * n {
      var b := PAGE * (n - 1);
      assert phys + b >= MASK_LIMIT;
      assert !ByteMapped(g, va, phys, b);
    } else {
      SamePageAgain(va);
      assert !(ByteMapped(g, va, phys, 0) && ByteMapped(g, va, phys, PAGE * ALL_PAGES));
    }
  }

  lemma SamePageAgain(va: nat)
    ensures PageNumber(va + PAGE * ALL_PAGES) == PageNumber(va + 0)
    ensures (va + PAGE * ALL_PAGES) % PAGE == (va + 0) % PAGE
  {
    assert (va + PAGE * ALL_PAGES) / PAGE == va / PAGE + ALL_PAGES;
  }

  lemma ByteInRange(f: Flat, va: nat, phys: nat, flags: nat, grants: nat -> bool, n: nat, b: nat)
    requires va % PAGE == 0 && phys % PAGE == 0 && flags < PAGE
    requires n <= ALL_PAGES && phys + PAGE * n <= MASK_LIMIT && b < PAGE * n && b / PAGE < n
    requires ServedPage(f, va, grants, b / PAGE)
    ensures ByteMapped(FlatRange(f, va, phys, flags, grants, n), va, phys, b)
  {
    hide FlatRange, PageOrigin, PageNumber, BitOr, ServedPage;
    var i := b / PAGE;
    PageOfByte(va, b);
    RangeSets(f, va, phys, flags, grants, n, i);
    var frame := phys + PAGE * i;
    assert Wrap(frame) == frame;
    FrameRestoredExactly(frame, flags);
  }

  // ----- The size of a range

  /** The pages of a range, after rounding up in size_t arithmetic. */
  function PagesOf(size: nat): nat {
    var rounded := if size % PAGE == 0 then size else Wrap(size + (PAGE - size % PAGE));
    rounded / PAGE
  }

  /** The last page of the address space of 64 bits cannot be rounded up. */
  lemma RoundingWraps()
    ensures PagesOf(0xffff_ffff_ffff_ffff) == 0 && PagesOf(0xffff_ffff_ffff_f000) == 0x000f_ffff_ffff_ffff
    ensures PagesOf(1) == 1 && PagesOf(4096) == 1 && PagesOf(4097) == 2
  {
  }

  /** The pages cover the range exactly when rounding up does not wrap; otherwise nothing is mapped. */
  lemma PagesCoverExactly(size: nat)
    requires size < WORD
    ensures size <= PAGE * PagesOf(size) <==> size <= WORD - PAGE
    ensures size > WORD - PAGE ==> PagesOf(size) == 0
    ensures PAGE * PagesOf(size) < size + PAGE
  {
  }
}
