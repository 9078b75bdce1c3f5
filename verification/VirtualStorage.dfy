/**
  Address spaces of the s390 target (kernel/s390/virtual.cxx): a segment table whose entries point to
  page tables in real storage, allocated when a segment is first used.
 */
module VirtualStorage {
  import opened Wrappers
  import opened NatArithmetic
  import opened PageTables

  /** The page tables in use, by segment: page-aligned, neither null nor beyond the reach of the origin
      mask, and apart from each other. */
  ghost predicate GoodTables(tables: map<nat, nat>) {
    && (forall s :: s in tables ==> s < SEGMENTS && GoodTable(tables[s]))
    && (forall s, t :: s in tables && t in tables && s != t ==> tables[s] != tables[t])
  }

  predicate GoodTable(a: nat) {
    a % PAGE == 0 && 0 < a < MASK_LIMIT
  }

  /** What real_storage::alloc may answer: null, or a page apart from the tables in use. */
  ghost predicate GoodAnswer(answer: Option<nat>, tables: map<nat, nat>) {
    answer.Some? ==> GoodTable(answer.value) && forall s :: s in tables ==> tables[s] != answer.value
  }

  /** The address of a page entry. */
  function EntryAt(table: nat, i: nat): nat {
    table + 8 * i
  }

  lemma PagesDoNotOverlap(a: nat, b: nat)
    requires GoodTable(a) && GoodTable(b) && a != b
    ensures a + PAGE <= b || b + PAGE <= a
  {
  }

  lemma EntriesApart(tables: map<nat, nat>, n: nat, m: nat)
    requires GoodTables(tables) && n / PAGES in tables && m / PAGES in tables && n != m
    ensures EntryAt(tables[n / PAGES], n % PAGES) != EntryAt(tables[m / PAGES], m % PAGES)
  {
    if n / PAGES != m / PAGES {
      PagesDoNotOverlap(tables[n / PAGES], tables[m / PAGES]);
    }
  }

  /** The address of a table is a valid segment entry and its own origin. */
  lemma TableAsEntry(a: nat)
    requires a % PAGE == 0 && a < MASK_LIMIT
    ensures !Bit(a, SEGMENT_INVALID) && SegmentOrigin(a) == a
  {
    var q := a / PAGE;
    assert a == PAGE * q;
    assert a / SEGMENT_INVALID == 2 * (64 * q);
    assert a / 2048 == 2 * q;
  }

  /** Real storage after a word was stored. */
  function Stored(m: nat -> nat, at: nat, word: nat): nat -> nat {
    (a: nat) => if a == at then word else m(a)
  }

  /** Whatever real storage holds, an entry stored in the table at a is read back through a segment entry
      that holds a. */
  ghost predicate ReadsBack(a: nat) {
    forall m: nat -> nat, p: nat, entry: nat :: p < PAGES ==>
      Stored(m, EntryAt(a, p), entry)(EntryAt(SegmentOrigin(a), p)) == entry
  }

  /** map_page stores through the address of a new table, every later call through the origin of the segment
      entry: the two agree exactly below 4 GiB. */
  lemma TableReachedExactly(a: nat)
    requires a % PAGE == 0
    ensures !Bit(a, SEGMENT_INVALID) && (ReadsBack(a) <==> a < MASK_LIMIT)
  {
    var low := a % MASK_LIMIT;
    assert low % PAGE == 0 && !Bit(a, SEGMENT_INVALID) by {
      LowBits(a);
    }
    TableAsEntry(low);
    assert SegmentOrigin(a) == low;
    if a >= MASK_LIMIT {
      assert Stored(n => 1, EntryAt(a, 0), 0)(EntryAt(low, 0)) == 1;
    }
  }

  lemma LowBits(a: nat)
    requires a % PAGE == 0
    ensures a % MASK_LIMIT % PAGE == 0 && !Bit(a, SEGMENT_INVALID)
  {
    var q := a / PAGE;
    assert a == PAGE * q;
    assert a / SEGMENT_INVALID == 2 * (64 * q);
  }

  // ----- What the methods do to segment table and real storage, wherever the page tables lie

  /** Real storage, where a word never written holds an arbitrary value, and the segment table. */
  datatype Store = Store(words: map<nat, nat>, garbage: nat -> nat, segments: seq<nat>)

  function WordAt(words: map<nat, nat>, garbage: nat -> nat, a: nat): nat {
    if a in words then words[a] else garbage(a)
  }

  /** The first i entries of a page table marked as invalid. */
  function Cleared(words: map<nat, nat>, garbage: nat -> nat, table: nat, i: nat): map<nat, nat> {
    if i == 0 then words
    else
      var before := Cleared(words, garbage, table, i - 1);
      var a := EntryAt(table, i - 1);
      before[a := SetBit(WordAt(before, garbage, a), PAGE_INVALID)]
  }

  lemma {:induction false} ClearedEntries(words: map<nat, nat>, garbage: nat -> nat, table: nat, i: nat)
    requires i <= PAGES
    ensures var after := Cleared(words, garbage, table, i);
            && (forall j :: 0 <= j < i ==> Bit(WordAt(after, garbage, EntryAt(table, j)), PAGE_INVALID))
            && (forall a: nat :: a < table || table + PAGE <= a ==>
                  WordAt(after, garbage, a) == WordAt(words, garbage, a))
  {
    hide Bit, SetBit;
    if i > 0 {
      ClearedEntries(words, garbage, table, i - 1);
      var before := Cleared(words, garbage, table, i - 1);
      SetPageInvalid(WordAt(before, garbage, EntryAt(table, i - 1)));
    }
  }

  /** Where map_page finds the page table of a segment: an unmapped one gets what real_storage::alloc answers. */
  function TableOf(segment: nat, answer: Option<nat>): Option<nat> {
    if Bit(segment, SEGMENT_INVALID) then answer
    else if SegmentOrigin(segment) == 0 then None
    else Some(SegmentOrigin(segment))
  }

  /** The page table of segment s in place. */
  function Ensured(m: Store, s: nat, answer: Option<nat>): Store
    requires s < |m.segments|
  {
    if Bit(m.segments[s], SEGMENT_INVALID) && answer.Some?
    then Store(Cleared(m.words, m.garbage, answer.value, PAGES), m.garbage, m.segments[s := answer.value])
    else m
  }

  /** map_page. */
  function PageStored(m: Store, va: nat, phys: nat, flags: nat, answer: Option<nat>): (r: Store)
    requires |m.segments| == SEGMENTS
    ensures |r.segments| == SEGMENTS
  {
    var s := SegmentIndex(va);
    var ensured := Ensured(m, s, answer);
    match TableOf(m.segments[s], answer)
    case None => m
    case Some(table) => ensured.(words := ensured.words[EntryAt(table, PageIndex(va)) := BitOr(phys, flags)])
  }

  /** virtual_to_real. */
  function RealOf(m: Store, va: nat): nat
    requires |m.segments| == SEGMENTS
  {
    var segment := m.segments[SegmentIndex(va)];
    var table := SegmentOrigin(segment);
    if Bit(segment, SEGMENT_INVALID) || table == 0 then 0
    else BitOr(PageOrigin(WordAt(m.words, m.garbage, EntryAt(table, PageIndex(va)))), va % PAGE)
  }

  /** Where translation looks, in numbers: at the word of eight bytes for the page in the table whose address stands
      in the upper bits of the segment entry; what that holds above its low 12 bits is the frame. */
  lemma TranslatesThrough(m: Store, s: nat, p: nat, b: nat, table: nat, low: nat, word: nat)
    requires |m.segments| == SEGMENTS && s < 2048 && p < 256 && b < 4096
    requires table % 2048 == 0 && 0 < table < 0x1_0000_0000 && low < 32 && m.segments[s] == table + low
    requires table + 8 * p in m.words && m.words[table + 8 * p] == word
    ensures RealOf(m, s * 0x10_0000 + p * 0x1000 + b) == word % 0x1_0000_0000 / 4096 * 4096 + b
  {
    hide BitOr, PageOrigin, SegmentIndex, PageIndex;
    var va := s * 0x10_0000 + p * 0x1000 + b;
    AddressOf(0, s, p, b);
    TableWithLowBits(table, low);
    BitOrPage(PageOrigin(word), b);
    OriginInNumbers(word);
  }

  lemma OriginInNumbers(word: nat)
    ensures PageOrigin(word) == word % 0x1_0000_0000 / 4096 * 4096
  {
  }

  lemma TableWithLowBits(table: nat, low: nat)
    requires table % 2048 == 0 && table < 0x1_0000_0000 && low < 32
    ensures !Bit(table + low, SEGMENT_INVALID) && SegmentOrigin(table + low) == table
  {
    var q := table / 2048;
    assert table == 2048 * q;
    assert (table + low) / SEGMENT_INVALID == 2 * (32 * q);
    assert (table + low) / 2048 == q;
  }

  /** The bit worth 32 in a segment entry marks it as unmapped, the bit worth 1024 a page entry as invalid; these two
      bits and no others. */
  lemma InvalidBits(m: Store, s: nat, entry: nat)
    requires |m.segments| == SEGMENTS && s < 2048 && m.segments[s] % 64 >= 32
    ensures RealOf(m, s * 0x10_0000) == 0
    ensures Bit(entry, PAGE_INVALID) <==> entry % 2048 >= 1024
  {
    hide BitOr, PageOrigin, SegmentIndex, PageIndex;
    AddressOf(0, s, 0, 0);
    BitOfRest(m.segments[s], 32);
    BitOfRest(entry, PAGE_INVALID);
  }

  lemma BitOfRest(e: nat, b: nat)
    requires b in {32, 1024}
    ensures Bit(e, b) <==> e % (2 * b) >= b
  {
    var n := 2 * b;
    assert n != 0;
    DivMod(e, n);
    Halves(e, b, e / n, e % n);
  }

  lemma Halves(e: nat, b: nat, q: nat, r: nat)
    requires b in {32, 1024} && e == 2 * b * q + r && r < 2 * b
    ensures Bit(e, b) <==> r >= b
  {
    if r < b {
      DivUnique(e, b, 2 * q, r);
    } else {
      DivUnique(e, b, 2 * q + 1, r - b);
    }
  }

  /** Mapping the first page of its segment, in the page table at a, whatever real storage holds. */
  ghost predicate Translates(segments: seq<nat>, va: nat, phys: nat, flags: nat, a: nat)
    requires |segments| == SEGMENTS
  {
    forall words, garbage :: RealOf(PageStored(Store(words, garbage, segments), va, phys, flags, Some(a)), va) == phys
  }

  lemma LowOrigin(a: nat)
    requires a % PAGE == 0
    ensures !Bit(a, SEGMENT_INVALID) && SegmentOrigin(a) == a % MASK_LIMIT && a % MASK_LIMIT % PAGE == 0
  {
    LowBits(a);
    TableAsEntry(a % MASK_LIMIT);
  }

  /** What is read for the page then: the entry at the low 32 bits of the address of the table. */
  function Translated(words: map<nat, nat>, garbage: nat -> nat, p: nat, entry: nat, a: nat): nat {
    if a % MASK_LIMIT == 0 then 0
    else
      var stored := Cleared(words, garbage, a, PAGES)[EntryAt(a, p) := entry];
      PageOrigin(WordAt(stored, garbage, EntryAt(a % MASK_LIMIT, p)))
  }

  lemma TranslatedSo(segments: seq<nat>, words: map<nat, nat>, garbage: nat -> nat, va: nat, phys: nat, flags: nat,
                     a: nat)
    requires |segments| == SEGMENTS && Bit(segments[SegmentIndex(va)], SEGMENT_INVALID)
    requires va % PAGE == 0 && a % PAGE == 0
    ensures RealOf(PageStored(Store(words, garbage, segments), va, phys, flags, Some(a)), va)
         == Translated(words, garbage, PageIndex(va), BitOr(phys, flags), a)
  {
    hide BitOr, Bit, SegmentIndex, PageIndex, SegmentOrigin, PageOrigin, Cleared, WordAt;
    LowOrigin(a);
    var r := Translated(words, garbage, PageIndex(va), BitOr(phys, flags), a);
    if a % MASK_LIMIT != 0 {
      BitOrPage(r, 0);
    }
  }

  /** A table below 4 GiB holds the entry, and one that lies higher is looked for in storage that may hold
      anything. */
  lemma TranslatedEntry(words: map<nat, nat>, garbage: nat -> nat, p: nat, entry: nat, a: nat)
    requires p < PAGES && a % PAGE == 0 && a > 0
    ensures Translated(words, garbage, p, entry, a)
         == if a < MASK_LIMIT then PageOrigin(entry)
            else if a % MASK_LIMIT == 0 then 0
            else PageOrigin(WordAt(words, garbage, EntryAt(a % MASK_LIMIT, p)))
  {
    hide Cleared, PageOrigin;
    LowOrigin(a);
    ClearedEntries(words, garbage, a, PAGES);
  }

  /** The page then translates to its frame exactly when frame and page table lie below 4 GiB; frame 0 also when
      the table is taken for none. */
  lemma MappedTranslatesExactly(segments: seq<nat>, va: nat, phys: nat, flags: nat, a: nat)
    requires |segments| == SEGMENTS && Bit(segments[SegmentIndex(va)], SEGMENT_INVALID)
    requires va % PAGE == 0 && phys % PAGE == 0 && flags < PAGE && a % PAGE == 0 && a > 0
    ensures Translates(segments, va, phys, flags, a)
            <==> (phys < MASK_LIMIT && a < MASK_LIMIT) || (phys == 0 && a % MASK_LIMIT == 0)
  {
    hide BitOr, Bit, SegmentIndex, PageIndex, SegmentOrigin, PageOrigin, Cleared, RealOf, PageStored, Translated;
    var p, entry := PageIndex(va), BitOr(phys, flags);
    FrameRestoredExactly(phys, flags);
    forall words, garbage
      ensures RealOf(PageStored(Store(words, garbage, segments), va, phys, flags, Some(a)), va)
           == if a < MASK_LIMIT then PageOrigin(entry)
              else if a % MASK_LIMIT == 0 then 0
              else PageOrigin(WordAt(words, garbage, EntryAt(a % MASK_LIMIT, p)))
    {
      TranslatedSo(segments, words, garbage, va, phys, flags, a);
      TranslatedEntry(words, garbage, p, entry, a);
    }
    var other := if phys == 0 then PAGE else 0;
    var any := Store(map[], (x: nat) => other, segments);
    assert WordAt(any.words, any.garbage, EntryAt(a % MASK_LIMIT, p)) == other;
    OwnOrigin(other);
    assert Translates(segments, va, phys, flags, a) ==>
             RealOf(PageStored(Store(any.words, any.garbage, segments), va, phys, flags, Some(a)), va) == phys;
  }

  lemma OwnOrigin(frame: nat)
    requires frame == 0 || frame == PAGE
    ensures PageOrigin(frame) == frame
  {
  }

  /** map_range after n pages. */
  function RangeStored(m: Store, va: nat, phys: nat, flags: nat, answers: nat -> Option<nat>, n: nat): (r: Store)
    requires |m.segments| == SEGMENTS
    ensures |r.segments| == SEGMENTS
  {
    if n == 0 then m
    else
      var i := (n - 1) * PAGE;
      PageStored(RangeStored(m, va, phys, flags, answers, n - 1), Wrap(va + i), Wrap(phys + i), flags, answers(n - 1))
  }

  class AddressSpace {
    const segtab: array<nat>
    /** Real storage by address; a word never written holds an arbitrary value. */
    var memory: map<nat, nat>
    /** Page number to entry, for every page mapped so far. */
    ghost var flat: Flat
    /** Segment to the address of its page table. */
    ghost var tables: map<nat, nat>

    /** What an unwritten word holds. */
    const garbage: nat -> nat

    function Load(a: nat): nat
      reads this
    {
      WordAt(memory, garbage, a)
    }

    /** The entry of a page number in the table of its segment. */
    ghost function Entry(n: nat): nat
      reads this
      requires n / PAGES in tables
    {
      Load(EntryAt(tables[n / PAGES], n % PAGES))
    }

    ghost function Raw(): Store
      reads this, segtab
    {
      Store(memory, garbage, segtab[..])
    }

    ghost predicate Valid()
      reads this, segtab
    {
      && Linked()
      && (forall n :: n in flat ==> n / PAGES in tables && Entry(n) == flat[n])
      && (forall n: nat :: n !in flat && n / PAGES in tables ==> Bit(Entry(n), PAGE_INVALID))
      && (forall s :: s in tables <==> InUse(flat, s))
    }

    /** address_space::create on a segment table of arbitrary contents. */
    constructor (segments: nat -> nat, garbage: nat -> nat)
      ensures Valid() && flat == map[] && tables == map[] && fresh(segtab) && segtab.Length == SEGMENTS
    {
      this.garbage := garbage;
      memory, flat, tables := map[], map[], map[];
      segtab := new nat[SEGMENTS](i => segments(i));
      new;
      var i := 0;
      while i < SEGMENTS
        invariant i <= SEGMENTS && flat == map[] && tables == map[] && memory == map[] && fresh(segtab)
        invariant forall s :: 0 <= s < i ==> Bit(segtab[s], SEGMENT_INVALID)
      {
        SetSegmentInvalid(segtab[i]);
        segtab[i] := SetBit(segtab[i], SEGMENT_INVALID);
        i := i + 1;
      }
    }

    /** A page table with every entry marked as invalid. */
    method ClearTable(table: nat)
      modifies this`memory
      ensures memory == Cleared(old(memory), garbage, table, PAGES)
      ensures forall i :: 0 <= i < PAGES ==> Bit(Load(EntryAt(table, i)), PAGE_INVALID)
      ensures forall a: nat :: a < table || table + PAGE <= a ==> Load(a) == old(Load(a))
    {
      var i := 0;
      while i < PAGES
        invariant i <= PAGES && memory == Cleared(old(memory), garbage, table, i)
      {
        var a := EntryAt(table, i);
        memory := memory[a := SetBit(Load(a), PAGE_INVALID)];
        i := i + 1;
      }
      ClearedEntries(old(memory), garbage, table, PAGES);
    }

    /** A new page table, cleared and put in place. */
    method InstallTable(s: nat, table: nat)
      requires segtab.Length == SEGMENTS && s < SEGMENTS
      modifies this`memory, this`tables, segtab
      ensures memory == Cleared(old(memory), garbage, table, PAGES) && segtab[..] == old(segtab[..])[s := table]
      ensures tables == old(tables)[s := table]
      ensures old(Valid()) && s !in old(tables) && GoodAnswer(Some(table), old(tables)) ==> Ready(s, table)
    {
      hide Bit, InUse, Cleared, WordAt;
      ghost var good := Valid() && s !in tables && GoodAnswer(Some(table), tables);
      ClearTable(table);
      segtab[s] := table;
      tables := tables[s := table];
      if good {
        forall n: nat | n / PAGES in old(tables)
          ensures Entry(n) == old(Entry(n))
        {
          PagesDoNotOverlap(table, tables[n / PAGES]);
        }
      }
    }

    lemma TableIsReady(s: nat)
      requires Valid() && s in tables
      ensures Ready(s, tables[s])
    {
    }

    /** The page table of a segment, allocated and cleared when the segment has none yet; None when it has
        none and there is no storage for it. The second half is about page tables below 4 GiB. */
    method EnsureTable(s: nat, answer: Option<nat>) returns (table: Option<nat>)
      requires segtab.Length == SEGMENTS && s < SEGMENTS
      modifies this`memory, this`tables, segtab
      ensures table == TableOf(old(segtab[s]), answer) && Raw() == Ensured(old(Raw()), s, answer)
      ensures table.None? ==> Raw() == old(Raw())
      ensures old(Valid()) && GoodAnswer(answer, old(tables)) ==>
                && table == (if s in old(tables) then Some(old(tables)[s]) else answer)
                && tables == (if table.Some? then old(tables)[s := table.value] else old(tables))
                && if table.Some? then Ready(s, table.value) else Valid()
    {
      hide Bit, SegmentOrigin, InUse, Cleared, WordAt, Ready;
      ghost var good := Valid() && GoodAnswer(answer, tables);
      if Bit(segtab[s], SEGMENT_INVALID) {
        if good && s in tables {
          TableAsEntry(tables[s]);
        }
        if answer.None? {
          return None;
        }
        InstallTable(s, answer.value);
        return answer;
      }
      if good {
        assert s in tables;
        TableAsEntry(tables[s]);
        TableIsReady(s);
      }
      if SegmentOrigin(segtab[s]) == 0 {
        return None;
      }
      table := Some(SegmentOrigin(segtab[s]));
    }

    /** map_page. As long as page tables lie below 4 GiB it is one update of the flat map, or an error when the
        segment has no page table and there is no storage for one. The answer is that of real_storage::alloc if
        it is asked. */
    method MapPage(va: nat, phys: nat, flags: nat, answer: Option<nat>) returns (ok: bool)
      requires segtab.Length == SEGMENTS && va % PAGE == 0 && phys % PAGE == 0
      modifies this`memory, this`flat, this`tables, segtab
      ensures Raw() == PageStored(old(Raw()), va, phys, flags, answer)
      ensures ok <==> TableOf(old(segtab[SegmentIndex(va)]), answer).Some?
      ensures old(Valid()) && GoodAnswer(answer, old(tables)) ==>
                && Valid() && ok == (answer.Some? || old(InUse(flat, PageNumber(va) / PAGES)))
                && flat == FlatPage(old(flat), PageNumber(va), BitOr(phys, flags), answer.Some?)
                && flat == (if ok then old(flat)[PageNumber(va) := BitOr(phys, flags)] else old(flat))
                && (forall s :: s in tables ==>
                      (s in old(tables) && tables[s] == old(tables)[s]) || answer == Some(tables[s]))
    {
      hide BitOr, Bit, InUse, GoodTables, GoodAnswer, PageNumber, SegmentIndex, PageIndex, TableOf, Ensured;
      hide Valid, Linked, Ready, Entry, Load;
      PageNumberParts(va);
      if Valid() {
        TableInUse(PageNumber(va) / PAGES);
      }
      var table := EnsureTable(SegmentIndex(va), answer);
      if table.None? {
        return false;
      }
      SetEntry(PageNumber(va), table.value, BitOr(phys, flags));
      ok := true;
    }

    lemma TableInUse(s: nat)
      requires Valid()
      ensures s in tables <==> InUse(flat, s)
    {
    }

    /** Where the entry of a page is found. */
    lemma PageInTable(n: nat)
      requires Valid() && n / PAGES < SEGMENTS
      ensures var s := n / PAGES;
              if s in tables then !Bit(segtab[s], SEGMENT_INVALID) && SegmentOrigin(segtab[s]) == tables[s] > 0
              else Bit(segtab[s], SEGMENT_INVALID)
      ensures n in flat ==> n / PAGES in tables && Load(EntryAt(tables[n / PAGES], n % PAGES)) == flat[n]
    {
      hide Bit, SegmentOrigin;
      if n / PAGES in tables {
        TableAsEntry(tables[n / PAGES]);
        assert n in flat ==> Entry(n) == flat[n];
      }
    }

    /** Segment table and page tables as the ghost fields have them, apart from page entries. */
    ghost predicate Linked()
      reads this, segtab
    {
      && segtab.Length == SEGMENTS && GoodTables(tables)
      && forall s :: 0 <= s < SEGMENTS ==>
           if s in tables then segtab[s] == tables[s] else Bit(segtab[s], SEGMENT_INVALID)
    }

    /** Writing one entry of a page table. */
    method SetEntry(n: nat, table: nat, entry: nat)
      modifies this`memory, this`flat
      ensures memory == old(memory)[EntryAt(table, n % PAGES) := entry]
      ensures old(Ready(n / PAGES, table)) ==> Valid() && flat == old(flat)[n := entry]
    {
      hide Bit, GoodTables, InUse;
      ghost var ready := Ready(n / PAGES, table);
      memory := memory[EntryAt(table, n % PAGES) := entry];
      flat := flat[n := entry];
      if ready {
        forall m: nat | m / PAGES in tables && m != n
          ensures Entry(m) == old(Entry(m))
        {
          EntriesApart(tables, n, m);
        }
        forall s: nat
          ensures InUse(flat, s) <==> s == n / PAGES || old(InUse(flat, s))
        {
          FlatPageInUse(old(flat), n, entry, true, s);
        }
      }
    }

    /** Valid, and segment s has its page table, be it without a mapped page. */
    ghost predicate Ready(s: nat, table: nat)
      reads this, segtab
    {
      && Linked()
      && (forall m :: m in flat ==> m / PAGES in tables && Entry(m) == flat[m])
      && (forall m: nat :: m !in flat && m / PAGES in tables ==> Bit(Entry(m), PAGE_INVALID))
      && s in tables && tables[s] == table
      && (forall t :: t in tables <==> t == s || InUse(flat, t))
    }

    /** virtual_to_real: 0 when the segment has no page table. The invalid bit of the page entry is not looked at,
        so an unmapped page of a segment in use is translated all the same, to whatever its entry holds. */
    method VirtualToReal(va: nat) returns (r: nat)
      requires segtab.Length == SEGMENTS
      ensures r == RealOf(Raw(), va)
      ensures Valid() ==>
                && (!InUse(flat, PageNumber(va) / PAGES) ==> r == 0)
                && (PageNumber(va) in flat ==> r == PageOrigin(flat[PageNumber(va)]) + va % PAGE)
                && (InUse(flat, PageNumber(va) / PAGES) ==> r % PAGE == va % PAGE)
                && (va % PAGE != 0 ==> (r == 0 <==> !InUse(flat, PageNumber(va) / PAGES)))
    {
      hide BitOr, PageOrigin, SegmentOrigin, Bit, PageNumber, PageIndex, SegmentIndex, Valid, InUse, WordAt;
      PageNumberParts(va);
      var s, p := SegmentIndex(va), PageIndex(va);
      if Valid() {
        TableInUse(s);
        PageInTable(PageNumber(va));
      }
      if Bit(segtab[s], SEGMENT_INVALID) {
        return 0;
      }
      var table := SegmentOrigin(segtab[s]);
      if table == 0 {
        return 0;
      }
      var origin := PageOrigin(Load(EntryAt(table, p)));
      BitOrPage(origin, va % PAGE);
      r := BitOr(origin, va % PAGE);
    }

    /** The page is mapped, its entry is not marked invalid, and its frame starts at phys. */
    ghost predicate Matches(n: nat, phys: nat)
      reads this
    {
      n in flat && !Bit(flat[n], PAGE_INVALID) && PageOrigin(flat[n]) == phys
    }

    ghost predicate NoMatch(phys: nat, below: nat)
      reads this
    {
      forall n: nat :: n < below ==> !Matches(n, phys)
    }

    /** The inner loop of phys2virt: the first match in segment i. */
    method FindInSegment(i: nat, phys: nat) returns (found: bool, j: nat)
      requires Valid() && i < SEGMENTS && !Bit(segtab[i], SEGMENT_INVALID) && NoMatch(phys, i * PAGES)
      ensures found ==> j < PAGES && Matches(i * PAGES + j, phys) && NoMatch(phys, i * PAGES + j)
      ensures !found ==> NoMatch(phys, (i + 1) * PAGES)
    {
      assert i in tables;
      TableAsEntry(tables[i]);
      var table := SegmentOrigin(segtab[i]);
      j := 0;
      while j < PAGES
        invariant j <= PAGES && NoMatch(phys, i * PAGES + j)
      {
        ghost var n := i * PAGES + j;
        var entry := Load(EntryAt(table, j));
        assert n / PAGES == i && n % PAGES == j && entry == Entry(n);
        if !Bit(entry, PAGE_INVALID) && PageOrigin(entry) == phys {
          assert n in flat;
          return true, j;
        }
        assert !Matches(n, phys);
        j := j + 1;
      }
      return false, j;
    }

    /** phys2virt: the address of the first page whose frame starts at phys, 0 when there is none. The
        address 0 of a match in page 0 reads like none. */
    method Phys2Virt(phys: nat) returns (r: nat)
      requires Valid()
      ensures NoMatch(phys, ALL_PAGES) ==> r == 0
      ensures !NoMatch(phys, ALL_PAGES) ==>
                PageNumber(r) * PAGE == r && Matches(PageNumber(r), phys) && NoMatch(phys, PageNumber(r))
    {
      var i := 0;
      while i < SEGMENTS
        invariant i <= SEGMENTS && NoMatch(phys, i * PAGES)
      {
        if !Bit(segtab[i], SEGMENT_INVALID) {
          var found, j := FindInSegment(i, phys);
          if found {
            PageAddress(i, j);
            assert Matches(i * PAGES + j, phys) && i * PAGES + j < ALL_PAGES;
            return BitOr(BitOr(i * SEGMENT, j * PAGE), phys % PAGE);
          }
        } else {
          assert i !in tables by {
            if i in tables {
              TableAsEntry(tables[i]);
            }
          }
          NoPageInSegment(flat, i);
        }
        i := i + 1;
      }
      return 0;
    }

    /** map_range: one map_page for each page of the rounded-up range, in 64-bit arithmetic; what map_page
        returns is not looked at. The answers are those of real_storage::alloc, page by page. The flat map follows
        as long as they lie below 4 GiB. */
    method MapRange(va: nat, phys: nat, flags: nat, size: nat, answers: nat -> Option<nat>)
      requires segtab.Length == SEGMENTS
      requires va % PAGE == 0 && phys % PAGE == 0 && va < WORD && phys < WORD && size < WORD
      modifies this`memory, this`flat, this`tables, segtab
      ensures Raw() == RangeStored(old(Raw()), va, phys, flags, answers, PagesOf(size))
      ensures old(Valid()) && GoodAnswers(answers, 0, old(tables)) ==>
                Valid() && flat == FlatRange(old(flat), va, phys, flags, Granted(answers), PagesOf(size))
    {
      hide BitOr, Bit, PageNumber, FlatRange, FlatPage, GoodTables, GoodAnswer, GoodAnswers, InUse, PagesOf, Wrap;
      hide Valid, Entry, Load, PageStored, RangeStored;
      var rounded := size;
      if size % PAGE != 0 {
        rounded := Wrap(size + (PAGE - size % PAGE));
      }
      RoundedToPages(size, rounded);
      var i := 0;
      ghost var n := 0;
      ghost var grants := Granted(answers);
      ghost var good := Valid() && GoodAnswers(answers, 0, tables);
      FlatRangeNothing(flat, va, phys, flags, grants);
      NothingStored(Raw(), va, phys, flags, answers);
      while i < rounded
        invariant i == n * PAGE && rounded == PagesOf(size) * PAGE && n <= PagesOf(size)
        invariant Raw() == RangeStored(old(Raw()), va, phys, flags, answers, n)
        invariant good ==> Valid() && flat == FlatRange(old(flat), va, phys, flags, grants, n)
        invariant good ==> GoodAnswers(answers, n, tables)
        decreases rounded - i
      {
        NextPage(old(flat), va, phys, flags, grants, n, i);
        LastStored(old(Raw()), va, phys, flags, answers, n);
        if good {
          NextAnswer(answers, n, tables);
        }
        ghost var before := tables;
        var _ := MapPage(Wrap(va + i), Wrap(phys + i), flags, answers(i / PAGE));
        if good {
          AnswersStayGood(answers, n, before, tables);
        }
        i, n := i + PAGE, n + 1;
      }
    }
  }

  lemma NoPageInSegment(f: Flat, i: nat)
    requires !InUse(f, i)
    ensures forall n: nat :: i * PAGES <= n < (i + 1) * PAGES ==> n !in f
  {
    forall n: nat | i * PAGES <= n < (i + 1) * PAGES
      ensures n !in f
    {
      assert n / PAGES == i;
    }
  }

  function Granted(answers: nat -> Option<nat>): nat -> bool {
    (i: nat) => answers(i).Some?
  }

  lemma RoundedToPages(size: nat, rounded: nat)
    requires size < WORD
    requires rounded == if size % PAGE == 0 then size else Wrap(size + (PAGE - size % PAGE))
    ensures rounded == PagesOf(size) * PAGE
  {
  }

  lemma WrappedToPages(a: nat, n: nat)
    requires a % PAGE == 0
    ensures Wrap(a + n * PAGE) % PAGE == 0 && n * PAGE / PAGE == n
  {
    var q := a / PAGE + n;
    assert a + n * PAGE == PAGE * q;
    var k := q / 0x10_0000_0000_0000;
    assert PAGE * q == WORD * k + PAGE * (q % 0x10_0000_0000_0000);
  }

  /** From call n on the answers are apart from the tables in use and from each other. */
  ghost predicate GoodAnswers(answers: nat -> Option<nat>, n: nat, tables: map<nat, nat>) {
    && (forall k :: k >= n ==> GoodAnswer(answers(k), tables))
    && (forall i, j :: i != j && answers(i).Some? ==> answers(i) != answers(j))
  }

  /** For instance two pages and then no storage. */
  lemma TwoAnswersAreGood()
    ensures GoodAnswers(i => if i == 0 then Some(4096) else if i == 1 then Some(8192) else None, 0, map[])
  {
  }

  lemma NextAnswer(answers: nat -> Option<nat>, n: nat, t: map<nat, nat>)
    requires GoodAnswers(answers, n, t)
    ensures GoodAnswer(answers(n), t)
  {
  }

  lemma AnswersStayGood(answers: nat -> Option<nat>, n: nat, t: map<nat, nat>, t': map<nat, nat>)
    requires GoodAnswers(answers, n, t)
    requires forall s :: s in t' ==> (s in t && t'[s] == t[s]) || answers(n) == Some(t'[s])
    ensures GoodAnswers(answers, n + 1, t')
  {
    forall k | k >= n + 1
      ensures GoodAnswer(answers(k), t')
    {
      assert GoodAnswer(answers(k), t);
    }
  }

  lemma NextPage(f: Flat, va: nat, phys: nat, flags: nat, grants: nat -> bool, n: nat, i: nat)
    requires va % PAGE == 0 && phys % PAGE == 0 && i == n * PAGE
    ensures Wrap(va + i) % PAGE == 0 && Wrap(phys + i) % PAGE == 0 && i / PAGE == n
    ensures FlatRange(f, va, phys, flags, grants, n + 1)
         == FlatPage(FlatRange(f, va, phys, flags, grants, n), PageNumber(Wrap(va + i)), BitOr(Wrap(phys + i), flags),
                     grants(n))
  {
    hide BitOr, FlatRange, FlatPage, PageNumber, Wrap;
    WrappedPageNumber(va + i);
    WrappedToPages(va, n);
    WrappedToPages(phys, n);
    FlatRangeLast(f, va, phys, flags, grants, n);
  }

  lemma NothingStored(m: Store, va: nat, phys: nat, flags: nat, answers: nat -> Option<nat>)
    requires |m.segments| == SEGMENTS
    ensures RangeStored(m, va, phys, flags, answers, 0) == m
  {
  }

  lemma LastStored(m: Store, va: nat, phys: nat, flags: nat, answers: nat -> Option<nat>, n: nat)
    requires |m.segments| == SEGMENTS
    ensures RangeStored(m, va, phys, flags, answers, n + 1)
         == PageStored(RangeStored(m, va, phys, flags, answers, n), Wrap(va + n * PAGE), Wrap(phys + n * PAGE), flags,
                       answers(n))
  {
  }

  lemma FlatRangeLast(f: Flat, va: nat, phys: nat, flags: nat, grants: nat -> bool, n: nat)
    ensures FlatRange(f, va, phys, flags, grants, n + 1)
         == FlatPage(FlatRange(f, va, phys, flags, grants, n), PageNumber(va + PAGE * n),
                     BitOr(Wrap(phys + PAGE * n), flags), grants(n))
  {
  }

  lemma PageAddress(i: nat, j: nat)
    requires i < SEGMENTS && j < PAGES
    ensures var n := i * PAGES + j;
            BitOr(BitOr(i * SEGMENT, j * PAGE), 0) == n * PAGE && PageNumber(n * PAGE) == n
  {
    hide BitOr, Pow2, PageNumber;
    TwentyBits();
    AddressParts(i, j);
    BitOrDisjoint(i * SEGMENT, j * PAGE, 20);
    BitOrPage(i * SEGMENT + j * PAGE, 0);
    NumberOfPage(i * PAGES + j);
  }

  lemma AddressParts(i: nat, j: nat)
    requires i < SEGMENTS && j < PAGES
    ensures i * SEGMENT % SEGMENT == 0 && j * PAGE < SEGMENT && (i * SEGMENT + j * PAGE) % PAGE == 0
    ensures i * SEGMENT + j * PAGE == (i * PAGES + j) * PAGE && i * PAGES + j < ALL_PAGES
  {
    MultipleMod(SEGMENT, i);
    MultipleMod(PAGE, i * PAGES + j);
  }

  lemma TwentyBits()
    ensures Pow2(20) == SEGMENT
  {
    assert Pow2(8) == 256;
    assert Pow2(14) == 16384;
  }

  lemma NumberOfPage(n: nat)
    requires n < ALL_PAGES
    ensures PageNumber(n * PAGE) == n
  {
  }
}
