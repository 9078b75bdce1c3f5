/**
  The retry loop of the DASD driver (kernel/s390/dasd.cxx), which tries up to four locations, each read
  failure moving it to the next record, track or cylinder. A single read is a lookup in a map of records.
 */
module Dasd {
  import opened Wrappers

  newtype byte = b: int | 0 <= b < 256

  /** disk_loc: three unsigned short numbers. */
  datatype Loc = Loc(cylinder: nat, track: nat, record: nat)

  /** Modulus of an unsigned short. */
  const SHORT: nat := 65536

  function Next(n: nat): nat {
    (n + 1) % SHORT
  }

  function Behind(loc: Loc): Loc {
    loc.(record := Next(loc.record))
  }

  /** Where read_single looks: the number of the record is cut to 8 bits. */
  function Address(loc: Loc): Loc {
    loc.(record := loc.record % 256)
  }

  /** The records by their addresses. */
  type Disk = map<Loc, seq<byte>>

  /** Where attempt k looks, counted from 0. */
  function Probe(loc: Loc, k: nat): Loc {
    match k
    case 0 => loc
    case 1 => Behind(loc)
    case 2 => Loc(loc.cylinder, Next(loc.track), 1)
    case _ => Loc(Next(loc.cylinder), 0, 1)
  }

  /** The first of the four locations with a record, from attempt k on. */
  function FindFrom(disk: Disk, loc: Loc, k: nat): (r: Option<Loc>)
    requires k <= 4
    ensures r.Some? ==> Address(r.value) in disk
    decreases 4 - k
  {
    if k == 4 then None
    else if Address(Probe(loc, k)) in disk then Some(Probe(loc, k))
    else FindFrom(disk, loc, k + 1)
  }

  function Find(disk: Disk, loc: Loc): (r: Option<Loc>)
    ensures r.Some? ==> Address(r.value) in disk
  {
    FindFrom(disk, loc, 0)
  }

  /** read_single: the record, cut off at n bytes. */
  function Cut(data: seq<byte>, n: nat): seq<byte> {
    if |data| <= n then data else data[..n]
  }

  /** The four locations in their order, as long as no number wraps around: the location itself, the next record,
      the first record of the next track, the first record of the next cylinder. */
  lemma FourProbes(disk: Disk, c: nat, t: nat, r: nat)
    requires c < 65535 && t < 65535 && r < 65535
    ensures Find(disk, Loc(c, t, r))
         == if Loc(c, t, r % 256) in disk then Some(Loc(c, t, r))
            else if Loc(c, t, (r + 1) % 256) in disk then Some(Loc(c, t, r + 1))
            else if Loc(c, t + 1, 1) in disk then Some(Loc(c, t + 1, 1))
            else if Loc(c + 1, 0, 1) in disk then Some(Loc(c + 1, 0, 1))
            else None
  {
    var loc := Loc(c, t, r);
    assert FindFrom(disk, loc, 3)
        == if Loc(c + 1, 0, 1) in disk then Some(Loc(c + 1, 0, 1)) else FindFrom(disk, loc, 4);
    assert FindFrom(disk, loc, 2)
        == if Loc(c, t + 1, 1) in disk then Some(Loc(c, t + 1, 1)) else FindFrom(disk, loc, 3);
    assert FindFrom(disk, loc, 1)
        == if Loc(c, t, (r + 1) % 256) in disk then Some(Loc(c, t, r + 1)) else FindFrom(disk, loc, 2);
  }

  /** All three numbers of a location wrap around behind 65535. */
  lemma NumbersWrap(disk: Disk, loc: Loc)
    ensures Behind(loc.(record := 65535)) == loc.(record := 0)
    ensures Probe(loc.(track := 65535), 2) == Loc(loc.cylinder, 0, 1)
    ensures Probe(loc.(cylinder := 65535), 3) == Loc(0, 0, 1)
    ensures loc.record < 65535 ==> Behind(loc) == loc.(record := loc.record + 1)
  {
  }

  /** The part of a record that is read: its first bytes, as many as there are and the caller has room for. */
  lemma CutIsFront(data: seq<byte>, n: nat)
    ensures Cut(data, n) <= data && |Cut(data, n)| == if |data| < n then |data| else n
  {
  }

  class Driver {
    const disk: Disk
    /** The location behind the last record read. */
    var last: Loc

    constructor (disk: Disk)
      ensures this.disk == disk && last == Loc(0, 0, 0)
    {
      this.disk, last := disk, Loc(0, 0, 0);
    }

    /** read_disk. */
    method ReadDisk(from: Loc, n: nat) returns (r: Option<seq<byte>>)
      modifies this
      ensures match Find(disk, from)
              case None => r == None && last == old(last)
              case Some(at) => r == Some(Cut(disk[Address(at)], n)) && last == Behind(at)
      ensures r.Some? ==> r.value <= disk[Address(Find(disk, from).value)] && |r.value| <= n
    {
      var loc := from;
      var errors := 0;
      while errors < 4
        invariant errors <= 4 && (errors < 4 ==> loc == Probe(from, errors)) && last == old(last)
        invariant Find(disk, from) == FindFrom(disk, from, errors)
      {
        if Address(loc) !in disk {
          errors := errors + 1;
          if errors == 1 {
            loc := loc.(record := Next(loc.record));
          } else if errors == 2 {
            loc := loc.(record := 1, track := Next(loc.track));
          } else if errors == 3 {
            loc := loc.(record := 1, track := 0, cylinder := Next(loc.cylinder));
          }
          continue;
        }
        var data := disk[Address(loc)];
        last := loc.(record := Next(loc.record));
        return Some(Cut(data, n));
      }
      return None;
    }
  }
}
