/** read_file of the zdsfs filesystem (kernel/zdsfs.cxx) on top of the driver in Dasd.dfy. */
module Zdsfs {
  import opened Wrappers
  import opened Dasd

  /** The buffer size read_file asks for. */
  const CHUNK: nat := 3450

  /** The part of a dataset control block that read_file looks at. */
  datatype Dscb = Dscb(startCyl: nat, startTrack: nat, endCyl: nat, endTrack: nat)

  /** Done: return code 0. Failed: RESOURCE_UNAVAILABLE, with what the buffer holds by then. */
  datatype Reading = Done(data: seq<byte>) | Failed(data: seq<byte>)

  function Prepend(d: seq<byte>, r: Reading): Reading {
    match r
    case Done(e) => Done(d + e)
    case Failed(e) => Failed(d + e)
  }

  /** The test after a record: behind the last track of the extent, in its last cylinder or later. */
  predicate PastEnd(ds: Dscb, loc: Loc) {
    loc.track > ds.endTrack && loc.cylinder >= ds.endCyl
  }

  // ----- The loop of read_file

  /** One turn: the end of the reading, or some data and the location to go on from. */
  datatype Turn = Stop(reading: Reading) | More(data: seq<byte>, next: Loc)

  function TurnAt(disk: Disk, ds: Dscb, loc: Loc): (t: Turn)
    ensures t.More? ==> t.data != []
  {
    match Find(disk, loc)
    case None => Stop(Failed([]))
    case Some(at) =>
      var data := Cut(disk[Address(at)], CHUNK);
      if data == [] then Stop(Done([]))
      else if PastEnd(ds, Behind(at)) then Stop(Done(data))
      else More(data, Behind(at))
  }

  /** The outcome of at most n turns. */
  function ReadWithin(disk: Disk, ds: Dscb, loc: Loc, n: nat): Option<Reading>
    decreases n
  {
    if n == 0 then None
    else match TurnAt(disk, ds, loc)
      case Stop(r) => Some(r)
      case More(data, next) => Then(data, ReadWithin(disk, ds, next, n - 1))
  }

  function Then(d: seq<byte>, r: Option<Reading>): Option<Reading> {
    if r.None? then None else Some(Prepend(d, r.value))
  }

  /** The loop ends. */
  ghost predicate Ends(disk: Disk, ds: Dscb, loc: Loc) {
    exists n: nat :: ReadWithin(disk, ds, loc, n).Some?
  }

  lemma {:induction false} MoreTurns(disk: Disk, ds: Dscb, loc: Loc, n: nat, m: nat)
    requires ReadWithin(disk, ds, loc, n).Some? && n <= m
    ensures ReadWithin(disk, ds, loc, m) == ReadWithin(disk, ds, loc, n)
    decreases n
  {
    var t := TurnAt(disk, ds, loc);
    if t.More? {
      MoreTurns(disk, ds, t.next, n - 1, m - 1);
    }
  }

  /** The outcome of the loop from loc on, if it ends. */
  ghost function ReadFrom(disk: Disk, ds: Dscb, loc: Loc): Option<Reading> {
    if Ends(disk, ds, loc) then
      var n: nat :| ReadWithin(disk, ds, loc, n).Some?;
      ReadWithin(disk, ds, loc, n)
    else None
  }

  lemma ReadFromWithin(disk: Disk, ds: Dscb, loc: Loc, n: nat)
    requires ReadWithin(disk, ds, loc, n).Some?
    ensures ReadFrom(disk, ds, loc) == ReadWithin(disk, ds, loc, n)
  {
    var m: nat :| ReadWithin(disk, ds, loc, m).Some? && ReadFrom(disk, ds, loc) == ReadWithin(disk, ds, loc, m);
    if n <= m {
      MoreTurns(disk, ds, loc, n, m);
    } else {
      MoreTurns(disk, ds, loc, m, n);
    }
  }

  lemma EndsBehind(disk: Disk, ds: Dscb, loc: Loc)
    requires TurnAt(disk, ds, loc).More?
    ensures Ends(disk, ds, loc) ==> Ends(disk, ds, TurnAt(disk, ds, loc).next)
  {
    if n: nat :| ReadWithin(disk, ds, loc, n).Some? {
      assert ReadWithin(disk, ds, TurnAt(disk, ds, loc).next, n - 1).Some?;
    }
  }

  /** One turn of the loop and the rest of it. */
  lemma ReadFromTurn(disk: Disk, ds: Dscb, loc: Loc)
    ensures ReadFrom(disk, ds, loc) == match TurnAt(disk, ds, loc)
                                       case Stop(r) => Some(r)
                                       case More(data, next) => Then(data, ReadFrom(disk, ds, next))
  {
    match TurnAt(disk, ds, loc)
    case Stop(r) => ReadFromWithin(disk, ds, loc, 1);
    case More(data, next) =>
      if Ends(disk, ds, next) {
        var n: nat :| ReadWithin(disk, ds, next, n).Some?;
        ReadFromWithin(disk, ds, next, n);
        assert ReadWithin(disk, ds, loc, n + 1) == Then(data, ReadWithin(disk, ds, next, n));
        ReadFromWithin(disk, ds, loc, n + 1);
      } else {
        EndsBehind(disk, ds, loc);
      }
  }

  lemma ThenTwice(a: seq<byte>, b: seq<byte>, r: Option<Reading>)
    ensures Then(a, Then(b, r)) == Then(a + b, r)
  {
    if r.Some? {
      assert a + (b + r.value.data) == a + b + r.value.data;
    }
  }

  lemma ThenNothing(r: Option<Reading>)
    ensures Then([], r) == r
  {
    if r.Some? {
      assert [] + r.value.data == r.value.data;
    }
  }

  lemma NothingBehind(d: seq<byte>)
    ensures Then(d, Some(Done([]))) == Some(Done(d)) && Then(d, Some(Failed([]))) == Some(Failed(d))
  {
    assert d + [] == d;
  }

  /** read_file: the buffer is filled record by record; *size is the length of the result. */
  method ReadFile(dev: Driver, ds: Dscb) returns (ok: bool, buf: seq<byte>)
    requires Ends(dev.disk, ds, Loc(ds.startCyl, ds.startTrack, 1))
    modifies dev
    ensures ReadFrom(dev.disk, ds, Loc(ds.startCyl, ds.startTrack, 1)) == Some(if ok then Done(buf) else Failed(buf))
  {
    var loc := Loc(ds.startCyl, ds.startTrack, 1);
    buf := [];
    ghost var goal := ReadFrom(dev.disk, ds, loc);
    ghost var n: nat :| ReadWithin(dev.disk, ds, loc, n).Some?;
    hide ReadFrom, Find;
    ThenNothing(goal);
    while true
      invariant goal == Then(buf, ReadFrom(dev.disk, ds, loc))
      invariant ReadWithin(dev.disk, ds, loc, n).Some?
      decreases n
    {
      ReadFromTurn(dev.disk, ds, loc);
      NothingBehind(buf);
      ghost var turn := TurnAt(dev.disk, ds, loc);
      var r := dev.ReadDisk(loc, CHUNK);
      if r.None? {
        return false, buf;
      }
      if r.value == [] {
        break;
      }
      loc := dev.last;
      ThenTwice(buf, r.value, ReadFrom(dev.disk, ds, loc));
      buf := buf + r.value;
      if loc.track > ds.endTrack {
        if loc.cylinder >= ds.endCyl {
          break;
        }
      }
      n := n - 1;
    }
    ok := true;
  }

  // ----- On which disks the loop ends

  /** The track and cylinder numbers on the disk are so small that the next one does not wrap around. */
  ghost predicate Numbered(disk: Disk) {
    forall l :: l in disk ==> l.cylinder < SHORT - 1 && l.track < SHORT - 1
  }

  /** A record on this track is not behind the extent. */
  predicate InExtent(ds: Dscb, c: nat, t: nat) {
    c < ds.endCyl || t <= ds.endTrack
  }

  /** The loop leaves the track at number k: a record of no bytes, or two numbers in a row without a record. */
  predicate Leaves(disk: Disk, c: nat, t: nat, k: nat) {
    if Loc(c, t, k) in disk then disk[Loc(c, t, k)] == [] else Loc(c, t, (k + 1) % 256) !in disk
  }

  /** Round and round: the loop leaves the track at none of its 256 numbers. */
  ghost predicate Circular(disk: Disk, c: nat, t: nat) {
    forall k: nat :: k < 256 ==> !Leaves(disk, c, t, k)
  }

  /** After n turns from loc on, the loop is on a circular track of the extent. */
  ghost predicate Circles(disk: Disk, ds: Dscb, loc: Loc, n: nat)
    decreases n
  {
    if n == 0 then InExtent(ds, loc.cylinder, loc.track) && Circular(disk, loc.cylinder, loc.track)
    else
      var t := TurnAt(disk, ds, loc);
      t.More? && Circles(disk, ds, t.next, n - 1)
  }

  ghost predicate ComesToCircle(disk: Disk, ds: Dscb, loc: Loc) {
    exists n: nat :: Circles(disk, ds, loc, n)
  }

  /** The next number, cut to 8 bits. */
  lemma NextCut(r: nat)
    ensures Next(r) % 256 == if r % 256 == 255 then 0 else r % 256 + 1
  {
    var m, q := (r + 1) / SHORT, r / 256;
    assert Next(r) == 256 * (q - 256 * m) + r % 256 + 1;
    if r % 256 == 255 {
      assert Next(r) == 256 * (q - 256 * m + 1);
    }
  }

  /** The turn at a number where the loop does not leave the track. */
  lemma StayOnTrack(disk: Disk, ds: Dscb, loc: Loc)
    requires InExtent(ds, loc.cylinder, loc.track)
    requires !Leaves(disk, loc.cylinder, loc.track, loc.record % 256)
    ensures var behind := Address(Behind(loc));
            var t := TurnAt(disk, ds, loc);
            if Address(loc) in disk then t.More? && t.next == Behind(loc)
            else if Leaves(disk, loc.cylinder, loc.track, behind.record) then t.Stop?
            else t.More? && t.next == Behind(Behind(loc))
  {
    hide Next;
    NextCut(loc.record);
    if Address(loc) in disk {
      assert Find(disk, loc) == Some(loc);
    } else {
      assert FindFrom(disk, loc, 1) == Some(Behind(loc));
    }
  }

  /** The records on tracks behind that of loc. */
  function Later(disk: Disk, loc: Loc): set<Loc> {
    set l | l in disk && (l.cylinder > loc.cylinder || (l.cylinder == loc.cylinder && l.track > loc.track))
  }

  /** The turn at a number where it does: the next record, if any, lies on a later track. */
  lemma LeaveTrack(disk: Disk, ds: Dscb, loc: Loc)
    requires Numbered(disk) && loc.cylinder < SHORT - 1 && loc.track < SHORT - 1
    requires Leaves(disk, loc.cylinder, loc.track, loc.record % 256)
    ensures var t := TurnAt(disk, ds, loc);
            t.More? ==> |Later(disk, t.next)| < |Later(disk, loc)|
  {
    var t := TurnAt(disk, ds, loc);
    if t.More? {
      NextCut(loc.record);
      var at := Find(disk, loc).value;
      assert at == Probe(loc, 2) || at == Probe(loc, 3);
      assert Address(at) in Later(disk, loc) && Address(at) !in Later(disk, t.next);
      SmallerSubset(Later(disk, t.next), Later(disk, loc));
    }
  }

  lemma SmallerSubset<T>(a: set<T>, b: set<T>)
    requires a < b
    ensures |a| < |b|
    decreases |b|
  {
    var x :| x in b && x !in a;
    if a != {} {
      var y :| y in a;
      assert x in b - {y} && x !in a - {y};
      SmallerSubset(a - {y}, b - {y});
    }
  }

  /** A turn goes on to a record of the disk in the extent. */
  lemma TurnNumbered(disk: Disk, ds: Dscb, loc: Loc)
    requires Numbered(disk)
    ensures var t := TurnAt(disk, ds, loc);
            t.More? ==> t.next.cylinder < SHORT - 1 && t.next.track < SHORT - 1
                        && InExtent(ds, t.next.cylinder, t.next.track)
  {
  }

  lemma EndsAfterTurn(disk: Disk, ds: Dscb, loc: Loc)
    ensures var t := TurnAt(disk, ds, loc);
            Ends(disk, ds, loc) <==> (t.More? ==> Ends(disk, ds, t.next))
  {
    var t := TurnAt(disk, ds, loc);
    if t.Stop? {
      assert ReadWithin(disk, ds, loc, 1).Some?;
    } else {
      EndsBehind(disk, ds, loc);
      if n: nat :| ReadWithin(disk, ds, t.next, n).Some? {
        assert ReadWithin(disk, ds, loc, n + 1).Some?;
      }
    }
  }

  /** So many numbers on from r, the one at j is read. */
  function Distance(r: nat, j: nat): nat
    requires j < 256
  {
    if r % 256 <= j then j - r % 256 else j + 256 - r % 256
  }

  lemma DistanceNext(r: nat, j: nat)
    requires j < 256 && r % 256 != j
    ensures Distance(Next(r), j) < Distance(r, j)
  {
    hide Next;
    NextCut(r);
  }

  /** Number j, where the loop would leave the track, comes closer, or the loop goes to a later track. */
  lemma {:induction false} EndsUnlessCircling(disk: Disk, ds: Dscb, loc: Loc, j: nat)
    requires Numbered(disk) && loc.cylinder < SHORT - 1 && loc.track < SHORT - 1
    requires InExtent(ds, loc.cylinder, loc.track)
    requires !ComesToCircle(disk, ds, loc)
    requires j < 256 && Leaves(disk, loc.cylinder, loc.track, j)
    ensures Ends(disk, ds, loc)
    decreases |Later(disk, loc)|, Distance(loc.record, j)
  {
    hide Ends, Later, TurnAt, Circular, ComesToCircle, Leaves, Distance;
    var t := TurnAt(disk, ds, loc);
    EndsAfterTurn(disk, ds, loc);
    if t.More? {
      TurnNumbered(disk, ds, loc);
      NoCirclesBehind(disk, ds, loc);
      if Leaves(disk, loc.cylinder, loc.track, loc.record % 256) {
        LeaveTrack(disk, ds, loc);
        var j' := LeavingNumber(disk, ds, t.next);
        EndsUnlessCircling(disk, ds, t.next, j');
      } else {
        StayOnTrack(disk, ds, loc);
        SameLater(disk, loc, t.next);
        DistanceNext(loc.record, j);
        if Address(loc) !in disk {
          DistanceNext(Next(loc.record), j);
        }
        EndsUnlessCircling(disk, ds, t.next, j);
      }
    }
  }

  lemma CirclesBehind(disk: Disk, ds: Dscb, loc: Loc, n: nat)
    requires TurnAt(disk, ds, loc).More? && Circles(disk, ds, TurnAt(disk, ds, loc).next, n)
    ensures Circles(disk, ds, loc, n + 1)
  {
  }

  lemma NoCirclesBehind(disk: Disk, ds: Dscb, loc: Loc)
    requires TurnAt(disk, ds, loc).More? && !ComesToCircle(disk, ds, loc)
    ensures !ComesToCircle(disk, ds, TurnAt(disk, ds, loc).next)
  {
    hide TurnAt, Circles;
    if n: nat :| Circles(disk, ds, TurnAt(disk, ds, loc).next, n) {
      CirclesBehind(disk, ds, loc, n);
      assert false;
    }
  }

  lemma SameLater(disk: Disk, a: Loc, b: Loc)
    requires a.cylinder == b.cylinder && a.track == b.track
    ensures Later(disk, a) == Later(disk, b)
  {
  }

  lemma LeavingNumber(disk: Disk, ds: Dscb, loc: Loc) returns (j: nat)
    requires InExtent(ds, loc.cylinder, loc.track) && !ComesToCircle(disk, ds, loc)
    ensures j < 256 && Leaves(disk, loc.cylinder, loc.track, j)
  {
    assert !Circles(disk, ds, loc, 0);
    j :| j < 256 && Leaves(disk, loc.cylinder, loc.track, j);
  }

  lemma TurnOnCircular(disk: Disk, ds: Dscb, loc: Loc)
    requires InExtent(ds, loc.cylinder, loc.track) && Circular(disk, loc.cylinder, loc.track)
    ensures var t := TurnAt(disk, ds, loc);
            t.More? && t.next.cylinder == loc.cylinder && t.next.track == loc.track
  {
    hide TurnAt;
    StayOnTrack(disk, ds, loc);
    assert !Leaves(disk, loc.cylinder, loc.track, loc.record % 256);
    assert !Leaves(disk, loc.cylinder, loc.track, Address(Behind(loc)).record);
  }

  /** On a circular track the loop goes round and never ends. */
  lemma {:induction false} CircularNeverEnds(disk: Disk, ds: Dscb, loc: Loc, n: nat)
    requires InExtent(ds, loc.cylinder, loc.track) && Circular(disk, loc.cylinder, loc.track)
    ensures ReadWithin(disk, ds, loc, n) == None
    decreases n
  {
    hide TurnAt, Circular;
    if n > 0 {
      TurnOnCircular(disk, ds, loc);
      CircularNeverEnds(disk, ds, TurnAt(disk, ds, loc).next, n - 1);
    }
  }

  lemma {:induction false} CirclingNeverEnds(disk: Disk, ds: Dscb, loc: Loc, n: nat)
    requires Circles(disk, ds, loc, n)
    ensures !Ends(disk, ds, loc)
    decreases n
  {
    if n == 0 {
      forall m: nat
        ensures ReadWithin(disk, ds, loc, m) == None
      {
        CircularNeverEnds(disk, ds, loc, m);
      }
    } else {
      CirclingNeverEnds(disk, ds, TurnAt(disk, ds, loc).next, n - 1);
      EndsAfterTurn(disk, ds, loc);
    }
  }

  /** The loop ends from a location exactly when it comes to no circular track of the extent. */
  lemma EndsExactly(disk: Disk, ds: Dscb, loc: Loc)
    requires Numbered(disk)
    ensures Ends(disk, ds, loc) <==> !ComesToCircle(disk, ds, loc)
  {
    hide Ends, TurnAt, Circles;
    if ComesToCircle(disk, ds, loc) {
      var n: nat :| Circles(disk, ds, loc, n);
      CirclingNeverEnds(disk, ds, loc, n);
    } else {
      EndsAfterTurn(disk, ds, loc);
      var t := TurnAt(disk, ds, loc);
      if t.More? {
        NoCirclesBehind(disk, ds, loc);
        TurnNumbered(disk, ds, loc);
        var j := LeavingNumber(disk, ds, t.next);
        EndsUnlessCircling(disk, ds, t.next, j);
      }
    }
  }

  lemma EndsUnlessCircular(disk: Disk, ds: Dscb, loc: Loc)
    requires Numbered(disk)
    requires forall c, t :: InExtent(ds, c, t) ==> !Circular(disk, c, t)
    ensures Ends(disk, ds, loc)
  {
    forall n: nat
      ensures !Circles(disk, ds, loc, n)
    {
      NoCircles(disk, ds, loc, n);
    }
    EndsExactly(disk, ds, loc);
  }

  lemma {:induction false} NoCircles(disk: Disk, ds: Dscb, loc: Loc, n: nat)
    requires forall c, t :: InExtent(ds, c, t) ==> !Circular(disk, c, t)
    ensures !Circles(disk, ds, loc, n)
    decreases n
  {
    var t := TurnAt(disk, ds, loc);
    if n > 0 && t.More? {
      NoCircles(disk, ds, t.next, n - 1);
    }
  }

  /** It ends from every location exactly when no track of the extent is circular. */
  lemma ReadingEndsExactly(disk: Disk, ds: Dscb)
    requires Numbered(disk)
    ensures (forall loc :: Ends(disk, ds, loc)) <==> forall c, t :: InExtent(ds, c, t) ==> !Circular(disk, c, t)
  {
    hide Ends, Circular;
    if c, t :| InExtent(ds, c, t) && Circular(disk, c, t) {
      CirclingNeverEnds(disk, ds, Loc(c, t, 1), 0);
      assert !Ends(disk, ds, Loc(c, t, 1));
    } else {
      forall loc
        ensures Ends(disk, ds, loc)
      {
        EndsUnlessCircular(disk, ds, loc);
      }
    }
  }

  ghost predicate HoldsBytes(disk: Disk, loc: Loc) {
    loc in disk && disk[loc] != []
  }

  /** A track with a record at each of the 256 numbers is circular. */
  lemma FullTrackNeverEnds(disk: Disk, ds: Dscb, loc: Loc)
    requires InExtent(ds, loc.cylinder, loc.track)
    requires forall k: nat :: k < 256 ==> HoldsBytes(disk, loc.(record := k))
    ensures !Ends(disk, ds, loc)
  {
    forall k: nat | k < 256
      ensures !Leaves(disk, loc.cylinder, loc.track, k)
    {
      assert HoldsBytes(disk, loc.(record := k));
    }
    CirclingNeverEnds(disk, ds, loc, 0);
  }

  /** Records at the 128 even numbers are enough. */
  lemma HalfFullTrackNeverEnds(disk: Disk, ds: Dscb, loc: Loc)
    requires InExtent(ds, loc.cylinder, loc.track)
    requires forall k: nat :: k < 256 ==> if k % 2 == 0 then HoldsBytes(disk, loc.(record := k))
                                          else loc.(record := k) !in disk
    ensures !Ends(disk, ds, loc)
  {
    forall k: nat | k < 256
      ensures !Leaves(disk, loc.cylinder, loc.track, k)
    {
      assert HoldsBytes(disk, loc.(record := if k % 2 == 0 then k else (k + 1) % 256));
      assert k % 2 == 1 ==> loc.(record := k) !in disk;
    }
    CirclingNeverEnds(disk, ds, loc, 0);
  }

  // ----- Datasets that lie densely on their tracks

  /** The track behind (c, t) on a disk with that many tracks in a cylinder. */
  function NextTrack(tracks: nat, c: nat, t: nat): (nat, nat) {
    if t + 1 < tracks then (c, t + 1) else (c + 1, 0)
  }

  /** Numbering the tracks through the cylinders, it is the next one. */
  lemma NextTrackInNumbers(tracks: nat, c: nat, t: nat)
    requires t < tracks
    ensures var (c', t') := NextTrack(tracks, c, t);
            t' < tracks && (if t' == 0 then c' == c + 1 && t + 1 == tracks else c' == c && t' == t + 1)
  {
  }

  ghost predicate HoldsRecord(disk: Disk, loc: Loc, record: seq<byte>) {
    Address(loc) in disk && disk[Address(loc)] == record
  }

  ghost predicate HoldsTrack(disk: Disk, c: nat, t: nat, records: seq<seq<byte>>) {
    forall j: nat {:trigger records[j]} :: j < |records| ==> HoldsRecord(disk, Loc(c, t, j + 1), records[j])
  }

  /** Nothing at the two locations tried behind the last record of the track, and no track behind the last
      one of the cylinder. */
  ghost predicate TrackEnds(disk: Disk, tracks: nat, c: nat, t: nat, records: seq<seq<byte>>) {
    && Address(Loc(c, t, |records| + 1)) !in disk
    && Address(Loc(c, t, |records| + 2)) !in disk
    && (t + 1 == tracks ==> Loc(c, tracks, 1) !in disk)
  }

  /** The numbers of the track and of its records, and the next ones, fit an unsigned short. */
  predicate Short(tracks: nat, c: nat, t: nat, records: seq<seq<byte>>) {
    t < tracks < SHORT && c < SHORT - 1 && |records| < SHORT - 2
  }

  /** The records of a dataset lie on consecutive tracks from (c, t) on, inside its extent, with no gap
      and none of them empty. */
  ghost predicate Dense(disk: Disk, tracks: nat, ds: Dscb, c: nat, t: nat, content: seq<seq<seq<byte>>>)
    decreases |content|
  {
    && content != [] && content[0] != [] && Short(tracks, c, t, content[0])
    && InExtent(ds, c, t)
    && (forall j :: 0 <= j < |content[0]| ==> content[0][j] != [])
    && HoldsTrack(disk, c, t, content[0])
    && (|content| > 1 ==>
          && TrackEnds(disk, tracks, c, t, content[0])
          && Dense(disk, tracks, ds, NextTrack(tracks, c, t).0, NextTrack(tracks, c, t).1, content[1..]))
  }

  /** Two records on two tracks, the second one in the next cylinder, are such a dataset. */
  lemma TwoRecords(a: seq<byte>, b: seq<byte>, ds: Dscb, c: nat, t: nat)
    requires a != [] && b != [] && t < 65534 && c < 65534 && c + 1 < ds.endCyl
    ensures Dense(map[Loc(c, t, 1) := a, Loc(c + 1, 0, 1) := b], t + 1, ds, c, t, [[a], [b]])
  {
    var disk: Disk := map[Loc(c, t, 1) := a, Loc(c + 1, 0, 1) := b];
    assert HoldsTrack(disk, c + 1, 0, [b]) && Dense(disk, t + 1, ds, c + 1, 0, [[b]]);
    assert HoldsTrack(disk, c, t, [a]) && [[a], [b]][1..] == [[b]];
  }

  /** Records one after the other, each cut off at the buffer size. */
  function Concat(records: seq<seq<byte>>): seq<byte> {
    if records == [] then [] else Cut(records[0], CHUNK) + Concat(records[1..])
  }

  function ConcatTracks(content: seq<seq<seq<byte>>>): seq<byte> {
    if content == [] then [] else Concat(content[0]) + ConcatTracks(content[1..])
  }

  /** The location behind the last record. */
  function EndOf(tracks: nat, c: nat, t: nat, content: seq<seq<seq<byte>>>): Loc
    requires content != []
    decreases |content|
  {
    if |content| == 1 then Loc(c, t, |content[0]| + 1)
    else
      var (c', t') := NextTrack(tracks, c, t);
      EndOf(tracks, c', t', content[1..])
  }

  /** The turn at a record in the extent. */
  lemma TurnAtRecord(disk: Disk, ds: Dscb, c: nat, t: nat, r: nat, record: seq<byte>)
    requires r < SHORT - 1 && HoldsRecord(disk, Loc(c, t, r), record) && record != []
    requires c < ds.endCyl || t <= ds.endTrack
    ensures TurnAt(disk, ds, Loc(c, t, r)) == More(Cut(record, CHUNK), Loc(c, t, r + 1))
  {
    assert Find(disk, Loc(c, t, r)) == Some(Loc(c, t, r));
  }

  /** The rest of a track, from record j on. */
  lemma {:induction false} ReadTrack(disk: Disk, ds: Dscb, c: nat, t: nat, records: seq<seq<byte>>, j: nat)
    requires HoldsTrack(disk, c, t, records) && j <= |records| < SHORT - 2
    requires c < ds.endCyl || t <= ds.endTrack
    requires forall k :: 0 <= k < |records| ==> records[k] != []
    ensures ReadFrom(disk, ds, Loc(c, t, j + 1))
         == Then(Concat(records[j..]), ReadFrom(disk, ds, Loc(c, t, |records| + 1)))
    decreases |records| - j
  {
    hide ReadFrom, TurnAt;
    var rest := ReadFrom(disk, ds, Loc(c, t, |records| + 1));
    if j == |records| {
      ThenNothing(rest);
    } else {
      assert HoldsRecord(disk, Loc(c, t, j + 1), records[j]);
      TurnAtRecord(disk, ds, c, t, j + 1, records[j]);
      ReadFromTurn(disk, ds, Loc(c, t, j + 1));
      ReadTrack(disk, ds, c, t, records, j + 1);
      assert records[j..][1..] == records[j+1..];
      ThenTwice(Cut(records[j], CHUNK), Concat(records[j+1..]), rest);
    }
  }

  /** Behind the last record of a track the driver finds the first record of the next one. */
  lemma StepToNextTrack(disk: Disk, tracks: nat, ds: Dscb, c: nat, t: nat, records: seq<seq<byte>>)
    requires Short(tracks, c, t, records) && TrackEnds(disk, tracks, c, t, records)
    requires var (c', t') := NextTrack(tracks, c, t); Loc(c', t', 1) in disk
    ensures var (c', t') := NextTrack(tracks, c, t);
            Find(disk, Loc(c, t, |records| + 1)) == Some(Loc(c', t', 1))
            && ReadFrom(disk, ds, Loc(c, t, |records| + 1)) == ReadFrom(disk, ds, Loc(c', t', 1))
  {
    hide ReadFrom;
    var loc := Loc(c, t, |records| + 1);
    var (c', t') := NextTrack(tracks, c, t);
    assert Probe(loc, 0) == loc && Probe(loc, 1) == Loc(c, t, |records| + 2);
    if t + 1 < tracks {
      assert Probe(loc, 2) == Loc(c', t', 1);
      assert FindFrom(disk, loc, 2) == Some(Loc(c', t', 1));
    } else {
      assert Probe(loc, 2) == Loc(c, tracks % SHORT, 1) && Probe(loc, 3) == Loc(c', t', 1);
      assert FindFrom(disk, loc, 3) == Some(Loc(c', t', 1));
    }
    assert FindFrom(disk, loc, 1) == FindFrom(disk, loc, 2);
    assert Find(disk, Loc(c', t', 1)) == Some(Loc(c', t', 1));
    ReadFromTurn(disk, ds, loc);
    ReadFromTurn(disk, ds, Loc(c', t', 1));
  }

  /** Each read lands on the next record in order: read_file delivers the whole dataset and then goes
      on behind it. */
  lemma {:induction false} ReadDense(disk: Disk, tracks: nat, ds: Dscb, c: nat, t: nat, content: seq<seq<seq<byte>>>)
    requires Dense(disk, tracks, ds, c, t, content)
    ensures ReadFrom(disk, ds, Loc(c, t, 1))
         == Then(ConcatTracks(content), ReadFrom(disk, ds, EndOf(tracks, c, t, content)))
    decreases |content|
  {
    hide ReadFrom, TurnAt, Find, Concat;
    var records := content[0];
    ReadTrack(disk, ds, c, t, records, 0);
    assert records[0..] == records;
    if |content| == 1 {
      assert content[1..] == [] && Concat(records) + [] == Concat(records);
    } else {
      var (c', t') := NextTrack(tracks, c, t);
      FirstRecord(disk, tracks, ds, c', t', content[1..]);
      StepToNextTrack(disk, tracks, ds, c, t, records);
      ReadDense(disk, tracks, ds, c', t', content[1..]);
      ThenTwice(Concat(records), ConcatTracks(content[1..]), ReadFrom(disk, ds, EndOf(tracks, c, t, content)));
    }
  }

  lemma FirstRecord(disk: Disk, tracks: nat, ds: Dscb, c: nat, t: nat, content: seq<seq<seq<byte>>>)
    requires Dense(disk, tracks, ds, c, t, content)
    ensures Loc(c, t, 1) in disk
  {
    var first := content[0][0];
    assert HoldsRecord(disk, Loc(c, t, 1), first);
  }

  /** A dense dataset is delivered exactly, with success, exactly when what the driver finds behind its
      last record is a record of no bytes. */
  lemma DatasetDeliveredExactly(disk: Disk, tracks: nat, ds: Dscb, content: seq<seq<seq<byte>>>)
    requires Dense(disk, tracks, ds, ds.startCyl, ds.startTrack, content)
    ensures var end := Find(disk, EndOf(tracks, ds.startCyl, ds.startTrack, content));
            ReadFrom(disk, ds, Loc(ds.startCyl, ds.startTrack, 1)) == Some(Done(ConcatTracks(content)))
            <==> end.Some? && disk[Address(end.value)] == []
  {
    hide ReadFrom, Find, EndOf, ConcatTracks;
    ReadDense(disk, tracks, ds, ds.startCyl, ds.startTrack, content);
    var behind := EndOf(tracks, ds.startCyl, ds.startTrack, content);
    var all := ConcatTracks(content);
    ReadFromTurn(disk, ds, behind);
    var rest := ReadFrom(disk, ds, behind);
    NothingBehind(all);
    if rest.Some? && rest.value.Done? && rest.value.data != [] {
      assert |all + rest.value.data| > |all|;
    }
    var end := Find(disk, behind);
    if end.Some? && disk[Address(end.value)] != [] {
      assert Cut(disk[Address(end.value)], CHUNK) != [];
    }
  }

  /** Without that record read_file goes on: into an error when nothing is found; with the next record of
      somebody else when that lies behind the extent; and otherwise with that record and all that the loop
      reads behind it. */
  lemma UnterminatedDataset(disk: Disk, tracks: nat, ds: Dscb, content: seq<seq<seq<byte>>>)
    requires Dense(disk, tracks, ds, ds.startCyl, ds.startTrack, content)
    requires var end := Find(disk, EndOf(tracks, ds.startCyl, ds.startTrack, content));
             end.Some? ==> disk[Address(end.value)] != []
    ensures var end := Find(disk, EndOf(tracks, ds.startCyl, ds.startTrack, content));
            var all := ConcatTracks(content);
            ReadFrom(disk, ds, Loc(ds.startCyl, ds.startTrack, 1))
            == match end
               case None => Some(Failed(all))
               case Some(at) =>
                 var data := Cut(disk[Address(at)], CHUNK);
                 if PastEnd(ds, Behind(at)) then Some(Done(all + data))
                 else Then(all + data, ReadFrom(disk, ds, Behind(at)))
  {
    hide ReadFrom, Find, EndOf, ConcatTracks;
    ReadDense(disk, tracks, ds, ds.startCyl, ds.startTrack, content);
    var behind := EndOf(tracks, ds.startCyl, ds.startTrack, content);
    var all := ConcatTracks(content);
    ReadFromTurn(disk, ds, behind);
    NothingBehind(all);
    var end := Find(disk, behind);
    if end.Some? {
      var data := Cut(disk[Address(end.value)], CHUNK);
      assert data != [];
      ThenTwice(all, data, ReadFrom(disk, ds, Behind(end.value)));
    }
  }

  /** Of a longer record the first 3450 bytes are delivered, and reading goes on with the next record. */
  lemma LongRecordCut(disk: Disk, ds: Dscb, c: nat, t: nat, r: nat, record: seq<byte>)
    requires r < 65535 && HoldsRecord(disk, Loc(c, t, r), record) && |record| >= 3450
    requires c < ds.endCyl || t <= ds.endTrack
    ensures TurnAt(disk, ds, Loc(c, t, r)) == More(record[..3450], Loc(c, t, r + 1))
  {
    TurnAtRecord(disk, ds, c, t, r, record);
    assert |record| == 3450 ==> record[..3450] == record;
  }

  /** Records of at most 3450 bytes are delivered whole. */
  lemma ShortRecordsWhole(records: seq<seq<byte>>)
    requires forall j :: 0 <= j < |records| ==> |records[j]| <= 3450
    ensures Concat(records) == Flatten(records)
  {
    if records != [] {
      ShortRecordsWhole(records[1..]);
    }
  }

  function Flatten(records: seq<seq<byte>>): seq<byte> {
    if records == [] then [] else records[0] + Flatten(records[1..])
  }
}
