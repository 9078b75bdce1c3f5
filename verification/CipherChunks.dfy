/** Words, and buffers as rows of 8-byte chunks of two words, as both ciphers of kernel/crypto.cxx treat them. */
module CipherChunks {
  // Arithmetic of words. The solver unfolds one of these operations at a time.

  function Plus(x: bv32, y: bv32): bv32 {
    x + y
  }

  function Minus(x: bv32, y: bv32): bv32 {
    x - y
  }

  function Xor(x: bv32, y: bv32): bv32 {
    x ^ y
  }

  lemma XorUndone(x: bv32, y: bv32, z: bv32)
    ensures Xor(Xor(x, y), y) == x && Xor(x, 0) == x
    ensures Xor(x, Xor(Xor(x, y), z)) == Xor(y, z)
  {
  }

  lemma SumMinus(x: bv32, y: bv32)
    ensures Minus(x + y, y) == x
  {
  }

  lemma PlusIsSum(x: bv32, y: bv32)
    ensures Minus(Plus(x, y), y) == Minus(x + y, y)
  {
    hide Minus;
  }

  lemma MinusIsPlus(x: bv32, y: bv32)
    ensures Plus(x, 0 - y) == Minus(x, y) && Minus(x, 0 - y) == Plus(x, y)
  {
  }

  lemma PlusMinus(x: bv32, y: bv32)
    ensures Minus(Plus(x, y), y) == x
  {
    hide Plus, Minus;
    SumMinus(x, y);
    PlusIsSum(x, y);
  }

  lemma MinusPlus(x: bv32, y: bv32)
    ensures Plus(Minus(x, y), y) == x
  {
    hide Plus, Minus;
    MinusIsPlus(x, y);
    MinusIsPlus(Minus(x, y), y);
    PlusMinus(x, 0 - y);
  }

  /** How the processor stores a word: most significant byte first (the S/390) or last. */
  datatype Order = BigEndian | LittleEndian

  /** A chunk in storage order. */
  datatype Chunk = Chunk(first: bv32, second: bv32)

  const CHUNK_SIZE: nat := 8

  /** Four bytes, the most significant one first. */
  function Joined(b3: bv8, b2: bv8, b1: bv8, b0: bv8): bv32 {
    ((b3 as bv32) << 24) | ((b2 as bv32) << 16) | ((b1 as bv32) << 8) | (b0 as bv32)
  }

  function Byte3(w: bv32): bv8 {
    ((w >> 24) & 0xff) as bv8
  }

  function Byte2(w: bv32): bv8 {
    ((w >> 16) & 0xff) as bv8
  }

  function Byte1(w: bv32): bv8 {
    ((w >> 8) & 0xff) as bv8
  }

  function Byte0(w: bv32): bv8 {
    (w & 0xff) as bv8
  }

  lemma BytesOfJoined(b3: bv8, b2: bv8, b1: bv8, b0: bv8)
    ensures var w := Joined(b3, b2, b1, b0);
            Byte3(w) == b3 && Byte2(w) == b2 && Byte1(w) == b1 && Byte0(w) == b0
  {
  }

  /** The bytes of a word by shifts. */
  lemma ShiftsOfJoined(b3: bv8, b2: bv8, b1: bv8, b0: bv8)
    ensures var w := Joined(b3, b2, b1, b0);
            && w >> 24 == b3 as bv32 && (w >> 16) & 0xff == b2 as bv32
            && (w >> 8) & 0xff == b1 as bv32 && w & 0xff == b0 as bv32
  {
  }

  lemma HighBytes(w: bv32)
    ensures (Byte3(w) as bv32) << 24 == w & 0xff00_0000
    ensures (Byte2(w) as bv32) << 16 == w & 0x00ff_0000
  {
  }

  lemma LowBytes(w: bv32)
    ensures (Byte1(w) as bv32) << 8 == w & 0x0000_ff00
    ensures Byte0(w) as bv32 == w & 0x0000_00ff
  {
  }

  lemma AllMasks(w: bv32)
    ensures (w & 0xff00_0000) | (w & 0x00ff_0000) | (w & 0x0000_ff00) | (w & 0x0000_00ff) == w
  {
  }

  lemma JoinedBytes(w: bv32)
    ensures Joined(Byte3(w), Byte2(w), Byte1(w), Byte0(w)) == w
  {
    hide Byte3, Byte2, Byte1, Byte0;
    HighBytes(w);
    LowBytes(w);
    AllMasks(w);
  }

  function WordOf(b: seq<bv8>, order: Order): bv32
    requires |b| == 4
  {
    if order.BigEndian? then Joined(b[0], b[1], b[2], b[3]) else Joined(b[3], b[2], b[1], b[0])
  }

  function BytesOfWord(w: bv32, order: Order): (b: seq<bv8>)
    ensures |b| == 4
  {
    if order.BigEndian? then [Byte3(w), Byte2(w), Byte1(w), Byte0(w)]
    else [Byte0(w), Byte1(w), Byte2(w), Byte3(w)]
  }

  lemma WordRoundTrip(w: bv32, order: Order)
    ensures WordOf(BytesOfWord(w, order), order) == w
  {
    hide Byte3, Byte2, Byte1, Byte0, Joined;
    JoinedBytes(w);
  }

  lemma BytesRoundTrip(b: seq<bv8>, order: Order)
    requires |b| == 4
    ensures BytesOfWord(WordOf(b, order), order) == b
  {
    hide Byte3, Byte2, Byte1, Byte0, Joined;
    if order.BigEndian? {
      BytesOfJoined(b[0], b[1], b[2], b[3]);
    } else {
      BytesOfJoined(b[3], b[2], b[1], b[0]);
    }
  }

  function ChunkOf(b: seq<bv8>, order: Order): Chunk
    requires |b| == CHUNK_SIZE
  {
    Chunk(WordOf(b[..4], order), WordOf(b[4..], order))
  }

  function BytesOf(c: Chunk, order: Order): (b: seq<bv8>)
    ensures |b| == CHUNK_SIZE
  {
    BytesOfWord(c.first, order) + BytesOfWord(c.second, order)
  }

  lemma ChunkRoundTrip(c: Chunk, order: Order)
    ensures ChunkOf(BytesOf(c, order), order) == c
  {
    hide WordOf, BytesOfWord;
    WordRoundTrip(c.first, order);
    WordRoundTrip(c.second, order);
    assert BytesOf(c, order)[..4] == BytesOfWord(c.first, order);
    assert BytesOf(c, order)[4..] == BytesOfWord(c.second, order);
  }

  lemma ChunkBytesRoundTrip(b: seq<bv8>, order: Order)
    requires |b| == CHUNK_SIZE
    ensures BytesOf(ChunkOf(b, order), order) == b
  {
    hide WordOf, BytesOfWord;
    BytesRoundTrip(b[..4], order);
    BytesRoundTrip(b[4..], order);
    assert b == b[..4] + b[4..];
  }

  /** A chunk of bytes on the two kinds of processor. */
  lemma ChunkOfBytes(d: seq<bv8>)
    requires |d| == 8
    ensures ChunkOf(d, BigEndian) == Chunk(Joined(d[0], d[1], d[2], d[3]), Joined(d[4], d[5], d[6], d[7]))
    ensures ChunkOf(d, LittleEndian) == Chunk(Joined(d[3], d[2], d[1], d[0]), Joined(d[7], d[6], d[5], d[4]))
  {
    hide Joined;
    assert d[4..][0] == d[4] && d[4..][1] == d[5] && d[4..][2] == d[6] && d[4..][3] == d[7];
  }

  /** The bytes a buffer loop touches: whole chunks, until the length is covered. */
  function Covered(len: nat): (n: nat)
    ensures n % CHUNK_SIZE == 0 && len <= n < len + CHUNK_SIZE
  {
    (len + 7) / 8 * 8
  }

  /** Every chunk replaced by its image. */
  function MapChunks(f: Chunk -> Chunk, s: seq<bv8>, order: Order): (r: seq<bv8>)
    requires |s| % CHUNK_SIZE == 0
    ensures |r| == |s|
  {
    if s == [] then [] else BytesOf(f(ChunkOf(s[..8], order)), order) + MapChunks(f, s[8..], order)
  }

  lemma {:induction false} MapAppend(f: Chunk -> Chunk, s: seq<bv8>, b: seq<bv8>, order: Order)
    requires |s| % CHUNK_SIZE == 0 && |b| == CHUNK_SIZE
    ensures MapChunks(f, s + b, order) == MapChunks(f, s, order) + BytesOf(f(ChunkOf(b, order)), order)
  {
    hide ChunkOf, BytesOf;
    if s == [] {
      assert s + b == b && b[..8] == b && b[8..] == [];
    } else {
      assert (s + b)[..8] == s[..8] && (s + b)[8..] == s[8..] + b;
      MapAppend(f, s[8..], b, order);
    }
  }

  /** One chunk alone is replaced by its image. */
  lemma MapOne(f: Chunk -> Chunk, b: seq<bv8>, order: Order)
    requires |b| == CHUNK_SIZE
    ensures ChunkOf(MapChunks(f, b, order), order) == f(ChunkOf(b, order))
  {
    hide ChunkOf, BytesOf;
    assert [] + b == b;
    MapAppend(f, [], b, order);
    assert MapChunks(f, [], order) + BytesOf(f(ChunkOf(b, order)), order) == BytesOf(f(ChunkOf(b, order)), order);
    ChunkRoundTrip(f(ChunkOf(b, order)), order);
  }

  /** A buffer that held target is done up to i: the images of the chunks of source, and behind them what
      was there. */
  ghost predicate DoneUpTo(f: Chunk -> Chunk, source: seq<bv8>, target: seq<bv8>, now: seq<bv8>, i: nat, order: Order) {
    && i % CHUNK_SIZE == 0 && i <= |source| && i <= |target| == |now|
    && now[..i] == MapChunks(f, source[..i], order) && now[i..] == target[i..]
  }

  lemma NothingDone(f: Chunk -> Chunk, source: seq<bv8>, target: seq<bv8>, order: Order)
    ensures DoneUpTo(f, source, target, target, 0, order)
  {
  }

  /** One more chunk. */
  lemma OneMoreChunk(f: Chunk -> Chunk, source: seq<bv8>, target: seq<bv8>, now: seq<bv8>, i: nat, order: Order)
    requires DoneUpTo(f, source, target, now, i, order) && i + 8 <= |source| && i + 8 <= |now|
    ensures DoneUpTo(f, source, target, Stored(now, i, f(ChunkOf(source[i..i + 8], order)), order), i + 8, order)
  {
    hide ChunkOf, BytesOf;
    MapAppend(f, source[..i], source[i..i + 8], order);
    assert source[..i] + source[i..i + 8] == source[..i + 8];
    var after := Stored(now, i, f(ChunkOf(source[i..i + 8], order)), order);
    assert after[..i + 8] == now[..i] + BytesOf(f(ChunkOf(source[i..i + 8], order)), order);
    assert now[i..][8..] == now[i + 8..] && target[i..][8..] == target[i + 8..];
  }

  lemma AllDone(f: Chunk -> Chunk, source: seq<bv8>, target: seq<bv8>, now: seq<bv8>, i: nat, order: Order)
    requires DoneUpTo(f, source, target, now, i, order)
    ensures i <= |source| && |source[..i]| % CHUNK_SIZE == 0 && i <= |now| == |target|
    ensures now[..i] == MapChunks(f, source[..i], order) && now[i..] == target[i..]
  {
  }

  /** The buffer with the chunk stored at i. */
  function Stored(s: seq<bv8>, i: nat, c: Chunk, order: Order): (r: seq<bv8>)
    requires i + CHUNK_SIZE <= |s|
    ensures |r| == |s|
  {
    s[..i] + BytesOf(c, order) + s[i + 8..]
  }

  /** What is not loaded yet is as it was at first, even when it is stored to where it is loaded from. */
  predicate Unread(source: seq<bv8>, data: seq<bv8>, i: nat) {
    i <= |source| == |data| && data[i..] == source[i..]
  }

  lemma NextUnread(source: seq<bv8>, data: seq<bv8>, i: nat)
    requires Unread(source, data, i) && i + 8 <= |source|
    ensures |data| == |source| && data[i..i + 8] == source[i..i + 8] && Unread(source, data, i + 8)
  {
    assert data[i..][..8] == data[i..i + 8] && source[i..][..8] == source[i..i + 8];
    assert data[i..][8..] == data[i + 8..] && source[i..][8..] == source[i + 8..];
  }

  lemma UnreadAfterStore(source: seq<bv8>, data: seq<bv8>, i: nat, c: Chunk, order: Order)
    requires Unread(source, data, i + 8)
    ensures |data| == |source| && Unread(source, Stored(data, i, c, order), i + 8)
  {
    hide BytesOf;
    assert Stored(data, i, c, order)[i + 8..] == data[i + 8..];
  }

  lemma AllUnread(source: seq<bv8>)
    ensures Unread(source, source, 0)
  {
  }

  ghost predicate Undoes(g: Chunk -> Chunk, f: Chunk -> Chunk) {
    forall c :: g(f(c)) == c
  }

  /** If g undoes f on every chunk, it does so on every buffer of whole chunks. */
  lemma {:induction false} MapUndone(g: Chunk -> Chunk, f: Chunk -> Chunk, s: seq<bv8>, order: Order)
    requires Undoes(g, f) && |s| % CHUNK_SIZE == 0
    ensures MapChunks(g, MapChunks(f, s, order), order) == s
  {
    hide ChunkOf, BytesOf;
    if s != [] {
      var c := ChunkOf(s[..8], order);
      var m := MapChunks(f, s, order);
      assert m[..8] == BytesOf(f(c), order) && m[8..] == MapChunks(f, s[8..], order);
      ChunkRoundTrip(f(c), order);
      ChunkBytesRoundTrip(s[..8], order);
      MapUndone(g, f, s[8..], order);
      assert s == s[..8] + s[8..];
    }
  }

  /** storage::copy of one chunk, out of a buffer and into it. */
  method LoadChunk(data: array<bv8>, i: nat, order: Order) returns (c: Chunk)
    requires i + CHUNK_SIZE <= data.Length
    ensures c == ChunkOf(data[..][i..i + 8], order)
  {
    hide WordOf;
    assert data[..][i..i + 8] == data[i..i + 8];
    c := ChunkOf(data[i..i + 8], order);
  }

  method StoreChunk(out: array<bv8>, i: nat, c: Chunk, order: Order)
    requires i + CHUNK_SIZE <= out.Length
    modifies out
    ensures out[..] == Stored(old(out[..]), i, c, order)
  {
    hide BytesOf;
    var b := BytesOf(c, order);
    var k := 0;
    while k < CHUNK_SIZE
      invariant k <= CHUNK_SIZE
      invariant forall j :: 0 <= j < out.Length ==> out[j] == if i <= j < i + k then b[j - i] else old(out[j])
    {
      out[i + k] := b[k];
      k := k + 1;
    }
  }
}
