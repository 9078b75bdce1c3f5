/** The Blowfish block cipher: 16 Feistel rounds and a final whitening. */
module Blowfish {
  import opened CipherChunks
  import opened Sequences

  /** The two halves of a block. */
  datatype Halves = Halves(l: bv32, r: bv32)

  /** A P-array holds 32 words, 18 of which are used; an S-box is four tables of 256 words. */
  predicate PArray(p: seq<bv32>) {
    |p| == 32
  }

  predicate SBox(s: seq<seq<bv32>>) {
    |s| == 4 && forall i :: 0 <= i < 4 ==> |s[i]| == 256
  }

  function EncryptF(s: seq<seq<bv32>>, x: bv32): bv32
    requires SBox(s)
  {
    Combined(s[0][(x >> 24) as nat], s[1][((x >> 16) & 0xff) as nat], s[2][((x >> 8) & 0xff) as nat],
             s[3][(x & 0xff) as nat])
  }

  function Combined(a: bv32, b: bv32, c: bv32, d: bv32): bv32 {
    Plus(Xor(Plus(a, b), c), d)
  }

  lemma Selected(b3: bv8, b2: bv8, b1: bv8, b0: bv8)
    ensures var x := Joined(b3, b2, b1, b0);
            && (x >> 24) as nat == b3 as nat && ((x >> 16) & 0xff) as nat == b2 as nat
            && ((x >> 8) & 0xff) as nat == b1 as nat && (x & 0xff) as nat == b0 as nat
  {
    ShiftsOfJoined(b3, b2, b1, b0);
    hide Joined;
    Widened(b3);
    Widened(b2);
    Widened(b1);
    Widened(b0);
  }

  lemma Widened(b: bv8)
    ensures (b as bv32) as nat == b as nat
  {
  }

  lemma CombinedUnwound(a: bv32, b: bv32, c: bv32, d: bv32)
    ensures Minus(Xor(Minus(Combined(a, b, c, d), d), c), b) == a
  {
    hide Plus, Minus, Xor;
    PlusMinus(Xor(Plus(a, b), c), d);
    XorUndone(Plus(a, b), c, 0);
    PlusMinus(a, b);
  }

  /** Which four entries F combines. */
  lemma FOfBytes(s: seq<seq<bv32>>, b3: bv8, b2: bv8, b1: bv8, b0: bv8)
    requires SBox(s)
    ensures EncryptF(s, Joined(b3, b2, b1, b0))
         == Combined(s[0][b3 as nat], s[1][b2 as nat], s[2][b1 as nat], s[3][b0 as nat])
  {
    hide Joined, Combined;
    Selected(b3, b2, b1, b0);
  }

  /** F adds the entries of the two upper bytes, the first two tables, mixes in that of the third and adds that
      of the fourth: taken back in turn, the entry of the highest byte is left. */
  lemma FUnwound(s: seq<seq<bv32>>, b3: bv8, b2: bv8, b1: bv8, b0: bv8)
    requires SBox(s)
    ensures var f := EncryptF(s, Joined(b3, b2, b1, b0));
            Minus(Xor(Minus(f, s[3][b0 as nat]), s[2][b1 as nat]), s[1][b2 as nat]) == s[0][b3 as nat]
  {
    hide EncryptF, Combined, Joined;
    FOfBytes(s, b3, b2, b1, b0);
    CombinedUnwound(s[0][b3 as nat], s[1][b2 as nat], s[2][b1 as nat], s[3][b0 as nat]);
  }

  /** Only those four entries matter. */
  lemma FSeesFourEntries(s: seq<seq<bv32>>, t: seq<seq<bv32>>, b3: bv8, b2: bv8, b1: bv8, b0: bv8)
    requires SBox(s) && SBox(t)
    requires s[0][b3 as nat] == t[0][b3 as nat] && s[1][b2 as nat] == t[1][b2 as nat]
    requires s[2][b1 as nat] == t[2][b1 as nat] && s[3][b0 as nat] == t[3][b0 as nat]
    ensures EncryptF(s, Joined(b3, b2, b1, b0)) == EncryptF(t, Joined(b3, b2, b1, b0))
  {
    hide EncryptF, Combined, Joined;
    FOfBytes(s, b3, b2, b1, b0);
    FOfBytes(t, b3, b2, b1, b0);
  }

  /** One round: a subkey into the left half, the left half through F into the right one, and a swap. */
  function Round(s: seq<seq<bv32>>, key: bv32, b: Halves): Halves
    requires SBox(s)
  {
    var l := Xor(b.l, key);
    Halves(Xor(EncryptF(s, l), b.r), l)
  }

  /** After n rounds with the subkeys in order. */
  function Rounds(s: seq<seq<bv32>>, keys: seq<bv32>, b: Halves): Halves
    requires SBox(s)
    decreases |keys|
  {
    if keys == [] then b else Round(s, keys[|keys| - 1], Rounds(s, keys[..|keys| - 1], b))
  }

  /** The last swap undone and the last two subkeys applied. */
  function Whiten(forRight: bv32, forLeft: bv32, b: Halves): Halves {
    Halves(Xor(b.r, forLeft), Xor(b.l, forRight))
  }

  /** The cipher under 18 subkeys. */
  function Cipher(s: seq<seq<bv32>>, keys: seq<bv32>, b: Halves): Halves
    requires SBox(s) && |keys| == 18
  {
    Whiten(keys[16], keys[17], Rounds(s, keys[..16], b))
  }

  /** What is left of a block after 16 rounds forwards and 16 - n of the 16 rounds backwards. */
  lemma {:induction false} RoundsBack(s: seq<seq<bv32>>, keys: seq<bv32>, b: Halves, n: nat)
    requires SBox(s) && |keys| == 18 && n <= 16
    ensures Rounds(s, Reverse(keys)[..16 - n], Cipher(s, keys, b))
            == Whiten(keys[n], keys[n + 1], Rounds(s, keys[..n], b))
    decreases 16 - n
  {
    hide EncryptF, Xor, Reverse;
    var back := Reverse(keys);
    var start := Cipher(s, keys, b);
    if n == 16 {
      assert Rounds(s, back[..0], start) == start;
    } else {
      RoundsBack(s, keys, b, n + 1);
      ReverseAt(keys, 15 - n);
      assert back[..16 - n][..15 - n] == back[..15 - n] && back[..16 - n][15 - n] == keys[n + 2];
      assert keys[..n + 1][..n] == keys[..n];
      RoundBack(s, keys[n], keys[n + 1], keys[n + 2], Rounds(s, keys[..n], b));
    }
  }

  lemma RoundBack(s: seq<seq<bv32>>, key: bv32, key1: bv32, key2: bv32, b: Halves)
    requires SBox(s)
    ensures Round(s, key2, Whiten(key1, key2, Round(s, key, b))) == Whiten(key, key1, b)
  {
    hide EncryptF, Xor;
    var next := Round(s, key, b);
    XorUndone(next.r, key2, 0);
    XorUndone(EncryptF(s, next.r), b.r, key1);
  }

  /** The cipher under the reversed subkeys undoes the cipher, whatever F computes. */
  lemma CipherUndone(s: seq<seq<bv32>>, keys: seq<bv32>, b: Halves)
    requires SBox(s) && |keys| == 18
    ensures Cipher(s, Reverse(keys), Cipher(s, keys, b)) == b
  {
    hide EncryptF, Xor, Rounds, Reverse;
    RoundsBack(s, keys, b, 0);
    ReverseAt(keys, 16);
    ReverseAt(keys, 17);
    NoRounds(s, keys[..0], b);
    XorUndone(b.l, keys[0], 0);
    XorUndone(b.r, keys[1], 0);
  }

  lemma NoRounds(s: seq<seq<bv32>>, keys: seq<bv32>, b: Halves)
    requires SBox(s) && keys == []
    ensures Rounds(s, keys, b) == b
  {
  }

  function Encrypted(p: seq<bv32>, s: seq<seq<bv32>>, b: Halves): Halves
    requires PArray(p) && SBox(s)
  {
    Cipher(s, p[..18], b)
  }

  function Decrypted(p: seq<bv32>, s: seq<seq<bv32>>, b: Halves): Halves
    requires PArray(p) && SBox(s)
  {
    Cipher(s, Reverse(p[..18]), b)
  }

  /** Each of encryption and decryption of a block undoes the other, for every P-array and S-box. */
  lemma BlockInverse(p: seq<bv32>, s: seq<seq<bv32>>, b: Halves)
    requires PArray(p) && SBox(s)
    ensures Decrypted(p, s, Encrypted(p, s, b)) == b
    ensures Encrypted(p, s, Decrypted(p, s, b)) == b
  {
    CipherUndone(s, p[..18], b);
    ReverseTwice(p[..18]);
    CipherUndone(s, Reverse(p[..18]), b);
  }

  // ----- The network as a recurrence

  /** The words that pass through F: each is the one before the last, with F of the last and the next subkey
      mixed in. */
  function Wire(s: seq<seq<bv32>>, keys: seq<bv32>, b: Halves, i: nat): bv32
    requires SBox(s) && i <= |keys|
  {
    if i == 0 then b.r
    else if i == 1 then Xor(b.l, keys[0])
    else Xor(Xor(Wire(s, keys, b, i - 2), EncryptF(s, Wire(s, keys, b, i - 1))), keys[i - 1])
  }

  lemma {:induction false} RoundsAreWires(s: seq<seq<bv32>>, keys: seq<bv32>, b: Halves, n: nat)
    requires SBox(s) && 0 < n <= |keys|
    ensures var x := Wire(s, keys, b, n);
            Rounds(s, keys[..n], b) == Halves(Xor(EncryptF(s, x), Wire(s, keys, b, n - 1)), x)
  {
    hide EncryptF, Xor;
    assert keys[..n][..n - 1] == keys[..n - 1];
    if n == 1 {
      NoRounds(s, keys[..0], b);
    } else {
      RoundsAreWires(s, keys, b, n - 1);
      var x, y := Wire(s, keys, b, n - 1), Wire(s, keys, b, n - 2);
      XorSwapped(EncryptF(s, x), y);
    }
  }

  lemma XorSwapped(x: bv32, y: bv32)
    ensures Xor(x, y) == Xor(y, x)
  {
  }

  /** The halves of the result are the 16th word with the last subkey and the 17th word. */
  lemma CipherIsWires(s: seq<seq<bv32>>, keys: seq<bv32>, b: Halves)
    requires SBox(s) && |keys| == 18
    ensures Cipher(s, keys, b) == Halves(Xor(Wire(s, keys, b, 16), keys[17]), Wire(s, keys, b, 17))
  {
    hide EncryptF, Rounds, Xor;
    RoundsAreWires(s, keys, b, 16);
    var x, y := Wire(s, keys, b, 16), Wire(s, keys, b, 15);
    XorSwapped(EncryptF(s, x), y);
  }

  /** Encryption takes the subkeys 0 to 17 in order, decryption in reverse. */
  lemma SubkeysInOrder(p: seq<bv32>, s: seq<seq<bv32>>, up: seq<bv32>, down: seq<bv32>, b: Halves)
    requires PArray(p) && SBox(s) && |up| == |down| == 18
    requires forall i :: 0 <= i < 18 ==> up[i] == p[i] && down[i] == p[17 - i]
    ensures Encrypted(p, s, b) == Halves(Xor(Wire(s, up, b, 16), p[17]), Wire(s, up, b, 17))
    ensures Decrypted(p, s, b) == Halves(Xor(Wire(s, down, b, 16), p[0]), Wire(s, down, b, 17))
  {
    hide EncryptF, Rounds, Wire, Cipher, Reverse, Xor;
    assert up == p[..18];
    forall i | 0 <= i < 18
      ensures Reverse(p[..18])[i] == down[i]
    {
      ReverseAt(p[..18], i);
    }
    assert down == Reverse(p[..18]);
    CipherIsWires(s, up, b);
    CipherIsWires(s, down, b);
  }

  method EncryptV(p: seq<bv32>, s: seq<seq<bv32>>, l0: bv32, r0: bv32) returns (l: bv32, r: bv32)
    requires PArray(p) && SBox(s)
    ensures Halves(l, r) == Encrypted(p, s, Halves(l0, r0))
  {
    hide EncryptF, Xor;
    l, r := l0, r0;
    var i := 0;
    while i < 16
      invariant i <= 16 && Halves(l, r) == Rounds(s, p[..i], Halves(l0, r0))
    {
      assert p[..i + 1][..i] == p[..i];
      l := Xor(l, p[i]);
      r := Xor(EncryptF(s, l), r);
      l, r := r, l;
      i := i + 1;
    }
    assert p[..18][..16] == p[..16];
    l, r := r, l;
    r := Xor(r, p[16]);
    l := Xor(l, p[17]);
  }

  method DecryptV(p: seq<bv32>, s: seq<seq<bv32>>, l0: bv32, r0: bv32) returns (l: bv32, r: bv32)
    requires PArray(p) && SBox(s)
    ensures Halves(l, r) == Decrypted(p, s, Halves(l0, r0))
  {
    hide EncryptF, Xor, Reverse;
    ghost var back := Reverse(p[..18]);
    ReverseAt(p[..18], 16);
    ReverseAt(p[..18], 17);
    l, r := l0, r0;
    var i := 17;
    while i > 1
      invariant 1 <= i <= 17 && Halves(l, r) == Rounds(s, back[..17 - i], Halves(l0, r0))
    {
      ReverseAt(p[..18], 17 - i);
      assert back[..18 - i][..17 - i] == back[..17 - i];
      l := Xor(l, p[i]);
      r := Xor(EncryptF(s, l), r);
      l, r := r, l;
      i := i - 1;
    }
    l, r := r, l;
    r := Xor(r, p[1]);
    l := Xor(l, p[0]);
  }

  /** The left half is the upper half of the chunk read as one number. */
  function HalvesOf(c: Chunk, order: Order): Halves {
    if order.BigEndian? then Halves(c.first, c.second) else Halves(c.second, c.first)
  }

  function ChunkOfHalves(b: Halves, order: Order): Chunk {
    if order.BigEndian? then Chunk(b.l, b.r) else Chunk(b.r, b.l)
  }

  function EncryptedBytes(p: seq<bv32>, s: seq<seq<bv32>>, data: seq<bv8>, order: Order): seq<bv8>
    requires PArray(p) && SBox(s) && |data| % CHUNK_SIZE == 0
  {
    MapChunks(c => ChunkOfHalves(Encrypted(p, s, HalvesOf(c, order)), order), data, order)
  }

  function DecryptedBytes(p: seq<bv32>, s: seq<seq<bv32>>, data: seq<bv8>, order: Order): seq<bv8>
    requires PArray(p) && SBox(s) && |data| % CHUNK_SIZE == 0
  {
    MapChunks(c => ChunkOfHalves(Decrypted(p, s, HalvesOf(c, order)), order), data, order)
  }

  /** Eight bytes: on the S/390 the left half comes first, the highest byte in front; elsewhere the bytes stand the
      other way round. */
  lemma BlockOfBytes(p: seq<bv32>, s: seq<seq<bv32>>, d: seq<bv8>)
    requires PArray(p) && SBox(s) && |d| == 8
    ensures var r := EncryptedBytes(p, s, d, BigEndian);
            |r| == 8 && Halves(Joined(r[0], r[1], r[2], r[3]), Joined(r[4], r[5], r[6], r[7]))
               == Encrypted(p, s, Halves(Joined(d[0], d[1], d[2], d[3]), Joined(d[4], d[5], d[6], d[7])))
    ensures var r := EncryptedBytes(p, s, d, LittleEndian);
            |r| == 8 && Halves(Joined(r[7], r[6], r[5], r[4]), Joined(r[3], r[2], r[1], r[0]))
               == Encrypted(p, s, Halves(Joined(d[7], d[6], d[5], d[4]), Joined(d[3], d[2], d[1], d[0])))
  {
    hide Encrypted, Joined, ChunkOf, MapChunks;
    forall order
      ensures ChunkOf(EncryptedBytes(p, s, d, order), order)
           == ChunkOfHalves(Encrypted(p, s, HalvesOf(ChunkOf(d, order), order)), order)
    {
      var f := c => ChunkOfHalves(Encrypted(p, s, HalvesOf(c, order)), order);
      MapOne(f, d, order);
    }
    ChunkOfBytes(d);
    ChunkOfBytes(EncryptedBytes(p, s, d, BigEndian));
    ChunkOfBytes(EncryptedBytes(p, s, d, LittleEndian));
  }

  /** A buffer is encrypted chunk by chunk. */
  lemma ChunksApart(p: seq<bv32>, s: seq<seq<bv32>>, a: seq<bv8>, d: seq<bv8>, order: Order)
    requires PArray(p) && SBox(s) && |a| % 8 == 0 && |d| == 8
    ensures EncryptedBytes(p, s, a + d, order) == EncryptedBytes(p, s, a, order) + EncryptedBytes(p, s, d, order)
  {
    hide Encrypted, ChunkOf, BytesOf, HalvesOf, ChunkOfHalves;
    var f := c => ChunkOfHalves(Encrypted(p, s, HalvesOf(c, order)), order);
    MapAppend(f, a, d, order);
    MapAppend(f, [], d, order);
    assert [] + d == d && MapChunks(f, [], order) == [];
  }

  /** Whole buffers: each of encryption and decryption undoes the other. */
  lemma BufferInverse(p: seq<bv32>, s: seq<seq<bv32>>, data: seq<bv8>, order: Order)
    requires PArray(p) && SBox(s) && |data| % CHUNK_SIZE == 0
    ensures DecryptedBytes(p, s, EncryptedBytes(p, s, data, order), order) == data
    ensures EncryptedBytes(p, s, DecryptedBytes(p, s, data, order), order) == data
  {
    hide Cipher, Encrypted, Decrypted;
    var e := c => ChunkOfHalves(Encrypted(p, s, HalvesOf(c, order)), order);
    var d := c => ChunkOfHalves(Decrypted(p, s, HalvesOf(c, order)), order);
    forall c ensures d(e(c)) == c && e(d(c)) == c {
      BlockInverse(p, s, HalvesOf(c, order));
    }
    MapUndone(d, e, data, order);
    MapUndone(e, d, data, order);
  }

  method Encrypt(out: array<bv8>, p: seq<bv32>, s: seq<seq<bv32>>, data: array<bv8>, len: nat, order: Order)
    requires PArray(p) && SBox(s) && Covered(len) <= out.Length && Covered(len) <= data.Length
    modifies out
    ensures out[..Covered(len)] == EncryptedBytes(p, s, old(data[..Covered(len)]), order)
    ensures out[Covered(len)..] == old(out[Covered(len)..])
  {
    hide Encrypted, ChunkOf, BytesOf, Covered, MapChunks, DoneUpTo, Unread, Stored, HalvesOf, ChunkOfHalves;
    ghost var f := c => ChunkOfHalves(Encrypted(p, s, HalvesOf(c, order)), order);
    ghost var source, target := data[..], out[..];
    NothingDone(f, source, target, order);
    AllUnread(source);
    var i := 0;
    while i < len
      invariant i % CHUNK_SIZE == 0 && i <= Covered(len)
      invariant DoneUpTo(f, source, target, out[..], i, order) && Unread(source, data[..], i)
    {
      var chunk := LoadChunk(data, i, order);
      NextUnread(source, data[..], i);
      OneMoreChunk(f, source, target, out[..], i, order);
      var b := HalvesOf(chunk, order);
      var l, r := EncryptV(p, s, b.l, b.r);
      UnreadAfterStore(source, data[..], i, ChunkOfHalves(Halves(l, r), order), order);
      StoreChunk(out, i, ChunkOfHalves(Halves(l, r), order), order);
      i := i + CHUNK_SIZE;
    }
    AllDone(f, source, target, out[..], i, order);
    assert out[..][..i] == out[..i] && out[..][i..] == out[i..] && old(out[..])[i..] == old(out[i..]);
    assert source[..i] == old(data[..i]);
  }

  method Decrypt(out: array<bv8>, p: seq<bv32>, s: seq<seq<bv32>>, data: array<bv8>, len: nat, order: Order)
    requires PArray(p) && SBox(s) && Covered(len) <= out.Length && Covered(len) <= data.Length
    modifies out
    ensures out[..Covered(len)] == DecryptedBytes(p, s, old(data[..Covered(len)]), order)
    ensures out[Covered(len)..] == old(out[Covered(len)..])
  {
    hide Decrypted, ChunkOf, BytesOf, Covered, MapChunks, DoneUpTo, Unread, Stored, HalvesOf, ChunkOfHalves;
    ghost var f := c => ChunkOfHalves(Decrypted(p, s, HalvesOf(c, order)), order);
    ghost var source, target := data[..], out[..];
    NothingDone(f, source, target, order);
    AllUnread(source);
    var i := 0;
    while i < len
      invariant i % CHUNK_SIZE == 0 && i <= Covered(len)
      invariant DoneUpTo(f, source, target, out[..], i, order) && Unread(source, data[..], i)
    {
      var chunk := LoadChunk(data, i, order);
      NextUnread(source, data[..], i);
      OneMoreChunk(f, source, target, out[..], i, order);
      var b := HalvesOf(chunk, order);
      var l, r := DecryptV(p, s, b.l, b.r);
      UnreadAfterStore(source, data[..], i, ChunkOfHalves(Halves(l, r), order), order);
      StoreChunk(out, i, ChunkOfHalves(Halves(l, r), order), order);
      i := i + CHUNK_SIZE;
    }
    AllDone(f, source, target, out[..], i, order);
    assert out[..][..i] == out[..i] && out[..][i..] == out[i..] && old(out[..])[i..] == old(out[i..]);
    assert source[..i] == old(data[..i]);
  }
}
