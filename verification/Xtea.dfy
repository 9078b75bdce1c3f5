/** The XTEA block cipher with any number of rounds. */
module Xtea {
  import opened CipherChunks

  const DELTA: bv32 := 0x9e3779b9

  predicate Key(key: seq<bv32>) {
    |key| == 4
  }

  function TimesDelta(x: bv32): bv32 {
    DELTA * x
  }

  function AppendBit(x: bv32, bit: bool): bv32 {
    (x << 1) | (if bit then 1 else 0)
  }

  lemma TimesPlus(x: bv32, y: bv32)
    ensures TimesDelta(Plus(x, y)) == TimesDelta(x + y)
  {
    hide TimesDelta;
  }

  lemma TimesNext(x: bv32)
    ensures TimesDelta(x + 1) == Plus(DELTA * x, DELTA)
  {
  }

  lemma TimesIsProduct(x: bv32)
    ensures Plus(TimesDelta(x), DELTA) == Plus(DELTA * x, DELTA)
  {
    hide Plus;
  }

  lemma NextBit(x: bv32)
    ensures Plus(AppendBit(x, false), 1) == AppendBit(x, true)
    ensures Plus(AppendBit(x, true), 1) == AppendBit(Plus(x, 1), false)
  {
  }

  /** The low 32 bits of a count, bit by bit. */
  function Low32(n: nat): bv32 {
    if n == 0 then 0 else AppendBit(Low32(n / 2), n % 2 == 1)
  }

  lemma {:induction false} Low32Next(n: nat)
    ensures Low32(n + 1) == Plus(Low32(n), 1)
  {
    hide AppendBit, Plus;
    NextBit(Low32(n / 2));
    if n % 2 == 1 {
      Low32Next(n / 2);
      assert (n + 1) / 2 == n / 2 + 1;
    } else {
      assert (n + 1) / 2 == n / 2;
      if n == 0 {
        NoBits();
      }
    }
  }

  lemma NoBits()
    ensures AppendBit(0, false) == 0
  {
  }

  /** The running sum after n rounds: a product that wraps. */
  function SumAfter(n: nat): bv32 {
    TimesDelta(Low32(n))
  }

  /** The sum starts at zero and each round adds DELTA. */
  lemma SumNext(n: nat)
    ensures SumAfter(0) == 0
    ensures SumAfter(n + 1) == Plus(SumAfter(n), DELTA) && Minus(SumAfter(n + 1), DELTA) == SumAfter(n)
  {
    NoSum();
    hide Plus, Minus, TimesDelta;
    var x := Low32(n);
    Low32Next(n);
    TimesPlus(x, 1);
    TimesNext(x);
    TimesIsProduct(x);
    PlusMinus(TimesDelta(x), DELTA);
  }

  lemma NoSum()
    ensures SumAfter(0) == 0
  {
  }

  function Mix(x: bv32): bv32 {
    Plus(Shifted(x), x)
  }

  function Shifted(x: bv32): bv32 {
    Xor(x << 4, x >> 5)
  }

  /** What a round adds to the first word, and what it adds to the second. */
  function ToFirst(key: seq<bv32>, sum: bv32, second: bv32): bv32
    requires Key(key)
  {
    Xor(Mix(second), Plus(sum, key[(sum & 3) as nat]))
  }

  function ToSecond(key: seq<bv32>, sum: bv32, first: bv32): bv32
    requires Key(key)
  {
    Xor(Mix(first), Plus(sum, key[((sum >> 11) & 3) as nat]))
  }

  /** A round, given the sum before it and the sum after it. */
  function Round(key: seq<bv32>, before: bv32, after: bv32, v: Chunk): Chunk
    requires Key(key)
  {
    var first := Plus(v.first, ToFirst(key, before, v.second));
    Chunk(first, Plus(v.second, ToSecond(key, after, first)))
  }

  function RoundBack(key: seq<bv32>, before: bv32, after: bv32, v: Chunk): Chunk
    requires Key(key)
  {
    var second := Minus(v.second, ToSecond(key, after, v.first));
    Chunk(Minus(v.first, ToFirst(key, before, second)), second)
  }

  /** A block after n rounds. */
  function Encrypted(key: seq<bv32>, n: nat, v: Chunk): Chunk
    requires Key(key)
  {
    if n == 0 then v else Round(key, SumAfter(n - 1), SumAfter(n), Encrypted(key, n - 1, v))
  }

  /** The last n rounds taken back, last one first. */
  function Decrypted(key: seq<bv32>, n: nat, v: Chunk): Chunk
    requires Key(key)
  {
    if n == 0 then v else Decrypted(key, n - 1, RoundBack(key, SumAfter(n - 1), SumAfter(n), v))
  }

  lemma RoundInverse(key: seq<bv32>, before: bv32, after: bv32, v: Chunk)
    requires Key(key)
    ensures RoundBack(key, before, after, Round(key, before, after, v)) == v
    ensures Round(key, before, after, RoundBack(key, before, after, v)) == v
  {
    hide ToFirst, ToSecond, Plus, Minus;
    var there, back := Round(key, before, after, v), RoundBack(key, before, after, v);
    PlusMinus(v.first, ToFirst(key, before, v.second));
    PlusMinus(v.second, ToSecond(key, after, there.first));
    MinusPlus(v.second, ToSecond(key, after, v.first));
    MinusPlus(v.first, ToFirst(key, before, back.second));
  }

  /** Each of encryption and decryption undoes the other, for every key and every number of rounds. */
  lemma {:induction false} BlockInverse(key: seq<bv32>, n: nat, v: Chunk)
    requires Key(key)
    ensures Decrypted(key, n, Encrypted(key, n, v)) == v
    ensures Encrypted(key, n, Decrypted(key, n, v)) == v
  {
    hide Round, RoundBack, SumAfter;
    if n > 0 {
      var before, after := SumAfter(n - 1), SumAfter(n);
      RoundInverse(key, before, after, Encrypted(key, n - 1, v));
      BlockInverse(key, n - 1, v);
      RoundInverse(key, before, after, v);
      BlockInverse(key, n - 1, RoundBack(key, before, after, v));
    }
  }

  lemma Unmixed(x: bv32, k: bv32)
    ensures Minus(Xor(Xor(Mix(x), k), k), x) == Shifted(x)
  {
    hide Plus, Minus, Xor, Shifted;
    XorUndone(Mix(x), k, 0);
    PlusMinus(Shifted(x), x);
  }

  /** What a round added to the first word, freed of the sum and the key word that the two lowest bits of the sum
      select, and of the second word, is that one shifted both ways. What it added to the second word likewise,
      with the new sum and its bits 11 and 12. */
  lemma RoundUnwound(key: seq<bv32>, before: bv32, after: bv32, u: Chunk)
    requires Key(key)
    ensures var w := Round(key, before, after, u);
            && Minus(Xor(Minus(w.first, u.first), Plus(before, key[(before & 3) as nat])), u.second)
               == Shifted(u.second)
            && Minus(Xor(Minus(w.second, u.second), Plus(after, key[((after >> 11) & 3) as nat])), w.first)
               == Shifted(w.first)
  {
    hide Plus, Minus, Mix, Xor, Shifted;
    var w := Round(key, before, after, u);
    MinusOfSum(u.first, ToFirst(key, before, u.second));
    MinusOfSum(u.second, ToSecond(key, after, w.first));
    Unmixed(u.second, Plus(before, key[(before & 3) as nat]));
    Unmixed(w.first, Plus(after, key[((after >> 11) & 3) as nat]));
  }

  /** The one shifted to the right taken off, the one shifted to the left is there. */
  lemma ShiftedBothWays(x: bv32)
    ensures Xor(Shifted(x), x >> 5) == x << 4
  {
    hide Xor;
    XorUndone(x << 4, x >> 5, 0);
  }

  /** Encryption goes round by round, and the sum starts at 0 and grows by the same constant. */
  lemma RoundsInOrder(key: seq<bv32>, n: nat, v: Chunk)
    requires Key(key)
    ensures Encrypted(key, 0, v) == v
    ensures Encrypted(key, n + 1, v) == Round(key, SumAfter(n), SumAfter(n + 1), Encrypted(key, n, v))
    ensures SumAfter(0) == 0 && SumAfter(n + 1) == Plus(SumAfter(n), 0x9e3779b9)
  {
    hide Round, SumAfter, Plus;
    SumNext(n);
  }

  lemma MinusOfSum(x: bv32, y: bv32)
    ensures Minus(Plus(x, y), x) == y
  {
    hide Minus;
    SumMinus(y, x);
    SumSwapped(x, y);
  }

  lemma SumSwapped(x: bv32, y: bv32)
    ensures Minus(Plus(x, y), x) == Minus(y + x, x)
  {
    hide Minus;
  }

  method EncryptV(v: array<bv32>, rounds: nat, key: seq<bv32>)
    requires Key(key) && v.Length == 2
    modifies v
    ensures Chunk(v[0], v[1]) == Encrypted(key, rounds, old(Chunk(v[0], v[1])))
  {
    hide ToFirst, ToSecond, Plus, Minus, SumAfter;
    var v0, v1 := v[0], v[1];
    var sum: bv32 := 0;
    var left := rounds;
    SumNext(0);
    while left > 0
      invariant 0 <= left <= rounds && sum == SumAfter(rounds - left)
      invariant Chunk(v0, v1) == Encrypted(key, rounds - left, Chunk(v[0], v[1]))
      invariant v[0] == old(v[0]) && v[1] == old(v[1])
    {
      v0 := Plus(v0, ToFirst(key, sum, v1));
      SumNext(rounds - left);
      sum := Plus(sum, DELTA);
      v1 := Plus(v1, ToSecond(key, sum, v0));
      left := left - 1;
    }
    v[0] := v0;
    v[1] := v1;
  }

  method DecryptV(v: array<bv32>, rounds: nat, key: seq<bv32>)
    requires Key(key) && v.Length == 2
    modifies v
    ensures Chunk(v[0], v[1]) == Decrypted(key, rounds, old(Chunk(v[0], v[1])))
  {
    hide ToFirst, ToSecond, Plus, Minus, TimesDelta, Low32;
    var v0, v1 := v[0], v[1];
    var sum := TimesDelta(Low32(rounds));
    var left := rounds;
    while left > 0
      invariant 0 <= left <= rounds && sum == SumAfter(left)
      invariant Decrypted(key, left, Chunk(v0, v1)) == Decrypted(key, rounds, Chunk(v[0], v[1]))
      invariant v[0] == old(v[0]) && v[1] == old(v[1])
    {
      v1 := Minus(v1, ToSecond(key, sum, v0));
      SumNext(left - 1);
      sum := Minus(sum, DELTA);
      v0 := Minus(v0, ToFirst(key, sum, v1));
      left := left - 1;
    }
    v[0] := v0;
    v[1] := v1;
  }

  function EncryptedBytes(key: seq<bv32>, rounds: nat, data: seq<bv8>, order: Order): seq<bv8>
    requires Key(key) && |data| % CHUNK_SIZE == 0
  {
    MapChunks(c => Encrypted(key, rounds, c), data, order)
  }

  function DecryptedBytes(key: seq<bv32>, rounds: nat, data: seq<bv8>, order: Order): seq<bv8>
    requires Key(key) && |data| % CHUNK_SIZE == 0
  {
    MapChunks(c => Decrypted(key, rounds, c), data, order)
  }

  /** Eight bytes are two words, each with its highest byte in front on the S/390 and behind elsewhere. */
  lemma BlockOfBytes(key: seq<bv32>, rounds: nat, d: seq<bv8>)
    requires Key(key) && |d| == 8
    ensures var r := EncryptedBytes(key, rounds, d, BigEndian);
            |r| == 8 && Chunk(Joined(r[0], r[1], r[2], r[3]), Joined(r[4], r[5], r[6], r[7]))
               == Encrypted(key, rounds, Chunk(Joined(d[0], d[1], d[2], d[3]), Joined(d[4], d[5], d[6], d[7])))
    ensures var r := EncryptedBytes(key, rounds, d, LittleEndian);
            |r| == 8 && Chunk(Joined(r[3], r[2], r[1], r[0]), Joined(r[7], r[6], r[5], r[4]))
               == Encrypted(key, rounds, Chunk(Joined(d[3], d[2], d[1], d[0]), Joined(d[7], d[6], d[5], d[4])))
  {
    hide Encrypted, Joined, ChunkOf, MapChunks;
    forall order
      ensures ChunkOf(EncryptedBytes(key, rounds, d, order), order) == Encrypted(key, rounds, ChunkOf(d, order))
    {
      MapOne(c => Encrypted(key, rounds, c), d, order);
    }
    ChunkOfBytes(d);
    ChunkOfBytes(EncryptedBytes(key, rounds, d, BigEndian));
    ChunkOfBytes(EncryptedBytes(key, rounds, d, LittleEndian));
  }

  /** A buffer is encrypted chunk by chunk. */
  lemma ChunksApart(key: seq<bv32>, rounds: nat, a: seq<bv8>, d: seq<bv8>, order: Order)
    requires Key(key) && |a| % 8 == 0 && |d| == 8
    ensures EncryptedBytes(key, rounds, a + d, order)
         == EncryptedBytes(key, rounds, a, order) + EncryptedBytes(key, rounds, d, order)
  {
    hide Encrypted, ChunkOf, BytesOf;
    var f := c => Encrypted(key, rounds, c);
    MapAppend(f, a, d, order);
    MapAppend(f, [], d, order);
    assert [] + d == d && MapChunks(f, [], order) == [];
  }

  /** Whole buffers: each of encryption and decryption undoes the other. */
  lemma BufferInverse(key: seq<bv32>, rounds: nat, data: seq<bv8>, order: Order)
    requires Key(key) && |data| % CHUNK_SIZE == 0
    ensures DecryptedBytes(key, rounds, EncryptedBytes(key, rounds, data, order), order) == data
    ensures EncryptedBytes(key, rounds, DecryptedBytes(key, rounds, data, order), order) == data
  {
    hide Encrypted, Decrypted;
    var e := c => Encrypted(key, rounds, c);
    var d := c => Decrypted(key, rounds, c);
    forall c ensures d(e(c)) == c && e(d(c)) == c {
      BlockInverse(key, rounds, c);
    }
    MapUndone(d, e, data, order);
    MapUndone(e, d, data, order);
  }

  method Encrypt(out: array<bv8>, data: array<bv8>, len: nat, key: seq<bv32>, rounds: nat, order: Order)
    requires Key(key) && Covered(len) <= out.Length && Covered(len) <= data.Length
    modifies out
    ensures out[..Covered(len)] == EncryptedBytes(key, rounds, old(data[..Covered(len)]), order)
    ensures out[Covered(len)..] == old(out[Covered(len)..])
  {
    hide Encrypted, ChunkOf, BytesOf, Covered, MapChunks, DoneUpTo, Unread, Stored;
    ghost var f := c => Encrypted(key, rounds, c);
    ghost var source, target := data[..], out[..];
    NothingDone(f, source, target, order);
    AllUnread(source);
    var v := new bv32[2];
    var i := 0;
    while i < len
      invariant i % CHUNK_SIZE == 0 && i <= Covered(len)
      invariant DoneUpTo(f, source, target, out[..], i, order) && Unread(source, data[..], i)
    {
      var chunk := LoadChunk(data, i, order);
      NextUnread(source, data[..], i);
      OneMoreChunk(f, source, target, out[..], i, order);
      v[0], v[1] := chunk.first, chunk.second;
      EncryptV(v, rounds, key);
      UnreadAfterStore(source, data[..], i, Chunk(v[0], v[1]), order);
      StoreChunk(out, i, Chunk(v[0], v[1]), order);
      i := i + CHUNK_SIZE;
    }
    AllDone(f, source, target, out[..], i, order);
    assert out[..][..i] == out[..i] && out[..][i..] == out[i..] && old(out[..])[i..] == old(out[i..]);
    assert source[..i] == old(data[..i]);
  }

  method Decrypt(out: array<bv8>, data: array<bv8>, len: nat, key: seq<bv32>, rounds: nat, order: Order)
    requires Key(key) && Covered(len) <= out.Length && Covered(len) <= data.Length
    modifies out
    ensures out[..Covered(len)] == DecryptedBytes(key, rounds, old(data[..Covered(len)]), order)
    ensures out[Covered(len)..] == old(out[Covered(len)..])
  {
    hide Decrypted, ChunkOf, BytesOf, Covered, MapChunks, DoneUpTo, Unread, Stored;
    ghost var f := c => Decrypted(key, rounds, c);
    ghost var source, target := data[..], out[..];
    NothingDone(f, source, target, order);
    AllUnread(source);
    var v := new bv32[2];
    var i := 0;
    while i < len
      invariant i % CHUNK_SIZE == 0 && i <= Covered(len)
      invariant DoneUpTo(f, source, target, out[..], i, order) && Unread(source, data[..], i)
    {
      var chunk := LoadChunk(data, i, order);
      NextUnread(source, data[..], i);
      OneMoreChunk(f, source, target, out[..], i, order);
      v[0], v[1] := chunk.first, chunk.second;
      DecryptV(v, rounds, key);
      UnreadAfterStore(source, data[..], i, Chunk(v[0], v[1]), order);
      StoreChunk(out, i, Chunk(v[0], v[1]), order);
      i := i + CHUNK_SIZE;
    }
    AllDone(f, source, target, out[..], i, order);
    assert out[..][..i] == out[..i] && out[..][i..] == out[i..] && old(out[..])[i..] == old(out[i..]);
    assert source[..i] == old(data[..i]);
  }
}
