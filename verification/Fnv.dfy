/**
 The shard of a key: 32-bit FNV-1a (draft-eastlake-fnv, section 2) modulo 256. Only the low byte of the hash
 matters for the index, and it spreads keys perfectly over the shards.
 */
module Fnv {
  import opened Bytes

  const SHARD_COUNT: nat := 256
  const OFFSET_BASIS: bv32 := 0x811C9DC5
  const PRIME: bv32 := 0x01000193

  function Step32(h: bv32, b: Byte): bv32 {
    (h ^ (b as bv32)) * PRIME
  }

  function Sum32(h: bv32, key: Bytes): bv32
    decreases |key|
  {
    if key == [] then h else Sum32(Step32(h, key[0]), key[1..])
  }

  /** The index of the shard that holds `key`. */
  function Shard(key: Bytes): (i: nat)
    ensures i < SHARD_COUNT
  {
    (Sum32(OFFSET_BASIS, key) % 256) as nat
  }

  /** Hashes that draft-eastlake-fnv tabulates: of the empty text, "a" and "foobar". */
  lemma KnownHashes()
    ensures Sum32(OFFSET_BASIS, []) == 0x811C9DC5
    ensures Sum32(OFFSET_BASIS, [0x61]) == 0xE40C292C
    ensures Sum32(OFFSET_BASIS, [0x66, 0x6F, 0x6F, 0x62, 0x61, 0x72]) == 0xBF9CF968
  {
  }

  // ---------------------------------------------------------------- the 8-bit recurrence

  /** One step of the hash on its low byte. */
  function Mix(h: Byte, b: Byte): Byte {
    (h ^ b) * 0x93
  }

  /** The step taken back: 0x9B is the inverse of 0x93 modulo 256. */
  function Unmix(h: Byte, b: Byte): Byte {
    (h * 0x9B) ^ b
  }

  lemma UnmixAfterMix(h: Byte, b: Byte)
    ensures Unmix(Mix(h, b), b) == h && Unmix(Mix(h, b), h) == b
  {
  }

  lemma MixAfterUnmix(u: Byte, b: Byte)
    ensures Mix(Unmix(u, b), b) == u && Mix(b, Unmix(u, b)) == u
  {
  }

  lemma UnmixIsInverse(h: Byte, b: Byte, u: Byte)
    ensures Mix(h, b) == u <==> h == Unmix(u, b)
    ensures Mix(h, b) == u <==> b == Unmix(u, h)
  {
    hide Mix, Unmix;
    UnmixAfterMix(h, b);
    MixAfterUnmix(u, b);
    MixAfterUnmix(u, h);
  }

  function Fold8(h: Byte, key: Bytes): Byte
    decreases |key|
  {
    if key == [] then h else Fold8(Mix(h, key[0]), key[1..])
  }

  function Low(h: bv32): Byte {
    (h & 0xFF) as Byte
  }

  lemma LowStep(h: bv32, b: Byte)
    ensures Low(Step32(h, b)) == Mix(Low(h), b)
  {
  }

  lemma {:induction false} LowOfSum32(h: bv32, key: Bytes)
    ensures Low(Sum32(h, key)) == Fold8(Low(h), key)
    decreases |key|
  {
    hide Low, Mix, Step32;
    if key != [] {
      LowOfSum32(Step32(h, key[0]), key[1..]);
      LowStep(h, key[0]);
    }
  }

  lemma LowIsMod(h: bv32)
    ensures (h % 256) as nat == Low(h) as nat
    ensures Low(OFFSET_BASIS) == 0xC5
  {
  }

  /** The shard index is an 8-bit recurrence over the key's bytes. */
  lemma ShardRecurrence(key: Bytes)
    ensures Shard(key) == Fold8(0xC5, key) as nat
  {
    LowOfSum32(OFFSET_BASIS, key);
    LowIsMod(Sum32(OFFSET_BASIS, key));
  }

  // ---------------------------------------------------------------- perfect spread

  lemma {:induction false} Fold8Append(h: Byte, p: Bytes, q: Bytes)
    ensures Fold8(h, p + q) == Fold8(Fold8(h, p), q)
    decreases |p|
  {
    hide Mix;
    if p == [] {
      assert p + q == q;
    } else {
      assert (p + q)[1..] == p[1..] + q;
      Fold8Append(Mix(h, p[0]), p[1..], q);
    }
  }

  /** The state from which hashing `key` arrives at `h`. */
  function Unfold8(h: Byte, key: Bytes): Byte
    decreases |key|
  {
    if key == [] then h else Unmix(Unfold8(h, key[1..]), key[0])
  }

  lemma {:induction false} UnfoldIsInverse(h: Byte, key: Bytes, u: Byte)
    ensures Fold8(h, key) == u <==> h == Unfold8(u, key)
    decreases |key|
  {
    hide Mix, Unmix;
    if key != [] {
      UnfoldIsInverse(Mix(h, key[0]), key[1..], u);
      UnmixIsInverse(h, key[0], Unfold8(u, key[1..]));
    }
  }

  lemma ShardAround(p: Bytes, b: Byte, q: Bytes)
    ensures Shard(p + [b] + q) == Fold8(Mix(Fold8(0xC5, p), b), q) as nat
  {
    hide Mix, Shard;
    ShardRecurrence(p + [b] + q);
    Fold8Append(0xC5, p + [b], q);
    Fold8Append(0xC5, p, [b]);
    assert Fold8(Fold8(0xC5, p), [b]) == Fold8(Mix(Fold8(0xC5, p), b), [b][1..]);
  }

  /** The one byte that, between `p` and `q`, sends the key to shard `i`. */
  function ByteFor(p: Bytes, q: Bytes, i: nat): Byte
    requires i < SHARD_COUNT
  {
    Unmix(Unfold8(ByteAt(i), q), Fold8(0xC5, p))
  }

  /** Whatever surrounds it, one byte of a key run through its 256 values visits every shard exactly once. */
  lemma PerfectSpread(p: Bytes, q: Bytes, b: Byte, i: nat)
    requires i < SHARD_COUNT
    ensures Shard(p + [b] + q) == i <==> b == ByteFor(p, q, i)
  {
    hide Mix, Unmix, Shard, Fold8, Unfold8, ByteAt;
    var h := Fold8(0xC5, p);
    ShardAround(p, b, q);
    ByteAtIndex(i);
    ByteInjective(ByteAt(i), Fold8(Mix(h, b), q));
    UnfoldIsInverse(Mix(h, b), q, ByteAt(i));
    UnmixIsInverse(h, b, Unfold8(ByteAt(i), q));
  }
}
