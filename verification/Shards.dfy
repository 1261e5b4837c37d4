/** The shard a key belongs to: 32-bit FNV-1a over its bytes, modulo the number of shards. */
module Shards {
  const NUM_SHARDS := 256

  function Xor8(a: int, b: int): (r: int)
    requires 0 <= a < 256 && 0 <= b < 256
    ensures 0 <= r < 256
  {
    ((a as bv8) ^ (b as bv8)) as int
  }

  /** One round: the byte is xor-ed into the low bits, then the hash is multiplied, modulo 2^32. */
  function Round(h: nat, b: int): (r: nat)
    requires 0 <= b < 256
  {
    ((h - h % 256 + Xor8(h % 256, b)) * 16777619) % 0x1_0000_0000
  }

  function Fnv32a(key: string): nat {
    if key == [] then 2166136261 else Round(Fnv32a(key[..|key| - 1]), key[|key| - 1] as int % 256)
  }

  function ShardOf(key: string): (i: nat)
    ensures i < NUM_SHARDS && i == Fnv32a(key) % 256
  {
    Fnv32a(key) % NUM_SHARDS
  }

  /** A value of the hash that its definition publishes. */
  lemma FnvVector()
    ensures Fnv32a("a") == 0xe40c_292c
  {
    assert "a"[..0] == "";
    assert Fnv32a("") == 0x811c_9dc5;
    assert Xor8(0xc5, 0x61) == 0xa4;
  }
}
