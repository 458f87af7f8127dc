/**
 * The 4-byte context hash (the `hash` macro). The same macro hashes the
 * look-ahead buffer when a search starts and the window buffer when its
 * slots are indexed; in both uses the key is masked with win_MASK.
 */
module LzHash {
  import opened LzConfig
  import opened Ring

  type Byte = bv8

  /**
   * The key of four context bytes:
   * ((b0 << hash_SHIFT) ^ (b1 << 7) ^ (b2 << 4) ^ b3) & win_MASK.
   * It always names a bucket of the window-sized hash table.
   */
  function Key(cfg: Config, b0: Byte, b1: Byte, b2: Byte, b3: Byte): (r: bv32)
    requires cfg.Valid()
    ensures r <= cfg.KeyMask()
  {
    (((b0 as bv32) << cfg.HashShift())
      ^ ((b1 as bv32) << 7)
      ^ ((b2 as bv32) << 4)
      ^ (b3 as bv32)) & cfg.KeyMask()
  }

  /** The HASH_BYTES_N bytes from `pos` on, read circularly from `buf`. */
  function Context(buf: seq<Byte>, pos: nat): (r: seq<Byte>)
    requires |buf| > 0
    ensures |r| == HASH_BYTES_N
    ensures forall d :: 0 <= d < HASH_BYTES_N ==> r[d] == buf[(pos + d) % |buf|]
  {
    [buf[pos % |buf|], buf[(pos + 1) % |buf|], buf[(pos + 2) % |buf|], buf[(pos + 3) % |buf|]]
  }

  /** hash(buf, pos, |buf| - 1, win_MASK). */
  function Hash(buf: seq<Byte>, pos: nat, cfg: Config): (r: bv32)
    requires cfg.Valid() && |buf| > 0
    ensures r <= cfg.KeyMask()
  {
    var c := Context(buf, pos);
    Key(cfg, c[0], c[1], c[2], c[3])
  }

  /** The key depends on nothing but the four context bytes. */
  lemma SameContextSameHash(cfg: Config, a: seq<Byte>, i: nat, b: seq<Byte>, j: nat)
    requires cfg.Valid() && |a| > 0 && |b| > 0
    requires Context(a, i) == Context(b, j)
    ensures Hash(a, i, cfg) == Hash(b, j, cfg)
  {
  }

  /**
   * Hashing at an unreduced position, as the slide does with `k + i`, gives
   * the key of the slot that position stands for.
   */
  lemma HashWrap(buf: seq<Byte>, pos: nat, cfg: Config)
    requires cfg.Valid() && |buf| >= HASH_BYTES_N
    requires pos + HASH_BYTES_N <= 2 * |buf|
    ensures Context(buf, pos) == Context(buf, pos % |buf|)
    ensures Hash(buf, pos, cfg) == Hash(buf, pos % |buf|, cfg)
  {
    var n := |buf|;
    ModAddMod(pos, 0, n);
    ModAddMod(pos, 1, n);
    ModAddMod(pos, 2, n);
    ModAddMod(pos, 3, n);
  }
}
