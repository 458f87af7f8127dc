/**
 * Compile-time constants of the encoder and the run-time window geometry
 * derived from the window exponent (`num_POS_BITS`).
 */
module LzConfig {
  import opened Wrappers
  import opened Ring

  /** Shortest match that is coded as a copy (MIN_LEN). */
  const MIN_LEN: nat := 4
  /** Most candidates the match finder scores before it gives up (NMATCH). */
  const NMATCH: nat := 196
  const FAR_LIST_BITS: nat := 12
  /** Most hash-chain nodes the match finder visits (FAR_LIST = 1 << FAR_LIST_BITS). */
  const FAR_LIST: nat := 4096
  /** Bytes of context hashed per window slot (HASH_BYTES_N). */
  const HASH_BYTES_N: nat := 4
  /** Fold factor of the unary length code (MFOLD). */
  const MFOLD: nat := 2
  /** Lengths per one-bit of the folded length code (1 << MFOLD). */
  const FOLD: nat := 4
  /** Window exponent when no `-N` option is given (NUM_POS_BITS = LTCB). */
  const DEFAULT_POS_BITS: nat := 17
  const MIN_POS_BITS: nat := 12
  const MAX_POS_BITS: nat := 20
  /** 2^32: `num_POS_BITS` is an unsigned 32-bit integer. */
  const UINT_RANGE: int := 0x1_0000_0000

  function Pow2(n: nat): (r: nat)
    ensures r >= 1
  {
    if n == 0 then 1 else 2 * Pow2(n - 1)
  }

  lemma {:induction false} Pow2Monotone(a: nat, b: nat)
    requires a <= b
    ensures Pow2(a) <= Pow2(b)
  {
    if a < b {
      Pow2Monotone(a, b - 1);
    }
  }

  /** `x & (2^b - 1)`: the low `b` bits of `x`, taken one bit at a time. */
  function LowBits(x: nat, b: nat): nat {
    if b == 0 then 0 else x % 2 + 2 * LowBits(x / 2, b - 1)
  }

  /** Masking with 2^b - 1 keeps `x` modulo 2^b. */
  lemma {:induction false} LowBitsIsMod(x: nat, b: nat)
    ensures LowBits(x, b) == x % Pow2(b)
  {
    if b > 0 {
      var half := Pow2(b - 1);
      LowBitsIsMod(x / 2, b - 1);
      var a, r := x / 2, x % 2;
      var q, s := a / half, a % half;
      assert a == q * half + s;
      assert x == q * (2 * half) + (2 * s + r);
      ModUnique(x, q, 2 * s + r, 2 * half);
    }
  }

  /** The constants the source writes as shifts are those powers of two. */
  lemma ShiftConstants()
    ensures FAR_LIST == Pow2(FAR_LIST_BITS) && FOLD == Pow2(MFOLD)
  {
    assert Pow2(2) == 4;
    assert Pow2(12) == 4096;
  }

  /** 2^b for every window exponent, one doubling at a time. */
  lemma Pow2Table()
    ensures Pow2(12) == 0x1000 && Pow2(13) == 0x2000 && Pow2(14) == 0x4000
    ensures Pow2(15) == 0x8000 && Pow2(16) == 0x1_0000 && Pow2(17) == 0x2_0000
    ensures Pow2(18) == 0x4_0000 && Pow2(19) == 0x8_0000 && Pow2(20) == 0x10_0000
  {
    Pow2Limits();
    assert Pow2(13) == 2 * Pow2(12);
    assert Pow2(14) == 2 * Pow2(13);
    assert Pow2(15) == 2 * Pow2(14);
    assert Pow2(16) == 2 * Pow2(15);
    assert Pow2(17) == 2 * Pow2(16);
    assert Pow2(18) == 2 * Pow2(17);
    assert Pow2(19) == 2 * Pow2(18);
    assert Pow2(20) == 2 * Pow2(19);
  }

  /** 1 << b written out for each window exponent. */
  function SizeForBits(b: nat): nat
    requires MIN_POS_BITS <= b <= MAX_POS_BITS
  {
    if b == 12 then 0x1000 else if b == 13 then 0x2000 else if b == 14 then 0x4000 else if b == 15 then 0x8000 else if b == 16 then 0x10000 else if b == 17 then 0x20000 else if b == 18 then 0x40000 else if b == 19 then 0x80000 else 0x10_0000
  }

  /** The table agrees with 2^b. */
  lemma SizeForBitsIsPow2(b: nat)
    requires MIN_POS_BITS <= b <= MAX_POS_BITS
    ensures Pow2(b) == SizeForBits(b)
  {
    Pow2Table();
  }

  /** The table agrees with the 32-bit shift, less one. */
  lemma MaskIsSizeLessOne(b: nat)
    requires MIN_POS_BITS <= b <= MAX_POS_BITS
    ensures (((1 as bv32) << b) - 1) as int == SizeForBits(b) - 1
  {
  }

  /** Over the window exponents, (1 << b) - 1 in 32 bits is 2^b - 1. */
  lemma MaskOfBits(b: nat)
    requires MIN_POS_BITS <= b <= MAX_POS_BITS
    ensures (((1 as bv32) << b) - 1) as int == Pow2(b) - 1
  {
    MaskIsSizeLessOne(b);
    SizeForBitsIsPow2(b);
  }

  /** The window sizes at the two ends of the exponent range. */
  lemma Pow2Limits()
    ensures Pow2(MIN_POS_BITS) == 4096 && Pow2(MAX_POS_BITS) == 0x10_0000
  {
  }

  /**
   * The window exponent chosen from the command line. `arg` is the value
   * `atoi` gives for the `-N` option, or None when no option is given.
   * None as a result means that the usage text is printed and the program
   * stops. The value is stored in an unsigned int, so a negative N wraps
   * to a huge value and is clamped to the maximum.
   */
  function ParsePosBits(arg: Option<int>): (r: Option<nat>)
    ensures arg.None? ==> r == Some(DEFAULT_POS_BITS)
    ensures r.Some? ==> MIN_POS_BITS <= r.value <= MAX_POS_BITS
    ensures arg.Some? ==> (r.None? <==> arg.value % UINT_RANGE == 0)
    ensures arg.Some? && MIN_POS_BITS <= arg.value <= MAX_POS_BITS ==> r == Some(arg.value)
    ensures arg.Some? && 0 < arg.value < MIN_POS_BITS ==> r == Some(MIN_POS_BITS)
    ensures arg.Some? && MAX_POS_BITS < arg.value < UINT_RANGE ==> r == Some(MAX_POS_BITS)
    ensures arg.Some? && -UINT_RANGE / 2 <= arg.value < 0 ==> r == Some(MAX_POS_BITS)
  {
    match arg
    case None => Some(DEFAULT_POS_BITS)
    case Some(n) =>
      var u := n % UINT_RANGE;
      if u == 0 then None
      else if u < MIN_POS_BITS then Some(MIN_POS_BITS)
      else if u > MAX_POS_BITS then Some(MAX_POS_BITS)
      else Some(u)
  }

  /** The window geometry for window exponent `posBits`. */
  datatype Config = Config(posBits: nat) {

    predicate Valid() {
      MIN_POS_BITS <= posBits <= MAX_POS_BITS
    }

    /** win_BUFSIZE = 1 << num_POS_BITS: between 4 KiB and 1 MiB. */
    function WinSize(): (r: nat)
      requires Valid()
      ensures r == Pow2(posBits)
      ensures 4096 <= r <= 0x10_0000
    {
      Pow2Limits();
      Pow2Monotone(MIN_POS_BITS, posBits);
      Pow2Monotone(posBits, MAX_POS_BITS);
      Pow2(posBits)
    }

    /** pat_BUFSIZE = win_BUFSIZE >> 1: the look-ahead is exactly half the window. */
    function PatSize(): (r: nat)
      requires Valid()
      ensures 2 * r == WinSize()
      ensures 2048 <= r
    {
      WinSize() / 2
    }

    /**
     * hash_SHIFT = num_POS_BITS - 8: the first context byte shifted by it
     * still fits below 2^num_POS_BITS.
     */
    function HashShift(): (r: nat)
      requires Valid()
      ensures 4 <= r <= 12 && r + 8 == posBits
    {
      posBits - 8
    }

    /**
     * win_MASK = win_BUFSIZE - 1, as the 32-bit unsigned value that hash
     * keys are masked with.
     */
    function KeyMask(): (r: bv32)
      requires Valid()
      ensures r as int == WinSize() - 1
    {
      MaskOfBits(posBits);
      ((1 as bv32) << posBits) - 1
    }
  }

  /** win_MASK = win_BUFSIZE - 1: `x & win_MASK` is `x` modulo the window size. */
  lemma WinMaskIsMod(cfg: Config, x: nat)
    requires cfg.Valid()
    ensures LowBits(x, cfg.posBits) == x % cfg.WinSize()
  {
    LowBitsIsMod(x, cfg.posBits);
  }

  /** pat_MASK = pat_BUFSIZE - 1: `x & pat_MASK` is `x` modulo the look-ahead size. */
  lemma PatMaskIsMod(cfg: Config, x: nat)
    requires cfg.Valid()
    ensures LowBits(x, cfg.posBits - 1) == x % cfg.PatSize()
  {
    LowBitsIsMod(x, cfg.posBits - 1);
    assert Pow2(cfg.posBits) == 2 * Pow2(cfg.posBits - 1);
  }
}
