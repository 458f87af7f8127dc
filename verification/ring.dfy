/**
 * Circular-buffer arithmetic. The encoder's buffers have power-of-two
 * sizes and are indexed with `x & (size - 1)` for non-negative x, which
 * is `x % size`.
 */
module Ring {

  lemma ModBelow(x: int, n: int)
    requires 0 <= x < n
    ensures x % n == x
  {
  }

  lemma ModOnce(x: int, n: int)
    requires 0 < n <= x < 2 * n
    ensures x % n == x - n
  {
  }

  lemma ModTwice(x: int, n: int)
    requires 0 < n && 2 * n <= x < 3 * n
    ensures x % n == x - 2 * n
  {
  }

  /** One turn less around the ring lands on the same slot. */
  lemma ModMinusN(x: nat, n: nat)
    requires 0 < n <= x < 3 * n
    ensures (x - n) % n == x % n
  {
    if x < 2 * n {
      ModOnce(x, n);
      ModBelow(x - n, n);
    } else {
      ModTwice(x, n);
      ModOnce(x - n, n);
    }
  }

  /** Reducing the base first does not change the slot `o` places further on. */
  lemma ModAddMod(a: nat, o: nat, n: nat)
    requires 0 < n && a < 2 * n && o < n
    ensures ((a % n) + o) % n == (a + o) % n
  {
    if a < n {
      ModBelow(a, n);
    } else {
      ModOnce(a, n);
      var b := a - n + o;
      if b < n {
        ModBelow(b, n);
        ModOnce(a + o, n);
      } else {
        ModOnce(b, n);
        ModTwice(a + o, n);
      }
    }
  }

  /** How far slot `to` lies after slot `from` in a ring of `n` slots. */
  function Dist(from: nat, to: nat, n: nat): (d: nat)
    requires from < n && to < n
    ensures d < n
    ensures (from + d) % n == to
  {
    if from <= to then
      ModBelow(to, n);
      to - from
    else
      ModOnce(to + n, n);
      to + n - from
  }

  /** The slot `o` places after `b` is at distance `o` from `b`. */
  lemma DistOfOffset(b: nat, o: nat, n: nat)
    requires b < n && o < n
    ensures (b + o) % n < n
    ensures Dist(b, (b + o) % n, n) == o
  {
    if b + o < n { ModBelow(b + o, n); } else { ModOnce(b + o, n); }
  }

  /** The `n` slots of `w` read in ring order, starting at `start`. */
  function RingView<T>(w: seq<T>, start: nat): (r: seq<T>)
    requires start < |w|
    ensures |r| == |w|
    ensures forall o :: 0 <= o < |w| ==> r[o] == w[(start + o) % |w|]
  {
    seq(|w|, o requires 0 <= o < |w| => w[(start + o) % |w|])
  }

  /**
   * `w` with `bytes` written into consecutive slots from `start` on,
   * wrapping around; every other slot keeps its value.
   */
  function Overwrite<T>(w: seq<T>, start: nat, bytes: seq<T>): (r: seq<T>)
    requires start < |w| && |bytes| <= |w|
    ensures |r| == |w|
    ensures forall s :: 0 <= s < |w| && Dist(start, s, |w|) < |bytes| ==> r[s] == bytes[Dist(start, s, |w|)]
    ensures forall s :: 0 <= s < |w| && Dist(start, s, |w|) >= |bytes| ==> r[s] == w[s]
  {
    seq(|w|, s requires 0 <= s < |w| =>
      if Dist(start, s, |w|) < |bytes| then bytes[Dist(start, s, |w|)] else w[s])
  }

  lemma MulAtLeast(a: int, n: int)
    requires a >= 1 && n > 0
    ensures a * n >= n
  {
  }

  lemma MulSub(a: int, b: int, n: int)
    ensures a * n - b * n == (a - b) * n
  {
  }

  /** The remainder is the only value below `n` that differs from `x` by a multiple of `n`. */
  lemma ModUnique(x: int, q: int, r: int, n: int)
    requires 0 < n && 0 <= r < n && x == q * n + r
    ensures x % n == r
  {
    var q' := x / n;
    var r' := x % n;
    assert x == q' * n + r';
    MulSub(q, q', n);
    if q' < q {
      MulAtLeast(q - q', n);
    } else if q' > q {
      MulSub(q', q, n);
      MulAtLeast(q' - q, n);
    }
  }

  /** Moving on `o` slots from the slot of count `c` gives the slot of count `c + o`. */
  lemma ModAddAny(c: nat, o: nat, n: nat)
    requires 0 < n
    ensures ((c % n) + o) % n == (c + o) % n
  {
    var q := c / n;
    var r := c % n;
    var q2 := (r + o) / n;
    var r2 := (r + o) % n;
    assert c + o == (q + q2) * n + r2 by {
      assert c == q * n + r;
      assert r + o == q2 * n + r2;
    }
    ModUnique(c + o, q + q2, r2, n);
  }
}
