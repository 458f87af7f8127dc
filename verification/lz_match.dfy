/**
 * Match lengths: how far the look-ahead buffer agrees with the sliding
 * window from a given window slot on, both read as rings.
 */
module LzMatch {
  import opened LzHash

  /** dpos_t: a window position and a match length. */
  datatype Match = Match(pos: nat, len: nat)

  /** Look-ahead byte `t` equals the window byte `t` places after slot `pos`. */
  predicate Agree(w: seq<Byte>, p: seq<Byte>, patCnt: nat, pos: nat, t: nat)
    requires |w| > 0 && |p| > 0
  {
    p[(patCnt + t) % |p|] == w[(pos + t) % |w|]
  }

  /** The first `len` look-ahead bytes occur in the window from slot `pos` on. */
  predicate IsMatch(w: seq<Byte>, p: seq<Byte>, patCnt: nat, pos: nat, len: nat)
    requires |w| > 0 && |p| > 0
  {
    forall t :: 0 <= t < len ==> Agree(w, p, patCnt, pos, t)
  }

  function MatchFrom(w: seq<Byte>, p: seq<Byte>, patCnt: nat, pos: nat, bufCnt: nat, t: nat): (r: nat)
    requires |w| > 0 && |p| > 0 && t <= bufCnt
    ensures t <= r <= bufCnt
    ensures forall u :: t <= u < r ==> Agree(w, p, patCnt, pos, u)
    ensures r < bufCnt ==> !Agree(w, p, patCnt, pos, r)
    decreases bufCnt - t
  {
    if t == bufCnt || !Agree(w, p, patCnt, pos, t) then t
    else MatchFrom(w, p, patCnt, pos, bufCnt, t + 1)
  }

  /**
   * The length of the longest match at window slot `pos`, capped by the
   * `bufCnt` bytes the look-ahead holds.
   */
  function MatchLen(w: seq<Byte>, p: seq<Byte>, patCnt: nat, pos: nat, bufCnt: nat): (r: nat)
    requires |w| > 0 && |p| > 0
    ensures r <= bufCnt
    ensures IsMatch(w, p, patCnt, pos, r)
    ensures r < bufCnt ==> !Agree(w, p, patCnt, pos, r)
  {
    MatchFrom(w, p, patCnt, pos, bufCnt, 0)
  }

  /**
   * A length is the match length exactly when the bytes before it agree
   * and it is either the end of the look-ahead or a mismatch.
   */
  lemma MatchLenExactly(w: seq<Byte>, p: seq<Byte>, patCnt: nat, pos: nat, bufCnt: nat, k: nat)
    requires |w| > 0 && |p| > 0 && k <= bufCnt
    ensures MatchLen(w, p, patCnt, pos, bufCnt) == k
        <==> IsMatch(w, p, patCnt, pos, k) && (k == bufCnt || !Agree(w, p, patCnt, pos, k))
  {
  }

  /** The match length is the longest length, up to `bufCnt`, that matches. */
  lemma MatchLenIsLongest(w: seq<Byte>, p: seq<Byte>, patCnt: nat, pos: nat, bufCnt: nat, k: nat)
    requires |w| > 0 && |p| > 0 && k <= bufCnt
    ensures IsMatch(w, p, patCnt, pos, k) <==> k <= MatchLen(w, p, patCnt, pos, bufCnt)
  {
  }
}
