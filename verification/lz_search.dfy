/**
 * The match finder (`search`): walks the hash chain of the look-ahead's
 * leading context and keeps the longest match, using the current best
 * length as a Boyer-Moore style skip count.
 */
module LzSearch {
  import opened LzConfig
  import opened LzHash
  import opened LzMatch
  import opened LzWalk

  /**
   * The context check of `search`: look-ahead bytes `len` down to 0 are
   * compared with the window from slot `i` on, right to left, stopping at
   * the first mismatch.
   */
  method ContextHolds(w: array<Byte>, p: array<Byte>, patCnt: nat, i: nat, len: nat) returns (ok: bool)
    requires w.Length > 0 && p.Length > 0
    ensures ok <==> IsMatch(w[..], p[..], patCnt, i, len + 1)
  {
    var P, N := p.Length, w.Length;
    var k: int := len;
    while k >= 0 && p[(patCnt + k) % P] == w[(i + k) % N]
      invariant -1 <= k <= len
      invariant forall t :: k < t <= len ==> Agree(w[..], p[..], patCnt, i, t)
      decreases k + 1
    {
      k := k - 1;
    }
    ok := k < 0;
    if !ok {
      assert !Agree(w[..], p[..], patCnt, i, k);
    }
  }

  /**
   * The suffix extension of `search`: once the first `from` bytes are known
   * to match at slot `i`, bytes are compared left to right until a mismatch
   * or the end of the look-ahead; the result is the match length at `i`.
   */
  method Extend(w: array<Byte>, p: array<Byte>, patCnt: nat, i: nat, from: nat, bufCnt: nat) returns (k: nat)
    requires w.Length > 0 && p.Length > 0 && from <= bufCnt
    requires IsMatch(w[..], p[..], patCnt, i, from)
    ensures from <= k
    ensures k == MatchLen(w[..], p[..], patCnt, i, bufCnt)
  {
    var P, N := p.Length, w.Length;
    k := from;
    while k < bufCnt && p[(patCnt + k) % P] == w[(i + k) % N]
      invariant from <= k <= bufCnt
      invariant IsMatch(w[..], p[..], patCnt, i, k)
      decreases bufCnt - k
    {
      k := k + 1;
    }
    MatchLenExactly(w[..], p[..], patCnt, i, bufCnt, k);
  }

  /**
   * One chain node `i` scored against the current best length `len`: it
   * improves on it exactly when the match at `i` is longer, and then `k`
   * is that match's length.
   */
  method Score(w: array<Byte>, p: array<Byte>, patCnt: nat, i: nat, len: nat, bufCnt: nat)
    returns (better: bool, k: nat)
    requires w.Length > 0 && p.Length > 0 && len < bufCnt
    ensures better <==> MatchLen(w[..], p[..], patCnt, i, bufCnt) > len
    ensures better ==> k == MatchLen(w[..], p[..], patCnt, i, bufCnt)
  {
    better := ContextHolds(w, p, patCnt, i, len);
    MatchLenIsLongest(w[..], p[..], patCnt, i, bufCnt, len + 1);
    k := 0;
    if better {
      // the context holds: extend the suffix left to right
      k := Extend(w, p, patCnt, i, len + 1, bufCnt);
    }
  }

  /**
   * The loop of `search` over the chain, once buf_cnt > 1: the nodes
   * visited are walked as the reference walk does (`Walk`), and the walk
   * ends at the first node where the NMATCH or FAR_LIST cap binds or the
   * whole look-ahead matched, or at the end of the chain.
   */
  method WalkChain(w: array<Byte>, p: array<Byte>, patCnt: nat, bufCnt: nat, chain: seq<nat>)
    returns (best: Match, visited: nat, scored: nat, ghost at: seq<nat>, ghost lengths: seq<nat>)
    requires w.Length > 0 && p.Length > 0 && bufCnt > 1
    ensures visited <= |chain| && visited <= FAR_LIST && scored <= visited && scored <= NMATCH
    ensures |lengths| == scored && |at| == scored
    ensures Progress(best, lengths, at) == Walk(w[..], p[..], patCnt, bufCnt, chain, visited)
    ensures visited < |chain| ==> visited == FAR_LIST || best.len == bufCnt || scored == NMATCH
    ensures scored > 0 && (scored == NMATCH || best.len == bufCnt) ==> at[scored - 1] == visited - 1
  {
    ghost var ws, ps := w[..], p[..];
    best := Match(0, 0);
    visited, scored, at, lengths := 0, 0, [], [];
    var far := 0;    // chain nodes passed (m)
    var tally := 0;  // scored candidates that did not end the search (n)
    var stop := false;
    while !stop && visited < |chain|
      invariant visited <= |chain| && visited <= FAR_LIST && scored <= visited && scored <= NMATCH
      invariant |lengths| == scored && |at| == scored
      invariant w[..] == ws && p[..] == ps
      invariant !stop ==> far == visited < FAR_LIST && tally == scored < NMATCH && best.len < bufCnt
      invariant stop ==> visited == FAR_LIST || best.len == bufCnt || scored == NMATCH
      invariant stop && scored > 0 && (scored == NMATCH || best.len == bufCnt) ==> at[scored - 1] == visited - 1
      invariant Progress(best, lengths, at) == Walk(ws, ps, patCnt, bufCnt, chain, visited)
      decreases |chain| - visited
    {
      var i := chain[visited];
      var ok, k := Score(w, p, patCnt, i, best.len, bufCnt);
      if ok {
        assert Walk(ws, ps, patCnt, bufCnt, chain, visited + 1) == Progress(Match(i, k), lengths + [k], at + [visited]);
        best := Match(i, k);
        scored := scored + 1;
        lengths, at := lengths + [k], at + [visited];
        if k == bufCnt {
          stop := true;
        } else {
          tally := tally + 1;
          stop := tally == NMATCH;
        }
      } else {
        assert Walk(ws, ps, patCnt, bufCnt, chain, visited + 1) == Progress(best, lengths, at);
      }
      visited := visited + 1;
      if !stop {
        far := far + 1;
        stop := far == FAR_LIST;
      }
    }
  }

  /**
   * search(w, p) for the chain of candidate window slots `chain` (the
   * chain ends where lznext gives LZ_NULL). The first `visited` nodes are
   * walked in order and node j is scored exactly when its match is
   * strictly longer than the best held before it (`Walked`); the result is
   * the last scored node, so it is the first node of the longest match
   * over the walk. At most NMATCH candidates are scored and at most
   * FAR_LIST nodes visited, and the walk ends at the first node where a cap
   * binds or the whole look-ahead matched, or at the end of the chain.
   */
  method Search(w: array<Byte>, p: array<Byte>, cfg: Config, patCnt: nat, bufCnt: nat, chain: seq<nat>)
    returns (best: Match, visited: nat, scored: nat, ghost at: seq<nat>, ghost lengths: seq<nat>)
    requires cfg.Valid() && w.Length == cfg.WinSize() && p.Length == cfg.PatSize()
    requires patCnt < p.Length && bufCnt <= p.Length
    requires forall c :: c in chain ==> c < w.Length
    ensures best.len <= bufCnt
    ensures (bufCnt <= 1 || chain == []) ==> best == Match(0, 0) && visited == 0
    ensures visited <= |chain| && visited <= FAR_LIST
    ensures scored <= visited && scored <= NMATCH
    ensures Walked(w[..], p[..], patCnt, bufCnt, chain, visited, lengths, at)
    ensures Progress(best, lengths, at) == Walk(w[..], p[..], patCnt, bufCnt, chain, visited)
    ensures |lengths| == scored && StrictlyIncreasing(lengths)
    ensures scored == 0 <==> best.len == 0
    ensures scored == 0 ==> best == Match(0, 0)
    ensures scored > 0 ==> best == Match(chain[at[scored - 1]], lengths[scored - 1])
    ensures IsMatch(w[..], p[..], patCnt, best.pos, best.len)
    ensures forall j :: 0 <= j < visited ==> MatchLen(w[..], p[..], patCnt, chain[j], bufCnt) <= best.len
    ensures scored > 0 ==> forall j :: 0 <= j < at[scored - 1] ==> MatchLen(w[..], p[..], patCnt, chain[j], bufCnt) < best.len
    ensures bufCnt > 1 && visited < |chain| ==> visited == FAR_LIST || best.len == bufCnt || scored == NMATCH
    ensures scored > 0 && (scored == NMATCH || best.len == bufCnt) ==> at[scored - 1] == visited - 1
  {
    best, visited, scored, at, lengths := Match(0, 0), 0, 0, [], [];
    if bufCnt > 1 {
      best, visited, scored, at, lengths := WalkChain(w, p, patCnt, bufCnt, chain);
    }
    WalkScans(w[..], p[..], patCnt, bufCnt, chain, visited);
  }
}
