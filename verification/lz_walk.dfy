/**
 * What a walk of a hash chain by `search` computes: which chain nodes it
 * scores, with which lengths, and which best match it holds after each
 * node.
 */
module LzWalk {
  import opened LzHash
  import opened LzMatch

  /** Each element is larger than the one before it. */
  ghost predicate StrictlyIncreasing(s: seq<nat>) {
    forall i :: 0 < i < |s| ==> s[i - 1] < s[i]
  }

  /**
   * The best length `search` holds when it reaches chain node `j`: the
   * length of the last candidate scored at a node before `j`, or 0 when
   * none was. `lengths[t]` is the length scored at chain node `at[t]`.
   */
  ghost function Prior(lengths: seq<nat>, at: seq<nat>, j: nat): nat
    requires |lengths| == |at|
    decreases |at|
  {
    if at == [] then 0
    else if at[|at| - 1] < j then lengths[|lengths| - 1]
    else Prior(lengths[..|lengths| - 1], at[..|at| - 1], j)
  }

  /**
   * The first `n` nodes of `chain` have been walked and scored nodes
   * `at` with lengths `lengths`: `at` is increasing, each recorded length
   * is that node's match length, and a node was scored exactly when its
   * match is strictly longer than the best length held before it (so a
   * later node of equal length never replaces an earlier one).
   */
  ghost predicate Walked(w: seq<Byte>, p: seq<Byte>, patCnt: nat, bufCnt: nat, chain: seq<nat>, n: nat,
                         lengths: seq<nat>, at: seq<nat>)
    requires |w| > 0 && |p| > 0 && n <= |chain|
  {
    && |lengths| == |at|
    && (forall t :: 0 <= t < |at| ==> at[t] < n)
    && (forall t :: 0 < t < |at| ==> at[t - 1] < at[t])
    && (forall t :: 0 <= t < |at| ==> lengths[t] == MatchLen(w, p, patCnt, chain[at[t]], bufCnt))
    && (forall j {:trigger Prior(lengths, at, j)} :: 0 <= j < n ==>
          (j in at <==> MatchLen(w, p, patCnt, chain[j], bufCnt) > Prior(lengths, at, j)))
  }

  /** Once every scored node lies before `j`, the best length at `j` is the last one scored. */
  lemma PriorAfterAll(lengths: seq<nat>, at: seq<nat>, j: nat)
    requires |lengths| == |at| && (forall t :: 0 <= t < |at| ==> at[t] < j)
    ensures Prior(lengths, at, j) == if at == [] then 0 else lengths[|lengths| - 1]
  {
  }

  /** Scoring a node at or after `j` leaves the best length held at `j` as it was. */
  lemma PriorSnoc(lengths: seq<nat>, at: seq<nat>, k: nat, s: nat, j: nat)
    requires |lengths| == |at| && j <= s
    ensures Prior(lengths + [k], at + [s], j) == Prior(lengths, at, j)
  {
    assert (lengths + [k])[..|lengths|] == lengths;
    assert (at + [s])[..|at|] == at;
  }

  /** Nothing is walked before the first node. */
  lemma WalkedStart(w: seq<Byte>, p: seq<Byte>, patCnt: nat, bufCnt: nat, chain: seq<nat>)
    requires |w| > 0 && |p| > 0
    ensures Walked(w, p, patCnt, bufCnt, chain, 0, [], [])
  {
  }

  /** Node `n`, no longer than the best held before it, is passed over without being scored. */
  lemma {:induction false} WalkedSkip(w: seq<Byte>, p: seq<Byte>, patCnt: nat, bufCnt: nat, chain: seq<nat>, n: nat,
                                      lengths: seq<nat>, at: seq<nat>)
    requires |w| > 0 && |p| > 0 && n < |chain|
    requires Walked(w, p, patCnt, bufCnt, chain, n, lengths, at)
    requires MatchLen(w, p, patCnt, chain[n], bufCnt) <= Prior(lengths, at, n)
    ensures Walked(w, p, patCnt, bufCnt, chain, n + 1, lengths, at)
  {
    assert forall t :: 0 <= t < |at| ==> at[t] != n;
  }

  /** Node `n`, strictly longer than the best held before it, is scored with its match length. */
  lemma {:induction false} WalkedTake(w: seq<Byte>, p: seq<Byte>, patCnt: nat, bufCnt: nat, chain: seq<nat>, n: nat,
                                      lengths: seq<nat>, at: seq<nat>)
    requires |w| > 0 && |p| > 0 && n < |chain|
    requires Walked(w, p, patCnt, bufCnt, chain, n, lengths, at)
    requires MatchLen(w, p, patCnt, chain[n], bufCnt) > Prior(lengths, at, n)
    ensures Walked(w, p, patCnt, bufCnt, chain, n + 1, lengths + [MatchLen(w, p, patCnt, chain[n], bufCnt)], at + [n])
  {
    var k := MatchLen(w, p, patCnt, chain[n], bufCnt);
    var lengths', at' := lengths + [k], at + [n];
    forall j | 0 <= j < n + 1
      ensures j in at' <==> MatchLen(w, p, patCnt, chain[j], bufCnt) > Prior(lengths', at', j)
    {
      PriorSnoc(lengths, at, k, n, j);
      if j < n {
        assert j in at' <==> j in at;
      } else {
        assert at'[|at|] == j;
      }
    }
  }

  /**
   * The state of `search` after walking the first `n` nodes of `chain`:
   * the walk so far (`Walked`), with `best` the last scored node, a
   * genuine match, at least as long as every node walked and strictly
   * longer than every node before it.
   */
  ghost predicate Scan(w: seq<Byte>, p: seq<Byte>, patCnt: nat, bufCnt: nat, chain: seq<nat>, n: nat,
                       best: Match, lengths: seq<nat>, at: seq<nat>)
    requires |w| > 0 && |p| > 0 && n <= |chain|
  {
    && Walked(w, p, patCnt, bufCnt, chain, n, lengths, at)
    && StrictlyIncreasing(lengths)
    && best.len <= bufCnt
    && (at == [] ==> best == Match(0, 0))
    && (at != [] ==> best == Match(chain[at[|at| - 1]], lengths[|lengths| - 1]) && best.len > 0)
    && IsMatch(w, p, patCnt, best.pos, best.len)
    && (forall j :: 0 <= j < n ==> MatchLen(w, p, patCnt, chain[j], bufCnt) <= best.len)
    && (at != [] ==> forall j :: 0 <= j < at[|at| - 1] ==> MatchLen(w, p, patCnt, chain[j], bufCnt) < best.len)
  }

  /** Before the first node: nothing scored, the empty match. */
  lemma ScanStart(w: seq<Byte>, p: seq<Byte>, patCnt: nat, bufCnt: nat, chain: seq<nat>)
    requires |w| > 0 && |p| > 0
    ensures Scan(w, p, patCnt, bufCnt, chain, 0, Match(0, 0), [], [])
  {
    WalkedStart(w, p, patCnt, bufCnt, chain);
  }

  /**
   * Node n - 1, no longer than the best so far, leaves the best as it is;
   * `next` is that unchanged state.
   */
  lemma ScanSkip(w: seq<Byte>, p: seq<Byte>, patCnt: nat, bufCnt: nat, chain: seq<nat>, n: nat,
                 best: Match, lengths: seq<nat>, at: seq<nat>, next: Progress)
    requires |w| > 0 && |p| > 0 && 0 < n <= |chain|
    requires Scan(w, p, patCnt, bufCnt, chain, n - 1, best, lengths, at)
    requires MatchLen(w, p, patCnt, chain[n - 1], bufCnt) <= best.len
    requires next == Progress(best, lengths, at)
    ensures Scan(w, p, patCnt, bufCnt, chain, n, next.best, next.lengths, next.at)
  {
    PriorAfterAll(lengths, at, n - 1);
    WalkedSkip(w, p, patCnt, bufCnt, chain, n - 1, lengths, at);
  }

  /**
   * Node n - 1, strictly longer than the best so far, becomes the best
   * with its match length; `next` is that new state.
   */
  lemma ScanTake(w: seq<Byte>, p: seq<Byte>, patCnt: nat, bufCnt: nat, chain: seq<nat>, n: nat,
                 best: Match, lengths: seq<nat>, at: seq<nat>, next: Progress)
    requires |w| > 0 && |p| > 0 && 0 < n <= |chain|
    requires Scan(w, p, patCnt, bufCnt, chain, n - 1, best, lengths, at)
    requires MatchLen(w, p, patCnt, chain[n - 1], bufCnt) > best.len
    requires var k := MatchLen(w, p, patCnt, chain[n - 1], bufCnt);
      next == Progress(Match(chain[n - 1], k), lengths + [k], at + [n - 1])
    ensures Scan(w, p, patCnt, bufCnt, chain, n, next.best, next.lengths, next.at)
  {
    PriorAfterAll(lengths, at, n - 1);
    WalkedTake(w, p, patCnt, bufCnt, chain, n - 1, lengths, at);
  }

  /** What `search` holds after some chain nodes: the best match and the nodes scored. */
  datatype Progress = Progress(best: Match, lengths: seq<nat>, at: seq<nat>)

  /**
   * The reference walk over the first `n` nodes of `chain`, with no cap:
   * node n - 1 replaces the best match exactly when its match is strictly
   * longer.
   */
  function Walk(w: seq<Byte>, p: seq<Byte>, patCnt: nat, bufCnt: nat, chain: seq<nat>, n: nat): (r: Progress)
    requires |w| > 0 && |p| > 0 && n <= |chain|
    ensures |r.lengths| == |r.at| <= n
  {
    if n == 0 then Progress(Match(0, 0), [], [])
    else
      var r := Walk(w, p, patCnt, bufCnt, chain, n - 1);
      var k := MatchLen(w, p, patCnt, chain[n - 1], bufCnt);
      if k > r.best.len then Progress(Match(chain[n - 1], k), r.lengths + [k], r.at + [n - 1]) else r
  }

  /** The reference walk keeps every property of `Scan`. */
  lemma {:induction false} WalkScans(w: seq<Byte>, p: seq<Byte>, patCnt: nat, bufCnt: nat, chain: seq<nat>, n: nat)
    requires |w| > 0 && |p| > 0 && n <= |chain|
    ensures var r := Walk(w, p, patCnt, bufCnt, chain, n);
      Scan(w, p, patCnt, bufCnt, chain, n, r.best, r.lengths, r.at)
  {
    if n == 0 {
      ScanStart(w, p, patCnt, bufCnt, chain);
    } else {
      WalkScans(w, p, patCnt, bufCnt, chain, n - 1);
      var r := Walk(w, p, patCnt, bufCnt, chain, n - 1);
      if MatchLen(w, p, patCnt, chain[n - 1], bufCnt) > r.best.len {
        ScanTake(w, p, patCnt, bufCnt, chain, n, r.best, r.lengths, r.at, Walk(w, p, patCnt, bufCnt, chain, n));
      } else {
        ScanSkip(w, p, patCnt, bufCnt, chain, n, r.best, r.lengths, r.at, Walk(w, p, patCnt, bufCnt, chain, n));
      }
    }
  }
}
