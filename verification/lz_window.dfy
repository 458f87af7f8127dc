/**
 * The state the slide maintains, stated on values: the look-ahead as a
 * byte sequence, the window as the tail of the input consumed so far, and
 * the hash index as a multiset of (key, slot) entries.
 */
module LzWindow {
  import opened LzConfig
  import opened Ring
  import opened LzHash
  import opened LzMatch

  /** The `bufCnt` unconsumed bytes the look-ahead holds from `patCnt` on. */
  function Lookahead(p: seq<Byte>, patCnt: nat, bufCnt: nat): (r: seq<Byte>)
    requires patCnt < |p|
    ensures |r| == bufCnt
    ensures forall t :: 0 <= t < bufCnt ==> r[t] == p[(patCnt + t) % |p|]
  {
    seq(bufCnt, t requires 0 <= t < bufCnt => p[(patCnt + t) % |p|])
  }

  function Zeros(n: nat): (r: seq<Byte>)
    ensures |r| == n && forall i :: 0 <= i < n ==> r[i] == 0
  {
    seq(n, _ => 0)
  }

  /**
   * The hash index holds exactly one entry (Hash(w, s), s) for every window
   * slot s, except the slots whose distance from slot `k` lies in
   * [lo, hi), which have no entry; nothing else is in the index.
   */
  ghost predicate IndexedExcept(index: multiset<(bv32, nat)>, w: seq<Byte>, cfg: Config, k: nat, lo: nat, hi: nat)
    requires cfg.Valid() && k < |w|
  {
    forall h: bv32, s: nat {:trigger index[(h, s)]} ::
      index[(h, s)] == if s < |w| && !(lo <= Dist(k, s, |w|) < hi) && h == Hash(w, s, cfg) then 1 else 0
  }

  /** The index reflects every slot of the window. */
  ghost predicate Indexed(index: multiset<(bv32, nat)>, w: seq<Byte>, cfg: Config)
    requires cfg.Valid() && 0 < |w|
  {
    IndexedExcept(index, w, cfg, 0, 0, 0)
  }

  /** An empty index is a window whose every slot is in the gap. */
  lemma NothingIndexed(w: seq<Byte>, cfg: Config)
    requires cfg.Valid() && 0 < |w|
    ensures IndexedExcept(multiset{}, w, cfg, 0, 0, |w|)
  {
  }

  /** An empty gap means a fully indexed window, wherever the gap is. */
  lemma EmptyGap(index: multiset<(bv32, nat)>, w: seq<Byte>, cfg: Config, k: nat, a: nat)
    requires cfg.Valid() && k < |w|
    ensures IndexedExcept(index, w, cfg, k, a, a) <==> Indexed(index, w, cfg)
  {
  }

  /**
   * delete_lznode(hash(w, k + i), (k + i) & win_MASK) removes the entry of
   * the slot at distance i from k and nothing else: the gap grows by one.
   */
  lemma {:induction false} DeleteEntry(index: multiset<(bv32, nat)>, w: seq<Byte>, cfg: Config, k: nat, i: nat)
    requires cfg.Valid() && |w| >= HASH_BYTES_N && k < |w| && i < |w|
    requires k + i + HASH_BYTES_N <= 2 * |w|
    requires IndexedExcept(index, w, cfg, k, 0, i)
    ensures (k + i) % |w| < |w|
    ensures IndexedExcept(index - multiset{(Hash(w, k + i, cfg), (k + i) % |w|)}, w, cfg, k, 0, i + 1)
  {
    var n := |w|;
    var s0 := (k + i) % n;
    DistOfOffset(k, i, n);
    HashWrap(w, k + i, cfg);
    var e := (Hash(w, s0, cfg), s0);
    assert index[e] == 1;
    var index' := index - multiset{e};
    forall h: bv32, s: nat
      ensures index'[(h, s)] == if s < n && !(0 <= Dist(k, s, n) < i + 1) && h == Hash(w, s, cfg) then 1 else 0
    {
      if (h, s) != e {
        assert index'[(h, s)] == index[(h, s)];
        if s < n && Dist(k, s, n) == i {
          assert s == s0;
        }
      }
    }
  }

  /**
   * insert_lznode(hash(w, k + i), (k + i) & win_MASK) gives the slot at
   * distance i from k its entry back: the gap shrinks by one.
   */
  lemma {:induction false} InsertEntry(index: multiset<(bv32, nat)>, w: seq<Byte>, cfg: Config, k: nat, i: nat, hi: nat)
    requires cfg.Valid() && |w| >= HASH_BYTES_N && k < |w| && i < hi <= |w|
    requires k + i + HASH_BYTES_N <= 2 * |w|
    requires IndexedExcept(index, w, cfg, k, i, hi)
    ensures (k + i) % |w| < |w|
    ensures IndexedExcept(index + multiset{(Hash(w, k + i, cfg), (k + i) % |w|)}, w, cfg, k, i + 1, hi)
  {
    var n := |w|;
    var s0 := (k + i) % n;
    DistOfOffset(k, i, n);
    HashWrap(w, k + i, cfg);
    var e := (Hash(w, s0, cfg), s0);
    assert index[e] == 0;
    var index' := index + multiset{e};
    forall h: bv32, s: nat
      ensures index'[(h, s)] == if s < n && !(i + 1 <= Dist(k, s, n) < hi) && h == Hash(w, s, cfg) then 1 else 0
    {
      if (h, s) != e {
        assert index'[(h, s)] == index[(h, s)];
        if s < n && Dist(k, s, n) == i {
          assert s == s0;
        }
      }
    }
  }

  /**
   * With c three slots after k, the slot d after s (d <= 3) lies
   * Dist(k, s) + d - 3 slots after c.
   */
  lemma SlotAfterWrite(k: nat, c: nat, s: nat, d: nat, n: nat)
    requires k < n && c < n && s < n && d < HASH_BYTES_N <= n
    requires Dist(k, c, n) == HASH_BYTES_N - 1 <= Dist(k, s, n)
    ensures Dist(c, (s + d) % n, n) == Dist(k, s, n) + d - (HASH_BYTES_N - 1)
  {
    var o := Dist(k, s, n);
    ModAddMod(k + o, d, n);
    ModAddMod(k + 3, o + d - 3, n);
    DistOfOffset(c, o + d - 3, n);
  }

  /** A byte of the context of such a slot lies outside the written range. */
  lemma ByteOutsideWrite(w: seq<Byte>, c: nat, bytes: seq<Byte>, k: nat, s: nat, d: nat)
    requires |w| >= HASH_BYTES_N && c < |w| && k < |w| && s < |w| && d < HASH_BYTES_N
    requires |bytes| + HASH_BYTES_N - 1 <= |w|
    requires Dist(k, c, |w|) == HASH_BYTES_N - 1
    requires Dist(k, s, |w|) >= |bytes| + HASH_BYTES_N - 1
    ensures Overwrite(w, c, bytes)[(s + d) % |w|] == w[(s + d) % |w|]
  {
    SlotAfterWrite(k, c, s, d, |w|);
  }

  /**
   * Writing `bytes` into the window from slot `c` on leaves the context of
   * every slot unchanged whose distance from k = c - (HASH_BYTES_N - 1) is
   * at least |bytes| + HASH_BYTES_N - 1: its four bytes all lie outside
   * the written range.
   */
  lemma ContextOutsideWrite(w: seq<Byte>, c: nat, bytes: seq<Byte>, k: nat, s: nat)
    requires |w| >= HASH_BYTES_N && c < |w| && k < |w| && s < |w|
    requires |bytes| + HASH_BYTES_N - 1 <= |w|
    requires Dist(k, c, |w|) == HASH_BYTES_N - 1
    requires Dist(k, s, |w|) >= |bytes| + HASH_BYTES_N - 1
    ensures Context(Overwrite(w, c, bytes), s) == Context(w, s)
  {
    ByteOutsideWrite(w, c, bytes, k, s, 0);
    ByteOutsideWrite(w, c, bytes, k, s, 1);
    ByteOutsideWrite(w, c, bytes, k, s, 2);
    ByteOutsideWrite(w, c, bytes, k, s, 3);
  }

  /** The copy into the window keeps the index right outside the gap. */
  lemma IndexOutsideWrite(index: multiset<(bv32, nat)>, w: seq<Byte>, cfg: Config, c: nat, bytes: seq<Byte>, k: nat)
    requires cfg.Valid() && |w| >= HASH_BYTES_N && c < |w| && k < |w|
    requires |bytes| + HASH_BYTES_N - 1 <= |w|
    requires Dist(k, c, |w|) == HASH_BYTES_N - 1
    requires IndexedExcept(index, w, cfg, k, 0, |bytes| + HASH_BYTES_N - 1)
    ensures IndexedExcept(index, Overwrite(w, c, bytes), cfg, k, 0, |bytes| + HASH_BYTES_N - 1)
  {
    var w' := Overwrite(w, c, bytes);
    forall s | 0 <= s < |w| && Dist(k, s, |w|) >= |bytes| + HASH_BYTES_N - 1
      ensures Hash(w', s, cfg) == Hash(w, s, cfg)
    {
      ContextOutsideWrite(w, c, bytes, k, s);
    }
  }

  /**
   * Stepping `t` slots on from the slot `l` after `b` lands `l + t` slots
   * after `b`, wrapped once around the ring when that passes `n`.
   */
  lemma RingStep(b: nat, l: nat, t: nat, n: nat)
    requires b < n && l <= n && t < n && l + t < 2 * n
    ensures var e := if l + t < n then l + t else l + t - n;
      ((b + l) % n + t) % n == (b + e) % n < n
      && Dist(b, ((b + l) % n + t) % n, n) == e
  {
    var e := if l + t < n then l + t else l + t - n;
    ModAddMod(b + l, t, n);
    if l + t >= n {
      ModMinusN(b + l + t, n);
    }
    DistOfOffset(b, e, n);
  }

  /**
   * After `bytes` are written at `c` and the start moves past them, the
   * ring read from the new start is the old ring read from `c`, followed
   * by `bytes`, less its first |bytes| elements.
   */
  lemma RingViewAfterOverwrite(w: seq<Byte>, c: nat, bytes: seq<Byte>)
    requires c < |w| && |bytes| <= |w|
    ensures (c + |bytes|) % |w| < |w|
    ensures RingView(Overwrite(w, c, bytes), (c + |bytes|) % |w|) == (RingView(w, c) + bytes)[|bytes|..]
  {
    var n, l := |w|, |bytes|;
    var w' := Overwrite(w, c, bytes);
    var lhs := RingView(w', (c + l) % n);
    var rhs := (RingView(w, c) + bytes)[l..];
    forall o | 0 <= o < n
      ensures lhs[o] == rhs[o]
    {
      RingStep(c, l, o, n);
    }
  }

  /**
   * The refill: once `len` bytes have left the look-ahead and `fill` has
   * been read into the slots they freed, the look-ahead from the new start
   * is the old one less its first `len` bytes, followed by `fill`. Bytes
   * are read only while the look-ahead was full, so nothing is skipped.
   */
  lemma LookaheadAfterRefill(p: seq<Byte>, patCnt: nat, bufCnt: nat, len: nat, fill: seq<Byte>)
    requires patCnt < |p| && |fill| <= len <= bufCnt <= |p|
    requires |fill| > 0 ==> bufCnt == |p|
    ensures (patCnt + len) % |p| < |p|
    ensures Lookahead(Overwrite(p, patCnt, fill), (patCnt + len) % |p|, bufCnt - len + |fill|)
      == Lookahead(p, patCnt, bufCnt)[len..] + fill
  {
    var n := |p|;
    var lhs := Lookahead(Overwrite(p, patCnt, fill), (patCnt + len) % n, bufCnt - len + |fill|);
    var rhs := Lookahead(p, patCnt, bufCnt)[len..] + fill;
    forall t | 0 <= t < bufCnt - len + |fill|
      ensures lhs[t] == rhs[t]
    {
      RingStep(patCnt, len, t, n);
      if t < bufCnt - len {
        // a byte still pending: it has not moved
        assert rhs[t] == Lookahead(p, patCnt, bufCnt)[len + t];
        assert len + t < n && len + t >= |fill|;
      } else {
        // a byte just read in: it sits past the old end, wrapped
        assert rhs[t] == fill[t - (bufCnt - len)];
        assert bufCnt == n;
      }
    }
  }

  /** Writing one byte more extends the write by the next slot. */
  lemma OverwriteSnoc(w: seq<Byte>, c: nat, bytes: seq<Byte>, b: Byte)
    requires c < |w| && |bytes| < |w|
    ensures (c + |bytes|) % |w| < |w|
    ensures Overwrite(w, c, bytes + [b]) == Overwrite(w, c, bytes)[(c + |bytes|) % |w| := b]
  {
    DistOfOffset(c, |bytes|, |w|);
  }

  /** A prefix no longer than the look-ahead is taken from the look-ahead alone. */
  lemma PrefixOfRemaining(la: seq<Byte>, input: seq<Byte>, k: nat)
    requires k <= |la|
    ensures (la + input)[..k] == la[..k]
  {
  }

  /** Moving a prefix of `r` onto the end of `c` keeps `c + r`. */
  lemma MovePrefix(c: seq<Byte>, r: seq<Byte>, k: nat)
    requires k <= |r|
    ensures (c + r[..k]) + r[k..] == c + r
  {
    assert r[..k] + r[k..] == r;
  }

  lemma TailShift(a: seq<Byte>, k: nat, b: seq<Byte>)
    requires k <= |a|
    ensures (a[k..] + b)[|b|..] == (a + b)[k + |b|..]
  {
  }

  /** The slots the index files under `key`, in ascending order from `from`. */
  function Candidates(index: multiset<(bv32, nat)>, key: bv32, from: nat, n: nat): (r: seq<nat>)
    requires from <= n
    ensures forall c :: c in r <==> from <= c < n && (key, c) in index
    decreases n - from
  {
    if from == n then []
    else (if (key, from) in index then [from] else []) + Candidates(index, key, from + 1, n)
  }

  /** Bytes that agree over a whole context have the same key. */
  lemma MatchedContextSameHash(w: seq<Byte>, p: seq<Byte>, patCnt: nat, s: nat, cfg: Config)
    requires cfg.Valid() && |w| > 0 && |p| > 0
    requires IsMatch(w, p, patCnt, s, HASH_BYTES_N)
    ensures Hash(p, patCnt, cfg) == Hash(w, s, cfg)
  {
    assert Agree(w, p, patCnt, s, 0) && Agree(w, p, patCnt, s, 1);
    assert Agree(w, p, patCnt, s, 2) && Agree(w, p, patCnt, s, 3);
    assert Context(p, patCnt) == Context(w, s);
  }

  /**
   * The hash chain of the look-ahead's key misses no window slot where a
   * match of MIN_LEN bytes or more starts.
   */
  lemma ChainComplete(index: multiset<(bv32, nat)>, w: seq<Byte>, p: seq<Byte>, patCnt: nat, cfg: Config, s: nat)
    requires cfg.Valid() && |w| > 0 && |p| > 0 && s < |w|
    requires Indexed(index, w, cfg)
    requires IsMatch(w, p, patCnt, s, MIN_LEN)
    ensures s in Candidates(index, Hash(p, patCnt, cfg), 0, |w|)
  {
    MatchedContextSameHash(w, p, patCnt, s, cfg);
    assert index[(Hash(w, s, cfg), s)] == 1;
  }

  /**
   * The window holds the last |w| bytes of zeros-then-consumed, read in
   * ring order from the slot written next, which is |consumed| mod |w|.
   */
  ghost predicate WindowHolds(w: seq<Byte>, winCnt: nat, consumed: seq<Byte>)
    requires winCnt < |w|
  {
    winCnt == |consumed| % |w|
    && RingView(w, winCnt) == (Zeros(|w|) + consumed)[|consumed|..]
  }

  /** The all-zero window holds nothing consumed yet. */
  lemma WindowInitial(w: seq<Byte>)
    requires 0 < |w| && w == Zeros(|w|)
    ensures WindowHolds(w, 0, [])
  {
    var n := |w|;
    forall o | 0 <= o < n
      ensures RingView(w, 0)[o] == 0
    {
      ModBelow(o, n);
    }
  }

  /** Copying consumed bytes into the window from its write slot keeps it in step. */
  lemma WindowAfterCopy(w: seq<Byte>, winCnt: nat, consumed: seq<Byte>, bytes: seq<Byte>)
    requires winCnt < |w| && |bytes| <= |w|
    requires WindowHolds(w, winCnt, consumed)
    ensures (winCnt + |bytes|) % |w| < |w|
    ensures WindowHolds(Overwrite(w, winCnt, bytes), (winCnt + |bytes|) % |w|, consumed + bytes)
  {
    var n := |w|;
    RingViewAfterOverwrite(w, winCnt, bytes);
    TailShift(Zeros(n) + consumed, |consumed|, bytes);
    ModAddAny(|consumed|, |bytes|, n);
    assert Zeros(n) + consumed + bytes == Zeros(n) + (consumed + bytes);
  }

  /** What a slide leaves of the input still to code. */
  lemma RemainingAfterSlide(la: seq<Byte>, input: seq<Byte>, len: nat, got: nat)
    requires len <= |la| && got <= |input|
    ensures la[len..] + input[..got] + input[got..] == (la + input)[len..]
    ensures (la + input)[..len] == la[..len]
  {
    assert input[..got] + input[got..] == input;
  }

  /**
   * After the refill, the look-ahead from its new start followed by the
   * unread input is what remained before, less the `len` bytes coded.
   */
  lemma RemainingAfterRefill(p: seq<Byte>, patCnt: nat, bufCnt: nat, len: nat, input: seq<Byte>, got: nat,
                             p': seq<Byte>, patCnt': nat, bufCnt': nat, rest: seq<Byte>)
    requires patCnt < |p| && len <= bufCnt <= |p|
    requires got <= len && got <= |input|
    requires got > 0 ==> bufCnt == |p|
    requires p' == Overwrite(p, patCnt, input[..got]) && rest == input[got..]
    requires patCnt' == (patCnt + len) % |p| && bufCnt' == bufCnt - len + got
    ensures patCnt' < |p'|
    ensures Lookahead(p', patCnt', bufCnt') + rest == (Lookahead(p, patCnt, bufCnt) + input)[len..]
  {
    LookaheadAfterRefill(p, patCnt, bufCnt, len, input[..got]);
    RemainingAfterSlide(Lookahead(p, patCnt, bufCnt), input, len, got);
  }

  /**
   * When the chain is shorter than NMATCH, the search's best match is the
   * longest of MIN_LEN bytes or more anywhere in the window: every such
   * match is on the chain, and the walk only stops early on a match that
   * covers the whole look-ahead.
   */
  lemma {:induction false} LongestInWindow(index: multiset<(bv32, nat)>, w: seq<Byte>, p: seq<Byte>, patCnt: nat,
                                            bufCnt: nat, cfg: Config, chain: seq<nat>, best: Match, visited: nat, scored: nat)
    requires cfg.Valid() && |w| > 0 && |p| > 0
    requires Indexed(index, w, cfg)
    requires chain == Candidates(index, Hash(p, patCnt, cfg), 0, |w|) && |chain| < NMATCH
    requires best.len <= bufCnt && visited <= |chain| && scored <= visited
    requires bufCnt <= 1 ==> best == Match(0, 0)
    requires forall j :: 0 <= j < visited ==> MatchLen(w, p, patCnt, chain[j], bufCnt) <= best.len
    requires bufCnt > 1 && visited < |chain| ==> visited == FAR_LIST || best.len == bufCnt || scored == NMATCH
    ensures forall s :: 0 <= s < |w| && MatchLen(w, p, patCnt, s, bufCnt) >= MIN_LEN ==>
      MatchLen(w, p, patCnt, s, bufCnt) <= best.len
  {
    forall s | 0 <= s < |w| && MatchLen(w, p, patCnt, s, bufCnt) >= MIN_LEN
      ensures MatchLen(w, p, patCnt, s, bufCnt) <= best.len
    {
      if best.len < bufCnt {
        MatchLenIsLongest(w, p, patCnt, s, bufCnt, MIN_LEN);
        ChainComplete(index, w, p, patCnt, cfg, s);
        assert visited == |chain|;
        var j :| 0 <= j < |chain| && chain[j] == s;
      }
    }
  }
}
