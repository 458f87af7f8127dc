/**
 * The encoder's state and its main loop: a window of the last 2^posBits
 * bytes with a hash index over its slots, a look-ahead buffer of half that
 * size, and the step that searches, sends codes and slides both buffers.
 */
module LzEncoder {
  import opened Wrappers
  import opened LzConfig
  import opened Ring
  import opened LzHash
  import opened LzMatch
  import opened LzSearch
  import opened LzCodes
  import opened LzWindow
  import opened LzDecode

  function Min(a: nat, b: nat): (r: nat)
    ensures r <= a && r <= b && (r == a || r == b)
  {
    if a < b then a else b
  }

  /** The set-up loop: every window slot is filed under its key. */
  method IndexWindow(w: array<Byte>, cfg: Config) returns (idx: multiset<(bv32, nat)>)
    requires cfg.Valid() && w.Length >= HASH_BYTES_N
    ensures Indexed(idx, w[..], cfg)
  {
    NothingIndexed(w[..], cfg);
    idx := InsertContexts(w, cfg, 0, w.Length, multiset{});
  }

  /** Removes the entries of the `count` slots from slot `k` on. */
  method DeleteContexts(w: array<Byte>, cfg: Config, k: nat, count: nat, index: multiset<(bv32, nat)>)
    returns (idx: multiset<(bv32, nat)>)
    requires cfg.Valid() && w.Length >= HASH_BYTES_N && k < w.Length && count <= w.Length
    requires k + count + HASH_BYTES_N - 1 <= 2 * w.Length
    requires Indexed(index, w[..], cfg)
    ensures IndexedExcept(idx, w[..], cfg, k, 0, count)
  {
    var n := w.Length;
    EmptyGap(index, w[..], cfg, k, 0);
    idx := index;
    var i := 0;
    while i < count
      invariant 0 <= i <= count
      invariant IndexedExcept(idx, w[..], cfg, k, 0, i)
    {
      DeleteEntry(idx, w[..], cfg, k, i);
      idx := idx - multiset{(Hash(w[..], k + i, cfg), (k + i) % n)};
      i := i + 1;
    }
  }

  /** Files the `count` slots from slot `k` on under their (new) keys. */
  method InsertContexts(w: array<Byte>, cfg: Config, k: nat, count: nat, index: multiset<(bv32, nat)>)
    returns (idx: multiset<(bv32, nat)>)
    requires cfg.Valid() && w.Length >= HASH_BYTES_N && k < w.Length && count <= w.Length
    requires k + count + HASH_BYTES_N - 1 <= 2 * w.Length
    requires IndexedExcept(index, w[..], cfg, k, 0, count)
    ensures Indexed(idx, w[..], cfg)
  {
    var n := w.Length;
    idx := index;
    var i := 0;
    while i < count
      invariant 0 <= i <= count
      invariant IndexedExcept(idx, w[..], cfg, k, i, count)
    {
      InsertEntry(idx, w[..], cfg, k, i, count);
      idx := idx + multiset{(Hash(w[..], k + i, cfg), (k + i) % n)};
      i := i + 1;
    }
    EmptyGap(idx, w[..], cfg, k, count);
  }

  /** Copies `len` look-ahead bytes into the window, last byte first. */
  method CopyIntoWindow(w: array<Byte>, p: array<Byte>, winCnt: nat, patCnt: nat, len: nat)
    requires w != p && winCnt < w.Length && patCnt < p.Length && len <= w.Length
    modifies w
    ensures w[..] == Overwrite(old(w[..]), winCnt, Lookahead(p[..], patCnt, len))
  {
    var n := w.Length;
    ghost var w0 := w[..];
    ghost var la := Lookahead(p[..], patCnt, len);
    var i := len;
    while i > 0
      invariant 0 <= i <= len
      invariant forall s :: 0 <= s < n ==>
        w[s] == if i <= Dist(winCnt, s, n) < len then la[Dist(winCnt, s, n)] else w0[s]
    {
      i := i - 1;
      DistOfOffset(winCnt, i, n);
      w[(winCnt + i) % n] := p[(patCnt + i) % p.Length];
    }
  }

  /**
   * Copies `len` look-ahead bytes into the window at `winCnt` and brings
   * the index up to date: the entries of the len + HASH_BYTES_N - 1 slots
   * whose context the copy touches are removed before it and filed again,
   * under their new keys, after it.
   */
  method CopyAndRehash(w: array<Byte>, p: array<Byte>, cfg: Config, winCnt: nat, patCnt: nat, len: nat,
                       index: multiset<(bv32, nat)>) returns (idx: multiset<(bv32, nat)>)
    requires cfg.Valid() && w.Length == cfg.WinSize() && p.Length == cfg.PatSize()
    requires winCnt < w.Length && patCnt < p.Length && len <= p.Length
    requires Indexed(index, w[..], cfg)
    modifies w
    ensures w[..] == Overwrite(old(w[..]), winCnt, Lookahead(p[..], patCnt, len))
    ensures Indexed(idx, w[..], cfg)
  {
    var n := w.Length;
    ghost var w0 := w[..];
    ghost var bytes := Lookahead(p[..], patCnt, len);
    // the left-most slot whose context the copy changes
    var k := if winCnt >= HASH_BYTES_N - 1 then winCnt - (HASH_BYTES_N - 1)
             else n + winCnt - (HASH_BYTES_N - 1);
    assert Dist(k, winCnt, n) == HASH_BYTES_N - 1;
    idx := DeleteContexts(w, cfg, k, len + (HASH_BYTES_N - 1), index);
    CopyIntoWindow(w, p, winCnt, patCnt, len);
    IndexOutsideWrite(idx, w0, cfg, winCnt, bytes, k);
    idx := InsertContexts(w, cfg, k, len + (HASH_BYTES_N - 1), idx);
  }

  /** The first fill of the look-ahead: as much of `source` as fits. */
  method ReadInto(p: array<Byte>, source: seq<Byte>) returns (r: nat)
    requires 0 < p.Length
    modifies p
    ensures r == Min(p.Length, |source|)
    ensures Lookahead(p[..], 0, r) == source[..r]
  {
    r := Min(p.Length, |source|);
    forall t | 0 <= t < r {
      p[t] := source[t];
    }
    forall t | 0 <= t < r
      ensures Lookahead(p[..], 0, r)[t] == source[t]
    {
      ModBelow(t, p.Length);
    }
  }

  /**
   * Reads up to `len` bytes of `input` into the look-ahead slots from
   * `patCnt` on, stopping at the end of the input.
   */
  method Refill(p: array<Byte>, patCnt: nat, bufCnt: nat, len: nat, input: seq<Byte>) returns (rest: seq<Byte>, got: nat)
    requires patCnt < p.Length && len <= bufCnt <= p.Length
    requires bufCnt < p.Length ==> input == []
    modifies p
    ensures got == Min(len, |input|) && rest == input[got..]
    ensures p[..] == Overwrite(old(p[..]), patCnt, input[..got])
  {
    ghost var p0 := p[..];
    rest := input;
    got := 0;
    while got < len
      invariant 0 <= got <= len && got <= |input|
      invariant rest == input[got..]
      invariant got < len ==> rest != [] || got == |input|
      invariant p[..] == Overwrite(p0, patCnt, input[..got])
    {
      if rest == [] {
        break;
      }
      OverwriteSnoc(p0, patCnt, input[..got], rest[0]);
      assert input[..got + 1] == input[..got] + [rest[0]];
      p[(patCnt + got) % p.Length] := rest[0];
      rest := rest[1..];
      got := got + 1;
    }
  }

  class Encoder {
    const cfg: Config
    /** win_buf: the sliding window, written at slot winCnt next. */
    const win: array<Byte>
    /** pattern: the look-ahead buffer; bufCnt bytes from patCnt on are pending. */
    const pat: array<Byte>
    var winCnt: nat
    var patCnt: nat
    var bufCnt: nat
    /** The hash chains, as (key, slot) entries. */
    var index: multiset<(bv32, nat)>
    /** The part of the input file not read yet. */
    var input: seq<Byte>
    /** Everything sent so far. */
    var out: seq<Event>
    /** The input bytes already coded, oldest first. */
    ghost var consumed: seq<Byte>
    /** The tokens sent so far. */
    ghost var tokens: seq<Token>

    /** Buffers, counters, window contents and hash index agree. */
    ghost predicate Valid()
      reads this, win, pat
    {
      cfg.Valid() && win.Length == cfg.WinSize() && pat.Length == cfg.PatSize()
      && winCnt < win.Length && patCnt < pat.Length && bufCnt <= pat.Length
      && (bufCnt < pat.Length ==> input == [])
      && Indexed(index, win[..], cfg)
      && WindowHolds(win[..], winCnt, consumed)
    }

    /** What was sent decodes to what was consumed. */
    ghost predicate Coded()
      reads this, win
    {
      0 < win.Length
      && WellFormed(tokens)
      && out == Events(tokens, cfg.posBits)
      && consumed == DecodeAll(tokens, [], win.Length)
    }

    /** The bytes pending in the look-ahead buffer. */
    ghost function Pending(): (r: seq<Byte>)
      reads this, pat
      requires patCnt < pat.Length
    {
      Lookahead(pat[..], patCnt, bufCnt)
    }

    /** The input not coded yet: the look-ahead, then the unread file. */
    ghost function Remaining(): (r: seq<Byte>)
      reads this, pat
      requires patCnt < pat.Length
    {
      Pending() + input
    }

    /** The hash chain `search` walks: the slots filed under the look-ahead's key. */
    function Chain(): (r: seq<nat>)
      reads this, win, pat
      requires Valid()
      ensures forall c :: c in r ==> c < win.Length
    {
      Candidates(index, Hash(pat[..], patCnt, cfg), 0, win.Length)
    }

    /**
     * Set-up: a zero window with every slot indexed, and the look-ahead
     * filled with as much of the input as it holds.
     */
    constructor (cfg: Config, source: seq<Byte>)
      requires cfg.Valid()
      ensures Valid() && Coded()
      ensures this.cfg == cfg
      ensures consumed == [] && tokens == [] && out == []
      ensures Remaining() == source
      ensures bufCnt == Min(cfg.PatSize(), |source|)
      ensures forall s :: 0 <= s < win.Length ==> win[s] == 0
      ensures fresh(win) && fresh(pat)
    {
      var n := cfg.WinSize();
      var w := new Byte[n](_ => 0);
      var idx := IndexWindow(w, cfg);
      var p := new Byte[cfg.PatSize()];
      var r := ReadInto(p, source);
      this.cfg := cfg;
      win := w;
      pat := p;
      winCnt := 0;
      patCnt := 0;
      bufCnt := r;
      index := idx;
      input := source[r..];
      out := [];
      consumed := [];
      tokens := [];
      new;
      assert win[..] == Zeros(n);
      WindowInitial(win[..]);
      assert source[..r] + source[r..] == source;
    }

    /**
     * The window half of the slide at the end of `put_codes`: unindex the
     * slots whose context the copy touches, copy the first `len` pending
     * bytes into the window and index those slots again.
     */
    method ShiftWindow(len: nat)
      requires Valid() && 1 <= len <= bufCnt
      modifies this, win
      ensures Valid()
      ensures win[..] == Overwrite(old(win[..]), old(winCnt), old(Pending())[..len])
      ensures winCnt == (old(winCnt) + len) % win.Length
      ensures consumed == old(consumed) + old(Pending())[..len]
      ensures patCnt == old(patCnt) && bufCnt == old(bufCnt) && input == old(input)
      ensures pat[..] == old(pat[..])
      ensures out == old(out) && tokens == old(tokens)
    {
      ghost var bytes := Pending()[..len];
      assert win != pat;
      assert Lookahead(pat[..], patCnt, len) == bytes;
      var idx := CopyAndRehash(win, pat, cfg, winCnt, patCnt, len, index);
      WindowAfterCopy(old(win[..]), winCnt, consumed, bytes);
      winCnt := (winCnt + len) % win.Length;
      index := idx;
      consumed := consumed + bytes;
    }

    /**
     * The look-ahead half of the slide: read up to `len` input bytes into
     * the slots of the `len` pending bytes just coded and advance past
     * them.
     */
    method AdvanceLookahead(len: nat)
      requires Valid() && 1 <= len <= bufCnt
      modifies this, pat
      ensures Valid()
      ensures patCnt == (old(patCnt) + len) % pat.Length
      ensures Remaining() == old(Remaining())[len..]
      ensures var r := Min(len, |old(input)|);
        input == old(input)[r..] && bufCnt == old(bufCnt) - len + r
      ensures winCnt == old(winCnt) && index == old(index) && consumed == old(consumed)
      ensures out == old(out) && tokens == old(tokens)
    {
      assert win != pat;
      ghost var p0, c0, b0, in0 := pat[..], patCnt, bufCnt, input;
      var rest, got := Refill(pat, patCnt, bufCnt, len, input);
      input := rest;
      bufCnt := bufCnt - (len - got);
      patCnt := (patCnt + len) % pat.Length;
      RemainingAfterRefill(p0, c0, b0, len, in0, got, pat[..], patCnt, bufCnt, input);
    }

    /**
     * The slide at the end of `put_codes`: the first `len` pending bytes
     * move into the window and as many input bytes as are left, up to
     * `len`, move into the look-ahead.
     */
    method Slide(len: nat)
      requires Valid() && 1 <= len <= bufCnt
      modifies this, win, pat
      ensures Valid()
      ensures patCnt == (old(patCnt) + len) % pat.Length
      ensures consumed == old(consumed) + old(Remaining())[..len]
      ensures Remaining() == old(Remaining())[len..]
      ensures var r := Min(len, |old(input)|);
        input == old(input)[r..] && bufCnt == old(bufCnt) - len + r
      ensures out == old(out) && tokens == old(tokens)
    {
      assert (Pending() + input)[..len] == Pending()[..len];
      ShiftWindow(len);
      AdvanceLookahead(len);
    }

    /**
     * The codes `put_codes` sends: the folded unary length code of a match
     * longer than MIN_LEN, then the window position of a match of MIN_LEN
     * or more, or else the next look-ahead byte as a literal. Returns the
     * number of bytes the codes stand for.
     */
    method SendCodes(m: Match) returns (len: nat)
      requires patCnt < pat.Length
      modifies this`out
      ensures len == if m.len >= MIN_LEN then m.len else 1
      ensures out == old(out) + CodeEvents(m.len, m.pos, pat[patCnt], cfg.posBits)
    {
      if m.len > MIN_LEN {
        var lenCode := m.len - (MIN_LEN + 1);
        var i := lenCode / FOLD;  // len_CODE >> MFOLD
        ghost var q := i;
        while i > 0
          invariant 0 <= i <= q
          invariant out == old(out) + Ones(q - i)
        {
          out := out + [Bit(true)];
          i := i - 1;
        }
        out := out + [Field((lenCode % FOLD) * 2, FIELD_BITS)];
      }
      if m.len >= MIN_LEN {
        len := m.len;
        out := out + [Field(m.pos, cfg.posBits)];
      } else {
        len := 1;
        out := out + [Symbol(pat[patCnt])];
      }
    }

    /** `put_codes`: send the codes of search result `m`, then slide. */
    method PutCodes(m: Match) returns (len: nat)
      requires Valid() && 0 < bufCnt && m.len <= bufCnt
      modifies this, win, pat
      ensures Valid()
      ensures len == if m.len >= MIN_LEN then m.len else 1
      ensures out == old(out) + CodeEvents(m.len, m.pos, old(pat[patCnt]), cfg.posBits)
      ensures consumed == old(consumed) + old(Remaining())[..len]
      ensures Remaining() == old(Remaining())[len..]
      ensures tokens == old(tokens)
    {
      len := SendCodes(m);
      Slide(len);
    }

    /**
     * `search` on the chain of the look-ahead's key. The result is a real
     * match in the window, no longer than the look-ahead; when the chain is
     * shorter than NMATCH no window slot starts a longer match of MIN_LEN
     * bytes or more.
     */
    method FindMatch() returns (m: Match)
      requires Valid()
      ensures m.len <= bufCnt && m.pos < win.Length
      ensures IsMatch(win[..], pat[..], patCnt, m.pos, m.len)
      ensures |Chain()| < NMATCH ==>
        forall s :: 0 <= s < win.Length && MatchLen(win[..], pat[..], patCnt, s, bufCnt) >= MIN_LEN
          ==> MatchLen(win[..], pat[..], patCnt, s, bufCnt) <= m.len
    {
      var chain := Chain();
      var visited: nat, scored: nat;
      ghost var at: seq<nat>, lengths: seq<nat>;
      m, visited, scored, at, lengths := Search(win, pat, cfg, patCnt, bufCnt, chain);
      if |chain| < NMATCH {
        LongestInWindow(index, win[..], pat[..], patCnt, bufCnt, cfg, chain, m, visited, scored);
      }
      if m.len > 0 {
        assert m.pos in chain by { assert chain[at[scored - 1]] == m.pos; }
      }
    }

    /**
     * The prefix bits of the main loop and `put_codes` for search result
     * `m`: the token sent reproduces, from the decoder's view of the
     * window, exactly the bytes it consumes.
     */
    method SendToken(m: Match) returns (token: Token)
      requires Valid() && Coded() && 0 < bufCnt
      requires m.len <= bufCnt && m.pos < win.Length
      requires IsMatch(win[..], pat[..], patCnt, m.pos, m.len)
      modifies this, win, pat
      ensures Valid() && Coded()
      ensures token == TokenOf(m.len, m.pos, old(pat[patCnt]))
      ensures tokens == old(tokens) + [token]
      ensures out == old(out) + TokenEvents(token, cfg.posBits)
      ensures consumed == old(consumed) + old(Remaining())[..TokenLength(token)]
      ensures Expand(token, old(consumed), win.Length) == old(Remaining())[..TokenLength(token)]
      ensures Remaining() == old(Remaining())[TokenLength(token)..]
    {
      ghost var out0, consumed0, tokens0, r0 := out, consumed, tokens, Remaining();
      ghost var lit := pat[patCnt];
      token := TokenOf(m.len, m.pos, pat[patCnt]);
      ghost var len' := TokenLength(token);
      ghost var bytes := Expand(token, consumed, win.Length);
      TokenReproducesInput(win[..], winCnt, consumed, pat[..], patCnt, bufCnt, m.len, m.pos);
      PrefixOfRemaining(Pending(), input, len');
      ghost var pre, code := PrefixBits(m.len), CodeEvents(m.len, m.pos, lit, cfg.posBits);
      TokenEventsOfStep(m.len, m.pos, lit, cfg.posBits);
      WellFormedSnoc(tokens, token);
      SentSnoc(tokens, out, token, pre, code, cfg.posBits);
      DecodedSnoc(tokens, consumed, token, bytes, win.Length);
      // prefix bits
      if m.len > MIN_LEN {
        out := out + [Bit(true)];
      } else if m.len == MIN_LEN {
        out := out + [Bit(false), Bit(true)];
      } else {
        out := out + [Bit(false), Bit(false)];
      }
      var len := PutCodes(m);
      tokens := tokens + [token];
    }

    /**
     * One pass of the main loop: search, then send the prefix bits and
     * `put_codes`. When the chain is shorter than NMATCH the token is a copy
     * of the longest match of MIN_LEN bytes or more anywhere in the window,
     * or a literal when there is none.
     */
    method EncodeStep() returns (token: Token)
      requires Valid() && Coded() && 0 < bufCnt
      modifies this, win, pat
      ensures Valid() && Coded()
      ensures tokens == old(tokens) + [token]
      ensures out == old(out) + TokenEvents(token, cfg.posBits)
      ensures token.Copy? ==> MIN_LEN <= token.len <= old(bufCnt) && token.pos < win.Length
      ensures Expand(token, old(consumed), win.Length) == old(Remaining())[..TokenLength(token)]
      ensures consumed == old(consumed) + old(Remaining())[..TokenLength(token)]
      ensures Remaining() == old(Remaining())[TokenLength(token)..]
      ensures |old(Chain())| < NMATCH ==>
        forall s :: 0 <= s < win.Length && MatchLen(old(win[..]), old(pat[..]), old(patCnt), s, old(bufCnt)) >= MIN_LEN
          ==> token.Copy? && MatchLen(old(win[..]), old(pat[..]), old(patCnt), s, old(bufCnt)) <= token.len
    {
      var m := FindMatch();
      token := SendToken(m);
    }

    /** The main loop: code steps until the look-ahead is empty. */
    method Compress()
      requires Valid() && Coded()
      modifies this, win, pat
      ensures Valid() && Coded()
      ensures bufCnt == 0 && input == []
      ensures consumed == old(consumed) + old(Remaining())
      ensures Decode(out, cfg.posBits, win.Length) == Some(consumed)
    {
      while bufCnt > 0
        invariant Valid() && Coded()
        invariant consumed + Remaining() == old(consumed) + old(Remaining())
        decreases |Remaining()|
      {
        ghost var c, r := consumed, Remaining();
        var token := EncodeStep();
        MovePrefix(c, r, TokenLength(token));
      }
      assert Remaining() == [];
      ParseAllEvents(tokens, cfg.posBits);
    }
  }

  /**
   * The whole encoder for window exponent option `arg` and input file
   * `source`: None where the usage text is printed, otherwise the events
   * sent, which decode back to `source`.
   */
  method CompressFile(arg: Option<int>, source: seq<Byte>) returns (r: Option<seq<Event>>)
    ensures r.None? <==> ParsePosBits(arg).None?
    ensures r.Some? ==> var posBits := ParsePosBits(arg).value;
      Decode(r.value, posBits, Config(posBits).WinSize()) == Some(source)
  {
    var posBits := ParsePosBits(arg);
    if posBits.None? {
      return None;
    }
    var cfg := Config(posBits.value);
    var e := new Encoder(cfg, source);
    e.Compress();
    assert e.consumed == source;
    return Some(e.out);
  }
}
