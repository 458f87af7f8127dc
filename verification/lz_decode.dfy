/**
 * A reference decoder for the token stream, defined on values. The
 * encoder's window starts as `n` zero bytes, receives every consumed byte
 * in turn and is written at slot |consumed| % n next; so window slot `s`
 * holds the byte `Dist(|consumed| % n, s, n)` places into the last `n`
 * bytes of zeros-then-input. A copy token reads its bytes from there.
 */
module LzDecode {
  import opened Wrappers
  import opened Ring
  import opened LzHash
  import opened LzCodes
  import opened LzWindow
  import opened LzConfig
  import opened LzMatch

  /** The byte in window slot `s` once `consumed` has gone through the window. */
  function WindowByte(consumed: seq<Byte>, n: nat, s: nat): Byte
    requires 0 < n && s < n
  {
    (Zeros(n) + consumed)[|consumed| + Dist(|consumed| % n, s, n)]
  }

  /** The bytes one token stands for, given everything decoded before it. */
  function Expand(t: Token, consumed: seq<Byte>, n: nat): (r: seq<Byte>)
    requires 0 < n
    ensures t.Copy? ==> |r| == t.len
    ensures t.Literal? ==> r == [t.byte]
  {
    match t
    case Copy(len, pos) => seq(len, i requires 0 <= i < len => WindowByte(consumed, n, (pos + i) % n))
    case Literal(b) => [b]
  }

  /** Decodes a token sequence that follows `consumed`. */
  function DecodeAll(ts: seq<Token>, consumed: seq<Byte>, n: nat): seq<Byte>
    requires 0 < n
    decreases |ts|
  {
    if ts == [] then []
    else
      var b := Expand(ts[0], consumed, n);
      b + DecodeAll(ts[1..], consumed + b, n)
  }

  lemma {:induction false} DecodeAllSnoc(ts: seq<Token>, t: Token, consumed: seq<Byte>, n: nat)
    requires 0 < n
    ensures DecodeAll(ts + [t], consumed, n)
      == DecodeAll(ts, consumed, n) + Expand(t, consumed + DecodeAll(ts, consumed, n), n)
    decreases |ts|
  {
    if ts == [] {
      var b := Expand(t, consumed, n);
      assert ts + [t] == [t] && [t][0] == t && [t][1..] == [];
      assert DecodeAll([t], consumed, n) == b + DecodeAll([], consumed + b, n);
      assert consumed + DecodeAll(ts, consumed, n) == consumed;
    } else {
      var b := Expand(ts[0], consumed, n);
      var d := DecodeAll(ts[1..], consumed + b, n);
      var e := Expand(t, consumed + b + d, n);
      assert (ts + [t])[0] == ts[0] && (ts + [t])[1..] == ts[1..] + [t];
      assert DecodeAll(ts + [t], consumed, n) == b + DecodeAll(ts[1..] + [t], consumed + b, n);
      DecodeAllSnoc(ts[1..], t, consumed + b, n);
      assert DecodeAll(ts, consumed, n) == b + d;
      assert consumed + b + d == consumed + (b + d);
      assert b + (d + e) == (b + d) + e;
    }
  }

  /** The whole decoder: events to bytes, from an all-zero window. */
  function Decode(evs: seq<Event>, posBits: nat, n: nat): Option<seq<Byte>>
    requires 0 < n
  {
    match ParseAll(evs, posBits)
    case None => None
    case Some(ts) => Some(DecodeAll(ts, [], n))
  }

  /**
   * The window the encoder holds agrees slot by slot with the decoder's
   * view of it, when its ring read from the write slot is the last `n`
   * bytes of zeros-then-input.
   */
  lemma WindowAgrees(w: seq<Byte>, winCnt: nat, consumed: seq<Byte>, s: nat)
    requires winCnt < |w| && s < |w|
    requires WindowHolds(w, winCnt, consumed)
    ensures w[s] == WindowByte(consumed, |w|, s)
  {
    var o := Dist(winCnt, s, |w|);
    assert RingView(w, winCnt)[o] == w[s];
  }

  /**
   * Sending one more token as the events `pre + code` extends the event
   * stream of the tokens sent so far by that token's events.
   */
  lemma SentSnoc(tokens: seq<Token>, out: seq<Event>, token: Token, pre: seq<Event>, code: seq<Event>, posBits: nat)
    requires out == Events(tokens, posBits)
    requires pre + code == TokenEvents(token, posBits)
    ensures (out + pre) + code == out + TokenEvents(token, posBits)
    ensures (out + pre) + code == Events(tokens + [token], posBits)
  {
    assert (out + pre) + code == out + (pre + code);
    EventsSnoc(tokens, token, posBits);
  }

  /**
   * Consuming the bytes `bytes` of one more token keeps the consumed input
   * equal to the decoding of the tokens sent.
   */
  lemma DecodedSnoc(tokens: seq<Token>, consumed: seq<Byte>, token: Token, bytes: seq<Byte>, n: nat)
    requires 0 < n && consumed == DecodeAll(tokens, [], n)
    requires Expand(token, consumed, n) == bytes
    ensures consumed + bytes == DecodeAll(tokens + [token], [], n)
  {
    DecodeAllSnoc(tokens, token, [], n);
    assert [] + consumed == consumed;
  }

  /**
   * The token of a search result reproduces, from the decoder's view of
   * the window, exactly the look-ahead bytes it consumes.
   */
  lemma TokenReproducesInput(w: seq<Byte>, winCnt: nat, consumed: seq<Byte>, p: seq<Byte>, patCnt: nat,
                             bufCnt: nat, len: nat, pos: nat)
    requires winCnt < |w| && WindowHolds(w, winCnt, consumed)
    requires patCnt < |p| && 0 < bufCnt && len <= bufCnt && pos < |w|
    requires IsMatch(w, p, patCnt, pos, len)
    ensures var t := TokenOf(len, pos, p[patCnt]);
      Expand(t, consumed, |w|) == Lookahead(p, patCnt, bufCnt)[..TokenLength(t)]
  {
    var n := |w|;
    var t := TokenOf(len, pos, p[patCnt]);
    var la := Lookahead(p, patCnt, bufCnt);
    if len >= MIN_LEN {
      forall i | 0 <= i < len
        ensures Expand(t, consumed, n)[i] == la[i]
      {
        WindowAgrees(w, winCnt, consumed, (pos + i) % n);
        assert Agree(w, p, patCnt, pos, i);
      }
    } else {
      ModBelow(patCnt, |p|);
      assert la[0] == p[patCnt];
    }
  }
}
