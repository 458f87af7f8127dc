/**
 * What one encoder step sends: the prefix chosen in the main loop and the
 * codes of `put_codes` (folded unary length code, then a window position
 * or a literal byte). Bits and fixed-width fields are kept as abstract
 * events, not packed into bytes; a literal is one event handed to the
 * move-to-front and adaptive Huffman coders.
 */
module LzCodes {
  import opened Wrappers
  import opened LzConfig
  import opened LzHash

  /** One call into the bit writer or the literal coder. */
  datatype Event =
    | Bit(one: bool)                  // put_ONE() / put_ZERO()
    | Field(value: nat, width: nat)   // put_nbits(value, width)
    | Symbol(byte: Byte)              // fgk_encode_symbol(mtf(byte))

  /** What a step codes: a copy from the window or one literal byte. */
  datatype Token = Copy(len: nat, pos: nat) | Literal(byte: Byte)

  /** Width of the length code's remainder field (MFOLD + 1). */
  const FIELD_BITS: nat := MFOLD + 1

  /**
   * The prefix: `1` for a match longer than MIN_LEN, `0 1` for exactly
   * MIN_LEN, `0 0` otherwise. The first bit tells a long match from the
   * rest, the second an exact match from a literal.
   */
  function PrefixBits(len: nat): (r: seq<Event>)
    ensures 1 <= |r| <= 2 && forall e :: e in r ==> e.Bit?
    ensures r[0] == Bit(true) <==> len > MIN_LEN
    ensures |r| == 2 <==> len <= MIN_LEN
    ensures |r| == 2 ==> (r[1] == Bit(true) <==> len == MIN_LEN)
  {
    if len > MIN_LEN then [Bit(true)]
    else if len == MIN_LEN then [Bit(false), Bit(true)]
    else [Bit(false), Bit(false)]
  }

  /** The three prefix cases are mutually exclusive and cover every length. */
  lemma PrefixCases(len: nat)
    ensures (PrefixBits(len) == [Bit(true)]) == (len > MIN_LEN)
    ensures (PrefixBits(len) == [Bit(false), Bit(true)]) == (len == MIN_LEN)
    ensures (PrefixBits(len) == [Bit(false), Bit(false)]) == (len < MIN_LEN)
  {
  }

  /** The length a decoder reads back from `q` one-bits and field `f`. */
  function LengthOf(q: nat, f: nat): nat {
    MIN_LEN + 1 + 4 * q + f / 2
  }

  /**
   * The folded length code of a match longer than MIN_LEN: the excess
   * len - (MIN_LEN + 1) is split into q = excess >> MFOLD one-bits and the
   * field f = (excess % (1 << MFOLD)) << 1. The field is even and below
   * 2^FIELD_BITS, and the length is recovered exactly.
   */
  function LengthCode(len: nat): (code: (nat, nat))
    requires len > MIN_LEN
    ensures code.1 % 2 == 0 && code.1 < 8
    ensures LengthOf(code.0, code.1) == len
  {
    var excess := len - (MIN_LEN + 1);
    (excess / FOLD, (excess % FOLD) * 2)
  }

  /** Every even field below 8 and every count of one-bits is the code of some length. */
  lemma LengthCodeOnto(q: nat, f: nat)
    requires f % 2 == 0 && f < 8
    ensures LengthOf(q, f) > MIN_LEN
    ensures LengthCode(LengthOf(q, f)) == (q, f)
  {
    var len := LengthOf(q, f);
    var excess := len - (MIN_LEN + 1);
    assert excess == 4 * q + f / 2;
    DivModUnique(excess, q, f / 2);
  }

  lemma DivModUnique(x: nat, q: nat, r: nat)
    requires r < 4 && x == 4 * q + r
    ensures x / 4 == q && x % 4 == r
  {
  }

  /** `q` one-bits: the `while (i--) put_ONE();` loop. */
  function Ones(q: nat): (r: seq<Event>)
    ensures |r| == q
    ensures forall e :: e in r ==> e == Bit(true)
    ensures forall i :: 0 <= i < q ==> r[i] == Bit(true)
  {
    if q == 0 then [] else Ones(q - 1) + [Bit(true)]
  }

  /** The length code of a match longer than MIN_LEN, as events. */
  function LengthEvents(len: nat): seq<Event>
    requires len > MIN_LEN
  {
    var (q, f) := LengthCode(len);
    Ones(q) + [Field(f, FIELD_BITS)]
  }

  /**
   * The length code is the excess over MIN_LEN + 1, folded by 1 << MFOLD,
   * as that many one-bits, then a FIELD_BITS-wide field; with the count
   * of one-bits the field gives the length back.
   */
  lemma LengthEventsShape(len: nat)
    requires len > MIN_LEN
    ensures var r := LengthEvents(len);
      && |r| == (len - (MIN_LEN + 1)) / FOLD + 1
      && (forall i :: 0 <= i < |r| - 1 ==> r[i] == Bit(true))
      && r[|r| - 1].Field? && r[|r| - 1].width == FIELD_BITS
      && LengthOf(|r| - 1, r[|r| - 1].value) == len
  {
  }

  /**
   * What `put_codes` sends for a search result of length `len` at window
   * position `pos`, where `literal` is the next look-ahead byte.
   */
  function CodeEvents(len: nat, pos: nat, literal: Byte, posBits: nat): seq<Event> {
    (if len > MIN_LEN then LengthEvents(len) else [])
    + (if len >= MIN_LEN then [Field(pos, posBits)] else [Symbol(literal)])
  }

  /**
   * A match of MIN_LEN or more ends with its position in a num_POS_BITS
   * field, preceded by the length code only when longer than MIN_LEN;
   * anything shorter is sent as the literal byte alone.
   */
  lemma CodeEventsShape(len: nat, pos: nat, literal: Byte, posBits: nat)
    ensures var r := CodeEvents(len, pos, literal, posBits);
      && (len < MIN_LEN ==> r == [Symbol(literal)])
      && (len >= MIN_LEN ==> |r| >= 1 && r[|r| - 1] == Field(pos, posBits))
      && (len == MIN_LEN ==> |r| == 1)
      && (len > MIN_LEN ==> r[..|r| - 1] == LengthEvents(len))
  {
    var r := CodeEvents(len, pos, literal, posBits);
    if len > MIN_LEN {
      assert r == LengthEvents(len) + [Field(pos, posBits)];
    }
  }

  /** Everything one pass of the main loop sends. */
  function StepEvents(len: nat, pos: nat, literal: Byte, posBits: nat): seq<Event> {
    PrefixBits(len) + CodeEvents(len, pos, literal, posBits)
  }

  /**
   * One pass sends at least three events, opening with the prefix (a
   * one-bit first exactly for a match longer than MIN_LEN) and closing
   * with the position of a match or the literal byte.
   */
  lemma StepEventsShape(len: nat, pos: nat, literal: Byte, posBits: nat)
    ensures var r := StepEvents(len, pos, literal, posBits);
      && |r| >= 3
      && (r[0] == Bit(true) <==> len > MIN_LEN)
      && r[..|PrefixBits(len)|] == PrefixBits(len)
      && r[|r| - 1] == if len >= MIN_LEN then Field(pos, posBits) else Symbol(literal)
  {
    CodeEventsShape(len, pos, literal, posBits);
    if len > MIN_LEN {
      LengthEventsShape(len);
    }
  }

  /** The token a search result stands for: short matches become a literal. */
  function TokenOf(len: nat, pos: nat, literal: Byte): (t: Token)
    ensures t.Copy? <==> len >= MIN_LEN
    ensures t.Copy? ==> t == Copy(len, pos)
    ensures t.Literal? ==> t == Literal(literal)
  {
    if len >= MIN_LEN then Copy(len, pos) else Literal(literal)
  }

  /** Input bytes a token stands for: every token consumes at least one. */
  function TokenLength(t: Token): (n: nat)
    ensures n >= 1
    ensures t.Copy? && t.len >= 1 ==> n == t.len
  {
    match t
    case Copy(len, _) => if len >= 1 then len else 1
    case Literal(_) => 1
  }

  /** Number of consecutive one-bits in `evs` from index `i` on. */
  function CountOnes(evs: seq<Event>, i: nat): (n: nat)
    requires i <= |evs|
    ensures i + n <= |evs|
    ensures forall j :: i <= j < i + n ==> evs[j] == Bit(true)
    ensures i + n < |evs| ==> evs[i + n] != Bit(true)
    decreases |evs| - i
  {
    if i < |evs| && evs[i] == Bit(true) then 1 + CountOnes(evs, i + 1) else 0
  }

  /**
   * Reads one token back from the front of an event stream, the way a
   * decoder with window exponent `posBits` would; also gives the number
   * of events it took.
   */
  function ParseToken(evs: seq<Event>, posBits: nat): Option<(Token, nat)> {
    if |evs| >= 1 && evs[0] == Bit(true) then
      var q := CountOnes(evs, 1);
      var j := 1 + q;
      if j + 1 < |evs| && evs[j].Field? && evs[j].width == FIELD_BITS
         && evs[j].value % 2 == 0 && evs[j].value < 8
         && evs[j + 1].Field? && evs[j + 1].width == posBits
      then Some((Copy(LengthOf(q, evs[j].value), evs[j + 1].value), j + 2))
      else None
    else if |evs| >= 3 && evs[0] == Bit(false) && evs[1] == Bit(true)
         && evs[2].Field? && evs[2].width == posBits then
      Some((Copy(MIN_LEN, evs[2].value), 3))
    else if |evs| >= 3 && evs[0] == Bit(false) && evs[1] == Bit(false) && evs[2].Symbol? then
      Some((Literal(evs[2].byte), 3))
    else
      None
  }

  /** The one-bits of a length code are counted exactly, whatever follows the field. */
  lemma {:induction false} CountOnesOfCode(pre: seq<Event>, q: nat, tail: seq<Event>)
    requires |tail| > 0 && tail[0] != Bit(true)
    ensures CountOnes(pre + Ones(q) + tail, |pre|) == q
    decreases q
  {
    var evs := pre + Ones(q) + tail;
    if q > 0 {
      assert Ones(q) == [Bit(true)] + Ones(q - 1) by { OnesCons(q); }
      assert evs == (pre + [Bit(true)]) + Ones(q - 1) + tail;
      CountOnesOfCode(pre + [Bit(true)], q - 1, tail);
    } else {
      assert evs[|pre|] == tail[0];
    }
  }

  lemma {:induction false} OnesCons(q: nat)
    requires q > 0
    ensures Ones(q) == [Bit(true)] + Ones(q - 1)
    decreases q
  {
    if q > 1 {
      OnesCons(q - 1);
    }
  }

  /**
   * Decoding what one step sends gives back the step's token and stops
   * exactly at the end of its events, whatever follows: the prefixes are
   * prefix-free and the length code is recovered exactly.
   */
  lemma ParseStepEvents(len: nat, pos: nat, literal: Byte, posBits: nat, rest: seq<Event>)
    ensures ParseToken(StepEvents(len, pos, literal, posBits) + rest, posBits)
      == Some((TokenOf(len, pos, literal), |StepEvents(len, pos, literal, posBits)|))
  {
    var evs := StepEvents(len, pos, literal, posBits) + rest;
    if len > MIN_LEN {
      var (q, f) := LengthCode(len);
      var tail := [Field(f, FIELD_BITS), Field(pos, posBits)] + rest;
      assert evs == [Bit(true)] + Ones(q) + tail;
      CountOnesOfCode([Bit(true)], q, tail);
      assert evs[1 + q] == Field(f, FIELD_BITS);
      assert evs[2 + q] == Field(pos, posBits);
    }
  }

  /** The events one token is sent as. */
  function TokenEvents(t: Token, posBits: nat): seq<Event> {
    match t
    case Copy(len, pos) => StepEvents(len, pos, 0, posBits)
    case Literal(b) => StepEvents(0, 0, b, posBits)
  }

  /** What a step sends is the events of the token it stands for. */
  lemma TokenEventsOfStep(len: nat, pos: nat, literal: Byte, posBits: nat)
    ensures TokenEvents(TokenOf(len, pos, literal), posBits) == StepEvents(len, pos, literal, posBits)
  {
    if len < MIN_LEN {
      assert PrefixBits(len) == PrefixBits(0);
    }
  }

  /** Copies are never shorter than MIN_LEN: shorter matches go out as literals. */
  predicate WellFormed(ts: seq<Token>) {
    forall i :: 0 <= i < |ts| && ts[i].Copy? ==> ts[i].len >= MIN_LEN
  }

  lemma WellFormedSnoc(ts: seq<Token>, t: Token)
    requires WellFormed(ts) && (t.Copy? ==> t.len >= MIN_LEN)
    ensures WellFormed(ts + [t])
  {
    forall i | 0 <= i < |ts + [t]| && (ts + [t])[i].Copy?
      ensures (ts + [t])[i].len >= MIN_LEN
    {
      if i < |ts| {
        assert (ts + [t])[i] == ts[i];
      }
    }
  }

  /** The event stream of a token sequence. */
  function Events(ts: seq<Token>, posBits: nat): seq<Event> {
    if ts == [] then [] else TokenEvents(ts[0], posBits) + Events(ts[1..], posBits)
  }

  lemma {:induction false} EventsSnoc(ts: seq<Token>, t: Token, posBits: nat)
    ensures Events(ts + [t], posBits) == Events(ts, posBits) + TokenEvents(t, posBits)
    decreases |ts|
  {
    if ts == [] {
      assert [t][1..] == [];
    } else {
      assert (ts + [t])[1..] == ts[1..] + [t];
      EventsSnoc(ts[1..], t, posBits);
    }
  }

  /** Reads tokens back until the stream ends; None on a malformed stream. */
  function ParseAll(evs: seq<Event>, posBits: nat): Option<seq<Token>>
    decreases |evs|
  {
    if evs == [] then Some([])
    else match ParseToken(evs, posBits)
      case None => None
      case Some((t, k)) =>
        if 0 < k <= |evs| then
          match ParseAll(evs[k..], posBits)
          case None => None
          case Some(ts) => Some([t] + ts)
        else None
  }

  /**
   * The event stream of well-formed tokens parses back to exactly those
   * tokens: the code is uniquely decodable.
   */
  lemma {:induction false} ParseAllEvents(ts: seq<Token>, posBits: nat)
    requires WellFormed(ts)
    ensures ParseAll(Events(ts, posBits), posBits) == Some(ts)
    decreases |ts|
  {
    if ts != [] {
      var t := ts[0];
      var rest := Events(ts[1..], posBits);
      var evs := TokenEvents(t, posBits);
      if t.Copy? {
        ParseStepEvents(t.len, t.pos, 0, posBits, rest);
      } else {
        ParseStepEvents(0, 0, t.byte, posBits, rest);
      }
      assert |evs| > 0;
      assert (evs + rest)[|evs|..] == rest;
      assert WellFormed(ts[1..]) by {
        forall i | 0 <= i < |ts[1..]| && ts[1..][i].Copy?
          ensures ts[1..][i].len >= MIN_LEN
        {
          assert ts[1..][i] == ts[i + 1];
        }
      }
      ParseAllEvents(ts[1..], posBits);
      assert [t] + ts[1..] == ts;
    }
  }
}
