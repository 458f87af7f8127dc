# lzhhf encoder model

A Dafny model of the compressor engine of `lzhhf1.c`. It is an LZ77/LZSS
coder:

- It keeps a circular window of the last 2^B bytes (B = 12..20, default 17) and a
  look-ahead buffer half that size.
- It indexes every window slot under a hash of the 4 bytes starting there.
- For every step it searches the chain of the look-ahead's hash for the longest match.
- It sends a prefix (`1` for a match longer than MIN_LEN = 4, `01` for exactly 4,
  `00` for a literal), then a "folded" unary length code, then a B-bit window
  position or one literal byte.
- It then slides the match into the window, keeping the index up to date, and
  refills the look-ahead from the input.

The model follows the source's own form:

- The `hash` macro, the prefix choice, the length code and the size
  derivation are functions.
- `search`, the length-code loop, the delete/copy/insert loops of the slide
  and the refill are methods with loops over `array`s.
- The encoder state (window, look-ahead, counters, hash index, unread input,
  output) is the class `LzEncoder.Encoder`.

Besides the local contracts (a genuine match, strictly improving candidates,
the caps, an exact length code, and the hash-index invariant kept by the slide),
the model proves the whole encoder correct against a reference decoder
(`LzDecode`, a value-level decoder written for this model). Whatever the
input, the events `Compress` sends parse back to a token sequence, and that
sequence expands to exactly the input.

Modules, one per file:

| module | file | content |
|---|---|---|
| `Wrappers` | wrappers.dfy | `Option` |
| `LzConfig` | lz_config.dfy | constants, the `-N` option, window geometry, masks |
| `Ring` | ring.dfy | circular-buffer arithmetic: `Dist`, `RingView`, `Overwrite` |
| `LzHash` | lz_hash.dfy | the `hash` macro |
| `LzMatch` | lz_match.dfy | the match length at a window slot |
| `LzWalk` | lz_walk.dfy | the reference walk of a chain that `search` is proved against |
| `LzSearch` | lz_search.dfy | `search` |
| `LzWindow` | lz_window.dfy | look-ahead view, hash-index invariant, slide lemmas |
| `LzCodes` | lz_codes.dfy | prefix, length code, tokens and their events, parsing back |
| `LzDecode` | lz_decode.dfy | the reference decoder and the per-token round trip |
| `LzEncoder` | lz_encoder.dfy | index/copy/refill loops and the `Encoder` class |

How the model represents things:

- Bytes are `bv8`. Hash keys are `bv32`, computed with the macro's shifts, xors and mask.
- A mask `x & (2^b - 1)` on a non-negative `x` is written `x % 2^b`.
  `LzConfig.LowBitsIsMod` proves the two agree.
- The hash-chain table is a multiset of `(key, slot)` entries.
  `insert_lznode` adds one entry and `delete_lznode` removes one.
  - `Indexed` says that every window slot has exactly one entry, under the hash of its current context.
  - `IndexedExcept` says the same except for a gap of slots whose entries are out.
- The output is a sequence of `Event`s: `Bit` for `put_ONE`/`put_ZERO`, `Field(value,
  width)` for `put_nbits`, and `Symbol(byte)` for a literal handed to the
  move-to-front and adaptive Huffman coders.
- The input file is a byte sequence. `gfgetc` takes its head, and an empty sequence is EOF.
- Look-ahead slots that `fread` does not fill hold arbitrary bytes, as `malloc` leaves them.

The usage text (lzhhf1.c:93) and the header comment (lzhhf1.c:26) give N as
12..20 with default 17. The code at lzhhf1.c:108-111 does something different,
and the model follows the code:

- The option `-N` is not simply clamped to 12..20. Anything below 12 becomes 12,
  and anything above 20 becomes 20.
- N = 0 (including anything `atoi` reads as 0, such as `-x`) prints the usage text.
- A negative N is stored in an unsigned int. It therefore wraps to a huge value and is clamped to 20.

## Model

| member | source | states |
|---|---|---|
| LzConfig.ParsePosBits | lzhhf1.c:106-113 | no option gives 17; an N that is 0 modulo 2^32 gives the usage exit (None); N in 12..20 is kept; 1..11 becomes 12; 21..2^32-1 becomes 20; a negative N wraps and becomes 20; every result is in 12..20 |
| LzConfig.Config.WinSize | lzhhf1.c:138 | win_BUFSIZE = 2^B, between 4 KiB and 1 MiB |
| LzConfig.Config.PatSize | lzhhf1.c:141 | pat_BUFSIZE is exactly half the window, at least 2048 |
| LzConfig.Config.HashShift | lzhhf1.c:140 | hash_SHIFT = B - 8, between 4 and 12 |
| LzConfig.Config.KeyMask | lzhhf1.c:138-139 | win_MASK is the window size less one, as a 32-bit value |
| LzConfig.MaskOfBits | lzhhf1.c:138-139 | `(1 << b) - 1` on 32 bits is 2^b - 1 for every window size b |
| LzConfig.ShiftConstants | lzhhf1.c:53-54 | FAR_LIST = 1 << FAR_LIST_BITS = 4096, and the folding unit is 1 << MFOLD = 4 |
| LzConfig.LowBitsIsMod | lzhhf1.c:139-142 | keeping the low b bits of x (`x & (2^b - 1)`) gives x mod 2^b |
| LzConfig.WinMaskIsMod | lzhhf1.c:139 | `x & win_MASK` is x modulo the window size |
| LzConfig.PatMaskIsMod | lzhhf1.c:141-142 | `x & pat_MASK` is x modulo the look-ahead size |
| LzHash.Key | lzhhf1.c:58-62 | the key of four context bytes never exceeds win_MASK, so it names a bucket |
| LzHash.Context | lzhhf1.c:59-62 | the four bytes hashed are those at pos, pos+1, pos+2, pos+3, read circularly |
| LzHash.Hash | lzhhf1.c:58-62 | the hash of a buffer position is at most win_MASK |
| LzHash.SameContextSameHash | lzhhf1.c:58-62 | the key depends on nothing but the four context bytes |
| LzHash.HashWrap | lzhhf1.c:389 | hashing at the unreduced position k+i gives the context and key of slot (k+i) & win_MASK |
| LzMatch.MatchFrom | lzhhf1.c:310-312 | the left-to-right scan stops at the first mismatch or at buf_cnt; every byte before the stop agrees |
| LzMatch.MatchLen | lzhhf1.c:298-312 | the match length at a slot is at most buf_cnt, every byte before it agrees, and the byte at it disagrees unless it is buf_cnt |
| LzMatch.MatchLenExactly | lzhhf1.c:308-312 | k is the match length iff the first k bytes agree and k is buf_cnt or a mismatch |
| LzMatch.MatchLenIsLongest | lzhhf1.c:298-312 | the first k bytes agree iff k is at most the match length |
| LzSearch.ContextHolds | lzhhf1.c:298-305 | the right-to-left context check passes iff the first len+1 look-ahead bytes agree with the window at the candidate |
| LzSearch.Extend | lzhhf1.c:307-312 | the left-to-right extension returns exactly the match length at the candidate |
| LzSearch.Score | lzhhf1.c:298-316 | a candidate is taken iff its match is longer than the current best, and then its length is that match length |
| LzWalk.Walk | lzhhf1.c:298-316 | the reference walk over the first n chain nodes: never more scored nodes than nodes walked |
| LzWalk.WalkedSkip | lzhhf1.c:298-316 | a node whose match is not longer than the best so far is not scored, and the walk stays a valid record |
| LzWalk.WalkedTake | lzhhf1.c:298-316 | a node whose match is longer than the best so far is scored with its match length, and the walk stays a valid record |
| LzWalk.ScanSkip | lzhhf1.c:298-316 | skipping a node that is not longer keeps the best a genuine match that is the longest and first such so far |
| LzWalk.ScanTake | lzhhf1.c:313-316 | taking a strictly longer node makes it the best; the scored lengths still strictly increase |
| LzWalk.WalkScans | lzhhf1.c:289-325 | after any number of nodes, the reference walk scores exactly the nodes longer than every node before them; its best is the last scored, the longest over the walked nodes and its first occurrence |
| LzSearch.WalkChain | lzhhf1.c:289-325 | the loop of search computes exactly the reference walk over the nodes it visits, visits at most FAR_LIST and scores at most NMATCH nodes, and stops before the chain ends only when one of those caps binds or the whole look-ahead matched, at the node that made it bind |
| LzSearch.Search | lzhhf1.c:274-330 | {0,0} when buf_cnt <= 1 or the chain is empty; a visited node is scored iff its match is longer than every node before it; the result is the last scored node with its match length, hence a genuine match within buf_cnt, the longest over the visited nodes and the first node reaching that length; the scored lengths strictly increase; at most NMATCH scored and FAR_LIST visited; the walk stops early only when a cap binds or the whole look-ahead matched |
| LzWindow.Lookahead | lzhhf1.c:395-396 | the pending bytes are pattern[(pat_cnt+t) & pat_MASK] for t < buf_cnt |
| LzWindow.NothingIndexed | lzhhf1.c:178-182 | an empty table is the initial index with every slot still in the gap |
| LzWindow.EmptyGap | lzhhf1.c:388-402 | an index with an empty gap indexes every slot |
| LzWindow.DeleteEntry | lzhhf1.c:388-390 | one delete_lznode removes the entry of the slot at distance i from k, and only it: the gap grows by one |
| LzWindow.InsertEntry | lzhhf1.c:400-402 | one insert_lznode files the slot at distance i from k under the hash of its current context: the gap shrinks by one |
| LzWindow.ContextOutsideWrite | lzhhf1.c:382-397 | a slot at least len+3 slots after k keeps its four context bytes when len bytes are written from win_cnt = k+3 |
| LzWindow.IndexOutsideWrite | lzhhf1.c:382-402 | the copy keeps the index of every slot outside the deleted range correct, so deleting len+3 entries before it is enough |
| LzWindow.RingViewAfterOverwrite | lzhhf1.c:392-397 | after len bytes are written at win_cnt and win_cnt moves past them, the window read from the new win_cnt is the old one with its first len bytes replaced at the end by the new bytes |
| LzWindow.LookaheadAfterRefill | lzhhf1.c:404-416 | after the refill and the counter update the pending bytes are the old ones less the first len, followed by the bytes read |
| LzWindow.OverwriteSnoc | lzhhf1.c:405-409 | storing one more input byte extends the refill by the next look-ahead slot |
| LzWindow.Candidates | lzhhf1.c:280 | the chain of a key holds exactly the slots filed under that key |
| LzWindow.MatchedContextSameHash | lzhhf1.c:280 | a window slot matching the first four look-ahead bytes has the look-ahead's key |
| LzWindow.ChainComplete | lzhhf1.c:280 | every slot that starts a match of MIN_LEN bytes is on the chain search walks |
| LzWindow.WindowInitial | lzhhf1.c:172 | the all-zero window is the window of an empty input |
| LzWindow.WindowAfterCopy | lzhhf1.c:392-397 | copying the coded bytes into the window and advancing win_cnt keeps the window equal to the last window-size bytes of zeros-then-input |
| LzWindow.RemainingAfterSlide | lzhhf1.c:404-416 | the bytes a slide consumes are the first len of the remaining input, and the rest follow |
| LzWindow.RemainingAfterRefill | lzhhf1.c:404-416 | after refill and counter update, look-ahead plus unread input is the old remaining input less its first len bytes |
| LzWindow.LongestInWindow | lzhhf1.c:274-330 | when the chain is shorter than NMATCH, no window slot starts a match of MIN_LEN or more that is longer than the result of search |
| LzCodes.PrefixBits | lzhhf1.c:204-214 | the first bit is 1 iff len > MIN_LEN; two bits iff len <= MIN_LEN; then the second bit is 1 iff len == MIN_LEN |
| LzCodes.PrefixCases | lzhhf1.c:204-214 | the three prefixes `1`, `01`, `00` go with len > MIN_LEN, len == MIN_LEN, len < MIN_LEN, each iff |
| LzCodes.LengthCode | lzhhf1.c:356-366 | for len > MIN_LEN: q = (len-5) >> 2 one-bits and the field ((len-5) % 4) << 1, which is even and below 8; len = MIN_LEN+1 + 4q + f/2 |
| LzCodes.LengthCodeOnto | lzhhf1.c:356-366 | every one-bit count and even field below 8 is the code of exactly one length above MIN_LEN |
| LzCodes.Ones | lzhhf1.c:361-364 | the unary part is q one-bits and nothing else |
| LzCodes.LengthEventsShape | lzhhf1.c:356-366 | for len > MIN_LEN the length code is (len-5) >> 2 one-bits then one 3-bit field, and reading the code back gives len |
| LzCodes.CodeEventsShape | lzhhf1.c:356-379 | put_codes sends the literal alone for len < MIN_LEN; the position alone for len == MIN_LEN; and the length code followed by the B-bit position for len > MIN_LEN |
| LzCodes.StepEventsShape | lzhhf1.c:204-217 | one step sends at least three events: the prefix first (starting with a one-bit iff len > MIN_LEN), and last the position for a copy or the literal otherwise |
| LzCodes.TokenOf | lzhhf1.c:369-379 | a search result is a copy iff len >= MIN_LEN, else a literal of the next look-ahead byte |
| LzCodes.TokenLength | lzhhf1.c:374 | every token consumes at least one byte; a copy consumes its length |
| LzCodes.CountOnes | lzhhf1.c:361-365 | reading back a unary count stops exactly at the first event that is not a one-bit |
| LzCodes.CountOnesOfCode | lzhhf1.c:361-365 | the one-bits of a length code are read back as exactly q, whatever follows the field |
| LzCodes.ParseStepEvents | lzhhf1.c:204-217 | what one step sends (prefix and put_codes) parses back to that step's token and ends exactly where the step's events end |
| LzCodes.TokenEventsOfStep | lzhhf1.c:204-217 | what a step sends depends only on its token: a short match sends the same as a literal |
| LzCodes.WellFormedSnoc | lzhhf1.c:369-376 | appending a token that is a literal or a copy of at least MIN_LEN keeps every copy at least MIN_LEN |
| LzCodes.EventsSnoc | lzhhf1.c:200-218 | one more pass of the main loop appends exactly that token's events to the stream |
| LzCodes.ParseAllEvents | lzhhf1.c:200-218 | the stream of any token sequence with copies of at least MIN_LEN parses back to exactly that sequence |
| LzDecode.Expand | lzhhf1.c:369-379 | a copy stands for len bytes and a literal for its one byte |
| LzDecode.DecodeAllSnoc | lzhhf1.c:200-218 | decoding one token more appends its bytes, read from the window as the tokens before it left it |
| LzDecode.WindowAgrees | lzhhf1.c:392-397 | each window slot holds the byte the decoder's view of the window gives for it |
| LzDecode.SentSnoc | lzhhf1.c:204-217 | sending the prefix and the codes of one token extends the stream by that token's events |
| LzDecode.DecodedSnoc | lzhhf1.c:392-397 | consuming one token's bytes keeps the consumed input equal to the decoding of the tokens sent |
| LzDecode.TokenReproducesInput | lzhhf1.c:298-312 | the token of a genuine match, expanded from the window, gives exactly the look-ahead bytes it consumes |
| LzEncoder.IndexWindow | lzhhf1.c:178-182 | the set-up loop files every window slot under the hash of its context |
| LzEncoder.DeleteContexts | lzhhf1.c:388-390 | after the delete loop the count slots from k have no entry and every other slot keeps its own |
| LzEncoder.InsertContexts | lzhhf1.c:400-402 | after the insert loop every slot, including the count slots from k, is filed under the hash of its current context |
| LzEncoder.CopyIntoWindow | lzhhf1.c:392-397 | the backward copy writes the first len pending bytes at win_cnt onward and changes no other window slot |
| LzEncoder.CopyAndRehash | lzhhf1.c:381-402 | k = win_cnt - 3, wrapped; delete len+3 entries from k, copy, insert them again: the window is written as above and every slot is indexed by its new context |
| LzEncoder.ReadInto | lzhhf1.c:185 | fread fills min(pat_BUFSIZE, input size) look-ahead slots with the first input bytes |
| LzEncoder.Refill | lzhhf1.c:404-411 | reads min(len, bytes left) input bytes into the slots from pat_cnt on, stops at EOF and writes nothing else |
| LzEncoder.Encoder.constructor | lzhhf1.c:171-189 | a zero window with every slot indexed, the look-ahead filled from the input, nothing sent or consumed |
| LzEncoder.Encoder.Chain | lzhhf1.c:280 | the chain search walks holds only window slots |
| LzEncoder.Encoder.ShiftWindow | lzhhf1.c:381-402 | the window half of the slide: the window receives the first len pending bytes, win_cnt advances modulo the window, the index stays exact, the look-ahead is untouched |
| LzEncoder.Encoder.AdvanceLookahead | lzhhf1.c:404-416 | the look-ahead half: pat_cnt advances modulo pat_BUFSIZE, buf_cnt drops by len less the bytes read, and the remaining input loses exactly its first len bytes |
| LzEncoder.Encoder.Slide | lzhhf1.c:381-416 | the whole slide: the first len remaining bytes become consumed and leave the remaining input; the invariant holds again |
| LzEncoder.Encoder.SendCodes | lzhhf1.c:356-379 | sends the length code for len > MIN_LEN, the position for len >= MIN_LEN or else the literal, and returns the bytes consumed (len, or 1 for a literal) |
| LzEncoder.Encoder.PutCodes | lzhhf1.c:351-417 | put_codes: the codes of the match are sent, then exactly that many remaining bytes move into the window |
| LzEncoder.Encoder.FindMatch | lzhhf1.c:201 | search on the look-ahead's chain gives a genuine match within buf_cnt at a window slot; when the chain is shorter than NMATCH it is the longest match of MIN_LEN or more in the whole window |
| LzEncoder.Encoder.SendToken | lzhhf1.c:203-217 | the prefix and put_codes for a match send exactly its token's events; the token's expansion is exactly the bytes consumed |
| LzEncoder.Encoder.EncodeStep | lzhhf1.c:200-218 | one pass of the main loop: one token sent, its bytes consumed, a copy no shorter than MIN_LEN and within the window, the longest match when the chain is shorter than NMATCH |
| LzEncoder.Encoder.Compress | lzhhf1.c:200-218 | the main loop ends with all input consumed, and what was sent decodes to exactly the input |
| LzEncoder.CompressFile | lzhhf1.c:106-218 | usage exit iff the option is rejected; otherwise the stream sent decodes, with the chosen window size, to exactly the input file |

## Left out

- File I/O and the command line beyond `-N`: opening the files, the argument count
  check, the `-` check, and the usage text. The `file_stamp` header and its rewrite
  are also left out (platform-dependent struct layout), as are `malloc`/`alloc_lzhash`
  failures and the final clean-up.
- Bit packing: `put_ONE`, `put_ZERO`, `put_nbits` and `flush_put_buffer` live
  in gtbitio2.c, which is not part of this model. What they are asked to write
  is kept as a sequence of `Event`s, with no bit order.
- `gfgetc` buffering (gtbitio2.c): the input is a byte sequence read front to back.
- The hash-chain storage (lzhash.c, not part of this model): `lzhash`,
  `lznext`, `lzprev`, `insert_lznode` and `delete_lznode` are a multiset of
  `(key, slot)` entries.
- LzEncoder.Encoder.FindMatch: hands `search` the chain in ascending slot order.
  That order is not lzhash.c's own order, which is not visible here. When a cap
  binds, or two candidates match equally far, which match is found depends on that
  order. So the promise that the result is the longest match is stated only for
  chains shorter than NMATCH. `LzSearch.Search` itself is proved for any chain order.
- The move-to-front table and the adaptive Huffman coder (mtf.c, huf2.c,
  adhfgk2.c): a literal is one `Symbol` event.
- The compression ratio and timing report: floating point and the clock.
- The decompressor (lzhhfx.c) is not part of this model. `LzDecode` is a reference decoder
  written for the round trip. It reads all bytes of a copy from the window as it
  stood before that copy, which is the window the encoder compared the match
  against. A decoder that copied byte by byte, front to back, from a position fewer
  than len slots before its write position would read bytes of the same copy instead.
