/** The pixel section of a Radiance `.hdr` picture: flat RGBE quads, or the
    adaptive run-length ("new-style") scanlines in which each of the four
    channels of a scanline is stored separately as run / literal pairs.
    This module holds the decoder as functions, an encoder as its partner,
    and the properties they have; HdrReader holds the loops that compute it. */
module HdrRle {
  import opened Machine

  /** One pixel before the float conversion: mantissas and shared exponent. */
  datatype Rgbe = Rgbe(r: u8, g: u8, b: u8, e: u8)

  /** Why decoding stops. `Truncated` stands for the input ending early, which
      the loader does not check (it reads past its data). */
  datatype HdrError = BadRunCount | BadLiteralCount | WidthMismatch | Truncated

  /** Widths outside [MIN_RLE_WIDTH, MAX_RLE_WIDTH] are never run-length coded. */
  const MIN_RLE_WIDTH: nat := 8
  const MAX_RLE_WIDTH: nat := 0x7fff
  /** A pair whose count byte exceeds RUN_FLAG is a run of `count - RUN_FLAG`. */
  const RUN_FLAG: nat := 128
  /** The first two bytes of a run-length coded scanline. */
  const SCANLINE_MARK: nat := 2

  /** The bytes one channel decodes to and the input position after them. */
  datatype Chunk = Chunk(bytes: seq<u8>, next: nat)

  function Repeat(v: u8, n: nat): (r: seq<u8>)
    ensures |r| == n && forall i :: 0 <= i < n ==> r[i] == v
  {
    seq(n, _ => v)
  }

  /** Puts `pre` in front of the bytes of a successful decoding. */
  function Prepend(pre: seq<u8>, r: Result<Chunk, HdrError>): Result<Chunk, HdrError> {
    match r
    case Ok(c) => Ok(Chunk(pre + c.bytes, c.next))
    case Err(e) => Err(e)
  }

  lemma PrependAssoc(a: seq<u8>, b: seq<u8>, r: Result<Chunk, HdrError>)
    ensures Prepend(a, Prepend(b, r)) == Prepend(a + b, r)
  {
    if r.Ok? {
      assert a + (b + r.value.bytes) == (a + b) + r.value.bytes;
    }
  }

  lemma PrependEmpty(r: Result<Chunk, HdrError>)
    ensures Prepend([], r) == r
  {
    if r.Ok? {
      assert [] + r.value.bytes == r.value.bytes;
    }
  }

  /** Decodes run / literal pairs from `src[pos..]` until exactly `need` bytes
      of one channel are filled. A pair `(n, v)` with `n > 128` is a run of
      `n - 128` copies of `v`; otherwise it is a literal: `v` followed by the
      next `n - 1` input bytes. A zero count, or one that overfills the
      channel, is an error. */
  function DecodeChannel(src: seq<u8>, pos: nat, need: nat): (r: Result<Chunk, HdrError>)
    ensures r.Ok? ==> |r.value.bytes| == need && pos <= r.value.next
    ensures r.Ok? && need > 0 ==> r.value.next <= |src|
    decreases need
  {
    if need == 0 then Ok(Chunk([], pos))
    else if pos + 2 > |src| then Err(Truncated)
    else if src[pos] > RUN_FLAG then
      var count := src[pos] - RUN_FLAG;
      if count == 0 || count > need then Err(BadRunCount)
      else Prepend(Repeat(src[pos + 1], count), DecodeChannel(src, pos + 2, need - count))
    else
      var count := src[pos];
      if count == 0 || count > need then Err(BadLiteralCount)
      else if pos + 1 + count > |src| then Err(Truncated)
      else Prepend(src[pos + 1 .. pos + 1 + count], DecodeChannel(src, pos + 1 + count, need - count))
  }

  /** Decodes `k` channels of `w` bytes each, one after the other. */
  function DecodeChannels(src: seq<u8>, pos: nat, w: nat, k: nat): Result<Chunk, HdrError>
    decreases k
  {
    if k == 0 then Ok(Chunk([], pos))
    else
      match DecodeChannel(src, pos, w)
      case Err(e) => Err(e)
      case Ok(c) => Prepend(c.bytes, DecodeChannels(src, c.next, w, k - 1))
  }

  /** `k` decoded channels hold `w` bytes each and end no earlier than they start. */
  lemma {:induction false} ChannelsLength(src: seq<u8>, pos: nat, w: nat, k: nat)
    ensures var r := DecodeChannels(src, pos, w, k);
      r.Ok? ==> |r.value.bytes| == Pixels(w, k) && pos <= r.value.next
    decreases k
  {
    if k > 0 && DecodeChannel(src, pos, w).Ok? {
      ChannelsLength(src, DecodeChannel(src, pos, w).value.next, w, k - 1);
    }
  }

  /** The four channels of a decoded scanline fill `4 * w` bytes. */
  lemma ScanlineLength(src: seq<u8>, pos: nat, w: nat)
    ensures DecodeChannels(src, pos, w, 4).Ok? ==> |DecodeChannels(src, pos, w, 4).value.bytes| == 4 * w
  {
    ChannelsLength(src, pos, w, 4);
    PixelsIsProduct(w, 4);
  }

  /** A scanline buffer holds the four channels one after the other; pixel `i`
      takes byte `i` of each. */
  function Planar(buf: seq<u8>, w: nat): (px: seq<Rgbe>)
    requires |buf| == 4 * w
    ensures |px| == w
  {
    seq(w, i requires 0 <= i < w => Rgbe(buf[i], buf[i + w], buf[i + 2 * w], buf[i + 3 * w]))
  }

  /** `n` pixels stored as consecutive 4-byte quads from `pos` on. */
  function FlatPixels(src: seq<u8>, pos: nat, n: nat): (r: Result<seq<Rgbe>, HdrError>)
    ensures r.Ok? <==> pos + 4 * n <= |src|
    ensures r.Ok? ==> |r.value| == n
  {
    if pos + 4 * n > |src| then Err(Truncated)
    else Ok(seq(n, i requires 0 <= i < n =>
      Rgbe(src[pos + 4 * i], src[pos + 4 * i + 1], src[pos + 4 * i + 2], src[pos + 4 * i + 3])))
  }

  /** Whether a scanline starts with the run-length mark `2, 2, b` with bit 7 of `b` clear. */
  predicate IsRleHeader(b0: u8, b1: u8, b2: u8) {
    b0 == SCANLINE_MARK && b1 == SCANLINE_MARK && b2 < 0x80
  }

  /** The scanline width a run-length header declares: `(b2 << 8) | b3`. */
  function HeaderWidth(b2: u8, b3: u8): (w: nat)
    ensures w < 0x1_0000 && w % 0x100 == b3 && w / 0x100 == b2
  {
    b2 * 0x100 + b3
  }

  function PrependPixels(pre: seq<Rgbe>, r: Result<seq<Rgbe>, HdrError>): Result<seq<Rgbe>, HdrError> {
    match r
    case Ok(px) => Ok(pre + px)
    case Err(e) => Err(e)
  }

  lemma PrependPixelsEmpty(r: Result<seq<Rgbe>, HdrError>)
    ensures PrependPixels([], r) == r
  {
    if r.Ok? {
      assert [] + r.value == r.value;
    }
  }

  lemma PrependPixelsAssoc(a: seq<Rgbe>, b: seq<Rgbe>, r: Result<seq<Rgbe>, HdrError>)
    ensures PrependPixels(a, PrependPixels(b, r)) == PrependPixels(a + b, r)
  {
    if r.Ok? {
      assert a + (b + r.value) == (a + b) + r.value;
    }
  }

  /** The remaining `rem` scanlines of width `w` from `pos` on. A scanline
      without the run-length mark makes the rest of the picture flat quads,
      read from that scanline's first byte (ScanlinesAsWritten is what the
      loader does instead); a mark that declares another width is an error. */
  function DecodeScanlines(src: seq<u8>, pos: nat, w: nat, rem: nat): (r: Result<seq<Rgbe>, HdrError>)
    ensures r.Ok? ==> |r.value| == Pixels(w, rem)
    decreases rem
  {
    if rem == 0 then Ok([])
    else if pos + 4 > |src| then Err(Truncated)
    else if !IsRleHeader(src[pos], src[pos + 1], src[pos + 2]) then FlatPixels(src, pos, Pixels(w, rem))
    else if HeaderWidth(src[pos + 2], src[pos + 3]) != w then Err(WidthMismatch)
    else
      match DecodeChannels(src, pos + 4, w, 4)
      case Err(e) => Err(e)
      case Ok(c) =>
        ScanlineLength(src, pos + 4, w);
        var line := Planar(c.bytes, w);
        var rest := DecodeScanlines(src, c.next, w, rem - 1);
        PrependPixels(line, rest)
  }

  /** The number of pixels in `rows` scanlines of `w` pixels (or of bytes in
      `rows` channels of `w` bytes), counted row by row: the decoder reasons
      about it one scanline or channel at a time. */
  function Pixels(w: nat, rows: nat): nat
    decreases rows
  {
    if rows == 0 then 0 else w + Pixels(w, rows - 1)
  }

  lemma {:induction false} PixelsIsProduct(w: nat, rows: nat)
    ensures Pixels(w, rows) == w * rows
    decreases rows
  {
    if rows > 0 {
      PixelsIsProduct(w, rows - 1);
    }
  }

  predicate RleWidth(w: nat) {
    MIN_RLE_WIDTH <= w <= MAX_RLE_WIDTH
  }

  /** The whole pixel section of a `w` by `h` picture starting at `pos`. */
  function DecodePixels(src: seq<u8>, pos: nat, w: nat, h: nat): (r: Result<seq<Rgbe>, HdrError>)
    ensures r.Ok? ==> |r.value| == w * h
  {
    PixelsIsProduct(w, h);
    if !RleWidth(w) then FlatPixels(src, pos, w * h)
    else DecodeScanlines(src, pos, w, h)
  }

  // ---------------------------------------------------------------------------
  // Properties of single pairs

  /** A run pair writes exactly `n - 128` copies of its value and moves past the pair. */
  lemma RunPair(src: seq<u8>, pos: nat, need: nat)
    requires pos + 2 <= |src| && src[pos] > RUN_FLAG
    ensures var count := src[pos] - RUN_FLAG;
      DecodeChannel(src, pos, need)
        == if need == 0 then Ok(Chunk([], pos))
           else if count > need then Err(BadRunCount)
           else Prepend(Repeat(src[pos + 1], count), DecodeChannel(src, pos + 2, need - count))
  {
  }

  /** A literal pair `(n, v)` writes `v` and then the next `n - 1` input bytes verbatim. */
  lemma LiteralPair(src: seq<u8>, pos: nat, need: nat)
    requires pos + 2 <= |src| && src[pos] <= RUN_FLAG && need > 0
    ensures var count := src[pos];
      DecodeChannel(src, pos, need)
        == if count == 0 || count > need then Err(BadLiteralCount)
           else if pos + 1 + count > |src| then Err(Truncated)
           else Prepend([src[pos + 1]] + src[pos + 2 .. pos + 1 + count], DecodeChannel(src, pos + 1 + count, need - count))
  {
    var count := src[pos];
    if 0 < count <= need && pos + 1 + count <= |src| {
      assert src[pos + 1 .. pos + 1 + count] == [src[pos + 1]] + src[pos + 2 .. pos + 1 + count];
    }
  }

  /** When a channel decodes, a run pair at its front is honoured: its count
      fits the channel and the channel starts with that many copies of its
      value. */
  lemma RunPairLeads(src: seq<u8>, pos: nat, need: nat)
    requires need > 0 && pos + 2 <= |src| && src[pos] > RUN_FLAG
    requires DecodeChannel(src, pos, need).Ok?
    ensures var count := src[pos] - RUN_FLAG;
      1 <= count <= need && DecodeChannel(src, pos, need).value.bytes[..count] == Repeat(src[pos + 1], count)
  {
    var count := src[pos] - RUN_FLAG;
    var rest := DecodeChannel(src, pos + 2, need - count).value;
    assert DecodeChannel(src, pos, need).value.bytes == Repeat(src[pos + 1], count) + rest.bytes;
  }

  /** When a channel decodes, a literal pair `(m, v_1 .. v_m)` at its front is
      copied verbatim: the `m` bytes after the count are in the input, fit the
      channel, and are its first bytes. */
  lemma LiteralPairLeads(src: seq<u8>, pos: nat, need: nat)
    requires need > 0 && pos + 2 <= |src| && src[pos] <= RUN_FLAG
    requires DecodeChannel(src, pos, need).Ok?
    ensures var m := src[pos];
      1 <= m <= need && pos + 1 + m <= |src|
      && DecodeChannel(src, pos, need).value.bytes[..m] == src[pos + 1 .. pos + 1 + m]
  {
    var m := src[pos];
    var rest := DecodeChannel(src, pos + 1 + m, need - m).value;
    assert DecodeChannel(src, pos, need).value.bytes == src[pos + 1 .. pos + 1 + m] + rest.bytes;
  }

  /** A decoded scanline is planar: channel `c` of pixel `i` is byte `i + c * w`
      of the channel bytes, and the four channels fill exactly `w` bytes each. */
  lemma {:induction false} DecodedScanlineIsPlanar(src: seq<u8>, pos: nat, w: nat)
    requires DecodeChannels(src, pos, w, 4).Ok?
    ensures var c := DecodeChannels(src, pos, w, 4).value;
      |c.bytes| == 4 * w
      && c.bytes == ChannelBytes(src, pos, w, 0) + ChannelBytes(src, pos, w, 1)
                    + ChannelBytes(src, pos, w, 2) + ChannelBytes(src, pos, w, 3)
  {
    var c0 := DecodeChannel(src, pos, w).value;
    var c1 := DecodeChannel(src, c0.next, w).value;
    var c2 := DecodeChannel(src, c1.next, w).value;
    var c3 := DecodeChannel(src, c2.next, w).value;
    assert DecodeChannels(src, c2.next, w, 1) == Prepend(c3.bytes, Ok(Chunk([], c3.next)));
    assert ChannelStart(src, pos, w, 1) == c0.next;
    assert ChannelStart(src, pos, w, 2) == c1.next;
    assert ChannelStart(src, pos, w, 3) == c2.next;
    assert c3.bytes + [] == c3.bytes;
    assert c0.bytes + (c1.bytes + (c2.bytes + c3.bytes)) == c0.bytes + c1.bytes + c2.bytes + c3.bytes;
  }

  /** Where channel `i` of a scanline starts, when the earlier channels decode. */
  function ChannelStart(src: seq<u8>, pos: nat, w: nat, i: nat): nat
    decreases i
  {
    if i == 0 then pos
    else
      var p := ChannelStart(src, pos, w, i - 1);
      match DecodeChannel(src, p, w)
      case Ok(c) => c.next
      case Err(_) => p
  }

  /** The `w` bytes channel `i` of a scanline decodes to (empty when it fails). */
  function ChannelBytes(src: seq<u8>, pos: nat, w: nat, i: nat): seq<u8> {
    match DecodeChannel(src, ChannelStart(src, pos, w, i), w)
    case Ok(c) => c.bytes
    case Err(_) => []
  }

  // ---------------------------------------------------------------------------
  // The encoder, and the round trip through the decoder

  /** Length of the run of bytes equal to `b[0]` at the front of `b`, capped at 127. */
  function RunLength(b: seq<u8>): (n: nat)
    requires |b| > 0
    ensures 1 <= n <= |b| && n <= 127
    ensures forall i :: 0 <= i < n ==> b[i] == b[0]
  {
    RunFrom(b, 1)
  }

  function RunFrom(b: seq<u8>, k: nat): (n: nat)
    requires 1 <= k <= |b| && k <= 127
    requires forall i :: 0 <= i < k ==> b[i] == b[0]
    ensures k <= n <= |b| && n <= 127
    ensures forall i :: 0 <= i < n ==> b[i] == b[0]
    decreases |b| - k
  {
    if k < |b| && k < 127 && b[k] == b[0] then RunFrom(b, k + 1) else k
  }

  /** Encodes one channel: a maximal run of two or more equal bytes becomes a
      run pair, any other byte a one-byte literal pair. */
  function EncodeChannel(b: seq<u8>): (e: seq<u8>)
    decreases |b|
  {
    if |b| == 0 then []
    else
      var n := RunLength(b);
      if n >= 2 then [RUN_FLAG + n, b[0]] + EncodeChannel(b[n..])
      else [1, b[0]] + EncodeChannel(b[1..])
  }

  /** A slice equal to `a + b` splits into a slice equal to `a` and one equal to `b`. */
  lemma SliceSplit<T>(src: seq<T>, pos: nat, a: seq<T>, b: seq<T>)
    requires pos + |a| + |b| <= |src| && src[pos .. pos + |a| + |b|] == a + b
    ensures src[pos .. pos + |a|] == a
    ensures src[pos + |a| .. pos + |a| + |b|] == b
  {
    assert src[pos .. pos + |a|] == (a + b)[..|a|];
    assert src[pos + |a| .. pos + |a| + |b|] == (a + b)[|a|..];
  }

  /** The same split, with the three positions named. */
  lemma SliceAt<T>(src: seq<T>, p: nat, q: nat, r: nat, a: seq<T>, b: seq<T>)
    requires q == p + |a| && r == q + |b| && r <= |src| && src[p .. r] == a + b
    ensures src[p .. q] == a && src[q .. r] == b
  {
    SliceSplit(src, p, a, b);
  }

  lemma SplitAt<T>(b: seq<T>, n: nat)
    requires n <= |b|
    ensures b[..n] + b[n..] == b
  {
  }

  /** A run pair `(128 + n, v)` in front of the decoding of the rest of a
      channel whose first `n` bytes all equal `v` decodes to the whole channel. */
  lemma RunPairDecodes(src: seq<u8>, pos: nat, b: seq<u8>, n: nat, rest: seq<u8>, next: nat)
    requires 1 <= n <= |b| && n <= 127 && forall i :: 0 <= i < n ==> b[i] == b[0]
    requires rest == b[n..]
    requires pos + 2 <= |src| && src[pos] == RUN_FLAG + n && src[pos + 1] == b[0]
    requires DecodeChannel(src, pos + 2, |rest|) == Ok(Chunk(rest, next))
    ensures DecodeChannel(src, pos, |b|) == Ok(Chunk(b, next))
  {
    assert Repeat(b[0], n) == b[..n];
    SplitAt(b, n);
  }

  /** A one-byte literal pair `(1, v)` in front of the decoding of the rest of a
      channel that starts with `v` decodes to the whole channel. */
  lemma LiteralPairDecodes(src: seq<u8>, pos: nat, b: seq<u8>, rest: seq<u8>, next: nat)
    requires 1 <= |b| && rest == b[1..]
    requires pos + 2 <= |src| && src[pos] == 1 && src[pos + 1] == b[0]
    requires DecodeChannel(src, pos + 2, |rest|) == Ok(Chunk(rest, next))
    ensures DecodeChannel(src, pos, |b|) == Ok(Chunk(b, next))
  {
    assert src[pos + 1 .. pos + 2] == [b[0]];
    assert [b[0]] + b[1..] == b;
  }

  /** The first two bytes of a slice. */
  lemma SliceHead2(src: seq<u8>, pos: nat, pair: seq<u8>)
    requires |pair| == 2 && pos + 2 <= |src| && src[pos .. pos + 2] == pair
    ensures src[pos] == pair[0] && src[pos + 1] == pair[1]
  {
    assert src[pos .. pos + 2][0] == src[pos] && src[pos .. pos + 2][1] == src[pos + 1];
  }

  /** How many bytes of a channel the encoder's first pair covers. */
  function FirstPairLength(b: seq<u8>): (k: nat)
    requires |b| > 0
    ensures 1 <= k <= |b|
  {
    if RunLength(b) >= 2 then RunLength(b) else 1
  }

  /** The encoder's first pair for a channel. */
  function FirstPair(b: seq<u8>): (pair: seq<u8>)
    requires |b| > 0
    ensures |pair| == 2
  {
    var n := RunLength(b);
    if n >= 2 then [RUN_FLAG + n, b[0]] else [1, b[0]]
  }

  lemma EncodeChannelStep(b: seq<u8>)
    requires |b| > 0
    ensures EncodeChannel(b) == FirstPair(b) + EncodeChannel(b[FirstPairLength(b)..])
  {
  }

  /** The first pair of an encoded channel, followed by a decodable rest,
      decodes to the whole channel. */
  lemma FirstPairDecodes(src: seq<u8>, pos: nat, b: seq<u8>, rest: seq<u8>, next: nat)
    requires |b| > 0 && rest == b[FirstPairLength(b)..]
    requires pos + 2 <= |src| && src[pos .. pos + 2] == FirstPair(b)
    requires next == pos + 2 + |EncodeChannel(rest)|
    requires DecodeChannel(src, pos + 2, |rest|) == Ok(Chunk(rest, next))
    ensures DecodeChannel(src, pos, |b|) == Ok(Chunk(b, pos + |EncodeChannel(b)|))
  {
    EncodeChannelStep(b);
    assert |EncodeChannel(b)| == 2 + |EncodeChannel(rest)|;
    SliceHead2(src, pos, FirstPair(b));
    var n := RunLength(b);
    if n >= 2 {
      RunPairDecodes(src, pos, b, n, rest, next);
    } else {
      LiteralPairDecodes(src, pos, b, rest, next);
    }
  }

  /** Decoding what EncodeChannel produced gives the channel back and stops
      right after the encoding, whatever follows it. */
  lemma {:induction false} ChannelRoundTrip(b: seq<u8>, src: seq<u8>, pos: nat)
    requires pos + |EncodeChannel(b)| <= |src|
    requires src[pos .. pos + |EncodeChannel(b)|] == EncodeChannel(b)
    ensures DecodeChannel(src, pos, |b|) == Ok(Chunk(b, pos + |EncodeChannel(b)|))
    decreases |b|
  {
    if |b| == 0 {
      assert EncodeChannel(b) == [];
    } else {
      var pair := FirstPair(b);
      var rest := b[FirstPairLength(b)..];
      var tail := EncodeChannel(rest);
      EncodeChannelStep(b);
      SliceSplit(src, pos, pair, tail);
      ChannelRoundTrip(rest, src, pos + 2);
      FirstPairDecodes(src, pos, b, rest, pos + 2 + |tail|);
    }
  }

  /** Channel `c` of a row of pixels, as the encoder stores it. */
  function Component(px: seq<Rgbe>, c: nat): (r: seq<u8>)
    requires c < 4
    ensures |r| == |px|
  {
    seq(|px|, i requires 0 <= i < |px| =>
      if c == 0 then px[i].r else if c == 1 then px[i].g else if c == 2 then px[i].b else px[i].e)
  }

  /** One run-length coded scanline: the mark with its width, then the channels. */
  function EncodeScanline(px: seq<Rgbe>): seq<u8>
    requires RleWidth(|px|)
  {
    ScanlineMark(|px|) + EncodeChannels(Component(px, 0), Component(px, 1), Component(px, 2), Component(px, 3))
  }

  /** The four bytes that open a run-length coded scanline of width `w`. */
  function ScanlineMark(w: nat): (hdr: seq<u8>)
    requires RleWidth(w)
    ensures |hdr| == 4 && IsRleHeader(hdr[0], hdr[1], hdr[2]) && HeaderWidth(hdr[2], hdr[3]) == w
  {
    [SCANLINE_MARK, SCANLINE_MARK, w / 0x100, w % 0x100]
  }

  /** The four channels of a scanline, encoded one after the other. */
  function EncodeChannels(c0: seq<u8>, c1: seq<u8>, c2: seq<u8>, c3: seq<u8>): seq<u8> {
    EncodeChannel(c0) + EncodeChannel(c1) + EncodeChannel(c2) + EncodeChannel(c3)
  }

  /** All scanlines of a picture `w` wide. */
  function EncodeScanlines(px: seq<Rgbe>, w: nat, rows: nat): seq<u8>
    requires RleWidth(w) && |px| == Pixels(w, rows)
    decreases rows
  {
    if rows == 0 then []
    else
      EncodeScanline(px[..w]) + EncodeScanlines(px[w..], w, rows - 1)
  }

  lemma PlanarOfComponents(px: seq<Rgbe>)
    ensures var w := |px|;
      Planar(Component(px, 0) + Component(px, 1) + Component(px, 2) + Component(px, 3), w) == px
  {
    var w := |px|;
    var buf := Component(px, 0) + Component(px, 1) + Component(px, 2) + Component(px, 3);
    forall i | 0 <= i < w ensures Planar(buf, w)[i] == px[i] {
      assert buf[i] == px[i].r && buf[i + w] == px[i].g;
      assert buf[i + 2 * w] == px[i].b && buf[i + 3 * w] == px[i].e;
    }
  }

  /** Four channels that each decode in turn make one four-channel decoding. */
  lemma FourChannels(src: seq<u8>, w: nat, c0: seq<u8>, c1: seq<u8>, c2: seq<u8>, c3: seq<u8>,
                     p0: nat, p1: nat, p2: nat, p3: nat, p4: nat)
    requires DecodeChannel(src, p0, w) == Ok(Chunk(c0, p1))
    requires DecodeChannel(src, p1, w) == Ok(Chunk(c1, p2))
    requires DecodeChannel(src, p2, w) == Ok(Chunk(c2, p3))
    requires DecodeChannel(src, p3, w) == Ok(Chunk(c3, p4))
    ensures DecodeChannels(src, p0, w, 4) == Ok(Chunk(c0 + c1 + c2 + c3, p4))
  {
    var c23, c123 := c2 + c3, c1 + (c2 + c3);
    Regroup(c0, c1, c2, c3);
    ChannelsStep(src, p3, w, 1, c3, p4, [], p4);
    ChannelsStep(src, p2, w, 2, c2, p3, c3, p4);
    ChannelsStep(src, p1, w, 3, c1, p2, c23, p4);
    ChannelsStep(src, p0, w, 4, c0, p1, c123, p4);
  }

  lemma Regroup(c0: seq<u8>, c1: seq<u8>, c2: seq<u8>, c3: seq<u8>)
    ensures c3 + [] == c3 && c0 + (c1 + (c2 + c3)) == c0 + c1 + c2 + c3
  {
  }

  /** A channel that decodes, followed by `k - 1` more that do, makes `k`. */
  lemma ChannelsStep(src: seq<u8>, pos: nat, w: nat, k: nat, c: seq<u8>, next: nat, rest: seq<u8>, q: nat)
    requires k > 0 && DecodeChannel(src, pos, w) == Ok(Chunk(c, next))
    requires DecodeChannels(src, next, w, k - 1) == Ok(Chunk(rest, q))
    ensures DecodeChannels(src, pos, w, k) == Ok(Chunk(c + rest, q))
  {
  }

  /** The first four bytes of a slice. */
  lemma SliceHead4(src: seq<u8>, pos: nat, hdr: seq<u8>)
    requires |hdr| == 4 && pos + 4 <= |src| && src[pos .. pos + 4] == hdr
    ensures src[pos] == hdr[0] && src[pos + 1] == hdr[1] && src[pos + 2] == hdr[2] && src[pos + 3] == hdr[3]
  {
    var h := src[pos .. pos + 4];
    assert h[0] == src[pos] && h[1] == src[pos + 1] && h[2] == src[pos + 2] && h[3] == src[pos + 3];
  }

  /** A slice holding one channel's encoding decodes to that channel. */
  lemma ChannelAt(c: seq<u8>, w: nat, src: seq<u8>, p: nat, q: nat)
    requires |c| == w && q == p + |EncodeChannel(c)| <= |src|
    requires src[p .. q] == EncodeChannel(c)
    ensures DecodeChannel(src, p, w) == Ok(Chunk(c, q))
  {
    ChannelRoundTrip(c, src, p);
  }

  /** The four parts of a slice that holds four sequences in a row. */
  lemma SliceFour<T>(src: seq<T>, p0: nat, p1: nat, p2: nat, p3: nat, p4: nat, e0: seq<T>, e1: seq<T>, e2: seq<T>, e3: seq<T>)
    requires p1 == p0 + |e0| && p2 == p1 + |e1| && p3 == p2 + |e2| && p4 == p3 + |e3| <= |src|
    requires src[p0 .. p4] == e0 + e1 + e2 + e3
    ensures src[p0 .. p1] == e0 && src[p1 .. p2] == e1 && src[p2 .. p3] == e2 && src[p3 .. p4] == e3
  {
    SliceAt(src, p0, p3, p4, e0 + e1 + e2, e3);
    SliceAt(src, p0, p2, p3, e0 + e1, e2);
    SliceAt(src, p0, p1, p2, e0, e1);
  }

  /** Four encoded channels in a row decode to the four channels, stopping right after them. */
  lemma ChannelsRoundTrip(c0: seq<u8>, c1: seq<u8>, c2: seq<u8>, c3: seq<u8>, w: nat, src: seq<u8>, p0: nat)
    requires |c0| == w && |c1| == w && |c2| == w && |c3| == w
    requires p0 + |EncodeChannels(c0, c1, c2, c3)| <= |src|
    requires src[p0 .. p0 + |EncodeChannels(c0, c1, c2, c3)|] == EncodeChannels(c0, c1, c2, c3)
    ensures DecodeChannels(src, p0, w, 4) == Ok(Chunk(c0 + c1 + c2 + c3, p0 + |EncodeChannels(c0, c1, c2, c3)|))
  {
    var e0, e1, e2, e3 := EncodeChannel(c0), EncodeChannel(c1), EncodeChannel(c2), EncodeChannel(c3);
    var p1 := p0 + |e0|;
    var p2 := p1 + |e1|;
    var p3 := p2 + |e2|;
    var p4 := p3 + |e3|;
    SliceFour(src, p0, p1, p2, p3, p4, e0, e1, e2, e3);
    FourChannelsAt(src, w, c0, c1, c2, c3, p0, p1, p2, p3, p4);
  }

  /** Four channels encoded one after the other at `p0` decode to the four. */
  lemma FourChannelsAt(src: seq<u8>, w: nat, c0: seq<u8>, c1: seq<u8>, c2: seq<u8>, c3: seq<u8>,
                       p0: nat, p1: nat, p2: nat, p3: nat, p4: nat)
    requires |c0| == w && |c1| == w && |c2| == w && |c3| == w
    requires p1 == p0 + |EncodeChannel(c0)| && p2 == p1 + |EncodeChannel(c1)|
    requires p3 == p2 + |EncodeChannel(c2)| && p4 == p3 + |EncodeChannel(c3)| <= |src|
    requires src[p0 .. p1] == EncodeChannel(c0) && src[p1 .. p2] == EncodeChannel(c1)
    requires src[p2 .. p3] == EncodeChannel(c2) && src[p3 .. p4] == EncodeChannel(c3)
    ensures DecodeChannels(src, p0, w, 4) == Ok(Chunk(c0 + c1 + c2 + c3, p4))
  {
    ChannelAt(c0, w, src, p0, p1);
    ChannelAt(c1, w, src, p1, p2);
    ChannelAt(c2, w, src, p2, p3);
    ChannelAt(c3, w, src, p3, p4);
    FourChannels(src, w, c0, c1, c2, c3, p0, p1, p2, p3, p4);
  }

  /** Decoding one encoded scanline yields its pixels and stops right after it. */
  lemma ScanlineRoundTrip(px: seq<Rgbe>, src: seq<u8>, pos: nat)
    requires RleWidth(|px|)
    requires pos + |EncodeScanline(px)| <= |src|
    requires src[pos .. pos + |EncodeScanline(px)|] == EncodeScanline(px)
    ensures pos + 4 <= |src|
    ensures var w := |px|;
      && IsRleHeader(src[pos], src[pos + 1], src[pos + 2])
      && HeaderWidth(src[pos + 2], src[pos + 3]) == w
      && DecodeChannels(src, pos + 4, w, 4).Ok?
      && Planar(DecodeChannels(src, pos + 4, w, 4).value.bytes, w) == px
      && DecodeChannels(src, pos + 4, w, 4).value.next == pos + |EncodeScanline(px)|
  {
    var w := |px|;
    var c0, c1, c2, c3 := Component(px, 0), Component(px, 1), Component(px, 2), Component(px, 3);
    var hdr := ScanlineMark(w);
    var body := EncodeChannels(c0, c1, c2, c3);
    SliceSplit(src, pos, hdr, body);
    SliceHead4(src, pos, hdr);
    ChannelsRoundTrip(c0, c1, c2, c3, w, src, pos + 4);
    PlanarOfComponents(px);
  }

  /** A run-length scanline of the right width followed by decodable scanlines. */
  lemma ScanlineStep(src: seq<u8>, pos: nat, next: nat, w: nat, rem: nat, line: seq<Rgbe>, rest: seq<Rgbe>)
    requires rem > 0 && pos + 4 <= |src|
    requires IsRleHeader(src[pos], src[pos + 1], src[pos + 2]) && HeaderWidth(src[pos + 2], src[pos + 3]) == w
    requires DecodeChannels(src, pos + 4, w, 4).Ok?
    requires Planar(DecodeChannels(src, pos + 4, w, 4).value.bytes, w) == line
    requires DecodeChannels(src, pos + 4, w, 4).value.next == next
    requires DecodeScanlines(src, next, w, rem - 1) == Ok(rest)
    ensures DecodeScanlines(src, pos, w, rem) == Ok(line + rest)
  {
  }

  /** An encoded scanline in front of scanlines that decode to `tail`. */
  lemma PictureStep(src: seq<u8>, pos: nat, next: nat, w: nat, rem: nat, line: seq<Rgbe>, tail: seq<Rgbe>)
    requires RleWidth(w) && |line| == w && rem > 0
    requires next == pos + |EncodeScanline(line)| <= |src|
    requires src[pos .. next] == EncodeScanline(line)
    requires DecodeScanlines(src, next, w, rem - 1) == Ok(tail)
    ensures DecodeScanlines(src, pos, w, rem) == Ok(line + tail)
  {
    ScanlineRoundTrip(line, src, pos);
    ScanlineStep(src, pos, next, w, rem, line, tail);
  }

  /** An encoded picture is its first scanline's encoding followed by the
      encoding of the other scanlines. */
  lemma PictureSplit(px: seq<Rgbe>, w: nat, rem: nat, line: seq<Rgbe>, rest: seq<Rgbe>)
    requires RleWidth(w) && rem > 0 && |px| == Pixels(w, rem) && w <= |px|
    requires line == px[..w] && rest == px[w..] && |rest| == Pixels(w, rem - 1)
    ensures EncodeScanlines(px, w, rem) == EncodeScanline(line) + EncodeScanlines(rest, w, rem - 1)
  {
  }

  /** Decoding an encoded picture of any run-length width returns its pixels. */
  lemma {:induction false} PictureRoundTrip(px: seq<Rgbe>, w: nat, rem: nat, src: seq<u8>, pos: nat)
    requires RleWidth(w) && |px| == Pixels(w, rem)
    requires pos + |EncodeScanlines(px, w, rem)| <= |src|
    requires src[pos .. pos + |EncodeScanlines(px, w, rem)|] == EncodeScanlines(px, w, rem)
    ensures DecodeScanlines(src, pos, w, rem) == Ok(px)
    decreases rem, 1
  {
    if rem == 0 {
      assert px == [];
    } else {
      assert Pixels(w, rem) == w + Pixels(w, rem - 1);
      var line, rest := px[..w], px[w..];
      var next := pos + |EncodeScanline(line)|;
      var el, er := EncodeScanline(line), EncodeScanlines(rest, w, rem - 1);
      PictureSplit(px, w, rem, line, rest);
      SliceAt(src, pos, next, next + |er|, el, er);
      PictureInduct(src, pos, next, w, rem, line, rest);
      SplitAt(px, w);
    }
  }

  /** The induction step of `PictureRoundTrip`: the first scanline's
      encoding at `pos`, the other scanlines' encoding at `next`. */
  lemma {:induction false} PictureInduct(src: seq<u8>, pos: nat, next: nat, w: nat, rem: nat,
                                         line: seq<Rgbe>, rest: seq<Rgbe>)
    requires RleWidth(w) && |line| == w && rem > 0 && |rest| == Pixels(w, rem - 1)
    requires next == pos + |EncodeScanline(line)| <= |src|
    requires src[pos .. next] == EncodeScanline(line)
    requires next + |EncodeScanlines(rest, w, rem - 1)| <= |src|
    requires src[next .. next + |EncodeScanlines(rest, w, rem - 1)|] == EncodeScanlines(rest, w, rem - 1)
    ensures DecodeScanlines(src, pos, w, rem) == Ok(line + rest)
    decreases rem, 0
  {
    PictureRoundTrip(rest, w, rem - 1, src, next);
    PictureStep(src, pos, next, w, rem, line, rest);
  }

  /** The encoded picture decodes to its pixels from the start of the pixel section. */
  lemma EncodedPictureDecodes(px: seq<Rgbe>, w: nat, h: nat)
    requires RleWidth(w) && |px| == Pixels(w, h)
    ensures DecodePixels(EncodeScanlines(px, w, h), 0, w, h) == Ok(px)
  {
    var e := EncodeScanlines(px, w, h);
    assert e[0 .. |e|] == e;
    PictureRoundTrip(px, w, h, e, 0);
  }

  // ---------------------------------------------------------------------------
  // The flat fallback as the loader writes it

  /** The picture buffer after the loader's flat fallback at a scanline that is
      not run-length coded: `flat` is stored from the first pixel on, pixels
      decoded earlier and not overwritten keep their value, and pixels neither
      decoded nor overwritten are never written (`None`). */
  function Overlay(flat: seq<Rgbe>, done: seq<Rgbe>, n: nat): (r: seq<Option<Rgbe>>)
    ensures |r| == n
  {
    seq(n, p requires 0 <= p < n => if p < |flat| then Some(flat[p]) else if p < |done| then Some(done[p]) else None)
  }

  function AllSome(px: seq<Rgbe>): (r: seq<Option<Rgbe>>)
    ensures |r| == |px|
  {
    seq(|px|, p requires 0 <= p < |px| => Some(px[p]))
  }

  /** The scanline loop as written: `start` is where the pixel section begins
      and `done` the pixels of the scanlines decoded so far. A scanline without
      the run-length mark makes the loader read `w * rem` flat quads from
      `start` (not from the current scanline) into the buffer from pixel 0. */
  function ScanlinesAsWritten(src: seq<u8>, start: nat, pos: nat, w: nat, rem: nat, done: seq<Rgbe>)
    : (r: Result<seq<Option<Rgbe>>, HdrError>)
    ensures r.Ok? ==> |r.value| == |done| + Pixels(w, rem)
    decreases rem
  {
    if rem == 0 then Ok(AllSome(done))
    else if pos + 4 > |src| then Err(Truncated)
    else if !IsRleHeader(src[pos], src[pos + 1], src[pos + 2]) then
      match FlatPixels(src, start, Pixels(w, rem))
      case Err(e) => Err(e)
      case Ok(flat) => Ok(Overlay(flat, done, |done| + Pixels(w, rem)))
    else if HeaderWidth(src[pos + 2], src[pos + 3]) != w then Err(WidthMismatch)
    else
      match DecodeChannels(src, pos + 4, w, 4)
      case Err(e) => Err(e)
      case Ok(c) =>
        ScanlineLength(src, pos + 4, w);
        ScanlinesAsWritten(src, start, c.next, w, rem - 1, done + Planar(c.bytes, w))
  }

  /** The whole pixel section as the loader fills the texture. */
  function DecodePixelsAsWritten(src: seq<u8>, pos: nat, w: nat, h: nat): (r: Result<seq<Option<Rgbe>>, HdrError>)
    ensures r.Ok? ==> |r.value| == Pixels(w, h)
  {
    PixelsIsProduct(w, h);
    if !RleWidth(w) then
      match FlatPixels(src, pos, w * h)
      case Err(e) => Err(e)
      case Ok(px) => Ok(AllSome(px))
    else ScanlinesAsWritten(src, pos, pos, w, h, [])
  }

  /** An 8 by 2 picture: the first scanline run-length coded (every channel
      one run of eight 1s), the second stored as eight flat quads of 0s. */
  function MixedPicture(): (src: seq<u8>)
    ensures |src| == 44
  {
    [2, 2, 0, 8, 136, 1, 136, 1, 136, 1, 136, 1] + seq(32, _ => 0)
  }

  /** A channel of `n` equal bytes stored as one run pair. */
  lemma SingleRun(src: seq<u8>, pos: nat, v: u8, n: nat)
    requires 1 <= n <= 127 && pos + 2 <= |src| && src[pos] == RUN_FLAG + n && src[pos + 1] == v
    ensures DecodeChannel(src, pos, n) == Ok(Chunk(Repeat(v, n), pos + 2))
  {
    assert DecodeChannel(src, pos + 2, 0) == Ok(Chunk([], pos + 2));
    assert Repeat(v, n) + [] == Repeat(v, n);
  }

  /** With the loader's fallback, the 8 by 2 mixed picture comes out with its
      header bytes as pixel 0 and pixels 8 to 15 never written. */
  lemma MixedPictureAsWritten()
    ensures var r := DecodePixelsAsWritten(MixedPicture(), 0, 8, 2);
      r.Ok? && |r.value| == 16 && r.value[0] == Some(Rgbe(2, 2, 0, 8)) && r.value[8] == None
  {
    var src := MixedPicture();
    var run: seq<u8> := Repeat(1, 8);
    SingleRun(src, 4, 1, 8);
    SingleRun(src, 6, 1, 8);
    SingleRun(src, 8, 1, 8);
    SingleRun(src, 10, 1, 8);
    FourChannels(src, 8, run, run, run, run, 4, 6, 8, 10, 12);
    var line := Planar(run + run + run + run, 8);
    assert !IsRleHeader(src[12], src[13], src[14]);
    var flat := FlatPixels(src, 0, 8).value;
    assert flat[0] == Rgbe(src[0], src[1], src[2], src[3]);
    var r := Overlay(flat, line, 16);
    assert r[0] == Some(flat[0]) && r[8] == None;
    assert ScanlinesAsWritten(src, 0, 12, 8, 1, line) == Ok(r);
    assert ScanlinesAsWritten(src, 0, 0, 8, 2, []) == ScanlinesAsWritten(src, 0, 12, 8, 1, [] + line);
    assert [] + line == line;
  }

  /** Decoded by the corrected fallback, the mixed picture is its first
      scanline's eight `(1, 1, 1, 1)` pixels followed by eight zero quads. */
  lemma MixedPictureDecodes()
    ensures DecodePixels(MixedPicture(), 0, 8, 2)
      == Ok(seq(8, _ => Rgbe(1, 1, 1, 1)) + seq(8, _ => Rgbe(0, 0, 0, 0)))
  {
    var src := MixedPicture();
    var run: seq<u8> := Repeat(1, 8);
    SingleRun(src, 4, 1, 8);
    SingleRun(src, 6, 1, 8);
    SingleRun(src, 8, 1, 8);
    SingleRun(src, 10, 1, 8);
    FourChannels(src, 8, run, run, run, run, 4, 6, 8, 10, 12);
    var line := Planar(run + run + run + run, 8);
    assert line == seq(8, _ => Rgbe(1, 1, 1, 1));
    assert !IsRleHeader(src[12], src[13], src[14]);
    var flat := FlatPixels(src, 12, 8).value;
    assert flat == seq(8, _ => Rgbe(0, 0, 0, 0));
    assert DecodeScanlines(src, 12, 8, 1) == Ok(flat);
  }
}
