/** The loops of the Radiance pixel reader: a scanline buffer filled channel
    by channel through moving source and buffer positions, the conversion of
    the buffer into pixels, and the flat reader. Every method is proved to
    compute what the functions of HdrRle define. */
module HdrReader {
  import opened Machine
  import opened HdrRle

  /** Writes `n` copies of `v` from `buf[at]` on, one byte per step, as the
      run branch's write loop does. */
  method FillRun(buf: array<u8>, at: nat, n: nat, v: u8)
    requires at + n <= buf.Length
    modifies buf
    ensures buf[..at] == old(buf[..at]) && buf[at + n..] == old(buf[at + n..])
    ensures buf[at .. at + n] == Repeat(v, n)
  {
    var k := 0;
    while k < n
      invariant 0 <= k <= n
      invariant buf[..at] == old(buf[..at]) && buf[at + n..] == old(buf[at + n..])
      invariant forall i :: at <= i < at + k ==> buf[i] == v
    {
      buf[at + k] := v;
      k := k + 1;
    }
    ghost var got := buf[at .. at + n];
    assert forall i :: 0 <= i < n ==> got[i] == Repeat(v, n)[i];
  }

  /** Copies `src[from .. from + n]` to `buf[at .. at + n]` (the `memcpy` of a literal). */
  method CopyBytes(src: seq<u8>, from: nat, buf: array<u8>, at: nat, n: nat)
    requires from + n <= |src| && at + n <= buf.Length
    modifies buf
    ensures buf[..at] == old(buf[..at]) && buf[at + n..] == old(buf[at + n..])
    ensures buf[at .. at + n] == src[from .. from + n]
  {
    var k := 0;
    while k < n
      invariant 0 <= k <= n
      invariant buf[..at] == old(buf[..at]) && buf[at + n..] == old(buf[at + n..])
      invariant forall i :: at <= i < at + k ==> buf[i] == src[from + (i - at)]
    {
      buf[at + k] := src[from + k];
      k := k + 1;
    }
    ghost var got := buf[at .. at + n];
    ghost var want := src[from .. from + n];
    forall i | 0 <= i < n
      ensures got[i] == want[i]
    {
      assert buf[at + i] == src[from + ((at + i) - at)];
    }
    assert got == want;
  }

  /** The literal's value byte followed by the bytes copied behind it are the
      `count` bytes that follow the count byte. */
  lemma LiteralWritten(src: seq<u8>, p: nat, after: seq<u8>, ptr: nat, count: nat)
    requires 0 < count && p + 1 + count <= |src| && ptr + count <= |after|
    requires after[ptr] == src[p + 1] && after[ptr + 1 .. ptr + count] == src[p + 2 .. p + 1 + count]
    ensures after[ptr .. ptr + count] == src[p + 1 .. p + 1 + count]
  {
    assert after[ptr .. ptr + count] == [after[ptr]] + after[ptr + 1 .. ptr + count];
    assert src[p + 1 .. p + 1 + count] == [src[p + 1]] + src[p + 2 .. p + 1 + count];
  }

  /** A literal pair of `count` bytes copied to `after[ptr..]` is the first
      part of the channel decoded there. */
  lemma LiteralRead(src: seq<u8>, p: nat, after: seq<u8>, ptr: nat, count: nat, end: nat)
    requires p + 2 <= |src| && src[p] <= RUN_FLAG && count == src[p] as nat
    requires 0 < count <= end - ptr && p + 1 + count <= |src| && ptr < end <= |after|
    requires after[ptr .. ptr + count] == src[p + 1 .. p + 1 + count]
    ensures DecodeChannel(src, p, end - ptr)
         == Prepend(after[ptr .. ptr + count], DecodeChannel(src, p + 1 + count, end - (ptr + count)))
  {
    LiteralPair(src, p, end - ptr);
    assert src[p + 1 .. p + 1 + count] == [src[p + 1]] + src[p + 2 .. p + 1 + count];
    assert end - (ptr + count) == (end - ptr) - count;
  }

  /** Writing `v` at `ptr` and then copying behind it up to `k` leaves the
      buffer before `ptr` and from `end` on as it was. */
  lemma WriteThenCopy(b0: seq<u8>, b1: seq<u8>, b2: seq<u8>, ptr: nat, k: nat, end: nat, v: u8)
    requires ptr < k <= end <= |b0| == |b2| && b1 == b0[ptr := v]
    requires b2[..ptr + 1] == b1[..ptr + 1] && b2[k..] == b1[k..]
    ensures b2[..ptr] == b0[..ptr] && b2[end..] == b0[end..]
  {
    assert b2[..ptr] == b2[..ptr + 1][..ptr];
    assert b2[end..] == b2[k..][end - k..];
    assert b1[end..] == b1[k..][end - k..];
  }

  /** Decodes one run / literal pair at `src[p..]` into `buf[ptr..]` (the body
      of the loader's `while (ptr < ptr_end)`), returning the source position
      after the pair and the buffer position after the bytes it wrote. */
  method ReadPair(src: seq<u8>, p: nat, buf: array<u8>, ptr: nat, end: nat) returns (r: Result<nat, HdrError>, ptr2: nat)
    requires ptr < end <= buf.Length
    modifies buf
    ensures buf[..ptr] == old(buf[..ptr]) && buf[end..] == old(buf[end..])
    ensures r.Ok? ==>
              && ptr < ptr2 <= end
              && DecodeChannel(src, p, end - ptr) == Prepend(buf[ptr .. ptr2], DecodeChannel(src, r.value, end - ptr2))
    ensures r.Err? ==> DecodeChannel(src, p, end - ptr) == Err(r.error)
  {
    if p + 2 > |src| {
      return Err(Truncated), ptr;
    }
    if src[p] > RUN_FLAG {
      r, ptr2 := ReadRun(src, p, buf, ptr, end);
    } else {
      r, ptr2 := ReadLiteral(src, p, buf, ptr, end);
    }
  }

  /** A run pair `(128 + count, v)`: `count` copies of `v`. */
  method ReadRun(src: seq<u8>, p: nat, buf: array<u8>, ptr: nat, end: nat) returns (r: Result<nat, HdrError>, ptr2: nat)
    requires ptr < end <= buf.Length && p + 2 <= |src| && src[p] > RUN_FLAG
    modifies buf
    ensures buf[..ptr] == old(buf[..ptr]) && buf[end..] == old(buf[end..])
    ensures r.Ok? ==>
              && ptr < ptr2 <= end
              && DecodeChannel(src, p, end - ptr) == Prepend(buf[ptr .. ptr2], DecodeChannel(src, r.value, end - ptr2))
    ensures r.Err? ==> DecodeChannel(src, p, end - ptr) == Err(r.error)
  {
    var need := end - ptr;
    var count := src[p] - RUN_FLAG;
    RunPair(src, p, need);
    if count == 0 || count > need {
      return Err(BadRunCount), ptr;
    }
    FillRun(buf, ptr, count, src[p + 1]);
    assert end - (ptr + count) == need - count;
    r, ptr2 := Ok(p + 2), ptr + count;
  }

  /** A literal pair `(count, v)`: the value byte, then `count - 1` bytes
      copied verbatim from behind it. */
  method ReadLiteral(src: seq<u8>, p: nat, buf: array<u8>, ptr: nat, end: nat) returns (r: Result<nat, HdrError>, ptr2: nat)
    requires ptr < end <= buf.Length && p + 2 <= |src| && src[p] <= RUN_FLAG
    modifies buf
    ensures buf[..ptr] == old(buf[..ptr]) && buf[end..] == old(buf[end..])
    ensures r.Ok? ==>
              && ptr < ptr2 <= end
              && DecodeChannel(src, p, end - ptr) == Prepend(buf[ptr .. ptr2], DecodeChannel(src, r.value, end - ptr2))
    ensures r.Err? ==> DecodeChannel(src, p, end - ptr) == Err(r.error)
  {
    var need := end - ptr;
    var count := src[p];
    if count == 0 || count > need {
      LiteralPair(src, p, need);
      return Err(BadLiteralCount), ptr;
    }
    if p + 1 + count > |src| {
      LiteralPair(src, p, need);
      return Err(Truncated), ptr;
    }
    CopyLiteral(src, p, buf, ptr, count, end);
    LiteralRead(src, p, buf[..], ptr, count, end);
    r, ptr2 := Ok(p + 1 + count), ptr + count;
  }

  /** The writes of a literal pair: the value byte at `ptr`, then the
      `count - 1` bytes behind the pair. */
  method CopyLiteral(src: seq<u8>, p: nat, buf: array<u8>, ptr: nat, count: nat, end: nat)
    requires 0 < count && p + 1 + count <= |src| && ptr + count <= end <= buf.Length
    modifies buf
    ensures buf[..ptr] == old(buf[..ptr]) && buf[end..] == old(buf[end..])
    ensures buf[ptr .. ptr + count] == src[p + 1 .. p + 1 + count]
  {
    buf[ptr] := src[p + 1];
    ghost var b1 := buf[..];
    if count - 1 > 0 {
      CopyBytes(src, p + 2, buf, ptr + 1, count - 1);
    }
    WriteThenCopy(old(buf[..]), b1, buf[..], ptr, ptr + count, end, src[p + 1]);
    LiteralWritten(src, p, buf[..], ptr, count);
  }

  /** The channel loop's invariant survives one more pair. */
  lemma PairKeeps(total: Result<Chunk, HdrError>, before: seq<u8>, after: seq<u8>, start: nat, ptr: nat, ptr2: nat,
                  d: Result<Chunk, HdrError>, d2: Result<Chunk, HdrError>)
    requires start <= ptr <= ptr2 <= |before| == |after|
    requires after[..ptr] == before[..ptr]
    requires total == Prepend(before[start .. ptr], d)
    requires d == Prepend(after[ptr .. ptr2], d2)
    ensures total == Prepend(after[start .. ptr2], d2)
  {
    assert after[start .. ptr2] == before[start .. ptr] + after[ptr .. ptr2] by {
      assert after[start .. ptr2] == after[start .. ptr] + after[ptr .. ptr2];
      assert after[start .. ptr] == after[..ptr][start..];
      assert before[start .. ptr] == before[..ptr][start..];
    }
    PrependAssoc(before[start .. ptr], after[ptr .. ptr2], d2);
  }

  /** Fills `buf[start .. end]` with one channel decoded from the pairs at
      `src[pos..]`, leaving the rest of the buffer alone, and returns the
      position after the last pair consumed. */
  method ReadChannel(src: seq<u8>, pos: nat, buf: array<u8>, start: nat, end: nat) returns (r: Result<nat, HdrError>)
    requires start <= end <= buf.Length
    modifies buf
    ensures buf[..start] == old(buf[..start]) && buf[end..] == old(buf[end..])
    ensures DecodeChannel(src, pos, end - start).Ok? ==>
      r == Ok(DecodeChannel(src, pos, end - start).value.next)
      && buf[start .. end] == DecodeChannel(src, pos, end - start).value.bytes
    ensures DecodeChannel(src, pos, end - start).Err? ==> r == Err(DecodeChannel(src, pos, end - start).error)
  {
    var p: nat := pos;
    var ptr: nat := start;
    PrependEmpty(DecodeChannel(src, pos, end - start));
    assert buf[start .. ptr] == [];
    while ptr < end
      invariant start <= ptr <= end
      invariant buf[..start] == old(buf[..start]) && buf[end..] == old(buf[end..])
      invariant DecodeChannel(src, pos, end - start) == Prepend(buf[start .. ptr], DecodeChannel(src, p, end - ptr))
      decreases end - ptr
    {
      ghost var before := buf[..];
      var res, ptr2 := ReadPair(src, p, buf, ptr, end);
      if res.Err? {
        return Err(res.error);
      }
      PairKeeps(DecodeChannel(src, pos, end - start), before, buf[..], start, ptr, ptr2,
        DecodeChannel(src, p, end - ptr), DecodeChannel(src, res.value, end - ptr2));
      p, ptr := res.value, ptr2;
    }
    assert buf[start .. end] + [] == buf[start .. end];
    return Ok(p);
  }

  /** The scanline loop's invariant survives one more channel. */
  lemma ChannelKeeps(total: Result<Chunk, HdrError>, before: seq<u8>, after: seq<u8>, base: nat, w: nat,
                     src: seq<u8>, p: nat, k: nat, next: nat)
    requires k > 0 && base + w <= |before| == |after|
    requires after[..base] == before[..base]
    requires total == Prepend(before[..base], DecodeChannels(src, p, w, k))
    requires DecodeChannel(src, p, w).Ok?
    requires after[base .. base + w] == DecodeChannel(src, p, w).value.bytes
    requires next == DecodeChannel(src, p, w).value.next
    ensures total == Prepend(after[..base + w], DecodeChannels(src, next, w, k - 1))
  {
    var bytes := DecodeChannel(src, p, w).value.bytes;
    assert after[..base + w] == before[..base] + bytes by {
      assert after[..base + w] == after[..base] + after[base .. base + w];
    }
    PrependAssoc(before[..base], bytes, DecodeChannels(src, next, w, k - 1));
  }

  /** One pass of the loader's channel loop: the channel that starts at
      `buf[base]` is filled from the pairs at `src[p..]`. */
  method ReadNextChannel(src: seq<u8>, p: nat, buf: array<u8>, base: nat, w: nat, k: nat,
                         ghost total: Result<Chunk, HdrError>)
    returns (r: Result<nat, HdrError>)
    requires k > 0 && base + Pixels(w, k) == buf.Length
    requires total == Prepend(buf[..base], DecodeChannels(src, p, w, k))
    modifies buf
    ensures base + w + Pixels(w, k - 1) == buf.Length
    ensures r.Err? ==> total == Err(r.error)
    ensures r.Ok? ==> total == Prepend(buf[..base + w], DecodeChannels(src, r.value, w, k - 1))
  {
    ghost var before := buf[..];
    r := ReadChannel(src, p, buf, base, base + w);
    if r.Ok? {
      ChannelKeeps(total, before, buf[..], base, w, src, p, k, r.value);
    }
  }

  /** Fills the scanline buffer with its four channels, `w` bytes each, one
      after the other (the loader counts the four channels up; here the
      loop counts the channels left), and returns the position after the last pair. */
  method ReadScanline(src: seq<u8>, pos: nat, buf: array<u8>, w: nat) returns (r: Result<nat, HdrError>)
    requires buf.Length == 4 * w
    modifies buf
    ensures DecodeChannels(src, pos, w, 4).Ok? ==>
              && r == Ok(DecodeChannels(src, pos, w, 4).value.next)
              && buf[..] == DecodeChannels(src, pos, w, 4).value.bytes
    ensures DecodeChannels(src, pos, w, 4).Err? ==> r == Err(DecodeChannels(src, pos, w, 4).error)
  {
    var p: nat := pos;
    var base: nat := 0;
    var k: nat := 4;
    ghost var total := DecodeChannels(src, pos, w, 4);
    PixelsIsProduct(w, 4);
    PrependEmpty(total);
    assert buf[..base] == [];
    while k > 0
      invariant base + Pixels(w, k) == buf.Length
      invariant total == Prepend(buf[..base], DecodeChannels(src, p, w, k))
    {
      var res := ReadNextChannel(src, p, buf, base, w, k, total);
      if res.Err? {
        return Err(res.error);
      }
      p, base, k := res.value, base + w, k - 1;
    }
    ChannelsDone(total, buf[..], base, src, p, w);
    return Ok(p);
  }

  /** When no channel is left the whole buffer holds the decoded channels. */
  lemma ChannelsDone(total: Result<Chunk, HdrError>, filled: seq<u8>, base: nat, src: seq<u8>, p: nat, w: nat)
    requires base == |filled|
    requires total == Prepend(filled[..base], DecodeChannels(src, p, w, 0))
    ensures total == Ok(Chunk(filled, p))
  {
    assert filled[..base] + [] == filled;
  }

  /** Turns the planar scanline buffer into `w` pixels stored from `out[base]` on. */
  method ConvertScanline(line: seq<u8>, w: nat, out: array<Rgbe>, base: nat)
    requires |line| == 4 * w && base + w <= out.Length
    modifies out
    ensures out[..base] == old(out[..base]) && out[base + w..] == old(out[base + w..])
    ensures out[base .. base + w] == Planar(line, w)
  {
    var i := 0;
    while i < w
      invariant i <= w
      invariant out[..base] == old(out[..base]) && out[base + w..] == old(out[base + w..])
      invariant forall j :: 0 <= j < i ==> out[base + j] == Quad(line, w, j)
    {
      out[base + i] := Quad(line, w, i);
      i := i + 1;
    }
    QuadsArePlanar(line, w, out[base .. base + w]);
  }

  /** Pixel `i` of a planar scanline. */
  function Quad(line: seq<u8>, w: nat, i: nat): Rgbe
    requires |line| == 4 * w && i < w
  {
    Rgbe(line[i], line[i + w], line[i + 2 * w], line[i + 3 * w])
  }

  /** Pixels that are the scanline's quads, in order, are its planar reading. */
  lemma QuadsArePlanar(line: seq<u8>, w: nat, px: seq<Rgbe>)
    requires |line| == 4 * w && |px| == w
    requires forall j :: 0 <= j < w ==> px[j] == Quad(line, w, j)
    ensures px == Planar(line, w)
  {
  }

  /** Reads `n` flat 4-byte quads from `src[p..]` into `out[base..]` (the
      loader's ReadHDRPixels). The loader does not look at the input's length;
      here input that ends early gives `false`. */
  method ReadFlatPixels(src: seq<u8>, p: nat, n: nat, out: array<Rgbe>, base: nat) returns (ok: bool)
    requires base + n <= out.Length
    modifies out
    ensures out[..base] == old(out[..base]) && out[base + n..] == old(out[base + n..])
    ensures ok == FlatPixels(src, p, n).Ok?
    ensures ok ==> out[base .. base + n] == FlatPixels(src, p, n).value
  {
    if p + 4 * n > |src| {
      return false;
    }
    var i := 0;
    var q := p;
    while i < n
      invariant i <= n && q == p + 4 * i
      invariant out[..base] == old(out[..base]) && out[base + n..] == old(out[base + n..])
      invariant forall j :: base <= j < base + i ==> out[j] == FlatPixels(src, p, n).value[j - base]
    {
      out[base + i] := Rgbe(src[q], src[q + 1], src[q + 2], src[q + 3]);
      i, q := i + 1, q + 4;
    }
    return true;
  }

  /** One run-length scanline more keeps the picture loop's invariant. */
  lemma ScanlineKeeps(total: Result<seq<Rgbe>, HdrError>, before: seq<Rgbe>, after: seq<Rgbe>, done: nat,
                      src: seq<u8>, p: nat, w: nat, rem: nat, c: Chunk)
    requires rem > 0 && p + 4 <= |src| && done + w <= |before| == |after|
    requires IsRleHeader(src[p], src[p + 1], src[p + 2]) && HeaderWidth(src[p + 2], src[p + 3]) == w
    requires DecodeChannels(src, p + 4, w, 4) == Ok(c)
    requires after[..done] == before[..done] && after[done .. done + w] == Planar(c.bytes, w)
    requires total == PrependPixels(before[..done], DecodeScanlines(src, p, w, rem))
    ensures total == PrependPixels(after[..done + w], DecodeScanlines(src, c.next, w, rem - 1))
  {
    assert after[..done + w] == before[..done] + Planar(c.bytes, w) by {
      assert after[..done + w] == after[..done] + after[done .. done + w];
    }
    PrependPixelsAssoc(before[..done], Planar(c.bytes, w), DecodeScanlines(src, c.next, w, rem - 1));
  }

  /** The flat fallback completes the picture. */
  lemma FallbackCompletes(total: Result<seq<Rgbe>, HdrError>, before: seq<Rgbe>, after: seq<Rgbe>, done: nat,
                          src: seq<u8>, p: nat, w: nat, rem: nat)
    requires rem > 0 && p + 4 <= |src| && done + Pixels(w, rem) == |before| == |after|
    requires !IsRleHeader(src[p], src[p + 1], src[p + 2])
    requires FlatPixels(src, p, Pixels(w, rem)).Ok?
    requires after[..done] == before[..done] && after[done..] == FlatPixels(src, p, Pixels(w, rem)).value
    requires total == PrependPixels(before[..done], DecodeScanlines(src, p, w, rem))
    ensures total == Ok(after)
  {
    assert after == after[..done] + after[done..];
  }

  /** One pass of the loader's scanline loop: the scanline at `src[p]` is
      run-length decoded into `out[done..]` through the scanline buffer, or,
      lacking the run-length mark, the remaining `Pixels(w, rem)` pixels are
      read as flat quads from `src[p]` on (`last`). */
  method ReadOneScanline(src: seq<u8>, p: nat, w: nat, rem: nat, buf: array<u8>, out: array<Rgbe>, done: nat,
                         ghost total: Result<seq<Rgbe>, HdrError>)
    returns (r: Result<nat, HdrError>, last: bool)
    requires rem > 0 && done + Pixels(w, rem) == out.Length && buf.Length == 4 * w
    requires total == PrependPixels(out[..done], DecodeScanlines(src, p, w, rem))
    modifies buf, out
    ensures r.Err? ==> total == Err(r.error)
    ensures r.Ok? && last ==> total == Ok(out[..])
    ensures r.Ok? && !last ==> total == PrependPixels(out[..done + w], DecodeScanlines(src, r.value, w, rem - 1))
  {
    if p + 4 > |src| {
      return Err(Truncated), false;
    }
    if !IsRleHeader(src[p], src[p + 1], src[p + 2]) {
      ghost var before := out[..];
      var ok := ReadFlatPixels(src, p, Pixels(w, rem), out, done);
      if !ok {
        return Err(Truncated), false;
      }
      FallbackCompletes(total, before, out[..], done, src, p, w, rem);
      return Ok(p), true;
    }
    if HeaderWidth(src[p + 2], src[p + 3]) != w {
      return Err(WidthMismatch), false;
    }
    var res := ReadScanline(src, p + 4, buf, w);
    if res.Err? {
      return Err(res.error), false;
    }
    assert DecodeChannels(src, p + 4, w, 4).Ok?;
    ghost var c := DecodeChannels(src, p + 4, w, 4).value;
    assert buf[..] == c.bytes;
    ghost var before := out[..];
    ConvertScanline(buf[..], w, out, done);
    ScanlineKeeps(total, before, out[..], done, src, p, w, rem, c);
    return Ok(res.value), false;
  }

  /** The run-length path of the loader: scanline after scanline through one
      reused scanline buffer, counting the scanlines left down to zero. A
      scanline without the run-length mark makes the rest flat quads read
      from that scanline on (the loader's pointer mistake is HdrRle's
      ScanlinesAsWritten). */
  method ReadScanlines(src: seq<u8>, pos: nat, w: nat, h: nat) returns (r: Result<seq<Rgbe>, HdrError>)
    ensures r == DecodeScanlines(src, pos, w, h)
  {
    var out := new Rgbe[Pixels(w, h)];
    var buf := new u8[4 * w];
    var p: nat := pos;
    var rem: nat := h;
    var done: nat := 0;
    ghost var total := DecodeScanlines(src, pos, w, h);
    assert out[..done] == [];
    PrependPixelsEmpty(total);
    while rem > 0
      invariant done + Pixels(w, rem) == out.Length
      invariant total == PrependPixels(out[..done], DecodeScanlines(src, p, w, rem))
    {
      var res, last := ReadOneScanline(src, p, w, rem, buf, out, done, total);
      if res.Err? {
        return Err(res.error);
      }
      if last {
        return Ok(out[..]);
      }
      p, rem, done := res.value, rem - 1, done + w;
    }
    assert out[..done] + [] == out[..];
    return Ok(out[..]);
  }

  /** Decodes the pixel section of a `w` by `h` picture that starts at
      `src[pos]`: flat quads for widths that cannot be run-length coded,
      otherwise the run-length scanlines. */
  method DecodeHdr(src: seq<u8>, pos: nat, w: nat, h: nat) returns (r: Result<seq<Rgbe>, HdrError>)
    ensures r == DecodePixels(src, pos, w, h)
  {
    if w < MIN_RLE_WIDTH || w > MAX_RLE_WIDTH {
      // widths outside the run-length range are stored as flat quads
      var out := new Rgbe[w * h];
      var ok := ReadFlatPixels(src, pos, w * h, out, 0);
      if !ok {
        return Err(Truncated);
      }
      assert out[..] == out[0 .. w * h];
      return Ok(out[..]);
    }
    r := ReadScanlines(src, pos, w, h);
  }
}
