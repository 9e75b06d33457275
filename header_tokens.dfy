/** The text tokenisers of the picture loaders: the line reader of the
    Radiance header and the whitespace / word readers and magic check of the
    PFM header. Each reader advances a position in the input bytes and copies
    what it reads into a caller's character buffer. The input is a finite
    byte sequence; where the loaders would read past its end, the readers
    here stop at the end. */
module HeaderTokens {
  import opened Machine

  const LF: u8 := 0x0A
  const CR: u8 := 0x0D
  const NUL: u8 := 0

  /** The loop condition of the Radiance line reader. */
  predicate IsEol(b: u8) {
    b == LF || b == CR
  }

  /** `iswspace` in the C locale: tab, line feed, vertical tab, form feed,
      carriage return and space. */
  predicate IsSpace(b: u8) {
    9 <= b <= 13 || b == 32
  }

  // ---------------------------------------------------------------------
  // ReadString: the Radiance header line reader

  /** Where copying stops when at most `left` more bytes may be copied from
      `src[p..]`: at a line end, at the end of the input, or when the budget
      is spent. */
  function ScanEnd(src: seq<u8>, p: nat, left: int): (e: nat)
    requires p <= |src|
    ensures p <= e <= |src|
    ensures e - p <= if left < 0 then 0 else left
    ensures forall i :: p <= i < e ==> !IsEol(src[i])
    ensures e == |src| || IsEol(src[e]) || e - p == (if left < 0 then 0 else left)
    decreases |src| - p
  {
    if p == |src| || IsEol(src[p]) || left <= 0 then p else ScanEnd(src, p + 1, left - 1)
  }

  /** What the line reader leaves in the caller's buffer, and where it leaves
      the input position. */
  datatype Token = Token(text: seq<u8>, next: nat)

  /** The line reader with budget `n`: up to `n` bytes that are not line
      ends, then the line end if one follows, then a terminating NUL. */
  function StringToken(src: seq<u8>, p: nat, n: int): Token
    requires p <= |src|
  {
    var e := ScanEnd(src, p, n);
    if e < |src| && IsEol(src[e]) then Token(src[p .. e] + [src[e]] + [NUL], e + 1)
    else Token(src[p .. e] + [NUL], e)
  }

  /** The line reader: copies the token of `src[p..]` into `text` and returns
      the position after it. It writes `|StringToken(src, p, n).text|` bytes,
      which can be `n + 2`: the caller's buffer must be that large. */
  method ReadString(src: seq<u8>, p: nat, text: array<u8>, n: int) returns (q: nat)
    requires p <= |src| && |StringToken(src, p, n).text| <= text.Length
    modifies text
    ensures q == StringToken(src, p, n).next
    ensures text[.. |StringToken(src, p, n).text|] == StringToken(src, p, n).text
    ensures text[|StringToken(src, p, n).text| ..] == old(text[|StringToken(src, p, n).text| ..])
  {
    ghost var tok := StringToken(src, p, n);
    var count := CopyLine(src, p, text, n, |tok.text|);
    var d := p + count;
    if d < |src| && IsEol(src[d]) {
      text[count] := src[d];
      count := count + 1;
      d := d + 1;
    }
    text[count] := NUL;
    q := d;
    TokenText(src, p, n);
    FilledWith(text[..], old(text[..]), src, p, q, tok.text);
  }

  /** The copying loop of the line reader: copies `src[p .. ScanEnd(src, p, n)]`
      to the start of `text`, leaving `text` from `keep` on as it was. */
  method CopyLine(src: seq<u8>, p: nat, text: array<u8>, n: int, ghost keep: nat) returns (count: nat)
    requires p <= |src| && ScanEnd(src, p, n) - p < keep <= text.Length
    modifies text
    ensures p + count == ScanEnd(src, p, n)
    ensures forall i :: 0 <= i < count ==> text[i] == src[p + i]
    ensures forall i :: keep <= i < text.Length ==> text[i] == old(text[i])
  {
    ghost var e := ScanEnd(src, p, n);
    count := 0;
    var d := p;
    while d < |src| && !IsEol(src[d]) && count < n
      invariant d == p + count <= e
      invariant ScanEnd(src, d, n - count) == e
      invariant forall i :: 0 <= i < count ==> text[i] == src[p + i]
      invariant forall i :: keep <= i < text.Length ==> text[i] == old(text[i])
    {
      text[count] := src[d];
      count := count + 1;
      d := d + 1;
    }
  }

  /** A buffer holding `src[p..q]` and then a NUL from its start, and what it
      held before from `|t|` on, holds the token `t`. */
  lemma FilledWith(now: seq<u8>, was: seq<u8>, src: seq<u8>, p: nat, q: nat, t: seq<u8>)
    requires p <= q <= |src| && t == src[p .. q] + [NUL]
    requires |now| == |was| && |t| <= |now|
    requires forall i :: 0 <= i < q - p ==> now[i] == src[p + i]
    requires now[q - p] == NUL
    requires forall i :: |t| <= i < |now| ==> now[i] == was[i]
    ensures now[.. |t|] == t && now[|t| ..] == was[|t| ..]
  {
    assert now[.. |t|] == t by {
      forall i | 0 <= i < |t|
        ensures now[i] == t[i]
      {
        if i < q - p {
          assert t[i] == src[p .. q][i];
        }
      }
    }
    assert now[|t| ..] == was[|t| ..] by {
      var after, before := now[|t| ..], was[|t| ..];
      forall i | 0 <= i < |after|
        ensures after[i] == before[i]
      {
        assert after[i] == now[|t| + i];
      }
    }
  }

  /** The token text is the bytes read, then the terminating NUL. */
  lemma TokenText(src: seq<u8>, p: nat, n: int)
    requires p <= |src|
    ensures var t := StringToken(src, p, n);
      p <= t.next <= |src| && t.text == src[p .. t.next] + [NUL]
  {
    var e := ScanEnd(src, p, n);
    if e < |src| && IsEol(src[e]) {
      assert src[p .. e] + [src[e]] == src[p .. e + 1];
    }
  }

  /** A line of at most `n` bytes followed by a line end is read back whole,
      together with its line end. */
  lemma LineReadsBack(src: seq<u8>, p: nat, n: int, line: seq<u8>, eol: u8)
    requires p + |line| < |src| && src[p .. p + |line| + 1] == line + [eol]
    requires IsEol(eol) && |line| <= n
    requires forall i :: 0 <= i < |line| ==> !IsEol(line[i])
    ensures StringToken(src, p, n) == Token(line + [eol] + [NUL], p + |line| + 1)
  {
    forall i | 0 <= i < |line|
      ensures src[p + i] == line[i]
    {
      assert src[p .. p + |line| + 1][i] == src[p + i];
    }
    assert src[p + |line|] == src[p .. p + |line| + 1][|line|];
    ScanEndOfLine(src, p, n, |line|);
    assert src[p .. p + |line|] == line;
  }

  /** The scan runs to the first line end when the budget covers it. */
  lemma {:induction false} ScanEndOfLine(src: seq<u8>, p: nat, n: int, k: nat)
    requires p + k < |src| && IsEol(src[p + k]) && k <= n
    requires forall i :: p <= i < p + k ==> !IsEol(src[i])
    ensures ScanEnd(src, p, n) == p + k
    decreases k
  {
    if k > 0 {
      ScanEndOfLine(src, p + 1, n - 1, k - 1);
    }
  }

  /** A line longer than the budget `n >= 0` is cut after `n` bytes; the next
      read resumes inside it. */
  lemma {:induction false} LongLineIsCut(src: seq<u8>, p: nat, n: nat)
    requires p + n < |src|
    requires forall i :: p <= i <= p + n ==> !IsEol(src[i])
    ensures StringToken(src, p, n) == Token(src[p .. p + n] + [NUL], p + n)
    decreases n
  {
    if n > 0 {
      LongLineIsCut(src, p + 1, n - 1);
    }
  }

  /** The reader writes at most `n + 2` bytes: `n` copied, a line end and the
      NUL, and it consumes one byte less than it writes. */
  lemma StringTokenFootprint(src: seq<u8>, p: nat, n: nat)
    requires p <= |src|
    ensures |StringToken(src, p, n).text| <= n + 2
    ensures StringToken(src, p, n).next == p + |StringToken(src, p, n).text| - 1
    ensures StringToken(src, p, n).text[|StringToken(src, p, n).text| - 1] == NUL
  {
  }

  /** The header buffer of the Radiance loader, and the budget it passes. */
  const HDR_TEXT_SIZE: nat := 128

  /** A header line of 128 bytes and a line feed makes the loader's reader
      write 130 bytes into its 128-byte buffer. */
  lemma HdrHeaderLineOverflows(src: seq<u8>)
    requires |src| == HDR_TEXT_SIZE + 1
    requires forall i :: 0 <= i < HDR_TEXT_SIZE ==> src[i] == 'A' as u8
    requires src[HDR_TEXT_SIZE] == LF
    ensures |StringToken(src, 0, HDR_TEXT_SIZE).text| == HDR_TEXT_SIZE + 2
  {
    ScanEndOfLine(src, 0, HDR_TEXT_SIZE, HDR_TEXT_SIZE);
  }

  /** The reader with its budget taken from the buffer: at most
      `text.Length - 2` bytes are copied, so the line end and the NUL still
      fit and nothing is written past the buffer. */
  method ReadBoundedString(src: seq<u8>, p: nat, text: array<u8>) returns (q: nat)
    requires p <= |src| && text.Length >= 2
    modifies text
    ensures q == StringToken(src, p, text.Length - 2).next
    ensures text[.. |StringToken(src, p, text.Length - 2).text|] == StringToken(src, p, text.Length - 2).text
    ensures text[|StringToken(src, p, text.Length - 2).text| ..] == old(text[|StringToken(src, p, text.Length - 2).text| ..])
  {
    StringTokenFootprint(src, p, text.Length - 2);
    q := ReadString(src, p, text, text.Length - 2);
  }

  /** The bounded reader's budget always fits the buffer, and on a line short
      enough it reads what the unbounded one reads. */
  lemma BoundedReaderAgrees(src: seq<u8>, p: nat, size: nat, n: nat, line: seq<u8>, eol: u8)
    requires size >= 2 && size - 2 <= n
    requires p + |line| < |src| && src[p .. p + |line| + 1] == line + [eol]
    requires IsEol(eol) && |line| <= size - 2
    requires forall i :: 0 <= i < |line| ==> !IsEol(line[i])
    ensures |StringToken(src, p, size - 2).text| <= size
    ensures StringToken(src, p, size - 2) == StringToken(src, p, n)
  {
    StringTokenFootprint(src, p, size - 2);
    LineReadsBack(src, p, size - 2, line, eol);
    LineReadsBack(src, p, n, line, eol);
  }

  // ---------------------------------------------------------------------
  // PFM header: whitespace, words, magic

  /** The first position at or after `p` that is not whitespace. */
  function SkipSpaces(src: seq<u8>, p: nat): (q: nat)
    requires p <= |src|
    ensures p <= q <= |src|
    ensures forall i :: p <= i < q ==> IsSpace(src[i])
    ensures q == |src| || !IsSpace(src[q])
    decreases |src| - p
  {
    if p == |src| || !IsSpace(src[p]) then p else SkipSpaces(src, p + 1)
  }

  /** `PFMSkipWhiteSpace`: advances past whitespace. */
  method SkipWhiteSpace(src: seq<u8>, p: nat) returns (q: nat)
    requires p <= |src|
    ensures q == SkipSpaces(src, p)
  {
    q := p;
    while q < |src| && IsSpace(src[q])
      invariant p <= q <= |src|
      invariant SkipSpaces(src, q) == SkipSpaces(src, p)
    {
      q := q + 1;
    }
  }

  /** Skipping is idempotent, and a run of whitespace followed by something
      else is skipped exactly. */
  lemma SkipSpacesIdempotent(src: seq<u8>, p: nat)
    requires p <= |src|
    ensures SkipSpaces(src, SkipSpaces(src, p)) == SkipSpaces(src, p)
  {
  }

  lemma {:induction false} SkipSpacesExact(src: seq<u8>, p: nat, k: nat)
    requires p + k <= |src|
    requires forall i :: p <= i < p + k ==> IsSpace(src[i])
    requires p + k == |src| || !IsSpace(src[p + k])
    ensures SkipSpaces(src, p) == p + k
    decreases k
  {
    if k > 0 {
      SkipSpacesExact(src, p + 1, k - 1);
    }
  }

  /** The first whitespace position at or after `p`, or the end. */
  function WordEnd(src: seq<u8>, p: nat): (q: nat)
    requires p <= |src|
    ensures p <= q <= |src|
    ensures forall i :: p <= i < q ==> !IsSpace(src[i])
    ensures q == |src| || IsSpace(src[q])
    decreases |src| - p
  {
    if p == |src| || IsSpace(src[p]) then p else WordEnd(src, p + 1)
  }

  /** `PFMReadLine`: copies the bytes up to the next whitespace into `text`
      and terminates them with NUL. The loader's buffer is not bounded by the
      reader, so the word and its NUL must fit. */
  method ReadWord(src: seq<u8>, p: nat, text: array<u8>) returns (q: nat)
    requires p <= |src| && WordEnd(src, p) - p < text.Length
    modifies text
    ensures q == WordEnd(src, p)
    ensures text[.. q - p] == src[p .. q] && text[q - p] == NUL
    ensures text[q - p + 1 ..] == old(text[q - p + 1 ..])
  {
    var count := 0;
    q := p;
    while q < |src| && !IsSpace(src[q])
      invariant q == p + count <= WordEnd(src, p)
      invariant WordEnd(src, q) == WordEnd(src, p)
      invariant forall i :: 0 <= i < count ==> text[i] == src[p + i]
      invariant forall i :: WordEnd(src, p) - p < i < text.Length ==> text[i] == old(text[i])
    {
      text[count] := src[q];
      count := count + 1;
      q := q + 1;
    }
    text[count] := NUL;
    ghost var word, want := text[.. q - p], src[p .. q];
    forall i | 0 <= i < q - p
      ensures word[i] == want[i]
    {
      assert text[i] == src[p + i];
    }
    assert word == want;
    ghost var after, before := text[q - p + 1 ..], old(text[q - p + 1 ..]);
    forall i | 0 <= i < |after|
      ensures after[i] == before[i]
    {
      assert text[q - p + 1 + i] == old(text[q - p + 1 + i]);
    }
    assert after == before;
  }

  /** A word without whitespace followed by whitespace (or the end) is read
      back exactly; the word reader stops where the skipper starts. */
  lemma {:induction false} WordReadsBack(src: seq<u8>, p: nat, word: seq<u8>)
    requires p + |word| <= |src| && src[p .. p + |word|] == word
    requires forall i :: 0 <= i < |word| ==> !IsSpace(word[i])
    requires p + |word| == |src| || IsSpace(src[p + |word|])
    ensures WordEnd(src, p) == p + |word|
    decreases |word|
  {
    if |word| > 0 {
      assert src[p] == src[p .. p + |word|][0];
      assert src[p + 1 .. p + |word|] == word[1..];
      WordReadsBack(src, p + 1, word[1..]);
    }
  }

  lemma WordEndThenSkip(src: seq<u8>, p: nat)
    requires p <= |src|
    ensures WordEnd(src, WordEnd(src, p)) == WordEnd(src, p)
    ensures var q := WordEnd(src, p); q < |src| ==> SkipSpaces(src, q) > q
  {
  }

  /** The size of the buffer the PFM loader reads its header words into. */
  const PFM_TEXT_SIZE: nat := 1024

  /** The word reader as the loader calls it: a header word of 1024 bytes
      without whitespace makes it write 1025 bytes, the NUL landing past the
      loader's 1024-byte buffer. */
  lemma PfmWordOverflows(src: seq<u8>)
    requires |src| == PFM_TEXT_SIZE
    requires forall i :: 0 <= i < |src| ==> src[i] == '1' as u8
    ensures WordEnd(src, 0) + 1 == PFM_TEXT_SIZE + 1
    ensures !(WordEnd(src, 0) < PFM_TEXT_SIZE)
  {
    WordReadsBack(src, 0, src);
  }

  /** Where a word read stops when at most `n` bytes may be copied. */
  function BoundedWordEnd(src: seq<u8>, p: nat, n: nat): (q: nat)
    requires p <= |src|
    ensures p <= q <= WordEnd(src, p) && q - p <= n
    ensures q == WordEnd(src, p) || q - p == n
  {
    if WordEnd(src, p) - p <= n then WordEnd(src, p) else p + n
  }

  /** The word reader bounded by its buffer: it copies at most
      `text.Length - 1` bytes, so the NUL always fits and nothing is written
      past the buffer. */
  method ReadBoundedWord(src: seq<u8>, p: nat, text: array<u8>) returns (q: nat)
    requires p <= |src| && text.Length >= 1
    modifies text
    ensures q == BoundedWordEnd(src, p, text.Length - 1)
    ensures text[.. q - p + 1] == src[p .. q] + [NUL]
    ensures text[q - p + 1 ..] == old(text[q - p + 1 ..])
  {
    ghost var e := BoundedWordEnd(src, p, text.Length - 1);
    var count := 0;
    q := p;
    while q < |src| && !IsSpace(src[q]) && count < text.Length - 1
      invariant q == p + count <= e
      invariant forall i :: 0 <= i < count ==> text[i] == src[p + i]
      invariant forall i :: e - p < i < text.Length ==> text[i] == old(text[i])
    {
      text[count] := src[q];
      count := count + 1;
      q := q + 1;
    }
    assert q == e;
    text[count] := NUL;
    FilledWith(text[..], old(text[..]), src, p, q, src[p .. q] + [NUL]);
  }

  /** On a word that fits with its NUL, the bounded reader stops where the
      unbounded one does. */
  lemma BoundedWordAgrees(src: seq<u8>, p: nat, word: seq<u8>, size: nat)
    requires p + |word| <= |src| && src[p .. p + |word|] == word
    requires forall i :: 0 <= i < |word| ==> !IsSpace(word[i])
    requires p + |word| == |src| || IsSpace(src[p + |word|])
    requires |word| < size
    ensures BoundedWordEnd(src, p, size - 1) == WordEnd(src, p) == p + |word|
  {
    WordReadsBack(src, p, word);
  }

  const UPPER_P: u8 := 'P' as u8
  const LOWER_P: u8 := 'p' as u8
  const UPPER_F: u8 := 'F' as u8
  const LOWER_F: u8 := 'f' as u8

  /** The loader's rejection test on the first two header bytes, as written:
      it rejects only when neither byte matches (`&&` between the two
      halves). */
  predicate PfmMagicRejectedAsWritten(b0: u8, b1: u8) {
    (b0 != UPPER_P && b0 != LOWER_P) && (b1 != UPPER_F && b1 != LOWER_F)
  }

  /** The test written as the comment says: the header must start with PF
      (either case). */
  predicate PfmMagicAccepted(b0: u8, b1: u8) {
    (b0 == UPPER_P || b0 == LOWER_P) && (b1 == UPPER_F || b1 == LOWER_F)
  }

  /** The test as written rejects only when both bytes are wrong, so it lets
      through every header with one right byte, such as `P6` of a binary
      PPM file. */
  lemma PfmMagicAsWrittenAcceptsPpm()
    ensures !PfmMagicRejectedAsWritten('P' as u8, '6' as u8)
    ensures !PfmMagicAccepted('P' as u8, '6' as u8)
  {
  }

  /** Both tests agree on every real PF header and on every header with
      both bytes wrong; the written one accepts strictly more. */
  lemma PfmMagicTests(b0: u8, b1: u8)
    ensures PfmMagicAccepted(b0, b1) ==> !PfmMagicRejectedAsWritten(b0, b1)
    ensures PfmMagicRejectedAsWritten(b0, b1) ==> !PfmMagicAccepted(b0, b1)
    ensures !PfmMagicRejectedAsWritten(b0, b1) <==>
              (b0 == UPPER_P || b0 == LOWER_P || b1 == UPPER_F || b1 == LOWER_F)
  {
  }

  /** Where the loader reads the magic: after leading whitespace. It returns
      the position after the two magic bytes, or `None` when the test as
      written rejects them (or the input ends first). */
  method CheckPfmMagicAsWritten(src: seq<u8>) returns (r: Option<nat>)
    ensures var p := SkipSpaces(src, 0);
      r == if p + 2 <= |src| && !PfmMagicRejectedAsWritten(src[p], src[p + 1]) then Some(p + 2) else None
  {
    var p := SkipWhiteSpace(src, 0);
    if p + 2 > |src| || PfmMagicRejectedAsWritten(src[p], src[p + 1]) {
      return None;
    }
    return Some(p + 2);
  }

  /** The same with the corrected test. */
  method CheckPfmMagic(src: seq<u8>) returns (r: Option<nat>)
    ensures var p := SkipSpaces(src, 0);
      r.Some? <==> p + 2 <= |src| && PfmMagicAccepted(src[p], src[p + 1])
    ensures r.Some? ==> r.value == SkipSpaces(src, 0) + 2
  {
    var p := SkipWhiteSpace(src, 0);
    if p + 2 > |src| || !PfmMagicAccepted(src[p], src[p + 1]) {
      return None;
    }
    return Some(p + 2);
  }
}
