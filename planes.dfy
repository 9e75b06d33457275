/** The in-place operations on the planes of a texture: the row and column
    flips, which only move 4-byte cells, and the scrub that zeroes words
    whose bit pattern is an infinity or a NaN. A plane of a `w * h` face is
    a block of consecutive words; the block is given by its first index. */
module Planes {
  import opened Machine

  /** `w * h`, written as repeated addition so that the tiling proofs need no
      nonlinear arithmetic. */
  function Area(w: nat, h: nat): nat
    decreases h
  {
    if h == 0 then 0 else Area(w, h - 1) + w
  }

  lemma {:induction false} AreaIsProduct(w: nat, h: nat)
    ensures Area(w, h) == w * h
    decreases h
  {
    if h > 0 {
      AreaIsProduct(w, h - 1);
    }
  }

  lemma {:induction false} AreaAdd(w: nat, a: nat, b: nat, n: nat)
    requires a + b == n
    ensures Area(w, n) == Area(w, a) + Area(w, b)
    decreases b
  {
    if b > 0 {
      AreaAdd(w, a, b - 1, n - 1);
    }
  }

  lemma {:induction false} AreaMono(w: nat, a: nat, b: nat)
    requires a <= b
    ensures Area(w, a) <= Area(w, b)
    decreases b
  {
    if a < b {
      AreaMono(w, a, b - 1);
    }
  }

  lemma AreaSucc(w: nat, n: nat)
    ensures Area(w, n + 1) == Area(w, n) + w
  {
  }

  lemma AreaPred(w: nat, n: nat)
    requires n > 0
    ensures Area(w, n) == Area(w, n - 1) + w
  {
  }

  /** Row `y` of a block `h` rows high lies inside the block. */
  lemma AreaRow(w: nat, y: nat, h: nat)
    requires y < h
    ensures Area(w, y) + w <= Area(w, h)
  {
    AreaSucc(w, y);
    AreaMono(w, y + 1, h);
  }

  function Reverse<T>(s: seq<T>): (r: seq<T>)
    ensures |r| == |s|
  {
    seq(|s|, i requires 0 <= i < |s| => s[|s| - 1 - i])
  }

  lemma ReverseReverse<T>(s: seq<T>)
    ensures Reverse(Reverse(s)) == s
  {
    assert forall i :: 0 <= i < |s| ==> Reverse(Reverse(s))[i] == s[i];
  }

  /** The rows of a block `w` words wide in reverse order: the last row
      first. */
  function RevRows(b: seq<u32>, w: nat): (r: seq<u32>)
    ensures |r| == |b|
    decreases |b|
  {
    if w == 0 || |b| <= w then b else b[|b| - w ..] + RevRows(b[.. |b| - w], w)
  }

  /** Every row of a block `w` words wide reversed in place. */
  function RevEach(b: seq<u32>, w: nat): (r: seq<u32>)
    ensures |r| == |b|
    decreases |b|
  {
    if w == 0 || |b| < w then b else Reverse(b[..w]) + RevEach(b[w..], w)
  }

  /** The vertical flip (`vertical`) or the horizontal one of a block. */
  function Flip(b: seq<u32>, w: nat, vertical: bool): seq<u32> {
    if vertical then RevRows(b, w) else RevEach(b, w)
  }

  /** Reversing the rows of `x + y` puts the reversed rows of `y` first. */
  lemma {:induction false} RevRowsConcat(x: seq<u32>, y: seq<u32>, w: nat, hx: nat, hy: nat)
    requires |x| == Area(w, hx) && |y| == Area(w, hy)
    ensures RevRows(x + y, w) == RevRows(y, w) + RevRows(x, w)
    decreases hy, 1
  {
    if hy == 0 {
      assert x + y == x;
    } else if w == 0 {
      AreaIsProduct(w, hx);
      AreaIsProduct(w, hy);
      assert x == [] && y == [];
    } else if |x + y| <= w {
      RevRowsConcatOneRow(x, y, w, hy);
    } else {
      RevRowsConcatStep(x, y, w, hx, hy);
    }
  }

  lemma RevRowsConcatOneRow(x: seq<u32>, y: seq<u32>, w: nat, hy: nat)
    requires |y| == Area(w, hy) && hy > 0 && |x + y| <= w
    ensures RevRows(x + y, w) == RevRows(y, w) + RevRows(x, w)
  {
    AreaMono(w, 1, hy);
    assert x == [];
    assert x + y == y;
  }

  lemma {:induction false} RevRowsConcatStep(x: seq<u32>, y: seq<u32>, w: nat, hx: nat, hy: nat)
    requires |x| == Area(w, hx) && |y| == Area(w, hy) && hy > 0 && w != 0 && |x + y| > w
    ensures RevRows(x + y, w) == RevRows(y, w) + RevRows(x, w)
    decreases hy, 0
  {
    AreaMono(w, 1, hy);
    var last := y[|y| - w ..];
    var y' := y[.. |y| - w];
    DropLastRow(x, y, w);
    RevRowsUnfold(x + y, w);
    RevRowsConcat(x, y', w, hx, hy - 1);
    if |y| == w {
      LastRowIsAll(y, w);
      AppendAssoc(last, RevRows(y', w), RevRows(x, w));
    } else {
      RevRowsUnfold(y, w);
      AppendAssoc(last, RevRows(y', w), RevRows(x, w));
    }
  }

  /** A block one row high: its last row is all of it, and what precedes it
      flips to nothing. */
  lemma LastRowIsAll(y: seq<u32>, w: nat)
    requires |y| == w
    ensures RevRows(y, w) == y[|y| - w ..] + RevRows(y[.. |y| - w], w)
  {
    assert y[.. |y| - w] == [];
    assert y[|y| - w ..] == y;
  }

  /** The last row of `x + y` is the last row of `y`. */
  lemma DropLastRow(x: seq<u32>, y: seq<u32>, w: nat)
    requires w <= |y|
    ensures (x + y)[|x + y| - w ..] == y[|y| - w ..]
    ensures (x + y)[.. |x + y| - w] == x + y[.. |y| - w]
  {
  }

  /** Reversing each row of `x + y` does so to `x` and to `y` separately. */
  lemma {:induction false} RevEachConcat(x: seq<u32>, y: seq<u32>, w: nat, hx: nat)
    requires |x| == Area(w, hx)
    ensures RevEach(x + y, w) == RevEach(x, w) + RevEach(y, w)
    decreases hx
  {
    if hx == 0 {
      assert x + y == y;
    } else if w == 0 {
      AreaIsProduct(w, hx);
      assert x == [];
      assert x + y == y;
    } else {
      AreaMono(w, 1, hx);
      assert (x + y)[..w] == x[..w];
      assert (x + y)[w..] == x[w..] + y;
      RevEachConcat(x[w..], y, w, hx - 1);
    }
  }

  /** Each flip applied twice is the identity. */
  lemma {:induction false} RevRowsTwice(b: seq<u32>, w: nat, h: nat)
    requires |b| == Area(w, h)
    ensures RevRows(RevRows(b, w), w) == b
    decreases h
  {
    if w != 0 && |b| > w {
      var init := b[.. |b| - w];
      var last := b[|b| - w ..];
      AreaSucc(w, h - 1);
      RevRowsUnfold(b, w);
      RevRowsTwice(init, w, h - 1);
      RevRowsConcat(last, RevRows(init, w), w, 1, h - 1);
      RevRowsShort(last, w, 1);
      SplitLast(b, w);
    }
  }

  lemma SplitLast(b: seq<u32>, w: nat)
    requires w <= |b|
    ensures b[.. |b| - w] + b[|b| - w ..] == b
  {
  }

  lemma {:induction false} RevEachTwice(b: seq<u32>, w: nat, h: nat)
    requires |b| == Area(w, h)
    ensures RevEach(RevEach(b, w), w) == b
    decreases h
  {
    if w != 0 && |b| >= w {
      var x, y := b[..w], b[w..];
      AreaPred(w, h);
      calc {
        RevEach(RevEach(b, w), w);
        RevEach(Reverse(x) + RevEach(y, w), w);
        { RevEachConcat(Reverse(x), RevEach(y, w), w, 1); }
        RevEach(Reverse(x), w) + RevEach(RevEach(y, w), w);
        { RevEachTwice(y, w, h - 1); }
        RevEach(Reverse(x), w) + y;
        { RevEachOneRow(Reverse(x), w); ReverseReverse(x); }
        x + y;
      }
    } else if w == 0 {
      AreaIsProduct(w, h);
    }
  }

  /** A block of one row has that row reversed. */
  lemma RevEachOneRow(x: seq<u32>, w: nat)
    requires |x| == w != 0
    ensures RevEach(x, w) == Reverse(x)
  {
    assert x[..w] == x;
  }

  lemma FlipTwice(b: seq<u32>, w: nat, h: nat, vertical: bool)
    requires |b| == Area(w, h)
    ensures Flip(Flip(b, w, vertical), w, vertical) == b
  {
    if vertical {
      RevRowsTwice(b, w, h);
    } else {
      RevEachTwice(b, w, h);
    }
  }

  /** Row `y` of the vertically flipped block is row `z` of the original,
      where `y` and `z` lie as far from the top as from the bottom: a middle
      row stays put. */
  lemma RevRowsRow(b: seq<u32>, w: nat, h: nat, y: nat, z: nat)
    requires |b| == Area(w, h) && y + 1 + z == h
    ensures Area(w, y) + w <= |b| && Area(w, z) + w <= |b|
    ensures RevRows(b, w)[Area(w, y) .. Area(w, y) + w] == b[Area(w, z) .. Area(w, z) + w]
  {
    RowSizes(|b|, w, h, y, z);
    RevRowsSplit3(b, 0, Area(w, z), Area(w, z) + w, |b|, w, z, 1, y);
    RevRowsWhole(b, w);
    PickMiddle(RevRows(b, w), RevRows(b[0 .. |b|], w), RevRows(b[Area(w, z) + w .. |b|], w),
               b[Area(w, z) .. Area(w, z) + w], RevRows(b[0 .. Area(w, z)], w), Area(w, y), Area(w, y) + w);
  }

  lemma RevRowsWhole(b: seq<u32>, w: nat)
    ensures RevRows(b[0 .. |b|], w) == RevRows(b, w)
  {
    assert b[0 .. |b|] == b;
  }

  lemma PickMiddle(t: seq<u32>, t0: seq<u32>, x: seq<u32>, y: seq<u32>, z: seq<u32>, i: nat, j: nat)
    requires t0 == t && t0 == x + y + z && i == |x| && j == |x| + |y|
    ensures t[i .. j] == y
  {
  }

  /** Where rows `y` and `z` lie when they are as far from the top as from
      the bottom of a block of `n` words. */
  lemma RowSizes(n: nat, w: nat, h: nat, y: nat, z: nat)
    requires n == Area(w, h) && y + 1 + z == h
    ensures Area(w, y) + w <= n && Area(w, z) + w <= n
    ensures Area(w, z) - 0 == Area(w, z) && Area(w, z) + w - Area(w, z) == Area(w, 1)
    ensures n - (Area(w, z) + w) == Area(w, y)
  {
    AreaRow(w, y, h);
    AreaRow(w, z, h);
    AreaSucc(w, 0);
    AreaAdd(w, z + 1, y, h);
    AreaSucc(w, z);
  }

  lemma RevRowsUnfold(b: seq<u32>, w: nat)
    requires w > 0 && |b| > w
    ensures RevRows(b, w) == b[|b| - w ..] + RevRows(b[.. |b| - w], w)
  {
  }

  /** The vertical flip of a block in three parts, the middle one at most one
      row high: the outer parts trade places. */
  lemma RevRowsSplit3(s: seq<u32>, a: nat, b: nat, c: nat, d: nat, w: nat, i: nat, k: nat, j: nat)
    requires a <= b <= c <= d <= |s|
    requires b - a == Area(w, i) && c - b == Area(w, k) && d - c == Area(w, j) && k <= 1
    ensures RevRows(s[a .. d], w) == RevRows(s[c .. d], w) + s[b .. c] + RevRows(s[a .. b], w)
  {
    AreaSpan(w, i, k, a, b, c);
    RevRowsSlices(s, a, c, d, w, i + k, j);
    RevRowsSlices(s, a, b, c, w, i, k);
    RevRowsShort(s[b .. c], w, k);
    Glue3(RevRows(s[a .. d], w), RevRows(s[c .. d], w), RevRows(s[a .. c], w), RevRows(s[b .. c], w), s[b .. c],
          RevRows(s[a .. b], w));
  }

  /** Two blocks `w` wide, one on top of the other, make one block. */
  lemma AreaSpan(w: nat, i: nat, k: nat, a: nat, b: nat, c: nat)
    requires a <= b <= c && b - a == Area(w, i) && c - b == Area(w, k)
    ensures c - a == Area(w, i + k)
  {
    AreaAdd(w, i, k, i + k);
  }

  /** The vertical flip of two adjacent slices of one sequence. */
  lemma RevRowsSlices(s: seq<u32>, a: nat, b: nat, c: nat, w: nat, i: nat, j: nat)
    requires a <= b <= c <= |s| && b - a == Area(w, i) && c - b == Area(w, j)
    ensures RevRows(s[a .. c], w) == RevRows(s[b .. c], w) + RevRows(s[a .. b], w)
  {
    Concat2(s, a, b, c);
    RevRowsConcat(s[a .. b], s[b .. c], w, i, j);
  }

  lemma Glue3(t: seq<u32>, p: seq<u32>, u: seq<u32>, q: seq<u32>, q': seq<u32>, r: seq<u32>)
    requires t == p + u && u == q + r && q == q'
    ensures t == p + q' + r
  {
  }

  /** A block at most one row high is its own vertical flip. */
  lemma RevRowsShort(y: seq<u32>, w: nat, k: nat)
    requires |y| == Area(w, k) && k <= 1
    ensures RevRows(y, w) == y
  {
    if k == 1 {
      assert Area(w, 1) == w;
    }
  }

  lemma AppendAssoc(a: seq<u32>, b: seq<u32>, c: seq<u32>)
    ensures a + (b + c) == a + b + c
  {
  }


  /** The vertical flip of `s[a .. c]` after taking its first row off. */
  lemma RevRowsPeelFront(s: seq<u32>, a: nat, b: nat, c: nat, w: nat, n: nat)
    requires a + w == b <= c <= |s| && c - b == Area(w, n)
    ensures RevRows(s[a .. c], w) == RevRows(s[b .. c], w) + s[a .. b]
  {
    assert Area(w, 1) == w;
    Concat2(s, a, b, c);
    RevRowsConcat(s[a .. b], s[b .. c], w, 1, n);
  }

  /** The vertical flip of `s[a .. c]` after taking its last row off. */
  lemma RevRowsPeelBack(s: seq<u32>, a: nat, b: nat, c: nat, w: nat, n: nat)
    requires a <= b && b + w == c <= |s| && b - a == Area(w, n)
    ensures RevRows(s[a .. c], w) == s[b .. c] + RevRows(s[a .. b], w)
  {
    assert Area(w, 1) == w;
    Concat2(s, a, b, c);
    RevRowsConcat(s[a .. b], s[b .. c], w, n, 1);
  }

  /** The horizontal flip of `s[a .. c]` after adding one more row. */
  lemma RevEachPush(s: seq<u32>, a: nat, b: nat, c: nat, w: nat, n: nat)
    requires a <= b && b + w == c <= |s| && b - a == Area(w, n)
    ensures RevEach(s[a .. c], w) == RevEach(s[a .. b], w) + Reverse(s[b .. c])
  {
    Concat2(s, a, b, c);
    RevEachConcat(s[a .. b], s[b .. c], w, n);
    var row := s[b .. c];
    if w > 0 {
      assert row[..w] == row && row[w..] == [];
    }
  }

  /** Row `y` of the horizontally flipped block is row `y` of the original,
      reversed. */
  lemma {:induction false} RevEachRow(b: seq<u32>, w: nat, h: nat, y: nat)
    requires |b| == Area(w, h) && y < h
    ensures Area(w, y) + w <= |b|
    ensures RevEach(b, w)[Area(w, y) .. Area(w, y) + w] == Reverse(b[Area(w, y) .. Area(w, y) + w])
    decreases h
  {
    AreaRow(w, y, h);
    if w != 0 {
      RevEachRowStep(b, w, h, y);
    }
  }

  lemma {:induction false} RevEachRowStep(b: seq<u32>, w: nat, h: nat, y: nat)
    requires |b| == Area(w, h) && y < h && w != 0
    ensures Area(w, y) + w <= |b|
    ensures RevEach(b, w)[Area(w, y) .. Area(w, y) + w] == Reverse(b[Area(w, y) .. Area(w, y) + w])
    decreases h, 1
  {
    AreaRow(w, y, h);
    if y == 0 {
      RevEachRowTop(b, w, h, y);
    } else {
      RevEachRowBelow(b, w, h, y);
    }
  }

  lemma RevEachRowTop(b: seq<u32>, w: nat, h: nat, y: nat)
    requires |b| == Area(w, h) && y == 0 < h && w != 0
    ensures RevEach(b, w)[Area(w, y) .. Area(w, y) + w] == Reverse(b[Area(w, y) .. Area(w, y) + w])
  {
    AreaRow(w, 0, h);
    RevEachUnfold(b, w);
    RevEachRowFirst(b, Reverse(b[..w]), RevEach(b[w..], w), RevEach(b, w), w, Area(w, y), Area(w, y) + w);
  }

  lemma {:induction false} RevEachRowBelow(b: seq<u32>, w: nat, h: nat, y: nat)
    requires |b| == Area(w, h) && 0 < y < h && w != 0
    ensures Area(w, y) + w <= |b|
    ensures RevEach(b, w)[Area(w, y) .. Area(w, y) + w] == Reverse(b[Area(w, y) .. Area(w, y) + w])
    decreases h, 0
  {
    AreaRow(w, y, h);
    AreaRow(w, 0, h);
    RevEachUnfold(b, w);
    AreaPred(w, h);
    AreaPred(w, y);
    RevEachRow(b[w..], w, h - 1, y - 1);
    RevEachRowLater(b, Reverse(b[..w]), RevEach(b[w..], w), RevEach(b, w), w,
                    Area(w, y - 1), Area(w, y - 1) + w, Area(w, y), Area(w, y) + w);
  }

  lemma RevEachUnfold(b: seq<u32>, w: nat)
    requires w != 0 && w <= |b|
    ensures RevEach(b, w) == Reverse(b[..w]) + RevEach(b[w..], w)
  {
  }

  lemma RevEachRowFirst(b: seq<u32>, first: seq<u32>, r: seq<u32>, t: seq<u32>, w: nat, i: nat, j: nat)
    requires w <= |b| && first == Reverse(b[..w]) && t == first + r && i == 0 && j == w
    ensures t[i .. j] == Reverse(b[i .. j])
  {
    AppendSliceLeft(first, r, 0, w);
    assert first[0 .. w] == first;
    assert b[0 .. w] == b[..w];
  }

  lemma RevEachRowLater(b: seq<u32>, first: seq<u32>, r: seq<u32>, t: seq<u32>, w: nat,
                        i: nat, j: nat, i2: nat, j2: nat)
    requires w <= |b| && |first| == w && t == first + r
    requires j == i + w && i2 == w + i && j2 == w + j && j <= |r| == |b| - w
    requires r[i .. j] == Reverse(b[w..][i .. j])
    ensures t[i2 .. j2] == Reverse(b[i2 .. j2])
  {
    AppendSliceRight(first, r, i2, j2, i, j);
    DropSlice(b, w, i, j, i2, j2);
  }

  // ---------------------------------------------------------------------
  // The four planes of a face

  /** The end of the last block at `bases`, or `lo` when there is none. */
  function BlocksEnd(lo: nat, bases: seq<nat>, area: nat): nat {
    if bases == [] then lo else bases[|bases| - 1] + area
  }

  /** `t` is `s` with `f` applied to each block of `area` words starting at
      one of `bases`, the blocks lying in order from `lo` on, and every other
      word of `s[lo..]` left where it was. */
  predicate BlocksMapped(s: seq<u32>, t: seq<u32>, lo: nat, bases: seq<nat>, area: nat, f: seq<u32> -> seq<u32>)
    requires |s| == |t| && lo <= |s|
    decreases |bases|
  {
    if bases == [] then t[lo..] == s[lo..]
    else
      && lo <= bases[0] && bases[0] + area <= |s|
      && t[lo .. bases[0]] == s[lo .. bases[0]]
      && t[bases[0] .. bases[0] + area] == f(s[bases[0] .. bases[0] + area])
      && BlocksMapped(s, t, bases[0] + area, bases[1..], area, f)
  }

  /** `f` undoes itself on blocks of `area` words. */
  ghost predicate Involutive(f: seq<u32> -> seq<u32>, area: nat) {
    forall x: seq<u32> :: |x| == area ==> f(f(x)) == x
  }

  /** The flip of one `w`-wide block, as a value. */
  function FlipOf(w: nat, vertical: bool): seq<u32> -> seq<u32> {
    b => Flip(b, w, vertical)
  }

  lemma FlipOfInvolutive(w: nat, h: nat, vertical: bool)
    ensures Involutive(FlipOf(w, vertical), Area(w, h))
  {
    forall x: seq<u32> | |x| == Area(w, h)
      ensures FlipOf(w, vertical)(FlipOf(w, vertical)(x)) == x
    {
      FlipTwice(x, w, h, vertical);
    }
  }

  /** Equal suffixes have equal sub-slices. */
  lemma SameFrom(s: seq<u32>, t: seq<u32>, lo: nat, i: nat, j: nat)
    requires |s| == |t| && lo <= i <= j <= |s| && t[lo..] == s[lo..]
    ensures t[i .. j] == s[i .. j] && t[i..] == s[i..]
  {
    forall k | lo <= k < |s|
      ensures t[k] == s[k]
    {
      assert t[k] == t[lo..][k - lo];
      assert s[k] == s[lo..][k - lo];
    }
  }

  /** Equal prefixes have equal sub-slices. */
  lemma SameUpTo(s: seq<u32>, t: seq<u32>, k: nat, i: nat, j: nat)
    requires i <= j <= k <= |s| && k <= |t| && t[..k] == s[..k]
    ensures t[i .. j] == s[i .. j]
  {
    forall m | 0 <= m < k
      ensures t[m] == s[m]
    {
      assert t[m] == t[..k][m];
      assert s[m] == s[..k][m];
    }
  }

  lemma SamePrefix(s: seq<u32>, t: seq<u32>, k: nat, j: nat)
    requires j <= k <= |s| && k <= |t| && t[..k] == s[..k]
    ensures t[..j] == s[..j]
  {
    forall m | 0 <= m < j
      ensures t[m] == s[m]
    {
      assert t[m] == t[..k][m];
      assert s[m] == s[..k][m];
    }
  }

  /** Equal ranges have equal sub-ranges. */
  lemma SameRange(s: seq<u32>, t: seq<u32>, i: nat, j: nat, k: nat, l: nat)
    requires i <= k <= l <= j <= |s| && j <= |t| && t[i .. j] == s[i .. j]
    ensures t[k .. l] == s[k .. l]
  {
    forall m | k <= m < l
      ensures t[m] == s[m]
    {
      assert t[m] == t[i .. j][m - i];
      assert s[m] == s[i .. j][m - i];
    }
  }

  lemma Concat2(s: seq<u32>, a: nat, b: nat, c: nat)
    requires a <= b <= c <= |s|
    ensures s[a .. c] == s[a .. b] + s[b .. c]
  {
  }

  lemma AppendSliceRight(x: seq<u32>, r: seq<u32>, i: nat, j: nat, i2: nat, j2: nat)
    requires i == |x| + i2 && j == |x| + j2 && i2 <= j2 <= |r|
    ensures (x + r)[i .. j] == r[i2 .. j2]
  {
  }

  lemma AppendSliceLeft(x: seq<u32>, r: seq<u32>, i: nat, j: nat)
    requires i <= j <= |x|
    ensures (x + r)[i .. j] == x[i .. j]
  {
  }

  lemma DropSlice(b: seq<u32>, k: nat, i: nat, j: nat, i2: nat, j2: nat)
    requires k <= |b| && i <= j <= |b| - k && i2 == k + i && j2 == k + j
    ensures b[k..][i .. j] == b[i2 .. j2]
  {
  }

  lemma PrefixSlice(b: seq<u32>, k: nat, i: nat, j: nat)
    requires i <= j <= k <= |b|
    ensures b[..k][i .. j] == b[i .. j]
  {
  }


  lemma Split3(s: seq<u32>, lo: nat, b: nat, e: nat)
    requires lo <= b <= e <= |s|
    ensures s[lo..] == s[lo .. b] + s[b .. e] + s[e..]
  {
  }

  /** Mapping the same blocks twice with an involution gives back the words
      one started with. */
  lemma {:induction false} BlocksMappedTwice(s: seq<u32>, t: seq<u32>, u: seq<u32>, lo: nat, bases: seq<nat>,
                                             area: nat, f: seq<u32> -> seq<u32>)
    requires |s| == |t| == |u| && lo <= |s| && Involutive(f, area)
    requires BlocksMapped(s, t, lo, bases, area, f)
    requires BlocksMapped(t, u, lo, bases, area, f)
    ensures u[lo..] == s[lo..]
    decreases |bases|
  {
    if bases != [] {
      var b := bases[0];
      var e := b + area;
      BlocksMappedHead(s, t, lo, bases, area, f, b, e);
      BlocksMappedHead(t, u, lo, bases, area, f, b, e);
      BlocksMappedTwice(s, t, u, e, bases[1..], area, f);
      var x := s[b .. e];
      assert f(f(x)) == x;
      SameInThree(s, u, lo, b, e);
    }
  }

  /** What mapping a non-empty run of blocks says of its first block. */
  lemma BlocksMappedHead(s: seq<u32>, t: seq<u32>, lo: nat, bases: seq<nat>, area: nat,
                         f: seq<u32> -> seq<u32>, b: nat, e: nat)
    requires |s| == |t| && lo <= |s| && bases != [] && b == bases[0] && e == b + area
    requires BlocksMapped(s, t, lo, bases, area, f)
    ensures lo <= b <= e <= |s|
    ensures t[lo .. b] == s[lo .. b] && t[b .. e] == f(s[b .. e])
    ensures BlocksMapped(s, t, e, bases[1..], area, f)
  {
  }

  /** Sequences that agree on `[lo, b)`, `[b, e)` and from `e` on agree
      from `lo` on. */
  lemma SameInThree(s: seq<u32>, u: seq<u32>, lo: nat, b: nat, e: nat)
    requires lo <= b <= e <= |s| == |u|
    requires u[lo .. b] == s[lo .. b] && u[b .. e] == s[b .. e] && u[e..] == s[e..]
    ensures u[lo..] == s[lo..]
  {
    Split3(u, lo, b, e);
    Split3(s, lo, b, e);
  }

  /** The mapped words are determined by the original ones. */
  lemma {:induction false} BlocksMappedUnique(s: seq<u32>, t: seq<u32>, t': seq<u32>, lo: nat, bases: seq<nat>,
                                              area: nat, f: seq<u32> -> seq<u32>)
    requires |s| == |t| == |t'| && lo <= |s|
    requires BlocksMapped(s, t, lo, bases, area, f)
    requires BlocksMapped(s, t', lo, bases, area, f)
    ensures t[lo..] == t'[lo..]
    decreases |bases|
  {
    if bases != [] {
      var b := bases[0];
      var e := b + area;
      BlocksMappedUnique(s, t, t', e, bases[1..], area, f);
      Split3(t, lo, b, e);
      Split3(t', lo, b, e);
    }
  }

  /** Mapping one more block after the last keeps the relation. */
  lemma {:induction false} BlocksMappedExtend(s: seq<u32>, t: seq<u32>, t2: seq<u32>, lo: nat, bases: seq<nat>,
                                              b: nat, area: nat, f: seq<u32> -> seq<u32>)
    requires |s| == |t| == |t2| && lo <= |s|
    requires BlocksMapped(s, t, lo, bases, area, f)
    requires BlocksEnd(lo, bases, area) <= b && b + area <= |s|
    requires t2[..b] == t[..b] && t2[b + area ..] == t[b + area ..]
    requires t2[b .. b + area] == f(t[b .. b + area])
    ensures BlocksMapped(s, t2, lo, bases + [b], area, f)
    decreases |bases|, 1
  {
    if bases == [] {
      BlocksMappedExtendFirst(s, t, t2, lo, b, area, f);
      assert bases + [b] == [b];
    } else {
      BlocksMappedExtendLater(s, t, t2, lo, bases, b, area, f);
    }
  }

  lemma BlocksMappedExtendFirst(s: seq<u32>, t: seq<u32>, t2: seq<u32>, lo: nat,
                                b: nat, area: nat, f: seq<u32> -> seq<u32>)
    requires |s| == |t| == |t2| && lo <= b && b + area <= |s|
    requires t[lo..] == s[lo..]
    requires t2[..b] == t[..b] && t2[b + area ..] == t[b + area ..]
    requires t2[b .. b + area] == f(t[b .. b + area])
    ensures BlocksMapped(s, t2, lo, [b], area, f)
  {
    var e := b + area;
    SameUpTo(t, t2, b, lo, b);
    SameFrom(s, t, lo, b, e);
    SameFrom(s, t, lo, e, e);
    assert BlocksMapped(s, t2, e, [], area, f);
    assert [b][1..] == [];
  }

  lemma {:induction false} BlocksMappedExtendLater(s: seq<u32>, t: seq<u32>, t2: seq<u32>, lo: nat, bases: seq<nat>,
                                                   b: nat, area: nat, f: seq<u32> -> seq<u32>)
    requires |s| == |t| == |t2| && lo <= |s| && bases != []
    requires BlocksMapped(s, t, lo, bases, area, f)
    requires BlocksEnd(lo, bases, area) <= b && b + area <= |s|
    requires t2[..b] == t[..b] && t2[b + area ..] == t[b + area ..]
    requires t2[b .. b + area] == f(t[b .. b + area])
    ensures BlocksMapped(s, t2, lo, bases + [b], area, f)
    decreases |bases|, 0
  {
    var b0 := bases[0];
    var e0 := b0 + area;
    assert BlocksEnd(e0, bases[1..], area) == BlocksEnd(lo, bases, area);
    BlocksMappedEnd(s, t, e0, bases[1..], area, f);
    BlocksMappedExtend(s, t, t2, e0, bases[1..], b, area, f);
    assert (bases + [b])[0] == b0;
    assert bases[1..] + [b] == (bases + [b])[1..];
    SameUpTo(t, t2, b, lo, b0);
    SameUpTo(t, t2, b, b0, e0);
  }

  /** The mapped blocks lie between `lo` and their end. */
  lemma {:induction false} BlocksMappedEnd(s: seq<u32>, t: seq<u32>, lo: nat, bases: seq<nat>, area: nat,
                                           f: seq<u32> -> seq<u32>)
    requires |s| == |t| && lo <= |s|
    requires BlocksMapped(s, t, lo, bases, area, f)
    ensures lo <= BlocksEnd(lo, bases, area) <= |s|
    decreases |bases|
  {
    if bases != [] {
      BlocksMappedEnd(s, t, bases[0] + area, bases[1..], area, f);
      if |bases| > 1 {
        assert bases[1..][|bases[1..]| - 1] == bases[|bases| - 1];
      }
    }
  }

  lemma BlocksMappedNone(s: seq<u32>, area: nat, f: seq<u32> -> seq<u32>)
    ensures BlocksMapped(s, s, 0, [], area, f)
  {
  }

  // ---------------------------------------------------------------------
  // The in-place loops

  /** Exchanges the `n` words at `p` with the `n` words at `q` through a
      temporary copy (the three `memcpy`s of a line or pixel swap). */
  method SwapRanges(a: array<u32>, p: nat, q: nat, n: nat)
    requires p + n <= q && q + n <= a.Length
    modifies a
    ensures a[p .. p + n] == old(a[q .. q + n]) && a[q .. q + n] == old(a[p .. p + n])
    ensures a[..p] == old(a[..p]) && a[p + n .. q] == old(a[p + n .. q]) && a[q + n ..] == old(a[q + n ..])
  {
    ghost var orig := a[..];
    var temp := a[p .. p + n];
    var k := 0;
    while k < n
      invariant 0 <= k <= n && a.Length == |orig|
      invariant forall j :: 0 <= j < a.Length ==> a[j] == SwappedAt(orig, p, q, k, j)
    {
      a[p + k] := a[q + k];
      a[q + k] := temp[k];
      k := k + 1;
    }
    SwappedSlices(orig, a[..], p, q, n);
  }

  /** The word at `j` once the first `k` words at `p` and at `q` have been
      exchanged. */
  function SwappedAt(orig: seq<u32>, p: nat, q: nat, k: nat, j: nat): u32
    requires p + k <= q && q + k <= |orig| && j < |orig|
  {
    if p <= j < p + k then orig[j - p + q]
    else if q <= j < q + k then orig[j - q + p]
    else orig[j]
  }

  lemma SwappedSlices(orig: seq<u32>, now: seq<u32>, p: nat, q: nat, n: nat)
    requires p + n <= q && q + n <= |orig| == |now|
    requires forall j :: 0 <= j < |now| ==> now[j] == SwappedAt(orig, p, q, n, j)
    ensures now[p .. p + n] == orig[q .. q + n] && now[q .. q + n] == orig[p .. p + n]
    ensures now[..p] == orig[..p] && now[p + n .. q] == orig[p + n .. q] && now[q + n ..] == orig[q + n ..]
  {
  }

  /** Reverses `a[lo .. lo + n]` by swapping its outermost words inwards
      (the left / right pixel pointers of the horizontal flip). */
  method ReverseRange(a: array<u32>, lo: nat, n: nat)
    requires lo + n <= a.Length
    modifies a
    ensures a[lo .. lo + n] == Reverse(old(a[lo .. lo + n]))
    ensures a[..lo] == old(a[..lo]) && a[lo + n ..] == old(a[lo + n ..])
  {
    ghost var orig := a[..];
    var x := 0;
    while x < n / 2
      invariant 0 <= x <= n / 2 && a.Length == |orig|
      invariant forall j :: 0 <= j < a.Length ==> a[j] == ReversedAt(orig, lo, n, x, j)
    {
      var left := a[lo + x];
      a[lo + x] := a[lo + n - 1 - x];
      a[lo + n - 1 - x] := left;
      x := x + 1;
    }
    ReversedSlices(orig, a[..], lo, n, x);
  }

  /** The word at `j` once the outermost `x` words at each end of
      `orig[lo .. lo + n]` have traded places. */
  function ReversedAt(orig: seq<u32>, lo: nat, n: nat, x: nat, j: nat): u32
    requires lo + n <= |orig| && x + x <= n && j < |orig|
  {
    if lo <= j < lo + x then orig[lo + n - 1 - (j - lo)]
    else if lo + n - x <= j < lo + n then orig[lo + n - 1 - (j - lo)]
    else orig[j]
  }

  lemma ReversedSlices(orig: seq<u32>, now: seq<u32>, lo: nat, n: nat, x: nat)
    requires lo + n <= |orig| == |now| && x == n / 2
    requires forall j :: 0 <= j < |now| ==> now[j] == ReversedAt(orig, lo, n, x, j)
    ensures now[lo .. lo + n] == Reverse(orig[lo .. lo + n])
    ensures now[..lo] == orig[..lo] && now[lo + n ..] == orig[lo + n ..]
  {
    var r := Reverse(orig[lo .. lo + n]);
    forall i | 0 <= i < n
      ensures now[lo .. lo + n][i] == r[i]
    {
      assert r[i] == orig[lo .. lo + n][n - 1 - i];
      assert now[lo .. lo + n][i] == now[lo + i];
    }
  }

  /** Reverses the order of the `h` rows of the `w`-wide block at `base`
      (the top / bottom line pointers of the vertical flip). */
  method FlipRows(a: array<u32>, base: nat, w: nat, h: nat)
    requires base + Area(w, h) <= a.Length
    modifies a
    ensures a[base .. base + Area(w, h)] == RevRows(old(a[base .. base + Area(w, h)]), w)
    ensures a[..base] == old(a[..base]) && a[base + Area(w, h) ..] == old(a[base + Area(w, h) ..])
  {
    ghost var orig := a[..];
    ghost var e := base + Area(w, h);
    var i: nat := 0;
    var top: nat := base;
    var mid: nat := base + Area(w, h);
    RowsSwappedStart(orig, base, e, w, h);
    while i < h / 2
      invariant FlipRowsState(orig, a[..], base, e, w, h, i, top, mid)
      decreases h - i
    {
      i, top, mid := SwapRows(a, orig, base, e, w, h, i, top, mid);
    }
    FlipRowsDone(orig, a[..], base, e, w, h, i, top, mid);
  }

  ghost predicate FlipRowsState(orig: seq<u32>, now: seq<u32>, base: nat, e: nat, w: nat, h: nat, i: nat, top: nat, mid: nat)
  {
    && i + i <= h && e == base + Area(w, h)
    && top == base + Area(w, i) && mid == base + Area(w, h - i)
    && RowsSwapped(orig, now, base, e, w, top, mid)
  }

  /** One step of the vertical flip: the rows at `top` and `bottom` trade
      places. */
  method SwapRows(a: array<u32>, ghost orig: seq<u32>, ghost base: nat, ghost e: nat, w: nat, ghost h: nat,
                  i: nat, top: nat, mid: nat) returns (i2: nat, top2: nat, mid2: nat)
    requires i < h / 2 && FlipRowsState(orig, a[..], base, e, w, h, i, top, mid)
    modifies a
    ensures i2 == i + 1 && FlipRowsState(orig, a[..], base, e, w, h, i2, top2, mid2)
  {
    FlipRowsBounds(base, w, h, i);
    ghost var before := a[..];
    i2, top2, mid2 := i + 1, top + w, mid - w;
    SwapRanges(a, top, mid2, w);
    FlipRowsStep(orig, before, a[..], base, e, w, h, i, top, top2, mid2, mid);
  }

  lemma RowsSwappedStart(orig: seq<u32>, base: nat, e: nat, w: nat, h: nat)
    requires e == base + Area(w, h) <= |orig|
    ensures FlipRowsState(orig, orig, base, e, w, h, 0, base, base + Area(w, h))
  {
  }

  /** The state of the vertical flip once the rows before `top` and from
      `mid` on have traded places. */
  ghost predicate RowsSwapped(orig: seq<u32>, now: seq<u32>, base: nat, e: nat, w: nat, top: nat, mid: nat)
  {
    && base <= top <= mid <= e <= |orig| == |now|
    && now[..base] == orig[..base] && now[e..] == orig[e..]
    && now[top .. mid] == orig[top .. mid]
    && now[base .. top] == RevRows(orig[mid .. e], w)
    && now[mid .. e] == RevRows(orig[base .. top], w)
  }

  lemma FlipRowsBounds(base: nat, w: nat, h: nat, i: nat)
    requires i < h / 2
    ensures Area(w, i + 1) + w <= Area(w, h - i)
    ensures Area(w, i + 1) == Area(w, i) + w && Area(w, h - i) == Area(w, h - (i + 1)) + w
  {
    AreaSucc(w, i);
    AreaRow(w, i + 1, h - i);
  }

  /** What one swap of a top and a bottom row does to the slices of the
      loop invariant. */
  lemma RowsSwapSlices(orig: seq<u32>, before: seq<u32>, after: seq<u32>, base: nat, e: nat, w: nat,
                       top: nat, top2: nat, bottom: nat, mid: nat)
    requires top2 == top + w && mid == bottom + w
    requires base <= top && top2 <= bottom && mid <= e <= |orig| == |before| == |after|
    requires before[..base] == orig[..base] && before[e..] == orig[e..]
    requires before[top .. mid] == orig[top .. mid]
    requires after[top .. top + w] == before[bottom .. bottom + w] && after[bottom .. bottom + w] == before[top .. top + w]
    requires after[..top] == before[..top] && after[top + w .. bottom] == before[top + w .. bottom]
    requires after[bottom + w ..] == before[bottom + w ..]
    ensures after[..base] == orig[..base] && after[e..] == orig[e..]
    ensures after[top2 .. bottom] == orig[top2 .. bottom]
    ensures after[base .. top2] == before[base .. top] + orig[bottom .. mid]
    ensures after[bottom .. e] == orig[top .. top2] + before[mid .. e]
  {
    SameRange(orig, before, top, mid, top, top2);
    SameRange(orig, before, top, mid, bottom, mid);
    SameRange(orig, before, top, mid, top2, bottom);
    SamePrefix(before, after, top, base);
    SameFrom(before, after, mid, e, e);
    Concat2(after, base, top, top2);
    SameUpTo(before, after, top, base, top);
    Concat2(after, bottom, mid, e);
    SameFrom(before, after, mid, mid, e);
  }

  lemma FlipRowsStep(orig: seq<u32>, before: seq<u32>, after: seq<u32>, base: nat, e: nat, w: nat, h: nat,
                     i: nat, top: nat, top2: nat, bottom: nat, mid: nat)
    requires i < h / 2 && e <= |orig| == |before| == |after|
    requires top == base + Area(w, i) && mid == base + Area(w, h - i) && e == base + Area(w, h)
    requires top2 == top + w && mid == bottom + w && top2 <= bottom
    requires RowsSwapped(orig, before, base, e, w, top, mid)
    requires after[top .. top + w] == before[bottom .. bottom + w] && after[bottom .. bottom + w] == before[top .. top + w]
    requires after[..top] == before[..top] && after[top + w .. bottom] == before[top + w .. bottom]
    requires after[bottom + w ..] == before[bottom + w ..]
    ensures RowsSwapped(orig, after, base, e, w, top2, bottom)
  {
    AreaAdd(w, h - i, i, h);
    RowsSwapSlices(orig, before, after, base, e, w, top, top2, bottom, mid);
    RevRowsPeelFront(orig, bottom, mid, e, w, i);
    RevRowsPeelBack(orig, base, top, top2, w, i);
  }

  lemma FlipRowsDone(orig: seq<u32>, now: seq<u32>, base: nat, e: nat, w: nat, h: nat, i: nat, top: nat, mid: nat)
    requires !(i < h / 2) && FlipRowsState(orig, now, base, e, w, h, i, top, mid)
    ensures now[base .. e] == RevRows(orig[base .. e], w)
    ensures now[..base] == orig[..base] && now[e..] == orig[e..]
  {
    AreaAdd(w, i, h - i - i, h - i);
    AreaAdd(w, h - i, i, h);
    Concat3(now, base, top, mid, e);
    RevRowsSplit3(orig, base, top, mid, e, w, i, h - i - i, i);
  }

  lemma Concat3(s: seq<u32>, a: nat, b: nat, c: nat, d: nat)
    requires a <= b <= c <= d <= |s|
    ensures s[a .. d] == s[a .. b] + s[b .. c] + s[c .. d]
  {
  }

  /** Reverses every row of the `h`-row, `w`-wide block at `base` (the
      horizontal flip). */
  method FlipCols(a: array<u32>, base: nat, w: nat, h: nat)
    requires base + Area(w, h) <= a.Length
    modifies a
    ensures a[base .. base + Area(w, h)] == RevEach(old(a[base .. base + Area(w, h)]), w)
    ensures a[..base] == old(a[..base]) && a[base + Area(w, h) ..] == old(a[base + Area(w, h) ..])
  {
    ghost var orig := a[..];
    var y := 0;
    var left := base;
    while y < h
      invariant 0 <= y <= h && left == base + Area(w, y)
      invariant left <= base + Area(w, h) && a.Length == |orig|
      invariant RowsReversed(orig, a[..], base, left, w)
    {
      AreaRow(w, y, h);
      left := ReverseRow(a, orig, base, w, y, left);
      y := y + 1;
    }
  }

  /** The state of the horizontal flip once the rows before `left` are
      reversed. */
  ghost predicate RowsReversed(orig: seq<u32>, now: seq<u32>, base: nat, left: nat, w: nat) {
    && base <= left <= |orig| == |now|
    && now[..base] == orig[..base] && now[left..] == orig[left..]
    && now[base .. left] == RevEach(orig[base .. left], w)
  }

  /** One step of the horizontal flip: the row at `left` is reversed. */
  method ReverseRow(a: array<u32>, ghost orig: seq<u32>, ghost base: nat, w: nat, ghost y: nat, left: nat)
    returns (left2: nat)
    requires left == base + Area(w, y) && left + w <= a.Length == |orig|
    requires RowsReversed(orig, a[..], base, left, w)
    modifies a
    ensures left2 == left + w && RowsReversed(orig, a[..], base, left2, w)
  {
    ghost var before := a[..];
    left2 := left + w;
    ReverseRange(a, left, w);
    FlipColsStep(orig, before, a[..], base, left, left2, w, y);
  }

  /** What reversing one more row does to the slices of the loop invariant. */
  lemma ColsStepSlices(orig: seq<u32>, before: seq<u32>, after: seq<u32>, base: nat, left: nat, left2: nat, w: nat)
    requires left2 == left + w && base <= left && left2 <= |orig| == |before| == |after|
    requires before[..base] == orig[..base] && before[left..] == orig[left..]
    requires after[left .. left + w] == Reverse(before[left .. left + w])
    requires after[..left] == before[..left] && after[left + w ..] == before[left + w ..]
    ensures after[..base] == orig[..base] && after[left2..] == orig[left2..]
    ensures after[base .. left2] == before[base .. left] + Reverse(orig[left .. left2])
  {
    SamePrefix(before, after, left, base);
    SameFrom(orig, before, left, left, left2);
    SameFrom(orig, before, left, left2, left2);
    Concat2(after, base, left, left2);
    SameUpTo(before, after, left, base, left);
  }

  lemma FlipColsStep(orig: seq<u32>, before: seq<u32>, after: seq<u32>, base: nat, left: nat, left2: nat,
                     w: nat, y: nat)
    requires left == base + Area(w, y) && left2 == left + w && left2 <= |orig| == |before| == |after|
    requires RowsReversed(orig, before, base, left, w)
    requires after[left .. left + w] == Reverse(before[left .. left + w])
    requires after[..left] == before[..left] && after[left + w ..] == before[left + w ..]
    ensures RowsReversed(orig, after, base, left2, w)
  {
    ColsStepSlices(orig, before, after, base, left, left2, w);
    RevEachPush(orig, base, left, left2, w, y);
  }

  /** The flip of a block, vertical or horizontal. */
  method FlipBlock(a: array<u32>, base: nat, w: nat, h: nat, vertical: bool)
    requires base + Area(w, h) <= a.Length
    modifies a
    ensures a[base .. base + Area(w, h)] == Flip(old(a[base .. base + Area(w, h)]), w, vertical)
    ensures a[..base] == old(a[..base]) && a[base + Area(w, h) ..] == old(a[base + Area(w, h) ..])
  {
    if vertical {
      FlipRows(a, base, w, h);
    } else {
      FlipCols(a, base, w, h);
    }
  }

  /** Block `c` of the mapped ones is `f` of the same block of `s`. */
  lemma {:induction false} BlocksMappedAt(s: seq<u32>, t: seq<u32>, lo: nat, bases: seq<nat>, area: nat,
                                          f: seq<u32> -> seq<u32>, c: nat)
    requires |s| == |t| && lo <= |s| && c < |bases|
    requires BlocksMapped(s, t, lo, bases, area, f)
    ensures bases[c] + area <= |s| && t[bases[c] .. bases[c] + area] == f(s[bases[c] .. bases[c] + area])
    decreases c
  {
    if c > 0 {
      BlocksMappedAt(s, t, bases[0] + area, bases[1..], area, f, c - 1);
    }
  }

  /** `BlocksMappedAt` with the block's bounds named. */
  lemma BlockMappedAt(s: seq<u32>, t: seq<u32>, bases: seq<nat>, area: nat, f: seq<u32> -> seq<u32>,
                      c: nat, b: nat, e: nat)
    requires |s| == |t| && c < |bases| && b == bases[c] && e == b + area
    requires BlocksMapped(s, t, 0, bases, area, f)
    ensures e <= |s| && t[b .. e] == f(s[b .. e])
  {
    BlocksMappedAt(s, t, 0, bases, area, f, c);
  }

  /** Flips block `c` of `bases`, the next one after those already flipped. */
  method FlipNextBlock(a: array<u32>, ghost orig: seq<u32>, ghost bases: seq<nat>, c: nat, base: nat,
                       w: nat, h: nat, vertical: bool) returns (c2: nat)
    requires c < |bases| && base == bases[c] && a.Length == |orig|
    requires BlocksEnd(0, bases[..c], Area(w, h)) <= base && base + Area(w, h) <= a.Length
    requires BlocksMapped(orig, a[..], 0, bases[..c], Area(w, h), FlipOf(w, vertical))
    modifies a
    ensures c2 == c + 1 && BlocksMapped(orig, a[..], 0, bases[..c2], Area(w, h), FlipOf(w, vertical))
  {
    ghost var before := a[..];
    FlipBlock(a, base, w, h, vertical);
    c2 := c + 1;
    FlippedOneMore(orig, before, a[..], bases[..c], base, w, h, vertical);
    TakeOneMore(bases, c, c2);
  }

  lemma FlippedOneMore(orig: seq<u32>, before: seq<u32>, after: seq<u32>, done: seq<nat>,
                       base: nat, w: nat, h: nat, vertical: bool)
    requires |before| == |orig| == |after|
    requires BlocksEnd(0, done, Area(w, h)) <= base && base + Area(w, h) <= |before|
    requires BlocksMapped(orig, before, 0, done, Area(w, h), FlipOf(w, vertical))
    requires after[base .. base + Area(w, h)] == Flip(before[base .. base + Area(w, h)], w, vertical)
    requires after[..base] == before[..base] && after[base + Area(w, h) ..] == before[base + Area(w, h) ..]
    ensures BlocksMapped(orig, after, 0, done + [base], Area(w, h), FlipOf(w, vertical))
  {
    FlipOfApply(w, vertical, before[base .. base + Area(w, h)]);
    BlocksMappedExtend(orig, before, after, 0, done, base, Area(w, h), FlipOf(w, vertical));
  }

  lemma FlipOfApply(w: nat, vertical: bool, x: seq<u32>)
    ensures FlipOf(w, vertical)(x) == Flip(x, w, vertical)
  {
  }

  lemma TakeOneMore(bases: seq<nat>, c: nat, c2: nat)
    requires c < |bases| && c2 == c + 1
    ensures bases[..c] + [bases[c]] == bases[..c2]
  {
  }

  /** Flipping the same blocks twice, in the same direction, gives back the
      words one started with. */
  lemma FlipBlocksTwice(s: seq<u32>, t: seq<u32>, u: seq<u32>, bases: seq<nat>, w: nat, h: nat, vertical: bool)
    requires |s| == |t| == |u|
    requires BlocksMapped(s, t, 0, bases, Area(w, h), FlipOf(w, vertical))
    requires BlocksMapped(t, u, 0, bases, Area(w, h), FlipOf(w, vertical))
    ensures u == s
  {
    FlipOfInvolutive(w, h, vertical);
    BlocksMappedTwice(s, t, u, 0, bases, Area(w, h), FlipOf(w, vertical));
    assert u[0..] == u && s[0..] == s;
  }

  // ---------------------------------------------------------------------
  // Copying planes

  /** Copies `n` words from `src` at `sb` to `dst` at `db` (a `memcpy`). */
  method CopyWords(dst: array<u32>, db: nat, src: array<u32>, sb: nat, n: nat)
    requires dst != src && db + n <= dst.Length && sb + n <= src.Length
    modifies dst
    ensures forall j :: 0 <= j < dst.Length ==> dst[j] == (if db <= j < db + n then src[sb + (j - db)] else old(dst[j]))
  {
    var k := 0;
    while k < n
      invariant 0 <= k <= n
      invariant forall j :: 0 <= j < dst.Length ==> dst[j] == (if db <= j < db + k then src[sb + (j - db)] else old(dst[j]))
    {
      dst[db + k] := src[sb + k];
      k := k + 1;
    }
  }

  /** Word `j` of four planes of `p` words once the first `c` of the four
      planes of `n` words of `src` have been copied to offset `off` of their
      planes (`off + n <= p`). */
  function PastedAt(orig: seq<u32>, src: seq<u32>, p: nat, n: nat, off: nat, c: nat, j: nat): u32
    requires j < |orig| && |src| == n + n + n + n
  {
    if c > 0 && off <= j < off + n then src[j - off]
    else if c > 1 && p + off <= j < p + off + n then src[n + (j - p - off)]
    else if c > 2 && p + p + off <= j < p + p + off + n then src[n + n + (j - p - p - off)]
    else if c > 3 && p + p + p + off <= j < p + p + p + off + n then src[n + n + n + (j - p - p - p - off)]
    else orig[j]
  }

  /** Copying plane `c` of `src` takes the pasted state from `c` planes to
      `c + 1`. */
  lemma PasteStep(orig: seq<u32>, src: seq<u32>, before: seq<u32>, after: seq<u32>,
                  p: nat, n: nat, off: nat, c: nat, db: nat, sb: nat)
    requires c < 4 && off + n <= p && |src| == n + n + n + n && |orig| == |before| == |after|
    requires db == PlaneStart(p, c) + off && sb == PlaneStart(n, c)
    requires forall j :: 0 <= j < |before| ==> before[j] == PastedAt(orig, src, p, n, off, c, j)
    requires forall j :: 0 <= j < |after| ==> after[j] == (if db <= j < db + n then src[sb + (j - db)] else before[j])
    ensures forall j :: 0 <= j < |after| ==> after[j] == PastedAt(orig, src, p, n, off, c + 1, j)
  {
  }

  /** Copies plane `c` of the four planes of `src`, `n` words each, to `off`
      words into plane `c` of the four planes of `dst`, `p` words each. */
  method PasteChannel(dst: array<u32>, src: array<u32>, ghost orig: seq<u32>, p: nat, n: nat, off: nat, c: nat)
    requires dst != src && c < 4 && off + n <= p && src.Length == n + n + n + n
    requires dst.Length == |orig| == p + p + p + p
    requires forall j :: 0 <= j < dst.Length ==> dst[j] == PastedAt(orig, src[..], p, n, off, c, j)
    modifies dst
    ensures forall j :: 0 <= j < dst.Length ==> dst[j] == PastedAt(orig, src[..], p, n, off, c + 1, j)
  {
    ghost var before := dst[..];
    CopyWords(dst, PlaneStart(p, c) + off, src, PlaneStart(n, c), n);
    PasteStep(orig, src[..], before, dst[..], p, n, off, c, PlaneStart(p, c) + off, PlaneStart(n, c));
  }

  /** After all four planes are copied, plane `c`'s slice at `off` holds
      plane `c` of `src`. */
  lemma PastedPlane(orig: seq<u32>, src: seq<u32>, p: nat, n: nat, off: nat, c: nat)
    requires c < 4 && off + n <= p && |orig| == p + p + p + p && |src| == n + n + n + n
    ensures forall j :: PlaneStart(p, c) + off <= j < PlaneStart(p, c) + off + n ==>
              PastedAt(orig, src, p, n, off, 4, j) == src[PlaneStart(n, c) + (j - PlaneStart(p, c) - off)]
  {
  }

  /** After all four planes are copied, every word outside the four slices is
      the original one. */
  lemma PastedOutside(orig: seq<u32>, src: seq<u32>, p: nat, n: nat, off: nat)
    requires off + n <= p && |orig| == p + p + p + p && |src| == n + n + n + n
    ensures forall j :: 0 <= j < |orig| && !InSlices(p, n, off, j) ==> PastedAt(orig, src, p, n, off, 4, j) == orig[j]
  {
    forall j | 0 <= j < |orig| && !InSlices(p, n, off, j)
      ensures PastedAt(orig, src, p, n, off, 4, j) == orig[j]
    {
      assert !(PlaneStart(p, 0) + off <= j < PlaneStart(p, 0) + off + n);
      assert !(PlaneStart(p, 1) + off <= j < PlaneStart(p, 1) + off + n);
      assert !(PlaneStart(p, 2) + off <= j < PlaneStart(p, 2) + off + n);
      assert !(PlaneStart(p, 3) + off <= j < PlaneStart(p, 3) + off + n);
    }
  }

  /** Word `j` lies in the slice at `off` of one of four planes of `p` words. */
  predicate InSlices(p: nat, n: nat, off: nat, j: nat) {
    exists c :: 0 <= c < 4 && PlaneStart(p, c) + off <= j < PlaneStart(p, c) + off + n
  }

  // ---------------------------------------------------------------------
  // The float scrub

  /** The mask the scrub tests: bits 24 to 30 of the word. */
  const SCRUB_MASK: bv32 := 0x7f00_0000
  /** The exponent field of an IEEE single: bits 23 to 30. */
  const EXPONENT_MASK: bv32 := 0x7f80_0000

  /** The scrub's test: all seven bits under the mask are set. */
  predicate Scrubs(x: u32) {
    (x as bv32) & SCRUB_MASK == SCRUB_MASK
  }

  /** The bit pattern of an IEEE single infinity or NaN: all exponent bits set. */
  predicate IsInfOrNan(x: u32) {
    (x as bv32) & EXPONENT_MASK == EXPONENT_MASK
  }

  function ScrubWord(x: u32): u32 {
    if Scrubs(x) then 0 else x
  }

  function Scrubbed(s: seq<u32>): (r: seq<u32>)
    ensures |r| == |s|
  {
    seq(|s|, i requires 0 <= i < |s| => ScrubWord(s[i]))
  }

  /** Scrubs the four planes of `n` words each of one face together, word `i`
      of each plane in the same step (the red, green, blue and alpha pointers
      of the float clean-up). */
  method ScrubPlanes(a: array<u32>, n: nat)
    requires a.Length == Area(n, 4)
    modifies a
    ensures a[..] == Scrubbed(old(a[..]))
  {
    ghost var orig := a[..];
    FourPlanes(n);
    var i := 0;
    while i < n
      invariant 0 <= i <= n && a.Length == |orig|
      invariant ScrubbedSoFar(orig, a[..], n, i, 0)
    {
      ScrubColumn(a, orig, n, i);
      i := i + 1;
    }
    AllScrubbed(orig, a[..], n);
  }

  /** Scrubs word `i` of each of the four planes. */
  method ScrubColumn(a: array<u32>, ghost orig: seq<u32>, n: nat, i: nat)
    requires i < n && a.Length == n + n + n + n
    requires ScrubbedSoFar(orig, a[..], n, i, 0)
    modifies a
    ensures ScrubbedSoFar(orig, a[..], n, i + 1, 0)
  {
    ScrubAt(a, orig, n, i, 0, i);
    ScrubAt(a, orig, n, i, 1, n + i);
    ScrubAt(a, orig, n, i, 2, n + n + i);
    ScrubAt(a, orig, n, i, 3, n + n + n + i);
    NextWord(orig, a[..], n, i);
  }

  lemma FourPlanes(n: nat)
    ensures Area(n, 4) == n + n + n + n
  {
  }

  /** Word `j` of four planes of `n` words has been scrubbed once the first
      `i` words of every plane and word `i` of the first `p` planes have. */
  predicate Done(n: nat, i: nat, p: nat, j: nat) {
    || j < i + (if p > 0 then 1 else 0)
    || n <= j < n + i + (if p > 1 then 1 else 0)
    || n + n <= j < n + n + i + (if p > 2 then 1 else 0)
    || n + n + n <= j < n + n + n + i + (if p > 3 then 1 else 0)
  }

  ghost predicate ScrubbedSoFar(orig: seq<u32>, now: seq<u32>, n: nat, i: nat, p: nat) {
    && |now| == |orig|
    && forall j :: 0 <= j < |now| ==> now[j] == (if Done(n, i, p, j) then ScrubWord(orig[j]) else orig[j])
  }

  /** Where plane `p` of four planes of `n` words starts. */
  function PlaneStart(n: nat, p: nat): nat {
    if p == 0 then 0 else if p == 1 then n else if p == 2 then n + n else n + n + n
  }

  /** Scrubs word `i` of plane `p`, at `k`. */
  method ScrubAt(a: array<u32>, ghost orig: seq<u32>, n: nat, i: nat, p: nat, k: nat)
    requires i < n && p < 4 && k == PlaneStart(n, p) + i && a.Length == n + n + n + n
    requires ScrubbedSoFar(orig, a[..], n, i, p)
    modifies a
    ensures ScrubbedSoFar(orig, a[..], n, i, p + 1)
  {
    if Scrubs(a[k]) {
      a[k] := 0;
    }
  }

  lemma NextWord(orig: seq<u32>, now: seq<u32>, n: nat, i: nat)
    requires ScrubbedSoFar(orig, now, n, i, 4)
    ensures ScrubbedSoFar(orig, now, n, i + 1, 0)
  {
  }

  lemma AllScrubbed(orig: seq<u32>, now: seq<u32>, n: nat)
    requires |orig| == n + n + n + n && ScrubbedSoFar(orig, now, n, n, 0)
    ensures now == Scrubbed(orig)
  {
    assert forall j :: 0 <= j < |now| ==> now[j] == Scrubbed(orig)[j];
  }

  /** Every infinity and NaN is caught, no word is left that the test would
      catch, and every other word is kept where it was. */
  lemma ScrubbedWords(s: seq<u32>)
    ensures forall i :: 0 <= i < |s| && IsInfOrNan(s[i]) ==> Scrubbed(s)[i] == 0
    ensures forall i :: 0 <= i < |s| ==> !Scrubs(Scrubbed(s)[i])
    ensures forall i :: 0 <= i < |s| && !Scrubs(s[i]) ==> Scrubbed(s)[i] == s[i]
  {
    forall i | 0 <= i < |s| && IsInfOrNan(s[i])
      ensures Scrubs(s[i])
    {
      InfOrNanIsScrubbed(s[i]);
    }
  }

  lemma InfOrNanIsScrubbed(x: u32)
    requires IsInfOrNan(x)
    ensures Scrubs(x)
  {
    var v := x as bv32;
    assert v & SCRUB_MASK == (v & EXPONENT_MASK) & SCRUB_MASK;
  }

  /** Scrubbing twice is scrubbing once. */
  lemma ScrubbedIdempotent(s: seq<u32>)
    ensures Scrubbed(Scrubbed(s)) == Scrubbed(s)
  {
    assert forall i :: 0 <= i < |s| ==> Scrubbed(Scrubbed(s))[i] == Scrubbed(s)[i];
  }

  /** The test is wider than its comment: it also zeroes the finite singles
      whose exponent is 254, the largest ones, such as 2^127 = 0x7f000000. */
  lemma ScrubCatchesLargestFinite()
    ensures Scrubs(0x7f00_0000) && !IsInfOrNan(0x7f00_0000)
    ensures ScrubWord(0x7f00_0000) == 0
  {
  }
}
