/** The storage of a texture: up to six faces, each one allocation holding the
    four float planes (red, green, blue, alpha) one after the other, and the
    in-place operations on it (flips, float clean-up, face insertion). */
module Textures {
  import opened Machine
  import opened Planes

  /** The depth of a plain 2D texture. */
  const TWO_D_DEPTH: nat := 1
  /** The depth that marks a cube map. */
  const CUBE_DEPTH: nat := 0
  const CUBE_NUM_FACES: nat := 6
  const NUM_TEXTURE_CHANNELS: nat := 4
  /** `sizeof(f32)`: the byte sizes of the engine count four bytes a word. */
  const F32_BYTES: nat := 4

  /** A texture's storage. `faces[k]` is the allocation behind
      `m_Channels[k][R]` (null for a missing face); the other three channel
      pointers of a face point into the same allocation, one plane apart. */
  class Texture {
    var width: u32
    var height: u32
    var depth: u32
    var format: nat
    /** `m_DataSize`: the bytes of one face allocation. */
    var dataSize: nat
    var faces: seq<array?<u32>>

    /** The words of one channel of one 2D slice. */
    function SliceWords(): nat
      reads this
    {
      Area(width, height)
    }

    /** The slices of each plane: the depth of a volume, one otherwise. */
    function Layers(): nat
      reads this
    {
      if depth == CUBE_DEPTH then 1 else depth
    }

    /** The words of one channel plane. */
    function PlaneWords(): nat
      reads this
    {
      Area(SliceWords(), Layers())
    }

    /** The words of one face allocation: four planes. */
    function FaceWords(): nat
      reads this
    {
      Area(PlaneWords(), NUM_TEXTURE_CHANNELS)
    }

    predicate IsVolume()
      reads this
    {
      depth > TWO_D_DEPTH
    }

    /** The face allocations that exist. */
    ghost function Storage(): set<array?<u32>>
      reads this
    {
      set k | 0 <= k < |faces| && faces[k] != null :: faces[k]
    }

    ghost predicate Valid()
      reads this
    {
      && |faces| == CUBE_NUM_FACES && faces[0] != null
      && (forall k :: 0 <= k < |faces| && faces[k] != null ==> faces[k].Length == FaceWords())
      && (forall k, l :: 0 <= k < l < |faces| && faces[k] != null ==> faces[k] != faces[l])
      && (IsVolume() ==> forall k :: 1 <= k < |faces| ==> faces[k] == null)
      && dataSize == Area(FaceWords(), F32_BYTES)
    }

    /** `face` names a face the texture can address: a slice of a volume, or
        one of the six faces of a 2D texture or cube map. */
    predicate FaceIndexOk(face: nat)
      reads this
    {
      if IsVolume() then face < depth else face < CUBE_NUM_FACES
    }

    /** The allocation holding `face`. */
    function FaceArray(face: nat): array?<u32>
      requires |faces| == CUBE_NUM_FACES && FaceIndexOk(face)
      reads this
    {
      if IsVolume() then faces[0] else faces[face]
    }

    /** The slice of each plane that `face` is. */
    function SliceIndex(face: nat): nat
      reads this
    {
      if IsVolume() then face else 0
    }

    /** Where channel `c` of `face` starts in its allocation. */
    function PlaneBase(face: nat, c: nat): nat
      reads this
    {
      PlaneStart(PlaneWords(), c) + Area(SliceWords(), SliceIndex(face))
    }

    /** Where the four channels of `face` start, red first. */
    function FaceBases(face: nat): (r: seq<nat>)
      reads this
      ensures |r| == NUM_TEXTURE_CHANNELS
    {
      [PlaneBase(face, 0), PlaneBase(face, 1), PlaneBase(face, 2), PlaneBase(face, 3)]
    }

    /** `GetFacePtr(face, c)` is not null. */
    predicate HasFace(face: nat)
      reads this
    {
      |faces| == CUBE_NUM_FACES && FaceIndexOk(face) && FaceArray(face) != null
    }

    /** A 2D texture: one face of four `w` by `h` planes. */
    constructor Make2D(w: u32, h: u32, fmt: nat)
      ensures Valid() && !IsVolume()
      ensures width == w && height == h && depth == TWO_D_DEPTH && format == fmt
      ensures fresh(faces[0]) && forall k :: 1 <= k < |faces| ==> faces[k] == null
    {
      width, height, depth, format := w, h, TWO_D_DEPTH, fmt;
      var n := Area(Area(Area(w, h), 1), NUM_TEXTURE_CHANNELS);
      dataSize := Area(n, F32_BYTES);
      var store := new u32[n];
      faces := [store, null, null, null, null, null];
    }

    /** A texture of depth `d`: six faces when `d` is zero (a cube map),
        otherwise one face whose planes hold `d` slices each. */
    constructor Make(w: u32, h: u32, d: u32, fmt: nat)
      ensures Valid()
      ensures width == w && height == h && depth == d && format == fmt
      ensures fresh(faces[0])
      ensures d == CUBE_DEPTH ==> forall k :: 0 <= k < |faces| ==> faces[k] != null && fresh(faces[k])
      ensures d != CUBE_DEPTH ==> forall k :: 1 <= k < |faces| ==> faces[k] == null
    {
      var n := Area(Area(Area(w, h), if d == CUBE_DEPTH then 1 else d), NUM_TEXTURE_CHANNELS);
      var first := new u32[n];
      var fs: seq<array?<u32>> := [first];
      var i := 1;
      while i < CUBE_NUM_FACES
        invariant 1 <= i <= CUBE_NUM_FACES && |fs| == i && fs[0] == first
        invariant forall k :: 0 <= k < i && fs[k] != null ==> fs[k].Length == n
        invariant forall k, l :: 0 <= k < l < i && fs[k] != null ==> fs[k] != fs[l]
        invariant d == CUBE_DEPTH ==> forall k :: 0 <= k < i ==> fs[k] != null && fresh(fs[k])
        invariant d != CUBE_DEPTH ==> forall k :: 1 <= k < i ==> fs[k] == null
      {
        if d == CUBE_DEPTH {
          var next := new u32[n];
          fs := fs + [next];
        } else {
          fs := fs + [null];
        }
        i := i + 1;
      }
      width, height, depth, format := w, h, d, fmt;
      dataSize := Area(n, F32_BYTES);
      faces := fs;
    }

    /** The four channel planes of `face` lie one after the other, a slice
        apart at least, inside the face's allocation. */
    lemma PlaneInside(face: nat, c: nat)
      requires Valid() && FaceIndexOk(face) && c < NUM_TEXTURE_CHANNELS
      ensures BlocksEnd(0, FaceBases(face)[..c], SliceWords()) <= PlaneBase(face, c)
      ensures PlaneBase(face, c) + SliceWords() <= FaceWords()
    {
      AreaRow(SliceWords(), SliceIndex(face), Layers());
      FourPlanes(PlaneWords());
    }

    /** Flips, in place, the `width` by `height` slice of each channel of
        `face`, vertically or horizontally (the channel loop shared by
        `FlipVertical` and `FlipHorizontal`). */
    method FlipChannels(face: nat, vertical: bool)
      requires Valid() && HasFace(face)
      modifies FaceArray(face)
      ensures BlocksMapped(old(FaceArray(face)[..]), FaceArray(face)[..], 0, FaceBases(face), SliceWords(),
                           FlipOf(width, vertical))
    {
      var a := FaceArray(face);
      ghost var orig := a[..];
      ghost var bases := FaceBases(face);
      BlocksMappedNone(orig, Area(width, height), FlipOf(width, vertical));
      var c: nat := 0;
      while c < NUM_TEXTURE_CHANNELS
        invariant c <= NUM_TEXTURE_CHANNELS && a.Length == |orig|
        invariant BlocksMapped(orig, a[..], 0, bases[..c], Area(width, height), FlipOf(width, vertical))
      {
        PlaneInside(face, c);
        c := FlipNextBlock(a, orig, bases, c, PlaneBase(face, c), width, height, vertical);
      }
      assert bases[..NUM_TEXTURE_CHANNELS] == bases;
    }

    /** When the blocks of a face are each mapped by `f` (as `FlipVertical`
        and `FlipHorizontal` map them by `FlipOf(width, true)` and
        `FlipOf(width, false)`), channel `c` of the face becomes `f` of the
        former channel: the flip of a channel never spills into another.
        `bases`, `b` and `area` name the face's channel starts, channel
        `c`'s start and the words of one slice. */
    lemma ChannelMapped(s: seq<u32>, t: seq<u32>, face: nat, c: nat, f: seq<u32> -> seq<u32>,
                        bases: seq<nat>, b: nat, area: nat)
      requires bases == FaceBases(face) && b == PlaneBase(face, c) && area == SliceWords()
      requires |s| == |t| && BlocksMapped(s, t, 0, bases, area, f)
      requires c < NUM_TEXTURE_CHANNELS
      ensures b + area <= |s|
      ensures t[b .. b + area] == f(s[b .. b + area])
    {
      FaceBaseAt(face, c);
      BlockMappedAt(s, t, bases, area, f, c, b, b + area);
    }

    lemma FaceBaseAt(face: nat, c: nat)
      requires c < NUM_TEXTURE_CHANNELS
      ensures FaceBases(face)[c] == PlaneBase(face, c)
    {
    }

    /** Turns each channel of `face` upside down: row `y` of a slice takes
        the former row `height - 1 - y`. */
    method FlipVertical(face: nat)
      requires Valid() && HasFace(face)
      modifies FaceArray(face)
      ensures BlocksMapped(old(FaceArray(face)[..]), FaceArray(face)[..], 0, FaceBases(face), SliceWords(),
                           FlipOf(width, true))
    {
      FlipChannels(face, true);
    }

    /** Mirrors each channel of `face`: pixel `x` of each row takes the
        former pixel `width - 1 - x`. */
    method FlipHorizontal(face: nat)
      requires Valid() && HasFace(face)
      modifies FaceArray(face)
      ensures BlocksMapped(old(FaceArray(face)[..]), FaceArray(face)[..], 0, FaceBases(face), SliceWords(),
                           FlipOf(width, false))
    {
      FlipChannels(face, false);
    }

    /** Zeroes, in every face present, the words the float scrub catches
        (infinities, NaNs and the largest finite singles), over all four
        planes of `width * height * max(depth, 1)` words. */
    method CleanFloatData()
      requires Valid()
      modifies Storage()
      ensures forall k :: 0 <= k < |faces| && faces[k] != null ==> faces[k][..] == Scrubbed(old(faces[k][..]))
    {
      var f := 0;
      while f < CUBE_NUM_FACES
        invariant f <= CUBE_NUM_FACES
        invariant forall k :: 0 <= k < f && faces[k] != null ==> faces[k][..] == Scrubbed(old(faces[k][..]))
        invariant forall k :: f <= k < |faces| && faces[k] != null ==> faces[k][..] == old(faces[k][..])
      {
        if faces[f] != null {
          ScrubFace(f);
        }
        f := f + 1;
      }
    }

    /** Scrubs face `f`; the other faces, held in other allocations, are
        left as they were. */
    method ScrubFace(f: nat)
      requires Valid() && f < CUBE_NUM_FACES && faces[f] != null
      modifies faces[f]
      ensures faces[f][..] == Scrubbed(old(faces[f][..]))
      ensures forall k :: 0 <= k < |faces| && k != f && faces[k] != null ==> faces[k][..] == old(faces[k][..])
    {
      ScrubPlanes(faces[f], PlaneWords());
    }

    /** `tex` can be inserted as a face: a 2D texture of the same width,
        height and format. */
    predicate Accepts(tex: Texture)
      reads this, tex
    {
      tex.depth == TWO_D_DEPTH && tex.width == width && tex.height == height && tex.format == format
    }

    /** The sizes of an accepted texture's one face: four planes of one
        slice each. */
    lemma AcceptedSizes(tex: Texture)
      requires Valid() && tex.Valid() && Accepts(tex)
      ensures tex.faces[0].Length == Area(SliceWords(), 4) == SliceWords() + SliceWords() + SliceWords() + SliceWords()
      ensures !IsVolume() ==> tex.faces[0].Length == FaceWords()
    {
      assert Area(SliceWords(), 1) == SliceWords();
      FourPlanes(SliceWords());
    }

    /** Copies the 2D texture `tex` into `face`: into slice `face` of each
        plane of a volume, otherwise over the whole of face `face`, which is
        allocated first when it is missing; filling a face of a 2D texture
        other than the first turns it into a cube map. A texture that is not
        2D, or differs in width, height or format, is refused and nothing
        changes. */
    method InsertFace(tex: Texture, face: nat) returns (ok: bool)
      requires Valid() && tex.Valid() && tex.faces[0] !in Storage()
      requires Accepts(tex) ==> FaceIndexOk(face)
      modifies this, Storage()
      ensures Valid()
      ensures ok == old(Accepts(tex))
      ensures width == old(width) && height == old(height) && format == old(format) && dataSize == old(dataSize)
      ensures !ok ==> faces == old(faces) && depth == old(depth)
      ensures forall k :: 0 <= k < |old(faces)| && old(faces[k]) != null && (!ok || k != old(FaceIndex(face))) ==>
                faces[k] == old(faces[k]) && faces[k][..] == old(faces[k][..])
      ensures ok && old(IsVolume()) ==>
                && faces == old(faces) && depth == old(depth)
                && forall j :: 0 <= j < faces[0].Length ==>
                     faces[0][j] == PastedAt(old(faces[0][..]), old(tex.faces[0][..]), old(PlaneWords()),
                                             old(SliceWords()), old(Area(SliceWords(), face)), 4, j)
      ensures ok && !old(IsVolume()) ==> faces[face] != null && faces[face][..] == old(tex.faces[0][..])
      ensures ok && !old(IsVolume()) && old(faces[face]) != null ==> faces == old(faces) && depth == old(depth)
      ensures ok && !old(IsVolume()) && old(faces[face]) == null ==>
                && fresh(faces[face]) && faces == old(faces)[face := faces[face]]
                && depth == (if face > 0 && old(depth) == TWO_D_DEPTH then CUBE_DEPTH else old(depth))
    {
      if !Accepts(tex) {
        return false;
      }
      AcceptedSizes(tex);
      if IsVolume() {
        InsertSlices(tex.faces[0], face);
      } else {
        InsertWhole(tex.faces[0], face);
      }
      return true;
    }

    /** The volume half of `InsertFace`: plane `c` of `src` goes to slice
        `face` of plane `c`. */
    method InsertSlices(src: array<u32>, face: nat)
      requires Valid() && IsVolume() && face < depth && src !in Storage()
      requires src.Length == SliceWords() + SliceWords() + SliceWords() + SliceWords()
      modifies faces[0]
      ensures forall j :: 0 <= j < faces[0].Length ==>
                faces[0][j] == PastedAt(old(faces[0][..]), src[..], PlaneWords(), SliceWords(), Area(SliceWords(), face), 4, j)
    {
      var dst := faces[0];
      ghost var orig := dst[..];
      var p, n, off := PlaneWords(), SliceWords(), Area(SliceWords(), face);
      AreaRow(n, face, depth);
      FourPlanes(p);
      var c := 0;
      while c < NUM_TEXTURE_CHANNELS
        invariant c <= NUM_TEXTURE_CHANNELS && dst.Length == |orig|
        invariant forall j :: 0 <= j < dst.Length ==> dst[j] == PastedAt(orig, src[..], p, n, off, c, j)
      {
        PasteChannel(dst, src, orig, p, n, off, c);
        c := c + 1;
      }
    }

    /** The 2D and cube half of `InsertFace`: `src` replaces the whole of
        face `face`, which is allocated first when it is missing. */
    method InsertWhole(src: array<u32>, face: nat)
      requires Valid() && !IsVolume() && face < CUBE_NUM_FACES && src !in Storage() && src.Length == FaceWords()
      modifies this, Storage()
      ensures Valid()
      ensures width == old(width) && height == old(height) && format == old(format) && dataSize == old(dataSize)
      ensures faces[face] != null && faces[face][..] == old(src[..])
      ensures old(faces[face]) != null ==> faces == old(faces) && depth == old(depth)
      ensures old(faces[face]) == null ==>
                && fresh(faces[face]) && faces == old(faces)[face := faces[face]]
                && depth == (if face > 0 && old(depth) == TWO_D_DEPTH then CUBE_DEPTH else old(depth))
      ensures forall k :: 0 <= k < |old(faces)| && old(faces[k]) != null && k != face ==>
                faces[k] == old(faces[k]) && faces[k][..] == old(faces[k][..])
    {
      var dst := faces[face];
      if dst == null {
        dst := new u32[FaceWords()];
        faces := faces[face := dst];
        if face > 0 && depth == TWO_D_DEPTH {
          depth := CUBE_DEPTH;
        }
      }
      CopyWords(dst, 0, src, 0, src.Length);
      assert dst[..] == src[..];
    }

    /** The allocation index `face` lives in. */
    function FaceIndex(face: nat): nat
      reads this
    {
      if IsVolume() then 0 else face
    }
  }

  // ---------------------------------------------------------------------
  // The size rule of the mip-set preparation

  /** `x` is a power of two (zero is not). */
  predicate IsPowerOfTwo(x: nat)
    decreases x
  {
    x == 1 || (x > 1 && x % 2 == 0 && IsPowerOfTwo(x / 2))
  }

  /** The least power of two not below `x` (one for zero). */
  function NextPowerOfTwo(x: nat): (r: nat)
    ensures IsPowerOfTwo(r) && x <= r && (r == 1 || r / 2 < x)
  {
    PowerFrom(x, 1)
  }

  function PowerFrom(x: nat, p: nat): (r: nat)
    requires IsPowerOfTwo(p) && (p == 1 || p / 2 < x)
    ensures IsPowerOfTwo(r) && x <= r && (r == 1 || r / 2 < x)
    decreases x - p
  {
    if x <= p then p
    else
      assert IsPowerOfTwo(p + p) by { assert (p + p) / 2 == p; }
      PowerFrom(x, p + p)
  }

  /** A smaller power of two is at most half of a larger one. */
  lemma {:induction false} PowerBelowHalf(q: nat, r: nat)
    requires IsPowerOfTwo(q) && IsPowerOfTwo(r) && q < r
    ensures q <= r / 2
    decreases q
  {
    if q > 1 {
      PowerBelowHalf(q / 2, r / 2);
    }
  }

  /** No power of two lies between `x` and `NextPowerOfTwo(x)`. */
  lemma NextPowerOfTwoIsLeast(x: nat, q: nat)
    requires IsPowerOfTwo(q) && x <= q
    ensures NextPowerOfTwo(x) <= q
  {
    var r := NextPowerOfTwo(x);
    if q < r {
      PowerBelowHalf(q, r);
    }
  }

  /** A power of two is its own next power of two. */
  lemma NextPowerOfTwoOfPower(x: nat)
    requires IsPowerOfTwo(x)
    ensures NextPowerOfTwo(x) == x
  {
    NextPowerOfTwoIsLeast(x, x);
  }

  /** One dimension after the size rule: rounded up to a power of two when it
      is not one, then clamped to `maxSize`. */
  function AdjustedSize(x: nat, maxSize: nat): nat {
    var rounded := if IsPowerOfTwo(x) then x else NextPowerOfTwo(x);
    if rounded > maxSize then maxSize else rounded
  }

  /** Rounds `width` and `height` up to powers of two and clamps both to
      `maxSize`. */
  method AdjustWidthAndHeight(width: u32, height: u32, maxSize: u32) returns (w: u32, h: u32)
    ensures w <= maxSize && h <= maxSize
    ensures w == AdjustedSize(width, maxSize) && h == AdjustedSize(height, maxSize)
  {
    var wd: nat := width;
    var ht: nat := height;
    if !IsPowerOfTwo(wd) {
      wd := NextPowerOfTwo(wd);
    }
    if !IsPowerOfTwo(ht) {
      ht := NextPowerOfTwo(ht);
    }
    if wd > maxSize {
      wd := maxSize;
    }
    if ht > maxSize {
      ht := maxSize;
    }
    w, h := wd, ht;
  }

  /** What the size rule does to one dimension: it never exceeds `maxSize`,
      keeps a power of two that fits, and otherwise gives the least power of
      two not below the input, or `maxSize` when that power is larger. */
  lemma AdjustedSizeMeaning(x: nat, maxSize: nat)
    ensures AdjustedSize(x, maxSize) <= maxSize
    ensures IsPowerOfTwo(x) && x <= maxSize ==> AdjustedSize(x, maxSize) == x
    ensures AdjustedSize(x, maxSize) == if NextPowerOfTwo(x) <= maxSize then NextPowerOfTwo(x) else maxSize
    ensures AdjustedSize(x, maxSize) < maxSize ==>
              IsPowerOfTwo(AdjustedSize(x, maxSize)) && x <= AdjustedSize(x, maxSize)
  {
    if IsPowerOfTwo(x) {
      NextPowerOfTwoOfPower(x);
    }
  }

  /** Applying the size rule to its own result changes nothing. */
  lemma AdjustedSizeIdempotent(x: nat, maxSize: nat)
    ensures AdjustedSize(AdjustedSize(x, maxSize), maxSize) == AdjustedSize(x, maxSize)
  {
    var y := AdjustedSize(x, maxSize);
    AdjustedSizeMeaning(x, maxSize);
    AdjustedSizeMeaning(y, maxSize);
    if y < maxSize {
      NextPowerOfTwoOfPower(y);
    }
  }

  /** The size rule is monotone: a larger input never gives a smaller
      result. */
  lemma AdjustedSizeMonotone(x: nat, y: nat, maxSize: nat)
    requires x <= y
    ensures AdjustedSize(x, maxSize) <= AdjustedSize(y, maxSize)
  {
    AdjustedSizeMeaning(x, maxSize);
    AdjustedSizeMeaning(y, maxSize);
    NextPowerOfTwoIsLeast(x, NextPowerOfTwo(y));
  }
}
