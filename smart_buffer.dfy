/** The relocatable byte buffer: a growable run of bytes with a name, a type
    tag and a target platform, plus two fixup tables. Outgoing fixups, keyed
    by the offset they patch, say what must be written into this buffer once
    the final layout is known; incoming fixups record which locations of
    other buffers point at this one. */
module SmartBuffers {
  import opened Machine

  /** The target platforms (`BufferPlatforms`), kept as the enum's integer
      codes because the setter can store any value it is given. */
  const X86: int := 0
  const POWER32: int := 1
  const PLATFORM_COUNT: int := 2
  const DEFAULT_PLATFORM: int := POWER32

  /** Pointer width in bytes and byte order, indexed by platform. */
  const POINTER_SIZES: seq<u32> := [4, 4]
  const BIG_ENDIAN: seq<bool> := [false, true]

  /** The size a buffer may grow to when nothing else was set. */
  const DEFAULT_MAX_SIZE: u32 := U32_MAX

  predicate ValidPlatform(p: int) {
    0 <= p < PLATFORM_COUNT
  }

  /** A point in a buffer: an offset and the buffer it lies in (`Location`
      and, with a raw pointer, `DumbLocation`). */
  datatype Location = Location(offset: u32, buffer: SmartBuffer?)

  /** A deferred relocation at some offset of a buffer: a numeric offset of
      a destination, a full pointer to it (`width` 0 means the platform
      pointer width), or a class index that a loader turns into a vtable
      pointer. */
  datatype Fixup =
    | Offset(destination: Location, absolute: bool)
    | Pointer(destination: Location, width: u32)
    | VTable(classIndex: u32, width: u32)
  {
    /** The buffer the fixup points into; vtable fixups point nowhere. */
    function Target(): SmartBuffer? {
      if VTable? then null else destination.buffer
    }
  }

  /** `m` with the fixup at offset `k` set to `f`: at most one fixup per
      offset, and a later one replaces the earlier. */
  function WithFixup(m: map<u32, Fixup>, k: u32, f: Fixup): (r: map<u32, Fixup>)
    ensures k in r && r[k] == f
    ensures r.Keys == m.Keys + {k}
    ensures forall j :: j in m && j != k ==> r[j] == m[j]
  {
    m[k := f]
  }

  /** Registering twice at one offset leaves only the second fixup. */
  lemma WithFixupLastWins(m: map<u32, Fixup>, k: u32, f: Fixup, g: Fixup)
    ensures WithFixup(WithFixup(m, k, f), k, g) == WithFixup(m, k, g)
  {
    var a := WithFixup(WithFixup(m, k, f), k, g);
    var b := WithFixup(m, k, g);
    assert a.Keys == b.Keys;
    forall j | j in a.Keys
      ensures a[j] == b[j]
    {
    }
  }

  /** Fixups at different offsets do not disturb each other. */
  lemma WithFixupCommutes(m: map<u32, Fixup>, k: u32, f: Fixup, j: u32, g: Fixup)
    requires k != j
    ensures WithFixup(WithFixup(m, k, f), j, g) == WithFixup(WithFixup(m, j, g), k, f)
  {
    var a := WithFixup(WithFixup(m, k, f), j, g);
    var b := WithFixup(WithFixup(m, j, g), k, f);
    assert a.Keys == b.Keys;
    forall i | i in a.Keys
      ensures a[i] == b[i]
    {
    }
  }

  predicate NoDuplicates<T(==)>(s: seq<T>) {
    forall i, j :: 0 <= i < j < |s| ==> s[i] != s[j]
  }

  /** The ordered set `s` after inserting `l`: appended when new, otherwise
      left as it was. */
  function InsertOrdered(s: seq<Location>, l: Location): (r: seq<Location>)
    ensures l in r
    ensures forall i :: 0 <= i < |r| ==> r[i] in s || r[i] == l
    ensures NoDuplicates(s) ==> NoDuplicates(r)
    ensures s <= r && |r| <= |s| + 1
  {
    if l in s then s else s + [l]
  }

  /** Inserting what is already there changes nothing. */
  lemma InsertOrderedIdempotent(s: seq<Location>, l: Location)
    ensures InsertOrdered(InsertOrdered(s, l), l) == InsertOrdered(s, l)
  {
  }

  /** Whatever the order of two insertions, the same locations end up in
      the set. */
  lemma InsertOrderedSameMembers(s: seq<Location>, l: Location, m: Location)
    ensures forall x :: x in InsertOrdered(InsertOrdered(s, l), m) <==> x in InsertOrdered(InsertOrdered(s, m), l)
  {
  }

  /** The check `SetPlatform` makes, as written: it tests the platform the
      buffer has, not the one it is given. */
  predicate SetPlatformCheckAsWritten(current: int, requested: int) {
    ValidPlatform(current)
  }

  /** The check it evidently means: the new platform indexes the tables. */
  predicate SetPlatformCheck(current: int, requested: int) {
    ValidPlatform(requested)
  }

  /** The written check lets `BufferPlatforms::Count` through, after which
      the table lookups read past their end. */
  lemma SetPlatformAsWrittenAdmitsCount()
    ensures SetPlatformCheckAsWritten(DEFAULT_PLATFORM, PLATFORM_COUNT)
    ensures !ValidPlatform(PLATFORM_COUNT)
    ensures !SetPlatformCheck(DEFAULT_PLATFORM, PLATFORM_COUNT)
  {
  }

  /** The corrected check admits exactly the values the tables cover. */
  lemma SetPlatformCheckMeaning(current: int, requested: int)
    ensures SetPlatformCheck(current, requested) <==> requested == X86 || requested == POWER32
  {
  }

  /** Everything a buffer holds apart from its two fixup tables. */
  datatype BufferContents = BufferContents(
    name: string, typeTag: u32, data: seq<u8>, dataAddress: nat, size: u32, maxSize: u32,
    capacity: u32, ownsData: bool, platform: int, isVirtual: bool)

  class SmartBuffer {
    var name: string
    var typeTag: u32
    /** The allocation: `capacity` bytes, of which the first `size` are in use. */
    var data: seq<u8>
    /** The address the data pointer holds; it may move when the buffer grows. */
    var dataAddress: nat
    var size: u32
    var maxSize: u32
    var capacity: u32
    var ownsData: bool
    var platform: int
    var isVirtual: bool
    var outgoing: map<u32, Fixup>
    var incoming: seq<Location>

    /** The used bytes lie in the allocation and within the maximum, the
        platform indexes the tables, every outgoing fixup patches a used
        byte, and no incoming location is recorded twice. */
    predicate Valid()
      reads this
    {
      && size <= capacity
      && |data| == capacity as int
      && size <= maxSize
      && ValidPlatform(platform)
      && (forall k :: k in outgoing ==> k < size)
      && NoDuplicates(incoming)
    }

    /** The fields the fixup operations leave alone. */
    function Contents(): BufferContents
      reads this
    {
      BufferContents(name, typeTag, data, dataAddress, size, maxSize, capacity, ownsData, platform, isVirtual)
    }

    /** An empty buffer for the default platform. */
    constructor ()
      ensures Valid()
      ensures size == 0 && capacity == 0 && data == [] && maxSize == DEFAULT_MAX_SIZE
      ensures platform == DEFAULT_PLATFORM && !isVirtual && ownsData
      ensures outgoing == map[] && incoming == []
    {
      name := "";
      typeTag := 0;
      data := [];
      dataAddress := 0;
      size := 0;
      maxSize := DEFAULT_MAX_SIZE;
      capacity := 0;
      ownsData := true;
      platform := DEFAULT_PLATFORM;
      isVirtual := false;
      outgoing := map[];
      incoming := [];
    }

    method SetType(t: u32)
      modifies this
      ensures typeTag == t
      ensures name == old(name) && data == old(data) && dataAddress == old(dataAddress)
      ensures size == old(size) && maxSize == old(maxSize) && capacity == old(capacity)
      ensures ownsData == old(ownsData) && platform == old(platform) && isVirtual == old(isVirtual)
      ensures outgoing == old(outgoing) && incoming == old(incoming)
    {
      typeTag := t;
    }

    /** `SetPlatform` as written: its assertion looks at the current
        platform, so any value is stored, and `Valid()` can be lost. */
    method SetPlatformAsWritten(p: int)
      requires SetPlatformCheckAsWritten(platform, p)
      modifies this
      ensures platform == p
      ensures name == old(name) && typeTag == old(typeTag) && data == old(data)
      ensures dataAddress == old(dataAddress) && size == old(size) && maxSize == old(maxSize)
      ensures capacity == old(capacity) && ownsData == old(ownsData) && isVirtual == old(isVirtual)
      ensures outgoing == old(outgoing) && incoming == old(incoming)
    {
      platform := p;
    }

    /** `SetPlatform` with the check on its argument: the buffer stays valid. */
    method SetPlatform(p: int)
      requires Valid() && SetPlatformCheck(platform, p)
      modifies this
      ensures Valid() && platform == p
      ensures name == old(name) && typeTag == old(typeTag) && data == old(data)
      ensures dataAddress == old(dataAddress) && size == old(size) && maxSize == old(maxSize)
      ensures capacity == old(capacity) && ownsData == old(ownsData) && isVirtual == old(isVirtual)
      ensures outgoing == old(outgoing) && incoming == old(incoming)
    {
      platform := p;
    }

    /** Pointer width of the buffer's platform: both platforms have 32-bit
        pointers. */
    function GetPlatformPtrSize(): (r: u32)
      reads this
      requires ValidPlatform(platform)
      ensures r == 4
    {
      POINTER_SIZES[platform]
    }

    /** Byte order of the buffer's platform: only Power32 is big-endian. */
    function IsPlatformBigEndian(): (r: bool)
      reads this
      requires ValidPlatform(platform)
      ensures r <==> platform == POWER32
      ensures !r <==> platform == X86
    {
      BIG_ENDIAN[platform]
    }

    /** The front of the data. */
    function GetHeadLocation(): (r: Location)
      reads this
      ensures r.buffer == this && r.offset == 0
      ensures r.offset <= size
    {
      Location(0, this)
    }

    /** The end of the data, where the next byte would go. */
    function GetCurrentLocation(): (r: Location)
      reads this
      ensures r.buffer == this && r.offset == size
    {
      Location(size, this)
    }

    /** A given offset; the end offset is allowed. */
    function GetOffsetLocation(o: u32): (r: Location)
      reads this
      requires o <= size
      ensures r.buffer == this && r.offset == o && r.offset <= size
    {
      Location(o, this)
    }

    /** The location of an address inside the used bytes. */
    function GetAddressLocation(address: nat): (r: Location)
      reads this
      requires dataAddress <= address < dataAddress + size
      ensures r.buffer == this && r.offset < size
      ensures dataAddress + r.offset == address
    {
      Location((address - dataAddress) as u32, this)
    }

    /** Address and offset convert into each other over the used bytes. */
    lemma AddressOffsetRoundTrip(o: u32)
      requires o < size
      ensures GetAddressLocation(dataAddress + o) == GetOffsetLocation(o)
    {
    }

    /** Empties the buffer: no bytes allocated, no fixups either way. */
    method Reset()
      requires Valid()
      modifies this
      ensures Valid()
      ensures size == 0 && capacity == 0 && data == []
      ensures outgoing == map[] && incoming == []
      ensures name == old(name) && typeTag == old(typeTag) && maxSize == old(maxSize)
      ensures ownsData == old(ownsData) && platform == old(platform) && isVirtual == old(isVirtual)
    {
      data := [];
      size := 0;
      capacity := 0;
      outgoing := map[];
      incoming := [];
    }

    /** Bounds later growth; only allowed on an empty buffer. */
    method SetMaxSize(n: u32)
      requires Valid() && size == 0
      modifies this
      ensures Valid() && maxSize == n
      ensures name == old(name) && typeTag == old(typeTag) && data == old(data)
      ensures dataAddress == old(dataAddress) && size == old(size) && capacity == old(capacity)
      ensures ownsData == old(ownsData) && platform == old(platform) && isVirtual == old(isVirtual)
      ensures outgoing == old(outgoing) && incoming == old(incoming)
    {
      maxSize := n;
    }

    /** Switches to virtual memory reserved up to `n` bytes, which becomes
        the maximum size; only allowed on an empty buffer. */
    method SetVirtual(n: u32)
      requires Valid() && size == 0
      modifies this
      ensures Valid() && isVirtual && maxSize == n
      ensures name == old(name) && typeTag == old(typeTag) && data == old(data)
      ensures dataAddress == old(dataAddress) && size == old(size) && capacity == old(capacity)
      ensures ownsData == old(ownsData) && platform == old(platform)
      ensures outgoing == old(outgoing) && incoming == old(incoming)
    {
      isVirtual := true;
      maxSize := n;
    }

    /** Makes the allocation at least `n` bytes, keeping its contents. */
    method Allocate(n: u32)
      requires Valid() && size <= n
      modifies this
      ensures Valid()
      ensures capacity >= n && capacity >= old(capacity)
      ensures old(data) <= data
      ensures name == old(name) && typeTag == old(typeTag) && size == old(size) && maxSize == old(maxSize)
      ensures ownsData == old(ownsData) && platform == old(platform) && isVirtual == old(isVirtual)
      ensures outgoing == old(outgoing) && incoming == old(incoming)
    {
      if capacity < n {
        data := data + seq(n - capacity, _ => 0);
        capacity := n;
      }
    }

    /** Pre-allocates at least `n` bytes without using them; fails, changing
        nothing, beyond the maximum size. */
    method Reserve(n: u32) returns (ok: bool)
      requires Valid()
      modifies this
      ensures Valid()
      ensures ok <==> n <= old(maxSize)
      ensures ok ==> capacity >= n && capacity >= old(capacity) && old(data) <= data
      ensures !ok ==> data == old(data) && capacity == old(capacity) && dataAddress == old(dataAddress)
      ensures name == old(name) && typeTag == old(typeTag) && size == old(size) && maxSize == old(maxSize)
      ensures ownsData == old(ownsData) && platform == old(platform) && isVirtual == old(isVirtual)
      ensures outgoing == old(outgoing) && incoming == old(incoming)
    {
      if n > maxSize {
        return false;
      }
      if size <= n {
        Allocate(n);
      }
      ok := true;
    }

    /** Uses `n` more bytes at the end; fails, changing nothing, when that
        passes the maximum size. Earlier bytes, and so every location
        handed out before, stay valid. */
    method GrowBy(n: u32) returns (ok: bool)
      requires Valid()
      modifies this
      ensures Valid()
      ensures ok <==> old(size) + n <= old(maxSize)
      ensures ok ==> size == old(size) + n && old(data[..size]) == data[..old(size)]
      ensures ok ==> capacity >= old(capacity)
      ensures !ok ==> size == old(size) && data == old(data) && capacity == old(capacity)
      ensures !ok ==> dataAddress == old(dataAddress)
      ensures name == old(name) && typeTag == old(typeTag) && maxSize == old(maxSize)
      ensures ownsData == old(ownsData) && platform == old(platform) && isVirtual == old(isVirtual)
      ensures outgoing == old(outgoing) && incoming == old(incoming)
    {
      if size as int + n as int > maxSize as int {
        return false;
      }
      var total := (size as int + n as int) as u32;
      Allocate(total);
      size := total;
      ok := true;
    }

    /** Makes at least `n` bytes used (a buffer never shrinks this way);
        fails, changing nothing, beyond the maximum size. */
    method Resize(n: u32) returns (ok: bool)
      requires Valid()
      modifies this
      ensures Valid()
      ensures ok <==> n <= old(maxSize)
      ensures ok ==> size >= n && size >= old(size) && (n > old(size) ==> size == n)
      ensures ok ==> old(data[..size]) == data[..old(size)]
      ensures ok ==> capacity >= old(capacity)
      ensures !ok ==> size == old(size) && data == old(data) && capacity == old(capacity)
      ensures !ok ==> dataAddress == old(dataAddress)
      ensures name == old(name) && typeTag == old(typeTag) && maxSize == old(maxSize)
      ensures ownsData == old(ownsData) && platform == old(platform) && isVirtual == old(isVirtual)
      ensures outgoing == old(outgoing) && incoming == old(incoming)
    {
      if n > maxSize {
        return false;
      }
      if n > size {
        Allocate(n);
        size := n;
      }
      ok := true;
    }

    /** This buffer has an outgoing fixup into `b`. */
    predicate PointsTo(b: SmartBuffer)
      reads this
    {
      exists k :: k in outgoing && outgoing[k].Target() == b
    }

    /** Every buffer this buffer points into is in `s`. */
    predicate ChildrenIn(s: set<SmartBuffer>)
      reads this
    {
      forall k :: k in outgoing && outgoing[k].Target() != null ==> outgoing[k].Target() in s
    }

    /** Adds to `buffers` every buffer reachable from this one through
        outgoing fixups, visiting each buffer once: a buffer already in the
        set is not entered again. `universe` stands for the live buffers,
        which no fixup leaves; `order` lists the added buffers in the order
        they were found. */
    method CollectChildren(buffers: set<SmartBuffer>, ghost universe: set<SmartBuffer>)
      returns (r: set<SmartBuffer>, ghost order: seq<SmartBuffer>)
      requires this in universe && Closed(universe)
      ensures buffers <= r <= buffers + universe
      ensures ChildrenIn(r)
      ensures forall b :: b in r - buffers ==> b.ChildrenIn(r)
      ensures forall b :: b in order <==> b in r - buffers
      ensures Discovered(this, order)
      decreases universe - buffers
    {
      r := buffers;
      order := [];
      var keys := outgoing.Keys;
      while keys != {}
        invariant keys <= outgoing.Keys
        invariant buffers <= r <= buffers + universe
        invariant forall k :: k in outgoing && k !in keys && outgoing[k].Target() != null ==> outgoing[k].Target() in r
        invariant forall b :: b in r - buffers ==> b.ChildrenIn(r)
        invariant forall b :: b in order <==> b in r - buffers
        invariant Discovered(this, order)
        decreases keys
      {
        var k :| k in keys;
        var t := outgoing[k].Target();
        if t != null && t !in r {
          assert t in universe;
          assert PointsTo(t);
          var more, tail := t.CollectChildren(r + {t}, universe);
          ChildrenGrow(r, more);
          DiscoveredAppend(this, order, t, tail);
          r, order := more, order + [t] + tail;
        }
        keys := keys - {k};
      }
    }

    /** Copies the outgoing fixups of `other` into this buffer with their
        offsets moved by `delta`; a fixup already at such an offset is
        replaced, every other one is kept. */
    method InheritFixups(other: SmartBuffer, delta: u32)
      requires Valid() && other != this
      requires forall k :: k in other.outgoing ==> ShiftedOffset(k, delta) < size
      modifies this
      ensures Valid()
      ensures forall k :: k in other.outgoing ==>
        ShiftedOffset(k, delta) in outgoing && outgoing[ShiftedOffset(k, delta)] == other.outgoing[k]
      ensures forall j :: j in old(outgoing) ==> j in outgoing
      ensures forall j :: j in outgoing ==>
        (j in old(outgoing) && outgoing[j] == old(outgoing)[j]) ||
        (exists k :: k in other.outgoing && j == ShiftedOffset(k, delta))
      ensures name == old(name) && typeTag == old(typeTag) && data == old(data) && size == old(size)
      ensures maxSize == old(maxSize) && capacity == old(capacity) && incoming == old(incoming)
      ensures ownsData == old(ownsData) && platform == old(platform) && isVirtual == old(isVirtual)
      ensures dataAddress == old(dataAddress)
    {
      var todo := other.outgoing.Keys;
      while todo != {}
        invariant todo <= other.outgoing.Keys && Valid()
        invariant name == old(name) && typeTag == old(typeTag) && data == old(data) && size == old(size)
        invariant maxSize == old(maxSize) && capacity == old(capacity) && incoming == old(incoming)
        invariant ownsData == old(ownsData) && platform == old(platform) && isVirtual == old(isVirtual)
        invariant dataAddress == old(dataAddress)
        invariant forall k :: k in other.outgoing && k !in todo ==>
          ShiftedOffset(k, delta) in outgoing && outgoing[ShiftedOffset(k, delta)] == other.outgoing[k]
        invariant forall j :: j in old(outgoing) ==> j in outgoing
        invariant forall j :: j in outgoing ==>
          (j in old(outgoing) && outgoing[j] == old(outgoing)[j]) ||
          (exists k :: k in other.outgoing && j == ShiftedOffset(k, delta))
        decreases todo
      {
        var k :| k in todo;
        outgoing := outgoing[ShiftedOffset(k, delta) as u32 := other.outgoing[k]];
        todo := todo - {k};
      }
    }
  }

  /** No fixup of a buffer in `universe` points outside it. */
  ghost predicate Closed(universe: set<SmartBuffer>)
    reads universe
  {
    forall b :: b in universe ==> b.ChildrenIn(universe)
  }

  /** Each buffer of `order` is pointed into by `root` or by a buffer listed
      before it, so each is reachable from `root`. */
  ghost predicate Discovered(root: SmartBuffer, order: seq<SmartBuffer>)
    reads root, order
  {
    forall i :: 0 <= i < |order| ==>
      root.PointsTo(order[i]) || exists j :: 0 <= j < i && order[j].PointsTo(order[i])
  }

  /** A buffer whose children lie in `s` has them in any larger set. */
  lemma ChildrenGrow(s: set<SmartBuffer>, t: set<SmartBuffer>)
    requires s <= t
    ensures forall b: SmartBuffer :: b.ChildrenIn(s) ==> b.ChildrenIn(t)
  {
  }

  /** A child found from `root`, followed by what was found from the child,
      extends a discovery order of `root`. */
  lemma DiscoveredAppend(root: SmartBuffer, order: seq<SmartBuffer>, t: SmartBuffer, tail: seq<SmartBuffer>)
    requires Discovered(root, order) && root.PointsTo(t) && Discovered(t, tail)
    ensures Discovered(root, order + [t] + tail)
  {
    var all := order + [t] + tail;
    forall i | 0 <= i < |all|
      ensures root.PointsTo(all[i]) || exists j :: 0 <= j < i && all[j].PointsTo(all[i])
    {
      if i > |order| {
        var m := i - |order| - 1;
        assert all[i] == tail[m];
        if !t.PointsTo(tail[m]) {
          var j :| 0 <= j < m && tail[j].PointsTo(tail[m]);
          assert all[j + |order| + 1] == tail[j];
        } else {
          assert all[|order|] == t;
        }
      } else if i < |order| {
        assert all[i] == order[i];
        if !root.PointsTo(order[i]) {
          var j :| 0 <= j < i && order[j].PointsTo(order[i]);
          assert all[j] == order[j];
        }
      }
    }
  }

  /** A chain of fixups from `root`. */
  ghost predicate FixupPath(root: SmartBuffer, path: seq<SmartBuffer>)
    reads root, path
  {
    && |path| > 0
    && root.PointsTo(path[0])
    && forall i :: 0 <= i < |path| - 1 ==> path[i].PointsTo(path[i + 1])
  }

  /** What `CollectChildren` promises is sound: every buffer of a discovery
      order ends a chain of fixups from the root through earlier buffers of
      that order. */
  lemma {:induction false} DiscoveredHasPath(root: SmartBuffer, order: seq<SmartBuffer>, i: int)
    returns (path: seq<SmartBuffer>)
    requires Discovered(root, order) && 0 <= i < |order|
    ensures FixupPath(root, path) && path[|path| - 1] == order[i]
    ensures forall m :: 0 <= m < |path| ==> path[m] in order[..i + 1]
    decreases i
  {
    if root.PointsTo(order[i]) {
      path := [order[i]];
    } else {
      var j :| 0 <= j < i && order[j].PointsTo(order[i]);
      var front := DiscoveredHasPath(root, order, j);
      path := front + [order[i]];
      forall m | 0 <= m < |path|
        ensures path[m] in order[..i + 1]
      {
        if m < |front| {
          assert path[m] == front[m] && front[m] in order[..j + 1];
          assert order[..j + 1] <= order[..i + 1];
        }
      }
      assert FixupPath(root, path) by {
        forall m | 0 <= m < |path| - 1
          ensures path[m].PointsTo(path[m + 1])
        {
          if m < |front| - 1 {
            assert path[m] == front[m] && path[m + 1] == front[m + 1];
          } else {
            assert path[m] == order[j];
          }
        }
      }
    }
  }

  /** What `CollectChildren` promises is complete: the end of any chain of
      fixups from the root that passes through no buffer of the given set
      is collected. */
  lemma {:induction false} CollectedReachesAll(root: SmartBuffer, buffers: set<SmartBuffer>,
                                               r: set<SmartBuffer>, path: seq<SmartBuffer>)
    requires root.ChildrenIn(r) && forall b :: b in r - buffers ==> b.ChildrenIn(r)
    requires FixupPath(root, path)
    requires forall i :: 0 <= i < |path| - 1 ==> path[i] !in buffers
    ensures path[|path| - 1] in r
    decreases |path|
  {
    var n := |path| - 1;
    if n == 0 {
      var k :| k in root.outgoing && root.outgoing[k].Target() == path[0];
    } else {
      var front := path[..n];
      assert FixupPath(root, front) by {
        forall i | 0 <= i < |front| - 1
          ensures front[i].PointsTo(front[i + 1])
        {
          assert front[i] == path[i] && front[i + 1] == path[i + 1];
        }
      }
      CollectedReachesAll(root, buffers, r, front);
      assert path[n - 1] in r - buffers && path[n - 1].PointsTo(path[n]);
      var k :| k in path[n - 1].outgoing && path[n - 1].outgoing[k].Target() == path[n];
    }
  }

  /** Where a fixup at offset `k` lands when its bytes move `delta` on. */
  function ShiftedOffset(k: u32, delta: u32): int {
    k + delta
  }

  /** A destination is valid when it names a buffer and lies within its
      used bytes (its end included). */
  predicate DestinationValid(destination: Location)
    reads destination.buffer
  {
    destination.buffer != null && destination.offset <= destination.buffer.size
  }

  /** Records `fixup` at `source` and, when it points into a buffer, the
      source in that buffer's incoming set. The source must lie in the used
      bytes of its buffer. The source's boolean result is not modelled: its
      false case is not shown. */
  method AddFixup(source: Location, fixup: Fixup)
    requires source.buffer != null && source.buffer.Valid() && source.offset < source.buffer.size
    requires fixup.Target() != null ==> fixup.Target().Valid()
    modifies source.buffer, fixup.Target()
    ensures source.buffer.Valid()
    ensures fixup.Target() != null ==> fixup.Target().Valid()
    ensures source.buffer.outgoing == WithFixup(old(source.buffer.outgoing), source.offset, fixup)
    ensures fixup.Target() != null ==> (
      fixup.Target().incoming == InsertOrdered(old(fixup.Target().incoming), Location(source.offset, source.buffer)))
    ensures fixup.Target() != source.buffer ==> source.buffer.incoming == old(source.buffer.incoming)
    ensures fixup.Target() != null && fixup.Target() != source.buffer ==> (
      fixup.Target().outgoing == old(fixup.Target().outgoing))
    ensures source.buffer.Contents() == old(source.buffer.Contents())
    ensures fixup.Target() != null ==> fixup.Target().Contents() == old(fixup.Target().Contents())
  {
    var src := source.buffer;
    src.outgoing := WithFixup(src.outgoing, source.offset, fixup);
    var dst := fixup.Target();
    if dst != null {
      dst.incoming := InsertOrdered(dst.incoming, Location(source.offset, src));
    }
  }

  /** Links `source` to a numeric offset of `destination`; `false`, and no
      change, when the destination is not valid. */
  method AddOffsetFixup(source: Location, destination: Location, absolute: bool := false) returns (ok: bool)
    requires source.buffer != null && source.buffer.Valid() && source.offset < source.buffer.size
    requires destination.buffer != null ==> destination.buffer.Valid()
    modifies source.buffer, destination.buffer
    ensures ok <==> old(DestinationValid(destination))
    ensures source.buffer.Valid() && (destination.buffer != null ==> destination.buffer.Valid())
    ensures !ok ==> unchanged(source.buffer) && (destination.buffer != null ==> unchanged(destination.buffer))
    ensures ok ==> (source.buffer.outgoing
      == WithFixup(old(source.buffer.outgoing), source.offset, Offset(destination, absolute)))
    ensures ok ==> (destination.buffer.incoming
      == InsertOrdered(old(destination.buffer.incoming), Location(source.offset, source.buffer)))
    ensures ok && destination.buffer != source.buffer ==> (
      source.buffer.incoming == old(source.buffer.incoming) &&
      destination.buffer.outgoing == old(destination.buffer.outgoing))
    ensures source.buffer.Contents() == old(source.buffer.Contents())
    ensures destination.buffer != null ==> destination.buffer.Contents() == old(destination.buffer.Contents())
  {
    if !DestinationValid(destination) {
      return false;
    }
    AddFixup(source, Offset(destination, absolute));
    ok := true;
  }

  /** Links `source` to a pointer to `destination`, `width` bytes wide (0:
      the platform's); `false`, and no change, when the destination is not
      valid. */
  method AddPointerFixup(source: Location, destination: Location, width: u32 := 0) returns (ok: bool)
    requires source.buffer != null && source.buffer.Valid() && source.offset < source.buffer.size
    requires destination.buffer != null ==> destination.buffer.Valid()
    modifies source.buffer, destination.buffer
    ensures ok <==> old(DestinationValid(destination))
    ensures source.buffer.Valid() && (destination.buffer != null ==> destination.buffer.Valid())
    ensures !ok ==> unchanged(source.buffer) && (destination.buffer != null ==> unchanged(destination.buffer))
    ensures ok ==> (source.buffer.outgoing
      == WithFixup(old(source.buffer.outgoing), source.offset, Pointer(destination, width)))
    ensures ok ==> (destination.buffer.incoming
      == InsertOrdered(old(destination.buffer.incoming), Location(source.offset, source.buffer)))
    ensures ok && destination.buffer != source.buffer ==> (
      source.buffer.incoming == old(source.buffer.incoming) &&
      destination.buffer.outgoing == old(destination.buffer.outgoing))
    ensures source.buffer.Contents() == old(source.buffer.Contents())
    ensures destination.buffer != null ==> destination.buffer.Contents() == old(destination.buffer.Contents())
  {
    if !DestinationValid(destination) {
      return false;
    }
    AddFixup(source, Pointer(destination, width));
    ok := true;
  }

  /** Records the class index a loader turns into the vtable pointer at
      `source`; no buffer is pointed at, so no incoming set changes. The
      false case of the source's result is not shown, so it always succeeds. */
  method AddVTableFixup(source: Location, classIndex: u32, width: u32 := 0) returns (ok: bool)
    requires source.buffer != null && source.buffer.Valid() && source.offset < source.buffer.size
    modifies source.buffer
    ensures ok && source.buffer.Valid()
    ensures source.buffer.outgoing == WithFixup(old(source.buffer.outgoing), source.offset, VTable(classIndex, width))
    ensures source.buffer.incoming == old(source.buffer.incoming)
    ensures source.buffer.Contents() == old(source.buffer.Contents())
  {
    AddFixup(source, VTable(classIndex, width));
    ok := true;
  }
}
