/** The element-type key of the properties manager (`ElementTypeFlags`) and
    the map insertion that collects one element per key (`EnumerateElement`). */
module PropertiesManager {
  import opened Machine

  /** A key made of an element type and the include / exclude flag words.
      Its value semantics (it is copied into `std::map` keys) make it a datatype;
      the datatype constructor is the C++ constructor, which stores its three
      arguments verbatim. */
  datatype ElementTypeFlags = ElementTypeFlags(elementType: i32, includeFlags: i32, excludeFlags: i32)

  /** `operator==`: field-wise comparison. */
  predicate Equals(a: ElementTypeFlags, b: ElementTypeFlags)
    ensures Equals(a, b) <==> a == b
  {
    a.elementType == b.elementType
    && a.includeFlags == b.includeFlags
    && a.excludeFlags == b.excludeFlags
  }

  /** `operator<`: decided by the first field that differs. */
  predicate Less(a: ElementTypeFlags, b: ElementTypeFlags) {
    if a.elementType != b.elementType then a.elementType < b.elementType
    else if a.includeFlags != b.includeFlags then a.includeFlags < b.includeFlags
    else a.excludeFlags < b.excludeFlags
  }

  /** The lexicographic order on triples, written independently of `Less`. */
  predicate LexLess(a: ElementTypeFlags, b: ElementTypeFlags) {
    || a.elementType < b.elementType
    || (a.elementType == b.elementType && a.includeFlags < b.includeFlags)
    || (a.elementType == b.elementType && a.includeFlags == b.includeFlags && a.excludeFlags < b.excludeFlags)
  }

  lemma LessIsLexicographic(a: ElementTypeFlags, b: ElementTypeFlags)
    ensures Less(a, b) <==> LexLess(a, b)
  {
  }

  lemma LessIrreflexive(a: ElementTypeFlags)
    ensures !Less(a, a)
  {
  }

  lemma LessTransitive(a: ElementTypeFlags, b: ElementTypeFlags, c: ElementTypeFlags)
    requires Less(a, b) && Less(b, c)
    ensures Less(a, c)
  {
  }

  /** Trichotomy: for any two keys exactly one of `a < b`, `b < a`, `a == b` holds. */
  lemma LessTrichotomy(a: ElementTypeFlags, b: ElementTypeFlags)
    ensures Less(a, b) || Less(b, a) || Equals(a, b)
    ensures !(Less(a, b) && Less(b, a))
    ensures Equals(a, b) ==> !Less(a, b) && !Less(b, a)
  {
  }

  /** `std::map` treats keys as the same when neither is less than the other;
      with this order that is exactly equality, so a Dafny `map` keyed by the
      datatype has the same key identity as the C++ map. */
  lemma MapEquivalenceIsEquality(a: ElementTypeFlags, b: ElementTypeFlags)
    ensures (!Less(a, b) && !Less(b, a)) <==> a == b
  {
  }

  /** The struct object itself, whose `operator=` overwrites its fields. */
  class ElementTypeFlagsCell {
    var elementType: i32
    var includeFlags: i32
    var excludeFlags: i32

    function Value(): (k: ElementTypeFlags)
      reads this
    {
      ElementTypeFlags(elementType, includeFlags, excludeFlags)
    }

    constructor (elementType: i32, includeFlags: i32, excludeFlags: i32)
      ensures Value() == ElementTypeFlags(elementType, includeFlags, excludeFlags)
    {
      this.elementType := elementType;
      this.includeFlags := includeFlags;
      this.excludeFlags := excludeFlags;
    }

    /** `operator=`: copies all three fields unless `rhs` is this very object;
        either way the result equals the old value of `rhs`. */
    method Assign(rhs: ElementTypeFlagsCell)
      modifies this
      ensures Value() == old(rhs.Value())
      ensures rhs == this ==> Value() == old(Value())
    {
      if rhs != this {
        elementType := rhs.elementType;
        includeFlags := rhs.includeFlags;
        excludeFlags := rhs.excludeFlags;
      }
    }
  }

  /** The default include mask `0xFFFFFFFF` bound to an `i32` parameter. */
  const DEFAULT_INCLUDE_FLAGS: i32 := AsI32(0xFFFF_FFFF)
  const DEFAULT_EXCLUDE_FLAGS: i32 := 0

  /** A reflected element; only its type identifier takes part in the key. */
  datatype Element = Element(handle: nat, elementType: i32)

  /** The collector that `EnumerateElement` is called on. */
  class EnumerateElementArgs {
    var currentElements: map<ElementTypeFlags, Element>

    constructor (currentElements: map<ElementTypeFlags, Element>)
      ensures this.currentElements == currentElements
    {
      this.currentElements := currentElements;
    }

    /** Inserts `element` under the key built from its type and the flags;
        like `std::map::insert` it never overwrites an existing entry. */
    method EnumerateElement(element: Element, includeFlags: i32 := DEFAULT_INCLUDE_FLAGS, excludeFlags: i32 := DEFAULT_EXCLUDE_FLAGS)
      modifies this
      ensures currentElements
           == InsertNew(old(currentElements), ElementTypeFlags(element.elementType, includeFlags, excludeFlags), element)
    {
      var key := ElementTypeFlags(element.elementType, includeFlags, excludeFlags);
      if key !in currentElements {
        currentElements := currentElements[key := element];
      }
    }
  }

  /** The insertion `EnumerateElement` performs, as a function on the map. */
  function InsertNew(m: map<ElementTypeFlags, Element>, key: ElementTypeFlags, element: Element): (r: map<ElementTypeFlags, Element>)
    ensures key in r
    ensures key in m ==> r[key] == m[key]
    ensures key !in m ==> r[key] == element
    ensures r.Keys == m.Keys + {key}
    ensures forall k :: k in m ==> k in r && r[k] == m[k]
  {
    if key in m then m else m[key := element]
  }

  /** Inserting twice under the same key keeps the first element. */
  lemma InsertNewKeepsFirst(m: map<ElementTypeFlags, Element>, key: ElementTypeFlags, first: Element, second: Element)
    ensures InsertNew(InsertNew(m, key, first), key, second) == InsertNew(m, key, first)
  {
  }
}
