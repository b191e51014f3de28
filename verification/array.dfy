/** `Array<T, N>`: a fixed-capacity container with a live count, saturating
    resize operations and a trap slot that absorbs out-of-range access. */
module FixedArray {
  import opened Common

  /** The element storage has `N` slots; `count` of them are live. */
  datatype Array<T> = Array(elements: seq<T>, trap: T, count: u32)

  /** `N`. A C++ array of zero elements is ill-formed, so `N` is at least 1;
      it is also kept below 2^32 - 1 so that `count + 1` fits a `uint32_t`. */
  function Capacity<T>(a: Array<T>): nat {
    |a.elements|
  }

  function Count<T>(a: Array<T>): u32 {
    a.count
  }

  predicate Valid<T>(a: Array<T>) {
    1 <= Capacity(a) < U32_LIMIT - 1 && Count(a) <= Capacity(a)
  }

  /** The constructor: no element is live. `elements` and `trap` stand for
      whatever the storage holds on construction. */
  function Create<T>(elements: seq<T>, trap: T): (a: Array<T>)
    requires 1 <= |elements| < U32_LIMIT - 1
    ensures Valid(a) && Count(a) == 0 && Capacity(a) == |elements|
  {
    Array(elements, trap, 0)
  }

  /** What a returned `T&` designates: a slot of the storage or the trap. */
  datatype Slot = Element(i: nat) | Trap

  /** `operator[]`: a live position designates its element; any other
      position designates the trap, never an element. */
  function Index<T>(a: Array<T>, index: u32): (r: Slot)
    requires Valid(a)
    ensures r.Element? <==> index < Count(a)
    ensures r.Element? ==> r.i == index
  {
    if index >= Count(a) then Trap else Element(index)
  }

  /** Reading through a designated slot. */
  function Read<T>(a: Array<T>, slot: Slot): T
    requires slot.Element? ==> slot.i < Capacity(a)
  {
    match slot
    case Element(i) => a.elements[i]
    case Trap => a.trap
  }

  /** Writing through a designated slot. */
  function Write<T>(a: Array<T>, slot: Slot, v: T): (r: Array<T>)
    requires slot.Element? ==> slot.i < Capacity(a)
    ensures r.count == a.count && |r.elements| == |a.elements|
    ensures Read(r, slot) == v
    ensures forall k :: 0 <= k < |a.elements| && slot != Element(k) ==> r.elements[k] == a.elements[k]
    ensures slot.Element? ==> r.trap == a.trap
  {
    match slot
    case Element(i) => a.(elements := a.elements[i := v])
    case Trap => a.(trap := v)
  }

  /** `a[index] = v` past the live count lands in the trap and leaves every
      element as it was; a live position is written in place. */
  lemma {:induction false} AssignThroughIndex<T>(a: Array<T>, index: u32, v: T)
    requires Valid(a)
    ensures var r := Write(a, Index(a, index), v);
            && Valid(r)
            && Read(r, Index(r, index)) == v
            && (index >= Count(a) ==> r.elements == a.elements && r.trap == v)
            && (index < Count(a) ==> r.elements == a.elements[index := v] && r.trap == a.trap)
  {
  }

  /** The slot every resize returns: the last live element, or the first
      element when none is live. */
  function LastSlot<T>(a: Array<T>): Slot {
    if a.count == 0 then Element(0) else Element(a.count - 1)
  }

  /** `Reset`: the count drops to 0 and the elements stay as they are. */
  function Reset<T>(a: Array<T>): (r: Array<T>)
    requires Valid(a)
    ensures Valid(r) && Count(r) == 0
    ensures r.elements == a.elements && r.trap == a.trap
  {
    a.(count := 0)
  }

  /** `Resize`: the count becomes `newCount`, saturated at `N`. */
  function Resize<T>(a: Array<T>, newCount: u32): (r: (Array<T>, Slot))
    requires Valid(a)
    ensures Valid(r.0)
    ensures Count(r.0) <= newCount && Count(r.0) <= Capacity(a)
    ensures Count(r.0) == newCount || Count(r.0) == Capacity(a)
    ensures r.0.elements == a.elements && r.0.trap == a.trap
    ensures r.1 == LastSlot(r.0) && r.1.Element? && r.1.i < Capacity(a)
  {
    var c := if newCount > Capacity(a) then Capacity(a) else newCount;
    var b := a.(count := c);
    (b, LastSlot(b))
  }

  /** `Grow` exactly as written: the `uint32_t` sum `addCount + count`
      wraps before it is saturated at `N`. */
  function Grow<T>(a: Array<T>, addCount: u32): (r: (Array<T>, Slot))
    requires Valid(a)
    ensures Valid(r.0)
    ensures Count(r.0) == Min((a.count + addCount) % U32_LIMIT, Capacity(a))
    ensures r.0.elements == a.elements && r.0.trap == a.trap
    ensures r.1 == LastSlot(r.0) && r.1.Element? && r.1.i < Capacity(a)
  {
    var sum := (addCount + a.count) % U32_LIMIT;
    var c := if sum > Capacity(a) then Capacity(a) else sum;
    var b := a.(count := c);
    (b, LastSlot(b))
  }

  /** A growth that wraps shrinks the array: one live element of four, grown
      by 2^32 - 1, ends with none. */
  lemma {:induction false} GrowWrapShrinks(elements: seq<int>)
    requires |elements| == 4
    ensures var a := Array(elements, 0, 1);
            Valid(a) && Count(Grow(a, 0xFFFF_FFFF).0) == 0 < Count(a)
  {
  }

  /** `Grow` as intended: the count saturates at `N` and never decreases. */
  function GrowSaturating<T>(a: Array<T>, addCount: u32): (r: (Array<T>, Slot))
    requires Valid(a)
    ensures Valid(r.0)
    ensures Count(a) <= Count(r.0)
    ensures Count(r.0) == a.count + addCount || Count(r.0) == Capacity(a)
    ensures Count(r.0) <= a.count + addCount
    ensures r.0.elements == a.elements && r.0.trap == a.trap
    ensures a.count + addCount < U32_LIMIT ==> r == Grow(a, addCount)
  {
    Resize(a, Min(a.count + addCount, Capacity(a)))
  }

  /** `Shrink`: the count drops by `subCount`, saturated at 0. */
  function Shrink<T>(a: Array<T>, subCount: u32): (r: (Array<T>, Slot))
    requires Valid(a)
    ensures Valid(r.0)
    ensures Count(r.0) <= Count(a)
    ensures subCount <= Count(a) ==> Count(r.0) + subCount == Count(a)
    ensures subCount >= Count(a) ==> Count(r.0) == 0
    ensures r.0.elements == a.elements && r.0.trap == a.trap
    ensures r.1 == LastSlot(r.0) && r.1.Element? && r.1.i < Capacity(a)
  {
    var c := if subCount >= a.count then 0 else a.count - subCount;
    var b := a.(count := c);
    (b, LastSlot(b))
  }

  /** Growing and then shrinking by the same amount restores the array when
      the growth was not cut off by the capacity. */
  lemma {:induction false} ShrinkUndoesGrow<T>(a: Array<T>, n: u32)
    requires Valid(a) && a.count + n <= Capacity(a)
    ensures Shrink(GrowSaturating(a, n).0, n).0 == a
  {
  }

  /** Because no operation touches an element, a `Reset` is undone by
      resizing back to the old count. */
  lemma {:induction false} ResetKeepsElements<T>(a: Array<T>)
    requires Valid(a)
    ensures Resize(Reset(a), Count(a)).0 == a
  {
  }

  /** `Append` succeeds exactly while the array is not full; it stores the
      element at the old count and makes it live. A full array is left as is. */
  function Append<T>(a: Array<T>, element: T): (r: (bool, Array<T>))
    requires Valid(a)
    ensures Valid(r.1)
    ensures r.0 <==> Count(a) < Capacity(a)
    ensures !r.0 ==> r.1 == a
    ensures Capacity(r.1) == Capacity(a)
    ensures r.0 ==> Count(r.1) == Count(a) + 1 && r.1.trap == a.trap
    ensures r.0 ==> Read(r.1, Index(r.1, Count(a))) == element
    ensures r.0 ==> forall k :: 0 <= k < Capacity(a) && k != Count(a) ==> r.1.elements[k] == a.elements[k]
  {
    var newCount := a.count + 1;
    if newCount <= Capacity(a) then
      (true, Array(a.elements[newCount - 1 := element], a.trap, newCount))
    else
      (false, a)
  }

  /** Appending then reading the live prefix gives the old live prefix
      followed by the new element. */
  lemma {:induction false} AppendExtendsLivePrefix<T>(a: Array<T>, element: T)
    requires Valid(a) && Append(a, element).0
    ensures var r := Append(a, element).1;
            r.elements[..Count(r)] == a.elements[..Count(a)] + [element]
  {
  }
}
