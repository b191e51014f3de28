/** `ptr_t<T>`: a shared handle to a heap object with a shared counter.

    The heap is abstracted to the live counters, keyed by object identity;
    every handle instance is a slot that holds the identity it points to,
    or `None` for the null handle. The invariant: each live counter equals
    the number of handles sharing its object, so no handle ever points to a
    freed object. */
module SmartPointer {
  import opened Common
  import opened RefCounter

  /** The identity (address) of a heap object. */
  type Id = nat

  datatype Heap = Heap(counters: map<Id, RefCount>, handles: seq<Option<Id>>)

  /** The number of handles that share object `id`. */
  function Holders(hp: Heap, id: Id): nat {
    multiset(hp.handles)[Some(id)]
  }

  predicate Valid(hp: Heap) {
    && (forall id :: id in hp.counters ==>
          hp.counters[id].count == Holders(hp, id) && !IsFree(hp.counters[id]))
    && (forall h :: 0 <= h < |hp.handles| && hp.handles[h].Some? ==> hp.handles[h].value in hp.counters)
  }

  predicate IsValid(hp: Heap, h: nat)
    requires h < |hp.handles|
  {
    hp.handles[h].Some?
  }

  /** `Get` and `operator->`: the object if the handle is valid and its
      counter is not free, else null. */
  function Get(hp: Heap, h: nat): (r: Option<Id>)
    requires Valid(hp) && h < |hp.handles|
    ensures r == hp.handles[h]
    ensures r.Some? <==> IsValid(hp, h)
  {
    match hp.handles[h]
    case None => None
    case Some(id) => if !IsFree(hp.counters[id]) then Some(id) else None
  }

  /** `operator==` compares object identity only (`!=` is its negation). */
  function Equal(hp: Heap, a: nat, b: nat): bool
    requires a < |hp.handles| && b < |hp.handles|
  {
    hp.handles[a] == hp.handles[b]
  }

  /** Two handles compare equal exactly when both are null or both reach
      the same live object. */
  lemma {:induction false} EqualMeansSameObject(hp: Heap, a: nat, b: nat)
    requires Valid(hp) && a < |hp.handles| && b < |hp.handles|
    ensures Equal(hp, a, b) <==> Get(hp, a) == Get(hp, b)
    ensures Equal(hp, a, b) && IsValid(hp, a) ==> Holders(hp, hp.handles[a].value) >= 2 || a == b
  {
    if Equal(hp, a, b) && IsValid(hp, a) && a != b {
      var id := hp.handles[a].value;
      var rest := hp.handles[a := None];
      assert multiset(rest)[Some(id)] == Holders(hp, id) - 1;
      assert rest[b] == Some(id);
      assert Some(id) in multiset(rest);
    }
  }

  /** The default constructor: a null handle. */
  function MakeNull(hp: Heap): (r: (Heap, nat))
    requires Valid(hp)
    ensures Valid(r.0)
    ensures r.1 == |hp.handles| && r.0.handles == hp.handles + [None]
    ensures r.0.counters == hp.counters
    ensures !IsValid(r.0, r.1) && Get(r.0, r.1) == None
  {
    var r := Heap(hp.counters, hp.handles + [None]);
    assert forall id :: Holders(r, id) == Holders(hp, id);
    (r, |hp.handles|)
  }

  /** The handle constructor: a new object (at the unused identity `newId`)
      with a new counter of 1. */
  function MakeFrom(hp: Heap, newId: Id): (r: (Heap, nat))
    requires Valid(hp) && newId !in hp.counters
    ensures Valid(r.0)
    ensures r.1 == |hp.handles| && r.0.handles == hp.handles + [Some(newId)]
    ensures r.0.counters == hp.counters[newId := RefCount(1)]
    ensures IsValid(r.0, r.1) && Get(r.0, r.1) == Some(newId) && Holders(r.0, newId) == 1
  {
    assert Some(newId) !in multiset(hp.handles);
    var r := Heap(hp.counters[newId := RefCount(1)], hp.handles + [Some(newId)]);
    assert forall id :: id != newId ==> Holders(r, id) == Holders(hp, id);
    (r, |hp.handles|)
  }

  /** The copy constructor: a copy of a valid handle shares its object and
      counter and adds one to the count; a copy of a null handle is null. */
  function Copy(hp: Heap, h: nat): (r: (Heap, nat))
    requires Valid(hp) && h < |hp.handles|
    requires IsValid(hp, h) ==> hp.counters[hp.handles[h].value].count < Int32Max
    ensures Valid(r.0)
    ensures r.1 == |hp.handles| && r.0.handles == hp.handles + [hp.handles[h]]
    ensures Equal(r.0, r.1, h)
    ensures !IsValid(hp, h) ==> r.0.counters == hp.counters
    ensures IsValid(hp, h) ==>
      var id := hp.handles[h].value;
      r.0.counters == hp.counters[id := RefCount(hp.counters[id].count + 1)]
  {
    match hp.handles[h]
    case None =>
      MakeNull(hp)
    case Some(id) =>
      var r := Heap(hp.counters[id := Add(hp.counters[id]).1], hp.handles + [Some(id)]);
      assert forall other :: other != id ==> Holders(r, other) == Holders(hp, other);
      (r, |hp.handles|)
  }

  /** The destructor: a valid handle releases one count, frees object and
      counter when that count was the last, and becomes null. A null
      handle's destructor does nothing. */
  function Destroy(hp: Heap, h: nat): (r: Heap)
    requires Valid(hp) && h < |hp.handles|
    ensures Valid(r)
    ensures r.handles == hp.handles[h := None]
    ensures !IsValid(hp, h) ==> r == hp
    ensures IsValid(hp, h) ==>
      var id := hp.handles[h].value;
      && (Holders(hp, id) == 1 ==> r.counters == hp.counters - {id})
      && (Holders(hp, id) > 1 ==> r.counters == hp.counters[id := RefCount(hp.counters[id].count - 1)])
  {
    match hp.handles[h]
    case None =>
      assert hp.handles[h := None] == hp.handles;
      hp
    case Some(id) =>
      var c := Release(hp.counters[id]).1;
      assert c.count == Holders(hp, id) - 1;
      var handles := hp.handles[h := None];
      var r := Heap(if IsFree(c) then hp.counters - {id} else hp.counters[id := c], handles);
      assert Holders(r, id) == Holders(hp, id) - 1;
      assert forall other :: other != id ==> Holders(r, other) == Holders(hp, other);
      assert forall k :: 0 <= k < |handles| && handles[k] == Some(id) ==> !IsFree(c) by {
        forall k | 0 <= k < |handles| && handles[k] == Some(id)
          ensures !IsFree(c)
        {
          assert Some(id) in multiset(handles);
        }
      }
      r
  }

  /** `Reset` runs the destructor in place. */
  function Reset(hp: Heap, h: nat): (r: Heap)
    requires Valid(hp) && h < |hp.handles|
    ensures r == Destroy(hp, h)
    ensures Valid(r) && !IsValid(r, h) && Get(r, h) == None
  {
    Destroy(hp, h)
  }

  /** Points the null handle `h` at the live object `id`, adding one to
      its count: the second half of assignment. */
  function Share(hp: Heap, h: nat, id: Id): (r: Heap)
    requires Valid(hp) && h < |hp.handles| && !IsValid(hp, h)
    requires id in hp.counters && hp.counters[id].count < Int32Max
    ensures Valid(r)
    ensures r.handles == hp.handles[h := Some(id)]
    ensures r.counters == hp.counters[id := RefCount(hp.counters[id].count + 1)]
  {
    var r := Heap(hp.counters[id := Add(hp.counters[id]).1], hp.handles[h := Some(id)]);
    assert Holders(r, id) == Holders(hp, id) + 1;
    assert forall other :: other != id ==> Holders(r, other) == Holders(hp, other);
    r
  }

  /** Copy assignment `dst = src`. Assigning a handle to itself does
      nothing; otherwise `dst` first releases what it held, then shares
      `src`'s object and adds one to its count if `src` is valid. */
  function Assign(hp: Heap, dst: nat, src: nat): (r: Heap)
    requires Valid(hp) && dst < |hp.handles| && src < |hp.handles|
    requires IsValid(hp, src) && hp.handles[src] != hp.handles[dst] ==>
               hp.counters[hp.handles[src].value].count < Int32Max
    ensures Valid(r)
    ensures dst == src ==> r == hp
    ensures r.handles == hp.handles[dst := hp.handles[src]]
    ensures Equal(r, dst, src)
    ensures !IsValid(hp, src) ==> r == Destroy(hp, dst)
    ensures IsValid(hp, src) && hp.handles[src] != hp.handles[dst] ==>
      var id := hp.handles[src].value;
      r.counters[id].count == hp.counters[id].count + 1
    ensures hp.handles[src] == hp.handles[dst] ==> r == hp
  {
    if dst == src then hp
    else if !IsValid(hp, src) then
      var d := Destroy(hp, dst);
      assert d.handles[dst := None] == d.handles;
      d
    else
      ShareFrom(hp, dst, src)
  }

  /** Assignment from a valid handle other than the target. */
  function ShareFrom(hp: Heap, dst: nat, src: nat): (r: Heap)
    requires Valid(hp) && dst < |hp.handles| && src < |hp.handles| && dst != src
    requires IsValid(hp, src)
    requires hp.handles[src] != hp.handles[dst] ==> hp.counters[hp.handles[src].value].count < Int32Max
    ensures Valid(r)
    ensures r.handles == hp.handles[dst := hp.handles[src]]
    ensures hp.handles[src].value in r.counters
    ensures hp.handles[src] != hp.handles[dst] ==>
      var id := hp.handles[src].value;
      r.counters[id].count == hp.counters[id].count + 1
    ensures hp.handles[src] == hp.handles[dst] ==> r == hp
  {
    var id := hp.handles[src].value;
    if hp.handles[dst] == Some(id) then
      RebindToSameObject(hp, dst, src);
      Share(Destroy(hp, dst), dst, id)
    else
      RebindToOtherObject(hp, dst, src);
      Share(Destroy(hp, dst), dst, id)
  }

  /** Releasing a handle and sharing a different live object adds one to
      that object's count and moves the handle over. */
  lemma {:induction false} RebindToOtherObject(hp: Heap, dst: nat, src: nat)
    requires Valid(hp) && dst < |hp.handles| && src < |hp.handles| && dst != src
    requires IsValid(hp, src) && hp.handles[src] != hp.handles[dst]
    requires hp.counters[hp.handles[src].value].count < Int32Max
    ensures var id := hp.handles[src].value;
            var d := Destroy(hp, dst);
            && id in d.counters && d.counters[id].count < Int32Max && !IsValid(d, dst)
            && Share(d, dst, id).handles == hp.handles[dst := Some(id)]
            && Share(d, dst, id).counters[id].count == hp.counters[id].count + 1
  {
    var id := hp.handles[src].value;
    DestroyKeepsOtherCounters(hp, dst, id);
    var d := Destroy(hp, dst);
    assert d.handles[dst := Some(id)] == hp.handles[dst := Some(id)];
  }

  /** Destroying a handle leaves the counter of every other object as it was. */
  lemma {:induction false} DestroyKeepsOtherCounters(hp: Heap, h: nat, id: Id)
    requires Valid(hp) && h < |hp.handles| && id in hp.counters && hp.handles[h] != Some(id)
    ensures id in Destroy(hp, h).counters && Destroy(hp, h).counters[id] == hp.counters[id]
  {
  }

  /** Releasing a handle and sharing the same object again restores the heap. */
  lemma {:induction false} RebindToSameObject(hp: Heap, dst: nat, src: nat)
    requires Valid(hp) && dst < |hp.handles| && src < |hp.handles| && dst != src
    requires IsValid(hp, src) && hp.handles[src] == hp.handles[dst]
    ensures var id := hp.handles[src].value;
            var d := Destroy(hp, dst);
            && id in d.counters && d.counters[id].count < Int32Max && !IsValid(d, dst)
            && Share(d, dst, id) == hp
  {
    var id := hp.handles[src].value;
    EqualMeansSameObject(hp, src, dst);
    var d := Destroy(hp, dst);
    RestoreSlot(hp.handles, dst);
    RestoreCount(hp.counters, id);
  }

  lemma {:induction false} RestoreSlot(handles: seq<Option<Id>>, h: nat)
    requires h < |handles| && handles[h].Some?
    ensures handles[h := None][h := Some(handles[h].value)] == handles
  {
  }

  lemma {:induction false} RestoreCount(counters: map<Id, RefCount>, id: Id)
    requires id in counters && Int32Min < counters[id].count
    ensures var m := counters[id := RefCount(counters[id].count - 1)];
            m[id := RefCount(m[id].count + 1)] == counters
  {
  }

  /** Destroying one of two handles that share an object leaves the object
      reachable through the other. */
  lemma {:induction false} SharedObjectOutlivesOneHandle(hp: Heap, a: nat, b: nat)
    requires Valid(hp) && a < |hp.handles| && b < |hp.handles| && a != b
    requires IsValid(hp, a) && Equal(hp, a, b)
    ensures Get(Destroy(hp, a), b) == hp.handles[b]
  {
  }
}
