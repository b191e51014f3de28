/** `SerializeStruct` and `SerializeArray`: a struct, or an array of
    structs, transferred as one opaque byte blob by a single `NextArray`. */
module SerializerBlobs {
  import opened Common
  import opened Serializer
  import opened SerializerRoundTrip

  /** The elements of an array laid out one after the other in memory. */
  function Flatten(elements: seq<seq<byte>>): seq<byte> {
    if |elements| == 0 then [] else elements[0] + Flatten(elements[1..])
  }

  /** The last element first, each element's bytes reversed. */
  function ReversedElements(elements: seq<seq<byte>>): seq<byte> {
    if |elements| == 0 then [] else ReversedElements(elements[1..]) + Reverse(elements[0])
  }

  lemma {:induction false} FlattenLength(elements: seq<seq<byte>>, width: nat)
    requires forall k :: 0 <= k < |elements| ==> |elements[k]| == width
    ensures |Flatten(elements)| == width * |elements|
  {
    if |elements| > 0 {
      FlattenLength(elements[1..], width);
    }
  }

  /** The memory of an array of `|elements|` elements of `width` bytes each. */
  function ArrayBlob(elements: seq<seq<byte>>, width: nat): (data: seq<byte>)
    requires forall k :: 0 <= k < |elements| ==> |elements[k]| == width
    ensures data == Flatten(elements) && |data| == width * |elements|
  {
    FlattenLength(elements, width);
    Flatten(elements)
  }

  /** Reversing the blob of an array reverses the element order as well as
      the bytes of each element. */
  lemma {:induction false} ReverseFlatten(elements: seq<seq<byte>>)
    ensures Reverse(Flatten(elements)) == ReversedElements(elements)
  {
    if |elements| > 0 {
      ReverseFlatten(elements[1..]);
      ReverseAppend(elements[0], Flatten(elements[1..]));
    }
  }

  /** `SerializeStruct`: one `NextArray` over `sizeof( T )` bytes; the size
      reaches the `uint32_t` parameter truncated. */
  function SerializeStruct(s: State, data: seq<byte>): (t: Transfer)
    requires Valid(s)
    ensures t == NextArray(s, data, |data| % U32_LIMIT)
    ensures |data| < U32_LIMIT ==> (t.ok <==> Fits(s, |data|))
    ensures t.ok && |data| < U32_LIMIT && s.mode == Store ==>
      t.s.bytes[s.index..s.index + |data|] == Oriented(data, s.endian)
  {
    var t := NextArray(s, data, |data| % U32_LIMIT);
    assert t.ok && |data| < U32_LIMIT && s.mode == Store ==>
      t.s.bytes[s.index..s.index + |data|] == Oriented(data, s.endian);
    t
  }

  /** A struct stored and then loaded at the same position comes back whole
      under the same byte order, whatever the slot held before. */
  lemma {:induction false} SerializeStructRoundTrip(s: State, data: seq<byte>, l: State, slot: seq<byte>)
    requires Valid(s) && s.mode == Store && |data| < U32_LIMIT
    requires Valid(l) && l.mode == Load && l.index == s.index && l.endian == s.endian
    requires |slot| == |data| && Fits(l, |data|)
    requires SerializeStruct(s, data).ok
    requires l.bytes[l.index..l.index + |data|] == SerializeStruct(s, data).s.bytes[s.index..s.index + |data|]
    ensures SerializeStruct(l, slot).ok && SerializeStruct(l, slot).value == data
  {
    assert |data| % U32_LIMIT == |data|;
    assert SerializeStruct(s, data) == NextArray(s, data, |data|);
    assert SerializeStruct(l, slot) == NextArray(l, slot, |data|);
    StoreThenLoad(s, data, l, slot);
  }

  /** `SerializeArray` exactly as written over the array's memory `data` of
      `count` elements of `width` bytes: the byte count
      `sizeof( T ) * elementCount` reaches `NextArray` truncated to 32 bits,
      so an array of 2^32 bytes or more transfers only the truncated count. */
  function SerializeArray(s: State, data: seq<byte>, width: nat, count: u32): (t: Transfer)
    requires Valid(s) && |data| == width * count
    ensures t == NextArray(s, data, (width * count) % U32_LIMIT)
    ensures width * count < U32_LIMIT ==> (t.ok <==> Fits(s, |data|))
  {
    NextArray(s, data, (width * count) % U32_LIMIT)
  }

  /** 2^30 elements of 4 bytes are 2^32 bytes, truncated to 0: the call
      succeeds and transfers nothing. */
  lemma {:induction false} SerializeArrayTruncates(s: State, data: seq<byte>)
    requires Valid(s) && |data| == 4 * 0x4000_0000
    ensures SerializeArray(s, data, 4, 0x4000_0000).ok
    ensures SerializeArray(s, data, 4, 0x4000_0000).s == s
  {
  }

  /** `SerializeArray` as intended: an array whose byte count does not fit in
      32 bits is refused instead of truncated, so success always means the
      whole array was transferred. */
  function SerializeArrayChecked(s: State, data: seq<byte>, width: nat, count: u32): (t: Transfer)
    requires Valid(s) && |data| == width * count
    ensures t.ok <==> Fits(s, |data|)
    ensures t.ok ==> t.s.index == s.index + |data|
    ensures !t.ok ==> t.s == s
    ensures |data| < U32_LIMIT ==> t == SerializeArray(s, data, width, count)
  {
    if width * count >= U32_LIMIT then Transfer(false, s, data)
    else SerializeArray(s, data, width, count)
  }

  /** Stored BIG, an array's blob holds the last element first and every
      element's bytes reversed. */
  lemma {:induction false} BigArrayReversesElementOrder(s: State, elements: seq<seq<byte>>, width: nat)
    requires Valid(s) && |elements| < U32_LIMIT
    requires forall k :: 0 <= k < |elements| ==> |elements[k]| == width
    requires s.mode == Store && s.endian == Big
    requires SerializeArrayChecked(s, ArrayBlob(elements, width), width, |elements|).ok
    ensures var n := width * |elements|;
            SerializeArrayChecked(s, ArrayBlob(elements, width), width, |elements|).s.bytes[s.index..s.index + n]
              == ReversedElements(elements)
  {
    var data := ArrayBlob(elements, width);
    var n := |data|;
    var t := SerializeArrayChecked(s, data, width, |elements|);
    assert t == NextArray(s, data, n);
    assert t.s.bytes[s.index..s.index + n] == Reverse(data);
    ReverseFlatten(elements);
  }
}
