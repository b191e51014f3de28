/** Store/load round trips: a caller that loads with the same sequence of
    calls it stored with gets its values back. */
module SerializerRoundTrip {
  import opened Common
  import opened Serializer

  /** The number of bytes a sequence of values occupies. */
  function TotalWidth(values: seq<seq<byte>>): nat {
    if |values| == 0 then 0 else |values[0]| + TotalWidth(values[1..])
  }

  /** The bytes a sequence of values leaves in the buffer, one after the other. */
  function Image(values: seq<seq<byte>>, e: Endian): (r: seq<byte>)
    ensures |r| == TotalWidth(values)
  {
    if |values| == 0 then [] else Oriented(values[0], e) + Image(values[1..], e)
  }

  /** Consecutive `NextArray` calls over whole values, as a caller chains
      them without looking at the individual results. Returns the final
      state and the caller's buffers afterwards. */
  function NextAll(s: State, values: seq<seq<byte>>): (r: (State, seq<seq<byte>>))
    requires Valid(s)
    requires forall k :: 0 <= k < |values| ==> |values[k]| < U32_LIMIT
    ensures Valid(r.0) && |r.1| == |values|
    ensures r.0.(bytes := s.bytes, index := s.index) == s
    decreases |values|
  {
    if |values| == 0 then (s, [])
    else
      var t := NextArray(s, values[0], |values[0]|);
      var rest := NextAll(t.s, values[1..]);
      (rest.0, [t.value] + rest.1)
  }

  /** A single value stored at some position comes back from a load at the
      same position: unchanged under the same endianness, reversed under
      the other. */
  lemma {:induction false} StoreThenLoad(s: State, v: seq<byte>, l: State, slot: seq<byte>)
    requires Valid(s) && s.mode == Store && |v| < U32_LIMIT && Fits(s, |v|)
    requires Valid(l) && l.mode == Load && l.index == s.index && |slot| == |v| && Fits(l, |v|)
    requires l.bytes[l.index..l.index + |v|] == NextArray(s, v, |v|).s.bytes[s.index..s.index + |v|]
    ensures NextArray(l, slot, |v|).ok
    ensures l.endian == s.endian ==> NextArray(l, slot, |v|).value == v
    ensures l.endian != s.endian ==> NextArray(l, slot, |v|).value == Reverse(v)
  {
    var w := Oriented(v, s.endian);
    StoredSpan(s, v);
    LoadSpanOf(l, slot, w);
    if l.endian == s.endian {
      OrientedTwice(v, s.endian);
    }
  }

  /** A load whose span holds `w` fills the caller's slot with `w` oriented. */
  lemma {:induction false} LoadSpanOf(l: State, slot: seq<byte>, w: seq<byte>)
    requires Valid(l) && l.mode == Load && |slot| < U32_LIMIT && Fits(l, |slot|)
    requires l.bytes[l.index..l.index + |slot|] == w
    ensures NextArray(l, slot, |slot|).value == Oriented(w, l.endian)
  {
    LoadStep(l, slot);
  }

  /** A stored value's oriented bytes sit at the old cursor. */
  lemma {:induction false} StoredSpan(s: State, v: seq<byte>)
    requires Valid(s) && s.mode == Store && |v| < U32_LIMIT && Fits(s, |v|)
    ensures NextArray(s, v, |v|).s.bytes[s.index..s.index + |v|] == Oriented(v, s.endian)
  {
    StoreStep(s, v);
    SplicedSpan(s.bytes, s.index, Oriented(v, s.endian));
  }

  /** The bytes spliced in at a position are read back from that position. */
  lemma {:induction false} SplicedSpan(b: seq<byte>, i: nat, x: seq<byte>)
    requires i + |x| <= |b|
    ensures (b[..i] + x + b[i + |x|..])[i..i + |x|] == x
  {
  }

  /** A slice holding `x + y` holds `x` in its front and `y` behind it. */
  lemma {:induction false} SliceOfConcat(b: seq<byte>, i: nat, x: seq<byte>, y: seq<byte>)
    requires i + |x| + |y| <= |b| && b[i..i + |x| + |y|] == x + y
    ensures b[i..i + |x|] == x && b[i + |x|..i + |x| + |y|] == y
  {
    var span := b[i..i + |x| + |y|];
    assert b[i..i + |x|] == span[..|x|];
    assert b[i + |x|..i + |x| + |y|] == span[|x|..];
  }

  /** Two adjacent splices are one splice of the concatenation. */
  lemma {:induction false} SpliceTwice(b: seq<byte>, i: nat, x: seq<byte>, y: seq<byte>, b1: seq<byte>, b2: seq<byte>)
    requires i + |x| + |y| <= |b|
    requires b1 == b[..i] + x + b[i + |x|..]
    requires b2 == b1[..i + |x|] + y + b1[i + |x| + |y|..]
    ensures b2 == b[..i] + (x + y) + b[i + |x| + |y|..]
  {
  }

  /** One stored value: its oriented bytes are spliced in at the cursor. */
  lemma {:induction false} StoreStep(s: State, v: seq<byte>)
    requires Valid(s) && s.mode == Store && |v| < U32_LIMIT && Fits(s, |v|)
    ensures var t := NextArray(s, v, |v|);
            && t.ok && t.value == v && t.s.index == s.index + |v|
            && t.s.bytes == s.bytes[..s.index] + Oriented(v, s.endian) + s.bytes[s.index + |v|..]
  {
    assert v[..|v|] == v;
  }

  /** The bytes a run of stores leaves: the image after the cursor and the
      old bytes everywhere else. */
  predicate WroteImage(s: State, values: seq<seq<byte>>, r: State)
    requires Valid(s) && Fits(s, TotalWidth(values))
  {
    && r.index == s.index + TotalWidth(values)
    && r.bytes == s.bytes[..s.index] + Image(values, s.endian) + s.bytes[s.index + TotalWidth(values)..]
  }

  /** Storing runs of values writes their image after the cursor and nothing else. */
  lemma {:induction false} StoreAllWritesImage(s: State, values: seq<seq<byte>>)
    requires Valid(s) && s.mode == Store
    requires forall k :: 0 <= k < |values| ==> |values[k]| < U32_LIMIT
    requires Fits(s, TotalWidth(values))
    ensures WroteImage(s, values, NextAll(s, values).0)
    ensures NextAll(s, values).1 == values
    decreases |values|
  {
    if |values| > 0 {
      var s1 := StoreHead(s, values);
      StoreAllWritesImage(s1, values[1..]);
      StoreCons(s, values, s1, NextAll(s1, values[1..]).0);
      assert [values[0]] + values[1..] == values;
    } else {
      assert s.bytes[..s.index] + [] + s.bytes[s.index..] == s.bytes;
    }
  }

  /** A run is its first call followed by the run of the rest. */
  lemma {:induction false} NextAllCons(s: State, values: seq<seq<byte>>)
    requires Valid(s) && |values| > 0
    requires forall k :: 0 <= k < |values| ==> |values[k]| < U32_LIMIT
    ensures var t := NextArray(s, values[0], |values[0]|);
            var rest := NextAll(t.s, values[1..]);
            NextAll(s, values) == (rest.0, [t.value] + rest.1)
  {
  }

  /** The first store of a run: the state `s1` it leaves, which the rest of
      the run starts from. */
  lemma {:induction false} StoreHead(s: State, values: seq<seq<byte>>) returns (s1: State)
    requires Valid(s) && s.mode == Store && |values| > 0
    requires forall k :: 0 <= k < |values| ==> |values[k]| < U32_LIMIT
    requires Fits(s, TotalWidth(values))
    ensures Valid(s1) && s1.mode == Store && s1.endian == s.endian
    ensures TotalWidth(values) == |values[0]| + TotalWidth(values[1..])
    ensures Fits(s1, TotalWidth(values[1..]))
    ensures forall k :: 0 <= k < |values[1..]| ==> |values[1..][k]| < U32_LIMIT
    ensures s1.index == s.index + |values[0]|
    ensures s1.bytes == s.bytes[..s.index] + Oriented(values[0], s.endian) + s.bytes[s.index + |values[0]|..]
    ensures var rest := NextAll(s1, values[1..]);
            NextAll(s, values) == (rest.0, [values[0]] + rest.1)
  {
    StoreStep(s, values[0]);
    s1 := NextArray(s, values[0], |values[0]|).s;
    ImageCons(values, s.endian);
    NextAllCons(s, values);
  }

  /** If the rest of a run leaves `r` after the first store left `s1`, the
      whole run leaves `r` after the start. */
  lemma {:induction false} StoreCons(s: State, values: seq<seq<byte>>, s1: State, r: State)
    requires Valid(s) && |values| > 0 && Fits(s, TotalWidth(values))
    requires Valid(s1) && s1.endian == s.endian && Fits(s1, TotalWidth(values[1..]))
    requires TotalWidth(values) == |values[0]| + TotalWidth(values[1..])
    requires s1.index == s.index + |values[0]|
    requires s1.bytes == s.bytes[..s.index] + Oriented(values[0], s.endian) + s.bytes[s.index + |values[0]|..]
    requires WroteImage(s1, values[1..], r)
    ensures WroteImage(s, values, r)
  {
    var e := s.endian;
    var x, y := Oriented(values[0], e), Image(values[1..], e);
    ImageCons(values, e);
    assert |x| == |values[0]| && |y| == TotalWidth(values[1..]);
    SpliceTwice(s.bytes, s.index, x, y, s1.bytes, r.bytes);
  }

  /** The image of a run is the first value's bytes followed by the image of the rest. */
  lemma {:induction false} ImageCons(values: seq<seq<byte>>, e: Endian)
    requires |values| > 0
    ensures |Oriented(values[0], e)| == |values[0]|
    ensures TotalWidth(values) == |values[0]| + TotalWidth(values[1..])
    ensures Image(values, e) == Oriented(values[0], e) + Image(values[1..], e)
  {
  }

  /** One loaded value: the caller's slot receives the oriented bytes at the cursor. */
  lemma {:induction false} LoadStep(l: State, slot: seq<byte>)
    requires Valid(l) && l.mode == Load && |slot| < U32_LIMIT && Fits(l, |slot|)
    ensures var t := NextArray(l, slot, |slot|);
            && t.ok && t.s == l.(index := l.index + |slot|)
            && t.value == Oriented(l.bytes[l.index..l.index + |slot|], l.endian)
  {
    assert slot[|slot|..] == [];
  }

  /** Loading runs of values whose image lies after the cursor recovers
      them, whatever the caller's buffers held before. */
  lemma {:induction false} LoadAllReadsImage(l: State, values: seq<seq<byte>>, slots: seq<seq<byte>>)
    requires Valid(l) && l.mode == Load
    requires |slots| == |values|
    requires forall k :: 0 <= k < |values| ==> |values[k]| < U32_LIMIT && |slots[k]| == |values[k]|
    requires Fits(l, TotalWidth(values))
    requires l.bytes[l.index..l.index + TotalWidth(values)] == Image(values, l.endian)
    ensures NextAll(l, slots).0.index == l.index + TotalWidth(values)
    ensures NextAll(l, slots).1 == values
    decreases |values|
  {
    if |values| > 0 {
      var l1 := LoadHead(l, values, slots);
      LoadAllReadsImage(l1, values[1..], slots[1..]);
      assert [values[0]] + values[1..] == values;
    }
  }

  /** The first load of a run: the state `l1` it leaves, which the rest of
      the run starts from, having recovered the first value. */
  lemma {:induction false} LoadHead(l: State, values: seq<seq<byte>>, slots: seq<seq<byte>>) returns (l1: State)
    requires Valid(l) && l.mode == Load && |values| > 0
    requires |slots| == |values|
    requires forall k :: 0 <= k < |values| ==> |values[k]| < U32_LIMIT && |slots[k]| == |values[k]|
    requires Fits(l, TotalWidth(values))
    requires l.bytes[l.index..l.index + TotalWidth(values)] == Image(values, l.endian)
    ensures Valid(l1) && l1.mode == Load && l1.endian == l.endian
    ensures TotalWidth(values) == |values[0]| + TotalWidth(values[1..])
    ensures l1.index == l.index + |values[0]| && Fits(l1, TotalWidth(values[1..]))
    ensures l1.bytes[l1.index..l1.index + TotalWidth(values[1..])] == Image(values[1..], l.endian)
    ensures |slots[1..]| == |values[1..]|
    ensures forall k :: 0 <= k < |values[1..]| ==> |values[1..][k]| < U32_LIMIT && |slots[1..][k]| == |values[1..][k]|
    ensures var rest := NextAll(l1, slots[1..]);
            NextAll(l, slots) == (rest.0, [values[0]] + rest.1)
  {
    var v, e := values[0], l.endian;
    ImageHead(l.bytes, l.index, values, e);
    LoadStep(l, slots[0]);
    var t := NextArray(l, slots[0], |v|);
    assert |slots[0]| == |v|;
    OrientedTwice(v, e);
    l1 := t.s;
    NextAllCons(l, slots);
  }

  /** Orienting twice the same way gives the value back. */
  lemma {:induction false} OrientedTwice(v: seq<byte>, e: Endian)
    ensures Oriented(Oriented(v, e), e) == v
  {
    ReverseReverse(v);
  }

  /** The image of a run of values starts with the first value's bytes and
      continues with the image of the rest. */
  lemma {:induction false} ImageHead(b: seq<byte>, i: nat, values: seq<seq<byte>>, e: Endian)
    requires |values| > 0 && i + TotalWidth(values) <= |b|
    requires b[i..i + TotalWidth(values)] == Image(values, e)
    ensures TotalWidth(values) == |values[0]| + TotalWidth(values[1..])
    ensures b[i..i + |values[0]|] == Oriented(values[0], e)
    ensures b[i + |values[0]|..i + TotalWidth(values)] == Image(values[1..], e)
  {
    var x, y := Oriented(values[0], e), Image(values[1..], e);
    ImageCons(values, e);
    assert |x| == |values[0]| && |y| == TotalWidth(values[1..]);
    SliceOfConcat(b, i, x, y);
  }

  /** The round trip of a whole pass: values stored from the start of the
      buffer come back when the same calls are replayed after rewinding and
      switching to LOAD, in either endianness. */
  lemma {:induction false} RoundTrip(s: State, values: seq<seq<byte>>, slots: seq<seq<byte>>)
    requires Valid(s) && s.mode == Store && s.index == 0
    requires |slots| == |values|
    requires forall k :: 0 <= k < |values| ==> |values[k]| < U32_LIMIT && |slots[k]| == |values[k]|
    requires TotalWidth(values) <= s.byteCount
    ensures var stored := NextAll(s, values).0;
            var l := SetMode(SetPosition(stored, 0), Load);
            NextAll(l, slots).1 == values
  {
    var stored := NextAll(s, values).0;
    StoreAllWritesImage(s, values);
    var l := SetMode(SetPosition(stored, 0), Load);
    assert l.bytes[0..TotalWidth(values)] == Image(values, s.endian);
    LoadAllReadsImage(l, values, slots);
  }
}
