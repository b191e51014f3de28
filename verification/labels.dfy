/** The section-label table of the Serializer: named spans of the buffer,
    recorded by `NewLabel`, closed by `EndLabel` and looked up by
    case-insensitive name with `FindLabel`. */
module SerializerLabels {
  import opened Common
  import opened Serializer

  /** ASCII case folding, as `_strnicmp` does it in the "C" locale. */
  function FoldCase(c: char): char {
    if 'A' <= c <= 'Z' then (c as int + 32) as char else c
  }

  /** `strlen`: the number of characters before the first NUL, or the whole
      length when there is none. */
  function CLength(name: string): (n: nat)
    ensures n <= |name| && '\0' !in name[..n]
    ensures n < |name| ==> name[n] == '\0'
    ensures '\0' !in name ==> n == |name|
    decreases |name|
  {
    if |name| == 0 || name[0] == '\0' then 0
    else
      var n := 1 + CLength(name[1..]);
      assert name[..n] == [name[0]] + name[1..][..n - 1];
      n
  }

  /** What `_strnicmp` reads of a name: the characters before the first NUL,
      at most `MaxNameLength` of them. */
  function Compared(name: string): string {
    name[..Min(CLength(name), MaxNameLength)]
  }

  /** `_strnicmp( a, b, MaxNameLength ) == 0`: the compared prefixes have the
      same length and agree character by character up to case. */
  predicate NamesMatch(a: string, b: string) {
    var x, y := Compared(a), Compared(b);
    |x| == |y| && forall k :: 0 <= k < |x| ==> FoldCase(x[k]) == FoldCase(y[k])
  }

  /** `_strnicmp` stops at a NUL: what follows it never takes part. */
  lemma {:induction false} NulEndsName()
    ensures NamesMatch("a\0b", "A\0c")
    ensures NamesMatch("abc", "ABC\0x") && !NamesMatch("abc", "abcd")
  {
    assert CLength("a\0b") == 1 && CLength("A\0c") == 1;
    assert CLength("abc") == 3 && CLength("ABC\0x") == 3 && CLength("abcd") == 4;
  }

  /** The linear scan from position `i` on: the first matching section. */
  function FindFrom(sections: seq<Section>, name: string, i: nat): (r: Option<nat>)
    requires i <= |sections|
    ensures r.Some? ==>
      && i <= r.value < |sections|
      && NamesMatch(name, sections[r.value].name)
      && forall j :: i <= j < r.value ==> !NamesMatch(name, sections[j].name)
    ensures r.None? ==> forall j :: i <= j < |sections| ==> !NamesMatch(name, sections[j].name)
    decreases |sections| - i
  {
    if i == |sections| then None
    else if NamesMatch(name, sections[i].name) then Some(i)
    else FindFrom(sections, name, i + 1)
  }

  /** `FindLabel`: the position of the first section whose name matches, or
      `None` for the null section pointer and `false`. */
  function FindLabel(s: State, name: string): (r: Option<nat>)
    ensures r.Some? ==>
      && r.value < |s.sections|
      && NamesMatch(name, s.sections[r.value].name)
      && forall j :: 0 <= j < r.value ==> !NamesMatch(name, s.sections[j].name)
    ensures r.None? <==> forall j :: 0 <= j < |s.sections| ==> !NamesMatch(name, s.sections[j].name)
  {
    FindFrom(s.sections, name, 0)
  }

  /** The scan as a loop over the table, proved to find what `FindLabel` finds. */
  method FindLabelLoop(s: State, name: string) returns (found: bool, section: nat)
    ensures found <==> FindLabel(s, name).Some?
    ensures found ==> section == FindLabel(s, name).value
  {
    var i := 0;
    while i < |s.sections|
      invariant i <= |s.sections|
      invariant forall j :: 0 <= j < i ==> !NamesMatch(name, s.sections[j].name)
    {
      if NamesMatch(name, s.sections[i].name) {
        return true, i;
      }
      i := i + 1;
    }
    return false, 0;
  }

  /** `NewLabel` records a section starting at the cursor in the next free
      slot and returns that slot. `strcpy_s` copies the name up to its NUL
      and needs room for it and the terminator; nothing checks the table's
      capacity. Both are the caller's obligation. The slot's `size` is not
      written: `oldSize` stands for whatever the slot held. */
  function NewLabel(s: State, name: string, oldSize: u32): (r: (u32, State))
    requires Valid(s)
    requires |s.sections| < MaxSections && CLength(name) < MaxNameLength
    ensures Valid(r.1)
    ensures r.0 == |s.sections| && |r.1.sections| == |s.sections| + 1
    ensures r.1.sections[..r.0] == s.sections
    ensures r.1.sections[r.0].name == name[..CLength(name)]
    ensures r.1.sections[r.0].offset == s.index && r.1.sections[r.0].size == oldSize
    ensures '\0' !in name ==> r.1.sections[r.0].name == name
    ensures r.1.(sections := s.sections) == s
  {
    (|s.sections|, s.(sections := s.sections + [Section(name[..CLength(name)], s.index, oldSize)]))
  }

  /** `EndLabel` sets the first matching section's size to the distance from
      its offset to the cursor, a `uint32_t` difference that wraps when the
      cursor has been rewound past the offset. Without a match it does nothing. */
  function EndLabel(s: State, name: string): (r: State)
    requires Valid(s)
    ensures Valid(r)
    ensures FindLabel(s, name).None? ==> r == s
    ensures |r.sections| == |s.sections|
    ensures forall k :: 0 <= k < |s.sections| ==>
      && r.sections[k].name == s.sections[k].name
      && r.sections[k].offset == s.sections[k].offset
      && r.sections[k].size == (if FindLabel(s, name) == Some(k)
                                then (s.index - s.sections[k].offset) % U32_LIMIT
                                else s.sections[k].size)
    ensures r.(sections := s.sections) == s
  {
    match FindLabel(s, name)
    case None => s
    case Some(k) =>
      var sec := s.sections[k];
      s.(sections := s.sections[k := sec.(size := (s.index - sec.offset) % U32_LIMIT)])
  }

  /** A freshly opened label is found again under its own name, in any case
      spelling, unless an earlier section already matches. */
  lemma {:induction false} NewLabelIsFound(s: State, name: string, oldSize: u32, query: string)
    requires Valid(s) && |s.sections| < MaxSections && |name| < MaxNameLength && '\0' !in name
    requires |query| == |name| && forall k :: 0 <= k < |name| ==> FoldCase(query[k]) == FoldCase(name[k])
    ensures var (ix, r) := NewLabel(s, name, oldSize);
            FindLabel(r, query).Some? && FindLabel(r, query).value <= ix
    ensures var (ix, r) := NewLabel(s, name, oldSize);
            FindLabel(s, query).None? ==> FindLabel(r, query) == Some(ix as nat)
  {
    var (ix, r) := NewLabel(s, name, oldSize);
    assert forall k :: 0 <= k < |query| ==> query[k] != '\0' by {
      forall k | 0 <= k < |query|
        ensures query[k] != '\0'
      {
        assert name[k] != '\0';
      }
    }
    assert Compared(name) == name && Compared(query) == query;
    assert NamesMatch(query, r.sections[ix].name);
    if FindLabel(s, query).None? {
      assert forall j :: 0 <= j < ix ==> r.sections[j] == s.sections[j];
    }
  }

  /** A label opened before `n` bytes are stored and closed right after spans
      exactly those `n` bytes, when no earlier section shares its name. */
  lemma {:induction false} LabelSpansTransfer(s: State, name: string, oldSize: u32, value: seq<byte>, n: u32)
    requires Valid(s) && |s.sections| < MaxSections && |name| < MaxNameLength && '\0' !in name
    requires FindLabel(s, name).None?
    requires n <= |value| && Fits(s, n)
    ensures var (ix, labelled) := NewLabel(s, name, oldSize);
            var t := NextArray(labelled, value, n);
            var closed := EndLabel(t.s, name);
            t.ok && closed.sections[ix] == Section(name, s.index, n)
  {
    var (ix, labelled) := NewLabel(s, name, oldSize);
    NewLabelIsFound(s, name, oldSize, name);
    var t := NextArray(labelled, value, n);
    assert t.s.sections == labelled.sections;
    assert FindLabel(t.s, name) == FindLabel(labelled, name) == Some(ix as nat);
  }
}
