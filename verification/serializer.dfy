/** The Serializer byte-buffer engine: one byte buffer with a capacity and a
    cursor, a STORE/LOAD mode and a LITTLE/BIG endianness.

    The state is an immutable record; each member function of the C++ class
    becomes a pure function from the old state to the new one. */
module Serializer {
  import opened Common

  /** serializer.h:209 (equal to `GB_1`). */
  const MaxByteCount: u32 := 1073741824

  /** serializer.h:171-172. */
  const MaxSections: nat := 128
  const MaxNameLength: nat := 128

  datatype Mode = Store | Load

  datatype Endian = Little | Big

  /** One entry of the section-label table: a name and the span it labels. */
  datatype Section = Section(name: string, offset: u32, size: u32)

  /** The fields of the class. `sections` holds the used prefix of the fixed
      table, so `|sections|` is `sectionCount`; `bytes` holds the `byteCount`
      addressable cells of the buffer. */
  datatype State = State(
    bytes: seq<byte>,
    byteCount: u32,
    index: u32,
    mode: Mode,
    endian: Endian,
    sections: seq<Section>)

  /** What every reachable state satisfies. */
  predicate Valid(s: State) {
    && |s.bytes| == s.byteCount
    && s.index <= s.byteCount <= MaxByteCount
    && |s.sections| <= MaxSections
    && forall k :: 0 <= k < |s.sections| ==>
         |s.sections[k].name| < MaxNameLength && '\0' !in s.sections[k].name
  }

  // ---------------------------------------------------------------------
  // Buffer lifecycle

  /** The constructor. `contents` stands for the indeterminate bytes that
      `new uint8_t[]` hands back; the cursor starts at 0 and `Clear` then
      zeroes the (empty) prefix before it. */
  function Create(sizeInBytes: u32, mode: Mode, contents: seq<byte>): (s: State)
    requires |contents| == Min(MaxByteCount, sizeInBytes)
    ensures Valid(s)
    ensures s.byteCount <= sizeInBytes && s.byteCount <= MaxByteCount
    ensures s.byteCount == sizeInBytes || s.byteCount == MaxByteCount
    ensures s.index == 0 && s.mode == mode && s.endian == Little && s.sections == []
    ensures s.bytes == contents
    ensures sizeInBytes == 0 ==> forall n: u32 :: 0 < n ==> !CanStore(s, n)
  {
    Clear(State(contents, Min(MaxByteCount, sizeInBytes), 0, mode, Little, []))
  }

  /** `SetPosition` ignores its argument and rewinds the cursor to 0. */
  function SetPosition(s: State, index: u32): (r: State)
    ensures r.index == 0
    ensures r.(index := s.index) == s
    ensures Valid(s) ==> Valid(r)
  {
    s.(index := 0)
  }

  /** `Clear` zeroes the bytes before the cursor and rewinds it. */
  function Clear(s: State): (r: State)
    requires Valid(s)
    ensures Valid(r)
    ensures r.index == 0
    ensures |r.bytes| == |s.bytes|
    ensures forall i :: 0 <= i < |s.bytes| ==> r.bytes[i] == (if i < s.index then 0 else s.bytes[i])
    ensures r.(bytes := s.bytes, index := s.index) == s
  {
    SetPosition(s.(bytes := Zeros(s.index) + s.bytes[s.index..]), 0)
  }

  /** A second `Clear` finds the cursor at 0 and changes nothing. */
  lemma {:induction false} ClearIdempotent(s: State)
    requires Valid(s)
    ensures Clear(Clear(s)) == Clear(s)
  {
    var c := Clear(s);
    assert Zeros(c.index) + c.bytes[c.index..] == c.bytes;
  }

  /** `Grow` reallocates the buffer `n` bytes larger. The sum is taken in 64
      bits, so it cannot wrap. */
  function Grow(s: State, n: u32): (r: (bool, State))
    requires Valid(s)
    ensures Valid(r.1)
    ensures r.0 <==> 0 < n && s.byteCount + n < MaxByteCount
    ensures !r.0 ==> r.1 == s
    ensures r.0 ==> r.1.byteCount == s.byteCount + n
    ensures r.0 ==> r.1.bytes[..s.byteCount] == s.bytes
    ensures r.0 ==> forall i :: s.byteCount <= i < r.1.byteCount ==> r.1.bytes[i] == 0
    ensures r.1.(bytes := s.bytes, byteCount := s.byteCount) == s
  {
    if n == 0 then (false, s)
    else if s.byteCount + n >= MaxByteCount then (false, s)
    else (true, s.(bytes := s.bytes + Zeros(n), byteCount := s.byteCount + n))
  }

  /** Once `Grow` has succeeded the capacity is strictly below the ceiling,
      although the constructor alone can reach the ceiling exactly. */
  lemma {:induction false} GrowNeverReachesCeiling(s: State, n: u32)
    requires Valid(s)
    requires Grow(s, n).0
    ensures Grow(s, n).1.byteCount < MaxByteCount
  {
  }

  lemma {:induction false} CreateReachesCeiling(contents: seq<byte>)
    requires |contents| == MaxByteCount
    ensures Create(0xFFFF_FFFF, Store, contents).byteCount == MaxByteCount
  {
  }

  function CurrentSize(s: State): u32 {
    s.index
  }

  function BufferSize(s: State): u32 {
    s.byteCount
  }

  // ---------------------------------------------------------------------
  // Mode and endianness

  /** Overwrites the mode at any cursor position: there is no mode lock. */
  function SetMode(s: State, mode: Mode): (r: State)
    ensures r.mode == mode
    ensures r.(mode := s.mode) == s
    ensures Valid(s) ==> Valid(r)
  {
    s.(mode := mode)
  }

  function SetEndian(s: State, endian: Endian): (r: State)
    ensures r.endian == endian
    ensures r.(endian := s.endian) == s
    ensures Valid(s) ==> Valid(r)
  {
    s.(endian := endian)
  }

  // ---------------------------------------------------------------------
  // Bounds test

  /** The bounds test as the code computes it: `index + n` is a `uint32_t`
      sum and wraps at 2^32. It accepts every size that fits, and besides
      those every size whose sum wraps around to a point inside the buffer. */
  function CanStore(s: State, n: u32): (r: bool)
    ensures Fits(s, n) ==> r
    ensures r <==> Fits(s, n) || (s.index + n >= U32_LIMIT && s.index + n - U32_LIMIT <= s.byteCount)
  {
    (CurrentSize(s) + n) % U32_LIMIT <= BufferSize(s)
  }

  /** The bounds test the code intends: `n` more bytes fit after the cursor. */
  predicate Fits(s: State, n: nat) {
    s.index + n <= s.byteCount
  }

  /** Without a wrap the two tests agree. */
  lemma {:induction false} CanStoreExactWithoutWrap(s: State, n: u32)
    requires s.index + n < U32_LIMIT
    ensures CanStore(s, n) <==> Fits(s, n)
  {
  }

  /** The wrapped test accepts a size that does not fit. */
  lemma {:induction false} CanStoreAcceptsOverrun()
    ensures var s := State(Zeros(16), 16, 8, Store, Little, []);
            Valid(s) && CanStore(s, 0xFFFF_FFF8) && !Fits(s, 0xFFFF_FFF8)
  {
  }

  // ---------------------------------------------------------------------
  // Byte transfer

  /** The outcome of one `Next`/`NextArray` call: its boolean result, the new
      state and the caller's buffer afterwards. */
  datatype Transfer = Transfer(ok: bool, s: State, value: seq<byte>)

  /** A value's bytes in buffer order: BIG reverses the value's own span. */
  function Oriented(v: seq<byte>, e: Endian): seq<byte> {
    if e == Big then Reverse(v) else v
  }

  /** `NextArray` with the intended bounds test. STORE copies `value[..n]`
      into the buffer at the cursor, LOAD copies `n` buffer bytes into the
      caller's buffer; both advance the cursor by `n`. */
  function NextArray(s: State, value: seq<byte>, n: u32): (t: Transfer)
    requires Valid(s) && n <= |value|
    ensures Valid(t.s)
    ensures t.ok <==> Fits(s, n)
    ensures !t.ok ==> t.s == s && t.value == value
    ensures t.ok ==> t.s.index == s.index + n
    ensures t.s.(bytes := s.bytes, index := s.index) == s
    ensures |t.value| == |value|
    ensures t.ok && s.mode == Store ==> t.value == value && |t.s.bytes| == |s.bytes|
    ensures t.ok && s.mode == Load ==> t.s.bytes == s.bytes
  {
    if !Fits(s, n) then Transfer(false, s, value)
    else
      var i := s.index;
      if s.mode == Load then
        Transfer(true, s.(index := i + n), Oriented(s.bytes[i..i + n], s.endian) + value[n..])
      else
        Transfer(true, s.(bytes := s.bytes[..i] + Oriented(value[..n], s.endian) + s.bytes[i + n..], index := i + n), value)
  }

  /** STORE changes only the `n` buffer bytes at the cursor: LITTLE puts
      `value[k]` at `index + k`, BIG puts it at `index + n - 1 - k`, the
      exact reverse over the same span. */
  lemma {:induction false} StoreWritesSpan(s: State, value: seq<byte>, n: u32)
    requires Valid(s) && n <= |value| && s.mode == Store && Fits(s, n)
    ensures var t := NextArray(s, value, n);
      && t.ok && |t.s.bytes| == |s.bytes|
      && (forall i :: 0 <= i < |s.bytes| && !(s.index <= i < s.index + n) ==> t.s.bytes[i] == s.bytes[i])
      && (forall k :: 0 <= k < n ==>
            t.s.bytes[s.index + k] == if s.endian == Little then value[k] else value[n - 1 - k])
  {
    var i := s.index;
    var t := NextArray(s, value, n);
    var o := Oriented(value[..n], s.endian);
    assert t.s.bytes == s.bytes[..i] + o + s.bytes[i + n..];
    forall k | 0 <= k < n
      ensures t.s.bytes[i + k] == if s.endian == Little then value[k] else value[n - 1 - k]
    {
      assert t.s.bytes[i + k] == o[k];
    }
  }

  /** LOAD leaves the buffer alone and fills the first `n` bytes of the
      caller's buffer from the cursor: LITTLE in order, BIG reversed; the
      rest of the caller's buffer is untouched. */
  lemma {:induction false} LoadReadsSpan(s: State, value: seq<byte>, n: u32)
    requires Valid(s) && n <= |value| && s.mode == Load && Fits(s, n)
    ensures var t := NextArray(s, value, n);
      && t.ok && t.s.bytes == s.bytes && |t.value| == |value|
      && (forall k :: n <= k < |value| ==> t.value[k] == value[k])
      && (forall k :: 0 <= k < n ==>
            t.value[k] == if s.endian == Little then s.bytes[s.index + k] else s.bytes[s.index + n - 1 - k])
  {
  }

  /** The byte-at-a-time loops of `NextArray`, proved to compute `NextArray`. */
  method NextArrayLoop(s: State, value: seq<byte>, n: u32) returns (ok: bool, r: State, out: seq<byte>)
    requires Valid(s) && n <= |value|
    ensures Transfer(ok, r, out) == NextArray(s, value, n)
  {
    if !Fits(s, n) {
      return false, s, value;
    }
    if s.mode == Load {
      out := LoadLoop(s, value, n);
      ok, r := true, s.(index := s.index + n);
    } else {
      var bytes := StoreLoop(s, value, n);
      ok, r, out := true, s.(bytes := bytes, index := s.index + n), value;
    }
  }

  /** The LOAD loop: one buffer byte per step into the caller's buffer,
      front to back for LITTLE and back to front for BIG. */
  method LoadLoop(s: State, value: seq<byte>, n: u32) returns (out: seq<byte>)
    requires Valid(s) && n <= |value| && Fits(s, n) && s.mode == Load
    ensures out == NextArray(s, value, n).value
  {
    var index := s.index;
    out := value;
    var i: u32 := 0;
    while i < n
      invariant i <= n && index == s.index + i
      invariant |out| == |value|
      invariant forall k :: 0 <= k < |out| ==>
        out[k] == if s.endian == Little then (if k < i then s.bytes[s.index + k] else value[k])
                  else (if n - i <= k < n then s.bytes[s.index + n - 1 - k] else value[k])
    {
      if s.endian == Big {
        out := out[n - 1 - i := s.bytes[index]];
      } else {
        out := out[i := s.bytes[index]];
      }
      index := index + 1;
      i := i + 1;
    }
  }

  /** The STORE loop: one caller byte per step into the buffer at the
      cursor, taken front to back for LITTLE and back to front for BIG. */
  method StoreLoop(s: State, value: seq<byte>, n: u32) returns (bytes: seq<byte>)
    requires Valid(s) && n <= |value| && Fits(s, n) && s.mode == Store
    ensures bytes == NextArray(s, value, n).s.bytes
  {
    bytes := s.bytes;
    var index := s.index;
    var i: u32 := 0;
    while i < n
      invariant i <= n && index == s.index + i
      invariant |bytes| == |s.bytes|
      invariant forall k :: 0 <= k < |bytes| ==>
        bytes[k] == if s.index <= k < s.index + i then
                      (if s.endian == Little then value[k - s.index] else value[s.index + n - 1 - k])
                    else s.bytes[k]
    {
      if s.endian == Big {
        bytes := bytes[index := value[n - 1 - i]];
      } else {
        bytes := bytes[index := value[i]];
      }
      index := index + 1;
      i := i + 1;
    }
  }

  /** `NextArray` exactly as written: the wrapped `CanStore` can admit a size
      whose copy loop runs past the end of the buffer (`Overrun`). */
  datatype Guarded = Performed(t: Transfer) | Overrun

  function NextArrayAsWritten(s: State, value: seq<byte>, n: u32): (g: Guarded)
    requires Valid(s) && n <= |value|
    ensures g.Overrun? <==> CanStore(s, n) && !Fits(s, n)
    ensures g.Performed? ==> g.t == NextArray(s, value, n)
  {
    if !CanStore(s, n) then Performed(Transfer(false, s, value))
    else if !Fits(s, n) then Overrun
    else Performed(NextArray(s, value, n))
  }

  /** A concrete call that the code as written lets run off the buffer:
      8 bytes in use of 16, and a request for 2^32 - 8 bytes. */
  lemma {:induction false} NextArrayAsWrittenOverruns()
    ensures var s := State(Zeros(16), 16, 8, Store, Little, []);
            Valid(s) && NextArrayAsWritten(s, Zeros(0xFFFF_FFF8), 0xFFFF_FFF8).Overrun?
  {
    var s := State(Zeros(16), 16, 8, Store, Little, []);
    CanStoreAcceptsOverrun();
    assert CanStore(s, 0xFFFF_FFF8) && !Fits(s, 0xFFFF_FFF8);
  }

  /** With the intended bounds test no call overruns, and on every size
      below the wrap the code as written already behaves so. */
  lemma {:induction false} NextArrayAsWrittenSafeWithoutWrap(s: State, value: seq<byte>, n: u32)
    requires Valid(s) && n <= |value|
    requires s.index + n < U32_LIMIT
    ensures NextArrayAsWritten(s, value, n) == Performed(NextArray(s, value, n))
  {
    CanStoreExactWithoutWrap(s, n);
  }

  /** `Grow` keeps everything a LOAD can see: a read that fitted before reads
      the same bytes afterwards. */
  lemma {:induction false} GrowPreservesLoads(s: State, n: u32, value: seq<byte>, k: u32)
    requires Valid(s) && s.mode == Load && Grow(s, n).0
    requires k <= |value| && Fits(s, k)
    ensures NextArray(Grow(s, n).1, value, k).ok
    ensures NextArray(Grow(s, n).1, value, k).value == NextArray(s, value, k).value
  {
    var g := Grow(s, n).1;
    assert g.bytes[s.index..s.index + k] == s.bytes[s.index..s.index + k];
  }
}
