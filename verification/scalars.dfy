/** The typed `Next` overloads of the Serializer. Each one hands the bytes of
    the caller's variable, `sizeof( T )` of them, to the shared transfer;
    values are modelled as those in-memory bytes. */
module SerializerScalars {
  import opened Common
  import opened Serializer

  /** The argument types of the `Next` overloads. */
  datatype Scalar =
    | Int8 | UInt8 | Bool
    | Int16 | UInt16
    | Int32 | UInt32 | Float
    | Int64 | UInt64 | Double

  /** `sizeof` of each type on the MSVC/x86 host. */
  function Width(t: Scalar): (w: u32)
    ensures w == 1 <==> t in {Int8, UInt8, Bool}
    ensures w == 2 <==> t in {Int16, UInt16}
    ensures w == 4 <==> t in {Int32, UInt32, Float}
    ensures w == 8 <==> t in {Int64, UInt64, Double}
  {
    match t
    case Int8 | UInt8 | Bool => 1
    case Int16 | UInt16 => 2
    case Int32 | UInt32 | Float => 4
    case Int64 | UInt64 | Double => 8
  }

  /** `Next( T& )`: guarded by the wrapped `CanStore`, which for these widths
      never wraps, so a typed transfer is exactly an intended `NextArray`. */
  function Next(s: State, t: Scalar, value: seq<byte>): (r: Transfer)
    requires Valid(s) && |value| == Width(t)
    ensures r == NextArray(s, value, Width(t))
    ensures r.ok <==> s.index + Width(t) <= s.byteCount
  {
    if !CanStore(s, Width(t)) then Transfer(false, s, value)
    else NextArray(s, value, Width(t))
  }

  // ---------------------------------------------------------------------
  // uint32_t in memory on the little-endian host

  function U32Bytes(x: u32): (b: seq<byte>)
    ensures |b| == 4
  {
    [x % 0x100, (x / 0x100) % 0x100, (x / 0x1_0000) % 0x100, x / 0x100_0000]
  }

  function U32Of(b: seq<byte>): u32
    requires |b| == 4
  {
    var b0: int, b1: int, b2: int, b3: int := b[0], b[1], b[2], b[3];
    b0 + 0x100 * b1 + 0x1_0000 * b2 + 0x100_0000 * b3
  }

  /** The in-memory image determines the value and every image is some value. */
  lemma {:induction false} U32BytesRoundTrip(x: u32)
    ensures U32Of(U32Bytes(x)) == x
  {
    var a := x / 0x100;
    var b := a / 0x100;
    assert x == x % 0x100 + 0x100 * a;
    assert a == a % 0x100 + 0x100 * b;
    assert b == x / 0x1_0000;
    assert b / 0x100 == x / 0x100_0000;
    assert b == b % 0x100 + 0x100 * (b / 0x100);
  }

  lemma {:induction false} U32OfRoundTrip(b: seq<byte>)
    requires |b| == 4
    ensures U32Bytes(U32Of(b)) == b
  {
    var x := U32Of(b);
    var b0: int, b1: int, b2: int, b3: int := b[0], b[1], b[2], b[3];
    assert x == b0 + 0x100 * (b1 + 0x100 * (b2 + 0x100 * b3));
    assert x % 0x100 == b0;
    assert x / 0x100 == b1 + 0x100 * (b2 + 0x100 * b3);
    assert x / 0x1_0000 == (x / 0x100) / 0x100 == b2 + 0x100 * b3;
    assert x / 0x100_0000 == (x / 0x1_0000) / 0x100 == b3;
  }

  /** STORE LITTLE puts a uint32 into the buffer least significant byte first;
      STORE BIG puts it most significant byte first, the exact reverse. */
  lemma {:induction false} StoreU32Layout(s: State, x: u32)
    requires Valid(s) && s.mode == Store && Fits(s, 4)
    ensures Next(s, UInt32, U32Bytes(x)).ok
    ensures Next(s, UInt32, U32Bytes(x)).s.bytes[s.index..s.index + 4]
         == if s.endian == Little then U32Bytes(x) else Reverse(U32Bytes(x))
  {
    var t := Next(s, UInt32, U32Bytes(x));
    var want := if s.endian == Little then U32Bytes(x) else Reverse(U32Bytes(x));
    forall k | 0 <= k < 4
      ensures t.s.bytes[s.index..s.index + 4][k] == want[k]
    {
      assert t.s.bytes[s.index + k] == t.s.bytes[s.index..s.index + 4][k];
    }
  }

  /** A typed round trip: a uint32 stored at the start of the buffer comes
      back after rewinding and switching to LOAD with the same endianness,
      whatever the caller's variable held before the load. */
  lemma {:induction false} U32RoundTrip(s: State, x: u32, prior: seq<byte>)
    requires Valid(s) && s.mode == Store && s.index == 0 && 4 <= s.byteCount
    requires |prior| == 4
    ensures var st := Next(s, UInt32, U32Bytes(x)).s;
            var l := SetMode(SetPosition(st, 0), Load);
            var t := Next(l, UInt32, prior);
            t.ok && U32Of(t.value) == x
  {
    var st := Next(s, UInt32, U32Bytes(x)).s;
    var l := SetMode(SetPosition(st, 0), Load);
    var t := Next(l, UInt32, prior);
    forall k | 0 <= k < 4
      ensures t.value[k] == U32Bytes(x)[k]
    {
    }
    assert t.value == U32Bytes(x);
    U32BytesRoundTrip(x);
  }

  /** The store/load scenario: 0x11223344 written LITTLE into a 16-byte
      buffer is the bytes 44 33 22 11, and a fresh LOAD serializer built over
      the same bytes reads the value back. */
  lemma {:induction false} ScenarioStoreThenFreshLoad(junk: seq<byte>, slot: seq<byte>)
    requires |junk| == 16 && |slot| == 4
    ensures var st := Next(Create(16, Store, junk), UInt32, U32Bytes(0x11223344));
            && st.ok && st.s.index == 4
            && st.s.bytes[..4] == [0x44, 0x33, 0x22, 0x11]
            && var t := Next(Create(16, Load, st.s.bytes), UInt32, slot);
               t.ok && t.value == [0x44, 0x33, 0x22, 0x11] && U32Of(t.value) == 0x11223344
  {
    var s := Create(16, Store, junk);
    assert s.index == 0 && s.byteCount == 16 && s.endian == Little;
    var st := Next(s, UInt32, U32Bytes(0x11223344));
    assert U32Bytes(0x11223344) == [0x44, 0x33, 0x22, 0x11];
    StoreU32Layout(s, 0x11223344);
    assert st.s.bytes[..4] == st.s.bytes[0..4] == [0x44, 0x33, 0x22, 0x11];
    var l := Create(16, Load, st.s.bytes);
    assert l.index == 0 && l.byteCount == 16 && l.endian == Little && l.bytes == st.s.bytes;
    var t := Next(l, UInt32, slot);
    assert t.ok;
    forall k | 0 <= k < 4
      ensures t.value[k] == st.s.bytes[..4][k]
    {
    }
    assert t.value == st.s.bytes[..4];
  }

  /** The overrun scenario: an 8-byte double does not fit a 4-byte buffer;
      the call fails and the cursor stays at 0. */
  lemma {:induction false} ScenarioDoubleOverrun(junk: seq<byte>, d: seq<byte>)
    requires |junk| == 4 && |d| == 8
    ensures var s := Create(4, Store, junk);
            var t := Next(s, Double, d);
            !t.ok && t.s == s && t.s.index == 0 && t.value == d
  {
  }
}
