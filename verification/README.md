# SysCore core in Dafny

A functional model of the core of SysCore, a small C++ systems library:

- the **Serializer**, a byte-buffer engine. It has one growable buffer with a cursor, a STORE/LOAD mode, a LITTLE/BIG byte order and a table of named section labels;
- **`Array<T, N>`**, a fixed-capacity container with a trap slot;
- **`refCount_t`**, a live/dead counter;
- **`ptr_t<T>`**, the shared handle built on `refCount_t`;
- **`SplitFileName`** and **`SplitPath`**, two path-splitting helpers.

Every C++ member function is a pure function from the old state to the new one. The state is an immutable record. C++ unsigned arithmetic that wraps is written out as an explicit `% 2^32` or `% 2^64`.

Modules, one per component:

| file | module | models |
|---|---|---|
| common.dfy | `Common` | fixed-width integer types, `Option`, `Reverse`, `Zeros` |
| serializer.dfy | `Serializer` | buffer lifecycle, bounds test, `NextArray` and its loops |
| scalars.dfy | `SerializerScalars` | the typed `Next` overloads and `sizeof` widths |
| labels.dfy | `SerializerLabels` | `NewLabel`, `EndLabel`, `FindLabel` |
| blobs.dfy | `SerializerBlobs` | `SerializeStruct`, `SerializeArray` |
| roundtrip.dfy | `SerializerRoundTrip` | store-then-load round trips over runs of values |
| array.dfy | `FixedArray` | `Array<T, N>` |
| refcount.dfy | `RefCounter` | `refCount_t` (both copies) |
| smartpointer.dfy | `SmartPointer` | `ptr_t<T>` over an abstract heap |
| systemutils.dfy | `SystemUtils` | `SplitFileName`, `SplitPath` |

Where the declarations in serializer.h and the bodies in serializer.cpp disagree, the model follows the bodies. The differences:

- `SetMode` is declared `bool` (serializer.h:249) but defined `void` (serializer.cpp:73-76), and it overwrites the mode unconditionally. There is no mode lock and nothing reports failure.
- `Clear` is declared with a `clearMemory` flag (serializer.h:241) but defined without one (serializer.cpp:16-20). It zeroes the bytes before the cursor and rewinds it, and nothing else; it does not touch the section table.
- `serializeStatus_t` (serializer.h:42-49) and the `m_code` field (serializer.h:279) are declared, but no body writes a status. `Status` is therefore not modelled.
- `ApplyEndian` and `WordLength` (serializer.h:205, 210) are declared but never defined or used. BIG byte order is a plain reversal of each transferred span.
- `SetPosition(k)` rewinds to 0 whatever `k` is (serializer.cpp:10-13).
- `Next` and `NextArray` are declared `void` (serializer.h:204, 269) but defined to return `bool` (serializer.cpp:125, 160).

`CurrentSize` and `BufferSize` are plain reads of the cursor and the capacity. Their meaning is carried by `CanStore`, `Fits` and the contracts that use them.

`ptr_t` is modelled over an abstract heap. The heap has the live counters, keyed by object identity, and a sequence of handle slots, each holding an identity or nothing. `Valid` is the invariant: every live counter equals the number of handles that share its object, and no handle points at a freed object. Every operation preserves it.

## Model

| member | source | states |
|---|---|---|
| Serializer.Create | serializer.h:212-223 | capacity is `min(MaxByteCount, size)`; cursor 0, LITTLE, the given mode, no sections; with size 0 no `CanStore(n)` for `n > 0` holds |
| Serializer.CreateReachesCeiling | serializer.h:209-216 | the constructor alone can yield a capacity of exactly `MaxByteCount` |
| Serializer.SetPosition | serializer.cpp:10-13 | the cursor becomes 0 whatever the argument; every other field is unchanged |
| Serializer.Clear | serializer.cpp:16-20 | bytes before the old cursor become 0, the rest are unchanged; cursor 0; capacity, mode, order and labels are untouched |
| Serializer.ClearIdempotent | serializer.cpp:16-20 | a second `Clear` changes nothing |
| Serializer.Grow | serializer.cpp:23-46 | succeeds exactly when `0 < n` and `byteCount + n < MaxByteCount` in 64-bit arithmetic; failure changes nothing; success adds `n` to the capacity, keeps the old bytes, zero-fills the tail and keeps the cursor |
| Serializer.GrowNeverReachesCeiling | serializer.cpp:29-35 | after a successful `Grow` the capacity is strictly below `MaxByteCount` |
| Serializer.GrowPreservesLoads | serializer.cpp:34-44 | a LOAD that fitted before a `Grow` reads the same bytes after it |
| Serializer.SetMode | serializer.cpp:73-76 | the mode is overwritten at any cursor position; nothing else changes |
| Serializer.SetEndian | serializer.cpp:67-70 | the byte order is overwritten; nothing else changes |
| Serializer.CanStore | serializer.cpp:61-64 | the coded test accepts every size that fits, and also every size whose 32-bit sum with the cursor wraps around to a point inside the buffer |
| Serializer.CanStoreExactWithoutWrap | serializer.cpp:61-64 | when `index + n` does not wrap, the coded test `(index + n) mod 2^32 <= byteCount` is exactly "n more bytes fit" |
| Serializer.CanStoreAcceptsOverrun | serializer.cpp:61-64 | with 8 of 16 bytes used, the coded test accepts `n = 2^32 - 8`, which does not fit |
| Serializer.NextArray | serializer.cpp:160-190 | succeeds exactly when `n` bytes fit after the cursor; failure changes neither the state nor the caller's buffer; success advances the cursor by exactly `n`; STORE leaves the caller's buffer alone and LOAD leaves the buffer alone; mode, order, capacity and labels never change |
| Serializer.StoreWritesSpan | serializer.cpp:178-188 | STORE changes only buffer positions `[index, index + n)`; LITTLE writes `value[k]` at `index + k`, BIG writes `value[n - 1 - k]` there |
| Serializer.LoadReadsSpan | serializer.cpp:167-177 | LOAD leaves the buffer alone and writes only the first `n` caller bytes; LITTLE reads `bytes[index + k]` into `value[k]`, BIG reads it into `value[n - 1 - k]` |
| Serializer.NextArrayLoop | serializer.cpp:160-190 | the byte-at-a-time loops compute exactly `NextArray` |
| Serializer.LoadLoop | serializer.cpp:167-177 | the LOAD loop fills the caller's buffer as `NextArray` does |
| Serializer.StoreLoop | serializer.cpp:178-188 | the STORE loop writes the buffer as `NextArray` does |
| Serializer.NextArrayAsWritten | serializer.cpp:160-165 | under the coded wrapped test, a call overruns the buffer exactly when the wrapped test passes but the bytes do not fit; otherwise it is the intended `NextArray` |
| Serializer.NextArrayAsWrittenOverruns | serializer.cpp:61-64 | a concrete call the coded test lets run past the end of a 16-byte buffer |
| Serializer.NextArrayAsWrittenSafeWithoutWrap | serializer.cpp:61-64 | for every size whose sum with the cursor does not wrap, the coded call is the intended one |
| SerializerScalars.Width | serializer.h:258-268 | `sizeof` is 1 for `int8`/`uint8`/`bool`, 2 for 16-bit types, 4 for 32-bit types and `float`, 8 for 64-bit types and `double` |
| SerializerScalars.Next | serializer.cpp:125-157 | a typed transfer is `NextArray` over the value's `sizeof` bytes and succeeds exactly when they fit after the cursor |
| SerializerScalars.U32BytesRoundTrip | serializer.h:198-202 | a `uint32_t`'s in-memory bytes determine its value |
| SerializerScalars.U32OfRoundTrip | serializer.h:198-202 | every 4-byte image is the image of its value |
| SerializerScalars.StoreU32Layout | serializer.cpp:144-155 | STORE LITTLE puts a `uint32_t` least significant byte first; BIG puts it most significant byte first |
| SerializerScalars.U32RoundTrip | serializer.cpp:132-155 | a `uint32_t` stored at 0 comes back after rewinding and switching to LOAD, whatever the variable held before |
| SerializerScalars.ScenarioStoreThenFreshLoad | serializer.h:212-223 | `0x11223344` stored LITTLE is `44 33 22 11`, and a new LOAD serializer over those bytes reads the value back |
| SerializerScalars.ScenarioDoubleOverrun | serializer.cpp:125-130 | an 8-byte `double` into a 4-byte buffer fails and changes nothing |
| SerializerLabels.FindFrom | serializer.cpp:110-118 | returns the first position from `i` whose name matches, or none when no later name matches |
| SerializerLabels.FindLabel | serializer.cpp:108-122 | returns the first section whose name matches case-insensitively on the first 128 characters; none exactly when no section matches |
| SerializerLabels.FindLabelLoop | serializer.cpp:110-121 | the loop finds what `FindLabel` finds |
| SerializerLabels.CLength | serializer.cpp:91 | `strlen`: the length of the name before its first NUL, the whole name when it has none |
| SerializerLabels.NamesMatch | serializer.cpp:113 | `_strnicmp(a, b, 128) == 0`: the names up to their first NUL, at most 128 characters, have the same length and agree up to ASCII case |
| SerializerLabels.NulEndsName | serializer.cpp:113 | characters after a NUL take no part in the comparison; a proper prefix does not match |
| SerializerLabels.NewLabel | serializer.cpp:85-95 | returns the old section count; appends a section at the cursor named by the characters before the name's NUL; the slot's old size stays; earlier sections and every other field are unchanged |
| SerializerLabels.EndLabel | serializer.cpp:98-105 | the first matching section's size becomes `(index - offset) mod 2^32`; every other section and field is unchanged; without a match nothing changes |
| SerializerLabels.NewLabelIsFound | serializer.cpp:85-122 | a new label is found again under its own name in any letter case, at its own slot unless an earlier section already matches |
| SerializerLabels.LabelSpansTransfer | serializer.cpp:85-105 | a label opened before `n` bytes are stored and closed right after has offset `index` and size `n` |
| SerializerBlobs.FlattenLength | serializer.h:288-292 | an array of `count` elements of `width` bytes occupies `width * count` bytes |
| SerializerBlobs.ReverseFlatten | serializer.h:288-292 | reversing an array's bytes reverses the element order as well as each element |
| SerializerBlobs.ArrayBlob | serializer.h:288-292 | the memory of `count` elements of `width` bytes is `width * count` bytes long |
| SerializerBlobs.SerializeStruct | serializer.h:282-286 | one `NextArray` over `sizeof(T)` bytes, truncated to 32 bits; below 2^32 it succeeds exactly when the struct fits, and STORE writes its oriented bytes at the cursor |
| SerializerBlobs.SerializeStructRoundTrip | serializer.h:282-286 | a struct stored and then loaded at the same position under the same byte order comes back whole, whatever the slot held |
| SerializerBlobs.SerializeArray | serializer.h:288-292 | one `NextArray` over `sizeof(T) * count` bytes truncated to 32 bits; below 2^32 it succeeds exactly when the array fits |
| SerializerBlobs.SerializeArrayTruncates | serializer.h:288-292 | 2^30 elements of 4 bytes truncate to 0 bytes: the call succeeds and transfers nothing |
| SerializerBlobs.SerializeArrayChecked | serializer.h:288-292 | succeeds exactly when the whole array fits; success advances the cursor by the whole array; agrees with the coded call below 2^32 bytes |
| SerializerBlobs.BigArrayReversesElementOrder | serializer.h:288-292 | stored BIG, an array's blob holds the last element first with each element's bytes reversed |
| SerializerRoundTrip.StoreThenLoad | serializer.cpp:134-187 | a value stored at a position is loaded back unchanged under the same byte order and reversed under the other |
| SerializerRoundTrip.StoreAllWritesImage | serializer.cpp:178-188 | a run of stores writes the values' images one after the other at the cursor and nothing else |
| SerializerRoundTrip.LoadAllReadsImage | serializer.cpp:167-177 | a run of loads over the images recovers the values, whatever the caller's buffers held |
| SerializerRoundTrip.RoundTrip | serializer.cpp:160-190 | a whole pass stored from 0 comes back when the same calls are replayed after `SetPosition` and `SetMode(LOAD)`, in either byte order |
| FixedArray.Capacity | array.h:104-107 | `Capacity()` is `N`, the length of the element storage |
| FixedArray.Count | array.h:98-101 | `Count()` is the number of live elements |
| FixedArray.Create | array.h:14-15 | a new array has no live element |
| FixedArray.Index | array.h:17-36 | a position below the count designates that element; any other position designates the trap, never an element |
| FixedArray.AssignThroughIndex | array.h:17-36 | writing past the count lands in the trap and leaves every element as it was |
| FixedArray.Reset | array.h:39-42 | the count becomes 0 and the elements are untouched |
| FixedArray.ResetKeepsElements | array.h:39-52 | resizing back to the old count undoes a `Reset` |
| FixedArray.Resize | array.h:45-52 | the count becomes `min(k, N)`; the result designates the last live element, or the first when none is live |
| FixedArray.Grow | array.h:55-63 | the count becomes `min((count + a) mod 2^32, N)`; the result designates the last live element, or the first when none is live |
| FixedArray.GrowWrapShrinks | array.h:57 | growing a one-element array by `2^32 - 1` leaves it empty |
| FixedArray.GrowSaturating | array.h:55-63 | the intended growth: the count never decreases and is `count + a` or `N`; it agrees with `Grow` when the sum does not wrap |
| FixedArray.Shrink | array.h:66-74 | the count drops by `s`, saturating at 0 |
| FixedArray.ShrinkUndoesGrow | array.h:55-74 | shrinking by what was just added restores the array when the growth was not capped |
| FixedArray.Append | array.h:77-89 | succeeds exactly when `count < N`; on success the element is stored at the old count and becomes live; on failure nothing changes |
| FixedArray.AppendExtendsLivePrefix | array.h:77-89 | after an append the live elements are the old ones followed by the new element |
| RefCounter.IsFree | refCounter.h:46-49 | a counter is free (dead) exactly when its count is 0 or below |
| RefCounter.Create | refCounter.h:36-39 | a new counter is live and holds its start |
| RefCounter.Add | refCounter.h:40-42 | a live counter gains one and returns the new count; a dead counter returns 0 and does not change |
| RefCounter.Release | refCounter.h:43-45 | a live counter loses one and returns the new count, never negative; a dead counter returns 0 and does not change; the result is free exactly when the count was at most 1 |
| RefCounter.DeadStaysDead | refCounter.h:40-45 | no sequence of calls revives a dead counter |
| RefCounter.RunFromLive | refCounter.h:36-49 | from a live start the counter is free exactly when releases have at some point outnumbered adds by the start; while live it holds start + adds - releases |
| SmartPointer.IsValid | smartPointer.h:108-110 | a handle is valid exactly when it holds an object; object and counter pointers are set and cleared together, so one slot stands for both |
| SmartPointer.Equal | smartPointer.h:88-94 | `==` compares the objects the two handles hold, and `!=` is its negation |
| SmartPointer.Get | smartPointer.h:112-118 | returns the object exactly when the handle is valid; under the heap invariant a valid handle's counter is never free |
| SmartPointer.EqualMeansSameObject | smartPointer.h:88-94 | two handles compare equal exactly when `Get` gives the same result; two distinct equal valid handles mean the object has at least two holders |
| SmartPointer.MakeNull | smartPointer.h:33-37 | a default handle is invalid and `Get` gives null; the counters are unchanged |
| SmartPointer.MakeFrom | smartPointer.h:39-43 | the handle constructor gives a valid handle to a new object with count 1 |
| SmartPointer.Copy | smartPointer.h:45-57 | a copy of a valid handle shares its object and adds one to its count; a copy of an invalid handle is invalid |
| SmartPointer.Destroy | smartPointer.h:59-72 | a valid handle releases one count and becomes invalid; at the last holder the object and counter are freed; an invalid handle changes nothing |
| SmartPointer.Reset | smartPointer.h:104-106 | `Reset` is the destructor in place and leaves the handle invalid |
| SmartPointer.Share | smartPointer.h:78-83 | pointing a null handle at a live object adds one to its count and keeps the invariant |
| SmartPointer.Assign | smartPointer.h:74-86 | self-assignment changes nothing; otherwise the target ends equal to the source; an invalid source makes it a destroy; a valid source of another object gains one count |
| SmartPointer.ShareFrom | smartPointer.h:76-84 | assignment from a valid handle: the target shares the source's object; re-assigning the same object restores the heap |
| SmartPointer.DestroyKeepsOtherCounters | smartPointer.h:59-72 | destroying a handle leaves every other object's counter as it was |
| SmartPointer.RebindToSameObject | smartPointer.h:76-84 | releasing a handle and then sharing the object again restores the heap |
| SmartPointer.RebindToOtherObject | smartPointer.h:76-84 | releasing a handle and then sharing a different live object moves the handle over and adds one to that object's count |
| SmartPointer.SharedObjectOutlivesOneHandle | smartPointer.h:59-72 | destroying one of two handles to an object leaves it reachable through the other |
| SystemUtils.FindLastOf | systemUtils.cpp:54 | the last position holding the character, or `npos` exactly when there is none |
| SystemUtils.Substr | systemUtils.cpp:56-57 | at most `count` characters starting at `pos` |
| SystemUtils.SplitFileName | systemUtils.cpp:52-58 | with a '.', name + "." + extension is the path and the extension has no '.'; without one, both parts are the whole path |
| SystemUtils.JoinThenSplitFileName | systemUtils.cpp:52-58 | splitting a name joined by '.' to an extension without '.' gives both parts back |
| SystemUtils.TrailingDotEmptyExtension | systemUtils.cpp:54-57 | a path ending in '.' has an empty extension |
| SystemUtils.LastDotSplits | systemUtils.cpp:54 | only the last '.' splits: `archive.tar.gz` gives `archive.tar` and `gz` |
| SystemUtils.SplitPath | systemUtils.cpp:61-66 | directory + file name is the path; the directory is empty or ends in '\\'; the file name has no '\\'; without a '\\' the directory is empty |
| SystemUtils.JoinThenSplitPath | systemUtils.cpp:61-66 | splitting a directory joined to a file name without '\\' gives both parts back |
| SystemUtils.ForwardSlashIsNotSeparator | systemUtils.cpp:63 | '/' is not a separator: `dir/file.txt` is all file name |

## Left out

- `ReadFile`, `WriteFile`, `Hash`, `Status`, `NextString` and `ApplyEndian` are declared in serializer.h but not defined; `ReadFile` and `WriteFile` would be file I/O anyway.
- `GetPtr` (serializer.cpp:4-7) exposes the raw buffer pointer, which has no meaning in a value model.
- The `Convert` union and the `reinterpret_cast` in `Ref` are type punning. Values are modelled as their in-memory bytes instead. `float` and `double` are opaque 4- and 8-byte blobs.
- The `assert( 0 )` debug aborts (serializer.cpp:128, 163; array.h:21, 33, 86) are modelled as the release-build return path.
- The constructor leaves `index` and `sectionCount` uninitialised. The model assumes both start at 0. The constructor's `Clear` reads that uninitialised `index`.
- Serializer.Create: the constructor allocates the unclamped `_sizeInBytes` bytes, or 1 byte for size 0. Only the `byteCount` addressable bytes are modelled. Their initial contents are indeterminate, so they are a parameter.
- SerializerLabels.NewLabel: the section table (`m_header`, serializer.h:273) is never initialised and `NewLabel` does not write `size`, so a new section's size is indeterminate until `EndLabel`. The slot's old size is a parameter and no other contract depends on it. A name of 128 characters or more and a table overflow are not guarded by `NewLabel`; both are preconditions.
- `_strnicmp` compares NUL-terminated C strings, and `strcpy_s` copies up to the NUL. The model cuts every name at its first NUL and folds letters to ASCII lower case; there is no locale.
- The Serializer's destructor, deleted copy operations and allocation failure are not modelled.
- FixedArray.Valid: `N` is kept between 1 and `2^32 - 2`. A zero-length C++ array is ill-formed, and the bound keeps `count + 1` in `Append` from wrapping.
- `Array::Ptr` exposes a raw pointer and is not modelled.
- RefCounter.Add: requires the count to be below `INT_MAX`, because signed overflow is undefined behaviour. SmartPointer.Copy, SmartPointer.Share and SmartPointer.Assign inherit the same requirement.
- smartPointer.h repeats `refCount_t` (lines 6-27) with the same body as refCounter.h. The `RefCounter` module models both copies.
- `ptr_t`'s `operator->` is `Get`. The object a handle points to is an identity only; its contents are not modelled.
- ref.h is not part of this model. It does not compile against `ptr_t`, and its counting duplicates `ptr_t`'s.
- `FileExists` and `MakeDirectory` are filesystem I/O. The helpers declared in systemUtils.h without bodies are not modelled.
- timer.h/timer.cpp read the wall clock, and spinlock.h is atomics and concurrency. Neither is modelled.
- SystemUtils.Substr: `std::string::substr` throws when the position is past the end. Both callers only pass positions within the string, so the position is a precondition.

## Findings

| source | as written | input that shows it | evidently intended | confidence | as-written member | corrected member |
|---|---|---|---|---|---|---|
| serializer.cpp:61-64 | `CurrentSize() + sizeInBytes <= BufferSize()` is a `uint32_t` sum that wraps, so `NextArray` accepts a size that runs past the buffer | 16-byte buffer, cursor 8, `NextArray` of `2^32 - 8` bytes: the test passes and the copy loop runs off the end | accept exactly when `index + n <= byteCount` without wrap | high, not executed | `Serializer.NextArrayAsWritten`, shown by `Serializer.NextArrayAsWrittenOverruns` | `Serializer.NextArray`, whose bounds facts are proved in its contract and in `Serializer.StoreWritesSpan` |
| array.h:55-63 | `addCount + count` is a `uint32_t` sum that wraps before it is capped at `N`, so `Grow` can shrink the array | `Array<int, 4>` with one live element, `Grow( 0xFFFFFFFF )`: the count becomes 0 | the count saturates at `N` and never decreases | high, not executed | `FixedArray.Grow`, shown by `FixedArray.GrowWrapShrinks` | `FixedArray.GrowSaturating`, used by `FixedArray.ShrinkUndoesGrow` |
| serializer.h:288-292 | `sizeof( T ) * elementCount` is truncated to the `uint32_t` parameter of `NextArray`, so a large array is transferred only in part while the call still succeeds | 2^30 elements of a 4-byte type: 2^32 bytes truncate to 0, the call succeeds and transfers nothing | refuse an array whose byte count does not fit in 32 bits | medium, not executed | `SerializerBlobs.SerializeArray`, shown by `SerializerBlobs.SerializeArrayTruncates` | `SerializerBlobs.SerializeArrayChecked`, used by `SerializerBlobs.BigArrayReversesElementOrder` |
