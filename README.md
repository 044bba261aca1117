# Chronicle Bytes core, modelled in Dafny

This project models four pieces of Chronicle Bytes, a Java library for reading and
writing binary data in on-heap and off-heap stores:

- **`AbstractInterner`**: a small lossy cache that maps byte sequences to canonical
  values. The table has a power-of-two number of buckets (at least 128). Each
  sequence can live in one of two buckets: its hash masked to the table size, or the
  hash shifted right by the table's bit width and then masked. On a miss the value is
  built by a factory and stored in an empty bucket. When both buckets are full, a
  toggle picks the one to overwrite, alternating between them.
- **`StreamingDataInput`**: the default methods of the library's read cursor.
  - Typed reads advance the position and throw BufferUnderflow past the limit.
  - The unsigned reads mask a sign-extended value.
  - `readUTFΔ` reads a length in stop-bit encoding, where -1 means null, checks it
    with `toUInt31`, and then parses the text.
  - Two bulk reads fill a `byte[]` or a `ByteBuffer`.
- **`BinaryLongReference`**: a handle on an 8-byte `long` field at an offset in a
  store.
  - It supports get, set, add, and compare-and-swap.
  - In debug mode, a compare-and-swap with a value that has any of bits 31 to 63 set
    registers the handle.
  - `forceAllToNotCompleteState` ORs `(long) (1 << 31)` into the field of every
    registered handle. Java sign-extends that value, so bits 31 to 63 are set, not
    just bit 31.
- **`ExpectedBytesStore`**: a store that checks instead of writing. Every write is
  compared with the bytes the underlying store already holds, and a difference throws
  AssertionError.
  - `writeOrderedInt` accepts any value with the not-ready bit (bit 31) set.
  - The bulk `write(long, byte[], int, int)` checks byte by byte in ascending order.
  - Reads and raw-memory access are unsupported.

Java exceptions are values (`Outcomes.Result`, `Outcomes.Status`). Fixed-width
integers are bit-vectors, with Java's sign-extending widenings written out
(`JavaBits`). A bytes store is a sequence of bytes with bounds-checked, little-endian
typed access (`Store`).

Files:

| file | module |
|---|---|
| `outcomes.dfy` | `Outcomes` |
| `java_bits.dfy` | `JavaBits` |
| `store.dfy` | `Store` |
| `interner.dfy` | `Interner` |
| `streaming_data_input.dfy` | `StreamingInput` |
| `binary_long_reference.dfy` | `LongReferences` |
| `expected_bytes_store.dfy` | `ExpectedStore` |

Each core file is modelled in the form it has in the source:

- The interner is a class. It updates its bucket array and toggle in place, and its
  methods are proved against the function `Interner.Intern`. The cache properties are
  proved as lemmas about that function.
- The input cursor is a class whose methods move its position.
  - `readUTFΔ` is proved against the function `StreamingInput.ReadUtfDeltaSpec`.
  - The two bulk reads are loops proved against the destination's new contents.
- The long reference is a class whose methods write the bound array.
  - The walk over the registry is a loop, proved against `LongReferences.ForcedOn`.
    That function folds the forcing over the registered bindings.
  - Lemmas show the following about forcing: the walk's order does not matter;
    forcing twice is forcing once; a duplicate registration changes nothing; every
    forced field then carries the marker; stores with no registered handle are left
    alone.
- The expected store is a value. Its only field is final and no operation changes
  anything. Its single writes are functions that pass exactly when the write would be
  a no-op on the underlying store. Its bulk write is a loop, proved against the
  function `ExpectedStore.ExpectedBytesStore.WriteArrayPrefix`.

## Model

All source paths are under `src/main/java/net/openhft/chronicle/bytes/`, written in
full.

| member | source | states |
|---|---|---|
| `JavaBits.ByteToInt` | src/main/java/net/openhft/chronicle/bytes/StreamingDataInput.java:52-54 | widening a byte to int keeps its 8 bits and fills the 24 new bits with copies of the sign bit |
| `JavaBits.ShortToInt` | src/main/java/net/openhft/chronicle/bytes/StreamingDataInput.java:58-60 | widening a short to int keeps its 16 bits and fills the high half with copies of the sign bit |
| `JavaBits.IntToLong` | src/main/java/net/openhft/chronicle/bytes/StreamingDataInput.java:64-66 | widening an int to long keeps its 32 bits and fills the high half with copies of the sign bit |
| `JavaBits.UnsignedByte` | src/main/java/net/openhft/chronicle/bytes/StreamingDataInput.java:52-54 | `b & 0xFF` is the byte's unsigned value, in [0, 256), and equals the signed value modulo 256 |
| `JavaBits.UnsignedShort` | src/main/java/net/openhft/chronicle/bytes/StreamingDataInput.java:58-60 | `s & 0xFFFF` is the short's unsigned value, in [0, 65536), and equals the signed value modulo 2^16 |
| `JavaBits.UnsignedInt` | src/main/java/net/openhft/chronicle/bytes/StreamingDataInput.java:64-66 | `i & 0xFFFFFFFFL` is the int's unsigned value, in [0, 2^32), and equals the signed value modulo 2^32 |
| `JavaBits.LongOfIntBit31Bits` | src/main/java/net/openhft/chronicle/bytes/ref/BinaryLongReference.java:46 | `1 << 31`, once combined with a long, is `0xFFFFFFFF80000000`: bits 31 to 63 are set and bits 0 to 30 are clear |
| `JavaBits.EncodeLong` | src/main/java/net/openhft/chronicle/bytes/ref/BinaryLongReference.java:82-89 | the eight stored bytes of a long decode back to that long |
| `JavaBits.EncodeDecodeLong` | src/main/java/net/openhft/chronicle/bytes/ref/BinaryLongReference.java:82-89 | any eight stored bytes are exactly the encoding of the long they decode to |
| `JavaBits.EncodeDecodeInt` | src/main/java/net/openhft/chronicle/bytes/ExpectedBytesStore.java:119-124 | any four stored bytes are exactly the encoding of the int they decode to |
| `JavaBits.EncodeDecodeShort` | src/main/java/net/openhft/chronicle/bytes/ExpectedBytesStore.java:111-116 | any two stored bytes are exactly the encoding of the short they decode to |
| `JavaBits.AddLong` | src/main/java/net/openhft/chronicle/bytes/ref/BinaryLongReference.java:101-104 | `long` addition as `addAndGetLong` applies it: wrapping modulo 2^64, with zero as identity on either side |
| `JavaBits.AddLongWrapsAround` | src/main/java/net/openhft/chronicle/bytes/ref/BinaryLongReference.java:101-104 | the addition overflows as Java's does: `Long.MAX_VALUE + 1` is `Long.MIN_VALUE`, and `-1 + 1` is 0 |
| `Store.ReadByte` | src/main/java/net/openhft/chronicle/bytes/ExpectedBytesStore.java:96 | `readByte` fails with OutOfBounds exactly when the offset is outside the store; otherwise it returns the byte held there |
| `Store.ReadShort` | src/main/java/net/openhft/chronicle/bytes/ExpectedBytesStore.java:112 | `readShort` fails with OutOfBounds exactly when the two bytes do not fit; otherwise the bytes at the offset are the little-endian encoding of the short returned |
| `Store.ReadInt` | src/main/java/net/openhft/chronicle/bytes/ExpectedBytesStore.java:120 | `readInt` fails with OutOfBounds exactly when the four bytes do not fit; otherwise the bytes at the offset are the little-endian encoding of the int returned |
| `Store.ReadLong` | src/main/java/net/openhft/chronicle/bytes/ref/BinaryLongReference.java:82-84 | `readLong` fails with OutOfBounds exactly when the eight bytes do not fit; otherwise the bytes at the offset are the little-endian encoding of the long returned |
| `Store.WriteByte` | src/main/java/net/openhft/chronicle/bytes/ExpectedBytesStore.java:95-103 | after `writeByte`, reading the byte back gives the value, and every other byte is unchanged |
| `Store.WriteShort` | src/main/java/net/openhft/chronicle/bytes/ExpectedBytesStore.java:111-116 | after `writeShort`, reading the short back gives the value, and every byte outside the two written is unchanged |
| `Store.WriteInt` | src/main/java/net/openhft/chronicle/bytes/ExpectedBytesStore.java:119-124 | after `writeInt`, reading the int back gives the value, and every byte outside the four written is unchanged |
| `Store.WriteLong` | src/main/java/net/openhft/chronicle/bytes/ref/BinaryLongReference.java:87-89 | after `writeLong`, the eight bytes at the offset encode the value and every other byte is unchanged |
| `Store.ReadLongAfterWriteLong` | src/main/java/net/openhft/chronicle/bytes/ref/BinaryLongReference.java:82-89 | `getValue` after `setValue(v)` returns `v` |
| `Store.ReadLongAfterDisjointWrite` | src/main/java/net/openhft/chronicle/bytes/ref/BinaryLongReference.java:82-89 | a write to one field leaves any field that does not overlap it reading as before |
| `Store.WriteLongOfReadLong` | src/main/java/net/openhft/chronicle/bytes/ref/BinaryLongReference.java:82-89 | writing back the value a field holds leaves the store unchanged |
| `Store.WriteLongTwice` | src/main/java/net/openhft/chronicle/bytes/ref/BinaryLongReference.java:87-89 | a second write to the same field overrides the first |
| `Store.WriteLongInPlace` | src/main/java/net/openhft/chronicle/bytes/ref/BinaryLongReference.java:87-89 | the in-place array write leaves the array equal to `WriteLong` of its old contents |
| `Store.Overwrite` | src/main/java/net/openhft/chronicle/bytes/ExpectedBytesStore.java:94-124 | a write puts its bytes at the offset and keeps every other byte |
| `Store.OverwriteUnchangedIff` | src/main/java/net/openhft/chronicle/bytes/ExpectedBytesStore.java:94-124 | a write leaves the store unchanged exactly when the store already holds those bytes there |
| `Interner.TableShift` | src/main/java/net/openhft/chronicle/bytes/util/AbstractInterner.java:37-41 | the table's bit width is the least exponent, from 7 (128 buckets) up, whose power of two is at least the capacity |
| `Interner.Primary` | src/main/java/net/openhft/chronicle/bytes/util/AbstractInterner.java:57-59 | `hash & mask` is a bucket index in [0, 2^shift), negative hashes included |
| `Interner.Secondary` | src/main/java/net/openhft/chronicle/bytes/util/AbstractInterner.java:62-63 | `(hash >> shift) & mask` is a bucket index in [0, 2^shift), negative hashes included |
| `Interner.ChooseSlot` | src/main/java/net/openhft/chronicle/bytes/util/AbstractInterner.java:70 | a miss picks the primary bucket when it is empty, and otherwise an empty bucket whenever there is one; the toggle flips exactly when both buckets are occupied, and then the flipped toggle picks the bucket |
| `Interner.Intern` | src/main/java/net/openhft/chronicle/bytes/util/AbstractInterner.java:53-72 | `intern` keeps the table size, and any failure leaves the table and the toggle as they were |
| `Interner.CountOccupied` | src/main/java/net/openhft/chronicle/bytes/util/AbstractInterner.java:80-82 | the number of occupied buckets is at most the table size |
| `Interner.MatchesKey` | src/main/java/net/openhft/chronicle/bytes/util/AbstractInterner.java:60-65 | a bucket answers for the input exactly when it holds the input's first `length` bytes |
| `Interner.InternFailures` | src/main/java/net/openhft/chronicle/bytes/util/AbstractInterner.java:53-74 | a failure is BufferUnderflow when fewer than `length` bytes are readable and otherwise the factory's own error, and it changes neither the table nor the toggle; in a coherent cache `intern` fails exactly in those two cases |
| `Interner.InternBypassesLongInput` | src/main/java/net/openhft/chronicle/bytes/util/AbstractInterner.java:55-56 | input longer than the table returns the factory's outcome for it, value or error, and caches nothing |
| `Interner.InternCachesKey` | src/main/java/net/openhft/chronicle/bytes/util/AbstractInterner.java:58-71 | after a successful `intern`, the bytes are cached with the returned value in one of their two buckets |
| `Interner.InternTouchesOnlyItsBuckets` | src/main/java/net/openhft/chronicle/bytes/util/AbstractInterner.java:58-70 | `intern` changes no bucket other than the input's primary and secondary ones |
| `Interner.InternEvictsOnlyWhenBothFull` | src/main/java/net/openhft/chronicle/bytes/util/AbstractInterner.java:70 | a cached entry is evicted only when both of the new input's buckets are occupied |
| `Interner.InternToggle` | src/main/java/net/openhft/chronicle/bytes/util/AbstractInterner.java:66-78 | the toggle flips exactly when a miss finds both buckets occupied and the factory returns a value |
| `Interner.InternReplacesByToggle` | src/main/java/net/openhft/chronicle/bytes/util/AbstractInterner.java:66-78 | when the input's two distinct buckets are both occupied by other entries and the factory returns a value, the primary bucket is overwritten exactly when the toggle was off, and the secondary exactly when it was on |
| `Interner.InternFillsEmptyPrimary` | src/main/java/net/openhft/chronicle/bytes/util/AbstractInterner.java:59-70 | a miss whose primary bucket is empty (whatever the secondary holds, empty included) stores the bytes and the factory's value in the primary bucket, changes nothing else, and leaves the toggle alone |
| `Interner.InternFillsEmptySecondary` | src/main/java/net/openhft/chronicle/bytes/util/AbstractInterner.java:59-70 | a miss whose primary bucket holds another entry and whose secondary bucket is empty stores the bytes and value in the secondary bucket, changes nothing else, and leaves the toggle alone |
| `Interner.InternPreservesInvariants` | src/main/java/net/openhft/chronicle/bytes/util/AbstractInterner.java:53-72 | `intern` keeps every cached value equal to the value the factory builds, without throwing, for its bytes, and every entry in one of its own two buckets |
| `Interner.InternReturnsFactoryValue` | src/main/java/net/openhft/chronicle/bytes/util/AbstractInterner.java:53-72 | in a coherent cache, `intern` returns exactly the factory's outcome for the first `length` bytes, value or error |
| `Interner.InternHit` | src/main/java/net/openhft/chronicle/bytes/util/AbstractInterner.java:59-65 | on any table, a hit on the primary bucket, or else on the secondary, returns that entry's cached value and leaves the table and the toggle unchanged |
| `Interner.InternAgainHits` | src/main/java/net/openhft/chronicle/bytes/util/AbstractInterner.java:53-72 | after a successful `intern`, interning the same bytes again hits the cache, returns the identical value, and leaves table and toggle unchanged |
| `Interner.CountAfterStore` | src/main/java/net/openhft/chronicle/bytes/util/AbstractInterner.java:80-82 | storing into a bucket raises the occupied count by one exactly when the bucket was empty |
| `Interner.InternValueCount` | src/main/java/net/openhft/chronicle/bytes/util/AbstractInterner.java:66-82 | `valueCount()` rises by one exactly when a miss whose factory returns a value finds one of its buckets empty, and is otherwise unchanged |
| `Interner.AbstractInterner.constructor` | src/main/java/net/openhft/chronicle/bytes/util/AbstractInterner.java:37-42 | the table is the least power of two that is at least both 128 and the capacity; it starts empty, with `mask = n - 1` and the toggle off |
| `Interner.AbstractInterner.Toggle` | src/main/java/net/openhft/chronicle/bytes/util/AbstractInterner.java:76-78 | flips the toggle and returns its new setting |
| `Interner.AbstractInterner.InternAll` | src/main/java/net/openhft/chronicle/bytes/util/AbstractInterner.java:48-51 | interns all readable bytes, returns the factory's outcome for them, and keeps the cache invariants |
| `Interner.AbstractInterner.InternPrefix` | src/main/java/net/openhft/chronicle/bytes/util/AbstractInterner.java:53-72 | the result, table, and toggle are those of `Intern`; the result is the factory's outcome, or BufferUnderflow when the input is short; the cache invariants are kept |
| `Interner.AbstractInterner.ValueCount` | src/main/java/net/openhft/chronicle/bytes/util/AbstractInterner.java:80-82 | the count of non-null buckets never exceeds the table size |
| `StreamingInput.ToUInt31` | src/main/java/net/openhft/chronicle/bytes/StreamingDataInput.java:98 | a length is accepted exactly when it is in [0, 2^31), and is then unchanged; otherwise the failure is IllegalArgument |
| `StreamingInput.ReadUtfDeltaSpec` | src/main/java/net/openhft/chronicle/bytes/StreamingDataInput.java:93-101 | `readUTFΔ` never consumes past the read limit, and when it returns it returns false exactly for the length -1 |
| `StreamingInput.ReadUtfDeltaEmptiesBuffer` | src/main/java/net/openhft/chronicle/bytes/StreamingDataInput.java:93-101 | `sb` is emptied first: it stays empty unless the parser runs, and then holds exactly what the parser appended, even when the parser throws |
| `StreamingInput.ReadUtfDeltaNull` | src/main/java/net/openhft/chronicle/bytes/StreamingDataInput.java:95-97 | a length of -1 returns false, leaves `sb` empty, and consumes only the length |
| `StreamingInput.ReadUtfDeltaPresent` | src/main/java/net/openhft/chronicle/bytes/StreamingDataInput.java:93-101 | returns true exactly when the length reads, lies in [0, 2^31), and the text after it parses |
| `StreamingInput.ReadUtfDeltaBadLength` | src/main/java/net/openhft/chronicle/bytes/StreamingDataInput.java:95-98 | a length other than -1 outside [0, 2^31) fails with IllegalArgument after the length is consumed |
| `StreamingInput.ReadUtfDeltaConsumed` | src/main/java/net/openhft/chronicle/bytes/StreamingDataInput.java:93-101 | success or failure, the position moves past every byte the length decoder read and, when the parser runs, every byte the parser read |
| `StreamingInput.CharBuffer.Clear` | src/main/java/net/openhft/chronicle/bytes/StreamingDataInput.java:94 | `setLength(sb, 0)` leaves the builder empty |
| `StreamingInput.CharBuffer.Append` | src/main/java/net/openhft/chronicle/bytes/StreamingDataInput.java:99 | the parsed text is appended to the builder |
| `StreamingInput.ByteBuffer.Put` | src/main/java/net/openhft/chronicle/bytes/StreamingDataInput.java:110 | `put` stores the byte at the position and advances it, or fails with BufferOverflow and changes nothing when the buffer is full |
| `StreamingInput.StreamingDataInput.ReadByte` | src/main/java/net/openhft/chronicle/bytes/StreamingDataInput.java:50 | returns the byte at the position and advances by one, or fails with BufferUnderflow and does not move |
| `StreamingInput.StreamingDataInput.ReadShort` | src/main/java/net/openhft/chronicle/bytes/StreamingDataInput.java:56 | returns the little-endian short at the position and advances by two, or fails with BufferUnderflow and does not move |
| `StreamingInput.StreamingDataInput.ReadInt` | src/main/java/net/openhft/chronicle/bytes/StreamingDataInput.java:62 | returns the little-endian int at the position and advances by four, or fails with BufferUnderflow and does not move |
| `StreamingInput.StreamingDataInput.ReadLong` | src/main/java/net/openhft/chronicle/bytes/StreamingDataInput.java:68 | returns the little-endian long at the position and advances by eight, or fails with BufferUnderflow and does not move |
| `StreamingInput.StreamingDataInput.ReadBoolean` | src/main/java/net/openhft/chronicle/bytes/StreamingDataInput.java:46-48 | true exactly when the byte read is non-zero; fails with underflow as `readByte` does |
| `StreamingInput.StreamingDataInput.ReadUnsignedByte` | src/main/java/net/openhft/chronicle/bytes/StreamingDataInput.java:52-54 | the byte's unsigned value, in [0, 256) |
| `StreamingInput.StreamingDataInput.ReadUnsignedShort` | src/main/java/net/openhft/chronicle/bytes/StreamingDataInput.java:58-60 | the short's unsigned value, in [0, 65536) |
| `StreamingInput.StreamingDataInput.ReadUnsignedInt` | src/main/java/net/openhft/chronicle/bytes/StreamingDataInput.java:64-66 | the int's unsigned value, in [0, 2^32) |
| `StreamingInput.StreamingDataInput.ReadUtfDelta` | src/main/java/net/openhft/chronicle/bytes/StreamingDataInput.java:93-101 | the result, the builder's contents, and the bytes consumed are those of `ReadUtfDeltaSpec` over the readable bytes |
| `StreamingInput.StreamingDataInput.ReadInto` | src/main/java/net/openhft/chronicle/bytes/StreamingDataInput.java:103-106 | with enough bytes readable, the array holds the next `length` bytes and the position advances by that much; otherwise the array's prefix holds every readable byte, the rest is kept, the position reaches the limit, and the call fails with BufferUnderflow |
| `StreamingInput.StreamingDataInput.ReadIntoBuffer` | src/main/java/net/openhft/chronicle/bytes/StreamingDataInput.java:108-111 | transfers min(remaining, buffer remaining) bytes; they land at the buffer's position, and both positions advance by that count |
| `LongReferences.EncodeOrMarker` | src/main/java/net/openhft/chronicle/bytes/ref/BinaryLongReference.java:46 | ORing the marker into a long ORs each stored byte with the matching byte of the marker |
| `LongReferences.SetNotCompleteIsOrMask` | src/main/java/net/openhft/chronicle/bytes/ref/BinaryLongReference.java:46 | `setValue(1 << 31 OR getValue())`, a bitwise OR, sets bit 7 of byte 3 and all of bytes 4 to 7 of the field, and changes nothing else in the store |
| `LongReferences.MarkerBytesGiveMarker` | src/main/java/net/openhft/chronicle/bytes/ref/BinaryLongReference.java:46 | a long whose bytes carry the marker's bits has bits 31 to 63 set |
| `LongReferences.OrMask` | src/main/java/net/openhft/chronicle/bytes/ref/BinaryLongReference.java:46 | ORing the marker into the field keeps every bit already set, gives each field byte its byte of the marker, and leaves every byte outside the field unchanged |
| `LongReferences.BinaryLongReference.constructor` | src/main/java/net/openhft/chronicle/bytes/ref/BinaryLongReference.java:27-29 | a new reference is unbound |
| `LongReferences.BinaryLongReference.MaxSize` | src/main/java/net/openhft/chronicle/bytes/ref/BinaryLongReference.java:72-74 | `maxSize()` is the width of a stored long |
| `LongReferences.BinaryLongReference.Offset` | src/main/java/net/openhft/chronicle/bytes/ref/BinaryLongReference.java:67-69 | `offset()` is where the field starts: `getValue` reads the long there |
| `LongReferences.BinaryLongReference.BytesStore` | src/main/java/net/openhft/chronicle/bytes/ref/BinaryLongReference.java:52-59 | binds to the store and offset exactly when the length is 8; otherwise fails with IllegalArgument and keeps the old binding |
| `LongReferences.BinaryLongReference.GetValue` | src/main/java/net/openhft/chronicle/bytes/ref/BinaryLongReference.java:81-84 | the long at the bound offset; NullPointer when unbound, OutOfBounds when the field does not fit |
| `LongReferences.BinaryLongReference.SetValue` | src/main/java/net/openhft/chronicle/bytes/ref/BinaryLongReference.java:86-89 | writes the value at the bound offset and changes nothing else; NullPointer when unbound; OutOfBounds, with nothing changed, when the field does not fit |
| `LongReferences.BinaryLongReference.GetVolatileValue` | src/main/java/net/openhft/chronicle/bytes/ref/BinaryLongReference.java:91-94 | reads what `getValue` reads |
| `LongReferences.BinaryLongReference.SetOrderedValue` | src/main/java/net/openhft/chronicle/bytes/ref/BinaryLongReference.java:96-99 | writes as `setValue` does |
| `LongReferences.BinaryLongReference.AddValue` | src/main/java/net/openhft/chronicle/bytes/ref/BinaryLongReference.java:101-104 | stores and returns the old value plus `delta`, wrapped to 64 bits; fails as `getValue` does, with nothing changed |
| `LongReferences.BinaryLongReference.AddAtomicValue` | src/main/java/net/openhft/chronicle/bytes/ref/BinaryLongReference.java:106-109 | behaves as `addValue` |
| `LongReferences.BinaryLongReference.CompareAndSwapValue` | src/main/java/net/openhft/chronicle/bytes/ref/BinaryLongReference.java:111-117 | in debug mode, a value with any of bits 31 to 63 set registers the reference first, even if the swap then fails; returns whether the field held `expected`, and writes `value` exactly then |
| `LongReferences.Registry.constructor` | src/main/java/net/openhft/chronicle/bytes/ref/BinaryLongReference.java:31-37 | the registry starts empty |
| `LongReferences.Bindings` | src/main/java/net/openhft/chronicle/bytes/ref/BinaryLongReference.java:43-48 | the registered references' bindings, one per registration, in order |
| `LongReferences.FirstUnusable` | src/main/java/net/openhft/chronicle/bytes/ref/BinaryLongReference.java:43-48 | the first registration whose `getValue` throws: every earlier one is usable, and that one is not |
| `LongReferences.ForcedOn` | src/main/java/net/openhft/chronicle/bytes/ref/BinaryLongReference.java:43-48 | forcing a sequence of bindings keeps the store's length; what it does to each byte is stated by `ForcedOnBytes` |
| `LongReferences.ForcedOnBytes` | src/main/java/net/openhft/chronicle/bytes/ref/BinaryLongReference.java:43-48 | after forcing, each byte is its old value ORed with the marker bits of every registered field that covers it, and nothing else |
| `LongReferences.CoverMaskAppend` | src/main/java/net/openhft/chronicle/bytes/ref/BinaryLongReference.java:43-48 | the marker bits of two groups of registrations are the OR of each group's bits |
| `LongReferences.ForceOrderIrrelevant` | src/main/java/net/openhft/chronicle/bytes/ref/BinaryLongReference.java:43-48 | swapping two blocks of registrations does not change the result |
| `LongReferences.ForceIdempotent` | src/main/java/net/openhft/chronicle/bytes/ref/BinaryLongReference.java:43-48 | forcing twice is the same as forcing once |
| `LongReferences.ForceDuplicateHarmless` | src/main/java/net/openhft/chronicle/bytes/ref/BinaryLongReference.java:112-114 | registering a reference again as the last registration does not change the result |
| `LongReferences.ForceDependsOnlyOnSet` | src/main/java/net/openhft/chronicle/bytes/ref/BinaryLongReference.java:35-48 | forcing depends only on which bindings are registered: two walks holding the same bindings, in any order and with any repetitions, give the same store |
| `LongReferences.ForcedFieldsNotComplete` | src/main/java/net/openhft/chronicle/bytes/ref/BinaryLongReference.java:43-48 | after forcing, every registered field reads back with bits 31 to 63 set |
| `LongReferences.ForceLeavesOtherStores` | src/main/java/net/openhft/chronicle/bytes/ref/BinaryLongReference.java:43-48 | a store no registered reference is bound to is unchanged |
| `LongReferences.ForceNotComplete` | src/main/java/net/openhft/chronicle/bytes/ref/BinaryLongReference.java:44-47 | on one reference: passes exactly when its field is usable and then ORs in the marker; otherwise fails with NullPointer or OutOfBounds and changes nothing |
| `LongReferences.ForceAllToNotCompleteState` | src/main/java/net/openhft/chronicle/bytes/ref/BinaryLongReference.java:42-49 | outside debug mode it fails with NullPointer and changes nothing. Otherwise each store ends as `ForcedOn` of its old contents over the registrations before the first unusable one, and the walk fails there, with that one's error, if there is one |
| `LongReferences.ForceEach` | src/main/java/net/openhft/chronicle/bytes/ref/BinaryLongReference.java:43-48 | the walk over the registered references, with the outcome and new contents stated as for `ForceAllToNotCompleteState` |
| `ExpectedStore.ExpectedBytesStore.Capacity` | src/main/java/net/openhft/chronicle/bytes/ExpectedBytesStore.java:34-37 | the underlying store's capacity |
| `ExpectedStore.ExpectedBytesStore.Unsupported` | src/main/java/net/openhft/chronicle/bytes/ExpectedBytesStore.java:29-92 | copy, native access, compare-and-swap and every read throw UnsupportedOperation |
| `ExpectedStore.ExpectedBytesStore.WriteByte` | src/main/java/net/openhft/chronicle/bytes/ExpectedBytesStore.java:94-103 | passes exactly when the offset is in bounds and the store holds that byte there. Out of bounds the result is OutOfBounds, otherwise AssertionError |
| `ExpectedStore.ExpectedBytesStore.WriteShort` | src/main/java/net/openhft/chronicle/bytes/ExpectedBytesStore.java:110-116 | passes exactly when the two bytes at the offset encode the short. Out of bounds the result is OutOfBounds, otherwise AssertionError |
| `ExpectedStore.ExpectedBytesStore.WriteInt` | src/main/java/net/openhft/chronicle/bytes/ExpectedBytesStore.java:118-124 | passes exactly when the four bytes at the offset encode the int. Out of bounds the result is OutOfBounds, otherwise AssertionError |
| `ExpectedStore.ExpectedBytesStore.WriteOrderedInt` | src/main/java/net/openhft/chronicle/bytes/ExpectedBytesStore.java:135-143 | passes exactly when the field is in bounds and either holds the int or the int has the not-ready bit set. Out of bounds the result is OutOfBounds, otherwise AssertionError |
| `ExpectedStore.ExpectedBytesStore.WriteLong` | src/main/java/net/openhft/chronicle/bytes/ExpectedBytesStore.java:149-168 | passes exactly when the eight bytes at the offset encode the long. Out of bounds the result is OutOfBounds, otherwise AssertionError. `writeOrderedLong` is the same check |
| `ExpectedStore.ExpectedBytesStore.ArrayStep` | src/main/java/net/openhft/chronicle/bytes/ExpectedBytesStore.java:188-189 | one step of the bulk write fails with ArrayIndexOutOfBounds exactly when `offset + i` is outside the array, and passes exactly when the store holds that array byte at `offsetInRDO + i` |
| `ExpectedStore.ExpectedBytesStore.WriteArrayPrefix` | src/main/java/net/openhft/chronicle/bytes/ExpectedBytesStore.java:187-191 | the first `n` checks pass exactly when every one of them passes, and a failure is ArrayIndexOutOfBounds, OutOfBounds or AssertionError |
| `ExpectedStore.ExpectedBytesStore.WriteArray` | src/main/java/net/openhft/chronicle/bytes/ExpectedBytesStore.java:186-191 | the outcome is that of the first `length` byte checks, in ascending order, stopping at the first failure |
| `ExpectedStore.AcceptedByteIsNoOp` | src/main/java/net/openhft/chronicle/bytes/ExpectedBytesStore.java:94-103 | a byte write is accepted exactly when writing it to the underlying store would change nothing |
| `ExpectedStore.AcceptedShortIsNoOp` | src/main/java/net/openhft/chronicle/bytes/ExpectedBytesStore.java:110-116 | a short write is accepted exactly when writing it to the underlying store would change nothing |
| `ExpectedStore.AcceptedIntIsNoOp` | src/main/java/net/openhft/chronicle/bytes/ExpectedBytesStore.java:118-124 | an int write is accepted exactly when writing it to the underlying store would change nothing |
| `ExpectedStore.AcceptedLongIsNoOp` | src/main/java/net/openhft/chronicle/bytes/ExpectedBytesStore.java:149-155 | a long write is accepted exactly when writing it to the underlying store would change nothing |
| `ExpectedStore.OrderedIntRelaxesInt` | src/main/java/net/openhft/chronicle/bytes/ExpectedBytesStore.java:118-143 | `writeOrderedInt` agrees with `writeInt`, except that it accepts a not-ready value that `writeInt` rejects with AssertionError |
| `ExpectedStore.WriteArrayPassIff` | src/main/java/net/openhft/chronicle/bytes/ExpectedBytesStore.java:186-191 | the bulk write of `n > 0` bytes passes exactly when `bytes[offset..offset+n)` lies inside the array, the store range lies in bounds, and the store holds those same bytes |
| `ExpectedStore.WriteArrayFailureSticks` | src/main/java/net/openhft/chronicle/bytes/ExpectedBytesStore.java:188-189 | once a check throws, the loop's outcome stays that failure |
| `ExpectedStore.WriteArrayStopsAtFirstFailure` | src/main/java/net/openhft/chronicle/bytes/ExpectedBytesStore.java:186-191 | a failing bulk write reports the failure of its first failing byte, whatever comes after it |

## Left out

- Memory ordering and atomicity are not modelled. Volatile, ordered and atomic
  accesses (`getVolatileValue`, `setOrderedValue`, `addAtomicValue`,
  `compareAndSwapValue`, `writeOrderedInt`, `writeOrderedLong`) are plain reads and
  writes, and nothing runs concurrently.
- `ExpectedBytesStore.writeOrderedLong` has no member of its own. Without memory
  ordering it is the same check as `writeLong`, which `WriteLong` models.
- The registry's weak references and garbage collection are not modelled. A
  registered reference never disappears, so the `x.get() != null` test always holds.
- The registry is an `IdentityHashMap` set of fresh weak references, so its iteration
  order is unspecified. The model walks registrations in the order they were made.
  `ForceDependsOnlyOnSet` shows that neither the order nor a repeated registration
  matters when the walk succeeds. When the walk stops at a failing reference, which
  fields were forced before it depends on the order.
- The registry is a static field initialised from `Jvm.isDebug()`. Here it is an
  explicit `Registry` object, and `Jvm.isDebug()` is its `debug` constant.
- Floating point is left out: `readFloat`, `readDouble`, `writeFloat` and
  `writeDouble`.
- Raw native memory is left out: `nativeRead`, `nativeWrite` and `address`. On the
  expected store they are included in `Unsupported`.
- Methods of the cursor interface that are abstract and not used by its defaults are
  left out: `peakVolatileInt`, `readVolatileInt`, `readVolatileLong`,
  `peekUnsignedByte`, `nativeRead` and the underflow-mode accessors. So are
  `objectInput()` and `inputStream()`, which only throw UnsupportedOperation.
- The "PADDED" underflow mode is not modelled. A read past the limit always throws
  BufferUnderflow.
- The stop-bit length encoding, the UTF-8 parser, `readUTFΔ()` without an argument,
  and `readStopBit()` are not part of this model. `ReadUtfDelta` takes the decoder and
  the parser as parameters, required only to consume no more than they are given.
  Each reports how many bytes it consumed whether or not it throws, and the parser
  also reports the characters it appended before it stopped. The cursor moves past
  all of those bytes and the builder keeps those characters. Which bytes and
  characters these are depends on the decoders, which are not modelled.
- `BytesStore.fastHash` and the concrete interner's `getValue` are function
  parameters of the interner, so hashing and value building are arbitrary.
  `getValue` may throw; its error is a `Result` error. `fastHash` is total.
- `Interner.AbstractInterner.constructor`: requires a capacity of at most 2^30.
  `Maths.nextPower2` and `Maths.intLog2` are not part of this model, and beyond 2^30
  no int power of two exists. The search from 128 upwards is modelled by
  `TableShift`.
- `Interner.AbstractInterner.InternAll`: does not model the `(int)` truncation of a
  readable length of 2^31 or more. The source passes the low 32 bits of the length as
  a signed `int`. That is a negative length (see the next line) or a length shorter
  than what is readable. The model interns all `|cs|` readable bytes.
- `Interner.AbstractInterner.InternPrefix`: the length is a `nat`, so a negative
  `length` is not modelled. In the source, `length > entries.length` is false and no
  entry matches. If `fastHash` and `getValue` return, `new byte[length]` then throws
  NegativeArraySizeException before the table is written.
- `Interner.InternFailures`: a `length` beyond the readable bytes fails with
  BufferUnderflow without reading the table. This assumes that `fastHash`,
  `startsWith`, `cs.read` and, on the bypass path, the concrete `getValue` reject such
  a length with BufferUnderflow. None of these is part of this model.
- The interner reads the input with `startsWith` and `cs.read`. These are modelled as
  prefix comparison and copying of the readable bytes. Each entry's private `byte[]`
  copy is a sequence value.
- `BytesStore.addAndGetLong` and `compareAndSwapLong` are modelled as a read followed
  by a write. The add wraps around modulo 2^64.
- The stores' typed accessors are modelled as bounds-checked access to a little-endian
  byte sequence. An access outside the store fails with OutOfBounds.
- Debug message text, `toString` and `toDebugString` are not modelled.
- `ExpectedBytesStore` is modelled as a value over a snapshot of its underlying
  store's bytes. It never writes, so the model does not capture the underlying store
  being changed by other code between checks.
  - `reserve()` and `release()` are no-ops in the source, and the model has nothing to
    state about them.
  - `underlyingObject()` delegates to the underlying store, which is the `underlying`
    field.
  - Integer widths are unbounded in the model. For `offset + i` in the bulk write,
    Java's int overflow gives a negative index, which throws
    ArrayIndexOutOfBounds just as the unbounded index does. For the `long` store
    offset, every wrapped offset is also outside the store.
- `BinaryLongReference.bytesStore()` returns the binding, which is the `bytes` field.
