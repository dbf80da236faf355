# SCALE codec

A model of parity-scale-codec: the SCALE byte format, its encoder, its decoders with their
input wrappers and limits, the fast paths beside the plain ones, and the static length bounds.

The universe of types (`Types.Ty`) covers integers and floats as little-endian bit patterns,
non-zero integers, bool, `OptionBool`, compact integers, `Duration`, strings, `Bytes`, tuples,
`Option`, `Result`, arrays, `Vec`/`VecDeque`, `LinkedList`, `BTreeSet`, `BTreeMap`,
`Box`/`Rc`/`Arc`, skipped fields, derived structs and enums, and derived types that refer to
themselves through a box, a vector or a collection (`Named`).

- `Enc` is the encoder. `Run` is the decoder as a pure step from an input state (bytes left,
  depth, used memory, byte counter) to a result and a new state; failing runs have a new state too.
  Its result is the wire value: of a set or map, the list of entries read. `Norm` collects these
  lists, at every level, into the value the decoder returns.
- `Needs` is what decoding a value asks of the limits: the deepest nest of `descend_ref` calls and
  the sum of all `on_before_alloc_mem` requests, without any bound on the sum.
- `Soundness` and `Completeness` prove, by induction over decoder runs and over values, the two
  halves of one statement: a run accepts exactly the encodings of decodable wire values that fit
  the limits. `Theorems` draws locality, prefix-freedom and the exactness of both limits from it,
  `Built` what holds of the values returned: round trip, canonicity, and when sets and maps break
  them. `Invariants` covers failing runs.
- `Machine` is the imperative decoder: classes for the innermost input (slice, reader or cursor), its
  wrappers and the growing vector (`Reserve`), and methods with the source's loops, each proved to
  compute the pure step, state included, and to return its collected result. `EndToEnd` puts the
  stack together and states its contract without mentioning any decoder.
- `Append`, `BitVec`, `ArrayInit`, `Collect`, `Normal`, `Derive`, `Lengths` and `Tight` hold the fast
  paths, sets and maps, the derived code, and the length bounds.
- `Maps`, `Memory`, `Failures` and `Unicode` say of map entries, node counts, failing runs and strings
  what they are, without the definitions that encoder and decoder share.

Recursion through named types terminates because of the depth limit: the measure is the limit
minus the depth, then the index below which a type may be named without a guard, then the type.
"Decoding without a limit" is decoding under some depth limit that is large enough.

Four properties do not hold of the code as it stands, and are stated with their exact condition.
Decoders of sets and maps accept entries that are unsorted or repeated (src/codec.rs:1269-1300), so
accepted inputs are not all encodings: `CanonicalIff` says which are, `RepeatedEntry` is one that is
not, and `RoundTrip` says when keys with skipped fields survive.
`append_or_new` casts the number of appended items to u32 (src/encode_append.rs:96-98):
`AppendCount` shows that the count is right exactly up to u32::MAX items, `CountWraps` shows a
failing input. Derived enums may give two variants one byte (tests/variant_number.rs:5-14):
`AllReachableIff` says when every variant decodes, `RoundTripIff` says which values do,
`SharedByteReadsFirst` is an instance that does not. `derive(MaxEncodedLen)` ignores `encoded_as`
(derive/src/max_encoded_len.rs:85-97): `DerivedLenIff` and `DerivedEnumIff` say when its bound still
holds, `EncodedAsBreaksBound` is a failing family.

`dafny verify dfyconfig.toml` checks the project.

## Model

| member | source | states |
|---|---|---|
| Theorems.DecodeExact | src/codec.rs:1598-1637 | for every type, input kind, limits and state: the decoder reads the wire value v and leaves r if and only if the input is the encoding of v followed by r, v uses reachable variants and default skipped fields only, and the limits have room for v; of a set or map, v is the list of entries |
| Built.BuildsExact | src/codec.rs:1269-1300 | for every type: the decoder returns n and leaves r if and only if the input lists, within the limits, entries that collect to n, followed by r |
| Built.SetFreeExact | src/codec.rs:1598-1637 | for types without sets and maps: the decoder returns n and leaves r if and only if the input is the encoding of the decodable value n followed by r, within the limits |
| Built.CanonicalIff | src/codec.rs:1246-1300 | an accepted input is the encoding of the value returned if and only if the entries of every set and map in it came strictly sorted by key |
| Built.NormFixed | src/codec.rs:1246-1300 | collecting leaves a decodable value as it is if and only if every set and map inside is strictly sorted by key, at every level |
| Theorems.DecodeEffect | src/codec.rs:1174-1190 | after any success the depth is back where it was and used_mem has grown by exactly the unbounded sum of requests of the value |
| Theorems.WireRoundTrip | src/codec.rs:1107-1111 | encoding then decoding, before any suffix, reads back the wire value with skipped fields reset and leaves exactly the suffix |
| Built.RoundTrip | src/codec.rs:1107-1111 | encoding then decoding returns what the sets and maps make of the value with skipped fields reset; it is this value itself if and only if resetting leaves the keys of every set and map sorted |
| Built.RoundTripIff | derive/src/decode.rs:34-97 | any value comes back unchanged if and only if its variants are reachable, its skipped fields are at their default and its sets and maps are in order |
| Built.DecodeAllExact | src/decode_all.rs:30-38 | decode_all returns n if and only if the input is the encoding of a list of entries that fits the limits and collects to n |
| Built.DecodeAllOfEncoding | src/decode_all.rs:30-38 | of an encoding that fits the limits, decode_all returns the encoded value if and only if its sets and maps are in order |
| Built.SetFreeDecodeAll | src/decode_all.rs:30-38 | for types without sets and maps, decode_all succeeds on exactly the set of encodings, each as the value it encodes |
| Built.RepeatedEntry | src/codec.rs:1291-1300 | [8, 1, 1] is accepted as a set of bytes and returned as the set of 1, whose encoding is [4, 1] |
| Theorems.Local | src/codec.rs:113-127 | bytes behind a decoded value change neither the value nor what precedes them in the rest |
| Theorems.PrefixFree | src/codec.rs:1155-1160 | no byte string starts with encodings of two values that differ after resetting skipped fields |
| Theorems.TruncationFails | src/codec.rs:1146-1172 | no strict prefix of an encoding decodes, whatever the input kind and the limits |
| Theorems.DecodesExact | fuzzer/src/main.rs:119-132 | without limits, reading wire values is the exact inverse of encoding |
| Built.ReturnsExact | fuzzer/src/main.rs:119-132 | without limits, the decoder returns n if and only if the input begins with a listing that collects to n |
| Theorems.DepthLimitExact | src/depth_limit.rs:53-87 | decoding under a depth limit gives v exactly when unlimited decoding gives v and v opens at most limit levels at once |
| Theorems.MemLimitExact | src/mem_tracking.rs:68-97 | decoding under a memory limit gives v exactly when plain decoding does and the unbounded sum of requests is below the limit (or none is made); saturation loses nothing; used_mem ends at that sum |
| Memory.TreeNeeds | src/btree_utils.rs:24-43 | a set or map of n entries announces nothing if empty, one leaf below ten entries, else n / 10 inner nodes of a leaf and twelve pointers, plus what its entries announce |
| Memory.ListNeeds | src/codec.rs:1309-1325 | a list announces one node with two pointers per element, plus what its elements announce |
| Memory.TreeUsed | src/codec.rs:1269-1300 | after decoding a set or map, used_mem has grown by exactly these nodes and its entries' requests |
| Memory.ListUsed | src/codec.rs:1309-1325 | after decoding a list, used_mem has grown by exactly its nodes and its elements' requests |
| Memory.TreeRefused | src/codec.rs:1291-1300 | where the nodes do not fit the limit, the decode stops behind the count, the level open and the refused request charged |
| Theorems.EndlessTypeFails | src/depth_limit.rs:53-66 | a type that boxes itself and reads no byte is refused after exactly limit + 1 descents |
| Theorems.InputsAgree | src/codec.rs:424-484 | as steps on the bytes left: slice, input of unknown length and zero-copy splitting accept the same inputs with the same value, rest and used memory |
| Theorems.BulkIsItemByItem | src/codec.rs:1146-1172 | for every width, length and known or unknown remaining_len, reading primitives in bulk succeeds exactly when element by element does, with the same elements and rest |
| Theorems.ChunkedIsItemByItem | src/codec.rs:1114-1190 | for every element type, size and length, chunked decoding succeeds exactly when element by element does, with the same elements and rest |
| Theorems.CounterExact | src/counted_input.rs:42-52 | after every decode, failing ones included, the bytes left are a suffix of the input and the counter is min(u64::MAX, bytes consumed) |
| Soundness.RunSound | src/codec.rs:1196-1230 | a successful run has read the encoding of its typed, decodable result and moved the state by exactly what the result needs |
| Soundness.AllocExact | src/mem_tracking.rs:68-77 | a saturating request is granted exactly when the unsaturated sum is below the limit |
| Soundness.BulkChunksExact | src/codec.rs:1114-1139 | bulk chunks together succeed exactly when len times width bytes are there and fit the limit, and request len times width in all, whatever the chunking |
| Completeness.RunComplete | src/codec.rs:1196-1230 | the encoding of a reachable value that fits the limits decodes to it with skipped fields reset |
| Decode.Run | src/depth_limit.rs:53-66 | every run: success restores the depth, failure never leaves it below its start nor more than one past the limit |
| Failures.CollFailure | src/codec.rs:1269-1325 | after a failed element, a map, set or list is left as the element left it, one level closed |
| Failures.VecFailure | src/codec.rs:1174-1190 | after a failed element, a vector is left as the element left it, its level open |
| Failures.BoxFailure | src/codec.rs:543-593 | after its value failed, a box is left as the value left it, its level open |
| Failures.DepthAfterFailure | src/codec.rs:1269-1325 | around a failing element without types inside, a collection ends at the depth it began with, a box one deeper |
| Failures.ShortVec | src/codec.rs:1155-1160 | with a known length and too few bytes for the primitives announced, nothing is read behind the count and nothing requested |
| Failures.ShortString | src/codec.rs:1155-1160 | the same for strings |
| Unicode.Utf8Exact | src/codec.rs:1081-1085 | a string is exactly a concatenation of the UTF-8 forms of Unicode scalar values, section 3 of RFC 3629: overlong forms, surrogates and values past 0x10FFFF are refused |
| Vectors.DurationExact | src/codec.rs:1627-1637 | a Duration decodes exactly when its nanoseconds are below a billion, to its seconds and nanoseconds |
| Invariants.RunKept | src/counted_input.rs:37-61 | every run, failing or not: bytes leave from the front only, each is counted, used_mem never falls and stays a usize |
| Encode.EncToIsEnc | src/codec.rs:1107-1111 | encoding in front of what follows is encoding followed by it, for every type |
| Bytes.LEAt | src/codec.rs:1519-1551 | byte i of an encoded integer is its digit i in base 256 |
| Input.ReadEachIsRead | src/compact.rs:629-633 | reading byte by byte succeeds exactly when one read does, with the same bytes |
| CompactCodec.CompactSound | src/compact.rs:500-710 | an accepted compact integer was read from its minimal form and fits the width |
| CompactCodec.CompactComplete | src/compact.rs:500-710 | the minimal form of every number that fits the width decodes to it, for all five widths |
| CompactCodec.RunBigExact | src/compact.rs:590-710 | the long form is accepted exactly when its length is allowed, its bytes are there and no shorter form could carry the number |
| CompactCodec.NumBytesUnique | src/compact.rs:406-411 | the number of bytes of the long form is determined by the value |
| CompactWidths.NarrowIsCompact | src/compact.rs:305-374 | the u8, u16 and u32 encoders write the bytes that every other width writes for the same number |
| CompactWidths.EncodeWide | src/compact.rs:399-466 | the u64 and u128 shift loops end with v = 0, the byte count is at least 4, and they write the general form |
| CompactWidths.BytesNeeded | src/compact.rs:406-411 | the byte count from leading_zeros is the least number of bytes that hold the value |
| CompactWidths.BitLenExact | src/compact.rs:406-406 | the bit length behind leading_zeros is exact: the number lies between the powers of two around it |
| CompactWidths.CompactLenExact | src/compact.rs:319-484 | compact_len is the exact length and within the ArrayVec capacity of its width |
| CompactWidths.CompactLenMonotone | src/compact.rs:319-484 | larger numbers never have shorter compact forms |
| CompactWidths.WidthsAgree | src/compact.rs:500-710 | a narrow decoder returns n exactly when the u128 decoder does and n fits |
| Machine.ByteInput.Read | src/codec.rs:113-127 | a read takes its bytes off the front of what is left or fails and changes nothing; a cursor moves its position and keeps its buffer |
| Machine.ByteInput.Advance | src/codec.rs:445-449 | advancing the buffer to the position changes nothing of what is left |
| Machine.ByteInput.SplitTo | src/codec.rs:451-456 | splitting hands out the first bytes of the buffer and keeps the others |
| Machine.DepthTrackingInput.SplitBytes | src/codec.rs:445-457 | a cursor's zero-copy split has the result of reading the bytes from the slice, also when they are missing |
| Machine.CountedInput.Read | src/counted_input.rs:42-46 | only a successful read advances the saturating counter, by the bytes read |
| Machine.MemTrackingInput.OnBeforeAllocMem | src/mem_tracking.rs:68-77 | used_mem grows by saturating addition also when the request is refused |
| Machine.DepthTrackingInput.DescendRef | src/depth_limit.rs:53-61 | the depth grows by one also when the descent is refused |
| Machine.DepthTrackingInput.AscendRef | src/depth_limit.rs:63-66 | called only with a level open, so the subtraction never underflows |
| Machine.PrefixInput.Read | src/compact.rs:66-77 | the prefix is handed out once, as the first byte of the next non-empty read; an empty read keeps it |
| Bytes.OrByte | src/compact.rs:631-633 | a byte shifted above the bytes read so far shares no bit with them: bitwise or adds |
| Bytes.OrMode | src/compact.rs:305-311 | the mode bits share no bit with the shifted number: bitwise or adds |
| Machine.AssembleBytes | src/compact.rs:629-638 | the byte-assembly loop rebuilds the little-endian number, or stops at the first missing byte |
| Machine.DecodeCompact | src/compact.rs:500-710 | the imperative decoder has the result and the final state of the pure one, also when it fails |
| Reserve.GrowVec.ReserveExact | src/codec.rs:1131-1132 | a reserve of at most MAX_PREALLOCATION bytes keeps the capacity within MAX_PREALLOCATION bytes of the elements held |
| Reserve.GrowVec.Push | src/codec.rs:1180-1183 | a push into reserved memory never reallocates and keeps that bound |
| Machine.DecodeBulkChunks | src/codec.rs:1114-1172 | the chunk loop over raw bytes has the specified result; in success and failure the vector holds exactly the bytes of the chunks read, and its capacity is at most these plus MAX_PREALLOCATION |
| Machine.FillChunk | src/codec.rs:1180-1186 | one chunk, element by element: the vector ends with the elements decoded before a failure, its capacity as reserved, the bound kept at every push |
| Machine.DecodeChunks | src/codec.rs:1114-1190 | the chunk loop over elements has the specified result; in success and failure the vector holds exactly the elements decoded, those of a half-decoded chunk included, and its capacity is at most these plus MAX_PREALLOCATION bytes; it terminates for zero-sized elements too |
| Machine.DecodeVec | src/codec.rs:1174-1230 | vectors: primitives in bulk, others under a level that stays open on failure |
| Machine.DecodeColl | src/codec.rs:1269-1325 | maps, sets and lists: the level is closed after an element error too, and the entries are collected |
| Machine.DecodeBox | src/codec.rs:540-593 | boxes: level, request, value; the level stays open on failure |
| Machine.DecodeVariant | derive/src/decode.rs:34-97 | the emitted match takes the first arm with the byte and fails without one |
| Machine.DecodeValue | src/codec.rs:1442-1477 | decoding any type, from slice, reader or cursor under the wrappers, returns the collected result of the pure step and leaves its state, also when it fails |
| EndToEnd.DecodeAllWithLimits | src/depth_limit.rs:73-88 | from bytes to value: returns what the listing in the input collects to, for types without sets and maps the value whose encoding the input is, and fails only if there is no such listing within the limits |
| EndToEnd.DecodeFromBytes | src/codec.rs:462-484 | for every type, decoding from a BytesCursor object returns what decoding from the slice returns and leaves its buffer and position at the same rest |
| Append.AppendOrNew | src/encode_append.rs:83-131 | overwriting the prefix in place or rebuilding the buffer, then extending it, computes the specified append |
| Append.AppendExtends | src/encode_append.rs:83-131 | appending to an encoded vector is encoding the longer vector, and fails exactly when the count overflows u32 or a growing prefix meets a buffer whose double overflows usize |
| Append.AppendRunExact | src/encode_append.rs:83-131 | folding appends over any batches from the empty buffer yields the encoding of their concatenation, and fails exactly when some step has no room |
| Append.AppendCount | src/encode_append.rs:96-98 | the count written is the true one exactly when at most u32::MAX items were appended |
| Append.CountWraps | src/encode_append.rs:96-98 | 2^32 units appended to an empty vector leave its encoding unchanged |
| Append.EncAllCat | src/codec.rs:1347-1359 | encoding the two slices of a VecDeque one after the other is encoding their concatenation |
| Collect.FromIterSorted | src/codec.rs:1269-1300 | collecting gives strictly sorted keys and no entry that was not read |
| Collect.FromIterKeepsLast | src/codec.rs:1269-1300 | for every key, lookup finds the last entry read with that key |
| Collect.SortedUnique | src/codec.rs:1246-1252 | two sorted maps with the same lookups are the same sequence |
| Collect.FromIterOfSorted | src/codec.rs:1246-1252 | collecting the sorted entries a map iterates over changes nothing |
| Collect.OrderIrrelevant | src/codec.rs:1269-1300 | entries with distinct keys give the same map in any order |
| Built.OrderOfEntries | src/codec.rs:1269-1300 | two accepted inputs that list the same entries with distinct keys in any order are returned as the same map or set |
| Maps.MapEntries | src/codec.rs:1269-1278 | a decoded map is strictly sorted by the first components of its entries, in the order of their type, and holds exactly the last entry read for each first component, with its value |
| Maps.SetEntries | src/codec.rs:1291-1300 | a decoded set is strictly sorted in the order of its type and holds exactly what was read |
| Normal.NormSettled | src/codec.rs:1269-1300 | the value a decoder builds, maps and sets collected at every level, is decodable, collecting again changes nothing, and it needs no more than what was read |
| Normal.ReencodeStable | src/codec.rs:1246-1300 | re-encoding any decoded value decodes, under the same limits, to the same value |
| Normal.CollectionSorted | src/codec.rs:1246-1300 | a decoded map or set is sorted and no larger than the count read |
| Derive.StructIsTuple | derive/src/encode.rs:248-312 | with or without the single-field shortcut, a struct encodes as the tuple of its fields, skipped ones as nothing |
| Derive.FieldByField | derive/src/encode.rs:149-203 | a struct writes its fields in order: a compact field as the compact form of its number, an encoded_as field as its representation, a skipped one as nothing |
| Derive.EnumWire | derive/src/encode.rs:312-420 | a variant is written as one byte and its fields; the byte is the index attribute, else the discriminant modulo 256, else the number of unskipped variants before it |
| Derive.SkippedWritesNothing | tests/variant_number.rs:17-28 | a skipped variant is written as nothing, not even a byte |
| Derive.ReachableIff | derive/src/utils.rs:41-68 | a variant decodes exactly when it is not skipped and no earlier unskipped variant has its byte |
| Derive.EnumReadBack | derive/src/decode.rs:34-97 | what was written for such a variant is read back as that variant, its skipped fields reset, before any suffix |
| Derive.ArmExact | derive/src/decode.rs:34-97 | the match takes the first variant that is not skipped and has the byte |
| Derive.AllReachableIff | derive/src/utils.rs:41-68 | every variant decodes exactly when none is skipped and all bytes are distinct |
| Derive.SharedByteReadsFirst | tests/variant_number.rs:5-14 | the colliding enum encodes its second variant as [1], which decodes to the first |
| Derive.DerivedLenSound | derive/src/max_encoded_len.rs:67-102 | without encoded_as fields the derived bound holds for every struct value |
| Derive.DerivedLenIff | derive/src/max_encoded_len.rs:67-102 | with any fields, the derived bound of a struct holds for all values if and only if the longest encodings of the wire types, vectors and strings included, add up to no more than it |
| Derive.DerivedEnumSound | derive/src/max_encoded_len.rs:105-134 | without encoded_as fields the derived bound holds for every enum value |
| Derive.DerivedEnumIff | derive/src/max_encoded_len.rs:105-134 | with any fields, the derived bound of an enum holds for all values if and only if no variant is longer on the wire |
| Derive.EncodedAsBreaksBound | derive/src/max_encoded_len.rs:85-97 | an integer of any width encoded as its compact form exceeds the derived bound |
| Lengths.MaxLenSound | src/max_encoded_len.rs:78-172 | no value encodes to more than max_encoded_len, saturation included |
| Lengths.MaxLenIsLongest | src/max_encoded_len.rs:78-172 | where max_encoded_len is implemented it agrees with the length of the longest encoding, which is defined for vectors, lists and strings as well |
| Lengths.MaxLenImplemented | src/max_encoded_len.rs:34-172 | only strings, vectors, collections, OptionBool and types that reach themselves have no max_encoded_len |
| Lengths.LongestSound | src/codec.rs:1107-1111 | no value, of a vector, list or string either, encodes to more bytes than the longest |
| Tight.MaxLenTight | src/max_encoded_len.rs:78-172 | max_encoded_len is the least bound: some value of every type without an empty enum inside attains it |
| Tight.LongestTight | src/codec.rs:1107-1111 | the longest encoding is attained, also by vectors, lists and strings of u32::MAX elements |
| Tight.LargestLength | src/max_encoded_len.rs:90-102 | the largest number of each width fills the compact bound of that width |
| Lengths.ConstLenExact | src/const_encoded_len.rs:30-68 | every value of a ConstEncodedLen type has exactly max_encoded_len bytes |
| Lengths.ConstLenIff | src/const_encoded_len.rs:30-68 | marked constant are exactly the types without a sum, vector, string or compact integer anywhere inside |
| Lengths.FixedSizeExact | src/codec.rs:1026-1028 | encoded_fixed_size is the length of every encoding |
| Lengths.FixedSizeIff | src/codec.rs:1026-1028 | a fixed size is claimed exactly for bool, primitives wider than a byte and nested arrays of these |
| Lengths.SkipIsDecode | src/codec.rs:1014-1024 | skip succeeds exactly when decode does and leaves the same rest, depth and used memory |
| Lengths.ArrayBulkIsItems | src/codec.rs:905-960 | reading an array of primitives at once agrees with decoding its elements |
| BitVec.EncodeBits | src/bit_vec.rs:25-41 | the chunk loop writes the bit count and one zero-padded element per chunk |
| BitVec.UnpackWords | src/bit_vec.rs:25-41 | the elements written show the bits in either order, then zeros to the end of the last element |
| BitVec.WordBits | src/bit_vec.rs:34-38 | on the numbers written: bit 8w * q + p is binary digit p of element q in Lsb0 order, digit 8w - 1 - p in Msb0, and all digits after the last bit are zero |
| BitVec.BitsRead | src/bit_vec.rs:54-76 | on the numbers read: every bit returned is that digit of its element, and the count is at most 0x1fff_ffff |
| BitVec.TooManyBits | src/bit_vec.rs:54-61 | a larger count is refused before an element is read |
| BitVec.BitsRoundTrip | src/bit_vec.rs:54-76 | decoding inverts encoding for every element width, both orders and every length up to 0x1fff_ffff |
| BitVec.BitsReencode | src/bit_vec.rs:54-76 | re-encoding an accepted input gives the same bits, with the padding cleared, in as many bytes |
| BitVec.BitsLength | src/bit_vec.rs:25-41 | the encoding is the prefix of the bit count and whole elements |
| ArrayInit.DecodeInto | src/codec.rs:962-1011 | on success all cells are initialised and nothing is dropped; on failure each decoded element is dropped exactly once, in order, and no other cell is touched |
| ArrayInit.DropState | src/codec.rs:971-998 | exactly the first count cells are dropped |
| Vectors.NestedNeeds | src/depth_limit.rs:94-105 | vectors nested n deep around bytes open n - 1 levels and request one header per inner vector plus one byte |

## Left out

- `IoReader`, `std::io` errors and `Output` over `std::io::Write`: I/O plumbing.
- Error texts and chaining: every error is one failure value.
- `unsafe` casts, raw allocation, big-endian targets: a primitive equals its little-endian bytes.
- Token streams, attribute parsing, trait bounds and compile-time checks of the derive macros; positions beyond 256 variants are taken modulo 256 where the macro refuses them.
- An enum all of whose variants are skipped: the emitted impl has no methods, so it is not a type of the model (`HasArm`); an enum without variants is.
- `decode_into` of transparent structs: its result is that of `decode`, which is modelled.
- `size_hint`, `encoded_size`, `DecodeLength`, `EncodeLike`, `Ref`, `Joiner`, `KeyedVec`, generic_array, serde and arbitrary impls: estimates, markers or easy wrappers.
- `BinaryHeap` order: a heap is encoded and decoded like a vector.
- The order of map and set keys is a parameter: any strict total order.
- Conversions of `encoded_as` and `CompactAs` types: a field is modelled by the value of its representation.
- What the allocator gives beyond the capacity asked for, allocation failure; `set_len` before a bulk read, whose unread elements are not held here; the layout of types (`size_of`) is a parameter of the model.
- The depth counter is a natural number; under a limit of u32::MAX the source's u32 could overflow before the limit is met.
- `encoded_fixed_size` multiplies without an overflow check; the product is unbounded here.
- Wrapper orders other than depth over memory over counter over slice: `CountedInput` does not forward `on_before_alloc_mem` (src/counted_input.rs:37-61), so the orders are not equivalent.
- f32 and f64 are primitives of 4 and 8 bytes; the source gives them no `MaxEncodedLen`, the model does.
- Panics inside an element decoder, and the drop glue they trigger.
- Theorems.BulkIsItemByItem: assumes len times width fits a usize; where it does not, the bulk path fails before reading.
- Theorems.ChunkedIsItemByItem: assumes no memory limit is set, since decoding element by element announces nothing.
- Derive.DerivedLenIff: leaves out wire types with a set, a map, a type inside itself or an empty enum; the longest set depends on how many keys its type has.
- Derive.DerivedEnumIff: leaves out the same wire types.
- EndToEnd.DecodeFromBytes: says nothing of sharing, the split-off bytes are a value; its depth parameter stands for no limit and only keeps recursive types finite.
