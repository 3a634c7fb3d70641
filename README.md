# RawDataSerialize in Dafny

A model of the binary protocol in `main.cpp` and of its C++ implementation, with proofs.

A packet is a `uint64_t` count followed by that many serialized values. Every
value starts with a `uint64_t` type id. The four kinds and what follows the id:

| kind | id | after the id |
|---|---|---|
| `IntegerType` | 0 | a `uint64_t` |
| `FloatType` | 1 | a `double` |
| `StringType` | 2 | a `uint64_t` size, then that many bytes |
| `VectorType` | 3 | a `uint64_t` size, then that many serialized values of any kind |

All numbers are little endian.

## Modules

- **Primitives** is `tools::serialize` / `tools::deserialize` for 64-bit numbers.
  - Bytes are integers in `0..255`, and `u64` is an integer below 2^64.
  - `LE64` gives the eight little-endian bytes of a number. `ReadU64` packs eight bytes back into one.
  - `SerializeU64` and `DeserializeU64` are the two loops of the source, proved against those functions.
- **Values** holds the specification functions:
  - the `TypeId` enumeration and its numeric ids;
  - the value datatype, with one constructor per C++ class;
  - structural equality, which is `operator==`;
  - the encoding `Encode`;
  - the decoders `DecodeAs` (`BaseType::deserialize` of one kind), `DecodeAny` (`Any::deserialize`) and `DecodeItems` (the element loop of a vector).
  - A decoder returns either the value and the cursor after it, or the error the C++ code throws.
  - There is one error constructor per `std::runtime_error` message, plus `PacketTooShort`. That one is the model's own: it is the error for a packet too short to hold its count, a case the source leaves unchecked.
  - `Underrun` names the errors of the bounds checks: the input ended before the value did.
- **Properties** proves the following about those functions:
  - round trips in both directions, with the exact cursor;
  - the byte layout;
  - that a decode reads only the bytes it consumes;
  - that an encoding is not a prefix of another encoding;
  - the failures with their exact error: an unknown tag, a short tag, a tag of the wrong kind;
  - that a truncated buffer always fails with an `Underrun` error.
- **Codec** holds the imperative serializers and deserializers. They append to and read from byte sequences with the source's loops and early exits. Each is proved equal to its specification function.
- **Container** models `Serializator` as a class:
  - a `storage` field, which `Push` extends;
  - `Serialize`, which produces the packet;
  - the static `Deserialize`.
  - Lemmas cover the packet round trip and truncated packets, the eight-zero-byte empty packet, and the driver's re-serialization comparison.
  - `WorkedExample` proves that the source's 62-byte example is the packet holding `VectorType(StringType("qwerty"), IntegerType(100500))`, and that it decodes back to that value.

In the source, `deserialize` methods fill `value_` / `data_` in place and return an iterator. Here they return the value together with the new cursor. The cursor is a position in the whole buffer. The `end` iterator is always the buffer's end, as at every call site in the source.

## Model

| member | source | states |
|---|---|---|
| Primitives.SerializeU64 | main.cpp:89-101 | appends exactly the eight little-endian bytes of the value, least significant first; the bytes already in the buffer are kept |
| Primitives.DeserializeU64 | main.cpp:103-121 | the OR-accumulating loop returns the little-endian number `ReadU64` of the eight bytes at the cursor. That number is the one whose eight bytes `LE64` writes are exactly the bytes read. The cursor advances by exactly eight |
| Primitives.DecodeEncodeU64 | main.cpp:89-121 | `Pack` (the number `tools::deserialize` accumulates) of `LE64(x)` (the bytes `tools::serialize` pushes) is `x`, for every 64-bit `x` |
| Primitives.EncodeDecodeU64 | main.cpp:89-121 | any eight bytes pack to a number below 2^64, and `LE64` of that number gives the same eight bytes |
| Primitives.LE64Injective | main.cpp:97-99 | `LE64` writes distinct numbers as distinct byte strings |
| Primitives.SizeField | main.cpp:162 | the `uint64_t` cast of a container size is the size itself whenever it fits in 64 bits |
| Properties.TagNamesKind | main.cpp:151-153 | `IdOf` (`getId`) gives each kind its own tag, below 4, and the tag `switch` maps that tag back to the kind |
| Values.KindOfId | main.cpp:254-281 | a tag names a kind exactly when it is below 4; the kind named is the unique one whose id is the tag; every other tag is the `default` branch |
| Values.DecodeAs | main.cpp:313-355 | bounds: a successful decode consumes at least the id and the second field and never ends past the buffer |
| Values.DecodeAny | main.cpp:246-283 | bounds: a successful decode consumes at least 16 bytes and never ends past the buffer |
| Values.DecodeItems | main.cpp:341-346 | decoding `n` elements successfully gives exactly `n` values and a cursor inside the buffer |
| Values.Equals | main.cpp:304-306 | `Any::operator==` compares the held alternative, then the payloads with `BaseType::operator==`; it holds exactly when the two values are identical |
| Values.EqualsSeq | main.cpp:179 | the `value_ == other.value_` of a vector, a length and pairwise `Any` comparison, holds exactly when the element sequences are identical |
| Values.Encode | main.cpp:155-174 | every encoding of a value holds at least its id and a second eight-byte field |
| Values.EncodeSeq | main.cpp:169-171 | the encodings of `n` elements take at least 16 bytes per element |
| Properties.EncodingLayout | main.cpp:155-174 | `Encode` starts with the kind's id. An integer or float then has its eight payload bytes and nothing else. A string has its size and then its bytes. A vector has its size and then its elements' encodings |
| Properties.DecodeEncode | main.cpp:313-355 | wherever the encoding of an encodable value sits, both `Any::deserialize` and the decoder of the value's own kind rebuild the value and stop right after its last byte, whatever follows |
| Properties.DecodeEncodeSeq | main.cpp:341-346 | the encodings of a list of values, back to back, decode to that list with the cursor at their end |
| Properties.EncodeDecode | main.cpp:246-283 | whatever `Any::deserialize` accepts is byte for byte the encoding of the value it returns, and that value is encodable |
| Properties.EncodeDecodeAs | main.cpp:313-355 | whatever a concrete decoder accepts is the encoding of the value it returns, and that value has the decoder's kind |
| Properties.EncodeDecodeItems | main.cpp:341-346 | the bytes consumed by decoding `n` elements are the concatenated encodings of the values returned |
| Properties.DecodedKindIsTag | main.cpp:285-289 | `KindOf` (`getPayloadTypeId`) of a decoded `Any` is the kind whose id is the tag it was decoded from |
| Properties.DecodeReadsOnlyConsumed | main.cpp:313-355 | a successful decode gives the same value and cursor in any buffer that has the same consumed bytes |
| Properties.TruncatedFails | main.cpp:316-350 | every strict prefix of an encoding, wherever it sits, makes `Any::deserialize` and the decoder of the value's kind fail with an `Underrun` error. That is "Invalid buffer size" or one of the "Buffer too small for …" errors, never a tag error |
| Properties.TruncatedItemsFail | main.cpp:341-346 | every strict prefix of a vector's element encodings makes the element loop fail with an `Underrun` error |
| Properties.EncodingPrefixFree | main.cpp:155-174 | the encoding of one value is never a proper prefix of another's, and equal encodings mean equal values |
| Properties.UnknownTagFails | main.cpp:279-280 | a tag of 4 or more fails with "Unknown type ID" |
| Properties.ShortTagFails | main.cpp:247-248 | fewer than eight bytes left makes `Any::deserialize` fail with "Invalid buffer size" and a concrete decoder fail with "Buffer too small for type ID" |
| Properties.WrongTagFails | main.cpp:319-322 | once eight bytes are present, a concrete decoder fails with "Type ID mismatch" for every tag other than its kind's id. Nothing after the tag matters, and tags of 4 or more are included |
| Properties.TagMismatchFails | main.cpp:319-322 | in particular, a concrete decoder given the encoding of a value of another kind fails with "Type ID mismatch" |
| Codec.AppendEncoding | main.cpp:155-174 | `serialize` appends exactly the value's encoding to the buffer, replacing nothing |
| Codec.AppendBytes | main.cpp:163-165 | the character loop appends the string's bytes in order |
| Codec.AppendItems | main.cpp:169-171 | the element loop appends the elements' encodings in order |
| Codec.DeserializeAs | main.cpp:313-355 | the concrete `deserialize` returns exactly the value, cursor or error of the specification decoder |
| Codec.DeserializeBytes | main.cpp:334-339 | the string loop takes exactly the next `size` bytes and moves the cursor past them |
| Codec.DeserializeItems | main.cpp:340-346 | the element loop returns exactly what decoding `size` elements gives, including the first error hit |
| Codec.DeserializeAny | main.cpp:246-283 | `Any::deserialize` returns exactly the value, cursor or error of the specification decoder |
| Container.Packet | main.cpp:371-378 | the packet's first eight bytes read back as the number of values, reduced modulo 2^64 |
| Container.DecodePacket | main.cpp:380-391 | a successful decode returns exactly as many values as the count field says and ends inside the buffer. A buffer shorter than the count field fails with `PacketTooShort` |
| Container.Serializator.constructor | main.cpp:398 | a new container holds no values |
| Container.Serializator.Push | main.cpp:367-369 | `push` adds the value at the end and keeps the earlier ones unchanged |
| Container.Serializator.Serialize | main.cpp:371-378 | `serialize` gives the count followed by every stored value's encoding, in insertion order |
| Container.Serializator.Deserialize | main.cpp:380-391 | `deserialize` succeeds exactly when the packet decodes; it then returns the decoded values in order, and otherwise the error the packet decode hits |
| Container.PacketRoundTrip | main.cpp:371-391 | the packet of any encodable values decodes to the same values in order, with the cursor at the packet's end, whatever follows |
| Container.PacketReencodes | main.cpp:371-391 | re-serializing the values a buffer decodes to gives exactly the bytes the decode consumed |
| Container.ReserializeMatchesIffConsumed | main.cpp:424 | the driver's comparison of the input with its re-serialization holds exactly when the decode consumed the whole input, so trailing bytes make it false |
| Container.TruncatedPacketFails | main.cpp:380-391 | every strict prefix of a packet fails to decode, with an `Underrun` error |
| Container.EmptyPacket | main.cpp:371-378 | an empty container sends eight zero bytes, and those decode to no values |
| Container.WorkedExample | main.cpp:51-59 | the listed 62 bytes are exactly the packet of `VectorType(StringType("qwerty"), IntegerType(100500))` and decode back to it |

## Left out

- `main()` is left out: its file I/O and console output are outside the model. The comparison it makes is stated by `Container.ReserializeMatchesIffConsumed`.
- `FloatType` keeps its payload as a 64-bit pattern, not a floating-point number.
  - On a little-endian host, `tools::serialize<double>` copies the object bytes, so the wire format is the same as for a `uint64_t`.
  - `Values.Equals` compares these bit patterns. `double`'s `==` works differently: NaN is not equal to itself, and +0 equals -0. Floating-point comparison is not modelled.
- The template and `std::variant` machinery is left out. This covers `TypeInfo`, the `enable_if` constraints, the converting constructors and `std::visit`. Kinds are datatype constructors instead.
- `Any::getValue`, `Serializator::getStorage`, `VectorType::reserve` and `VectorType::push_back_impl` are accessors or allocation helpers with no protocol behaviour.
- In-place update is not modelled. The source fills `value_` / `data_` through `clear`, `reserve` and `push_back`. If it throws partway, it leaves a partly filled object that no caller reads. The model returns the finished value or the error instead.
- Allocation failure is out of scope, and so are `reserve` throwing `std::length_error` and the `ptrdiff_t` wrap.
  - `Serializator::deserialize` calls `result.reserve(size)` at main.cpp:384 without checking the count. A huge count makes it throw before any element is decoded. The model instead starts decoding and fails at the first missing element, with an `Underrun` error such as "Invalid buffer size".
  - The size check at main.cpp:329 casts a `uint64_t` to `std::ptrdiff_t`, so a size of 2^63 or more wraps to a negative number and passes the check. `reserve` then throws a length or allocation error.
  - The model compares unbounded integers, so those sizes fail with "Buffer too small for data".
- `Container.DecodePacket` reads the count only when at least eight bytes exist. `Serializator::deserialize` (main.cpp:382) reads the count without checking the length, which is undefined behaviour on a shorter buffer. The model fails with `PacketTooShort` instead.
- Values whose sizes do not fit in 64 bits cannot exist in memory. The round-trip lemmas require `Encodable`, and `SizeField` reduces the cast modulo 2^64 for completeness.
