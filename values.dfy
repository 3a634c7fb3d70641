/**
 * The tagged values `IntegerType`, `FloatType`, `StringType`, `VectorType`,
 * their closed union `Any`, and the wire format they share: what
 * `BaseType::serialize` writes and what `BaseType::deserialize` and
 * `Any::deserialize` accept, as pure functions over byte sequences.
 */
module Values {
  import opened Wrappers
  import opened Primitives

  /** `enum class TypeId : Id`. */
  datatype TypeId = Uint | Float | String | Vector

  /** `static_cast<Id>(getId())`: the tag written before a value of this kind. */
  function IdOf(k: TypeId): (r: u64)
  {
    match k
    case Uint => 0
    case Float => 1
    case String => 2
    case Vector => 3
  }

  /** The `switch (static_cast<TypeId>(id))` of `Any::deserialize`: which kind a tag names, if any. */
  function KindOfId(id: u64): (r: Option<TypeId>)
    ensures r.Some? <==> id < 4
    ensures r.Some? ==> IdOf(r.value) == id
    ensures forall k :: IdOf(k) == id ==> r == Some(k)
  {
    if id == 0 then Some(Uint)
    else if id == 1 then Some(Float)
    else if id == 2 then Some(String)
    else if id == 3 then Some(Vector)
    else None
  }

  /**
   * One `Any`: exactly one of the four kinds. A `FloatType` payload is the
   * 64-bit pattern of its `double`; a `StringType` payload is its bytes.
   */
  datatype Value =
    | IntegerType(u: u64)
    | FloatType(bits: u64)
    | StringType(s: seq<byte>)
    | VectorType(items: seq<Value>)

  /** `Any::getPayloadTypeId` (and `BaseType::getId` of the held kind). */
  function KindOf(v: Value): (r: TypeId)
  {
    match v
    case IntegerType(_) => Uint
    case FloatType(_) => Float
    case StringType(_) => String
    case VectorType(_) => Vector
  }

  /**
   * `Any::operator==` (a `std::variant` comparison: same alternative, then
   * `BaseType::operator==` on the payloads, element by element for vectors).
   * Payloads of floats are compared as bit patterns. The comparison holds
   * exactly when the two values are identical.
   */
  function Equals(a: Value, b: Value): (r: bool)
    ensures r <==> a == b
  {
    match (a, b)
    case (IntegerType(x), IntegerType(y)) => x == y
    case (FloatType(x), FloatType(y)) => x == y
    case (StringType(s), StringType(t)) => s == t
    case (VectorType(xs), VectorType(ys)) => EqualsSeq(xs, ys)
    case _ => false
  }

  /**
   * `std::vector<Any>::operator==`, reached from `BaseType::operator==` of a
   * vector: same length and pairwise `Any` equality, which is identity.
   */
  function EqualsSeq(xs: seq<Value>, ys: seq<Value>): (r: bool)
    ensures r <==> xs == ys
  {
    if |xs| == 0 || |ys| == 0 then |xs| == |ys|
    else
      assert xs == [xs[0]] + xs[1..] && ys == [ys[0]] + ys[1..];
      Equals(xs[0], ys[0]) && EqualsSeq(xs[1..], ys[1..])
  }

  /** Every size fits the u64 field that carries it (true of any in-memory C++ value). */
  predicate Encodable(v: Value)
  {
    match v
    case IntegerType(_) => true
    case FloatType(_) => true
    case StringType(s) => |s| < U64_LIMIT
    case VectorType(items) => |items| < U64_LIMIT && EncodableSeq(items)
  }

  predicate EncodableSeq(items: seq<Value>)
  {
    |items| == 0 || (Encodable(items[0]) && EncodableSeq(items[1..]))
  }

  /** `BaseType::serialize` / `Any::serialize`: tag, then the kind's payload. */
  function Encode(v: Value): (r: seq<byte>)
    ensures |r| >= 2 * WIDTH
  {
    match v
    case IntegerType(x) => LE64(IdOf(Uint)) + LE64(x)
    case FloatType(x) => LE64(IdOf(Float)) + LE64(x)
    case StringType(s) => LE64(IdOf(String)) + LE64(SizeField(|s|)) + s
    case VectorType(items) => LE64(IdOf(Vector)) + LE64(SizeField(|items|)) + EncodeSeq(items)
  }

  /** The encodings of `items`, back to back, in order. */
  function EncodeSeq(items: seq<Value>): (r: seq<byte>)
    ensures |r| >= 16 * |items|
  {
    if |items| == 0 then [] else Encode(items[0]) + EncodeSeq(items[1..])
  }

  /** The `std::runtime_error` messages thrown while decoding. */
  datatype Error =
    | InvalidBufferSize         // "Invalid buffer size": fewer than 8 bytes left for `Any`'s tag
    | UnknownTypeId             // "Unknown type ID"
    | BufferTooSmallForTypeId   // "Buffer too small for type ID"
    | TypeIdMismatch            // "Type ID mismatch"
    | BufferTooSmallForSize     // "Buffer too small for size"
    | BufferTooSmallForData     // "Buffer too small for data"
    | BufferTooSmallForValue    // "Buffer too small for value"
    | PacketTooShort            // a packet shorter than its 8-byte count

  /** The errors of the bounds checks: the input ended before the value did. */
  predicate Underrun(e: Error)
  {
    e == InvalidBufferSize || e == BufferTooSmallForTypeId || e == BufferTooSmallForSize
    || e == BufferTooSmallForData || e == BufferTooSmallForValue || e == PacketTooShort
  }

  /** A decoded value and the cursor just past it, or the error thrown. */
  type Decoded = Result<(Value, nat), Error>

  /** Decoded values and the cursor just past the last one, or the error thrown. */
  type DecodedSeq = Result<(seq<Value>, nat), Error>

  /**
   * `BaseType<T, ValueType>::deserialize(begin, end)` for the kind `kind`,
   * with `begin` at `pos` and `end` at the end of `buf`.
   */
  function DecodeAs(kind: TypeId, buf: seq<byte>, pos: nat): (r: Decoded)
    requires pos <= |buf|
    ensures r.Success? ==> pos + 2 * WIDTH <= r.value.1 <= |buf|
    decreases |buf| - pos, 1
  {
    if |buf| - pos < WIDTH then Failure(BufferTooSmallForTypeId)
    else if ReadU64(buf, pos) != IdOf(kind) then Failure(TypeIdMismatch)
    else
      var it := pos + WIDTH;
      if kind == Uint || kind == Float then
        // the arithmetic payloads: one fixed-width field
        if |buf| - it < WIDTH then Failure(BufferTooSmallForValue)
        else
          var x := ReadU64(buf, it);
          Success((if kind == Uint then IntegerType(x) else FloatType(x), it + WIDTH))
      else
        // the sized payloads: a u64 size, checked against what is left, then the body
        if |buf| - it < WIDTH then Failure(BufferTooSmallForSize)
        else
          var size := ReadU64(buf, it);
          var start := it + WIDTH;
          if |buf| - start < size then Failure(BufferTooSmallForData)
          else if kind == String then Success((StringType(buf[start..start + size]), start + size))
          else
            match DecodeItems(buf, start, size)
            case Failure(e) => Failure(e)
            case Success((items, next)) => Success((VectorType(items), next))
  }

  /** `Any::deserialize(begin, end)`: peek the tag and hand the whole value to that kind. */
  function DecodeAny(buf: seq<byte>, pos: nat): (r: Decoded)
    requires pos <= |buf|
    ensures r.Success? ==> pos + 2 * WIDTH <= r.value.1 <= |buf|
    decreases |buf| - pos, 2
  {
    if |buf| - pos < WIDTH then Failure(InvalidBufferSize)
    else
      match KindOfId(ReadU64(buf, pos))
      case None => Failure(UnknownTypeId)
      case Some(kind) => DecodeAs(kind, buf, pos)
  }

  /** `n` values decoded back to back from `pos` with `Any::deserialize`. */
  function DecodeItems(buf: seq<byte>, pos: nat, n: nat): (r: DecodedSeq)
    requires pos <= |buf|
    ensures r.Success? ==> |r.value.0| == n && pos <= r.value.1 <= |buf|
    decreases |buf| - pos, 3, n
  {
    if n == 0 then Success(([], pos))
    else
      match DecodeAny(buf, pos)
      case Failure(e) => Failure(e)
      case Success((v, next)) => Prepend([v], DecodeItems(buf, next, n - 1))
  }

  /** `vs` placed before the values of a successful decode; failures pass through. */
  function Prepend(vs: seq<Value>, r: DecodedSeq): (r': DecodedSeq)
    ensures r'.Success? <==> r.Success?
    ensures r.Success? ==> r'.value == (vs + r.value.0, r.value.1)
    ensures r.Failure? ==> r' == r
  {
    match r
    case Failure(e) => Failure(e)
    case Success((ws, next)) => Success((vs + ws, next))
  }
}
