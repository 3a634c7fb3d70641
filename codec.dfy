/**
 * The step-by-step serializer and deserializers of `BaseType` and `Any`:
 * they append to a caller's buffer and advance a cursor in loops, and are
 * proved to compute exactly `Encode`, `DecodeAs` and `DecodeAny`.
 */
module Codec {
  import opened Wrappers
  import opened Primitives
  import opened Values
  import opened Properties

  /**
   * `BaseType::serialize(buff)`, reached for any value through `Any::serialize`:
   * appends the tag, then the payload (for a vector, each element in turn).
   */
  method AppendEncoding(v: Value, buff: seq<byte>) returns (out: seq<byte>)
    ensures out == buff + Encode(v)
    decreases v, 1
  {
    out := SerializeU64(IdOf(KindOf(v)), buff);
    match v
    case IntegerType(x) =>
      out := SerializeU64(x, out);
    case FloatType(x) =>
      out := SerializeU64(x, out);
    case StringType(s) =>
      out := SerializeU64(SizeField(|s|), out);
      out := AppendBytes(s, out);
    case VectorType(items) =>
      out := SerializeU64(SizeField(|items|), out);
      out := AppendItems(items, out);
  }

  /** The `StringType` payload loop: push each byte of the string. */
  method AppendBytes(s: seq<byte>, buff: seq<byte>) returns (out: seq<byte>)
    ensures out == buff + s
  {
    out := buff;
    for i := 0 to |s|
      invariant out == buff + s[..i]
    {
      out := out + [s[i]];
    }
    assert s[..|s|] == s;
  }

  /** The `VectorType` payload loop: serialize each element in order. */
  method AppendItems(items: seq<Value>, buff: seq<byte>) returns (out: seq<byte>)
    ensures out == buff + EncodeSeq(items)
    decreases items, 0
  {
    out := buff;
    for i := 0 to |items|
      invariant out == buff + EncodeSeq(items[..i])
    {
      assert items[..i + 1] == items[..i] + [items[i]];
      EncodeSeqSnoc(items[..i], items[i]);
      out := AppendEncoding(items[i], out);
    }
    assert items[..|items|] == items;
  }

  /**
   * `BaseType<T, ValueType>::deserialize(begin, end)` for the kind `kind`:
   * check and read the tag, then the fixed payload, or the size followed by
   * the string's bytes or the vector's elements.
   * Returns the decoded value with the cursor past it, or the error thrown.
   */
  method DeserializeAs(kind: TypeId, buf: seq<byte>, begin: nat) returns (r: Decoded)
    requires begin <= |buf|
    ensures r == DecodeAs(kind, buf, begin)
    decreases |buf| - begin, 1
  {
    var it := begin;
    if |buf| - it < WIDTH {
      return Failure(BufferTooSmallForTypeId);
    }
    var id;
    id, it := DeserializeU64(buf, it);
    if id != IdOf(kind) {
      return Failure(TypeIdMismatch);
    }
    if kind == String || kind == Vector {
      if |buf| - it < WIDTH {
        return Failure(BufferTooSmallForSize);
      }
      var size;
      size, it := DeserializeU64(buf, it);
      if |buf| - it < size {
        return Failure(BufferTooSmallForData);
      }
      if kind == String {
        var value;
        value, it := DeserializeBytes(buf, it, size);
        r := Success((StringType(value), it));
      } else {
        var items := DeserializeItems(buf, it, size);
        r := if items.Success? then Success((VectorType(items.value.0), items.value.1))
             else Failure(items.error);
      }
    } else {
      if |buf| - it < WIDTH {
        return Failure(BufferTooSmallForValue);
      }
      var x;
      x, it := DeserializeU64(buf, it);
      r := Success((if kind == Uint then IntegerType(x) else FloatType(x), it));
    }
  }

  /** The `StringType` body loop: copy `size` bytes one at a time, advancing the cursor. */
  method DeserializeBytes(buf: seq<byte>, start: nat, size: nat) returns (value: seq<byte>, it: nat)
    requires start + size <= |buf|
    ensures value == buf[start..start + size]
    ensures it == start + size
  {
    value := [];
    it := start;
    for i := 0 to size
      invariant it == start + i
      invariant value == buf[start..it]
    {
      value := value + [buf[it]];
      it := it + 1;
    }
  }

  /**
   * The `VectorType` body loop: decode `size` elements one `Any` at a time,
   * each from where the previous one stopped; the first failure aborts.
   */
  method DeserializeItems(buf: seq<byte>, start: nat, size: nat) returns (r: DecodedSeq)
    requires start <= |buf|
    ensures r == DecodeItems(buf, start, size)
    decreases |buf| - start, 3
  {
    var items: seq<Value> := [];
    var it := start;
    PrependNothing(DecodeItems(buf, start, size));
    for i := 0 to size
      invariant start <= it <= |buf|
      invariant Prepend(items, DecodeItems(buf, it, size - i)) == DecodeItems(buf, start, size)
    {
      var any := DeserializeAny(buf, it);
      if any.Failure? {
        return Failure(any.error);
      }
      var (v, next) := any.value;
      ItemsStep(buf, it, size - i, items, v, next);
      items := items + [v];
      it := next;
    }
    assert items + [] == items;
    r := Success((items, it));
  }

  /**
   * `Any::deserialize(begin, end)`: check that a tag fits, peek it, and let the
   * decoder of the kind it names decode the whole value from `begin` again.
   */
  method DeserializeAny(buf: seq<byte>, begin: nat) returns (r: Decoded)
    requires begin <= |buf|
    ensures r == DecodeAny(buf, begin)
    decreases |buf| - begin, 2
  {
    if |buf| - begin < WIDTH {
      return Failure(InvalidBufferSize);
    }
    var id, _ := DeserializeU64(buf, begin);
    match KindOfId(id)
    case None =>
      r := Failure(UnknownTypeId);
    case Some(kind) =>
      r := DeserializeAs(kind, buf, begin);
  }
}
