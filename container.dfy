/**
 * `Serializator`: an ordered sequence of `Any` values sent as one packet,
 * a u64 count followed by each value's encoding in insertion order.
 */
module Container {
  import opened Wrappers
  import opened Primitives
  import opened Values
  import opened Properties
  import opened Codec

  /**
   * The packet `Serializator::serialize` produces for the values `vs`: its
   * first eight bytes read back as the number of values.
   */
  function Packet(vs: seq<Value>): (r: seq<byte>)
    ensures |r| >= WIDTH && ReadU64(r, 0) == SizeField(|vs|)
  {
    var r := LE64(SizeField(|vs|)) + EncodeSeq(vs);
    assert r[..WIDTH] == LE64(SizeField(|vs|));
    ReadsBack(r, 0, SizeField(|vs|));
    r
  }

  /**
   * `Serializator::deserialize`: the count, then that many values decoded one
   * `Any` at a time from offset 8, with the cursor past the last one. The source
   * reads the count without checking that 8 bytes exist; here a shorter
   * buffer fails with `PacketTooShort`.
   */
  function DecodePacket(buf: seq<byte>): (r: DecodedSeq)
    ensures |buf| < WIDTH ==> r == Failure(PacketTooShort)
    ensures r.Success? ==> |r.value.0| == ReadU64(buf, 0) && WIDTH <= r.value.1 <= |buf|
  {
    if |buf| < WIDTH then Failure(PacketTooShort)
    else DecodeItems(buf, WIDTH, ReadU64(buf, 0))
  }

  class Serializator {
    /** `storage_`: the values pushed so far, in order. */
    var storage: seq<Value>

    constructor ()
      ensures storage == []
    {
      storage := [];
    }

    /** `push(val)`: one more value at the end; the earlier ones stay as they were. */
    method Push(v: Value)
      modifies this
      ensures storage == old(storage) + [v]
    {
      storage := storage + [v];
    }

    /** `serialize()`: the count as u64, then each stored value in insertion order. */
    method Serialize() returns (buff: seq<byte>)
      ensures buff == Packet(storage)
    {
      buff := SerializeU64(SizeField(|storage|), []);
      ghost var header := buff;
      for i := 0 to |storage|
        invariant buff == header + EncodeSeq(storage[..i])
      {
        assert storage[..i + 1] == storage[..i] + [storage[i]];
        EncodeSeqSnoc(storage[..i], storage[i]);
        buff := AppendEncoding(storage[i], buff);
      }
      assert storage[..|storage|] == storage;
    }

    /**
     * `static deserialize(val)`: read the count, then decode that many values
     * with `Any::deserialize`, each from where the previous stopped; any error
     * aborts the whole decode.
     */
    static method Deserialize(val: seq<byte>) returns (r: Result<seq<Value>, Error>)
      ensures r.Success? <==> DecodePacket(val).Success?
      ensures r.Success? ==> r.value == DecodePacket(val).value.0
      ensures r.Failure? ==> r.error == DecodePacket(val).error
    {
      if |val| < WIDTH {
        return Failure(PacketTooShort);
      }
      var size, it := DeserializeU64(val, 0);
      var result: seq<Value> := [];
      PrependNothing(DecodeItems(val, it, size));
      for i := 0 to size
        invariant WIDTH <= it <= |val|
        invariant Prepend(result, DecodeItems(val, it, size - i)) == DecodePacket(val)
      {
        var any := DeserializeAny(val, it);
        if any.Failure? {
          return Failure(any.error);
        }
        var (v, next) := any.value;
        ItemsStep(val, it, size - i, result, v, next);
        result := result + [v];
        it := next;
      }
      assert result + [] == result;
      r := Success(result);
    }
  }

  /**
   * Container round trip: the packet of encodable values `vs` decodes back to
   * `vs`, in order, with the cursor at its end, whatever bytes follow it.
   */
  lemma PacketRoundTrip(vs: seq<Value>, rest: seq<byte>)
    requires |vs| < U64_LIMIT && EncodableSeq(vs)
    ensures DecodePacket(Packet(vs) + rest) == Success((vs, |Packet(vs)|))
  {
    var buf := Packet(vs) + rest;
    var body := EncodeSeq(vs);
    assert buf[..WIDTH] == LE64(|vs|);
    ReadsBack(buf, 0, |vs|);
    assert buf[WIDTH..WIDTH + |body|] == body;
    DecodeEncodeSeq(vs, buf, WIDTH);
  }

  /**
   * Decode-then-serialize: the packet of the values a buffer decodes to is
   * exactly the part of the buffer the decode consumed.
   */
  lemma PacketReencodes(buf: seq<byte>)
    requires DecodePacket(buf).Success?
    ensures |DecodePacket(buf).value.0| < U64_LIMIT
    ensures Packet(DecodePacket(buf).value.0) == buf[..DecodePacket(buf).value.1]
  {
    var (vs, next) := DecodePacket(buf).value;
    EncodeDecodeU64(buf[..WIDTH]);
    EncodeDecodeItems(buf, WIDTH, ReadU64(buf, 0));
    assert buf[..next] == buf[..WIDTH] + buf[WIDTH..next];
  }

  /**
   * The comparison the driver makes: re-serializing the decoded values
   * reproduces the input exactly when the decode consumed all of it, and
   * differs whenever bytes trail the packet.
   */
  lemma ReserializeMatchesIffConsumed(buf: seq<byte>)
    requires DecodePacket(buf).Success?
    ensures Packet(DecodePacket(buf).value.0) == buf <==> DecodePacket(buf).value.1 == |buf|
  {
    PacketReencodes(buf);
  }

  /**
   * Truncation safety for packets: a strict prefix of a packet never decodes,
   * and the error is a bounds check's.
   */
  lemma TruncatedPacketFails(vs: seq<Value>, buf: seq<byte>)
    requires |vs| < U64_LIMIT && EncodableSeq(vs)
    requires |buf| < |Packet(vs)| && buf == Packet(vs)[..|buf|]
    ensures DecodePacket(buf).Failure? && Underrun(DecodePacket(buf).error)
  {
    var full := Packet(vs);
    if |buf| >= WIDTH {
      assert buf[..WIDTH] == full[..WIDTH] == LE64(|vs|);
      ReadsBack(buf, 0, |vs|);
      assert buf[WIDTH..] == full[WIDTH..][..|buf| - WIDTH];
      assert full[WIDTH..] == EncodeSeq(vs);
      TruncatedItemsFail(vs, buf, WIDTH);
    }
  }

  /** An empty container sends exactly eight zero bytes, which decode to no values. */
  lemma EmptyPacket()
    ensures Packet([]) == [0, 0, 0, 0, 0, 0, 0, 0]
    ensures DecodePacket([0, 0, 0, 0, 0, 0, 0, 0]) == Success(([], WIDTH))
  {
    assert LE64(0) == [0, 0, 0, 0, 0, 0, 0, 0];
    PacketRoundTrip([], []);
  }

  /** The 62 bytes listed for a packet holding `VectorType(StringType("qwerty"), IntegerType(100500))`. */
  const EXAMPLE_PACKET: seq<byte> :=
      [0x01, 0x00, 0x00, 0x00, 0x00, 0x00, 0x00, 0x00]
    + [0x03, 0x00, 0x00, 0x00, 0x00, 0x00, 0x00, 0x00]
    + [0x02, 0x00, 0x00, 0x00, 0x00, 0x00, 0x00, 0x00]
    + [0x02, 0x00, 0x00, 0x00, 0x00, 0x00, 0x00, 0x00]
    + [0x06, 0x00, 0x00, 0x00, 0x00, 0x00, 0x00, 0x00]
    + [0x71, 0x77, 0x65, 0x72, 0x74, 0x79, 0x00, 0x00]
    + [0x00, 0x00, 0x00, 0x00, 0x00, 0x00, 0x94, 0x88]
    + [0x01, 0x00, 0x00, 0x00, 0x00, 0x00]

  /** The bytes of "qwerty". */
  const QWERTY: seq<byte> := [0x71, 0x77, 0x65, 0x72, 0x74, 0x79]

  /** The value of the worked example. */
  const EXAMPLE_VALUE: Value := VectorType([StringType(QWERTY), IntegerType(100500)])

  /** An encoded small number: the number in the first byte, then seven zero bytes */
  lemma SmallLE64(x: u64)
    requires x < 256
    ensures LE64(x) == [x, 0, 0, 0, 0, 0, 0, 0]
  {
    var b: seq<byte> := [x, 0, 0, 0, 0, 0, 0, 0];
    PackEight(b);
    EncodeDecodeU64(b);
  }

  lemma ExampleNumber()
    ensures LE64(100500) == [0x94, 0x88, 0x01, 0, 0, 0, 0, 0]
  {
    var b: seq<byte> := [0x94, 0x88, 0x01, 0, 0, 0, 0, 0];
    PackEight(b);
    EncodeDecodeU64(b);
  }

  lemma ExampleString()
    ensures Encode(StringType(QWERTY)) == LE64(2) + LE64(6) + QWERTY
  {
  }

  lemma ExampleInteger()
    ensures Encode(IntegerType(100500)) == LE64(0) + LE64(100500)
  {
  }

  lemma ExampleVector()
    ensures Encode(EXAMPLE_VALUE) == LE64(3) + LE64(2) + Encode(StringType(QWERTY)) + Encode(IntegerType(100500))
  {
    var str := StringType(QWERTY);
    var num := IntegerType(100500);
    assert EncodeSeq([num]) == Encode(num);
    assert [str, num][1..] == [num];
    assert EncodeSeq([str, num]) == Encode(str) + Encode(num);
  }

  /** The value's encoding, field by field. */
  lemma ExampleFields()
    ensures Encode(EXAMPLE_VALUE)
         == LE64(3) + LE64(2) + LE64(2) + LE64(6) + QWERTY + LE64(0) + LE64(100500)
  {
    ExampleVector();
    ExampleString();
    ExampleInteger();
  }

  /** Those fields, behind the count 1, spelled out byte by byte. */
  lemma ExampleFieldBytes()
    ensures LE64(1) + (LE64(3) + LE64(2) + LE64(2) + LE64(6) + QWERTY + LE64(0) + LE64(100500))
         == EXAMPLE_PACKET
  {
    ExampleNumber();
    SmallLE64(0);
    SmallLE64(1);
    SmallLE64(2);
    SmallLE64(3);
    SmallLE64(6);
    assert LE64(1) + (LE64(3) + LE64(2) + LE64(2) + LE64(6) + QWERTY + LE64(0) + LE64(100500))
        == [1, 0, 0, 0, 0, 0, 0, 0] + [3, 0, 0, 0, 0, 0, 0, 0] + [2, 0, 0, 0, 0, 0, 0, 0]
         + [2, 0, 0, 0, 0, 0, 0, 0] + [6, 0, 0, 0, 0, 0, 0, 0] + [0x71, 0x77, 0x65, 0x72, 0x74, 0x79]
         + [0, 0, 0, 0, 0, 0, 0, 0] + [0x94, 0x88, 0x01, 0, 0, 0, 0, 0];
    ExampleTail();
  }

  /** The packet of a single value: the count 1, then that value's encoding. */
  lemma PacketOfOne(v: Value)
    ensures Packet([v]) == LE64(1) + Encode(v)
  {
    assert [v][1..] == [];
    assert EncodeSeq([v]) == Encode(v);
  }

  lemma ExampleBytes()
    ensures Packet([EXAMPLE_VALUE]) == EXAMPLE_PACKET
  {
    PacketOfOne(EXAMPLE_VALUE);
    ExampleFields();
    ExampleFieldBytes();
  }

  /** The last 22 bytes: "qwerty", the integer's tag and its payload, regrouped into rows of eight. */
  lemma ExampleTail()
    ensures [0x71, 0x77, 0x65, 0x72, 0x74, 0x79] + [0, 0, 0, 0, 0, 0, 0, 0] + [0x94, 0x88, 0x01, 0, 0, 0, 0, 0]
         == [0x71, 0x77, 0x65, 0x72, 0x74, 0x79, 0x00, 0x00] + [0x00, 0x00, 0x00, 0x00, 0x00, 0x00, 0x94, 0x88]
          + [0x01, 0x00, 0x00, 0x00, 0x00, 0x00]
  {
  }

  /**
   * The worked example: the packet of that one vector is exactly those 62 bytes,
   * and they decode back to the vector with its elements in order.
   */
  lemma WorkedExample()
    ensures Packet([EXAMPLE_VALUE]) == EXAMPLE_PACKET
    ensures DecodePacket(EXAMPLE_PACKET) == Success(([EXAMPLE_VALUE], |EXAMPLE_PACKET|))
  {
    ExampleBytes();
    assert [StringType(QWERTY), IntegerType(100500)][1..] == [IntegerType(100500)];
    assert [IntegerType(100500)][1..] == [];
    assert EncodableSeq([IntegerType(100500)]);
    assert Encodable(StringType(QWERTY));
    assert EncodableSeq([StringType(QWERTY), IntegerType(100500)]);
    assert [EXAMPLE_VALUE][1..] == [];
    assert EncodableSeq([EXAMPLE_VALUE]);
    PacketRoundTrip([EXAMPLE_VALUE], []);
    assert Packet([EXAMPLE_VALUE]) + [] == Packet([EXAMPLE_VALUE]);
  }
}
