/** What the wire format guarantees about `Encode`, `DecodeAs` and `DecodeAny`. */
module Properties {
  import opened Wrappers
  import opened Primitives
  import opened Values

  /**
   * `getId` gives each kind a tag of its own, below 4, and the `switch` of
   * `Any::deserialize` maps that tag back to the kind.
   */
  lemma TagNamesKind(a: TypeId, b: TypeId)
    ensures IdOf(a) < 4 && KindOfId(IdOf(a)) == Some(a)
    ensures IdOf(a) == IdOf(b) <==> a == b
  {
  }

  /** Encoding a sequence with one more value at the end appends that value's encoding. */
  lemma {:induction false} EncodeSeqSnoc(xs: seq<Value>, x: Value)
    ensures EncodeSeq(xs + [x]) == EncodeSeq(xs) + Encode(x)
  {
    if |xs| == 0 {
      assert xs + [x] == [x];
      assert [x][1..] == [];
    } else {
      assert (xs + [x])[1..] == xs[1..] + [x];
      EncodeSeqSnoc(xs[1..], x);
    }
  }

  /** The bytes `buf[pos + a..pos + b]` of a buffer holding `e` at `pos`. */
  lemma SliceOf(buf: seq<byte>, pos: nat, e: seq<byte>, a: nat, b: nat)
    requires pos + |e| <= |buf| && buf[pos..pos + |e|] == e
    requires a <= b <= |e|
    ensures buf[pos + a..pos + b] == e[a..b]
  {
    forall i | 0 <= i < b - a
      ensures buf[pos + a..pos + b][i] == e[a..b][i]
    {
      assert e[a..b][i] == e[a + i] == buf[pos..pos + |e|][a + i];
    }
  }

  /** The value read from a buffer holding `LE64(x)` at `pos` is `x`. */
  lemma ReadsBack(buf: seq<byte>, pos: nat, x: u64)
    requires pos + WIDTH <= |buf| && buf[pos..pos + WIDTH] == LE64(x)
    ensures ReadU64(buf, pos) == x
  {
    DecodeEncodeU64(x);
  }

  /** `buf` holds the bytes `e` starting at `pos`. */
  ghost predicate HoldsAt(buf: seq<byte>, pos: nat, e: seq<byte>)
  {
    pos + |e| <= |buf| && buf[pos..pos + |e|] == e
  }

  /** The u64 that follows the tag in the encoding of `v`: its payload or its size. */
  function SecondField(v: Value): (r: u64)
  {
    match v
    case IntegerType(x) => x
    case FloatType(x) => x
    case StringType(s) => SizeField(|s|)
    case VectorType(items) => SizeField(|items|)
  }

  /** The first eight bytes of an encoding are its kind's tag. */
  lemma TagPrefix(v: Value)
    ensures Encode(v)[..WIDTH] == LE64(IdOf(KindOf(v)))
  {
    var e := Encode(v);
    var h := LE64(IdOf(KindOf(v)));
    assert e == h + e[WIDTH..];
  }

  /** The next eight bytes carry the payload or the size. */
  lemma SecondPrefix(v: Value)
    ensures Encode(v)[WIDTH..2 * WIDTH] == LE64(SecondField(v))
  {
    var e := Encode(v);
    var h := LE64(IdOf(KindOf(v))) + LE64(SecondField(v));
    assert e == h + e[2 * WIDTH..];
    assert h[WIDTH..] == LE64(SecondField(v));
  }

  /** Reading the encoding of `v` in place: tag, second field, then the body. */
  lemma HeaderAt(v: Value, buf: seq<byte>, pos: nat)
    requires HoldsAt(buf, pos, Encode(v))
    ensures ReadU64(buf, pos) == IdOf(KindOf(v))
    ensures ReadU64(buf, pos + WIDTH) == SecondField(v)
    ensures v.StringType? ==> buf[pos + 2 * WIDTH..pos + |Encode(v)|] == v.s
    ensures v.VectorType? ==> HoldsAt(buf, pos + 2 * WIDTH, EncodeSeq(v.items))
  {
    var e := Encode(v);
    SliceOf(buf, pos, e, 0, WIDTH);
    TagPrefix(v);
    ReadsBack(buf, pos, IdOf(KindOf(v)));
    SliceOf(buf, pos, e, WIDTH, 2 * WIDTH);
    SecondPrefix(v);
    ReadsBack(buf, pos + WIDTH, SecondField(v));
    SliceOf(buf, pos, e, 2 * WIDTH, |e|);
  }

  /**
   * Round trip with exact cursor: wherever the encoding of `v` sits in a buffer,
   * both `Any::deserialize` and the decoder of `v`'s own kind rebuild `v` and stop
   * exactly at the byte after it, whatever follows.
   */
  lemma {:induction false} DecodeEncode(v: Value, buf: seq<byte>, pos: nat)
    requires Encodable(v)
    requires pos + |Encode(v)| <= |buf| && buf[pos..pos + |Encode(v)|] == Encode(v)
    ensures DecodeAs(KindOf(v), buf, pos) == Success((v, pos + |Encode(v)|))
    ensures DecodeAny(buf, pos) == Success((v, pos + |Encode(v)|))
    decreases v, 1
  {
    HeaderAt(v, buf, pos);
    if v.VectorType? {
      DecodeEncodeSeq(v.items, buf, pos + 2 * WIDTH);
    }
  }

  /** The encodings of `items` back to back decode to `items`, ending right after them. */
  lemma {:induction false} DecodeEncodeSeq(items: seq<Value>, buf: seq<byte>, pos: nat)
    requires EncodableSeq(items)
    requires pos + |EncodeSeq(items)| <= |buf| && buf[pos..pos + |EncodeSeq(items)|] == EncodeSeq(items)
    ensures DecodeItems(buf, pos, |items|) == Success((items, pos + |EncodeSeq(items)|))
    decreases items, 0
  {
    if |items| > 0 {
      SplitHolds(buf, pos, Encode(items[0]), EncodeSeq(items[1..]));
      DecodeEncode(items[0], buf, pos);
      DecodeEncodeSeq(items[1..], buf, pos + |Encode(items[0])|);
      assert [items[0]] + items[1..] == items;
    }
  }

  /** A buffer holding `a + b` holds `a` and, right after it, `b`. */
  lemma SplitHolds(buf: seq<byte>, pos: nat, a: seq<byte>, b: seq<byte>)
    requires HoldsAt(buf, pos, a + b)
    ensures HoldsAt(buf, pos, a) && HoldsAt(buf, pos + |a|, b)
  {
    SliceOf(buf, pos, a + b, 0, |a|);
    SliceOf(buf, pos, a + b, |a|, |a| + |b|);
    assert (a + b)[..|a|] == a;
    assert (a + b)[|a|..] == b;
  }

  /**
   * Decode-then-encode: whatever `Any::deserialize` accepts is the encoding of
   * the value it returns, byte for byte, and that value is encodable.
   */
  lemma {:induction false} EncodeDecode(buf: seq<byte>, pos: nat)
    requires pos <= |buf| && DecodeAny(buf, pos).Success?
    ensures Encodable(DecodeAny(buf, pos).value.0)
    ensures buf[pos..DecodeAny(buf, pos).value.1] == Encode(DecodeAny(buf, pos).value.0)
    decreases |buf| - pos, 2
  {
    var kind := KindOfId(ReadU64(buf, pos)).value;
    EncodeDecodeAs(kind, buf, pos);
  }

  lemma {:induction false} EncodeDecodeAs(kind: TypeId, buf: seq<byte>, pos: nat)
    requires pos <= |buf| && DecodeAs(kind, buf, pos).Success?
    ensures KindOf(DecodeAs(kind, buf, pos).value.0) == kind
    ensures Encodable(DecodeAs(kind, buf, pos).value.0)
    ensures buf[pos..DecodeAs(kind, buf, pos).value.1] == Encode(DecodeAs(kind, buf, pos).value.0)
    decreases |buf| - pos, 1
  {
    if kind == Vector {
      EncodeDecodeItems(buf, pos + 2 * WIDTH, ReadU64(buf, pos + WIDTH));
      EncodeDecodeVector(buf, pos);
    } else {
      EncodeDecodeFlat(kind, buf, pos);
    }
  }

  /** `EncodeDecodeAs` for the kinds without elements. */
  lemma EncodeDecodeFlat(kind: TypeId, buf: seq<byte>, pos: nat)
    requires kind != Vector
    requires pos <= |buf| && DecodeAs(kind, buf, pos).Success?
    ensures KindOf(DecodeAs(kind, buf, pos).value.0) == kind
    ensures Encodable(DecodeAs(kind, buf, pos).value.0)
    ensures buf[pos..DecodeAs(kind, buf, pos).value.1] == Encode(DecodeAs(kind, buf, pos).value.0)
  {
    var next := DecodeAs(kind, buf, pos).value.1;
    var it := pos + WIDTH;
    FieldsRead(buf, pos);
    if kind == String {
      Reassemble(buf, pos, next, IdOf(kind), SizeField(ReadU64(buf, it)), buf[it + WIDTH..next]);
    } else {
      Reassemble(buf, pos, next, IdOf(kind), ReadU64(buf, it), []);
    }
  }

  /** `EncodeDecodeAs` for a vector, once its elements are known to re-encode. */
  lemma EncodeDecodeVector(buf: seq<byte>, pos: nat)
    requires pos <= |buf| && DecodeAs(Vector, buf, pos).Success?
    requires
      var r := DecodeItems(buf, pos + 2 * WIDTH, ReadU64(buf, pos + WIDTH));
      r.Success? && EncodableSeq(r.value.0) && buf[pos + 2 * WIDTH..r.value.1] == EncodeSeq(r.value.0)
    ensures KindOf(DecodeAs(Vector, buf, pos).value.0) == Vector
    ensures Encodable(DecodeAs(Vector, buf, pos).value.0)
    ensures buf[pos..DecodeAs(Vector, buf, pos).value.1] == Encode(DecodeAs(Vector, buf, pos).value.0)
  {
    var next := DecodeAs(Vector, buf, pos).value.1;
    FieldsRead(buf, pos);
    Reassemble(buf, pos, next, IdOf(Vector), SizeField(ReadU64(buf, pos + WIDTH)), buf[pos + 2 * WIDTH..next]);
  }

  /** The two u64 fields at `pos` read back as the bytes they were read from. */
  lemma FieldsRead(buf: seq<byte>, pos: nat)
    requires pos + 2 * WIDTH <= |buf|
    ensures buf[pos..pos + WIDTH] == LE64(ReadU64(buf, pos))
    ensures buf[pos + WIDTH..pos + 2 * WIDTH] == LE64(ReadU64(buf, pos + WIDTH))
  {
    EncodeDecodeU64(buf[pos..pos + WIDTH]);
    EncodeDecodeU64(buf[pos + WIDTH..pos + 2 * WIDTH]);
  }

  /** Two fields and a body held back to back form their concatenation. */
  lemma Reassemble(buf: seq<byte>, pos: nat, next: nat, a: u64, b: u64, body: seq<byte>)
    requires pos + 2 * WIDTH <= next <= |buf|
    requires buf[pos..pos + WIDTH] == LE64(a) && buf[pos + WIDTH..pos + 2 * WIDTH] == LE64(b)
    requires buf[pos + 2 * WIDTH..next] == body
    ensures buf[pos..next] == LE64(a) + LE64(b) + body
  {
    assert buf[pos..next] == buf[pos..pos + WIDTH] + buf[pos + WIDTH..pos + 2 * WIDTH] + buf[pos + 2 * WIDTH..next];
  }

  lemma {:induction false} EncodeDecodeItems(buf: seq<byte>, pos: nat, n: nat)
    requires pos <= |buf| && DecodeItems(buf, pos, n).Success?
    ensures EncodableSeq(DecodeItems(buf, pos, n).value.0)
    ensures buf[pos..DecodeItems(buf, pos, n).value.1] == EncodeSeq(DecodeItems(buf, pos, n).value.0)
    decreases |buf| - pos, 3, n
  {
    if n > 0 {
      var (v, mid) := DecodeAny(buf, pos).value;
      EncodeDecode(buf, pos);
      EncodeDecodeItems(buf, mid, n - 1);
      var (vs, next) := DecodeItems(buf, pos, n).value;
      assert vs[1..] == DecodeItems(buf, mid, n - 1).value.0;
      assert buf[pos..next] == buf[pos..mid] + buf[mid..next];
    }
  }

  /**
   * `getPayloadTypeId` of a freshly decoded `Any` names the tag it was read from:
   * the kind chosen by the `switch` is the kind of the value built.
   */
  lemma DecodedKindIsTag(buf: seq<byte>, pos: nat)
    requires pos <= |buf| && DecodeAny(buf, pos).Success?
    ensures IdOf(KindOf(DecodeAny(buf, pos).value.0)) == ReadU64(buf, pos)
  {
    var kind := KindOfId(ReadU64(buf, pos)).value;
    EncodeDecodeAs(kind, buf, pos);
  }

  /**
   * Decoding never looks past the bytes it consumes: a successful decode gives
   * the same value and cursor in any buffer that agrees on those bytes.
   */
  lemma DecodeReadsOnlyConsumed(buf: seq<byte>, other: seq<byte>, pos: nat)
    requires pos <= |buf| && DecodeAny(buf, pos).Success?
    requires DecodeAny(buf, pos).value.1 <= |other|
    requires other[pos..DecodeAny(buf, pos).value.1] == buf[pos..DecodeAny(buf, pos).value.1]
    ensures DecodeAny(other, pos) == DecodeAny(buf, pos)
  {
    var (v, next) := DecodeAny(buf, pos).value;
    EncodeDecode(buf, pos);
    DecodeEncode(v, other, pos);
  }

  /**
   * Truncation safety: a buffer that stops part-way through the encoding of `v`
   * never decodes, and the error is one of the bounds checks that throw
   * when the input runs out.
   */
  lemma {:induction false} TruncatedFails(v: Value, buf: seq<byte>, pos: nat)
    requires Encodable(v)
    requires pos <= |buf| < pos + |Encode(v)|
    requires buf[pos..] == Encode(v)[..|buf| - pos]
    ensures DecodeAny(buf, pos).Failure? && Underrun(DecodeAny(buf, pos).error)
    ensures DecodeAs(KindOf(v), buf, pos).Failure? && Underrun(DecodeAs(KindOf(v), buf, pos).error)
    decreases v, 1
  {
    var e := Encode(v);
    var k := |buf| - pos;
    if k >= WIDTH {
      PrefixPart(buf, pos, e, 0, WIDTH);
      TagPrefix(v);
      ReadsBack(buf, pos, IdOf(KindOf(v)));
      if k >= 2 * WIDTH && (v.StringType? || v.VectorType?) {
        PrefixPart(buf, pos, e, WIDTH, 2 * WIDTH);
        SecondPrefix(v);
        ReadsBack(buf, pos + WIDTH, SecondField(v));
        if v.VectorType? && k - 2 * WIDTH >= |v.items| {
          PrefixTail(buf, pos, e, 2 * WIDTH);
          assert e[2 * WIDTH..] == EncodeSeq(v.items);
          TruncatedItemsFail(v.items, buf, pos + 2 * WIDTH);
        }
      }
    }
  }

  /** The same for the elements of a vector: stopping part-way through them is an underrun. */
  lemma {:induction false} TruncatedItemsFail(items: seq<Value>, buf: seq<byte>, pos: nat)
    requires EncodableSeq(items)
    requires pos <= |buf| < pos + |EncodeSeq(items)|
    requires buf[pos..] == EncodeSeq(items)[..|buf| - pos]
    ensures DecodeItems(buf, pos, |items|).Failure? && Underrun(DecodeItems(buf, pos, |items|).error)
    decreases items, 0
  {
    var first := Encode(items[0]);
    assert EncodeSeq(items) == first + EncodeSeq(items[1..]);
    SplitPrefix(buf, pos, first, EncodeSeq(items[1..]));
    if |buf| - pos < |first| {
      TruncatedFails(items[0], buf, pos);
    } else {
      DecodeEncode(items[0], buf, pos);
      TruncatedItemsFail(items[1..], buf, pos + |first|);
    }
  }

  /** A prefix of `a + b`: either a prefix of `a`, or all of `a` followed by a prefix of `b`. */
  lemma SplitPrefix(buf: seq<byte>, pos: nat, a: seq<byte>, b: seq<byte>)
    requires pos <= |buf| <= pos + |a + b| && buf[pos..] == (a + b)[..|buf| - pos]
    ensures |buf| - pos < |a| ==> buf[pos..] == a[..|buf| - pos]
    ensures |buf| - pos >= |a| ==>
              buf[pos..pos + |a|] == a && buf[pos + |a|..] == b[..|buf| - (pos + |a|)]
  {
    var k := |buf| - pos;
    if k < |a| {
      assert (a + b)[..k] == a[..k];
    } else {
      PrefixPart(buf, pos, a + b, 0, |a|);
      assert (a + b)[..|a|] == a;
      PrefixTail(buf, pos, a + b, |a|);
      assert (a + b)[|a|..] == b;
    }
  }

  /** Part of a prefix of `e` held at `pos`. */
  lemma PrefixPart(buf: seq<byte>, pos: nat, e: seq<byte>, a: nat, b: nat)
    requires pos <= |buf| <= pos + |e| && buf[pos..] == e[..|buf| - pos]
    requires a <= b <= |buf| - pos
    ensures buf[pos + a..pos + b] == e[a..b]
  {
    assert buf[pos + a..pos + b] == buf[pos..][a..b];
  }

  /** What follows the first `a` bytes of a prefix of `e` is a prefix of the rest of `e`. */
  lemma PrefixTail(buf: seq<byte>, pos: nat, e: seq<byte>, a: nat)
    requires pos <= |buf| <= pos + |e| && buf[pos..] == e[..|buf| - pos]
    requires a <= |buf| - pos
    ensures buf[pos + a..] == e[a..][..|buf| - (pos + a)]
  {
    assert buf[pos + a..] == buf[pos..][a..];
  }

  /** Distinct encodable values have encodings neither of which is a prefix of the other. */
  lemma EncodingPrefixFree(v: Value, w: Value, rest: seq<byte>)
    requires Encodable(v) && Encodable(w)
    requires Encode(w) == Encode(v) + rest
    ensures v == w && rest == []
  {
    var buf := Encode(w);
    assert buf[0..|Encode(v)|] == Encode(v);
    assert buf[0..|buf|] == buf;
    DecodeEncode(v, buf, 0);
    DecodeEncode(w, buf, 0);
  }

  /** An `Any` tag outside {0, 1, 2, 3} is rejected with "Unknown type ID". */
  lemma UnknownTagFails(buf: seq<byte>, pos: nat, tag: u64)
    requires pos + WIDTH <= |buf| && buf[pos..pos + WIDTH] == LE64(tag)
    requires tag >= 4
    ensures DecodeAny(buf, pos) == Failure(UnknownTypeId)
  {
    ReadsBack(buf, pos, tag);
  }

  /** Fewer than 8 bytes left: `Any` and every concrete decoder fail on the tag. */
  lemma ShortTagFails(kind: TypeId, buf: seq<byte>, pos: nat)
    requires pos <= |buf| < pos + WIDTH
    ensures DecodeAny(buf, pos) == Failure(InvalidBufferSize)
    ensures DecodeAs(kind, buf, pos) == Failure(BufferTooSmallForTypeId)
  {
  }

  /**
   * A concrete decoder fails with "Type ID mismatch" whenever a whole tag is
   * present and is not its kind's id, whatever the tag and whatever follows.
   */
  lemma WrongTagFails(kind: TypeId, buf: seq<byte>, pos: nat)
    requires pos + WIDTH <= |buf| && ReadU64(buf, pos) != IdOf(kind)
    ensures DecodeAs(kind, buf, pos) == Failure(TypeIdMismatch)
  {
  }

  /** In particular, a concrete decoder given the encoding of a value of another kind fails so. */
  lemma TagMismatchFails(kind: TypeId, v: Value, buf: seq<byte>, pos: nat)
    requires kind != KindOf(v)
    requires pos + |Encode(v)| <= |buf| && buf[pos..pos + |Encode(v)|] == Encode(v)
    ensures DecodeAs(kind, buf, pos) == Failure(TypeIdMismatch)
  {
    HeaderAt(v, buf, pos);
    WrongTagFails(kind, buf, pos);
  }

  /**
   * The layout of an encoding: the kind's tag as a u64, then the 8-byte payload,
   * or a u64 size followed by the string's bytes or the elements' encodings.
   */
  lemma EncodingLayout(v: Value)
    ensures ReadU64(Encode(v), 0) == IdOf(KindOf(v))
    ensures (v.IntegerType? || v.FloatType?) ==> |Encode(v)| == 2 * WIDTH
    ensures v.IntegerType? ==> ReadU64(Encode(v), WIDTH) == v.u
    ensures v.FloatType? ==> ReadU64(Encode(v), WIDTH) == v.bits
    ensures v.StringType? ==>
              ReadU64(Encode(v), WIDTH) == SizeField(|v.s|) && Encode(v)[2 * WIDTH..] == v.s
    ensures v.VectorType? ==>
              ReadU64(Encode(v), WIDTH) == SizeField(|v.items|) && Encode(v)[2 * WIDTH..] == EncodeSeq(v.items)
  {
    var e := Encode(v);
    SliceOf(e, 0, e, 0, WIDTH);
    ReadsBack(e, 0, IdOf(KindOf(v)));
    SliceOf(e, 0, e, WIDTH, 2 * WIDTH);
    match v
    case IntegerType(x) => ReadsBack(e, WIDTH, x);
    case FloatType(x) => ReadsBack(e, WIDTH, x);
    case StringType(s) => ReadsBack(e, WIDTH, SizeField(|s|));
    case VectorType(items) => ReadsBack(e, WIDTH, SizeField(|items|));
  }

  /**
   * One step of a loop that decodes `n` values one `Any` at a time: once the
   * next value `v` has been decoded, what is left to decode is one value fewer.
   */
  lemma ItemsStep(buf: seq<byte>, pos: nat, n: nat, done: seq<Value>, v: Value, next: nat)
    requires pos <= |buf| && n > 0
    requires DecodeAny(buf, pos) == Success((v, next))
    ensures Prepend(done, DecodeItems(buf, pos, n)) == Prepend(done + [v], DecodeItems(buf, next, n - 1))
  {
    var rest := DecodeItems(buf, next, n - 1);
    if rest.Success? {
      assert done + ([v] + rest.value.0) == done + [v] + rest.value.0;
    }
  }

  /** Nothing decoded yet: the loop starts from the whole decode. */
  lemma PrependNothing(r: DecodedSeq)
    ensures Prepend([], r) == r
  {
    if r.Success? {
      assert [] + r.value.0 == r.value.0;
    }
  }
}
