/**
 * The primitive little-endian codec of `namespace tools`: fixed-width
 * unsigned 64-bit values (and the 8-byte bit pattern of a double) to and
 * from a byte buffer.
 *
 * Integers are modelled as mathematical integers in range: the shift-and-mask
 * `(value >> (i * 8)) & 0xFF` is `(value / 256^i) % 256`, and OR-ing a byte
 * in at bit position `8 * i` of a value below `256^i` is adding `byte * 256^i`.
 */
module Primitives {

  /** `std::byte` / `uint8_t`. */
  type byte = x: int | 0 <= x < 256

  /** 2^64: `static_cast<uint64_t>` of a size reduces it modulo this. */
  const U64_LIMIT: int := 0x1_0000_0000_0000_0000

  /** `uint64_t`, and the bit pattern of a `double`. */
  type u64 = x: int | 0 <= x < U64_LIMIT

  /** Number of bytes of an `Id` / `uint64_t` / `double` on the wire. */
  const WIDTH: nat := 8

  function Pow256(i: nat): (r: nat)
    ensures r > 0
  {
    if i == 0 then 1 else 256 * Pow256(i - 1)
  }

  /** Byte `i` of the little-endian form of `x`: `(x >> (i * 8)) & 0xFF`. */
  function ByteAt(x: u64, i: nat): (r: byte)
    requires i < WIDTH
  {
    (x / Pow256(i)) % 256
  }

  /** The 8 bytes `tools::serialize` appends for `x`, least significant first. */
  function LE64(x: u64): (r: seq<byte>)
    ensures |r| == WIDTH
    ensures forall i :: 0 <= i < WIDTH ==> r[i] == ByteAt(x, i)
  {
    seq(WIDTH, i requires 0 <= i < WIDTH => ByteAt(x, i))
  }

  /**
   * The value `tools::deserialize` accumulates from the bytes `b`:
   * byte `i` is OR-ed in at bit position `8 * i`.
   */
  function Pack(b: seq<byte>): (r: nat)
    requires |b| <= WIDTH
  {
    if |b| == 0 then 0
    else Pack(b[..|b| - 1]) + b[|b| - 1] * Pow256(|b| - 1)
  }

  /** `Pack` of 8 bytes, written out with its constant weights. */
  lemma PackEight(b: seq<byte>)
    requires |b| == WIDTH
    ensures Pack(b) == b[0] as int + 256 * (b[1] as int + 256 * (b[2] as int + 256 * (b[3] as int
                     + 256 * (b[4] as int + 256 * (b[5] as int + 256 * (b[6] as int + 256 * b[7] as int))))))
  {
    assert Pack(b[..1]) == b[0] by { assert b[..1][..0] == []; }
    assert Pack(b[..2]) == Pack(b[..1]) + b[1] as int * 0x100 by { assert b[..2][..1] == b[..1]; }
    assert Pack(b[..3]) == Pack(b[..2]) + b[2] as int * 0x1_0000 by { assert b[..3][..2] == b[..2]; }
    assert Pack(b[..4]) == Pack(b[..3]) + b[3] as int * 0x100_0000 by { assert b[..4][..3] == b[..3]; }
    assert Pack(b[..5]) == Pack(b[..4]) + b[4] as int * 0x1_0000_0000 by {
      assert b[..5][..4] == b[..4];
      assert Pow256(4) == 0x1_0000_0000 by { assert Pow256(2) == 0x1_0000; }
    }
    assert Pack(b[..6]) == Pack(b[..5]) + b[5] as int * 0x100_0000_0000 by {
      assert b[..6][..5] == b[..5];
      assert Pow256(5) == 0x100_0000_0000 by { assert Pow256(3) == 0x100_0000; }
    }
    assert Pack(b[..7]) == Pack(b[..6]) + b[6] as int * 0x1_0000_0000_0000 by {
      assert b[..7][..6] == b[..6];
      assert Pow256(6) == 0x1_0000_0000_0000 by { assert Pow256(4) == 0x1_0000_0000; }
    }
    assert Pack(b) == Pack(b[..7]) + b[7] as int * 0x100_0000_0000_0000 by {
      assert b[..7] == b[..|b| - 1];
      assert Pow256(7) == 0x100_0000_0000_0000 by { assert Pow256(5) == 0x100_0000_0000; }
    }
  }

  /** The u64 stored little-endian at `buf[pos..pos + 8]`. */
  function ReadU64(buf: seq<byte>, pos: nat): (r: u64)
    requires pos + WIDTH <= |buf|
  {
    var b := buf[pos..pos + WIDTH];
    PackEight(b);
    Pack(b)
  }

  /** `static_cast<uint64_t>(n)` of a container size. */
  function SizeField(n: nat): (r: u64)
    ensures n < U64_LIMIT ==> r == n
  {
    n % U64_LIMIT
  }

  /** Dividing by 256 once more is dividing by the next power of 256. */
  lemma DivStep(x: nat, i: nat)
    ensures x / Pow256(i + 1) == (x / Pow256(i)) / 256
  {
    var p := Pow256(i);
    var q, r := x / p, x % p;
    var q2, d := q / 256, q % 256;
    assert x == q * p + r;
    assert q * p == q2 * (256 * p) + d * p by {
      assert q == q2 * 256 + d;
      MulDistributes(q2 * 256, d, p);
    }
    assert 0 <= d * p + r < 256 * p by {
      MulMonotone(d, 255, p);
    }
    DivUnique(x, 256 * p, q2, d * p + r);
  }

  lemma MulDistributes(a: int, b: int, c: int)
    ensures (a + b) * c == a * c + b * c
  {
  }

  lemma MulMonotone(a: int, b: int, c: nat)
    requires a <= b
    ensures a * c <= b * c
  {
  }

  lemma DivUnique(x: int, m: int, a: int, b: int)
    requires m > 0 && 0 <= b < m && x == a * m + b
    ensures x / m == a
  {
    // x / m - a times m lies strictly between -m and m, which forces it to be 0
    var k := x / m - a;
    assert k * m == b - x % m;
    assert -m < k * m < m;
  }

  /** What is left of `x` above byte `i` is byte `i` plus 256 times what is left above byte `i + 1`. */
  lemma DigitStep(x: u64, i: nat)
    requires i + 1 < WIDTH
    ensures x / Pow256(i) == ByteAt(x, i) + 256 * (x / Pow256(i + 1))
  {
    DivStep(x, i);
  }

  /** The top byte of a u64 is all that is left after dividing by 256^7. */
  lemma TopDigit(x: u64)
    ensures x / Pow256(7) == ByteAt(x, 7)
  {
    assert Pow256(7) == 0x100_0000_0000_0000 by {
      assert Pow256(1) == 0x100;
      assert Pow256(3) == 0x100_0000;
      assert Pow256(5) == 0x100_0000_0000;
    }
  }

  /** `x` is the base-256 number whose digits are its bytes `ByteAt(x, 0..7)`. */
  lemma Digits(x: u64)
    ensures x == ByteAt(x, 0) + 256 * (ByteAt(x, 1) + 256 * (ByteAt(x, 2) + 256 * (ByteAt(x, 3)
               + 256 * (ByteAt(x, 4) + 256 * (ByteAt(x, 5) + 256 * (ByteAt(x, 6) + 256 * ByteAt(x, 7)))))))
  {
    assert x / Pow256(0) == x;
    DigitStep(x, 0);
    DigitStep(x, 1);
    DigitStep(x, 2);
    DigitStep(x, 3);
    DigitStep(x, 4);
    DigitStep(x, 5);
    DigitStep(x, 6);
    TopDigit(x);
  }

  /** Base-256 digits are unique: one digit at a time. */
  lemma Peel(a: byte, r: int, c: byte, t: int)
    requires a + 256 * r == c + 256 * t
    ensures a == c && r == t
  {
  }

  /** Decoding the 8 bytes written for `x` gives back `x`. */
  lemma DecodeEncodeU64(x: u64)
    ensures Pack(LE64(x)) == x
  {
    PackEight(LE64(x));
    Digits(x);
  }

  /** Eight bytes never pack to more than a u64 holds. */
  lemma PackBound(b: seq<byte>)
    requires |b| == WIDTH
    ensures Pack(b) < U64_LIMIT
  {
    PackEight(b);
  }

  /** Different 8-byte sequences pack to different values. */
  lemma PackInjective(b: seq<byte>, c: seq<byte>)
    requires |b| == WIDTH && |c| == WIDTH && Pack(b) == Pack(c)
    ensures b == c
  {
    PackEight(b);
    PackEight(c);
    var b7, c7 := b[7] as int, c[7] as int;
    var b6, c6 := b[6] + 256 * b7, c[6] + 256 * c7;
    var b5, c5 := b[5] + 256 * b6, c[5] + 256 * c6;
    var b4, c4 := b[4] + 256 * b5, c[4] + 256 * c5;
    var b3, c3 := b[3] + 256 * b4, c[3] + 256 * c4;
    var b2, c2 := b[2] + 256 * b3, c[2] + 256 * c3;
    var b1, c1 := b[1] + 256 * b2, c[1] + 256 * c2;
    Peel(b[0], b1, c[0], c1);
    Peel(b[1], b2, c[1], c2);
    Peel(b[2], b3, c[2], c3);
    Peel(b[3], b4, c[3], c4);
    Peel(b[4], b5, c[4], c5);
    Peel(b[5], b6, c[5], c6);
    Peel(b[6], b7, c[6], c7);
    assert b == [b[0], b[1], b[2], b[3], b[4], b[5], b[6], b[7]];
    assert c == [c[0], c[1], c[2], c[3], c[4], c[5], c[6], c[7]];
  }

  /** Re-encoding the value read from 8 bytes reproduces those bytes. */
  lemma EncodeDecodeU64(b: seq<byte>)
    requires |b| == WIDTH
    ensures Pack(b) < U64_LIMIT && LE64(Pack(b)) == b
  {
    PackBound(b);
    DecodeEncodeU64(Pack(b));
    PackInjective(LE64(Pack(b)), b);
  }

  /** Two values with the same 8-byte encoding are equal. */
  lemma LE64Injective(x: u64, y: u64)
    requires LE64(x) == LE64(y)
    ensures x == y
  {
    DecodeEncodeU64(x);
    DecodeEncodeU64(y);
  }

  /** `tools::serialize<uint64_t>` (and `<double>` on its bit pattern): push 8 bytes. */
  method SerializeU64(value: u64, buff: seq<byte>) returns (out: seq<byte>)
    ensures out == buff + LE64(value)
  {
    out := buff;
    for i := 0 to WIDTH
      invariant out == buff + LE64(value)[..i]
    {
      out := out + [(value / Pow256(i)) % 256];
    }
  }

  /** `tools::deserialize<uint64_t>`: read 8 bytes at cursor `it` and advance it. */
  method DeserializeU64(buf: seq<byte>, it: nat) returns (value: u64, next: nat)
    requires it + WIDTH <= |buf|
    ensures value == ReadU64(buf, it)
    ensures LE64(value) == buf[it..it + WIDTH]
    ensures next == it + WIDTH
  {
    var acc: nat := 0;
    next := it;
    for i := 0 to WIDTH
      invariant next == it + i
      invariant acc == Pack(buf[it..it + i])
    {
      assert buf[it..it + i + 1][..i] == buf[it..it + i];
      acc := acc + buf[next] * Pow256(i);
      next := next + 1;
    }
    assert buf[it..it + WIDTH] == buf[it..next];
    PackBound(buf[it..it + WIDTH]);
    EncodeDecodeU64(buf[it..it + WIDTH]);
    value := acc;
  }
}
