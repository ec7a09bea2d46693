/**
 * Fixed-width encodings of the JVM integer types (`Long.toBytes`, `Int.toBytes`,
 * `Short.toBytes`). A `java.nio.ByteBuffer` is big-endian unless told otherwise,
 * so each value is written as its two's-complement bit pattern, most significant
 * byte first.
 */
module ByteEncoding {

  /** A JVM `Byte`: a signed 8-bit value. */
  type Byte = b: int | -0x80 <= b < 0x80

  /** A JVM `Short`, `Int` and `Long`. */
  type Short = x: int | -0x8000 <= x < 0x8000
  type Int = x: int | -0x8000_0000 <= x < 0x8000_0000
  type Long = x: int | -0x8000_0000_0000_0000 <= x < 0x8000_0000_0000_0000

  /** `java.lang.Short.BYTES`, `Integer.BYTES` and `Long.BYTES`. */
  const SHORT_BYTES_SIZE: nat := 2
  const INTEGER_BYTES_SIZE: nat := 4
  const LONG_BYTES_SIZE: nat := 8

  /** `ZERO_BYTE` and `ONE_BYTE`. */
  const ZERO_BYTE: Byte := 0
  const ONE_BYTE: Byte := 1

  /** The unsigned reading of a byte's eight bits. */
  function Octet(b: Byte): (o: nat)
    ensures o < 0x100
    ensures o % 0x100 == b % 0x100
  {
    if b < 0 then b + 0x100 else b
  }

  /** The byte whose eight bits read as the unsigned value `o`. */
  function ToByte(o: nat): (b: Byte)
    requires o < 0x100
    ensures Octet(b) == o
  {
    if o < 0x80 then o else o - 0x100
  }

  lemma ToByteOctet(b: Byte)
    ensures ToByte(Octet(b)) == b
  {
  }

  /** 256 to the power `n`: the number of distinct `n`-byte patterns. */
  function Pow256(n: nat): (p: nat)
    ensures p >= 1
    ensures n > 0 ==> p >= 0x100 && p % 2 == 0
  {
    if n == 0 then 1 else 0x100 * Pow256(n - 1)
  }

  lemma Pow256Widths()
    ensures Pow256(SHORT_BYTES_SIZE) == 0x1_0000
    ensures Pow256(INTEGER_BYTES_SIZE) == 0x1_0000_0000
    ensures Pow256(LONG_BYTES_SIZE) == 0x1_0000_0000_0000_0000
  {
    assert Pow256(2) == 0x1_0000 by { assert Pow256(1) == 0x100; }
    assert Pow256(4) == 0x1_0000_0000 by { assert Pow256(3) == 0x100_0000; }
    assert Pow256(8) == 0x1_0000_0000_0000_0000 by {
      assert Pow256(5) == 0x100_0000_0000;
      assert Pow256(6) == 0x1_0000_0000_0000;
      assert Pow256(7) == 0x100_0000_0000_0000;
    }
  }

  /** `v` is representable as an `n`-byte two's-complement integer. */
  predicate Fits(v: int, n: nat) {
    n > 0 && 0 <= 2 * v + Pow256(n) && 2 * v < Pow256(n)
  }

  /** The bit pattern of `v` in `n` bytes, read as an unsigned number. */
  function Unsigned(v: int, n: nat): (u: nat)
    requires Fits(v, n)
    ensures u < Pow256(n)
    ensures u == v || u == v + Pow256(n)
  {
    if v < 0 then v + Pow256(n) else v
  }

  /** The signed value of an `n`-byte pattern whose unsigned reading is `u`. */
  function Signed(u: nat, n: nat): (v: int)
    requires n > 0 && u < Pow256(n)
    ensures Fits(v, n)
    ensures Unsigned(v, n) == u
  {
    if 2 * u >= Pow256(n) then u - Pow256(n) else u
  }

  /** The `n` bytes of the unsigned number `u`, most significant first. */
  function BigEndian(u: nat, n: nat): (bs: seq<Byte>)
    requires u < Pow256(n)
    ensures |bs| == n
  {
    if n == 0 then []
    else
      assert u / 0x100 < Pow256(n - 1);
      BigEndian(u / 0x100, n - 1) + [ToByte(u % 0x100)]
  }

  /** The unsigned number a big-endian byte sequence spells. */
  function ValueOf(bs: seq<Byte>): (u: nat)
    ensures u < Pow256(|bs|)
  {
    if bs == [] then 0
    else
      var u' := ValueOf(bs[..|bs| - 1]);
      assert u' * 0x100 + Octet(bs[|bs| - 1]) < Pow256(|bs| - 1) * 0x100 by {
        assert u' + 1 <= Pow256(|bs| - 1);
        assert (u' + 1) * 0x100 <= Pow256(|bs| - 1) * 0x100;
      }
      u' * 0x100 + Octet(bs[|bs| - 1])
  }

  lemma {:induction false} ValueOfBigEndian(u: nat, n: nat)
    requires u < Pow256(n)
    ensures ValueOf(BigEndian(u, n)) == u
  {
    if n > 0 {
      var bs := BigEndian(u, n);
      assert bs[..n - 1] == BigEndian(u / 0x100, n - 1);
      ValueOfBigEndian(u / 0x100, n - 1);
    }
  }

  lemma {:induction false} BigEndianValueOf(bs: seq<Byte>)
    ensures BigEndian(ValueOf(bs), |bs|) == bs
  {
    if bs != [] {
      var init, last := bs[..|bs| - 1], bs[|bs| - 1];
      var u := ValueOf(bs);
      assert u / 0x100 == ValueOf(init) && u % 0x100 == Octet(last);
      BigEndianValueOf(init);
      ToByteOctet(last);
      assert bs == init + [last];
    }
  }

  /** The `n`-byte big-endian two's-complement encoding of `v`. */
  function ToBytes(v: int, n: nat): (bs: seq<Byte>)
    requires Fits(v, n)
    ensures |bs| == n
  {
    BigEndian(Unsigned(v, n), n)
  }

  /** The signed value of a non-empty big-endian two's-complement byte sequence. */
  function SignedValue(bs: seq<Byte>): (v: int)
    requires bs != []
    ensures Fits(v, |bs|)
  {
    Signed(ValueOf(bs), |bs|)
  }

  /** Decoding an encoding gives back the value. */
  lemma SignedValueToBytes(v: int, n: nat)
    requires Fits(v, n)
    ensures SignedValue(ToBytes(v, n)) == v
  {
    ValueOfBigEndian(Unsigned(v, n), n);
  }

  /** Encoding a decoded sequence gives back the sequence: the encoding is onto. */
  lemma ToBytesSignedValue(bs: seq<Byte>)
    requires bs != []
    ensures ToBytes(SignedValue(bs), |bs|) == bs
  {
    BigEndianValueOf(bs);
  }

  /** The encoding is injective: distinct values give distinct byte sequences. */
  lemma ToBytesInjective(v: int, w: int, n: nat)
    requires Fits(v, n) && Fits(w, n)
    ensures ToBytes(v, n) == ToBytes(w, n) <==> v == w
  {
    SignedValueToBytes(v, n);
    SignedValueToBytes(w, n);
  }

  /** The first byte carries the sign: it is negative exactly when the value is. */
  lemma SignInFirstByte(v: int, n: nat)
    requires Fits(v, n)
    ensures ToBytes(v, n)[0] < 0 <==> v < 0
  {
    BigEndianSign(Unsigned(v, n), n);
  }

  lemma {:induction false} BigEndianSign(u: nat, n: nat)
    requires n > 0 && u < Pow256(n)
    ensures BigEndian(u, n)[0] < 0 <==> 2 * u >= Pow256(n)
  {
    if n > 1 {
      var p := Pow256(n - 1);
      BigEndianSign(u / 0x100, n - 1);
      assert BigEndian(u, n)[0] == BigEndian(u / 0x100, n - 1)[0];
      assert 2 * (u / 0x100) >= p <==> u / 0x100 >= p / 2;
      assert u / 0x100 >= p / 2 <==> u >= 0x100 * (p / 2);
    }
  }

  /** `Long.toBytes()`. */
  function LongToBytes(x: Long): (bs: seq<Byte>)
    ensures |bs| == LONG_BYTES_SIZE
    ensures SignedValue(bs) == x
  {
    Pow256Widths();
    SignedValueToBytes(x, LONG_BYTES_SIZE);
    ToBytes(x, LONG_BYTES_SIZE)
  }

  /** `Int.toBytes()`. */
  function IntToBytes(x: Int): (bs: seq<Byte>)
    ensures |bs| == INTEGER_BYTES_SIZE
    ensures SignedValue(bs) == x
  {
    Pow256Widths();
    SignedValueToBytes(x, INTEGER_BYTES_SIZE);
    ToBytes(x, INTEGER_BYTES_SIZE)
  }

  /** `Short.toBytes()`. */
  function ShortToBytes(x: Short): (bs: seq<Byte>)
    ensures |bs| == SHORT_BYTES_SIZE
    ensures SignedValue(bs) == x
  {
    Pow256Widths();
    SignedValueToBytes(x, SHORT_BYTES_SIZE);
    ToBytes(x, SHORT_BYTES_SIZE)
  }

  /** The byte order is big-endian: 1 is written as three zero bytes and then a one. */
  lemma IntToBytesIsBigEndian()
    ensures IntToBytes(1) == [0, 0, 0, 1]
    ensures IntToBytes(-1) == [-1, -1, -1, -1]
    ensures IntToBytes(0x1234_5678) == [0x12, 0x34, 0x56, 0x78]
  {
    Pow256Widths();
    BigEndianOfOne();
    BigEndianOfAllOnes();
    BigEndianOfDigits();
  }

  lemma BigEndianOfOne()
    ensures BigEndian(1, 4) == [0, 0, 0, 1]
  {
    assert BigEndian(0, 1) == [0];
    assert BigEndian(0, 2) == [0, 0];
    assert BigEndian(0, 3) == [0, 0, 0];
  }

  lemma BigEndianOfAllOnes()
    ensures BigEndian(0xFFFF_FFFF, 4) == [-1, -1, -1, -1]
  {
    assert BigEndian(0xFF, 1) == [-1];
    assert BigEndian(0xFFFF, 2) == [-1, -1];
    assert BigEndian(0xFF_FFFF, 3) == [-1, -1, -1];
  }

  lemma BigEndianOfDigits()
    ensures BigEndian(0x1234_5678, 4) == [0x12, 0x34, 0x56, 0x78]
  {
    assert BigEndian(0x12, 1) == [0x12];
    assert BigEndian(0x1234, 2) == [0x12, 0x34];
    assert BigEndian(0x12_3456, 3) == [0x12, 0x34, 0x56];
  }
}
