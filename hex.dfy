/**
 * `ByteArray.toHex()`: each byte becomes two characters of the upper-case
 * Base16 alphabet (section 8 of RFC 4648), high nibble first.
 */
module Hex {
  import opened Wrappers
  import opened ByteEncoding

  /** `HEX_CHARS`. */
  const HEX_CHARS: string := "0123456789ABCDEF"

  /**
   * `x and m` on the two's-complement bits of `x`, for a non-negative mask `m`,
   * one bit at a time from the least significant. Halving rounds down, so a
   * negative `x` brings the ones of its sign extension, as a JVM `Int` does.
   */
  function And(x: int, m: nat): (r: nat)
    ensures r <= m
    decreases m
  {
    if m == 0 then 0
    else 2 * And(x / 2, m / 2) + (if x % 2 == 1 && m % 2 == 1 then 1 else 0)
  }

  /** `2^k`. */
  function Pow2(k: nat): (p: nat)
    ensures p >= 1
  {
    if k == 0 then 1 else 2 * Pow2(k - 1)
  }

  /** `x ushr k` for a non-negative `x`: `k` halvings, rounding down, which is division by `2^k`. */
  function Ushr(x: nat, k: nat): (r: nat)
    ensures r == x / Pow2(k)
  {
    if k == 0 then x else HalveDiv(x, Pow2(k - 1)); Ushr(x / 2, k - 1)
  }

  /** Halving first and then dividing by `p` is dividing by `2 * p`. */
  lemma HalveDiv(x: nat, p: nat)
    requires p >= 1
    ensures x / 2 / p == x / (2 * p)
  {
    var h := x / 2;
    var q := h / p;
    assert h == p * q + h % p;
    assert x == 2 * h + x % 2;
    var rest := 2 * (h % p) + x % 2;
    assert x == (2 * p) * q + rest;
    DivUnique(x, 2 * p, q, rest);
  }

  /** The quotient is the only `q` that leaves a remainder below the divisor. */
  lemma DivUnique(x: nat, d: nat, q: nat, rest: nat)
    requires d >= 1 && x == d * q + rest && rest < d
    ensures x / d == q
  {
    var m := x / d;
    if m < q {
      MulStep(d, m, q);
      assert false;
    } else if q < m {
      MulStep(d, q, m);
      assert false;
    }
  }

  /** A larger factor adds at least one more `d`. */
  lemma MulStep(d: nat, a: nat, b: nat)
    requires a < b
    ensures d * a + d <= d * b
  {
    var k: nat := b - a - 1;
    assert d * b == d * a + d + d * k;
  }

  /**
   * `(octet and 0xF0) ushr 4`, where `octet = byte.toInt()` keeps the byte's signed
   * value: the mask drops the sign extension, so a negative byte gives its
   * unsigned high nibble.
   */
  function HighNibble(b: Byte): (i0: nat)
    ensures i0 == Octet(b) / 16
  {
    var octet: int := b;
    AndHighNibble(octet);
    UshrFour(octet / 16 % 16);
    OctetDigits(b);
    Ushr(And(octet, 0xF0), 4)
  }

  /** `octet and 0x0F`. */
  function LowNibble(b: Byte): (i1: nat)
    ensures i1 == Octet(b) % 16
  {
    var octet: int := b;
    AndLowNibble(octet);
    OctetDigits(b);
    And(octet, 0x0F)
  }

  /** A number written as `16 q + r` with a digit `r` has quotient `q` and remainder `r`. */
  lemma Split16(x: int, q: int, r: int)
    requires x == 16 * q + r && 0 <= r < 16
    ensures x / 16 == q && x % 16 == r
  {
  }

  /** Masking with `0x0F` keeps the last hexadecimal digit, for negative values too. */
  lemma AndLowNibble(x: int)
    ensures And(x, 0x0F) == x % 16
  {
    var x1 := x / 2;
    var x2 := x1 / 2;
    var x3 := x2 / 2;
    var x4 := x3 / 2;
    assert And(x3, 1) == x3 % 2;
    assert And(x2, 3) == 2 * (x3 % 2) + x2 % 2;
    assert And(x1, 7) == 4 * (x3 % 2) + 2 * (x2 % 2) + x1 % 2;
    var digit := 8 * (x3 % 2) + 4 * (x2 % 2) + 2 * (x1 % 2) + x % 2;
    assert And(x, 0x0F) == digit;
    assert x == 16 * x4 + digit;
    Split16(x, x4, digit);
  }

  /** Masking with `0xF0` keeps the second-to-last hexadecimal digit, in place. */
  lemma AndHighNibble(x: int)
    ensures And(x, 0xF0) == 16 * (x / 16 % 16)
  {
    var x1 := x / 2;
    var x2 := x1 / 2;
    var x3 := x2 / 2;
    var x4 := x3 / 2;
    AndLowNibble(x4);
    assert And(x3, 0x1E) == 2 * And(x4, 0x0F);
    assert And(x2, 0x3C) == 2 * And(x3, 0x1E);
    assert And(x1, 0x78) == 2 * And(x2, 0x3C);
    assert And(x, 0xF0) == 2 * And(x1, 0x78);
    var digit := 8 * (x3 % 2) + 4 * (x2 % 2) + 2 * (x1 % 2) + x % 2;
    assert x == 16 * x4 + digit;
    Split16(x, x4, digit);
  }

  /** Shifting right by four undoes multiplying by 16. */
  lemma UshrFour(y: nat)
    ensures Ushr(16 * y, 4) == y
  {
    assert Pow2(4) == 16;
  }

  /** The unsigned byte's two hexadecimal digits, read from its signed value. */
  lemma OctetDigits(b: Byte)
    ensures Octet(b) / 16 == b / 16 % 16 && Octet(b) % 16 == b % 16
  {
    var q, r := b / 16, b % 16;
    if b < 0 {
      Split16(b + 0x100, q + 16, r);
      Split16(q, -1, q + 16);
    } else {
      Split16(q, 0, q);
    }
  }

  /** The two characters one byte contributes. */
  function HexPair(b: Byte): (pair: string)
    ensures pair == [HEX_CHARS[Octet(b) / 16], HEX_CHARS[Octet(b) % 16]]
  {
    [HEX_CHARS[HighNibble(b)], HEX_CHARS[LowNibble(b)]]
  }

  /** `toHex`: a left fold that appends each byte's pair to the text built so far. */
  function ToHex(bs: seq<Byte>): (s: string)
    ensures |s| == 2 * |bs|
    ensures forall i :: 0 <= i < |s| ==> s[i] in HEX_CHARS
  {
    if bs == [] then "" else ToHex(bs[..|bs| - 1]) + HexPair(bs[|bs| - 1])
  }

  /** Byte `i` is rendered at positions `2i` and `2i + 1`, high nibble first. */
  lemma {:induction false} ToHexAt(bs: seq<Byte>, i: nat)
    requires i < |bs|
    ensures ToHex(bs)[2 * i] == HEX_CHARS[Octet(bs[i]) / 16]
    ensures ToHex(bs)[2 * i + 1] == HEX_CHARS[Octet(bs[i]) % 16]
  {
    if i < |bs| - 1 {
      ToHexAt(bs[..|bs| - 1], i);
    }
  }

  /** `toHex` is a fold: it maps concatenation to concatenation. */
  lemma {:induction false} ToHexAppend(a: seq<Byte>, b: seq<Byte>)
    ensures ToHex(a + b) == ToHex(a) + ToHex(b)
  {
    if b != [] {
      var b', x := b[..|b| - 1], b[|b| - 1];
      assert b == b' + [x];
      assert a + b == (a + b') + [x];
      ToHexAppend(a, b');
      ToHexSnoc(a + b', x);
      ToHexSnoc(b', x);
    } else {
      assert a + b == a;
    }
  }

  /** The value of one Base16 digit, or `None` for any other character. */
  function HexValue(c: char): (v: Option<nat>)
    ensures v.Some? <==> c in HEX_CHARS
    ensures v.Some? ==> v.value < 16 && HEX_CHARS[v.value] == c
  {
    if '0' <= c <= '9' then Some(c as int - '0' as int)
    else if 'A' <= c <= 'F' then Some(c as int - 'A' as int + 10)
    else None
  }

  /** Reads upper-case Base16 text back into bytes; `None` for odd length or a foreign character. */
  function FromHex(s: string): (r: Option<seq<Byte>>)
    ensures r.Some? ==> 2 * |r.value| == |s|
  {
    if s == [] then Some([])
    else if |s| < 2 then None
    else
      match (HexValue(s[|s| - 2]), HexValue(s[|s| - 1]), FromHex(s[..|s| - 2]))
      case (Some(hi), Some(lo), Some(init)) => Some(init + [ToByte(16 * hi + lo)])
      case _ => None
  }

  lemma HexValueOfDigit(i: nat)
    requires i < 16
    ensures HexValue(HEX_CHARS[i]) == Some(i)
  {
  }

  /** Reading the rendering gives back the bytes. */
  lemma {:induction false} FromHexToHex(bs: seq<Byte>)
    ensures FromHex(ToHex(bs)) == Some(bs)
  {
    if bs != [] {
      var init, last := bs[..|bs| - 1], bs[|bs| - 1];
      assert bs == init + [last];
      ToHexSnoc(init, last);
      FromHexToHex(init);
      FromHexPair(ToHex(init), Octet(last));
      ToByteOctet(last);
    }
  }

  /** One more byte appends its two digits. */
  lemma ToHexSnoc(init: seq<Byte>, last: Byte)
    ensures ToHex(init + [last]) == ToHex(init) + [HEX_CHARS[Octet(last) / 16], HEX_CHARS[Octet(last) % 16]]
  {
    assert (init + [last])[..|init|] == init;
  }

  /** Reading text that ends in the pair of octet `o` appends the byte of `o`. */
  lemma FromHexPair(t: string, o: nat)
    requires o < 0x100
    ensures FromHex(t + [HEX_CHARS[o / 16], HEX_CHARS[o % 16]])
         == if FromHex(t).Some? then Some(FromHex(t).value + [ToByte(o)]) else None
  {
    var s := t + [HEX_CHARS[o / 16], HEX_CHARS[o % 16]];
    assert s[..|s| - 2] == t;
    HexValueOfDigit(o / 16);
    HexValueOfDigit(o % 16);
  }

  /** Distinct byte sequences render as distinct text. */
  lemma ToHexInjective(a: seq<Byte>, b: seq<Byte>)
    ensures ToHex(a) == ToHex(b) <==> a == b
  {
    FromHexToHex(a);
    FromHexToHex(b);
  }

  /** Negative bytes are rendered from their unsigned bits: -1 is "FF", -128 is "80". */
  lemma ToHexOfNegativeBytes()
    ensures ToHex([-1, -128, 0x7F, 0x0A]) == "FF807F0A"
  {
    var b0, b1, b2, b3: seq<Byte> := [], [-1], [-1, -128], [-1, -128, 0x7F];
    ToHexSnoc(b0, -1);
    assert b0 + [-1] == b1;
    ToHexSnoc(b1, -128);
    assert b1 + [-128] == b2;
    ToHexSnoc(b2, 0x7F);
    assert b2 + [0x7F] == b3;
    ToHexSnoc(b3, 0x0A);
    assert b3 + [0x0A] == [-1, -128, 0x7F, 0x0A];
  }
}
