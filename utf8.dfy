/**
 * UTF-8 as RFC 3629 defines it: the byte form of `String.toByteArray(Charsets.UTF_8)`,
 * which `ByteSink.put(text)` writes. A Dafny `char` is a Unicode scalar value, so
 * every character has exactly one encoding of one to four bytes.
 */
module Utf8 {
  import opened Wrappers
  import opened ByteEncoding

  /** The number of bytes RFC 3629 uses for a scalar value. */
  function Width(c: char): (n: nat)
    ensures 1 <= n <= 4
  {
    var v := c as int;
    if v < 0x80 then 1 else if v < 0x800 then 2 else if v < 0x1_0000 then 3 else 4
  }

  /** The bytes of one character: a lead byte, then six payload bits per continuation byte. */
  function EncodeChar(c: char): (bs: seq<Byte>)
    ensures |bs| == Width(c)
  {
    var v := c as int;
    if v < 0x80 then [ToByte(v)]
    else if v < 0x800 then [ToByte(0xC0 + v / 0x40), ToByte(0x80 + v % 0x40)]
    else if v < 0x1_0000 then
      [ToByte(0xE0 + v / 0x1000), ToByte(0x80 + v / 0x40 % 0x40), ToByte(0x80 + v % 0x40)]
    else
      [ToByte(0xF0 + v / 0x4_0000), ToByte(0x80 + v / 0x1000 % 0x40),
       ToByte(0x80 + v / 0x40 % 0x40), ToByte(0x80 + v % 0x40)]
  }

  /** `text.toByteArray(Charsets.UTF_8)`. */
  function Encode(s: string): (bs: seq<Byte>)
    ensures |s| <= |bs| <= 4 * |s|
  {
    if s == [] then [] else EncodeChar(s[0]) + Encode(s[1..])
  }

  lemma {:induction false} EncodeAppend(s: string, t: string)
    ensures Encode(s + t) == Encode(s) + Encode(t)
  {
    if s != [] {
      assert (s + t)[1..] == s[1..] + t;
      EncodeAppend(s[1..], t);
    } else {
      assert s + t == t;
    }
  }

  /** Text made only of US-ASCII characters is encoded one byte per character, unchanged. */
  lemma {:induction false} EncodeAscii(s: string)
    requires forall i :: 0 <= i < |s| ==> s[i] as int < 0x80
    ensures |Encode(s)| == |s|
    ensures forall i :: 0 <= i < |s| ==> Encode(s)[i] == s[i] as int
  {
    if s != [] {
      EncodeAscii(s[1..]);
    }
  }

  /** The length of the sequence a lead byte announces, or 0 when it cannot start one. */
  function SequenceLength(lead: nat): (n: nat)
    ensures n <= 4
  {
    if lead < 0x80 then 1
    else if 0xC2 <= lead < 0xE0 then 2
    else if 0xE0 <= lead < 0xF0 then 3
    else if 0xF0 <= lead < 0xF5 then 4
    else 0
  }

  predicate IsContinuation(b: Byte) {
    0x80 <= Octet(b) < 0xC0
  }

  /** The six payload bits of a continuation byte. */
  function Payload(b: Byte): nat
    requires IsContinuation(b)
  {
    Octet(b) - 0x80
  }

  /** The character one complete, well-formed sequence encodes; `None` for a malformed one. */
  function DecodeChar(bs: seq<Byte>): (r: Option<char>)
    requires 1 <= |bs| <= 4 && SequenceLength(Octet(bs[0])) == |bs|
  {
    var lead := Octet(bs[0]);
    if |bs| == 1 then Some(lead as char)
    else if !(forall i :: 1 <= i < |bs| ==> IsContinuation(bs[i])) then None
    else if |bs| == 2 then
      Some(((lead - 0xC0) * 0x40 + Payload(bs[1])) as char)
    else if |bs| == 3 then
      var v := (lead - 0xE0) * 0x1000 + Payload(bs[1]) * 0x40 + Payload(bs[2]);
      if v < 0x800 || 0xD800 <= v < 0xE000 then None else Some(v as char)
    else
      var v := (lead - 0xF0) * 0x4_0000 + Payload(bs[1]) * 0x1000 + Payload(bs[2]) * 0x40 + Payload(bs[3]);
      if v < 0x1_0000 || v >= 0x11_0000 then None else Some(v as char)
  }

  /** Reads UTF-8 bytes back into text; `None` for anything RFC 3629 calls ill-formed. */
  function Decode(bs: seq<Byte>): (r: Option<string>)
    decreases |bs|
  {
    if bs == [] then Some([])
    else
      var n := SequenceLength(Octet(bs[0]));
      if n == 0 || n > |bs| then None
      else
        match (DecodeChar(bs[..n]), Decode(bs[n..]))
        case (Some(c), Some(rest)) => Some([c] + rest)
        case _ => None
  }

  /** One character's encoding announces its own length and decodes back to it. */
  lemma DecodeEncodeChar(c: char)
    ensures SequenceLength(Octet(EncodeChar(c)[0])) == Width(c)
    ensures DecodeChar(EncodeChar(c)) == Some(c)
  {
    var v := c as int;
    if v < 0x80 {
    } else if v < 0x800 {
      DecodeEncodeTwo(c);
    } else if v < 0x1_0000 {
      DecodeEncodeThree(c);
    } else {
      DecodeEncodeFour(c);
    }
  }

  lemma DecodeEncodeTwo(c: char)
    requires 0x80 <= c as int < 0x800
    ensures SequenceLength(Octet(EncodeChar(c)[0])) == 2
    ensures DecodeChar(EncodeChar(c)) == Some(c)
  {
    var v, bs := c as int, EncodeChar(c);
    var h, l := v / 0x40, v % 0x40;
    assert v == h * 0x40 + l;
    assert Octet(bs[0]) == 0xC0 + h && IsContinuation(bs[1]) && Payload(bs[1]) == l;
  }

  lemma DecodeEncodeThree(c: char)
    requires 0x800 <= c as int < 0x1_0000
    ensures SequenceLength(Octet(EncodeChar(c)[0])) == 3
    ensures DecodeChar(EncodeChar(c)) == Some(c)
  {
    var v, bs := c as int, EncodeChar(c);
    var h, m, l := v / 0x1000, v / 0x40 % 0x40, v % 0x40;
    assert v == h * 0x1000 + m * 0x40 + l;
    assert Octet(bs[0]) == 0xE0 + h;
    assert IsContinuation(bs[1]) && Payload(bs[1]) == m;
    assert IsContinuation(bs[2]) && Payload(bs[2]) == l;
  }

  lemma DecodeEncodeFour(c: char)
    requires 0x1_0000 <= c as int
    ensures SequenceLength(Octet(EncodeChar(c)[0])) == 4
    ensures DecodeChar(EncodeChar(c)) == Some(c)
  {
    var v, bs := c as int, EncodeChar(c);
    var h, m1, m2, l := v / 0x4_0000, v / 0x1000 % 0x40, v / 0x40 % 0x40, v % 0x40;
    JoinFour(v);
    assert Octet(bs[0]) == 0xF0 + h;
    assert IsContinuation(bs[1]) && Payload(bs[1]) == m1;
    assert IsContinuation(bs[2]) && Payload(bs[2]) == m2;
    assert IsContinuation(bs[3]) && Payload(bs[3]) == l;
  }

  /** A number below 2^21 is its four base-64 digits put back together. */
  lemma JoinFour(v: nat)
    requires v < 0x20_0000
    ensures v == v / 0x4_0000 * 0x4_0000 + v / 0x1000 % 0x40 * 0x1000 + v / 0x40 % 0x40 * 0x40 + v % 0x40
  {
    var q1 := v / 0x40;
    var q2 := q1 / 0x40;
    var q3 := q2 / 0x40;
    assert v == q1 * 0x40 + v % 0x40;
    assert q1 == q2 * 0x40 + q1 % 0x40;
    assert q2 == q3 * 0x40 + q2 % 0x40;
    assert v / 0x1000 == q2;
    assert v / 0x4_0000 == q3;
  }

  /** Decoding an encoding gives back the text. */
  lemma {:induction false} DecodeEncode(s: string)
    ensures Decode(Encode(s)) == Some(s)
  {
    if s != [] {
      var e, rest := EncodeChar(s[0]), Encode(s[1..]);
      var bs := e + rest;
      DecodeEncodeChar(s[0]);
      assert bs[0] == e[0];
      assert bs[..|e|] == e && bs[|e|..] == rest;
      DecodeEncode(s[1..]);
      assert [s[0]] + s[1..] == s;
    }
  }

  /** Every well-formed sequence is the encoding of the character it decodes to. */
  lemma EncodeDecodeChar(bs: seq<Byte>)
    requires 1 <= |bs| <= 4 && SequenceLength(Octet(bs[0])) == |bs|
    requires DecodeChar(bs).Some?
    ensures EncodeChar(DecodeChar(bs).value) == bs
  {
    ToByteOctet(bs[0]);
    if |bs| == 2 {
      EncodeDecodeTwo(bs);
    } else if |bs| == 3 {
      EncodeDecodeThree(bs);
    } else if |bs| == 4 {
      EncodeDecodeFour(bs);
    }
  }

  /** A continuation byte is `0x80` plus its payload. */
  lemma ContinuationByte(b: Byte)
    requires IsContinuation(b)
    ensures ToByte(0x80 + Payload(b)) == b
  {
    ToByteOctet(b);
  }

  lemma EncodeDecodeTwo(bs: seq<Byte>)
    requires |bs| == 2 && SequenceLength(Octet(bs[0])) == 2
    requires DecodeChar(bs).Some?
    ensures EncodeChar(DecodeChar(bs).value) == bs
  {
    var o0, p1 := Octet(bs[0]), Payload(bs[1]);
    var v := DecodeChar(bs).value as int;
    assert v == (o0 - 0xC0) * 0x40 + p1;
    assert v / 0x40 == o0 - 0xC0 && v % 0x40 == p1;
    ToByteOctet(bs[0]);
    ContinuationByte(bs[1]);
  }

  lemma EncodeDecodeThree(bs: seq<Byte>)
    requires |bs| == 3 && SequenceLength(Octet(bs[0])) == 3
    requires DecodeChar(bs).Some?
    ensures EncodeChar(DecodeChar(bs).value) == bs
  {
    var o0, p1, p2 := Octet(bs[0]), Payload(bs[1]), Payload(bs[2]);
    var v := DecodeChar(bs).value as int;
    assert v == (o0 - 0xE0) * 0x1000 + p1 * 0x40 + p2;
    SplitThree(o0 - 0xE0, p1, p2);
    ToByteOctet(bs[0]);
    ContinuationByte(bs[1]);
    ContinuationByte(bs[2]);
  }

  /** The digits of a number written in base 64 with three digits. */
  lemma SplitThree(d0: nat, d1: nat, d2: nat)
    requires d0 < 0x10 && d1 < 0x40 && d2 < 0x40
    ensures var v := d0 * 0x1000 + d1 * 0x40 + d2;
      v / 0x1000 == d0 && v / 0x40 % 0x40 == d1 && v % 0x40 == d2
  {
    var v := d0 * 0x1000 + d1 * 0x40 + d2;
    assert v == (d0 * 0x40 + d1) * 0x40 + d2;
    assert v / 0x40 == d0 * 0x40 + d1;
  }

  /** The digits of a number written in base 64 with four digits. */
  lemma SplitFour(d0: nat, d1: nat, d2: nat, d3: nat)
    requires d0 < 8 && d1 < 0x40 && d2 < 0x40 && d3 < 0x40
    ensures var v := d0 * 0x4_0000 + d1 * 0x1000 + d2 * 0x40 + d3;
      v / 0x4_0000 == d0 && v / 0x1000 % 0x40 == d1 && v / 0x40 % 0x40 == d2 && v % 0x40 == d3
  {
    var w := d0 * 0x40 + d1;
    var v := d0 * 0x4_0000 + d1 * 0x1000 + d2 * 0x40 + d3;
    assert v == w * 0x1000 + (d2 * 0x40 + d3);
    assert v / 0x1000 == w;
    assert v / 0x40 == w * 0x40 + d2;
  }

  lemma EncodeDecodeFour(bs: seq<Byte>)
    requires |bs| == 4 && SequenceLength(Octet(bs[0])) == 4
    requires DecodeChar(bs).Some?
    ensures EncodeChar(DecodeChar(bs).value) == bs
  {
    var o0, p1, p2, p3 := Octet(bs[0]), Payload(bs[1]), Payload(bs[2]), Payload(bs[3]);
    var v := DecodeChar(bs).value as int;
    assert v == (o0 - 0xF0) * 0x4_0000 + p1 * 0x1000 + p2 * 0x40 + p3;
    SplitFour(o0 - 0xF0, p1, p2, p3);
    ToByteOctet(bs[0]);
    ContinuationByte(bs[1]);
    ContinuationByte(bs[2]);
    ContinuationByte(bs[3]);
  }

  /** The decoder accepts exactly the encodings: what it reads encodes back to the same bytes. */
  lemma {:induction false} EncodeDecode(bs: seq<Byte>)
    requires Decode(bs).Some?
    ensures Encode(Decode(bs).value) == bs
    decreases |bs|
  {
    if bs != [] {
      var n := DecodeStep(bs);
      var c, rest := DecodeChar(bs[..n]).value, Decode(bs[n..]).value;
      calc {
        Encode(Decode(bs).value);
        Encode([c] + rest);
        { EncodeCons(c, rest); }
        EncodeChar(c) + Encode(rest);
        { EncodeDecodeChar(bs[..n]); EncodeDecode(bs[n..]); }
        bs[..n] + bs[n..];
        bs;
      }
    }
  }

  lemma EncodeCons(c: char, rest: string)
    ensures Encode([c] + rest) == EncodeChar(c) + Encode(rest)
  {
    assert ([c] + rest)[1..] == rest;
  }

  /** What a successful decode of non-empty bytes is made of: the first sequence's character, then the rest. */
  lemma DecodeStep(bs: seq<Byte>) returns (n: nat)
    requires bs != [] && Decode(bs).Some?
    ensures n == SequenceLength(Octet(bs[0])) && 1 <= n <= |bs|
    ensures DecodeChar(bs[..n]).Some? && Decode(bs[n..]).Some?
    ensures Decode(bs).value == [DecodeChar(bs[..n]).value] + Decode(bs[n..]).value
  {
    n := SequenceLength(Octet(bs[0]));
  }

  /** UTF-8 is injective on text: distinct strings have distinct encodings. */
  lemma EncodeInjective(s: string, t: string)
    ensures Encode(s) == Encode(t) <==> s == t
  {
    DecodeEncode(s);
    DecodeEncode(t);
  }
}
