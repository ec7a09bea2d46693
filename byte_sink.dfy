/**
 * The byte sink and its digest plumbing: `ByteSink` and its typed `put`
 * overloads, `byteSinkOf`, the `outputStream()` adapter, `MessageDigest.toByteSink`,
 * funnels, `HashFunction.digest` and `MessageDigest.digest(item, funnel)`.
 *
 * Every typed `put` reduces to the one primitive `put(ByteArray)`, which hands its
 * chunk to the sink's block. A caller's block (the lambda given to
 * `HashFunction.digest`, or a funnel) is modelled as the sequence of sink calls
 * it makes.
 */
module ByteSinks {
  import opened Wrappers
  import opened ByteEncoding
  import Utf8

  /** A `Charset`, as `String.toByteArray(charset)` applies it. */
  type Charset = string -> seq<Byte>

  /** `Charsets.UTF_8`. */
  function UTF_8(text: string): (bs: seq<Byte>)
    ensures Utf8.Decode(bs) == Some(text)
  {
    Utf8.DecodeEncode(text);
    Utf8.Encode(text)
  }

  /**
   * The byte `put(boolean)` writes. The condition in the source is the literal
   * `true`, not the argument, so both values give `ONE_BYTE`.
   */
  function BooleanBytes(boolean: bool): (bs: seq<Byte>)
    ensures |bs| == 1
  {
    [if true then ONE_BYTE else ZERO_BYTE]
  }

  lemma BooleanBytesIgnoreValue()
    ensures BooleanBytes(true) == BooleanBytes(false) == [ONE_BYTE]
  {
  }

  /** All the chunks, joined in order. */
  function Concat(chunks: seq<seq<Byte>>): (bs: seq<Byte>)
    ensures chunks == [] ==> bs == []
  {
    if chunks == [] then [] else Concat(chunks[..|chunks| - 1]) + chunks[|chunks| - 1]
  }

  lemma {:induction false} ConcatAppend(a: seq<seq<Byte>>, b: seq<seq<Byte>>)
    ensures Concat(a + b) == Concat(a) + Concat(b)
  {
    if b != [] {
      assert (a + b)[..|a + b| - 1] == a + b[..|b| - 1];
      ConcatAppend(a, b[..|b| - 1]);
    } else {
      assert a + b == a;
    }
  }

  lemma ConcatSingle(chunk: seq<Byte>)
    ensures Concat([chunk]) == chunk
  {
    assert [chunk][..0] == [];
  }

  /**
   * A `java.security.MessageDigest`: it accumulates what `update` gives it, and
   * `digest()` returns the algorithm's digest of all of it and resets the engine.
   */
  class MessageDigest {
    /** The digest function of the engine's algorithm, as the platform computes it. */
    const algorithm: seq<Byte> -> seq<Byte>
    /** The bytes given to `update` since creation or since the last `digest()`. */
    var input: seq<Byte>

    constructor (algorithm: seq<Byte> -> seq<Byte>)
      ensures this.algorithm == algorithm && input == []
    {
      this.algorithm := algorithm;
      input := [];
    }

    method Update(bytes: seq<Byte>)
      modifies this
      ensures input == old(input) + bytes
    {
      input := input + bytes;
    }

    method Digest() returns (d: seq<Byte>)
      modifies this
      ensures d == algorithm(old(input))
      ensures input == []
    {
      d := algorithm(input);
      input := [];
    }
  }

  /**
   * The sink `byteSinkOf(block)` builds. `forwarded` lists the chunks handed to
   * `block`, in order. When the sink comes from `MessageDigest.toByteSink`, the
   * block is that engine's `update`, named by `target`.
   */
  class ByteSink {
    const target: MessageDigest?
    var forwarded: seq<seq<Byte>>

    /** `byteSinkOf(block)` for a block whose only observable effect is receiving chunks. */
    constructor Of()
      ensures target == null && forwarded == []
    {
      target := null;
      forwarded := [];
    }

    /** `byteSinkOf { bytes -> md.update(bytes) }`. */
    constructor OfDigest(md: MessageDigest)
      ensures target == md && forwarded == []
    {
      target := md;
      forwarded := [];
    }

    /** The stream of bytes forwarded so far. */
    ghost function Written(): seq<Byte>
      reads this
    {
      Concat(forwarded)
    }

    /** Between two states, the block was called once more, with exactly `bytes`. */
    twostate predicate ForwardedOnce(bytes: seq<Byte>)
      reads this, target
    {
      && forwarded == old(forwarded) + [bytes]
      && (target != null ==> target.input == old(target.input) + bytes)
    }

    /** `put(byteArray)`: calls the block once with the chunk and returns this sink. */
    method Put(bytes: seq<Byte>) returns (self: ByteSink)
      modifies this, target
      ensures self == this && ForwardedOnce(bytes)
      ensures Written() == old(Written()) + bytes
    {
      if target != null {
        target.Update(bytes);
      }
      forwarded := forwarded + [bytes];
      self := this;
    }

    /** `put(text, charset)`. */
    method PutText(text: string, charset: Charset) returns (self: ByteSink)
      modifies this, target
      ensures self == this && ForwardedOnce(charset(text))
    {
      self := Put(charset(text));
    }

    /** `put(text)`: the same as `put(text, Charsets.UTF_8)`. */
    method PutUtf8Text(text: string) returns (self: ByteSink)
      modifies this, target
      ensures self == this && ForwardedOnce(Utf8.Encode(text))
    {
      self := PutText(text, UTF_8);
    }

    /** `put(boolean)`: one byte, `ONE_BYTE` whatever the argument. */
    method PutBoolean(boolean: bool) returns (self: ByteSink)
      modifies this, target
      ensures self == this && ForwardedOnce([ONE_BYTE])
    {
      self := Put(BooleanBytes(boolean));
    }

    /** `put(long)`. */
    method PutLong(long: Long) returns (self: ByteSink)
      modifies this, target
      ensures self == this && ForwardedOnce(LongToBytes(long))
    {
      self := Put(LongToBytes(long));
    }

    /** `put(short)`. */
    method PutShort(short: Short) returns (self: ByteSink)
      modifies this, target
      ensures self == this && ForwardedOnce(ShortToBytes(short))
    {
      self := Put(ShortToBytes(short));
    }

    /** `put(int)`. */
    method PutInt(x: Int) returns (self: ByteSink)
      modifies this, target
      ensures self == this && ForwardedOnce(IntToBytes(x))
    {
      self := Put(IntToBytes(x));
    }

    /** `outputStream()`: a stream view that writes through to this sink. */
    method OutputStream() returns (os: SinkOutputStream)
      ensures fresh(os) && os.sink == this
    {
      os := new SinkOutputStream(this);
    }
  }

  /** The `OutputStream` that `ByteSink.outputStream()` returns. */
  class SinkOutputStream {
    const sink: ByteSink

    constructor (sink: ByteSink)
      ensures this.sink == sink
    {
      this.sink := sink;
    }

    /**
     * `write(b: Int)`: the call `put(b)` resolves to `put(int: Int)`, so the
     * four bytes of `b` are written, not its low byte alone.
     */
    method Write(b: Int)
      modifies sink, sink.target
      ensures sink.ForwardedOnce(IntToBytes(b))
    {
      var _ := sink.PutInt(b);
    }

    /** `write(b: ByteArray?)`: a `null` array writes nothing. */
    method WriteArray(b: Option<seq<Byte>>)
      modifies sink, sink.target
      ensures b.Some? ==> sink.ForwardedOnce(b.value)
      ensures b.None? ==> unchanged(sink) && (sink.target != null ==> unchanged(sink.target))
    {
      if b.Some? {
        var _ := sink.Put(b.value);
      }
    }
  }

  /** One call a block makes on the sink it is given. */
  datatype SinkCall =
    | CallPut(bytes: seq<Byte>)
    | CallPutText(text: string, charset: Charset)
    | CallPutUtf8Text(utf8Text: string)
    | CallPutBoolean(boolean: bool)
    | CallPutLong(long: Long)
    | CallPutShort(short: Short)
    | CallPutInt(x: Int)
    | CallStreamWrite(b: Int)
    | CallStreamWriteArray(chunk: Option<seq<Byte>>)

  /** The chunks one call hands to the sink's block. */
  function ChunksOf(call: SinkCall): (chunks: seq<seq<Byte>>)
    ensures |chunks| <= 1
    ensures |chunks| == 0 <==> call == CallStreamWriteArray(None)
  {
    match call
    case CallPut(bytes) => [bytes]
    case CallPutText(text, charset) => [charset(text)]
    case CallPutUtf8Text(text) => [UTF_8(text)]
    case CallPutBoolean(boolean) => [BooleanBytes(boolean)]
    case CallPutLong(long) => [LongToBytes(long)]
    case CallPutShort(short) => [ShortToBytes(short)]
    case CallPutInt(x) => [IntToBytes(x)]
    case CallStreamWrite(b) => [IntToBytes(b)]
    case CallStreamWriteArray(chunk) => if chunk.Some? then [chunk.value] else []
  }

  /** The chunks a whole block hands to the sink's block, in order. */
  function Chunks(block: seq<SinkCall>): (chunks: seq<seq<Byte>>)
    ensures |chunks| <= |block|
  {
    if block == [] then [] else Chunks(block[..|block| - 1]) + ChunksOf(block[|block| - 1])
  }

  lemma ChunksSnoc(block: seq<SinkCall>, i: nat)
    requires i < |block|
    ensures Chunks(block[..i + 1]) == Chunks(block[..i]) + ChunksOf(block[i])
  {
    assert block[..i + 1][..i] == block[..i];
  }

  /** The bytes a block writes. */
  function BytesOf(block: seq<SinkCall>): seq<Byte> {
    Concat(Chunks(block))
  }

  /** Makes one call on the sink, through the overload it names. */
  method Perform(sink: ByteSink, call: SinkCall)
    modifies sink, sink.target
    ensures sink.forwarded == old(sink.forwarded) + ChunksOf(call)
    ensures sink.target != null ==> sink.target.input == old(sink.target.input) + Concat(ChunksOf(call))
  {
    ghost var chunks := ChunksOf(call);
    if chunks != [] {
      assert chunks == [chunks[0]];
      ConcatSingle(chunks[0]);
    }
    match call
    case CallPut(bytes) => { var _ := sink.Put(bytes); }
    case CallPutText(text, charset) => { var _ := sink.PutText(text, charset); }
    case CallPutUtf8Text(text) => { var _ := sink.PutUtf8Text(text); }
    case CallPutBoolean(boolean) => { var _ := sink.PutBoolean(boolean); }
    case CallPutLong(long) => { var _ := sink.PutLong(long); }
    case CallPutShort(short) => { var _ := sink.PutShort(short); }
    case CallPutInt(x) => { var _ := sink.PutInt(x); }
    case CallStreamWrite(b) => {
      var os := sink.OutputStream();
      os.Write(b);
    }
    case CallStreamWriteArray(chunk) => {
      var os := sink.OutputStream();
      os.WriteArray(chunk);
    }
  }

  /** Runs a caller's block against the sink, one call after another. */
  method Run(sink: ByteSink, block: seq<SinkCall>)
    modifies sink, sink.target
    ensures sink.forwarded == old(sink.forwarded) + Chunks(block)
    ensures sink.target != null ==> sink.target.input == old(sink.target.input) + BytesOf(block)
  {
    var md := sink.target;
    for i := 0 to |block|
      invariant sink.forwarded == old(sink.forwarded) + Chunks(block[..i])
      invariant md != null ==> md.input == old(md.input) + BytesOf(block[..i])
    {
      ghost var chunksBefore, bytesBefore := sink.forwarded, if md != null then md.input else [];
      Perform(sink, block[i]);
      RunStep(block, i, old(sink.forwarded), chunksBefore);
      if md != null {
        RunStepBytes(block, i, old(md.input), bytesBefore);
      }
    }
    assert block[..|block|] == block;
  }

  lemma RunStep(block: seq<SinkCall>, i: nat, start: seq<seq<Byte>>, before: seq<seq<Byte>>)
    requires i < |block| && before == start + Chunks(block[..i])
    ensures before + ChunksOf(block[i]) == start + Chunks(block[..i + 1])
  {
    ChunksSnoc(block, i);
  }

  lemma RunStepBytes(block: seq<SinkCall>, i: nat, start: seq<Byte>, before: seq<Byte>)
    requires i < |block| && before == start + BytesOf(block[..i])
    ensures before + Concat(ChunksOf(block[i])) == start + BytesOf(block[..i + 1])
  {
    BytesOfSnoc(block, i);
    var bytes := Concat(ChunksOf(block[i]));
    assert start + (BytesOf(block[..i]) + bytes) == (start + BytesOf(block[..i])) + bytes;
  }

  lemma BytesOfSnoc(block: seq<SinkCall>, i: nat)
    requires i < |block|
    ensures BytesOf(block[..i + 1]) == BytesOf(block[..i]) + Concat(ChunksOf(block[i]))
  {
    ChunksSnoc(block, i);
    ConcatAppend(Chunks(block[..i]), ChunksOf(block[i]));
  }

  /** `MessageDigest.toByteSink()`. */
  method ToByteSink(md: MessageDigest) returns (sink: ByteSink)
    ensures fresh(sink) && sink.target == md && sink.forwarded == []
  {
    sink := new ByteSink.OfDigest(md);
  }

  /** `PrimitivesFunnel<T>`: the calls `funnelToSink(request, sink)` makes on the sink. */
  datatype PrimitivesFunnel<!T> = PrimitivesFunnel(calls: T -> seq<SinkCall>)

  /** `funnelOf(funnel)`. */
  function FunnelOf<T>(funnel: T -> seq<SinkCall>): (p: PrimitivesFunnel<T>)
    ensures p.calls == funnel
  {
    PrimitivesFunnel(funnel)
  }

  /** `funnel.funnelToSink(request, sink)`. */
  method FunnelToSink<T>(funnel: PrimitivesFunnel<T>, request: T, sink: ByteSink)
    modifies sink, sink.target
    ensures sink.forwarded == old(sink.forwarded) + Chunks(funnel.calls(request))
    ensures sink.target != null ==> sink.target.input == old(sink.target.input) + BytesOf(funnel.calls(request))
  {
    Run(sink, funnel.calls(request));
  }

  /** `funnelOf(f).funnelToSink(request, sink)` has exactly the effect of `f(request, sink)`. */
  method FunnelOfToSink<T>(f: T -> seq<SinkCall>, request: T, sink: ByteSink)
    modifies sink, sink.target
    ensures sink.forwarded == old(sink.forwarded) + Chunks(f(request))
    ensures sink.target != null ==> sink.target.input == old(sink.target.input) + BytesOf(f(request))
  {
    FunnelToSink(FunnelOf(f), request, sink);
  }

  /** `md.digest(item, funnel)` with a `PrimitivesFunnel`: what the engine already held, then the item. */
  method DigestItem<T>(md: MessageDigest, item: T, funnel: PrimitivesFunnel<T>) returns (d: seq<Byte>)
    modifies md
    ensures d == md.algorithm(old(md.input) + BytesOf(funnel.calls(item)))
    ensures md.input == []
  {
    var sink := ToByteSink(md);
    FunnelToSink(funnel, item, sink);
    d := md.Digest();
  }

  /** `md.digest(item, funnel)` with a `FunnelToByteSink` lambda. */
  method DigestItemWith<T>(md: MessageDigest, item: T, funnel: T -> seq<SinkCall>) returns (d: seq<Byte>)
    modifies md
    ensures d == md.algorithm(old(md.input) + BytesOf(funnel(item)))
    ensures md.input == []
  {
    var sink := ToByteSink(md);
    Run(sink, funnel(item));
    d := md.Digest();
  }

  /** The algorithms of `HashFunction`. */
  datatype HashFunction = MD2 | MD5 | SHA1 | SHA224 | SHA256 | SHA384 | SHA512 {
    /** The name handed to `MessageDigest.getInstance`. */
    function DigesterName(): (name: string)
      ensures name == "md5" <==> this == MD5
      ensures |name| >= 3 && (name[..3] == "SHA" <==> !(this == MD2 || this == MD5))
    {
      match this
      case MD2 => assert "MD2"[..3][1] != "SHA"[1]; "MD2"
      case MD5 => assert "md5"[..3][0] != "SHA"[0]; "md5"
      case SHA1 => "SHA-1"
      case SHA224 => "SHA-224"
      case SHA256 => "SHA-256"
      case SHA384 => "SHA-384"
      case SHA512 => "SHA-512"
    }
  }

  /** Each algorithm asks the platform for a different engine. */
  lemma DigesterNamesDistinct(h: HashFunction, g: HashFunction)
    ensures h.DigesterName() == g.DigesterName() <==> h == g
  {
  }

  /** `MessageDigest.getInstance`: the digest function the platform provides for a name. */
  type Provider = string -> (seq<Byte> -> seq<Byte>)

  /** `HashFunction.invoke()`: a fresh engine for the algorithm. */
  method Invoke(h: HashFunction, provider: Provider) returns (md: MessageDigest)
    ensures fresh(md) && md.algorithm == provider(h.DigesterName()) && md.input == []
  {
    md := new MessageDigest(provider(h.DigesterName()));
  }

  /** The digest that `h.digest(block)` returns: the algorithm applied to all the bytes the block wrote. */
  function DigestOf(h: HashFunction, provider: Provider, block: seq<SinkCall>): (d: seq<Byte>)
    ensures block == [] ==> d == provider(h.DigesterName())([])
  {
    provider(h.DigesterName())(BytesOf(block))
  }

  /** `HashFunction.digest(collectHashableBytes)`. */
  method HashDigest(h: HashFunction, provider: Provider, block: seq<SinkCall>) returns (d: seq<Byte>)
    ensures d == DigestOf(h, provider, block)
  {
    var md := Invoke(h, provider);
    var sink := ToByteSink(md);
    Run(sink, block);
    assert md.input == BytesOf(block);
    d := md.Digest();
  }

  /** Two independent digests of the same block give the same bytes. */
  method DigestTwice(h: HashFunction, provider: Provider, block: seq<SinkCall>) returns (d1: seq<Byte>, d2: seq<Byte>)
    ensures d1 == d2 == DigestOf(h, provider, block)
  {
    d1 := HashDigest(h, provider, block);
    d2 := HashDigest(h, provider, block);
  }

  lemma {:induction false} ChunksAppend(b1: seq<SinkCall>, b2: seq<SinkCall>)
    ensures Chunks(b1 + b2) == Chunks(b1) + Chunks(b2)
  {
    if b2 != [] {
      assert (b1 + b2)[..|b1 + b2| - 1] == b1 + b2[..|b2| - 1];
      ChunksAppend(b1, b2[..|b2| - 1]);
    } else {
      assert b1 + b2 == b1;
    }
  }

  /** Running one block after another writes the first block's bytes, then the second's. */
  lemma BytesOfAppend(b1: seq<SinkCall>, b2: seq<SinkCall>)
    ensures BytesOf(b1 + b2) == BytesOf(b1) + BytesOf(b2)
  {
    ChunksAppend(b1, b2);
    ConcatAppend(Chunks(b1), Chunks(b2));
  }

  /** A digest sees only the byte stream: one chunk or the same bytes in two chunks digest alike. */
  lemma DigestIgnoresChunking(h: HashFunction, provider: Provider, a: seq<Byte>, b: seq<Byte>)
    ensures DigestOf(h, provider, [CallPut(a + b)]) == DigestOf(h, provider, [CallPut(a), CallPut(b)])
  {
    BytesOfAppend([CallPut(a)], [CallPut(b)]);
    assert [CallPut(a)] + [CallPut(b)] == [CallPut(a), CallPut(b)];
    assert BytesOf([CallPut(a)]) == a && BytesOf([CallPut(b)]) == b by {
      assert [CallPut(a)][..0] == [];
      assert [CallPut(b)][..0] == [];
    }
    assert BytesOf([CallPut(a + b)]) == a + b by {
      assert [CallPut(a + b)][..0] == [];
    }
  }

  /** The bytes a block of one call writes. */
  lemma BytesOfSingle(call: SinkCall)
    ensures BytesOf([call]) == Concat(ChunksOf(call))
  {
    assert [call][..0] == [];
    assert Chunks([call]) == ChunksOf(call);
  }

  /** Field order is part of a funnel's contract: writing two distinct ints in the other order writes other bytes. */
  lemma FieldOrderMatters(x: Int, y: Int)
    requires x != y
    ensures BytesOf([CallPutInt(x), CallPutInt(y)]) != BytesOf([CallPutInt(y), CallPutInt(x)])
  {
    var xs, ys := IntToBytes(x), IntToBytes(y);
    BytesOfInts(x, y);
    BytesOfInts(y, x);
    assert (xs + ys)[..4] == xs && (ys + xs)[..4] == ys;
    assert SignedValue(xs) != SignedValue(ys);
  }

  lemma BytesOfInts(x: Int, y: Int)
    ensures BytesOf([CallPutInt(x), CallPutInt(y)]) == IntToBytes(x) + IntToBytes(y)
  {
    var xs, ys := IntToBytes(x), IntToBytes(y);
    var block := [CallPutInt(x), CallPutInt(y)];
    assert block[..1][..0] == [] && block[..1] == [CallPutInt(x)];
    assert Chunks(block) == [xs, ys];
    assert [xs, ys] == [xs] + [ys];
    ConcatAppend([xs], [ys]);
    ConcatSingle(xs);
    ConcatSingle(ys);
  }

  /** `put(text)` and `put(text, Charsets.UTF_8)` write the same bytes. */
  lemma PutTextDefaultsToUtf8(text: string)
    ensures BytesOf([CallPutUtf8Text(text)]) == BytesOf([CallPutText(text, UTF_8)]) == Utf8.Encode(text)
  {
    BytesOfSingle(CallPutUtf8Text(text));
    BytesOfSingle(CallPutText(text, UTF_8));
    var e := Utf8.Encode(text);
    ConcatSingle(e);
  }

  /** `put(true)` and `put(false)` write the same single byte, 1. */
  lemma PutBooleanWritesOne(boolean: bool)
    ensures BytesOf([CallPutBoolean(boolean)]) == [ONE_BYTE]
  {
    BytesOfSingle(CallPutBoolean(boolean));
    ConcatSingle([ONE_BYTE]);
  }

  /**
   * `outputStream().write(b)` for a byte value `b` writes four bytes, three zero
   * bytes and then `b`, where an `OutputStream` normally writes `b` alone.
   */
  lemma StreamWriteWritesFourBytes(b: Int)
    requires 0 <= b < 0x80
    ensures BytesOf([CallStreamWrite(b)]) == [0, 0, 0, b]
  {
    BytesOfSingle(CallStreamWrite(b));
    Pow256Widths();
    assert BigEndian(b, 4) == [0, 0, 0, b] by {
      assert BigEndian(0, 1) == [0];
      assert BigEndian(0, 2) == [0, 0];
      assert BigEndian(0, 3) == [0, 0, 0];
    }
    var e: seq<Byte> := [0, 0, 0, b];
    ConcatSingle(e);
  }

  /** A `null` array written to the stream adds nothing to the digest. */
  lemma StreamWriteNullWritesNothing(block: seq<SinkCall>)
    ensures BytesOf(block + [CallStreamWriteArray(None)]) == BytesOf(block)
  {
    BytesOfAppend(block, [CallStreamWriteArray(None)]);
    BytesOfSingle(CallStreamWriteArray(None));
  }
}
