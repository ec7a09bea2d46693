# common-kotlin-utils: byte, file-name and stdlib helpers in Dafny

This project models three files of small Kotlin helpers and proves what they promise.

**Byte helpers and hashing** (`byte_encoding.dfy`, `hex.dfy`, `utf8.dfy`, `byte_sink.dfy`):
- `ByteArray.toHex()` renders each byte as two upper-case Base16 digits (section 8 of RFC 4648), high nibble first. The nibbles are taken with the source's masks over the sign-extended `Int`.
- `Long/Int/Short.toBytes()` give the fixed-width big-endian two's-complement encoding that a default `java.nio.ByteBuffer` writes.
- The Kotlin code has no hex reader and no byte decoder. `FromHex` (with `HexValue`) and `ValueOf`/`SignedValue` are reference inverses written for this model, and the round trips of `toHex` and `toBytes` are stated against them.
- `ByteSink` has one primitive, `put(ByteArray)`, and typed `put` overloads that reduce to it. It also has an `outputStream()` adapter.
- `byteSinkOf` and `MessageDigest.toByteSink` build sinks. `ByteSink` is a class that records the chunks handed to its block. When the sink wraps a `MessageDigest`, its block is that engine's `update`.
- Funnels, `HashFunction.digest` and `MessageDigest.digest(item, funnel)`. A caller's block or funnel is the sequence of sink calls it makes (`SinkCall`). Each digest is proved to equal the engine's algorithm applied to the bytes the engine already held, followed by every byte the block wrote. For `HashFunction.digest`, whose engine is fresh, that is just the block's bytes.
- `put(text)` encodes with UTF-8 (RFC 3629). That encoding is written out, with a decoder and round trips in both directions.

**File helpers** (`file_helpers.dfy`):
- `expand` folds path segments onto a base file.
- `withNameAndExtension` builds `name[.ext]` under the same parent. It returns the receiver itself when nothing would change.
- `renameTo(nameOnly, extension)` checks its three failure reasons in a fixed order.
- A file is a name under an optional parent. `extension` and `nameWithoutExtension` follow the Kotlin standard library: the text after the last dot, and the text before it.
- The file system is a class that holds the set of existing files. The platform's own `File.renameTo(dest)` result is a parameter.

**Standard-library extensions** (`std_lib_extensions.dfy`):
- `yesNoOrNull` maps a nullable Boolean to one of three strings.
- `withInstanceOf` works over a tagged union.
- `withEach` works over collections and over arrays.
- A caller's block is a `Block` object. It records every value it was applied to, in order.

Two behaviours are modelled as the code is written:
- `put(Boolean)` tests the literal `true`, so it writes the byte `1` for both `true` and `false`.
- The stream adapter's `write(b: Int)` calls `put(b)`, which resolves to `put(int: Int)`. It therefore writes four bytes, not the single low byte an `OutputStream` normally writes.

## Model

| member | source | states |
|---|---|---|
| ByteEncoding.Octet | src/main/kotlin/com/ekoatwork/support/byteHelpersAndHasing.kt:47-73 | the unsigned view of a byte's bits, the base-256 digit `ByteBuffer` writes (not the sign-extending `toInt()`): below 256 and equal to the signed value modulo 256 |
| ByteEncoding.ToByte | src/main/kotlin/com/ekoatwork/support/byteHelpersAndHasing.kt:47-73 | every unsigned octet is the reading of a byte |
| ByteEncoding.ToByteOctet | src/main/kotlin/com/ekoatwork/support/byteHelpersAndHasing.kt:47-73 | reading a byte's bits as an unsigned digit and storing that digit back gives the byte |
| ByteEncoding.Pow256Widths | src/main/kotlin/com/ekoatwork/support/byteHelpersAndHasing.kt:42-45 | 2, 4 and 8 bytes give 2^16, 2^32 and 2^64 distinct patterns |
| ByteEncoding.Unsigned | src/main/kotlin/com/ekoatwork/support/byteHelpersAndHasing.kt:47-73 | the two's-complement pattern of a value that fits is below 256^n, and is the value or the value plus 256^n |
| ByteEncoding.Signed | src/main/kotlin/com/ekoatwork/support/byteHelpersAndHasing.kt:47-73 | reading a pattern as signed gives a value that fits, and its pattern is the one read |
| ByteEncoding.ValueOf | src/main/kotlin/com/ekoatwork/support/byteHelpersAndHasing.kt:47-73 | reference inverse, with no Kotlin counterpart: the unsigned value of n big-endian bytes is below 256^n |
| ByteEncoding.BigEndian | src/main/kotlin/com/ekoatwork/support/byteHelpersAndHasing.kt:47-73 | the big-endian base-256 digits of a number below 256^n are exactly n bytes (their meaning: ValueOfBigEndian) |
| ByteEncoding.ValueOfBigEndian | src/main/kotlin/com/ekoatwork/support/byteHelpersAndHasing.kt:47-73 | reading the big-endian bytes of a number gives the number back |
| ByteEncoding.BigEndianValueOf | src/main/kotlin/com/ekoatwork/support/byteHelpersAndHasing.kt:47-73 | writing the value of a byte sequence gives the sequence back |
| ByteEncoding.SignedValue | src/main/kotlin/com/ekoatwork/support/byteHelpersAndHasing.kt:47-73 | reference inverse, with no Kotlin counterpart: a non-empty byte sequence decodes to a value that fits its width |
| ByteEncoding.ToBytes | src/main/kotlin/com/ekoatwork/support/byteHelpersAndHasing.kt:47-73 | the two's-complement encoding of a value that fits n bytes is exactly n bytes (their meaning: SignedValueToBytes) |
| ByteEncoding.SignedValueToBytes | src/main/kotlin/com/ekoatwork/support/byteHelpersAndHasing.kt:47-73 | decoding the n-byte encoding of a value gives the value |
| ByteEncoding.ToBytesSignedValue | src/main/kotlin/com/ekoatwork/support/byteHelpersAndHasing.kt:47-73 | every byte sequence is the encoding of its decoded value |
| ByteEncoding.ToBytesInjective | src/main/kotlin/com/ekoatwork/support/byteHelpersAndHasing.kt:47-73 | two values have the same encoding exactly when they are equal |
| ByteEncoding.SignInFirstByte | src/main/kotlin/com/ekoatwork/support/byteHelpersAndHasing.kt:47-73 | the first byte is negative exactly when the value is |
| ByteEncoding.BigEndianSign | src/main/kotlin/com/ekoatwork/support/byteHelpersAndHasing.kt:47-73 | the top bit of the first big-endian byte is set exactly when the number is at least half of 256^n |
| ByteEncoding.BigEndianOfOne | src/main/kotlin/com/ekoatwork/support/byteHelpersAndHasing.kt:61-66 | the four big-endian bytes of 1 are `00 00 00 01` |
| ByteEncoding.BigEndianOfAllOnes | src/main/kotlin/com/ekoatwork/support/byteHelpersAndHasing.kt:61-66 | the four big-endian bytes of 0xFFFFFFFF are all `FF` |
| ByteEncoding.BigEndianOfDigits | src/main/kotlin/com/ekoatwork/support/byteHelpersAndHasing.kt:61-66 | the four big-endian bytes of 0x12345678 are `12 34 56 78` |
| ByteEncoding.LongToBytes | src/main/kotlin/com/ekoatwork/support/byteHelpersAndHasing.kt:47-52 | `Long.toBytes` gives exactly 8 bytes, and they decode to the value |
| ByteEncoding.IntToBytes | src/main/kotlin/com/ekoatwork/support/byteHelpersAndHasing.kt:61-66 | `Int.toBytes` gives exactly 4 bytes, and they decode to the value |
| ByteEncoding.ShortToBytes | src/main/kotlin/com/ekoatwork/support/byteHelpersAndHasing.kt:68-73 | `Short.toBytes` gives exactly 2 bytes, and they decode to the value |
| ByteEncoding.IntToBytesIsBigEndian | src/main/kotlin/com/ekoatwork/support/byteHelpersAndHasing.kt:61-66 | the order is big-endian: 1 is `00 00 00 01`, -1 is four `FF` bytes, 0x12345678 is `12 34 56 78` |
| Hex.And | src/main/kotlin/com/ekoatwork/support/byteHelpersAndHasing.kt:31-32 | `x and m` with a non-negative mask never exceeds the mask |
| Hex.HighNibble | src/main/kotlin/com/ekoatwork/support/byteHelpersAndHasing.kt:30-31 | `(octet and 0xF0) ushr 4` over `byte.toInt()` is the unsigned byte divided by 16, even for a negative byte |
| Hex.LowNibble | src/main/kotlin/com/ekoatwork/support/byteHelpersAndHasing.kt:30-32 | `octet and 0x0F` is the unsigned byte modulo 16 |
| Hex.AndLowNibble | src/main/kotlin/com/ekoatwork/support/byteHelpersAndHasing.kt:32 | masking any Int, negative ones included, with `0x0F` keeps its last hexadecimal digit |
| Hex.AndHighNibble | src/main/kotlin/com/ekoatwork/support/byteHelpersAndHasing.kt:31 | masking any Int with `0xF0` keeps its second-to-last hexadecimal digit in place |
| Hex.Ushr | src/main/kotlin/com/ekoatwork/support/byteHelpersAndHasing.kt:31 | `ushr k` on the non-negative masked value is division by 2^k |
| Hex.UshrFour | src/main/kotlin/com/ekoatwork/support/byteHelpersAndHasing.kt:31 | `ushr 4` undoes multiplying a non-negative value by 16 |
| Hex.OctetDigits | src/main/kotlin/com/ekoatwork/support/byteHelpersAndHasing.kt:30 | the unsigned byte's two hexadecimal digits are those of the signed value's last two digits |
| Hex.ToHex | src/main/kotlin/com/ekoatwork/support/byteHelpersAndHasing.kt:25-37 | the text is twice as long as the bytes, and every character is one of `0123456789ABCDEF` |
| Hex.ToHexAt | src/main/kotlin/com/ekoatwork/support/byteHelpersAndHasing.kt:28-34 | byte i gives the digit of its high nibble at position 2i and of its low nibble at 2i+1 |
| Hex.ToHexSnoc | src/main/kotlin/com/ekoatwork/support/byteHelpersAndHasing.kt:28-35 | one more byte appends its high-nibble digit, then its low-nibble digit |
| Hex.ToHexAppend | src/main/kotlin/com/ekoatwork/support/byteHelpersAndHasing.kt:28-36 | `toHex` is a fold: the rendering of a concatenation is the concatenation of the renderings |
| Hex.HexValue | src/main/kotlin/com/ekoatwork/support/byteHelpersAndHasing.kt:25 | reference inverse, with no Kotlin counterpart: a character has a digit value exactly when it is in `HEX_CHARS`, and that value indexes it |
| Hex.FromHex | src/main/kotlin/com/ekoatwork/support/byteHelpersAndHasing.kt:27-37 | reference inverse, with no Kotlin counterpart: text that reads back as bytes is twice as long as the bytes |
| Hex.HexValueOfDigit | src/main/kotlin/com/ekoatwork/support/byteHelpersAndHasing.kt:25 | about the reference inverse `FromHex`: digit i of `HEX_CHARS` reads back as i |
| Hex.HexPair | src/main/kotlin/com/ekoatwork/support/byteHelpersAndHasing.kt:33-34 | the two characters one byte contributes are the hexadecimal digits of its unsigned value, high digit first, though the source masks the sign-extended `toInt()` |
| Hex.FromHexPair | src/main/kotlin/com/ekoatwork/support/byteHelpersAndHasing.kt:33-34 | about the reference inverse `FromHex`: reading text that ends in one byte's two digits appends that byte |
| Hex.FromHexToHex | src/main/kotlin/com/ekoatwork/support/byteHelpersAndHasing.kt:27-37 | reading the rendering of any bytes gives those bytes back |
| Hex.ToHexInjective | src/main/kotlin/com/ekoatwork/support/byteHelpersAndHasing.kt:27-37 | two byte sequences render alike exactly when they are equal |
| Hex.ToHexOfNegativeBytes | src/main/kotlin/com/ekoatwork/support/byteHelpersAndHasing.kt:30-34 | -1, -128, 0x7F, 0x0A render as `FF807F0A` |
| Utf8.Width | src/main/kotlin/com/ekoatwork/support/byteHelpersAndHasing.kt:97 | a character takes one to four UTF-8 bytes |
| Utf8.EncodeChar | src/main/kotlin/com/ekoatwork/support/byteHelpersAndHasing.kt:97 | a character's encoding has the width of its range |
| Utf8.Encode | src/main/kotlin/com/ekoatwork/support/byteHelpersAndHasing.kt:96-97 | text encodes to at least one and at most four bytes per character |
| Utf8.EncodeAppend | src/main/kotlin/com/ekoatwork/support/byteHelpersAndHasing.kt:96-97 | the encoding of a concatenation is the concatenation of the encodings |
| Utf8.EncodeAscii | src/main/kotlin/com/ekoatwork/support/byteHelpersAndHasing.kt:96-97 | ASCII text encodes as one byte per character, equal to its code |
| Utf8.SequenceLength | src/main/kotlin/com/ekoatwork/support/byteHelpersAndHasing.kt:97 | a lead byte announces at most four bytes |
| Utf8.DecodeEncodeChar | src/main/kotlin/com/ekoatwork/support/byteHelpersAndHasing.kt:97 | a character's encoding announces its own width and decodes to the character |
| Utf8.DecodeEncodeTwo | src/main/kotlin/com/ekoatwork/support/byteHelpersAndHasing.kt:97 | the same, for the two-byte range |
| Utf8.DecodeEncodeThree | src/main/kotlin/com/ekoatwork/support/byteHelpersAndHasing.kt:97 | the same, for the three-byte range |
| Utf8.DecodeEncodeFour | src/main/kotlin/com/ekoatwork/support/byteHelpersAndHasing.kt:97 | the same, for the four-byte range |
| Utf8.JoinFour | src/main/kotlin/com/ekoatwork/support/byteHelpersAndHasing.kt:97 | a scalar value is its four base-64 digits put back together |
| Utf8.DecodeEncode | src/main/kotlin/com/ekoatwork/support/byteHelpersAndHasing.kt:96-97 | decoding the encoding of any text gives the text |
| Utf8.ContinuationByte | src/main/kotlin/com/ekoatwork/support/byteHelpersAndHasing.kt:97 | a continuation byte is `10` followed by its six payload bits |
| Utf8.EncodeDecodeChar | src/main/kotlin/com/ekoatwork/support/byteHelpersAndHasing.kt:97 | a well-formed byte sequence is the encoding of the character it decodes to |
| Utf8.EncodeDecodeTwo | src/main/kotlin/com/ekoatwork/support/byteHelpersAndHasing.kt:97 | the same, for two-byte sequences |
| Utf8.SplitThree | src/main/kotlin/com/ekoatwork/support/byteHelpersAndHasing.kt:97 | three base-64 digits are read back from the number they form |
| Utf8.EncodeDecodeThree | src/main/kotlin/com/ekoatwork/support/byteHelpersAndHasing.kt:97 | the same, for three-byte sequences |
| Utf8.SplitFour | src/main/kotlin/com/ekoatwork/support/byteHelpersAndHasing.kt:97 | a 21-bit value splits back into its 3-bit and three 6-bit fields |
| Utf8.EncodeDecodeFour | src/main/kotlin/com/ekoatwork/support/byteHelpersAndHasing.kt:97 | the same, for four-byte sequences |
| Utf8.DecodeStep | src/main/kotlin/com/ekoatwork/support/byteHelpersAndHasing.kt:96-97 | a successful decode is the first sequence's character followed by the decode of the rest |
| Utf8.EncodeDecode | src/main/kotlin/com/ekoatwork/support/byteHelpersAndHasing.kt:96-97 | bytes that decode are the encoding of the text they decode to |
| Utf8.EncodeInjective | src/main/kotlin/com/ekoatwork/support/byteHelpersAndHasing.kt:96-97 | two texts have the same encoding exactly when they are equal |
| ByteSinks.BooleanBytes | src/main/kotlin/com/ekoatwork/support/byteHelpersAndHasing.kt:98 | `put(boolean)` writes exactly one byte |
| ByteSinks.BooleanBytesIgnoreValue | src/main/kotlin/com/ekoatwork/support/byteHelpersAndHasing.kt:98 | the byte is `ONE_BYTE` for both `true` and `false` |
| ByteSinks.Concat | src/main/kotlin/com/ekoatwork/support/byteHelpersAndHasing.kt:133-140 | no chunks join to no bytes; one chunk joins to itself (ConcatSingle) and joining distributes over appending (ConcatAppend) |
| ByteSinks.ConcatAppend | src/main/kotlin/com/ekoatwork/support/byteHelpersAndHasing.kt:133-140 | joining two runs of chunks is joining each and concatenating |
| ByteSinks.ConcatSingle | src/main/kotlin/com/ekoatwork/support/byteHelpersAndHasing.kt:133-140 | one chunk joins to itself |
| ByteSinks.MessageDigest.Update | src/main/kotlin/com/ekoatwork/support/byteHelpersAndHasing.kt:116 | `update` appends its bytes to the engine's input |
| ByteSinks.MessageDigest.Digest | src/main/kotlin/com/ekoatwork/support/byteHelpersAndHasing.kt:143-151 | `digest()` returns the algorithm applied to all input so far and resets the input |
| ByteSinks.ByteSink.Of | src/main/kotlin/com/ekoatwork/support/byteHelpersAndHasing.kt:133-140 | `byteSinkOf` starts with nothing forwarded |
| ByteSinks.ByteSink.OfDigest | src/main/kotlin/com/ekoatwork/support/byteHelpersAndHasing.kt:116 | the digest sink forwards to that engine and starts with nothing forwarded |
| ByteSinks.ByteSink.Put | src/main/kotlin/com/ekoatwork/support/byteHelpersAndHasing.kt:133-140 | `put(bytes)` calls the block once with exactly `bytes` and returns the same sink; the written stream grows by `bytes` and nothing else |
| ByteSinks.ByteSink.PutText | src/main/kotlin/com/ekoatwork/support/byteHelpersAndHasing.kt:96 | `put(text, charset)` forwards the charset's encoding of the text once |
| ByteSinks.ByteSink.PutUtf8Text | src/main/kotlin/com/ekoatwork/support/byteHelpersAndHasing.kt:97 | `put(text)` forwards the UTF-8 encoding once |
| ByteSinks.ByteSink.PutBoolean | src/main/kotlin/com/ekoatwork/support/byteHelpersAndHasing.kt:98 | `put(boolean)` forwards `[1]`, whatever the argument |
| ByteSinks.ByteSink.PutLong | src/main/kotlin/com/ekoatwork/support/byteHelpersAndHasing.kt:99 | `put(long)` forwards `long.toBytes()` once |
| ByteSinks.ByteSink.PutShort | src/main/kotlin/com/ekoatwork/support/byteHelpersAndHasing.kt:100 | `put(short)` forwards `short.toBytes()` once |
| ByteSinks.ByteSink.PutInt | src/main/kotlin/com/ekoatwork/support/byteHelpersAndHasing.kt:101 | `put(int)` forwards `int.toBytes()` once |
| ByteSinks.ByteSink.OutputStream | src/main/kotlin/com/ekoatwork/support/byteHelpersAndHasing.kt:104 | `outputStream()` is a new stream over this sink |
| ByteSinks.SinkOutputStream.Write | src/main/kotlin/com/ekoatwork/support/byteHelpersAndHasing.kt:106-108 | `write(b: Int)` forwards the four bytes of `b` once |
| ByteSinks.SinkOutputStream.WriteArray | src/main/kotlin/com/ekoatwork/support/byteHelpersAndHasing.kt:110-112 | `write(array)` forwards the array once, and a `null` array changes neither the sink nor its engine |
| ByteSinks.ChunksOf | src/main/kotlin/com/ekoatwork/support/byteHelpersAndHasing.kt:95-112 | each call forwards at most one chunk, and none exactly when it writes a `null` array |
| ByteSinks.Chunks | src/main/kotlin/com/ekoatwork/support/byteHelpersAndHasing.kt:95-112 | a block forwards at most one chunk per call |
| ByteSinks.ChunksSnoc | src/main/kotlin/com/ekoatwork/support/byteHelpersAndHasing.kt:95-112 | one more call adds that call's chunks at the end |
| ByteSinks.Perform | src/main/kotlin/com/ekoatwork/support/byteHelpersAndHasing.kt:95-112 | each overload forwards its call's chunks, and the engine behind the sink receives their bytes |
| ByteSinks.Run | src/main/kotlin/com/ekoatwork/support/byteHelpersAndHasing.kt:88-91 | running a block forwards its chunks in order, and the engine receives all its bytes |
| ByteSinks.RunStep | src/main/kotlin/com/ekoatwork/support/byteHelpersAndHasing.kt:88-91 | after one more call, the forwarded chunks are those of the longer prefix |
| ByteSinks.RunStepBytes | src/main/kotlin/com/ekoatwork/support/byteHelpersAndHasing.kt:88-91 | after one more call, the engine's input holds the bytes of the longer prefix |
| ByteSinks.ToByteSink | src/main/kotlin/com/ekoatwork/support/byteHelpersAndHasing.kt:116 | `toByteSink()` is a new sink whose block is the engine's `update` |
| ByteSinks.FunnelToSink | src/main/kotlin/com/ekoatwork/support/byteHelpersAndHasing.kt:119-120 | `funnelToSink(request, sink)` forwards the funnel's calls for the request |
| ByteSinks.FunnelOf | src/main/kotlin/com/ekoatwork/support/byteHelpersAndHasing.kt:125-131 | the funnel built from a function makes exactly the sink calls that function makes for each request (the sink effect: FunnelOfToSink) |
| ByteSinks.FunnelOfToSink | src/main/kotlin/com/ekoatwork/support/byteHelpersAndHasing.kt:125-131 | `funnelOf(f).funnelToSink(r, s)` has exactly the effect of `f(r, s)` |
| ByteSinks.DigestItem | src/main/kotlin/com/ekoatwork/support/byteHelpersAndHasing.kt:143-146 | `md.digest(item, funnel)` is the algorithm applied to the engine's earlier input followed by the item's bytes, and the engine is reset |
| ByteSinks.DigestItemWith | src/main/kotlin/com/ekoatwork/support/byteHelpersAndHasing.kt:148-151 | the same, for a `FunnelToByteSink` lambda |
| ByteSinks.HashFunction.DigesterName | src/main/kotlin/com/ekoatwork/support/byteHelpersAndHasing.kt:76-84 | only MD5 is asked for by the lower-case name `md5`; every SHA algorithm, and no other, is asked for by a name starting `SHA` |
| ByteSinks.DigesterNamesDistinct | src/main/kotlin/com/ekoatwork/support/byteHelpersAndHasing.kt:76-84 | the seven algorithms ask the platform for seven different names |
| ByteSinks.Invoke | src/main/kotlin/com/ekoatwork/support/byteHelpersAndHasing.kt:86-87 | `invoke()` is a new, empty engine for the algorithm's name |
| ByteSinks.DigestOf | src/main/kotlin/com/ekoatwork/support/byteHelpersAndHasing.kt:88-91 | the digest `HashFunction.digest(block)` returns: the named algorithm over the bytes the block wrote, so an empty block digests the empty message |
| ByteSinks.HashDigest | src/main/kotlin/com/ekoatwork/support/byteHelpersAndHasing.kt:88-91 | `digest(block)` is the named algorithm applied to the concatenation of every byte the block wrote |
| ByteSinks.DigestTwice | src/main/kotlin/com/ekoatwork/support/byteHelpersAndHasing.kt:88-91 | two digests of the same block are equal |
| ByteSinks.ChunksAppend | src/main/kotlin/com/ekoatwork/support/byteHelpersAndHasing.kt:95-112 | the chunks of two blocks run one after the other are the first block's, then the second's |
| ByteSinks.BytesOfAppend | src/main/kotlin/com/ekoatwork/support/byteHelpersAndHasing.kt:95-112 | the same for the bytes written |
| ByteSinks.DigestIgnoresChunking | src/main/kotlin/com/ekoatwork/support/byteHelpersAndHasing.kt:88-91 | putting `a + b` at once or `a` then `b` gives the same digest |
| ByteSinks.BytesOfSingle | src/main/kotlin/com/ekoatwork/support/byteHelpersAndHasing.kt:95-112 | a block of one call writes that call's chunk |
| ByteSinks.FieldOrderMatters | src/main/kotlin/com/ekoatwork/support/byteHelpersAndHasing.kt:101 | putting two distinct ints in the other order writes different bytes |
| ByteSinks.BytesOfInts | src/main/kotlin/com/ekoatwork/support/byteHelpersAndHasing.kt:101 | putting two ints writes the first one's four bytes, then the second one's |
| ByteSinks.UTF_8 | src/main/kotlin/com/ekoatwork/support/byteHelpersAndHasing.kt:97 | the bytes UTF-8 gives for a text decode back to that text |
| ByteSinks.PutTextDefaultsToUtf8 | src/main/kotlin/com/ekoatwork/support/byteHelpersAndHasing.kt:96-97 | `put(text)` and `put(text, UTF_8)` write the same bytes, the UTF-8 encoding |
| ByteSinks.PutBooleanWritesOne | src/main/kotlin/com/ekoatwork/support/byteHelpersAndHasing.kt:98 | `put(true)` and `put(false)` both write the single byte 1 |
| ByteSinks.StreamWriteWritesFourBytes | src/main/kotlin/com/ekoatwork/support/byteHelpersAndHasing.kt:106-108 | `write(b)` for a value below 0x80 writes `00 00 00 b` |
| ByteSinks.StreamWriteNullWritesNothing | src/main/kotlin/com/ekoatwork/support/byteHelpersAndHasing.kt:110-112 | writing a `null` array adds no bytes |
| FileHelpers.Child | src/main/kotlin/com/ekoatwork/support/FileHelpers.kt:25 | `File(parent, child)` is named `child` and its parent is `parent` |
| FileHelpers.Expand | src/main/kotlin/com/ekoatwork/support/FileHelpers.kt:25 | `expand()` with no segments is the receiver; otherwise the file's name is the last segment |
| FileHelpers.ExpandAppend | src/main/kotlin/com/ekoatwork/support/FileHelpers.kt:25 | `expand(a + b)` is `expand(a).expand(b)` |
| FileHelpers.ExpandAncestor | src/main/kotlin/com/ekoatwork/support/FileHelpers.kt:25 | the receiver is the ancestor as many levels up as there were segments |
| FileHelpers.LastDot | src/main/kotlin/com/ekoatwork/support/FileHelpers.kt:72 | there is no last dot exactly when there is no dot; when there is one, no dot follows it |
| FileHelpers.Extension | src/main/kotlin/com/ekoatwork/support/FileHelpers.kt:72 | `extension` contains no dot |
| FileHelpers.SplitName | src/main/kotlin/com/ekoatwork/support/FileHelpers.kt:72 | a dotted name is `nameWithoutExtension + "." + extension`; an undotted one is its own base with an empty extension |
| FileHelpers.NewFileName | src/main/kotlin/com/ekoatwork/support/FileHelpers.kt:74-79 | an empty extension gives `name`; otherwise `name`, exactly one dot, then the extension without its leading dot |
| FileHelpers.WithNameAndExtension | src/main/kotlin/com/ekoatwork/support/FileHelpers.kt:71-80 | the parent is kept; when base and extension (with or without dot) are unchanged, the receiver is returned; otherwise the name is the rebuilt one |
| FileHelpers.WithNameAndExtensionIdempotent | src/main/kotlin/com/ekoatwork/support/FileHelpers.kt:71-80 | applying it twice with the same arguments gives the same file as once |
| FileHelpers.LastDotAt | src/main/kotlin/com/ekoatwork/support/FileHelpers.kt:72 | a dot followed by no other dot is the last dot |
| FileHelpers.NameWithoutExtension | src/main/kotlin/com/ekoatwork/support/FileHelpers.kt:72 | a name without a dot is its own bare name; otherwise the name is the bare name, a dot and the extension |
| FileHelpers.NameWithoutExtensionOfDotted | src/main/kotlin/com/ekoatwork/support/FileHelpers.kt:72-79 | `base.bare` with a dot-free `bare` splits back into `base` and `bare` |
| FileHelpers.WithNameAndExtensionReadBack | src/main/kotlin/com/ekoatwork/support/FileHelpers.kt:71-80 | when the parts bring no dots of their own, the result's base is `name` and its extension is `ext` without its dot |
| FileHelpers.UnchangedMatchesRebuild | src/main/kotlin/com/ekoatwork/support/FileHelpers.kt:72-79 | returning the receiver agrees with rebuilding its name except exactly for `"a."` with `("a", "")` and `"a"` with `("a", ".")` |
| FileHelpers.RenameOutcome | src/main/kotlin/com/ekoatwork/support/FileHelpers.kt:39-62 | fails with `SOURCE_DOES_NOT_EXISTS` exactly when the source is missing, `DEST_ALREADY_EXISTS` exactly when both exist, `PLATFORM_FAILURE` exactly when the platform refuses after both checks pass; success returns `withNameAndExtension`; a failure carries `src` and `dest` |
| FileHelpers.RenameToOwnNameFails | src/main/kotlin/com/ekoatwork/support/FileHelpers.kt:56-73 | renaming an existing file to its own name and extension, with or without the dot, fails with `DEST_ALREADY_EXISTS` |
| FileHelpers.FileSystem.RenameTo | src/main/kotlin/com/ekoatwork/support/FileHelpers.kt:56-62 | returns the outcome above; only a success changes the files, replacing the source by the destination |
| FileHelpers.RenameMovesOneFile | src/main/kotlin/com/ekoatwork/support/FileHelpers.kt:56-62 | a successful rename removes the source, adds a different destination, keeps the count and leaves every other file alone |
| StdLibExtensions.YesNoOrNull | src/main/kotlin/com/ekoatwork/support/stdLibExtensions.kt:29-33 | `"null"` exactly for null, `"YES"` exactly for true, `"NO"` exactly for false |
| StdLibExtensions.YesNoOrNullInjective | src/main/kotlin/com/ekoatwork/support/stdLibExtensions.kt:29-33 | the three inputs give three different strings |
| StdLibExtensions.Block.Apply | src/main/kotlin/com/ekoatwork/support/stdLibExtensions.kt:44 | running a block once records its argument after the earlier ones |
| StdLibExtensions.WithInstanceOf | src/main/kotlin/com/ekoatwork/support/stdLibExtensions.kt:19-27 | returns true exactly for an instance, then runs the block once on it; otherwise it never runs the block |
| StdLibExtensions.WithEach | src/main/kotlin/com/ekoatwork/support/stdLibExtensions.kt:44 | the block runs on every element of the collection exactly once, in order |
| StdLibExtensions.WithEachInArray | src/main/kotlin/com/ekoatwork/support/stdLibExtensions.kt:46 | the block runs on every element of the array exactly once, in index order |

## Left out

- `Double.toBytes` and `put(Double)`: these are the IEEE 754 bit layout, which is floating point.
- The digest algorithms (MD2, MD5, SHA-1, SHA-224/256/384/512) and `MessageDigest.getInstance`: these are platform cryptography. They are modelled as a function value that the platform supplies for each algorithm name (`Provider`). No fixed digest value, such as MD5 of the empty string, can be stated.
- A `getInstance` name the platform does not know, which throws `NoSuchAlgorithmException`: the provider is total here.
- Charsets other than UTF-8 in `put(text, charset)`: a charset is a function parameter.
- Kotlin strings are UTF-16 and may hold lone surrogates, which the JDK encoder replaces with `?`. A Dafny `char` is a Unicode scalar value, so the model never sees one.
- `OutputStream` methods the adapter inherits without overriding (`write(b, off, len)`, `flush`, `close`): these are JDK behaviour.
- The `MessageDigest` engine is reused after `digest()` with its input reset. No other engine state, such as a cloned engine, is modelled.
- A caller's block or funnel is modelled as the list of sink calls it makes. Other effects a Kotlin lambda may have, and exceptions it may throw part-way, are not modelled.
- `ensureLocationDir`: directory creation is file-system I/O.
- How `java.io.File` normalises path strings and separators: a file is a parent and a name.
- `File.exists` and the platform's `File.renameTo(File)`: these are a set of existing files and a Boolean parameter. Renaming a directory does not move the files under it in this model.
- The `unit` closure adapter in `stdLibExtensions.kt`: it only discards a return value.
- The reified JVM type test in `withInstanceOf`: the model decides on a tagged union instead.
- `logging/ExtLogging.kt` and `dateHelpers.kt`: a logging wrapper and time-zone conversion, both library delegation.
