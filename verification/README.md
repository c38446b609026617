# BinaryTCPClientImpl in Dafny

A model of JMeter's binary TCP sampler client, `BinaryTCPClientImpl`. The
client sends and receives raw bytes over an open TCP connection. On both
sides its callers see hex strings:

- `write(os, s)` decodes the hex string `s` and writes the bytes.
- `read(is)` accumulates incoming bytes until an end-of-message (EOM) byte
  ends a chunk, the stream ends, or a read times out. It then returns the
  bytes as lower-case hex.

EOM detection is configured by one integer. A value outside the signed-byte
range switches detection off. `setEolByte` switches it back on with a new
byte.

Modules, one per part of the client:

- `JavaTypes` (java_types.dfy): Java `int` and `byte`, the `(byte)` cast, and
  the two's-complement bit pattern of an `int`. It also holds the exceptions
  that escape to callers and a `Result` wrapper.
- `HexCodec` (hex_codec.dfy): `hexStringToByteArray` and the hex encoder used
  on the read path.
  - `Character.digit(c, 16)` is modelled on ASCII as `Digit`, which returns -1
    for a non-digit.
  - Each output byte is the 32-bit `(hi << 4) | lo` computed on `bv32` and
    truncated to a signed byte, so non-hex input decodes the way the Java code
    decodes it.
- `EomConfig` (eom_config.dfy): the client's state (`eomInt`, `eomByte`,
  `eomIgnore`), construction from a configured integer, and
  `getEolByte`/`setEolByte`.
- `ReadLoop` (read_loop.dfy): `read`. The input stream is a finite list of
  `Event`s, one per `is.read(buffer)` call:
  - `Chunk` holds 1 to 4096 bytes.
  - `EndOfStream` is a return of -1.
  - `Timeout` is a `SocketTimeoutException` or an `InterruptedIOException`.
  - `IoFailure` is any other `IOException`.

  `Read` is a fold over the events. `Expected` describes the same behaviour
  independently, from the first event that stops the loop, and
  `ReadFromMatchesExpected` proves that the two agree. `ReadStream` is the
  Java `while` loop, proved equal to `Read`. A `ReadOutcome` is one of:
  - `Returned(text, reason)`: what `read` returns, with a tag saying why it
    returned. The Java method returns only the string.
  - `Blocked(received)`: the events ran out while the Java call would still be
    blocked in `is.read`.
- `WriteOp` (write_op.dfy): both `write` methods. The output stream is the log
  of bytes it has accepted, plus a `SinkFault`. `FailsAfter(n)` means the
  stream accepts `n` bytes and then throws `IOException`.

The decoder never rejects non-hex input. `Character.digit` returns -1 for a
non-hex character, and line 74 still stores a byte. `NonHexExample` shows that
"a1g2" decodes to 0xA1 0xF2, and the contract of `CombineNibbles` gives the
general rule.

## Model

| member | source | states |
|---|---|---|
| JavaTypes.ToByte | src/protocol/tcp/org/apache/jmeter/protocol/tcp/sampler/BinaryTCPClientImpl.java:49 | the `(byte)` cast gives a byte congruent to its argument modulo 256, equal to it when it is already in -128..127 |
| JavaTypes.ToByteUnique | src/protocol/tcp/org/apache/jmeter/protocol/tcp/sampler/BinaryTCPClientImpl.java:49 | those two properties determine the cast: any byte congruent to `n` modulo 256 is `(byte) n` |
| HexCodec.Digit | src/protocol/tcp/org/apache/jmeter/protocol/tcp/sampler/BinaryTCPClientImpl.java:72-73 | `Character.digit(c, 16)` is -1 exactly for characters that are not hex digits |
| HexCodec.DigitNamesChar | src/protocol/tcp/org/apache/jmeter/protocol/tcp/sampler/BinaryTCPClientImpl.java:72-73 | a hex digit's value, written back as a digit, is the same character lower-cased |
| HexCodec.DigitIgnoresCase | src/protocol/tcp/org/apache/jmeter/protocol/tcp/sampler/BinaryTCPClientImpl.java:72-73 | every character and its ASCII lower-case form have the same digit value, -1 included |
| HexCodec.CombineNibbles | src/protocol/tcp/org/apache/jmeter/protocol/tcp/sampler/BinaryTCPClientImpl.java:72-74 | `(byte) ((hi << 4) OR lo)`: two real digits give the byte whose unsigned value is `16 * hi + lo`; a non-digit in the low position gives -1 (0xFF) whatever the high one is; a non-digit in the high position before digit `lo` gives `0xF0 OR lo`, i.e. `lo - 16`; no case raises an error |
| HexCodec.DecodePrefix | src/protocol/tcp/org/apache/jmeter/protocol/tcp/sampler/BinaryTCPClientImpl.java:71-75 | the first `n` output bytes are, in order, the combined digits of the first `n` character pairs |
| HexCodec.HexStringToByteArray | src/protocol/tcp/org/apache/jmeter/protocol/tcp/sampler/BinaryTCPClientImpl.java:66-82 | throws `IllegalArgumentException` exactly when the length is odd; otherwise returns `length / 2` bytes, byte `i` combining characters `2i` and `2i+1` |
| HexCodec.DecodeHex | src/protocol/tcp/org/apache/jmeter/protocol/tcp/sampler/BinaryTCPClientImpl.java:66-82 | the Java loop over the output array computes exactly the decoder's result, error case included |
| HexCodec.BaToHexString | src/protocol/tcp/org/apache/jmeter/protocol/tcp/sampler/BinaryTCPClientImpl.java:177 | the encoder of the read path writes two lower-case hex digits per byte |
| HexCodec.EncodeAt | src/protocol/tcp/org/apache/jmeter/protocol/tcp/sampler/BinaryTCPClientImpl.java:177 | byte `i` is written at positions `2i` and `2i+1`, high nibble first, from its unsigned value |
| HexCodec.DecodeEncode | src/protocol/tcp/org/apache/jmeter/protocol/tcp/sampler/BinaryTCPClientImpl.java:66-82 | decoding the encoding of any byte sequence gives back that sequence |
| HexCodec.EncodeDecode | src/protocol/tcp/org/apache/jmeter/protocol/tcp/sampler/BinaryTCPClientImpl.java:66-82 | an even-length string of hex digits decodes without error, and encoding the result gives the string lower-cased |
| HexCodec.DecodeIgnoresCase | src/protocol/tcp/org/apache/jmeter/protocol/tcp/sampler/BinaryTCPClientImpl.java:66-82 | lower-casing the input never changes what the decoder returns or whether it throws |
| HexCodec.MixedCaseExample | src/protocol/tcp/org/apache/jmeter/protocol/tcp/sampler/BinaryTCPClientImpl.java:72-74 | "aB" and "ab" both decode to the single byte 0xAB |
| HexCodec.NonHexExample | src/protocol/tcp/org/apache/jmeter/protocol/tcp/sampler/BinaryTCPClientImpl.java:72-74 | "a1g2" is not rejected: it decodes to 0xA1 0xF2 |
| EomConfig.NewClient | src/protocol/tcp/org/apache/jmeter/protocol/tcp/sampler/BinaryTCPClientImpl.java:46-51 | after construction with `n`, `eomIgnore` holds iff `n` is outside -128..127; in range `eomByte == n`; in every case `eomByte` is `n` wrapped modulo 256 |
| EomConfig.DefaultIgnoresEom | src/protocol/tcp/org/apache/jmeter/protocol/tcp/sampler/BinaryTCPClientImpl.java:46-51 | with the default configured value 1000, EOM detection is off |
| EomConfig.GetEolByte | src/protocol/tcp/org/apache/jmeter/protocol/tcp/sampler/BinaryTCPClientImpl.java:183-185 | on any state reachable from construction with detection off, `getEolByte()` reports the configured integer wrapped to a byte |
| EomConfig.SetEolByte | src/protocol/tcp/org/apache/jmeter/protocol/tcp/sampler/BinaryTCPClientImpl.java:191-194 | afterwards `getEolByte()` returns the new byte and detection is on, whatever it was before; the configured integer is untouched |
| EomConfig.AfterSets | src/protocol/tcp/org/apache/jmeter/protocol/tcp/sampler/BinaryTCPClientImpl.java:46-51 | after construction and any sequence of `setEolByte` calls, the last call decides the byte and detection is on; with no call, the constructor's derivation stands; while detection is off the byte is the wrapped configured value; the configured integer never changes |
| ReadLoop.ReadFrom | src/protocol/tcp/org/apache/jmeter/protocol/tcp/sampler/BinaryTCPClientImpl.java:145-150 | the loop over the remaining events, having accumulated some bytes, blocks exactly when no remaining event stops it, and then holds the accumulated bytes followed by every byte received |
| ReadLoop.FirstStop | src/protocol/tcp/org/apache/jmeter/protocol/tcp/sampler/BinaryTCPClientImpl.java:145-150 | the index of the first event that ends the loop: no earlier event ends it, and that one does |
| ReadLoop.ReadFromMatchesExpected | src/protocol/tcp/org/apache/jmeter/protocol/tcp/sampler/BinaryTCPClientImpl.java:140-178 | from any accumulated prefix, the event-by-event loop equals the reference description: stop at the first stopping event and return the encoding of the bytes so far (the EOM chunk included), "" on a hard error, or block if nothing stops it |
| ReadLoop.Read | src/protocol/tcp/org/apache/jmeter/protocol/tcp/sampler/BinaryTCPClientImpl.java:140-178 | `read` equals the reference description: it returns at the first stopping event with the encoding of every byte received up to and including that event, "" on a hard error, and blocks if no event stops it |
| ReadLoop.ReadStream | src/protocol/tcp/org/apache/jmeter/protocol/tcp/sampler/BinaryTCPClientImpl.java:140-178 | the Java `while` loop, with its break and its catch clauses, computes exactly `read`'s outcome |
| ReadLoop.ReadKeepsArrivalOrder | src/protocol/tcp/org/apache/jmeter/protocol/tcp/sampler/BinaryTCPClientImpl.java:145-146 | a successful read decodes to the bytes of the consumed events in arrival order, a prefix of all delivered bytes; a blocked read holds all of them |
| ReadLoop.ReadKeepsEomByte | src/protocol/tcp/org/apache/jmeter/protocol/tcp/sampler/BinaryTCPClientImpl.java:146-148 | a read ended by the EOM byte had detection on, and that byte is the last byte of the returned data |
| ReadLoop.ReadIgnoresEomWhenDisabled | src/protocol/tcp/org/apache/jmeter/protocol/tcp/sampler/BinaryTCPClientImpl.java:147 | with `eomIgnore` set, no read ends by EOM, and a stream of chunks alone never ends the read |
| ReadLoop.ReadFailureDiscards | src/protocol/tcp/org/apache/jmeter/protocol/tcp/sampler/BinaryTCPClientImpl.java:170-173 | a non-timeout I/O error reached before any stopping event makes `read` return "", discarding the partial data |
| ReadLoop.ReadStopsAtFirstStop | src/protocol/tcp/org/apache/jmeter/protocol/tcp/sampler/BinaryTCPClientImpl.java:145-150 | events after the one that ends the read are never consumed: appending more does not change the outcome |
| ReadLoop.ImmediateEndOfStream | src/protocol/tcp/org/apache/jmeter/protocol/tcp/sampler/BinaryTCPClientImpl.java:145-177 | immediate end of stream returns the encoding of the empty array, "" |
| ReadLoop.OneChunkThenEnd | src/protocol/tcp/org/apache/jmeter/protocol/tcp/sampler/BinaryTCPClientImpl.java:145-150 | for any client, one chunk then end of stream returns that chunk's encoding: at the chunk when detection is on and its last byte is the EOM byte, otherwise at the end of the stream |
| ReadLoop.TimeoutExample | src/protocol/tcp/org/apache/jmeter/protocol/tcp/sampler/BinaryTCPClientImpl.java:166-177 | 0xDE 0xAD followed by a timeout returns "dead" |
| ReadLoop.FailureExample | src/protocol/tcp/org/apache/jmeter/protocol/tcp/sampler/BinaryTCPClientImpl.java:170-173 | 0xDE 0xAD followed by a hard I/O error returns "" |
| ReadLoop.EomExample | src/protocol/tcp/org/apache/jmeter/protocol/tcp/sampler/BinaryTCPClientImpl.java:145-150 | with EOM byte 10, "Hi" then a chunk ending in 10 returns "48690a" at once, and the following chunk is not read |
| ReadLoop.SetEolByteEnablesEom | src/protocol/tcp/org/apache/jmeter/protocol/tcp/sampler/BinaryTCPClientImpl.java:191-194 | after `setEolByte(b)` on any client, a chunk of any length ending in `b` ends the read with that chunk's encoding, and nothing after it is read |
| WriteOp.Delivered | src/protocol/tcp/org/apache/jmeter/protocol/tcp/sampler/BinaryTCPClientImpl.java:112-113 | a healthy stream accepts every byte; a failing one accepts a prefix of the requested length |
| WriteOp.Write | src/protocol/tcp/org/apache/jmeter/protocol/tcp/sampler/BinaryTCPClientImpl.java:110-119 | throws `IllegalArgumentException` exactly for odd-length input, and then writes nothing; otherwise returns normally even on a stream fault, having appended a prefix of the decoded bytes, all of them on a healthy stream |
| WriteOp.WriteFromStream | src/protocol/tcp/org/apache/jmeter/protocol/tcp/sampler/BinaryTCPClientImpl.java:128-131 | the stream-to-stream `write` always throws `UnsupportedOperationException` and writes nothing |
| WriteOp.WriteEncoded | src/protocol/tcp/org/apache/jmeter/protocol/tcp/sampler/BinaryTCPClientImpl.java:110-119 | writing the hex encoding of any bytes to a healthy stream appends exactly those bytes |
| WriteOp.WriteFaultOnlyShortens | src/protocol/tcp/org/apache/jmeter/protocol/tcp/sampler/BinaryTCPClientImpl.java:114-116 | a stream fault never changes how `write` completes; it only shortens what is written to a prefix of the healthy result |
| WriteOp.WriteThenRead | src/protocol/tcp/org/apache/jmeter/protocol/tcp/sampler/BinaryTCPClientImpl.java:110-178 | for any reader configuration, an even-length hex string written to a healthy stream, then delivered as one chunk and end of stream, is read back as the same string lower-cased; the read ends at the chunk exactly when its last byte is the reader's EOM byte and detection is on |

## Left out

- Logging (`log.info`, `log.warn`, `log.debug`), including the charset-dependent `w.toString()` at line 176, and the `setupTest`/`teardownTest` hooks. These only produce diagnostics.
- The `JMeterUtils.getPropDefault` lookup at line 46. The configured integer is the parameter of `EomConfig.NewClient` instead, with 1000 kept as `DefaultEomInt`.
- Real sockets, blocking and wall-clock timeouts. The input stream is a finite list of events. A stream that runs out of events leaves `read` `Blocked`, where the Java call would still be waiting.
- `os.flush()`: the output log has no buffer, so flushing changes nothing in the model.
- `JOrphanUtils.baToHexString` is not part of this model. `HexCodec.BaToHexString` is its assumed behaviour: two lower-case hex digits per byte, high nibble first. The round-trip lemmas rest on that assumption.
- `HexCodec.Digit`: models `Character.digit` on ASCII only. The Java method also accepts non-ASCII Unicode digits, such as full-width letters and digits. In the model, those characters get -1.
- HexCodec.HexStringToByteArray: a Dafny `string` is a sequence of Unicode scalar values, whereas Java's `length()` and `toCharArray()` count UTF-16 code units. For input containing characters above U+FFFF, the odd-length check and the pairing of characters differ from Java's. For example, U+1F600 is one character here and throws; Java sees two surrogates and returns the byte -1. The same applies to `HexCodec.DecodeHex` and `WriteOp.Write`, which use this decoder.
- A chunk of zero bytes is excluded by `ValidEvent`. `read(buffer)` on a 4096-byte buffer never returns 0. If it did, then with detection on, line 147 would index `buffer[-1]` and throw `ArrayIndexOutOfBoundsException`, which no catch clause handles. With detection off, `&&` short-circuits, so the read would do nothing and the loop would read again.
- `WriteOp.Write`: Java does not say how many bytes an `OutputStream` accepts before it throws. The count is the `FailsAfter` parameter.
