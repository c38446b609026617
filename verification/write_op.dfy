/** The client's two `write` operations. The output stream is modelled as the
    log of bytes it has accepted, together with the fault it will raise, if any. */
module WriteOp {
  import opened JavaTypes
  import opened HexCodec
  import opened EomConfig
  import opened ReadLoop

  /** How the output stream behaves: it accepts everything, or it accepts the
      first `accepted` bytes of a write and then throws `IOException`. */
  datatype SinkFault = Healthy | FailsAfter(accepted: nat)

  /** How a call completed: normally, or by throwing to its caller. */
  datatype Completion = Normal | Thrown(error: JavaException)

  /** The stream's log after the call, and how the call completed. */
  datatype WriteOutcome = WriteOutcome(log: seq<JByte>, completion: Completion)

  /** What reaches the stream when `bytes` are written under `fault`. */
  function Delivered(bytes: seq<JByte>, fault: SinkFault): (sent: seq<JByte>)
    ensures sent <= bytes
    ensures fault == Healthy ==> sent == bytes
    ensures fault.FailsAfter? ==> |sent| == if fault.accepted < |bytes| then fault.accepted else |bytes|
  {
    match fault
    case Healthy => bytes
    case FailsAfter(n) => if n < |bytes| then bytes[..n] else bytes
  }

  /** `write(os, s)`: decode, then write and flush. An odd-length string throws
      before anything is written; an `IOException` from the stream is caught,
      so the call still completes normally. */
  function Write(log: seq<JByte>, fault: SinkFault, s: string): (r: WriteOutcome)
    ensures r.completion.Thrown? <==> |s| % 2 == 1
    ensures r.completion.Thrown? ==> r.completion.error == IllegalArgument && r.log == log
    ensures r.completion.Normal? ==> log <= r.log && r.log <= log + HexStringToByteArray(s).value
    ensures r.completion.Normal? ==> |r.log| <= |log| + |s| / 2
    ensures r.completion.Normal? && fault == Healthy ==> r.log == log + HexStringToByteArray(s).value
  {
    match HexStringToByteArray(s)
    case Failure(e) => WriteOutcome(log, Thrown(e))
    case Success(bytes) => WriteOutcome(log + Delivered(bytes, fault), Normal)
  }

  /** `write(os, is)`: not supported by this client; it throws and writes nothing. */
  function WriteFromStream(log: seq<JByte>, input: seq<Event>): (r: WriteOutcome)
    ensures r.log == log
    ensures r.completion == Thrown(UnsupportedOperation)
  {
    WriteOutcome(log, Thrown(UnsupportedOperation))
  }

  /** Writing the encoding of some bytes to a healthy stream appends exactly those bytes. */
  lemma {:induction false} WriteEncoded(log: seq<JByte>, bs: seq<JByte>)
    ensures Write(log, Healthy, BaToHexString(bs)) == WriteOutcome(log + bs, Normal)
  {
    DecodeEncode(bs);
  }

  /** A failing stream never changes how the call completes: the fault only
      shortens what reaches the log, to a prefix of what a healthy stream gets. */
  lemma WriteFaultOnlyShortens(log: seq<JByte>, fault: SinkFault, s: string)
    ensures Write(log, fault, s).completion == Write(log, Healthy, s).completion
    ensures Write(log, fault, s).log <= Write(log, Healthy, s).log
  {
  }

  /** What one client writes, read back by another: a healthy write of an
      even-length hex string, delivered as one chunk and then end of stream, is
      read as the same string lower-cased, whatever the reader's EOM settings;
      it ends at the chunk exactly when its last byte is the reader's EOM byte. */
  lemma WriteThenRead(c: Client, s: string)
    requires |s| % 2 == 0 && 2 <= |s| <= 2 * BufferSize
    requires forall i :: 0 <= i < |s| ==> IsHexDigit(s[i])
    ensures var sent := Write([], Healthy, s).log;
      && ValidStream([Chunk(sent), EndOfStream])
      && Read(c, [Chunk(sent), EndOfStream]).Returned?
      && Read(c, [Chunk(sent), EndOfStream]).text == AsciiLower(s)
      && (Read(c, [Chunk(sent), EndOfStream]).reason == ByEom <==> !c.eomIgnore && sent[|sent| - 1] == c.eomByte)
  {
    var bytes := HexStringToByteArray(s).value;
    assert Write([], Healthy, s).log == bytes by {
      assert [] + bytes == bytes;
    }
    assert BaToHexString(bytes) == AsciiLower(s) by {
      EncodeDecode(s);
    }
    OneChunkThenEnd(c, bytes);
  }
}
