/** The client's `read`: chunks from the input stream are accumulated until a
    chunk ends with the EOM byte (while detection is on), the stream ends, or a
    read times out; a hard I/O error yields the empty string. The stream is a
    finite list of what its successive `read(buffer)` calls produce. */
module ReadLoop {
  import opened JavaTypes
  import opened HexCodec
  import opened EomConfig

  /** The size of the client's read buffer. */
  const BufferSize: nat := 4096

  /** The outcome of one `read(buffer)` call on the stream. `Timeout` stands for
      both `SocketTimeoutException` and `InterruptedIOException`; `IoFailure`
      for every other `IOException`. */
  datatype Event =
    | Chunk(data: seq<JByte>)
    | EndOfStream
    | Timeout
    | IoFailure

  /** A chunk holds between one byte and a full buffer. */
  predicate ValidEvent(e: Event)
  {
    e.Chunk? ==> 1 <= |e.data| <= BufferSize
  }

  predicate ValidStream(events: seq<Event>)
  {
    forall i :: 0 <= i < |events| ==> ValidEvent(events[i])
  }

  /** Why `read` returned. */
  datatype Termination = ByEom | ByEndOfStream | ByTimeout | ByFailure

  /** `Returned` is what `read` returns and why; `Blocked` means the stream
      ran out of events while `read` was still waiting, holding `received`. */
  datatype ReadOutcome =
    | Returned(text: string, reason: Termination)
    | Blocked(received: seq<JByte>)

  /** Whether this event ends the loop: anything but a chunk does, and a chunk
      does when detection is on and its last byte is the EOM byte. */
  predicate EndsRead(c: Client, e: Event)
    requires ValidEvent(e)
  {
    !e.Chunk? || (!c.eomIgnore && e.data[|e.data| - 1] == c.eomByte)
  }

  /** The loop, after having accumulated `acc`, on the remaining events. It
      blocks exactly when no event stops it, and then holds every byte received. */
  function ReadFrom(c: Client, events: seq<Event>, acc: seq<JByte>): (r: ReadOutcome)
    requires ValidStream(events)
    ensures r.Blocked? <==> forall i :: 0 <= i < |events| ==> !EndsRead(c, events[i])
    ensures r.Blocked? ==> r.received == acc + Received(events)
    decreases |events|
  {
    if events == [] then Blocked(acc)
    else
      match events[0]
      case Chunk(data) =>
        var acc' := acc + data;
        if !c.eomIgnore && data[|data| - 1] == c.eomByte then Returned(BaToHexString(acc'), ByEom)
        else ReadFrom(c, events[1..], acc')
      case EndOfStream => Returned(BaToHexString(acc), ByEndOfStream)
      case Timeout => Returned(BaToHexString(acc), ByTimeout)
      case IoFailure => Returned("", ByFailure)
  }

  /** The bytes one event contributes. */
  function Payload(e: Event): seq<JByte>
  {
    if e.Chunk? then e.data else []
  }

  /** The bytes of all chunks among `events`, in order. */
  function Received(events: seq<Event>): (bs: seq<JByte>)
    ensures events == [] ==> bs == []
    decreases |events|
  {
    if events == [] then []
    else Payload(events[0]) + Received(events[1..])
  }

  lemma ReceivedCons(e: Event, rest: seq<Event>)
    ensures Received([e] + rest) == Payload(e) + Received(rest)
  {
    assert ([e] + rest)[1..] == rest;
  }

  lemma {:induction false} ReceivedAppend(a: seq<Event>, b: seq<Event>)
    ensures Received(a + b) == Received(a) + Received(b)
    decreases |a|
  {
    if a != [] {
      assert (a + b)[1..] == a[1..] + b;
      ReceivedAppend(a[1..], b);
    } else {
      assert a + b == b;
    }
  }

  /** The index of the first event that ends the loop, or `|events|` if none does. */
  function FirstStop(c: Client, events: seq<Event>): (k: nat)
    requires ValidStream(events)
    ensures k <= |events|
    ensures forall j :: 0 <= j < k ==> !EndsRead(c, events[j])
    ensures k < |events| ==> EndsRead(c, events[k])
    decreases |events|
  {
    if events == [] then 0
    else if EndsRead(c, events[0]) then 0
    else 1 + FirstStop(c, events[1..])
  }

  /** How many events `read` consumes: up to the first stopping event, and that
      event too when it is a chunk ending in the EOM byte. */
  function Consumed(c: Client, events: seq<Event>): (n: nat)
    requires ValidStream(events)
    ensures n <= |events|
  {
    var k := FirstStop(c, events);
    if k < |events| && events[k].Chunk? then k + 1 else k
  }

  /** Why `read` returns when it meets a stopping event. */
  function ReasonFor(e: Event): Termination
  {
    match e
    case Chunk(_) => ByEom
    case EndOfStream => ByEndOfStream
    case Timeout => ByTimeout
    case IoFailure => ByFailure
  }

  /** What `read` does, stated from the first stopping event instead of step by step. */
  function Expected(c: Client, events: seq<Event>, acc: seq<JByte>): ReadOutcome
    requires ValidStream(events)
  {
    var k := FirstStop(c, events);
    if k == |events| then Blocked(acc + Received(events))
    else if events[k] == IoFailure then Returned("", ByFailure)
    else Returned(BaToHexString(acc + Received(events[..Consumed(c, events)])), ReasonFor(events[k]))
  }

  /** An event that stops the loop straight away: both descriptions give the same outcome. */
  lemma StopsAtHead(c: Client, events: seq<Event>, acc: seq<JByte>)
    requires ValidStream(events) && events != [] && EndsRead(c, events[0])
    ensures ReadFrom(c, events, acc) == Expected(c, events, acc)
  {
    var e := events[0];
    assert FirstStop(c, events) == 0;
    assert events[..1] == [e] + [];
    assert events[..0] == [];
    ReceivedCons(e, []);
    assert Received(events[..1]) == Payload(e) + [];
    if e.Chunk? {
      assert acc + Received(events[..1]) == acc + e.data;
    } else {
      assert acc + Received(events[..0]) == acc;
    }
  }

  /** The bytes of the first `m + 1` events, when the first is `e`. */
  lemma ReceivedShift(e: Event, tail: seq<Event>, m: nat)
    requires m <= |tail|
    ensures Received(([e] + tail)[..m + 1]) == Payload(e) + Received(tail[..m])
  {
    assert ([e] + tail)[..m + 1] == [e] + tail[..m];
    ReceivedCons(e, tail[..m]);
  }

  /** An event that does not stop the loop moves its bytes into the accumulator. */
  lemma ExpectedSkipsHead(c: Client, events: seq<Event>, acc: seq<JByte>)
    requires ValidStream(events) && events != [] && !EndsRead(c, events[0])
    ensures Expected(c, events, acc) == Expected(c, events[1..], acc + events[0].data)
  {
    var e, tail := events[0], events[1..];
    var acc' := acc + e.data;
    assert events == [e] + tail;
    var k := FirstStop(c, tail);
    assert FirstStop(c, events) == k + 1;
    if k < |tail| {
      var n := Consumed(c, tail);
      assert Consumed(c, events) == n + 1;
      ReceivedShift(e, tail, n);
      assert acc + Received(events[..n + 1]) == acc' + Received(tail[..n]);
    } else {
      ReceivedCons(e, tail);
      assert acc + Received(events) == acc' + Received(tail);
    }
  }

  /** The loop agrees with the reference description, whatever was accumulated before. */
  lemma {:induction false} ReadFromMatchesExpected(c: Client, events: seq<Event>, acc: seq<JByte>)
    requires ValidStream(events)
    ensures ReadFrom(c, events, acc) == Expected(c, events, acc)
    decreases |events|
  {
    if events != [] {
      assert ValidEvent(events[0]);
      if EndsRead(c, events[0]) {
        StopsAtHead(c, events, acc);
      } else {
        var acc' := acc + events[0].data;
        assert ReadFrom(c, events, acc) == ReadFrom(c, events[1..], acc');
        ReadFromMatchesExpected(c, events[1..], acc');
        ExpectedSkipsHead(c, events, acc);
      }
    }
  }

  /** `read(is)`, in one statement: it returns at the first stopping event with
      the encoding of every byte received up to and including that event (none
      for a hard error), and blocks if no event stops it. */
  function Read(c: Client, events: seq<Event>): (r: ReadOutcome)
    requires ValidStream(events)
    ensures r == Expected(c, events, [])
  {
    ReadFromMatchesExpected(c, events, []);
    ReadFrom(c, events, [])
  }

  /** A prefix of the events delivers a prefix of the bytes. */
  lemma {:induction false} ReceivedPrefix(events: seq<Event>, n: nat)
    requires n <= |events|
    ensures Received(events[..n]) <= Received(events)
  {
    assert events == events[..n] + events[n..];
    ReceivedAppend(events[..n], events[n..]);
  }

  /** Bytes come out in arrival order: what a successful `read` returns decodes
      to a prefix of everything the stream delivered, and a blocked read holds
      all of it. */
  lemma ReadKeepsArrivalOrder(c: Client, events: seq<Event>)
    requires ValidStream(events)
    ensures var o := Read(c, events);
      o.Blocked? ==> o.received == Received(events)
    ensures var o := Read(c, events);
      o.Returned? && o.reason != ByFailure ==>
        HexStringToByteArray(o.text) == Success(Received(events[..Consumed(c, events)]))
        && Received(events[..Consumed(c, events)]) <= Received(events)
  {
    var n := Consumed(c, events);
    var bs := Received(events[..n]);
    ReceivedPrefix(events, n);
    var o := Read(c, events);
    if o.Blocked? {
      assert [] + Received(events) == Received(events);
    } else if o.reason != ByFailure {
      assert FirstStop(c, events) < |events| && events[FirstStop(c, events)] != IoFailure;
      assert o.text == BaToHexString(bs) by {
        assert [] + bs == bs;
      }
      DecodeEncode(bs);
    }
  }

  /** The last byte received up to a chunk is that chunk's last byte. */
  lemma LastReceived(events: seq<Event>, k: nat)
    requires ValidStream(events) && k < |events| && events[k].Chunk?
    ensures var bs := Received(events[..k + 1]);
      |bs| > 0 && bs[|bs| - 1] == events[k].data[|events[k].data| - 1]
  {
    var e := events[k];
    assert ValidEvent(e);
    assert events[..k + 1] == events[..k] + [e];
    ReceivedAppend(events[..k], [e]);
    ReceivedCons(e, []);
    assert Received([e]) == e.data + [] == e.data;
  }

  /** A read ended by the EOM byte keeps that byte as the last byte of its result. */
  lemma ReadKeepsEomByte(c: Client, events: seq<Event>)
    requires ValidStream(events)
    requires Read(c, events).Returned? && Read(c, events).reason == ByEom
    ensures !c.eomIgnore
    ensures var bs := Received(events[..Consumed(c, events)]);
      && HexStringToByteArray(Read(c, events).text) == Success(bs)
      && |bs| > 0 && bs[|bs| - 1] == c.eomByte
  {
    ReadKeepsArrivalOrder(c, events);
    var k := FirstStop(c, events);
    assert k < |events| && events[k].Chunk?;
    assert Consumed(c, events) == k + 1;
    LastReceived(events, k);
  }

  /** With detection off, chunks never end the read: only end of stream, a
      timeout or an error do, and a stream of chunks alone leaves it blocked. */
  lemma {:induction false} ReadIgnoresEomWhenDisabled(c: Client, events: seq<Event>)
    requires ValidStream(events)
    requires c.eomIgnore
    ensures !(Read(c, events).Returned? && Read(c, events).reason == ByEom)
    ensures (forall i :: 0 <= i < |events| ==> events[i].Chunk?) ==> Read(c, events) == Blocked(Received(events))
  {
    assert [] + Received(events) == Received(events);
  }

  /** A hard I/O error throws away everything received before it. */
  lemma ReadFailureDiscards(c: Client, events: seq<Event>, k: nat)
    requires ValidStream(events)
    requires k < |events| && events[k] == IoFailure
    requires forall j :: 0 <= j < k ==> !EndsRead(c, events[j])
    ensures Read(c, events) == Returned("", ByFailure)
  {
    assert FirstStop(c, events) == k;
  }

  /** Nothing after the event that ends the read is consumed. */
  lemma {:induction false} ReadStopsAtFirstStop(c: Client, events: seq<Event>, more: seq<Event>, acc: seq<JByte>)
    requires ValidStream(events) && ValidStream(more)
    requires FirstStop(c, events) < |events|
    ensures ValidStream(events + more)
    ensures ReadFrom(c, events + more, acc) == ReadFrom(c, events, acc)
    decreases |events|
  {
    var all := events + more;
    assert forall i :: 0 <= i < |all| ==> ValidEvent(all[i]) by {
      forall i | 0 <= i < |all|
        ensures ValidEvent(all[i])
      {
        if i < |events| {
          assert all[i] == events[i];
        } else {
          assert all[i] == more[i - |events|];
        }
      }
    }
    assert all[0] == events[0];
    assert ValidEvent(events[0]);
    if !EndsRead(c, events[0]) {
      assert all[1..] == events[1..] + more;
      ReadStopsAtFirstStop(c, events[1..], more, acc + events[0].data);
    }
  }

  /** Immediate end of stream returns the encoding of no bytes: the empty string. */
  lemma ImmediateEndOfStream(c: Client, rest: seq<Event>)
    requires ValidStream([EndOfStream] + rest)
    ensures Read(c, [EndOfStream] + rest) == Returned("", ByEndOfStream)
  {
  }

  /** One chunk followed by end of stream returns that chunk's encoding: at the
      chunk when its last byte is the EOM byte and detection is on, otherwise at
      the end of the stream. */
  lemma {:induction false} OneChunkThenEnd(c: Client, bs: seq<JByte>)
    requires 1 <= |bs| <= BufferSize
    ensures ValidStream([Chunk(bs), EndOfStream])
    ensures Read(c, [Chunk(bs), EndOfStream])
         == Returned(BaToHexString(bs), if !c.eomIgnore && bs[|bs| - 1] == c.eomByte then ByEom else ByEndOfStream)
  {
    var events := [Chunk(bs), EndOfStream];
    assert ValidEvent(events[0]) && ValidEvent(events[1]);
    assert events[0..] == events && [] + bs == bs;
    ReadFromStep(c, events, 0, []);
    ReadFromStep(c, events, 1, bs);
  }

  /** 0xDE 0xAD (the signed bytes -34, -83) followed by a timeout returns "dead". */
  lemma TimeoutExample()
    ensures Read(NewClient(DefaultEomInt), [Chunk([-34, -83]), Timeout]) == Returned("dead", ByTimeout)
  {
    var c := NewClient(DefaultEomInt);
    var bs: seq<JByte> := [-34, -83];
    var events := [Chunk(bs), Timeout];
    assert events[1..] == [Timeout];
    assert [] + bs == bs;
    assert ReadFrom(c, events, []) == ReadFrom(c, [Timeout], bs);
    var t := BaToHexString(bs);
    assert t[0..2] == ByteHex(-34) == "de";
    assert t[2..4] == ByteHex(-83) == "ad";
    assert t == t[0..2] + t[2..4];
  }

  /** The same bytes followed by a hard error return the empty string. */
  lemma FailureExample()
    ensures Read(NewClient(DefaultEomInt), [Chunk([-34, -83]), IoFailure]) == Returned("", ByFailure)
  {
    var c := NewClient(DefaultEomInt);
    var events := [Chunk([-34, -83]), IoFailure];
    assert events[1..] == [IoFailure];
  }

  /** With EOM byte 10, "Hi" then a chunk ending in 10 returns at once, 10 included,
      and the chunk after it is never read. */
  lemma EomExample()
    ensures Read(NewClient(10), [Chunk([72, 105]), Chunk([10]), Chunk([33]), EndOfStream])
         == Returned("48690a", ByEom)
  {
    var c := NewClient(10);
    var hi: seq<JByte> := [72, 105];
    var events := [Chunk(hi), Chunk([10]), Chunk([33]), EndOfStream];
    assert events[1..] == [Chunk([10]), Chunk([33]), EndOfStream];
    assert [] + hi == hi;
    assert ReadFrom(c, events, []) == ReadFrom(c, events[1..], hi);
    assert hi + [10] == [72, 105, 10];
    HiHex();
  }

  lemma HiHex()
    ensures BaToHexString([72, 105, 10]) == "48690a"
  {
    assert BaToHexString([10]) == "0a" by { EncodeCons(10, []); }
    assert BaToHexString([105, 10]) == "690a" by { EncodeCons(105, [10]); }
    EncodeCons(72, [105, 10]);
  }

  /** After `setEolByte(b)`, whatever the client's configuration, a chunk ending
      in `b` ends the read with everything up to it, and what follows is never read. */
  lemma SetEolByteEnablesEom(c0: Client, b: JByte, bs: seq<JByte>, rest: seq<Event>)
    requires 1 <= |bs| <= BufferSize && bs[|bs| - 1] == b
    requires ValidStream(rest)
    ensures ValidStream([Chunk(bs)] + rest)
    ensures Read(SetEolByte(c0, b), [Chunk(bs)] + rest) == Returned(BaToHexString(bs), ByEom)
  {
    var c := SetEolByte(c0, b);
    var events := [Chunk(bs)] + rest;
    assert events[0] == Chunk(bs);
    assert ValidStream(events) by {
      forall i | 0 <= i < |events|
        ensures ValidEvent(events[i])
      {
        if i > 0 {
          assert events[i] == rest[i - 1];
        }
      }
    }
    assert [] + bs == bs;
    assert ReadFrom(c, events, []) == Returned(BaToHexString(bs), ByEom);
  }

  /** One turn of the loop at event `i`: what `ReadFrom` does with it. */
  lemma ReadFromStep(c: Client, events: seq<Event>, i: nat, w: seq<JByte>)
    requires ValidStream(events) && i < |events|
    ensures ValidStream(events[i + 1..])
    ensures match events[i]
      case Chunk(data) =>
        ReadFrom(c, events[i..], w)
        == if !c.eomIgnore && data[|data| - 1] == c.eomByte then Returned(BaToHexString(w + data), ByEom)
           else ReadFrom(c, events[i + 1..], w + data)
      case EndOfStream => ReadFrom(c, events[i..], w) == Returned(BaToHexString(w), ByEndOfStream)
      case Timeout => ReadFrom(c, events[i..], w) == Returned(BaToHexString(w), ByTimeout)
      case IoFailure => ReadFrom(c, events[i..], w) == Returned("", ByFailure)
  {
    assert ValidEvent(events[i]);
    assert events[i..][1..] == events[i + 1..];
    assert events[i..][0] == events[i];
  }

  /** The Java loop, step by step. */
  method ReadStream(c: Client, events: seq<Event>) returns (r: ReadOutcome)
    requires ValidStream(events)
    ensures r == Read(c, events)
  {
    var w: seq<JByte> := [];
    var i := 0;
    ghost var outcome := ReadFrom(c, events, []);
    assert Read(c, events) == outcome;
    assert events[0..] == events;
    while i < |events|
      invariant 0 <= i <= |events|
      invariant ReadFrom(c, events[i..], w) == outcome
    {
      ReadFromStep(c, events, i, w);
      match events[i] {
        case Chunk(buffer) =>
          w := w + buffer;
          if !c.eomIgnore && buffer[|buffer| - 1] == c.eomByte {
            return Returned(BaToHexString(w), ByEom);
          }
        case EndOfStream =>
          return Returned(BaToHexString(w), ByEndOfStream);
        case Timeout =>
          return Returned(BaToHexString(w), ByTimeout);
        case IoFailure =>
          return Returned("", ByFailure);
      }
      i := i + 1;
    }
    assert events[i..] == [];
    r := Blocked(w);
  }
}
