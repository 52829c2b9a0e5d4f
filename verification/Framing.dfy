/** The length-prefixed byte stream of a connection: frame writer, header arithmetic and the
    two-state reader, with a recursive reading of the stream as its meaning. */
module Framing {

  type Byte = x: int | 0 <= x < 256
  type Bytes = seq<Byte>

  const MAX_PAYLOAD := 65535

  /** Helper::mergeTwoByte: `(high << 8) | low`. */
  function MergeTwoByte(high: Byte, low: Byte): nat { 256 * high + low }

  function HighByte(size: nat): Byte { size % 65536 / 256 }
  function LowByte(size: nat): Byte { size % 65536 % 256 }

  /** What makeBuffer leaves in the buffer. */
  function Frame(payload: Bytes): Bytes {
    [HighByte(|payload|), LowByte(|payload|)] + payload
  }

  function Frames(payloads: seq<Bytes>): Bytes {
    if payloads == [] then [] else Frame(payloads[0]) + Frames(payloads[1..])
  }

  /** The header carries the size modulo 65536. */
  lemma HeaderCarriesSize(size: nat)
    ensures MergeTwoByte(HighByte(size), LowByte(size)) == size % 65536
  {}

  // ---------------------------------------------------------------- meaning of a stream

  datatype Parsed = Parsed(messages: seq<Bytes>, rest: Bytes)

  /** A stream is a sequence of frames.  Frames of size zero carry no message; an incomplete
      frame stays unread. */
  function Parse(stream: Bytes): (p: Parsed)
    decreases |stream|
  {
    if |stream| < 2 then Parsed([], stream)
    else
      var size := MergeTwoByte(stream[0], stream[1]);
      if |stream| < 2 + size then Parsed([], stream)
      else
        var p := Parse(stream[2 + size..]);
        Parsed((if size == 0 then [] else [stream[2..2 + size]]) + p.messages, p.rest)
  }

  /** A delivered message is never empty and never longer than a header can say. */
  lemma {:induction false} MessageSizes(stream: Bytes)
    ensures forall m :: m in Parse(stream).messages ==> 1 <= |m| <= MAX_PAYLOAD
    decreases |stream|
  {
    if |stream| >= 2 {
      var size := MergeTwoByte(stream[0], stream[1]);
      if |stream| >= 2 + size {
        MessageSizes(stream[2 + size..]);
      }
    }
  }

  /** One frame in front of a stream contributes its body, unless that is empty. */
  lemma ParseStep(high: Byte, low: Byte, body: Bytes, rest: Bytes)
    requires MergeTwoByte(high, low) == |body|
    ensures var p := Parse(rest);
            Parse([high, low] + body + rest) == Parsed((if body == [] then [] else [body]) + p.messages, p.rest)
  {}

  lemma ParseFrame(payload: Bytes, rest: Bytes)
    requires |payload| <= MAX_PAYLOAD
    ensures var p := Parse(rest);
            Parse(Frame(payload) + rest) == Parsed((if payload == [] then [] else [payload]) + p.messages, p.rest)
  {
    HeaderCarriesSize(|payload|);
    ParseStep(HighByte(|payload|), LowByte(|payload|), payload, rest);
  }

  lemma {:induction false} ParseFrames(payloads: seq<Bytes>)
    requires forall p :: p in payloads ==> 1 <= |p| <= MAX_PAYLOAD
    ensures Parse(Frames(payloads)) == Parsed(payloads, [])
    decreases |payloads|
  {
    if payloads != [] {
      assert payloads == [payloads[0]] + payloads[1..];
      ParseFrame(payloads[0], Frames(payloads[1..]));
      ParseFrames(payloads[1..]);
    }
  }

  /** Round trip, with its exact domain: the reader returns the very list of payloads that was
      framed if and only if every payload has between 1 and 65535 bytes. */
  lemma RoundTrip(payloads: seq<Bytes>)
    ensures Parse(Frames(payloads)).messages == payloads <==> forall p :: p in payloads ==> 1 <= |p| <= MAX_PAYLOAD
    ensures (forall p :: p in payloads ==> 1 <= |p| <= MAX_PAYLOAD) ==> Parse(Frames(payloads)).rest == []
  {
    if forall p :: p in payloads ==> 1 <= |p| <= MAX_PAYLOAD {
      ParseFrames(payloads);
    } else {
      MessageSizes(Frames(payloads));
    }
  }

  // ---------------------------------------------------------------- the reader

  /** The reader between two completed reads: how large the message it waits for is (zero
      while it waits for a header) and the bytes that have arrived but are not consumed. */
  datatype Reader = Reader(next: nat, inbox: Bytes)

  function Wanted(next: nat): nat { if next == 0 then 2 else next }

  predicate Waits(r: Reader) { |r.inbox| < Wanted(r.next) }

  /** One completed read: a header says how large the next message is, a body is delivered. */
  function Serve(r: Reader): (seq<Bytes>, Reader)
    requires !Waits(r)
  {
    if r.next == 0 then ([], Reader(MergeTwoByte(r.inbox[0], r.inbox[1]), r.inbox[2..]))
    else ([r.inbox[..r.next]], Reader(0, r.inbox[r.next..]))
  }

  /** Serving completed reads until the next one has to wait. */
  function Drain(r: Reader): (seq<Bytes>, Reader)
    decreases |r.inbox|
  {
    if Waits(r) then ([], r)
    else
      var (first, r1) := Serve(r);
      var (others, r2) := Drain(r1);
      (first + others, r2)
  }

  function More(r: Reader, bytes: Bytes): Reader { r.(inbox := r.inbox + bytes) }

  /** The reader that has taken in an incomplete frame. */
  function Load(rest: Bytes): Reader {
    if |rest| < 2 then Reader(0, rest) else Reader(MergeTwoByte(rest[0], rest[1]), rest[2..])
  }

  /** The reader means the parse: it delivers the messages of its stream and holds the rest. */
  lemma {:induction false} DrainParses(stream: Bytes)
    ensures Drain(Reader(0, stream)) == (Parse(stream).messages, Load(Parse(stream).rest))
    decreases |stream|
  {
    if |stream| >= 2 {
      var size := MergeTwoByte(stream[0], stream[1]);
      var body := Reader(size, stream[2..]);
      assert Drain(Reader(0, stream)) == ([] + Drain(body).0, Drain(body).1);
      assert [] + Drain(body).0 == Drain(body).0;
      if |stream| >= 2 + size {
        DrainParses(stream[2 + size..]);
        var messages := Parse(stream[2 + size..]).messages;
        assert [] + messages == messages;
        assert stream[2..][..size] == stream[2..2 + size] && stream[2..][size..] == stream[2 + size..];
      }
    }
  }

  lemma ServeAppend(r: Reader, bytes: Bytes)
    requires !Waits(r)
    ensures !Waits(More(r, bytes)) && Serve(More(r, bytes)) == (Serve(r).0, More(Serve(r).1, bytes))
  {
    var all := r.inbox + bytes;
    if r.next == 0 {
      assert all[2..] == r.inbox[2..] + bytes;
    } else {
      assert all[..r.next] == r.inbox[..r.next] && all[r.next..] == r.inbox[r.next..] + bytes;
    }
  }

  /** Bytes that arrive later do not disturb what was delivered before. */
  lemma {:induction false} DrainAppend(r: Reader, bytes: Bytes)
    ensures var (first, r1) := Drain(r);
            var (others, r2) := Drain(More(r1, bytes));
            Drain(More(r, bytes)) == (first + others, r2)
    decreases |r.inbox|
  {
    if Waits(r) {
      var others := Drain(More(r, bytes)).0;
      assert [] + others == others;
    } else {
      var (message, after) := Serve(r);
      ServeAppend(r, bytes);
      DrainAppend(after, bytes);
      var (first, r1) := Drain(after);
      var others := Drain(More(r1, bytes)).0;
      assert message + (first + others) == (message + first) + others;
    }
  }

  lemma {:induction false} DrainWaits(r: Reader)
    ensures Waits(Drain(r).1)
    decreases |r.inbox|
  {
    if !Waits(r) {
      DrainWaits(Serve(r).1);
    }
  }

  function Concat(chunks: seq<Bytes>): Bytes {
    if chunks == [] then [] else chunks[0] + Concat(chunks[1..])
  }

  /** Chunks of bytes arriving one after another. */
  function Feed(r: Reader, chunks: seq<Bytes>): (seq<Bytes>, Reader)
    decreases |chunks|
  {
    if chunks == [] then ([], r)
    else
      var (first, r1) := Drain(More(r, chunks[0]));
      var (others, r2) := Feed(r1, chunks[1..]);
      (first + others, r2)
  }

  /** It does not matter how the stream is cut into chunks. */
  lemma {:induction false} ChunksAreIrrelevant(r: Reader, chunks: seq<Bytes>)
    requires Waits(r)
    ensures Feed(r, chunks) == Drain(More(r, Concat(chunks)))
    decreases |chunks|
  {
    if chunks == [] {
      assert r.inbox + [] == r.inbox;
    } else {
      var arrived := More(r, chunks[0]);
      DrainWaits(arrived);
      ChunksAreIrrelevant(Drain(arrived).1, chunks[1..]);
      DrainAppend(arrived, Concat(chunks[1..]));
      assert r.inbox + Concat(chunks) == arrived.inbox + Concat(chunks[1..]);
    }
  }

  /** Main result for every byte stream, well formed or not, in any chunks. */
  lemma ReaderParses(chunks: seq<Bytes>)
    ensures Feed(Reader(0, []), chunks) == (Parse(Concat(chunks)).messages, Load(Parse(Concat(chunks)).rest))
  {
    ChunksAreIrrelevant(Reader(0, []), chunks);
    assert [] + Concat(chunks) == Concat(chunks);
    DrainParses(Concat(chunks));
  }

  /** Frames of the payloads, cut into any chunks, come out of a fresh connection as exactly
      the payloads, in order, and the reader then waits for a header. */
  lemma StreamRoundTrip(payloads: seq<Bytes>, chunks: seq<Bytes>)
    requires forall p :: p in payloads ==> 1 <= |p| <= MAX_PAYLOAD
    requires Concat(chunks) == Frames(payloads)
    ensures Feed(Reader(0, []), chunks) == (payloads, Reader(0, []))
  {
    ReaderParses(chunks);
    RoundTrip(payloads);
  }

  /** A prefix of a stream delivers a prefix of its messages. */
  lemma PrefixDeliversPrefix(stream: Bytes, more: Bytes)
    ensures Parse(stream).messages <= Parse(stream + more).messages
  {
    DrainAppend(Reader(0, stream), more);
    DrainParses(stream);
    DrainParses(stream + more);
  }
}
