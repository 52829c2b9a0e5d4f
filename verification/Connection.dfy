/** The connection object: Session::read, handleRead and stop as they change its fields, and
    Helper::makeBuffer, which frames a shared buffer in place. */
module Connection {
  import opened Framing

  class ByteBuffer {
    var bytes: Bytes

    constructor (bytes: Bytes)
      ensures this.bytes == bytes
    {
      this.bytes := bytes;
    }
  }

  method MakeBuffer(buffer: ByteBuffer)
    modifies buffer
    ensures buffer.bytes == Frame(old(buffer.bytes))
    ensures var size := |old(buffer.bytes)| % 65536;
            buffer.bytes == [size / 256, size % 256] + old(buffer.bytes)
  {
    var msgSize := |buffer.bytes| % 65536;
    var lowByte: Byte := msgSize % 256;
    var highByte: Byte := msgSize / 256;
    buffer.bytes := [lowByte] + buffer.bytes;
    buffer.bytes := [highByte] + buffer.bytes;
  }

  function Resize(buffer: Bytes, size: nat): (r: Bytes)
    ensures |r| == size
  {
    if size <= |buffer| then buffer[..size] else buffer + seq(size - |buffer|, _ => 0)
  }

  /** What one arrival leads to: a stopped connection serves the read that is outstanding and
      posts no other; a connection without an outstanding read serves nothing. */
  function Arrival(r: Reader, reading: bool, stopped: bool): (seq<Bytes>, Reader, bool) {
    if !reading || Waits(r) then ([], r, reading)
    else if stopped then (Serve(r).0, Serve(r).1, false)
    else (Drain(r).0, Drain(r).1, true)
  }

  /** How far a loop that serves completed reads has come: it has delivered `done` since
      `start` and is at `r`. */
  ghost predicate Progress(start: Reader, wasReading: bool, stopped: bool, reading: bool, r: Reader, done: seq<Bytes>) {
    if !wasReading then !reading && done == [] && r == start
    else if reading then
      if stopped then done == [] && r == start
      else Drain(start) == (done + Drain(r).0, Drain(r).1)
    else stopped && !Waits(start) && done == Serve(start).0 && r == Serve(start).1
  }

  lemma ProgressStep(start: Reader, wasReading: bool, stopped: bool, r: Reader, done: seq<Bytes>)
    requires Progress(start, wasReading, stopped, true, r, done) && !Waits(r)
    ensures Progress(start, wasReading, stopped, !stopped, Serve(r).1, done + Serve(r).0)
  {
    var (message, after) := Serve(r);
    if stopped {
      assert done + message == message;
    } else {
      assert (done + message) + Drain(after).0 == done + (message + Drain(after).0);
    }
  }

  lemma ProgressEnds(start: Reader, wasReading: bool, stopped: bool, reading: bool, r: Reader, done: seq<Bytes>)
    requires Progress(start, wasReading, stopped, reading, r, done) && !(reading && !Waits(r))
    ensures Arrival(start, wasReading, stopped) == (done, r, reading)
  {
    if wasReading && reading {
      assert done + [] == done;
    }
  }

  class Session {
    var nextMsgSize: nat
    var buffer: Bytes
    var isStop: bool
    /** An asynchronous read is outstanding. */
    var reading: bool
    /** Bytes the socket has received and no read has taken. */
    var inbox: Bytes
    /** The arguments of onRead, in order. */
    var delivered: seq<Bytes>
    var disconnected: bool

    /** While a body is awaited the buffer has exactly its size. */
    ghost predicate Valid()
      reads this
    {
      nextMsgSize < 65536 &&
      (reading ==> |buffer| == if nextMsgSize == 0 then MAX_PAYLOAD else nextMsgSize)
    }

    ghost function State(): Reader
      reads this
    {
      Reader(nextMsgSize, inbox)
    }

    constructor ()
      ensures Valid() && State() == Reader(0, []) && reading && !isStop && delivered == []
    {
      nextMsgSize, isStop, disconnected := 0, false, false;
      inbox, delivered := [], [];
      buffer := seq(MAX_PAYLOAD, _ => 0);
      reading := true;
    }

    method Stop()
      modifies this`isStop
      ensures isStop
    {
      isStop := true;
    }

    method Read()
      requires nextMsgSize < 65536 && (nextMsgSize != 0 ==> |buffer| == nextMsgSize)
      modifies this`buffer, this`reading
      ensures Valid() && reading
    {
      if nextMsgSize == 0 {
        buffer := Resize(buffer, MAX_PAYLOAD);
      }
      reading := true;
    }

    /** The handler of a completed read; the error branch reports the end of the connection. */
    method HandleRead(error: bool)
      requires Valid() && !reading
      requires |buffer| == if nextMsgSize == 0 then MAX_PAYLOAD else nextMsgSize
      modifies this
      ensures Valid() && inbox == old(inbox) && isStop == old(isStop)
      ensures reading == (!error && !isStop) && disconnected == (error || old(disconnected))
      ensures error ==> nextMsgSize == old(nextMsgSize) && delivered == old(delivered)
      ensures !error && old(nextMsgSize) == 0 ==>
                nextMsgSize == 256 * (old(buffer)[0] as int) + (old(buffer)[1] as int) && delivered == old(delivered)
      ensures !error && old(nextMsgSize) != 0 ==> nextMsgSize == 0 && delivered == old(delivered) + [old(buffer)]
    {
      if !error {
        if nextMsgSize == 0 {
          nextMsgSize := MergeTwoByte(buffer[0], buffer[1]);
          buffer := Resize(buffer, nextMsgSize);
        } else {
          delivered := delivered + [buffer];
          nextMsgSize := 0;
        }
        if !isStop {
          Read();
        }
      } else {
        disconnected := true;
      }
    }

    /** The outstanding read completes: exactly the wanted bytes go to the front of the buffer. */
    method Complete()
      requires Valid() && reading && !Waits(State())
      modifies this
      ensures Valid() && isStop == old(isStop) && reading == !isStop && disconnected == old(disconnected)
      ensures State() == Serve(old(State())).1 && delivered == old(delivered) + Serve(old(State())).0
    {
      var n := Wanted(nextMsgSize);
      buffer := inbox[..n] + buffer[n..];
      inbox := inbox[n..];
      reading := false;
      assert nextMsgSize != 0 ==> buffer == old(inbox)[..n];
      HandleRead(false);
      assert delivered + [] == delivered;
    }

    /** A chunk of bytes arrives. */
    method Receive(chunk: Bytes)
      requires Valid()
      modifies this
      ensures Valid() && isStop == old(isStop) && disconnected == old(disconnected)
      ensures var (messages, r, again) := Arrival(More(old(State()), chunk), old(reading), isStop);
              delivered == old(delivered) + messages && State() == r && reading == again
    {
      inbox := inbox + chunk;
      ghost var start := State();
      ghost var done: seq<Bytes> := [];
      assert [] + Drain(start).0 == Drain(start).0;
      while reading && |inbox| >= Wanted(nextMsgSize)
        invariant Valid() && isStop == old(isStop) && disconnected == old(disconnected)
        invariant delivered == old(delivered) + done
        invariant Progress(start, old(reading), isStop, reading, State(), done)
        decreases reading, |inbox|
      {
        ProgressStep(start, old(reading), isStop, State(), done);
        done := done + Serve(State()).0;
        Complete();
      }
      ProgressEnds(start, old(reading), isStop, reading, State(), done);
    }
  }

  /** A connection from its first byte on: it has delivered exactly the messages of the stream
      it received, whatever the bytes and however they were cut into chunks. */
  method Converse(chunks: seq<Bytes>) returns (session: Session)
    ensures session.delivered == Parse(Concat(chunks)).messages
    ensures session.State() == Load(Parse(Concat(chunks)).rest)
  {
    session := new Session();
    var i := 0;
    assert chunks[0..] == chunks && [] + Feed(Reader(0, []), chunks).0 == Feed(Reader(0, []), chunks).0;
    while i < |chunks|
      invariant 0 <= i <= |chunks|
      invariant fresh(session) && session.Valid() && session.reading && !session.isStop && Waits(session.State())
      invariant var (others, r) := Feed(session.State(), chunks[i..]);
                Feed(Reader(0, []), chunks) == (session.delivered + others, r)
    {
      ghost var before, r := session.delivered, session.State();
      session.Receive(chunks[i]);
      var messages := session.delivered[|before|..];
      DrainWaits(More(r, chunks[i]));
      assert chunks[i..][1..] == chunks[i + 1..];
      i := i + 1;
      ghost var others := Feed(session.State(), chunks[i..]).0;
      assert (before + messages) + others == before + (messages + others);
    }
    ReaderParses(chunks);
  }
}
