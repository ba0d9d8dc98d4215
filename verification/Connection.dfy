/** How a client's connection is read, request by request (`src/connection.rs`). */
module ClientConnection {
  import opened Base
  import opened Limits
  import opened Frames
  import opened Parser
  import opened Streaming
  import ParserLoops
  import Reads

  /** How a connection ends: by the peer, by an error of the parser, or because too much was buffered. */
  datatype End = Closed | ClosedMidFrame | Refused(reason: Reason) | TooMuchBuffered

  /** The next request with what is buffered and unread behind it, or the end. */
  datatype NextFrame = Next(frame: Frame, buf: Bytes, unread: seq<Bytes>) | Ended(end: End)

  /** The next request out of the buffer and the reads still to come. */
  function ReadNext(buf: Bytes, unread: seq<Bytes>): (r: NextFrame)
    ensures r.Next? ==> |r.unread| < |unread| || (r.unread == unread && |r.buf| < |buf|)
    decreases |unread|
  {
    if |buf| > MAX_BUFFERED_FRAME_BYTES then Ended(TooMuchBuffered)
    else
      match Parse(buf, true)
      case Got(frame, rest) => Next(frame, rest, unread)
      case Fail(reason) => Ended(Refused(reason))
      case NeedMore(rest) =>
        if unread == [] then Ended(if rest == [] then Closed else ClosedMidFrame)
        else ReadNext(rest + unread[0], unread[1..])
  }

  class Connection {
    const buf: ParserLoops.ReadBuffer
    /** How the bytes still to come will arrive. */
    var unread: seq<Bytes>

    constructor (stream: seq<Bytes>)
      ensures fresh(buf) && buf.bytes == [] && unread == stream
    {
      buf := new ParserLoops.ReadBuffer();
      unread := stream;
    }

    /** `read_frame`: the limit is checked before each parse and after each read. */
    method ReadFrame() returns (frame: Option<Frame>, end: End)
      requires NoneEmpty(unread)
      modifies this, buf
      ensures var r := ReadNext(old(buf.bytes), old(unread));
        && (r.Next? ==> frame == Some(r.frame) && buf.bytes == r.buf && unread == r.unread && NoneEmpty(unread))
        && (r.Ended? ==> frame == None && end == r.end)
    {
      hide Parse;
      frame, end := None, Closed;
      while true
        invariant ReadNext(buf.bytes, unread) == ReadNext(old(buf.bytes), old(unread))
        invariant NoneEmpty(unread) && frame == None
        decreases |unread|
      {
        if |buf.bytes| > MAX_BUFFERED_FRAME_BYTES {
          end := TooMuchBuffered;
          return;
        }
        var parsed := buf.Parse();
        match parsed
        case Got(f, _) =>
          frame := Some(f);
          return;
        case Fail(reason) =>
          end := Refused(reason);
          return;
        case NeedMore(_) =>
          var n := if unread == [] then 0 else |unread[0]|;
          if n == 0 {
            end := if buf.bytes == [] then Closed else ClosedMidFrame;
            return;
          }
          buf.bytes, unread := buf.bytes + unread[0], unread[1..];
          if |buf.bytes| > MAX_BUFFERED_FRAME_BYTES {
            end := TooMuchBuffered;
            return;
          }
      }
    }
  }

  // ---- whole connections ----

  /** All requests of a connection, and how it ended. */
  datatype Received = Received(frames: seq<Frame>, end: End)

  function Receive(buf: Bytes, unread: seq<Bytes>): Received
    decreases |unread|, |buf|
  {
    match ReadNext(buf, unread)
    case Ended(end) => Received([], end)
    case Next(frame, rest, later) =>
      var more := Receive(rest, later);
      more.(frames := [frame] + more.frames)
  }

  /** What the whole stream holds. */
  function WholeStream(d: Drained): Received {
    Received(d.frames, if d.failure.Some? then Refused(d.failure.value) else if d.rest == [] then Closed else ClosedMidFrame)
  }

  lemma ReceiveStep(buf: Bytes, unread: seq<Bytes>)
    ensures var r, p := Receive(buf, unread), Parse(buf, true);
      if |buf| > MAX_BUFFERED_FRAME_BYTES then r == Received([], TooMuchBuffered)
      else if p.Got? then r == Receive(p.rest, unread).(frames := [p.frame] + Receive(p.rest, unread).frames)
      else if p.Fail? then r == Received([], Refused(p.reason))
      else if unread == [] then r == Received([], if p.rest == [] then Closed else ClosedMidFrame)
      else r == Receive(p.rest + unread[0], unread[1..])
  {
    hide Parse;
  }

  /** However its bytes arrive, a connection yields the requests of the stream in order; if it is not
      ended for buffering too much, it yields all of them and ends as the stream does. */
  lemma {:induction false} ReceiveIsDrain(buf: Bytes, unread: seq<Bytes>)
    requires Drain(buf + Flatten(unread), false) == Drain(buf + Flatten(unread), true)
    ensures var r, all := Receive(buf, unread), Drain(buf + Flatten(unread), true);
      if r.end == TooMuchBuffered then r.frames <= all.frames else r == WholeStream(all)
    decreases |unread|, |buf|
  {
    hide Parse, Receive, Flatten;
    var b := Flatten(unread);
    ReceiveStep(buf, unread);
    ParseExtend(buf, b);
    if |buf| <= MAX_BUFFERED_FRAME_BYTES {
      match Parse(buf, true)
      case Got(f, rest) =>
        AgreeingGot(buf + b, f, rest + b);
        DrainCons(buf + b, f, rest + b, true);
        ParseIsShorter(buf);
        ReceiveIsDrain(rest, unread);
      case Fail(_) =>
      case NeedMore(rest) =>
        DrainSame(buf + b, rest + b);
        if unread == [] {
          FlattenNone(buf);
        } else {
          FlattenStep(rest, unread);
          ReceiveIsDrain(rest + unread[0], unread[1..]);
        }
    }
  }

  lemma {:induction false} ShortStreamsFit(buf: Bytes, unread: seq<Bytes>)
    requires |buf + Flatten(unread)| <= MAX_BUFFERED_FRAME_BYTES
    ensures Receive(buf, unread).end != TooMuchBuffered
    decreases |unread|, |buf|
  {
    hide Parse, Receive, Flatten;
    ReceiveStep(buf, unread);
    ParseIsShorter(buf);
    match Parse(buf, true)
    case Got(f, rest) => ShortStreamsFit(rest, unread);
    case Fail(_) =>
    case NeedMore(rest) =>
      if unread != [] {
        FlattenStep(rest, unread);
        ShortStreamsFit(rest + unread[0], unread[1..]);
      }
  }

  /** A connection yields the whole stream, for every way its bytes can arrive, if and only if the stream
      is at most 64 MiB long and the line limit on every line changes nothing of it. */
  lemma ReceiveIgnoresReadsIff(s: Bytes)
    ensures (forall chunks :: Flatten(chunks) == s && NoneEmpty(chunks) ==> Receive([], chunks) == WholeStream(Drain(s, true)))
       <==> |s| <= MAX_BUFFERED_FRAME_BYTES && Drain(s, false) == Drain(s, true)
  {
    hide Drain, Receive, Flatten;
    if |s| > MAX_BUFFERED_FRAME_BYTES {
      OneRead(s);
      assert Flatten([s]) == s && NoneEmpty([s]) && Receive([], [s]) != WholeStream(Drain(s, true));
    } else if Drain(s, false) == Drain(s, true) {
      forall chunks | Flatten(chunks) == s && NoneEmpty(chunks)
        ensures Receive([], chunks) == WholeStream(Drain(s, true))
      {
        assert [] + s == s;
        ReceiveIsDrain([], chunks);
        ShortStreamsFit([], chunks);
      }
    } else {
      var n := Reads.DrainRefused(s);
      var a, b := s[..n], s[n..];
      Reads.FlattenTwo(a, b);
      assert a + b == s;
      Reads.DrainNothing();
      RefusedAtOnce(a, b);
      assert b == [] ==> a == s;
      assert Flatten([a, b]) == s && NoneEmpty([a, b]);
    }
  }

  lemma OneRead(s: Bytes)
    requires |s| > MAX_BUFFERED_FRAME_BYTES
    ensures Flatten([s]) == s && NoneEmpty([s]) && Receive([], [s]).end == TooMuchBuffered
  {
    hide *;
    OneChunk(s);
    ParseNothing();
    ReceiveStep([], [s]);
    ReceiveStep(s, []);
  }

  lemma OneChunk(s: Bytes)
    requires s != []
    ensures Flatten([s]) == s && NoneEmpty([s]) && [s][1..] == [] && [] + [s][0] == s
  {
    assert Flatten<char>([]) == [];
  }

  /** A connection ends at the first error and never sees the second read. */
  lemma RefusedAtOnce(a: Bytes, b: Bytes)
    requires Drain(a, true).failure.Some? && |a| <= MAX_BUFFERED_FRAME_BYTES
    ensures Receive([], [a, b]) == WholeStream(Drain(a, true))
  {
    hide Parse, Receive;
    ParseNothing();
    ReceiveStep([], [a, b]);
    Reads.NextRead(a, b);
    FailsAlike(a, [b]);
  }

  lemma {:induction false} FailsAlike(buf: Bytes, unread: seq<Bytes>)
    requires Drain(buf, true).failure.Some? && |buf| <= MAX_BUFFERED_FRAME_BYTES
    ensures Receive(buf, unread) == WholeStream(Drain(buf, true))
    decreases |buf|
  {
    hide Parse, Receive;
    ReceiveStep(buf, unread);
    ParseIsShorter(buf);
    if Parse(buf, true).Got? {
      FailsAlike(Parse(buf, true).rest, unread);
    }
  }
}
