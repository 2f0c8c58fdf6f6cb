/**
 Framed messages over a chunked byte stream with a side queue of descriptors.

 The socket is replaced by the sequence of its successful receive calls: each delivers some bytes and
 some descriptors. An empty sequence, like a receive of zero bytes, is a closed peer.
 */
module Stream {
  import opened Wrappers
  import opened Bytes
  import opened Types
  import opened Header
  import opened Message

  datatype Arrival = Arrival(bytes: seq<u8>, fds: seq<Fd>)

  datatype IoError = PeerClosed | InvalidData(error: CoreError) | FrameTooLong(length: nat)

  datatype State = State(readBuf: seq<u8>, pendingFds: seq<Fd>, incoming: seq<Arrival>)

  function Fill(st: State): (r: Result<State, IoError>)
    ensures r.Ok? ==> |r.value.incoming| < |st.incoming|
  {
    if st.incoming == [] || st.incoming[0].bytes == [] then Err(PeerClosed)
    else Ok(State(st.readBuf + st.incoming[0].bytes, st.pendingFds + st.incoming[0].fds, st.incoming[1..]))
  }

  /** Fills until the frame length is known. */
  function AwaitFrameLen(st: State): (r: Result<(nat, State), IoError>)
    ensures r.Ok? ==> |r.value.1.incoming| <= |st.incoming|
    decreases |st.incoming|
  {
    match PeekFrameLen(st.readBuf)
    case Err(e) => Err(InvalidData(e))
    case Ok(Some(n)) => Ok((n, st))
    case Ok(None) =>
      var more :- Fill(st);
      AwaitFrameLen(more)
  }

  /** Fills until n bytes are buffered. */
  function AwaitBytes(st: State, n: nat): (r: Result<State, IoError>)
    ensures r.Ok? ==> |r.value.readBuf| >= n
    decreases |st.incoming|
  {
    if |st.readBuf| >= n then Ok(st)
    else
      var more :- Fill(st);
      AwaitBytes(more, n)
  }

  function Min(a: nat, b: nat): (m: nat) {
    if a < b then a else b
  }

  /** Cuts n bytes off the buffer and the declared descriptors, as far as there are any, off the queue. */
  function TakeFrame(st: State, n: nat): (r: Result<(Message, State), IoError>)
    requires n <= |st.readBuf|
  {
    match Read(st.readBuf[..n])
    case Err(e) => Err(InvalidData(e))
    case Ok((header, _)) =>
      var count := Min(UnixFdsOf(header.fields), |st.pendingFds|);
      match FromBytes(st.readBuf[..n], st.pendingFds[..count])
      case Err(e) => Err(InvalidData(e))
      case Ok(m) => Ok((m, State(st.readBuf[n..], st.pendingFds[count..], st.incoming)))
  }

  function Receive(st: State, max: nat): (r: Result<(Message, State), IoError>)
  {
    var (n, known) :- AwaitFrameLen(st);
    if n > max then Err(FrameTooLong(n))
    else
      var full :- AwaitBytes(known, n);
      TakeFrame(full, n)
  }

  function ReceiveAll(st: State, max: nat, count: nat): (r: Result<(seq<Message>, State), IoError>)
    decreases count
  {
    if count == 0 then Ok(([], st))
    else
      var (first, after) :- Receive(st, max);
      var (rest, end) :- ReceiveAll(after, max, count - 1);
      Ok(([first] + rest, end))
  }

  class Transport {
    var incoming: seq<Arrival>
    var readBuf: seq<u8>
    var pendingFds: seq<Fd>
    var maxMessageSize: u32

    constructor (incoming: seq<Arrival>)
      ensures Now() == State([], [], incoming) && maxMessageSize == 0x800_0000
    {
      this.incoming, readBuf, pendingFds, maxMessageSize := incoming, [], [], DEFAULT_MAX_MESSAGE_LEN;
    }

    function Now(): (st: State)
      reads this
    {
      State(readBuf, pendingFds, incoming)
    }

    method SetMaxMessageSize(max: u32)
      modifies `maxMessageSize
      ensures maxMessageSize == max
    {
      maxMessageSize := max;
    }

    method FillMore() returns (r: Result<(), IoError>)
      modifies `incoming, `readBuf, `pendingFds
      ensures match Fill(old(Now()))
              case Ok(st) => r == Ok(()) && Now() == st
              case Err(e) => r == Err(e)
      ensures r.Ok? ==> |incoming| < |old(incoming)|
    {
      if incoming == [] {
        return Err(PeerClosed);
      }
      var arrival := incoming[0];
      incoming := incoming[1..];
      if arrival.bytes == [] {
        return Err(PeerClosed);
      }
      readBuf := readBuf + arrival.bytes;
      pendingFds := pendingFds + arrival.fds;
      return Ok(());
    }

    method ReadMessage() returns (r: Result<Message, IoError>)
      modifies `incoming, `readBuf, `pendingFds
      ensures match Receive(old(Now()), maxMessageSize)
              case Ok((m, st)) => r == Ok(m) && Now() == st
              case Err(e) => r == Err(e)
    {
      hide PeekFrameLen, Read, FromBytes;
      ghost var start := Now();
      var frameLen := 0;
      while true
        invariant AwaitFrameLen(Now()) == AwaitFrameLen(start)
        decreases |incoming|
      {
        var peeked := PeekFrameLen(readBuf);
        if peeked.Err? {
          return Err(InvalidData(peeked.error));
        }
        if peeked.value.Some? {
          frameLen := peeked.value.value;
          break;
        }
        var _ :- FillMore();
      }
      assert AwaitFrameLen(start) == Ok((frameLen, Now()));
      if frameLen > maxMessageSize {
        return Err(FrameTooLong(frameLen));
      }
      ghost var known := Now();
      while |readBuf| < frameLen
        invariant AwaitBytes(Now(), frameLen) == AwaitBytes(known, frameLen)
        decreases |incoming|
      {
        var _ :- FillMore();
      }
      var frame := readBuf[..frameLen];
      readBuf := readBuf[frameLen..];
      var header := Read(frame);
      if header.Err? {
        return Err(InvalidData(header.error));
      }
      var declared := UnixFdsOf(header.value.0.fields);
      var taken: seq<Fd> := [];
      if declared > 0 {
        var count := Min(declared, |pendingFds|);
        taken := pendingFds[..count];
        pendingFds := pendingFds[count..];
      }
      var m := FromBytes(frame, taken);
      if m.Err? {
        return Err(InvalidData(m.error));
      }
      return Ok(m.value);
    }
  }

  /** One complete write: the descriptors ride on the first segment, no segment is empty. */
  predicate IsWriteOf(segments: seq<Arrival>, bytes: seq<u8>, fds: seq<Fd>) {
    && segments != []
    && AllBytes(segments) == bytes
    && segments[0].fds == fds
    && (forall i | 0 <= i < |segments| :: segments[i].bytes != [])
    && (forall i | 0 < i < |segments| :: segments[i].fds == [])
  }

  function AllBytes(arrivals: seq<Arrival>): (bytes: seq<u8>) {
    if arrivals == [] then [] else arrivals[0].bytes + AllBytes(arrivals[1..])
  }

  function AllFds(arrivals: seq<Arrival>): (fds: seq<Fd>) {
    if arrivals == [] then [] else arrivals[0].fds + AllFds(arrivals[1..])
  }

  lemma {:induction false} AllBytesAppend(arrivals: seq<Arrival>, last: Arrival)
    ensures AllBytes(arrivals + [last]) == AllBytes(arrivals) + last.bytes
  {
    if arrivals == [] {
      assert [] + [last] == [last] && [last][1..] == [];
    } else {
      assert (arrivals + [last])[1..] == arrivals[1..] + [last];
      AllBytesAppend(arrivals[1..], last);
    }
  }

  lemma NoBytes(bytes: seq<u8>)
    ensures AllBytes([]) + bytes == bytes && bytes + [] == bytes
  {
  }

  lemma Associate(front: seq<u8>, rest: seq<u8>, n: nat)
    requires n <= |rest|
    ensures front + rest[..n] + rest[n..] == front + rest
  {
  }

  class Writer {
    /** What the socket has accepted so far, one entry per successful send. */
    var sent: seq<Arrival>

    constructor ()
      ensures sent == []
    {
      sent := [];
    }

    /** Sends everything; the socket accepts an arbitrary non-empty part each time. */
    method WriteAllWithFds(bytes: seq<u8>, fds: seq<Fd>) returns (ghost segments: seq<Arrival>)
      modifies this
      ensures sent == old(sent) + segments
      ensures bytes != [] ==> IsWriteOf(segments, bytes, fds)
      ensures bytes == [] ==> segments == []
    {
      hide AllBytes;
      var rest := bytes;
      var first := true;
      segments := [];
      NoBytes(bytes);
      while rest != []
        invariant sent == old(sent) + segments
        invariant first <==> segments == []
        invariant AllBytes(segments) + rest == bytes && (bytes == [] ==> segments == [])
        invariant segments != [] ==> segments[0].fds == fds
        invariant forall i | 0 <= i < |segments| :: segments[i].bytes != []
        invariant forall i | 0 < i < |segments| :: segments[i].fds == []
        decreases |rest|
      {
        var n: nat :| 1 <= n <= |rest|;
        var segment := Arrival(rest[..n], if first then fds else []);
        AllBytesAppend(segments, segment);
        Associate(AllBytes(segments), rest, n);
        sent := sent + [segment];
        segments := segments + [segment];
        first := false;
        rest := rest[n..];
      }
      assert AllBytes(segments) + [] == AllBytes(segments);
    }

    method WriteMessage(m: Message) returns (r: Result<(), IoError>, ghost segments: seq<Arrival>)
      modifies this
      ensures sent == old(sent) + segments
      ensures match ToBytes(m)
              case Ok(bytes) => r == Ok(()) && (bytes != [] ==> IsWriteOf(segments, bytes, m.fds))
              case Err(e) => r == Err(InvalidData(e)) && segments == []
    {
      var bytes := Serialize(m);
      if bytes.Err? {
        return Err(InvalidData(bytes.error)), [];
      }
      segments := WriteAllWithFds(bytes.value, m.fds);
      r := Ok(());
    }
  }
}
