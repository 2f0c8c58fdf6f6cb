/** Framing does not depend on how the stream is chunked, and descriptors stay with their message. */
module StreamProofs {
  import opened Wrappers
  import opened Bytes
  import opened Header
  import opened HeaderProofs
  import opened Message
  import opened MessageProofs
  import opened WireSpec
  import opened Stream

  /** A message that was serialised in at most max bytes. */
  predicate Deliverable(m: Message, max: nat) {
    Sendable(m) && ToBytes(m).Ok? && |ToBytes(m).value| <= max
  }

  predicate AllDeliverable(ms: seq<Message>, max: nat) {
    ms == [] || (Deliverable(ms[0], max) && AllDeliverable(ms[1..], max))
  }

  function StreamBytes(ms: seq<Message>, max: nat): (bytes: seq<u8>)
    requires AllDeliverable(ms, max)
  {
    if ms == [] then [] else ToBytes(ms[0]).value + StreamBytes(ms[1..], max)
  }

  function StreamFds(ms: seq<Message>): (fds: seq<Fd>) {
    if ms == [] then [] else ms[0].fds + StreamFds(ms[1..])
  }

  function AsReceived(ms: seq<Message>, max: nat): (received: seq<Message>)
    requires AllDeliverable(ms, max)
  {
    if ms == [] then []
    else
      MessageRoundTrip(ms[0]);
      [Received(ms[0])] + AsReceived(ms[1..], max)
  }

  // ---- The condition on arrivals ----

  /** Whenever all bytes of the first messages are there, so are their descriptors. */
  predicate CoversNow(bytes: nat, fds: nat, ms: seq<Message>, max: nat)
    requires AllDeliverable(ms, max)
  {
    ms == [] ||
    var m := ms[0];
    var size := |ToBytes(m).value|;
    size <= bytes ==> |m.fds| <= fds && CoversNow(bytes - size, fds - |m.fds|, ms[1..], max)
  }

  /** No arrival is empty, and descriptors come no later than the last byte of their message. */
  predicate Timely(bytes: nat, fds: nat, incoming: seq<Arrival>, ms: seq<Message>, max: nat)
    requires AllDeliverable(ms, max)
    decreases |incoming|
  {
    && CoversNow(bytes, fds, ms, max)
    && (incoming != [] ==>
        && incoming[0].bytes != []
        && Timely(bytes + |incoming[0].bytes|, fds + |incoming[0].fds|, incoming[1..], ms, max))
  }

  /** The state holds or will receive exactly these messages and then the rest. */
  ghost predicate Carries(st: State, ms: seq<Message>, max: nat, rest: seq<u8>, restFds: seq<Fd>) {
    && AllDeliverable(ms, max)
    && st.readBuf + AllBytes(st.incoming) == StreamBytes(ms, max) + rest
    && st.pendingFds + AllFds(st.incoming) == StreamFds(ms) + restFds
    && Timely(|st.readBuf|, |st.pendingFds|, st.incoming, ms, max)
  }

  // ---- One message ----

  lemma FillKeeps(st: State, ms: seq<Message>, max: nat, rest: seq<u8>, restFds: seq<Fd>)
    requires Carries(st, ms, max, rest, restFds) && st.incoming != []
    ensures Fill(st).Ok? && Carries(Fill(st).value, ms, max, rest, restFds)
  {
    hide StreamBytes, StreamFds, AllDeliverable, CoversNow;
    var a := st.incoming[0];
    var later := st.incoming[1..];
    assert (st.readBuf + a.bytes) + AllBytes(later) == st.readBuf + (a.bytes + AllBytes(later));
    assert (st.pendingFds + a.fds) + AllFds(later) == st.pendingFds + (a.fds + AllFds(later));
  }

  /** The frame is at the front of everything that is buffered or still to come. */
  lemma FrameInFront(st: State, ms: seq<Message>, max: nat, rest: seq<u8>, restFds: seq<Fd>)
    requires Carries(st, ms, max, rest, restFds) && ms != []
    ensures Deliverable(ms[0], max)
    ensures var frame := ToBytes(ms[0]).value;
            && 16 <= |frame| <= |st.readBuf + AllBytes(st.incoming)|
            && (st.readBuf + AllBytes(st.incoming))[..|frame|] == frame
            && PeekFrameLen(frame) == Ok(Some(|frame|))
  {
    hide ToBytes, PeekFrameLen, Timely, Sendable, StreamFds, EncAll, FromBytes, Received;
    var frame := ToBytes(ms[0]).value;
    MessageRoundTrip(ms[0]);
    PeekNeedsSixteen(frame);
    StreamSplit(ms, max, rest);
  }

  lemma StreamSplit(ms: seq<Message>, max: nat, rest: seq<u8>)
    requires AllDeliverable(ms, max) && ms != []
    ensures var frame := ToBytes(ms[0]).value;
            var total := StreamBytes(ms, max) + rest;
            |frame| <= |total| && total[..|frame|] == frame && total[|frame|..] == StreamBytes(ms[1..], max) + rest
  {
    hide ToBytes, Sendable;
    var frame := ToBytes(ms[0]).value;
    Associate(frame, StreamBytes(ms[1..], max), rest);
    FrontAndBack(frame, StreamBytes(ms[1..], max) + rest);
  }

  lemma PeekNeedsSixteen(buf: seq<u8>)
    requires PeekFrameLen(buf).Ok? && PeekFrameLen(buf).value.Some?
    ensures |buf| >= 16
  {
  }

  lemma {:induction false} FrameLenKnown(st: State, ms: seq<Message>, max: nat, rest: seq<u8>, restFds: seq<Fd>)
    requires Carries(st, ms, max, rest, restFds) && ms != []
    ensures var r := AwaitFrameLen(st);
            r.Ok? && r.value.0 == |ToBytes(ms[0]).value| && Carries(r.value.1, ms, max, rest, restFds)
    decreases |st.incoming|
  {
    hide ToBytes, PeekFrameLen, Carries, Fill;
    FrameInFront(st, ms, max, rest, restFds);
    var frame := ToBytes(ms[0]).value;
    var total := st.readBuf + AllBytes(st.incoming);
    if |st.readBuf| >= 16 {
      assert st.readBuf[..16] == total[..16] == total[..|frame|][..16] == frame[..16];
      PeekIsLocal(st.readBuf, frame);
    } else {
      PeekShort(st.readBuf);
      assert st.incoming != [];
      FillKeeps(st, ms, max, rest, restFds);
      FrameLenKnown(Fill(st).value, ms, max, rest, restFds);
    }
  }

  lemma PeekShort(buf: seq<u8>)
    requires |buf| < 16
    ensures PeekFrameLen(buf) == Ok(None)
  {
  }

  lemma {:induction false} FrameBuffered(st: State, ms: seq<Message>, max: nat, rest: seq<u8>, restFds: seq<Fd>)
    requires Carries(st, ms, max, rest, restFds) && ms != []
    ensures var r := AwaitBytes(st, |ToBytes(ms[0]).value|);
            r.Ok? && Carries(r.value, ms, max, rest, restFds)
    decreases |st.incoming|
  {
    hide ToBytes, PeekFrameLen, Carries, Fill;
    FrameInFront(st, ms, max, rest, restFds);
    if |st.readBuf| < |ToBytes(ms[0]).value| {
      assert st.incoming != [];
      FillKeeps(st, ms, max, rest, restFds);
      FrameBuffered(Fill(st).value, ms, max, rest, restFds);
    }
  }

  lemma {:induction false} TimelyAfterTake(bytes: nat, fds: nat, incoming: seq<Arrival>, ms: seq<Message>, max: nat)
    requires ms != [] && AllDeliverable(ms, max) && Timely(bytes, fds, incoming, ms, max)
    requires |ToBytes(ms[0]).value| <= bytes && |ms[0].fds| <= fds
    ensures Timely(bytes - |ToBytes(ms[0]).value|, fds - |ms[0].fds|, incoming, ms[1..], max)
    decreases |incoming|
  {
    hide ToBytes, Deliverable;
    if incoming != [] {
      TimelyAfterTake(bytes + |incoming[0].bytes|, fds + |incoming[0].fds|, incoming[1..], ms, max);
    }
  }

  lemma CutFront<T>(a: seq<T>, b: seq<T>, n: nat)
    requires n <= |a|
    ensures a[..n] == (a + b)[..n] && a[n..] + b == (a + b)[n..]
  {
  }

  lemma FdsSplit(ms: seq<Message>, restFds: seq<Fd>)
    requires ms != []
    ensures var all := StreamFds(ms) + restFds;
            && |ms[0].fds| <= |all| && all[..|ms[0].fds|] == ms[0].fds
            && all[|ms[0].fds|..] == StreamFds(ms[1..]) + restFds
  {
    var rest := StreamFds(ms[1..]);
    Associate(ms[0].fds, rest, restFds);
    FrontAndBack(ms[0].fds, rest + restFds);
  }

  lemma Associate<T>(a: seq<T>, b: seq<T>, c: seq<T>)
    ensures a + b + c == a + (b + c)
  {
  }

  lemma FrontAndBack<T>(a: seq<T>, b: seq<T>)
    ensures (a + b)[..|a|] == a && (a + b)[|a|..] == b
  {
  }

  /** Taking a buffered frame yields its message with its own descriptors and leaves the rest. */
  lemma TakeFirst(st: State, ms: seq<Message>, max: nat, rest: seq<u8>, restFds: seq<Fd>)
    requires Carries(st, ms, max, rest, restFds) && ms != [] && |ToBytes(ms[0]).value| <= |st.readBuf|
    ensures EncAll(ms[0].body, 0, ms[0].header.bigEndian).Ok?
    ensures var r := TakeFrame(st, |ToBytes(ms[0]).value|);
            r.Ok? && r.value.0 == Received(ms[0]) && Carries(r.value.1, ms[1..], max, rest, restFds)
  {
    hide ToBytes, PeekFrameLen, FromBytes, Sendable, EncAll, Read, SentFields, StreamFds, AllBytes, AllFds;
    var m := ms[0];
    var n := |ToBytes(m).value|;
    var count := |m.fds|;
    MessageRoundTrip(m);
    DeclaredFds(m);
    TimelyAfterTake(|st.readBuf|, |st.pendingFds|, st.incoming, ms, max);
    CutFront(st.readBuf, AllBytes(st.incoming), n);
    StreamSplit(ms, max, rest);
    CutFront(st.pendingFds, AllFds(st.incoming), count);
    FdsSplit(ms, restFds);
    hide StreamBytes;
  }

  /** The header of a serialised message declares exactly its descriptors. */
  lemma DeclaredFds(m: Message)
    requires Sendable(m) && ToBytes(m).Ok?
    ensures Read(ToBytes(m).value).Ok?
    ensures UnixFdsOf(Read(ToBytes(m).value).value.0.fields) == |m.fds|
  {
    hide ToBytes, Read, EncAll, SentFields, Sendable, ReadBody, UnixFdsOf, BodySignature, SignatureOf, Without, Only;
    MessageRoundTrip(m);
    assert Read(ToBytes(m).value).value.0 == Received(m).header;
    SentFieldsFacts(m);
    FewFds(m);
  }

  lemma FewFds(m: Message)
    requires Sendable(m)
    ensures |m.fds| % 0x1_0000_0000 == |m.fds|
  {
    hide EncAll, FieldsWellFormed;
  }

  /** Of the messages a stream carries, whatever their sizes, the next is returned if and only if its frame is
      within the receiver's limit; otherwise its length is the error. */
  lemma NextIsReceivedExactly(st: State, ms: seq<Message>, max: nat, rest: seq<u8>, restFds: seq<Fd>, limit: nat)
    requires Carries(st, ms, max, rest, restFds) && ms != []
    ensures EncAll(ms[0].body, 0, ms[0].header.bigEndian).Ok?
    ensures var n := |ToBytes(ms[0]).value|;
            if n <= limit
            then Receive(st, limit).Ok? && Receive(st, limit).value.0 == Received(ms[0])
                 && Carries(Receive(st, limit).value.1, ms[1..], max, rest, restFds)
            else Receive(st, limit) == Err(FrameTooLong(n))
  {
    hide ToBytes, PeekFrameLen, FromBytes, Sendable, EncAll, Read, SentFields, AwaitFrameLen, AwaitBytes, TakeFrame,
         Carries, Received;
    FrameLenKnown(st, ms, max, rest, restFds);
    var (n, known) := AwaitFrameLen(st).value;
    FrameBuffered(known, ms, max, rest, restFds);
    TakeFirst(AwaitBytes(known, n).value, ms, max, rest, restFds);
  }

  predicate NoneEmpty(segments: seq<Arrival>) {
    forall i | 0 <= i < |segments| :: segments[i].bytes != []
  }

  /** Sixteen bytes are enough to refuse a frame above the limit: its body is not waited for. */
  lemma {:induction false} RefusedEarly(st: State, n: nat, limit: nat)
    requires NoneEmpty(st.incoming) && n > limit
    requires |st.readBuf + AllBytes(st.incoming)| >= 16
    requires PeekFrameLen(st.readBuf + AllBytes(st.incoming)) == Ok(Some(n))
    ensures Receive(st, limit) == Err(FrameTooLong(n))
    decreases |st.incoming|
  {
    hide PeekFrameLen, AwaitBytes, TakeFrame;
    var total := st.readBuf + AllBytes(st.incoming);
    if |st.readBuf| >= 16 {
      assert total[..16] == st.readBuf[..16];
      PeekIsLocal(st.readBuf, total);
    } else {
      PeekShort(st.readBuf);
      var a, later := st.incoming[0], st.incoming[1..];
      assert a.bytes != [];
      assert (st.readBuf + a.bytes) + AllBytes(later) == total;
      assert forall i | 0 <= i < |later| :: later[i] == st.incoming[i + 1];
      RefusedEarly(Fill(st).value, n, limit);
    }
  }

  /** Whatever is received comes with exactly the descriptors its header declares. */
  lemma ReceivedDeclares(st: State, limit: nat)
    ensures Receive(st, limit).Ok? ==>
              var m := Receive(st, limit).value.0; |m.fds| == UnixFdsOf(m.header.fields)
  {
    hide PeekFrameLen, AwaitFrameLen, AwaitBytes, Read, ReadBody, UnixFdsOf;
  }

  // ---- Whatever a peer sends ----

  /** The bytes that arrive before the peer closes: a receive of none is a closed peer. */
  function Available(incoming: seq<Arrival>): (bytes: seq<u8>) {
    if incoming == [] || incoming[0].bytes == [] then [] else incoming[0].bytes + Available(incoming[1..])
  }

  function Whole(st: State): (bytes: seq<u8>) {
    st.readBuf + Available(st.incoming)
  }

  lemma FillOutcome(st: State)
    ensures match Fill(st)
            case Ok(more) => Whole(more) == Whole(st)
            case Err(e) => e == PeerClosed && Whole(st) == st.readBuf
  {
    if Fill(st).Ok? {
      var a, later := st.incoming[0], st.incoming[1..];
      assert (st.readBuf + a.bytes) + Available(later) == st.readBuf + (a.bytes + Available(later));
    }
  }

  lemma PeekWhole(st: State)
    ensures |st.readBuf| >= 16 ==> PeekFrameLen(st.readBuf) == PeekFrameLen(Whole(st))
  {
    hide PeekFrameLen;
    if |st.readBuf| >= 16 {
      assert Whole(st)[..16] == st.readBuf[..16];
      PeekIsLocal(st.readBuf, Whole(st));
    }
  }

  lemma PeekLong(buf: seq<u8>)
    requires |buf| >= 16
    ensures PeekFrameLen(buf) != Ok(None)
  {
  }

  lemma {:induction false} LengthOutcome(st: State)
    ensures |Whole(st)| < 16 ==> AwaitFrameLen(st) == Err(PeerClosed)
    ensures |Whole(st)| >= 16 ==>
              match PeekFrameLen(Whole(st))
              case Err(e) => AwaitFrameLen(st) == Err(InvalidData(e))
              case Ok(n) => n.Some? && AwaitFrameLen(st).Ok? && AwaitFrameLen(st).value.0 == n.value
                            && Whole(AwaitFrameLen(st).value.1) == Whole(st)
    decreases |st.incoming|
  {
    hide PeekFrameLen, Fill, Whole;
    assert |st.readBuf| <= |Whole(st)| by { ReadIsPart(st); }
    if |st.readBuf| >= 16 {
      PeekWhole(st);
      PeekLong(st.readBuf);
    } else {
      PeekShort(st.readBuf);
      FillOutcome(st);
      if Fill(st).Ok? {
        LengthOutcome(Fill(st).value);
      }
    }
  }

  lemma ReadIsPart(st: State)
    ensures |st.readBuf| <= |Whole(st)|
  {
  }

  lemma {:induction false} BytesOutcome(st: State, n: nat)
    ensures |Whole(st)| < n ==> AwaitBytes(st, n) == Err(PeerClosed)
    ensures |Whole(st)| >= n ==> AwaitBytes(st, n).Ok? && Whole(AwaitBytes(st, n).value) == Whole(st)
    decreases |st.incoming|
  {
    hide Fill, Whole;
    ReadIsPart(st);
    FillOutcome(st);
    if |st.readBuf| < n && Fill(st).Ok? {
      BytesOutcome(Fill(st).value, n);
    }
  }

  lemma TakeOutcome(st: State, n: nat)
    requires n <= |st.readBuf|
    ensures match TakeFrame(st, n)
            case Err(e) => e.InvalidData?
            case Ok((m, after)) => FromBytes(Whole(st)[..n], m.fds) == Ok(m) && Whole(after) == Whole(st)[n..]
  {
    hide Read, ReadBody, UnixFdsOf;
    assert Whole(st)[..n] == st.readBuf[..n];
    assert Whole(st)[n..] == st.readBuf[n..] + Available(st.incoming);
  }

  /** What becomes of any bytes, however they arrive: too few for a frame and the peer has closed, an impossible or too
      long frame is refused, and otherwise the message is what the first frame parses to, if it does. */
  lemma ReceiveOutcome(st: State, limit: nat)
    ensures |Whole(st)| < 16 ==> Receive(st, limit) == Err(PeerClosed)
    ensures |Whole(st)| >= 16 ==>
              match PeekFrameLen(Whole(st))
              case Err(e) => Receive(st, limit) == Err(InvalidData(e))
              case Ok(length) =>
                && length.Some?
                && var n := length.value;
                   if n > limit then Receive(st, limit) == Err(FrameTooLong(n))
                   else if |Whole(st)| < n then Receive(st, limit) == Err(PeerClosed)
                   else
                     match Receive(st, limit)
                     case Err(e) => e.InvalidData?
                     case Ok((m, after)) =>
                       FromBytes(Whole(st)[..n], m.fds) == Ok(m) && Whole(after) == Whole(st)[n..]
  {
    hide PeekFrameLen, AwaitFrameLen, AwaitBytes, TakeFrame, FromBytes, Whole;
    LengthOutcome(st);
    if AwaitFrameLen(st).Ok? {
      var (n, known) := AwaitFrameLen(st).value;
      BytesOutcome(known, n);
      if AwaitBytes(known, n).Ok? {
        TakeOutcome(AwaitBytes(known, n).value, n);
      }
    }
  }

  // ---- All messages ----

  /** Reading as many messages as were sent returns exactly them, each with its own descriptors, and
      leaves what follows untouched, however the stream was cut. */
  lemma {:induction false} FramingIsIndependentOfChunking(
    st: State, ms: seq<Message>, max: nat, rest: seq<u8>, restFds: seq<Fd>)
    requires Carries(st, ms, max, rest, restFds)
    ensures var r := ReceiveAll(st, max, |ms|);
            && r.Ok? && r.value.0 == AsReceived(ms, max)
            && r.value.1.readBuf + AllBytes(r.value.1.incoming) == rest
            && r.value.1.pendingFds + AllFds(r.value.1.incoming) == restFds
    decreases |ms|
  {
    hide ToBytes, PeekFrameLen, FromBytes, Sendable, EncAll, Read, SentFields, AwaitFrameLen, AwaitBytes, TakeFrame;
    if ms == [] {
      assert StreamBytes(ms, max) + rest == rest && StreamFds(ms) + restFds == restFds;
    } else {
      FrameLenKnown(st, ms, max, rest, restFds);
      var (n, known) := AwaitFrameLen(st).value;
      FrameBuffered(known, ms, max, rest, restFds);
      var full := AwaitBytes(known, n).value;
      TakeFirst(full, ms, max, rest, restFds);
      FramingIsIndependentOfChunking(TakeFrame(full, n).value.1, ms[1..], max, rest, restFds);
    }
  }

  // ---- The writer's side ----

  function Flatten(writes: seq<seq<Arrival>>): (arrivals: seq<Arrival>) {
    if writes == [] then [] else writes[0] + Flatten(writes[1..])
  }

  /** Each message was written by one complete write, in order. */
  predicate Written(writes: seq<seq<Arrival>>, ms: seq<Message>, max: nat)
    requires AllDeliverable(ms, max)
    decreases |ms|
  {
    if ms == [] then writes == []
    else
      && writes != []
      && IsWriteOf(writes[0], ToBytes(ms[0]).value, ms[0].fds)
      && Written(writes[1..], ms[1..], max)
  }

  // ---- What arrives of what was written ----

  /** How many descriptors ride on the first n bytes: a segment carries its own on its first byte. */
  function Riding(segments: seq<Arrival>, n: nat): (count: nat) {
    if segments == [] || n == 0 then 0
    else |segments[0].fds| + Riding(segments[1..], if n < |segments[0].bytes| then 0 else n - |segments[0].bytes|)
  }

  /** From here on no arrival is empty, and descriptors are there with the byte they ride on. */
  predicate Carried(bytes: nat, fds: nat, arrivals: seq<Arrival>, segments: seq<Arrival>)
    decreases |arrivals|
  {
    && Riding(segments, bytes) <= fds
    && (arrivals != [] ==>
        && arrivals[0].bytes != []
        && Carried(bytes + |arrivals[0].bytes|, fds + |arrivals[0].fds|, arrivals[1..], segments))
  }

  /** The same two streams, cut anew: segments may be joined or split anywhere. */
  predicate IsRecut(arrivals: seq<Arrival>, segments: seq<Arrival>) {
    && AllBytes(arrivals) == AllBytes(segments)
    && AllFds(arrivals) == AllFds(segments)
    && Carried(0, 0, arrivals, segments)
  }

  lemma {:induction false} RidingFront(front: seq<Arrival>, back: seq<Arrival>, n: nat)
    requires NoneEmpty(front) && |AllBytes(front)| <= n
    ensures Riding(front + back, n) == |AllFds(front)| + Riding(back, n - |AllBytes(front)|)
    decreases |front|
  {
    if front == [] {
      assert front + back == back;
    } else {
      assert front[0].bytes != [];
      assert NoneEmpty(front[1..]) by {
        assert forall i | 0 <= i < |front[1..]| :: front[1..][i] == front[i + 1];
      }
      assert (front + back)[0] == front[0] && (front + back)[1..] == front[1..] + back;
      RidingFront(front[1..], back, n - |front[0].bytes|);
    }
  }

  /** With the last byte of a message its descriptors have arrived. */
  lemma {:induction false} RidingCovers(bytes: nat, fds: nat, writes: seq<seq<Arrival>>, ms: seq<Message>, max: nat)
    requires AllDeliverable(ms, max) && Written(writes, ms, max) && Riding(Flatten(writes), bytes) <= fds
    ensures CoversNow(bytes, fds, ms, max)
    decreases |ms|
  {
    hide ToBytes, Deliverable, Riding, AllBytes, AllFds;
    if ms != [] {
      FirstWrite(writes, ms, max);
      var size := |ToBytes(ms[0]).value|;
      if size <= bytes {
        RidingFront(writes[0], Flatten(writes[1..]), bytes);
        RidingCovers(bytes - size, fds - |ms[0].fds|, writes[1..], ms[1..], max);
      }
    }
  }

  lemma FirstWrite(writes: seq<seq<Arrival>>, ms: seq<Message>, max: nat)
    requires ms != [] && AllDeliverable(ms, max) && Written(writes, ms, max)
    ensures writes != [] && ToBytes(ms[0]).Ok?
    ensures NoneEmpty(writes[0]) && AllBytes(writes[0]) == ToBytes(ms[0]).value && AllFds(writes[0]) == ms[0].fds
  {
    hide ToBytes, Sendable, EncAll;
    NoFds(writes[0][1..]);
    assert ms[0].fds + [] == ms[0].fds;
  }

  /** Any re-cut of complete writes brings descriptors in time. */
  lemma {:induction false} RecutIsTimely(bytes: nat, fds: nat, arrivals: seq<Arrival>, writes: seq<seq<Arrival>>,
                                         ms: seq<Message>, max: nat)
    requires AllDeliverable(ms, max) && Written(writes, ms, max) && Carried(bytes, fds, arrivals, Flatten(writes))
    ensures Timely(bytes, fds, arrivals, ms, max)
    decreases |arrivals|
  {
    hide ToBytes, Deliverable, CoversNow, Written, Riding, Flatten;
    RidingCovers(bytes, fds, writes, ms, max);
    if arrivals != [] {
      RecutIsTimely(bytes + |arrivals[0].bytes|, fds + |arrivals[0].fds|, arrivals[1..], writes, ms, max);
    }
  }

  lemma RidingNothing(segments: seq<Arrival>)
    ensures Riding(segments, 0) == 0
  {
  }

  lemma {:induction false} CarriedAsSent(done: seq<Arrival>, rest: seq<Arrival>)
    requires NoneEmpty(done + rest)
    ensures Carried(|AllBytes(done)|, |AllFds(done)|, rest, done + rest)
    decreases |rest|
  {
    hide Riding, AllBytes, AllFds;
    assert NoneEmpty(done) by {
      assert forall i | 0 <= i < |done| :: done[i] == (done + rest)[i];
    }
    RidingFront(done, rest, |AllBytes(done)|);
    RidingNothing(rest);
    if rest != [] {
      assert rest[0] == (done + rest)[|done|];
      AllBytesAppend(done, rest[0]);
      AllFdsAppend(done, rest[0]);
      assert (done + [rest[0]]) + rest[1..] == done + rest;
      CarriedAsSent(done + [rest[0]], rest[1..]);
    }
  }

  lemma AllFdsAppend(arrivals: seq<Arrival>, last: Arrival)
    ensures AllFds(arrivals + [last]) == AllFds(arrivals) + last.fds
  {
    AllFdsConcat(arrivals, [last]);
    assert [last][1..] == [];
    assert last.fds + [] == last.fds;
  }

  lemma {:induction false} WrittenIsNotEmpty(writes: seq<seq<Arrival>>, ms: seq<Message>, max: nat)
    requires AllDeliverable(ms, max) && Written(writes, ms, max)
    ensures NoneEmpty(Flatten(writes))
    decreases |ms|
  {
    hide ToBytes, Deliverable;
    if ms != [] {
      FirstWrite(writes, ms, max);
      WrittenIsNotEmpty(writes[1..], ms[1..], max);
    }
  }

  /** Receiving the segments as they were sent is one way of cutting them. */
  lemma AsSentIsRecut(segments: seq<Arrival>)
    requires NoneEmpty(segments)
    ensures IsRecut(segments, segments)
  {
    CarriedAsSent([], segments);
    assert [] + segments == segments;
  }

  lemma WritesAreTimely(writes: seq<seq<Arrival>>, ms: seq<Message>, max: nat)
    requires AllDeliverable(ms, max) && Written(writes, ms, max)
    ensures Timely(0, 0, Flatten(writes), ms, max)
  {
    hide ToBytes, Deliverable, Written, Flatten, Carried, AllBytes, AllFds;
    WrittenIsNotEmpty(writes, ms, max);
    AsSentIsRecut(Flatten(writes));
    RecutIsTimely(0, 0, Flatten(writes), writes, ms, max);
  }

  lemma {:induction false} AllBytesConcat(a: seq<Arrival>, b: seq<Arrival>)
    ensures AllBytes(a + b) == AllBytes(a) + AllBytes(b)
  {
    if a == [] {
      assert a + b == b;
    } else {
      assert (a + b)[0] == a[0] && (a + b)[1..] == a[1..] + b;
      AllBytesConcat(a[1..], b);
    }
  }

  lemma {:induction false} AllFdsConcat(a: seq<Arrival>, b: seq<Arrival>)
    ensures AllFds(a + b) == AllFds(a) + AllFds(b)
  {
    if a == [] {
      assert a + b == b;
    } else {
      assert (a + b)[0] == a[0] && (a + b)[1..] == a[1..] + b;
      AllFdsConcat(a[1..], b);
    }
  }

  lemma {:induction false} NoFds(segments: seq<Arrival>)
    requires forall i | 0 <= i < |segments| :: segments[i].fds == []
    ensures AllFds(segments) == []
  {
    if segments != [] {
      NoFds(segments[1..]);
    }
  }

  lemma {:induction false} WritesCarryTheStream(writes: seq<seq<Arrival>>, ms: seq<Message>, max: nat)
    requires AllDeliverable(ms, max) && Written(writes, ms, max)
    ensures AllBytes(Flatten(writes)) == StreamBytes(ms, max) && AllFds(Flatten(writes)) == StreamFds(ms)
    decreases |ms|
  {
    hide ToBytes, Deliverable;
    if ms != [] {
      WritesCarryTheStream(writes[1..], ms[1..], max);
      var segments, later := writes[0], Flatten(writes[1..]);
      FirstWrite(writes, ms, max);
      AllBytesConcat(segments, later);
      AllFdsConcat(segments, later);
      hide AllBytes, AllFds, IsWriteOf;
    }
  }

  /** End to end: messages written one at a time, each in arbitrarily many segments, and received in pieces
      cut anywhere, with descriptors no later than the byte they ride on, arrive as sent, each with its own
      descriptors, and nothing is left over. */
  lemma WriterToReader(arrivals: seq<Arrival>, writes: seq<seq<Arrival>>, ms: seq<Message>, max: nat)
    requires AllDeliverable(ms, max) && Written(writes, ms, max) && IsRecut(arrivals, Flatten(writes))
    ensures var r := ReceiveAll(State([], [], arrivals), max, |ms|);
            && r.Ok? && r.value.0 == AsReceived(ms, max)
            && r.value.1.readBuf + AllBytes(r.value.1.incoming) == []
            && r.value.1.pendingFds + AllFds(r.value.1.incoming) == []
  {
    hide ToBytes, Deliverable, Timely, Written, ReceiveAll, Carried;
    RecutIsTimely(0, 0, arrivals, writes, ms, max);
    WritesCarryTheStream(writes, ms, max);
    var st := State([], [], arrivals);
    assert [] + AllBytes(arrivals) == StreamBytes(ms, max) + [];
    assert [] + AllFds(arrivals) == StreamFds(ms) + [];
    FramingIsIndependentOfChunking(st, ms, max, [], []);
  }
}
