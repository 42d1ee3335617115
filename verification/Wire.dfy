/**
 Two ends of a connection: concurrent `writePayload` calls behind the write mutex, the byte stream
 between them, and the `data` handler behind the read mutex. Events may interleave in any way.
 */
module Wire {
  import opened Prelude
  import opened Framing
  import M = AsyncMutexes

  /** A payload after MessagePack encoding; None when `encode` throws. */
  type Payload = Option<Bytes>

  datatype Link = Link(
    writer: M.History<Payload>,
    wire: Bytes,
    delivered: nat,
    reader: M.History<Bytes>,
    decoder: Decoder,
    dispatched: seq<Bytes>
  )

  datatype Event =
    | Write(payload: Payload)  // a call of writePayload
    | WriteDone                // the socket acknowledged the write under way, or its task threw
    | Deliver(n: nat)          // TCP hands over the next n bytes as one chunk
    | ReadDone                 // the promise of the handler under way settled

  const START := Link(M.Empty(), [], 0, M.Empty(), BOUNDARY, [])

  /** The messages that reach the socket: an encoding error or a body of 2^32 bytes or more rejects without writing. */
  function Sent(payloads: seq<Payload>): (bodies: seq<Bytes>)
    ensures forall b <- bodies :: Framable(b)
  {
    if payloads == [] then [] else SentOne(payloads[0]) + Sent(payloads[1..])
  }

  function SentOne(payload: Payload): (bodies: seq<Bytes>)
    ensures forall b <- bodies :: Framable(b)
  {
    if payload.Some? && Framable(payload.value) then [payload.value] else []
  }

  /** The write mutex makes a step; a task that starts writes its whole frame to the socket. */
  function WriterStep(link: Link, step: M.Step<Payload>): Link {
    var writer := M.Next(link.writer, step);
    var begun := writer.started[|link.writer.started|..];
    link.(writer := writer, wire := link.wire + Encode(Sent(begun)))
  }

  /** The read mutex makes a step; a task that starts decodes its chunk. */
  function ReaderStep(link: Link, step: M.Step<Bytes>): Link
    requires Valid(link.decoder)
  {
    var reader := M.Next(link.reader, step);
    var begun := reader.started[|link.reader.started|..];
    var (decoder, dispatched) := Feed(link.decoder, link.dispatched, Flatten(begun));
    link.(reader := reader, decoder := decoder, dispatched := dispatched)
  }

  function Next(link: Link, event: Event): Link
    requires Valid(link.decoder)
  {
    match event
    case Write(payload) => WriterStep(link, M.Call(payload))
    case WriteDone => WriterStep(link, M.Finish)
    case ReadDone => ReaderStep(link, M.Finish)
    case Deliver(n) =>
      if link.delivered + n <= |link.wire| then
        ReaderStep(link.(delivered := link.delivered + n),
                   M.Call(link.wire[link.delivered..link.delivered + n]))
      else link
  }

  function Replay(link: Link, events: seq<Event>): (done: Link)
    requires Valid(link.decoder)
    ensures Valid(done.decoder)
    decreases |events|
  {
    if events == [] then link else Replay(Next(link, events[0]), events[1..])
  }

  ghost predicate Inv(link: Link) {
    && M.Fifo(link.writer)
    && M.Fifo(link.reader)
    && link.wire == Encode(Sent(link.writer.started))
    && link.delivered <= |link.wire|
    && Flatten(link.reader.called) == link.wire[..link.delivered]
    && (link.decoder, link.dispatched) == Feed(BOUNDARY, [], Flatten(link.reader.started))
  }

  lemma {:induction false} SentConcat(a: seq<Payload>, b: seq<Payload>)
    ensures Sent(a + b) == Sent(a) + Sent(b)
  {
    if a == [] {
      assert a + b == b;
    } else {
      SentConcat(a[1..], b);
      ConcatHead(a, b);
      ConcatAssociates(SentOne(a[0]), Sent(a[1..]), Sent(b));
    }
  }

  lemma SentPrefix(a: seq<Payload>, b: seq<Payload>)
    requires a <= b
    ensures Sent(a) <= Sent(b)
  {
    SentConcat(a, b[|a|..]);
    assert b == a + b[|a|..];
  }

  /** The frames of the writes that start now continue the frames of all writes started before. */
  lemma {:induction false} WritingContinues(started: seq<Payload>, begun: seq<Payload>)
    ensures Encode(Sent(started + begun)) == Encode(Sent(started)) + Encode(Sent(begun))
  {
    SentConcat(started, begun);
    EncodeConcat(Sent(started), Sent(begun));
  }

  lemma WriterStepKeepsInv(link: Link, step: M.Step<Payload>)
    requires Inv(link)
    ensures Inv(WriterStep(link, step))
  {
    M.NextKeepsFifo(link.writer, step);
    var writer := M.Next(link.writer, step);
    var begun := writer.started[|link.writer.started|..];
    assert writer.started == link.writer.started + begun;
    WritingContinues(link.writer.started, begun);
    var after := WriterStep(link, step);
    assert after.wire[..link.delivered] == link.wire[..link.delivered];
  }

  /** Decoding the chunks that start now continues the decoding of all chunks started before. */
  lemma DecodingContinues(link: Link, step: M.Step<Bytes>)
    requires M.Fifo(link.reader)
    requires (link.decoder, link.dispatched) == Feed(BOUNDARY, [], Flatten(link.reader.started))
    ensures var after := ReaderStep(link, step);
            && M.Fifo(after.reader)
            && (after.decoder, after.dispatched) == Feed(BOUNDARY, [], Flatten(after.reader.started))
  {
    M.NextKeepsFifo(link.reader, step);
    var reader := M.Next(link.reader, step);
    var begun := reader.started[|link.reader.started|..];
    assert reader.started == link.reader.started + begun;
    FlattenConcat(link.reader.started, begun);
    FeedConcat(BOUNDARY, [], Flatten(link.reader.started), Flatten(begun));
  }

  lemma DeliverKeepsInv(link: Link, chunk: Bytes)
    requires Inv(link) && link.delivered + |chunk| <= |link.wire|
    requires chunk == link.wire[link.delivered..link.delivered + |chunk|]
    ensures Inv(ReaderStep(link.(delivered := link.delivered + |chunk|), M.Call(chunk)))
  {
    DecodingContinues(link.(delivered := link.delivered + |chunk|), M.Call(chunk));
    FlattenAppend(link.reader.called, chunk);
    SliceAppends(link.wire, link.delivered, chunk);
  }

  lemma SliceAppends(wire: Bytes, from: nat, chunk: Bytes)
    requires from + |chunk| <= |wire| && chunk == wire[from..from + |chunk|]
    ensures wire[..from] + chunk == wire[..from + |chunk|]
  {
  }

  lemma ReadDoneKeepsInv(link: Link)
    requires Inv(link)
    ensures Inv(ReaderStep(link, M.Finish))
  {
    DecodingContinues(link, M.Finish);
  }

  lemma ChunkKeepsInv(link: Link, n: nat)
    requires Inv(link)
    ensures Inv(Next(link, Deliver(n)))
  {
    if link.delivered + n <= |link.wire| {
      DeliverKeepsInv(link, link.wire[link.delivered..link.delivered + n]);
    }
  }

  lemma NextKeepsInv(link: Link, event: Event)
    requires Inv(link)
    ensures Inv(Next(link, event))
  {
    match event
    case Write(payload) => WriterStepKeepsInv(link, M.Call(payload));
    case WriteDone => WriterStepKeepsInv(link, M.Finish);
    case ReadDone => ReadDoneKeepsInv(link);
    case Deliver(n) => ChunkKeepsInv(link, n);
  }

  lemma {:induction false} ReplayKeepsInv(link: Link, events: seq<Event>)
    requires Inv(link)
    ensures Inv(Replay(link, events))
    decreases |events|
  {
    if events != [] {
      NextKeepsInv(link, events[0]);
      ReplayKeepsInv(Next(link, events[0]), events[1..]);
    }
  }

  /** No write under way or waiting, every byte delivered, no chunk under way or waiting. */
  predicate Quiet(link: Link) {
    && !link.writer.mutex.busy
    && link.delivered == |link.wire|
    && !link.reader.mutex.busy
  }

  /**
   End to end, in every run: what the receiver dispatched is a prefix of what was sent, in the order of the
   writePayload calls; and once the link is quiet it is all of it (but an empty body at the very end).
   */
  lemma {:induction false} EndToEnd(events: seq<Event>)
    ensures var link := Replay(START, events);
            var sent := Sent(link.writer.called);
            && link.dispatched <= sent
            && (Quiet(link) ==> AllDelivered(link, sent))
  {
    StartKeepsInv();
    ReplayKeepsInv(START, events);
    var link := Replay(START, events);
    DeliveredPrefix(link);
    SentPrefix(link.writer.started, link.writer.called);
    if Quiet(link) {
      QuietMeansDelivered(link);
    }
  }

  /** A payload that reaches the socket: its encoding worked and its length fits the prefix. */
  predicate Writable(payload: Payload) {
    payload.Some? && |payload.value| < 0x1_0000_0000
  }

  /** What is sent are the writable payloads, all of them, each once and in the order of the calls. */
  lemma {:induction false} SentInCallOrder(payloads: seq<Payload>) returns (at: seq<nat>)
    ensures |at| == |Sent(payloads)|
    ensures forall k | 0 <= k < |at| :: at[k] < |payloads| && payloads[at[k]] == Some(Sent(payloads)[k])
    ensures forall j, k | 0 <= j < k < |at| :: at[j] < at[k]
    ensures forall i | 0 <= i < |payloads| :: i in at <==> Writable(payloads[i])
    decreases |payloads|
  {
    if payloads == [] {
      at := [];
    } else {
      var n := |payloads| - 1;
      var init, last := payloads[..n], payloads[n];
      var before := SentInCallOrder(init);
      assert payloads == init + [last];
      SentConcat(init, [last]);
      assert Sent([last]) == SentOne(last) + Sent([]);
      at := before + (if Writable(last) then [n] else []);
    }
  }

  /** When every payload is writable, they are sent as they were called. */
  lemma {:induction false} AllWritableAllSent(payloads: seq<Payload>)
    requires forall p <- payloads :: Writable(p)
    ensures |Sent(payloads)| == |payloads|
    ensures forall i | 0 <= i < |payloads| :: Some(Sent(payloads)[i]) == payloads[i]
  {
    if payloads != [] {
      assert payloads[0] in payloads && forall p <- payloads[1..] :: p in payloads;
      AllWritableAllSent(payloads[1..]);
    }
  }

  /**
   End to end, told from the calls alone: on a quiet link exactly the writable payloads have been dispatched, in the
   order of their calls, save for an empty one at the very end.
   */
  lemma CallsArrive(events: seq<Event>) returns (at: seq<nat>)
    ensures var link := Replay(START, events);
            var called := link.writer.called;
            && (forall k | 0 <= k < |at| :: at[k] < |called|)
            && (forall j, k | 0 <= j < k < |at| :: at[j] < at[k])
            && (forall i | 0 <= i < |called| :: i in at <==> Writable(called[i]))
            && |link.dispatched| <= |at|
            && (forall k | 0 <= k < |link.dispatched| :: called[at[k]] == Some(link.dispatched[k]))
            && (Quiet(link) ==>
                  || |link.dispatched| == |at|
                  || (|link.dispatched| == |at| - 1 && called[at[|at| - 1]] == Some([])))
  {
    EndToEnd(events);
    at := SentInCallOrder(Replay(START, events).writer.called);
  }

  /** When all calls are writable, a quiet link has dispatched the list of their payloads. */
  lemma {:induction false} WritableCallsArrive(events: seq<Event>)
    requires forall p <- Replay(START, events).writer.called :: Writable(p)
    requires Quiet(Replay(START, events))
    ensures var link := Replay(START, events);
            var called := link.writer.called;
            && (if called != [] && called[|called| - 1] == Some([]) then |link.dispatched| == |called| - 1
                else |link.dispatched| == |called|)
            && (forall i | 0 <= i < |link.dispatched| :: called[i] == Some(link.dispatched[i]))
  {
    EndToEnd(events);
    AllWritableAllSent(Replay(START, events).writer.called);
  }

  predicate AllDelivered(link: Link, sent: seq<Bytes>) {
    if EndsEmpty(sent) then link.dispatched == sent[..|sent| - 1] && Withheld(link.decoder)
    else link.dispatched == sent && link.decoder == BOUNDARY
  }

  lemma StartKeepsInv()
    ensures Inv(START)
  {
  }

  lemma QuietMeansDelivered(link: Link)
    requires Inv(link) && Quiet(link)
    ensures AllDelivered(link, Sent(link.writer.called))
  {
    var sent := Sent(link.writer.called);
    assert link.writer.started == link.writer.called;
    assert link.reader.started == link.reader.called;
    assert link.wire[..link.delivered] == link.wire;
    RoundTrip([], sent);
    assert [] + sent == sent;
    if EndsEmpty(sent) {
      assert [] + sent[..|sent| - 1] == sent[..|sent| - 1];
    }
  }

  lemma DeliveredPrefix(link: Link)
    requires Inv(link)
    ensures link.dispatched <= Sent(link.writer.started)
  {
    var got, all := Flatten(link.reader.started), Flatten(link.reader.called);
    var waiting := link.reader.called[|link.reader.started|..];
    assert link.reader.called == link.reader.started + waiting;
    FlattenConcat(link.reader.started, waiting);
    assert got <= all;
    PartialDelivery(Sent(link.writer.started), got);
  }

  // ---------------------------------------------------------------- progress

  /** Replaying is compositional, so a continuation can be built piece by piece. */
  lemma {:induction false} ReplayConcat(link: Link, a: seq<Event>, b: seq<Event>)
    requires Valid(link.decoder)
    ensures Replay(link, a + b) == Replay(Replay(link, a), b)
    decreases |a|
  {
    if a == [] {
      assert a + b == b;
    } else {
      ReplayConcat(Next(link, a[0]), a[1..], b);
      ConcatHead(a, b);
    }
  }

  /** Letting the writes finish starts and finishes every call made so far. */
  lemma {:induction false} FinishWrites(link: Link) returns (events: seq<Event>)
    requires Inv(link)
    ensures var done := Replay(link, events);
            Inv(done) && !done.writer.mutex.busy && done.writer.called == link.writer.called
    decreases |link.writer.called| - link.writer.settled
  {
    if link.writer.mutex.busy {
      NextKeepsInv(link, WriteDone);
      var more := FinishWrites(Next(link, WriteDone));
      events := [WriteDone] + more;
    } else {
      events := [];
    }
  }

  lemma {:induction false} FinishReads(link: Link) returns (events: seq<Event>)
    requires Inv(link)
    ensures var done := Replay(link, events);
            && Inv(done) && !done.reader.mutex.busy
            && done.(reader := link.reader, decoder := link.decoder, dispatched := link.dispatched) == link
    decreases |link.reader.called| - link.reader.settled
  {
    if link.reader.mutex.busy {
      NextKeepsInv(link, ReadDone);
      var more := FinishReads(Next(link, ReadDone));
      events := [ReadDone] + more;
    } else {
      events := [];
    }
  }

  /** From every reachable state a continuation without calls makes the link quiet: nothing is stuck behind a mutex. */
  lemma CanBecomeQuiet(link: Link) returns (events: seq<Event>)
    requires Inv(link)
    ensures var done := Replay(link, events);
            Inv(done) && Quiet(done) && done.writer.called == link.writer.called
  {
    var writes := FinishWrites(link);
    var written := Replay(link, writes);
    var deliver := Deliver(|written.wire| - written.delivered);
    NextKeepsInv(written, deliver);
    var delivered := Next(written, deliver);
    var readings := FinishReads(delivered);
    events := writes + ([deliver] + readings);
    ReplayConcat(link, writes, [deliver] + readings);
    assert ([deliver] + readings)[1..] == readings;
    assert Replay(written, [deliver] + readings) == Replay(delivered, readings);
  }
}
