/**
 The wire format of an Engine5 connection: each message is a four byte big-endian length followed by
 that many bytes, and the receiver decodes whatever chunks TCP happens to deliver.
 */
module Framing {
  import opened Prelude

  type Byte = b: int | 0 <= b < 256
  type Bytes = seq<Byte>

  const MAX_FRAME := 0x1_0000_0000

  /** `Buffer.writeUInt32BE`, which throws a RangeError from 2^32 on. */
  function WriteUInt32BE(n: nat): (b: Bytes)
    requires n < MAX_FRAME
    ensures |b| == 4
  {
    [n / 0x100_0000, n / 0x1_0000 % 0x100, n / 0x100 % 0x100, n % 0x100]
  }

  function ReadUInt32BE(b: Bytes): nat
    requires |b| == 4
  {
    ((b[0] as int * 0x100 + b[1]) * 0x100 + b[2]) * 0x100 + b[3]
  }

  lemma ReadAfterWrite(n: nat)
    requires n < MAX_FRAME
    ensures ReadUInt32BE(WriteUInt32BE(n)) == n
  {
    assert n / 0x1_0000 == n / 0x100 / 0x100;
    assert n / 0x100_0000 == n / 0x1_0000 / 0x100;
  }

  lemma WriteAfterRead(b: Bytes)
    requires |b| == 4
    ensures ReadUInt32BE(b) < MAX_FRAME && WriteUInt32BE(ReadUInt32BE(b)) == b
  {
    var hi: int := b[0] as int * 0x100 + b[1];
    var mid: int := hi * 0x100 + b[2];
    assert mid / 0x100 == hi && hi / 0x100 == b[0];
    var n := ReadUInt32BE(b);
    assert n / 0x100 == mid && n / 0x1_0000 == hi && n / 0x100_0000 == b[0];
    assert n == mid * 0x100 + b[3];
    assert WriteUInt32BE(n)[0] == b[0] && WriteUInt32BE(n)[1] == b[1];
    assert WriteUInt32BE(n)[2] == b[2] && WriteUInt32BE(n)[3] == b[3];
  }

  predicate Framable(body: Bytes) {
    |body| < MAX_FRAME
  }

  /** The bytes `writePayload` hands to the socket for one encoded payload. */
  function Frame(body: Bytes): (f: Bytes)
    requires Framable(body)
  {
    WriteUInt32BE(|body|) + body
  }

  function Encode(bodies: seq<Bytes>): Bytes
    requires forall b <- bodies :: Framable(b)
  {
    if bodies == [] then [] else Frame(bodies[0]) + Encode(bodies[1..])
  }

  lemma {:induction false} EncodeConcat(a: seq<Bytes>, b: seq<Bytes>)
    requires forall x <- a :: Framable(x)
    requires forall x <- b :: Framable(x)
    ensures forall x <- a + b :: Framable(x)
    ensures Encode(a + b) == Encode(a) + Encode(b)
  {
    if a == [] {
      assert a + b == b;
    } else {
      EncodeConcat(a[1..], b);
      ConcatHead(a, b);
      ConcatAssociates(Frame(a[0]), Encode(a[1..]), Encode(b));
    }
  }

  // ---------------------------------------------------------------- reference decoder

  /** The three variables the `data` handler keeps between chunks. */
  datatype Decoder = Decoder(sizeBytes: Bytes, currentBuff: Bytes, incomingLength: nat)

  const BOUNDARY := Decoder([], [], 0)

  ghost predicate Valid(d: Decoder) {
    && |d.sizeBytes| <= 4
    && (|d.sizeBytes| < 4 ==> d.currentBuff == [] && d.incomingLength == 0)
    && (|d.sizeBytes| == 4 ==>
          && d.incomingLength == ReadUInt32BE(d.sizeBytes)
          && (|d.currentBuff| < d.incomingLength || d.incomingLength == |d.currentBuff| == 0))
  }

  /** A complete header announcing an empty body: nothing is left to read, yet nothing was dispatched. */
  predicate Withheld(d: Decoder) {
    |d.sizeBytes| == 4 && d.incomingLength == 0
  }

  /** Decoding one byte at a time: the new state and the bodies dispatched. */
  function Step(d: Decoder, b: Byte): (Decoder, seq<Bytes>)
    requires Valid(d)
  {
    if |d.sizeBytes| < 4 then
      var size := d.sizeBytes + [b];
      (Decoder(size, [], if |size| == 4 then ReadUInt32BE(size) else 0), [])
    else if d.incomingLength == 0 then
      (Decoder([b], [], 0), [[]])
    else
      var buff := d.currentBuff + [b];
      if |buff| == d.incomingLength then (BOUNDARY, [buff]) else (d.(currentBuff := buff), [])
  }

  function Feed(d: Decoder, out: seq<Bytes>, bytes: Bytes): (r: (Decoder, seq<Bytes>))
    requires Valid(d)
    ensures Valid(r.0)
    decreases |bytes|
  {
    if bytes == [] then (d, out) else
      var (next, bodies) := Step(d, bytes[0]);
      Feed(next, out + bodies, bytes[1..])
  }

  /** Chunk independence: where a stream is cut makes no difference, from any decoder state and for any bytes. */
  lemma {:induction false} FeedConcat(d: Decoder, out: seq<Bytes>, a: Bytes, b: Bytes)
    requires Valid(d)
    ensures var (mid, sofar) := Feed(d, out, a);
            Feed(d, out, a + b) == Feed(mid, sofar, b)
    decreases |a|
  {
    if a == [] {
      assert a + b == b;
    } else {
      var (next, bodies) := Step(d, a[0]);
      FeedConcat(next, out + bodies, a[1..], b);
      assert (a + b)[0] == a[0] && (a + b)[1..] == a[1..] + b;
    }
  }

  /** Bodies only ever get appended: what was dispatched earlier stays. */
  lemma {:induction false} FeedAppends(d: Decoder, out: seq<Bytes>, bytes: Bytes)
    requires Valid(d)
    ensures out <= Feed(d, out, bytes).1
    decreases |bytes|
  {
    if bytes != [] {
      var (next, bodies) := Step(d, bytes[0]);
      FeedAppends(next, out + bodies, bytes[1..]);
      assert out <= out + bodies;
    }
  }

  /** The bytes received for the message under way. */
  function Residual(d: Decoder): Bytes {
    d.sizeBytes + d.currentBuff
  }

  /** Conservation: re-encoding what was dispatched and adding what is still buffered gives back the stream. */
  lemma {:induction false} Conservation(d: Decoder, out: seq<Bytes>, bytes: Bytes)
    requires Valid(d) && forall x <- out :: Framable(x)
    ensures var (d', out') := Feed(d, out, bytes);
            && (forall x <- out' :: Framable(x))
            && Encode(out') + Residual(d') == Encode(out) + Residual(d) + bytes
    decreases |bytes|
  {
    if bytes == [] {
    } else {
      var (next, bodies) := Step(d, bytes[0]);
      StepConserves(d, bytes[0]);
      EncodeConcat(out, bodies);
      Conservation(next, out + bodies, bytes[1..]);
      Regroup(Encode(out), Encode(bodies), Residual(next), Residual(d), bytes);
    }
  }

  lemma Regroup(a: Bytes, b: Bytes, c: Bytes, d: Bytes, bytes: Bytes)
    requires bytes != [] && b + c == d + [bytes[0]]
    ensures a + b + c + bytes[1..] == a + d + bytes
  {
    assert a + b + c == a + (b + c);
    assert a + (d + [bytes[0]]) == a + d + [bytes[0]];
    assert bytes == [bytes[0]] + bytes[1..];
  }

  lemma StepConserves(d: Decoder, b: Byte)
    requires Valid(d)
    ensures var (next, bodies) := Step(d, b);
            && (forall x <- bodies :: Framable(x))
            && Encode(bodies) + Residual(next) == Residual(d) + [b]
  {
    var (next, bodies) := Step(d, b);
    if bodies != [] {
      WriteAfterRead(d.sizeBytes);
      assert bodies[1..] == [];
      assert Encode(bodies) == Frame(bodies[0]);
    }
  }

  /** Reading part of a body that stays incomplete, or completing it. */
  lemma {:induction false} FeedBody(d: Decoder, out: seq<Bytes>, part: Bytes)
    requires Valid(d) && |d.sizeBytes| == 4
    requires 0 < |part| <= d.incomingLength - |d.currentBuff|
    ensures Feed(d, out, part) ==
            if |d.currentBuff + part| == d.incomingLength then (BOUNDARY, out + [d.currentBuff + part])
            else (d.(currentBuff := d.currentBuff + part), out)
    decreases |part|
  {
    var (next, bodies) := Step(d, part[0]);
    assert part == [part[0]] + part[1..];
    assert d.currentBuff + part == d.currentBuff + [part[0]] + part[1..];
    if |part| > 1 {
      assert out + bodies == out;
      FeedBody(next, out, part[1..]);
    } else {
      assert part[1..] == [];
      assert d.currentBuff + part == d.currentBuff + [part[0]];
      assert out + [] == out;
    }
  }

  lemma FeedHeader(out: seq<Bytes>, n: nat)
    requires n < MAX_FRAME
    ensures Feed(BOUNDARY, out, WriteUInt32BE(n)) == (Decoder(WriteUInt32BE(n), [], n), out)
  {
    var h := WriteUInt32BE(n);
    ReadAfterWrite(n);
    var d1 := Decoder(h[..1], [], 0);
    var d2 := Decoder(h[..2], [], 0);
    var d3 := Decoder(h[..3], [], 0);
    var d4 := Decoder(h, [], n);
    assert out + [] == out;
    assert Step(BOUNDARY, h[0]) == (d1, []) by { assert [] + [h[0]] == h[..1]; }
    assert Step(d1, h[1]) == (d2, []) by { assert h[..1] + [h[1]] == h[..2]; }
    assert Step(d2, h[2]) == (d3, []) by { assert h[..2] + [h[2]] == h[..3]; }
    assert Step(d3, h[3]) == (d4, []) by { assert h[..3] + [h[3]] == h; }
    assert Feed(d4, out, h[4..]) == (d4, out);
    assert h[3..][1..] == h[4..] && h[3..][0] == h[3];
    assert Feed(d3, out, h[3..]) == (d4, out);
    assert h[2..][1..] == h[3..] && h[2..][0] == h[2];
    assert Feed(d2, out, h[2..]) == (d4, out);
    assert h[1..][1..] == h[2..] && h[1..][0] == h[1];
    assert Feed(d1, out, h[1..]) == (d4, out);
  }

  /** One whole frame: a body with content is dispatched at once, an empty one only by the next byte. */
  lemma FeedFrame(out: seq<Bytes>, body: Bytes)
    requires Framable(body)
    ensures Feed(BOUNDARY, out, Frame(body)) ==
            if body == [] then (Decoder(WriteUInt32BE(0), [], 0), out) else (BOUNDARY, out + [body])
  {
    var h := WriteUInt32BE(|body|);
    FeedHeader(out, |body|);
    FeedConcat(BOUNDARY, out, h, body);
    ReadAfterWrite(|body|);
    if body != [] {
      FeedBody(Decoder(h, [], |body|), out, body);
      assert [] + body == body;
    }
  }

  /** A withheld empty message is dispatched by whatever byte comes next, which then starts the next header. */
  lemma WithheldThenMore(d: Decoder, out: seq<Bytes>, more: Bytes)
    requires Valid(d) && Withheld(d) && more != []
    ensures Feed(d, out, more) == Feed(BOUNDARY, out + [[]], more)
  {
    assert Step(BOUNDARY, more[0]) == (Decoder([more[0]], [], 0), []) by {
      assert [] + [more[0]] == [more[0]];
    }
    assert out + [[]] + [] == out + [[]];
  }

  predicate EndsEmpty(bodies: seq<Bytes>) {
    bodies != [] && bodies[|bodies| - 1] == []
  }

  /**
   Round trip: feeding the encoding of any messages gives back exactly those messages, in order, and ends at a
   frame boundary; except that an empty message at the very end is still withheld.
   */
  lemma {:induction false} RoundTrip(out: seq<Bytes>, bodies: seq<Bytes>)
    requires forall b <- bodies :: Framable(b)
    ensures Feed(BOUNDARY, out, Encode(bodies)) ==
            if EndsEmpty(bodies) then (Decoder(WriteUInt32BE(0), [], 0), out + bodies[..|bodies| - 1])
            else (BOUNDARY, out + bodies)
    decreases |bodies|
  {
    if bodies == [] {
      assert out + [] == out;
    } else {
      var body, rest := bodies[0], bodies[1..];
      FeedFrame(out, body);
      FeedConcat(BOUNDARY, out, Frame(body), Encode(rest));
      RoundTrip(out + [body], rest);
      assert out + [body] + rest == out + bodies;
      if rest == [] {
        assert bodies == [body];
        assert out + bodies[..0] == out;
      } else {
        assert rest[|rest| - 1] == bodies[|bodies| - 1];
        assert out + [body] + rest[..|rest| - 1] == out + bodies[..|bodies| - 1];
        if body == [] {
          ReadAfterWrite(0);
          WithheldThenMore(Decoder(WriteUInt32BE(0), [], 0), out, Encode(rest));
        }
      }
    }
  }

  /** Every message arrives without further traffic exactly when the last one is not empty. */
  lemma DeliveredIffLastNotEmpty(bodies: seq<Bytes>)
    requires forall b <- bodies :: Framable(b)
    ensures Feed(BOUNDARY, [], Encode(bodies)) == (BOUNDARY, bodies) <==> !EndsEmpty(bodies)
  {
    RoundTrip([], bodies);
    assert [] + bodies == bodies;
  }

  /** A prefix of the stream yields a prefix of the messages: nothing is dispatched early, twice or out of order. */
  lemma PartialDelivery(bodies: seq<Bytes>, received: Bytes)
    requires forall b <- bodies :: Framable(b)
    requires received <= Encode(bodies)
    ensures Feed(BOUNDARY, [], received).1 <= bodies
  {
    var all := Encode(bodies);
    var rest := all[|received|..];
    assert all == received + rest;
    FeedConcat(BOUNDARY, [], received, rest);
    var (mid, sofar) := Feed(BOUNDARY, [], received);
    FeedAppends(mid, sofar, rest);
    RoundTrip([], bodies);
    assert [] + bodies == bodies;
  }

  /** What one iteration of the body branch does to the rest of the decoding. */
  lemma ReadPart(d: Decoder, out: seq<Bytes>, input: Bytes, n: nat)
    requires Valid(d) && |d.sizeBytes| == 4 && input != []
    requires n == Min(d.incomingLength - |d.currentBuff|, |input|)
    ensures var buff := d.currentBuff + input[..n];
            Feed(d, out, input) ==
            if |buff| == d.incomingLength then Feed(BOUNDARY, out + [buff], input[n..])
            else Feed(d.(currentBuff := buff), out, input[n..])
  {
    assert input == input[..n] + input[n..];
    if n > 0 {
      FeedBody(d, out, input[..n]);
      FeedConcat(d, out, input[..n], input[n..]);
    } else {
      assert d.currentBuff + input[..0] == [] && input[0..] == input;
      WithheldThenMore(d, out, input);
    }
  }

  // ---------------------------------------------------------------- the data handler

  /** The closure state of `registerEvents`, with the messages handed to `processIncomingData`. */
  class FrameReader {
    var sizeBytes: Bytes
    var currentBuff: Bytes
    var incomingLength: nat
    var dispatched: seq<Bytes>

    function View(): Decoder
      reads this
    {
      Decoder(sizeBytes, currentBuff, incomingLength)
    }

    constructor ()
      ensures View() == BOUNDARY && dispatched == []
    {
      sizeBytes, currentBuff, incomingLength, dispatched := [], [], 0, [];
    }

    /**
     One `data` event. An iteration that completes an empty message consumes no input; what decreases then
     is the header it discards.
     */
    method OnData(data: Bytes)
      requires Valid(View())
      modifies this
      ensures Valid(View())
      ensures (View(), dispatched) == Feed(old(View()), old(dispatched), data)
    {
      var offset := 0;
      assert data[0..] == data;
      while offset < |data|
        invariant 0 <= offset <= |data|
        invariant Valid(View())
        invariant Feed(View(), dispatched, data[offset..]) == Feed(old(View()), old(dispatched), data)
        decreases |data| - offset, |sizeBytes|
      {
        ghost var before, out := View(), dispatched;
        if |sizeBytes| < 4 {
          sizeBytes := sizeBytes + [data[offset]];
          if |sizeBytes| == 4 {
            incomingLength := ReadUInt32BE(sizeBytes);
          }
          assert Step(before, data[offset]) == (View(), []);
          assert data[offset..][1..] == data[offset + 1..];
          assert out + [] == out;
          offset := offset + 1;
          continue;
        }
        var bytesNeeded := incomingLength - |currentBuff|;
        var bytesAvailable := |data| - offset;
        var bytesToRead := Min(bytesNeeded, bytesAvailable);
        ghost var input := data[offset..];
        ReadPart(before, out, input, bytesToRead);
        currentBuff := currentBuff + data[offset..offset + bytesToRead];
        assert data[offset..offset + bytesToRead] == input[..bytesToRead];
        offset := offset + bytesToRead;
        assert data[offset..] == input[bytesToRead..];
        if |currentBuff| == incomingLength {
          dispatched := dispatched + [currentBuff];
          sizeBytes, currentBuff, incomingLength := [], [], 0;
        }
      }
      assert data[offset..] == [];
    }
  }
}
