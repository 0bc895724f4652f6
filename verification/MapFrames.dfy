/** Map responses on the wire: four little-endian size octets, then the payload. */
module MapFrames {
  import opened Common
  import opened Wire

  const MAX_MAP_RESPONSE := 4 * 1024 * 1024

  // ----- whole buffers -----

  function Encode(payload: Bytes): Bytes {
    Le(|payload|, 4) + payload
  }

  /** The complete frames at the front of a buffer. */
  function Decode(buf: Bytes): seq<Bytes>
    decreases |buf|
  {
    if |buf| < 4 then []
    else
      var size := FromLe(buf[..4]);
      if 4 + size > |buf| then [] else [buf[4..4 + size]] + Decode(buf[4 + size..])
  }

  method DecodeMapFrames(buf: Bytes) returns (frames: seq<Bytes>)
    ensures frames == Decode(buf)
  {
    frames := [];
    var pos := 0;
    while pos + 4 <= |buf|
      invariant 0 <= pos <= |buf|
      invariant Decode(buf) == frames + Decode(buf[pos..])
    {
      var size := FromLe(buf[pos..pos + 4]);
      assert buf[pos..][..4] == buf[pos..pos + 4];
      pos := pos + 4;
      if pos + size > |buf| {
        return;
      }
      assert buf[pos - 4..][4..4 + size] == buf[pos..pos + size];
      assert buf[pos - 4..][4 + size..] == buf[pos + size..];
      frames := frames + [buf[pos..pos + size]];
      pos := pos + size;
    }
  }

  function EncodeAll(payloads: seq<Bytes>): Bytes {
    if payloads == [] then [] else Encode(payloads[0]) + EncodeAll(payloads[1..])
  }

  /** A frame on the wire: four size octets, the least significant first, and the payload. */
  lemma FrameOctets(payload: Bytes)
    ensures var n := |payload|;
            Encode(payload) == [n % 256, n / 256 % 256, n / 65536 % 256, n / 16777216 % 256] + payload
  {
    var n := |payload|;
    LeOctet(n, 4, 0);
    LeOctet(n, 4, 1);
    LeOctet(n, 4, 2);
    LeOctet(n, 4, 3);
    WidthBounds();
    assert Pow256(0) == 1 && Pow256(3) == 16777216;
    assert Le(n, 4) == [n % 256, n / 256 % 256, n / 65536 % 256, n / 16777216 % 256];
  }

  lemma DecodeOne(payload: Bytes, rest: Bytes)
    requires |payload| < Pow256(4)
    ensures Decode(Encode(payload) + rest) == [payload] + Decode(rest)
  {
    var buf := Encode(payload) + rest;
    LeRoundTrip(|payload|, 4);
    assert buf[..4] == Le(|payload|, 4);
    assert buf[4..4 + |payload|] == payload;
    assert buf[4 + |payload|..] == rest;
  }

  /** A payload too long for the size field never comes back: the size is taken modulo two to the 32. */
  lemma DecodeOversized(payload: Bytes, rest: Bytes)
    requires |payload| >= Pow256(4)
    ensures var frames := Decode(Encode(payload) + rest); frames == [] || |frames[0]| < |payload|
  {
    var buf := Encode(payload) + rest;
    LeRoundTrip(|payload|, 4);
    assert buf[..4] == Le(|payload|, 4);
    assert FromLe(buf[..4]) < Pow256(4);
  }

  /** Decoding the concatenated encodings returns the payload list exactly when every length fits the size field. */
  lemma {:induction false} EncodeDecode(payloads: seq<Bytes>)
    ensures Decode(EncodeAll(payloads)) == payloads <==> forall p | p in payloads :: |p| < Pow256(4)
  {
    if payloads != [] {
      var rest := EncodeAll(payloads[1..]);
      assert payloads == [payloads[0]] + payloads[1..];
      if |payloads[0]| < Pow256(4) {
        DecodeOne(payloads[0], rest);
        EncodeDecode(payloads[1..]);
        assert Decode(EncodeAll(payloads))[1..] == Decode(rest);
      } else {
        DecodeOversized(payloads[0], rest);
      }
    }
  }

  // ----- the incremental reader -----

  /** What the reader hands on: a forwarded response, or the reason it stopped. */
  datatype Event = Forwarded(payload: Bytes) | TooLarge | BadPayload | StreamFailed

  /** The outside world: which payloads parse, whether the receiver takes the n-th one, and how the stream ends. */
  datatype World = World(parses: Bytes -> bool, accepts: nat -> bool, failsAtEnd: bool)

  function AtEnd(w: World): seq<Event> {
    if w.failsAtEnd then [StreamFailed] else []
  }

  /** What the reader does on a whole stream, after `n` responses were forwarded. */
  function Events(w: World, stream: Bytes, n: nat): seq<Event>
    decreases |stream|
  {
    if |stream| < 4 then AtEnd(w)
    else
      var size := FromLe(stream[..4]);
      if size > MAX_MAP_RESPONSE then [TooLarge]
      else if 4 + size > |stream| then AtEnd(w)
      else
        var payload := stream[4..4 + size];
        if !w.parses(payload) then [BadPayload]
        else if !w.accepts(n) then []
        else [Forwarded(payload)] + Events(w, stream[4 + size..], n + 1)
  }

  /** Takes chunks until the buffer holds `want` octets or the stream ends. */
  method Fill(buf: Bytes, chunks: seq<Bytes>, next: nat, want: nat) returns (buf': Bytes, next': nat)
    requires next <= |chunks|
    ensures next <= next' <= |chunks|
    ensures buf' + Concat(chunks[next'..]) == buf + Concat(chunks[next..])
    ensures |buf'| >= want || (next' == |chunks| && buf' == buf + Concat(chunks[next..]))
  {
    buf', next' := buf, next;
    while |buf'| < want && next' < |chunks|
      invariant next <= next' <= |chunks|
      invariant buf' + Concat(chunks[next'..]) == buf + Concat(chunks[next..])
    {
      assert chunks[next'..][1..] == chunks[next' + 1..];
      assert (buf' + chunks[next']) + Concat(chunks[next' + 1..]) == buf' + Concat(chunks[next'..]);
      buf' := buf' + chunks[next'];
      next' := next' + 1;
    }
    if next' == |chunks| {
      assert chunks[next'..] == [];
      assert buf' + [] == buf';
    }
  }

  lemma Ahead(buf: Bytes, rest: Bytes, n: nat)
    requires n <= |buf|
    ensures (buf + rest)[..n] == buf[..n] && (buf + rest)[n..] == buf[n..] + rest
  {
  }

  lemma Later(s: Bytes, m: nat, n: nat)
    requires m + n <= |s|
    ensures s[m..m + n] == s[m..][..n] && s[m + n..] == s[m..][n..]
  {
  }

  /** The buffered reader: whatever the chunks, it does what `Events` says of their concatenation. */
  method StreamMap(w: World, chunks: seq<Bytes>) returns (events: seq<Event>)
    ensures events == Events(w, Concat(chunks), 0)
  {
    hide Concat, FromLe, AtEnd;
    var buf: Bytes := [];
    var next := 0;
    var n := 0;
    events := [];
    assert chunks[0..] == chunks && buf + Concat(chunks) == Concat(chunks);
    while true
      invariant 0 <= next <= |chunks|
      invariant Events(w, Concat(chunks), 0) == events + Events(w, buf + Concat(chunks[next..]), n)
      decreases |buf| + |Concat(chunks[next..])|
    {
      ghost var stream := buf + Concat(chunks[next..]);
      buf, next := Fill(buf, chunks, next, 4);
      if |buf| < 4 {
        events := events + AtEnd(w);
        return;
      }
      Ahead(buf, Concat(chunks[next..]), 4);
      var size := FromLe(buf[..4]);
      buf := buf[4..];
      if size > MAX_MAP_RESPONSE {
        events := events + [TooLarge];
        return;
      }
      buf, next := Fill(buf, chunks, next, size);
      if |buf| < size {
        events := events + AtEnd(w);
        return;
      }
      Ahead(buf, Concat(chunks[next..]), size);
      Later(stream, 4, size);
      var payload := buf[..size];
      buf := buf[size..];
      if !w.parses(payload) {
        events := events + [BadPayload];
        return;
      }
      if !w.accepts(n) {
        return;
      }
      events := events + [Forwarded(payload)];
      n := n + 1;
    }
  }

  /** The payloads forwarded. */
  function Payloads(events: seq<Event>): seq<Bytes> {
    if events == [] then []
    else (if events[0].Forwarded? then [events[0].payload] else []) + Payloads(events[1..])
  }

  /** Every frame is within the size limit, parses, and finds the receiver open. */
  predicate AllWelcome(w: World, frames: seq<Bytes>, n: nat) {
    frames == [] || (|frames[0]| <= MAX_MAP_RESPONSE && w.parses(frames[0]) && w.accepts(n)
      && AllWelcome(w, frames[1..], n + 1))
  }

  /** The events of forwarding these payloads. */
  function AllForwarded(payloads: seq<Bytes>): seq<Event> {
    seq(|payloads|, i requires 0 <= i < |payloads| => Forwarded(payloads[i]))
  }

  /** Frame number `n` is within four mebibytes, parses, and finds the receiver open. */
  predicate Welcome(w: World, payload: Bytes, n: nat) {
    |payload| <= 4194304 && w.parses(payload) && w.accepts(n)
  }

  /** The start of a frame, cut off before its end. */
  predicate CutOff(tail: Bytes) {
    |tail| < 4 || (FromLe(tail[..4]) <= 4194304 && |tail| < 4 + FromLe(tail[..4]))
  }

  /**
    What the reader does on frames, the first `k` of them welcome. It forwards those; then it reports the
    stream's failure or nothing if the stream ends there, and otherwise what is wrong with the next frame: too
    large, or unparsable, or nothing when only the receiver is gone.
   */
  lemma {:induction false} EventsExactly(w: World, payloads: seq<Bytes>, k: nat, tail: Bytes, n: nat)
    requires k <= |payloads| && forall i | 0 <= i < k :: Welcome(w, payloads[i], n + i)
    requires k < |payloads| ==> !Welcome(w, payloads[k], n + k) && |payloads[k]| < 4294967296
    requires k == |payloads| ==> CutOff(tail)
    ensures Events(w, EncodeAll(payloads) + tail, n) == AllForwarded(payloads[..k]) + (
              if k == |payloads| then if w.failsAtEnd then [StreamFailed] else []
              else if |payloads[k]| > 4194304 then [TooLarge]
              else if !w.parses(payloads[k]) then [BadPayload]
              else [])
    decreases k
  {
    hide Events, Encode, AllForwarded, CutOff;
    assert payloads != [] ==>
        EncodeAll(payloads) + tail == Encode(payloads[0]) + (EncodeAll(payloads[1..]) + tail);
    if k == 0 {
      assert AllForwarded(payloads[..0]) == [] by { NoneForwarded(payloads[..0]); }
      if payloads == [] {
        assert EncodeAll(payloads) + tail == tail;
        CutOffEnds(w, tail, n);
      } else {
        OneEvent(w, payloads[0], EncodeAll(payloads[1..]) + tail, n);
      }
    } else {
      var rest := payloads[1..];
      assert Welcome(w, payloads[0], n + 0);
      OneEvent(w, payloads[0], EncodeAll(rest) + tail, n);
      forall i | 0 <= i < k - 1 ensures Welcome(w, rest[i], n + 1 + i) {
        assert Welcome(w, payloads[i + 1], n + (i + 1));
      }
      EventsExactly(w, rest, k - 1, tail, n + 1);
      OneMoreForwarded(payloads, k);
    }
  }

  lemma NoneForwarded(payloads: seq<Bytes>)
    requires payloads == []
    ensures AllForwarded(payloads) == []
  {
  }

  lemma OneMoreForwarded(payloads: seq<Bytes>, k: nat)
    requires 0 < k <= |payloads|
    ensures AllForwarded(payloads[..k]) == [Forwarded(payloads[0])] + AllForwarded(payloads[1..][..k - 1])
  {
  }

  lemma CutOffEnds(w: World, tail: Bytes, n: nat)
    requires CutOff(tail)
    ensures Events(w, tail, n) == if w.failsAtEnd then [StreamFailed] else []
  {
  }

  lemma OneEvent(w: World, payload: Bytes, rest: Bytes, n: nat)
    requires |payload| < 4294967296
    ensures Events(w, Encode(payload) + rest, n) ==
            if |payload| > MAX_MAP_RESPONSE then [TooLarge]
            else if !w.parses(payload) then [BadPayload]
            else if !w.accepts(n) then []
            else [Forwarded(payload)] + Events(w, rest, n + 1)
  {
    var stream := Encode(payload) + rest;
    LeRoundTrip(|payload|, 4);
    WidthBounds();
    assert stream[..4] == Le(|payload|, 4);
    assert stream[4..4 + |payload|] == payload;
    assert stream[4 + |payload|..] == rest;
  }

  lemma EndForwardsNothing(w: World)
    ensures Payloads(AtEnd(w)) == [] && Payloads([TooLarge]) == [] && Payloads([BadPayload]) == []
  {
    assert [StreamFailed][1..] == [] && [TooLarge][1..] == [] && [BadPayload][1..] == [];
  }

  /**
    The incremental reader never forwards anything but the frames of the whole stream, in order, and
    it forwards all of them exactly when each is within the limit, parses, and finds the receiver open.
   */
  lemma {:induction false} ReaderIsDecoder(w: World, stream: Bytes, n: nat)
    ensures Payloads(Events(w, stream, n)) <= Decode(stream)
    ensures Payloads(Events(w, stream, n)) == Decode(stream) <==> AllWelcome(w, Decode(stream), n)
    decreases |stream|
  {
    EndForwardsNothing(w);
    if |stream| >= 4 {
      var size := FromLe(stream[..4]);
      if 4 + size <= |stream| {
        var payload := stream[4..4 + size];
        var rest := stream[4 + size..];
        assert Decode(stream) == [payload] + Decode(rest) && Decode(stream)[1..] == Decode(rest);
        if size <= MAX_MAP_RESPONSE && w.parses(payload) && w.accepts(n) {
          ReaderIsDecoder(w, rest, n + 1);
          var events := Events(w, rest, n + 1);
          assert ([Forwarded(payload)] + events)[1..] == events;
          assert Payloads(Events(w, stream, n)) == [payload] + Payloads(events);
        }
      }
    }
  }
}
