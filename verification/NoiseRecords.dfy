/** Transport records after the handshake: chunking, nonces, sealing and framing. */
module NoiseRecords {
  import opened Common
  import opened Wire
  import opened NoiseCrypto

  const MSG_TYPE_RECORD: byte := 4
  const HEADER_LEN := 3
  const MAX_MESSAGE_SIZE := 4096
  const MAX_CIPHERTEXT_SIZE := 4093
  const MAX_PLAINTEXT_SIZE := 4077

  /** The counter value that is never used: all 64 bits set. */
  const INVALID_NONCE := 18446744073709551615

  datatype RecordError = CipherExhausted | DecryptError | WrongType | FrameTooLarge | EndOfStream

  // ----- nonces -----

  /** Four zero octets and the counter, big-endian. */
  function NonceOf(n: nat): (r: Bytes)
    ensures |r| == NONCE_LEN
  {
    [0, 0, 0, 0] + Be(n, 8)
  }

  /** The nonce, octet by octet: four zeros, then the counter with its most significant octet first. */
  lemma NonceOctet(n: nat, i: nat)
    requires i < 12
    ensures NonceOf(n)[i] == if i < 4 then 0 else n / Pow256(11 - i) % 256
  {
    if i >= 4 { BeOctet(n, 8, i - 4); }
  }

  /** Different counters below two to the 64 give different nonces. */
  lemma NonceInjective(m: nat, n: nat)
    requires m < Pow256(8) && n < Pow256(8) && NonceOf(m) == NonceOf(n)
    ensures m == n
  {
    assert NonceOf(m)[4..] == Be(m, 8) && NonceOf(n)[4..] == Be(n, 8);
    BeRoundTrip(m, 8);
    BeRoundTrip(n, 8);
  }

  lemma FourZeros()
    ensures FromBe([0, 0, 0, 0]) == 0
  {
    var a: Bytes, b: Bytes, c: Bytes, d: Bytes := [0], [0, 0], [0, 0, 0], [0, 0, 0, 0];
    assert a[..0] == [] && FromBe(a) == 0;
    assert b[..1] == a && FromBe(b) == 0;
    assert c[..2] == b && FromBe(c) == 0;
    assert d[..3] == c;
  }

  // ----- one direction of the connection -----

  /** Consecutive nonces from the first. */
  ghost predicate InOrder(nonces: seq<Bytes>) {
    forall i | 0 <= i < |nonces| :: nonces[i] == NonceOf(i)
  }

  /** A cipher key with its twelve-octet incrementing nonce. */
  class CipherState {
    const key: Bytes
    var nonce: Bytes

    /** The nonces under which this key has sealed or opened, in order. */
    ghost var spent: seq<Bytes>

    /** The counter the nonce stands for. */
    ghost function Counter(): nat
      reads this
    {
      if |nonce| == NONCE_LEN then FromBe(nonce[4..]) else 0
    }

    ghost predicate Valid()
      reads this
    {
      Counter() <= INVALID_NONCE && nonce == NonceOf(Counter()) && InOrder(spent) && |spent| == Counter()
    }

    constructor (key: Bytes)
      ensures this.key == key && Valid() && Counter() == 0
    {
      this.key := key;
      nonce := NonceOf(0);
      spent := [];
      new;
      AtCounter(0);
    }

    /** No nonce is used twice, whatever calls are made before the counter runs out. */
    lemma NoncesDistinct(i: nat, j: nat)
      requires Valid() && i < j < |spent|
      ensures spent[i] != spent[j]
    {
      WidthBounds();
      if spent[i] == spent[j] { NonceInjective(i, j); }
    }

    lemma CounterBound()
      requires Valid()
      ensures Counter() <= INVALID_NONCE
    {
    }

    lemma AtCounter(n: nat)
      requires n <= INVALID_NONCE && nonce == NonceOf(n) && InOrder(spent) && |spent| == n
      ensures Counter() == n && Valid()
    {
      assert nonce[4..] == Be(n, 8);
      BeRoundTrip(n, 8);
      WidthBounds();
    }

    /** The nonce may still be used. */
    predicate NonceValid()
      requires |nonce| == NONCE_LEN
      reads this
    {
      FromBe(nonce[0..4]) == 0 && FromBe(nonce[4..]) != INVALID_NONCE
    }

    lemma NonceValidMeans()
      requires Valid()
      ensures NonceValid() <==> Counter() < INVALID_NONCE
    {
      assert nonce[0..4] == [0, 0, 0, 0];
      FourZeros();
    }

    method Increment()
      requires Valid() && Counter() < INVALID_NONCE
      modifies this
      ensures Valid() && Counter() == old(Counter()) + 1 && spent == old(spent) + [NonceOf(old(Counter()))]
    {
      var counter := FromBe(nonce[4..]) + 1;
      spent := spent + [nonce];
      nonce := nonce[..4] + Be(counter, 8);
      assert nonce == NonceOf(counter);
      AtCounter(counter);
    }

    method Encrypt(c: Crypto, plaintext: Bytes) returns (r: Result<Bytes, RecordError>)
      requires Valid()
      modifies this
      ensures Valid()
      ensures r == if old(Counter()) == INVALID_NONCE then Err(CipherExhausted)
                   else Ok(c.seal(key, NonceOf(old(Counter())), [], plaintext))
      ensures spent == old(spent) + if r.Ok? then [NonceOf(old(Counter()))] else []
      ensures Counter() == old(Counter()) + if r.Ok? then 1 else 0
    {
      NonceValidMeans();
      if !NonceValid() {
        return Err(CipherExhausted);
      }
      var ct := c.seal(key, nonce, [], plaintext);
      Increment();
      r := Ok(ct);
    }

    method Decrypt(c: Crypto, ciphertext: Bytes) returns (r: Result<Bytes, RecordError>)
      requires Valid()
      modifies this
      ensures Valid()
      ensures r == Opened(c, key, old(Counter()), ciphertext)
      ensures spent == old(spent) + if r.Ok? then [NonceOf(old(Counter()))] else []
      ensures Counter() == old(Counter()) + if r.Ok? then 1 else 0
    {
      NonceValidMeans();
      if !NonceValid() {
        return Err(CipherExhausted);
      }
      var pt := c.open(key, nonce, [], ciphertext);
      if pt.None? {
        return Err(DecryptError);
      }
      Increment();
      r := Ok(pt.value);
    }
  }

  function Opened(c: Crypto, key: Bytes, n: nat, ct: Bytes): Result<Bytes, RecordError> {
    if n >= INVALID_NONCE then Err(CipherExhausted)
    else match c.open(key, NonceOf(n), [], ct)
         case None => Err(DecryptError)
         case Some(pt) => Ok(pt)
  }

  // ----- frames -----

  /** A plaintext cut into pieces that fit a record. */
  function Chunks(plaintext: Bytes): seq<Bytes>
    decreases |plaintext|
  {
    if plaintext == [] then []
    else
      var k := Min(|plaintext|, MAX_PLAINTEXT_SIZE);
      [plaintext[..k]] + Chunks(plaintext[k..])
  }

  function FrameOf(ct: Bytes): Bytes {
    [MSG_TYPE_RECORD] + Be(|ct|, 2) + ct
  }

  /** The frames of consecutive chunks, the first sealed under counter `n`. */
  function Frames(c: Crypto, key: Bytes, n: nat, chunks: seq<Bytes>): seq<Bytes>
    decreases |chunks|
  {
    if chunks == [] then []
    else [FrameOf(c.seal(key, NonceOf(n), [], chunks[0]))] + Frames(c, key, n + 1, chunks[1..])
  }

  lemma {:induction false} ChunksProperties(plaintext: Bytes)
    ensures Concat(Chunks(plaintext)) == plaintext
    ensures forall k | k in Chunks(plaintext) :: 0 < |k| <= MAX_PLAINTEXT_SIZE
    decreases |plaintext|
  {
    if plaintext != [] {
      var k := Min(|plaintext|, MAX_PLAINTEXT_SIZE);
      ChunksProperties(plaintext[k..]);
      assert Chunks(plaintext)[1..] == Chunks(plaintext[k..]);
      assert plaintext == plaintext[..k] + plaintext[k..];
    }
  }

  /** Every chunk but the last is as long as a record allows. */
  lemma {:induction false} ChunksFull(plaintext: Bytes, i: nat)
    requires i + 1 < |Chunks(plaintext)|
    ensures |Chunks(plaintext)[i]| == 4077
    decreases |plaintext|
  {
    var k := Min(|plaintext|, MAX_PLAINTEXT_SIZE);
    assert Chunks(plaintext) == [plaintext[..k]] + Chunks(plaintext[k..]);
    if i > 0 { ChunksFull(plaintext[k..], i - 1); }
  }

  /** A record on the wire: type 4, the length of the ciphertext, the ciphertext. */
  lemma FrameOctets(ct: Bytes)
    ensures FrameOf(ct) == [4, |ct| / 256 % 256, |ct| % 256] + ct
  {
    TwoOctets(|ct|);
  }

  /** Frames of chunks that fit never exceed the message size. */
  lemma {:induction false} FramesFit(c: Crypto, key: Bytes, n: nat, chunks: seq<Bytes>)
    requires Lawful(c) && forall k | k in chunks :: |k| <= MAX_PLAINTEXT_SIZE
    ensures |Frames(c, key, n, chunks)| == |chunks|
    ensures forall f | f in Frames(c, key, n, chunks) :: |f| <= MAX_MESSAGE_SIZE
    decreases |chunks|
  {
    if chunks != [] {
      assert chunks[0] in chunks;
      forall k | k in chunks[1..] ensures |k| <= MAX_PLAINTEXT_SIZE { assert k in chunks; }
      FramesFit(c, key, n + 1, chunks[1..]);
    }
  }

  lemma NoFrames(c: Crypto, key: Bytes, n: nat)
    ensures Frames(c, key, n, []) == []
  {
  }

  lemma {:induction false} FramesAppend(c: Crypto, key: Bytes, n: nat, a: seq<Bytes>, b: seq<Bytes>)
    ensures Frames(c, key, n, a + b) == Frames(c, key, n, a) + Frames(c, key, n + |a|, b)
    decreases |a|
  {
    hide FrameOf, NonceOf;
    if a == [] {
      assert a + b == b;
    } else {
      assert (a + b)[1..] == a[1..] + b;
      FramesAppend(c, key, n + 1, a[1..], b);
    }
  }

  /**
    Writes one plaintext as records. It succeeds exactly when enough counter values are left, and
    what it has written is the frames of the chunks it got to, under consecutive counters.
   */
  method WriteRecord(tx: CipherState, c: Crypto, plaintext: Bytes) returns (ok: bool, written: Bytes, ghost sent: nat)
    requires Lawful(c) && tx.Valid()
    modifies tx
    ensures tx.Valid() && sent <= |Chunks(plaintext)| && tx.Counter() == old(tx.Counter()) + sent
    ensures written == Concat(Frames(c, tx.key, old(tx.Counter()), Chunks(plaintext)[..sent]))
    ensures ok <==> old(tx.Counter()) + |Chunks(plaintext)| <= INVALID_NONCE
    ensures ok ==> sent == |Chunks(plaintext)|
    ensures !ok ==> tx.Counter() == INVALID_NONCE
  {
    hide Lawful, Frames, FrameOf, NonceOf, CipherState.Valid, CipherState.Counter;
    tx.CounterBound();
    NoFrames(c, tx.key, tx.Counter());
    ghost var all := Chunks(plaintext);
    var rest := plaintext;
    written, sent := [], 0;
    while rest != []
      invariant tx.Valid() && sent <= |all| && tx.Counter() == old(tx.Counter()) + sent
      invariant Chunks(rest) == all[sent..]
      invariant written == Concat(Frames(c, tx.key, old(tx.Counter()), all[..sent]))
      decreases |rest|
    {
      var k := Min(|rest|, MAX_PLAINTEXT_SIZE);
      var chunk := rest[..k];
      assert Chunks(rest)[0] == chunk && Chunks(rest)[1..] == Chunks(rest[k..]);
      assert all[sent..][0] == all[sent] && all[sent..][1..] == all[sent + 1..];
      var ct := tx.Encrypt(c, chunk);
      if ct.Err? {
        assert tx.Counter() == INVALID_NONCE by { tx.CounterBound(); }
        return false, written, sent;
      }
      assert all[..sent + 1] == all[..sent] + [chunk];
      OneFrameMore(c, tx.key, old(tx.Counter()), all[..sent], chunk);
      written := written + FrameOf(ct.value);
      sent := sent + 1;
      rest := rest[k..];
    }
    assert all[..sent] == all;
    tx.CounterBound();
    ok := true;
  }

  lemma OneFrameMore(c: Crypto, key: Bytes, n: nat, chunks: seq<Bytes>, chunk: Bytes)
    ensures Concat(Frames(c, key, n, chunks + [chunk])) ==
            Concat(Frames(c, key, n, chunks)) + FrameOf(c.seal(key, NonceOf(n + |chunks|), [], chunk))
  {
    FramesAppend(c, key, n, chunks, [chunk]);
    var last := FrameOf(c.seal(key, NonceOf(n + |chunks|), [], chunk));
    assert Frames(c, key, n + |chunks|, [chunk]) == [last] by { assert [chunk][1..] == []; }
    ConcatAppend(Frames(c, key, n, chunks), [last]);
    assert Concat([last]) == last by {
      var none: seq<Bytes> := [];
      assert [last][1..] == none && Concat(none) == [] && last + [] == last;
    }
  }

  // ----- reading -----

  /** One record off the front of a stream. */
  function ReadRecord(c: Crypto, key: Bytes, n: nat, stream: Bytes): Result<(Bytes, Bytes), RecordError> {
    if |stream| < HEADER_LEN then Err(EndOfStream)
    else if stream[0] != MSG_TYPE_RECORD then Err(WrongType)
    else
      var len := FromBe(stream[1..3]);
      if len > MAX_CIPHERTEXT_SIZE then Err(FrameTooLarge)
      else if |stream| < HEADER_LEN + len then Err(EndOfStream)
      else match Opened(c, key, n, stream[3..3 + len])
           case Err(e) => Err(e)
           case Ok(pt) => Ok((pt, stream[3 + len..]))
  }

  /** When a record is read, and which one; when none is, why. */
  lemma ReadsExactly(c: Crypto, key: Bytes, n: nat, stream: Bytes)
    requires |stream| >= 3
    ensures var len := 256 * (stream[1] as int) + stream[2];
            var r := ReadRecord(c, key, n, stream);
            && (r == Err(WrongType) <==> stream[0] != 4)
            && (r == Err(FrameTooLarge) <==> stream[0] == 4 && len > 4093)
            && (r == Err(EndOfStream) <==> stream[0] == 4 && len <= 4093 && |stream| < 3 + len)
            && (r == Err(CipherExhausted) <==>
                stream[0] == 4 && len <= 4093 && |stream| >= 3 + len && n >= 18446744073709551615)
            && (r.Ok? <==>
                && stream[0] == 4 && len <= 4093 && |stream| >= 3 + len && n < 18446744073709551615
                && c.open(key, NonceOf(n), [], stream[3..3 + len]).Some?)
            && (r.Ok? ==> r.value == (c.open(key, NonceOf(n), [], stream[3..3 + len]).value, stream[3 + len..]))
  {
    hide NonceOf, FromBe;
    FromTwoOctets(stream[1..3]);
  }

  /** Everything the read pump passes on before it stops, and the counter it stops at. */
  function Pump(c: Crypto, key: Bytes, n: nat, stream: Bytes): (Bytes, nat)
    decreases |stream|
  {
    match ReadRecord(c, key, n, stream)
    case Err(_) => ([], n)
    case Ok((pt, rest)) =>
      var (more, n') := Pump(c, key, n + 1, rest);
      (pt + more, n')
  }

  /** The read pump: read, check, decrypt and pass on, until anything is wrong. */
  method ReadPump(rx: CipherState, c: Crypto, stream: Bytes) returns (plain: Bytes)
    requires rx.Valid()
    modifies rx
    ensures rx.Valid() && (plain, rx.Counter()) == Pump(c, rx.key, old(rx.Counter()), stream)
  {
    hide Opened, NonceOf, CipherState.Valid, CipherState.Counter;
    plain := [];
    var rest := stream;
    while true
      invariant rx.Valid()
      invariant Pump(c, rx.key, old(rx.Counter()), stream).0 == plain + Pump(c, rx.key, rx.Counter(), rest).0
      invariant Pump(c, rx.key, old(rx.Counter()), stream).1 == Pump(c, rx.key, rx.Counter(), rest).1
      decreases |rest|
    {
      assert plain + [] == plain;
      if |rest| < HEADER_LEN {
        return;
      }
      if rest[0] != MSG_TYPE_RECORD {
        return;
      }
      var len := FromBe(rest[1..3]);
      if len > MAX_CIPHERTEXT_SIZE {
        return;
      }
      if |rest| < HEADER_LEN + len {
        return;
      }
      var pt := rx.Decrypt(c, rest[3..3 + len]);
      if pt.Err? {
        return;
      }
      assert plain + (pt.value + Pump(c, rx.key, rx.Counter(), rest[3 + len..]).0) ==
             (plain + pt.value) + Pump(c, rx.key, rx.Counter(), rest[3 + len..]).0;
      plain := plain + pt.value;
      rest := rest[3 + len..];
    }
  }

  // ----- fidelity -----

  lemma ReadsOneFrame(c: Crypto, key: Bytes, n: nat, chunk: Bytes, rest: Bytes)
    requires Lawful(c) && |chunk| <= MAX_PLAINTEXT_SIZE && n < INVALID_NONCE
    ensures ReadRecord(c, key, n, FrameOf(c.seal(key, NonceOf(n), [], chunk)) + rest) == Ok((chunk, rest))
  {
    hide Lawful, NonceOf, FrameOf, FromBe;
    var ct := c.seal(key, NonceOf(n), [], chunk);
    SealLaws(c, key, n, chunk);
    FrameSlices(ct, rest);
  }

  lemma SealLaws(c: Crypto, key: Bytes, n: nat, chunk: Bytes)
    requires Lawful(c) && n < INVALID_NONCE
    ensures var ct := c.seal(key, NonceOf(n), [], chunk);
            |ct| == |chunk| + TAG_LEN && Opened(c, key, n, ct) == Ok(chunk)
  {
    hide NonceOf;
  }

  lemma FrameSlices(ct: Bytes, rest: Bytes)
    requires |ct| < 65536
    ensures var stream := FrameOf(ct) + rest;
            && |stream| == HEADER_LEN + |ct| + |rest| && stream[0] == MSG_TYPE_RECORD && FromBe(stream[1..3]) == |ct|
            && stream[3..3 + |ct|] == ct && stream[3 + |ct|..] == rest
  {
    hide Be, FromBe;
    var stream := FrameOf(ct) + rest;
    BeRoundTrip(|ct|, 2);
    WidthBounds();
    assert stream[1..3] == Be(|ct|, 2);
  }

  lemma NothingToRead(c: Crypto, key: Bytes, n: nat)
    ensures ReadRecord(c, key, n, []) == Err(EndOfStream)
  {
  }

  /**
    Frames followed by anything that is not a record at its place: the pump passes on exactly the chunks, stops
    there and has advanced its counter once for each.
   */
  lemma {:induction false} PumpsUntil(c: Crypto, key: Bytes, n: nat, chunks: seq<Bytes>, junk: Bytes)
    requires Lawful(c) && n + |chunks| <= INVALID_NONCE
    requires forall k | k in chunks :: |k| <= MAX_PLAINTEXT_SIZE
    requires ReadRecord(c, key, n + |chunks|, junk).Err?
    ensures Pump(c, key, n, Concat(Frames(c, key, n, chunks)) + junk) == (Concat(chunks), n + |chunks|)
    decreases |chunks|
  {
    hide Lawful, NonceOf, FrameOf, ReadRecord;
    if chunks == [] {
      assert Concat(Frames(c, key, n, chunks)) + junk == junk;
    } else {
      assert chunks[0] in chunks;
      forall k | k in chunks[1..] ensures |k| <= MAX_PLAINTEXT_SIZE { assert k in chunks; }
      PumpsUntil(c, key, n + 1, chunks[1..], junk);
      var rest := Concat(Frames(c, key, n + 1, chunks[1..]));
      ReadsOneFrame(c, key, n, chunks[0], rest + junk);
      var frame := FrameOf(c.seal(key, NonceOf(n), [], chunks[0]));
      assert Frames(c, key, n, chunks)[1..] == Frames(c, key, n + 1, chunks[1..]);
      assert Concat(Frames(c, key, n, chunks)) + junk == frame + (rest + junk);
    }
  }

  lemma PumpsFrames(c: Crypto, key: Bytes, n: nat, chunks: seq<Bytes>)
    requires Lawful(c) && n + |chunks| <= INVALID_NONCE
    requires forall k | k in chunks :: |k| <= MAX_PLAINTEXT_SIZE
    ensures Pump(c, key, n, Concat(Frames(c, key, n, chunks))) == (Concat(chunks), n + |chunks|)
  {
    hide Lawful, Frames, Pump;
    NothingToRead(c, key, n + |chunks|);
    PumpsUntil(c, key, n, chunks, []);
    var stream := Concat(Frames(c, key, n, chunks));
    assert stream + [] == stream;
  }

  /** All chunks of a list of writes, in order. */
  function AllChunks(writes: seq<Bytes>): seq<Bytes> {
    if writes == [] then [] else Chunks(writes[0]) + AllChunks(writes[1..])
  }

  lemma {:induction false} AllChunksProperties(writes: seq<Bytes>)
    ensures Concat(AllChunks(writes)) == Concat(writes)
    ensures forall k | k in AllChunks(writes) :: 0 < |k| <= MAX_PLAINTEXT_SIZE
  {
    if writes != [] {
      AllChunksProperties(writes[1..]);
      ChunksProperties(writes[0]);
      ConcatAppend(Chunks(writes[0]), AllChunks(writes[1..]));
    }
  }

  /** How many of so many chunks the counters from `n` on suffice for. */
  function Sendable(n: nat, chunks: nat): (r: nat)
    requires n <= INVALID_NONCE
    ensures r <= chunks && n + r <= INVALID_NONCE && (r < chunks ==> n + r == INVALID_NONCE)
  {
    Min(chunks, INVALID_NONCE - n)
  }

  /**
    Several writes in a row, until one fails: what is on the stream then is the frames of all chunks that
    could be sent.
   */
  method WriteAll(tx: CipherState, c: Crypto, writes: seq<Bytes>) returns (ok: bool, stream: Bytes)
    requires Lawful(c) && tx.Valid()
    modifies tx
    ensures tx.Valid() && old(tx.Counter()) <= INVALID_NONCE
    ensures var all := AllChunks(writes);
            var sent := Sendable(old(tx.Counter()), |all|);
            && (ok <==> sent == |all|) && tx.Counter() == old(tx.Counter()) + sent
            && stream == Concat(Frames(c, tx.key, old(tx.Counter()), all[..sent]))
  {
    hide Lawful, Frames, Chunks, CipherState.Valid, CipherState.Counter;
    tx.CounterBound();
    stream, ok := [], true;
    var i := 0;
    ghost var done: seq<Bytes> := [];
    assert Frames(c, tx.key, tx.Counter(), done) == [] by { NoFrames(c, tx.key, tx.Counter()); }
    assert writes[0..] == writes && done + AllChunks(writes) == AllChunks(writes);
    while i < |writes|
      invariant 0 <= i <= |writes| && tx.Valid()
      invariant AllChunks(writes) == done + AllChunks(writes[i..])
      invariant stream == Concat(Frames(c, tx.key, old(tx.Counter()), done))
      invariant tx.Counter() == old(tx.Counter()) + |done| <= INVALID_NONCE
    {
      assert writes[i..][1..] == writes[i + 1..];
      ghost var chunks := Chunks(writes[i]);
      var good, written, sent := WriteRecord(tx, c, writes[i]);
      FramesJoin(c, tx.key, old(tx.Counter()), done, chunks[..sent]);
      stream := stream + written;
      tx.CounterBound();
      if !good {
        FrontOfAll(done, chunks, AllChunks(writes[i + 1..]), sent);
        return false, stream;
      }
      assert chunks[..sent] == chunks;
      assert done + AllChunks(writes[i..]) == (done + chunks) + AllChunks(writes[i + 1..]);
      done, i := done + chunks, i + 1;
    }
    assert done == AllChunks(writes) == AllChunks(writes)[..|done|];
  }

  lemma FramesJoin(c: Crypto, key: Bytes, n: nat, a: seq<Bytes>, b: seq<Bytes>)
    ensures Concat(Frames(c, key, n, a)) + Concat(Frames(c, key, n + |a|, b)) == Concat(Frames(c, key, n, a + b))
  {
    hide Frames;
    FramesAppend(c, key, n, a, b);
    ConcatAppend(Frames(c, key, n, a), Frames(c, key, n + |a|, b));
  }

  lemma FrontOfAll(done: seq<Bytes>, chunks: seq<Bytes>, rest: seq<Bytes>, sent: nat)
    requires sent <= |chunks|
    ensures (done + (chunks + rest))[..|done| + sent] == done + chunks[..sent]
  {
  }

  /**
    Byte-stream fidelity: reading the records of any chunks the counters suffice for yields those chunks,
    every frame fits the message size, and the two counters end in lock step. For writes within the nonce
    limit that is the whole plaintext.
   */
  lemma StreamFidelity(c: Crypto, key: Bytes, n: nat, writes: seq<Bytes>, sent: nat)
    requires Lawful(c) && sent <= |AllChunks(writes)| && n + sent <= INVALID_NONCE
    ensures var chunks := AllChunks(writes)[..sent];
            var frames := Frames(c, key, n, chunks);
            && (forall f | f in frames :: |f| <= MAX_MESSAGE_SIZE)
            && Pump(c, key, n, Concat(frames)) == (Concat(chunks), n + sent)
    ensures sent == |AllChunks(writes)| ==> Concat(AllChunks(writes)[..sent]) == Concat(writes)
  {
    hide Lawful, Frames, Pump, Concat;
    AllChunksProperties(writes);
    var chunks := AllChunks(writes)[..sent];
    assert forall k | k in chunks :: k in AllChunks(writes);
    FramesFit(c, key, n, chunks);
    PumpsFrames(c, key, n, chunks);
    assert sent == |AllChunks(writes)| ==> chunks == AllChunks(writes);
  }

  /**
    Both ends of one direction, as one run: what the sender gets out before its counters run out is what
    the receiver reads, all of it exactly within the nonce limit.
   */
  method Transfer(tx: CipherState, rx: CipherState, c: Crypto, writes: seq<Bytes>) returns (ok: bool, plain: Bytes)
    requires Lawful(c) && tx != rx && tx.Valid() && rx.Valid() && tx.key == rx.key && tx.Counter() == rx.Counter()
    modifies tx, rx
    ensures tx.Valid() && rx.Valid() && tx.Counter() == rx.Counter() && old(tx.Counter()) <= INVALID_NONCE
    ensures var sent := Sendable(old(tx.Counter()), |AllChunks(writes)|);
            && (ok <==> sent == |AllChunks(writes)|) && plain == Concat(AllChunks(writes)[..sent])
    ensures ok ==> plain == Concat(writes)
  {
    hide Lawful, Frames, Pump, Concat, AllChunks, CipherState.Valid, CipherState.Counter;
    var stream;
    ok, stream := WriteAll(tx, c, writes);
    ghost var sent := Sendable(old(tx.Counter()), |AllChunks(writes)|);
    StreamFidelity(c, rx.key, rx.Counter(), writes, sent);
    plain := ReadPump(rx, c, stream);
  }

}
