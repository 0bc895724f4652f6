/**
  The IK pattern as the Noise framework defines it: message patterns are token lists, interpreted by a
  generic handshake state for both ends, for writing and for reading (sections 5.2, 5.3 and 7.5). Only
  the primitives are shared with the program's handshake, whose messages are instances of it.
 */
module NoisePattern {
  import opened Common
  import opened Wire
  import opened Utf8
  import opened NoiseCrypto
  import N = NoiseSymmetric
  import H = NoiseHandshake

  datatype Token = E | S | Ee | Es | Se | Ss

  const IK_FIRST := [E, Es, S, Ss]
  const IK_SECOND := [E, Ee, Se]

  /** One end of a handshake: own private keys, the peer's public keys, transcript, chaining key and cipher. */
  datatype Party = Party(
    initiator: bool, s: Bytes, e: Bytes, rs: Bytes, re: Bytes,
    h: Bytes, ck: Bytes, key: Option<Bytes>, n: nat)

  // ----- the interpreter -----

  /** The cipher nonce of section 12.3: 32 zero bits and the counter, little-endian. */
  function Nonce(n: nat): Bytes {
    seq(4, _ => 0) + Le(n, 8)
  }

  function MixHash(c: Crypto, p: Party, data: Bytes): Party {
    p.(h := c.hash(p.h + data))
  }

  function MixKey(c: Crypto, p: Party, ikm: Bytes): Party {
    var (ck, key) := NoiseHkdf2(c, p.ck, ikm);
    p.(ck := ck, key := Some(key), n := 0)
  }

  function Encrypt(c: Crypto, p: Party, plaintext: Bytes): (Party, Bytes) {
    match p.key
    case None => (MixHash(c, p, plaintext), plaintext)
    case Some(k) =>
      var ct := c.seal(k, Nonce(p.n), p.h, plaintext);
      (MixHash(c, p, ct).(n := p.n + 1), ct)
  }

  function Decrypt(c: Crypto, p: Party, ct: Bytes): Option<(Party, Bytes)> {
    match p.key
    case None => Some((MixHash(c, p, ct), ct))
    case Some(k) =>
      match c.open(k, Nonce(p.n), p.h, ct)
      case None => None
      case Some(plaintext) => Some((MixHash(c, p, ct).(n := p.n + 1), plaintext))
  }

  /**
    The start of an IK handshake: the protocol name, the prologue, and the responder's static key as known
    beforehand.
   */
  function Initialize(c: Crypto, initiator: bool, name: Bytes, prologue: Bytes, s: Bytes, e: Bytes, rs: Bytes): Party {
    var h := if |name| <= HASH_LEN then name + seq(HASH_LEN - |name|, _ => 0) else c.hash(name);
    var p := Party(initiator, s, e, rs, [], h, h, None, 0);
    MixHash(c, MixHash(c, p, prologue), if initiator then rs else c.pub(s))
  }

  /** The tokens that mix a shared secret into the chaining key; each end uses the halves it has. */
  function Exchange(c: Crypto, p: Party, t: Token): Party
    requires t != E && t != S
  {
    match t
    case Ee => MixKey(c, p, c.dh(p.e, p.re))
    case Es => MixKey(c, p, if p.initiator then c.dh(p.e, p.rs) else c.dh(p.s, p.re))
    case Se => MixKey(c, p, if p.initiator then c.dh(p.s, p.re) else c.dh(p.e, p.rs))
    case Ss => MixKey(c, p, c.dh(p.s, p.rs))
  }

  function WriteTokens(c: Crypto, p: Party, ts: seq<Token>): (Party, Bytes)
    decreases |ts|
  {
    if ts == [] then (p, [])
    else
      var (p', first) :=
        if ts[0] == E then (MixHash(c, p, c.pub(p.e)), c.pub(p.e))
        else if ts[0] == S then Encrypt(c, p, c.pub(p.s))
        else (Exchange(c, p, ts[0]), []);
      var (p'', rest) := WriteTokens(c, p', ts[1..]);
      (p'', first + rest)
  }

  /** A whole message: its tokens, then the encrypted payload. */
  function WriteMessage(c: Crypto, p: Party, ts: seq<Token>, payload: Bytes): (Party, Bytes) {
    var (p', head) := WriteTokens(c, p, ts);
    var (p'', tail) := Encrypt(c, p', payload);
    (p'', head + tail)
  }

  function ReadTokens(c: Crypto, p: Party, ts: seq<Token>, msg: Bytes): Option<(Party, Bytes)>
    decreases |ts|
  {
    if ts == [] then Some((p, msg))
    else if ts[0] == E then
      if |msg| < KEY_LEN then None
      else ReadTokens(c, MixHash(c, p.(re := msg[..KEY_LEN]), msg[..KEY_LEN]), ts[1..], msg[KEY_LEN..])
    else if ts[0] == S then
      var len := if p.key.Some? then KEY_LEN + TAG_LEN else KEY_LEN;
      if |msg| < len then None
      else
        match Decrypt(c, p, msg[..len])
        case None => None
        case Some((p', rs)) => ReadTokens(c, p'.(rs := rs), ts[1..], msg[len..])
    else ReadTokens(c, Exchange(c, p, ts[0]), ts[1..], msg)
  }

  /** A whole message read: the party afterwards and the payload, unless something does not open. */
  function ReadMessage(c: Crypto, p: Party, ts: seq<Token>, msg: Bytes): Option<(Party, Bytes)> {
    match ReadTokens(c, p, ts, msg)
    case None => None
    case Some((p', rest)) => Decrypt(c, p', rest)
  }

  /** The transport keys: the initiator's first. */
  function TransportKeys(c: Crypto, p: Party): (Bytes, Bytes) {
    NoiseHkdf2(c, p.ck, [])
  }

  // ----- the program's steps are the interpreter's -----

  function SymOf(p: Party): N.Sym {
    N.Sym(p.h, p.ck)
  }

  lemma FirstNonceIsZero()
    ensures Nonce(0) == N.ZeroNonce()
  {
    assert Le(0, 8) == [0, 0, 0, 0, 0, 0, 0, 0];
  }

  lemma DhMixes(c: Crypto, p: Party, priv: Bytes, pub: Bytes)
    requires Lawful(c)
    ensures var (sym, key) := N.MixDh(c, SymOf(p), priv, pub);
            MixKey(c, p, c.dh(priv, pub)) == p.(ck := sym.ck, key := Some(key), n := 0) && sym.h == p.h
  {
    HkdfIsNoiseHkdf(c, p.ck, c.dh(priv, pub));
  }

  lemma OneShotSeals(c: Crypto, p: Party, plaintext: Bytes)
    requires p.key.Some? && p.n == 0
    ensures var (sym, ct) := N.EncryptAndHash(c, SymOf(p), p.key.value, plaintext);
            Encrypt(c, p, plaintext) == (p.(h := sym.h, n := 1), ct) && sym.ck == p.ck
  {
    FirstNonceIsZero();
  }

  lemma OneShotOpens(c: Crypto, p: Party, ct: Bytes)
    requires p.key.Some? && p.n == 0
    ensures Decrypt(c, p, ct) ==
            match N.DecryptAndHash(c, SymOf(p), p.key.value, ct)
            case None => None
            case Some((sym, plaintext)) => Some((p.(h := sym.h, n := 1), plaintext))
    ensures var r := N.DecryptAndHash(c, SymOf(p), p.key.value, ct); r.Some? ==> r.value.0.ck == p.ck
  {
    FirstNonceIsZero();
  }

  lemma KeysSplit(c: Crypto, p: Party)
    requires Lawful(c)
    ensures TransportKeys(c, p) == N.Split(c, SymOf(p))
  {
    HkdfIsNoiseHkdf(c, p.ck, []);
  }

  /** The client at the start. */
  function Client(c: Crypto, version: nat, machine: Bytes, ephemeral: Bytes, controlPub: Bytes): Party {
    Initialize(c, true, Ascii("Noise_IK_25519_ChaChaPoly_BLAKE2s"), N.Prologue(version), machine, ephemeral, controlPub)
  }

  /** The server at the start; it does not know the client yet. */
  function Server(c: Crypto, version: nat, control: Bytes, ephemeral: Bytes): Party {
    Initialize(c, false, Ascii("Noise_IK_25519_ChaChaPoly_BLAKE2s"), N.Prologue(version), control, ephemeral, [])
  }

  /** The program starts where the framework says: its protocol name is too long to be used unhashed. */
  lemma StartsAlike(c: Crypto, version: nat, machine: Bytes, ephemeral: Bytes, control: Bytes, controlPub: Bytes)
    ensures SymOf(Client(c, version, machine, ephemeral, controlPub)) == H.Begin(c, version, controlPub)
    ensures SymOf(Server(c, version, control, ephemeral)) == H.Begin(c, version, c.pub(control))
  {
    assert |N.ProtocolName()| == 33;
  }

  // ----- the first message -----

  /** The party that has sent or received the ephemeral key and exchanged one secret: its cipher is fresh. */
  lemma AfterEphemeral(c: Crypto, p: Party, e: Bytes, priv: Bytes, pub: Bytes)
    requires Lawful(c)
    ensures var (sym, key) := N.MixDh(c, N.MixHash(c, SymOf(p), e), priv, pub);
            var p1 := MixHash(c, p, e);
            MixKey(c, p1, c.dh(priv, pub)) == p1.(ck := sym.ck, key := Some(key), n := 0) && sym.h == p1.h
  {
    DhMixes(c, MixHash(c, p, e), priv, pub);
  }

  /** The initiation message is, after its header, exactly the first IK message with an empty payload. */
  lemma InitiationIsIk(c: Crypto, version: nat, machine: Bytes, controlPub: Bytes, ephemeral: Bytes)
    requires Lawful(c)
    ensures var (p, msg) := WriteMessage(c, Client(c, version, machine, ephemeral, controlPub), IK_FIRST, []);
            && H.BuildInitiation(c, version, machine, controlPub, ephemeral) ==
                (H.InitiationHeader(version) + msg, SymOf(p))
            && p.initiator && p.s == machine && p.e == ephemeral && p.rs == controlPub
  {
    hide Hkdf, NoiseHkdf2, H.Begin, H.InitiationHeader, N.EncryptAndHash, N.MixDh, MixKey, Encrypt, Initialize;
    var p := Client(c, version, machine, ephemeral, controlPub);
    StartsAlike(c, version, machine, ephemeral, [], controlPub);
    Known(c, true, version, machine, ephemeral, controlPub);
    var e := c.pub(ephemeral);
    AfterEphemeral(c, p, e, ephemeral, controlPub);
    var p2 := MixKey(c, MixHash(c, p, e), c.dh(ephemeral, controlPub));
    OneShotSeals(c, p2, c.pub(machine));
    var (p3, sealedKey) := Encrypt(c, p2, c.pub(machine));
    DhMixes(c, p3, machine, controlPub);
    var p4 := MixKey(c, p3, c.dh(machine, controlPub));
    OneShotSeals(c, p4, []);
    WritesFirst(c, p, p2, p3, p4, sealedKey);
    var tag := Encrypt(c, p4, []).1;
    assert H.InitiationHeader(version) + e + sealedKey + tag == H.InitiationHeader(version) + ((e + sealedKey) + tag);
  }

  lemma Known(c: Crypto, initiator: bool, version: nat, s: Bytes, e: Bytes, rs: Bytes)
    ensures var p := Initialize(c, initiator, N.ProtocolName(), N.Prologue(version), s, e, rs);
            p.initiator == initiator && p.s == s && p.e == e && p.rs == rs && p.key == None
  {
  }

  lemma WritesFirst(c: Crypto, p: Party, p2: Party, p3: Party, p4: Party, sealedKey: Bytes)
    requires p.initiator && p2 == MixKey(c, MixHash(c, p, c.pub(p.e)), c.dh(p.e, p.rs))
    requires p2.s == p.s && p2.rs == p.rs && (p3, sealedKey) == Encrypt(c, p2, c.pub(p.s))
    requires p3.s == p.s && p3.rs == p.rs && p4 == MixKey(c, p3, c.dh(p.s, p.rs))
    ensures WriteTokens(c, p, IK_FIRST) == (p4, c.pub(p.e) + sealedKey)
  {
    hide NoiseHkdf2, MixKey, Encrypt, MixHash;
    assert IK_FIRST[1..] == [Es, S, Ss] && [Es, S, Ss][1..] == [S, Ss] && [S, Ss][1..] == [Ss] && [Ss][1..] == [];
    var none: Bytes := [];
    assert WriteTokens(c, p4, []) == (p4, none);
    assert WriteTokens(c, p3, [Ss]) == (p4, none + none) && none + none == none;
    assert WriteTokens(c, p2, [S, Ss]) == (p4, sealedKey + none);
    assert sealedKey + none == sealedKey;
    var p1 := MixHash(c, p, c.pub(p.e));
    assert p1.initiator && p1.e == p.e && p1.rs == p.rs by { HashKeeps(c, p, c.pub(p.e)); }
    assert WriteTokens(c, p1, [Es, S, Ss]) == (p4, none + sealedKey);
    assert none + sealedKey == sealedKey;
  }

  lemma HashKeeps(c: Crypto, p: Party, data: Bytes)
    ensures var p' := MixHash(c, p, data);
            p' == p.(h := p'.h) && p'.h == N.MixHash(c, SymOf(p), data).h
  {
  }

  lemma KeyKeeps(c: Crypto, p: Party, ikm: Bytes)
    ensures var p' := MixKey(c, p, ikm);
            p' == p.(ck := p'.ck, key := p'.key, n := 0) && p'.key.Some?
  {
  }

  /** What reading the first message takes, token by token. */
  lemma ReadsFirst(c: Crypto, p: Party, msg: Bytes)
    requires !p.initiator && |msg| == 96
    ensures var p1 := MixHash(c, p.(re := msg[..32]), msg[..32]);
            var p2 := MixKey(c, p1, c.dh(p.s, msg[..32]));
            ReadTokens(c, p, IK_FIRST, msg) ==
            match Decrypt(c, p2, msg[32..80])
            case None => None
            case Some((p3, rs)) => Some((MixKey(c, p3.(rs := rs), c.dh(p3.s, rs)), msg[80..]))
  {
    hide NoiseHkdf2, MixKey, Decrypt, MixHash;
    assert IK_FIRST[1..] == [Es, S, Ss] && [Es, S, Ss][1..] == [S, Ss] && [S, Ss][1..] == [Ss] && [Ss][1..] == [];
    var e := msg[..32];
    var p1 := MixHash(c, p.(re := e), e);
    HashKeeps(c, p.(re := e), e);
    var p2 := MixKey(c, p1, c.dh(p.s, e));
    KeyKeeps(c, p1, c.dh(p.s, e));
    assert msg[32..][..48] == msg[32..80] && msg[32..][48..] == msg[80..];
    assert ReadTokens(c, p, IK_FIRST, msg) == ReadTokens(c, p1, [Es, S, Ss], msg[32..]);
    assert ReadTokens(c, p1, [Es, S, Ss], msg[32..]) == ReadTokens(c, p2, [S, Ss], msg[32..]);
    if Decrypt(c, p2, msg[32..80]).Some? {
      var (p3, rs) := Decrypt(c, p2, msg[32..80]).value;
      assert ReadTokens(c, p2, [S, Ss], msg[32..]) == ReadTokens(c, p3.(rs := rs), [Ss], msg[80..]);
      var p4 := MixKey(c, p3.(rs := rs), c.dh(p3.s, rs));
      assert ReadTokens(c, p3.(rs := rs), [Ss], msg[80..]) == ReadTokens(c, p4, [], msg[80..]);
    }
  }

  /** The server opens an initiation exactly as the first IK message is read, and learns the same key. */
  lemma OpensAsIk(c: Crypto, init: Bytes, control: Bytes, ephemeral: Bytes)
    requires Lawful(c) && |init| == H.INITIATION_MSG_LEN
    ensures var read := ReadMessage(c, Server(c, FromBe(init[0..2]), control, ephemeral), IK_FIRST, init[5..]);
            && H.OpenInitiation(c, init, control) ==
               (match read case None => Err(H.DecryptError) case Some((p, _)) => Ok((SymOf(p), p.rs)))
            && (read.Some? ==> var p := read.value.0;
                !p.initiator && p.s == control && p.e == ephemeral && p.re == init[5..37])
  {
    hide Hkdf, NoiseHkdf2, H.Begin, N.DecryptAndHash, N.MixDh, N.MixHash, MixKey, MixHash, Decrypt, Initialize,
         FromBe, Lawful;
    var version := FromBe(init[0..2]);
    var p, msg, e := Server(c, version, control, ephemeral), init[5..], init[5..37];
    StartsAlike(c, version, [], ephemeral, control, []);
    Known(c, false, version, control, ephemeral, []);
    assert msg[..32] == e && msg[32..80] == init[37..85] && msg[80..] == init[85..];
    ReadsFirst(c, p, msg);
    var p0 := p.(re := e);
    var p1 := MixHash(c, p0, e);
    HashKeeps(c, p0, e);
    HashIsSym(c, p0, e);
    DhMixes(c, p1, control, e);
    var p2 := MixKey(c, p1, c.dh(control, e));
    OneShotOpens(c, p2, init[37..85]);
    if Decrypt(c, p2, init[37..85]).Some? {
      var (p3, rs) := Decrypt(c, p2, init[37..85]).value;
      var p3' := p3.(rs := rs);
      DhMixes(c, p3', control, rs);
      OneShotOpens(c, MixKey(c, p3', c.dh(control, rs)), init[85..]);
    }
  }

  lemma HashIsSym(c: Crypto, p: Party, data: Bytes)
    ensures SymOf(MixHash(c, p, data)) == N.MixHash(c, SymOf(p), data)
  {
  }

  // ----- the second message -----

  /** The response is, after its header, exactly the second IK message with an empty payload. */
  lemma ResponseIsIk(c: Crypto, p: Party, version: nat)
    requires Lawful(c) && !p.initiator
    ensures var (p', msg) := WriteMessage(c, p, IK_SECOND, []);
            var (resp, session) := H.BuildResponse(c, SymOf(p), version, p.rs, p.re, p.e);
            && resp == [H.MSG_TYPE_RESPONSE] + Be(H.RESPONSE_PAYLOAD_LEN, 2) + msg
            && session == H.Session(version, p.rs, p'.h, TransportKeys(c, p').1, TransportKeys(c, p').0)
  {
    hide Hkdf, NoiseHkdf2, N.EncryptAndHash, N.MixDh, N.MixHash, N.Split, MixKey, MixHash, Encrypt, TransportKeys, Be,
         Lawful;
    var e := c.pub(p.e);
    var p1 := MixHash(c, p, e);
    HashKeeps(c, p, e);
    HashIsSym(c, p, e);
    DhMixes(c, p1, p.e, p.re);
    var p2 := MixKey(c, p1, c.dh(p.e, p.re));
    DhMixes(c, p2, p.e, p.rs);
    var p3 := MixKey(c, p2, c.dh(p.e, p.rs));
    OneShotSeals(c, p3, []);
    WritesSecond(c, p, p1, p2, p3);
    var (p4, tag) := Encrypt(c, p3, []);
    KeysSplit(c, p4);
    var header := [H.MSG_TYPE_RESPONSE] + Be(H.RESPONSE_PAYLOAD_LEN, 2);
    assert header + e + tag == header + (e + tag);
  }

  lemma WritesSecond(c: Crypto, p: Party, p1: Party, p2: Party, p3: Party)
    requires !p.initiator && p1 == MixHash(c, p, c.pub(p.e))
    requires p2 == MixKey(c, p1, c.dh(p.e, p.re)) && p3 == MixKey(c, p2, c.dh(p.e, p.rs))
    ensures WriteTokens(c, p, IK_SECOND) == (p3, c.pub(p.e))
  {
    hide NoiseHkdf2, MixKey, MixHash;
    assert IK_SECOND[1..] == [Ee, Se] && [Ee, Se][1..] == [Se] && [Se][1..] == [];
    var none: Bytes := [];
    HashKeeps(c, p, c.pub(p.e));
    KeyKeeps(c, p1, c.dh(p.e, p.re));
    assert WriteTokens(c, p3, []) == (p3, none);
    assert WriteTokens(c, p2, [Se]) == (p3, none + none) && none + none == none;
    assert WriteTokens(c, p1, [Ee, Se]) == (p3, none + none);
    assert c.pub(p.e) + none == c.pub(p.e);
  }

  /** On every initiation with a proper header the server reads the first IK message and writes the second. */
  lemma ServerIsIk(c: Crypto, init: Bytes, control: Bytes, ephemeral: Bytes)
    requires Lawful(c) && |init| == H.INITIATION_MSG_LEN && init[2] == H.MSG_TYPE_INITIATION
    requires FromBe(init[3..5]) == H.INITIATION_PAYLOAD_LEN
    ensures var version := FromBe(init[0..2]);
            H.ServerHandshake(c, init, control, ephemeral) ==
            match ReadMessage(c, Server(c, version, control, ephemeral), IK_FIRST, init[5..])
            case None => ([], Err(H.DecryptError))
            case Some((p, _)) =>
              var (p', msg) := WriteMessage(c, p, IK_SECOND, []);
              var (first, second) := TransportKeys(c, p');
              ([H.MSG_TYPE_RESPONSE] + Be(H.RESPONSE_PAYLOAD_LEN, 2) + msg,
                Ok(H.Session(version, p.rs, p'.h, second, first)))
  {
    hide ReadMessage, WriteMessage, H.OpenInitiation, H.BuildResponse, TransportKeys, Initialize, FromBe, Be, Lawful;
    OpensAsIk(c, init, control, ephemeral);
    var version := FromBe(init[0..2]);
    var read := ReadMessage(c, Server(c, version, control, ephemeral), IK_FIRST, init[5..]);
    if read.Some? { ResponseIsIk(c, read.value.0, version); }
  }

  /** What reading the second message takes, token by token. */
  lemma ReadsSecond(c: Crypto, p: Party, msg: Bytes)
    requires p.initiator && |msg| >= 32
    ensures var p1 := MixHash(c, p.(re := msg[..32]), msg[..32]);
            var p2 := MixKey(c, p1, c.dh(p.e, msg[..32]));
            ReadTokens(c, p, IK_SECOND, msg) == Some((MixKey(c, p2, c.dh(p.s, msg[..32])), msg[32..]))
  {
    hide NoiseHkdf2, MixKey, MixHash;
    assert IK_SECOND[1..] == [Ee, Se] && [Ee, Se][1..] == [Se] && [Se][1..] == [];
    var e := msg[..32];
    var p1 := MixHash(c, p.(re := e), e);
    HashKeeps(c, p.(re := e), e);
    var p2 := MixKey(c, p1, c.dh(p.e, e));
    KeyKeeps(c, p1, c.dh(p.e, e));
    var p3 := MixKey(c, p2, c.dh(p.s, e));
    assert ReadTokens(c, p, IK_SECOND, msg) == ReadTokens(c, p1, [Ee, Se], msg[32..]);
    assert ReadTokens(c, p1, [Ee, Se], msg[32..]) == ReadTokens(c, p2, [Se], msg[32..]);
    assert ReadTokens(c, p2, [Se], msg[32..]) == ReadTokens(c, p3, [], msg[32..]);
  }

  /** The client finishes on every response with a proper header exactly as the second IK message is read. */
  lemma FinishIsIk(c: Crypto, version: nat, machine: Bytes, controlPub: Bytes, ephemeral: Bytes, resp: Bytes)
    requires Lawful(c) && H.LongEnough(resp)
    requires resp[0] == H.MSG_TYPE_RESPONSE && FromBe(resp[1..3]) == H.RESPONSE_PAYLOAD_LEN
    ensures var sym := H.BuildInitiation(c, version, machine, controlPub, ephemeral).1;
            var p := WriteMessage(c, Client(c, version, machine, ephemeral, controlPub), IK_FIRST, []).0;
            H.FinishHandshake(c, sym, version, machine, controlPub, ephemeral, resp) ==
            match ReadMessage(c, p, IK_SECOND, resp[3..])
            case None => Err(H.DecryptError)
            case Some((p', _)) =>
              var (first, second) := TransportKeys(c, p');
              Ok(H.Session(version, controlPub, p'.h, first, second))
  {
    hide Hkdf, NoiseHkdf2, H.BuildInitiation, WriteMessage, N.DecryptAndHash, N.MixDh, N.MixHash, N.Split, MixKey,
         MixHash;
    hide Decrypt, Initialize, FromBe, TransportKeys, Lawful;
    InitiationIsIk(c, version, machine, controlPub, ephemeral);
    var p := WriteMessage(c, Client(c, version, machine, ephemeral, controlPub), IK_FIRST, []).0;
    var msg, e := resp[3..], resp[3..35];
    assert msg[..32] == e && msg[32..] == resp[35..];
    ReadsSecond(c, p, msg);
    var p0 := p.(re := e);
    var p1 := MixHash(c, p0, e);
    HashKeeps(c, p0, e);
    HashIsSym(c, p0, e);
    DhMixes(c, p1, ephemeral, e);
    var p2 := MixKey(c, p1, c.dh(ephemeral, e));
    DhMixes(c, p2, machine, e);
    var p3 := MixKey(c, p2, c.dh(machine, e));
    OneShotOpens(c, p3, resp[35..]);
    if Decrypt(c, p3, resp[35..]).Some? { KeysSplit(c, Decrypt(c, p3, resp[35..]).value.0); }
  }
}
