/** The Noise IK handshake of the control protocol: client initiation, server response, client finish. */
module NoiseHandshake {
  import opened Common
  import opened Wire
  import opened Utf8
  import opened NoiseCrypto
  import opened NoiseSymmetric

  const MSG_TYPE_INITIATION: byte := 1
  const MSG_TYPE_RESPONSE: byte := 2
  const MSG_TYPE_ERROR: byte := 3
  const HEADER_LEN := 3
  const INITIATION_HEADER_LEN := 5
  const INITIATION_PAYLOAD_LEN := 96
  const RESPONSE_PAYLOAD_LEN := 48
  const INITIATION_MSG_LEN := 101
  const RESPONSE_MSG_LEN := 51

  datatype NoiseError = ServerError(message: Bytes) | HandshakeError | DecryptError

  /** What both ends hold after the handshake. */
  datatype Session = Session(version: nat, peer: Bytes, handshakeHash: Bytes, tx: Bytes, rx: Bytes)

  /** The symmetric state as the program keeps it, updated in place. */
  class SymmetricState {
    var h: Bytes
    var ck: Bytes
    var finished: bool

    ghost function State(): Sym
      reads this
    {
      Sym(h, ck)
    }

    constructor (c: Crypto)
      ensures State() == SymNew(c) && !finished
    {
      h := c.hash(ProtocolName());
      ck := c.hash(ProtocolName());
      finished := false;
    }

    method MixHash(c: Crypto, data: Bytes)
      modifies this`h
      ensures State() == NoiseSymmetric.MixHash(c, old(State()), data)
    {
      h := c.hash(h + data);
    }

    method MixDh(c: Crypto, priv: Bytes, pub: Bytes) returns (key: Bytes)
      requires Lawful(c)
      modifies this`ck
      ensures (State(), key) == NoiseSymmetric.MixDh(c, old(State()), priv, pub)
    {
      var both := ComputeHkdf(c, ck, c.dh(priv, pub), [], 2 * KEY_LEN);
      ck := both[..KEY_LEN];
      key := both[KEY_LEN..];
    }

    method EncryptAndHash(c: Crypto, key: Bytes, plaintext: Bytes) returns (ct: Bytes)
      modifies this`h
      ensures (State(), ct) == NoiseSymmetric.EncryptAndHash(c, old(State()), key, plaintext)
    {
      ct := c.seal(key, ZeroNonce(), h, plaintext);
      MixHash(c, ct);
    }

    method DecryptAndHash(c: Crypto, key: Bytes, ct: Bytes) returns (plaintext: Option<Bytes>)
      modifies this`h
      ensures match NoiseSymmetric.DecryptAndHash(c, old(State()), key, ct)
              case None => plaintext.None? && State() == old(State())
              case Some((s, pt)) => plaintext == Some(pt) && State() == s
    {
      plaintext := c.open(key, ZeroNonce(), h, ct);
      if plaintext.Some? {
        MixHash(c, ct);
      }
    }

    method Split(c: Crypto) returns (c1: Bytes, c2: Bytes)
      requires Lawful(c)
      modifies this`finished
      ensures finished && (c1, c2) == NoiseSymmetric.Split(c, State())
    {
      finished := true;
      var both := ComputeHkdf(c, ck, [], [], 2 * KEY_LEN);
      c1, c2 := both[..KEY_LEN], both[KEY_LEN..];
    }
  }

  // ----- client: initiation -----

  function InitiationHeader(version: nat): (r: Bytes)
    ensures |r| == INITIATION_HEADER_LEN
  {
    Be(version, 2) + [MSG_TYPE_INITIATION] + Be(INITIATION_PAYLOAD_LEN, 2)
  }

  /** Both ends start from the name, the prologue and the server's static key. */
  function Begin(c: Crypto, version: nat, controlPub: Bytes): Sym {
    MixHash(c, MixHash(c, SymNew(c), Prologue(version)), controlPub)
  }

  /** -> e, es, s, ss */
  function BuildInitiation(c: Crypto, version: nat, machine: Bytes, controlPub: Bytes, ephemeral: Bytes): (Bytes, Sym)
    requires Lawful(c)
  {
    var s0 := MixHash(c, Begin(c, version, controlPub), c.pub(ephemeral));
    var (s1, esKey) := MixDh(c, s0, ephemeral, controlPub);
    var (s2, sealedKey) := EncryptAndHash(c, s1, esKey, c.pub(machine));
    var (s3, ssKey) := MixDh(c, s2, machine, controlPub);
    var (s4, tag) := EncryptAndHash(c, s3, ssKey, []);
    (InitiationHeader(version) + c.pub(ephemeral) + sealedKey + tag, s4)
  }

  method ComputeInitiation(c: Crypto, version: nat, machine: Bytes, controlPub: Bytes, ephemeral: Bytes)
    returns (msg: Bytes, s: SymmetricState)
    requires Lawful(c) && version < 65536
    ensures fresh(s) && (msg, s.State()) == BuildInitiation(c, version, machine, controlPub, ephemeral)
    ensures |msg| == INITIATION_MSG_LEN
  {
    hide Hkdf, Prologue, ProtocolName;
    s := new SymmetricState(c);
    s.MixHash(c, Prologue(version));
    s.MixHash(c, controlPub);
    msg := InitiationHeader(version);
    var ephemeralPub := c.pub(ephemeral);
    msg := msg + ephemeralPub;
    s.MixHash(c, ephemeralPub);
    var esKey := s.MixDh(c, ephemeral, controlPub);
    var ct := s.EncryptAndHash(c, esKey, c.pub(machine));
    msg := msg + ct;
    var ssKey := s.MixDh(c, machine, controlPub);
    var tag := s.EncryptAndHash(c, ssKey, []);
    msg := msg + tag;
  }

  // ----- server -----

  /** An error message; a text of 65536 octets or more is cut there, and its length then reads as zero. */
  function ErrorFrame(message: Bytes): Bytes {
    var text := if |message| >= 65536 then message[..65536] else message;
    [MSG_TYPE_ERROR] + Be(|text|, 2) + text
  }

  /** <- e, ee, se */
  function BuildResponse(c: Crypto, s: Sym, version: nat, machinePub: Bytes, machineEphemeralPub: Bytes,
                         ephemeral: Bytes): (Bytes, Session)
    requires Lawful(c)
  {
    var s0 := MixHash(c, s, c.pub(ephemeral));
    var (s1, _) := MixDh(c, s0, ephemeral, machineEphemeralPub);
    var (s2, seKey) := MixDh(c, s1, ephemeral, machinePub);
    var (s3, tag) := EncryptAndHash(c, s2, seKey, []);
    var (c1, c2) := Split(c, s3);
    ([MSG_TYPE_RESPONSE] + Be(RESPONSE_PAYLOAD_LEN, 2) + c.pub(ephemeral) + tag,
     Session(version, machinePub, s3.h, c2, c1))
  }

  /** Opens the client's static key and checks the payload tag. */
  function OpenInitiation(c: Crypto, init: Bytes, control: Bytes): Result<(Sym, Bytes), NoiseError>
    requires Lawful(c) && |init| == INITIATION_MSG_LEN
  {
    var version := FromBe(init[0..2]);
    var machineEphemeralPub := init[5..37];
    var s0 := MixHash(c, Begin(c, version, c.pub(control)), machineEphemeralPub);
    var (s1, esKey) := MixDh(c, s0, control, machineEphemeralPub);
    match DecryptAndHash(c, s1, esKey, init[37..85])
    case None => Err(DecryptError)
    case Some((s2, machinePub)) =>
      var (s3, ssKey) := MixDh(c, s2, control, machinePub);
      match DecryptAndHash(c, s3, ssKey, init[85..])
      case None => Err(DecryptError)
      case Some((s4, _)) => Ok((s4, machinePub))
  }

  function SizeReason(): Bytes {
    Ascii("wrong handshake initiation size")
  }

  function TypeReason(): Bytes {
    Ascii("unexpected handshake message type")
  }

  function LengthReason(): Bytes {
    Ascii("wrong handshake initiation length")
  }

  /** What the server writes back and the session it ends up with. */
  function ServerHandshake(c: Crypto, init: Bytes, control: Bytes, ephemeral: Bytes)
    : (Bytes, Result<Session, NoiseError>)
    requires Lawful(c)
  {
    if |init| != INITIATION_MSG_LEN then (ErrorFrame(SizeReason()), Err(HandshakeError))
    else if init[2] != MSG_TYPE_INITIATION then
      (ErrorFrame(TypeReason()), Err(HandshakeError))
    else if FromBe(init[3..5]) != INITIATION_PAYLOAD_LEN then
      (ErrorFrame(LengthReason()), Err(HandshakeError))
    else
      match OpenInitiation(c, init, control)
      case Err(e) => ([], Err(e))
      case Ok((s, machinePub)) =>
        var (response, session) := BuildResponse(c, s, FromBe(init[0..2]), machinePub, init[5..37], ephemeral);
        (response, Ok(session))
  }

  /** The server side on a whole initiation message, step by step. */
  method ComputeServerHandshake(c: Crypto, init: Bytes, control: Bytes, ephemeral: Bytes)
    returns (reply: Bytes, r: Result<Session, NoiseError>)
    requires Lawful(c)
    ensures (reply, r) == ServerHandshake(c, init, control, ephemeral)
  {
    hide Hkdf, Prologue, ProtocolName;
    if |init| != INITIATION_MSG_LEN {
      return ErrorFrame(SizeReason()), Err(HandshakeError);
    }
    var clientVersion := FromBe(init[0..2]);
    if init[2] != MSG_TYPE_INITIATION {
      return ErrorFrame(TypeReason()), Err(HandshakeError);
    }
    if FromBe(init[3..5]) != INITIATION_PAYLOAD_LEN {
      return ErrorFrame(LengthReason()), Err(HandshakeError);
    }
    var s := new SymmetricState(c);
    s.MixHash(c, Prologue(clientVersion));
    s.MixHash(c, c.pub(control));
    var machineEphemeralPub := init[5..37];
    s.MixHash(c, machineEphemeralPub);
    var esKey := s.MixDh(c, control, machineEphemeralPub);
    var machinePub := s.DecryptAndHash(c, esKey, init[37..85]);
    if machinePub.None? {
      return [], Err(DecryptError);
    }
    assert |machinePub.value| == KEY_LEN;
    var ssKey := s.MixDh(c, control, machinePub.value);
    var payload := s.DecryptAndHash(c, ssKey, init[85..]);
    if payload.None? {
      return [], Err(DecryptError);
    }
    reply, r := ComputeResponse(c, s, clientVersion, machinePub.value, machineEphemeralPub, ephemeral);
  }

  method ComputeResponse(c: Crypto, s: SymmetricState, version: nat, machinePub: Bytes, machineEphemeralPub: Bytes,
                         ephemeral: Bytes)
    returns (reply: Bytes, r: Result<Session, NoiseError>)
    requires Lawful(c)
    modifies s
    ensures var before := old(s.State());
            var (response, session) := BuildResponse(c, before, version, machinePub, machineEphemeralPub, ephemeral);
            (reply, r) == (response, Ok(session))
  {
    hide Hkdf;
    var ephemeralPub := c.pub(ephemeral);
    reply := [MSG_TYPE_RESPONSE] + Be(RESPONSE_PAYLOAD_LEN, 2) + ephemeralPub;
    s.MixHash(c, ephemeralPub);
    var _ := s.MixDh(c, ephemeral, machineEphemeralPub);
    var seKey := s.MixDh(c, ephemeral, machinePub);
    var tag := s.EncryptAndHash(c, seKey, []);
    reply := reply + tag;
    var c1, c2 := s.Split(c);
    r := Ok(Session(version, machinePub, s.h, c2, c1));
  }

  // ----- client: finish -----

  /** The slices the client takes of a response exist; a whole response of 51 octets always qualifies. */
  predicate LongEnough(resp: Bytes) {
    && |resp| >= 1
    && (resp[0] == MSG_TYPE_RESPONSE || resp[0] == MSG_TYPE_ERROR ==> |resp| >= HEADER_LEN)
    && (resp[0] == MSG_TYPE_RESPONSE && FromBe(resp[1..3]) == RESPONSE_PAYLOAD_LEN ==> |resp| >= HEADER_LEN + 32)
  }

  function FinishHandshake(c: Crypto, s: Sym, version: nat, machine: Bytes, controlPub: Bytes, ephemeral: Bytes,
                           resp: Bytes): Result<Session, NoiseError>
    requires Lawful(c) && LongEnough(resp)
  {
    if resp[0] != MSG_TYPE_RESPONSE then
      if resp[0] == MSG_TYPE_ERROR then
        var len := FromBe(resp[1..3]);
        if |resp| < HEADER_LEN + len then Err(ServerError(Ascii("(truncated error)")))
        else Err(ServerError(resp[HEADER_LEN..HEADER_LEN + len]))
      else Err(HandshakeError)
    else if FromBe(resp[1..3]) != RESPONSE_PAYLOAD_LEN then Err(HandshakeError)
    else
      var controlEphemeralPub := resp[3..35];
      var s0 := MixHash(c, s, controlEphemeralPub);
      var (s1, _) := MixDh(c, s0, ephemeral, controlEphemeralPub);
      var (s2, seKey) := MixDh(c, s1, machine, controlEphemeralPub);
      match DecryptAndHash(c, s2, seKey, resp[35..])
      case None => Err(DecryptError)
      case Some((s3, _)) =>
        var (c1, c2) := Split(c, s3);
        Ok(Session(version, controlPub, s3.h, c1, c2))
  }

  method ComputeFinish(c: Crypto, s: SymmetricState, version: nat, machine: Bytes, controlPub: Bytes,
                       ephemeral: Bytes, resp: Bytes)
    returns (r: Result<Session, NoiseError>)
    requires Lawful(c) && LongEnough(resp)
    modifies s
    ensures r == FinishHandshake(c, old(s.State()), version, machine, controlPub, ephemeral, resp)
  {
    hide Hkdf;
    if resp[0] != MSG_TYPE_RESPONSE {
      if resp[0] == MSG_TYPE_ERROR {
        var len := FromBe(resp[1..3]);
        if |resp| < HEADER_LEN + len {
          return Err(ServerError(Ascii("(truncated error)")));
        }
        return Err(ServerError(resp[HEADER_LEN..HEADER_LEN + len]));
      }
      return Err(HandshakeError);
    }
    if FromBe(resp[1..3]) != RESPONSE_PAYLOAD_LEN {
      return Err(HandshakeError);
    }
    var controlEphemeralPub := resp[3..35];
    s.MixHash(c, controlEphemeralPub);
    var _ := s.MixDh(c, ephemeral, controlEphemeralPub);
    var seKey := s.MixDh(c, machine, controlEphemeralPub);
    var payload := s.DecryptAndHash(c, seKey, resp[35..]);
    if payload.None? {
      return Err(DecryptError);
    }
    var c1, c2 := s.Split(c);
    r := Ok(Session(version, controlPub, s.h, c1, c2));
  }

  // ----- agreement -----

  lemma DhAgrees(c: Crypto, s: Sym, a: Bytes, b: Bytes)
    requires Lawful(c)
    ensures MixDh(c, s, a, c.pub(b)) == MixDh(c, s, b, c.pub(a))
  {
  }

  lemma OpensWhatWasSealed(c: Crypto, s: Sym, key: Bytes, plaintext: Bytes)
    requires Lawful(c)
    ensures DecryptAndHash(c, s, key, EncryptAndHash(c, s, key, plaintext).1) ==
            Some((EncryptAndHash(c, s, key, plaintext).0, plaintext))
    ensures |EncryptAndHash(c, s, key, plaintext).1| == |plaintext| + TAG_LEN
  {
  }

  lemma InitiationFields(version: nat, e: Bytes, k: Bytes, tag: Bytes)
    requires version < 65536 && |e| == 32 && |k| == 48 && |tag| == 16
    ensures var msg := InitiationHeader(version) + e + k + tag;
            && |msg| == INITIATION_MSG_LEN && FromBe(msg[0..2]) == version && msg[2] == MSG_TYPE_INITIATION
            && FromBe(msg[3..5]) == INITIATION_PAYLOAD_LEN
            && msg[5..37] == e && msg[37..85] == k && msg[85..] == tag
  {
    var msg := InitiationHeader(version) + e + k + tag;
    BeRoundTrip(version, 2);
    BeRoundTrip(INITIATION_PAYLOAD_LEN, 2);
    WidthBounds();
    assert msg[0..2] == Be(version, 2);
    assert msg[3..5] == Be(INITIATION_PAYLOAD_LEN, 2);
  }

  lemma ResponseFields(e: Bytes, tag: Bytes)
    requires |e| == 32 && |tag| == 16
    ensures var msg := [MSG_TYPE_RESPONSE] + Be(RESPONSE_PAYLOAD_LEN, 2) + e + tag;
            && |msg| == RESPONSE_MSG_LEN && msg[0] == MSG_TYPE_RESPONSE && FromBe(msg[1..3]) == RESPONSE_PAYLOAD_LEN
            && msg[3..35] == e && msg[35..] == tag
  {
    var msg := [MSG_TYPE_RESPONSE] + Be(RESPONSE_PAYLOAD_LEN, 2) + e + tag;
    BeRoundTrip(RESPONSE_PAYLOAD_LEN, 2);
    WidthBounds();
    assert msg[1..3] == Be(RESPONSE_PAYLOAD_LEN, 2);
  }

  // ----- the messages, octet by octet -----

  /** The header of the initiation: version, type 1, length 96. */
  lemma InitiationOctets(version: nat)
    requires version < 65536
    ensures InitiationHeader(version) == [version / 256, version % 256, 1, 0, 96]
  {
    TwoOctets(version);
    TwoOctets(96);
  }

  /** The response: type 2, length 48, the server's ephemeral key and a tag. */
  lemma ResponseOctets(c: Crypto, s: Sym, version: nat, machinePub: Bytes, machineEphemeralPub: Bytes,
                       ephemeral: Bytes)
    requires Lawful(c)
    ensures var resp := BuildResponse(c, s, version, machinePub, machineEphemeralPub, ephemeral).0;
            |resp| == 51 && resp[..3] == [2, 0, 48] && resp[3..35] == c.pub(ephemeral)
  {
    hide Hkdf, MixHash, MixDh, EncryptAndHash, Split;
    var s0 := MixHash(c, s, c.pub(ephemeral));
    var (s1, _) := MixDh(c, s0, ephemeral, machineEphemeralPub);
    var (s2, seKey) := MixDh(c, s1, ephemeral, machinePub);
    OpensWhatWasSealed(c, s2, seKey, []);
    TwoOctets(48);
  }

  /** An error message: type 3, its length, its text. */
  lemma ErrorOctets(message: Bytes)
    ensures ErrorFrame(message) ==
            if |message| < 65536 then [3, |message| / 256, |message| % 256] + message else [3, 0, 0] + message[..65536]
  {
    TwoOctets(|message|);
    TwoOctets(65536);
  }

  /** The client reads back what an error message says. */
  lemma ErrorReadsBack(c: Crypto, s: Sym, version: nat, machine: Bytes, controlPub: Bytes, ephemeral: Bytes,
                       message: Bytes)
    requires Lawful(c) && |message| < 65536
    ensures var frame := ErrorFrame(message);
            && LongEnough(frame)
            && FinishHandshake(c, s, version, machine, controlPub, ephemeral, frame) == Err(ServerError(message))
  {
    var frame := ErrorFrame(message);
    BeRoundTrip(|message|, 2);
    WidthBounds();
    assert frame[1..3] == Be(|message|, 2);
    assert frame[3..3 + |message|] == message;
  }

  /** What is wrong with the frame of an initiation, if anything is. */
  function Fault(init: Bytes): Option<Bytes> {
    if |init| != 101 then Some(Ascii("wrong handshake initiation size"))
    else if init[2] != 1 then Some(Ascii("unexpected handshake message type"))
    else if init[3] != 0 || init[4] != 96 then Some(Ascii("wrong handshake initiation length"))
    else None
  }

  lemma FaultShort(init: Bytes)
    ensures Fault(init).Some? ==> |Fault(init).value| < 65536
  {
  }

  lemma FaultAnswered(c: Crypto, init: Bytes, control: Bytes, controlEphemeral: Bytes)
    requires Lawful(c)
    ensures var (reply, r) := ServerHandshake(c, init, control, controlEphemeral);
            match Fault(init)
            case Some(reason) => r == Err(HandshakeError) && reply == ErrorFrame(reason)
            case None => r != Err(HandshakeError) && (r.Err? ==> r == Err(DecryptError) && reply == [])
  {
    hide OpenInitiation, BuildResponse, ErrorFrame, Ascii, FromBe;
    if |init| == 101 {
      FromTwoOctets(init[3..5]);
      OpeningFails(c, init, control);
    }
  }

  lemma OpeningFails(c: Crypto, init: Bytes, control: Bytes)
    requires Lawful(c) && |init| == INITIATION_MSG_LEN
    ensures OpenInitiation(c, init, control).Err? ==> OpenInitiation(c, init, control).error == DecryptError
  {
    hide Hkdf, MixHash, MixDh, DecryptAndHash, Begin;
  }

  /**
    A misframed initiation is refused and the client reads what is wrong with it. One framed rightly is never
    refused that way, and if it does not open, nothing is sent back.
   */
  lemma RefusalReachesClient(c: Crypto, init: Bytes, control: Bytes, controlEphemeral: Bytes, s: Sym, version: nat,
                             machine: Bytes, ephemeral: Bytes)
    requires Lawful(c)
    ensures var (reply, r) := ServerHandshake(c, init, control, controlEphemeral);
            match Fault(init)
            case Some(reason) =>
              && r == Err(HandshakeError) && LongEnough(reply)
              && FinishHandshake(c, s, version, machine, c.pub(control), ephemeral, reply) == Err(ServerError(reason))
            case None => r != Err(HandshakeError) && (r.Err? ==> r == Err(DecryptError) && reply == [])
  {
    hide ServerHandshake, FinishHandshake, ErrorFrame, Fault, LongEnough;
    FaultAnswered(c, init, control, controlEphemeral);
    FaultShort(init);
    if Fault(init).Some? {
      ErrorReadsBack(c, s, version, machine, c.pub(control), ephemeral, Fault(init).value);
    }
  }

  /** Which replies the client takes for no handshake message at all, and what it reports of an error message. */
  lemma FinishRefuses(c: Crypto, s: Sym, version: nat, machine: Bytes, controlPub: Bytes, ephemeral: Bytes, resp: Bytes)
    requires Lawful(c) && LongEnough(resp)
    ensures FinishHandshake(c, s, version, machine, controlPub, ephemeral, resp) == Err(HandshakeError) <==>
            (resp[0] != 2 && resp[0] != 3) || (resp[0] == 2 && (resp[1] != 0 || resp[2] != 48))
    ensures resp[0] == 3 ==>
              var end := 3 + 256 * (resp[1] as int) + resp[2];
              FinishHandshake(c, s, version, machine, controlPub, ephemeral, resp) ==
                Err(ServerError(if |resp| < end then Ascii("(truncated error)") else resp[3..end]))
  {
    hide Hkdf, MixHash, MixDh, DecryptAndHash, Split, FromBe, Ascii;
    if resp[0] == 2 || resp[0] == 3 { FromTwoOctets(resp[1..3]); }
  }

  /** The server reads back exactly the client's key, and both are then in the same symmetric state. */
  lemma ServerOpensInitiation(c: Crypto, version: nat, machine: Bytes, control: Bytes, ephemeral: Bytes)
    requires Lawful(c) && version < 65536
    ensures var (init, s) := BuildInitiation(c, version, machine, c.pub(control), ephemeral);
            && |init| == INITIATION_MSG_LEN && init[2] == MSG_TYPE_INITIATION
            && FromBe(init[3..5]) == INITIATION_PAYLOAD_LEN && FromBe(init[0..2]) == version
            && init[5..37] == c.pub(ephemeral)
            && OpenInitiation(c, init, control) == Ok((s, c.pub(machine)))
  {
    hide Hkdf, MixHash, InitiationHeader, Begin, MixDh, EncryptAndHash, DecryptAndHash;
    var s0 := MixHash(c, Begin(c, version, c.pub(control)), c.pub(ephemeral));
    DhAgrees(c, s0, ephemeral, control);
    var (s1, esKey) := MixDh(c, s0, ephemeral, c.pub(control));
    OpensWhatWasSealed(c, s1, esKey, c.pub(machine));
    var (s2, sealedKey) := EncryptAndHash(c, s1, esKey, c.pub(machine));
    DhAgrees(c, s2, machine, control);
    var (s3, ssKey) := MixDh(c, s2, machine, c.pub(control));
    OpensWhatWasSealed(c, s3, ssKey, []);
    var tag := EncryptAndHash(c, s3, ssKey, []).1;
    InitiationFields(version, c.pub(ephemeral), sealedKey, tag);
  }

  /** From a shared symmetric state, the response leads both ends to the same session. */
  lemma ClientFinishesResponse(c: Crypto, s: Sym, version: nat, machine: Bytes, ephemeral: Bytes, controlPub: Bytes,
                               controlEphemeral: Bytes)
    requires Lawful(c)
    ensures var (resp, server) := BuildResponse(c, s, version, c.pub(machine), c.pub(ephemeral), controlEphemeral);
            && |resp| == RESPONSE_MSG_LEN
            && FinishHandshake(c, s, version, machine, controlPub, ephemeral, resp) ==
               Ok(Session(version, controlPub, server.handshakeHash, server.rx, server.tx))
  {
    hide Hkdf, MixHash, MixDh, EncryptAndHash, DecryptAndHash, Split;
    var s0 := MixHash(c, s, c.pub(controlEphemeral));
    DhAgrees(c, s0, controlEphemeral, ephemeral);
    var (s1, _) := MixDh(c, s0, controlEphemeral, c.pub(ephemeral));
    DhAgrees(c, s1, controlEphemeral, machine);
    var (s2, seKey) := MixDh(c, s1, controlEphemeral, c.pub(machine));
    OpensWhatWasSealed(c, s2, seKey, []);
    ResponseFields(c.pub(controlEphemeral), EncryptAndHash(c, s2, seKey, []).1);
  }

  /**
    For every pair of static keys, pair of ephemeral keys and version: initiation, server handshake
    and finish all succeed; both ends get the same handshake hash and version, each end's sending key
    is the other's receiving key, and the server has learned exactly the client's public key.
   */
  lemma HandshakeAgreement(c: Crypto, version: nat, machine: Bytes, control: Bytes, ephemeral: Bytes,
                           controlEphemeral: Bytes)
    requires Lawful(c) && version < 65536
    ensures var (init, s) := BuildInitiation(c, version, machine, c.pub(control), ephemeral);
            var (resp, server) := ServerHandshake(c, init, control, controlEphemeral);
            && server.Ok? && |resp| == RESPONSE_MSG_LEN
            && var client := FinishHandshake(c, s, version, machine, c.pub(control), ephemeral, resp);
            && client.Ok?
            && client.value.handshakeHash == server.value.handshakeHash
            && client.value.version == server.value.version == version
            && client.value.tx == server.value.rx && client.value.rx == server.value.tx
            && server.value.peer == c.pub(machine) && client.value.peer == c.pub(control)
  {
    hide BuildInitiation, OpenInitiation, BuildResponse, FinishHandshake, ErrorFrame;
    ServerOpensInitiation(c, version, machine, control, ephemeral);
    var (init, s) := BuildInitiation(c, version, machine, c.pub(control), ephemeral);
    ClientFinishesResponse(c, s, version, machine, ephemeral, c.pub(control), controlEphemeral);
    ResponseSession(c, s, version, c.pub(machine), c.pub(ephemeral), controlEphemeral);
  }

  lemma ResponseSession(c: Crypto, s: Sym, version: nat, machinePub: Bytes, machineEphemeralPub: Bytes,
                        ephemeral: Bytes)
    requires Lawful(c)
    ensures var session := BuildResponse(c, s, version, machinePub, machineEphemeralPub, ephemeral).1;
            session.version == version && session.peer == machinePub
  {
  }
}
