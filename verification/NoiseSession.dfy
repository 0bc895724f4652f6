/** A whole ts2021 session: the handshake, and then records in both directions. */
module NoiseSession {
  import opened Common
  import opened NoiseCrypto
  import opened NoiseHandshake
  import opened NoiseRecords

  /**
    Client and server from the first message on. For all keys, ephemerals and versions the handshake
    succeeds, and afterwards what each end writes the other end reads: everything exactly within the
    nonce limit, and beyond it everything up to the last usable nonce.
   */
  method Converse(c: Crypto, version: nat, machine: Bytes, control: Bytes, ephemeral: Bytes, controlEphemeral: Bytes,
                  up: seq<Bytes>, down: seq<Bytes>)
    returns (upOk: bool, received: Bytes, downOk: bool, answered: Bytes)
    requires Lawful(c) && version < 65536
    ensures upOk <==> |AllChunks(up)| <= INVALID_NONCE
    ensures received == Concat(AllChunks(up)[..Sendable(0, |AllChunks(up)|)]) && (upOk ==> received == Concat(up))
    ensures downOk <==> |AllChunks(down)| <= INVALID_NONCE
    ensures answered == Concat(AllChunks(down)[..Sendable(0, |AllChunks(down)|)])
            && (downOk ==> answered == Concat(down))
  {
    hide Lawful, BuildInitiation, ServerHandshake, FinishHandshake, AllChunks, Concat, CipherState.Valid;
    HandshakeAgreement(c, version, machine, control, ephemeral, controlEphemeral);
    var init, s := ComputeInitiation(c, version, machine, c.pub(control), ephemeral);
    var resp, server := ComputeServerHandshake(c, init, control, controlEphemeral);
    var client := ComputeFinish(c, s, version, machine, c.pub(control), ephemeral, resp);
    var clientTx := new CipherState(client.value.tx);
    var clientRx := new CipherState(client.value.rx);
    var serverTx := new CipherState(server.value.tx);
    var serverRx := new CipherState(server.value.rx);
    upOk, received := Transfer(clientTx, serverRx, c, up);
    downOk, answered := Transfer(serverTx, clientRx, c, down);
  }
}
