/** Pairing with a new device as a trace of messages sent and replies received. The device
    and the cryptography are arbitrary. */
module Pairing {
  import opened Options
  import opened XpcValues
  import opened Envelopes
  import opened PairingReplies

  const TYPE_SALT: nat := 2
  const TYPE_PUBLIC_KEY: nat := 3
  const TYPE_PROOF: nat := 4
  const TYPE_ENCRYPTED_DATA: nat := 5

  const KIND := "setupManualPairing"
  const HOST := "ios-rs-host"

  type SrpSession = nat

  /** How replies are read and messages are written. The protocol is proved over any wire, so
      that no proof about its order has to look inside the envelopes. */
  datatype Wire = Wire(
    greeting: Reply -> Result<string, Error>,
    ack: Reply -> Result<(), Error>,
    data: Reply -> Result<Bytes, Error>,
    sealed: Reply -> Result<Bytes, Error>,
    hello: nat -> Xpc,
    event: (Bytes, bool, Option<string>, nat) -> Xpc,
    request: (Bytes, nat) -> Xpc)

  function Acknowledged(reply: Reply): Result<(), Error> {
    match PlainReply(reply) case Err(e) => Err(e) case Ok(_) => Ok(())
  }

  function SetupEvent(tlv: Bytes, newSession: bool, host: Option<string>, number: nat): Xpc {
    PairingEvent(tlv, KIND, newSession, host, number)
  }

  /** The wire of the protocol: its envelopes and their meaning. */
  function EnvelopeWire(): Wire {
    Wire(Greeting, Acknowledged, DataReply, SealedReply, HandshakeRequest, SetupEvent, EncryptedRequest)
  }

  ghost predicate Genuine(w: Wire) {
    && (forall reply {:trigger Greeting(reply)} :: w.greeting(reply) == Greeting(reply))
    && (forall reply {:trigger Acknowledged(reply)} :: w.ack(reply) == Acknowledged(reply))
    && (forall reply {:trigger DataReply(reply)} :: w.data(reply) == DataReply(reply))
    && (forall reply {:trigger SealedReply(reply)} :: w.sealed(reply) == SealedReply(reply))
    && (forall n {:trigger HandshakeRequest(n)} :: w.hello(n) == HandshakeRequest(n))
    && (forall tlv, newSession, host, n {:trigger SetupEvent(tlv, newSession, host, n)} ::
          w.event(tlv, newSession, host, n) == SetupEvent(tlv, newSession, host, n))
    && (forall payload, n {:trigger EncryptedRequest(payload, n)} ::
        w.request(payload, n) == EncryptedRequest(payload, n))
  }

  lemma EnvelopesAreGenuine()
    ensures Genuine(EnvelopeWire())
  {
  }

  /** The cryptographic operations and codecs, as unknown functions. */
  datatype Crypto = Crypto(
    setupTlv: Bytes,
    parseTlv: Bytes -> map<nat, Bytes>,
    srp: (Bytes, Bytes) -> Option<SrpSession>,
    proofTlv: SrpSession -> Bytes,
    verifyProof: (SrpSession, Bytes) -> bool,
    deviceInfo: SrpSession -> Option<(Bytes, Bytes)>,
    verifyInfo: (Bytes, Bytes) -> bool,
    deriveKeys: SrpSession -> Option<(Bytes, Bytes)>,
    encrypt: Bytes -> Option<Bytes>,
    decrypt: (Bytes, Bytes) -> Option<Bytes>,
    unlockReply: Bytes -> Result<Option<string>, Error>)

  datatype Toolkit = Toolkit(wire: Wire, crypto: Crypto)

  datatype Event = Sent(body: Xpc, id: nat) | Received(reply: Reply)

  type Trace = seq<Event>

  /** The other side: what the device answers to everything so far, and which sends fail. */
  datatype Peer = Peer(answer: Trace -> Reply, drops: nat -> bool)

  class Link {
    const peer: Peer
    var trace: Trace

    constructor (peer: Peer)
      ensures this.peer == peer && trace == []
    {
      this.peer, trace := peer, [];
    }

    method Send(body: Xpc, id: nat) returns (ok: bool)
      modifies this`trace
      ensures ok == !peer.drops(|old(trace)|)
      ensures trace == if ok then old(trace) + [Sent(body, id)] else old(trace)
    {
      ok := !peer.drops(|trace|);
      if ok { trace := trace + [Sent(body, id)]; }
    }

    method Receive() returns (reply: Reply)
      modifies this`trace
      ensures reply == peer.answer(old(trace)) && trace == old(trace) + [Received(reply)]
    {
      reply := peer.answer(trace);
      trace := trace + [Received(reply)];
    }
  }

  /** Any cryptography over the real envelopes. */
  function Real(crypto: Crypto): Toolkit {
    Toolkit(EnvelopeWire(), crypto)
  }

  lemma RealIsGenuine(crypto: Crypto)
    ensures Genuine(Real(crypto).wire)
  {
    EnvelopesAreGenuine();
  }

  // ------------------------------------------------ what a reply must pass

  /** Key and salt that give a session. */
  function SessionIn(k: Toolkit, reply: Reply): Result<SrpSession, Error> {
    match k.wire.data(reply)
    case Err(e) => Err(e)
    case Ok(data) =>
      var tlv := k.crypto.parseTlv(data);
      if TYPE_PUBLIC_KEY !in tlv then Err(Failed(NoPublicKey))
      else if TYPE_SALT !in tlv then Err(Failed(NoSalt))
      else match k.crypto.srp(tlv[TYPE_SALT], tlv[TYPE_PUBLIC_KEY]) case Some(s) => Ok(s) case None => Err(Error.Crypto)
  }

  /** A proof that verifies, and the device information made then. */
  function InfoIn(k: Toolkit, s: SrpSession, reply: Reply): Result<(Bytes, Bytes), Error> {
    match k.wire.data(reply)
    case Err(e) => Err(e)
    case Ok(data) =>
      var tlv := k.crypto.parseTlv(data);
      if TYPE_PROOF !in tlv then Err(Failed(NoServerProof))
      else if !k.crypto.verifyProof(s, tlv[TYPE_PROOF]) then Err(Failed(BadServerProof))
      else match k.crypto.deviceInfo(s) case Some(info) => Ok(info) case None => Err(Error.Crypto)
  }

  datatype Keys = Keys(client: Bytes, server: Bytes, payload: Bytes)

  /** An answer that verifies, and the keys and the request made then. */
  function KeysIn(k: Toolkit, s: SrpSession, setupKey: Bytes, reply: Reply): Result<Keys, Error> {
    match k.wire.data(reply)
    case Err(e) => Err(e)
    case Ok(data) =>
      var tlv := k.crypto.parseTlv(data);
      if TYPE_ENCRYPTED_DATA !in tlv then Err(Failed(NoEncryptedData))
      else if !k.crypto.verifyInfo(setupKey, tlv[TYPE_ENCRYPTED_DATA]) then Err(Error.Crypto)
      else match k.crypto.deriveKeys(s)
        case None => Err(Error.Crypto)
        case Some(keys) =>
          match k.crypto.encrypt(keys.0) case None => Err(Error.Crypto)
              case Some(payload) => Ok(Keys(keys.0, keys.1, payload))
  }

  /** An answer that can be decrypted and is accepted. */
  function UnlockIn(k: Toolkit, serverKey: Bytes, reply: Reply): Result<Option<string>, Error> {
    match k.wire.sealed(reply)
    case Err(e) => Err(e)
    case Ok(data) =>
      match k.crypto.decrypt(serverKey, data) case None => Err(Error.Crypto)
          case Some(plaintext) => k.crypto.unlockReply(plaintext)
  }

  // ---------------------------------------------------------------- traces

  const SENDS: set<nat> := {0, 2, 5, 7, 9}
  const LENGTH: nat := 11

  /** The replies of a trace, in order. */
  function Heard(t: Trace): (h: seq<Reply>) {
    if t == [] then []
    else Heard(t[..|t| - 1]) + if t[|t| - 1].Received? then [t[|t| - 1].reply] else []
  }

  /** The session that the replies so far lead to, and what follows from it. */
  function SessionOf(k: Toolkit, h: seq<Reply>): Result<SrpSession, Error>
    requires |h| > 2
  {
    SessionIn(k, h[2])
  }

  function InfoOf(k: Toolkit, h: seq<Reply>): Result<(Bytes, Bytes), Error>
    requires |h| > 3
  {
    match SessionOf(k, h) case Err(e) => Err(e) case Ok(s) => InfoIn(k, s, h[3])
  }

  function KeysOf(k: Toolkit, h: seq<Reply>): Result<Keys, Error>
    requires |h| > 4
  {
    match InfoOf(k, h) case Err(e) => Err(e) case Ok(info) => KeysIn(k, SessionOf(k, h).value, info.1, h[4])
  }

  function UnlockOf(k: Toolkit, h: seq<Reply>): Result<Option<string>, Error>
    requires |h| > 5
  {
    match KeysOf(k, h) case Err(e) => Err(e) case Ok(keys) => UnlockIn(k, keys.server, h[5])
  }

  function ErrorOf<T>(r: Result<T, Error>): Option<Error> {
    match r case Err(e) => Some(e) case Ok(_) => None
  }

  /** What is wrong with the i-th reply, given those before it. */
  function Fault(k: Toolkit, h: seq<Reply>, i: nat): Option<Error>
    requires i < |h|
  {
    if i == 0 then ErrorOf(k.wire.greeting(h[0]))
    else if i == 1 then ErrorOf(k.wire.ack(h[1]))
    else if i == 2 then ErrorOf(SessionOf(k, h))
    else if i == 3 then ErrorOf(InfoOf(k, h))
    else if i == 4 then ErrorOf(KeysOf(k, h))
    else ErrorOf(UnlockOf(k, h))
  }

  /** What is wrong with a reply does not depend on later ones. */
  lemma FaultIsSettled(k: Toolkit, h: seq<Reply>, reply: Reply, i: nat)
    requires i < |h| && i < 6
    ensures Fault(k, h + [reply], i) == Fault(k, h, i)
  {
    var longer := h + [reply];
    assert forall j :: 0 <= j <= i ==> longer[j] == h[j];
  }

  predicate Passed(k: Toolkit, h: seq<Reply>) {
    forall i :: 0 <= i < |h| ==> Fault(k, h, i).None?
  }

  /** The n-th message, for replies that have passed. */
  predicate Due(k: Toolkit, h: seq<Reply>, n: nat, body: Xpc) {
    if n == 0 then body == k.wire.hello(n + 1)
    else if n == 1 then body == k.wire.event(k.crypto.setupTlv, true, None, n + 1)
    else if n == 2 then |h| > 2 && SessionOf(k, h).Ok?
         && body == k.wire.event(k.crypto.proofTlv(SessionOf(k, h).value), false, None, n + 1)
    else if n == 3 then |h| > 3 && InfoOf(k, h).Ok?
         && body == k.wire.event(InfoOf(k, h).value.0, false, Some(HOST), n + 1)
    else |h| > 4 && KeysOf(k, h).Ok? && body == k.wire.request(KeysOf(k, h).value.payload, n + 1)
  }

  /** What may come next after a trace: something only if every reply so far has passed;
      a message that gets through, the one that is due, at five of the eleven places; a
      reply of the device at the others. */
  predicate Allowed(k: Toolkit, peer: Peer, before: Trace, e: Event) {
    && |before| < LENGTH && Passed(k, Heard(before))
    && (e.Sent? <==> |before| in SENDS)
    && match e
       case Sent(body, id) =>
         var n := |before| - |Heard(before)|;
         n >= 0 && id == n + 1 && Due(k, Heard(before), n, body) && !peer.drops(|before|)
       case Received(reply) => reply == peer.answer(before)
  }

  predicate Orderly(k: Toolkit, peer: Peer, t: Trace) {
    t == [] || (Orderly(k, peer, t[..|t| - 1]) && Allowed(k, peer, t[..|t| - 1], t[|t| - 1]))
  }

  /** A run ends in failure at a reply that does not pass, or at a send that fails. */
  predicate FailsWith(k: Toolkit, peer: Peer, t: Trace, e: Error) {
    || (t != [] && t[|t| - 1].Received? && |Heard(t)| > 0 && Fault(k, Heard(t), |Heard(t)| - 1) == Some(e))
    || (e == Channel && |t| in SENDS && peer.drops(|t|) && Passed(k, Heard(t)))
  }

  datatype Credentials = Credentials(remoteIdentifier: string, hostKey: Option<string>, client: Bytes, server: Bytes)

  /** The credentials are those of a complete run. */
  predicate SucceedsWith(k: Toolkit, t: Trace, c: Credentials) {
    var h := Heard(t);
    && |t| == LENGTH && |h| == 6 && Passed(k, h)
    && k.wire.greeting(h[0]) == Ok(c.remoteIdentifier) && UnlockOf(k, h) == Ok(c.hostKey)
    && KeysOf(k, h).Ok? && KeysOf(k, h).value.client == c.client && KeysOf(k, h).value.server == c.server
  }

  /** How a run ends: with the credentials of a complete trace, or with the error that its
      last reply or its last send gave. */
  predicate Ends(k: Toolkit, peer: Peer, t: Trace, r: Result<Credentials, Error>) {
    match r case Ok(c) => SucceedsWith(k, t, c) case Err(e) => FailsWith(k, peer, t, e)
  }
}
