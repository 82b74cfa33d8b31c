/** The pairing call itself, step by step. */
module PairingRun {
  import opened Options
  import opened XpcValues
  import opened Envelopes
  import opened PairingReplies
  import opened Pairing

  lemma Extends(k: Toolkit, peer: Peer, t: Trace, e: Event)
    requires Orderly(k, peer, t) && Allowed(k, peer, t, e)
    ensures Orderly(k, peer, t + [e])
    ensures Heard(t + [e]) == Heard(t) + if e.Received? then [e.reply] else []
  {
    assert (t + [e])[..|t|] == t;
  }

  lemma PassesOn(k: Toolkit, h: seq<Reply>, reply: Reply)
    requires Passed(k, h) && |h| < 6 && Fault(k, h + [reply], |h|).None?
    ensures Passed(k, h + [reply])
  {
    forall i | 0 <= i < |h| ensures Fault(k, h + [reply], i).None? {
      FaultIsSettled(k, h, reply, i);
    }
  }

  /** The host is in the middle of a run that has gone well so far. */
  ghost predicate Running(link: Link, k: Toolkit, events: nat, replies: nat)
    reads link
  {
    && Orderly(k, link.peer, link.trace) && Passed(k, Heard(link.trace))
    && |link.trace| == events && |Heard(link.trace)| == replies
  }

  /** The wire is the protocol's, and what comes in over it is sound. */
  ghost predicate Usable(k: Toolkit, peer: Peer) {
    Genuine(k.wire) && SoundPeer(peer)
  }

  /** Dictionaries that come in have no key twice. */
  ghost predicate SoundPeer(peer: Peer) {
    forall t :: Sound(peer.answer(t))
  }

  method HearGreeting(w: Wire, reply: Reply) returns (r: Result<string, Error>)
    requires Genuine(w) && Sound(reply)
    ensures r == w.greeting(reply)
  {
    r := ReceiveHandshake(reply);
  }

  method HearAck(w: Wire, reply: Reply) returns (r: Result<(), Error>)
    requires Genuine(w) && Sound(reply)
    ensures r == w.ack(reply)
  {
    var plain := ReceivePlain(reply);
    r := if plain.Err? then Err(plain.error) else Ok(());
    assert r == Acknowledged(reply);
  }

  method HearData(w: Wire, reply: Reply) returns (r: Result<Bytes, Error>)
    requires Genuine(w) && Sound(reply)
    ensures r == w.data(reply)
  {
    r := ReceivePairingData(reply);
  }

  method HearSealed(w: Wire, reply: Reply) returns (r: Result<Bytes, Error>)
    requires Genuine(w) && Sound(reply)
    ensures r == w.sealed(reply)
  {
    r := ReceiveSealed(reply);
  }

  method BuildHello(w: Wire, number: nat) returns (body: Xpc)
    requires Genuine(w)
    ensures body == w.hello(number)
  {
    body := HandshakeRequest(number);
  }

  method BuildEvent(w: Wire, tlv: Bytes, newSession: bool, host: Option<string>, number: nat) returns (body: Xpc)
    requires Genuine(w)
    ensures body == w.event(tlv, newSession, host, number)
  {
    body := SetupEvent(tlv, newSession, host, number);
  }

  method BuildRequest(w: Wire, payload: Bytes, number: nat) returns (body: Xpc)
    requires Genuine(w)
    ensures body == w.request(payload, number)
  {
    body := EncryptedRequest(payload, number);
  }

  lemma MaySend(k: Toolkit, peer: Peer, t: Trace, n: nat, body: Xpc)
    requires Passed(k, Heard(t)) && |t| in SENDS && n == |t| - |Heard(t)| && Due(k, Heard(t), n, body)
             && !peer.drops(|t|)
    ensures Allowed(k, peer, t, Sent(body, n + 1))
  {
  }

  lemma AfterSend(k: Toolkit, peer: Peer, t: Trace, n: nat, body: Xpc)
    requires Orderly(k, peer, t) && Passed(k, Heard(t))
    requires |t| in SENDS && n == |t| - |Heard(t)| && Due(k, Heard(t), n, body) && !peer.drops(|t|)
    ensures Orderly(k, peer, t + [Sent(body, n + 1)]) && Heard(t + [Sent(body, n + 1)]) == Heard(t)
  {
    MaySend(k, peer, t, n, body);
    Extends(k, peer, t, Sent(body, n + 1));
    assert Heard(t) + [] == Heard(t);
  }

  lemma SendFails(k: Toolkit, peer: Peer, t: Trace)
    requires Passed(k, Heard(t)) && |t| in SENDS && peer.drops(|t|)
    ensures FailsWith(k, peer, t, Channel)
  {
  }

  /** Sends the message that is due. */
  method SendNext(link: Link, k: Toolkit, body: Xpc, id: nat, ghost events: nat, ghost replies: nat) returns (ok: bool)
    requires Running(link, k, events, replies) && events in SENDS && events >= replies && id == events - replies + 1
    requires Due(k, Heard(link.trace), events - replies, body)
    modifies link
    ensures ok ==> Running(link, k, events + 1, replies) && Heard(link.trace) == Heard(old(link.trace))
    ensures !ok ==> Orderly(k, link.peer, link.trace) && FailsWith(k, link.peer, link.trace, Channel)
  {
    ghost var before := link.trace;
    ok := link.Send(body, id);
    if ok {
      AfterSend(k, link.peer, before, events - replies, body);
      assert link.trace == before + [Sent(body, events - replies + 1)];
    } else {
      SendFails(k, link.peer, before);
    }
  }

  /** Waits for the next reply. */
  method Await(link: Link, k: Toolkit, ghost events: nat, ghost replies: nat) returns (reply: Reply)
    requires SoundPeer(link.peer) && Running(link, k, events, replies) && events < LENGTH && events !in SENDS
    modifies link
    ensures Sound(reply) && Orderly(k, link.peer, link.trace)
    ensures link.trace == old(link.trace) + [Received(reply)] && Heard(link.trace) == Heard(old(link.trace)) + [reply]
  {
    Extends(k, link.peer, link.trace, Received(link.peer.answer(link.trace)));
    reply := link.Receive();
  }

  /** The end of a stage: the run goes on, or it has failed with this error. */
  ghost predicate Stage<T>(link: Link, k: Toolkit, events: nat, replies: nat, r: Result<T, Error>)
    reads link
  {
    match r
    case Ok(_) => Running(link, k, events, replies)
    case Err(e) => Orderly(k, link.peer, link.trace) && FailsWith(k, link.peer, link.trace, e)
  }

  /** Handshake and its reply. */
  method Greet(link: Link, k: Toolkit) returns (r: Result<string, Error>)
    requires link.trace == [] && Usable(k, link.peer)
    modifies link
    ensures Stage(link, k, 2, 1, r)
    ensures r.Ok? ==> k.wire.greeting(Heard(link.trace)[0]) == r
  {
    var body := BuildHello(k.wire, 1);
    var ok := SendNext(link, k, body, 1, 0, 0);
    if !ok {
      return Err(Channel);
    }
    var reply := Await(link, k, 1, 0);
    r := HearGreeting(k.wire, reply);
    if r.Ok? {
      PassesOn(k, [], reply);
    }
  }

  /** The setup message, its acknowledgement, and key and salt of the device. */
  method Setup(link: Link, k: Toolkit, number: nat) returns (r: Result<SrpSession, Error>)
    requires Usable(k, link.peer) && Running(link, k, 2, 1) && number == 2
    modifies link
    ensures Stage(link, k, 5, 3, r)
    ensures r.Ok? ==> SessionOf(k, Heard(link.trace)) == r && Heard(link.trace)[0] == Heard(old(link.trace))[0]
  {
    var body := BuildEvent(k.wire, k.crypto.setupTlv, true, None, number);
    var ok := SendNext(link, k, body, 2, 2, 1);
    if !ok {
      return Err(Channel);
    }
    ghost var h := Heard(link.trace);
    var ack := Await(link, k, 3, 1);
    var acknowledged := HearAck(k.wire, ack);
    if acknowledged.Err? {
      return Err(acknowledged.error);
    }
    PassesOn(k, h, ack);
    var reply := Await(link, k, 4, 2);
    var data := HearData(k.wire, reply);
    if data.Err? {
      return Err(data.error);
    }
    var tlv := k.crypto.parseTlv(data.value);
    if TYPE_PUBLIC_KEY !in tlv {
      return Err(Failed(NoPublicKey));
    }
    if TYPE_SALT !in tlv {
      return Err(Failed(NoSalt));
    }
    var s := k.crypto.srp(tlv[TYPE_SALT], tlv[TYPE_PUBLIC_KEY]);
    if s.None? {
      return Err(Error.Crypto);
    }
    PassesOn(k, h + [ack], reply);
    r := Ok(s.value);
  }

  /** The host's proof, and the device's own, which must verify. */
  method Prove(link: Link, k: Toolkit, s: SrpSession, number: nat) returns (r: Result<(Bytes, Bytes), Error>)
    requires Usable(k, link.peer) && Running(link, k, 5, 3) && number == 3 && SessionOf(k, Heard(link.trace)) == Ok(s)
    modifies link
    ensures Stage(link, k, 7, 4, r)
    ensures r.Ok? ==> InfoOf(k, Heard(link.trace)) == r && Heard(link.trace)[..3] == Heard(old(link.trace))
  {
    var body := BuildEvent(k.wire, k.crypto.proofTlv(s), false, None, number);
    var ok := SendNext(link, k, body, 3, 5, 3);
    if !ok {
      return Err(Channel);
    }
    ghost var h := Heard(link.trace);
    var reply := Await(link, k, 6, 3);
    var data := HearData(k.wire, reply);
    if data.Err? {
      return Err(data.error);
    }
    var tlv := k.crypto.parseTlv(data.value);
    if TYPE_PROOF !in tlv {
      return Err(Failed(NoServerProof));
    }
    if !k.crypto.verifyProof(s, tlv[TYPE_PROOF]) {
      return Err(Failed(BadServerProof));
    }
    var info := k.crypto.deviceInfo(s);
    if info.None? {
      return Err(Error.Crypto);
    }
    PassesOn(k, h, reply);
    r := Ok(info.value);
  }

  /** The host's device information, and the device's answer, which must verify. */
  method Inform(link: Link, k: Toolkit, s: SrpSession, info: (Bytes, Bytes), number: nat)
    returns (r: Result<Keys, Error>)
    requires Usable(k, link.peer) && Running(link, k, 7, 4) && number == 4
    requires SessionOf(k, Heard(link.trace)) == Ok(s) && InfoOf(k, Heard(link.trace)) == Ok(info)
    modifies link
    ensures Stage(link, k, 9, 5, r)
    ensures r.Ok? ==> KeysOf(k, Heard(link.trace)) == r && Heard(link.trace)[..4] == Heard(old(link.trace))
  {
    var body := BuildEvent(k.wire, info.0, false, Some(HOST), number);
    var ok := SendNext(link, k, body, 4, 7, 4);
    if !ok {
      return Err(Channel);
    }
    ghost var h := Heard(link.trace);
    var reply := Await(link, k, 8, 4);
    var data := HearData(k.wire, reply);
    if data.Err? {
      return Err(data.error);
    }
    var tlv := k.crypto.parseTlv(data.value);
    if TYPE_ENCRYPTED_DATA !in tlv {
      return Err(Failed(NoEncryptedData));
    }
    if !k.crypto.verifyInfo(info.1, tlv[TYPE_ENCRYPTED_DATA]) {
      return Err(Error.Crypto);
    }
    var keys := k.crypto.deriveKeys(s);
    if keys.None? {
      return Err(Error.Crypto);
    }
    var payload := k.crypto.encrypt(keys.value.0);
    if payload.None? {
      return Err(Error.Crypto);
    }
    PassesOn(k, h, reply);
    r := Ok(Keys(keys.value.0, keys.value.1, payload.value));
  }

  /** The encrypted unlock request and its answer. */
  method Unlock(link: Link, k: Toolkit, keys: Keys, number: nat) returns (r: Result<Option<string>, Error>)
    requires Usable(k, link.peer) && Running(link, k, 9, 5) && number == 5 && KeysOf(k, Heard(link.trace)) == Ok(keys)
    modifies link
    ensures Stage(link, k, LENGTH, 6, r)
    ensures r.Ok? ==> UnlockOf(k, Heard(link.trace)) == r && Heard(link.trace)[..5] == Heard(old(link.trace))
  {
    var body := BuildRequest(k.wire, keys.payload, number);
    var ok := SendNext(link, k, body, 5, 9, 5);
    if !ok {
      return Err(Channel);
    }
    ghost var h := Heard(link.trace);
    var reply := Await(link, k, 10, 5);
    var data := HearSealed(k.wire, reply);
    if data.Err? {
      return Err(data.error);
    }
    var plaintext := k.crypto.decrypt(keys.server, data.value);
    if plaintext.None? {
      return Err(Error.Crypto);
    }
    r := k.crypto.unlockReply(plaintext.value);
    if r.Ok? {
      PassesOn(k, h, reply);
    }
  }

  /** The whole call, against any device and with any cryptography. What it sends and hears
      is orderly, and it ends as its trace calls for. */
  method PairNewDevice(link: Link, crypto: Crypto) returns (r: Result<Credentials, Error>)
    requires link.trace == [] && SoundPeer(link.peer)
    modifies link
    ensures Orderly(Real(crypto), link.peer, link.trace) && Ends(Real(crypto), link.peer, link.trace, r)
  {
    RealIsGenuine(crypto);
    r := Converse(link, Real(crypto));
  }

  /** The stages of the call, one after the other. */
  method Converse(link: Link, k: Toolkit) returns (r: Result<Credentials, Error>)
    requires link.trace == [] && Usable(k, link.peer)
    modifies link
    ensures Orderly(k, link.peer, link.trace) && Ends(k, link.peer, link.trace, r)
  {
    var number := 1;
    var identifier := Greet(link, k);
    if identifier.Err? {
      return Err(identifier.error);
    }
    ghost var h := Heard(link.trace);
    number := number + 1;
    var s := Setup(link, k, number);
    if s.Err? {
      return Err(s.error);
    }
    number := number + 1;
    var info := Prove(link, k, s.value, number);
    if info.Err? {
      return Err(info.error);
    }
    number := number + 1;
    var keys := Inform(link, k, s.value, info.value, number);
    if keys.Err? {
      return Err(keys.error);
    }
    number := number + 1;
    var hostKey := Unlock(link, k, keys.value, number);
    if hostKey.Err? {
      return Err(hostKey.error);
    }
    r := Ok(Credentials(identifier.value, hostKey.value, keys.value.client, keys.value.server));
  }
}
