/** What the device must have answered for a pairing call to go on and to return credentials,
    said on its replies and the cryptography alone. */
module PairingEvidence {
  import opened Options
  import opened XpcValues
  import opened Envelopes
  import opened EnvelopeFields
  import opened PairingReplies
  import opened Pairing
  import opened PairingTraces

  /** The reply carries pairing data with this item in it. */
  predicate Holds(k: Toolkit, reply: Reply, kind: nat, item: Bytes) {
    k.wire.data(reply).Ok? && var tlv := k.crypto.parseTlv(k.wire.data(reply).value); kind in tlv && tlv[kind] == item
  }

  /** The reply carries pairing data without such an item. */
  predicate Lacks(k: Toolkit, reply: Reply, kind: nat) {
    k.wire.data(reply).Ok? && kind !in k.crypto.parseTlv(k.wire.data(reply).value)
  }

  /** Salt and public key in the reply give this session. */
  ghost predicate Agrees(k: Toolkit, reply: Reply, s: SrpSession) {
    exists salt, key ::
      Holds(k, reply, TYPE_SALT, salt) && Holds(k, reply, TYPE_PUBLIC_KEY, key)
      && k.crypto.srp(salt, key) == Some(s)
  }

  /** The reply proves that the device has the session. */
  ghost predicate Proves(k: Toolkit, reply: Reply, s: SrpSession) {
    exists proof :: Holds(k, reply, TYPE_PROOF, proof) && k.crypto.verifyProof(s, proof)
  }

  /** The reply holds the device's own information, and it verifies under the setup key. */
  ghost predicate Answers(k: Toolkit, reply: Reply, setupKey: Bytes) {
    exists answer :: Holds(k, reply, TYPE_ENCRYPTED_DATA, answer) && k.crypto.verifyInfo(setupKey, answer)
  }

  /** What the server key decrypts from the reply is an accepted unlock answer. */
  predicate Unlocks(k: Toolkit, reply: Reply, serverKey: Bytes, hostKey: Option<string>) {
    && k.wire.sealed(reply).Ok?
    && var plaintext := k.crypto.decrypt(serverKey, k.wire.sealed(reply).value);
       plaintext.Some? && k.crypto.unlockReply(plaintext.value) == Ok(hostKey)
  }

  /** The replies, in order, that earn these credentials. */
  ghost predicate Earned(k: Toolkit, h: seq<Reply>, c: Credentials) {
    && |h| == 6
    && k.wire.greeting(h[0]) == Ok(c.remoteIdentifier) && k.wire.ack(h[1]).Ok?
    && Unlocks(k, h[5], c.server, c.hostKey)
    && exists s, info :: Trusted(k, h, s, info, c.client, c.server)
  }

  /** The device has agreed on the session, proved it and answered for it, and these are the
      keys derived from it. */
  ghost predicate Trusted(k: Toolkit, h: seq<Reply>, s: SrpSession, info: (Bytes, Bytes), client: Bytes,
                          server: Bytes)
    requires |h| > 4
  {
    && Agrees(k, h[2], s) && Proves(k, h[3], s)
    && k.crypto.deviceInfo(s) == Some(info) && Answers(k, h[4], info.1)
    && k.crypto.deriveKeys(s) == Some((client, server)) && k.crypto.encrypt(client).Some?
  }

  // ------------------------------------------------- the stages, one by one

  lemma SessionExactly(k: Toolkit, reply: Reply, s: SrpSession)
    ensures SessionIn(k, reply) == Ok(s) <==> Agrees(k, reply, s)
  {
    if SessionIn(k, reply) == Ok(s) {
      var tlv := k.crypto.parseTlv(k.wire.data(reply).value);
      assert Holds(k, reply, TYPE_SALT, tlv[TYPE_SALT]);
      assert Holds(k, reply, TYPE_PUBLIC_KEY, tlv[TYPE_PUBLIC_KEY]);
    }
  }

  lemma InfoExactly(k: Toolkit, s: SrpSession, reply: Reply, info: (Bytes, Bytes))
    ensures InfoIn(k, s, reply) == Ok(info) <==> Proves(k, reply, s) && k.crypto.deviceInfo(s) == Some(info)
  {
    if InfoIn(k, s, reply) == Ok(info) {
      assert Holds(k, reply, TYPE_PROOF, k.crypto.parseTlv(k.wire.data(reply).value)[TYPE_PROOF]);
    }
  }

  lemma KeysExactly(k: Toolkit, s: SrpSession, setupKey: Bytes, reply: Reply, keys: Keys)
    ensures KeysIn(k, s, setupKey, reply) == Ok(keys) <==>
            Answers(k, reply, setupKey) && k.crypto.deriveKeys(s) == Some((keys.client, keys.server))
            && k.crypto.encrypt(keys.client) == Some(keys.payload)
  {
    if KeysIn(k, s, setupKey, reply) == Ok(keys) {
      var tlv := k.crypto.parseTlv(k.wire.data(reply).value);
      assert Holds(k, reply, TYPE_ENCRYPTED_DATA, tlv[TYPE_ENCRYPTED_DATA]);
    }
  }

  lemma UnlockExactly(k: Toolkit, serverKey: Bytes, reply: Reply, hostKey: Option<string>)
    ensures UnlockIn(k, serverKey, reply) == Ok(hostKey) <==> Unlocks(k, reply, serverKey, hostKey)
  {
  }

  // -------------------------------------------------------------- messages

  /** What a pairing event says besides its bytes. */
  predicate Says(body: Xpc, newSession: bool, host: Option<string>) {
    var v, place := Meaning(body), EVENT + ["pairingData", "_0"];
    && HasText(v, place + ["kind"], KIND)
    && Reached(v, place + ["startNewSession"]) == Some(Plain(Bool(newSession)))
    && Reached(v, place + ["sendingHost"]) == if host.Some? then Some(Plain(Str(host.value))) else None
  }

  lemma EventSays(tlv: Bytes, newSession: bool, host: Option<string>, number: nat, body: Xpc)
    requires body == SetupEvent(tlv, newSession, host, number)
    ensures Says(body, newSession, host)
  {
    PairingEventHolds(tlv, KIND, newSession, host, number);
  }

  /** Of the three pairing events the first alone starts a new session, and the third alone
      names the host. */
  lemma EventsSay(k: Toolkit, peer: Peer, t: Trace, i: nat)
    requires Genuine(k.wire) && Orderly(k, peer, t) && 1 <= i <= 3 && SEND_AT[i] < |t|
    ensures t[SEND_AT[i]].Sent? && Says(t[SEND_AT[i]].body, i == 1, if i == 3 then Some(HOST) else None)
  {
    var p := SEND_AT[i];
    AllowedAt(k, peer, t, p);
    HeardCount(k, peer, t[..p]);
    DueSays(k, Heard(t[..p]), i, t[p].body);
  }

  lemma DueSays(k: Toolkit, h: seq<Reply>, n: nat, body: Xpc)
    requires Genuine(k.wire) && 1 <= n <= 3 && Due(k, h, n, body)
    ensures Says(body, n == 1, if n == 3 then Some(HOST) else None)
  {
    var tlv := DueIsEvent(k, h, n, body);
    WireEventSays(k.wire, tlv, n == 1, if n == 3 then Some(HOST) else None, n + 1);
  }

  lemma DueIsEvent(k: Toolkit, h: seq<Reply>, n: nat, body: Xpc) returns (tlv: Bytes)
    requires 1 <= n <= 3 && Due(k, h, n, body)
    ensures body == k.wire.event(tlv, n == 1, if n == 3 then Some(HOST) else None, n + 1)
  {
    tlv := if n == 1 then k.crypto.setupTlv else if n == 2 then k.crypto.proofTlv(SessionOf(k, h).value)
        else InfoOf(k, h).value.0;
  }

  lemma WireEventSays(w: Wire, tlv: Bytes, newSession: bool, host: Option<string>, number: nat)
    requires Genuine(w)
    ensures Says(w.event(tlv, newSession, host, number), newSession, host)
  {
    EventSays(tlv, newSession, host, number, SetupEvent(tlv, newSession, host, number));
  }

  // ---------------------------------------------------------------- gating

  lemma SessionAt(k: Toolkit, h: seq<Reply>) returns (s: SrpSession)
    requires |h| > 2 && Passed(k, h)
    ensures SessionOf(k, h) == Ok(s) && Agrees(k, h[2], s)
  {
    assert Fault(k, h, 2).None?;
    s := SessionOf(k, h).value;
    SessionExactly(k, h[2], s);
  }

  lemma InfoAt(k: Toolkit, h: seq<Reply>, s: SrpSession) returns (info: (Bytes, Bytes))
    requires |h| > 3 && Passed(k, h) && SessionOf(k, h) == Ok(s)
    ensures InfoOf(k, h) == Ok(info) && Proves(k, h[3], s) && k.crypto.deviceInfo(s) == Some(info)
  {
    assert Fault(k, h, 3).None?;
    info := InfoOf(k, h).value;
    InfoExactly(k, s, h[3], info);
  }

  lemma KeysAt(k: Toolkit, h: seq<Reply>, s: SrpSession, info: (Bytes, Bytes)) returns (keys: Keys)
    requires |h| > 4 && Passed(k, h) && SessionOf(k, h) == Ok(s) && InfoOf(k, h) == Ok(info)
    ensures KeysOf(k, h) == Ok(keys) && Answers(k, h[4], info.1)
    ensures k.crypto.deriveKeys(s) == Some((keys.client, keys.server))
            && k.crypto.encrypt(keys.client) == Some(keys.payload)
  {
    assert Fault(k, h, 4).None?;
    keys := KeysOf(k, h).value;
    KeysExactly(k, s, info.1, h[4], keys);
  }

  /** The unlock request, the fifth message, goes out only after the device has agreed on a
      session, proved that it has it, and answered with information that verifies under the
      setup key made for that session. */
  lemma UnlockOnlyAfterAnswer(k: Toolkit, peer: Peer, t: Trace) returns (s: SrpSession, info: (Bytes, Bytes))
    requires Orderly(k, peer, t) && |t| > SEND_AT[4]
    ensures t[4].Received? && t[6].Received? && t[8].Received?
    ensures Agrees(k, t[4].reply, s) && Proves(k, t[6].reply, s)
    ensures k.crypto.deviceInfo(s) == Some(info) && Answers(k, t[8].reply, info.1)
  {
    var before := t[..9];
    AllowedAt(k, peer, t, 9);
    HeardCount(k, peer, before);
    HeardAt(k, peer, before, 2);
    HeardAt(k, peer, before, 3);
    HeardAt(k, peer, before, 4);
    s := SessionAt(k, Heard(before));
    info := InfoAt(k, Heard(before), s);
    var _ := KeysAt(k, Heard(before), s, info);
  }

  // ---------------------------------------------------------------- result

  /** A call returns credentials exactly when all eleven events have happened and the six
      replies earn them: the identifier of the handshake reply, the two keys derived from the
      session, client and then server, and the host key of the unlock answer. */
  lemma CredentialsExactlyWhenEarned(k: Toolkit, peer: Peer, t: Trace, c: Credentials)
    requires Orderly(k, peer, t)
    ensures Ends(k, peer, t, Ok(c)) <==> |t| == LENGTH && Earned(k, Heard(t), c)
  {
    var h := Heard(t);
    HeardCount(k, peer, t);
    if Ends(k, peer, t, Ok(c)) {
      SucceedsEarns(k, h, c);
    }
    if |t| == LENGTH && Earned(k, h, c) {
      EarnedPasses(k, h, c);
    }
  }

  lemma SucceedsEarns(k: Toolkit, h: seq<Reply>, c: Credentials)
    requires |h| == 6 && Passed(k, h)
    requires k.wire.greeting(h[0]) == Ok(c.remoteIdentifier) && UnlockOf(k, h) == Ok(c.hostKey)
    requires KeysOf(k, h).Ok? && KeysOf(k, h).value.client == c.client && KeysOf(k, h).value.server == c.server
    ensures Earned(k, h, c)
  {
    assert Fault(k, h, 1).None?;
    var s := SessionAt(k, h);
    var info := InfoAt(k, h, s);
    var keys := KeysAt(k, h, s, info);
    UnlockExactly(k, keys.server, h[5], c.hostKey);
    assert Trusted(k, h, s, info, c.client, c.server);
  }

  lemma EarnedPasses(k: Toolkit, h: seq<Reply>, c: Credentials)
    requires Earned(k, h, c)
    ensures Passed(k, h) && k.wire.greeting(h[0]) == Ok(c.remoteIdentifier) && UnlockOf(k, h) == Ok(c.hostKey)
    ensures KeysOf(k, h).Ok? && KeysOf(k, h).value.client == c.client && KeysOf(k, h).value.server == c.server
  {
    var s, info :| Trusted(k, h, s, info, c.client, c.server);
    TrustedPasses(k, h, s, info, c.client, c.server);
    UnlockExactly(k, c.server, h[5], c.hostKey);
    assert Fault(k, h, 0).None? && Fault(k, h, 1).None? && Fault(k, h, 5).None?;
  }

  lemma TrustedPasses(k: Toolkit, h: seq<Reply>, s: SrpSession, info: (Bytes, Bytes), client: Bytes, server: Bytes)
    requires |h| > 4 && Trusted(k, h, s, info, client, server)
    ensures Fault(k, h, 2).None? && Fault(k, h, 3).None? && Fault(k, h, 4).None?
    ensures KeysOf(k, h).Ok? && KeysOf(k, h).value.client == client && KeysOf(k, h).value.server == server
  {
    SessionExactly(k, h[2], s);
    InfoExactly(k, s, h[3], info);
    KeysExactly(k, s, info.1, h[4], Keys(client, server, k.crypto.encrypt(client).value));
    assert SessionOf(k, h) == Ok(s);
    assert InfoOf(k, h) == Ok(info);
  }

  // --------------------------------------------------------------- refusal

  /** A reply that does not pass is the last event, and the call fails with its error. */
  lemma FaultIsLast(k: Toolkit, peer: Peer, t: Trace, r: Result<Credentials, Error>, i: nat, e: Error)
    requires Orderly(k, peer, t) && Ends(k, peer, t, r) && i < 6 && REPLY_AT[i] < |t|
    requires |Heard(t[..REPLY_AT[i] + 1])| == i + 1 && Fault(k, Heard(t[..REPLY_AT[i] + 1]), i) == Some(e)
    ensures |t| == REPLY_AT[i] + 1 && r == Err(e)
  {
    var p := REPLY_AT[i];
    if p + 1 < |t| {
      OnlyAfterPassing(k, peer, t, p + 1);
    } else {
      assert t[..p + 1] == t;
      HeardCount(k, peer, t);
    }
  }

  /** Key or salt is missing. */
  predicate NoSession(k: Toolkit, reply: Reply, e: Error) {
    if Lacks(k, reply, TYPE_PUBLIC_KEY) then e == Failed(NoPublicKey)
    else Lacks(k, reply, TYPE_SALT) && e == Failed(NoSalt)
  }

  /** The proof is missing or does not verify. */
  ghost predicate NoProof(k: Toolkit, reply: Reply, s: SrpSession, e: Error) {
    if Lacks(k, reply, TYPE_PROOF) then e == Failed(NoServerProof)
    else k.wire.data(reply).Ok? && !Proves(k, reply, s) && e == Failed(BadServerProof)
  }

  /** The device's information is missing or does not verify. */
  ghost predicate NoAnswer(k: Toolkit, reply: Reply, setupKey: Bytes, e: Error) {
    if Lacks(k, reply, TYPE_ENCRYPTED_DATA) then e == Failed(NoEncryptedData)
    else k.wire.data(reply).Ok? && !Answers(k, reply, setupKey) && e == Error.Crypto
  }

  /** The error that the last reply gives when it has pairing data but not what is due. */
  ghost predicate Refused(k: Toolkit, h: seq<Reply>, e: Error) {
    || (|h| == 3 && NoSession(k, h[2], e))
    || (|h| == 4 && exists s :: Agrees(k, h[2], s) && NoProof(k, h[3], s, e))
    || (|h| == 5 && exists s, info ::
          Agrees(k, h[2], s) && k.crypto.deviceInfo(s) == Some(info) && NoAnswer(k, h[4], info.1, e))
  }

  lemma RefusedIsFault(k: Toolkit, h: seq<Reply>, e: Error)
    requires Refused(k, h, e)
    requires forall j :: 2 <= j < |h| - 1 ==> Fault(k, h, j).None?
    ensures Fault(k, h, |h| - 1) == Some(e)
  {
    if |h| == 4 {
      var s :| Agrees(k, h[2], s) && NoProof(k, h[3], s, e);
      SessionExactly(k, h[2], s);
      RefusedProof(k, s, h[3], e);
    } else if |h| == 5 {
      var s, info :|
        Agrees(k, h[2], s) && k.crypto.deviceInfo(s) == Some(info) && NoAnswer(k, h[4], info.1, e);
      SessionExactly(k, h[2], s);
      assert Fault(k, h, 3).None?;
      InfoExactly(k, s, h[3], InfoOf(k, h).value);
      RefusedAnswer(k, s, info, h[4], e);
    }
  }

  lemma RefusedProof(k: Toolkit, s: SrpSession, reply: Reply, e: Error)
    requires NoProof(k, reply, s, e)
    ensures InfoIn(k, s, reply) == Err(e)
  {
    var tlv := k.crypto.parseTlv(k.wire.data(reply).value);
    if TYPE_PROOF in tlv {
      assert Holds(k, reply, TYPE_PROOF, tlv[TYPE_PROOF]);
    }
  }

  lemma RefusedAnswer(k: Toolkit, s: SrpSession, info: (Bytes, Bytes), reply: Reply, e: Error)
    requires NoAnswer(k, reply, info.1, e)
    ensures KeysIn(k, s, info.1, reply) == Err(e)
  {
    var tlv := k.crypto.parseTlv(k.wire.data(reply).value);
    if TYPE_ENCRYPTED_DATA in tlv {
      assert Holds(k, reply, TYPE_ENCRYPTED_DATA, tlv[TYPE_ENCRYPTED_DATA]);
    }
  }

  /** A reply with pairing data that lacks what is due, or whose proof or information does not
      verify, is the last event, and the error names what is wrong. */
  lemma RefusalEndsRun(k: Toolkit, peer: Peer, t: Trace, r: Result<Credentials, Error>, i: nat, e: Error)
    requires Orderly(k, peer, t) && Ends(k, peer, t, r)
    requires 2 <= i <= 4 && REPLY_AT[i] < |t|
    requires Refused(k, Heard(t[..REPLY_AT[i] + 1]), e)
    ensures |t| == REPLY_AT[i] + 1 && r == Err(e)
  {
    EarlierPassed(k, peer, t, i);
    RefusedIsFault(k, Heard(t[..REPLY_AT[i] + 1]), e);
    FaultIsLast(k, peer, t, r, i, e);
  }

  lemma EarlierPassed(k: Toolkit, peer: Peer, t: Trace, i: nat)
    requires Orderly(k, peer, t) && i < 6 && REPLY_AT[i] < |t|
    ensures var h := Heard(t[..REPLY_AT[i] + 1]); |h| == i + 1 && forall j :: 0 <= j < i ==> Fault(k, h, j).None?
  {
    var p := REPLY_AT[i];
    HeardAt(k, peer, t, i);
    HeardThrough(k, peer, t, p);
    var before := Heard(t[..p]);
    forall j | 0 <= j < i ensures Fault(k, before + [t[p].reply], j).None? {
      FaultIsSettled(k, before, t[p].reply, j);
    }
  }
}
