/** What holds of every trace that a pairing call leaves. */
module PairingTraces {
  import opened Options
  import opened XpcValues
  import opened Envelopes
  import opened EnvelopeRoundTrips
  import opened PairingReplies
  import opened Pairing

  /** Where the five messages and the six replies stand. */
  const SEND_AT: seq<nat> := [0, 2, 5, 7, 9]
  const REPLY_AT: seq<nat> := [1, 3, 4, 6, 8, 10]

  lemma {:induction false} AllowedAt(k: Toolkit, peer: Peer, t: Trace, j: nat)
    requires Orderly(k, peer, t) && j < |t|
    ensures Allowed(k, peer, t[..j], t[j]) && Orderly(k, peer, t[..j])
    decreases |t|
  {
    var front := t[..|t| - 1];
    if j < |front| {
      AllowedAt(k, peer, front, j);
      assert front[..j] == t[..j];
    }
  }

  /** How many replies there are among so many events. */
  function RepliesIn(events: nat): nat {
    if events < 2 then 0 else if events < 4 then 1 else if events == 4 then 2
    else if events < 7 then 3 else if events < 9 then 4 else if events < 11 then 5 else 6
  }

  lemma {:induction false} HeardCount(k: Toolkit, peer: Peer, t: Trace)
    requires Orderly(k, peer, t)
    ensures |t| <= LENGTH && |Heard(t)| == RepliesIn(|t|)
    decreases |t|
  {
    if t != [] {
      HeardCount(k, peer, t[..|t| - 1]);
    }
  }

  lemma {:induction false} HeardAt(k: Toolkit, peer: Peer, t: Trace, i: nat)
    requires Orderly(k, peer, t) && i < 6 && REPLY_AT[i] < |t|
    ensures t[REPLY_AT[i]].Received? && i < |Heard(t)| && Heard(t)[i] == t[REPLY_AT[i]].reply
    decreases |t|
  {
    var front := t[..|t| - 1];
    HeardCount(k, peer, t);
    HeardCount(k, peer, front);
    if REPLY_AT[i] < |front| {
      HeardAt(k, peer, front, i);
    }
  }

  // ------------------------------------------------------------- numbering

  lemma HelloNumber(n: nat, body: Xpc)
    requires body == HandshakeRequest(n)
    ensures WellFormed(body) && NumberIn(Meaning(body)) == Some(n)
  {
    HandshakeReadBack(n);
  }

  lemma EventNumber(tlv: Bytes, newSession: bool, host: Option<string>, n: nat, body: Xpc)
    requires body == SetupEvent(tlv, newSession, host, n)
    ensures WellFormed(body) && NumberIn(Meaning(body)) == Some(n) && PairingReply(Meaning(body)) == Ok(tlv)
  {
    PairingEventReadBack(tlv, KIND, newSession, host, n);
  }

  lemma RequestNumber(payload: Bytes, n: nat, body: Xpc)
    requires body == EncryptedRequest(payload, n)
    ensures WellFormed(body) && NumberIn(Meaning(body)) == Some(n) && EncryptedIn(Meaning(body)) == Ok(payload)
  {
    EncryptedRequestReadBack(payload, n);
  }

  /** What the n-th message tells its reader: its number, and what it carries. */
  predicate Tells(k: Toolkit, h: seq<Reply>, n: nat, body: Xpc) {
    && WellFormed(body) && NumberIn(Meaning(body)) == Some(n + 1)
    && (n == 1 ==> PairingReply(Meaning(body)) == Ok(k.crypto.setupTlv))
    && (n == 2 ==>
        |h| > 2 && SessionOf(k, h).Ok? && PairingReply(Meaning(body)) == Ok(k.crypto.proofTlv(SessionOf(k, h).value)))
    && (n == 3 ==> |h| > 3 && InfoOf(k, h).Ok? && PairingReply(Meaning(body)) == Ok(InfoOf(k, h).value.0))
    && (n == 4 ==> |h| > 4 && KeysOf(k, h).Ok? && EncryptedIn(Meaning(body)) == Ok(KeysOf(k, h).value.payload))
  }

  lemma DueTells(k: Toolkit, h: seq<Reply>, n: nat, body: Xpc)
    requires Genuine(k.wire) && n < 5 && Due(k, h, n, body)
    ensures Tells(k, h, n, body)
  {
    if n == 0 {
      assert body == HandshakeRequest(n + 1);
      HelloNumber(n + 1, body);
    } else if n == 4 {
      assert body == EncryptedRequest(KeysOf(k, h).value.payload, n + 1);
      RequestNumber(KeysOf(k, h).value.payload, n + 1, body);
    } else {
      var tlv := if n == 1 then k.crypto.setupTlv else if n == 2 then k.crypto.proofTlv(SessionOf(k, h).value)
          else InfoOf(k, h).value.0;
      var host := if n == 3 then Some(HOST) else None;
      assert body == SetupEvent(tlv, n == 1, host, n + 1);
      EventNumber(tlv, n == 1, host, n + 1, body);
    }
  }

  /** The i-th message of a trace stands at its place, has id i, and tells sequence number i
      and the payload that the replies before it call for; nothing else is sent. */
  lemma MessagesAreNumbered(k: Toolkit, peer: Peer, t: Trace, i: nat)
    requires Genuine(k.wire) && Orderly(k, peer, t) && i < 5 && SEND_AT[i] < |t|
    ensures t[SEND_AT[i]].Sent? && t[SEND_AT[i]].id == i + 1 && Tells(k, Heard(t[..SEND_AT[i]]), i, t[SEND_AT[i]].body)
    ensures forall j :: 0 <= j < |t| && t[j].Sent? ==> j in SENDS
  {
    var p := SEND_AT[i];
    AllowedAt(k, peer, t, p);
    HeardCount(k, peer, t[..p]);
    DueTells(k, Heard(t[..p]), i, t[p].body);
    forall j | 0 <= j < |t| && t[j].Sent? ensures j in SENDS {
      AllowedAt(k, peer, t, j);
    }
  }

  // --------------------------------------------------------------- gating

  /** Nothing happens after a reply that does not pass. */
  lemma OnlyAfterPassing(k: Toolkit, peer: Peer, t: Trace, j: nat)
    requires Orderly(k, peer, t) && j < |t|
    ensures Passed(k, Heard(t[..j]))
  {
    AllowedAt(k, peer, t, j);
  }

  /** The device information, the fourth message, goes out only after a reply came in whose
      proof verifies for the session of the reply with key and salt. */
  lemma InfoOnlyAfterProof(k: Toolkit, peer: Peer, t: Trace)
    requires Genuine(k.wire) && Orderly(k, peer, t) && |t| > SEND_AT[3]
    ensures t[4].Received? && t[6].Received? && SessionIn(k, t[4].reply).Ok?
    ensures var data := DataReply(t[6].reply);
            && data.Ok? && TYPE_PROOF in k.crypto.parseTlv(data.value)
            && k.crypto.verifyProof(SessionIn(k, t[4].reply).value, k.crypto.parseTlv(data.value)[TYPE_PROOF])
  {
    ProofHeard(k, peer, t);
    assert DataReply(t[6].reply) == k.wire.data(t[6].reply);
  }

  lemma ProofHeard(k: Toolkit, peer: Peer, t: Trace)
    requires Orderly(k, peer, t) && |t| > SEND_AT[3]
    ensures t[4].Received? && t[6].Received? && SessionIn(k, t[4].reply).Ok?
    ensures var data := k.wire.data(t[6].reply);
            && data.Ok? && TYPE_PROOF in k.crypto.parseTlv(data.value)
            && k.crypto.verifyProof(SessionIn(k, t[4].reply).value, k.crypto.parseTlv(data.value)[TYPE_PROOF])
  {
    var before := t[..7];
    AllowedAt(k, peer, t, 7);
    HeardCount(k, peer, before);
    HeardAt(k, peer, before, 2);
    HeardAt(k, peer, before, 3);
    ProofPassed(k, Heard(before));
  }

  lemma ProofPassed(k: Toolkit, h: seq<Reply>)
    requires |h| == 4 && Passed(k, h)
    ensures SessionIn(k, h[2]).Ok?
    ensures var data := k.wire.data(h[3]);
            && data.Ok? && TYPE_PROOF in k.crypto.parseTlv(data.value)
            && k.crypto.verifyProof(SessionIn(k, h[2]).value, k.crypto.parseTlv(data.value)[TYPE_PROOF])
  {
    assert Fault(k, h, 2).None? && Fault(k, h, 3).None?;
  }

  /** A reply that rejects the pairing, at any of the three places where pairing data is
      due, is the last event, and the call fails with that rejection. */
  lemma RejectionEndsRun(k: Toolkit, peer: Peer, t: Trace, r: Result<Credentials, Error>, i: nat, error: Val)
    requires Genuine(k.wire) && Orderly(k, peer, t) && Ends(k, peer, t, r)
    requires 2 <= i <= 4 && REPLY_AT[i] < |t| && t[REPLY_AT[i]].Received? && Rejects(t[REPLY_AT[i]].reply, error)
    ensures |t| == REPLY_AT[i] + 1 && r == Err(Rejected(RejectionMessage(error)))
  {
    var p := REPLY_AT[i];
    RejectionIsHeard(t[p].reply, error);
    assert k.wire.data(t[p].reply) == DataReply(t[p].reply);
    FaultEndsRun(k, peer, t, r, i, Rejected(RejectionMessage(error)));
  }

  /** The same for every fault: pairing data that cannot be read or says no. */
  lemma FaultEndsRun(k: Toolkit, peer: Peer, t: Trace, r: Result<Credentials, Error>, i: nat, e: Error)
    requires Orderly(k, peer, t) && Ends(k, peer, t, r)
    requires 2 <= i <= 4 && REPLY_AT[i] < |t| && t[REPLY_AT[i]].Received? && k.wire.data(t[REPLY_AT[i]].reply) == Err(e)
    ensures |t| == REPLY_AT[i] + 1 && r == Err(e)
  {
    var p := REPLY_AT[i];
    var upTo := t[..p + 1];
    DataFault(k, peer, t, i, e);
    if p + 1 < |t| {
      OnlyAfterPassing(k, peer, t, p + 1);
    } else {
      assert upTo == t;
      HeardCount(k, peer, t);
    }
  }

  lemma DataFault(k: Toolkit, peer: Peer, t: Trace, i: nat, e: Error)
    requires Orderly(k, peer, t) && 2 <= i <= 4 && REPLY_AT[i] < |t|
    requires t[REPLY_AT[i]].Received? && k.wire.data(t[REPLY_AT[i]].reply) == Err(e)
    ensures var h := Heard(t[..REPLY_AT[i] + 1]); |h| == i + 1 && Fault(k, h, i) == Some(e)
  {
    var p := REPLY_AT[i];
    HeardThrough(k, peer, t, p);
    EarlierPass(k, Heard(t[..p]), t[p].reply, i);
  }

  lemma HeardThrough(k: Toolkit, peer: Peer, t: Trace, p: nat)
    requires Orderly(k, peer, t) && p < |t| && t[p].Received?
    ensures Heard(t[..p + 1]) == Heard(t[..p]) + [t[p].reply] && |Heard(t[..p])| == RepliesIn(p)
    ensures Passed(k, Heard(t[..p]))
  {
    AllowedAt(k, peer, t, p);
    HeardCount(k, peer, t[..p]);
    assert t[..p + 1][..p] == t[..p];
  }

  lemma EarlierPass(k: Toolkit, before: seq<Reply>, reply: Reply, i: nat)
    requires |before| == i && 2 <= i <= 4 && Passed(k, before) && k.wire.data(reply).Err?
    ensures Fault(k, before + [reply], i) == Some(k.wire.data(reply).error)
  {
    var h := before + [reply];
    assert i > 2 ==> Fault(k, before, 2).None? && h[2] == before[2];
    assert i > 3 ==> Fault(k, before, 3).None? && h[3] == before[3];
  }

  // ---------------------------------------------------------------- result

  lemma NotAfterEnd(k: Toolkit, peer: Peer, t: Trace, r: Result<Credentials, Error>, t': Trace)
    requires Orderly(k, peer, t) && Ends(k, peer, t, r) && Orderly(k, peer, t')
    ensures !(|t| < |t'| && t == t'[..|t|])
  {
    if |t| < |t'| && t == t'[..|t|] {
      AllowedAt(k, peer, t', |t|);
    }
  }

  lemma SameNext(k: Toolkit, peer: Peer, before: Trace, e: Event, e': Event)
    requires Allowed(k, peer, before, e) && Allowed(k, peer, before, e')
    ensures e == e'
  {
  }

  lemma {:induction false} SameUpTo(k: Toolkit, peer: Peer, t: Trace, t': Trace, n: nat)
    requires Orderly(k, peer, t) && Orderly(k, peer, t') && n <= |t| && n <= |t'|
    ensures t[..n] == t'[..n]
  {
    if n > 0 {
      SameUpTo(k, peer, t, t', n - 1);
      SameAt(k, peer, t, t', n - 1);
    }
  }

  lemma SameAt(k: Toolkit, peer: Peer, t: Trace, t': Trace, n: nat)
    requires Orderly(k, peer, t) && Orderly(k, peer, t') && n < |t| && n < |t'| && t[..n] == t'[..n]
    ensures t[..n + 1] == t'[..n + 1]
  {
    AllowedHere(k, peer, t, n, t[..n], t[n]);
    AllowedHere(k, peer, t', n, t[..n], t'[n]);
    SameNext(k, peer, t[..n], t[n], t'[n]);
    PrefixGrows(t, t', n);
  }

  lemma AllowedHere(k: Toolkit, peer: Peer, t: Trace, n: nat, before: Trace, e: Event)
    requires Orderly(k, peer, t) && n < |t| && t[..n] == before && t[n] == e
    ensures Allowed(k, peer, before, e)
  {
    AllowedAt(k, peer, t, n);
  }

  lemma PrefixGrows(t: Trace, t': Trace, n: nat)
    requires n < |t| && n < |t'| && t[..n] == t'[..n] && t[n] == t'[n]
    ensures t[..n + 1] == t'[..n + 1]
  {
    assert t[..n + 1] == t[..n] + [t[n]] && t'[..n + 1] == t'[..n] + [t'[n]];
  }

  lemma SameEnd(k: Toolkit, peer: Peer, t: Trace, r: Result<Credentials, Error>, r': Result<Credentials, Error>)
    requires Orderly(k, peer, t) && Ends(k, peer, t, r) && Ends(k, peer, t, r')
    ensures r == r'
  {
  }

  /** Cryptography, device and lost sends determine everything said and the result. */
  lemma RunIsDetermined(k: Toolkit, peer: Peer, t: Trace, r: Result<Credentials, Error>, t': Trace,
                        r': Result<Credentials, Error>)
    requires Orderly(k, peer, t) && Ends(k, peer, t, r) && Orderly(k, peer, t') && Ends(k, peer, t', r')
    ensures t == t' && r == r'
  {
    var n := if |t| < |t'| then |t| else |t'|;
    SameUpTo(k, peer, t, t', n);
    NotAfterEnd(k, peer, t, r, t');
    NotAfterEnd(k, peer, t', r', t);
    assert t[..|t|] == t && t'[..|t'|] == t';
    SameEnd(k, peer, t, r, r');
  }

  /** All five messages got through, and all six replies passed. */
  predicate Complete(k: Toolkit, peer: Peer, t: Trace) {
    Orderly(k, peer, t) && |t| == LENGTH && Passed(k, Heard(t))
  }

  lemma CompleteSucceeds(k: Toolkit, peer: Peer, t: Trace) returns (c: Credentials)
    requires Complete(k, peer, t)
    ensures Ends(k, peer, t, Ok(c))
  {
    HeardCount(k, peer, t);
    var h := Heard(t);
    assert Fault(k, h, 0).None? && Fault(k, h, 4).None? && Fault(k, h, 5).None?;
    var keys := KeysOf(k, h).value;
    c := Credentials(k.wire.greeting(h[0]).value, UnlockOf(k, h).value, keys.client, keys.server);
  }

  /** A call returns credentials exactly when the device, the cryptography and the lost sends
      allow a complete trace, and then that is the trace it leaves. */
  lemma CredentialsExactlyWhenComplete(k: Toolkit, peer: Peer, t: Trace, r: Result<Credentials, Error>)
    requires Orderly(k, peer, t) && Ends(k, peer, t, r)
    ensures r.Ok? <==> exists full :: Complete(k, peer, full)
    ensures forall full :: Complete(k, peer, full) ==> full == t
  {
    if r.Ok? {
      assert Complete(k, peer, t);
    }
    forall full | Complete(k, peer, full) ensures full == t && r.Ok? {
      var c := CompleteSucceeds(k, peer, full);
      RunIsDetermined(k, peer, full, Ok(c), t, r);
    }
  }
}
