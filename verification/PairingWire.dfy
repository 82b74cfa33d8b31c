/** Pairing envelopes sent as XPC messages: which of them arrive. */
module PairingWire {
  import opened Options
  import opened XpcValues
  import opened XpcWire
  import opened XpcDecode
  import opened XpcStream
  import opened Envelopes

  lemma CleanDict(pairs: seq<Field>, depth: nat)
    requires DistinctKeys(pairs) && |pairs| <= MAX_COLLECTION && depth <= MAX_DEPTH
    ensures Clean(XpcDict(pairs), depth) <==> CleanFields(pairs, depth + 1)
  {
    CollectedDistinct(pairs);
  }

  lemma CleanOne(f: Field, depth: nat)
    ensures CleanFields([f], depth) <==> '\0' !in f.key && Clean(f.value, depth)
  {
    assert [f][1..] == [];
  }

  lemma CleanWrap(key: string, value: Xpc, depth: nat)
    requires '\0' !in key && depth <= MAX_DEPTH
    ensures Clean(Wrap(key, value), depth) <==> Clean(value, depth + 1)
  {
    CleanDict([Field(key, value)], depth);
    CleanOne(Field(key, value), depth + 1);
  }

  lemma CleanWrapTwice(key: string, value: Xpc, depth: nat)
    requires '\0' !in key && depth < MAX_DEPTH
    ensures Clean(Wrap(key, Wrap("_0", value)), depth) <==> Clean(value, depth + 2)
  {
    CleanWrap("_0", value, depth + 1);
    CleanWrap(key, Wrap("_0", value), depth);
  }

  lemma CleanTwo(a: Field, b: Field, depth: nat)
    requires a.key != b.key && '\0' !in a.key && '\0' !in b.key && depth <= MAX_DEPTH
    ensures Clean(XpcDict([a, b]), depth) <==> Clean(a.value, depth + 1) && Clean(b.value, depth + 1)
  {
    CleanDict([a, b], depth);
    assert [a, b][1..] == [b];
    CleanOne(b, depth + 1);
  }

  lemma CleanThree(a: Field, b: Field, c: Field, depth: nat)
    requires DistinctKeys([a, b, c]) && depth <= MAX_DEPTH
    requires '\0' !in a.key && '\0' !in b.key && '\0' !in c.key
    ensures Clean(XpcDict([a, b, c]), depth) <==>
            Clean(a.value, depth + 1) && Clean(b.value, depth + 1) && Clean(c.value, depth + 1)
  {
    CleanDict([a, b, c], depth);
    CleanFieldsTwo(b, c, depth + 1);
    assert [a, b, c][1..] == [b, c];
  }

  lemma CleanFour(a: Field, b: Field, c: Field, d: Field, depth: nat)
    requires DistinctKeys([a, b, c, d]) && depth <= MAX_DEPTH
    requires '\0' !in a.key && '\0' !in b.key && '\0' !in c.key && '\0' !in d.key
    ensures Clean(XpcDict([a, b, c, d]), depth) <==>
            && Clean(a.value, depth + 1) && Clean(b.value, depth + 1)
            && Clean(c.value, depth + 1) && Clean(d.value, depth + 1)
  {
    CleanDict([a, b, c, d], depth);
    CleanFieldsTwo(c, d, depth + 1);
    assert [b, c, d][1..] == [c, d] && [a, b, c, d][1..] == [b, c, d];
  }

  lemma CleanFieldsTwo(a: Field, b: Field, depth: nat)
    requires '\0' !in a.key && '\0' !in b.key
    ensures CleanFields([a, b], depth) <==> Clean(a.value, depth) && Clean(b.value, depth)
  {
    assert [a, b][1..] == [b];
    CleanOne(b, depth);
  }

  /** A field without nesting and without a NUL. */
  predicate NulFreeLeaf(f: Field) {
    '\0' !in f.key && (f.value.Str? ==> '\0' !in f.value.s) && !f.value.Array? && !f.value.Dict?
        && !f.value.FileTransfer?
  }

  lemma LeafIsClean(f: Field, depth: nat)
    requires NulFreeLeaf(f) && depth <= MAX_DEPTH
    ensures Clean(f.value, depth)
  {
  }

  lemma CleanNested(d: Field, key: string, a: Field, b: Field, c: Field)
    requires DistinctKeys([a, b, c]) && d.key != key
    requires '\0' !in key && '\0' !in a.key && NulFreeLeaf(b) && NulFreeLeaf(c) && NulFreeLeaf(d)
    ensures Clean(XpcDict([d, Field(key, XpcDict([a, b, c]))]), 0) <==> Clean(a.value, 2)
  {
    LeafIsClean(b, 2);
    LeafIsClean(c, 2);
    LeafIsClean(d, 1);
    CleanThree(a, b, c, 1);
    CleanTwo(d, Field(key, XpcDict([a, b, c])), 0);
  }

  lemma TypeIsNulFree()
    ensures '\0' !in ENVELOPE_TYPE
  {
  }

  lemma CleanEnvelope(message: Xpc, number: nat)
    ensures Clean(ControlEnvelope(message, number), 0) <==> Clean(message, 2)
  {
    TypeIsNulFree();
    CleanNested(Field("mangledTypeName", Str(ENVELOPE_TYPE)), "value",
                Field("message", message), Field("originatedBy", Str("host")), Field("sequenceNumber", Uint64(number)));
  }

  predicate NulFree(kind: string, host: Option<string>) {
    '\0' !in kind && (host.Some? ==> '\0' !in host.value)
  }

  lemma CleanPairingFields(tlv: Bytes, kind: string, newSession: bool, host: Option<string>, depth: nat)
    requires depth < MAX_DEPTH
    ensures Clean(XpcDict(PairingFields(tlv, kind, newSession, host)), depth) <==> NulFree(kind, host)
  {
    var a, b, c := Field("data", Data(tlv)), Field("kind", Str(kind)), Field("startNewSession", Bool(newSession));
    match host
    case None => CleanHostless(a, b, c, depth);
    case Some(h) => CleanHosted(a, b, c, Field("sendingHost", Str(h)), depth);
  }

  lemma CleanHostless(a: Field, b: Field, c: Field, depth: nat)
    requires DistinctKeys([a, b, c]) && depth < MAX_DEPTH
    requires NulFreeLeaf(a) && NulFreeLeaf(c) && b.value.Str? && '\0' !in b.key
    ensures Clean(XpcDict([a, b, c] + []), depth) <==> '\0' !in b.value.s
  {
    assert [a, b, c] + [] == [a, b, c];
    LeafIsClean(a, depth + 1);
    LeafIsClean(c, depth + 1);
    CleanThree(a, b, c, depth);
  }

  lemma CleanHosted(a: Field, b: Field, c: Field, d: Field, depth: nat)
    requires DistinctKeys([a, b, c, d]) && depth < MAX_DEPTH
    requires NulFreeLeaf(a) && NulFreeLeaf(c) && b.value.Str? && d.value.Str? && '\0' !in b.key && '\0' !in d.key
    ensures Clean(XpcDict([a, b, c] + [d]), depth) <==> '\0' !in b.value.s && '\0' !in d.value.s
  {
    assert [a, b, c] + [d] == [a, b, c, d];
    LeafIsClean(a, depth + 1);
    LeafIsClean(c, depth + 1);
    CleanFour(a, b, c, d, depth);
  }

  lemma CleanWrapSix(x: Xpc, outer: string, middle: string, inner: string, depth: nat)
    requires '\0' !in outer && '\0' !in middle && '\0' !in inner && depth + 6 <= MAX_DEPTH
    ensures Clean(Wrap(outer, Wrap("_0", Wrap(middle, Wrap("_0", Wrap(inner, Wrap("_0", x)))))), depth) <==>
            Clean(x, depth + 6)
  {
    CleanWrapTwice(inner, x, depth + 4);
    CleanWrapTwice(middle, Wrap(inner, Wrap("_0", x)), depth + 2);
    CleanWrapTwice(outer, Wrap(middle, Wrap("_0", Wrap(inner, Wrap("_0", x)))), depth);
  }

  lemma CleanPairingMessage(tlv: Bytes, kind: string, newSession: bool, host: Option<string>)
    ensures Clean(PairingMessage(tlv, kind, newSession, host), 2) <==> NulFree(kind, host)
  {
    CleanPairingFields(tlv, kind, newSession, host, 8);
    CleanWrapSix(XpcDict(PairingFields(tlv, kind, newSession, host)), "plain", "event", "pairingData", 2);
  }

  lemma CleanPairingEvent(tlv: Bytes, kind: string, newSession: bool, host: Option<string>, number: nat)
    ensures Clean(PairingEvent(tlv, kind, newSession, host, number), 0) <==> NulFree(kind, host)
  {
    CleanEnvelope(PairingMessage(tlv, kind, newSession, host), number);
    CleanPairingMessage(tlv, kind, newSession, host);
  }

  /** A pairing event that fits its message limit arrives whole, whatever bytes follow it,
      exactly when neither its kind nor its host name has a NUL. */
  lemma PairingEventArrives(tlv: Bytes, kind: string, newSession: bool, host: Option<string>, number: nat,
                            flags: U32Word, id: U64, rest: Bytes)
    requires var m := Message(flags, id, Some(PairingEvent(tlv, kind, newSession, host, number)));
             Encodable(m) && |BodyBytes(m)| <= Limit(flags)
    ensures var m := Message(flags, id, Some(PairingEvent(tlv, kind, newSession, host, number)));
            DecodeMessage(EncodeMessage(m) + rest) == Some(m) <==> NulFree(kind, host)
  {
    CleanPairingEvent(tlv, kind, newSession, host, number);
    MessageRoundTrip(Message(flags, id, Some(PairingEvent(tlv, kind, newSession, host, number))), rest);
  }

  /** An encrypted request that fits always arrives whole. */
  lemma EncryptedRequestArrives(payload: Bytes, number: nat, flags: U32Word, id: U64, rest: Bytes)
    requires var m := Message(flags, id, Some(EncryptedRequest(payload, number)));
             Encodable(m) && |BodyBytes(m)| <= Limit(flags)
    ensures var m := Message(flags, id, Some(EncryptedRequest(payload, number)));
            DecodeMessage(EncodeMessage(m) + rest) == Some(m)
  {
    CleanEnvelope(Wrap("streamEncrypted", Wrap("_0", Data(payload))), number);
    CleanWrapTwice("streamEncrypted", Data(payload), 2);
    MessageRoundTrip(Message(flags, id, Some(EncryptedRequest(payload, number))), rest);
  }
}
