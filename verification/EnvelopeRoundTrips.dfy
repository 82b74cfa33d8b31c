/** What the builders build is what the decoders read. */
module EnvelopeRoundTrips {
  import opened Options
  import opened XpcValues
  import opened Envelopes

  /** The meaning of pairs inserted in order: later ones win. */
  function PairsMeaning(pairs: seq<Field>): map<string, Val> {
    if pairs == [] then map[]
    else
      var last := pairs[|pairs| - 1];
      PairsMeaning(pairs[..|pairs| - 1])[last.key := Meaning(last.value)]
  }

  lemma {:induction false} AppendMeaning(fields: seq<Field>, f: Field)
    requires Find(fields, f.key).None?
    ensures MeaningOf(fields + [f]) == MeaningOf(fields)[f.key := Meaning(f.value)]
    decreases |fields|
  {
    if fields == [] {
      assert [] + [f] == [f] && [f][1..] == [];
    } else {
      assert (fields + [f])[1..] == fields[1..] + [f];
      AppendMeaning(fields[1..], f);
    }
  }

  lemma {:induction false} ReplaceMeaning(fields: seq<Field>, i: nat, value: Xpc)
    requires DistinctKeys(fields) && i < |fields|
    ensures MeaningOf(fields[i := Field(fields[i].key, value)]) == MeaningOf(fields)[fields[i].key := Meaning(value)]
    decreases |fields|
  {
    var key := fields[i].key;
    var next := fields[i := Field(key, value)];
    if i == 0 {
      assert next[1..] == fields[1..];
    } else {
      assert next[1..] == fields[1..][i - 1 := Field(key, value)] && fields[1..][i - 1] == fields[i];
      ReplaceMeaning(fields[1..], i - 1, value);
      assert fields[0].key != key;
    }
  }

  lemma InsertMeaning(fields: seq<Field>, f: Field)
    requires WellFormedAll(fields) && WellFormed(f.value)
    ensures WellFormedAll(Inserted(fields, f))
    ensures MeaningOf(Inserted(fields, f)) == MeaningOf(fields)[f.key := Meaning(f.value)]
  {
    WellFormedMeans(fields);
    WellFormedMeans(Inserted(fields, f));
    match Find(fields, f.key)
    case Some(i) => ReplaceMeaning(fields, i, f.value);
    case None => AppendMeaning(fields, f);
  }

  /** A built dictionary means its pairs. */
  lemma {:induction false} BuiltMeaning(pairs: seq<Field>)
    requires forall i :: 0 <= i < |pairs| ==> WellFormed(pairs[i].value)
    ensures WellFormed(XpcDict(pairs)) && Meaning(XpcDict(pairs)) == Map(PairsMeaning(pairs))
    decreases |pairs|
  {
    if pairs != [] {
      var front, last := pairs[..|pairs| - 1], pairs[|pairs| - 1];
      BuiltMeaning(front);
      InsertMeaning(Collected(front), last);
    }
  }

  lemma PairsOne(a: Field)
    ensures PairsMeaning([a]) == map[a.key := Meaning(a.value)]
  {
    assert [a][..0] == [];
  }

  lemma PairsTwo(a: Field, b: Field)
    ensures PairsMeaning([a, b]) == map[a.key := Meaning(a.value)][b.key := Meaning(b.value)]
  {
    assert [a, b][..1] == [a];
    PairsOne(a);
  }

  lemma PairsThree(a: Field, b: Field, c: Field)
    ensures PairsMeaning([a, b, c])
            == map[a.key := Meaning(a.value)][b.key := Meaning(b.value)][c.key := Meaning(c.value)]
  {
    assert [a, b, c][..2] == [a, b];
    PairsTwo(a, b);
  }

  lemma WrapMeaning(key: string, value: Xpc)
    requires WellFormed(value)
    ensures WellFormed(Wrap(key, value)) && Meaning(Wrap(key, value)) == Map(map[key := Meaning(value)])
  {
    BuiltMeaning([Field(key, value)]);
    PairsOne(Field(key, value));
  }

  function Body(message: Val, number: nat): map<string, Val> {
    map["message" := message, "originatedBy" := Plain(Str("host")), "sequenceNumber" := Plain(Uint64(number))]
  }

  lemma EnvelopeMeaning(message: Xpc, number: nat)
    requires WellFormed(message)
    ensures WellFormed(ControlEnvelope(message, number))
    ensures Meaning(ControlEnvelope(message, number))
         == Map(map["mangledTypeName" := Plain(Str(ENVELOPE_TYPE)), "value" := Map(Body(Meaning(message), number))])
  {
    var a, b, c := Field("message", message), Field("originatedBy", Str("host")),
        Field("sequenceNumber", Uint64(number));
    BuiltMeaning([a, b, c]);
    PairsThree(a, b, c);
    var d, e := Field("mangledTypeName", Str(ENVELOPE_TYPE)), Field("value", XpcDict([a, b, c]));
    BuiltMeaning([d, e]);
    PairsTwo(d, e);
  }

  /** The message and the number an envelope was built with can be read off it. */
  lemma EnvelopeReadBack(message: Xpc, number: nat, fields: map<string, Val>)
    requires WellFormed(message) && Meaning(message) == Map(fields)
    ensures WellFormed(ControlEnvelope(message, number))
    ensures MessageIn(Meaning(ControlEnvelope(message, number))) == Ok(fields)
    ensures NumberIn(Meaning(ControlEnvelope(message, number))) == Some(number)
  {
    EnvelopeMeaning(message, number);
  }

  /** The sequence number an envelope carries. */
  function NumberIn(body: Val): Option<nat> {
    var number := FieldOf(FieldOf(Some(body), "value"), "sequenceNumber");
    if number.Some? && number.value.Plain? && number.value.leaf.Uint64? then Some(number.value.leaf.n) else None
  }

  lemma PairingFieldsMeaning(tlv: Bytes, kind: string, newSession: bool, host: Option<string>)
    ensures var x := XpcDict(PairingFields(tlv, kind, newSession, host));
            WellFormed(x) && Meaning(x).Map? && "data" in Meaning(x).fields
                && Meaning(x).fields["data"] == Plain(Data(tlv))
  {
    var a, b, c := Field("data", Data(tlv)), Field("kind", Str(kind)), Field("startNewSession", Bool(newSession));
    var pairs := PairingFields(tlv, kind, newSession, host);
    BuiltMeaning(pairs);
    PairsThree(a, b, c);
    if host.Some? {
      assert pairs[..3] == [a, b, c];
    } else {
      assert pairs == [a, b, c];
    }
  }

  /** A dictionary under a key and the usual wrapper. */
  lemma WrapTwice(key: string, value: Xpc, inner: map<string, Val>)
    requires WellFormed(value) && Meaning(value) == Map(inner)
    ensures var x := Wrap(key, Wrap("_0", value));
            WellFormed(x) && Meaning(x) == Map(map[key := Map(map["_0" := Map(inner)])])
  {
    WrapMeaning("_0", value);
    WrapMeaning(key, Wrap("_0", value));
  }

  function Under(key: string, inner: map<string, Val>): map<string, Val> {
    map[key := Map(map["_0" := Map(inner)])]
  }

  lemma DigUnder(key: string, inner: map<string, Val>, place: FieldPath)
    ensures Dig(Under(key, inner), place, [key, "_0"]) == Ok(inner)
  {
    assert [key, "_0"][1..] == ["_0"] && ["_0"][1..] == [];
  }

  lemma PairingDataUnder(inner: map<string, Val>)
    ensures PairingDataIn(Under("event", Under("pairingData", inner)))
         == DataAt(inner, "data", EVENT + ["pairingData", "_0", "data"])
  {
    DigUnder("event", Under("pairingData", inner), PLAIN);
    DigUnder("pairingData", inner, EVENT);
  }

  lemma PairingMessageMeaning(tlv: Bytes, kind: string, newSession: bool, host: Option<string>)
    returns (plain: map<string, Val>)
    ensures var x := PairingMessage(tlv, kind, newSession, host);
            WellFormed(x) && Meaning(x) == Map(Under("plain", plain))
    ensures PairingDataIn(plain) == Ok(tlv)
  {
    var x := XpcDict(PairingFields(tlv, kind, newSession, host));
    PairingFieldsMeaning(tlv, kind, newSession, host);
    var inner := Meaning(x).fields;
    plain := Under("event", Under("pairingData", inner));
    var data := Wrap("pairingData", Wrap("_0", x));
    WrapTwice("pairingData", x, inner);
    WrapTwice("event", data, Under("pairingData", inner));
    WrapTwice("plain", Wrap("event", Wrap("_0", data)), plain);
    PairingDataUnder(inner);
  }

  lemma PlainMessageReads(body: Val, plain: map<string, Val>)
    requires MessageIn(body) == Ok(Under("plain", plain))
    ensures PlainIn(body) == Ok(plain) && EncryptedIn(body) == Err(MissingField(STREAM))
  {
    DigUnder("plain", plain, MESSAGE);
  }

  /** A pairing event decodes to the payload it was built from, for every payload, kind,
      host and number, and is no encrypted message. */
  lemma PairingEventReadBack(tlv: Bytes, kind: string, newSession: bool, host: Option<string>, number: nat)
    ensures var event := PairingEvent(tlv, kind, newSession, host, number);
            && WellFormed(event) && NumberIn(Meaning(event)) == Some(number)
            && PairingReply(Meaning(event)) == Ok(tlv)
            && EncryptedIn(Meaning(event)) == Err(MissingField(STREAM))
  {
    var plain := PairingMessageMeaning(tlv, kind, newSession, host);
    EnvelopeReadBack(PairingMessage(tlv, kind, newSession, host), number, Under("plain", plain));
    PlainMessageReads(Meaning(PairingEvent(tlv, kind, newSession, host, number)), plain);
  }

  /** An encrypted request decodes to its bytes and is no pairing event. */
  lemma EncryptedRequestReadBack(payload: Bytes, number: nat)
    ensures var request := EncryptedRequest(payload, number);
            && WellFormed(request) && NumberIn(Meaning(request)) == Some(number)
            && EncryptedIn(Meaning(request)) == Ok(payload)
            && PairingReply(Meaning(request)) == Err(MissingField(MESSAGE + ["plain"]))
  {
    var x0 := Wrap("_0", Data(payload));
    WrapMeaning("_0", Data(payload));
    var x1 := Wrap("streamEncrypted", x0);
    WrapMeaning("streamEncrypted", x0);
    EnvelopeReadBack(x1, number, map["streamEncrypted" := Meaning(x0)]);
    EncryptedMessageReads(Meaning(EncryptedRequest(payload, number)), payload);
  }

  lemma EncryptedMessageReads(body: Val, payload: Bytes)
    requires MessageIn(body) == Ok(map["streamEncrypted" := Map(map["_0" := Plain(Data(payload))])])
    ensures EncryptedIn(body) == Ok(payload)
    ensures PlainIn(body) == Err(MissingField(MESSAGE + ["plain"]))
  {
  }

  lemma HandshakeReadBack(number: nat)
    ensures var request := HandshakeRequest(number);
            WellFormed(request) && NumberIn(Meaning(request)) == Some(number)
  {
    WrapMeaning("attemptPairVerify", Bool(true));
    var pairs := [Field("hostOptions", Wrap("attemptPairVerify", Bool(true))), Field("wireProtocolVersion", Int64(19))];
    BuiltMeaning(pairs);
    var x0 := XpcDict(pairs);
    WrapMeaning("_0", x0);
    var x1 := Wrap("_0", x0);
    WrapMeaning("handshake", x1);
    var x2 := Wrap("handshake", x1);
    WrapMeaning("_0", x2);
    var x3 := Wrap("_0", x2);
    WrapMeaning("request", x3);
    var x4 := Wrap("request", x3);
    WrapMeaning("_0", x4);
    var x5 := Wrap("_0", x4);
    WrapMeaning("plain", x5);
    EnvelopeReadBack(Wrap("plain", x5), number, map["plain" := Meaning(x5)]);
  }
}
