/** Where everything stands in the envelopes: what the host's messages hold, and exactly which
    replies are read as what, said by following keys alone. */
module EnvelopeFields {
  import opened Options
  import opened XpcValues
  import opened Envelopes
  import opened EnvelopeRoundTrips
  import opened PairingReplies

  /** What stands at the end of a path of keys. */
  function Reached(v: Val, keys: seq<string>): Option<Val>
    decreases |keys|
  {
    if keys == [] then Some(v)
    else if v.Map? && keys[0] in v.fields then Reached(v.fields[keys[0]], keys[1..])
    else None
  }

  predicate HasText(v: Val, keys: seq<string>, s: string) {
    Reached(v, keys) == Some(Plain(Str(s)))
  }

  predicate HasData(v: Val, keys: seq<string>, data: Bytes) {
    Reached(v, keys) == Some(Plain(Data(data)))
  }

  predicate IsEnvelope(v: Val) {
    HasText(v, ["mangledTypeName"], ENVELOPE_TYPE)
  }

  lemma {:induction false} ReachedThrough(v: Val, a: seq<string>, b: seq<string>)
    ensures Reached(v, a + b) == match Reached(v, a) case None => None case Some(u) => Reached(u, b)
    decreases |a|
  {
    if a == [] {
      assert a + b == b;
    } else {
      assert (a + b)[1..] == a[1..] + b;
      if v.Map? && a[0] in v.fields {
        ReachedThrough(v.fields[a[0]], a[1..], b);
      }
    }
  }

  lemma ReachedOne(v: Val, key: string)
    ensures Reached(v, [key]) == if v.Map? && key in v.fields then Some(v.fields[key]) else None
  {
    assert [key][1..] == [];
  }

  /** Following keys through dictionaries reaches what stands there. */
  lemma {:induction false} DigReaches(fields: map<string, Val>, place: FieldPath, keys: seq<string>)
    ensures match Dig(fields, place, keys)
            case Ok(inner) => Reached(Map(fields), keys) == Some(Map(inner))
            case Err(_) => Reached(Map(fields), keys).None? || !Reached(Map(fields), keys).value.Map?
    decreases |keys|
  {
    if keys != [] {
      match DictAt(fields, keys[0], place + [keys[0]])
      case Ok(inner) => DigReaches(inner, place + [keys[0]], keys[1..]);
      case Err(_) =>
        if keys[0] in fields && keys[1..] != [] {
          assert Reached(fields[keys[0]], keys[1..]).None?;
        }
    }
  }

  // --------------------------------------------------------------- replies

  lemma MessageExactly(body: Val)
    ensures match MessageIn(body)
            case Ok(message) => IsEnvelope(body) && Reached(body, MESSAGE) == Some(Map(message))
            case Err(_) => !IsEnvelope(body) || Reached(body, MESSAGE).None? || !Reached(body, MESSAGE).value.Map?
  {
    ReachedOne(body, "mangledTypeName");
    if body.Map? {
      DigReaches(body.fields, [], MESSAGE);
    }
  }

  lemma PlainExactly(body: Val)
    ensures match PlainIn(body)
            case Ok(plain) => IsEnvelope(body) && Reached(body, PLAIN) == Some(Map(plain))
            case Err(_) => !IsEnvelope(body) || Reached(body, PLAIN).None? || !Reached(body, PLAIN).value.Map?
  {
    MessageExactly(body);
    ReachedThrough(body, MESSAGE, ["plain", "_0"]);
    match MessageIn(body)
    case Ok(message) => DigReaches(message, MESSAGE, ["plain", "_0"]);
    case Err(_) =>
      if Reached(body, MESSAGE).Some? {
        assert !Reached(body, MESSAGE).value.Map? ==> Reached(Reached(body, MESSAGE).value, ["plain", "_0"]).None?;
      }
  }

  /** The keys that lead to the identifier of a device. */
  const IDENTIFIER: FieldPath := HANDSHAKE + ["peerDeviceInfo", "identifier"]

  lemma IdentifierExactly(handshake: map<string, Val>, id: string)
    ensures IdentifierIn(handshake) == Ok(id) <==> HasText(Map(handshake), ["peerDeviceInfo", "identifier"], id)
  {
    ReachedThrough(Map(handshake), ["peerDeviceInfo"], ["identifier"]);
    ReachedOne(Map(handshake), "peerDeviceInfo");
    if "peerDeviceInfo" in handshake {
      ReachedOne(handshake["peerDeviceInfo"], "identifier");
    }
    assert ["peerDeviceInfo"] + ["identifier"] == ["peerDeviceInfo", "identifier"];
  }

  /** A reply gives an identifier exactly when it is an envelope with that text at the end of
      the path. */
  lemma GreetingExactly(x: Xpc, id: string)
    ensures Greeting(Reply.Body(x)) == Ok(id) <==> IsEnvelope(Meaning(x)) && HasText(Meaning(x), IDENTIFIER, id)
  {
    var v := Meaning(x);
    var keys, tail := ["response", "_1", "handshake", "_0"], ["peerDeviceInfo", "identifier"];
    PlainExactly(v);
    ReachedThrough(v, PLAIN, keys);
    ReachedThrough(v, HANDSHAKE, tail);
    match PlainIn(v)
    case Ok(plain) =>
      DigReaches(plain, PLAIN, keys);
      match Dig(plain, PLAIN, keys) {
        case Ok(handshake) => IdentifierExactly(handshake, id);
        case Err(_) => NotBelow(Reached(v, HANDSHAKE), tail);
      }
    case Err(_) =>
      NotBelow(Reached(v, PLAIN), keys);
  }

  lemma NotBelow(v: Option<Val>, keys: seq<string>)
    requires keys != []
    ensures v.Some? && !v.value.Map? ==> Reached(v.value, keys).None?
  {
  }

  /** A reply gives pairing data exactly when it is an envelope with an event that rejects
      nothing and holds those bytes. */
  lemma PairingDataExactly(x: Xpc, data: Bytes)
    ensures DataReply(Reply.Body(x)) == Ok(data) <==>
            && IsEnvelope(Meaning(x)) && Reached(Meaning(x), EVENT + ["pairingRejectedWithError"]).None?
            && HasData(Meaning(x), EVENT + ["pairingData", "_0", "data"], data)
  {
    var v := Meaning(x);
    PlainExactly(v);
    ReachedThrough(v, PLAIN, ["event", "_0"]);
    ReachedThrough(v, EVENT, ["pairingRejectedWithError"]);
    ReachedThrough(v, EVENT, ["pairingData", "_0", "data"]);
    match PlainIn(v)
    case Ok(plain) =>
      DigReaches(plain, PLAIN, ["event", "_0"]);
      match Dig(plain, PLAIN, ["event", "_0"]) {
        case Ok(body) =>
          ReachedOne(Map(body), "pairingRejectedWithError");
          DataInBody(body, data);
        case Err(_) => NotBelow(Reached(v, EVENT), ["pairingData", "_0", "data"]);
      }
    case Err(_) =>
      NotBelow(Reached(v, PLAIN), ["event", "_0"]);
  }

  lemma DataInBody(body: map<string, Val>, data: Bytes)
    ensures (match Dig(body, EVENT, ["pairingData", "_0"])
             case Ok(inner) => DataAt(inner, "data", EVENT + ["pairingData", "_0", "data"]) == Ok(data)
             case Err(_) => false)
            <==> HasData(Map(body), ["pairingData", "_0", "data"], data)
  {
    DigReaches(body, EVENT, ["pairingData", "_0"]);
    ReachedThrough(Map(body), ["pairingData", "_0"], ["data"]);
    assert ["pairingData", "_0"] + ["data"] == ["pairingData", "_0", "data"];
    match Dig(body, EVENT, ["pairingData", "_0"])
    case Ok(inner) => ReachedOne(Map(inner), "data");
    case Err(_) => NotBelow(Reached(Map(body), ["pairingData", "_0"]), ["data"]);
  }

  /** A reply gives an encrypted payload exactly when it is an envelope with the bytes directly
      in its message or, failing bytes there, one level down. */
  lemma EncryptedExactly(x: Xpc, data: Bytes)
    ensures SealedReply(Reply.Body(x)) == Ok(data) <==>
            && IsEnvelope(Meaning(x))
            && (|| HasData(Meaning(x), MESSAGE + ["_0"], data)
                || (&& (forall other :: !HasData(Meaning(x), MESSAGE + ["_0"], other))
                    && HasData(Meaning(x), STREAM + ["_0"], data)))
  {
    var v := Meaning(x);
    MessageExactly(v);
    ReachedThrough(v, MESSAGE, ["_0"]);
    ReachedThrough(v, MESSAGE, ["streamEncrypted", "_0"]);
    assert MESSAGE + ["streamEncrypted", "_0"] == STREAM + ["_0"];
    match MessageIn(v)
    case Ok(message) =>
      EncryptedInMessage(message, data);
      assert forall other :: HasData(v, MESSAGE + ["_0"], other) <==> HasData(Map(message), ["_0"], other);
    case Err(_) =>
      NotBelow(Reached(v, MESSAGE), ["_0"]);
      NotBelow(Reached(v, MESSAGE), ["streamEncrypted", "_0"]);
  }

  lemma EncryptedInMessage(message: map<string, Val>, data: Bytes)
    ensures var m := Map(message);
            (match DataAt(message, "_0", STREAM + ["_0"])
             case Ok(direct) => direct == data
             case Err(_) =>
               match DictAt(message, "streamEncrypted", STREAM)
               case Err(_) => false
               case Ok(stream) => DataAt(stream, "_0", STREAM + ["_0"]) == Ok(data))
            <==> || HasData(m, ["_0"], data)
                 || ((forall other :: !HasData(m, ["_0"], other)) && HasData(m, ["streamEncrypted", "_0"], data))
  {
    var m := Map(message);
    ReachedOne(m, "_0");
    ReachedThrough(m, ["streamEncrypted"], ["_0"]);
    assert ["streamEncrypted"] + ["_0"] == ["streamEncrypted", "_0"];
    ReachedOne(m, "streamEncrypted");
    if "streamEncrypted" in message {
      ReachedOne(message["streamEncrypted"], "_0");
    }
    match DataAt(message, "_0", STREAM + ["_0"])
    case Ok(direct) => assert HasData(m, ["_0"], direct);
    case Err(_) =>
  }

  // -------------------------------------------------------------- requests

  lemma ReachedInEnvelope(message: Xpc, number: nat, keys: seq<string>)
    requires WellFormed(message)
    ensures var v := Meaning(ControlEnvelope(message, number));
            && IsEnvelope(v) && HasText(v, ["value", "originatedBy"], "host")
            && Reached(v, ["value", "sequenceNumber"]) == Some(Plain(Uint64(number)))
            && Reached(v, MESSAGE + keys) == Reached(Meaning(message), keys)
  {
    EnvelopeMeaning(message, number);
    var v := Meaning(ControlEnvelope(message, number));
    ReachedOne(v, "mangledTypeName");
    assert forall key :: ["value", key][1..] == [key];
    ReachedOne(v.fields["value"], "originatedBy");
    ReachedOne(v.fields["value"], "sequenceNumber");
    ReachedOne(v.fields["value"], "message");
    ReachedThrough(v, MESSAGE, keys);
  }

  lemma ReachedInWrap(key: string, x: Xpc, keys: seq<string>)
    requires WellFormed(x)
    ensures WellFormed(Wrap(key, x)) && Reached(Meaning(Wrap(key, x)), [key] + keys) == Reached(Meaning(x), keys)
  {
    WrapMeaning(key, x);
    assert ([key] + keys)[1..] == keys;
  }

  lemma ReachedInTwo(key: string, x: Xpc, keys: seq<string>)
    requires WellFormed(x)
    ensures var y := Wrap(key, Wrap("_0", x));
            WellFormed(y) && Reached(Meaning(y), [key, "_0"] + keys) == Reached(Meaning(x), keys)
  {
    ReachedInWrap("_0", x, keys);
    ReachedInWrap(key, Wrap("_0", x), ["_0"] + keys);
    assert [key] + (["_0"] + keys) == [key, "_0"] + keys;
  }

  /** A plain message with a value two wrapped keys down. */
  function PlainMessage(outer: string, inner: string, x: Xpc): Xpc {
    Wrap("plain", Wrap("_0", Wrap(outer, Wrap("_0", Wrap(inner, Wrap("_0", x))))))
  }

  lemma ReachedInMessage(outer: string, inner: string, x: Xpc, keys: seq<string>)
    requires WellFormed(x)
    ensures var y := PlainMessage(outer, inner, x);
            && WellFormed(y)
            && Reached(Meaning(y), ["plain", "_0"] + ([outer, "_0"] + ([inner, "_0"] + keys)))
               == Reached(Meaning(x), keys)
  {
    var one := Wrap(inner, Wrap("_0", x));
    ReachedInTwo(inner, x, keys);
    ReachedInTwo(outer, one, [inner, "_0"] + keys);
    ReachedInTwo("plain", Wrap(outer, Wrap("_0", one)), [outer, "_0"] + ([inner, "_0"] + keys));
  }

  lemma ReachedInPlain(outer: string, inner: string, x: Xpc, number: nat, keys: seq<string>)
    requires WellFormed(x)
    ensures var v := Meaning(ControlEnvelope(PlainMessage(outer, inner, x), number));
            && IsEnvelope(v) && HasText(v, ["value", "originatedBy"], "host")
            && Reached(v, PLAIN + [outer, "_0"] + [inner, "_0"] + keys) == Reached(Meaning(x), keys)
  {
    var all := ["plain", "_0"] + ([outer, "_0"] + ([inner, "_0"] + keys));
    ReachedInMessage(outer, inner, x, keys);
    ReachedInEnvelope(PlainMessage(outer, inner, x), number, all);
    assert MESSAGE + all == PLAIN + [outer, "_0"] + [inner, "_0"] + keys;
  }

  const REQUEST: FieldPath := PLAIN + ["request", "_0"]

  /** The handshake asks for pair verification and names protocol version 19. */
  lemma HandshakeHolds(number: nat)
    ensures var v := Meaning(HandshakeRequest(number));
            var handshake := REQUEST + ["handshake", "_0"];
            && IsEnvelope(v) && HasText(v, ["value", "originatedBy"], "host")
            && Reached(v, handshake + ["hostOptions", "attemptPairVerify"]) == Some(Plain(Bool(true)))
            && Reached(v, handshake + ["wireProtocolVersion"]) == Some(Plain(Int64(19)))
  {
    ReachedInRequest(number, ["hostOptions", "attemptPairVerify"]);
    ReachedInRequest(number, ["wireProtocolVersion"]);
    HelloFieldsHold();
  }

  function HelloFields(): Xpc {
    XpcDict([Field("hostOptions", Wrap("attemptPairVerify", Bool(true))), Field("wireProtocolVersion", Int64(19))])
  }

  lemma HelloFieldsHold()
    ensures WellFormed(HelloFields())
    ensures Reached(Meaning(HelloFields()), ["hostOptions", "attemptPairVerify"]) == Some(Plain(Bool(true)))
    ensures Reached(Meaning(HelloFields()), ["wireProtocolVersion"]) == Some(Plain(Int64(19)))
  {
    var a, b := Field("hostOptions", Wrap("attemptPairVerify", Bool(true))), Field("wireProtocolVersion", Int64(19));
    WrapMeaning("attemptPairVerify", Bool(true));
    BuiltMeaning([a, b]);
    PairsTwo(a, b);
    assert ["hostOptions", "attemptPairVerify"][1..] == ["attemptPairVerify"];
    ReachedOne(Meaning(a.value), "attemptPairVerify");
    ReachedOne(Meaning(HelloFields()), "wireProtocolVersion");
  }

  lemma ReachedInRequest(number: nat, keys: seq<string>)
    ensures var v := Meaning(HandshakeRequest(number));
            && IsEnvelope(v) && HasText(v, ["value", "originatedBy"], "host")
            && Reached(v, REQUEST + ["handshake", "_0"] + keys) == Reached(Meaning(HelloFields()), keys)
  {
    HelloFieldsHold();
    ReachedInPlain("request", "handshake", HelloFields(), number, keys);
  }

  /** A pairing event holds its bytes, its kind and whether a new session starts, and names
      the sending host exactly when it is given one. */
  lemma PairingEventHolds(tlv: Bytes, kind: string, newSession: bool, host: Option<string>, number: nat)
    ensures var v := Meaning(PairingEvent(tlv, kind, newSession, host, number));
            var place := EVENT + ["pairingData", "_0"];
            && IsEnvelope(v) && HasText(v, ["value", "originatedBy"], "host")
            && HasData(v, place + ["data"], tlv) && HasText(v, place + ["kind"], kind)
            && Reached(v, place + ["startNewSession"]) == Some(Plain(Bool(newSession)))
            && Reached(v, place + ["sendingHost"]) == (if host.Some? then Some(Plain(Str(host.value))) else None)
  {
    ReachedInEvent(tlv, kind, newSession, host, number, "data");
    ReachedInEvent(tlv, kind, newSession, host, number, "kind");
    ReachedInEvent(tlv, kind, newSession, host, number, "startNewSession");
    ReachedInEvent(tlv, kind, newSession, host, number, "sendingHost");
  }

  /** The fields of a pairing event. */
  function EventField(tlv: Bytes, kind: string, newSession: bool, host: Option<string>, key: string): Option<Val> {
    match key
    case "data" => Some(Plain(Data(tlv)))
    case "kind" => Some(Plain(Str(kind)))
    case "startNewSession" => Some(Plain(Bool(newSession)))
    case "sendingHost" => if host.Some? then Some(Plain(Str(host.value))) else None
    case _ => None
  }

  lemma EventFields(tlv: Bytes, kind: string, newSession: bool, host: Option<string>, key: string)
    ensures var x := XpcDict(PairingFields(tlv, kind, newSession, host));
            WellFormed(x) && Reached(Meaning(x), [key]) == EventField(tlv, kind, newSession, host, key)
  {
    var a, b, c := Field("data", Data(tlv)), Field("kind", Str(kind)), Field("startNewSession", Bool(newSession));
    var pairs := PairingFields(tlv, kind, newSession, host);
    BuiltMeaning(pairs);
    PairsThree(a, b, c);
    if host.Some? {
      assert pairs[..3] == [a, b, c];
    } else {
      assert pairs == [a, b, c];
    }
    ReachedOne(Meaning(XpcDict(pairs)), key);
  }

  lemma ReachedInEvent(tlv: Bytes, kind: string, newSession: bool, host: Option<string>, number: nat, key: string)
    ensures var v := Meaning(PairingEvent(tlv, kind, newSession, host, number));
            && IsEnvelope(v) && HasText(v, ["value", "originatedBy"], "host")
            && Reached(v, EVENT + ["pairingData", "_0"] + [key]) == EventField(tlv, kind, newSession, host, key)
  {
    var x := XpcDict(PairingFields(tlv, kind, newSession, host));
    EventFields(tlv, kind, newSession, host, key);
    ReachedInPlain("event", "pairingData", x, number, [key]);
  }
}
