/** Reading the replies of a device, whatever it sends. */
module PairingReplies {
  import opened Options
  import opened XpcValues
  import opened Envelopes

  /** What comes in when the host waits: nothing, a message without a body, or a body. */
  datatype Reply = Lost | Bodyless | Body(value: Xpc)

  const HANDSHAKE: FieldPath := PLAIN + ["response", "_1", "handshake", "_0"]

  function BodyOf(reply: Reply): Result<Xpc, Error> {
    match reply
    case Lost => Err(Channel)
    case Bodyless => Err(MissingField(["xpc message body"]))
    case Body(x) => Ok(x)
  }

  function PlainReply(reply: Reply): Result<map<string, Val>, Error> {
    match BodyOf(reply) case Err(e) => Err(e) case Ok(x) => PlainIn(Meaning(x))
  }

  function DataReply(reply: Reply): Result<Bytes, Error> {
    match PlainReply(reply) case Err(e) => Err(e) case Ok(plain) => PairingDataIn(plain)
  }

  function IdentifierIn(handshake: map<string, Val>): Result<string, Error> {
    var found := FieldOf(FieldOf(Some(Map(handshake)), "peerDeviceInfo"), "identifier");
    if found.Some? && found.value.Plain? && found.value.leaf.Str? then Ok(found.value.leaf.s)
    else Err(MissingField(HANDSHAKE + ["peerDeviceInfo", "identifier"]))
  }

  function Greeting(reply: Reply): Result<string, Error> {
    match PlainReply(reply)
    case Err(e) => Err(e)
    case Ok(plain) =>
      match Dig(plain, PLAIN, ["response", "_1", "handshake", "_0"])
      case Err(e) => Err(e)
      case Ok(handshake) => IdentifierIn(handshake)
  }

  function SealedReply(reply: Reply): Result<Bytes, Error> {
    match BodyOf(reply) case Err(e) => Err(e) case Ok(x) => EncryptedIn(Meaning(x))
  }

  /** The reply tells that the device rejects the pairing, with this in place of data. */
  predicate Rejects(reply: Reply, error: Val) {
    && PlainReply(reply).Ok?
    && var body := Dig(PlainReply(reply).value, PLAIN, ["event", "_0"]);
    && body.Ok? && "pairingRejectedWithError" in body.value && body.value["pairingRejectedWithError"] == error
  }

  /** A rejection is heard as one, whatever else the reply holds. */
  lemma RejectionIsHeard(reply: Reply, error: Val)
    requires Rejects(reply, error)
    ensures DataReply(reply) == Err(Rejected(RejectionMessage(error)))
  {
  }

  ghost predicate Sound(reply: Reply) {
    reply.Body? ==> WellFormed(reply.value)
  }

  method ReceivePlain(reply: Reply) returns (r: Result<seq<Field>, Error>)
    requires Sound(reply)
    ensures match PlainReply(reply)
            case Err(e) => r == Err(e)
            case Ok(plain) => r.Ok? && WellFormedAll(r.value) && MeaningOf(r.value) == plain
  {
    var body := BodyOf(reply);
    if body.Err? {
      return Err(body.error);
    }
    r := DecodeControlPlainMessage(body.value);
  }

  method ReceivePairingData(reply: Reply) returns (r: Result<Bytes, Error>)
    requires Sound(reply)
    ensures r == DataReply(reply)
  {
    var plain := ReceivePlain(reply);
    if plain.Err? {
      return Err(plain.error);
    }
    r := DecodePairingDataEvent(plain.value);
  }

  method ReceiveHandshake(reply: Reply) returns (r: Result<string, Error>)
    requires Sound(reply)
    ensures r == Greeting(reply)
  {
    var plain := ReceivePlain(reply);
    if plain.Err? {
      return Err(plain.error);
    }
    var inner := TakePath(plain.value, PLAIN, ["response", "_1", "handshake", "_0"]);
    if inner.Err? {
      return Err(inner.error);
    }
    r := IdentifierIn(MeaningOf(inner.value));
  }

  method ReceiveSealed(reply: Reply) returns (r: Result<Bytes, Error>)
    requires Sound(reply)
    ensures r == SealedReply(reply)
  {
    var body := BodyOf(reply);
    if body.Err? {
      return Err(body.error);
    }
    r := DecodeEncryptedResponse(body.value);
  }
}
