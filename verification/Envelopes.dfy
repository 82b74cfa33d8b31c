/** The control-channel envelopes of the pairing protocol: how they are built, and how
    they are taken apart by removing entries one after the other. */
module Envelopes {
  import opened Options
  import opened XpcValues

  const ENVELOPE_TYPE := "RemotePairing.ControlChannelMessageEnvelope"

  /** A field is named by the keys that lead to it. */
  type FieldPath = seq<string>

  datatype Shape = Dictionary | DataBlob | Text

  datatype Reason =
    | OddType(name: string)
    | NoPublicKey
    | NoSalt
    | NoServerProof
    | BadServerProof
    | NoEncryptedData

  datatype Error =
    | MissingField(path: FieldPath)
    | UnexpectedType(path: FieldPath, expected: Shape)
    | Failed(reason: Reason)
    | Rejected(why: string)
    | Channel
    | Crypto

  // -------------------------------------------------------------- building

  /** `xpc_dict`: inserts the pairs one by one. */
  function XpcDict(pairs: seq<Field>): Xpc {
    Dict(Collected(pairs))
  }

  function Wrap(key: string, value: Xpc): Xpc {
    XpcDict([Field(key, value)])
  }

  function ControlEnvelope(message: Xpc, number: nat): Xpc {
    XpcDict([Field("mangledTypeName", Str(ENVELOPE_TYPE)),
             Field("value", XpcDict([Field("message", message),
                                     Field("originatedBy", Str("host")),
                                     Field("sequenceNumber", Uint64(number))]))])
  }

  function PlainRequest(request: Xpc, number: nat): Xpc {
    ControlEnvelope(Wrap("plain", Wrap("_0", Wrap("request", Wrap("_0", request)))), number)
  }

  function HandshakeRequest(number: nat): Xpc {
    PlainRequest(Wrap("handshake", Wrap("_0",
      XpcDict([Field("hostOptions", Wrap("attemptPairVerify", Bool(true))),
               Field("wireProtocolVersion", Int64(19))]))), number)
  }

  function EncryptedRequest(payload: Bytes, number: nat): Xpc {
    ControlEnvelope(Wrap("streamEncrypted", Wrap("_0", Data(payload))), number)
  }

  function PairingFields(tlv: Bytes, kind: string, newSession: bool, host: Option<string>): seq<Field> {
    [Field("data", Data(tlv)), Field("kind", Str(kind)), Field("startNewSession", Bool(newSession))]
    + if host.Some? then [Field("sendingHost", Str(host.value))] else []
  }

  function PairingMessage(tlv: Bytes, kind: string, newSession: bool, host: Option<string>): Xpc {
    Wrap("plain", Wrap("_0", Wrap("event", Wrap("_0", Wrap("pairingData", Wrap("_0",
      XpcDict(PairingFields(tlv, kind, newSession, host))))))))
  }

  function PairingEvent(tlv: Bytes, kind: string, newSession: bool, host: Option<string>, number: nat): Xpc {
    ControlEnvelope(PairingMessage(tlv, kind, newSession, host), number)
  }

  // ------------------------------------------------- what a message says

  /** The dictionary at a key; `path` names the place for errors. */
  function DictAt(fields: map<string, Val>, key: string, path: FieldPath): Result<map<string, Val>, Error> {
    if key !in fields then Err(MissingField(path))
    else match fields[key]
      case Map(inner) => Ok(inner)
      case _ => Err(UnexpectedType(path, Dictionary))
  }

  function DataAt(fields: map<string, Val>, key: string, path: FieldPath): Result<Bytes, Error> {
    if key !in fields then Err(MissingField(path))
    else if fields[key].Plain? && fields[key].leaf.Data? then Ok(fields[key].leaf.data)
    else Err(UnexpectedType(path, DataBlob))
  }

  function StringAt(fields: map<string, Val>, key: string, path: FieldPath): Result<string, Error> {
    if key !in fields then Err(MissingField(path))
    else if fields[key].Plain? && fields[key].leaf.Str? then Ok(fields[key].leaf.s)
    else Err(UnexpectedType(path, Text))
  }

  /** The dictionary reached by following keys down from a place. */
  function Dig(fields: map<string, Val>, place: FieldPath, keys: seq<string>): Result<map<string, Val>, Error>
    decreases |keys|
  {
    if keys == [] then Ok(fields)
    else
      match DictAt(fields, keys[0], place + [keys[0]])
      case Err(e) => Err(e)
      case Ok(inner) => Dig(inner, place + [keys[0]], keys[1..])
  }

  const MESSAGE: FieldPath := ["value", "message"]
  const PLAIN: FieldPath := MESSAGE + ["plain", "_0"]
  const EVENT: FieldPath := PLAIN + ["event", "_0"]
  const STREAM: FieldPath := MESSAGE + ["streamEncrypted"]

  /** The message inside a control-channel envelope. */
  function MessageIn(body: Val): Result<map<string, Val>, Error> {
    if !body.Map? then Err(UnexpectedType([], Dictionary))
    else
      match StringAt(body.fields, "mangledTypeName", ["mangledTypeName"])
      case Err(e) => Err(e)
      case Ok(mangled) =>
        if mangled != ENVELOPE_TYPE then Err(Failed(OddType(mangled)))
        else Dig(body.fields, [], ["value", "message"])
  }

  function PlainIn(body: Val): Result<map<string, Val>, Error> {
    match MessageIn(body)
    case Err(e) => Err(e)
    case Ok(message) => Dig(message, MESSAGE, ["plain", "_0"])
  }

  function FieldOf(v: Option<Val>, key: string): Option<Val> {
    if v.Some? && v.value.Map? && key in v.value.fields then Some(v.value.fields[key]) else None
  }

  function RejectionMessage(v: Val): string {
    var text := FieldOf(FieldOf(FieldOf(Some(v), "wrappedError"), "userInfo"), "NSLocalizedDescription");
    if text.Some? && text.value.Plain? && text.value.leaf.Str? then text.value.leaf.s else "pairing rejected by device"
  }

  /** The pairing data of a plain message, or the rejection it carries. */
  function PairingDataIn(plain: map<string, Val>): Result<Bytes, Error> {
    match Dig(plain, PLAIN, ["event", "_0"])
    case Err(e) => Err(e)
    case Ok(body) =>
      if "pairingRejectedWithError" in body then Err(Rejected(RejectionMessage(body["pairingRejectedWithError"])))
      else
        match Dig(body, EVENT, ["pairingData", "_0"])
        case Err(e) => Err(e)
        case Ok(inner) => DataAt(inner, "data", EVENT + ["pairingData", "_0", "data"])
  }

  function PairingReply(body: Val): Result<Bytes, Error> {
    match PlainIn(body)
    case Err(e) => Err(e)
    case Ok(plain) => PairingDataIn(plain)
  }

  /** The payload of an encrypted reply, directly in the message or one level down. */
  function EncryptedIn(body: Val): Result<Bytes, Error> {
    match MessageIn(body)
    case Err(e) => Err(e)
    case Ok(message) =>
      match DataAt(message, "_0", STREAM + ["_0"])
      case Ok(data) => Ok(data)
      case Err(_) =>
        match DictAt(message, "streamEncrypted", STREAM)
        case Err(e) => Err(e)
        case Ok(stream) => DataAt(stream, "_0", STREAM + ["_0"])
  }

  // -------------------------------------------------------------- decoding

  /** `take_required_field`: removes an entry from a dictionary and returns it. */
  method TakeField(fields: seq<Field>, key: string, path: FieldPath) returns (r: Result<Xpc, Error>, rest: seq<Field>)
    requires WellFormedAll(fields)
    ensures WellFormedAll(rest) && MeaningOf(rest) == MeaningOf(fields) - {key}
    ensures key !in MeaningOf(fields) ==> r == Err(MissingField(path))
    ensures key in MeaningOf(fields) ==> r.Ok? && WellFormed(r.value) && Meaning(r.value) == MeaningOf(fields)[key]
  {
    SwapRemoveMeaning(fields, key);
    WellFormedMeans(fields);
    MeaningKeys(fields, key);
    rest := SwapRemoved(fields, key);
    match Find(fields, key)
    case None => r := Err(MissingField(path));
    case Some(i) =>
      MeaningAt(fields, i);
      r := Ok(fields[i].value);
  }

  method TakeDict(fields: seq<Field>, key: string, path: FieldPath)
    returns (r: Result<seq<Field>, Error>, rest: seq<Field>)
    requires WellFormedAll(fields)
    ensures WellFormedAll(rest) && MeaningOf(rest) == MeaningOf(fields) - {key}
    ensures match DictAt(MeaningOf(fields), key, path)
            case Err(e) => r == Err(e)
            case Ok(inner) => r.Ok? && WellFormedAll(r.value) && MeaningOf(r.value) == inner
  {
    var value;
    value, rest := TakeField(fields, key, path);
    match value
    case Err(e) => r := Err(e);
    case Ok(x) => r := if x.Dict? then Ok(x.fields) else Err(UnexpectedType(path, Dictionary));
  }

  method TakeData(fields: seq<Field>, key: string, path: FieldPath) returns (r: Result<Bytes, Error>, rest: seq<Field>)
    requires WellFormedAll(fields)
    ensures WellFormedAll(rest) && MeaningOf(rest) == MeaningOf(fields) - {key}
    ensures r == DataAt(MeaningOf(fields), key, path)
  {
    var value;
    value, rest := TakeField(fields, key, path);
    match value
    case Err(e) => r := Err(e);
    case Ok(x) => r := if x.Data? then Ok(x.data) else Err(UnexpectedType(path, DataBlob));
  }

  method TakeString(fields: seq<Field>, key: string, path: FieldPath)
    returns (r: Result<string, Error>, rest: seq<Field>)
    requires WellFormedAll(fields)
    ensures WellFormedAll(rest) && MeaningOf(rest) == MeaningOf(fields) - {key}
    ensures r == StringAt(MeaningOf(fields), key, path)
  {
    var value;
    value, rest := TakeField(fields, key, path);
    match value
    case Err(e) => r := Err(e);
    case Ok(x) => r := if x.Str? then Ok(x.s) else Err(UnexpectedType(path, Text));
  }

  /** A chain of `take_required_dict` calls, each into the dictionary just taken. */
  method TakePath(fields: seq<Field>, place: FieldPath, keys: seq<string>) returns (r: Result<seq<Field>, Error>)
    requires WellFormedAll(fields)
    ensures match Dig(MeaningOf(fields), place, keys)
            case Err(e) => r == Err(e)
            case Ok(inner) => r.Ok? && WellFormedAll(r.value) && MeaningOf(r.value) == inner
    decreases |keys|
  {
    if keys == [] {
      return Ok(fields);
    }
    var rest;
    r, rest := TakeDict(fields, keys[0], place + [keys[0]]);
    if r.Ok? {
      r := TakePath(r.value, place + [keys[0]], keys[1..]);
    }
  }

  /** The common start of both decoders, removing as it goes. */
  method TakeMessage(body: Xpc) returns (r: Result<seq<Field>, Error>)
    requires WellFormed(body)
    ensures match MessageIn(Meaning(body))
            case Err(e) => r == Err(e)
            case Ok(message) => r.Ok? && WellFormedAll(r.value) && MeaningOf(r.value) == message
  {
    if !body.Dict? {
      return Err(UnexpectedType([], Dictionary));
    }
    var mangled, envelope := TakeString(body.fields, "mangledTypeName", ["mangledTypeName"]);
    if mangled.Err? {
      return Err(mangled.error);
    }
    if mangled.value != ENVELOPE_TYPE {
      return Err(Failed(OddType(mangled.value)));
    }
    r := TakePath(envelope, [], ["value", "message"]);
    assert DictAt(MeaningOf(envelope), "value", [] + ["value"])
           == DictAt(MeaningOf(body.fields), "value", [] + ["value"]);
  }

  /** The destructive decoder says what the message says, whatever the order of entries. */
  method DecodeControlPlainMessage(body: Xpc) returns (r: Result<seq<Field>, Error>)
    requires WellFormed(body)
    ensures match PlainIn(Meaning(body))
            case Err(e) => r == Err(e)
            case Ok(plain) => r.Ok? && WellFormedAll(r.value) && MeaningOf(r.value) == plain
  {
    r := TakeMessage(body);
    if r.Ok? {
      r := TakePath(r.value, MESSAGE, ["plain", "_0"]);
    }
  }

  method DecodePairingDataEvent(plain: seq<Field>) returns (r: Result<Bytes, Error>)
    requires WellFormedAll(plain)
    ensures r == PairingDataIn(MeaningOf(plain))
  {
    var body := TakePath(plain, PLAIN, ["event", "_0"]);
    if body.Err? {
      return Err(body.error);
    }
    MeaningKeys(body.value, "pairingRejectedWithError");
    match Find(body.value, "pairingRejectedWithError") {
      case Some(i) =>
        WellFormedMeans(body.value);
        MeaningAt(body.value, i);
        return Err(Rejected(RejectionMessage(Meaning(body.value[i].value))));
      case None =>
    }
    var inner := TakePath(body.value, EVENT, ["pairingData", "_0"]);
    if inner.Err? {
      return Err(inner.error);
    }
    var rest;
    r, rest := TakeData(inner.value, "data", EVENT + ["pairingData", "_0", "data"]);
  }

  method DecodeEncryptedResponse(body: Xpc) returns (r: Result<Bytes, Error>)
    requires WellFormed(body)
    ensures r == EncryptedIn(Meaning(body))
  {
    var message := TakeMessage(body);
    if message.Err? {
      return Err(message.error);
    }
    var rest;
    r, rest := TakeData(message.value, "_0", STREAM + ["_0"]);
    if r.Ok? {
      return;
    }
    var stream, _ := TakeDict(rest, "streamEncrypted", STREAM);
    if stream.Err? {
      return Err(stream.error);
    }
    r, rest := TakeData(stream.value, "_0", STREAM + ["_0"]);
  }
}
