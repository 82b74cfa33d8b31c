/** Whole XPC messages as bytes. */
module XpcStream {
  import opened Options
  import opened XpcValues
  import opened XpcWire
  import opened XpcDecode

  const WRAPPER_MAGIC: nat := 0x29B00B92
  const OBJECT_MAGIC: nat := 0x42133742
  const BODY_VERSION: nat := 5
  const HEADER: nat := 24
  const CONTROL_LIMIT: nat := 8 * 1024 * 1024
  const TRANSFER_LIMIT: nat := 64 * 1024 * 1024
  const PENDING_LIMIT: nat := TRANSFER_LIMIT + HEADER

  type U32Word = n: nat | n < 0x1_0000_0000

  datatype Message = Message(flags: U32Word, id: U64, body: Option<Xpc>)

  /** The body limit goes by the two file-transfer bits, 0x100000 and 0x200000. */
  function Limit(flags: nat): nat {
    if flags / 0x100000 % 4 != 0 then TRANSFER_LIMIT else CONTROL_LIMIT
  }

  function BodyBytes(m: Message): Bytes {
    match m.body case None => [] case Some(v) => U32(OBJECT_MAGIC) + U32(BODY_VERSION) + Encode(v)
  }

  /** The encoder accepts the message. */
  predicate Encodable(m: Message) {
    (m.body.Some? ==> Fits(m.body.value)) && |BodyBytes(m)| < U64_LIMIT
  }

  function EncodeMessage(m: Message): Bytes
    requires Encodable(m)
  {
    U32(WRAPPER_MAGIC) + U32(m.flags) + U64Bytes(|BodyBytes(m)|) + U64Bytes(m.id) + BodyBytes(m)
  }

  function DecodeBodyBytes(b: Bytes): Option<Xpc> {
    if |b| < 8 || ReadU32(b) != OBJECT_MAGIC || ReadU32(b[4..]) != BODY_VERSION then None
    else match DecodeValue(b[8..], 0) case None => None case Some(p) => Some(p.value)
  }

  function DecodeMessage(b: Bytes): Option<Message> {
    if |b| < HEADER || ReadU32(b) != WRAPPER_MAGIC then None
    else
      var flags, length, id := ReadFlags(b), ReadU64(b[8..]), ReadU64(b[16..]);
      if length > Limit(flags) || |b| - HEADER < length then None
      else if length == 0 then Some(Message(flags, id, None))
      else
        match DecodeBodyBytes(b[HEADER..HEADER + length])
        case None => None
        case Some(v) => Some(Message(flags, id, Some(v)))
  }

  function ReadFlags(b: Bytes): U32Word
    requires |b| >= 8
  {
    ReadU32Small(b[4..]);
    ReadU32(b[4..])
  }

  /** The limit is 64 MiB when bit 20 or bit 21 of the flags is set, and 8 MiB otherwise. */
  lemma LimitByBits(high: nat, bits: nat, low: nat)
    requires bits < 4 && low < 0x10_0000
    ensures Limit(high * 0x40_0000 + bits * 0x10_0000 + low) == if bits == 0 then 8_388_608 else 67_108_864
  {
    var flags := high * 0x40_0000 + bits * 0x10_0000 + low;
    assert flags / 0x10_0000 == high * 4 + bits;
  }

  // ------------------------------------------------------------ one message

  /** Five parts laid end to end, seen from the start of each. */
  lemma Layout(a: Bytes, b: Bytes, c: Bytes, d: Bytes, e: Bytes, rest: Bytes)
    requires |a| == 4 && |b| == 4 && |c| == 8 && |d| == 8
    ensures var s := a + b + c + d + e + rest;
            && s == a + s[4..] && s[4..] == b + s[8..] && s[8..] == c + s[16..]
            && s[16..] == d + s[HEADER..] && s[HEADER..] == e + rest
  {
  }

  /** The four header fields read back from an encoded message. */
  lemma HeaderBack(m: Message, rest: Bytes)
    requires Encodable(m)
    ensures var b := EncodeMessage(m) + rest;
            && |EncodeMessage(m)| == HEADER + |BodyBytes(m)|
            && ReadU32(b) == WRAPPER_MAGIC && ReadFlags(b) == m.flags
            && ReadU64(b[8..]) == |BodyBytes(m)| && ReadU64(b[16..]) == m.id
            && b[HEADER..] == BodyBytes(m) + rest
  {
    FieldsOfLayout(m.flags, |BodyBytes(m)|, m.id, BodyBytes(m), rest);
  }

  lemma FieldsOfLayout(flags: U32Word, length: U64, id: U64, body: Bytes, rest: Bytes)
    ensures var b := U32(WRAPPER_MAGIC) + U32(flags) + U64Bytes(length) + U64Bytes(id) + body + rest;
            && |b| == HEADER + |body| + |rest|
            && ReadU32(b) == WRAPPER_MAGIC && ReadU32(b[4..]) == flags
            && ReadU64(b[8..]) == length && ReadU64(b[16..]) == id
            && b[HEADER..] == body + rest
  {
    var w, f, l, i := U32(WRAPPER_MAGIC), U32(flags), U64Bytes(length), U64Bytes(id);
    var b := w + f + l + i + body + rest;
    Layout(w, f, l, i, body, rest);
    ReadU32Back(WRAPPER_MAGIC, b[4..]);
    ReadU32Back(flags, b[8..]);
    ReadU64Back(length, b[16..]);
    ReadU64Back(id, b[HEADER..]);
  }

  lemma BodyBytesBack(v: Xpc)
    requires Fits(v)
    ensures var b := U32(OBJECT_MAGIC) + U32(BODY_VERSION) + Encode(v);
            && |b| >= 8
            && DecodeBodyBytes(b) == (match DecodeValue(Encode(v), 0) case None => None case Some(p) => Some(p.value))
  {
    var b := U32(OBJECT_MAGIC) + U32(BODY_VERSION) + Encode(v);
    assert b == U32(OBJECT_MAGIC) + (U32(BODY_VERSION) + Encode(v));
    ReadU32Back(OBJECT_MAGIC, U32(BODY_VERSION) + Encode(v));
    ReadU32Back(BODY_VERSION, Encode(v));
    assert b[8..] == b[4..][4..] == Encode(v);
  }

  /** The message arrives as it was sent. */
  predicate Survives(m: Message) {
    |BodyBytes(m)| <= Limit(m.flags) && (m.body.Some? ==> Clean(m.body.value, 0))
  }

  /** An encoded message, with anything after it, decodes to itself exactly when its body is
      clean and within the limit its flags allow. */
  lemma MessageRoundTrip(m: Message, rest: Bytes)
    requires Encodable(m)
    ensures DecodeMessage(EncodeMessage(m) + rest) == Some(m) <==> Survives(m)
  {
    var b, n := EncodeMessage(m) + rest, |BodyBytes(m)|;
    HeaderBack(m, rest);
    assert b[HEADER..HEADER + n] == b[HEADER..][..n] == BodyBytes(m);
    match m.body
    case None =>
    case Some(v) =>
      BodyBytesBack(v);
      if Clean(v, 0) { RoundTripExactlyWhenClean(v); }
      DecodedIsClean(Encode(v), 0);
  }
}
