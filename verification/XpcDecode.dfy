/** Reading the binary form back, and exactly which values survive the trip. */
module XpcDecode {
  import opened Options
  import opened XpcValues
  import opened XpcWire

  const MAX_DEPTH: nat := 64
  const MAX_COLLECTION: nat := 65536

  datatype Parsed<+T> = Parsed(value: T, rest: Bytes)

  /** The bytes before the first zero. */
  function UpToZero(b: Bytes): (r: Bytes)
    ensures |r| <= |b| && r == b[..|r|] && 0 !in r && (|r| < |b| ==> b[|r|] == 0)
  {
    if b == [] || b[0] == 0 then [] else [b[0]] + UpToZero(b[1..])
  }

  function DecodeBlob(b: Bytes): (r: Option<Parsed<Bytes>>)
    ensures r.Some? ==> |r.value.rest| < |b|
  {
    if |b| < 4 then None
    else
      var n, d := ReadU32(b), b[4..];
      if |d| < n + PadLength(n) then None else Some(Parsed(d[..n], d[n + PadLength(n)..]))
  }

  function DecodeKey(b: Bytes): (r: Option<Parsed<Bytes>>)
    ensures r.Some? ==> |r.value.rest| < |b|
  {
    var key := UpToZero(b);
    var total := |key| + 1;
    if |key| == |b| || |b| < total + PadLength(total) then None
    else Some(Parsed(key, b[total + PadLength(total)..]))
  }

  function DecodeWord(b: Bytes): (r: Option<Parsed<nat>>)
    ensures r.Some? ==> |r.value.rest| < |b|
  {
    if |b| < 8 then None else Some(Parsed(ReadU64(b), b[8..]))
  }

  /** A collection header: its size field is skipped, its count is limited. */
  function DecodeCount(b: Bytes): (r: Option<Parsed<nat>>)
    ensures r.Some? ==> |r.value.rest| < |b| && r.value.value <= MAX_COLLECTION
  {
    if |b| < 8 || ReadU32(b[4..]) > MAX_COLLECTION then None else Some(Parsed(ReadU32(b[4..]), b[8..]))
  }

  function DecodeValue(b: Bytes, depth: nat): (r: Option<Parsed<Xpc>>)
    ensures r.Some? ==> |r.value.rest| < |b|
    decreases |b|, 0
  {
    if depth > MAX_DEPTH || |b| < 4 then None
    else DecodeBody(ReadU32(b), b[4..], depth)
  }

  function DecodeBody(tag: nat, c: Bytes, depth: nat): (r: Option<Parsed<Xpc>>)
    ensures r.Some? ==> |r.value.rest| <= |c|
    decreases |c|, 2
  {
    if tag == TYPE_NULL then Some(Parsed(Null, c))
    else if tag == TYPE_BOOL then (if |c| < 4 then None else Some(Parsed(Bool(c[0] != 0), c[4..])))
    else if tag == TYPE_INT64 then
      match DecodeWord(c) case None => None case Some(p) => Some(Parsed(Int64(p.value), p.rest))
    else if tag == TYPE_UINT64 then
      match DecodeWord(c) case None => None case Some(p) => Some(Parsed(Uint64(p.value), p.rest))
    else if tag == TYPE_DOUBLE then
      match DecodeWord(c) case None => None case Some(p) => Some(Parsed(Double(p.value), p.rest))
    else if tag == TYPE_DATE then
      match DecodeWord(c) case None => None case Some(p) => Some(Parsed(Date(p.value), p.rest))
    else if tag == TYPE_DATA then
      match DecodeBlob(c) case None => None case Some(p) => Some(Parsed(Data(p.value), p.rest))
    else if tag == TYPE_STRING then
      match DecodeBlob(c) case None => None case Some(p) => Some(Parsed(Str(Text(UpToZero(p.value))), p.rest))
    else if tag == TYPE_UUID then
      (if |c| < 16 then None else Some(Parsed(Uuid(ReadU64(c), ReadU64(c[8..])), c[16..])))
    else if tag == TYPE_ARRAY then
      match DecodeCount(c)
      case None => None
      case Some(p) =>
        (match DecodeItems(p.rest, p.value, depth + 1)
         case None => None
         case Some(q) => Some(Parsed(Array(q.value), q.rest)))
    else if tag == TYPE_DICTIONARY then
      match DecodeCount(c)
      case None => None
      case Some(p) =>
        (match DecodeFields(p.rest, p.value, depth + 1)
         case None => None
         case Some(q) => Some(Parsed(Dict(Collected(q.value)), q.rest)))
    else if tag == TYPE_FILE_TRANSFER then
      match DecodeWord(c)
      case None => None
      case Some(w) =>
        (match DecodeValue(w.rest, depth + 1)
         case None => None
         case Some(p) => Some(Parsed(FileTransfer(w.value, p.value), p.rest)))
    else None
  }

  function DecodeItems(b: Bytes, count: nat, depth: nat): (r: Option<Parsed<seq<Xpc>>>)
    ensures r.Some? ==> |r.value.rest| <= |b|
    decreases |b|, 1
  {
    if count == 0 then Some(Parsed([], b))
    else
      match DecodeValue(b, depth)
      case None => None
      case Some(p) =>
        match DecodeItems(p.rest, count - 1, depth)
        case None => None
        case Some(q) => Some(Parsed([p.value] + q.value, q.rest))
  }

  function DecodeField(b: Bytes, depth: nat): (r: Option<Parsed<Field>>)
    ensures r.Some? ==> |r.value.rest| < |b|
    decreases |b|, 1
  {
    match DecodeKey(b)
    case None => None
    case Some(k) =>
      match DecodeValue(k.rest, depth)
      case None => None
      case Some(p) => Some(Parsed(Field(Text(k.value), p.value), p.rest))
  }

  function DecodeFields(b: Bytes, count: nat, depth: nat): (r: Option<Parsed<seq<Field>>>)
    ensures r.Some? ==> |r.value.rest| <= |b|
    decreases |b|, 2
  {
    if count == 0 then Some(Parsed([], b))
    else
      match DecodeField(b, depth)
      case None => None
      case Some(p) =>
        match DecodeFields(p.rest, count - 1, depth)
        case None => None
        case Some(q) => Some(Parsed([p.value] + q.value, q.rest))
  }

  // ------------------------------------------------------ what comes back

  /** The values that survive: nested at most 64 deep, no collection over 65536, no zero
      byte in a string or a key, no key twice. */
  predicate Clean(v: Xpc, depth: nat)
    decreases v, 1
  {
    depth <= MAX_DEPTH &&
    match v
    case Str(s) => '\0' !in s
    case Array(items) => |items| <= MAX_COLLECTION && CleanItems(items, depth + 1)
    case Dict(fields) => |fields| <= MAX_COLLECTION && DistinctKeys(fields) && CleanFields(fields, depth + 1)
    case FileTransfer(_, payload) => Clean(payload, depth + 1)
    case _ => true
  }

  predicate CleanItems(items: seq<Xpc>, depth: nat)
    decreases items, 0
  {
    items == [] || (Clean(items[0], depth) && CleanItems(items[1..], depth))
  }

  predicate CleanFields(fields: seq<Field>, depth: nat)
    decreases fields, 0
  {
    fields == [] || ('\0' !in fields[0].key && Clean(fields[0].value, depth) && CleanFields(fields[1..], depth))
  }

  // ------------------------------------------------------------ round trip

  lemma BlobBack(data: Bytes, rest: Bytes)
    requires |data| < U32_LIMIT
    ensures DecodeBlob(Blob(data) + rest) == Some(Parsed(data, rest))
  {
    var pad := Zeros(PadLength(|data|));
    var b := Blob(data) + rest;
    assert b == U32(|data|) + (data + pad + rest);
    ReadU32Back(|data|, data + pad + rest);
    var d := b[4..];
    assert d[..|data|] == data && d[|data| + |pad|..] == rest;
  }

  lemma {:induction false} UpToZeroFinds(text: Bytes, rest: Bytes)
    requires 0 !in text
    ensures UpToZero(text + [0] + rest) == text
    decreases |text|
  {
    var b := text + [0] + rest;
    if text != [] {
      assert b[0] == text[0] && text[0] in text;
      assert b[1..] == text[1..] + [0] + rest;
      UpToZeroFinds(text[1..], rest);
    }
  }

  lemma KeyBack(key: Bytes, rest: Bytes)
    requires 0 !in key
    ensures DecodeKey(Padded(key + [0]) + rest) == Some(Parsed(key, rest))
  {
    var pad := Zeros(PadLength(|key| + 1));
    var b := Padded(key + [0]) + rest;
    assert b == key + [0] + (pad + rest);
    UpToZeroFinds(key, pad + rest);
    assert b[|key| + 1 + |pad|..] == rest;
  }

  lemma CountBack(count: nat, elements: Bytes, rest: Bytes)
    requires 4 + |elements| < U32_LIMIT && count < U32_LIMIT
    ensures DecodeCount(Collection(count, elements) + rest)
         == if count > MAX_COLLECTION then None else Some(Parsed(count, elements + rest))
  {
    var b := Collection(count, elements) + rest;
    assert b[4..] == U32(count) + (elements + rest);
    ReadU32Back(count, elements + rest);
    assert b[8..] == b[4..][4..];
  }

  lemma WordBack(n: nat, rest: Bytes)
    requires n < U64_LIMIT
    ensures DecodeWord(U64Bytes(n) + rest) == Some(Parsed(n, rest))
  {
    ReadU64Back(n, rest);
  }

  lemma FlatBack(v: Xpc, depth: nat, rest: Bytes)
    requires Fits(v) && !v.Array? && !v.Dict? && !v.FileTransfer? && (v.Str? ==> '\0' !in v.s)
    ensures DecodeBody(Tag(v), Body(v) + rest, depth) == Some(Parsed(v, rest))
  {
    match v
    case Null => assert [] + rest == rest;
    case Bool(b) => assert ([if b then 1 else 0, 0, 0, 0] + rest)[4..] == rest;
    case Int64(n) => WordBack(n, rest);
    case Uint64(n) => WordBack(n, rest);
    case Double(n) => WordBack(n, rest);
    case Date(n) => WordBack(n, rest);
    case Data(data) => BlobBack(data, rest);
    case Str(s) =>
      var text := Raw(s);
      RawBack(s);
      BlobBack(text + [0], rest);
      assert text + [0] + [] == text + [0];
      UpToZeroFinds(text, []);
    case Uuid(hi, lo) =>
      var b := U64Bytes(hi) + U64Bytes(lo) + rest;
      assert b == U64Bytes(hi) + (U64Bytes(lo) + rest);
      ReadU64Back(hi, U64Bytes(lo) + rest);
      ReadU64Back(lo, rest);
      assert b[16..] == b[8..][8..];
  }

  lemma {:induction false} ValueBack(v: Xpc, depth: nat, rest: Bytes)
    requires Fits(v) && Clean(v, depth)
    ensures DecodeValue(Encode(v) + rest, depth) == Some(Parsed(v, rest))
    decreases v, 2
  {
    var b := Encode(v) + rest;
    assert b == U32(Tag(v)) + (Body(v) + rest);
    ReadU32Back(Tag(v), Body(v) + rest);
    BodyBack(v, depth, rest);
  }

  lemma ArrayBody(c: Bytes, depth: nat, n: nat, b: Bytes, items: seq<Xpc>, rest: Bytes)
    requires DecodeCount(c) == Some(Parsed(n, b)) && DecodeItems(b, n, depth + 1) == Some(Parsed(items, rest))
    ensures DecodeBody(TYPE_ARRAY, c, depth) == Some(Parsed(Array(items), rest))
  {
  }

  lemma DictBody(c: Bytes, depth: nat, n: nat, b: Bytes, fields: seq<Field>, rest: Bytes)
    requires DecodeCount(c) == Some(Parsed(n, b)) && DecodeFields(b, n, depth + 1) == Some(Parsed(fields, rest))
    ensures DecodeBody(TYPE_DICTIONARY, c, depth) == Some(Parsed(Dict(Collected(fields)), rest))
  {
  }

  lemma TransferBody(c: Bytes, depth: nat, id: nat, b: Bytes, payload: Xpc, rest: Bytes)
    requires DecodeWord(c) == Some(Parsed(id, b)) && DecodeValue(b, depth + 1) == Some(Parsed(payload, rest))
    ensures DecodeBody(TYPE_FILE_TRANSFER, c, depth) == Some(Parsed(FileTransfer(id, payload), rest))
  {
  }

  lemma {:induction false} BodyBack(v: Xpc, depth: nat, rest: Bytes)
    requires Fits(v) && Clean(v, depth)
    ensures DecodeBody(Tag(v), Body(v) + rest, depth) == Some(Parsed(v, rest))
    decreases v, 1
  {
    match v
    case Array(items) =>
      ItemsBack(items, depth + 1, rest);
      CountBack(|items|, EncodeItems(items), rest);
      ArrayBody(Body(v) + rest, depth, |items|, EncodeItems(items) + rest, items, rest);
    case Dict(fields) =>
      FieldsBack(fields, depth + 1, rest);
      CollectedDistinct(fields);
      CountBack(|fields|, EncodeFields(fields), rest);
      DictBody(Body(v) + rest, depth, |fields|, EncodeFields(fields) + rest, fields, rest);
    case FileTransfer(id, payload) =>
      ValueBack(payload, depth + 1, rest);
      assert Body(v) + rest == U64Bytes(id) + (Encode(payload) + rest);
      WordBack(id, Encode(payload) + rest);
      TransferBody(Body(v) + rest, depth, id, Encode(payload) + rest, payload, rest);
    case _ => FlatBack(v, depth, rest);
  }

  lemma {:induction false} ItemsBack(items: seq<Xpc>, depth: nat, rest: Bytes)
    requires AllFit(items) && CleanItems(items, depth)
    ensures DecodeItems(EncodeItems(items) + rest, |items|, depth) == Some(Parsed(items, rest))
    decreases items, 0
  {
    if items == [] {
      assert EncodeItems(items) + rest == rest;
    } else {
      var tail := EncodeItems(items[1..]) + rest;
      assert EncodeItems(items) + rest == Encode(items[0]) + tail;
      ValueBack(items[0], depth, tail);
      ItemsBack(items[1..], depth, rest);
      assert [items[0]] + items[1..] == items;
    }
  }

  lemma FieldBack(f: Field, depth: nat, tail: Bytes)
    requires '\0' !in f.key && Narrow(f.key)
    requires DecodeValue(Encode(f.value) + tail, depth) == Some(Parsed(f.value, tail))
    ensures DecodeField(EncodeField(f) + tail, depth) == Some(Parsed(f, tail))
  {
    var key, value := Padded(Raw(f.key) + [0]), Encode(f.value);
    assert key + value + tail == key + (value + tail);
    RawBack(f.key);
    KeyBack(Raw(f.key), value + tail);
  }

  lemma {:induction false} FieldsBack(fields: seq<Field>, depth: nat, rest: Bytes)
    requires AllFieldsFit(fields) && CleanFields(fields, depth)
    ensures DecodeFields(EncodeFields(fields) + rest, |fields|, depth) == Some(Parsed(fields, rest))
    decreases fields, 0
  {
    if fields == [] {
      assert EncodeFields(fields) + rest == rest;
    } else {
      var f, tail := fields[0], EncodeFields(fields[1..]) + rest;
      assert EncodeFields(fields) + rest == EncodeField(f) + tail;
      ValueBack(f.value, depth, tail);
      FieldBack(f, depth, tail);
      FieldsBack(fields[1..], depth, rest);
      assert [f] + fields[1..] == fields;
    }
  }

  // -------------------------------------------------- what can come back

  lemma NoZeroInText(b: Bytes)
    requires 0 !in b
    ensures '\0' !in Text(b)
  {
  }

  lemma {:induction false} DecodedIsClean(b: Bytes, depth: nat)
    ensures DecodeValue(b, depth).Some? ==> Clean(DecodeValue(b, depth).value.value, depth)
    decreases |b|, 0
  {
    if depth <= MAX_DEPTH && |b| >= 4 {
      DecodedBodyIsClean(ReadU32(b), b[4..], depth);
    }
  }

  lemma {:induction false} DecodedBodyIsClean(tag: nat, c: Bytes, depth: nat)
    requires depth <= MAX_DEPTH
    ensures DecodeBody(tag, c, depth).Some? ==> Clean(DecodeBody(tag, c, depth).value.value, depth)
    decreases |c|, 3
  {
    if tag == TYPE_ARRAY && DecodeCount(c).Some? {
      var p := DecodeCount(c).value;
      DecodedItemsAreClean(p.rest, p.value, depth + 1);
    } else if tag == TYPE_DICTIONARY && DecodeCount(c).Some? {
      var p := DecodeCount(c).value;
      DecodedFieldsAreClean(p.rest, p.value, depth + 1);
      if DecodeFields(p.rest, p.value, depth + 1).Some? {
        CollectedIsClean(DecodeFields(p.rest, p.value, depth + 1).value.value, depth + 1);
      }
    } else if tag == TYPE_STRING && DecodeBlob(c).Some? {
      NoZeroInText(UpToZero(DecodeBlob(c).value.value));
    } else if tag == TYPE_FILE_TRANSFER && DecodeWord(c).Some? {
      DecodedIsClean(DecodeWord(c).value.rest, depth + 1);
    }
  }

  lemma {:induction false} DecodedItemsAreClean(b: Bytes, count: nat, depth: nat)
    ensures DecodeItems(b, count, depth).Some? ==>
              var items := DecodeItems(b, count, depth).value.value; |items| == count && CleanItems(items, depth)
    decreases |b|, 1
  {
    if count > 0 && DecodeValue(b, depth).Some? {
      DecodedIsClean(b, depth);
      var p := DecodeValue(b, depth).value;
      DecodedItemsAreClean(p.rest, count - 1, depth);
      if DecodeItems(p.rest, count - 1, depth).Some? {
        var tail := DecodeItems(p.rest, count - 1, depth).value.value;
        assert ([p.value] + tail)[1..] == tail;
      }
    }
  }

  lemma {:induction false} DecodedFieldsAreClean(b: Bytes, count: nat, depth: nat)
    ensures DecodeFields(b, count, depth).Some? ==>
              var fields := DecodeFields(b, count, depth).value.value; |fields| == count && CleanFields(fields, depth)
    decreases |b|, 2
  {
    if count > 0 && DecodeField(b, depth).Some? {
      NoZeroInText(DecodeKey(b).value.value);
      DecodedIsClean(DecodeKey(b).value.rest, depth);
      var p := DecodeField(b, depth).value;
      DecodedFieldsAreClean(p.rest, count - 1, depth);
      if DecodeFields(p.rest, count - 1, depth).Some? {
        var tail := DecodeFields(p.rest, count - 1, depth).value.value;
        assert ([p.value] + tail)[1..] == tail;
      }
    }
  }

  lemma {:induction false} CleanFieldsMeans(fields: seq<Field>, depth: nat)
    ensures CleanFields(fields, depth) <==>
            forall i :: 0 <= i < |fields| ==> '\0' !in fields[i].key && Clean(fields[i].value, depth)
    decreases |fields|
  {
    if fields != [] {
      CleanFieldsMeans(fields[1..], depth);
      assert forall i :: 1 <= i < |fields| ==> fields[i] == fields[1..][i - 1];
    }
  }

  lemma {:induction false} CollectedIsClean(pairs: seq<Field>, depth: nat)
    requires CleanFields(pairs, depth)
    ensures DistinctKeys(Collected(pairs)) && CleanFields(Collected(pairs), depth) && |Collected(pairs)| <= |pairs|
    decreases |pairs|
  {
    if pairs != [] {
      var front, last := pairs[..|pairs| - 1], pairs[|pairs| - 1];
      CleanFieldsMeans(pairs, depth);
      CleanFieldsMeans(front, depth);
      CollectedIsClean(front, depth);
      CleanFieldsMeans(Collected(front), depth);
      CleanFieldsMeans(Collected(pairs), depth);
    }
  }

  /** A value that can be encoded comes back from its bytes, with nothing left over,
      exactly when it is clean: nested at most 64 deep, collections of at most 65536, no
      zero byte in strings and keys, no key twice. */
  lemma RoundTripExactlyWhenClean(v: Xpc)
    requires Fits(v)
    ensures DecodeValue(Encode(v), 0) == Some(Parsed(v, [])) <==> Clean(v, 0)
  {
    if Clean(v, 0) {
      ValueBack(v, 0, []);
      assert Encode(v) + [] == Encode(v);
    }
    DecodedIsClean(Encode(v), 0);
  }
}
