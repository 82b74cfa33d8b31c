/** The binary form of XPC values: little-endian, padded to four bytes, nested. */
module XpcWire {
  import opened XpcValues

  const U32_LIMIT: nat := 0x1_0000_0000
  const U64_LIMIT: nat := 0x1_0000_0000_0000_0000

  type U64 = n: nat | n < 0x1_0000_0000_0000_0000

  // -------------------------------------------------------------- integers

  function U32(n: nat): (r: Bytes)
    ensures |r| == 4
  {
    [n % 256, n / 256 % 256, n / 65536 % 256, n / 16777216 % 256]
  }

  function ReadU32(b: Bytes): nat
    requires |b| >= 4
  {
    var b0: nat, b1: nat, b2: nat, b3: nat := b[0], b[1], b[2], b[3];
    b0 + 256 * b1 + 65536 * b2 + 16777216 * b3
  }

  lemma ReadU32Back(n: nat, rest: Bytes)
    requires n < U32_LIMIT
    ensures ReadU32(U32(n) + rest) == n && (U32(n) + rest)[4..] == rest
  {
    var q1, q2, q3 := n / 256, n / 65536, n / 16777216;
    assert q2 == q1 / 256 && q3 == q2 / 256;
    assert q3 < 256;
  }

  function U64Bytes(n: nat): (r: Bytes)
    ensures |r| == 8
  {
    U32(n % U32_LIMIT) + U32(n / U32_LIMIT)
  }

  function ReadU64(b: Bytes): (r: U64)
    requires |b| >= 8
  {
    var lo, hi := ReadU32(b), ReadU32(b[4..]);
    ReadU32Small(b);
    ReadU32Small(b[4..]);
    lo + U32_LIMIT * hi
  }

  lemma ReadU32Small(b: Bytes)
    requires |b| >= 4
    ensures ReadU32(b) < U32_LIMIT
  {
  }

  lemma ReadU64Back(n: nat, rest: Bytes)
    requires n < U64_LIMIT
    ensures ReadU64(U64Bytes(n) + rest) == n && (U64Bytes(n) + rest)[8..] == rest
  {
    var lo, hi := n % U32_LIMIT, n / U32_LIMIT;
    var b := U64Bytes(n) + rest;
    assert b == U32(lo) + (U32(hi) + rest);
    ReadU32Back(lo, U32(hi) + rest);
    ReadU32Back(hi, rest);
    assert b[4..] == U32(hi) + rest;
    assert b[8..] == b[4..][4..];
  }

  // --------------------------------------------------------------- padding

  function PadLength(n: nat): (r: nat)
    ensures r < 4 && (n + r) % 4 == 0
  {
    (4 - n % 4) % 4
  }

  function Zeros(n: nat): (r: Bytes)
    ensures |r| == n && forall i :: 0 <= i < n ==> r[i] == 0
  {
    if n == 0 then [] else [0] + Zeros(n - 1)
  }

  // --------------------------------------------------------------- strings

  predicate Narrow(s: string) {
    forall i :: 0 <= i < |s| ==> s[i] as int < 256
  }

  function Raw(s: string): Bytes {
    seq(|s|, i requires 0 <= i < |s| => s[i] as int % 256)
  }

  function Text(b: Bytes): string {
    seq(|b|, i requires 0 <= i < |b| => b[i] as char)
  }

  lemma RawBack(s: string)
    requires Narrow(s)
    ensures Text(Raw(s)) == s && ('\0' !in s ==> 0 !in Raw(s))
  {
    if 0 in Raw(s) {
      var i :| 0 <= i < |s| && Raw(s)[i] == 0;
      assert s[i] == '\0';
    }
  }

  // -------------------------------------------------------------- encoding

  const TYPE_NULL: nat := 0x1000
  const TYPE_BOOL: nat := 0x2000
  const TYPE_INT64: nat := 0x3000
  const TYPE_UINT64: nat := 0x4000
  const TYPE_DOUBLE: nat := 0x5000
  const TYPE_DATE: nat := 0x7000
  const TYPE_DATA: nat := 0x8000
  const TYPE_STRING: nat := 0x9000
  const TYPE_UUID: nat := 0xA000
  const TYPE_ARRAY: nat := 0xE000
  const TYPE_DICTIONARY: nat := 0xF000
  const TYPE_FILE_TRANSFER: nat := 0x1A000

  function Tag(v: Xpc): nat {
    match v
    case Null => TYPE_NULL
    case Bool(_) => TYPE_BOOL
    case Int64(_) => TYPE_INT64
    case Uint64(_) => TYPE_UINT64
    case Double(_) => TYPE_DOUBLE
    case Date(_) => TYPE_DATE
    case Data(_) => TYPE_DATA
    case Str(_) => TYPE_STRING
    case Uuid(_, _) => TYPE_UUID
    case Array(_) => TYPE_ARRAY
    case Dict(_) => TYPE_DICTIONARY
    case FileTransfer(_, _) => TYPE_FILE_TRANSFER
  }

  function Padded(data: Bytes): Bytes {
    data + Zeros(PadLength(|data|))
  }

  /** A length, the bytes and zeros up to a multiple of four. */
  function Blob(data: Bytes): Bytes {
    U32(|data|) + Padded(data)
  }

  /** A collection: the encoded size, then the count and the elements. */
  function Collection(count: nat, elements: Bytes): Bytes {
    U32(4 + |elements|) + U32(count) + elements
  }

  function Body(v: Xpc): Bytes
    decreases v, 1
  {
    match v
    case Null => []
    case Bool(b) => [if b then 1 else 0, 0, 0, 0]
    case Int64(bits) => U64Bytes(bits)
    case Uint64(n) => U64Bytes(n)
    case Double(bits) => U64Bytes(bits)
    case Date(bits) => U64Bytes(bits)
    case Data(data) => Blob(data)
    case Str(s) => Blob(Raw(s) + [0])
    case Uuid(hi, lo) => U64Bytes(hi) + U64Bytes(lo)
    case Array(items) => Collection(|items|, EncodeItems(items))
    case Dict(fields) => Collection(|fields|, EncodeFields(fields))
    case FileTransfer(id, payload) => U64Bytes(id) + Encode(payload)
  }

  function Encode(v: Xpc): Bytes
    decreases v, 2
  {
    U32(Tag(v)) + Body(v)
  }

  function EncodeItems(items: seq<Xpc>): Bytes
    decreases items, 0
  {
    if items == [] then [] else Encode(items[0]) + EncodeItems(items[1..])
  }

  function EncodeFields(fields: seq<Field>): Bytes
    decreases fields, 0
  {
    if fields == [] then [] else EncodeField(fields[0]) + EncodeFields(fields[1..])
  }

  /** A key with its terminator, padded, and its value. */
  function EncodeField(f: Field): Bytes
    decreases f, 3
  {
    Padded(Raw(f.key) + [0]) + Encode(f.value)
  }

  /** Numbers and characters are in range, and all lengths that the encoder writes fit their
      32-bit fields; otherwise it refuses. */
  predicate Fits(v: Xpc)
    decreases v, 1
  {
    match v
    case Int64(bits) => bits < U64_LIMIT
    case Uint64(n) => n < U64_LIMIT
    case Double(bits) => bits < U64_LIMIT
    case Date(bits) => bits < U64_LIMIT
    case Data(data) => |data| < U32_LIMIT
    case Str(s) => |s| + 1 < U32_LIMIT && Narrow(s)
    case Uuid(hi, lo) => hi < U64_LIMIT && lo < U64_LIMIT
    case Array(items) => 4 + |EncodeItems(items)| < U32_LIMIT && |items| < U32_LIMIT && AllFit(items)
    case Dict(fields) => 4 + |EncodeFields(fields)| < U32_LIMIT && |fields| < U32_LIMIT && AllFieldsFit(fields)
    case FileTransfer(id, payload) => id < U64_LIMIT && Fits(payload)
    case _ => true
  }

  predicate AllFit(items: seq<Xpc>)
    decreases items, 0
  {
    items == [] || (Fits(items[0]) && AllFit(items[1..]))
  }

  predicate AllFieldsFit(fields: seq<Field>)
    decreases fields, 0
  {
    fields == [] || (Narrow(fields[0].key) && Fits(fields[0].value) && AllFieldsFit(fields[1..]))
  }
}
