/** The bytes on the wire, written out: byte order, type words, lengths and padding. */
module XpcBytes {
  import opened Options
  import opened XpcValues
  import opened XpcWire
  import opened XpcStream

  lemma SmallWord(n: Byte)
    ensures U32(n) == [n, 0, 0, 0] && U64Bytes(n) == [n, 0, 0, 0, 0, 0, 0, 0]
  {
    assert U64Bytes(n) == U32(n) + U32(0);
  }

  /** Integers are little-endian. */
  lemma NumberBytes()
    ensures U64Bytes(0x0102030405060708) == [8, 7, 6, 5, 4, 3, 2, 1]
  {
    assert U64Bytes(0x0102030405060708) == U32(0x05060708) + U32(0x01020304);
    LowWord();
    HighWord();
  }

  lemma LowWord()
    ensures U32(0x05060708) == [8, 7, 6, 5]
  {
  }

  lemma HighWord()
    ensures U32(0x01020304) == [4, 3, 2, 1]
  {
  }

  lemma NumberInAValue()
    ensures Encode(Uint64(0x0102030405060708)) == [0, 0x40, 0, 0] + [8, 7, 6, 5, 4, 3, 2, 1]
    ensures Encode(FileTransfer(0x0102030405060708, Null)) ==
            [0, 0xA0, 1, 0] + ([8, 7, 6, 5, 4, 3, 2, 1] + [0, 0x10, 0, 0])
  {
    NumberBytes();
    NullBytes();
    TypeWords(Uint64(0x0102030405060708));
    TypeWords(FileTransfer(0x0102030405060708, Null));
    TagThenBody(Uint64(0x0102030405060708));
    TagThenBody(FileTransfer(0x0102030405060708, Null));
  }

  lemma TagThenBody(v: Xpc)
    ensures |Encode(v)| >= 4 && Encode(v) == Encode(v)[..4] + Body(v)
  {
  }

  /** The type word that starts every value. */
  lemma TypeWords(v: Xpc)
    ensures |Encode(v)| >= 4
    ensures Encode(v)[..4] ==
            match v
            case Null => [0, 0x10, 0, 0]
            case Bool(_) => [0, 0x20, 0, 0]
            case Int64(_) => [0, 0x30, 0, 0]
            case Uint64(_) => [0, 0x40, 0, 0]
            case Double(_) => [0, 0x50, 0, 0]
            case Date(_) => [0, 0x70, 0, 0]
            case Data(_) => [0, 0x80, 0, 0]
            case Str(_) => [0, 0x90, 0, 0]
            case Uuid(_, _) => [0, 0xA0, 0, 0]
            case Array(_) => [0, 0xE0, 0, 0]
            case Dict(_) => [0, 0xF0, 0, 0]
            case FileTransfer(_, _) => [0, 0xA0, 1, 0]
  {
    assert Encode(v)[..4] == U32(Tag(v));
  }

  lemma NullBytes()
    ensures Encode(Null) == [0, 0x10, 0, 0]
  {
    TypeWords(Null);
    assert Encode(Null) == Encode(Null)[..4] + Body(Null);
  }

  lemma BoolBytes()
    ensures Encode(Bool(true)) == [0, 0x20, 0, 0, 1, 0, 0, 0]
    ensures Encode(Bool(false)) == [0, 0x20, 0, 0, 0, 0, 0, 0]
  {
  }

  /** Text carries its terminator in its length and is padded with zeros. */
  lemma TextBytes()
    ensures Encode(Str("abc")) == [0, 0x90, 0, 0] + ([4, 0, 0, 0] + [97, 98, 99, 0])
    ensures Encode(Str("abcd")) == [0, 0x90, 0, 0] + ([5, 0, 0, 0] + [97, 98, 99, 100, 0, 0, 0, 0])
  {
    SmallWord(4);
    SmallWord(5);
    RawText();
    TypeWords(Str("abc"));
    TypeWords(Str("abcd"));
    TagThenBody(Str("abc"));
    TagThenBody(Str("abcd"));
  }

  lemma RawText()
    ensures Raw("abc") + [0] == [97, 98, 99, 0] && Padded([97, 98, 99, 0]) == [97, 98, 99, 0]
    ensures Raw("abcd") + [0] == [97, 98, 99, 100, 0]
    ensures Padded([97, 98, 99, 100, 0]) == [97, 98, 99, 100, 0, 0, 0, 0]
  {
    assert Zeros(3) == [0, 0, 0] && Zeros(0) == [];
  }

  lemma DataBytes()
    ensures Encode(Data([1, 2, 3])) == [0, 0x80, 0, 0, 3, 0, 0, 0, 1, 2, 3, 0]
  {
    assert Zeros(1) == [0];
    assert Padded([1, 2, 3]) == [1, 2, 3, 0];
    assert Body(Data([1, 2, 3])) == [3, 0, 0, 0, 1, 2, 3, 0];
  }

  lemma FieldBytes()
    ensures EncodeField(Field("k", Null)) == [107, 0, 0, 0, 0, 0x10, 0, 0]
  {
    NullBytes();
    assert Raw("k") == [107];
    assert Zeros(2) == [0, 0];
    assert Padded([107, 0]) == [107, 0, 0, 0];
  }

  /** A dictionary's length counts the count and the entries, not itself; a key is padded
      with its terminator. */
  lemma DictBytes()
    ensures Encode(Dict([Field("k", Null)])) ==
            [0, 0xF0, 0, 0] + ([12, 0, 0, 0] + [1, 0, 0, 0] + [107, 0, 0, 0, 0, 0x10, 0, 0])
  {
    var f := Field("k", Null);
    FieldBytes();
    SmallWord(12);
    SmallWord(1);
    assert [f][1..] == [] && EncodeFields([]) == [];
    assert EncodeFields([f]) == EncodeField(f);
    TypeWords(Dict([f]));
    TagThenBody(Dict([f]));
  }

  lemma ArrayBytes()
    ensures Encode(Array([Null])) == [0, 0xE0, 0, 0] + ([8, 0, 0, 0] + [1, 0, 0, 0] + [0, 0x10, 0, 0])
  {
    NullBytes();
    SmallWord(8);
    SmallWord(1);
    assert [Null][1..] == [] && EncodeItems([]) == [];
    assert EncodeItems([Null]) == Encode(Null);
    TypeWords(Array([Null]));
    TagThenBody(Array([Null]));
  }

  /** A whole message: wrapper magic, flags, body length, id; then object magic, version and
      the value. */
  lemma MessageBytes()
    ensures var m := Message(0x101, 7, Some(Null));
            && Encodable(m)
            && EncodeMessage(m) ==
               [0x92, 0x0B, 0xB0, 0x29] + [1, 1, 0, 0] + [12, 0, 0, 0, 0, 0, 0, 0] + [7, 0, 0, 0, 0, 0, 0, 0]
               + [0x42, 0x37, 0x13, 0x42, 5, 0, 0, 0, 0, 0x10, 0, 0]
  {
    var m := Message(0x101, 7, Some(Null));
    BodyOfMessage(m);
    SmallWord(12);
    SmallWord(7);
    assert U32(WRAPPER_MAGIC) == [0x92, 0x0B, 0xB0, 0x29] && U32(0x101) == [1, 1, 0, 0];
  }

  lemma BodyOfMessage(m: Message)
    requires m.body == Some(Null)
    ensures BodyBytes(m) == [0x42, 0x37, 0x13, 0x42, 5, 0, 0, 0, 0, 0x10, 0, 0]
  {
    NullBytes();
    assert U32(OBJECT_MAGIC) == [0x42, 0x37, 0x13, 0x42];
    SmallWord(BODY_VERSION);
  }
}
