/** XPC values whose dictionaries keep their entries in order, as an IndexMap does, and
    the values they stand for when order is forgotten. */
module XpcValues {
  import opened Options

  type Byte = b: nat | b < 256
  type Bytes = seq<Byte>

  /** Strings are taken by their UTF-8 bytes, one character each; doubles, dates and signed
      integers by their 64-bit pattern. */
  datatype Xpc =
    | Null
    | Bool(b: bool)
    | Int64(bits: nat)
    | Uint64(n: nat)
    | Double(bits: nat)
    | Date(bits: nat)
    | Data(data: Bytes)
    | Str(s: string)
    | Uuid(hi: nat, lo: nat)
    | Array(items: seq<Xpc>)
    | Dict(fields: seq<Field>)
    | FileTransfer(id: nat, payload: Xpc)

  datatype Field = Field(key: string, value: Xpc)

  /** A value with its dictionaries as plain maps. */
  datatype Val =
    | Plain(leaf: Xpc)
    | List(items: seq<Val>)
    | Map(fields: map<string, Val>)
    | Transfer(id: nat, payload: Val)

  function Meaning(x: Xpc): Val
    decreases x, 1
  {
    match x
    case Array(items) => List(MeaningOfItems(items))
    case Dict(fields) => Map(MeaningOf(fields))
    case FileTransfer(id, payload) => Transfer(id, Meaning(payload))
    case _ => Plain(x)
  }

  function MeaningOfItems(items: seq<Xpc>): seq<Val>
    decreases items, 0
  {
    if items == [] then [] else [Meaning(items[0])] + MeaningOfItems(items[1..])
  }

  function MeaningOf(fields: seq<Field>): map<string, Val>
    decreases fields, 0
  {
    if fields == [] then map[]
    else MeaningOf(fields[1..])[fields[0].key := Meaning(fields[0].value)]
  }

  /** What an IndexMap guarantees: no key twice, at any depth. */
  predicate WellFormed(x: Xpc)
    decreases x, 1
  {
    match x
    case Array(items) => WellFormedItems(items)
    case Dict(fields) => WellFormedAll(fields)
    case FileTransfer(_, payload) => WellFormed(payload)
    case _ => true
  }

  predicate WellFormedItems(items: seq<Xpc>)
    decreases items, 0
  {
    items == [] || (WellFormed(items[0]) && WellFormedItems(items[1..]))
  }

  predicate WellFormedAll(fields: seq<Field>)
    decreases fields, 0
  {
    fields == [] ||
    (&& WellFormed(fields[0].value)
     && (forall j :: 1 <= j < |fields| ==> fields[j].key != fields[0].key)
     && WellFormedAll(fields[1..]))
  }

  function Find(fields: seq<Field>, key: string): (r: Option<nat>)
    ensures r.Some? ==> r.value < |fields| && fields[r.value].key == key
    ensures r.None? ==> forall i :: 0 <= i < |fields| ==> fields[i].key != key
  {
    if fields == [] then None
    else if fields[0].key == key then Some(0)
    else match Find(fields[1..], key) case Some(i) => Some(i + 1) case None => None
  }

  /** Insertion replaces the value of a key in place, or appends. */
  function Inserted(fields: seq<Field>, f: Field): seq<Field> {
    match Find(fields, f.key) case Some(i) => fields[i := f] case None => fields + [f]
  }

  /** The dictionary that inserting the pairs in order gives. */
  function Collected(pairs: seq<Field>): seq<Field> {
    if pairs == [] then [] else Inserted(Collected(pairs[..|pairs| - 1]), pairs[|pairs| - 1])
  }

  /** Removal moves the last entry into the gap. */
  function SwapRemoved(fields: seq<Field>, key: string): seq<Field> {
    match Find(fields, key)
    case Some(i) => fields[i := fields[|fields| - 1]][..|fields| - 1]
    case None => fields
  }

  /** No key occurs twice, by positions. */
  predicate DistinctKeys(fields: seq<Field>) {
    forall i, j :: 0 <= i < j < |fields| ==> fields[i].key != fields[j].key
  }

  lemma {:induction false} CollectedDistinct(fields: seq<Field>)
    requires DistinctKeys(fields)
    ensures Collected(fields) == fields
    decreases |fields|
  {
    if fields != [] {
      var front, last := fields[..|fields| - 1], fields[|fields| - 1];
      CollectedDistinct(front);
      assert Find(front, last.key).None?;
      assert front + [last] == fields;
    }
  }

  lemma {:induction false} WellFormedMeans(fields: seq<Field>)
    ensures WellFormedAll(fields) <==>
            DistinctKeys(fields) && forall i :: 0 <= i < |fields| ==> WellFormed(fields[i].value)
    decreases |fields|
  {
    if fields != [] {
      WellFormedMeans(fields[1..]);
      var tail := fields[1..];
      assert forall i :: 1 <= i < |fields| ==> fields[i] == tail[i - 1];
      if DistinctKeys(fields) { assert DistinctKeys(tail); }
      if WellFormedAll(fields) {
        forall i, j | 0 <= i < j < |fields| ensures fields[i].key != fields[j].key {
          if i > 0 { assert tail[i - 1].key != tail[j - 1].key; }
        }
      }
    }
  }

  lemma {:induction false} MeaningKeys(fields: seq<Field>, key: string)
    ensures key in MeaningOf(fields) <==> Find(fields, key).Some?
    decreases |fields|
  {
    if fields != [] {
      MeaningKeys(fields[1..], key);
    }
  }

  /** Looking a key up by position or by meaning is the same. */
  lemma {:induction false} MeaningAt(fields: seq<Field>, i: nat)
    requires DistinctKeys(fields) && i < |fields|
    ensures fields[i].key in MeaningOf(fields) && MeaningOf(fields)[fields[i].key] == Meaning(fields[i].value)
    decreases |fields|
  {
    if i > 0 {
      assert DistinctKeys(fields[1..]);
      MeaningAt(fields[1..], i - 1);
      assert fields[0].key != fields[i].key;
    }
  }

  /** Two field lists with the same keyed values mean the same. */
  lemma SameFieldsSameMeaning(a: seq<Field>, b: seq<Field>)
    requires DistinctKeys(a) && DistinctKeys(b)
    requires forall f :: f in a <==> f in b
    ensures MeaningOf(a) == MeaningOf(b)
  {
    forall key ensures key in MeaningOf(a) <==> key in MeaningOf(b) {
      MeaningKeys(a, key);
      MeaningKeys(b, key);
      if Find(a, key).Some? { assert a[Find(a, key).value] in b; }
      if Find(b, key).Some? { assert b[Find(b, key).value] in a; }
    }
    forall key | key in MeaningOf(a) ensures MeaningOf(a)[key] == MeaningOf(b)[key] {
      MeaningKeys(a, key);
      var i := Find(a, key).value;
      assert a[i] in b;
      var j :| 0 <= j < |b| && b[j] == a[i];
      MeaningAt(a, i);
      MeaningAt(b, j);
    }
  }

  /** Removal by swapping takes out one key and keeps the rest, whatever the order. */
  lemma SwapRemoveMeaning(fields: seq<Field>, key: string)
    requires WellFormedAll(fields)
    ensures WellFormedAll(SwapRemoved(fields, key))
    ensures MeaningOf(SwapRemoved(fields, key)) == MeaningOf(fields) - {key}
  {
    WellFormedMeans(fields);
    var rest := SwapRemoved(fields, key);
    WellFormedMeans(rest);
    MeaningKeys(fields, key);
    if Find(fields, key).Some? {
      RemovedFields(fields, key);
      var want := MeaningOf(fields) - {key};
      forall k ensures k in MeaningOf(rest) <==> k in want {
        MeaningKeys(rest, k);
        MeaningKeys(fields, k);
        if Find(rest, k).Some? { assert rest[Find(rest, k).value] in rest; }
        if k != key && Find(fields, k).Some? { assert fields[Find(fields, k).value] in rest; }
      }
      forall k | k in MeaningOf(rest) ensures MeaningOf(rest)[k] == want[k] {
        MeaningKeys(rest, k);
        var i := Find(rest, k).value;
        assert rest[i] in rest;
        var j :| 0 <= j < |fields| && fields[j] == rest[i];
        MeaningAt(rest, i);
        MeaningAt(fields, j);
      }
    }
  }

  lemma RemovedFields(fields: seq<Field>, key: string)
    requires DistinctKeys(fields) && Find(fields, key).Some?
    ensures DistinctKeys(SwapRemoved(fields, key))
    ensures forall f :: f in SwapRemoved(fields, key) <==> f in fields && f.key != key
  {
    var i, n := Find(fields, key).value, |fields| - 1;
    var rest := SwapRemoved(fields, key);
    assert forall j :: 0 <= j < n ==> rest[j] == if j == i then fields[n] else fields[j];
    forall f | f in fields && f.key != key ensures f in rest {
      var j :| 0 <= j < |fields| && fields[j] == f;
      assert rest[if j == n then i else j] == f;
    }
  }
}
