/** What sent messages read as, by their lengths. */
module XpcSent {
  import opened Options
  import opened XpcValues
  import opened XpcStream
  import opened XpcBuffer
  import opened XpcFrames

  /** A sent message: its bytes, and whether the reader passes over it. */
  datatype Parcel = Parcel(message: Message, bytes: Bytes, skipped: bool)

  function Flat(ps: seq<Parcel>): Bytes {
    if ps == [] then [] else ps[0].bytes + Flat(ps[1..])
  }

  /** The reader waits for a parcel that is cut short, and takes a whole one. */
  ghost predicate Takes(read: Reader, p: Parcel) {
    && p.bytes != []
    && (forall n: nat {:trigger p.bytes[..n]} :: n < |p.bytes| ==> read(p.bytes[..n]) == Waiting(p.bytes[..n]))
    && (forall more {:trigger p.bytes + more} ::
          read(p.bytes + more) == if p.skipped then read(more) else Ready(p.message, more))
  }

  ghost predicate Understands(read: Reader, ps: seq<Parcel>) {
    read([]) == Waiting([]) && forall i :: 0 <= i < |ps| ==> Takes(read, ps[i])
  }

  /** Where the parcel begins that byte n belongs to. */
  function StartOf(ps: seq<Parcel>, n: nat): (s: nat)
    ensures s <= n
  {
    if ps == [] || n < |ps[0].bytes| then 0 else |ps[0].bytes| + StartOf(ps[1..], n - |ps[0].bytes|)
  }

  /** After n bytes the first message worth keeping is not complete. */
  predicate Outstanding(ps: seq<Parcel>, n: nat) {
    ps == [] || n < |ps[0].bytes| || (ps[0].skipped && Outstanding(ps[1..], n - |ps[0].bytes|))
  }

  lemma {:induction false} OutstandingBefore(ps: seq<Parcel>, m: nat, n: nat)
    requires m <= n && Outstanding(ps, n)
    ensures Outstanding(ps, m)
  {
    if ps != [] && m >= |ps[0].bytes| {
      OutstandingBefore(ps[1..], m - |ps[0].bytes|, n - |ps[0].bytes|);
    }
  }

  /** What waits of sent parcels, by lengths alone: nothing once a message worth keeping is
      complete, and otherwise the parcel begun last. */
  lemma {:induction false} WaitingPart(read: Reader, ps: seq<Parcel>, n: nat)
    requires Understands(read, ps) && n <= |Flat(ps)|
    ensures if Outstanding(ps, n) then read(Flat(ps)[..n]) == Waiting(Flat(ps)[StartOf(ps, n)..n])
            else read(Flat(ps)[..n]).Ready?
    decreases |ps|
  {
    if ps != [] {
      var first, rest := ps[0].bytes, Flat(ps[1..]);
      assert Takes(read, ps[0]);
      if n < |first| {
        assert Flat(ps)[..n] == first[..n];
      } else {
        var m := n - |first|;
        WaitingPart(read, ps[1..], m);
        assert Flat(ps)[..n] == first + rest[..m];
        assert Flat(ps)[|first| + StartOf(ps[1..], m)..n] == rest[StartOf(ps[1..], m)..m];
      }
    }
  }

  // ------------------------------------------------- messages as parcels

  function Parcels(ms: seq<Message>): (ps: seq<Parcel>)
    requires AllSurvive(ms)
    ensures |ps| == |ms|
  {
    if ms == [] then [] else [Parcel(ms[0], EncodeMessage(ms[0]), Skipped(ms[0]))] + Parcels(ms[1..])
  }

  lemma {:induction false} FlatIsEncodeAll(ms: seq<Message>)
    requires AllSurvive(ms)
    ensures Flat(Parcels(ms)) == EncodeAll(ms)
  {
    if ms != [] {
      FlatIsEncodeAll(ms[1..]);
    }
  }

  lemma MessageIsTaken(read: Reader, m: Message, p: Parcel)
    requires Genuine(read) && Encodable(m) && Survives(m) && p == Parcel(m, EncodeMessage(m), Skipped(m))
    ensures Takes(read, p)
  {
    EncodedLength(m);
    forall n: nat | n < |p.bytes| ensures read(p.bytes[..n]) == Waiting(p.bytes[..n]) {
      CutMessageWaits(m, n);
      assert read(p.bytes[..n]) == FirstKept(p.bytes[..n]);
    }
    forall more ensures read(p.bytes + more) == if p.skipped then read(more) else Ready(p.message, more) {
      NextIsFirstSent(m, more);
      FirstKeptSteps(p.bytes + more, m, more);
      assert read(p.bytes + more) == FirstKept(p.bytes + more) && read(more) == FirstKept(more);
    }
  }

  lemma {:induction false} MessagesAreUnderstood(read: Reader, ms: seq<Message>)
    requires Genuine(read) && AllSurvive(ms)
    ensures Understands(read, Parcels(ms))
  {
    assert read([]) == FirstKept([]);
    if ms != [] {
      MessagesAreUnderstood(read, ms[1..]);
      MessageIsTaken(read, ms[0], Parcels(ms)[0]);
      assert Parcels(ms)[1..] == Parcels(ms[1..]);
      forall i | 0 <= i < |ms| ensures Takes(read, Parcels(ms)[i]) {
        if i > 0 { assert Parcels(ms)[i] == Parcels(ms[1..])[i - 1]; }
      }
    }
  }
}
