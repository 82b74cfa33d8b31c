/** The two control streams of a connection, whose frames go into one buffer. */
module XpcTwoStreams {
  import opened Options
  import opened XpcValues
  import opened XpcWire
  import opened XpcStream
  import opened XpcBuffer
  import opened XpcFrames
  import opened XpcSent

  // ------------------------------------------------- parts of one stream

  /** How many parcels are complete after n bytes. */
  function Complete(ps: seq<Parcel>, n: nat): (c: nat)
    ensures c <= |ps|
  {
    if ps == [] || n < |ps[0].bytes| then 0 else 1 + Complete(ps[1..], n - |ps[0].bytes|)
  }

  /** What these bytes hold of the parcel begun last. */
  function Tail(ps: seq<Parcel>, bytes: Bytes): Bytes {
    if ps == [] || |bytes| < |ps[0].bytes| then bytes else Tail(ps[1..], bytes[|ps[0].bytes|..])
  }

  lemma {:induction false} FlatAppends(a: seq<Parcel>, b: seq<Parcel>)
    ensures Flat(a + b) == Flat(a) + Flat(b)
  {
    if a == [] {
      assert a + b == b;
    } else {
      assert (a + b)[1..] == a[1..] + b;
      FlatAppends(a[1..], b);
    }
  }

  lemma {:induction false} CompleteGrows(ps: seq<Parcel>, m: nat, n: nat)
    requires m <= n
    ensures Complete(ps, m) <= Complete(ps, n)
  {
    if ps != [] && m >= |ps[0].bytes| {
      CompleteGrows(ps[1..], m - |ps[0].bytes|, n - |ps[0].bytes|);
    }
  }

  /** Bytes that reach past the first part of a text begin with it. */
  lemma PastFirst(x: Bytes, later: Bytes, first: Bytes, rest: Bytes)
    requires x + later == first + rest && |x| >= |first|
    ensures x == first + x[|first|..] && x[|first|..] + later == rest
  {
    assert x[..|first|] == (x + later)[..|first|] == first;
    assert x[|first|..] + later == (x + later)[|first|..] == rest;
  }

  lemma WithinFirst(x: Bytes, later: Bytes, first: Bytes, rest: Bytes)
    requires x + later == first + rest && |x| < |first|
    ensures x == first[..|x|]
  {
    assert x == (x + later)[..|x|] == (first + rest)[..|x|] == first[..|x|];
  }

  lemma FlatFirst(ps: seq<Parcel>, c: nat)
    requires c < |ps|
    ensures Flat(ps[..c + 1]) == ps[0].bytes + Flat(ps[1..][..c])
  {
    assert ps[..c + 1][0] == ps[0] && ps[..c + 1][1..] == ps[1..][..c];
  }

  lemma Associates(a: Bytes, b: Bytes, c: Bytes)
    ensures a + (b + c) == a + b + c
  {
  }

  /** Bytes of a stream are the complete parcels and the tail. */
  lemma {:induction false} SplitBytes(ps: seq<Parcel>, x: Bytes, later: Bytes)
    requires x + later == Flat(ps)
    ensures x == Flat(ps[..Complete(ps, |x|)]) + Tail(ps, x)
  {
    if ps != [] && |x| >= |ps[0].bytes| {
      var first := ps[0].bytes;
      PastFirst(x, later, first, Flat(ps[1..]));
      var y := x[|first|..];
      SplitBytes(ps[1..], y, later);
      var c := Complete(ps[1..], |y|);
      FlatFirst(ps, c);
      Associates(first, Flat(ps[1..][..c]), Tail(ps[1..], y));
    }
  }

  /** More bytes of a stream finish the tail and some parcels, and leave a new tail. */
  lemma {:induction false} Advance(ps: seq<Parcel>, x: Bytes, q: Bytes, later: Bytes)
    requires (x + q) + later == Flat(ps)
    ensures var c, d := Complete(ps, |x|), Complete(ps, |x| + |q|);
            c <= d && Tail(ps, x) + q == Flat(ps[c..d]) + Tail(ps, x + q)
  {
    var c, d := Complete(ps, |x|), Complete(ps, |x| + |q|);
    CompleteGrows(ps, |x|, |x| + |q|);
    if ps == [] || |x| < |ps[0].bytes| {
      SplitBytes(ps, x + q, later);
      assert ps[0..d] == ps[..d];
    } else {
      var y := x[|ps[0].bytes|..];
      PastFirst(x + q, later, ps[0].bytes, Flat(ps[1..]));
      SkipFirst(x, q, |ps[0].bytes|);
      Advance(ps[1..], y, q, later);
      SliceOfRest(ps, c, d);
    }
  }

  lemma SkipFirst(x: Bytes, q: Bytes, n: nat)
    requires n <= |x|
    ensures (x + q)[n..] == x[n..] + q
  {
  }

  lemma SliceOfRest(ps: seq<Parcel>, c: nat, d: nat)
    requires 1 <= c <= d <= |ps|
    ensures ps[1..][c - 1..d - 1] == ps[c..d]
  {
  }

  lemma {:induction false} TailOfNothing(ps: seq<Parcel>)
    ensures Tail(ps, []) == []
  {
    if ps != [] && ps[0].bytes == [] {
      TailOfNothing(ps[1..]);
    }
  }

  lemma {:induction false} TailWaits(read: Reader, ps: seq<Parcel>, x: Bytes, later: Bytes)
    requires Understands(read, ps) && x + later == Flat(ps)
    ensures read(Tail(ps, x)) == Waiting(Tail(ps, x))
    decreases |ps|
  {
    if ps != [] {
      assert Takes(read, ps[0]);
      if |x| < |ps[0].bytes| {
        WithinFirst(x, later, ps[0].bytes, Flat(ps[1..]));
      } else {
        PastFirst(x, later, ps[0].bytes, Flat(ps[1..]));
        TailWaits(read, ps[1..], x[|ps[0].bytes|..], later);
      }
    }
  }

  /** The parcels from the first one worth keeping on. */
  function Kept(ps: seq<Parcel>): (r: seq<Parcel>)
    ensures forall p :: p in r ==> p in ps
  {
    if ps == [] || !ps[0].skipped then ps else Kept(ps[1..])
  }

  lemma TakesFirst(read: Reader, p: Parcel, more: Bytes)
    requires Takes(read, p)
    ensures read(p.bytes + more) == if p.skipped then read(more) else Ready(p.message, more)
  {
  }

  lemma {:induction false} ReadsKept(read: Reader, ps: seq<Parcel>, more: Bytes)
    requires Understands(read, ps)
    ensures read(Flat(ps) + more) ==
            if Kept(ps) == [] then read(more) else Ready(Kept(ps)[0].message, Flat(Kept(ps)[1..]) + more)
    decreases |ps|
  {
    if ps == [] {
      assert Flat(ps) + more == more;
    } else {
      var tail := Flat(ps[1..]) + more;
      Associates(ps[0].bytes, Flat(ps[1..]), more);
      assert Flat(ps) + more == ps[0].bytes + tail;
      TakesFirst(read, ps[0], tail);
      if ps[0].skipped {
        ReadsKept(read, ps[1..], more);
      }
    }
  }

  // ------------------------------------------------------- both streams

  /** What is sent on the two streams. */
  datatype Streams = Streams(client: seq<Parcel>, server: seq<Parcel>)

  function On(st: Streams, stream: nat): seq<Parcel> {
    if stream == CLIENT_SERVER then st.client else st.server
  }

  function Other(stream: nat): nat {
    if stream == CLIENT_SERVER then SERVER_CLIENT else CLIENT_SERVER
  }

  /** The bytes that arrived on one stream. */
  function BytesOn(frames: seq<Frame>, stream: nat): Bytes {
    if frames == [] then []
    else
      var last := frames[|frames| - 1];
      BytesOn(frames[..|frames| - 1], stream) + if Used(last) && last.stream == stream then last.payload else []
  }

  /** The frames carry a beginning of what is sent on each stream. */
  predicate Carries(st: Streams, frames: seq<Frame>) {
    BytesOn(frames, CLIENT_SERVER) <= Flat(st.client) && BytesOn(frames, SERVER_CLIENT) <= Flat(st.server)
  }

  /** What is left open on one stream after the frames. */
  function Open(st: Streams, frames: seq<Frame>, stream: nat): Bytes {
    Tail(On(st, stream), BytesOn(frames, stream))
  }

  /** Whenever bytes of one stream arrive, the other stream is between two messages. */
  predicate Tidy(st: Streams, frames: seq<Frame>) {
    frames == [] ||
    var front, last := frames[..|frames| - 1], frames[|frames| - 1];
    && Tidy(st, front)
    && (Used(last) && last.payload != [] ==> Open(st, front, Other(last.stream)) == [])
  }

  /** The parcels that a frame completes on its stream. */
  function Finished(st: Streams, front: seq<Frame>, last: Frame): seq<Parcel> {
    if !Used(last) then []
    else
      var ps, n := On(st, last.stream), |BytesOn(front, last.stream)|;
      CompleteGrows(ps, n, n + |last.payload|);
      ps[Complete(ps, n)..Complete(ps, n + |last.payload|)]
  }

  /** The parcels of both streams in the order in which the frames complete them. */
  function Merged(st: Streams, frames: seq<Frame>): seq<Parcel> {
    if frames == [] then []
    else Merged(st, frames[..|frames| - 1]) + Finished(st, frames[..|frames| - 1], frames[|frames| - 1])
  }

  lemma {:induction false} BytesGrow(frames: seq<Frame>, stream: nat, k: nat)
    requires k <= |frames|
    ensures BytesOn(frames[..k], stream) <= BytesOn(frames, stream)
  {
    if k == |frames| {
      assert frames[..k] == frames;
    } else {
      BytesGrow(frames[..|frames| - 1], stream, k);
      assert frames[..|frames| - 1][..k] == frames[..k];
    }
  }

  lemma CarriesFront(st: Streams, frames: seq<Frame>, k: nat)
    requires k <= |frames| && Carries(st, frames)
    ensures Carries(st, frames[..k])
  {
    BytesGrow(frames, CLIENT_SERVER, k);
    BytesGrow(frames, SERVER_CLIENT, k);
  }

  lemma {:induction false} TidyFront(st: Streams, frames: seq<Frame>, k: nat)
    requires k <= |frames| && Tidy(st, frames)
    ensures Tidy(st, frames[..k])
  {
    if k == |frames| {
      assert frames[..k] == frames;
    } else {
      TidyFront(st, frames[..|frames| - 1], k);
      assert frames[..|frames| - 1][..k] == frames[..k];
    }
  }

  /** The bytes in the buffer are whole messages and what one stream has left open. */
  predicate InOrder(st: Streams, frames: seq<Frame>, open: Bytes, stream: nat) {
    && Joined(frames) == Flat(Merged(st, frames)) + open
    && open == Open(st, frames, stream) && Open(st, frames, Other(stream)) == []
  }

  /** One more frame of bytes. */
  lemma FrameInOrder(st: Streams, frames: seq<Frame>, front: seq<Frame>, last: Frame, open: Bytes)
    requires frames == front + [last] && Carries(st, frames) && Used(last)
    requires InOrder(st, front, open, last.stream)
    ensures InOrder(st, frames, Open(st, frames, last.stream), last.stream)
  {
    BytesArrive(frames, front, last);
    MergedGrows(st, frames, front, last);
    var later := CarriesOn(st, frames, last.stream);
    StreamAdvances(st, front, last, BytesOn(frames, last.stream), later);
    Regroup(Flat(Merged(st, front)), open, last.payload,
            Flat(Finished(st, front, last)), Open(st, frames, last.stream));
  }

  lemma StreamAdvances(st: Streams, front: seq<Frame>, last: Frame, arrived: Bytes, later: Bytes)
    requires Used(last) && arrived == BytesOn(front, last.stream) + last.payload
    requires arrived + later == Flat(On(st, last.stream))
    ensures Open(st, front, last.stream) + last.payload
         == Flat(Finished(st, front, last)) + Tail(On(st, last.stream), arrived)
  {
    var x := BytesOn(front, last.stream);
    Advance(On(st, last.stream), x, last.payload, later);
  }

  lemma CarriesOn(st: Streams, frames: seq<Frame>, stream: nat) returns (later: Bytes)
    requires Carries(st, frames) && (stream == CLIENT_SERVER || stream == SERVER_CLIENT)
    ensures BytesOn(frames, stream) + later == Flat(On(st, stream))
  {
    later := Flat(On(st, stream))[|BytesOn(frames, stream)|..];
  }

  lemma BytesArrive(frames: seq<Frame>, front: seq<Frame>, last: Frame)
    requires frames == front + [last] && Used(last)
    ensures Joined(frames) == Joined(front) + last.payload
    ensures BytesOn(frames, last.stream) == BytesOn(front, last.stream) + last.payload
    ensures BytesOn(frames, Other(last.stream)) == BytesOn(front, Other(last.stream))
  {
    assert frames[..|front|] == front;
  }

  lemma MergedGrows(st: Streams, frames: seq<Frame>, front: seq<Frame>, last: Frame)
    requires frames == front + [last]
    ensures Flat(Merged(st, frames)) == Flat(Merged(st, front)) + Flat(Finished(st, front, last))
  {
    assert frames[..|front|] == front;
    FlatAppends(Merged(st, front), Finished(st, front, last));
  }

  lemma Regroup(a: Bytes, open: Bytes, payload: Bytes, b: Bytes, tail: Bytes)
    requires open + payload == b + tail
    ensures (a + open) + payload == (a + b) + tail
  {
    assert (a + open) + payload == a + (open + payload);
  }

  /** As long as the streams take turns between messages, the buffer holds whole messages in
      the order of their completion, and what at most one stream has left open. */
  lemma {:induction false} TidyIsInOrder(st: Streams, frames: seq<Frame>) returns (stream: nat)
    requires Carries(st, frames) && Tidy(st, frames)
    ensures stream == CLIENT_SERVER || stream == SERVER_CLIENT
    ensures InOrder(st, frames, Open(st, frames, stream), stream)
    decreases |frames|
  {
    if frames == [] {
      stream := CLIENT_SERVER;
      NothingYet(st);
    } else {
      var front, last := frames[..|frames| - 1], frames[|frames| - 1];
      assert frames == front + [last];
      CarriesFront(st, frames, |front|);
      stream := TidyIsInOrder(st, front);
      if Used(last) && last.payload != [] {
        SwitchStream(st, front, last, stream);
        stream := last.stream;
        FrameInOrder(st, frames, front, last, Open(st, front, stream));
      } else {
        EmptyFrame(st, frames, front, last, stream);
      }
    }
  }

  lemma NothingYet(st: Streams)
    ensures InOrder(st, [], Open(st, [], CLIENT_SERVER), CLIENT_SERVER)
  {
    TailOfNothing(st.client);
    TailOfNothing(st.server);
  }

  lemma SwitchStream(st: Streams, front: seq<Frame>, last: Frame, stream: nat)
    requires Used(last) && (stream == CLIENT_SERVER || stream == SERVER_CLIENT)
    requires InOrder(st, front, Open(st, front, stream), stream) && Open(st, front, Other(last.stream)) == []
    ensures InOrder(st, front, Open(st, front, last.stream), last.stream)
  {
  }

  lemma EmptyFrame(st: Streams, frames: seq<Frame>, front: seq<Frame>, last: Frame, stream: nat)
    requires frames == front + [last] && (!Used(last) || last.payload == [])
    requires InOrder(st, front, Open(st, front, stream), stream)
    ensures InOrder(st, frames, Open(st, frames, stream), stream)
  {
    NothingArrives(frames, front, last, stream);
    NothingArrives(frames, front, last, Other(stream));
    NothingFinishes(st, frames, front, last);
  }

  lemma NothingArrives(frames: seq<Frame>, front: seq<Frame>, last: Frame, stream: nat)
    requires frames == front + [last] && (!Used(last) || last.payload == [])
    ensures Joined(frames) == Joined(front) && BytesOn(frames, stream) == BytesOn(front, stream)
  {
    assert frames[..|front|] == front;
  }

  lemma NothingFinishes(st: Streams, frames: seq<Frame>, front: seq<Frame>, last: Frame)
    requires frames == front + [last] && (!Used(last) || last.payload == [])
    ensures Merged(st, frames) == Merged(st, front)
  {
    assert frames[..|front|] == front;
    assert Finished(st, front, last) == [];
  }

  // ------------------------------------------------------ what is delivered

  lemma {:induction false} MergedIsSent(st: Streams, frames: seq<Frame>, p: Parcel)
    requires p in Merged(st, frames)
    ensures p in st.client || p in st.server
    decreases |frames|
  {
    var front, last := frames[..|frames| - 1], frames[|frames| - 1];
    if p in Merged(st, front) {
      MergedIsSent(st, front, p);
    }
  }

  lemma ReadsMerged(read: Reader, st: Streams, frames: seq<Frame>)
    requires Understands(read, st.client) && Understands(read, st.server) && Carries(st, frames) && Tidy(st, frames)
    ensures var t, kept := read(Joined(frames)), Kept(Merged(st, frames));
            if kept == [] then t.Waiting? else t.Ready? && t.message == kept[0].message
  {
    var stream := TidyIsInOrder(st, frames);
    var ps, open := Merged(st, frames), Open(st, frames, stream);
    forall i | 0 <= i < |ps| ensures Takes(read, ps[i]) {
      MergedIsSent(st, frames, ps[i]);
    }
    ReadsKept(read, ps, open);
    var later := CarriesOn(st, frames, stream);
    TailWaits(read, On(st, stream), BytesOn(frames, stream), later);
  }

  lemma {:induction false} ParcelIsSent(ms: seq<Message>, p: Parcel)
    requires AllSurvive(ms) && p in Parcels(ms)
    ensures p.message in ms
  {
    if p != Parcels(ms)[0] {
      assert Parcels(ms)[1..] == Parcels(ms[1..]);
      ParcelIsSent(ms[1..], p);
    }
  }

  /** The answer is the first of these messages, or to wait when there is none. */
  predicate Delivers(r: Reply, kept: seq<Parcel>) {
    if r.Got? then kept != [] && r.message == kept[0].message else !r.BadMessage? && kept == []
  }

  /** When the streams take turns between messages, the reader gets a message that was sent,
      the first one worth keeping in the order of completion, and never sees a fault. */
  lemma TidyStreamsDeliver(a: seq<Message>, c: seq<Message>, frames: seq<Frame>, used: nat, r: Reply)
    requires AllSurvive(a) && AllSurvive(c) && Reads(FirstKept, [], frames, used, r)
    requires var st := Streams(Parcels(a), Parcels(c)); Carries(st, frames) && Tidy(st, frames)
    ensures Delivers(r, Kept(Merged(Streams(Parcels(a), Parcels(c)), frames[..used])))
    ensures r.Got? ==> r.message in a || r.message in c
  {
    var st := Streams(Parcels(a), Parcels(c));
    FirstKeptIsGenuine();
    MessagesAreUnderstood(FirstKept, a);
    MessagesAreUnderstood(FirstKept, c);
    CarriesFront(st, frames, used);
    TidyFront(st, frames, used);
    ReadsMerged(FirstKept, st, frames[..used]);
    assert Seen([], frames, used) == Joined(frames[..used]);
    var kept := Kept(Merged(st, frames[..used]));
    if kept != [] {
      MergedIsSent(st, frames[..used], kept[0]);
      if kept[0] in st.client { ParcelIsSent(a, kept[0]); } else { ParcelIsSent(c, kept[0]); }
    }
  }

  // ------------------------------------------------- the order of delivery

  /** The parcels of both lists, each list in its own order, and no others. */
  predicate Interleaves(m: seq<Parcel>, a: seq<Parcel>, b: seq<Parcel>) {
    if m == [] then a == [] && b == []
    else
      var front, last := m[..|m| - 1], m[|m| - 1];
      || (a != [] && a[|a| - 1] == last && Interleaves(front, a[..|a| - 1], b))
      || (b != [] && b[|b| - 1] == last && Interleaves(front, a, b[..|b| - 1]))
  }

  lemma InterleaveOne(m: seq<Parcel>, a: seq<Parcel>, b: seq<Parcel>, p: Parcel)
    requires Interleaves(m, a, b)
    ensures Interleaves(m + [p], a + [p], b)
  {
    assert (m + [p])[..|m|] == m && (a + [p])[..|a|] == a;
  }

  lemma {:induction false} InterleaveMore(m: seq<Parcel>, a: seq<Parcel>, b: seq<Parcel>, more: seq<Parcel>)
    requires Interleaves(m, a, b)
    ensures Interleaves(m + more, a + more, b)
    decreases |more|
  {
    if more == [] {
      assert m + more == m && a + more == a;
    } else {
      var p, rest := more[0], more[1..];
      InterleaveOne(m, a, b, p);
      InterleaveMore(m + [p], a + [p], b, rest);
      MoveFirst(m, more);
      MoveFirst(a, more);
    }
  }

  lemma MoveFirst(ps: seq<Parcel>, more: seq<Parcel>)
    requires more != []
    ensures (ps + [more[0]]) + more[1..] == ps + more
  {
  }

  lemma {:induction false} InterleaveSwaps(m: seq<Parcel>, a: seq<Parcel>, b: seq<Parcel>)
    requires Interleaves(m, a, b)
    ensures Interleaves(m, b, a)
    decreases |m|
  {
    if m != [] {
      var front, last := m[..|m| - 1], m[|m| - 1];
      if a != [] && a[|a| - 1] == last && Interleaves(front, a[..|a| - 1], b) {
        InterleaveSwaps(front, a[..|a| - 1], b);
      } else {
        InterleaveSwaps(front, a, b[..|b| - 1]);
      }
    }
  }

  /** The parcels of one stream that are complete after the frames. */
  function Arrived(st: Streams, frames: seq<Frame>, stream: nat): seq<Parcel> {
    On(st, stream)[..Complete(On(st, stream), |BytesOn(frames, stream)|)]
  }

  lemma ArrivedGrows(st: Streams, frames: seq<Frame>, front: seq<Frame>, last: Frame, stream: nat)
    requires frames == front + [last]
    ensures Arrived(st, frames, stream) ==
            Arrived(st, front, stream) + if Used(last) && last.stream == stream then Finished(st, front, last) else []
  {
    assert frames[..|front|] == front;
    if Used(last) && last.stream == stream {
      var ps, m := On(st, stream), |BytesOn(front, stream)|;
      CompleteGrows(ps, m, m + |last.payload|);
      SlicesJoin(ps, Complete(ps, m), Complete(ps, m + |last.payload|));
    }
  }

  lemma SlicesJoin(ps: seq<Parcel>, c: nat, d: nat)
    requires c <= d <= |ps|
    ensures ps[..d] == ps[..c] + ps[c..d]
  {
  }

  /** In the merged order every stream keeps its own, and nothing complete is missing. */
  lemma {:induction false} MergedKeepsOrder(st: Streams, frames: seq<Frame>)
    requires forall p :: p in st.client || p in st.server ==> p.bytes != []
    ensures Interleaves(Merged(st, frames), Arrived(st, frames, CLIENT_SERVER), Arrived(st, frames, SERVER_CLIENT))
    decreases |frames|
  {
    if frames == [] {
      assert st.client != [] ==> st.client[0] in st.client;
      assert st.server != [] ==> st.server[0] in st.server;
    } else {
      var front, last := frames[..|frames| - 1], frames[|frames| - 1];
      assert frames == front + [last];
      MergedKeepsOrder(st, front);
      ArrivedGrows(st, frames, front, last, CLIENT_SERVER);
      ArrivedGrows(st, frames, front, last, SERVER_CLIENT);
      MoreIsInterleaved(Merged(st, front), Arrived(st, front, CLIENT_SERVER), Arrived(st, front, SERVER_CLIENT),
                        Finished(st, front, last), last.stream == CLIENT_SERVER);
      NothingAdded(Arrived(st, front, CLIENT_SERVER));
      NothingAdded(Arrived(st, front, SERVER_CLIENT));
      NothingAdded(Merged(st, front));
    }
  }

  lemma MoreIsInterleaved(m: seq<Parcel>, a: seq<Parcel>, b: seq<Parcel>, more: seq<Parcel>, first: bool)
    requires Interleaves(m, a, b)
    ensures if first then Interleaves(m + more, a + more, b) else Interleaves(m + more, a, b + more)
  {
    if first {
      InterleaveMore(m, a, b, more);
    } else {
      InterleaveSwaps(m, a, b);
      InterleaveMore(m, b, a, more);
      InterleaveSwaps(m + more, b + more, a);
    }
  }

  lemma NothingAdded(ps: seq<Parcel>)
    ensures ps + [] == ps
  {
  }

  // ----------------------------------------------------- when it is not so

  /** What comes before the data in the bytes of a message with data for its body. */
  function Before(flags: U32Word, id: U64, length: nat): Bytes
    requires length < U32_LIMIT
  {
    U32(WRAPPER_MAGIC) + U32(flags) + U64Bytes(16 + length) + U64Bytes(id)
    + (U32(OBJECT_MAGIC) + U32(BODY_VERSION) + (U32(TYPE_DATA) + U32(length)))
  }

  lemma DataMessage(flags: U32Word, id: U64, d: Bytes)
    requires |d| % 4 == 0 && |d| < U32_LIMIT
    ensures var m := Message(flags, id, Some(Data(d)));
            Encodable(m) && EncodeMessage(m) == Before(flags, id, |d|) + d && |Before(flags, id, |d|)| == 40
  {
    var m := Message(flags, id, Some(Data(d)));
    var t, l := U32(TYPE_DATA), U32(|d|);
    assert Padded(d) == d && Encode(Data(d)) == t + (l + d);
    Associates(t, l, d);
    var o := U32(OBJECT_MAGIC) + U32(BODY_VERSION);
    Associates(o, t + l, d);
    assert BodyBytes(m) == o + (t + l) + d && |BodyBytes(m)| == 16 + |d|;
    Associates(U32(WRAPPER_MAGIC) + U32(flags) + U64Bytes(16 + |d|) + U64Bytes(id), o + (t + l), d);
  }

  /** Bytes of one stream, of the other, and of the first again. */
  function Sandwich(a: Bytes, x: Bytes, z: Bytes): seq<Frame> {
    [Frame(a, false, CLIENT_SERVER), Frame(x, false, SERVER_CLIENT), Frame(z, false, CLIENT_SERVER)]
  }

  lemma SandwichSeen(a: Bytes, x: Bytes, z: Bytes)
    ensures var frames := Sandwich(a, x, z);
            && Seen([], frames, 0) == [] && Seen([], frames, 1) == a
            && Seen([], frames, 2) == a + x && Seen([], frames, 3) == a + x + z
  {
    var frames := Sandwich(a, x, z);
    SeenNext([], frames, 0);
    SeenNext([], frames, 1);
    SeenNext([], frames, 2);
    assert [] + a == a;
  }

  /** Three frames that happen to make the bytes of a parcel are read as that parcel. */
  lemma SandwichReads(read: Reader, p: Parcel, a: Bytes, x: Bytes, z: Bytes, left: Bytes)
    requires Takes(read, p) && !p.skipped && read([]) == Waiting([])
    requires |a + x| < |p.bytes| && a == p.bytes[..|a|] && a + x == p.bytes[..|a + x|] && a + x + z == p.bytes + left
    requires |a + x + z| <= PENDING_LIMIT
    ensures Reads(read, [], Sandwich(a, x, z), 3, Got(p.message))
  {
    var frames := Sandwich(a, x, z);
    SandwichSeen(a, x, z);
    WaitsOn(read, [], frames, 0, [], []);
    WaitsOn(read, [], frames, 1, a, a);
    WaitsOn(read, [], frames, 2, a + x, a + x);
  }

  /** The data with other bytes put in, and as many dropped from its end. */
  function Spliced(d: Bytes, j: nat, x: Bytes): (r: Bytes)
    requires j + |x| <= |d|
    ensures |r| == |d|
  {
    d[..j] + x + d[j..|d| - |x|]
  }

  lemma SplicedBytes(pre: Bytes, d: Bytes, j: nat, x: Bytes)
    requires j + |x| < |d|
    ensures var a, r := (pre + d)[..|pre| + j], pre + Spliced(d, j, x);
            && a == r[..|a|] && a + x == r[..|a + x|] && |a + x| < |r|
            && a + x + (pre + d)[|pre| + j..] == r + d[|d| - |x|..]
  {
    var a := (pre + d)[..|pre| + j];
    assert a == pre + d[..j];
    assert (pre + d)[|pre| + j..] == d[j..];
    assert d[j..] == d[j..|d| - |x|] + d[|d| - |x|..];
  }

  /** Bytes of the other stream that arrive inside the data of a message become part of it:
      the reader returns the message with its data spliced, without an error, and that is the
      message sent only if the data held those very bytes. */
  lemma OtherStreamIsSplicedIn(flags: U32Word, id: U64, d: Bytes, j: nat, x: Bytes)
    requires |d| % 4 == 0 && j + |x| < |d| && 40 + |d| + |x| <= PENDING_LIMIT
    requires 16 + |d| <= Limit(flags) && flags / 0x100000 % 2 == 0
    ensures |d| < U32_LIMIT && Encodable(Message(flags, id, Some(Data(d))))
    ensures var b := EncodeMessage(Message(flags, id, Some(Data(d))));
            && |b| == 40 + |d|
            && Reads(FirstKept, [], Sandwich(b[..40 + j], x, b[40 + j..]), 3,
                     Got(Message(flags, id, Some(Data(Spliced(d, j, x))))))
    ensures Spliced(d, j, x) == d ==> d[j..j + |x|] == x
  {
    var got := Message(flags, id, Some(Data(Spliced(d, j, x))));
    DataMessage(flags, id, d);
    DataMessage(flags, id, Spliced(d, j, x));
    var pre := Before(flags, id, |d|);
    SplicedBytes(pre, d, j, x);
    FirstKeptIsGenuine();
    SplicedSurvives(flags, id, Spliced(d, j, x));
    MessageIsTaken(FirstKept, got, Parcel(got, EncodeMessage(got), Skipped(got)));
    var b := pre + d;
    SandwichReads(FirstKept, Parcel(got, EncodeMessage(got), Skipped(got)), b[..40 + j], x, b[40 + j..],
                  d[|d| - |x|..]);
    assert Spliced(d, j, x)[j..j + |x|] == x;
  }

  lemma SplicedSurvives(flags: U32Word, id: U64, d: Bytes)
    requires |d| % 4 == 0 && |d| < U32_LIMIT && 16 + |d| <= Limit(flags) && flags / 0x100000 % 2 == 0
    ensures var m := Message(flags, id, Some(Data(d))); Encodable(m) && Survives(m) && !Skipped(m)
  {
    DataMessage(flags, id, d);
    EncodedLength(Message(flags, id, Some(Data(d))));
  }

  /** When those bytes are a whole message of the other stream, the reader returns a message
      that was sent on neither. */
  lemma NobodySentIt(flags: U32Word, id: U64, d: Bytes, j: nat, other: Message)
    requires Encodable(other) && var x := EncodeMessage(other);
             && |d| % 4 == 0 && j + |x| < |d| && 40 + |d| + |x| <= PENDING_LIMIT
             && 16 + |d| <= Limit(flags) && flags / 0x100000 % 2 == 0 && d[j..j + |x|] != x
    ensures var got := Message(flags, id, Some(Data(Spliced(d, j, EncodeMessage(other)))));
            got != Message(flags, id, Some(Data(d))) && got != other
  {
    var x := EncodeMessage(other);
    var r := Spliced(d, j, x);
    assert r[j..j + |x|] == x;
    DataMessage(flags, id, r);
  }
}
