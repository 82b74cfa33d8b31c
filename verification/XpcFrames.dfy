/** The reader that picks the next reply out of the DATA frames of a connection. */
module XpcFrames {
  import opened Options
  import opened XpcValues
  import opened XpcStream
  import opened XpcBuffer

  /** What taking the first message worth keeping from some bytes gives. Everything about
      frames is proved over any such function that agrees with the reader's own, so that no
      proof about frames has to look inside the messages. */
  type Reader = Bytes -> Taken

  ghost predicate Genuine(read: Reader) {
    forall p {:trigger FirstKept(p)} :: read(p) == FirstKept(p)
  }

  lemma FirstKeptIsGenuine()
    ensures Genuine(FirstKept)
  {
  }

  lemma ReadOfMore(read: Reader, p: Bytes, more: Bytes)
    requires Genuine(read)
    ensures read(p + more) == if read(p).Waiting? then read(read(p).rest + more) else Extended(read(p), more)
  {
    FirstKeptOfMore(p, more);
    assert read(p) == FirstKept(p) && read(p + more) == FirstKept(p + more);
    if read(p).Waiting? {
      assert read(read(p).rest + more) == FirstKept(read(p).rest + more);
    }
  }

  const CLIENT_SERVER: nat := 1
  const SERVER_CLIENT: nat := 3

  /** A DATA frame: its payload, whether it ends its stream, and the number of the stream. */
  datatype Frame = Frame(payload: Bytes, ends: bool, stream: nat)

  /** The frames that are pushed: those of both control streams, into one buffer. */
  predicate Used(f: Frame) {
    !(f.ends && f.payload == []) && Control(f)
  }

  predicate Control(f: Frame) {
    f.stream == CLIENT_SERVER || f.stream == SERVER_CLIENT
  }

  /** The control bytes of the frames, in order. */
  function Joined(frames: seq<Frame>): Bytes {
    if frames == [] then []
    else Joined(frames[..|frames| - 1]) +
         if Used(frames[|frames| - 1]) then frames[|frames| - 1].payload else []
  }

  datatype Reply = Got(message: Message) | BadMessage | Overrun | NoMoreFrames

  /** The bytes seen before frame k, added to what was pending. */
  function Seen(start: Bytes, frames: seq<Frame>, k: nat): Bytes
    requires k <= |frames|
  {
    start + Joined(frames[..k])
  }

  lemma SeenNext(start: Bytes, frames: seq<Frame>, k: nat)
    requires k < |frames|
    ensures Seen(start, frames, k + 1) ==
            Seen(start, frames, k) + if Used(frames[k]) then frames[k].payload else []
  {
    assert frames[..k + 1][..k] == frames[..k];
  }

  lemma {:induction false} JoinedSplits(frames: seq<Frame>, k: nat)
    requires k <= |frames|
    ensures Joined(frames) == Joined(frames[..k]) + Joined(frames[k..])
  {
    if k == |frames| {
      assert frames[..k] == frames;
    } else {
      var n := |frames| - 1;
      JoinedSplits(frames[..n], k);
      assert frames[..n][..k] == frames[..k] && frames[..n][k..] == frames[k..][..n - k];
    }
  }

  /** Two ways to cut the same bytes into frames give the same message, and the same bytes
      to read after it, as soon as each has given one. */
  lemma CutsDoNotMatter(read: Reader, start: Bytes, a: seq<Frame>, ka: nat, b: seq<Frame>, kb: nat)
    requires Genuine(read) && ka <= |a| && kb <= |b| && Joined(a) == Joined(b)
    requires read(Seen(start, a, ka)).Ready? && read(Seen(start, b, kb)).Ready?
    ensures var ta, tb := read(Seen(start, a, ka)), read(Seen(start, b, kb));
            ta.message == tb.message && ta.rest + Joined(a[ka..]) == tb.rest + Joined(b[kb..])
  {
    var all := start + Joined(a);
    WholeFromPart(read, start, a, ka, all);
    WholeFromPart(read, start, b, kb, all);
  }

  lemma WholeFromPart(read: Reader, start: Bytes, frames: seq<Frame>, k: nat, all: Bytes)
    requires Genuine(read) && k <= |frames| && all == start + Joined(frames)
    requires read(Seen(start, frames, k)).Ready?
    ensures read(all) == Extended(read(Seen(start, frames, k)), Joined(frames[k..]))
  {
    var seen, more := Seen(start, frames, k), Joined(frames[k..]);
    AllIsSeenAndMore(start, frames, k);
    ReadOfMore(read, seen, more);
  }

  lemma AllIsSeenAndMore(start: Bytes, frames: seq<Frame>, k: nat)
    requires k <= |frames|
    ensures start + Joined(frames) == Seen(start, frames, k) + Joined(frames[k..])
  {
    JoinedSplits(frames, k);
  }

  /** Takes messages off the buffer until one is worth keeping. */
  method TakeKept(buffer: XpcMessageBuffer) returns (r: Result<Option<Message>, ()>)
    modifies buffer
    ensures Answers(FirstKept(old(buffer.pending)), r, buffer.pending)
  {
    while true
      invariant FirstKept(buffer.pending) == FirstKept(old(buffer.pending))
      decreases |buffer.pending|
    {
      NextIsSettled(buffer.pending, []);
      r := buffer.TryNext();
      if r.Err? || r.value.None? || !Skipped(r.value.value) { return; }
    }
  }

  method TakeRead(buffer: XpcMessageBuffer, ghost read: Reader) returns (r: Result<Option<Message>, ()>)
    requires Genuine(read)
    modifies buffer
    ensures Answers(read(old(buffer.pending)), r, buffer.pending)
  {
    ghost var pending := buffer.pending;
    r := TakeKept(buffer);
    assert read(pending) == FirstKept(pending);
  }

  predicate Answers(t: Taken, r: Result<Option<Message>, ()>, pending: Bytes) {
    && pending == t.rest
    && match t
       case Waiting(_) => r == Ok(None)
       case Failed(_) => r == Err(())
       case Ready(m, _) => r == Ok(Some(m))
  }

  lemma ReadOn(read: Reader, start: Bytes, frames: seq<Frame>, k: nat, pending: Bytes)
    requires Genuine(read) && k < |frames| && read(Seen(start, frames, k)) == Waiting(pending)
    ensures read(Seen(start, frames, k + 1)) == read(Fed(pending, frames[k]))
  {
    SeenNext(start, frames, k);
    ReadOfMore(read, Seen(start, frames, k), if Used(frames[k]) then frames[k].payload else []);
    assert pending + [] == pending;
  }

  function Fed(pending: Bytes, frame: Frame): Bytes {
    if Used(frame) then pending + frame.payload else pending
  }

  method Feed(buffer: XpcMessageBuffer, frame: Frame) returns (ok: bool)
    modifies buffer
    ensures ok <==> FitsBuffer(old(buffer.pending), frame)
    ensures buffer.pending == if ok then Fed(old(buffer.pending), frame) else old(buffer.pending)
  {
    if frame.ends && frame.payload == [] { return true; }
    if !Control(frame) { return true; }
    ok := buffer.Push(frame.payload);
  }

  /** The frame can be added to what waits. */
  predicate FitsBuffer(pending: Bytes, frame: Frame) {
    Used(frame) ==> |pending| + |frame.payload| <= PENDING_LIMIT
  }

  /** No message could be read, and no fault seen, before the first k frames were in, and
      each of them fitted. */
  predicate WaitedThrough(read: Reader, start: Bytes, frames: seq<Frame>, k: nat)
    requires k <= |frames|
  {
    k == 0 ||
    (&& WaitedThrough(read, start, frames, k - 1)
     && read(Seen(start, frames, k - 1)).Waiting?
     && FitsBuffer(read(Seen(start, frames, k - 1)).rest, frames[k - 1]))
  }

  /** What the reader's answer says about everything read at once. */
  predicate Explains(t: Taken, frames: seq<Frame>, used: nat, r: Reply) {
    match r
    case Got(m) => t == Ready(m, t.rest)
    case BadMessage => t.Failed?
    case NoMoreFrames => t.Waiting? && used == |frames|
    case Overrun => t.Waiting? && used < |frames| && !FitsBuffer(t.rest, frames[used])
  }

  /** The reader answers so after this many frames. */
  predicate Reads(read: Reader, start: Bytes, frames: seq<Frame>, used: nat, r: Reply) {
    && used <= |frames| && WaitedThrough(read, start, frames, used)
    && Explains(read(Seen(start, frames, used)), frames, used, r)
  }

  lemma {:induction false} WaitedBefore(read: Reader, start: Bytes, frames: seq<Frame>, j: nat, k: nat)
    requires j < k <= |frames| && WaitedThrough(read, start, frames, k)
    ensures WaitedThrough(read, start, frames, j) && read(Seen(start, frames, j)).Waiting?
    ensures FitsBuffer(read(Seen(start, frames, j)).rest, frames[j])
  {
    if j < k - 1 {
      WaitedBefore(read, start, frames, j, k - 1);
    }
  }

  lemma NotEarlier(read: Reader, start: Bytes, frames: seq<Frame>, j: nat, a: Reply, k: nat, b: Reply)
    requires Reads(read, start, frames, j, a) && Reads(read, start, frames, k, b)
    ensures j >= k
  {
    if j < k {
      WaitedBefore(read, start, frames, j, k);
    }
  }

  /** There is one answer for what was pending and the frames that come. */
  lemma AnswerIsDetermined(read: Reader, start: Bytes, frames: seq<Frame>, j: nat, a: Reply, k: nat, b: Reply)
    requires Reads(read, start, frames, j, a) && Reads(read, start, frames, k, b)
    ensures j == k && a == b
  {
    NotEarlier(read, start, frames, j, a, k, b);
    NotEarlier(read, start, frames, k, b, j, a);
  }

  lemma WaitsOn(read: Reader, start: Bytes, frames: seq<Frame>, k: nat, seen: Bytes, pending: Bytes)
    requires k < |frames| && WaitedThrough(read, start, frames, k) && Seen(start, frames, k) == seen
    requires read(seen) == Waiting(pending) && FitsBuffer(pending, frames[k])
    ensures WaitedThrough(read, start, frames, k + 1)
  {
  }

  lemma Overruns(read: Reader, start: Bytes, frames: seq<Frame>, k: nat, seen: Bytes, pending: Bytes)
    requires k < |frames| && WaitedThrough(read, start, frames, k) && Seen(start, frames, k) == seen
    requires read(seen) == Waiting(pending) && !FitsBuffer(pending, frames[k])
    ensures Reads(read, start, frames, k, Overrun)
  {
  }

  method ReceiveBy(buffer: XpcMessageBuffer, frames: seq<Frame>, ghost read: Reader) returns (r: Reply, used: nat)
    requires Genuine(read)
    modifies buffer
    ensures Reads(read, old(buffer.pending), frames, used, r)
    ensures buffer.pending == read(Seen(old(buffer.pending), frames, used)).rest
  {
    ghost var start := buffer.pending;
    used := 0;
    assert Seen(start, frames, 0) == start;
    var taken := TakeRead(buffer, read);
    while taken == Ok(None) && used < |frames|
      invariant used <= |frames|
      invariant Answers(read(Seen(start, frames, used)), taken, buffer.pending)
      invariant WaitedThrough(read, start, frames, used)
    {
      ghost var waiting := buffer.pending;
      ReadOn(read, start, frames, used, waiting);
      var ok := Feed(buffer, frames[used]);
      if !ok { return Overrun, used; }
      WaitsOn(read, start, frames, used, Seen(start, frames, used), waiting);
      used := used + 1;
      taken := TakeRead(buffer, read);
    }
    r := if taken.Err? then BadMessage else if taken.value.Some? then Got(taken.value.value) else NoMoreFrames;
  }

  /** Waits for a message worth keeping.  The answer is that of reading all bytes at once,
      wherever the frames cut them; only the buffer's limit depends on the cuts. */
  method ReceiveControlMessage(buffer: XpcMessageBuffer, frames: seq<Frame>) returns (r: Reply, used: nat)
    modifies buffer
    ensures Reads(FirstKept, old(buffer.pending), frames, used, r)
    ensures buffer.pending == FirstKept(Seen(old(buffer.pending), frames, used)).rest
  {
    FirstKeptIsGenuine();
    r, used := ReceiveBy(buffer, frames, FirstKept);
  }
}
