/** When the reader fails on the limit of its buffer. */
module XpcOverrun {
  import opened Options
  import opened XpcValues
  import opened XpcWire
  import opened XpcStream
  import opened XpcBuffer
  import opened XpcFrames
  import opened XpcSent

  /** The longest payload that the framer lets through. */
  const MAX_FRAME: nat := 16384

  // --------------------------------------------------------- the condition

  /** Frame k begins before the first message worth keeping is complete, and ends more than
      the limit after the start of the message it goes on with. */
  predicate Spills(ps: seq<Parcel>, start: Bytes, frames: seq<Frame>, k: nat)
    requires k < |frames|
  {
    var at := |start| + |Joined(frames[..k])|;
    Used(frames[k]) && Outstanding(ps, at) && at + |frames[k].payload| > StartOf(ps, at) + PENDING_LIMIT
  }

  lemma SeenIsSent(sent: Bytes, start: Bytes, frames: seq<Frame>, k: nat)
    requires k <= |frames| && start + Joined(frames) <= sent
    ensures var at := |start| + |Joined(frames[..k])|;
            at <= |sent| && Seen(start, frames, k) == sent[..at]
  {
    AllIsSeenAndMore(start, frames, k);
    var at := |start| + |Joined(frames[..k])|;
    assert Seen(start, frames, k) == (start + Joined(frames))[..at];
  }

  /** What waits before frame k, by lengths. */
  lemma WaitsBefore(read: Reader, ps: seq<Parcel>, start: Bytes, frames: seq<Frame>, k: nat, at: nat)
    requires Understands(read, ps) && k <= |frames| && start + Joined(frames) <= Flat(ps)
    requires at == |start| + |Joined(frames[..k])|
    ensures var t := read(Seen(start, frames, k));
            if Outstanding(ps, at) then t.Waiting? && |t.rest| == at - StartOf(ps, at) else t.Ready?
  {
    SeenIsSent(Flat(ps), start, frames, k);
    WaitingPart(read, ps, at);
  }

  lemma SpillsExactly(read: Reader, ps: seq<Parcel>, start: Bytes, frames: seq<Frame>, k: nat)
    requires Understands(read, ps) && k < |frames| && start + Joined(frames) <= Flat(ps)
    ensures var t := read(Seen(start, frames, k));
            Spills(ps, start, frames, k) <==> t.Waiting? && !FitsBuffer(t.rest, frames[k])
  {
    WaitsBefore(read, ps, start, frames, k, |start| + |Joined(frames[..k])|);
  }

  lemma WaitingBefore(read: Reader, ps: seq<Parcel>, start: Bytes, frames: seq<Frame>, j: nat, k: nat)
    requires Understands(read, ps) && j <= k < |frames| && start + Joined(frames) <= Flat(ps)
    requires Spills(ps, start, frames, k)
    ensures read(Seen(start, frames, j)).Waiting?
  {
    var from, at := |start| + |Joined(frames[..j])|, |start| + |Joined(frames[..k])|;
    JoinedSplits(frames[..k], j);
    assert frames[..k][..j] == frames[..j];
    OutstandingBefore(ps, from, at);
    WaitsBefore(read, ps, start, frames, j, from);
  }

  lemma OverrunByLengths(read: Reader, ps: seq<Parcel>, start: Bytes, frames: seq<Frame>, used: nat, r: Reply)
    requires Understands(read, ps) && start + Joined(frames) <= Flat(ps) && Reads(read, start, frames, used, r)
    ensures r == Overrun <==> exists k :: 0 <= k < |frames| && Spills(ps, start, frames, k)
  {
    if r == Overrun {
      SpillsExactly(read, ps, start, frames, used);
    }
    if k :| 0 <= k < |frames| && Spills(ps, start, frames, k) {
      SpillsExactly(read, ps, start, frames, k);
      if used <= k {
        WaitingBefore(read, ps, start, frames, used, k);
      } else {
        WaitedBefore(read, start, frames, k, used);
      }
    }
  }

  /** When what arrives is sound messages, the reader fails on the limit exactly when some
      frame spills: a matter of which messages are passed over, and of the lengths of messages
      and frames. */
  lemma OverrunExactlyWhenSpilling(ms: seq<Message>, start: Bytes, frames: seq<Frame>, used: nat, r: Reply)
    requires AllSurvive(ms) && start + Joined(frames) <= EncodeAll(ms) && Reads(FirstKept, start, frames, used, r)
    ensures r == Overrun <==> exists k :: 0 <= k < |frames| && Spills(Parcels(ms), start, frames, k)
  {
    FirstKeptIsGenuine();
    MessagesAreUnderstood(FirstKept, ms);
    FlatIsEncodeAll(ms);
    OverrunByLengths(FirstKept, Parcels(ms), start, frames, used, r);
  }

  /** With frames as the framer lets through, an overrun means that a transfer message waits
      and is all but in. */
  lemma OverrunNeedsTransfer(start: Bytes, frames: seq<Frame>, used: nat)
    requires Reads(FirstKept, start, frames, used, Overrun) && |frames[used].payload| <= MAX_FRAME
    ensures var rest := FirstKept(Seen(start, frames, used)).rest;
            && |rest| > PENDING_LIMIT - MAX_FRAME && |rest| >= HEADER && Limit(ReadFlags(rest)) == TRANSFER_LIMIT
  {
    WaitingIsShort(Seen(start, frames, used));
  }

  // -------------------------------------------------------------- an input

  lemma DataLength(data: Bytes)
    requires |data| % 4 == 0
    ensures |Encode(Data(data))| == 8 + |data|
  {
    assert |Padded(data)| == |data| + PadLength(|data|) == |data|;
    assert Body(Data(data)) == Blob(data) && |Blob(data)| == 4 + |data|;
  }

  /** There are sound messages worth keeping that are as long as the buffer may be. */
  lemma FullMessage(data: Bytes, id: U64)
    requires |data| == TRANSFER_LIMIT - 16
    ensures var m := Message(0x200000, id, Some(Data(data)));
            && !Skipped(m) && Survives(m)
            && Encodable(m) && |EncodeMessage(m)| == PENDING_LIMIT
  {
    var m := Message(0x200000, id, Some(Data(data)));
    FullBody(m, data);
    EncodedLength(m);
  }

  lemma FullBody(m: Message, data: Bytes)
    requires m.body == Some(Data(data)) && |data| == TRANSFER_LIMIT - 16
    ensures |BodyBytes(m)| == TRANSFER_LIMIT && Encodable(m)
  {
    DataLength(data);
  }

  lemma {:induction false} WaitedAlong(read: Reader, p: Parcel, frames: seq<Frame>, k: nat)
    requires k < |frames| && Begins(p.bytes, frames)
    requires |p.bytes| <= PENDING_LIMIT && Takes(read, p)
    ensures WaitedThrough(read, [], frames, k) && read(Seen([], frames, k)) == Waiting(Joined(frames[..k]))
  {
    PartOfFront(p.bytes, frames, k);
    if k > 0 {
      WaitedAlong(read, p, frames, k - 1);
      PartOfFront(p.bytes, frames, k - 1);
      SeenNext([], frames, k - 1);
      WaitsOn(read, [], frames, k - 1, Seen([], frames, k - 1), Joined(frames[..k - 1]));
    }
  }

  /** All frames but the last make a proper beginning of the bytes. */
  predicate Begins(b: Bytes, frames: seq<Frame>) {
    frames != [] && var front := Joined(frames[..|frames| - 1]); front <= b && |front| < |b|
  }

  lemma PartOfFront(b: Bytes, frames: seq<Frame>, k: nat)
    requires k < |frames| && Begins(b, frames)
    ensures var part := Joined(frames[..k]); |part| < |b| && part == b[..|part|] && Seen([], frames, k) == part
  {
    var front := frames[..|frames| - 1];
    JoinedSplits(front, k);
    assert front[..k] == frames[..k];
    assert [] + Joined(frames[..k]) == Joined(frames[..k]);
  }

  /** When all frames but the last make a proper beginning of a sound message, and all of them
      together more than the buffer may hold, the last one is refused. */
  lemma FramesOverrun(m: Message, frames: seq<Frame>)
    requires Encodable(m) && Survives(m) && Begins(EncodeMessage(m), frames) && Used(frames[|frames| - 1])
    requires |Joined(frames)| > PENDING_LIMIT
    ensures Reads(FirstKept, [], frames, |frames| - 1, Overrun)
  {
    var last, p := |frames| - 1, Parcel(m, EncodeMessage(m), Skipped(m));
    FirstKeptIsGenuine();
    MessageIsTaken(FirstKept, m, p);
    EncodedLength(m);
    WaitedAlong(FirstKept, p, frames, last);
    Overruns(FirstKept, [], frames, last, Seen([], frames, last), Joined(frames[..last]));
  }

  /** Bytes cut into frames that the framer lets through. */
  function Chopped(b: Bytes): (frames: seq<Frame>)
    ensures frames != [] && forall f <- frames :: Used(f) && |f.payload| <= MAX_FRAME
  {
    if |b| <= MAX_FRAME then [Frame(b, false, CLIENT_SERVER)]
    else Chopped(b[..|b| - MAX_FRAME]) + [Frame(b[|b| - MAX_FRAME..], false, CLIENT_SERVER)]
  }

  lemma {:induction false} ChoppedJoins(b: Bytes)
    ensures Joined(Chopped(b)) == b
  {
    if |b| <= MAX_FRAME {
      assert [Frame(b, false, CLIENT_SERVER)][..0] == [];
    } else {
      ChoppedJoins(b[..|b| - MAX_FRAME]);
      var front, last := Chopped(b[..|b| - MAX_FRAME]), Frame(b[|b| - MAX_FRAME..], false, CLIENT_SERVER);
      assert (front + [last])[..|front|] == front;
    }
  }

  /** The full message in frames of the usual size, the last one with bytes of what follows. */
  function FullFrames(b: Bytes, more: Bytes): seq<Frame>
    requires |b| == PENDING_LIMIT
  {
    Chopped(b[..TRANSFER_LIMIT]) + [Frame(b[TRANSFER_LIMIT..] + more, false, CLIENT_SERVER)]
  }

  /** A sound message worth keeping, sent in frames that the framer lets through, is lost when
      the frame with its last 24 bytes also carries bytes of what follows it. */
  lemma FullMessageOverruns(data: Bytes, id: U64, more: Bytes)
    requires |data| == TRANSFER_LIMIT - 16 && 0 < |more| <= MAX_FRAME - HEADER
    ensures var m := Message(0x200000, id, Some(Data(data)));
            && Encodable(m) && Survives(m) && !Skipped(m) && |EncodeMessage(m)| == PENDING_LIMIT
            && var frames := FullFrames(EncodeMessage(m), more);
            && (forall f <- frames :: Used(f) && |f.payload| <= MAX_FRAME)
            && Joined(frames) == EncodeMessage(m) + more
            && Reads(FirstKept, [], frames, |frames| - 1, Overrun)
  {
    FullMessage(data, id);
    var m := Message(0x200000, id, Some(Data(data)));
    var b := EncodeMessage(m);
    FullFramesJoin(b, more);
    FramesOverrun(m, FullFrames(b, more));
  }

  lemma FullFramesJoin(b: Bytes, more: Bytes)
    requires |b| == PENDING_LIMIT && |more| <= MAX_FRAME - HEADER
    ensures var frames := FullFrames(b, more);
            && Joined(frames) == b + more && Joined(frames[..|frames| - 1]) == b[..TRANSFER_LIMIT]
            && forall f <- frames :: Used(f) && |f.payload| <= MAX_FRAME
  {
    var front := Chopped(b[..TRANSFER_LIMIT]);
    ChoppedJoins(b[..TRANSFER_LIMIT]);
    assert FullFrames(b, more)[..|front|] == front;
    assert b[..TRANSFER_LIMIT] + (b[TRANSFER_LIMIT..] + more) == b + more;
  }
}
