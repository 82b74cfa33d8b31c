/** Taking XPC messages off a buffer of bytes, and what a run of sent messages reads as. */
module XpcBuffer {
  import opened Options
  import opened XpcValues
  import opened XpcWire
  import opened XpcStream

  /** What taking a message from some bytes gives, with the bytes that stay behind. */
  datatype Taken =
    | Waiting(rest: Bytes)
    | Failed(rest: Bytes)
    | Ready(message: Message, rest: Bytes)

  function Extended(t: Taken, more: Bytes): Taken {
    t.(rest := t.rest + more)
  }

  /** The length of the message the bytes begin with, going by its header; none when the
      header declares more than its flags allow. */
  function Extent(p: Bytes): (r: Option<nat>)
    requires |p| >= HEADER
    ensures r.Some? ==> HEADER <= r.value <= PENDING_LIMIT
  {
    if ReadU64(p[8..]) > Limit(ReadFlags(p)) then None else Some(HEADER + ReadU64(p[8..]))
  }

  function Next(p: Bytes): Taken {
    if |p| < HEADER then Waiting(p)
    else
      match Extent(p)
      case None => Failed(p)
      case Some(n) =>
        if |p| < n then Waiting(p)
        else
          match DecodeMessage(p[..n])
          case None => Failed(p[n..])
          case Some(m) => Ready(m, p[n..])
  }

  /** The messages the restore client passes over: a file-transfer request, no body, or an
      empty dictionary. */
  predicate Skipped(m: Message) {
    || m.flags / 0x100000 % 2 != 0
    || m.body.None?
    || m.body == Some(Dict([]))
  }

  /** The first message that is not passed over. */
  function FirstKept(p: Bytes): Taken
    decreases |p|
  {
    var t := Next(p);
    if t.Ready? && Skipped(t.message) then FirstKept(t.rest) else t
  }

  // ---------------------------------------------------- more bytes to come

  lemma HeaderStays(p: Bytes, more: Bytes)
    requires |p| >= HEADER
    ensures Extent(p + more) == Extent(p)
  {
    var b := p + more;
    assert b[4..] == p[4..] + more;
    assert b[8..] == p[8..] + more;
    assert b[8..][4..] == p[8..][4..] + more;
    SameStart(p[4..], more);
    SameStart(p[8..], more);
    SameStart(p[8..][4..], more);
  }

  lemma SameStart(p: Bytes, more: Bytes)
    requires |p| >= 4
    ensures ReadU32(p + more) == ReadU32(p)
  {
    assert forall i :: 0 <= i < 4 ==> (p + more)[i] == p[i];
  }

  /** Once decided, never changed by what arrives later. */
  lemma NextIsSettled(p: Bytes, more: Bytes)
    ensures !Next(p).Waiting? ==> Next(p + more) == Extended(Next(p), more)
    ensures Next(p).Waiting? ==> Next(p).rest == p
  {
    if |p| >= HEADER {
      HeaderStays(p, more);
      match Extent(p)
      case None =>
      case Some(n) =>
        if n <= |p| {
          assert (p + more)[..n] == p[..n];
          assert (p + more)[n..] == p[n..] + more;
        }
    }
  }

  /** Reading what has arrived and reading on later is reading everything at once. */
  lemma {:induction false} FirstKeptOfMore(p: Bytes, more: Bytes)
    ensures FirstKept(p + more) ==
            if FirstKept(p).Waiting? then FirstKept(FirstKept(p).rest + more) else Extended(FirstKept(p), more)
    decreases |p|
  {
    NextIsSettled(p, more);
    var t := Next(p);
    if t.Ready? && Skipped(t.message) {
      FirstKeptOfMore(t.rest, more);
    }
  }

  /** What waits is shorter than the longest message its flags allow, so one more byte is
      never refused. */
  lemma {:induction false} WaitingIsShort(p: Bytes)
    requires FirstKept(p).Waiting?
    ensures var rest := FirstKept(p).rest;
            && |rest| < PENDING_LIMIT
            && (|rest| >= HEADER ==> |rest| < HEADER + Limit(ReadFlags(rest)))
    decreases |p|
  {
    var t := Next(p);
    if t.Ready? {
      WaitingIsShort(t.rest);
    }
  }

  // -------------------------------------------------------- what was sent

  /** Every message can be encoded and arrives as it was sent. */
  predicate AllSurvive(ms: seq<Message>) {
    ms == [] || (Encodable(ms[0]) && Survives(ms[0]) && AllSurvive(ms[1..]))
  }

  function EncodeAll(ms: seq<Message>): Bytes
    requires AllSurvive(ms)
  {
    if ms == [] then [] else EncodeMessage(ms[0]) + EncodeAll(ms[1..])
  }

  /** The messages from the first one worth keeping on. */
  function FromKept(ms: seq<Message>): (r: seq<Message>)
    ensures AllSurvive(ms) ==> AllSurvive(r)
  {
    if ms == [] || !Skipped(ms[0]) then ms else FromKept(ms[1..])
  }

  lemma NextIsFirstSent(m: Message, more: Bytes)
    requires Encodable(m) && Survives(m)
    ensures Next(EncodeMessage(m) + more) == Ready(m, more)
  {
    var b := EncodeMessage(m);
    HeaderBack(m, more);
    assert (b + more)[..|b|] == b;
    assert (b + more)[|b|..] == more;
    MessageRoundTrip(m, []);
    assert b + [] == b;
  }

  /** One message off the front. */
  lemma FirstKeptSteps(p: Bytes, m: Message, rest: Bytes)
    requires Next(p) == Ready(m, rest)
    ensures FirstKept(p) == if Skipped(m) then FirstKept(rest) else Ready(m, rest)
  {
  }

  lemma FirstOfAll(ms: seq<Message>, more: Bytes)
    requires ms != [] && AllSurvive(ms)
    ensures var tail := EncodeAll(ms[1..]) + more;
            FirstKept(EncodeAll(ms) + more) == if Skipped(ms[0]) then FirstKept(tail) else Ready(ms[0], tail)
  {
    var tail := EncodeAll(ms[1..]) + more;
    assert EncodeAll(ms) + more == EncodeMessage(ms[0]) + tail;
    NextIsFirstSent(ms[0], tail);
    FirstKeptSteps(EncodeMessage(ms[0]) + tail, ms[0], tail);
  }

  /** The reader gets exactly the first message worth keeping, with exactly what was sent
      after it; when there is none it reads on in what follows. */
  lemma {:induction false} FirstKeptIsFirstSent(ms: seq<Message>, more: Bytes)
    requires AllSurvive(ms)
    ensures var kept := FromKept(ms);
            FirstKept(EncodeAll(ms) + more) ==
            if kept == [] then FirstKept(more) else Ready(kept[0], EncodeAll(kept[1..]) + more)
  {
    if ms == [] {
      assert EncodeAll(ms) + more == more;
    } else {
      FirstOfAll(ms, more);
      if Skipped(ms[0]) { FirstKeptIsFirstSent(ms[1..], more); }
    }
  }

  /** The flags with bit 20, which announces a file transfer, written apart. */
  predicate Composed(flags: nat, high: nat, bit: nat, low: nat) {
    low < 0x10_0000 && bit < 2 && flags == high * 0x20_0000 + bit * 0x10_0000 + low
  }

  ghost predicate OpensFile(flags: nat) {
    exists high: nat, low: nat :: Composed(flags, high, 1, low)
  }

  lemma BitIs(flags: nat, high: nat, bit: nat, low: nat)
    requires Composed(flags, high, bit, low)
    ensures flags / 0x10_0000 % 2 == bit
  {
    assert flags / 0x10_0000 == high * 2 + bit;
  }

  lemma OpensFileByBit(flags: nat)
    ensures OpensFile(flags) <==> flags / 0x10_0000 % 2 != 0
  {
    if high: nat, low: nat :| Composed(flags, high, 1, low) {
      BitIs(flags, high, 1, low);
    }
    var upper, low := flags / 0x10_0000, flags % 0x10_0000;
    assert Composed(flags, upper / 2, upper % 2, low);
  }

  /** Nothing for the caller in it. */
  ghost predicate Housekeeping(m: Message) {
    OpensFile(m.flags) || m.body.None? || m.body == Some(Dict([]))
  }

  /** Whatever number of file announcements, bodyless messages and empty dictionaries comes
      first, the reader passes over them all, and over nothing else. */
  lemma {:induction false} HousekeepingIsPassedOver(ms: seq<Message>, m: Message, more: Bytes)
    requires AllSurvive(ms) && (forall i :: 0 <= i < |ms| ==> Housekeeping(ms[i]))
    requires Encodable(m) && Survives(m) && !Housekeeping(m)
    ensures FirstKept(EncodeAll(ms) + (EncodeMessage(m) + more)) == Ready(m, more)
  {
    var tail := EncodeMessage(m) + more;
    if ms == [] {
      assert EncodeAll(ms) + tail == tail;
      NextIsFirstSent(m, more);
      OpensFileByBit(m.flags);
      FirstKeptSteps(tail, m, more);
    } else {
      FirstOfAll(ms, tail);
      OpensFileByBit(ms[0].flags);
      HousekeepingIsPassedOver(ms[1..], m, more);
    }
  }

  lemma EncodedLength(m: Message)
    requires Encodable(m)
    ensures |EncodeMessage(m)| == HEADER + |BodyBytes(m)|
  {
  }

  /** An encoded message cut short is waited for. */
  lemma CutMessageWaits(m: Message, k: nat)
    requires Encodable(m) && Survives(m) && k < |EncodeMessage(m)|
    ensures FirstKept(EncodeMessage(m)[..k]) == Waiting(EncodeMessage(m)[..k])
  {
    var b := EncodeMessage(m);
    var p := b[..k];
    if |p| >= HEADER {
      assert p + b[k..] == b;
      HeaderStays(p, b[k..]);
      HeaderBack(m, []);
      assert b + [] == b;
    }
  }

  // ------------------------------------------------------------ the buffer

  class XpcMessageBuffer {
    var pending: Bytes

    constructor ()
      ensures pending == []
    {
      pending := [];
    }

    method Push(bytes: Bytes) returns (ok: bool)
      modifies this
      ensures ok <==> |old(pending)| + |bytes| <= PENDING_LIMIT
      ensures pending == if ok then old(pending) + bytes else old(pending)
    {
      ok := |pending| + |bytes| <= PENDING_LIMIT;
      if ok {
        pending := pending + bytes;
      }
    }

    method TryNext() returns (r: Result<Option<Message>, ()>)
      modifies this
      ensures pending == Next(old(pending)).rest
      ensures match Next(old(pending))
              case Waiting(_) => r == Ok(None)
              case Failed(_) => r == Err(())
              case Ready(m, _) => r == Ok(Some(m))
    {
      if |pending| < HEADER { return Ok(None); }
      var declared, flags := ReadU64(pending[8..]), ReadFlags(pending);
      if declared > Limit(flags) { return Err(()); }
      var total := HEADER + declared;
      if |pending| < total { return Ok(None); }
      var payload := pending[..total];
      pending := pending[total..];
      match DecodeMessage(payload)
      case None => return Err(());
      case Some(m) => return Ok(Some(m));
    }
  }
}
