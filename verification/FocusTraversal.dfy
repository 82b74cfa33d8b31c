/** Listing focusable elements by moving the focus until it comes round, a limit is
    reached or the device stays silent. */
module FocusTraversal {
  import opened Options

  const MAX_CONSECUTIVE_TIMEOUTS: nat := 5

  datatype Focus = Focus(id: string, caption: string)

  datatype Event = Focused(focus: Focus) | Silent | Broken

  datatype Error = TimedOut | Disconnected

  class Traversal {
    var items: seq<Focus>
    var seen: set<string>
    var timeouts: nat

    ghost predicate Valid()
      reads this
    {
      seen == Ids(items)
    }

    constructor ()
      ensures Valid() && items == [] && timeouts == 0
    {
      items, seen, timeouts := [], {}, 0;
    }

    /** Records an element, unless one with its id was recorded before. */
    method RecordFocus(focus: Focus) returns (added: bool)
      requires Valid()
      modifies this
      ensures Valid() && timeouts == 0
      ensures added == (focus.id !in Ids(old(items)))
      ensures items == if added then old(items) + [focus] else old(items)
    {
      timeouts := 0;
      if focus.id in seen {
        return false;
      }
      seen := seen + {focus.id};
      items := items + [focus];
      added := true;
      assert focus in items && forall f :: f in items <==> f in old(items) || f == focus;
    }

    method RecordTimeout() returns (more: bool)
      modifies this`timeouts
      ensures timeouts == old(timeouts) + 1 && more == (timeouts < MAX_CONSECUTIVE_TIMEOUTS)
    {
      timeouts := timeouts + 1;
      more := timeouts < MAX_CONSECUTIVE_TIMEOUTS;
    }
  }

  predicate DistinctIds(items: seq<Focus>) {
    forall i, j :: 0 <= i < j < |items| ==> items[i].id != items[j].id
  }

  function Ids(items: seq<Focus>): set<string> {
    set f | f in items :: f.id
  }

  /** The elements observed in the first n waits, after the one found while preparing. */
  function Observed(first: Option<Focus>, events: nat -> Event, n: nat): seq<Focus> {
    if n == 0 then (if first.Some? then [first.value] else [])
    else
      var before := Observed(first, events, n - 1);
      if events(n - 1).Focused? then before + [events(n - 1).focus] else before
  }

  /** The longest beginning in which no id comes twice. */
  function FreshPrefix(observed: seq<Focus>): seq<Focus> {
    if observed == [] then []
    else
      var front, last := observed[..|observed| - 1], observed[|observed| - 1];
      var clean := FreshPrefix(front);
      if |clean| < |front| || last.id in Ids(clean) then clean else clean + [last]
  }

  lemma AppendKeepsDistinct(items: seq<Focus>, f: Focus)
    requires DistinctIds(items)
    ensures DistinctIds(items + [f]) <==> f.id !in Ids(items)
  {
    var longer := items + [f];
    if f.id in Ids(items) {
      var g :| g in items && g.id == f.id;
      var i :| 0 <= i < |items| && items[i] == g;
      assert longer[i].id == longer[|items|].id;
    } else {
      forall i, j | 0 <= i < j < |longer| ensures longer[i].id != longer[j].id {
        assert longer[i] == items[i] && items[i] in items;
      }
    }
  }

  /** It is a beginning without repetition, and one element more would repeat one. */
  lemma {:induction false} FreshPrefixIsLongest(observed: seq<Focus>)
    ensures FreshPrefix(observed) <= observed && DistinctIds(FreshPrefix(observed))
    ensures var n := |FreshPrefix(observed)|; n < |observed| ==> !DistinctIds(observed[..n + 1])
    decreases |observed|
  {
    if observed != [] {
      var front, last := observed[..|observed| - 1], observed[|observed| - 1];
      var clean := FreshPrefix(front);
      FreshPrefixIsLongest(front);
      assert observed == front + [last];
      if |clean| < |front| {
        assert front[..|clean| + 1] == observed[..|clean| + 1];
      } else {
        assert clean == front && observed[..|clean| + 1] == observed;
        AppendKeepsDistinct(clean, last);
      }
    }
  }

  lemma {:induction false} FreshOfDistinct(observed: seq<Focus>)
    requires DistinctIds(observed)
    ensures FreshPrefix(observed) == observed
  {
    FreshPrefixIsLongest(observed);
    var n := |FreshPrefix(observed)|;
    assert n < |observed| ==> DistinctIds(observed[..n + 1]);
  }

  lemma FreshOfRepetition(items: seq<Focus>, f: Focus)
    requires DistinctIds(items) && f.id in Ids(items)
    ensures FreshPrefix(items + [f]) == items
  {
    FreshOfDistinct(items);
    assert (items + [f])[..|items|] == items;
  }

  /** How many of the last waits were silent. */
  function Silence(events: nat -> Event, n: nat): nat {
    if n == 0 || !events(n - 1).Silent? then 0 else Silence(events, n - 1) + 1
  }

  /** Why the loop ended after n waits. */
  predicate Ended(first: Option<Focus>, events: nat -> Event, limit: nat, n: nat) {
    || |Observed(first, events, n)| >= limit
    || !DistinctIds(Observed(first, events, n))
    || Silence(events, n) == MAX_CONSECUTIVE_TIMEOUTS
  }

  /** Nothing stopped the loop in its first n waits: no reason to end had come up, and the
      connection had held. */
  predicate GoingOn(first: Option<Focus>, events: nat -> Event, moves: nat -> bool, limit: nat, n: nat) {
    n == 0 ||
    (&& GoingOn(first, events, moves, limit, n - 1) && !Ended(first, events, limit, n - 1)
     && moves(n - 1) && (n > 1 ==> !events(n - 2).Broken?))
  }

  /** The last wait failed, or it ended nothing and the move after it failed; the first move
      is made in any case. */
  predicate Lost(first: Option<Focus>, events: nat -> Event, moves: nat -> bool, limit: nat, n: nat) {
    (n > 0 && events(n - 1).Broken?) || (!moves(n) && (n == 0 || !Ended(first, events, limit, n)))
  }

  /** An answer given after n waits: the longest repetition-free beginning of what was
      observed, a time-out with nothing observed, or a lost connection. */
  predicate Answers(r: Result<seq<Focus>, Error>, first: Option<Focus>, events: nat -> Event, moves: nat -> bool,
                    limit: nat, n: nat) {
    GoingOn(first, events, moves, limit, n) &&
    match r
    case Ok(items) =>
      && items == FreshPrefix(Observed(first, events, n)) && 0 < |items| <= limit
      && Ended(first, events, limit, n) && !Lost(first, events, moves, limit, n)
    case Err(TimedOut) =>
      && Observed(first, events, n) == [] && Silence(events, n) == MAX_CONSECUTIVE_TIMEOUTS
      && !Lost(first, events, moves, limit, n)
    case Err(Disconnected) => Lost(first, events, moves, limit, n)
  }

  lemma {:induction false} WentOnBefore(first: Option<Focus>, events: nat -> Event, moves: nat -> bool, limit: nat,
                                        m: nat, n: nat)
    requires m < n && GoingOn(first, events, moves, limit, n)
    ensures GoingOn(first, events, moves, limit, m + 1)
    decreases n
  {
    if m + 1 < n {
      WentOnBefore(first, events, moves, limit, m, n - 1);
    }
  }

  lemma NoAnswerBefore(r: Result<seq<Focus>, Error>, first: Option<Focus>, events: nat -> Event, moves: nat -> bool,
                       limit: nat, m: nat, n: nat)
    requires m < n && Answers(r, first, events, moves, limit, m)
    ensures !GoingOn(first, events, moves, limit, n)
  {
    if GoingOn(first, events, moves, limit, n) {
      WentOnBefore(first, events, moves, limit, m, n);
    }
  }

  /** What the device does determines the answer and the number of waits. */
  lemma AnswerIsDetermined(r: Result<seq<Focus>, Error>, m: nat, r': Result<seq<Focus>, Error>, n: nat,
                           first: Option<Focus>, events: nat -> Event, moves: nat -> bool, limit: nat)
    requires Answers(r, first, events, moves, limit, m) && Answers(r', first, events, moves, limit, n)
    ensures m == n && r == r'
  {
    if m < n {
      NoAnswerBefore(r, first, events, moves, limit, m, n);
    } else if n < m {
      NoAnswerBefore(r', first, events, moves, limit, n, m);
    }
  }

  /** The device shows these elements one after the other, and then the first of them again. */
  ghost predicate ComesRound(events: nat -> Event, ring: seq<Focus>) {
    && ring != []
    && (forall i {:trigger ring[i]} :: 0 <= i < |ring| ==> events(i) == Focused(ring[i]))
    && events(|ring|) == Focused(ring[0])
  }

  lemma {:induction false} ObservedRing(events: nat -> Event, ring: seq<Focus>, n: nat)
    requires ComesRound(events, ring) && n <= |ring|
    ensures Observed(None, events, n) == ring[..n] && Silence(events, n) == 0
  {
    if n > 0 {
      ObservedRing(events, ring, n - 1);
      assert events(n - 1) == Focused(ring[n - 1]);
    }
  }

  lemma RoundAgain(events: nat -> Event, ring: seq<Focus>)
    requires ComesRound(events, ring)
    ensures Observed(None, events, |ring| + 1) == ring + [ring[0]] && Silence(events, |ring| + 1) == 0
    ensures !DistinctIds(ring + [ring[0]])
  {
    ObservedRing(events, ring, |ring|);
    assert ring[..|ring|] == ring;
    assert (ring + [ring[0]])[0].id == (ring + [ring[0]])[|ring|].id;
  }

  lemma {:induction false} RingGoesOn(events: nat -> Event, moves: nat -> bool, limit: nat, ring: seq<Focus>, n: nat)
    requires ComesRound(events, ring) && DistinctIds(ring) && forall k :: moves(k)
    requires n <= limit && n <= |ring| + 1
    ensures GoingOn(None, events, moves, limit, n)
  {
    if n > 0 {
      RingGoesOn(events, moves, limit, ring, n - 1);
      ObservedRing(events, ring, n - 1);
      if n > 1 { assert events(n - 2) == Focused(ring[n - 2]); }
    }
  }

  lemma RingAtLimit(events: nat -> Event, moves: nat -> bool, limit: nat, ring: seq<Focus>)
    requires ComesRound(events, ring) && DistinctIds(ring) && 0 < limit <= |ring| && forall k :: moves(k)
    ensures Answers(Ok(ring[..limit]), None, events, moves, limit, limit)
  {
    RingGoesOn(events, moves, limit, ring, limit);
    ObservedRing(events, ring, limit);
    assert events(limit - 1) == Focused(ring[limit - 1]);
    FullAtLimit(None, events, moves, limit, limit, ring[..limit]);
  }

  lemma FullAtLimit(first: Option<Focus>, events: nat -> Event, moves: nat -> bool, limit: nat, n: nat,
                    items: seq<Focus>)
    requires GoingOn(first, events, moves, limit, n) && Observed(first, events, n) == items && DistinctIds(items)
    requires |items| == limit > 0 && n > 0 && !events(n - 1).Broken?
    ensures Answers(Ok(items), first, events, moves, limit, n)
  {
    FreshOfDistinct(items);
  }

  lemma RingOnceRound(events: nat -> Event, moves: nat -> bool, limit: nat, ring: seq<Focus>)
    requires ComesRound(events, ring) && DistinctIds(ring) && |ring| < limit && forall k :: moves(k)
    ensures Answers(Ok(ring), None, events, moves, limit, |ring| + 1)
  {
    RingGoesOn(events, moves, limit, ring, |ring| + 1);
    RoundAgain(events, ring);
    FreshOfRepetition(ring, ring[0]);
  }

  /** A ring of different elements is listed once round, in order, up to the limit: whatever
      answer is given, it is this one. */
  lemma RingIsListed(r: Result<seq<Focus>, Error>, events: nat -> Event, moves: nat -> bool, limit: nat, n: nat,
                     ring: seq<Focus>)
    requires ComesRound(events, ring) && DistinctIds(ring) && limit > 0 && forall k :: moves(k)
    requires Answers(r, None, events, moves, limit, n)
    ensures if limit <= |ring| then r == Ok(ring[..limit]) && n == limit else r == Ok(ring) && n == |ring| + 1
  {
    if limit <= |ring| {
      RingAtLimit(events, moves, limit, ring);
      AnswerIsDetermined(r, n, Ok(ring[..limit]), limit, None, events, moves, limit);
    } else {
      RingOnceRound(events, moves, limit, ring);
      AnswerIsDetermined(r, n, Ok(ring), |ring| + 1, None, events, moves, limit);
    }
  }

  /** The loop. It waits at most five times per element still wanted; what it collects is
      the longest repetition-free beginning of what it observed, and it ends at the limit,
      at a repetition, or after five silent waits in a row, whichever comes first, reporting
      a time-out exactly when it then has nothing and a lost connection exactly when a wait
      or a move failed before that. */
  method ListItems(first: Option<Focus>, limit: nat, events: nat -> Event, moves: nat -> bool)
    returns (r: Result<seq<Focus>, Error>, waits: nat)
    ensures waits <= 5 * limit
    ensures limit == 0 ==> r == Ok([])
    ensures limit > 0 ==> Answers(r, first, events, moves, limit, waits)
  {
    var traversal := new Traversal();
    if limit == 0 {
      return Ok([]), 0;
    }
    if first.Some? {
      var added := traversal.RecordFocus(first.value);
    }
    if !moves(0) {
      return Err(Disconnected), 0;
    }
    r, waits := Traverse(traversal, first, limit, events, moves);
  }

  /** After n waits the loop has recorded all it observed, and goes on unless it has enough. */
  ghost predicate Running(t: Traversal, first: Option<Focus>, events: nat -> Event, moves: nat -> bool, limit: nat,
                          n: nat)
    reads t
  {
    && GoingOn(first, events, moves, limit, n)
    && t.Valid() && t.items == Observed(first, events, n) && DistinctIds(t.items)
    && t.timeouts == Silence(events, n) < MAX_CONSECUTIVE_TIMEOUTS
    && |t.items| <= limit && n <= 5 * |t.items| + t.timeouts
    && (|t.items| == limit ==> t.timeouts == 0)
    && (n > 0 ==> !events(n - 1).Broken?) && (|t.items| < limit || n == 0 ==> moves(n))
  }

  method Traverse(traversal: Traversal, ghost first: Option<Focus>, limit: nat, events: nat -> Event,
                  moves: nat -> bool)
    returns (r: Result<seq<Focus>, Error>, waits: nat)
    requires limit > 0 && Running(traversal, first, events, moves, limit, 0)
    modifies traversal
    ensures waits <= 5 * limit
    ensures Answers(r, first, events, moves, limit, waits)
  {
    waits := 0;
    while |traversal.items| < limit
      invariant Running(traversal, first, events, moves, limit, waits)
      decreases 5 * (limit - |traversal.items|) - traversal.timeouts
    {
      var answer := WaitOnce(traversal, first, limit, events, moves, waits);
      waits := waits + 1;
      if answer.Some? {
        return answer.value, waits;
      }
    }
    r := Ok(traversal.items);
    Enough(traversal, first, events, moves, limit, waits);
  }

  lemma Enough(t: Traversal, first: Option<Focus>, events: nat -> Event, moves: nat -> bool, limit: nat, n: nat)
    requires limit > 0 && Running(t, first, events, moves, limit, n) && |t.items| == limit
    ensures Answers(Ok(t.items), first, events, moves, limit, n) && n <= 5 * limit
  {
    FreshOfDistinct(t.items);
  }

  lemma GoesOn(t: Traversal, first: Option<Focus>, events: nat -> Event, moves: nat -> bool, limit: nat, n: nat)
    requires Running(t, first, events, moves, limit, n) && |t.items| < limit
    ensures GoingOn(first, events, moves, limit, n + 1)
  {
  }

  /** A repetition or the fifth silent wait in a row is answered with what there is. */
  lemma StopsHere(first: Option<Focus>, events: nat -> Event, moves: nat -> bool, limit: nat, n: nat, items: seq<Focus>)
    requires GoingOn(first, events, moves, limit, n + 1) && |items| < limit
    requires items == Observed(first, events, n) && DistinctIds(items)
    requires || (events(n).Focused? && events(n).focus.id in Ids(items))
             || (events(n).Silent? && Silence(events, n) + 1 == MAX_CONSECUTIVE_TIMEOUTS)
    ensures Answers(if items == [] then Err(TimedOut) else Ok(items), first, events, moves, limit, n + 1)
  {
    if events(n).Focused? {
      AppendKeepsDistinct(items, events(n).focus);
      FreshOfRepetition(items, events(n).focus);
    } else {
      FreshOfDistinct(items);
    }
  }

  /** One round: wait, record, and move on unless the traversal is over. */
  method WaitOnce(traversal: Traversal, ghost first: Option<Focus>, limit: nat, events: nat -> Event,
                  moves: nat -> bool, waits: nat)
    returns (answer: Option<Result<seq<Focus>, Error>>)
    requires Running(traversal, first, events, moves, limit, waits) && |traversal.items| < limit
    modifies traversal
    ensures answer.None? ==> Running(traversal, first, events, moves, limit, waits + 1)
    ensures answer.None? && |traversal.items| == |old(traversal.items)| ==>
              traversal.timeouts == old(traversal.timeouts) + 1
    ensures answer.None? && |traversal.items| != |old(traversal.items)| ==>
              |traversal.items| == |old(traversal.items)| + 1
    ensures answer.Some? ==> Answers(answer.value, first, events, moves, limit, waits + 1) && waits + 1 <= 5 * limit
  {
    GoesOn(traversal, first, events, moves, limit, waits);
    var e := events(waits);
    if e.Broken? {
      return Some(Err(Disconnected));
    }
    ghost var items := traversal.items;
    var go := Take(traversal, e);
    if !go {
      StopsHere(first, events, moves, limit, waits, items);
      return Some(if traversal.items == [] then Err(TimedOut) else Ok(traversal.items));
    }
    if e.Focused? {
      AppendKeepsDistinct(items, e.focus);
    }
    if |traversal.items| < limit && !moves(waits + 1) {
      return Some(Err(Disconnected));
    }
    return None;
  }

  /** Records what one wait brought; false means that the traversal is over. */
  method Take(traversal: Traversal, e: Event) returns (go: bool)
    requires traversal.Valid() && !e.Broken?
    modifies traversal
    ensures traversal.Valid()
    ensures e.Focused? ==> go == (e.focus.id !in Ids(old(traversal.items))) && traversal.timeouts == 0
    ensures e.Silent? ==> traversal.timeouts == old(traversal.timeouts) + 1
                          && go == (traversal.timeouts < MAX_CONSECUTIVE_TIMEOUTS)
    ensures traversal.items == if e.Focused? && go then old(traversal.items) + [e.focus] else old(traversal.items)
  {
    match e
    case Focused(focus) => go := traversal.RecordFocus(focus);
    case Silent => go := traversal.RecordTimeout();
  }
}
