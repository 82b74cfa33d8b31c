/** When an interleaved secret-file write returns, when it succeeds, and what its target
    shows then. */
module SecretOutcomes {
  import opened Options
  import opened SecretNames
  import opened SecretWriters

  // ----------------------------------------------------------------- calls

  /** The calls that have arrived. */
  function Arrivals(events: seq<Event>): seq<Event> {
    if events == [] then []
    else
      var e := events[|events| - 1];
      Arrivals(events[..|events| - 1]) + if e.Arrive? then [e] else []
  }

  /** The calls of the process are those that arrived, each with its own target and contents
      whatever has happened since. */
  lemma {:induction false} CallsAreArrivals(pid: nat, initial: Files, events: seq<Event>)
    ensures var s := After(pid, initial, events);
            && |s.calls| == |Arrivals(events)|
            && forall i :: 0 <= i < |s.calls| ==>
                 Arrivals(events)[i] == Arrive(s.calls[i].target, s.calls[i].contents)
    decreases |events|
  {
    if events != [] {
      var front := events[..|events| - 1];
      CallsAreArrivals(pid, initial, front);
      StepKeepsCalls(pid, After(pid, initial, front), events[|events| - 1]);
    }
  }

  lemma StepKeepsCalls(pid: nat, s: Process, e: Event)
    ensures var s' := Step(pid, s, e);
            && |s'.calls| == |s.calls| + (if e.Arrive? then 1 else 0)
            && (e.Arrive? ==> s'.calls[|s.calls|] == Call(e.target, e.contents, Begin))
            && forall i :: 0 <= i < |s.calls| ==>
                 && s'.calls[i].target == s.calls[i].target && s'.calls[i].contents == s.calls[i].contents
                 && (!(e.Advance? && e.call == i) ==> s'.calls[i] == s.calls[i])
  {
    if e.Advance? && e.call < |s.calls| {
      OneCallMoves(pid, s, e.call, e.ok, e.amount);
    }
  }

  lemma OneCallMoves(pid: nat, s: Process, i: nat, ok: bool, amount: nat)
    requires i < |s.calls|
    ensures var s' := Advanced(pid, s, i, ok, amount);
            |s'.calls| == |s.calls| && s'.calls == s.calls[i := s.calls[i].(phase := s'.calls[i].phase)]
  {
  }

  // --------------------------------------------------------------- success

  /** The event fails an operation that call i cannot do without: any but the removal of a
      temporary that is not there. */
  predicate Hinders(pid: nat, s: Process, e: Event, i: nat) {
    && e.Advance? && e.call == i && !e.ok && i < |s.calls| && !s.calls[i].phase.Done?
    && (s.calls[i].phase.Named? ==> Temp(pid, s.calls[i]) in s.files)
  }

  /** Some event of the run has hindered the call. */
  predicate Hindered(pid: nat, initial: Files, events: seq<Event>, i: nat) {
    && events != []
    && var front, e := events[..|events| - 1], events[|events| - 1];
       Hindered(pid, initial, front, i) || Hinders(pid, After(pid, initial, front), e, i)
  }

  /** The call has failed or must fail. */
  predicate Doomed(pid: nat, files: Files, call: Call) {
    || call.phase.Failing? || call.phase == Done(false)
    || (call.phase.Cleared? && Temp(pid, call) in files)
  }

  lemma OwnStepDooms(pid: nat, s: Process, e: Event, i: nat)
    requires i < |s.calls| && TempOk(pid, s.files, s.calls[i]) && e.Advance? && e.call == i
    ensures var s' := Step(pid, s, e);
            i < |s'.calls|
            && (Doomed(pid, s'.files, s'.calls[i]) <==> Doomed(pid, s.files, s.calls[i]) || Hinders(pid, s, e, i))
  {
  }

  lemma OtherStepKeepsTemp(pid: nat, targets: iset<Path>, s: Process, s': Process, i: nat, j: nat)
    requires CallsOk(pid, s) && TargetsOk(pid, targets, s) && Effect(pid, s, s', j) && i != j && i < |s.calls|
    ensures s'.calls[i] == s.calls[i]
    ensures s.calls[i].phase.Active() ==>
              Lookup(s'.files, Temp(pid, s.calls[i])) == Lookup(s.files, Temp(pid, s.calls[i]))
  {
    if s.calls[i].phase.Active() {
      TempIsTemp(pid, targets, s.calls[i]);
      if s.calls[j].phase.Active() { TempsDiffer(pid, s, i, j); }
    }
  }

  lemma OtherStepDooms(pid: nat, targets: iset<Path>, initial: Files, s: Process, e: Event, i: nat)
    requires Inv(pid, targets, initial, s) && i < |s.calls| && !(e.Advance? && e.call == i)
    ensures var s' := Step(pid, s, e);
            i < |s'.calls| && (Doomed(pid, s'.files, s'.calls[i]) <==> Doomed(pid, s.files, s.calls[i]))
  {
    if e.Advance? && e.call < |s.calls| {
      AdvanceHasEffect(pid, s, e.call, e.ok, e.amount);
      OtherStepKeepsTemp(pid, targets, s, Step(pid, s, e), i, e.call);
    }
  }

  lemma {:induction false} DoomedExactlyWhenHindered(pid: nat, targets: iset<Path>, initial: Files, events: seq<Event>,
                                                     i: nat)
    requires Separate(pid, targets) && Aims(targets, events) && After(pid, initial, events).counter <= WRAP
    ensures var s := After(pid, initial, events);
            if i < |s.calls| then Doomed(pid, s.files, s.calls[i]) <==> Hindered(pid, initial, events, i)
            else !Hindered(pid, initial, events, i)
    decreases |events|
  {
    if events != [] {
      var front, e := events[..|events| - 1], events[|events| - 1];
      var s := After(pid, initial, front);
      CounterGrows(pid, initial, events);
      RunKeeps(pid, targets, initial, front);
      DoomedExactlyWhenHindered(pid, targets, initial, front, i);
      StepDooms(pid, targets, initial, s, e, i);
    }
  }

  lemma StepDooms(pid: nat, targets: iset<Path>, initial: Files, s: Process, e: Event, i: nat)
    requires Inv(pid, targets, initial, s)
    ensures var s' := Step(pid, s, e);
            && (i < |s.calls| ==> i < |s'.calls|)
            && (i < |s'.calls| ==>
                (Doomed(pid, s'.files, s'.calls[i]) <==>
                 (i < |s.calls| && Doomed(pid, s.files, s.calls[i])) || Hinders(pid, s, e, i)))
  {
    if i >= |s.calls| {
      StepKeepsCalls(pid, s, e);
    } else if e.Advance? && e.call == i {
      assert TempOk(pid, s.files, s.calls[i]);
      OwnStepDooms(pid, s, e, i);
    } else {
      OtherStepDooms(pid, targets, initial, s, e, i);
    }
  }

  /** In every interleaving, a call that has returned has succeeded exactly when none of the
      operations it cannot do without has failed: other calls never make it fail. */
  lemma SucceedsUnlessHindered(pid: nat, targets: iset<Path>, initial: Files, events: seq<Event>, i: nat)
    requires Separate(pid, targets) && Aims(targets, events) && After(pid, initial, events).counter <= WRAP
    requires var s := After(pid, initial, events); i < |s.calls| && s.calls[i].phase.Done?
    ensures After(pid, initial, events).calls[i].phase == Done(true) <==> !Hindered(pid, initial, events, i)
  {
    DoomedExactlyWhenHindered(pid, targets, initial, events, i);
  }

  /** Not one operation of the call failed. */
  predicate Untroubled(events: seq<Event>, i: nat) {
    forall k :: 0 <= k < |events| && events[k].Advance? && events[k].call == i ==> events[k].ok
  }

  lemma {:induction false} UntroubledIsNotHindered(pid: nat, initial: Files, events: seq<Event>, i: nat)
    requires Untroubled(events, i)
    ensures !Hindered(pid, initial, events, i)
    decreases |events|
  {
    if events != [] {
      UntroubledIsNotHindered(pid, initial, events[..|events| - 1], i);
    }
  }

  // ------------------------------------------------------------- returning

  /** An operation of the call that, if it writes, writes something. */
  predicate Strides(s: Process, e: Event, i: nat) {
    e.Advance? && e.call == i && e.amount > 0 && i < |s.calls|
  }

  function StrideCount(pid: nat, initial: Files, events: seq<Event>, i: nat): nat {
    if events == [] then 0
    else
      var front := events[..|events| - 1];
      StrideCount(pid, initial, front, i)
      + if Strides(After(pid, initial, front), events[|events| - 1], i) then 1 else 0
  }

  /** How many operations a call may still need. */
  function OpsLeft(call: Call): nat {
    match call.phase
    case Begin => |call.contents| + 6
    case Named(_) => |call.contents| + 5
    case Cleared(_) => |call.contents| + 4
    case Writing(_, done) => 3 + if done <= |call.contents| then |call.contents| - done else 0
    case Synced(_) => 2
    case Failing(_) => 1
    case Done(_) => 0
  }

  lemma StepTakesOne(pid: nat, s: Process, e: Event, i: nat)
    requires i < |s.calls|
    ensures var s' := Step(pid, s, e);
            && i < |s'.calls| && s'.calls[i].contents == s.calls[i].contents
            && OpsLeft(s'.calls[i]) <= OpsLeft(s.calls[i])
            && (Strides(s, e, i) && !s.calls[i].phase.Done? ==> OpsLeft(s'.calls[i]) < OpsLeft(s.calls[i]))
  {
    StepKeepsCalls(pid, s, e);
    if e.Advance? && e.call == i {
      OwnStepTakesOne(pid, s, i, e.ok, e.amount);
    }
  }

  lemma OwnStepTakesOne(pid: nat, s: Process, i: nat, ok: bool, amount: nat)
    requires i < |s.calls|
    ensures var call' := Advanced(pid, s, i, ok, amount).calls[i];
            && OpsLeft(call') <= OpsLeft(s.calls[i])
            && (amount > 0 && !s.calls[i].phase.Done? ==> OpsLeft(call') < OpsLeft(s.calls[i]))
  {
  }

  lemma {:induction false} StridesAreCounted(pid: nat, initial: Files, events: seq<Event>, i: nat)
    ensures var s := After(pid, initial, events);
            var n := StrideCount(pid, initial, events, i);
            if i < |s.calls| then s.calls[i].phase.Done? || n + OpsLeft(s.calls[i]) <= |s.calls[i].contents| + 6
            else n == 0
    decreases |events|
  {
    if events != [] {
      var front := events[..|events| - 1];
      StridesAreCounted(pid, initial, front, i);
      if i < |After(pid, initial, front).calls| {
        StepTakesOne(pid, After(pid, initial, front), events[|events| - 1], i);
      }
    }
  }

  /** A call returns after at most six operations and one for each byte, whatever other calls
      do and whichever operations fail. */
  lemma Returns(pid: nat, initial: Files, events: seq<Event>, i: nat)
    requires var s := After(pid, initial, events);
             i < |s.calls| && StrideCount(pid, initial, events, i) >= |s.calls[i].contents| + 6
    ensures After(pid, initial, events).calls[i].phase.Done?
  {
    StridesAreCounted(pid, initial, events, i);
  }

  // --------------------------------------------------------------- showing

  lemma {:induction false} ExpectedFromLast(initial: Files, calls: seq<Call>, committed: seq<nat>, k: nat)
    requires forall j :: 0 <= j < |committed| ==> committed[j] < |calls|
    requires k < |committed|
    requires forall j :: k < j < |committed| ==> calls[committed[j]].target != calls[committed[k]].target
    ensures Expected(initial, calls, committed, calls[committed[k]].target) == Some(calls[committed[k]].contents)
    decreases |committed|
  {
    if k < |committed| - 1 {
      ExpectedFromLast(initial, calls, committed[..|committed| - 1], k);
    }
  }

  /** The call is the last for its target whose rename took effect. */
  predicate LatestCommit(s: Process, i: nat)
    requires CommitsOk(s)
  {
    exists k :: 0 <= k < |s.committed| && s.committed[k] == i
                && forall j :: k < j < |s.committed| ==> s.calls[s.committed[j]].target != s.calls[i].target
  }

  /** A call none of whose operations failed, and that was given enough of them, has
      succeeded; and as long as no later call for its target has taken effect, the target
      holds exactly its contents. */
  lemma UntroubledWriteIsShown(pid: nat, targets: iset<Path>, initial: Files, events: seq<Event>, i: nat)
    requires Separate(pid, targets) && Aims(targets, events) && After(pid, initial, events).counter <= WRAP
    requires var s := After(pid, initial, events);
             i < |s.calls| && StrideCount(pid, initial, events, i) >= |s.calls[i].contents| + 6
    requires Untroubled(events, i)
    ensures var s := After(pid, initial, events);
            && s.calls[i].phase == Done(true) && CommitsOk(s) && i in s.committed
            && (LatestCommit(s, i) ==> Lookup(s.files, s.calls[i].target) == Some(s.calls[i].contents))
  {
    Returns(pid, initial, events, i);
    UntroubledIsNotHindered(pid, initial, events, i);
    SucceedsUnlessHindered(pid, targets, initial, events, i);
    RunKeeps(pid, targets, initial, events);
    var s := After(pid, initial, events);
    if LatestCommit(s, i) {
      LatestIsShown(pid, targets, initial, s, i);
    }
  }

  lemma LatestIsShown(pid: nat, targets: iset<Path>, initial: Files, s: Process, i: nat)
    requires Inv(pid, targets, initial, s) && i < |s.calls| && LatestCommit(s, i)
    ensures Lookup(s.files, s.calls[i].target) == Some(s.calls[i].contents)
  {
    var k :| 0 <= k < |s.committed| && s.committed[k] == i
             && forall j :: k < j < |s.committed| ==> s.calls[s.committed[j]].target != s.calls[i].target;
    ExpectedFromLast(initial, s.calls, s.committed, k);
    assert !TempOf(pid, targets, s.calls[i].target);
  }
}
