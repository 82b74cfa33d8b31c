/** Any number of interleaved secret-file writes in one Unix process, one file-system
    operation at a time, every operation allowed to fail. */
module SecretWriters {
  import opened Options
  import opened SecretNames

  type Bytes = seq<bv8>
  type Files = map<Path, Bytes>

  /** How far a call has come; `draw` is the number it drew from the shared counter. */
  datatype Phase =
    | Begin
    | Named(draw: nat)
    | Cleared(draw: nat)
    | Writing(draw: nat, done: nat)
    | Synced(draw: nat)
    | Failing(draw: nat)
    | Done(ok: bool)
  {
    predicate Active() {
      !Begin? && !Done?
    }
  }

  datatype Call = Call(target: Path, contents: Bytes, phase: Phase)

  /** The process: its files, the counter, the calls so far, the calls whose rename took
      effect in that order, and the temporaries whose removal failed. */
  datatype Process = Process(files: Files, counter: nat, calls: seq<Call>, committed: seq<nat>, orphans: set<Path>)

  /** Either a new call arrives, or a call performs its next operation, which succeeds or
      not; a write that succeeds takes some of the bytes left. */
  datatype Event = Arrive(target: Path, contents: Bytes) | Advance(call: nat, ok: bool, amount: nat)

  function Temp(pid: nat, call: Call): Path
    requires call.phase.Active()
  {
    TempPath(call.target, pid, call.phase.draw)
  }

  function Removed(files: Files, path: Path, ok: bool): Files {
    if ok then files - {path} else files
  }

  function SetPhase(s: Process, i: nat, phase: Phase): Process
    requires i < |s.calls|
  {
    s.(calls := s.calls[i := s.calls[i].(phase := phase)])
  }

  /** The next operation of one call. */
  function Advanced(pid: nat, s: Process, i: nat, ok: bool, amount: nat): Process
    requires i < |s.calls|
  {
    var call := s.calls[i];
    match call.phase
    case Begin =>
      if ok then SetPhase(s, i, Named(s.counter)).(counter := s.counter + 1) else SetPhase(s, i, Done(false))
    case Named(draw) =>
      SetPhase(s, i, Cleared(draw)).(files := Removed(s.files, Temp(pid, call), ok))
    case Cleared(draw) =>
      if ok && Temp(pid, call) !in s.files then
        SetPhase(s, i, Writing(draw, 0)).(files := s.files[Temp(pid, call) := []])
      else
        SetPhase(s, i, Failing(draw))
    case Writing(draw, done) =>
      if !ok || Temp(pid, call) !in s.files then
        SetPhase(s, i, Failing(draw))
      else if done >= |call.contents| then
        SetPhase(s, i, Synced(draw))
      else
        var next := if amount <= |call.contents| - done then done + amount else |call.contents|;
        SetPhase(s, i, Writing(draw, next))
          .(files := s.files[Temp(pid, call) := s.files[Temp(pid, call)] + call.contents[done..next]])
    case Synced(draw) =>
      if ok && Temp(pid, call) in s.files then
        SetPhase(s, i, Done(true))
          .(files := s.files[call.target := s.files[Temp(pid, call)]] - {Temp(pid, call)},
            committed := s.committed + [i])
      else
        SetPhase(s, i, Failing(draw))
    case Failing(draw) =>
      SetPhase(s, i, Done(false))
        .(files := Removed(s.files, Temp(pid, call), ok),
          orphans := if ok then s.orphans else s.orphans + {Temp(pid, call)})
    case Done(_) => s
  }

  function Step(pid: nat, s: Process, e: Event): Process {
    match e
    case Arrive(target, contents) => s.(calls := s.calls + [Call(target, contents, Begin)])
    case Advance(i, ok, amount) => if i < |s.calls| then Advanced(pid, s, i, ok, amount) else s
  }

  function After(pid: nat, initial: Files, events: seq<Event>): Process {
    if events == [] then Process(initial, 0, [], [], {})
    else Step(pid, After(pid, initial, events[..|events| - 1]), events[|events| - 1])
  }

  // -------------------------------------------------------- what is promised

  function Lookup(files: Files, path: Path): Option<Bytes> {
    if path in files then Some(files[path]) else None
  }

  /** What a path should hold: the contents of the last call for it that took effect,
      or what it held at the start. */
  function Expected(initial: Files, calls: seq<Call>, committed: seq<nat>, path: Path): Option<Bytes>
    requires forall k :: 0 <= k < |committed| ==> committed[k] < |calls|
  {
    if committed == [] then Lookup(initial, path)
    else
      var last := committed[|committed| - 1];
      if calls[last].target == path then Some(calls[last].contents)
      else Expected(initial, calls, committed[..|committed| - 1], path)
  }

  // ------------------------------------------------------------- invariant

  /** Bytes a call has put under its temporary name so far. */
  predicate TempOk(pid: nat, files: Files, call: Call) {
    && (call.phase.Writing? ==>
          call.phase.done <= |call.contents|
          && Lookup(files, Temp(pid, call)) == Some(call.contents[..call.phase.done]))
    && (call.phase.Synced? ==> Lookup(files, Temp(pid, call)) == Some(call.contents))
  }

  predicate CallsOk(pid: nat, s: Process) {
    && s.counter <= WRAP
    && (forall i :: 0 <= i < |s.calls| ==> TempOk(pid, s.files, s.calls[i]))
    && (forall i :: 0 <= i < |s.calls| && s.calls[i].phase.Active() ==> s.calls[i].phase.draw < s.counter)
    && forall i, j :: 0 <= i < j < |s.calls| && s.calls[i].phase.Active() && s.calls[j].phase.Active() ==>
         s.calls[i].phase.draw != s.calls[j].phase.draw
  }

  ghost predicate TargetsOk(pid: nat, targets: iset<Path>, s: Process) {
    Separate(pid, targets) && forall i :: 0 <= i < |s.calls| ==> s.calls[i].target in targets
  }

  predicate CommitsOk(s: Process) {
    && (forall k :: 0 <= k < |s.committed| ==> s.committed[k] < |s.calls|)
    && (forall i :: 0 <= i < |s.calls| ==> (s.calls[i].phase == Done(true) <==> i in s.committed))
    && forall a, b :: 0 <= a < b < |s.committed| ==> s.committed[a] != s.committed[b]
  }

  ghost predicate FilesOk(pid: nat, targets: iset<Path>, initial: Files, s: Process)
    requires CommitsOk(s)
  {
    forall path :: !TempOf(pid, targets, path) ==>
      Lookup(s.files, path) == Expected(initial, s.calls, s.committed, path)
  }

  ghost predicate Owned(pid: nat, s: Process, path: Path) {
    exists i :: 0 <= i < |s.calls| && s.calls[i].phase.Active() && Temp(pid, s.calls[i]) == path
  }

  /** A temporary on disk was there before, belongs to a call under way, or is one whose
      removal failed. */
  ghost predicate TempsOk(pid: nat, targets: iset<Path>, initial: Files, s: Process) {
    forall path :: path in s.files && TempOf(pid, targets, path) ==>
      path in initial || Owned(pid, s, path) || path in s.orphans
  }

  ghost predicate Inv(pid: nat, targets: iset<Path>, initial: Files, s: Process) {
    && CallsOk(pid, s) && TargetsOk(pid, targets, s) && CommitsOk(s)
    && FilesOk(pid, targets, initial, s) && TempsOk(pid, targets, initial, s)
  }

  lemma TempsDiffer(pid: nat, s: Process, i: nat, j: nat)
    requires CallsOk(pid, s) && i < |s.calls| && j < |s.calls| && i != j
    requires s.calls[i].phase.Active() && s.calls[j].phase.Active()
    ensures Temp(pid, s.calls[i]) != Temp(pid, s.calls[j])
  {
    var a, b := s.calls[i], s.calls[j];
    if Temp(pid, a) == Temp(pid, b) {
      DrawsGiveDistinctPaths(a.target, b.target, pid, a.phase.draw, b.phase.draw);
    }
  }

  lemma TempIsTemp(pid: nat, targets: iset<Path>, call: Call)
    requires call.phase.Active() && call.target in targets
    ensures TempOf(pid, targets, Temp(pid, call))
  {
    DrawnIsTemp(pid, targets, call.target, call.phase.draw);
  }

  /** What one operation of call i can do: it touches only its own temporary and, at the
      rename, its own target, which then holds all its contents. */
  ghost predicate Effect(pid: nat, s: Process, s': Process, i: nat) {
    && i < |s.calls| == |s'.calls|
    && var was, now := s.calls[i], s'.calls[i];
    && s'.calls == s.calls[i := now]
    && now.target == was.target && now.contents == was.contents
    && TempOk(pid, s'.files, now)
    && s.orphans <= s'.orphans
    && (forall path :: path != was.target && (was.phase.Active() ==> path != Temp(pid, was)) ==>
          Lookup(s'.files, path) == Lookup(s.files, path))
    && (if s'.committed == s.committed then
          Lookup(s'.files, was.target) == Lookup(s.files, was.target)
          && (now.phase == Done(true) <==> was.phase == Done(true))
        else
          s'.committed == s.committed + [i] && was.phase != Done(true) && now.phase == Done(true)
          && Lookup(s'.files, was.target) == Some(was.contents))
    && (was.phase.Active() && Temp(pid, was) in s'.files ==>
          Temp(pid, was) in s'.orphans || (now.phase.Active() && Temp(pid, now) == Temp(pid, was)))
    && s.counter <= s'.counter
    && (now.phase.Active() ==>
          (was.phase.Active() && now.phase.draw == was.phase.draw)
          || (now.phase.draw == s.counter < s'.counter))
  }

  lemma AdvanceHasEffect(pid: nat, s: Process, i: nat, ok: bool, amount: nat)
    requires i < |s.calls| && TempOk(pid, s.files, s.calls[i])
    ensures Effect(pid, s, Advanced(pid, s, i, ok, amount), i)
  {
    var call := s.calls[i];
    if call.phase.Active() { TempIsNotTarget(call.target, pid, call.phase.draw); }
    if call.phase.Writing? && ok && call.phase.done < |call.contents| {
      var done := call.phase.done;
      var next := if amount <= |call.contents| - done then done + amount else |call.contents|;
      assert call.contents[..done] + call.contents[done..next] == call.contents[..next];
    } else if call.phase.Writing? {
      assert call.contents[..|call.contents|] == call.contents;
    }
  }

  lemma EffectKeepsCalls(pid: nat, targets: iset<Path>, s: Process, s': Process, i: nat)
    requires CallsOk(pid, s) && TargetsOk(pid, targets, s) && Effect(pid, s, s', i) && s'.counter <= WRAP
    ensures CallsOk(pid, s') && TargetsOk(pid, targets, s')
  {
    forall j | 0 <= j < |s'.calls| ensures TempOk(pid, s'.files, s'.calls[j]) {
      assert TempOk(pid, s.files, s.calls[j]);
      if j != i && s.calls[j].phase.Active() {
        TempIsTemp(pid, targets, s.calls[j]);
        if s.calls[i].phase.Active() { TempsDiffer(pid, s, i, j); }
        assert Lookup(s'.files, Temp(pid, s.calls[j])) == Lookup(s.files, Temp(pid, s.calls[j]));
      }
    }
  }

  lemma EffectKeepsCommits(pid: nat, s: Process, s': Process, i: nat)
    requires CommitsOk(s) && Effect(pid, s, s', i)
    ensures CommitsOk(s')
  {
    if s'.committed != s.committed {
      assert i !in s.committed;
    }
  }

  lemma {:induction false} ExpectedIgnoresPhases(initial: Files, calls: seq<Call>, calls': seq<Call>,
                                                 committed: seq<nat>, path: Path)
    requires |calls| <= |calls'|
    requires forall k :: 0 <= k < |committed| ==> committed[k] < |calls|
    requires forall i :: 0 <= i < |calls| ==>
               calls[i].target == calls'[i].target && calls[i].contents == calls'[i].contents
    ensures Expected(initial, calls, committed, path) == Expected(initial, calls', committed, path)
    decreases |committed|
  {
    if committed != [] {
      ExpectedIgnoresPhases(initial, calls, calls', committed[..|committed| - 1], path);
    }
  }

  lemma EffectOnPlainPath(pid: nat, targets: iset<Path>, initial: Files, s: Process, s': Process, i: nat, path: Path)
    requires CommitsOk(s) && CommitsOk(s') && TargetsOk(pid, targets, s) && Effect(pid, s, s', i)
             && !TempOf(pid, targets, path)
    requires Lookup(s.files, path) == Expected(initial, s.calls, s.committed, path)
    ensures Lookup(s'.files, path) == Expected(initial, s'.calls, s'.committed, path)
  {
    if s.calls[i].phase.Active() { TempIsTemp(pid, targets, s.calls[i]); }
    ExpectedIgnoresPhases(initial, s.calls, s'.calls, s.committed, path);
    if s'.committed != s.committed {
      ExpectedAfter(initial, s'.calls, s.committed, i, path);
    }
  }

  lemma ExpectedAfter(initial: Files, calls: seq<Call>, committed: seq<nat>, i: nat, path: Path)
    requires i < |calls| && forall k :: 0 <= k < |committed| ==> committed[k] < |calls|
    ensures Expected(initial, calls, committed + [i], path) ==
            if calls[i].target == path then Some(calls[i].contents) else Expected(initial, calls, committed, path)
  {
    assert (committed + [i])[..|committed|] == committed;
  }

  lemma EffectKeepsFiles(pid: nat, targets: iset<Path>, initial: Files, s: Process, s': Process, i: nat)
    requires CommitsOk(s) && CommitsOk(s') && TargetsOk(pid, targets, s)
    requires FilesOk(pid, targets, initial, s) && Effect(pid, s, s', i)
    ensures FilesOk(pid, targets, initial, s')
  {
    forall path | !TempOf(pid, targets, path)
      ensures Lookup(s'.files, path) == Expected(initial, s'.calls, s'.committed, path)
    {
      EffectOnPlainPath(pid, targets, initial, s, s', i, path);
    }
  }

  lemma EffectKeepsTemps(pid: nat, targets: iset<Path>, initial: Files, s: Process, s': Process, i: nat)
    requires TempsOk(pid, targets, initial, s) && TargetsOk(pid, targets, s) && Effect(pid, s, s', i)
    ensures TempsOk(pid, targets, initial, s')
  {
    var was, now := s.calls[i], s'.calls[i];
    forall path | path in s'.files && TempOf(pid, targets, path)
      ensures path in initial || Owned(pid, s', path) || path in s'.orphans
    {
      if was.phase.Active() && Temp(pid, was) == path {
        assert now.phase.Active() && Temp(pid, now) == path ==> Owned(pid, s', path);
      } else {
        assert Lookup(s'.files, path) == Lookup(s.files, path);
        if Owned(pid, s, path) {
          var j :| 0 <= j < |s.calls| && s.calls[j].phase.Active() && Temp(pid, s.calls[j]) == path;
          assert s'.calls[j] == s.calls[j];
        }
      }
    }
  }

  lemma ArriveKeeps(pid: nat, targets: iset<Path>, initial: Files, s: Process, target: Path, contents: Bytes)
    requires Inv(pid, targets, initial, s) && target in targets
    ensures Inv(pid, targets, initial, Step(pid, s, Arrive(target, contents)))
  {
    var s' := Step(pid, s, Arrive(target, contents));
    forall j | 0 <= j < |s'.calls| ensures TempOk(pid, s'.files, s'.calls[j]) {
      if j < |s.calls| { assert TempOk(pid, s.files, s.calls[j]); }
    }
    ArriveKeepsFiles(pid, targets, initial, s, s');
    ArriveKeepsTemps(pid, targets, initial, s, s');
  }

  lemma ArriveKeepsTemps(pid: nat, targets: iset<Path>, initial: Files, s: Process, s': Process)
    requires TempsOk(pid, targets, initial, s)
    requires s'.files == s.files && s'.orphans == s.orphans && s.calls <= s'.calls
    ensures TempsOk(pid, targets, initial, s')
  {
    forall path | Owned(pid, s, path) ensures Owned(pid, s', path) {
      var j :| 0 <= j < |s.calls| && s.calls[j].phase.Active() && Temp(pid, s.calls[j]) == path;
      assert s'.calls[j] == s.calls[j];
    }
  }

  lemma ArriveKeepsFiles(pid: nat, targets: iset<Path>, initial: Files, s: Process, s': Process)
    requires CommitsOk(s) && CommitsOk(s') && FilesOk(pid, targets, initial, s)
    requires s'.files == s.files && s'.committed == s.committed && s.calls <= s'.calls
    ensures FilesOk(pid, targets, initial, s')
  {
    forall path | !TempOf(pid, targets, path)
      ensures Lookup(s'.files, path) == Expected(initial, s'.calls, s'.committed, path)
    {
      ExpectedIgnoresPhases(initial, s.calls, s'.calls, s.committed, path);
    }
  }

  /** Every call of the run writes to one of the targets. */
  ghost predicate Aims(targets: iset<Path>, events: seq<Event>) {
    forall k :: 0 <= k < |events| && events[k].Arrive? ==> events[k].target in targets
  }

  lemma {:induction false} CounterGrows(pid: nat, initial: Files, events: seq<Event>)
    requires events != []
    ensures After(pid, initial, events[..|events| - 1]).counter <= After(pid, initial, events).counter
  {
  }

  lemma EffectKeeps(pid: nat, targets: iset<Path>, initial: Files, s: Process, s': Process, i: nat)
    requires Inv(pid, targets, initial, s) && Effect(pid, s, s', i) && s'.counter <= WRAP
    ensures Inv(pid, targets, initial, s')
  {
    EffectKeepsCalls(pid, targets, s, s', i);
    EffectKeepsCommits(pid, s, s', i);
    EffectKeepsFiles(pid, targets, initial, s, s', i);
    EffectKeepsTemps(pid, targets, initial, s, s', i);
  }

  lemma StepKeeps(pid: nat, targets: iset<Path>, initial: Files, s: Process, e: Event)
    requires Inv(pid, targets, initial, s) && Step(pid, s, e).counter <= WRAP
    requires e.Arrive? ==> e.target in targets
    ensures Inv(pid, targets, initial, Step(pid, s, e))
  {
    match e
    case Arrive(target, contents) => ArriveKeeps(pid, targets, initial, s, target, contents);
    case Advance(i, ok, amount) =>
      if i < |s.calls| {
        assert TempOk(pid, s.files, s.calls[i]);
        AdvanceHasEffect(pid, s, i, ok, amount);
        EffectKeeps(pid, targets, initial, s, Advanced(pid, s, i, ok, amount), i);
      }
  }

  lemma {:induction false} RunKeeps(pid: nat, targets: iset<Path>, initial: Files, events: seq<Event>)
    requires Separate(pid, targets) && Aims(targets, events) && After(pid, initial, events).counter <= WRAP
    ensures Inv(pid, targets, initial, After(pid, initial, events))
    decreases |events|
  {
    if events != [] {
      var front, e := events[..|events| - 1], events[|events| - 1];
      CounterGrows(pid, initial, events);
      RunKeeps(pid, targets, initial, front);
      StepKeeps(pid, targets, initial, After(pid, initial, front), e);
    }
  }

  /** The path holds what it held at the start or all of one successful call for it. */
  predicate Whole(initial: Files, s: Process, path: Path) {
    || Lookup(s.files, path) == Lookup(initial, path)
    || exists i :: 0 <= i < |s.calls| && s.calls[i].phase == Done(true) && s.calls[i].target == path
                   && Lookup(s.files, path) == Some(s.calls[i].contents)
  }

  /** At every moment of every interleaving, under every pattern of failures, a path that is
      no temporary holds what it held at the start or the complete contents of the last
      call for it whose rename took effect, and those are exactly the calls that report
      success. */
  lemma TargetsAreAllOrNothing(pid: nat, targets: iset<Path>, initial: Files, events: seq<Event>, path: Path)
    requires Separate(pid, targets) && Aims(targets, events) && !TempOf(pid, targets, path)
    requires After(pid, initial, events).counter <= WRAP
    ensures var s := After(pid, initial, events);
            && CommitsOk(s)
            && Lookup(s.files, path) == Expected(initial, s.calls, s.committed, path)
            && Whole(initial, s, path)
  {
    RunKeeps(pid, targets, initial, events);
    var s := After(pid, initial, events);
    ExpectedIsOneOf(initial, s.calls, s.committed, path);
  }

  lemma {:induction false} ExpectedIsOneOf(initial: Files, calls: seq<Call>, committed: seq<nat>, path: Path)
    requires forall k :: 0 <= k < |committed| ==> committed[k] < |calls|
    ensures Expected(initial, calls, committed, path) == Lookup(initial, path)
            || exists i :: i in committed && i < |calls| && calls[i].target == path
                           && Expected(initial, calls, committed, path) == Some(calls[i].contents)
    decreases |committed|
  {
    if committed != [] {
      assert committed[|committed| - 1] in committed;
      ExpectedIsOneOf(initial, calls, committed[..|committed| - 1], path);
    }
  }

  /** Once every call has returned, the only new temporaries left are those whose removal
      failed. */
  lemma NoStrayTemporaries(pid: nat, targets: iset<Path>, initial: Files, events: seq<Event>, path: Path)
    requires Separate(pid, targets) && Aims(targets, events) && After(pid, initial, events).counter <= WRAP
    requires var s := After(pid, initial, events);
             (forall i :: 0 <= i < |s.calls| ==> s.calls[i].phase.Done?) && path in s.files
                 && TempOf(pid, targets, path)
    ensures path in initial || path in After(pid, initial, events).orphans
  {
    RunKeeps(pid, targets, initial, events);
  }

  lemma AfterOne(pid: nat, initial: Files, events: seq<Event>, e: Event)
    ensures After(pid, initial, events + [e]) == Step(pid, After(pid, initial, events), e)
  {
    assert (events + [e])[..|events|] == events;
  }

  // ------------------------------------------------- when it is not so

  /** Calls for one target that have each drawn a number and gone no further. */
  function Draws(target: Path, contents: Bytes, n: nat): seq<Event> {
    if n == 0 then [] else Draws(target, contents, n - 1) + [Arrive(target, contents)] + [Advance(n - 1, true, 0)]
  }

  function Drawn(target: Path, contents: Bytes, n: nat): seq<Call> {
    if n == 0 then [] else Drawn(target, contents, n - 1) + [Call(target, contents, Named(n - 1))]
  }

  lemma {:induction false} AfterDraws(pid: nat, target: Path, contents: Bytes, n: nat)
    ensures |Drawn(target, contents, n)| == n
    ensures After(pid, map[], Draws(target, contents, n)) == Process(map[], n, Drawn(target, contents, n), [], {})
  {
    if n > 0 {
      AfterDraws(pid, target, contents, n - 1);
      var before := Draws(target, contents, n - 1);
      AfterOne(pid, map[], before, Arrive(target, contents));
      AfterOne(pid, map[], before + [Arrive(target, contents)], Advance(n - 1, true, 0));
      OneMoreDraws(pid, Drawn(target, contents, n - 1), target, contents, n - 1);
    }
  }

  lemma OneMoreDraws(pid: nat, calls: seq<Call>, target: Path, contents: Bytes, n: nat)
    requires |calls| == n
    ensures var s := Process(map[], n, calls, [], {});
            var arrived := Step(pid, s, Arrive(target, contents));
            Step(pid, arrived, Advance(n, true, 0))
            == Process(map[], n + 1, calls + [Call(target, contents, Named(n))], [], {})
  {
    assert (calls + [Call(target, contents, Begin)])[n := Call(target, contents, Named(n))]
        == calls + [Call(target, contents, Named(n))];
  }

  /** Three more operations of the last of those calls: clearing, creating, writing a byte. */
  lemma HalfWritten(pid: nat, s: Process, target: Path, a: bv8, b: bv8, n: nat)
    requires |s.calls| == n + 1 && s.calls[n] == Call(target, [a, b], Named(n)) && s.files == map[] && n < WRAP
    ensures var s1 := Advanced(pid, s, n, true, 0);
            var s2 := Advanced(pid, s1, n, true, 0);
            var s3 := Advanced(pid, s2, n, true, 1);
            && s3.calls == s.calls[n := Call(target, [a, b], Writing(n, 1))]
            && s3.files == map[TempPath(target, pid, n) := [a]] && s3.counter == s.counter
  {
    assert [] + [a, b][0..1] == [a];
  }

  /** The run that leaves a temporary half-written while a call for that very path waits. */
  function HalfWriteRun(target: Path, a: bv8, b: bv8, n: nat, other: Path): seq<Event> {
    Draws(target, [a, b], n + 1) + [Advance(n, true, 0)] + [Advance(n, true, 0)] + [Advance(n, true, 1)]
        + [Arrive(other, [])]
  }

  lemma {:induction false} DrawsAim(target: Path, contents: Bytes, n: nat, k: nat)
    requires k < |Draws(target, contents, n)| && Draws(target, contents, n)[k].Arrive?
    ensures Draws(target, contents, n)[k].target == target
  {
    if k < |Draws(target, contents, n - 1)| {
      DrawsAim(target, contents, n - 1, k);
    }
  }

  lemma {:induction false} DrawnAim(target: Path, contents: Bytes, n: nat, i: nat)
    requires i < |Drawn(target, contents, n)|
    ensures Drawn(target, contents, n)[i].target == target
  {
    if i < |Drawn(target, contents, n - 1)| {
      DrawnAim(target, contents, n - 1, i);
    }
  }

  lemma AfterHalfWrite(pid: nat, target: Path, a: bv8, b: bv8, n: nat, other: Path)
    requires n < WRAP
    ensures var s := After(pid, map[], HalfWriteRun(target, a, b, n, other));
            && s.counter == n + 1
            && s.files == map[TempPath(target, pid, n) := [a]]
            && s.calls == Drawn(target, [a, b], n) + [Call(target, [a, b], Writing(n, 1))] + [Call(other, [], Begin)]
  {
    var before := Draws(target, [a, b], n + 1);
    AfterDraws(pid, target, [a, b], n + 1);
    AfterDraws(pid, target, [a, b], n);
    HalfWritten(pid, After(pid, map[], before), target, a, b, n);
    var one := before + [Advance(n, true, 0)];
    var two := one + [Advance(n, true, 0)];
    AfterOne(pid, map[], before, Advance(n, true, 0));
    AfterOne(pid, map[], one, Advance(n, true, 0));
    AfterOne(pid, map[], two, Advance(n, true, 1));
    AfterOne(pid, map[], two + [Advance(n, true, 1)], Arrive(other, []));
  }

  /** A target that is a temporary of another target can be seen half-written, whichever of
      the 2^64 numbers it carries. */
  lemma TempTargetSeesHalfWrite(pid: nat, target: Path, n: nat, other: Path, a: bv8, b: bv8)
    requires n < WRAP && other == TempPath(target, pid, n)
    ensures var s := After(pid, map[], HalfWriteRun(target, a, b, n, other));
            && s.counter <= WRAP
            && Lookup(s.files, other) == Some([a])
            && !Whole(map[], s, other)
  {
    AfterHalfWrite(pid, target, a, b, n, other);
    TempIsNotTarget(target, pid, n);
    NoSuchCall(target, [a, b], n, other);
  }

  lemma NoSuchCall(target: Path, contents: Bytes, n: nat, other: Path)
    requires other != target
    ensures var calls := Drawn(target, contents, n) + [Call(target, contents, Writing(n, 1))]
            + [Call(other, [], Begin)];
            forall i :: 0 <= i < |calls| && calls[i].target == other ==> calls[i].phase == Begin
  {
    forall i: nat | i < |Drawn(target, contents, n)| ensures Drawn(target, contents, n)[i].target == target {
      DrawnAim(target, contents, n, i);
    }
  }

  lemma HalfWriteRunAims(target: Path, a: bv8, b: bv8, n: nat, other: Path, targets: iset<Path>)
    requires target in targets && other in targets
    ensures Aims(targets, HalfWriteRun(target, a, b, n, other))
  {
    var before, events := Draws(target, [a, b], n + 1), HalfWriteRun(target, a, b, n, other);
    forall k | 0 <= k < |events| && events[k].Arrive? ensures events[k].target in targets {
      if k < |before| {
        assert events[k] == before[k];
        DrawsAim(target, [a, b], n + 1, k);
      }
    }
  }

  /** All-or-nothing for every target, at every moment of every run on these targets. */
  ghost predicate AlwaysWhole(pid: nat, targets: iset<Path>) {
    forall initial: Files, events: seq<Event>, path: Path ::
      Aims(targets, events) && path in targets && After(pid, initial, events).counter <= WRAP ==>
        Whole(initial, After(pid, initial, events), path)
  }

  /** A set of targets is always seen whole exactly when none of them is a temporary of
      another. */
  lemma WholeExactlyWhenSeparate(pid: nat, targets: iset<Path>)
    ensures AlwaysWhole(pid, targets) <==> Separate(pid, targets)
  {
    if Separate(pid, targets) {
      forall initial: Files, events: seq<Event>, path: Path
        | Aims(targets, events) && path in targets && After(pid, initial, events).counter <= WRAP
        ensures Whole(initial, After(pid, initial, events), path)
      {
        TargetsAreAllOrNothing(pid, targets, initial, events, path);
      }
    } else {
      var other :| other in targets && TempOf(pid, targets, other);
      var target: Path, n: nat :| target in targets && n < WRAP && other == TempPath(target, pid, n);
      HalfWriteRunAims(target, 0, 0, n, other, targets);
      TempTargetSeesHalfWrite(pid, target, n, other, 0, 0);
    }
  }
}
