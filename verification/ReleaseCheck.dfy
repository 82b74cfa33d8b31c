/** The whole release-gate check, from the job table to the verdict, and what a
    passing verdict guarantees of every workflow run. */
module ReleaseCheck {
  import opened NeedsGraph
  import opened ReleaseGates

  datatype Failure =
    | MissingGates(node: Job, gates: seq<Job>)
    | MissingSmoke
    | NotInherited(gate: Job)
    | BadConditions(job: Job)
    | Bypass(job: Job)
    | NoDependents(gate: Job)
    | WouldStillRun(gate: Job, state: State, node: Job)

  datatype Report =
    | MissingJobs(missing: set<Job>)
    | UnknownNeeds
    | CyclicNeeds(cycles: seq<seq<Job>>)
    | Failed(failures: seq<Failure>)
    | Passed

  function Required(): set<Job> {
    set job | job in ALL_GATES + CONSUMERS
  }

  ghost predicate KnownNeeds(w: Workflow) {
    forall job, p :: job in w && p in w[job].needs ==> p in w
  }

  /** What the gate part of the check is for. */
  ghost predicate GatesReached(needs: Needs) {
    && (forall node, gate :: node in PUBLISH_NODES && gate in CORE_GATES ==> Reaches(needs, node, gate))
    && Reaches(needs, WHEELS, SMOKE)
    && forall gate :: gate in ALL_GATES ==> Reaches(needs, PYPI, gate)
  }

  /** The publishing jobs and everything they reach. */
  ghost predicate Relevant(needs: Needs, job: Job) {
    job in CONSUMERS || exists node :: node in CONSUMERS && Reaches(needs, node, job)
  }

  ghost predicate AllClean(w: Workflow) {
    forall job :: Relevant(NeedsIn(w), job) ==> job in w && w[job].Clean()
  }

  /** The promise of the check, stated on the graph itself. */
  ghost predicate ReleaseSafe(w: Workflow) {
    && Required() <= w.Keys && KnownNeeds(w) && Acyclic(NeedsIn(w))
    && GatesReached(NeedsIn(w)) && AllClean(w)
  }

  predicate NoneStillRuns(failures: seq<Failure>) {
    forall f :: f in failures ==> !f.WouldStillRun?
  }

  function Absent(gates: seq<Job>, have: set<Job>): (r: seq<Job>)
    ensures forall gate :: gate in r <==> gate in gates && gate !in have
    ensures r == [] <==> forall gate :: gate in gates ==> gate in have
  {
    if gates == [] then []
    else (if gates[0] in have then [] else [gates[0]]) + Absent(gates[1..], have)
  }

  // ------------------------------------------------ what is rightly reported

  ghost predicate PublishFault(needs: Needs, f: Failure) {
    && f.MissingGates? && f.node in PUBLISH_NODES
    && f.gates != [] && f.gates == Absent(CORE_GATES, Ancestors(needs, f.node))
  }

  ghost predicate PypiFault(needs: Needs, f: Failure) {
    f.NotInherited? && f.gate in ALL_GATES && !Reaches(needs, PYPI, f.gate)
  }

  ghost predicate GateFault(needs: Needs, f: Failure) {
    || PublishFault(needs, f) || PypiFault(needs, f)
    || (f.MissingSmoke? && !Reaches(needs, WHEELS, SMOKE))
  }

  ghost predicate BypassFault(w: Workflow, f: Failure) {
    && (f.BadConditions? || f.Bypass?) && Relevant(NeedsIn(w), f.job) && f.job in w
    && (f.BadConditions? ==> !w[f.job].conditionsOk)
    && (f.Bypass? ==> w[f.job].statusBypass || w[f.job].continueOnError || w[f.job].stepBypass)
  }

  ghost predicate NegativeFault(w: Workflow, f: Failure) {
    f.NoDependents? && f.gate in ALL_GATES && !Guards(w, f.gate)
  }

  /** Everything that the check may say is wrong with a workflow, and when it is right to. */
  ghost predicate Fault(w: Workflow, f: Failure) {
    GateFault(NeedsIn(w), f) || BypassFault(w, f) || NegativeFault(w, f)
  }

  method PublishFailures(needs: Needs) returns (failures: seq<Failure>)
    requires Required() <= needs.Keys
    ensures NoneStillRuns(failures)
    ensures failures == [] <==>
            forall node, gate :: node in PUBLISH_NODES && gate in CORE_GATES ==> Reaches(needs, node, gate)
    ensures forall f :: f in failures <==> PublishFault(needs, f)
  {
    failures := [];
    for i := 0 to |PUBLISH_NODES|
      invariant forall f :: f in failures <==> PublishFault(needs, f) && f.node in PUBLISH_NODES[..i]
    {
      assert PUBLISH_NODES[i] in CONSUMERS;
      var have := Closure(needs, PUBLISH_NODES[i]);
      var missing := Absent(CORE_GATES, have);
      if missing != [] {
        failures := failures + [MissingGates(PUBLISH_NODES[i], missing)];
      }
      assert PUBLISH_NODES[..i + 1] == PUBLISH_NODES[..i] + [PUBLISH_NODES[i]];
    }
    assert PUBLISH_NODES[..|PUBLISH_NODES|] == PUBLISH_NODES;
    NoPublishFaults(needs, failures);
  }

  lemma NoPublishFaults(needs: Needs, failures: seq<Failure>)
    requires forall f :: f in failures <==> PublishFault(needs, f)
    ensures failures == [] <==>
            forall node, gate :: node in PUBLISH_NODES && gate in CORE_GATES ==> Reaches(needs, node, gate)
  {
    if failures == [] {
      forall node, gate | node in PUBLISH_NODES && gate in CORE_GATES ensures Reaches(needs, node, gate) {
        assert !PublishFault(needs, MissingGates(node, Absent(CORE_GATES, Ancestors(needs, node))));
      }
    } else {
      var f := failures[0];
      assert f in failures;
      assert f.gates[0] in f.gates;
    }
  }

  method PypiFailures(needs: Needs) returns (failures: seq<Failure>)
    requires Required() <= needs.Keys
    ensures NoneStillRuns(failures)
    ensures failures == [] <==> forall gate :: gate in ALL_GATES ==> Reaches(needs, PYPI, gate)
    ensures forall f :: f in failures <==> PypiFault(needs, f)
  {
    failures := [];
    for i := 0 to |ALL_GATES|
      invariant forall f :: f in failures <==> PypiFault(needs, f) && f.gate in ALL_GATES[..i]
    {
      var have := Closure(needs, PYPI);
      if ALL_GATES[i] !in have {
        failures := failures + [NotInherited(ALL_GATES[i])];
      }
      assert ALL_GATES[..i + 1] == ALL_GATES[..i] + [ALL_GATES[i]];
    }
    assert ALL_GATES[..|ALL_GATES|] == ALL_GATES;
    if failures == [] {
      forall gate | gate in ALL_GATES ensures Reaches(needs, PYPI, gate) {
        assert !PypiFault(needs, NotInherited(gate));
      }
    } else {
      assert failures[0] in failures;
    }
  }

  method GateFailures(needs: Needs) returns (failures: seq<Failure>)
    requires Required() <= needs.Keys
    ensures NoneStillRuns(failures)
    ensures failures == [] <==> GatesReached(needs)
    ensures forall f :: f in failures <==> GateFault(needs, f)
  {
    var publish := PublishFailures(needs);
    var have := Closure(needs, WHEELS);
    var smoke := if SMOKE in have then [] else [MissingSmoke];
    var pypi := PypiFailures(needs);
    failures := publish + smoke + pypi;
  }

  method RelevantJobs(needs: Needs) returns (jobs: set<Job>)
    requires Required() <= needs.Keys
    ensures forall job :: job in jobs <==> Relevant(needs, job)
  {
    jobs := set job | job in CONSUMERS;
    for i := 0 to |CONSUMERS|
      invariant forall job :: job in jobs <==>
                job in CONSUMERS || exists k :: 0 <= k < i && Reaches(needs, CONSUMERS[k], job)
    {
      var have := Closure(needs, CONSUMERS[i]);
      jobs := jobs + have;
    }
  }

  /** Reads every relevant job in name order and reports what is wrong with it. */
  method BypassFailures(w: Workflow) returns (failures: seq<Failure>, unsafe: set<Job>, lenient: set<Job>)
    requires Required() <= w.Keys && KnownNeeds(w)
    ensures NoneStillRuns(failures)
    ensures failures == [] <==> AllClean(w)
    ensures forall f :: f in failures <==> BypassFault(w, f)
    ensures forall job :: job in unsafe <==> Relevant(NeedsIn(w), job) && job in w && w[job].statusBypass
    ensures forall job :: job in lenient <==> Relevant(NeedsIn(w), job) && job in w && w[job].continueOnError
  {
    var jobs := RelevantJobs(NeedsIn(w));
    forall job | job in jobs ensures job in w { RelevantIsKnown(w, job); }
    failures, unsafe, lenient := [], {}, {};
    var rest := jobs;
    while rest != {}
      invariant rest <= jobs && NoneStillRuns(failures)
      invariant forall f :: f in failures <==> BypassFault(w, f) && f.job !in rest
      invariant failures == [] <==> forall job :: job in jobs - rest ==> w[job].Clean()
      invariant forall job :: job in unsafe <==> job in jobs - rest && w[job].statusBypass
      invariant forall job :: job in lenient <==> job in jobs - rest && w[job].continueOnError
      decreases rest
    {
      ghost var least := LeastExists(rest);
      assert IsLeast(least, rest);
      var job :| job in rest && forall other :: other in rest ==> NameLe(job.name, other.name);
      if w[job].statusBypass { unsafe := unsafe + {job}; }
      if w[job].continueOnError { lenient := lenient + {job}; }
      if !w[job].conditionsOk { failures := failures + [BadConditions(job)]; }
      if w[job].statusBypass || w[job].continueOnError || w[job].stepBypass {
        failures := failures + [Bypass(job)];
      }
      rest := rest - {job};
    }
  }

  lemma RelevantIsKnown(w: Workflow, job: Job)
    requires Required() <= w.Keys && KnownNeeds(w) && Relevant(NeedsIn(w), job)
    ensures job in w
  {
    if job !in CONSUMERS {
      var node :| node in CONSUMERS && Reaches(NeedsIn(w), node, job);
      var walk :| WalkFromTo(NeedsIn(w), walk, node, job);
      assert Edge(NeedsIn(w), walk[|walk| - 2], walk[|walk| - 1]);
    }
  }

  ghost predicate Guards(w: Workflow, gate: Job) {
    exists node :: node in CONSUMERS && Reaches(NeedsIn(w), node, gate)
  }

  /** Breaks one gate in each way and simulates every publishing job above it. */
  method NegativeOne(w: Workflow, broken: Job, unsafe: set<Job>, lenient: set<Job>)
    returns (failures: seq<Failure>)
    requires Required() <= w.Keys
    ensures NoneStillRuns(failures)
    ensures failures == [] <==> Guards(w, broken)
    ensures !Guards(w, broken) ==> failures == [NoDependents(broken)]
  {
    var needs := NeedsIn(w);
    var affected := [];
    for i := 0 to |CONSUMERS|
      invariant forall node :: node in affected <==> node in CONSUMERS[..i] && Reaches(needs, node, broken)
    {
      var have := Closure(needs, CONSUMERS[i]);
      if broken in have { affected := affected + [CONSUMERS[i]]; }
    }
    assert CONSUMERS[..|CONSUMERS|] == CONSUMERS;
    failures := if affected == [] then [NoDependents(broken)] else [];
    ghost var before := failures;
    for s := 0 to |BROKEN_STATES|
      invariant failures == before
    {
      var state := BROKEN_STATES[s];
      var states := (map job | job in w :: SUCCESS)[broken := state];
      assert StateOf(states, broken) != SUCCESS by { BrokenIsNotSuccess(s); }
      for n := 0 to |affected|
        invariant failures == before
      {
        var node := affected[n];
        assert node in affected;
        var verdict := Executable(node, needs, states, unsafe, lenient);
        assert broken in Ancestors(needs, node);
        if verdict.WouldRun? {
          failures := failures + [WouldStillRun(broken, state, node)];
        }
      }
    }
    if affected != [] {
      assert affected[0] in affected;
    }
  }

  lemma BrokenIsNotSuccess(s: nat)
    requires s < |BROKEN_STATES|
    ensures BROKEN_STATES[s] != SUCCESS
  {
    assert BROKEN_STATES[s][0] != 's' || BROKEN_STATES[s][1] != 'u';
  }

  method NegativeFailures(w: Workflow, unsafe: set<Job>, lenient: set<Job>) returns (failures: seq<Failure>)
    requires Required() <= w.Keys
    ensures NoneStillRuns(failures)
    ensures failures == [] <==> forall gate :: gate in ALL_GATES ==> Guards(w, gate)
    ensures forall f :: f in failures <==> NegativeFault(w, f)
  {
    failures := [];
    for i := 0 to |ALL_GATES|
      invariant NoneStillRuns(failures)
      invariant forall f :: f in failures <==> NegativeFault(w, f) && f.gate in ALL_GATES[..i]
      invariant failures == [] <==> forall k :: 0 <= k < i ==> Guards(w, ALL_GATES[k])
    {
      var more := NegativeOne(w, ALL_GATES[i], unsafe, lenient);
      failures := failures + more;
      assert ALL_GATES[..i + 1] == ALL_GATES[..i] + [ALL_GATES[i]];
    }
    assert ALL_GATES[..|ALL_GATES|] == ALL_GATES;
  }

  /** The check passes exactly on safe workflows, and its negative simulation never
      finds a publishing job that would still run. What it reports is exactly what is wrong, by
      the first of its stages that objects. */
  method CheckWorkflow(w: Workflow, order: seq<Job>) returns (report: Report)
    requires forall job :: job in order <==> job in w
    ensures report.Passed? <==> ReleaseSafe(w)
    ensures report.Failed? ==> NoneStillRuns(report.failures)
    ensures match report
            case MissingJobs(missing) => missing == Required() - w.Keys && missing != {}
            case UnknownNeeds => Required() <= w.Keys && !KnownNeeds(w)
            case CyclicNeeds(cycles) =>
              && Required() <= w.Keys && KnownNeeds(w) && cycles != []
              && forall cycle :: cycle in cycles ==> ReportedCycle(NeedsIn(w), cycle)
            case Failed(failures) =>
              && Required() <= w.Keys && KnownNeeds(w) && Acyclic(NeedsIn(w))
              && failures != [] && forall f :: f in failures <==> Fault(w, f)
            case Passed => true
  {
    if !(Required() <= w.Keys) {
      ghost var job :| job in Required() && job !in w.Keys;
      assert job in Required() - w.Keys;
      return MissingJobs(Required() - w.Keys);
    }
    if exists job :: job in w && exists p :: p in w[job].needs && p !in w {
      return UnknownNeeds;
    }
    var found := Cycles(NeedsIn(w), order);
    if found != [] {
      return CyclicNeeds(found);
    }
    var gates := GateFailures(NeedsIn(w));
    var bypass, unsafe, lenient := BypassFailures(w);
    var negative := NegativeFailures(w, unsafe, lenient);
    if GatesReached(NeedsIn(w)) {
      forall gate | gate in ALL_GATES ensures Guards(w, gate) {
        assert PYPI in CONSUMERS;
      }
    }
    var failures := gates + bypass + negative;
    report := if failures == [] then Passed else Failed(failures);
  }

  /** Once the check passes, no run of the scheduler, whatever fails, is cancelled or is
      skipped in it, starts a publishing job before each of its gates has succeeded. */
  lemma PassedMeansGated(w: Workflow, actions: seq<Action>, node: Job, gate: Job)
    requires ReleaseSafe(w) && Run(w, actions) && Started(BoardAfter(w, actions), node)
    requires || (node in PUBLISH_NODES && gate in CORE_GATES)
             || (node == WHEELS && gate == SMOKE)
             || (node == PYPI && gate in ALL_GATES)
    ensures var b := BoardAfter(w, actions); gate in b && b[gate] == SUCCESS
  {
    assert node in CONSUMERS;
    assert Relevant(NeedsIn(w), node);
    forall job | job in Ancestors(NeedsIn(w), node) ensures Relevant(NeedsIn(w), job) { }
    assert NoBypassAbove(w, node);
    StartedMeansAncestorsSucceeded(w, actions, node, gate);
  }
}
