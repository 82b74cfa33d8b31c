/** The job simulation of the release-gate checker, and the step-by-step job scheduler that
    it stands for. */
module ReleaseGates {
  import opened NeedsGraph

  /** A job state as the checker writes it; only SUCCESS lets a dependant run. */
  type State = string

  const SUCCESS: State := "success"
  const PENDING: State := "pending"
  const RUNNING: State := "running"
  const BROKEN_STATES: seq<State> := ["failure", "cancelled", "skipped"]

  const CORE_GATES: seq<Job> :=
    [Job("check"), Job("feature-check"), Job("msrv"), Job("build-and-test"), Job("validate-tag")]
  const SMOKE := Job("python-smoke")
  const WHEELS := Job("python-wheels")
  const PYPI := Job("publish-pypi")
  const PUBLISH_NODES: seq<Job> :=
    [Job("release"), Job("publish-crates"), Job("python-sdist"), WHEELS]
  const CONSUMERS: seq<Job> := PUBLISH_NODES + [PYPI]
  const ALL_GATES: seq<Job> := CORE_GATES + [SMOKE]

  // ------------------------------------------------------------ executable

  predicate NameLe(a: string, b: string) {
    a == "" || (b != "" && (a[0] < b[0] || (a[0] == b[0] && NameLe(a[1..], b[1..]))))
  }

  lemma {:induction false} NameLeTotal(a: string, b: string)
    ensures NameLe(a, b) || NameLe(b, a)
  {
    if a != "" && b != "" && a[0] == b[0] {
      NameLeTotal(a[1..], b[1..]);
    }
  }

  lemma {:induction false} NameLeTransitive(a: string, b: string, c: string)
    requires NameLe(a, b) && NameLe(b, c)
    ensures NameLe(a, c)
  {
    if a != "" && a[0] == b[0] && b[0] == c[0] {
      NameLeTransitive(a[1..], b[1..], c[1..]);
    }
  }

  predicate IsLeast(job: Job, jobs: set<Job>) {
    job in jobs && forall other :: other in jobs ==> NameLe(job.name, other.name)
  }

  lemma {:induction false} LeastExists(jobs: set<Job>) returns (least: Job)
    requires jobs != {}
    ensures IsLeast(least, jobs)
  {
    var job :| job in jobs;
    NameLeTotal(job.name, job.name);
    var rest := jobs - {job};
    if rest == {} {
      assert jobs == {job};
      least := job;
    } else {
      var other := LeastExists(rest);
      NameLeTotal(job.name, other.name);
      least := if NameLe(job.name, other.name) then job else other;
      forall x | x in jobs ensures NameLe(least.name, x.name) {
        if x != job && least == job {
          NameLeTransitive(job.name, other.name, x.name);
        }
      }
    }
  }

  function StateOf(states: map<Job, State>, job: Job): State {
    if job in states then states[job] else SUCCESS
  }

  datatype Verdict =
    | WouldRun
    | StatusBypass(job: Job)
    | Blocked(job: Job, state: State)
    | ContinueBypass(job: Job)

  /** What one ancestor contributes: the first of the three tests that stops it. */
  function Judge(job: Job, states: map<Job, State>, unsafe: set<Job>, lenient: set<Job>): Verdict {
    if job in unsafe then StatusBypass(job)
    else if StateOf(states, job) != SUCCESS then Blocked(job, StateOf(states, job))
    else if job in lenient then ContinueBypass(job)
    else WouldRun
  }

  /** The simulation walks the ancestors in name order and stops at the first that
      objects; it says "would run" exactly when none does. */
  method Executable(root: Job, needs: Needs, states: map<Job, State>, unsafe: set<Job>, lenient: set<Job>)
    returns (verdict: Verdict)
    requires root in needs
    ensures verdict.WouldRun? <==>
            forall job :: job in Ancestors(needs, root) ==> Judge(job, states, unsafe, lenient).WouldRun?
    ensures !verdict.WouldRun? ==>
            && verdict.job in Ancestors(needs, root)
            && verdict == Judge(verdict.job, states, unsafe, lenient)
            && forall job :: job in Ancestors(needs, root) && !Judge(job, states, unsafe, lenient).WouldRun? ==>
                 NameLe(verdict.job.name, job.name)
    ensures verdict.WouldRun? <==>
            forall job :: job in Ancestors(needs, root) ==>
              StateOf(states, job) == SUCCESS && job !in unsafe && job !in lenient
    ensures match verdict
            case StatusBypass(job) => job in unsafe
            case Blocked(job, state) => job !in unsafe && state == StateOf(states, job) && state != SUCCESS
            case ContinueBypass(job) => job !in unsafe && StateOf(states, job) == SUCCESS && job in lenient
            case WouldRun => true
  {
    var closure := Closure(needs, root);
    var rest := closure;
    while rest != {}
      invariant rest <= closure
      invariant forall job :: job in closure - rest ==> Judge(job, states, unsafe, lenient).WouldRun?
      decreases rest
    {
      ghost var smallest := LeastExists(rest);
      assert IsLeast(smallest, rest);
      var parent :| parent in rest && forall other :: other in rest ==> NameLe(parent.name, other.name);
      if parent in unsafe {
        return StatusBypass(parent);
      }
      if StateOf(states, parent) != SUCCESS {
        return Blocked(parent, StateOf(states, parent));
      }
      if parent in lenient {
        return ContinueBypass(parent);
      }
      rest := rest - {parent};
    }
    return WouldRun;
  }

  /** Success flows up below a root: an ancestor is successful only when everything it
      needs is. */
  ghost predicate Consistent(needs: Needs, states: map<Job, State>, root: Job) {
    forall job, parent ::
      job in Ancestors(needs, root) && Edge(needs, job, parent) && StateOf(states, job) == SUCCESS ==>
        StateOf(states, parent) == SUCCESS
  }

  ghost predicate NeedsSucceeded(needs: Needs, states: map<Job, State>, job: Job) {
    forall parent :: Edge(needs, job, parent) ==> StateOf(states, parent) == SUCCESS
  }

  /** On consistent states, looking at all ancestors or only at the direct needs gives
      the same answer. */
  lemma DirectNeedsDecide(needs: Needs, states: map<Job, State>, root: Job)
    requires Consistent(needs, states, root)
    ensures NeedsSucceeded(needs, states, root) <==>
            forall job :: job in Ancestors(needs, root) ==> StateOf(states, job) == SUCCESS
  {
    forall p | Edge(needs, root, p) ensures p in Ancestors(needs, root) { EdgeReaches(needs, root, p); }
    if NeedsSucceeded(needs, states, root) {
      var good := set job | job in Ancestors(needs, root) && StateOf(states, job) == SUCCESS;
      forall j, p | j in good && Edge(needs, j, p) ensures p in good {
        ReachesThenEdge(needs, root, j, p);
      }
      AncestorsWithin(needs, root, good);
    }
  }

  // -------------------------------------------------------------- workflow

  /** What the checker reads of a job: its needs, whether its condition overrides the
      implicit success check, whether its failure is waved through, whether one of its
      steps does either, and whether all its conditions have an accepted form. */
  datatype Facts = Facts(needs: seq<Job>, statusBypass: bool, continueOnError: bool, stepBypass: bool,
                         conditionsOk: bool)
  {
    predicate Clean() {
      !statusBypass && !continueOnError && !stepBypass && conditionsOk
    }
  }

  type Workflow = map<Job, Facts>

  function NeedsIn(w: Workflow): (needs: Needs)
    ensures needs.Keys == w.Keys
  {
    map job | job in w :: w[job].needs
  }

  // ------------------------------------------------------------- scheduler

  /** Where every job of a workflow run stands. */
  type Board = map<Job, State>

  datatype Action =
    | Start(job: Job)
    | Finish(job: Job, outcome: State)
    | Abandon(job: Job, outcome: State)

  /** A need counts as met when it succeeded, or failed while marked continue-on-error. */
  predicate Green(w: Workflow, b: Board, job: Job) {
    job in w && job in b && (b[job] == SUCCESS || (b[job] == "failure" && w[job].continueOnError))
  }

  predicate Settled(b: Board, job: Job) {
    job in b && b[job] != PENDING && b[job] != RUNNING
  }

  /** A pending job starts when every direct need is met, or, when its condition
      overrides the implicit success check, as soon as they are settled; a running job
      ends in any state; a pending job may be skipped or cancelled. */
  predicate Enabled(w: Workflow, b: Board, a: Action) {
    a.job in b && a.job in w &&
    match a
    case Start(job) =>
      && b[job] == PENDING
      && forall p :: p in w[job].needs ==> Green(w, b, p) || (w[job].statusBypass && Settled(b, p))
    case Finish(job, outcome) => b[job] == RUNNING && outcome in [SUCCESS] + BROKEN_STATES
    case Abandon(job, outcome) => b[job] == PENDING && outcome in BROKEN_STATES
  }

  function Next(b: Board, a: Action): Board {
    b[a.job := if a.Start? then RUNNING else a.outcome]
  }

  /** The board after a sequence of actions; at first every job is pending. */
  function BoardAfter(w: Workflow, actions: seq<Action>): Board {
    if actions == [] then
      map job | job in w :: PENDING
    else
      Next(BoardAfter(w, actions[..|actions| - 1]), actions[|actions| - 1])
  }

  /** A run of the scheduler: each action was enabled when it was taken. */
  predicate Run(w: Workflow, actions: seq<Action>) {
    actions == [] ||
    (Run(w, actions[..|actions| - 1]) &&
     Enabled(w, BoardAfter(w, actions[..|actions| - 1]), actions[|actions| - 1]))
  }

  predicate Started(b: Board, job: Job) {
    job in b && (b[job] == RUNNING || b[job] == SUCCESS)
  }

  ghost predicate StartedAfterNeeds(w: Workflow, b: Board) {
    forall job, p :: job in w && Started(b, job) && !w[job].statusBypass && p in w[job].needs ==> Green(w, b, p)
  }

  lemma {:induction false} RunKeepsOrder(w: Workflow, actions: seq<Action>)
    requires Run(w, actions)
    ensures StartedAfterNeeds(w, BoardAfter(w, actions))
    ensures BoardAfter(w, actions).Keys == w.Keys
    decreases |actions|
  {
    if actions != [] {
      var front := actions[..|actions| - 1];
      RunKeepsOrder(w, front);
      var prior, b := BoardAfter(w, front), BoardAfter(w, actions);
      forall job, p | job in w && Started(b, job) && !w[job].statusBypass && p in w[job].needs
        ensures Green(w, b, p)
      {
        assert Green(w, prior, p);
      }
    }
  }

  ghost predicate NoBypassAbove(w: Workflow, root: Job) {
    && root in w && !w[root].statusBypass
    && forall job :: job in Ancestors(NeedsIn(w), root) ==>
         job in w && !w[job].statusBypass && !w[job].continueOnError
  }

  lemma RunBoardConsistent(w: Workflow, actions: seq<Action>, root: Job)
    requires Run(w, actions) && NoBypassAbove(w, root)
    ensures Consistent(NeedsIn(w), BoardAfter(w, actions), root)
  {
    RunKeepsOrder(w, actions);
    var needs, b := NeedsIn(w), BoardAfter(w, actions);
    forall job, p | job in Ancestors(needs, root) && Edge(needs, job, p) && StateOf(b, job) == SUCCESS
      ensures StateOf(b, p) == SUCCESS
    {
      ReachesThenEdge(needs, root, job, p);
      assert Started(b, job) && Green(w, b, p);
    }
  }

  /** In every run, the scheduler may start a pending job that has no bypass above it
      exactly when the simulation of the current board says it would run. */
  lemma SchedulerAgreesWithSimulation(w: Workflow, actions: seq<Action>, job: Job, unsafe: set<Job>, lenient: set<Job>)
    requires Run(w, actions) && NoBypassAbove(w, job)
    requires StateOf(BoardAfter(w, actions), job) == PENDING
    requires unsafe !! Ancestors(NeedsIn(w), job) && lenient !! Ancestors(NeedsIn(w), job)
    ensures var b := BoardAfter(w, actions);
            Enabled(w, b, Start(job)) <==>
            forall a :: a in Ancestors(NeedsIn(w), job) ==> Judge(a, b, unsafe, lenient).WouldRun?
  {
    var needs, b := NeedsIn(w), BoardAfter(w, actions);
    RunKeepsOrder(w, actions);
    RunBoardConsistent(w, actions, job);
    DirectNeedsDecide(needs, b, job);
    forall p | p in w[job].needs
      ensures p in Ancestors(needs, job) && Edge(needs, job, p) && (Green(w, b, p) <==> StateOf(b, p) == SUCCESS)
    {
      assert Edge(needs, job, p);
      EdgeReaches(needs, job, p);
    }
    assert NeedsSucceeded(needs, b, job) <==> forall p :: p in w[job].needs ==> Green(w, b, p);
  }

  /** In every run, whatever started with no bypass above it has every job it reaches
      behind it, truly successful. */
  lemma StartedMeansAncestorsSucceeded(w: Workflow, actions: seq<Action>, job: Job, gate: Job)
    requires Run(w, actions) && NoBypassAbove(w, job)
    requires Started(BoardAfter(w, actions), job) && Reaches(NeedsIn(w), job, gate)
    ensures var b := BoardAfter(w, actions); gate in b && b[gate] == SUCCESS
  {
    var needs, b := NeedsIn(w), BoardAfter(w, actions);
    RunKeepsOrder(w, actions);
    RunBoardConsistent(w, actions, job);
    forall p | Edge(needs, job, p) ensures StateOf(b, p) == SUCCESS {
      EdgeReaches(needs, job, p);
      assert Green(w, b, p);
    }
    DirectNeedsDecide(needs, b, job);
    assert gate in Ancestors(needs, job);
  }
}
