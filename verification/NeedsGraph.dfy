/** The job graph of the release workflow: which job needs which, what a job
    reaches through needs edges, and when the graph has a cycle. */
module NeedsGraph {
  datatype Job = Job(name: string)
  type Needs = map<Job, seq<Job>>

  /** The direct needs of a job; a name without an entry needs nothing. */
  function Parents(needs: Needs, job: Job): seq<Job> {
    if job in needs then needs[job] else []
  }

  predicate Edge(needs: Needs, job: Job, parent: Job) {
    parent in Parents(needs, job)
  }

  ghost predicate Walk(needs: Needs, w: seq<Job>) {
    |w| > 0 && forall i, j :: 0 <= i < j < |w| && j == i + 1 ==> Edge(needs, w[i], w[j])
  }

  ghost predicate WalkFromTo(needs: Needs, w: seq<Job>, from: Job, to: Job) {
    |w| >= 2 && Walk(needs, w) && w[0] == from && w[|w| - 1] == to
  }

  /** A closed walk. */
  ghost predicate Loop(needs: Needs, w: seq<Job>) {
    |w| >= 2 && Walk(needs, w) && w[0] == w[|w| - 1]
  }

  /** One or more needs edges lead from one job to the other. */
  ghost predicate Reaches(needs: Needs, from: Job, to: Job) {
    exists w :: WalkFromTo(needs, w, from, to)
  }

  ghost predicate Acyclic(needs: Needs) {
    forall job :: !Reaches(needs, job, job)
  }

  /** Every name the graph mentions, as a key or as a need. */
  ghost function Nodes(needs: Needs): (r: set<Job>)
    ensures needs.Keys <= r
  {
    needs.Keys + set job, parent | job in needs && parent in needs[job] :: parent
  }

  lemma ParentIsNode(needs: Needs, job: Job, i: nat)
    requires i < |Parents(needs, job)|
    ensures Parents(needs, job)[i] in Nodes(needs) && Edge(needs, job, Parents(needs, job)[i])
  {
    assert Parents(needs, job)[i] in needs[job];
  }

  ghost function Ancestors(needs: Needs, root: Job): (r: set<Job>)
    ensures forall job :: job in r <==> Reaches(needs, root, job)
  {
    assert forall job | Reaches(needs, root, job) :: job in Nodes(needs) by {
      forall job | Reaches(needs, root, job) ensures job in Nodes(needs) {
        var w :| WalkFromTo(needs, w, root, job);
        assert Edge(needs, w[|w| - 2], w[|w| - 1]);
      }
    }
    set job | job in Nodes(needs) && Reaches(needs, root, job)
  }

  lemma EdgeReaches(needs: Needs, from: Job, to: Job)
    requires Edge(needs, from, to)
    ensures Reaches(needs, from, to)
  {
    assert WalkFromTo(needs, [from, to], from, to);
  }

  lemma ReachesThenEdge(needs: Needs, from: Job, mid: Job, to: Job)
    requires Reaches(needs, from, mid) && Edge(needs, mid, to)
    ensures Reaches(needs, from, to)
  {
    var w :| WalkFromTo(needs, w, from, mid);
    assert WalkFromTo(needs, w + [to], from, to);
  }

  /** A property that holds of the direct needs of a root and passes along every
      edge leaving a job that has it, holds of everything the root reaches. */
  lemma {:induction false} SpreadsAlongWalk(needs: Needs, good: set<Job>, w: seq<Job>, from: Job, to: Job)
    requires WalkFromTo(needs, w, from, to)
    requires forall p :: Edge(needs, from, p) ==> p in good
    requires forall j, p :: j in good && Edge(needs, j, p) ==> p in good
    ensures to in good
    decreases |w|
  {
    if |w| == 2 {
      assert Edge(needs, w[0], w[1]);
    } else {
      var v := w[..|w| - 1];
      assert WalkFromTo(needs, v, from, v[|v| - 1]);
      SpreadsAlongWalk(needs, good, v, from, v[|v| - 1]);
      assert Edge(needs, w[|w| - 2], w[|w| - 1]);
    }
  }

  lemma AncestorsWithin(needs: Needs, root: Job, good: set<Job>)
    requires forall p :: Edge(needs, root, p) ==> p in good
    requires forall j, p :: j in good && Edge(needs, j, p) ==> p in good
    ensures Ancestors(needs, root) <= good
  {
    forall job | job in Ancestors(needs, root) ensures job in good {
      var w :| WalkFromTo(needs, w, root, job);
      SpreadsAlongWalk(needs, good, w, root, job);
    }
  }

  /** Transitive closure by worklist: exactly the jobs reached by one or more edges. */
  method Closure(needs: Needs, root: Job) returns (seen: set<Job>)
    requires root in needs
    ensures seen == Ancestors(needs, root)
  {
    seen := {};
    var stack := needs[root];
    forall p | p in stack ensures Reaches(needs, root, p) { EdgeReaches(needs, root, p); }
    while stack != []
      invariant seen <= Nodes(needs)
      invariant forall job :: job in seen || job in stack ==> Reaches(needs, root, job)
      invariant forall p :: Edge(needs, root, p) ==> p in seen || p in stack
      invariant forall job, p :: job in seen && Edge(needs, job, p) ==> p in seen || p in stack
      decreases |Nodes(needs) - seen|, |stack|
    {
      var job := stack[|stack| - 1];
      ghost var before := stack;
      stack := stack[..|stack| - 1];
      assert before == stack + [job];
      if job in seen {
        continue;
      }
      assert job in Ancestors(needs, root);
      ghost var left := Nodes(needs) - seen;
      seen := seen + {job};
      assert Nodes(needs) - seen == left - {job};
      forall p | p in Parents(needs, job) ensures Reaches(needs, root, p) {
        ReachesThenEdge(needs, root, job, p);
      }
      stack := stack + Parents(needs, job);
    }
    AncestorsWithin(needs, root, seen);
  }

  // ---------------------------------------------------------------- cycles

  ghost predicate Distinct(s: seq<Job>) {
    forall i, j :: 0 <= i < j < |s| ==> s[i] != s[j]
  }

  /** What a reported list is: a simple cycle written out as a closed walk, followed
      by one more copy of the job that closes it. */
  ghost predicate ReportedCycle(needs: Needs, report: seq<Job>) {
    && |report| >= 3
    && report[|report| - 1] == report[|report| - 2]
    && var loop := report[..|report| - 1];
       WalkFromTo(needs, loop, report[0], report[0]) && Distinct(loop[..|loop| - 1])
  }

  ghost predicate AllReported(needs: Needs, found: seq<seq<Job>>) {
    found == [] ||
    (ReportedCycle(needs, found[|found| - 1]) && AllReported(needs, found[..|found| - 1]))
  }

  lemma {:induction false} EachReported(needs: Needs, found: seq<seq<Job>>, k: nat)
    requires AllReported(needs, found) && k < |found|
    ensures ReportedCycle(needs, found[k])
    decreases |found|
  {
    if k < |found| - 1 {
      EachReported(needs, found[..|found| - 1], k);
    }
  }

  datatype Arrow = Arrow(job: Job, parent: Job)

  /** The edge that a reported list closes its cycle with. */
  function ClosingEdge(report: seq<Job>): Arrow
    requires |report| >= 3
  {
    Arrow(report[|report| - 3], report[|report| - 2])
  }

  /** The closing edges of all reports. */
  function ClosingEdges(found: seq<seq<Job>>): set<Arrow> {
    set k | 0 <= k < |found| && |found[k]| >= 3 :: ClosingEdge(found[k])
  }

  lemma OneMoreReport(found: seq<seq<Job>>, report: seq<Job>)
    requires |report| >= 3
    ensures ClosingEdges(found + [report]) == ClosingEdges(found) + {ClosingEdge(report)}
  {
    var longer := found + [report];
    assert longer[|found|] == report;
    forall e | e in ClosingEdges(found) ensures e in ClosingEdges(longer) {
      var k :| 0 <= k < |found| && |found[k]| >= 3 && e == ClosingEdge(found[k]);
      assert longer[k] == found[k];
    }
  }

  /** Each job comes after everything it needs, but for the edges that close a report. */
  ghost predicate Topological(needs: Needs, cut: set<Arrow>, order: seq<Job>) {
    order == [] ||
    var front, last := order[..|order| - 1], order[|order| - 1];
    && Topological(needs, cut, front)
    && forall p :: Edge(needs, last, p) ==> p in front || Arrow(last, p) in cut
  }

  lemma {:induction false} NeedsComeBefore(needs: Needs, cut: set<Arrow>, order: seq<Job>, at: nat, parent: Job)
    requires Topological(needs, cut, order) && at < |order| && Edge(needs, order[at], parent)
    ensures parent in order[..at] || Arrow(order[at], parent) in cut
    decreases |order|
  {
    if at < |order| - 1 {
      var front := order[..|order| - 1];
      assert front[..at] == order[..at];
      NeedsComeBefore(needs, cut, front, at, parent);
    }
  }

  /** The walk uses one of the edges. */
  ghost predicate Uses(w: seq<Job>, cut: set<Arrow>) {
    exists i, j :: 0 <= i < j < |w| && j == i + 1 && Arrow(w[i], w[j]) in cut
  }

  lemma {:induction false} WalkDescends(needs: Needs, cut: set<Arrow>, order: seq<Job>, w: seq<Job>, at: nat)
    requires Topological(needs, cut, order) && Walk(needs, w) && |w| >= 2
    requires at < |order| && order[at] == w[0] && !Uses(w, cut)
    ensures w[|w| - 1] in order[..at]
    decreases |w|
  {
    assert Edge(needs, w[0], w[1]);
    NeedsComeBefore(needs, cut, order, at, w[1]);
    var k :| 0 <= k < at && order[k] == w[1];
    if |w| > 2 {
      var rest := w[1..];
      assert forall i :: 0 <= i < |rest| ==> rest[i] == w[i + 1];
      WalkDescends(needs, cut, order, rest, k);
    }
  }

  /** The first place a job stands in the order. */
  lemma FirstAt(order: seq<Job>, job: Job) returns (at: nat)
    requires job in order
    ensures at < |order| && order[at] == job && job !in order[..at]
  {
    at := 0;
    while order[at] != job
      invariant at < |order| && job !in order[..at] && job in order
      decreases |order| - at
    {
      assert job in order[at + 1..];
      at := at + 1;
    }
  }

  /** An order of all jobs that is topological but for the closing edges: every cycle
      uses one of those edges. */
  lemma EveryCycleIsCut(needs: Needs, cut: set<Arrow>, order: seq<Job>, w: seq<Job>)
    requires Topological(needs, cut, order)
    requires forall job :: job in needs ==> job in order
    requires Loop(needs, w)
    ensures Uses(w, cut)
  {
    if !Uses(w, cut) {
      assert Edge(needs, w[0], w[1]);
      var at := FirstAt(order, w[0]);
      WalkDescends(needs, cut, order, w, at);
    }
  }

  lemma PartOfWalk(needs: Needs, w: seq<Job>, i: nat, j: nat)
    requires Walk(needs, w) && i < j < |w|
    ensures Reaches(needs, w[i], w[j])
  {
    var part := w[i..j + 1];
    assert forall k :: 0 <= k < |part| ==> part[k] == w[i + k];
    assert WalkFromTo(needs, part, w[i], w[j]);
  }

  lemma AroundTheCycle(needs: Needs, w: seq<Job>, i: nat)
    requires Loop(needs, w) && i < |w|
    ensures Reaches(needs, w[0], w[i]) && Reaches(needs, w[i], w[0])
  {
    PartOfWalk(needs, w, 0, |w| - 1);
    if 0 < i < |w| - 1 {
      PartOfWalk(needs, w, 0, i);
      PartOfWalk(needs, w, i, |w| - 1);
    }
  }

  /** A report starts with a job that lies on a cycle with this one. */
  ghost predicate Represented(needs: Needs, found: seq<seq<Job>>, job: Job) {
    exists c :: Closes(found, c) && Reaches(needs, job, c) && Reaches(needs, c, job)
  }

  lemma CutMeansRepresented(needs: Needs, found: seq<seq<Job>>, w: seq<Job>)
    requires Loop(needs, w) && Uses(w, ClosingEdges(found))
    requires forall report :: report in found ==> ReportedCycle(needs, report)
    ensures Represented(needs, found, w[0])
  {
    var i, j :| 0 <= i < j < |w| && j == i + 1 && Arrow(w[i], w[j]) in ClosingEdges(found);
    var k :| 0 <= k < |found| && |found[k]| >= 3 && Arrow(w[i], w[j]) == ClosingEdge(found[k]);
    assert found[k] in found;
    assert found[k][0] == w[j];
    AroundTheCycle(needs, w, j);
  }

  function IndexOf(path: seq<Job>, job: Job): (r: nat)
    requires job in path
    ensures r < |path| && path[r] == job && job !in path[..r]
  {
    if path[0] == job then 0 else 1 + IndexOf(path[1..], job)
  }

  /** The path that meets a grey job again closes a simple cycle. */
  lemma PathClosesCycle(needs: Needs, path: seq<Job>, start: nat)
    requires Walk(needs, path) && Distinct(path[..|path| - 1])
    requires start < |path| - 1 && path[start] == path[|path| - 1]
    ensures ReportedCycle(needs, path[start..] + [path[start]])
  {
    var loop := path[start..];
    var report := loop + [path[start]];
    assert report[..|report| - 1] == loop;
    assert loop[..|loop| - 1] == path[..|path| - 1][start..];
    forall i | 0 <= i < |loop| - 1 ensures Edge(needs, loop[i], loop[i + 1]) {
      assert Edge(needs, path[start + i], path[start + i + 1]);
    }
  }

  /** The current path: each job on it was reached from the one before, and the grey
      jobs are exactly those before its end, none of them twice. */
  ghost predicate GreyPath(needs: Needs, visiting: set<Job>, path: seq<Job>) {
    if |path| < 2 then
      |path| == 1 && visiting == {}
    else
      var last, up := path[|path| - 1], path[|path| - 2];
      && up in visiting && Edge(needs, up, last)
      && GreyPath(needs, visiting - {up}, path[..|path| - 1])
  }

  lemma {:induction false} GreyPathIsSimple(needs: Needs, visiting: set<Job>, path: seq<Job>)
    requires GreyPath(needs, visiting, path)
    ensures Walk(needs, path) && Distinct(path[..|path| - 1])
    ensures forall job :: job in visiting <==> job in path[..|path| - 1]
    decreases |path|
  {
    if |path| >= 2 {
      var front, up := path[..|path| - 1], path[|path| - 2];
      GreyPathIsSimple(needs, visiting - {up}, front);
      assert front == front[..|front| - 1] + [up];
      assert forall job :: job in visiting <==> job in visiting - {up} || job == up;
    }
  }

  lemma CloseReport(needs: Needs, visiting: set<Job>, path: seq<Job>)
    requires GreyPath(needs, visiting, path) && path[|path| - 1] in visiting
    ensures |path| >= 2 && path[|path| - 2] in visiting && path[|path| - 1] in path
    ensures var report := path[IndexOf(path, path[|path| - 1])..] + [path[|path| - 1]];
            ReportedCycle(needs, report) && LastEdge(path) == {ClosingEdge(report)}
  {
    GreyPathIsSimple(needs, visiting, path);
    var start := IndexOf(path, path[|path| - 1]);
    assert start < |path| - 1;
    PathClosesCycle(needs, path, start);
    CloseEdge(path, start);
  }

  lemma CloseEdge(path: seq<Job>, start: nat)
    requires start < |path| - 1
    ensures var report := path[start..] + [path[|path| - 1]];
            |report| >= 3 && LastEdge(path) == {ClosingEdge(report)}
  {
  }

  lemma FewerWhite(all: set<Job>, visiting: set<Job>, job: Job)
    requires job in all && job !in visiting
    ensures |all - (visiting + {job})| < |all - visiting|
  {
    assert all - (visiting + {job}) == all - visiting - {job};
  }

  /** Some report starts, and so ends, with the job. */
  ghost predicate Closes(found: seq<seq<Job>>, job: Job) {
    exists k :: 0 <= k < |found| && found[k] != [] && found[k][0] == job
  }

  /** The jobs that the edges lead to. */
  function Heads(cut: set<Arrow>): set<Job> {
    set e | e in cut :: e.parent
  }

  lemma HeadsClose(needs: Needs, found: seq<seq<Job>>, job: Job)
    requires forall report :: report in found ==> ReportedCycle(needs, report)
    requires job in Heads(ClosingEdges(found))
    ensures Closes(found, job)
  {
    var k :| 0 <= k < |found| && |found[k]| >= 3 && ClosingEdge(found[k]).parent == job;
    assert found[k] in found;
  }

  lemma {:induction false} TopologicalAt(needs: Needs, cut: set<Arrow>, order: seq<Job>, job: Job, p: Job)
    requires Topological(needs, cut, order) && job in order && Edge(needs, job, p)
    ensures p in order || Arrow(job, p) in cut
  {
    var at :| 0 <= at < |order| && order[at] == job;
    NeedsComeBefore(needs, cut, order, at, p);
  }

  /** A job on a cycle that is alone grey, with all its needs examined, has been reported. */
  lemma RootIsClosed(needs: Needs, job: Job, visited: set<Job>, finished: seq<Job>, cut: set<Arrow>)
    requires Ordered(needs, cut, visited, finished)
    requires Examined(needs, visited, cut, job) && Heads(cut) <= visited + {job}
    requires job !in visited && Reaches(needs, job, job)
    ensures job in Heads(cut)
  {
    assert job in Ancestors(needs, job);
    if job !in Heads(cut) {
      OrderedIsTopological(needs, cut, visited, finished);
      forall j, p | j in visited && Edge(needs, j, p) ensures p in visited {
        TopologicalAt(needs, cut, finished, j, p);
      }
      AncestorsWithin(needs, job, visited);
    }
  }

  /** Every need of the job is black, or its edge closes a report. */
  ghost predicate Examined(needs: Needs, visited: set<Job>, cut: set<Arrow>, job: Job) {
    forall p :: Edge(needs, job, p) ==> p in visited || Arrow(job, p) in cut
  }

  /** The black jobs in the order they were finished, each examined by then. */
  ghost predicate Ordered(needs: Needs, cut: set<Arrow>, visited: set<Job>, order: seq<Job>) {
    if order == [] then visited == {}
    else
      var last := order[|order| - 1];
      && last in visited && Examined(needs, visited - {last}, cut, last)
      && Ordered(needs, cut, visited - {last}, order[..|order| - 1])
  }

  lemma {:induction false} OrderedOn(needs: Needs, cut: set<Arrow>, cut': set<Arrow>, visited: set<Job>,
                                     order: seq<Job>)
    requires Ordered(needs, cut, visited, order) && cut <= cut'
    ensures Ordered(needs, cut', visited, order)
    decreases |order|
  {
    if order != [] {
      var last := order[|order| - 1];
      OrderedOn(needs, cut, cut', visited - {last}, order[..|order| - 1]);
    }
  }

  lemma OneMoreOrdered(needs: Needs, cut: set<Arrow>, visited: set<Job>, order: seq<Job>, job: Job)
    requires Ordered(needs, cut, visited, order) && job !in visited && Examined(needs, visited, cut, job)
    ensures Ordered(needs, cut, visited + {job}, order + [job])
  {
    assert (order + [job])[..|order|] == order;
    assert visited + {job} - {job} == visited;
  }

  lemma {:induction false} OrderedIsTopological(needs: Needs, cut: set<Arrow>, visited: set<Job>, order: seq<Job>)
    requires Ordered(needs, cut, visited, order)
    ensures Topological(needs, cut, order) && forall job :: job in visited <==> job in order
    decreases |order|
  {
    if order != [] {
      var front, last := order[..|order| - 1], order[|order| - 1];
      OrderedIsTopological(needs, cut, visited - {last}, front);
      assert forall job :: job in order <==> job in front || job == last;
    }
  }

  /** No list of needs names a job twice. */
  ghost predicate Plain(needs: Needs) {
    forall job :: Distinct(Parents(needs, job))
  }

  /** The jobs of this set close no further reports, except with these edges. */
  ghost predicate Quiet(jobs: set<Job>, cut: set<Arrow>, cut': set<Arrow>, edges: set<Arrow>) {
    forall e :: e in cut' && e.job in jobs ==> e in cut || e in edges
  }

  lemma QuietOn(job: Job, parent: Job, others: set<Job>, cut: set<Arrow>, cut': set<Arrow>)
    requires Quiet(others + {job}, cut, cut', {Arrow(job, parent)}) && job !in others
    ensures Quiet(others, cut, cut', {})
    ensures forall e :: e in cut' && e.job == job ==> e in cut || e.parent == parent
  {
  }

  lemma QuietThrough(others: set<Job>, first: set<Arrow>, second: set<Arrow>, third: set<Arrow>)
    requires Quiet(others, first, second, {}) && Quiet(others, second, third, {})
    ensures Quiet(others, first, third, {})
  {
  }

  lemma AllExamined(needs: Needs, visited: set<Job>, cut: set<Arrow>, job: Job)
    requires forall k :: 0 <= k < |Parents(needs, job)| ==>
               Parents(needs, job)[k] in visited || Arrow(job, Parents(needs, job)[k]) in cut
    ensures Examined(needs, visited, cut, job)
  {
  }

  /** The reports are cycles, and these are the edges that close them. */
  ghost predicate Accounted(needs: Needs, found: seq<seq<Job>>, cut: set<Arrow>) {
    AllReported(needs, found) && cut == ClosingEdges(found) && (Plain(needs) ==> |cut| == |found|)
  }

  lemma AccountedOn(needs: Needs, found: seq<seq<Job>>, cut: set<Arrow>, report: seq<Job>)
    requires Accounted(needs, found, cut) && ReportedCycle(needs, report)
    requires Plain(needs) ==> ClosingEdge(report) !in cut
    ensures Accounted(needs, found + [report], cut + {ClosingEdge(report)})
  {
    assert (found + [report])[..|found|] == found;
    OneMoreReport(found, report);
  }

  lemma ReportFits(needs: Needs, visiting: set<Job>, visited: set<Job>, found: seq<seq<Job>>, cut: set<Arrow>,
                   path: seq<Job>)
    requires GreyPath(needs, visiting, path) && path[|path| - 1] in visiting
    requires Accounted(needs, found, cut) && (Plain(needs) ==> LastEdge(path) !! cut)
    requires Within(cut, visited + visiting)
    ensures |path| >= 2 && path[|path| - 1] in path && Within(cut + LastEdge(path), visited + visiting)
    ensures var report := path[IndexOf(path, path[|path| - 1])..] + [path[|path| - 1]];
            Accounted(needs, found + [report], cut + LastEdge(path))
  {
    CloseReport(needs, visiting, path);
    AccountedOn(needs, found, cut, path[IndexOf(path, path[|path| - 1])..] + [path[|path| - 1]]);
  }

  ghost predicate Within(cut: set<Arrow>, jobs: set<Job>) {
    forall e :: e in cut ==> e.job in jobs && e.parent in jobs
  }

  /** The edge by which a path came to its last job. */
  function LastEdge(path: seq<Job>): set<Arrow> {
    if |path| < 2 then {} else {Arrow(path[|path| - 2], path[|path| - 1])}
  }

  /** The three-colour depth-first search: grey jobs are on the current path, black
      jobs are finished. */
  class CycleFinder {
    const needs: Needs
    var visiting: set<Job>
    var visited: set<Job>
    var found: seq<seq<Job>>
    ghost var finished: seq<Job>
    ghost var cut: set<Arrow>

    ghost predicate Valid()
      reads this
    {
      && visiting <= Nodes(needs) && visiting !! visited
      && Ordered(needs, cut, visited, finished)
      && Accounted(needs, found, cut)
      && Within(cut, visited + visiting)
    }

    constructor (needs: Needs)
      ensures Valid() && this.needs == needs
      ensures visiting == {} && visited == {} && found == []
    {
      this.needs := needs;
      visiting, visited, found, finished, cut := {}, {}, [], [], {};
    }

    /** A grey job met again: record the cycle that the path has closed. */
    method Report(job: Job, path: seq<Job>)
      requires Valid() && job in visiting
      requires GreyPath(needs, visiting, path) && path[|path| - 1] == job
      requires Plain(needs) ==> LastEdge(path) !! cut
      modifies this`found, this`cut
      ensures Valid() && cut == old(cut) + LastEdge(path) && |path| >= 2
    {
      ReportFits(needs, visiting, visited, found, cut, path);
      OrderedOn(needs, cut, cut + LastEdge(path), visited, finished);
      var start := IndexOf(path, job);
      found := found + [path[start..] + [job]];
      cut := cut + LastEdge(path);
    }

    method Visit(job: Job, path: seq<Job>, ghost others: set<Job>)
      requires Valid() && job in Nodes(needs)
      requires GreyPath(needs, visiting, path) && path[|path| - 1] == job
      requires (Plain(needs) ==> LastEdge(path) !! cut) && others <= visited + visiting
      modifies this
      ensures Valid() && visiting == old(visiting) && old(visited) <= visited && old(cut) <= cut
      ensures job in visited || (|path| >= 2 && LastEdge(path) <= cut)
      ensures Quiet(others, old(cut), cut, LastEdge(path))
      ensures visiting == {} && job !in old(visited) && Reaches(needs, job, job) ==> job in Heads(cut)
      decreases |Nodes(needs) - visiting|, 0, 1
    {
      if job in visiting {
        Report(job, path);
        return;
      }
      if job in visited {
        return;
      }
      Explore(job, path, others);
    }

    /** A white job: it is grey while its needs are visited, and then black. */
    method Explore(job: Job, path: seq<Job>, ghost others: set<Job>)
      requires Valid() && job in Nodes(needs) && job !in visiting && job !in visited
      requires GreyPath(needs, visiting, path) && path[|path| - 1] == job && others <= visited + visiting
      modifies this
      ensures Valid() && visiting == old(visiting) && old(visited) + {job} <= visited && old(cut) <= cut
      ensures Quiet(others, old(cut), cut, {})
      ensures visiting == {} && Reaches(needs, job, job) ==> job in Heads(cut)
      decreases |Nodes(needs) - visiting|, 0, 0
    {
      Start(job);
      VisitNeeds(job, path, others);
      Finish(job);
    }

    /** The loop over all jobs of the workflow. */
    method VisitAll(order: seq<Job>)
      requires Valid() && visiting == {} && visited == {} && forall job :: job in order ==> job in Nodes(needs)
      modifies this
      ensures Valid() && visiting == {} && forall job :: job in order ==> job in visited
      ensures order != [] && Reaches(needs, order[0], order[0]) ==> order[0] in Heads(cut)
    {
      for i := 0 to |order|
        invariant Valid() && visiting == {}
        invariant forall k :: 0 <= k < i ==> order[k] in visited
        invariant i == 0 ==> visited == {}
        invariant i > 0 && Reaches(needs, order[0], order[0]) ==> order[0] in Heads(cut)
      {
        Visit(order[i], [order[i]], {});
      }
    }

    /** A white job turns grey. */
    method Start(job: Job)
      requires Valid() && job in Nodes(needs) && job !in visiting
      requires job !in visited
      modifies this`visiting
      ensures Valid() && visiting == old(visiting) + {job} && visiting - {job} == old(visiting)
      ensures forall e :: e in cut ==> e.job != job
      ensures |Nodes(needs) - visiting| < |Nodes(needs) - old(visiting)|
    {
      FewerWhite(Nodes(needs), visiting, job);
      visiting := visiting + {job};
    }

    /** A grey job turns black. */
    method Finish(job: Job)
      requires Valid() && job in visiting && Examined(needs, visited, cut, job)
      modifies this`visiting, this`visited, this`finished
      ensures Valid() && visiting == old(visiting) - {job} && visited == old(visited) + {job}
      ensures visiting == {} && Reaches(needs, job, job) ==> job in Heads(cut)
    {
      if visiting == {job} && Reaches(needs, job, job) {
        RootIsClosed(needs, job, visited, finished, cut);
      }
      OneMoreOrdered(needs, cut, visited, finished, job);
      visiting := visiting - {job};
      visited := visited + {job};
      finished := finished + [job];
      assert visited + visiting == old(visited + visiting);
    }

    /** The loop of Visit over the direct needs of the job just turned grey. */
    method VisitNeeds(job: Job, path: seq<Job>, ghost others: set<Job>)
      requires Valid() && job in visiting && forall e :: e in cut ==> e.job != job
      requires GreyPath(needs, visiting - {job}, path) && path[|path| - 1] == job
      requires others <= visited + visiting && job !in others
      modifies this
      ensures Valid() && visiting == old(visiting) && old(visited) <= visited && old(cut) <= cut
      ensures Examined(needs, visited, cut, job)
      ensures Quiet(others, old(cut), cut, {})
      decreases |Nodes(needs) - visiting|, 1, 1
    {
      var parents := Parents(needs, job);
      for i := 0 to |parents|
        invariant Valid() && visiting == old(visiting) && old(visited) <= visited && old(cut) <= cut
        invariant forall k :: 0 <= k < i ==> parents[k] in visited || Arrow(job, parents[k]) in cut
        invariant Quiet(others, old(cut), cut, {})
        invariant forall e :: e in cut && e.job == job ==> e.parent in parents[..i]
      {
        ghost var was := cut;
        VisitNeed(job, path, i, others);
        QuietThrough(others, old(cut), was, cut);
      }
      AllExamined(needs, visited, cut, job);
    }

    /** One need of the job: the path goes on to it. */
    method VisitNeed(job: Job, path: seq<Job>, i: nat, ghost others: set<Job>)
      requires Valid() && job in visiting && i < |Parents(needs, job)|
      requires forall e :: e in cut && e.job == job ==> e.parent in Parents(needs, job)[..i]
      requires GreyPath(needs, visiting - {job}, path) && path[|path| - 1] == job
      requires others <= visited + visiting && job !in others
      modifies this
      ensures Valid() && visiting == old(visiting) && old(visited) <= visited && old(cut) <= cut
      ensures Parents(needs, job)[i] in visited || Arrow(job, Parents(needs, job)[i]) in cut
      ensures Quiet(others, old(cut), cut, {})
      ensures forall e :: e in cut && e.job == job ==> e.parent in Parents(needs, job)[..i + 1]
      decreases |Nodes(needs) - visiting|, 1, 0
    {
      var parent := Parents(needs, job)[i];
      ParentIsNode(needs, job, i);
      NeedsPath(needs, visiting, job, path, i);
      Visit(parent, path + [parent], others + {job});
      QuietOn(job, parent, others, old(cut), cut);
      assert Parents(needs, job)[..i + 1] == Parents(needs, job)[..i] + [parent];
    }
  }

  /** The path goes on to a need of its last job; the edge there has not been used yet. */
  lemma NeedsPath(needs: Needs, visiting: set<Job>, job: Job, path: seq<Job>, i: nat)
    requires i < |Parents(needs, job)| && job in visiting
    requires GreyPath(needs, visiting - {job}, path) && path[|path| - 1] == job
    ensures var parent := Parents(needs, job)[i];
            GreyPath(needs, visiting, path + [parent]) && LastEdge(path + [parent]) == {Arrow(job, parent)}
    ensures Plain(needs) ==> Parents(needs, job)[i] !in Parents(needs, job)[..i]
  {
    assert (path + [Parents(needs, job)[i]])[..|path|] == path;
    assert Plain(needs) ==> Distinct(Parents(needs, job));
  }

  /** A reported list as printed is itself a walk only for a job that needs itself:
      the closing job is written twice. */
  lemma ReportIsAWalkOnlyForSelfLoops(needs: Needs, report: seq<Job>)
    requires ReportedCycle(needs, report)
    ensures Walk(needs, report) <==> Edge(needs, report[0], report[0])
  {
    var n := |report|;
    var loop := report[..n - 1];
    assert loop[|loop| - 1] == report[n - 2];
    if Walk(needs, report) {
      assert Edge(needs, report[n - 2], report[n - 1]);
    }
    if Edge(needs, report[0], report[0]) {
      forall i | 0 <= i < n - 1 ensures Edge(needs, report[i], report[i + 1]) {
        if i < n - 2 {
          assert Edge(needs, loop[i], loop[i + 1]);
        }
      }
    }
  }

  /** Every job on a cycle needs itself. */
  ghost predicate SelfNeeding(needs: Needs) {
    forall job :: Reaches(needs, job, job) ==> Edge(needs, job, job)
  }

  lemma WalksWhenSelfNeeding(needs: Needs, found: seq<seq<Job>>)
    requires SelfNeeding(needs) && forall report :: report in found ==> ReportedCycle(needs, report)
    ensures forall report :: report in found ==> Walk(needs, report)
  {
    forall report | report in found ensures Walk(needs, report) {
      assert Reaches(needs, report[0], report[0]);
      ReportIsAWalkOnlyForSelfLoops(needs, report);
    }
  }

  lemma NotAllWalks(needs: Needs, found: seq<seq<Job>>, job: Job)
    requires Closes(found, job) && !Edge(needs, job, job)
    requires forall report :: report in found ==> ReportedCycle(needs, report)
    ensures exists report :: report in found && !Walk(needs, report)
  {
    var k :| 0 <= k < |found| && found[k] != [] && found[k][0] == job;
    assert found[k] in found;
    ReportIsAWalkOnlyForSelfLoops(needs, found[k]);
  }

  /** The cycle check visits the jobs in the order the workflow lists them. Everything it
      reports is a cycle of the graph, self-loops and unknown names included, and every cycle
      of the graph uses an edge that closes a report: without those edges the graph would have
      no cycle, and no edge closes two reports when no job is named twice in a list of needs.
      So nothing is reported exactly when there is no cycle, and each job on a cycle shares a
      cycle with the first job of a report. The first job, if it is on a cycle, starts a report
      itself. All that is reported is a walk whenever every job on a cycle needs itself, and
      otherwise not all is, when a job that does not comes first. */
  method Cycles(needs: Needs, order: seq<Job>) returns (found: seq<seq<Job>>)
    requires forall job :: job in order <==> job in needs
    ensures forall report :: report in found ==> ReportedCycle(needs, report)
    ensures forall w :: Loop(needs, w) ==> Uses(w, ClosingEdges(found))
    ensures Plain(needs) ==> |ClosingEdges(found)| == |found|
    ensures forall job :: Reaches(needs, job, job) ==> Represented(needs, found, job)
    ensures found == [] <==> Acyclic(needs)
    ensures order != [] && Reaches(needs, order[0], order[0]) ==> Closes(found, order[0])
    ensures SelfNeeding(needs) ==> forall report :: report in found ==> Walk(needs, report)
    ensures order != [] && Reaches(needs, order[0], order[0]) && !Edge(needs, order[0], order[0]) ==>
              exists report :: report in found && !Walk(needs, report)
  {
    var finder := new CycleFinder(needs);
    finder.VisitAll(order);
    found := finder.found;
    AllCyclesReported(needs, found, finder.cut, finder.visited, finder.finished);
    FirstJobReported(needs, order, found);
    if SelfNeeding(needs) {
      WalksWhenSelfNeeding(needs, found);
    }
  }

  lemma FirstJobReported(needs: Needs, order: seq<Job>, found: seq<seq<Job>>)
    requires forall report :: report in found ==> ReportedCycle(needs, report)
    requires order != [] && Reaches(needs, order[0], order[0]) ==> order[0] in Heads(ClosingEdges(found))
    ensures order != [] && Reaches(needs, order[0], order[0]) ==> Closes(found, order[0])
    ensures order != [] && Reaches(needs, order[0], order[0]) && !Edge(needs, order[0], order[0]) ==>
              exists report :: report in found && !Walk(needs, report)
  {
    if order != [] && Reaches(needs, order[0], order[0]) {
      HeadsClose(needs, found, order[0]);
      if !Edge(needs, order[0], order[0]) {
        NotAllWalks(needs, found, order[0]);
      }
    }
  }

  /** What a finished search has found. */
  lemma AllCyclesReported(needs: Needs, found: seq<seq<Job>>, cut: set<Arrow>, visited: set<Job>, finished: seq<Job>)
    requires Accounted(needs, found, cut) && Ordered(needs, cut, visited, finished) && needs.Keys <= visited
    ensures forall report :: report in found ==> ReportedCycle(needs, report)
    ensures forall w :: Loop(needs, w) ==> Uses(w, ClosingEdges(found))
    ensures forall job :: Reaches(needs, job, job) ==> Represented(needs, found, job)
    ensures found == [] <==> Acyclic(needs)
  {
    forall report | report in found ensures ReportedCycle(needs, report) {
      var k :| 0 <= k < |found| && found[k] == report;
      EachReported(needs, found, k);
    }
    OrderedIsTopological(needs, cut, visited, finished);
    forall w | Loop(needs, w) ensures Uses(w, ClosingEdges(found)) {
      EveryCycleIsCut(needs, cut, finished, w);
    }
    AllRepresented(needs, found);
  }

  /** Reports that are cycles and cut every cycle: they are there exactly when there is one,
      and every job on a cycle is represented. */
  lemma AllRepresented(needs: Needs, found: seq<seq<Job>>)
    requires forall report :: report in found ==> ReportedCycle(needs, report)
    requires forall w :: Loop(needs, w) ==> Uses(w, ClosingEdges(found))
    ensures forall job :: Reaches(needs, job, job) ==> Represented(needs, found, job)
    ensures found == [] <==> Acyclic(needs)
  {
    forall job | Reaches(needs, job, job) ensures Represented(needs, found, job) {
      var w :| WalkFromTo(needs, w, job, job);
      CutMeansRepresented(needs, found, w);
    }
    if found != [] {
      assert ReportedCycle(needs, found[0]);
      assert Reaches(needs, found[0][0], found[0][0]);
    }
  }

  /** Two jobs that need each other: there are reports, and none is a walk. */
  method TwoJobs(a: Job, b: Job) returns (found: seq<seq<Job>>)
    requires a != b
    ensures found != [] && forall report :: report in found ==> !Walk(map[a := [b], b := [a]], report)
  {
    var needs: Needs := map[a := [b], b := [a]];
    found := Cycles(needs, [a, b]);
    assert WalkFromTo(needs, [a, b, a], a, a);
    assert Reaches(needs, a, a);
    forall report | report in found ensures !Walk(needs, report) {
      ReportIsAWalkOnlyForSelfLoops(needs, report);
    }
  }
}
