/** The sync lock around a backup or a restore: how it is taken, what runs under it, and
    how it is given back, when any step may fail. */
module BackupLock {
  datatype Note = WillStart | LockRequest | DidStart | DidFinish

  datatype Step =
    | Connect
    | Post(note: Note)
    | OpenLock
    | TryLock
    | Work
    | Unlock
    | CloseLock

  /** What the device answers to a step; only a lock attempt may be told to wait. */
  datatype Answer = Fine | WouldBlock | Broken

  const MAX_TRIES: nat := 50

  /** The connection: the answer to the n-th step, the steps taken so far, and whether the
      device holds the lock for us and the lock file open. */
  class Session {
    const answers: nat -> Answer
    ghost var log: seq<Step>
    ghost var held: bool
    ghost var open: bool
    var count: nat

    constructor (answers: nat -> Answer)
      ensures this.answers == answers && log == [] && !held && !open && count == 0
    {
      this.answers := answers;
      log, held, open, count := [], false, false, 0;
    }

    method Do(step: Step) returns (answer: Answer)
      modifies this
      ensures answer == answers(old(count)) && count == old(count) + 1 && log == old(log) + [step]
      ensures held == if answer != Fine then old(held) else if step.TryLock? then true
                      else if step.Unlock? || step.CloseLock? then false else old(held)
      ensures open == if answer != Fine then old(open) else if step.OpenLock? then true
                      else if step.CloseLock? then false else old(open)
    {
      answer := answers(count);
      count := count + 1;
      log := log + [step];
      if answer == Fine {
        if step.TryLock? { held := true; }
        if step.Unlock? || step.CloseLock? { held := false; }
        if step.OpenLock? { open := true; }
        if step.CloseLock? { open := false; }
      }
    }
  }

  const PREAMBLE := [Connect, Connect, Post(WillStart), OpenLock, Post(LockRequest)]
  const ENDING := [Unlock, CloseLock, Post(DidFinish)]

  function Tries(n: nat): (r: seq<Step>)
    ensures |r| == n && forall i :: 0 <= i < n ==> r[i] == TryLock
  {
    if n == 0 then [] else Tries(n - 1) + [TryLock]
  }

  /** Every way a call can go. */
  datatype Course =
    | NoLockFile(steps: nat)
    | NeverLocked(tries: nat)
    | StartNotPosted(tries: nat)
    | Released(tries: nat, endings: nat)

  predicate Possible(c: Course) {
    match c
    case NoLockFile(steps) => 1 <= steps <= |PREAMBLE|
    case NeverLocked(tries) => 1 <= tries <= MAX_TRIES
    case StartNotPosted(tries) => 1 <= tries <= MAX_TRIES
    case Released(tries, endings) => 1 <= tries <= MAX_TRIES && 1 <= endings <= |ENDING|
  }

  /** The steps of a course, in order. */
  function Trace(c: Course): seq<Step>
    requires Possible(c)
  {
    match c
    case NoLockFile(steps) => PREAMBLE[..steps]
    case NeverLocked(tries) => PREAMBLE + Tries(tries) + [CloseLock]
    case StartNotPosted(tries) => PREAMBLE + Tries(tries) + [Post(DidStart)]
    case Released(tries, endings) => PREAMBLE + Tries(tries) + [Post(DidStart), Work] + ENDING[..endings]
  }

  predicate AllFine(answers: nat -> Answer, from: nat, to: nat) {
    forall i :: from <= i < to ==> answers(i) == Fine
  }

  /** All attempts but the last were told to wait. */
  predicate Blocked(answers: nat -> Answer, tries: nat) {
    forall i :: |PREAMBLE| <= i < |PREAMBLE| + tries - 1 ==> answers(i) == WouldBlock
  }

  /** The answers that lead to a course, and to no other. */
  predicate Decides(answers: nat -> Answer, c: Course)
    requires Possible(c)
  {
    match c
    case NoLockFile(steps) => AllFine(answers, 0, steps - 1) && answers(steps - 1) != Fine
    case NeverLocked(tries) =>
      var last := answers(|PREAMBLE| + tries - 1);
      AllFine(answers, 0, |PREAMBLE|) && Blocked(answers, tries) && last != Fine
          && (tries == MAX_TRIES || last == Broken)
    case StartNotPosted(tries) =>
      && AllFine(answers, 0, |PREAMBLE|) && Blocked(answers, tries) && answers(|PREAMBLE| + tries - 1) == Fine
      && answers(|PREAMBLE| + tries) != Fine
    case Released(tries, endings) =>
      var n := |PREAMBLE| + tries;
      && AllFine(answers, 0, |PREAMBLE|) && Blocked(answers, tries) && AllFine(answers, n - 1, n + 1)
      && AllFine(answers, n + 2, n + 1 + endings) && (endings < |ENDING| ==> answers(n + 1 + endings) != Fine)
  }

  lemma NotFewerTries(answers: nat -> Answer, c: Course, d: Course)
    requires Possible(c) && Possible(d) && Decides(answers, c) && Decides(answers, d)
    requires !c.NoLockFile? && !d.NoLockFile?
    ensures c.tries >= d.tries
  {
    var last := answers(|PREAMBLE| + c.tries - 1);
    assert c.tries < d.tries ==> last == WouldBlock;
  }

  lemma NotFewerSteps(answers: nat -> Answer, c: Course, d: Course)
    requires Possible(c) && Possible(d) && Decides(answers, c) && Decides(answers, d) && c.NoLockFile?
    ensures d.NoLockFile? && c.steps >= d.steps
  {
    var last := answers(c.steps - 1);
    assert AllFine(answers, 0, |PREAMBLE|) ==> last == Fine;
    assert d.NoLockFile? && c.steps < d.steps ==> last == Fine;
  }

  lemma NotFewerEndings(answers: nat -> Answer, tries: nat, c: Course, d: Course)
    requires Possible(c) && Possible(d) && Decides(answers, c) && Decides(answers, d)
    requires c.Released? && d.Released? && c.tries == d.tries == tries
    ensures c.endings >= d.endings
  {
    var last := answers(|PREAMBLE| + tries + 1 + c.endings);
    assert c.endings < d.endings ==> last == Fine;
  }

  lemma SameKind(answers: nat -> Answer, c: Course, d: Course)
    requires Possible(c) && Possible(d) && Decides(answers, c) && Decides(answers, d)
    requires !c.NoLockFile? && !d.NoLockFile? && c.tries == d.tries
    ensures c.NeverLocked? == d.NeverLocked? && c.Released? == d.Released?
  {
    var n := |PREAMBLE| + c.tries;
    assert c.Released? ==> answers(n - 1) == Fine && answers(n) == Fine;
    assert d.Released? ==> answers(n - 1) == Fine && answers(n) == Fine;
  }

  /** So the answers determine every step of a call. */
  lemma CourseIsDetermined(answers: nat -> Answer, c: Course, d: Course)
    requires Possible(c) && Possible(d) && Decides(answers, c) && Decides(answers, d)
    ensures c == d
  {
    if c.NoLockFile? {
      NotFewerSteps(answers, c, d);
      NotFewerSteps(answers, d, c);
    } else if d.NoLockFile? {
      NotFewerSteps(answers, d, c);
    } else {
      NotFewerTries(answers, c, d);
      NotFewerTries(answers, d, c);
      SameKind(answers, c, d);
      if c.Released? {
        NotFewerEndings(answers, c.tries, c, d);
        NotFewerEndings(answers, c.tries, d, c);
      }
    }
  }

  /** The steps before the first lock attempt. */
  method Prepare(s: Session) returns (ok: bool, steps: nat)
    requires s.log == [] && !s.held && !s.open && s.count == 0
    modifies s
    ensures 1 <= steps <= |PREAMBLE| && s.log == PREAMBLE[..steps] && !s.held && s.count == steps
    ensures AllFine(s.answers, 0, steps - 1) && ok == (s.answers(steps - 1) == Fine)
    ensures ok ==> steps == |PREAMBLE| && s.open
    ensures !ok ==> s.open == (steps == |PREAMBLE|)
  {
    steps := 0;
    ok := true;
    for i := 0 to |PREAMBLE|
      invariant ok && steps == i && s.log == PREAMBLE[..i] && !s.held && s.open == (i >= 4)
      invariant s.count == i && AllFine(s.answers, 0, i)
    {
      assert PREAMBLE[..i + 1] == PREAMBLE[..i] + [PREAMBLE[i]];
      var answer := s.Do(PREAMBLE[i]);
      steps := i + 1;
      if answer != Fine {
        return false, steps;
      }
    }
    assert PREAMBLE[..|PREAMBLE|] == PREAMBLE;
  }

  /** Up to fifty attempts; when none succeeds the lock file is closed again. */
  method TryToLock(s: Session) returns (ok: bool, tries: nat)
    requires !s.held && s.open && s.count == |PREAMBLE|
    modifies s
    ensures 1 <= tries <= MAX_TRIES && Blocked(s.answers, tries)
    ensures ok == (s.answers(|PREAMBLE| + tries - 1) == Fine) && (ok ==> s.count == |PREAMBLE| + tries)
    ensures !ok ==> tries == MAX_TRIES || s.answers(|PREAMBLE| + tries - 1) == Broken
    ensures ok ==> s.held && s.open && s.log == old(s.log) + Tries(tries)
    ensures !ok ==> !s.held && s.log == old(s.log) + Tries(tries) + [CloseLock]
                    && s.open == (s.answers(|PREAMBLE| + tries) != Fine)
  {
    tries := 0;
    while tries < MAX_TRIES
      invariant tries <= MAX_TRIES && !s.held && s.open && s.log == old(s.log) + Tries(tries)
      invariant s.count == |PREAMBLE| + tries
      invariant forall i :: |PREAMBLE| <= i < |PREAMBLE| + tries ==> s.answers(i) == WouldBlock
    {
      var answer := s.Do(TryLock);
      tries := tries + 1;
      assert s.log == old(s.log) + Tries(tries);
      if answer == Fine {
        return true, tries;
      }
      if answer == Broken {
        break;
      }
    }
    var closed := s.Do(CloseLock);
    return false, tries;
  }

  /** Giving the lock back: the first step that fails ends it. */
  method Release(s: Session) returns (ok: bool, steps: nat)
    requires s.held && s.open
    modifies s
    ensures 1 <= steps <= |ENDING| && s.log == old(s.log) + ENDING[..steps]
    ensures ok ==> steps == |ENDING|
    ensures AllFine(s.answers, old(s.count), old(s.count) + steps - 1)
    ensures ok == (s.answers(old(s.count) + steps - 1) == Fine)
    ensures s.held == (steps == 1) && s.open == (steps <= 2)
  {
    ok, steps := true, 0;
    for i := 0 to |ENDING|
      invariant ok && steps == i && s.log == old(s.log) + ENDING[..i] && s.held == (i < 1) && s.open == (i < 2)
      invariant s.count == old(s.count) + i && AllFine(s.answers, old(s.count), s.count)
    {
      assert ENDING[..i + 1] == ENDING[..i] + [ENDING[i]];
      var answer := s.Do(ENDING[i]);
      steps := i + 1;
      if answer != Fine {
        return false, steps;
      }
    }
  }

  /** A backup or a restore as a whole. Its steps are one of the possible courses. The
      device is left holding the lock exactly when the start could not be announced after
      the lock was taken, or unlocking failed. The answers decide the course, and it succeeds
      exactly when the lock was got and every step from there on was answered well. */
  method RunUnderLock(s: Session) returns (ok: bool, course: Course)
    requires s.log == [] && !s.held && !s.open && s.count == 0
    modifies s
    ensures Possible(course) && s.log == Trace(course) && Decides(s.answers, course)
    ensures s.held <==> course.StartNotPosted? || (course.Released? && course.endings == 1)
    ensures course.NoLockFile? ==> s.open == (course.steps == |PREAMBLE|)
    ensures course.NeverLocked? ==> s.open == (s.answers(|PREAMBLE| + course.tries) != Fine)
    ensures course.StartNotPosted? || (course.Released? && course.endings <= 2) ==> s.open
    ensures ok <==> course.Released? && AllFine(s.answers, 0, |PREAMBLE|)
                    && AllFine(s.answers, |PREAMBLE| + course.tries - 1, |PREAMBLE| + course.tries + 5)
    ensures ok ==> course.endings == |ENDING| && !s.held && !s.open
  {
    var prepared, steps := Prepare(s);
    if !prepared {
      return false, NoLockFile(steps);
    }
    assert PREAMBLE[..steps] == PREAMBLE;
    var locked, tries := TryToLock(s);
    if !locked {
      return false, NeverLocked(tries);
    }
    ok, course := WorkLocked(s, tries);
  }

  /** With the lock taken: announce the start, work, and give the lock back whatever came
      of the work. */
  method WorkLocked(s: Session, tries: nat) returns (ok: bool, course: Course)
    requires 1 <= tries <= MAX_TRIES && s.held && s.open && s.log == PREAMBLE + Tries(tries)
    requires s.count == |PREAMBLE| + tries && AllFine(s.answers, 0, |PREAMBLE|) && Blocked(s.answers, tries)
    requires s.answers(|PREAMBLE| + tries - 1) == Fine
    modifies s
    ensures course == StartNotPosted(tries) || (course.Released? && course.tries == tries)
    ensures Possible(course) && s.log == Trace(course) && Decides(s.answers, course)
    ensures s.held <==> course.StartNotPosted? || course.endings == 1
    ensures s.open <==> course.StartNotPosted? || course.endings <= 2
    ensures ok <==> course.Released? && AllFine(s.answers, |PREAMBLE| + tries - 1, |PREAMBLE| + tries + 5)
    ensures ok ==> course.endings == |ENDING| && !s.held && !s.open
  {
    var posted := s.Do(Post(DidStart));
    if posted != Fine {
      return false, StartNotPosted(tries);
    }
    ghost var before := s.log;
    var worked := s.Do(Work);
    var released, endings := Release(s);
    assert before + [Work] == PREAMBLE + Tries(tries) + [Post(DidStart), Work];
    return worked == Fine && released, Released(tries, endings);
  }

  // ------------------------------------------------------------- every run

  /** The notifications among the steps. */
  function Notes(log: seq<Step>): seq<Note> {
    if log == [] then []
    else Notes(log[..|log| - 1]) + if log[|log| - 1].Post? then [log[|log| - 1].note] else []
  }

  function LockTries(log: seq<Step>): nat {
    if log == [] then 0 else LockTries(log[..|log| - 1]) + if log[|log| - 1].TryLock? then 1 else 0
  }

  lemma {:induction false} Append(a: seq<Step>, b: seq<Step>)
    ensures Notes(a + b) == Notes(a) + Notes(b) && LockTries(a + b) == LockTries(a) + LockTries(b)
    decreases |b|
  {
    if b == [] {
      assert a + b == a;
    } else {
      var front := b[..|b| - 1];
      assert (a + b)[..|a + b| - 1] == a + front;
      Append(a, front);
    }
  }

  lemma {:induction false} TriesPostNothing(n: nat)
    ensures Notes(Tries(n)) == [] && LockTries(Tries(n)) == n
  {
    if n > 0 {
      TriesPostNothing(n - 1);
      assert Tries(n)[..n - 1] == Tries(n - 1);
    }
  }

  lemma OneStep(step: Step)
    ensures Notes([step]) == (if step.Post? then [step.note] else [])
            && LockTries([step]) == if step.TryLock? then 1 else 0
  {
    assert [step][..0] == [];
  }

  lemma PreambleNotes(steps: nat)
    requires steps <= |PREAMBLE|
    ensures Notes(PREAMBLE[..steps]) == [WillStart, LockRequest][..if steps < 3 then 0 else if steps < 5 then 1 else 2]
    ensures LockTries(PREAMBLE[..steps]) == 0
    decreases steps
  {
    if steps > 0 {
      PreambleNotes(steps - 1);
      assert PREAMBLE[..steps][..steps - 1] == PREAMBLE[..steps - 1];
    }
  }

  lemma EndingNotes(steps: nat)
    requires steps <= |ENDING|
    ensures Notes(ENDING[..steps]) == (if steps < 3 then [] else [DidFinish]) && LockTries(ENDING[..steps]) == 0
    decreases steps
  {
    if steps > 0 {
      EndingNotes(steps - 1);
      assert ENDING[..steps][..steps - 1] == ENDING[..steps - 1];
    }
  }

  lemma BegunNotes(tries: nat)
    ensures var begun := PREAMBLE + Tries(tries);
            Notes(begun) == [WillStart, LockRequest] && LockTries(begun) == tries
  {
    PreambleNotes(|PREAMBLE|);
    assert PREAMBLE[..|PREAMBLE|] == PREAMBLE;
    TriesPostNothing(tries);
    Append(PREAMBLE, Tries(tries));
  }

  lemma WorkNotes(tries: nat, endings: nat)
    requires endings <= |ENDING|
    ensures var log := PREAMBLE + Tries(tries) + [Post(DidStart), Work] + ENDING[..endings];
            && Notes(log) == [WillStart, LockRequest, DidStart] + (if endings < 3 then [] else [DidFinish])
            && LockTries(log) == tries
  {
    BegunNotes(tries);
    StartNotes();
    EndingNotes(endings);
    AppendTwo(PREAMBLE + Tries(tries), [Post(DidStart), Work], ENDING[..endings]);
  }

  lemma StartNotes()
    ensures Notes([Post(DidStart), Work]) == [DidStart] && LockTries([Post(DidStart), Work]) == 0
  {
    assert [Post(DidStart), Work] == [Post(DidStart)] + [Work];
    OneStep(Post(DidStart));
    OneStep(Work);
    Append([Post(DidStart)], [Work]);
  }

  lemma AppendTwo(a: seq<Step>, b: seq<Step>, c: seq<Step>)
    ensures Notes(a + b + c) == Notes(a) + Notes(b) + Notes(c)
    ensures LockTries(a + b + c) == LockTries(a) + LockTries(b) + LockTries(c)
  {
    Append(a, b);
    Append(a + b, c);
  }

  /** In every course the notifications are a beginning of the four in their order, and
      there are at most fifty lock attempts. */
  lemma NotesInOrder(c: Course)
    requires Possible(c)
    ensures Notes(Trace(c)) <= [WillStart, LockRequest, DidStart, DidFinish]
    ensures LockTries(Trace(c)) <= MAX_TRIES
  {
    match c
    case NoLockFile(steps) => PreambleNotes(steps);
    case NeverLocked(tries) => StepAfterTries(tries, CloseLock);
    case StartNotPosted(tries) => StepAfterTries(tries, Post(DidStart));
    case Released(tries, endings) => WorkNotes(tries, endings);
  }

  lemma StepAfterTries(tries: nat, step: Step)
    requires !step.TryLock?
    ensures var log := PREAMBLE + Tries(tries) + [step];
            && Notes(log) == [WillStart, LockRequest] + (if step.Post? then [step.note] else [])
            && LockTries(log) == tries
  {
    BegunNotes(tries);
    OneStep(step);
    Append(PREAMBLE + Tries(tries), [step]);
  }

  /** In every course the work comes right after the start was announced, with the lock
      taken and not yet given back, and is followed at once by the unlock request,
      whatever came of it. */
  lemma WorkIsBracketed(c: Course, w: nat)
    requires Possible(c) && w < |Trace(c)| && Trace(c)[w] == Work
    ensures c.Released? && 1 <= w && w + 1 < |Trace(c)|
    ensures Trace(c)[w - 1] == Post(DidStart) && Trace(c)[w + 1] == Unlock
    ensures TryLock in Trace(c)[..w] && Unlock !in Trace(c)[..w]
  {
    var begun := if c.NoLockFile? then [] else PREAMBLE + Tries(c.tries);
    assert forall i :: 0 <= i < |begun| ==> begun[i] != Work && begun[i] != Unlock;
    if c.Released? {
      assert w == |begun| + 1;
      assert Trace(c)[..w][|PREAMBLE|] == TryLock;
    }
  }
}
