/** The upload loop itself, against the recursive copy. */
module BundleUpload {
  import opened BundleTree
  import opened BundleStaging

  /** A local node still to be copied, and where. */
  datatype Task = Task(path: string, node: Node)

  /** What a call starts from, what should be on the device in the end, and the files to
      upload for it. */
  datatype Plan = Plan(start: RemoteTree, target: set<Item>, files: multiset<Item>)

  function PlanFor(start: RemoteTree, bundle: seq<Entry>, root: string): Plan {
    Plan(start, RemoteItems(start) + CopyOf(Dir(bundle), root), FilesOf(Dir(bundle), root))
  }

  /** Everything aimed at has its path taken already or is still to do, nothing else is on
      the device, and the files uploaded and those left are all the files. */
  ghost predicate Going(plan: Plan, remote: RemoteTree, deeds: seq<Deed>, todo: set<Item>, left: multiset<Item>) {
    && todo <= plan.target && RemoteItems(remote) <= plan.target
    && (forall x :: x in plan.target ==> x.path in remote || x in todo)
    && Uploads(deeds) + left == plan.files
    && remote == Replay(plan.start, deeds) && ParentsFirst(deeds)
  }

  ghost predicate Ongoing(plan: Plan, afc: AfcClient, todo: set<Item>, left: multiset<Item>)
    reads afc
  {
    Going(plan, afc.remote, afc.deeds, todo, left)
  }

  lemma RemoteItemsAdd(remote: RemoteTree, path: string, r: Remote)
    ensures RemoteItems(remote[path := r]) <= RemoteItems(remote) + {Item(path, r)}
  {
  }

  lemma FileDone(plan: Plan, remote: RemoteTree, deeds: seq<Deed>, todo: set<Item>, left: multiset<Item>,
                 base: string, name: string, bytes: seq<bv8>)
    requires var x := Item(Child(base, name), RemoteFile(bytes));
             Going(plan, remote, deeds, {x} + todo, multiset{x} + left)
    requires Ensured(base) in deeds
    ensures Going(plan, remote[Child(base, name) := RemoteFile(bytes)],
                  deeds + [Uploaded(base, name, bytes)], todo, left)
  {
    RemoteItemsAdd(remote, Child(base, name), RemoteFile(bytes));
    assert (deeds + [Uploaded(base, name, bytes)])[..|deeds|] == deeds;
  }

  lemma DirDone(plan: Plan, remote: RemoteTree, deeds: seq<Deed>, todo: set<Item>, left: multiset<Item>, path: string)
    requires Going(plan, remote, deeds, {Item(path, RemoteDir)} + todo, left)
    ensures Going(plan, if path in remote then remote else remote[path := RemoteDir],
                  deeds + [Ensured(path)], todo, left)
  {
    RemoteItemsAdd(remote, path, RemoteDir);
    assert (deeds + [Ensured(path)])[..|deeds|] == deeds;
  }

  predicate Copyable(entry: Entry) {
    entry.name != "" && (entry.node.Dir? || entry.node.RegularFile?)
  }

  ghost predicate SameOutside(before: RemoteTree, after: RemoteTree, base: string) {
    forall p :: !Under(p, base) ==> (p in before <==> p in after) && (p in before ==> before[p] == after[p])
  }

  /** Nothing has failed so far, unless something can. */
  ghost predicate FaultIsReal(afc: AfcClient)
    reads afc
  {
    (forall n :: !afc.fails(n)) ==> !afc.faulted
  }

  /** Opens a local file and uploads it. */
  method StageFile(afc: AfcClient, name: string, bytes: seq<bv8>, base: string,
                   ghost plan: Plan, ghost todo: set<Item>, ghost left: multiset<Item>)
    returns (ok: bool)
    requires var x := Item(Child(base, name), RemoteFile(bytes));
             Ongoing(plan, afc, {x} + todo, multiset{x} + left)
    requires Ensured(base) in afc.deeds && !afc.faulted
    modifies afc
    ensures ok == !afc.faulted && FaultIsReal(afc)
    ensures ok ==> Ongoing(plan, afc, todo, left)
    ensures SameOutside(old(afc.remote), afc.remote, base) && old(afc.deeds) <= afc.deeds
  {
    ok := afc.Local();
    if ok {
      FileDone(plan, afc.remote, afc.deeds, todo, left, base, name, bytes);
      ChildIsUnder(base, name);
      ok := afc.Upload(base, name, bytes);
    }
  }

  /** One directory entry: a file is uploaded, a directory left for later, anything else is
      an error. */
  method StageEntry(afc: AfcClient, entry: Entry, base: string,
                    ghost plan: Plan, ghost todo: set<Item>, ghost left: multiset<Item>)
    returns (ok: bool)
    requires var path := Child(base, entry.name);
             Ongoing(plan, afc, CopyOf(entry.node, path) + todo, FilesOf(entry.node, path) + left)
    requires Ensured(base) in afc.deeds && !afc.faulted
    modifies afc
    ensures ok == (!afc.faulted && Copyable(entry)) && FaultIsReal(afc)
    ensures ok ==> var path := Child(base, entry.name);
                   if entry.node.Dir? then Ongoing(plan, afc, CopyOf(entry.node, path) + todo,
                                                   FilesOf(entry.node, path) + left)
                   else Ongoing(plan, afc, todo, left)
    ensures SameOutside(old(afc.remote), afc.remote, base) && old(afc.deeds) <= afc.deeds
  {
    var inspected := afc.Local();
    if !inspected || entry.name == "" {
      return false;
    }
    match entry.node
    case Dir(_) => return true;
    case RegularFile(bytes) => ok := StageFile(afc, entry.name, bytes, base, plan, todo, left);
    case Symlink => return false;
    case Special => return false;
  }

  // ------------------------------------------------------------- the stack

  function StackItems(stack: seq<Task>): set<Item> {
    if stack == [] then {}
    else StackItems(stack[..|stack| - 1]) + CopyOf(stack[|stack| - 1].node, stack[|stack| - 1].path)
  }

  function StackFiles(stack: seq<Task>): multiset<Item> {
    if stack == [] then multiset{}
    else StackFiles(stack[..|stack| - 1]) + FilesOf(stack[|stack| - 1].node, stack[|stack| - 1].path)
  }

  predicate PlainStack(stack: seq<Task>) {
    stack == [] || (PlainStack(stack[..|stack| - 1]) && Plain(stack[|stack| - 1].node))
  }

  function TotalSize(stack: seq<Task>): nat {
    if stack == [] then 0 else TotalSize(stack[..|stack| - 1]) + Size(stack[|stack| - 1].node)
  }

  lemma Pushed(stack: seq<Task>, t: Task)
    ensures StackItems(stack + [t]) == StackItems(stack) + CopyOf(t.node, t.path)
    ensures StackFiles(stack + [t]) == StackFiles(stack) + FilesOf(t.node, t.path)
    ensures TotalSize(stack + [t]) == TotalSize(stack) + Size(t.node)
    ensures PlainStack(stack + [t]) <==> PlainStack(stack) && Plain(t.node)
  {
    assert (stack + [t])[..|stack|] == stack;
  }

  /** Nothing gets lost between the stack and the entries still to come: neither work nor
      an entry that cannot be copied. */
  predicate Accounted(stack: seq<Task>, rest: seq<Entry>, pending: seq<Task>, entries: seq<Entry>) {
    && TotalSize(stack) + SizeAll(rest) <= TotalSize(pending) + SizeAll(entries)
    && (PlainStack(stack) && PlainAll(rest) <==> PlainStack(pending) && PlainAll(entries))
    && (PlainAll(entries) ==> PlainAll(rest))
  }

  function EntryTask(entry: Entry, base: string): Task {
    Task(Child(base, entry.name), entry.node)
  }

  lemma AccountEntry(stack: seq<Task>, rest: seq<Entry>, pending: seq<Task>, entries: seq<Entry>, base: string)
    requires Accounted(stack, rest, pending, entries) && rest != []
    ensures if !Copyable(rest[0]) then !PlainAll(entries)
            else Accounted(if rest[0].node.Dir? then stack + [EntryTask(rest[0], base)] else stack,
                           rest[1..], pending, entries)
  {
    Pushed(stack, EntryTask(rest[0], base));
    if !Copyable(rest[0]) {
      assert !PlainAll(rest);
    }
  }

  lemma OutsideWidens(a: RemoteTree, b: RemoteTree, base: string, root: string)
    requires SameOutside(a, b, base) && Under(base, root)
    ensures SameOutside(a, b, root)
  {
    forall p | Under(p, base) ensures Under(p, root) { UnderTransitive(p, base, root); }
  }

  predicate DirsWithin(stack: seq<Task>, root: string) {
    forall i :: 0 <= i < |stack| ==> Under(stack[i].path, root) && stack[i].node.Dir?
  }

  lemma ChildUnderRoot(base: string, name: string, root: string)
    requires Under(base, root)
    ensures Under(Child(base, name), root)
  {
    ChildIsUnder(base, name);
    UnderTransitive(Child(base, name), base, root);
  }

  /** The stack and the entries still to come are what is to do. */
  ghost predicate Halfway(plan: Plan, afc: AfcClient, stack: seq<Task>, rest: seq<Entry>, base: string)
    reads afc
  {
    Ongoing(plan, afc, StackItems(stack) + CopyAll(rest, base), StackFiles(stack) + FilesIn(rest, base))
  }

  // -------------------------------------------------------------- the loop

  /** The next entry of a directory: done, or pushed when it is a directory itself. */
  method StageNext(afc: AfcClient, rest: seq<Entry>, base: string, stack: seq<Task>, ghost root: string,
                   ghost plan: Plan)
    returns (ok: bool, next: seq<Task>)
    requires rest != [] && Halfway(plan, afc, stack, rest, base) && DirsWithin(stack, root) && Under(base, root)
    requires Ensured(base) in afc.deeds && !afc.faulted
    modifies afc
    ensures ok == (!afc.faulted && Copyable(rest[0])) && FaultIsReal(afc)
    ensures ok ==> Halfway(plan, afc, next, rest[1..], base) && DirsWithin(next, root)
    ensures ok ==> next == if rest[0].node.Dir? then stack + [EntryTask(rest[0], base)] else stack
    ensures SameOutside(old(afc.remote), afc.remote, root) && old(afc.deeds) <= afc.deeds
  {
    next := stack;
    var t := EntryTask(rest[0], base);
    ghost var todo, left := StackItems(stack) + CopyAll(rest[1..], base), StackFiles(stack) + FilesIn(rest[1..], base);
    assert StackItems(stack) + CopyAll(rest, base) == CopyOf(t.node, t.path) + todo;
    assert StackFiles(stack) + FilesIn(rest, base) == FilesOf(t.node, t.path) + left;
    ok := StageEntry(afc, rest[0], base, plan, todo, left);
    OutsideWidens(old(afc.remote), afc.remote, base, root);
    if ok && rest[0].node.Dir? {
      next := stack + [t];
      Pushed(stack, t);
      ChildUnderRoot(base, rest[0].name, root);
      assert StackItems(next) + CopyAll(rest[1..], base) == CopyOf(t.node, t.path) + todo;
      assert StackFiles(next) + FilesIn(rest[1..], base) == FilesOf(t.node, t.path) + left;
    }
  }

  /** The loop over the entries of one directory, pushing its subdirectories. */
  method StageEntries(afc: AfcClient, entries: seq<Entry>, base: string, pending: seq<Task>, ghost root: string,
                      ghost plan: Plan)
    returns (ok: bool, stack: seq<Task>)
    requires Halfway(plan, afc, pending, entries, base) && DirsWithin(pending, root) && Under(base, root)
    requires Ensured(base) in afc.deeds && !afc.faulted
    modifies afc
    ensures ok ==> Ongoing(plan, afc, StackItems(stack), StackFiles(stack)) && DirsWithin(stack, root)
    ensures ok ==> !afc.faulted && Accounted(stack, [], pending, entries)
    ensures !ok ==> afc.faulted || !PlainAll(entries)
    ensures SameOutside(old(afc.remote), afc.remote, root) && FaultIsReal(afc)
  {
    stack := pending;
    assert entries[0..] == entries;
    for i := 0 to |entries|
      invariant Halfway(plan, afc, stack, entries[i..], base) && DirsWithin(stack, root)
      invariant Accounted(stack, entries[i..], pending, entries) && !afc.faulted
      invariant SameOutside(old(afc.remote), afc.remote, root) && old(afc.deeds) <= afc.deeds
    {
      assert entries[i..][1..] == entries[i + 1..];
      AccountEntry(stack, entries[i..], pending, entries, base);
      ok, stack := StageNext(afc, entries[i..], base, stack, root, plan);
      if !ok {
        return;
      }
    }
    assert entries[|entries|..] == [];
    assert StackItems(stack) + CopyAll([], base) == StackItems(stack);
    assert StackFiles(stack) + FilesIn([], base) == StackFiles(stack);
    ok := true;
  }

  /** What the outer loop keeps. */
  ghost predicate Loop(plan: Plan, root: string, afc: AfcClient, stack: seq<Task>)
    reads afc
  {
    && Ongoing(plan, afc, StackItems(stack), StackFiles(stack))
    && DirsWithin(stack, root) && SameOutside(plan.start, afc.remote, root) && !afc.faulted
  }

  /** Creating the directory on top of the stack leaves its entries to do. */
  lemma TopOpened(plan: Plan, remote: RemoteTree, deeds: seq<Deed>, pending: seq<Task>, top: Task)
    requires top.node.Dir?
    requires Going(plan, remote, deeds, StackItems(pending + [top]), StackFiles(pending + [top]))
    ensures var remote' := if top.path in remote then remote else remote[top.path := RemoteDir];
            Going(plan, remote', deeds + [Ensured(top.path)], StackItems(pending) + CopyAll(top.node.entries, top.path),
                  StackFiles(pending) + FilesIn(top.node.entries, top.path))
  {
    Pushed(pending, top);
    var todo := StackItems(pending) + CopyAll(top.node.entries, top.path);
    assert StackItems(pending + [top]) == {Item(top.path, RemoteDir)} + todo;
    DirDone(plan, remote, deeds, todo, StackFiles(pending) + FilesIn(top.node.entries, top.path), top.path);
  }

  /** Creates the directory on top of the stack and starts to read its local side. */
  method OpenTop(afc: AfcClient, pending: seq<Task>, top: Task, ghost root: string, ghost plan: Plan) returns (ok: bool)
    requires Loop(plan, root, afc, pending + [top]) && top.node.Dir? && Under(top.path, root)
    modifies afc
    ensures ok == !afc.faulted && FaultIsReal(afc) && SameOutside(plan.start, afc.remote, root)
    ensures ok ==> Halfway(plan, afc, pending, top.node.entries, top.path) && Ensured(top.path) in afc.deeds
  {
    TopOpened(plan, afc.remote, afc.deeds, pending, top);
    ok := afc.EnsureDir(top.path);
    if ok {
      ok := afc.Local();
    }
  }

  lemma TopCounts(pending: seq<Task>, top: Task, next: seq<Task>)
    requires top.node.Dir?
    ensures Accounted(next, [], pending, top.node.entries) ==>
              TotalSize(next) < TotalSize(pending + [top]) && (PlainStack(next) <==> PlainStack(pending + [top]))
    ensures !PlainAll(top.node.entries) ==> !PlainStack(pending + [top])
  {
    Pushed(pending, top);
  }

  /** One round of the outer loop: the directory on top is created and read. */
  method StageTop(afc: AfcClient, stack: seq<Task>, ghost root: string, ghost plan: Plan)
    returns (ok: bool, next: seq<Task>)
    requires stack != [] && Loop(plan, root, afc, stack)
    modifies afc
    ensures ok ==> Loop(plan, root, afc, next)
    ensures ok ==> TotalSize(next) < TotalSize(stack) && (PlainStack(next) <==> PlainStack(stack))
    ensures !ok ==> afc.faulted || !PlainStack(stack)
    ensures SameOutside(plan.start, afc.remote, root) && FaultIsReal(afc)
  {
    var top, pending := stack[|stack| - 1], stack[..|stack| - 1];
    assert stack == pending + [top];
    next := [];
    ok := OpenTop(afc, pending, top, root, plan);
    if ok {
      ok, next := StageEntries(afc, top.node.entries, top.path, pending, root, plan);
      TopCounts(pending, top, next);
    }
  }

  /** With nothing left to do, the device holds what was aimed at exactly when that is not
      ambiguous. */
  lemma Finished(plan: Plan, remote: RemoteTree, deeds: seq<Deed>)
    requires Going(plan, remote, deeds, {}, multiset{})
    ensures RemoteItems(remote) == plan.target <==> Unambiguous(plan.target)
    ensures forall x :: x in plan.target ==> x.path in remote && Item(x.path, remote[x.path]) in plan.target
    ensures Uploads(deeds) == plan.files
  {
    RemoteIsUnambiguous(remote);
    forall x | x in plan.target ensures x.path in remote && Item(x.path, remote[x.path]) in plan.target {
      assert Item(x.path, remote[x.path]) in RemoteItems(remote);
    }
    assert Uploads(deeds) + multiset{} == Uploads(deeds);
  }

  /** The whole call, whatever the device holds and whatever the names. It succeeds exactly
      when no operation failed and the bundle holds only named files and directories. It
      has then uploaded every file of the bundle exactly once, each into a place made
      before, and the device holds what it had and the recursive copy exactly when those
      give no path two different contents; otherwise it holds one of them at each path.
      Whatever happens, nothing outside the place changes. */
  method StageAppBundle(afc: AfcClient, bundle: seq<Entry>, root: string) returns (ok: bool)
    modifies afc
    ensures ok == (!afc.faulted && Plain(Dir(bundle))) && FaultIsReal(afc)
    ensures ok ==> var target := RemoteItems(old(afc.remote)) + CopyOf(Dir(bundle), root);
                   && (RemoteItems(afc.remote) == target <==> Unambiguous(target))
                   && RemoteItems(afc.remote) <= target
                   && forall x :: x in target ==> x.path in afc.remote && Item(x.path, afc.remote[x.path]) in target
    ensures ok ==> && Uploads(afc.deeds) == FilesOf(Dir(bundle), root) && ParentsFirst(afc.deeds)
                   && afc.remote == Replay(old(afc.remote), afc.deeds)
    ensures SameOutside(old(afc.remote), afc.remote, root)
  {
    afc.deeds, afc.faulted := [], false;
    ghost var plan := PlanFor(afc.remote, bundle, root);
    var stack := [Task(root, Dir(bundle))];
    Beginning(afc.remote, bundle, root);
    ok := afc.EnsureDir(root);
    if !ok {
      return;
    }
    while stack != []
      invariant Loop(plan, root, afc, stack) && FaultIsReal(afc)
      invariant PlainStack(stack) <==> Plain(Dir(bundle))
      decreases TotalSize(stack)
    {
      ok, stack := StageTop(afc, stack, root, plan);
      if !ok {
        return;
      }
    }
    Finished(plan, afc.remote, afc.deeds);
  }

  lemma Beginning(start: RemoteTree, bundle: seq<Entry>, root: string)
    ensures var plan, stack := PlanFor(start, bundle, root), [Task(root, Dir(bundle))];
            && Going(plan, if root in start then start else start[root := RemoteDir], [Ensured(root)],
                     StackItems(stack), StackFiles(stack))
            && (PlainStack(stack) <==> Plain(Dir(bundle)))
  {
    var plan, t := PlanFor(start, bundle, root), Task(root, Dir(bundle));
    Pushed([], t);
    assert [] + [t] == [t];
    var todo, left := CopyOf(t.node, root), FilesOf(t.node, root);
    assert StackItems([t]) == todo && StackFiles([t]) == left;
    assert Uploads([]) + left == left;
    assert Going(plan, start, [], todo, left);
    assert {Item(root, RemoteDir)} + todo == todo;
    DirDone(plan, start, [], todo, left, root);
    assert [] + [Ensured(root)] == [Ensured(root)];
  }

  /** In an empty place, with names that stay distinct, the copy is complete. */
  lemma DistinctNamesGiveTheCopy(start: RemoteTree, bundle: seq<Entry>, root: string)
    requires Clear(start, root)
    ensures var target := RemoteItems(start) + CopyOf(Dir(bundle), root);
            && (Unambiguous(target) <==> Unambiguous(CopyOf(Dir(bundle), root)))
            && (WellNamedAll(bundle) ==> Unambiguous(target))
  {
    ClearIsNoConflict(start, Dir(bundle), root);
    if WellNamedAll(bundle) {
      WellNamedIsUnambiguous(Dir(bundle), root);
    }
  }

  /** Two files of one directory that get the same remote name: the call succeeds, having
      uploaded both, and the device holds only one of them. */
  method TwoFilesOneName(afc: AfcClient, root: string, name: string, a: seq<bv8>, b: seq<bv8>) returns (ok: bool)
    requires a != b && name != "" && forall n :: !afc.fails(n)
    modifies afc
    ensures ok
    ensures var path := Child(root, name);
            && Uploads(afc.deeds) == multiset{Item(path, RemoteFile(a)), Item(path, RemoteFile(b))}
            && (path !in old(afc.remote) ==> path in afc.remote && afc.remote[path] in {RemoteFile(a), RemoteFile(b)})
            && RemoteItems(afc.remote) != RemoteItems(old(afc.remote)) + CopyOf(Dir(TwoFiles(name, a, b)), root)
  {
    TwoFilesCopy(root, name, a, b);
    ok := StageAppBundle(afc, TwoFiles(name, a, b), root);
  }

  function TwoFiles(name: string, a: seq<bv8>, b: seq<bv8>): seq<Entry> {
    [Entry(name, RegularFile(a)), Entry(name, RegularFile(b))]
  }

  lemma TwoFilesCopy(root: string, name: string, a: seq<bv8>, b: seq<bv8>)
    requires name != ""
    ensures var bundle, path := TwoFiles(name, a, b), Child(root, name);
            && Plain(Dir(bundle))
            && CopyOf(Dir(bundle), root)
               == {Item(root, RemoteDir), Item(path, RemoteFile(a)), Item(path, RemoteFile(b))}
            && FilesOf(Dir(bundle), root) == multiset{Item(path, RemoteFile(a)), Item(path, RemoteFile(b))}
  {
    var last := [Entry(name, RegularFile(b))];
    assert TwoFiles(name, a, b) == [Entry(name, RegularFile(a))] + last;
    assert last == [Entry(name, RegularFile(b))] + [];
    FileFirst(name, a, last, root);
    FileFirst(name, b, [], root);
  }

  lemma FileFirst(name: string, bytes: seq<bv8>, rest: seq<Entry>, base: string)
    requires name != ""
    ensures var entries, x := [Entry(name, RegularFile(bytes))] + rest, Item(Child(base, name), RemoteFile(bytes));
            && (PlainAll(entries) <==> PlainAll(rest))
            && CopyAll(entries, base) == {x} + CopyAll(rest, base)
            && FilesIn(entries, base) == multiset{x} + FilesIn(rest, base)
  {
    assert ([Entry(name, RegularFile(bytes))] + rest)[1..] == rest;
  }
}
