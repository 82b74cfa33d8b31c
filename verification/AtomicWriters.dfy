/** Putting device data on disk in one step: a whole file under a numbered temporary, moved
    over its target. */
module AtomicWriters {
  import opened Options
  import opened Decimals
  import opened SecretNames
  import opened Disks

  const MAX_ATTEMPTS: nat := 16

  function ImageTemp(path: Path, pid: nat, nonce: nat, attempt: nat): Path {
    Path(path.dir, "." + path.name + ".ios-image-" + Decimal(pid) + "-" + Decimal(nonce) + "-" + Decimal(attempt)
         + ".tmp")
  }

  lemma ImageTempIsNotTarget(path: Path, pid: nat, nonce: nat, attempt: nat)
    ensures ImageTemp(path, pid, nonce, attempt) != path
  {
    assert |ImageTemp(path, pid, nonce, attempt).name| > |path.name|;
  }

  /** No two temporaries of a path share a name: not those of the sixteen attempts, nor those
      of other processes or other calls. */
  lemma ImageTempsDiffer(path: Path, pid: nat, nonce: nat, attempt: nat, pid': nat, nonce': nat, attempt': nat)
    requires ImageTemp(path, pid, nonce, attempt) == ImageTemp(path, pid', nonce', attempt')
    ensures pid == pid' && nonce == nonce' && attempt == attempt'
  {
    var start, s := "." + path.name + ".ios-image", ImageTemp(path, pid, nonce, attempt).name;
    assert s[..|s| - 4] == Numbered(start, pid, nonce, attempt);
    assert s[..|s| - 4] == Numbered(start, pid', nonce', attempt');
    NumberedInjective(start, pid, nonce, attempt, pid', nonce', attempt');
  }

  function Numbered(start: string, a: nat, b: nat, c: nat): string {
    start + "-" + Decimal(a) + "-" + Decimal(b) + "-" + Decimal(c)
  }

  lemma NumberedInjective(start: string, a: nat, b: nat, c: nat, a': nat, b': nat, c': nat)
    requires Numbered(start, a, b, c) == Numbered(start, a', b', c')
    ensures a == a' && b == b' && c == c'
  {
    var one, two := start + "-" + Decimal(a), start + "-" + Decimal(a');
    SplitAtLast(one + "-" + Decimal(b), Decimal(c), two + "-" + Decimal(b'), Decimal(c'), '-');
    SplitAtLast(one, Decimal(b), two, Decimal(b'), '-');
    SplitAtLast(start, Decimal(a), start, Decimal(a'), '-');
    DecimalInjective(a, a');
    DecimalInjective(b, b');
    DecimalInjective(c, c');
  }

  /** In every state since the start, the path holds what it held or the whole data, and
      every other entry that was there is untouched. */
  ghost predicate AllOrNothing(history: seq<Files>, start: nat, before: Files, path: Path, whole: Entry) {
    forall k :: start <= k < |history| ==>
      && (At(history[k], path) == At(before, path) || At(history[k], path) == Some(whole))
      && forall q :: q != path && q in before ==> At(history[k], q) == At(before, q)
  }

  ghost predicate SameBut(before: Files, after: Files, path: Path) {
    forall q :: q != path ==> At(after, q) == At(before, q)
  }

  /** An existing entry is replaced only when the caller insists. */
  method EnsureOverwriteAllowed(disk: Disk, path: Path, force: bool) returns (allowed: bool)
    modifies disk
    ensures disk.files == old(disk.files) && disk.history == old(disk.history) + [disk.files]
    ensures disk.ops == old(disk.ops) + 1
    ensures allowed == (!disk.fails(old(disk.ops)) && (At(disk.files, path).None? || force))
  {
    var found := disk.Metadata(path);
    allowed := found.Ok? && (found.value.None? || force);
  }

  /** Fills an opened temporary and moves it over the path; on an error the temporary is
      removed again. */
  method FillAndMove(disk: Disk, tmp: Path, path: Path, data: Bytes) returns (ok: bool)
    requires At(disk.files, tmp) == Some(File([])) && tmp != path
    modifies disk
    ensures old(disk.history) <= disk.history
    ensures AllOrNothing(disk.history, |old(disk.history)|, old(disk.files) - {tmp}, path, File(data))
    ensures SameBut(old(disk.files) - {tmp}, disk.files - {tmp}, path)
    ensures At(disk.files, path) == if ok then Some(File(data)) else At(old(disk.files), path)
    ensures tmp in disk.files ==> !ok && disk.LastFailed()
    ensures old(disk.ops) < disk.ops <= old(disk.ops) + 4
    ensures (forall n :: !disk.fails(n)) ==> ok == (At(old(disk.files), path) != Some(Directory))
  {
    ok := disk.Append(tmp, data);
    assert [] + data == data;
    if ok {
      ok := disk.Touch();
    }
    if ok {
      ok := disk.Rename(tmp, path);
    }
    if !ok {
      var cleaned := disk.Remove(tmp);
    }
  }

  /** A candidate name that is free. */
  predicate Free(files: Files, path: Path, pid: nat, nonce: nat, attempt: nat) {
    ImageTemp(path, pid, nonce, attempt) !in files
  }

  function FirstTemps(path: Path, pid: nat, nonce: nat, n: nat): set<Path> {
    if n == 0 then {} else FirstTemps(path, pid, nonce, n - 1) + {ImageTemp(path, pid, nonce, n - 1)}
  }

  lemma {:induction false} TempsAreCounted(path: Path, pid: nat, nonce: nat, n: nat)
    ensures |FirstTemps(path, pid, nonce, n)| == n
    ensures forall q :: q in FirstTemps(path, pid, nonce, n) ==>
              exists k :: 0 <= k < n && q == ImageTemp(path, pid, nonce, k)
  {
    if n > 0 {
      TempsAreCounted(path, pid, nonce, n - 1);
      if ImageTemp(path, pid, nonce, n - 1) in FirstTemps(path, pid, nonce, n - 1) {
        var k :| 0 <= k < n - 1 && ImageTemp(path, pid, nonce, n - 1) == ImageTemp(path, pid, nonce, k);
        ImageTempsDiffer(path, pid, nonce, n - 1, pid, nonce, k);
      }
    }
  }

  /** Fewer than sixteen entries cannot take all the names. */
  lemma SomeNameIsFree(files: Files, path: Path, pid: nat, nonce: nat)
    requires |files| < MAX_ATTEMPTS
    ensures exists k :: 0 <= k < MAX_ATTEMPTS && Free(files, path, pid, nonce, k)
  {
    var temps := FirstTemps(path, pid, nonce, MAX_ATTEMPTS);
    TempsAreCounted(path, pid, nonce, MAX_ATTEMPTS);
    if temps <= files.Keys {
      FewerIfWithin(temps, files.Keys);
    }
    var q :| q in temps && q !in files;
    var k :| 0 <= k < MAX_ATTEMPTS && q == ImageTemp(path, pid, nonce, k);
    assert Free(files, path, pid, nonce, k);
  }

  lemma FewerIfWithin(a: set<Path>, b: set<Path>)
    requires a <= b
    ensures |a| <= |b|
  {
    assert b == a + (b - a);
  }

  lemma OnlyTempIsNew(before: Files, after: Files, tmp: Path, path: Path)
    requires SameBut(before, after - {tmp}, path)
    ensures forall q :: q != path && q in after && q !in before ==> q == tmp
  {
    forall q | q != path && q != tmp ensures q in after <==> q in before {
      assert At(after - {tmp}, q) == At(before, q);
    }
  }

  /** The whole write, under any pattern of failures: the path ends unchanged or holding
      exactly the data, and holds nothing else in between; other entries stay as they
      were. Nothing new is left behind, except one of the sixteen temporaries when removing
      it failed. Without failures it succeeds exactly when
      overwriting is allowed, the path is no directory and one of the sixteen temporary
      names is free. */
  method WriteLocalBytesAtomic(disk: Disk, path: Path, data: Bytes, force: bool, pid: nat, nonce: nat)
    returns (ok: bool)
    modifies disk
    ensures old(disk.history) <= disk.history
    ensures AllOrNothing(disk.history, |old(disk.history)|, old(disk.files), path, File(data))
    ensures At(disk.files, path) == if ok then Some(File(data)) else At(old(disk.files), path)
    ensures forall q :: q != path && q in old(disk.files) ==> At(disk.files, q) == At(old(disk.files), q)
    ensures forall q :: q != path && q in disk.files && q !in old(disk.files) ==>
              !ok && disk.LastFailed() && exists k :: 0 <= k < MAX_ATTEMPTS && q == ImageTemp(path, pid, nonce, k)
    ensures disk.ops <= old(disk.ops) + MAX_ATTEMPTS + 5
    ensures (forall n :: !disk.fails(n)) ==>
              ok == (&& path.name != "" && (At(old(disk.files), path).None? || force)
                     && At(old(disk.files), path) != Some(Directory)
                     && exists k :: 0 <= k < MAX_ATTEMPTS && Free(old(disk.files), path, pid, nonce, k))
  {
    var allowed := EnsureOverwriteAllowed(disk, path, force);
    if !allowed || path.name == "" {
      return false;
    }
    for attempt := 0 to MAX_ATTEMPTS
      invariant disk.files == old(disk.files) && old(disk.history) <= disk.history
      invariant disk.ops <= old(disk.ops) + 1 + attempt
      invariant forall k :: |old(disk.history)| <= k < |disk.history| ==> disk.history[k] == old(disk.files)
      invariant forall k :: 0 <= k < attempt ==> !Free(disk.files, path, pid, nonce, k)
    {
      var tmp := ImageTemp(path, pid, nonce, attempt);
      ImageTempIsNotTarget(path, pid, nonce, attempt);
      var made := disk.CreateNew(tmp);
      if made.AlreadyExists? {
        continue;
      }
      if made.Refused? {
        return false;
      }
      assert Free(old(disk.files), path, pid, nonce, attempt);
      assert disk.files - {tmp} == old(disk.files);
      ok := FillAndMove(disk, tmp, path, data);
      OnlyTempIsNew(old(disk.files), disk.files, tmp, path);
      return;
    }
    return false;
  }
}
