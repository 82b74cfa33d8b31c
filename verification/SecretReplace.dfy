/** The Windows form of a secret-file write: the old record is moved aside, the new
    one moved in, and the old one moved back when that fails. */
module SecretReplace {
  import opened Options
  import opened SecretNames
  import opened Disks

  /** While the replacement runs, an old record is whole at its place or at the backup, or
      the new record is in place; and nothing else ever stands at the path. */
  predicate Survives(files: Files, path: Path, backup: Path, was: Option<Entry>, now: Entry) {
    && (At(files, path) == Some(now) || At(files, path) == was || (was.Some? && At(files, backup) == was))
    && (At(files, path) == Some(now) || At(files, path) == was || At(files, path) == None)
  }

  ghost predicate SurvivesSince(history: seq<Files>, start: nat, path: Path, backup: Path, was: Option<Entry>,
                                now: Entry) {
    forall k :: start <= k < |history| ==> Survives(history[k], path, backup, was, now)
  }

  /** Only the three paths of a call may change. */
  ghost predicate SameElsewhere(files: Files, files': Files, path: Path, tmp: Path, backup: Path) {
    forall q :: q != path && q != tmp && q != backup ==> At(files', q) == At(files, q)
  }

  class SecretStore {
    const disk: Disk
    const pid: nat
    var counter: nat

    constructor (disk: Disk, pid: nat)
      ensures this.disk == disk && this.pid == pid && counter == 0
    {
      this.disk, this.pid, counter := disk, pid, 0;
    }

    method DrawTemp(path: Path) returns (tmp: Path)
      modifies this
      ensures tmp == TempPath(path, pid, old(counter)) && counter == old(counter) + 1
    {
      tmp := TempPath(path, pid, counter);
      counter := counter + 1;
    }

    /** Installs the complete temporary. On an error the path is as before, unless moving
        the old record back failed too: then it is still whole at the backup. */
    method Replace(tmp: Path, path: Path)
      returns (ok: bool)
      requires tmp in disk.files && tmp != path && tmp != TempPath(path, pid, counter)
      modifies this, disk
      ensures var backup, was, now := TempPath(path, pid, old(counter)), At(old(disk.files), path),
              old(disk.files)[tmp];
              && old(disk.history) <= disk.history
              && SurvivesSince(disk.history, |old(disk.history)|, path, backup, was, now)
              && SameElsewhere(old(disk.files), disk.files, path, tmp, backup)
              && (ok ==> At(disk.files, path) == Some(now) && tmp !in disk.files)
              && (!ok ==> At(disk.files, tmp) == Some(now)
                          && (At(disk.files, path) == was
                              || (At(disk.files, path) == None && At(disk.files, backup) == was)))
              && (!ok && At(disk.files, path) != was ==> disk.LastFailed())
              && (ok && was.Some? && backup in disk.files ==> disk.LastFailed())
              && (was == Some(Directory) ==> !ok)
              && ((forall n :: !disk.fails(n)) ==>
                  ok == (was != Some(Directory) && (was.None? || At(old(disk.files), backup) != Some(Directory))))
    {
      TempIsNotTarget(path, pid, counter);
      var found := disk.Metadata(path);
      if found.Err? || found.value == Some(Directory) {
        return false;
      }
      if found.value.None? {
        ok := disk.Rename(tmp, path);
        return;
      }
      var backup := DrawTemp(path);
      ok := Exchange(tmp, path, backup);
    }

    /** Old record out, new record in, and the old one back when that fails. */
    method Exchange(tmp: Path, path: Path, backup: Path) returns (ok: bool)
      requires tmp in disk.files && path in disk.files && disk.files[path] != Directory
      requires tmp != path && tmp != backup && path != backup
      modifies disk
      ensures var was, now := At(old(disk.files), path), old(disk.files)[tmp];
              && old(disk.history) <= disk.history
              && SurvivesSince(disk.history, |old(disk.history)|, path, backup, was, now)
              && SameElsewhere(old(disk.files), disk.files, path, tmp, backup)
              && (ok ==> At(disk.files, path) == Some(now) && tmp !in disk.files)
              && (!ok ==> At(disk.files, tmp) == Some(now)
                          && (At(disk.files, path) == was
                              || (At(disk.files, path) == None && At(disk.files, backup) == was)))
              && (!ok && At(disk.files, path) != was ==> disk.LastFailed())
              && (ok && backup in disk.files ==> disk.LastFailed())
              && ((forall n :: !disk.fails(n)) ==> ok == (At(old(disk.files), backup) != Some(Directory)))
    {
      var aside := disk.Rename(path, backup);
      if !aside {
        return false;
      }
      ok := disk.Rename(tmp, path);
      if ok {
        var cleaned := disk.Remove(backup);
      } else {
        var back := disk.Rename(backup, path);
      }
    }

    /** Creates the temporary and puts the contents in it. */
    method WriteNew(tmp: Path, contents: Bytes) returns (ok: bool)
      modifies disk
      ensures old(disk.history) <= disk.history
      ensures OnlyTouches(disk, tmp, old(disk.files), |old(disk.history)|)
      ensures ok ==> At(disk.files, tmp) == Some(File(contents))
      ensures At(disk.files, tmp) == Some(Directory) ==> At(old(disk.files), tmp) == Some(Directory)
      ensures tmp in old(disk.files) ==> !ok && disk.files == old(disk.files)
      ensures (forall n :: !disk.fails(n)) ==> ok == (tmp !in old(disk.files))
    {
      var made := disk.CreateNew(tmp);
      if !made.Opened? {
        return false;
      }
      ok := disk.Append(tmp, contents);
      assert [] + contents == contents;
      if ok {
        ok := disk.Touch();
      }
    }

    /** Fills the temporary; on an error it is gone again, unless its removal failed. */
    method FillTemp(tmp: Path, contents: Bytes) returns (ok: bool)
      modifies disk
      ensures old(disk.history) <= disk.history
      ensures OnlyTouches(disk, tmp, old(disk.files), |old(disk.history)|)
      ensures ok ==> At(disk.files, tmp) == Some(File(contents))
      ensures !ok && tmp in disk.files ==> At(disk.files, tmp) == At(old(disk.files), tmp) || disk.LastFailed()
      ensures (forall n :: !disk.fails(n)) ==> ok == (At(old(disk.files), tmp) != Some(Directory))
    {
      var stale := disk.Remove(tmp);
      assert OnlyTouches(disk, tmp, old(disk.files), |old(disk.history)|);
      ok := WriteNew(tmp, contents);
      assert OnlyTouches(disk, tmp, old(disk.files), |old(disk.history)|);
      if !ok {
        var cleaned := disk.Remove(tmp);
      }
    }

    /** The replacement, with the temporary removed when it fails. */
    method Install(tmp: Path, path: Path) returns (ok: bool)
      requires tmp in disk.files && disk.files[tmp].File? && tmp != path && tmp != TempPath(path, pid, counter)
      modifies this, disk
      ensures var backup, was, now := TempPath(path, pid, old(counter)), At(old(disk.files), path),
              old(disk.files)[tmp];
              && old(disk.history) <= disk.history
              && SurvivesSince(disk.history, |old(disk.history)|, path, backup, was, now)
              && SameElsewhere(old(disk.files), disk.files, path, tmp, backup)
              && (ok ==> At(disk.files, path) == Some(now))
              && (tmp in disk.files ==> !ok && disk.LastFailed())
              && (!ok ==> At(disk.files, path) == was
                          || (At(disk.files, path) == None && At(disk.files, backup) == was))
              && (!ok && At(disk.files, path) != was ==> disk.ops >= 2 && disk.fails(disk.ops - 2))
              && (was == Some(Directory) ==> !ok)
              && (ok && was.Some? && backup in disk.files ==> disk.LastFailed())
              && ((forall n :: !disk.fails(n)) ==>
                  ok == (was != Some(Directory) && (was.None? || At(old(disk.files), backup) != Some(Directory))))
    {
      ok := Replace(tmp, path);
      if !ok {
        var cleaned := disk.Remove(tmp);
      }
    }

    /** The whole call, under any pattern of failures. The old record survives at the path
        or at the backup until the new one is in place; success means the new record is in
        place; an error leaves the old one, which is at the backup only when moving it back
        failed, and removing the temporary never costs the backup. Temporaries stay behind only
        when removing them failed. Without failures it succeeds exactly when none of its
        three paths is a directory. */
    method WriteSecret(path: Path, contents: Bytes) returns (ok: bool)
      modifies this, disk
      ensures var tmp, backup := TempPath(path, pid, old(counter)), TempPath(path, pid, old(counter) + 1);
              var was := At(old(disk.files), path);
              && old(disk.history) <= disk.history
              && SurvivesSince(disk.history, |old(disk.history)|, path, backup, was, File(contents))
              && SameElsewhere(old(disk.files), disk.files, path, tmp, backup)
              && (ok ==> At(disk.files, path) == Some(File(contents)) && tmp !in disk.files)
              && (!ok ==> At(disk.files, path) == was
                          || (At(disk.files, path) == None && At(disk.files, backup) == was))
              && (!ok && At(disk.files, path) != was ==> disk.ops >= 2 && disk.fails(disk.ops - 2))
              && (was == Some(Directory) ==> !ok)
              && (ok && was.Some? && backup in disk.files ==> disk.LastFailed())
              && (!ok && tmp in disk.files ==> At(disk.files, tmp) == At(old(disk.files), tmp) || disk.LastFailed())
              && ((forall n :: !disk.fails(n)) ==>
                  ok == (&& was != Some(Directory) && At(old(disk.files), tmp) != Some(Directory)
                         && (was.None? || At(old(disk.files), backup) != Some(Directory))))
    {
      var made := disk.Touch();
      if !made {
        return false;
      }
      TempIsNotTarget(path, pid, counter);
      ConsecutiveDrawsDiffer(path, pid, counter);
      var tmp := DrawTemp(path);
      ok := FillTemp(tmp, contents);
      if !ok {
        return;
      }
      ok := Install(tmp, path);
    }
  }
}
