/** A file system whose every operation may fail, with the states it went through. */
module Disks {
  import opened Options
  import opened SecretNames

  type Bytes = seq<bv8>

  datatype Entry = File(bytes: Bytes) | Directory | Symlink

  type Files = map<Path, Entry>

  function At(files: Files, path: Path): Option<Entry> {
    if path in files then Some(files[path]) else None
  }

  /** How an attempt to create a file that must be new turned out. */
  datatype Creation = Opened | AlreadyExists | Refused

  function Moved(files: Files, from: Path, to: Path): Files
    requires from in files
  {
    if from == to then files else files[to := files[from]] - {from}
  }

  /** `fails(n)` says whether the n-th operation fails, and `cut(n)` how many bytes a
      failing write leaves behind; both are arbitrary. */
  class Disk {
    const fails: nat -> bool
    const cut: nat -> nat
    var ops: nat
    var files: Files
    ghost var history: seq<Files>

    constructor (files: Files, fails: nat -> bool, cut: nat -> nat)
      ensures this.files == files && history == [] && ops == 0 && this.fails == fails && this.cut == cut
    {
      this.files, this.fails, this.cut := files, fails, cut;
      ops, history := 0, [];
    }

    /** The operation that came last failed. */
    predicate LastFailed()
      reads this
    {
      ops > 0 && fails(ops - 1)
    }

    /** Creating directories, setting modes, flushing: may fail and changes no entry. */
    method Touch() returns (ok: bool)
      modifies this
      ensures ok == !fails(old(ops)) && ops == old(ops) + 1
      ensures files == old(files) && history == old(history) + [files]
    {
      ok := !fails(ops);
      ops := ops + 1;
      history := history + [files];
    }

    /** The entry at a path, None when there is none, or an error. */
    method Metadata(path: Path) returns (found: Result<Option<Entry>, ()>)
      modifies this
      ensures found == (if fails(old(ops)) then Err(()) else Ok(At(files, path))) && ops == old(ops) + 1
      ensures files == old(files) && history == old(history) + [files]
    {
      found := if fails(ops) then Err(()) else Ok(At(files, path));
      ops := ops + 1;
      history := history + [files];
    }

    method Remove(path: Path) returns (ok: bool)
      modifies this
      ensures ok == (!fails(old(ops)) && path in old(files) && !old(files)[path].Directory?) && ops == old(ops) + 1
      ensures files == (if ok then old(files) - {path} else old(files)) && history == old(history) + [files]
    {
      ok := !fails(ops) && path in files && !files[path].Directory?;
      ops := ops + 1;
      if ok { files := files - {path}; }
      history := history + [files];
    }

    /** Opens a file for writing that must not exist yet. */
    method CreateNew(path: Path) returns (made: Creation)
      modifies this
      ensures made == (if fails(old(ops)) then Refused else if path in old(files) then AlreadyExists else Opened)
      ensures ops == old(ops) + 1
      ensures files == (if made.Opened? then old(files)[path := File([])] else old(files))
              && history == old(history) + [files]
    {
      made := if fails(ops) then Refused else if path in files then AlreadyExists else Opened;
      ops := ops + 1;
      if made.Opened? { files := files[path := File([])]; }
      history := history + [files];
    }

    /** Appends to an open file; a failing write leaves some prefix of the data. */
    method Append(path: Path, data: Bytes) returns (ok: bool)
      requires At(files, path).Some? && files[path].File?
      modifies this
      ensures ok == !fails(old(ops)) && ops == old(ops) + 1
      ensures var kept := if ok || cut(old(ops)) > |data| then data else data[..cut(old(ops))];
              files == old(files)[path := File(old(files)[path].bytes + kept)]
      ensures history == old(history) + [files]
    {
      ok := !fails(ops);
      var kept := if ok || cut(ops) > |data| then data else data[..cut(ops)];
      ops := ops + 1;
      files := files[path := File(files[path].bytes + kept)];
      history := history + [files];
    }

    /** Moves an entry in one step, over whatever is there unless that is a directory. */
    method Rename(from: Path, to: Path) returns (ok: bool)
      modifies this
      ensures ok == (!fails(old(ops)) && from in old(files) && At(old(files), to) != Some(Directory))
              && ops == old(ops) + 1
      ensures files == (if ok then Moved(old(files), from, to) else old(files)) && history == old(history) + [files]
    {
      ok := !fails(ops) && from in files && At(files, to) != Some(Directory);
      ops := ops + 1;
      if ok { files := Moved(files, from, to); }
      history := history + [files];
    }
  }

  /** One path aside, the disk is as it was, and was so in every state since the start. */
  ghost predicate OnlyTouches(disk: Disk, path: Path, before: Files, start: nat)
    reads disk
  {
    && (forall q :: q != path ==> At(disk.files, q) == At(before, q))
    && forall k, q :: start <= k < |disk.history| && q != path ==> At(disk.history[k], q) == At(before, q)
  }
}
