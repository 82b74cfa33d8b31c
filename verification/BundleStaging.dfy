/** What an upload does on the device: the record of its deeds, and the device itself,
    whose every answer may be an error. */
module BundleStaging {
  import opened BundleTree

  type RemoteTree = map<string, Remote>

  /** What was done on the device, in order. */
  datatype Deed = Ensured(path: string) | Uploaded(dir: string, name: string, bytes: seq<bv8>)

  function RemoteItems(remote: RemoteTree): set<Item> {
    set p | p in remote :: Item(p, remote[p])
  }

  /** A remote tree holds one thing at a path. */
  lemma RemoteIsUnambiguous(remote: RemoteTree)
    ensures Unambiguous(RemoteItems(remote))
  {
  }

  /** The device has nothing under a path, except perhaps a directory there. */
  predicate Clear(remote: RemoteTree, path: string) {
    forall p :: p in remote && Under(p, path) ==> p == path && remote[p] == RemoteDir
  }

  /** In a clear place only the copy itself can be ambiguous. */
  lemma ClearIsNoConflict(remote: RemoteTree, node: Node, path: string)
    requires Clear(remote, path) && node.Dir?
    ensures Unambiguous(RemoteItems(remote) + CopyOf(node, path)) <==> Unambiguous(CopyOf(node, path))
  {
    forall x, y
      | x in RemoteItems(remote) && y in CopyOf(node, path) && x.path == y.path && Unambiguous(CopyOf(node, path))
      ensures x == y
    {
      CopyIsUnder(node, path, y);
      assert Item(path, RemoteDir) in CopyOf(node, path);
    }
    if Unambiguous(RemoteItems(remote) + CopyOf(node, path)) {
      assert forall x :: x in CopyOf(node, path) ==> x in RemoteItems(remote) + CopyOf(node, path);
    }
  }

  // ---------------------------------------------------------------- deeds

  function DeedPath(deed: Deed): string {
    if deed.Ensured? then deed.path else Child(deed.dir, deed.name)
  }

  /** The remote tree that a record of deeds leads to. */
  function Replay(start: RemoteTree, deeds: seq<Deed>): RemoteTree {
    if deeds == [] then start
    else
      var before, last := Replay(start, deeds[..|deeds| - 1]), deeds[|deeds| - 1];
      if last.Uploaded? then before[DeedPath(last) := RemoteFile(last.bytes)]
      else if last.path in before then before
      else before[last.path := RemoteDir]
  }

  /** The files uploaded, each as often as it was. */
  function Uploads(deeds: seq<Deed>): multiset<Item> {
    if deeds == [] then multiset{}
    else
      var last := deeds[|deeds| - 1];
      Uploads(deeds[..|deeds| - 1])
      + if last.Uploaded? then multiset{Item(DeedPath(last), RemoteFile(last.bytes))} else multiset{}
  }

  /** Every upload goes into a directory made or found before. */
  predicate ParentsFirst(deeds: seq<Deed>) {
    deeds == [] ||
    var front, last := deeds[..|deeds| - 1], deeds[|deeds| - 1];
    ParentsFirst(front) && (last.Uploaded? ==> Ensured(last.dir) in front)
  }

  lemma {:induction false} EnsuredIsThere(start: RemoteTree, deeds: seq<Deed>, path: string)
    requires Ensured(path) in deeds
    ensures path in Replay(start, deeds)
    decreases |deeds|
  {
    if deeds[|deeds| - 1] != Ensured(path) {
      EnsuredIsThere(start, deeds[..|deeds| - 1], path);
    }
  }

  /** At each upload the place it goes into is there already. */
  lemma {:induction false} ParentIsThere(start: RemoteTree, deeds: seq<Deed>, k: nat)
    requires ParentsFirst(deeds) && k < |deeds| && deeds[k].Uploaded?
    ensures Ensured(deeds[k].dir) in deeds[..k] && deeds[k].dir in Replay(start, deeds[..k])
    decreases |deeds|
  {
    if k < |deeds| - 1 {
      assert deeds[..|deeds| - 1][..k] == deeds[..k];
      ParentIsThere(start, deeds[..|deeds| - 1], k);
    } else {
      EnsuredIsThere(start, deeds[..k], deeds[k].dir);
    }
  }

  function UploadedItem(deed: Deed): Item
    requires deed.Uploaded?
  {
    Item(DeedPath(deed), RemoteFile(deed.bytes))
  }

  lemma {:induction false} UploadCounts(deeds: seq<Deed>, k: nat)
    requires k < |deeds| && deeds[k].Uploaded?
    ensures Uploads(deeds)[UploadedItem(deeds[k])] > 0
    decreases |deeds|
  {
    if k < |deeds| - 1 {
      UploadCounts(deeds[..|deeds| - 1], k);
    }
  }

  lemma {:induction false} TwoUploadsCount(deeds: seq<Deed>, j: nat, k: nat)
    requires j < k < |deeds| && deeds[j].Uploaded? && deeds[k].Uploaded?
    requires UploadedItem(deeds[j]) == UploadedItem(deeds[k])
    ensures Uploads(deeds)[UploadedItem(deeds[k])] > 1
    decreases |deeds|
  {
    if k < |deeds| - 1 {
      TwoUploadsCount(deeds[..|deeds| - 1], j, k);
    } else {
      UploadCounts(deeds[..k], j);
    }
  }

  /** With distinct names, when the uploads are the files of a tree, no path is uploaded
      twice. */
  lemma UploadedOnce(node: Node, path: string, deeds: seq<Deed>, j: nat, k: nat)
    requires WellNamed(node) && Uploads(deeds) == FilesOf(node, path)
    requires j < k < |deeds| && deeds[j].Uploaded? && deeds[k].Uploaded?
    ensures DeedPath(deeds[j]) != DeedPath(deeds[k])
  {
    var x, y := UploadedItem(deeds[j]), UploadedItem(deeds[k]);
    UploadCounts(deeds, j);
    UploadCounts(deeds, k);
    FilesAreCopied(node, path, x);
    FilesAreCopied(node, path, y);
    WellNamedIsUnambiguous(node, path);
    WellNamedFilesOnce(node, path, y);
    if x == y {
      TwoUploadsCount(deeds, j, k);
    }
  }

  /** Every file that is new was uploaded, with these bytes. */
  lemma {:induction false} NewFileWasUploaded(start: RemoteTree, deeds: seq<Deed>, path: string) returns (k: nat)
    requires var remote := Replay(start, deeds); path in remote && remote[path].RemoteFile? && path !in start
    ensures k < |deeds| && deeds[k].Uploaded? && DeedPath(deeds[k]) == path
    ensures deeds[k].bytes == Replay(start, deeds)[path].bytes
    decreases |deeds|
  {
    k := |deeds| - 1;
    if !(deeds[k].Uploaded? && DeedPath(deeds[k]) == path) {
      k := NewFileWasUploaded(start, deeds[..k], path);
    }
  }

  // ---------------------------------------------------------------- device

  /** The connection: `fails(n)` says whether the n-th operation, remote or local, fails;
      a failing upload may leave something at its path. The record of deeds and of whether
      anything failed is kept for stating what a call did. */
  class AfcClient {
    const fails: nat -> bool
    const left: nat -> Remote
    var ops: nat
    var remote: RemoteTree
    ghost var deeds: seq<Deed>
    ghost var faulted: bool

    constructor (remote: RemoteTree, fails: nat -> bool, left: nat -> Remote)
      ensures this.remote == remote && ops == 0 && deeds == [] && !faulted && this.fails == fails && this.left == left
    {
      this.remote, this.fails, this.left := remote, fails, left;
      ops, deeds, faulted := 0, [], false;
    }

    /** Creates a directory; that something is already there is no error. */
    method EnsureDir(path: string) returns (ok: bool)
      modifies this
      ensures ops == old(ops) + 1 && ok == !fails(old(ops)) && faulted == (old(faulted) || !ok)
      ensures remote == if ok && path !in old(remote) then old(remote)[path := RemoteDir] else old(remote)
      ensures deeds == if ok then old(deeds) + [Ensured(path)] else old(deeds)
    {
      ok := !fails(ops);
      faulted := faulted || !ok;
      ops := ops + 1;
      if ok {
        if path !in remote { remote := remote[path := RemoteDir]; }
        deeds := deeds + [Ensured(path)];
      }
    }

    method Upload(dir: string, name: string, bytes: seq<bv8>) returns (ok: bool)
      modifies this
      ensures ops == old(ops) + 1 && ok == !fails(old(ops)) && faulted == (old(faulted) || !ok)
      ensures remote == old(remote)[Child(dir, name) := if ok then RemoteFile(bytes) else left(old(ops))]
      ensures deeds == if ok then old(deeds) + [Uploaded(dir, name, bytes)] else old(deeds)
    {
      ok := !fails(ops);
      faulted := faulted || !ok;
      remote := remote[Child(dir, name) := if ok then RemoteFile(bytes) else left(ops)];
      ops := ops + 1;
      if ok { deeds := deeds + [Uploaded(dir, name, bytes)]; }
    }

    /** Reading a local directory, inspecting an entry, opening a file. */
    method Local() returns (ok: bool)
      modifies this`ops, this`faulted
      ensures ops == old(ops) + 1 && ok == !fails(old(ops)) && faulted == (old(faulted) || !ok)
    {
      ok := !fails(ops);
      faulted := faulted || !ok;
      ops := ops + 1;
    }
  }
}
