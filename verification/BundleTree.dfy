/** App bundles as trees, remote paths, and what a complete upload looks like. */
module BundleTree {
  datatype Node =
    | Dir(entries: seq<Entry>)
    | RegularFile(bytes: seq<bv8>)
    | Symlink
    | Special

  datatype Entry = Entry(name: string, node: Node)

  datatype Remote = RemoteDir | RemoteFile(bytes: seq<bv8>)

  datatype Item = Item(path: string, remote: Remote)

  /** `join_remote_path` for a name that is not empty. */
  function Child(base: string, name: string): string {
    base + "/" + name
  }

  /** The recursive copy of a local tree at a remote path. */
  function CopyOf(node: Node, path: string): set<Item>
    decreases node, 1
  {
    match node
    case Dir(entries) => {Item(path, RemoteDir)} + CopyAll(entries, path)
    case RegularFile(bytes) => {Item(path, RemoteFile(bytes))}
    case _ => {}
  }

  function CopyAll(entries: seq<Entry>, base: string): set<Item>
    decreases entries, 0
  {
    if entries == [] then {}
    else CopyOf(entries[0].node, Child(base, entries[0].name)) + CopyAll(entries[1..], base)
  }

  /** The regular files of a local tree, each as often as it occurs. */
  function FilesOf(node: Node, path: string): multiset<Item>
    decreases node, 1
  {
    match node
    case Dir(entries) => FilesIn(entries, path)
    case RegularFile(bytes) => multiset{Item(path, RemoteFile(bytes))}
    case _ => multiset{}
  }

  function FilesIn(entries: seq<Entry>, base: string): multiset<Item>
    decreases entries, 0
  {
    if entries == [] then multiset{}
    else FilesOf(entries[0].node, Child(base, entries[0].name)) + FilesIn(entries[1..], base)
  }

  /** No path is to hold two different things. */
  ghost predicate Unambiguous(items: set<Item>) {
    forall x, y :: x in items && y in items && x.path == y.path ==> x == y
  }

  /** Only directories and regular files, all with a name. */
  predicate Plain(node: Node)
    decreases node, 1
  {
    node.RegularFile? || (node.Dir? && PlainAll(node.entries))
  }

  predicate PlainAll(entries: seq<Entry>)
    decreases entries, 0
  {
    entries == [] || (entries[0].name != "" && Plain(entries[0].node) && PlainAll(entries[1..]))
  }

  /** What a file system guarantees of names, before conversion: no separator in them, and
      no two alike in one directory. */
  predicate WellNamed(node: Node)
    decreases node, 1
  {
    node.Dir? ==> WellNamedAll(node.entries)
  }

  predicate WellNamedAll(entries: seq<Entry>)
    decreases entries, 0
  {
    entries == [] ||
    (&& '/' !in entries[0].name && WellNamed(entries[0].node)
     && (forall j :: 1 <= j < |entries| ==> entries[j].name != entries[0].name)
     && WellNamedAll(entries[1..]))
  }

  function Size(node: Node): nat
    decreases node, 1
  {
    if node.Dir? then 1 + SizeAll(node.entries) else 1
  }

  function SizeAll(entries: seq<Entry>): nat
    decreases entries, 0
  {
    if entries == [] then 0 else Size(entries[0].node) + SizeAll(entries[1..])
  }

  // ----------------------------------------------------------------- paths

  /** The path is the base followed by a separator and more. */
  predicate Below(path: string, base: string) {
    path != "" &&
    if base == "" then path[0] == '/' else path[0] == base[0] && Below(path[1..], base[1..])
  }

  predicate Under(path: string, base: string) {
    path == base || Below(path, base)
  }

  predicate Apart(a: string, b: string) {
    !Under(a, b) && !Under(b, a)
  }

  lemma {:induction false} BelowIsPrefix(path: string, base: string)
    ensures Below(path, base) <==> base + "/" <= path
  {
    if base == "" {
      assert base + "/" == "/";
    } else if path != "" && path[0] == base[0] {
      BelowIsPrefix(path[1..], base[1..]);
      assert path == [path[0]] + path[1..] && base == [path[0]] + base[1..];
      assert base + "/" == [path[0]] + (base[1..] + "/");
      assert base + "/" <= path <==> base[1..] + "/" <= path[1..];
    }
  }

  lemma {:induction false} BelowTransitive(a: string, b: string, c: string)
    requires Below(a, b) && Below(b, c)
    ensures Below(a, c)
  {
    if c != "" {
      BelowTransitive(a[1..], b[1..], c[1..]);
    }
  }

  lemma UnderTransitive(a: string, b: string, c: string)
    requires Under(a, b) && Under(b, c)
    ensures Under(a, c)
  {
    if a != b && b != c {
      BelowTransitive(a, b, c);
    }
  }

  lemma {:induction false} BelowBoth(p: string, a: string, b: string)
    requires Below(p, a) && Below(p, b)
    ensures !Apart(a, b)
  {
    if a != "" && b != "" {
      BelowBoth(p[1..], a[1..], b[1..]);
      assert a == [p[0]] + a[1..] && b == [p[0]] + b[1..];
    }
  }

  /** Nothing lies under two paths that are apart. */
  lemma ApartShareNothing(p: string, a: string, b: string)
    requires Under(p, a) && Under(p, b)
    ensures !Apart(a, b)
  {
    if p != a && p != b {
      BelowBoth(p, a, b);
    }
  }

  lemma {:induction false} BelowIsLonger(path: string, base: string)
    requires Below(path, base)
    ensures |path| > |base|
  {
    if base != "" {
      BelowIsLonger(path[1..], base[1..]);
    }
  }

  lemma {:induction false} ChildIsBelow(base: string, name: string)
    ensures Below(Child(base, name), base)
  {
    if base != "" {
      ChildIsBelow(base[1..], name);
      assert Child(base, name)[1..] == Child(base[1..], name);
    }
  }

  lemma ChildIsUnder(base: string, name: string)
    ensures Under(Child(base, name), base) && !Under(base, Child(base, name))
  {
    ChildIsBelow(base, name);
    if Below(base, Child(base, name)) {
      BelowIsLonger(base, Child(base, name));
    }
  }

  lemma SiblingsApart(base: string, m: string, n: string)
    requires m != n && '/' !in m && '/' !in n
    ensures Apart(Child(base, m), Child(base, n))
  {
    assert Child(base, m)[|base| + 1..] == m && Child(base, n)[|base| + 1..] == n;
    SiblingNotBelow(base, m, n);
    SiblingNotBelow(base, n, m);
  }

  lemma {:induction false} SiblingNotBelow(base: string, m: string, n: string)
    requires '/' !in m
    ensures !Below(Child(base, m), Child(base, n))
  {
    if base == "" {
      NameNotBelow(m, n);
      assert Child(base, m)[1..] == m && Child(base, n)[1..] == n;
    } else {
      SiblingNotBelow(base[1..], m, n);
      assert Child(base, m)[1..] == Child(base[1..], m) && Child(base, n)[1..] == Child(base[1..], n);
    }
  }

  lemma {:induction false} NameNotBelow(m: string, n: string)
    requires '/' !in m
    ensures !Below(m, n)
  {
    if m != "" {
      assert m[0] in m;
      if n != "" {
        NameNotBelow(m[1..], n[1..]);
      }
    }
  }

  // ------------------------------------------------------------------ copy

  lemma {:induction false} CopyIsUnder(node: Node, path: string, item: Item)
    requires item in CopyOf(node, path)
    ensures Under(item.path, path)
    decreases node, 1
  {
    if node.Dir? && item != Item(path, RemoteDir) {
      CopyAllIsBelow(node.entries, path, item);
    }
  }

  lemma {:induction false} CopyAllIsBelow(entries: seq<Entry>, base: string, item: Item)
    requires item in CopyAll(entries, base)
    ensures Under(item.path, base) && item.path != base
    ensures exists j :: 0 <= j < |entries| && Under(item.path, Child(base, entries[j].name))
    decreases entries, 0
  {
    var first := Child(base, entries[0].name);
    if item in CopyOf(entries[0].node, first) {
      CopyIsUnder(entries[0].node, first, item);
      ChildIsUnder(base, entries[0].name);
      UnderTransitive(item.path, first, base);
    } else {
      CopyAllIsBelow(entries[1..], base, item);
      var j :| 0 <= j < |entries[1..]| && Under(item.path, Child(base, entries[1..][j].name));
      assert entries[j + 1] == entries[1..][j];
    }
  }

  /** A place in a local tree: which entry to take at each level. */
  type Place = seq<nat>

  predicate IsPlace(node: Node, place: Place)
    decreases |place|
  {
    place == [] ||
    (node.Dir? && place[0] < |node.entries| && IsPlace(node.entries[place[0]].node, place[1..]))
  }

  function NodeAt(node: Node, place: Place): Node
    requires IsPlace(node, place)
    decreases |place|
  {
    if place == [] then node else NodeAt(node.entries[place[0]].node, place[1..])
  }

  /** The remote path of a place: the names on the way, each after a slash. */
  function PathAt(node: Node, root: string, place: Place): string
    requires IsPlace(node, place)
    decreases |place|
  {
    if place == [] then root
    else
      var entry := node.entries[place[0]];
      PathAt(entry.node, root + "/" + entry.name, place[1..])
  }

  /** The item is what stands at a place, under the names that lead there. */
  ghost predicate StandsAt(node: Node, root: string, item: Item, place: Place) {
    && IsPlace(node, place) && item.path == PathAt(node, root, place)
    && match NodeAt(node, place)
       case Dir(_) => item.remote == RemoteDir
       case RegularFile(bytes) => item.remote == RemoteFile(bytes)
       case _ => false
  }

  lemma {:induction false} CopyAllMembers(entries: seq<Entry>, base: string, item: Item)
    ensures item in CopyAll(entries, base) <==>
            exists j :: 0 <= j < |entries| && item in CopyOf(entries[j].node, Child(base, entries[j].name))
    decreases |entries|
  {
    if entries != [] {
      CopyAllMembers(entries[1..], base, item);
      if exists j :: 0 <= j < |entries| && item in CopyOf(entries[j].node, Child(base, entries[j].name)) {
        var j :| 0 <= j < |entries| && item in CopyOf(entries[j].node, Child(base, entries[j].name));
        assert j > 0 ==> entries[1..][j - 1] == entries[j];
      }
      if item in CopyAll(entries[1..], base) {
        var j :| 0 <= j < |entries[1..]| && item in CopyOf(entries[1..][j].node, Child(base, entries[1..][j].name));
        assert entries[j + 1] == entries[1..][j];
      }
    }
  }

  lemma {:induction false} PlacedIsCopied(node: Node, root: string, item: Item, place: Place)
    requires StandsAt(node, root, item, place)
    ensures item in CopyOf(node, root)
    decreases |place|
  {
    if place != [] {
      var entry := node.entries[place[0]];
      PlacedIsCopied(entry.node, Child(root, entry.name), item, place[1..]);
      CopyAllMembers(node.entries, root, item);
    }
  }

  lemma {:induction false} CopiedIsPlaced(node: Node, root: string, item: Item) returns (place: Place)
    requires item in CopyOf(node, root)
    ensures StandsAt(node, root, item, place)
    decreases node
  {
    if node.Dir? && item in CopyAll(node.entries, root) {
      CopyAllMembers(node.entries, root, item);
      var j :| 0 <= j < |node.entries|
               && item in CopyOf(node.entries[j].node, Child(root, node.entries[j].name));
      var rest := CopiedIsPlaced(node.entries[j].node, Child(root, node.entries[j].name), item);
      place := [j] + rest;
      assert place[1..] == rest;
    } else {
      place := [];
    }
  }

  /** The copy is exactly this: every directory and every regular file of the tree, at the
      root followed by the names that lead to it. */
  lemma CopyIsTheTree(node: Node, root: string, item: Item)
    ensures item in CopyOf(node, root) <==> exists place :: StandsAt(node, root, item, place)
  {
    if item in CopyOf(node, root) {
      var place := CopiedIsPlaced(node, root, item);
    }
    if place :| StandsAt(node, root, item, place) {
      PlacedIsCopied(node, root, item, place);
    }
  }

  lemma {:induction false} NamesDistinct(entries: seq<Entry>, i: nat, j: nat)
    requires WellNamedAll(entries) && i < j < |entries|
    ensures entries[i].name != entries[j].name
    decreases i
  {
    if i > 0 {
      NamesDistinct(entries[1..], i - 1, j - 1);
    }
  }

  lemma {:induction false} EntryWellNamed(entries: seq<Entry>, i: nat)
    requires WellNamedAll(entries) && i < |entries|
    ensures '/' !in entries[i].name && WellNamed(entries[i].node)
    decreases i
  {
    if i > 0 {
      EntryWellNamed(entries[1..], i - 1);
    }
  }

  lemma EntriesApart(entries: seq<Entry>, base: string, i: nat, j: nat)
    requires WellNamedAll(entries) && i < |entries| && j < |entries| && i != j
    ensures Apart(Child(base, entries[i].name), Child(base, entries[j].name))
  {
    EntryWellNamed(entries, i);
    EntryWellNamed(entries, j);
    if i < j { NamesDistinct(entries, i, j); } else { NamesDistinct(entries, j, i); }
    SiblingsApart(base, entries[i].name, entries[j].name);
  }

  /** The copies of the first entry and of the others have no path in common. */
  lemma FirstSharesNothing(entries: seq<Entry>, base: string, x: Item, y: Item)
    requires entries != [] && WellNamedAll(entries)
    requires x in CopyOf(entries[0].node, Child(base, entries[0].name)) && y in CopyAll(entries[1..], base)
    ensures x.path != y.path
  {
    CopyIsUnder(entries[0].node, Child(base, entries[0].name), x);
    CopyAllIsBelow(entries[1..], base, y);
    var j :| 0 <= j < |entries[1..]| && Under(y.path, Child(base, entries[1..][j].name));
    EntriesApart(entries, base, 0, j + 1);
    if x.path == y.path {
      ApartShareNothing(x.path, Child(base, entries[0].name), Child(base, entries[j + 1].name));
    }
  }

  /** Distinct names give every copy its own path. */
  lemma {:induction false} WellNamedIsUnambiguous(node: Node, path: string)
    requires WellNamed(node)
    ensures Unambiguous(CopyOf(node, path))
    decreases node, 1
  {
    if node.Dir? {
      WellNamedAllUnambiguous(node.entries, path);
      forall x | x in CopyAll(node.entries, path) ensures x.path != path {
        CopyAllIsBelow(node.entries, path, x);
      }
    }
  }

  lemma {:induction false} WellNamedAllUnambiguous(entries: seq<Entry>, base: string)
    requires WellNamedAll(entries)
    ensures Unambiguous(CopyAll(entries, base))
    decreases entries, 0
  {
    if entries != [] {
      WellNamedIsUnambiguous(entries[0].node, Child(base, entries[0].name));
      WellNamedAllUnambiguous(entries[1..], base);
      forall x, y | x in CopyOf(entries[0].node, Child(base, entries[0].name)) && y in CopyAll(entries[1..], base)
        ensures x.path != y.path
      {
        FirstSharesNothing(entries, base, x, y);
      }
    }
  }

  lemma {:induction false} FilesAreCopied(node: Node, path: string, x: Item)
    requires FilesOf(node, path)[x] > 0
    ensures x in CopyOf(node, path)
    decreases node, 1
  {
    if node.Dir? {
      FilesInAreCopied(node.entries, path, x);
    }
  }

  lemma {:induction false} FilesInAreCopied(entries: seq<Entry>, base: string, x: Item)
    requires FilesIn(entries, base)[x] > 0
    ensures x in CopyAll(entries, base)
    decreases entries, 0
  {
    if FilesOf(entries[0].node, Child(base, entries[0].name))[x] > 0 {
      FilesAreCopied(entries[0].node, Child(base, entries[0].name), x);
    } else {
      FilesInAreCopied(entries[1..], base, x);
    }
  }

  /** With distinct names no file occurs twice. */
  lemma {:induction false} WellNamedFilesOnce(node: Node, path: string, x: Item)
    requires WellNamed(node)
    ensures FilesOf(node, path)[x] <= 1
    decreases node, 1
  {
    if node.Dir? {
      WellNamedFilesInOnce(node.entries, path, x);
    }
  }

  lemma {:induction false} WellNamedFilesInOnce(entries: seq<Entry>, base: string, x: Item)
    requires WellNamedAll(entries)
    ensures FilesIn(entries, base)[x] <= 1
    decreases entries, 0
  {
    if entries != [] {
      var first := Child(base, entries[0].name);
      WellNamedFilesOnce(entries[0].node, first, x);
      WellNamedFilesInOnce(entries[1..], base, x);
      if FilesOf(entries[0].node, first)[x] > 0 && FilesIn(entries[1..], base)[x] > 0 {
        FilesAreCopied(entries[0].node, first, x);
        FilesInAreCopied(entries[1..], base, x);
        FirstSharesNothing(entries, base, x, x);
      }
    }
  }
}
