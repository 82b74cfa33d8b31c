/** Where the bars and corners of a printed tree stand, said on the preorder of its labels. */
module TreeDrawing {
  import opened Options
  import opened TreeRender

  /** Among the items that follow, the first one not deeper than this depth has this depth:
      the entry of this depth that we are in, or at, has a later sibling. */
  predicate Continues(rest: seq<Item>, depth: nat) {
    rest != [] && (if rest[0].depth > depth then Continues(rest[1..], depth) else rest[0].depth == depth)
  }

  /** One column for each enclosing entry: a bar while it has a later sibling. */
  function Rails(rest: seq<Item>, depth: nat): string {
    if depth == 0 then ""
    else Rails(rest, depth - 1) + if Continues(rest, depth - 1) then "|   " else "    "
  }

  /** The line of an item, given those that follow: columns, corner, label. */
  function Drawn(item: Item, rest: seq<Item>): string {
    Rails(rest, item.depth) + (if Continues(rest, item.depth) then "|-- " else "`-- ") + item.caption
  }

  function Drawing(items: seq<Item>): seq<string> {
    if items == [] then [] else [Drawn(items[0], items[1..])] + Drawing(items[1..])
  }

  lemma {:induction false} DeeperDoNotCount(forest: Forest, depth: nat, rest: seq<Item>, column: nat)
    requires column < depth
    ensures Continues(Items(forest, depth) + rest, column) == Continues(rest, column)
    decreases forest
  {
    match forest
    case Empty =>
      assert Items(forest, depth) + rest == rest;
    case Grow(caption, below, beside) =>
      var all, later := Items(forest, depth) + rest, Items(beside, depth) + rest;
      assert all[0] == Item(depth, caption) && all[1..] == Items(below, depth + 1) + later;
      DeeperDoNotCount(below, depth + 1, later, column);
      DeeperDoNotCount(beside, depth, rest, column);
  }

  lemma {:induction false} SameRails(forest: Forest, depth: nat, rest: seq<Item>, columns: nat)
    requires columns <= depth
    ensures Rails(Items(forest, depth) + rest, columns) == Rails(rest, columns)
  {
    if columns > 0 {
      SameRails(forest, depth, rest, columns - 1);
      DeeperDoNotCount(forest, depth, rest, columns - 1);
    }
  }

  /** The first entry of a forest has a later sibling exactly when something is beside it. */
  lemma CornerOfFirst(beside: Forest, depth: nat, tail: seq<Item>)
    requires tail == [] || tail[0].depth < depth
    ensures Continues(Items(beside, depth) + tail, depth) == !beside.Empty?
  {
    var rest := Items(beside, depth) + tail;
    if beside.Empty? {
      assert rest == tail;
    } else {
      assert rest[0] == Item(depth, beside.caption);
    }
  }

  lemma EntryIsDrawn(caption: string, below: Forest, beside: Forest, depth: nat, tail: seq<Item>)
    requires tail == [] || tail[0].depth < depth
    ensures var later := Items(beside, depth) + tail;
            && Drawn(Item(depth, caption), Items(below, depth + 1) + later)
               == Rails(tail, depth) + Connector(beside.Empty?) + caption
            && Rails(later, depth + 1) == Rails(tail, depth) + Pad(beside.Empty?)
  {
    var later := Items(beside, depth) + tail;
    SameRails(below, depth + 1, later, depth);
    SameRails(beside, depth, tail, depth);
    DeeperDoNotCount(below, depth + 1, later, depth);
    CornerOfFirst(beside, depth, tail);
  }

  lemma DrawingStarts(caption: string, below: Forest, beside: Forest, depth: nat, tail: seq<Item>)
    ensures var rest := Items(below, depth + 1) + (Items(beside, depth) + tail);
            Drawing(Items(Grow(caption, below, beside), depth) + tail)
            == [Drawn(Item(depth, caption), rest)] + Drawing(rest)
  {
    var all := Items(Grow(caption, below, beside), depth) + tail;
    assert all[0] == Item(depth, caption);
    assert all[1..] == Items(below, depth + 1) + (Items(beside, depth) + tail);
  }

  lemma {:induction false} ForestIsDrawn(forest: Forest, depth: nat, tail: seq<Item>)
    requires tail == [] || tail[0].depth < depth
    ensures ForestLines(forest, Rails(tail, depth)) + Drawing(tail) == Drawing(Items(forest, depth) + tail)
    decreases forest
  {
    match forest
    case Empty =>
      assert Items(forest, depth) + tail == tail;
    case Grow(caption, below, beside) =>
      var later := Items(beside, depth) + tail;
      EntryIsDrawn(caption, below, beside, depth, tail);
      DrawingStarts(caption, below, beside, depth, tail);
      assert later == [] || later[0].depth < depth + 1;
      ForestIsDrawn(below, depth + 1, later);
      ForestIsDrawn(beside, depth, tail);
      LinesInOrder(caption, below, beside, Rails(tail, depth), Drawing(tail));
  }

  lemma LinesInOrder(caption: string, below: Forest, beside: Forest, prefix: string, after: seq<string>)
    ensures ForestLines(Grow(caption, below, beside), prefix) + after
         == [prefix + Connector(beside.Empty?) + caption]
            + (ForestLines(below, prefix + Pad(beside.Empty?)) + (ForestLines(beside, prefix) + after))
  {
  }

  /** The printed lines below the root are the drawing of the tree's preorder: a bar stands in
      the column of an enclosing entry exactly while that entry has a later sibling, and a
      line ends its corner exactly when its own entry has none. */
  lemma TreeIsDrawn(tree: Tree)
    ensures TreeLines(tree) == [tree.caption] + Drawing(Items(tree.children, 0))
  {
    ForestIsDrawn(tree.children, 0, []);
    assert Items(tree.children, 0) + [] == Items(tree.children, 0);
    assert Drawing([]) == [] && ForestLines(tree.children, "") + [] == ForestLines(tree.children, "");
  }

  // ----------------------------------------------------------------- labels

  /** How many trees stand side by side, and the i-th of them. */
  function Width(forest: Forest): nat {
    if forest.Empty? then 0 else 1 + Width(forest.beside)
  }

  function Nth(forest: Forest, i: nat): Tree
    requires i < Width(forest)
  {
    if i == 0 then Tree(forest.caption, forest.below) else Nth(forest.beside, i - 1)
  }

  /** Each entry of a listing is shown, in its place, with its own children below it. */
  lemma {:induction false} EveryEntryIsLabelled(entries: seq<FileEntry>, i: nat)
    ensures Width(Labelled(entries)) == |entries|
    ensures i < |entries| ==> Nth(Labelled(entries), i) == LabelledTree(entries[i])
    decreases |entries|
  {
    if entries != [] {
      EveryEntryIsLabelled(entries[1..], if i > 0 then i - 1 else 0);
    }
  }

  /** A directory shows a slash at its end, the root no more than that; a link whose target is
      known shows it; everything else shows its name alone. */
  lemma LabelTells(entry: FileEntry)
    ensures entry.name <= Label(entry)
    ensures var more := Label(entry)[|entry.name|..];
            if entry.fileType == Some("S_IFDIR") && entry.name != "/" then more == "/"
            else if entry.fileType == Some("S_IFLNK") && entry.linkTarget.Some? then
              more == " -> " + entry.linkTarget.value
            else more == ""
  {
  }
}
