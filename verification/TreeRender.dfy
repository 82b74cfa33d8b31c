/** Printing a device directory tree, and reading the printed text back. */
module TreeRender {
  import opened Options

  datatype FileEntry = FileEntry(name: string, fileType: Option<string>, linkTarget: Option<string>,
                                 children: seq<FileEntry>)

  /** Ordered trees side by side: the first one's label, what is below it, what is beside it. */
  datatype Forest = Empty | Grow(caption: string, below: Forest, beside: Forest)

  datatype Tree = Tree(caption: string, children: Forest)

  function Label(entry: FileEntry): string {
    if entry.fileType == Some("S_IFDIR") then
      if entry.name == "/" then "/" else entry.name + "/"
    else if entry.fileType == Some("S_IFLNK") && entry.linkTarget.Some? then
      entry.name + " -> " + entry.linkTarget.value
    else
      entry.name
  }

  /** The labels that a listing shows. */
  function Labelled(entries: seq<FileEntry>): Forest {
    if entries == [] then Empty
    else Grow(Label(entries[0]), Labelled(entries[0].children), Labelled(entries[1..]))
  }

  function LabelledTree(entry: FileEntry): Tree {
    Tree(Label(entry), Labelled(entry.children))
  }

  // ------------------------------------------------------------- rendering

  function Connector(isLast: bool): string {
    if isLast then "`-- " else "|-- "
  }

  function Pad(isLast: bool): string {
    if isLast then "    " else "|   "
  }

  /** The lines of one entry: its own, then those of its children further in. */
  function EntryLines(caption: string, below: Forest, prefix: string, isLast: bool): seq<string>
    decreases below, 1
  {
    [prefix + Connector(isLast) + caption] + ForestLines(below, prefix + Pad(isLast))
  }

  function ForestLines(forest: Forest, prefix: string): seq<string>
    decreases forest, 0
  {
    match forest
    case Empty => []
    case Grow(caption, below, beside) =>
      EntryLines(caption, below, prefix, beside.Empty?) + ForestLines(beside, prefix)
  }

  function Text(lines: seq<string>): string {
    if lines == [] then "" else lines[0] + "\n" + Text(lines[1..])
  }

  function TreeLines(tree: Tree): seq<string> {
    [tree.caption] + ForestLines(tree.children, "")
  }

  lemma {:induction false} TextAppends(a: seq<string>, b: seq<string>)
    ensures Text(a + b) == Text(a) + Text(b)
  {
    if a == [] {
      assert a + b == b;
    } else {
      assert (a + b)[1..] == a[1..] + b;
      TextAppends(a[1..], b);
    }
  }

  lemma TextOfEntry(caption: string, below: Forest, prefix: string, isLast: bool)
    ensures Text(EntryLines(caption, below, prefix, isLast))
         == prefix + Connector(isLast) + caption + "\n" + Text(ForestLines(below, prefix + Pad(isLast)))
  {
    var lines := EntryLines(caption, below, prefix, isLast);
    assert lines[1..] == ForestLines(below, prefix + Pad(isLast));
  }

  lemma Associates(a: string, b: string, c: string)
    ensures a + (b + c) == (a + b) + c
  {
  }

  lemma TextOfChildren(children: seq<FileEntry>, i: nat, prefix: string, isLast: bool)
    requires i < |children| && isLast == (i + 1 == |children|)
    ensures Text(ForestLines(Labelled(children[i..]), prefix))
         == Text(EntryLines(Label(children[i]), Labelled(children[i].children), prefix, isLast))
            + Text(ForestLines(Labelled(children[i + 1..]), prefix))
  {
    var entry, rest := children[i], children[i + 1..];
    assert children[i..][1..] == rest;
    TextAppends(EntryLines(Label(entry), Labelled(entry.children), prefix, isLast),
                ForestLines(Labelled(rest), prefix));
  }

  /** Appends one entry and everything below it to the output. */
  method RenderEntry(entry: FileEntry, prefix: string, isLast: bool, output: string) returns (out: string)
    ensures out == output + Text(EntryLines(Label(entry), Labelled(entry.children), prefix, isLast))
    decreases entry, 1
  {
    TextOfEntry(Label(entry), Labelled(entry.children), prefix, isLast);
    var line := prefix + Connector(isLast) + Label(entry) + "\n";
    out := output + line;
    if entry.children == [] {
      return;
    }
    var next := prefix + Pad(isLast);
    out := RenderChildren(entry.children, next, out);
  }

  /** The loop over the children of an entry. */
  method RenderChildren(children: seq<FileEntry>, prefix: string, output: string) returns (out: string)
    ensures out == output + Text(ForestLines(Labelled(children), prefix))
    decreases children, 0
  {
    out := output;
    for i := 0 to |children|
      invariant out + Text(ForestLines(Labelled(children[i..]), prefix))
             == output + Text(ForestLines(Labelled(children), prefix))
    {
      var isLast := i + 1 == |children|;
      TextOfChildren(children, i, prefix, isLast);
      Associates(out, Text(EntryLines(Label(children[i]), Labelled(children[i].children), prefix, isLast)),
                 Text(ForestLines(Labelled(children[i + 1..]), prefix)));
      out := RenderEntry(children[i], prefix, isLast, out);
    }
  }

  method RenderTree(entry: FileEntry) returns (out: string)
    ensures out == Text(TreeLines(LabelledTree(entry)))
  {
    var lines := TreeLines(LabelledTree(entry));
    assert lines[1..] == ForestLines(Labelled(entry.children), "");
    out := Label(entry) + "\n";
    out := RenderChildren(entry.children, "", out);
  }

  // -------------------------------------------------------------- decoding

  /** The text cut at its line ends. */
  function Lines(text: string, current: string): seq<string> {
    if text == "" then (if current == "" then [] else [current])
    else if text[0] == '\n' then [current] + Lines(text[1..], "")
    else Lines(text[1..], current + [text[0]])
  }

  datatype Item = Item(depth: nat, caption: string)

  /** Skips four-character units up to the first connector. */
  function ReadLine(line: string): Item {
    if |line| < 4 then Item(0, line)
    else if line[..4] == "|-- " || line[..4] == "`-- " then Item(0, line[4..])
    else
      var inner := ReadLine(line[4..]);
      Item(inner.depth + 1, inner.caption)
  }

  function ReadLines(lines: seq<string>): seq<Item> {
    if lines == [] then [] else [ReadLine(lines[0])] + ReadLines(lines[1..])
  }

  datatype Parsed = Parsed(forest: Forest, rest: seq<Item>)

  /** The trees at one depth, from their preorder with depths. */
  function ReadForest(items: seq<Item>, depth: nat): (r: Parsed)
    ensures |r.rest| <= |items|
    decreases |items|
  {
    if items == [] || items[0].depth != depth then Parsed(Empty, items)
    else
      var below := ReadForest(items[1..], depth + 1);
      var beside := ReadForest(below.rest, depth);
      Parsed(Grow(items[0].caption, below.forest, beside.forest), beside.rest)
  }

  function Decode(text: string): Option<Tree> {
    var lines := Lines(text, "");
    if lines == [] then None else Some(Tree(lines[0], ReadForest(ReadLines(lines[1..]), 0).forest))
  }

  // ---------------------------------------------------------------- proofs

  predicate OneLine(s: string) {
    '\n' !in s
  }

  predicate OneLineLabels(tree: Tree) {
    OneLine(tree.caption) && AllOneLine(tree.children)
  }

  predicate AllOneLine(forest: Forest) {
    forest.Empty? || (OneLine(forest.caption) && AllOneLine(forest.below) && AllOneLine(forest.beside))
  }

  lemma {:induction false} LinesSkipsOne(line: string, rest: string, current: string)
    requires OneLine(line)
    ensures Lines(line + "\n" + rest, current) == [current + line] + Lines(rest, "")
    decreases |line|
  {
    var text := line + "\n" + rest;
    if line == "" {
      assert text[1..] == rest && current + line == current;
    } else {
      assert text[1..] == line[1..] + "\n" + rest;
      LinesSkipsOne(line[1..], rest, current + [line[0]]);
      assert current + [line[0]] + line[1..] == current + line;
    }
  }

  lemma {:induction false} LinesOfText(lines: seq<string>)
    requires forall line :: line in lines ==> OneLine(line)
    ensures Lines(Text(lines), "") == lines
  {
    if lines != [] {
      LinesSkipsOne(lines[0], Text(lines[1..]), "");
      LinesOfText(lines[1..]);
      assert "" + lines[0] == lines[0];
    }
  }

  /** A prefix is made of whole four-character units. */
  predicate Units(prefix: string) {
    prefix == "" || (|prefix| >= 4 && (prefix[..4] == "|   " || prefix[..4] == "    ") && Units(prefix[4..]))
  }

  lemma {:induction false} UnitsGrow(prefix: string, isLast: bool)
    requires Units(prefix)
    ensures Units(prefix + Pad(isLast)) && |prefix + Pad(isLast)| == |prefix| + 4
  {
    var longer := prefix + Pad(isLast);
    if prefix == "" {
      assert longer == Pad(isLast) && longer[..4] == longer && longer[4..] == "";
    } else {
      UnitsGrow(prefix[4..], isLast);
      assert longer[..4] == prefix[..4] && longer[4..] == prefix[4..] + Pad(isLast);
    }
  }

  lemma {:induction false} ReadLineUndoes(prefix: string, isLast: bool, caption: string)
    requires Units(prefix)
    ensures ReadLine(prefix + Connector(isLast) + caption) == Item(|prefix| / 4, caption)
  {
    var line := prefix + Connector(isLast) + caption;
    if prefix == "" {
      assert line[..4] == Connector(isLast) && line[4..] == caption;
    } else {
      assert line[..4] == prefix[..4] && line[1] == prefix[..4][1] == ' ';
      assert line[4..] == prefix[4..] + Connector(isLast) + caption;
      ReadLineUndoes(prefix[4..], isLast, caption);
    }
  }

  /** The preorder of a forest with depths. */
  function Items(forest: Forest, depth: nat): seq<Item> {
    match forest
    case Empty => []
    case Grow(caption, below, beside) => [Item(depth, caption)] + Items(below, depth + 1) + Items(beside, depth)
  }

  lemma {:induction false} ReadLinesAppends(a: seq<string>, b: seq<string>)
    ensures ReadLines(a + b) == ReadLines(a) + ReadLines(b)
  {
    if a == [] {
      assert a + b == b;
    } else {
      assert (a + b)[1..] == a[1..] + b;
      ReadLinesAppends(a[1..], b);
    }
  }

  lemma EntryCarriesItems(caption: string, below: Forest, prefix: string, isLast: bool)
    requires Units(prefix)
    ensures ReadLines(EntryLines(caption, below, prefix, isLast))
         == [Item(|prefix| / 4, caption)] + ReadLines(ForestLines(below, prefix + Pad(isLast)))
  {
    var lines := EntryLines(caption, below, prefix, isLast);
    assert lines[1..] == ForestLines(below, prefix + Pad(isLast));
    ReadLineUndoes(prefix, isLast, caption);
  }

  lemma {:induction false} LinesCarryItems(forest: Forest, prefix: string)
    requires Units(prefix)
    ensures ReadLines(ForestLines(forest, prefix)) == Items(forest, |prefix| / 4)
    decreases forest
  {
    match forest
    case Empty =>
    case Grow(caption, below, beside) =>
      var isLast := beside.Empty?;
      UnitsGrow(prefix, isLast);
      LinesCarryItems(below, prefix + Pad(isLast));
      LinesCarryItems(beside, prefix);
      EntryCarriesItems(caption, below, prefix, isLast);
      ReadLinesAppends(EntryLines(caption, below, prefix, isLast), ForestLines(beside, prefix));
  }

  lemma {:induction false} ReadForestUndoes(forest: Forest, depth: nat, tail: seq<Item>)
    requires tail == [] || tail[0].depth < depth
    ensures ReadForest(Items(forest, depth) + tail, depth) == Parsed(forest, tail)
    decreases forest
  {
    match forest
    case Empty =>
      assert Items(forest, depth) + tail == tail;
    case Grow(caption, below, beside) =>
      var all, rest := Items(forest, depth) + tail, Items(beside, depth) + tail;
      assert all[0] == Item(depth, caption);
      assert all[1..] == Items(below, depth + 1) + rest;
      assert rest == [] || rest[0].depth < depth + 1;
      ReadForestUndoes(below, depth + 1, rest);
      ReadForestUndoes(beside, depth, tail);
  }

  lemma {:induction false} LinesAreSingle(forest: Forest, prefix: string)
    requires AllOneLine(forest) && OneLine(prefix)
    ensures forall line :: line in ForestLines(forest, prefix) ==> OneLine(line)
    decreases forest
  {
    match forest
    case Empty =>
    case Grow(caption, below, beside) =>
      var isLast := beside.Empty?;
      assert OneLine(Connector(isLast)) && OneLine(Pad(isLast));
      LinesAreSingle(below, prefix + Pad(isLast));
      LinesAreSingle(beside, prefix);
      assert OneLine(prefix + Connector(isLast) + caption);
  }

  lemma {:induction false} LinesHaveNoEnds(text: string, current: string)
    requires OneLine(current)
    ensures forall line :: line in Lines(text, current) ==> OneLine(line)
    decreases |text|
  {
    if text != "" {
      if text[0] == '\n' {
        LinesHaveNoEnds(text[1..], "");
      } else {
        LinesHaveNoEnds(text[1..], current + [text[0]]);
      }
    }
  }

  lemma {:induction false} CaptionIsOneLine(line: string)
    requires OneLine(line)
    ensures OneLine(ReadLine(line).caption)
  {
    if |line| >= 4 && line[..4] != "|-- " && line[..4] != "`-- " {
      CaptionIsOneLine(line[4..]);
    }
  }

  lemma {:induction false} CaptionsAreOneLine(lines: seq<string>)
    requires forall line :: line in lines ==> OneLine(line)
    ensures forall item :: item in ReadLines(lines) ==> OneLine(item.caption)
  {
    if lines != [] {
      CaptionIsOneLine(lines[0]);
      CaptionsAreOneLine(lines[1..]);
    }
  }

  lemma {:induction false} ForestIsOneLine(items: seq<Item>, depth: nat)
    requires forall item :: item in items ==> OneLine(item.caption)
    ensures AllOneLine(ReadForest(items, depth).forest)
    ensures forall item :: item in ReadForest(items, depth).rest ==> OneLine(item.caption)
    decreases |items|
  {
    if items != [] && items[0].depth == depth {
      assert items[0] in items;
      var below := ReadForest(items[1..], depth + 1);
      ForestIsOneLine(items[1..], depth + 1);
      ForestIsOneLine(below.rest, depth);
    }
  }

  /** Whatever is read back has single-line labels. */
  lemma DecodedIsOneLine(text: string)
    ensures Decode(text).Some? ==> OneLineLabels(Decode(text).value)
  {
    var lines := Lines(text, "");
    LinesHaveNoEnds(text, "");
    if lines != [] {
      assert lines[0] in lines;
      CaptionsAreOneLine(lines[1..]);
      ForestIsOneLine(ReadLines(lines[1..]), 0);
    }
  }

  /** Reading the printed text back gives the labelled tree exactly when all its labels are
      single lines. */
  lemma DecodeUndoesRender(tree: Tree)
    ensures Decode(Text(TreeLines(tree))) == Some(tree) <==> OneLineLabels(tree)
  {
    DecodedIsOneLine(Text(TreeLines(tree)));
    if OneLineLabels(tree) {
      OneLineTreeReadBack(tree);
    }
  }

  lemma OneLineTreeReadBack(tree: Tree)
    requires OneLineLabels(tree)
    ensures Decode(Text(TreeLines(tree))) == Some(tree)
  {
    LinesAreSingle(tree.children, "");
    LinesOfText(TreeLines(tree));
    assert TreeLines(tree)[1..] == ForestLines(tree.children, "");
    LinesCarryItems(tree.children, "");
    var items := Items(tree.children, 0);
    assert items + [] == items;
    ReadForestUndoes(tree.children, 0, []);
  }

  /** So the text loses no structure. */
  lemma RenderInjective(a: Tree, b: Tree)
    requires OneLineLabels(a) && OneLineLabels(b) && Text(TreeLines(a)) == Text(TreeLines(b))
    ensures a == b
  {
    DecodeUndoesRender(a);
    DecodeUndoesRender(b);
  }

  /** A label with a line end can imitate a child. */
  lemma NewlineLabelsCollide(x: string, y: string)
    ensures var a, b := Tree(x + "\n`-- " + y, Empty), Tree(x, Grow(y, Empty, Empty));
            a != b && Text(TreeLines(a)) == Text(TreeLines(b))
  {
    var a, b := Tree(x + "\n`-- " + y, Empty), Tree(x, Grow(y, Empty, Empty));
    var line := "" + Connector(true) + y;
    assert ForestLines(Empty, "" + Pad(true)) == [];
    assert EntryLines(y, Empty, "", true) == [line];
    assert ForestLines(b.children, "") == [line];
    assert TreeLines(a) == [a.caption] && TreeLines(b) == [x, line];
    assert TreeLines(a)[1..] == [] && TreeLines(b)[1..] == [line] && [line][1..] == [];
    assert Text([line]) == line + "\n" + "";
    assert Text(TreeLines(b)) == x + "\n" + (line + "\n");
  }
}
