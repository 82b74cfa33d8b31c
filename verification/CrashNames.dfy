/** Local names for downloaded crash reports: flattened to base names, with a number
    added where an earlier report of the same run took the name. */
module CrashNames {
  import opened Options
  import opened Decimals
  import opened FileNames

  const U32_LIMIT: nat := 0x1_0000_0000

  /** The last component of a slash-separated path, skipping empty and "." components;
      none when there is no component or it is "..". */
  function BaseName(path: string): Option<string>
    decreases |path|
  {
    LastPartSuffix(path, '/');
    var last := LastPart(path, '/');
    if last == ".." then None
    else if last != "" && last != "." then Some(last)
    else if |last| == |path| then None
    else BaseName(path[..|path| - |last| - 1])
  }

  function DefaultLocalName(report: string): string {
    match BaseName(report)
    case Some(name) => name
    case None => report
  }

  /** `Path::join`: an absolute name replaces the directory. */
  function Joined(dir: string, name: string): string {
    if name != "" && name[0] == '/' then name
    else if dir == "" || dir[|dir| - 1] == '/' then dir + name
    else dir + "/" + name
  }

  /** What goes before and after the number. A name is a base name or, for a report that has
      none, the report itself, which then counts as all stem. */
  function Front(name: string): string {
    if BaseName(name).None? then name else Stem(name)
  }

  function Back(name: string): string {
    if BaseName(name).None? then ""
    else match Extension(name) case Some(e) => "." + e case None => ""
  }

  function NumberedName(name: string, k: nat): string {
    Front(name) + "-" + Decimal(k) + Back(name)
  }

  function Candidate(dir: string, name: string, k: nat): string {
    Joined(dir, NumberedName(name, k))
  }

  lemma NumberedNameInjective(name: string, j: nat, k: nat)
    requires NumberedName(name, j) == NumberedName(name, k)
    ensures j == k
  {
    var tail, front := Back(name), Front(name) + "-";
    var s := NumberedName(name, j);
    assert s[|front|..|s| - |tail|] == Decimal(j);
    assert s[|front|..|s| - |tail|] == Decimal(k);
    DecimalInjective(j, k);
  }

  /** Joining keeps different relative names apart, and different absolute ones. */
  lemma JoinedInjective(dir: string, a: string, b: string)
    requires Joined(dir, a) == Joined(dir, b)
    requires (a != "" && a[0] == '/') == (b != "" && b[0] == '/')
    ensures a == b
  {
    var d := if dir == "" || dir[|dir| - 1] == '/' then dir else dir + "/";
    assert !(a != "" && a[0] == '/') ==> Joined(dir, a) == d + a && (d + a)[|d|..] == a;
    assert !(b != "" && b[0] == '/') ==> Joined(dir, b) == d + b && (d + b)[|d|..] == b;
  }

  lemma CandidateInjective(dir: string, name: string, j: nat, k: nat)
    requires Candidate(dir, name, j) == Candidate(dir, name, k)
    ensures j == k
  {
    var a, b := NumberedName(name, j), NumberedName(name, k);
    assert a[..|Front(name)| + 1] == Front(name) + "-" == b[..|Front(name)| + 1];
    JoinedInjective(dir, a, b);
    NumberedNameInjective(name, j, k);
  }

  lemma CandidateIsNotBase(dir: string, name: string, k: nat)
    ensures Candidate(dir, name, k) != Joined(dir, name)
  {
    NameIsStemAndExtension(name);
    var a := NumberedName(name, k);
    assert |a| > |name|;
    if Front(name) != "" {
      assert a[0] == Front(name)[0] == name[0];
      if Candidate(dir, name, k) == Joined(dir, name) { JoinedInjective(dir, a, name); }
    }
  }

  /** The base candidate and the first n numbered ones. */
  function Tried(dir: string, name: string, n: nat): set<string> {
    if n == 0 then {Joined(dir, name)} else Tried(dir, name, n - 1) + {Candidate(dir, name, n)}
  }

  lemma {:induction false} TriedAreDistinct(dir: string, name: string, n: nat)
    ensures |Tried(dir, name, n)| == n + 1
    ensures forall k :: k > n ==> Candidate(dir, name, k) !in Tried(dir, name, n)
  {
    if n == 0 {
      forall k: nat | k > n ensures Candidate(dir, name, k) !in Tried(dir, name, n) {
        CandidateIsNotBase(dir, name, k);
      }
    } else {
      TriedAreDistinct(dir, name, n - 1);
      forall k: nat | k > n ensures Candidate(dir, name, k) !in Tried(dir, name, n) {
        if Candidate(dir, name, k) == Candidate(dir, name, n) { CandidateInjective(dir, name, k, n); }
      }
    }
  }

  lemma {:induction false} TriedCovers(dir: string, name: string, n: nat, j: nat)
    requires 1 <= j <= n
    ensures Candidate(dir, name, j) in Tried(dir, name, n)
  {
    if j < n {
      TriedCovers(dir, name, n - 1, j);
    }
  }

  lemma {:induction false} SubsetIsNoLarger(a: set<string>, b: set<string>)
    requires a <= b
    ensures |a| <= |b|
  {
    if a != {} {
      var x :| x in a;
      SubsetIsNoLarger(a - {x}, b - {x});
    }
  }

  /** Pigeonhole: when all n + 1 candidates are taken, n is less than what is taken. */
  lemma TriedWithinTaken(dir: string, name: string, n: nat, taken: set<string>)
    requires Tried(dir, name, n) <= taken
    ensures n < |taken|
  {
    TriedAreDistinct(dir, name, n);
    SubsetIsNoLarger(Tried(dir, name, n), taken);
  }

  /** The choice as promised: the plain name when free, otherwise the least free number. */
  ghost predicate Picks(dir: string, report: string, taken: set<string>, chosen: string) {
    var name := DefaultLocalName(report);
    if Joined(dir, name) !in taken then chosen == Joined(dir, name)
    else exists k :: 1 <= k && LeastFree(dir, name, taken, k) && chosen == Candidate(dir, name, k)
  }

  ghost predicate LeastFree(dir: string, name: string, taken: set<string>, k: nat) {
    Candidate(dir, name, k) !in taken && forall j :: 1 <= j < k ==> Candidate(dir, name, j) in taken
  }

  /** Picks a destination that no earlier report of the run has, and claims it. The search
      ends after at most as many numbers as names are taken, so the 32-bit number never
      overflows. */
  method UniqueLocalPath(dir: string, report: string, taken: set<string>) returns (chosen: string, claimed: set<string>)
    requires |taken| < U32_LIMIT
    ensures Picks(dir, report, taken, chosen)
    ensures chosen !in taken && claimed == taken + {chosen}
  {
    var name := DefaultLocalName(report);
    chosen := Joined(dir, name);
    if chosen !in taken {
      return chosen, taken + {chosen};
    }
    var k := LeastFreeNumber(dir, name, taken);
    chosen := Candidate(dir, name, k);
    claimed := taken + {chosen};
  }

  method LeastFreeNumber(dir: string, name: string, taken: set<string>) returns (suffix: nat)
    requires |taken| < U32_LIMIT && Joined(dir, name) in taken
    ensures 1 <= suffix <= |taken| && LeastFree(dir, name, taken, suffix)
  {
    suffix := 1;
    TriedWithinTaken(dir, name, 0, taken);
    while Candidate(dir, name, suffix) in taken
      invariant 1 <= suffix <= |taken| < U32_LIMIT && Tried(dir, name, suffix - 1) <= taken
      decreases |taken| - suffix
    {
      TriedWithinTaken(dir, name, suffix, taken);
      suffix := suffix + 1;
    }
    forall j | 1 <= j < suffix ensures Candidate(dir, name, j) in taken {
      TriedCovers(dir, name, suffix - 1, j);
    }
  }

  ghost function Claimed(paths: seq<string>): set<string> {
    set p | p in paths
  }

  /** The destinations of a run, each the first free choice given the ones before it. */
  ghost predicate Chosen(dir: string, reports: seq<string>, paths: seq<string>) {
    && |paths| <= |reports|
    && (paths == [] ||
        var front := paths[..|paths| - 1];
        Chosen(dir, reports, front) && Picks(dir, reports[|front|], Claimed(front), paths[|front|]))
  }

  lemma PickIsFree(dir: string, report: string, taken: set<string>, chosen: string)
    requires Picks(dir, report, taken, chosen)
    ensures chosen !in taken
  {
  }

  lemma AppendKeepsDistinct(paths: seq<string>, last: string)
    requires forall i, j :: 0 <= i < j < |paths| ==> paths[i] != paths[j]
    requires last !in Claimed(paths)
    ensures forall i, j :: 0 <= i < j < |paths + [last]| ==> (paths + [last])[i] != (paths + [last])[j]
  {
    assert forall i :: 0 <= i < |paths| ==> paths[i] in Claimed(paths);
  }

  lemma {:induction false} ChosenAreDistinct(dir: string, reports: seq<string>, paths: seq<string>)
    requires Chosen(dir, reports, paths)
    ensures forall i, j :: 0 <= i < j < |paths| ==> paths[i] != paths[j]
    decreases |paths|
  {
    if paths != [] {
      var front, last := paths[..|paths| - 1], paths[|paths| - 1];
      ChosenAreDistinct(dir, reports, front);
      PickIsFree(dir, reports[|front|], Claimed(front), last);
      AppendKeepsDistinct(front, last);
      assert paths == front + [last];
    }
  }

  // ------------------------------------------------ distinct as paths too

  /** A name that is one component of a path and nothing else. */
  predicate PlainName(name: string) {
    name != "" && name != "." && name != ".." && '/' !in name
  }

  lemma {:induction false} LastPartOfAll(s: string, sep: char)
    requires sep !in s
    ensures LastPart(s, sep) == s
  {
    if s != "" {
      assert s[|s| - 1] in s;
      LastPartOfAll(s[..|s| - 1], sep);
      assert s == s[..|s| - 1] + [s[|s| - 1]];
    }
  }

  lemma {:induction false} BaseIsPlain(path: string)
    ensures BaseName(path).Some? ==> PlainName(BaseName(path).value)
    decreases |path|
  {
    LastPartSuffix(path, '/');
    var last := LastPart(path, '/');
    if (last == "" || last == ".") && |last| < |path| {
      BaseIsPlain(path[..|path| - |last| - 1]);
    }
  }

  /** A plain name joined to a directory is the last component of the path. */
  lemma BaseOfJoined(dir: string, name: string)
    requires PlainName(name)
    ensures BaseName(Joined(dir, name)) == Some(name)
  {
    var path := Joined(dir, name);
    if dir == "" {
      assert path == name;
      LastPartOfAll(name, '/');
    } else {
      var d := if dir[|dir| - 1] == '/' then dir[..|dir| - 1] else dir;
      assert path == d + ['/'] + name;
      LastPartFound(d, name, '/');
    }
  }

  lemma NumberedIsPlain(name: string, k: nat)
    requires PlainName(name)
    ensures PlainName(NumberedName(name, k))
  {
    LastPartOfAll(name, '/');
    NameIsStemAndExtension(name);
    var front, back, n := Front(name), Back(name), NumberedName(name, k);
    assert name == front + back;
    assert '/' !in front && '/' !in back && '/' !in Decimal(k);
    assert n[|front|] == '-';
  }

  /** The number goes to the end of the stem; the extension stays. */
  lemma NumberGoesBeforeExtension(name: string, k: nat)
    requires PlainName(name)
    ensures Extension(NumberedName(name, k)) == Extension(name)
    ensures Stem(NumberedName(name, k)) == Stem(name) + "-" + Decimal(k)
  {
    PartsOfPlain(name, k);
    NameIsStemAndExtension(name);
    match Extension(name)
    case Some(e) => NumberedWithExtension(Stem(name), Decimal(k), e);
    case None => NumberedWithout(name, Decimal(k));
  }

  lemma NumberedWithExtension(stem: string, number: string, e: string)
    requires '.' !in e
    ensures var n := stem + ("-" + number) + ("." + e);
            Extension(n) == Some(e) && Stem(n) == stem + "-" + number
  {
    var longer := stem + ("-" + number);
    assert longer == stem + "-" + number;
    assert longer[|stem|] == '-';
    StemAndExtensionOf(longer, e);
  }

  lemma NumberedWithout(name: string, number: string)
    requires Extension(name).None? && name != "" && name != ".." && '.' !in number
    ensures var n := name + ("-" + number) + "";
            Extension(n).None? && Stem(n) == name + "-" + number
  {
    NoExtensionAfter(name, "-" + number);
    assert name + ("-" + number) + "" == name + ("-" + number);
    assert name + ("-" + number) == name + "-" + number;
  }

  lemma PartsOfPlain(name: string, k: nat)
    requires PlainName(name)
    ensures NumberedName(name, k) == Stem(name) + ("-" + Decimal(k))
            + match Extension(name) case Some(e) => "." + e case None => ""
  {
    LastPartOfAll(name, '/');
    assert BaseName(name) == Some(name);
  }

  lemma StemAndExtensionOf(stem: string, e: string)
    requires stem != "" && stem != "." && '.' !in e
    ensures Extension(stem + ("." + e)) == Some(e) && Stem(stem + ("." + e)) == stem
  {
    var name := stem + ("." + e);
    assert name == stem + ['.'] + e;
    LastPartFound(stem, e, '.');
    assert name[..|name| - |e| - 1] == stem;
  }

  lemma NoExtensionAfter(name: string, more: string)
    requires Extension(name).None? && name != "" && name != ".." && more != "" && '.' !in more
    ensures Extension(name + more).None? && Stem(name + more) == name + more
  {
    LastPartSuffix(name, '.');
    var last := LastPart(name, '.');
    LastPartGrows(name, more, '.');
  }

  lemma {:induction false} LastPartGrows(s: string, more: string, sep: char)
    requires sep !in more
    ensures LastPart(s + more, sep) == LastPart(s, sep) + more
    decreases |more|
  {
    if more == "" {
      assert s + more == s;
    } else {
      var front, end := more[..|more| - 1], more[|more| - 1];
      assert end in more;
      assert more == front + [end];
      assert (s + more)[..|s + more| - 1] == s + front;
      LastPartGrows(s, front, sep);
    }
  }

  /** A report with a base name keeps its extension: the last component of the chosen path is
      the base name itself, or that name with a number at the end of its stem. */
  lemma PickKeepsExtension(dir: string, report: string, taken: set<string>, chosen: string)
    requires Picks(dir, report, taken, chosen) && BaseName(report).Some?
    ensures BaseName(chosen).Some?
    ensures var name, local := BaseName(report).value, BaseName(chosen).value;
            && Extension(local) == Extension(name)
            && (local == name || exists k :: k >= 1 && Stem(local) == Stem(name) + "-" + Decimal(k))
  {
    var name := DefaultLocalName(report);
    BaseIsPlain(report);
    if Joined(dir, name) !in taken {
      BaseOfJoined(dir, name);
    } else {
      var k :| 1 <= k && LeastFree(dir, name, taken, k) && chosen == Candidate(dir, name, k);
      NumberedIsPlain(name, k);
      BaseOfJoined(dir, NumberedName(name, k));
      NumberGoesBeforeExtension(name, k);
    }
  }

  /** For a report with a base name, the last component of the chosen path tells the path. */
  lemma PickEndsInName(dir: string, report: string, taken: set<string>, chosen: string)
    requires Picks(dir, report, taken, chosen) && BaseName(report).Some?
    ensures BaseName(chosen).Some? && chosen == Joined(dir, BaseName(chosen).value)
  {
    var name := DefaultLocalName(report);
    BaseIsPlain(report);
    if Joined(dir, name) !in taken {
      BaseOfJoined(dir, name);
    } else {
      var k :| 1 <= k && LeastFree(dir, name, taken, k) && chosen == Candidate(dir, name, k);
      NumberedIsPlain(name, k);
      BaseOfJoined(dir, NumberedName(name, k));
    }
  }

  lemma {:induction false} PickAt(dir: string, reports: seq<string>, paths: seq<string>, i: nat)
    requires Chosen(dir, reports, paths) && i < |paths|
    ensures Picks(dir, reports[i], Claimed(paths[..i]), paths[i])
    decreases |paths|
  {
    var front := paths[..|paths| - 1];
    if i < |front| {
      PickAt(dir, reports, front, i);
      assert front[..i] == paths[..i];
    }
  }

  /** The destinations of reports that have base names differ in their last component, so
      also as paths, which are compared component by component. */
  lemma ChosenDifferAsPaths(dir: string, reports: seq<string>, paths: seq<string>, i: nat, j: nat)
    requires Chosen(dir, reports, paths) && i < j < |paths|
    requires BaseName(reports[i]).Some? && BaseName(reports[j]).Some?
    ensures BaseName(paths[i]).Some? && BaseName(paths[j]).Some? && BaseName(paths[i]) != BaseName(paths[j])
  {
    ChosenAreDistinct(dir, reports, paths);
    PickAt(dir, reports, paths, i);
    PickAt(dir, reports, paths, j);
    PickEndsInName(dir, reports[i], Claimed(paths[..i]), paths[i]);
    PickEndsInName(dir, reports[j], Claimed(paths[..j]), paths[j]);
  }

  /** A whole pull-all run: every report gets its own destination. */
  method ChooseAll(dir: string, reports: seq<string>) returns (paths: seq<string>)
    requires |reports| <= U32_LIMIT
    ensures |paths| == |reports| && Chosen(dir, reports, paths)
    ensures forall i, j :: 0 <= i < j < |paths| ==> paths[i] != paths[j]
  {
    paths := [];
    var taken := {};
    for n := 0 to |reports|
      invariant |paths| == n && taken == Claimed(paths) && |taken| <= n
      invariant Chosen(dir, reports, paths)
    {
      var chosen, claimed := UniqueLocalPath(dir, reports[n], taken);
      assert (paths + [chosen])[..n] == paths;
      paths, taken := paths + [chosen], claimed;
    }
    ChosenAreDistinct(dir, reports, paths);
  }
}
