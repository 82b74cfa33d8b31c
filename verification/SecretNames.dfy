/** The sibling temporary names that secret files are written under. */
module SecretNames {
  import opened Decimals

  datatype Path = Path(dir: string, name: string)

  const WRAP: nat := 0x1_0000_0000_0000_0000

  function TempName(file: string, pid: nat, seqNo: nat): string {
    file + "." + Decimal(pid) + "." + Decimal(seqNo) + ".tmp"
  }

  lemma TempNameWrittenOut()
    ensures TempName("a.key", 12, 3) == "a.key.12.3.tmp"
  {
    assert Decimal(12) == "12" && Decimal(3) == "3";
  }

  /** The temporary beside a path for the n-th draw from the shared 64-bit counter. */
  function TempPath(path: Path, pid: nat, draw: nat): Path {
    Path(path.dir, TempName(path.name, pid, draw % WRAP))
  }

  /** The path is a temporary that writing one of these targets could draw. */
  ghost predicate TempOf(pid: nat, targets: iset<Path>, path: Path) {
    exists target: Path, draw: nat :: target in targets && draw < WRAP && path == TempPath(target, pid, draw)
  }

  /** No target is a temporary of a target. */
  ghost predicate Separate(pid: nat, targets: iset<Path>) {
    forall target :: target in targets ==> !TempOf(pid, targets, target)
  }

  lemma DrawnIsTemp(pid: nat, targets: iset<Path>, target: Path, draw: nat)
    requires target in targets
    ensures TempOf(pid, targets, TempPath(target, pid, draw))
  {
    assert TempPath(target, pid, draw) == TempPath(target, pid, draw % WRAP);
  }

  lemma TempNameInjective(f: string, g: string, pid: nat, m: nat, n: nat)
    requires TempName(f, pid, m) == TempName(g, pid, n)
    ensures m == n && f == g
  {
    var x, y := f + "." + Decimal(pid), g + "." + Decimal(pid);
    var s := TempName(f, pid, m);
    assert s[..|s| - 4] == x + "." + Decimal(m);
    assert s[..|s| - 4] == y + "." + Decimal(n);
    SplitAtLast(x, Decimal(m), y, Decimal(n), '.');
    SplitAtLast(f, Decimal(pid), g, Decimal(pid), '.');
    DecimalInjective(m, n);
  }

  /** As long as the counter has not wrapped, different draws give different names,
      whatever the paths. */
  lemma DrawsGiveDistinctPaths(p: Path, q: Path, pid: nat, m: nat, n: nat)
    requires m < WRAP && n < WRAP && TempPath(p, pid, m) == TempPath(q, pid, n)
    ensures m == n
  {
    assert m % WRAP == m && n % WRAP == n;
    TempNameInjective(p.name, q.name, pid, m % WRAP, n % WRAP);
  }

  /** A temporary is never the path it stands beside. */
  lemma TempIsNotTarget(path: Path, pid: nat, draw: nat)
    ensures TempPath(path, pid, draw) != path
  {
    assert |TempPath(path, pid, draw).name| > |path.name|;
  }

  /** Two draws in a row never collide, even across the wrap of the counter. */
  lemma ConsecutiveDrawsDiffer(path: Path, pid: nat, draw: nat)
    ensures TempPath(path, pid, draw) != TempPath(path, pid, draw + 1)
  {
    if TempPath(path, pid, draw) == TempPath(path, pid, draw + 1) {
      TempNameInjective(path.name, path.name, pid, draw % WRAP, (draw + 1) % WRAP);
    }
  }
}
