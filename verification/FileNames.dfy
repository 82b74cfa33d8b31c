/** Stems and extensions of file names. */
module FileNames {
  import opened Options
  import opened Decimals

  /** The part after the last dot, when there is a dot that is not the first character. */
  function Extension(name: string): Option<string> {
    var last := LastPart(name, '.');
    if name == ".." || |last| + 1 >= |name| then None else Some(last)
  }

  function Stem(name: string): (r: string) {
    LastPartSuffix(name, '.');
    if Extension(name).None? then name else name[..|name| - |LastPart(name, '.')| - 1]
  }

  lemma AppendToSuffix(s: string, c: char, d: string)
    requires |d| <= |s| && s[|s| - |d|..] == d
    ensures (s + [c])[|s + [c]| - |d + [c]|..] == d + [c]
    ensures |d| < |s| ==> (s + [c])[|s + [c]| - |d + [c]| - 1] == s[|s| - |d| - 1]
  {
  }

  lemma {:induction false} LastPartSuffix(s: string, sep: char)
    ensures sep !in LastPart(s, sep) && |LastPart(s, sep)| <= |s|
    ensures s[|s| - |LastPart(s, sep)|..] == LastPart(s, sep)
    ensures |LastPart(s, sep)| < |s| ==> s[|s| - |LastPart(s, sep)| - 1] == sep
  {
    if s != "" && s[|s| - 1] != sep {
      var front, end := s[..|s| - 1], s[|s| - 1];
      var d := LastPart(front, sep);
      LastPartSuffix(front, sep);
      AppendToSuffix(front, end, d);
      assert s == front + [end] && LastPart(s, sep) == d + [end];
    }
  }

  /** A name is its stem, or its stem, a dot and its extension. */
  lemma NameIsStemAndExtension(name: string)
    ensures match Extension(name)
            case None => name == Stem(name)
            case Some(e) => name == Stem(name) + "." + e && '.' !in e
  {
    LastPartSuffix(name, '.');
  }

  /** A name with its extension set to one that itself has a dot. */
  function WithExtension(name: string, e: string): string {
    Stem(name) + "." + e
  }

  lemma DottedExtensionChangesName(name: string, e: string)
    requires '.' in e
    ensures WithExtension(name, e) != name
  {
    NameIsStemAndExtension(name);
    assert WithExtension(name, e)[|Stem(name)| + 1..] == e;
    if Extension(name).Some? {
      assert name[|Stem(name)| + 1..] == Extension(name).value;
    }
  }
}
