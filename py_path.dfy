/** The path operations of the Python scripts: `os.path.join` and
    `os.path.splitext` as Windows' `ntpath` defines them, for the bare
    names `os.listdir` returns, and the scripts' own `.cab` → `.xml` rule. */
module PyPath {

  import opened Wrappers
  import opened Text
  import opened WinPath

  /** A drive alone, such as `C:`. */
  predicate IsDrive(folder: string) {
    |folder| == 2 && folder[1] == ':'
  }

  /** `os.path.join(folder, name)` for a bare name: a backslash goes in
      between unless the folder is empty, is a bare drive, or already ends
      with a separator. */
  function Join(folder: string, name: string): string {
    if folder == "" || IsSeparator(folder[|folder| - 1]) || IsDrive(folder) then folder + name
    else folder + "\\" + name
  }

  /** The joined path ends with the name, which becomes its file name when
      the name holds no separator. */
  lemma JoinName(folder: string, name: string)
    requires !IsDrive(folder)
    requires forall i :: 0 <= i < |name| ==> !IsSeparator(name[i])
    ensures EndsWith(Join(folder, name), name)
    ensures FileName(Join(folder, name)) == name
    ensures StartsWith(Join(folder, name), folder)
  {
    var p := Join(folder, name);
    var dir := p[..|p| - |name|];
    assert p == dir + name;
    SameNameStart(dir, name);
  }

  /** The index of the last `c` in `s`, if any. */
  function LastIndex(s: string, c: char): (r: Option<nat>)
    ensures r.None? ==> c !in s
    ensures r.Some? ==> r.value < |s| && s[r.value] == c && forall j :: r.value < j < |s| ==> s[j] != c
    decreases |s|
  {
    if |s| == 0 then None
    else if s[|s| - 1] == c then Some(|s| - 1)
    else
      var r := LastIndex(s[..|s| - 1], c);
      assert forall j :: 0 <= j < |s| - 1 ==> s[..|s| - 1][j] == s[j];
      r
  }

  /** `os.path.splitext(p)[1]`: from the last dot of the file name on, if
      that dot has something other than dots before it in the name;
      otherwise empty (a name like `.cab` has no extension). */
  function Suffix(p: string): (r: string)
    ensures r == "" || (r[0] == '.' && EndsWith(p, r))
  {
    var start := NameStart(p);
    match LastIndex(p, '.')
    case None => ""
    case Some(d) =>
      if start <= d && exists j :: start <= j < d && p[j] != '.' then p[d..] else ""
  }

  /** An extension is empty or one dot followed by dot- and separator-free
      text that ends the path. */
  lemma SuffixShape(p: string)
    ensures var x := Suffix(p);
      x == "" || (x[0] == '.' && EndsWith(p, x) && '.' !in x[1..] &&
                  forall i :: 0 <= i < |x| ==> !IsSeparator(x[i]))
  {
    var x := Suffix(p);
    if x != "" {
      var d := LastIndex(p, '.').value;
      assert x == p[d..];
      assert p[|p| - |x|..] == x;
      forall i | 1 <= i < |x| ensures x[i] != '.' {
        assert x[i] == p[d + i];
      }
      forall i | 0 <= i < |x| ensures !IsSeparator(x[i]) {
        assert x[i] == p[d + i];
      }
    }
  }

  /** The last `c` is the one with no `c` after it. */
  lemma LastIndexAt(s: string, c: char, i: nat)
    requires i < |s| && s[i] == c && forall j :: i < j < |s| ==> s[j] != c
    ensures LastIndex(s, c) == Some(i)
  {
    var r := LastIndex(s, c);
    assert r.Some?;
  }

  /** A plain name has its last dot's tail as extension. */
  lemma SuffixOfCatalog()
    ensures Suffix("catalog.cab") == ".cab"
  {
    var p := "catalog.cab";
    SameNameStart("", p);
    assert "" + p == p;
    LastIndexAt(p, '.', 7);
    assert p[0] != '.';
    assert p[7..] == ".cab";
  }

  /** A name that is all leading dot has no extension: a file named
      `.cab` is grouped under the empty key. */
  lemma SuffixOfDotName()
    ensures Suffix(".cab") == ""
  {
    LastIndexAt(".cab", '.', 0);
  }

  /** The scripts' rule: split at every `.`, replace the last piece by
      `.xml`, join the pieces with nothing between them. */
  function XmlPath(cabPath: string): string {
    var ps := Split(cabPath, '.');
    Concat(ps[..|ps| - 1] + [".xml"])
  }

  /** The result ends in `.xml` and that is its only dot: every other dot
      of the input is dropped. */
  lemma XmlPathDots(cabPath: string)
    ensures EndsWith(XmlPath(cabPath), ".xml")
    ensures Count(XmlPath(cabPath), '.') == 1
  {
    var ps := Split(cabPath, '.');
    var init := ps[..|ps| - 1];
    SplitJoin(cabPath, '.');
    ConcatAppend(init, ".xml");
    ConcatWithout(init, '.');
    CountAppend(Concat(init), ".xml", '.');
    assert Count(".xml", '.') == 1 by {
      assert ".xml"[1..] == "xml" && "xml"[1..] == "ml" && "ml"[1..] == "l" && "l"[1..] == "";
    }
  }

  /** With a single dot the rule swaps the extension for `.xml`. */
  lemma XmlPathOneDot(stem: string, ext: string)
    requires '.' !in stem && '.' !in ext
    ensures XmlPath(stem + "." + ext) == stem + ".xml"
  {
    SplitTwo(stem, ext, '.');
    assert [stem, ext][..1] + [".xml"] == [stem, ".xml"];
    assert Concat([".xml"]) == ".xml";
  }

  /** A dot before the last one is lost: `a.b.ext` becomes `ab.xml`; for
      example `C:\v1.2\a.cab` becomes `C:\v12\a.xml`, a file `expand.exe`
      did not write. */
  lemma XmlPathDropsDots(a: string, b: string, ext: string)
    requires '.' !in a && '.' !in b && '.' !in ext
    ensures XmlPath(a + "." + b + "." + ext) == a + b + ".xml"
  {
    var p := a + "." + b + "." + ext;
    SplitTwo(b, ext, '.');
    var t := "." + b + "." + ext;
    assert p == a + t;
    assert t[1..] == b + "." + ext;
    PrefixSplit(a, t, '.', [b, ext]);
    assert Split(p, '.') == [a, b, ext];
    assert [a, b, ext][..2] + [".xml"] == [a, b, ".xml"];
    assert [a, b, ".xml"][1..] == [b, ".xml"] && [b, ".xml"][1..] == [".xml"];
    assert Concat([".xml"]) == ".xml";
    assert Concat([a, b, ".xml"]) == a + (b + ".xml");
  }
}
