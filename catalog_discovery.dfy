/** File discovery and the `.cab` → `.xml` name rule of the catalog
    library (catalog-lib/src/lib.rs). The directory walk is an input: the
    sequence of items the walker yields, in its order. */
module CatalogDiscovery {

  import opened Wrappers
  import opened Text

  /** The library's error type, variant for variant. The two transparent
      variants carry the message of the error they wrap. */
  datatype CatalogError =
    | SelectedIcFileError
    | SelectedCabFileError
    | NoFilesFound
    | MultipleFilesFound
    | Unexpected
    | IoError(message: string)
    | ParseError(reason: string)
    | InvalidCatalog(reason: string)
    | IcedError(message: string)

  datatype CatalogInfo = CatalogInfo(cabPath: string, icPath: string)

  /** What the walker yields: an entry with its full path, or an error
      (an unreadable directory, say), which the library drops. */
  datatype WalkItem = Entry(path: string, isDir: bool) | WalkFailure

  const NoIcFound := "No invc.exe file found"
  const NoCabFound := "No .cab file found"

  predicate IsFile(w: WalkItem) {
    w.Entry? && !w.isDir
  }

  /** A catalog candidate: the full path ends with `.cab` (case matters). */
  predicate IsCab(path: string) {
    EndsWith(path, ".cab")
  }

  /** An installer candidate: not a catalog, ends with `.exe` (case
      matters) and holds `invc` anywhere in the lower-cased full path,
      directory names included. */
  predicate IsInstaller(path: string) {
    !IsCab(path) && EndsWith(path, ".exe") && Contains(Lower(path), "invc")
  }

  /** What one walk item adds to the catalog candidates. */
  function CabOf(w: WalkItem): seq<string> {
    if IsFile(w) && IsCab(w.path) then [w.path] else []
  }

  /** What one walk item adds to the installer candidates. */
  function InstallerOf(w: WalkItem): seq<string> {
    if IsFile(w) && IsInstaller(w.path) then [w.path] else []
  }

  /** The catalog candidates of a walk, in walk order. */
  function CabCandidates(walk: seq<WalkItem>): (r: seq<string>)
    ensures |r| <= |walk|
    ensures forall i :: 0 <= i < |r| ==> IsCab(r[i])
    decreases |walk|
  {
    if |walk| == 0 then [] else CabCandidates(walk[..|walk| - 1]) + CabOf(walk[|walk| - 1])
  }

  /** The installer candidates of a walk, in walk order. */
  function InstallerCandidates(walk: seq<WalkItem>): (r: seq<string>)
    ensures |r| <= |walk|
    ensures forall i :: 0 <= i < |r| ==> IsInstaller(r[i])
    decreases |walk|
  {
    if |walk| == 0 then [] else InstallerCandidates(walk[..|walk| - 1]) + InstallerOf(walk[|walk| - 1])
  }

  lemma AppendAssoc(x: seq<string>, y: seq<string>, z: seq<string>)
    ensures x + y + z == x + (y + z)
  {
  }

  lemma WalkInit(a: seq<WalkItem>, b: seq<WalkItem>)
    requires |b| > 0
    ensures (a + b)[..|a + b| - 1] == a + b[..|b| - 1]
    ensures (a + b)[|a + b| - 1] == b[|b| - 1]
  {
  }

  /** The catalog candidates of two walks one after the other are those
      of the first followed by those of the second: the list keeps walk
      order. */
  lemma {:induction false} CabCandidatesAppend(a: seq<WalkItem>, b: seq<WalkItem>)
    ensures CabCandidates(a + b) == CabCandidates(a) + CabCandidates(b)
    decreases |b|
  {
    if |b| == 0 {
      assert a + b == a;
    } else {
      var b' := b[..|b| - 1];
      CabCandidatesAppend(a, b');
      WalkInit(a, b);
      AppendAssoc(CabCandidates(a), CabCandidates(b'), CabOf(b[|b| - 1]));
    }
  }

  /** Likewise for the installer candidates. */
  lemma {:induction false} InstallerCandidatesAppend(a: seq<WalkItem>, b: seq<WalkItem>)
    ensures InstallerCandidates(a + b) == InstallerCandidates(a) + InstallerCandidates(b)
    decreases |b|
  {
    if |b| == 0 {
      assert a + b == a;
    } else {
      var b' := b[..|b| - 1];
      InstallerCandidatesAppend(a, b');
      WalkInit(a, b);
      AppendAssoc(InstallerCandidates(a), InstallerCandidates(b'), InstallerOf(b[|b| - 1]));
    }
  }

  /** Some file of the walk has path `p`, and `p` ends with `.cab`. */
  ghost predicate HasCab(walk: seq<WalkItem>, p: string) {
    exists i :: 0 <= i < |walk| && IsFile(walk[i]) && walk[i].path == p && IsCab(p)
  }

  /** Some file of the walk has path `p`, and `p` is an installer path. */
  ghost predicate HasInstaller(walk: seq<WalkItem>, p: string) {
    exists i :: 0 <= i < |walk| && IsFile(walk[i]) && walk[i].path == p && IsInstaller(p)
  }

  lemma HasCabStep(walk: seq<WalkItem>, p: string)
    requires |walk| > 0
    ensures var n := |walk| - 1;
      HasCab(walk, p) <==> HasCab(walk[..n], p) || (IsFile(walk[n]) && walk[n].path == p && IsCab(p))
  {
    var n := |walk| - 1;
    if HasCab(walk, p) {
      var i :| 0 <= i < |walk| && IsFile(walk[i]) && walk[i].path == p && IsCab(p);
      if i < n { assert walk[..n][i] == walk[i]; }
    }
    if HasCab(walk[..n], p) {
      var i :| 0 <= i < n && IsFile(walk[..n][i]) && walk[..n][i].path == p && IsCab(p);
      assert walk[i] == walk[..n][i];
    }
  }

  lemma HasInstallerStep(walk: seq<WalkItem>, p: string)
    requires |walk| > 0
    ensures var n := |walk| - 1;
      HasInstaller(walk, p) <==> HasInstaller(walk[..n], p) || (IsFile(walk[n]) && walk[n].path == p && IsInstaller(p))
  {
    var n := |walk| - 1;
    if HasInstaller(walk, p) {
      var i :| 0 <= i < |walk| && IsFile(walk[i]) && walk[i].path == p && IsInstaller(p);
      if i < n { assert walk[..n][i] == walk[i]; }
    }
    if HasInstaller(walk[..n], p) {
      var i :| 0 <= i < n && IsFile(walk[..n][i]) && walk[..n][i].path == p && IsInstaller(p);
      assert walk[i] == walk[..n][i];
    }
  }

  /** A path is a catalog candidate exactly when some file of the walk has
      it and it ends with `.cab`. */
  lemma {:induction false} CabMembership(walk: seq<WalkItem>, p: string)
    ensures p in CabCandidates(walk) <==> HasCab(walk, p)
    decreases |walk|
  {
    if |walk| > 0 {
      CabMembership(walk[..|walk| - 1], p);
      HasCabStep(walk, p);
    }
  }

  /** A path is an installer candidate exactly when some file of the walk
      has it and it is an installer path. */
  lemma {:induction false} InstallerMembership(walk: seq<WalkItem>, p: string)
    ensures p in InstallerCandidates(walk) <==> HasInstaller(walk, p)
    decreases |walk|
  {
    if |walk| > 0 {
      InstallerMembership(walk[..|walk| - 1], p);
      HasInstallerStep(walk, p);
    }
  }

  /** No path is both a catalog and an installer candidate, and a walk of
      directories and failures only has no candidates at all. */
  lemma CandidatesDisjoint(walk: seq<WalkItem>)
    ensures forall p :: p in CabCandidates(walk) ==> p !in InstallerCandidates(walk)
    ensures (forall i :: 0 <= i < |walk| ==> !IsFile(walk[i])) ==>
      CabCandidates(walk) == [] && InstallerCandidates(walk) == []
  {
    forall p | p in CabCandidates(walk)
      ensures p !in InstallerCandidates(walk)
    {
      CabMembership(walk, p);
      InstallerMembership(walk, p);
    }
    if forall i :: 0 <= i < |walk| ==> !IsFile(walk[i]) {
      if CabCandidates(walk) != [] {
        CabMembership(walk, CabCandidates(walk)[0]);
      }
      if InstallerCandidates(walk) != [] {
        InstallerMembership(walk, InstallerCandidates(walk)[0]);
      }
    }
  }

  /** The outcome for the two candidate lists, arm by arm as the library
      matches them. The final `Unexpected` arm can never be reached. */
  function Outcome(cabs: seq<string>, exes: seq<string>): (r: Result<CatalogInfo, CatalogError>)
    ensures r.Success? <==> |cabs| <= 1 && |exes| <= 1 && |cabs| + |exes| >= 1
    ensures r == Failure(NoFilesFound) <==> |cabs| == 0 && |exes| == 0
    ensures r == Failure(MultipleFilesFound) <==> |cabs| > 1 || |exes| > 1
    ensures r != Failure(Unexpected)
    ensures r.Success? ==>
      r.value.cabPath == (if |cabs| == 1 then cabs[0] else NoCabFound) &&
      r.value.icPath == (if |exes| == 1 then exes[0] else NoIcFound)
  {
    if |cabs| == 1 && |exes| == 1 then Success(CatalogInfo(cabs[0], exes[0]))
    else if |cabs| == 1 && |exes| == 0 then Success(CatalogInfo(cabs[0], NoIcFound))
    else if |cabs| == 0 && |exes| == 1 then Success(CatalogInfo(NoCabFound, exes[0]))
    else if |cabs| == 0 && |exes| == 0 then Failure(NoFilesFound)
    else if |cabs| > 1 || |exes| > 1 then Failure(MultipleFilesFound)
    else Failure(Unexpected)
  }

  /** Walks the entries once, collecting catalog and installer candidates,
      and maps the two counts to the outcome. */
  method GetCatalogAndIcPaths(walk: seq<WalkItem>) returns (r: Result<CatalogInfo, CatalogError>)
    ensures r == Outcome(CabCandidates(walk), InstallerCandidates(walk))
  {
    var cabFiles: seq<string> := [];
    var exeFiles: seq<string> := [];
    for i := 0 to |walk|
      invariant cabFiles == CabCandidates(walk[..i])
      invariant exeFiles == InstallerCandidates(walk[..i])
    {
      WalkOneMore(walk, i);
      var w := walk[i];
      if w.Entry? && !w.isDir {
        var fName := w.path;
        if EndsWith(fName, ".cab") {
          cabFiles := cabFiles + [fName];
        } else if EndsWith(fName, ".exe") && Contains(Lower(fName), "invc") {
          exeFiles := exeFiles + [fName];
        }
      }
    }
    assert walk[..|walk|] == walk;
    r := Outcome(cabFiles, exeFiles);
  }

  /** One more walk item adds its own candidates at the end. */
  lemma WalkOneMore(walk: seq<WalkItem>, i: nat)
    requires i < |walk|
    ensures CabCandidates(walk[..i + 1]) == CabCandidates(walk[..i]) + CabOf(walk[i])
    ensures InstallerCandidates(walk[..i + 1]) == InstallerCandidates(walk[..i]) + InstallerOf(walk[i])
  {
    assert walk[..i + 1][..i] == walk[..i];
  }

  /** The placeholder strings are not candidates of either kind, so a
      success tells by its paths alone which of the two files was found. */
  lemma OutcomeTellsWhatWasFound(walk: seq<WalkItem>)
    requires Outcome(CabCandidates(walk), InstallerCandidates(walk)).Success?
    ensures var info := Outcome(CabCandidates(walk), InstallerCandidates(walk)).value;
      (IsCab(info.cabPath) <==> |CabCandidates(walk)| == 1) &&
      (EndsWith(info.icPath, ".exe") <==> |InstallerCandidates(walk)| == 1)
  {
    var cabs, exes := CabCandidates(walk), InstallerCandidates(walk);
    assert NoCabFound[|NoCabFound| - 4..] == "ound";
    assert NoIcFound[|NoIcFound| - 4..] == "ound";
    if |cabs| == 1 {
      CabMembership(walk, cabs[0]);
    }
    if |exes| == 1 {
      InstallerMembership(walk, exes[0]);
    }
  }

  /** How running `cmd /c expand.exe -R <cab>` ended: the process could not
      be started (with the system's message), or it exited. */
  datatype CommandOutcome = LaunchFailed(reason: string) | Exited(success: bool)

  /** The xml path `expand.exe` is expected to produce: every trailing
      `.cab` removed, then `.xml` appended. */
  function XmlPathFor(cabPath: string): (r: string)
    ensures EndsWith(r, ".xml")
  {
    TrimEndMatches(cabPath, ".cab") + ".xml"
  }

  /** The result of expanding a catalog, given how the command ended. */
  function CabToXml(cabPath: string, cmd: CommandOutcome): (r: Result<string, CatalogError>)
    ensures cmd.LaunchFailed? <==> r.Failure? && r.error.IoError?
    ensures cmd == Exited(false) <==> r == Failure(ParseError("cmd command failed"))
    ensures cmd == Exited(true) <==> r.Success?
    ensures r.Success? ==> r.value == XmlPathFor(cabPath)
  {
    match cmd
    case LaunchFailed(e) => Failure(IoError("cmd exec error: " + e))
    case Exited(false) => Failure(ParseError("cmd command failed"))
    case Exited(true) => Success(XmlPathFor(cabPath))
  }

  /** The xml path is the catalog path with all trailing `.cab` copies
      replaced by one `.xml`: what is left before `.xml` no longer ends in
      `.cab`, and appending some number of `.cab` to it gives back the
      catalog path. */
  lemma XmlPathShape(cabPath: string)
    ensures var stem := XmlPathFor(cabPath)[..|XmlPathFor(cabPath)| - 4];
      !EndsWith(stem, ".cab") && exists k: nat :: cabPath == stem + Repeat(".cab", k)
  {
    var stem := TrimEndMatches(cabPath, ".cab");
    assert XmlPathFor(cabPath)[..|XmlPathFor(cabPath)| - 4] == stem;
    TrimEndMatchesRemovesAll(cabPath, ".cab");
  }

  /** A path without a trailing `.cab` simply gains `.xml`. */
  lemma XmlPathOfNonCab(path: string)
    requires !EndsWith(path, ".cab")
    ensures XmlPathFor(path) == path + ".xml"
  {
  }

  /** A catalog path with one `.cab` extension has it replaced by `.xml`,
      whatever dots the rest of the path holds: `C:\v1.2\a.cab` gives
      `C:\v1.2\a.xml`. */
  lemma XmlPathSingleExtension(stem: string)
    requires !EndsWith(stem, ".cab")
    ensures XmlPathFor(stem + ".cab") == stem + ".xml"
  {
    var p := stem + ".cab";
    assert EndsWith(p, ".cab");
    assert p[..|p| - 4] == stem;
    assert TrimEndMatches(stem, ".cab") == stem;
    assert TrimEndMatches(p, ".cab") == TrimEndMatches(stem, ".cab");
  }

  /** Doubled extensions are all removed: `a.cab.cab` gives `a.xml`. */
  lemma XmlPathDoubledExtension()
    ensures XmlPathFor("a.cab.cab") == "a.xml"
  {
    assert EndsWith("a.cab.cab", ".cab");
    assert "a.cab.cab"[..5] == "a.cab";
    assert EndsWith("a.cab", ".cab");
    assert "a.cab"[..1] == "a";
    assert !EndsWith("a", ".cab");
  }
}
