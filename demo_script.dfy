/** The first Python draft of the tool (demo_122847.py): grouping a
    folder's files by extension, choosing the catalog among the names of
    the working directory, deriving and rewriting its manifest, and the
    registry record built from the manifest's digest.

    The directory listings, the installers found under the working
    directory, the document the parser finds at each path and the digest
    are inputs; prompts, the expander run and the tree write are recorded
    as steps. */
module DemoScript {

  import opened Wrappers
  import opened Text
  import opened Bytes
  import opened Base64
  import opened JsonString
  import opened ElementTree
  import opened PyPath

  // ---------------------------------------------------------------------
  // group_files_by_suffix

  /** One entry of `os.listdir(folder)`: the bare name, and whether the
      joined path is a regular file. */
  datatype DirEntry = DirEntry(name: string, isFile: bool)

  /** The grouping after the given entries, built one entry at a time. */
  function Groups(folder: string, listing: seq<DirEntry>): (r: map<string, seq<string>>)
    ensures forall k :: k in r ==> |r[k]| > 0
    decreases |listing|
  {
    if |listing| == 0 then map[]
    else
      var g := Groups(folder, listing[..|listing| - 1]);
      var e := listing[|listing| - 1];
      if !e.isFile then g
      else
        var k := Suffix(e.name);
        g[k := (if k in g then g[k] else []) + [Join(folder, e.name)]]
  }

  /** The joined paths of the files whose extension is `suffix`, in
      listing order. */
  function FilesWithSuffix(folder: string, listing: seq<DirEntry>, suffix: string): seq<string>
    decreases |listing|
  {
    if |listing| == 0 then []
    else
      var e := listing[|listing| - 1];
      FilesWithSuffix(folder, listing[..|listing| - 1], suffix) +
        (if e.isFile && Suffix(e.name) == suffix then [Join(folder, e.name)] else [])
  }

  method GroupFilesBySuffix(folder: string, listing: seq<DirEntry>) returns (fileGroups: map<string, seq<string>>)
    ensures fileGroups == Groups(folder, listing)
  {
    fileGroups := map[];
    for i := 0 to |listing|
      invariant fileGroups == Groups(folder, listing[..i])
    {
      assert listing[..i + 1][..i] == listing[..i];
      var e := listing[i];
      if e.isFile {
        var filePath := Join(folder, e.name);
        var suffix := Suffix(e.name);
        var group := if suffix in fileGroups then fileGroups[suffix] else [];
        fileGroups := fileGroups[suffix := group + [filePath]];
      }
    }
    assert listing[..|listing|] == listing;
  }

  /** A key is present exactly when some file has that extension, and its
      group is the files with that extension in listing order: every file
      lands in the group of its own extension and nothing else does. */
  lemma {:induction false} GroupsAreFilters(folder: string, listing: seq<DirEntry>)
    ensures forall k :: k in Groups(folder, listing) <==> FilesWithSuffix(folder, listing, k) != []
    ensures forall k :: k in Groups(folder, listing) ==> Groups(folder, listing)[k] == FilesWithSuffix(folder, listing, k)
    decreases |listing|
  {
    if |listing| > 0 {
      GroupsAreFilters(folder, listing[..|listing| - 1]);
    }
  }

  /** Every file appears in the group of its extension. */
  lemma {:induction false} FileInItsGroup(folder: string, listing: seq<DirEntry>, i: nat)
    requires i < |listing| && listing[i].isFile
    ensures Suffix(listing[i].name) in Groups(folder, listing)
    ensures Join(folder, listing[i].name) in Groups(folder, listing)[Suffix(listing[i].name)]
    decreases |listing|
  {
    var n := |listing|;
    var init := listing[..n - 1];
    var k := Suffix(listing[i].name);
    GroupsAreFilters(folder, listing);
    if i < n - 1 {
      assert init[i] == listing[i];
      FileInItsGroup(folder, init, i);
      GroupsAreFilters(folder, init);
    }
  }

  /** A listing without files gives no groups. */
  lemma {:induction false} NoFilesNoGroups(folder: string, listing: seq<DirEntry>)
    requires forall i :: 0 <= i < |listing| ==> !listing[i].isFile
    ensures Groups(folder, listing) == map[]
    decreases |listing|
  {
    if |listing| > 0 {
      NoFilesNoGroups(folder, listing[..|listing| - 1]);
    }
  }

  // ---------------------------------------------------------------------
  // handle_cab: the manifest rewrite

  const ComponentTag := "{openmanage/cm/dm}SoftwareComponent"

  /** The attributes of one node after the loop over the components: a
      component with a `path` gets its last `/`-piece, every other node
      keeps its attributes. */
  function RewriteNode(tag: string, attrib: seq<(string, string)>): seq<(string, string)> {
    if tag != ComponentTag then attrib
    else
      match Get(attrib, "path")
      case None => attrib
      case Some(p) => Set(attrib, "path", LastPiece(p, '/'))
  }

  /** The loop over `tree.iter(ComponentTag)`, applied to every node of the
      tree, the root included. */
  function RewriteComponents(e: Element): (r: Element)
    ensures r.tag == e.tag && |r.children| == |e.children|
    decreases e
  {
    Element(e.tag, RewriteNode(e.tag, e.attrib),
      seq(|e.children|, i requires 0 <= i < |e.children| => RewriteComponents(e.children[i])))
  }

  /** The whole rewrite: the root's `baseLocation` set to `""`, then the
      components rewritten. */
  function RewriteTree(root: Element): (r: Element)
    ensures r.tag == root.tag && |r.children| == |root.children|
    ensures Get(r.attrib, "baseLocation") == Some("")
  {
    var a := Set(root.attrib, "baseLocation", "");
    GetSet(root.attrib, "baseLocation", "", "baseLocation");
    RewriteNodeEffect(root.tag, a, "baseLocation");
    RewriteComponents(Element(root.tag, a, root.children))
  }

  /** A node's rewrite: a component's `path` becomes its last `/`-piece;
      every other attribute, and every attribute of other nodes and of
      components without a `path`, reads as before. */
  lemma RewriteNodeEffect(tag: string, attrib: seq<(string, string)>, key: string)
    ensures tag == ComponentTag && Get(attrib, "path").Some? ==>
      Get(RewriteNode(tag, attrib), "path") == Some(LastPiece(Get(attrib, "path").value, '/'))
    ensures key != "path" ==> Get(RewriteNode(tag, attrib), key) == Get(attrib, key)
    ensures tag != ComponentTag || Get(attrib, "path").None? ==> RewriteNode(tag, attrib) == attrib
    ensures Keys(RewriteNode(tag, attrib)) == Keys(attrib)
  {
    if tag == ComponentTag && Get(attrib, "path").Some? {
      GetSet(attrib, "path", LastPiece(Get(attrib, "path").value, '/'), key);
      SetKeys(attrib, "path", LastPiece(Get(attrib, "path").value, '/'));
    }
  }

  /** The root ends with an empty `baseLocation`, whether it had one or
      not and whatever its tag; its other attributes other than `path`
      read as before. */
  lemma RootBaseLocation(root: Element, key: string)
    ensures key != "baseLocation" && key != "path" ==> Get(RewriteTree(root).attrib, key) == Get(root.attrib, key)
  {
    var a := Set(root.attrib, "baseLocation", "");
    GetSet(root.attrib, "baseLocation", "", key);
    GetSet(root.attrib, "baseLocation", "", "path");
    RewriteNodeEffect(root.tag, a, "baseLocation");
    RewriteNodeEffect(root.tag, a, key);
  }

  /** Every component's `path` holds no `/` once the tree is rewritten. */
  predicate PathsFlat(e: Element)
    decreases e
  {
    (e.tag == ComponentTag && Get(e.attrib, "path").Some? ==> '/' !in Get(e.attrib, "path").value) &&
    forall i :: 0 <= i < |e.children| ==> PathsFlat(e.children[i])
  }

  lemma {:induction false} RewriteFlattensPaths(e: Element)
    ensures PathsFlat(RewriteComponents(e))
    decreases e
  {
    var r := RewriteComponents(e);
    forall i | 0 <= i < |e.children| ensures PathsFlat(r.children[i]) {
      RewriteFlattensPaths(e.children[i]);
    }
    RewriteNodeEffect(e.tag, e.attrib, "path");
    if e.tag == ComponentTag && Get(e.attrib, "path").Some? {
      LastPieceIdempotent(Get(e.attrib, "path").value, '/');
    }
  }

  /** The rewrite keeps every tag, every attribute key in its place and
      the number of children of every node. */
  predicate SameShape(a: Element, b: Element)
    decreases a
  {
    a.tag == b.tag && Keys(a.attrib) == Keys(b.attrib) && |a.children| == |b.children| &&
    forall i :: 0 <= i < |a.children| ==> SameShape(a.children[i], b.children[i])
  }

  lemma {:induction false} RewriteKeepsShape(e: Element)
    ensures SameShape(e, RewriteComponents(e))
    decreases e
  {
    RewriteNodeEffect(e.tag, e.attrib, "path");
    forall i | 0 <= i < |e.children| ensures SameShape(e.children[i], RewriteComponents(e).children[i]) {
      RewriteKeepsShape(e.children[i]);
    }
  }

  /** Rewriting the components twice is the same as rewriting them once. */
  lemma {:induction false} RewriteComponentsIdempotent(e: Element)
    ensures RewriteComponents(RewriteComponents(e)) == RewriteComponents(e)
    decreases e
  {
    var r := RewriteComponents(e);
    forall i | 0 <= i < |e.children| ensures RewriteComponents(r.children[i]) == r.children[i] {
      RewriteComponentsIdempotent(e.children[i]);
    }
    if e.tag == ComponentTag && Get(e.attrib, "path").Some? {
      var p := LastPiece(Get(e.attrib, "path").value, '/');
      RewriteNodeEffect(e.tag, e.attrib, "path");
      LastPieceIdempotent(Get(e.attrib, "path").value, '/');
      SetSet(e.attrib, "path", p, p);
    }
    assert RewriteComponents(r).children == r.children;
  }

  /** The whole rewrite is idempotent: applied to its own output it
      changes nothing. */
  lemma RewriteTreeIdempotent(root: Element)
    ensures RewriteTree(RewriteTree(root)) == RewriteTree(root)
  {
    var once := RewriteTree(root);
    RootBaseLocation(root, "");
    SetSame(once.attrib, "baseLocation");
    assert Element(once.tag, Set(once.attrib, "baseLocation", ""), once.children) == once;
    var a := Set(root.attrib, "baseLocation", "");
    RewriteComponentsIdempotent(Element(root.tag, a, root.children));
  }

  // ---------------------------------------------------------------------
  // handle_cab: the selection loop

  /** What one pass of the loop sees: the names in the working directory
      and the `inv*.exe` files found under it, in the order they are
      found. */
  datatype Listing = Listing(names: seq<string>, installers: seq<string>)

  /** What `ET.parse` finds at each path: the document there; a path
      outside the map holds no file or one that is not well-formed XML.
      The expander writes the document afresh each time it runs, so
      parsing a path right after an expansion always gives the same
      document. */
  type Documents = map<string, Element>

  /** What the tool does besides computing: a prompt, running the expander
      on a cab, writing a tree to a file. */
  datatype Step = Prompt(message: string) | Expand(cabPath: string) | WriteTree(xmlPath: string, tree: Element)

  /** How a call ends: it returned; `ET.parse` raised on the xml path it
      derived, an exception that ends every enclosing call and the script;
      or the listings ran out while it still waited at a prompt. */
  datatype Status = Returned | ParseFailed(xmlPath: string) | Waiting

  /** How a call ends: its status, the xml path and installer path it
      holds, what it did, and the index of the first listing it did not
      consume. */
  datatype Outcome = Outcome(status: Status, xml: string, ic: string, steps: seq<Step>, next: nat)

  const PlaceMsg := "Place the catalog under the same directory and press <Enter>Continue"
  const OneMsg := "Don't put more than one catalog file and press <Enter>Continue"

  /** The names ending in `.cab`, in listing order. */
  function CabNames(names: seq<string>): (r: seq<string>)
    ensures forall i :: 0 <= i < |r| ==> EndsWith(r[i], ".cab") && r[i] in names
    ensures forall n :: n in names && EndsWith(n, ".cab") ==> n in r
    ensures |r| <= |names|
    decreases |names|
  {
    if |names| == 0 then []
    else
      var n := names[|names| - 1];
      CabNames(names[..|names| - 1]) + (if EndsWith(n, ".cab") then [n] else [])
  }

  /** The installer path after one pass: the last one found, or the
      previous value when none is found. */
  function LastInstaller(installers: seq<string>, ic: string): string {
    if |installers| == 0 then ic else installers[|installers| - 1]
  }

  /** The loop of `handle_cab` from listing `start` on, with the given
      values of its locals. A pass with one cab expands it, parses the
      derived path and writes the rewritten tree back there. A pass with no
      cab or with several prompts and then calls `handle_cab` afresh, whose
      result is dropped unless it raised; after no cab the loop goes on,
      after several it ends. */
  function Loop(cwd: string, snaps: seq<Listing>, start: nat, docs: Documents,
                xml: string, ic: string, steps: seq<Step>): (r: Outcome)
    requires start <= |snaps|
    ensures start <= r.next <= |snaps|
    ensures r.status != Waiting ==> start < r.next
    ensures r.status != Waiting ==> exists j :: start <= j < r.next && |CabNames(snaps[j].names)| == 1
    decreases |snaps| - start
  {
    if start == |snaps| then Outcome(Waiting, xml, ic, steps, start)
    else
      var s := snaps[start];
      var files := CabNames(s.names);
      var ic' := LastInstaller(s.installers, ic);
      if |files| == 1 then
        var cab := Join(cwd, files[0]);
        var x := XmlPath(cab);
        if x !in docs then Outcome(ParseFailed(x), x, ic', steps + [Expand(cab)], start + 1)
        else Outcome(Returned, x, ic', steps + [Expand(cab), WriteTree(x, RewriteTree(docs[x]))], start + 1)
      else
        var nested := Loop(cwd, snaps, start + 1, docs, "", "", []);
        var steps' := steps + [Prompt(if |files| == 0 then PlaceMsg else OneMsg)] + nested.steps;
        if nested.status != Returned then Outcome(nested.status, xml, ic', steps', nested.next)
        else if |files| == 0 then Loop(cwd, snaps, nested.next, docs, xml, ic', steps')
        else Outcome(Returned, xml, ic', steps', nested.next)
  }

  /** The script raises only on a derived path where no document parses. */
  lemma {:induction false} LoopParseFailed(cwd: string, snaps: seq<Listing>, start: nat, docs: Documents,
                                           xml: string, ic: string, steps: seq<Step>)
    requires start <= |snaps|
    ensures var r := Loop(cwd, snaps, start, docs, xml, ic, steps);
      r.status.ParseFailed? ==> r.status.xmlPath !in docs && EndsWith(r.status.xmlPath, ".xml")
    decreases |snaps| - start
  {
    if start < |snaps| {
      var s := snaps[start];
      var files := CabNames(s.names);
      if |files| == 1 {
        XmlPathDots(Join(cwd, files[0]));
      } else {
        var nested := Loop(cwd, snaps, start + 1, docs, "", "", []);
        LoopParseFailed(cwd, snaps, start + 1, docs, "", "", []);
        if nested.status == Returned && |files| == 0 {
          LoopParseFailed(cwd, snaps, nested.next, docs, xml, LastInstaller(s.installers, ic),
            steps + [Prompt(PlaceMsg)] + nested.steps);
        }
      }
    }
  }

  /** `handle_cab()` reading the listings from `start` on. */
  function Run(cwd: string, snaps: seq<Listing>, start: nat, docs: Documents): Outcome
    requires start <= |snaps|
  {
    Loop(cwd, snaps, start, docs, "", "", [])
  }

  /** The inner loop over the installer names of one listing: the path
      is overwritten by each in turn, so the last one wins. */
  method ScanInstallers(installers: seq<string>, ic0: string) returns (ic: string)
    ensures ic == LastInstaller(installers, ic0)
    ensures |installers| == 0 ==> ic == ic0
    ensures |installers| > 0 ==> ic in installers
  {
    ic := ic0;
    for k := 0 to |installers|
      invariant ic == LastInstaller(installers[..k], ic0)
    {
      ic := installers[k];
    }
    assert installers[..|installers|] == installers;
  }

  /** One pass of the loop over a listing with exactly one cab: the cab is
      expanded; the call raises if the derived path does not parse, and
      otherwise writes the rewritten document there and returns the path. */
  lemma LoopSingle(cwd: string, snaps: seq<Listing>, pos: nat, docs: Documents,
                   xml: string, ic: string, steps: seq<Step>)
    requires pos < |snaps| && |CabNames(snaps[pos].names)| == 1
    ensures var cab := Join(cwd, CabNames(snaps[pos].names)[0]);
      var x := XmlPath(cab);
      var ic' := LastInstaller(snaps[pos].installers, ic);
      Loop(cwd, snaps, pos, docs, xml, ic, steps) ==
        if x !in docs then Outcome(ParseFailed(x), x, ic', steps + [Expand(cab)], pos + 1)
        else Outcome(Returned, x, ic', steps + [Expand(cab)] + [WriteTree(x, RewriteTree(docs[x]))], pos + 1)
  {
    var cab := Join(cwd, CabNames(snaps[pos].names)[0]);
    var x := XmlPath(cab);
    if x in docs {
      var t := RewriteTree(docs[x]);
      assert steps + [Expand(cab)] + [WriteTree(x, t)] == steps + [Expand(cab), WriteTree(x, t)];
    }
  }

  /** One pass of the loop over a listing with no cab or several: a
      prompt, then a fresh call, whose exception or wait ends this one. */
  lemma LoopOther(cwd: string, snaps: seq<Listing>, pos: nat, docs: Documents,
                  xml: string, ic: string, steps: seq<Step>)
    requires pos < |snaps| && |CabNames(snaps[pos].names)| != 1
    ensures var files := CabNames(snaps[pos].names);
      var nested := Run(cwd, snaps, pos + 1, docs);
      var ic' := LastInstaller(snaps[pos].installers, ic);
      var steps' := steps + [Prompt(if |files| == 0 then PlaceMsg else OneMsg)] + nested.steps;
      Loop(cwd, snaps, pos, docs, xml, ic, steps) ==
        if nested.status != Returned then Outcome(nested.status, xml, ic', steps', nested.next)
        else if |files| == 0 then Loop(cwd, snaps, nested.next, docs, xml, ic', steps')
        else Outcome(Returned, xml, ic', steps', nested.next)
  {
  }

  method HandleCab(cwd: string, snaps: seq<Listing>, start: nat, docs: Documents) returns (r: Outcome)
    requires start <= |snaps|
    ensures r == Run(cwd, snaps, start, docs)
    decreases |snaps| - start
  {
    var length := 0;
    var catalogXmlPath := "";
    var icPath := "";
    var steps: seq<Step> := [];
    var pos := start;
    while length < 1
      invariant start <= pos <= |snaps|
      invariant length < 1 ==> Loop(cwd, snaps, pos, docs, catalogXmlPath, icPath, steps) == Run(cwd, snaps, start, docs)
      invariant length >= 1 ==> Outcome(Returned, catalogXmlPath, icPath, steps, pos) == Run(cwd, snaps, start, docs)
      decreases |snaps| - pos, 1 - length
    {
      if pos == |snaps| {
        return Outcome(Waiting, catalogXmlPath, icPath, steps, pos);
      }
      ghost var xml0, ic0, steps0 := catalogXmlPath, icPath, steps;
      var s := snaps[pos];
      var files := CabNames(s.names);
      icPath := ScanInstallers(s.installers, icPath);
      length := |files|;
      if length == 1 {
        var catalogCab := Join(cwd, files[0]);
        steps := steps + [Expand(catalogCab)];
        catalogXmlPath := XmlPath(catalogCab);
        if catalogXmlPath !in docs {
          r := Outcome(ParseFailed(catalogXmlPath), catalogXmlPath, icPath, steps, pos + 1);
          assert r == Run(cwd, snaps, start, docs) by {
            LoopSingle(cwd, snaps, pos, docs, xml0, ic0, steps0);
          }
          return;
        }
        var tree := RewriteTree(docs[catalogXmlPath]);
        steps := steps + [WriteTree(catalogXmlPath, tree)];
        assert Outcome(Returned, catalogXmlPath, icPath, steps, pos + 1) == Run(cwd, snaps, start, docs) by {
          LoopSingle(cwd, snaps, pos, docs, xml0, ic0, steps0);
        }
        pos := pos + 1;
      } else {
        var message := if length == 0 then PlaceMsg else OneMsg;
        steps := steps + [Prompt(message)];
        var nested := HandleCab(cwd, snaps, pos + 1, docs);
        steps := steps + nested.steps;
        assert Loop(cwd, snaps, pos, docs, xml0, ic0, steps0) ==
          if nested.status != Returned then Outcome(nested.status, catalogXmlPath, icPath, steps, nested.next)
          else if length == 0 then Loop(cwd, snaps, nested.next, docs, catalogXmlPath, icPath, steps)
          else Outcome(Returned, catalogXmlPath, icPath, steps, nested.next) by {
          LoopOther(cwd, snaps, pos, docs, xml0, ic0, steps0);
        }
        if nested.status != Returned {
          return Outcome(nested.status, catalogXmlPath, icPath, steps, nested.next);
        }
        pos := nested.next;
      }
    }
    r := Outcome(Returned, catalogXmlPath, icPath, steps, pos);
  }

  /** A first listing with exactly one cab ends the call at once: the cab
      is expanded and its derived xml path parsed. If that fails the
      script raises; otherwise the rewritten tree goes to that path, which
      is returned with the last installer found. */
  lemma SingleCabFirst(cwd: string, snaps: seq<Listing>, docs: Documents)
    requires |snaps| > 0 && |CabNames(snaps[0].names)| == 1
    ensures var cab := Join(cwd, CabNames(snaps[0].names)[0]);
      var r := Run(cwd, snaps, 0, docs);
      r.xml == XmlPath(cab) && r.ic == LastInstaller(snaps[0].installers, "") && r.next == 1 &&
      (r.xml !in docs ==> r.status == ParseFailed(r.xml) && r.steps == [Expand(cab)]) &&
      (r.xml in docs ==> r.status == Returned && r.steps == [Expand(cab), WriteTree(r.xml, RewriteTree(docs[r.xml]))])
    ensures EndsWith(Run(cwd, snaps, 0, docs).xml, ".xml")
  {
    XmlPathDots(Join(cwd, CabNames(snaps[0].names)[0]));
  }

  /** With the catalog `a.cab` in `C:\v1.2`, the script parses
      `C:\v12\a.xml`. The expander wrote `C:\v1.2\a.xml`, so unless some
      other file happens to sit at the dot-less path, the script raises. */
  lemma DottedDirectoryRaises(snaps: seq<Listing>, docs: Documents)
    requires |snaps| > 0 && snaps[0].names == ["a.cab"]
    requires "C:\\v12\\a.xml" !in docs
    ensures Run("C:\\v1.2", snaps, 0, docs).status == ParseFailed("C:\\v12\\a.xml")
  {
    var names := snaps[0].names;
    assert CabNames(names) == ["a.cab"] by {
      assert names[..0] == [];
      assert EndsWith("a.cab", ".cab");
    }
    assert Join("C:\\v1.2", "a.cab") == "C:\\v1" + "." + "2\\a" + "." + "cab";
    XmlPathDropsDots("C:\\v1", "2\\a", "cab");
    assert "C:\\v1" + "2\\a" + ".xml" == "C:\\v12\\a.xml";
    SingleCabFirst("C:\\v1.2", snaps, docs);
  }

  /** A first listing with several cabs prompts once, runs a fresh call,
      and returns an empty xml path once that call returns. */
  lemma SeveralCabsFirst(cwd: string, snaps: seq<Listing>, docs: Documents)
    requires |snaps| > 0 && |CabNames(snaps[0].names)| > 1
    ensures var nested := Run(cwd, snaps, 1, docs);
      var r := Run(cwd, snaps, 0, docs);
      r.status == nested.status && r.next == nested.next &&
      r.steps == [Prompt(OneMsg)] + nested.steps &&
      (r.status == Returned ==> r.xml == "")
  {
  }

  /** A first listing with no cab prompts, runs a fresh call, and when that
      returns looks at the directory again with what it had; when that call
      raises or waits, so does this one. */
  lemma NoCabFirst(cwd: string, snaps: seq<Listing>, docs: Documents)
    requires |snaps| > 0 && |CabNames(snaps[0].names)| == 0
    ensures var nested := Run(cwd, snaps, 1, docs);
      var r := Run(cwd, snaps, 0, docs);
      (nested.status == Returned ==>
        r == Loop(cwd, snaps, nested.next, docs, "", LastInstaller(snaps[0].installers, ""), [Prompt(PlaceMsg)] + nested.steps)) &&
      (nested.status != Returned ==> r.status == nested.status && r.steps == [Prompt(PlaceMsg)] + nested.steps)
  {
    assert [] + [Prompt(PlaceMsg)] == [Prompt(PlaceMsg)];
  }

  /** Every tree written is the rewritten document parsed at the path it
      is written to, and that path is derived from the cab expanded just
      before. */
  predicate WritesFollowExpands(steps: seq<Step>, docs: Documents) {
    forall i :: 0 <= i < |steps| && steps[i].WriteTree? ==>
      0 < i && steps[i - 1].Expand? && steps[i].xmlPath == XmlPath(steps[i - 1].cabPath) &&
      steps[i].xmlPath in docs && steps[i].tree == RewriteTree(docs[steps[i].xmlPath])
  }

  lemma WritesFollowExpandsAppend(a: seq<Step>, b: seq<Step>, docs: Documents)
    requires WritesFollowExpands(a, docs) && WritesFollowExpands(b, docs)
    ensures WritesFollowExpands(a + b, docs)
  {
    var s := a + b;
    forall i | 0 <= i < |s| && s[i].WriteTree?
      ensures 0 < i && s[i - 1].Expand? && s[i].xmlPath == XmlPath(s[i - 1].cabPath) &&
        s[i].xmlPath in docs && s[i].tree == RewriteTree(docs[s[i].xmlPath])
    {
      if i >= |a| {
        assert s[i] == b[i - |a|];
        assert s[i - 1] == b[i - |a| - 1];
      }
    }
  }

  /** The steps of a pass over a listing with one cab keep the property. */
  lemma SingleCabWrites(cwd: string, name: string, docs: Documents)
    ensures var cab := Join(cwd, name);
      var x := XmlPath(cab);
      WritesFollowExpands([Expand(cab)], docs) &&
      (x in docs ==> WritesFollowExpands([Expand(cab), WriteTree(x, RewriteTree(docs[x]))], docs))
  {
  }

  lemma {:induction false} LoopWritesFollowExpands(cwd: string, snaps: seq<Listing>, start: nat, docs: Documents,
                                                    xml: string, ic: string, steps: seq<Step>)
    requires start <= |snaps|
    requires WritesFollowExpands(steps, docs)
    ensures WritesFollowExpands(Loop(cwd, snaps, start, docs, xml, ic, steps).steps, docs)
    decreases |snaps| - start
  {
    if start < |snaps| {
      var files := CabNames(snaps[start].names);
      if |files| == 1 {
        var cab := Join(cwd, files[0]);
        var x := XmlPath(cab);
        SingleCabWrites(cwd, files[0], docs);
        if x in docs {
          WritesFollowExpandsAppend(steps, [Expand(cab), WriteTree(x, RewriteTree(docs[x]))], docs);
        } else {
          WritesFollowExpandsAppend(steps, [Expand(cab)], docs);
        }
      } else {
        var nested := Loop(cwd, snaps, start + 1, docs, "", "", []);
        LoopWritesFollowExpands(cwd, snaps, start + 1, docs, "", "", []);
        var msg := if |files| == 0 then PlaceMsg else OneMsg;
        WritesFollowExpandsAppend(steps, [Prompt(msg)], docs);
        WritesFollowExpandsAppend(steps + [Prompt(msg)], nested.steps, docs);
        if nested.status == Returned && |files| == 0 {
          LoopWritesFollowExpands(cwd, snaps, nested.next, docs, xml,
            LastInstaller(snaps[start].installers, ic), steps + [Prompt(msg)] + nested.steps);
        }
      }
    }
  }

  /** The xml path returned is empty or ends in `.xml`. */
  lemma {:induction false} LoopXml(cwd: string, snaps: seq<Listing>, start: nat, docs: Documents,
                                   ic: string, steps: seq<Step>)
    requires start <= |snaps|
    ensures var x := Loop(cwd, snaps, start, docs, "", ic, steps).xml;
      x == "" || EndsWith(x, ".xml")
    decreases |snaps| - start
  {
    if start < |snaps| {
      var s := snaps[start];
      var files := CabNames(s.names);
      if |files| == 1 {
        XmlPathDots(Join(cwd, files[0]));
      } else {
        var nested := Loop(cwd, snaps, start + 1, docs, "", "", []);
        if nested.status == Returned && |files| == 0 {
          LoopXml(cwd, snaps, nested.next, docs, LastInstaller(s.installers, ic),
            steps + [Prompt(PlaceMsg)] + nested.steps);
        }
      }
    }
  }

  // ---------------------------------------------------------------------
  // handle_reg: the record

  /** `Convert.ToBase64String(hash).strip('=')`: every `=` at either end
      removed. */
  function HashValue(b64: string): string {
    Strip(b64, '=')
  }

  const RecordPrefix := "[{\"CatalogHashValues\": {\"Key\": \""
  const RecordMiddle := "\", \"Value\": \""
  const RecordSuffix := "\"}}]"

  /** `json.dumps([{'CatalogHashValues': {'Key': key, 'Value': value}}])`:
      an object under the key, `Key` before `Value`, both strings
      escaped. */
  function Record(key: string, value: string): (r: string)
    ensures ParseTemplate(r, RecordPrefix, RecordMiddle, RecordSuffix) == Some((key, value))
  {
    TemplateRoundTrip(RecordPrefix, RecordMiddle, RecordSuffix, key, value);
    RecordPrefix + Escape(key) + RecordMiddle + Escape(value) + RecordSuffix
  }

  /** The value has no `=` at either end, and the text is that value with
      runs of `=` around it. */
  lemma HashValueShape(b64: string)
    ensures var v := HashValue(b64);
      (v == "" || (v[0] != '=' && v[|v| - 1] != '=')) &&
      exists a: nat, b: nat :: b64 == Repeat("=", a) + v + Repeat("=", b)
  {
    StripShape(b64, '=');
  }

  /** For a digest nothing is stripped, and the record reads back as JSON
      to the catalog path and the full base64 text, whatever the path. */
  lemma RecordRoundTrip(catalog: string, digest: Digest)
    ensures HashValue(Encode(digest)) == Encode(digest)
    ensures ParseTemplate(Record(catalog, HashValue(Encode(digest))), RecordPrefix, RecordMiddle, RecordSuffix)
      == Some((catalog, Encode(digest)))
  {
    DigestHasNoPadding(digest);
    TemplateRoundTrip(RecordPrefix, RecordMiddle, RecordSuffix, catalog, Encode(digest));
  }

  /** `strip` removes all the padding where the Rust library removes one
      `=`: on `AA==` this gives `AA`. */
  lemma StripRemovesAllPadding()
    ensures HashValue("AA==") == "AA"
  {
    assert "AA=="[0] != '=';
    assert TrimStart("AA==", '=') == "AA==";
    assert "AA=="[..3] == "AA=" && "AA="[..2] == "AA";
    assert TrimEnd("AA", '=') == "AA";
  }
}
