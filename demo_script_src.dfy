/** The second Python draft of the tool (src/demo_122847.py): the same
    catalog choice without the nested call, a rewrite that fails on a
    component without a `path`, and a record whose value is an array. */
module DemoScriptSrc {

  import opened Wrappers
  import opened Text
  import opened Base64
  import opened JsonString
  import opened ElementTree
  import opened PyPath
  import DemoScript

  // ---------------------------------------------------------------------
  // handle_cab: the manifest rewrite

  /** `node.get('path').split('/')` on a component without a `path`: the
      `AttributeError` that ends the script. */
  datatype RewriteError = MissingPath(tag: string)

  /** Every component in the tree has a `path`. */
  predicate ComponentsHavePaths(e: Element)
    decreases e
  {
    (e.tag == DemoScript.ComponentTag ==> Get(e.attrib, "path").Some?) &&
    forall i :: 0 <= i < |e.children| ==> ComponentsHavePaths(e.children[i])
  }

  /** The loop over the components, failing on the first one without a
      `path`. */
  function StrictRewrite(e: Element): (r: Result<Element, RewriteError>)
    ensures r.Success? <==> ComponentsHavePaths(e)
    ensures r.Success? ==> r.value == DemoScript.RewriteComponents(e)
    decreases e, 1
  {
    var own := if e.tag != DemoScript.ComponentTag then Success(e.attrib)
      else match Get(e.attrib, "path")
        case None => Failure(MissingPath(e.tag))
        case Some(p) => Success(Set(e.attrib, "path", LastPiece(p, '/')));
    match own
    case Failure(err) => Failure(err)
    case Success(attrib) =>
      match StrictChildren(e, 0)
      case Failure(err) => Failure(err)
      case Success(cs) => Success(Element(e.tag, attrib, cs))
  }

  /** The children of `e` from index `i` on, each rewritten strictly. */
  function StrictChildren(e: Element, i: nat): (r: Result<seq<Element>, RewriteError>)
    requires i <= |e.children|
    ensures r.Success? <==> forall j :: i <= j < |e.children| ==> ComponentsHavePaths(e.children[j])
    ensures r.Success? ==>
      |r.value| == |e.children| - i &&
      forall j :: i <= j < |e.children| ==> r.value[j - i] == DemoScript.RewriteComponents(e.children[j])
    decreases e, 0, |e.children| - i
  {
    if i == |e.children| then Success([])
    else
      match StrictRewrite(e.children[i])
      case Failure(err) => Failure(err)
      case Success(c) =>
        match StrictChildren(e, i + 1)
        case Failure(err) => Failure(err)
        case Success(cs) => Success([c] + cs)
  }

  /** The root's `baseLocation` emptied, then the strict component loop. */
  function RewriteTree(root: Element): (r: Result<Element, RewriteError>)
    ensures r.Success? <==> ComponentsHavePaths(root)
    ensures r.Success? ==> r.value == DemoScript.RewriteTree(root)
  {
    GetSet(root.attrib, "baseLocation", "", "path");
    StrictRewrite(Element(root.tag, Set(root.attrib, "baseLocation", ""), root.children))
  }

  /** When every component has a path the two drafts write the same tree;
      otherwise this one writes nothing. Its output is a fixed point. */
  lemma RewriteAgreesWithFirstDraft(root: Element)
    ensures ComponentsHavePaths(root) ==> RewriteTree(root) == Success(DemoScript.RewriteTree(root))
    ensures !ComponentsHavePaths(root) ==> RewriteTree(root).Failure?
    ensures RewriteTree(root).Success? ==> RewriteTree(RewriteTree(root).value) == RewriteTree(root)
  {
    var a := Set(root.attrib, "baseLocation", "");
    var e := Element(root.tag, a, root.children);
    if root.tag == DemoScript.ComponentTag {
      GetSet(root.attrib, "baseLocation", "", "path");
    }
    assert ComponentsHavePaths(e) <==> ComponentsHavePaths(root);
    if ComponentsHavePaths(root) {
      var once := DemoScript.RewriteTree(root);
      DemoScript.RewriteTreeIdempotent(root);
      KeepsPaths(e);
      DemoScript.RootBaseLocation(root, "");
      SetSame(once.attrib, "baseLocation");
      assert Element(once.tag, Set(once.attrib, "baseLocation", ""), once.children) == once;
    }
  }

  /** The rewrite keeps a `path` on every component that had one. */
  lemma {:induction false} KeepsPaths(e: Element)
    requires ComponentsHavePaths(e)
    ensures ComponentsHavePaths(DemoScript.RewriteComponents(e))
    decreases e
  {
    DemoScript.RewriteNodeEffect(e.tag, e.attrib, "path");
    forall i | 0 <= i < |e.children| ensures ComponentsHavePaths(DemoScript.RewriteComponents(e).children[i]) {
      KeepsPaths(e.children[i]);
    }
  }

  // ---------------------------------------------------------------------
  // handle_cab: the selection loop

  /** How the call ends: returned with a path, stopped because `ET.parse`
      raised on the derived path, stopped by a failed rewrite, or still
      waiting when the listings run out. */
  datatype Status = Returned | ParseFailed(xmlPath: string) | Raised(error: RewriteError) | Waiting

  datatype Outcome = Outcome(status: Status, xml: string, steps: seq<DemoScript.Step>)

  /** An outcome with the given steps done before it. */
  function After(before: seq<DemoScript.Step>, r: Outcome): Outcome {
    Outcome(r.status, r.xml, before + r.steps)
  }

  lemma AfterAfter(s: seq<DemoScript.Step>, t: seq<DemoScript.Step>, r: Outcome)
    ensures After(s, After(t, r)) == After(s + t, r)
  {
    assert s + (t + r.steps) == s + t + r.steps;
  }

  /** The pass over a listing with exactly one cab: expand it, parse the
      derived path, rewrite the document and write it back there. */
  function SingleCab(cab: string, docs: DemoScript.Documents): Outcome {
    var x := XmlPath(cab);
    if x !in docs then Outcome(ParseFailed(x), x, [DemoScript.Expand(cab)])
    else
      match RewriteTree(docs[x])
      case Failure(err) => Outcome(Raised(err), x, [DemoScript.Expand(cab)])
      case Success(t) => Outcome(Returned, x, [DemoScript.Expand(cab), DemoScript.WriteTree(x, t)])
  }

  /** A single-cab pass always expands the cab first and holds the derived
      path. A missing or malformed file raises, so does a component
      without `path`; otherwise the pass returns having written the tree. */
  lemma SingleCabOutcome(cab: string, docs: DemoScript.Documents)
    ensures var r := SingleCab(cab, docs);
      var x := XmlPath(cab);
      r.xml == x && |r.steps| > 0 && r.steps[0] == DemoScript.Expand(cab) &&
      (r.status.ParseFailed? <==> x !in docs) &&
      (r.status.ParseFailed? ==> r.status.xmlPath == x) &&
      (r.status.Raised? <==> x in docs && !ComponentsHavePaths(docs[x])) &&
      (r.status == Returned <==> x in docs && ComponentsHavePaths(docs[x]))
  {
    var x := XmlPath(cab);
    if x in docs {
      RewriteAgreesWithFirstDraft(docs[x]);
    }
  }

  /** The number of cabs a listing shows. */
  function CabCount(l: DemoScript.Listing): nat {
    |DemoScript.CabNames(l.names)|
  }

  /** No listing from `pos` up to `k` holds a cab. */
  ghost predicate NoCabs(snaps: seq<DemoScript.Listing>, pos: nat, k: nat)
    requires pos <= k <= |snaps|
  {
    forall j :: pos <= j < k ==> CabCount(snaps[j]) == 0
  }

  /** The first listing from `pos` on that shows a cab, or `|snaps|` when
      none does. */
  function FirstCab(snaps: seq<DemoScript.Listing>, pos: nat): (k: nat)
    requires pos <= |snaps|
    ensures pos <= k <= |snaps|
    ensures NoCabs(snaps, pos, k)
    ensures k < |snaps| ==> CabCount(snaps[k]) > 0
    decreases |snaps| - pos
  {
    if pos == |snaps| || CabCount(snaps[pos]) > 0 then pos else FirstCab(snaps, pos + 1)
  }

  /** Only one index fits that description. */
  lemma FirstCabIs(snaps: seq<DemoScript.Listing>, k: nat)
    requires k <= |snaps| && NoCabs(snaps, 0, k)
    requires k < |snaps| ==> CabCount(snaps[k]) > 0
    ensures FirstCab(snaps, 0) == k
  {
  }

  /** The prompts of `n` passes that found no cab. */
  function Prompts(n: nat): (r: seq<DemoScript.Step>)
    ensures |r| == n
    ensures forall i :: 0 <= i < n ==> r[i] == DemoScript.Prompt(DemoScript.PlaceMsg)
  {
    if n == 0 then [] else Prompts(n - 1) + [DemoScript.Prompt(DemoScript.PlaceMsg)]
  }

  /** The pass over a listing that shows cabs: exactly one is handled by
      `SingleCab`; several prompt once and end the loop with the path still
      empty. */
  function Decide(cwd: string, l: DemoScript.Listing, docs: DemoScript.Documents): Outcome
    requires CabCount(l) > 0
  {
    var files := DemoScript.CabNames(l.names);
    if |files| == 1 then SingleCab(Join(cwd, files[0]), docs)
    else Outcome(Returned, "", [DemoScript.Prompt(DemoScript.OneMsg)])
  }

  /** What `handle_cab` does over the listings it sees: one prompt for each
      listing without a cab, until the first that shows one decides the
      call; still waiting, having prompted each time, when none does. */
  function Run(cwd: string, snaps: seq<DemoScript.Listing>, docs: DemoScript.Documents): Outcome {
    var k := FirstCab(snaps, 0);
    if k == |snaps| then Outcome(Waiting, "", Prompts(k))
    else After(Prompts(k), Decide(cwd, snaps[k], docs))
  }

  method HandleCab(cwd: string, snaps: seq<DemoScript.Listing>, docs: DemoScript.Documents) returns (r: Outcome)
    ensures r == Run(cwd, snaps, docs)
  {
    var length := 0;
    var catalogXmlPath := "";
    var steps: seq<DemoScript.Step> := [];
    var pos := 0;
    while length < 1
      invariant pos <= |snaps|
      invariant length < 1 ==> catalogXmlPath == "" && steps == Prompts(pos) && NoCabs(snaps, 0, pos)
      invariant length >= 1 ==> Outcome(Returned, catalogXmlPath, steps) == Run(cwd, snaps, docs)
      decreases |snaps| - pos, 1 - length
    {
      if pos == |snaps| {
        FirstCabIs(snaps, pos);
        return Outcome(Waiting, catalogXmlPath, steps);
      }
      var files := DemoScript.CabNames(snaps[pos].names);
      length := |files|;
      if length == 0 {
        steps := steps + [DemoScript.Prompt(DemoScript.PlaceMsg)];
      } else {
        FirstCabIs(snaps, pos);
        if length == 1 {
          var catalogCab := Join(cwd, files[0]);
          steps := steps + [DemoScript.Expand(catalogCab)];
          catalogXmlPath := XmlPath(catalogCab);
          if catalogXmlPath !in docs {
            return Outcome(ParseFailed(catalogXmlPath), catalogXmlPath, steps);
          }
          var tree := RewriteTree(docs[catalogXmlPath]);
          if tree.Failure? {
            return Outcome(Raised(tree.error), catalogXmlPath, steps);
          }
          steps := steps + [DemoScript.WriteTree(catalogXmlPath, tree.value)];
          assert steps == Prompts(pos) + [DemoScript.Expand(catalogCab), DemoScript.WriteTree(catalogXmlPath, tree.value)];
        } else {
          steps := steps + [DemoScript.Prompt(DemoScript.OneMsg)];
        }
      }
      pos := pos + 1;
    }
    r := Outcome(Returned, catalogXmlPath, steps);
  }

  /** The call raises only on a path where no document parses, or on a
      document with a component without `path`. */
  lemma RunFailures(cwd: string, snaps: seq<DemoScript.Listing>, docs: DemoScript.Documents)
    ensures var r := Run(cwd, snaps, docs);
      (r.status.ParseFailed? ==> r.status.xmlPath !in docs) &&
      (r.status.Raised? ==> r.xml in docs && !ComponentsHavePaths(docs[r.xml]))
  {
    var k := FirstCab(snaps, 0);
    if k < |snaps| {
      var files := DemoScript.CabNames(snaps[k].names);
      if |files| == 1 {
        SingleCabOutcome(Join(cwd, files[0]), docs);
      }
    }
  }

  /** The call is still waiting exactly when no listing shows a cab. */
  lemma WaitingIffNoCab(cwd: string, snaps: seq<DemoScript.Listing>, docs: DemoScript.Documents)
    ensures Run(cwd, snaps, docs).status == Waiting <==> forall j :: 0 <= j < |snaps| ==> CabCount(snaps[j]) == 0
  {
  }

  /** After the `k` empty listings, the first listing with a cab decides the
      call. With exactly one, the cab is expanded and its derived path
      parsed: a missing or malformed file raises, a component without
      `path` raises, and otherwise the rewritten tree is written and the
      path returned. With several, the call returns `""` after one
      prompt. Without any, the call is still waiting. */
  lemma RunResult(cwd: string, snaps: seq<DemoScript.Listing>, docs: DemoScript.Documents, k: nat)
    requires k <= |snaps| && NoCabs(snaps, 0, k)
    requires k < |snaps| ==> CabCount(snaps[k]) > 0
    ensures var r := Run(cwd, snaps, docs);
      var files := if k < |snaps| then DemoScript.CabNames(snaps[k].names) else [];
      var cab := if |files| == 1 then Join(cwd, files[0]) else "";
      var x := XmlPath(cab);
      (k == |snaps| ==> r.status == Waiting && r.xml == "" && r.steps == Prompts(k)) &&
      (|files| == 1 && x !in docs ==>
        r.status == ParseFailed(x) && r.steps == Prompts(k) + [DemoScript.Expand(cab)]) &&
      (|files| == 1 && x in docs && ComponentsHavePaths(docs[x]) ==>
        r.status == Returned && r.xml == x &&
        r.steps == Prompts(k) + [DemoScript.Expand(cab), DemoScript.WriteTree(x, DemoScript.RewriteTree(docs[x]))]) &&
      (|files| == 1 && x in docs && !ComponentsHavePaths(docs[x]) ==> r.status.Raised?) &&
      (|files| > 1 ==>
        r.status == Returned && r.xml == "" && r.steps == Prompts(k) + [DemoScript.Prompt(DemoScript.OneMsg)])
  {
    FirstCabIs(snaps, k);
    if k < |snaps| {
      var files := DemoScript.CabNames(snaps[k].names);
      if |files| == 1 {
        var x := XmlPath(Join(cwd, files[0]));
        if x in docs {
          RewriteAgreesWithFirstDraft(docs[x]);
        }
      }
    }
  }

  /** The two drafts agree on a first listing with exactly one cab: both
      derive the same path, both raise when it does not parse, and both
      write the same tree when every component has a path. */
  lemma SingleCabAgrees(cwd: string, snaps: seq<DemoScript.Listing>, docs: DemoScript.Documents)
    requires |snaps| > 0 && |DemoScript.CabNames(snaps[0].names)| == 1
    ensures var r := Run(cwd, snaps, docs);
      var first := DemoScript.Run(cwd, snaps, 0, docs);
      r.xml == first.xml &&
      (r.xml !in docs ==>
        r.status == ParseFailed(r.xml) && first.status == DemoScript.ParseFailed(r.xml) && r.steps == first.steps) &&
      (r.xml in docs && ComponentsHavePaths(docs[r.xml]) ==>
        r.status == Returned && first.status == DemoScript.Returned && r.steps == first.steps)
  {
    DemoScript.SingleCabFirst(cwd, snaps, docs);
    var x := XmlPath(Join(cwd, DemoScript.CabNames(snaps[0].names)[0]));
    if x in docs {
      RewriteAgreesWithFirstDraft(docs[x]);
    }
  }

  // ---------------------------------------------------------------------
  // handle_reg: the record

  const RecordPrefix := "{\"CatalogHashValues\": [{\"Key\": \""
  const RecordSuffix := "\"}]}"

  /** `json.dumps({'CatalogHashValues': [{'Key': key, 'Value': value}]})`:
      an array under the key, as in the Rust template, but with both
      strings escaped and `json.dumps`'s spacing. */
  function Record(key: string, value: string): (r: string)
    ensures ParseTemplate(r, RecordPrefix, DemoScript.RecordMiddle, RecordSuffix) == Some((key, value))
  {
    TemplateRoundTrip(RecordPrefix, DemoScript.RecordMiddle, RecordSuffix, key, value);
    RecordPrefix + Escape(key) + DemoScript.RecordMiddle + Escape(value) + RecordSuffix
  }

  /** The record reads back as JSON to the catalog path and the full
      base64 text of the digest, whatever the path holds. */
  lemma RecordRoundTrip(catalog: string, digest: Digest)
    ensures ParseTemplate(Record(catalog, DemoScript.HashValue(Encode(digest))), RecordPrefix, DemoScript.RecordMiddle, RecordSuffix)
      == Some((catalog, Encode(digest)))
  {
    DemoScript.RecordRoundTrip(catalog, digest);
    TemplateRoundTrip(RecordPrefix, DemoScript.RecordMiddle, RecordSuffix, catalog, Encode(digest));
  }

  /** What lies between a prefix and a suffix of five concatenated parts. */
  lemma Between(p: string, a: string, b: string, c: string, q: string)
    ensures var w := p + a + b + c + q;
      |w| >= |p| + |q| && w[|p|..|w| - |q|] == a + b + c
  {
    var w := p + a + b + c + q;
    assert w == p + (a + b + c) + q;
  }

  /** The two Python records differ only in how the pair is wrapped. */
  lemma RecordsDifferInWrapping(key: string, value: string)
    ensures Record(key, value)[|RecordPrefix|..|Record(key, value)| - |RecordSuffix|] ==
      DemoScript.Record(key, value)[|DemoScript.RecordPrefix|..|DemoScript.Record(key, value)| - |DemoScript.RecordSuffix|]
    ensures RecordPrefix != DemoScript.RecordPrefix
  {
    Between(RecordPrefix, Escape(key), DemoScript.RecordMiddle, Escape(value), RecordSuffix);
    Between(DemoScript.RecordPrefix, Escape(key), DemoScript.RecordMiddle, Escape(value), DemoScript.RecordSuffix);
    assert RecordPrefix[21] != DemoScript.RecordPrefix[21];
  }
}
