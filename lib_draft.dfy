/** The earlier Rust draft of the tool (lib/src/lib.rs): catalog discovery
    by file name, its `.cab` → `.xml` rule, the byte view of registry
    strings and its digest record. */
module LibDraft {

  import opened Wrappers
  import opened Text
  import opened Bytes
  import opened Base64
  import opened WinPath
  import Utf8
  import opened CatalogDiscovery

  // ---------------------------------------------------------------------
  // get_catalog_path

  /** The two slots filled from one file name: the name itself if it holds
      `.cab` anywhere (else empty), and the name itself if its lower-case
      form holds both `invcolpc` and `.exe` (else empty). */
  function Slots(name: string): (r: seq<string>)
    ensures |r| == 2
    ensures r[0] == name <==> (name == "" || Contains(name, ".cab"))
    ensures r[1] == name <==> (name == "" || (Contains(Lower(name), "invcolpc") && Contains(Lower(name), ".exe")))
    ensures r[0] == "" || r[0] == name
    ensures r[1] == "" || r[1] == name
  {
    [ if Contains(name, ".cab") then name else "",
      if Contains(Lower(name), "invcolpc") && Contains(Lower(name), ".exe") then name else "" ]
  }

  /** Looks at the walk only up to its first file: `None` when there is
      none, otherwise the two slots for that file's name. */
  method GetCatalogPath(walk: seq<WalkItem>) returns (r: Option<seq<string>>)
    ensures r.None? <==> forall i :: 0 <= i < |walk| ==> !IsFile(walk[i])
    ensures r.Some? ==>
      exists k :: 0 <= k < |walk| && IsFile(walk[k]) && (forall i :: 0 <= i < k ==> !IsFile(walk[i])) &&
        r.value == Slots(FileName(walk[k].path))
  {
    var i := 0;
    while i < |walk|
      invariant i <= |walk|
      invariant forall j :: 0 <= j < i ==> !IsFile(walk[j])
    {
      var entry := walk[i];
      if entry.Entry? && !entry.isDir {
        var fName := FileName(entry.path);
        var cabIc: seq<string> := [];
        if Contains(fName, ".cab") {
          cabIc := cabIc + [fName];
        } else {
          cabIc := cabIc + [""];
        }
        if Contains(Lower(fName), "invcolpc") && Contains(Lower(fName), ".exe") {
          cabIc := cabIc + [fName];
        } else {
          cabIc := cabIc + [""];
        }
        return Some(cabIc);
      }
      i := i + 1;
    }
    return None;
  }

  /** One name can fill both slots. */
  lemma BothSlotsFilled()
    ensures Slots("invcolpc.cab.exe") == ["invcolpc.cab.exe", "invcolpc.cab.exe"]
  {
    var name := "invcolpc.cab.exe";
    assert Lower(name) == name;
    assert name[8..12] == ".cab";
    OccursThenContains(name, ".cab", 8);
    assert name[0..8] == "invcolpc";
    OccursThenContains(name, "invcolpc", 0);
    assert name[12..16] == ".exe";
    OccursThenContains(name, ".exe", 12);
  }

  // ---------------------------------------------------------------------
  // cab_to_xml (the path rule)

  function RenamePiece(piece: string): string {
    if Contains(piece, "cab") then ".xml" else piece
  }

  function RenamePieces(ps: seq<string>): (r: seq<string>)
    ensures |r| == |ps|
    ensures forall i :: 0 <= i < |ps| ==> r[i] == RenamePiece(ps[i])
    decreases |ps|
  {
    if |ps| == 0 then [] else [RenamePiece(ps[0])] + RenamePieces(ps[1..])
  }

  /** Split at every `.`, every piece holding `cab` replaced by `.xml`,
      the pieces joined with nothing between them. */
  function XmlPath(cabPath: string): (r: string)
    ensures Count(r, '.') == CabPieceCount(Split(cabPath, '.'))
  {
    SplitJoin(cabPath, '.');
    DotsOfRenamed(Split(cabPath, '.'));
    Concat(RenamePieces(Split(cabPath, '.')))
  }

  /** How many pieces hold `cab`. */
  function CabPieceCount(ps: seq<string>): nat
    decreases |ps|
  {
    if |ps| == 0 then 0 else (if Contains(ps[0], "cab") then 1 else 0) + CabPieceCount(ps[1..])
  }

  lemma {:induction false} DotsOfRenamed(ps: seq<string>)
    requires forall i :: 0 <= i < |ps| ==> '.' !in ps[i]
    ensures Count(Concat(RenamePieces(ps)), '.') == CabPieceCount(ps)
    decreases |ps|
  {
    if |ps| > 0 {
      DotsOfRenamed(ps[1..]);
      var r := RenamePieces(ps);
      assert r[1..] == RenamePieces(ps[1..]);
      CountAppend(r[0], Concat(r[1..]), '.');
      if Contains(ps[0], "cab") {
        assert Count(".xml", '.') == 1 by {
          assert ".xml"[1..] == "xml" && "xml"[1..] == "ml" && "ml"[1..] == "l" && "l"[1..] == "";
        }
      } else {
        CountAbsent(ps[0], '.');
      }
    }
  }

  /** The rule renames piece by piece: there is one piece more than the
      input has dots. */
  lemma XmlPathDots(cabPath: string)
    ensures |RenamePieces(Split(cabPath, '.'))| == Count(cabPath, '.') + 1
  {
    SplitJoin(cabPath, '.');
  }

  /** On a plain name the rule gives the expected `a.xml`. */
  lemma XmlPathPlainName()
    ensures XmlPath("a.cab") == "a.xml"
  {
    SplitTwo("a", "cab", '.');
    assert "a" + "." + "cab" == "a.cab";
    OccursThenContains("cab", "cab", 0);
    assert !Contains("a", "cab");
    assert RenamePieces(["a", "cab"]) == ["a", ".xml"];
    assert Concat(["a", ".xml"]) == "a.xml";
  }

  /** A directory whose name holds `cab` is swallowed with the rest of its
      piece: `C:\cab\a.cab` gives `.xml.xml`. */
  lemma XmlPathCabDirectory()
    ensures XmlPath("C:\\cab\\a.cab") == ".xml.xml"
  {
    var dir := "C:\\cab\\a";
    SplitTwo(dir, "cab", '.');
    assert dir + "." + "cab" == "C:\\cab\\a.cab";
    assert dir[3..6] == "cab";
    OccursThenContains(dir, "cab", 3);
    OccursThenContains("cab", "cab", 0);
    assert RenamePieces([dir, "cab"]) == [".xml", ".xml"];
    assert Concat([".xml", ".xml"]) == ".xml.xml";
  }

  // ---------------------------------------------------------------------
  // to_option_u8

  /** The bytes handed to the registry: none for the empty string,
      otherwise the UTF-8 bytes of the string. */
  function ToOptionU8(s: string): (r: Option<seq<byte>>)
    ensures r.None? <==> s == ""
    ensures r.Some? ==> |r.value| > 0 && Utf8.Decode(r.value) == Some(s)
  {
    Utf8.EncodeLength(s);
    Utf8.EncodeRoundTrip(s);
    if |s| == 0 then None else Some(Utf8.Encode(s))
  }

  // ---------------------------------------------------------------------
  // get_hash_sha384

  /** `{"Key":<path>,"Value":<b64>\}` with one trailing `=` removed, or
      nothing when the base64 text has no trailing `=`. */
  function HashRecordFor(xmlPath: string, b64: string): (r: Option<string>)
    ensures r.Some? <==> EndsWith(b64, "=")
  {
    match StripSuffix(b64, "=")
    case Some(base64Str) => Some("{\"Key\":" + xmlPath + ",\"Value\":" + base64Str + "\\}")
    case None => None
  }

  /** The record for the file at `xmlPath` with digest `digest`;
      `openError` is the message when the file cannot be opened. */
  function GetHashSha384(xmlPath: string, openError: Option<string>, digest: Digest): (r: Result<Option<string>, string>)
    ensures r.Failure? <==> openError.Some?
    ensures r.Failure? ==> r.error == openError.value
    ensures r.Success? ==> (r.value.Some? <==> EndsWith(Encode(digest), "="))
  {
    if openError.Some? then Failure(openError.value)
    else Success(HashRecordFor(xmlPath, Encode(digest)))
  }

  /** A record is produced only for base64 text that ends in `=`, and it
      carries that text less the `=`. */
  lemma HashRecordValue(xmlPath: string, b64: string)
    requires EndsWith(b64, "=")
    ensures HashRecordFor(xmlPath, b64) ==
      Some("{\"Key\":" + xmlPath + ",\"Value\":" + b64[..|b64| - 1] + "\\}")
  {
  }

  /** A 48-byte digest encodes without padding, so no record is ever
      produced: the result is `Ok(None)` for every file that opens. */
  lemma HashAlwaysNone(xmlPath: string, digest: Digest)
    ensures GetHashSha384(xmlPath, None, digest) == Success(None)
  {
    DigestHasNoPadding(digest);
  }
}
