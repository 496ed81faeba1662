# catalog-rs in Dafny

catalog-rs is a Windows tool for Dell updates, written as several drafts in Rust and Python. It finds a
catalog `.cab` and an inventory-collector installer (`InvColPC.exe`). It expands the cab to an XML
manifest and rewrites two attributes of it. It hashes the result (SHA3-384 or SHA-384) and writes a JSON
record holding the hash into the registry for Dell Update or Dell Command Update. The repository also
holds a spreadsheet helper. It matches a model name against header cells with a longest common
substring.

This project models the decision, sequence and string logic of the five core files:

- `catalog-lib/src/lib.rs`, the library:
  - catalog and installer discovery over a directory walk, and the outcome it maps the counts to;
  - the `.cab` → `.xml` path rule;
  - the one-pass rewrite of the manifest's XML events, and the output file name;
  - the digest record.
- `lib/src/lib.rs`, an earlier draft: its discovery, its path rule, `to_option_u8` and its digest record.
- `demo_122847.py` and `src/demo_122847.py`, two Python drafts:
  - the cab selection loop, with its prompts and retries;
  - the path rule and the ElementTree rewrite;
  - the `json.dumps` record;
  - `group_files_by_suffix`.
- `handle_excel.py`: the dynamic-programming longest common substring, and the header scan of
  `find_project_name`.

Everything the tool gets from the outside world becomes an input:

- the walk, the directory listings and the installers found;
- the XML reader's events and the parsed tree;
- the 48-byte digest;
- whether a command or a file operation failed.

Base64 (section 4 of RFC 4648) is modelled far enough to show that a 48-byte digest encodes to 64
characters without padding. JSON string escaping as Python's `json.dumps` does it is modelled for every
Unicode scalar value. Its decoder (section 7 of RFC 8259) is modelled for the strings that decode to
such values. Together they decide which records read back.

Modules:

- `Wrappers`: `Option` and `Result`.
- `Bytes`: the `byte` type.
- `Text`: the Rust and Python string operations the drafts use.
- `WinPath`: the file name of a Windows path.
- `PyPath`: `ntpath.join`, `splitext` and the Python path rule.
- `Base64`, `JsonString`, `Utf8`.
- `ElementTree`: an element with a tag, an attribute list and children.
- `CatalogDiscovery`, `CatalogManifest`, `CatalogDigest`: `catalog-lib/src/lib.rs`, with the error type of
  `catalog-lib/src/error.rs`.
- `LibDraft`: `lib/src/lib.rs`.
- `DemoScript`: `demo_122847.py`.
- `DemoScriptSrc`: `src/demo_122847.py`.
- `ExcelHelper`: `handle_excel.py`.

The code and the commented tests in `handle_excel.py` disagree. The tests expect `'CD'` for
`('ABCD', 'ACDF')` and `'A'` for `('A', 'AA')`. The code lower-cases both inputs first, so it returns
`'cd'` and `'a'`. The model follows the code (`ExcelHelper.LcsLowerCase`, `ExcelHelper.LcsTie`).

## Model

| member | source | states |
|---|---|---|
| Text.Lower | handle_excel.py:14-15 | `str.lower()` on ASCII: same length, each letter A–Z mapped to a–z, everything else kept |
| Text.LowerIdempotent | handle_excel.py:14-15 | a lower-cased string has no upper-case letter, and lower-casing it again changes nothing |
| Text.ContainsOccurs | lib/src/lib.rs:28 | `contains` holds exactly when the pattern occurs at some index |
| Text.SplitJoin | demo_122847.py:121 | `split(c)` gives pieces free of `c` that, joined with `c`, give back the input; there is one more piece than there are `c` |
| Text.LastPieceIdempotent | demo_122847.py:135 | `split('/')[-1]` holds no `/`, so taking it again changes nothing |
| Text.TrimEndMatchesRemovesAll | catalog-lib/src/lib.rs:137 | `trim_end_matches(p)` leaves a string not ending in `p`, and the input is that string plus some number of copies of `p` |
| Text.TrimmedCopies | catalog-lib/src/lib.rs:137 | `trim_end_matches(p)` removes a counted number of whole copies of `p` and leaves none at the end |
| Text.StripSuffix | catalog-lib/src/lib.rs:323 | `strip_suffix(p)` succeeds exactly when the string ends in `p`, and the result plus `p` is the input |
| Text.StripShape | demo_122847.py:156 | `strip('=')` removes every leading and trailing `=`: the input is some `=`s, the result, some `=`s; the result neither starts nor ends with `=`; it is the input when there is no `=` |
| Text.DecimalRoundTrip | handle_excel.py:72 | the decimal text of the label number reads back as that number |
| WinPath.NameStart | catalog-lib/src/lib.rs:146-147 | the file name starts after the last `\` or `/`: no separator in it, a separator (or nothing) just before it |
| WinPath.SameNameStart | catalog-lib/src/lib.rs:146-151 | appending a separator-free name to a directory makes it the file name |
| Base64.EncodeLength | catalog-lib/src/lib.rs:322 | standard base64 of `n` bytes is `4·⌈n/3⌉` characters |
| Base64.EncodeRoundTrip | catalog-lib/src/lib.rs:322 | decoding the encoding gives back the bytes |
| Base64.PaddingIff | catalog-lib/src/lib.rs:322-323 | the encoding holds `=` exactly when the byte count is not a multiple of 3 |
| Base64.PaddingAtEnd | catalog-lib/src/lib.rs:323 | for non-empty input the last character is `=` exactly when the byte count is not a multiple of 3 |
| Base64.DigestHasNoPadding | catalog-lib/src/lib.rs:321-323 | a 48-byte digest encodes to 64 characters with no `=`, so `strip_suffix("=")` fails and `strip('=')` changes nothing |
| Base64.EncodeChars | catalog-lib/src/lib.rs:322 | every character of an encoding is from the alphabet or `=`, printable ASCII, never `"` or `\` |
| JsonString.EscapeRoundTrip | demo_122847.py:160 | the JSON decoder reads back every string `json.dumps` escapes |
| JsonString.EscapeIsAscii | demo_122847.py:160 | with `ensure_ascii` the escaped text is printable ASCII |
| JsonString.EscapePlain | demo_122847.py:160 | a string of printable ASCII other than `"` and `\` is written unchanged |
| JsonString.Hex4RoundTrip | demo_122847.py:160 | the four hex digits of a `\u` escape read back as its code unit |
| JsonString.TemplateRoundTrip | demo_122847.py:151-160 | a record `prefix "key" middle "value" suffix` with escaped strings reads back as exactly that key and value |
| JsonString.UndecodableFirstString | catalog-lib/src/lib.rs:324-328 | a record whose first string ends at its first bare `"` but does not decode is not read back |
| Utf8.EncodeRoundTrip | lib/src/lib.rs:110 | `as_bytes` is the UTF-8 encoding, which decodes back to the string |
| Utf8.EncodeLength | lib/src/lib.rs:110 | the encoding is at least as long as the string, and for ASCII it is the character codes one byte each |
| CatalogDiscovery.CabCandidatesAppend | catalog-lib/src/lib.rs:94-105 | the catalog candidates of two walks in turn are those of the first then those of the second, so the list keeps walk order |
| CatalogDiscovery.CabCandidates | catalog-lib/src/lib.rs:94-101 | the catalog candidates all end in `.cab`, and there are at most as many as walk items |
| CatalogDiscovery.InstallerCandidates | catalog-lib/src/lib.rs:94-103 | the installer candidates all pass the installer test (no `.cab`, ending in `.exe`, `invc` in the lower-cased path), at most one per walk item |
| CatalogDiscovery.InstallerCandidatesAppend | catalog-lib/src/lib.rs:94-105 | the same for the installer candidates |
| CatalogDiscovery.CabMembership | catalog-lib/src/lib.rs:94-101 | a path is a catalog candidate iff a file of the walk has it and it ends in `.cab` |
| CatalogDiscovery.InstallerMembership | catalog-lib/src/lib.rs:94-103 | a path is an installer candidate iff a file of the walk has it, it is no catalog, it ends in `.exe` and its lower-cased full path holds `invc` |
| CatalogDiscovery.CandidatesDisjoint | catalog-lib/src/lib.rs:100-104 | no path is both a catalog and an installer candidate; a walk without files has no candidates |
| CatalogDiscovery.Outcome | catalog-lib/src/lib.rs:106-121 | success iff at most one of each and at least one in all; `NoFilesFound` iff none; `MultipleFilesFound` iff either list is longer than one; never `Unexpected`; a success carries the single paths or the two placeholder messages |
| CatalogDiscovery.GetCatalogAndIcPaths | catalog-lib/src/lib.rs:90-122 | the loop collects exactly the candidate lists of the walk and returns their outcome |
| CatalogDiscovery.OutcomeTellsWhatWasFound | catalog-lib/src/lib.rs:106-115 | in a success, the catalog path ends in `.cab` iff one catalog was found, and the installer path ends in `.exe` iff one installer was found |
| CatalogDiscovery.XmlPathFor | catalog-lib/src/lib.rs:137 | the derived path always ends in `.xml` |
| CatalogDiscovery.CabToXml | catalog-lib/src/lib.rs:124-139 | a command that cannot start gives an I/O error; a failing one gives `ParseError("cmd command failed")`; success exactly when it exits successfully, and then the result is the xml path derived from the catalog path (`XmlPathFor`) |
| CatalogDiscovery.XmlPathShape | catalog-lib/src/lib.rs:137 | the part before `.xml` no longer ends in `.cab`, and that part plus some copies of `.cab` is the input |
| CatalogDiscovery.XmlPathOfNonCab | catalog-lib/src/lib.rs:137 | a path not ending in `.cab` just gains `.xml` |
| CatalogDiscovery.XmlPathSingleExtension | catalog-lib/src/lib.rs:137 | a path with one `.cab` extension has it replaced by `.xml`, whatever dots the rest holds |
| CatalogDiscovery.XmlPathDoubledExtension | catalog-lib/src/lib.rs:137 | `a.cab.cab` gives `a.xml` |
| CatalogManifest.RebuildAttributes | catalog-lib/src/lib.rs:172-207 | the attribute loop builds exactly the rewritten attribute list |
| CatalogManifest.RewriteEvent | catalog-lib/src/lib.rs:172-251 | an event keeps its kind; a start element keeps its name, namespace, attribute count and attribute names; any event other than a `Manifest` or `SoftwareComponent` start is written as read |
| CatalogManifest.OutputPath | catalog-lib/src/lib.rs:146-151 | the output path is one character longer than the input: one `_` is added |
| CatalogManifest.OutputBesideInput | catalog-lib/src/lib.rs:146-151 | the output lies in the input's directory, and its file name is the input's with a leading `_` |
| CatalogManifest.XmlPathNamesAFile | catalog-lib/src/lib.rs:137-147 | every path the `.cab` rule produces has a parent and a file name, so the two `unwrap`s cannot fail |
| CatalogManifest.HandleXml | catalog-lib/src/lib.rs:141-259 | open and create failures give an I/O error and write nothing; otherwise the output path is returned, the events with a writer form are written rewritten and in order, and each read error is logged once |
| CatalogManifest.ManifestRewrite | catalog-lib/src/lib.rs:174-193 | a `Manifest` start keeps its name, namespace, attribute count, order and names; each `baseLocation` becomes empty; other values are kept; none is added |
| CatalogManifest.ComponentRewrite | catalog-lib/src/lib.rs:194-217 | a `SoftwareComponent` start keeps everything but each `path`, which becomes its third `/` piece or empty |
| CatalogManifest.OtherEventsUnchanged | catalog-lib/src/lib.rs:218-251 | every other event is written as read |
| CatalogManifest.PassThrough | catalog-lib/src/lib.rs:162-257 | a stream without those two start elements is copied unchanged |
| CatalogManifest.SameShape | catalog-lib/src/lib.rs:162-257 | read and written events line up one to one with the same kind, name, namespace and attribute names |
| CatalogManifest.EventsAppend | catalog-lib/src/lib.rs:162-257 | the output and log of two streams in turn are those of each, in order |
| CatalogManifest.ReadErrorSkipped | catalog-lib/src/lib.rs:255 | a read error adds one log line and changes nothing written |
| CatalogManifest.ManifestIdempotent | catalog-lib/src/lib.rs:174-183 | rewriting a `Manifest` start twice equals once |
| CatalogManifest.ComponentNotIdempotent | catalog-lib/src/lib.rs:199-203 | the `path` rule is not idempotent: `a/b/c` gives `c`, and `c` gives empty |
| CatalogDigest.HashValue | catalog-lib/src/lib.rs:323-333 | at most one trailing `=` is removed, and only when there is one |
| CatalogDigest.GetHashSha384 | catalog-lib/src/lib.rs:316-336 | a failed open is returned as the error with its message, and nothing else fails; a success is the template with the path as key: it starts with the prefix, the path and the middle, and ends with the suffix |
| CatalogDigest.DigestRecord | catalog-lib/src/lib.rs:316-336 | for an opened file the record carries the digest's full 64-character encoding; the strip never fires |
| CatalogDigest.Base64IsPlain | catalog-lib/src/lib.rs:322 | a base64 value needs no JSON escaping |
| CatalogDigest.PlainPathRecordReadsBack | catalog-lib/src/lib.rs:324-328 | with a path of plain printable ASCII the record reads back as JSON with that path and value |
| CatalogDigest.VerbatimKeyBreaksJson | catalog-lib/src/lib.rs:324-328 | with the unescaped key `C:\a.xml` the record is not JSON, whatever the value |
| CatalogDigest.EscapedRecordRoundTrip | catalog-lib/src/lib.rs:324-328 | with the key escaped, every path's record reads back with exactly that path and digest |
| CatalogDigest.EscapingChangesOnlyUnplainPaths | catalog-lib/src/lib.rs:324-333 | for plain paths the escaped record is the record already written |
| LibDraft.GetCatalogPath | lib/src/lib.rs:20-41 | `None` iff the walk has no file; otherwise exactly the two slots for the first file's name |
| LibDraft.Slots | lib/src/lib.rs:27-37 | two slots, each the name or empty; the first holds the name iff it holds `.cab`, the second iff its lower-case form holds `invcolpc` and `.exe` |
| LibDraft.BothSlotsFilled | lib/src/lib.rs:27-37 | one name can fill both slots |
| LibDraft.RenamePieces | lib/src/lib.rs:51-53 | the piece count is kept, and each piece holding `cab` becomes `.xml` |
| LibDraft.XmlPath | lib/src/lib.rs:51-55 | the result has one dot for each dot-separated piece that held `cab` and no other: every original dot is dropped |
| LibDraft.DotsOfRenamed | lib/src/lib.rs:51-55 | joining renamed dot-free pieces leaves one dot per piece that held `cab` |
| LibDraft.XmlPathDots | lib/src/lib.rs:51-55 | the rule renames piece by piece, and there are as many pieces as dots plus one |
| LibDraft.XmlPathPlainName | lib/src/lib.rs:51-55 | `a.cab` gives `a.xml` |
| LibDraft.XmlPathCabDirectory | lib/src/lib.rs:51-55 | `C:\cab\a.cab` gives `.xml.xml` |
| LibDraft.ToOptionU8 | lib/src/lib.rs:105-113 | `None` iff the string is empty; otherwise non-empty bytes that decode as UTF-8 to the string |
| LibDraft.GetHashSha384 | lib/src/lib.rs:142-155 | a failed open is returned as the error with its message, and nothing else fails; a success holds a record exactly when the base64 text of the digest ends in `=` |
| LibDraft.HashRecordFor | lib/src/lib.rs:148-155 | a record is produced iff the base64 text ends in `=` |
| LibDraft.HashRecordValue | lib/src/lib.rs:148-152 | that record is `{"Key":<path>,"Value":<b64 less one =>\}` |
| LibDraft.HashAlwaysNone | lib/src/lib.rs:142-155 | for every file that opens the result is `Ok(None)` |
| PyPath.JoinName | demo_122847.py:97 | the contract of `PyPath.Join`: joining a folder and a bare name starts with the folder and ends with the name, which is the file name of the result |
| PyPath.SuffixShape | demo_122847.py:99 | an extension is empty or one dot then dot- and separator-free text ending the path |
| PyPath.Suffix | demo_122847.py:99 | an extension is empty, or starts with a dot and ends the path |
| PyPath.LastIndexAt | demo_122847.py:99 | the last dot is the one with no dot after it |
| PyPath.SuffixOfCatalog | demo_122847.py:99 | `catalog.cab` has extension `.cab` |
| PyPath.SuffixOfDotName | demo_122847.py:99 | `.cab` has no extension |
| PyPath.XmlPathDots | demo_122847.py:121-123 | the contract of `PyPath.XmlPath`: the result ends in `.xml` and that is its only dot |
| PyPath.XmlPathOneDot | demo_122847.py:121-123 | with a single dot the extension becomes `.xml` |
| PyPath.XmlPathDropsDots | demo_122847.py:121-123 | `a.b.ext` becomes `ab.xml` |
| ElementTree.Get | demo_122847.py:131 | `get` finds a value iff the key is present, and the value found belongs to that key |
| ElementTree.GetSet | demo_122847.py:127 | after `set`, the key reads the new value and other keys are unchanged |
| ElementTree.SetKeys | demo_122847.py:127 | `set` keeps the key order and appends a new key at the end; keys stay unique |
| ElementTree.SetSame | demo_122847.py:136 | setting a key to its own value changes nothing |
| ElementTree.SetSet | demo_122847.py:136 | the second of two `set`s on a key wins |
| DemoScript.GroupFilesBySuffix | demo_122847.py:94-101 | the loop builds exactly the grouping function of the listing |
| DemoScript.Groups | demo_122847.py:94-101 | no group is empty: a key exists only with a file appended under it |
| DemoScript.GroupsAreFilters | demo_122847.py:94-101 | a suffix is a key iff some file has it, and its group is the joined paths of exactly those files in listing order |
| DemoScript.FileInItsGroup | demo_122847.py:96-100 | every file lands in the group of its own extension |
| DemoScript.NoFilesNoGroups | demo_122847.py:98 | a listing without files gives no groups |
| DemoScript.RewriteComponents | demo_122847.py:129-136 | the rewrite keeps each element's tag and number of children |
| DemoScript.RewriteTree | demo_122847.py:126-136 | the root keeps its tag and number of children and reads `baseLocation=""` afterwards |
| DemoScript.RewriteNodeEffect | demo_122847.py:130-136 | a component's `path` becomes its last `/` piece; other keys, other elements and components without `path` are unchanged; keys are kept |
| DemoScript.RootBaseLocation | demo_122847.py:126-127 | the root's attributes other than `baseLocation` and `path` read as before |
| DemoScript.RewriteFlattensPaths | demo_122847.py:135 | afterwards no component's `path` holds `/` |
| DemoScript.RewriteKeepsShape | demo_122847.py:129-136 | the tree keeps its shape, tags and attribute keys |
| DemoScript.RewriteComponentsIdempotent | demo_122847.py:129-136 | rewriting the components twice equals once |
| DemoScript.RewriteTreeIdempotent | demo_122847.py:126-136 | the whole tree rewrite is idempotent |
| DemoScript.CabNames | demo_122847.py:111 | the selected names are exactly the listed names that end in `.cab` |
| DemoScript.Loop | demo_122847.py:110-144 | the loop only moves forward through listings; when it ends, raising or returning, it has seen a listing with exactly one `.cab` |
| DemoScript.LoopParseFailed | demo_122847.py:118-125 | the call raises only at `ET.parse`, on a derived `.xml` path that holds no well-formed document |
| DemoScript.HandleCab | demo_122847.py:104-145 | the method with its nested calls computes exactly the modelled run, including the exception `ET.parse` raises |
| DemoScript.ScanInstallers | demo_122847.py:112-116 | the installer loop leaves the last installer found, or the earlier path when there is none |
| DemoScript.LoopSingle | demo_122847.py:118-138 | a listing with one `.cab` ends the loop: the cab is expanded; a derived path that does not parse raises; otherwise the rewritten tree is written there and the path returned |
| DemoScript.LoopOther | demo_122847.py:139-144 | a listing with no cab or several prompts and calls `handle_cab` afresh; the loop ends after several cabs and goes on after none |
| DemoScript.SingleCabFirst | demo_122847.py:118-138 | one `.cab` first: expand, parse the derived path (raising when it does not parse), rewrite and write there, and return it with the last installer seen |
| DemoScript.DottedDirectoryRaises | demo_122847.py:121-125 | a catalog `a.cab` in `C:\v1.2` makes the script parse `C:\v12\a.xml`, and when nothing sits there it raises |
| DemoScript.SeveralCabsFirst | demo_122847.py:142-144 | several `.cab`: one prompt, the nested call, then return `""` |
| DemoScript.NoCabFirst | demo_122847.py:139-141 | no `.cab`: one prompt, the nested call, and the outer loop goes on after it |
| DemoScript.SingleCabWrites | demo_122847.py:118-138 | the steps of a single-cab pass write only the rewritten document parsed at the path derived from the cab just expanded |
| DemoScript.LoopWritesFollowExpands | demo_122847.py:118-138 | every tree written is the rewritten document parsed at the derived path, written just after expanding its cab |
| DemoScript.LoopXml | demo_122847.py:108-123 | the returned xml path is empty or ends in `.xml` |
| DemoScript.HashValueShape | demo_122847.py:156 | the value has no leading or trailing `=`, and the base64 text is that value between runs of `=` |
| DemoScript.Record | demo_122847.py:151-160 | the record `[{"CatalogHashValues": {"Key": …, "Value": …}}]` reads back as JSON to exactly the key and value it was built from |
| DemoScript.RecordRoundTrip | demo_122847.py:151-160 | the `[{"CatalogHashValues": {...}}]` record reads back with the catalog path and the full encoding |
| DemoScript.StripRemovesAllPadding | demo_122847.py:156 | `AA==` gives `AA`: both `=` go |
| DemoScriptSrc.StrictRewrite | src/demo_122847.py:105-109 | the rewrite fails iff some component lacks `path`; otherwise it is the first draft's rewrite |
| DemoScriptSrc.StrictChildren | src/demo_122847.py:106-109 | the children are rewritten one by one, failing at a component without `path` |
| DemoScriptSrc.RewriteTree | src/demo_122847.py:102-109 | the rewrite succeeds iff every component has `path`, and then gives the first draft's tree |
| DemoScriptSrc.RewriteAgreesWithFirstDraft | src/demo_122847.py:102-109 | with every path present the two drafts rewrite alike; otherwise it raises; a successful rewrite is a fixed point |
| DemoScriptSrc.KeepsPaths | src/demo_122847.py:107-109 | rewriting keeps every component's `path` present |
| DemoScriptSrc.SingleCabOutcome | src/demo_122847.py:95-111 | a single-cab pass expands the cab first and holds the derived path; it raises at `ET.parse` iff nothing parses there, raises in the loop iff a component lacks `path`, and returns otherwise |
| DemoScriptSrc.HandleCab | src/demo_122847.py:88-118 | the loop computes exactly `Run`: one prompt per listing without a cab, then the first listing with a cab decides the call |
| DemoScriptSrc.Prompts | src/demo_122847.py:112-115 | `n` empty passes give `n` prompts, each asking to place the catalog |
| DemoScriptSrc.FirstCab | src/demo_122847.py:92-94 | the listing that ends the loop is the first with a `.cab`: none before it has one |
| DemoScriptSrc.RunResult | src/demo_122847.py:92-117 | after `k` empty listings with one prompt each, one `.cab` returns the derived path having expanded and written the tree, or raises when the path does not parse or a component lacks `path`; several return `""` after one prompt; with no cab at all the call still waits |
| DemoScriptSrc.RunFailures | src/demo_122847.py:102-108 | the call raises only on a path where no document parses, or on a parsed document with a component without `path` |
| DemoScriptSrc.WaitingIffNoCab | src/demo_122847.py:92-115 | the script is still waiting iff no listing it saw holds a `.cab` |
| DemoScriptSrc.SingleCabAgrees | src/demo_122847.py:95-111 | with one `.cab` first both drafts derive the same path; both raise with the same steps when it does not parse, and both return with the same steps when every component has `path` |
| DemoScriptSrc.Record | src/demo_122847.py:121-133 | the record `{"CatalogHashValues": [{"Key": …, "Value": …}]}` reads back as JSON to exactly the key and value it was built from |
| DemoScriptSrc.RecordRoundTrip | src/demo_122847.py:121-133 | the `{"CatalogHashValues": [{...}]}` record reads back with the catalog path and the full encoding |
| DemoScriptSrc.RecordsDifferInWrapping | src/demo_122847.py:123-133 | the two drafts' records have the same key/value body and differ only in the wrapping |
| ExcelHelper.Csl | handle_excel.py:19-30 | a table entry never exceeds its row or column index |
| ExcelHelper.CslPositive | handle_excel.py:24-25 | a positive entry sits on equal characters |
| ExcelHelper.CslMatch | handle_excel.py:24-25 | entry `(i, j)` is the length of a common suffix of `a[:i]` and `b[:j]` |
| ExcelHelper.CslAtLeast | handle_excel.py:24-25 | every common suffix of `a[:i]` and `b[:j]` is no longer than entry `(i, j)` |
| ExcelHelper.MaxColsBound | handle_excel.py:26-27 | no entry of a row prefix exceeds its maximum |
| ExcelHelper.MaxColsAttained | handle_excel.py:26-27 | some entry of a row prefix equals its maximum |
| ExcelHelper.MaxRowsBound | handle_excel.py:26-27 | no entry of the rows so far exceeds their maximum |
| ExcelHelper.MaxRowsAttained | handle_excel.py:26-27 | some entry of the rows so far equals their maximum |
| ExcelHelper.FirstRow | handle_excel.py:26-28 | the first row reaching a length lies in range |
| ExcelHelper.FirstRowIsFirst | handle_excel.py:26-28 | no earlier row reaches the length, and the first row does when any does |
| ExcelHelper.LcsEnd | handle_excel.py:32-34 | the end row is at least the maximum length and within `a` |
| ExcelHelper.Lcs | handle_excel.py:32-36 | the result's length is the table's maximum |
| ExcelHelper.LongestCommonSubstring | handle_excel.py:11-38 | the nested loops over the table return exactly the specified substring of the lower-cased inputs |
| ExcelHelper.FillTable | handle_excel.py:22-30 | the outer loop leaves every entry of the table equal to its specified value, and ends with the greatest entry and the first row that holds it |
| ExcelHelper.FillRow | handle_excel.py:23-30 | one inner pass fills row `i` with its entries, leaves the rows above it as they were, and brings the running maximum and its first row up to date |
| ExcelHelper.NewMaximum | handle_excel.py:26-28 | an entry larger than all before makes its row the first to reach that length |
| ExcelHelper.LcsCommon | handle_excel.py:14-34 | the result is a substring of both lower-cased inputs |
| ExcelHelper.LcsEndColumn | handle_excel.py:26-28 | the row where the result ends holds an entry of the greatest length |
| ExcelHelper.LcsLongest | handle_excel.py:22-31 | no common substring is longer than the result |
| ExcelHelper.LcsFirst | handle_excel.py:26-28 | of the longest common substrings the result ends first in `a` (strict `>` keeps the first) |
| ExcelHelper.LcsEmptyIff | handle_excel.py:32-36 | the result is empty iff the inputs share no character |
| ExcelHelper.LcsLengthSymmetric | handle_excel.py:22-36 | swapping the inputs keeps the result's length |
| ExcelHelper.LcsLowerCase | handle_excel.py:14-15 | the result holds no upper-case letter |
| ExcelHelper.LcsTie | handle_excel.py:26-28 | `A` against `AA` gives `a` |
| ExcelHelper.ScanHeaderRow | handle_excel.py:62-74 | the scan of a header row records exactly the specified candidates |
| ExcelHelper.Candidates | handle_excel.py:62-74 | there are no more candidates than non-empty cells |
| ExcelHelper.CandidatesShape | handle_excel.py:62-74 | positions count non-empty cells from 1 and rise strictly; labels are numbered `1: `, `2: `, … in turn |
| ExcelHelper.CandidatesExact | handle_excel.py:64-74 | a non-empty cell is recorded at its position among non-empty cells iff its common substring with the model name is longer than 4 |
| ExcelHelper.CandidatesLast | handle_excel.py:64-74 | the last cell adds an entry at the next position exactly when it qualifies |
| ExcelHelper.NoPositionBeyond | handle_excel.py:64-74 | no recorded position lies beyond the count of non-empty cells |
| ExcelHelper.FilledPrefix | handle_excel.py:65-74 | the count of non-empty cells grows with the prefix |
| ExcelHelper.SheetActionFor | handle_excel.py:57-79 | `ModelName…` sheets are skipped; a sheet with no candidate gets the model-name column; otherwise the choice is among exactly the candidates |
| ExcelHelper.ZeroSelectsLast | handle_excel.py:81-82 | the answer `0` is accepted by the range guard and selects the last candidate |
| ExcelHelper.SelectedColumn | handle_excel.py:81-82 | as written: of the answers up to the number of candidates `n`, those from `1 - n` up index a candidate (Python's negative indices), the others raise `IndexError`; an indexed answer selects one of the candidates |
| ExcelHelper.SelectColumn | handle_excel.py:81-82 | answers 1 to n select the candidate of that number; nothing else selects |
| ExcelHelper.SelectionsAgreeOnValidAnswers | handle_excel.py:81-82 | the script's indexing and the intended one agree on 1 to n; from 0 down the script still selects |

## Left out

- Registry, COM, window and process calls are not modelled: `open_reg_subkey`, `set_reg_vaule`, `delete_reg_key_vaule`, `handle_reg`, `du_or_dcu`, `open_software`, `open_file_dialog`, `get_desktop_window_size`, `winreg`, `open_dcu_du`. They are foreign calls.
- `str_to_pcwstr` hands out a pointer into a vector that is dropped when it returns, so it has no behaviour to state.
- SHA3-384, .NET SHA-384 and file reading are not modelled. The digest is an input of 48 bytes, and a failed open is an input message. The error `io::copy` ignores is not modelled.
- XML text parsing and serialisation are not modelled. The xml-rs reader is the sequence of items it yields, and the parsed document is an `ElementTree.Element`.
- `ET.parse` is modelled by a map from paths to parsed documents, an input. A path outside the map holds no file or no well-formed XML, and parsing it raises; the map does not say which of the two.
- `JsonString.Unescape` rejects a `\u` escape of a lone surrogate such as `\ud800`, which section 7 of RFC 8259 lets a string hold. The escaper never writes one, so the records modelled read back all the same.
- `WinPath.NameStart`: Rust's `Path::file_name` and `Path::parent` differ from it on a path ending in a separator, on a last component `.`, and on a drive-relative path such as `C:a.xml`; `PathBuf::push` also joins with `\` where `CatalogManifest.OutputPath` keeps the input's own separator. The paths `handle_xml` gets from `cab_to_xml` come from walking an absolute directory and end in `.xml`, so none of these cases arise.
- The xml-rs reader may stop after its first error. Its iterator is foreign, so the model loops on over every item as the code is written.
- Writer errors in `handle_xml` are not modelled: they are printed and ignored, or for other events they panic. Every write is modelled as succeeding.
- Walk order and listing contents are inputs: `WalkDir`, `os.listdir`, `rglob`, and the installers found in one round.
- In the Python `handle_cab`, each round of the loop sees the next listing in the input. When the listings run out the script is still waiting.
- `expand.exe`, `input()` prompts and copying the installer are recorded as steps or are inputs. They are not run.
- The ElementTree update in place is modelled on values: the rewrite is a function returning the new tree, so aliasing between nodes is not captured.
- `DemoScript.HandleCab` records prompts as `Prompt` steps and does not model the console output. Neither do the models of the library: the `println!` lines at `catalog-lib/src/lib.rs:91`, `:202` and `:335` and the `eprintln!` lines of `handle_xml` have no effect on any result.
- `PyPath.Join` models `ntpath.join` only for a bare name as `os.listdir` returns it. It does not model UNC paths or a name with a drive.
- Python strings may hold lone surrogates, which a Dafny `char` cannot. Escaping is modelled for Unicode scalar values only.
- `Text.Lower` models `str.lower()` and `to_lowercase()` on ASCII only. Unicode case mapping is not modelled.
- The GUI in `catalog-ui/src/main.rs`, the automation in `src/test_autoui.py`, `catalog-ui/src/trait_test.rs` and `lib/src/type.rs` are not part of this model.
- Lines 56-60 of `lib/src/lib.rs` do not compile. They are not modelled, and `LibDraft` takes the path rule of lines 51-55 as the function's result.
- In `handle_excel.py`, workbook loading and saving, the column insertion and cell writes, the `get_selected_index` input loop and the module-level script are not modelled. The sheet's action and the selected column are modelled instead.
- The type check at the top of `longest_common_substring` is not modelled, because both arguments are strings by type.
- Both Python drafts model their own as-written path rule, `PyPath.XmlPath`. Each draft is modelled as written; the corrected rule is the one the library uses, `CatalogDiscovery.XmlPathFor`.

## Findings

| source | as written | input that shows it | evidently intended | confidence | as-written member | corrected member |
|---|---|---|---|---|---|---|
| catalog-lib/src/lib.rs:324-328 | the path goes into the JSON record without escaping | `C:\a.xml`: the record holds the escape `\a`, which JSON does not allow | the key escaped as a JSON string, as `json.dumps` does in the Python drafts | medium, not executed | CatalogDigest.VerbatimKeyBreaksJson | CatalogDigest.EscapedRecordRoundTrip |
| lib/src/lib.rs:148-155 | the record is built only when the base64 text ends in `=` | any file: a 48-byte digest encodes without padding, so the result is always `Ok(None)` | always build the record, removing padding when there is some | high, not executed | LibDraft.HashAlwaysNone | CatalogDigest.DigestRecord |
| demo_122847.py:121-125 | split at every `.`, replace the last piece by `.xml`, join with nothing | `C:\v1.2\a.cab` gives `C:\v12\a.xml`, a file `expand.exe` did not write, so `ET.parse` raises | replace only the `.cab` extension | medium, not executed | DemoScript.DottedDirectoryRaises | CatalogDiscovery.XmlPathSingleExtension |
| lib/src/lib.rs:51-55 | every dot-separated piece holding `cab` becomes `.xml`, joined with nothing | `C:\cab\a.cab` gives `.xml.xml` | replace only the `.cab` extension | medium, not executed | LibDraft.XmlPathCabDirectory | CatalogDiscovery.XmlPathSingleExtension |
| handle_excel.py:81-82 | any answer up to the number of candidates is accepted and used as `selected_index - 1` | the answer `0` selects the last candidate, and negative answers count from the end | only answers 1 to n select a candidate | medium, not executed | ExcelHelper.ZeroSelectsLast | ExcelHelper.SelectColumn |
