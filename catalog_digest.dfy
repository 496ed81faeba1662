/** The registry record the catalog library builds from the manifest's
    digest (`get_hash_sha384`, catalog-lib/src/lib.rs). The SHA3-384
    digest itself is an input: 48 bytes, whatever the file held. */
module CatalogDigest {

  import opened Wrappers
  import opened Text
  import opened Bytes
  import opened Base64
  import opened JsonString

  const RecordPrefix := "{\"CatalogHashValues\":[{\"Key\":\""
  const RecordMiddle := "\",\"Value\":\""
  const RecordSuffix := "\"}]}"

  /** The record as the library writes it: key and value are put between
      the quotes of the template exactly as they are. */
  function HashRecord(key: string, value: string): string {
    RecordPrefix + key + RecordMiddle + value + RecordSuffix
  }

  /** The value: the base64 text less one trailing `=`, if it has one. */
  function HashValue(b64: string): (v: string)
    ensures EndsWith(b64, "=") ==> v + "=" == b64
    ensures !EndsWith(b64, "=") ==> v == b64
  {
    match StripSuffix(b64, "=")
    case Some(temp) => temp
    case None => b64
  }

  /** The record for the file at `xmlPath` whose digest is `digest`;
      `openError` is the message when the file cannot be opened. */
  function GetHashSha384(xmlPath: string, openError: Option<string>, digest: Digest): (r: Result<string, string>)
    ensures r.Failure? <==> openError.Some?
    ensures r.Failure? ==> r.error == openError.value
    ensures r.Success? ==>
      StartsWith(r.value, RecordPrefix + xmlPath + RecordMiddle) && EndsWith(r.value, RecordSuffix)
  {
    if openError.Some? then Failure(openError.value)
    else Success(HashRecord(xmlPath, HashValue(Encode(digest))))
  }

  /** A digest's base64 text has no `=`, so the strip never fires: the
      record carries all 64 characters of the encoding. */
  lemma DigestRecord(xmlPath: string, digest: Digest)
    ensures GetHashSha384(xmlPath, None, digest) == Success(HashRecord(xmlPath, Encode(digest)))
    ensures |HashValue(Encode(digest))| == 64
  {
    DigestHasNoPadding(digest);
  }

  /** A base64 value never needs escaping: it is plain ASCII without `"`
      or `\`. */
  lemma Base64IsPlain(b: seq<byte>)
    ensures Escape(Encode(b)) == Encode(b)
  {
    EncodeChars(b);
    EscapePlain(Encode(b));
  }

  /** A path made of plain characters (printable ASCII other than `"` and
      `\`) reads back, with the digest's encoding, as JSON. */
  lemma PlainPathRecordReadsBack(xmlPath: string, digest: Digest)
    requires forall i :: 0 <= i < |xmlPath| ==> Plain(xmlPath[i])
    ensures ParseTemplate(HashRecord(xmlPath, HashValue(Encode(digest))), RecordPrefix, RecordMiddle, RecordSuffix)
      == Some((xmlPath, Encode(digest)))
  {
    DigestRecord(xmlPath, digest);
    EscapePlain(xmlPath);
    Base64IsPlain(digest);
    TemplateRoundTrip(RecordPrefix, RecordMiddle, RecordSuffix, xmlPath, Encode(digest));
  }

  /** A Windows path is written without escaping its backslashes, so the
      record is not JSON: for `C:\a.xml` the key holds the escape `\a`,
      which section 7 of RFC 8259 does not allow, whatever the value. */
  lemma VerbatimKeyBreaksJson(value: string)
    ensures ParseTemplate(HashRecord("C:\\a.xml", value), RecordPrefix, RecordMiddle, RecordSuffix) == None
  {
    var key := "C:\\a.xml";
    var s := HashRecord(key, value);
    var tail := RecordMiddle + value + RecordSuffix;
    assert s[..|RecordPrefix|] == RecordPrefix;
    assert s[|RecordPrefix|..] == key + tail;
    ScanWindowsKey(tail);
    UnescapeWindowsKey();
    assert (key + tail)[..8] == key;
    UndecodableFirstString(s, RecordPrefix, RecordMiddle, RecordSuffix);
  }

  lemma ScanWindowsKey(tail: string)
    requires |tail| > 0 && tail[0] == '"'
    ensures ScanBody("C:\\a.xml" + tail) == Some(8)
  {
    assert ScanBody(tail) == Some(0);
    var t4 := ['l'] + tail;
    ScanOne('l', tail);
    var t3 := ['m'] + t4;
    ScanOne('m', t4);
    var t2 := ['x'] + t3;
    ScanOne('x', t3);
    var t1 := ['.'] + t2;
    ScanOne('.', t1[1..]);
    assert ScanBody(t1) == Some(4);
    var t0 := ['\\', 'a'] + t1;
    ScanPair('a', t1);
    var t := [':'] + t0;
    ScanOne(':', t0);
    ScanOne('C', t);
    assert "C:\\a.xml" + tail == ['C'] + t;
  }

  lemma UnescapeWindowsKey()
    ensures Unescape("C:\\a.xml") == None
  {
    assert Unescape("\\a.xml") == None;
    assert ":\\a.xml"[1..] == "\\a.xml";
    assert "C:\\a.xml"[1..] == ":\\a.xml";
  }

  /** The record with both strings escaped as JSON strings. */
  function EscapedHashRecord(key: string, value: string): string {
    RecordPrefix + Escape(key) + RecordMiddle + Escape(value) + RecordSuffix
  }

  /** Escaping makes every path read back: the record is JSON and carries
      exactly the path and the value. */
  lemma EscapedRecordRoundTrip(xmlPath: string, digest: Digest)
    ensures ParseTemplate(EscapedHashRecord(xmlPath, HashValue(Encode(digest))), RecordPrefix, RecordMiddle, RecordSuffix)
      == Some((xmlPath, Encode(digest)))
  {
    var v := Encode(digest);
    assert HashValue(v) == v by {
      DigestHasNoPadding(digest);
    }
    TemplateRoundTrip(RecordPrefix, RecordMiddle, RecordSuffix, xmlPath, v);
  }

  /** For plain paths the escaped record is the record already written. */
  lemma EscapingChangesOnlyUnplainPaths(xmlPath: string, digest: Digest)
    requires forall i :: 0 <= i < |xmlPath| ==> Plain(xmlPath[i])
    ensures EscapedHashRecord(xmlPath, Encode(digest)) == HashRecord(xmlPath, Encode(digest))
  {
    EscapePlain(xmlPath);
    Base64IsPlain(digest);
  }
}
