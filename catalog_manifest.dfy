/** The streaming rewrite of the expanded catalog manifest
    (`handle_xml`, catalog-lib/src/lib.rs): one pass over the XML reader's
    events, writing each to the output with two attribute rewrites. The
    reader and writer are the xml-rs event types; parsing and printing
    XML text are not modelled, so the reader is the sequence of items it
    yields and the writer is the sequence of events written to it. */
module CatalogManifest {

  import opened Wrappers
  import opened Text
  import opened CatalogDiscovery
  import opened WinPath

  /** A qualified XML name. Only `localName` is ever compared. */
  datatype Name = Name(localName: string, namespace: Option<string>, prefix: Option<string>)

  datatype Attribute = Attribute(name: Name, value: string)

  /** The events a writer accepts. `Other` stands for the kinds the
      rewrite passes through without looking inside them (document start,
      processing instructions, CDATA, comments, character data). */
  datatype XmlEvent =
    | StartElement(name: Name, attributes: seq<Attribute>, namespace: seq<(string, string)>)
    | EndElement(endName: Option<Name>)
    | Other(kind: string, text: string)

  /** What the reader yields: an event with a writer form, the end of the
      document (which has none), or a parse error with its message. */
  datatype ReaderItem = Event(event: XmlEvent) | EndDocument | ReadError(message: string)

  const ManifestTag := "Manifest"
  const ComponentTag := "SoftwareComponent"

  // ---------------------------------------------------------------------
  // Attribute rewrites

  /** The new value of one attribute of an element with local name
      `element`: a Manifest's `baseLocation` is emptied, a
      SoftwareComponent's `path` keeps only its third `/`-separated piece
      (empty when there are fewer than three); everything else is kept. */
  function NewValue(element: string, a: Attribute): string {
    if element == ManifestTag && a.name.localName == "baseLocation" then ""
    else if element == ComponentTag && a.name.localName == "path" then NthPiece(a.value, '/', 2)
    else a.value
  }

  function RewriteAttribute(element: string, a: Attribute): Attribute {
    Attribute(a.name, NewValue(element, a))
  }

  function RewriteAttributes(element: string, attrs: seq<Attribute>): seq<Attribute> {
    seq(|attrs|, i requires 0 <= i < |attrs| => RewriteAttribute(element, attrs[i]))
  }

  /** Builds the new attribute list of a Manifest or SoftwareComponent
      start element, one attribute at a time. */
  method RebuildAttributes(element: string, attributes: seq<Attribute>) returns (newAttributes: seq<Attribute>)
    requires element == ManifestTag || element == ComponentTag
    ensures newAttributes == RewriteAttributes(element, attributes)
  {
    newAttributes := [];
    for i := 0 to |attributes|
      invariant newAttributes == RewriteAttributes(element, attributes[..i])
    {
      var attr := attributes[i];
      if element == ManifestTag {
        if attr.name.localName == "baseLocation" {
          newAttributes := newAttributes + [Attribute(attr.name, "")];
        } else {
          newAttributes := newAttributes + [attr];
        }
      } else {
        if attr.name.localName == "path" {
          var newValue := NthPiece(attr.value, '/', 2);
          newAttributes := newAttributes + [Attribute(attr.name, newValue)];
        } else {
          newAttributes := newAttributes + [attr];
        }
      }
    }
    assert attributes[..|attributes|] == attributes;
  }

  // ---------------------------------------------------------------------
  // Events and streams

  predicate IsStartOf(e: XmlEvent, local: string) {
    e.StartElement? && e.name.localName == local
  }

  /** The event written for an event read. */
  function RewriteEvent(e: XmlEvent): (r: XmlEvent)
    ensures r.StartElement? <==> e.StartElement?
    ensures r.StartElement? ==>
      r.name == e.name && r.namespace == e.namespace && |r.attributes| == |e.attributes| &&
      forall i :: 0 <= i < |e.attributes| ==> r.attributes[i].name == e.attributes[i].name
    ensures !IsStartOf(e, ManifestTag) && !IsStartOf(e, ComponentTag) ==> r == e
  {
    if IsStartOf(e, ManifestTag) || IsStartOf(e, ComponentTag) then
      StartElement(e.name, RewriteAttributes(e.name.localName, e.attributes), e.namespace)
    else e
  }

  /** The events of a reader stream that have a writer form, in order. */
  function Events(items: seq<ReaderItem>): seq<XmlEvent>
    decreases |items|
  {
    if |items| == 0 then []
    else
      var it := items[|items| - 1];
      Events(items[..|items| - 1]) + (if it.Event? then [it.event] else [])
  }

  /** The messages logged for a reader stream: one per read error. */
  function ErrorLog(items: seq<ReaderItem>): seq<string>
    decreases |items|
  {
    if |items| == 0 then []
    else
      var it := items[|items| - 1];
      ErrorLog(items[..|items| - 1]) + (if it.ReadError? then ["match event: " + it.message] else [])
  }

  function RewriteAll(es: seq<XmlEvent>): seq<XmlEvent> {
    seq(|es|, i requires 0 <= i < |es| => RewriteEvent(es[i]))
  }

  // ---------------------------------------------------------------------
  // The output path: `_` put before the file name, same directory

  /** A path whose `parent()` and `file_name()` both exist: it names a
      file rather than ending in a separator, `.` or `..`. */
  predicate NamesAFile(p: string) {
    FileName(p) != "" && FileName(p) != "." && FileName(p) != ".."
  }

  /** The output file: the same directory, the file name prefixed by `_`. */
  function OutputPath(p: string): (r: string)
    requires NamesAFile(p)
    ensures |r| == |p| + 1
  {
    p[..NameStart(p)] + "_" + FileName(p)
  }

  /** The output lies in the input's directory and its name is the input's
      name with a leading `_`. */
  lemma OutputBesideInput(p: string)
    requires NamesAFile(p)
    ensures var r := OutputPath(p);
      r[..NameStart(r)] == p[..NameStart(p)] && FileName(r) == "_" + FileName(p)
  {
    var dir, name := p[..NameStart(p)], "_" + FileName(p);
    assert forall i :: 0 <= i < |name| ==> !IsSeparator(name[i]) by {
      forall i | 1 <= i < |name| ensures !IsSeparator(name[i]) {
        assert name[i] == p[NameStart(p) + i - 1];
      }
    }
    SameNameStart(dir, name);
    assert OutputPath(p) == dir + name;
  }

  /** Every path the `.cab` → `.xml` rule produces names a file. */
  lemma XmlPathNamesAFile(cabPath: string)
    ensures NamesAFile(XmlPathFor(cabPath))
  {
    var p := XmlPathFor(cabPath);
    var k := NameStart(p);
    assert p[|p| - 4..] == ".xml";
    assert forall i :: |p| - 4 <= i < |p| ==> !IsSeparator(p[i]);
    assert k <= |p| - 4;
    assert FileName(p)[|FileName(p)| - 4..] == ".xml";
  }

  // ---------------------------------------------------------------------
  // handle_xml

  /** Opens the manifest, creates the output beside it, and copies the
      reader's events to the writer: Manifest and SoftwareComponent start
      elements with their attributes rewritten, every other event as it
      is, events without a writer form dropped and read errors logged and
      skipped. `openError` and `createError` are the messages of the two
      file operations when they fail. */
  method HandleXml(xmlPath: string, openError: Option<string>, createError: Option<string>, reader: seq<ReaderItem>)
    returns (r: Result<string, CatalogError>, written: seq<XmlEvent>, log: seq<string>)
    requires NamesAFile(xmlPath)
    ensures openError.Some? ==> r == Failure(IoError(openError.value)) && written == [] && log == []
    ensures openError.None? && createError.Some? ==>
      r == Failure(IoError(createError.value)) && written == [] && log == []
    ensures openError.None? && createError.None? ==>
      r == Success(OutputPath(xmlPath)) && written == RewriteAll(Events(reader)) && log == ErrorLog(reader)
  {
    written, log := [], [];
    if openError.Some? {
      return Failure(IoError(openError.value)), written, log;
    }
    var outputXmlPath := OutputPath(xmlPath);
    if createError.Some? {
      return Failure(IoError(createError.value)), written, log;
    }
    for i := 0 to |reader|
      invariant written == RewriteAll(Events(reader[..i]))
      invariant log == ErrorLog(reader[..i])
    {
      ReadOneMore(reader, i);
      match reader[i]
      case Event(event) => {
        match event {
          case StartElement(name, attributes, namespace) =>
            if name.localName == ManifestTag {
              var newAttributes := RebuildAttributes(ManifestTag, attributes);
              written := written + [StartElement(name, newAttributes, namespace)];
            } else if name.localName == ComponentTag {
              var newAttributes := RebuildAttributes(ComponentTag, attributes);
              written := written + [StartElement(name, newAttributes, namespace)];
            } else {
              written := written + [event];
            }
          case EndElement(_) =>
            written := written + [event];
          case Other(_, _) =>
            written := written + [event];
        }
      }
      case EndDocument =>
      case ReadError(e) =>
        log := log + ["match event: " + e];
    }
    assert reader[..|reader|] == reader;
    r := Success(outputXmlPath);
  }

  /** One more item read: its event, rewritten, and its error message
      are appended. */
  lemma ReadOneMore(reader: seq<ReaderItem>, i: nat)
    requires i < |reader|
    ensures RewriteAll(Events(reader[..i + 1])) ==
      RewriteAll(Events(reader[..i])) + (if reader[i].Event? then [RewriteEvent(reader[i].event)] else [])
    ensures ErrorLog(reader[..i + 1]) ==
      ErrorLog(reader[..i]) + (if reader[i].ReadError? then ["match event: " + reader[i].message] else [])
  {
    assert reader[..i + 1][..i] == reader[..i];
  }

  // ---------------------------------------------------------------------
  // What the rewrite does and does not change

  /** A Manifest start element keeps its name, namespace and attribute
      names in order; every `baseLocation` becomes empty and every other
      value is kept. No attribute is added, so a `baseLocation` appears
      afterwards only where there was one before. */
  lemma ManifestRewrite(e: XmlEvent)
    requires IsStartOf(e, ManifestTag)
    ensures var e' := RewriteEvent(e);
      e'.StartElement? && e'.name == e.name && e'.namespace == e.namespace &&
      |e'.attributes| == |e.attributes| &&
      (forall i :: 0 <= i < |e.attributes| ==> e'.attributes[i].name == e.attributes[i].name) &&
      (forall i :: 0 <= i < |e.attributes| && e.attributes[i].name.localName == "baseLocation" ==>
         e'.attributes[i].value == "") &&
      (forall i :: 0 <= i < |e.attributes| && e.attributes[i].name.localName != "baseLocation" ==>
         e'.attributes[i].value == e.attributes[i].value)
  {
  }

  /** A SoftwareComponent start element keeps everything but its `path`
      values, each of which becomes its third `/`-separated piece, or
      empty when there are fewer than three pieces. */
  lemma ComponentRewrite(e: XmlEvent)
    requires IsStartOf(e, ComponentTag)
    ensures var e' := RewriteEvent(e);
      e'.StartElement? && e'.name == e.name && e'.namespace == e.namespace &&
      |e'.attributes| == |e.attributes| &&
      (forall i :: 0 <= i < |e.attributes| ==> e'.attributes[i].name == e.attributes[i].name) &&
      (forall i :: 0 <= i < |e.attributes| && e.attributes[i].name.localName == "path" ==>
         e'.attributes[i].value == (if |Split(e.attributes[i].value, '/')| > 2
                                    then Split(e.attributes[i].value, '/')[2] else "")) &&
      (forall i :: 0 <= i < |e.attributes| && e.attributes[i].name.localName != "path" ==>
         e'.attributes[i].value == e.attributes[i].value)
  {
  }

  /** Every other event is written exactly as it was read. */
  lemma OtherEventsUnchanged(e: XmlEvent)
    requires !IsStartOf(e, ManifestTag) && !IsStartOf(e, ComponentTag)
    ensures RewriteEvent(e) == e
  {
  }

  /** A stream with neither a Manifest nor a SoftwareComponent start
      element is copied unchanged (less the items without a writer form). */
  lemma {:induction false} PassThrough(items: seq<ReaderItem>)
    requires forall i :: 0 <= i < |Events(items)| ==>
      !IsStartOf(Events(items)[i], ManifestTag) && !IsStartOf(Events(items)[i], ComponentTag)
    ensures RewriteAll(Events(items)) == Events(items)
  {
    var es := Events(items);
    forall i | 0 <= i < |es|
      ensures RewriteAll(es)[i] == es[i]
    {
      OtherEventsUnchanged(es[i]);
    }
  }

  /** The events read and written line up one to one: each written event
      has the kind, element name and namespace of the one read, with the
      same attribute names in the same order. */
  lemma SameShape(items: seq<ReaderItem>)
    ensures |RewriteAll(Events(items))| == |Events(items)|
    ensures forall i :: 0 <= i < |Events(items)| ==>
      var a, b := Events(items)[i], RewriteAll(Events(items))[i];
      a.StartElement? == b.StartElement? && a.EndElement? == b.EndElement? && a.Other? == b.Other? &&
      (a.StartElement? ==>
         a.name == b.name && a.namespace == b.namespace && |a.attributes| == |b.attributes| &&
         forall j :: 0 <= j < |a.attributes| ==> a.attributes[j].name == b.attributes[j].name) &&
      (!a.StartElement? ==> a == b)
  {
  }

  /** Reading two streams one after the other writes what each writes,
      in order: nothing is reordered, merged or carried over. */
  lemma {:induction false} EventsAppend(a: seq<ReaderItem>, b: seq<ReaderItem>)
    ensures Events(a + b) == Events(a) + Events(b)
    ensures ErrorLog(a + b) == ErrorLog(a) + ErrorLog(b)
    decreases |b|
  {
    if |b| == 0 {
      assert a + b == a;
    } else {
      var b' := b[..|b| - 1];
      EventsAppend(a, b');
      assert (a + b)[..|a + b| - 1] == a + b';
    }
  }

  /** A read error changes nothing but the log: the stream without it
      writes the same events. */
  lemma ReadErrorSkipped(a: seq<ReaderItem>, msg: string, b: seq<ReaderItem>)
    ensures Events(a + [ReadError(msg)] + b) == Events(a + b)
    ensures ErrorLog(a + [ReadError(msg)] + b) == ErrorLog(a) + ["match event: " + msg] + ErrorLog(b)
  {
    EventsAppend(a + [ReadError(msg)], b);
    EventsAppend(a, [ReadError(msg)]);
    EventsAppend(a, b);
    assert [ReadError(msg)][..0] == [];
  }

  /** Emptying `baseLocation` twice is the same as once. */
  lemma ManifestIdempotent(e: XmlEvent)
    requires IsStartOf(e, ManifestTag)
    ensures RewriteEvent(RewriteEvent(e)) == RewriteEvent(e)
  {
  }

  /** The component rewrite is not idempotent: `a/b/c` becomes `c`, and
      `c`, having a single piece, becomes empty. */
  lemma ComponentNotIdempotent()
    ensures NthPiece("a/b/c", '/', 2) == "c"
    ensures NthPiece("c", '/', 2) == ""
  {
    SplitWithoutSeparator("c", '/');
    var s := "a/b/c";
    assert "/c"[1..] == "c";
    assert Split("/c", '/') == ["", "c"];
    assert "b/c"[1..] == "/c";
    assert ['b'] + "" == "b" && ["", "c"][1..] == ["c"];
    assert Split("b/c", '/') == ["b", "c"];
    assert "/b/c"[1..] == "b/c";
    assert Split("/b/c", '/') == ["", "b", "c"];
    assert s[1..] == "/b/c";
    assert ['a'] + "" == "a" && ["", "b", "c"][1..] == ["b", "c"];
    assert Split(s, '/') == ["a", "b", "c"];
  }
}
