/**
  The form encoder (`MultipartFormData`): the text framing of each part,
  the byte stream `process` writes into a sink (properties, then sources,
  then the closing delimiter), and the two entry points `data()` and
  `write(to:)` that run it on a fresh in-memory buffer or a new file.
*/
module FormEncoder {
  import opened Wrappers
  import opened Utf8
  import opened Sources
  import opened Writable
  import opened Seqs

  // ---------------------------------------------------------------------
  // Sources and their MIME types
  // ---------------------------------------------------------------------

  /** `MultipartFormDataSource`: a name for the `filename` parameter and the
      file's URL (`MultipartFormData.Source`, or a URL standing for itself). */
  datatype Source = Source(name: string, url: Url)

  /** A bare URL used as a source is named by its last path component. */
  function SourceOfUrl(url: Url): (s: Source)
    ensures s.name == LastPathComponent(url.path) && s.url == url
    ensures s.name == OfUrl(url).name
  {
    Source(LastPathComponent(url.path), url)
  }

  /** The MIME type used when the lookup knows nothing about an extension. */
  const OctetStream: string := "application/octet-stream"

  /**
    The two Uniform Type Identifier lookups `mimeType(for:)` makes, left
    abstract: the preferred type identifier for a filename extension, and
    the preferred MIME type of a type identifier. Either may find nothing.
  */
  datatype MimeLookup = MimeLookup(identifierFor: string -> Option<string>, mimeTypeFor: string -> Option<string>)

  /** The index of the last `c` in `s`, or -1 when there is none. */
  function LastIndexOf(s: string, c: char): (i: int)
    ensures -1 <= i < |s|
  {
    if s == [] then -1
    else if s[|s| - 1] == c then |s| - 1
    else LastIndexOf(s[..|s| - 1], c)
  }

  /** The index found holds `c` and nothing after it does; -1 means `c` is absent. */
  lemma {:induction false} LastIndexOfSpec(s: string, c: char)
    ensures var i := LastIndexOf(s, c);
      && (i >= 0 ==> s[i] == c)
      && (forall k :: i < k < |s| ==> s[k] != c)
    decreases |s|
  {
    if s != [] && s[|s| - 1] != c {
      LastIndexOfSpec(s[..|s| - 1], c);
    }
  }

  /**
    `pathExtension`: what follows the last dot of the last path component,
    or nothing when that component has no dot, or only a leading one.
  */
  function PathExtension(path: string): string {
    var name := LastPathComponent(path);
    var dot := LastIndexOf(name, '.');
    if 0 < dot then name[dot + 1..] else ""
  }

  /** When the last component has a dot after its first character, the
      extension is the dot-free tail after the last such dot (empty when
      the name ends in a dot); otherwise the extension is empty. */
  lemma PathExtensionSpec(path: string)
    ensures var r := PathExtension(path);
      && '.' !in r
      && var name := LastPathComponent(path);
      && ((exists i :: 0 < i < |name| && name[i] == '.') ==>
            |r| + 1 < |name| && name[|name| - |r| - 1] == '.' && name[|name| - |r|..] == r)
      && ((forall i :: 0 < i < |name| ==> name[i] != '.') ==> r == [])
  {
    var name := LastPathComponent(path);
    var dot := LastIndexOf(name, '.');
    LastIndexOfSpec(name, '.');
    if 0 < dot {
      var r := name[dot + 1..];
      forall k | 0 <= k < |r| ensures r[k] != '.' {
        assert r[k] == name[dot + 1 + k];
      }
      assert name[|name| - |r|..] == r;
    }
  }

  /**
    `mimeType(for:)`: the MIME type the lookups give for the URL's
    extension, or `application/octet-stream` when either lookup fails.
  */
  function MimeType(lookup: MimeLookup, url: Url): string {
    match lookup.identifierFor(PathExtension(url.path))
    case None => OctetStream
    case Some(kind) =>
      match lookup.mimeTypeFor(kind)
      case None => OctetStream
      case Some(mime) => mime
  }

  /** When both lookups succeed, the file is sent with the MIME type found. */
  lemma MimeTypeFound(lookup: MimeLookup, url: Url, kind: string, mime: string)
    requires lookup.identifierFor(PathExtension(url.path)) == Some(kind)
    requires lookup.mimeTypeFor(kind) == Some(mime)
    ensures MimeType(lookup, url) == mime
  {
  }

  /** When either lookup finds nothing, the file is sent as an octet stream. */
  lemma MimeTypeFallback(lookup: MimeLookup, url: Url)
    requires var id := lookup.identifierFor(PathExtension(url.path));
      id.None? || lookup.mimeTypeFor(id.value).None?
    ensures MimeType(lookup, url) == OctetStream
  {
  }

  /** The MIME type depends on the URL only through its extension. */
  lemma MimeTypeByExtension(lookup: MimeLookup, url: Url, url': Url)
    requires PathExtension(url.path) == PathExtension(url'.path)
    ensures MimeType(lookup, url) == MimeType(lookup, url')
  {
  }

  /** A lookup that knows no MIME type for any extension, whether it finds
      no identifier or only one without a MIME type (as a dynamic
      identifier for an unknown extension is), sends every file as an
      octet stream. */
  lemma UnknownExtension(lookup: MimeLookup, url: Url)
    requires forall ext :: lookup.identifierFor(ext).Some? ==> lookup.mimeTypeFor(lookup.identifierFor(ext).value).None?
    ensures MimeType(lookup, url) == OctetStream
  {
    MimeTypeFallback(lookup, url);
  }

  // ---------------------------------------------------------------------
  // The text of the framing
  // ---------------------------------------------------------------------

  const ContentTypePrefix: string := "multipart/form-data; boundary="

  /** The boundary a `Content-Type` header value announces, if it is a
      multipart form header at all: the inverse of `ContentType`. */
  function BoundaryOf(header: string): (r: Option<string>)
    ensures r.Some? ==> header == ContentTypePrefix + r.value
  {
    if |header| >= |ContentTypePrefix| && header[..|ContentTypePrefix|] == ContentTypePrefix
    then Some(header[|ContentTypePrefix|..])
    else None
  }

  // The fixed pieces of the framing.
  const Dashes: string := "--"
  const LineBreak: string := "\r\n"
  const CloseDashes: string := "--\r\n"
  const NameParameter: string := "Content-Disposition: form-data; name=\""
  const NameEnd: string := "\"\r\n\r\n"
  const FilenameParameter: string := "\"; filename=\""
  const FilenameEnd: string := "\"\r\n"
  const ContentTypeHeader: string := "Content-Type: "
  const HeaderEnd: string := "\r\n\r\n"

  /** The line that opens every part. */
  function Delimiter(boundary: string): string {
    Dashes + boundary + LineBreak
  }

  /** The line that ends the body. */
  function ClosingLine(boundary: string): string {
    Dashes + boundary + CloseDashes
  }

  /** The header of a text property, with the blank line after it. */
  function PropertyDisposition(key: string): string {
    NameParameter + key + NameEnd
  }

  /** The first header of a file part. */
  function SourceDisposition(key: string, filename: string): string {
    NameParameter + key + FilenameParameter + filename + FilenameEnd
  }

  /** The second header of a file part, with the blank line after it. */
  function ContentTypeLine(mime: string): string {
    ContentTypeHeader + mime + HeaderEnd
  }

  /** The three strings `writeProperties` appends for one property. */
  function PropertyText(boundary: string, key: string, value: string): string {
    Delimiter(boundary) + PropertyDisposition(key) + (value + LineBreak)
  }

  /** The three strings `writeSources` appends ahead of the bytes of a file
      named `filename` whose MIME type is `mime`. */
  function SourceHeader(boundary: string, key: string, filename: string, mime: string): string {
    Delimiter(boundary) + SourceDisposition(key, filename) + ContentTypeLine(mime)
  }

  /** A file part as `writeSources` has it ready before the file is read:
      its header lines, encoded, and the file whose bytes follow them. */
  datatype Part = Part(header: Bytes, url: Url)

  function SourcePart(boundary: string, key: string, source: Source, lookup: MimeLookup): Part {
    Part(Encode(SourceHeader(boundary, key, source.name, MimeType(lookup, source.url))), source.url)
  }

  /** The prepared parts of a run of sources, one per source. */
  function PartsOf(boundary: string, sources: seq<(string, Source)>, lookup: MimeLookup): seq<Part> {
    Map(sources, (s: (string, Source)) => SourcePart(boundary, s.0, s.1, lookup))
  }

  /** `"\r\n"` in UTF-8. */
  const Crlf: Bytes := [13, 10]

  /** The bytes of one complete file part. */
  function Block(part: Part, contents: Bytes): Bytes {
    part.header + contents + Crlf
  }

  /** All text properties, in iteration order. */
  function PropertiesText(boundary: string, properties: seq<(string, string)>): string
    decreases |properties|
  {
    if properties == [] then ""
    else
      var last := properties[|properties| - 1];
      PropertiesText(boundary, properties[..|properties| - 1]) + PropertyText(boundary, last.0, last.1)
  }

  /** What `writeSources` leaves in the sink, and the fault it stopped at if any. */
  datatype Emission = Emission(bytes: Bytes, fault: Option<Fault>)

  /**
    The file parts, in iteration order. A part whose file cannot be
    opened ends the emission: its headers are already written, its file's
    bytes and everything after it are not.
  */
  function Emit(parts: seq<Part>, fs: map<Url, Bytes>): Emission
    decreases |parts|
  {
    if parts == [] then Emission([], None)
    else
      var e := Emit(parts[..|parts| - 1], fs);
      var last := parts[|parts| - 1];
      if e.fault.Some? then e
      else if last.url in fs then Emission(e.bytes + Block(last, fs[last.url]), None)
      else Emission(e.bytes + last.header, Some(CannotOpen(last.url)))
  }

  /** Everything `process` writes into its sink, the closing line only when
      every file could be read. */
  function Emitted(boundary: string, properties: seq<(string, string)>, sources: seq<(string, Source)>,
                   fs: map<Url, Bytes>, lookup: MimeLookup): Bytes
  {
    var e := Emit(PartsOf(boundary, sources, lookup), fs);
    Encode(PropertiesText(boundary, properties)) + e.bytes + (if e.fault.None? then Encode(ClosingLine(boundary)) else [])
  }

  /** The encoded body, or the fault that stopped the encoder. */
  function Encoding(boundary: string, properties: seq<(string, string)>, sources: seq<(string, Source)>,
                    fs: map<Url, Bytes>, lookup: MimeLookup): (r: Result<Bytes, Fault>)
    ensures r.Success? <==> Emit(PartsOf(boundary, sources, lookup), fs).fault.None?
    ensures r.Success? ==> r.value == Emitted(boundary, properties, sources, fs, lookup)
  {
    var e := Emit(PartsOf(boundary, sources, lookup), fs);
    if e.fault.Some? then Failure(e.fault.value)
    else Success(Encode(PropertiesText(boundary, properties)) + e.bytes + Encode(ClosingLine(boundary)))
  }

  // ---------------------------------------------------------------------
  // Sums of part sizes
  // ---------------------------------------------------------------------

  /** How many bytes a text property takes in the body. */
  function PropertySize(boundary: string): ((string, string)) -> nat {
    (p: (string, string)) => |Encode(PropertyText(boundary, p.0, p.1))|
  }

  // ---------------------------------------------------------------------
  // The properties
  // ---------------------------------------------------------------------

  /** Writing two runs of properties writes the text of each in turn. */
  lemma {:induction false} PropertiesTextAppend(boundary: string, ps: seq<(string, string)>, qs: seq<(string, string)>)
    ensures PropertiesText(boundary, ps + qs) == PropertiesText(boundary, ps) + PropertiesText(boundary, qs)
    decreases |qs|
  {
    if qs == [] {
      assert ps + qs == ps;
    } else {
      var init := qs[..|qs| - 1];
      assert (ps + qs)[..|ps + qs| - 1] == ps + init;
      PropertiesTextAppend(boundary, ps, init);
    }
  }

  /** Every property's block appears whole in the properties' bytes, right
      after the blocks of the properties before it. */
  lemma PropertyAt(boundary: string, properties: seq<(string, string)>, i: nat)
    requires i < |properties|
    ensures Occurs(Encode(PropertyText(boundary, properties[i].0, properties[i].1)),
                   Encode(PropertiesText(boundary, properties)), |Encode(PropertiesText(boundary, properties[..i]))|)
  {
    var p := properties[i];
    var before, after := properties[..i], properties[i + 1..];
    var t0, t1, t2 := PropertiesText(boundary, before), PropertyText(boundary, p.0, p.1), PropertiesText(boundary, after);
    assert PropertiesText(boundary, before + [p]) == t0 + t1 by {
      assert (before + [p])[..i] == before;
    }
    assert properties == before + [p] + after;
    PropertiesTextAppend(boundary, before + [p], after);
    EncodeConcat(t0 + t1, t2);
    EncodeConcat(t0, t1);
    OccursBetween(Encode(t0), Encode(t1), Encode(t2));
  }

  /** The properties take as many bytes as their blocks together. */
  lemma {:induction false} PropertiesLength(boundary: string, properties: seq<(string, string)>)
    ensures |Encode(PropertiesText(boundary, properties))| == SumOf(properties, PropertySize(boundary))
    decreases |properties|
  {
    if properties != [] {
      var init, last := properties[..|properties| - 1], properties[|properties| - 1];
      PropertiesLength(boundary, init);
      EncodeConcat(PropertiesText(boundary, init), PropertyText(boundary, last.0, last.1));
    }
  }

  /** The encoded sizes of the fixed pieces of the framing, all 7-bit text. */
  lemma FramingLengths()
    ensures |Encode(Dashes)| == 2 && |Encode(LineBreak)| == 2 && |Encode(CloseDashes)| == 4
    ensures |Encode(NameParameter)| == 38 && |Encode(NameEnd)| == 5
    ensures |Encode(FilenameParameter)| == 13 && |Encode(FilenameEnd)| == 3
    ensures |Encode(ContentTypeHeader)| == 14 && |Encode(HeaderEnd)| == 4
  {
    LineLengths();
    NameParameterLength();
    FilenameLengths();
    ContentTypeLengths();
  }

  lemma LineLengths()
    ensures |Encode(Dashes)| == 2 && |Encode(LineBreak)| == 2 && |Encode(CloseDashes)| == 4
  {
    AsciiLength(Dashes);
    AsciiLength(LineBreak);
    AsciiLength(CloseDashes);
  }

  lemma NameParameterLength()
    ensures |Encode(NameParameter)| == 38
  {
    AsciiLength(NameParameter);
  }

  lemma FilenameLengths()
    ensures |Encode(NameEnd)| == 5 && |Encode(FilenameParameter)| == 13 && |Encode(FilenameEnd)| == 3
  {
    AsciiLength(NameEnd);
    AsciiLength(FilenameParameter);
    AsciiLength(FilenameEnd);
  }

  lemma ContentTypeLengths()
    ensures |Encode(ContentTypeHeader)| == 14 && |Encode(HeaderEnd)| == 4
  {
    AsciiLength(ContentTypeHeader);
    AsciiLength(HeaderEnd);
  }

  /** A 7-bit string takes one byte per character. */
  lemma AsciiLength(s: string)
    requires IsAscii(s)
    ensures |Encode(s)| == |s|
  {
    EncodeAscii(s);
  }

  /** The encoded size of a concatenation. */
  lemma EncodeLength(a: string, b: string)
    ensures |Encode(a + b)| == |Encode(a)| + |Encode(b)|
  {
    EncodeConcat(a, b);
  }

  lemma DelimiterLength(boundary: string)
    ensures |Encode(Delimiter(boundary))| == |Encode(boundary)| + 4
  {
    FramingLengths();
    EncodeLength(Dashes + boundary, LineBreak);
    EncodeLength(Dashes, boundary);
  }

  lemma PropertyDispositionLength(key: string)
    ensures |Encode(PropertyDisposition(key))| == |Encode(key)| + 43
  {
    FramingLengths();
    EncodeLength(NameParameter + key, NameEnd);
    EncodeLength(NameParameter, key);
  }

  /** A text property costs its boundary, key and value plus 49 bytes of framing. */
  lemma PropertyBlockLength(boundary: string, key: string, value: string)
    ensures |Encode(PropertyText(boundary, key, value))| == |Encode(boundary)| + |Encode(key)| + |Encode(value)| + 49
  {
    FramingLengths();
    DelimiterLength(boundary);
    PropertyDispositionLength(key);
    EncodeLength(Delimiter(boundary) + PropertyDisposition(key), value + LineBreak);
    EncodeLength(Delimiter(boundary), PropertyDisposition(key));
    EncodeLength(value, LineBreak);
  }

  // ---------------------------------------------------------------------
  // The sources
  // ---------------------------------------------------------------------

  /** Every source's file is there to be read. */
  predicate AllReadable(sources: seq<(string, Source)>, fs: map<Url, Bytes>) {
    forall j :: 0 <= j < |sources| ==> sources[j].1.url in fs
  }

  /** Emitting two runs of parts emits the first, then, unless it
      stopped at a fault, the second. */
  lemma {:induction false} EmitAppend(ps: seq<Part>, qs: seq<Part>, fs: map<Url, Bytes>)
    ensures var e, f := Emit(ps, fs), Emit(qs, fs);
      Emit(ps + qs, fs) == if e.fault.Some? then e else Emission(e.bytes + f.bytes, f.fault)
    decreases |qs|
  {
    var e := Emit(ps, fs);
    if qs == [] {
      assert ps + qs == ps;
      assert e.bytes + [] == e.bytes;
    } else {
      var init, last := qs[..|qs| - 1], qs[|qs| - 1];
      assert (ps + qs)[..|ps + qs| - 1] == ps + init;
      assert (ps + qs)[|ps + qs| - 1] == last;
      EmitAppend(ps, init, fs);
      var f := Emit(init, fs);
      if e.fault.None? && f.fault.None? {
        if last.url in fs {
          assert e.bytes + f.bytes + Block(last, fs[last.url]) == e.bytes + (f.bytes + Block(last, fs[last.url]));
        } else {
          assert e.bytes + f.bytes + last.header == e.bytes + (f.bytes + last.header);
        }
      }
    }
  }

  /** The parts of the first `j` sources are the first `j` parts. */
  lemma PartsOfPrefix(boundary: string, sources: seq<(string, Source)>, lookup: MimeLookup, j: nat)
    requires j <= |sources|
    ensures PartsOf(boundary, sources[..j], lookup) == PartsOf(boundary, sources, lookup)[..j]
  {
    MapPrefix(sources, (s: (string, Source)) => SourcePart(boundary, s.0, s.1, lookup), j);
  }

  /** The `j`-th part is the `j`-th source's. */
  lemma PartOf(boundary: string, sources: seq<(string, Source)>, lookup: MimeLookup, j: nat)
    requires j < |sources|
    ensures PartsOf(boundary, sources, lookup)[j] == SourcePart(boundary, sources[j].0, sources[j].1, lookup)
  {
    MapAt(sources, (s: (string, Source)) => SourcePart(boundary, s.0, s.1, lookup), j);
  }

  /** Each part reads its own source's file. */
  lemma PartsOfUrls(boundary: string, sources: seq<(string, Source)>, lookup: MimeLookup)
    ensures |PartsOf(boundary, sources, lookup)| == |sources|
    ensures forall j :: 0 <= j < |sources| ==> PartsOf(boundary, sources, lookup)[j].url == sources[j].1.url
  {
    forall j | 0 <= j < |sources| ensures PartsOf(boundary, sources, lookup)[j].url == sources[j].1.url {
      PartOf(boundary, sources, lookup, j);
    }
  }

  /** When every source's file can be opened, so can every part's. */
  lemma PartsReadable(boundary: string, sources: seq<(string, Source)>, fs: map<Url, Bytes>, lookup: MimeLookup)
    requires AllReadable(sources, fs)
    ensures forall k :: 0 <= k < |PartsOf(boundary, sources, lookup)| ==> PartsOf(boundary, sources, lookup)[k].url in fs
  {
    PartsOfUrls(boundary, sources, lookup);
  }

  /** The part emission stops at a fault exactly when some part's file is missing. */
  lemma {:induction false} EmitFaultIffMissing(parts: seq<Part>, fs: map<Url, Bytes>)
    ensures Emit(parts, fs).fault.None? <==> forall j :: 0 <= j < |parts| ==> parts[j].url in fs
    decreases |parts|
  {
    if parts != [] {
      var init := parts[..|parts| - 1];
      EmitFaultIffMissing(init, fs);
      assert forall j :: 0 <= j < |init| ==> init[j] == parts[j];
    }
  }

  /** The file parts stop at a fault exactly when some source's file is missing. */
  lemma FaultIffMissing(boundary: string, sources: seq<(string, Source)>, fs: map<Url, Bytes>, lookup: MimeLookup)
    ensures Emit(PartsOf(boundary, sources, lookup), fs).fault.None? <==> AllReadable(sources, fs)
  {
    EmitFaultIffMissing(PartsOf(boundary, sources, lookup), fs);
    PartsOfUrls(boundary, sources, lookup);
  }

  /** The fault is the first missing file's. */
  lemma EmitFirstMissing(parts: seq<Part>, fs: map<Url, Bytes>, j: nat)
    requires j < |parts| && parts[j].url !in fs
    requires forall k :: 0 <= k < j ==> parts[k].url in fs
    ensures Emit(parts, fs).fault == Some(CannotOpen(parts[j].url))
  {
    var upto := parts[..j + 1];
    assert upto[..j] == parts[..j];
    EmitFaultIffMissing(parts[..j], fs);
    assert parts == upto + parts[j + 1..];
    EmitAppend(upto, parts[j + 1..], fs);
  }

  /** With every file there, each part's whole block appears in the
      emission, right after the blocks of the parts before it. */
  lemma EmitAt(parts: seq<Part>, fs: map<Url, Bytes>, j: nat)
    requires j < |parts| && forall k :: 0 <= k < |parts| ==> parts[k].url in fs
    ensures Occurs(Block(parts[j], fs[parts[j].url]), Emit(parts, fs).bytes, |Emit(parts[..j], fs).bytes|)
  {
    var upto := parts[..j + 1];
    assert upto[..j] == parts[..j];
    EmitFaultIffMissing(parts[..j], fs);
    assert parts == upto + parts[j + 1..];
    EmitAppend(upto, parts[j + 1..], fs);
  }

  /** How many bytes a part takes in the body, its file being readable. */
  function PartSize(fs: map<Url, Bytes>): Part -> nat {
    (p: Part) => if p.url in fs then |Block(p, fs[p.url])| else 0
  }

  /** With every file there, the emission takes as many bytes as the
      parts' blocks together. */
  lemma {:induction false} EmitLength(parts: seq<Part>, fs: map<Url, Bytes>)
    requires forall k :: 0 <= k < |parts| ==> parts[k].url in fs
    ensures |Emit(parts, fs).bytes| == SumOf(parts, PartSize(fs))
    decreases |parts|
  {
    if parts != [] {
      var init := parts[..|parts| - 1];
      assert forall k :: 0 <= k < |init| ==> init[k] == parts[k];
      EmitLength(init, fs);
      EmitFaultIffMissing(init, fs);
    }
  }

  /** Whether every file is there does not depend on the order of the sources. */
  lemma AllReadablePermutation(ss: seq<(string, Source)>, ts: seq<(string, Source)>, fs: map<Url, Bytes>)
    requires multiset(ss) == multiset(ts)
    ensures AllReadable(ss, fs) <==> AllReadable(ts, fs)
  {
    forall j | 0 <= j < |ts| ensures ts[j] in ss {
      assert ts[j] in multiset(ts);
    }
    forall j | 0 <= j < |ss| ensures ss[j] in ts {
      assert ss[j] in multiset(ss);
    }
  }

  lemma SourceDispositionLength(key: string, filename: string)
    ensures |Encode(SourceDisposition(key, filename))| == |Encode(key)| + |Encode(filename)| + 54
  {
    FramingLengths();
    EncodeLength(NameParameter + key + FilenameParameter + filename, FilenameEnd);
    EncodeLength(NameParameter + key + FilenameParameter, filename);
    EncodeLength(NameParameter + key, FilenameParameter);
    EncodeLength(NameParameter, key);
  }

  lemma ContentTypeLineLength(mime: string)
    ensures |Encode(ContentTypeLine(mime))| == |Encode(mime)| + 18
  {
    FramingLengths();
    EncodeLength(ContentTypeHeader + mime, HeaderEnd);
    EncodeLength(ContentTypeHeader, mime);
  }

  /** A file part costs its boundary, key, file name, MIME type and file
      plus 78 bytes of framing. */
  lemma SourceBlockLength(boundary: string, key: string, source: Source, lookup: MimeLookup, contents: Bytes)
    ensures |Block(SourcePart(boundary, key, source, lookup), contents)|
      == |Encode(boundary)| + |Encode(key)| + |Encode(source.name)| + |Encode(MimeType(lookup, source.url))| + |contents| + 78
  {
    var mime := MimeType(lookup, source.url);
    DelimiterLength(boundary);
    SourceDispositionLength(key, source.name);
    ContentTypeLineLength(mime);
    EncodeLength(Delimiter(boundary) + SourceDisposition(key, source.name), ContentTypeLine(mime));
    EncodeLength(Delimiter(boundary), SourceDisposition(key, source.name));
  }

  /** How many bytes a source's part takes in the body, its file being readable. */
  function SourceSize(boundary: string, fs: map<Url, Bytes>, lookup: MimeLookup): ((string, Source)) -> nat {
    (s: (string, Source)) => PartSize(fs)(SourcePart(boundary, s.0, s.1, lookup))
  }

  /** The parts' sizes total the sources' sizes. */
  lemma {:induction false} PartsSize(boundary: string, sources: seq<(string, Source)>, fs: map<Url, Bytes>, lookup: MimeLookup)
    ensures SumOf(PartsOf(boundary, sources, lookup), PartSize(fs)) == SumOf(sources, SourceSize(boundary, fs, lookup))
    decreases |sources|
  {
    if sources != [] {
      var n := |sources| - 1;
      PartsOfPrefix(boundary, sources, lookup, n);
      PartsSize(boundary, sources[..n], fs, lookup);
    }
  }

  // ---------------------------------------------------------------------
  // The body
  // ---------------------------------------------------------------------

  /** Encoding fails exactly when some source's file is missing, and then
      with the first missing file. */
  lemma EncodingFailure(boundary: string, properties: seq<(string, string)>, sources: seq<(string, Source)>,
                        fs: map<Url, Bytes>, lookup: MimeLookup)
    ensures Encoding(boundary, properties, sources, fs, lookup).Success? <==> AllReadable(sources, fs)
    ensures forall j :: 0 <= j < |sources| && sources[j].1.url !in fs && AllReadable(sources[..j], fs) ==>
      Encoding(boundary, properties, sources, fs, lookup) == Failure(CannotOpen(sources[j].1.url))
  {
    FaultIffMissing(boundary, sources, fs, lookup);
    var parts := PartsOf(boundary, sources, lookup);
    PartsOfUrls(boundary, sources, lookup);
    forall j | 0 <= j < |sources| && sources[j].1.url !in fs && AllReadable(sources[..j], fs)
      ensures Encoding(boundary, properties, sources, fs, lookup) == Failure(CannotOpen(sources[j].1.url))
    {
      forall k | 0 <= k < j ensures parts[k].url in fs {
        assert sources[..j][k] == sources[k];
      }
      EmitFirstMissing(parts, fs, j);
    }
  }

  /** A body ends with the closing delimiter line. */
  lemma EncodingEndsWithClosingLine(boundary: string, properties: seq<(string, string)>, sources: seq<(string, Source)>,
                                    fs: map<Url, Bytes>, lookup: MimeLookup)
    requires Encoding(boundary, properties, sources, fs, lookup).Success?
    ensures |Encode(ClosingLine(boundary))| <= |Encoding(boundary, properties, sources, fs, lookup).value|
    ensures Occurs(Encode(ClosingLine(boundary)), Encoding(boundary, properties, sources, fs, lookup).value,
                   |Encoding(boundary, properties, sources, fs, lookup).value| - |Encode(ClosingLine(boundary))|)
  {
    EncodingSuccess(boundary, properties, sources, fs, lookup);
    var front := Encode(PropertiesText(boundary, properties)) + Emit(PartsOf(boundary, sources, lookup), fs).bytes;
    var closing := Encode(ClosingLine(boundary));
    EndsWith(Encoding(boundary, properties, sources, fs, lookup).value, front, closing);
  }

  /** A text property's block opens with the delimiter line. */
  lemma PropertyOpensWithDelimiter(boundary: string, key: string, value: string)
    ensures Occurs(Encode(Delimiter(boundary)), Encode(PropertyText(boundary, key, value)), 0)
  {
    var d, n := Delimiter(boundary), PropertyDisposition(key);
    EncodeConcat(d + n, value + LineBreak);
    EncodeConcat(d, n);
    OccursAtStart(Encode(d), Encode(n));
    OccursPrefix(Encode(d), Encode(d + n), Encode(value + LineBreak), 0);
  }

  /** A file part's block opens with the delimiter line. */
  lemma PartOpensWithDelimiter(boundary: string, key: string, filename: string, mime: string, url: Url, contents: Bytes)
    ensures Occurs(Encode(Delimiter(boundary)), Block(Part(Encode(SourceHeader(boundary, key, filename, mime)), url), contents), 0)
  {
    var d, n, t := Delimiter(boundary), SourceDisposition(key, filename), ContentTypeLine(mime);
    var header := Encode(d + n + t);
    EncodeConcat(d + n, t);
    EncodeConcat(d, n);
    OccursAtStart(Encode(d), Encode(n));
    OccursPrefix(Encode(d), Encode(d + n), Encode(t), 0);
    OccursPrefix(Encode(d), header, contents, 0);
    OccursPrefix(Encode(d), header + contents, Crlf, 0);
  }

  /** A body with any part in it starts with a delimiter line: there is no preamble. */
  lemma EncodingStartsWithDelimiter(boundary: string, properties: seq<(string, string)>, sources: seq<(string, Source)>,
                                    fs: map<Url, Bytes>, lookup: MimeLookup)
    requires Encoding(boundary, properties, sources, fs, lookup).Success?
    requires properties != [] || sources != []
    ensures Occurs(Encode(Delimiter(boundary)), Encoding(boundary, properties, sources, fs, lookup).value, 0)
  {
    EncodingSuccess(boundary, properties, sources, fs, lookup);
    var open := Encode(Delimiter(boundary));
    var props := Encode(PropertiesText(boundary, properties));
    var files := Emit(PartsOf(boundary, sources, lookup), fs).bytes;
    if properties != [] {
      PropertiesOpenWithDelimiter(boundary, properties);
      OccursInFront(open, props, files, Encode(ClosingLine(boundary)), 0);
    } else {
      PartsOpenWithDelimiter(boundary, sources, fs, lookup);
      OccursInMiddle(open, props, files, Encode(ClosingLine(boundary)), 0);
    }
  }

  lemma PropertiesOpenWithDelimiter(boundary: string, properties: seq<(string, string)>)
    requires properties != []
    ensures Occurs(Encode(Delimiter(boundary)), Encode(PropertiesText(boundary, properties)), 0)
  {
    var p := properties[0];
    PropertyAt(boundary, properties, 0);
    assert properties[..0] == [];
    PropertyOpensWithDelimiter(boundary, p.0, p.1);
    OccursWithin(Encode(Delimiter(boundary)), Encode(PropertyText(boundary, p.0, p.1)), Encode(PropertiesText(boundary, properties)), 0, 0);
  }

  lemma PartsOpenWithDelimiter(boundary: string, sources: seq<(string, Source)>, fs: map<Url, Bytes>, lookup: MimeLookup)
    requires sources != [] && AllReadable(sources, fs)
    ensures Occurs(Encode(Delimiter(boundary)), Emit(PartsOf(boundary, sources, lookup), fs).bytes, 0)
  {
    var parts := PartsOf(boundary, sources, lookup);
    var s := sources[0];
    PartsOfUrls(boundary, sources, lookup);
    var block := Block(parts[0], fs[s.1.url]);
    assert Occurs(Encode(Delimiter(boundary)), block, 0) by {
      var m := MimeType(lookup, s.1.url);
      PartHeader(boundary, sources, lookup, 0, m);
      PartOpensWithDelimiter(boundary, s.0, s.1.name, m, s.1.url, fs[s.1.url]);
    }
    EmitAt(parts, fs, 0);
    OccursWithin(Encode(Delimiter(boundary)), block, Emit(parts, fs).bytes, 0, 0);
  }

  /** Every text property's block appears whole in the body, after the
      blocks of the properties before it. */
  lemma EncodingContainsProperty(boundary: string, properties: seq<(string, string)>, sources: seq<(string, Source)>,
                                 fs: map<Url, Bytes>, lookup: MimeLookup, i: nat)
    requires Encoding(boundary, properties, sources, fs, lookup).Success? && i < |properties|
    ensures Occurs(Encode(PropertyText(boundary, properties[i].0, properties[i].1)),
                   Encoding(boundary, properties, sources, fs, lookup).value,
                   |Encode(PropertiesText(boundary, properties[..i]))|)
  {
    var props := Encode(PropertiesText(boundary, properties));
    var files := Emit(PartsOf(boundary, sources, lookup), fs).bytes;
    var closing := Encode(ClosingLine(boundary));
    assert Encoding(boundary, properties, sources, fs, lookup).value == props + files + closing;
    PropertyAt(boundary, properties, i);
    OccursInFront(Encode(PropertyText(boundary, properties[i].0, properties[i].1)), props, files, closing,
      |Encode(PropertiesText(boundary, properties[..i]))|);
  }

  /** Every file part's block, its headers and then all of its file's
      bytes, appears whole in the body, after all the text properties and
      the blocks of the sources before it. `parts` names the prepared
      parts, `props` the encoded properties and `body` the encoded body. */
  lemma EncodingContainsSource(boundary: string, properties: seq<(string, string)>, sources: seq<(string, Source)>,
                               fs: map<Url, Bytes>, lookup: MimeLookup, j: nat,
                               parts: seq<Part>, props: Bytes, body: Bytes)
    requires Encoding(boundary, properties, sources, fs, lookup) == Success(body) && j < |sources|
    requires parts == PartsOf(boundary, sources, lookup) && props == Encode(PropertiesText(boundary, properties))
    ensures sources[j].1.url in fs && j < |parts| && parts[j].url == sources[j].1.url
    ensures Occurs(Block(parts[j], fs[parts[j].url]), body, |props| + |Emit(parts[..j], fs).bytes|)
  {
    var close := Encode(ClosingLine(boundary));
    assert AllReadable(sources, fs) && body == props + Emit(parts, fs).bytes + close by {
      EncodingSuccess(boundary, properties, sources, fs, lookup);
    }
    assert forall k :: 0 <= k < |parts| ==> parts[k].url in fs by {
      PartsReadable(boundary, sources, fs, lookup);
    }
    assert sources[j].1.url in fs && parts[j].url == sources[j].1.url by {
      PartsOfUrls(boundary, sources, lookup);
    }
    PartInBody(body, props, parts, fs, close, j);
  }

  /** A body is the properties, the file parts and the closing line, and
      there is one only when every file could be read. */
  lemma EncodingSuccess(boundary: string, properties: seq<(string, string)>, sources: seq<(string, Source)>,
                        fs: map<Url, Bytes>, lookup: MimeLookup)
    requires Encoding(boundary, properties, sources, fs, lookup).Success?
    ensures AllReadable(sources, fs)
    ensures Encoding(boundary, properties, sources, fs, lookup).value
      == Encode(PropertiesText(boundary, properties)) + Emit(PartsOf(boundary, sources, lookup), fs).bytes + Encode(ClosingLine(boundary))
  {
    FaultIffMissing(boundary, sources, fs, lookup);
  }

  /** The block of a source's part: its header lines, then its file. */
  lemma SourceBlock(boundary: string, sources: seq<(string, Source)>, fs: map<Url, Bytes>, lookup: MimeLookup, j: nat)
    requires j < |sources| && sources[j].1.url in fs
    ensures PartsOf(boundary, sources, lookup)[j].url == sources[j].1.url
    ensures Block(PartsOf(boundary, sources, lookup)[j], fs[sources[j].1.url])
      == Encode(SourceHeader(boundary, sources[j].0, sources[j].1.name, MimeType(lookup, sources[j].1.url))) + fs[sources[j].1.url] + Crlf
  {
    PartOf(boundary, sources, lookup, j);
  }

  /** With every file there, a part's block sits in the body right after
      whatever precedes the parts and the blocks of the parts before it. */
  lemma PartInBody(body: Bytes, before: Bytes, parts: seq<Part>, fs: map<Url, Bytes>, after: Bytes, j: nat)
    requires body == before + Emit(parts, fs).bytes + after
    requires j < |parts| && forall k :: 0 <= k < |parts| ==> parts[k].url in fs
    ensures Occurs(Block(parts[j], fs[parts[j].url]), body, |before| + |Emit(parts[..j], fs).bytes|)
  {
    EmitAt(parts, fs, j);
    OccursInMiddle(Block(parts[j], fs[parts[j].url]), before, Emit(parts, fs).bytes, after, |Emit(parts[..j], fs).bytes|);
  }

  /** The body takes as many bytes as its property blocks, its file blocks
      and the closing line together; nothing else is written. */
  lemma EncodingLength(boundary: string, properties: seq<(string, string)>, sources: seq<(string, Source)>,
                       fs: map<Url, Bytes>, lookup: MimeLookup)
    requires Encoding(boundary, properties, sources, fs, lookup).Success?
    ensures |Encoding(boundary, properties, sources, fs, lookup).value|
      == SumOf(properties, PropertySize(boundary)) + SumOf(sources, SourceSize(boundary, fs, lookup)) + |Encode(ClosingLine(boundary))|
  {
    FaultIffMissing(boundary, sources, fs, lookup);
    var parts := PartsOf(boundary, sources, lookup);
    PartsOfUrls(boundary, sources, lookup);
    EmitLength(parts, fs);
    PartsSize(boundary, sources, fs, lookup);
    PropertiesLength(boundary, properties);
  }

  /**
    Dictionary order does not matter: reordering the properties and the
    sources changes neither whether encoding succeeds nor the body's length.
  */
  lemma EncodingOrderFree(boundary: string, properties: seq<(string, string)>, properties': seq<(string, string)>,
                          sources: seq<(string, Source)>, sources': seq<(string, Source)>, fs: map<Url, Bytes>, lookup: MimeLookup)
    requires multiset(properties) == multiset(properties') && multiset(sources) == multiset(sources')
    ensures Encoding(boundary, properties, sources, fs, lookup).Success? <==> Encoding(boundary, properties', sources', fs, lookup).Success?
    ensures Encoding(boundary, properties, sources, fs, lookup).Success? ==>
      |Encoding(boundary, properties, sources, fs, lookup).value| == |Encoding(boundary, properties', sources', fs, lookup).value|
  {
    EncodingFailure(boundary, properties, sources, fs, lookup);
    EncodingFailure(boundary, properties', sources', fs, lookup);
    AllReadablePermutation(sources, sources', fs);
    if AllReadable(sources, fs) {
      EncodingLength(boundary, properties, sources, fs, lookup);
      EncodingLength(boundary, properties', sources', fs, lookup);
      SumOfPermutation(properties, properties', PropertySize(boundary));
      SumOfPermutation(sources, sources', SourceSize(boundary, fs, lookup));
    }
  }

  // ---------------------------------------------------------------------
  // Worked examples
  // ---------------------------------------------------------------------

  /** The text of a form with the properties `name` = `steve` and `age` =
      `40`: the two property blocks, then the closing line. */
  lemma PropertiesExampleText(boundary: string)
    ensures PropertiesText(boundary, [("name", "steve"), ("age", "40")]) + ClosingLine(boundary)
      == ("--" + boundary + "\r\n" + "Content-Disposition: form-data; name=\"name\"\r\n\r\n" + "steve\r\n")
       + ("--" + boundary + "\r\n" + "Content-Disposition: form-data; name=\"age\"\r\n\r\n" + "40\r\n")
       + ("--" + boundary + "--\r\n")
  {
    var ps := [("name", "steve"), ("age", "40")];
    assert ps[..1][..0] == [];
    assert PropertiesText(boundary, ps) == PropertyText(boundary, "name", "steve") + PropertyText(boundary, "age", "40");
    assert PropertyDisposition("name") == "Content-Disposition: form-data; name=\"name\"\r\n\r\n";
    assert PropertyDisposition("age") == "Content-Disposition: form-data; name=\"age\"\r\n\r\n";
    assert "steve" + LineBreak == "steve\r\n";
    assert "40" + LineBreak == "40\r\n";
  }

  /** A form without files never fails: its body is the properties' text
      and the closing line, encoded. */
  lemma NoSourcesEncoding(boundary: string, properties: seq<(string, string)>, fs: map<Url, Bytes>, lookup: MimeLookup)
    ensures Encoding(boundary, properties, [], fs, lookup) == Success(Encode(PropertiesText(boundary, properties) + ClosingLine(boundary)))
  {
    var props, close := PropertiesText(boundary, properties), ClosingLine(boundary);
    assert PartsOf(boundary, [], lookup) == [];
    assert Encode(props) + [] == Encode(props);
    EncodeConcat(props, close);
  }

  /** The form with `name` = `steve` and `age` = `40` and no files: its
      body is that text, encoded. */
  lemma PropertiesExample(boundary: string, fs: map<Url, Bytes>, lookup: MimeLookup)
    ensures Encoding(boundary, [("name", "steve"), ("age", "40")], [], fs, lookup)
      == Success(Encode(
           ("--" + boundary + "\r\n" + "Content-Disposition: form-data; name=\"name\"\r\n\r\n" + "steve\r\n")
         + ("--" + boundary + "\r\n" + "Content-Disposition: form-data; name=\"age\"\r\n\r\n" + "40\r\n")
         + ("--" + boundary + "--\r\n")))
  {
    NoSourcesEncoding(boundary, [("name", "steve"), ("age", "40")], fs, lookup);
    PropertiesExampleText(boundary);
  }

  /** A form with one file and no properties, when the file can be read:
      the part's header lines, the file, a line break and the closing line. */
  lemma SingleSourceEncoding(boundary: string, key: string, source: Source, fs: map<Url, Bytes>, lookup: MimeLookup)
    requires source.url in fs
    ensures Encoding(boundary, [], [(key, source)], fs, lookup)
      == Success(SourcePart(boundary, key, source, lookup).header + fs[source.url] + Encode(LineBreak + ClosingLine(boundary)))
  {
    var sources := [(key, source)];
    var parts := PartsOf(boundary, sources, lookup);
    PartsOfUrls(boundary, sources, lookup);
    PartOf(boundary, sources, lookup, 0);
    assert parts[..0] == [];
    var part := SourcePart(boundary, key, source, lookup);
    assert Emit(parts, fs) == Emission(Block(part, fs[source.url]), None);
    var close := ClosingLine(boundary);
    EncodeConcat(LineBreak, close);
    LineBreakBytes();
    assert Encode(PropertiesText(boundary, [])) == [];
    AppendAssociates(part.header + fs[source.url], Crlf, Encode(close));
  }

  /** A file whose name has no dot has no extension; a lookup that knows no
      type for the empty extension sends it as an octet stream. */
  lemma NoExtension(dir: string, name: string, lookup: MimeLookup)
    requires name != [] && '/' !in name && '.' !in name
    requires var id := lookup.identifierFor(""); id.None? || lookup.mimeTypeFor(id.value).None?
    ensures LastPathComponent(dir + "/" + name) == name
    ensures MimeType(lookup, Url(dir + "/" + name)) == OctetStream
  {
    LastPathComponentOfChild(dir, name);
    LastIndexOfSpec(name, '.');
    assert PathExtension(dir + "/" + name) == "";
    MimeTypeFallback(lookup, Url(dir + "/" + name));
  }

  /** The header lines of a file part under the key `file`, sent as an octet stream. */
  lemma SourceExampleText(boundary: string, name: string)
    ensures SourceHeader(boundary, "file", name, OctetStream)
      == "--" + boundary + "\r\n"
       + ("Content-Disposition: form-data; name=\"file\"; filename=\"" + name + "\"\r\n")
       + "Content-Type: application/octet-stream\r\n\r\n"
  {
    FileKeyText();
    OctetStreamLineText();
  }

  /** The start of the `Content-Disposition` line of a part under the key `file`. */
  lemma FileKeyText()
    ensures NameParameter + "file" + FilenameParameter == "Content-Disposition: form-data; name=\"file\"; filename=\""
  {
  }

  /** The `Content-Type` line of an octet stream, with the blank line after it. */
  lemma OctetStreamLineText()
    ensures ContentTypeLine(OctetStream) == "Content-Type: application/octet-stream\r\n\r\n"
  {
  }

  /** A form with one file under the key `file`, sent by its bare URL: the
      file is named after its last path component and, having no
      extension, is sent as an octet stream. */
  lemma SourceExample(boundary: string, dir: string, name: string, fs: map<Url, Bytes>, lookup: MimeLookup)
    requires name != [] && '/' !in name && '.' !in name
    requires var id := lookup.identifierFor(""); id.None? || lookup.mimeTypeFor(id.value).None?
    requires Url(dir + "/" + name) in fs
    ensures var url := Url(dir + "/" + name);
      Encoding(boundary, [], [("file", SourceOfUrl(url))], fs, lookup)
      == Success(Encode("--" + boundary + "\r\n"
                        + ("Content-Disposition: form-data; name=\"file\"; filename=\"" + name + "\"\r\n")
                        + "Content-Type: application/octet-stream\r\n\r\n")
                 + fs[url] + Encode("\r\n" + ("--" + boundary + "--\r\n")))
  {
    var url := Url(dir + "/" + name);
    var source := SourceOfUrl(url);
    NoExtension(dir, name, lookup);
    SourceExampleText(boundary, name);
    assert SourcePart(boundary, "file", source, lookup).header == Encode(SourceHeader(boundary, "file", name, OctetStream));
    SingleSourceEncoding(boundary, "file", source, fs, lookup);
  }

  // ---------------------------------------------------------------------
  // The encoder object
  // ---------------------------------------------------------------------

  /** `"\r\n"` is the two bytes `Crlf`. */
  lemma LineBreakBytes()
    ensures Encode(LineBreak) == Crlf
  {
    EncodeAscii(LineBreak);
  }

  /** Appending a file part's three header strings one after another writes its header. */
  lemma SourceHeaderPieces(boundary: string, key: string, filename: string, mime: string)
    ensures Encode(SourceHeader(boundary, key, filename, mime))
      == Encode(Delimiter(boundary)) + Encode(SourceDisposition(key, filename)) + Encode(ContentTypeLine(mime))
  {
    var d, n, t := Delimiter(boundary), SourceDisposition(key, filename), ContentTypeLine(mime);
    EncodeConcat(d + n, t);
    EncodeConcat(d, n);
  }

  /** Appending a property's three strings one after another writes its block. */
  lemma PropertyTextPieces(boundary: string, key: string, value: string)
    ensures Encode(PropertyText(boundary, key, value))
      == Encode(Delimiter(boundary)) + Encode(PropertyDisposition(key)) + Encode(value + LineBreak)
  {
    var d, n := Delimiter(boundary), PropertyDisposition(key);
    EncodeConcat(d + n, value + LineBreak);
    EncodeConcat(d, n);
  }

  /** The `j`-th part's header is the source's header lines with the MIME type `mimetype` the lookup gives. */
  lemma PartHeader(boundary: string, sources: seq<(string, Source)>, lookup: MimeLookup, j: nat, mimetype: string)
    requires j < |sources| && mimetype == MimeType(lookup, sources[j].1.url)
    ensures PartsOf(boundary, sources, lookup)[j]
      == Part(Encode(SourceHeader(boundary, sources[j].0, sources[j].1.name, mimetype)), sources[j].1.url)
  {
    PartOf(boundary, sources, lookup, j);
  }

  /** One more part, after parts that were all emitted whole. */
  lemma EmitNext(parts: seq<Part>, fs: map<Url, Bytes>, j: nat)
    requires j < |parts| && Emit(parts[..j], fs).fault.None?
    ensures var e := Emit(parts[..j], fs);
      Emit(parts[..j + 1], fs) ==
        if parts[j].url in fs then Emission(e.bytes + Block(parts[j], fs[parts[j].url]), None)
        else Emission(e.bytes + parts[j].header, Some(CannotOpen(parts[j].url)))
  {
    assert parts[..j + 1][..j] == parts[..j];
  }

  /** Once a part stops the emission, the parts after it change nothing. */
  lemma EmitStops(parts: seq<Part>, fs: map<Url, Bytes>, j: nat)
    requires j <= |parts| && Emit(parts[..j], fs).fault.Some?
    ensures Emit(parts, fs) == Emit(parts[..j], fs)
  {
    assert parts == parts[..j] + parts[j..];
    EmitAppend(parts[..j], parts[j..], fs);
  }

  /**
    `MultipartFormData`: the text properties and the file sources, each in
    the iteration order of its dictionary, and the boundary fixed when the
    object is made. `lookup` stands for the system's type database that
    `mimeType(for:)` consults.
  */
  class MultipartFormData {
    const properties: seq<(string, string)>
    const sources: seq<(string, Source)>
    const boundary: string
    const lookup: MimeLookup

    /** `init(properties:sources:)`; `uuid` is the identifier the boundary is made from. */
    constructor (uuid: string, properties: seq<(string, string)>, sources: seq<(string, Source)>, lookup: MimeLookup)
      ensures this.boundary == "Boundary-" + uuid
      ensures this.properties == properties && this.sources == sources && this.lookup == lookup
    {
      this.boundary := "Boundary-" + uuid;
      this.properties := properties;
      this.sources := sources;
      this.lookup := lookup;
    }

    /** `contentType`: the header value that announces this form's boundary. */
    function ContentType(): (r: string)
      ensures BoundaryOf(r) == Some(boundary)
      ensures |r| == |ContentTypePrefix| + |boundary|
    {
      var r := ContentTypePrefix + boundary;
      assert r[..|ContentTypePrefix|] == ContentTypePrefix;
      assert r[|ContentTypePrefix|..] == boundary;
      r
    }

    /** One turn of `writeProperties`' loop: the three strings of one property. */
    method WriteProperty(target: Sink, key: string, value: string)
      modifies target
      ensures target.bytes == old(target.bytes) + Encode(PropertyText(boundary, key, value))
    {
      ghost var start := target.bytes;
      ghost var d, n, v := Encode(Delimiter(boundary)), Encode(PropertyDisposition(key)), Encode(value + LineBreak);
      target.AppendText(Delimiter(boundary));
      target.AppendText(PropertyDisposition(key));
      target.AppendText(value + LineBreak);
      PropertyTextPieces(boundary, key, value);
      AppendAssociates(start, d, n);
      AppendAssociates(start, d + n, v);
    }

    /** `writeProperties(to:)`: each property's delimiter line, its
        `Content-Disposition` header and its value, in iteration order. */
    method WriteProperties(target: Sink)
      modifies target
      ensures target.bytes == old(target.bytes) + Encode(PropertiesText(boundary, properties))
    {
      var i := 0;
      while i < |properties|
        invariant i <= |properties|
        invariant target.bytes == old(target.bytes) + Encode(PropertiesText(boundary, properties[..i]))
      {
        var key, value := properties[i].0, properties[i].1;
        ghost var done := PropertiesText(boundary, properties[..i]);
        WriteProperty(target, key, value);
        assert properties[..i + 1][..i] == properties[..i];
        assert PropertiesText(boundary, properties[..i + 1]) == done + PropertyText(boundary, key, value);
        EncodeConcat(done, PropertyText(boundary, key, value));
        AppendAssociates(old(target.bytes), Encode(done), Encode(PropertyText(boundary, key, value)));
        i := i + 1;
      }
      assert properties[..i] == properties;
    }

    /** The header lines `writeSources` appends for one source, ahead of its file. */
    method WriteSourceHeader(target: Sink, key: string, filename: string, mimetype: string)
      modifies target
      ensures target.bytes == old(target.bytes) + Encode(SourceHeader(boundary, key, filename, mimetype))
    {
      ghost var start := target.bytes;
      ghost var d, n, t := Encode(Delimiter(boundary)), Encode(SourceDisposition(key, filename)), Encode(ContentTypeLine(mimetype));
      target.AppendText(Delimiter(boundary));
      target.AppendText(SourceDisposition(key, filename));
      target.AppendText(ContentTypeLine(mimetype));
      SourceHeaderPieces(boundary, key, filename, mimetype);
      AppendAssociates(start, d, n);
      AppendAssociates(start, d + n, t);
    }

    /** One turn of `writeSources`' loop: a source's header lines, then,
        when its file can be opened, the file's bytes and a line break. */
    method WriteSource(target: Sink, key: string, source: Source, mimetype: string, fs: map<Url, Bytes>)
      returns (outcome: Outcome<Fault>)
      modifies target
      ensures var part := Part(Encode(SourceHeader(boundary, key, source.name, mimetype)), source.url);
        if source.url in fs
        then outcome == Pass && target.bytes == old(target.bytes) + Block(part, fs[source.url])
        else outcome == Fail(CannotOpen(source.url)) && target.bytes == old(target.bytes) + part.header
    {
      WriteSourceHeader(target, key, source.name, mimetype);
      ghost var chunks;
      outcome, chunks := target.AppendFileAt(source.url, MaxChunk, fs);
      if outcome.Pass? {
        target.AppendText(LineBreak);
        LineBreakBytes();
      }
    }

    /**
      `writeSources(to:)`: for each source its delimiter line, its
      `Content-Disposition` header with the file name, its `Content-Type`
      header, the file's bytes and a line break. A file that cannot be
      opened stops the loop right after its headers.
    */
    method WriteSources(target: Sink, fs: map<Url, Bytes>) returns (outcome: Outcome<Fault>)
      modifies target
      ensures var e := Emit(PartsOf(boundary, sources, lookup), fs);
        && target.bytes == old(target.bytes) + e.bytes
        && (outcome.Pass? <==> e.fault.None?)
        && (outcome.Fail? ==> e.fault == Some(outcome.error))
    {
      ghost var parts := PartsOf(boundary, sources, lookup);
      PartsOfUrls(boundary, sources, lookup);
      var j := 0;
      while j < |sources|
        invariant j <= |sources| == |parts|
        invariant Emit(parts[..j], fs).fault.None?
        invariant target.bytes == old(target.bytes) + Emit(parts[..j], fs).bytes
      {
        ghost var done := Emit(parts[..j], fs).bytes;
        var mimetype := MimeType(lookup, sources[j].1.url);
        var appended := WriteSource(target, sources[j].0, sources[j].1, mimetype, fs);
        PartHeader(boundary, sources, lookup, j, mimetype);
        EmitNext(parts, fs, j);
        if appended.Fail? {
          AppendAssociates(old(target.bytes), done, parts[j].header);
          EmitStops(parts, fs, j + 1);
          return appended;
        }
        AppendAssociates(old(target.bytes), done, Block(parts[j], fs[parts[j].url]));
        j := j + 1;
      }
      assert parts[..j] == parts;
      outcome := Pass;
    }

    /** `process(with:)`: the properties, then the sources, then, if every
        file could be read, the closing delimiter line. */
    method Process(target: Sink, fs: map<Url, Bytes>) returns (outcome: Outcome<Fault>)
      modifies target
      ensures target.bytes == old(target.bytes) + Emitted(boundary, properties, sources, fs, lookup)
      ensures outcome.Pass? <==> Encoding(boundary, properties, sources, fs, lookup).Success?
      ensures outcome.Fail? ==> Encoding(boundary, properties, sources, fs, lookup) == Failure(outcome.error)
    {
      ghost var start := target.bytes;
      ghost var props := Encode(PropertiesText(boundary, properties));
      ghost var e := Emit(PartsOf(boundary, sources, lookup), fs);
      WriteProperties(target);
      outcome := WriteSources(target, fs);
      AppendAssociates(start, props, e.bytes);
      if outcome.Fail? {
        assert Emitted(boundary, properties, sources, fs, lookup) == props + e.bytes + [];
        return;
      }
      target.AppendText(ClosingLine(boundary));
      AppendAssociates(start, props + e.bytes, Encode(ClosingLine(boundary)));
    }

    /** `data()`: the body, built in a fresh in-memory buffer, or the fault
        that stopped it. */
    method Data(fs: map<Url, Bytes>) returns (r: Result<Bytes, Fault>)
      ensures r == Encoding(boundary, properties, sources, fs, lookup)
    {
      var buffer := new Sink(Memory);
      var outcome := Process(buffer, fs);
      if outcome.Fail? {
        return Failure(outcome.error);
      }
      assert buffer.bytes == Emitted(boundary, properties, sources, fs, lookup);
      r := Success(buffer.bytes);
    }

    /**
      `write(to:)`: create the destination file empty (or fail with
      `Error.unknown` when it cannot be created, nothing written), then
      stream the body into it. `creatable` is whether the file system lets
      the file be created; `written` is what the destination holds after.
    */
    method WriteTo(destination: Url, creatable: bool, fs: map<Url, Bytes>) returns (outcome: Outcome<Fault>, written: Option<Bytes>)
      ensures !creatable ==> outcome == Fail(Raised(Unknown)) && written == None
      ensures creatable ==> written == Some(Emitted(boundary, properties, sources, fs, lookup))
      ensures creatable ==> (outcome.Pass? <==> Encoding(boundary, properties, sources, fs, lookup).Success?)
      ensures creatable && outcome.Fail? ==> Encoding(boundary, properties, sources, fs, lookup) == Failure(outcome.error)
    {
      if !creatable {
        return Fail(Raised(Unknown)), None;
      }
      var writer := new Sink(FileHandle(destination));
      outcome := Process(writer, fs);
      assert writer.bytes == Emitted(boundary, properties, sources, fs, lookup);
      written := Some(writer.bytes);
    }
  }

  /**
    When the destination can be created, writing a form to it leaves in
    it exactly the bytes `data()` returns for the same form, and one fails
    exactly when the other does. When it cannot, `write(to:)` throws
    `unknown` and writes nothing, whatever `data()` returns.
  */
  method DataMatchesWrite(form: MultipartFormData, destination: Url, creatable: bool, fs: map<Url, Bytes>)
    returns (data: Result<Bytes, Fault>, outcome: Outcome<Fault>, written: Option<Bytes>)
    ensures creatable ==> (data.Success? <==> outcome.Pass?)
    ensures creatable && data.Success? ==> written == Some(data.value)
    ensures creatable && data.Failure? ==> outcome == Fail(data.error)
    ensures !creatable ==> outcome == Fail(Raised(Unknown)) && written == None
  {
    data := form.Data(fs);
    outcome, written := form.WriteTo(destination, creatable, fs);
  }
}
