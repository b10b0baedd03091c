# MultipartFormData in Dafny

A model of the core of MultipartFormData, a small Swift library that builds
`multipart/form-data` request bodies. A `MultipartFormData` object holds text
properties (a dictionary of key to value) and file sources (a dictionary of key
to a named file URL). It writes them into a `Writable` sink: an in-memory
`Data` for `data()`, or a freshly created file for `write(to:)`. Each property
becomes a delimiter line, a `Content-Disposition` header and the value. Each
source becomes a delimiter line, a `Content-Disposition` header with the file
name, a `Content-Type` header with the MIME type its extension maps to, the
file's bytes, and a line break. The body ends with the closing delimiter line.
Files are copied in chunks of at most 1 000 000 bytes. The older appender,
`appendFile(at:chunkSize:)`, copies a whole file. The newer one,
`appendFile(_:)`, copies only the window that a `MultipartFormDataFile`'s
optional offset and length select.

Modules:

- `Wrappers`: `Option`, `Result` and `Outcome`.
- `Utf8`: the UTF-8 encoding that every appended string goes through, as
  bytes (`byte` is an `int` in 0..255).
- `Sources` (`Sources.swift`): the file value `FormDataFile`, `File.init`,
  the URL conformance with Foundation's `lastPathComponent`, `Property` and
  `Error`.
- `Writable` (`Writable.swift` and the older appender in
  `MultipartFormData.swift`):
  - the window of a file and `getChunkSize` (`ChunkSize`);
  - a `Reader` class standing for a read `FileHandle`;
  - a `Sink` class standing for either `Writable` conformance;
  - both appenders, as loops proved against the window.
- `Seqs`: mapping over sequences, sums, and the `Occurs` relation (a block
  sitting at an index of a byte string).
- `FormEncoder` (`MultipartFormData.swift`):
  - the framing text and `mimeType(for:)`;
  - the specification functions `Emit`, `Emitted` and `Encoding`, which
    give the body as a function of the form and the file system;
  - lemmas about that body;
  - the class `MultipartFormData`, whose methods `WriteProperties`,
    `WriteSources`, `Process`, `Data` and `WriteTo` are loops and state
    changes proved to produce exactly `Emitted`/`Encoding`.

The file system is a value `map<Url, Bytes>`; a URL missing from it is a file
that cannot be opened. Dictionaries are sequences of pairs in their iteration
order.

## Model

| member | source | states |
|---|---|---|
| Sources.OfUrl | MultipartFormData/Sources.swift:25-30 | a bare URL used as a file is named by its last path component and has no offset and no length |
| Sources.FileInit | MultipartFormData/Sources.swift:52-57 | a missing name defaults to the URL's last path component; URL, offset and length are kept as given |
| Sources.FileInitDefaultsToUrl | MultipartFormData/Sources.swift:52-57 | a `File` built from a URL alone is the same file value as the bare URL |
| Sources.StripTrailingSlashesSpec | MultipartFormData/Sources.swift:26 | stripping trailing slashes leaves a prefix that does not end in a slash, and only slashes are cut |
| Sources.AfterLastSlashSpec | MultipartFormData/Sources.swift:26 | what follows the last slash is a slash-free suffix, preceded by a slash unless it is the whole path, and non-empty when the path does not end in a slash |
| Sources.LastPathComponentSpec | MultipartFormData/Sources.swift:26 | the last path component is empty exactly for the empty path, and holds a slash only when it is the root "/" |
| Sources.LastPathComponentOfChild | MultipartFormData/Sources.swift:53 | the last component of `dir/name` is `name` when `name` is non-empty and slash-free |
| Sources.AfterLastSlashOfChild | MultipartFormData/Sources.swift:26 | the text after the last slash of `dir/name` is `name` when `name` has no slash |
| Utf8.EncodeScalar | MultipartFormData/MultipartFormData.swift:27-30 | a scalar takes 1 to 4 bytes by its range; one byte equal to the code point exactly below 0x80; continuation bytes after a valid lead byte |
| Utf8.Encode | MultipartFormData/MultipartFormData.swift:27-30 | a string's UTF-8 bytes number between its length and four times its length; only the empty string encodes to nothing |
| Utf8.EncodeConcat | MultipartFormData/MultipartFormData.swift:27-30 | appending two strings one after the other appends the encoding of their concatenation |
| Utf8.EncodeAscii | MultipartFormData/MultipartFormData.swift:27-30 | an ASCII string encodes to its own code points, one byte each |
| Writable.WindowCases | MultipartFormData/Writable.swift:27-54 | the window copied for each combination of offset and length: the whole file, from the offset to offset+length or the end of the file, a prefix, or nothing past the end; never longer than the length |
| Writable.ChunkSize | MultipartFormData/Writable.swift:38-46 | `getChunkSize`: 1 000 000 without a length; with one, 0 exactly when the position has reached offset+length, otherwise a full chunk or exactly what remains of the window; an offset+length beyond `UInt64` is a fault |
| Writable.ChunkReadStaysInWindow | MultipartFormData/Writable.swift:38-46 | a read sized by `getChunkSize` from inside the window ends at the next chunk boundary or at the window's end |
| Writable.NextChunk | MultipartFormData/Writable.swift:48-51 | a read sized by `getChunkSize` from `i` bytes into the window returns the window's next chunk from `i` |
| Writable.FewestReads | MultipartFormData/Writable.swift:48-52 | the number of appends the loops make is the fewest chunk-sized reads covering the bytes copied: none for nothing, one for at most a chunk, k for k full chunks |
| Writable.Reader.constructor | MultipartFormData/Writable.swift:28 | a reader opened on a file stands at offset 0 |
| Writable.Reader.Seek | MultipartFormData/Writable.swift:30-36 | seeking sets the position to the offset given |
| Writable.Reader.ReadData | MultipartFormData/Writable.swift:48 | a read returns up to the length asked from the position, fewer at the end of the file, and moves the position past them |
| Writable.Reader.ReadChunk | MultipartFormData/Writable.swift:48-51 | a read sized by `getChunkSize` returns the window's next chunk and advances by its length |
| Writable.Sink.constructor | MultipartFormData/MultipartFormData.swift:86 | a new sink (an empty `Data`, or a file just created empty) holds no bytes |
| Writable.Sink.AppendBytes | MultipartFormData/Writable.swift:63-65 | `append(Data)` adds exactly those bytes at the end |
| Writable.Sink.AppendText | MultipartFormData/Writable.swift:57-76 | `append(String)` adds exactly the string's UTF-8 bytes at the end |
| Writable.Sink.AppendFileAt | MultipartFormData/MultipartFormData.swift:39-47 | a file that cannot be opened is a fault with nothing appended; otherwise the whole file is appended, in the fewest chunk-sized reads (nothing for a chunk size of 0) |
| Writable.Sink.AppendFile | MultipartFormData/Writable.swift:27-54 | a file that cannot be opened, or an offset+length overflowing `UInt64`, is a fault with nothing appended; otherwise exactly the file's window is appended, in the fewest 1 000 000-byte reads |
| Writable.WholeFileWindow | MultipartFormData/Sources.swift:28-29 | a bare URL's window is the whole file |
| Writable.StraddlingWindow | MultipartFormData/Writable.swift:38-46 | a window across a chunk boundary of the file is one chunk: chunks are counted from the window's start |
| Writable.SampleWindows | MultipartFormData/Writable.swift:27-54 | on a 25-byte file: offset 6 length 6, offset 6 alone, offset 30, and offset 18 with length 100 copy the bytes listed |
| Writable.AppendersAgree | MultipartFormData/MultipartFormData.swift:39-47 | on a bare URL the older appender at its default chunk size and the newer one append the same bytes, with the same outcome, in as many reads |
| FormEncoder.SourceOfUrl | MultipartFormData/MultipartFormData.swift:55-58 | a URL used as a source is named by its last path component, the same name the file value gets |
| FormEncoder.LastIndexOfSpec | MultipartFormData/MultipartFormData.swift:130 | the index found holds the character and no later index does; -1 means the character is absent |
| FormEncoder.PathExtensionSpec | MultipartFormData/MultipartFormData.swift:130 | the extension has no dot; when the last component has a dot after its first character it is the tail after the last dot (empty when the name ends in a dot), and otherwise it is empty |
| FormEncoder.MimeTypeFound | MultipartFormData/MultipartFormData.swift:129-136 | when the extension has a type identifier and that identifier a MIME type, that MIME type is used |
| FormEncoder.MimeTypeFallback | MultipartFormData/MultipartFormData.swift:129-136 | when either lookup finds nothing, `application/octet-stream` is used |
| FormEncoder.MimeTypeByExtension | MultipartFormData/MultipartFormData.swift:129-136 | two URLs with the same extension get the same MIME type |
| FormEncoder.UnknownExtension | MultipartFormData/MultipartFormData.swift:129-136 | a lookup that finds no MIME type for any extension (no identifier, or an identifier without one) sends every file as an octet stream |
| FormEncoder.NoExtension | MultipartFormData/MultipartFormData.swift:129-136 | a file whose name has no dot has the empty extension, and when the empty extension has no identifier or an identifier without a MIME type it is sent as an octet stream |
| FormEncoder.BoundaryOf | MultipartFormData/MultipartFormData.swift:76-78 | a header value yields a boundary only when it is the multipart prefix followed by that boundary |
| FormEncoder.MultipartFormData.ContentType | MultipartFormData/MultipartFormData.swift:76-78 | `contentType` announces exactly this form's boundary (`BoundaryOf` recovers it) and is the prefix plus the boundary in length |
| FormEncoder.MultipartFormData.constructor | MultipartFormData/MultipartFormData.swift:74-83 | the boundary is `Boundary-` followed by the identifier; properties and sources are kept as given |
| FormEncoder.Encoding | MultipartFormData/MultipartFormData.swift:103-107 | the body succeeds exactly when no file part faults, and is then everything `process` writes |
| FormEncoder.PropertiesTextAppend | MultipartFormData/MultipartFormData.swift:109-115 | writing two runs of properties writes the text of each in turn |
| FormEncoder.PropertyAt | MultipartFormData/MultipartFormData.swift:109-115 | every property's block appears whole in the properties' bytes, right after the blocks of the properties before it |
| FormEncoder.PropertiesLength | MultipartFormData/MultipartFormData.swift:109-115 | the properties' bytes are as long as the sum of their blocks |
| FormEncoder.FramingLengths | MultipartFormData/MultipartFormData.swift:106-123 | the byte lengths of the fixed pieces of the framing |
| FormEncoder.DelimiterLength | MultipartFormData/MultipartFormData.swift:111 | a delimiter line is the boundary's bytes plus 4 |
| FormEncoder.PropertyDispositionLength | MultipartFormData/MultipartFormData.swift:112 | a property's header is the key's bytes plus 43 |
| FormEncoder.PropertyBlockLength | MultipartFormData/MultipartFormData.swift:110-114 | a property's block is the boundary's, key's and value's bytes plus 49 |
| FormEncoder.SourceDispositionLength | MultipartFormData/MultipartFormData.swift:122 | a file part's `Content-Disposition` line is the key's and the file name's bytes plus 54 |
| FormEncoder.ContentTypeLineLength | MultipartFormData/MultipartFormData.swift:123 | a file part's `Content-Type` line and blank line are the MIME type's bytes plus 18 |
| FormEncoder.SourceBlockLength | MultipartFormData/MultipartFormData.swift:119-125 | a file part is the boundary's, key's, file name's and MIME type's bytes, the file, plus 78 |
| FormEncoder.EmitAppend | MultipartFormData/MultipartFormData.swift:117-127 | writing two runs of parts writes the first, then, unless it stopped at a fault, the second |
| FormEncoder.PartsOfPrefix | MultipartFormData/MultipartFormData.swift:118 | the parts of the first j sources are the first j parts |
| FormEncoder.PartOf | MultipartFormData/MultipartFormData.swift:118-123 | the j-th part is made from the j-th source |
| FormEncoder.PartsOfUrls | MultipartFormData/MultipartFormData.swift:118-124 | one part per source, each reading its own source's file |
| FormEncoder.EmitFaultIffMissing | MultipartFormData/MultipartFormData.swift:117-127 | writing the parts stops at a fault exactly when some part's file is missing |
| FormEncoder.FaultIffMissing | MultipartFormData/MultipartFormData.swift:117-127 | `writeSources` faults exactly when some source's file cannot be opened |
| FormEncoder.EmitFirstMissing | MultipartFormData/MultipartFormData.swift:117-127 | the fault names the first file that cannot be opened |
| FormEncoder.EmitAt | MultipartFormData/MultipartFormData.swift:117-127 | with every file there, each part's block appears whole right after the blocks before it |
| FormEncoder.EmitLength | MultipartFormData/MultipartFormData.swift:117-127 | with every file there, the parts' bytes are as long as the sum of their blocks |
| FormEncoder.AllReadablePermutation | MultipartFormData/MultipartFormData.swift:118 | whether every file can be opened does not depend on the iteration order |
| FormEncoder.PartsSize | MultipartFormData/MultipartFormData.swift:117-127 | the sum over parts equals the sum over the sources they come from |
| FormEncoder.EncodingFailure | MultipartFormData/MultipartFormData.swift:103-107 | the body succeeds exactly when every file can be opened; otherwise it fails with the first file that cannot be |
| FormEncoder.EncodingEndsWithClosingLine | MultipartFormData/MultipartFormData.swift:106 | a body ends with `--boundary--` CRLF |
| FormEncoder.PropertyOpensWithDelimiter | MultipartFormData/MultipartFormData.swift:111-113 | a property's block opens with the delimiter line |
| FormEncoder.PartOpensWithDelimiter | MultipartFormData/MultipartFormData.swift:121-125 | a file part's block opens with the delimiter line |
| FormEncoder.EncodingStartsWithDelimiter | MultipartFormData/MultipartFormData.swift:103-107 | a body with any part starts with the delimiter line: there is no preamble |
| FormEncoder.PropertiesOpenWithDelimiter | MultipartFormData/MultipartFormData.swift:109-115 | the properties' bytes open with the delimiter line |
| FormEncoder.PartsOpenWithDelimiter | MultipartFormData/MultipartFormData.swift:117-127 | the file parts' bytes open with the delimiter line |
| FormEncoder.EncodingContainsProperty | MultipartFormData/MultipartFormData.swift:103-115 | every property's block appears whole in the body, after the blocks of the properties before it |
| FormEncoder.EncodingContainsSource | MultipartFormData/MultipartFormData.swift:103-127 | every file part's block, with the file's bytes, appears whole in the body, after all properties and the parts before it |
| FormEncoder.EncodingSuccess | MultipartFormData/MultipartFormData.swift:103-107 | a successful body is the properties, then the file parts, then the closing line |
| FormEncoder.SourceBlock | MultipartFormData/MultipartFormData.swift:119-125 | a file part is its header lines (with the file name and MIME type), the file's bytes and CRLF |
| FormEncoder.PartInBody | MultipartFormData/MultipartFormData.swift:117-127 | a part's block sits in the body right after what precedes the parts and the blocks before it |
| FormEncoder.EncodingLength | MultipartFormData/MultipartFormData.swift:103-127 | a body's length is the sum of the property blocks, the sum of the file parts and the closing line |
| FormEncoder.EncodingOrderFree | MultipartFormData/MultipartFormData.swift:103-127 | reordering the dictionaries changes neither whether the body succeeds nor its length |
| FormEncoder.NoSourcesEncoding | MultipartFormData/MultipartFormData.swift:103-115 | a form without files never fails; its body is the properties' text and the closing line |
| FormEncoder.PropertiesExampleText | MultipartFormDataTests/MultipartFormDataTests.swift:29-33 | the text for `name` = `steve` and `age` = `40` is the two property blocks and the closing line, written out |
| FormEncoder.PropertiesExample | MultipartFormDataTests/MultipartFormDataTests.swift:21-44 | the body of that form is exactly that text, encoded |
| FormEncoder.SingleSourceEncoding | MultipartFormData/MultipartFormData.swift:117-127 | a form with one readable file is its header lines, the file, CRLF and the closing line |
| FormEncoder.SourceExampleText | MultipartFormDataTests/MultipartFormDataTests.swift:82-85 | the header lines for key `file` sent as an octet stream, written out |
| FormEncoder.SourceExample | MultipartFormDataTests/MultipartFormDataTests.swift:71-96 | a form with one extension-less file sent by its URL, whose empty extension gives no MIME type, is those header lines, the file and the closing line |
| FormEncoder.LineBreakBytes | MultipartFormData/MultipartFormData.swift:125 | CRLF encodes to bytes 13, 10 |
| FormEncoder.SourceHeaderPieces | MultipartFormData/MultipartFormData.swift:121-123 | a file part's header is the three appended strings' bytes in turn |
| FormEncoder.PropertyTextPieces | MultipartFormData/MultipartFormData.swift:111-113 | a property's block is the three appended strings' bytes in turn |
| FormEncoder.PartHeader | MultipartFormData/MultipartFormData.swift:118-123 | the j-th part's header carries the j-th key, file name and the MIME type of its URL |
| FormEncoder.EmitNext | MultipartFormData/MultipartFormData.swift:118-126 | one more loop turn adds the part's block, or its header and the fault |
| FormEncoder.EmitStops | MultipartFormData/MultipartFormData.swift:124 | after a fault, the remaining parts change nothing |
| FormEncoder.MultipartFormData.WriteProperty | MultipartFormData/MultipartFormData.swift:111-113 | one loop turn appends exactly that property's block |
| FormEncoder.MultipartFormData.WriteProperties | MultipartFormData/MultipartFormData.swift:109-115 | `writeProperties` appends exactly the blocks of all properties, in iteration order |
| FormEncoder.MultipartFormData.WriteSourceHeader | MultipartFormData/MultipartFormData.swift:121-123 | the three header strings append exactly the part's header |
| FormEncoder.MultipartFormData.WriteSource | MultipartFormData/MultipartFormData.swift:119-125 | one loop turn appends the part's block and passes, or, when the file cannot be opened, its header only and faults |
| FormEncoder.MultipartFormData.WriteSources | MultipartFormData/MultipartFormData.swift:117-127 | `writeSources` appends exactly what `Emit` gives and faults exactly when it does, with the same fault |
| FormEncoder.MultipartFormData.Process | MultipartFormData/MultipartFormData.swift:103-107 | `process` appends exactly `Emitted`, passes exactly when the body succeeds and otherwise fails with its fault |
| FormEncoder.MultipartFormData.Data | MultipartFormData/MultipartFormData.swift:85-89 | `data()` returns exactly the body, or its fault |
| FormEncoder.MultipartFormData.WriteTo | MultipartFormData/MultipartFormData.swift:94-101 | a destination that cannot be created throws `unknown` with nothing written; otherwise the file holds what `process` wrote, and the call fails exactly when the body does |
| FormEncoder.DataMatchesWrite | MultipartFormData/MultipartFormData.swift:85-101 | when the destination can be created, `write(to:)` leaves in the file exactly the bytes `data()` returns, and one fails exactly when the other does, with the same fault; when it cannot, `write(to:)` throws `unknown` and writes nothing |

## Left out

- The boundary's random `NSUUID` is a parameter of the constructor.
- The Uniform Type Identifier database behind `mimeType(for:)` is two
  abstract lookup functions. The model keeps the extension they are keyed by
  and the `application/octet-stream` fallback. The real first lookup never
  fails for a filename extension: for an unknown one it returns a dynamic
  identifier that has no MIME type, so the fallback comes from the second
  lookup. The lemmas about unknown extensions therefore assume only that no
  MIME type is found, not that no identifier is.
- The file system is a snapshot `map<Url, Bytes>`. Opening, `closeFile` and
  OS errors other than "cannot be opened" are not modelled. So is a
  destination that aliases one of the sources.
- `FileHandle(forWritingTo:)` failing after the file was created is not
  modelled: `WriteTo` treats an opened destination as writable.
- The `#available` branches pick between two equivalent seek calls and two
  equivalent offset queries. One of each is modelled.
- Seeking past the end of a file: the model follows POSIX. The position
  moves there and the reads that follow return nothing, so the window is
  empty.
- `(offset ?? 0) + length` overflowing `UInt64` traps at run time in Swift.
  The model turns it into the fault `Overflow`, raised before anything is
  appended.
- The `guard let ... data(using: .utf8)` checks never fail for a Swift
  `String`, so a failed conversion is not modelled. Dafny strings are
  sequences of Unicode scalars.
- Property values are `Any` in Swift and are written through string
  interpolation. The model takes the interpolated text (`"40"` for `40`).
- `Property` (Sources.swift:62-70) is declared but never used by the
  encoder, so its `.data` case has no framing in the model.
- `MultipartFormData.swift:62-64` and `Sources.swift:33-37` both declare
  `Error`. The model uses the three-case enum; only `unknown` is ever
  thrown.
- The `URLSession` upload helpers are not part of this model.
- Dictionary iteration order is unspecified in Swift, so the model fixes it
  as the sequence order given. `EncodingOrderFree` states what does not
  depend on it.
- FormEncoder.EncodingOrderFree: states that success and length do not depend
  on the order, not the bytes, since the bytes do depend on it.
- The read counts of the appenders are ghost outputs: they state how many
  loop turns run, not anything the Swift code returns.
