/**
  The output sinks (`Writable`: Foundation's `Data` and a `FileHandle` open
  for writing), the read handle they pull files through, and the two
  chunked file appenders: the older `appendFile(at:chunkSize:)`, which
  copies a whole file, and the newer `appendFile(_:)`, which copies only
  the offset/length window of a `MultipartFormDataFile`.
*/
module Writable {
  import opened Wrappers
  import opened Utf8
  import opened Sources

  /** The chunk size both appenders default to, in bytes. */
  const MaxChunk: nat := 1000000

  /** One more than the largest `UInt64`. */
  const U64Bound: nat := 0x1_0000_0000_0000_0000

  function Min(a: int, b: int): int {
    if a <= b then a else b
  }

  /** Which of the two `Writable` conformances a sink stands for. */
  datatype SinkKind = Memory | FileHandle(destination: Url)

  /** Why an append or an encoding stopped. */
  datatype Fault =
    | Raised(error: Error)   // one of the library's own errors was thrown
    | CannotOpen(url: Url)   // `FileHandle(forReadingFrom:)` threw for this file
    | Overflow               // `(offset ?? 0) + length` overflowed `UInt64`: a runtime trap

  // ---------------------------------------------------------------------
  // The window of a file that the newer appender copies
  // ---------------------------------------------------------------------

  /** Where the window starts: the offset (0 when absent), but never past
      the end of a file of `size` bytes. */
  function WindowStart(file: FormDataFile, size: nat): nat {
    Min(file.offset.GetOr(0), size)
  }

  /** Where the window ends: offset plus length, or the end of the file,
      whichever comes first; with no length, the end of the file. */
  function WindowEnd(file: FormDataFile, size: nat): nat {
    match file.length
    case None => size
    case Some(length) => Min(file.offset.GetOr(0) + length, size)
  }

  /** The window's end offset `(offset ?? 0) + length` is not a `UInt64`. */
  predicate Overflows(file: FormDataFile) {
    file.length.Some? && file.offset.GetOr(0) + file.length.value >= U64Bound
  }

  /** The bytes of `contents` that appending `file` copies. A window that
      runs past the end of the file is cut short there. */
  function Window(file: FormDataFile, contents: Bytes): Bytes {
    contents[WindowStart(file, |contents|) .. WindowEnd(file, |contents|)]
  }

  /** The window in each combination of offset and length. */
  lemma WindowCases(file: FormDataFile, contents: Bytes)
    ensures var w := Window(file, contents);
      && (file.offset.None? && file.length.None? ==> w == contents)
      && (file.offset.Some? && file.offset.value <= |contents| && file.length.Some? ==>
           w == contents[file.offset.value .. Min(file.offset.value + file.length.value, |contents|)])
      && (file.offset.Some? && file.offset.value <= |contents| && file.length.None? ==>
           w == contents[file.offset.value..])
      && (file.offset.None? && file.length.Some? ==> w == contents[..Min(file.length.value, |contents|)])
      && (file.offset.Some? && file.offset.value >= |contents| ==> w == [])
      && (file.length.Some? ==> |w| <= file.length.value)
  {
  }

  /**
    `getChunkSize`: how many bytes to ask the reader for when it stands at
    `current`. A chunk never exceeds `MaxChunk`, never reaches past the
    window's end, and is either a full chunk or exactly what the window
    still holds; it is 0 exactly when the window is used up.
  */
  function ChunkSize(file: FormDataFile, current: nat): (r: Result<nat, Fault>)
    ensures r.Failure? <==> Overflows(file)
    ensures r.Failure? ==> r.error == Overflow
    ensures file.length.None? ==> r == Success(MaxChunk)
    ensures r.Success? ==> r.value <= MaxChunk
    ensures r.Success? && file.length.Some? ==>
      var end := file.offset.GetOr(0) + file.length.value;
      && (r.value == 0 <==> current >= end)
      && (r.value > 0 ==> current + r.value <= end)
      && (r.value > 0 ==> r.value == MaxChunk || current + r.value == end)
  {
    match file.length
    case None => Success(MaxChunk)
    case Some(length) =>
      var end := file.offset.GetOr(0) + length;
      if end >= U64Bound then Failure(Overflow)
      else if current >= end then Success(0)
      else Success(Min(end - current, MaxChunk))
  }

  /** A read that starts inside the window and asks for `ChunkSize` bytes
      gets the next full chunk of the window, or what is left of it. */
  lemma ChunkReadStaysInWindow(file: FormDataFile, size: nat, p: nat)
    requires !Overflows(file)
    requires file.length.Some? ==> p <= file.offset.GetOr(0) + file.length.value
    ensures Min(p, size) <= WindowEnd(file, size)
    ensures Min(p + ChunkSize(file, p).value, size) == Min(Min(p, size) + MaxChunk, WindowEnd(file, size))
  {
  }

  /** Appending the next slice of `w` extends the prefix of `w` appended so far. */
  lemma AppendSlices(a: Bytes, w: Bytes, i: nat, j: nat)
    requires i <= j <= |w|
    ensures a + w[..i] + w[i..j] == a + w[..j]
  {
    assert w[..i] + w[i..j] == w[..j];
  }

  /** One more read of `n` bytes covers `n` more. */
  lemma MultipleStep(k: nat, n: nat)
    ensures (k + 1) * n == k * n + n
  {
  }

  /** The read counts the appenders report are the fewest reads of `n`
      bytes that cover `size` bytes: none for an empty file, one for a file
      no larger than a chunk, and exactly `k` for `k` full chunks. */
  lemma FewestReads(size: nat, n: nat, count: nat, k: nat)
    requires n > 0
    requires count * n - n < size <= count * n
    ensures size == 0 <==> count == 0
    ensures 0 < size <= n ==> count == 1
    ensures size == k * n ==> count == k
  {
    if count > 0 {
      MultipleStep(count - 1, n);
    }
    if size == k * n {
      if k < count {
        assert k * n <= (count - 1) * n by { MonotoneMultiple(k, count - 1, n); }
      } else if k > count {
        assert count * n < k * n by { MonotoneMultiple(count + 1, k, n); MultipleStep(count, n); }
      }
    }
  }

  lemma MonotoneMultiple(a: nat, b: nat, n: nat)
    requires a <= b
    ensures a * n <= b * n
  {
  }

  /** The bytes a reader standing at `pos` returns when asked for `n`. */
  function Read(c: Bytes, pos: nat, n: nat): Bytes {
    c[Min(pos, |c|) .. Min(pos + n, |c|)]
  }

  /** A read from `p`, which is `i` bytes into the window (or past the end
      of the file, when the window is empty there), sized by `ChunkSize`,
      is the window's next chunk. */
  lemma NextChunk(file: FormDataFile, c: Bytes, p: nat, i: nat)
    requires !Overflows(file)
    requires Min(p, |c|) == WindowStart(file, |c|) + i
    requires file.length.Some? ==> p <= file.offset.GetOr(0) + file.length.value
    ensures Read(c, p, ChunkSize(file, p).value) == Window(file, c)[i .. Min(i + MaxChunk, |Window(file, c)|)]
  {
    ChunkReadStaysInWindow(file, |c|, p);
    var start, end := WindowStart(file, |c|), WindowEnd(file, |c|);
    var w := Window(file, c);
    assert start <= end;
    assert |w| == end - start;
    var stop := Min(i + MaxChunk, |w|);
    assert start + stop == Min(start + i + MaxChunk, end);
    assert i <= stop <= |w|;
    forall k | 0 <= k < stop - i ensures w[i..stop][k] == c[start + i .. start + stop][k] {
      assert w[i + k] == c[start + i + k];
    }
  }

  // ---------------------------------------------------------------------
  // The read handle
  // ---------------------------------------------------------------------

  /**
    A `FileHandle` open for reading: the file's bytes and the position in
    it. Seeking past the end of the file is allowed and leaves nothing to
    read (the POSIX behaviour, chosen here).
  */
  class Reader {
    const contents: Bytes
    var offset: nat

    constructor (contents: Bytes)
      ensures this.contents == contents && offset == 0
    {
      this.contents := contents;
      offset := 0;
    }

    /** `seek(toOffset:)`. */
    method Seek(to: nat)
      modifies this
      ensures offset == to
    {
      offset := to;
    }

    /** `readData(ofLength:)`: up to `length` bytes from the position, fewer
        at the end of the file; the position moves past what was read. */
    method ReadData(length: nat) returns (data: Bytes)
      modifies this
      ensures data == Read(contents, old(offset), length)
      ensures offset == old(offset) + |data|
    {
      data := contents[Min(offset, |contents|) .. Min(offset + length, |contents|)];
      offset := offset + |data|;
    }

    /** `readData(ofLength: getChunkSize())`, the read `appendFile(_:)`
        repeats: from `i` bytes into the window of `file`, the window's
        next chunk. */
    method ReadChunk(file: FormDataFile, ghost i: nat) returns (data: Bytes)
      requires !Overflows(file)
      requires Min(offset, |contents|) == WindowStart(file, |contents|) + i
      requires file.length.Some? ==> offset <= file.offset.GetOr(0) + file.length.value
      modifies this
      ensures data == Window(file, contents)[i .. Min(i + MaxChunk, |Window(file, contents)|)]
      ensures offset == old(offset) + |data|
    {
      NextChunk(file, contents, offset, i);
      data := ReadData(ChunkSize(file, offset).value);
    }
  }

  // ---------------------------------------------------------------------
  // The sinks
  // ---------------------------------------------------------------------

  /**
    A `Writable`: the bytes appended so far. Both conformances only ever
    append, so a sink's earlier contents stay a prefix of its later ones.
  */
  class Sink {
    const kind: SinkKind
    var bytes: Bytes

    /** An empty `Data`, or a file just created empty. */
    constructor (kind: SinkKind)
      ensures this.kind == kind && bytes == []
    {
      this.kind := kind;
      bytes := [];
    }

    /** `append(_ data: Data)`. */
    method AppendBytes(data: Bytes)
      modifies this
      ensures bytes == old(bytes) + data
    {
      bytes := bytes + data;
    }

    /** `append(_ string: String)`: the string's UTF-8 bytes. */
    method AppendText(s: string)
      modifies this
      ensures bytes == old(bytes) + Encode(s)
    {
      bytes := bytes + Encode(s);
    }

    /**
      `appendFile(at:chunkSize:)`: copy the whole file at `url`, `chunkSize`
      bytes at a time, until a read comes back empty. `appends` counts the
      loop's iterations: the fewest `chunkSize`-byte reads that cover the file.
    */
    method AppendFileAt(url: Url, chunkSize: nat, fs: map<Url, Bytes>) returns (outcome: Outcome<Fault>, ghost appends: nat)
      modifies this
      ensures url !in fs ==> outcome == Fail(CannotOpen(url)) && bytes == old(bytes) && appends == 0
      ensures url in fs ==> outcome == Pass
      ensures url in fs && chunkSize > 0 ==>
        && bytes == old(bytes) + fs[url]
        && appends * chunkSize - chunkSize < |fs[url]| <= appends * chunkSize
      ensures url in fs && chunkSize == 0 ==> bytes == old(bytes) && appends == 0
    {
      if url !in fs {
        outcome, appends := Fail(CannotOpen(url)), 0;
        return;
      }
      var c := fs[url];
      var reader := new Reader(c);
      var data := reader.ReadData(chunkSize);
      ghost var pos: nat := 0;   // where `data` was read from
      ghost var covered: nat := 0;   // `appends * chunkSize`
      appends := 0;
      while data != []
        invariant reader.contents == c
        invariant pos <= |c|
        invariant data == c[pos .. Min(pos + chunkSize, |c|)]
        invariant reader.offset == pos + |data|
        invariant bytes == old(bytes) + c[..pos]
        invariant covered == appends * chunkSize
        invariant pos == Min(covered, |c|)
        invariant appends > 0 ==> covered - chunkSize < pos
        invariant chunkSize == 0 ==> appends == 0
        decreases |c| - pos
      {
        AppendSlices(old(bytes), c, pos, Min(pos + chunkSize, |c|));
        bytes := bytes + data;
        MultipleStep(appends, chunkSize);
        appends, covered := appends + 1, covered + chunkSize;
        pos := Min(pos + chunkSize, |c|);
        data := reader.ReadData(chunkSize);
      }
      if chunkSize > 0 {
        assert c[..pos] == c;
      } else {
        assert c[..pos] == [];
      }
      outcome := Pass;
    }

    /**
      `appendFile(_:)`: seek to the file's offset when it has one, then
      append chunks of at most `MaxChunk` bytes, each sized by `ChunkSize`,
      until a read comes back empty. The sink gains exactly the file's
      window, in the fewest `MaxChunk`-byte reads that cover it.
    */
    method AppendFile(file: FormDataFile, fs: map<Url, Bytes>) returns (outcome: Outcome<Fault>, ghost appends: nat)
      modifies this
      ensures file.url !in fs ==> outcome == Fail(CannotOpen(file.url)) && bytes == old(bytes) && appends == 0
      ensures file.url in fs && Overflows(file) ==> outcome == Fail(Overflow) && bytes == old(bytes) && appends == 0
      ensures file.url in fs && !Overflows(file) ==>
        && outcome == Pass
        && bytes == old(bytes) + Window(file, fs[file.url])
        && appends * MaxChunk - MaxChunk < |Window(file, fs[file.url])| <= appends * MaxChunk
    {
      appends := 0;
      if file.url !in fs {
        outcome := Fail(CannotOpen(file.url));
        return;
      }
      var c := fs[file.url];
      var reader := new Reader(c);
      if file.offset.Some? {
        reader.Seek(file.offset.value);
      }
      var size := ChunkSize(file, reader.offset);
      if size.Failure? {
        outcome := Fail(size.error);
        return;
      }
      ghost var lo, w := WindowStart(file, |c|), Window(file, c);
      var data := reader.ReadChunk(file, 0);
      ghost var i: nat := 0;   // where `data` was read from, within the window
      while data != []
        invariant reader.contents == c
        invariant i <= |w|
        invariant data == w[i .. Min(i + MaxChunk, |w|)]
        invariant data != [] ==> reader.offset == lo + i + |data|
        invariant bytes == old(bytes) + w[..i]
        invariant i == Min(appends * MaxChunk, |w|)
        invariant appends > 0 ==> appends * MaxChunk - MaxChunk < i
        decreases |w| - i
      {
        AppendSlices(old(bytes), w, i, Min(i + MaxChunk, |w|));
        bytes := bytes + data;
        appends := appends + 1;
        i := Min(i + MaxChunk, |w|);
        data := reader.ReadChunk(file, i);
      }
      assert w[..i] == w;
      outcome := Pass;
    }
  }

  // ---------------------------------------------------------------------
  // The two appenders on a whole file, and a worked window
  // ---------------------------------------------------------------------

  /** A bare URL used as a file has no window: all of its bytes are copied. */
  lemma WholeFileWindow(url: Url, contents: Bytes)
    ensures Window(OfUrl(url), contents) == contents
  {
    WindowCases(OfUrl(url), contents);
  }

  /** A window sitting across a chunk boundary of the file is still copied
      as one piece: chunks are counted from the window's start. */
  lemma StraddlingWindow(file: FormDataFile, contents: Bytes)
    requires file.offset == Some(MaxChunk - 2) && file.length == Some(4)
    requires |contents| >= MaxChunk + 2
    ensures Window(file, contents) == contents[MaxChunk - 2 .. MaxChunk + 2]
    ensures |Window(file, contents)| <= MaxChunk
  {
  }

  /** The text `data 1data 2data 3data 4` and a newline, as ASCII bytes. */
  const SampleFile: Bytes := [
    100, 97, 116, 97, 32, 49, 100, 97, 116, 97, 32, 50,
    100, 97, 116, 97, 32, 51, 100, 97, 116, 97, 32, 52, 10]

  /** Offset 6 and length 6 of the sample file is `data 2`; offset 6 alone
      runs to the end of the file; a window past the end holds nothing, and
      one reaching past the end stops there. */
  lemma SampleWindows(url: Url)
    ensures Window(FormDataFile("f", url, Some(6), Some(6)), SampleFile) == [100, 97, 116, 97, 32, 50]
    ensures Window(FormDataFile("f", url, Some(6), None), SampleFile) == SampleFile[6..]
    ensures Window(FormDataFile("f", url, Some(30), Some(6)), SampleFile) == []
    ensures Window(FormDataFile("f", url, Some(18), Some(100)), SampleFile) == [100, 97, 116, 97, 32, 52, 10]
  {
  }

  /**
    On a bare URL, the newer appender with its fixed chunk size and the
    older one asked for chunks of `MaxChunk` bytes append the same bytes,
    in as many reads.
  */
  method AppendersAgree(url: Url, fs: map<Url, Bytes>)
    returns (olderOutcome: Outcome<Fault>, newerOutcome: Outcome<Fault>, older: Bytes, newer: Bytes,
             ghost olderReads: nat, ghost newerReads: nat)
    ensures olderOutcome == newerOutcome && older == newer && olderReads == newerReads
    ensures url in fs ==> newerOutcome == Pass && newer == fs[url]
    ensures url !in fs ==> newerOutcome == Fail(CannotOpen(url)) && newer == []
  {
    var first := new Sink(Memory);
    olderOutcome, olderReads := first.AppendFileAt(url, MaxChunk, fs);
    var second := new Sink(Memory);
    newerOutcome, newerReads := second.AppendFile(OfUrl(url), fs);
    if url in fs {
      WholeFileWindow(url, fs[url]);
    }
    older, newer := first.bytes, second.bytes;
  }
}
