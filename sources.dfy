/**
  The values a form is built from: file references (the protocol
  `MultipartFormDataFile`, its URL conformance and the `File` struct), the
  three kinds of form property, and the library's error cases.
*/
module Sources {
  import opened Wrappers
  import opened Utf8

  /** Swift's `UInt64`, the type of a file offset or length. */
  type u64 = x: nat | x < 0x1_0000_0000_0000_0000

  /** A file URL, reduced to the path it names. */
  datatype Url = Url(path: string)

  /** `path` without the slashes that end it. */
  function StripTrailingSlashes(path: string): (r: string)
    ensures |r| <= |path|
  {
    if path != [] && path[|path| - 1] == '/' then StripTrailingSlashes(path[..|path| - 1]) else path
  }

  /** Stripping leaves a prefix that does not end in a slash, and only slashes were cut. */
  lemma {:induction false} StripTrailingSlashesSpec(path: string)
    ensures var r := StripTrailingSlashes(path);
      && r == path[..|r|]
      && (r == [] || r[|r| - 1] != '/')
      && forall i :: |r| <= i < |path| ==> path[i] == '/'
    decreases |path|
  {
    if path != [] && path[|path| - 1] == '/' {
      var init := path[..|path| - 1];
      StripTrailingSlashesSpec(init);
      var r := StripTrailingSlashes(init);
      assert path[..|r|] == init[..|r|];
    }
  }

  /** The longest suffix of `path` holding no slash. */
  function AfterLastSlash(path: string): (r: string)
    ensures |r| <= |path|
  {
    if path == [] || path[|path| - 1] == '/' then []
    else AfterLastSlash(path[..|path| - 1]) + [path[|path| - 1]]
  }

  /** What follows the last slash is a slash-free suffix, right after a
      slash unless it is the whole path, and is not empty when the path
      does not end in a slash. */
  lemma {:induction false} AfterLastSlashSpec(path: string)
    ensures var r := AfterLastSlash(path);
      && r == path[|path| - |r|..]
      && '/' !in r
      && (|r| < |path| ==> path[|path| - |r| - 1] == '/')
      && (path != [] && path[|path| - 1] != '/' ==> r != [])
    decreases |path|
  {
    if path != [] && path[|path| - 1] != '/' {
      var n := |path| - 1;
      var init := path[..n];
      AfterLastSlashSpec(init);
      var r0 := AfterLastSlash(init);
      var r := r0 + [path[n]];
      assert AfterLastSlash(path) == r;
      assert init[n - |r0|..] == path[n - |r0|..n];
      assert path[n - |r0|..] == path[n - |r0|..n] + [path[n]];
      if |r| < |path| {
        assert path[|path| - |r| - 1] == init[|init| - |r0| - 1];
      }
    }
  }

  /**
    Foundation's `lastPathComponent`: the last slash-separated component,
    trailing slashes ignored; the root path's component is "/" itself.
  */
  function LastPathComponent(path: string): string {
    var t := StripTrailingSlashes(path);
    if path == [] then "" else if t == [] then "/" else AfterLastSlash(t)
  }

  /** Only the empty path has an empty last component, and the only
      component holding a slash is the root's. */
  lemma LastPathComponentSpec(path: string)
    ensures var r := LastPathComponent(path);
      && (path == [] <==> r == [])
      && ('/' in r ==> r == "/")
  {
    var t := StripTrailingSlashes(path);
    StripTrailingSlashesSpec(path);
    if t != [] {
      AfterLastSlashSpec(t);
    }
  }

  /** A file under a directory has the file's own name as its last component. */
  lemma {:induction false} LastPathComponentOfChild(dir: string, name: string)
    requires name != [] && '/' !in name
    ensures LastPathComponent(dir + "/" + name) == name
  {
    var p := dir + "/" + name;
    assert p[|p| - 1] == name[|name| - 1];
    assert StripTrailingSlashes(p) == p;
    AfterLastSlashOfChild(dir, name);
  }

  lemma {:induction false} AfterLastSlashOfChild(dir: string, name: string)
    requires '/' !in name
    ensures AfterLastSlash(dir + "/" + name) == name
    decreases |name|
  {
    var p := dir + "/" + name;
    if name == [] {
      assert p[|p| - 1] == '/';
    } else {
      var last := name[|name| - 1];
      assert last in name;
      assert p[|p| - 1] == last;
      assert p[..|p| - 1] == dir + "/" + name[..|name| - 1];
      var init := name[..|name| - 1];
      assert name == init + [last];
      assert '/' !in init by {
        forall i | 0 <= i < |init| ensures init[i] != '/' {
          assert init[i] == name[i];
        }
      }
      AfterLastSlashOfChild(dir, init);
    }
  }

  /**
    What the protocol `MultipartFormDataFile` exposes: the name written into
    the `filename` parameter, the file's URL, and the optional window
    (absent offset: from the start; absent length: up to end of file).
    Any conformer is fully described by these four values.
  */
  datatype FormDataFile = FormDataFile(name: string, url: Url, offset: Option<u64>, length: Option<u64>)

  /** A bare URL used as a file: named by its last component, no window. */
  function OfUrl(url: Url): (f: FormDataFile)
    ensures f.url == url && f.name == LastPathComponent(url.path)
    ensures f.offset == None && f.length == None
  {
    FormDataFile(LastPathComponent(url.path), url, None, None)
  }

  /** `File.init(url:name:offset:length:)`: a missing name defaults to the
      URL's last component; everything else is stored as given. */
  function FileInit(url: Url, name: Option<string>, offset: Option<u64>, length: Option<u64>): (f: FormDataFile)
    ensures name.Some? ==> f.name == name.value
    ensures name.None? ==> f.name == LastPathComponent(url.path)
    ensures f.url == url && f.offset == offset && f.length == length
  {
    FormDataFile(name.GetOr(LastPathComponent(url.path)), url, offset, length)
  }

  /** A `File` built from a URL alone is the same file value as the bare URL. */
  lemma FileInitDefaultsToUrl(url: Url)
    ensures FileInit(url, None, None, None) == OfUrl(url)
  {
  }

  /** `MultipartFormData.Property`: one constructor per kind, each with only its own payload. */
  datatype Property =
    | Text(value: string)                       // a standard form property
    | File(file: FormDataFile)                  // a file
    | Data(bytes: Bytes, contentType: string)   // bytes with their content type

  /** `MultipartFormData.Error`. */
  datatype Error = Unknown | FileNotFound | FileWriteFailed
}
