/** `StdLibLoader`: collects the standard library's source files from a
    directory tree, parses each by extension and adds the successes to the
    workspace, then latches the workspace's stdlib flag. The file system is
    an input: a directory tree whose listings and entries may fail to read,
    and a file reader. The SysML parser is passed in as a function. */
module StdlibLoader {
  import opened Wrappers

  /** A path as far as the loader looks at it: its display text and its
      extension, `None` when it has none or it is not valid UTF-8. */
  datatype FilePath = FilePath(text: string, extension: Option<string>)

  /** An entry of a directory listing: a directory (with its own listing),
      a regular file, or anything else (neither `is_dir` nor `is_file`). */
  datatype FsEntry =
    | Dir(path: FilePath, listing: Listing)
    | RegularFile(path: FilePath)
    | OtherEntry(path: FilePath)

  /** One item of `read_dir`'s iterator. */
  datatype EntryRead = EntryFailed(message: string) | EntryRead(entry: FsEntry)

  /** The result of `read_dir` on a directory. */
  datatype Listing = Unreadable(message: string) | Listed(entries: seq<EntryRead>)

  /** The loader's error strings, by the step that produced them. */
  datatype LoadError =
    | ReadDirFailed(dir: FilePath, message: string)
    | ReadEntryFailed(message: string)
    | ReadFileFailed(path: FilePath, message: string)
    | InvalidExtension(path: FilePath)
    | ParseFailed(path: FilePath, message: string)
    | UnsupportedExtension(ext: string)

  /** A parsed SysML file: an optional namespace and its elements. */
  datatype SysmlFile<E> = SysmlFile(namespace: Option<string>, elements: seq<E>)

  /** The workspace as the loader sees it: the `add_file` calls made, in
      order, and the stdlib flag. */
  datatype Workspace<E> = Workspace(added: seq<(FilePath, SysmlFile<E>)>, stdlibLoaded: bool)

  /** `SUPPORTED_EXTENSIONS`. */
  const SupportedExtensions: seq<string> := ["sysml", "kerml"]

  predicate Supported(path: FilePath)
  {
    path.extension.Some? && path.extension.value in SupportedExtensions
  }

  // ---------------------------------------------------------------------------
  // collect_recursive
  // ---------------------------------------------------------------------------

  /** Every listing and entry in the tree below `l` can be read. */
  predicate Readable(l: Listing)
    decreases l, 1
  {
    l.Listed? && ReadableFrom(l, 0)
  }

  predicate ReadableFrom(l: Listing, i: nat)
    requires l.Listed? && i <= |l.entries|
    decreases l, 0, |l.entries| - i
  {
    i == |l.entries|
    || (&& l.entries[i].EntryRead?
        && (l.entries[i].entry.Dir? ==> Readable(l.entries[i].entry.listing))
        && ReadableFrom(l, i + 1))
  }

  /** The reference: the supported regular files of the tree, directory
      entries in listing order, each directory's files where it is listed. */
  function SupportedFiles(l: Listing): seq<FilePath>
    decreases l, 1
  {
    if l.Unreadable? then [] else SupportedFilesFrom(l, 0)
  }

  function SupportedFilesFrom(l: Listing, i: nat): seq<FilePath>
    requires l.Listed? && i <= |l.entries|
    decreases l, 0, |l.entries| - i
  {
    if i == |l.entries| then []
    else
      var here := match l.entries[i]
        case EntryFailed(_) => []
        case EntryRead(Dir(_, sub)) => SupportedFiles(sub)
        case EntryRead(RegularFile(path)) => if Supported(path) then [path] else []
        case EntryRead(OtherEntry(_)) => [];
      here + SupportedFilesFrom(l, i + 1)
  }

  /** Every regular file anywhere in the tree. */
  predicate FileInTree(l: Listing, path: FilePath)
    decreases l, 1
  {
    l.Listed? && FileInTreeFrom(l, 0, path)
  }

  predicate FileInTreeFrom(l: Listing, i: nat, path: FilePath)
    requires l.Listed? && i <= |l.entries|
    decreases l, 0, |l.entries| - i
  {
    i < |l.entries|
    && ((&& l.entries[i].EntryRead?
         && match l.entries[i].entry
            case Dir(_, sub) => FileInTree(sub, path)
            case RegularFile(p) => p == path
            case OtherEntry(_) => false)
        || FileInTreeFrom(l, i + 1, path))
  }

  /** `collect_recursive(dir, paths)`: `acc` is what `paths` held on entry.
      The walk stops at the first listing or entry that cannot be read. */
  function CollectRecursive(dir: FilePath, l: Listing, acc: seq<FilePath>): (r: Result<seq<FilePath>, LoadError>)
    ensures r.Success? <==> Readable(l)
    ensures r.Success? ==> r.value == acc + SupportedFiles(l)
    ensures l.Unreadable? ==> r == Failure(ReadDirFailed(dir, l.message))
    decreases l, 1
  {
    match l
    case Unreadable(message) => Failure(ReadDirFailed(dir, message))
    case Listed(_) => CollectEntries(l, 0, acc)
  }

  function CollectEntries(l: Listing, i: nat, acc: seq<FilePath>): (r: Result<seq<FilePath>, LoadError>)
    requires l.Listed? && i <= |l.entries|
    ensures r.Success? <==> ReadableFrom(l, i)
    ensures r.Success? ==> r.value == acc + SupportedFilesFrom(l, i)
    decreases l, 0, |l.entries| - i
  {
    if i == |l.entries| then Success(acc)
    else
      match l.entries[i]
      case EntryFailed(message) => Failure(ReadEntryFailed(message))
      case EntryRead(entry) =>
        match entry
        case Dir(path, sub) =>
          (match CollectRecursive(path, sub, acc)
           case Failure(e) => Failure(e)
           case Success(acc') =>
             var r := CollectEntries(l, i + 1, acc');
             assert r.Success? ==> r.value == acc + (SupportedFiles(sub) + SupportedFilesFrom(l, i + 1));
             r)
        case RegularFile(path) =>
          var acc' := if Supported(path) then acc + [path] else acc;
          var r := CollectEntries(l, i + 1, acc');
          assert r.Success? ==> r.value == acc + ((if Supported(path) then [path] else []) + SupportedFilesFrom(l, i + 1));
          r
        case OtherEntry(_) =>
          var r := CollectEntries(l, i + 1, acc);
          assert r.Success? ==> r.value == acc + ([] + SupportedFilesFrom(l, i + 1));
          r
  }

  /** `collect_file_paths`. */
  function CollectFilePaths(dir: FilePath, l: Listing): (r: Result<seq<FilePath>, LoadError>)
    ensures r.Success? <==> Readable(l)
    ensures r.Success? ==> r.value == SupportedFiles(l)
  {
    CollectRecursive(dir, l, [])
  }

  /** The collected files are exactly the supported regular files of the
      tree: nothing with another extension, nothing that is not a file. */
  lemma {:induction false} SupportedFilesExact(l: Listing, path: FilePath)
    ensures path in SupportedFiles(l) <==> Supported(path) && FileInTree(l, path)
    decreases l, 1
  {
    if l.Listed? {
      SupportedFilesFromExact(l, 0, path);
    }
  }

  lemma {:induction false} SupportedFilesFromExact(l: Listing, i: nat, path: FilePath)
    requires l.Listed? && i <= |l.entries|
    ensures path in SupportedFilesFrom(l, i) <==> Supported(path) && FileInTreeFrom(l, i, path)
    decreases l, 0, |l.entries| - i
  {
    if i < |l.entries| {
      SupportedFilesFromExact(l, i + 1, path);
      match l.entries[i]
      case EntryFailed(_) =>
      case EntryRead(entry) =>
        match entry
        case Dir(_, sub) => SupportedFilesExact(sub, path);
        case RegularFile(_) =>
        case OtherEntry(_) =>
    }
  }

  // ---------------------------------------------------------------------------
  // parse_file
  // ---------------------------------------------------------------------------

  /** `parse_file`: read the file, then dispatch on its extension. A KerML
      file parses to an empty file without being looked at. */
  function ParseFile<E>(path: FilePath, content: Result<string, string>,
                        parseSysml: string -> Result<SysmlFile<E>, string>)
    : (r: Result<(FilePath, SysmlFile<E>), LoadError>)
    ensures content.Failure? ==> r == Failure(ReadFileFailed(path, content.error))
    ensures r.Success? ==> r.value.0 == path && Supported(path)
    ensures content.Success? && path.extension == Some("kerml") ==> r == Success((path, SysmlFile(None, [])))
    ensures content.Success? && path.extension == Some("sysml") ==>
      (r.Success? <==> parseSysml(content.value).Success?)
      && (r.Success? ==> r.value.1 == parseSysml(content.value).value)
    ensures content.Success? && path.extension.None? ==> r == Failure(InvalidExtension(path))
    ensures content.Success? && path.extension.Some? && !Supported(path) ==>
      r == Failure(UnsupportedExtension(path.extension.value))
  {
    match content
    case Failure(message) => Failure(ReadFileFailed(path, message))
    case Success(text) =>
      match path.extension
      case None => Failure(InvalidExtension(path))
      case Some(ext) =>
        if ext == "sysml" then
          match parseSysml(text)
          case Failure(message) => Failure(ParseFailed(path, message))
          case Success(file) => Success((path, file))
        else if ext == "kerml" then Success((path, SysmlFile(None, [])))
        else Failure(UnsupportedExtension(ext))
  }

  /** The loader only hands `ParseFile` paths it collected, and for those the
      extension checks never fire: a collected file either parses or fails
      because it could not be read or because the SysML parser rejected it. */
  lemma CollectedFileErrors<E>(l: Listing, path: FilePath, content: Result<string, string>,
                               parseSysml: string -> Result<SysmlFile<E>, string>)
    requires path in SupportedFiles(l)
    ensures var r := ParseFile(path, content, parseSysml);
      r.Failure? ==> r.error.ReadFileFailed? || r.error.ParseFailed?
    ensures var r := ParseFile(path, content, parseSysml);
      r.Failure? <==> content.Failure? || (path.extension == Some("sysml") && parseSysml(content.value).Failure?)
  {
    SupportedFilesExact(l, path);
  }

  // ---------------------------------------------------------------------------
  // load
  // ---------------------------------------------------------------------------

  /** The files of `paths` that parse, in order. */
  function Parsed<E>(paths: seq<FilePath>, read: FilePath -> Result<string, string>,
                     parseSysml: string -> Result<SysmlFile<E>, string>): (r: seq<(FilePath, SysmlFile<E>)>)
    ensures |r| <= |paths|
    decreases |paths|
  {
    if paths == [] then []
    else
      var n := |paths| - 1;
      Parsed(paths[..n], read, parseSysml)
      + match ParseFile(paths[n], read(paths[n]), parseSysml)
        case Success(entry) => [entry]
        case Failure(_) => []
  }

  lemma ParsedSnoc<E>(paths: seq<FilePath>, i: nat, read: FilePath -> Result<string, string>,
                      parseSysml: string -> Result<SysmlFile<E>, string>)
    requires i < |paths|
    ensures Parsed(paths[..i + 1], read, parseSysml) == Parsed(paths[..i], read, parseSysml)
      + match ParseFile(paths[i], read(paths[i]), parseSysml)
        case Success(entry) => [entry]
        case Failure(_) => []
  {
    assert paths[..i + 1][..i] == paths[..i];
  }

  /** The fan-in loop of `load`: adds each successful parse, in order, and
      drops the failures. */
  method AddParsed<E>(ws: Workspace<E>, paths: seq<FilePath>, read: FilePath -> Result<string, string>,
                      parseSysml: string -> Result<SysmlFile<E>, string>)
    returns (ws': Workspace<E>)
    ensures ws'.stdlibLoaded == ws.stdlibLoaded
    ensures ws'.added == ws.added + Parsed(paths, read, parseSysml)
  {
    ws' := ws;
    var i := 0;
    while i < |paths|
      invariant i <= |paths|
      invariant ws'.stdlibLoaded == ws.stdlibLoaded
      invariant ws'.added == ws.added + Parsed(paths[..i], read, parseSysml)
    {
      var result := ParseFile(paths[i], read(paths[i]), parseSysml);
      ParsedSnoc(paths, i, read, parseSysml);
      match result {
        case Success(entry) =>
          ws' := ws'.(added := ws'.added + [entry]);
        case Failure(_) =>
      }
      i := i + 1;
    }
    assert paths[..|paths|] == paths;
  }

  /** `load`. `root` is the stdlib directory's listing, `None` when the
      path does not exist or is not a directory. A directory that cannot be
      read fails the load; a file that cannot be read or parsed does not. */
  method Load<E>(root: FilePath, listing: Option<Listing>, ws: Workspace<E>,
                 read: FilePath -> Result<string, string>,
                 parseSysml: string -> Result<SysmlFile<E>, string>)
    returns (ws': Workspace<E>, r: Outcome<LoadError>)
    ensures ws.stdlibLoaded ==> ws'.stdlibLoaded
    ensures ws.added <= ws'.added
    ensures listing.None? ==> ws' == ws && r == Pass
    ensures listing.Some? && !Readable(listing.value) ==> ws' == ws && r.Fail?
    ensures listing.Some? && Readable(listing.value) ==>
      && r == Pass
      && ws'.stdlibLoaded
      && ws'.added == ws.added + Parsed(SupportedFiles(listing.value), read, parseSysml)
  {
    if listing.None? {
      return ws, Pass;
    }
    var collected := CollectFilePaths(root, listing.value);
    if collected.Failure? {
      return ws, Fail(collected.error);
    }
    ws' := AddParsed(ws, collected.value, read, parseSysml);
    ws' := ws'.(stdlibLoaded := true);
    r := Pass;
  }

  /** Every added file parsed successfully from a collected path, and every
      collected path that parses is added. */
  lemma {:induction false} ParsedExact<E>(paths: seq<FilePath>, read: FilePath -> Result<string, string>,
                                          parseSysml: string -> Result<SysmlFile<E>, string>,
                                          entry: (FilePath, SysmlFile<E>))
    ensures entry in Parsed(paths, read, parseSysml)
      <==> exists i :: 0 <= i < |paths| && ParseFile(paths[i], read(paths[i]), parseSysml) == Success(entry)
    decreases |paths|
  {
    if paths != [] {
      var n := |paths| - 1;
      ParsedExact(paths[..n], read, parseSysml, entry);
      assert forall i :: 0 <= i < n ==> paths[..n][i] == paths[i];
    }
  }

  /** A failed parse is never added: its path contributes nothing. */
  lemma {:induction false} FailuresDropped<E>(paths: seq<FilePath>, read: FilePath -> Result<string, string>,
                                              parseSysml: string -> Result<SysmlFile<E>, string>)
    requires forall i :: 0 <= i < |paths| ==> ParseFile(paths[i], read(paths[i]), parseSysml).Failure?
    ensures Parsed(paths, read, parseSysml) == []
    decreases |paths|
  {
    if paths != [] {
      FailuresDropped(paths[..|paths| - 1], read, parseSysml);
    }
  }
}
