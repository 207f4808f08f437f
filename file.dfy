/**
 * Input normalization and output naming of `utils/file.ts`, over an
 * abstract filesystem: a map from absolute paths to what is there, and
 * the host's path resolution (`path.resolve`) as a function.
 */
module FileUtil {
  import opened Common
  import opened Errors
  import opened Types

  /**
   * What a path names. `existsSync` is true for both kinds and `statSync`
   * gives a size for both; `readFile` returns the bytes of a regular file
   * and rejects for the other kind (a directory, EISDIR, or a file the
   * process may not read, EACCES) with the host's own error: a plain
   * `Error` carrying the errno code, never one of the library's.
   */
  datatype FsEntry = RegularFile(contents: seq<byte>) | Unreadable(statSize: nat, readError: SystemError)

  type SystemError = e: Error | e.PlainError? witness PlainError("", None)

  /** The filesystem as the library sees it; `files` is keyed by absolute path. */
  datatype FileSystem = FileSystem(resolve: string -> string, files: map<string, FsEntry>)

  /** `existsSync(p)`: the OS resolves a relative path against the working directory. */
  predicate FileExists(fs: FileSystem, filePath: string) {
    fs.resolve(filePath) in fs.files
  }

  function ToAbsolutePath(fs: FileSystem, filePath: string): string {
    fs.resolve(filePath)
  }

  /** `statSync(p).size`. */
  function StatSize(entry: FsEntry): nat {
    match entry
    case RegularFile(contents) => |contents|
    case Unreadable(size, _) => size
  }

  /** `getFileSize`: the size of anything that exists; a missing path names the path as given. */
  function GetFileSize(fs: FileSystem, filePath: string): (r: Result<nat, Error>)
    ensures r.Failure? <==> !FileExists(fs, filePath)
    ensures r.Failure? ==> r.error == FileNotFound(filePath)
    ensures r.Success? ==> r.value == StatSize(fs.files[fs.resolve(filePath)])
    ensures r.Success? && fs.files[fs.resolve(filePath)].RegularFile? ==>
      r.value == |fs.files[fs.resolve(filePath)].contents|
  {
    if !FileExists(fs, filePath) then Failure(FileNotFound(filePath))
    else Success(StatSize(fs.files[fs.resolve(filePath)]))
  }

  /** `readFileAsBuffer`: resolve first, then check existence, then read; a missing file names the absolute path. */
  function ReadFileAsBuffer(fs: FileSystem, filePath: string): (r: Result<seq<byte>, Error>)
    // a path that names nothing fails with file-not-found, naming the absolute path
    ensures !FileExists(fs, ToAbsolutePath(fs, filePath)) ==> r == Failure(FileNotFound(ToAbsolutePath(fs, filePath)))
    // the read succeeds exactly on a regular file, and yields its contents
    ensures r.Success? <==>
      FileExists(fs, ToAbsolutePath(fs, filePath)) && fs.files[fs.resolve(ToAbsolutePath(fs, filePath))].RegularFile?
    ensures r.Success? ==> r.value == fs.files[fs.resolve(ToAbsolutePath(fs, filePath))].contents
    // anything else that exists passes the check and fails with the host's read error
    ensures FileExists(fs, ToAbsolutePath(fs, filePath)) && fs.files[fs.resolve(ToAbsolutePath(fs, filePath))].Unreadable? ==>
      r == Failure(fs.files[fs.resolve(ToAbsolutePath(fs, filePath))].readError)
  {
    var absolutePath := ToAbsolutePath(fs, filePath);
    if !FileExists(fs, absolutePath) then Failure(FileNotFound(absolutePath))
    else
      match fs.files[fs.resolve(absolutePath)]
      case RegularFile(contents) => Success(contents)
      case Unreadable(_, e) => Failure(e)
  }

  /** Resolution behaves like `path.resolve` on `p`: resolving its result again changes nothing. */
  predicate ResolvesStably(fs: FileSystem, p: string) {
    fs.resolve(fs.resolve(p)) == fs.resolve(p)
  }

  /**
   * Reading and sizing agree: whatever can be read has a size, which is the
   * length of what is read; a path is missing for both or for neither (the
   * size check names the path as given, the read the absolute one); and what
   * exists but cannot be read still has a size.
   */
  lemma ReadAndSizeAgree(fs: FileSystem, p: string)
    requires ResolvesStably(fs, p)
    ensures ReadFileAsBuffer(fs, p).Success? ==>
      GetFileSize(fs, p).Success? && |ReadFileAsBuffer(fs, p).value| == GetFileSize(fs, p).value
    ensures GetFileSize(fs, p).Failure? <==> ReadFileAsBuffer(fs, p) == Failure(FileNotFound(fs.resolve(p)))
    ensures GetFileSize(fs, p).Failure? ==> GetFileSize(fs, p).error == FileNotFound(p)
    ensures GetFileSize(fs, p).Success? && ReadFileAsBuffer(fs, p).Failure? ==>
      fs.files[fs.resolve(p)].Unreadable? && ReadFileAsBuffer(fs, p).error == fs.files[fs.resolve(p)].readError
  {
    if FileExists(fs, p) && fs.files[fs.resolve(p)].Unreadable? {
      assert ReadFileAsBuffer(fs, p) == Failure(fs.files[fs.resolve(p)].readError);
    }
  }

  /** The error the host's `readFile` rejects with for the path of this input, when it names something unreadable. */
  predicate HostReadError(fs: FileSystem, input: NodeInput, e: Error) {
    && input.PathInput?
    && FileExists(fs, ToAbsolutePath(fs, input.path))
    && var entry := fs.files[fs.resolve(ToAbsolutePath(fs, input.path))];
    && entry.Unreadable? && entry.readError == e
  }

  /** `normalizeInput`: a buffer passes through, a path is read, anything else is rejected with its `typeof`. */
  function NormalizeInput(input: NodeInput, fs: FileSystem): (r: Result<seq<byte>, Error>)
    ensures input.BufferInput? ==> r == Success(input.bytes)
    ensures input.PathInput? ==> r == ReadFileAsBuffer(fs, input.path)
    ensures input.OtherInput? ==>
      r == Failure(InvalidInput("Input must be a file path (string) or Buffer", input.typeName))
  {
    match input
    case BufferInput(bytes) => Success(bytes)
    case PathInput(p) => ReadFileAsBuffer(fs, p)
    case OtherInput(t) => Failure(InvalidInput("Input must be a file path (string) or Buffer", t))
  }

  /** Normalization fails only with a missing file, a wrong input type, or the host's error for a path it cannot read. */
  lemma NormalizeInputErrors(input: NodeInput, fs: FileSystem)
    ensures NormalizeInput(input, fs).Failure? ==>
      || NormalizeInput(input, fs).error.FileNotFound?
      || NormalizeInput(input, fs).error.InvalidInput?
      || HostReadError(fs, input, NormalizeInput(input, fs).error)
    ensures NormalizeInput(input, fs).Failure? && NormalizeInput(input, fs).error.FileNotFound? ==>
      input.PathInput? && !FileExists(fs, ToAbsolutePath(fs, input.path))
  {
    if input.PathInput? && FileExists(fs, ToAbsolutePath(fs, input.path)) {
      var entry := fs.files[fs.resolve(ToAbsolutePath(fs, input.path))];
      if entry.Unreadable? {
        assert NormalizeInput(input, fs) == Failure(entry.readError);
      }
    }
  }

  // ---------------------------------------------------------------------------
  // Output naming
  // ---------------------------------------------------------------------------

  /** `name.replace(/\.[^.]+$/, "")`: drop a final dot followed by one or more non-dot characters. */
  function StripExtension(name: string): (base: string)
    ensures |base| <= |name| && base == name[..|base|]
    // no dot, or nothing after the last one: the name is kept whole
    ensures '.' !in name || AfterLast(name, '.') == "" ==> base == name
    // otherwise exactly the last dot and what follows it are removed
    ensures '.' in name && AfterLast(name, '.') != "" ==> base + "." + AfterLast(name, '.') == name
  {
    var ext := AfterLast(name, '.');
    AfterLastIsSuffix(name, '.');
    LastExtensionSplit(name);
    if ext != "" && |ext| < |name| then name[..|name| - |ext| - 1] else name
  }

  /** A name is its whole last piece when it has no dot, and otherwise the part before the last dot, the dot, and the last piece. */
  lemma LastExtensionSplit(name: string)
    ensures '.' !in name ==> AfterLast(name, '.') == name
    ensures '.' in name ==>
      var ext := AfterLast(name, '.');
      |ext| < |name| && name == name[..|name| - |ext| - 1] + "." + ext
  {
    var ext := AfterLast(name, '.');
    AfterLastIsSuffix(name, '.');
    if '.' !in name {
      SplitWithoutSeparator(name, '.');
    } else {
      AfterLastFollowsSeparator(name, '.');
      assert name == name[..|name| - |ext| - 1] + "." + ext;
    }
  }

  const WebpExtension := ".webp"

  /** `generateOutputFilename`. */
  function GenerateOutputFilename(inputPath: string, outputDir: Option<string>): (r: string)
    ensures |r| >= |WebpExtension| && r[|r| - |WebpExtension|..] == WebpExtension
  {
    var inputName := AfterLast(inputPath, '/');
    var baseName := StripExtension(inputName);
    var outputName := baseName + WebpExtension;
    if outputDir.Some? then outputDir.value + "/" + outputName else outputName
  }

  /** Without a directory the result is a bare file name. */
  lemma OutputFilenameWithoutDirectory(inputPath: string)
    ensures '/' !in GenerateOutputFilename(inputPath, None)
  {
    var inputName := AfterLast(inputPath, '/');
    var baseName := StripExtension(inputName);
    assert forall i :: 0 <= i < |baseName| ==> baseName[i] == inputName[i];
    var r := GenerateOutputFilename(inputPath, None);
    assert r == baseName + WebpExtension;
    assert forall i :: 0 <= i < |r| ==> r[i] != '/' by {
      forall i | 0 <= i < |r|
        ensures r[i] != '/'
      {
        if i < |baseName| {
          assert r[i] == inputName[i];
        } else {
          assert r[i] == WebpExtension[i - |baseName|];
        }
      }
    }
  }

  /** With a directory the result is that directory, a slash, and the bare name. */
  lemma OutputFilenameWithDirectory(inputPath: string, dir: string)
    ensures GenerateOutputFilename(inputPath, Some(dir)) == dir + "/" + GenerateOutputFilename(inputPath, None)
  {
  }

  /** Stripping `stem.ext` with a non-empty, dot-free extension leaves the stem, dots and all. */
  lemma StripLastExtension(stem: string, ext: string)
    requires '.' !in ext && ext != ""
    ensures StripExtension(stem + "." + ext) == stem
  {
    var name := stem + "." + ext;
    AfterLastAfterSeparator(stem, '.', ext);
    assert '.' in name by { assert name[|stem|] == '.'; }
    assert stem + "." + ext == name;
  }

  /** Only the last extension is replaced; dots earlier in the name stay. */
  lemma OutputFilenameReplacesLastExtension(stem: string, ext: string)
    requires '/' !in stem && '/' !in ext && '.' !in ext && ext != ""
    ensures GenerateOutputFilename(stem + "." + ext, None) == stem + WebpExtension
  {
    var name := stem + "." + ext;
    assert '/' !in name;
    SplitWithoutSeparator(name, '/');
    StripLastExtension(stem, ext);
  }

  /** A path with directories: only its last segment is named, with its last extension replaced. */
  lemma OutputFilenameOfPath(dir: string, stem: string, ext: string)
    requires '/' !in stem && '/' !in ext && '.' !in ext && ext != ""
    ensures GenerateOutputFilename(dir + "/" + stem + "." + ext, None) == stem + WebpExtension
  {
    var name := stem + "." + ext;
    assert '/' !in name;
    AfterLastAfterSeparator(dir, '/', name);
    assert dir + "/" + stem + "." + ext == dir + ['/'] + name;
    StripLastExtension(stem, ext);
  }

  /** The example of a double extension: `a.tar.gz` becomes `a.tar.webp`. */
  lemma DoubleExtensionExample()
    ensures GenerateOutputFilename("a.tar.gz", None) == "a.tar.webp"
  {
    assert '/' !in "a.tar" && '.' !in "gz" by { }
    OutputFilenameReplacesLastExtension("a.tar", "gz");
    assert "a.tar" + "." + "gz" == "a.tar.gz" by { }
    assert "a.tar" + WebpExtension == "a.tar.webp" by { }
  }
}
