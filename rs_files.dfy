// The newer static-file capsule of the Rust server (src/capsule/files.rs):
// `test`, which accepts a path by its extension, `serve`, which refuses
// paths leaving the directory and redirects so that directories end with
// `/` and files do not, `read_file`, which serves a file, a directory's
// index file or a listing of the directory, and the loader's `can_load`.
// The filesystem is a snapshot; reading a file, its MIME type, the
// conversion of a name to text and `pathutil::splitext` are parameters.
module RustFiles {
  import opened Wrappers
  import opened Bytes
  import opened RustIo
  import Strings
  import RustPath
  import PathUtil
  import Listing
  import opened RustFs

  /** The fields of `FileCapsule` the handler reads; the cache lifetime is
      a whole number of ticks. */
  datatype FileCapsule = FileCapsule(directory: RustPath.Path, extensions: seq<string>,
                                     serveFolders: bool, cache: Option<int>)

  /** What the host provides: `fs::read_to_string`, `get_mimetype`,
      `OsStr::to_str` on an entry's name and `pathutil::splitext`, which
      gives a name's stem and extension. */
  datatype FilesHost = FilesHost(read: RustPath.Path -> Result<string, IoError>,
                                 mimeType: RustPath.Path -> string,
                                 toStr: seq<Byte> -> Option<string>,
                                 splitext: string -> (string, string))

  /** A TOML value, as far as `can_load` looks into it. */
  datatype Toml = Table(entries: map<string, Toml>) | Array(items: seq<Toml>) | Scalar

  const UNABLE_FOLDERS := "Unable to serve folders"
  const NEITHER := "This is neither a file or a folder"
  const GEMTEXT := "text/gemini"
  const DENIED := "51 Permission Denied\r\n"
  const NOT_FOUND := "51 File not found\r\n"

  // ------------------------------------------------------------ test

  /** `test`: with no extension list every path is accepted; otherwise a
      path is refused when its base name has an extension that is not
      listed (compared as written), or when `expand` rejects it. */
  function Test(c: FileCapsule, file: string, splitext: string -> (string, string)): (r: bool)
    ensures c.extensions == [] ==> r
    ensures var ext := splitext(PathUtil.Basename(file)).1;
      c.extensions != [] && ext != "" && ext !in c.extensions ==> !r
    ensures c.extensions != [] && PathUtil.ExpandAsWritten(file).Err? ==> !r
    ensures var ext := splitext(PathUtil.Basename(file)).1;
      c.extensions != [] && (ext == "" || ext in c.extensions) ==> (r <==> PathUtil.ExpandAsWritten(file).Ok?)
    ensures !r ==> c.extensions != []
  {
    if c.extensions == [] then true
    else
      var ext := splitext(PathUtil.Basename(file)).1;
      if ext != "" && ext !in c.extensions then false
      else PathUtil.ExpandAsWritten(file).Ok?
  }

  /** An extension-less name is judged by `expand` alone. */
  lemma TestWithoutExtension(c: FileCapsule, file: string, splitext: string -> (string, string))
    requires splitext(PathUtil.Basename(file)).1 == ""
    ensures Test(c, file, splitext) <==> c.extensions == [] || PathUtil.ExpandAsWritten(file).Ok?
  {
  }

  // ------------------------------------------------------------ read_file

  /** The path of a directory entry. */
  function Child(dir: RustPath.Path, name: seq<Byte>): RustPath.Path {
    RustPath.JoinPath(dir, [RustPath.Normal(name)])
  }

  /** Whether a file's extension is served: every extension when the list
      is empty, otherwise those listed, compared in lower case. */
  predicate Allowed(extensions: seq<string>, ext: string) {
    extensions == [] || Strings.Lower(ext) in extensions
  }

  /** An entry that is a regular file with an allowed extension and the
      stem `index` in any case. */
  predicate IsIndex(c: FileCapsule, fs: Fs, dir: RustPath.Path, e: seq<Byte>, host: FilesHost) {
    && host.toStr(e).Some?
    && Metadata(fs, Child(dir, e), false) == Ok(File)
    && Allowed(c.extensions, host.splitext(host.toStr(e).value).1)
    && Strings.Lower(host.splitext(host.toStr(e).value).0) == "index"
  }

  /** What the walk over a directory finds: an index file, or the names
      of its folders (with a trailing `/`) and of its served files. */
  datatype Found = Index(file: RustPath.Path) | Names(folders: seq<string>, files: seq<string>)

  /** The walk over a directory's entries: a name that is not text is
      skipped; an error reading an entry's type ends the walk; anything
      but a regular file is a folder; a file whose extension is not served
      is skipped; the first index file ends the walk. */
  function Scan(c: FileCapsule, fs: Fs, dir: RustPath.Path, entries: seq<seq<Byte>>, host: FilesHost)
    : (r: Result<Found, IoError>)
    ensures r.Ok? && r.value.Names? ==> forall i :: 0 <= i < |r.value.folders| ==> Strings.EndsWith(r.value.folders[i], "/")
    decreases |entries|
  {
    if entries == [] then Ok(Names([], []))
    else match host.toStr(entries[0])
      case None => Scan(c, fs, dir, entries[1..], host)
      case Some(name) =>
        match Metadata(fs, Child(dir, entries[0]), false)
        case Err(e) => Err(e)
        case Ok(node) =>
          if !node.File? then
            assert Strings.EndsWith(name + "/", "/") by { assert (name + "/")[|name + "/"| - 1..] == "/"; }
            AddFolder(name + "/", Scan(c, fs, dir, entries[1..], host))
          else if !Allowed(c.extensions, host.splitext(name).1) then Scan(c, fs, dir, entries[1..], host)
          else if Strings.Lower(host.splitext(name).0) == "index" then Ok(Index(Child(dir, entries[0])))
          else AddFile(name, Scan(c, fs, dir, entries[1..], host))
  }

  /** A folder in front of the names found after it. */
  function AddFolder(folder: string, rest: Result<Found, IoError>): (r: Result<Found, IoError>)
    ensures rest.Ok? && rest.value.Names? ==> r == Ok(Names([folder] + rest.value.folders, rest.value.files))
    ensures !(rest.Ok? && rest.value.Names?) ==> r == rest
  {
    match rest
    case Ok(Names(folders, files)) => Ok(Names([folder] + folders, files))
    case _ => rest
  }

  /** A file in front of the names found after it. */
  function AddFile(file: string, rest: Result<Found, IoError>): (r: Result<Found, IoError>)
    ensures rest.Ok? && rest.value.Names? ==> r == Ok(Names(rest.value.folders, [file] + rest.value.files))
    ensures !(rest.Ok? && rest.value.Names?) ==> r == rest
  {
    match rest
    case Ok(Names(folders, files)) => Ok(Names(folders, [file] + files))
    case _ => rest
  }

  /** The names seen so far followed by what the rest of the walk finds. */
  function Prefixed(folders: seq<string>, files: seq<string>, rest: Result<Found, IoError>): Result<Found, IoError> {
    match rest
    case Ok(Names(fo, fi)) => Ok(Names(folders + fo, files + fi))
    case _ => rest
  }

  lemma PrefixedFolder(folders: seq<string>, files: seq<string>, folder: string, rest: Result<Found, IoError>)
    ensures Prefixed(folders + [folder], files, rest) == Prefixed(folders, files, AddFolder(folder, rest))
  {
    if rest.Ok? && rest.value.Names? {
      assert (folders + [folder]) + rest.value.folders == folders + ([folder] + rest.value.folders);
    }
  }

  lemma PrefixedFile(folders: seq<string>, files: seq<string>, file: string, rest: Result<Found, IoError>)
    ensures Prefixed(folders, files + [file], rest) == Prefixed(folders, files, AddFile(file, rest))
  {
    if rest.Ok? && rest.value.Names? {
      assert (files + [file]) + rest.value.files == files + ([file] + rest.value.files);
    }
  }

  /** The walk finds an index file exactly when one of the entries is
      one, and that is the file it names. */
  lemma {:induction false} ScanIndex(c: FileCapsule, fs: Fs, dir: RustPath.Path, entries: seq<seq<Byte>>, host: FilesHost)
    ensures var r := Scan(c, fs, dir, entries, host);
      r.Ok? && r.value.Index? ==>
        exists k :: 0 <= k < |entries| && IsIndex(c, fs, dir, entries[k], host) && r.value.file == Child(dir, entries[k])
    ensures var r := Scan(c, fs, dir, entries, host);
      r.Ok? && r.value.Names? ==> forall k :: 0 <= k < |entries| ==> !IsIndex(c, fs, dir, entries[k], host)
    decreases |entries|
  {
    if entries != [] {
      var r := Scan(c, fs, dir, entries, host);
      var rest := Scan(c, fs, dir, entries[1..], host);
      ScanIndex(c, fs, dir, entries[1..], host);
      if r.Ok? && r.value.Index? && !IsIndex(c, fs, dir, entries[0], host) {
        assert rest == r;
        var k :| 0 <= k < |entries[1..]| && IsIndex(c, fs, dir, entries[1..][k], host)
                  && r.value.file == Child(dir, entries[1..][k]);
        assert entries[k + 1] == entries[1..][k];
      }
      if r.Ok? && r.value.Names? {
        assert rest.Ok? && rest.value.Names?;
        forall k | 0 <= k < |entries|
          ensures !IsIndex(c, fs, dir, entries[k], host)
        {
          if k > 0 {
            assert entries[k] == entries[1..][k - 1];
          }
        }
      }
    }
  }

  /** The `while let` over `read_dir`, pushing into `folders` and `files`
      and returning at the first index file. */
  method ScanEntries(c: FileCapsule, fs: Fs, dir: RustPath.Path, entries: seq<seq<Byte>>, host: FilesHost)
    returns (r: Result<Found, IoError>)
    ensures r == Scan(c, fs, dir, entries, host)
  {
    var folders: seq<string> := [];
    var files: seq<string> := [];
    var i := 0;
    assert entries[i..] == entries;
    ghost var all := Scan(c, fs, dir, entries, host);
    if all.Ok? && all.value.Names? {
      assert [] + all.value.folders == all.value.folders && [] + all.value.files == all.value.files;
    }
    while i < |entries|
      invariant 0 <= i <= |entries|
      invariant Prefixed(folders, files, Scan(c, fs, dir, entries[i..], host)) == Scan(c, fs, dir, entries, host)
    {
      assert entries[i..][1..] == entries[i + 1..];
      var name := host.toStr(entries[i]);
      if name.None? {
        i := i + 1;
        continue;
      }
      var meta := Metadata(fs, Child(dir, entries[i]), false);
      if meta.Err? {
        return Err(meta.error);
      }
      ghost var rest := Scan(c, fs, dir, entries[i + 1..], host);
      if !meta.value.File? {
        PrefixedFolder(folders, files, name.value + "/", rest);
        folders := folders + [name.value + "/"];
        i := i + 1;
        continue;
      }
      var (stem, ext) := host.splitext(name.value);
      if !Allowed(c.extensions, ext) {
        i := i + 1;
        continue;
      }
      if Strings.Lower(stem) == "index" {
        return Ok(Index(Child(dir, entries[i])));
      }
      PrefixedFile(folders, files, name.value, rest);
      files := files + [name.value];
      i := i + 1;
    }
    assert entries[i..] == [];
    assert folders + [] == folders && files + [] == files;
    return Ok(Names(folders, files));
  }

  /** `read_file`: the MIME type and text of a file; for a directory,
      those of its index file, or else its listing when folders are
      served; anything else is refused. */
  function ReadResult(c: FileCapsule, fs: Fs, file: RustPath.Path, path: string, host: FilesHost)
    : (r: Result<(string, string), IoError>)
    ensures Metadata(fs, file, false).Err? ==> r == Err(Metadata(fs, file, false).error)
    ensures Metadata(fs, file, false) == Ok(Special) ==> r == Err(IoError(PermissionDenied, NEITHER))
  {
    match Metadata(fs, file, false)
    case Err(e) => Err(e)
    case Ok(File) =>
      (match host.read(file)
       case Err(e) => Err(e)
       case Ok(text) => Ok((host.mimeType(file), text)))
    case Ok(Dir(entries)) =>
      (match Scan(c, fs, file, entries, host)
       case Err(e) => Err(e)
       case Ok(Index(index)) =>
         (match host.read(index)
          case Err(e) => Err(e)
          case Ok(text) => Ok((host.mimeType(index), text)))
       case Ok(Names(folders, files)) =>
         if !c.serveFolders then Err(IoError(PermissionDenied, UNABLE_FOLDERS))
         else Ok((GEMTEXT, Listing.Text(path, folders, files, "", ""))))
    case Ok(Special) => Err(IoError(PermissionDenied, NEITHER))
  }

  /** `read_file`. */
  method ReadFile(c: FileCapsule, fs: Fs, file: RustPath.Path, path: string, host: FilesHost)
    returns (r: Result<(string, string), IoError>)
    ensures r == ReadResult(c, fs, file, path, host)
  {
    var metadata := Metadata(fs, file, false);
    if metadata.Err? {
      return Err(metadata.error);
    }
    match metadata.value
    case File =>
      var text := host.read(file);
      if text.Err? {
        return Err(text.error);
      }
      return Ok((host.mimeType(file), text.value));
    case Dir(entries) =>
      var found := ScanEntries(c, fs, file, entries, host);
      if found.Err? {
        return Err(found.error);
      }
      match found.value {
        case Index(index) =>
          var text := host.read(index);
          if text.Err? {
            return Err(text.error);
          }
          return Ok((host.mimeType(index), text.value));
        case Names(folders, files) =>
          if !c.serveFolders {
            return Err(IoError(PermissionDenied, UNABLE_FOLDERS));
          }
          var response := Listing.Build(path, folders, files, "", "");
          return Ok((GEMTEXT, response));
      }
    case Special =>
      return Err(IoError(PermissionDenied, NEITHER));
  }

  // ------------------------------------------------------------ serve

  /** The redirect `serve` answers with, from the request path and the
      extension `splitext` finds in it: a path without an extension gains
      a trailing `/`, a path with one loses it. */
  function Redirect(path: string, ext: string): (r: Option<string>)
    ensures r.Some? <==> (ext == "") != Strings.EndsWith(path, "/")
    ensures r.Some? && ext == "" ==> r.value == path + "/"
    ensures r.Some? && ext != "" ==> r.value + "/" == path
  {
    if ext == "" && !Strings.EndsWith(path, "/") then Some(path + "/")
    else if ext != "" && Strings.EndsWith(path, "/") then
      assert path == path[..|path| - 1] + "/";
      Some(path[..|path| - 1])
    else None
  }

  /** The path a redirect leads to is not redirected again, unless it
      still ends with `/` because the request ended with two. */
  lemma RedirectSettles(path: string, ext: string)
    requires Redirect(path, ext).Some? && !Strings.EndsWith(path, "//")
    ensures Redirect(Redirect(path, ext).value, ext).None?
  {
    var t := Redirect(path, ext).value;
    if ext != "" {
      assert path == t + "/";
      if |t| > 0 {
        assert path[|path| - 2..] == [t[|t| - 1]] + "/";
      }
    }
  }

  /** The response text of `serve`: a path leaving the directory is
      refused; then the redirects; then the file, or status 51 with a
      reason that tells a refusal from anything else. */
  function Reply(c: FileCapsule, fs: Fs, path: string, host: FilesHost, asWritten: bool): (r: string)
    ensures |r| >= 3 && (r[..3] == "20 " || r[..3] == "31 " || r[..3] == "51 ")
  {
    assert DENIED[..3] == "51 " && NOT_FOUND[..3] == "51 ";
    match Target(path, c.directory, asWritten)
    case None => DENIED
    case Some(file) =>
      match Redirect(path, host.splitext(path).1)
      case Some(target) => "31 " + target + "\r\n"
      case None =>
        Answer(ReadResult(c, fs, file, path, host))
  }

  /** The response to what `read_file` returned: status 20 with its MIME
      type and text, or status 51 telling a refusal from anything else. */
  function Answer(read: Result<(string, string), IoError>): (r: string)
    ensures read.Ok? ==> r == "20 " + read.value.0 + "\r\n" + read.value.1
    ensures read.Err? ==> r == (if read.error.kind == PermissionDenied then DENIED else NOT_FOUND)
  {
    match read
    case Ok((meta, body)) => "20 " + meta + "\r\n" + body
    case Err(e) => if e.kind == PermissionDenied then DENIED else NOT_FOUND
  }

  /** A path the traversal check refuses gets status 51 before anything
      is looked up. */
  lemma TraversalDenied(c: FileCapsule, fs: Fs, path: string, host: FilesHost, asWritten: bool)
    requires PathUtil.Traverse([], RustPath.Components(Utf8(Local(path)))).Err?
    ensures Reply(c, fs, path, host, asWritten) == DENIED
  {
  }

  /** An accepted path without an extension and without a trailing `/`
      is redirected to the path with one; one with an extension and a
      trailing `/` to the path without it. */
  lemma SlashRedirects(c: FileCapsule, fs: Fs, path: string, host: FilesHost, asWritten: bool)
    requires Target(path, c.directory, asWritten).Some?
    ensures var ext := host.splitext(path).1;
      ext == "" && !Strings.EndsWith(path, "/") ==> Reply(c, fs, path, host, asWritten) == "31 " + path + "/\r\n"
    ensures var ext := host.splitext(path).1;
      ext != "" && Strings.EndsWith(path, "/") ==> Reply(c, fs, path, host, asWritten) == "31 " + path[..|path| - 1] + "\r\n"
  {
  }

  /** The conditions under which `serve` hands a path to `read_file`. */
  predicate Reaches(c: FileCapsule, path: string, host: FilesHost, asWritten: bool, file: RustPath.Path) {
    Target(path, c.directory, asWritten) == Some(file) && Redirect(path, host.splitext(path).1).None?
  }

  /** A directory holding an index file is served as that file. */
  lemma IndexServed(c: FileCapsule, fs: Fs, path: string, host: FilesHost, asWritten: bool,
                    file: RustPath.Path, entries: seq<seq<Byte>>, index: RustPath.Path)
    requires Reaches(c, path, host, asWritten, file)
    requires Metadata(fs, file, false) == Ok(Dir(entries))
    requires Scan(c, fs, file, entries, host) == Ok(Index(index)) && host.read(index).Ok?
    ensures exists k :: 0 <= k < |entries| && IsIndex(c, fs, file, entries[k], host) && index == Child(file, entries[k])
    ensures Reply(c, fs, path, host, asWritten) == "20 " + host.mimeType(index) + "\r\n" + host.read(index).value
  {
    ScanIndex(c, fs, file, entries, host);
  }

  /** A directory without an index file: refused with status 51 when
      folders are not served, otherwise listed as gemtext. */
  lemma DirectoryWithoutIndex(c: FileCapsule, fs: Fs, path: string, host: FilesHost, asWritten: bool,
                              file: RustPath.Path, entries: seq<seq<Byte>>)
    requires Reaches(c, path, host, asWritten, file)
    requires Metadata(fs, file, false) == Ok(Dir(entries))
    requires forall k :: 0 <= k < |entries| ==> !IsIndex(c, fs, file, entries[k], host)
    requires Scan(c, fs, file, entries, host).Ok?
    ensures Scan(c, fs, file, entries, host).value.Names?
    ensures var found := Scan(c, fs, file, entries, host).value;
      Reply(c, fs, path, host, asWritten)
        == if c.serveFolders then "20 " + GEMTEXT + "\r\n" + Listing.Text(path, found.folders, found.files, "", "")
           else DENIED
  {
    ScanIndex(c, fs, file, entries, host);
  }

  /** A path that names nothing gets status 51 "File not found". */
  lemma MissingNotFound(c: FileCapsule, fs: Fs, path: string, host: FilesHost, asWritten: bool, file: RustPath.Path)
    requires Reaches(c, path, host, asWritten, file) && file !in fs
    ensures Reply(c, fs, path, host, asWritten) == NOT_FOUND
  {
  }

  /** As written, the request path `//e/` names `/e` whatever the
      directory: the traversal check keeps the root component and joining
      an absolute path replaces the directory. When `/e` is a readable file
      outside the directory and `splitext` sees no extension, its contents
      are served. */
  lemma DoubleSlashAsWritten(c: FileCapsule, fs: Fs, host: FilesHost)
    requires var outside := [RustPath.RootDir, RustPath.Normal([0x65])];
      outside in fs && fs[outside] == File && host.read(outside).Ok? && host.splitext("//e/").1 == ""
    ensures var outside := [RustPath.RootDir, RustPath.Normal([0x65])];
      && Target("//e/", c.directory, true) == Some(outside)
      && Reply(c, fs, "//e/", host, true) == "20 " + host.mimeType(outside) + "\r\n" + host.read(outside).value
  {
    var outside := [RustPath.RootDir, RustPath.Normal([0x65])];
    RootedName();
    assert Local("//e/") == "/e/";
    assert Utf8("/e/") == Utf8("/e") + [RustPath.SLASH] by {
      assert "/e/" == "/e" + "/";
      Utf8Append("/e", "/");
      assert Utf8("/") == [RustPath.SLASH];
    }
    RustPath.ComponentsTrailingSlash(Utf8("/e"));
    assert Strings.EndsWith("//e/", "/") by { assert "//e/"[3..] == "/"; }
  }

  /** `serve` with the corrected join: the response text and the cache
      lifetime. */
  method Serve(c: FileCapsule, fs: Fs, path: string, host: FilesHost) returns (text: string, cache: Option<int>)
    ensures text == Reply(c, fs, path, host, false)
    ensures cache == c.cache
  {
    cache := c.cache;
    var local := if Strings.StartsWith(path, "/") then path[1..] else path;
    var safe := PathUtil.TraversalSafe(RustPath.Components(Utf8(local)));
    if safe.Err? {
      return DENIED, cache;
    }
    var file := Below(c.directory, safe.value);
    var (_, ext) := host.splitext(path);
    var redirect := Redirect(path, ext);
    if redirect.Some? {
      return "31 " + redirect.value + "\r\n", cache;
    }
    var read := ReadFile(c, fs, file, path, host);
    text := Answer(read);
  }

  // ------------------------------------------------------------ loader

  /** `can_load`: the configuration is a table whose `files` entry is
      itself a table. */
  function CanLoad(value: Toml): (r: bool)
    ensures r <==> value.Table? && "files" in value.entries && value.entries["files"].Table?
  {
    if value.Table? then
      if "files" !in value.entries then false
      else if value.entries["files"].Table? then true
      else false
    else false
  }

  /** The cache lifetime `load` gives the capsule: none when caching is
      switched off, otherwise the configured lifetime or zero. */
  function CacheLifetime(doCache: Option<bool>, cache: Option<int>): (r: Option<int>)
    ensures r.None? <==> doCache == Some(false)
    ensures r.Some? && cache.Some? ==> r.value == cache.value
    ensures r.Some? && cache.None? ==> r.value == 0
  {
    if (if doCache.Some? then doCache.value else true) then Some(if cache.Some? then cache.value else 0) else None
  }
}
