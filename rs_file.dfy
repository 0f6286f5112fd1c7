// The static-file handler of the Rust server (src/capsule/file.rs): the
// redirect that gives a directory its trailing `/` and takes it from a
// file (`clean_path`), and `process_file_request`, which refuses paths
// leaving the root, serves a file, or lists a directory with its folders
// before its files, each group sorted. The filesystem is a snapshot;
// reading a file, its MIME type and the conversion of a name to text are
// parameters.
module RustFile {
  import opened Wrappers
  import opened Bytes
  import opened RustIo
  import Strings
  import RustPath
  import PathUtil
  import Listing
  import Capsule
  import opened RustFs

  /** The accessors of the request the handler reads. */
  datatype FileRequest = FileRequest(path: string, query: string)

  /** What the host provides: `fs::read_to_string`, `get_mimetype`, and
      `OsStr::to_str` on an entry's name. */
  datatype FileHost = FileHost(read: RustPath.Path -> Result<string, IoError>,
                               mimeType: RustPath.Path -> string,
                               toStr: seq<Byte> -> Option<string>)

  /** How a request ends: a response or none (the next handler is asked),
      an error passed up, or a panic of the task. */
  datatype Outcome = Done(response: Option<Capsule.Response>) | Failed(error: IoError) | Panicked

  const PERMISSION_DENIED := "Permission denied"
  const GEMTEXT := "text/gemini"
  const FOLDER_ICON := "\U{1F4C2}"
  const FILE_ICON := "\U{1F4C3}"

  /** A path of the request joined to the root: as written, `Path::join`,
      which an absolute path replaces; corrected, `Below`. */
  function Inside(root: RustPath.Path, path: string, asWritten: bool): RustPath.Path {
    var cs := RustPath.Components(Utf8(path));
    if asWritten then RustPath.JoinPath(root, cs) else Below(root, cs)
  }

  // ------------------------------------------------------------ clean_path

  /** `clean_path` from the state of one turn of its loop: an entry that
      exists ends the loop, with a redirect when the path had to change
      (a directory gets its `/`); an entry that is missing loses one
      trailing `/` from both paths and is tried again. */
  function Clean(fs: Fs, root: RustPath.Path, path: string, redirect: string, req: FileRequest,
                 asWritten: bool): (r: Outcome)
    ensures r.Done? && r.response.Some? && req.query != "" ==> r.response.value.RedirectTemp?
    ensures r.Done? && r.response.Some? && req.query == "" ==> r.response.value.RedirectPerm?
    decreases |redirect|
  {
    match Metadata(fs, Inside(root, path, asWritten), Strings.EndsWith(path, "/"))
    case Ok(node) =>
      var target := if node.Dir? && !Strings.EndsWith(redirect, "/") then redirect + "/" else redirect;
      if target == req.path then Done(None)
      else if req.query != "" then Done(Some(Capsule.RedirectTemp(target + "?" + req.query)))
      else Done(Some(Capsule.RedirectPerm(target)))
    case Err(e) =>
      if !Strings.EndsWith(redirect, "/") then Failed(e)
      else if path == [] then Panicked
      else Clean(fs, root, path[..|path| - 1], redirect[..|redirect| - 1], req, asWritten)
  }

  /** `clean_path`, its loop reassigning both paths. */
  method CleanPath(fs: Fs, root: RustPath.Path, path: string, req: FileRequest) returns (r: Outcome)
    ensures r == Clean(fs, root, path, req.path, req, false)
  {
    var local := path;
    var redirect := req.path;
    while true
      invariant Clean(fs, root, local, redirect, req, false) == Clean(fs, root, path, req.path, req, false)
      decreases |redirect|
    {
      var file := Inside(root, local, false);
      var metadata := Metadata(fs, file, Strings.EndsWith(local, "/"));
      if metadata.Ok? {
        if metadata.value.Dir? && !Strings.EndsWith(redirect, "/") {
          redirect := redirect + "/";
        }
        if redirect != req.path {
          if req.query != "" {
            redirect := redirect + "?" + req.query;
            return Done(Some(Capsule.RedirectTemp(redirect)));
          }
          return Done(Some(Capsule.RedirectPerm(redirect)));
        }
        return Done(None);
      }
      if Strings.EndsWith(redirect, "/") {
        if local == [] {
          return Panicked;
        }
        redirect := redirect[..|redirect| - 1];
        local := local[..|local| - 1];
        continue;
      }
      return Failed(metadata.error);
    }
  }

  /** A directory named without its trailing `/` is redirected to the name
      with it: temporarily, keeping the query, when there is one, and
      permanently otherwise. */
  lemma DirectoryRedirect(fs: Fs, root: RustPath.Path, req: FileRequest, asWritten: bool)
    requires !Strings.EndsWith(req.path, "/")
    requires Metadata(fs, Inside(root, Local(req.path), asWritten), false).Ok?
    requires Metadata(fs, Inside(root, Local(req.path), asWritten), false).value.Dir?
    ensures Clean(fs, root, Local(req.path), req.path, req, asWritten)
      == Done(Some(if req.query != "" then Capsule.RedirectTemp(req.path + "/" + "?" + req.query)
                   else Capsule.RedirectPerm(req.path + "/")))
  {
    if Strings.StartsWith(req.path, "/") && Local(req.path) != [] {
      assert req.path[|req.path| - 1..] == Local(req.path)[|Local(req.path)| - 1..];
    }
    assert req.path + "/" != req.path;
  }

  /** An entry that exists under the path as requested, and is no
      directory lacking its `/`, is served without a redirect. */
  lemma NoRedirectWhenPresent(fs: Fs, root: RustPath.Path, req: FileRequest, asWritten: bool)
    requires var m := Metadata(fs, Inside(root, Local(req.path), asWritten), Strings.EndsWith(Local(req.path), "/"));
      m.Ok? && (m.value.Dir? ==> Strings.EndsWith(req.path, "/"))
    ensures Clean(fs, root, Local(req.path), req.path, req, asWritten) == Done(None)
  {
  }

  /** A missing entry requested with a trailing `/` is looked up again
      without it, on both paths. */
  lemma TrailingSlashRetried(fs: Fs, root: RustPath.Path, path: string, redirect: string, req: FileRequest,
                             asWritten: bool)
    requires Metadata(fs, Inside(root, path, asWritten), Strings.EndsWith(path, "/")).Err?
    requires Strings.EndsWith(redirect, "/") && path != []
    ensures Clean(fs, root, path, redirect, req, asWritten)
      == Clean(fs, root, path[..|path| - 1], redirect[..|redirect| - 1], req, asWritten)
  {
  }

  /** A trailing `/` survives the removal of the leading one. */
  lemma LocalSlash(name: string)
    requires name != ""
    ensures Local(name + "/") == Local(name) + "/"
  {
    if Strings.StartsWith(name + "/", "/") {
      assert (name + "/")[1..] == name[1..] + "/";
    }
  }

  /** A trailing `/` leaves the joined path as it is. */
  lemma InsideSlash(root: RustPath.Path, local: string, asWritten: bool)
    requires local != ""
    ensures Inside(root, local + "/", asWritten) == Inside(root, local, asWritten)
  {
    Utf8Append(local, "/");
    assert Utf8("/") == [RustPath.SLASH];
    assert Utf8(local) == EncodeChar(local[0]) + Utf8(local[1..]);
    RustPath.ComponentsTrailingSlash(Utf8(local));
  }

  /** A file requested with a trailing `/` is redirected to its name
      without it: the lookup with the `/` fails, the one without finds the
      file. */
  lemma FileLosesSlash(fs: Fs, root: RustPath.Path, name: string, query: string, asWritten: bool)
    requires Local(name) != "" && !Strings.EndsWith(Local(name), "/")
    requires Metadata(fs, Inside(root, Local(name), asWritten), false) == Ok(File)
    ensures var req := FileRequest(name + "/", query);
      Clean(fs, root, Local(req.path), req.path, req, asWritten)
      == Done(Some(if query != "" then Capsule.RedirectTemp(name + "?" + query) else Capsule.RedirectPerm(name)))
  {
    var req := FileRequest(name + "/", query);
    var local := Local(name);
    LocalSlash(name);
    InsideSlash(root, local, asWritten);
    var slashed := local + "/";
    assert Strings.EndsWith(slashed, "/") && slashed[..|slashed| - 1] == local by {
      assert slashed[|slashed| - 1..] == "/";
    }
    assert Strings.EndsWith(req.path, "/") && req.path[..|req.path| - 1] == name by {
      assert req.path[|req.path| - 1..] == "/";
    }
    TrailingSlashRetried(fs, root, slashed, req.path, req, asWritten);
    FoundFile(fs, root, local, name, req, asWritten);
  }

  /** A file found under a redirect path other than the request's is a
      redirect to that path. */
  lemma FoundFile(fs: Fs, root: RustPath.Path, path: string, redirect: string, req: FileRequest, asWritten: bool)
    requires !Strings.EndsWith(path, "/") && redirect != req.path
    requires Metadata(fs, Inside(root, path, asWritten), false) == Ok(File)
    ensures Clean(fs, root, path, redirect, req, asWritten)
      == Done(Some(if req.query != "" then Capsule.RedirectTemp(redirect + "?" + req.query)
                   else Capsule.RedirectPerm(redirect)))
  {
  }

  /** The request path `/` under a missing root loses its `/`, and the
      path below the root, already empty, cannot lose one: the slice
      panics. */
  lemma MissingRootPanics(fs: Fs, root: RustPath.Path, query: string, asWritten: bool)
    requires root !in fs
    ensures Clean(fs, root, Local("/"), "/", FileRequest("/", query), asWritten) == Panicked
  {
    assert Utf8("") == [];
    var none: seq<Byte> := [];
    assert Strings.Split(none, RustPath.SLASH) == [[]];
    var pieces: seq<seq<Byte>> := [[]];
    assert RustPath.Pieces(pieces) == [] by {
      assert pieces[1..] == [];
      assert RustPath.Piece(pieces[0]) == [];
    }
    assert RustPath.Components([]) == [];
    assert Inside(root, "", asWritten) == root;
    assert Local("/") == "";
  }

  // ------------------------------------------------------------ the listing

  /** The loop over a directory's entries: a name that is not text is
      skipped, a directory goes to the folders with a trailing `/`, every
      other entry to the files; an entry whose metadata fails ends the loop
      with that error. */
  function Collect(fs: Fs, dir: RustPath.Path, entries: seq<seq<Byte>>, toStr: seq<Byte> -> Option<string>)
    : (r: Result<(seq<string>, seq<string>), IoError>)
    ensures r.Ok? ==> |r.value.0| + |r.value.1| <= |entries|
    ensures r.Ok? ==> forall i :: 0 <= i < |r.value.0| ==> Strings.EndsWith(r.value.0[i], "/")
    decreases |entries|
  {
    if entries == [] then Ok(([], []))
    else match toStr(entries[0])
      case None => Collect(fs, dir, entries[1..], toStr)
      case Some(name) =>
        match Metadata(fs, RustPath.JoinPath(dir, [RustPath.Normal(entries[0])]), false)
        case Err(e) => Err(e)
        case Ok(node) =>
          var rest := Collect(fs, dir, entries[1..], toStr);
          if node.Dir? then
            assert Strings.EndsWith(name + "/", "/") by { assert (name + "/")[|name + "/"| - 1..] == "/"; }
            AddFolder(name + "/", rest)
          else AddFile(name, rest)
  }

  /** A folder in front of the names found after it. */
  function AddFolder(folder: string, rest: Result<(seq<string>, seq<string>), IoError>)
    : (r: Result<(seq<string>, seq<string>), IoError>)
    ensures rest.Err? <==> r.Err?
    ensures rest.Ok? ==> r.value == ([folder] + rest.value.0, rest.value.1)
  {
    match rest
    case Err(e) => Err(e)
    case Ok((folders, files)) => Ok(([folder] + folders, files))
  }

  /** A file in front of the names found after it. */
  function AddFile(file: string, rest: Result<(seq<string>, seq<string>), IoError>)
    : (r: Result<(seq<string>, seq<string>), IoError>)
    ensures rest.Err? <==> r.Err?
    ensures rest.Ok? ==> r.value == (rest.value.0, [file] + rest.value.1)
  {
    match rest
    case Err(e) => Err(e)
    case Ok((folders, files)) => Ok((folders, [file] + files))
  }

  /** The text of the names seen so far followed by those of the rest. */
  function Prefixed(folders: seq<string>, files: seq<string>, rest: Result<(seq<string>, seq<string>), IoError>)
    : Result<(seq<string>, seq<string>), IoError>
  {
    match rest
    case Err(e) => Err(e)
    case Ok((fs, fi)) => Ok((folders + fs, files + fi))
  }

  lemma PrefixedFolder(folders: seq<string>, files: seq<string>, folder: string,
                       rest: Result<(seq<string>, seq<string>), IoError>)
    ensures Prefixed(folders + [folder], files, rest) == Prefixed(folders, files, AddFolder(folder, rest))
  {
    if rest.Ok? {
      assert (folders + [folder]) + rest.value.0 == folders + ([folder] + rest.value.0);
    }
  }

  lemma PrefixedFile(folders: seq<string>, files: seq<string>, file: string,
                     rest: Result<(seq<string>, seq<string>), IoError>)
    ensures Prefixed(folders, files + [file], rest) == Prefixed(folders, files, AddFile(file, rest))
  {
    if rest.Ok? {
      assert (files + [file]) + rest.value.1 == files + ([file] + rest.value.1);
    }
  }

  /** The `while let` over `read_dir`, pushing into `folders` and `files`. */
  method CollectEntries(fs: Fs, dir: RustPath.Path, entries: seq<seq<Byte>>, toStr: seq<Byte> -> Option<string>)
    returns (r: Result<(seq<string>, seq<string>), IoError>)
    ensures r == Collect(fs, dir, entries, toStr)
  {
    var folders: seq<string> := [];
    var files: seq<string> := [];
    var i := 0;
    assert entries[i..] == entries;
    ghost var all := Collect(fs, dir, entries, toStr);
    if all.Ok? {
      assert [] + all.value.0 == all.value.0 && [] + all.value.1 == all.value.1;
    }
    while i < |entries|
      invariant 0 <= i <= |entries|
      invariant Prefixed(folders, files, Collect(fs, dir, entries[i..], toStr)) == Collect(fs, dir, entries, toStr)
    {
      assert entries[i..][1..] == entries[i + 1..];
      var name := toStr(entries[i]);
      if name.None? {
        i := i + 1;
        continue;
      }
      var meta := Metadata(fs, RustPath.JoinPath(dir, [RustPath.Normal(entries[i])]), false);
      if meta.Err? {
        return Err(meta.error);
      }
      ghost var rest := Collect(fs, dir, entries[i + 1..], toStr);
      if meta.value.Dir? {
        PrefixedFolder(folders, files, name.value + "/", rest);
        folders := folders + [name.value + "/"];
      } else {
        PrefixedFile(folders, files, name.value, rest);
        files := files + [name.value];
      }
      i := i + 1;
    }
    assert entries[i..] == [];
    assert folders + [] == folders && files + [] == files;
    return Ok((folders, files));
  }

  /** The listing of a directory: folders marked with a folder icon,
      files with a page icon. */
  function DirectoryListing(path: string, folders: seq<string>, files: seq<string>): string {
    Listing.Text(path, folders, files, FOLDER_ICON + " ", FILE_ICON + " ")
  }

  // ------------------------------------------------------------ the request

  /** `process_file_request`: a path leaving the root is refused with
      status 50; then the redirect of `clean_path`; then the target is a
      file (served with its MIME type), a directory (listed) or neither
      (refused). */
  function FileReply(req: FileRequest, root: RustPath.Path, fs: Fs, host: FileHost, asWritten: bool): (r: Outcome)
    ensures Target(req.path, root, asWritten).None? ==> r == Done(Some(Capsule.FailurePerm(PERMISSION_DENIED)))
  {
    match Target(req.path, root, asWritten)
    case None => Done(Some(Capsule.FailurePerm(PERMISSION_DENIED)))
    case Some(file) =>
      match Clean(fs, root, Local(req.path), req.path, req, asWritten)
      case Panicked => Panicked
      case Failed(e) => Failed(e)
      case Done(Some(redirect)) => Done(Some(redirect))
      case Done(None) =>
        match Metadata(fs, file, false)
        case Err(e) => Failed(e)
        case Ok(File) =>
          (match host.read(file)
           case Err(e) => Failed(e)
           case Ok(text) => Done(Some(Capsule.Success(host.mimeType(file), text))))
        case Ok(Dir(entries)) =>
          (match Collect(fs, file, entries, host.toStr)
           case Err(e) => Failed(e)
           case Ok((folders, files)) => Done(Some(Capsule.Success(GEMTEXT, DirectoryListing(req.path, folders, files)))))
        case Ok(Special) => Done(Some(Capsule.FailurePerm(PERMISSION_DENIED)))
  }

  /** The refusal has status 50 and comes before any lookup. */
  lemma TraversalRefused(req: FileRequest, root: RustPath.Path, fs: Fs, host: FileHost, asWritten: bool)
    requires PathUtil.Traverse([], RustPath.Components(Utf8(Local(req.path)))).Err?
    ensures FileReply(req, root, fs, host, asWritten).Done?
    ensures var resp := FileReply(req, root, fs, host, asWritten).response;
      resp.Some? && Capsule.Code(resp.value) == 50 && Capsule.Meta(resp.value) == PERMISSION_DENIED
  {
  }

  /** As written, the request path `//e` names `/e` whatever the root:
      the traversal check keeps the root component, and joining an
      absolute path replaces the root. When `/e` is a file and the root
      holds no `e`, its contents are served. */
  lemma DoubleSlashAsWritten(root: RustPath.Path, fs: Fs, host: FileHost)
    requires var outside := [RustPath.RootDir, RustPath.Normal([0x65])];
      outside in fs && fs[outside] == File && host.read(outside).Ok?
    ensures var outside := [RustPath.RootDir, RustPath.Normal([0x65])];
      && Target("//e", root, true) == Some(outside)
      && FileReply(FileRequest("//e", ""), root, fs, host, true)
         == Done(Some(Capsule.Success(host.mimeType(outside), host.read(outside).value)))
  {
    var outside := [RustPath.RootDir, RustPath.Normal([0x65])];
    RootedName();
    assert Local("//e") == "/e";
    assert Inside(root, "/e", true) == outside;
    assert !Strings.EndsWith("/e", "/");
    assert Clean(fs, root, "/e", "//e", FileRequest("//e", ""), true) == Done(None);
  }

  /** `process_file_request` with the corrected join. */
  method ProcessFileRequest(req: FileRequest, root: RustPath.Path, fs: Fs, host: FileHost) returns (r: Outcome)
    ensures r == FileReply(req, root, fs, host, false)
  {
    var path := if Strings.StartsWith(req.path, "/") then req.path[1..] else req.path;
    var safe := PathUtil.TraversalSafe(RustPath.Components(Utf8(path)));
    if safe.Err? {
      return Done(Some(Capsule.FailurePerm(PERMISSION_DENIED)));
    }
    var file := Below(root, safe.value);
    var redirect := CleanPath(fs, root, path, req);
    if !redirect.Done? || redirect.response.Some? {
      return redirect;
    }
    var metadata := Metadata(fs, file, false);
    if metadata.Err? {
      return Failed(metadata.error);
    }
    match metadata.value
    case File =>
      var text := host.read(file);
      if text.Err? {
        return Failed(text.error);
      }
      return Done(Some(Capsule.Success(host.mimeType(file), text.value)));
    case Dir(entries) =>
      var collected := CollectEntries(fs, file, entries, host.toStr);
      if collected.Err? {
        return Failed(collected.error);
      }
      var response := Listing.Build(req.path, collected.value.0, collected.value.1, FOLDER_ICON + " ", FILE_ICON + " ");
      return Done(Some(Capsule.Success(GEMTEXT, response)));
    case Special =>
      return Done(Some(Capsule.FailurePerm(PERMISSION_DENIED)));
  }
}
