// The CGI gateway of the Rust server (src/capsule/cgi.rs): finding the script
// a request names by walking up its path, and preparing the command line,
// the RFC 3875 meta-variables and the reply. The filesystem is a snapshot
// map; opening the script, running it and the current directory are
// parameters.
module RustCgi {
  import opened Wrappers
  import opened Bytes
  import opened RustIo
  import Strings
  import Percent
  import RustPath
  import RustGlob
  import PathUtil
  import opened RustFs

  // ------------------------------------------------------------ the world

  /** The parts of `CgiConf` the gateway reads. */
  datatype CgiConf = CgiConf(cgiRoot: RustPath.Path, extensions: seq<string>, indexes: seq<RustGlob.Glob>)

  /** The accessors of the request the gateway reads. */
  datatype CgiRequest = CgiRequest(uri: string, domain: string, path: string, query: string)

  /** `CgiResponse`: the URL path of the script, the script file, and the
      rest of the URL path, which becomes `PATH_INFO`. */
  datatype Found = Found(path: string, file: RustPath.Path, cgiPath: string)

  const LEAVE_ROOT := "Attempted to leave root directory"
  const NOT_EXIST := "File does not exist"

  function NotFoundError(): IoError {
    IoError(NotFound, NOT_EXIST)
  }

  // ------------------------------------------------------------ matching

  /** `matches_extension`: an empty list accepts every file; otherwise the
      file's extension must be one of the listed ones. */
  predicate MatchesExtension(file: RustPath.Path, extensions: seq<string>) {
    extensions == []
    || (RustPath.Extension(file).Some?
        && exists i :: 0 <= i < |extensions| && Utf8(extensions[i]) == RustPath.Extension(file).value)
  }

  /** Some index glob accepts the percent-encoded name. */
  predicate IsIndexName(name: seq<Byte>, indexes: seq<RustGlob.Glob>) {
    exists i :: 0 <= i < |indexes| && |indexes[i].matchers| >= 1 && RustGlob.MatchesAsWritten(indexes[i].matchers, Percent.EncodeBinary(name))
  }

  /** The scan of a directory's entries for an index script: the first
      entry whose name an index glob accepts and which is a regular file
      with an accepted extension. An entry that vanished fails the scan. */
  function IndexIn(fs: Fs, conf: CgiConf, dir: RustPath.Path, entries: seq<seq<Byte>>): (r: Result<Option<RustPath.Path>, IoError>)
    ensures r.Err? ==> r.error == NotFoundError()
    ensures r.Ok? && r.value.Some? ==> r.value.value in fs && fs[r.value.value] == File
    ensures r.Ok? && r.value.Some? ==> MatchesExtension(r.value.value, conf.extensions)
    ensures r.Ok? && r.value.Some? ==> exists i :: 0 <= i < |entries| && r.value.value == RustPath.JoinPath(dir, [RustPath.Normal(entries[i])])
    decreases |entries|
  {
    if entries == [] then Ok(None)
    else
      var child := RustPath.JoinPath(dir, [RustPath.Normal(entries[0])]);
      if !IsIndexName(entries[0], conf.indexes) then
        var rest := IndexIn(fs, conf, dir, entries[1..]);
        assert rest.Ok? && rest.value.Some? ==> exists i :: 0 <= i < |entries| && rest.value.value == RustPath.JoinPath(dir, [RustPath.Normal(entries[i])]) by {
          if rest.Ok? && rest.value.Some? {
            var i :| 0 <= i < |entries[1..]| && rest.value.value == RustPath.JoinPath(dir, [RustPath.Normal(entries[1..][i])]);
            assert entries[1..][i] == entries[i + 1];
          }
        }
        rest
      else if child !in fs then Err(NotFoundError())
      else if fs[child] == File && MatchesExtension(child, conf.extensions) then Ok(Some(child))
      else
        var rest := IndexIn(fs, conf, dir, entries[1..]);
        assert rest.Ok? && rest.value.Some? ==> exists i :: 0 <= i < |entries| && rest.value.value == RustPath.JoinPath(dir, [RustPath.Normal(entries[i])]) by {
          if rest.Ok? && rest.value.Some? {
            var i :| 0 <= i < |entries[1..]| && rest.value.value == RustPath.JoinPath(dir, [RustPath.Normal(entries[1..][i])]);
            assert entries[1..][i] == entries[i + 1];
          }
        }
        rest
  }

  /** One look at `file`: a regular file with an accepted extension is the
      script; a directory is scanned for an index script. */
  function Probe(fs: Fs, conf: CgiConf, file: RustPath.Path): (r: Result<Option<RustPath.Path>, IoError>)
    ensures r.Ok? && r.value.Some? ==> r.value.value in fs && fs[r.value.value] == File
    ensures r.Ok? && r.value.Some? ==> MatchesExtension(r.value.value, conf.extensions)
    ensures file !in fs ==> r == Ok(None)
    ensures file in fs && fs[file] == File ==> r == (if MatchesExtension(file, conf.extensions) then Ok(Some(file)) else Ok(None))
  {
    if file !in fs then Ok(None)
    else
      match fs[file]
      case File => if MatchesExtension(file, conf.extensions) then Ok(Some(file)) else Ok(None)
      case Dir(entries) => IndexIn(fs, conf, file, entries)
      case Special => Ok(None)
  }

  // ------------------------------------------------------------ the walk

  /** The URL path with one trailing `/` removed. */
  function StripSlash(s: string): (r: string)
    ensures r == s || r + "/" == s
  {
    if Strings.EndsWith(s, "/") then s[..|s| - 1] else s
  }

  /** `replacen(pat, "", 1)`: the leftmost occurrence of `pat` removed. */
  function ReplaceFirst(s: string, pat: string): (r: string)
    ensures Strings.Find(s, pat).None? ==> r == s
    ensures Strings.Find(s, pat).Some? ==> |r| + |pat| == |s|
    ensures Strings.StartsWith(s, pat) ==> r == s[|pat|..]
  {
    match Strings.Find(s, pat)
    case None => s
    case Some(k) =>
      assert Strings.StartsWith(s, pat) ==> Strings.OccursAt(s, pat, 0);
      s[..k] + s[k + |pat|..]
  }

  /** The search of `find_cgi_file` from `file`, the URL path `cgiPath`
      standing for it: on each miss `file` moves to its parent and
      `cgiPath` to `pathutil::parent` without its trailing `/`; the search
      ends with `NotFound` when either has no parent. */
  function Search(fs: Fs, conf: CgiConf, original: string, file: RustPath.Path, cgiPath: string): (r: Result<Found, IoError>)
    decreases |file|
  {
    match Probe(fs, conf, file)
    case Err(e) => Err(e)
    case Ok(Some(script)) => Ok(Found(cgiPath, script, ReplaceFirst(original, cgiPath)))
    case Ok(None) =>
      match RustPath.Parent(file)
      case None => Err(NotFoundError())
      case Some(up) =>
        match PathUtil.Parent(cgiPath)
        case None => Err(NotFoundError())
        case Some(p) => Search(fs, conf, original, up, StripSlash(p))
  }

  /** Whatever the search finds is a regular file with an accepted
      extension, its `cgi_path` is the original path without the URL path
      of the script, and the only error it makes is `NotFound`. */
  lemma {:induction false} SearchSound(fs: Fs, conf: CgiConf, original: string, file: RustPath.Path, cgiPath: string)
    ensures var r := Search(fs, conf, original, file, cgiPath);
      && (r.Ok? ==> r.value.file in fs && fs[r.value.file] == File)
      && (r.Ok? ==> MatchesExtension(r.value.file, conf.extensions))
      && (r.Ok? ==> r.value.cgiPath == ReplaceFirst(original, r.value.path))
      && (r.Err? ==> r.error.kind == NotFound)
    decreases |file|
  {
    var here := Probe(fs, conf, file);
    if here.Ok? && here.value.None? {
      match RustPath.Parent(file)
      case None =>
      case Some(up) =>
        match PathUtil.Parent(cgiPath)
        case None =>
        case Some(p) => SearchSound(fs, conf, original, up, StripSlash(p));
    } else if here.Err? {
      assert here.error == NotFoundError() by {
        if file in fs && fs[file].Dir? {
          assert here == IndexIn(fs, conf, file, fs[file].entries);
        }
      }
    }
  }

  /** The walk is bounded by the root of the filesystem, not by the CGI
      root: with nothing under `/srv/cgi` and a regular file at `/srv`,
      a request for the CGI root itself runs `/srv` with the URL path
      `..`. */
  lemma WalkLeavesCgiRoot()
    ensures var srv := [RustPath.RootDir, RustPath.Normal([0x73])];
      var root := srv + [RustPath.Normal([0x63])];
      Search(map[srv := File], CgiConf(root, [], []), "", root, "") == Ok(Found("..", srv, ""))
  {
    var srv := [RustPath.RootDir, RustPath.Normal([0x73])];
    var root := srv + [RustPath.Normal([0x63])];
    var fs := map[srv := File];
    var conf := CgiConf(root, [], []);
    assert RustPath.Parent(root) == Some(srv);
    PathUtil.ParentClimbs("");
    assert StripSlash("../") == "..";
    assert Probe(fs, conf, srv) == Ok(Some(srv));
    assert ReplaceFirst("", "..") == "";
  }

  // ------------------------------------------------------------ the start

  /** The first file tried, as written: the CGI root joined with the
      traversal-checked request path. A path that still starts with `/`
      after the one that was removed is absolute, and joining it replaces
      the CGI root. */
  function StartAsWritten(root: RustPath.Path, safe: RustPath.Path): RustPath.Path {
    RustPath.JoinPath(root, safe)
  }

  /** Two leading slashes take the start outside the CGI root: the request
      path `//e` starts the search at `/e`. */
  lemma DoubleSlashAsWritten(root: RustPath.Path)
    ensures var rel := Relative(Percent.DecodeBinary(Utf8("//e")));
      PathUtil.Traverse([], RustPath.Components(rel)) == Ok([RustPath.RootDir, RustPath.Normal([0x65])])
      && StartAsWritten(root, [RustPath.RootDir, RustPath.Normal([0x65])]) == [RustPath.RootDir, RustPath.Normal([0x65])]
  {
    assert Utf8("//e") == [0x2F] + Utf8("/e");
    RootedName();
    assert Percent.DecodeBinary([0x2F, 0x2F, 0x65]) == [0x2F, 0x2F, 0x65] by {
      assert Percent.DecodeBinary([0x65]) == [0x65];
      assert Percent.DecodeBinary([0x2F, 0x65]) == [0x2F] + Percent.DecodeBinary([0x65]);
    }
    assert [0x2F, 0x2F, 0x65][1..] == [RustPath.SLASH, 0x65];
  }

  /** `find_cgi_file` up to the search, with the start chosen by
      `start`: a path the traversal check refuses is `PermissionDenied`
      whatever the filesystem holds; a path `expand` refuses passes that
      error on. */
  function FindWith(requestPath: string, conf: CgiConf, fs: Fs, asWritten: bool): (r: Result<Found, IoError>)
  {
    var decoded := Percent.DecodeBinary(Utf8(requestPath));
    match PathUtil.Traverse([], RustPath.Components(Relative(decoded)))
    case Err(_) => Err(IoError(PermissionDenied, LEAVE_ROOT))
    case Ok(safe) =>
      var file := if asWritten then StartAsWritten(conf.cgiRoot, safe) else Below(conf.cgiRoot, safe);
      match PathUtil.ExpandAsWritten(PathUtil.EncodeBinary(decoded))
      case Err(e) => Err(e)
      case Ok(original) => Search(fs, conf, original, file, StripSlash(original))
  }

  function FindCgiAsWritten(requestPath: string, conf: CgiConf, fs: Fs): Result<Found, IoError> {
    FindWith(requestPath, conf, fs, true)
  }

  function FindCgi(requestPath: string, conf: CgiConf, fs: Fs): Result<Found, IoError> {
    FindWith(requestPath, conf, fs, false)
  }

  /** The refusal comes before any lookup, and both starts agree on it. */
  lemma TraversalRefused(requestPath: string, conf: CgiConf, fs: Fs, asWritten: bool)
    requires PathUtil.Traverse([], RustPath.Components(Relative(Percent.DecodeBinary(Utf8(requestPath))))).Err?
    ensures FindWith(requestPath, conf, fs, asWritten) == Err(IoError(PermissionDenied, LEAVE_ROOT))
  {
  }

  /** The loop over a directory's entries in `find_cgi_file`. */
  method ScanDir(fs: Fs, conf: CgiConf, dir: RustPath.Path, entries: seq<seq<Byte>>)
    returns (r: Result<Option<RustPath.Path>, IoError>)
    ensures r == IndexIn(fs, conf, dir, entries)
  {
    var i := 0;
    while i < |entries|
      invariant 0 <= i <= |entries|
      invariant IndexIn(fs, conf, dir, entries[i..]) == IndexIn(fs, conf, dir, entries)
    {
      assert entries[i..][1..] == entries[i + 1..];
      var name := entries[i];
      var child := RustPath.JoinPath(dir, [RustPath.Normal(name)]);
      if IsIndexName(name, conf.indexes) {
        if child !in fs {
          return Err(NotFoundError());
        }
        if fs[child] == File && MatchesExtension(child, conf.extensions) {
          return Ok(Some(child));
        }
      }
      i := i + 1;
    }
    assert entries[i..] == [];
    return Ok(None);
  }

  /** `find_cgi_file`: the request path decoded, checked and joined to the
      CGI root (without a root component, see `DoubleSlashAsWritten`), then
      the walk up until a script turns up. */
  method FindCgiFile(requestPath: string, conf: CgiConf, fs: Fs) returns (r: Result<Found, IoError>)
    ensures r == FindCgi(requestPath, conf, fs)
  {
    var decoded := Percent.DecodeBinary(Utf8(requestPath));
    var checked := PathUtil.TraversalSafe(RustPath.Components(Relative(decoded)));
    if checked.Err? {
      return Err(IoError(PermissionDenied, LEAVE_ROOT));
    }
    var file := Below(conf.cgiRoot, checked.value);
    var original := PathUtil.ExpandAsWritten(PathUtil.EncodeBinary(decoded));
    if original.Err? {
      return Err(original.error);
    }
    var cgiPath := StripSlash(original.value);
    while true
      invariant Search(fs, conf, original.value, file, cgiPath) == FindCgi(requestPath, conf, fs)
      decreases |file|
    {
      if file in fs {
        var node := fs[file];
        if node == File && MatchesExtension(file, conf.extensions) {
          return Ok(Found(cgiPath, file, ReplaceFirst(original.value, cgiPath)));
        }
        if node.Dir? {
          var index := ScanDir(fs, conf, file, node.entries);
          if index.Err? {
            return Err(index.error);
          }
          if index.value.Some? {
            return Ok(Found(cgiPath, index.value.value, ReplaceFirst(original.value, cgiPath)));
          }
        }
      }
      var up := RustPath.Parent(file);
      if up.None? {
        return Err(NotFoundError());
      }
      var parent := PathUtil.Parent(cgiPath);
      if parent.None? {
        return Err(NotFoundError());
      }
      file := up.value;
      cgiPath := StripSlash(parent.value);
    }
  }

  // ------------------------------------------------------------ the shebang

  /** The leftmost whitespace position of `t`, if any. */
  function FirstSpace(t: string): (r: Option<nat>)
    ensures r.Some? ==> r.value < |t| && Strings.IsSpace(t[r.value])
    ensures r.Some? ==> forall j :: 0 <= j < r.value ==> !Strings.IsSpace(t[j])
    ensures r.None? ==> forall j :: 0 <= j < |t| ==> !Strings.IsSpace(t[j])
  {
    if t == [] then None
    else if Strings.IsSpace(t[0]) then Some(0)
    else match FirstSpace(t[1..])
      case None => None
      case Some(k) => Some(k + 1)
  }

  /** A piece without whitespace. */
  predicate Word(w: string) {
    forall j :: 0 <= j < |w| ==> !Strings.IsSpace(w[j])
  }

  /** Splitting at every run of whitespace, as `Regex::new(r"\s+").split`
      does: always at least one piece, and no piece holds whitespace. */
  function Words(t: string): (r: seq<string>)
    ensures |r| >= 1
    ensures forall i :: 0 <= i < |r| ==> Word(r[i])
    decreases |t|
  {
    match FirstSpace(t)
    case None => [t]
    case Some(k) =>
      var rest := Strings.TrimStart(t[k..]);
      assert |rest| < |t| - k by {
        if |rest| == |t[k..]| {
          assert rest == t[k..];
        }
      }
      [t[..k]] + Words(rest)
  }

  /** The words joined by single spaces. */
  function Spaced(ws: seq<string>): string
    requires |ws| >= 1
  {
    if |ws| == 1 then ws[0] else ws[0] + " " + Spaced(ws[1..])
  }

  /** The first whitespace after a word is where the word ends. */
  lemma {:induction false} FirstSpaceAfterWord(a: string, b: string)
    requires Word(a) && b != [] && Strings.IsSpace(b[0])
    ensures FirstSpace(a + b) == Some(|a|)
  {
    if a != [] {
      assert (a + b)[1..] == a[1..] + b;
      FirstSpaceAfterWord(a[1..], b);
      assert (a + b)[0] == a[0];
    }
  }

  /** One space before a word-led text trims away. */
  lemma TrimOneSpace(tail: string)
    requires tail != [] && !Strings.IsSpace(tail[0])
    ensures Strings.TrimStart(" " + tail) == tail
  {
    assert (" " + tail)[1..] == tail;
  }

  /** Splitting undoes joining by single spaces when no word is empty. */
  lemma {:induction false} WordsSpaced(ws: seq<string>)
    requires |ws| >= 1
    requires forall i :: 0 <= i < |ws| ==> ws[i] != [] && Word(ws[i])
    ensures Words(Spaced(ws)) == ws
  {
    var t := Spaced(ws);
    if |ws| == 1 {
      assert FirstSpace(t).None?;
    } else {
      var tail := Spaced(ws[1..]);
      var k := |ws[0]|;
      assert t == ws[0] + (" " + tail);
      FirstSpaceAfterWord(ws[0], " " + tail);
      assert t[..k] == ws[0];
      assert t[k..] == " " + tail;
      SpacedStarts(ws[1..]);
      TrimOneSpace(tail);
      WordsSpaced(ws[1..]);
      assert Words(t) == [t[..k]] + Words(Strings.TrimStart(t[k..]));
    }
  }

  /** A joined text starts with the first character of the first word. */
  lemma SpacedStarts(ws: seq<string>)
    requires |ws| >= 1 && ws[0] != []
    ensures Spaced(ws) != [] && Spaced(ws)[0] == ws[0][0]
  {
  }

  /** The command and its arguments: with a `#!` first line, its first word
      runs with the other words and then the script as arguments; otherwise
      the script runs with no arguments. The first word always exists, so
      the `Invalid shebang` error cannot arise. */
  function Command(line: string, script: seq<Byte>): (r: (seq<Byte>, seq<seq<Byte>>))
    ensures !Strings.StartsWith(line, "#!") ==> r == (script, [])
    ensures Strings.StartsWith(line, "#!") ==> |r.1| >= 1 && r.1[|r.1| - 1] == script
  {
    if Strings.StartsWith(line, "#!") then
      var ws := Words(Strings.Trim(line[2..]));
      (Utf8(ws[0]), Utf8Each(ws[1..]) + [script])
    else (script, [])
  }

  /** A shebang of single-spaced words followed by a line feed: the first
      word is the command and the rest, then the script, its arguments. */
  lemma ShebangArguments(ws: seq<string>, script: seq<Byte>)
    requires |ws| >= 1
    requires forall i :: 0 <= i < |ws| ==> ws[i] != [] && Word(ws[i])
    ensures Command("#!" + Spaced(ws) + "\n", script) == (Utf8(ws[0]), Utf8Each(ws[1..]) + [script])
  {
    var t := Spaced(ws);
    var line := "#!" + t + "\n";
    AfterMarker(t);
    SpacedStarts(ws);
    SpacedEnds(ws);
    TrimNewline(t);
    WordsSpaced(ws);
  }

  /** A line that starts with `#!` and what follows it. */
  lemma AfterMarker(t: string)
    ensures Strings.StartsWith("#!" + t + "\n", "#!")
    ensures ("#!" + t + "\n")[2..] == t + "\n"
  {
    var line := "#!" + t + "\n";
    assert line[..2] == "#!";
  }

  /** The line feed that ends a line is trimmed and nothing else is. */
  lemma TrimNewline(t: string)
    requires t != [] && !Strings.IsSpace(t[0]) && Strings.TrimEnd(t) == t
    ensures Strings.Trim(t + "\n") == t
  {
    var u := t + "\n";
    assert Strings.TrimStart(u) == u by { assert u[0] == t[0]; }
    assert u[..|u| - 1] == t;
  }

  /** A joined text ends with the last character of the last word. */
  lemma {:induction false} SpacedEnds(ws: seq<string>)
    requires |ws| >= 1
    requires forall i :: 0 <= i < |ws| ==> ws[i] != [] && Word(ws[i])
    ensures Spaced(ws) != [] && !Strings.IsSpace(Spaced(ws)[|Spaced(ws)| - 1])
    ensures Strings.TrimEnd(Spaced(ws)) == Spaced(ws)
  {
    if |ws| > 1 {
      SpacedEnds(ws[1..]);
    } else {
      assert Word(ws[0]);
    }
  }

  // ------------------------------------------------------------ the run

  /** What the gateway asks the host for: the current directory, the text
      of a path as an `OsStr`, the `PATH` it runs under, and the server's
      name and version. */
  datatype Host = Host(cwd: RustPath.Path, render: RustPath.Path -> seq<Byte>, pathVar: Option<seq<Byte>>, software: string)

  /** The variables the gateway sets; `Name` is how the script sees each. */
  datatype Var =
    | GATEWAY_INTERFACE | REMOTE_ADDR | REMOTE_HOST | REQUEST_METHOD | SCRIPT_NAME
    | SERVER_NAME | SERVER_PORT | SERVER_PROTOCOL | SERVER_SOFTWARE
    | GEMINI_DOCUMENT_ROOT | GEMINI_SCRIPT_FILENAME | GEMINI_URL | GEMINI_URL_PATH
    | PATH_INFO | PATH_TRANSLATED | PATH | QUERY_STRING

  function Name(v: Var): string {
    match v
    case GATEWAY_INTERFACE => "GATEWAY_INTERFACE"
    case REMOTE_ADDR => "REMOTE_ADDR"
    case REMOTE_HOST => "REMOTE_HOST"
    case REQUEST_METHOD => "REQUEST_METHOD"
    case SCRIPT_NAME => "SCRIPT_NAME"
    case SERVER_NAME => "SERVER_NAME"
    case SERVER_PORT => "SERVER_PORT"
    case SERVER_PROTOCOL => "SERVER_PROTOCOL"
    case SERVER_SOFTWARE => "SERVER_SOFTWARE"
    case GEMINI_DOCUMENT_ROOT => "GEMINI_DOCUMENT_ROOT"
    case GEMINI_SCRIPT_FILENAME => "GEMINI_SCRIPT_FILENAME"
    case GEMINI_URL => "GEMINI_URL"
    case GEMINI_URL_PATH => "GEMINI_URL_PATH"
    case PATH_INFO => "PATH_INFO"
    case PATH_TRANSLATED => "PATH_TRANSLATED"
    case PATH => "PATH"
    case QUERY_STRING => "QUERY_STRING"
  }

  /** `process::Command` as it is spawned. */
  datatype Spawn = Spawn(command: seq<Byte>, args: seq<seq<Byte>>, env: map<Var, seq<Byte>>)

  /** What the script did. */
  datatype Output = Output(success: bool, status: string, stdout: seq<Byte>)

  /** The gateway's answer: the script's own response, or `cgi_error`,
      status 42 (section 3.2.4 of the Gemini specification). */
  datatype Reply<R> = Parsed(response: R) | CgiError(message: string)

  /** The bytes of `1.1` and of `GEMINI`. */
  const INTERFACE_VERSION: seq<Byte> := [0x31, 0x2E, 0x31]
  const PROTOCOL_NAME: seq<Byte> := [0x47, 0x45, 0x4D, 0x49, 0x4E, 0x49]

  lemma FixedValues()
    ensures Utf8("1.1") == INTERFACE_VERSION
    ensures Utf8("GEMINI") == PROTOCOL_NAME
  {
    assert Utf8("GEMINI") == [0x47] + Utf8("EMINI");
    assert Utf8("EMINI") == [0x45] + Utf8("MINI");
    assert Utf8("MINI") == [0x4D] + Utf8("INI");
    assert Utf8("INI") == [0x49] + Utf8("NI");
    assert Utf8("NI") == [0x4E] + Utf8("I");
    assert Utf8("1.1") == [0x31] + Utf8(".1");
  }

  const CGI_ERROR: nat := 42
  const INVALID_HEADER := "invalid response header"

  function Status<R>(r: Reply<R>, code: R -> nat): nat {
    match r
    case Parsed(resp) => code(resp)
    case CgiError(_) => CGI_ERROR
  }

  /** A relative path taken from the current directory. */
  function Absolute(cwd: RustPath.Path, p: RustPath.Path): RustPath.Path {
    if RustPath.IsAbsolute(p) then p else RustPath.JoinPath(cwd, p)
  }

  /** Every regular file of the snapshot has a name. */
  predicate FilesNamed(fs: Fs) {
    forall p :: p in fs && fs[p] == File ==> RustPath.FileName(p).Some?
  }

  /** A named path keeps its name when made absolute, so it has a parent. */
  lemma AbsoluteNamed(cwd: RustPath.Path, p: RustPath.Path)
    requires RustPath.FileName(p).Some?
    ensures RustPath.Parent(Absolute(cwd, p)).Some?
  {
    var a := Absolute(cwd, p);
    assert a[|a| - 1] == p[|p| - 1];
  }

  /** The text after the last `:` of the listen address. */
  function Port(listen: string): (port: string)
    requires ':' in listen
    ensures ':' !in port
    ensures exists k :: 0 <= k < |listen| && listen == listen[..k] + ":" + port
  {
    var k := Strings.LastIndexOf(listen, ':').value;
    assert listen == listen[..k] + ":" + listen[k + 1..];
    listen[k + 1..]
  }

  /** `PATH_INFO` (percent-decoded) and `PATH_TRANSLATED` (that path below
      the CGI root, made absolute) when the script has a path below it. */
  function PathVars(conf: CgiConf, found: Found, host: Host): (m: map<Var, seq<Byte>>)
    ensures PATH_INFO in m <==> found.cgiPath != ""
    ensures PATH_TRANSLATED in m <==> found.cgiPath != ""
    ensures m.Keys <= {PATH_INFO, PATH_TRANSLATED}
    ensures found.cgiPath != "" ==> m[PATH_INFO] == Percent.DecodeBinary(Utf8(found.cgiPath))
  {
    if found.cgiPath == "" then map[]
    else
      var info := Percent.DecodeBinary(Utf8(found.cgiPath));
      var translated := RustPath.JoinPath(conf.cgiRoot, RustPath.Components(Relative(info)));
      map[PATH_INFO := info, PATH_TRANSLATED := host.render(Absolute(host.cwd, translated))]
  }

  /** The variables set only in some cases: the two path variables, the
      host's `PATH` when it has one, `QUERY_STRING` when the query is not
      empty. */
  function Optional(req: CgiRequest, conf: CgiConf, found: Found, host: Host): (m: map<Var, seq<Byte>>)
    ensures PATH_INFO in m <==> found.cgiPath != ""
    ensures PATH_TRANSLATED in m <==> found.cgiPath != ""
    ensures PATH in m <==> host.pathVar.Some?
    ensures QUERY_STRING in m <==> req.query != ""
    ensures m.Keys <= {PATH_INFO, PATH_TRANSLATED, PATH, QUERY_STRING}
    ensures found.cgiPath != "" ==> m[PATH_INFO] == Percent.DecodeBinary(Utf8(found.cgiPath))
    ensures req.query != "" ==> m[QUERY_STRING] == Utf8(req.query)
  {
    PathVars(conf, found, host)
    + (if host.pathVar.Some? then map[PATH := host.pathVar.value] else map[])
    + (if req.query != "" then map[QUERY_STRING := Utf8(req.query)] else map[])
  }

  /** Every variable the gateway knows. */
  const VARS: set<Var> := {
    GATEWAY_INTERFACE, REMOTE_ADDR, REMOTE_HOST, REQUEST_METHOD, SCRIPT_NAME,
    SERVER_NAME, SERVER_PORT, SERVER_PROTOCOL, SERVER_SOFTWARE,
    GEMINI_DOCUMENT_ROOT, GEMINI_SCRIPT_FILENAME, GEMINI_URL, GEMINI_URL_PATH,
    PATH_INFO, PATH_TRANSLATED, PATH, QUERY_STRING
  }

  lemma AllVars(v: Var)
    ensures v in VARS
  {
  }

  /** The value of a variable every script gets; the four set only in some
      cases have none here. */
  function FixedValue(v: Var, req: CgiRequest, listen: string, found: Found, file: RustPath.Path,
                      remote: string, host: Host): Option<seq<Byte>>
    requires ':' in listen
    requires RustPath.Parent(file).Some?
  {
    match v
    case GATEWAY_INTERFACE => Some(INTERFACE_VERSION)
    case REMOTE_ADDR => Some(Utf8(remote))
    case REMOTE_HOST => Some(Utf8(remote))
    case REQUEST_METHOD => Some([])
    case SCRIPT_NAME => Some(Percent.DecodeBinary(Utf8(found.path)))
    case SERVER_NAME => Some(Utf8(req.domain))
    case SERVER_PORT => Some(Utf8(Port(listen)))
    case SERVER_PROTOCOL => Some(PROTOCOL_NAME)
    case SERVER_SOFTWARE => Some(Utf8(host.software))
    case GEMINI_DOCUMENT_ROOT => Some(host.render(RustPath.Parent(file).value))
    case GEMINI_SCRIPT_FILENAME => Some(host.render(file))
    case GEMINI_URL => Some(Utf8(req.uri))
    case GEMINI_URL_PATH => Some(Percent.DecodeBinary(Utf8(req.path)))
    case PATH_INFO => None
    case PATH_TRANSLATED => None
    case PATH => None
    case QUERY_STRING => None
  }

  /** The variables every script gets, each with its fixed value. */
  function Fixed(req: CgiRequest, listen: string, found: Found, file: RustPath.Path,
                 remote: string, host: Host): (m: map<Var, seq<Byte>>)
    requires ':' in listen
    requires RustPath.Parent(file).Some?
    ensures forall v :: v in m <==> FixedValue(v, req, listen, found, file, remote, host).Some?
    ensures forall v :: v in m ==> m[v] == FixedValue(v, req, listen, found, file, remote, host).value
  {
    var m := map v | v in VARS && FixedValue(v, req, listen, found, file, remote, host).Some?
      :: FixedValue(v, req, listen, found, file, remote, host).value;
    assert forall v :: v in m <==> FixedValue(v, req, listen, found, file, remote, host).Some? by {
      forall v ensures v in VARS { AllVars(v); }
    }
    m
  }

  /** The whole environment of the script: the fixed meta-variables and
      then the optional ones, nothing inherited. */
  function Environment(req: CgiRequest, listen: string, conf: CgiConf, found: Found, file: RustPath.Path,
                       remote: string, host: Host): map<Var, seq<Byte>>
    requires ':' in listen
    requires RustPath.Parent(file).Some?
  {
    Fixed(req, listen, found, file, remote, host) + Optional(req, conf, found, host)
  }

  /** The optional variables never shadow a fixed one: every fixed
      variable reaches the script with its fixed value. */
  lemma EnvironmentFixed(req: CgiRequest, listen: string, conf: CgiConf, found: Found, file: RustPath.Path,
                         remote: string, host: Host, v: Var)
    requires ':' in listen
    requires RustPath.Parent(file).Some?
    requires FixedValue(v, req, listen, found, file, remote, host).Some?
    ensures var env := Environment(req, listen, conf, found, file, remote, host);
      v in env && env[v] == FixedValue(v, req, listen, found, file, remote, host).value
  {
    var fixed := Fixed(req, listen, found, file, remote, host);
    var optional := Optional(req, conf, found, host);
    assert v != PATH_INFO && v != PATH_TRANSLATED && v != PATH && v != QUERY_STRING;
    NotOptional(req, conf, found, host, v);
    Override(fixed, optional, v);
  }

  /** Only the four optional variables can come from `Optional`. */
  lemma NotOptional(req: CgiRequest, conf: CgiConf, found: Found, host: Host, v: Var)
    requires v != PATH_INFO && v != PATH_TRANSLATED && v != PATH && v != QUERY_STRING
    ensures v !in Optional(req, conf, found, host)
  {
    var m := Optional(req, conf, found, host);
    assert v !in {PATH_INFO, PATH_TRANSLATED, PATH, QUERY_STRING};
  }

  /** A key of the left map that the right one lacks keeps its value in
      their union. */
  lemma Override<K, W>(a: map<K, W>, b: map<K, W>, k: K)
    requires k in a && k !in b
    ensures k in a + b && (a + b)[k] == a[k]
  {
  }

  /** The meta-variables of section 4.1 of RFC 3875 that have one value
      for every script: the interface version, an empty method, the
      protocol, the port after the last `:` of the listen address and the
      decoded path of the script. */
  lemma EnvironmentValues(req: CgiRequest, listen: string, conf: CgiConf, found: Found, file: RustPath.Path,
                          remote: string, host: Host)
    requires ':' in listen
    requires RustPath.Parent(file).Some?
    ensures var env := Environment(req, listen, conf, found, file, remote, host);
      && GATEWAY_INTERFACE in env && env[GATEWAY_INTERFACE] == INTERFACE_VERSION
      && REQUEST_METHOD in env && env[REQUEST_METHOD] == []
      && SERVER_PROTOCOL in env && env[SERVER_PROTOCOL] == PROTOCOL_NAME
      && SERVER_PORT in env && env[SERVER_PORT] == Utf8(Port(listen))
      && SCRIPT_NAME in env && env[SCRIPT_NAME] == Percent.DecodeBinary(Utf8(found.path))
  {
    EnvironmentFixed(req, listen, conf, found, file, remote, host, GATEWAY_INTERFACE);
    EnvironmentFixed(req, listen, conf, found, file, remote, host, REQUEST_METHOD);
    EnvironmentFixed(req, listen, conf, found, file, remote, host, SERVER_PROTOCOL);
    EnvironmentFixed(req, listen, conf, found, file, remote, host, SERVER_PORT);
    EnvironmentFixed(req, listen, conf, found, file, remote, host, SCRIPT_NAME);
  }

  /** The meta-variables the gateway sets only in some cases: `PATH_INFO`
      and `PATH_TRANSLATED` exactly when the script has a path below it,
      `QUERY_STRING` exactly when the query is not empty, `PATH` exactly
      when the host has one. */
  lemma EnvironmentOptional(req: CgiRequest, listen: string, conf: CgiConf, found: Found, file: RustPath.Path,
                            remote: string, host: Host)
    requires ':' in listen
    requires RustPath.Parent(file).Some?
    ensures var env := Environment(req, listen, conf, found, file, remote, host);
      && (PATH_INFO in env <==> found.cgiPath != "")
      && (found.cgiPath != "" ==> env[PATH_INFO] == Percent.DecodeBinary(Utf8(found.cgiPath)))
      && (PATH_TRANSLATED in env <==> found.cgiPath != "")
      && (QUERY_STRING in env <==> req.query != "")
      && (req.query != "" ==> env[QUERY_STRING] == Utf8(req.query))
      && (PATH in env <==> host.pathVar.Some?)
  {
    var fixed := Fixed(req, listen, found, file, remote, host);
    assert PATH_INFO !in fixed && PATH_TRANSLATED !in fixed && PATH !in fixed && QUERY_STRING !in fixed by {
      assert FixedValue(PATH_INFO, req, listen, found, file, remote, host).None?;
      assert FixedValue(PATH_TRANSLATED, req, listen, found, file, remote, host).None?;
      assert FixedValue(PATH, req, listen, found, file, remote, host).None?;
      assert FixedValue(QUERY_STRING, req, listen, found, file, remote, host).None?;
    }
  }

  /** The reply to what the script did: a failing script is a CGI error
      before its output is looked at; output that does not parse as a
      response is one too. */
  function ReplyTo<R>(out: Output, parse: seq<Byte> -> Option<R>): (r: Reply<R>)
    ensures !out.success ==> r == CgiError("exited with status " + out.status)
    ensures out.success ==> (r.Parsed? <==> parse(out.stdout).Some?)
  {
    if !out.success then CgiError("exited with status " + out.status)
    else match parse(out.stdout)
      case Some(resp) => Parsed(resp)
      case None => CgiError(INVALID_HEADER)
  }

  /** Whatever the script printed, a failure is status 42, and so is
      output that does not parse. */
  lemma FailureIsCgiError<R>(out: Output, parse: seq<Byte> -> Option<R>, code: R -> nat)
    requires !out.success || parse(out.stdout).None?
    ensures Status(ReplyTo(out, parse), code) == CGI_ERROR
  {
  }

  /** `optional_envs`, filled in place. */
  method OptionalEnvs(req: CgiRequest, conf: CgiConf, found: Found, host: Host) returns (m: map<Var, seq<Byte>>)
    ensures m == Optional(req, conf, found, host)
  {
    m := map[];
    if found.cgiPath != "" {
      var info := Percent.DecodeBinary(Utf8(found.cgiPath));
      var translated := RustPath.JoinPath(conf.cgiRoot, RustPath.Components(Relative(info)));
      m := m[PATH_INFO := info];
      m := m[PATH_TRANSLATED := host.render(Absolute(host.cwd, translated))];
    }
    if host.pathVar.Some? {
      m := m[PATH := host.pathVar.value];
    }
    if req.query != "" {
      m := m[QUERY_STRING := Utf8(req.query)];
    }
  }

  /** The environment as the command builder receives it: the fixed
      variables, then the optional ones. */
  method BuildEnvironment(req: CgiRequest, listen: string, conf: CgiConf, found: Found, file: RustPath.Path,
                          remote: string, host: Host) returns (env: map<Var, seq<Byte>>)
    requires ':' in listen
    requires RustPath.Parent(file).Some?
    ensures env == Environment(req, listen, conf, found, file, remote, host)
  {
    var optional := OptionalEnvs(req, conf, found, host);
    env := Fixed(req, listen, found, file, remote, host) + optional;
  }

  /** A script `find_cgi_file` reports is a regular file of the snapshot,
      and it fails with `NotFound` or `PermissionDenied` or with what
      `expand` refused. */
  lemma FindCgiSound(requestPath: string, conf: CgiConf, fs: Fs)
    ensures var f := FindCgi(requestPath, conf, fs);
      f.Ok? ==> f.value.file in fs && fs[f.value.file] == File && MatchesExtension(f.value.file, conf.extensions)
  {
    var decoded := Percent.DecodeBinary(Utf8(requestPath));
    var checked := PathUtil.Traverse([], RustPath.Components(Relative(decoded)));
    var expanded := PathUtil.ExpandAsWritten(PathUtil.EncodeBinary(decoded));
    if checked.Ok? && expanded.Ok? {
      SearchSound(fs, conf, expanded.value, Below(conf.cgiRoot, checked.value), StripSlash(expanded.value));
    }
  }

  /** The part of `process_cgi_request` after the search: the script's
      first line decides the command, the environment is built from
      scratch, and what the script did decides the reply. `spawned` is the
      command that ran. */
  method RunScript<R>(req: CgiRequest, listen: string, conf: CgiConf, found: Found, remote: string, host: Host,
                      firstLine: RustPath.Path -> Result<string, IoError>,
                      run: Spawn -> Result<Output, IoError>,
                      parse: seq<Byte> -> Option<R>)
    returns (r: Result<Option<Reply<R>>, IoError>, spawned: Option<Spawn>)
    requires ':' in listen
    requires RustPath.FileName(found.file).Some?
    ensures var file := Absolute(host.cwd, found.file);
      && RustPath.Parent(file).Some?
      && (firstLine(file).Err? ==> r == Err(firstLine(file).error) && spawned == None)
      && (firstLine(file).Ok? ==>
            && spawned.Some?
            && (spawned.value.command, spawned.value.args) == Command(firstLine(file).value, host.render(file))
            && spawned.value.env == Environment(req, listen, conf, found, file, remote, host))
    ensures spawned.Some? && run(spawned.value).Ok? ==> r == Ok(Some(ReplyTo(run(spawned.value).value, parse)))
    ensures spawned.Some? && run(spawned.value).Err? ==> r == Err(run(spawned.value).error)
  {
    var file := Absolute(host.cwd, found.file);
    AbsoluteNamed(host.cwd, found.file);
    var line := firstLine(file);
    if line.Err? {
      return Err(line.error), None;
    }
    var command := Command(line.value, host.render(file));
    var env := BuildEnvironment(req, listen, conf, found, file, remote, host);
    spawned := Some(Spawn(command.0, command.1, env));
    var output := run(spawned.value);
    if output.Err? {
      return Err(output.error), spawned;
    }
    r := Ok(Some(ReplyTo(output.value, parse)));
  }

  /** `process_cgi_request`: a search that finds nothing is no response and
      any other failure is passed on; a script that is found is run. */
  method ProcessCgiRequest<R>(req: CgiRequest, listen: string, conf: CgiConf, fs: Fs, remote: string, host: Host,
                              firstLine: RustPath.Path -> Result<string, IoError>,
                              run: Spawn -> Result<Output, IoError>,
                              parse: seq<Byte> -> Option<R>)
    returns (r: Result<Option<Reply<R>>, IoError>, spawned: Option<Spawn>)
    requires ':' in listen
    requires FilesNamed(fs)
    ensures var f := FindCgi(req.path, conf, fs);
      && (f.Err? && f.error.kind == NotFound ==> r == Ok(None) && spawned == None)
      && (f.Err? && f.error.kind != NotFound ==> r == Err(f.error) && spawned == None)
    ensures spawned.Some? ==>
      var f := FindCgi(req.path, conf, fs);
      && f.Ok?
      && var file := Absolute(host.cwd, f.value.file);
      && firstLine(file).Ok?
      && RustPath.Parent(file).Some?
      && (spawned.value.command, spawned.value.args) == Command(firstLine(file).value, host.render(file))
      && spawned.value.env == Environment(req, listen, conf, f.value, file, remote, host)
    ensures spawned.Some? && run(spawned.value).Ok? ==> r == Ok(Some(ReplyTo(run(spawned.value).value, parse)))
    ensures spawned.Some? && run(spawned.value).Err? ==> r == Err(run(spawned.value).error)
    ensures r.Ok? && r.value.Some? ==> spawned.Some?
  {
    var found := FindCgiFile(req.path, conf, fs);
    if found.Err? {
      if found.error.kind == NotFound {
        return Ok(None), None;
      }
      return Err(found.error), None;
    }
    FindCgiSound(req.path, conf, fs);
    r, spawned := RunScript(req, listen, conf, found.value, remote, host, firstLine, run, parse);
  }
}
