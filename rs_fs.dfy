// The filesystem as the Rust server's request handlers see it: a snapshot
// mapping paths to what `fs::metadata` reports, and the placement of a
// request path below a root directory.
module RustFs {
  import opened Wrappers
  import opened Bytes
  import opened RustIo
  import Strings
  import RustPath
  import PathUtil

  /** What `fs::metadata` reports for a path; a directory lists the names
      `read_dir` yields, in that order. */
  datatype Node = File | Dir(entries: seq<seq<Byte>>) | Special

  type Fs = map<RustPath.Path, Node>

  const NO_ENTRY := "No such file or directory"
  const NOT_A_DIRECTORY := "Not a directory"

  /** `fs::metadata` of a path, `slash` telling whether its text ends with
      `/`: such a path names a directory or nothing. */
  function Metadata(fs: Fs, p: RustPath.Path, slash: bool): (r: Result<Node, IoError>)
    ensures r.Ok? <==> p in fs && (slash ==> fs[p].Dir?)
    ensures r.Ok? ==> r.value == fs[p]
  {
    if p !in fs then Err(IoError(NotFound, NO_ENTRY))
    else if slash && !fs[p].Dir? then Err(IoError(Other, NOT_A_DIRECTORY))
    else Ok(fs[p])
  }

  /** The bytes of a request path without one leading `/`. */
  function Relative(path: seq<Byte>): seq<Byte> {
    if |path| > 0 && path[0] == RustPath.SLASH then path[1..] else path
  }

  /** Every root component dropped, so that a checked path stays
      relative. */
  function NoRoot(safe: RustPath.Path): (r: RustPath.Path)
    ensures RustPath.RootDir !in r
    ensures |r| <= |safe|
  {
    if safe == [] then []
    else (if safe[0] == RustPath.RootDir then [] else [safe[0]]) + NoRoot(safe[1..])
  }

  /** A traversal-checked path placed below a root directory, as the check
      in front of it intends: the result always starts with the root. */
  function Below(root: RustPath.Path, safe: RustPath.Path): (r: RustPath.Path)
    ensures |root| <= |r| && r[..|root|] == root
  {
    var inside := NoRoot(safe);
    assert !RustPath.IsAbsolute(inside);
    RustPath.JoinPath(root, inside)
  }

  /** The request path without one leading `/`. */
  function Local(path: string): (r: string)
    ensures Strings.StartsWith(path, "/") ==> path == "/" + r
    ensures !Strings.StartsWith(path, "/") ==> r == path
  {
    if Strings.StartsWith(path, "/") then path[1..] else path
  }

  /** The file a request path names once it passed the traversal check,
      or none when the check refuses it: as written, `Path::join`, which an
      absolute path replaces; corrected, `Below`. */
  function Target(path: string, root: RustPath.Path, asWritten: bool): Option<RustPath.Path> {
    match PathUtil.Traverse([], RustPath.Components(Utf8(Local(path))))
    case Err(_) => None
    case Ok(safe) => Some(if asWritten then RustPath.JoinPath(root, safe) else Below(root, safe))
  }

  /** Corrected, the file a request names always lies below the root. */
  lemma TargetInsideRoot(path: string, root: RustPath.Path)
    requires Target(path, root, false).Some?
    ensures |root| <= |Target(path, root, false).value|
    ensures Target(path, root, false).value[..|root|] == root
  {
  }

  /** The absolute path `/e` passes the traversal check unchanged. */
  lemma RootedName()
    ensures Utf8("/e") == [RustPath.SLASH, 0x65]
    ensures RustPath.Components([RustPath.SLASH, 0x65]) == [RustPath.RootDir, RustPath.Normal([0x65])]
    ensures PathUtil.Traverse([], [RustPath.RootDir, RustPath.Normal([0x65])]) == Ok([RustPath.RootDir, RustPath.Normal([0x65])])
  {
    assert Utf8("e") == [0x65];
    assert Utf8("/e") == [0x2F] + Utf8("e");
    var rel: seq<Byte> := [0x2F, 0x65];
    assert Strings.Split(rel, RustPath.SLASH) == [[], [0x65]] by {
      assert rel[1..] == [0x65];
      assert Strings.Split([0x65], RustPath.SLASH) == [[0x65]];
    }
    assert RustPath.Pieces([[], [0x65]]) == [RustPath.Normal([0x65])] by {
      assert [[], [0x65]][1..] == [[0x65]];
      assert RustPath.Pieces([[0x65]]) == [RustPath.Normal([0x65])];
    }
    var cs := [RustPath.RootDir, RustPath.Normal([0x65])];
    assert PathUtil.Traverse(cs, []) == Ok(cs);
    assert [RustPath.RootDir] + [RustPath.Normal([0x65])] == cs;
    assert PathUtil.Traverse([RustPath.RootDir], [RustPath.Normal([0x65])]) == Ok(cs);
    assert cs[1..] == [RustPath.Normal([0x65])];
    assert [] + [cs[0]] == [RustPath.RootDir];
  }
}
