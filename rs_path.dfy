// The parts of Rust's `std::path` (Unix flavour) that the server's path
// handling relies on: a path as the sequence of its components, `parent`,
// `join`, `file_name` and `extension`. Path bytes are `Bytes.Byte`s.
module RustPath {
  import opened Wrappers
  import opened Bytes
  import Strings

  const SLASH: Byte := 0x2F
  const DOT: Byte := 0x2E

  datatype Component = RootDir | CurDir | ParentDir | Normal(name: seq<Byte>)

  type Path = seq<Component>

  /** One piece between separators, classified as `Path::components` does:
      empty pieces and `.` disappear, `..` is `ParentDir`. */
  function Piece(p: seq<Byte>): seq<Component> {
    if p == [] || p == [DOT] then [] else if p == [DOT, DOT] then [ParentDir] else [Normal(p)]
  }

  function Pieces(ps: seq<seq<Byte>>): (r: Path)
    ensures RootDir !in r && CurDir !in r
  {
    if ps == [] then [] else Piece(ps[0]) + Pieces(ps[1..])
  }

  lemma {:induction false} PiecesAppend(ps: seq<seq<Byte>>, qs: seq<seq<Byte>>)
    ensures Pieces(ps + qs) == Pieces(ps) + Pieces(qs)
    decreases |ps|
  {
    if ps == [] {
      assert ps + qs == qs;
    } else {
      assert (ps + qs)[1..] == ps[1..] + qs;
      PiecesAppend(ps[1..], qs);
    }
  }

  /** `Path::components`: a leading `/` is `RootDir`, a leading `.` of a
      relative path is `CurDir`, and the remaining pieces follow. */
  function Components(p: seq<Byte>): (r: Path)
    ensures forall i :: 0 < i < |r| ==> r[i] != RootDir && r[i] != CurDir
  {
    var head :=
      if |p| > 0 && p[0] == SLASH then [RootDir]
      else if p == [DOT] || (|p| >= 2 && p[0] == DOT && p[1] == SLASH) then [CurDir]
      else [];
    var rest := Pieces(Strings.Split(p, SLASH));
    assert forall i :: 0 < i < |head + rest| ==> (head + rest)[i] in rest;
    head + rest
  }

  predicate IsAbsolute(p: Path) {
    |p| > 0 && p[0] == RootDir
  }

  /** `Path::parent`: `None` for the empty path and for a path that ends at
      the root, otherwise the path without its last component. */
  function Parent(p: Path): (r: Option<Path>)
    ensures r.None? <==> (p == [] || p[|p| - 1] == RootDir)
    ensures r.Some? ==> |r.value| == |p| - 1 && r.value == p[..|p| - 1]
  {
    if p == [] || p[|p| - 1] == RootDir then None else Some(p[..|p| - 1])
  }

  /** `PathBuf::join`: an absolute argument replaces the base; otherwise the
      argument's components follow the base's, a leading `.` being dropped
      once it is no longer at the front. */
  function JoinPath(base: Path, p: Path): (r: Path)
    ensures IsAbsolute(p) ==> r == p
    ensures !IsAbsolute(p) && base != [] && CurDir !in p ==> r == base + p
  {
    if IsAbsolute(p) then p
    else if base == [] then p
    else if |p| > 0 && p[0] == CurDir then base + p[1..]
    else base + p
  }

  /** `Path::file_name`: the last component when it is a normal name. */
  function FileName(p: Path): Option<seq<Byte>> {
    if p != [] && p[|p| - 1].Normal? then Some(p[|p| - 1].name) else None
  }

  /** `Path::extension`: the text after the last `.` of the file name, unless
      that dot starts the name (hidden files have no extension). */
  function Extension(p: Path): (r: Option<seq<Byte>>)
    ensures r.Some? ==> FileName(p).Some? && DOT !in r.value
    ensures r.Some? ==> exists k :: 0 < k < |FileName(p).value| && FileName(p).value == FileName(p).value[..k] + [DOT] + r.value
  {
    match FileName(p)
    case None => None
    case Some(name) =>
      match Strings.LastIndexOf(BytesAsText(name), '.')
      case None => None
      case Some(k) =>
        if k == 0 then None
        else
          assert name[k] == DOT;
          assert name == name[..k] + [DOT] + name[k + 1..];
          assert DOT !in name[k + 1..] by {
            assert forall j :: k + 1 <= j < |name| ==> BytesAsText(name)[j] != '.';
          }
          Some(name[k + 1..])
  }

  /** Bytes seen as the characters with the same codes, for searching. */
  function BytesAsText(b: seq<Byte>): (r: string)
    ensures |r| == |b|
    ensures forall i :: 0 <= i < |b| ==> r[i] as int == b[i]
  {
    if b == [] then [] else [b[0] as char] + BytesAsText(b[1..])
  }

  /** A trailing `/` does not change the components of a non-empty path. */
  lemma ComponentsTrailingSlash(p: seq<Byte>)
    requires p != []
    ensures Components(p + [SLASH]) == Components(p)
  {
    Strings.SplitTrailing(p, SLASH);
    var empty: seq<seq<Byte>> := [[]];
    PiecesAppend(Strings.Split(p, SLASH), empty);
    assert Pieces(empty) == [] by { assert empty[1..] == []; }
    var q := p + [SLASH];
    assert q[0] == p[0];
    if |p| >= 2 {
      assert q[1] == p[1];
    }
  }
}
