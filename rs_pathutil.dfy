// The Rust server's path helpers (src/pathutil.rs): joining URL paths,
// the last segment and the parent of a path, percent-encoding a path segment
// by segment, walking a component sequence without leaving its root, and
// expanding `.` and `..` in a textual path.
module PathUtil {
  import opened Wrappers
  import opened Bytes
  import opened RustIo
  import Strings
  import Percent
  import RustPath

  // ---------------------------------------------------------------- join

  /** `join`: drop one trailing `/` of `a` or one leading `/` of `b` at a
      time, then put a single `/` between them. */
  function Join(a: string, b: string): string
    decreases |a| + |b|
  {
    if |a| > 0 && a[|a| - 1] == '/' then Join(a[..|a| - 1], b)
    else if |b| > 0 && b[0] == '/' then Join(a, b[1..])
    else a + "/" + b
  }

  /** `a` without any of its trailing `/`. */
  function TrimTrailingSlashes(a: string): (r: string)
    ensures |r| <= |a| && r == a[..|r|]
    ensures r == [] || r[|r| - 1] != '/'
    ensures forall i :: |r| <= i < |a| ==> a[i] == '/'
  {
    if |a| > 0 && a[|a| - 1] == '/' then TrimTrailingSlashes(a[..|a| - 1]) else a
  }

  /** `b` without any of its leading `/`. */
  function TrimLeadingSlashes(b: string): (r: string)
    ensures |r| <= |b| && r == b[|b| - |r|..]
    ensures r == [] || r[0] != '/'
    ensures forall i :: 0 <= i < |b| - |r| ==> b[i] == '/'
  {
    if |b| > 0 && b[0] == '/' then TrimLeadingSlashes(b[1..]) else b
  }

  /** Joining strips every trailing `/` of the first path and every leading
      `/` of the second and puts exactly one `/` between what is left. */
  lemma {:induction false} JoinStripsSlashes(a: string, b: string)
    ensures Join(a, b) == TrimTrailingSlashes(a) + "/" + TrimLeadingSlashes(b)
    decreases |a| + |b|
  {
    if |a| > 0 && a[|a| - 1] == '/' {
      JoinStripsSlashes(a[..|a| - 1], b);
    } else if |b| > 0 && b[0] == '/' {
      JoinStripsSlashes(a, b[1..]);
    }
  }

  lemma JoinExample()
    ensures Join("foo/", "/bar") == "foo/bar"
  {
    assert "foo/" == "foo" + "/" && "/bar" == "/" + "bar" && "foo/bar" == "foo" + "/" + "bar";
    JoinBothSlashes("foo", "bar");
  }

  /** One `/` on each side of the join: a single one is kept. */
  lemma JoinBothSlashes(a: string, b: string)
    requires a == [] || a[|a| - 1] != '/'
    requires b == [] || b[0] != '/'
    ensures Join(a + "/", "/" + b) == a + "/" + b
  {
    assert (a + "/")[..|a|] == a;
    assert Join(a + "/", "/" + b) == Join(a, "/" + b);
    assert ("/" + b)[1..] == b;
    assert Join(a, "/" + b) == Join(a, b);
  }

  /** The `join!` macro: a right fold of `join` over its arguments. */
  function JoinAll(xs: seq<string>): string
    requires |xs| >= 1
  {
    if |xs| == 1 then xs[0] else Join(xs[0], JoinAll(xs[1..]))
  }

  /** A segment with text and no `/` at either end. */
  predicate PlainSegment(x: string) {
    x != [] && x[0] != '/' && x[|x| - 1] != '/'
  }

  /** For plain segments the macro is the segments separated by single `/`. */
  lemma {:induction false} JoinAllSeparates(xs: seq<string>)
    requires |xs| >= 1
    requires forall i :: 0 <= i < |xs| ==> PlainSegment(xs[i])
    ensures JoinAll(xs) == Strings.Join(xs, "/")
    ensures PlainSegment(JoinAll(xs))
  {
    if |xs| > 1 {
      JoinAllSeparates(xs[1..]);
      var rest := JoinAll(xs[1..]);
      assert Join(xs[0], rest) == xs[0] + "/" + rest;
    }
  }

  // ------------------------------------------------------------ basename

  /** The capture of `/([^/]+)/?$` in `s`, if the pattern matches. */
  function BasenameCapture(s: string): (r: Option<string>)
    ensures r.Some? ==> r.value != [] && '/' !in r.value
    ensures r.Some? ==> Strings.EndsWith(s, "/" + r.value) || Strings.EndsWith(s, "/" + r.value + "/")
  {
    var t := if |s| > 0 && s[|s| - 1] == '/' then s[..|s| - 1] else s;
    match Strings.LastIndexOf(t, '/')
    case None => None
    case Some(k) =>
      if k == |t| - 1 then None
      else
        assert t[k..] == "/" + t[k + 1..];
        assert t == s ==> s[|s| - |t[k..]|..] == t[k..];
        assert t != s ==> s[|s| - |t[k..]| - 1..] == t[k..] + "/";
        Some(t[k + 1..])
  }

  /** `basename`: the last segment, ignoring one trailing `/`, or the whole
      input when no segment follows a `/`. */
  function Basename(s: string): (r: string)
    ensures r == s || (r != [] && '/' !in r && (Strings.EndsWith(s, "/" + r) || Strings.EndsWith(s, "/" + r + "/")))
  {
    match BasenameCapture(s)
    case None => s
    case Some(name) => name
  }

  /** The last `/` of `pre + "/" + name` is the one before `name`. */
  lemma LastSlashBefore(pre: string, name: string)
    requires '/' !in name
    ensures Strings.LastIndexOf(pre + "/" + name, '/') == Some(|pre|)
  {
    var s := pre + "/" + name;
    assert s[|pre|] == '/';
    assert s[|pre| + 1..] == name;
    Strings.LastIndexOfIs(s, '/', |pre|);
  }

  /** Every segment after a `/` is found, with or without a trailing `/`. */
  lemma BasenameOfSegment(pre: string, name: string)
    requires name != [] && '/' !in name
    ensures Basename(pre + "/" + name) == name
    ensures Basename(pre + "/" + name + "/") == name
  {
    var s := pre + "/" + name;
    LastSlashBefore(pre, name);
    assert s[|s| - 1] == name[|name| - 1];
    assert s[|pre| + 1..] == name;
    assert (s + "/")[..|s|] == s;
  }

  /** Text without any `/` is its own basename. */
  lemma BasenameNoSlash(s: string)
    requires '/' !in s
    ensures Basename(s) == s
  {
  }

  // -------------------------------------------------------------- parent

  /** The test `\.\./?$`: the path ends in `..` or `../`. */
  predicate EndsWithUp(s: string) {
    Strings.EndsWith(s, "..") || Strings.EndsWith(s, "../")
  }

  /** Replacing the match of `[^/]+/?$` by nothing: the last segment and one
      slash after it removed; unchanged when the path ends in `//` or `/`
      alone follows nothing. */
  function DropBaseDir(s: string): (r: string)
    ensures |r| <= |s| && r == s[..|r|]
    ensures r == [] || r[|r| - 1] == '/' || r == s
  {
    var t := if |s| > 0 && s[|s| - 1] == '/' then s[..|s| - 1] else s;
    if t == [] || t[|t| - 1] == '/' then s
    else
      match Strings.LastIndexOf(t, '/')
      case None => []
      case Some(k) => t[..k + 1]
  }

  /** `parent`: `None` only for `"/"`; `""` and paths ending in `..` climb
      by appending `../` (after a `/` when one is missing); every other path
      loses its last segment. */
  function Parent(s: string): (r: Option<string>)
    ensures r.None? <==> s == "/"
  {
    if s == "/" then None
    else if s == [] || EndsWithUp(s) then
      Some((if s != [] && s[|s| - 1] != '/' then s + "/" else s) + "../")
    else Some(DropBaseDir(s))
  }

  /** A directory prefix followed by a last segment: the parent is the
      prefix, whether or not the path ends with `/`. */
  lemma ParentOfSegment(pre: string, name: string)
    requires pre == [] || pre[|pre| - 1] == '/'
    requires name != [] && '/' !in name && !Strings.EndsWith(name, "..")
    ensures Parent(pre + name) == Some(pre)
    ensures Parent(pre + name + "/") == Some(pre)
  {
    NotUpSegment(pre, name);
    DropSegment(pre, name);
    var s := pre + name;
    assert s[|s| - 1] != '/' && (s + "/")[|s| - 1] != '/';
  }

  /** A last segment that is not `..` does not end in `..` or `../`. */
  lemma NotUpSegment(pre: string, name: string)
    requires pre == [] || pre[|pre| - 1] == '/'
    requires name != [] && '/' !in name && !Strings.EndsWith(name, "..")
    ensures !EndsWithUp(pre + name) && !EndsWithUp(pre + name + "/")
  {
    var s := pre + name;
    assert s[|pre|..] == name;
    assert !Strings.EndsWith(s, "..") by {
      if |name| >= 2 {
        assert s[|s| - 2..] == name[|name| - 2..];
      } else if |s| >= 2 {
        assert s[|s| - 2] == '/';
      }
    }
    assert !Strings.EndsWith(s, "../") by {
      assert s[|s| - 1] != '/';
    }
    assert (s + "/")[..|s|] == s;
    assert !Strings.EndsWith(s + "/", "..") by { assert (s + "/")[|s|] == '/'; }
    assert !Strings.EndsWith(s + "/", "../") by {
      if |s| >= 2 { assert (s + "/")[|s| - 2..|s|] == s[|s| - 2..]; }
    }
  }

  /** Dropping the last segment, with or without a `/` after it, leaves the
      directory prefix. */
  lemma DropSegment(pre: string, name: string)
    requires pre == [] || pre[|pre| - 1] == '/'
    requires name != [] && '/' !in name
    ensures DropBaseDir(pre + name) == pre
    ensures DropBaseDir(pre + name + "/") == pre
  {
    var s := pre + name;
    assert s[|s| - 1] == name[|name| - 1];
    assert (s + "/")[..|s|] == s;
    DropFrom(pre, name);
  }

  /** The last `/` of a directory prefix and a segment ends the prefix. */
  lemma DropFrom(pre: string, name: string)
    requires pre == [] || pre[|pre| - 1] == '/'
    requires name != [] && '/' !in name
    ensures var t := pre + name;
      match Strings.LastIndexOf(t, '/')
      case None => pre == []
      case Some(k) => t[..k + 1] == pre
  {
    var t := pre + name;
    assert t[|pre|..] == name;
    if pre != [] {
      assert t[|pre| - 1] == '/';
      Strings.LastIndexOfIs(t, '/', |pre| - 1);
      assert t[..|pre|] == pre;
    } else {
      assert t == name;
    }
  }

  /** Relative climbing: `""` becomes `../` and a path ending in `..` gains
      one more `../`. */
  lemma ParentClimbs(s: string)
    requires s == [] || EndsWithUp(s)
    ensures s == [] ==> Parent(s) == Some("../")
    ensures s != [] && s[|s| - 1] == '/' ==> Parent(s) == Some(s + "../")
    ensures s != [] && s[|s| - 1] != '/' ==> Parent(s) == Some(s + "/../")
  {
    assert s != [] ==> |s| >= 2;
    assert s != "/";
    assert [] + "../" == "../";
    assert s + "/" + "../" == s + "/../";
  }

  // -------------------------------------------------------------- encode

  /** Every segment percent-encoded as text (`urlencoding::encode`). */
  function EncodeSegments(ps: seq<string>): (r: seq<string>)
    ensures |r| == |ps|
    ensures forall i :: 0 <= i < |ps| ==> r[i] == Percent.Encode(ps[i])
  {
    if ps == [] then [] else [Percent.Encode(ps[0])] + EncodeSegments(ps[1..])
  }

  /** `encode`: the segments between `/` percent-encoded and joined again
      with `/`; when no segment changed, the input itself is returned. */
  function Encode(path: string): string {
    var parts := Strings.Split(path, '/');
    var encoded := EncodeSegments(parts);
    if encoded != parts then Strings.Join(encoded, "/") else path
  }

  /** Every byte segment percent-encoded (`urlencoding::encode_binary`). */
  function EncodeBinarySegments(ps: seq<seq<Byte>>): (r: seq<string>)
    ensures |r| == |ps|
    ensures forall i :: 0 <= i < |ps| ==> r[i] == Percent.EncodeBinary(ps[i])
  {
    if ps == [] then [] else [Percent.EncodeBinary(ps[0])] + EncodeBinarySegments(ps[1..])
  }

  /** `encode_binary`: the byte segments between `/` encoded and joined. */
  function EncodeBinary(path: seq<Byte>): string {
    Strings.Join(EncodeBinarySegments(Strings.Split(path, RustPath.SLASH)), "/")
  }

  /** The byte-by-byte reading of both encoders: `/` stays, every other byte
      is encoded on its own. */
  function EncodeKeepSlash(b: seq<Byte>): (r: string)
    ensures Bytes.IsAscii(r)
  {
    if b == [] then []
    else (if b[0] == RustPath.SLASH then "/" else Percent.EncodeByte(b[0])) + EncodeKeepSlash(b[1..])
  }

  lemma {:induction false} KeepSlashAppend(a: seq<Byte>, b: seq<Byte>)
    ensures EncodeKeepSlash(a + b) == EncodeKeepSlash(a) + EncodeKeepSlash(b)
    decreases |a|
  {
    if a == [] {
      assert a + b == b;
    } else {
      assert (a + b)[1..] == a[1..] + b;
      KeepSlashAppend(a[1..], b);
    }
  }

  lemma {:induction false} KeepSlashNoSlash(b: seq<Byte>)
    requires RustPath.SLASH !in b
    ensures EncodeKeepSlash(b) == Percent.EncodeBinary(b)
    decreases |b|
  {
    if b != [] {
      KeepSlashNoSlash(b[1..]);
    }
  }

  lemma {:induction false} KeepSlashJoin(ps: seq<seq<Byte>>)
    requires forall i :: 0 <= i < |ps| ==> RustPath.SLASH !in ps[i]
    ensures EncodeKeepSlash(Strings.Join(ps, [RustPath.SLASH])) == Strings.Join(EncodeBinarySegments(ps), "/")
  {
    if |ps| == 1 {
      KeepSlashNoSlash(ps[0]);
    } else if |ps| > 1 {
      var rest := Strings.Join(ps[1..], [RustPath.SLASH]);
      KeepSlashAppend(ps[0] + [RustPath.SLASH], rest);
      KeepSlashAppend(ps[0], [RustPath.SLASH]);
      KeepSlashNoSlash(ps[0]);
      KeepSlashJoin(ps[1..]);
      assert EncodeBinarySegments(ps)[1..] == EncodeBinarySegments(ps[1..]);
    }
  }

  /** `encode_binary` keeps every `/` and encodes every other byte. */
  lemma EncodeBinaryPerByte(b: seq<Byte>)
    ensures EncodeBinary(b) == EncodeKeepSlash(b)
  {
    Strings.JoinSplit(b, RustPath.SLASH);
    KeepSlashJoin(Strings.Split(b, RustPath.SLASH));
  }

  lemma {:induction false} Utf8NoSlash(s: string)
    requires '/' !in s
    ensures RustPath.SLASH !in Utf8(s)
    decreases |s|
  {
    if s != [] {
      Utf8NoSlash(s[1..]);
    }
  }

  lemma {:induction false} Utf8Join(ps: seq<string>)
    ensures Utf8(Strings.Join(ps, "/")) == Strings.Join(Utf8Each(ps), [RustPath.SLASH])
  {
    if |ps| > 1 {
      var rest := Strings.Join(ps[1..], "/");
      Utf8Append(ps[0] + "/", rest);
      Utf8Append(ps[0], "/");
      Utf8Join(ps[1..]);
      assert Utf8Each(ps)[1..] == Utf8Each(ps[1..]);
    }
  }

  /** `encode` is `encode_binary` of the text's UTF-8 bytes, whichever of
      its two branches is taken. */
  lemma EncodeIsPerByte(s: string)
    ensures Encode(s) == EncodeKeepSlash(Utf8(s))
  {
    var parts := Strings.Split(s, '/');
    Strings.JoinSplit(s, '/');
    Utf8Join(parts);
    var bparts := Utf8Each(parts);
    forall i | 0 <= i < |bparts| ensures RustPath.SLASH !in bparts[i] {
      Utf8NoSlash(parts[i]);
    }
    KeepSlashJoin(bparts);
    assert EncodeBinarySegments(bparts) == EncodeSegments(parts);
  }

  /** Decoding the encoded path gives back every byte, `/` included. */
  lemma {:induction false} DecodeKeepSlash(b: seq<Byte>)
    ensures Percent.DecodeBinary(Utf8(EncodeKeepSlash(b))) == b
    decreases |b|
  {
    if b != [] {
      var head := if b[0] == RustPath.SLASH then "/" else Percent.EncodeByte(b[0]);
      var tail := EncodeKeepSlash(b[1..]);
      Utf8Append(head, tail);
      DecodeKeepSlash(b[1..]);
      if b[0] == RustPath.SLASH {
        DecodeSlash(Utf8(tail));
      } else {
        Percent.DecodeOne(b[0], Utf8(tail));
      }
    }
  }

  /** A `/` decodes to itself, whatever follows. */
  lemma DecodeSlash(rest: seq<Byte>)
    ensures Percent.DecodeBinary(Utf8("/") + rest) == [RustPath.SLASH] + Percent.DecodeBinary(rest)
  {
    var u := Utf8("/") + rest;
    assert Utf8("/") == [RustPath.SLASH];
    assert u[0] == RustPath.SLASH && u[1..] == rest;
  }

  /** Round trip of `encode`: decoding its output yields the text's bytes. */
  lemma EncodeRoundTrip(s: string)
    ensures Percent.DecodeBinary(Utf8(Encode(s))) == Utf8(s)
  {
    EncodeIsPerByte(s);
    DecodeKeepSlash(Utf8(s));
  }

  /** `encode` leaves the `/` where they were: splitting its output gives
      exactly the encoded segments of the input. */
  lemma EncodeKeepsSegments(s: string)
    ensures Strings.Split(Encode(s), '/') == EncodeSegments(Strings.Split(s, '/'))
  {
    var parts := Strings.Split(s, '/');
    var encoded := EncodeSegments(parts);
    forall i | 0 <= i < |encoded| ensures '/' !in encoded[i] {
      Percent.EncodedText(Utf8(parts[i]));
    }
    Strings.SplitJoin(encoded, '/');
  }

  /** Text that needs no escaping is returned unchanged. */
  lemma {:induction false} EncodeUnchanged(s: string)
    requires forall i :: 0 <= i < |s| ==> s[i] == '/' || (s[i] as int < 0x80 && Percent.Unreserved(s[i] as int))
    ensures Encode(s) == s
  {
    EncodeIsPerByte(s);
    KeepSlashAscii(s);
  }

  lemma {:induction false} KeepSlashAscii(s: string)
    requires forall i :: 0 <= i < |s| ==> s[i] == '/' || (s[i] as int < 0x80 && Percent.Unreserved(s[i] as int))
    ensures EncodeKeepSlash(Utf8(s)) == s
    decreases |s|
  {
    if s != [] {
      KeepSlashAscii(s[1..]);
      assert Utf8(s) == [s[0] as int] + Utf8(s[1..]);
      assert Utf8(s)[1..] == Utf8(s[1..]);
    }
  }

  // ------------------------------------------------------ traversal_safe

  const OUTSIDE_ROOT := "Cannot traverse outside of the root directory"
  const OUTSIDE_LOCAL := "Tried to traverse outside the local directory"

  /** The component walk of `traversal_safe` from a partly built result:
      `..` pops the last kept component and fails when there is none or it
      is the root; every other component is kept. */
  function Traverse(stack: RustPath.Path, cs: RustPath.Path): Result<RustPath.Path, IoError>
    decreases |cs|
  {
    if cs == [] then Ok(stack)
    else if cs[0] == RustPath.ParentDir then
      if stack == [] then Err(IoError(InvalidInput, OUTSIDE_LOCAL))
      else if stack[|stack| - 1] == RustPath.RootDir then Err(IoError(InvalidInput, OUTSIDE_ROOT))
      else Traverse(stack[..|stack| - 1], cs[1..])
    else Traverse(stack + [cs[0]], cs[1..])
  }

  /** `traversal_safe` over the components of its argument. */
  method TraversalSafe(path: RustPath.Path) returns (r: Result<RustPath.Path, IoError>)
    ensures r == Traverse([], path)
  {
    var result: RustPath.Path := [];
    var i := 0;
    while i < |path|
      invariant 0 <= i <= |path|
      invariant Traverse(result, path[i..]) == Traverse([], path)
    {
      var component := path[i];
      assert path[i..][1..] == path[i + 1..];
      if component == RustPath.ParentDir {
        if result == [] {
          return Err(IoError(InvalidInput, OUTSIDE_LOCAL));
        }
        var comp := result[|result| - 1];
        result := result[..|result| - 1];
        if comp == RustPath.RootDir {
          return Err(IoError(InvalidInput, OUTSIDE_ROOT));
        }
      } else {
        result := result + [component];
      }
      i := i + 1;
    }
    assert path[i..] == [];
    return Ok(result);
  }

  function CountParents(cs: RustPath.Path): nat {
    if cs == [] then 0 else (if cs[0] == RustPath.ParentDir then 1 else 0) + CountParents(cs[1..])
  }

  /** A successful walk keeps no `..`, and every `..` removed exactly one
      component that came before it. */
  lemma {:induction false} TraverseResult(stack: RustPath.Path, cs: RustPath.Path)
    requires RustPath.ParentDir !in stack
    ensures Traverse(stack, cs).Ok? ==> RustPath.ParentDir !in Traverse(stack, cs).value
    ensures Traverse(stack, cs).Ok? ==> |Traverse(stack, cs).value| + 2 * CountParents(cs) == |stack| + |cs|
    decreases |cs|
  {
    if cs != [] {
      if cs[0] == RustPath.ParentDir {
        if stack != [] && stack[|stack| - 1] != RustPath.RootDir {
          TraverseResult(stack[..|stack| - 1], cs[1..]);
        }
      } else {
        TraverseResult(stack + [cs[0]], cs[1..]);
      }
    }
  }

  /** A walk that starts at the root stays below it: the root is never popped. */
  lemma {:induction false} TraverseKeepsRoot(stack: RustPath.Path, cs: RustPath.Path)
    requires stack != [] && stack[0] == RustPath.RootDir
    ensures Traverse(stack, cs).Ok? ==> Traverse(stack, cs).value != [] && Traverse(stack, cs).value[0] == RustPath.RootDir
    decreases |cs|
  {
    if cs != [] {
      if cs[0] == RustPath.ParentDir {
        if stack[|stack| - 1] != RustPath.RootDir {
          TraverseKeepsRoot(stack[..|stack| - 1], cs[1..]);
        }
      } else {
        TraverseKeepsRoot(stack + [cs[0]], cs[1..]);
      }
    }
  }

  /** Only a rooted walk can fail by climbing over the root. */
  lemma {:induction false} TraverseRootError(stack: RustPath.Path, cs: RustPath.Path)
    requires RustPath.RootDir !in stack && RustPath.RootDir !in cs
    ensures Traverse(stack, cs) != Err(IoError(InvalidInput, OUTSIDE_ROOT))
    decreases |cs|
  {
    if cs != [] {
      assert RustPath.RootDir !in cs[1..] by { assert forall c :: c in cs[1..] ==> c in cs; }
      if cs[0] == RustPath.ParentDir {
        if stack != [] {
          assert stack[|stack| - 1] in stack;
          assert forall c :: c in stack[..|stack| - 1] ==> c in stack;
          TraverseRootError(stack[..|stack| - 1], cs[1..]);
        }
      } else {
        assert forall c :: c in stack + [cs[0]] ==> c in stack || c == cs[0];
        TraverseRootError(stack + [cs[0]], cs[1..]);
      }
    }
  }

  /** A path without `..` comes back unchanged: a safe path is a fixed point. */
  lemma {:induction false} TraverseFixpoint(stack: RustPath.Path, cs: RustPath.Path)
    requires RustPath.ParentDir !in cs
    ensures Traverse(stack, cs) == Ok(stack + cs)
    decreases |cs|
  {
    if cs == [] {
      assert stack + cs == stack;
    } else {
      assert cs[0] in cs;
      assert RustPath.ParentDir !in cs[1..] by { assert forall c :: c in cs[1..] ==> c in cs; }
      TraverseFixpoint(stack + [cs[0]], cs[1..]);
      assert stack + [cs[0]] + cs[1..] == stack + cs;
    }
  }

  /** `/foo/bar/../cheese` walks to `/foo/cheese`; `/foo/../..` climbs
      over the root. */
  lemma TraverseExamples()
    ensures Traverse([], [RustPath.RootDir, RustPath.Normal([0x66]), RustPath.Normal([0x62]), RustPath.ParentDir, RustPath.Normal([0x63])])
      == Ok([RustPath.RootDir, RustPath.Normal([0x66]), RustPath.Normal([0x63])])
    ensures Traverse([], [RustPath.RootDir, RustPath.Normal([0x66]), RustPath.ParentDir, RustPath.ParentDir])
      == Err(IoError(InvalidInput, OUTSIDE_ROOT))
  {
    var root, f, b, c := RustPath.RootDir, RustPath.Normal([0x66]), RustPath.Normal([0x62]), RustPath.Normal([0x63]);
    var up := RustPath.ParentDir;
    var cs := [root, f, b, up, c];
    assert [] + [root] == [root] && [root] + [f] == [root, f] && [root, f] + [b] == [root, f, b];
    assert [root, f, b][..2] == [root, f] && [root, f] + [c] == [root, f, c];
    assert Traverse([], cs) == Traverse([root], cs[1..]);
    assert Traverse([root], cs[1..]) == Traverse([root, f], cs[2..]);
    assert Traverse([root, f], cs[2..]) == Traverse([root, f, b], cs[3..]);
    assert Traverse([root, f, b], cs[3..]) == Traverse([root, f], cs[4..]);
    assert Traverse([root, f], cs[4..]) == Traverse([root, f, c], []);
    var ds := [root, f, up, up];
    assert [root, f][..1] == [root];
    assert Traverse([], ds) == Traverse([root], ds[1..]);
    assert Traverse([root], ds[1..]) == Traverse([root, f], ds[2..]);
    assert Traverse([root, f], ds[2..]) == Traverse([root], ds[3..]);
  }

  // -------------------------------------------------------------- expand

  /** The capture of `^/(.*)` after the `/`: `.` does not match a line
      feed, so the capture ends at the first `\n`. */
  function UpToNewline(s: string): (r: string)
    ensures '\n' !in r && Strings.StartsWith(s, r)
    ensures |r| < |s| ==> s[|r|] == '\n'
  {
    match Strings.IndexOf(s, '\n')
    case None => s
    case Some(k) => s[..k]
  }

  /** One segment of the relative loop of `expand`. */
  function ExpandStep(expanded: seq<string>, part: string): seq<string> {
    if part != "." && part != ".." then expanded + [part]
    else if part == ".." then
      if expanded == [] || expanded[|expanded| - 1] == ".." then expanded + [".."]
      else expanded[..|expanded| - 1]
    else expanded
  }

  function ExpandParts(expanded: seq<string>, parts: seq<string>): seq<string>
    decreases |parts|
  {
    if parts == [] then expanded else ExpandParts(ExpandStep(expanded, parts[0]), parts[1..])
  }

  /** The segments of a relative path, `\` read as `/`. */
  function RelativeParts(path: string): seq<string> {
    Strings.Split(Strings.ReplaceChar(path, '\\', '/'), '/')
  }

  /** The relative branch of `expand`: the segments expanded and joined. */
  function ExpandRelative(path: string): string {
    Strings.Join(ExpandParts([], RelativeParts(path)), "/")
  }

  const BEYOND_ROOT := "Cannot have a relative path beyond the root directory"

  /** The absolute branch of `expand` as written, given the expansion of the
      text after the `/`: refused when it starts with the characters `..`. */
  function RootAsWritten(inner: Result<string, IoError>): Result<string, IoError> {
    match inner
    case Err(e) => Err(e)
    case Ok(p) => if Strings.StartsWith(p, "..") then Err(IoError(InvalidData, BEYOND_ROOT)) else Ok(Join("/", p))
  }

  /** `expand` as written. */
  function ExpandAsWritten(path: string): Result<string, IoError>
    decreases |path|
  {
    if |path| > 0 && path[0] == '/' then RootAsWritten(ExpandAsWritten(UpToNewline(path[1..])))
    else Ok(ExpandRelative(path))
  }

  /** The expanded relative path climbs above its start: its first segment
      is `..`. */
  predicate ClimbsAbove(p: string) {
    p == ".." || Strings.StartsWith(p, "../")
  }

  /** The absolute branch as its error message intends it: refused only when
      the expansion climbs above the root. */
  function RootChecked(inner: Result<string, IoError>): Result<string, IoError> {
    match inner
    case Err(e) => Err(e)
    case Ok(p) => if ClimbsAbove(p) then Err(IoError(InvalidData, BEYOND_ROOT)) else Ok(Join("/", p))
  }

  /** `expand` with the intended check, so that a name such as `..foo`
      directly below the root is accepted. */
  function Expand(path: string): Result<string, IoError>
    decreases |path|
  {
    if |path| > 0 && path[0] == '/' then RootChecked(Expand(UpToNewline(path[1..])))
    else Ok(ExpandRelative(path))
  }

  /** The loop and the recursion of `expand`, as written. */
  method ExpandMethod(path: string) returns (r: Result<string, IoError>)
    ensures r == ExpandAsWritten(path)
    decreases |path|
  {
    if |path| > 0 && path[0] == '/' {
      var inner := ExpandMethod(UpToNewline(path[1..]));
      if inner.Err? {
        return Err(inner.error);
      }
      if Strings.StartsWith(inner.value, "..") {
        return Err(IoError(InvalidData, BEYOND_ROOT));
      }
      return Ok(Join("/", inner.value));
    }
    var joined := ExpandRelativeMethod(path);
    return Ok(joined);
  }

  /** The loop over the segments of a relative path. */
  method ExpandRelativeMethod(path: string) returns (r: string)
    ensures r == ExpandRelative(path)
  {
    var expanded: seq<string> := [];
    var parts := RelativeParts(path);
    var i := 0;
    while i < |parts|
      invariant 0 <= i <= |parts|
      invariant ExpandParts(expanded, parts[i..]) == ExpandParts([], parts)
    {
      ExpandNext(expanded, parts, i);
      expanded := ExpandStepMethod(expanded, parts[i]);
      i := i + 1;
    }
    assert parts[i..] == [];
    return Strings.Join(expanded, "/");
  }

  /** The body of the segment loop: `.` is dropped, `..` removes the last
      segment kept (or is kept when there is none to remove). */
  method ExpandStepMethod(expanded: seq<string>, part: string) returns (e: seq<string>)
    ensures e == ExpandStep(expanded, part)
  {
    e := expanded;
    if part != "." && part != ".." {
      e := e + [part];
    } else if part == ".." {
      if e == [] || e[|e| - 1] == ".." {
        e := e + [".."];
      } else {
        e := e[..|e| - 1];
      }
    }
  }

  /** One turn of the segment loop. */
  lemma ExpandNext(expanded: seq<string>, parts: seq<string>, i: nat)
    requires i < |parts|
    ensures ExpandParts(expanded, parts[i..]) == ExpandParts(ExpandStep(expanded, parts[i]), parts[i + 1..])
  {
    assert parts[i..][1..] == parts[i + 1..];
  }

  /** Joining below the root: `/` followed by the path without its leading
      slashes. */
  lemma JoinBelowRoot(p: string)
    ensures Join("/", p) == "/" + TrimLeadingSlashes(p)
  {
    var root := "/";
    assert |root| == 1 && root[0] == '/' && root[..0] == [];
    assert TrimTrailingSlashes(root) == TrimTrailingSlashes([]);
    JoinStripsSlashes(root, p);
  }

  /** The shape every expansion has: no `.` segment, and the `..` segments
      all come first. */
  predicate NormalForm(e: seq<string>) {
    (forall i :: 0 <= i < |e| ==> e[i] != ".")
    && (forall i, j :: 0 <= i < j < |e| && e[j] == ".." ==> e[i] == "..")
  }

  lemma {:induction false} ExpandPartsNormal(expanded: seq<string>, parts: seq<string>)
    requires NormalForm(expanded)
    ensures NormalForm(ExpandParts(expanded, parts))
    decreases |parts|
  {
    if parts != [] {
      var next := ExpandStep(expanded, parts[0]);
      assert NormalForm(next) by {
        if parts[0] == ".." && expanded != [] && expanded[|expanded| - 1] != ".." {
          assert next == expanded[..|expanded| - 1];
        }
      }
      ExpandPartsNormal(next, parts[1..]);
    }
  }

  /** Expanding what is already expanded changes nothing. */
  lemma {:induction false} ExpandPartsFixpoint(expanded: seq<string>, parts: seq<string>)
    requires NormalForm(expanded + parts)
    ensures ExpandParts(expanded, parts) == expanded + parts
    decreases |parts|
  {
    if parts == [] {
      assert expanded + parts == expanded;
    } else {
      var all := expanded + parts;
      assert all[|expanded|] == parts[0];
      if parts[0] == ".." && expanded != [] {
        assert all[|expanded| - 1] == "..";
      }
      assert expanded + [parts[0]] + parts[1..] == all;
      ExpandPartsFixpoint(expanded + [parts[0]], parts[1..]);
    }
  }

  /** The segments of every relative expansion are in normal form, and
      expanding them again leaves them as they are. */
  lemma ExpandRelativeIdempotent(path: string)
    ensures NormalForm(ExpandParts([], RelativeParts(path)))
    ensures ExpandParts([], ExpandParts([], RelativeParts(path))) == ExpandParts([], RelativeParts(path))
  {
    var e := ExpandParts([], RelativeParts(path));
    ExpandPartsNormal([], RelativeParts(path));
    assert [] + e == e;
    ExpandPartsFixpoint([], e);
  }

  /** Excess `..` bleed over in a relative path and cancel in pairs
      otherwise (the segments of `foo/bar/../../../` and of
      `foo/bar/../../../cheese/../yeet/`). */
  lemma ExpandPartsBleed()
    ensures ExpandParts([], ["foo", "bar", "..", "..", "..", ""]) == ["..", ""]
  {
  }

  /** `..` segments cancel the names before them, and only the excess ones
      remain. */
  lemma ExpandPartsCancel()
    ensures ExpandParts([], ["foo", "bar", "..", "..", "..", "cheese", "..", "yeet", ""]) == ["..", "yeet", ""]
  {
  }

  /** An absolute path that expands is still absolute. */
  lemma ExpandRooted(inner: Result<string, IoError>)
    ensures RootAsWritten(inner).Ok? ==> Strings.StartsWith(RootAsWritten(inner).value, "/")
    ensures RootChecked(inner).Ok? ==> Strings.StartsWith(RootChecked(inner).value, "/")
  {
    if inner.Ok? {
      JoinBelowRoot(inner.value);
    }
  }

  /** The check as written is stricter than the intended one: whatever
      `expand` as written accepts, the intended version accepts with the
      same result. */
  lemma {:induction false} AsWrittenAccepted(path: string)
    requires ExpandAsWritten(path).Ok?
    ensures Expand(path) == ExpandAsWritten(path)
    decreases |path|
  {
    if |path| > 0 && path[0] == '/' {
      var t := UpToNewline(path[1..]);
      AsWrittenAccepted(t);
      ClimbingStartsWithDots(ExpandAsWritten(t).value);
    }
  }

  /** A path that climbs starts with the characters `..`. */
  lemma ClimbingStartsWithDots(p: string)
    ensures ClimbsAbove(p) ==> Strings.StartsWith(p, "..")
  {
    if Strings.StartsWith(p, "../") {
      assert p[..2] == p[..3][..2];
    }
  }

  /** The two characters `..` also begin ordinary names. A name directly
      below the root that begins with them but is not `..` (`/..foo`, say):
      `expand` as written refuses it, the intended check accepts it
      unchanged. */
  lemma DotDotName(q: string)
    requires |q| > 2 && q[..2] == ".." && q[2] != '/'
    requires '/' !in q && '\\' !in q && '\n' !in q
    ensures ExpandAsWritten("/" + q).Err?
    ensures Expand("/" + q) == Ok("/" + q)
  {
    BelowRootName(q);
    NotClimbing(q);
    JoinBelowRoot(q);
    assert TrimLeadingSlashes(q) == q;
  }

  /** A text longer than `..` whose third character is not `/`. */
  lemma NotClimbing(q: string)
    requires |q| > 2 && q[2] != '/'
    ensures !ClimbsAbove(q)
  {
    assert q[..3][2] == q[2];
  }

  /** A single name below the root: both versions of `expand` reach their
      root check with the name itself. */
  lemma BelowRootName(q: string)
    requires q != [] && q != "." && q != ".."
    requires '/' !in q && '\\' !in q && '\n' !in q
    ensures ExpandAsWritten("/" + q) == RootAsWritten(Ok(q))
    ensures Expand("/" + q) == RootChecked(Ok(q))
  {
    var path := "/" + q;
    assert path[1..] == q;
    assert UpToNewline(q) == q;
    PlainName(q);
  }

  /** A single name without separators or line breaks expands to itself. */
  lemma PlainName(q: string)
    requires q != [] && q != "." && q != ".."
    requires '/' !in q && '\\' !in q && '\n' !in q
    ensures ExpandRelative(q) == q
    ensures ExpandAsWritten(q) == Ok(q) && Expand(q) == Ok(q)
  {
    assert Strings.ReplaceChar(q, '\\', '/') == q;
    Strings.SplitNoSep(q, '/');
    assert RelativeParts(q) == [q];
    assert ExpandStep([], q) == [q];
    assert ExpandParts([], [q]) == [q];
  }

}
