// The C++ server's path helpers (sources/pathutils.cpp): both `/` and `\`
// separate components; `join`, `dirname` and `isrel` are expressions, while
// `split`, `basename`, `isSubpath`, `relpath` and `delUps` work through
// loops over the text or a vector of components.
module CppPath {
  import opened Wrappers
  import Strings

  predicate IsSep(c: char) {
    c == '/' || c == '\\'
  }

  /** The text holds no separator. */
  predicate NoSep(s: string) {
    forall i :: 0 <= i < |s| ==> !IsSep(s[i])
  }

  /** The position of the first separator, if any. */
  function FirstSep(s: string): (r: Option<nat>)
    ensures r.Some? ==> r.value < |s| && IsSep(s[r.value]) && NoSep(s[..r.value])
    ensures r.None? ==> NoSep(s)
  {
    if s == [] then None
    else if IsSep(s[0]) then Some(0)
    else match FirstSep(s[1..])
      case None => None
      case Some(k) =>
        assert s[..k + 1] == [s[0]] + s[1..][..k];
        Some(k + 1)
  }

  lemma {:induction false} FirstSepIs(s: string, k: nat)
    requires k < |s| && IsSep(s[k]) && NoSep(s[..k])
    ensures FirstSep(s) == Some(k)
    decreases k
  {
    if k > 0 {
      assert s[..k][0] == s[0];
      assert s[1..][..k - 1] == s[1..k];
      assert forall i :: 0 <= i < k - 1 ==> s[1..k][i] == s[..k][i + 1];
      FirstSepIs(s[1..], k - 1);
    }
  }

  /** The position of the last separator, if any. */
  function LastSep(s: string): (r: Option<nat>)
    ensures r.Some? ==> r.value < |s| && IsSep(s[r.value]) && NoSep(s[r.value + 1..])
    ensures r.None? ==> NoSep(s)
  {
    if s == [] then None
    else if IsSep(s[|s| - 1]) then Some(|s| - 1)
    else match LastSep(s[..|s| - 1])
      case None => None
      case Some(k) =>
        assert s[k + 1..] == s[..|s| - 1][k + 1..] + [s[|s| - 1]];
        Some(k)
  }

  // ------------------------------------------------------------ join

  /** `path` without one leading separator. */
  function DropSep(path: string): (r: string)
    ensures path != [] && IsSep(path[0]) ==> path == [path[0]] + r
    ensures path == [] || !IsSep(path[0]) ==> r == path
  {
    if path != [] && IsSep(path[0]) then path[1..] else path
  }

  /** `join(root, path)`: one leading separator of `path` dropped, and a
      `/` between the two unless `root` already ends with a separator. */
  function Join(root: string, path: string): (r: string)
    ensures Strings.StartsWith(r, root) && Strings.EndsWith(r, DropSep(path))
    ensures |r| == |root| + |DropSep(path)| || |r| == |root| + 1 + |DropSep(path)|
  {
    var rest := DropSep(path);
    if root != [] && IsSep(root[|root| - 1]) then root + rest else root + "/" + rest
  }

  /** `join(paths, sep)`: the stream loop writes every element but the last
      followed by `sep`, then the last. */
  method JoinList(paths: seq<string>, sep: string) returns (r: string)
    ensures r == Strings.Join(paths, sep)
  {
    if paths == [] {
      return "";
    }
    var oss := "";
    var i := 0;
    while i < |paths| - 1
      invariant 0 <= i <= |paths| - 1
      invariant i == 0 ==> oss == ""
      invariant i > 0 ==> oss == Strings.Join(paths[..i], sep) + sep
    {
      if i > 0 {
        Strings.JoinSnoc(paths[..i], paths[i], sep);
      }
      assert paths[..i + 1] == paths[..i] + [paths[i]];
      oss := oss + paths[i] + sep;
      i := i + 1;
    }
    if i > 0 {
      Strings.JoinSnoc(paths[..i], paths[i], sep);
    }
    assert paths[..i] + [paths[i]] == paths;
    r := oss + paths[|paths| - 1];
  }

  // ------------------------------------------------------------ split

  /** `split`: the text cut at every separator; a leading separator gives
      a first component `""`, a trailing one adds nothing, and `""` gives
      no component. */
  function Parts(s: string): (r: seq<string>)
    ensures forall i :: 0 <= i < |r| ==> NoSep(r[i])
    ensures r == [] <==> s == []
    decreases |s|
  {
    if s == [] then []
    else match FirstSep(s)
      case None => [s]
      case Some(k) => [s[..k]] + Parts(s[k + 1..])
  }

  /** The nearer of the positions the two searches found. */
  function Nearer(f: Option<nat>, b: Option<nat>): Option<nat> {
    if f.None? then b
    else if b.None? then f
    else if f.value < b.value then f
    else b
  }

  /** The nearer of the separators the two searches find is the first. */
  lemma NearerSep(t: string)
    ensures FirstSep(t) == Nearer(Strings.IndexOf(t, '/'), Strings.IndexOf(t, '\\'))
  {
    var f := Strings.IndexOf(t, '/');
    var b := Strings.IndexOf(t, '\\');
    var n := Nearer(f, b);
    if n.None? {
      forall i | 0 <= i < |t| ensures !IsSep(t[i]) {
        assert t[i] in t;
      }
    } else {
      forall i | 0 <= i < n.value ensures !IsSep(t[i]) {
        if f.Some? {
          assert t[..f.value][i] == t[i];
        } else {
          assert t[i] in t;
        }
        if b.Some? {
          assert t[..b.value][i] == t[i];
        } else {
          assert t[i] in t;
        }
      }
      FirstSepIs(t, n.value);
    }
  }

  /** What `split`'s loop keeps: the sections found so far, then the
      components of the text not yet scanned, are those of the path. */
  ghost predicate SplitSoFar(sections: seq<string>, path: string, start: nat)
  {
    start <= |path| && sections + Parts(path[start..]) == Parts(path)
  }

  lemma SplitStep(sections: seq<string>, path: string, start: nat, end: nat, sections': seq<string>, start': nat)
    requires SplitSoFar(sections, path, start) && FirstSep(path[start..]) == Some(end)
    requires sections' == sections + [path[start..][..end]] && start' == start + end + 1
    ensures SplitSoFar(sections', path, start')
  {
    var rest := path[start..];
    PartsCons(rest, end);
    assert rest[end + 1..] == path[start'..];
    Strings.Regroup(sections, [rest[..end]], Parts(path[start'..]));
  }

  /** A text whose first separator is at `end`: its first component, then
      the components after the separator. */
  lemma PartsCons(rest: string, end: nat)
    requires FirstSep(rest) == Some(end)
    ensures end < |rest| && Parts(rest) == [rest[..end]] + Parts(rest[end + 1..])
  {
  }

  lemma SplitLast(sections: seq<string>, path: string, start: nat)
    requires start < |path| && FirstSep(path[start..]).None?
    requires SplitSoFar(sections, path, start)
    ensures sections + [path[start..]] == Parts(path)
  {
  }

  /** The two searches of one turn of `split`'s loop, the nearer result
      kept. */
  method FindSep(rest: string) returns (next: Option<nat>)
    ensures next == FirstSep(rest)
  {
    NearerSep(rest);
    var endFwd := Strings.IndexOf(rest, '/');
    var endBck := Strings.IndexOf(rest, '\\');
    if endFwd.None? && endBck.None? {
      return None;
    }
    if endFwd.None? {
      return endBck;
    }
    if endBck.None? {
      return endFwd;
    }
    if endFwd.value < endBck.value {
      return endFwd;
    }
    return endBck;
  }

  /** One turn of `split`'s loop: the component before the nearest
      separator, or the last component when there is none. */
  method SplitTurn(sections: seq<string>, path: string, start: nat) returns (sections': seq<string>, start': nat, last: bool)
    requires start < |path| && SplitSoFar(sections, path, start)
    ensures last ==> sections' == Parts(path)
    ensures !last ==> start < start' && SplitSoFar(sections', path, start')
  {
    var rest := path[start..];
    var next := FindSep(rest);
    if next.None? {
      SplitLast(sections, path, start);
      return sections + [rest], start, true;
    }
    var end := next.value;
    SplitStep(sections, path, start, end, sections + [rest[..end]], start + end + 1);
    return sections + [rest[..end]], start + end + 1, false;
  }

  /** `split`, its loop advancing `start` past each separator found. */
  method Split(path: string) returns (sections: seq<string>)
    ensures sections == Parts(path)
  {
    sections := [];
    var start := 0;
    while start != |path|
      invariant SplitSoFar(sections, path, start)
      decreases |path| - start
    {
      var last;
      sections, start, last := SplitTurn(sections, path, start);
      if last {
        return;
      }
    }
    assert path[start..] == [];
    assert sections + Parts(path[start..]) == Parts(path);
  }

  /** Text ending with a separator splits as its parts and then those of
      whatever follows. */
  lemma {:induction false} PartsAfterSep(x: string, y: string)
    requires x != [] && IsSep(x[|x| - 1])
    ensures Parts(x + y) == Parts(x) + Parts(y)
    decreases |x|
  {
    var k := FirstSep(x).value;
    assert (x + y)[..k] == x[..k];
    FirstSepIs(x + y, k);
    assert (x + y)[k + 1..] == x[k + 1..] + y;
    if k + 1 < |x| {
      PartsAfterSep(x[k + 1..], y);
    } else {
      assert x[k + 1..] == [];
    }
  }

  /** A separator after a last component that is not empty adds nothing. */
  lemma {:induction false} PartsTrailingSep(x: string, c: char)
    requires x != [] && !IsSep(x[|x| - 1]) && IsSep(c)
    ensures Parts(x + [c]) == Parts(x)
    decreases |x|
  {
    match FirstSep(x)
    case None =>
      FirstSepIs(x + [c], |x|);
      assert (x + [c])[..|x|] == x;
      assert (x + [c])[|x| + 1..] == [];
    case Some(k) =>
      assert (x + [c])[..k] == x[..k];
      FirstSepIs(x + [c], k);
      assert (x + [c])[k + 1..] == x[k + 1..] + [c];
      PartsTrailingSep(x[k + 1..], c);
  }

  /** Joining below a non-empty root adds the components of the joined
      path after those of the root. */
  lemma JoinParts(root: string, path: string)
    requires root != []
    ensures Parts(Join(root, path)) == Parts(root) + Parts(DropSep(path))
  {
    var rest := DropSep(path);
    if IsSep(root[|root| - 1]) {
      PartsAfterSep(root, rest);
    } else {
      assert root + "/" + rest == (root + "/") + rest;
      PartsAfterSep(root + "/", rest);
      PartsTrailingSep(root, '/');
    }
  }

  /** Components without separators, the last not empty, joined with `/`
      split back into themselves. */
  lemma {:induction false} PartsOfJoin(ps: seq<string>)
    requires forall i :: 0 <= i < |ps| ==> NoSep(ps[i])
    requires ps != [] ==> ps[|ps| - 1] != []
    ensures Parts(Strings.Join(ps, "/")) == ps
    decreases |ps|
  {
    if |ps| == 1 {
      assert Strings.Join(ps, "/") == ps[0];
    } else if |ps| > 1 {
      var tail := Strings.Join(ps[1..], "/");
      var s := ps[0] + "/" + tail;
      assert Strings.Join(ps, "/") == s;
      assert s[..|ps[0]|] == ps[0];
      FirstSepIs(s, |ps[0]|);
      assert s[|ps[0]| + 1..] == tail;
      PartsOfJoin(ps[1..]);
      assert [ps[0]] + ps[1..] == ps;
    }
  }

  /** `isrel`: the path is relative exactly when its first component is
      not the empty one a leading separator gives. */
  function IsRel(path: string): (r: bool)
    requires path != []
    ensures r <==> Parts(path)[0] != ""
  {
    assert FirstSep(path) == Some(0) <==> IsSep(path[0]);
    !IsSep(path[0])
  }

  // ------------------------------------------------------------ basename / dirname

  /** The text that names something: it has a character other than a
      separator (both functions read the last character of what remains
      after dropping trailing separators). */
  predicate HasName(path: string) {
    exists i :: 0 <= i < |path| && !IsSep(path[i])
  }

  /** `path` without its trailing separators. */
  function Trimmed(path: string): (r: string)
    ensures |r| <= |path| && r == path[..|r|]
    ensures r == [] || !IsSep(r[|r| - 1])
    ensures NoSep(path) ==> r == path
    ensures HasName(path) ==> r != []
    decreases |path|
  {
    if path != [] && IsSep(path[|path| - 1]) then
      var r := Trimmed(path[..|path| - 1]);
      assert HasName(path) ==> HasName(path[..|path| - 1]) by {
        if HasName(path) {
          var i :| 0 <= i < |path| && !IsSep(path[i]);
          assert path[..|path| - 1][i] == path[i];
        }
      }
      r
    else path
  }

  /** The loop popping trailing separators shared by `basename` and
      `dirname`. */
  method PopSeparators(path: string) returns (t: string)
    requires HasName(path)
    ensures t == Trimmed(path)
  {
    t := path;
    while IsSep(t[|t| - 1])
      invariant HasName(t) && Trimmed(t) == Trimmed(path)
      decreases |t|
    {
      var i :| 0 <= i < |t| && !IsSep(t[i]);
      assert t[..|t| - 1][i] == t[i];
      t := t[..|t| - 1];
    }
  }

  /** `basename` as written: after the last `/` when there is one, and
      only otherwise after the last `\`. */
  function BasenameAsWritten(path: string): string
    requires HasName(path)
  {
    AfterSlash(Trimmed(path))
  }

  function AfterSlash(t: string): string {
    match Strings.LastIndexOf(t, '/')
    case Some(f) => t[f + 1..]
    case None =>
      match Strings.LastIndexOf(t, '\\')
      case Some(b) => t[b + 1..]
      case None => t
  }

  /** `basename`. */
  method Basename(path: string) returns (r: string)
    requires HasName(path)
    ensures r == BasenameAsWritten(path)
  {
    var t := PopSeparators(path);
    var fwd := Strings.LastIndexOf(t, '/');
    var bck := Strings.LastIndexOf(t, '\\');
    if fwd.None? && bck.None? {
      return t;
    }
    if fwd.Some? {
      return t[fwd.value + 1..];
    }
    return t[bck.value + 1..];
  }

  /** The last component: what follows the last separator of either kind. */
  function Base(path: string): (r: string)
    requires HasName(path)
    ensures r != [] && NoSep(r)
  {
    LastComponent(Trimmed(path))
  }

  function LastComponent(t: string): (r: string)
    ensures t != [] && !IsSep(t[|t| - 1]) ==> r != []
    ensures NoSep(r)
  {
    match LastSep(t)
    case Some(k) => t[k + 1..]
    case None => t
  }

  lemma {:induction false} LastSepIs(s: string, k: nat)
    requires k < |s| && IsSep(s[k]) && NoSep(s[k + 1..])
    ensures LastSep(s) == Some(k)
    decreases |s|
  {
    if k < |s| - 1 {
      assert s[k + 1..][|s| - k - 2] == s[|s| - 1];
      var t := s[..|s| - 1];
      assert t[k + 1..] == s[k + 1..][..|s| - k - 2];
      LastSepIs(t, k);
    }
  }

  /** The later of the positions the two searches found. */
  function Later(f: Option<nat>, b: Option<nat>): Option<nat> {
    if f.None? then b
    else if b.None? then f
    else if f.value > b.value then f
    else b
  }

  /** The later of the separators the two searches find is the last. */
  lemma LaterSep(t: string)
    ensures LastSep(t) == Later(Strings.LastIndexOf(t, '/'), Strings.LastIndexOf(t, '\\'))
  {
    var f := Strings.LastIndexOf(t, '/');
    var b := Strings.LastIndexOf(t, '\\');
    var n := Later(f, b);
    if n.None? {
      forall i | 0 <= i < |t| ensures !IsSep(t[i]) {
        assert t[i] in t;
      }
    } else {
      var k := n.value;
      var after := t[k + 1..];
      forall i | 0 <= i < |after| ensures !IsSep(after[i]) {
        var c := after[i];
        if f.Some? {
          assert c == t[f.value + 1..][i + k - f.value];
        } else {
          assert c in t;
        }
        if b.Some? {
          assert c == t[b.value + 1..][i + k - b.value];
        } else {
          assert c in t;
        }
      }
      LastSepIs(t, k);
    }
  }

  /** `dirname`: everything through the last separator, or `""` when there
      is none. */
  function Dirname(path: string): (r: string)
    requires HasName(path)
    ensures r == [] || IsSep(r[|r| - 1])
  {
    Directory(Trimmed(path))
  }

  function Directory(t: string): (r: string)
    ensures r == [] || IsSep(r[|r| - 1])
  {
    match Later(Strings.LastIndexOf(t, '/'), Strings.LastIndexOf(t, '\\'))
    case None => ""
    case Some(k) => t[..k + 1]
  }

  /** `dirname`. */
  method DirnameOf(path: string) returns (r: string)
    requires HasName(path)
    ensures r == Dirname(path)
  {
    var t := PopSeparators(path);
    var fwd := Strings.LastIndexOf(t, '/');
    var bck := Strings.LastIndexOf(t, '\\');
    if fwd.None? && bck.None? {
      return "";
    }
    if fwd.None? {
      return t[..bck.value + 1];
    }
    if bck.None? {
      return t[..fwd.value + 1];
    }
    if fwd.value > bck.value {
      return t[..fwd.value + 1];
    }
    return t[..bck.value + 1];
  }

  /** The directory and the last component make up the path without its
      trailing separators. */
  lemma DirnameBase(path: string)
    requires HasName(path)
    ensures Dirname(path) + Base(path) == Trimmed(path)
  {
    DirectoryComponent(Trimmed(path));
  }

  lemma DirectoryComponent(t: string)
    ensures Directory(t) + LastComponent(t) == t
  {
    LaterSep(t);
    if LastSep(t).Some? {
      var k := LastSep(t).value;
      assert t[..k + 1] + t[k + 1..] == t;
    }
  }

  /** `basename` as written agrees with the last component unless a `\`
      follows the last `/`. */
  lemma BasenameAgrees(path: string)
    requires HasName(path)
    requires var t := Trimmed(path); var f := Strings.LastIndexOf(t, '/');
      f.None? || '\\' !in t[f.value + 1..]
    ensures BasenameAsWritten(path) == Base(path)
  {
    AfterSlashAgrees(Trimmed(path));
  }

  lemma AfterSlashAgrees(t: string)
    requires var f := Strings.LastIndexOf(t, '/'); f.None? || '\\' !in t[f.value + 1..]
    ensures AfterSlash(t) == LastComponent(t)
  {
    LaterSep(t);
    if Strings.LastIndexOf(t, '/').Some? {
      AfterLastSlash(t);
    }
  }

  lemma AfterLastSlash(t: string)
    requires var f := Strings.LastIndexOf(t, '/'); f.Some? && '\\' !in t[f.value + 1..]
    ensures LastSep(t) == Strings.LastIndexOf(t, '/')
  {
    LaterSep(t);
    var f := Strings.LastIndexOf(t, '/');
    var b := Strings.LastIndexOf(t, '\\');
    forall j | f.value < j < |t| ensures t[j] != '\\' {
      assert t[j] == t[f.value + 1..][j - f.value - 1];
    }
    if b.Some? {
      assert t[b.value] == '\\' && t[f.value] == '/';
      assert b.value < f.value;
    }
  }

  /** As written, `basename("a/b\c")` is `b\c`, not `c`, so the directory
      and the base name do not make up the path. */
  lemma BasenameMixedSeparators()
    ensures HasName("a/b\\c")
    ensures BasenameAsWritten("a/b\\c") == "b\\c"
    ensures Dirname("a/b\\c") + BasenameAsWritten("a/b\\c") != "a/b\\c"
    ensures Base("a/b\\c") == "c"
  {
    var p := "a/b\\c";
    assert !IsSep(p[0]);
    assert Trimmed(p) == p;
    Strings.LastIndexOfIs(p, '/', 1);
    Strings.LastIndexOfIs(p, '\\', 3);
    LaterSep(p);
    assert p[2..] == "b\\c";
    assert p[..4] == "a/b\\";
    assert |Dirname(p) + BasenameAsWritten(p)| == 7;
  }

  // ------------------------------------------------------------ isSubpath / relpath

  /** Whether one component list is a prefix of the other. */
  predicate SharedPrefix(a: seq<string>, b: seq<string>) {
    (|a| <= |b| && a == b[..|a|]) || (|b| <= |a| && b == a[..|b|])
  }

  /** `isSubpath`: the loop drops equal first components until either list
      runs out, and fails at the first mismatch. */
  method IsSubpath(path: string, subpath: string) returns (r: bool)
    ensures r <==> SharedPrefix(Parts(path), Parts(subpath))
  {
    var pathParts := Split(path);
    var subParts := Split(subpath);
    ghost var a := pathParts;
    ghost var b := subParts;
    ghost var i := 0;
    while pathParts != [] && subParts != []
      invariant 0 <= i <= |a| && i <= |b|
      invariant pathParts == a[i..] && subParts == b[i..] && a[..i] == b[..i]
      decreases |pathParts|
    {
      if pathParts[0] != subParts[0] {
        assert a[i] != b[i];
        return false;
      }
      assert a[..i + 1] == a[..i] + [a[i]] && b[..i + 1] == b[..i] + [b[i]];
      pathParts := pathParts[1..];
      subParts := subParts[1..];
      i := i + 1;
    }
    assert i == |a| || i == |b|;
    return true;
  }

  /** Neither argument of `isSubpath` is the parent: it holds in both
      orders or in neither. */
  lemma SubpathSymmetric(a: seq<string>, b: seq<string>)
    ensures SharedPrefix(a, b) == SharedPrefix(b, a)
  {
  }

  /** `relpath`: `rel`'s components removed from the front of `path`'s, the
      rest joined with `/`; `path` itself at the first mismatch. */
  function RelPath(path: string, rel: string): (r: string)
  {
    var a := Parts(path);
    var b := Parts(rel);
    if SharedPrefix(a, b) then
      (if |b| <= |a| then Strings.Join(a[|b|..], "/") else "")
    else path
  }

  /** When `rel`'s components begin `path`'s, and `path` does not end in a
      doubled separator, the result has exactly the components after them. */
  lemma RelPathParts(path: string, rel: string)
    requires var a := Parts(path); var b := Parts(rel); |b| <= |a| && a[..|b|] == b
    requires Parts(path) != [] ==> Parts(path)[|Parts(path)| - 1] != []
    ensures Parts(RelPath(path, rel)) == Parts(path)[|Parts(rel)|..]
  {
    var a := Parts(path);
    var b := Parts(rel);
    assert forall i :: 0 <= i < |a[|b|..]| ==> a[|b|..][i] == a[|b| + i];
    PartsOfJoin(a[|b|..]);
  }

  /** `relpath`. */
  method RelativePath(path: string, rel: string) returns (r: string)
    ensures r == RelPath(path, rel)
  {
    var pathParts := Split(path);
    var relParts := Split(rel);
    ghost var a := pathParts;
    ghost var b := relParts;
    ghost var i := 0;
    while pathParts != [] && relParts != []
      invariant 0 <= i <= |a| && i <= |b|
      invariant pathParts == a[i..] && relParts == b[i..] && a[..i] == b[..i]
      decreases |pathParts|
    {
      if pathParts[0] != relParts[0] {
        Mismatch(a, b, i);
        return path;
      }
      assert a[..i + 1] == a[..i] + [a[i]] && b[..i + 1] == b[..i] + [b[i]];
      pathParts := pathParts[1..];
      relParts := relParts[1..];
      i := i + 1;
    }
    r := JoinList(pathParts, "/");
    RanOut(path, rel, a, b, i);
  }

  /** Lists that differ at `i` after an equal front share no prefix. */
  lemma Mismatch(a: seq<string>, b: seq<string>, i: nat)
    requires i < |a| && i < |b| && a[..i] == b[..i] && a[i] != b[i]
    ensures !SharedPrefix(a, b)
  {
    if |a| <= |b| {
      assert a[i] != b[..|a|][i];
    }
    if |b| <= |a| {
      assert b[i] != a[..|b|][i];
    }
  }

  /** The loop of `relpath` ran out of one list with the fronts equal: the
      result is the rest of `path`'s components. */
  lemma RanOut(path: string, rel: string, a: seq<string>, b: seq<string>, i: nat)
    requires a == Parts(path) && b == Parts(rel)
    requires i <= |a| && i <= |b| && a[..i] == b[..i] && (a[i..] == [] || b[i..] == [])
    ensures Strings.Join(a[i..], "/") == RelPath(path, rel)
  {
    if b[i..] == [] {
      assert |b| == i && b == a[..|b|];
      assert SharedPrefix(a, b);
    } else {
      assert |a| == i && a == b[..|a|];
      assert SharedPrefix(a, b) && a[i..] == [];
    }
  }

  // ------------------------------------------------------------ delUps

  /** One component of `delUps`'s loop: `.` is dropped, `..` removes the
      previous component, and an empty component is kept only first. The
      corrected step does not let `..` remove the root. */
  function Step(parts: seq<string>, part: string, fixed: bool): seq<string> {
    if part == "." then parts
    else if part == ".." then
      (if parts != [] && !(fixed && parts == [""]) then parts[..|parts| - 1] else parts)
    else if part == "" && parts != [] then parts
    else parts + [part]
  }

  function Walk(parts: seq<string>, rest: seq<string>, fixed: bool): seq<string>
    decreases |rest|
  {
    if rest == [] then parts else Walk(Step(parts, rest[0], fixed), rest[1..], fixed)
  }

  /** Components without separators, `.` or `..`, an empty one only
      first. */
  predicate Normal(parts: seq<string>) {
    forall i :: 0 <= i < |parts| ==>
      NoSep(parts[i]) && parts[i] != "." && parts[i] != ".." && (parts[i] == "" ==> i == 0)
  }

  /** `delUps`, as written (`fixed` false) or corrected. */
  function DelUps(path: string, fixed: bool): string {
    Strings.Join(Walk([], Parts(path), fixed), "/")
  }

  /** `delUps`, its loop pushing and popping components. */
  method DeleteUps(path: string) returns (r: string)
    ensures r == DelUps(path, false)
  {
    var all := Split(path);
    var parts: seq<string> := [];
    var i := 0;
    while i < |all|
      invariant 0 <= i <= |all|
      invariant Walk(parts, all[i..], false) == Walk([], all, false)
    {
      assert all[i..][1..] == all[i + 1..];
      var part := all[i];
      if part == "." {
        i := i + 1;
        continue;
      }
      if part == ".." {
        if parts != [] {
          parts := parts[..|parts| - 1];
        }
        i := i + 1;
        continue;
      }
      if part == "" && parts != [] {
        i := i + 1;
        continue;
      }
      parts := parts + [part];
      i := i + 1;
    }
    r := JoinList(parts, "/");
  }

  lemma {:induction false} WalkNormal(parts: seq<string>, rest: seq<string>, fixed: bool)
    requires Normal(parts)
    requires forall i :: 0 <= i < |rest| ==> NoSep(rest[i])
    ensures Normal(Walk(parts, rest, fixed))
    decreases |rest|
  {
    if rest != [] {
      var next := Step(parts, rest[0], fixed);
      assert Normal(next) by {
        if rest[0] == ".." && next != parts {
          assert forall i :: 0 <= i < |next| ==> next[i] == parts[i];
        }
      }
      WalkNormal(next, rest[1..], fixed);
    }
  }

  /** The components of a result contain no separator, `.` or `..`, and an
      empty one only first. */
  lemma DelUpsNormal(path: string, fixed: bool)
    ensures Normal(Walk([], Parts(path), fixed))
  {
    WalkNormal([], Parts(path), fixed);
  }

  /** Normal components pass through the walk unchanged. */
  lemma {:induction false} WalkKeeps(parts: seq<string>, rest: seq<string>, fixed: bool)
    requires Normal(parts + rest)
    ensures Walk(parts, rest, fixed) == parts + rest
    decreases |rest|
  {
    if rest != [] {
      assert (parts + rest)[|parts|] == rest[0];
      assert rest[0] == "" ==> parts == [];
      assert Step(parts, rest[0], fixed) == parts + [rest[0]];
      assert parts + [rest[0]] + rest[1..] == parts + rest;
      WalkKeeps(parts + [rest[0]], rest[1..], fixed);
    }
  }

  /** `delUps` changes nothing the second time. */
  lemma DelUpsIdempotent(path: string, fixed: bool)
    ensures DelUps(DelUps(path, fixed), fixed) == DelUps(path, fixed)
  {
    var ps := Walk([], Parts(path), fixed);
    DelUpsNormal(path, fixed);
    if ps == [""] {
      assert Strings.Join(ps, "/") == "";
    } else {
      assert ps != [] ==> ps[|ps| - 1] != [];
      PartsOfJoin(ps);
      WalkKeeps([], ps, fixed);
      assert [] + ps == ps;
    }
  }

  lemma {:induction false} WalkKeepsRoot(parts: seq<string>, rest: seq<string>)
    requires parts != [] && parts[0] == ""
    ensures var r := Walk(parts, rest, true); r != [] && r[0] == ""
    decreases |rest|
  {
    if rest != [] {
      WalkKeepsRoot(Step(parts, rest[0], true), rest[1..]);
    }
  }

  /** Corrected, an absolute path keeps its root: the empty first
      component survives every `..`. */
  lemma DelUpsKeepsRoot(path: string)
    requires path != [] && IsSep(path[0])
    ensures var r := Walk([], Parts(path), true); r != [] && r[0] == ""
  {
    FirstSepIs(path, 0);
    var ps := Parts(path);
    assert ps[0] == "" && Step([], ps[0], true) == [""];
    WalkKeepsRoot([""], ps[1..]);
  }

  /** As written, `delUps("/../a")` is the relative `a`; corrected it is
      `/a`. */
  lemma DelUpsAboveRoot()
    ensures DelUps("/../a", false) == "a"
    ensures DelUps("/../a", true) == "/a"
  {
    var p := "/../a";
    FirstSepIs(p, 0);
    FirstSepIs(p[1..], 2);
    assert p[1..][..2] == ".." && p[1..][3..] == "a";
    assert FirstSep("a") == None;
    assert Parts(p) == ["", "..", "a"];
    assert Walk([], ["", "..", "a"], false) == ["a"];
    assert Walk([], ["", "..", "a"], true) == ["", "a"];
  }
}
