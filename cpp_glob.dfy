// The C++ server's `*` globs (sources/glob.cpp, includes/glob.hpp), used for
// the host a handler answers to. A `Glob` object keeps the literals between
// the `*`s of its text; the meaning of such a list of literals is the one the
// Rust server's globs share (`RustGlob.Anchored`).
module CppGlob {
  import opened Wrappers
  import Strings
  import RustGlob

  /** `Glob::match` as written: a non-empty first literal must start the
      text; every later non-empty literal is cut off after its leftmost
      occurrence in what is left (an empty one cuts nothing); and a
      non-empty last literal needs the text used up. */
  predicate MatchesAsWritten(pattern: seq<string>, text: string)
    requires |pattern| >= 1
  {
    Strings.StartsWith(text, pattern[0])
    && var rest := text[|pattern[0]|..];
    RustGlob.CutAll(pattern[1..], rest).Some?
    && (pattern[|pattern| - 1] == [] || RustGlob.CutAll(pattern[1..], rest).value == [])
  }

  /** Cutting the text at its first `*` moves one literal to the list. */
  lemma CutStar(pattern: seq<string>, rest: string, glob: string, k: nat)
    requires pattern + Strings.Split(rest, '*') == Strings.Split(glob, '*')
    requires k < |rest| && rest[k] == '*' && '*' !in rest[..k]
    ensures pattern + [rest[..k]] + Strings.Split(rest[k + 1..], '*') == Strings.Split(glob, '*')
  {
    Strings.SplitAtFirst(rest, '*', k);
    assert pattern + [rest[..k]] + Strings.Split(rest[k + 1..], '*')
        == pattern + ([rest[..k]] + Strings.Split(rest[k + 1..], '*'));
  }

  /** A text without `*` is the last literal. */
  lemma LastPiece(pattern: seq<string>, rest: string, glob: string)
    requires pattern + Strings.Split(rest, '*') == Strings.Split(glob, '*')
    requires '*' !in rest
    ensures pattern + [rest] == Strings.Split(glob, '*')
    ensures |pattern + [rest]| == RustGlob.Count(glob, '*') + 1
  {
    Strings.SplitNoSep(rest, '*');
    RustGlob.StarCount(glob);
  }

  class Glob {
    /** The literals between the `*`s; empty only for a default-built glob. */
    var pattern: seq<string>

    /** `Glob()`: no pattern yet. */
    constructor Empty()
      ensures pattern == []
    {
      pattern := [];
    }

    /** `Glob(const std::string &)`: compiles its text. */
    constructor (glob: string)
      ensures pattern == Strings.Split(glob, '*')
    {
      pattern := [];
      new;
      Compile(glob);
    }

    /** The copy constructor: the same literals. */
    constructor Copy(other: Glob)
      ensures pattern == other.pattern
    {
      pattern := other.pattern;
    }

    /** `Glob::compile`: replaces the literals by those of `glob`, cutting
        one `*` at a time. */
    method Compile(glob: string)
      modifies this
      ensures pattern == Strings.Split(glob, '*')
      ensures |pattern| == RustGlob.Count(glob, '*') + 1
    {
      pattern := [];
      var rest := glob;
      while rest != []
        invariant pattern + Strings.Split(rest, '*') == Strings.Split(glob, '*')
        decreases |rest|
      {
        var pos := Strings.IndexOf(rest, '*');
        if pos.None? {
          break;
        }
        CutStar(pattern, rest, glob, pos.value);
        pattern := pattern + [rest[..pos.value]];
        rest := rest[pos.value + 1..];
      }
      LastPiece(pattern, rest, glob);
      pattern := pattern + [rest];
    }

    /** `operator=(const std::string &)`: recompiles, dropping the old
        literals. */
    method Assign(glob: string)
      modifies this
      ensures pattern == Strings.Split(glob, '*')
    {
      Compile(glob);
    }

    /** `Glob::match`. */
    method Match(text: string) returns (r: bool)
      requires pattern != []
      ensures r == MatchesAsWritten(pattern, text)
    {
      var front := pattern[0];
      var t := text;
      if front != [] {
        if !(|front| <= |t| && t[..|front|] == front) {
          return false;
        }
        t := t[|front|..];
      }
      assert t == text[|front|..];
      var i := 1;
      while i < |pattern|
        invariant 1 <= i <= |pattern|
        invariant RustGlob.CutAll(pattern[i..], t) == RustGlob.CutAll(pattern[1..], text[|front|..])
      {
        var literal := pattern[i];
        if literal == [] {
          CutEmpty(pattern, i, t);
          i := i + 1;
          continue;
        }
        var pos := Strings.Find(t, literal);
        if pos.None? {
          CutMissing(pattern, i, t);
          return false;
        }
        var next := t[pos.value + |literal|..];
        CutStep(pattern, i, t, pos.value, next);
        t, i := next, i + 1;
      }
      assert pattern[i..] == [];
      if pattern[|pattern| - 1] != [] && t != [] {
        return false;
      }
      return true;
    }

    /** `operator==(const std::string &)`: a match. */
    method EqualsText(text: string) returns (r: bool)
      requires pattern != []
      ensures r == MatchesAsWritten(pattern, text)
    {
      r := Match(text);
    }

    /** `operator==(const Glob &)`: the same literals. */
    method EqualsGlob(other: Glob) returns (r: bool)
      ensures r <==> pattern == other.pattern
    {
      r := pattern == other.pattern;
    }

    /** `Glob::str`: every literal but the last followed by `*`, then the
        last one. */
    method Str() returns (s: string)
      requires pattern != []
      ensures s == Strings.Join(pattern, "*")
    {
      s := [];
      var i := 0;
      while i + 1 < |pattern|
        invariant 0 <= i < |pattern|
        invariant s + Strings.Join(pattern[i..], "*") == Strings.Join(pattern, "*")
      {
        assert pattern[i..][1..] == pattern[i + 1..];
        s := s + pattern[i] + "*";
        i := i + 1;
      }
      assert pattern[i..] == [pattern[|pattern| - 1]];
      s := s + pattern[|pattern| - 1];
    }

    /** `operator std::string`: the text of `str()`. */
    method ToString() returns (s: string)
      requires pattern != []
      ensures s == Strings.Join(pattern, "*")
    {
      s := Str();
    }
  }

  // ------------------------------------------------------------ lemmas

  /** One turn of the loop of `match`: an empty literal cuts nothing. */
  lemma CutEmpty(pattern: seq<string>, i: nat, t: string)
    requires i < |pattern| && pattern[i] == []
    ensures RustGlob.CutAll(pattern[i..], t) == RustGlob.CutAll(pattern[i + 1..], t)
  {
    assert pattern[i..][1..] == pattern[i + 1..];
    Strings.FindIs(t, pattern[i], 0);
    assert t[0..] == t;
  }

  /** One turn of the loop of `match`: the text after the leftmost
      occurrence of the literal is searched for the rest. */
  lemma CutStep(pattern: seq<string>, i: nat, t: string, p: nat, next: string)
    requires i < |pattern| && Strings.Find(t, pattern[i]) == Some(p)
    requires next == t[p + |pattern[i]|..]
    ensures RustGlob.CutAll(pattern[i..], t) == RustGlob.CutAll(pattern[i + 1..], next)
  {
    assert pattern[i..][1..] == pattern[i + 1..];
  }

  /** A literal that does not occur fails the search. */
  lemma CutMissing(pattern: seq<string>, i: nat, t: string)
    requires i < |pattern| && Strings.Find(t, pattern[i]).None?
    ensures RustGlob.CutAll(pattern[i..], t).None?
  {
    assert pattern[i..][0] == pattern[i];
  }

  /** `str()` after compiling a text gives that text back. */
  lemma StrCompile(glob: string)
    ensures Strings.Join(Strings.Split(glob, '*'), "*") == glob
  {
    Strings.JoinSplit(glob, '*');
  }

  /** Two globs built from texts compare equal exactly when the texts are
      equal. */
  lemma CompiledEqual(a: string, b: string)
    ensures Strings.Split(a, '*') == Strings.Split(b, '*') <==> a == b
  {
    StrCompile(a);
    StrCompile(b);
  }

  /** Text not starting with a non-empty first literal is refused. */
  lemma PrefixRequired(pattern: seq<string>, text: string)
    requires |pattern| >= 1 && !Strings.StartsWith(text, pattern[0])
    ensures !MatchesAsWritten(pattern, text)
  {
  }

  /** The empty glob compiles to one empty literal and matches every text,
      where the Rust server's empty glob matches only the empty text. */
  lemma EmptyGlobMatchesAll(text: string)
    ensures Strings.Split("", '*') == [""]
    ensures MatchesAsWritten([""], text)
    ensures text != [] ==> !RustGlob.MatchesAsWritten([""], text)
  {
    assert text[0..] == text;
    assert RustGlob.CutAll([], text) == Some(text);
    if text != [] {
      RustGlob.LiteralMatchesItself("", text);
    }
  }

  /** A single non-empty literal matches exactly itself. */
  lemma LiteralMatchesItself(literal: string, text: string)
    requires literal != []
    ensures MatchesAsWritten([literal], text) <==> text == literal
  {
    assert [literal][1..] == [];
    if |literal| <= |text| {
      var rest := text[|literal|..];
      assert RustGlob.CutAll([], rest) == Some(rest);
      if text == literal {
        assert rest == [];
      }
      if MatchesAsWritten([literal], text) {
        assert text == text[..|literal|] + rest;
      }
    }
  }

  /** A glob without `*` (other than the empty one) matches exactly its own
      text. */
  lemma NoStarMatchesItself(glob: string, text: string)
    requires glob != [] && '*' !in glob
    ensures Strings.Split(glob, '*') == [glob]
    ensures MatchesAsWritten(Strings.Split(glob, '*'), text) <==> text == glob
  {
    Strings.SplitNoSep(glob, '*');
    LiteralMatchesItself(glob, text);
  }

  /** A glob ending in `*` accepts any text after a match. */
  lemma TrailingStarAcceptsMore(pattern: seq<string>, text: string, more: string)
    requires |pattern| >= 1 && pattern[|pattern| - 1] == []
    requires MatchesAsWritten(pattern, text)
    ensures MatchesAsWritten(pattern, text + more)
  {
    var k := |pattern[0]|;
    assert (text + more)[..k] == text[..k];
    assert (text + more)[k..] == text[k..] + more;
    RustGlob.CutAllExtend(pattern[1..], text[k..], more);
  }

  /** Whatever the code accepts is a match of the glob, the empty glob
      aside. */
  lemma AsWrittenSound(pattern: seq<string>, text: string)
    requires |pattern| >= 1 && pattern != [""]
    requires MatchesAsWritten(pattern, text)
    ensures RustGlob.Anchored(pattern, text)
  {
    var rest := text[|pattern[0]|..];
    if |pattern| == 1 {
      assert RustGlob.CutAll([], rest) == Some(rest);
      assert text == text[..|pattern[0]|] + rest;
    } else {
      assert pattern[1..][|pattern[1..]| - 1] == pattern[|pattern| - 1];
      RustGlob.CutAllFloating(pattern[1..], rest);
    }
  }

  /** `match` as intended: as written, except that a last literal after a
      `*` must end the text rather than occur leftmost. */
  predicate MatchesFixed(pattern: seq<string>, text: string)
    requires |pattern| >= 1
  {
    if |pattern| == 1 then pattern[0] == [] || text == pattern[0]
    else
      Strings.StartsWith(text, pattern[0])
      && RustGlob.FloatingGreedy(pattern[1..], text[|pattern[0]|..])
  }

  /** The corrected matcher accepts exactly the texts the glob describes,
      and everything for the empty glob. */
  lemma MatchesFixedCorrect(pattern: seq<string>, text: string)
    requires |pattern| >= 1
    ensures MatchesFixed(pattern, text) <==> pattern == [""] || RustGlob.Anchored(pattern, text)
  {
    if |pattern| > 1 && Strings.StartsWith(text, pattern[0]) {
      var rest := text[|pattern[0]|..];
      if RustGlob.FloatingGreedy(pattern[1..], rest) {
        RustGlob.GreedySound(pattern[1..], rest);
      }
      if RustGlob.Floating(pattern[1..], rest) {
        RustGlob.GreedyComplete(pattern[1..], rest);
      }
    }
  }

  /** The code never accepts more than the corrected matcher. */
  lemma AsWrittenStricter(pattern: seq<string>, text: string)
    requires |pattern| >= 1 && MatchesAsWritten(pattern, text)
    ensures MatchesFixed(pattern, text)
  {
    if pattern != [""] {
      AsWrittenSound(pattern, text);
      MatchesFixedCorrect(pattern, text);
    }
  }

  /** The glob `a*b` refuses `abb`: the code cuts at the leftmost `b` and
      then finds a `b` left over, although `abb` ends with `b`. */
  lemma LastLiteralMatchedLeftmost()
    ensures !MatchesAsWritten(["a", "b"], "abb")
    ensures RustGlob.Anchored(["a", "b"], "abb")
    ensures MatchesFixed(["a", "b"], "abb")
  {
    var p := ["a", "b"];
    var t := "abb";
    assert t[1..] == "bb";
    Strings.FindIs("bb", "b", 0);
    assert "bb"[1..] == "b";
    assert p[1..] == ["b"];
    assert RustGlob.CutAll(["b"], "bb") == RustGlob.CutAll([], "b");
    assert Strings.EndsWith("bb", "b");
  }
}
