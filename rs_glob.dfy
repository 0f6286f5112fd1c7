// The Rust server's `*` globs (src/glob.rs), used to match domain names and
// index-file names. A glob is the list of literal texts between its `*`s.
module RustGlob {
  import opened Wrappers
  import Strings

  datatype Glob = Glob(matchers: seq<string>)

  /** `Glob::new`: the literals between the `*`s, found one `*` at a time. */
  method New(glob: string) returns (g: Glob)
    ensures g.matchers == Strings.Split(glob, '*')
    ensures Strings.Join(g.matchers, "*") == glob
    ensures forall i :: 0 <= i < |g.matchers| ==> '*' !in g.matchers[i]
  {
    var matchers: seq<string> := [];
    var rest := glob;
    while Strings.IndexOf(rest, '*').Some?
      invariant matchers + Strings.Split(rest, '*') == Strings.Split(glob, '*')
      decreases |rest|
    {
      var pos := Strings.IndexOf(rest, '*').value;
      Strings.SplitAtFirst(rest, '*', pos);
      matchers := matchers + [rest[..pos]];
      rest := rest[pos + 1..];
    }
    Strings.SplitNoSep(rest, '*');
    matchers := matchers + [rest];
    g := Glob(matchers);
    Strings.JoinSplit(glob, '*');
  }

  /** One `*` per neighbouring pair of literals. */
  lemma StarCount(glob: string)
    ensures |Strings.Split(glob, '*')| == Count(glob, '*') + 1
  {
    SplitCount(glob, '*');
  }

  function Count(s: string, c: char): nat {
    if s == [] then 0 else (if s[0] == c then 1 else 0) + Count(s[1..], c)
  }

  lemma {:induction false} SplitCount(s: string, c: char)
    ensures |Strings.Split(s, c)| == Count(s, c) + 1
    decreases |s|
  {
    if s != [] {
      SplitCount(s[1..], c);
    }
  }

  // ----------------------------------------------------------- meaning

  /** What a glob means: the text is the first literal, then for every later
      literal some text followed by that literal, the last literal ending
      the text. */
  ghost predicate Anchored(ms: seq<string>, t: string)
    requires |ms| >= 1
  {
    if |ms| == 1 then t == ms[0]
    else Strings.StartsWith(t, ms[0]) && Floating(ms[1..], t[|ms[0]|..])
  }

  /** The literals `ms`, each after a `*`, account for the text `t`. */
  ghost predicate Floating(ms: seq<string>, t: string)
    requires |ms| >= 1
    decreases |ms|
  {
    if |ms| == 1 then Strings.EndsWith(t, ms[0])
    else exists i: nat :: Strings.OccursAt(t, ms[0], i) && Floating(ms[1..], t[i + |ms[0]|..])
  }

  /** Text in front of a floating match does not spoil it. */
  lemma {:induction false} FloatingSuffix(ms: seq<string>, t: string, k: nat)
    requires |ms| >= 1 && k <= |t|
    requires Floating(ms, t[k..])
    ensures Floating(ms, t)
    decreases |ms|
  {
    if |ms| == 1 {
      assert t[k..][|t[k..]| - |ms[0]|..] == t[|t| - |ms[0]|..];
    } else {
      var u := t[k..];
      var i: nat :| Strings.OccursAt(u, ms[0], i) && Floating(ms[1..], u[i + |ms[0]|..]);
      assert u[i..i + |ms[0]|] == t[i + k..i + k + |ms[0]|];
      assert Strings.OccursAt(t, ms[0], i + k);
      assert u[i + |ms[0]|..] == t[i + k + |ms[0]|..];
    }
  }

  // ------------------------------------------------------- as written

  /** The loop of `matches`: each literal, the first one included, cut off
      after its leftmost occurrence in what is left of the text. */
  function CutAll(ms: seq<string>, t: string): Option<string>
    decreases |ms|
  {
    if ms == [] then Some(t)
    else
      match Strings.Find(t, ms[0])
      case None => None
      case Some(p) => CutAll(ms[1..], t[p + |ms[0]|..])
  }

  /** `Glob::matches` as written: the text must start with the first literal,
      every literal must be found in turn, and then a glob ending in `*`
      accepts while any other needs the text used up. */
  predicate MatchesAsWritten(ms: seq<string>, t: string)
    requires |ms| >= 1
  {
    Strings.StartsWith(t, ms[0])
    && CutAll(ms, t).Some?
    && ((ms[|ms| - 1] == [] && |ms| > 1) || CutAll(ms, t).value == [])
  }

  /** `Glob::matches`. */
  method Matches(g: Glob, text: string) returns (b: bool)
    requires |g.matchers| >= 1
    ensures b == MatchesAsWritten(g.matchers, text)
  {
    var t := text;
    if !(|g.matchers[0]| <= |t| && t[..|g.matchers[0]|] == g.matchers[0]) {
      return false;
    }
    var i := 0;
    while i < |g.matchers|
      invariant 0 <= i <= |g.matchers|
      invariant CutAll(g.matchers[i..], t) == CutAll(g.matchers, text)
    {
      var matcher := g.matchers[i];
      assert g.matchers[i..][1..] == g.matchers[i + 1..];
      var pos := Strings.Find(t, matcher);
      if pos.None? {
        return false;
      }
      t := t[|matcher| + pos.value..];
      i := i + 1;
    }
    assert g.matchers[i..] == [];
    if g.matchers[|g.matchers| - 1] == [] && |g.matchers| > 1 {
      return true;
    }
    return t == [];
  }

  lemma {:induction false} CutAllFloating(ms: seq<string>, t: string)
    requires |ms| >= 1 && CutAll(ms, t).Some?
    requires ms[|ms| - 1] == [] || CutAll(ms, t).value == []
    ensures Floating(ms, t)
    decreases |ms|
  {
    var p := Strings.Find(t, ms[0]).value;
    var rest := t[p + |ms[0]|..];
    if |ms| == 1 {
      if ms[0] != [] {
        assert |rest| == 0;
        assert t[|t| - |ms[0]|..] == t[p..p + |ms[0]|];
      }
    } else {
      assert ms[1..][|ms[1..]| - 1] == ms[|ms| - 1];
      CutAllFloating(ms[1..], rest);
      assert Strings.OccursAt(t, ms[0], p);
    }
  }

  /** Whatever the code accepts is a match of the glob. */
  lemma AsWrittenSound(ms: seq<string>, t: string)
    requires |ms| >= 1 && MatchesAsWritten(ms, t)
    ensures Anchored(ms, t)
  {
    Strings.FindIs(t, ms[0], 0);
    var rest := t[|ms[0]|..];
    if |ms| == 1 {
      assert CutAll(ms, t) == Some(rest);
      assert t == t[..|ms[0]|] + rest;
    } else {
      assert CutAll(ms, t) == CutAll(ms[1..], rest);
      assert ms[1..][|ms[1..]| - 1] == ms[|ms| - 1];
      CutAllFloating(ms[1..], rest);
    }
  }

  /** A single literal matches exactly itself. */
  lemma LiteralMatchesItself(m: string, t: string)
    ensures MatchesAsWritten([m], t) <==> t == m
  {
    if t == m {
      Strings.FindIs(t, m, 0);
      assert t[|m|..] == [];
      assert CutAll([m], t) == CutAll([], []);
    }
    if MatchesAsWritten([m], t) {
      AsWrittenSound([m], t);
    }
  }

  /** A glob without `*` matches exactly its own text. */
  lemma NoStarMatchesItself(glob: string, t: string)
    requires '*' !in glob
    ensures MatchesAsWritten(Strings.Split(glob, '*'), t) <==> t == glob
  {
    Strings.SplitNoSep(glob, '*');
    LiteralMatchesItself(glob, t);
  }

  /** Text not starting with the first literal is refused. */
  lemma PrefixRequired(ms: seq<string>, t: string)
    requires |ms| >= 1 && !Strings.StartsWith(t, ms[0])
    ensures !MatchesAsWritten(ms, t)
  {
  }

  lemma {:induction false} CutAllExtend(ms: seq<string>, t: string, u: string)
    requires CutAll(ms, t).Some?
    ensures CutAll(ms, t + u) == Some(CutAll(ms, t).value + u)
    decreases |ms|
  {
    if ms != [] {
      var p := Strings.Find(t, ms[0]).value;
      Strings.FindExtend(t, ms[0], u);
      assert (t + u)[p + |ms[0]|..] == t[p + |ms[0]|..] + u;
      CutAllExtend(ms[1..], t[p + |ms[0]|..], u);
    }
  }

  /** A glob ending in `*` accepts any text after a match. */
  lemma TrailingStarAcceptsMore(ms: seq<string>, t: string, u: string)
    requires |ms| > 1 && ms[|ms| - 1] == []
    requires MatchesAsWritten(ms, t)
    ensures MatchesAsWritten(ms, t + u)
  {
    CutAllExtend(ms, t, u);
    assert (t + u)[..|ms[0]|] == t[..|ms[0]|];
  }

  /** `*` matches every text, the empty one included. */
  lemma StarMatchesAll(t: string)
    ensures MatchesAsWritten(["", ""], t)
  {
    Strings.FindIs(t, "", 0);
    assert t[0..] == t;
    assert CutAll(["", ""], t) == CutAll([""], t);
    assert CutAll([""], t) == CutAll([], t);
  }

  /** The test globs `*Hello` and `Hello*`: the code finds the leftmost
      `Hello` and then wants nothing left, so `HelloHello` is refused by
      `*Hello` although it ends with `Hello`. */
  lemma LastLiteralMatchedLeftmost()
    ensures !MatchesAsWritten(["", "Hello"], "HelloHello")
    ensures Anchored(["", "Hello"], "HelloHello")
    ensures MatchesFixed(["", "Hello"], "HelloHello")
  {
    var t := "HelloHello";
    Strings.FindIs(t, "", 0);
    assert t[0..] == t;
    Strings.FindIs(t, "Hello", 0);
    assert t[5..] == "Hello";
    assert CutAll(["", "Hello"], t) == CutAll(["Hello"], t);
    assert CutAll(["Hello"], t) == CutAll([], "Hello");
    assert Strings.EndsWith(t, "Hello");
    assert ["", "Hello"][1..] == ["Hello"];
  }

  // -------------------------------------------------------- corrected

  /** The corrected search for the literals after a `*`: every one but the
      last at its leftmost occurrence, the last one at the end of the text. */
  predicate FloatingGreedy(ms: seq<string>, t: string)
    requires |ms| >= 1
    decreases |ms|
  {
    if |ms| == 1 then Strings.EndsWith(t, ms[0])
    else
      match Strings.Find(t, ms[0])
      case None => false
      case Some(p) => FloatingGreedy(ms[1..], t[p + |ms[0]|..])
  }

  /** `matches` as intended: the last literal must end the text. */
  predicate MatchesFixed(ms: seq<string>, t: string)
    requires |ms| >= 1
  {
    if |ms| == 1 then t == ms[0]
    else Strings.StartsWith(t, ms[0]) && FloatingGreedy(ms[1..], t[|ms[0]|..])
  }

  /** What the leftmost search accepts is a match. */
  lemma {:induction false} GreedySound(ms: seq<string>, t: string)
    requires |ms| >= 1 && FloatingGreedy(ms, t)
    ensures Floating(ms, t)
    decreases |ms|
  {
    if |ms| > 1 {
      var p := Strings.Find(t, ms[0]).value;
      GreedySound(ms[1..], t[p + |ms[0]|..]);
      assert Strings.OccursAt(t, ms[0], p);
    }
  }

  /** A match of the rest after some occurrence of the first literal is
      also one after its leftmost occurrence. */
  lemma Leftmost(ms: seq<string>, t: string, i: nat) returns (p: nat)
    requires |ms| > 1 && Strings.OccursAt(t, ms[0], i) && Floating(ms[1..], t[i + |ms[0]|..])
    ensures Strings.Find(t, ms[0]) == Some(p)
    ensures Floating(ms[1..], t[p + |ms[0]|..])
  {
    var m := ms[0];
    var f := Strings.Find(t, m);
    assert f.Some? && f.value <= i;
    p := f.value;
    var u := t[p + |m|..];
    assert u[i - p..] == t[i + |m|..];
    FloatingSuffix(ms[1..], u, i - p);
  }

  /** One step of the leftmost search. */
  lemma GreedyStep(ms: seq<string>, t: string, p: nat)
    requires |ms| > 1 && Strings.Find(t, ms[0]) == Some(p)
    requires FloatingGreedy(ms[1..], t[p + |ms[0]|..])
    ensures FloatingGreedy(ms, t)
  {
  }

  /** Taking the leftmost occurrence loses no match. */
  lemma {:induction false} GreedyComplete(ms: seq<string>, t: string)
    requires |ms| >= 1 && Floating(ms, t)
    ensures FloatingGreedy(ms, t)
    decreases |ms|
  {
    if |ms| > 1 {
      var i: nat :| Strings.OccursAt(t, ms[0], i) && Floating(ms[1..], t[i + |ms[0]|..]);
      var p := Leftmost(ms, t, i);
      GreedyComplete(ms[1..], t[p + |ms[0]|..]);
      GreedyStep(ms, t, p);
    }
  }

  /** The corrected matcher accepts exactly the texts the glob describes. */
  lemma MatchesFixedCorrect(ms: seq<string>, t: string)
    requires |ms| >= 1
    ensures MatchesFixed(ms, t) <==> Anchored(ms, t)
  {
    if |ms| > 1 && Strings.StartsWith(t, ms[0]) {
      var u := t[|ms[0]|..];
      if FloatingGreedy(ms[1..], u) {
        GreedySound(ms[1..], u);
      }
      if Floating(ms[1..], u) {
        GreedyComplete(ms[1..], u);
      }
    }
  }
}
