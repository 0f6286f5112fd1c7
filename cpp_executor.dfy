// The C++ server's process launcher (sources/executor.cpp). An `Executor`
// builds, once, the two NUL-separated character buffers and the tables of
// pointers into them that are handed to the child process as its environment
// and argument vector; a global table maps file extensions to interpreter
// programs. The pointer tables are modelled as arrays of `Ptr`, an offset into
// the buffer, a null pointer or the indeterminate value a fresh `char *[]`
// holds.
module CppExecutor {
  import opened Wrappers
  import opened CStrings
  import Strings
  import CppPath
  import CppHandler

  const CR: char := '\r'
  const SIGSTOP: int := 19

  /** The first position of `c` in `t`, if any (the search is
      characterized by `PositionIs`). */
  function Position(t: string, c: char): (r: Option<nat>)
    ensures r.Some? ==> r.value < |t| && t[r.value] == c
  {
    PositionFrom(t, c, 0)
  }

  function PositionFrom(t: string, c: char, i: nat): (r: Option<nat>)
    ensures r.Some? ==> i <= r.value < |t| && t[r.value] == c
    decreases |t| - i
  {
    if i >= |t| then None else if t[i] == c then Some(i) else PositionFrom(t, c, i + 1)
  }

  /** `Position` finds the first `c`, and finds none only when there is none. */
  lemma PositionIs(t: string, c: char)
    ensures Position(t, c).Some? ==> forall j :: 0 <= j < Position(t, c).value ==> t[j] != c
    ensures Position(t, c).None? ==> forall j :: 0 <= j < |t| ==> t[j] != c
  {
    PositionFromIs(t, c, 0);
  }

  lemma {:induction false} PositionFromIs(t: string, c: char, i: nat)
    requires forall j :: 0 <= j < i && j < |t| ==> t[j] != c
    ensures PositionFrom(t, c, i).Some? ==> forall j :: 0 <= j < PositionFrom(t, c, i).value ==> t[j] != c
    ensures PositionFrom(t, c, i).None? ==> forall j :: 0 <= j < |t| ==> t[j] != c
    decreases |t| - i
  {
    if i < |t| && t[i] != c {
      PositionFromIs(t, c, i + 1);
    }
  }

  /** `strfind(text, find)`: the position of the first `find` before the
      terminator, or `npos` (`None`). */
  method StrFind(text: seq<char>, find: char) returns (r: Option<nat>)
    requires NUL in text
    ensures r == Position(CText(text), find)
  {
    ghost var t := CText(text);
    var i := 0;
    while text[i] != NUL
      invariant i <= |t| && forall j :: 0 <= j < i ==> t[j] != find
      decreases |t| - i
    {
      if text[i] == find {
        PositionIs(t, find);
        return Some(i);
      }
      i := i + 1;
    }
    PositionIs(t, find);
    return None;
  }

  // ---------------------------------------------------------------------
  // The texts and how the splitting loop cuts them

  /** `order` is an iteration order of the map: every key exactly once. */
  predicate IterationOrder(vars: map<string, string>, order: seq<string>) {
    && |order| == |vars|
    && (forall k :: k in order ==> k in vars)
    && (forall k :: k in vars ==> k in order)
    && (forall i, j :: 0 <= i < j < |order| ==> order[i] != order[j])
  }

  /** One `key=value` per variable, in the map's iteration order. */
  function Assignments(vars: map<string, string>, order: seq<string>): (r: seq<string>)
    requires IterationOrder(vars, order)
    ensures |r| == |order|
    ensures forall i :: 0 <= i < |order| ==> r[i] == order[i] + "=" + vars[order[i]]
  {
    seq(|order|, i requires 0 <= i < |order| => order[i] + "=" + vars[order[i]])
  }

  /** What the `ostringstream` collects: every piece followed by a CR. */
  function Terminated(pieces: seq<string>): (r: string)
    ensures |r| >= |pieces|
  {
    if pieces == [] then [] else pieces[0] + [CR] + Terminated(pieces[1..])
  }

  /** The environment text of lines 52-56. */
  function EnvText(vars: map<string, string>, order: seq<string>): string
    requires IterationOrder(vars, order)
  {
    Terminated(Assignments(vars, order))
  }

  /** What `strcpy` copies from `text.c_str()`: the characters before the
      first NUL, all of `text` when it holds none. */
  function CopyText(text: string): (t: string)
    ensures |t| <= |text| && t == text[..|t|] && NUL !in t
    ensures NUL !in text ==> t == text
  {
    assert (text + [NUL])[|text|] == NUL;
    assert (text + [NUL])[..|text|] == text;
    if NUL !in text then
      CTextIs(text + [NUL], text);
      text
    else
      CText(text + [NUL])
  }

  /** The positions of the CRs that the loop of lines 64-72 overwrites when
      its search starts at `from` with `m` passes left: each pass takes the
      first CR from where the previous field ended, and a pass that finds
      none ends the loop. */
  function Ends(t: string, m: nat, from: nat): (r: seq<nat>)
    ensures |r| <= m
    decreases m
  {
    if m == 0 then []
    else match PositionFrom(t, CR, from)
      case None => []
      case Some(e) => [e] + Ends(t, m - 1, e + 1)
  }

  /** The positions `Ends` finds are CRs, in increasing order, from `from`
      on. */
  lemma {:induction false} EndsOrdered(t: string, m: nat, from: nat)
    ensures Ordered(t, Ends(t, m, from))
    ensures forall j :: 0 <= j < |Ends(t, m, from)| ==> from <= Ends(t, m, from)[j] && t[Ends(t, m, from)[j]] == CR
    decreases m
  {
    if m > 0 && PositionFrom(t, CR, from).Some? {
      var e := PositionFrom(t, CR, from).value;
      EndsOrdered(t, m - 1, e + 1);
    }
  }

  /** Positions inside `t`, strictly increasing. */
  predicate Ordered(t: string, ends: seq<nat>) {
    (forall j :: 0 <= j < |ends| ==> ends[j] < |t|)
    && (forall j, j' :: 0 <= j < j' < |ends| ==> ends[j] < ends[j'])
  }

  /** A field the splitting loop finds: where it starts and its text. */
  datatype Field = Field(start: nat, text: string)

  /** Where field `j` starts: at the beginning, or just after the CR that
      ends the field before it. */
  function Start(ends: seq<nat>, j: nat): nat
    requires j <= |ends|
  {
    if j == 0 then 0 else ends[j - 1] + 1
  }

  /** The fields that the CRs at `ends` close. */
  function Fields(t: string, ends: seq<nat>): (r: seq<Field>)
    requires Ordered(t, ends)
    ensures |r| == |ends|
    ensures forall j {:trigger r[j]} :: 0 <= j < |ends| ==>
      Start(ends, j) <= ends[j] && r[j] == Field(Start(ends, j), t[Start(ends, j)..ends[j]])
  {
    assert forall j :: 0 < j < |ends| ==> ends[j - 1] < ends[j];
    seq(|ends|, j requires 0 <= j < |ends| => Field(Start(ends, j), t[Start(ends, j)..ends[j]]))
  }

  /** The fields the loop finds in `t` in at most `n` passes. A last
      stretch with no CR is not a field: its pointer is stored and then
      overwritten by the terminator. */
  function Cuts(t: string, n: nat): (r: seq<Field>)
    ensures |r| <= n
  {
    EndsOrdered(t, n, 0);
    Fields(t, Ends(t, n, 0))
  }

  /** `t` with the characters at `ends` replaced by NUL. */
  function Mark(t: string, ends: seq<nat>): (r: string)
    ensures |r| == |t| && forall i {:trigger r[i]} :: 0 <= i < |t| ==> r[i] == if i in ends then NUL else t[i]
  {
    seq(|t|, i requires 0 <= i < |t| => if i in ends then NUL else t[i])
  }

  /** `t` as the loop leaves it: the CR that ends each field is a NUL. */
  function Marked(t: string, n: nat): (r: string)
    ensures |r| == |t|
  {
    Mark(t, Ends(t, n, 0))
  }

  /** A slot of a `char *` table. */
  datatype Ptr = Null | At(offset: nat) | Garbage

  function Pointers(cuts: seq<Field>): (r: seq<Ptr>)
    ensures |r| == |cuts| && forall j :: 0 <= j < |cuts| ==> r[j] == At(cuts[j].start)
  {
    seq(|cuts|, j requires 0 <= j < |cuts| => At(cuts[j].start))
  }

  function Garbages(n: nat): (r: seq<Ptr>)
    ensures |r| == n && forall j :: 0 <= j < n ==> r[j] == Garbage
  {
    seq(n, _ => Garbage)
  }

  /** The table a correct construction leaves: a pointer per field, a null
      pointer, and the slots the loop did not reach. */
  function TableOf(text: string, n: nat): (r: seq<Ptr>)
    ensures |r| == n + 1
  {
    var cuts := Cuts(CopyText(text), n);
    Pointers(cuts) + [Null] + Garbages(n - |cuts|)
  }

  /** The table as the child reads it: the slots before the first null
      pointer. */
  function Visible(table: seq<Ptr>): (r: seq<Ptr>)
    ensures |r| <= |table| && r == table[..|r|] && Null !in r
  {
    if table == [] || table[0] == Null then [] else [table[0]] + Visible(table[1..])
  }

  /** `buf` holds the copied text split into fields, then its terminator. */
  ghost predicate Written(buf: array<char>, text: string, n: nat)
    reads buf
  {
    var t := CopyText(text);
    buf.Length == |text| + 1 && buf[..|t|] == Marked(t, n) && buf[|t|] == NUL
  }

  /** The interpreter lookup of lines 78-87: the text after the last `.` of
      the first argument, when it names a program, puts that program in
      front. */
  function Argv(argv: seq<string>, programs: map<string, string>): (r: seq<string>)
    requires argv != []
    ensures r == argv || (|r| == |argv| + 1 && r[1..] == argv && r[0] in programs.Values)
  {
    match Strings.LastIndexOf(argv[0], '.')
    case None => argv
    case Some(p) =>
      var ext := argv[0][p + 1..];
      if ext in programs then [programs[ext]] + argv else argv
  }

  // ---------------------------------------------------------------------
  // The construction loops

  /** A search from `off` finds what `strfind` finds in the C string that
      starts at `off`, shifted by `off`. */
  lemma {:induction false} PositionFromDrop(t: string, c: char, off: nat, i: nat)
    requires off <= |t|
    ensures PositionFrom(t[off..], c, i).None? <==> PositionFrom(t, c, off + i).None?
    ensures PositionFrom(t[off..], c, i).Some? ==> PositionFrom(t, c, off + i) == Some(off + PositionFrom(t[off..], c, i).value)
    decreases |t| - off - i
  {
    if off + i < |t| && t[off + i] != c {
      assert t[off..][i] == t[off + i];
      PositionFromDrop(t, c, off, i + 1);
    } else if off + i < |t| {
      assert t[off..][i] == t[off + i];
    }
  }

  /** One pass over the buffer as the earlier passes left it. */
  method Search(buf: array<char>, off: nat, ghost s: seq<char>, ghost t: string, ghost ends: seq<nat>)
    returns (e: Option<nat>)
    requires off <= |t| < |s| && s[..|t|] == t && s[|t|] == NUL && NUL !in t
    requires buf[..] == Mark(s, ends) && forall j :: 0 <= j < |ends| ==> ends[j] < off
    modifies buf
    ensures e == PositionFrom(t, CR, off)
    ensures e.None? ==> buf[..] == Mark(s, ends)
    ensures e.Some? ==> e.value < |t| && buf[..] == Mark(s, ends + [e.value])
  {
    Untouched(s, t, ends, off);
    e := CutAt(buf, off, t);
    if e.Some? {
      MarkSnoc(s, ends, e.value);
    }
  }

  /** One pass's search: `strfind(buf + off, '\r')`, and the CR found
      overwritten with NUL. Returns the position of that CR. */
  method CutAt(buf: array<char>, off: nat, ghost t: string) returns (e: Option<nat>)
    requires off <= |t| < buf.Length && NUL !in t && buf[off..|t|] == t[off..] && buf[|t|] == NUL
    modifies buf
    ensures e == PositionFrom(t, CR, off)
    ensures e.None? ==> buf[..] == old(buf[..])
    ensures e.Some? ==> e.value < |t| && buf[..] == old(buf[..])[e.value := NUL]
  {
    ghost var u := t[off..];
    assert buf[off..][..|u|] == u && buf[off..][|u|] == NUL;
    CTextIs(buf[off..], u);
    var p := StrFind(buf[off..], CR);
    PositionFromDrop(t, CR, off, 0);
    if p.Some? {
      e := Some(off + p.value);
      buf[off + p.value] := NUL;
    } else {
      e := None;
    }
  }

  /** Lines 61-72 (and 98-108) over a buffer holding `t` and its
      terminator: each pass stores a pointer to the rest, looks for the next
      CR and overwrites it with NUL; a pass that finds none stops the loop.
      Returns the number of fields; slot `k` keeps the pointer of a pass
      that found no CR, or its old value when all `n` passes found one. */
  method SplitFields(buf: array<char>, table: array<Ptr>, n: nat, ghost t: string) returns (k: nat)
    requires NUL !in t && |t| < buf.Length && buf[..|t|] == t && buf[|t|] == NUL
    requires n < table.Length
    modifies buf, table
    ensures k == |Cuts(t, n)| && buf[..|t|] == Marked(t, n) && buf[|t|..] == old(buf[|t|..])
    ensures table[..k] == Pointers(Cuts(t, n))
    ensures table[k] == old(table[k]) || table[k].At?
    ensures table[k + 1..] == old(table[k + 1..])
  {
    ghost var s := buf[..];
    ghost var ends;
    k, ends := Passes(buf, table, n, t, s);
    Finish(buf[..], s, t, n, ends);
  }

  /** The loop itself, with the positions of the CRs it overwrote. */
  method Passes(buf: array<char>, table: array<Ptr>, n: nat, ghost t: string, ghost s: seq<char>)
    returns (k: nat, ghost ends: seq<nat>)
    requires NUL !in t && |t| < |s| && s[..|t|] == t && s[|t|] == NUL && buf[..] == s
    requires n < table.Length
    modifies buf, table
    ensures ends == Ends(t, n, 0) && k == |ends| && Ordered(t, ends) && buf[..] == Mark(s, ends)
    ensures table[..k] == Pointers(Fields(t, ends))
    ensures table[k] == old(table[k]) || table[k].At?
    ensures table[k + 1..] == old(table[k + 1..])
  {
    ends := [];
    var off: nat := 0;
    ghost var rem := n;
    ghost var ptrs: seq<Ptr> := [];
    ghost var tab0 := table[..];
    k := 0;
    while k < n
      invariant Looping(t, s, n, k, ends, rem, off, ptrs, buf[..], table[..], tab0)
      decreases n - k
    {
      var stop;
      k, off, stop, ends, rem, ptrs := Turn(buf, table, k, off, s, t, n, ends, rem, ptrs, tab0);
      if stop {
        Done(t, s, n, k, ends, buf[..], table[..], tab0);
        return;
      }
    }
    Last(t, s, n, k, ends, rem, off, ptrs, buf[..], table[..], tab0);
    Done(t, s, n, k, ends, buf[..], table[..], tab0);
  }

  /** The state `Passes` keeps from one pass to the next: `tab` is the
      table now and `tab0` as it was before the loop. */
  ghost predicate Looping(t: string, s: seq<char>, n: nat, k: nat, ends: seq<nat>, rem: nat, off: nat,
                          ptrs: seq<Ptr>, b: seq<char>, tab: seq<Ptr>, tab0: seq<Ptr>)
  {
    && k <= n && rem == n - k && |ends| == k && Scanned(t, n, ends, rem, off)
    && b == Mark(s, ends) && ptrs == Pointers(Fields(t, ends))
    && n < |tab| == |tab0| && tab[..k] == ptrs && tab[k..] == tab0[k..]
  }

  /** The state `Passes` ends in. */
  ghost predicate Finished(t: string, s: seq<char>, n: nat, k: nat, ends: seq<nat>, b: seq<char>, tab: seq<Ptr>, tab0: seq<Ptr>)
  {
    && ends == Ends(t, n, 0) && k == |ends| && Ordered(t, ends) && b == Mark(s, ends)
    && k < |tab| == |tab0| && tab[..k] == Pointers(Fields(t, ends))
    && (tab[k] == tab0[k] || tab[k].At?) && tab[k + 1..] == tab0[k + 1..]
  }

  /** Once every pass found a CR, the loop has finished. */
  lemma Last(t: string, s: seq<char>, n: nat, k: nat, ends: seq<nat>, rem: nat, off: nat,
             ptrs: seq<Ptr>, b: seq<char>, tab: seq<Ptr>, tab0: seq<Ptr>)
    requires Looping(t, s, n, k, ends, rem, off, ptrs, b, tab, tab0) && k >= n
    ensures Finished(t, s, n, k, ends, b, tab, tab0)
  {
    assert tab[k] == tab[k..][0] && tab0[k] == tab0[k..][0];
    assert tab[k + 1..] == tab[k..][1..] && tab0[k + 1..] == tab0[k..][1..];
    Stopped(t, n, ends, rem, off);
  }

  /** The final state, spelled out. */
  lemma Done(t: string, s: seq<char>, n: nat, k: nat, ends: seq<nat>, b: seq<char>, tab: seq<Ptr>, tab0: seq<Ptr>)
    requires Finished(t, s, n, k, ends, b, tab, tab0)
    ensures ends == Ends(t, n, 0) && k == |ends| && Ordered(t, ends) && b == Mark(s, ends)
    ensures k < |tab| == |tab0| && tab[..k] == Pointers(Fields(t, ends))
    ensures (tab[k] == tab0[k] || tab[k].At?) && tab[k + 1..] == tab0[k + 1..]
  {
  }

  /** One turn of the loop of `Passes`: the pass, then either the stop or
      the state for the next pass. */
  method Turn(buf: array<char>, table: array<Ptr>, k: nat, off: nat, ghost s: seq<char>, ghost t: string, ghost n: nat,
              ghost ends: seq<nat>, ghost rem: nat, ghost ptrs: seq<Ptr>, ghost tab0: seq<Ptr>)
    returns (k': nat, off': nat, stop: bool, ghost ends': seq<nat>, ghost rem': nat, ghost ptrs': seq<Ptr>)
    requires k < n && NUL !in t && |t| < |s| && s[..|t|] == t && s[|t|] == NUL
    requires Looping(t, s, n, k, ends, rem, off, ptrs, buf[..], table[..], tab0)
    modifies buf, table
    ensures stop ==> Finished(t, s, n, k', ends', buf[..], table[..], tab0)
    ensures !stop ==> k' == k + 1 && Looping(t, s, n, k', ends', rem', off', ptrs', buf[..], table[..], tab0)
  {
    ghost var tab := table[..];
    assert tab[k + 1..] == tab[k..][1..] && tab0[k + 1..] == tab0[k..][1..];
    var e := PassStep(buf, table, k, off, s, t, n, ends, rem);
    if e.None? {
      Stopped(t, n, ends, rem, off);
      return k, off, true, ends, rem, ptrs;
    }
    var x := e.value;
    Pass(t, n, ends, rem, rem - 1, off, x, x + 1, ends + [x]);
    assert table[..k + 1] == table[..k] + [table[k]];
    return k + 1, x + 1, false, ends + [x], rem - 1, ptrs + [At(off)];
  }

  /** What the loop of `Passes` has established after the passes that
      found the CRs at `ends`, with `rem` passes left, the next from `off`. */
  ghost predicate Scanned(t: string, n: nat, ends: seq<nat>, rem: nat, off: nat) {
    && off <= |t| && Ordered(t, ends) && off == Start(ends, |ends|)
    && (forall j :: 0 <= j < |ends| ==> ends[j] < off)
    && ends + Ends(t, rem, off) == Ends(t, n, 0)
  }

  /** One pass of the loop: the pointer to the rest is stored, then the
      next CR is looked for and overwritten. */
  method PassStep(buf: array<char>, table: array<Ptr>, k: nat, off: nat,
                  ghost s: seq<char>, ghost t: string, ghost n: nat, ghost ends: seq<nat>, ghost rem: nat)
    returns (e: Option<nat>)
    requires k < table.Length && NUL !in t && |t| < |s| && s[..|t|] == t && s[|t|] == NUL
    requires Scanned(t, n, ends, rem, off) && buf[..] == Mark(s, ends)
    modifies buf, table
    ensures table[..k] == old(table[..k]) && table[k] == At(off) && table[k + 1..] == old(table[k + 1..])
    ensures e == PositionFrom(t, CR, off)
    ensures e.None? ==> buf[..] == Mark(s, ends)
    ensures e.Some? ==> e.value < |t| && buf[..] == Mark(s, ends + [e.value])
  {
    SetSlot(table, k, At(off));
    e := Search(buf, off, s, t, ends);
  }

  /** Stores `v` in slot `k` of `table`, leaving the other slots. */
  method SetSlot(table: array<Ptr>, k: nat, v: Ptr)
    requires k < table.Length
    modifies table
    ensures table[..k + 1] == old(table[..k]) + [v]
    ensures table[..k] == old(table[..k]) && table[k] == v
    ensures table[k + 1..] == old(table[k + 1..])
  {
    table[k] := v;
    assert table[..k + 1] == table[..k] + [table[k]];
  }

  /** A loop that stops, because no pass is left or no CR is, has found
      all the CRs it overwrites. */
  lemma Stopped(t: string, n: nat, ends: seq<nat>, rem: nat, off: nat)
    requires ends + Ends(t, rem, off) == Ends(t, n, 0)
    requires rem == 0 || PositionFrom(t, CR, off).None?
    ensures ends == Ends(t, n, 0)
  {
    assert Ends(t, rem, off) == [];
  }

  /** One pass that finds a CR at `x`: it is the next position of `Ends`,
      and it closes the field that starts at `off`. */
  lemma Pass(t: string, n: nat, ends: seq<nat>, rem: nat, left: nat, off: nat, x: nat, next: nat, grown: seq<nat>)
    requires rem > 0 && left == rem - 1 && next == x + 1 && grown == ends + [x]
    requires PositionFrom(t, CR, off) == Some(x) && Scanned(t, n, ends, rem, off)
    ensures Scanned(t, n, grown, left, next)
    ensures Fields(t, grown) == Fields(t, ends) + [Field(off, t[off..x])]
    ensures Pointers(Fields(t, grown)) == Pointers(Fields(t, ends)) + [At(off)]
  {
    Strings.Regroup(ends, [x], Ends(t, left, x + 1));
    assert forall j :: 0 <= j < |ends| ==> grown[j] == ends[j];
    assert Start(grown, |ends|) == off;
  }

  /** The part of the buffer from `off` on still holds the text and its
      terminator. */
  lemma Untouched(s: seq<char>, t: string, ends: seq<nat>, off: nat)
    requires off <= |t| < |s| && s[..|t|] == t && s[|t|] == NUL && forall j :: 0 <= j < |ends| ==> ends[j] < off
    ensures Mark(s, ends)[off..|t|] == t[off..] && Mark(s, ends)[|t|] == NUL
  {
    assert forall i :: off <= i <= |t| ==> i !in ends && Mark(s, ends)[i] == s[i];
    assert forall i :: off <= i < |t| ==> s[i] == t[i];
  }

  lemma MarkSnoc(s: seq<char>, ends: seq<nat>, x: nat)
    requires x < |s|
    ensures Mark(s, ends)[x := NUL] == Mark(s, ends + [x])
  {
    assert forall i :: 0 <= i < |s| ==> (i in ends + [x] <==> i in ends || i == x);
  }

  /** The loop's end: every CR the loop overwrites is overwritten. */
  lemma Finish(cur: seq<char>, s: seq<char>, t: string, n: nat, ends: seq<nat>)
    requires |t| < |s| == |cur| && s[..|t|] == t && ends == Ends(t, n, 0) && Ordered(t, ends)
    requires cur == Mark(s, ends)
    ensures cur[..|t|] == Marked(t, n) && cur[|t|..] == s[|t|..]
  {
    assert forall i :: 0 <= i < |t| ==> s[i] == t[i];
  }

  /** `new char[length + 1]` and `strcpy`: a fresh buffer with room for the
      terminator receives the text up to its first NUL. */
  method Copy(text: string) returns (buf: array<char>)
    ensures fresh(buf) && buf.Length == |text| + 1
    ensures var t := CopyText(text); buf[..|t|] == t && buf[|t|] == NUL
  {
    buf := new char[|text| + 1](_ => NUL);
    assert (text + [NUL])[..|text|] == text && (text + [NUL])[|text|] == NUL;
    CppHandler.StringCopy(buf, 0, text + [NUL]);
    assert CText(text + [NUL]) == CopyText(text) by {
      if NUL !in text {
        CTextIs(text + [NUL], text);
      }
    }
  }

  /** Lines 52-72 with a buffer that has room for the terminator: the text
      is copied into a fresh buffer and a fresh table of `n + 1` slots
      receives a pointer to each field. Returns the number of fields; the
      slot after the last field is not yet a null pointer. */
  method Fill(text: string, n: nat) returns (buf: array<char>, table: array<Ptr>, k: nat)
    ensures fresh(buf) && fresh(table)
    ensures Written(buf, text, n) && table.Length == n + 1
    ensures k == |Cuts(CopyText(text), n)|
    ensures table[..k] == Pointers(Cuts(CopyText(text), n))
    ensures table[k] != Null && table[k + 1..] == Garbages(n - k)
  {
    ghost var t := CopyText(text);
    buf := Copy(text);
    table := new Ptr[n + 1](_ => Garbage);
    ghost var g := table[..];
    assert g == Garbages(n + 1);
    k := SplitFields(buf, table, n, t);
    assert table[k + 1..] == g[k + 1..];
  }

  /** Lines 52-73: the filled table with its terminator in place. */
  method Build(text: string, n: nat) returns (buf: array<char>, table: array<Ptr>)
    ensures fresh(buf) && fresh(table)
    ensures Written(buf, text, n) && table[..] == TableOf(text, n)
  {
    var k;
    buf, table, k := Fill(text, n);
    table[k] := Null;
    assert table[..] == table[..k] + [table[k]] + table[k + 1..];
  }

  /** The two buffers and tables of the construction as written: the
      argument table's terminator lands in the environment table. */
  method BuildCrossed(envText: string, m: nat, argText: string, n: nat)
    returns (eb: array<char>, et: array<Ptr>, ab: array<char>, at: array<Ptr>)
    requires |Cuts(CopyText(argText), n)| <= m
    ensures Written(eb, envText, m) && Written(ab, argText, n)
    ensures var cuts := Cuts(CopyText(argText), n);
      et[..] == TableOf(envText, m)[|cuts| := Null]
      && at.Length == n + 1 && at[..|cuts|] == Pointers(cuts)
      && at[|cuts|] != Null && at[|cuts| + 1..] == Garbages(n - |cuts|)
  {
    eb, et := Build(envText, m);
    var k;
    ab, at, k := Fill(argText, n);
    et[k] := Null;
  }

  // ---------------------------------------------------------------------
  // The executor

  /** What the `data` field of the process handle holds. */
  datatype HandleData =
    | NoData     // null: a never-used slot of the allocator's inline array
                 // (a global, so zeroed), or a handle whose executor is gone
    | Leftover   // whatever a heap slot of the allocator held: indeterminate
    | Owner      // a pointer to the executor holding the handle

  class Executor {
    const path: string
    /** The directory the child runs in. */
    const cwd: string
    /** `env_buf`, `args_buf`. */
    const envBuf: array<char>
    const argsBuf: array<char>
    /** `env`, `args`. */
    const env: array<Ptr>
    const args: array<Ptr>
    /** Whether a process handle has been taken from the allocator. */
    var process: bool
    var alive: bool
    /** The signals delivered to the child, oldest first. */
    var signals: seq<int>
    /** The `data` field of the handle taken. */
    var data: HandleData

    /** A live child always has a handle. */
    predicate Valid()
      reads this
    {
      alive ==> process
    }

    /** `Executor(path, env, args)` with buffers that have room for their
        terminators and the argument table terminated in place. `order` is
        the iteration order of the `env` map; `programs` is the global
        extension table. */
    constructor (path: string, vars: map<string, string>, order: seq<string>,
                 argv: seq<string>, programs: map<string, string>)
      requires CppPath.HasName(path) && argv != []
      requires IterationOrder(vars, order)
      ensures Valid() && this.path == path && cwd == CppPath.Dirname(path)
      ensures Written(envBuf, EnvText(vars, order), |order|)
      ensures env[..] == TableOf(EnvText(vars, order), |order|)
      ensures Written(argsBuf, Terminated(Argv(argv, programs)), |Argv(argv, programs)|)
      ensures args[..] == TableOf(Terminated(Argv(argv, programs)), |Argv(argv, programs)|)
      ensures !process && !alive && signals == [] && data == NoData
    {
      this.path := path;
      cwd := CppPath.Dirname(path);
      var eb, et := Build(EnvText(vars, order), |order|);
      var a := Argv(argv, programs);
      var ab, at := Build(Terminated(a), |a|);
      envBuf, env, argsBuf, args := eb, et, ab, at;
      process, alive, signals, data := false, false, [], NoData;
    }

    /** The construction as written at line 109: the terminator meant for
        the argument table is stored in the environment table, at the index
        where the argument loop stopped (which must lie inside the
        environment table), and the argument table keeps no null pointer. */
    constructor AsWritten(path: string, vars: map<string, string>, order: seq<string>,
                          argv: seq<string>, programs: map<string, string>)
      requires CppPath.HasName(path) && argv != []
      requires IterationOrder(vars, order)
      requires |Cuts(CopyText(Terminated(Argv(argv, programs))), |Argv(argv, programs)|)| <= |order|
      ensures Valid() && this.path == path && cwd == CppPath.Dirname(path)
      ensures Written(envBuf, EnvText(vars, order), |order|)
      ensures Written(argsBuf, Terminated(Argv(argv, programs)), |Argv(argv, programs)|)
      ensures var a := Argv(argv, programs);
        var cuts := Cuts(CopyText(Terminated(a)), |a|);
        env[..] == TableOf(EnvText(vars, order), |order|)[|cuts| := Null]
        && args.Length == |a| + 1 && args[..|cuts|] == Pointers(cuts)
        && args[|cuts|] != Null && args[|cuts| + 1..] == Garbages(|a| - |cuts|)
      ensures !process && !alive && signals == [] && data == NoData
    {
      this.path := path;
      cwd := CppPath.Dirname(path);
      var a := Argv(argv, programs);
      var eb, et, ab, at := BuildCrossed(EnvText(vars, order), |order|, Terminated(a), |a|);
      envBuf, env, argsBuf, args := eb, et, ab, at;
      process, alive, signals, data := false, false, [], NoData;
    }

    /** `spawn`: takes a handle on first use, otherwise stops a live child;
        the child is alive exactly when `uv_spawn` (whose result is the
        parameter) succeeds. A new handle carries the `data` its allocator
        slot held (`slot`); `spawn` never stores anything there. */
    method Spawn(spawnResult: int, slot: HandleData) returns (success: int)
      requires Valid() && slot != Owner
      modifies this
      ensures Valid() && process && success == spawnResult
      ensures alive <==> success == 0
      ensures signals == old(signals) + (if old(alive) then [SIGSTOP] else [])
      ensures data == (if old(process) then old(data) else slot)
    {
      if !process {
        process := true;
        data := slot;
      } else if alive {
        Signal(SIGSTOP);
        alive := false;
      }
      success := spawnResult;
      if success == 0 {
        alive := true;
      }
    }

    /** `signal`: reaches the child only while it is alive. */
    method Signal(signal: int)
      modifies this
      ensures alive == old(alive) && process == old(process) && data == old(data)
      ensures signals == old(signals) + (if alive then [signal] else [])
    {
      if alive {
        signals := signals + [signal];
      }
    }

    /** The store `process->data = this` that `spawn` evidently intends:
        the exit callback can then find the executor. */
    method Attach()
      requires Valid() && process
      modifies this
      ensures Valid() && data == Owner
      ensures process == old(process) && alive == old(alive) && signals == old(signals)
    {
      data := Owner;
    }

    /** `__on_exit` as written, on the handle of this executor: a null
        `data` gives the handle back (`released`) and stops; an
        indeterminate one is read as a pointer (`undefined`); only a
        pointer to the executor marks the child no longer alive. */
    method OnExitAsWritten() returns (released: bool, undefined: bool)
      requires Valid()
      modifies this
      ensures released <==> data == NoData
      ensures undefined <==> data == Leftover
      ensures alive == (old(alive) && data != Owner)
      ensures Valid() && process == old(process) && signals == old(signals) && data == old(data)
    {
      released, undefined := false, false;
      if data == NoData {
        released := true;
      } else if data == Leftover {
        undefined := true;
      } else {
        alive := false;
      }
    }

    /** `__on_exit` as intended, once the handle points at its executor:
        the child is no longer alive. */
    method OnExit()
      requires Valid() && data == Owner
      modifies this
      ensures Valid() && !alive && process == old(process) && signals == old(signals)
      ensures data == old(data)
    {
      alive := false;
    }

    /** `~Executor`: a live child is stopped and its handle left to the exit
        callback; otherwise a handle taken is given back. Returns whether it
        was given back. */
    method Destroy() returns (released: bool)
      requires Valid()
      modifies this
      ensures released <==> old(process) && !old(alive)
      ensures signals == old(signals) + (if old(alive) then [SIGSTOP] else [])
      ensures data == (if old(alive) then NoData else old(data))
    {
      released := false;
      if alive {
        data := NoData;
        Signal(SIGSTOP);
      } else if process {
        released := true;
      }
    }
  }

  /** As written, the child of a new executor is still alive after its exit
      callback has run, whichever slot its handle came from; the handle is
      given back when the slot held null. */
  method ExitAsWrittenLeavesAlive(path: string, vars: map<string, string>, order: seq<string>,
                                  argv: seq<string>, programs: map<string, string>, slot: HandleData)
    returns (alive: bool, released: bool)
    requires CppPath.HasName(path) && argv != [] && IterationOrder(vars, order)
    requires slot != Owner
    ensures alive
    ensures released <==> slot == NoData
  {
    var e := new Executor(path, vars, order, argv, programs);
    var success := e.Spawn(0, slot);
    var undefined;
    released, undefined := e.OnExitAsWritten();
    alive := e.alive;
  }

  /** With the handle pointing at its executor, the exit callback leaves
      the child no longer alive. */
  method ExitIntendedStopsChild(path: string, vars: map<string, string>, order: seq<string>,
                                argv: seq<string>, programs: map<string, string>, slot: HandleData)
    returns (alive: bool)
    requires CppPath.HasName(path) && argv != [] && IterationOrder(vars, order)
    requires slot != Owner
    ensures !alive
  {
    var e := new Executor(path, vars, order, argv, programs);
    var success := e.Spawn(0, slot);
    e.Attach();
    e.OnExit();
    alive := e.alive;
  }

  // ---------------------------------------------------------------------
  // What the tables mean

  /** The cuts carry exactly the given texts, in order. */
  predicate CutsAre(cuts: seq<Field>, pieces: seq<string>) {
    |cuts| == |pieces| && forall j :: 0 <= j < |pieces| ==> cuts[j].text == pieces[j]
  }

  /** Positions shifted by `d`. */
  function Shifted(ends: seq<nat>, d: nat): (r: seq<nat>)
    ensures |r| == |ends| && forall j :: 0 <= j < |ends| ==> r[j] == ends[j] + d
  {
    seq(|ends|, j requires 0 <= j < |ends| => ends[j] + d)
  }

  lemma {:induction false} PositionFromAppend(a: string, b: string, c: char, f: nat)
    ensures PositionFrom(a + b, c, |a| + f).None? <==> PositionFrom(b, c, f).None?
    ensures PositionFrom(b, c, f).Some? ==> PositionFrom(a + b, c, |a| + f) == Some(PositionFrom(b, c, f).value + |a|)
    decreases |b| - f
  {
    if f < |b| {
      assert (a + b)[|a| + f] == b[f];
      if b[f] != c {
        PositionFromAppend(a, b, c, f + 1);
      }
    }
  }

  /** The CRs of `b` are found at the same places after a prefix `a`. */
  lemma {:induction false} EndsAppend(a: string, b: string, m: nat, f: nat)
    ensures Ends(a + b, m, |a| + f) == Shifted(Ends(b, m, f), |a|)
    decreases m
  {
    if m > 0 {
      PositionFromAppend(a, b, CR, f);
      match PositionFrom(b, CR, f)
      case None =>
        assert Ends(a + b, m, |a| + f) == [];
      case Some(e) =>
        var rest := Ends(b, m - 1, e + 1);
        EndsAppend(a, b, m - 1, e + 1);
        assert Ends(a + b, m, |a| + f) == [e + |a|] + Ends(a + b, m - 1, |a| + (e + 1));
        ShiftedCons(e, rest, |a|);
    }
  }

  lemma ShiftedCons(e: nat, ends: seq<nat>, d: nat)
    ensures Shifted([e] + ends, d) == [e + d] + Shifted(ends, d)
  {
  }

  /** Texts free of CR are cut back into the pieces they were built from. */
  lemma {:induction false} CutsOfTerminated(pieces: seq<string>)
    requires forall i :: 0 <= i < |pieces| ==> CR !in pieces[i]
    ensures CutsAre(Cuts(Terminated(pieces), |pieces|), pieces)
    decreases |pieces|
  {
    if pieces != [] {
      var p, tail := pieces[0], pieces[1..];
      var head := p + [CR];
      var rest := Terminated(tail);
      var t := Terminated(pieces);
      assert t == head + rest;
      CutsOfTerminated(tail);
      var e := Ends(t, |pieces|, 0);
      var er := Ends(rest, |tail|, 0);
      FirstEnd(p, tail, head, rest, t);
      forall j | 0 <= j < |pieces|
        ensures Cuts(t, |pieces|)[j].text == pieces[j]
      {
        PieceAt(pieces, p, tail, head, rest, t, e, er, j);
      }
    }
  }

  /** The first CR of a terminated list closes its first piece; the others
      are those of the rest, shifted. */
  lemma FirstEnd(p: string, tail: seq<string>, head: string, rest: string, t: string)
    requires CR !in p && head == p + [CR] && t == head + rest
    ensures Ordered(t, Ends(t, |tail| + 1, 0)) && Ordered(rest, Ends(rest, |tail|, 0))
    ensures Ends(t, |tail| + 1, 0) == [|p|] + Shifted(Ends(rest, |tail|, 0), |head|)
  {
    assert t[|p|] == CR;
    assert forall j :: 0 <= j < |p| ==> t[j] == p[j] && p[j] != CR;
    PositionIs(t, CR);
    assert PositionFrom(t, CR, 0) == Some(|p|);
    EndsAppend(head, rest, |tail|, 0);
    EndsOrdered(rest, |tail|, 0);
    EndsOrdered(t, |tail| + 1, 0);
    assert |head| + 0 == |p| + 1;
    assert Ends(t, |tail| + 1, 0) == [|p|] + Ends(t, |tail|, |head| + 0);
  }

  /** The `j`-th field of a terminated list is its `j`-th piece. */
  lemma PieceAt(pieces: seq<string>, p: string, tail: seq<string>, head: string, rest: string, t: string,
              e: seq<nat>, er: seq<nat>, j: nat)
    requires pieces != [] && p == pieces[0] && tail == pieces[1..] && CR !in p
    requires head == p + [CR] && t == head + rest && rest == Terminated(tail)
    requires CutsAre(Cuts(rest, |tail|), tail)
    requires e == Ends(t, |pieces|, 0) && er == Ends(rest, |tail|, 0)
    requires Ordered(t, e) && Ordered(rest, er) && e == [|p|] + Shifted(er, |head|)
    requires j < |pieces|
    ensures j < |Cuts(t, |pieces|)| && Cuts(t, |pieces|)[j].text == pieces[j]
  {
    assert |e| == |pieces|;
    assert Cuts(t, |pieces|) == Fields(t, e);
    if j == 0 {
      assert e[0] == |p| && t[0..|p|] == p;
    } else {
      FieldAfter(t, head, rest, e, er, j);
      assert Fields(rest, er)[j - 1] == Cuts(rest, |tail|)[j - 1];
      assert tail[j - 1] == pieces[j];
    }
  }

  /** A field after the first one is the field before it in what follows
      the first CR. */
  lemma FieldAfter(t: string, head: string, rest: string, e: seq<nat>, er: seq<nat>, j: nat)
    requires t == head + rest && head != [] && Ordered(t, e) && Ordered(rest, er)
    requires e == [|head| - 1] + Shifted(er, |head|) && 1 <= j < |e|
    ensures Fields(t, e)[j].text == Fields(rest, er)[j - 1].text
  {
    assert Start(e, j) == Start(er, j - 1) + |head|;
    assert e[j] == er[j - 1] + |head|;
    assert Start(er, j - 1) <= er[j - 1] by {
      assert Fields(rest, er)[j - 1].start == Start(er, j - 1);
    }
    assert t[Start(e, j)..e[j]] == rest[Start(er, j - 1)..er[j - 1]];
  }

  lemma {:induction false} TerminatedHasNoNul(pieces: seq<string>)
    requires forall i :: 0 <= i < |pieces| ==> NUL !in pieces[i]
    ensures NUL !in Terminated(pieces)
    decreases |pieces|
  {
    if pieces != [] {
      TerminatedHasNoNul(pieces[1..]);
    }
  }

  /** Each table entry points at its field, which reads back as a C string
      from the split buffer. */
  lemma FieldAt(t: string, n: nat, j: nat)
    requires NUL !in t && j < |Cuts(t, n)|
    ensures var c := Cuts(t, n)[j];
      c.start <= |t| && NUL in Marked(t, n)[c.start..] && CText(Marked(t, n)[c.start..]) == c.text
  {
    var e := Ends(t, n, 0);
    EndsOrdered(t, n, 0);
    var c := Cuts(t, n)[j];
    var m := Marked(t, n);
    assert c.start == Start(e, j) && c.text == t[c.start..e[j]];
    forall i | c.start <= i < e[j]
      ensures m[i] == t[i]
    {
      forall j' | 0 <= j' < |e|
        ensures e[j'] != i
      {
        if j' < j - 1 {
          assert e[j'] < e[j - 1];
        }
      }
    }
    var u := m[c.start..];
    assert u[..|c.text|] == c.text;
    assert u[|c.text|] == m[e[j]] == NUL;
    CTextIs(u, c.text);
  }

  /** With keys and values free of CR and NUL, the environment table holds
      one `key=value` per variable, in iteration order. */
  lemma EnvironmentEntries(vars: map<string, string>, order: seq<string>)
    requires IterationOrder(vars, order)
    requires forall k :: k in order ==> CR !in k && NUL !in k && CR !in vars[k] && NUL !in vars[k]
    ensures NUL !in EnvText(vars, order)
    ensures CutsAre(Cuts(CopyText(EnvText(vars, order)), |order|), Assignments(vars, order))
  {
    var pieces := Assignments(vars, order);
    forall i | 0 <= i < |pieces|
      ensures CR !in pieces[i] && NUL !in pieces[i]
    {
      assert pieces[i] == order[i] + "=" + vars[order[i]];
    }
    CutsOfTerminated(pieces);
    TerminatedHasNoNul(pieces);
  }

  /** With arguments free of CR and NUL, the argument table holds one entry
      per argument, and the child sees all of them. */
  lemma ArgumentEntries(argv: seq<string>)
    requires forall i :: 0 <= i < |argv| ==> CR !in argv[i] && NUL !in argv[i]
    ensures CutsAre(Cuts(CopyText(Terminated(argv)), |argv|), argv)
    ensures |Visible(TableOf(Terminated(argv), |argv|))| == |argv|
  {
    CutsOfTerminated(argv);
    TerminatedHasNoNul(argv);
    VisiblePointers(Cuts(CopyText(Terminated(argv)), |argv|), Garbages(0));
  }

  /** The child reads exactly the pointers before the terminator. */
  lemma {:induction false} VisiblePointers(cuts: seq<Field>, rest: seq<Ptr>)
    ensures Visible(Pointers(cuts) + [Null] + rest) == Pointers(cuts)
    decreases |cuts|
  {
    if cuts != [] {
      assert (Pointers(cuts) + [Null] + rest)[1..] == Pointers(cuts[1..]) + [Null] + rest;
      VisiblePointers(cuts[1..], rest);
    }
  }

  /** The interpreter of an extension named in `programs` runs the file;
      a file name without `.` runs itself. */
  lemma InterpreterFirst(stem: string, ext: string, rest: seq<string>, programs: map<string, string>)
    requires '.' !in ext
    ensures var file := stem + "." + ext;
      Argv([file] + rest, programs) == (if ext in programs then [programs[ext], file] + rest else [file] + rest)
  {
    var file := stem + "." + ext;
    Strings.LastIndexOfIs(file, '.', |stem|);
    assert file[|stem| + 1..] == ext;
  }

  lemma NoExtension(file: string, rest: seq<string>, programs: map<string, string>)
    requires '.' !in file
    ensures Argv([file] + rest, programs) == [file] + rest
  {
  }

  // ---------------------------------------------------------------------
  // Findings

  /** The buffers of lines 57 and 94 as written: as long as the text, while
      `strcpy` writes the text and its terminator. */
  function BufferSizeAsWritten(text: string): (size: nat) {
    |text|
  }

  lemma NoRoomForTerminator(text: string)
    requires NUL !in text
    ensures BufferSizeAsWritten(text) < |CopyText(text)| + 1
  {
  }

  /** The misplaced terminator of line 109 hides from the child every
      variable from the argument count on: with two variables and one
      argument, the child sees one variable. */
  lemma {:induction false} EnvironmentCutAsWritten(cuts: seq<Field>, rest: seq<Ptr>, k: nat)
    requires k < |cuts|
    ensures Visible((Pointers(cuts) + [Null] + rest)[k := Null]) == Pointers(cuts)[..k]
    decreases k
  {
    var table := (Pointers(cuts) + [Null] + rest)[k := Null];
    if k > 0 {
      assert table[1..] == (Pointers(cuts[1..]) + [Null] + rest)[k - 1 := Null];
      EnvironmentCutAsWritten(cuts[1..], rest, k - 1);
      assert Pointers(cuts)[..k] == [At(cuts[0].start)] + Pointers(cuts[1..])[..k - 1];
    }
  }

  /** The argument table built as written has no null pointer, so the child
      reads past its end. */
  lemma ArgumentsUnterminatedAsWritten(cuts: seq<Field>, x: Ptr, g: nat)
    requires x != Null
    ensures Null !in Pointers(cuts) + [x] + Garbages(g)
  {
  }

  // ---------------------------------------------------------------------
  // The extension table

  /** A YAML node as yaml-cpp presents it. */
  datatype Node = NullNode | Scalar(text: string) | Sequence(items: seq<Node>) | Mapping(pairs: seq<(Node, Node)>)

  /** `InvalidSettingsException` for a node that is not a map, or for a key
      or value that does not convert to a string. */
  datatype LoadError = NotAMap | NotAString

  /** `as<string>()` succeeds on scalars and on null, which reads as
      `null`. */
  predicate Convertible(n: Node) {
    n.Scalar? || n.NullNode?
  }

  /** The text `as<string>()` yields for a convertible node. */
  function AsString(n: Node): string
    requires Convertible(n)
  {
    if n.NullNode? then "null" else n.text
  }

  /** Both sides of a pair convert. */
  predicate ScalarPair(p: (Node, Node)) {
    Convertible(p.0) && Convertible(p.1)
  }

  /** The number of pairs read before the first one that does not convert. */
  function Converted(pairs: seq<(Node, Node)>): (r: nat)
    ensures r <= |pairs| && (forall j :: 0 <= j < r ==> ScalarPair(pairs[j]))
    ensures r < |pairs| ==> !ScalarPair(pairs[r])
  {
    if pairs == [] || !ScalarPair(pairs[0]) then 0
    else
      var r := 1 + Converted(pairs[1..]);
      assert forall j :: 1 <= j < r ==> pairs[j] == pairs[1..][j - 1];
      r
  }

  /** The pairs as strings, for pairs that all convert. */
  function Texts(pairs: seq<(Node, Node)>): (r: seq<(string, string)>)
    requires forall j :: 0 <= j < |pairs| ==> ScalarPair(pairs[j])
    ensures |r| == |pairs|
    ensures forall j :: 0 <= j < |pairs| ==> ScalarPair(pairs[j]) && r[j] == (AsString(pairs[j].0), AsString(pairs[j].1))
  {
    seq(|pairs|, j requires 0 <= j < |pairs| && ScalarPair(pairs[j]) => (AsString(pairs[j].0), AsString(pairs[j].1)))
  }

  /** The extension table after inserting the entries in order; `insert`
      keeps the first value of a repeated key. */
  function Programs(entries: seq<(string, string)>): map<string, string>
  {
    if entries == [] then map[]
    else
      var m := Programs(entries[..|entries| - 1]);
      var last := entries[|entries| - 1];
      if last.0 in m then m else m[last.0 := last.1]
  }

  /** Converting one more pair inserts its strings, unless the key is
      already there. */
  lemma LoadStep(pairs: seq<(Node, Node)>, i: nat)
    requires i < |pairs| && i <= Converted(pairs) && ScalarPair(pairs[i])
    ensures i + 1 <= Converted(pairs)
    ensures var m := Programs(Texts(pairs[..i])); var (key, value) := (AsString(pairs[i].0), AsString(pairs[i].1));
      Programs(Texts(pairs[..i + 1])) == if key in m then m else m[key := value]
  {
    TextsSnoc(pairs, i);
    ProgramsSnoc(Texts(pairs[..i]), (AsString(pairs[i].0), AsString(pairs[i].1)));
  }

  lemma TextsSnoc(pairs: seq<(Node, Node)>, i: nat)
    requires i < |pairs| && i <= Converted(pairs) && ScalarPair(pairs[i])
    ensures i + 1 <= Converted(pairs)
    ensures Texts(pairs[..i + 1]) == Texts(pairs[..i]) + [(AsString(pairs[i].0), AsString(pairs[i].1))]
  {
    var a, b := Texts(pairs[..i + 1]), Texts(pairs[..i]) + [(AsString(pairs[i].0), AsString(pairs[i].1))];
    assert |a| == |b|;
    forall j | 0 <= j < |a|
      ensures a[j] == b[j]
    {
      assert pairs[..i + 1][j] == pairs[j];
      assert a[j] == (AsString(pairs[j].0), AsString(pairs[j].1));
      if j < i {
        assert pairs[..i][j] == pairs[j];
        assert b[j] == Texts(pairs[..i])[j];
      } else {
        assert b[j] == (AsString(pairs[i].0), AsString(pairs[i].1));
      }
    }
  }

  /** Inserting one more entry into the table built from the ones before. */
  lemma ProgramsSnoc(entries: seq<(string, string)>, x: (string, string))
    ensures Programs(entries + [x]) == if x.0 in Programs(entries) then Programs(entries) else Programs(entries)[x.0 := x.1]
  {
    assert (entries + [x])[..|entries|] == entries;
  }

  /** Every key of the settings is an extension of the table, and maps to
      the value of its first occurrence. */
  lemma {:induction false} ProgramFor(entries: seq<(string, string)>, i: nat)
    requires i < |entries| && forall j :: 0 <= j < i ==> entries[j].0 != entries[i].0
    ensures entries[i].0 in Programs(entries) && Programs(entries)[entries[i].0] == entries[i].1
    decreases |entries|
  {
    var front := entries[..|entries| - 1];
    if i == |entries| - 1 {
      ProgramKeys(front);
    } else {
      ProgramFor(front, i);
    }
  }

  /** The table's extensions are exactly the keys of the settings. */
  lemma {:induction false} ProgramKeys(entries: seq<(string, string)>)
    ensures forall e :: e in Programs(entries) <==> exists j :: 0 <= j < |entries| && entries[j].0 == e
    decreases |entries|
  {
    if entries != [] {
      var front := entries[..|entries| - 1];
      ProgramKeys(front);
      forall e | e in Programs(entries)
        ensures exists j :: 0 <= j < |entries| && entries[j].0 == e
      {
        if e in Programs(front) {
          var j :| 0 <= j < |front| && front[j].0 == e;
          assert entries[j] == front[j];
        } else {
          assert entries[|entries| - 1].0 == e;
        }
      }
      forall e | exists j :: 0 <= j < |entries| && entries[j].0 == e
        ensures e in Programs(entries)
      {
        var j :| 0 <= j < |entries| && entries[j].0 == e;
        if j < |entries| - 1 {
          assert front[j] == entries[j];
        }
      }
    }
  }

  class ProgramTable {
    /** `programs`: extension to interpreter. */
    var programs: map<string, string>

    constructor ()
      ensures programs == map[]
    {
      programs := map[];
    }

    /** `Executor::load(settings)`: the table is emptied first, then filled
        from a map node pair by pair until a key or value does not convert,
        which fails after the pairs before it are in. */
    method Load(settings: Node) returns (r: Result<(), LoadError>)
      modifies this
      ensures !settings.Mapping? ==> r == Err(NotAMap) && programs == map[]
      ensures settings.Mapping? ==>
        var k := Converted(settings.pairs);
        programs == Programs(Texts(settings.pairs[..k]))
        && (r == if k == |settings.pairs| then Ok(()) else Err(NotAString))
    {
      programs := map[];
      if !settings.Mapping? {
        return Err(NotAMap);
      }
      var pairs := settings.pairs;
      var i := 0;
      while i < |pairs|
        invariant i <= Converted(pairs)
        invariant programs == Programs(Texts(pairs[..i]))
      {
        var p := pairs[i];
        if !ScalarPair(p) {
          return Err(NotAString);
        }
        LoadStep(pairs, i);
        if AsString(p.0) !in programs {
          programs := programs[AsString(p.0) := AsString(p.1)];
        }
        i := i + 1;
      }
      assert pairs[..i] == pairs;
      return Ok(());
    }
  }
}
