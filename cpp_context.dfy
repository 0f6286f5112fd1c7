// The C++ server's reading of a Gemini request line (sources/context.cpp,
// includes/context.hpp): white space trimmed off both ends, the scheme before
// the first `://`, then the host, an optional `:port`, the path and the
// query; and the set of client contexts a manager owns.
module CppContext {
  import opened Wrappers
  import Strings
  import Gemini

  const SCHEME_END: string := "://"
  const GEMINI: string := "gemini"
  /** The port a request without one is named with. */
  const DEFAULT_PORT: int := 1965

  // ------------------------------------------------------------ trimming

  /** The line the constructor keeps: white space (C's `isspace`) cut off
      both ends, except that a line made only of white space stays as it
      is, since neither loop finds a character to cut at. */
  function Stripped(raw: string): string {
    if Strings.TrimStart(raw) == [] then raw else Strings.Trim(raw)
  }

  /** The two trimming loops of `GeminiRequest::GeminiRequest`. */
  method Strip(raw: string) returns (t: string)
    ensures t == Stripped(raw)
  {
    var front := StripStart(raw);
    t := StripEnd(front);
    if Strings.TrimStart(raw) == [] {
      AllSpace(raw);
    } else {
      assert front[0] == Strings.TrimStart(raw)[0];
      AllSpace(front);
    }
  }

  /** The first loop: cut before the first character that is not white
      space, if there is one. */
  method StripStart(raw: string) returns (t: string)
    ensures t == if Strings.TrimStart(raw) == [] then raw else Strings.TrimStart(raw)
  {
    var i := 0;
    assert raw[i..] == raw;
    while i < |raw| && Strings.IsSpace(raw[i])
      invariant 0 <= i <= |raw|
      invariant Strings.TrimStart(raw[i..]) == Strings.TrimStart(raw)
    {
      TrimStartAt(raw[i..]);
      assert raw[i..][1..] == raw[i + 1..];
      i := i + 1;
    }
    TrimStartAt(raw[i..]);
    t := raw;
    if i < |raw| {
      t := raw[i..];
    }
  }

  /** The second loop: cut after the last character that is not white
      space, if there is one. */
  method StripEnd(s: string) returns (t: string)
    ensures t == if Strings.TrimEnd(s) == [] then s else Strings.TrimEnd(s)
  {
    var j := |s|;
    assert s[..j] == s;
    while j > 0 && Strings.IsSpace(s[j - 1])
      invariant 0 <= j <= |s|
      invariant Strings.TrimEnd(s[..j]) == Strings.TrimEnd(s)
    {
      TrimEndAt(s[..j]);
      assert s[..j][..j - 1] == s[..j - 1];
      j := j - 1;
    }
    TrimEndAt(s[..j]);
    t := s;
    if j > 0 {
      t := s[..j];
    }
  }

  /** A text is all white space from either end alike. */
  lemma AllSpace(s: string)
    ensures Strings.TrimStart(s) == [] <==> Strings.TrimEnd(s) == []
  {
    if Strings.TrimStart(s) == [] && s != [] {
      assert Strings.IsSpace(s[|s| - 1]);
    }
    if Strings.TrimEnd(s) == [] && s != [] {
      assert Strings.IsSpace(s[0]);
    }
  }

  /** One turn of the first trimming loop. */
  lemma TrimStartAt(s: string)
    ensures s != [] && Strings.IsSpace(s[0]) ==> Strings.TrimStart(s) == Strings.TrimStart(s[1..])
    ensures s == [] || !Strings.IsSpace(s[0]) ==> Strings.TrimStart(s) == s
  {
  }

  /** One turn of the second trimming loop. */
  lemma TrimEndAt(s: string)
    ensures s != [] && Strings.IsSpace(s[|s| - 1]) ==> Strings.TrimEnd(s) == Strings.TrimEnd(s[..|s| - 1])
    ensures s == [] || !Strings.IsSpace(s[|s| - 1]) ==> Strings.TrimEnd(s) == s
  {
  }

  lemma {:induction false} TrimStartSpaces(a: string, x: string)
    requires forall i :: 0 <= i < |a| ==> Strings.IsSpace(a[i])
    requires x != [] && !Strings.IsSpace(x[0])
    ensures Strings.TrimStart(a + x) == x
    decreases |a|
  {
    if a == [] {
      assert a + x == x;
      assert Strings.TrimStart(x) == x;
    } else {
      var s := a + x;
      assert s[0] == a[0];
      assert s[1..] == a[1..] + x;
      TrimStartSpaces(a[1..], x);
      assert Strings.TrimStart(s) == Strings.TrimStart(s[1..]);
    }
  }

  lemma {:induction false} TrimEndSpaces(x: string, b: string)
    requires forall i :: 0 <= i < |b| ==> Strings.IsSpace(b[i])
    requires x != [] && !Strings.IsSpace(x[|x| - 1])
    ensures Strings.TrimEnd(x + b) == x
    decreases |b|
  {
    if b == [] {
      assert x + b == x;
      assert Strings.TrimEnd(x) == x;
    } else {
      var s := x + b;
      assert s[|s| - 1] == b[|b| - 1];
      assert s[..|s| - 1] == x + b[..|b| - 1];
      TrimEndSpaces(x, b[..|b| - 1]);
      assert Strings.TrimEnd(s) == Strings.TrimEnd(s[..|s| - 1]);
    }
  }

  /** White space before and after a line is dropped, and nothing else. */
  lemma StrippedLine(before: string, line: string, after: string)
    requires forall i :: 0 <= i < |before| ==> Strings.IsSpace(before[i])
    requires forall i :: 0 <= i < |after| ==> Strings.IsSpace(after[i])
    requires line != [] && !Strings.IsSpace(line[0]) && !Strings.IsSpace(line[|line| - 1])
    ensures Stripped(before + line + after) == line
  {
    assert before + line + after == before + (line + after);
    TrimStartSpaces(before, line + after);
    TrimEndSpaces(line, after);
  }

  // ---------------------------------------------------------------- atoi

  predicate IsDigit(c: char) {
    '0' <= c <= '9'
  }

  /** The digits `s` starts with. */
  function DigitRun(s: string): (r: string)
    ensures |r| <= |s| && r == s[..|r|]
    ensures forall i :: 0 <= i < |r| ==> '0' <= r[i] <= '9'
    ensures |r| == |s| || !IsDigit(s[|r|])
  {
    if s != [] && IsDigit(s[0]) then [s[0]] + DigitRun(s[1..]) else []
  }

  /** C's `atoi`: white space, an optional sign, then the value of the digits
      that follow; text without leading digits gives 0. */
  function Atoi(s: string): int {
    var t := Strings.TrimStart(s);
    if t != [] && t[0] == '-' then -(Strings.DigitsValue(DigitRun(t[1..])) as int)
    else if t != [] && t[0] == '+' then Strings.DigitsValue(DigitRun(t[1..]))
    else Strings.DigitsValue(DigitRun(t))
  }

  lemma {:induction false} DigitRunDigits(digits: string, tail: string)
    requires forall i :: 0 <= i < |digits| ==> IsDigit(digits[i])
    requires tail == [] || !IsDigit(tail[0])
    ensures DigitRun(digits + tail) == digits
    decreases |digits|
  {
    if digits == [] {
      assert digits + tail == tail;
    } else {
      assert (digits + tail)[1..] == digits[1..] + tail;
      DigitRunDigits(digits[1..], tail);
    }
  }

  /** A non-empty run of decimal digits. */
  predicate Digits(s: string) {
    s != [] && forall i :: 0 <= i < |s| ==> IsDigit(s[i])
  }

  /** Digits hold none of the characters that end a part of a request. */
  lemma DigitsFree(s: string)
    requires Digits(s)
    ensures ':' !in s && '/' !in s && '?' !in s
  {
  }

  /** `atoi` reads the value of a run of digits, whatever non-digit
      follows it. */
  lemma AtoiDigits(digits: string, tail: string)
    requires Digits(digits)
    requires tail == [] || !IsDigit(tail[0])
    ensures Atoi(digits + tail) == Strings.DigitsValue(digits)
  {
    var s := digits + tail;
    assert s[0] == digits[0];
    assert !Strings.IsSpace(s[0]) && s[0] != '-' && s[0] != '+';
    assert Strings.TrimStart(s) == s;
    DigitRunDigits(digits, tail);
    assert Atoi(s) == Strings.DigitsValue(DigitRun(s));
  }

  /** `atoi` reads back the decimal form of a natural number, whatever
      non-digit follows it. */
  lemma AtoiDecimal(n: nat, tail: string)
    requires tail == [] || !IsDigit(tail[0])
    ensures Digits(Strings.NatToString(n))
    ensures Atoi(Strings.NatToString(n) + tail) == n
  {
    AtoiDigits(Strings.NatToString(n), tail);
    Strings.NatToStringValue(n);
  }

  // ------------------------------------------------------------- parsing

  /** The parts of a request, as the object's fields hold them. */
  datatype Fields = Fields(schema: string, host: string, port: int, path: string, query: string, valid: bool)

  /** The scheme check: `gemini` in any case. */
  predicate IsGemini(schema: string) {
    Strings.Lower(schema) == GEMINI
  }

  /** The scheme check's loop. */
  method SameSchema(schema: string) returns (b: bool)
    ensures b <==> IsGemini(schema)
  {
    if |schema| != |GEMINI| {
      return false;
    }
    var i := 0;
    while i < |GEMINI|
      invariant 0 <= i <= |GEMINI|
      invariant forall k :: 0 <= k < i ==> Strings.LowerChar(schema[k]) == Strings.LowerChar(GEMINI[k])
    {
      if Strings.LowerChar(schema[i]) != Strings.LowerChar(GEMINI[i]) {
        return false;
      }
      i := i + 1;
    }
    assert forall k :: 0 <= k < |GEMINI| ==> Strings.LowerChar(GEMINI[k]) == GEMINI[k];
    return true;
  }

  /** A path and the query after it: the query starts at the first `?` and
      keeps it. */
  function SplitQuery(tail: string): (r: (string, string))
    ensures r.0 + r.1 == tail
    ensures '?' !in r.0
    ensures r.1 == [] || r.1[0] == '?'
    ensures tail != [] && tail[0] != '?' ==> r.0 != [] && r.0[0] == tail[0]
    ensures tail != [] && tail[0] == '?' ==> r.0 == []
  {
    match Strings.IndexOf(tail, '?')
    case None => (tail, "")
    case Some(q) =>
      assert tail == tail[..q] + tail[q..];
      (tail[..q], tail[q..])
  }

  /** The path runs to the first `?`; with a query the scheme is checked,
      without one it is not. */
  function PathAndQuery(schema: string, host: string, port: int, tail: string): (r: Fields)
    requires tail != [] && tail[0] == '/'
    ensures r.schema == schema && r.host == host && r.port == port
    ensures r.path != [] && r.path[0] == '/' && '?' !in r.path
    ensures r.query == [] || r.query[0] == '?'
    ensures r.path + r.query == tail
    ensures r.valid <==> r.query == [] || IsGemini(schema)
  {
    var pq := SplitQuery(tail);
    Fields(schema, host, port, pq.0, pq.1, pq.1 == [] || IsGemini(schema))
  }

  /** What the constructor as written yields for a scheme: a valid host is
      neither empty nor starts with `/`, a path starts with `/` and holds no
      `?`, a query starts with `?`, and the scheme was checked when both a
      path and a query are there. */
  predicate Shaped(schema: string, r: Fields) {
    && r.schema == schema
    && (r.valid ==> r.host != [] && r.host[0] != '/')
    && (r.path == [] || r.path[0] == '/')
    && '?' !in r.path
    && (r.query == [] || r.query[0] == '?')
    && (r.valid && r.path != [] && r.query != [] ==> IsGemini(schema))
  }

  /** The constructor as written, after the `://` at the end of `schema`:
      the first `:` anywhere in `rest` is taken to end the host. */
  function AfterScheme(schema: string, rest: string): (r: Fields)
    ensures Shaped(schema, r)
  {
    match Strings.IndexOf(rest, ':')
    case Some(c) => WithPort(schema, rest[..c], rest[c + 1..])
    case None => WithoutPort(schema, rest)
  }

  /** A `:` was found after `host`: the host must neither be empty nor
      start with `/`, and the port runs to the first `/` after the `:`, or
      else to the first `?`. */
  function WithPort(schema: string, host: string, after: string): (r: Fields)
    ensures Shaped(schema, r)
  {
    if host == [] || host[0] == '/' then Fields(schema, host, 0, "", "", false)
    else
      match Strings.IndexOf(after, '/')
      case None =>
        (match Strings.IndexOf(after, '?')
         case None => Fields(schema, host, Atoi(after), "", "", true)
         case Some(q) => Fields(schema, host, Atoi(after[..q]), "", after[q..], true))
      case Some(s) => PathAndQuery(schema, host, Atoi(after[..s]), after[s..])
  }

  /** No `:`: the host runs to the first `/` anywhere, or else to the first
      `?`, and must not be empty. */
  function WithoutPort(schema: string, rest: string): (r: Fields)
    ensures Shaped(schema, r)
  {
    match Strings.IndexOf(rest, '/')
    case None =>
      (match Strings.IndexOf(rest, '?')
       case None => Fields(schema, rest, 0, "", "", rest != [])
       case Some(q) =>
         if q == 0 then Fields(schema, "", 0, "", "", false)
         else Fields(schema, rest[..q], 0, "", rest[q..], true))
    case Some(s) =>
      if s == 0 then Fields(schema, "", 0, "", "", false)
      else PathAndQuery(schema, rest[..s], 0, rest[s..])
  }

  /** `GeminiRequest::GeminiRequest` as written, on the trimmed line: no
      `://` means an invalid request. */
  function ParseAsWritten(t: string): (r: Fields)
    ensures r.valid ==> Strings.Find(t, SCHEME_END).Some?
  {
    match Strings.Find(t, SCHEME_END)
    case None => Fields("", "", 0, "", "", false)
    case Some(p) => AfterScheme(t[..p], t[p + 3..])
  }

  /** The parsing part of the constructor: the scheme, then the branch on
      whether a `:` follows. */
  method ParseLine(t: string) returns (f: Fields)
    ensures f == ParseAsWritten(t)
  {
    var found := Strings.Find(t, SCHEME_END);
    if found.None? {
      return Fields("", "", 0, "", "", false);
    }
    var schema := t[..found.value];
    var rest := t[found.value + 3..];
    var colon := Strings.IndexOf(rest, ':');
    if colon.Some? {
      f := ParseWithPort(schema, rest[..colon.value], rest[colon.value + 1..]);
    } else {
      f := ParseWithoutPort(schema, rest);
    }
  }

  /** The branch with a `:`, with its early returns. */
  method ParseWithPort(schema: string, host: string, after: string) returns (f: Fields)
    ensures f == WithPort(schema, host, after)
  {
    if host == [] || host[0] == '/' {
      return Fields(schema, host, 0, "", "", false);
    }
    var slash := Strings.IndexOf(after, '/');
    if slash.None? {
      var mark := Strings.IndexOf(after, '?');
      if mark.None? {
        var port := Atoi(after);
        return Fields(schema, host, port, "", "", true);
      }
      var port := Atoi(after[..mark.value]);
      return Fields(schema, host, port, "", after[mark.value..], true);
    }
    var port := Atoi(after[..slash.value]);
    f := ParsePathQuery(schema, host, port, after[slash.value..]);
  }

  /** The branch without a `:`, with its early returns. */
  method ParseWithoutPort(schema: string, rest: string) returns (f: Fields)
    ensures f == WithoutPort(schema, rest)
  {
    var slash := Strings.IndexOf(rest, '/');
    if slash.None? {
      var mark := Strings.IndexOf(rest, '?');
      if mark.None? {
        return Fields(schema, rest, 0, "", "", rest != []);
      }
      var host := rest[..mark.value];
      if host == [] {
        return Fields(schema, host, 0, "", "", false);
      }
      return Fields(schema, host, 0, "", rest[mark.value..], true);
    }
    var host := rest[..slash.value];
    if host == [] {
      return Fields(schema, host, 0, "", "", false);
    }
    f := ParsePathQuery(schema, host, 0, rest[slash.value..]);
  }

  /** The path up to the first `?`, the query from it; only with a query is
      the scheme compared. */
  method ParsePathQuery(schema: string, host: string, port: int, tail: string) returns (f: Fields)
    requires tail != [] && tail[0] == '/'
    ensures f == PathAndQuery(schema, host, port, tail)
  {
    var mark := Strings.IndexOf(tail, '?');
    if mark.None? {
      return Fields(schema, host, port, tail, "", true);
    }
    var gemini := SameSchema(schema);
    return Fields(schema, host, port, tail[..mark.value], tail[mark.value..], gemini);
  }

  /** A Gemini request as the C++ server holds it. */
  class GeminiRequest {
    var schema: string
    var host: string
    var port: int
    var path: string
    var query: string
    var request: string
    var valid: bool

    function Parts(): Fields
      reads this
    {
      Fields(schema, host, port, path, query, valid)
    }

    /** `GeminiRequest(std::string)`: trims, keeps the trimmed line, and
        parses it. */
    constructor (raw: string)
      ensures request == Stripped(raw)
      ensures Parts() == ParseAsWritten(request)
    {
      var t := Strip(raw);
      request := t;
      new;
      Parse();
    }

    /** The parsing part of the constructor, on the line kept. */
    method Parse()
      modifies this
      ensures request == old(request)
      ensures Parts() == ParseAsWritten(request)
    {
      var f := ParseLine(request);
      schema, host, port, path, query, valid := f.schema, f.host, f.port, f.path, f.query, f.valid;
    }

    /** `getRequestName`: host, port (1965 for none) and path. */
    method RequestName() returns (name: string)
      ensures name == Name(host, port, path)
    {
      var p := port;
      if p == 0 {
        p := DEFAULT_PORT;
      }
      name := host + ":" + Strings.IntToString(p) + path;
    }
  }

  /** The port a request is named with. */
  function NamedPort(port: int): int {
    if port == 0 then DEFAULT_PORT else port
  }

  function Name(host: string, port: int, path: string): string {
    host + ":" + Strings.IntToString(NamedPort(port)) + path
  }

  // ------------------------------------------------- the parser as written

  lemma IndexOfAt(a: string, b: string, c: char)
    requires c !in a && b != [] && b[0] == c
    ensures Strings.IndexOf(a + b, c) == Some(|a|)
  {
    assert (a + b)[..|a|] == a;
    Strings.IndexOfIs(a + b, c, |a|);
  }

  lemma IndexOfNone(a: string, b: string, c: char)
    requires c !in a && c !in b
    ensures Strings.IndexOf(a + b, c) == None
  {
    NotInConcat(a, b, c);
  }

  lemma NotInConcat(a: string, b: string, c: char)
    requires c !in a && c !in b
    ensures c !in a + b
  {
    forall i | 0 <= i < |a + b| ensures (a + b)[i] != c {
      if i < |a| {
        assert (a + b)[i] == a[i];
      } else {
        assert (a + b)[i] == b[i - |a|];
      }
    }
  }

  /** A text is cut at the first `c` when what comes before holds none. */
  lemma CutAt(a: string, c: char, b: string)
    requires c !in a
    ensures var s := a + [c] + b;
      Strings.IndexOf(s, c) == Some(|a|) && s[..|a|] == a && s[|a|..] == [c] + b && s[|a| + 1..] == b
  {
    var s := a + [c] + b;
    assert s == a + ([c] + b);
    IndexOfAt(a, [c] + b, c);
    assert s[..|a|] == a && s[|a|..] == [c] + b;
  }

  lemma Regroup4(a: string, b: string, c: string, d: string)
    ensures a + b + c + d == a + (b + c + d)
  {
    assert a + b + c + d == a + (b + c + d);
  }

  lemma Regroup5(a: string, b: string, c: string, d: string, e: string)
    ensures a + b + c + d + e == a + (b + c + d + e)
  {
    assert a + b + c + d + e == a + (b + c + d + e);
  }

  /** The first `://` follows a scheme free of `:`. */
  lemma SchemeAt(schema: string, rest: string)
    requires ':' !in schema
    ensures var t := schema + SCHEME_END + rest;
      Strings.Find(t, SCHEME_END) == Some(|schema|) && t[..|schema|] == schema && t[|schema| + 3..] == rest
  {
    var t := schema + SCHEME_END + rest;
    var n := |schema|;
    assert t[n..n + 3] == SCHEME_END;
    forall j: nat | j < n ensures !Strings.OccursAt(t, SCHEME_END, j) {
      assert t[j] == schema[j];
    }
    Strings.FindIs(t, SCHEME_END, n);
    assert t[..n] == schema;
    assert t[n + 3..] == rest;
  }

  /** A host starting with `/` (the `:///` of the tests) is refused. */
  lemma LeadingSlashInvalid(schema: string, rest: string)
    requires rest != [] && rest[0] == '/'
    ensures !AfterScheme(schema, rest).valid
  {
    if ':' !in rest {
      Strings.IndexOfIs(rest, '/', 0);
    }
  }

  /** A path and a query are cut apart where they were joined. */
  lemma SplitQueryOf(path: string, query: string)
    requires '?' !in path && (query == [] || query[0] == '?')
    ensures SplitQuery(path + query) == (path, query)
  {
    if query != [] {
      IndexOfAt(path, query, '?');
      assert (path + query)[..|path|] == path && (path + query)[|path|..] == query;
    } else {
      assert path + query == path;
    }
  }

  /** A request without a port: host, then a path or a query or both. The
      scheme is looked at only when there are both. */
  lemma AsWrittenNoPort(schema: string, host: string, path: string, query: string)
    requires host != [] && ':' !in host && '/' !in host && '?' !in host
    requires path == [] || (path[0] == '/' && '?' !in path)
    requires query == [] || query[0] == '?'
    requires ':' !in path && ':' !in query
    requires path != [] || '/' !in query
    ensures AfterScheme(schema, host + path + query)
      == Fields(schema, host, 0, path, query, path == [] || query == [] || IsGemini(schema))
  {
    assert host + path + query == host + (path + query);
    IndexOfNone(host, path + query, ':');
    WithoutPortParts(schema, host, path, query);
  }

  lemma WithoutPortParts(schema: string, host: string, path: string, query: string)
    requires host != [] && '/' !in host && '?' !in host
    requires path == [] || (path[0] == '/' && '?' !in path)
    requires query == [] || query[0] == '?'
    requires path != [] || '/' !in query
    ensures WithoutPort(schema, host + path + query)
      == Fields(schema, host, 0, path, query, path == [] || query == [] || IsGemini(schema))
  {
    var rest := host + (path + query);
    assert host + path + query == rest;
    if path != [] {
      IndexOfAt(host, path + query, '/');
      assert rest[..|host|] == host && rest[|host|..] == path + query;
      SplitQueryOf(path, query);
    } else if query != [] {
      assert rest == host + query;
      IndexOfNone(host, query, '/');
      IndexOfAt(host, query, '?');
      assert rest[..|host|] == host && rest[|host|..] == query;
    } else {
      assert rest == host;
    }
  }

  /** A request with a decimal port: host, `:`, port, then a path or a
      query or both. */
  lemma AsWrittenWithPort(schema: string, host: string, port: nat, path: string, query: string)
    requires host != [] && ':' !in host && '/' !in host
    requires path == [] || (path[0] == '/' && '?' !in path)
    requires query == [] || query[0] == '?'
    requires path != [] || '/' !in query
    ensures AfterScheme(schema, host + ":" + Strings.NatToString(port) + path + query)
      == Fields(schema, host, port, path, query, path == [] || query == [] || IsGemini(schema))
  {
    var digits := Strings.NatToString(port);
    AtoiDecimal(port, []);
    assert digits + [] == digits;
    Regroup4(host + ":", digits, path, query);
    CutAt(host, ':', digits + path + query);
    WithPortParts(schema, host, digits, path, query);
  }

  lemma WithPortParts(schema: string, host: string, digits: string, path: string, query: string)
    requires host != [] && host[0] != '/' && Digits(digits)
    requires path == [] || (path[0] == '/' && '?' !in path)
    requires query == [] || query[0] == '?'
    requires path != [] || '/' !in query
    ensures WithPort(schema, host, digits + path + query)
      == Fields(schema, host, Atoi(digits), path, query, path == [] || query == [] || IsGemini(schema))
  {
    DigitsFree(digits);
    assert digits + [] == digits;
    if path != [] {
      WithPortPath(schema, host, digits, path, query);
    } else if query != [] {
      assert digits + path + query == digits + query;
      WithPortQuery(schema, host, digits, query);
    } else {
      assert digits + path + query == digits;
    }
  }

  lemma WithPortPath(schema: string, host: string, digits: string, path: string, query: string)
    requires host != [] && host[0] != '/' && Digits(digits)
    requires path != [] && path[0] == '/' && '?' !in path
    requires query == [] || query[0] == '?'
    ensures WithPort(schema, host, digits + path + query)
      == Fields(schema, host, Atoi(digits), path, query, query == [] || IsGemini(schema))
  {
    DigitsFree(digits);
    var after := digits + (path + query);
    assert digits + path + query == after;
    IndexOfAt(digits, path + query, '/');
    assert after[..|digits|] == digits && after[|digits|..] == path + query;
    SplitQueryOf(path, query);
  }

  lemma WithPortQuery(schema: string, host: string, digits: string, query: string)
    requires host != [] && host[0] != '/' && Digits(digits)
    requires query != [] && query[0] == '?' && '/' !in query
    ensures WithPort(schema, host, digits + query) == Fields(schema, host, Atoi(digits), "", query, true)
  {
    DigitsFree(digits);
    var after := digits + query;
    IndexOfNone(digits, query, '/');
    IndexOfAt(digits, query, '?');
    assert after[..|digits|] == digits && after[|digits|..] == query;
  }

  // ------------------------------------------------------------ findings

  /** The scheme is looked at only when both a path and a query follow:
      without them any scheme is accepted as written (`http://foo.bar/`),
      while the corrected parser refuses it. */
  lemma SchemeUncheckedAsWritten(schema: string, host: string, path: string, query: string)
    requires ':' !in schema && !IsGemini(schema)
    requires host != [] && ':' !in host && '/' !in host && '?' !in host
    requires path == [] || (path[0] == '/' && '?' !in path)
    requires query == [] || query[0] == '?'
    requires ':' !in path && ':' !in query
    requires path == [] || query == []
    requires path != [] || '/' !in query
    ensures var t := schema + SCHEME_END + (host + path + query);
      ParseAsWritten(t).valid && !ParseFixed(t).valid
  {
    var rest := host + path + query;
    SchemeAt(schema, rest);
    AsWrittenNoPort(schema, host, path, query);
    FixedParts(schema, host, path, query);
  }

  /** A `:` in the path is taken for the port's: `gemini://foo.bar/a:b`
      yields the host `foo.bar/a` as written, while the corrected parser
      keeps `/a:b` as the path. */
  lemma ColonInPathAsWritten(schema: string, host: string, segment: string, tail: string)
    requires ':' !in schema
    requires host != [] && ':' !in host && '/' !in host && '?' !in host
    requires ':' !in segment && '?' !in segment
    requires '/' !in tail && '?' !in tail
    ensures var t := schema + SCHEME_END + (host + "/" + segment + ":" + tail);
      ParseAsWritten(t) == Fields(schema, host + "/" + segment, Atoi(tail), "", "", true)
      && ParseFixed(t) == Fields(schema, host, 0, "/" + segment + ":" + tail, "", IsGemini(schema))
  {
    var path := "/" + segment + ":" + tail;
    var rest := host + "/" + segment + ":" + tail;
    SchemeAt(schema, rest);
    ColonEndsHost(schema, host, segment, tail);
    NotInConcat("/", segment, '?');
    NotInConcat("/" + segment, ":", '?');
    NotInConcat("/" + segment + ":", tail, '?');
    Regroup5(host, "/", segment, ":", tail);
    assert host + path + "" == host + path;
    FixedParts(schema, host, path, "");
  }

  lemma ColonEndsHost(schema: string, host: string, segment: string, tail: string)
    requires host != [] && ':' !in host && '/' !in host
    requires ':' !in segment
    requires '/' !in tail && '?' !in tail
    ensures AfterScheme(schema, host + "/" + segment + ":" + tail)
      == Fields(schema, host + "/" + segment, Atoi(tail), "", "", true)
  {
    var h := host + "/" + segment;
    NotInConcat(host, "/", ':');
    NotInConcat(host + "/", segment, ':');
    CutAt(h, ':', tail);
    assert h[0] == host[0];
  }

  /** A `/` in the query ends the host as written: `gemini://foo.bar?a/b`
      yields the host `foo.bar?a` and the path `/b`, while the corrected
      parser keeps `?a/b` as the query. */
  lemma SlashInQueryAsWritten(schema: string, host: string, before: string, after: string)
    requires ':' !in schema
    requires host != [] && ':' !in host && '/' !in host && '?' !in host
    requires ':' !in before && '/' !in before
    requires ':' !in after && '?' !in after
    ensures var t := schema + SCHEME_END + (host + "?" + before + "/" + after);
      ParseAsWritten(t) == Fields(schema, host + "?" + before, 0, "/" + after, "", true)
      && ParseFixed(t) == Fields(schema, host, 0, "", "?" + before + "/" + after, IsGemini(schema))
  {
    var query := "?" + before + "/" + after;
    var rest := host + "?" + before + "/" + after;
    SchemeAt(schema, rest);
    SlashEndsHost(schema, host, before, after);
    Regroup5(host, "?", before, "/", after);
    assert host + "" == host;
    FixedParts(schema, host, "", query);
  }

  lemma SlashEndsHost(schema: string, host: string, before: string, after: string)
    requires host != [] && ':' !in host && '/' !in host && '?' !in host
    requires ':' !in before && '/' !in before
    requires ':' !in after && '?' !in after
    ensures AfterScheme(schema, host + "?" + before + "/" + after)
      == Fields(schema, host + "?" + before, 0, "/" + after, "", true)
  {
    var h := host + "?" + before;
    var rest := h + "/" + after;
    NotInConcat(host, "?", ':');
    NotInConcat(host + "?", before, ':');
    NotInConcat(h, "/", ':');
    IndexOfNone(h + "/", after, ':');
    NotInConcat(host, "?", '/');
    NotInConcat(host + "?", before, '/');
    CutAt(h, '/', after);
    SplitQueryOf("/" + after, "");
    assert "/" + after + "" == "/" + after;
  }

  // ------------------------------------------------------------ corrected

  /** Where the authority ends: at the first `/` or `?`, or at the end
      (section 3.2 of RFC 3986). */
  function AuthorityEnd(rest: string): (e: nat)
    ensures e <= |rest|
    ensures '/' !in rest[..e] && '?' !in rest[..e]
    ensures e < |rest| ==> rest[e] == '/' || rest[e] == '?'
  {
    if rest == [] || rest[0] == '/' || rest[0] == '?' then 0
    else
      var e := 1 + AuthorityEnd(rest[1..]);
      assert rest[..e] == [rest[0]] + rest[1..][..e - 1];
      e
  }

  /** The host and port of an authority: the port follows the first `:`. */
  function HostPort(authority: string): (r: (string, int))
    ensures |r.0| <= |authority| && r.0 == authority[..|r.0|]
    ensures ':' !in r.0
    ensures ':' !in authority ==> r == (authority, 0)
  {
    match Strings.IndexOf(authority, ':')
    case None => (authority, 0)
    case Some(c) => (authority[..c], Atoi(authority[c + 1..]))
  }

  lemma NotInPrefix(s: string, n: nat, c: char)
    requires n <= |s| && c !in s
    ensures c !in s[..n]
  {
    forall i | 0 <= i < n ensures s[..n][i] != c {
      assert s[..n][i] == s[i];
    }
  }

  /** The constructor as intended, after the `://`: the port's `:` is looked
      for in the authority only, the authority ends at its first `/` or `?`,
      and the scheme is always checked. */
  function AfterSchemeFixed(schema: string, rest: string): (r: Fields)
    ensures r.schema == schema
    ensures ':' !in r.host && '/' !in r.host && '?' !in r.host
    ensures r.path == [] || (r.path[0] == '/' && '?' !in r.path)
    ensures r.query == [] || r.query[0] == '?'
    ensures r.valid <==> r.host != [] && IsGemini(schema)
  {
    var e := AuthorityEnd(rest);
    var hp := HostPort(rest[..e]);
    var pq := SplitQuery(rest[e..]);
    NotInPrefix(rest[..e], |hp.0|, '/');
    NotInPrefix(rest[..e], |hp.0|, '?');
    Fields(schema, hp.0, hp.1, pq.0, pq.1, hp.0 != [] && IsGemini(schema))
  }

  /** The corrected parser loses nothing: the authority, the path and the
      query put back together give the text after the `://`. */
  lemma FixedJoins(schema: string, rest: string)
    ensures var r := AfterSchemeFixed(schema, rest);
      rest == rest[..AuthorityEnd(rest)] + r.path + r.query
  {
    var e := AuthorityEnd(rest);
    var pq := SplitQuery(rest[e..]);
    var r := AfterSchemeFixed(schema, rest);
    assert r.path == pq.0 && r.query == pq.1;
    assert pq.0 + pq.1 == rest[e..];
    Strings.Regroup(rest[..e], pq.0, pq.1);
    Strings.Halves(rest, e);
  }

  /** The corrected constructor on the trimmed line. */
  function ParseFixed(t: string): (r: Fields)
    ensures r.valid ==> Strings.Find(t, SCHEME_END).Some?
  {
    match Strings.Find(t, SCHEME_END)
    case None => Fields("", "", 0, "", "", false)
    case Some(p) => AfterSchemeFixed(t[..p], t[p + 3..])
  }

  /** An authority free of `/` and `?` ends where the path or query
      after it begins. */
  lemma {:induction false} AuthorityEndOf(authority: string, tail: string)
    requires '/' !in authority && '?' !in authority
    requires tail == [] || tail[0] == '/' || tail[0] == '?'
    ensures AuthorityEnd(authority + tail) == |authority|
    decreases |authority|
  {
    var rest := authority + tail;
    if authority == [] {
      assert rest == tail;
    } else {
      assert rest[0] == authority[0];
      assert rest[1..] == authority[1..] + tail;
      AuthorityEndOf(authority[1..], tail);
    }
  }

  /** After an authority free of `/` and `?`, a path and a query are taken
      apart as they were put together. */
  lemma FixedAuthority(schema: string, authority: string, path: string, query: string)
    requires '/' !in authority && '?' !in authority
    requires path == [] || (path[0] == '/' && '?' !in path)
    requires query == [] || query[0] == '?'
    ensures var hp := HostPort(authority);
      AfterSchemeFixed(schema, authority + path + query)
        == Fields(schema, hp.0, hp.1, path, query, hp.0 != [] && IsGemini(schema))
  {
    var rest := authority + (path + query);
    assert authority + path + query == rest;
    assert path + query == [] || (path + query)[0] == '/' || (path + query)[0] == '?';
    AuthorityEndOf(authority, path + query);
    assert rest[..|authority|] == authority && rest[|authority|..] == path + query;
    SplitQueryOf(path, query);
  }

  /** A well-formed request without a port parses into its parts. */
  lemma FixedParts(schema: string, host: string, path: string, query: string)
    requires ':' !in host && '/' !in host && '?' !in host
    requires path == [] || (path[0] == '/' && '?' !in path)
    requires query == [] || query[0] == '?'
    ensures AfterSchemeFixed(schema, host + path + query)
      == Fields(schema, host, 0, path, query, host != [] && IsGemini(schema))
  {
    FixedAuthority(schema, host, path, query);
  }

  /** A well-formed request with a decimal port parses into its parts. */
  lemma FixedPortParts(schema: string, host: string, port: nat, path: string, query: string)
    requires ':' !in host && '/' !in host && '?' !in host
    requires path == [] || (path[0] == '/' && '?' !in path)
    requires query == [] || query[0] == '?'
    ensures AfterSchemeFixed(schema, host + ":" + Strings.NatToString(port) + path + query)
      == Fields(schema, host, port, path, query, host != [] && IsGemini(schema))
  {
    var digits := Strings.NatToString(port);
    AtoiDecimal(port, []);
    assert digits + [] == digits;
    DigitsFree(digits);
    var authority := host + ":" + digits;
    NotInConcat(host, ":", '/');
    NotInConcat(host + ":", digits, '/');
    NotInConcat(host, ":", '?');
    NotInConcat(host + ":", digits, '?');
    CutAt(host, ':', digits);
    FixedAuthority(schema, authority, path, query);
  }

  /** On a well-formed `gemini` request whose path and query hold no `:`,
      and whose query holds no `/` when there is no path, the constructor as
      written agrees with the corrected one. */
  lemma AgreeOnGemini(schema: string, host: string, path: string, query: string)
    requires ':' !in schema && IsGemini(schema)
    requires host != [] && ':' !in host && '/' !in host && '?' !in host
    requires path == [] || (path[0] == '/' && '?' !in path)
    requires query == [] || query[0] == '?'
    requires ':' !in path && ':' !in query
    requires path != [] || '/' !in query
    ensures var t := schema + SCHEME_END + (host + path + query);
      ParseAsWritten(t) == ParseFixed(t) == Fields(schema, host, 0, path, query, true)
  {
    var rest := host + path + query;
    SchemeAt(schema, rest);
    AsWrittenNoPort(schema, host, path, query);
    FixedParts(schema, host, path, query);
  }

  // ------------------------------------------------------------ the name

  lemma NameSplits(host: string, port: int, path: string)
    requires ':' !in host && port >= 0
    requires path == [] || path[0] == '/'
    ensures var name := Name(host, port, path);
      var digits := Strings.NatToString(NamedPort(port));
      Strings.IndexOf(name, ':') == Some(|host|)
      && name[..|host|] == host
      && name[|host| + 1..] == digits + path
      && DigitRun(digits + path) == digits
  {
    var digits := Strings.NatToString(NamedPort(port));
    Strings.Regroup(host + ":", digits, path);
    CutAt(host, ':', digits + path);
    DigitRunDigits(digits, path);
  }

  /** `getRequestName` tells requests apart: hosts without `:`, ports that
      are not negative and paths that are empty or start with `/` are named
      alike only when host, named port and path are the same. */
  lemma NameInjective(host: string, port: int, path: string, host': string, port': int, path': string)
    requires ':' !in host && ':' !in host' && port >= 0 && port' >= 0
    requires path == [] || path[0] == '/'
    requires path' == [] || path'[0] == '/'
    requires Name(host, port, path) == Name(host', port', path')
    ensures host == host' && NamedPort(port) == NamedPort(port') && path == path'
  {
    NameSplits(host, port, path);
    NameSplits(host', port', path');
    var digits := Strings.NatToString(NamedPort(port));
    var digits' := Strings.NatToString(NamedPort(port'));
    assert digits + path == digits' + path';
    Strings.NatToStringValue(NamedPort(port));
    Strings.NatToStringValue(NamedPort(port'));
    assert path == (digits + path)[|digits|..];
    assert path' == (digits' + path')[|digits'|..];
  }

  /** A request without a port is named with 1965. */
  lemma NameDefaultPort(host: string, path: string)
    ensures Name(host, 0, path) == host + ":1965" + path
  {
    assert Strings.NatToString(1965) == "1965";
  }

  // ------------------------------------------------------------ contexts

  class ClientContext {
    const manager: ContextManager

    constructor (manager: ContextManager)
      ensures this.manager == manager
    {
      this.manager := manager;
    }

    /** `ClientContext::close`: hands itself back to its manager. */
    method Close() returns (deleted: bool)
      modifies manager
      ensures deleted <==> this in old(manager.contexts)
      ensures manager.contexts == old(manager.contexts) - {this}
    {
      deleted := manager.CloseContext(this);
    }
  }

  /** The contexts a manager owns and deletes. */
  class ContextManager {
    var contexts: set<ClientContext>

    constructor ()
      ensures contexts == {}
    {
      contexts := {};
    }

    /** `_add_context`. */
    method AddContext(ctx: ClientContext)
      modifies this
      ensures contexts == old(contexts) + {ctx}
    {
      contexts := contexts + {ctx};
    }

    /** `_close_context`: a context is deleted only when it was registered,
        and then it is no longer. */
    method CloseContext(ctx: ClientContext) returns (deleted: bool)
      modifies this
      ensures deleted <==> ctx in old(contexts)
      ensures contexts == old(contexts) - {ctx}
    {
      deleted := ctx in contexts;
      if deleted {
        contexts := contexts - {ctx};
      }
    }

    /** `~ContextManager`: deletes every context still registered. */
    method Destroy() returns (deleted: set<ClientContext>)
      ensures deleted == contexts
    {
      deleted := contexts;
    }
  }

  /** A context closed twice is deleted once. */
  method CloseTwice() returns (first: bool, second: bool)
    ensures first && !second
  {
    var manager := new ContextManager();
    var ctx := new ClientContext(manager);
    manager.AddContext(ctx);
    first := ctx.Close();
    second := ctx.Close();
  }
}
