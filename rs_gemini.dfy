// The Rust server's reading of a Gemini request line (src/gemini.rs): the
// text before the first `://` is the protocol, the authority runs to the
// path or the query, the path to the query, and the query to the end of the
// line. Nothing is checked: any text with a `://` parses.
module Gemini {
  import opened Wrappers
  import Strings
  import RustIo

  datatype Request = Request(protocol: string, domain: string, path: string, query: string)

  const CRLF: string := "\r\n"
  const SCHEME_END: string := "://"

  /** `p` begins `s`. */
  predicate Prefix(p: string, s: string) {
    Strings.StartsWith(s, p)
  }

  /** Something that begins the rest of a text, after its first `n`
      characters, extends those characters to something that begins it. */
  lemma PrefixAfter(s: string, n: nat, b: string)
    requires n <= |s| && Prefix(b, s[n..])
    ensures Prefix(s[..n] + b, s)
  {
    assert (s[..n] + b) == s[..n + |b|];
  }

  /** The same for a text that begins with two parts. */
  lemma PrefixAfter2(s: string, n: nat, a: string, b: string)
    requires n <= |s| && Prefix(a + b, s[n..])
    ensures Prefix(s[..n] + a + b, s)
  {
    PrefixAfter(s, n, a + b);
    assert s[..n] + a + b == s[..n] + (a + b);
  }

  /** A text without `pat` in it keeps that so in every prefix. */
  lemma NoneInPrefix(s: string, n: nat, pat: string)
    requires n <= |s| && |pat| > 0
    requires forall j: nat :: j < n ==> !Strings.OccursAt(s, pat, j)
    ensures forall j: nat :: !Strings.OccursAt(s[..n], pat, j)
  {
    forall j: nat | Strings.OccursAt(s[..n], pat, j) ensures false {
      assert s[..n][j..j + |pat|] == s[j..j + |pat|];
      assert Strings.OccursAt(s, pat, j);
    }
  }

  /** A line without line breaks. */
  predicate OneLine(s: string) {
    '\r' !in s && '\n' !in s
  }

  /** `parse_query`: the text up to the first `\r\n`, or when there is none
      up to the first `\n`. */
  function ParseQuery(request: string): (r: string)
    ensures Prefix(r, request)
    ensures forall j: nat :: !Strings.OccursAt(r, CRLF, j)
    ensures r == request || Strings.StartsWith(request[|r|..], CRLF) || request[|r|] == '\n'
    ensures Strings.Find(request, CRLF).None? ==> '\n' !in r
    ensures '\n' !in request ==> r == request
    ensures request != [] && request[0] != '\r' && request[0] != '\n' ==> r != [] && r[0] == request[0]
  {
    match Strings.Find(request, CRLF)
    case Some(n) =>
      NoneInPrefix(request, n, CRLF);
      assert request[n + 1] == request[n..n + 2][1];
      request[..n]
    case None =>
      match Strings.IndexOf(request, '\n')
      case Some(n) =>
        NoneInPrefix(request, n, CRLF);
        request[..n]
      case None => request
  }

  /** A line ended by `\r\n` loses exactly its ending. */
  lemma ParseQueryLine(x: string)
    requires OneLine(x)
    ensures ParseQuery(x + CRLF) == x
  {
    var s := x + CRLF;
    assert Strings.OccursAt(s, CRLF, |x|);
    forall j: nat | j < |x| ensures !Strings.OccursAt(s, CRLF, j) {
      assert s[j] == x[j];
    }
    Strings.FindIs(s, CRLF, |x|);
  }

  /** `parse_path`: the path runs to the first `?`, and the query, which
      keeps its `?`, to the end of the line. Without a `?` the whole line is
      the path. */
  function ParsePath(request: string): (r: (string, string))
    ensures Prefix(r.0 + r.1, request)
    ensures '?' !in r.0
    ensures ('?' in request) <==> (|r.1| > 0 && r.1[0] == '?')
    ensures '?' !in request ==> r.1 == ""
  {
    match Strings.IndexOf(request, '?')
    case Some(n) =>
      var q := ParseQuery(request[n..]);
      assert request[n..][0] == '?';
      PrefixAfter(request, n, q);
      (request[..n], q)
    case None =>
      (ParseQuery(request), "")
  }

  /** A path that starts with `/` keeps it. */
  lemma PathKeepsSlash(request: string)
    requires request != [] && request[0] == '/'
    ensures var r := ParsePath(request); r.0 != [] && r.0[0] == '/'
  {
    var q := Strings.IndexOf(request, '?');
    assert q.Some? ==> q.value != 0;
  }

  /** The authority ends at the `/` at `n`: the path and the query follow. */
  function AtPath(request: string, n: nat): (r: (string, string, string))
    requires n < |request| && request[n] == '/'
    ensures Prefix(r.0 + r.1 + r.2, request)
    ensures r.0 == request[..n]
    ensures |r.1| > 0 && r.1[0] == '/' && '?' !in r.1
    ensures r.2 == "" || r.2[0] == '?'
  {
    var pq := ParsePath(request[n..]);
    PathKeepsSlash(request[n..]);
    PrefixAfter2(request, n, pq.0, pq.1);
    (request[..n], pq.0, pq.1)
  }

  /** The authority ends at the `?` at `n`: there is no path. */
  function AtQuery(request: string, n: nat): (r: (string, string, string))
    requires n < |request| && request[n] == '?'
    ensures Prefix(r.0 + r.1 + r.2, request)
    ensures r.0 == request[..n]
    ensures r.1 == "" && |r.2| > 0 && r.2[0] == '?'
  {
    var query := ParseQuery(request[n..]);
    PrefixAfter(request, n, query);
    assert request[n..][0] == '?';
    (request[..n], "", query)
  }

  /** `parse_domain` as written: the authority runs to the first `/`
      anywhere in the text, even one inside the query. */
  function ParseDomainAsWritten(request: string): (r: (string, string, string))
    ensures Prefix(r.0 + r.1 + r.2, request)
    ensures '/' !in r.0
    ensures r.1 == "" || r.1[0] == '/'
  {
    match Strings.IndexOf(request, '/')
    case Some(n) => AtPath(request, n)
    case None =>
      match Strings.IndexOf(request, '?')
      case Some(n) => AtQuery(request, n)
      case None => (ParseQuery(request), "", "")
  }

  /** `parse_domain` as intended: the authority ends at the first `/` or
      `?`, whichever comes first (section 3.2 of RFC 3986). */
  function ParseDomain(request: string): (r: (string, string, string))
    ensures Prefix(r.0 + r.1 + r.2, request)
    ensures '/' !in r.0 && '?' !in r.0
    ensures r.1 == "" || (r.1[0] == '/' && '?' !in r.1)
    ensures r.2 == "" || r.2[0] == '?'
  {
    var slash := Strings.IndexOf(request, '/');
    if slash.Some? && '?' !in request[..slash.value] then AtPath(request, slash.value)
    else
      match Strings.IndexOf(request, '?')
      case Some(n) =>
        assert slash.Some? ==> n < slash.value;
        AtQuery(request, n)
      case None => (ParseQuery(request), "", "")
  }

  /** A query holding a `/` is taken for part of the authority by the code:
      `host?a/b` yields the authority `host?a` and the path `/b`. */
  lemma SlashInQueryAsWritten()
    ensures ParseDomainAsWritten("host?a/b") == ("host?a", "/b", "")
  {
    assert "host?a/b" == "host?a" + "/b";
    AsWrittenAtSlash("host?a", "/b");
  }

  /** The code ends the authority at the first `/`, whatever precedes it. */
  lemma AsWrittenAtSlash(d: string, p: string)
    requires '/' !in d && p != [] && p[0] == '/' && '?' !in p && OneLine(p)
    ensures ParseDomainAsWritten(d + p) == (d, p, "")
  {
    var s := d + p;
    assert s[..|d|] == d && s[|d|..] == p;
    Strings.IndexOfIs(s, '/', |d|);
  }

  /** The corrected parser keeps that query whole. */
  lemma SlashInQueryFixed()
    ensures ParseDomain("host?a/b") == ("host", "", "?a/b")
  {
    assert "host?a/b" == "host" + "?a/b";
    FixedAtQuery("host", "?a/b");
  }

  /** An authority followed by a query: the query is kept whole, `/` and
      all. */
  lemma FixedAtQuery(h: string, q: string)
    requires '/' !in h && '?' !in h && q != [] && q[0] == '?' && OneLine(q)
    ensures ParseDomain(h + q) == (h, "", q)
  {
    var s := h + q;
    assert s[..|h|] == h && s[|h|..] == q;
    Strings.IndexOfIs(s, '?', |h|);
    var slash := Strings.IndexOf(s, '/');
    assert slash.Some? ==> slash.value > |h| && s[..slash.value][|h|] == '?';
  }

  function Err(): RustIo.IoError {
    RustIo.IoError(RustIo.InvalidData, "")
  }

  /** `Request::parse` (through `parse_request`), as written: the protocol
      is the text before the first `://`; it fails with `InvalidData`
      exactly when there is no `://`; the authority runs to the first `/`
      anywhere after it; and whatever it yields renders back to a prefix of
      the line. */
  function Parse(request: string): (r: Result<Request, RustIo.IoError>)
    ensures r.Err? <==> forall j: nat :: !Strings.OccursAt(request, SCHEME_END, j)
    ensures r.Err? ==> r.error.kind == RustIo.InvalidData
    ensures r.Ok? ==> forall j: nat :: !Strings.OccursAt(r.value.protocol, SCHEME_END, j)
    ensures r.Ok? ==> Prefix(Render(r.value), request)
    ensures r.Ok? ==> '/' !in r.value.domain
    ensures r.Ok? ==> r.value.path == "" || r.value.path[0] == '/'
  {
    match Strings.Find(request, SCHEME_END)
    case Some(n) => Ok(ParseAfter(request, n, false))
    case None => Result.Err(Err())
  }

  /** `Request::parse` with the corrected `parse_domain`: the same, except
      that the authority also stops at a `?`. */
  function ParseCorrected(request: string): (r: Result<Request, RustIo.IoError>)
    ensures r.Err? <==> forall j: nat :: !Strings.OccursAt(request, SCHEME_END, j)
    ensures r.Err? ==> r.error.kind == RustIo.InvalidData
    ensures r.Ok? ==> forall j: nat :: !Strings.OccursAt(r.value.protocol, SCHEME_END, j)
    ensures r.Ok? ==> Prefix(Render(r.value), request)
    ensures r.Ok? ==> '/' !in r.value.domain && '?' !in r.value.domain
    ensures r.Ok? ==> r.value.path == "" || (r.value.path[0] == '/' && '?' !in r.value.path)
  {
    match Strings.Find(request, SCHEME_END)
    case Some(n) => Ok(ParseAfter(request, n, true))
    case None => Result.Err(Err())
  }

  /** The authority, path and query of `t`, as written or corrected. */
  function SplitDomain(t: string, fixed: bool): (string, string, string) {
    if fixed then ParseDomain(t) else ParseDomainAsWritten(t)
  }

  /** The request whose first `://` is at `n`. */
  function ParseAfter(request: string, n: nat, fixed: bool): (r: Request)
    requires Strings.OccursAt(request, SCHEME_END, n)
    requires forall j: nat :: j < n ==> !Strings.OccursAt(request, SCHEME_END, j)
    ensures forall j: nat :: !Strings.OccursAt(r.protocol, SCHEME_END, j)
    ensures r.protocol == request[..n]
    ensures Prefix(Render(r), request)
    ensures '/' !in r.domain && (r.path == "" || r.path[0] == '/')
    ensures fixed ==> '?' !in r.domain && (r.path == "" || '?' !in r.path)
  {
    var dpq := SplitDomain(request[n + 3..], fixed);
    NoneInPrefix(request, n, SCHEME_END);
    SchemePrefix(request, n, dpq.0, dpq.1, dpq.2);
    Request(request[..n], dpq.0, dpq.1, dpq.2)
  }

  /** The protocol, `://` and three parts that begin the rest of the text
      begin the text. */
  lemma SchemePrefix(request: string, n: nat, a: string, b: string, c: string)
    requires Strings.OccursAt(request, SCHEME_END, n)
    requires Prefix(a + b + c, request[n + 3..])
    ensures Prefix(request[..n] + SCHEME_END + a + b + c, request)
  {
    PrefixAfter(request, n + 3, a + b + c);
    assert request[..n + 3] == request[..n] + SCHEME_END;
    assert request[..n] + SCHEME_END + a + b + c == request[..n + 3] + (a + b + c);
  }

  /** The `Debug` rendering `protocol://domainpathquery`. */
  function Render(r: Request): string {
    r.protocol + SCHEME_END + r.domain + r.path + r.query
  }

  /** One line read off the wire (a request that holds `://` and ends with
      `\r\n`) parses, as written and corrected, and renders back to itself
      without the line ending. */
  lemma RenderParse(x: string)
    requires OneLine(x)
    requires exists j: nat :: Strings.OccursAt(x, SCHEME_END, j)
    ensures Parse(x + CRLF).Ok? && Render(Parse(x + CRLF).value) == x
    ensures ParseCorrected(x + CRLF).Ok? && Render(ParseCorrected(x + CRLF).value) == x
  {
    var s := x + CRLF;
    var j: nat :| Strings.OccursAt(x, SCHEME_END, j);
    assert Strings.OccursAt(s, SCHEME_END, j) by {
      assert s[j..j + 3] == x[j..j + 3];
    }
    var n := Strings.Find(s, SCHEME_END).value;
    assert n <= j;
    RenderParseAt(x, n, false);
    RenderParseAt(x, n, true);
  }

  lemma RenderParseAt(x: string, n: nat, fixed: bool)
    requires OneLine(x) && n + 3 <= |x|
    requires Strings.Find(x + CRLF, SCHEME_END) == Some(n)
    ensures Render(ParseAfter(x + CRLF, n, fixed)) == x
  {
    var tail := x[n + 3..];
    ParseAfterLine(x, n, fixed);
    DomainLine(tail);
    SchemeSplit(x, n);
    RenderParts(ParseAfter(x + CRLF, n, fixed), x[..n], tail);
  }

  /** The request whose `://` is at `n` in a line ended by `\r\n`. */
  lemma ParseAfterLine(x: string, n: nat, fixed: bool)
    requires n + 3 <= |x|
    requires Strings.Find(x + CRLF, SCHEME_END) == Some(n)
    ensures var dpq := SplitDomain(x[n + 3..] + CRLF, fixed);
            ParseAfter(x + CRLF, n, fixed) == Request(x[..n], dpq.0, dpq.1, dpq.2)
  {
    var s := x + CRLF;
    assert s[n + 3..] == x[n + 3..] + CRLF;
    assert s[..n] == x[..n];
  }

  /** The `://` at `n` splits the line into the protocol and the rest. */
  lemma SchemeSplit(x: string, n: nat)
    requires n + 3 <= |x| && Strings.OccursAt(x + CRLF, SCHEME_END, n)
    ensures x == x[..n] + SCHEME_END + x[n + 3..]
  {
    assert (x + CRLF)[n..n + 3] == x[n..n + 3];
    assert x == x[..n] + x[n..n + 3] + x[n + 3..];
  }

  lemma RenderParts(r: Request, protocol: string, rest: string)
    requires r.protocol == protocol && r.domain + r.path + r.query == rest
    ensures Render(r) == protocol + SCHEME_END + rest
  {
    assert Render(r) == protocol + SCHEME_END + (r.domain + r.path + r.query);
  }

  /** The authority, path and query of one line, put back together, give
      the line without its ending, as written and corrected. */
  lemma DomainLine(x: string)
    requires OneLine(x)
    ensures var r := ParseDomain(x + CRLF); r.0 + r.1 + r.2 == x
    ensures var r := ParseDomainAsWritten(x + CRLF); r.0 + r.1 + r.2 == x
  {
    var s := x + CRLF;
    var slash := Strings.IndexOf(s, '/');
    if slash.Some? {
      AtPathLine(x, slash.value);
    }
    match Strings.IndexOf(s, '?')
    case Some(n) => AtQueryLine(x, n);
    case None => ParseQueryLine(x);
  }

  /** A line whose authority ends at the `/` at `n`. */
  lemma AtPathLine(x: string, n: nat)
    requires OneLine(x) && n < |x + CRLF| && (x + CRLF)[n] == '/'
    ensures var r := AtPath(x + CRLF, n); r.0 + r.1 + r.2 == x
  {
    assert n < |x|;
    LineCut(x, n);
    PathLine(x[n..]);
    var pq := ParsePath(x[n..] + CRLF);
    Rejoin(x, n, pq.0, pq.1);
  }

  /** Cutting a line ended by `\r\n` inside the line. */
  lemma LineCut(x: string, n: nat)
    requires n <= |x|
    ensures (x + CRLF)[n..] == x[n..] + CRLF && (x + CRLF)[..n] == x[..n]
  {
  }

  /** The text before `n` and two parts that make up the rest. */
  lemma Rejoin(x: string, n: nat, a: string, b: string)
    requires n <= |x| && a + b == x[n..]
    ensures x[..n] + a + b == x
  {
    assert x[..n] + a + b == x[..n] + (a + b);
    assert x[..n] + x[n..] == x;
  }

  /** A line whose authority ends at the `?` at `n`. */
  lemma AtQueryLine(x: string, n: nat)
    requires OneLine(x) && n < |x + CRLF| && (x + CRLF)[n] == '?'
    ensures var r := AtQuery(x + CRLF, n); r.0 + r.1 + r.2 == x
  {
    var s := x + CRLF;
    assert n < |x|;
    var rest := x[n..];
    assert s[n..] == rest + CRLF;
    ParseQueryLine(rest);
    assert s[..n] == x[..n];
    var r := AtQuery(s, n);
    assert r == (x[..n], "", rest);
    assert x[..n] + "" + rest == x;
  }

  lemma PathLine(x: string)
    requires OneLine(x)
    ensures var r := ParsePath(x + CRLF); r.0 + r.1 == x
  {
    var s := x + CRLF;
    match Strings.IndexOf(s, '?')
    case Some(n) =>
      assert s[n..] == x[n..] + CRLF;
      ParseQueryLine(x[n..]);
      assert x == x[..n] + x[n..];
    case None =>
      ParseQueryLine(x);
  }

  /** The two splits agree unless a `?` comes before the first `/`. */
  lemma SplitsAgree(t: string)
    requires var slash := Strings.IndexOf(t, '/');
      slash.None? || '?' !in t[..slash.value]
    ensures ParseDomainAsWritten(t) == ParseDomain(t)
  {
  }

  /** A well-formed line is split alike as written and corrected. */
  lemma WellFormedAgree(domain: string, path: string, query: string)
    requires '/' !in domain
    requires path == "" || path[0] == '/'
    requires path == "" ==> '/' !in query
    requires path != "" ==> '?' !in domain
    ensures var t := domain + path + query + CRLF;
      ParseDomainAsWritten(t) == ParseDomain(t)
  {
    var t := domain + path + query + CRLF;
    if path == "" {
      assert t == domain + query + CRLF;
      assert '/' !in t;
    } else {
      assert t == domain + (path + query + CRLF);
      Strings.IndexOfIs(t, '/', |domain|);
      assert t[..|domain|] == domain;
    }
    SplitsAgree(t);
  }

  /** `test_request` (src/gemini.rs:101-108). */
  lemma TestRequestQuery()
    ensures Parse("gemini://localhost/?asdf\r\n") == Ok(Request("gemini", "localhost", "/", "?asdf"))
  {
    assert "gemini://localhost/?asdf\r\n" == "gemini" + SCHEME_END + "localhost" + "/" + "?asdf" + CRLF;
    TestRequest("gemini", "localhost", "/", "?asdf");
  }

  /** `test_request_no_query` (src/gemini.rs:110-117). */
  lemma TestRequestNoQuery()
    ensures Parse("gemini://localhost/\r\n") == Ok(Request("gemini", "localhost", "/", ""))
  {
    assert "gemini://localhost/\r\n" == "gemini" + SCHEME_END + "localhost" + "/" + "" + CRLF;
    TestRequest("gemini", "localhost", "/", "");
  }

  /** `test_request_no_path` (src/gemini.rs:119-126). */
  lemma TestRequestNoPath()
    ensures Parse("gemini://localhost?asdf\r\n") == Ok(Request("gemini", "localhost", "", "?asdf"))
  {
    assert "gemini://localhost?asdf\r\n" == "gemini" + SCHEME_END + "localhost" + "" + "?asdf" + CRLF;
    TestRequest("gemini", "localhost", "", "?asdf");
  }

  /** `test_request_domain_only` (src/gemini.rs:128-135). */
  lemma TestRequestDomainOnly()
    ensures Parse("gemini://localhost\r\n") == Ok(Request("gemini", "localhost", "", ""))
  {
    assert "gemini://localhost\r\n" == "gemini" + SCHEME_END + "localhost" + "" + "" + CRLF;
    TestRequest("gemini", "localhost", "", "");
  }

  /** `test_request_bad` (src/gemini.rs:137-140): one slash is not enough. */
  lemma TestRequestBad()
    ensures Parse("gemini:/localhost\r\n").Err?
  {
    var bad := "gemini:/localhost\r\n";
    var tail := "/localhost\r\n";
    assert bad == "gemini" + ":" + tail;
    assert ':' !in "gemini" && ':' !in tail;
    assert forall i :: 0 <= i < |bad| && bad[i] == ':' ==> i == 6;
    assert bad[8] != '/';
    forall j: nat | j + 3 <= |bad| ensures !Strings.OccursAt(bad, SCHEME_END, j) {
      assert bad[j..j + 3][0] == bad[j] && bad[j..j + 3][2] == bad[j + 2];
    }
  }

  /** A whole request line whose query holds a `/` and that has no path:
      the code moves the query's tail into the authority and the path. */
  lemma ParseSlashInQuery()
    ensures Parse("gemini://host?a/b\r\n") == Ok(Request("gemini", "host?a", "/b", ""))
  {
    assert "gemini://host?a/b\r\n" == "gemini" + SCHEME_END + "host?a" + "/b" + CRLF;
    ParseAtSlash("gemini", "host?a", "/b");
  }

  /** The corrected parser keeps `?a/b` as the query of that line. */
  lemma ParseCorrectedSlashInQuery()
    ensures ParseCorrected("gemini://host?a/b\r\n") == Ok(Request("gemini", "host", "", "?a/b"))
  {
    assert "gemini://host?a/b\r\n" == "gemini" + SCHEME_END + "host" + "?a/b" + CRLF;
    ParseCorrectedAtQuery("gemini", "host", "?a/b");
  }

  /** As written, the first `/` after the `://` ends the authority. */
  lemma ParseAtSlash(protocol: string, d: string, p: string)
    requires ':' !in protocol && '/' !in d
    requires p != [] && p[0] == '/' && '?' !in p && OneLine(p)
    ensures Parse(protocol + SCHEME_END + d + p + CRLF) == Ok(Request(protocol, d, p, ""))
  {
    var rest := d + p + CRLF;
    assert protocol + SCHEME_END + d + p + CRLF == protocol + SCHEME_END + rest;
    AsWrittenAtSlashLine(d, p);
    ParseProtocol(protocol + SCHEME_END + rest, protocol, rest);
  }

  /** Corrected, an authority followed by a query keeps the query whole. */
  lemma ParseCorrectedAtQuery(protocol: string, h: string, q: string)
    requires ':' !in protocol && '/' !in h && '?' !in h
    requires q != [] && q[0] == '?' && OneLine(q)
    ensures ParseCorrected(protocol + SCHEME_END + h + q + CRLF) == Ok(Request(protocol, h, "", q))
  {
    var rest := h + q + CRLF;
    assert protocol + SCHEME_END + h + q + CRLF == protocol + SCHEME_END + rest;
    FixedAtQueryLine(h, q);
    ParseProtocol(protocol + SCHEME_END + rest, protocol, rest);
  }

  /** A line whose first `/` ends the authority, as written. */
  lemma AsWrittenAtSlashLine(d: string, p: string)
    requires '/' !in d && p != [] && p[0] == '/' && '?' !in p && OneLine(p)
    ensures ParseDomainAsWritten(d + p + CRLF) == (d, p, "")
  {
    var s := d + p + CRLF;
    assert s[..|d|] == d && s[|d|..] == p + CRLF;
    Strings.IndexOfIs(s, '/', |d|);
    assert '?' !in p + CRLF;
    ParseQueryLine(p);
  }

  /** A line whose authority is followed by a query, corrected. */
  lemma FixedAtQueryLine(h: string, q: string)
    requires '/' !in h && '?' !in h && q != [] && q[0] == '?' && OneLine(q)
    ensures ParseDomain(h + q + CRLF) == (h, "", q)
  {
    var s := h + q + CRLF;
    assert s[..|h|] == h && s[|h|..] == q + CRLF;
    Strings.IndexOfIs(s, '?', |h|);
    var slash := Strings.IndexOf(s, '/');
    assert slash.Some? ==> slash.value > |h| && s[..slash.value][|h|] == '?';
    ParseQueryLine(q);
  }

  /** A protocol without `:` is cut off at the `://` that follows it. */
  lemma ParseProtocol(s: string, protocol: string, rest: string)
    requires ':' !in protocol && s == protocol + SCHEME_END + rest
    ensures var dpq := ParseDomainAsWritten(rest);
      Parse(s) == Ok(Request(protocol, dpq.0, dpq.1, dpq.2))
    ensures var dpq := ParseDomain(rest);
      ParseCorrected(s) == Ok(Request(protocol, dpq.0, dpq.1, dpq.2))
  {
    var n := |protocol|;
    assert Strings.Find(s, SCHEME_END) == Some(n) by {
      assert s[n..n + 3] == SCHEME_END;
      forall j: nat | j < n ensures !Strings.OccursAt(s, SCHEME_END, j) {
        assert s[j] == protocol[j];
      }
      Strings.FindIs(s, SCHEME_END, n);
    }
    assert s[..n] == protocol && s[n + 3..] == rest;
  }

  /** A well-formed request line parses into its parts, as written and
      corrected, provided a query with no path before it holds no `/`. */
  lemma TestRequest(protocol: string, domain: string, path: string, query: string)
    requires OneLine(domain + path + query)
    requires ':' !in protocol
    requires '/' !in domain && '?' !in domain
    requires path == "" || (path[0] == '/' && '?' !in path)
    requires query == "" || query[0] == '?'
    requires path == "" ==> '/' !in query
    ensures Parse(protocol + SCHEME_END + domain + path + query + CRLF)
      == Ok(Request(protocol, domain, path, query))
    ensures ParseCorrected(protocol + SCHEME_END + domain + path + query + CRLF)
      == Ok(Request(protocol, domain, path, query))
  {
    var rest := domain + path + query;
    var line := protocol + SCHEME_END + domain + path + query + CRLF;
    assert line == protocol + SCHEME_END + (rest + CRLF);
    assert ParseDomain(rest + CRLF) == (domain, path, query) by {
      DomainLine(rest);
      var dpq := ParseDomain(rest + CRLF);
      SplitAuthority(domain, path, query, dpq.0, dpq.1, dpq.2);
    }
    WellFormedAgree(domain, path, query);
    ParseProtocol(line, protocol, rest + CRLF);
  }

  /** Where a `/` or a `?` may end the authority. */
  const AUTHORITY_STOPS: set<char> := {'/', '?'}

  /** The position of the first character of `t` in `stops`, or `|t|`. */
  function FirstOf(t: string, stops: set<char>): (k: nat)
    ensures k <= |t|
  {
    if t == [] || t[0] in stops then 0 else 1 + FirstOf(t[1..], stops)
  }

  /** A part free of `stops` followed by one that starts with a stop, or is
      empty, ends where the first stop is. */
  lemma {:induction false} FirstOfSplit(a: string, b: string, stops: set<char>)
    requires forall i :: 0 <= i < |a| ==> a[i] !in stops
    requires b == "" || b[0] in stops
    ensures FirstOf(a + b, stops) == |a|
    decreases |a|
  {
    if a == [] {
      assert a + b == b;
    } else {
      assert (a + b)[1..] == a[1..] + b;
      FirstOfSplit(a[1..], b, stops);
    }
  }

  /** So two such splits of one text are the same split. */
  lemma SplitUnique(a: string, b: string, a': string, b': string, stops: set<char>)
    requires a + b == a' + b'
    requires forall i :: 0 <= i < |a| ==> a[i] !in stops
    requires forall i :: 0 <= i < |a'| ==> a'[i] !in stops
    requires b == "" || b[0] in stops
    requires b' == "" || b'[0] in stops
    ensures a == a' && b == b'
  {
    FirstOfSplit(a, b, stops);
    FirstOfSplit(a', b', stops);
    var t := a + b;
    assert a == t[..|a|] && b == t[|a|..];
    assert a' == t[..|a'|] && b' == t[|a'|..];
  }

  /** An authority free of `/` and `?` followed by a path and a query is cut
      back into the same three parts. */
  lemma SplitAuthority(d: string, p: string, q: string, d': string, p': string, q': string)
    requires '/' !in d && '?' !in d && '/' !in d' && '?' !in d'
    requires p == "" || (p[0] == '/' && '?' !in p)
    requires q == "" || q[0] == '?'
    requires p' == "" || (p'[0] == '/' && '?' !in p')
    requires q' == "" || q'[0] == '?'
    requires d + p + q == d' + p' + q'
    ensures d == d' && p == p' && q == q'
  {
    assert p + q == "" || (p + q)[0] in AUTHORITY_STOPS;
    assert p' + q' == "" || (p' + q')[0] in AUTHORITY_STOPS;
    assert d + p + q == d + (p + q) && d' + p' + q' == d' + (p' + q');
    SplitUnique(d, p + q, d', p' + q', AUTHORITY_STOPS);
    SplitUnique(p, q, p', q', {'?'});
  }
}
