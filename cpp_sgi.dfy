// The line-oriented gateway protocol the C server speaks to its WSGI and
// GSGI children, which both gateway files implement with the same code:
// the request record written to the child, the response header lines read
// back, the response body read up to a NUL, and the GSGI request
// bookkeeping (request ids, their hash, and the setup counter). The
// streams are character sequences: a read past the end is EOF.
module CppSgi {
  import opened Wrappers
  import opened CStrings
  import Strings
  import CppContext

  // ------------------------------------------------------------ request

  /** The record `send_request` writes: four `key: value` lines and an
      empty line. */
  function SendRequest(id: int, ip: string, port: int, request: string): string
  {
    "id: " + Strings.IntToString(id) + "\nip: " + ip + "\nport: " + Strings.IntToString(port)
      + "\nrequest: " + request + "\n\n"
  }

  /** The lines of the record, the last two empty. */
  function RecordLines(id: int, ip: string, port: int, request: string): seq<string> {
    ["id: " + Strings.IntToString(id), "ip: " + ip, "port: " + Strings.IntToString(port),
     "request: " + request, "", ""]
  }

  // ------------------------------------------------------------- headers

  /** The response header fields; `memset` starts them all at zero. */
  datatype Response = Response(id: int, response: int, meta: string, cacheTime: int, size: int)

  const Blank: Response := Response(0, 0, "", 0, 0)

  /** `meta` is a `char[1025]`: 1024 characters and the terminator. */
  const META_CAPACITY: nat := 1024

  /** `_apply_header`: the field `key` names takes the value (numbers
      through `atoi`); any other key changes nothing. */
  function ApplyHeader(r: Response, key: string, value: string): (o: Response)
    requires key == "meta" ==> |value| <= META_CAPACITY
    ensures key != "id" ==> o.id == r.id
    ensures key != "response" ==> o.response == r.response
    ensures key != "meta" ==> o.meta == r.meta
    ensures key != "cache-time" ==> o.cacheTime == r.cacheTime
    ensures key != "size" ==> o.size == r.size
    ensures |o.meta| <= META_CAPACITY || o.meta == r.meta
  {
    if key == "id" then r.(id := CppContext.Atoi(value))
    else if key == "response" then r.(response := CppContext.Atoi(value))
    else if key == "meta" then r.(meta := value)
    else if key == "cache-time" then r.(cacheTime := CppContext.Atoi(value))
    else if key == "size" then r.(size := CppContext.Atoi(value))
    else r
  }

  /** A header line's stripped, lower-cased key and stripped value. */
  datatype Entry = Entry(key: string, value: string)

  /** A line split at its first `:`, which must not be the first
      character; any other line is not a header. */
  function Header(line: string): (h: Option<Entry>)
    ensures h.None? <==> ':' !in line || line[0] == ':'
    ensures h.Some? ==> ':' !in h.value.key
  {
    match Strings.IndexOf(line, ':')
    case None => None
    case Some(p) =>
      if p == 0 then None
      else
        NoColonKey(line[..p]);
        Some(Entry(Strings.Lower(Strings.Trim(line[..p])), Strings.Trim(line[p + 1..])))
  }

  /** Trimming and lower-casing bring in no `:`. */
  lemma NoColonKey(s: string)
    requires ':' !in s
    ensures ':' !in Strings.Lower(Strings.Trim(s))
  {
    var t := Strings.Trim(s);
    var u := Strings.TrimStart(s);
    assert t == u[..|t|] && u == s[|s| - |u|..];
    assert forall i :: 0 <= i < |t| ==> t[i] == s[|s| - |u| + i];
    forall i | 0 <= i < |t|
      ensures Strings.Lower(t)[i] != ':'
    {
      assert t[i] in s;
    }
  }

  /** Every line's header, in order. */
  function Headers(lines: seq<string>): (hs: seq<Option<Entry>>)
    ensures |hs| == |lines|
    ensures forall i {:trigger hs[i]} :: 0 <= i < |lines| ==> hs[i] == Header(lines[i])
  {
    seq(|lines|, i requires 0 <= i < |lines| => Header(lines[i]))
  }

  /** A `meta` value fits the field. */
  predicate Fits(h: Option<Entry>) {
    h.None? || h.value.key != "meta" || |h.value.value| <= META_CAPACITY
  }

  predicate AllFit(hs: seq<Option<Entry>>) {
    forall i :: 0 <= i < |hs| ==> Fits(hs[i])
  }

  /** One line's effect: a header is applied, anything else is skipped. */
  function Apply(r: Response, h: Option<Entry>): (o: Response)
    requires Fits(h)
    ensures h.None? ==> o == r
  {
    match h
    case None => r
    case Some(e) => ApplyHeader(r, e.key, e.value)
  }

  /** The header lines: everything before the first empty line. */
  function Head(lines: seq<string>): (h: seq<string>)
    ensures |h| <= |lines| && h == lines[..|h|] && "" !in h
    ensures |h| == |lines| || lines[|h|] == ""
  {
    if lines == [] || lines[0] == "" then []
    else
      var rest := Head(lines[1..]);
      assert [lines[0]] + lines[1..][..|rest|] == lines[..|rest| + 1];
      [lines[0]] + rest
  }

  /** The headers applied in order to `r`. */
  function Fold(r: Response, hs: seq<Option<Entry>>): Response
    requires AllFit(hs)
    decreases |hs|
  {
    if hs == [] then r else Fold(Apply(r, hs[0]), hs[1..])
  }

  /** `parse_response` over the lines of the child's output: from all
      fields zero, each header line is applied in turn, up to the first
      empty line. */
  method ParseResponse(lines: seq<string>) returns (r: Response)
    requires AllFit(Headers(Head(lines)))
    ensures r == Fold(Blank, Headers(Head(lines)))
  {
    r := Blank;
    ghost var hs := Headers(Head(lines));
    var i := 0;
    while i < |lines| && lines[i] != ""
      invariant i <= |hs| && Fold(Blank, hs) == Fold(r, hs[i..])
    {
      assert hs[i..][1..] == hs[i + 1..] && hs[i..][0] == hs[i] == Header(lines[i]);
      r := Apply(r, Header(lines[i]));
      i := i + 1;
    }
    assert i == |hs|;
  }

  /** Headers applied one batch after another. */
  lemma {:induction false} FoldAppend(r: Response, a: seq<Option<Entry>>, b: seq<Option<Entry>>)
    requires AllFit(a) && AllFit(b)
    ensures AllFit(a + b)
    ensures Fold(r, a + b) == Fold(Fold(r, a), b)
    decreases |a|
  {
    assert AllFit(a + b) by {
      assert forall i :: 0 <= i < |a + b| ==> (a + b)[i] == if i < |a| then a[i] else b[i - |a|];
    }
    if a == [] {
      assert a + b == b;
    } else {
      assert (a + b)[1..] == a[1..] + b && (a + b)[0] == a[0];
      FoldAppend(Apply(r, a[0]), a[1..], b);
    }
  }

  /** The key a header names; empty for a line that is not one. */
  function KeyOf(h: Option<Entry>): string {
    if h.None? then "" else h.value.key
  }

  /** A field no header names keeps its value: with `Blank`, a header the
      child did not send stays zero or empty. */
  lemma {:induction false} Untouched(r: Response, hs: seq<Option<Entry>>)
    requires AllFit(hs)
    ensures (forall i :: 0 <= i < |hs| ==> KeyOf(hs[i]) != "id") ==> Fold(r, hs).id == r.id
    ensures (forall i :: 0 <= i < |hs| ==> KeyOf(hs[i]) != "response") ==> Fold(r, hs).response == r.response
    ensures (forall i :: 0 <= i < |hs| ==> KeyOf(hs[i]) != "meta") ==> Fold(r, hs).meta == r.meta
    ensures (forall i :: 0 <= i < |hs| ==> KeyOf(hs[i]) != "cache-time") ==> Fold(r, hs).cacheTime == r.cacheTime
    ensures (forall i :: 0 <= i < |hs| ==> KeyOf(hs[i]) != "size") ==> Fold(r, hs).size == r.size
    decreases |hs|
  {
    if hs != [] {
      Untouched(Apply(r, hs[0]), hs[1..]);
      assert forall i :: 0 <= i < |hs[1..]| ==> hs[1..][i] == hs[i + 1];
    }
  }

  /** A line that is no header, or a header of none of the five fields. */
  predicate Inert(h: Option<Entry>) {
    var k := KeyOf(h);
    k != "id" && k != "response" && k != "meta" && k != "cache-time" && k != "size"
  }

  /** Lines that name none of the fields leave the response as it is. */
  lemma {:induction false} FoldInert(r: Response, hs: seq<Option<Entry>>)
    requires forall i :: 0 <= i < |hs| ==> Inert(hs[i])
    ensures AllFit(hs) && Fold(r, hs) == r
    decreases |hs|
  {
    if hs != [] {
      assert forall i :: 0 <= i < |hs[1..]| ==> hs[1..][i] == hs[i + 1];
      FoldInert(r, hs[1..]);
      assert Apply(r, hs[0]) == r;
    }
  }

  /** A line without `:`, or starting with one, leaves the response as it
      is, wherever it appears among the header lines. */
  lemma NotHeaders(r: Response, before: seq<Option<Entry>>, line: string, after: seq<Option<Entry>>)
    requires AllFit(before) && AllFit(after)
    requires ':' !in line || (line != [] && line[0] == ':')
    ensures AllFit(before + [Header(line)] + after)
    ensures Fold(r, before + [Header(line)] + after) == Fold(r, before + after)
  {
    var skip := [Header(line)] + after;
    assert skip[1..] == after && skip[0] == None;
    assert AllFit(skip) by {
      assert forall i :: 1 <= i < |skip| ==> skip[i] == after[i - 1];
    }
    FoldAppend(r, before, skip);
    assert before + [Header(line)] + after == before + skip;
    FoldAppend(r, before, after);
  }

  /** Text whose ends are not white space is its own stripped form. */
  lemma TrimIdentity(s: string)
    requires s != [] && !Strings.IsSpace(s[0]) && !Strings.IsSpace(s[|s| - 1])
    ensures Strings.Trim(s) == s
  {
  }

  lemma TrimLead(s: string)
    requires s != [] && !Strings.IsSpace(s[0]) && !Strings.IsSpace(s[|s| - 1])
    ensures Strings.Trim(" " + s) == s
  {
    assert (" " + s)[1..] == s;
  }

  /** `atoi` reads back the decimal form of any number. */
  lemma AtoiInt(n: int)
    ensures CppContext.Atoi(Strings.IntToString(n)) == n
  {
    if n < 0 {
      AtoiNegative(n);
    } else {
      var d := Strings.NatToString(n);
      var none: string := [];
      assert d + none == d;
      CppContext.AtoiDecimal(n, none);
      assert CppContext.Atoi(d) == n;
      assert Strings.IntToString(n) == d;
      assert CppContext.Atoi(Strings.IntToString(n)) == n;
    }
  }

  lemma AtoiNegative(n: int)
    requires n < 0
    ensures CppContext.Atoi(Strings.IntToString(n)) == n
  {
    var m := -n;
    var d := Strings.NatToString(m);
    var s := "-" + d;
    assert Strings.IntToString(n) == s;
    assert d + [] == d;
    CppContext.DigitRunDigits(d, []);
    Strings.NatToStringValue(m);
    assert s[0] == '-' && s[1..] == d;
    assert Strings.TrimStart(s) == s;
  }

  /** The `id: N` line of the record reads back as `N`. */
  lemma IdLine(r: Response, id: int)
    ensures Header("id: " + Strings.IntToString(id)) == Some(Entry("id", Strings.IntToString(id)))
    ensures Apply(r, Header("id: " + Strings.IntToString(id))) == r.(id := id)
  {
    IdHeader(id);
    AtoiInt(id);
  }

  lemma IdHeader(id: int)
    ensures Header("id: " + Strings.IntToString(id)) == Some(Entry("id", Strings.IntToString(id)))
  {
    var d := Strings.IntToString(id);
    KeyedLine("id", d, "id: " + d);
    NumberTrim(id);
  }

  /** A line made of the plain word `w`, `: ` and a value. */
  lemma KeyedLine(w: string, value: string, line: string)
    requires w != [] && forall i :: 0 <= i < |w| ==> 'a' <= w[i] <= 'z'
    requires line == w + ": " + value
    ensures Header(line) == Some(Entry(w, Strings.Trim(" " + value)))
  {
    assert line[..|w|] == w && line[|w|] == ':' && line[|w| + 1..] == " " + value;
    WordKey(w, line);
  }

  /** A number's decimal form keeps nothing to strip after a space. */
  lemma NumberTrim(n: int)
    ensures Strings.Trim(" " + Strings.IntToString(n)) == Strings.IntToString(n)
  {
    var d := Strings.IntToString(n);
    assert !Strings.IsSpace(d[|d| - 1]) && !Strings.IsSpace(d[0]) by {
      if n < 0 {
        assert d[1..] == Strings.NatToString(-n);
      }
    }
    TrimLead(d);
  }

  /** A line that starts with the plain word `w` and a `:`: the word is
      its key. */
  lemma WordKey(w: string, line: string)
    requires w != [] && forall i :: 0 <= i < |w| ==> 'a' <= w[i] <= 'z'
    requires |w| < |line| && line[..|w|] == w && line[|w|] == ':'
    ensures Header(line) == Some(Entry(w, Strings.Trim(line[|w| + 1..])))
  {
    Strings.IndexOfIs(line, ':', |w|);
    PlainWord(w);
    HeaderAt(line, |w|);
  }

  /** A line whose first `:` is at `p > 0`. */
  lemma HeaderAt(line: string, p: nat)
    requires Strings.IndexOf(line, ':') == Some(p) && p > 0
    ensures Header(line) == Some(Entry(Strings.Lower(Strings.Trim(line[..p])), Strings.Trim(line[p + 1..])))
  {
  }

  /** Lower-case letters are their own key. */
  lemma PlainWord(w: string)
    requires w != [] && forall i :: 0 <= i < |w| ==> 'a' <= w[i] <= 'z'
    ensures Strings.Lower(Strings.Trim(w)) == w
  {
    assert !Strings.IsSpace(w[0]) && !Strings.IsSpace(w[|w| - 1]);
    assert Strings.TrimStart(w) == w;
    assert Strings.TrimEnd(w) == w;
    assert forall i :: 0 <= i < |w| ==> Strings.LowerChar(w[i]) == w[i];
  }

  /** The `ip`, `port` and `request` lines of the record are headers the
      response parser does not store. */
  lemma IpKey(ip: string, line: string)
    requires line == "ip: " + ip
    ensures KeyOf(Header(line)) == "ip" && Inert(Header(line))
  {
    assert "ip: " + ip == "ip" + ": " + ip;
    KeyedLine("ip", ip, line);
  }

  lemma PortKey(port: string, line: string)
    requires line == "port: " + port
    ensures KeyOf(Header(line)) == "port" && Inert(Header(line))
  {
    assert "port: " + port == "port" + ": " + port;
    KeyedLine("port", port, line);
  }

  lemma RequestKey(request: string, line: string)
    requires line == "request: " + request
    ensures KeyOf(Header(line)) == "request" && Inert(Header(line))
  {
    assert "request: " + request == "request" + ": " + request;
    KeyedLine("request", request, line);
  }

  /** The record's `id` line sets the `id` field and nothing else. */
  lemma IdKey(id: int, line: string)
    requires line == "id: " + Strings.IntToString(id)
    ensures Fits(Header(line)) && Apply(Blank, Header(line)) == Blank.(id := id)
  {
    IdLine(Blank, id);
  }

  /** The record's lines: no piece holds a line break. */
  lemma RecordSplit(id: int, ip: string, port: int, request: string)
    requires '\n' !in ip && '\n' !in request
    ensures Strings.Split(SendRequest(id, ip, port, request), '\n') == RecordLines(id, ip, port, request)
  {
    var ls := RecordLines(id, ip, port, request);
    NoBreak(id);
    NoBreak(port);
    assert forall i :: 0 <= i < |ls| ==> '\n' !in ls[i];
    Strings.SplitJoin(ls, '\n');
    RecordJoin(id, ip, port, request);
  }

  /** The record is its lines joined with line breaks. */
  lemma RecordJoin(id: int, ip: string, port: int, request: string)
    ensures Strings.Join(RecordLines(id, ip, port, request), "\n") == SendRequest(id, ip, port, request)
  {
    var ls := RecordLines(id, ip, port, request);
    JoinRecord(ls[0], ls[1], ls[2], ls[3]);
    assert [ls[0], ls[1], ls[2], ls[3], "", ""] == ls;
    var d, p := Strings.IntToString(id), Strings.IntToString(port);
    var a1 := "id: " + d + "\nip: " + ip;
    Breaks();
    Glue("id: " + d, "ip: ", ip);
    var a2 := a1 + "\nport: " + p;
    Glue(a1, "port: ", p);
    Glue(a2, "request: ", request);
  }

  /** The separators of the record: a line break, then the next key. */
  lemma Breaks()
    ensures "\nip: " == "\n" + "ip: " && "\nport: " == "\n" + "port: "
    ensures "\nrequest: " == "\n" + "request: "
  {
  }

  /** A piece that starts with a line break, then more text. */
  lemma Glue(x: string, m: string, y: string)
    ensures x + ("\n" + m) + y == x + "\n" + (m + y)
  {
  }

  /** Four lines and two empty ones joined by line breaks. */
  lemma JoinRecord(a: string, b: string, c: string, e: string)
    ensures Strings.Join([a, b, c, e, "", ""], "\n") == a + "\n" + b + "\n" + c + "\n" + e + "\n\n"
  {
    var ls := [a, b, c, e, "", ""];
    assert ls[4..][1..] == ls[5..] == [""];
    assert Strings.Join(ls[4..], "\n") == "\n";
    assert ls[3..][1..] == ls[4..];
    assert Strings.Join(ls[3..], "\n") == e + "\n\n";
    assert ls[2..][1..] == ls[3..];
    assert Strings.Join(ls[2..], "\n") == c + "\n" + e + "\n\n";
    assert ls[1..][1..] == ls[2..];
    assert Strings.Join(ls[1..], "\n") == b + "\n" + c + "\n" + e + "\n\n";
  }

  lemma NoBreak(n: int)
    ensures '\n' !in Strings.IntToString(n)
  {
    var d := Strings.IntToString(n);
    assert forall i :: 0 <= i < |d| ==> d[i] == '-' || '0' <= d[i] <= '9' by {
      if n < 0 { assert forall i :: 1 <= i < |d| ==> d[i] == d[1..][i - 1]; }
    }
  }

  /** The record `send_request` writes, split into lines and read with the
      response header parser, sets exactly the `id` field: the four lines
      and the terminating empty line share one line format. */
  lemma RecordReadBack(id: int, ip: string, port: int, request: string)
    requires '\n' !in ip && '\n' !in request
    ensures var lines := Strings.Split(SendRequest(id, ip, port, request), '\n');
            |lines| == 6 && Head(lines) == lines[..4]
            && AllFit(Headers(Head(lines)))
            && Fold(Blank, Headers(Head(lines))) == Blank.(id := id)
  {
    RecordSplit(id, ip, port, request);
    var ls := RecordLines(id, ip, port, request);
    RecordHead(ls);
    RecordFold(id, ip, Strings.IntToString(port), request, ls[..4]);
  }

  /** Four non-empty lines, then an empty one: the four are the header. */
  lemma RecordHead(ls: seq<string>)
    requires |ls| >= 5 && ls[4] == "" && ls[0] != "" && ls[1] != "" && ls[2] != "" && ls[3] != ""
    ensures Head(ls) == ls[..4]
  {
    assert Head(ls[4..]) == [];
    assert ls[3..][1..] == ls[4..];
    assert Head(ls[3..]) == [ls[3]];
    assert ls[2..][1..] == ls[3..];
    assert Head(ls[2..]) == [ls[2], ls[3]];
    assert ls[1..][1..] == ls[2..];
    assert Head(ls[1..]) == [ls[1], ls[2], ls[3]];
  }

  /** The four record lines set `id` and nothing else. */
  lemma RecordFold(id: int, ip: string, p: string, request: string, head: seq<string>)
    requires head == ["id: " + Strings.IntToString(id), "ip: " + ip, "port: " + p, "request: " + request]
    ensures AllFit(Headers(head)) && Fold(Blank, Headers(head)) == Blank.(id := id)
  {
    var hs := Headers(head);
    RecordHeaderLines(id, ip, p, request, head, hs);
    FoldIdOnly(hs, id);
  }

  /** The record's four header lines, one by one. */
  lemma RecordHeaderLines(id: int, ip: string, p: string, request: string, head: seq<string>, hs: seq<Option<Entry>>)
    requires head == ["id: " + Strings.IntToString(id), "ip: " + ip, "port: " + p, "request: " + request]
    requires hs == Headers(head)
    ensures |hs| == 4 && Fits(hs[0]) && Apply(Blank, hs[0]) == Blank.(id := id)
    ensures Inert(hs[1]) && Inert(hs[2]) && Inert(hs[3])
  {
    IdKey(id, head[0]);
    IpKey(ip, head[1]);
    PortKey(p, head[2]);
    RequestKey(request, head[3]);
  }

  /** A header that sets `id`, followed by three that name no field. */
  lemma FoldIdOnly(hs: seq<Option<Entry>>, id: int)
    requires |hs| == 4 && Fits(hs[0]) && Apply(Blank, hs[0]) == Blank.(id := id)
    requires Inert(hs[1]) && Inert(hs[2]) && Inert(hs[3])
    ensures AllFit(hs) && Fold(Blank, hs) == Blank.(id := id)
  {
    var rest := hs[1..];
    InertTail(hs);
    FoldInert(Blank.(id := id), rest);
    assert Fold(Blank, hs) == Fold(Apply(Blank, hs[0]), rest);
  }

  lemma InertTail(hs: seq<Option<Entry>>)
    requires |hs| == 4 && Fits(hs[0])
    requires Inert(hs[1]) && Inert(hs[2]) && Inert(hs[3])
    ensures AllFit(hs) && forall i :: 0 <= i < |hs[1..]| ==> Inert(hs[1..][i])
  {
    assert forall i :: 0 <= i < |hs[1..]| ==> hs[1..][i] == hs[i + 1];
  }

  // ---------------------------------------------------------------- body

  /** The characters before the first NUL (all of them if there is none). */
  function UntilNul(s: string): (t: string)
    ensures |t| <= |s| && t == s[..|t|] && NUL !in t
    ensures |t| == |s| || s[|t|] == NUL
  {
    if NUL in s then CText(s) else s
  }

  /** What is left of the stream once a NUL (or EOF) has been read. */
  function PastNul(s: string): (t: string)
    ensures |UntilNul(s)| < |s| ==> t == s[|UntilNul(s)| + 1..]
    ensures |UntilNul(s)| == |s| ==> t == []
  {
    var k := |UntilNul(s)|;
    if k < |s| then s[k + 1..] else []
  }

  /** The first NUL, or the end, at `k` gives the text before it. */
  lemma UntilNulIs(s: string, k: nat)
    requires k <= |s| && NUL !in s[..k] && (k == |s| || s[k] == NUL)
    ensures UntilNul(s) == s[..k]
  {
    var t := UntilNul(s);
    assert forall i :: 0 <= i < k ==> s[i] == s[..k][i];
    assert forall i :: 0 <= i < |t| ==> s[i] == t[i];
  }

  /** A body without NUL, its terminator and what follows: the body and
      the tail are read back. */
  lemma NulFrame(body: string, tail: string)
    requires NUL !in body
    ensures UntilNul(body + [NUL] + tail) == body
    ensures PastNul(body + [NUL] + tail) == tail
  {
    CTextLiteral(body, tail);
    assert (body + [NUL] + tail)[|body| + 1..] == tail;
  }

  /** Reads characters up to the first NUL or EOF; the NUL is consumed.
      `keep` decides whether the characters are kept or dropped. */
  method ReadToNul(input: string, keep: bool) returns (body: string, rest: string)
    ensures body == (if keep then UntilNul(input) else [])
    ensures rest == PastNul(input)
  {
    body := [];
    var pos := 0;
    while pos < |input| && input[pos] != NUL
      invariant pos <= |input| && NUL !in input[..pos]
      invariant body == (if keep then input[..pos] else [])
    {
      if keep {
        body := body + [input[pos]];
      }
      assert input[..pos + 1] == input[..pos] + [input[pos]];
      pos := pos + 1;
    }
    UntilNulIs(input, pos);
    if pos < |input| {
      pos := pos + 1;
    }
    rest := input[pos..];
  }

  /** `read_response` as written: a size of zero or less gives an empty
      body and drops the stream up to the first NUL; a positive size is
      ignored and the body is everything up to the first NUL. */
  method ReadResponse(input: string, size: int) returns (body: string, rest: string)
    ensures size <= 0 ==> body == []
    ensures size > 0 ==> body == UntilNul(input)
    ensures rest == PastNul(input)
  {
    // With `size <= 0` the loop that reads `size` characters never runs,
    // since the body's length is never below zero.
    body, rest := ReadToNul(input, size > 0);
  }

  /** A declared size of zero loses the whole body. */
  method UnsizedBodyLost() returns (body: string)
    ensures body == [] && UntilNul("hi" + [NUL]) == "hi"
  {
    var rest;
    body, rest := ReadResponse("hi" + [NUL], 0);
    NulFrame("hi", []);
  }

  /** `read_response` as its comments describe it: a positive size reads
      that many characters (fewer at EOF) and then drops the stream up to
      the next NUL; no size reads up to the first NUL. */
  method ReadResponseCorrected(input: string, size: int) returns (body: string, rest: string)
    ensures size > 0 ==> body == input[..if size < |input| then size else |input|]
                         && rest == PastNul(input[|body|..])
    ensures size <= 0 ==> body == UntilNul(input) && rest == PastNul(input)
  {
    if size <= 0 {
      body, rest := ReadToNul(input, true);
      return;
    }
    body := [];
    var pos := 0;
    while pos < size && pos < |input|
      invariant pos <= |input| && pos <= size && body == input[..pos]
    {
      body := body + [input[pos]];
      pos := pos + 1;
    }
    var dropped;
    dropped, rest := ReadToNul(input[pos..], false);
  }

  /** With the size declared, the corrected reader returns exactly the
      body the child wrote, NUL characters included, and drops the
      terminator. */
  lemma SizedFrame(body: string, tail: string)
    requires body != []
    ensures var input := body + [NUL] + tail;
            input[..|body|] == body && PastNul(input[|body|..]) == tail
  {
    var input := body + [NUL] + tail;
    assert input[|body|..] == [] + [NUL] + tail;
    NulFrame([], tail);
  }

  // --------------------------------------------------------- GSGI state

  const INT_MIN: int := -0x8000_0000
  const INT_MAX: int := 0x7FFF_FFFF
  const UINT_MAX: int := 0xFFFF_FFFF

  type UInt = x: int | 0 <= x <= UINT_MAX

  /** A C `int` result: the value reduced to 32-bit two's complement. */
  function Wrap32(x: int): (r: int)
    ensures INT_MIN <= r <= INT_MAX
    ensures INT_MIN <= x <= INT_MAX ==> r == x
  {
    (x - INT_MIN) % 0x1_0000_0000 + INT_MIN
  }

  /** `gsgi_request_hash`: `pid * 31 + id` in `int` arithmetic. */
  function RequestHash(pid: int, id: int): (h: int)
    ensures INT_MIN <= pid * 31 + id <= INT_MAX ==> h == pid * 31 + id
  {
    Wrap32(pid * 31 + id)
  }

  /** Two requests of one object with ids less than 2^32 apart never share
      a hash. */
  lemma HashDistinct(pid: int, a: int, b: int)
    requires a != b && -0x1_0000_0000 < a - b < 0x1_0000_0000
    ensures RequestHash(pid, a) != RequestHash(pid, b)
  {
    var x, y := pid * 31 + a - INT_MIN, pid * 31 + b - INT_MIN;
    SameRemainder(x, y);
  }

  /** Numbers less than 2^32 apart, yet not equal, leave different
      remainders modulo 2^32. */
  lemma SameRemainder(x: int, y: int)
    requires x != y && -0x1_0000_0000 < x - y < 0x1_0000_0000
    ensures x % 0x1_0000_0000 != y % 0x1_0000_0000
  {
    var M := 0x1_0000_0000;
    var k := x / M - y / M;
    assert x - y == k * M + (x % M - y % M);
    assert k == 0 || k >= 1 || k <= -1;
    assert k >= 1 ==> k * M >= M;
    assert k <= -1 ==> k * M <= -M;
  }

  /** One pending request in the connection set. */
  datatype Pending = Pending(id: int, state: int, ssl: nat, pid: int)

  /** A GSGI object: the child's process id, the last request id and the
      two pipe descriptors. */
  class Gsgi {
    var pid: int
    var rid: int
    var reqfd: int
    var resfd: int

    /** `gsgi_create`'s object: every field zero. */
    constructor ()
      ensures pid == 0 && rid == 0 && reqfd == 0 && resfd == 0
    {
      pid, rid, reqfd, resfd := 0, 0, 0, 0;
    }
  }

  /** The file's globals: the `is_setup` counter (an `unsigned int`),
      whether the connection set and queue are created, and the set of
      pending requests keyed by their hash. `deadSetUse` records that a
      request was added to the set while it was not created (undefined
      behaviour in the C code). */
  class Runtime {
    var isSetup: UInt
    var live: bool
    var connections: map<int, Pending>
    var deadSetUse: bool

    constructor ()
      ensures isSetup == 0 && !live && connections == map[] && !deadSetUse
    {
      isSetup, live, connections, deadSetUse := 0, false, map[], false;
    }

    /** `gsgi_setup`: the counter goes up; exactly the call that makes it
        1 returns early, and every other call creates a new, empty set. */
    method Setup()
      modifies this
      ensures isSetup == Inc(old(isSetup)) && deadSetUse == old(deadSetUse)
      ensures isSetup == 1 ==> live == old(live) && connections == old(connections)
      ensures isSetup != 1 ==> live && connections == map[]
    {
      isSetup := Inc(isSetup);
      if isSetup == 1 {
        return;
      }
      connections := map[];
      live := true;
    }

    /** `gsgi_cleanup`: the counter goes down (wrapping below zero); when
        it reaches zero every pending request is destroyed with the set. */
    method Cleanup()
      modifies this
      ensures isSetup == Dec(old(isSetup)) && deadSetUse == old(deadSetUse)
      ensures isSetup > 0 ==> live == old(live) && connections == old(connections)
      ensures isSetup == 0 ==> !live && connections == map[]
    {
      isSetup := Dec(isSetup);
      if isSetup > 0 {
        return;
      }
      isSetup := 0;
      connections := map[];
      live := false;
    }

    /** `gsgi_create`: setup, then a zeroed object. */
    method Create() returns (g: Gsgi)
      modifies this
      ensures fresh(g) && g.pid == 0 && g.rid == 0
      ensures isSetup == Inc(old(isSetup)) && deadSetUse == old(deadSetUse)
      ensures isSetup == 1 ==> live == old(live) && connections == old(connections)
      ensures isSetup != 1 ==> live && connections == map[]
    {
      Setup();
      g := new Gsgi();
    }

    /** `gsgi_destroy`: cleanup (the pipes are closed outside the model). */
    method Destroy(g: Gsgi)
      modifies this
      ensures isSetup == Dec(old(isSetup)) && deadSetUse == old(deadSetUse)
      ensures isSetup > 0 ==> live == old(live) && connections == old(connections)
      ensures isSetup == 0 ==> !live && connections == map[]
    {
      Cleanup();
    }

    /** `gsgi_process_request`: the object's request id goes up by one,
        the request joins the set under its hash (when the set was never
        created the addition is recorded as a use of a dead set and adds
        nothing), and the call ends with a cleanup, which lowers the
        counter again. */
    method ProcessRequest(g: Gsgi, ssl: nat) returns (id: int)
      modifies this, g
      ensures id == old(g.rid) + 1 && g.rid == id && id > old(g.rid)
      ensures g.pid == old(g.pid)
      ensures deadSetUse == (old(deadSetUse) || !old(live))
      ensures isSetup == Dec(old(isSetup))
      ensures isSetup > 0 && old(live) ==> connections == old(connections)[RequestHash(g.pid, id) := Pending(id, 0, ssl, g.pid)]
      ensures isSetup > 0 && !old(live) ==> connections == old(connections)
      ensures isSetup > 0 ==> live == old(live)
      ensures isSetup == 0 ==> !live && connections == map[]
    {
      g.rid := g.rid + 1;
      id := g.rid;
      if live {
        connections := connections[RequestHash(g.pid, id) := Pending(id, 0, ssl, g.pid)];
      } else {
        deadSetUse := true;
      }
      Cleanup();
    }
  }

  /** The first object created skips the creation of the set (its setup
      returns early), so its first request is added to a set that does not
      exist, and the cleanup that ends the request tears the globals down. */
  method FirstRequestUsesMissingSet() returns (rt: Runtime, g: Gsgi, id: int)
    ensures id == 1 && rt.deadSetUse
    ensures rt.isSetup == 0 && !rt.live && rt.connections == map[]
  {
    rt := new Runtime();
    g := rt.Create();
    id := rt.ProcessRequest(g, 0);
  }

  /** `++` on an `unsigned int`. */
  function Inc(x: UInt): (r: UInt)
    ensures x < UINT_MAX ==> r == x + 1
    ensures x == UINT_MAX ==> r == 0
  {
    if x == UINT_MAX then 0 else x + 1
  }

  /** `--` on an `unsigned int`. */
  function Dec(x: UInt): (r: UInt)
    ensures x > 0 ==> r == x - 1
    ensures x == 0 ==> r == UINT_MAX
  {
    if x == 0 then UINT_MAX else x - 1
  }

  /** A setup undone by a cleanup, and the other way round, leaves the
      counter as it was. */
  lemma CounterRoundTrip(x: UInt)
    ensures Dec(Inc(x)) == x && Inc(Dec(x)) == x
  {
  }

  /** A cleanup with no setup before it wraps the counter to its largest
      value, so later cleanups stop short of destroying the set. */
  method CleanupFirstWraps() returns (rt: Runtime)
    ensures rt.isSetup == UINT_MAX && rt.connections == map[] && !rt.live
  {
    rt := new Runtime();
    rt.Cleanup();
  }
}
