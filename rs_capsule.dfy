// The Rust server's responses (`CapsuleResponse`, src/capsule.rs): one
// variant per Gemini status, each with its two-digit code, its meta text, its
// human-readable name, and the header line `<code> <meta>\r\n` that opens the
// response (section 3.1 of the Gemini specification). Also the domain and
// rule check of a capsule (`CapsuleConfig::test`).
module Capsule {
  import opened Wrappers
  import Strings

  datatype Response =
    | Input(prompt: string)
    | InputSensitive(prompt: string)
    | Success(meta: string, body: string)
    | RedirectTemp(redirect: string)
    | RedirectPerm(redirect: string)
    | FailureTemp(message: string)
    | ServerUnavail(message: string)
    | CgiError(message: string)
    | ProxyError(message: string)
    | SlowDown(message: string)
    | FailurePerm(message: string)
    | NotFound(message: string)
    | Gone(message: string)
    | ProxyRefused(message: string)
    | BadRequest(message: string)
    | CertRequired(message: string)
    | CertNotAuthorized(message: string)
    | CertInvalid(message: string)

  /** The status codes the server can send. */
  const CODES: set<nat> := {10, 11, 20, 30, 31, 40, 41, 42, 43, 44, 50, 51, 52, 53, 59, 60, 61, 62}

  /** `CapsuleResponse::meta`: the one text every variant carries. */
  function Meta(r: Response): string {
    match r
    case Input(prompt) => prompt
    case InputSensitive(prompt) => prompt
    case Success(meta, _) => meta
    case RedirectTemp(redirect) => redirect
    case RedirectPerm(redirect) => redirect
    case FailureTemp(message) => message
    case ServerUnavail(message) => message
    case CgiError(message) => message
    case ProxyError(message) => message
    case SlowDown(message) => message
    case FailurePerm(message) => message
    case NotFound(message) => message
    case Gone(message) => message
    case ProxyRefused(message) => message
    case BadRequest(message) => message
    case CertRequired(message) => message
    case CertNotAuthorized(message) => message
    case CertInvalid(message) => message
  }

  /** `CapsuleResponse::code`: the first digit is the status class of the
      Gemini specification: 1 input, 2 success, 3 redirect, 4 temporary
      failure, 5 permanent failure, 6 client certificate. */
  function Code(r: Response): (c: nat)
    ensures c in CODES
    ensures (c / 10 == 1) <==> (r.Input? || r.InputSensitive?)
    ensures (c / 10 == 2) <==> r.Success?
    ensures (c / 10 == 3) <==> (r.RedirectTemp? || r.RedirectPerm?)
    ensures (c / 10 == 4) <==> (r.FailureTemp? || r.ServerUnavail? || r.CgiError? || r.ProxyError? || r.SlowDown?)
    ensures (c / 10 == 6) <==> (r.CertRequired? || r.CertNotAuthorized? || r.CertInvalid?)
  {
    match r
    case Input(_) => 10
    case InputSensitive(_) => 11
    case Success(_, _) => 20
    case RedirectTemp(_) => 30
    case RedirectPerm(_) => 31
    case FailureTemp(_) => 40
    case ServerUnavail(_) => 41
    case CgiError(_) => 42
    case ProxyError(_) => 43
    case SlowDown(_) => 44
    case FailurePerm(_) => 50
    case NotFound(_) => 51
    case Gone(_) => 52
    case ProxyRefused(_) => 53
    case BadRequest(_) => 59
    case CertRequired(_) => 60
    case CertNotAuthorized(_) => 61
    case CertInvalid(_) => 62
  }

  /** The response a client reads back from a status code, a meta text and,
      for a success, the body: the inverse of `Code` and `Meta`. */
  function FromCode(code: nat, meta: string, body: string): (r: Option<Response>)
    ensures r.Some? <==> code in CODES
    ensures r.Some? ==> Code(r.value) == code && Meta(r.value) == meta
  {
    if code == 10 then Some(Input(meta))
    else if code == 11 then Some(InputSensitive(meta))
    else if code == 20 then Some(Success(meta, body))
    else if code == 30 then Some(RedirectTemp(meta))
    else if code == 31 then Some(RedirectPerm(meta))
    else if code == 40 then Some(FailureTemp(meta))
    else if code == 41 then Some(ServerUnavail(meta))
    else if code == 42 then Some(CgiError(meta))
    else if code == 43 then Some(ProxyError(meta))
    else if code == 44 then Some(SlowDown(meta))
    else if code == 50 then Some(FailurePerm(meta))
    else if code == 51 then Some(NotFound(meta))
    else if code == 52 then Some(Gone(meta))
    else if code == 53 then Some(ProxyRefused(meta))
    else if code == 59 then Some(BadRequest(meta))
    else if code == 60 then Some(CertRequired(meta))
    else if code == 61 then Some(CertNotAuthorized(meta))
    else if code == 62 then Some(CertInvalid(meta))
    else None
  }

  /** The code, the meta text and the body determine the response. */
  lemma CodeDetermines(r: Response)
    ensures FromCode(Code(r), Meta(r), BodyText(r)) == Some(r)
  {
  }

  /** `CapsuleResponse::name`. */
  function Name(r: Response): string {
    match r
    case Input(_) => "input"
    case InputSensitive(_) => "sensitive input"
    case Success(_, _) => "success"
    case RedirectTemp(_) => "temporary redirect"
    case RedirectPerm(_) => "permanent redirect"
    case FailureTemp(_) => "temporary failure"
    case ServerUnavail(_) => "server unavailable"
    case CgiError(_) => "cgi error"
    case ProxyError(_) => "proxy error"
    case SlowDown(_) => "slow down"
    case FailurePerm(_) => "permanent failure"
    case NotFound(_) => "not found"
    case Gone(_) => "gone"
    case ProxyRefused(_) => "proxy refused"
    case BadRequest(_) => "bad request"
    case CertRequired(_) => "certificate required"
    case CertNotAuthorized(_) => "certificate not authorized"
    case CertInvalid(_) => "certificate not valid"
  }

  /** Each status has its own name. */
  lemma NameMatchesCode(a: Response, b: Response)
    ensures Name(a) == Name(b) <==> Code(a) == Code(b)
  {
    CodeFromName(a);
    CodeFromName(b);
    NameFromCode(a);
    NameFromCode(b);
  }

  /** The status that goes with a name, told apart by the name's length
      and first letter, which no two names share. */
  function CodeOfKey(length: int, first: char): int {
    match (length, first)
    case (5, 'i') => 10
    case (15, 's') => 11
    case (7, 's') => 20
    case (18, 't') => 30
    case (18, 'p') => 31
    case (17, 't') => 40
    case (18, 's') => 41
    case (9, 'c') => 42
    case (11, 'p') => 43
    case (9, 's') => 44
    case (17, 'p') => 50
    case (9, 'n') => 51
    case (4, 'g') => 52
    case (13, 'p') => 53
    case (11, 'b') => 59
    case (20, 'c') => 60
    case (26, 'c') => 61
    case _ => 62
  }

  /** The name that goes with a status code. */
  function NameOfCode(code: int): string {
    if code == 10 then "input"
    else if code == 11 then "sensitive input"
    else if code == 20 then "success"
    else if code == 30 then "temporary redirect"
    else if code == 31 then "permanent redirect"
    else if code == 40 then "temporary failure"
    else if code == 41 then "server unavailable"
    else if code == 42 then "cgi error"
    else if code == 43 then "proxy error"
    else if code == 44 then "slow down"
    else if code == 50 then "permanent failure"
    else if code == 51 then "not found"
    else if code == 52 then "gone"
    else if code == 53 then "proxy refused"
    else if code == 59 then "bad request"
    else if code == 60 then "certificate required"
    else if code == 61 then "certificate not authorized"
    else "certificate not valid"
  }

  /** The code is a function of the name. */
  lemma CodeFromName(r: Response)
    ensures Name(r) != [] && CodeOfKey(|Name(r)|, Name(r)[0]) == Code(r)
  {
  }

  /** The name is a function of the code. */
  lemma NameFromCode(r: Response)
    ensures NameOfCode(Code(r)) == Name(r)
  {
  }

  /** `CapsuleResponse::body`: only a success carries a body. */
  function Body(r: Response): (b: Option<string>)
    ensures b.Some? <==> r.Success?
    ensures b.Some? ==> b.value == r.body
  {
    match r
    case Success(_, body) => Some(body)
    case _ => None
  }

  /** The body, or nothing. */
  function BodyText(r: Response): string {
    match Body(r)
    case Some(b) => b
    case None => ""
  }

  const CRLF: string := "\r\n"

  /** `CapsuleResponse::header`: `<code> <meta>\r\n`. */
  function Header(r: Response): string {
    Strings.NatToString(Code(r)) + " " + Meta(r) + CRLF
  }

  /** A status code of two digits is written with exactly those digits. */
  lemma TwoDigits(n: nat)
    requires 10 <= n < 100
    ensures Strings.NatToString(n) == [Strings.DigitChar(n / 10), Strings.DigitChar(n % 10)]
  {
  }

  /** The value of two digits. */
  function DigitPair(a: char, b: char): (v: int)
    ensures '0' <= a <= '9' && '0' <= b <= '9' ==> 0 <= v < 100
  {
    (a as int - '0' as int) * 10 + (b as int - '0' as int)
  }

  /** What a client makes of a header line (section 3.1 of the Gemini
      specification): two digits, a space, the meta text, and `\r\n`. */
  function ParseHeader(h: string): (r: Option<(nat, string)>)
    ensures r.Some? ==> |h| == |r.value.1| + 5 && h[|h| - 2..] == CRLF
  {
    if |h| >= 5 && '0' <= h[0] <= '9' && '0' <= h[1] <= '9' && h[2] == ' ' && h[|h| - 2..] == CRLF then
      Some((DigitPair(h[0], h[1]), h[3..|h| - 2]))
    else None
  }

  /** The header line reads back as the response's code and meta text. */
  lemma HeaderRoundTrip(r: Response)
    ensures ParseHeader(Header(r)) == Some((Code(r), Meta(r)))
  {
    var c := Code(r);
    TwoDigits(c);
    var h := Header(r);
    assert h == [Strings.DigitChar(c / 10), Strings.DigitChar(c % 10)] + " " + Meta(r) + CRLF;
    assert h[3..|h| - 2] == Meta(r);
    assert h[|h| - 2..] == CRLF;
  }

  /** `Display for CapsuleResponse`: the header, followed by the body of a
      success. */
  function Display(r: Response): (t: string)
    ensures Strings.StartsWith(t, Header(r))
    ensures !r.Success? ==> t == Header(r)
  {
    Header(r) + BodyText(r)
  }

  /** A client's reading of a whole response: the header up to the first
      `\r\n`, then the body. */
  function Decode(t: string): Option<Response> {
    match Strings.Find(t, CRLF)
    case None => None
    case Some(n) =>
      match ParseHeader(t[..n + 2])
      case None => None
      case Some(cm) => FromCode(cm.0, cm.1, t[n + 2..])
  }

  /** The first `\r\n` of a header line is its end, whatever follows. */
  lemma HeaderEnd(d: string, m: string, body: string)
    requires '\r' !in d && '\r' !in m
    ensures Strings.Find(d + " " + m + CRLF + body, CRLF) == Some(|d| + 1 + |m|)
  {
    var p := d + " " + m;
    var t := p + CRLF + body;
    assert t == d + " " + m + CRLF + body;
    var n := |p|;
    assert '\r' !in p;
    assert t[n..n + 2] == CRLF;
    forall j: nat | j < n ensures !Strings.OccursAt(t, CRLF, j) {
      assert t[j] == p[j];
    }
    Strings.FindIs(t, CRLF, n);
  }

  /** A response whose meta text has no carriage return reads back as
      itself. */
  lemma DisplayRoundTrip(r: Response)
    requires '\r' !in Meta(r)
    ensures Decode(Display(r)) == Some(r)
  {
    var h := Header(r);
    var t := Display(r);
    var n := |h| - 2;
    var d := Strings.NatToString(Code(r));
    assert Strings.Find(t, CRLF) == Some(n) by {
      TwoDigits(Code(r));
      HeaderEnd(d, Meta(r), BodyText(r));
    }
    assert t[..n + 2] == h && t[n + 2..] == BodyText(r);
    HeaderRoundTrip(r);
    CodeDetermines(r);
  }

  /** `CapsuleResponse::info`: `<code> (<name>) <meta>`, for the log. */
  function Info(r: Response): (s: string)
    ensures |s| >= |Meta(r)| + 2
    ensures s[..2] == Header(r)[..2]
    ensures Strings.EndsWith(s, Meta(r))
  {
    TwoDigits(Code(r));
    Strings.NatToString(Code(r)) + " (" + Name(r) + ") " + Meta(r)
  }

  // ----------------------------------------------------------- matching

  /** A capsule's domain and its path rules (regular expressions, kept as
      their source text; matching one is a parameter of the model). */
  datatype CapsuleConfig = CapsuleConfig(name: string, domain: string, rules: seq<string>)

  /** `CapsuleConfig::test` as written: the loop over the rules returns
      `true` on a match and the code after it returns `true` as well, so the
      rules decide nothing. */
  method TestAsWritten(c: CapsuleConfig, domain: string, path: string, isMatch: (string, string) -> bool)
    returns (b: bool)
    ensures b <==> domain == c.domain
  {
    if domain != c.domain {
      return false;
    }
    var i := 0;
    while i < |c.rules|
      invariant 0 <= i <= |c.rules|
    {
      if isMatch(c.rules[i], path) {
        return true;
      }
      i := i + 1;
    }
    return true;
  }

  /** Some rule of the capsule matches the path. */
  predicate AnyRuleMatches(rules: seq<string>, path: string, isMatch: (string, string) -> bool) {
    exists i :: 0 <= i < |rules| && isMatch(rules[i], path)
  }

  /** With the correction, a path no rule matches is refused. */
  lemma UnmatchedPathRefused(c: CapsuleConfig, path: string, isMatch: (string, string) -> bool)
    requires !AnyRuleMatches(c.rules, path, isMatch)
    ensures !Test(c, c.domain, path, isMatch)
  {
  }

  /** `CapsuleConfig::test` as intended: the domain must be the capsule's
      and some rule must match the path. */
  function Test(c: CapsuleConfig, domain: string, path: string, isMatch: (string, string) -> bool): bool {
    domain == c.domain && AnyRuleMatches(c.rules, path, isMatch)
  }

  /** The corrected loop, which falls through to `false`. */
  method TestFixed(c: CapsuleConfig, domain: string, path: string, isMatch: (string, string) -> bool)
    returns (b: bool)
    ensures b == Test(c, domain, path, isMatch)
  {
    if domain != c.domain {
      return false;
    }
    var i := 0;
    while i < |c.rules|
      invariant 0 <= i <= |c.rules|
      invariant forall j :: 0 <= j < i ==> !isMatch(c.rules[j], path)
    {
      if isMatch(c.rules[i], path) {
        return true;
      }
      i := i + 1;
    }
    return false;
  }
}
