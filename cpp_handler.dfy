// The response header helpers of the C++ server's handler interface
// (shared/gemcaps/handler.hpp): the Gemini status codes, the C string length
// and copy it needs at compile time, and `responseHeader`, which writes
// `<STATUS><SPACE><META><CR><LF>` (section 3.1 of the Gemini specification)
// into a caller's buffer.
module CppHandler {
  import opened CStrings
  import Strings
  import Capsule
  import opened Wrappers

  const RES_INPUT: int := 10
  const RES_SENSITIVE_INPUT: int := 11
  const RES_SUCCESS: int := 20
  const RES_REDIRECT_TEMP: int := 30
  const RES_REDIRECT_PERM: int := 31
  const RES_FAIL_TEMP: int := 40
  const RES_SERVER_UNAVAIL: int := 41
  const RES_ERROR_CGI: int := 42
  const RES_ERROR_PROXY: int := 43
  const RES_SLOW_DOWN: int := 44
  const RES_FAIL_PERM: int := 50
  const RES_NOT_FOUND: int := 51
  const RES_GONE: int := 52
  const RES_BAD_REQUEST: int := 59
  const RES_CERT_REQUIRED: int := 60
  const RES_CERT_NOT_AUTH: int := 61
  const RES_CERT_NOT_VALID: int := 62

  /** Every `RES_*` code is the code of the Rust server's response of the
      same meaning; only `53 PROXY REQUEST REFUSED` has no constant. */
  lemma CodesMatchResponses(m: string)
    ensures RES_INPUT == Capsule.Code(Capsule.Input(m))
    ensures RES_SENSITIVE_INPUT == Capsule.Code(Capsule.InputSensitive(m))
    ensures RES_SUCCESS == Capsule.Code(Capsule.Success(m, ""))
    ensures RES_REDIRECT_TEMP == Capsule.Code(Capsule.RedirectTemp(m))
    ensures RES_REDIRECT_PERM == Capsule.Code(Capsule.RedirectPerm(m))
    ensures RES_FAIL_TEMP == Capsule.Code(Capsule.FailureTemp(m))
    ensures RES_SERVER_UNAVAIL == Capsule.Code(Capsule.ServerUnavail(m))
    ensures RES_ERROR_CGI == Capsule.Code(Capsule.CgiError(m))
    ensures RES_ERROR_PROXY == Capsule.Code(Capsule.ProxyError(m))
    ensures RES_SLOW_DOWN == Capsule.Code(Capsule.SlowDown(m))
    ensures RES_FAIL_PERM == Capsule.Code(Capsule.FailurePerm(m))
    ensures RES_NOT_FOUND == Capsule.Code(Capsule.NotFound(m))
    ensures RES_GONE == Capsule.Code(Capsule.Gone(m))
    ensures RES_BAD_REQUEST == Capsule.Code(Capsule.BadRequest(m))
    ensures RES_CERT_REQUIRED == Capsule.Code(Capsule.CertRequired(m))
    ensures RES_CERT_NOT_AUTH == Capsule.Code(Capsule.CertNotAuthorized(m))
    ensures RES_CERT_NOT_VALID == Capsule.Code(Capsule.CertInvalid(m))
  {
  }

  /** C's `/`, which rounds toward zero. */
  function CDiv(a: int, b: nat): (q: int)
    requires b > 0
    ensures a >= 0 ==> q == a / b
  {
    if a >= 0 then a / b else -((-a) / b)
  }

  /** C's `%`: the remainder takes the sign of `a`. */
  function CMod(a: int, b: nat): (r: int)
    requires b > 0
    ensures a >= 0 ==> r == a % b
    ensures -(b as int) < r < b
  {
    a - b * CDiv(a, b)
  }

  /** `'0' + d` for a digit that C's `%` may have made negative. */
  function DigitOf(d: int): (c: char)
    requires -10 < d < 10
    ensures c != NUL
  {
    ('0' as int + d) as char
  }

  /** The characters `responseHeader` writes before the terminator. */
  function HeaderLine(response: int, meta: seq<char>): (h: seq<char>)
    ensures |h| == |meta| + 5
  {
    [DigitOf(CMod(CDiv(response, 10), 10)), DigitOf(CMod(response, 10)), ' '] + meta + "\r\n"
  }

  /** `string_length`: the number of characters before the NUL. */
  method StringLength(str: seq<char>) returns (length: nat)
    requires NUL in str
    ensures length == |CText(str)|
  {
    ghost var k := NulIndex(str);
    length := 0;
    while str[length] != NUL
      invariant length <= k
      decreases k - length
    {
      length := length + 1;
    }
  }

  /** `string_copy(dest + at, src)`: the text of `src` and its terminator
      are written from `at` on; nothing else changes. */
  method StringCopy(dest: array<char>, at: nat, src: seq<char>)
    requires NUL in src && at + |CText(src)| < dest.Length
    modifies dest
    ensures dest[..] == old(dest[..])[..at] + CText(src) + [NUL] + old(dest[..])[at + |CText(src)| + 1..]
  {
    ghost var text := CText(src);
    ghost var before := dest[..];
    var i := 0;
    CopyStart(before, at, text);
    while src[i] != NUL
      invariant Copied(dest[..], before, at, text, i)
      decreases |text| - i
    {
      CopyStep(dest[..], before, at, text, i);
      Put(dest, at + i, src[i]);
      i := i + 1;
    }
    CopyEnd(dest[..], before, at, text, i, NUL);
    Put(dest, at + i, NUL);
  }

  /** The first `i` characters of `text` stored from `at` on. */
  ghost predicate Copied<T>(a: seq<T>, before: seq<T>, at: nat, text: seq<T>, i: nat) {
    i <= |text| && at + |text| < |before| && a == before[..at] + text[..i] + before[at + i..]
  }

  /** Nothing stored yet. */
  lemma CopyStart<T>(before: seq<T>, at: nat, text: seq<T>)
    requires at + |text| < |before|
    ensures Copied(before, before, at, text, 0)
  {
    assert before == before[..at] + before[at..];
  }

  /** The character `i` of `text` stored after the first `i`. */
  lemma CopyStep<T>(a: seq<T>, before: seq<T>, at: nat, text: seq<T>, i: nat)
    requires i < |text| && Copied(a, before, at, text, i)
    ensures Copied(a[at + i := text[i]], before, at, text, i + 1)
  {
    assert text[..i + 1] == text[..i] + [text[i]];
  }

  /** The terminator stored after the whole text. */
  lemma CopyEnd<T>(a: seq<T>, before: seq<T>, at: nat, text: seq<T>, i: nat, x: T)
    requires i == |text| && Copied(a, before, at, text, i)
    ensures a[at + i := x] == before[..at] + text + [x] + before[at + |text| + 1..]
  {
    assert text[..i] == text;
  }

  /** One character stored into the array. */
  method Put(a: array<char>, k: nat, x: char)
    requires k < a.Length
    modifies a
    ensures a[..] == old(a[..])[k := x]
  {
    a[k] := x;
  }

  /** `responseHeader(response, meta, header)`: the tens and units digits of
      `response`, a space, the text of `meta`, CR LF and a NUL are written at
      the front of `header`, which must hold `|meta| + 6` characters (the
      default null `header` cannot be written through). */
  method ResponseHeader(response: int, meta: seq<char>, header: array<char>)
    requires NUL in meta && |CText(meta)| + 6 <= header.Length
    modifies header
    ensures header[..|CText(meta)| + 6] == HeaderLine(response, CText(meta)) + [NUL]
    ensures header[|CText(meta)| + 6..] == old(header[|CText(meta)| + 6..])
  {
    ghost var m := CText(meta);
    var i := 0;
    header[i] := DigitOf(CMod(CDiv(response, 10), 10));
    i := i + 1;
    header[i] := DigitOf(CMod(response, 10));
    i := i + 1;
    header[i] := ' ';
    i := i + 1;
    ghost var front := header[..3];
    StringCopy(header, i, meta);
    var length := StringLength(meta);
    i := i + length;
    header[i] := '\r';
    i := i + 1;
    header[i] := '\n';
    i := i + 1;
    header[i] := NUL;
    assert header[..|m| + 6] == front + m + ['\r', '\n', NUL];
  }

  /** The header read back as a C string is the header line. */
  lemma HeaderText(response: int, meta: seq<char>, rest: seq<char>)
    requires NUL !in meta
    ensures NUL in HeaderLine(response, meta) + [NUL] + rest
    ensures CText(HeaderLine(response, meta) + [NUL] + rest) == HeaderLine(response, meta)
  {
    CTextLiteral(HeaderLine(response, meta), rest);
  }

  /** For a two-digit status the line is `<code> <meta>\r\n`, the same line
      the Rust server writes for the response with that code. */
  lemma HeaderOfCode(code: int, meta: seq<char>)
    requires 10 <= code < 100
    ensures HeaderLine(code, meta) == Strings.NatToString(code) + " " + meta + Capsule.CRLF
  {
    Capsule.TwoDigits(code);
    HeaderDigits(code, meta);
    PairOfDigits(code / 10, code % 10);
  }

  lemma SameHeaderAsRust(r: Capsule.Response)
    ensures HeaderLine(Capsule.Code(r), Capsule.Meta(r)) == Capsule.Header(r)
  {
    HeaderOfCode(Capsule.Code(r), Capsule.Meta(r));
  }

  /** A client reads a two-digit status and the meta text back from the
      line. */
  lemma HeaderReadsBack(code: int, meta: seq<char>)
    requires 10 <= code < 100
    ensures Capsule.ParseHeader(HeaderLine(code, meta)) == Some((code as nat, meta))
  {
    var t, u := code / 10, code % 10;
    HeaderDigits(code, meta);
    PairOfDigits(t, u);
    Framed([DigitOf(t), DigitOf(u), ' '], meta, "\r\n");
  }

  /** For a two-digit status the C arithmetic picks its tens and its
      units. */
  lemma HeaderDigits(code: int, meta: seq<char>)
    requires 10 <= code < 100
    ensures 0 <= code / 10 < 10 && code == 10 * (code / 10) + code % 10
    ensures HeaderLine(code, meta) == [DigitOf(code / 10), DigitOf(code % 10), ' '] + meta + "\r\n"
  {
    assert CMod(CDiv(code, 10), 10) == code / 10;
  }

  /** Two digits written out read back as their value. */
  lemma PairOfDigits(t: int, u: int)
    requires 0 <= t < 10 && 0 <= u < 10
    ensures Capsule.DigitPair(DigitOf(t), DigitOf(u)) == 10 * t + u
    ensures DigitOf(t) == Strings.DigitChar(t) && DigitOf(u) == Strings.DigitChar(u)
  {
  }

  /** The middle of a text between a three-character front and a
      two-character end. */
  lemma Framed<T>(front: seq<T>, middle: seq<T>, end: seq<T>)
    requires |front| == 3 && |end| == 2
    ensures var h := front + middle + end;
      h[3..|h| - 2] == middle && h[|h| - 2..] == end && h[..3] == front
  {
    var h := front + middle + end;
    assert h[..3] == front;
  }

  /** Only the last two digits of a non-negative status are written. */
  lemma LastTwoDigits(response: int, meta: seq<char>)
    requires response >= 0
    ensures HeaderLine(response, meta) == HeaderLine(response % 100, meta)
  {
    var q, r := response / 100, response % 100;
    var t, u := r / 10, r % 10;
    assert response == 10 * (10 * q + t) + u;
    DivTen(response, 10 * q + t, u);
    DivTen(10 * q + t, q, t);
  }

  /** Quotient and remainder by ten are the only pair that rebuilds `a`. */
  lemma DivTen(a: int, q: int, r: int)
    requires a == 10 * q + r && 0 <= r < 10
    ensures a / 10 == q && a % 10 == r
  {
  }
}
