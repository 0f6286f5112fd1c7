// NUL-terminated character strings, as the C and C++ code keeps them in
// `char` buffers: the text is everything before the first NUL.
module CStrings {

  const NUL: char := '\0'

  /** The position of the first NUL. */
  function NulIndex(s: seq<char>): (k: nat)
    requires NUL in s
    ensures k < |s| && s[k] == NUL
    ensures forall i :: 0 <= i < k ==> s[i] != NUL
  {
    if s[0] == NUL then 0 else 1 + NulIndex(s[1..])
  }

  /** The C string held at the front of `s`. */
  function CText(s: seq<char>): (t: seq<char>)
    requires NUL in s
    ensures |t| < |s| && t == s[..|t|] && s[|t|] == NUL && NUL !in t
  {
    s[..NulIndex(s)]
  }

  /** Text without NUL followed by a NUL reads back as that text, whatever
      follows the terminator. */
  lemma CTextIs(s: seq<char>, t: seq<char>)
    requires |t| < |s| && s[..|t|] == t && s[|t|] == NUL && NUL !in t
    ensures NUL in s && CText(s) == t
  {
    assert s[|t|] in s;
  }

  /** The literal `"t"` in memory: its characters and a terminator. */
  lemma CTextLiteral(t: seq<char>, rest: seq<char>)
    requires NUL !in t
    ensures NUL in t + [NUL] + rest && CText(t + [NUL] + rest) == t
  {
    var s := t + [NUL] + rest;
    assert s[..|t|] == t;
    CTextIs(s, t);
  }

  /** A buffer holding text `t` and its terminator, read as a C string
      from a position inside the text, is the rest of the text. */
  lemma CTextFrom(s: seq<char>, t: seq<char>, off: nat)
    requires NUL !in t && |t| < |s| && s[..|t|] == t && s[|t|] == NUL && off <= |t|
    ensures NUL in s[off..] && CText(s[off..]) == t[off..]
  {
    assert s[off..][..|t| - off] == t[off..];
    assert s[off..][|t| - off] == NUL;
    CTextIs(s[off..], t[off..]);
  }
}
