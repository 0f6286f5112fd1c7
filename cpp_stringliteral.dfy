// `StringLiteral<Size>` (shared/gemcaps/stringutil.hpp): a fixed buffer of
// `Size + 1` characters holding a NUL-terminated string, extended in place by
// `append`. Nothing checks the bounds, so every append states as a
// precondition that the result fits.
module CppStringLiteral {
  import opened CStrings
  import Strings

  const INT_MIN: int := -0x8000_0000
  const INT_MAX: int := 0x7fff_ffff

  /** `s` back to front. */
  function Reverse(s: seq<char>): (r: seq<char>)
    ensures |r| == |s|
    ensures forall i :: 0 <= i < |s| ==> r[i] == s[|s| - 1 - i]
  {
    if s == [] then [] else Reverse(s[1..]) + [s[0]]
  }

  lemma ReverseSnoc(s: seq<char>, c: char)
    ensures Reverse(s + [c]) == [c] + Reverse(s)
  {
    assert Reverse(s + [c])[0] == c;
    assert forall i :: 1 <= i <= |s| ==> Reverse(s + [c])[i] == Reverse(s)[i - 1];
  }

  /** A number below `10^k` has at most `k` digits. */
  lemma {:induction false} DigitCount(n: nat, k: nat, bound: nat)
    requires bound == Power10(k) && n < bound
    ensures |Strings.NatToString(n)| <= if k == 0 then 1 else k
    decreases k
  {
    if k > 1 && n >= 10 {
      DigitCount(n / 10, k - 1, Power10(k - 1));
    }
  }

  function Power10(k: nat): (p: nat)
    ensures p >= 1
  {
    if k == 0 then 1 else 10 * Power10(k - 1)
  }

  /** The first half of `append(int)`: the digits are produced last first
      into a fresh buffer of `room` characters, followed by a `-` for a
      negative value, so that the buffer read back to front is the decimal
      form. */
  method ReversedDecimal(value: int, room: nat) returns (valbuf: array<char>, count: nat)
    requires INT_MIN < value <= INT_MAX
    requires |Strings.IntToString(value)| <= room
    ensures fresh(valbuf) && valbuf.Length == room
    ensures count == |Strings.IntToString(value)|
    ensures Reverse(valbuf[..count]) == Strings.IntToString(value)
  {
    var negative := value < 0;
    var v: nat := if negative then -value else value;
    valbuf, count := ReversedDigits(v, room);
    if negative {
      ghost var low := valbuf[..count];
      PutAt(valbuf, count, '-');
      ReverseSnoc(low, '-');
      assert Strings.IntToString(value) == "-" + Strings.NatToString(v);
      count := count + 1;
    }
  }

  /** Stores `c` just after the first `count` characters. */
  method PutAt(buf: array<char>, count: nat, c: char)
    requires count < buf.Length
    modifies buf
    ensures buf[..count + 1] == old(buf[..count]) + [c]
    ensures buf[..count] == old(buf[..count]) && buf[count] == c
  {
    buf[count] := c;
    assert buf[..count + 1] == buf[..count] + [buf[count]];
  }

  /** The do-while loop of `append(int)`: the digits of `v`, last first. */
  method ReversedDigits(v: nat, room: nat) returns (valbuf: array<char>, count: nat)
    requires |Strings.NatToString(v)| <= room
    ensures fresh(valbuf) && valbuf.Length == room
    ensures count == |Strings.NatToString(v)|
    ensures Reverse(valbuf[..count]) == Strings.NatToString(v)
  {
    valbuf := new char[room](_ => NUL);
    ghost var digits := Strings.NatToString(v);
    ghost var low: seq<char> := [];
    var rest := v;
    // the first pass
    valbuf[0] := Strings.DigitChar(rest % 10);
    DigitStep(digits, rest, low);
    low := [valbuf[0]];
    count := 1;
    rest := rest / 10;
    while rest != 0
      invariant 1 <= count <= |digits| && low == valbuf[..count]
      invariant digits == Pending(rest) + Reverse(low)
    {
      valbuf[count] := Strings.DigitChar(rest % 10);
      DigitStep(digits, rest, low);
      assert valbuf[..count + 1] == low + [valbuf[count]];
      low := low + [valbuf[count]];
      count := count + 1;
      rest := rest / 10;
    }
  }

  /** The digits of `rest` still to produce: none once it reaches zero. */
  function Pending(rest: nat): string {
    if rest == 0 then [] else Strings.NatToString(rest)
  }

  lemma DecimalHasNoNul(value: int)
    ensures NUL !in Strings.IntToString(value)
  {
    var t := Strings.IntToString(value);
    forall i | 0 <= i < |t| ensures t[i] != NUL {
      if value < 0 && i > 0 {
        assert t[i] == Strings.NatToString(-value)[i - 1];
      }
    }
  }

  /** One pass of the digit loop: the last digit of `v` moves from the
      digits still to produce to the reversed digits produced. */
  lemma DigitStep(digits: seq<char>, v: nat, low: seq<char>)
    requires digits == Strings.NatToString(v) + Reverse(low)
    ensures digits == Pending(v / 10) + Reverse(low + [Strings.DigitChar(v % 10)])
  {
    ReverseSnoc(low, Strings.DigitChar(v % 10));
  }

  class StringLiteral {
    const size: nat
    /** `char buf[Size + 1]`, zero-filled. */
    const buf: array<char>

    predicate Valid()
      reads this, buf
    {
      buf.Length == size + 1 && NUL in buf[..]
    }

    /** The string held: the characters before the first NUL. */
    function Text(): (t: seq<char>)
      reads this, buf
      requires Valid()
      ensures |t| <= size && NUL !in t
    {
      CText(buf[..])
    }

    /** `StringLiteral<Size>()`: every character is NUL. */
    constructor (size: nat)
      ensures Valid() && Text() == [] && this.size == size && fresh(buf)
    {
      this.size := size;
      buf := new char[size + 1](_ => NUL);
      new;
      CTextIs(buf[..], []);
    }

    /** `length()`: counts the characters before the first NUL. */
    method Length() returns (l: nat)
      requires Valid()
      ensures l == |Text()|
    {
      ghost var k := NulIndex(buf[..]);
      l := 0;
      while buf[l] != NUL
        invariant l <= k
        decreases k - l
      {
        l := l + 1;
      }
    }

    /** `append(const char *)`: the characters of `text` up to its NUL are
        written after the string, followed by a new terminator. */
    method Append(text: seq<char>)
      requires Valid() && NUL in text
      requires |Text()| + |CText(text)| <= size
      modifies buf
      ensures Valid() && Text() == old(Text()) + CText(text)
    {
      ghost var before := Text();
      ghost var added := CText(text);
      var start := Length();
      var i := 0;
      while text[i] != NUL
        invariant i <= |added|
        invariant buf[..start] == before
        invariant buf[start..start + i] == added[..i]
        decreases |added| - i
      {
        buf[start + i] := text[i];
        i := i + 1;
      }
      buf[start + i] := NUL;
      assert buf[..start + i] == before + added;
      CTextIs(buf[..], before + added);
    }

    /** `append(StringLiteral<s>)`: the other literal is passed by value, so
        appending a literal to itself doubles it. */
    method AppendLiteral(other: StringLiteral)
      requires Valid() && other.Valid()
      requires |Text()| + |other.Text()| <= size
      modifies buf
      ensures Valid() && Text() == old(Text()) + old(other.Text())
    {
      Append(other.buf[..]);
    }

    /** `append(int)` with a digit buffer of `room` characters: the
        reversed digits are copied back to front after the string. */
    method AppendDecimal(value: int, room: nat)
      requires Valid() && INT_MIN < value <= INT_MAX
      requires |Strings.IntToString(value)| <= room
      requires |Text()| + |Strings.IntToString(value)| <= size
      modifies buf
      ensures Valid() && Text() == old(Text()) + Strings.IntToString(value)
    {
      var valbuf, count := ReversedDecimal(value, room);
      DecimalHasNoNul(value);
      PutReversed(valbuf, count);
    }

    /** The second half of `append(int)`: the first `count` characters of
        `valbuf` are written after the string, last first, followed by a new
        terminator. */
    method PutReversed(valbuf: array<char>, count: nat)
      requires Valid() && valbuf != buf && count <= valbuf.Length
      requires NUL !in Reverse(valbuf[..count])
      requires |Text()| + count <= size
      modifies buf
      ensures Valid() && Text() == old(Text()) + Reverse(valbuf[..count])
    {
      ghost var before := Text();
      ghost var want := Reverse(valbuf[..count]);
      var i := count - 1;
      var start := Length();
      var pos := 0;
      while i >= 0
        invariant -1 <= i < count && pos + i + 1 == count
        invariant buf[..start] == before
        invariant buf[start..start + pos] == want[..pos]
      {
        assert valbuf[i] == want[pos];
        buf[start + pos] := valbuf[i];
        pos := pos + 1;
        i := i - 1;
      }
      assert want[..pos] == want;
      assert buf[..start + pos] == buf[..start] + buf[start..start + pos];
      PutAt(buf, start + pos, NUL);
      assert buf[..start + pos] == before + want && buf[start + pos] == NUL;
      CTextIs(buf[..], before + want);
    }

    /** `append(int)` as written: the digit buffer `valbuf` has 10
        characters. */
    method AppendInt(value: int)
      requires Valid() && INT_MIN < value <= INT_MAX
      requires |Strings.IntToString(value)| <= 10
      requires |Text()| + |Strings.IntToString(value)| <= size
      modifies buf
      ensures Valid() && Text() == old(Text()) + Strings.IntToString(value)
    {
      AppendDecimal(value, 10);
    }

    /** `append(int)` with room for the sign: every `int` except the one
        whose negation overflows. */
    method AppendIntFixed(value: int)
      requires Valid() && INT_MIN < value <= INT_MAX
      requires |Text()| + |Strings.IntToString(value)| <= size
      modifies buf
      ensures Valid() && Text() == old(Text()) + Strings.IntToString(value)
    {
      IntFitsEleven(value);
      AppendDecimal(value, 11);
    }
  }

  /** Ten digits and a sign: the longest decimal form of a 32-bit `int`
      other than `INT_MIN`. */
  lemma IntFitsEleven(value: int)
    requires INT_MIN < value <= INT_MAX
    ensures |Strings.IntToString(value)| <= 11
  {
    var n: nat := if value < 0 then -value else value;
    assert Power10(10) == 10_000_000_000;
    DigitCount(n, 10, Power10(10));
  }

  /** The 10-character `valbuf` has no room for the `-` of a negative value
      with ten digits: `-1000000000` needs eleven. */
  lemma ValbufTooShort()
    ensures INT_MIN < -1_000_000_000 <= INT_MAX
    ensures |Strings.IntToString(-1_000_000_000)| == 11
  {
    assert Power10(9) == 1_000_000_000;
    DigitCountLow(1_000_000_000, 9);
    DigitCount(1_000_000_000, 10, Power10(10));
  }

  /** A number of at least `10^k` has more than `k` digits. */
  lemma {:induction false} DigitCountLow(n: nat, k: nat)
    requires n >= Power10(k)
    ensures |Strings.NatToString(n)| >= k + 1
    decreases k
  {
    if k > 0 {
      DigitCountLow(n / 10, k - 1);
    }
  }

  /** `testStr`: `"test "` followed by `text`. */
  method TestStr(text: seq<char>) returns (r: seq<char>)
    requires NUL !in text && |text| <= 59
    ensures r == "test " + text
  {
    var lit := new StringLiteral(64);
    CTextLiteral("test ", []);
    lit.Append("test " + [NUL]);
    CTextLiteral(text, []);
    lit.Append(text + [NUL]);
    r := lit.Text();
  }

  /** `testNum`: the decimal form of `value`, e.g. `"5"`, `"50"`, `"-50"`
      and `"0"`. */
  method TestNum(value: int) returns (r: seq<char>)
    requires INT_MIN < value <= INT_MAX && |Strings.IntToString(value)| <= 10
    ensures r == Strings.IntToString(value)
  {
    var lit := new StringLiteral(64);
    lit.AppendInt(value);
    r := lit.Text();
  }
}
