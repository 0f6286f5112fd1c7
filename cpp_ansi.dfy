// The colour helpers and log levels of the C++ server's logger
// (shared/gemcaps/log.hpp): `getColor` and `getStyle` build a Select Graphic
// Rendition control sequence (section 8.3.117 of ECMA-48), `ESC [ n m`, in a
// `StringLiteral<8>` by successive appends.
module CppAnsi {
  import opened CStrings
  import Strings
  import CppStringLiteral

  /** `COLOR_ESCAPE`: the Control Sequence Introducer, ESC `[`. */
  const COLOR_ESCAPE: string := ['\U{1B}', '[']

  datatype Color = Black | Red | Green | Yellow | Blue | Magenta | Cyan | White

  /** The enumerator values of `color::Color`. */
  function ColorValue(c: Color): (v: nat)
    ensures v < 8
  {
    match c
    case Black => 0
    case Red => 1
    case Green => 2
    case Yellow => 3
    case Blue => 4
    case Magenta => 5
    case Cyan => 6
    case White => 7
  }

  datatype Style = Reset | Bold | Underline | Reversed

  /** The enumerator values of `color::Style`. */
  function StyleValue(s: Style): (v: nat)
    ensures v < 8
  {
    match s
    case Reset => 0
    case Bold => 1
    case Underline => 4
    case Reversed => 7
  }

  /** A Select Graphic Rendition sequence with the given parameters,
      written in decimal and separated by `;` (section 8.3.117 of
      ECMA-48). */
  function Sgr(params: seq<nat>): string {
    COLOR_ESCAPE + Strings.Join(Decimals(params), ";") + "m"
  }

  function Decimals(params: seq<nat>): (r: seq<string>)
    ensures |r| == |params|
    ensures forall i :: 0 <= i < |params| ==> r[i] == Strings.NatToString(params[i])
  {
    if params == [] then [] else Decimals(params[..|params| - 1]) + [Strings.NatToString(params[|params| - 1])]
  }

  /** `getColor(color, bold, background)`: the colour's parameter is 30 plus
      its value for the foreground and 40 plus its value for the background,
      followed by `;1` when bold. */
  method GetColor(color: Color, bold: bool, background: bool) returns (c: CppStringLiteral.StringLiteral)
    ensures fresh(c) && fresh(c.buf) && c.Valid() && c.size == 8
    ensures c.Text() == COLOR_ESCAPE + Strings.NatToString((if background then 40 else 30) + ColorValue(color))
      + (if bold then ";1m" else "m")
  {
    var modifier := if background then 40 else 30;
    ghost var digits := Strings.NatToString(modifier + ColorValue(color));
    c := new CppStringLiteral.StringLiteral(8);
    CTextLiteral(COLOR_ESCAPE, []);
    c.Append(COLOR_ESCAPE + [NUL]);
    assert c.Text() == COLOR_ESCAPE;
    TwoDigitLength(modifier + ColorValue(color));
    assert Strings.IntToString(modifier + ColorValue(color)) == digits;
    c.AppendInt(modifier + ColorValue(color));
    assert c.Text() == COLOR_ESCAPE + digits;
    var suffix := if bold then ";1m" else "m";
    CTextLiteral(suffix, []);
    c.Append(suffix + [NUL]);
  }

  /** `getStyle(style)`: the style's value is the only parameter. */
  method GetStyle(style: Style) returns (c: CppStringLiteral.StringLiteral)
    ensures fresh(c) && fresh(c.buf) && c.Valid() && c.size == 8
    ensures c.Text() == COLOR_ESCAPE + Strings.NatToString(StyleValue(style)) + "m"
  {
    c := new CppStringLiteral.StringLiteral(8);
    CTextLiteral(COLOR_ESCAPE, []);
    c.Append(COLOR_ESCAPE + [NUL]);
    assert c.Text() == COLOR_ESCAPE;
    c.AppendInt(StyleValue(style));
    assert c.Text() == COLOR_ESCAPE + Strings.NatToString(StyleValue(style));
    CTextLiteral("m", []);
    c.Append("m" + [NUL]);
  }

  lemma TwoDigitLength(n: nat)
    requires 10 <= n < 100
    ensures |Strings.NatToString(n)| == 2
  {
  }

  /** The text `getColor` builds is the SGR sequence with the colour's
      parameter, and `1` (bold) after it when bold; at 7 characters at most
      it fits the 8 of `StringLiteral<8>`. */
  lemma ColorIsSgr(color: Color, bold: bool, background: bool)
    ensures var n := (if background then 40 else 30) + ColorValue(color);
      var t := COLOR_ESCAPE + Strings.NatToString(n) + (if bold then ";1m" else "m");
      t == Sgr([n] + (if bold then [1] else [])) && |t| <= 7
  {
    var n := (if background then 40 else 30) + ColorValue(color);
    TwoDigitLength(n);
    if bold {
      assert Decimals([n, 1]) == [Strings.NatToString(n), "1"];
      assert Strings.Join([Strings.NatToString(n), "1"], ";") == Strings.NatToString(n) + ";" + "1";
    } else {
      assert Decimals([n]) == [Strings.NatToString(n)];
      assert Strings.Join([Strings.NatToString(n)], ";") == Strings.NatToString(n);
    }
  }

  /** The text `getStyle` builds is the SGR sequence with the style's
      parameter; `reset` is `ESC [0m`. */
  lemma StyleIsSgr(style: Style)
    ensures COLOR_ESCAPE + Strings.NatToString(StyleValue(style)) + "m" == Sgr([StyleValue(style)])
    ensures Sgr([StyleValue(Reset)]) == ['\U{1B}', '[', '0', 'm']
  {
    assert Decimals([StyleValue(style)]) == [Strings.NatToString(StyleValue(style))];
    assert Strings.Join([Strings.NatToString(StyleValue(style))], ";") == Strings.NatToString(StyleValue(style));
    assert Decimals([0]) == ["0"];
    assert Strings.Join(["0"], ";") == "0";
  }

  /** `logging::Mode`. */
  datatype Mode = None | Error | Warn | Info | Debug

  function ModeValue(m: Mode): nat {
    match m
    case None => 0
    case Error => 10
    case Warn => 20
    case Info => 30
    case Debug => 40
  }

  /** The levels grow with verbosity, so "log at `m` under mode `current`"
      is `ModeValue(current) >= ModeValue(m)`. */
  lemma ModesOrdered()
    ensures ModeValue(None) < ModeValue(Error) < ModeValue(Warn) < ModeValue(Info) < ModeValue(Debug)
  {
  }
}
