// Percent-encoding of bytes as section 2.1 of RFC 3986 describes it, in the
// form the Rust server obtains from its URL-encoding dependency: every byte
// outside the unreserved set (section 2.3 of RFC 3986) becomes `%` followed
// by two upper-case hexadecimal digits; decoding turns each `%` followed by
// two hexadecimal digits of either case back into its byte and keeps every
// other byte, a malformed `%` included, as it is.
module Percent {
  import opened Bytes

  const PERCENT: Byte := 0x25

  /** `A-Z a-z 0-9 - . _ ~`, section 2.3 of RFC 3986. */
  predicate Unreserved(b: Byte) {
    (0x41 <= b <= 0x5A) || (0x61 <= b <= 0x7A) || (0x30 <= b <= 0x39)
    || b == 0x2D || b == 0x2E || b == 0x5F || b == 0x7E
  }

  function HexUpper(d: nat): (c: char)
    requires d < 16
    ensures c as int < 0x80
  {
    if d < 10 then ('0' as int + d) as char else ('A' as int + d - 10) as char
  }

  function HexValue(b: Byte): (r: int)
    ensures -1 <= r < 16
  {
    if 0x30 <= b <= 0x39 then b - 0x30
    else if 0x41 <= b <= 0x46 then b - 0x41 + 10
    else if 0x61 <= b <= 0x66 then b - 0x61 + 10
    else -1
  }

  function EncodeByte(b: Byte): (r: string)
    ensures IsAscii(r)
  {
    if Unreserved(b) then [b as char] else ['%', HexUpper(b / 16), HexUpper(b % 16)]
  }

  /** `urlencoding::encode_binary`. */
  function EncodeBinary(bs: seq<Byte>): (r: string)
    ensures IsAscii(r)
    ensures |r| >= |bs|
  {
    if bs == [] then [] else EncodeByte(bs[0]) + EncodeBinary(bs[1..])
  }

  /** `urlencoding::encode`: the UTF-8 bytes of the text, encoded. */
  function Encode(s: string): string {
    EncodeBinary(Utf8(s))
  }

  /** `urlencoding::decode_binary`. */
  function DecodeBinary(bs: seq<Byte>): (r: seq<Byte>)
    ensures |r| <= |bs|
  {
    if bs == [] then []
    else if |bs| >= 3 && bs[0] == PERCENT && HexValue(bs[1]) >= 0 && HexValue(bs[2]) >= 0 then
      [HexValue(bs[1]) * 16 + HexValue(bs[2])] + DecodeBinary(bs[3..])
    else [bs[0]] + DecodeBinary(bs[1..])
  }

  /** Encoding never produces a byte that needs encoding except the `%`
      that introduces an escape. */
  lemma {:induction false} EncodedText(bs: seq<Byte>)
    ensures forall i :: 0 <= i < |EncodeBinary(bs)| ==>
      var c := EncodeBinary(bs)[i];
      c == '%' || Unreserved(c as int)
    decreases |bs|
  {
    if bs != [] {
      EncodedText(bs[1..]);
      var head := EncodeByte(bs[0]);
      var tail := EncodeBinary(bs[1..]);
      assert EncodeBinary(bs) == head + tail;
      forall i | 0 <= i < |head| ensures head[i] == '%' || Unreserved(head[i] as int) {
        if !Unreserved(bs[0]) && i > 0 {
          var d := if i == 1 then bs[0] / 16 else bs[0] % 16;
          assert head[i] == HexUpper(d);
        }
      }
    }
  }

  /** An unreserved byte encodes as itself, so text made only of unreserved
      characters comes back unchanged. */
  lemma {:induction false} EncodeUnreserved(bs: seq<Byte>)
    requires forall i :: 0 <= i < |bs| ==> Unreserved(bs[i])
    ensures |EncodeBinary(bs)| == |bs|
    ensures forall i :: 0 <= i < |bs| ==> EncodeBinary(bs)[i] as int == bs[i]
    decreases |bs|
  {
    if bs != [] {
      EncodeUnreserved(bs[1..]);
    }
  }

  /** Decoding undoes encoding, for every byte string. */
  lemma {:induction false} DecodeEncode(bs: seq<Byte>)
    ensures DecodeBinary(Utf8(EncodeBinary(bs))) == bs
    decreases |bs|
  {
    if bs != [] {
      var head := EncodeByte(bs[0]);
      var tail := EncodeBinary(bs[1..]);
      Utf8Append(head, tail);
      DecodeEncode(bs[1..]);
      DecodeOne(bs[0], Utf8(tail));
    }
  }

  /** The encoding of one byte decodes to that byte, whatever follows. */
  lemma DecodeOne(b: Byte, rest: seq<Byte>)
    ensures DecodeBinary(Utf8(EncodeByte(b)) + rest) == [b] + DecodeBinary(rest)
  {
    var head := EncodeByte(b);
    Utf8Ascii(head);
    var u := Utf8(head) + rest;
    if Unreserved(b) {
      assert u[0] == b && u[1..] == rest;
    } else {
      assert u[0] == PERCENT;
      assert u[1] == HexUpper(b / 16) as int && u[2] == HexUpper(b % 16) as int;
      assert HexValue(u[1]) == b / 16 && HexValue(u[2]) == b % 16;
      assert u[3..] == rest;
    }
  }
}
