/** Lower-case hexadecimal rendering of bytes, as Node's `digest('hex')` produces
    it, and its inverse. */
module Hex {
  import opened Utf8

  predicate IsHexDigit(c: char) {
    ('0' <= c <= '9') || ('a' <= c <= 'f')
  }

  /** The lower-case digit for a nibble: `0`-`9`, then `a`-`f`. */
  function DigitChar(v: nat): (c: char)
    requires v < 16
    ensures IsHexDigit(c)
  {
    if v < 10 then ('0' as int + v) as char else ('a' as int + v - 10) as char
  }

  function DigitValue(c: char): (v: nat)
    requires IsHexDigit(c)
    ensures v < 16 && DigitChar(v) == c
  {
    if c <= '9' then c as int - '0' as int else c as int - 'a' as int + 10
  }

  /** Two hex digits per byte, high nibble first. */
  function Encode(d: seq<Byte>): (h: string)
    ensures |h| == 2 * |d|
    ensures forall k :: 0 <= k < |h| ==> IsHexDigit(h[k])
  {
    if d == [] then "" else [DigitChar(d[0] / 16), DigitChar(d[0] % 16)] + Encode(d[1..])
  }

  /** The bytes a text of hex digit pairs stands for. */
  function Decode(h: string): (d: seq<Byte>)
    requires |h| % 2 == 0
    requires forall k :: 0 <= k < |h| ==> IsHexDigit(h[k])
    ensures |d| == |h| / 2
  {
    if h == [] then [] else [DigitValue(h[0]) * 16 + DigitValue(h[1])] + Decode(h[2..])
  }

  lemma DigitValueOfDigitChar(v: nat)
    requires v < 16
    ensures DigitValue(DigitChar(v)) == v
  {
  }

  lemma {:induction false} DecodeEncode(d: seq<Byte>)
    ensures Decode(Encode(d)) == d
  {
    if d != [] {
      var h := Encode(d);
      var tail := Encode(d[1..]);
      assert h == [DigitChar(d[0] / 16), DigitChar(d[0] % 16)] + tail;
      assert h[2..] == tail;
      DigitValueOfDigitChar(d[0] / 16);
      DigitValueOfDigitChar(d[0] % 16);
      DecodeEncode(d[1..]);
      assert Decode(h) == [DigitValue(h[0]) * 16 + DigitValue(h[1])] + Decode(tail);
      assert [d[0]] + d[1..] == d;
    }
  }

  /** Different digests render as different texts. */
  lemma EncodeInjective(a: seq<Byte>, b: seq<Byte>)
    ensures Encode(a) == Encode(b) <==> a == b
  {
    if Encode(a) == Encode(b) {
      DecodeEncode(a);
      DecodeEncode(b);
    }
  }

  /** A hex rendering is ASCII, so its UTF-8 bytes are one per digit. */
  lemma EncodeIsAscii(d: seq<Byte>)
    ensures IsAscii(Encode(d))
    ensures |Utf8.Encode(Encode(d))| == 2 * |d|
  {
    EncodeAscii(Encode(d));
  }
}
