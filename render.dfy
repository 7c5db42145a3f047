/**
 * Rendering of one received block, shared by both serial monitors:
 * `data.hex().upper()` and the printable-ASCII comprehension
 * `chr(b) if 32 <= b <= 126 else '.'`.
 */
module Render {
  import opened Wrappers

  newtype byte = x: int | 0 <= x < 256

  /** An upper-case hexadecimal digit, the only characters `ToHex` produces. */
  predicate IsUpperHex(c: char) {
    '0' <= c <= '9' || 'A' <= c <= 'F'
  }

  /** A byte value in the printable ASCII range [32, 126]. */
  predicate Printable(b: byte) {
    32 <= b <= 126
  }

  /** The value of an upper-case hexadecimal digit; None for any other character. */
  function DigitValue(c: char): (r: Option<int>)
    ensures r.Some? <==> IsUpperHex(c)
    ensures r.Some? ==> 0 <= r.value < 16
  {
    if '0' <= c <= '9' then Some(c as int - '0' as int)
    else if 'A' <= c <= 'F' then Some(c as int - 'A' as int + 10)
    else None
  }

  /** The upper-case digit for a nibble; `DigitValue` inverts it. */
  function HexDigit(n: int): (c: char)
    requires 0 <= n < 16
    ensures IsUpperHex(c)
    ensures DigitValue(c) == Some(n)
  {
    if n < 10 then ('0' as int + n) as char else ('A' as int + n - 10) as char
  }

  /** The two digits of one byte, high nibble first. */
  function ByteHex(b: byte): (s: string)
    ensures |s| == 2
    ensures DigitValue(s[0]) == Some(b as int / 16) && DigitValue(s[1]) == Some(b as int % 16)
  {
    [HexDigit(b as int / 16), HexDigit(b as int % 16)]
  }

  /** `data.hex().upper()`: two upper-case digits per byte, no separators. */
  function ToHex(data: seq<byte>): (s: string)
    ensures |s| == 2 * |data|
    ensures forall i :: 0 <= i < |s| ==> IsUpperHex(s[i])
  {
    if data == [] then "" else ByteHex(data[0]) + ToHex(data[1..])
  }

  /** Decoding of upper-case hex text; None on an odd length or a non-digit. */
  function FromHex(s: string): (r: Option<seq<byte>>)
    ensures r.Some? ==> |s| == 2 * |r.value|
  {
    if |s| == 0 then Some([])
    else if |s| == 1 then None
    else
      match (DigitValue(s[0]), DigitValue(s[1]), FromHex(s[2..]))
      case (Some(hi), Some(lo), Some(rest)) => Some([(hi * 16 + lo) as byte] + rest)
      case _ => None
  }

  /** Characters 2i and 2i+1 of the hex text are the digits of byte i. */
  lemma {:induction false} ToHexAt(data: seq<byte>, i: int)
    requires 0 <= i < |data|
    ensures ToHex(data)[2 * i..2 * i + 2] == ByteHex(data[i])
  {
    if i > 0 {
      ToHexAt(data[1..], i - 1);
      assert ToHex(data) == ByteHex(data[0]) + ToHex(data[1..]);
    }
  }

  /** Decoding the rendered hex gives back the received bytes. */
  lemma {:induction false} HexRoundTrip(data: seq<byte>)
    ensures FromHex(ToHex(data)) == Some(data)
  {
    if data != [] {
      var s := ToHex(data);
      HexRoundTrip(data[1..]);
      assert s[..2] == ByteHex(data[0]) && s[2..] == ToHex(data[1..]);
      assert [data[0]] + data[1..] == data;
    }
  }

  /** Any text that decodes to `data` is exactly the rendering of `data`. */
  lemma {:induction false} HexDecodeSound(s: string, data: seq<byte>)
    requires FromHex(s) == Some(data)
    ensures ToHex(data) == s
  {
    if |s| >= 2 {
      var hi, lo := DigitValue(s[0]).value, DigitValue(s[1]).value;
      HexDecodeSound(s[2..], data[1..]);
      assert data[0] as int == hi * 16 + lo;
      assert ByteHex(data[0]) == s[..2] by {
        assert DigitValue(HexDigit(hi)) == DigitValue(s[0]);
        assert DigitValue(HexDigit(lo)) == DigitValue(s[1]);
      }
      assert s == s[..2] + s[2..];
    }
  }

  /** Distinct blocks never render to the same hex text. */
  lemma HexInjective(a: seq<byte>, b: seq<byte>)
    requires ToHex(a) == ToHex(b)
    ensures a == b
  {
    HexRoundTrip(a);
    HexRoundTrip(b);
  }

  /** One character of the ASCII rendering. */
  function AsciiChar(b: byte): (c: char)
    ensures 32 <= c as int <= 126
    ensures Printable(b) <==> c as int == b as int
    ensures !Printable(b) ==> c == '.'
  {
    if Printable(b) then (b as int) as char else '.'
  }

  /** The ASCII rendering: one character per byte, '.' for every non-printable byte. */
  function ToAscii(data: seq<byte>): (s: string)
    ensures |s| == |data|
    ensures forall i :: 0 <= i < |data| ==> s[i] == AsciiChar(data[i])
  {
    if data == [] then "" else [AsciiChar(data[0])] + ToAscii(data[1..])
  }

  /** A block of printable bytes is shown verbatim. */
  lemma PrintableShownVerbatim(data: seq<byte>)
    requires forall i :: 0 <= i < |data| ==> Printable(data[i])
    ensures forall i :: 0 <= i < |data| ==> ToAscii(data)[i] as int == data[i] as int
  {
  }
}
