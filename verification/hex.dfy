/** Lower-case hexadecimal rendering of byte strings, as `str_to_hex` does
    when printing a digest, together with the decoder that inverts it. */
module Hex {
  import opened Wrappers

  /** An unsigned byte; `str_to_hex` first copies the string into
      `unsigned char`s, so every byte is read as a value in 0..255. */
  newtype byte = x: int | 0 <= x < 256

  /** The character for a hex digit value, lower case. */
  function HexDigit(n: int): (c: char)
    requires 0 <= n < 16
    ensures IsHexDigit(c)
  {
    if n < 10 then ('0' as int + n) as char else ('a' as int + n - 10) as char
  }

  predicate IsHexDigit(c: char) {
    '0' <= c <= '9' || 'a' <= c <= 'f'
  }

  /** The value of a lower-case hex digit; anything else is rejected. */
  function DigitValue(c: char): (v: Option<int>)
    ensures v.Some? <==> IsHexDigit(c)
    ensures v.Some? ==> 0 <= v.value < 16 && HexDigit(v.value) == c
  {
    if '0' <= c <= '9' then Some(c as int - '0' as int)
    else if 'a' <= c <= 'f' then Some(c as int - 'a' as int + 10)
    else None
  }

  /** Each byte becomes two characters: the digit for its high nibble,
      then the digit for its low nibble (so values below 16 get a leading
      zero, as `std::setw(2) << std::setfill('0')` pads them). */
  function ToHex(s: seq<byte>): (h: string)
    ensures |h| == 2 * |s|
    ensures forall k :: 0 <= k < |h| ==> IsHexDigit(h[k])
  {
    if s == [] then ""
    else [HexDigit(s[0] as int / 16), HexDigit(s[0] as int % 16)] + ToHex(s[1..])
  }

  /** Reads a string of lower-case hex digit pairs back into bytes. */
  function FromHex(h: string): (r: Option<seq<byte>>)
    ensures r.Some? ==> 2 * |r.value| == |h|
    decreases |h|
  {
    if |h| == 0 then Some([])
    else if |h| == 1 then None
    else
      match (DigitValue(h[0]), DigitValue(h[1]), FromHex(h[2..]))
      case (Some(hi), Some(lo), Some(rest)) => Some([(hi * 16 + lo) as byte] + rest)
      case _ => None
  }

  /** Byte `i` of the input is rendered at positions `2i` and `2i+1`, high
      nibble first. */
  lemma {:induction false} ToHexDigits(s: seq<byte>, i: int)
    requires 0 <= i < |s|
    ensures ToHex(s)[2 * i] == HexDigit(s[i] as int / 16)
    ensures ToHex(s)[2 * i + 1] == HexDigit(s[i] as int % 16)
    decreases |s|
  {
    if i > 0 {
      ToHexDigits(s[1..], i - 1);
      assert ToHex(s)[2 * i] == ToHex(s[1..])[2 * (i - 1)];
      assert ToHex(s)[2 * i + 1] == ToHex(s[1..])[2 * (i - 1) + 1];
    }
  }

  /** Decoding the rendering of any byte string gives the bytes back. */
  lemma {:induction false} HexRoundTrip(s: seq<byte>)
    ensures FromHex(ToHex(s)) == Some(s)
    decreases |s|
  {
    if s != [] {
      var h := ToHex(s);
      assert h[2..] == ToHex(s[1..]);
      HexRoundTrip(s[1..]);
      var hi, lo := s[0] as int / 16, s[0] as int % 16;
      assert DigitValue(h[0]) == Some(hi);
      assert DigitValue(h[1]) == Some(lo);
      assert [(hi * 16 + lo) as byte] + s[1..] == s;
    }
  }

  /** Conversely, every string the decoder accepts is the rendering of
      what it decodes to: the rendering is exactly the lower-case hex
      strings of even length. */
  lemma {:induction false} HexDecodeRoundTrip(h: string)
    requires FromHex(h).Some?
    ensures ToHex(FromHex(h).value) == h
    decreases |h|
  {
    if |h| >= 2 {
      var hi, lo := DigitValue(h[0]).value, DigitValue(h[1]).value;
      var rest := FromHex(h[2..]).value;
      HexDecodeRoundTrip(h[2..]);
      var b := (hi * 16 + lo) as byte;
      assert FromHex(h).value == [b] + rest;
      assert b as int / 16 == hi && b as int % 16 == lo;
      assert ([b] + rest)[1..] == rest;
      assert h == [h[0], h[1]] + h[2..];
    }
  }

  /** Different byte strings never share a rendering. */
  lemma ToHexInjective(a: seq<byte>, b: seq<byte>)
    ensures ToHex(a) == ToHex(b) ==> a == b
  {
    HexRoundTrip(a);
    HexRoundTrip(b);
  }
}
