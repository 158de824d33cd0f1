/** Lower-case hexadecimal text, as produced by Go's `%x` verb on a byte array. */
module Hex {
  import opened Base

  /** '0'..'9' or 'a'..'f' as an ASCII byte. */
  predicate IsLowerHexDigit(c: byte)
  {
    '0' as int <= c <= '9' as int || 'a' as int <= c <= 'f' as int
  }

  function DigitValue(c: byte): (n: int)
    requires IsLowerHexDigit(c)
    ensures 0 <= n < 16
  {
    if c <= '9' as int then c - '0' as int else c - 'a' as int + 10
  }

  /** The ASCII digit for a nibble; DigitValue undoes it. */
  function Digit(n: int): (c: byte)
    requires 0 <= n < 16
    ensures IsLowerHexDigit(c)
    ensures DigitValue(c) == n
  {
    if n < 10 then '0' as int + n else 'a' as int + (n - 10)
  }

  /** Two digits per byte, high nibble first. */
  function Encode(s: Bytes): (h: Bytes)
    ensures |h| == 2 * |s|
    ensures forall i :: 0 <= i < |h| ==> IsLowerHexDigit(h[i])
  {
    if s == [] then [] else [Digit(s[0] / 16), Digit(s[0] % 16)] + Encode(s[1..])
  }

  /** The inverse of Encode: None on odd length or a character outside [0-9a-f]. */
  function Decode(h: Bytes): (r: Option<Bytes>)
    ensures r.Some? ==> 2 * |r.value| == |h|
  {
    if |h| == 0 then Some([])
    else if |h| == 1 || !IsLowerHexDigit(h[0]) || !IsLowerHexDigit(h[1]) then None
    else match Decode(h[2..])
      case None => None
      case Some(rest) => Some([16 * DigitValue(h[0]) + DigitValue(h[1])] + rest)
  }

  lemma {:induction false} DecodeEncode(s: Bytes)
    ensures Decode(Encode(s)) == Some(s)
  {
    if s != [] {
      var h := Encode(s);
      assert h[2..] == Encode(s[1..]);
      DecodeEncode(s[1..]);
      assert 16 * DigitValue(h[0]) + DigitValue(h[1]) == s[0];
      assert [s[0]] + s[1..] == s;
    }
  }

  /** Every text Decode accepts is the canonical encoding of what it decodes to. */
  lemma {:induction false} EncodeDecode(h: Bytes)
    requires Decode(h).Some?
    ensures Encode(Decode(h).value) == h
  {
    if |h| != 0 {
      var rest := Decode(h[2..]).value;
      EncodeDecode(h[2..]);
      var b := 16 * DigitValue(h[0]) + DigitValue(h[1]);
      assert Decode(h).value == [b] + rest;
      assert ([b] + rest)[1..] == rest;
      assert Digit(b / 16) == h[0] by {
        assert DigitValue(Digit(b / 16)) == DigitValue(h[0]);
        DigitInjective(Digit(b / 16), h[0]);
      }
      assert Digit(b % 16) == h[1] by {
        assert DigitValue(Digit(b % 16)) == DigitValue(h[1]);
        DigitInjective(Digit(b % 16), h[1]);
      }
      assert h == [h[0], h[1]] + h[2..];
    }
  }

  lemma DigitInjective(a: byte, b: byte)
    requires IsLowerHexDigit(a) && IsLowerHexDigit(b)
    requires DigitValue(a) == DigitValue(b)
    ensures a == b
  {
  }

  /** Distinct byte strings have distinct encodings. */
  lemma EncodeInjective(a: Bytes, b: Bytes)
    ensures Encode(a) == Encode(b) <==> a == b
  {
    if Encode(a) == Encode(b) {
      DecodeEncode(a);
      DecodeEncode(b);
    }
  }
}
