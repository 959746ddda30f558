/**
 * Lowercase hexadecimal text, the form in which every hashlib digest is
 * returned by `hexdigest`: two characters per byte, high nibble first.
 */
module Hex {

  /** A digest byte. */
  type Byte = b: int | 0 <= b < 256

  /** The digit for a nibble value 0..15, lowercase as hashlib writes it. */
  function Digit(v: nat): (c: char)
    requires v < 16
    ensures IsHexDigit(c)
    ensures DigitValue(c) == v
  {
    if v < 10 then ('0' as int + v) as char else ('a' as int + v - 10) as char
  }

  predicate IsHexDigit(c: char) {
    ('0' <= c <= '9') || ('a' <= c <= 'f')
  }

  /** The nibble value of a lowercase hex digit. */
  function DigitValue(c: char): (v: nat)
    requires IsHexDigit(c)
    ensures v < 16
  {
    if '0' <= c <= '9' then c as int - '0' as int else c as int - 'a' as int + 10
  }

  predicate IsLowerHex(s: string) {
    forall i :: 0 <= i < |s| ==> IsHexDigit(s[i])
  }

  /** Hex encoding of a byte string. */
  function Encode(bytes: seq<Byte>): (s: string)
    ensures |s| == 2 * |bytes|
    ensures IsLowerHex(s)
  {
    if bytes == [] then []
    else [Digit(bytes[0] / 16), Digit(bytes[0] % 16)] + Encode(bytes[1..])
  }

  /** Decoding of an even-length lowercase hex string. */
  function Decode(s: string): (bytes: seq<Byte>)
    requires |s| % 2 == 0 && IsLowerHex(s)
    ensures 2 * |bytes| == |s|
  {
    if s == [] then []
    else [DigitValue(s[0]) * 16 + DigitValue(s[1])] + Decode(s[2..])
  }

  /** Decoding inverts encoding: the hex text determines the digest bytes. */
  lemma {:induction false} DecodeEncode(bytes: seq<Byte>)
    ensures Decode(Encode(bytes)) == bytes
  {
    if bytes != [] {
      var e := Encode(bytes);
      var hi, lo := bytes[0] / 16, bytes[0] % 16;
      assert e == [Digit(hi), Digit(lo)] + Encode(bytes[1..]);
      assert e[2..] == Encode(bytes[1..]);
      DecodeEncode(bytes[1..]);
      assert Decode(e) == [hi * 16 + lo] + Decode(e[2..]);
    }
  }

  /** Encoding inverts decoding on every even-length lowercase hex string. */
  lemma {:induction false} EncodeDecode(s: string)
    requires |s| % 2 == 0 && IsLowerHex(s)
    ensures Encode(Decode(s)) == s
  {
    if s != [] {
      var hi, lo := DigitValue(s[0]), DigitValue(s[1]);
      var b := hi * 16 + lo;
      var rest := s[2..];
      assert IsLowerHex(rest) by {
        forall i | 0 <= i < |rest| ensures IsHexDigit(rest[i]) {
          assert rest[i] == s[i + 2];
        }
      }
      var d := Decode(s);
      assert d == [b] + Decode(rest);
      assert b / 16 == hi && b % 16 == lo;
      DigitOfValue(s[0]);
      DigitOfValue(s[1]);
      EncodeDecode(rest);
      calc {
        Encode(d);
        [Digit(b / 16), Digit(b % 16)] + Encode(d[1..]);
        { assert d[1..] == Decode(rest); }
        [s[0], s[1]] + rest;
      }
      assert s == [s[0], s[1]] + rest;
    }
  }

  lemma DigitOfValue(c: char)
    requires IsHexDigit(c)
    ensures Digit(DigitValue(c)) == c
  {
  }

  /** Two digests are equal exactly when their hex texts are equal. */
  lemma EncodeInjective(a: seq<Byte>, b: seq<Byte>)
    ensures Encode(a) == Encode(b) <==> a == b
  {
    if Encode(a) == Encode(b) {
      DecodeEncode(a);
      DecodeEncode(b);
    }
  }
}
