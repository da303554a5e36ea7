/**
 * Lowercase base16 ("hex") encoding of bytes, as in section 8 of RFC 4648:
 * every byte becomes two characters, the high nibble first, drawn from the
 * alphabet 0-9a-f. This is what Go's hex.EncodeToString produces; a decoder
 * for the same alphabet is given as the encoder's inverse.
 */
module Hex {
  import opened Wrappers

  newtype byte = x: int | 0 <= x < 256

  /** The lowercase base16 alphabet. */
  predicate IsLowerHexDigit(c: char) {
    ('0' <= c <= '9') || ('a' <= c <= 'f')
  }

  /** The alphabet character for a nibble value. */
  function HexDigit(v: int): (c: char)
    requires 0 <= v < 16
    ensures IsLowerHexDigit(c)
  {
    if v < 10 then ('0' as int + v) as char else ('a' as int + v - 10) as char
  }

  /** The nibble value of an alphabet character. */
  function DigitValue(c: char): (v: int)
    requires IsLowerHexDigit(c)
    ensures 0 <= v < 16
  {
    if c <= '9' then c as int - '0' as int else c as int - 'a' as int + 10
  }

  lemma DigitRoundTrip(v: int)
    requires 0 <= v < 16
    ensures DigitValue(HexDigit(v)) == v
  {
  }

  lemma CharRoundTrip(c: char)
    requires IsLowerHexDigit(c)
    ensures HexDigit(DigitValue(c)) == c
  {
  }

  function High(b: byte): int { b as int / 16 }
  function Low(b: byte): int { b as int % 16 }

  /** hex.EncodeToString: character 2i is the high nibble of byte i, 2i+1 its low nibble. */
  function Encode(b: seq<byte>): (s: string)
    ensures |s| == 2 * |b|
    ensures forall i :: 0 <= i < |b| ==> s[2 * i] == HexDigit(High(b[i])) && s[2 * i + 1] == HexDigit(Low(b[i]))
    ensures forall k :: 0 <= k < |s| ==> IsLowerHexDigit(s[k])
  {
    if b == [] then []
    else
      var rest := Encode(b[1..]);
      var s := [HexDigit(High(b[0])), HexDigit(Low(b[0]))] + rest;
      assert forall k :: 2 <= k < |s| ==> s[k] == rest[k - 2];
      assert forall i :: 1 <= i < |b| ==> b[i] == b[1..][i - 1];
      EncodeStep(s, rest, b);
      s
  }

  /** Pointwise shape of one step of Encode, kept apart to keep Encode's proof small. */
  lemma EncodeStep(s: string, rest: string, b: seq<byte>)
    requires |b| >= 1 && |rest| == 2 * (|b| - 1) && |s| == |rest| + 2
    requires forall k :: 2 <= k < |s| ==> s[k] == rest[k - 2]
    requires forall i :: 1 <= i < |b| ==> b[i] == b[1..][i - 1]
    requires forall i :: 0 <= i < |b| - 1 ==>
               rest[2 * i] == HexDigit(High(b[1..][i])) && rest[2 * i + 1] == HexDigit(Low(b[1..][i]))
    requires s[0] == HexDigit(High(b[0])) && s[1] == HexDigit(Low(b[0]))
    ensures forall i :: 0 <= i < |b| ==> s[2 * i] == HexDigit(High(b[i])) && s[2 * i + 1] == HexDigit(Low(b[i]))
  {
    forall i | 1 <= i < |b|
      ensures s[2 * i] == HexDigit(High(b[i])) && s[2 * i + 1] == HexDigit(Low(b[i]))
    {
      var j := i - 1;
      assert 2 * i == 2 * j + 2;
      assert s[2 * i] == rest[2 * j];
      assert s[2 * i + 1] == rest[2 * j + 1];
    }
  }

  /** Base16 decoding over the lowercase alphabet; odd length or a foreign character fails. */
  function Decode(s: string): (r: Option<seq<byte>>)
    decreases |s|
  {
    if |s| == 0 then Some([])
    else if |s| == 1 || !IsLowerHexDigit(s[0]) || !IsLowerHexDigit(s[1]) then None
    else
      match Decode(s[2..])
      case None => None
      case Some(rest) => Some([(DigitValue(s[0]) * 16 + DigitValue(s[1])) as byte] + rest)
  }

  /** Decoding undoes encoding. */
  lemma {:induction false} DecodeEncode(b: seq<byte>)
    ensures Decode(Encode(b)) == Some(b)
  {
    if b != [] {
      var s := Encode(b);
      assert s[2..] == Encode(b[1..]);
      DecodeEncode(b[1..]);
      DigitRoundTrip(High(b[0]));
      DigitRoundTrip(Low(b[0]));
      assert [b[0]] + b[1..] == b;
    }
  }

  /** Whatever decodes was the encoding of what it decodes to. */
  lemma {:induction false} EncodeDecode(s: string, b: seq<byte>)
    requires Decode(s) == Some(b)
    ensures Encode(b) == s
    decreases |s|
  {
    if |s| != 0 {
      var rest := Decode(s[2..]).value;
      var hi, lo := DigitValue(s[0]), DigitValue(s[1]);
      assert b == [(hi * 16 + lo) as byte] + rest;
      EncodeDecode(s[2..], rest);
      CharRoundTrip(s[0]);
      CharRoundTrip(s[1]);
      assert High(b[0]) == hi && Low(b[0]) == lo;
      assert b[1..] == rest;
      assert s == [s[0], s[1]] + s[2..];
    }
  }

  /** Distinct byte strings have distinct encodings. */
  lemma EncodeInjective(a: seq<byte>, b: seq<byte>)
    ensures Encode(a) == Encode(b) <==> a == b
  {
    DecodeEncode(a);
    DecodeEncode(b);
  }
}
