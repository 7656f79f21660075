/** Lower-case hexadecimal encoding of bytes, as Go's encoding/hex EncodeToString does it. */
module Hex {
  import opened Wrappers
  import opened Bytes

  /** The ASCII codes of '0'..'9' and 'a'..'f'. */
  predicate IsLowerHexDigit(c: Byte)
  {
    48 <= c <= 57 || 97 <= c <= 102
  }

  /** The character for one nibble: "0123456789abcdef"[n]. */
  function Digit(n: nat): (c: Byte)
    requires n < 16
    ensures IsLowerHexDigit(c)
  {
    if n < 10 then 48 + n else 87 + n
  }

  /** The nibble a lower-case hex character stands for, or None for any other byte. */
  function DigitValue(c: Byte): (r: Option<nat>)
    ensures r.Some? <==> IsLowerHexDigit(c)
    ensures r.Some? ==> r.value < 16 && Digit(r.value) == c
  {
    if 48 <= c <= 57 then Some(c - 48)
    else if 97 <= c <= 102 then Some(c - 87)
    else None
  }

  /** hex.EncodeToString: two lower-case characters per byte, high nibble first. */
  function Encode(b: ByteString): (r: ByteString)
    ensures |r| == 2 * |b|
    ensures forall i | 0 <= i < |r| :: IsLowerHexDigit(r[i])
  {
    if b == [] then [] else [Digit(b[0] / 16), Digit(b[0] % 16)] + Encode(b[1..])
  }

  /** The inverse of Encode: None for an odd length or a byte that is not a lower-case hex digit. */
  function Decode(s: ByteString): (r: Option<ByteString>)
    ensures r.Some? ==> 2 * |r.value| == |s|
  {
    if |s| == 0 then Some([])
    else if |s| == 1 then None
    else
      match (DigitValue(s[0]), DigitValue(s[1]), Decode(s[2..]))
      case (Some(hi), Some(lo), Some(rest)) => Some([hi * 16 + lo] + rest)
      case _ => None
  }

  /** Decoding an encoding gives back the bytes. */
  lemma {:induction false} DecodeEncode(b: ByteString)
    ensures Decode(Encode(b)) == Some(b)
  {
    if b != [] {
      var s := Encode(b);
      assert s[2..] == Encode(b[1..]);
      DecodeEncode(b[1..]);
      assert DigitValue(s[0]) == Some(b[0] / 16);
      assert DigitValue(s[1]) == Some(b[0] % 16);
      assert [b[0]] + b[1..] == b;
    }
  }

  /** Whatever decodes is the encoding of what it decodes to. */
  lemma {:induction false} EncodeDecode(s: ByteString, b: ByteString)
    requires Decode(s) == Some(b)
    ensures Encode(b) == s
  {
    if |s| >= 2 {
      var hi := DigitValue(s[0]).value;
      var lo := DigitValue(s[1]).value;
      var rest := Decode(s[2..]).value;
      assert b == [hi * 16 + lo] + rest;
      EncodeDecode(s[2..], rest);
      assert (hi * 16 + lo) / 16 == hi && (hi * 16 + lo) % 16 == lo;
      assert b[1..] == rest;
      assert s == [s[0], s[1]] + s[2..];
    }
  }

  /** The encoding of b is exactly the string that decodes to b; so Encode is one-to-one. */
  lemma EncodeIffDecode(s: ByteString, b: ByteString)
    ensures Encode(b) == s <==> Decode(s) == Some(b)
  {
    if Encode(b) == s {
      DecodeEncode(b);
    }
    if Decode(s) == Some(b) {
      EncodeDecode(s, b);
    }
  }

  /** Encoding works byte by byte: the encoding of a concatenation is the concatenation of the encodings. */
  lemma {:induction false} EncodeAppend(a: ByteString, b: ByteString)
    ensures Encode(a + b) == Encode(a) + Encode(b)
  {
    if a == [] {
      assert a + b == b;
    } else {
      assert (a + b)[1..] == a[1..] + b;
      EncodeAppend(a[1..], b);
    }
  }
}
