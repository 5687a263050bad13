/**
 * Go's encoding/hex as the tree engine uses it: EncodeToString writes two
 * lower-case digits per byte; DecodeString accepts either case and fails on
 * an odd length or on a byte that is not a hex digit.
 */
module Hex {
  import opened Wrappers
  import opened ByteStrings

  predicate IsHexDigit(c: byte)
  {
    (48 <= c <= 57) || (97 <= c <= 102) || (65 <= c <= 70)
  }

  predicate IsLowerHexDigit(c: byte)
  {
    (48 <= c <= 57) || (97 <= c <= 102)
  }

  /** Every byte of `s` is a hex digit, in either case. */
  predicate IsHex(s: Bytes)
  {
    forall i :: 0 <= i < |s| ==> IsHexDigit(s[i])
  }

  /** Every byte of `s` is a lower-case hex digit: the form EncodeToString produces. */
  predicate IsLowerHex(s: Bytes)
  {
    forall i :: 0 <= i < |s| ==> IsLowerHexDigit(s[i])
  }

  /** A full object address: 40 lower-case hex digits. */
  predicate IsHashText(s: Bytes)
  {
    |s| == 40 && IsLowerHex(s)
  }

  function DigitValue(c: byte): (v: nat)
    requires IsHexDigit(c)
    ensures v < 16
  {
    if c <= 57 then c - 48 else if c >= 97 then c - 97 + 10 else c - 65 + 10
  }

  function LowerDigit(v: nat): (c: byte)
    requires v < 16
    ensures IsLowerHexDigit(c) && DigitValue(c) == v
  {
    if v < 10 then 48 + v else 97 + v - 10
  }

  /** hex.EncodeToString. */
  function Encode(b: Bytes): (h: Bytes)
    ensures |h| == 2 * |b|
    ensures IsLowerHex(h)
    decreases |b|
  {
    if |b| == 0 then []
    else
      var t := Encode(b[1..]);
      var h := [LowerDigit(b[0] / 16), LowerDigit(b[0] % 16)] + t;
      assert forall i :: 2 <= i < |h| ==> h[i] == t[i - 2];
      h
  }

  /** hex.DecodeString; None stands for its error. */
  function Decode(h: Bytes): (r: Option<Bytes>)
    ensures r.Some? <==> |h| % 2 == 0 && IsHex(h)
    ensures r.Some? ==> 2 * |r.value| == |h|
    decreases |h|
  {
    if |h| == 0 then Some([])
    else if |h| == 1 then None
    else if !IsHexDigit(h[0]) || !IsHexDigit(h[1]) then None
    else
      var t := Decode(h[2..]);
      assert IsHex(h) <==> IsHex(h[2..]) by {
        assert forall i :: 2 <= i < |h| ==> h[i] == h[2..][i - 2];
      }
      match t
      case None => None
      case Some(rest) => Some([16 * DigitValue(h[0]) + DigitValue(h[1])] + rest)
  }

  /** Decoding what was encoded gives the bytes back. */
  lemma {:induction false} DecodeEncode(b: Bytes)
    ensures Decode(Encode(b)) == Some(b)
    decreases |b|
  {
    if |b| > 0 {
      var h := Encode(b);
      assert h[2..] == Encode(b[1..]);
      DecodeEncode(b[1..]);
      assert 16 * (b[0] / 16) + b[0] % 16 == b[0];
      assert b == [b[0]] + b[1..];
    }
  }

  /** Encoding what was decoded gives the text back, when it was in lower case. */
  lemma {:induction false} EncodeDecode(h: Bytes)
    requires |h| % 2 == 0 && IsLowerHex(h)
    ensures Decode(h).Some? && Encode(Decode(h).value) == h
    decreases |h|
  {
    if |h| > 0 {
      assert IsLowerHex(h[2..]) by {
        assert forall i :: 0 <= i < |h[2..]| ==> h[2..][i] == h[i + 2];
      }
      EncodeDecode(h[2..]);
      var b := Decode(h).value;
      var v := 16 * DigitValue(h[0]) + DigitValue(h[1]);
      assert b == [v] + Decode(h[2..]).value;
      assert v / 16 == DigitValue(h[0]) && v % 16 == DigitValue(h[1]);
      LowerDigitUnique(h[0]);
      LowerDigitUnique(h[1]);
      assert b[1..] == Decode(h[2..]).value;
      assert h == [h[0], h[1]] + h[2..];
    }
  }

  lemma LowerDigitUnique(c: byte)
    requires IsLowerHexDigit(c)
    ensures LowerDigit(DigitValue(c)) == c
  {
  }
}
