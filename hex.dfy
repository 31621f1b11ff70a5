/**
 * Lowercase hexadecimal text, as the `hex` crate's `encode` writes it: each
 * byte becomes two digits from `0123456789abcdef`, high nibble first. The
 * decoder is the partner that shows no information is lost.
 */
module Hex {
  import opened Wrappers
  import opened Bytes

  predicate IsLowerHexDigit(ch: char)
  {
    '0' <= ch <= '9' || 'a' <= ch <= 'f'
  }

  /** The digit for a nibble. */
  function Digit(v: nat): (ch: char)
    requires v < 16
    ensures IsLowerHexDigit(ch)
    ensures DigitValue(ch) == Some(v)
  {
    if v < 10 then ('0' as int + v) as char else ('a' as int + (v - 10)) as char
  }

  /** The nibble a lowercase digit stands for; None for any other character. */
  function DigitValue(ch: char): (r: Option<nat>)
    ensures r.Some? <==> IsLowerHexDigit(ch)
    ensures r.Some? ==> r.value < 16
  {
    if '0' <= ch <= '9' then Some(ch as int - '0' as int)
    else if 'a' <= ch <= 'f' then Some(ch as int - 'a' as int + 10)
    else None
  }

  /** `hex::encode`. */
  function Encode(bs: seq<byte>): (s: string)
    ensures |s| == 2 * |bs|
  {
    if bs == [] then "" else [Digit(bs[0] / 16), Digit(bs[0] % 16)] + Encode(bs[1..])
  }

  /** Every character `Encode` writes is a lowercase hexadecimal digit. */
  lemma {:induction false} EncodeIsLowerHex(bs: seq<byte>)
    ensures forall k :: 0 <= k < |Encode(bs)| ==> IsLowerHexDigit(Encode(bs)[k])
  {
    if bs != [] {
      EncodeIsLowerHex(bs[1..]);
      var s := Encode(bs);
      assert s == [Digit(bs[0] / 16), Digit(bs[0] % 16)] + Encode(bs[1..]);
      forall k | 2 <= k < |s|
        ensures IsLowerHexDigit(s[k])
      {
        assert s[k] == Encode(bs[1..])[k - 2];
      }
    }
  }

  /** Reads lowercase hexadecimal text back into bytes: None for an odd length or a foreign character. */
  function Decode(s: string): (r: Option<seq<byte>>)
    ensures r.Some? ==> 2 * |r.value| == |s|
  {
    if s == [] then Some([])
    else if |s| == 1 then None
    else
      match (DigitValue(s[0]), DigitValue(s[1]), Decode(s[2..]))
      case (Some(hi), Some(lo), Some(rest)) => Some([hi * 16 + lo] + rest)
      case _ => None
  }

  lemma {:induction false} DecodeEncode(bs: seq<byte>)
    ensures Decode(Encode(bs)) == Some(bs)
  {
    if bs != [] {
      var s := Encode(bs);
      assert s[2..] == Encode(bs[1..]);
      DecodeEncode(bs[1..]);
      assert bs == [bs[0]] + bs[1..];
    }
  }

  lemma {:induction false} EncodeDecode(s: string, bs: seq<byte>)
    requires Decode(s) == Some(bs)
    ensures Encode(bs) == s
  {
    if s != [] {
      EncodeDecode(s[2..], bs[1..]);
      var hi, lo := DigitValue(s[0]).value, DigitValue(s[1]).value;
      assert bs[0] / 16 == hi && bs[0] % 16 == lo;
      assert s == [s[0], s[1]] + s[2..];
    }
  }

  /** Distinct byte strings have distinct hexadecimal renderings. */
  lemma EncodeInjective(a: seq<byte>, b: seq<byte>)
    requires Encode(a) == Encode(b)
    ensures a == b
  {
    DecodeEncode(a);
    DecodeEncode(b);
  }
}
