/**
 * UTF-8, the encoding behind Rust's `str::as_bytes` (RFC 3629, section 3):
 * a Unicode scalar value becomes one to four bytes, and a string becomes the
 * concatenation of its characters' encodings.
 */
module Utf8 {
  import opened Bytes

  /** The number of bytes a sequence starting with `lead` occupies. */
  function SequenceLength(lead: byte): nat
  {
    if lead < 0x80 then 1 else if lead < 0xE0 then 2 else if lead < 0xF0 then 3 else 4
  }

  /**
   * The UTF-8 encoding of one scalar value: six payload bits per continuation
   * byte, the rest in the lead byte, whose high bits announce the length.
   */
  function EncodeChar(c: char): (r: seq<byte>)
    ensures 1 <= |r| <= 4
    ensures SequenceLength(r[0]) == |r|
    ensures forall k :: 1 <= k < |r| ==> 0x80 <= r[k] < 0xC0
    ensures DecodeChar(r) == c as int
  {
    var n := c as int;
    var q1, r0 := n / 64, n % 64;
    var q2, r1 := q1 / 64, q1 % 64;
    var q3, r2 := q2 / 64, q2 % 64;
    if n < 0x80 then [n]
    else if n < 0x800 then [0xC0 + q1, 0x80 + r0]
    else if n < 0x1_0000 then [0xE0 + q2, 0x80 + r1, 0x80 + r0]
    else [0xF0 + q3, 0x80 + r2, 0x80 + r1, 0x80 + r0]
  }

  /** The scalar value an encoded sequence of one to four bytes carries. */
  function DecodeChar(s: seq<byte>): int
  {
    var b := seq(|s|, k requires 0 <= k < |s| => s[k] as int);
    if |b| == 1 then b[0]
    else if |b| == 2 then (b[0] - 0xC0) * 64 + (b[1] - 0x80)
    else if |b| == 3 then ((b[0] - 0xE0) * 64 + (b[1] - 0x80)) * 64 + (b[2] - 0x80)
    else if |b| == 4 then (((b[0] - 0xF0) * 64 + (b[1] - 0x80)) * 64 + (b[2] - 0x80)) * 64 + (b[3] - 0x80)
    else -1
  }

  /** `str::as_bytes`: the UTF-8 encoding of a whole string. */
  function Encode(s: string): (r: seq<byte>)
    ensures |r| >= |s|
    ensures s == [] <==> r == []
  {
    if s == [] then [] else EncodeChar(s[0]) + Encode(s[1..])
  }

  /** Encoding distributes over concatenation: no byte marks where one string ends. */
  lemma {:induction false} EncodeConcat(a: string, b: string)
    ensures Encode(a + b) == Encode(a) + Encode(b)
  {
    if a == [] {
      assert a + b == b;
    } else {
      assert (a + b)[0] == a[0] && (a + b)[1..] == a[1..] + b;
      EncodeConcat(a[1..], b);
      calc {
        Encode(a + b);
        EncodeChar(a[0]) + Encode(a[1..] + b);
        EncodeChar(a[0]) + (Encode(a[1..]) + Encode(b));
        Encode(a) + Encode(b);
      }
    }
  }

  /** Two characters with the same encoding are the same character. */
  lemma EncodeCharInjective(c: char, d: char)
    requires EncodeChar(c) == EncodeChar(d)
    ensures c == d
  {
  }

  /** Two strings with the same encoding are the same string. */
  lemma {:induction false} EncodeInjective(a: string, b: string)
    requires Encode(a) == Encode(b)
    ensures a == b
  {
    if a != [] {
      var ea, eb := EncodeChar(a[0]), EncodeChar(b[0]);
      var e := Encode(a);
      assert e == ea + Encode(a[1..]) && e == eb + Encode(b[1..]);
      assert e[0] == ea[0] == eb[0];
      var k := |ea|;
      assert k == SequenceLength(e[0]) == |eb|;
      assert ea == e[..k] == eb;
      EncodeCharInjective(a[0], b[0]);
      assert Encode(a[1..]) == e[k..] == Encode(b[1..]);
      EncodeInjective(a[1..], b[1..]);
      assert a == [a[0]] + a[1..] && b == [b[0]] + b[1..];
    }
  }
}
