/**
  The UTF-8 encoding form of section 3 of RFC 3629, restricted to what the
  form encoder needs: turning Unicode scalar values into octets, and a strict
  decoder that turns them back.
*/
module Utf8 {
  import opened Wrappers

  /** An octet. */
  type byte = b: int | 0 <= b < 0x100

  /** A continuation octet, of the shape 10xxxxxx. */
  predicate IsContinuation(b: byte) {
    0x80 <= b < 0xC0
  }

  /** The one to four octets that encode the scalar value `c`. */
  function EncodeScalar(c: char): (r: seq<byte>)
    ensures 1 <= |r| <= 4
    ensures |r| == 1 <==> c as int < 0x80
    ensures c as int < 0x80 ==> r == [c as int]
    ensures forall i :: 1 <= i < |r| ==> IsContinuation(r[i])
  {
    var n := c as int;
    var q1 := n / 64;
    var q2 := q1 / 64;
    var q3 := q2 / 64;
    if n < 0x80 then [n]
    else if n < 0x800 then [0xC0 + q1, 0x80 + n % 64]
    else if n < 0x10000 then [0xE0 + q2, 0x80 + q1 % 64, 0x80 + n % 64]
    else [0xF0 + q3, 0x80 + q2 % 64, 0x80 + q1 % 64, 0x80 + n % 64]
  }

  /** The UTF-8 encoding of a whole string, scalar value by scalar value. */
  function EncodeString(s: string): (r: seq<byte>)
    ensures |r| >= |s|
    ensures (forall i :: 0 <= i < |s| ==> s[i] as int < 0x80) ==> |r| == |s|
  {
    if s == [] then [] else EncodeScalar(s[0]) + EncodeString(s[1..])
  }

  /**
    Decodes the scalar value at the start of `bs`, returning it with the
    number of octets it occupies. Overlong forms, surrogates, values above
    U+10FFFF, stray and missing continuation octets are rejected.
  */
  function DecodeFirst(bs: seq<byte>): (r: Option<(char, nat)>)
    requires |bs| > 0
    ensures r.Some? ==> 1 <= r.value.1 <= |bs| && r.value.1 <= 4
    ensures r.Some? ==> forall i :: 1 <= i < r.value.1 ==> IsContinuation(bs[i])
  {
    var b0: int := bs[0];
    if b0 < 0x80 then
      Some((b0 as char, 1))
    else if b0 < 0xC0 then
      None
    else if b0 < 0xE0 then
      if |bs| < 2 || !IsContinuation(bs[1]) then None
      else
        var n: int := (b0 - 0xC0) * 64 + (bs[1] - 0x80);
        if n < 0x80 then None else Some((n as char, 2))
    else if b0 < 0xF0 then
      if |bs| < 3 || !IsContinuation(bs[1]) || !IsContinuation(bs[2]) then None
      else
        var n: int := ((b0 - 0xE0) * 64 + (bs[1] - 0x80)) * 64 + (bs[2] - 0x80);
        if n < 0x800 || (0xD800 <= n < 0xE000) then None else Some((n as char, 3))
    else if b0 < 0xF8 then
      if |bs| < 4 || !IsContinuation(bs[1]) || !IsContinuation(bs[2]) || !IsContinuation(bs[3]) then None
      else
        var n: int := (((b0 - 0xF0) * 64 + (bs[1] - 0x80)) * 64 + (bs[2] - 0x80)) * 64 + (bs[3] - 0x80);
        if n < 0x10000 || n >= 0x110000 then None else Some((n as char, 4))
    else
      None
  }

  /** Decodes a whole octet sequence, or fails if it is not well-formed UTF-8. */
  function DecodeString(bs: seq<byte>): (r: Option<string>)
    decreases |bs|
  {
    if bs == [] then Some([])
    else
      var (c, k) :- DecodeFirst(bs);
      var rest :- DecodeString(bs[k..]);
      Some([c] + rest)
  }

  /** Decoding the encoding of one scalar value gives it back, whatever follows it. */
  lemma DecodeFirstEncodeScalar(c: char, rest: seq<byte>)
    ensures DecodeFirst(EncodeScalar(c) + rest) == Some((c, |EncodeScalar(c)|))
  {
    var n := c as int;
    var q1 := n / 64;
    var q2 := q1 / 64;
    var q3 := q2 / 64;
    var bs := EncodeScalar(c) + rest;
    if n < 0x80 {
    } else if n < 0x800 {
      assert bs[0] == 0xC0 + q1 && bs[1] == 0x80 + n % 64;
      assert n == q1 * 64 + n % 64;
    } else if n < 0x10000 {
      assert bs[0] == 0xE0 + q2 && bs[1] == 0x80 + q1 % 64 && bs[2] == 0x80 + n % 64;
      assert n == q1 * 64 + n % 64;
      assert q1 == q2 * 64 + q1 % 64;
    } else {
      assert bs[0] == 0xF0 + q3 && bs[1] == 0x80 + q2 % 64;
      assert bs[2] == 0x80 + q1 % 64 && bs[3] == 0x80 + n % 64;
      assert n == q1 * 64 + n % 64;
      assert q1 == q2 * 64 + q1 % 64;
      assert q2 == q3 * 64 + q2 % 64;
    }
  }

  /** UTF-8 decoding inverts UTF-8 encoding. */
  lemma {:induction false} DecodeEncodeString(s: string)
    ensures DecodeString(EncodeString(s)) == Some(s)
  {
    if s != [] {
      var e := EncodeScalar(s[0]);
      var bs := EncodeString(s);
      assert bs == e + EncodeString(s[1..]);
      DecodeFirstEncodeScalar(s[0], EncodeString(s[1..]));
      assert bs[|e|..] == EncodeString(s[1..]);
      DecodeEncodeString(s[1..]);
      assert [s[0]] + s[1..] == s;
    }
  }

  /** Different strings have different encodings. */
  lemma EncodeStringInjective(s: string, t: string)
    requires EncodeString(s) == EncodeString(t)
    ensures s == t
  {
    DecodeEncodeString(s);
    DecodeEncodeString(t);
  }
}
