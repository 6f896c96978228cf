/**
  The application/x-www-form-urlencoded byte serialiser of section 5.2 of the
  WHATWG URL Standard, which is what `java.net.URLEncoder.encode(s, UTF_8)`
  computes: the characters a-z, A-Z, 0-9 and `.`, `-`, `*`, `_` are kept, a
  space becomes `+`, and every other character is replaced by its UTF-8
  octets, each written `%XY` with upper-case hexadecimal digits.

  The partner is a percent-decoder in the manner of the parser of section 5.1
  of the same standard, followed by strict UTF-8 decoding.
*/
module FormUrlEncoding {
  import opened Wrappers
  import Utf8
  import Sequences

  /** Characters the serialiser leaves unchanged. */
  predicate IsUnreserved(c: char) {
    ('a' <= c <= 'z') || ('A' <= c <= 'Z') || ('0' <= c <= '9')
    || c == '.' || c == '-' || c == '*' || c == '_'
  }

  /** Characters that can appear in serialiser output. */
  predicate IsEncodedChar(c: char) {
    IsUnreserved(c) || c == '+' || c == '%'
  }

  /** The value of a hexadecimal digit of either case. */
  function HexValue(c: char): (r: Option<int>)
    ensures r.Some? ==> 0 <= r.value < 16
    ensures r.Some? <==> ('0' <= c <= '9') || ('A' <= c <= 'F') || ('a' <= c <= 'f')
  {
    if '0' <= c <= '9' then Some(c as int - '0' as int)
    else if 'A' <= c <= 'F' then Some(c as int - 'A' as int + 10)
    else if 'a' <= c <= 'f' then Some(c as int - 'a' as int + 10)
    else None
  }

  /** The upper-case hexadecimal digit for `d`. */
  function HexDigit(d: int): (c: char)
    requires 0 <= d < 16
    ensures IsUnreserved(c) && !('a' <= c <= 'z')
    ensures HexValue(c) == Some(d)
  {
    if d < 10 then ('0' as int + d) as char else ('A' as int + d - 10) as char
  }

  /** Each octet written as `%` followed by two upper-case hexadecimal digits. */
  function PercentEscape(bs: seq<Utf8.byte>): (r: string)
    ensures |r| == 3 * |bs|
    ensures forall c :: c in r ==> IsEncodedChar(c)
    ensures forall i :: 0 <= i < |bs| ==>
      r[3 * i..3 * i + 3] == ['%', HexDigit(bs[i] / 16), HexDigit(bs[i] % 16)]
  {
    if bs == [] then []
    else ['%', HexDigit(bs[0] / 16), HexDigit(bs[0] % 16)] + PercentEscape(bs[1..])
  }

  /** The serialisation of a single character. */
  function EncodeChar(c: char): (r: string)
    ensures forall c :: c in r ==> IsEncodedChar(c)
    ensures r == [c] <==> IsUnreserved(c)
    ensures c == ' ' ==> r == "+"
    ensures !IsUnreserved(c) && c != ' ' ==> r == PercentEscape(Utf8.EncodeScalar(c))
    ensures !IsUnreserved(c) && c != ' ' ==> |r| >= 3
    ensures |r| >= 1
  {
    if IsUnreserved(c) then [c]
    else if c == ' ' then "+"
    else PercentEscape(Utf8.EncodeScalar(c))
  }

  /**
    `URLEncoder.encode(s, UTF_8)`. Its output never contains the `&` and `=`
    that delimit a form body, and is never shorter than its input.
  */
  function Encode(s: string): (r: string)
    ensures forall c :: c in r ==> IsEncodedChar(c)
    ensures '&' !in r && '=' !in r
    ensures |r| >= |s|
  {
    if s == [] then [] else EncodeChar(s[0]) + Encode(s[1..])
  }

  /** Percent-decoding: `+` is a space, `%XY` an octet, anything else its own UTF-8 octets. */
  function DecodeOctets(t: string): seq<Utf8.byte>
    decreases |t|
  {
    if t == [] then []
    else if t[0] == '+' then [0x20] + DecodeOctets(t[1..])
    else if t[0] == '%' && |t| >= 3 && HexValue(t[1]).Some? && HexValue(t[2]).Some? then
      [HexValue(t[1]).value * 16 + HexValue(t[2]).value] + DecodeOctets(t[3..])
    else Utf8.EncodeScalar(t[0]) + DecodeOctets(t[1..])
  }

  /** The full decoder: percent-decoding, then UTF-8 decoding. */
  function Decode(t: string): Option<string> {
    Utf8.DecodeString(DecodeOctets(t))
  }

  /** Serialisation distributes over concatenation. */
  lemma {:induction false} EncodeAppend(a: string, b: string)
    ensures Encode(a + b) == Encode(a) + Encode(b)
  {
    if a == [] {
      assert a + b == b;
    } else {
      assert (a + b)[0] == a[0];
      assert (a + b)[1..] == a[1..] + b;
      EncodeAppend(a[1..], b);
      assert Encode(a + b) == EncodeChar(a[0]) + (Encode(a[1..]) + Encode(b));
      Sequences.AppendAssociative(EncodeChar(a[0]), Encode(a[1..]), Encode(b));
    }
  }

  /** A string is its own serialisation exactly when every character in it is unreserved. */
  lemma {:induction false} EncodeIsIdentityIff(s: string)
    ensures Encode(s) == s <==> forall i :: 0 <= i < |s| ==> IsUnreserved(s[i])
  {
    if s != [] {
      EncodeIsIdentityIff(s[1..]);
      var e := EncodeChar(s[0]);
      assert Encode(s) == e + Encode(s[1..]);
      if IsUnreserved(s[0]) {
        assert e == [s[0]];
        if Encode(s[1..]) == s[1..] {
          assert Encode(s) == [s[0]] + s[1..] == s;
        }
        if Encode(s) == s {
          assert Encode(s[1..]) == Encode(s)[1..] == s[1..];
        }
        assert (forall i :: 0 <= i < |s| ==> IsUnreserved(s[i]))
          <==> (forall i :: 0 <= i < |s[1..]| ==> IsUnreserved(s[1..][i]));
      } else if s[0] == ' ' {
        assert Encode(s)[0] == '+' != s[0];
      } else {
        assert |Encode(s)| >= 3 + |s[1..]| > |s|;
      }
    }
  }

  /** The two digits of a percent escape give back the octet. */
  lemma HexDigitsValue(b: Utf8.byte)
    ensures HexValue(HexDigit(b / 16)).value * 16 + HexValue(HexDigit(b % 16)).value == b
  {
  }

  /** Percent-decoding one escape reads its octet and resumes after the three characters. */
  lemma DecodeOctetsOneEscape(b: Utf8.byte, rest: string)
    ensures DecodeOctets(['%', HexDigit(b / 16), HexDigit(b % 16)] + rest) == [b] + DecodeOctets(rest)
  {
    var t := ['%', HexDigit(b / 16), HexDigit(b % 16)] + rest;
    assert t[0] == '%' && t[1] == HexDigit(b / 16) && t[2] == HexDigit(b % 16);
    assert t[3..] == rest;
    HexDigitsValue(b);
  }

  /** Percent-decoding recovers the octets that were percent-escaped, whatever follows them. */
  lemma {:induction false} DecodeOctetsPercentEscape(bs: seq<Utf8.byte>, rest: string)
    ensures DecodeOctets(PercentEscape(bs) + rest) == bs + DecodeOctets(rest)
  {
    if bs == [] {
      assert PercentEscape(bs) + rest == rest;
    } else {
      var b := bs[0];
      var escape := ['%', HexDigit(b / 16), HexDigit(b % 16)];
      assert PercentEscape(bs) == escape + PercentEscape(bs[1..]);
      Sequences.AppendAssociative(escape, PercentEscape(bs[1..]), rest);
      DecodeOctetsOneEscape(b, PercentEscape(bs[1..]) + rest);
      DecodeOctetsPercentEscape(bs[1..], rest);
      Sequences.AppendAssociative([b], bs[1..], DecodeOctets(rest));
      assert [b] + bs[1..] == bs;
    }
  }

  /** Percent-decoding turns the serialisation of one character back into its UTF-8 octets. */
  lemma DecodeOctetsEncodeChar(c: char, rest: string)
    ensures DecodeOctets(EncodeChar(c) + rest) == Utf8.EncodeScalar(c) + DecodeOctets(rest)
  {
    var t := EncodeChar(c) + rest;
    if IsUnreserved(c) {
      assert t == [c] + rest && t[1..] == rest;
    } else if c == ' ' {
      assert t == ['+'] + rest && t[1..] == rest;
    } else {
      DecodeOctetsPercentEscape(Utf8.EncodeScalar(c), rest);
    }
  }

  /** Percent-decoding a serialisation gives the UTF-8 encoding of the original string. */
  lemma {:induction false} DecodeOctetsEncode(s: string)
    ensures DecodeOctets(Encode(s)) == Utf8.EncodeString(s)
  {
    if s != [] {
      DecodeOctetsEncodeChar(s[0], Encode(s[1..]));
      DecodeOctetsEncode(s[1..]);
    }
  }

  /** Decoding inverts serialisation. */
  lemma DecodeEncode(s: string)
    ensures Decode(Encode(s)) == Some(s)
  {
    DecodeOctetsEncode(s);
    Utf8.DecodeEncodeString(s);
  }

  /** Serialisation is injective: distinct strings never share an encoding. */
  lemma EncodeInjective(s: string, t: string)
    requires Encode(s) == Encode(t)
    ensures s == t
  {
    DecodeEncode(s);
    DecodeEncode(t);
  }
}
