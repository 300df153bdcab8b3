/** The byte strings taken for text are exactly the encodings of code points by section 3 of RFC 3629. */
module Utf8 {
  import opened Field
  import Codec

  /** Unicode scalar values: code points without the surrogates. */
  predicate Scalar(c: int) {
    0 <= c < 0x11_0000 && !(0xD800 <= c <= 0xDFFF)
  }

  function EncodeOne(c: int): (s: Bytes)
    requires Scalar(c)
  {
    if c <= 0x7F then [c]
    else if c <= 0x7FF then [0xC0 + c / 0x40, 0x80 + c % 0x40]
    else if c <= 0xFFFF then [0xE0 + c / 0x1000, 0x80 + c / 0x40 % 0x40, 0x80 + c % 0x40]
    else [0xF0 + c / 0x4_0000, 0x80 + c / 0x1000 % 0x40, 0x80 + c / 0x40 % 0x40, 0x80 + c % 0x40]
  }

  ghost predicate AllScalar(cs: seq<int>) {
    forall i :: 0 <= i < |cs| ==> Scalar(cs[i])
  }

  function Encode(cs: seq<int>): Bytes
    requires AllScalar(cs)
  {
    if cs == [] then [] else EncodeOne(cs[0]) + Encode(cs[1..])
  }

  lemma OneMore(c: int, rest: Bytes)
    requires Scalar(c)
    ensures Codec.ValidUtf8(EncodeOne(c) + rest) <==> Codec.ValidUtf8(rest)
  {
    var s := EncodeOne(c) + rest;
    assert s[|EncodeOne(c)|..] == rest;
  }

  lemma {:induction false} EncodedIsValid(cs: seq<int>)
    requires AllScalar(cs)
    ensures Codec.ValidUtf8(Encode(cs))
  {
    if cs != [] {
      EncodedIsValid(cs[1..]);
      OneMore(cs[0], Encode(cs[1..]));
    }
  }

  lemma Two(a: int, b: int) returns (c: int)
    requires 0xC2 <= a <= 0xDF && 0x80 <= b <= 0xBF
    ensures Scalar(c) && EncodeOne(c) == [a, b]
  {
    c := (a - 0xC0) * 0x40 + (b - 0x80);
  }

  lemma Three(a: int, b: int, d: int) returns (c: int)
    requires 0xE0 <= a <= 0xEF && 0x80 <= b <= 0xBF && 0x80 <= d <= 0xBF
    requires (a == 0xE0 ==> 0xA0 <= b) && (a == 0xED ==> b <= 0x9F)
    ensures Scalar(c) && EncodeOne(c) == [a, b, d]
  {
    c := (a - 0xE0) * 0x1000 + (b - 0x80) * 0x40 + (d - 0x80);
    assert c / 0x40 == (a - 0xE0) * 0x40 + (b - 0x80);
  }

  lemma Four(a: int, b: int, d: int, e: int) returns (c: int)
    requires 0xF0 <= a <= 0xF4 && 0x80 <= b <= 0xBF && 0x80 <= d <= 0xBF && 0x80 <= e <= 0xBF
    requires (a == 0xF0 ==> 0x90 <= b) && (a == 0xF4 ==> b <= 0x8F)
    ensures Scalar(c) && EncodeOne(c) == [a, b, d, e]
  {
    c := (a - 0xF0) * 0x4_0000 + (b - 0x80) * 0x1000 + (d - 0x80) * 0x40 + (e - 0x80);
    assert c / 0x40 == (a - 0xF0) * 0x1000 + (b - 0x80) * 0x40 + (d - 0x80);
    assert c / 0x1000 == (a - 0xF0) * 0x40 + (b - 0x80);
  }

  /** The first code point of a valid string and what follows it. */
  lemma FirstOf(s: Bytes) returns (c: int, n: nat)
    requires Codec.ValidUtf8(s) && s != []
    ensures Scalar(c) && 0 < n <= |s| && s[..n] == EncodeOne(c) && Codec.ValidUtf8(s[n..])
  {
    if s[0] <= 0x7F {
      c, n := s[0], 1;
    } else if s[0] <= 0xDF {
      c := Two(s[0], s[1]);
      n := 2;
    } else if s[0] <= 0xEF {
      c := Three(s[0], s[1], s[2]);
      n := 3;
    } else {
      c := Four(s[0], s[1], s[2], s[3]);
      n := 4;
    }
  }

  lemma {:induction false} ValidIsEncoded(s: Bytes) returns (cs: seq<int>)
    requires Codec.ValidUtf8(s)
    ensures AllScalar(cs) && Encode(cs) == s
    decreases |s|
  {
    if s == [] {
      cs := [];
    } else {
      var c, n := FirstOf(s);
      var rest := ValidIsEncoded(s[n..]);
      cs := [c] + rest;
      assert cs[1..] == rest && s == s[..n] + s[n..];
    }
  }

  /** Bytes are valid text if and only if they encode some sequence of scalar values. */
  lemma {:induction false} ValidIff(s: Bytes)
    ensures Codec.ValidUtf8(s) <==> exists cs :: AllScalar(cs) && Encode(cs) == s
  {
    if Codec.ValidUtf8(s) {
      var cs := ValidIsEncoded(s);
    }
    if cs :| AllScalar(cs) && Encode(cs) == s {
      EncodedIsValid(cs);
    }
  }
}
