/** Well-formed UTF-8, as decoders that work on bytes must check it. */
module Utf8 {
  import opened Common

  predicate Continuation(b: byte) {
    0x80 <= b <= 0xBF
  }

  /** Length of the well-formed sequence at the front, or 0 when there is none. */
  function Lead(s: Bytes): (n: nat)
    requires s != []
    ensures n <= |s|
  {
    var b := s[0];
    if b < 0x80 then 1
    else if 0xC2 <= b <= 0xDF then if |s| >= 2 && Continuation(s[1]) then 2 else 0
    else if 0xE0 <= b <= 0xEF then
      if |s| >= 3 && Continuation(s[1]) && Continuation(s[2])
         && (b == 0xE0 ==> s[1] >= 0xA0) && (b == 0xED ==> s[1] <= 0x9F) then 3 else 0
    else if 0xF0 <= b <= 0xF4 then
      if |s| >= 4 && Continuation(s[1]) && Continuation(s[2]) && Continuation(s[3])
         && (b == 0xF0 ==> s[1] >= 0x90) && (b == 0xF4 ==> s[1] <= 0x8F) then 4 else 0
    else 0
  }

  predicate Valid(s: Bytes)
    decreases |s|
  {
    s == [] || (Lead(s) > 0 && Valid(s[Lead(s)..]))
  }

  // ----- what well-formed means -----

  /** A Unicode scalar value: a code point that is no surrogate. */
  predicate Scalar(p: int) {
    0 <= p <= 0x10FFFF && !(0xD800 <= p <= 0xDFFF)
  }

  /** One scalar value in UTF-8. */
  function EncodePoint(p: int): (r: Bytes)
    requires Scalar(p)
    ensures 1 <= |r| <= 4
  {
    if p < 0x80 then [p]
    else if p < 0x800 then [0xC0 + p / 64, 0x80 + p % 64]
    else if p < 0x10000 then [0xE0 + p / 4096, 0x80 + p / 64 % 64, 0x80 + p % 64]
    else [0xF0 + p / 262144, 0x80 + p / 4096 % 64, 0x80 + p / 64 % 64, 0x80 + p % 64]
  }

  function EncodePoints(points: seq<int>): Bytes
    requires forall i | 0 <= i < |points| :: Scalar(points[i])
  {
    if points == [] then [] else EncodePoint(points[0]) + EncodePoints(points[1..])
  }

  /** The encoding of a scalar value is taken off the front whole. */
  lemma LeadOfPoint(p: int, rest: Bytes)
    requires Scalar(p)
    ensures Lead(EncodePoint(p) + rest) == |EncodePoint(p)|
  {
  }

  /** What is taken off the front is the encoding of a scalar value. */
  lemma PointOfLead(s: Bytes) returns (p: int)
    requires s != [] && Lead(s) > 0
    ensures Scalar(p) && s[..Lead(s)] == EncodePoint(p)
  {
    var n := Lead(s);
    if n == 1 {
      p := s[0];
    } else if n == 2 {
      p := TwoOctetPoint(s[0], s[1]);
    } else if n == 3 {
      p := ThreeOctetPoint(s[0], s[1], s[2]);
    } else {
      p := FourOctetPoint(s[0], s[1], s[2], s[3]);
    }
  }

  lemma TwoOctetPoint(a: byte, b: byte) returns (p: int)
    requires 0xC2 <= a <= 0xDF && Continuation(b)
    ensures Scalar(p) && EncodePoint(p) == [a, b]
  {
    p := (a - 0xC0) * 64 + (b - 0x80);
  }

  lemma ThreeOctetPoint(a: byte, b: byte, c: byte) returns (p: int)
    requires 0xE0 <= a <= 0xEF && Continuation(b) && Continuation(c)
    requires (a == 0xE0 ==> b >= 0xA0) && (a == 0xED ==> b <= 0x9F)
    ensures Scalar(p) && EncodePoint(p) == [a, b, c]
  {
    p := (a - 0xE0) * 4096 + (b - 0x80) * 64 + (c - 0x80);
  }

  lemma FourOctetPoint(a: byte, b: byte, c: byte, d: byte) returns (p: int)
    requires 0xF0 <= a <= 0xF4 && Continuation(b) && Continuation(c) && Continuation(d)
    requires (a == 0xF0 ==> b >= 0x90) && (a == 0xF4 ==> b <= 0x8F)
    ensures Scalar(p) && EncodePoint(p) == [a, b, c, d]
  {
    var x, y, z, w := a - 0xF0, b - 0x80, c - 0x80, d - 0x80;
    p := 262144 * x + 4096 * y + 64 * z + w;
    assert p / 64 == 4096 * x + 64 * y + z && p % 64 == w;
    assert p / 4096 == 64 * x + y && p / 64 % 64 == z;
    assert p / 262144 == x && p / 4096 % 64 == y;
  }

  lemma {:induction false} EncodedIsValid(points: seq<int>)
    requires forall i | 0 <= i < |points| :: Scalar(points[i])
    ensures Valid(EncodePoints(points))
  {
    hide EncodePoint, Lead;
    if points != [] {
      var rest := EncodePoints(points[1..]);
      EncodedIsValid(points[1..]);
      LeadOfPoint(points[0], rest);
      assert (EncodePoint(points[0]) + rest)[|EncodePoint(points[0])|..] == rest;
    }
  }

  lemma {:induction false} ValidIsEncoded(s: Bytes) returns (points: seq<int>)
    requires Valid(s)
    ensures forall i | 0 <= i < |points| :: Scalar(points[i])
    ensures s == EncodePoints(points)
    decreases |s|
  {
    hide EncodePoint, Lead;
    if s == [] {
      points := [];
    } else {
      var p := PointOfLead(s);
      var more := ValidIsEncoded(s[Lead(s)..]);
      points := [p] + more;
      assert points[1..] == more && s == s[..Lead(s)] + s[Lead(s)..];
    }
  }

  /** Well-formed texts are exactly the encodings of sequences of scalar values. */
  lemma ValidExactly(s: Bytes)
    ensures Valid(s) <==>
            exists points: seq<int> ::
              (forall i | 0 <= i < |points| :: Scalar(points[i])) && s == EncodePoints(points)
  {
    hide Valid, EncodePoints;
    if Valid(s) {
      var points := ValidIsEncoded(s);
    }
    if points: seq<int> :| (forall i | 0 <= i < |points| :: Scalar(points[i])) && s == EncodePoints(points) {
      EncodedIsValid(points);
    }
  }

  predicate IsAscii(s: Bytes) {
    forall i | 0 <= i < |s| :: s[i] < 0x80
  }

  lemma {:induction false} AsciiValid(s: Bytes)
    requires IsAscii(s)
    ensures Valid(s)
    decreases |s|
  {
    if s != [] { AsciiValid(s[1..]); }
  }

  /** The bytes of an ASCII text. */
  function Ascii(s: string): (r: Bytes)
    requires forall i | 0 <= i < |s| :: s[i] < 128 as char
    ensures |r| == |s| && IsAscii(r)
  {
    seq(|s|, i requires 0 <= i < |s| => (s[i] as int) % 256)
  }
}
