/** Fixed-width unsigned integers on the wire. */
module Wire {
  import opened Common

  /** 256 to the power `n`. */
  function Pow256(n: nat): (r: nat)
    ensures r >= 1
  {
    if n == 0 then 1 else 256 * Pow256(n - 1)
  }

  /** The `width` low octets of `v`, most significant first. */
  function Be(v: nat, width: nat): (r: Bytes)
    ensures |r| == width
  {
    if width == 0 then [] else Be(v / 256, width - 1) + [v % 256]
  }

  function FromBe(b: Bytes): nat {
    if b == [] then 0 else 256 * FromBe(b[..|b| - 1]) + b[|b| - 1]
  }

  /** The `width` low octets of `v`, least significant first. */
  function Le(v: nat, width: nat): (r: Bytes)
    ensures |r| == width
  {
    if width == 0 then [] else [v % 256] + Le(v / 256, width - 1)
  }

  function FromLe(b: Bytes): nat {
    if b == [] then 0 else b[0] + 256 * FromLe(b[1..])
  }

  lemma {:induction false} BeRoundTrip(v: nat, width: nat)
    ensures FromBe(Be(v, width)) == v % Pow256(width)
    ensures v < Pow256(width) ==> FromBe(Be(v, width)) == v
  {
    if width > 0 {
      BeRoundTrip(v / 256, width - 1);
      assert Be(v, width)[..width - 1] == Be(v / 256, width - 1);
      SplitMod(v, Pow256(width - 1));
    }
  }

  /** Octet `i` of the big-endian form: the most significant comes first. */
  lemma {:induction false} BeOctet(v: nat, width: nat, i: nat)
    requires i < width
    ensures Be(v, width)[i] == v / Pow256(width - 1 - i) % 256
    decreases width
  {
    if i < width - 1 {
      BeOctet(v / 256, width - 1, i);
      DivSplit(v, Pow256(width - 2 - i));
    }
  }

  /** Octet `i` of the little-endian form: the least significant comes first. */
  lemma {:induction false} LeOctet(v: nat, width: nat, i: nat)
    requires i < width
    ensures Le(v, width)[i] == v / Pow256(i) % 256
    decreases width
  {
    if i > 0 {
      LeOctet(v / 256, width - 1, i - 1);
      DivSplit(v, Pow256(i - 1));
    }
  }

  lemma DivSplit(v: nat, p: nat)
    requires p >= 1
    ensures v / 256 / p == v / (256 * p)
  {
    var q, r := v / 256, v % 256;
    var a, b := q / p, q % p;
    assert v == 256 * q + r && q == p * a + b;
    assert v == (256 * p) * a + (256 * b + r) by { assert 256 * (p * a) == (256 * p) * a; }
    DivUnique(v, 256 * p, a, 256 * b + r);
  }

  lemma DivUnique(v: int, p: int, q: int, r: int)
    requires v == p * q + r && 0 <= r < p
    ensures v / p == q
  {
    ModUnique(v, p, q, r);
    var d := v / p - q;
    assert v == p * (v / p) + v % p;
    assert p * d == p * (v / p) - p * q == 0;
    assert d >= 1 ==> p * d >= p;
    assert d <= -1 ==> p * d <= -p;
  }

  lemma FromTwoOctets(b: Bytes)
    requires |b| == 2
    ensures FromBe(b) == 256 * (b[0] as int) + b[1]
  {
    assert b[..1][..0] == [] && FromBe(b[..1]) == b[0];
  }

  lemma TwoOctets(v: nat)
    ensures Be(v, 2) == [v / 256 % 256, v % 256]
  {
    var none: Bytes := [];
    assert Be(v / 256 / 256, 0) == none && Be(v / 256, 1) == none + [v / 256 % 256];
  }

  /** Two octets of a number are two octets of its remainder. */
  lemma TwoOctetsWrap(v: nat)
    ensures Be(v % 65536, 2) == Be(v, 2)
  {
    TwoOctets(v);
    TwoOctets(v % 65536);
    assert v == 65536 * (v / 65536) + v % 65536;
  }

  lemma {:induction false} LeRoundTrip(v: nat, width: nat)
    ensures FromLe(Le(v, width)) == v % Pow256(width)
    ensures v < Pow256(width) ==> FromLe(Le(v, width)) == v
  {
    if width > 0 {
      LeRoundTrip(v / 256, width - 1);
      assert Le(v, width)[1..] == Le(v / 256, width - 1);
      SplitMod(v, Pow256(width - 1));
    }
  }

  lemma SplitMod(v: nat, p: nat)
    requires p >= 1
    ensures v % (256 * p) == 256 * (v / 256 % p) + v % 256
  {
    var q, r := v / 256, v % 256;
    var a, b := q / p, q % p;
    assert v == 256 * q + r;
    assert q == p * a + b;
    assert v == (256 * p) * a + (256 * b + r) by { assert 256 * (p * a) == (256 * p) * a; }
    assert 256 * b + r < 256 * p;
    ModUnique(v, 256 * p, a, 256 * b + r);
  }

  lemma ModUnique(v: int, p: int, q: int, r: int)
    requires v == p * q + r && 0 <= r < p
    ensures v % p == r
  {
    var d := v / p - q;
    assert v == p * (v / p) + v % p;
    assert p * d == p * (v / p) - p * q;
    assert p * d == r - v % p;
    assert d >= 1 ==> p * d >= p;
    assert d <= -1 ==> p * d <= -p;
  }

  lemma WidthBounds()
    ensures Pow256(1) == 256 && Pow256(2) == 65536 && Pow256(4) == 4294967296
    ensures Pow256(8) == 18446744073709551616
  {
    assert Pow256(3) == 16777216;
    assert Pow256(5) == 1099511627776;
    assert Pow256(6) == 281474976710656;
    assert Pow256(7) == 72057594037927936;
  }
}
