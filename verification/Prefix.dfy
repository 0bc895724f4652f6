/** IP addresses and prefixes: masking, containment, common bits and prefix splitting. */
module Prefix {
  import opened Common
  import Stride

  /** An address of either family, most significant octet first. */
  datatype IpAddr = IpAddr(v6: bool, octets: Bytes)

  datatype IpPrefix = IpPrefix(addr: IpAddr, bits: nat)

  /** Number of octets in an address of the family. */
  function Width(v6: bool): nat {
    if v6 then 16 else 4
  }

  predicate ValidAddr(a: IpAddr) {
    |a.octets| == Width(a.v6)
  }

  /** What `IpPrefix::new` accepts. */
  predicate ValidPrefix(p: IpPrefix) {
    ValidAddr(p.addr) && p.bits <= 8 * Width(p.addr.v6)
  }

  // ----- bits of a byte -----

  /** Bitwise and of the `n` low bits. */
  function AndBits(a: nat, b: nat, n: nat): nat {
    if n == 0 then 0 else 2 * AndBits(a / 2, b / 2, n - 1) + (a % 2) * (b % 2)
  }

  /** Bitwise exclusive or of the `n` low bits. */
  function XorBits(a: nat, b: nat, n: nat): nat {
    if n == 0 then 0 else 2 * XorBits(a / 2, b / 2, n - 1) + (a % 2 + b % 2) % 2
  }

  /** Leading zeros of an `n`-bit number. */
  function LeadingZeros(x: nat, n: nat): (r: nat)
    ensures r <= n
  {
    if n == 0 || x >= Pow2(n - 1) then 0 else 1 + LeadingZeros(x, n - 1)
  }

  /** A byte with all but its `len` leading bits cleared: `b & (0xFF << (8 - len))`. */
  function MaskByte(b: byte, len: nat): (r: byte)
    requires 1 <= len <= 8
    ensures r == b / Pow2(8 - len) * Pow2(8 - len)
  {
    BytePowers();
    AndMask(b, 8, 8 - len);
    AndBits(b, Pow2(8) - Pow2(8 - len), 8)
  }

  lemma {:induction false} AndMask(a: nat, n: nat, k: nat)
    requires k <= n && a < Pow2(n)
    ensures Pow2(k) <= Pow2(n)
    ensures AndBits(a, Pow2(n) - Pow2(k), n) == a / Pow2(k) * Pow2(k) <= a
  {
    hide AndBits;
    if k == 0 {
      AndOnes(a, n);
    } else {
      var q, p := Pow2(n - 1), Pow2(k - 1);
      AndMask(a / 2, n - 1, k - 1);
      AndEven(a, q - p, n);
      Stride.DivTwice(a, p);
      MulTwice(a / Pow2(k), p);
    }
  }

  lemma {:induction false} AndOnes(a: nat, n: nat)
    requires a < Pow2(n)
    ensures AndBits(a, Pow2(n) - 1, n) == a
  {
    if n > 0 {
      AndOnes(a / 2, n - 1);
      Halves(Pow2(n - 1) - 1);
    }
  }

  lemma AndEven(a: nat, m: nat, n: nat)
    requires n > 0
    ensures AndBits(a, 2 * m, n) == 2 * AndBits(a / 2, m, n - 1)
  {
    Halves(m);
  }

  lemma Halves(m: int)
    ensures (2 * m) / 2 == m && (2 * m) % 2 == 0 && (2 * m + 1) / 2 == m && (2 * m + 1) % 2 == 1
  {
  }

  lemma MulTwice(q: int, p: int)
    ensures q * (2 * p) == 2 * (q * p)
  {
  }

  lemma {:induction false} LeadingZerosBound(x: nat, n: nat, k: nat)
    requires k <= n && x < Pow2(n)
    ensures LeadingZeros(x, n) >= k <==> x < Pow2(n - k)
  {
    if n > 0 && k > 0 {
      if x < Pow2(n - 1) {
        LeadingZerosBound(x, n - 1, k - 1);
      } else {
        Pow2Monotone(n - k, n - 1);
      }
    }
  }

  lemma {:induction false} Pow2Monotone(a: nat, b: nat)
    requires a <= b
    ensures Pow2(a) <= Pow2(b)
  {
    if a < b { Pow2Monotone(a, b - 1); }
  }

  lemma {:induction false} XorBelow(a: nat, b: nat, n: nat, j: nat)
    requires j <= n && a < Pow2(n) && b < Pow2(n)
    ensures XorBits(a, b, n) < Pow2(n)
    ensures XorBits(a, b, n) < Pow2(j) <==> a / Pow2(j) == b / Pow2(j)
  {
    if n > 0 {
      if j == 0 {
        XorBelow(a / 2, b / 2, n - 1, 0);
      } else {
        XorBelow(a / 2, b / 2, n - 1, j - 1);
        Stride.DivTwice(a, Pow2(j - 1));
        Stride.DivTwice(b, Pow2(j - 1));
      }
    }
  }

  /** The leading zeros of an exclusive or count the leading bits two bytes share. */
  lemma XorLeadingZeros(a: byte, b: byte, k: nat)
    requires k <= 8
    ensures LeadingZeros(XorBits(a, b, 8), 8) >= k <==> a / Pow2(8 - k) == b / Pow2(8 - k)
    ensures XorBits(a, b, 8) == 0 <==> a == b
  {
    BytePowers();
    XorBelow(a, b, 8, 8 - k);
    XorBelow(a, b, 8, 0);
    LeadingZerosBound(XorBits(a, b, 8), 8, k);
  }

  // ----- bits of an address -----

  /** Bit `i` of a byte, most significant first. */
  function ByteBit(b: byte, i: nat): int
    requires i < 8
  {
    b / Pow2(7 - i) % 2
  }

  lemma {:induction false} XorBitAt(a: nat, b: nat, n: nat, j: nat)
    requires j < n
    ensures XorBits(a, b, n) / Pow2(j) % 2 == (a / Pow2(j) + b / Pow2(j)) % 2
    decreases n
  {
    hide XorBits;
    XorHalves(a, b, n);
    if j == 0 {
      assert Pow2(0) == 1;
    } else {
      var p := Pow2(j - 1);
      XorBitAt(a / 2, b / 2, n - 1, j - 1);
      Stride.DivTwice(a, p);
      Stride.DivTwice(b, p);
      Stride.DivTwice(XorBits(a, b, n), p);
    }
  }

  lemma XorHalves(a: nat, b: nat, n: nat)
    requires n > 0
    ensures XorBits(a, b, n) / 2 == XorBits(a / 2, b / 2, n - 1)
    ensures XorBits(a, b, n) % 2 == (a + b) % 2
  {
    var half, bit := XorBits(a / 2, b / 2, n - 1), (a % 2 + b % 2) % 2;
    assert XorBits(a, b, n) == 2 * half + bit;
  }

  lemma {:induction false} LowBitsDecide(a: nat, b: nat, n: nat)
    requires a < Pow2(n) && b < Pow2(n)
    requires forall j | 0 <= j < n :: a / Pow2(j) % 2 == b / Pow2(j) % 2
    ensures a == b
  {
    if n > 0 {
      assert Pow2(0) == 1 && a / Pow2(0) % 2 == b / Pow2(0) % 2;
      forall j | 0 <= j < n - 1 ensures a / 2 / Pow2(j) % 2 == b / 2 / Pow2(j) % 2 {
        Stride.DivTwice(a, Pow2(j));
        Stride.DivTwice(b, Pow2(j));
        assert a / Pow2(j + 1) % 2 == b / Pow2(j + 1) % 2;
      }
      LowBitsDecide(a / 2, b / 2, n - 1);
    }
  }

  lemma BitsDecide(a: byte, b: byte)
    requires forall i | 0 <= i < 8 :: ByteBit(a, i) == ByteBit(b, i)
    ensures a == b
  {
    BytePowers();
    forall j | 0 <= j < 8 ensures (a as nat) / Pow2(j) % 2 == (b as nat) / Pow2(j) % 2 {
      assert ByteBit(a, 7 - j) == ByteBit(b, 7 - j);
    }
    LowBitsDecide(a, b, 8);
  }

  /** Bit `i` of an octet string, most significant first. */
  function Bit(o: Bytes, i: nat): int
    requires i < 8 * |o|
  {
    ByteBit(o[i / 8], i % 8)
  }

  /** Two octet strings agree on their first `k` bits. */
  ghost predicate Agree(a: Bytes, b: Bytes, k: nat)
    requires k <= 8 * |a| && k <= 8 * |b|
  {
    forall i | 0 <= i < k :: Bit(a, i) == Bit(b, i)
  }

  /** The leading `k` bits of a byte, as a number. */
  function Top(b: byte, k: nat): int
    requires k <= 8
  {
    b / Pow2(8 - k)
  }

  lemma TopStep(b: byte, k: nat)
    requires k < 8
    ensures Top(b, k + 1) == 2 * Top(b, k) + ByteBit(b, k)
  {
    HalfQuotient(b, Pow2(7 - k));
  }

  lemma HalfQuotient(i: nat, p: nat)
    requires p >= 1
    ensures (i / p) / 2 == i / (2 * p)
  {
    var q, r := (i / p) / 2, (i / p) % 2;
    assert i == (2 * q + r) * p + i % p;
    assert (2 * q + r) * p == q * (2 * p) + r * p;
    assert r * p <= p;
    Stride.Quotient(i, 2 * p, q);
  }

  lemma TopAll(b: byte)
    ensures Top(b, 8) == b
  {
  }

  lemma {:induction false} TopBits(a: byte, b: byte, k: nat)
    requires k <= 8
    ensures Top(a, k) == Top(b, k) <==> forall i | 0 <= i < k :: ByteBit(a, i) == ByteBit(b, i)
  {
    if k == 0 {
      BytePowers();
    } else {
      TopBits(a, b, k - 1);
      TopStep(a, k - 1);
      TopStep(b, k - 1);
      assert 0 <= ByteBit(a, k - 1) < 2 && 0 <= ByteBit(b, k - 1) < 2;
    }
  }

  /** Agreement bit by bit is agreement on whole octets and on the top of the next. */
  lemma AgreeBytes(a: Bytes, b: Bytes, m: nat, k: nat)
    requires m <= |a| && m <= |b| && k <= 8 && (k > 0 ==> m < |a| && m < |b|)
    ensures Agree(a, b, 8 * m + k) <==> a[..m] == b[..m] && (k > 0 ==> Top(a[m], k) == Top(b[m], k))
  {
    forall j | 0 <= j < m
      ensures a[j] == b[j] <==> forall i | 8 * j <= i < 8 * j + 8 :: Bit(a, i) == Bit(b, i)
    {
      AgreeByte(a, b, j, 8);
      TopAll(a[j]);
      TopAll(b[j]);
    }
    if k > 0 { AgreeByte(a, b, m, k); }
    if Agree(a, b, 8 * m + k) {
      assert forall j | 0 <= j < m :: a[j] == b[j];
    }
    if a[..m] == b[..m] {
      forall i | 0 <= i < 8 * m
        ensures Bit(a, i) == Bit(b, i)
      {
        var j := i / 8;
        assert a[..m][j] == b[..m][j];
      }
    }
  }

  lemma BitOf(o: Bytes, j: nat, i: nat)
    requires j < |o| && i < 8
    ensures Bit(o, 8 * j + i) == ByteBit(o[j], i)
  {
    assert (8 * j + i) / 8 == j && (8 * j + i) % 8 == i;
  }

  lemma AgreeByte(a: Bytes, b: Bytes, j: nat, k: nat)
    requires j < |a| && j < |b| && k <= 8
    ensures Top(a[j], k) == Top(b[j], k) <==> forall i | 8 * j <= i < 8 * j + k :: Bit(a, i) == Bit(b, i)
  {
    hide Top, Bit, ByteBit;
    TopBits(a[j], b[j], k);
    forall i | 0 <= i < k
      ensures Bit(a, 8 * j + i) == ByteBit(a[j], i) && Bit(b, 8 * j + i) == ByteBit(b[j], i)
    {
      BitOf(a, j, i);
      BitOf(b, j, i);
    }
    if forall i | 8 * j <= i < 8 * j + k :: Bit(a, i) == Bit(b, i) {
      forall i | 0 <= i < k
        ensures ByteBit(a[j], i) == ByteBit(b[j], i)
      {
        assert Bit(a, 8 * j + i) == Bit(b, 8 * j + i);
      }
    } else {
      var i :| 8 * j <= i < 8 * j + k && Bit(a, i) != Bit(b, i);
      assert Bit(a, 8 * j + (i - 8 * j)) == ByteBit(a[j], i - 8 * j);
    }
  }

  // ----- masking -----

  /** Host bits cleared. */
  function MaskOctets(o: Bytes, bits: nat): (r: Bytes)
    requires bits <= 8 * |o|
    ensures |r| == |o|
  {
    var full := bits / 8;
    var partial := bits % 8;
    if full < |o| then
      if partial != 0 then o[..full] + [MaskByte(o[full], partial)] + Zeros(|o| - full - 1)
      else o[..full] + Zeros(|o| - full)
    else o
  }

  function Zeros(n: nat): (r: Bytes)
    ensures |r| == n && forall i | 0 <= i < n :: r[i] == 0
  {
    seq(n, _ => 0)
  }

  function Masked(p: IpPrefix): (r: IpPrefix)
    requires ValidPrefix(p)
    ensures ValidPrefix(r) && r.bits == p.bits && r.addr.v6 == p.addr.v6
  {
    IpPrefix(IpAddr(p.addr.v6, MaskOctets(p.addr.octets, p.bits)), p.bits)
  }

  predicate IsMasked(p: IpPrefix)
    requires ValidPrefix(p)
  {
    Masked(p) == p
  }

  lemma MaskByteTop(b: byte, len: nat)
    requires 1 <= len <= 8
    ensures Top(MaskByte(b, len), len) == Top(b, len)
    ensures MaskByte(MaskByte(b, len), len) == MaskByte(b, len)
  {
    BytePowers();
    match len { case 1 => case 2 => case 3 => case 4 => case 5 => case 6 => case 7 => case 8 => }
  }

  /** Masking keeps exactly the significant bits, and twice is once. */
  lemma MaskedProperties(p: IpPrefix)
    requires ValidPrefix(p)
    ensures Agree(Masked(p).addr.octets, p.addr.octets, p.bits)
    ensures forall i | p.bits <= i < 8 * |p.addr.octets| :: Bit(Masked(p).addr.octets, i) == 0
    ensures Masked(Masked(p)) == Masked(p)
  {
    var o := p.addr.octets;
    var r := Masked(p).addr.octets;
    var m, k := p.bits / 8, p.bits % 8;
    assert p.bits == 8 * m + k;
    if k > 0 { MaskByteTop(o[m], k); }
    AgreeBytes(r, o, m, k);
    forall i | p.bits <= i < 8 * |o|
      ensures Bit(r, i) == 0
    {
      if i / 8 == m && k > 0 {
        MaskByteLow(o[m], k, i % 8);
      } else {
        assert r[i / 8] == 0;
        BytePowers();
      }
    }
    assert MaskOctets(r, p.bits) == r;
  }

  lemma MaskByteLow(b: byte, len: nat, i: nat)
    requires 1 <= len <= i < 8
    ensures ByteBit(MaskByte(b, len), i) == 0
  {
    Pow2Split(7 - i, i - len + 1);
    EvenQuotient(b / Pow2(8 - len), Pow2(7 - i), Pow2(i - len));
  }

  lemma EvenQuotient(q: int, p: int, d: int)
    requires p >= 1
    ensures q * (p * (2 * d)) / p % 2 == 0
  {
    var even := 2 * (q * d);
    assert q * (p * (2 * d)) == even * p by {
      MulTwice(p, d);
      assert q * (2 * (p * d)) == 2 * (q * (p * d)) == 2 * (q * d * p);
    }
    Stride.Quotient(even * p, p, even);
  }

  lemma {:induction false} Pow2Split(a: nat, b: nat)
    ensures Pow2(a + b) == Pow2(a) * Pow2(b)
  {
    if a > 0 {
      Pow2Split(a - 1, b);
      assert Pow2(a) * Pow2(b) == 2 * (Pow2(a - 1) * Pow2(b));
    }
  }

  // ----- common bits and containment -----

  /** Shared leading bits of the octets from `i` up to `length`, stopping at the first difference. */
  function SharedFrom(a: Bytes, b: Bytes, i: nat, length: nat): (r: nat)
    requires i <= length <= |a| && length <= |b|
    ensures r <= 8 * (length - i)
    decreases length - i
  {
    if i == length then 0
    else if XorBits(a[i], b[i], 8) == 0 then 8 + SharedFrom(a, b, i + 1, length)
    else LeadingZeros(XorBits(a[i], b[i], 8), 8)
  }

  function CommonBits(a: Bytes, b: Bytes, maxBits: nat): (r: nat)
    requires |a| == |b| && maxBits <= 8 * |a|
    ensures r <= maxBits
  {
    Min(SharedFrom(a, b, 0, (maxBits + 7) / 8), maxBits)
  }

  /** The loop that `common_bits` runs; its running count is an octet throughout, as in the program. */
  method ComputeCommonBits(a: Bytes, b: Bytes, maxBits: nat) returns (shared: byte)
    requires |a| == |b| <= 16 && maxBits <= 8 * |a|
    ensures shared == CommonBits(a, b, maxBits) <= 128
  {
    var length := (maxBits + 7) / 8;
    shared := 0;
    var index := 0;
    while index < length
      invariant 0 <= index <= length
      invariant shared == 8 * index
      invariant SharedFrom(a, b, 0, length) == shared + SharedFrom(a, b, index, length)
    {
      var different := XorBits(a[index], b[index], 8);
      if different == 0 {
        shared := shared + 8;
      } else {
        shared := shared + LeadingZeros(different, 8);
        break;
      }
      index := index + 1;
    }
    shared := Min(shared, maxBits);
  }

  lemma AgreeShorter(a: Bytes, b: Bytes, j: nat, k: nat)
    requires j <= k <= 8 * |a| && k <= 8 * |b|
    ensures Agree(a, b, k) ==> Agree(a, b, j)
  {
  }

  lemma {:induction false} SharedFromAgrees(a: Bytes, b: Bytes, i: nat, length: nat, k: nat)
    requires i <= length <= |a| && length <= |b| && 8 * i <= k <= 8 * length && a[..i] == b[..i]
    ensures SharedFrom(a, b, i, length) >= k - 8 * i <==> Agree(a, b, k)
    decreases length - i
  {
    hide XorBits, LeadingZeros, Agree, Pow2;
    if k == 8 * i {
      AgreeBytes(a, b, i, 0);
    } else {
      XorLeadingZeros(a[i], b[i], 0);
      if a[i] == b[i] {
        assert a[..i + 1] == a[..i] + [a[i]] && b[..i + 1] == b[..i] + [b[i]];
        if k >= 8 * (i + 1) {
          SharedFromAgrees(a, b, i + 1, length, k);
        } else {
          AgreeBytes(a, b, i, k - 8 * i);
        }
      } else {
        if k <= 8 * i + 8 {
          XorLeadingZeros(a[i], b[i], k - 8 * i);
          AgreeBytes(a, b, i, k - 8 * i);
        }
        XorLeadingZeros(a[i], b[i], 8);
        AgreeBytes(a, b, i, 8);
        TopAll(a[i]);
        TopAll(b[i]);
        if k > 8 * i + 8 { AgreeShorter(a, b, 8 * i + 8, k); }
      }
    }
  }

  /** `CommonBits` is the length of the longest common bit prefix, capped. */
  lemma CommonBitsIsLongest(a: Bytes, b: Bytes, maxBits: nat, k: nat)
    requires |a| == |b| && k <= maxBits <= 8 * |a|
    ensures CommonBits(a, b, maxBits) >= k <==> Agree(a, b, k)
  {
    SharedFromAgrees(a, b, 0, (maxBits + 7) / 8, k);
  }

  /** Whether the prefix contains the address. */
  predicate Contains(p: IpPrefix, a: IpAddr)
    requires ValidPrefix(p) && ValidAddr(a)
  {
    p.addr.v6 == a.v6 && CommonBits(Masked(p).addr.octets, a.octets, p.bits) == p.bits
  }

  /** Containment is agreement of the family and of the first `bits` bits. */
  lemma ContainsAgrees(p: IpPrefix, a: IpAddr)
    requires ValidPrefix(p) && ValidAddr(a)
    ensures Contains(p, a) <==> p.addr.v6 == a.v6 && Agree(p.addr.octets, a.octets, p.bits)
  {
    if p.addr.v6 == a.v6 {
      CommonBitsIsLongest(Masked(p).addr.octets, a.octets, p.bits, p.bits);
      MaskedProperties(p);
    }
  }

  // ----- prefixes on octet boundaries -----

  /** The first `bits` bits of a prefix, on an octet boundary. */
  function AtByteBoundary(p: IpPrefix, bits: nat): (r: IpPrefix)
    requires ValidPrefix(p) && bits <= 8 * Width(p.addr.v6)
    ensures ValidPrefix(r) && r.bits == bits && r.addr.v6 == p.addr.v6
  {
    Masked(IpPrefix(Masked(p).addr, bits))
  }

  predicate StrictlyContains(parent: IpPrefix, child: IpPrefix)
    requires ValidPrefix(parent) && ValidPrefix(child)
  {
    parent.bits < child.bits && Contains(parent, child.addr)
  }

  /** A masked prefix of whole octets, short enough to own a stride. */
  predicate IsStem(p: IpPrefix) {
    ValidPrefix(p) && IsMasked(p) && p.bits % 8 == 0 && p.bits < 8 * Width(p.addr.v6)
  }

  /** The octets a stride prefix fixes. */
  function Stem(p: IpPrefix): (r: Bytes)
    ensures ValidPrefix(p) ==> |r| == p.bits / 8
  {
    if p.bits / 8 <= |p.addr.octets| then p.addr.octets[..p.bits / 8] else p.addr.octets
  }

  lemma StemDetermines(p: IpPrefix, q: IpPrefix)
    requires IsStem(p) && IsStem(q) && p.addr.v6 == q.addr.v6 && Stem(p) == Stem(q)
    ensures p == q
  {
    var m := p.bits / 8;
    assert p.addr.octets == Stem(p) + Zeros(|p.addr.octets| - m);
    assert q.addr.octets == Stem(q) + Zeros(|q.addr.octets| - m);
  }

  lemma BoundaryStem(p: IpPrefix, m: nat)
    requires ValidPrefix(p) && IsMasked(p) && m < Width(p.addr.v6)
    ensures IsStem(AtByteBoundary(p, 8 * m))
    ensures Stem(AtByteBoundary(p, 8 * m)) == p.addr.octets[..m]
  {
    MaskedProperties(IpPrefix(Masked(p).addr, 8 * m));
  }

  lemma StemContains(p: IpPrefix, a: IpAddr)
    requires IsStem(p) && ValidAddr(a) && p.addr.v6 == a.v6
    ensures Contains(p, a) <==> Stem(p) <= a.octets
  {
    ContainsAgrees(p, a);
    AgreeBytes(p.addr.octets, a.octets, p.bits / 8, 0);
  }

  // ----- splitting -----

  /** How many whole octets two prefixes share before they part. */
  function SplitStrides(a: Bytes, b: Bytes, aBits: nat, bBits: nat): (r: nat)
    requires |a| == |b| && 0 < aBits <= 8 * |a| && 0 < bBits <= 8 * |b|
    ensures 8 * r < aBits && 8 * r < bBits
  {
    var minBits := Min(aBits, bBits);
    var common := CommonBits(a, b, minBits);
    (if common == minBits then common - 1 else common) / 8
  }

  /** The stride prefix at which `a` and `b` part, and the octet each takes there. */
  function ComputeSplit(a: IpPrefix, b: IpPrefix): (r: (IpPrefix, byte, byte))
    requires ValidPrefix(a) && ValidPrefix(b) && a.bits != 0 && b.bits != 0 && a.addr.v6 == b.addr.v6
  {
    var a, b := Masked(a), Masked(b);
    var strides := SplitStrides(a.addr.octets, b.addr.octets, a.bits, b.bits);
    (AtByteBoundary(a, strides * 8), a.addr.octets[strides], b.addr.octets[strides])
  }

  lemma OctetsAgree(a: Bytes, b: Bytes, maxBits: nat, m: nat)
    requires |a| == |b| && 8 * m <= maxBits <= 8 * |a|
    ensures CommonBits(a, b, maxBits) >= 8 * m <==> a[..m] == b[..m]
  {
    CommonBitsIsLongest(a, b, maxBits, 8 * m);
    AgreeBytes(a, b, m, 0);
  }

  lemma SplitStridesProperties(a: Bytes, b: Bytes, c: nat, n: nat, depth: nat)
    requires |a| == |b| && c < |a| && n <= 8 * |b|
    requires 1 <= depth <= c && 8 * depth < n && a[..depth] == b[..depth]
    requires 8 * c >= n || a[..c] != b[..c]
    ensures var m := SplitStrides(a, b, 8 * c, n);
            && depth <= m < c && 8 * m < n && a[..m] == b[..m]
            && (n - 8 * m > 8 ==> a[m] != b[m])
  {
    var minBits := Min(8 * c, n);
    var m := SplitStrides(a, b, 8 * c, n);
    OctetsAgree(a, b, minBits, depth);
    if minBits == 8 * c {
      OctetsAgree(a, b, minBits, c);
    }
    OctetsAgree(a, b, minBits, m);
    if n - 8 * m > 8 {
      OctetsAgree(a, b, minBits, m + 1);
      assert a[..m + 1] == a[..m] + [a[m]] && b[..m + 1] == b[..m] + [b[m]];
    }
  }

  /**
    Splitting an existing stride prefix `a` against a prefix `b` it does not strictly contain,
    both below the first `depth` octets: the intermediate stride lies at or below that depth,
    strictly above `a`, covers `b`, and gives the two different slots unless `b` ends in it.
   */
  lemma SplitProperties(a: IpPrefix, b: IpPrefix, depth: nat)
    requires IsStem(a) && ValidPrefix(b) && IsMasked(b) && a.addr.v6 == b.addr.v6
    requires 1 <= depth <= a.bits / 8 && 8 * depth < b.bits
    requires a.addr.octets[..depth] == b.addr.octets[..depth]
    requires !StrictlyContains(a, b)
    ensures var (mid, x, y) := ComputeSplit(a, b);
            var m := mid.bits / 8;
            && IsStem(mid) && mid.addr.v6 == a.addr.v6
            && depth <= m < a.bits / 8 && 8 * m < b.bits
            && Stem(mid) == a.addr.octets[..m] == b.addr.octets[..m]
            && x == a.addr.octets[m] && y == b.addr.octets[m]
            && (b.bits - 8 * m > 8 ==> x != y)
  {
    var ao, bo, c := a.addr.octets, b.addr.octets, a.bits / 8;
    var m := SplitStrides(ao, bo, 8 * c, b.bits);
    assert 8 * c >= b.bits || ao[..c] != bo[..c] by {
      StemContains(a, b.addr);
      if ao[..c] == bo[..c] { assert Stem(a) <= bo; }
    }
    SplitStridesProperties(ao, bo, c, b.bits, depth);
    SplitValue(a, b, m);
  }

  lemma SplitValue(a: IpPrefix, b: IpPrefix, m: nat)
    requires IsStem(a) && ValidPrefix(b) && IsMasked(b) && a.addr.v6 == b.addr.v6 && a.bits != 0 && b.bits != 0
    requires m == SplitStrides(a.addr.octets, b.addr.octets, a.bits, b.bits)
    ensures var (mid, x, y) := ComputeSplit(a, b);
            && IsStem(mid) && mid.addr.v6 == a.addr.v6 && mid.bits == 8 * m && Stem(mid) == a.addr.octets[..m]
            && x == a.addr.octets[m] && y == b.addr.octets[m]
  {
    BoundaryStem(a, m);
    assert m * 8 == 8 * m;
  }

  // ----- keys -----

  /** Where a prefix lives in the trie: the octets leading to its stride, and its position there. */
  datatype Key = Key(stem: Bytes, idx: nat)

  predicate ValidKey(k: Key, width: nat) {
    && |k.stem| < width
    && 1 <= k.idx < Stride.ENTRY_COUNT
    && (k.idx == 1 ==> k.stem == [])
  }

  /** Octet in which a prefix ends, and how many of its bits count. */
  function FinalByte(p: IpPrefix): nat {
    if p.bits == 0 then 0 else (p.bits - 1) / 8
  }

  function FinalBits(p: IpPrefix): (r: nat)
    ensures r <= 8 && (p.bits > 0 ==> r >= 1)
  {
    p.bits - FinalByte(p) * 8
  }

  function KeyOf(p: IpPrefix): (k: Key)
    requires ValidPrefix(p)
    ensures ValidKey(k, Width(p.addr.v6))
  {
    Key(p.addr.octets[..FinalByte(p)], Stride.PrefixIndex(p.addr.octets[FinalByte(p)], FinalBits(p)))
  }

  predicate KeyCovers(k: Key, o: Bytes) {
    k.stem <= o && |k.stem| < |o| && Stride.Under(k.idx, Stride.HostIndex(o[|k.stem|]))
  }

  function KeyLength(k: Key): nat {
    8 * |k.stem| + Stride.Depth(k.idx)
  }

  /** The key keeps the length of a prefix and which addresses it contains. */
  lemma KeyOfContains(p: IpPrefix, a: IpAddr)
    requires ValidPrefix(p) && ValidAddr(a) && p.addr.v6 == a.v6
    ensures Contains(p, a) <==> KeyCovers(KeyOf(p), a.octets)
    ensures KeyLength(KeyOf(p)) == p.bits
  {
    var m, k := FinalByte(p), FinalBits(p);
    ContainsAgrees(p, a);
    AgreeBytes(p.addr.octets, a.octets, m, k);
    Stride.PrefixIndexUnderHost(p.addr.octets[m], k, a.octets[m]);
    BytePowers();
  }

  /** Masked prefixes of one family with the same key are the same prefix. */
  lemma KeyOfInjective(p: IpPrefix, q: IpPrefix)
    requires ValidPrefix(p) && ValidPrefix(q) && IsMasked(p) && IsMasked(q)
    requires p.addr.v6 == q.addr.v6 && KeyOf(p) == KeyOf(q)
    ensures p == q
  {
    KeyOfContains(p, p.addr);
    KeyOfContains(q, q.addr);
    KeyOfContains(p, q.addr);
    ContainsAgrees(p, q.addr);
    ContainsAgrees(q, q.addr);
    MaskedDetermined(p, q);
  }

  lemma MaskedDetermined(p: IpPrefix, q: IpPrefix)
    requires ValidPrefix(p) && ValidPrefix(q) && IsMasked(p) && IsMasked(q)
    requires p.addr.v6 == q.addr.v6 && p.bits == q.bits && Agree(p.addr.octets, q.addr.octets, p.bits)
    ensures p == q
  {
    var po, qo := p.addr.octets, q.addr.octets;
    MaskedProperties(p);
    MaskedProperties(q);
    forall i | 0 <= i < 8 * |po|
      ensures Bit(po, i) == Bit(qo, i)
    {
      if i < p.bits {} else { assert Bit(Masked(p).addr.octets, i) == 0 && Bit(Masked(q).addr.octets, i) == 0; }
    }
    assert Agree(po, qo, 8 * |po|);
    AgreeBytes(po, qo, |po|, 0);
    assert po == po[..|po|] && qo == qo[..|qo|];
  }
}
