/** The primitives the control protocol is built on, and the key derivation over them. */
module NoiseCrypto {
  import opened Common
  import Prefix

  const HASH_LEN := 32
  const KEY_LEN := 32
  const TAG_LEN := 16
  const NONCE_LEN := 12
  const BLOCK_LEN := 64

  /** Hash, curve and cipher, as functions on octet strings. */
  datatype Crypto = Crypto(
    hash: Bytes -> Bytes,
    pub: Bytes -> Bytes,
    dh: (Bytes, Bytes) -> Bytes,
    seal: (Bytes, Bytes, Bytes, Bytes) -> Bytes,
    open: (Bytes, Bytes, Bytes, Bytes) -> Option<Bytes>)

  /** Lengths, commuting Diffie-Hellman, and opening what was sealed; nothing else is assumed. */
  ghost predicate Lawful(c: Crypto) {
    && (forall b :: |c.hash(b)| == HASH_LEN)
    && (forall k :: |c.pub(k)| == KEY_LEN)
    && (forall a, b :: c.dh(a, c.pub(b)) == c.dh(b, c.pub(a)))
    && (forall k, n, ad, p :: |c.seal(k, n, ad, p)| == |p| + TAG_LEN)
    && (forall k, n, ad, p :: c.open(k, n, ad, c.seal(k, n, ad, p)) == Some(p))
    && (forall k, n, ad, ct :: c.open(k, n, ad, ct).Some? ==> |ct| == |c.open(k, n, ad, ct).value| + TAG_LEN)
  }

  /** An octet string cut or filled up to the length of a key. */
  function Fitted(k: Bytes): (r: Bytes)
    ensures |r| == KEY_LEN && (|k| == KEY_LEN ==> r == k)
  {
    if |k| >= KEY_LEN then k[..KEY_LEN] else k + seq(KEY_LEN - |k|, _ => 0)
  }

  function Added(a: Bytes, b: Bytes): (r: Bytes)
    requires |a| == |b|
    ensures |r| == |a|
  {
    seq(|a|, i requires 0 <= i < |a| => AddedByte(a[i], b[i]))
  }

  function AddedByte(x: int, y: int): byte {
    (x + y) % 256
  }

  /** The laws can be met, and with as many public keys as there are private ones. */
  lemma LawfulExists() returns (c: Crypto)
    ensures Lawful(c)
    ensures forall a, b | |a| == |b| == KEY_LEN && c.pub(a) == c.pub(b) :: a == b
  {
    var tag: seq<byte> := seq(TAG_LEN, _ => 0);
    c := Crypto(
      b => Fitted(b),
      k => Fitted(k),
      (a, b) => Added(Fitted(a), Fitted(b)),
      (k, n, ad, p) => p + tag,
      (k, n, ad, ct) => if |ct| >= TAG_LEN then Some(ct[..|ct| - TAG_LEN]) else None);
    forall a, b: Bytes ensures c.dh(a, c.pub(b)) == c.dh(b, c.pub(a)) {
      assert Added(Fitted(a), Fitted(b)) == Added(Fitted(b), Fitted(a));
    }
    forall k, n, ad, p: Bytes ensures c.open(k, n, ad, c.seal(k, n, ad, p)) == Some(p) {
      assert (p + tag)[..|p + tag| - TAG_LEN] == p;
    }
  }

  function XorByte(a: byte, b: byte): byte {
    BytePowers();
    Prefix.XorBelow(a, b, 8, 0);
    Prefix.XorBits(a, b, 8)
  }

  function XorPad(key: Bytes, pad: byte): (r: Bytes)
    ensures |r| == |key|
  {
    seq(|key|, i requires 0 <= i < |key| => XorByte(key[i], pad))
  }

  /** Bit by bit, `r` is the exclusive or of `a` and `b`. */
  ghost predicate IsXor(a: byte, b: byte, r: byte) {
    forall j | 0 <= j < 8 :: Prefix.ByteBit(r, j) == 1 <==> Prefix.ByteBit(a, j) != Prefix.ByteBit(b, j)
  }

  lemma XorByteBits(a: byte, b: byte)
    ensures IsXor(a, b, XorByte(a, b))
  {
    var x := XorByte(a, b);
    forall j | 0 <= j < 8 ensures Prefix.ByteBit(x, j) == 1 <==> Prefix.ByteBit(a, j) != Prefix.ByteBit(b, j) {
      XorBitMeans(a, b, x, j);
    }
  }

  lemma XorBitMeans(a: byte, b: byte, x: byte, j: nat)
    requires j < 8 && x == Prefix.XorBits(a, b, 8)
    ensures Prefix.ByteBit(x, j) == 1 <==> Prefix.ByteBit(a, j) != Prefix.ByteBit(b, j)
  {
    hide Pow2, Prefix.XorBits;
    Prefix.XorBitAt(a, b, 8, 7 - j);
    var p := Pow2(7 - j);
    OddSum(x / p, a / p, b / p);
  }

  lemma OddSum(r: nat, s: nat, t: nat)
    requires r % 2 == (s + t) % 2
    ensures r % 2 == 1 <==> s % 2 != t % 2
  {
  }

  lemma XorByteExactly(a: byte, b: byte, r: byte)
    ensures r == XorByte(a, b) <==> IsXor(a, b, r)
  {
    XorByteBits(a, b);
    if IsXor(a, b, r) {
      hide XorByte;
      SameXor(a, b, r, XorByte(a, b));
    }
  }

  lemma SameXor(a: byte, b: byte, r: byte, x: byte)
    requires IsXor(a, b, r) && IsXor(a, b, x)
    ensures r == x
  {
    forall j | 0 <= j < 8 ensures Prefix.ByteBit(x, j) == Prefix.ByteBit(r, j) {
      hide Pow2;
      assert Prefix.ByteBit(r, j) == 1 <==> Prefix.ByteBit(x, j) == 1;
    }
    Prefix.BitsDecide(r, x);
  }

  /** HMAC over the hash with a 64-octet block. */
  function Hmac(c: Crypto, key: Bytes, data: Bytes): Bytes {
    var short := if |key| <= BLOCK_LEN then key else c.hash(key);
    var k := if |short| <= BLOCK_LEN then short + seq(BLOCK_LEN - |short|, _ => 0) else short[..BLOCK_LEN];
    c.hash(XorPad(k, 0x5c) + c.hash(XorPad(k, 0x36) + data))
  }

  /**
    HMAC as section 2 of RFC 2104 defines it: the key, hashed when it is longer than a block, is filled up with
    zeros; the inner pad is its exclusive or with 0x36 and the outer pad with 0x5c.
   */
  lemma HmacExactly(c: Crypto, key: Bytes, data: Bytes, k: Bytes, inner: Bytes, outer: Bytes)
    requires Lawful(c) && |k| == |inner| == |outer| == 64
    requires var short := if |key| <= 64 then key else c.hash(key);
             short <= k && forall i | |short| <= i < 64 :: k[i] == 0
    requires forall i | 0 <= i < 64 :: IsXor(k[i], 0x36, inner[i]) && IsXor(k[i], 0x5c, outer[i])
    ensures Hmac(c, key, data) == c.hash(outer + c.hash(inner + data))
  {
    hide XorByte, IsXor;
    var short := if |key| <= 64 then key else c.hash(key);
    assert k == short + seq(BLOCK_LEN - |short|, _ => 0);
    forall i | 0 <= i < 64 ensures inner[i] == XorByte(k[i], 0x36) && outer[i] == XorByte(k[i], 0x5c) {
      XorByteExactly(k[i], 0x36, inner[i]);
      XorByteExactly(k[i], 0x5c, outer[i]);
    }
    assert inner == XorPad(k, 0x36) && outer == XorPad(k, 0x5c);
  }

  method PadKey(c: Crypto, key: Bytes) returns (k: array<byte>)
    requires Lawful(c)
    ensures fresh(k) && k.Length == BLOCK_LEN
    ensures var short := if |key| <= BLOCK_LEN then key else c.hash(key);
            |short| <= BLOCK_LEN && k[..] == short + seq(BLOCK_LEN - |short|, _ => 0)
  {
    var short := if |key| <= BLOCK_LEN then key else c.hash(key);
    k := new byte[BLOCK_LEN](_ => 0);
    for i := 0 to |short|
      invariant forall j | 0 <= j < BLOCK_LEN :: k[j] == if j < i then short[j] else 0
    {
      k[i] := short[i];
    }
  }

  /** The key block and the two pads as the program fills them, octet by octet. */
  method ComputeHmac(c: Crypto, key: Bytes, data: Bytes) returns (out: Bytes)
    requires Lawful(c)
    ensures out == Hmac(c, key, data)
  {
    hide XorByte, Lawful;
    var k := PadKey(c, key);
    ghost var padded := k[..];
    var inner: array<byte> := new byte[BLOCK_LEN](_ => 0);
    var outer: array<byte> := new byte[BLOCK_LEN](_ => 0);
    for i := 0 to BLOCK_LEN
      invariant k[..] == padded
      invariant forall j | 0 <= j < i :: inner[j] == XorByte(padded[j], 0x36) && outer[j] == XorByte(padded[j], 0x5c)
    {
      inner[i] := XorByte(k[i], 0x36);
      outer[i] := XorByte(k[i], 0x5c);
    }
    assert inner[..] == XorPad(padded, 0x36) && outer[..] == XorPad(padded, 0x5c);
    out := c.hash(outer[..] + c.hash(inner[..] + data));
  }

  // ----- HKDF, section 2 of RFC 5869 -----

  /** A number cut down to one octet. */
  function Octet(n: nat): byte {
    n % 256
  }

  lemma OctetZero()
    ensures Octet(0) == 0
  {
  }

  lemma OctetNext(n: nat)
    ensures Octet(n + 1) == if Octet(n) == 255 then 0 else Octet(n) + 1
  {
  }

  /** The i-th output block: T(0) is empty, T(i) = HMAC(prk, T(i-1) | info | i). */
  function Block(c: Crypto, prk: Bytes, info: Bytes, i: nat): Bytes {
    if i == 0 then [] else Hmac(c, prk, Block(c, prk, info, i - 1) + info + [Octet(i)])
  }

  /** The first `n` blocks. */
  function Blocks(c: Crypto, prk: Bytes, info: Bytes, n: nat): Bytes {
    if n == 0 then [] else Blocks(c, prk, info, n - 1) + Block(c, prk, info, n)
  }

  lemma {:induction false} BlocksLength(c: Crypto, prk: Bytes, info: Bytes, n: nat)
    requires Lawful(c)
    ensures |Blocks(c, prk, info, n)| == HASH_LEN * n
  {
    hide Hmac, Lawful;
    if n > 0 {
      BlocksLength(c, prk, info, n - 1);
      HmacLength(c, prk, Block(c, prk, info, n - 1) + info + [Octet(n)]);
    }
  }

  function BlocksNeeded(length: nat): nat {
    (length + HASH_LEN - 1) / HASH_LEN
  }

  /** The derived output: the first `length` octets of the blocks. */
  function Hkdf(c: Crypto, salt: Bytes, ikm: Bytes, info: Bytes, length: nat): (r: Bytes)
    requires Lawful(c)
    ensures |r| == length
  {
    BlocksLength(c, Hmac(c, salt, ikm), info, BlocksNeeded(length));
    Blocks(c, Hmac(c, salt, ikm), info, BlocksNeeded(length))[..length]
  }

  /**
    The expansion loop as a release build runs it: the one-octet block counter wraps, and the increment
    after the last block is never read. It gives the defined output at every length; up to 255 blocks
    that is the output of RFC 5869.
   */
  method ComputeHkdf(c: Crypto, salt: Bytes, ikm: Bytes, info: Bytes, length: nat) returns (out: Bytes)
    requires Lawful(c)
    ensures out == Hkdf(c, salt, ikm, info, length)
  {
    hide Hmac, Lawful, Blocks, Octet;
    var prk := ComputeHmac(c, salt, ikm);
    var t: Bytes := [];
    out := [];
    var counter: byte := 1;
    ghost var n := 0;
    assert Octet(1) == 1 by { OctetNext(0); OctetZero(); }
    while |out| < length
      invariant counter == Octet(n + 1) && t == Block(c, prk, info, n)
      invariant Expanded(c, prk, info, n, length, out)
      decreases length - |out|
    {
      t := ComputeHmac(c, prk, t + info + [counter]);
      n := n + 1;
      OneBlockMore(c, prk, info, n, length, out);
      out := out + t[..Min(length - |out|, |t|)];
      OctetNext(n);
      counter := if counter == 255 then 0 else counter + 1;
    }
    ExpandedWhole(c, prk, info, n, length, out);
  }

  /**
    The same loop as a build with overflow checks runs it: it stops when the counter would overflow.
    That happens exactly from the 255th block on, because the counter is advanced after the last block too.
   */
  method ComputeHkdfChecked(c: Crypto, salt: Bytes, ikm: Bytes, info: Bytes, length: nat) returns (r: Option<Bytes>)
    requires Lawful(c)
    ensures r.Some? <==> length <= 254 * HASH_LEN
    ensures r.Some? ==> r.value == Hkdf(c, salt, ikm, info, length)
  {
    hide Hmac, Lawful, Blocks;
    var prk := ComputeHmac(c, salt, ikm);
    var t: Bytes := [];
    var out: Bytes := [];
    var counter: byte := 1;
    while |out| < length
      invariant counter >= 1 && t == Block(c, prk, info, counter - 1)
      invariant Expanded(c, prk, info, counter - 1, length, out)
      decreases length - |out|
    {
      t := ComputeHmac(c, prk, t + info + [counter]);
      OneBlockMore(c, prk, info, counter, length, out);
      out := out + t[..Min(length - |out|, |t|)];
      if counter == 255 {
        return None;
      }
      counter := counter + 1;
    }
    ExpandedWhole(c, prk, info, counter - 1, length, out);
    r := Some(out);
  }

  /** What the loop holds after `n` blocks: all of them, cut off at the length asked for. */
  ghost predicate Expanded(c: Crypto, prk: Bytes, info: Bytes, n: nat, length: nat, out: Bytes) {
    && |out| == Min(HASH_LEN * n, length) <= |Blocks(c, prk, info, n)|
    && out == Blocks(c, prk, info, n)[..|out|]
    && (n > 0 ==> HASH_LEN * (n - 1) < length)
  }

  lemma OneBlockMore(c: Crypto, prk: Bytes, info: Bytes, n: nat, length: nat, out: Bytes)
    requires Lawful(c) && n >= 1 && Expanded(c, prk, info, n - 1, length, out) && |out| < length
    ensures |Block(c, prk, info, n)| == HASH_LEN
    ensures Expanded(c, prk, info, n, length, out + Block(c, prk, info, n)[..Min(length - |out|, HASH_LEN)])
  {
    hide Hmac, Lawful;
    BlocksLength(c, prk, info, n - 1);
    BlocksLength(c, prk, info, n);
    HmacLength(c, prk, Block(c, prk, info, n - 1) + info + [Octet(n)]);
    assert out == Blocks(c, prk, info, n - 1);
  }

  lemma ExpandedWhole(c: Crypto, prk: Bytes, info: Bytes, n: nat, length: nat, out: Bytes)
    requires Lawful(c) && Expanded(c, prk, info, n, length, out) && |out| >= length
    ensures BlocksNeeded(length) == n && |Blocks(c, prk, info, n)| >= length
    ensures out == Blocks(c, prk, info, n)[..length]
  {
    hide Block, Blocks;
  }

  lemma HmacLength(c: Crypto, key: Bytes, data: Bytes)
    requires Lawful(c)
    ensures |Hmac(c, key, data)| == HASH_LEN
  {
  }

  /** Two 32-octet outputs, as HKDF with two outputs is defined in the Noise framework, section 4.3. */
  function NoiseHkdf2(c: Crypto, chainingKey: Bytes, ikm: Bytes): (Bytes, Bytes) {
    var temp := Hmac(c, chainingKey, ikm);
    var first := Hmac(c, temp, [1]);
    (first, Hmac(c, temp, first + [2]))
  }

  /** Cutting 64 octets of HKDF output in two is the framework's two-output HKDF. */
  lemma HkdfIsNoiseHkdf(c: Crypto, chainingKey: Bytes, ikm: Bytes)
    requires Lawful(c)
    ensures var both := Hkdf(c, chainingKey, ikm, [], 2 * KEY_LEN);
            (both[..KEY_LEN], both[KEY_LEN..]) == NoiseHkdf2(c, chainingKey, ikm)
  {
    var prk := Hmac(c, chainingKey, ikm);
    var none: Bytes := [];
    var t1, t2 := Block(c, prk, none, 1), Block(c, prk, none, 2);
    assert Block(c, prk, none, 0) + none + [1] == [1];
    assert t1 == Hmac(c, prk, [1]);
    assert t1 + none + [2] == t1 + [2];
    assert t2 == Hmac(c, prk, t1 + [2]);
    assert Blocks(c, prk, [], 0) == [];
    assert Blocks(c, prk, [], 1) == t1;
    assert Blocks(c, prk, [], 2) == t1 + t2;
    assert BlocksNeeded(2 * KEY_LEN) == 2;
    assert (t1 + t2)[..2 * KEY_LEN] == t1 + t2;
  }
}
