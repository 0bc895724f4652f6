/** The symmetric state of the handshake: a transcript hash and a chaining key (section 5.2 of the Noise framework). */
module NoiseSymmetric {
  import opened Common
  import opened Utf8
  import opened NoiseCrypto

  function ProtocolName(): Bytes {
    Ascii("Noise_IK_25519_ChaChaPoly_BLAKE2s")
  }

  function Digits(n: nat): Bytes {
    (if n < 10 then [] else Digits(n / 10)) + [48 + n % 10]
  }

  /** The prologue: the protocol prefix and the decimal version. */
  function Prologue(version: nat): Bytes {
    Ascii("Tailscale Control Protocol v") + Digits(version)
  }

  /** The number that decimal digits say. */
  function Decimal(text: Bytes): int {
    if text == [] then 0 else 10 * Decimal(text[..|text| - 1]) + (text[|text| - 1] as int - 48)
  }

  /** Decimal digits, at least one, without a leading zero. */
  predicate DecimalText(text: Bytes) {
    && text != []
    && (forall i | 0 <= i < |text| :: 48 <= text[i] <= 57)
    && (|text| > 1 ==> text[0] != 48)
  }

  lemma {:induction false} DigitsRead(n: nat)
    ensures DecimalText(Digits(n)) && Decimal(Digits(n)) == n && (n > 0 ==> Digits(n)[0] != 48)
  {
    if n < 10 {
      var text: Bytes := [48 + n];
      assert Digits(n) == text && text[..0] == [] && Decimal(text[..0]) == 0;
    } else {
      DigitsRead(n / 10);
      AnotherDigit(Digits(n / 10), n % 10);
    }
  }

  lemma AnotherDigit(text: Bytes, d: nat)
    requires DecimalText(text) && text[0] != 48 && d < 10
    ensures var longer := text + [48 + d];
            DecimalText(longer) && Decimal(longer) == 10 * Decimal(text) + d && longer[0] != 48
  {
    var longer := text + [48 + d];
    assert longer[..|longer| - 1] == text;
  }

  lemma {:induction false} ReadsAsDigits(n: nat, text: Bytes)
    requires DecimalText(text) && Decimal(text) == n
    ensures text == Digits(n)
    decreases |text|
  {
    var init, last := text[..|text| - 1], text[|text| - 1];
    assert text == init + [last];
    if init == [] {
      assert n == last - 48 && Digits(n) == init + [last];
    } else {
      assert init[0] == text[0];
      DecimalPositive(init);
      ReadsAsDigits(Decimal(init), init);
      assert n / 10 == Decimal(init) && n % 10 == last - 48;
    }
  }

  lemma {:induction false} DecimalPositive(text: Bytes)
    requires DecimalText(text) && text[0] != 48
    ensures Decimal(text) > 0
    decreases |text|
  {
    var init := text[..|text| - 1];
    if init != [] {
      assert init[0] == text[0];
      DecimalPositive(init);
    }
  }

  /** The digits of a number are the one decimal text that says it. */
  lemma DigitsExactly(n: nat, text: Bytes)
    ensures text == Digits(n) <==> DecimalText(text) && Decimal(text) == n
  {
    hide Digits, Decimal;
    DigitsRead(n);
    if DecimalText(text) && Decimal(text) == n { ReadsAsDigits(n, text); }
  }

  /** The prologue of a version is the prefix and the one decimal text of the version. */
  lemma PrologueExactly(version: nat, prologue: Bytes)
    ensures prologue == Prologue(version) <==>
            exists text :: && DecimalText(text) && Decimal(text) == version
                           && prologue == Ascii("Tailscale Control Protocol v") + text
  {
    hide Ascii, Digits, Decimal;
    DigitsExactly(version, Digits(version));
    if text :| && DecimalText(text) && Decimal(text) == version
               && prologue == Ascii("Tailscale Control Protocol v") + text {
      DigitsExactly(version, text);
    }
  }

  /** Different versions have different prologues. */
  lemma ProloguesDiffer(v: nat, w: nat)
    requires v != w
    ensures Prologue(v) != Prologue(w)
  {
    hide Ascii, Digits, Decimal;
    DigitsExactly(v, Digits(v));
    DigitsExactly(w, Digits(w));
    var prefix := Ascii("Tailscale Control Protocol v");
    assert Prologue(v)[|prefix|..] == Digits(v) && Prologue(w)[|prefix|..] == Digits(w);
  }

  // ----- symmetric state -----

  datatype Sym = Sym(h: Bytes, ck: Bytes)

  function ZeroNonce(): (r: Bytes)
    ensures |r| == NONCE_LEN
  {
    seq(NONCE_LEN, _ => 0)
  }

  function SymNew(c: Crypto): Sym {
    var h := c.hash(ProtocolName());
    Sym(h, h)
  }

  function MixHash(c: Crypto, s: Sym, data: Bytes): Sym {
    s.(h := c.hash(s.h + data))
  }

  /** Mixes a Diffie-Hellman result into the chaining key; the second output is a one-shot cipher key. */
  function MixDh(c: Crypto, s: Sym, priv: Bytes, pub: Bytes): (Sym, Bytes)
    requires Lawful(c)
  {
    var both := Hkdf(c, s.ck, c.dh(priv, pub), [], 2 * KEY_LEN);
    (s.(ck := both[..KEY_LEN]), both[KEY_LEN..])
  }

  function EncryptAndHash(c: Crypto, s: Sym, key: Bytes, plaintext: Bytes): (Sym, Bytes) {
    var ct := c.seal(key, ZeroNonce(), s.h, plaintext);
    (MixHash(c, s, ct), ct)
  }

  function DecryptAndHash(c: Crypto, s: Sym, key: Bytes, ct: Bytes): Option<(Sym, Bytes)> {
    match c.open(key, ZeroNonce(), s.h, ct)
    case None => None
    case Some(pt) => Some((MixHash(c, s, ct), pt))
  }

  function Split(c: Crypto, s: Sym): (Bytes, Bytes)
    requires Lawful(c)
  {
    var both := Hkdf(c, s.ck, [], [], 2 * KEY_LEN);
    (both[..KEY_LEN], both[KEY_LEN..])
  }
}
