/**
 * AES-256-GCM seen through its functional shape (sections 7.1 and 7.2 of NIST SP 800-38D):
 * the text is masked with a key stream, the tag is a function of key, nonce, AAD and
 * ciphertext, and decryption releases text only when the tag matches. The key stream and
 * the tag function are arbitrary: nothing is assumed about them.
 */
module Gcm {
  import opened ByteStrings

  const TAG_SIZE: nat := 16
  const KEY_SIZE: nat := 32

  type Tag = t: Bytes | |t| == TAG_SIZE witness seq(TAG_SIZE, i => 0)
  type Key = k: Bytes | |k| == KEY_SIZE witness seq(KEY_SIZE, i => 0)

  datatype Cipher = Cipher(
    keystream: (Key, Bytes, nat) -> byte,
    tag: (Key, Bytes, Bytes, Bytes) -> Tag)

  datatype Sealed = Sealed(text: Bytes, tag: Tag)

  function Pow2(width: nat): (r: nat)
    ensures r > 0
  {
    if width == 0 then 1 else 2 * Pow2(width - 1)
  }

  /** Exclusive or of the low `width` bits, bit by bit from the lowest. */
  function XorBits(a: nat, b: nat, width: nat): (r: nat)
    ensures r < Pow2(width)
  {
    if width == 0 then 0 else (a + b) % 2 + 2 * XorBits(a / 2, b / 2, width - 1)
  }

  lemma {:induction false} XorBitsTwice(a: nat, b: nat, width: nat)
    requires a < Pow2(width)
    ensures XorBits(XorBits(a, b, width), b, width) == a
  {
    if width > 0 {
      XorBitsTwice(a / 2, b / 2, width - 1);
      LowBit(a, b, XorBits(a / 2, b / 2, width - 1));
    }
  }

  lemma {:induction false} LowBit(a: nat, b: nat, high: nat)
    ensures ((a + b) % 2 + 2 * high) / 2 == high
    ensures ((a + b) % 2 + 2 * high + b) % 2 == a % 2
  {
    var ka, kb := a / 2, b / 2;
    assert a == 2 * ka + a % 2 && b == 2 * kb + b % 2;
  }

  function Xor(a: byte, b: byte): byte {
    assert Pow2(8) == 2 * Pow2(7) == 4 * Pow2(6) == 8 * Pow2(5) == 16 * Pow2(4) == 32 * Pow2(3) == 0x100;
    XorBits(a as nat, b as nat, 8) as byte
  }

  lemma {:induction false} XorTwice(a: byte, b: byte)
    ensures Xor(Xor(a, b), b) == a
  {
    assert Pow2(8) == 2 * Pow2(7) == 4 * Pow2(6) == 8 * Pow2(5) == 16 * Pow2(4) == 32 * Pow2(3) == 0x100;
    XorBitsTwice(a as nat, b as nat, 8);
  }

  /** Bit `i` of a number, counted from the lowest. */
  function Bit(v: nat, i: nat): (b: nat)
    ensures b < 2
  {
    if i == 0 then v % 2 else Bit(v / 2, i - 1)
  }

  lemma {:induction false} XorBitsByBit(a: nat, b: nat, width: nat, i: nat)
    requires i < width
    ensures Bit(XorBits(a, b, width), i) == (Bit(a, i) + Bit(b, i)) % 2
  {
    var high := XorBits(a / 2, b / 2, width - 1);
    LowBit(a, b, high);
    if i == 0 {
      SumParity(a, b, high);
    } else {
      XorBitsByBit(a / 2, b / 2, width - 1, i - 1);
    }
  }

  lemma {:induction false} SumParity(a: nat, b: nat, high: nat)
    ensures ((a + b) % 2 + 2 * high) % 2 == (a % 2 + b % 2) % 2
  {
    assert a == 2 * (a / 2) + a % 2 && b == 2 * (b / 2) + b % 2;
  }

  predicate HasBit(b: byte, i: nat) {
    Bit(b as nat, i) == 1
  }

  /** A bit of the exclusive or is set exactly if that bit is set in one of the two bytes only. */
  lemma {:induction false} XorByBit(a: byte, b: byte, i: nat)
    requires i < 8
    ensures HasBit(Xor(a, b), i) <==> HasBit(a, i) != HasBit(b, i)
  {
    XorBitsByBit(a as nat, b as nat, 8, i);
  }

  /** Each bit of `r` is set exactly if it is set in one of `a` and `b` only. */
  ghost predicate IsXor(r: byte, a: byte, b: byte) {
    forall i: nat | i < 8 :: HasBit(r, i) <==> HasBit(a, i) != HasBit(b, i)
  }

  lemma {:induction false} BitsDetermine(a: nat, b: nat, width: nat)
    requires a < Pow2(width) && b < Pow2(width) && forall i: nat | i < width :: Bit(a, i) == Bit(b, i)
    ensures a == b
  {
    if width > 0 {
      assert Bit(a, 0) == a % 2 && Bit(b, 0) == b % 2;
      forall i: nat | i < width - 1
        ensures Bit(a / 2, i) == Bit(b / 2, i)
      {
        assert Bit(a, i + 1) == Bit(a / 2, i) && Bit(b, i + 1) == Bit(b / 2, i);
      }
      BitsDetermine(a / 2, b / 2, width - 1);
    }
  }

  /** `Xor` is the bitwise exclusive or, and nothing else is. */
  lemma {:induction false} XorIsXor(r: byte, a: byte, b: byte)
    ensures IsXor(r, a, b) <==> r == Xor(a, b)
  {
    hide Xor, Bit;
    forall i: nat | i < 8
      ensures HasBit(Xor(a, b), i) <==> HasBit(a, i) != HasBit(b, i)
    {
      XorByBit(a, b, i);
    }
    if IsXor(r, a, b) {
      var x: nat, y: nat := r as nat, Xor(a, b) as nat;
      forall i: nat | i < 8
        ensures Bit(x, i) == Bit(y, i)
      {
        assert HasBit(r, i) <==> HasBit(Xor(a, b), i);
      }
      assert Pow2(8) == 2 * Pow2(7) == 4 * Pow2(6) == 8 * Pow2(5) == 16 * Pow2(4) == 32 * Pow2(3) == 0x100;
      BitsDetermine(x, y, 8);
    }
  }

  /** `masked` is `text` with the bits flipped that the key stream has set, from its position `at` on. */
  ghost predicate FlippedBy(c: Cipher, key: Key, nonce: Bytes, at: nat, text: Bytes, masked: Bytes) {
    && |masked| == |text|
    && forall k | 0 <= k < |text| :: IsXor(masked[k], text[k], c.keystream(key, nonce, at + k))
  }

  /** `text` masked with the key stream starting at position `at`. */
  function Mask(c: Cipher, key: Key, nonce: Bytes, at: nat, text: Bytes): (r: Bytes)
    ensures |r| == |text|
  {
    seq(|text|, i requires 0 <= i < |text| => Xor(text[i], c.keystream(key, nonce, at + i)))
  }

  /** Masking flips exactly those bits. */
  lemma {:induction false} MaskFlips(c: Cipher, key: Key, nonce: Bytes, at: nat, text: Bytes, masked: Bytes)
    ensures FlippedBy(c, key, nonce, at, text, masked) <==> masked == Mask(c, key, nonce, at, text)
  {
    hide Xor, IsXor;
    forall k | 0 <= k < |text| && k < |masked|
      ensures IsXor(masked[k], text[k], c.keystream(key, nonce, at + k))
              <==> masked[k] == Xor(text[k], c.keystream(key, nonce, at + k))
    {
      XorIsXor(masked[k], text[k], c.keystream(key, nonce, at + k));
    }
    assert Mask(c, key, nonce, at, text) == masked <==>
           && |masked| == |text|
           && forall k | 0 <= k < |text| :: masked[k] == Xor(text[k], c.keystream(key, nonce, at + k));
  }

  lemma {:induction false} MaskTwice(c: Cipher, key: Key, nonce: Bytes, at: nat, text: Bytes)
    ensures Mask(c, key, nonce, at, Mask(c, key, nonce, at, text)) == text
  {
    forall i | 0 <= i < |text|
      ensures Xor(Xor(text[i], c.keystream(key, nonce, at + i)), c.keystream(key, nonce, at + i)) == text[i]
    {
      XorTwice(text[i], c.keystream(key, nonce, at + i));
    }
  }

  /** Masking a text in two calls is masking it in one, provided the position moves on. */
  lemma {:induction false} MaskSplit(c: Cipher, key: Key, nonce: Bytes, at: nat, a: Bytes, b: Bytes)
    ensures Mask(c, key, nonce, at, a + b) == Mask(c, key, nonce, at, a) + Mask(c, key, nonce, at + |a|, b)
  {
  }

  /** One-shot encryption; `InvalidInput` exactly when a part exceeds one backend call. */
  function Encrypt(c: Cipher, key: Key, nonce: Bytes, aad: Bytes, plain: Bytes): Result<Sealed> {
    if |plain| > INT_MAX || |aad| > INT_MAX then Err(InvalidInput)
    else
      var text := Mask(c, key, nonce, 0, plain);
      Ok(Sealed(text, c.tag(key, nonce, aad, text)))
  }

  function Decrypt(c: Cipher, key: Key, nonce: Bytes, aad: Bytes, text: Bytes, tag: Tag): Result<Bytes> {
    if |text| > INT_MAX || |aad| > INT_MAX then Err(InvalidInput)
    else if tag != c.tag(key, nonce, aad, text) then Err(AuthenticationFailed)
    else Ok(Mask(c, key, nonce, 0, text))
  }

  /** Decryption accepts a ciphertext and tag as `plain` exactly when encryption of `plain` yields them. */
  lemma {:induction false} DecryptExact(
      c: Cipher, key: Key, nonce: Bytes, aad: Bytes, plain: Bytes, text: Bytes, tag: Tag)
    ensures Decrypt(c, key, nonce, aad, text, tag) == Ok(plain)
            <==> Encrypt(c, key, nonce, aad, plain) == Ok(Sealed(text, tag))
  {
    MaskTwice(c, key, nonce, 0, plain);
    MaskTwice(c, key, nonce, 0, text);
  }

  /**
   * What encryption and decryption return, told by the key stream, the tag function and the size
   * limit 2^31 - 1 alone.
   */
  lemma {:induction false} GcmExact(c: Cipher, key: Key, nonce: Bytes, aad: Bytes, text: Bytes, tag: Tag)
    ensures match Encrypt(c, key, nonce, aad, text)
            case Err(e) => e == InvalidInput && (|text| > 0x7FFF_FFFF || |aad| > 0x7FFF_FFFF)
            case Ok(x) =>
              && |text| <= 0x7FFF_FFFF && |aad| <= 0x7FFF_FFFF
              && FlippedBy(c, key, nonce, 0, text, x.text) && x.tag == c.tag(key, nonce, aad, x.text)
    ensures match Decrypt(c, key, nonce, aad, text, tag)
            case Err(InvalidInput) => |text| > 0x7FFF_FFFF || |aad| > 0x7FFF_FFFF
            case Err(e) =>
              && e == AuthenticationFailed && |text| <= 0x7FFF_FFFF && |aad| <= 0x7FFF_FFFF
              && tag != c.tag(key, nonce, aad, text)
            case Ok(plain) =>
              && |text| <= 0x7FFF_FFFF && |aad| <= 0x7FFF_FFFF
              && tag == c.tag(key, nonce, aad, text) && FlippedBy(c, key, nonce, 0, text, plain)
  {
    hide FlippedBy, Mask;
    MaskFlips(c, key, nonce, 0, text, Mask(c, key, nonce, 0, text));
  }
}
