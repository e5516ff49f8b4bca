// The closed-form length estimates of oath_rfc4648.h.

module Rfc4648 {

  /** base32_enclen(l): characters needed to encode l bytes in base 32 (without the NUL). */
  function Base32EncLen(l: nat): nat { ((l + 4) / 5) * 8 }

  /** base32_declen(l): bytes that l base 32 characters can decode to at most. */
  function Base32DecLen(l: nat): nat { ((l + 7) / 8) * 5 }

  /** base64_enclen(l): characters needed to encode l bytes in base 64 (without the NUL). */
  function Base64EncLen(l: nat): nat { ((l + 2) / 3) * 4 }

  /** base64_declen(l): bytes that l base 64 characters can decode to at most. */
  function Base64DecLen(l: nat): nat { ((l + 3) / 4) * 3 }

  /** base32_enclen is eight characters per started group of five bytes. */
  lemma Base32EncLenGroups(l: nat)
    ensures Base32EncLen(l) % 8 == 0
    ensures l % 5 == 0 ==> Base32EncLen(l) == l / 5 * 8
    ensures l % 5 != 0 ==> Base32EncLen(l) == (l / 5 + 1) * 8
    ensures l <= Base32EncLen(l) / 8 * 5 < l + 5
  {
  }

  /** One more group of five bytes (or the final partial group) takes eight more characters. */
  lemma Base32EncLenStep(l: nat)
    ensures l >= 5 ==> Base32EncLen(l) == Base32EncLen(l - 5) + 8
    ensures 0 < l < 5 ==> Base32EncLen(l) == 8
    ensures Base32EncLen(0) == 0
  {
    if l >= 5 {
      assert (l + 4) / 5 == (l - 5 + 4) / 5 + 1;
    }
  }

  /** After q groups of five bytes, the encoding has 8q characters and one more group if bytes remain. */
  lemma Base32EncLenAt(l: nat, q: nat)
    ensures 5 * q + 5 <= l ==> 8 * q + 8 <= Base32EncLen(l)
    ensures 5 * q < l < 5 * q + 5 ==> Base32EncLen(l) == 8 * q + 8
    ensures l == 5 * q ==> Base32EncLen(l) == 8 * q
  {
    if 5 * q + 5 <= l {
      assert (l + 4) / 5 >= q + 1;
    }
    if 5 * q < l < 5 * q + 5 {
      assert (l + 4) / 5 == q + 1;
    }
    if l == 5 * q {
      assert (l + 4) / 5 == q;
    }
  }

  /** One more group of three bytes (or the final partial group) takes four more characters. */
  lemma Base64EncLenStep(l: nat)
    ensures l >= 3 ==> Base64EncLen(l) == Base64EncLen(l - 3) + 4
    ensures 0 < l < 3 ==> Base64EncLen(l) == 4
    ensures Base64EncLen(0) == 0
  {
    if l >= 3 {
      assert (l + 2) / 3 == (l - 3 + 2) / 3 + 1;
    }
  }

  /** After q groups of three bytes, the encoding has 4q characters and one more group if bytes remain. */
  lemma Base64EncLenAt(l: nat, q: nat)
    ensures 3 * q + 3 <= l ==> 4 * q + 4 <= Base64EncLen(l)
    ensures 3 * q < l < 3 * q + 3 ==> Base64EncLen(l) == 4 * q + 4
    ensures l == 3 * q ==> Base64EncLen(l) == 4 * q
  {
    if 3 * q + 3 <= l {
      assert (l + 2) / 3 >= q + 1;
    }
    if 3 * q < l < 3 * q + 3 {
      assert (l + 2) / 3 == q + 1;
    }
    if l == 3 * q {
      assert (l + 2) / 3 == q;
    }
  }

  /** base64_enclen is four characters per started group of three bytes. */
  lemma Base64EncLenGroups(l: nat)
    ensures Base64EncLen(l) % 4 == 0
    ensures l % 3 == 0 ==> Base64EncLen(l) == l / 3 * 4
    ensures l % 3 != 0 ==> Base64EncLen(l) == (l / 3 + 1) * 4
    ensures l <= Base64EncLen(l) / 4 * 3 < l + 3
  {
  }

  /** A buffer of base32_declen(base32_enclen(l)) bytes holds the decoding of any encoding of l bytes. */
  lemma Base32DecLenCoversEncLen(l: nat)
    ensures Base32DecLen(Base32EncLen(l)) >= l
    ensures Base32DecLen(Base32EncLen(l)) == (l + 4) / 5 * 5
  {
    var g := (l + 4) / 5;
    assert Base32EncLen(l) == g * 8;
    assert (g * 8 + 7) / 8 == g;
  }

  /** A buffer of base64_declen(base64_enclen(l)) bytes holds the decoding of any encoding of l bytes. */
  lemma Base64DecLenCoversEncLen(l: nat)
    ensures Base64DecLen(Base64EncLen(l)) >= l
    ensures Base64DecLen(Base64EncLen(l)) == (l + 2) / 3 * 3
  {
    var g := (l + 2) / 3;
    assert Base64EncLen(l) == g * 4;
    assert (g * 4 + 3) / 4 == g;
  }
}
