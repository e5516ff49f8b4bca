// HOTP (RFC 4226): the code for a counter value, the current code of an
// event-based key, and matching a response within a window of counters.
// HMAC-SHA-1 is a parameter: a function from key and message to a
// 20-byte digest.

module OathHotp {
  import opened CTypes
  import opened OathTypes

  /** An HMAC-SHA-1 result. */
  type Digest = s: seq<byte> | |s| == 20 witness seq(20, _ => 0 as byte)

  /** HMAC-SHA-1(key, message). */
  type Hmac = (seq<byte>, seq<byte>) -> Digest

  const TWO32: int := 0x1_0000_0000

  // ---------------------------------------------------------------------
  // The counter as a message (section 5.1 of RFC 4226)

  /** The low `n` bytes of `c`, most significant first. */
  function BigEndian(c: nat, n: nat): (b: seq<byte>)
    ensures |b| == n
  {
    if n == 0 then [] else BigEndian(c / 256, n - 1) + [(c % 256) as byte]
  }

  /** The number a sequence of bytes spells, most significant first. */
  function BigEndianValue(b: seq<byte>): nat
  {
    if b == [] then 0 else 256 * BigEndianValue(b[..|b| - 1]) + b[|b| - 1] as int
  }

  function Pow256(n: nat): nat
  {
    if n == 0 then 1 else 256 * Pow256(n - 1)
  }

  /** The bytes spell the number back: the counter message loses nothing. */
  lemma {:induction false} BigEndianRoundTrip(c: nat, n: nat)
    requires c < Pow256(n)
    ensures BigEndianValue(BigEndian(c, n)) == c
  {
    if n > 0 {
      var b := BigEndian(c, n);
      var q, r := c / 256, c % 256;
      assert b[..n - 1] == BigEndian(q, n - 1) && b[n - 1] == r as byte;
      assert q < Pow256(n - 1);
      BigEndianRoundTrip(q, n - 1);
      ByteValue(r);
    }
  }

  lemma ByteValue(r: nat)
    requires r < 256
    ensures (r as byte) as int == r
  {
    // The solver handles the conversion best on small ranges.
    if r < 16 { } else if r < 32 { } else if r < 64 { } else if r < 128 { } else { }
  }

  /** Four bytes spell their value digit by digit in base 256. */
  lemma BigEndian4(w: seq<byte>)
    requires |w| == 4
    ensures BigEndianValue(w) == w[0] as int * 0x100_0000 + w[1] as int * 0x1_0000 + w[2] as int * 0x100 + w[3] as int
  {
    assert w[..3][..2] == w[..2] && w[..2][..1] == w[..1] && w[..1][..0] == [];
    assert BigEndianValue(w[..1]) == w[0] as int;
    assert BigEndianValue(w[..2]) == 256 * (w[0] as int) + w[1] as int;
    assert BigEndianValue(w[..3]) == 256 * BigEndianValue(w[..2]) + w[2] as int;
  }

  /** Eight bytes hold every uint64_t. */
  lemma CounterFits(c: uint64)
    ensures c < Pow256(8)
  {
  }

  /** The 8-byte counter message of `c`. */
  function CounterMessage(c: uint64): (m: seq<byte>)
    ensures |m| == 8 && BigEndianValue(m) == c
  {
    CounterFits(c);
    BigEndianRoundTrip(c, 8);
    BigEndian(c, 8)
  }

  /** `for (i = 7; i >= 0; --i) { C[i] = seq & 0xff; seq >>= 8; }` */
  method CounterBytes(c: uint64) returns (C: array<byte>)
    ensures fresh(C) && C[..] == CounterMessage(c)
  {
    C := new byte[8];
    var s: nat := c;
    var i := 7;
    while i >= 0
      invariant -1 <= i <= 7
      invariant BigEndian(c, 8) == BigEndian(s, i + 1) + C[i + 1..]
    {
      C[i] := (s % 256) as byte;
      assert C[i..] == [C[i]] + C[i + 1..];
      s := s / 256;
      i := i - 1;
    }
  }

  // ---------------------------------------------------------------------
  // Dynamic truncation (section 5.3 of RFC 4226)

  /** The offset DT reads at: the low four bits of the last byte. */
  function Offset(hs: Digest): (o: nat)
    ensures o <= 15
  {
    (hs[19] & 0x0f) as int
  }

  /**
   * DT: the four bytes from the offset read as a big-endian 32-bit
   * number, top bit cleared.
   */
  function DT(hs: Digest): (p: nat)
    ensures p < 0x8000_0000
  {
    var o := Offset(hs);
    BigEndianValue(hs[o .. o + 4]) % 0x8000_0000
  }

  /** DT spells out as the 31-bit number of section 5.3 of RFC 4226: the offset byte's low 7 bits, then three bytes. */
  lemma DTValue(hs: Digest)
    ensures DT(hs) == (hs[Offset(hs)] as int % 128) * 0x100_0000 + hs[Offset(hs) + 1] as int * 0x1_0000
      + hs[Offset(hs) + 2] as int * 0x100 + hs[Offset(hs) + 3] as int
  {
    Low31(hs[Offset(hs)] as int, hs[Offset(hs) + 1] as int, hs[Offset(hs) + 2] as int, hs[Offset(hs) + 3] as int);
    DTWord(hs, Offset(hs));
  }

  /** DT is the four bytes at the offset, as a number, modulo 2^31. */
  lemma DTWord(hs: Digest, o: nat)
    requires o == Offset(hs)
    ensures DT(hs) == (hs[o] as int * 0x100_0000 + hs[o + 1] as int * 0x1_0000 + hs[o + 2] as int * 0x100 + hs[o + 3] as int) % 0x8000_0000
  {
    var w := hs[o .. o + 4];
    BigEndian4(w);
    assert w[0] == hs[o] && w[1] == hs[o + 1] && w[2] == hs[o + 2] && w[3] == hs[o + 3];
  }

  /** Keeping 31 bits of a four-byte big-endian number keeps 7 bits of its first byte. */
  lemma Low31(a: nat, b: nat, c: nat, d: nat)
    requires a < 256 && b < 256 && c < 256 && d < 256
    ensures (a * 0x100_0000 + b * 0x1_0000 + c * 0x100 + d) % 0x8000_0000
      == (a % 128) * 0x100_0000 + b * 0x1_0000 + c * 0x100 + d
  {
    var hi, lo := a / 128, a % 128;
    assert a * 0x100_0000 == hi * 0x8000_0000 + lo * 0x100_0000;
    ModOfSplit(a * 0x100_0000 + b * 0x1_0000 + c * 0x100 + d, hi, lo * 0x100_0000 + b * 0x1_0000 + c * 0x100 + d);
  }

  lemma ModOfSplit(x: nat, q: nat, r: nat)
    requires r < 0x8000_0000 && x == q * 0x8000_0000 + r
    ensures x % 0x8000_0000 == r
  {
  }

  // ---------------------------------------------------------------------
  // The code

  function Pow10(n: nat): nat
  {
    if n == 0 then 1 else 10 * Pow10(n - 1)
  }

  /** `mod` after `for (mod = 1; Digit > 0; --Digit) mod *= 10;` in 32-bit unsigned arithmetic. */
  function Modulus(digits: nat): nat
  {
    Pow10(digits) % TWO32
  }

  /** The HOTP value of counter `c`: the truncated HMAC-SHA-1 of the counter message, modulo 10^digits. */
  function HotpCode(hmac: Hmac, key: seq<byte>, c: uint64, digits: nat): (code: nat)
    requires Modulus(digits) != 0
    ensures code < Modulus(digits) && code < 0x8000_0000
  {
    Remainder(DT(hmac(key, CounterMessage(c))), Modulus(digits))
  }

  /** The unsigned remainder `v % m`, as repeated subtraction. */
  function Remainder(v: nat, m: nat): (r: nat)
    requires m != 0
    ensures r < m && r <= v
    decreases v
  {
    if v < m then v else Remainder(v - m, m)
  }

  lemma {:induction false} RemainderIsMod(v: nat, m: nat)
    requires m != 0
    ensures Remainder(v, m) == v % m
    decreases v
  {
    if v >= m {
      RemainderIsMod(v - m, m);
      ModUnique(v, m, (v - m) / m + 1, (v - m) % m);
    }
  }

  /** Euclidean division has one remainder. */
  lemma ModUnique(v: nat, m: nat, q: nat, r: nat)
    requires m != 0 && r < m && v == q * m + r
    ensures v / m == q && v % m == r
  {
    var q', r' := v / m, v % m;
    assert q' * m + r' == q * m + r;
    if q' < q {
      MulAtLeast(q - q', m);
      assert false;
    } else if q < q' {
      MulAtLeast(q' - q, m);
      assert false;
    }
  }

  lemma MulAtLeast(d: nat, m: nat)
    requires d >= 1
    ensures d * m >= m
  {
    assert d * m == (d - 1) * m + m;
  }

  /** Up to nine digits the modulus does not wrap, so the code has at most `digits` digits. */
  lemma ModulusExact(digits: nat)
    requires digits <= 9
    ensures Modulus(digits) == Pow10(digits) && Pow10(digits) <= 1_000_000_000
  {
    assert Pow10(0) == 1 && Pow10(1) == 10 && Pow10(2) == 100 && Pow10(3) == 1000;
    assert Pow10(4) == 10_000 && Pow10(5) == 100_000 && Pow10(6) == 1_000_000;
    assert Pow10(7) == 10_000_000 && Pow10(8) == 100_000_000 && Pow10(9) == 1_000_000_000;
  }

  /**
   * From 32 digits on, 10^digits is a multiple of 2^32: the 32-bit modulus
   * wraps to 0 and `Sbits % mod` divides by zero.
   */
  lemma {:induction false} ModulusVanishes(digits: nat)
    requires digits >= 32
    ensures Modulus(digits) == 0
    decreases digits
  {
    if digits == 32 {
      assert Pow10(8) == 100_000_000;
      assert Pow10(16) == Pow10(8) * 100_000_000 by { Pow10Add(8, 8); }
      assert Pow10(32) == Pow10(16) * Pow10(16) by { Pow10Add(16, 16); }
      assert Pow10(32) == 23283064365386962890625 * TWO32;
      ModUnique(Pow10(32), TWO32, 23283064365386962890625, 0);
    } else {
      ModulusVanishes(digits - 1);
      var q := Pow10(digits - 1) / TWO32;
      assert Pow10(digits) == (10 * q) * TWO32;
      ModUnique(Pow10(digits), TWO32, 10 * q, 0);
    }
  }

  lemma {:induction false} Pow10Add(a: nat, b: nat)
    ensures Pow10(a + b) == Pow10(a) * Pow10(b)
    decreases a
  {
    if a > 0 {
      Pow10Add(a - 1, b);
    }
  }

  /** The six- and eight-digit codes keys use are below 10^6 and 10^8. */
  lemma CodeDigits(hmac: Hmac, key: seq<byte>, c: uint64, digits: nat)
    requires digits <= 9
    ensures Modulus(digits) != 0 && HotpCode(hmac, key, c, digits) < Pow10(digits)
    ensures digits == 6 ==> HotpCode(hmac, key, c, digits) < 1_000_000
    ensures digits == 8 ==> HotpCode(hmac, key, c, digits) < 100_000_000
  {
    ModulusExact(digits);
  }

  lemma ModStep(m: nat, k: nat)
    requires m == Pow10(k) % TWO32
    ensures (m * 10) % TWO32 == Pow10(k + 1) % TWO32
  {
    var p := Pow10(k);
    var q := p / TWO32;
    assert p == q * TWO32 + m;
    assert Pow10(k + 1) == (q * 10) * TWO32 + m * 10;
    ModAddMultiple(m * 10, q * 10);
  }

  /** Adding a multiple of 2^32 does not change the remainder. */
  lemma ModAddMultiple(x: nat, n: nat)
    ensures (n * TWO32 + x) % TWO32 == x % TWO32
  {
    ModUnique(n * TWO32 + x, TWO32, n + x / TWO32, x % TWO32);
  }

  /** oath_hotp(K, Klen, seq, Digit). */
  method ComputeHotp(hmac: Hmac, K: seq<byte>, c: uint64, Digit: nat) returns (D: nat)
    requires Modulus(Digit) != 0
    ensures D == HotpCode(hmac, K, c, Digit)
  {
    var C := CounterBytes(c);
    var HS := hmac(K, C[..]);
    var Sbits := DT(HS);
    var mod := 1;
    var d := Digit;
    while d > 0
      invariant 0 <= d <= Digit && mod == Pow10(Digit - d) % TWO32
    {
      ModStep(mod, Digit - d);
      mod := (mod * 10) % TWO32;
      d := d - 1;
    }
    D := Sbits % mod;
    RemainderIsMod(Sbits, mod);
  }

  // ---------------------------------------------------------------------
  // Keys

  /** A key whose code can be computed: the modulus for its digits is not zero. */
  predicate HotpDigitsOk(k: OathKey)
    reads k
  {
    Modulus(k.digits) != 0
  }

  /** Of all the fields of the key, only the counter may have changed. */
  twostate predicate OnlyCounter(k: OathKey)
    reads k
  {
    k.mode == old(k.mode) && k.digits == old(k.digits) && k.timestep == old(k.timestep) &&
    k.lastused == old(k.lastused) && k.dummy == old(k.dummy) && k.hash == old(k.hash) &&
    k.labelText == old(k.labelText) && k.labellen == old(k.labellen) && k.key == old(k.key) &&
    k.keylen == old(k.keylen)
  }

  /**
   * oath_hotp_current(k): -1 without a HOTP key or at the last counter
   * value; otherwise the code at the counter, which advances by one.
   */
  method HotpCurrent(hmac: Hmac, k: OathKey?) returns (code: int)
    requires k != null ==> k.Valid()
    requires k != null && k.mode == Hotp ==> HotpDigitsOk(k)
    modifies k
    ensures k != null ==> OnlyCounter(k)
    ensures k == null || k.mode != Hotp || old(k.counter) == UINT64_MAX ==>
      code == -1 && (k != null ==> k.counter == old(k.counter))
    ensures k != null && k.mode == Hotp && old(k.counter) < UINT64_MAX ==>
      code == HotpCode(hmac, k.key[..k.keylen], old(k.counter), k.digits) && k.counter == old(k.counter) + 1
  {
    if k == null || k.mode != Hotp || k.counter == UINT64_MAX {
      return -1;
    }
    var d := ComputeHotp(hmac, k.key[..k.keylen], k.counter, k.digits);
    k.counter := k.counter + 1;
    return d;
  }

  /** The code at counter `c + i`, the value the match loop tries at offset `i`. */
  function CodeAt(hmac: Hmac, key: seq<byte>, c: uint64, digits: nat, i: nat): nat
    requires Modulus(digits) != 0 && c + i <= UINT64_MAX
  {
    HotpCode(hmac, key, c + i, digits)
  }

  /** oath_hotp at counter `c + i`. */
  method CodeAtOffset(hmac: Hmac, key: seq<byte>, c: uint64, digits: nat, i: nat) returns (code: nat)
    requires Modulus(digits) != 0 && c + i <= UINT64_MAX
    ensures code == CodeAt(hmac, key, c, digits, i)
  {
    code := ComputeHotp(hmac, key, c + i, digits);
  }

  /** The first `i` in `from .. window - 1` whose code at counter `c + i` is `response`. */
  function FirstMatch(hmac: Hmac, key: seq<byte>, c: uint64, digits: nat, response: nat, from: nat, window: nat): Option<nat>
    requires Modulus(digits) != 0 && c + window <= UINT64_MAX
    decreases window - from
  {
    if from >= window then None
    else if CodeAt(hmac, key, c, digits, from) == response then Some(from)
    else FirstMatch(hmac, key, c, digits, response, from + 1, window)
  }

  /** FirstMatch finds the least matching offset, and nothing when no offset matches. */
  lemma {:induction false} FirstMatchIsFirst(hmac: Hmac, key: seq<byte>, c: uint64, digits: nat, response: nat, from: nat, window: nat)
    requires Modulus(digits) != 0 && c + window <= UINT64_MAX
    ensures FirstMatch(hmac, key, c, digits, response, from, window).Some? ==>
      from <= FirstMatch(hmac, key, c, digits, response, from, window).value < window &&
      CodeAt(hmac, key, c, digits, FirstMatch(hmac, key, c, digits, response, from, window).value) == response
    ensures FirstMatch(hmac, key, c, digits, response, from, window).Some? ==>
      forall j | from <= j < FirstMatch(hmac, key, c, digits, response, from, window).value ::
        CodeAt(hmac, key, c, digits, j) != response
    ensures FirstMatch(hmac, key, c, digits, response, from, window).None? ==>
      forall j | from <= j < window :: CodeAt(hmac, key, c, digits, j) != response
    decreases window - from
  {
    if from < window && CodeAt(hmac, key, c, digits, from) != response {
      FirstMatchIsFirst(hmac, key, c, digits, response, from + 1, window);
    }
  }

  /**
   * oath_hotp_match(k, response, window): -1 for a bad window, a non-HOTP
   * key or a counter too close to the top; otherwise the codes at counter,
   * counter + 1, ... counter + window - 1 are computed in turn, and at the
   * first that equals the response the counter is set to it and 1 is
   * returned. A key labelled with the dummy label never matches, though
   * every code of the window is still computed.
   */
  method HotpMatch(hmac: Hmac, k: OathKey?, response: uint32, window: int, dummyLabel: string) returns (r: int)
    requires k != null ==> k.Valid()
    requires k != null && k.mode == Hotp ==> HotpDigitsOk(k)
    modifies k
    ensures k != null ==> OnlyCounter(k)
    ensures k == null || window < 1 || k.mode != Hotp || old(k.counter) >= UINT64_MAX - window ==>
      r == -1 && (k != null ==> k.counter == old(k.counter))
    ensures k != null && window >= 1 && k.mode == Hotp && old(k.counter) < UINT64_MAX - window ==>
      (FirstMatch(hmac, k.key[..k.keylen], old(k.counter), k.digits, response, 0, window).None? || k.labelText == dummyLabel ==>
        r == 0 && k.counter == old(k.counter))
    ensures k != null && window >= 1 && k.mode == Hotp && old(k.counter) < UINT64_MAX - window ==>
      (FirstMatch(hmac, k.key[..k.keylen], old(k.counter), k.digits, response, 0, window).Some? && k.labelText != dummyLabel ==>
        r == 1 && k.counter == old(k.counter) + FirstMatch(hmac, k.key[..k.keylen], old(k.counter), k.digits, response, 0, window).value)
  {
    if k == null || window < 1 || k.mode != Hotp || k.counter >= UINT64_MAX - window {
      return -1;
    }
    var dummy := k.labelText == dummyLabel;
    var found, i := ScanWindow(hmac, k.key[..k.keylen], k.counter, k.digits, response, window, dummy);
    if found {
      k.counter := k.counter + i;
      return 1;
    }
    return 0;
  }

  /**
   * `for (i = 0; i < window; ++i)`: the codes of the window in turn, up to
   * the first that equals the response unless the key is a dummy.
   */
  method ScanWindow(hmac: Hmac, key: seq<byte>, c: uint64, digits: nat, response: nat, window: nat, dummy: bool)
    returns (found: bool, i: nat)
    requires Modulus(digits) != 0 && c + window <= UINT64_MAX
    ensures found <==> !dummy && FirstMatch(hmac, key, c, digits, response, 0, window).Some?
    ensures found ==> i < window && FirstMatch(hmac, key, c, digits, response, 0, window) == Some(i)
  {
    ghost var m := FirstMatch(hmac, key, c, digits, response, 0, window);
    i := 0;
    while i < window
      invariant 0 <= i <= window
      invariant !dummy ==> m == FirstMatch(hmac, key, c, digits, response, i, window)
    {
      var code := CodeAtOffset(hmac, key, c, digits, i);
      if code == response && !dummy {
        assert m == Some(i);
        return true, i;
      }
      i := i + 1;
    }
    assert !dummy ==> m == None;
    return false, i;
  }

  /**
   * After a match the counter stays on the matched value, so the same
   * response matches again at once, at offset 0, on the next call.
   */
  lemma MatchReplays(hmac: Hmac, key: seq<byte>, c: uint64, digits: nat, response: nat, window: nat, i: nat)
    requires Modulus(digits) != 0 && c + window < UINT64_MAX
    requires FirstMatch(hmac, key, c, digits, response, 0, window) == Some(i)
    requires c + i < UINT64_MAX - window
    ensures FirstMatch(hmac, key, c + i, digits, response, 0, window) == Some(0)
  {
    FirstMatchIsFirst(hmac, key, c, digits, response, 0, window);
    assert CodeAt(hmac, key, c + i, digits, 0) == CodeAt(hmac, key, c, digits, i);
  }

  /** The counter after a match at offset `i`, consuming the matched value (section 7.2 of RFC 4226). */
  function NextCounter(c: uint64, i: nat): (n: nat)
    ensures n == c + i + 1
  {
    c + i + 1
  }

  /**
   * With the matched value consumed, the next call cannot accept the
   * counter value just accepted: every counter it tries lies above it.
   */
  lemma NextCounterConsumes(hmac: Hmac, key: seq<byte>, c: uint64, digits: nat, response: nat, window: nat, window': nat)
    requires Modulus(digits) != 0 && c + window < UINT64_MAX
    requires FirstMatch(hmac, key, c, digits, response, 0, window).Some?
    requires NextCounter(c, FirstMatch(hmac, key, c, digits, response, 0, window).value) + window' <= UINT64_MAX
    ensures var i := FirstMatch(hmac, key, c, digits, response, 0, window).value;
      CodeAt(hmac, key, c, digits, i) == response &&
      forall j | FirstMatch(hmac, key, NextCounter(c, i), digits, response, 0, window') == Some(j) :: NextCounter(c, i) + j > c + i
  {
    FirstMatchIsFirst(hmac, key, c, digits, response, 0, window);
  }
}
