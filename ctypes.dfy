// C-level vocabulary shared by the OATH library model: bytes, integer
// limits, NUL-terminated strings and the decimal conversions that
// printf("%d"/"%u"/"%ju") and strtoumax() perform.

module CTypes {

  /** An octet, as the library's `uint8_t` and `char` buffers hold them. */
  type byte = bv8

  const UINT64_MAX: int := 0xFFFF_FFFF_FFFF_FFFF
  const UINT_MAX: int := 0xFFFF_FFFF
  const INT_MAX: int := 0x7FFF_FFFF

  /** A value of C's `uint64_t`. */
  type uint64 = x: int | 0 <= x <= UINT64_MAX

  /** A value of C's 32-bit `unsigned int`. */
  type uint32 = x: int | 0 <= x <= UINT_MAX

  function Min(a: int, b: int): int { if a <= b then a else b }

  /** A value that may be absent, as a C pointer that may be NULL. */
  datatype Option<T> = None | Some(value: T)

  /**
   * The C string that starts at `s`: the characters before the first NUL.
   * The end of `s` counts as a NUL, so a sequence without '\0' is its own
   * C string.
   */
  function CStr(s: string): (r: string)
    ensures |r| <= |s| && r == s[..|r|]
    ensures '\0' !in r
    ensures |r| < |s| ==> s[|r|] == '\0'
  {
    if s == [] || s[0] == '\0' then [] else [s[0]] + CStr(s[1..])
  }

  /** The character at index `i`, reading past the end of `s` as NUL. */
  function At(s: string, i: nat): char
  {
    if i < |s| then s[i] else '\0'
  }

  /**
   * The characters a loop of the shape `for (; ilen && *in; --ilen, ++in)`
   * visits: at most `ilen` characters, stopping at the first NUL.
   */
  function Window(s: string, ilen: nat): (w: string)
    ensures |w| <= ilen && |w| <= |s| && w == s[..|w|]
    ensures '\0' !in w
    ensures |w| < ilen && |w| < |s| ==> s[|w|] == '\0'
  {
    CStr(s[..Min(ilen, |s|)])
  }

  /** While fewer than `ilen` characters are visited and no NUL is met, the window goes on. */
  lemma WindowAt(s: string, ilen: nat, i: nat)
    requires i <= |Window(s, ilen)| && i < ilen && i < |s| && s[i] != '\0'
    ensures i < |Window(s, ilen)| && Window(s, ilen)[i] == s[i]
  {
  }

  lemma CStrOfNulFree(s: string)
    requires '\0' !in s
    ensures CStr(s) == s
  {
  }

  lemma WindowOfNulFree(s: string)
    requires '\0' !in s
    ensures Window(s, |s|) == s
  {
    assert s[..|s|] == s;
    CStrOfNulFree(s);
  }

  predicate IsDigit(c: char) { '0' <= c <= '9' }

  /** A non-empty string of decimal digits, the strings strtoumax(…, 10) consumes entirely. */
  predicate IsDecimal(s: string)
  {
    |s| > 0 && forall i | 0 <= i < |s| :: IsDigit(s[i])
  }

  /** The value of a string of decimal digits, most significant first. */
  function DecimalValue(s: string): nat
    requires forall i | 0 <= i < |s| :: IsDigit(s[i])
  {
    if s == [] then 0
    else
      assert IsDigit(s[|s| - 1]);
      10 * DecimalValue(s[..|s| - 1]) + (s[|s| - 1] as int - '0' as int)
  }

  /** printf("%u") of a non-negative integer: decimal, no sign, no leading zeros. */
  function DecimalString(n: nat): (r: string)
    ensures IsDecimal(r)
    decreases n
  {
    if n < 10 then ['0' + n as char]
    else DecimalString(n / 10) + ['0' + (n % 10) as char]
  }

  /** Printing a number in decimal and reading it back yields the number. */
  lemma {:induction false} DecimalRoundTrip(n: nat)
    ensures DecimalValue(DecimalString(n)) == n
    decreases n
  {
    var r := DecimalString(n);
    if n >= 10 {
      DecimalRoundTrip(n / 10);
      assert r[..|r| - 1] == DecimalString(n / 10);
    }
  }

  /** A C string ends at the first NUL: a NUL stored after `a` hides whatever follows it. */
  lemma {:induction false} CStrEndsAtNul(a: string, b: string)
    ensures CStr(a + ['\0'] + b) == CStr(a)
  {
    if a != [] && a[0] != '\0' {
      assert (a + ['\0'] + b)[1..] == a[1..] + ['\0'] + b;
      CStrEndsAtNul(a[1..], b);
    }
  }

  /** Decimal rendering never produces a NUL, a separator or a '%'. */
  lemma DecimalStringPlain(n: nat)
    ensures forall i | 0 <= i < |DecimalString(n)| :: IsDigit(DecimalString(n)[i])
  {
  }

  /** strlen(s): the length of the C string at `s`. */
  method StrLen(s: string) returns (n: nat)
    ensures n == |CStr(s)|
  {
    n := 0;
    while n < |s| && s[n] != '\0'
      invariant n <= |s| && n <= |CStr(s)| && s[..n] == CStr(s)[..n]
    {
      n := n + 1;
    }
  }
}
