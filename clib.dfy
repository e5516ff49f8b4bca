// The C library routines the URI parser and printer rely on, specified
// by what they compute: strchr, openpam's strlcmp, strtoumax in base 10
// and the printf conversions %d, %u and %ju.

module CLib {
  import opened CTypes

  const TWO32: int := 0x1_0000_0000
  const TWO64: int := 0x1_0000_0000_0000_0000

  /** strchr(s, c) for a character other than NUL: the index of the first `c`, if any. */
  function Find(s: string, c: char): (r: Option<nat>)
    ensures r.Some? ==> r.value < |s| && s[r.value] == c && c !in s[..r.value]
    ensures r.None? ==> c !in s
  {
    if s == [] then None
    else if s[0] == c then Some(0)
    else match Find(s[1..], c)
      case None => None
      case Some(i) => assert s[..i + 1] == [s[0]] + s[1..][..i]; Some(i + 1)
  }

  /** strchr finds the first `c`: the one right after a prefix without `c`. */
  lemma {:induction false} FindFirst(a: string, c: char, b: string)
    requires c !in a
    ensures Find(a + [c] + b, c) == Some(|a|)
    decreases |a|
  {
    if a != [] {
      assert a[0] in a;
      assert (a + [c] + b)[1..] == a[1..] + [c] + b;
      FindFirst(a[1..], c, b);
    }
  }

  /** The index strchr finds for `c`, or the index of the terminating NUL when there is none. */
  function FindOrEnd(s: string, c: char): (r: nat)
    ensures r <= |s| && c !in s[..r] && (r < |s| ==> s[r] == c)
  {
    match Find(s, c)
    case Some(i) => i
    case None => assert s[..|s|] == s; |s|
  }

  /**
   * strlcmp(s, t, n) == 0: the characters of `t` visited up to `n` or its
   * NUL are exactly the string `s`.
   */
  predicate StrLCmpEq(s: string, t: string, n: nat)
  {
    s == Window(t, n)
  }

  /**
   * strlcmp(s, t, n): walk `t` for at most `n` characters or up to its
   * NUL, stop at the first character `s` disagrees with, and at the end
   * demand that `s` ends too. `differ` is the non-zero result.
   */
  method StrLCmp(s: string, t: string, n: nat) returns (differ: bool)
    requires '\0' !in s
    ensures !differ <==> StrLCmpEq(s, t, n)
  {
    ghost var w := Window(t, n);
    var i := 0;
    while i < n && At(t, i) != '\0'
      invariant i <= |s| && i <= |w| && s[..i] == w[..i]
    {
      WindowAt(t, n, i);
      if At(s, i) != t[i] {
        assert i < |s| ==> s[i] != w[i];
        return true;
      }
      i := i + 1;
    }
    assert i == |w|;
    differ := At(s, i) != '\0';
    assert !differ ==> s == s[..i];
  }

  /** isspace in the C locale. */
  predicate IsCSpace(c: char)
  {
    c == ' ' || c == '\t' || c == '\n' || c == '\U{000B}' || c == '\U{000C}' || c == '\r'
  }

  /** The number of leading white-space characters strtoumax skips. */
  function SpaceRun(s: string): (n: nat)
    ensures n <= |s| && (n < |s| ==> !IsCSpace(s[n]))
  {
    if s != [] && IsCSpace(s[0]) then 1 + SpaceRun(s[1..]) else 0
  }

  /**
   * strtoumax(s, &e, 10) when the caller insists that some digits were
   * read (`e != s`) and that nothing follows them (`*e == '\0'`): leading
   * white space, an optional sign, then only decimal digits. The value
   * saturates at UINTMAX_MAX (2^64 - 1), and a minus sign negates it
   * modulo 2^64. None when the string is not of that shape.
   */
  function StrToUmax(s: string): (r: Option<uint64>)
    ensures r.Some? ==> exists i | 0 <= i < |s| :: IsDigit(s[i])
  {
    var t := s[SpaceRun(s)..];
    var signed := |t| > 0 && (t[0] == '+' || t[0] == '-');
    var d := if signed then t[1..] else t;
    if !IsDecimal(d) then None
    else
      assert d[0] == s[|s| - |d|];
      var v := DecimalValue(d);
      Some(if v > UINT64_MAX then UINT64_MAX else if signed && t[0] == '-' then (TWO64 - v) % TWO64 else v)
  }

  /** What printf("%u") and printf("%ju") print reads back through strtoumax as the same number. */
  lemma StrToUmaxDecimal(n: uint64)
    ensures StrToUmax(DecimalString(n)) == Some(n)
  {
    var s := DecimalString(n);
    assert IsDigit(s[0]);
    assert SpaceRun(s) == 0;
    assert s[0..] == s;
    DecimalRoundTrip(n);
  }

  /** Strings without digits, or with anything after them, are refused. */
  lemma StrToUmaxRefuses()
    ensures StrToUmax("") == None && StrToUmax("x") == None && StrToUmax("-") == None
    ensures StrToUmax("12x") == None
  {
    assert SpaceRun("x") == 0 && SpaceRun("-") == 0 && SpaceRun("12x") == 0;
    assert !IsDigit("12x"[2]);
    assert "-"[0..][1..] == [];
  }

  /** Digits alone are read as their value; white space before them and a sign are also accepted. */
  lemma StrToUmaxAccepts()
    ensures StrToUmax("12") == Some(12) && StrToUmax(" +7") == Some(7)
  {
    assert SpaceRun("12") == 0;
    assert "12"[0..] == "12" && "12"[..1] == "1";
    assert DecimalValue("12") == 12;
    assert SpaceRun(" +7") == 1 by {
      assert " +7"[1..] == "+7";
      assert SpaceRun("+7") == 0;
    }
    assert " +7"[1..][1..] == "7";
  }

  /** A minus sign negates modulo 2^64: "-1" is UINTMAX_MAX and "-0" is zero. */
  lemma StrToUmaxNegates()
    ensures StrToUmax("-0") == Some(0) && StrToUmax("-1") == Some(UINT64_MAX)
  {
    assert SpaceRun("-0") == 0 && SpaceRun("-1") == 0;
    assert "-0"[0..][1..] == "0" && "-1"[0..][1..] == "1";
    assert "0"[..0] == [] && "1"[..0] == [];
    assert DecimalValue("0") == 0 && DecimalValue("1") == 1;
  }

  /** printf("%d") of an unsigned int: the bits read as a signed 32-bit integer. */
  function PrintSigned(x: uint32): (r: string)
    ensures r != [] && forall i | 0 <= i < |r| :: IsDigit(r[i]) || r[i] == '-'
  {
    if x <= INT_MAX then DecimalString(x) else "-" + DecimalString(TWO32 - x)
  }
}
