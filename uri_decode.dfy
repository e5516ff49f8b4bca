// oath_uri_decode: percent-decoding (section 2.1 of RFC 3986) into a
// caller-supplied buffer that is truncated, always NUL-terminated, and
// whose needed size is always reported.

module UriDecode {
  import opened CTypes

  const SIZE_MAX: int := 0xFFFF_FFFF_FFFF_FFFF

  /** is_xdigit: a hexadecimal digit of either case. */
  predicate IsXDigit(c: char)
  {
    ('0' <= c <= '9') || ('A' <= c <= 'F') || ('a' <= c <= 'f')
  }

  /** The unhex macro: the value of a hexadecimal digit, 0 for anything else. */
  function Unhex(c: char): (v: nat)
    ensures v < 16
    ensures !IsXDigit(c) ==> v == 0
  {
    if '0' <= c <= '9' then c as int - '0' as int
    else if 'A' <= c <= 'F' then 0xa + c as int - 'A' as int
    else if 'a' <= c <= 'f' then 0xa + c as int - 'a' as int
    else 0
  }

  /** The character `unhex(hi) * 16 + unhex(lo)` stores: one octet. */
  function HexChar(hi: char, lo: char): (c: char)
    ensures c as int < 256
  {
    (Unhex(hi) * 16 + Unhex(lo)) as char
  }

  /** Two hexadecimal digits denote the octet they spell, whatever their case. */
  lemma HexCharValue(hi: char, lo: char)
    requires IsXDigit(hi) && IsXDigit(lo)
    ensures HexChar(hi, lo) as int == Unhex(hi) * 16 + Unhex(lo)
    ensures HexChar(hi, lo) == HexChar(Lower(hi), Lower(lo))
  {
  }

  function Lower(c: char): char
  {
    if 'A' <= c <= 'Z' then (c as int + 32) as char else c
  }

  // ---------------------------------------------------------------------
  // The reference decoder

  /** A string starts with a well-formed escape: '%' and two hexadecimal digits. */
  predicate EscapeAt(t: string)
  {
    |t| >= 3 && t[0] == '%' && IsXDigit(t[1]) && IsXDigit(t[2])
  }

  /**
   * Percent-decoding of a whole string: every well-formed escape becomes
   * the octet it denotes, every other character (a lone or malformed '%'
   * included) stands for itself.
   */
  function PercentDecode(t: string): (r: string)
    ensures |r| <= |t|
    decreases |t|
  {
    if t == [] then []
    else if EscapeAt(t) then [HexChar(t[1], t[2])] + PercentDecode(t[3..])
    else [t[0]] + PercentDecode(t[1..])
  }

  /** A string without '%' decodes to itself. */
  lemma {:induction false} PlainIsUnchanged(t: string)
    requires '%' !in t
    ensures PercentDecode(t) == t
    decreases |t|
  {
    if t != [] {
      assert t[0] != '%';
      PlainIsUnchanged(t[1..]);
    }
  }

  /** Decoding works escape by escape: a decoded prefix is a prefix of the decoding. */
  lemma {:induction false} DecodeConcatPlain(a: string, b: string)
    requires '%' !in a
    ensures PercentDecode(a + b) == a + PercentDecode(b)
    decreases |a|
  {
    if a != [] {
      assert a[0] in a;
      assert (a + b)[0] == a[0] && (a + b)[1..] == a[1..] + b;
      assert PercentDecode(a + b) == [a[0]] + PercentDecode(a[1..] + b);
      DecodeConcatPlain(a[1..], b);
      assert a == [a[0]] + a[1..];
    } else {
      assert a + b == b;
    }
  }

  // ---------------------------------------------------------------------
  // The loop as written

  /** The length the loop starts with: `ilen`, or strlen(in) when `ilen` is 0. */
  function StartLen(s: string, ilen: nat): nat
  {
    if ilen == 0 then |CStr(s)| else ilen
  }

  /** The escape test of the loop: room for two more characters below `ilen`, both hexadecimal. */
  predicate EscapeHere(s: string, ilen: nat, ipos: nat)
  {
    At(s, ipos) == '%' && ipos + 2 < ilen && IsXDigit(At(s, ipos + 1)) && IsXDigit(At(s, ipos + 2))
  }

  /**
   * The characters the loop produces from position `ipos` on, with the
   * loop bound `ilen` as it stands there. Each escape adds 2 to the bound.
   */
  function Scan(s: string, ilen: nat, ipos: nat): (r: string)
    decreases |s| - ipos
  {
    if ipos >= ilen || At(s, ipos) == '\0' then []
    else if EscapeHere(s, ilen, ipos) then [HexChar(s[ipos + 1], s[ipos + 2])] + Scan(s, ilen + 2, ipos + 3)
    else [s[ipos]] + Scan(s, ilen, ipos + 1)
  }

  /** One turn of the loop: an escape yields its byte and moves the bound, any other character yields itself. */
  lemma ScanStep(s: string, ilen: nat, ipos: nat)
    requires ipos < ilen && ipos < |s| && s[ipos] != '\0'
    ensures EscapeHere(s, ilen, ipos) ==> Scan(s, ilen, ipos) == [HexChar(s[ipos + 1], s[ipos + 2])] + Scan(s, ilen + 2, ipos + 3)
    ensures !EscapeHere(s, ilen, ipos) ==> Scan(s, ilen, ipos) == [s[ipos]] + Scan(s, ilen, ipos + 1)
  {
  }

  /** The string oath_uri_decode decodes `in`/`ilen` to, whether or not it fits the buffer. */
  function Decoded(s: string, ilen: nat): string
  {
    Scan(s, StartLen(s, ilen), 0)
  }

  /**
   * Once the bound reaches the end of the C string, the loop is the
   * reference decoder on the rest of the C string.
   */
  lemma {:induction false} ScanToEnd(s: string, ilen: nat, ipos: nat)
    requires |CStr(s)| <= ilen && ipos <= |CStr(s)|
    ensures Scan(s, ilen, ipos) == PercentDecode(CStr(s)[ipos..])
    decreases |s| - ipos
  {
    var c := CStr(s);
    var t := c[ipos..];
    if ipos == |c| {
      assert At(s, ipos) == '\0';
    } else {
      assert At(s, ipos) == s[ipos] == t[0];
      assert |t| >= 2 ==> At(s, ipos + 1) == t[1];
      assert |t| >= 3 ==> At(s, ipos + 2) == t[2];
      if EscapeHere(s, ilen, ipos) {
        assert At(s, |c|) == '\0';
        assert ipos + 1 != |c| && ipos + 2 != |c|;
        assert EscapeAt(t);
        assert t[3..] == c[ipos + 3..];
        ScanToEnd(s, ilen + 2, ipos + 3);
      } else {
        assert !EscapeAt(t);
        assert t[1..] == c[ipos + 1..];
        ScanToEnd(s, ilen, ipos + 1);
      }
    }
  }

  /** With `ilen` 0, or any bound covering the string, the whole C string is percent-decoded. */
  lemma WholeStringDecoded(s: string, ilen: nat)
    requires ilen == 0 || ilen >= |CStr(s)|
    ensures Decoded(s, ilen) == PercentDecode(CStr(s))
  {
    ScanToEnd(s, StartLen(s, ilen), 0);
  }

  /** The decoded string is never longer than the C string it comes from. */
  lemma {:induction false} ScanBound(s: string, ilen: nat, ipos: nat)
    requires ipos <= |CStr(s)|
    ensures |Scan(s, ilen, ipos)| <= |CStr(s)| - ipos
    decreases |s| - ipos
  {
    var c := CStr(s);
    assert At(s, |c|) == '\0';
    if ipos < ilen && At(s, ipos) != '\0' {
      assert ipos != |c|;
      if EscapeHere(s, ilen, ipos) {
        assert ipos + 1 != |c| && ipos + 2 != |c|;
        ScanBound(s, ilen + 2, ipos + 3);
      } else {
        ScanBound(s, ilen, ipos + 1);
      }
    }
  }

  /** Without a '%' in the first `n` characters no escape is seen, the bound never moves, and they are copied. */
  lemma {:induction false} ScanPlain(s: string, n: nat, i: nat)
    requires i <= n <= |s| && '%' !in s[..n] && '\0' !in s[..n]
    ensures Scan(s, n, i) == s[i..n]
    decreases n - i
  {
    if i < n {
      assert s[i] in s[..n];
      ScanPlain(s, n, i + 1);
    }
  }

  /** A non-empty segment without '%' decodes to itself, and nothing past it is read. */
  lemma DecodedPlain(s: string, n: nat)
    requires 0 < n <= |s| && '%' !in s[..n] && '\0' !in s[..n]
    ensures Decoded(s, n) == s[..n]
  {
    ScanPlain(s, n, 0);
  }

  /** Test vectors: well-formed escapes anywhere in the string. */
  lemma EscapeVectors()
    ensures Decoded("", 0) == ""
    ensures Decoded("%20", 3) == " "
    ensures Decoded("x%20", 4) == "x "
    ensures Decoded("%20x", 4) == " x"
    ensures Decoded("x%20x", 5) == "x x"
  {
    assert EscapeHere("%20", 3, 0);
    assert EscapeHere("x%20", 4, 1);
    assert EscapeHere("%20x", 4, 0);
    assert EscapeHere("x%20x", 5, 1);
  }

  /** Test vectors: malformed escapes are copied literally. */
  lemma MalformedVectors()
    ensures Decoded("%", 1) == "%"
    ensures Decoded("%2", 2) == "%2"
    ensures Decoded("%2x", 3) == "%2x"
    ensures Decoded("%x0", 3) == "%x0"
    ensures Decoded("%xx", 3) == "%xx"
  {
    assert !EscapeHere("%2x", 3, 0);
    assert !EscapeHere("%x0", 3, 0);
    assert !EscapeHere("%xx", 3, 0);
  }

  // ---------------------------------------------------------------------
  // The decode window

  /** The loop with its bound left alone: it stops `ilen` characters in, escapes included. */
  function ScanWithin(s: string, ilen: nat, ipos: nat): (r: string)
    decreases |s| - ipos
  {
    if ipos >= ilen || At(s, ipos) == '\0' then []
    else if EscapeHere(s, ilen, ipos) then [HexChar(s[ipos + 1], s[ipos + 2])] + ScanWithin(s, ilen, ipos + 3)
    else [s[ipos]] + ScanWithin(s, ilen, ipos + 1)
  }

  /** What oath_uri_decode evidently means to decode: the first `ilen` characters (all of them for 0). */
  function DecodedWithin(s: string, ilen: nat): string
  {
    ScanWithin(s, StartLen(s, ilen), 0)
  }

  lemma {:induction false} ScanWithinWindow(s: string, ilen: nat, ipos: nat)
    requires ipos <= |Window(s, ilen)|
    ensures ScanWithin(s, ilen, ipos) == PercentDecode(Window(s, ilen)[ipos..])
    decreases |s| - ipos
  {
    var w := Window(s, ilen);
    var t := w[ipos..];
    assert |w| < ilen ==> At(s, |w|) == '\0';
    if ipos < |w| {
      assert At(s, ipos) == s[ipos] == t[0];
      assert |t| >= 2 ==> At(s, ipos + 1) == t[1];
      assert |t| >= 3 ==> At(s, ipos + 2) == t[2];
      if EscapeHere(s, ilen, ipos) {
        assert ipos + 1 != |w| && ipos + 2 != |w|;
        assert EscapeAt(t);
        assert t[3..] == w[ipos + 3..];
        ScanWithinWindow(s, ilen, ipos + 3);
      } else {
        assert !EscapeAt(t);
        assert t[1..] == w[ipos + 1..];
        ScanWithinWindow(s, ilen, ipos + 1);
      }
    } else {
      assert ipos >= ilen || At(s, ipos) == '\0';
    }
  }

  /** With the bound left alone, exactly the window of `ilen` characters is percent-decoded. */
  lemma DecodedWithinIsWindow(s: string, ilen: nat)
    ensures DecodedWithin(s, ilen) == PercentDecode(Window(s, StartLen(s, ilen)))
  {
    ScanWithinWindow(s, StartLen(s, ilen), 0);
  }

  /**
   * `ilen += 2` on every escape moves the end of the window: "%20ab" with
   * `ilen` 3 decodes to " ab", two characters past the three it was given.
   */
  lemma EscapeExtendsWindow()
    ensures Decoded("%20ab", 3) == " ab"
    ensures DecodedWithin("%20ab", 3) == " "
  {
    assert EscapeHere("%20ab", 3, 0);
  }

  // ---------------------------------------------------------------------
  // The buffer

  /**
   * The buffer after the call: the first `olen - 1` decoded characters at
   * most, then a NUL right after them, the rest as it was; nothing at all
   * when `olen` is 0.
   */
  ghost predicate Filled(out: seq<char>, was: seq<char>, d: string, olen: nat)
  {
    |out| == |was| && olen <= |out| &&
    (olen == 0 ==> out == was) &&
    (olen > 0 ==> var m := Min(|d|, olen - 1); out == d[..m] + ['\0'] + was[m + 1..])
  }

  /** While decoding, the first `olen - 1` characters produced so far are stored. */
  ghost predicate Partial(out: seq<char>, was: seq<char>, d: string, olen: nat)
  {
    var m := if olen == 0 then 0 else Min(|d|, olen - 1);
    |out| == |was| && olen <= |out| && out[..m] == d[..m] && out[m..] == was[m..]
  }

  /**
   * The write test `opos < olen - 1` as written: `olen - 1` is a size_t, so
   * for `olen` 0 it wraps to SIZE_MAX.
   */
  function WriteGuardAsWritten(opos: nat, olen: nat): bool
    requires olen <= SIZE_MAX
  {
    opos < (olen - 1) % (SIZE_MAX + 1)
  }

  /** The write test the buffer contract needs: room for the character and the NUL. */
  function WriteGuard(opos: nat, olen: nat): (ok: bool)
    ensures ok ==> opos < olen
  {
    opos + 1 < olen
  }

  /** For any buffer of at least one character the two tests agree. */
  lemma WriteGuardAgrees(opos: nat, olen: nat)
    requires 0 < olen <= SIZE_MAX
    ensures WriteGuardAsWritten(opos, olen) == WriteGuard(opos, olen)
  {
  }

  /** With `olen` 0 the test as written lets every write through, the first at index 0 of an empty buffer. */
  lemma WriteGuardWraps(opos: nat)
    requires opos < SIZE_MAX
    ensures WriteGuardAsWritten(opos, 0) && !WriteGuard(opos, 0)
  {
  }

  /** `if (out != NULL && opos < olen - 1) out[opos] = c;`, with the test that respects `olen`. */
  method StoreChar(out: array<char>, opos: nat, olen: nat, c: char, ghost was: seq<char>, ghost d: string)
    requires opos == |d| && Partial(out[..], was, d, olen)
    modifies out
    ensures Partial(out[..], was, d + [c], olen)
  {
    if WriteGuard(opos, olen) {
      out[opos] := c;
      assert out[..opos + 1] == d + [c];
    } else if olen > 0 {
      assert Min(|d| + 1, olen - 1) == Min(|d|, olen - 1);
      assert (d + [c])[..olen - 1] == d[..olen - 1];
    }
  }

  /** `out[opos < olen ? opos : olen - 1] = '\0'` completes the buffer. */
  method Terminate(out: array<char>, opos: nat, olen: nat, ghost was: seq<char>, ghost d: string)
    requires opos == |d| && olen > 0 && Partial(out[..], was, d, olen)
    modifies out
    ensures Filled(out[..], was, d, olen)
  {
    ghost var m := Min(|d|, olen - 1);
    ghost var x := out[..];
    out[if opos < olen then opos else olen - 1] := '\0';
    assert out[..] == x[..m] + ['\0'] + x[m + 1..];
  }

  /**
   * oath_uri_decode(in, ilen, out, olen), `out` NULL being None. It returns
   * the size the whole decoded string needs, NUL included, and stores as
   * much of it as fits, always NUL-terminated.
   */
  method OathUriDecode(input: string, ilen: nat, out: Option<array<char>>, olen: nat) returns (r: nat)
    requires out.Some? ==> olen <= out.value.Length
    modifies if out.Some? then {out.value} else {}
    ensures r == |Decoded(input, ilen)| + 1
    ensures out.Some? ==> Filled(out.value[..], old(out.value[..]), Decoded(input, ilen), olen)
  {
    var n: nat := ilen;
    if n == 0 {
      n := StrLen(input);
    }
    var opos := DecodeLoop(input, n, out, olen);
    if out.Some? && olen > 0 {
      Terminate(out.value, opos, olen, old(out.value[..]), Decoded(input, ilen));
    }
    return opos + 1;
  }

  /**
   * The decoding loop of oath_uri_decode from the start of `input` with
   * bound `n`: stores what fits below `olen - 1` and returns the number
   * of characters produced.
   */
  method DecodeLoop(input: string, n: nat, out: Option<array<char>>, olen: nat) returns (opos: nat)
    requires out.Some? ==> olen <= out.value.Length
    modifies if out.Some? then {out.value} else {}
    ensures opos == |Scan(input, n, 0)|
    ensures out.Some? ==> Partial(out.value[..], old(out.value[..]), Scan(input, n, 0), olen)
  {
    ghost var d: string := [];
    var ipos: nat;
    ipos, opos := 0, 0;
    var bound := n;
    while ipos < bound && ipos < |input| && input[ipos] != '\0'
      invariant ipos <= |input| && opos == |d|
      invariant Scan(input, n, 0) == d + Scan(input, bound, ipos)
      invariant out.Some? ==> Partial(out.value[..], old(out.value[..]), d, olen)
      decreases |input| - ipos
    {
      var c, bound', next := DecodeOne(input, bound, ipos);
      if out.Some? {
        StoreChar(out.value, opos, olen, c, old(out.value[..]), d);
      }
      AppendOne(d, c, Scan(input, bound', next));
      d := d + [c];
      bound, ipos, opos := bound', next, opos + 1;
    }
    ScanStops(input, bound, ipos);
  }

  /** The loop ends where the scan does. */
  lemma ScanStops(s: string, ilen: nat, ipos: nat)
    requires !(ipos < ilen && ipos < |s| && s[ipos] != '\0')
    ensures Scan(s, ilen, ipos) == []
  {
  }

  lemma AppendOne(d: string, c: char, rest: string)
    ensures d + ([c] + rest) == (d + [c]) + rest
  {
  }

  /**
   * The body of the decoding loop at `in` = `input[ipos..]`: an escape with
   * two hex digits inside the bound is one byte, and the bound moves by
   * two; any other character is copied. Returns the character and where
   * the loop goes on.
   */
  method DecodeOne(input: string, n: nat, ipos: nat) returns (c: char, n': nat, next: nat)
    requires ipos < n && ipos < |input| && input[ipos] != '\0'
    ensures ipos < next <= |input|
    ensures Scan(input, n, ipos) == [c] + Scan(input, n', next)
  {
    ScanStep(input, n, ipos);
    if input[ipos] == '%' && ipos + 2 < n && ipos + 2 < |input| && IsXDigit(input[ipos + 1]) && IsXDigit(input[ipos + 2]) {
      c := HexChar(input[ipos + 1], input[ipos + 2]);
      n', next := n + 2, ipos + 3;
    } else {
      c := input[ipos];
      assert !EscapeHere(input, n, ipos);
      n', next := n, ipos + 1;
    }
  }
}
