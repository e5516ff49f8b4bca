// What oath_key_to_uri prints, oath_key_from_uri reads back: the round
// trip between the two routines, for keys whose label the printer can
// write without percent-encoding.

module OathUriRoundTrip {
  import opened CTypes
  import opened CLib
  import opened OathTypes
  import opened UriDecode
  import opened OathKeyFromUri
  import opened OathKeyToUri
  import OathKeyCreate
  import Base32
  import OathHotp

  /**
   * The keys the printer writes so that the parser reads them back: HOTP
   * or TOTP with a known hash, 6 or 8 digits, 1 to OATH_MAX_KEYLEN key
   * bytes, a non-empty label without '?', '%' or NUL (the printer does
   * not percent-encode it), and for HOTP no time step and a counter
   * below UINT64_MAX, for TOTP a time step of 1 to 600 seconds and a
   * last-used step below UINT64_MAX.
   */
  predicate Printable(v: KeyValue)
  {
    (v.mode == Hotp || v.mode == Totp) && KnownHash(v.hash) && !v.dummy &&
    (v.digits == 6 || v.digits == 8) && 1 <= |v.key| <= OATH_MAX_KEYLEN &&
    0 < |v.labelText| < OATH_MAX_LABELLEN &&
    '?' !in v.labelText && '%' !in v.labelText && '\0' !in v.labelText &&
    (v.mode == Hotp ==> v.timestep == 0 && v.counter < UINT64_MAX) &&
    (v.mode == Totp ==> 0 < v.timestep <= OATH_MAX_TIMESTEP && v.lastused < UINT64_MAX)
  }

  /** The key the parser returns for the printed key: the field the URI does not carry is unset. */
  function Reread(v: KeyValue): KeyValue
  {
    if v.mode == Hotp then v.(lastused := UINT64_MAX) else v.(counter := UINT64_MAX)
  }

  // ---------------------------------------------------------------------
  // The printed text, regrouped parameter by parameter

  /** A parameter followed by '&' and more parameters. */
  function Then(name: string, value: string, rest: string): string
  {
    name + "=" + value + ("&" + rest)
  }

  /** The parameters of a printed HOTP key, after the '?'. */
  function HotpParams(h: string, d: string, c: string, k: string): string
  {
    Then("algorithm", h, Then("digits", d, Then("counter", c, "secret" + "=" + k)))
  }

  /** The parameters of a printed TOTP key, after the '?'. */
  function TotpParams(h: string, d: string, p: string, l: string, k: string): string
  {
    Then("algorithm", h, Then("digits", d, Then("period", p, Then("lastused", l, "secret" + "=" + k))))
  }

  lemma PushTail(a: string, b: string, k: string)
    ensures (a + b) + k == a + (b + k)
  {
  }

  /** A literal "<sep><name>=" followed by a value and more text. */
  lemma Lead(lit: string, sep: char, name: string, x: string, t: string)
    requires lit == [sep] + name + "="
    ensures lit + (x + t) == [sep] + (name + "=" + x + t)
  {
  }

  lemma LastLead(lit: string, name: string, x: string)
    requires lit == "&" + name + "="
    ensures lit + x == "&" + (name + "=" + x)
  {
  }

  /** The printed HOTP URI: the scheme, the mode, the label, then the parameters. */
  lemma HotpText(v: KeyValue, h: string)
    requires v.mode == Hotp
    ensures Prefix(v, h) + Base32.Encode(v.key) ==
      "otpauth://" + ("hotp" + ("/" + (v.labelText + ("?" +
      HotpParams(h, PrintSigned(v.digits), DecimalString(v.counter), Base32.Encode(v.key))))))
  {
    HotpRegroup(v.labelText, h, PrintSigned(v.digits), DecimalString(v.counter), Base32.Encode(v.key));
  }

  lemma HotpRegroup(lbl: string, h: string, d: string, c: string, k: string)
    ensures ("otpauth://" + ("hotp" + ("/" + (lbl + ("?algorithm=" + (h + ("&digits=" + (d +
      ("&counter=" + (c + "&secret=")))))))))) + k ==
      "otpauth://" + ("hotp" + ("/" + (lbl + ("?" + HotpParams(h, d, c, k)))))
  {
    var s6 := c + "&secret=";
    var s5 := "&counter=" + s6;
    var s4 := d + s5;
    var s3 := "&digits=" + s4;
    var s2 := h + s3;
    var s1 := "?algorithm=" + s2;
    var s0 := lbl + s1;
    PushTail(c, "&secret=", k);
    PushTail("&counter=", s6, k);
    PushTail(d, s5, k);
    PushTail("&digits=", s4, k);
    PushTail(h, s3, k);
    PushTail("?algorithm=", s2, k);
    PushTail(lbl, s1, k);
    PushTail("/", s0, k);
    PushTail("hotp", "/" + s0, k);
    PushTail("otpauth://", "hotp" + ("/" + s0), k);
    var secret := "secret" + "=" + k;
    LastLead("&secret=", "secret", k);
    var r3 := Then("counter", c, secret);
    Lead("&counter=", '&', "counter", c, "&" + secret);
    var r2 := Then("digits", d, r3);
    Lead("&digits=", '&', "digits", d, "&" + r3);
    Lead("?algorithm=", '?', "algorithm", h, "&" + r2);
  }

  /** The printed TOTP URI: the scheme, the mode, the label, then the parameters. */
  lemma TotpText(v: KeyValue, h: string)
    requires v.mode == Totp
    ensures Prefix(v, h) + Base32.Encode(v.key) ==
      "otpauth://" + ("totp" + ("/" + (v.labelText + ("?" +
      TotpParams(h, PrintSigned(v.digits), DecimalString(v.timestep), DecimalString(v.lastused),
                 Base32.Encode(v.key))))))
  {
    TotpRegroup(v.labelText, h, PrintSigned(v.digits), DecimalString(v.timestep), DecimalString(v.lastused),
                Base32.Encode(v.key));
  }

  lemma TotpRegroup(lbl: string, h: string, d: string, p: string, l: string, k: string)
    ensures ("otpauth://" + ("totp" + ("/" + (lbl + ("?algorithm=" + (h + ("&digits=" + (d +
      ("&period=" + (p + ("&lastused=" + (l + "&secret=")))))))))))) + k ==
      "otpauth://" + ("totp" + ("/" + (lbl + ("?" + TotpParams(h, d, p, l, k)))))
  {
    var s8 := l + "&secret=";
    var s7 := "&lastused=" + s8;
    var s6 := p + s7;
    var s5 := "&period=" + s6;
    var s4 := d + s5;
    var s3 := "&digits=" + s4;
    var s2 := h + s3;
    var s1 := "?algorithm=" + s2;
    var s0 := lbl + s1;
    PushTail(l, "&secret=", k);
    PushTail("&lastused=", s8, k);
    PushTail(p, s7, k);
    PushTail("&period=", s6, k);
    PushTail(d, s5, k);
    PushTail("&digits=", s4, k);
    PushTail(h, s3, k);
    PushTail("?algorithm=", s2, k);
    PushTail(lbl, s1, k);
    PushTail("/", s0, k);
    PushTail("totp", "/" + s0, k);
    PushTail("otpauth://", "totp" + ("/" + s0), k);
    var secret := "secret" + "=" + k;
    LastLead("&secret=", "secret", k);
    var r4 := Then("lastused", l, secret);
    Lead("&lastused=", '&', "lastused", l, "&" + secret);
    var r3 := Then("period", p, r4);
    Lead("&period=", '&', "period", p, "&" + r4);
    var r2 := Then("digits", d, r3);
    Lead("&digits=", '&', "digits", d, "&" + r3);
    Lead("?algorithm=", '?', "algorithm", h, "&" + r2);
  }

  // ---------------------------------------------------------------------
  // Reading the parameters back

  /** A parameter printed without characters the parser treats specially. */
  predicate PlainParam(name: string, value: string)
  {
    name != [] && value != [] && |name| < NAME_SIZE && |value| < VALUE_SIZE &&
    '=' !in name && '&' !in name && '%' !in name && '\0' !in name &&
    '&' !in value && '%' !in value && '\0' !in value
  }

  /** One plain parameter is read as its name and value, unchanged by the percent-decoding. */
  lemma PlainTurn(name: string, value: string, tail: string, f: Fields)
    requires PlainParam(name, value) && (tail == [] || tail[0] == '&')
    ensures ParamTurn(name + "=" + value + tail, f) ==
      match ApplyParam(f, name, value, |value|, value[0])
      case None => Fail
      case Some(g) => if tail == [] then Last(g) else Next(g, tail[1..])
  {
    var s := name + "=" + value + tail;
    var e := |name|;
    PlainPieces(name, value, tail);
    TurnOfDecoded(s, f, e, e + 1 + |value|, name, value);
  }

  /** How the parameter loop splits a plain parameter: its separators, its decoded name and value, and what follows. */
  lemma PlainPieces(name: string, value: string, tail: string)
    requires PlainParam(name, value) && (tail == [] || tail[0] == '&')
    ensures var s := name + "=" + value + tail; var e := |name|;
      && Separators(s) == Some((e, e + 1 + |value|))
      && Decoded(s, e) == name && Decoded(s[e + 1..], |value|) == value
      && At(s, e + 1) == value[0]
      && (e + 1 + |value| < |s| ==> s[e + 1 + |value| + 1..] == tail[1..])
  {
    var s := name + "=" + value + tail;
    var e := |name|;
    SeparatorsPlain(name, value, tail);
    assert s[..e] == name;
    DecodedPlain(s, e);
    assert s[e + 1..][..|value|] == value;
    DecodedPlain(s[e + 1..], |value|);
  }

  lemma ParamsThen(name: string, value: string, rest: string, f: Fields)
    requires PlainParam(name, value)
    ensures ParseParams(Then(name, value, rest), f) ==
      match ApplyParam(f, name, value, |value|, value[0])
      case None => None
      case Some(g) => ParseParams(rest, g)
  {
    PlainTurn(name, value, "&" + rest, f);
    assert ("&" + rest)[1..] == rest;
  }

  lemma ParamsLast(name: string, value: string, f: Fields)
    requires PlainParam(name, value)
    ensures ParseParams(name + "=" + value, f) == ApplyParam(f, name, value, |value|, value[0])
  {
    PlainTurn(name, value, [], f);
    assert name + "=" + value + [] == name + "=" + value;
  }

  // ---------------------------------------------------------------------
  // Each printed value is read back as the field it came from

  lemma ReadAlgorithm(f: Fields, h: Hash)
    requires f.hash == HashUndef && KnownHash(h)
    ensures var n := HashName(h).value;
      PlainParam("algorithm", n) && ApplyParam(f, "algorithm", n, |n|, n[0]) == Some(f.(hash := h))
  {
  }

  lemma ReadDigits(f: Fields, d: uint32)
    requires f.digits == 0 && (d == 6 || d == 8)
    ensures var t := PrintSigned(d);
      PlainParam("digits", t) && ApplyParam(f, "digits", t, |t|, t[0]) == Some(f.(digits := d))
  {
    var t := PrintSigned(d);
    assert t == [('0' as int + d) as char];
    ApplyDigits(f, t, 1, t[0]);
  }

  /** A number printed in decimal is a plain value: digits only, at most 20 of them for a 64-bit number. */
  lemma DecimalPlain(n: uint64)
    ensures var t := DecimalString(n); t != [] && |t| < VALUE_SIZE && '&' !in t && '%' !in t && '\0' !in t
  {
    var t := DecimalString(n);
    DecimalStringPlain(n);
    assert forall j | 0 <= j < |t| :: t[j] != '&' && t[j] != '%' && t[j] != '\0';
    assert UINT64_MAX < OathHotp.Pow10(20) by {
      assert OathHotp.Pow10(10) == 10_000_000_000;
      OathHotp.Pow10Add(10, 10);
    }
    DecimalShort(n, 20);
  }

  lemma {:induction false} DecimalShort(n: nat, k: nat)
    requires n < OathHotp.Pow10(k) && k >= 1
    ensures |DecimalString(n)| <= k
    decreases k
  {
    if n >= 10 {
      assert OathHotp.Pow10(1) == 10;
      DecimalShort(n / 10, k - 1);
    }
  }

  lemma ReadCounter(f: Fields, n: uint64)
    requires f.counter == UINT64_MAX && n < UINT64_MAX
    ensures var t := DecimalString(n);
      PlainParam("counter", t) && ApplyParam(f, "counter", t, |t|, t[0]) == Some(f.(counter := n))
  {
    DecimalPlain(n);
    StrToUmaxDecimal(n);
  }

  lemma ReadLastused(f: Fields, n: uint64)
    requires f.lastused == UINT64_MAX && n < UINT64_MAX
    ensures var t := DecimalString(n);
      PlainParam("lastused", t) && ApplyParam(f, "lastused", t, |t|, t[0]) == Some(f.(lastused := n))
  {
    DecimalPlain(n);
    StrToUmaxDecimal(n);
  }

  lemma ReadPeriod(f: Fields, n: uint32)
    requires f.timestep == 0 && n <= OATH_MAX_TIMESTEP
    ensures var t := DecimalString(n);
      PlainParam("period", t) && ApplyParam(f, "period", t, |t|, t[0]) == Some(f.(timestep := n))
  {
    DecimalPlain(n);
    StrToUmaxDecimal(n);
  }

  lemma ReadSecret(f: Fields, key: seq<byte>)
    requires |f.key| == 0 && 1 <= |key| <= OATH_MAX_KEYLEN
    ensures var t := Base32.Encode(key);
      PlainParam("secret", t) && ApplyParam(f, "secret", t, |t|, t[0]) == Some(f.(key := key))
  {
    var t := Base32.Encode(key);
    Base32.EncodeLength(key);
    Base32.EncodeCharacters(key);
    assert '&' !in t && '%' !in t by {
      forall j | 0 <= j < |t|
        ensures t[j] != '&' && t[j] != '%'
      {
        assert Base32.B32Dec(t[j]) >= 0 || t[j] == '=';
      }
    }
    Base32.DecodeEncode(key);
  }

  // ---------------------------------------------------------------------
  // The scheme, the mode and the label

  lemma WindowPrefix(a: string, b: string)
    requires '\0' !in a
    ensures Window(a + b, |a|) == a
  {
    assert (a + b)[..|a|] == a;
    CStrOfNulFree(a);
  }

  /** The part before the parameters reads back as the mode and the label. */
  lemma ReadHead(m: Mode, lbl: string, params: string)
    requires m == Hotp || m == Totp
    requires 0 < |lbl| < OATH_MAX_LABELLEN && '?' !in lbl && '%' !in lbl && '\0' !in lbl
    ensures UriHead("otpauth://" + (ModeName(m).value + ("/" + (lbl + ("?" + params))))) == Some(Head(m, lbl, params))
  {
    ReadScheme(m, lbl + ("?" + params));
    ReadLabel(lbl, params);
  }

  /** "otpauth://", the mode segment and its '/' read back as the mode. */
  lemma ReadScheme(m: Mode, t: string)
    requires m == Hotp || m == Totp
    ensures SchemeAndMode("otpauth://" + (ModeName(m).value + ("/" + t))) == Some((m, t))
  {
    var p := ModeName(m).value + ("/" + t);
    ReadSchemeText(p);
    ReadMode(m, t);
  }

  lemma ReadSchemeText(p: string)
    ensures StrLCmpEq("otpauth://", "otpauth://" + p, 10) && ("otpauth://" + p)[10..] == p
  {
    WindowPrefix("otpauth://", p);
  }

  lemma ReadMode(m: Mode, t: string)
    requires m == Hotp || m == Totp
    ensures var p := ModeName(m).value + ("/" + t);
      Find(p, '/') == Some(4) && ModeSegment(p, 4) == Some(m) && p[5..] == t
  {
    var mn := ModeName(m).value;
    var p := mn + ("/" + t);
    assert p == mn + ['/'] + t;
    FindFirst(mn, '/', t);
    WindowPrefix(mn, "/" + t);
    assert "hotp" != "totp" by {
      assert "hotp"[0] != "totp"[0];
    }
  }

  /** A plain label and its '?' read back as the label. */
  lemma ReadLabel(lbl: string, params: string)
    requires 0 < |lbl| < OATH_MAX_LABELLEN && '?' !in lbl && '%' !in lbl && '\0' !in lbl
    ensures LabelAndParams(lbl + ("?" + params)) == Some((lbl, params))
  {
    var t := lbl + ("?" + params);
    assert t == lbl + ['?'] + params;
    FindFirst(lbl, '?', params);
    assert t[..|lbl|] == lbl;
    LabelAgrees(t, |lbl|);
    assert t[|lbl| + 1..] == params;
  }

  // ---------------------------------------------------------------------
  // The round trip

  /** The printed HOTP parameters read back as the hash, the digits, the counter and the key. */
  lemma ReadHotpParams(v: KeyValue)
    requires Printable(v) && v.mode == Hotp
    ensures ParseParams(HotpParams(HashName(v.hash).value, PrintSigned(v.digits), DecimalString(v.counter),
                                   Base32.Encode(v.key)), Start) ==
      Some(Fields(v.hash, v.digits, v.counter, UINT64_MAX, 0, v.key))
  {
    var h := HashName(v.hash).value;
    var d := PrintSigned(v.digits);
    var c := DecimalString(v.counter);
    var k := Base32.Encode(v.key);
    var secret := "secret" + "=" + k;
    ReadAlgorithm(Start, v.hash);
    var g1 := Start.(hash := v.hash);
    ParamsThen("algorithm", h, Then("digits", d, Then("counter", c, secret)), Start);
    ReadDigits(g1, v.digits);
    var g2 := g1.(digits := v.digits);
    ParamsThen("digits", d, Then("counter", c, secret), g1);
    ReadCounter(g2, v.counter);
    var g3 := g2.(counter := v.counter);
    ParamsThen("counter", c, secret, g2);
    ReadSecret(g3, v.key);
    ParamsLast("secret", k, g3);
  }

  /** The printed TOTP parameters read back as the hash, the digits, the period, the last step and the key. */
  lemma ReadTotpParams(v: KeyValue)
    requires Printable(v) && v.mode == Totp
    ensures ParseParams(TotpParams(HashName(v.hash).value, PrintSigned(v.digits), DecimalString(v.timestep),
                                   DecimalString(v.lastused), Base32.Encode(v.key)), Start) ==
      Some(Fields(v.hash, v.digits, UINT64_MAX, v.lastused, v.timestep, v.key))
  {
    var h := HashName(v.hash).value;
    var d := PrintSigned(v.digits);
    var p := DecimalString(v.timestep);
    var l := DecimalString(v.lastused);
    var k := Base32.Encode(v.key);
    var secret := "secret" + "=" + k;
    ReadAlgorithm(Start, v.hash);
    var g1 := Start.(hash := v.hash);
    ParamsThen("algorithm", h, Then("digits", d, Then("period", p, Then("lastused", l, secret))), Start);
    ReadDigits(g1, v.digits);
    var g2 := g1.(digits := v.digits);
    ParamsThen("digits", d, Then("period", p, Then("lastused", l, secret)), g1);
    ReadPeriod(g2, v.timestep);
    var g3 := g2.(timestep := v.timestep);
    ParamsThen("period", p, Then("lastused", l, secret), g2);
    ReadLastused(g3, v.lastused);
    var g4 := g3.(lastused := v.lastused);
    ParamsThen("lastused", l, secret, g3);
    ReadSecret(g4, v.key);
    ParamsLast("secret", k, g4);
  }

  /**
   * oath_key_from_uri reads back what oath_key_to_uri prints: the same
   * key, except the one field the URI of its mode does not carry (the
   * last-used step of a HOTP key, the counter of a TOTP key), which the
   * parser leaves at UINT64_MAX.
   */
  lemma ParsePrinted(v: KeyValue)
    requires Printable(v)
    ensures UriText(v).Some? && ParseUri(UriText(v).value) == Some(Reread(v))
  {
    if v.mode == Hotp {
      ParseHotp(v);
    } else {
      ParseTotp(v);
    }
  }

  lemma ParseHotp(v: KeyValue)
    requires Printable(v) && v.mode == Hotp
    ensures UriText(v).Some? && ParseUri(UriText(v).value) == Some(Reread(v))
  {
    var h := HashName(v.hash).value;
    var params := HotpParams(h, PrintSigned(v.digits), DecimalString(v.counter), Base32.Encode(v.key));
    HotpText(v, h);
    ReadHead(Hotp, v.labelText, params);
    ReadHotpParams(v);
    var f := Fields(v.hash, v.digits, v.counter, UINT64_MAX, 0, v.key);
    ParseOfParts(UriText(v).value, Head(Hotp, v.labelText, params), f);
    FinishHotp(v, f);
  }

  lemma FinishHotp(v: KeyValue, f: Fields)
    requires Printable(v) && v.mode == Hotp
    requires f == Fields(v.hash, v.digits, v.counter, UINT64_MAX, 0, v.key)
    ensures Finish(Hotp, v.labelText, f) == Some(Reread(v))
  {
  }

  lemma ParseTotp(v: KeyValue)
    requires Printable(v) && v.mode == Totp
    ensures UriText(v).Some? && ParseUri(UriText(v).value) == Some(Reread(v))
  {
    var h := HashName(v.hash).value;
    var params := TotpParams(h, PrintSigned(v.digits), DecimalString(v.timestep), DecimalString(v.lastused),
                             Base32.Encode(v.key));
    TotpText(v, h);
    ReadHead(Totp, v.labelText, params);
    ReadTotpParams(v);
    var f := Fields(v.hash, v.digits, UINT64_MAX, v.lastused, v.timestep, v.key);
    ParseOfParts(UriText(v).value, Head(Totp, v.labelText, params), f);
    FinishTotp(v, f);
  }

  lemma FinishTotp(v: KeyValue, f: Fields)
    requires Printable(v) && v.mode == Totp
    requires f == Fields(v.hash, v.digits, UINT64_MAX, v.lastused, v.timestep, v.key)
    ensures Finish(Totp, v.labelText, f) == Some(Reread(v))
  {
  }

  lemma ParseOfParts(uri: string, head: Head, f: Fields)
    requires UriHead(uri) == Some(head) && ParseParams(head.params, Start) == Some(f)
    ensures ParseUri(uri) == Finish(head.mode, head.labelText, f)
  {
  }

  /** Printing the key read back gives the same URI again: the field it lost is not printed. */
  lemma PrintParsed(v: KeyValue)
    requires Printable(v)
    ensures ParseUri(UriText(v).value).Some? && UriText(ParseUri(UriText(v).value).value) == UriText(v)
  {
    ParsePrinted(v);
  }

  /**
   * A key oath_key_create makes with a label the printer can write
   * survives the round trip: a HOTP key comes back with its last-used
   * step unset, a TOTP key with its counter unset.
   */
  lemma CreatedKeyRoundTrip(labelStr: Option<string>, mode: Mode, hash: Hash, keydata: Option<seq<byte>>,
                            keylen: nat, random: Option<seq<byte>>, allocOk: bool)
    requires keydata.Some? ==> |keydata.value| >= keylen
    requires random.Some? ==> |random.value| >= OATH_MAX_KEYLEN
    requires OathKeyCreate.CreatedKey(labelStr, mode, hash, keydata, keylen, random, allocOk).Some?
    requires var t := OathKeyCreate.CreatedKey(labelStr, mode, hash, keydata, keylen, random, allocOk).value.labelText;
      t != [] && '?' !in t && '%' !in t
    ensures var v := OathKeyCreate.CreatedKey(labelStr, mode, hash, keydata, keylen, random, allocOk).value;
      UriText(v).Some? && ParseUri(UriText(v).value) == Some(Reread(v))
  {
    var v := OathKeyCreate.CreatedKey(labelStr, mode, hash, keydata, keylen, random, allocOk).value;
    OathKeyCreate.CreatedKeyUsable(labelStr, mode, hash, keydata, keylen, random, allocOk);
    assert Printable(v);
    ParsePrinted(v);
  }
}
