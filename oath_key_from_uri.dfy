// oath_key_from_uri: parse an otpauth URI of the form
//   otpauth://MODE/LABEL?NAME=VALUE&NAME=VALUE...
// into a key. The parse is specified by ParseUri, a function over the
// URI's characters; KeyFromUri is the routine as written, on an OathKey
// object, proved to produce exactly ParseUri's key or NULL.

module OathKeyFromUri {
  import opened CTypes
  import opened CLib
  import opened OathTypes
  import opened UriDecode
  import Base32
  import OathHotp

  /** Size of the name buffer. */
  const NAME_SIZE: nat := 64

  /** Size of the value buffer, which also receives the label. */
  const VALUE_SIZE: nat := 256

  /**
   * The key fields the parameters set. Before the first parameter the
   * hash is undefined, digits, time step and key are empty, and counter
   * and last-used hold the sentinel UINT64_MAX that marks them unset.
   */
  datatype Fields = Fields(hash: Hash, digits: uint32, counter: uint64, lastused: uint64, timestep: uint32,
                           key: seq<byte>)

  const Start := Fields(HashUndef, 0, UINT64_MAX, UINT64_MAX, 0, [])

  /** The algorithm names a URI may give, and the hash each one selects. */
  function HashNamed(value: string): Option<Hash>
  {
    if value == "SHA1" then Some(Sha1)
    else if value == "SHA256" then Some(Sha256)
    else if value == "SHA512" then Some(Sha512)
    else if value == "MD5" then Some(Md5)
    else None
  }

  /**
   * The digit count the "digits" parameter stores: `*q - '0'`, where `q`
   * points at the first RAW character of the value, truncated to the
   * unsigned field. The check before it looked at the DECODED value.
   */
  function DigitsStored(raw: char): uint32
  {
    (raw as int - '0' as int) % TWO32
  }

  /**
   * One parameter applied to the fields, or None for an invalid URI.
   * `name` and `value` are the C strings in the name and value buffers,
   * `valuelen` is the decoded length of the value, `raw` the first
   * undecoded character of the value. A parameter given twice is refused;
   * so is an unknown name; "issuer" is accepted and ignored.
   */
  function ApplyParam(f: Fields, name: string, value: string, valuelen: nat, raw: char): (r: Option<Fields>)
    ensures r.Some? ==> Touches(f, r.value, name)
    ensures r.Some? && name == "secret" ==> |r.value.key| <= OATH_MAX_KEYLEN
    ensures r.Some? && name == "algorithm" ==> KnownHash(r.value.hash)
    ensures r.Some? && name == "counter" ==> r.value.counter < UINT64_MAX
    ensures r.Some? && name == "lastused" ==> r.value.lastused < UINT64_MAX
    ensures r.Some? && name == "period" ==> r.value.timestep <= OATH_MAX_TIMESTEP
  {
    if name == "secret" then
      if |f.key| != 0 then None
      else
        var d := Base32.Decode(Window(value, valuelen));
        if d.Invalid? || |d.data| > OATH_MAX_KEYLEN then None
        else Some(f.(key := d.data))
    else if name == "algorithm" then
      if f.hash != HashUndef || HashNamed(value).None? then None
      else Some(f.(hash := HashNamed(value).value))
    else if name == "digits" then
      if f.digits != 0 || valuelen != 1 || (At(value, 0) != '6' && At(value, 0) != '8') then None
      else Some(f.(digits := DigitsStored(raw)))
    else if name == "counter" then
      if f.counter != UINT64_MAX then None
      else match StrToUmax(value)
        case None => None
        case Some(n) => if n >= UINT64_MAX then None else Some(f.(counter := n))
    else if name == "lastused" then
      if f.lastused != UINT64_MAX then None
      else match StrToUmax(value)
        case None => None
        case Some(n) => if n >= UINT64_MAX then None else Some(f.(lastused := n))
    else if name == "period" then
      if f.timestep != 0 then None
      else match StrToUmax(value)
        case None => None
        case Some(n) => if n > OATH_MAX_TIMESTEP then None else Some(f.(timestep := n))
    else if name == "issuer" then Some(f)
    else None
  }

  /** A parameter changes at most the field it names; "issuer" changes none. */
  predicate Touches(f: Fields, g: Fields, name: string)
  {
    (name != "secret" ==> g.key == f.key) &&
    (name != "algorithm" ==> g.hash == f.hash) &&
    (name != "digits" ==> g.digits == f.digits) &&
    (name != "counter" ==> g.counter == f.counter) &&
    (name != "lastused" ==> g.lastused == f.lastused) &&
    (name != "period" ==> g.timestep == f.timestep)
  }

  /** What one turn of the parameter loop ends with. */
  datatype Turn = Fail | Last(f: Fields) | Next(f: Fields, rest: string)

  /**
   * The separators of one parameter in the rest `s` of the URI: the first
   * '=' anywhere in `s`, and the first '&' or the end. An '&' before the
   * '=' is refused.
   */
  function Separators(s: string): (r: Option<(nat, nat)>)
    ensures r.Some? ==> r.value.0 < r.value.1 <= |s| && s[r.value.0] == '='
  {
    match Find(s, '=')
    case None => None
    case Some(e) =>
      var r := FindOrEnd(s, '&');
      if r < e + 1 then None else Some((e, r))
  }

  /**
   * One parameter, its '=' at `e` and its end at `r`: the name is decoded
   * from the characters before the '=', the value from those between '='
   * and `r`; a decoded name must fit the 64-byte name buffer and a decoded
   * value the 256-byte value buffer.
   */
  function TurnAt(s: string, f: Fields, e: nat, r: nat): (t: Turn)
    requires e < r <= |s|
    ensures t.Next? ==> |t.rest| < |s|
  {
    var nameD := Decoded(s, e);
    var valueD := Decoded(s[e + 1..], r - (e + 1));
    if |nameD| >= NAME_SIZE || |valueD| >= VALUE_SIZE then Fail
    else match ApplyParam(f, CStr(nameD), CStr(valueD), |valueD|, At(s, e + 1))
      case None => Fail
      case Some(g) => if r == |s| then Last(g) else Next(g, s[r + 1..])
  }

  /** One turn of the parameter loop on the rest `s` of the URI. */
  function ParamTurn(s: string, f: Fields): (t: Turn)
    ensures t.Next? ==> |t.rest| < |s|
  {
    match Separators(s)
    case None => Fail
    case Some((e, r)) => TurnAt(s, f, e, r)
  }

  /** The parameter loop: turns until the string or the loop ends; None for an invalid URI. */
  function ParseParams(s: string, f: Fields): Option<Fields>
    decreases |s|
  {
    if s == [] then Some(f)
    else match ParamTurn(s, f)
      case Fail => None
      case Last(g) => Some(g)
      case Next(g, rest) => ParseParams(rest, g)
  }

  /**
   * The sanity checks and defaults after the loop. HOTP: no period and
   * no last-used, the counter 0 when unset. TOTP: no counter, a 30-second
   * period when unset or 0, last-used 0 when unset. Both: SHA-1 and six
   * digits when unset, and a secret is required.
   */
  function Finish(mode: Mode, labelText: string, f: Fields): Option<KeyValue>
  {
    if mode == Hotp && (f.timestep != 0 || f.lastused != UINT64_MAX) then None
    else if mode == Totp && f.counter != UINT64_MAX then None
    else if mode != Hotp && mode != Totp then None
    else if |f.key| == 0 then None
    else
      var counter := if mode == Hotp && f.counter == UINT64_MAX then 0 else f.counter;
      var timestep := if mode == Totp && f.timestep == 0 then OATH_DEF_TIMESTEP else f.timestep;
      var lastused := if mode == Totp && f.lastused == UINT64_MAX then 0 else f.lastused;
      var hash := if f.hash == HashUndef then Sha1 else f.hash;
      var digits := if f.digits == 0 then 6 else f.digits;
      Some(KeyValue(mode, digits, counter, timestep, lastused, false, hash, labelText, f.key))
  }

  /** The mode a mode segment names: exactly "hotp" or "totp". */
  function ModeSegment(p: string, n: nat): Option<Mode>
  {
    if StrLCmpEq("hotp", p, n) then Some(Hotp)
    else if StrLCmpEq("totp", p, n) then Some(Totp)
    else None
  }

  /**
   * The label as stored: the decoded label segment, cut to what the
   * 256-byte value buffer holds, up to its first NUL.
   */
  function LabelStored(t: string, j: nat): string
  {
    var d := Decoded(t, j);
    CStr(d[..Min(|d|, VALUE_SIZE - 1)])
  }

  /** What precedes the parameters: the mode, the stored label, and the rest of the URI after the '?'. */
  datatype Head = Head(mode: Mode, labelText: string, params: string)

  /**
   * The scheme and the mode: "otpauth://", then a mode segment ended by
   * the first '/'. The mode and what follows the '/'.
   */
  function SchemeAndMode(uri: string): (r: Option<(Mode, string)>)
    ensures r.Some? ==> (r.value.0 == Hotp || r.value.0 == Totp) && |r.value.1| < |uri|
    ensures r.Some? ==> r.value.1 == uri[|uri| - |r.value.1|..]
  {
    if !StrLCmpEq("otpauth://", uri, 10) then None
    else
      var p := uri[10..];
      match Find(p, '/')
      case None => None
      case Some(i) =>
        match ModeSegment(p, i)
        case None => None
        case Some(mode) => Some((mode, p[i + 1..]))
  }

  /**
   * The label, ended by the first '?', whose stored form must fit the
   * 64-byte label buffer. The label and what follows the '?'.
   */
  function LabelAndParams(t: string): (r: Option<(string, string)>)
    ensures r.Some? ==> |r.value.0| < OATH_MAX_LABELLEN && '\0' !in r.value.0
    ensures r.Some? ==> |r.value.1| < |t| && r.value.1 == t[|t| - |r.value.1|..]
  {
    match Find(t, '?')
    case None => None
    case Some(j) =>
      var labelText := LabelStored(t, j);
      if |labelText| >= OATH_MAX_LABELLEN then None
      else Some((labelText, t[j + 1..]))
  }

  /** The part of the URI before the parameters. */
  function UriHead(uri: string): (h: Option<Head>)
  {
    match SchemeAndMode(uri)
    case None => None
    case Some((mode, t)) =>
      match LabelAndParams(t)
      case None => None
      case Some((labelText, params)) => Some(Head(mode, labelText, params))
  }

  /**
   * The key oath_key_from_uri returns for the URI `uri` (a C string: its
   * characters before the NUL), or None for NULL.
   */
  function ParseUri(uri: string): Option<KeyValue>
  {
    match UriHead(uri)
    case None => None
    case Some(h) =>
      match ParseParams(h.params, Start)
      case None => None
      case Some(f) => Finish(h.mode, h.labelText, f)
  }

  // ---------------------------------------------------------------------
  // Properties of the parse

  /** The bounds every accepted parameter keeps: a key that fits, a known hash once set, a period of at most 600. */
  predicate Sane(f: Fields)
  {
    |f.key| <= OATH_MAX_KEYLEN && (f.hash == HashUndef || KnownHash(f.hash)) && f.timestep <= OATH_MAX_TIMESTEP
  }

  /** The parameter loop keeps the bounds. */
  lemma {:induction false} ParamsKeepSane(s: string, f: Fields)
    requires Sane(f) && ParseParams(s, f).Some?
    ensures Sane(ParseParams(s, f).value)
    decreases |s|
  {
    if s != [] {
      match ParamTurn(s, f)
      case Last(g) =>
      case Next(g, rest) =>
        ParamsKeepSane(rest, g);
    }
  }

  /**
   * Every key the parser returns is usable: HOTP with a counter below
   * UINT64_MAX, no period and last-used left at UINT64_MAX, or TOTP with
   * a period of 1 to 600 seconds, a last-used below UINT64_MAX and the
   * counter left at UINT64_MAX; a known hash, non-zero digits, between 1
   * and OATH_MAX_KEYLEN key bytes, a label that fits, not a dummy.
   */
  lemma ParsedKeySane(uri: string)
    requires ParseUri(uri).Some?
    ensures var v := ParseUri(uri).value;
      (v.mode == Hotp && v.counter < UINT64_MAX && v.timestep == 0 && v.lastused == UINT64_MAX) ||
      (v.mode == Totp && v.counter == UINT64_MAX && 0 < v.timestep <= OATH_MAX_TIMESTEP && v.lastused < UINT64_MAX)
    ensures var v := ParseUri(uri).value;
      KnownHash(v.hash) && v.digits != 0 && 1 <= |v.key| <= OATH_MAX_KEYLEN &&
      |v.labelText| < OATH_MAX_LABELLEN && '\0' !in v.labelText && !v.dummy
  {
    var h := UriHead(uri).value;
    ParamsKeepSane(h.params, Start);
  }

  /** The separators of a parameter whose name has no '=' or '&' and whose value has no '&'. */
  lemma SeparatorsPlain(name: string, value: string, tail: string)
    requires '=' !in name && '&' !in name && '&' !in value && (tail == [] || tail[0] == '&')
    ensures Separators(name + ['='] + value + tail) == Some((|name|, |name| + 1 + |value|))
  {
    var s := name + ['='] + value + tail;
    assert s == name + ['='] + (value + tail);
    FindFirst(name, '=', value + tail);
    if tail == [] {
      assert '&' !in s by {
        assert s == name + ['='] + value;
      }
    } else {
      assert s == (name + ['='] + value) + ['&'] + tail[1..];
      FindFirst(name + ['='] + value, '&', tail[1..]);
    }
  }

  /** A "digits" parameter whose decoded value is "6" or "8" stores what its raw character gives. */
  lemma ApplyDigits(f: Fields, value: string, valuelen: nat, raw: char)
    requires f.digits == 0 && valuelen == 1 && |value| == 1 && (value[0] == '6' || value[0] == '8')
    ensures ApplyParam(f, "digits", value, valuelen, raw) == Some(f.(digits := DigitsStored(raw)))
  {
  }

  /**
   * "digits" is checked on the decoded value but stored from the raw
   * character: "digits=%36" as the last parameter passes the check as
   * "6" and stores '%' - '0' = -11 as 4294967285, a digit count for which
   * oath_hotp's 32-bit modulus is 0.
   */
  lemma DigitsFromRawCharacter(s: string, f: Fields)
    requires s == "digits=%36" && f.digits == 0
    ensures ParamTurn(s, f) == Last(f.(digits := 4294967285))
    ensures OathHotp.Modulus(4294967285) == 0
  {
    assert s == "digits" + ['='] + "%36" + [];
    SeparatorsPlain("digits", "%36", []);
    DigitsNameDecoded(s);
    EscapedSixDecoded(s);
    ApplyDigits(f, ['6'], 1, '%');
    DigitsStoredPercent();
    TurnOfDecoded(s, f, 6, 10, "digits", ['6']);
    OathHotp.ModulusVanishes(4294967285);
  }

  lemma DigitsNameDecoded(s: string)
    requires s == "digits=%36"
    ensures Decoded(s, 6) == "digits" && At(s, 7) == '%' && s[7..] == "%36"
  {
    DecodedPlain(s, 6);
    assert s[..6] == "digits";
  }

  lemma EscapedSixDecoded(s: string)
    requires s == "digits=%36"
    ensures Decoded(s[7..], 3) == ['6']
  {
    assert s[7..] == "%36";
    assert EscapeHere("%36", 3, 0);
  }

  lemma DigitsStoredPercent()
    ensures DigitsStored('%') == 4294967285
  {
  }

  /** A turn whose name and value decode, within their buffers, to the given NUL-free strings. */
  lemma TurnOfDecoded(s: string, f: Fields, e: nat, r: nat, name: string, value: string)
    requires Separators(s) == Some((e, r))
    requires Decoded(s, e) == name && Decoded(s[e + 1..], r - (e + 1)) == value
    requires |name| < NAME_SIZE && |value| < VALUE_SIZE && '\0' !in name && '\0' !in value
    ensures ParamTurn(s, f) == match ApplyParam(f, name, value, |value|, At(s, e + 1))
      case None => Fail
      case Some(g) => if r == |s| then Last(g) else Next(g, s[r + 1..])
  {
    TurnAtDecoded(s, f, e, r, name, value);
  }

  lemma TurnAtDecoded(s: string, f: Fields, e: nat, r: nat, name: string, value: string)
    requires e < r <= |s|
    requires Decoded(s, e) == name && Decoded(s[e + 1..], r - (e + 1)) == value
    requires |name| < NAME_SIZE && |value| < VALUE_SIZE && '\0' !in name && '\0' !in value
    ensures TurnAt(s, f, e, r) == match ApplyParam(f, name, value, |value|, At(s, e + 1))
      case None => Fail
      case Some(g) => if r == |s| then Last(g) else Next(g, s[r + 1..])
  {
    CStrOfNulFree(name);
    CStrOfNulFree(value);
  }

  /** The digit count the check evidently means to store: the decoded '6' or '8'. */
  function DigitsIntended(value: string, valuelen: nat): (d: Option<uint32>)
    ensures d.Some? ==> (d.value == 6 || d.value == 8) && OathHotp.Modulus(d.value) != 0
  {
    if valuelen != 1 || (At(value, 0) != '6' && At(value, 0) != '8') then None
    else
      OathHotp.ModulusExact(6);
      OathHotp.ModulusExact(8);
      Some(At(value, 0) as int - '0' as int)
  }

  /** Where the value is not escaped the raw and the decoded character are the same, and both readings agree. */
  lemma DigitsAgreeUnescaped(value: string, valuelen: nat, raw: char)
    requires DigitsIntended(value, valuelen).Some? && raw == At(value, 0)
    ensures DigitsStored(raw) == DigitsIntended(value, valuelen).value
  {
  }

  /**
   * An empty label does not give an empty label: `oath_uri_decode` takes
   * length 0 to mean "up to the NUL", so the label becomes the rest of the
   * URI from the '?' on.
   */
  lemma EmptyLabelReadsOn(t: string)
    requires t != [] && t[0] == '?'
    ensures Find(t, '?') == Some(0)
    ensures LabelStored(t, 0) != [] && LabelStored(t, 0)[0] == '?'
  {
    var d := Decoded(t, 0);
    assert At(t, 0) == '?';
    assert StartLen(t, 0) > 0 by {
      assert CStr(t) == [t[0]] + CStr(t[1..]);
    }
    assert d[0] == '?';
    assert d[..Min(|d|, VALUE_SIZE - 1)][0] == '?';
  }

  /** The label the parser evidently means to store: exactly the characters before the '?', decoded. */
  function LabelIntended(t: string, j: nat): (text: string)
    requires j <= |t|
    ensures j == 0 ==> text == []
  {
    CStr(PercentDecode(t[..j]))
  }

  /** For a non-empty label without '%' the two agree: the label is its own characters. */
  lemma LabelAgrees(t: string, j: nat)
    requires 0 < j < VALUE_SIZE && j <= |t| && '%' !in t[..j] && '\0' !in t[..j]
    ensures LabelStored(t, j) == LabelIntended(t, j) == t[..j]
  {
    DecodedPlain(t, j);
    PlainIsUnchanged(t[..j]);
    CStrOfNulFree(t[..j]);
    assert t[..j][..Min(j, VALUE_SIZE - 1)] == t[..j];
  }

  /**
   * "period=0" is accepted and leaves the period unset: a later "period"
   * is not refused as a repeat, and a TOTP key ends up with the default 30
   * seconds.
   */
  lemma PeriodZeroAccepted(f: Fields, labelText: string)
    requires f.timestep == 0
    ensures ApplyParam(f, "period", "0", 1, '0') == Some(f)
    ensures Finish(Totp, labelText, f).Some? ==> Finish(Totp, labelText, f).value.timestep == OATH_DEF_TIMESTEP
  {
    assert SpaceRun("0") == 0;
    assert "0"[0..] == "0" && "0"[..0] == [];
    assert DecimalValue("0") == 0;
  }

  // ---------------------------------------------------------------------
  // The routine as written

  /** The fields of a key object the parameters set. */
  function FieldsOf(k: OathKey): Fields
    requires k.Valid()
    reads k
  {
    Fields(k.hash, k.digits, k.counter, k.lastused, k.timestep, k.key[..k.keylen])
  }

  /** The fields the parameter loop leaves alone: mode, label and dummy flag. */
  twostate predicate KeepsHead(k: OathKey)
    reads k
  {
    k.mode == old(k.mode) && k.labelText == old(k.labelText) && k.labellen == old(k.labellen) &&
    k.dummy == old(k.dummy)
  }

  /**
   * oath_uri_decode into a buffer of `size` characters, then the C string
   * the buffer holds and the decoded length the call reports (its result
   * less one). The buffer's earlier contents are never read, so each call
   * gets a fresh one.
   */
  method DecodeInto(s: string, ilen: nat, size: nat) returns (text: string, len: nat)
    requires size > 0
    ensures len == |Decoded(s, ilen)|
    ensures text == CStr(Decoded(s, ilen)[..Min(len, size - 1)])
  {
    var buf := new char[size];
    ghost var was := buf[..];
    var r := OathUriDecode(s, ilen, Some(buf), size);
    len := r - 1;
    ghost var d := Decoded(s, ilen);
    ghost var m := Min(|d|, size - 1);
    CStrEndsAtNul(d[..m], was[m + 1..]);
    var n := StrLen(buf[..]);
    text := buf[..n];
  }

  /**
   * The "secret" parameter on the key: refused when a key is already
   * there, otherwise base32_dec straight into the key buffer, whose
   * OATH_MAX_KEYLEN bytes bound what fits.
   */
  method StoreSecret(key: OathKey, value: string, valuelen: nat) returns (ok: bool)
    requires key.Valid()
    modifies key
    ensures key.Valid() && KeepsHead(key)
    ensures ok <==> ApplyParam(old(FieldsOf(key)), "secret", value, valuelen, '\0').Some?
    ensures ok ==> FieldsOf(key) == ApplyParam(old(FieldsOf(key)), "secret", value, valuelen, '\0').value
  {
    if key.keylen != 0 {
      return false;
    }
    var init := key.key;
    var buf := new byte[OATH_MAX_KEYLEN](i requires 0 <= i < OATH_MAX_KEYLEN => init[i]);
    var ret, keylen := Base32.Base32Dec(value, valuelen, buf, OATH_MAX_KEYLEN);
    if ret != 0 {
      return false;
    }
    key.key := buf[..];
    key.keylen := keylen;
    ok := true;
  }

  /** One decoded parameter applied to the key, as the chain of strcmp tests does. */
  method ApplyToKey(key: OathKey, name: string, value: string, valuelen: nat, raw: char) returns (ok: bool)
    requires key.Valid()
    modifies key
    ensures key.Valid() && KeepsHead(key)
    ensures ok <==> ApplyParam(old(FieldsOf(key)), name, value, valuelen, raw).Some?
    ensures ok ==> FieldsOf(key) == ApplyParam(old(FieldsOf(key)), name, value, valuelen, raw).value
  {
    ok := false;
    if name == "secret" {
      ok := StoreSecret(key, value, valuelen);
    } else if name == "algorithm" {
      if key.hash != HashUndef {
        return;
      }
      if value == "SHA1" {
        key.hash := Sha1;
      } else if value == "SHA256" {
        key.hash := Sha256;
      } else if value == "SHA512" {
        key.hash := Sha512;
      } else if value == "MD5" {
        key.hash := Md5;
      } else {
        return;
      }
      ok := true;
    } else if name == "digits" {
      if key.digits != 0 {
        return;
      }
      if valuelen != 1 || (At(value, 0) != '6' && At(value, 0) != '8') {
        return;
      }
      key.digits := DigitsStored(raw);
      ok := true;
    } else if name == "counter" {
      if key.counter != UINT64_MAX {
        return;
      }
      var n := StrToUmax(value);
      if n.None? || n.value >= UINT64_MAX {
        return;
      }
      key.counter := n.value;
      ok := true;
    } else if name == "lastused" {
      if key.lastused != UINT64_MAX {
        return;
      }
      var n := StrToUmax(value);
      if n.None? || n.value >= UINT64_MAX {
        return;
      }
      key.lastused := n.value;
      ok := true;
    } else if name == "period" {
      if key.timestep != 0 {
        return;
      }
      var n := StrToUmax(value);
      if n.None? || n.value > OATH_MAX_TIMESTEP {
        return;
      }
      key.timestep := n.value;
      ok := true;
    } else if name == "issuer" {
      ok := true;
    }
  }

  /** The turn a pass of the loop body ends with, from its status and the key's fields. */
  function Outcome(ok: bool, last: bool, rest: string, f: Fields): Turn
  {
    if !ok then Fail else if last then Last(f) else Next(f, rest)
  }

  /** The strchr calls that locate a parameter's '=' and its end, and the test of their order. */
  method FindSeparators(p: string) returns (found: bool, e: nat, r: nat)
    ensures found <==> Separators(p).Some?
    ensures found ==> Separators(p).value == (e, r)
  {
    var q := Find(p, '=');
    if q.None? {
      return false, 0, 0;
    }
    e := q.value;
    r := FindOrEnd(p, '&');
    found := r >= e + 1;
  }

  /** The name and the value of a parameter decoded into their buffers; false when either overflows. */
  method DecodeParam(p: string, e: nat, r: nat) returns (fits: bool, name: string, value: string, valuelen: nat)
    requires e < r <= |p|
    ensures fits <==> |Decoded(p, e)| < NAME_SIZE && |Decoded(p[e + 1..], r - (e + 1))| < VALUE_SIZE
    ensures fits ==> name == CStr(Decoded(p, e)) && value == CStr(Decoded(p[e + 1..], r - (e + 1))) &&
                     valuelen == |Decoded(p[e + 1..], r - (e + 1))|
  {
    var namelen;
    name, namelen := DecodeInto(p, e, NAME_SIZE);
    value, valuelen := DecodeInto(p[e + 1..], r - (e + 1), VALUE_SIZE);
    fits := namelen < NAME_SIZE && valuelen < VALUE_SIZE;
    if fits {
      assert Decoded(p, e)[..Min(namelen, NAME_SIZE - 1)] == Decoded(p, e);
      assert Decoded(p[e + 1..], r - (e + 1))[..Min(valuelen, VALUE_SIZE - 1)] == Decoded(p[e + 1..], r - (e + 1));
    }
  }

  /**
   * The parameter with its '=' at `e` and its end at `r`, decoded into
   * the name and value buffers and applied to the key.
   */
  method ParamAt(key: OathKey, p: string, e: nat, r: nat) returns (ok: bool, last: bool, rest: string)
    requires key.Valid() && e < r <= |p| && '\0' !in p
    modifies key
    ensures key.Valid() && KeepsHead(key)
    ensures Outcome(ok, last, rest, FieldsOf(key)) == TurnAt(p, old(FieldsOf(key)), e, r)
    ensures ok && !last ==> '\0' !in rest
  {
    last, rest := false, [];
    var fits, name, value, valuelen := DecodeParam(p, e, r);
    if !fits {
      return false, last, rest;
    }
    ok := ApplyToKey(key, name, value, valuelen, At(p, e + 1));
    if ok {
      if r == |p| {
        last := true;
      } else {
        rest := p[r + 1..];
        assert forall i | 0 <= i < |rest| :: rest[i] == p[r + 1 + i];
      }
    }
  }

  /**
   * One turn of the parameter loop on the key. `last` says the value ran
   * to the end of the URI, `rest` is what follows the '&' otherwise.
   */
  method OneParam(key: OathKey, p: string) returns (ok: bool, last: bool, rest: string)
    requires key.Valid() && '\0' !in p
    modifies key
    ensures key.Valid() && KeepsHead(key)
    ensures Outcome(ok, last, rest, FieldsOf(key)) == ParamTurn(p, old(FieldsOf(key)))
    ensures ok && !last ==> '\0' !in rest
  {
    var found, e, r := FindSeparators(p);
    if !found {
      return false, false, [];
    }
    ok, last, rest := ParamAt(key, p, e, r);
  }

  /**
   * The parameter loop: one turn per parameter until the URI ends or a
   * turn reports the last one; false as soon as a turn fails.
   */
  method ReadParams(key: OathKey, s: string) returns (ok: bool)
    requires key.Valid() && '\0' !in s
    modifies key
    ensures key.Valid() && KeepsHead(key)
    ensures ok <==> ParseParams(s, old(FieldsOf(key))).Some?
    ensures ok ==> FieldsOf(key) == ParseParams(s, old(FieldsOf(key))).value
  {
    var p := s;
    while p != []
      invariant key.Valid() && KeepsHead(key) && '\0' !in p
      invariant ParseParams(s, old(FieldsOf(key))) == ParseParams(p, FieldsOf(key))
      decreases |p|
    {
      var last, rest;
      ok, last, rest := OneParam(key, p);
      if !ok || last {
        return;
      }
      p := rest;
    }
    return true;
  }

  /** The sanity checks and defaults after the loop, on the key. */
  method Conclude(key: OathKey) returns (ok: bool)
    requires key.Valid() && !key.dummy
    modifies key
    ensures key.Valid()
    ensures ok <==> Finish(old(key.mode), old(key.labelText), old(FieldsOf(key))).Some?
    ensures ok ==> key.Value() == Finish(old(key.mode), old(key.labelText), old(FieldsOf(key))).value
  {
    ok := false;
    if key.mode == Hotp {
      if key.counter == UINT64_MAX {
        key.counter := 0;
      }
      if key.timestep != 0 || key.lastused != UINT64_MAX {
        return;
      }
    } else if key.mode == Totp {
      if key.counter != UINT64_MAX {
        return;
      }
      if key.timestep == 0 {
        key.timestep := OATH_DEF_TIMESTEP;
      }
      if key.lastused == UINT64_MAX {
        key.lastused := 0;
      }
    } else {
      return;
    }
    if key.hash == HashUndef {
      key.hash := Sha1;
    }
    if key.digits == 0 {
      key.digits := 6;
    }
    if key.keylen == 0 {
      return;
    }
    ok := true;
  }

  /** The checks on the scheme and the mode, up to the '/'. */
  method ReadMode(uri: string) returns (ok: bool, mode: Mode, t: string)
    ensures ok <==> SchemeAndMode(uri).Some?
    ensures ok ==> SchemeAndMode(uri).value == (mode, t)
  {
    ok, mode, t := false, ModeUndef, [];
    var differ := StrLCmp("otpauth://", uri, 10);
    if differ {
      return;
    }
    var p := uri[10..];
    var slash := Find(p, '/');
    if slash.None? {
      return;
    }
    var found;
    found, mode := ReadModeSegment(p, slash.value);
    if !found {
      return;
    }
    ok, t := true, p[slash.value + 1..];
  }

  /** The mode comparisons: "hotp" or "totp" over the first n characters. */
  method ReadModeSegment(p: string, n: nat) returns (ok: bool, mode: Mode)
    ensures ok <==> ModeSegment(p, n).Some?
    ensures ok ==> ModeSegment(p, n).value == mode
  {
    ok, mode := true, Hotp;
    var differ := StrLCmp("hotp", p, n);
    if differ {
      mode := Totp;
      differ := StrLCmp("totp", p, n);
      ok := !differ;
    }
  }

  /** The label, decoded into the value buffer and copied into the label buffer, up to the '?'. */
  method ReadLabel(t: string) returns (ok: bool, labelText: string, params: string)
    ensures ok <==> LabelAndParams(t).Some?
    ensures ok ==> LabelAndParams(t).value == (labelText, params)
  {
    ok, labelText, params := false, [], [];
    var mark := Find(t, '?');
    if mark.None? {
      return;
    }
    var value, valuelen := DecodeInto(t, mark.value, VALUE_SIZE);
    if |value| >= OATH_MAX_LABELLEN {
      return;
    }
    ok, labelText, params := true, value, t[mark.value + 1..];
  }

  /** The freshly allocated key with the mode and the label in place and counter and last-used unset. */
  method StartKey(mode: Mode, labelText: string) returns (k: OathKey)
    requires |labelText| < OATH_MAX_LABELLEN && '\0' !in labelText
    ensures fresh(k) && k.Valid() && !k.dummy
    ensures k.mode == mode && k.labelText == labelText && FieldsOf(k) == Start
  {
    k := new OathKey();
    k.mode := mode;
    k.labelText := labelText;
    k.labellen := |labelText|;
    k.counter := UINT64_MAX;
    k.lastused := UINT64_MAX;
  }

  /**
   * oath_key_from_uri(uri): the key the URI describes, or NULL when the
   * allocation fails or the URI is invalid. `uri` is the C string's
   * characters; `allocOk` says whether oath_key_alloc succeeds.
   */
  method KeyFromUri(uri: string, allocOk: bool) returns (key: OathKey?)
    requires '\0' !in uri
    ensures key == null <==> !allocOk || ParseUri(uri).None?
    ensures key != null ==> fresh(key) && key.Valid() && key.Value() == ParseUri(uri).value
  {
    if !allocOk {
      return null;
    }
    var ok, mode, t := ReadMode(uri);
    if !ok {
      assert UriHead(uri).None?;
      return null;
    }
    var labelText, params;
    ok, labelText, params := ReadLabel(t);
    if !ok {
      assert UriHead(uri).None?;
      return null;
    }
    assert UriHead(uri) == Some(Head(mode, labelText, params));
    assert '\0' !in params by {
      assert params == uri[|uri| - |params|..];
    }
    var k := StartKey(mode, labelText);
    ok := ReadParams(k, params);
    if !ok {
      assert ParseParams(params, Start).None?;
      return null;
    }
    ghost var f := ParseParams(params, Start).value;
    assert ParseUri(uri) == Finish(mode, labelText, f);
    ok := Conclude(k);
    if !ok {
      return null;
    }
    key := k;
  }
}
