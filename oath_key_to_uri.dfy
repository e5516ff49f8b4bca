// oath_key_to_uri: a key printed as an otpauth:// URI. The label and the
// secret are printed as they are, without percent-encoding; the secret is
// the key bytes in base 32. A failing realloc is the parameter `reallocOk`.

module OathKeyToUri {
  import opened CTypes
  import opened CLib
  import opened OathTypes
  import opened Rfc4648
  import Base32

  /** The name a known hash is printed as; None for the others, which are refused. */
  function HashName(h: Hash): (r: Option<string>)
    ensures r.Some? <==> KnownHash(h)
    ensures r.Some? ==> r.value != [] && '\0' !in r.value && '&' !in r.value && '%' !in r.value
  {
    match h
    case Sha1 => Some("SHA1")
    case Sha256 => Some("SHA256")
    case Sha512 => Some("SHA512")
    case Md5 => Some("MD5")
    case _ => None
  }

  /** The mode segment a HOTP or TOTP key is printed with; None for the others. */
  function ModeName(m: Mode): (r: Option<string>)
    ensures r.Some? <==> m == Hotp || m == Totp
  {
    if m == Hotp then Some("hotp") else if m == Totp then Some("totp") else None
  }

  /**
   * What asprintf writes: the URI up to "secret=", by the format string of
   * the key's mode. The digit count is printed with %d (as a signed int),
   * the counter and the last-used step with %ju, the period with %u.
   */
  function Prefix(v: KeyValue, h: string): string
  {
    if v.mode == Hotp then
      "otpauth://" + ("hotp" + ("/" + (v.labelText + ("?algorithm=" + (h + ("&digits=" + (PrintSigned(v.digits) +
      ("&counter=" + (DecimalString(v.counter) + "&secret=")))))))))
    else
      "otpauth://" + ("totp" + ("/" + (v.labelText + ("?algorithm=" + (h + ("&digits=" + (PrintSigned(v.digits) +
      ("&period=" + (DecimalString(v.timestep) + ("&lastused=" + (DecimalString(v.lastused) + "&secret=")))))))))))
  }

  /**
   * The URI oath_key_to_uri prints for a key: the prefix, then the key
   * bytes in base 32. None when the hash or the mode cannot be printed.
   */
  function UriText(v: KeyValue): (r: Option<string>)
    ensures r.Some? <==> KnownHash(v.hash) && (v.mode == Hotp || v.mode == Totp)
  {
    if HashName(v.hash).None? || ModeName(v.mode).None? then None
    else Some(Prefix(v, HashName(v.hash).value) + Base32.Encode(v.key))
  }

  /** Nothing printed contains a NUL when the label does not: the result is one C string. */
  lemma UriIsCString(v: KeyValue)
    requires '\0' !in v.labelText && UriText(v).Some?
    ensures '\0' !in UriText(v).value
  {
    Base32.EncodeCharacters(v.key);
    PrefixNulFree(v, HashName(v.hash).value);
  }

  lemma PrefixNulFree(v: KeyValue, h: string)
    requires '\0' !in v.labelText && '\0' !in h
    ensures '\0' !in Prefix(v, h)
  {
    SignedNulFree(v.digits);
    DecimalNulFree(v.counter);
    DecimalNulFree(v.timestep);
    DecimalNulFree(v.lastused);
    assert '\0' !in "otpauth://" && '\0' !in "hotp" && '\0' !in "totp" && '\0' !in "/";
    assert '\0' !in "?algorithm=" && '\0' !in "&digits=" && '\0' !in "&counter=";
    assert '\0' !in "&period=" && '\0' !in "&lastused=" && '\0' !in "&secret=";
  }

  lemma DecimalNulFree(n: nat)
    ensures '\0' !in DecimalString(n)
  {
    DecimalStringPlain(n);
    var d := DecimalString(n);
    assert forall j | 0 <= j < |d| :: d[j] != '\0';
  }

  lemma SignedNulFree(x: uint32)
    ensures '\0' !in PrintSigned(x)
  {
    var d := PrintSigned(x);
    assert forall j | 0 <= j < |d| :: d[j] != '\0';
  }

  /**
   * oath_key_to_uri(key): the URI up to "secret=" printed with asprintf,
   * the buffer grown by base32_enclen(keylen) + 1, and the key bytes
   * encoded at its end. NULL for an unknown hash, a mode other than HOTP
   * or TOTP, or a failing realloc.
   */
  method KeyToUri(key: OathKey, reallocOk: bool) returns (uri: Option<string>)
    requires key.Valid()
    ensures uri.Some? <==> reallocOk && UriText(key.Value()).Some?
    ensures uri.Some? ==> uri == UriText(key.Value())
  {
    var hash: string;
    match key.hash {
      case Sha1 => hash := "SHA1";
      case Sha256 => hash := "SHA256";
      case Sha512 => hash := "SHA512";
      case Md5 => hash := "MD5";
      case _ => return None;
    }
    var prefix: string;
    if key.mode == Hotp {
      prefix := "otpauth://" + ("hotp" + ("/" + (key.labelText + ("?algorithm=" + (hash + ("&digits=" +
        (PrintSigned(key.digits) + ("&counter=" + (DecimalString(key.counter) + "&secret=")))))))));
    } else if key.mode == Totp {
      prefix := "otpauth://" + ("totp" + ("/" + (key.labelText + ("?algorithm=" + (hash + ("&digits=" +
        (PrintSigned(key.digits) + ("&period=" + (DecimalString(key.timestep) + ("&lastused=" +
        (DecimalString(key.lastused) + "&secret=")))))))))));
    } else {
      return None;
    }
    assert prefix == Prefix(key.Value(), hash);
    var kslen := Base32EncLen(key.keylen) + 1;
    if !reallocOk {
      return None;
    }
    var tail := new char[kslen];
    var ret, _ := Base32.Base32Enc(key.key[..key.keylen], tail, kslen);
    // base32_enc cannot fail here: the buffer holds exactly what it needs.
    assert ret == 0;
    Base32.EncodeLength(key.key[..key.keylen]);
    assert tail[..kslen - 1] == Base32.Encode(key.Value().key);
    uri := Some(prefix + tail[..kslen - 1]);
  }
}
