// oath_key_create: a new key from a label, a mode, a hash and either the
// caller's key bytes or fresh random ones. The random source and the
// allocator are parameters: `random` holds what RAND_bytes would write
// (None when it fails), `allocOk` says whether oath_key_alloc succeeds.

module OathKeyCreate {
  import opened CTypes
  import opened OathTypes
  import OathHotp

  /** Key length used when the caller gives none: the size of an HMAC-SHA-1 digest. */
  const DEFAULT_KEYLEN: nat := 20

  /** Digits every new key gets. */
  const DEFAULT_DIGITS: nat := 6

  /** The hash a new key records: oh_undef means SHA-1, the other known hashes stay. */
  function CreatedHash(hash: Hash): Option<Hash>
  {
    if hash == HashUndef then Some(Sha1)
    else if KnownHash(hash) then Some(hash)
    else None
  }

  /**
   * The key oath_key_create returns, or None for NULL: the label must be
   * present and shorter than the label buffer, the length at most
   * OATH_MAX_KEYLEN and not zero when key bytes are given, the mode HOTP
   * or TOTP, the hash known or undefined; without key bytes the random
   * source must deliver; the allocation must succeed.
   */
  function CreatedKey(labelStr: Option<string>, mode: Mode, hash: Hash, keydata: Option<seq<byte>>, keylen: nat,
                      random: Option<seq<byte>>, allocOk: bool): Option<KeyValue>
    requires keydata.Some? ==> |keydata.value| >= keylen
    requires random.Some? ==> |random.value| >= OATH_MAX_KEYLEN
  {
    if labelStr.None? || |CStr(labelStr.value)| >= OATH_MAX_LABELLEN then None
    else if keylen > OATH_MAX_KEYLEN || (keydata.Some? && keylen == 0) then None
    else if mode != Hotp && mode != Totp then None
    else if CreatedHash(hash).None? then None
    else if keydata.None? && random.None? then None
    else if !allocOk then None
    else
      var len := if keylen == 0 then DEFAULT_KEYLEN else keylen;
      var bytes := if keydata.Some? then keydata.value[..len] else random.value[..len];
      Some(KeyValue(mode, DEFAULT_DIGITS, 0, if mode == Totp then OATH_DEF_TIMESTEP else 0, 0, false,
                    CreatedHash(hash).value, CStr(labelStr.value), bytes))
  }

  /**
   * oath_key_create(label, mode, hash, keydata, keylen). On success the
   * key holds the label, the mode and the hash, six digits, a 30-second
   * step for TOTP only, and the key bytes followed by zeros.
   */
  method KeyCreate(labelStr: Option<string>, mode: Mode, hash: Hash, keydata: Option<seq<byte>>, keylen: nat,
                   random: Option<seq<byte>>, allocOk: bool) returns (key: OathKey?)
    requires keydata.Some? ==> |keydata.value| >= keylen
    requires random.Some? ==> |random.value| >= OATH_MAX_KEYLEN
    ensures key == null <==> CreatedKey(labelStr, mode, hash, keydata, keylen, random, allocOk).None?
    ensures key != null ==>
      fresh(key) && key.Valid() && key.Value() == CreatedKey(labelStr, mode, hash, keydata, keylen, random, allocOk).value
    ensures key != null ==> key.key[key.keylen..] == seq(OATH_MAX_KEYLEN - key.keylen, _ => 0)
  {
    if labelStr.None? {
      return null;
    }
    var labellen := StrLen(labelStr.value);
    if labellen >= OATH_MAX_LABELLEN {
      return null;
    }
    var len := keylen;
    if len > OATH_MAX_KEYLEN || (keydata.Some? && len == 0) {
      return null;
    }
    if len == 0 {
      len := DEFAULT_KEYLEN;
    }
    if mode != Hotp && mode != Totp {
      return null;
    }
    var h := hash;
    if h == HashUndef {
      h := Sha1;
    } else if !(h == Md5 || h == Sha1 || h == Sha256 || h == Sha512) {
      return null;
    }
    var data: seq<byte>;
    if keydata.None? {
      if random.None? {
        return null;
      }
      data := random.value[..len];
    } else {
      data := keydata.value[..len];
    }
    if !allocOk {
      return null;
    }
    assert CStr(labelStr.value) == labelStr.value[..labellen];
    key := NewKey(labelStr.value[..labellen], mode, h, data);
  }

  /**
   * The part of oath_key_create after a successful allocation: the label
   * is copied in, the mode and hash set, six digits, a 30-second step for
   * TOTP, and the key bytes copied into the zeroed key buffer.
   */
  method NewKey(labelText: string, mode: Mode, hash: Hash, data: seq<byte>) returns (key: OathKey)
    requires |labelText| < OATH_MAX_LABELLEN && '\0' !in labelText && |data| <= OATH_MAX_KEYLEN
    ensures fresh(key) && key.Valid()
    ensures key.Value() == KeyValue(mode, DEFAULT_DIGITS, 0, if mode == Totp then OATH_DEF_TIMESTEP else 0, 0, false,
                                    hash, labelText, data)
    ensures key.key[key.keylen..] == seq(OATH_MAX_KEYLEN - key.keylen, _ => 0)
  {
    key := new OathKey();
    key.labelText := labelText;
    key.labellen := |labelText|;
    key.mode := mode;
    key.hash := hash;
    key.digits := DEFAULT_DIGITS;
    if key.mode == Totp {
      key.timestep := OATH_DEF_TIMESTEP;
    }
    key.key := data + key.key[|data|..];
    key.keylen := |data|;
    assert key.key[..key.keylen] == data;
  }

  /**
   * Every key oath_key_create returns is ready for use: HOTP or TOTP, a
   * known hash, six digits (so a code is below 10^6), between 1 and
   * OATH_MAX_KEYLEN key bytes, a label that fits, and a usable time step
   * for TOTP.
   */
  lemma CreatedKeyUsable(labelStr: Option<string>, mode: Mode, hash: Hash, keydata: Option<seq<byte>>, keylen: nat,
                         random: Option<seq<byte>>, allocOk: bool)
    requires keydata.Some? ==> |keydata.value| >= keylen
    requires random.Some? ==> |random.value| >= OATH_MAX_KEYLEN
    requires CreatedKey(labelStr, mode, hash, keydata, keylen, random, allocOk).Some?
    ensures var v := CreatedKey(labelStr, mode, hash, keydata, keylen, random, allocOk).value;
      (v.mode == Hotp || v.mode == Totp) && KnownHash(v.hash) && !v.dummy &&
      1 <= |v.key| <= OATH_MAX_KEYLEN && |v.labelText| < OATH_MAX_LABELLEN &&
      OathHotp.Modulus(v.digits) == 1_000_000 &&
      (v.mode == Totp ==> 0 < v.timestep <= OATH_MAX_TIMESTEP)
  {
    OathHotp.ModulusExact(DEFAULT_DIGITS);
  }

  /** Given key bytes are kept exactly; without them, `keylen` random bytes, 20 by default. */
  lemma CreatedKeyBytes(labelStr: Option<string>, mode: Mode, hash: Hash, keydata: Option<seq<byte>>, keylen: nat,
                        random: Option<seq<byte>>, allocOk: bool)
    requires keydata.Some? ==> |keydata.value| >= keylen
    requires random.Some? ==> |random.value| >= OATH_MAX_KEYLEN
    requires CreatedKey(labelStr, mode, hash, keydata, keylen, random, allocOk).Some?
    ensures var v := CreatedKey(labelStr, mode, hash, keydata, keylen, random, allocOk).value;
      (keydata.Some? ==> v.key == keydata.value[..keylen]) &&
      (keydata.None? ==> v.key == random.value[..if keylen == 0 then DEFAULT_KEYLEN else keylen])
  {
  }

  /**
   * The cases that return NULL: no label or one that does not fit, a key
   * too long or empty key bytes, a mode other than HOTP or TOTP, an
   * unknown hash, no random bytes when they are needed.
   */
  lemma CreateRejects(labelStr: Option<string>, mode: Mode, hash: Hash, keydata: Option<seq<byte>>, keylen: nat,
                      random: Option<seq<byte>>, allocOk: bool)
    requires keydata.Some? ==> |keydata.value| >= keylen
    requires random.Some? ==> |random.value| >= OATH_MAX_KEYLEN
    ensures labelStr.None? || |CStr(labelStr.value)| >= OATH_MAX_LABELLEN || keylen > OATH_MAX_KEYLEN ||
      (keydata.Some? && keylen == 0) || mode == ModeUndef || mode == ModeMax || hash == HashMax ||
      (keydata.None? && random.None?) || !allocOk
      <==> CreatedKey(labelStr, mode, hash, keydata, keylen, random, allocOk).None?
  {
  }
}
