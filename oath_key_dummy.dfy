// oath_key_dummy: a key that looks like a real one but never verifies,
// so that an unknown user costs the same work as a known one. The dummy
// label (OATH_DUMMY_LABEL, not defined in the sources modelled here) is a
// parameter.

module OathKeyDummy {
  import opened CTypes
  import opened OathTypes
  import OathHotp
  import OathTotp

  /** A label the key's label buffer can hold. */
  predicate LabelFits(dummyLabel: string)
  {
    |dummyLabel| < OATH_MAX_LABELLEN && '\0' !in dummyLabel
  }

  /**
   * The value oath_key_dummy gives a key: the dummy flag, the given mode,
   * hash and digits unchecked, counter zero, a 30-second step, the dummy
   * label, and a full OATH_MAX_KEYLEN bytes of zero key.
   */
  function DummyKey(mode: Mode, hash: Hash, digits: uint32, dummyLabel: string): KeyValue
  {
    KeyValue(mode, digits, 0, OATH_DEF_TIMESTEP, 0, true, hash, dummyLabel, seq(OATH_MAX_KEYLEN, _ => 0))
  }

  /** oath_key_dummy(mode, hash, digits); NULL only when the allocation fails. */
  method KeyDummy(mode: Mode, hash: Hash, digits: uint32, dummyLabel: string, allocOk: bool) returns (key: OathKey?)
    requires LabelFits(dummyLabel)
    ensures key == null <==> !allocOk
    ensures key != null ==> fresh(key) && key.Valid() && key.Value() == DummyKey(mode, hash, digits, dummyLabel)
  {
    if !allocOk {
      return null;
    }
    key := new OathKey();
    key.dummy := true;
    key.mode := mode;
    key.digits := digits;
    key.counter := 0;
    key.timestep := OATH_DEF_TIMESTEP;
    key.hash := hash;
    key.labelText := dummyLabel;
    key.labellen := |dummyLabel|;
    key.keylen := |key.key|;
  }

  /**
   * A dummy key never verifies: whatever the response, the window and the
   * time, HOTP matching and TOTP matching both report no match (or an
   * error), and neither moves the key on.
   */
  method DummyNeverMatches(hmac: OathHotp.Hmac, mode: Mode, hash: Hash, digits: uint32, dummyLabel: string,
                           response: uint32, window: int, now: OathTotp.Time)
    returns (hotp: int, totp: int)
    requires LabelFits(dummyLabel) && OathHotp.Modulus(digits) != 0 && window < INT_MAX
    ensures hotp != 1 && totp != 1
  {
    var key := KeyDummy(mode, hash, digits, dummyLabel, true);
    hotp := OathHotp.HotpMatch(hmac, key, response, window, dummyLabel);
    totp := OathTotp.TotpMatch(hmac, key, response, window, now);
  }
}
