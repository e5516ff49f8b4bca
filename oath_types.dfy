// The OATH key record of oath_types.h, the enums and limits of
// oath_constants.h, and the key allocator's "fresh all-zero key".

module OathTypes {
  import opened CTypes

  /** Default TOTP time step, in seconds. */
  const OATH_DEF_TIMESTEP: nat := 30

  /** Largest TOTP time step accepted, in seconds. */
  const OATH_MAX_TIMESTEP: nat := 600

  /** Largest key, in bytes (the HMAC block size). */
  const OATH_MAX_KEYLEN: nat := 64

  /** Size of the label buffer, NUL included. */
  const OATH_MAX_LABELLEN: nat := 64

  /** enum oath_mode. */
  datatype Mode = ModeUndef | Hotp | Totp | ModeMax

  /** enum oath_hash. */
  datatype Hash = HashUndef | Md5 | Sha1 | Sha256 | Sha512 | HashMax

  /** The four hash algorithms a key may name. */
  predicate KnownHash(h: Hash) { h == Md5 || h == Sha1 || h == Sha256 || h == Sha512 }

  /**
   * The observable value of a struct oath_key: the key bytes are the
   * first `keylen` bytes of the key buffer, the label is the C string in
   * the label buffer.
   */
  datatype KeyValue = KeyValue(
    mode: Mode, digits: uint32, counter: uint64, timestep: uint32, lastused: uint64,
    dummy: bool, hash: Hash, labelText: string, key: seq<byte>)

  /** struct oath_key. */
  class OathKey {
    var mode: Mode
    var digits: uint32
    var counter: uint64
    var timestep: uint32
    var lastused: uint64
    var dummy: bool
    var hash: Hash
    /** The C string held in the label buffer. */
    var labelText: string
    var labellen: nat
    /** The key buffer, OATH_MAX_KEYLEN bytes, of which the first `keylen` are the key. */
    var key: seq<byte>
    var keylen: nat

    /** The shape every key has: a full key buffer, a label that fits its buffer. */
    predicate Valid()
      reads this
    {
      |key| == OATH_MAX_KEYLEN && keylen <= OATH_MAX_KEYLEN &&
      labellen == |labelText| < OATH_MAX_LABELLEN && '\0' !in labelText
    }

    function Value(): (v: KeyValue)
      requires Valid()
      reads this
      ensures |v.key| == keylen && |v.labelText| == labellen
    {
      KeyValue(mode, digits, counter, timestep, lastused, dummy, hash, labelText, key[..keylen])
    }

    /** oath_key_alloc: every field zero, the key buffer all zero bytes. */
    constructor ()
      ensures Valid()
      ensures Value() == KeyValue(ModeUndef, 0, 0, 0, 0, false, HashUndef, "", [])
      ensures key == seq(OATH_MAX_KEYLEN, _ => 0)
    {
      mode := ModeUndef;
      digits := 0;
      counter := 0;
      timestep := 0;
      lastused := 0;
      dummy := false;
      hash := HashUndef;
      labelText := "";
      labellen := 0;
      key := seq(OATH_MAX_KEYLEN, _ => 0);
      keylen := 0;
    }
  }
}
