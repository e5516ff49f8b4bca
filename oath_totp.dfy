// TOTP (RFC 6238): HOTP over the number of time steps since the epoch.
// The clock is a parameter `now`, a time_t at or after the epoch.

module OathTotp {
  import opened CTypes
  import opened OathTypes
  import opened OathHotp

  /** The fixed step of oath_totp, in seconds. */
  const TOTP_TIME_STEP: uint32 := 30

  const TWO64: int := 0x1_0000_0000_0000_0000

  /** A time_t value at or after the epoch. */
  type Time = t: int | 0 <= t <= 0x7FFF_FFFF_FFFF_FFFF

  /** oath_totp(K, Klen, Digit): the HOTP code of the current 30-second step. */
  method ComputeTotp(hmac: Hmac, K: seq<byte>, Digit: nat, now: Time) returns (code: nat)
    requires Modulus(Digit) != 0
    ensures code == HotpCode(hmac, K, StepAt(now, TOTP_TIME_STEP), Digit)
  {
    code := ComputeHotp(hmac, K, StepAt(now, TOTP_TIME_STEP), Digit);
  }

  /** Within one 30-second step the code does not change, and it is HOTP's code for that step. */
  lemma TotpStep(hmac: Hmac, K: seq<byte>, Digit: nat, s: uint64, now: Time)
    requires Modulus(Digit) != 0
    requires TOTP_TIME_STEP as int * s <= now < TOTP_TIME_STEP as int * s + TOTP_TIME_STEP as int
    ensures StepAt(now, TOTP_TIME_STEP) == s
    ensures HotpCode(hmac, K, StepAt(now, TOTP_TIME_STEP), Digit) == HotpCode(hmac, K, s, Digit)
  {
    StepAtIsQuotient(now, TOTP_TIME_STEP);
  }

  /** The number of whole time steps since the epoch, `now / timestep`, as repeated subtraction. */
  function StepAt(now: Time, timestep: uint32): (s: uint64)
    requires timestep != 0
    ensures s <= now
    decreases now
  {
    if now < timestep then 0 else 1 + StepAt(now - timestep, timestep)
  }

  /** StepAt is the quotient: `now` lies in step StepAt(now, t), which starts at StepAt(now, t) * t. */
  lemma {:induction false} StepAtIsQuotient(now: Time, t: uint32)
    requires t != 0
    ensures StepAt(now, t) == now / t
    ensures StepAt(now, t) * t <= now < StepAt(now, t) * t + t
    decreases now
  {
    if now >= t {
      StepAtIsQuotient(now - t, t);
      assert (StepAt(now - t, t) + 1) * t == StepAt(now - t, t) * t + t;
    }
    ModUnique(now, t, StepAt(now, t), now - StepAt(now, t) * t);
  }

  /** A TOTP key whose code can be computed. */
  predicate TotpReady(k: OathKey)
    reads k
  {
    k.mode == Totp && k.timestep != 0
  }

  /**
   * oath_totp_current(k): UINT_MAX without a TOTP key or with a zero time
   * step; otherwise the code of step now / timestep. The key is only read.
   */
  method TotpCurrent(hmac: Hmac, k: OathKey?, now: Time) returns (code: nat)
    requires k != null ==> k.Valid()
    requires k != null && TotpReady(k) ==> Modulus(k.digits) != 0
    ensures k == null || !TotpReady(k) ==> code == UINT_MAX
    ensures k != null && TotpReady(k) ==> code == HotpCode(hmac, k.key[..k.keylen], StepAt(now, k.timestep), k.digits)
  {
    if k == null || k.mode != Totp || k.timestep == 0 {
      return UINT_MAX;
    }
    var s := now / k.timestep;
    StepAtIsQuotient(now, k.timestep);
    code := ComputeHotp(hmac, k.key[..k.keylen], s, k.digits);
  }

  /** `seq + i` in uint64_t arithmetic: `i` converted to uint64_t, the sum modulo 2^64. */
  function Step(s: uint64, i: int): uint64
  {
    (s + i) % TWO64
  }

  /**
   * The first offset `i` in `from .. window` whose step is past `lastused`
   * and whose code is `response`.
   */
  function FirstAccepted(hmac: Hmac, key: seq<byte>, digits: nat, s: uint64, lastused: uint64, response: nat, from: int, window: int): Option<int>
    requires Modulus(digits) != 0
    decreases window - from + 1
  {
    if from > window then None
    else if Accepts(hmac, key, digits, s, lastused, response, from) then Some(from)
    else FirstAccepted(hmac, key, digits, s, lastused, response, from + 1, window)
  }

  /** Step `Step(s, i)` may be accepted against `lastused`: it is new and its code is the response. */
  predicate Accepts(hmac: Hmac, key: seq<byte>, digits: nat, s: uint64, lastused: uint64, response: nat, i: int)
    requires Modulus(digits) != 0
  {
    Step(s, i) > lastused && HotpCode(hmac, key, Step(s, i), digits) == response
  }

  /**
   * FirstAccepted is the least acceptable offset; in particular a step at
   * or before `lastused` is never accepted.
   */
  lemma {:induction false} FirstAcceptedIsFirst(hmac: Hmac, key: seq<byte>, digits: nat, s: uint64, lastused: uint64, response: nat, from: int, window: int)
    requires Modulus(digits) != 0
    ensures FirstAccepted(hmac, key, digits, s, lastused, response, from, window).Some? ==>
      from <= FirstAccepted(hmac, key, digits, s, lastused, response, from, window).value <= window &&
      Accepts(hmac, key, digits, s, lastused, response, FirstAccepted(hmac, key, digits, s, lastused, response, from, window).value)
    ensures FirstAccepted(hmac, key, digits, s, lastused, response, from, window).Some? ==>
      forall j | from <= j < FirstAccepted(hmac, key, digits, s, lastused, response, from, window).value ::
        !Accepts(hmac, key, digits, s, lastused, response, j)
    ensures FirstAccepted(hmac, key, digits, s, lastused, response, from, window).None? ==>
      forall j | from <= j <= window :: !Accepts(hmac, key, digits, s, lastused, response, j)
    decreases window - from + 1
  {
    if from <= window && !Accepts(hmac, key, digits, s, lastused, response, from) {
      FirstAcceptedIsFirst(hmac, key, digits, s, lastused, response, from + 1, window);
    }
  }

  /** Some acceptable offset in the range means the scan accepts one, at or before it. */
  lemma {:induction false} FirstAcceptedFinds(hmac: Hmac, key: seq<byte>, digits: nat, s: uint64, lastused: uint64, response: nat, from: int, window: int, j: int)
    requires Modulus(digits) != 0
    requires from <= j <= window && Accepts(hmac, key, digits, s, lastused, response, j)
    ensures FirstAccepted(hmac, key, digits, s, lastused, response, from, window).Some?
    ensures FirstAccepted(hmac, key, digits, s, lastused, response, from, window).value <= j
    decreases window - from + 1
  {
    if !Accepts(hmac, key, digits, s, lastused, response, from) {
      FirstAcceptedFinds(hmac, key, digits, s, lastused, response, from + 1, window, j);
    }
  }

  /** Of all the fields of the key, only lastused may have changed. */
  twostate predicate OnlyLastused(k: OathKey)
    reads k
  {
    k.mode == old(k.mode) && k.digits == old(k.digits) && k.timestep == old(k.timestep) &&
    k.counter == old(k.counter) && k.dummy == old(k.dummy) && k.hash == old(k.hash) &&
    k.labelText == old(k.labelText) && k.labellen == old(k.labellen) && k.key == old(k.key) &&
    k.keylen == old(k.keylen)
  }

  /**
   * oath_totp_match(k, response, window): -1 for a negative window, a
   * non-TOTP key or a zero time step; otherwise the steps seq - window ..
   * seq + window are tried in turn, skipping those not after lastused,
   * and at the first whose code is the response lastused becomes the
   * current step seq and 1 is returned. A dummy key never matches.
   */
  method TotpMatch(hmac: Hmac, k: OathKey?, response: uint32, window: int, now: Time) returns (r: int)
    requires window < INT_MAX
    requires k != null ==> k.Valid()
    requires k != null && TotpReady(k) ==> Modulus(k.digits) != 0
    modifies k
    ensures k != null ==> OnlyLastused(k)
    ensures k == null || window < 0 || !TotpReady(k) ==> r == -1 && (k != null ==> k.lastused == old(k.lastused))
    ensures k != null && window >= 0 && TotpReady(k) && k.dummy ==> r == 0 && k.lastused == old(k.lastused)
    ensures k != null && window >= 0 && TotpReady(k) && !k.dummy ==>
      (FirstAccepted(hmac, k.key[..k.keylen], k.digits, StepAt(now, k.timestep), old(k.lastused), response, -window, window).None? ==>
        r == 0 && k.lastused == old(k.lastused))
    ensures k != null && window >= 0 && TotpReady(k) && !k.dummy ==>
      (FirstAccepted(hmac, k.key[..k.keylen], k.digits, StepAt(now, k.timestep), old(k.lastused), response, -window, window).Some? ==>
        r == 1 && k.lastused == StepAt(now, k.timestep))
  {
    if k == null || window < 0 || k.mode != Totp || k.timestep == 0 {
      return -1;
    }
    var s := now / k.timestep;
    StepAtIsQuotient(now, k.timestep);
    var found := ScanSteps(hmac, k.key[..k.keylen], k.digits, s, k.lastused, response, window, k.dummy);
    if found {
      k.lastused := s;
      return 1;
    }
    return 0;
  }

  /** `for (i = -window; i <= window; ++i)`: the steps around `s` in increasing order. */
  method ScanSteps(hmac: Hmac, key: seq<byte>, digits: nat, s: uint64, lastused: uint64, response: nat, window: int, dummy: bool)
    returns (found: bool)
    requires Modulus(digits) != 0 && 0 <= window
    ensures found <==> !dummy && FirstAccepted(hmac, key, digits, s, lastused, response, -window, window).Some?
  {
    ghost var m := FirstAccepted(hmac, key, digits, s, lastused, response, -window, window);
    var i := -window;
    while i <= window
      invariant -window <= i <= window + 1
      invariant !dummy ==> m == FirstAccepted(hmac, key, digits, s, lastused, response, i, window)
      decreases window - i + 1
    {
      var st := (s + i) % TWO64;
      assert st == Step(s, i);
      if st > lastused {
        var code := StepCode(hmac, key, digits, s, i);
        if code == response && !dummy {
          assert Accepts(hmac, key, digits, s, lastused, response, i);
          return true;
        }
      }
      i := i + 1;
    }
    assert !dummy ==> m == None;
    return false;
  }

  /** oath_hotp at step `Step(s, i)`. */
  method StepCode(hmac: Hmac, key: seq<byte>, digits: nat, s: uint64, i: int) returns (code: nat)
    requires Modulus(digits) != 0
    ensures code == HotpCode(hmac, key, Step(s, i), digits)
  {
    code := ComputeHotp(hmac, key, (s + i) % TWO64, digits);
  }

  /**
   * RFC 6238 section 5.2: once a match has set lastused to the current
   * step, no later call accepts a step at or before it.
   */
  lemma UsedStepsRejected(hmac: Hmac, key: seq<byte>, digits: nat, s: uint64, s': uint64, response: nat, window: int, j: int)
    requires Modulus(digits) != 0
    requires FirstAccepted(hmac, key, digits, s', s, response, -window, window) == Some(j)
    ensures Step(s', j) > s
  {
    FirstAcceptedIsFirst(hmac, key, digits, s', s, response, -window, window);
  }

  /**
   * Setting lastused to the current step rather than the matched one
   * leaves a step matched ahead of the clock open: at the same time, the
   * same response is accepted again.
   */
  lemma MatchAheadReplays(hmac: Hmac, key: seq<byte>, digits: nat, s: uint64, lastused: uint64, response: nat, window: int, i: int)
    requires Modulus(digits) != 0
    requires FirstAccepted(hmac, key, digits, s, lastused, response, -window, window) == Some(i)
    requires 0 < i && s + i < TWO64
    ensures FirstAccepted(hmac, key, digits, s, s, response, -window, window).Some?
  {
    FirstAcceptedIsFirst(hmac, key, digits, s, lastused, response, -window, window);
    assert Accepts(hmac, key, digits, s, s, response, i);
    FirstAcceptedFinds(hmac, key, digits, s, s, response, -window, window, i);
  }

  /** The lastused value that consumes the step actually matched. */
  function MatchedStep(s: uint64, i: int): uint64
  {
    Step(s, i)
  }

  /**
   * With lastused set to the matched step, that step is never accepted
   * again, whatever the time and window of the next call.
   */
  lemma MatchedStepConsumed(hmac: Hmac, key: seq<byte>, digits: nat, s: uint64, lastused: uint64, response: nat, window: int, i: int,
                            s': uint64, window': int, j: int)
    requires Modulus(digits) != 0
    requires FirstAccepted(hmac, key, digits, s, lastused, response, -window, window) == Some(i)
    requires FirstAccepted(hmac, key, digits, s', MatchedStep(s, i), response, -window', window') == Some(j)
    ensures Step(s', j) > Step(s, i) > lastused
  {
    FirstAcceptedIsFirst(hmac, key, digits, s, lastused, response, -window, window);
    FirstAcceptedIsFirst(hmac, key, digits, s', MatchedStep(s, i), response, -window', window');
  }
}
