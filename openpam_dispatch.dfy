// openpam_dispatch: run the chain a primitive selects and fold the
// modules' results by their control flags. A module's function is given
// by the result it returns for each primitive (None where the module
// lacks the function); the logging and the error-code check have no
// observable result and are left out.

module OpenpamDispatch {
  import opened CTypes
  import opened PamConstants

  /** A module of a chain: its control flag and, per primitive, the result of its function. */
  datatype Module = Module(flag: int, primitive: seq<Option<int>>)

  /** Every module has an entry for each of the six primitives. */
  predicate Complete(chain: seq<Module>)
  {
    forall i | 0 <= i < |chain| :: |chain[i].primitive| == PAM_NUM_PRIMITIVES
  }

  /** The chain a primitive runs: auth for authenticate and setcred, and so on; None for an unknown primitive. */
  function ChainOf(primitive: int): (c: Option<nat>)
    ensures c.Some? <==> 0 <= primitive < PAM_NUM_PRIMITIVES
    ensures c.Some? ==> c.value < PAM_NUM_CHAINS
  {
    if primitive == PAM_AUTHENTICATE || primitive == PAM_SETCRED then Some(PAM_AUTH)
    else if primitive == PAM_ACCT_MGMT then Some(PAM_ACCOUNT)
    else if primitive == PAM_OPEN_SESSION || primitive == PAM_CLOSE_SESSION then Some(PAM_SESSION)
    else if primitive == PAM_CHAUTHTOK then Some(PAM_PASSWORD)
    else None
  }

  /** What the chain returns once the loop ends: the recorded error if `fail` is set, else success. */
  function Outcome(err: int, fail: bool): int
  {
    if fail then err else PAM_SUCCESS
  }

  /**
   * The loop as written, from the accumulators `err` and `fail`. A
   * success is not skipped: it goes on to the recording step, so a
   * required module that succeeds sets `fail`, and a requisite module
   * that succeeds ends the chain.
   */
  function Fold(chain: seq<Module>, primitive: int, err: int, fail: bool): int
    requires 0 <= primitive < PAM_NUM_PRIMITIVES && Complete(chain)
    decreases |chain|
  {
    if chain == [] then Outcome(err, fail)
    else
      var m := chain[0];
      match m.primitive[primitive]
      case None => PAM_SYMBOL_ERR
      case Some(r) =>
        if r == PAM_IGNORE then Fold(chain[1..], primitive, err, fail)
        else if r == PAM_SUCCESS && m.flag == PAM_SUFFICIENT && primitive != PAM_SETCRED then Outcome(err, fail)
        else
          var err1 := if err == 0 then r else err;
          var err2 := if m.flag == PAM_REQUIRED && !fail then r else err1;
          var fail2 := fail || m.flag == PAM_REQUIRED;
          if m.flag == PAM_REQUISITE then err2
          else Fold(chain[1..], primitive, err2, fail2)
  }

  /** openpam_dispatch's result: PAM_SYSTEM_ERR without a handle or for an unknown primitive. */
  function Dispatch(chains: Option<seq<seq<Module>>>, primitive: int): int
    requires chains.Some? ==> |chains.value| == PAM_NUM_CHAINS && forall c | 0 <= c < PAM_NUM_CHAINS :: Complete(chains.value[c])
  {
    if chains.None? then PAM_SYSTEM_ERR
    else match ChainOf(primitive)
      case None => PAM_SYSTEM_ERR
      case Some(c) => Fold(chains.value[c], primitive, 0, false)
  }

  /**
   * openpam_dispatch(pamh, primitive, flags). `chains` is None for a NULL
   * handle; each chain is the list of its modules in order.
   */
  method OpenpamDispatch(chains: Option<seq<seq<Module>>>, primitive: int, flags: int) returns (r: int)
    requires chains.Some? ==> |chains.value| == PAM_NUM_CHAINS && forall c | 0 <= c < PAM_NUM_CHAINS :: Complete(chains.value[c])
    ensures r == Dispatch(chains, primitive)
  {
    if chains.None? {
      return PAM_SYSTEM_ERR;
    }
    var c := ChainOf(primitive);
    if c.None? {
      return PAM_SYSTEM_ERR;
    }
    var chain := chains.value[c.value];
    var err, fail := 0, false;
    var i := 0;
    while i < |chain|
      invariant i <= |chain|
      invariant Fold(chain, primitive, 0, false) == Fold(chain[i..], primitive, err, fail)
    {
      assert chain[i..][1..] == chain[i + 1..];
      var m := chain[i];
      if m.primitive[primitive].None? {
        return PAM_SYMBOL_ERR;
      }
      var res := m.primitive[primitive].value;
      if res == PAM_IGNORE {
        i := i + 1;
        continue;
      }
      if res == PAM_SUCCESS {
        if m.flag == PAM_SUFFICIENT && primitive != PAM_SETCRED {
          break;
        }
      }
      if err == 0 {
        err := res;
      }
      if m.flag == PAM_REQUIRED && !fail {
        fail := true;
        err := res;
      }
      if m.flag == PAM_REQUISITE {
        fail := true;
        break;
      }
      i := i + 1;
    }
    if fail {
      return err;
    }
    return PAM_SUCCESS;
  }

  // ---------------------------------------------------------------------
  // Properties of the fold as written

  /** An empty chain succeeds. */
  lemma EmptyChainSucceeds(primitive: int)
    requires 0 <= primitive < PAM_NUM_PRIMITIVES
    ensures Fold([], primitive, 0, false) == PAM_SUCCESS
  {
  }

  /** A module that returns PAM_IGNORE changes nothing: removing it from the chain gives the same result. */
  lemma {:induction false} IgnoreIsNeutral(a: seq<Module>, m: Module, b: seq<Module>, primitive: int, err: int, fail: bool)
    requires 0 <= primitive < PAM_NUM_PRIMITIVES && Complete(a) && Complete(b)
    requires |m.primitive| == PAM_NUM_PRIMITIVES && m.primitive[primitive] == Some(PAM_IGNORE)
    ensures Complete(a + [m] + b)
    ensures Fold(a + [m] + b, primitive, err, fail) == Fold(a + b, primitive, err, fail)
    decreases |a|
  {
    var s := a + [m] + b;
    if a == [] {
      assert s[0] == m && s[1..] == b && a + b == b;
    } else {
      assert s[1..] == a[1..] + [m] + b;
      assert (a + b)[1..] == a[1..] + b;
      assert s[0] == (a + b)[0] == a[0];
      match a[0].primitive[primitive]
      case None =>
      case Some(r) =>
        var err1 := if err == 0 then r else err;
        var err2 := if a[0].flag == PAM_REQUIRED && !fail then r else err1;
        IgnoreIsNeutral(a[1..], m, b, primitive, err, fail);
        IgnoreIsNeutral(a[1..], m, b, primitive, err2, fail || a[0].flag == PAM_REQUIRED);
    }
  }

  /**
   * The result is success, PAM_SYMBOL_ERR, or the result of one of the
   * chain's modules (or the error already recorded).
   */
  lemma {:induction false} ResultIsReported(chain: seq<Module>, primitive: int, err: int, fail: bool)
    requires 0 <= primitive < PAM_NUM_PRIMITIVES && Complete(chain)
    ensures var r := Fold(chain, primitive, err, fail);
      r == PAM_SUCCESS || r == PAM_SYMBOL_ERR || r == err ||
      exists i | 0 <= i < |chain| :: chain[i].primitive[primitive] == Some(r)
    decreases |chain|
  {
    if chain != [] {
      match chain[0].primitive[primitive]
      case None =>
      case Some(r) =>
        var err1 := if err == 0 then r else err;
        var err2 := if chain[0].flag == PAM_REQUIRED && !fail then r else err1;
        ResultIsReported(chain[1..], primitive, err, fail);
        ResultIsReported(chain[1..], primitive, err2, fail || chain[0].flag == PAM_REQUIRED);
        forall i | 0 <= i < |chain| - 1
          ensures chain[1..][i] == chain[i + 1]
        {
        }
    }
  }

  /** A requisite module that fails ends the chain with a failure, whatever follows it. */
  lemma RequisiteFailureFails(m: Module, rest: seq<Module>, primitive: int, err: int, fail: bool)
    requires 0 <= primitive < PAM_NUM_PRIMITIVES && |m.primitive| == PAM_NUM_PRIMITIVES && Complete(rest)
    requires m.flag == PAM_REQUISITE && m.primitive[primitive].Some?
    requires m.primitive[primitive].value != PAM_SUCCESS && m.primitive[primitive].value != PAM_IGNORE
    ensures Complete([m] + rest)
    ensures Fold([m] + rest, primitive, err, fail) != PAM_SUCCESS
  {
    assert ([m] + rest)[0] == m;
  }

  /**
   * Once `fail` is set with an error recorded, the error sticks: every
   * later exit (sufficient, requisite, end of chain) returns it, unless a
   * module lacks the function.
   */
  lemma {:induction false} RecordedFailureSticks(chain: seq<Module>, primitive: int, err: int)
    requires 0 <= primitive < PAM_NUM_PRIMITIVES && Complete(chain)
    requires err != PAM_SUCCESS
    ensures var r := Fold(chain, primitive, err, true); r == err || r == PAM_SYMBOL_ERR
    decreases |chain|
  {
    if chain != [] {
      assert forall i | 0 <= i < |chain| - 1 :: chain[1..][i] == chain[i + 1];
      RecordedFailureSticks(chain[1..], primitive, err);
    }
  }

  /** A required module that fails makes the chain fail, whatever follows it. */
  lemma RequiredFailureFails(m: Module, rest: seq<Module>, primitive: int, err: int, fail: bool)
    requires 0 <= primitive < PAM_NUM_PRIMITIVES && |m.primitive| == PAM_NUM_PRIMITIVES && Complete(rest)
    requires m.flag == PAM_REQUIRED && m.primitive[primitive].Some?
    requires m.primitive[primitive].value != PAM_SUCCESS && m.primitive[primitive].value != PAM_IGNORE
    ensures Complete([m] + rest)
    ensures Fold([m] + rest, primitive, err, fail) != PAM_SUCCESS
  {
    var chain := [m] + rest;
    assert chain[0] == m && chain[1..] == rest;
    var r := m.primitive[primitive].value;
    var err1 := if err == 0 then r else err;
    var err2 := if !fail then r else err1;
    RecordedFailureSticks(rest, primitive, err2);
  }

  /**
   * As written, a requisite module that SUCCEEDS also ends the chain:
   * with "requisite, then required", the required module is never run
   * and its failure does not count.
   */
  lemma RequisiteSuccessSkipsRest(primitive: int)
    requires 0 <= primitive < PAM_NUM_PRIMITIVES
    ensures var ok := seq(PAM_NUM_PRIMITIVES, _ => Some(PAM_SUCCESS));
      var bad := seq(PAM_NUM_PRIMITIVES, _ => Some(PAM_AUTH_ERR));
      Fold([Module(PAM_REQUISITE, ok), Module(PAM_REQUIRED, bad)], primitive, 0, false) == PAM_SUCCESS
  {
  }

  /**
   * As written, a required module that succeeds sets `fail`: a later
   * optional module's failure then becomes the chain's result.
   */
  lemma RequiredSuccessLetsOptionalFail(primitive: int)
    requires 0 <= primitive < PAM_NUM_PRIMITIVES
    ensures var ok := seq(PAM_NUM_PRIMITIVES, _ => Some(PAM_SUCCESS));
      var bad := seq(PAM_NUM_PRIMITIVES, _ => Some(PAM_AUTH_ERR));
      Fold([Module(PAM_REQUIRED, ok), Module(PAM_OPTIONAL, bad)], primitive, 0, false) == PAM_AUTH_ERR
  {
    var ok := seq(PAM_NUM_PRIMITIVES, _ => Some(PAM_SUCCESS));
    var bad := seq(PAM_NUM_PRIMITIVES, _ => Some(PAM_AUTH_ERR));
    var chain := [Module(PAM_REQUIRED, ok), Module(PAM_OPTIONAL, bad)];
    assert ok[primitive] == Some(PAM_SUCCESS) && bad[primitive] == Some(PAM_AUTH_ERR);
    assert chain[1..] == [Module(PAM_OPTIONAL, bad)];
    assert chain[1..][1..] == [];
    assert Fold(chain[1..], primitive, PAM_SUCCESS, true) == Fold([], primitive, PAM_AUTH_ERR, true);
  }

  // ---------------------------------------------------------------------
  // The fold as evidently intended

  /**
   * The loop with a success skipped after the sufficient test (the
   * `continue` the recording step's comment assumes: it records modules
   * that FAIL).
   */
  function FoldIntended(chain: seq<Module>, primitive: int, err: int, fail: bool): int
    requires 0 <= primitive < PAM_NUM_PRIMITIVES && Complete(chain)
    decreases |chain|
  {
    if chain == [] then Outcome(err, fail)
    else
      var m := chain[0];
      match m.primitive[primitive]
      case None => PAM_SYMBOL_ERR
      case Some(r) =>
        if r == PAM_IGNORE then FoldIntended(chain[1..], primitive, err, fail)
        else if r == PAM_SUCCESS then
          if m.flag == PAM_SUFFICIENT && primitive != PAM_SETCRED then Outcome(err, fail)
          else FoldIntended(chain[1..], primitive, err, fail)
        else
          var err1 := if err == 0 then r else err;
          var err2 := if m.flag == PAM_REQUIRED && !fail then r else err1;
          var fail2 := fail || m.flag == PAM_REQUIRED;
          if m.flag == PAM_REQUISITE then err2
          else FoldIntended(chain[1..], primitive, err2, fail2)
  }

  /** A module whose failure must fail the chain: a required or requisite one. */
  predicate Mandatory(m: Module)
  {
    m.flag == PAM_REQUIRED || m.flag == PAM_REQUISITE
  }

  /** The module ran its function and it did not fail. */
  predicate Passed(m: Module, primitive: int)
    requires 0 <= primitive < |m.primitive|
  {
    m.primitive[primitive] == Some(PAM_SUCCESS) || m.primitive[primitive] == Some(PAM_IGNORE)
  }

  /**
   * The rule of the control flags, for chains without sufficient modules
   * whose modules all have the function: the chain succeeds exactly when
   * every required and requisite module succeeds (or is ignored).
   */
  lemma {:induction false} IntendedMandatoryRule(chain: seq<Module>, primitive: int, err: int, fail: bool)
    requires 0 <= primitive < PAM_NUM_PRIMITIVES && Complete(chain)
    requires forall i | 0 <= i < |chain| :: chain[i].flag != PAM_SUFFICIENT && chain[i].primitive[primitive].Some?
    requires fail ==> err != PAM_SUCCESS
    ensures FoldIntended(chain, primitive, err, fail) == PAM_SUCCESS <==>
      !fail && forall i | 0 <= i < |chain| :: Mandatory(chain[i]) ==> Passed(chain[i], primitive)
    decreases |chain|
  {
    if chain != [] {
      var m := chain[0];
      var r := m.primitive[primitive].value;
      assert forall i | 0 <= i < |chain| - 1 :: chain[1..][i] == chain[i + 1];
      if r == PAM_IGNORE || r == PAM_SUCCESS {
        IntendedMandatoryRule(chain[1..], primitive, err, fail);
      } else if m.flag != PAM_REQUISITE {
        var err1 := if err == 0 then r else err;
        var err2 := if m.flag == PAM_REQUIRED && !fail then r else err1;
        IntendedMandatoryRule(chain[1..], primitive, err2, fail || m.flag == PAM_REQUIRED);
      }
    }
  }

  /** The corrected fold runs the required module after a successful requisite one, and fails with it. */
  lemma IntendedRunsRest(primitive: int)
    requires 0 <= primitive < PAM_NUM_PRIMITIVES
    ensures var ok := seq(PAM_NUM_PRIMITIVES, _ => Some(PAM_SUCCESS));
      var bad := seq(PAM_NUM_PRIMITIVES, _ => Some(PAM_AUTH_ERR));
      FoldIntended([Module(PAM_REQUISITE, ok), Module(PAM_REQUIRED, bad)], primitive, 0, false) == PAM_AUTH_ERR &&
      FoldIntended([Module(PAM_REQUIRED, ok), Module(PAM_OPTIONAL, bad)], primitive, 0, false) == PAM_SUCCESS
  {
    var ok := seq(PAM_NUM_PRIMITIVES, _ => Some(PAM_SUCCESS));
    var bad := seq(PAM_NUM_PRIMITIVES, _ => Some(PAM_AUTH_ERR));
    assert ok[primitive] == Some(PAM_SUCCESS) && bad[primitive] == Some(PAM_AUTH_ERR);
    var c1 := [Module(PAM_REQUISITE, ok), Module(PAM_REQUIRED, bad)];
    assert c1[1..] == [Module(PAM_REQUIRED, bad)];
    assert c1[1..][1..] == [];
    assert FoldIntended(c1[1..], primitive, 0, false) == FoldIntended([], primitive, PAM_AUTH_ERR, true);
    var c2 := [Module(PAM_REQUIRED, ok), Module(PAM_OPTIONAL, bad)];
    assert c2[1..] == [Module(PAM_OPTIONAL, bad)];
    assert c2[1..][1..] == [];
    assert FoldIntended(c2[1..], primitive, 0, false) == FoldIntended([], primitive, PAM_AUTH_ERR, false);
  }
}
