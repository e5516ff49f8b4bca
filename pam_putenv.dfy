// pam_putenv: set a variable in a handle's environment list, replacing
// the entry with the same name or appending a new one and growing the
// list when it is full. strdup and realloc failures are the parameters
// `strdupOk` and `reallocOk`; strings are the characters of C strings.
// openpam_findenv is declared next to the handle but not defined with
// it: FindEnv states the search it is used for.

module PamPutenv {
  import opened CTypes
  import opened PamConstants

  /** The index of the first '=' of a name=value string, or None. */
  function Equals(nv: string): (p: Option<nat>)
    ensures p.Some? <==> '=' in nv
    ensures p.Some? ==> p.value < |nv| && nv[p.value] == '=' && '=' !in nv[..p.value]
  {
    if nv == [] then None
    else if nv[0] == '=' then Some(0)
    else match Equals(nv[1..])
      case None => None
      case Some(p) => assert nv[..p + 1] == [nv[0]] + nv[1..][..p]; Some(p + 1)
  }

  /** The entry `e` sets the variable `name`: it starts with the name and then '='. */
  predicate Sets(e: string, name: string)
  {
    |name| < |e| && e[..|name|] == name && e[|name|] == '='
  }

  /** The index of the first entry that sets `name`, or -1 (openpam_findenv). */
  function FindEnv(env: seq<string>, name: string): (i: int)
    ensures -1 <= i < |env|
    ensures i >= 0 ==> Sets(env[i], name)
    ensures forall k | 0 <= k < |env| && (i == -1 || k < i) :: !Sets(env[k], name)
  {
    if env == [] then -1
    else if Sets(env[0], name) then 0
    else var i := FindEnv(env[1..], name); if i == -1 then -1 else i + 1
  }

  /** The name of a name=value string: what precedes its first '='. */
  function Name(nv: string): string
    requires '=' in nv
  {
    nv[..Equals(nv).value]
  }

  /** The value a variable has in the list: the entry that sets it, or None. */
  function Getenv(env: seq<string>, name: string): Option<string>
  {
    var i := FindEnv(env, name);
    if i >= 0 then Some(env[i]) else None
  }

  /** The list after a successful call: the entry replaced in place, or appended. */
  function PutSpec(env: seq<string>, nv: string): seq<string>
    requires '=' in nv
  {
    var i := FindEnv(env, Name(nv));
    if i >= 0 then env[i := nv] else env + [nv]
  }

  /** After putting a variable, looking it up gives the string put. */
  lemma PutThenGet(env: seq<string>, nv: string)
    requires '=' in nv
    ensures Getenv(PutSpec(env, nv), Name(nv)) == Some(nv)
  {
    var name := Name(nv);
    var i := FindEnv(env, name);
    var s := PutSpec(env, nv);
    var at := if i >= 0 then i else |env|;
    assert s[at] == nv && Sets(nv, name);
    assert forall k | 0 <= k < at :: s[k] == env[k];
    FindEnvIs(s, name, at);
  }

  /** Putting a variable leaves every variable of another name as it was. */
  lemma PutKeepsOthers(env: seq<string>, nv: string, other: string)
    requires '=' in nv && '=' !in other && other != Name(nv)
    ensures Getenv(PutSpec(env, nv), other) == Getenv(env, other)
  {
    var name := Name(nv);
    var i := FindEnv(env, name);
    var s := PutSpec(env, nv);
    var at := if i >= 0 then i else |env|;
    OneNamePerEntry(nv, name, other);
    if at < |env| {
      OneNamePerEntry(env[at], name, other);
    }
    assert forall k | 0 <= k < |env| && k != at :: s[k] == env[k];
    var j := FindEnv(env, other);
    FindEnvIs(s, other, if j >= 0 then j else |s|);
  }

  /** An entry sets at most one variable whose name has no '='. */
  lemma OneNamePerEntry(e: string, a: string, b: string)
    requires '=' !in a && '=' !in b && a != b && Sets(e, a)
    ensures !Sets(e, b)
  {
  }

  lemma FindEnvIs(env: seq<string>, name: string, i: nat)
    requires i <= |env| && (i < |env| ==> Sets(env[i], name))
    requires forall k | 0 <= k < i :: !Sets(env[k], name)
    ensures FindEnv(env, name) == if i < |env| then i else -1
  {
  }

  /**
   * The capacity pam_putenv grows a full list to, in entries, as it is
   * evidently meant: twice the size plus one.
   */
  function GrownSize(size: nat): (n: nat)
    ensures n > size
  {
    2 * size + 1
  }

  /** The size of a pointer, in bytes, on the LP64 targets OpenPAM runs on. */
  const PTR_SIZE: nat := 8

  /**
   * The number of entries the grown list holds as written: realloc is
   * given 2 * size + 1 BYTES, room for that many bytes' worth of pointers.
   */
  function GrownSlotsAsWritten(size: nat): nat
  {
    (2 * size + 1) / PTR_SIZE
  }

  /**
   * As written, the grown list is never larger than the full one, so the
   * append at index env_size writes past its end.
   */
  lemma GrowthAsWrittenOverflows(size: nat)
    ensures GrownSlotsAsWritten(size) <= size
    ensures GrownSlotsAsWritten(size) < GrownSize(size)
  {
  }

  /** A handle's environment list. */
  class PamEnv {
    var env: array<string>
    var env_count: nat
    var env_size: nat

    /** The array holds `env_size` slots, of which the first `env_count` are in use. */
    predicate Valid()
      reads this
    {
      env.Length == env_size && env_count <= env_size
    }

    /** The variables set, in order. */
    function Entries(): seq<string>
      reads this, env
      requires Valid()
    {
      env[..env_count]
    }

    /** An empty list. */
    constructor ()
      ensures Valid() && Entries() == [] && env_size == 0
    {
      env := new string[0];
      env_count := 0;
      env_size := 0;
    }

    /** Whether a call putting `nv` grows the list: a new name and a full list. */
    predicate Grows(nv: string)
      reads this, env
      requires Valid() && '=' in nv
    {
      FindEnv(Entries(), Name(nv)) == -1 && env_count == env_size
    }

    /**
     * pam_putenv on this handle. PAM_SYSTEM_ERR for a NULL string or one
     * without '='; PAM_BUF_ERR, with the variables unchanged, when a copy
     * or the grown list cannot be allocated; otherwise PAM_SUCCESS with
     * the entry replaced or appended. A full list is first grown to
     * 2 * env_size + 1 entries.
     */
    method Put(namevalue: Option<string>, strdupOk: bool, reallocOk: bool) returns (r: int)
      requires Valid()
      modifies this, env
      ensures Valid()
      ensures r == PAM_SYSTEM_ERR <==> namevalue.None? || '=' !in namevalue.value
      ensures r == PAM_SYSTEM_ERR ==> env_size == old(env_size)
      ensures r != PAM_SYSTEM_ERR ==>
        var nv := namevalue.value;
        && '=' in nv
        && (r == PAM_BUF_ERR <==> !strdupOk || (old(Grows(nv)) && !reallocOk))
        && (r == PAM_SUCCESS ==> Entries() == PutSpec(old(Entries()), nv))
        && env_size == if old(Grows(nv)) && reallocOk then GrownSize(old(env_size)) else old(env_size)
      ensures r != PAM_SUCCESS ==> Entries() == old(Entries())
      ensures r == PAM_SUCCESS || r == PAM_SYSTEM_ERR || r == PAM_BUF_ERR
    {
      if namevalue.None? || Equals(namevalue.value).None? {
        return PAM_SYSTEM_ERR;
      }
      var nv := namevalue.value;
      var p := Equals(nv).value;
      var i := FindEnv(env[..env_count], nv[..p]);
      if i != -1 {
        if !strdupOk {
          return PAM_BUF_ERR;
        }
        env[i] := nv;
        assert env[..env_count] == old(env[..env_count])[i := nv];
        return PAM_SUCCESS;
      }
      if env_count == env_size {
        if !reallocOk {
          return PAM_BUF_ERR;
        }
        var used := env[..env_count];
        var grown := new string[GrownSize(env_size)](k => if 0 <= k < |used| then used[k] else "");
        env := grown;
        env_size := GrownSize(env_size);
        assert env[..env_count] == used;
      }
      if !strdupOk {
        return PAM_BUF_ERR;
      }
      ghost var before := env[..env_count];
      env[env_count] := nv;
      env_count := env_count + 1;
      assert env[..env_count] == before + [nv];
      return PAM_SUCCESS;
    }
  }

  /** pam_putenv(pamh, namevalue): PAM_SYSTEM_ERR for a NULL handle (`pamh` null). */
  method PutenvHandle(pamh: PamEnv?, namevalue: Option<string>, strdupOk: bool, reallocOk: bool) returns (r: int)
    requires pamh != null ==> pamh.Valid()
    modifies if pamh == null then {} else {pamh, pamh.env}
    ensures pamh == null ==> r == PAM_SYSTEM_ERR
    ensures pamh != null ==> pamh.Valid()
    ensures pamh != null ==> r == PAM_SUCCESS || r == PAM_SYSTEM_ERR || r == PAM_BUF_ERR
    ensures pamh != null ==> (r == PAM_SYSTEM_ERR <==> namevalue.None? || '=' !in namevalue.value)
    ensures pamh != null && r == PAM_SYSTEM_ERR ==> pamh.env_size == old(pamh.env_size)
    ensures pamh != null && r != PAM_SYSTEM_ERR ==>
      var nv := namevalue.value;
      && '=' in nv
      && (r == PAM_BUF_ERR <==> !strdupOk || (old(pamh.Grows(nv)) && !reallocOk))
      && pamh.env_size == if old(pamh.Grows(nv)) && reallocOk then GrownSize(old(pamh.env_size)) else old(pamh.env_size)
    ensures pamh != null && r == PAM_SUCCESS ==>
      namevalue.Some? && '=' in namevalue.value && pamh.Entries() == PutSpec(old(pamh.Entries()), namevalue.value)
    ensures pamh != null && r != PAM_SUCCESS ==> pamh.Entries() == old(pamh.Entries())
  {
    if pamh == null {
      return PAM_SYSTEM_ERR;
    }
    r := pamh.Put(namevalue, strdupOk, reallocOk);
  }
}
