// openpam_set_option: set, replace or remove an option of the module a
// handle is currently running. The options live in the chain entry as a
// count `optc` and a NULL-terminated array `optv`. A failing malloc or
// realloc is the parameter `mallocOk` or `reallocOk`; strings are the
// characters of the C strings, so strcmp is equality.

module OpenpamSetOption {
  import opened CTypes
  import opened PamConstants

  /** One option: a name and a value, allocated together. */
  datatype Opt = Opt(name: string, value: string)

  /** The values of a sequence of slots that are all set. */
  function Values(slots: seq<Option<Opt>>): (r: seq<Opt>)
    requires forall k | 0 <= k < |slots| :: slots[k].Some?
    ensures |r| == |slots| && forall k | 0 <= k < |r| :: slots[k] == Some(r[k])
  {
    if slots == [] then [] else [slots[0].value] + Values(slots[1..])
  }

  /** Removing a slot removes its option. */
  lemma ValuesRemove(slots: seq<Option<Opt>>, i: nat)
    requires forall k | 0 <= k < |slots| :: slots[k].Some?
    requires i < |slots|
    ensures Values(slots[..i] + slots[i + 1..]) == Values(slots)[..i] + Values(slots)[i + 1..]
  {
    var a, b := Values(slots[..i] + slots[i + 1..]), Values(slots)[..i] + Values(slots)[i + 1..];
    assert |a| == |b|;
    forall k | 0 <= k < |a|
      ensures a[k] == b[k]
    {
      if k < i {
        assert (slots[..i] + slots[i + 1..])[k] == slots[k];
      } else {
        assert (slots[..i] + slots[i + 1..])[k] == slots[k + 1];
      }
    }
  }

  /** Where the option search stops: the first option with that name, or the count. */
  function Find(opts: seq<Opt>, name: string): (i: nat)
    ensures i <= |opts|
    ensures i < |opts| ==> opts[i].name == name
    ensures forall k | 0 <= k < i :: opts[k].name != name
  {
    if opts == [] then 0
    else if opts[0].name == name then 0
    else 1 + Find(opts[1..], name)
  }

  /** The value an option has: that of the first option with its name. */
  function Lookup(opts: seq<Opt>, name: string): Option<string>
  {
    var i := Find(opts, name);
    if i < |opts| then Some(opts[i].value) else None
  }

  /** No two options share a name. */
  predicate Distinct(opts: seq<Opt>)
  {
    forall j, k | 0 <= j < k < |opts| :: opts[j].name != opts[k].name
  }

  /**
   * The options after a successful call: a NULL value removes the option
   * (if present), a value replaces the option in place or appends it.
   */
  function SetSpec(opts: seq<Opt>, name: string, value: Option<string>): seq<Opt>
  {
    var i := Find(opts, name);
    if value.None? then
      if i == |opts| then opts else opts[..i] + opts[i + 1..]
    else if i == |opts| then opts + [Opt(name, value.value)]
    else opts[i := Opt(name, value.value)]
  }

  /** After setting an option, it has the value set. */
  lemma SetThenLookup(opts: seq<Opt>, name: string, value: string)
    ensures Lookup(SetSpec(opts, name, Some(value)), name) == Some(value)
  {
    var i := Find(opts, name);
    var s := SetSpec(opts, name, Some(value));
    assert s[i] == Opt(name, value);
    assert forall k | 0 <= k < i :: s[k] == opts[k];
    FindIs(s, name, i);
  }

  /** After removing an option from distinct options, it has no value. */
  lemma RemoveThenLookup(opts: seq<Opt>, name: string)
    requires Distinct(opts)
    ensures Lookup(SetSpec(opts, name, None), name).None?
  {
    var i := Find(opts, name);
    var s := SetSpec(opts, name, None);
    if i < |opts| {
      assert forall k | 0 <= k < |s| :: s[k] == if k < i then opts[k] else opts[k + 1];
      FindIs(s, name, |s|);
    }
  }

  /** Setting or removing one option leaves the value of every other option as it was. */
  lemma SetKeepsOthers(opts: seq<Opt>, name: string, value: Option<string>, other: string)
    requires other != name
    ensures Lookup(SetSpec(opts, name, value), other) == Lookup(opts, other)
  {
    var i := Find(opts, name);
    if value.None? && i < |opts| {
      RemoveKeepsOthers(opts, i, other);
    } else if value.Some? {
      PutKeepsOthers(opts, i, Opt(name, value.value), other);
    }
  }

  lemma RemoveKeepsOthers(opts: seq<Opt>, i: nat, other: string)
    requires i < |opts| && opts[i].name != other
    ensures Lookup(opts[..i] + opts[i + 1..], other) == Lookup(opts, other)
  {
    var s := opts[..i] + opts[i + 1..];
    var j := Find(opts, other);
    assert forall k | 0 <= k < |s| :: s[k] == if k < i then opts[k] else opts[k + 1];
    FindIs(s, other, if j < i then j else j - 1);
  }

  /** Writing an option named other than `other` at `i`, or appending it, does not change `other`'s value. */
  lemma PutKeepsOthers(opts: seq<Opt>, i: nat, opt: Opt, other: string)
    requires i <= |opts| && opt.name != other && (i < |opts| ==> opts[i].name != other)
    ensures var s := if i == |opts| then opts + [opt] else opts[i := opt];
      Lookup(s, other) == Lookup(opts, other)
  {
    var s := if i == |opts| then opts + [opt] else opts[i := opt];
    var j := Find(opts, other);
    assert forall k | 0 <= k < |opts| && k != i :: s[k] == opts[k];
    if j < |opts| {
      FindIs(s, other, j);
    } else {
      FindIs(s, other, |s|);
    }
  }

  /** Setting or removing keeps the option names distinct. */
  lemma SetKeepsDistinct(opts: seq<Opt>, name: string, value: Option<string>)
    requires Distinct(opts)
    ensures Distinct(SetSpec(opts, name, value))
  {
    var i := Find(opts, name);
    var s := SetSpec(opts, name, value);
    if value.None? && i < |opts| {
      assert forall k | 0 <= k < |s| :: s[k] == if k < i then opts[k] else opts[k + 1];
    }
  }

  /** Find stops at `i` when the name is at `i` (or `i` is the end) and nowhere before. */
  lemma FindIs(opts: seq<Opt>, name: string, i: nat)
    requires i <= |opts| && (i < |opts| ==> opts[i].name == name)
    requires forall k | 0 <= k < i :: opts[k].name != name
    ensures Find(opts, name) == i
  {
    var f := Find(opts, name);
    assert !(f < i) && !(i < f);
  }

  /** The options of a chain entry (pam_chain_t): a count and a NULL-terminated array. */
  class PamChain {
    var optc: nat
    var optv: array<Option<Opt>>

    /** The array holds `optc` options and then NULL. */
    predicate Valid()
      reads this, optv
    {
      optc < optv.Length && optv[optc].None? && forall k | 0 <= k < optc :: optv[k].Some?
    }

    /** The options, in order. */
    function Options(): seq<Opt>
      reads this, optv
      requires Valid()
    {
      Values(optv[..optc])
    }

    /** An entry without options. */
    constructor ()
      ensures Valid() && Options() == []
    {
      optc := 0;
      optv := new Option<Opt>[1](_ => None);
    }

    /**
     * The search loop: the index of the first option named `name`, or
     * `optc` when there is none.
     */
    method FindOption(name: string) returns (i: nat)
      requires Valid()
      ensures i == Find(Options(), name)
    {
      i := 0;
      while i < optc && optv[i].value.name != name
        invariant i <= optc
        invariant forall k | 0 <= k < i :: Options()[k].name != name
      {
        i := i + 1;
      }
      FindIs(Options(), name, i);
    }

    /** The removal loop: slide the options after `i` down by one and NULL-terminate. */
    method RemoveAt(i: nat)
      requires Valid() && i < optc
      modifies this, optv
      ensures Valid() && optv == old(optv)
      ensures Options() == old(Options()[..i] + Options()[i + 1..])
    {
      ghost var before := optv[..];
      var j := i;
      while j < optc
        invariant optv == old(optv) && optc == old(optc)
        invariant i <= j <= optc && optv.Length == |before|
        invariant forall k | 0 <= k < i :: optv[k] == before[k]
        invariant forall k | i <= k < j :: optv[k] == before[k + 1]
        invariant forall k | j <= k < optv.Length :: optv[k] == before[k]
      {
        optv[j] := optv[j + 1];
        j := j + 1;
      }
      optv[j] := None;
      optc := optc - 1;
      assert optv[..optc] == before[..optc + 1][..i] + before[..optc + 1][i + 1..];
      ValuesRemove(before[..optc + 1], i);
    }

    /** The add branch: a new array of `optc + 2` slots (what realloc returns), the option, then NULL. */
    method Append(opt: Opt)
      requires Valid()
      modifies this
      ensures Valid() && Options() == old(Options()) + [opt]
    {
      var c := optc;
      var slots := optv[..c];
      var grown := new Option<Opt>[c + 2](k => if 0 <= k < |slots| then slots[k] else None);
      grown[c] := Some(opt);
      grown[c + 1] := None;
      optv := grown;
      optc := optc + 1;
      assert optv[..optc] == slots + [Some(opt)];
    }

    /** The replace branch: the option at `i` becomes `opt`. */
    method ReplaceAt(i: nat, opt: Opt)
      requires Valid() && i < optc
      modifies optv
      ensures Valid() && Options() == old(Options())[i := opt]
    {
      optv[i] := Some(opt);
      assert optv[..optc] == old(optv[..optc])[i := Some(opt)];
    }

    /**
     * openpam_set_option on this entry: PAM_SUCCESS with the options
     * as SetSpec says, or PAM_BUF_ERR with the options unchanged when
     * the option cannot be allocated, or the array cannot be grown for
     * a new one.
     */
    method Set(name: string, value: Option<string>, mallocOk: bool, reallocOk: bool) returns (r: int)
      requires Valid()
      modifies this, optv
      ensures Valid()
      ensures r == PAM_SUCCESS || r == PAM_BUF_ERR
      ensures r == PAM_BUF_ERR <==>
        value.Some? && (!mallocOk || (Find(old(Options()), name) == old(optc) && !reallocOk))
      ensures r == PAM_SUCCESS ==> Options() == SetSpec(old(Options()), name, value)
      ensures r == PAM_BUF_ERR ==> Options() == old(Options())
    {
      var i := FindOption(name);
      if value.None? {
        if i == optc {
          return PAM_SUCCESS;
        }
        RemoveAt(i);
        return PAM_SUCCESS;
      }
      if !mallocOk {
        return PAM_BUF_ERR;
      }
      var opt := Opt(name, value.value);
      if i == optc {
        if !reallocOk {
          return PAM_BUF_ERR;
        }
        Append(opt);
      } else {
        ReplaceAt(i, opt);
      }
      return PAM_SUCCESS;
    }
  }

  /**
   * openpam_set_option(pamh, option, value): PAM_SYSTEM_ERR when there is
   * no handle, no current module (`entry` is null) or no option name.
   */
  method OpenpamSetOption(entry: PamChain?, option: Option<string>, value: Option<string>, mallocOk: bool, reallocOk: bool)
    returns (r: int)
    requires entry != null ==> entry.Valid()
    modifies if entry == null then {} else {entry, entry.optv}
    ensures entry == null || option.None? ==> r == PAM_SYSTEM_ERR
    ensures entry != null ==> entry.Valid()
    ensures entry != null && option.Some? ==> r == PAM_SUCCESS || r == PAM_BUF_ERR
    ensures entry != null && option.Some? ==>
      (r == PAM_BUF_ERR <==>
        value.Some? && (!mallocOk || (Find(old(entry.Options()), option.value) == old(entry.optc) && !reallocOk)))
    ensures entry != null && option.Some? && r == PAM_SUCCESS ==>
      entry.Options() == SetSpec(old(entry.Options()), option.value, value)
    ensures entry != null && r != PAM_SUCCESS ==> entry.Options() == old(entry.Options())
  {
    if entry == null || option.None? {
      return PAM_SYSTEM_ERR;
    }
    r := entry.Set(option.value, value, mallocOk, reallocOk);
  }
}
