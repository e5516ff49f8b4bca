// oath_mode: the mode whose name matches a string, ignoring case.

module OathModeName {
  import opened CTypes
  import opened OathTypes

  /** ASCII lower case, as strcasecmp compares. */
  function ToLower(c: char): char
  {
    if 'A' <= c <= 'Z' then (c as int + 32) as char else c
  }

  /** strcasecmp(a, b) == 0. */
  predicate SameIgnoringCase(a: string, b: string)
  {
    |a| == |b| && forall i | 0 <= i < |a| :: ToLower(a[i]) == ToLower(b[i])
  }

  /** oath_mode_names: the name of each mode below om_max, none for om_undef. */
  function ModeNames(): (names: seq<Option<string>>)
    ensures |names| == 3
  {
    [None, Some("hotp"), Some("totp")]
  }

  /** The enum value with number `i`. */
  function ModeOf(i: nat): Mode
    requires i < 3
  {
    if i == 0 then ModeUndef else if i == 1 then Hotp else Totp
  }

  /** The mode a string names, om_undef when it names none. */
  function ModeNamed(s: string): Mode
  {
    if SameIgnoringCase("hotp", s) then Hotp
    else if SameIgnoringCase("totp", s) then Totp
    else ModeUndef
  }

  /** oath_mode(str): the first entry of the name table that matches. */
  method OathMode(str: string) returns (om: Mode)
    ensures om == ModeNamed(str)
  {
    var names := ModeNames();
    var i := 0;
    while i < 3
      invariant 0 <= i <= 3
      invariant forall j | 0 <= j < i :: names[j].None? || !SameIgnoringCase(names[j].value, str)
    {
      if names[i].Some? && SameIgnoringCase(names[i].value, str) {
        return ModeOf(i);
      }
      i := i + 1;
    }
    assert names[1].value == "hotp" && names[2].value == "totp";
    return ModeUndef;
  }

  /** The result is one of the three real values, never om_max, and each name selects its mode. */
  lemma ModeNamedRange(s: string)
    ensures ModeNamed(s) != ModeMax
    ensures ModeNamed(s) == Hotp <==> SameIgnoringCase("hotp", s)
    ensures ModeNamed(s) == Totp <==> SameIgnoringCase("totp", s)
  {
    if SameIgnoringCase("hotp", s) {
      assert ToLower(s[0]) == 'h' != 't';
      assert !SameIgnoringCase("totp", s);
    }
  }

  /** Any letter case selects the mode; the empty string and other words select none. */
  lemma ModeNameVectors()
    ensures ModeNamed("hotp") == Hotp && ModeNamed("HOTP") == Hotp && ModeNamed("HoTp") == Hotp
    ensures ModeNamed("totp") == Totp && ModeNamed("TOTP") == Totp
    ensures ModeNamed("") == ModeUndef && ModeNamed("hotp ") == ModeUndef && ModeNamed("otp") == ModeUndef
  {
    assert SameIgnoringCase("hotp", "HOTP");
    assert SameIgnoringCase("hotp", "HoTp");
    assert SameIgnoringCase("totp", "TOTP");
    assert ToLower("totp"[0]) != ToLower("hotp"[0]);
    assert ToLower("TOTP"[0]) != ToLower("hotp"[0]);
  }
}
