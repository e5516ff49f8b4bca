// openpam_configure: the word scanners the policy reader matches lines
// with, and how a service's chains are located: each policy path in
// order, then the "other" policy for a chain left empty. Reading a policy
// file (openpam_read_chain) is the parameter `read`: the result it gives
// for a file name, service, facility and style (the number of entries
// read, 0 for none or a missing file, negative for an error). Whether
// asprintf can build a file name is the parameter `formatOk`.

module OpenpamConfigure {
  import opened CTypes
  import opened CLib
  import opened PamConstants

  // ---------------------------------------------------------------------
  // Word scanners. A position is an index into the line; the line ends at
  // its first NUL (or its end).

  /** `word` is the first word of `str`: `str` starts with it and a space follows. */
  predicate FirstWord(str: string, word: string)
  {
    var w := CStr(word);
    |w| < |str| && str[..|w|] == w && str[|w|] == ' '
  }

  /** The C string of `s` is its first `n` characters when they hold no NUL and a NUL (or the end) follows. */
  lemma CStrIs(s: string, n: nat)
    requires n <= |s| && '\0' !in s[..n] && At(s, n) == '\0'
    ensures CStr(s) == s[..n]
  {
  }

  /**
   * match_word(str, word): compare character by character while `str`
   * has not ended and the two agree; then true exactly when `str` stops
   * at a space where `word` ends.
   */
  method MatchWord(str: string, word: string) returns (b: bool)
    ensures b <==> FirstWord(str, word)
  {
    var i := 0;
    while At(str, i) != '\0' && At(str, i) == At(word, i)
      invariant i <= |str| && i <= |word|
      invariant forall k | 0 <= k < i :: str[k] == word[k] && str[k] != '\0'
      decreases |str| - i
    {
      i := i + 1;
    }
    b := At(str, i) == ' ' && At(word, i) == '\0';
    if b {
      assert str[..i] == word[..i];
      CStrIs(word, i);
    }
  }

  /** The end of the word at `i`: the first NUL or white-space character from `i` on. */
  function WordEnd(str: string, i: nat): (e: nat)
    requires i <= |str|
    ensures i <= e <= |str|
    ensures At(str, e) == '\0' || IsCSpace(At(str, e))
    ensures forall k | i <= k < e :: str[k] != '\0' && !IsCSpace(str[k])
    decreases |str| - i
  {
    if At(str, i) == '\0' || IsCSpace(At(str, i)) then i else WordEnd(str, i + 1)
  }

  /** The end of the white space at `i`: the first non-space character (or the end) from `i` on. */
  function SpaceEnd(str: string, i: nat): (e: nat)
    requires i <= |str|
    ensures i <= e <= |str|
    ensures !IsCSpace(At(str, e))
    ensures forall k | i <= k < e :: IsCSpace(str[k])
    decreases |str| - i
  {
    if IsCSpace(At(str, i)) then SpaceEnd(str, i + 1) else i
  }

  /**
   * next_word(str + i): skip the word at `i`, then the white space after
   * it; the result is at the next word, or at the final NUL.
   */
  method NextWord(str: string, i: nat) returns (j: nat)
    requires i <= |str|
    ensures j == SpaceEnd(str, WordEnd(str, i))
    ensures i <= j <= |str| && (At(str, j) == '\0' || !IsCSpace(At(str, j)))
  {
    j := i;
    while At(str, j) != '\0' && !IsCSpace(At(str, j))
      invariant i <= j <= |str| && WordEnd(str, i) == WordEnd(str, j)
      decreases |str| - j
    {
      j := j + 1;
    }
    var e := j;
    while IsCSpace(At(str, j))
      invariant e <= j <= |str| && SpaceEnd(str, e) == SpaceEnd(str, j)
      decreases |str| - j
    {
      j := j + 1;
    }
  }

  /**
   * dup_word(str + i): a copy of the word at `i`, up to the first NUL or
   * white space. None when asprintf fails.
   */
  method DupWord(str: string, i: nat, formatOk: bool) returns (w: Option<string>)
    requires i <= |str|
    ensures w.Some? <==> formatOk
    ensures w.Some? ==> w.value == str[i..WordEnd(str, i)]
  {
    var end := i;
    while At(str, end) != '\0' && !IsCSpace(At(str, end))
      invariant i <= end <= |str| && WordEnd(str, i) == WordEnd(str, end)
      decreases |str| - end
    {
      end := end + 1;
    }
    if !formatOk {
      return None;
    }
    w := Some(str[i..end]);
  }

  /**
   * The scanners agree: a word at `i` that a space follows is the first
   * word there for match_word, and next_word moves past it and the
   * spaces after it.
   */
  lemma WordScannersAgree(str: string, i: nat)
    requires i <= |str| && At(str, WordEnd(str, i)) == ' '
    ensures FirstWord(str[i..], str[i..WordEnd(str, i)])
    ensures SpaceEnd(str, WordEnd(str, i)) > WordEnd(str, i)
  {
    var e := WordEnd(str, i);
    var w := str[i..e];
    CStrIs(w, |w|);
    assert w[..|w|] == w;
    assert str[i..][..|w|] == w;
  }

  /** A word match_word accepts at `i` that holds no white space ends where the word at `i` ends. */
  lemma MatchedWordEnds(str: string, i: nat, word: string)
    requires i <= |str| && FirstWord(str[i..], word)
    requires forall k | 0 <= k < |CStr(word)| :: !IsCSpace(CStr(word)[k])
    ensures WordEnd(str, i) == i + |CStr(word)|
  {
    var w := CStr(word);
    assert forall k | 0 <= k < |w| :: str[i + k] == str[i..][k] == w[k];
    assert str[i + |w|] == ' ';
    WordEndIs(str, i, i + |w|);
  }

  lemma WordEndIs(str: string, i: nat, e: nat)
    requires i <= e <= |str| && (At(str, e) == '\0' || IsCSpace(At(str, e)))
    requires forall k | i <= k < e :: str[k] != '\0' && !IsCSpace(str[k])
    ensures WordEnd(str, i) == e
    decreases e - i
  {
    if i < e {
      WordEndIs(str, i + 1, e);
    }
  }

  // ---------------------------------------------------------------------
  // Locating a chain

  /** The two policy layouts: one file per service, or one file for all. */
  datatype Style = PamConfStyle | PamDStyle

  /** The policy paths, in the order they are tried: directories end in '/'. */
  const POLICY_PATHS: seq<string> := ["/etc/pam.d/", "/etc/pam.conf", "/usr/local/etc/pam.d/", "/usr/local/etc/pam.conf"]

  /** The service whose policy applies when a service has none. */
  const PAM_OTHER: string := "other"

  /** The facility name of each chain. */
  function ChainName(chain: nat): string
    requires chain < PAM_NUM_CHAINS
  {
    ["auth", "account", "session", "password"][chain]
  }

  /**
   * What one policy path gives: for a directory, the file named after the
   * service in it, read in the per-service style (-PAM_BUF_ERR when the
   * name cannot be built); for a file, the file itself in the one-file
   * style.
   */
  function Attempt(path: string, service: string, facility: string,
                   read: (string, string, string, Style) -> int, formatOk: (string, string) -> bool): int
    requires path != []
  {
    if path[|path| - 1] == '/' then
      if formatOk(path, service) then read(path + service, service, facility, PamDStyle) else -PAM_BUF_ERR
    else read(path, service, facility, PamConfStyle)
  }

  /** openpam_load_chain over the paths from `paths` on: the first non-zero result, or 0. */
  function LoadFrom(paths: seq<string>, service: string, facility: string,
                    read: (string, string, string, Style) -> int, formatOk: (string, string) -> bool): int
    requires forall k | 0 <= k < |paths| :: paths[k] != []
  {
    if paths == [] then 0
    else
      var r := Attempt(paths[0], service, facility, read, formatOk);
      if r != 0 then r else LoadFrom(paths[1..], service, facility, read, formatOk)
  }

  /**
   * Loading gives 0 exactly when every path gives 0; otherwise it gives
   * the result of the first path that does not.
   */
  lemma {:induction false} LoadFirstNonZero(paths: seq<string>, service: string, facility: string,
                                            read: (string, string, string, Style) -> int, formatOk: (string, string) -> bool)
    requires forall k | 0 <= k < |paths| :: paths[k] != []
    ensures var r := LoadFrom(paths, service, facility, read, formatOk);
      && (r == 0 <==> forall k | 0 <= k < |paths| :: Attempt(paths[k], service, facility, read, formatOk) == 0)
      && (r != 0 ==> exists k | 0 <= k < |paths| ::
            Attempt(paths[k], service, facility, read, formatOk) == r &&
            forall j | 0 <= j < k :: Attempt(paths[j], service, facility, read, formatOk) == 0)
  {
    if paths != [] {
      var r := LoadFrom(paths, service, facility, read, formatOk);
      LoadFirstNonZero(paths[1..], service, facility, read, formatOk);
      assert forall k | 1 <= k < |paths| :: paths[1..][k - 1] == paths[k];
      if Attempt(paths[0], service, facility, read, formatOk) == 0 && r != 0 {
        var k :| 0 <= k < |paths| - 1 &&
          Attempt(paths[1..][k], service, facility, read, formatOk) == r &&
          forall j | 0 <= j < k :: Attempt(paths[1..][j], service, facility, read, formatOk) == 0;
        assert Attempt(paths[k + 1], service, facility, read, formatOk) == r;
      }
    }
  }

  /** openpam_load_chain(chain, service, facility): try each policy path in order. */
  method LoadChain(service: string, facility: string,
                   read: (string, string, string, Style) -> int, formatOk: (string, string) -> bool) returns (r: int)
    ensures r == LoadFrom(POLICY_PATHS, service, facility, read, formatOk)
  {
    var k := 0;
    while k < |POLICY_PATHS|
      invariant k <= |POLICY_PATHS|
      invariant LoadFrom(POLICY_PATHS, service, facility, read, formatOk) ==
                LoadFrom(POLICY_PATHS[k..], service, facility, read, formatOk)
    {
      var path := POLICY_PATHS[k];
      assert POLICY_PATHS[k..][1..] == POLICY_PATHS[k + 1..];
      if path[|path| - 1] == '/' {
        if !formatOk(path, service) {
          return -PAM_BUF_ERR;
        }
        r := read(path + service, service, facility, PamDStyle);
      } else {
        r := read(path, service, facility, PamConfStyle);
      }
      if r != 0 {
        return r;
      }
      k := k + 1;
    }
    return 0;
  }

  /** What configuring a chain gives: the service's policy, or "other" when that has no entries. */
  function ChainResult(service: string, chain: nat,
                       read: (string, string, string, Style) -> int, formatOk: (string, string) -> bool): int
    requires chain < PAM_NUM_CHAINS
  {
    var r := LoadFrom(POLICY_PATHS, service, ChainName(chain), read, formatOk);
    if r == 0 then LoadFrom(POLICY_PATHS, PAM_OTHER, ChainName(chain), read, formatOk) else r
  }

  /** The service whose policy a configured chain holds, or None for an empty chain. */
  function ChainSource(service: string, chain: nat,
                       read: (string, string, string, Style) -> int, formatOk: (string, string) -> bool): Option<string>
    requires chain < PAM_NUM_CHAINS
  {
    var r := LoadFrom(POLICY_PATHS, service, ChainName(chain), read, formatOk);
    if r > 0 then Some(service)
    else if r == 0 && LoadFrom(POLICY_PATHS, PAM_OTHER, ChainName(chain), read, formatOk) > 0 then Some(PAM_OTHER)
    else None
  }

  /**
   * openpam_configure(pamh, service). `chains` is the handle's chain
   * array, each entry the service whose policy the chain was read from
   * (None for an empty chain). Any chain whose loading fails clears them
   * all and gives PAM_SYSTEM_ERR.
   */
  method Configure(chains: array<Option<string>>, service: string,
                   read: (string, string, string, Style) -> int, formatOk: (string, string) -> bool) returns (r: int)
    requires chains.Length == PAM_NUM_CHAINS
    modifies chains
    ensures r == PAM_SYSTEM_ERR <==> exists c | 0 <= c < PAM_NUM_CHAINS :: ChainResult(service, c, read, formatOk) < 0
    ensures r == PAM_SUCCESS || r == PAM_SYSTEM_ERR
    ensures r == PAM_SYSTEM_ERR ==> forall c | 0 <= c < PAM_NUM_CHAINS :: chains[c].None?
    ensures r == PAM_SUCCESS ==> forall c | 0 <= c < PAM_NUM_CHAINS :: chains[c] == ChainSource(service, c, read, formatOk)
  {
    var i := 0;
    while i < PAM_NUM_CHAINS
      invariant i <= PAM_NUM_CHAINS
      invariant forall c | 0 <= c < i :: ChainResult(service, c, read, formatOk) >= 0
      invariant forall c | 0 <= c < i :: chains[c] == ChainSource(service, c, read, formatOk)
    {
      var ret := LoadChain(service, ChainName(i), read, formatOk);
      var source: Option<string> := if ret > 0 then Some(service) else None;
      if ret == 0 {
        ret := LoadChain(PAM_OTHER, ChainName(i), read, formatOk);
        source := if ret > 0 then Some(PAM_OTHER) else None;
      }
      if ret < 0 {
        assert ChainResult(service, i, read, formatOk) < 0;
        forall c | 0 <= c < chains.Length {
          chains[c] := None;
        }
        return PAM_SYSTEM_ERR;
      }
      chains[i] := source;
      i := i + 1;
    }
    return PAM_SUCCESS;
  }

  /** A service with entries for a chain keeps them: "other" is read only for a chain the service leaves empty. */
  lemma OtherOnlyWhenEmpty(service: string, chain: nat,
                           read: (string, string, string, Style) -> int, formatOk: (string, string) -> bool)
    requires chain < PAM_NUM_CHAINS
    ensures ChainSource(service, chain, read, formatOk) == Some(PAM_OTHER) && service != PAM_OTHER ==>
      forall k | 0 <= k < |POLICY_PATHS| :: Attempt(POLICY_PATHS[k], service, ChainName(chain), read, formatOk) == 0
    ensures (exists k | 0 <= k < |POLICY_PATHS| :: Attempt(POLICY_PATHS[k], service, ChainName(chain), read, formatOk) > 0 &&
               forall j | 0 <= j < k :: Attempt(POLICY_PATHS[j], service, ChainName(chain), read, formatOk) == 0) ==>
      ChainSource(service, chain, read, formatOk) == Some(service)
  {
    LoadFirstNonZero(POLICY_PATHS, service, ChainName(chain), read, formatOk);
    var r := LoadFrom(POLICY_PATHS, service, ChainName(chain), read, formatOk);
    if exists k | 0 <= k < |POLICY_PATHS| :: Attempt(POLICY_PATHS[k], service, ChainName(chain), read, formatOk) > 0 &&
         forall j | 0 <= j < k :: Attempt(POLICY_PATHS[j], service, ChainName(chain), read, formatOk) == 0 {
      var k :| 0 <= k < |POLICY_PATHS| && Attempt(POLICY_PATHS[k], service, ChainName(chain), read, formatOk) > 0 &&
         forall j | 0 <= j < k :: Attempt(POLICY_PATHS[j], service, ChainName(chain), read, formatOk) == 0;
      var k' :| 0 <= k' < |POLICY_PATHS| && Attempt(POLICY_PATHS[k'], service, ChainName(chain), read, formatOk) == r &&
         forall j | 0 <= j < k' :: Attempt(POLICY_PATHS[j], service, ChainName(chain), read, formatOk) == 0;
      assert k == k';
    }
  }
}
