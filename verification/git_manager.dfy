/** The identity applier (src/main/lib/git-manager.ts). The host's global git
    configuration is an abstract key/value map; each `git config --global` run
    becomes a transition on it. Whether a run fails is not decided here: the
    caller passes `failing`, the set of keys whose write fails on this run. */
module GitManager {
  import opened Wrappers
  import opened Types

  /** The global git configuration, as key/value pairs. */
  type Config = map<string, string>

  const UserNameKey: string := "user.name"
  const UserEmailKey: string := "user.email"
  const SshCommandKey: string := "core.sshCommand"

  /** The three keys `setProfile` writes. */
  const IdentityKeys: set<string> := {UserNameKey, UserEmailKey, SshCommandKey}

  const SshPrefix: string := "ssh -i "
  const SshSuffix: string := " -o IdentitiesOnly=yes"

  /** What a run of `setProfile` leaves behind: the configuration as far as it got,
      and the error it threw, if any. Steps already done are not rolled back. */
  datatype Applied = Applied(config: Config, error: Option<Error>)

  // ---------------------------------------------------------------------------
  // The three configuration primitives

  /** `setGlobalConfig`: store `value` under `key`, or throw when the run fails. */
  function SetGlobalConfig(c: Config, failing: set<string>, key: string, value: string): (r: Result<Config, Error>)
    ensures r.Failure? <==> key in failing
    ensures r.Failure? ==> r.error == GitConfigFailed(key)
    ensures r.Success? ==> r.value.Keys == c.Keys + {key} && r.value[key] == value
    ensures r.Success? ==> forall k :: k in c && k != key ==> r.value[k] == c[k]
  {
    if key in failing then Failure(GitConfigFailed(key)) else Success(c[key := value])
  }

  /** `unsetGlobalConfig`: remove `key`. Any failure of the run, a missing key
      included, is swallowed, so the result is a configuration and never an error. */
  function UnsetGlobalConfig(c: Config, failing: set<string>, key: string): (r: Config)
    ensures key !in failing ==> key !in r
    ensures key in failing || key !in c ==> r == c
    ensures forall k :: k != key ==> (k in r <==> k in c) && (k in r ==> r[k] == c[k])
  {
    if key in failing then c else c - {key}
  }

  /** The characters `String.prototype.trim` removes: ECMAScript WhiteSpace and
      LineTerminator code points. */
  predicate IsTrimmed(ch: char)
  {
    var n := ch as int;
    || n == 0x09 || n == 0x0A || n == 0x0B || n == 0x0C || n == 0x0D || n == 0x20
    || n == 0xA0 || n == 0x1680 || (0x2000 <= n <= 0x200A) || n == 0x2028 || n == 0x2029
    || n == 0x202F || n == 0x205F || n == 0x3000 || n == 0xFEFF
  }

  /** The string starts and ends with a character `trim` keeps (or is empty). */
  predicate TrimClean(s: string)
  {
    s == [] || (!IsTrimmed(s[0]) && !IsTrimmed(s[|s| - 1]))
  }

  /** Drop leading whitespace. */
  function TrimStart(s: string): (r: string)
    ensures |r| <= |s| && r == s[|s| - |r|..]
    ensures forall i :: 0 <= i < |s| - |r| ==> IsTrimmed(s[i])
    ensures r == [] || !IsTrimmed(r[0])
  {
    if s != [] && IsTrimmed(s[0]) then TrimStart(s[1..]) else s
  }

  /** Drop trailing whitespace. */
  function TrimEnd(s: string): (r: string)
    ensures |r| <= |s| && r == s[..|r|]
    ensures forall i :: |r| <= i < |s| ==> IsTrimmed(s[i])
    ensures r == [] || !IsTrimmed(r[|r| - 1])
  {
    if s != [] && IsTrimmed(s[|s| - 1]) then TrimEnd(s[..|s| - 1]) else s
  }

  /** `r` is the slice of `s` starting at `a`, with only whitespace on either side of it. */
  predicate SliceWithin(s: string, r: string, a: int)
  {
    && 0 <= a <= a + |r| <= |s| && r == s[a..a + |r|]
    && (forall i :: 0 <= i < a ==> IsTrimmed(s[i]))
    && (forall i :: a + |r| <= i < |s| ==> IsTrimmed(s[i]))
  }

  /** `String.prototype.trim`: a contiguous slice of the input whose both ends
      are kept characters, with only whitespace cut away on either side. */
  function Trim(s: string): (r: string)
    ensures TrimClean(r)
    ensures exists a :: SliceWithin(s, r, a)
  {
    var t := TrimStart(s);
    var r := TrimEnd(t);
    var a := |s| - |t|;
    assert SliceWithin(s, r, a);
    assert TrimClean(r) by {
      if r != [] {
        assert r[0] == t[0];
      }
    }
    r
  }

  /** `trim` leaves a string that already has no surrounding whitespace unchanged. */
  lemma TrimOfClean(s: string)
    requires TrimClean(s)
    ensures Trim(s) == s
  {
    assert TrimStart(s) == s;
    assert TrimEnd(s) == s;
  }

  /** `trim` is idempotent. */
  lemma TrimIdempotent(s: string)
    ensures Trim(Trim(s)) == Trim(s)
  {
    TrimOfClean(Trim(s));
  }

  /** `getGlobalConfig`: the stored value with surrounding whitespace trimmed
      (git's output ends in a newline), or null when the key is not set. */
  function GetGlobalConfig(c: Config, key: string): (r: Option<string>)
    ensures r.None? <==> key !in c
    ensures r.Some? ==> TrimClean(r.value) && exists a :: SliceWithin(c[key], r.value, a)
  {
    if key in c then Some(Trim(c[key])) else None
  }

  /** Reading a key back after a successful write returns the written value,
      when that value has no surrounding whitespace. */
  lemma GetAfterSet(c: Config, failing: set<string>, key: string, value: string)
    requires key !in failing && TrimClean(value)
    ensures GetGlobalConfig(SetGlobalConfig(c, failing, key, value).value, key) == Some(value)
  {
    TrimOfClean(value);
  }

  /** Reading a key back after a successful removal returns null. */
  lemma GetAfterUnset(c: Config, failing: set<string>, key: string)
    requires key !in failing
    ensures GetGlobalConfig(UnsetGlobalConfig(c, failing, key), key) == None
  {
  }

  // ---------------------------------------------------------------------------
  // The SSH command override

  /** The `core.sshCommand` value selecting `path` as the only identity file. */
  function SshCommand(path: string): (r: string)
    ensures |r| == |SshPrefix| + |path| + |SshSuffix|
    ensures r[..|SshPrefix|] == SshPrefix
    ensures r[|SshPrefix|..|SshPrefix| + |path|] == path
    ensures r[|r| - |SshSuffix|..] == SshSuffix
  {
    SshPrefix + path + SshSuffix
  }

  /** The key path an SSH command override names, if it has the shape `SshCommand` builds. */
  function KeyPathOf(cmd: string): Option<string>
  {
    if |cmd| >= |SshPrefix| + |SshSuffix|
       && cmd[..|SshPrefix|] == SshPrefix
       && cmd[|cmd| - |SshSuffix|..] == SshSuffix
    then Some(cmd[|SshPrefix|..|cmd| - |SshSuffix|])
    else None
  }

  /** The override names exactly the path it was built from, and nothing else
      builds the same override: `KeyPathOf` inverts `SshCommand`. */
  lemma SshCommandRoundTrip(path: string, cmd: string)
    ensures KeyPathOf(SshCommand(path)) == Some(path)
    ensures KeyPathOf(cmd) == Some(path) <==> cmd == SshCommand(path)
  {
    var built := SshCommand(path);
    assert built[|SshPrefix|..|built| - |SshSuffix|] == path;
    if KeyPathOf(cmd) == Some(path) {
      assert cmd == cmd[..|SshPrefix|] + cmd[|SshPrefix|..|cmd| - |SshSuffix|] + cmd[|cmd| - |SshSuffix|..];
    }
  }

  /** `if (sshKeyPath)`: JavaScript truthiness of an optional string, false for
      `undefined` and for `''`, true for any other string. */
  predicate Truthy(k: Option<string>)
    ensures k.None? ==> !Truthy(k)
    ensures k == Some("") ==> !Truthy(k)
    ensures k.Some? && |k.value| > 0 ==> Truthy(k)
    ensures Truthy(k) ==> k.Some? && |k.value| > 0
  {
    k.Some? && k.value != ""
  }

  // ---------------------------------------------------------------------------
  // setProfile

  /** The configuration carries the given identity: name and email set, and the
      SSH override built from the key path when one is given, absent otherwise. */
  predicate HasIdentity(c: Config, name: string, email: string, sshKeyPath: Option<string>)
  {
    && UserNameKey in c && c[UserNameKey] == name
    && UserEmailKey in c && c[UserEmailKey] == email
    && (Truthy(sshKeyPath) ==> SshCommandKey in c && c[SshCommandKey] == SshCommand(sshKeyPath.value))
    && (!Truthy(sshKeyPath) ==> SshCommandKey !in c)
  }

  /** Every key outside the identity keys is as it was. */
  ghost predicate OnlyIdentityChanged(c: Config, c': Config)
  {
    forall k :: k !in IdentityKeys ==> (k in c' <==> k in c) && (k in c' ==> c'[k] == c[k])
  }

  /** `setProfile`: set `user.name`, then `user.email`, then either set
      `core.sshCommand` for a truthy key path or unset it. The first failing set
      throws and ends the run; earlier writes stay. */
  function SetProfile(c: Config, failing: set<string>, name: string, email: string, sshKeyPath: Option<string>): (r: Applied)
    ensures r.error == Some(GitConfigFailed(UserNameKey)) <==> UserNameKey in failing
    ensures r.error == Some(GitConfigFailed(UserEmailKey)) <==> UserNameKey !in failing && UserEmailKey in failing
    ensures r.error.None? <==>
      UserNameKey !in failing && UserEmailKey !in failing && (Truthy(sshKeyPath) ==> SshCommandKey !in failing)
    ensures UserNameKey in failing ==> r.config == c
    ensures UserNameKey !in failing && UserEmailKey in failing ==> r.config == c[UserNameKey := name]
    ensures UserNameKey !in failing && UserEmailKey !in failing && SshCommandKey in failing && Truthy(sshKeyPath) ==>
      && r.error == Some(GitConfigFailed(SshCommandKey))
      && r.config == c[UserNameKey := name][UserEmailKey := email]
    ensures r.error.None? ==>
      && UserNameKey in r.config && r.config[UserNameKey] == name
      && UserEmailKey in r.config && r.config[UserEmailKey] == email
    ensures r.error.None? && (Truthy(sshKeyPath) || SshCommandKey !in failing) ==>
      HasIdentity(r.config, name, email, sshKeyPath)
    ensures r.error.None? && !Truthy(sshKeyPath) && SshCommandKey in failing ==>
      r.config == c[UserNameKey := name][UserEmailKey := email]
    ensures OnlyIdentityChanged(c, r.config)
  {
    match SetGlobalConfig(c, failing, UserNameKey, name)
    case Failure(e) => Applied(c, Some(e))
    case Success(c1) =>
      match SetGlobalConfig(c1, failing, UserEmailKey, email)
      case Failure(e) => Applied(c1, Some(e))
      case Success(c2) =>
        if Truthy(sshKeyPath) then
          match SetGlobalConfig(c2, failing, SshCommandKey, SshCommand(sshKeyPath.value))
          case Failure(e) => Applied(c2, Some(e))
          case Success(c3) => Applied(c3, None)
        else
          Applied(UnsetGlobalConfig(c2, failing, SshCommandKey), None)
  }

  /** Applying the same identity twice (with the same failing writes) leaves the
      same configuration as applying it once: every step overwrites. */
  lemma SetProfileIdempotent(c: Config, failing: set<string>, name: string, email: string, sshKeyPath: Option<string>)
    ensures SetProfile(SetProfile(c, failing, name, email, sshKeyPath).config, failing, name, email, sshKeyPath).config
         == SetProfile(c, failing, name, email, sshKeyPath).config
  {
    var once := SetProfile(c, failing, name, email, sshKeyPath).config;
    var twice := SetProfile(once, failing, name, email, sshKeyPath).config;
    assert twice.Keys == once.Keys;
    forall k | k in once
      ensures twice[k] == once[k]
    {
    }
  }

  /** The form's default empty key path behaves exactly like no key path. */
  lemma EmptyKeyPathIsAbsent(c: Config, failing: set<string>, name: string, email: string)
    ensures SetProfile(c, failing, name, email, Some("")) == SetProfile(c, failing, name, email, None)
  {
  }

  /** Applying an identity with a key path leaves an override naming that path
      and restricting authentication to it. */
  lemma SetProfileOverrideNamesKey(c: Config, failing: set<string>, name: string, email: string, path: string)
    requires path != "" && SetProfile(c, failing, name, email, Some(path)).error.None?
    ensures var cfg := SetProfile(c, failing, name, email, Some(path)).config;
      SshCommandKey in cfg && KeyPathOf(cfg[SshCommandKey]) == Some(path)
      && cfg[SshCommandKey][|cfg[SshCommandKey]| - |SshSuffix|..] == SshSuffix
  {
    SshCommandRoundTrip(path, SshCommand(path));
  }
}
