/** odin_set_vc_vars.py: on Windows, run the Visual Studio `vcvars` batch file once and copy
    the environment it sets up into the editor's own environment. The settings lookup and the
    shell are parameters: `vcVarsPath` is the `vc_vars_path` setting and `output` what the
    batch file printed, `None` when it could not be run or decoded. */
module VcVars {
  import opened Base
  import opened Strings

  /** The line the batch prints before `set` lists the variables, and the variable that marks
      the environment as installed. */
  const Sentinel: string := "SUBL_VC_VARS"
  const Bootstrapped: string := "BOOTSTRAPPED"

  /** `lines.index(x)`, `None` where Python raises. */
  function FirstIndexOf(lines: seq<string>, x: string): (r: Option<nat>)
    ensures r.Some? ==> && r.value < |lines| && lines[r.value] == x
                        && forall j :: 0 <= j < r.value ==> lines[j] != x
    ensures r.None? ==> forall j :: 0 <= j < |lines| ==> lines[j] != x
  {
    if |lines| == 0 then None
    else if lines[0] == x then Some(0)
    else match FirstIndexOf(lines[1..], x)
      case None => None
      case Some(k) => Some(k + 1)
  }

  /** `[line.strip() for line in output.splitlines()]`. */
  function StrippedLines(output: string): (r: seq<string>)
    ensures |r| == |SplitLines(output)|
    ensures forall i :: 0 <= i < |r| ==> r[i] == Strip(SplitLines(output)[i])
  {
    var raw := SplitLines(output);
    seq(|raw|, i requires 0 <= i < |raw| => Strip(raw[i]))
  }

  /** The stripped lines after the first sentinel line; `None` when no line is the sentinel
      (the `ValueError` the `except` turns into `None`). */
  function EnvLinesOf(output: string): (r: Option<seq<string>>)
    ensures var lines := StrippedLines(output);
      r.Some? ==> exists k :: 0 <= k < |lines| && lines[k] == Sentinel && Sentinel !in lines[..k]
                             && r.value == lines[k + 1..]
    ensures r.None? ==> Sentinel !in StrippedLines(output)
  {
    var lines := StrippedLines(output);
    match FirstIndexOf(lines, Sentinel)
    case None => None
    case Some(k) =>
      assert forall j :: 0 <= j < k ==> lines[..k][j] == lines[j];
      Some(lines[k + 1..])
  }

  /** The index of the first `=` of a line. */
  function FirstEquals(line: string): (r: Option<nat>)
    ensures r.Some? ==> && r.value < |line| && line[r.value] == '='
                        && forall j :: 0 <= j < r.value ==> line[j] != '='
    ensures r.None? ==> forall j :: 0 <= j < |line| ==> line[j] != '='
  {
    if |line| == 0 then None
    else if line[0] == '=' then Some(0)
    else match FirstEquals(line[1..])
      case None => None
      case Some(k) => Some(k + 1)
  }

  /** `parts = line.split("=", maxsplit=1)` read as `(parts[0].upper(), parts[1])`; `None`
      when there is no `=` and `parts[1]` raises. */
  function Assignment(line: string): (r: Option<(string, string)>)
    ensures r.None? <==> '=' !in line
    ensures r.Some? ==> exists name :: line == name + "=" + r.value.1 && '=' !in name && r.value.0 == Upper(name)
  {
    match FirstEquals(line)
    case None => None
    case Some(k) =>
      assert line == line[..k] + "=" + line[k + 1..];
      Some((Upper(line[..k]), line[k + 1..]))
  }

  /** The loop of `_get_vc_env` that fills `env`: a later line for the same name wins. */
  function EnvOf(lines: seq<string>): Outcome<map<string, string>> {
    if |lines| == 0 then Ok(map[])
    else
      match EnvOf(lines[..|lines| - 1])
      case Raise(e) => Raise(e)
      case Ok(env) =>
        match Assignment(lines[|lines| - 1])
        case None => Raise(IndexError)
        case Some(nv) => Ok(env[nv.0 := nv.1])
  }

  /** The loop raises exactly when some line has no `=`. */
  lemma {:induction false} EnvRaisesIff(lines: seq<string>)
    ensures EnvOf(lines).Raise? <==> exists j :: LacksEquals(lines, j)
    ensures EnvOf(lines).Raise? ==> EnvOf(lines).error == IndexError
  {
    if |lines| > 0 {
      var init := lines[..|lines| - 1];
      EnvRaisesIff(init);
      forall j | LacksEquals(init, j) ensures LacksEquals(lines, j) {
        assert lines[j] == init[j];
      }
      forall j | LacksEquals(lines, j) && j < |init| ensures LacksEquals(init, j) {
        assert lines[j] == init[j];
      }
      assert LacksEquals(lines, |init|) <==> '=' !in lines[|lines| - 1];
    }
  }

  /** Line `j` has no `=`. */
  predicate LacksEquals(lines: seq<string>, j: int) {
    0 <= j < |lines| && '=' !in lines[j]
  }

  /** Whether line `j` assigns `key`. */
  predicate Assigns(lines: seq<string>, j: int, key: string) {
    0 <= j < |lines| && Assignment(lines[j]).Some? && Assignment(lines[j]).value.0 == key
  }

  /** Without an exception, the last line is one more assignment after the others. */
  lemma EnvSnoc(lines: seq<string>)
    requires |lines| > 0 && EnvOf(lines).Ok?
    ensures var init := lines[..|lines| - 1];
      && EnvOf(init).Ok? && Assignment(lines[|lines| - 1]).Some?
      && EnvOf(lines).value
         == EnvOf(init).value[Assignment(lines[|lines| - 1]).value.0 := Assignment(lines[|lines| - 1]).value.1]
  {
  }

  /** The index of the last line assigning `key`. */
  function LastAssigning(lines: seq<string>, key: string): (r: Option<nat>)
    ensures r.Some? ==> && Assigns(lines, r.value, key)
                        && forall i :: r.value < i < |lines| ==> !Assigns(lines, i, key)
    ensures r.None? ==> forall i :: 0 <= i < |lines| ==> !Assigns(lines, i, key)
  {
    if |lines| == 0 then None
    else if Assigns(lines, |lines| - 1, key) then Some(|lines| - 1)
    else
      var r := LastAssigning(lines[..|lines| - 1], key);
      assert forall i :: 0 <= i < |lines| - 1 ==> Assigns(lines[..|lines| - 1], i, key) == Assigns(lines, i, key);
      r
  }

  /** Without an exception, the value of a name is the one of the last line assigning it. */
  lemma {:induction false} EnvLastWins(lines: seq<string>, key: string)
    requires EnvOf(lines).Ok?
    ensures key in EnvOf(lines).value <==> LastAssigning(lines, key).Some?
    ensures key in EnvOf(lines).value ==>
      EnvOf(lines).value[key] == Assignment(lines[LastAssigning(lines, key).value]).value.1
  {
    if |lines| > 0 {
      var init := lines[..|lines| - 1];
      EnvSnoc(lines);
      EnvLastWins(init, key);
    }
  }

  /** Every name is upper case, as `os.environ` keeps them on Windows. */
  lemma {:induction false} EnvKeysUpper(lines: seq<string>)
    requires EnvOf(lines).Ok?
    ensures forall key :: key in EnvOf(lines).value ==> Upper(key) == key
  {
    if |lines| > 0 {
      EnvKeysUpper(lines[..|lines| - 1]);
      var nv := Assignment(lines[|lines| - 1]).value;
      var name :| lines[|lines| - 1] == name + "=" + nv.1 && '=' !in name && nv.0 == Upper(name);
      assert Upper(Upper(name)) == Upper(name);
    }
  }

  /** `_get_vc_env`: `None` without the setting, when the batch cannot be run or when it never
      prints the sentinel; otherwise the variables it lists, or the `IndexError` of a line
      without `=`, which the `try` does not cover. */
  function VcEnvOf(vcVarsPath: Option<string>, output: Option<string>): Outcome<Option<map<string, string>>> {
    if vcVarsPath.None? || output.None? then Ok(None)
    else
      match EnvLinesOf(output.value)
      case None => Ok(None)
      case Some(lines) =>
        match EnvOf(lines)
        case Raise(e) => Raise(e)
        case Ok(env) => Ok(Some(env))
  }

  /** `_get_vc_env`, with its loop over the lines. */
  method GetVcEnv(vcVarsPath: Option<string>, output: Option<string>) returns (r: Outcome<Option<map<string, string>>>)
    ensures r == VcEnvOf(vcVarsPath, output)
  {
    if vcVarsPath.None? || output.None? {
      return Ok(None);
    }
    var envLines := EnvLinesOf(output.value);
    if envLines.None? {
      return Ok(None);
    }
    var lines := envLines.value;
    var env: map<string, string> := map[];
    for i := 0 to |lines|
      invariant EnvOf(lines[..i]) == Ok(env)
    {
      assert lines[..i + 1][..i] == lines[..i];
      var parts := Assignment(lines[i]);
      if parts.None? {
        EnvStops(lines, i + 1);
        return Raise(IndexError);
      }
      env := env[parts.value.0 := parts.value.1];
    }
    assert lines[..|lines|] == lines;
    r := Ok(Some(env));
  }

  /** Once a line raises, the later lines are not looked at. */
  lemma {:induction false} EnvStops(lines: seq<string>, k: nat)
    requires k <= |lines| && EnvOf(lines[..k]).Raise?
    ensures EnvOf(lines) == EnvOf(lines[..k])
  {
    if k < |lines| {
      assert lines[..|lines| - 1][..k] == lines[..k];
      EnvStops(lines[..|lines| - 1], k);
    } else {
      assert lines[..k] == lines;
    }
  }

  /** The status messages `install_vc_env` and `set` show. */
  const FetchFailed: string := "Error fetching VS Environment"
  const Enabled: string := "VS Environment enabled"
  const AlreadyEnabled: string := "VS Environment already enabled"

  /** `os.environ`. */
  class Environ {
    var vars: map<string, string>

    constructor(vars: map<string, string>)
      ensures this.vars == vars
    {
      this.vars := vars;
    }

    /** The first loop of `install_vc_env`: the names not yet set are added. */
    method AddNewVars(env: map<string, string>)
      modifies this
      ensures vars == env + old(vars)
    {
      var keys := env.Keys;
      while keys != {}
        invariant keys <= env.Keys
        invariant vars == (map k | k in env.Keys - keys :: env[k]) + old(vars)
        decreases keys
      {
        var key :| key in keys;
        if key !in vars {
          vars := vars[key := env[key]];
        }
        keys := keys - {key};
      }
      assert (map k | k in env.Keys :: env[k]) == env;
    }

    /** The second loop of `install_vc_env`: the names already set take their new value. */
    method UpdateChangedVars(env: map<string, string>)
      modifies this
      ensures vars.Keys == old(vars).Keys
      ensures forall k :: k in vars ==> vars[k] == if k in env then env[k] else old(vars)[k]
    {
      var keys := vars.Keys;
      while keys != {}
        invariant keys <= old(vars).Keys && vars.Keys == old(vars).Keys
        invariant forall k :: k in vars ==> vars[k] == if k in env && k !in keys then env[k] else old(vars)[k]
        decreases keys
      {
        var key :| key in keys;
        if key in env && vars[key] != env[key] {
          vars := vars[key := env[key]];
        }
        keys := keys - {key};
      }
    }

    /** `install_vc_env`: the variables of the batch file are set, those already present
        overwritten, and the sentinel variable marks the environment as installed. */
    method InstallVcEnv(vcVarsPath: Option<string>, output: Option<string>) returns (r: Outcome<string>)
      modifies this
      ensures VcEnvOf(vcVarsPath, output).Raise? ==> r == Raise(VcEnvOf(vcVarsPath, output).error) && vars == old(vars)
      ensures VcEnvOf(vcVarsPath, output) == Ok(None) ==> r == Ok(FetchFailed) && vars == old(vars)
      ensures VcEnvOf(vcVarsPath, output).Ok? && VcEnvOf(vcVarsPath, output).value.Some? ==>
        r == Ok(Enabled) && vars == (old(vars) + VcEnvOf(vcVarsPath, output).value.value)[Sentinel := Bootstrapped]
    {
      var vcEnv := GetVcEnv(vcVarsPath, output);
      if vcEnv.Raise? {
        return Raise(vcEnv.error);
      }
      if vcEnv.value.None? {
        return Ok(FetchFailed);
      }
      var env := vcEnv.value.value;
      AddNewVars(env);
      UpdateChangedVars(env);
      assert vars == old(vars) + env;
      vars := vars[Sentinel := Bootstrapped];
      r := Ok(Enabled);
    }

    /** `set`: only on Windows, and only once; the sentinel variable stays set after a
        successful install, so a later call changes nothing. */
    method Set(platform: string, vcVarsPath: Option<string>, output: Option<string>) returns (r: Outcome<Option<string>>)
      modifies this
      ensures platform != "windows" ==> r == Ok(None) && vars == old(vars)
      ensures platform == "windows" && Sentinel in old(vars) ==> r == Ok(Some(AlreadyEnabled)) && vars == old(vars)
      ensures platform == "windows" && Sentinel !in old(vars) && VcEnvOf(vcVarsPath, output).Ok? && VcEnvOf(vcVarsPath, output).value.Some? ==>
        r == Ok(Some(Enabled)) && vars == (old(vars) + VcEnvOf(vcVarsPath, output).value.value)[Sentinel := Bootstrapped]
      ensures platform == "windows" && Sentinel !in old(vars) && VcEnvOf(vcVarsPath, output) == Ok(None) ==>
        r == Ok(Some(FetchFailed)) && vars == old(vars)
      ensures platform == "windows" && Sentinel !in old(vars) && VcEnvOf(vcVarsPath, output).Raise? ==>
        r == Raise(IndexError) && vars == old(vars)
      ensures platform == "windows" && VcEnvOf(vcVarsPath, output).Ok? && VcEnvOf(vcVarsPath, output).value.Some? ==>
        Sentinel in vars && vars[Sentinel] == (if Sentinel in old(vars) then old(vars)[Sentinel] else Bootstrapped)
    {
      if platform != "windows" {
        return Ok(None);
      }
      if Sentinel in vars {
        return Ok(Some(AlreadyEnabled));
      }
      VcEnvRaisesIndexError(vcVarsPath, output);
      var status := InstallVcEnv(vcVarsPath, output);
      if status.Raise? {
        return Raise(status.error);
      }
      r := Ok(Some(status.value));
    }
  }

  /** The only exception `_get_vc_env` lets through is the `IndexError` of a line without `=`. */
  lemma VcEnvRaisesIndexError(vcVarsPath: Option<string>, output: Option<string>)
    ensures VcEnvOf(vcVarsPath, output).Raise? ==> VcEnvOf(vcVarsPath, output).error == IndexError
  {
    if vcVarsPath.Some? && output.Some? && EnvLinesOf(output.value).Some? {
      EnvRaisesIff(EnvLinesOf(output.value).value);
    }
  }
}
