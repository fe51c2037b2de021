/** The command line of bin/generate.js: the `--yaml` accumulator handed to
    commander, the choice between the two pipelines, and the single-file
    pipeline that copies the bundled site, the export and the optional logo. */
module Cli {
  import opened Wrappers
  import opened Documents
  import opened Hosts
  import Text
  import YamlPipeline

  /** The group name of `parseYaml` (bin/generate.js:11-12): the last element
      of the resolved path split on backslashes, that is, what follows the
      last backslash, or the whole path when there is none. */
  function GroupName(resolved: string): (name: string)
    ensures |name| <= |resolved| && resolved[|resolved| - |name|..] == name
    ensures '\\' !in name
    ensures |name| < |resolved| ==> resolved[|resolved| - |name| - 1] == '\\'
  {
    Text.LastPiece(resolved, '\\')
  }

  /** `parseYaml(val, pre)` with `val` already resolved: `{ ...pre, [name]: result }`. */
  function ParseYaml(resolved: string, pre: map<string, string>): (r: map<string, string>)
    ensures r.Keys == pre.Keys + {GroupName(resolved)}
    ensures r[GroupName(resolved)] == resolved
    ensures forall k :: k in pre && k != GroupName(resolved) ==> r[k] == pre[k]
  {
    pre[GroupName(resolved) := resolved]
  }

  /** The value commander gives `yaml` for the `--yaml` arguments in command
      line order: `parseYaml` folded over them, starting from `{}`. */
  function CollectYaml(paths: seq<string>): map<string, string>
    decreases |paths|
  {
    if paths == [] then map[]
    else ParseYaml(paths[|paths| - 1], CollectYaml(paths[..|paths| - 1]))
  }

  /** Each `--yaml` argument leaves its group name among the keys. */
  lemma {:induction false} CollectYamlHasName(paths: seq<string>, i: nat)
    requires i < |paths|
    ensures GroupName(paths[i]) in CollectYaml(paths)
    decreases |paths|
  {
    if i < |paths| - 1 {
      assert paths[..|paths| - 1][i] == paths[i];
      CollectYamlHasName(paths[..|paths| - 1], i);
    }
  }

  /** Every key comes from some `--yaml` argument: `i` is one with that name. */
  lemma {:induction false} CollectYamlNameFrom(paths: seq<string>, name: string) returns (i: nat)
    requires name in CollectYaml(paths)
    ensures i < |paths| && GroupName(paths[i]) == name
    decreases |paths|
  {
    var n := |paths| - 1;
    var init := paths[..n];
    if name == GroupName(paths[n]) {
      i := n;
    } else {
      assert name in CollectYaml(init) by {
        assert CollectYaml(paths) == ParseYaml(paths[n], CollectYaml(init));
      }
      i := CollectYamlNameFrom(init, name);
      assert paths[i] == init[i];
    }
  }

  /** Every `--yaml` argument contributes its group name, and nothing else does. */
  lemma CollectYamlKeys(paths: seq<string>, name: string)
    ensures name in CollectYaml(paths)
            <==> exists i :: 0 <= i < |paths| && GroupName(paths[i]) == name
  {
    if name in CollectYaml(paths) {
      var i := CollectYamlNameFrom(paths, name);
    }
    if exists i :: 0 <= i < |paths| && GroupName(paths[i]) == name {
      var i :| 0 <= i < |paths| && GroupName(paths[i]) == name;
      CollectYamlHasName(paths, i);
    }
  }

  /** For a repeated group name the last `--yaml` argument wins. */
  lemma {:induction false} CollectYamlLastWins(paths: seq<string>, i: nat)
    requires i < |paths|
    requires forall j :: i < j < |paths| ==> GroupName(paths[j]) != GroupName(paths[i])
    ensures GroupName(paths[i]) in CollectYaml(paths)
    ensures CollectYaml(paths)[GroupName(paths[i])] == paths[i]
    decreases |paths|
  {
    if i < |paths| - 1 {
      var init := paths[..|paths| - 1];
      assert init[i] == paths[i];
      assert forall j :: i < j < |init| ==> init[j] == paths[j];
      CollectYamlLastWins(init, i);
    }
  }

  /** No `--yaml` argument leaves the accumulator empty, and any one fills it. */
  lemma CollectYamlEmpty(paths: seq<string>)
    ensures CollectYaml(paths) == map[] <==> paths == []
  {
    if paths != [] {
      CollectYamlHasName(paths, 0);
    }
  }

  /** JavaScript truthiness of an optional string option: absent and "" are false. */
  predicate Truthy(o: Option<string>)
  {
    o.Some? && o.value != ""
  }

  datatype Mode = Usage | YamlMode | SingleFileMode

  /** bin/generate.js:25 and :34: usage error without a config and without any
      group, the YAML pipeline without a config, the single-file pipeline
      whenever a config is given. */
  function SelectMode(config: Option<string>, yaml: map<string, string>): Mode
  {
    if !Truthy(config) && yaml == map[] then Usage
    else if !Truthy(config) then YamlMode
    else SingleFileMode
  }

  /** How the process ends: `process.exit(code)`, or an uncaught exception. */
  datatype Status = Exited(code: int) | Crashed

  const USAGE_EXIT: int := 1
  const OUTPUT_DIR_EXIT: int := 127

  /** What a run leaves behind: how it ended, whether the bundled site was
      copied into the output directory, the path `insomnia.json` was copied
      from, the path `logo.png` was copied from, and the files of the YAML
      pipeline. */
  datatype Outcome = Outcome(
    status: Status,
    site: bool,
    insomnia: Option<string>,
    logo: Option<string>,
    groups: map<string, seq<Doc>>)

  /** Where the single-file pipeline copies the export and the logo to. */
  const INSOMNIA_FILE: string := "insomnia.json"
  const LOGO_FILE: string := "logo.png"

  /** bin/generate.js:73-97, once `mkdirp` calls back: exit 127 on an error,
      then the site, the export and, when a logo was given, the logo are
      copied in that order; a copy that throws ends the process there. */
  function SingleFile(config: string, logo: Option<string>, host: Host): (r: Outcome)
    ensures r.groups == map[]
    ensures r.status == Exited(OUTPUT_DIR_EXIT) <==> !host.outputDirOk
    ensures r.status == Exited(0) <==>
      host.outputDirOk && host.templateOk && host.copyable(config, INSOMNIA_FILE)
      && (Truthy(logo) ==> host.copyable(logo.value, LOGO_FILE))
    ensures r.status.Exited? ==> r.status.code == 0 || r.status.code == OUTPUT_DIR_EXIT
    ensures r.site <==> host.outputDirOk && host.templateOk
    ensures r.insomnia.Some? <==> r.site && host.copyable(config, INSOMNIA_FILE)
    ensures r.insomnia.Some? ==> r.insomnia == Some(config)
    ensures r.logo.Some? <==> r.insomnia.Some? && Truthy(logo) && host.copyable(logo.value, LOGO_FILE)
    ensures r.logo.Some? ==> r.logo == logo
  {
    if !host.outputDirOk then Outcome(Exited(OUTPUT_DIR_EXIT), false, None, None, map[])
    else if !host.templateOk then Outcome(Crashed, false, None, None, map[])
    else if !host.copyable(config, INSOMNIA_FILE) then Outcome(Crashed, true, None, None, map[])
    else if !Truthy(logo) then Outcome(Exited(0), true, Some(config), None, map[])
    else if !host.copyable(logo.value, LOGO_FILE) then Outcome(Crashed, true, Some(config), None, map[])
    else Outcome(Exited(0), true, Some(config), logo, map[])
  }

  /** One run of the tool with the given `--config`, `--logo` and `--yaml`
      arguments (paths already resolved). */
  function Invoke(config: Option<string>, logo: Option<string>, yamlPaths: seq<string>, host: Host): Outcome
  {
    var yaml := CollectYaml(yamlPaths);
    match SelectMode(config, yaml)
    case Usage => Outcome(Exited(USAGE_EXIT), false, None, None, map[])
    case YamlMode => Outcome(Exited(0), false, None, None, YamlPipeline.YamlOutput(yaml, host))
    case SingleFileMode => SingleFile(config.value, logo, host)
  }

  /** The pipeline chosen for a command line. */
  lemma ModeSelection(config: Option<string>, yamlPaths: seq<string>)
    ensures SelectMode(config, CollectYaml(yamlPaths)) == Usage <==> !Truthy(config) && yamlPaths == []
    ensures SelectMode(config, CollectYaml(yamlPaths)) == YamlMode <==> !Truthy(config) && yamlPaths != []
    ensures SelectMode(config, CollectYaml(yamlPaths)) == SingleFileMode <==> Truthy(config)
  {
    CollectYamlEmpty(yamlPaths);
  }

  /** The outcome of a run, pipeline by pipeline. */
  lemma InvokeByMode(config: Option<string>, logo: Option<string>, yamlPaths: seq<string>, host: Host)
    ensures !Truthy(config) && yamlPaths == [] ==>
      Invoke(config, logo, yamlPaths, host) == Outcome(Exited(USAGE_EXIT), false, None, None, map[])
    ensures !Truthy(config) && yamlPaths != [] ==>
      Invoke(config, logo, yamlPaths, host)
        == Outcome(Exited(0), false, None, None, YamlPipeline.YamlOutput(CollectYaml(yamlPaths), host))
    ensures Truthy(config) ==> Invoke(config, logo, yamlPaths, host) == SingleFile(config.value, logo, host)
  {
    ModeSelection(config, yamlPaths);
  }

  /** `process.exit(1)` (bin/generate.js:27) is reached exactly when neither a
      config nor any `--yaml` argument is given. */
  lemma UsageExit(config: Option<string>, logo: Option<string>, yamlPaths: seq<string>, host: Host)
    ensures Invoke(config, logo, yamlPaths, host).status == Exited(USAGE_EXIT)
            <==> !Truthy(config) && yamlPaths == []
  {
    InvokeByMode(config, logo, yamlPaths, host);
  }

  /** Without a config, the YAML pipeline runs, ends with `process.exit()`
      and writes exactly the groups whose `try` block completes. */
  lemma YamlRun(config: Option<string>, logo: Option<string>, yamlPaths: seq<string>, host: Host)
    requires !Truthy(config) && yamlPaths != []
    ensures var r := Invoke(config, logo, yamlPaths, host);
      && r.status == Exited(0)
      && r.groups == YamlPipeline.YamlOutput(CollectYaml(yamlPaths), host)
      && !r.site && r.insomnia.None? && r.logo.None?
  {
    InvokeByMode(config, logo, yamlPaths, host);
  }

  /** A config selects the single-file pipeline whatever `--yaml` says. */
  lemma ConfigWins(config: Option<string>, logo: Option<string>, yamlPaths: seq<string>, host: Host)
    requires Truthy(config)
    ensures Invoke(config, logo, yamlPaths, host) == Invoke(config, logo, [], host)
    ensures Invoke(config, logo, yamlPaths, host).groups == map[]
  {
    InvokeByMode(config, logo, yamlPaths, host);
    InvokeByMode(config, logo, [], host);
  }

  /** `logo.png` is written only when a config and a logo were given, and then
      it is a copy of that logo; it is written whenever both are given, every
      earlier step succeeds and the logo copy itself succeeds. */
  lemma LogoOnlyWhenGiven(config: Option<string>, logo: Option<string>, yamlPaths: seq<string>, host: Host)
    ensures Invoke(config, logo, yamlPaths, host).logo.Some? ==>
      Truthy(config) && Truthy(logo) && Invoke(config, logo, yamlPaths, host).logo == logo
    ensures (Truthy(config) && Truthy(logo) && host.outputDirOk && host.templateOk
      && host.copyable(config.value, INSOMNIA_FILE) && host.copyable(logo.value, LOGO_FILE)) ==>
      Invoke(config, logo, yamlPaths, host).logo == logo
      && Invoke(config, logo, yamlPaths, host).status == Exited(0)
  {
    InvokeByMode(config, logo, yamlPaths, host);
  }

  /** With a config, exit code 127 exactly when the output directory cannot
      be created. */
  lemma OutputDirExit(config: Option<string>, logo: Option<string>, yamlPaths: seq<string>, host: Host)
    requires Truthy(config)
    ensures Invoke(config, logo, yamlPaths, host).status == Exited(OUTPUT_DIR_EXIT) <==> !host.outputDirOk
  {
    InvokeByMode(config, logo, yamlPaths, host);
  }
}
