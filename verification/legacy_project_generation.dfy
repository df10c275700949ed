/** The older `ProjectGenerationBuilder` of `impl.kt` and `generateProject`:
    the build script is written only when given, sources go under
    `src/main/kotlin/`, and a `check` hook runs after a successful build. */
module LegacyProjectGeneration {
  import opened Wrappers
  import opened Commands
  import opened FileSystem
  import opened Gradle

  /** The `check` action, taken as an uninterpreted event: the default empty
      lambda, or some action the block supplies. */
  datatype Hook = NoOp | Action(id: nat)

  datatype Config = Config(
    localProperties: seq<Property>,
    buildScript: Option<string>,
    checkAction: Hook,
    task: string,
    sources: seq<Write>,
    settings: Option<string>,
    assertBuild: bool,
    printOutput: bool)

  const Defaults := Config([], None, NoOp, DefaultTask, [], None, true, true)

  /** Where the legacy builder puts every additional source. */
  const SourceRoot: Path := "src/main/kotlin/"

  datatype Command =
    | AddKeyLocalProperties(key: string, value: string)
    | BuildScript(script: string)
    | AdditionalSource(path: Path, content: string)
    | AdditionalSourceFromFile(sourcePath: Path, file: Path)
    | Settings(settingsContent: string)
    | GradleTask(arg: string)
    | Check(action: Hook)
    | SetAssertBuild(assertBuild: bool)
    | SetPrint(printOn: bool)

  /** One call applied to the configuration; reading a file that `host` does
      not hold fails. */
  function Apply(host: Files, c: Config, cmd: Command): (r: Result<Config, Failure>)
    ensures r.Failure? <==> cmd.AdditionalSourceFromFile? && cmd.file !in host
    ensures r.Failure? ==> r.error == SourceUnreadable(cmd.file)
  {
    match cmd
    case AddKeyLocalProperties(k, v) => Success(c.(localProperties := c.localProperties + [(k, v)]))
    case BuildScript(s) => Success(c.(buildScript := Some(s)))
    case AdditionalSource(p, text) => Success(c.(sources := c.sources + [(p, text)]))
    case AdditionalSourceFromFile(p, f) =>
      if f in host then Success(c.(sources := c.sources + [(p, host[f])]))
      else Failure(SourceUnreadable(f))
    case Settings(s) => Success(c.(settings := Some(s)))
    case GradleTask(a) => Success(c.(task := a))
    case Check(h) => Success(c.(checkAction := h))
    case SetAssertBuild(on) => Success(c.(assertBuild := on))
    case SetPrint(on) => Success(c.(printOutput := on))
  }

  /** `builder.block()`: the calls in order from the defaults. */
  function Configure(host: Files, calls: seq<Command>): (r: Result<Config, Failure>)
    ensures r.Failure? ==> r.error.SourceUnreadable?
    decreases |calls|
  {
    if |calls| == 0 then Success(Defaults)
    else
      match Configure(host, calls[..|calls| - 1])
      case Failure(e) => Failure(e)
      case Success(c) => Apply(host, c, calls[|calls| - 1])
  }

  // Per-field readings of the calls.

  function PropertyOf(cmd: Command): Option<Property> {
    if cmd.AddKeyLocalProperties? then Some((cmd.key, cmd.value)) else None
  }

  function ScriptOf(cmd: Command): Option<string> {
    if cmd.BuildScript? then Some(cmd.script) else None
  }

  function HookOf(cmd: Command): Option<Hook> {
    if cmd.Check? then Some(cmd.action) else None
  }

  function TaskOf(cmd: Command): Option<string> {
    if cmd.GradleTask? then Some(cmd.arg) else None
  }

  function SettingsOf(cmd: Command): Option<string> {
    if cmd.Settings? then Some(cmd.settingsContent) else None
  }

  function AssertBuildOf(cmd: Command): Option<bool> {
    if cmd.SetAssertBuild? then Some(cmd.assertBuild) else None
  }

  function PrintOf(cmd: Command): Option<bool> {
    if cmd.SetPrint? then Some(cmd.printOn) else None
  }

  function SourceOf(host: Files) : Command -> Option<Write> {
    (cmd: Command) =>
      match cmd
      case AdditionalSource(p, text) => Some((p, text))
      case AdditionalSourceFromFile(p, f) => if f in host then Some((p, host[f])) else None
      case _ => None
  }

  predicate FilesReadable(host: Files, calls: seq<Command>) {
    forall i :: 0 <= i < |calls| && calls[i].AdditionalSourceFromFile? ==> calls[i].file in host
  }

  /** The configuration the calls give, field by field: the build script and
      the settings stay absent unless set, the hook defaults to the no-op. */
  function Expected(host: Files, calls: seq<Command>): Config {
    Config(
      Collect(calls, PropertyOf),
      LastOf(calls, ScriptOf),
      LastOf(calls, HookOf).GetOr(NoOp),
      LastOf(calls, TaskOf).GetOr(DefaultTask),
      Collect(calls, SourceOf(host)),
      LastOf(calls, SettingsOf),
      LastOf(calls, AssertBuildOf).GetOr(true),
      LastOf(calls, PrintOf).GetOr(true))
  }

  /** The block succeeds exactly when every file it reads is there, and then
      yields the per-field readings of its calls. */
  lemma {:induction false} ConfigureReadings(host: Files, calls: seq<Command>)
    ensures Configure(host, calls).Success? <==> FilesReadable(host, calls)
    ensures Configure(host, calls).Success? ==> Configure(host, calls).value == Expected(host, calls)
    decreases |calls|
  {
    if |calls| > 0 {
      var prefix, cmd := calls[..|calls| - 1], calls[|calls| - 1];
      ConfigureReadings(host, prefix);
      ReadableSnoc(host, prefix, cmd);
      assert prefix + [cmd] == calls;
      if Configure(host, prefix).Success? && (cmd.AdditionalSourceFromFile? ==> cmd.file in host) {
        ExpectedSnoc(host, prefix, cmd);
      }
    }
  }

  lemma ReadableSnoc(host: Files, calls: seq<Command>, cmd: Command)
    ensures FilesReadable(host, calls + [cmd])
            <==> FilesReadable(host, calls) && (cmd.AdditionalSourceFromFile? ==> cmd.file in host)
  {
    assert forall i :: 0 <= i < |calls| ==> (calls + [cmd])[i] == calls[i];
    assert (calls + [cmd])[|calls|] == cmd;
  }

  lemma ExpectedSnoc(host: Files, calls: seq<Command>, cmd: Command)
    requires cmd.AdditionalSourceFromFile? ==> cmd.file in host
    ensures Apply(host, Expected(host, calls), cmd) == Success(Expected(host, calls + [cmd]))
  {
    var e, e' := Expected(host, calls), Expected(host, calls + [cmd]);
    assert e'.localProperties == e.localProperties + (if PropertyOf(cmd).Some? then [PropertyOf(cmd).value] else []) by {
      CollectSnoc(calls, cmd, PropertyOf);
    }
    assert e'.sources == e.sources + (if SourceOf(host)(cmd).Some? then [SourceOf(host)(cmd).value] else []) by {
      CollectSnoc(calls, cmd, SourceOf(host));
    }
    assert e'.buildScript == (if cmd.BuildScript? then Some(cmd.script) else e.buildScript) by {
      LastOfSnoc(calls, cmd, ScriptOf);
    }
    assert e'.checkAction == (if cmd.Check? then cmd.action else e.checkAction) by {
      LastOfSnoc(calls, cmd, HookOf);
    }
    assert e'.task == (if cmd.GradleTask? then cmd.arg else e.task) by {
      LastOfSnoc(calls, cmd, TaskOf);
    }
    assert e'.settings == (if cmd.Settings? then Some(cmd.settingsContent) else e.settings) by {
      LastOfSnoc(calls, cmd, SettingsOf);
    }
    assert e'.assertBuild == (if cmd.SetAssertBuild? then cmd.assertBuild else e.assertBuild) by {
      LastOfSnoc(calls, cmd, AssertBuildOf);
    }
    assert e'.printOutput == (if cmd.SetPrint? then cmd.printOn else e.printOutput) by {
      LastOfSnoc(calls, cmd, PrintOf);
    }
  }

  /** The configuration-file writes: `local.properties` when it has content,
      then `build.gradle.kts` and `settings.gradle.kts` only when given. */
  function ConfigPlan(c: Config): (plan: seq<Write>)
    ensures |plan| <= 3
  {
    var props := LocalPropertiesContent(c.localProperties);
    (if props != "" then [(LocalPropertiesPath, props)] else [])
    + (if c.buildScript.Some? then [(BuildScriptPath, c.buildScript.value)] else [])
    + (if c.settings.Some? then [(SettingsPath, c.settings.value)] else [])
  }

  /** `withKotlinSource`: each source at `src/main/kotlin/<path>`. */
  function SourcePlan(sources: seq<Write>): (plan: seq<Write>)
    ensures |plan| == |sources|
    ensures forall i :: 0 <= i < |plan| ==> plan[i] == (SourceRoot + sources[i].0, sources[i].1)
  {
    seq(|sources|, i requires 0 <= i < |sources| => (SourceRoot + sources[i].0, sources[i].1))
  }

  /** All writes of `generate`: each configuration file exactly when it is
      given (sources cannot reach them), and every source under the source
      root. */
  function WritePlan(c: Config): (plan: seq<Write>)
    ensures Writes(plan, LocalPropertiesPath) <==> c.localProperties != []
    ensures Writes(plan, BuildScriptPath) <==> c.buildScript.Some?
    ensures Writes(plan, SettingsPath) <==> c.settings.Some?
    ensures forall i :: 0 <= i < |c.sources| ==> Writes(plan, SourceRoot + c.sources[i].0)
  {
    var plan := ConfigPlan(c) + SourcePlan(c.sources);
    WritePlanPaths(c, plan);
    plan
  }

  lemma WritePlanPaths(c: Config, plan: seq<Write>)
    requires plan == ConfigPlan(c) + SourcePlan(c.sources)
    ensures Writes(plan, LocalPropertiesPath) <==> c.localProperties != []
    ensures Writes(plan, BuildScriptPath) <==> c.buildScript.Some?
    ensures Writes(plan, SettingsPath) <==> c.settings.Some?
    ensures forall i :: 0 <= i < |c.sources| ==> Writes(plan, SourceRoot + c.sources[i].0)
  {
    var props := LocalPropertiesContent(c.localProperties);
    var a: seq<Write> := if props != "" then [(LocalPropertiesPath, props)] else [];
    var m: seq<Write> := if c.buildScript.Some? then [(BuildScriptPath, c.buildScript.value)] else [];
    var z: seq<Write> := if c.settings.Some? then [(SettingsPath, c.settings.value)] else [];
    assert ConfigPlan(c) == a + (m + z);
    ConfigPathsDiffer();
    ConfigPathInPlan(c, plan, LocalPropertiesPath);
    ConfigPathInPlan(c, plan, BuildScriptPath);
    ConfigPathInPlan(c, plan, SettingsPath);
    WritesAppend(a, m + z, LocalPropertiesPath);
    WritesAppend(a, m + z, BuildScriptPath);
    WritesAppend(a, m + z, SettingsPath);
    WritesAppend(m, z, LocalPropertiesPath);
    WritesAppend(m, z, BuildScriptPath);
    WritesAppend(m, z, SettingsPath);
    assert Writes(a, LocalPropertiesPath) <==> props != "" by {
      if props != "" { assert a[0].0 == LocalPropertiesPath; }
    }
    assert Writes(m, BuildScriptPath) <==> c.buildScript.Some? by {
      if c.buildScript.Some? { assert m[0].0 == BuildScriptPath; }
    }
    assert Writes(z, SettingsPath) <==> c.settings.Some? by {
      if c.settings.Some? { assert z[0].0 == SettingsPath; }
    }
    SourcesInPlan(c, plan);
  }

  /** Sources never write a configuration path. */
  lemma ConfigPathInPlan(c: Config, plan: seq<Write>, q: Path)
    requires plan == ConfigPlan(c) + SourcePlan(c.sources)
    requires q == LocalPropertiesPath || q == BuildScriptPath || q == SettingsPath
    ensures Writes(plan, q) <==> Writes(ConfigPlan(c), q)
  {
    var src := SourcePlan(c.sources);
    forall i | 0 <= i < |src| ensures src[i].0 != q {
      SourcePathsAreUnderSourceRoot(c.sources, i);
    }
    WritesAppend(ConfigPlan(c), src, q);
  }

  lemma SourcesInPlan(c: Config, plan: seq<Write>)
    requires plan == ConfigPlan(c) + SourcePlan(c.sources)
    ensures forall i :: 0 <= i < |c.sources| ==> Writes(plan, SourceRoot + c.sources[i].0)
  {
    var n := |ConfigPlan(c)|;
    forall i | 0 <= i < |c.sources| ensures Writes(plan, SourceRoot + c.sources[i].0) {
      assert plan[n + i] == SourcePlan(c.sources)[i];
    }
  }

  /** The configuration files as direct updates of the directory. */
  function ConfigFiles(root: Files, c: Config): Files {
    var props := LocalPropertiesContent(c.localProperties);
    var withProps := if c.localProperties != [] then root[LocalPropertiesPath := props] else root;
    var withScript := if c.buildScript.Some? then withProps[BuildScriptPath := c.buildScript.value] else withProps;
    if c.settings.Some? then withScript[SettingsPath := c.settings.value] else withScript
  }

  lemma ConfigPlanWrites(root: Files, c: Config)
    ensures FileSystem.Apply(root, ConfigPlan(c)) == ConfigFiles(root, c)
  {
    var props := LocalPropertiesContent(c.localProperties);
    var a: seq<Write> := if props != "" then [(LocalPropertiesPath, props)] else [];
    var b: seq<Write> := if c.buildScript.Some? then [(BuildScriptPath, c.buildScript.value)] else [];
    var s: seq<Write> := if c.settings.Some? then [(SettingsPath, c.settings.value)] else [];
    assert ConfigPlan(c) == (a + b) + s;
    ApplyAppend(root, a + b, s);
    ApplyAppend(root, a, b);
    if s != [] {
      assert FileSystem.Apply(FileSystem.Apply(root, a + b), s)
             == FileSystem.Apply(root, a + b)[SettingsPath := c.settings.value];
    }
    if b != [] {
      assert FileSystem.Apply(FileSystem.Apply(root, a), b)
             == FileSystem.Apply(root, a)[BuildScriptPath := c.buildScript.value];
    }
    if a != [] {
      assert FileSystem.Apply(root, a) == root[LocalPropertiesPath := props];
    }
  }

  /** The directory Gradle runs on: nothing that existed is removed, and the
      paths are the old ones and the written ones. */
  function Written(root: Files, c: Config): (r: Files)
    ensures forall p :: Exists(root, p) ==> Exists(r, p)
    ensures forall p :: p in r <==> p in root || Writes(WritePlan(c), p)
  {
    var plan := WritePlan(c);
    ApplyKeepsExisting(root, plan);
    assert forall p :: p in FileSystem.Apply(root, plan) <==> p in root || Writes(plan, p) by {
      forall p ensures p in FileSystem.Apply(root, plan) <==> p in root || Writes(plan, p) {
        ApplyKeys(root, plan, p);
      }
    }
    FileSystem.Apply(root, plan)
  }

  /** What `generate` returns: the raw build output, and the hook that ran
      once after the success check and the print. */
  datatype Generated = Generated(output: string, hookRan: Hook)

  /** `generate()`: write, run once, fail when the build fails, check for
      success, then run the hook, which is taken never to throw. */
  function Generate(root: Files, c: Config, runner: Runner): (r: Result<Generated, Failure>)
    ensures var run := runner(Written(root, c), c.task);
            && (r.Failure? <==> run.failed || (c.assertBuild && !BuildSucceeded(run.output)))
            && (run.failed ==> r == Failure(UnexpectedBuildFailure(run.output)))
            && (r.Failure? && !run.failed ==> r.error == BuildAssertionFailed)
            && (r.Success? ==> r.value == Generated(run.output, c.checkAction))
  {
    var run := runner(Written(root, c), c.task);
    if run.failed then Failure(UnexpectedBuildFailure(run.output))
    else if c.assertBuild && !BuildSucceeded(run.output) then Failure(BuildAssertionFailed)
    else Success(Generated(run.output, c.checkAction))
  }

  /** `generateProject(fileForGeneration, block)`. */
  function GenerateProject(root: Files, host: Files, calls: seq<Command>, runner: Runner)
    : (r: Result<Generated, Failure>)
    ensures (r.Failure? && r.error.SourceUnreadable?) <==> !FilesReadable(host, calls)
    ensures FilesReadable(host, calls) ==> r == Generate(root, Expected(host, calls), runner)
  {
    ConfigureReadings(host, calls);
    match Configure(host, calls)
    case Failure(e) => Failure(e)
    case Success(c) => Generate(root, c, runner)
  }

  /** A source path never names a configuration file, since it always lies
      under `src/main/kotlin/`. */
  lemma SourcePathsAreUnderSourceRoot(sources: seq<Write>, i: int)
    requires 0 <= i < |sources|
    ensures var p := SourcePlan(sources)[i].0;
            p[..|SourceRoot|] == SourceRoot
            && p != LocalPropertiesPath && p != BuildScriptPath && p != SettingsPath
  {
    var p := SourcePlan(sources)[i].0;
    assert p[..|SourceRoot|] == SourceRoot;
    assert p[0] == 's' && p[1] == 'r';
  }

  /** Whatever the sources, the configuration files hold what the
      configuration gives them: sources cannot override them. */
  lemma ConfigFilesKept(root: Files, c: Config, p: Path)
    requires p == LocalPropertiesPath || p == BuildScriptPath || p == SettingsPath
    ensures Read(Written(root, c), p) == Read(ConfigFiles(root, c), p)
  {
    ApplyAppend(root, ConfigPlan(c), SourcePlan(c.sources));
    ConfigPlanWrites(root, c);
    forall i | 0 <= i < |SourcePlan(c.sources)| ensures SourcePlan(c.sources)[i].0 != p {
      SourcePathsAreUnderSourceRoot(c.sources, i);
    }
    ApplyReads(FileSystem.Apply(root, ConfigPlan(c)), SourcePlan(c.sources), p);
  }

  /** `local.properties` is written exactly when pairs were added, and the
      build script and the settings only when they were given. */
  lemma ConfigFilesWritten(root: Files, c: Config)
    ensures Read(Written(root, c), LocalPropertiesPath)
            == if c.localProperties != [] then Some(LocalPropertiesContent(c.localProperties))
               else Read(root, LocalPropertiesPath)
    ensures Read(Written(root, c), BuildScriptPath)
            == if c.buildScript.Some? then c.buildScript else Read(root, BuildScriptPath)
    ensures Read(Written(root, c), SettingsPath)
            == if c.settings.Some? then c.settings else Read(root, SettingsPath)
  {
    ConfigFilesKept(root, c, LocalPropertiesPath);
    ConfigFilesKept(root, c, BuildScriptPath);
    ConfigFilesKept(root, c, SettingsPath);
  }

  /** Every other path keeps its old text: generation touches only the
      configuration files and the sources under `src/main/kotlin/`. */
  lemma UnwrittenPathsKept(root: Files, c: Config, p: Path)
    requires p != LocalPropertiesPath && p != BuildScriptPath && p != SettingsPath
    requires forall i :: 0 <= i < |c.sources| ==> SourceRoot + c.sources[i].0 != p
    ensures Read(Written(root, c), p) == Read(root, p)
  {
    ApplyAppend(root, ConfigPlan(c), SourcePlan(c.sources));
    ConfigPlanWrites(root, c);
    var plan := SourcePlan(c.sources);
    assert LastWrite(plan, p).None? by {
      assert forall i :: 0 <= i < |plan| ==> plan[i].0 == SourceRoot + c.sources[i].0;
    }
    assert Read(ConfigFiles(root, c), p) == Read(root, p);
    ApplyReads(FileSystem.Apply(root, ConfigPlan(c)), plan, p);
  }

  /** The last source to a path decides the content at `src/main/kotlin/<path>`. */
  lemma LastSourceWins(root: Files, c: Config, p: Path)
    requires exists i :: 0 <= i < |c.sources| && c.sources[i].0 == p
    ensures Read(Written(root, c), SourceRoot + p) == LastWrite(c.sources, p)
  {
    var plan := SourcePlan(c.sources);
    ApplyAppend(root, ConfigPlan(c), plan);
    ApplyReads(FileSystem.Apply(root, ConfigPlan(c)), plan, SourceRoot + p);
    PrefixedLastWrite(c.sources, p);
  }

  /** Prefixing every path keeps which write is the last to each path. */
  lemma {:induction false} PrefixedLastWrite(sources: seq<Write>, p: Path)
    ensures LastWrite(SourcePlan(sources), SourceRoot + p) == LastWrite(sources, p)
    decreases |sources|
  {
    if |sources| > 0 {
      var prefix, w := sources[..|sources| - 1], sources[|sources| - 1];
      PrefixedLastWrite(prefix, p);
      assert SourcePlan(sources) == SourcePlan(prefix) + [(SourceRoot + w.0, w.1)];
      assert sources == prefix + [w];
      LastOfSnoc(prefix, w, (x: Write) => if x.0 == p then Some(x.1) else None);
      LastOfSnoc(SourcePlan(prefix), (SourceRoot + w.0, w.1),
                 (x: Write) => if x.0 == SourceRoot + p then Some(x.1) else None);
      assert SourceRoot + w.0 == SourceRoot + p ==> w.0 == p by {
        if SourceRoot + w.0 == SourceRoot + p {
          assert w.0 == (SourceRoot + w.0)[|SourceRoot|..];
        }
      }
    }
  }

  /** `generateProject` with the default empty block writes nothing before
      the build runs, and its hook is the no-op. */
  lemma EmptyBlockWritesNothing(root: Files, host: Files, runner: Runner)
    ensures Configure(host, []) == Success(Defaults)
    ensures Written(root, Defaults) == root
    ensures GenerateProject(root, host, [], runner).Success? ==>
              GenerateProject(root, host, [], runner).value.hookRan == NoOp
  {
    assert WritePlan(Defaults) == [];
  }

  /** The hook that runs is the last one given to `check`, and it runs only
      when the build did not fail and the success check passed. */
  lemma HookAfterSuccessCheck(root: Files, host: Files, calls: seq<Command>, runner: Runner)
    ensures var r := GenerateProject(root, host, calls, runner);
            && (r.Success? ==> r.value.hookRan == LastOf(calls, HookOf).GetOr(NoOp))
            && (r.Success? ==> !runner(Written(root, Expected(host, calls)), Expected(host, calls).task).failed)
            && (r.Success? && LastOf(calls, AssertBuildOf).GetOr(true) ==> BuildSucceeded(r.value.output))
  {
    ConfigureReadings(host, calls);
  }
}
