/** The current `ProjectGenerationBuilder`: configuration calls fold over a
    record, `generate` writes the project files in a fixed order, runs Gradle
    once and checks the output for success. */
module ProjectGenerationBuilder {
  import opened Wrappers
  import opened Commands
  import opened FileSystem
  import opened Gradle
  import ProjectBuildResult

  /** The builder's private fields and its two public flags. */
  datatype Config = Config(
    localProperties: seq<Property>,
    buildScript: string,
    task: string,
    sources: seq<Write>,
    settings: Option<string>,
    assertBuild: bool,
    printOutput: bool)

  const Defaults := Config([], "", DefaultTask, [], None, true, true)

  /** A builder over the project directory `root`, with its configuration. */
  datatype Builder = Builder(root: Files, config: Config)

  /** `create(fileForGeneration)`: a builder with every field at its default. */
  function Create(root: Files): (b: Builder)
    ensures b.root == root
    ensures b.config.localProperties == [] && b.config.sources == []
    ensures b.config.buildScript == "" && b.config.settings.None?
    ensures b.config.task == DefaultTask && b.config.assertBuild && b.config.printOutput
  {
    Builder(root, Defaults)
  }

  /** One call in the configuration block. */
  datatype Command =
    | AddKeyLocalProperties(key: string, value: string)
    | BuildScript(script: string)
    | AdditionalSource(path: Path, content: string)
    | AdditionalSourceFromFile(sourcePath: Path, file: Path)
    | Settings(settingsContent: string)
    | GradleTask(arg: string)
    | SetAssertBuild(assertBuild: bool)
    | SetPrint(printOn: bool)

  /** One call applied to the configuration. `host` is the file system the
      block runs on: `additionalSource(path, file)` reads `file` there at the
      time of the call, and fails when it is not a readable file. */
  function Apply(host: Files, c: Config, cmd: Command): (r: Result<Config, Failure>)
    ensures r.Failure? <==> cmd.AdditionalSourceFromFile? && cmd.file !in host
    ensures r.Failure? ==> r.error == SourceUnreadable(cmd.file)
  {
    match cmd
    case AddKeyLocalProperties(k, v) => Success(c.(localProperties := c.localProperties + [(k, v)]))
    case BuildScript(s) => Success(c.(buildScript := s))
    case AdditionalSource(p, text) => Success(c.(sources := c.sources + [(p, text)]))
    case AdditionalSourceFromFile(p, f) =>
      if f in host then Success(c.(sources := c.sources + [(p, host[f])]))
      else Failure(SourceUnreadable(f))
    case Settings(s) => Success(c.(settings := Some(s)))
    case GradleTask(a) => Success(c.(task := a))
    case SetAssertBuild(on) => Success(c.(assertBuild := on))
    case SetPrint(on) => Success(c.(printOutput := on))
  }

  /** The block's calls in order, from the defaults; the first failing call
      ends the block. */
  function Configure(host: Files, calls: seq<Command>): (r: Result<Config, Failure>)
    ensures r.Failure? ==> r.error.SourceUnreadable?
    decreases |calls|
  {
    if |calls| == 0 then Success(Defaults)
    else
      match Configure(host, calls[..|calls| - 1])
      case Failure(e) => Failure(e)
      case Success(c) => Apply(host, c, calls[|calls| - 1])
  }

  // ---------------------------------------------------------------------------
  // Per-field readings of the calls
  // ---------------------------------------------------------------------------

  function PropertyOf(cmd: Command): Option<Property> {
    if cmd.AddKeyLocalProperties? then Some((cmd.key, cmd.value)) else None
  }

  function ScriptOf(cmd: Command): Option<string> {
    if cmd.BuildScript? then Some(cmd.script) else None
  }

  function SettingsOf(cmd: Command): Option<string> {
    if cmd.Settings? then Some(cmd.settingsContent) else None
  }

  function TaskOf(cmd: Command): Option<string> {
    if cmd.GradleTask? then Some(cmd.arg) else None
  }

  function AssertBuildOf(cmd: Command): Option<bool> {
    if cmd.SetAssertBuild? then Some(cmd.assertBuild) else None
  }

  function PrintOf(cmd: Command): Option<bool> {
    if cmd.SetPrint? then Some(cmd.printOn) else None
  }

  /** The source a call adds, with a file's text as `host` holds it. */
  function SourceOf(host: Files) : Command -> Option<Write> {
    (cmd: Command) =>
      match cmd
      case AdditionalSource(p, text) => Some((p, text))
      case AdditionalSourceFromFile(p, f) => if f in host then Some((p, host[f])) else None
      case _ => None
  }

  /** Every file the calls read exists in `host`. */
  predicate FilesReadable(host: Files, calls: seq<Command>) {
    forall i :: 0 <= i < |calls| && calls[i].AdditionalSourceFromFile? ==> calls[i].file in host
  }

  /** The configuration the calls give, field by field: setters are "last
      call wins" over their default, adders keep every value in call order. */
  function Expected(host: Files, calls: seq<Command>): Config {
    Config(
      Collect(calls, PropertyOf),
      LastOf(calls, ScriptOf).GetOr(""),
      LastOf(calls, TaskOf).GetOr(DefaultTask),
      Collect(calls, SourceOf(host)),
      LastOf(calls, SettingsOf),
      LastOf(calls, AssertBuildOf).GetOr(true),
      LastOf(calls, PrintOf).GetOr(true))
  }

  /** The block succeeds exactly when every file it reads is there, and then
      yields the per-field readings of its calls. */
  lemma {:induction false} ConfigureReadings(host: Files, calls: seq<Command>)
    ensures Configure(host, calls).Success? <==> FilesReadable(host, calls)
    ensures Configure(host, calls).Success? ==> Configure(host, calls).value == Expected(host, calls)
    decreases |calls|
  {
    if |calls| > 0 {
      var prefix, cmd := calls[..|calls| - 1], calls[|calls| - 1];
      ConfigureReadings(host, prefix);
      ReadableSnoc(host, prefix, cmd);
      assert prefix + [cmd] == calls;
      if Configure(host, prefix).Success? && (cmd.AdditionalSourceFromFile? ==> cmd.file in host) {
        ExpectedSnoc(host, prefix, cmd);
      }
    }
  }

  lemma ReadableSnoc(host: Files, calls: seq<Command>, cmd: Command)
    ensures FilesReadable(host, calls + [cmd])
            <==> FilesReadable(host, calls) && (cmd.AdditionalSourceFromFile? ==> cmd.file in host)
  {
    assert forall i :: 0 <= i < |calls| ==> (calls + [cmd])[i] == calls[i];
    assert (calls + [cmd])[|calls|] == cmd;
  }

  /** One more call moves the per-field readings as `Apply` moves the record. */
  lemma ExpectedSnoc(host: Files, calls: seq<Command>, cmd: Command)
    requires cmd.AdditionalSourceFromFile? ==> cmd.file in host
    ensures Apply(host, Expected(host, calls), cmd) == Success(Expected(host, calls + [cmd]))
  {
    var e, e' := Expected(host, calls), Expected(host, calls + [cmd]);
    assert e'.localProperties == e.localProperties + (if PropertyOf(cmd).Some? then [PropertyOf(cmd).value] else []) by {
      CollectSnoc(calls, cmd, PropertyOf);
    }
    assert e'.sources == e.sources + (if SourceOf(host)(cmd).Some? then [SourceOf(host)(cmd).value] else []) by {
      CollectSnoc(calls, cmd, SourceOf(host));
    }
    assert e'.buildScript == (if cmd.BuildScript? then cmd.script else e.buildScript) by {
      LastOfSnoc(calls, cmd, ScriptOf);
    }
    assert e'.task == (if cmd.GradleTask? then cmd.arg else e.task) by {
      LastOfSnoc(calls, cmd, TaskOf);
    }
    assert e'.settings == (if cmd.Settings? then Some(cmd.settingsContent) else e.settings) by {
      LastOfSnoc(calls, cmd, SettingsOf);
    }
    assert e'.assertBuild == (if cmd.SetAssertBuild? then cmd.assertBuild else e.assertBuild) by {
      LastOfSnoc(calls, cmd, AssertBuildOf);
    }
    assert e'.printOutput == (if cmd.SetPrint? then cmd.printOn else e.printOutput) by {
      LastOfSnoc(calls, cmd, PrintOf);
    }
  }

  /** When the block fails, it fails on the first file it cannot read. */
  lemma {:induction false} ConfigureFailsOnFirstMissingFile(host: Files, calls: seq<Command>)
    ensures Configure(host, calls).Failure? ==>
              exists i :: 0 <= i < |calls| && calls[i].AdditionalSourceFromFile? && calls[i].file !in host
                          && Configure(host, calls).error == SourceUnreadable(calls[i].file)
                          && FilesReadable(host, calls[..i])
    decreases |calls|
  {
    if |calls| > 0 {
      var prefix := calls[..|calls| - 1];
      ConfigureFailsOnFirstMissingFile(host, prefix);
      ConfigureReadings(host, prefix);
      if Configure(host, prefix).Failure? {
        var i :| 0 <= i < |prefix| && prefix[i].AdditionalSourceFromFile? && prefix[i].file !in host
                 && Configure(host, prefix).error == SourceUnreadable(prefix[i].file)
                 && FilesReadable(host, prefix[..i]);
        assert calls[..i] == prefix[..i];
        assert calls[i] == prefix[i];
      } else {
        assert calls[..|calls| - 1] == prefix;
      }
    }
  }

  /** `additionalSource(path, file)` is `additionalSource(path, text)` with the
      file's text at the time of the call. */
  lemma SourceFromFileIsSourceWithText(host: Files, calls: seq<Command>, path: Path, file: Path)
    requires file in host
    ensures Configure(host, calls + [AdditionalSourceFromFile(path, file)])
            == Configure(host, calls + [AdditionalSource(path, host[file])])
  {
    assert (calls + [AdditionalSourceFromFile(path, file)])[..|calls|] == calls;
    assert (calls + [AdditionalSource(path, host[file])])[..|calls|] == calls;
  }

  // ---------------------------------------------------------------------------
  // generate
  // ---------------------------------------------------------------------------

  /** The configuration-file writes of `generate`, in order:
      `local.properties` when it has content, `build.gradle.kts` always,
      `settings.gradle.kts` when set. */
  function ConfigPlan(c: Config): (plan: seq<Write>)
    ensures 1 <= |plan| <= 3
  {
    var props := LocalPropertiesContent(c.localProperties);
    (if props != "" then [(LocalPropertiesPath, props)] else [])
    + [(BuildScriptPath, c.buildScript)]
    + (if c.settings.Some? then [(SettingsPath, c.settings.value)] else [])
  }

  /** All writes of `generate`: the configuration files, then every source
      at its path relative to the root, in call order. */
  function WritePlan(c: Config): (plan: seq<Write>)
    ensures |plan| >= 1 + |c.sources|
    ensures plan[|plan| - |c.sources|..] == c.sources
    ensures Writes(plan, BuildScriptPath)
    ensures Writes(plan, LocalPropertiesPath) <==> c.localProperties != [] || !NoSourceAt(c, LocalPropertiesPath)
    ensures Writes(plan, SettingsPath) <==> c.settings.Some? || !NoSourceAt(c, SettingsPath)
  {
    var plan := ConfigPlan(c) + c.sources;
    WritePlanPaths(c, plan);
    plan
  }

  lemma WritePlanPaths(c: Config, plan: seq<Write>)
    requires plan == ConfigPlan(c) + c.sources
    ensures Writes(plan, BuildScriptPath)
    ensures Writes(plan, LocalPropertiesPath) <==> c.localProperties != [] || !NoSourceAt(c, LocalPropertiesPath)
    ensures Writes(plan, SettingsPath) <==> c.settings.Some? || !NoSourceAt(c, SettingsPath)
  {
    var props := LocalPropertiesContent(c.localProperties);
    var a: seq<Write> := if props != "" then [(LocalPropertiesPath, props)] else [];
    var m: seq<Write> := [(BuildScriptPath, c.buildScript)];
    var z: seq<Write> := if c.settings.Some? then [(SettingsPath, c.settings.value)] else [];
    assert plan == a + (m + (z + c.sources));
    assert plan[|a|].0 == BuildScriptPath;
    WritesAppend(a, m + (z + c.sources), LocalPropertiesPath);
    WritesAppend(m, z + c.sources, LocalPropertiesPath);
    WritesAppend(z, c.sources, LocalPropertiesPath);
    WritesAppend(a, m + (z + c.sources), SettingsPath);
    WritesAppend(m, z + c.sources, SettingsPath);
    WritesAppend(z, c.sources, SettingsPath);
    assert Writes(z, SettingsPath) <==> c.settings.Some? by {
      if c.settings.Some? { assert z[0].0 == SettingsPath; }
    }
    assert Writes(a, LocalPropertiesPath) <==> props != "" by {
      if props != "" { assert a[0].0 == LocalPropertiesPath; }
    }
  }

  /** The configuration files as direct updates of the directory: a
      reference reading of the configuration part of the plan. */
  function ConfigFiles(root: Files, c: Config): Files {
    var props := LocalPropertiesContent(c.localProperties);
    var withProps := if c.localProperties != [] then root[LocalPropertiesPath := props] else root;
    var withScript := withProps[BuildScriptPath := c.buildScript];
    if c.settings.Some? then withScript[SettingsPath := c.settings.value] else withScript
  }

  /** The three configuration paths differ, so the plan's writes to them
      never override one another. */
  lemma ConfigPlanWrites(root: Files, c: Config)
    ensures FileSystem.Apply(root, ConfigPlan(c)) == ConfigFiles(root, c)
  {
    var props := LocalPropertiesContent(c.localProperties);
    var a: seq<Write> := if props != "" then [(LocalPropertiesPath, props)] else [];
    var s: seq<Write> := if c.settings.Some? then [(SettingsPath, c.settings.value)] else [];
    var mid := a + [(BuildScriptPath, c.buildScript)];
    assert ConfigPlan(c) == mid + s;
    ApplyAppend(root, mid, s);
    ApplyAppend(root, a, [(BuildScriptPath, c.buildScript)]);
    if s != [] {
      assert FileSystem.Apply(FileSystem.Apply(root, mid), s)
             == FileSystem.Apply(root, mid)[SettingsPath := c.settings.value];
    }
    assert FileSystem.Apply(FileSystem.Apply(root, a), [(BuildScriptPath, c.buildScript)])
           == FileSystem.Apply(root, a)[BuildScriptPath := c.buildScript];
    if a != [] {
      assert FileSystem.Apply(root, a) == root[LocalPropertiesPath := props];
    }
  }

  /** The directory Gradle runs on: nothing that existed is removed, and the
      paths are the old ones and the written ones. */
  function Written(b: Builder): (r: Files)
    ensures forall p :: Exists(b.root, p) ==> Exists(r, p)
    ensures forall p :: p in r <==> p in b.root || Writes(WritePlan(b.config), p)
  {
    var plan := WritePlan(b.config);
    ApplyKeepsExisting(b.root, plan);
    assert forall p :: p in FileSystem.Apply(b.root, plan) <==> p in b.root || Writes(plan, p) by {
      forall p ensures p in FileSystem.Apply(b.root, plan) <==> p in b.root || Writes(plan, p) {
        ApplyKeys(b.root, plan, p);
      }
    }
    FileSystem.Apply(b.root, plan)
  }

  /** `generate()`: write the files, run Gradle once with the configured
      task, fail when the build fails, and under `isAssertBuild` fail unless
      the output reports success. The result wraps the directory after the
      build and the run's output. */
  function Generate(b: Builder, runner: Runner): (r: Result<ProjectBuildResult.BuildResult, Failure>)
    ensures var run := runner(Written(b), b.config.task);
            && (r.Failure? <==> run.failed || (b.config.assertBuild && !BuildSucceeded(run.output)))
            && (run.failed ==> r == Failure(UnexpectedBuildFailure(run.output)))
            && (r.Failure? && !run.failed ==> r.error == BuildAssertionFailed)
            && (r.Success? ==> r.value == ProjectBuildResult.BuildResult(run.projectRoot, run.output))
  {
    var run := runner(Written(b), b.config.task);
    if run.failed then Failure(UnexpectedBuildFailure(run.output))
    else if b.config.assertBuild && !BuildSucceeded(run.output) then Failure(BuildAssertionFailed)
    else Success(ProjectBuildResult.BuildResult(run.projectRoot, run.output))
  }

  /** `testProject(root) { calls }`: create, configure, generate. */
  function TestProject(root: Files, host: Files, calls: seq<Command>, runner: Runner)
    : (r: Result<ProjectBuildResult.BuildResult, Failure>)
    ensures (r.Failure? && r.error.SourceUnreadable?) <==> !FilesReadable(host, calls)
    ensures FilesReadable(host, calls) ==> r == Generate(Builder(root, Expected(host, calls)), runner)
  {
    ConfigureReadings(host, calls);
    match Configure(host, calls)
    case Failure(e) => Failure(e)
    case Success(c) => Generate(Builder(root, c), runner)
  }

  // ---------------------------------------------------------------------------
  // What the generated directory holds
  // ---------------------------------------------------------------------------

  /** No source is written to `p`. */
  predicate NoSourceAt(c: Config, p: Path) {
    forall i :: 0 <= i < |c.sources| ==> c.sources[i].0 != p
  }

  /** What the generated directory holds at `p` when no source goes there:
      what the configuration files give it. */
  lemma WrittenWithoutSource(b: Builder, p: Path)
    requires NoSourceAt(b.config, p)
    ensures Read(Written(b), p) == Read(ConfigFiles(b.root, b.config), p)
  {
    ApplyAppend(b.root, ConfigPlan(b.config), b.config.sources);
    ConfigPlanWrites(b.root, b.config);
    ApplyReads(FileSystem.Apply(b.root, ConfigPlan(b.config)), b.config.sources, p);
  }

  /** `local.properties` holds the joined pairs when there are any and no
      source replaces it; with no pairs it is not written. */
  lemma LocalPropertiesWritten(b: Builder)
    requires NoSourceAt(b.config, LocalPropertiesPath)
    ensures b.config.localProperties != [] ==>
              Read(Written(b), LocalPropertiesPath) == Some(LocalPropertiesContent(b.config.localProperties))
    ensures b.config.localProperties == [] ==>
              Read(Written(b), LocalPropertiesPath) == Read(b.root, LocalPropertiesPath)
  {
    WrittenWithoutSource(b, LocalPropertiesPath);
  }

  /** `build.gradle.kts` always holds the last build script, `""` if none was
      given, unless a source replaces it. */
  lemma BuildScriptWritten(b: Builder)
    requires NoSourceAt(b.config, BuildScriptPath)
    ensures Read(Written(b), BuildScriptPath) == Some(b.config.buildScript)
  {
    WrittenWithoutSource(b, BuildScriptPath);
  }

  /** `settings.gradle.kts` holds the last settings when they were given and
      is not written otherwise, unless a source replaces it. */
  lemma SettingsWritten(b: Builder)
    requires NoSourceAt(b.config, SettingsPath)
    ensures b.config.settings.Some? ==> Read(Written(b), SettingsPath) == b.config.settings
    ensures b.config.settings.None? ==> Read(Written(b), SettingsPath) == Read(b.root, SettingsPath)
  {
    WrittenWithoutSource(b, SettingsPath);
  }

  /** Sources come last in the plan, so the last source to a path decides its
      content, even over a configuration file. */
  lemma LastSourceWins(b: Builder, p: Path)
    requires !NoSourceAt(b.config, p)
    ensures Read(Written(b), p) == LastWrite(b.config.sources, p)
  {
    ApplyAppend(b.root, ConfigPlan(b.config), b.config.sources);
    ApplyReads(FileSystem.Apply(b.root, ConfigPlan(b.config)), b.config.sources, p);
  }

  /** A block that configures nothing still writes an empty build script. */
  lemma EmptyBlockWritesBuildScript(root: Files)
    ensures Written(Create(root)) == root[BuildScriptPath := ""]
  {
    ApplyAppend(root, ConfigPlan(Defaults), []);
    ConfigPlanWrites(root, Defaults);
    assert ConfigPlan(Defaults) + [] == WritePlan(Defaults);
  }

  /** A result comes only from a build that did not fail; with the success
      check on, it always reports success; with it off, the output of any
      build that did not fail is returned. */
  lemma SuccessCheck(b: Builder, runner: Runner)
    ensures var run := runner(Written(b), b.config.task);
            && (Generate(b, runner).Success? ==> !run.failed)
            && (Generate(b, runner).Success? && b.config.assertBuild ==>
                  BuildSucceeded(Generate(b, runner).value.output))
            && (!b.config.assertBuild ==> (Generate(b, runner).Success? <==> !run.failed))
  {
  }

  /** The run leaves the written files as they were (it may add others). */
  predicate KeepsFiles(run: BuildRun, written: Files) {
    forall p :: p in written ==> p in run.projectRoot && run.projectRoot[p] == written[p]
  }

  /** When the build leaves the project files in place, `assertFile` on the
      result finds the build script with exactly its text, and
      `local.properties` with the joined pairs. */
  lemma GeneratedFilesPassAssertFile(b: Builder, runner: Runner)
    requires Generate(b, runner).Success?
    requires KeepsFiles(runner(Written(b), b.config.task), Written(b))
    requires NoSourceAt(b.config, BuildScriptPath) && NoSourceAt(b.config, LocalPropertiesPath)
    ensures var result := Generate(b, runner).value;
            && ProjectBuildResult.AssertFile(result, [ProjectBuildResult.SetPath(BuildScriptPath),
                                                      ProjectBuildResult.SetContentExactly(b.config.buildScript)])
               == ProjectBuildResult.Passed
            && (b.config.localProperties != [] ==>
                  ProjectBuildResult.AssertFile(result, [ProjectBuildResult.SetPath(LocalPropertiesPath),
                                                         ProjectBuildResult.SetContent(LocalPropertiesContent(b.config.localProperties))])
                  == ProjectBuildResult.Passed)
  {
    var root := Generate(b, runner).value.projectRoot;
    BuildScriptWritten(b);
    LocalPropertiesWritten(b);
    ProjectBuildResult.ContentModes(root, BuildScriptPath, b.config.buildScript);
    if b.config.localProperties != [] {
      ProjectBuildResult.ContentModes(root, LocalPropertiesPath, LocalPropertiesContent(b.config.localProperties));
    }
  }
}
