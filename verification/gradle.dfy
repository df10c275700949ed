/** What the two project builders share: the files they generate, the
    `local.properties` format, the Gradle run as an opaque oracle, and the
    success check on its output. */
module Gradle {
  import opened Wrappers
  import opened Text
  import opened FileSystem

  const LocalPropertiesPath: Path := "local.properties"
  const BuildScriptPath: Path := "build.gradle.kts"
  const SettingsPath: Path := "settings.gradle.kts"

  /** The three configuration files are different files. */
  lemma ConfigPathsDiffer()
    ensures LocalPropertiesPath != BuildScriptPath && LocalPropertiesPath != SettingsPath
    ensures BuildScriptPath != SettingsPath
  {
    assert LocalPropertiesPath[0] == 'l' && BuildScriptPath[0] == 'b' && SettingsPath[0] == 's';
  }

  /** The single argument passed to Gradle unless `gradleTask` replaces it. */
  const DefaultTask: string := "build"

  /** The text a successful Gradle build prints. */
  const SuccessMarker: string := "BUILD SUCCESSFUL"

  /** What the TestKit run leaves behind: its console output, the project
      directory after the build, and whether the build failed. */
  datatype BuildRun = BuildRun(output: string, projectRoot: Files, failed: bool)

  /** The Gradle run of `GradleRunner.create().withProjectDir(dir).withArguments(arg)`,
      taken as an oracle from the directory and the argument to the run.
      `build()` on it returns the result only when the build did not fail. */
  type Runner = (Files, string) -> BuildRun

  /** The success check `output.contains("BUILD SUCCESSFUL")`. */
  predicate BuildSucceeded(output: string) {
    Contains(output, SuccessMarker)
  }

  /** A key/value pair of `addKeyLocalProperties`. */
  type Property = (string, string)

  function PropertyLine(p: Property): string {
    p.0 + "=" + p.1
  }

  function PropertyLines(props: seq<Property>): seq<string> {
    seq(|props|, i requires 0 <= i < |props| => PropertyLine(props[i]))
  }

  /** `joinToString("\n") { (key, value) -> "$key=$value" }`. It is empty
      exactly when no pair was added, because every line holds a `=`. */
  function LocalPropertiesContent(props: seq<Property>): (r: string)
    ensures r == "" <==> |props| == 0
  {
    var lines := PropertyLines(props);
    assert |props| > 0 ==> |Join(lines, '\n')| > 0 by {
      if |props| > 0 {
        assert |lines[0]| > 0;
        JoinNonEmpty(lines, '\n');
      }
    }
    Join(lines, '\n')
  }

  /** The file lists the pairs one per line, in insertion order and with
      duplicates kept, when neither keys nor values hold a line break. */
  lemma LocalPropertiesLines(props: seq<Property>)
    requires |props| > 0
    requires forall i :: 0 <= i < |props| ==> '\n' !in props[i].0 && '\n' !in props[i].1
    ensures Split(LocalPropertiesContent(props), '\n') == PropertyLines(props)
  {
    var lines := PropertyLines(props);
    forall i | 0 <= i < |lines| ensures '\n' !in lines[i] {
      assert lines[i] == props[i].0 + "=" + props[i].1;
    }
    SplitJoin(lines, '\n');
  }

  /** Why a generation stops. `additionalSource(path, file)` reads a file that
      is not there; `build()` throws `UnexpectedBuildFailure`, with the build
      output, when the build fails; or the success check fails: Kotlin's
      `assert` without a message throws an `AssertionError` whose message is
      the fixed text "Assertion failed", without the build output. */
  datatype Failure =
    | SourceUnreadable(file: Path)
    | UnexpectedBuildFailure(failedOutput: string)
    | BuildAssertionFailed
}
