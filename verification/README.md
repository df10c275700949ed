# gradle-tester, modelled in Dafny

gradle-tester is a small Kotlin library for testing Gradle plugins. A test
describes a throwaway project:

- `local.properties` pairs;
- a build script and settings;
- extra source files;
- the Gradle task to run.

The library writes that project into a directory and runs Gradle on it once.
It checks that the output reports `BUILD SUCCESSFUL`. It then hands back a
result on which the test asserts file contents. Two of those assertions
compare texts ignoring whitespace, `package` declarations and braces at the
ends.

This project models that core as pure functions and proves what each step
promises.

- `CodeComparator` (`code_comparator.dfy`) is the text comparison. It models:
  - the regular expression `package\s+[\w.]+\s*`, applied as Java's
    `replaceAll` applies it: the leftmost greedy match, then the scan
    resumes after it;
  - the deletion of every whitespace run;
  - Kotlin's `trim` over `{ } ' ' \t \n \r`;
  - the final equality.
- `ProjectBuildResult` (`project_build_result.dfy`) covers `assertFile`, its
  `FileAssertionBuilder` DSL and the older `assertFileExists`.
  - The block is a list of setter statements.
  - The check's outcome is a datatype: passed, no path, missing file,
    unreadable path, or content mismatch in a mode.
  - `Message` gives the text of each failing outcome, except an unreadable
    path, where `readText` throws an exception whose text is not modelled.
- `ProjectGenerationBuilder` (`project_generation_builder.dfy`) is the current
  builder in `impl/`.
  - Configuration calls are data, folded over a record from the defaults.
  - `generate` is a write plan applied to the project directory, one Gradle
    run and the success check.
  - `testProject` is the glue from `api.kt`.
- `LegacyProjectGeneration` (`legacy_project_generation.dfy`) is the older
  builder in `impl.kt`. It differs from the current one:
  - the build script is optional;
  - sources go under `src/main/kotlin/`;
  - a `check` hook runs after the success check.
- Shared supporting modules:
  - `Wrappers`: `Option` and `Result`;
  - `Text`: substring search, join and split;
  - `Commands`: "last call wins" and "all calls, in order" readings of a
    configuration block;
  - `FileSystem`: a directory as a map from relative paths to file texts, and
    a write plan applied in order;
  - `Gradle`: the shared file names, the `local.properties` format, the
    success marker and the Gradle run as an oracle.

Every configuration fold has an independent reference reading of the same
calls, proved equal to it:

- each single-valued field is the value of the last call that sets it;
- each list is the arguments of all calls that add to it, in order.

The written directory is related to the configuration file by file. Sources
come last, so a source overrides a configuration file at the same path.

Facts about the code that the model keeps:

- The current builder writes each source at its path relative to the project
  root, with no source-root prefix. Only the legacy builder puts sources
  under `src/main/kotlin/`.
- The current builder always writes `build.gradle.kts`, as `""` when no script
  was given. The legacy builder writes it only when a script was given.
- `runner.build()` throws `UnexpectedBuildFailure` whenever the build fails,
  whatever `isAssertBuild` says. The success check only ever sees the output
  of a build that did not fail.
- The success check is Kotlin's `assert` without a message. Its
  `AssertionError` has the fixed message `Assertion failed` and does not
  include the build output.
- A block that sets no path makes `assertFile` throw an
  `IllegalArgumentException` ("Path must be specified in assertFile").
  The model calls this outcome `PathNotSpecified`.
- Java's `replaceAll` removes whatever matches `package\s+[\w.]+\s*`, wherever
  the left-to-right scan finds it, not only a declaration at the start. In
  `x package package a.b` the first `package` takes the second word `package`
  as its name. The match removed is `package package `, and `a.b` stays. So
  `x package package a.b` and `x package package c.d` compare different.

## Model

| member | source | states |
|---|---|---|
| `CodeComparator.RunIsLongest` | src/main/kotlin/gralde/tester/CodeComparator.kt:20-21 | A greedy run of a character class covers only characters of the class and stops at the end or at the first character outside it. |
| `CodeComparator.RunBackIsLongest` | src/main/kotlin/gralde/tester/CodeComparator.kt:28-29 | Scanning back from an end index, the run covers only characters of the class and stops at the start or at a character outside it. |
| `CodeComparator.MatchAtMeaning` | src/main/kotlin/gralde/tester/CodeComparator.kt:20-21 | A match is found at the start of a text exactly when the text begins with `package`, then at least one whitespace character, then a name character. The match found is the greedy one: whitespace, a maximal name of `[\w.]`, maximal trailing whitespace. |
| `CodeComparator.MatchAt` | src/main/kotlin/gralde/tester/CodeComparator.kt:20-21 | A match at the start of a text is longer than the word `package` and lies within the text. |
| `CodeComparator.GreedyMatchIsUnique` | src/main/kotlin/gralde/tester/CodeComparator.kt:20-21 | Any greedy declaration at the start of a text is the one the matcher returns. |
| `CodeComparator.MatchNeedsKeyword` | src/main/kotlin/gralde/tester/CodeComparator.kt:20-21 | A match exists only where the text starts with `package` followed by a whitespace character. |
| `CodeComparator.StripPackages` | src/main/kotlin/gralde/tester/CodeComparator.kt:20-21 | Removing declarations never makes a text longer. |
| `CodeComparator.StripWithoutKeyword` | src/main/kotlin/gralde/tester/CodeComparator.kt:20-21 | A text that does not contain `package` is left unchanged by the removal. |
| `CodeComparator.StripWithoutSpace` | src/main/kotlin/gralde/tester/CodeComparator.kt:20-21 | A text without whitespace is left unchanged, since a declaration needs whitespace after the word. |
| `CodeComparator.StripSpacePrefix` | src/main/kotlin/gralde/tester/CodeComparator.kt:20-21 | A whitespace prefix is kept verbatim, and removal continues on the rest. |
| `CodeComparator.DeleteSpaces` | src/main/kotlin/gralde/tester/CodeComparator.kt:24-25 | The result has no whitespace, is no longer than the input, and holds exactly the input's non-whitespace characters. |
| `CodeComparator.DeleteSpacesConcat` | src/main/kotlin/gralde/tester/CodeComparator.kt:24-25 | Deleting whitespace distributes over concatenation. |
| `CodeComparator.DeleteSpacesWithoutSpace` | src/main/kotlin/gralde/tester/CodeComparator.kt:24-25 | A text without whitespace is its own whitespace-free form. |
| `CodeComparator.Trim` | src/main/kotlin/gralde/tester/CodeComparator.kt:28-29 | The result is a slice of the input with only trim characters around it, and it neither starts nor ends with a trim character. |
| `CodeComparator.TrimIsUnique` | src/main/kotlin/gralde/tester/CodeComparator.kt:28-29 | Any slice with only trim characters outside it and none at its own ends is the trim, so the two properties above pin down the result. |
| `CodeComparator.TrimUntrimmed` | src/main/kotlin/gralde/tester/CodeComparator.kt:28-29 | A text that neither starts nor ends with a trim character is its own trim. |
| `CodeComparator.TrimIgnoresSurrounding` | src/main/kotlin/gralde/tester/CodeComparator.kt:28-29 | Trim characters added before and after a text do not change its trim. |
| `CodeComparator.Normalize` | src/main/kotlin/gralde/tester/CodeComparator.kt:19-29 | The normalised text has no whitespace and neither starts nor ends with a brace or whitespace. |
| `CodeComparator.NormalizeIdempotent` | src/main/kotlin/gralde/tester/CodeComparator.kt:19-29 | Normalising a normalised text changes nothing. |
| `CodeComparator.BlankNormalizesToEmpty` | src/main/kotlin/gralde/tester/CodeComparator.kt:19-29 | A text made only of whitespace normalises to the empty text. |
| `CodeComparator.EqualsIgnoringWhitespace` | src/main/kotlin/gralde/tester/CodeComparator.kt:15-32 | Equal texts always compare equal ignoring whitespace. |
| `CodeComparator.EqualsExactly` | src/main/kotlin/gralde/tester/CodeComparator.kt:41-46 | The exact comparison holds exactly when the texts are equal, and then the whitespace-insensitive comparison holds too. |
| `CodeComparator.IgnoringWhitespaceIsEquivalence` | src/main/kotlin/gralde/tester/CodeComparator.kt:15-32 | The whitespace-insensitive comparison is reflexive, symmetric and transitive. |
| `CodeComparator.ExactlyImpliesIgnoringWhitespace` | src/main/kotlin/gralde/tester/CodeComparator.kt:41-46 | Texts equal exactly are also equal ignoring whitespace. |
| `CodeComparator.EmptyStringCases` | src/main/kotlin/gralde/tester/CodeComparator.kt:15-46 | Empty texts are equal under both comparisons. Blank text equals the empty text ignoring whitespace but not exactly. |
| `CodeComparator.DeclarationIgnored` | src/main/kotlin/gralde/tester/CodeComparator.kt:19-29 | A leading `package` declaration has no effect on the normalised text. |
| `CodeComparator.OnlyDeclarationsDiffer` | src/main/kotlin/gralde/tester/CodeComparator.kt:15-32 | Two texts that differ only in a `package` declaration at their very start compare equal ignoring whitespace. `DeclarationsAfterPrefixDiffer` covers a declaration after a shared prefix. |
| `CodeComparator.DifferentPackagesExample` | src/main/kotlin/gralde/tester/CodeComparator.kt:15-32 | `"package a.b\nclass X"` and `"package c.d\nclass X"` compare equal. |
| `CodeComparator.ComparisonWithoutPackages` | src/main/kotlin/gralde/tester/CodeComparator.kt:15-32 | For texts without `package`, the comparison holds exactly when the trims of the whitespace-free texts are equal. Equal whitespace-free texts always compare equal. |
| `CodeComparator.PlainTextsCompareExactly` | src/main/kotlin/gralde/tester/CodeComparator.kt:15-32 | For texts without `package`, without whitespace and without trim characters at their ends, the comparison is plain equality. Letter case matters. |
| `CodeComparator.BoundaryBracesIgnored` | src/main/kotlin/gralde/tester/CodeComparator.kt:27-31 | Braces and whitespace around a text without `package` do not affect the comparison. |
| `CodeComparator.BracesExample` | src/main/kotlin/gralde/tester/CodeComparator.kt:27-31 | `"class A {}"` compares equal to `"class A"`. |
| `CodeComparator.NoMatchBeforeKeyword` | src/main/kotlin/gralde/tester/CodeComparator.kt:20-21 | No match starts inside a non-empty text without `package` when a `p` follows it. |
| `CodeComparator.StripPlainPrefix` | src/main/kotlin/gralde/tester/CodeComparator.kt:20-21 | A prefix without `package` in front of a text starting with `p` is kept unchanged, and the text is stripped on its own. |
| `CodeComparator.DeclarationAfterPlainPrefix` | src/main/kotlin/gralde/tester/CodeComparator.kt:20-21 | A declaration after a prefix without `package` is removed, and the prefix is kept. |
| `CodeComparator.DeclarationsAfterPrefixDiffer` | src/main/kotlin/gralde/tester/CodeComparator.kt:15-32 | Two texts with the same prefix without `package`, which differ only in the declaration after it, compare equal. |
| `CodeComparator.RepeatedKeywordKeepsName` | src/main/kotlin/gralde/tester/CodeComparator.kt:19-29 | In `x package package ` followed by a word character other than `p` and text without `p`, the match removes `package package `, so that character comes second in the normalised text. |
| `CodeComparator.RepeatedKeywordDiffers` | src/main/kotlin/gralde/tester/CodeComparator.kt:15-32 | `x package package a…` and `x package package c…` (two different word characters, the same tail) compare different. The declaration-like text `package a…` is not removed. |
| `CodeComparator.InteriorPreserved` | src/main/kotlin/gralde/tester/CodeComparator.kt:27-29 | Every stretch of the whitespace-free text between two non-trim characters survives normalisation, interior braces included. |
| `CodeComparator.TrimKeepsInterior` | src/main/kotlin/gralde/tester/CodeComparator.kt:28-29 | Trimming keeps every stretch between two non-trim characters. |
| `Text.Contains` | src/main/kotlin/gralde/tester/impl/ProjectGenerationBuilder.kt:82 | `contains` holds exactly when the pattern occurs at some index of the text. |
| `Text.SplitJoin` | src/main/kotlin/gralde/tester/impl/ProjectGenerationBuilder.kt:69 | Splitting a joined list of separator-free lines gives the lines back. |
| `Gradle.LocalPropertiesContent` | src/main/kotlin/gralde/tester/impl/ProjectGenerationBuilder.kt:69-72 | The joined `local.properties` text is empty exactly when no pair was added, which is when the file is not written. |
| `Gradle.LocalPropertiesLines` | src/main/kotlin/gralde/tester/impl/ProjectGenerationBuilder.kt:69 | The file lists every pair as `key=value`, one per line, in insertion order and with duplicates kept. This holds when keys and values have no line break. |
| `Commands.LastOfMeaning` | src/main/kotlin/gralde/tester/impl/ProjectGenerationBuilder.kt:19-21 | The last-call reading is absent exactly when no call sets the field. Otherwise it is the value of a call after which no call sets the field. |
| `Commands.CollectMeaning` | src/main/kotlin/gralde/tester/impl/ProjectGenerationBuilder.kt:15-17 | The all-calls reading draws each element from a call that adds it, and is empty when no call adds anything. |
| `Commands.CollectInOrder` | src/main/kotlin/gralde/tester/impl/ProjectGenerationBuilder.kt:15-17 | The k-th element of the all-calls reading is the value of the k-th call that adds one. The positions of those calls increase, and every adding call is among them, so order and duplicates are kept. |
| `FileSystem.LastWrite` | src/main/kotlin/gralde/tester/impl/ProjectGenerationBuilder.kt:55-62 | No last write to a path exists exactly when the plan never writes to it. |
| `FileSystem.ApplyReads` | src/main/kotlin/gralde/tester/impl/ProjectGenerationBuilder.kt:55-62 | After a write plan, each path holds its last write, or its earlier content if the plan never writes to it. |
| `FileSystem.ApplyKeys` | src/main/kotlin/gralde/tester/impl/ProjectGenerationBuilder.kt:55-62 | After a write plan, a path exists exactly when it existed before or was written. Unwritten paths keep their content. |
| `FileSystem.LaterWriteWins` | src/main/kotlin/gralde/tester/impl/ProjectGenerationBuilder.kt:75-77 | A write that no later write in the plan overrides decides the content of its path. |
| `FileSystem.ApplyKeepsExisting` | src/main/kotlin/gralde/tester/impl/ProjectGenerationBuilder.kt:55-62 | Writing never deletes: every file, and every path that `File.exists()` saw before, still exists afterwards. |
| `FileSystem.ParentDirectoryExists` | src/main/kotlin/gralde/tester/impl/ProjectGenerationBuilder.kt:59-61 | Each directory on the path of a stored file exists, as `mkdirs` before the write makes it. |
| `FileSystem.WritesAppend` | src/main/kotlin/gralde/tester/impl/ProjectGenerationBuilder.kt:70-77 | A concatenation of write plans writes a path exactly when one of its parts does. |
| `FileSystem.ApplyAppend` | src/main/kotlin/gralde/tester/impl/ProjectGenerationBuilder.kt:70-77 | Applying two plans one after the other is applying their concatenation. |
| `ProjectBuildResult.Set` | src/main/kotlin/gralde/tester/impl/ProjectBuildResult.kt:57-73 | `content` leaves the whitespace flag as it was, and setting the path changes neither content nor flag. |
| `ProjectBuildResult.BuildIsLastCallWins` | src/main/kotlin/gralde/tester/impl/ProjectBuildResult.kt:50-74 | Each builder field holds the value of the last statement writing it, or its default: no path, no content, whitespace ignored. |
| `ProjectBuildResult.Check` | src/main/kotlin/gralde/tester/impl/ProjectBuildResult.kt:20-45 | The check fails with no path exactly when none was set, and with a missing file exactly when the path does not exist. It passes exactly when the path exists and, if content is expected, the file text matches it in the flag's mode. It reports a mismatch exactly when the path is a file and its text does not match, naming the path and the mode. It reports an unreadable path exactly when content is expected and the path is a directory, naming that path. |
| `ProjectBuildResult.AssertFile` | src/main/kotlin/gralde/tester/impl/ProjectBuildResult.kt:20-21 | `assertFile` checks the path, content and flag that the last statement writing each of them gave, or the defaults. |
| `ProjectBuildResult.AssertFileExists` | src/main/kotlin/gralde/tester/impl/ProjectBuildResult.kt:79-89 | `assertFileExists` checks exactly its three arguments. It never fails for lack of a path, and it reports a missing file exactly when the path does not exist. |
| `ProjectBuildResult.AssertFileExistsIsAssertFile` | src/main/kotlin/gralde/tester/impl/ProjectBuildResult.kt:79-89 | `assertFileExists` is `assertFile` with the three fields assigned. With the defaults, only existence decides. |
| `ProjectBuildResult.BuildThree` | src/main/kotlin/gralde/tester/impl/ProjectBuildResult.kt:21 | A block of three statements applies them to a fresh builder in order. |
| `ProjectBuildResult.Message` | src/main/kotlin/gralde/tester/impl/ProjectBuildResult.kt:24-43 | Every failing outcome has a message, except a read failure, whose message is not modelled. A pass has none. |
| `ProjectBuildResult.MessageNamesPathAndMode` | src/main/kotlin/gralde/tester/impl/ProjectBuildResult.kt:27-43 | The missing-file and mismatch messages contain the path. The mismatch message also contains `(ignoring whitespace)` or `(exact match)`, matching the mode. |
| `ProjectBuildResult.PathRequired` | src/main/kotlin/gralde/tester/impl/ProjectBuildResult.kt:24 | A block that never sets a path fails with the missing-path outcome, whatever the directory holds. |
| `ProjectBuildResult.MissingFileFails` | src/main/kotlin/gralde/tester/impl/ProjectBuildResult.kt:26-27 | A missing path fails the same way, whatever content and mode were asked for. |
| `ProjectBuildResult.ExistenceAloneWithoutContent` | src/main/kotlin/gralde/tester/impl/ProjectBuildResult.kt:30-31 | With no expected content, an existing file passes whatever its text. |
| `ProjectBuildResult.ContentModes` | src/main/kotlin/gralde/tester/impl/ProjectBuildResult.kt:33-38 | `content(c)` passes exactly when the file equals `c` ignoring whitespace, and `contentExactly(c)` exactly when it equals `c`. |
| `ProjectBuildResult.ExactlyThenContent` | src/main/kotlin/gralde/tester/impl/ProjectBuildResult.kt:64-71 | After `contentExactly(x)`, a later `content(y)` still compares exactly, against `y`. |
| `ProjectGenerationBuilder.Create` | src/main/kotlin/gralde/tester/impl/ProjectGenerationBuilder.kt:6-13 | A new builder has no pairs, no sources and an empty build script. It has no settings, `build` as its Gradle task, and both flags on. |
| `ProjectGenerationBuilder.Apply` | src/main/kotlin/gralde/tester/impl/ProjectGenerationBuilder.kt:15-44 | A configuration call fails exactly when it reads a source from a file that is not there, and then names that file. |
| `ProjectGenerationBuilder.Configure` | src/main/kotlin/gralde/tester/impl/ProjectGenerationBuilder.kt:30-36 | A configuration block can fail only by an unreadable source file. |
| `ProjectGenerationBuilder.ConfigureReadings` | src/main/kotlin/gralde/tester/impl/ProjectGenerationBuilder.kt:6-44 | The block succeeds exactly when every file it reads exists. Then each field is its last setting or default, and the pairs and sources are all added ones in call order. |
| `ProjectGenerationBuilder.ExpectedSnoc` | src/main/kotlin/gralde/tester/impl/ProjectGenerationBuilder.kt:15-44 | Applying one more call to the reference reading of a block gives the reference reading of the longer block. |
| `ProjectGenerationBuilder.ConfigureFailsOnFirstMissingFile` | src/main/kotlin/gralde/tester/impl/ProjectGenerationBuilder.kt:30-36 | A failed block failed at a file read of a missing file, all calls before which were readable, and the failure names that file. |
| `ProjectGenerationBuilder.SourceFromFileIsSourceWithText` | src/main/kotlin/gralde/tester/impl/ProjectGenerationBuilder.kt:23-36 | Adding a source from an existing file is adding a source with the file's text, read at the time of the call. |
| `ProjectGenerationBuilder.ConfigPlan` | src/main/kotlin/gralde/tester/impl/ProjectGenerationBuilder.kt:69-74 | Generation writes between one and three configuration files. |
| `ProjectGenerationBuilder.ConfigPlanWrites` | src/main/kotlin/gralde/tester/impl/ProjectGenerationBuilder.kt:69-74 | The configuration writes equal direct updates of `local.properties` (when pairs exist), `build.gradle.kts` and `settings.gradle.kts` (when set). |
| `ProjectGenerationBuilder.WritePlan` | src/main/kotlin/gralde/tester/impl/ProjectGenerationBuilder.kt:69-77 | The write plan ends with every source, in call order, after at least the build script. It always writes `build.gradle.kts`. It writes `local.properties` exactly when pairs were added or a source goes there, and `settings.gradle.kts` exactly when settings were given or a source goes there. |
| `ProjectGenerationBuilder.Written` | src/main/kotlin/gralde/tester/impl/ProjectGenerationBuilder.kt:64-78 | The directory Gradle runs on keeps everything that existed, and its files are the old ones plus the written ones. |
| `ProjectGenerationBuilder.Generate` | src/main/kotlin/gralde/tester/impl/ProjectGenerationBuilder.kt:64-89 | Gradle runs once, on the written directory with the configured task. A failed build fails generation with `UnexpectedBuildFailure` and its output. Otherwise generation fails exactly when the success check is on and the output lacks `BUILD SUCCESSFUL`. If it does not fail, it returns the directory after the build and the output. |
| `ProjectGenerationBuilder.TestProject` | src/main/kotlin/gralde/tester/api.kt:14-21 | `testProject` fails on a source file exactly when some file the block reads is missing. Otherwise it generates from the block's reference reading. |
| `ProjectGenerationBuilder.WrittenWithoutSource` | src/main/kotlin/gralde/tester/impl/ProjectGenerationBuilder.kt:69-77 | A path that no source writes holds what the configuration files give it. |
| `ProjectGenerationBuilder.LocalPropertiesWritten` | src/main/kotlin/gralde/tester/impl/ProjectGenerationBuilder.kt:69-72 | `local.properties` holds the joined pairs when there are any. With none it is left as it was. |
| `ProjectGenerationBuilder.BuildScriptWritten` | src/main/kotlin/gralde/tester/impl/ProjectGenerationBuilder.kt:73 | `build.gradle.kts` always holds the configured script, `""` by default. |
| `ProjectGenerationBuilder.SettingsWritten` | src/main/kotlin/gralde/tester/impl/ProjectGenerationBuilder.kt:74 | `settings.gradle.kts` holds the settings when given, and is left as it was otherwise. |
| `ProjectGenerationBuilder.LastSourceWins` | src/main/kotlin/gralde/tester/impl/ProjectGenerationBuilder.kt:75-77 | A path that some source writes holds the text of the last source to it, even over a configuration file. |
| `ProjectGenerationBuilder.EmptyBlockWritesBuildScript` | src/main/kotlin/gralde/tester/impl/ProjectGenerationBuilder.kt:8 | A builder configured with nothing writes only an empty `build.gradle.kts`. |
| `ProjectGenerationBuilder.SuccessCheck` | src/main/kotlin/gralde/tester/impl/ProjectGenerationBuilder.kt:80-83 | A result comes only from a build that did not fail. With the check on, every result reports success. With it off, generation succeeds exactly when the build did not fail. |
| `ProjectGenerationBuilder.GeneratedFilesPassAssertFile` | src/main/kotlin/gralde/tester/impl/ProjectGenerationBuilder.kt:69-88 | When the build keeps the written files, `assertFile` passes on the build script with its exact text, and on `local.properties` with the joined pairs. |
| `LegacyProjectGeneration.Apply` | src/main/kotlin/gralde/tester/impl.kt:30-57 | A legacy configuration call fails exactly when it reads a source from a missing file, naming the file. |
| `LegacyProjectGeneration.Configure` | src/main/kotlin/gralde/tester/impl.kt:42-45 | A legacy block can fail only by an unreadable source file. |
| `LegacyProjectGeneration.ConfigureReadings` | src/main/kotlin/gralde/tester/impl.kt:16-57 | The legacy block succeeds exactly when every file it reads exists. Then each field is its last setting or default, including the `check` hook. |
| `LegacyProjectGeneration.ExpectedSnoc` | src/main/kotlin/gralde/tester/impl.kt:30-57 | One more call applied to the legacy reference reading gives the reading of the longer block. |
| `LegacyProjectGeneration.ConfigPlan` | src/main/kotlin/gralde/tester/impl.kt:82-87 | Legacy generation writes at most three configuration files. |
| `LegacyProjectGeneration.WritePlan` | src/main/kotlin/gralde/tester/impl.kt:82-90 | The legacy plan writes `local.properties` exactly when pairs were added, and the build script and the settings exactly when given. Sources cannot reach them. Every source is written under `src/main/kotlin/`. |
| `LegacyProjectGeneration.Written` | src/main/kotlin/gralde/tester/impl.kt:77-91 | The directory Gradle runs on keeps everything that existed, and its files are the old ones plus the written ones. |
| `LegacyProjectGeneration.ConfigPlanWrites` | src/main/kotlin/gralde/tester/impl.kt:82-87 | The legacy configuration writes equal direct updates of the three files, each only when it has something to write. |
| `LegacyProjectGeneration.Generate` | src/main/kotlin/gralde/tester/impl.kt:77-103 | Gradle runs once, on the written directory with the configured Gradle task. A failed build fails generation with `UnexpectedBuildFailure` and its output. Otherwise generation fails exactly when the check is on and the output lacks `BUILD SUCCESSFUL`, since the `check` hook is taken never to throw. If it does not fail, the hook is reached, and generation returns the output and the hook that runs. |
| `LegacyProjectGeneration.GenerateProject` | src/main/kotlin/gralde/tester/impl.kt:7-14 | `generateProject` fails on a source file exactly when a file the block reads is missing. Otherwise it generates from the block's reference reading. |
| `LegacyProjectGeneration.SourcePathsAreUnderSourceRoot` | src/main/kotlin/gralde/tester/impl.kt:63 | Every source path starts with `src/main/kotlin/`, so it is never a configuration file. |
| `LegacyProjectGeneration.ConfigFilesKept` | src/main/kotlin/gralde/tester/impl.kt:82-90 | Sources never override `local.properties`, `build.gradle.kts` or `settings.gradle.kts`. |
| `LegacyProjectGeneration.ConfigFilesWritten` | src/main/kotlin/gralde/tester/impl.kt:82-87 | `local.properties` is written exactly when pairs exist, and the build script and settings exactly when given. Otherwise each keeps its earlier content. |
| `LegacyProjectGeneration.UnwrittenPathsKept` | src/main/kotlin/gralde/tester/impl.kt:82-90 | Every path other than the three configuration files and `src/main/kotlin/<p>` for a source path `p` keeps its old text. |
| `LegacyProjectGeneration.LastSourceWins` | src/main/kotlin/gralde/tester/impl.kt:88-90 | `src/main/kotlin/<p>` holds the text of the last source to `p`. |
| `LegacyProjectGeneration.PrefixedLastWrite` | src/main/kotlin/gralde/tester/impl.kt:63 | Prefixing every source path with the source root keeps which write is the last one to each path. |
| `LegacyProjectGeneration.EmptyBlockWritesNothing` | src/main/kotlin/gralde/tester/impl.kt:7-14 | The default empty block leaves the configuration at its defaults, writes nothing, and runs the no-op hook. |
| `LegacyProjectGeneration.HookAfterSuccessCheck` | src/main/kotlin/gralde/tester/impl.kt:93-100 | The hook that runs is the last one given to `check`. It runs only after a build that did not fail and passed the success check, if that check was on. |

## Left out

- The Gradle run (`GradleRunner` and TestKit) is an oracle parameter. It is
  a function from the written directory and the Gradle task to three things:
  the output, the directory after the build, and whether the build failed.
  What Gradle does inside is not modelled.
- Real file-system behaviour is not modelled:
  - path resolution and `..` components;
  - absolute paths;
  - `mkdirs` creating empty directories;
  - conflicts between a file and a directory of the same name;
  - I/O errors while writing.

  Paths are plain strings, and a directory exists when some stored file lies
  under it. Empty directories are not represented.
- The file read by `additionalSource(path, file)` comes from a separate host
  file system given as a parameter. That file system is fixed for the whole
  block. A read failure is an error value instead of an exception.
- Printing the output under `isPrint` is a side effect that does not change
  the result, so it is not modelled. The flag is kept in the configuration.
- Kotlin's `assert` is modelled as enabled. With the JVM's `-ea` switch off,
  the success check and the `assertFile` checks would not run.
- The configuration block is a Kotlin lambda with a receiver. It is modelled
  as a list of configuration calls. The legacy `check` hook is an
  uninterpreted value, recorded as the hook that would run.
- LegacyProjectGeneration.Generate: a `check` hook that throws also makes
  `generate()` and `generateProject` throw (impl.kt:100). The hook is an
  uninterpreted value, so this is not modelled: `Success` means the hook was
  reached, not that it finished.
- The legacy builder's `additionalFiles` field (impl.kt:23) is never read or
  written by the code, so it is not modelled.
- ProjectBuildResult.Message: the text of the exception `readText` throws on
  a directory is not modelled, so that outcome has no message.
- `generate` being called a second time on the same builder is not modelled,
  since each call here is a pure function of the configuration.
- Kotlin strings are sequences of UTF-16 code units. The model uses Dafny
  characters, and case conversion and Unicode whitespace play no part.
  `\s` is the six ASCII whitespace characters Java's regular expressions use
  by default.
