/** `ProjectBuildResult`: the generated project directory and the build
    output, with the `assertFile` check over the directory, its fluent
    `FileAssertionBuilder`, and the older `assertFileExists`. */
module ProjectBuildResult {
  import opened Wrappers
  import opened Text
  import opened Commands
  import opened FileSystem
  import CodeComparator

  datatype BuildResult = BuildResult(projectRoot: Files, output: string)

  /** The three fields of a `FileAssertionBuilder`. */
  datatype FileAssertion = FileAssertion(path: Option<Path>, expectedContent: Option<string>, ignoreWhitespace: bool)

  /** A freshly created builder: nothing set, whitespace ignored. */
  const Fresh := FileAssertion(None, None, true)

  /** One statement of an `assertFile { ... }` block: the builder's setters,
      or a direct assignment to one of its public fields. */
  datatype Setter =
    | SetPath(path: Path)                      // path(p)
    | SetContent(content: string)              // content(c)
    | SetContentExactly(exactContent: string)  // contentExactly(c)
    | AssignPath(pathField: Option<Path>)      // this.path = p
    | AssignExpectedContent(contentField: Option<string>)  // this.expectedContent = c
    | AssignIgnoreWhitespace(flag: bool)       // this.ignoreWhitespace = b

  /** The effect of one statement on the builder. */
  function Set(a: FileAssertion, s: Setter): (r: FileAssertion)
    ensures s.SetContent? ==> r.ignoreWhitespace == a.ignoreWhitespace
    ensures s.SetPath? || s.AssignPath? ==> r.expectedContent == a.expectedContent && r.ignoreWhitespace == a.ignoreWhitespace
  {
    match s
    case SetPath(p) => a.(path := Some(p))
    case SetContent(c) => a.(expectedContent := Some(c))
    case SetContentExactly(c) => a.(expectedContent := Some(c), ignoreWhitespace := false)
    case AssignPath(p) => a.(path := p)
    case AssignExpectedContent(c) => a.(expectedContent := c)
    case AssignIgnoreWhitespace(b) => a.(ignoreWhitespace := b)
  }

  /** `FileAssertionBuilder().apply(block)`: the statements in order. */
  function Build(block: seq<Setter>): (r: FileAssertion)
    ensures block == [] ==> r == Fresh
    decreases |block|
  {
    if |block| == 0 then Fresh
    else Set(Build(block[..|block| - 1]), block[|block| - 1])
  }

  // Which statements write which field, and the value they write.

  function PathOf(s: Setter): Option<Option<Path>> {
    match s
    case SetPath(p) => Some(Some(p))
    case AssignPath(p) => Some(p)
    case _ => None
  }

  function ContentOf(s: Setter): Option<Option<string>> {
    match s
    case SetContent(c) => Some(Some(c))
    case SetContentExactly(c) => Some(Some(c))
    case AssignExpectedContent(c) => Some(c)
    case _ => None
  }

  function IgnoreWhitespaceOf(s: Setter): Option<bool> {
    match s
    case SetContentExactly(_) => Some(false)
    case AssignIgnoreWhitespace(b) => Some(b)
    case _ => None
  }

  /** A statement appended to a block acts on the builder the block built. */
  lemma BuildSnoc(block: seq<Setter>, s: Setter)
    ensures Build(block + [s]) == Set(Build(block), s)
  {
    assert (block + [s])[..|block|] == block;
  }

  /** Every field is "last statement wins", independently of the others:
      `content` never touches the whitespace flag. */
  lemma BuildIsLastCallWins(block: seq<Setter>)
    ensures Build(block).path == LastOf(block, PathOf).GetOr(None)
    ensures Build(block).expectedContent == LastOf(block, ContentOf).GetOr(None)
    ensures Build(block).ignoreWhitespace == LastOf(block, IgnoreWhitespaceOf).GetOr(true)
  {
    PathIsLastCallWins(block);
    ContentIsLastCallWins(block);
    IgnoreWhitespaceIsLastCallWins(block);
  }

  lemma {:induction false} PathIsLastCallWins(block: seq<Setter>)
    ensures Build(block).path == LastOf(block, PathOf).GetOr(None)
    decreases |block|
  {
    if |block| > 0 {
      var prefix, s := block[..|block| - 1], block[|block| - 1];
      PathIsLastCallWins(prefix);
      assert prefix + [s] == block;
      LastOfSnoc(prefix, s, PathOf);
    }
  }

  lemma {:induction false} ContentIsLastCallWins(block: seq<Setter>)
    ensures Build(block).expectedContent == LastOf(block, ContentOf).GetOr(None)
    decreases |block|
  {
    if |block| > 0 {
      var prefix, s := block[..|block| - 1], block[|block| - 1];
      ContentIsLastCallWins(prefix);
      assert prefix + [s] == block;
      LastOfSnoc(prefix, s, ContentOf);
    }
  }

  lemma {:induction false} IgnoreWhitespaceIsLastCallWins(block: seq<Setter>)
    ensures Build(block).ignoreWhitespace == LastOf(block, IgnoreWhitespaceOf).GetOr(true)
    decreases |block|
  {
    if |block| > 0 {
      var prefix, s := block[..|block| - 1], block[|block| - 1];
      IgnoreWhitespaceIsLastCallWins(prefix);
      assert prefix + [s] == block;
      LastOfSnoc(prefix, s, IgnoreWhitespaceOf);
    }
  }

  /** How the content is compared, as named in the failure message. */
  datatype Mode = IgnoringWhitespace | ExactMatch

  function ModeOf(ignoreWhitespace: bool): Mode {
    if ignoreWhitespace then IgnoringWhitespace else ExactMatch
  }

  /** How `assertFile` ends. `Unreadable` is `readText` failing on a path that
      exists but is a directory. */
  datatype Outcome =
    | Passed
    | PathNotSpecified
    | FileMissing(path: Path)
    | Unreadable(unreadablePath: Path)
    | ContentMismatch(mismatchPath: Path, mode: Mode)

  /** The comparison `assertFile` applies to the file text. */
  predicate ContentMatches(fileText: string, expected: string, mode: Mode) {
    match mode
    case IgnoringWhitespace => CodeComparator.EqualsIgnoringWhitespace(fileText, expected)
    case ExactMatch => CodeComparator.EqualsExactly(fileText, expected)
  }

  /** The decision of `assertFile` for a built assertion: a path is required,
      it must exist, and only when content is expected is the file read and
      compared in the mode of the whitespace flag. */
  function Check(root: Files, a: FileAssertion): (r: Outcome)
    ensures r == PathNotSpecified <==> a.path.None?
    ensures r.FileMissing? <==> a.path.Some? && !Exists(root, a.path.value)
    ensures r.FileMissing? ==> r.path == a.path.value
    ensures r == Passed <==>
              && a.path.Some? && Exists(root, a.path.value)
              && (a.expectedContent.Some? ==>
                    a.path.value in root
                    && ContentMatches(root[a.path.value], a.expectedContent.value, ModeOf(a.ignoreWhitespace)))
    ensures r.ContentMismatch? <==>
              && a.path.Some? && a.path.value in root && a.expectedContent.Some?
              && !ContentMatches(root[a.path.value], a.expectedContent.value, ModeOf(a.ignoreWhitespace))
    ensures r.ContentMismatch? ==> r.mismatchPath == a.path.value && r.mode == ModeOf(a.ignoreWhitespace)
    ensures r.Unreadable? <==>
              a.path.Some? && a.path.value !in root && IsDirectory(root, a.path.value) && a.expectedContent.Some?
    ensures r.Unreadable? ==> r.unreadablePath == a.path.value
  {
    match a.path
    case None => PathNotSpecified
    case Some(p) =>
      if !Exists(root, p) then FileMissing(p)
      else
        match a.expectedContent
        case None => Passed
        case Some(expected) =>
          match Read(root, p)
          case None => Unreadable(p)
          case Some(text) =>
            var mode := ModeOf(a.ignoreWhitespace);
            if ContentMatches(text, expected, mode) then Passed else ContentMismatch(p, mode)
  }

  /** `assertFile { block }` on a build result. */
  function AssertFile(result: BuildResult, block: seq<Setter>): (r: Outcome)
    ensures r == Check(result.projectRoot,
                       FileAssertion(LastOf(block, PathOf).GetOr(None),
                                     LastOf(block, ContentOf).GetOr(None),
                                     LastOf(block, IgnoreWhitespaceOf).GetOr(true)))
  {
    BuildIsLastCallWins(block);
    Check(result.projectRoot, Build(block))
  }

  /** `assertFileExists(path, expectedContent = null, ignoreWhitespace = true)`:
      a block assigning the three fields. */
  function AssertFileExists(result: BuildResult, path: Path,
                            expectedContent: Option<string> := None,
                            ignoreWhitespace: bool := true): (r: Outcome)
    ensures r == Check(result.projectRoot, FileAssertion(Some(path), expectedContent, ignoreWhitespace))
    ensures r != PathNotSpecified
    ensures r.FileMissing? <==> !Exists(result.projectRoot, path)
  {
    BuildThree(AssignPath(Some(path)), AssignExpectedContent(expectedContent),
               AssignIgnoreWhitespace(ignoreWhitespace));
    AssertFile(result, [AssignPath(Some(path)), AssignExpectedContent(expectedContent),
                        AssignIgnoreWhitespace(ignoreWhitespace)])
  }

  /** The older check is exactly `assertFile` with the three fields set. */
  lemma AssertFileExistsIsAssertFile(result: BuildResult, path: Path,
                                     expectedContent: Option<string>, ignoreWhitespace: bool)
    ensures AssertFileExists(result, path, expectedContent, ignoreWhitespace)
            == Check(result.projectRoot, FileAssertion(Some(path), expectedContent, ignoreWhitespace))
    ensures AssertFileExists(result, path)
            == (if Exists(result.projectRoot, path) then Passed else FileMissing(path))
  {
    BuildThree(AssignPath(Some(path)), AssignExpectedContent(expectedContent),
               AssignIgnoreWhitespace(ignoreWhitespace));
    BuildThree(AssignPath(Some(path)), AssignExpectedContent(None), AssignIgnoreWhitespace(true));
  }

  /** A block of three statements applies them in order. */
  lemma BuildThree(x: Setter, y: Setter, z: Setter)
    ensures Build([x, y, z]) == Set(Set(Set(Fresh, x), y), z)
  {
    BuildSnoc([], x);
    BuildSnoc([x], y);
    BuildSnoc([x, y], z);
    assert [] + [x] == [x] && [x] + [y] == [x, y] && [x, y] + [z] == [x, y, z];
  }

  /** The failure message of each outcome; `Passed` has none. The message of
      `readText`'s exception is not part of this model. */
  function Message(o: Outcome): (r: Option<string>)
    ensures r.None? <==> o.Passed? || o.Unreadable?
  {
    match o
    case Passed => None
    case Unreadable(_) => None
    case PathNotSpecified => Some("Path must be specified in assertFile")
    case FileMissing(p) => Some("File " + p + " does not exist")
    case ContentMismatch(p, mode) =>
      Some("File " + p + " content does not exactly match expected content " + ModeText(mode))
  }

  function ModeText(mode: Mode): string {
    match mode
    case IgnoringWhitespace => "(ignoring whitespace)"
    case ExactMatch => "(exact match)"
  }

  /** A missing file and a content mismatch both name the path in their
      message; a mismatch also names the comparison mode. */
  lemma MessageNamesPathAndMode(o: Outcome)
    requires o.FileMissing? || o.ContentMismatch?
    ensures Message(o).Some?
    ensures Contains(Message(o).value, if o.FileMissing? then o.path else o.mismatchPath)
    ensures o.ContentMismatch? ==> Contains(Message(o).value, ModeText(o.mode))
  {
    var m := Message(o).value;
    var p := if o.FileMissing? then o.path else o.mismatchPath;
    assert m[5..5 + |p|] == p;
    assert OccursAt(m, p, 5);
    if o.ContentMismatch? {
      var t := ModeText(o.mode);
      assert m[|m| - |t|..] == t;
      assert OccursAt(m, t, |m| - |t|);
    }
  }

  /** Without a path, the check fails before looking at the directory. */
  lemma PathRequired(root: Files, block: seq<Setter>)
    requires forall i :: 0 <= i < |block| ==> PathOf(block[i]).None?
    ensures Check(root, Build(block)) == PathNotSpecified
  {
    PathIsLastCallWins(block);
    LastOfMeaning(block, PathOf);
    assert Build(block).path.None?;
  }

  /** A path that is missing fails the same way whatever content is expected
      and however it is compared. */
  lemma MissingFileFails(root: Files, p: Path, expectedContent: Option<string>, ignoreWhitespace: bool)
    requires !Exists(root, p)
    ensures Check(root, FileAssertion(Some(p), expectedContent, ignoreWhitespace)) == FileMissing(p)
  {
  }

  /** With no expected content, existence alone decides, and the file text
      plays no part. */
  lemma ExistenceAloneWithoutContent(root: Files, p: Path, text: string, ignoreWhitespace: bool)
    requires p in root
    ensures Check(root, FileAssertion(Some(p), None, ignoreWhitespace)) == Passed
    ensures Check(root[p := text], FileAssertion(Some(p), None, ignoreWhitespace)) == Passed
  {
  }

  /** `content(c)` compares ignoring whitespace unless the flag was cleared
      earlier; `contentExactly(c)` compares exactly. */
  lemma ContentModes(root: Files, p: Path, c: string)
    requires p in root
    ensures Check(root, Build([SetPath(p), SetContent(c)])) == Passed
            <==> CodeComparator.EqualsIgnoringWhitespace(root[p], c)
    ensures Check(root, Build([SetPath(p), SetContentExactly(c)])) == Passed
            <==> root[p] == c
  {
    BuildSnoc([], SetPath(p));
    assert [] + [SetPath(p)] == [SetPath(p)];
    BuildSnoc([SetPath(p)], SetContent(c));
    BuildSnoc([SetPath(p)], SetContentExactly(c));
  }

  /** `contentExactly(x)` followed by `content(y)` still compares exactly,
      against `y`: the later `content` keeps the cleared flag. */
  lemma ExactlyThenContent(root: Files, p: Path, x: string, y: string)
    requires p in root
    ensures Build([SetPath(p), SetContentExactly(x), SetContent(y)])
            == FileAssertion(Some(p), Some(y), false)
    ensures Check(root, Build([SetPath(p), SetContentExactly(x), SetContent(y)])) == Passed
            <==> root[p] == y
  {
    BuildThree(SetPath(p), SetContentExactly(x), SetContent(y));
  }
}
