/** The text comparator: exact equality, and equality after normalising both
    texts (package declarations removed, whitespace deleted, braces and blanks
    trimmed from both ends). Modelled from CodeComparator.kt. */
module CodeComparator {
  import opened Wrappers
  import opened Text

  /** Java's `\s`: space, tab, newline, vertical tab, form feed, carriage return. */
  predicate IsSpace(c: char) {
    c == ' ' || c == '\t' || c == '\n' || c == '\U{B}' || c == '\U{C}' || c == '\r'
  }

  /** Java's `\w`: ASCII letters, digits and the underscore. */
  predicate IsWordChar(c: char) {
    ('a' <= c <= 'z') || ('A' <= c <= 'Z') || ('0' <= c <= '9') || c == '_'
  }

  /** The class `[\w.]` of characters a package name is made of. */
  predicate IsNameChar(c: char) {
    IsWordChar(c) || c == '.'
  }

  /** The characters the comparator trims from both ends. */
  predicate IsTrimChar(c: char) {
    c == '{' || c == '}' || c == ' ' || c == '\t' || c == '\n' || c == '\r'
  }

  predicate AllSpace(s: string) {
    forall i :: 0 <= i < |s| ==> IsSpace(s[i])
  }

  predicate NoSpace(s: string) {
    forall i :: 0 <= i < |s| ==> !IsSpace(s[i])
  }

  predicate AllTrim(s: string) {
    forall i :: 0 <= i < |s| ==> IsTrimChar(s[i])
  }

  /** Length of the longest run of characters satisfying `p` from position
      `from` of `s`: what a greedy quantifier over that class consumes there.
      `RunIsLongest` says so. */
  function Run(s: string, from: nat, p: char -> bool): (n: nat)
    requires from <= |s|
    ensures from + n <= |s|
    decreases |s| - from
  {
    if from < |s| && p(s[from]) then 1 + Run(s, from + 1, p) else 0
  }

  /** Every character of the run is in the class, and the run stops at the
      end of the text or at a character outside it. */
  lemma {:induction false} RunIsLongest(s: string, from: nat, p: char -> bool)
    requires from <= |s|
    ensures forall i :: from <= i < from + Run(s, from, p) ==> p(s[i])
    ensures from + Run(s, from, p) == |s| || !p(s[from + Run(s, from, p)])
    decreases |s| - from
  {
    if from < |s| && p(s[from]) {
      RunIsLongest(s, from + 1, p);
    }
  }

  /** A greedy run stops exactly at the first character outside its class. */
  lemma {:induction false} RunStops(s: string, from: nat, m: nat, p: char -> bool)
    requires from + m <= |s| && (from + m == |s| || !p(s[from + m]))
    requires forall i :: from <= i < from + m ==> p(s[i])
    ensures Run(s, from, p) == m
    decreases m
  {
    if m > 0 {
      RunStops(s, from + 1, m - 1, p);
    }
  }

  /** A run covers at least any stretch of characters in its class. */
  lemma {:induction false} RunAtLeast(s: string, from: nat, m: nat, p: char -> bool)
    requires from + m <= |s|
    requires forall i :: from <= i < from + m ==> p(s[i])
    ensures Run(s, from, p) >= m
    decreases m
  {
    if m > 0 {
      RunAtLeast(s, from + 1, m - 1, p);
    }
  }

  // ---------------------------------------------------------------------------
  // Step 1: removing package declarations, regex `package\s+[\w.]+\s*`
  // ---------------------------------------------------------------------------

  const Keyword: string := "package"

  /** One match of the declaration pattern, by the lengths of its parts after
      the keyword: the whitespace gap, the name, the trailing whitespace. */
  datatype Declaration = Declaration(gap: nat, name: nat, trail: nat) {
    function Length(): nat {
      |Keyword| + gap + name + trail
    }
  }

  /** Positions `from` up to `to` of `s` hold whitespace. */
  predicate SpaceIn(s: string, from: nat, to: nat)
    requires from <= to <= |s|
  {
    forall i :: from <= i < to ==> IsSpace(s[i])
  }

  /** Positions `from` up to `to` of `s` hold name characters. */
  predicate NameIn(s: string, from: nat, to: nat)
    requires from <= to <= |s|
  {
    forall i :: from <= i < to ==> IsNameChar(s[i])
  }

  /** `d` is the greedy match of the declaration pattern at the start of `s`:
      each part has the right characters, the gap and the name are non-empty,
      and neither the name nor the trailing whitespace could be extended. */
  predicate IsGreedyMatch(s: string, d: Declaration) {
    var nameStart := |Keyword| + d.gap;
    var nameEnd := nameStart + d.name;
    && d.Length() <= |s|
    && s[..|Keyword|] == Keyword
    && d.gap > 0 && d.name > 0
    && SpaceIn(s, |Keyword|, nameStart)
    && NameIn(s, nameStart, nameEnd)
    && SpaceIn(s, nameEnd, d.Length())
    && (nameEnd == |s| || !IsNameChar(s[nameEnd]))
    && (d.Length() == |s| || !IsSpace(s[d.Length()]))
  }

  /** A declaration starts at the beginning of `s`: the keyword, then at least
      one whitespace character, then after that whitespace a name character. */
  ghost predicate StartsDeclaration(s: string) {
    && |s| > |Keyword|
    && s[..|Keyword|] == Keyword
    && exists k :: |Keyword| < k < |s| && SpaceIn(s, |Keyword|, k) && IsNameChar(s[k])
  }

  /** The match of `package\s+[\w.]+\s*` anchored at the start of `s`, if any.
      The pattern's classes are disjoint where it matters, so backtracking
      never finds a different match: the greedy one is the only one. What it
      finds is stated by `MatchAtMeaning`. */
  function MatchAt(s: string): (r: Option<Declaration>)
    ensures r.Some? ==> |Keyword| < r.value.Length() <= |s|
  {
    if |s| >= |Keyword| && s[..|Keyword|] == Keyword then
      var gap := Run(s, |Keyword|, IsSpace);
      var name := Run(s, |Keyword| + gap, IsNameChar);
      if gap == 0 || name == 0 then None
      else Some(Declaration(gap, name, Run(s, |Keyword| + gap + name, IsSpace)))
    else
      None
  }

  /** `MatchAt` finds a match exactly when a declaration starts the text, and
      what it finds is the greedy match. */
  lemma MatchAtMeaning(s: string)
    ensures MatchAt(s).Some? <==> StartsDeclaration(s)
    ensures MatchAt(s).Some? ==> IsGreedyMatch(s, MatchAt(s).value)
  {
    if |s| >= |Keyword| && s[..|Keyword|] == Keyword {
      var gap := Run(s, |Keyword|, IsSpace);
      var name := Run(s, |Keyword| + gap, IsNameChar);
      if gap == 0 || name == 0 {
        assert MatchAt(s).None?;
        NoDeclaration(s, gap, name);
      } else {
        var trail := Run(s, |Keyword| + gap + name, IsSpace);
        assert MatchAt(s) == Some(Declaration(gap, name, trail));
        GreedyDeclaration(s, gap, name, trail);
      }
    }
  }

  lemma NoDeclaration(s: string, gap: nat, name: nat)
    requires |s| >= |Keyword| && s[..|Keyword|] == Keyword
    requires gap == Run(s, |Keyword|, IsSpace)
    requires |Keyword| + gap <= |s| && name == Run(s, |Keyword| + gap, IsNameChar)
    requires gap == 0 || name == 0
    ensures !StartsDeclaration(s)
  {
    RunIsLongest(s, |Keyword|, IsSpace);
    RunIsLongest(s, |Keyword| + gap, IsNameChar);
    forall k | |Keyword| < k < |s| && SpaceIn(s, |Keyword|, k) ensures !IsNameChar(s[k]) {
      RunAtLeast(s, |Keyword|, k - |Keyword|, IsSpace);
    }
  }

  lemma GreedyDeclaration(s: string, gap: nat, name: nat, trail: nat)
    requires |s| >= |Keyword| && s[..|Keyword|] == Keyword
    requires gap == Run(s, |Keyword|, IsSpace)
    requires |Keyword| + gap <= |s| && name == Run(s, |Keyword| + gap, IsNameChar)
    requires |Keyword| + gap + name <= |s| && trail == Run(s, |Keyword| + gap + name, IsSpace)
    requires gap > 0 && name > 0
    ensures StartsDeclaration(s)
    ensures IsGreedyMatch(s, Declaration(gap, name, trail))
  {
    var d := Declaration(gap, name, trail);
    var nameStart := |Keyword| + gap;
    var nameEnd := nameStart + name;
    assert d.Length() == nameEnd + trail;
    assert SpaceIn(s, |Keyword|, nameStart) by {
      RunIsLongest(s, |Keyword|, IsSpace);
    }
    assert NameIn(s, nameStart, nameEnd) && (nameEnd == |s| || !IsNameChar(s[nameEnd])) by {
      RunIsLongest(s, nameStart, IsNameChar);
    }
    assert SpaceIn(s, nameEnd, d.Length()) && (d.Length() == |s| || !IsSpace(s[d.Length()])) by {
      RunIsLongest(s, nameEnd, IsSpace);
    }
    assert IsNameChar(s[nameStart]);
  }

  /** Every declaration starts with the keyword followed by whitespace. */
  lemma MatchNeedsKeyword(s: string)
    ensures MatchAt(s).Some? ==>
              |s| > |Keyword| && s[..|Keyword|] == Keyword && IsSpace(s[|Keyword|])
  {
    MatchAtMeaning(s);
  }

  /** A declaration starting at `i` is an occurrence of the keyword there. */
  lemma MatchOccurs(s: string, i: nat)
    requires i <= |s|
    ensures MatchAt(s[i..]).Some? ==> OccursAt(s, Keyword, i)
  {
    MatchNeedsKeyword(s[i..]);
    if MatchAt(s[i..]).Some? {
      assert s[i..][..|Keyword|] == s[i..i + |Keyword|];
    }
  }

  /** Only a `p` can start a declaration. */
  lemma MatchNeedsP(s: string)
    ensures |s| > 0 && s[0] != 'p' ==> MatchAt(s).None?
  {
    MatchNeedsKeyword(s);
    if MatchAt(s).Some? {
      assert s[0] == s[..|Keyword|][0] == Keyword[0] == 'p';
    }
  }

  /** Kotlin's `replace(Regex("package\\s+[\\w.]+\\s*"), "")`: the text is
      scanned left to right; where a declaration starts it is deleted and the
      scan resumes after it, otherwise one character is kept. */
  function StripPackages(s: string): (r: string)
    ensures |r| <= |s|
    decreases |s|
  {
    if |s| == 0 then ""
    else
      match MatchAt(s)
      case Some(d) => StripPackages(s[d.Length()..])
      case None => [s[0]] + StripPackages(s[1..])
  }

  /** Where no declaration starts anywhere, nothing is removed. */
  lemma {:induction false} StripWithoutMatch(s: string)
    requires forall i :: 0 <= i < |s| ==> MatchAt(s[i..]).None?
    ensures StripPackages(s) == s
    decreases |s|
  {
    if |s| > 0 {
      assert MatchAt(s[0..]).None? && s[0..] == s;
      assert forall i :: 0 <= i < |s| - 1 ==> s[1..][i..] == s[i + 1..];
      StripWithoutMatch(s[1..]);
      assert s == [s[0]] + s[1..];
    }
  }

  /** A text that does not contain the word `package` keeps all its characters. */
  lemma StripWithoutKeyword(s: string)
    requires !Contains(s, Keyword)
    ensures StripPackages(s) == s
  {
    forall i | 0 <= i < |s| ensures MatchAt(s[i..]).None? {
      MatchOccurs(s, i);
    }
    StripWithoutMatch(s);
  }

  /** A text without whitespace keeps all its characters: every declaration
      needs whitespace after the keyword. */
  lemma StripWithoutSpace(s: string)
    requires NoSpace(s)
    ensures StripPackages(s) == s
  {
    forall i | 0 <= i < |s| ensures MatchAt(s[i..]).None? {
      MatchNeedsKeyword(s[i..]);
    }
    StripWithoutMatch(s);
  }

  /** Leading whitespace is kept as it is and the rest is stripped on its own. */
  lemma {:induction false} StripSpacePrefix(s: string, k: nat)
    requires k <= |s| && AllSpace(s[..k])
    ensures StripPackages(s) == s[..k] + StripPackages(s[k..])
    decreases k
  {
    if k > 0 {
      var t := s[1..];
      assert IsSpace(s[0]) by {
        assert s[0] == s[..k][0];
      }
      StripKeepsSpace(s);
      assert AllSpace(t[..k - 1]) by {
        assert t[..k - 1] == s[..k][1..];
      }
      StripSpacePrefix(t, k - 1);
      assert t[k - 1..] == s[k..];
      PrependSlice(s, k, StripPackages(s), StripPackages(t), StripPackages(s[k..]));
    } else {
      EmptyPrefix(s[..k], StripPackages(s[k..]));
    }
  }

  /** A leading whitespace character is kept: it cannot start a declaration. */
  lemma StripKeepsSpace(s: string)
    requires |s| > 0 && IsSpace(s[0])
    ensures StripPackages(s) == [s[0]] + StripPackages(s[1..])
  {
    MatchNeedsP(s);
  }

  // Sequence algebra kept apart from the string functions, so that the
  // solver never has to unfold them while reasoning about concatenation.

  lemma PrependSlice(s: string, k: nat, whole: string, tail: string, rest: string)
    requires 0 < k <= |s|
    requires whole == [s[0]] + tail && tail == s[1..][..k - 1] + rest
    ensures whole == s[..k] + rest
  {
    assert [s[0]] + s[1..][..k - 1] == s[..k];
  }

  lemma EmptyPrefix(e: string, x: string)
    requires |e| == 0
    ensures e + x == x
  {
  }

  // ---------------------------------------------------------------------------
  // Step 2: deleting whitespace, `replace(Regex("\\s+"), "")`
  // ---------------------------------------------------------------------------

  /** The text with every whitespace character removed. */
  function DeleteSpaces(s: string): (r: string)
    ensures NoSpace(r)
    ensures |r| <= |s|
    ensures forall c :: c in r <==> c in s && !IsSpace(c)
    decreases |s|
  {
    if |s| == 0 then ""
    else if IsSpace(s[0]) then DeleteSpaces(s[1..])
    else [s[0]] + DeleteSpaces(s[1..])
  }

  /** Deleting whitespace works piecewise. */
  lemma {:induction false} DeleteSpacesConcat(a: string, b: string)
    ensures DeleteSpaces(a + b) == DeleteSpaces(a) + DeleteSpaces(b)
    decreases |a|
  {
    if |a| > 0 {
      var t := a[1..];
      assert (a + b)[0] == a[0];
      assert (a + b)[1..] == t + b;
      DeleteSpacesConcat(t, b);
      if !IsSpace(a[0]) {
        ConsAssociates(a[0], DeleteSpaces(t), DeleteSpaces(b));
      }
    } else {
      EmptyPrefix(a, b);
    }
  }

  lemma ConsAssociates(c: char, x: string, y: string)
    ensures [c] + (x + y) == ([c] + x) + y
  {
  }

  /** A text without whitespace is left unchanged. */
  lemma {:induction false} DeleteSpacesWithoutSpace(s: string)
    requires NoSpace(s)
    ensures DeleteSpaces(s) == s
    decreases |s|
  {
    if |s| > 0 {
      DeleteSpacesWithoutSpace(s[1..]);
      assert s == [s[0]] + s[1..];
    }
  }

  /** Blank text vanishes. */
  lemma DeleteSpacesOfBlank(s: string)
    requires AllSpace(s)
    ensures DeleteSpaces(s) == ""
  {
  }

  // ---------------------------------------------------------------------------
  // Step 3: `trim('{', '}', ' ', '\t', '\n', '\r')`
  // ---------------------------------------------------------------------------

  /** Length of the longest run of characters satisfying `p` that ends just
      before position `end` of `s`: the mirror image of `Run`. */
  function RunBack(s: string, end: nat, p: char -> bool): (n: nat)
    requires end <= |s|
    ensures n <= end
    decreases end
  {
    if end > 0 && p(s[end - 1]) then 1 + RunBack(s, end - 1, p) else 0
  }

  /** Every character of the backward run is in the class, and it stops at
      the start of the text or at a character outside it. */
  lemma {:induction false} RunBackIsLongest(s: string, end: nat, p: char -> bool)
    requires end <= |s|
    ensures forall i :: end - RunBack(s, end, p) <= i < end ==> p(s[i])
    ensures RunBack(s, end, p) == end || !p(s[end - RunBack(s, end, p) - 1])
    decreases end
  {
    if end > 0 && p(s[end - 1]) {
      RunBackIsLongest(s, end - 1, p);
    }
  }

  /** `r` is the slice of `s` at `i`, and everything outside it is a trim character. */
  predicate TrimmedAt(s: string, r: string, i: int) {
    && 0 <= i && i + |r| <= |s| && r == s[i..i + |r|]
    && (forall k :: 0 <= k < i ==> IsTrimChar(s[k]))
    && (forall k :: i + |r| <= k < |s| ==> IsTrimChar(s[k]))
  }

  /** Kotlin's `trim(chars)`: the leading trim characters are dropped, then
      the trailing ones, never going back past the first character kept. */
  function Trim(s: string): (r: string)
    ensures |r| == 0 || (!IsTrimChar(r[0]) && !IsTrimChar(r[|r| - 1]))
    ensures exists i :: TrimmedAt(s, r, i)
  {
    var i := Run(s, 0, IsTrimChar);
    var j := |s| - RunBack(s, |s|, IsTrimChar);
    RunIsLongest(s, 0, IsTrimChar);
    RunBackIsLongest(s, |s|, IsTrimChar);
    if j <= i then
      assert TrimmedAt(s, "", i);
      ""
    else
      assert TrimmedAt(s, s[i..j], i);
      s[i..j]
  }

  /** A text that neither starts nor ends with a trim character is its own trim. */
  lemma TrimUntrimmed(s: string)
    requires |s| == 0 || (!IsTrimChar(s[0]) && !IsTrimChar(s[|s| - 1]))
    ensures Trim(s) == s
  {
    assert Run(s, 0, IsTrimChar) == 0;
    assert RunBack(s, |s|, IsTrimChar) == 0;
    assert s[0..|s|] == s;
  }

  /** The trim is determined by what it promises: a slice with only trim
      characters around it and none at its own ends is the trim. */
  lemma TrimIsUnique(s: string, r: string, i: int)
    requires TrimmedAt(s, r, i)
    requires |r| == 0 || (!IsTrimChar(r[0]) && !IsTrimChar(r[|r| - 1]))
    ensures Trim(s) == r
  {
    var t := Trim(s);
    var j :| TrimmedAt(s, t, j);
    if |r| == 0 {
      if j < |s| {
        OutsideTrimmed(s, r, i, j);
      }
      assert |t| == 0;
    } else {
      OutsideTrimmed(s, t, j, i);
      OutsideTrimmed(s, t, j, i + |r| - 1);
      if j < |s| {
        OutsideTrimmed(s, r, i, j);
      }
      if 0 < j + |t| {
        OutsideTrimmed(s, r, i, j + |t| - 1);
      }
      assert j == i && |t| == |r|;
    }
  }

  /** Trim characters around a text leave its trim unchanged. */
  lemma TrimIgnoresSurrounding(pre: string, t: string, post: string)
    requires AllTrim(pre) && AllTrim(post)
    ensures Trim(pre + t + post) == Trim(t)
  {
    var r := Trim(t);
    var i :| TrimmedAt(t, r, i);
    var s := pre + t + post;
    assert s[|pre| + i..|pre| + i + |r|] == t[i..i + |r|];
    forall k | 0 <= k < |pre| + i ensures IsTrimChar(s[k]) {
      if k >= |pre| {
        assert s[k] == t[k - |pre|];
      }
    }
    forall k | |pre| + i + |r| <= k < |s| ensures IsTrimChar(s[k]) {
      if k < |pre| + |t| {
        assert s[k] == t[k - |pre|];
      } else {
        assert s[k] == post[k - |pre| - |t|];
      }
    }
    TrimIsUnique(s, r, |pre| + i);
  }

  /** Deleting whitespace from trim characters leaves trim characters. */
  lemma DeleteSpacesKeepsTrim(s: string)
    requires AllTrim(s)
    ensures AllTrim(DeleteSpaces(s))
  {
    var r := DeleteSpaces(s);
    forall k | 0 <= k < |r| ensures IsTrimChar(r[k]) {
      assert r[k] in s;
    }
  }

  // ---------------------------------------------------------------------------
  // The comparison
  // ---------------------------------------------------------------------------

  /** The first two normalisation steps: declarations removed, whitespace deleted. */
  function Flattened(s: string): string {
    DeleteSpaces(StripPackages(s))
  }

  /** The three normalisation steps applied to one text. The result holds no
      whitespace and neither starts nor ends with a brace or blank. */
  function Normalize(s: string): (r: string)
    ensures NoSpace(r)
    ensures |r| == 0 || (!IsTrimChar(r[0]) && !IsTrimChar(r[|r| - 1]))
  {
    var t := Flattened(s);
    var r := Trim(t);
    assert NoSpace(r) by {
      var i :| TrimmedAt(t, r, i);
      SliceHasNoSpace(t, r, i);
    }
    r
  }

  lemma SliceHasNoSpace(t: string, r: string, i: int)
    requires NoSpace(t) && TrimmedAt(t, r, i)
    ensures NoSpace(r)
  {
    forall k | 0 <= k < |r| ensures !IsSpace(r[k]) {
      assert r[k] == t[i..i + |r|][k] == t[i + k];
    }
  }

  /** `CodeComparator.equalsIgnoringWhitespace`: both texts normalise to the
      same text, so equal texts always match; `ComparisonWithoutPackages` and
      `OnlyDeclarationsDiffer` say which different texts match. */
  predicate EqualsIgnoringWhitespace(actual: string, expected: string): (r: bool)
    ensures actual == expected ==> r
  {
    Normalize(actual) == Normalize(expected)
  }

  /** `CodeComparator.equalsExactly`: plain equality, which is stricter than
      the whitespace-insensitive comparison. */
  predicate EqualsExactly(actual: string, expected: string): (r: bool)
    ensures r <==> actual == expected
    ensures r ==> EqualsIgnoringWhitespace(actual, expected)
  {
    actual == expected
  }

  // ---------------------------------------------------------------------------
  // Properties
  // ---------------------------------------------------------------------------

  /** Normalising twice changes nothing. */
  lemma NormalizeIdempotent(s: string)
    ensures Normalize(Normalize(s)) == Normalize(s)
  {
    var n := Normalize(s);
    StripWithoutSpace(n);
    DeleteSpacesWithoutSpace(n);
    TrimUntrimmed(n);
  }

  /** Every blank text normalises to the empty text. */
  lemma BlankNormalizesToEmpty(s: string)
    requires AllSpace(s)
    ensures Normalize(s) == ""
  {
    StripSpacePrefix(s, |s|);
    assert s[..|s|] == s;
    DeleteSpacesOfBlank(s);
  }

  /** The comparator is an equivalence: reflexive, symmetric and transitive. */
  lemma IgnoringWhitespaceIsEquivalence(a: string, b: string, c: string)
    ensures EqualsIgnoringWhitespace(a, a)
    ensures EqualsIgnoringWhitespace(a, b) <==> EqualsIgnoringWhitespace(b, a)
    ensures EqualsIgnoringWhitespace(a, b) && EqualsIgnoringWhitespace(b, c)
            ==> EqualsIgnoringWhitespace(a, c)
  {
  }

  /** Exact equality is finer than the normalised comparison. */
  lemma ExactlyImpliesIgnoringWhitespace(a: string, b: string)
    ensures EqualsExactly(a, b) ==> EqualsIgnoringWhitespace(a, b)
  {
  }

  /** The empty-string cases: both comparisons are reflexive on `""`, and a
      blank text equals `""` only when whitespace is ignored. */
  lemma EmptyStringCases()
    ensures EqualsExactly("", "") && EqualsIgnoringWhitespace("", "")
    ensures EqualsIgnoringWhitespace("   \n\t", "")
    ensures !EqualsExactly("   \n\t", "")
  {
    BlankNormalizesToEmpty("   \n\t");
    BlankNormalizesToEmpty("");
  }

  /** The greedy match is the only one: whenever the parts of `d` fit at the
      start of `s` and cannot be extended, `d` is what `MatchAt` finds. */
  lemma GreedyMatchIsUnique(s: string, d: Declaration)
    requires IsGreedyMatch(s, d)
    ensures MatchAt(s) == Some(d)
  {
    var nameStart := |Keyword| + d.gap;
    var nameEnd := nameStart + d.name;
    RunStops(s, |Keyword|, d.gap, IsSpace);
    RunStops(s, nameStart, d.name, IsNameChar);
    RunStops(s, nameEnd, d.trail, IsSpace);
  }

  /** A package declaration at the start of a text is ignored by the
      comparison: the text normalises like the rest after the declaration. */
  lemma DeclarationIgnored(s: string, d: Declaration)
    requires IsGreedyMatch(s, d)
    ensures Normalize(s) == Normalize(s[d.Length()..])
  {
    DeclarationFlattened(s, d);
  }

  lemma DeclarationFlattened(s: string, d: Declaration)
    requires IsGreedyMatch(s, d)
    ensures Flattened(s) == Flattened(s[d.Length()..])
  {
    GreedyMatchIsUnique(s, d);
    StripAtMatch(s, d.Length());
  }

  /** A match is removed as a whole. */
  lemma StripAtMatch(s: string, n: nat)
    requires MatchAt(s).Some? && MatchAt(s).value.Length() == n
    ensures n <= |s| && Flattened(s) == Flattened(s[n..])
  {
    assert StripPackages(s) == StripPackages(s[n..]);
  }

  /** Texts that differ only in their leading package declarations compare
      equal ignoring whitespace. */
  lemma OnlyDeclarationsDiffer(a: string, da: Declaration, b: string, db: Declaration)
    requires IsGreedyMatch(a, da) && IsGreedyMatch(b, db)
    requires a[da.Length()..] == b[db.Length()..]
    ensures EqualsIgnoringWhitespace(a, b)
  {
    DeclarationIgnored(a, da);
    DeclarationIgnored(b, db);
  }

  lemma DifferentPackagesExample()
    ensures EqualsIgnoringWhitespace("package a.b\nclass X", "package c.d\nclass X")
  {
    var a, b := "package a.b\nclass X", "package c.d\nclass X";
    var d := Declaration(1, 3, 1);
    ExampleMatch(a);
    ExampleMatch(b);
    assert a[12..] == b[12..];
    OnlyDeclarationsDiffer(a, d, b, d);
  }

  /** `package x.y` followed by a line break and `class X` starts with a
      declaration of one blank, a three-character name and one line break. */
  lemma ExampleMatch(s: string)
    requires |s| == 19 && s[..7] == Keyword && s[7] == ' ' && s[11] == '\n' && s[12] == 'c'
    requires IsNameChar(s[8]) && s[9] == '.' && IsNameChar(s[10])
    ensures IsGreedyMatch(s, Declaration(1, 3, 1))
  {
  }

  /** A text lacking any one letter of `package` cannot contain the word. */
  lemma NoKeywordWithout(s: string, c: char)
    requires c in Keyword && c !in s
    ensures !Contains(s, Keyword)
  {
  }

  /** Without the word `package` in either text, the comparison is exactly
      equality of the whitespace-free texts up to boundary trimming; in
      particular texts equal after deleting whitespace compare equal, and any
      other difference (letter case included) is seen. */
  lemma ComparisonWithoutPackages(a: string, b: string)
    requires !Contains(a, Keyword) && !Contains(b, Keyword)
    ensures EqualsIgnoringWhitespace(a, b) <==> Trim(DeleteSpaces(a)) == Trim(DeleteSpaces(b))
    ensures DeleteSpaces(a) == DeleteSpaces(b) ==> EqualsIgnoringWhitespace(a, b)
  {
    StripWithoutKeyword(a);
    StripWithoutKeyword(b);
  }

  /** For texts without the word `package`, without whitespace and without
      braces at their ends, the comparison is plain equality: any difference,
      letter case included, is seen. */
  lemma PlainTextsCompareExactly(a: string, b: string)
    requires !Contains(a, Keyword) && !Contains(b, Keyword)
    requires NoSpace(a) && NoSpace(b)
    requires |a| == 0 || (!IsTrimChar(a[0]) && !IsTrimChar(a[|a| - 1]))
    requires |b| == 0 || (!IsTrimChar(b[0]) && !IsTrimChar(b[|b| - 1]))
    ensures EqualsIgnoringWhitespace(a, b) <==> a == b
  {
    assert Trim(DeleteSpaces(a)) == a by {
      DeleteSpacesWithoutSpace(a);
      TrimUntrimmed(a);
    }
    assert Trim(DeleteSpaces(b)) == b by {
      DeleteSpacesWithoutSpace(b);
      TrimUntrimmed(b);
    }
    ComparisonWithoutPackages(a, b);
  }

  /** Normalisation only trims at the ends: everything of the whitespace-free,
      package-free text between two non-trimmed characters survives, braces
      included. */
  lemma InteriorPreserved(s: string, a: int, b: int)
    requires 0 <= a <= b < |Flattened(s)|
    requires !IsTrimChar(Flattened(s)[a]) && !IsTrimChar(Flattened(s)[b])
    ensures Contains(Normalize(s), Flattened(s)[a..b + 1])
  {
    TrimKeepsInterior(Flattened(s), a, b);
  }

  /** Trimming keeps every stretch between two non-trimmed characters. */
  lemma TrimKeepsInterior(t: string, a: int, b: int)
    requires 0 <= a <= b < |t|
    requires !IsTrimChar(t[a]) && !IsTrimChar(t[b])
    ensures Contains(Trim(t), t[a..b + 1])
  {
    var r := Trim(t);
    var i :| TrimmedAt(t, r, i);
    SliceKeepsInterior(t, r, i, a, b);
  }

  lemma SliceKeepsInterior(t: string, r: string, i: int, a: int, b: int)
    requires TrimmedAt(t, r, i)
    requires 0 <= a <= b < |t|
    requires !IsTrimChar(t[a]) && !IsTrimChar(t[b])
    ensures OccursAt(r, t[a..b + 1], a - i)
  {
    OutsideTrimmed(t, r, i, a);
    OutsideTrimmed(t, r, i, b);
    assert i <= a && b < i + |r|;
    forall k | a <= k <= b ensures r[k - i] == t[k] {
      assert r[k - i] == t[i..i + |r|][k - i];
    }
    assert r[a - i..b + 1 - i] == t[a..b + 1];
  }

  /** Every character outside the kept slice is a trim character. */
  lemma OutsideTrimmed(t: string, r: string, i: int, j: int)
    requires TrimmedAt(t, r, i) && 0 <= j < |t|
    ensures j < i || j >= i + |r| ==> IsTrimChar(t[j])
  {
  }

  /** Braces and whitespace around a text without the word `package` do not
      matter to the comparison. */
  lemma BoundaryBracesIgnored(pre: string, s: string, post: string)
    requires AllTrim(pre) && AllTrim(post)
    requires !Contains(pre + s + post, Keyword)
    ensures EqualsIgnoringWhitespace(pre + s + post, s)
  {
    ContainsWithin(pre, s, post, Keyword);
    StripWithoutKeyword(pre + s + post);
    StripWithoutKeyword(s);
    DeleteSpacesConcat(pre + s, post);
    DeleteSpacesConcat(pre, s);
    DeleteSpacesKeepsTrim(pre);
    DeleteSpacesKeepsTrim(post);
    TrimIgnoresSurrounding(DeleteSpaces(pre), DeleteSpaces(s), DeleteSpaces(post));
  }

  /** `"class A {}"` matches `"class A"`. */
  lemma BracesExample()
    ensures EqualsIgnoringWhitespace("class A {}", "class A")
  {
    var text, post := "class A", " {}";
    assert AllTrim(post) by {
      assert |post| == 3 && post[0] == ' ' && post[1] == '{' && post[2] == '}';
    }
    assert "" + text + post == "class A {}";
    NoKeywordWithout("" + text + post, 'p');
    BoundaryBracesIgnored("", text, post);
  }

  // ---------------------------------------------------------------------------
  // Declarations after other text
  // ---------------------------------------------------------------------------

  /** No declaration starts inside a text free of `package` when a `p`
      follows it: the word has no proper prefix that is also a suffix, and
      its first letter does not recur in it. */
  lemma NoMatchBeforeKeyword(p: string, s: string)
    requires !Contains(p, Keyword) && |s| > 0 && s[0] == 'p'
    ensures |p| > 0 ==> MatchAt(p + s).None?
  {
    if |p| > 0 {
      var t := p + s;
      if |p| >= |Keyword| {
        LongPrefixNotKeyword(p, s);
      } else if |t| >= |Keyword| {
        ShortPrefixNotKeyword(p, s);
      }
      NotKeywordStart(t);
    }
  }

  lemma LongPrefixNotKeyword(p: string, s: string)
    requires !Contains(p, Keyword) && |p| >= |Keyword|
    ensures (p + s)[..|Keyword|] != Keyword
  {
    assert !OccursAt(p, Keyword, 0);
    assert (p + s)[..|Keyword|] == p[..|Keyword|];
  }

  lemma ShortPrefixNotKeyword(p: string, s: string)
    requires 0 < |p| < |Keyword| <= |p + s| && s[0] == 'p'
    ensures (p + s)[..|Keyword|] != Keyword
  {
    var t := p + s;
    assert t[|p|] == 'p' != Keyword[|p|];
    assert t[..|Keyword|][|p|] == t[|p|];
  }

  lemma NotKeywordStart(t: string)
    requires !(|t| >= |Keyword| && t[..|Keyword|] == Keyword)
    ensures MatchAt(t).None?
  {
  }

  /** Java's `replaceAll` removes a declaration wherever the scan reaches it:
      behind a prefix free of `package` (a licence header, say), the prefix is
      kept and the declaration removed. */
  lemma DeclarationAfterPlainPrefix(p: string, s: string, d: Declaration)
    requires !Contains(p, Keyword) && IsGreedyMatch(s, d)
    ensures StripPackages(p + s) == p + StripPackages(s[d.Length()..])
  {
    GreedyMatchIsUnique(s, d);
    assert s[0] == s[..|Keyword|][0] == 'p';
    StripPlainPrefix(p, s);
  }

  /** A prefix free of `package` in front of a text starting with `p` is kept
      as it is, and the text is stripped on its own. */
  lemma {:induction false} StripPlainPrefix(p: string, s: string)
    requires !Contains(p, Keyword) && |s| > 0 && s[0] == 'p'
    ensures StripPackages(p + s) == p + StripPackages(s)
    decreases |p|
  {
    if |p| == 0 {
      assert p + s == s;
      EmptyPrefix(p, StripPackages(s));
    } else {
      var t := p[1..];
      assert !Contains(t, Keyword) by {
        ContainsWithin([p[0]], t, "", Keyword);
        assert [p[0]] + t + "" == p;
      }
      StripPlainPrefix(t, s);
      NoMatchBeforeKeyword(p, s);
      PrefixStep(p, s, StripPackages(s));
    }
  }

  /** One step of the scan over a prefix character where no declaration starts. */
  lemma PrefixStep(p: string, s: string, rest: string)
    requires |p| > 0 && MatchAt(p + s).None?
    requires StripPackages(p[1..] + s) == p[1..] + rest
    ensures StripPackages(p + s) == p + rest
  {
    var t := p[1..];
    TailOfConcat(p, s);
    KeepFirst(p + s, t + s);
    PrependHead(p, rest);
  }

  lemma TailOfConcat(p: string, s: string)
    requires |p| > 0
    ensures (p + s)[1..] == p[1..] + s
  {
  }

  lemma PrependHead(p: string, rest: string)
    requires |p| > 0
    ensures [p[0]] + (p[1..] + rest) == p + rest
  {
    assert [p[0]] + p[1..] == p;
  }

  /** Where no declaration starts, the scan keeps the first character. */
  lemma KeepFirst(u: string, tail: string)
    requires |u| > 0 && MatchAt(u).None? && tail == u[1..]
    ensures StripPackages(u) == [u[0]] + StripPackages(tail)
  {
  }

  /** Two texts that share a prefix free of `package` and differ only in the
      declaration after it compare equal. */
  lemma DeclarationsAfterPrefixDiffer(p: string, a: string, da: Declaration, b: string, db: Declaration)
    requires !Contains(p, Keyword)
    requires IsGreedyMatch(a, da) && IsGreedyMatch(b, db)
    requires a[da.Length()..] == b[db.Length()..]
    ensures EqualsIgnoringWhitespace(p + a, p + b)
  {
    DeclarationAfterPlainPrefix(p, a, da);
    DeclarationAfterPlainPrefix(p, b, db);
  }

  /** The removal is not confined to declarations: behind `x `, the greedy
      name of the first `package` swallows the word `package` that follows,
      so what comes after it stays. `x package package a.b` and
      `x package package c.d` differ, although they differ only in the names
      after `package`. */
  lemma RepeatedKeywordDiffers(m1: char, m2: char, tail: string)
    requires m1 != m2 && IsWordChar(m1) && IsWordChar(m2) && m1 != 'p' && m2 != 'p'
    requires 'p' !in tail
    ensures !EqualsIgnoringWhitespace("x package package " + [m1] + tail,
                                      "x package package " + [m2] + tail)
  {
    RepeatedKeywordKeepsName(m1, tail);
    RepeatedKeywordKeepsName(m2, tail);
  }

  /** Behind `x `, `package package ` is removed as one declaration and the
      character after it comes second in the normalised text. */
  lemma RepeatedKeywordKeepsName(m: char, tail: string)
    requires IsWordChar(m) && m != 'p' && 'p' !in tail
    ensures var s := "x package package " + [m] + tail;
            |Normalize(s)| > 1 && Normalize(s)[1] == m
  {
    var head := "package package ";
    var t := head + [m] + tail;
    assert t[..7] == head[..7] == Keyword;
    assert t[8..15] == head[8..15] == Keyword;
    assert t[7] == ' ' && t[15] == ' ' && t[16] == m;
    var rest := t[16..];
    assert rest == [m] + tail;
    assert 'p' !in rest;
    assert "x " + t == "x package package " + [m] + tail;
    RepeatedKeywordStrips(t);
  }

  /** Behind `x `, `package package ` followed by text without `p` is removed
      as one declaration, and the text's first character is kept second. */
  lemma RepeatedKeywordStrips(t: string)
    requires |t| > 16 && t[..7] == Keyword && t[7] == ' ' && t[8..15] == Keyword && t[15] == ' '
    requires 'p' !in t[16..] && !IsTrimChar(t[16]) && !IsSpace(t[16])
    ensures |Normalize("x " + t)| > 1 && Normalize("x " + t)[1] == t[16]
  {
    var p := "x ";
    NoKeywordWithout(p, 'p');
    RepeatedMatch(t);
    DeclarationAfterPlainPrefix(p, t, Declaration(1, 7, 1));
    var rest := t[16..];
    NoKeywordWithout(rest, 'p');
    StripWithoutKeyword(rest);
    DeleteSpacesConcat(p, rest);
    assert DeleteSpaces(p) == "x";
    var f := DeleteSpaces(p) + DeleteSpaces(rest);
    assert f[1] == rest[0];
    SecondCharKept(f);
  }

  /** `package`, a blank, the word `package` as the name and a blank form one
      declaration. */
  lemma RepeatedMatch(t: string)
    requires |t| > 16 && t[..7] == Keyword && t[7] == ' ' && t[8..15] == Keyword && t[15] == ' '
    requires !IsSpace(t[16])
    ensures IsGreedyMatch(t, Declaration(1, 7, 1))
  {
    forall i | 8 <= i < 15 ensures IsNameChar(t[i]) {
      assert t[i] == t[8..15][i - 8];
    }
  }

  /** Trimming keeps the second character when neither of the first two is
      a trim character. */
  lemma SecondCharKept(f: string)
    requires |f| >= 2 && !IsTrimChar(f[0]) && !IsTrimChar(f[1])
    ensures |Trim(f)| >= 2 && Trim(f)[1] == f[1]
  {
    var r := Trim(f);
    var i :| TrimmedAt(f, r, i);
    OutsideTrimmed(f, r, i, 0);
    OutsideTrimmed(f, r, i, 1);
    assert i == 0 && |r| >= 2;
    assert r[1] == f[i..i + |r|][1];
  }
}
