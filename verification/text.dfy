/** String utilities shared by the comparator, the properties file and the
    success check: substring search, joining and splitting lines. */
module Text {

  /** `t` occurs in `s` starting at index `i`. */
  predicate OccursAt(s: string, t: string, i: int) {
    0 <= i && i + |t| <= |s| && s[i..i + |t|] == t
  }

  /** Kotlin's `s.contains(t)`: `t` is a substring of `s`. */
  function Contains(s: string, t: string): (r: bool)
    ensures r <==> exists i :: OccursAt(s, t, i)
    decreases |s|
  {
    if |t| <= |s| && s[..|t|] == t then
      assert OccursAt(s, t, 0);
      true
    else if |s| == 0 then
      false
    else
      var rest := Contains(s[1..], t);
      assert forall i :: OccursAt(s[1..], t, i) <==> OccursAt(s, t, i + 1) by {
        forall i ensures OccursAt(s[1..], t, i) <==> OccursAt(s, t, i + 1) {
          if 0 <= i && i + |t| <= |s| - 1 {
            assert s[1..][i..i + |t|] == s[i + 1..i + 1 + |t|];
          }
        }
      }
      assert forall j :: OccursAt(s, t, j) ==> j >= 1 && OccursAt(s[1..], t, j - 1) by {
        forall j | OccursAt(s, t, j) ensures j >= 1 && OccursAt(s[1..], t, j - 1) {
          assert OccursAt(s[1..], t, (j - 1)) <==> OccursAt(s, t, (j - 1) + 1);
        }
      }
      rest
  }

  /** A substring of the middle piece is a substring of the whole. */
  lemma ContainsWithin(pre: string, s: string, post: string, t: string)
    ensures Contains(s, t) ==> Contains(pre + s + post, t)
  {
    if Contains(s, t) {
      var i :| OccursAt(s, t, i);
      var whole := pre + s + post;
      assert whole[|pre| + i..|pre| + i + |t|] == s[i..i + |t|];
      assert OccursAt(whole, t, |pre| + i);
    }
  }

  /** Kotlin's `joinToString(sep)`: the lines with `sep` between neighbours and
      no trailing separator. */
  function Join(lines: seq<string>, sep: char): string
    decreases |lines|
  {
    if |lines| == 0 then ""
    else if |lines| == 1 then lines[0]
    else lines[0] + [sep] + Join(lines[1..], sep)
  }

  /** Splits `s` at every `sep`; the inverse of `Join` on lines free of `sep`. */
  function Split(s: string, sep: char): (r: seq<string>)
    ensures |r| >= 1
    decreases |s|
  {
    if |s| == 0 then [""]
    else
      var rest := Split(s[1..], sep);
      if s[0] == sep then [""] + rest
      else [[s[0]] + rest[0]] + rest[1..]
  }

  /** Splitting a line free of `sep` followed by more text extends the first piece. */
  lemma {:induction false} SplitPrefix(line: string, t: string, sep: char)
    requires sep !in line
    ensures Split(line + t, sep) == [line + Split(t, sep)[0]] + Split(t, sep)[1..]
    decreases |line|
  {
    if |line| > 0 {
      var s := line + t;
      assert s[0] == line[0] && s[1..] == line[1..] + t;
      SplitPrefix(line[1..], t, sep);
      assert [line[0]] + (line[1..] + Split(t, sep)[0]) == line + Split(t, sep)[0];
    } else {
      var r := Split(t, sep);
      assert line + t == t && line + r[0] == r[0];
      assert [r[0]] + r[1..] == r;
    }
  }

  /** Joining lines that do not contain the separator and splitting the result
      gives the lines back. */
  lemma {:induction false} SplitJoin(lines: seq<string>, sep: char)
    requires |lines| >= 1
    requires forall i :: 0 <= i < |lines| ==> sep !in lines[i]
    ensures Split(Join(lines, sep), sep) == lines
    decreases |lines|
  {
    if |lines| == 1 {
      SplitPrefix(lines[0], "", sep);
      assert lines[0] + "" == lines[0];
    } else {
      var tail := Join(lines[1..], sep);
      SplitJoin(lines[1..], sep);
      assert Split([sep] + tail, sep) == [""] + lines[1..] by {
        assert ([sep] + tail)[1..] == tail;
      }
      assert lines[0] + [sep] + tail == lines[0] + ([sep] + tail);
      SplitPrefix(lines[0], [sep] + tail, sep);
      assert lines[0] + "" == lines[0];
      assert lines == [lines[0]] + lines[1..];
    }
  }

  /** A non-empty first line makes the joined text non-empty. */
  lemma JoinNonEmpty(lines: seq<string>, sep: char)
    requires |lines| >= 1 && |lines[0]| > 0
    ensures |Join(lines, sep)| > 0
  {
  }
}
