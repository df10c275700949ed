/** The project directory as a map from root-relative path to file text, and
    the ordered write plans the builders apply to it. */
module FileSystem {
  import opened Wrappers
  import opened Commands

  type Path = string

  /** Every regular file under a directory, keyed by its path relative to it. */
  type Files = map<Path, string>

  /** One `writeText`: the path and the text that replaces the file's content. */
  type Write = (Path, string)

  /** Applies the writes in order, so a later write to a path replaces an
      earlier one; `ApplyReads` says what each path holds afterwards. */
  function Apply(fs: Files, plan: seq<Write>): Files
    decreases |plan|
  {
    if |plan| == 0 then fs
    else
      var w := plan[|plan| - 1];
      Apply(fs, plan[..|plan| - 1])[w.0 := w.1]
  }

  /** The text of the regular file at `p`, if there is one. */
  function Read(fs: Files, p: Path): (r: Option<string>)
    ensures r.Some? <==> p in fs
    ensures r.Some? ==> r.value == fs[p]
  {
    if p in fs then Some(fs[p]) else None
  }

  /** `p` is the root itself or a directory holding some file: `File.exists()`
      is true for it, but `readText` fails. Empty directories are not kept. */
  predicate IsDirectory(fs: Files, p: Path) {
    p == "" || exists q :: q in fs && |p| + 1 <= |q| && q[..|p| + 1] == p + "/"
  }

  /** `File.exists()`: a regular file or a directory. */
  predicate Exists(fs: Files, p: Path) {
    p in fs || IsDirectory(fs, p)
  }

  /** Some write of the plan goes to `p`. */
  ghost predicate Writes(plan: seq<Write>, p: Path) {
    exists i :: 0 <= i < |plan| && plan[i].0 == p
  }

  /** A concatenation of plans writes a path when either part does. */
  lemma WritesAppend(a: seq<Write>, b: seq<Write>, p: Path)
    ensures Writes(a + b, p) <==> Writes(a, p) || Writes(b, p)
  {
    if Writes(a + b, p) {
      var i :| 0 <= i < |a + b| && (a + b)[i].0 == p;
      if i >= |a| {
        assert b[i - |a|].0 == p;
      }
    }
    if Writes(b, p) {
      var i :| 0 <= i < |b| && b[i].0 == p;
      assert (a + b)[|a| + i].0 == p;
    }
    if Writes(a, p) {
      var i :| 0 <= i < |a| && a[i].0 == p;
      assert (a + b)[i].0 == p;
    }
  }

  /** The content the write plan gives to `p`, read as "the last write to `p`". */
  function LastWrite(plan: seq<Write>, p: Path): (r: Option<string>)
    ensures r.None? <==> forall i :: 0 <= i < |plan| ==> plan[i].0 != p
  {
    var pick := (w: Write) => if w.0 == p then Some(w.1) else None;
    LastOfMeaning(plan, pick);
    LastOf(plan, pick)
  }

  /** Reading a path after the plan gives the last write to it, or the old
      content when the plan never writes it. */
  lemma {:induction false} ApplyReads(fs: Files, plan: seq<Write>, p: Path)
    ensures Read(Apply(fs, plan), p)
            == (if LastWrite(plan, p).Some? then LastWrite(plan, p) else Read(fs, p))
    decreases |plan|
  {
    if |plan| > 0 {
      var prefix := plan[..|plan| - 1];
      var w := plan[|plan| - 1];
      ApplyReads(fs, prefix, p);
      LastOfSnoc(prefix, w, (x: Write) => if x.0 == p then Some(x.1) else None);
      assert prefix + [w] == plan;
      assert Apply(fs, plan) == Apply(fs, prefix)[w.0 := w.1];
    }
  }

  /** The paths after the plan are the old ones and the written ones, and a
      path the plan never writes keeps its content. */
  lemma ApplyKeys(fs: Files, plan: seq<Write>, p: Path)
    ensures p in Apply(fs, plan) <==> p in fs || exists i :: 0 <= i < |plan| && plan[i].0 == p
    ensures p in fs && (forall i :: 0 <= i < |plan| ==> plan[i].0 != p)
            ==> p in Apply(fs, plan) && Apply(fs, plan)[p] == fs[p]
  {
    ApplyReads(fs, plan, p);
  }

  /** Writes never delete: every file and every directory that existed before
      the plan still exists after it. */
  lemma ApplyKeepsExisting(fs: Files, plan: seq<Write>)
    ensures forall p :: p in fs ==> p in Apply(fs, plan)
    ensures forall p :: Exists(fs, p) ==> Exists(Apply(fs, plan), p)
  {
    forall p | p in fs ensures p in Apply(fs, plan) {
      ApplyKeys(fs, plan, p);
    }
    forall p | Exists(fs, p) ensures Exists(Apply(fs, plan), p) {
      if p !in fs && p != "" {
        var q :| q in fs && |p| + 1 <= |q| && q[..|p| + 1] == p + "/";
        assert q in Apply(fs, plan);
      }
    }
  }

  /** `parentFile.mkdirs()` before each write: every directory on the path
      of a file exists, as `File.exists()` sees it. */
  lemma ParentDirectoryExists(fs: Files, q: Path, k: int)
    requires q in fs && 0 <= k < |q| && q[k] == '/'
    ensures IsDirectory(fs, q[..k]) && Exists(fs, q[..k])
  {
    assert q[..k + 1] == q[..k] + "/";
  }

  /** The write at `i` is what the file holds afterwards when no later write
      goes to the same path. */
  lemma LaterWriteWins(fs: Files, plan: seq<Write>, i: int)
    requires 0 <= i < |plan|
    requires forall j :: i < j < |plan| ==> plan[j].0 != plan[i].0
    ensures plan[i].0 in Apply(fs, plan) && Apply(fs, plan)[plan[i].0] == plan[i].1
  {
    var p := plan[i].0;
    ApplyReads(fs, plan, p);
    var pick := (w: Write) => if w.0 == p then Some(w.1) else None;
    LastOfMeaning(plan, pick);
    var r := LastOf(plan, pick);
    assert pick(plan[i]).Some?;
    var k :| 0 <= k < |plan| && pick(plan[k]) == r
             && forall j :: k < j < |plan| ==> pick(plan[j]).None?;
  }

  /** Applying two plans one after the other is applying their concatenation. */
  lemma {:induction false} ApplyAppend(fs: Files, a: seq<Write>, b: seq<Write>)
    ensures Apply(fs, a + b) == Apply(Apply(fs, a), b)
    decreases |b|
  {
    if |b| == 0 {
      assert a + b == a;
    } else {
      var b' := b[..|b| - 1];
      ApplyAppend(fs, a, b');
      assert (a + b)[..|a + b| - 1] == a + b';
      assert (a + b)[|a + b| - 1] == b[|b| - 1];
    }
  }
}
