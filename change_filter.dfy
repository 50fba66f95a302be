/** The change-scoped filter of `parse_xml_result` (util.py:353-394): for every `<file>` of the
    report, keep the `<error>` nodes whose `line` attribute is one of the line numbers the `diff`
    tool prints for that file, mark them with the repository-relative path, remove the others,
    count what is kept, and record (without removing) the files left with no errors. */
module ChangeFilter {
  import opened Wrappers
  import opened PyBuiltins
  import opened Report

  // ---------------------------------------------------------------------------
  // One file's errors

  /** `currentAttrib['filePath'] = sourceFileName` (util.py:376). */
  function Marked(e: ErrorNode, path: string): ErrorNode {
    e.(filePath := Some(path))
  }

  /** An error node after the marking loop: marked when its line changed, untouched otherwise. */
  function Mark(e: ErrorNode, changed: seq<string>, path: string): ErrorNode {
    if e.line in changed then Marked(e, path) else e
  }

  /** The errors that survive the filter, marked, in report order. */
  function KeepChanged(errs: seq<ErrorNode>, changed: seq<string>, path: string): seq<ErrorNode> {
    if errs == [] then []
    else
      var rest := KeepChanged(errs[1..], changed, path);
      if errs[0].line in changed then [Marked(errs[0], path)] + rest else rest
  }

  /** `removeErrorNodeList`: the errors whose line did not change, in report order. */
  function Dropped(errs: seq<ErrorNode>, changed: seq<string>): seq<ErrorNode> {
    if errs == [] then []
    else
      var rest := Dropped(errs[1..], changed);
      if errs[0].line in changed then rest else [errs[0]] + rest
  }

  /** The children of a `<file>` after the marking loop and before the removals. */
  function Marks(errs: seq<ErrorNode>, changed: seq<string>, path: string): seq<ErrorNode> {
    if errs == [] then [] else [Mark(errs[0], changed, path)] + Marks(errs[1..], changed, path)
  }

  /** The marking loop touches each error in place: the children keep their number and order,
      and each one is marked exactly when its line changed. */
  lemma {:induction false} MarksPointwise(errs: seq<ErrorNode>, changed: seq<string>, path: string)
    ensures |Marks(errs, changed, path)| == |errs|
    ensures forall i :: 0 <= i < |errs| ==> Marks(errs, changed, path)[i] == Mark(errs[i], changed, path)
  {
    if errs != [] {
      MarksPointwise(errs[1..], changed, path);
      var ms := Marks(errs, changed, path);
      forall i | 0 < i < |errs|
        ensures ms[i] == Mark(errs[i], changed, path)
      {
        assert ms[i] == Marks(errs[1..], changed, path)[i - 1];
        assert errs[1..][i - 1] == errs[i];
      }
    }
  }

  /** `children.remove(x)`: the first child equal to `x` is taken out; Python raises ValueError
      when there is none, which the precondition excludes. */
  function RemoveFirst(s: seq<ErrorNode>, x: ErrorNode): (r: seq<ErrorNode>)
    requires x in s
    ensures |r| == |s| - 1
  {
    if s[0] == x then s[1..] else [s[0]] + RemoveFirst(s[1..], x)
  }

  /** `remove` takes out the first occurrence of `x` and nothing else: the result is `s` without
      the element at the smallest index holding `x`. */
  lemma {:induction false} RemoveFirstAt(s: seq<ErrorNode>, x: ErrorNode) returns (i: nat)
    requires x in s
    ensures i < |s| && s[i] == x && x !in s[..i]
    ensures RemoveFirst(s, x) == s[..i] + s[i + 1..]
  {
    if s[0] == x {
      i := 0;
    } else {
      var j := RemoveFirstAt(s[1..], x);
      i := j + 1;
      assert s[..i] == [s[0]] + s[1..][..j];
      assert s[i + 1..] == s[1..][j + 1..];
    }
  }

  /** The filter works element by element: filtering a concatenation filters each part, so the
      kept errors and the removal list both keep report order. */
  lemma {:induction false} FilterAppend(a: seq<ErrorNode>, b: seq<ErrorNode>, changed: seq<string>, path: string)
    ensures KeepChanged(a + b, changed, path) == KeepChanged(a, changed, path) + KeepChanged(b, changed, path)
    ensures Dropped(a + b, changed) == Dropped(a, changed) + Dropped(b, changed)
  {
    if a != [] {
      assert (a + b)[0] == a[0] && (a + b)[1..] == a[1..] + b;
      FilterAppend(a[1..], b, changed, path);
    } else {
      assert a + b == b;
    }
  }

  /** An error is kept (marked) exactly when some error of the report is on a changed line. */
  lemma {:induction false} KeepChangedMembership(errs: seq<ErrorNode>, changed: seq<string>, path: string, e: ErrorNode)
    ensures e in KeepChanged(errs, changed, path) <==>
      exists i :: 0 <= i < |errs| && errs[i].line in changed && e == Marked(errs[i], path)
  {
    if errs != [] {
      KeepChangedMembership(errs[1..], changed, path, e);
      if exists i :: 0 <= i < |errs| && errs[i].line in changed && e == Marked(errs[i], path) {
        var i :| 0 <= i < |errs| && errs[i].line in changed && e == Marked(errs[i], path);
        if i > 0 {
          assert errs[1..][i - 1] == errs[i];
        }
      }
      if exists i :: 0 <= i < |errs[1..]| && errs[1..][i].line in changed && e == Marked(errs[1..][i], path) {
        var i :| 0 <= i < |errs[1..]| && errs[1..][i].line in changed && e == Marked(errs[1..][i], path);
        assert errs[i + 1] == errs[1..][i];
      }
    }
  }

  /** Every kept error is on a changed line and carries the file's path. */
  lemma KeptOnChangedLines(errs: seq<ErrorNode>, changed: seq<string>, path: string)
    ensures forall e :: e in KeepChanged(errs, changed, path) ==> e.line in changed && e.filePath == Some(path)
  {
    forall e | e in KeepChanged(errs, changed, path)
      ensures e.line in changed && e.filePath == Some(path)
    {
      KeepChangedMembership(errs, changed, path, e);
    }
  }

  /** Every error lands in exactly one of the two lists: kept, or queued for removal because its
      line did not change. */
  lemma {:induction false} KeepDropPartition(errs: seq<ErrorNode>, changed: seq<string>, path: string)
    ensures |KeepChanged(errs, changed, path)| + |Dropped(errs, changed)| == |errs|
    ensures forall e :: e in Dropped(errs, changed) ==> e in errs && e.line !in changed
  {
    if errs != [] {
      KeepDropPartition(errs[1..], changed, path);
    }
  }

  /** Filtering an already filtered list changes nothing. */
  lemma {:induction false} KeepChangedIdempotent(errs: seq<ErrorNode>, changed: seq<string>, path: string)
    ensures KeepChanged(KeepChanged(errs, changed, path), changed, path) == KeepChanged(errs, changed, path)
  {
    if errs != [] {
      KeepChangedIdempotent(errs[1..], changed, path);
      var rest := KeepChanged(errs[1..], changed, path);
      if errs[0].line in changed {
        var k := [Marked(errs[0], path)] + rest;
        assert k[0] == Marked(errs[0], path) && k[1..] == rest;
      }
    }
  }

  /** Removing an element that does not occur in a prefix leaves the prefix alone. */
  lemma {:induction false} RemoveFirstAfter(k: seq<ErrorNode>, s: seq<ErrorNode>, x: ErrorNode)
    requires x !in k && x in s
    ensures x in k + s && RemoveFirst(k + s, x) == k + RemoveFirst(s, x)
  {
    if k != [] {
      assert (k + s)[0] == k[0] && (k + s)[1..] == k[1..] + s;
      RemoveFirstAfter(k[1..], s, x);
    } else {
      assert k + s == s;
    }
  }

  /** Filtering one more error: it is appended to the kept list or to the removal list. */
  lemma FilterSnoc(a: seq<ErrorNode>, e: ErrorNode, changed: seq<string>, path: string)
    ensures KeepChanged(a + [e], changed, path) ==
      KeepChanged(a, changed, path) + (if e.line in changed then [Marked(e, path)] else [])
    ensures Dropped(a + [e], changed) == Dropped(a, changed) + (if e.line in changed then [] else [e])
  {
    FilterAppend(a, [e], changed, path);
    assert [e][1..] == [];
  }

  /** The children of a `<file>` while the removals are under way: the errors already passed,
      filtered, followed by the marked errors still to pass. */
  function Children(done: seq<ErrorNode>, todo: seq<ErrorNode>, changed: seq<string>, path: string): seq<ErrorNode> {
    KeepChanged(done, changed, path) + Marks(todo, changed, path)
  }

  /** Passing a kept error changes neither the children nor what is left to remove. */
  lemma PassKept(done: seq<ErrorNode>, todo: seq<ErrorNode>, changed: seq<string>, path: string)
    requires todo != [] && todo[0].line in changed
    ensures Children(done, todo, changed, path) == Children(done + [todo[0]], todo[1..], changed, path)
    ensures Dropped(todo, changed) == Dropped(todo[1..], changed)
  {
    var e := todo[0];
    var m := Marked(e, path);
    var k, ms := KeepChanged(done, changed, path), Marks(todo[1..], changed, path);
    assert KeepChanged(done + [e], changed, path) == k + [m] by {
      FilterSnoc(done, e, changed, path);
    }
    assert Marks(todo, changed, path) == [m] + ms;
    assert k + ([m] + ms) == (k + [m]) + ms;
  }

  /** Passing a dropped error: it is the next node to remove, and removing the first child equal
      to it takes out exactly that node, since every child before it is on a changed line. */
  lemma PassDropped(done: seq<ErrorNode>, todo: seq<ErrorNode>, changed: seq<string>, path: string)
    requires todo != [] && todo[0].line !in changed
    ensures Dropped(todo, changed) == [todo[0]] + Dropped(todo[1..], changed)
    ensures todo[0] in Children(done, todo, changed, path)
    ensures RemoveFirst(Children(done, todo, changed, path), todo[0]) == Children(done + [todo[0]], todo[1..], changed, path)
  {
    var e := todo[0];
    FilterSnoc(done, e, changed, path);
    var k := KeepChanged(done, changed, path);
    assert k + [] == k;
    assert e !in k by {
      KeepChangedMembership(done, changed, path, e);
    }
    var ms := Marks(todo[1..], changed, path);
    assert Marks(todo, changed, path) == [e] + ms;
    RemoveFirstAfter(k, [e] + ms, e);
  }

  /** One removal of the second loop (util.py:387-388): the next queued node is present, and
      removing it moves the split between passed and unpassed errors just past it. */
  lemma {:induction false} RemoveNextDropped(done: seq<ErrorNode>, todo: seq<ErrorNode>, changed: seq<string>, path: string)
    returns (done': seq<ErrorNode>, todo': seq<ErrorNode>)
    requires Dropped(todo, changed) != []
    ensures done' + todo' == done + todo
    ensures var d := Dropped(todo, changed)[0];
      && d in Children(done, todo, changed, path)
      && RemoveFirst(Children(done, todo, changed, path), d) == Children(done', todo', changed, path)
      && Dropped(todo', changed) == Dropped(todo, changed)[1..]
    decreases |todo|
  {
    var e := todo[0];
    assert done + todo == (done + [e]) + todo[1..] by {
      assert todo == [e] + todo[1..];
    }
    if e.line in changed {
      PassKept(done, todo, changed, path);
      done', todo' := RemoveNextDropped(done + [e], todo[1..], changed, path);
    } else {
      PassDropped(done, todo, changed, path);
      done', todo' := done + [e], todo[1..];
    }
  }

  /** With nothing left to remove, the marked children are exactly the kept ones. */
  lemma {:induction false} MarksWithoutDropped(errs: seq<ErrorNode>, changed: seq<string>, path: string)
    requires Dropped(errs, changed) == []
    ensures Marks(errs, changed, path) == KeepChanged(errs, changed, path)
  {
    if errs != [] {
      MarksWithoutDropped(errs[1..], changed, path);
    }
  }

  /** The two loops over one `<file>`'s errors (util.py:371-388): mark the errors on changed
      lines and queue the others, then remove the queued nodes one at a time. */
  method FilterErrors(errors: seq<ErrorNode>, changedLines: seq<string>, sourceFileName: string)
    returns (remaining: seq<ErrorNode>, kept: nat)
    ensures remaining == KeepChanged(errors, changedLines, sourceFileName)
    ensures kept == |remaining|
  {
    remaining := errors;
    var removeErrorNodeList: seq<ErrorNode> := [];
    kept := 0;
    var j := 0;
    while j < |remaining|
      invariant j <= |errors| == |remaining|
      invariant forall i :: 0 <= i < j ==> remaining[i] == Mark(errors[i], changedLines, sourceFileName)
      invariant forall i :: j <= i < |errors| ==> remaining[i] == errors[i]
      invariant removeErrorNodeList == Dropped(errors[..j], changedLines)
      invariant kept == |KeepChanged(errors[..j], changedLines, sourceFileName)|
    {
      assert errors[..j + 1] == errors[..j] + [errors[j]];
      FilterSnoc(errors[..j], errors[j], changedLines, sourceFileName);
      if remaining[j].line in changedLines {
        remaining := remaining[j := Marked(remaining[j], sourceFileName)];
        kept := kept + 1;
      } else {
        removeErrorNodeList := removeErrorNodeList + [remaining[j]];
      }
      j := j + 1;
    }
    assert errors[..j] == errors;
    MarksPointwise(errors, changedLines, sourceFileName);
    ghost var done: seq<ErrorNode>, todo := [], errors;
    assert remaining == Children(done, todo, changedLines, sourceFileName);
    var k := 0;
    while k < |removeErrorNodeList|
      invariant k <= |removeErrorNodeList| && done + todo == errors
      invariant remaining == Children(done, todo, changedLines, sourceFileName)
      invariant removeErrorNodeList[k..] == Dropped(todo, changedLines)
    {
      assert removeErrorNodeList[k..][0] == removeErrorNodeList[k];
      done, todo := RemoveNextDropped(done, todo, changedLines, sourceFileName);
      remaining := RemoveFirst(remaining, removeErrorNodeList[k]);
      assert removeErrorNodeList[k + 1..] == removeErrorNodeList[k..][1..];
      k := k + 1;
    }
    MarksWithoutDropped(todo, changedLines, sourceFileName);
    FilterAppend(done, todo, changedLines, sourceFileName);
  }

  // ---------------------------------------------------------------------------
  // The whole report

  /** One `<file>` after the filter; `diffOutputOf` gives the `diff` tool's output for the file
      named in the report (util.py:360-368). */
  function FilterFile(file: FileNode, repoDir: string, diffOutputOf: string -> string): FileNode {
    FileNode(file.name, KeepChanged(file.errors, Tokens(diffOutputOf(file.name)), RepoRelative(file.name, repoDir)))
  }

  /** The report that `tree.write` saves: every `<file>` filtered, none taken out. */
  function FilterReport(files: seq<FileNode>, repoDir: string, diffOutputOf: string -> string): seq<FileNode> {
    seq(|files|, i requires 0 <= i < |files| => FilterFile(files[i], repoDir, diffOutputOf))
  }

  /** `removeFileNodeList`, as the indices of the files with no errors, in report order. */
  function EmptyIndices(files: seq<FileNode>): seq<nat> {
    if files == [] then []
    else
      var n := |files| - 1;
      EmptyIndices(files[..n]) + (if files[n].errors == [] then [n] else [])
  }

  /** The list names exactly the files without errors, each once and in report order. */
  lemma {:induction false} EmptyIndicesExact(files: seq<FileNode>)
    ensures forall i :: i in EmptyIndices(files) <==> 0 <= i < |files| && files[i].errors == []
    ensures forall a, b :: 0 <= a < b < |EmptyIndices(files)| ==> EmptyIndices(files)[a] < EmptyIndices(files)[b]
  {
    if files != [] {
      var n := |files| - 1;
      EmptyIndicesExact(files[..n]);
      var prefix := EmptyIndices(files[..n]);
      forall a | 0 <= a < |prefix| ensures prefix[a] < n {
        assert prefix[a] in prefix;
      }
      forall i | 0 <= i < n ensures files[..n][i] == files[i] { }
    }
  }

  /** The saved report keeps every `<file>` and its name; each remaining error is on a line the
      `diff` tool printed for that file and carries the repository-relative path. */
  lemma FilteredReportOnChangedLines(files: seq<FileNode>, repoDir: string, diffOutputOf: string -> string)
    ensures var out := FilterReport(files, repoDir, diffOutputOf);
      && |out| == |files|
      && forall i :: 0 <= i < |files| ==>
           && out[i].name == files[i].name
           && forall e :: e in out[i].errors ==>
                e.line in Tokens(diffOutputOf(files[i].name)) && e.filePath == Some(RepoRelative(files[i].name, repoDir))
  {
    forall i | 0 <= i < |files| {
      KeptOnChangedLines(files[i].errors, Tokens(diffOutputOf(files[i].name)), RepoRelative(files[i].name, repoDir));
    }
  }

  /** The XML report held in memory; `parse_xml_result` changes its `<file>` nodes in place. */
  class ReportTree {
    var files: seq<FileNode>

    constructor(files: seq<FileNode>)
      ensures this.files == files
    {
      this.files := files;
    }

    /** The loop of `parse_xml_result` over the `<file>` nodes (util.py:353-391). */
    method ParseXmlResult(repoDir: string, diffOutputOf: string -> string) returns (errorCount: nat, removeFileNodeList: seq<nat>)
      modifies this
      ensures files == FilterReport(old(files), repoDir, diffOutputOf)
      ensures errorCount == TotalErrors(files)
      ensures removeFileNodeList == EmptyIndices(files)
    {
      errorCount := 0;
      removeFileNodeList := [];
      ghost var original := files;
      var i := 0;
      while i < |files|
        invariant i <= |files| == |original|
        invariant forall k :: 0 <= k < i ==> files[k] == FilterFile(original[k], repoDir, diffOutputOf)
        invariant forall k :: i <= k < |files| ==> files[k] == original[k]
        invariant errorCount == TotalErrors(files[..i])
        invariant removeFileNodeList == EmptyIndices(files[..i])
      {
        var sourceFile := files[i];
        var sourceFileName := RepoRelative(sourceFile.name, repoDir);
        var changedLines := Tokens(diffOutputOf(sourceFile.name));
        var remaining, kept := FilterErrors(sourceFile.errors, changedLines, sourceFileName);
        ghost var before := files;
        files := files[i := FileNode(sourceFile.name, remaining)];
        assert files[..i + 1][..i] == files[..i] == before[..i];
        errorCount := errorCount + kept;
        if remaining == [] {
          removeFileNodeList := removeFileNodeList + [i];
        }
        i := i + 1;
      }
      assert files[..i] == files;
      assert files == FilterReport(original, repoDir, diffOutputOf);
    }
  }

  // ---------------------------------------------------------------------------
  // The diff tool's output

  /** The decimal rendering `diff` prints for each changed line number. */
  function Renders(ns: seq<nat>): (ds: seq<string>)
    ensures |ds| == |ns| && forall i :: 0 <= i < |ns| ==> ds[i] == Decimal(ns[i])
  {
    if ns == [] then [] else [Decimal(ns[0])] + Renders(ns[1..])
  }

  /** What `diff --new-line-format='%dn '` prints: each new line's number followed by a space. */
  function DiffToolOutput(ns: seq<nat>): string {
    SpaceTerminated(Renders(ns))
  }

  /** `split()` recovers the rendered line numbers. */
  lemma ChangedTokens(ns: seq<nat>)
    ensures Tokens(DiffToolOutput(ns)) == Renders(ns)
  {
    var ds := Renders(ns);
    forall i | 0 <= i < |ds| ensures ds[i] != [] && NoSpace(ds[i]) {
      DigitsHaveNoSpace(ds[i]);
    }
    TokensOfSpaceTerminated(ds);
  }

  /** A report line counts as changed exactly when it is the plain rendering of a changed number;
      it then parses to that number. */
  lemma ChangedLineMeans(ns: seq<nat>, line: string)
    ensures line in Tokens(DiffToolOutput(ns)) <==> exists i :: 0 <= i < |ns| && line == Decimal(ns[i])
    ensures line in Tokens(DiffToolOutput(ns)) ==> ParseInt(line).Some? && ParseInt(line).value in ns
  {
    ChangedTokens(ns);
    if line in Renders(ns) {
      var i :| 0 <= i < |ns| && Renders(ns)[i] == line;
      ParseDecimal(ns[i]);
    }
  }

  /** The comparison is on strings: a line attribute written with a leading zero is never kept,
      even when its number changed. */
  lemma LeadingZeroNeverKept(ns: seq<nat>, line: string)
    requires |line| >= 2 && line[0] == '0'
    ensures line !in Tokens(DiffToolOutput(ns))
  {
    ChangedLineMeans(ns, line);
    if line in Tokens(DiffToolOutput(ns)) {
      var i :| 0 <= i < |ns| && line == Decimal(ns[i]);
      DecimalCanonical(ns[i]);
    }
  }

  /** Findings on lines 4, 10 and 22 of a file whose changed lines are 10 and 22: the two on
      changed lines are kept, in order, and the one on line 4 is queued for removal. */
  lemma ThreeFindingsTwoChanged(path: string, severity: string, message: string)
    ensures var errs := [ErrorNode("4", severity, message, None), ErrorNode("10", severity, message, None),
                         ErrorNode("22", severity, message, None)];
      var changed := Tokens(DiffToolOutput([10, 22]));
      && KeepChanged(errs, changed, path) == [Marked(errs[1], path), Marked(errs[2], path)]
      && Dropped(errs, changed) == [errs[0]]
  {
    ChangedTokens([10, 22]);
    assert Decimal(10) == Decimal(1) + [DigitChar(0)] == "10";
    assert Decimal(22) == Decimal(2) + [DigitChar(2)] == "22";
    var rs := Renders([10, 22]);
    assert rs == ["10", "22"] by {
      assert |rs| == 2 && rs[0] == Decimal(10) && rs[1] == Decimal(22);
    }
    var errs := [ErrorNode("4", severity, message, None), ErrorNode("10", severity, message, None),
                 ErrorNode("22", severity, message, None)];
    var changed := Tokens(DiffToolOutput([10, 22]));
    assert "4" !in changed && "10" in changed && "22" in changed;
    var e1, e2 := errs[1..], errs[1..][1..];
    assert e2 == [errs[2]] && e2[1..] == [];
    assert e2[0].line == "22" && "22" in changed;
    assert Dropped(e2[1..], changed) == [] && KeepChanged(e2[1..], changed, path) == [];
    assert KeepChanged(e2, changed, path) == [Marked(errs[2], path)];
    assert Dropped(e2, changed) == [];
    assert e1[0].line == "10" && "10" in changed && e1[1..] == e2;
    assert KeepChanged(e1, changed, path) == [Marked(errs[1], path), Marked(errs[2], path)];
    assert Dropped(e1, changed) == [];
  }

  // ---------------------------------------------------------------------------
  // The exit status

  /** `sys.exit(errorCount)` as written: the operating system keeps the low eight bits. */
  function ExitStatusAsWritten(errorCount: nat): (status: nat)
    ensures status < 256
  {
    errorCount % 256
  }

  /** 256 retained findings exit with status 0, the status of a clean run. */
  lemma ExitStatusWrapsToClean()
    ensures ExitStatusAsWritten(256) == 0 && ExitStatusAsWritten(0) == 0
  {
  }

  /** The status the caller gates on, saturated so that it fits in eight bits. */
  function ExitStatus(errorCount: nat): (status: nat)
    ensures status < 256
    ensures status == 0 <==> errorCount == 0
    ensures errorCount < 256 ==> status == errorCount
  {
    if errorCount < 256 then errorCount else 255
  }
}
