/** The comment-building loop of `create_review_comments` (util.py:300-316): for every `<file>` of
    the report, open its patch file once and resolve the report's errors, in report order, to diff
    positions by successive `getDiffPosition` calls that share the file object and thread the
    `[position, sourceLine]` pair from one call to the next. */
module ReviewComments {
  import opened Wrappers
  import opened PyBuiltins
  import opened Report
  import opened DiffPosition

  /** One entry of `errorContext`: the repository-relative path, the diff position, and the error
      the comment body is formatted from. */
  datatype Comment = Comment(path: string, position: int, error: ErrorNode)

  /** The exceptions that end the run. */
  datatype Failure =
    | MissingDiffFile(path: string)   // `open(diffFile)` raises IOError (util.py:303)
    | BadLineNumber(line: string)     // `int(errorList.attrib['line'])` raises (util.py:306)
    | MalformedHeader(header: string) // `int(...)` on a hunk header raises (util.py:214)
    | Unresolvable(line: string)      // `getDiffPosition` returned None; `positionList[0]` raises (util.py:310)

  /** `positionList = [-1, 0]`: the state every file starts from. */
  const Fresh := Cursor(-1, 0, false)

  /** `cs` followed by the comments of `r`, unless `r` is a failure. */
  function Then(cs: seq<Comment>, r: Result<seq<Comment>, Failure>): Result<seq<Comment>, Failure> {
    match r
    case Success(ds) => Success(cs + ds)
    case Failure(e) => Failure(e)
  }

  /** The `[position, sourceLine]` pair after an error, with the number of patch lines read. */
  datatype Resolved = Resolved(position: int, sourceLine: int, read: nat)

  /** One turn of the loop at util.py:306-307 for an error whose `line` attribute is `line`: when
      it names the line of the previous lookup, the pair is kept and nothing is read; otherwise
      `getDiffPosition` resumes after the `read` lines already consumed. */
  function ResolveLine(ls: seq<DiffLine>, line: string, read: nat, position: int, sourceLine: int)
    : (r: Result<Resolved, Failure>)
    requires read <= |ls|
    ensures r.Success? ==> read <= r.value.read <= |ls|
  {
    match ParseInt(line)
    case None => Failure(BadLineNumber(line))
    case Some(target) =>
      if sourceLine == target then Success(Resolved(position, sourceLine, read))
      else
        var s := Scan(ls[read..], Cursor(position, sourceLine, false), target);
        match s.result
        case Found(p, l) => Success(Resolved(p, l, read + s.consumed))
        case Exhausted => Failure(Unresolvable(line))
        case BadHeader(h) => Failure(MalformedHeader(h))
  }

  /** The comments for `errs`, starting after `read` lines of the patch with the pair left by the
      previous lookup: one per error when every lookup succeeds. */
  function ResolveErrors(ls: seq<DiffLine>, path: string, errs: seq<ErrorNode>, read: nat, position: int, sourceLine: int)
    : (r: Result<seq<Comment>, Failure>)
    requires read <= |ls|
    ensures r.Success? ==> |r.value| == |errs|
    decreases |errs|
  {
    if errs == [] then Success([])
    else match ResolveLine(ls, errs[0].line, read, position, sourceLine)
      case Failure(e) => Failure(e)
      case Success(next) =>
        Then([Comment(path, next.position, errs[0])],
             ResolveErrors(ls, path, errs[1..], next.read, next.position, next.sourceLine))
  }

  /** The comments for one `<file>`; `patchOf` gives the lines of the patch file saved under a
      repository-relative path, or `None` when there is no such file. */
  function CommentsForFile(file: FileNode, repoDir: string, patchOf: string -> Option<seq<string>>)
    : (r: Result<seq<Comment>, Failure>)
    ensures r.Success? ==> |r.value| == |file.errors|
  {
    var path := RepoRelative(file.name, repoDir);
    match patchOf(path)
    case None => Failure(MissingDiffFile(path))
    case Some(lines) => ResolveErrors(Classified(lines), path, file.errors, 0, -1, 0)
  }

  /** `errorContext` after the loop over `files`, or the first exception. */
  function ReviewComments(files: seq<FileNode>, repoDir: string, patchOf: string -> Option<seq<string>>)
    : Result<seq<Comment>, Failure>
  {
    if files == [] then Success([])
    else match ReviewComments(files[..|files| - 1], repoDir, patchOf)
      case Failure(e) => Failure(e)
      case Success(cs) => Then(cs, CommentsForFile(files[|files| - 1], repoDir, patchOf))
  }

  // ---------------------------------------------------------------------------
  // What the resolved positions mean

  /** Position `p` is where a finding on source line `line` is placed: either the untouched
      starting state (only for line 0), or a content line of the patch after which the running
      source line, counted from the start of the file, is `line`. */
  predicate Located(ls: seq<DiffLine>, p: int, line: int) {
    (p == -1 && line == 0) ||
    (0 <= p < |ls| && ls[p].Content? && Run(ls[..p + 1], Fresh) == Some(Cursor(p, line, false)))
  }

  /** The state between two lookups: nothing read yet, or the last line read is a content line and
      `[position, sourceLine]` is the running state after it. */
  predicate Resumable(ls: seq<DiffLine>, read: nat, position: int, sourceLine: int) {
    (read == 0 && position == -1 && sourceLine == 0) ||
    (1 <= read <= |ls| && position == read - 1 && ls[read - 1].Content? &&
     Run(ls[..read], Fresh) == Some(Cursor(position, sourceLine, false)))
  }

  /** A state between lookups places a finding on its own source line. */
  lemma ResumableLocated(ls: seq<DiffLine>, read: nat, position: int, sourceLine: int)
    requires Resumable(ls, read, position, sourceLine)
    ensures Located(ls, position, sourceLine)
  {
    if read > 0 {
      assert position + 1 == read;
    }
  }

  /** A turn of the loop that succeeds ends between lookups again, on the error's own line, never
      at an earlier position, and at the same position when the line is the previous one. */
  lemma ResolveLineResumes(ls: seq<DiffLine>, line: string, read: nat, position: int, sourceLine: int)
    requires read <= |ls| && Resumable(ls, read, position, sourceLine)
    ensures var r := ResolveLine(ls, line, read, position, sourceLine);
      r.Success? ==>
        && ParseInt(line) == Some(r.value.sourceLine)
        && Resumable(ls, r.value.read, r.value.position, r.value.sourceLine)
        && position <= r.value.position
        && (r.value.sourceLine == sourceLine ==> r.value.position == position)
  {
    var r := ResolveLine(ls, line, read, position, sourceLine);
    if r.Success? && ParseInt(line).value != sourceLine {
      var target := ParseInt(line).value;
      var c := Cursor(position, sourceLine, false);
      var s := Scan(ls[read..], c, target);
      ScanStopsAtFirstHit(ls[read..], c, target);
      var n := s.consumed;
      assert ls[..read] + ls[read..][..n] == ls[..read + n];
      assert Run(ls[..read], Fresh) == Some(c) by {
        if read == 0 { assert ls[..0] == []; }
      }
      RunAppend(ls[..read], ls[read..][..n], Fresh);
      assert ls[read + n - 1] == ls[read..][n - 1];
    }
  }

  lemma {:induction false} ResolveErrorsLocates(ls: seq<DiffLine>, path: string, errs: seq<ErrorNode>, read: nat, position: int, sourceLine: int)
    requires read <= |ls| && Resumable(ls, read, position, sourceLine)
    ensures var r := ResolveErrors(ls, path, errs, read, position, sourceLine);
      r.Success? ==>
        && |r.value| == |errs|
        && forall i :: 0 <= i < |errs| ==>
              && r.value[i].path == path && r.value[i].error == errs[i]
              && ParseInt(errs[i].line).Some?
              && Located(ls, r.value[i].position, ParseInt(errs[i].line).value)
              && position <= r.value[i].position
    decreases |errs|
  {
    var r := ResolveErrors(ls, path, errs, read, position, sourceLine);
    if errs != [] && r.Success? {
      var cs := r.value;
      var next := ResolveLine(ls, errs[0].line, read, position, sourceLine).value;
      ResolveLineResumes(ls, errs[0].line, read, position, sourceLine);
      ResumableLocated(ls, next.read, next.position, next.sourceLine);
      ResolveErrorsLocates(ls, path, errs[1..], next.read, next.position, next.sourceLine);
      forall i | 0 < i < |errs| ensures errs[i] == errs[1..][i - 1] && cs[i] == cs[1..][i - 1] { }
    }
  }

  /** One unfolding of `ResolveErrors` that succeeds: the first comment is the first turn's. */
  lemma ResolveErrorsHead(ls: seq<DiffLine>, path: string, errs: seq<ErrorNode>, read: nat, position: int, sourceLine: int)
    requires read <= |ls| && errs != []
    requires ResolveErrors(ls, path, errs, read, position, sourceLine).Success?
    ensures var first := ResolveLine(ls, errs[0].line, read, position, sourceLine);
      var cs := ResolveErrors(ls, path, errs, read, position, sourceLine).value;
      && first.Success? && cs != []
      && cs[0] == Comment(path, first.value.position, errs[0])
      && var rest := ResolveErrors(ls, path, errs[1..], first.value.read, first.value.position, first.value.sourceLine);
         rest.Success? && cs[1..] == rest.value
  {
  }

  lemma {:induction false} ResolvedPositionsAscend(ls: seq<DiffLine>, path: string, errs: seq<ErrorNode>, read: nat, position: int, sourceLine: int)
    requires read <= |ls| && Resumable(ls, read, position, sourceLine)
    ensures var r := ResolveErrors(ls, path, errs, read, position, sourceLine);
      r.Success? ==>
        && |r.value| == |errs|
        && (forall i, j :: 0 <= i < j < |errs| ==> r.value[i].position <= r.value[j].position)
        && (forall i :: 0 < i < |errs| && ParseInt(errs[i].line) == ParseInt(errs[i - 1].line) ==>
              r.value[i].position == r.value[i - 1].position)
    decreases |errs|
  {
    var r := ResolveErrors(ls, path, errs, read, position, sourceLine);
    if errs != [] && r.Success? {
      var cs := r.value;
      ResolveErrorsHead(ls, path, errs, read, position, sourceLine);
      var next := ResolveLine(ls, errs[0].line, read, position, sourceLine).value;
      var tail := errs[1..];
      var rest := ResolveErrors(ls, path, tail, next.read, next.position, next.sourceLine).value;
      assert cs == [cs[0]] + rest;
      ResolveLineResumes(ls, errs[0].line, read, position, sourceLine);
      ResolvedPositionsAscend(ls, path, tail, next.read, next.position, next.sourceLine);
      ResolveErrorsLocates(ls, path, tail, next.read, next.position, next.sourceLine);
      forall i, j | 0 <= i < j < |errs| ensures cs[i].position <= cs[j].position {
        assert cs[j] == rest[j - 1];
        if i > 0 { assert cs[i] == rest[i - 1]; }
      }
      forall i | 0 < i < |errs| && ParseInt(errs[i].line) == ParseInt(errs[i - 1].line)
        ensures cs[i].position == cs[i - 1].position
      {
        assert errs[i] == tail[i - 1] && cs[i] == rest[i - 1];
        if i == 1 {
          ResolveErrorsHead(ls, path, tail, next.read, next.position, next.sourceLine);
          ResolveLineResumes(ls, tail[0].line, next.read, next.position, next.sourceLine);
        } else {
          assert errs[i - 1] == tail[i - 2] && cs[i - 1] == rest[i - 2];
        }
      }
    }
  }

  /** Resolving a file's errors from `[-1, 0]`: one comment per error, in order; each position is
      a content line of the patch whose running source line is the error's line (or -1 for line
      0 before anything is read); positions never decrease; an error on the same line as the one
      before it gets the same position. */
  lemma ResolvedPositionsLocateErrors(ls: seq<DiffLine>, path: string, errs: seq<ErrorNode>)
    ensures var r := ResolveErrors(ls, path, errs, 0, -1, 0);
      r.Success? ==>
        && |r.value| == |errs|
        && (forall i :: 0 <= i < |errs| ==>
              && r.value[i].path == path && r.value[i].error == errs[i]
              && ParseInt(errs[i].line).Some?
              && Located(ls, r.value[i].position, ParseInt(errs[i].line).value))
        && (forall i, j :: 0 <= i < j < |errs| ==> r.value[i].position <= r.value[j].position)
        && (forall i :: 0 < i < |errs| && ParseInt(errs[i].line) == ParseInt(errs[i - 1].line) ==>
              r.value[i].position == r.value[i - 1].position)
  {
    ResolveErrorsLocates(ls, path, errs, 0, -1, 0);
    ResolvedPositionsAscend(ls, path, errs, 0, -1, 0);
  }

  /** An error on line "0" before any lookup is placed at the starting position -1 without
      reading the patch, since `[-1, 0]` already names line 0. */
  lemma LineZeroBeforeAnyLookup(ls: seq<DiffLine>)
    ensures ResolveLine(ls, "0", 0, -1, 0) == Success(Resolved(-1, 0, 0))
  {
    ParseDigits("0", 0);
  }

  /** From `[-1, 0]`, a line the lookup runs out before reaching stops the run. */
  lemma UnresolvedFromStart(ls: seq<DiffLine>, line: string, n: int)
    requires ParseInt(line) == Some(n) && n != 0
    requires Scan(ls, Fresh, n).result == Exhausted
    ensures ResolveLine(ls, line, 0, -1, 0) == Failure(Unresolvable(line))
  {
    assert ls[0..] == ls;
  }

  /** A finding on the last line of a file the patch creates stops the run: the lookup for line
      `n` of `@@ -0,0 +1,n @@` runs out of patch, and `positionList[0]` raises on `None`. */
  lemma NewFileLastLineUnresolvable(section: string, body: seq<string>)
    requires forall i :: 0 <= i < |body| ==> IsAddedLine(body[i])
    requires body != []
    ensures var lines := [FormatHeader(0, Some(0), 1, Some(|body|), section)] + body;
      ResolveLine(Classified(lines), Decimal(|body|), 0, -1, 0) == Failure(Unresolvable(Decimal(|body|)))
  {
    var n := |body|;
    ParseDecimal(n);
    NewFileHunk(section, body, n);
    UnresolvedFromStart(Classified([FormatHeader(0, Some(0), 1, Some(n), section)] + body), Decimal(n), n);
  }

  /** A successful run produces exactly one comment per `<error>` of the report. */
  lemma {:induction false} ReviewCommentsCoverEveryError(files: seq<FileNode>, repoDir: string, patchOf: string -> Option<seq<string>>)
    ensures var r := ReviewComments(files, repoDir, patchOf);
      r.Success? ==>
        |r.value| == TotalErrors(files) &&
        forall i :: 0 <= i < |files| ==> CommentsForFile(files[i], repoDir, patchOf).Success?
    decreases |files|
  {
    var r := ReviewComments(files, repoDir, patchOf);
    if files != [] && r.Success? {
      var init := files[..|files| - 1];
      var last := files[|files| - 1];
      var before := ReviewComments(init, repoDir, patchOf);
      var mine := CommentsForFile(last, repoDir, patchOf);
      assert before.Success? && mine.Success? && r.value == before.value + mine.value;
      ReviewCommentsCoverEveryError(init, repoDir, patchOf);
      forall i | 0 <= i < |files| ensures CommentsForFile(files[i], repoDir, patchOf).Success? {
        if i < |files| - 1 { assert files[i] == init[i]; }
      }
    }
  }

  // ---------------------------------------------------------------------------
  // The loop itself

  lemma FailureSticks(files: seq<FileNode>, k: nat, repoDir: string, patchOf: string -> Option<seq<string>>)
    requires k <= |files| && ReviewComments(files[..k], repoDir, patchOf).Failure?
    ensures ReviewComments(files, repoDir, patchOf) == ReviewComments(files[..k], repoDir, patchOf)
    decreases |files| - k
  {
    if k < |files| {
      assert files[..k + 1][..k] == files[..k];
      FailureSticks(files, k + 1, repoDir, patchOf);
    } else {
      assert files[..k] == files;
    }
  }

  lemma ThenNothing(r: Result<seq<Comment>, Failure>)
    ensures Then([], r) == r
  {
    if r.Success? {
      assert [] + r.value == r.value;
    }
  }

  lemma ThenThen(cs: seq<Comment>, ds: seq<Comment>, r: Result<seq<Comment>, Failure>)
    ensures Then(cs, Then(ds, r)) == Then(cs + ds, r)
  {
    if r.Success? {
      assert cs + (ds + r.value) == cs + ds + r.value;
    }
  }

  /** Lines 306-307 on the open patch file `f`: keep the pair, or look the line up. */
  method NextPosition(f: DiffFile, line: string, position: int, sourceLine: int) returns (r: Result<Resolved, Failure>)
    requires f.Valid()
    modifies f
    ensures f.Valid()
    ensures r == ResolveLine(Classified(f.lines), line, old(f.next), position, sourceLine)
    ensures r.Success? ==> f.next == r.value.read
  {
    var target := ParseInt(line);
    if target.None? {
      return Failure(BadLineNumber(line));
    }
    if sourceLine == target.value {
      return Success(Resolved(position, sourceLine, f.next));
    }
    var lookup := GetDiffPosition(f, target.value, position, sourceLine);
    match lookup
    case Found(p, l) => r := Success(Resolved(p, l, f.next));
    case Exhausted => r := Failure(Unresolvable(line));
    case BadHeader(h) => r := Failure(MalformedHeader(h));
  }

  /** The inner loop of `create_review_comments` over one `<file>`'s errors, reading the open
      patch file `f` from its start. */
  method ResolveFileErrors(f: DiffFile, path: string, errors: seq<ErrorNode>) returns (r: Result<seq<Comment>, Failure>)
    requires f.Valid() && f.next == 0
    modifies f
    ensures r == ResolveErrors(Classified(f.lines), path, errors, 0, -1, 0)
  {
    ghost var ds := Classified(f.lines);
    var comments: seq<Comment> := [];
    var position, sourceLine := -1, 0;
    var j := 0;
    assert errors[0..] == errors;
    ThenNothing(ResolveErrors(ds, path, errors, 0, -1, 0));
    while j < |errors|
      invariant j <= |errors| && f.Valid()
      invariant ResolveErrors(ds, path, errors, 0, -1, 0)
             == Then(comments, ResolveErrors(ds, path, errors[j..], f.next, position, sourceLine))
    {
      var error := errors[j];
      assert errors[j..][0] == error && errors[j..][1..] == errors[j + 1..];
      var next := NextPosition(f, error.line, position, sourceLine);
      if next.Failure? {
        return Failure(next.error);
      }
      position, sourceLine := next.value.position, next.value.sourceLine;
      ThenThen(comments, [Comment(path, position, error)], ResolveErrors(ds, path, errors[j + 1..], f.next, position, sourceLine));
      comments := comments + [Comment(path, position, error)];
      j := j + 1;
    }
    assert errors[j..] == [];
    assert comments + [] == comments;
    return Success(comments);
  }

  /** `create_review_comments` from the parsed report to the `errorContext` it would post. */
  method CreateReviewComments(files: seq<FileNode>, repoDir: string, patchOf: string -> Option<seq<string>>)
    returns (r: Result<seq<Comment>, Failure>)
    ensures r == ReviewComments(files, repoDir, patchOf)
  {
    var errorContext: seq<Comment> := [];
    var i := 0;
    while i < |files|
      invariant i <= |files|
      invariant ReviewComments(files[..i], repoDir, patchOf) == Success(errorContext)
    {
      var sourceFile := files[i];
      assert files[..i + 1][..i] == files[..i];
      var sourceFileName := RepoRelative(sourceFile.name, repoDir);
      var patch := patchOf(sourceFileName);
      if patch.None? {
        r := Failure(MissingDiffFile(sourceFileName));
        FailureSticks(files, i + 1, repoDir, patchOf);
        return;
      }
      var f := new DiffFile(patch.value);
      var fileComments := ResolveFileErrors(f, sourceFileName, sourceFile.errors);
      if fileComments.Failure? {
        r := Failure(fileComments.error);
        FailureSticks(files, i + 1, repoDir, patchOf);
        return;
      }
      errorContext := errorContext + fileComments.value;
      i := i + 1;
    }
    assert files[..i] == files;
    r := Success(errorContext);
  }
}
