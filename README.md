# PRCodeQuality core, in Dafny

PRCodeQuality runs a coding-standard checker over the files of a GitHub pull request. It then
posts the findings as review comments on the pull request. This project models the part of
`util.py` that decides what gets reported and where. The model covers four pieces.

- **Diff positions** (`getDiffPosition`): a review comment is anchored by its "position". The
  position is the index of a line within the file's unified diff, not its source line number.
  The scanner reads the saved patch file one line at a time and keeps three values: `position`,
  `sourceLine` and the "previous line was a hunk header" flag. The rules are:
  - a line starting with `-` is tested first and moves only `position`;
  - a line starting with `@@ ` sets `sourceLine` to the old start of the hunk;
  - every other line moves `position`, and moves `sourceLine` unless it directly follows a
    header.
- **Resolving a file's findings** (the loop of `create_review_comments`): for each `<file>` of the
  checker's XML report, the patch file is opened once. Its errors are resolved in report order by
  successive lookups. These share the open file and thread `[position, sourceLine]` from one call
  to the next, starting from `[-1, 0]`. An error on the line of the previous lookup reuses its
  position.
- **Change-scoped filtering** (`parse_xml_result`): an `<error>` is kept when its `line`
  attribute is one of the whitespace-separated tokens printed by
  `diff --new-line-format='%dn '`. That output lists the line numbers that are new in the pull
  request. Kept errors are marked with `filePath`. The others are removed from the tree. Kept
  errors are counted, and the count is passed to `sys.exit`. Files left with no errors are
  recorded in `removeFileNodeList` but never removed.
- **Patch selection** (`generate_pr_patch`): a patch file is written only for files that were not
  removed and whose `os.path.splitext` extension is `.php` or `.js`.

Module layout:

- `py_builtins.dfy` (`PyBuiltins`): the Python 2 built-ins that the code relies on, written out
  over byte strings. These are `str.split()`, `str.split(sep)`, `int()`,
  `str.replace(old, '')`, `str.rfind` and `os.path.splitext`. It also holds `Decimal`, the
  plain decimal rendering of a line number as the `diff` tool prints it for `%dn`.
- `report.dfy` (`Report`): the report's `<file>` and `<error>` elements. It also holds the
  stripping of the checkout directory from report file names.
- `diff_position.dfy` (`DiffPosition`): the scanner.
  - `Scan` is a pure function over the classified diff lines.
  - `Run` is a fold with no early exit, used as the reference that `Scan` is characterised
    against.
  - `DiffFile` is the open file whose read position advances.
  - `GetDiffPosition` is the loop, proved equal to `Scan` on the lines it has not yet read.
- `review_comments.dfy` (`ReviewComments`): the resolution loop. Its failures are exceptions in
  Python. Here they are a `Result`.
- `change_filter.dfy` (`ChangeFilter`): the filter. It includes `ReportTree`, whose `files` field
  the loop of `parse_xml_result` rewrites in place.
- `patch_selection.dfy` (`PatchSelection`): the extension test.

Behaviour of the code worth knowing, which the model follows:

- A `-` line does not clear the header flag. A context line after `@@ … @@` and then `--- x`
  is therefore still treated as the first line of the hunk.
- Lines that are neither `-` lines nor hunk headers all count as content: `+` lines, `\ No
  newline at end of file`, `diff --git …` and `+++ …` lines alike. There is no "ignored
  metadata" case.
- `sourceLine` restarts from the OLD range of the hunk header (`-l,s`), not the new one.
  `HeaderOldStartOfFormat` proves this.
- For a file the patch creates, the one hunk is `@@ -0,0 +1,n @@`, whose old start is 0. The
  first added line only re-reads source line 0, so a finding on line `k` is placed on the added
  line of line `k + 1`, and a finding on the last line `n` cannot be placed and stops the run
  (`NewFileHunk`, `NewFileLastLineUnresolvable`).
- The header line is position 0 of the first hunk. The first line below it is position 1, so in
  a hunk of context lines old line `start + j` is at position `j + 1` (`ContextOnlyHunk`).
- A finding that cannot be placed is not skipped. `getDiffPosition` returns `None`, and
  `positionList[0]` at util.py:310 then raises TypeError. That ends the whole run before
  the review is posted at util.py:318-331, so no finding is posted at all, while the earlier
  review comments were already deleted at util.py:283. The model reports this as
  `Failure(Unresolvable(line))`. The same holds for an unreadable patch file (`MissingDiffFile`),
  a non-numeric `line` attribute (`BadLineNumber`) and a hunk header whose old start `int()`
  rejects (`MalformedHeader`). `FailureSticks` shows that the first failure is the result of the
  whole run.
- The filter compares strings. A `line` attribute such as `07` or `+7` is never kept, even when
  line 7 changed: only the plain rendering `7` of a changed line number is kept
  (`ChangedLineMeans`), and an attribute with a leading zero never is (`LeadingZeroNeverKept`).

## Model

| member | source | states |
|---|---|---|
| PyBuiltins.Tokens | util.py:368 | `str.split()` with no argument: the maximal runs of non-whitespace characters, in order |
| PyBuiltins.ParseInt | util.py:306 | `int(s)`: surrounding whitespace, an optional sign possibly followed by more whitespace, at least one ASCII digit; `None` where Python raises ValueError |
| PyBuiltins.ParseSpacedSign | util.py:306 | whitespace between the sign and the digits is accepted: `int('- 7') == -7` and `int('+ 7') == 7` |
| PyBuiltins.RemoveAll | util.py:354 | `str.replace(pat, '')`: every non-overlapping occurrence of `pat`, scanning from the left, is deleted |
| PyBuiltins.Split | util.py:214 | `str.split(sep)` with one separator character: empty pieces are kept, and there is always at least one piece |
| PyBuiltins.SplitAtFirst | util.py:214 | `split(sep)` puts everything before the first separator in the first piece and splits the rest the same way |
| PyBuiltins.TokensAreWords | util.py:368 | every token of `split()` is non-empty and free of whitespace |
| PyBuiltins.TokensOfSpaceTerminated | util.py:368 | `split()` of non-empty, whitespace-free words, each followed by a space, gives back exactly those words in order |
| PyBuiltins.ParseDecimal | util.py:306 | `int` of the decimal rendering of `n` gives back `n`, and with a leading `-` gives `-n` |
| PyBuiltins.DecimalCanonical | util.py:375 | the decimal rendering of `n` starts with `0` only for `n == 0`, so no rendered line number has a leading zero |
| PyBuiltins.RemoveAllAbsent | util.py:354 | `replace(pat, '')` leaves a string in which `pat` does not occur unchanged |
| PyBuiltins.Extension | util.py:121 | `splitext(p)[1]` is empty or a suffix of `p` |
| Report.RepoRelative | util.py:301 | the report's file name with every occurrence of the checkout directory plus `/` deleted |
| Report.RepoRelativeOfCheckoutPath | util.py:301 | the checkout directory plus `/` is stripped from a report name under the checkout, leaving the repository-relative path, when it does not recur further down |
| Report.RepoRelativeOutsideCheckout | util.py:354 | a report name that does not contain the checkout directory is used unchanged |
| Report.RepoRelativeRemovesInnerOccurrence | util.py:354 | `replace` deletes every occurrence: `/r/lib/r/x` with checkout `/r` becomes `libx` |
| DiffPosition.HeaderOldStart | util.py:214 | `abs(int(line.split(" ")[1].split(',')[0]))`, or `None` where that raises |
| DiffPosition.Classify | util.py:206-209 | a line starting with `-` is a removed line; otherwise one starting with `@@ ` is a hunk header with its parsed old start; anything else is content |
| DiffPosition.Step | util.py:205-222 | the effect of one line on `position`, `sourceLine` and `bFound` |
| DiffPosition.Scan | util.py:205-224 | the whole lookup as a function of the unread lines, the starting pair and the target, with the number of lines it reads |
| DiffPosition.ClassifiedAt | util.py:206-209 | each diff line is classified on its own, in order: `-` first, then `@@ `, then content |
| DiffPosition.RunPosition | util.py:205-222 | every consumed line raises `position` by exactly one, so position = initial position + lines consumed |
| DiffPosition.ConsumeLine | util.py:205-222 | a `-` line moves only `position` and keeps the flag; a `@@ ` line sets `sourceLine` to its old start, sets the flag and moves `position`, or raises if the start is unreadable; any other line moves `position`, moves `sourceLine` only when the flag is clear, and clears the flag |
| DiffPosition.ScanStopsAtFirstHit | util.py:205-224 | the scan returns at the FIRST content line after which `sourceLine` equals the target, with position = initial + lines consumed and the flag clear; it returns `None` only when no line hits and the rest parses; it raises only at a header whose old start is unreadable, and reads nothing past it |
| DiffPosition.HeaderOldStartOfFormat | util.py:209-214 | a unified-diff header `@@ -l[,s] +l[,s] @@…` is classified as a hunk header whose start is `l`, the OLD range start (the sign is dropped by `abs`) |
| DiffPosition.ScanContext | util.py:219-224 | over context lines only, the source line `n` lines further on is found `n` positions further on after reading `n` lines |
| DiffPosition.ContextOnlyHunk | util.py:198-224 | in a one-hunk diff of context lines read from the start, old line `start + j` is at position `j + 1` and the stream is left after it |
| DiffPosition.ScanContextExhausted | util.py:205-224 | over context lines only, a target beyond them is never reached: the lookup reads them all and returns `None` |
| DiffPosition.NewFileHunk | util.py:205-224 | in the diff of a file the patch creates (`@@ -0,0 +1,n @@`, then `n` added lines), line `k < n` is found at position `k + 1` after reading `k + 2` lines, and line `n` is not found |
| DiffPosition.GetDiffPosition | util.py:198-224 | the lookup on the open file returns what `Scan` gives for the unread lines, and the file is left exactly after the lines the scan consumed |
| ReviewComments.ResolveErrors | util.py:303-316 | the inner loop as a function: the comments of one file's errors in order, or the first exception; when it completes, exactly one comment per error |
| ReviewComments.CommentsForFile | util.py:300-316 | one `<file>`: its repository-relative path, IOError when the patch file is missing, otherwise its errors resolved from `[-1, 0]`, one comment each |
| ReviewComments.ReviewComments | util.py:292-316 | the outer loop as a function: the comments of every file in report order, or the first exception |
| ReviewComments.ResolveLine | util.py:306-307 | a lookup never moves the file backwards nor past its end |
| ReviewComments.ResolveLineResumes | util.py:306-307 | after each error the state is again a resumable one: the error's own line, a position no earlier than before, the same position when the line repeats, and the file read exactly up to that position |
| ReviewComments.LineZeroBeforeAnyLookup | util.py:300-307 | an error on line `0` before any lookup gets position -1 and reads nothing |
| ReviewComments.ResolveErrorsLocates | util.py:303-316 | one comment per error, in order, with the file's path and the error; each position is a content line of the patch where the running source line, counted from the file's start, is the error's line |
| ReviewComments.ResolvedPositionsAscend | util.py:300-316 | positions never decrease along a file's errors, and an error on the same line as the previous one gets the same position |
| ReviewComments.ResolvedPositionsLocateErrors | util.py:300-316 | from `[-1, 0]`: the two lemmas above together |
| ReviewComments.UnresolvedFromStart | util.py:306-310 | from `[-1, 0]`, a line number the lookup runs out before reaching raises at `positionList[0]` |
| ReviewComments.NewFileLastLineUnresolvable | util.py:306-310 | a finding on the last line of a file the patch creates stops the run with `Unresolvable` |
| ReviewComments.ReviewCommentsCoverEveryError | util.py:292-316 | a run that completes posts exactly one comment per `<error>` of the report, and every file resolved |
| ReviewComments.FailureSticks | util.py:303-310 | the first exception ends the run: later files do not change the outcome |
| ReviewComments.NextPosition | util.py:306-307 | on the open file: keep the pair without reading, or look the line up, leaving the file where `ResolveLine` says it is after the lookup |
| ReviewComments.ResolveFileErrors | util.py:303-316 | the inner loop over one file's errors computes `ResolveErrors` from `[-1, 0]` |
| ReviewComments.CreateReviewComments | util.py:292-316 | the loop over the report's files computes `ReviewComments`: the comments of every file in order, or the first exception |
| ChangeFilter.Marked | util.py:376 | the error node with its `filePath` attribute set to the repository-relative path |
| ChangeFilter.KeepChanged | util.py:373-388 | the children left after both loops: the errors on changed lines, marked with `filePath`, in report order |
| ChangeFilter.Dropped | util.py:373-385 | `removeErrorNodeList`: the errors whose line is not among the changed lines, in report order |
| ChangeFilter.MarksPointwise | util.py:373-385 | the marking loop keeps every child in its place and marks exactly those on changed lines |
| ChangeFilter.RemoveFirst | util.py:388 | `remove` takes out exactly one child |
| ChangeFilter.RemoveFirstAt | util.py:388 | `remove(x)` takes out the child at the first index holding `x`, and leaves the others in order |
| ChangeFilter.FilterAppend | util.py:373-388 | the filter works element by element, so kept errors and the removal list both keep report order |
| ChangeFilter.KeepChangedMembership | util.py:373-385 | an error is among the kept ones if and only if some report error on a changed line, marked with the file's path, equals it |
| ChangeFilter.KeptOnChangedLines | util.py:375-376 | every kept error is on a changed line and carries `filePath` = the repository-relative path |
| ChangeFilter.KeepDropPartition | util.py:373-385 | every error is either kept or queued for removal, and only errors on unchanged lines are queued |
| ChangeFilter.KeepChangedIdempotent | util.py:373-388 | filtering an already filtered list with the same changed lines changes nothing |
| ChangeFilter.FilterSnoc | util.py:373-385 | one more error of the marking loop goes to the end of the kept errors or to the end of `removeErrorNodeList` |
| ChangeFilter.PassKept | util.py:387-388 | moving past a kept error changes neither the children nor the nodes still to remove |
| ChangeFilter.PassDropped | util.py:387-388 | moving past a dropped error exposes it as the next node to remove, and removing the first equal child takes out exactly that node |
| ChangeFilter.RemoveNextDropped | util.py:387-388 | each queued node is present when removed, and removing it (the first equal child) leaves exactly the kept errors before it and the marked children after it |
| ChangeFilter.MarksWithoutDropped | util.py:371-388 | once nothing is left to remove, the marked children are exactly the kept errors |
| ChangeFilter.FilterErrors | util.py:371-388 | the marking loop and the removal loop leave the file's children equal to its kept errors, in order, and count them |
| ChangeFilter.FilterFile | util.py:354-388 | one `<file>` after the filter: its name unchanged, its errors filtered against the `diff` output for that name and marked with its repository-relative path |
| ChangeFilter.FilterReport | util.py:353-391 | the saved report: every `<file>` kept, each filtered against the `diff` output for its name |
| ChangeFilter.EmptyIndices | util.py:390-391 | `removeFileNodeList`: the files left with no `<error>` child, in report order |
| ChangeFilter.EmptyIndicesExact | util.py:390-391 | `removeFileNodeList` names exactly the files with no errors left, each once, in report order |
| ChangeFilter.FilteredReportOnChangedLines | util.py:353-393 | the saved report keeps every `<file>` and its name, and every remaining error is on a line the `diff` tool printed for that file and carries the file's path |
| ChangeFilter.ReportTree.ParseXmlResult | util.py:353-391 | the tree's files become the filtered files, `errorCount` is the number of errors left in the tree, and `removeFileNodeList` is the list of empty files |
| ChangeFilter.ChangedTokens | util.py:368 | `split()` of the `diff` output gives back the printed line numbers |
| ChangeFilter.ChangedLineMeans | util.py:368-375 | a `line` attribute counts as changed if and only if it is the plain rendering of a changed line number, and it then parses to that number |
| ChangeFilter.LeadingZeroNeverKept | util.py:375 | a `line` attribute with a leading zero is never kept |
| ChangeFilter.ThreeFindingsTwoChanged | util.py:368-388 | errors on lines 4, 10 and 22 with lines 10 and 22 changed: the errors on 10 and 22 are kept in order and the one on 4 is removed |
| ChangeFilter.ExitStatusAsWritten | util.py:394 | `sys.exit(errorCount)` exits with the count modulo 256 |
| ChangeFilter.ExitStatusWrapsToClean | util.py:394 | 256 kept errors exit with status 0, like a clean run |
| ChangeFilter.ExitStatus | util.py:394 | the corrected status is 0 exactly when nothing was kept, and equals the count below 256 |
| PatchSelection.Selected | util.py:121 | a file gets a patch when its status is not `removed` and its `splitext` extension is `.php` or `.js` |
| PatchSelection.SelectedNames | util.py:121 | a selected file is not removed and its name ends in `.php` or `.js` |
| PatchSelection.ExtensionOfName | util.py:121 | `base + ext` has extension `ext` when `base` does not end in `.` or `/` and `ext` is a dot followed by neither dots nor slashes |
| PatchSelection.SourcesSelected | util.py:121 | a PHP or JavaScript file that is not removed is selected |
| PatchSelection.DotFileHasNoExtension | util.py:121 | a file whose name is a dot followed by no dots, such as `.js`, has no extension |
| PatchSelection.DotFileNotSelected | util.py:121 | the dot files `.js` and `.php` are not selected |

## Left out

- Network calls: the GitHub API wrappers, deleting old comments and posting the review (util.py:30-89, 227-283, 318-331). The review's `body` text (`.upper()` and `str.format`, util.py:311-315) is not built. A comment keeps the `ErrorNode` it is made from.
- Running `git show` and `diff` as subprocesses (util.py:141-195). The `diff` output for each report file is a parameter, `diffOutputOf`. When `git show` fails, `write_context_to_file` returns `/dev/null`, and the diff then lists every line as new. When `diff` itself fails, the string `/dev/null` comes back, and the filter then keeps no error with a numeric `line` attribute. The model covers both through that parameter. `DiffToolOutput` renders the well-formed case.
- XML parsing and writing (`ET.parse`, `tree.write`). The report is a sequence of `FileNode` values holding `ErrorNode` values. `Element.remove` removes by identity; the model removes the first equal node. `RemoveNextDropped` shows that this is the queued node itself, because every child before it is on a changed line and it is not.
- Writing patch files and creating directories in `generate_pr_patch` (util.py:117-138). Only the selection test at util.py:121 is modelled. The patch files are read back through the `patchOf` parameter, where `None` means `open` raises IOError.
- Environment variables, argparse, `print` and process start-up (util.py:25-27, 397-594). `GITHUB_REPO_DIR` is the parameter `repoDir`.
- Only byte-string (`str`) attributes and lines are modelled. Python 2's ElementTree returns `unicode` for non-ASCII attribute values, and `int()` on a `unicode` value also accepts Unicode digits; neither is covered. `int()` accepts ASCII digits with optional surrounding whitespace and one sign, which may itself be followed by whitespace (`int('- 7') == -7`, `ParseSpacedSign`).
- Lines are modelled as iteration yields them. Their trailing newline is part of the string, which changes none of the three tests the scanner makes.
- GetDiffPosition: takes `lineNumber` already converted to an integer. In Python, `int(lineNumber)` is evaluated at each content line. The caller has already converted the same string at util.py:306, so a bad value raises there first.
- ExitStatusAsWritten: the low eight bits are taken as on POSIX systems. Other platforms are not modelled.

## Findings

| source | as written | input that shows it | evidently intended | confidence | as-written member | corrected member |
|---|---|---|---|---|---|---|
| util.py:394 | `sys.exit(errorCount)` passes the number of kept errors as the exit status, which the operating system truncates to its low eight bits | a pull request with 256 kept errors: exit status 0, the status of a clean run, so a pipeline gating on the status lets it through | the status is non-zero exactly when errors were kept (for example, saturated at 255) | medium; not executed | ChangeFilter.ExitStatusWrapsToClean | ChangeFilter.ExitStatus |
