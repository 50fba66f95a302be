/** `getDiffPosition` (util.py:198-224): turning a source line number into the review-comment
    "position", the index of a line within one file's unified-diff text, by reading the diff one
    line at a time from a file object that later calls go on reading from. */
module DiffPosition {
  import opened Wrappers
  import opened PyBuiltins

  /** `abs(int(line.split(" ")[1].split(',')[0]))`: the start of the hunk's OLD range, or `None`
      where Python raises (no second field, or a field `int()` rejects). */
  function HeaderOldStart(line: string): Option<nat> {
    var fields := Split(line, ' ');
    if |fields| < 2 then None
    else match ParseInt(Split(fields[1], ',')[0])
      case None => None
      case Some(v) => Some(if v < 0 then -v else v)
  }

  /** A diff line as the scanner sees it. */
  datatype DiffLine = Removed | HunkHeader(text: string, oldStart: Option<nat>) | Content

  /** The classification of one diff line. A leading '-' is tested first, so a `---` header is a
      removed line; then the "@@ " prefix, whose old start is parsed; every other line, metadata
      included, is content. */
  function Classify(line: string): DiffLine {
    if |line| >= 1 && line[0] == '-' then Removed
    else if |line| >= 3 && line[..3] == "@@ " then HunkHeader(line, HeaderOldStart(line))
    else Content
  }

  /** The lines of a diff file, classified one by one. */
  function Classified(lines: seq<string>): (ds: seq<DiffLine>)
    ensures |ds| == |lines|
  {
    if lines == [] then [] else [Classify(lines[0])] + Classified(lines[1..])
  }

  lemma {:induction false} ClassifiedAt(lines: seq<string>, i: nat)
    requires i < |lines|
    ensures Classified(lines)[i] == Classify(lines[i])
  {
    if i > 0 {
      ClassifiedAt(lines[1..], i - 1);
    }
  }

  /** The scan state: `position`, `sourceLine` and `bFound` ("the previous line was a hunk header"). */
  datatype Cursor = Cursor(position: int, sourceLine: int, afterHeader: bool)

  /** Consuming one diff line; `None` where the header parse raises. */
  function Step(d: DiffLine, c: Cursor): Option<Cursor> {
    match d
    case Removed => Some(c.(position := c.position + 1))
    case HunkHeader(_, oldStart) =>
      (match oldStart
       case None => None
       case Some(start) => Some(Cursor(c.position + 1, start, true)))
    case Content =>
      Some(Cursor(c.position + 1, if c.afterHeader then c.sourceLine else c.sourceLine + 1, false))
  }

  /** The state after consuming all of `ls` from `c`, with no early exit: the reference against
      which the scan is characterised. */
  function Run(ls: seq<DiffLine>, c: Cursor): Option<Cursor>
    decreases |ls|
  {
    if ls == [] then Some(c)
    else match Step(ls[0], c)
      case None => None
      case Some(d) => Run(ls[1..], d)
  }

  /** The `k`-th line of `ls` (counting from 1) is a content line after which the running source
      line equals `target`. */
  predicate Hit(ls: seq<DiffLine>, c: Cursor, target: int, k: int) {
    1 <= k <= |ls| && ls[k - 1].Content? &&
    var r := Run(ls[..k], c);
    r.Some? && r.value.sourceLine == target
  }

  /** What `getDiffPosition` returns: the tuple `(position, sourceLine)`, `None` when the file
      runs out, or the ValueError raised on a header whose old start is not a number. */
  datatype Lookup = Found(position: int, sourceLine: int) | Exhausted | BadHeader(header: string)

  /** A lookup together with the number of lines it consumed from the stream. */
  datatype Scanned = Scanned(result: Lookup, consumed: nat)

  /** The lookup, as a function of the remaining lines, the starting state and the target. */
  function Scan(ls: seq<DiffLine>, c: Cursor, target: int): (s: Scanned)
    ensures s.consumed <= |ls|
    ensures s.result.Exhausted? ==> s.consumed == |ls|
    ensures !s.result.Exhausted? ==> s.consumed >= 1
    decreases |ls|
  {
    if ls == [] then Scanned(Exhausted, 0)
    else match Step(ls[0], c)
      case None => Scanned(BadHeader(ls[0].text), 1)
      case Some(d) =>
        if ls[0].Content? && d.sourceLine == target then Scanned(Found(d.position, d.sourceLine), 1)
        else
          var rest := Scan(ls[1..], d, target);
          Scanned(rest.result, rest.consumed + 1)
  }

  // ---------------------------------------------------------------------------
  // Properties of the running state

  lemma {:induction false} RunAppend(a: seq<DiffLine>, b: seq<DiffLine>, c: Cursor)
    ensures Run(a + b, c) == if Run(a, c).Some? then Run(b, Run(a, c).value) else None
    decreases |a|
  {
    if a == [] {
      assert a + b == b;
    } else {
      assert (a + b)[0] == a[0];
      assert (a + b)[1..] == a[1..] + b;
      match Step(a[0], c)
      case None =>
      case Some(d) => RunAppend(a[1..], b, d);
    }
  }

  /** Every consumed line raises `position` by exactly one. */
  lemma {:induction false} RunPosition(ls: seq<DiffLine>, c: Cursor)
    ensures Run(ls, c).Some? ==> Run(ls, c).value.position == c.position + |ls|
    decreases |ls|
  {
    if ls != [] {
      match Step(ls[0], c)
      case None =>
      case Some(d) => RunPosition(ls[1..], d);
    }
  }

  /** The counting rules, stated as what consuming one more line does to the running state:
      a '-' line moves only `position`; a "@@ " line sets `sourceLine` to the old start and the
      header flag; any other line moves `position`, moves `sourceLine` unless it directly follows
      a header, and clears the flag. */
  lemma ConsumeLine(ls: seq<DiffLine>, line: DiffLine, c: Cursor)
    requires Run(ls, c).Some?
    ensures var d := Run(ls, c).value;
      && (line.Removed? ==>
            Run(ls + [line], c) == Some(Cursor(d.position + 1, d.sourceLine, d.afterHeader)))
      && (line.HunkHeader? && line.oldStart.Some? ==>
            Run(ls + [line], c) == Some(Cursor(d.position + 1, line.oldStart.value, true)))
      && (line.HunkHeader? && line.oldStart.None? ==> Run(ls + [line], c).None?)
      && (line.Content? ==>
            Run(ls + [line], c) == Some(Cursor(d.position + 1, if d.afterHeader then d.sourceLine else d.sourceLine + 1, false)))
  {
    RunAppend(ls, [line], c);
    assert [line][1..] == [];
  }

  lemma RunPrefixShift(ls: seq<DiffLine>, c: Cursor, d: Cursor, k: nat)
    requires ls != [] && Step(ls[0], c) == Some(d) && k < |ls|
    ensures Run(ls[..k + 1], c) == Run(ls[1..][..k], d)
  {
    assert ls[..k + 1][0] == ls[0];
    assert ls[..k + 1][1..] == ls[1..][..k];
  }

  /** The scan stops at the FIRST hit: it returns the state after the hit line (position grown by
      the number of lines consumed, header flag clear), reports exhaustion only when no line is a
      hit and the whole rest parses, and raises only at a header whose old start is unreadable. */
  lemma {:induction false} ScanStopsAtFirstHit(ls: seq<DiffLine>, c: Cursor, target: int)
    ensures var s := Scan(ls, c, target);
      && (forall k :: 1 <= k < s.consumed ==> !Hit(ls, c, target, k))
      && (s.result.Found? ==>
            && Hit(ls, c, target, s.consumed)
            && s.result.sourceLine == target
            && s.result.position == c.position + s.consumed
            && Run(ls[..s.consumed], c) == Some(Cursor(s.result.position, target, false)))
      && (s.result.Exhausted? ==> s.consumed == |ls| && Run(ls, c).Some? && !Hit(ls, c, target, |ls|))
      && (s.result.BadHeader? ==>
            && 1 <= s.consumed
            && ls[s.consumed - 1] == HunkHeader(s.result.header, None)
            && Run(ls[..s.consumed - 1], c).Some?
            && Run(ls[..s.consumed], c).None?)
    decreases |ls|
  {
    if ls != [] {
      assert ls[..0] == [];
      assert ls[..1] == [ls[0]];
      assert [ls[0]][1..] == [];
      match Step(ls[0], c)
      case None =>
      case Some(d) =>
        if ls[0].Content? && d.sourceLine == target {
        } else {
          var rest := Scan(ls[1..], d, target);
          ScanStopsAtFirstHit(ls[1..], d, target);
          forall k | 1 <= k < rest.consumed + 1
            ensures !Hit(ls, c, target, k)
          {
            if k == 1 {
              RunPrefixShift(ls, c, d, 0);
              assert ls[1..][..0] == [];
            } else {
              RunPrefixShift(ls, c, d, k - 1);
              assert ls[k - 1] == ls[1..][k - 2];
              assert !Hit(ls[1..], d, target, k - 1);
            }
          }
          if rest.result.Found? || rest.result.Exhausted? {
            RunPrefixShift(ls, c, d, rest.consumed);
            assert ls[1..][..|ls| - 1] == ls[1..];
            assert ls[..|ls|] == ls;
          }
          if rest.result.Found? {
            RunPosition(ls[1..][..rest.consumed], d);
            assert ls[rest.consumed] == ls[1..][rest.consumed - 1];
          }
          if rest.result.BadHeader? {
            RunPrefixShift(ls, c, d, rest.consumed);
            RunPrefixShift(ls, c, d, rest.consumed - 1);
            assert ls[rest.consumed] == ls[1..][rest.consumed - 1];
          }
        }
    }
  }

  // ---------------------------------------------------------------------------
  // Hunk headers

  /** One range of a hunk header, `-l,s` or `+l,s`; the count is optional in the format. */
  function FormatRange(sign: char, start: nat, count: Option<nat>): string {
    [sign] + Decimal(start) + (if count.Some? then "," + Decimal(count.value) else "")
  }

  /** The unified-diff hunk header `@@ -oldStart[,oldCount] +newStart[,newCount] @@`, followed by
      whatever section text the diff tool appends. */
  function FormatHeader(oldStart: nat, oldCount: Option<nat>, newStart: nat, newCount: Option<nat>, section: string): string {
    "@@ " + FormatRange('-', oldStart, oldCount) + " " + FormatRange('+', newStart, newCount) + " @@" + section
  }

  lemma RangeHasNoSpace(sign: char, start: nat, count: Option<nat>)
    requires sign != ' '
    ensures ' ' !in FormatRange(sign, start, count)
  {
    var r := FormatRange(sign, start, count);
    forall i | 0 <= i < |r| ensures r[i] != ' ' {
      var d := Decimal(start);
      if 1 <= i < 1 + |d| {
        assert r[i] == d[i - 1];
      } else if i > 1 + |d| {
        var e := Decimal(count.value);
        assert r[i] == e[i - 2 - |d|];
      }
    }
  }

  /** The second space-separated field of a formatted header is its old range. */
  lemma HeaderSecondField(oldStart: nat, oldCount: Option<nat>, newStart: nat, newCount: Option<nat>, section: string)
    ensures var line := FormatHeader(oldStart, oldCount, newStart, newCount, section);
      |Split(line, ' ')| >= 2 && Split(line, ' ')[1] == FormatRange('-', oldStart, oldCount)
  {
    var line := FormatHeader(oldStart, oldCount, newStart, newCount, section);
    var oldRange := FormatRange('-', oldStart, oldCount);
    var tail := FormatRange('+', newStart, newCount) + " @@" + section;
    assert line == "@@" + [' '] + (oldRange + [' '] + tail);
    RangeHasNoSpace('-', oldStart, oldCount);
    SplitAtFirst("@@", ' ', oldRange + [' '] + tail);
    SplitAtFirst(oldRange, ' ', tail);
  }

  /** The part of an old range before its comma is the signed start. */
  lemma RangeStartField(start: nat, count: Option<nat>)
    ensures Split(FormatRange('-', start, count), ',')[0] == "-" + Decimal(start)
  {
    var neg := "-" + Decimal(start);
    assert ',' !in neg by {
      forall i | 0 <= i < |neg| ensures neg[i] != ',' {
        if i > 0 { assert neg[i] == Decimal(start)[i - 1]; }
      }
    }
    if count.Some? {
      assert FormatRange('-', start, count) == neg + [','] + Decimal(count.value);
      SplitAtFirst(neg, ',', Decimal(count.value));
    } else {
      assert FormatRange('-', start, count) == neg;
      SplitNoSep(neg, ',');
    }
  }

  lemma HeaderOldStartOfFields(line: string, start: string, n: nat)
    requires |Split(line, ' ')| >= 2 && Split(Split(line, ' ')[1], ',')[0] == start
    requires ParseInt(start) == Some(0 - n)
    ensures HeaderOldStart(line) == Some(n)
  {
  }

  /** The header parse reads the OLD start back out of a well-formed header, not the new one. */
  lemma HeaderOldStartOfFormat(oldStart: nat, oldCount: Option<nat>, newStart: nat, newCount: Option<nat>, section: string)
    ensures var line := FormatHeader(oldStart, oldCount, newStart, newCount, section);
      Classify(line) == HunkHeader(line, Some(oldStart))
  {
    var line := FormatHeader(oldStart, oldCount, newStart, newCount, section);
    assert line[..3] == "@@ ";
    HeaderSecondField(oldStart, oldCount, newStart, newCount, section);
    RangeStartField(oldStart, oldCount);
    ParseDecimal(oldStart);
    HeaderOldStartOfFields(line, "-" + Decimal(oldStart), oldStart);
  }

  /** Context lines only, from a state that is not just after a header: the source line `n` lines
      further on is found `n` positions further on, after reading `n` lines. */
  lemma {:induction false} ScanContext(ls: seq<DiffLine>, c: Cursor, target: int)
    requires forall i :: 0 <= i < |ls| ==> ls[i] == Content
    requires !c.afterHeader && c.sourceLine < target <= c.sourceLine + |ls|
    ensures Scan(ls, c, target) == Scanned(Found(c.position + (target - c.sourceLine), target), target - c.sourceLine)
    decreases |ls|
  {
    if target != c.sourceLine + 1 {
      ScanContext(ls[1..], Cursor(c.position + 1, c.sourceLine + 1, false), target);
    }
  }

  /** A line of unchanged context: a space, then the source text. */
  predicate IsContextLine(line: string) {
    |line| >= 1 && line[0] == ' '
  }

  /** A file whose diff is one hunk of context lines, read from the start: old line
      `oldStart + j` is at position `j + 1`, counting the header as position 0, and the lookup
      stops just after it. */
  lemma ContextOnlyHunk(oldStart: nat, oldCount: Option<nat>, newStart: nat, newCount: Option<nat>, section: string,
                        body: seq<string>, target: int)
    requires forall i :: 0 <= i < |body| ==> IsContextLine(body[i])
    requires oldStart <= target < oldStart + |body|
    ensures var lines := [FormatHeader(oldStart, oldCount, newStart, newCount, section)] + body;
      Scan(Classified(lines), Cursor(-1, 0, false), target)
        == Scanned(Found(target - oldStart + 1, target), target - oldStart + 2)
  {
    var header := FormatHeader(oldStart, oldCount, newStart, newCount, section);
    var lines := [header] + body;
    var ls := Classified(lines);
    HeaderOldStartOfFormat(oldStart, oldCount, newStart, newCount, section);
    ClassifiedAt(lines, 0);
    forall i | 1 <= i < |ls| ensures ls[i] == Content {
      ClassifiedAt(lines, i);
      assert lines[i] == body[i - 1];
    }
    assert ls[0] == HunkHeader(header, Some(oldStart));
    var afterHeader := Cursor(0, oldStart, true);
    assert Scan(ls, Cursor(-1, 0, false), target).consumed == Scan(ls[1..], afterHeader, target).consumed + 1;
    assert ls[1..][0] == Content;
    if target != oldStart {
      var c := Cursor(1, oldStart, false);
      assert ls[1..][1..] == ls[2..];
      ScanContext(ls[2..], c, target);
    }
  }

  /** Context lines only, with the target beyond them: the lookup reads them all and runs out. */
  lemma {:induction false} ScanContextExhausted(ls: seq<DiffLine>, c: Cursor, target: int)
    requires forall i :: 0 <= i < |ls| ==> ls[i] == Content
    requires !c.afterHeader && c.sourceLine + |ls| < target
    ensures Scan(ls, c, target) == Scanned(Exhausted, |ls|)
    decreases |ls|
  {
    if ls != [] {
      ScanContextExhausted(ls[1..], Cursor(c.position + 1, c.sourceLine + 1, false), target);
    }
  }

  /** A line added by the patch: a plus sign, then the new text. */
  predicate IsAddedLine(line: string) {
    |line| >= 1 && line[0] == '+'
  }

  /** A file the patch creates, read from the start: its one hunk `@@ -0,0 +1,n @@` has old start
      0, so the first added line only re-reads source line 0 and line `k` lands on the added line
      of new line `k + 1` (position `k + 1`); line `n`, the last, is never reached. */
  lemma NewFileHunk(section: string, body: seq<string>, k: nat)
    requires forall i :: 0 <= i < |body| ==> IsAddedLine(body[i])
    requires 1 <= k <= |body|
    ensures var lines := [FormatHeader(0, Some(0), 1, Some(|body|), section)] + body;
      var s := Scan(Classified(lines), Cursor(-1, 0, false), k);
      && (k < |body| ==> s == Scanned(Found(k + 1, k), k + 2))
      && (k == |body| ==> s == Scanned(Exhausted, k + 1))
  {
    var header := FormatHeader(0, Some(0), 1, Some(|body|), section);
    var lines := [header] + body;
    var ls := Classified(lines);
    HeaderOldStartOfFormat(0, Some(0), 1, Some(|body|), section);
    ClassifiedAt(lines, 0);
    forall i | 1 <= i < |ls| ensures ls[i] == Content {
      ClassifiedAt(lines, i);
      assert lines[i] == body[i - 1];
    }
    assert ls[0] == HunkHeader(header, Some(0));
    assert Scan(ls, Cursor(-1, 0, false), k).consumed == Scan(ls[1..], Cursor(0, 0, true), k).consumed + 1;
    assert ls[1..][0] == Content && ls[1..][1..] == ls[2..];
    var c := Cursor(1, 0, false);
    if k < |body| {
      ScanContext(ls[2..], c, k);
    } else {
      ScanContextExhausted(ls[2..], c, k);
    }
  }

  // ---------------------------------------------------------------------------
  // The diff file object shared by successive lookups

  /** An open diff file: its lines as iteration yields them, and how many have been read. */
  class DiffFile {
    const lines: seq<string>
    var next: nat

    ghost predicate Valid()
      reads this
    {
      next <= |lines|
    }

    constructor (lines: seq<string>)
      ensures Valid() && this.lines == lines && next == 0
    {
      this.lines := lines;
      next := 0;
    }
  }

  /** A lookup result, with `k` more lines counted as consumed before it. */
  function Later(s: Scanned, k: nat): Scanned {
    Scanned(s.result, s.consumed + k)
  }

  /** A line that is not a hit is consumed and the lookup goes on from the next one. */
  lemma ScanPasses(ls: seq<DiffLine>, c: Cursor, d: Cursor, target: int)
    requires ls != [] && Step(ls[0], c) == Some(d)
    requires !(ls[0].Content? && d.sourceLine == target)
    ensures Scan(ls, c, target) == Later(Scan(ls[1..], d, target), 1)
  {
  }

  /** `getDiffPosition(f, lineNumber, position, sourceLine)`: reads lines from `f` until a content
      line leaves the running source line equal to `lineNumber`. The file is left just after the
      last line read. */
  method GetDiffPosition(f: DiffFile, lineNumber: int, position: int, sourceLine: int) returns (r: Lookup)
    requires f.Valid()
    modifies f
    ensures f.Valid() && old(f.next) <= f.next
    ensures Scan(Classified(f.lines)[old(f.next)..], Cursor(position, sourceLine, false), lineNumber)
         == Scanned(r, f.next - old(f.next))
  {
    var pos, src, found := position, sourceLine, false;
    ghost var start := f.next;
    ghost var rest := Classified(f.lines)[start..];
    ghost var total := Scan(rest, Cursor(position, sourceLine, false), lineNumber);
    while f.next < |f.lines|
      invariant start <= f.next <= |f.lines| && rest == Classified(f.lines)[f.next..]
      invariant total == Later(Scan(rest, Cursor(pos, src, found), lineNumber), f.next - start)
      decreases |f.lines| - f.next
    {
      ghost var c := Cursor(pos, src, found);
      var line := f.lines[f.next];
      ClassifiedAt(f.lines, f.next);
      assert rest[0] == Classify(line);
      f.next := f.next + 1;
      if |line| >= 1 && line[0] == '-' {
        pos := pos + 1;
        ScanPasses(rest, c, Cursor(pos, src, found), lineNumber);
        rest := rest[1..];
        continue;
      }
      if |line| >= 3 && line[..3] == "@@ " {
        var oldStart := HeaderOldStart(line);
        if oldStart.None? {
          return BadHeader(line);
        }
        src := oldStart.value;
        found := true;
        pos := pos + 1;
        ScanPasses(rest, c, Cursor(pos, src, found), lineNumber);
        rest := rest[1..];
        continue;
      }
      pos := pos + 1;
      if !found {
        src := src + 1;
      }
      found := false;
      if src == lineNumber {
        return Found(pos, src);
      }
      ScanPasses(rest, c, Cursor(pos, src, found), lineNumber);
      rest := rest[1..];
    }
    return Exhausted;
  }
}
