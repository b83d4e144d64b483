/**
 * The decision core of the PR feedback audit: parsing unified-diff hunk
 * headers, deciding whether a commented line was touched, classifying review
 * threads, the auto-resolve step, and the counting and filtering behind the
 * markdown report. Every `git` and `gh` call is replaced by an oracle value.
 */
module PrFeedback {
  import opened Wrappers
  import opened Text
  import opened GitHub

  // ---------------------------------------------------------------------------
  // Data model
  // ---------------------------------------------------------------------------

  datatype Status = Resolved | Outdated | Addressed | Unresolved

  /** The statuses in declaration order, the order in which `for status in Status` visits them. */
  const AllStatuses: seq<Status> := [Resolved, Outdated, Addressed, Unresolved]

  function Ordinal(s: Status): nat {
    match s
    case Resolved => 0
    case Outdated => 1
    case Addressed => 2
    case Unresolved => 3
  }

  datatype ThreadComment = ThreadComment(
    author: string,
    body: string,
    createdAt: string,
    outdated: bool,
    originalCommitOid: Option<string>)

  datatype ReviewThread = ReviewThread(
    threadId: string,
    path: string,
    line: Option<int>,
    originalLine: Option<int>,
    isResolved: bool,
    isOutdated: bool,
    resolvedBy: Option<string>,
    diffHunk: string,
    comments: seq<ThreadComment>,
    status: Status,
    diffEvidence: Option<string>)

  /** Python truthiness of an optional line number: `None` and `0` are false. */
  predicate LineTruthy(line: Option<int>) {
    line.Some? && line.value != 0
  }

  /**
   * The outcomes of the two git commands the audit runs:
   * `diff(commit, path)` is the output of `git diff <commit> HEAD -- <path>`,
   * `catFile(path)` that of `git cat-file -t HEAD:<path>`; `None` is a
   * non-zero exit status.
   */
  datatype GitOracle = GitOracle(
    diff: (string, string) -> Option<string>,
    catFile: string -> Option<string>)

  // ---------------------------------------------------------------------------
  // Unified-diff hunk headers: `^@@ -(\d+)(?:,(\d+))? \+` with re.MULTILINE
  // ---------------------------------------------------------------------------

  /** The old-side range of a hunk. */
  datatype Hunk = Hunk(start: nat, count: nat)

  const HunkMarker: string := "@@ -"
  const PlusMarker: string := " +"

  /** After the start digits, at `j`: `(?:,(\d+))? \+`, giving the count (1 when omitted). */
  function CountAndPlus(line: string, j: nat): Option<nat>
    requires j <= |line|
  {
    if j < |line| && line[j] == ',' then
      var k := DigitRunEnd(line, j + 1);
      // When the optional group fails, " +" would have to follow the start
      // digits directly, but the next character there is ','.
      if k > j + 1 && StartsWith(line[k..], PlusMarker) then Some(DigitsValue(line[j + 1..k])) else None
    else if StartsWith(line[j..], PlusMarker) then Some(1)
    else None
  }

  /** The hunk the header pattern finds at the start of one line, if any. */
  function HeaderOf(line: string): (r: Option<Hunk>)
    ensures r.Some? ==> StartsWith(line, HunkMarker)
  {
    if !StartsWith(line, HunkMarker) then None
    else
      var j := DigitRunEnd(line, |HunkMarker|);
      if j == |HunkMarker| then None
      else
        match CountAndPlus(line, j)
        case None => None
        case Some(count) => Some(Hunk(DigitsValue(line[|HunkMarker|..j]), count))
  }

  function HeaderList(line: string): seq<Hunk> {
    match HeaderOf(line)
    case Some(h) => [h]
    case None => []
  }

  /** `^` under re.MULTILINE: the start of the text, or just after a '\n'. */
  predicate LineStart(s: string, i: nat)
    requires i <= |s|
  {
    i == 0 || s[i - 1] == '\n'
  }

  /** The hunks `re.finditer` reports at the line starts before position `n`, in order. */
  function HunksBefore(s: string, n: nat): seq<Hunk>
    requires n <= |s| + 1
  {
    if n == 0 then []
    else HunksBefore(s, n - 1) + (if LineStart(s, n - 1) then HeaderList(s[n - 1..]) else [])
  }

  /** What `parse_diff_hunks` returns for a whole diff. */
  function Hunks(diff: string): seq<Hunk> {
    HunksBefore(diff, |diff| + 1)
  }

  /** `parse_diff_hunks`: try the header pattern at every line start, appending each match. */
  method ParseDiffHunks(diff: string) returns (hunks: seq<Hunk>)
    ensures hunks == Hunks(diff)
  {
    hunks := [];
    for i := 0 to |diff| + 1
      invariant hunks == HunksBefore(diff, i)
    {
      if i == 0 || diff[i - 1] == '\n' {
        var header := HeaderOf(diff[i..]);
        if header.Some? {
          hunks := hunks + [header.value];
        }
      }
    }
  }

  lemma HeaderOfParts(line: string, startDigits: string, tail: string)
    requires IsDigitString(startDigits)
    requires line == HunkMarker + startDigits + tail
    requires tail == [] || !IsDigit(tail[0])
    ensures DigitRunEnd(line, |HunkMarker|) == |HunkMarker| + |startDigits|
    ensures line[|HunkMarker|..|HunkMarker| + |startDigits|] == startDigits
    ensures line[|HunkMarker| + |startDigits|..] == tail
    ensures HeaderOf(line) == match CountAndPlus(line, |HunkMarker| + |startDigits|)
                              case None => None
                              case Some(c) => Some(Hunk(DigitsValue(startDigits), c))
  {
    assert line[..|HunkMarker|] == HunkMarker;
    assert line[|HunkMarker|..|HunkMarker| + |startDigits|] == startDigits;
    DigitRunOf(line, |HunkMarker|, startDigits);
  }

  lemma CountOfParts(line: string, j: nat, countDigits: string, tail: string)
    requires IsDigitString(countDigits) && j <= |line|
    requires line[j..] == "," + countDigits + PlusMarker + tail
    ensures CountAndPlus(line, j) == Some(DigitsValue(countDigits))
  {
    var k := j + 1 + |countDigits|;
    assert line[j] == ',';
    assert line[j + 1..k] == countDigits;
    assert line[k..] == PlusMarker + tail by {
      assert line[k..] == line[j..][1 + |countDigits|..];
    }
    assert line[k] == ' ';
    DigitRunOf(line, j + 1, countDigits);
    assert line[k..][..|PlusMarker|] == PlusMarker;
  }

  /** A header `@@ -<start>,<count> +...` is read back as (start, count). */
  lemma HeaderRoundTrip(start: nat, count: nat, tail: string)
    ensures HeaderOf(HunkMarker + NatToString(start) + "," + NatToString(count) + PlusMarker + tail)
            == Some(Hunk(start, count))
  {
    var sd := NatToString(start);
    var cd := NatToString(count);
    var rest := "," + cd + PlusMarker + tail;
    var line := HunkMarker + sd + rest;
    assert line == HunkMarker + sd + "," + cd + PlusMarker + tail;
    assert rest[0] == ',';
    HeaderOfParts(line, sd, rest);
    assert line[|HunkMarker| + |sd|..] == "," + cd + PlusMarker + tail;
    CountOfParts(line, |HunkMarker| + |sd|, cd, tail);
    DigitsRoundTrip(start);
    DigitsRoundTrip(count);
  }

  /** A header `@@ -<start> +...` without a count is read back as (start, 1). */
  lemma HeaderWithoutCount(start: nat, tail: string)
    ensures HeaderOf(HunkMarker + NatToString(start) + PlusMarker + tail) == Some(Hunk(start, 1))
  {
    var sd := NatToString(start);
    var rest := PlusMarker + tail;
    var line := HunkMarker + sd + rest;
    assert line == HunkMarker + sd + PlusMarker + tail;
    HeaderOfParts(line, sd, rest);
    var j := |HunkMarker| + |sd|;
    assert line[j..][..|PlusMarker|] == PlusMarker;
    DigitsRoundTrip(start);
  }

  /** The empty diff has no hunks. */
  lemma EmptyDiffNoHunks()
    ensures Hunks("") == []
  {
    assert ""[0..] == "";
    assert HeaderOf("") == None;
    assert HunksBefore("", 1) == HunksBefore("", 0) + HeaderList("");
  }

  /** A line that does not start with the "@@ -" marker contributes no hunk. */
  lemma NoHeaderNoHunk(line: string)
    requires '\n' !in line && !StartsWith(line, HunkMarker)
    ensures Hunks(line) == []
  {
    HunksOfLine(line);
  }

  /** A literal without '\n' matches at `j` whether or not the text goes on past a newline. */
  lemma LiteralBeforeNewline(x: string, y: string, j: nat, lit: string)
    requires j <= |x| && '\n' !in lit
    ensures StartsWith((x + "\n" + y)[j..], lit) == StartsWith(x[j..], lit)
  {
    var s := x + "\n" + y;
    if j + |lit| <= |x| {
      assert s[j..][..|lit|] == x[j..][..|lit|];
    } else if |lit| <= |s| - j {
      assert s[j..][..|lit|][|x| - j] == '\n';
      assert lit[|x| - j] in lit;
    }
  }

  lemma {:induction false} DigitRunBeforeNewline(x: string, y: string, i: nat)
    requires i <= |x|
    ensures DigitRunEnd(x + "\n" + y, i) == DigitRunEnd(x, i)
    decreases |x| - i
  {
    var s := x + "\n" + y;
    if i < |x| {
      assert s[i] == x[i];
      if IsDigit(x[i]) {
        DigitRunBeforeNewline(x, y, i + 1);
      }
    }
  }

  lemma CountBeforeNewline(x: string, y: string, j: nat)
    requires j <= |x|
    ensures CountAndPlus(x + "\n" + y, j) == CountAndPlus(x, j)
  {
    var s := x + "\n" + y;
    if j < |x| && x[j] == ',' {
      assert s[j] == ',';
      DigitRunBeforeNewline(x, y, j + 1);
      var k := DigitRunEnd(x, j + 1);
      LiteralBeforeNewline(x, y, k, PlusMarker);
      assert s[j + 1..k] == x[j + 1..k];
    } else {
      LiteralBeforeNewline(x, y, j, PlusMarker);
    }
  }

  /** The header pattern never reads past a newline: what follows it does not matter. */
  lemma HeaderBeforeNewline(x: string, y: string)
    ensures HeaderOf(x + "\n" + y) == HeaderOf(x)
  {
    var s := x + "\n" + y;
    LiteralBeforeNewline(x, y, 0, HunkMarker);
    assert s[0..] == s && x[0..] == x;
    if StartsWith(x, HunkMarker) {
      var n := |HunkMarker|;
      DigitRunBeforeNewline(x, y, n);
      var j := DigitRunEnd(x, n);
      if j > n {
        CountBeforeNewline(x, y, j);
        assert s[n..j] == x[n..j];
      }
    }
  }

  /** Positions up to the end of `a` see the same hunks in `a + "\n" + b` as in `a`. */
  lemma {:induction false} HunksBeforeLeft(a: string, b: string, n: nat)
    requires n <= |a| + 1
    ensures HunksBefore(a + "\n" + b, n) == HunksBefore(a, n)
  {
    if n > 0 {
      var s := a + "\n" + b;
      var i := n - 1;
      HunksBeforeLeft(a, b, i);
      assert s[i..] == a[i..] + "\n" + b;
      HeaderBeforeNewline(a[i..], b);
      if i > 0 {
        assert s[i - 1] == a[i - 1];
      }
    }
  }

  /** Positions after the newline see the hunks of `b`, shifted. */
  lemma {:induction false} HunksBeforeRight(a: string, b: string, m: nat)
    requires m <= |b| + 1
    ensures HunksBefore(a + "\n" + b, |a| + 1 + m) == Hunks(a) + HunksBefore(b, m)
  {
    var s := a + "\n" + b;
    if m == 0 {
      HunksBeforeLeft(a, b, |a| + 1);
    } else {
      var k := m - 1;
      var n := |a| + 1 + k;
      HunksBeforeRight(a, b, k);
      assert s[n..] == b[k..];
      assert LineStart(s, n) == LineStart(b, k) by {
        assert s[n - 1] == if k == 0 then '\n' else b[k - 1];
      }
      var here := if LineStart(b, k) then HeaderList(b[k..]) else [];
      assert HunksBefore(s, n + 1) == HunksBefore(s, n) + here;
      assert HunksBefore(b, m) == HunksBefore(b, k) + here;
      assert (Hunks(a) + HunksBefore(b, k)) + here == Hunks(a) + (HunksBefore(b, k) + here);
    }
  }

  /** The hunks of two diff fragments joined by a newline are those of each, in order. */
  lemma HunksConcat(a: string, b: string)
    ensures Hunks(a + "\n" + b) == Hunks(a) + Hunks(b)
  {
    HunksBeforeRight(a, b, |b| + 1);
  }

  /** A single line yields at most its own header. */
  lemma {:induction false} HunksOfLine(line: string)
    requires '\n' !in line
    ensures Hunks(line) == HeaderList(line)
  {
    HunksOfLineBefore(line, |line| + 1);
    assert line[0..] == line;
  }

  lemma {:induction false} HunksOfLineBefore(line: string, n: nat)
    requires '\n' !in line && 0 < n <= |line| + 1
    ensures HunksBefore(line, n) == HeaderList(line[0..])
  {
    if n > 1 {
      HunksOfLineBefore(line, n - 1);
      assert line[n - 2] in line;
    }
  }

  /** The headers of a sequence of lines, in order. */
  function HeaderLists(lines: seq<string>): seq<Hunk> {
    if lines == [] then [] else HeaderList(lines[0]) + HeaderLists(lines[1..])
  }

  /**
   * `parse_diff_hunks` on lines joined by "\n" finds one hunk per line that
   * carries a header, in the order of the lines.
   */
  lemma {:induction false} HunksOfLines(lines: seq<string>)
    requires |lines| > 0
    requires forall i :: 0 <= i < |lines| ==> '\n' !in lines[i]
    ensures Hunks(Join(lines, "\n")) == HeaderLists(lines)
  {
    HunksOfLine(lines[0]);
    if |lines| > 1 {
      HunksOfLines(lines[1..]);
      HunksConcat(lines[0], Join(lines[1..], "\n"));
      assert Join(lines, "\n") == lines[0] + "\n" + Join(lines[1..], "\n");
    }
  }

  // ---------------------------------------------------------------------------
  // Overlap of the commented line with the old side of a hunk
  // ---------------------------------------------------------------------------

  /** `start <= original_line <= start + count`: note the inclusive upper bound. */
  predicate Overlaps(h: Hunk, line: int) {
    h.start <= line <= h.start + h.count
  }

  /** Index of the first hunk that overlaps `line`. */
  function FirstOverlap(hunks: seq<Hunk>, line: int): (r: Option<nat>)
    ensures r.Some? ==> r.value < |hunks| && Overlaps(hunks[r.value], line)
    ensures r.Some? ==> forall j :: 0 <= j < r.value ==> !Overlaps(hunks[j], line)
    ensures r.None? ==> forall j :: 0 <= j < |hunks| ==> !Overlaps(hunks[j], line)
  {
    if hunks == [] then None
    else if Overlaps(hunks[0], line) then Some(0)
    else
      match FirstOverlap(hunks[1..], line)
      case None => None
      case Some(i) => Some(i + 1)
  }

  const NoCommitEvidence: string := "no original commit"
  const FileDeletedEvidence: string := "file deleted"
  const DiffFailedEvidence: string := "diff failed"
  const NoChangesEvidence: string := "no changes in file"

  function OverlapEvidence(h: Hunk, line: int): string {
    "hunk @@ -" + NatToString(h.start) + "," + NatToString(h.count) + " overlaps line " + IntToString(line)
  }

  function NoOverlapEvidence(line: int): string {
    "no hunk overlaps line " + IntToString(line)
  }

  /** `check_diff_overlap` as a function of the git outcomes: (has overlap, evidence). */
  function DiffOverlap(commit: Option<string>, path: string, line: int, git: GitOracle): (bool, string) {
    if !Truthy(commit) then (false, NoCommitEvidence)
    else
      match git.diff(commit.value, path)
      case None =>
        if git.catFile(path).None? then (true, FileDeletedEvidence) else (false, DiffFailedEvidence)
      case Some(d) =>
        if Strip(d) == [] then (false, NoChangesEvidence)
        else
          var hunks := Hunks(d);
          match FirstOverlap(hunks, line)
          case Some(i) => (true, OverlapEvidence(hunks[i], line))
          case None => (false, NoOverlapEvidence(line))
  }

  /** `check_diff_overlap`: run the diff, parse its hunks and scan them for the commented line. */
  method CheckDiffOverlap(commit: Option<string>, path: string, line: int, git: GitOracle)
    returns (hasOverlap: bool, evidence: string)
    ensures (hasOverlap, evidence) == DiffOverlap(commit, path, line, git)
  {
    if !Truthy(commit) {
      return false, NoCommitEvidence;
    }
    var diff := git.diff(commit.value, path);
    if diff.None? {
      var check := git.catFile(path);
      if check.None? {
        return true, FileDeletedEvidence;
      }
      return false, DiffFailedEvidence;
    }
    if Strip(diff.value) == [] {
      return false, NoChangesEvidence;
    }
    var hunks := ParseDiffHunks(diff.value);
    for i := 0 to |hunks|
      invariant forall j :: 0 <= j < i ==> !Overlaps(hunks[j], line)
    {
      if hunks[i].start <= line <= hunks[i].start + hunks[i].count {
        assert FirstOverlap(hunks, line) == Some(i);
        return true, OverlapEvidence(hunks[i], line);
      }
    }
    return false, NoOverlapEvidence(line);
  }

  /** The four outcomes that do not depend on the hunks. */
  lemma DiffOverlapOutcomes(commit: Option<string>, path: string, line: int, git: GitOracle)
    ensures !Truthy(commit) ==> DiffOverlap(commit, path, line, git) == (false, "no original commit")
    ensures Truthy(commit) && git.diff(commit.value, path).Some? && Strip(git.diff(commit.value, path).value) == []
            ==> DiffOverlap(commit, path, line, git) == (false, "no changes in file")
    ensures Truthy(commit) && git.diff(commit.value, path).None? && git.catFile(path).None?
            ==> DiffOverlap(commit, path, line, git) == (true, "file deleted")
    ensures Truthy(commit) && git.diff(commit.value, path).None? && git.catFile(path).Some?
            ==> DiffOverlap(commit, path, line, git) == (false, "diff failed")
  {
  }

  /**
   * On a non-blank diff, the line counts as changed exactly when some hunk of
   * the diff overlaps it, and the evidence names the first such hunk.
   */
  lemma OverlapIffSomeHunk(commit: Option<string>, path: string, line: int, git: GitOracle)
    requires Truthy(commit) && git.diff(commit.value, path).Some?
    requires Strip(git.diff(commit.value, path).value) != []
    ensures var hunks := Hunks(git.diff(commit.value, path).value);
            DiffOverlap(commit, path, line, git).0 <==> exists i :: 0 <= i < |hunks| && Overlaps(hunks[i], line)
    ensures var hunks := Hunks(git.diff(commit.value, path).value);
            forall i :: 0 <= i < |hunks| && Overlaps(hunks[i], line) && (forall j :: 0 <= j < i ==> !Overlaps(hunks[j], line))
              ==> DiffOverlap(commit, path, line, git).1 == OverlapEvidence(hunks[i], line)
  {
    var hunks := Hunks(git.diff(commit.value, path).value);
    forall i | 0 <= i < |hunks| && Overlaps(hunks[i], line) && (forall j :: 0 <= j < i ==> !Overlaps(hunks[j], line))
      ensures FirstOverlap(hunks, line) == Some(i)
    {
    }
  }

  // ---------------------------------------------------------------------------
  // classify_threads
  // ---------------------------------------------------------------------------

  const OutdatedEvidence: string := "GitHub detected code changed"
  const MissingInfoEvidence: string := "unable to verify (missing commit/line info)"

  function ResolvedEvidence(resolvedBy: Option<string>): string {
    "resolved by " + (if Truthy(resolvedBy) then resolvedBy.value else "unknown")
  }

  /** The original commit recorded on the thread's first comment, if any. */
  function FirstCommit(t: ReviewThread): Option<string> {
    if |t.comments| > 0 then t.comments[0].originalCommitOid else None
  }

  /** The diff check runs only when both the commit and the original line are known. */
  predicate Checkable(t: ReviewThread) {
    Truthy(FirstCommit(t)) && LineTruthy(t.originalLine)
  }

  /** The new state of one thread after `classify_threads`. */
  function Classify(t: ReviewThread, git: GitOracle): (r: ReviewThread)
    ensures r == t.(status := r.status, diffEvidence := r.diffEvidence)
    ensures r.diffEvidence.Some?
  {
    if t.isResolved then
      t.(status := Resolved, diffEvidence := Some(ResolvedEvidence(t.resolvedBy)))
    else if t.isOutdated then
      t.(status := Outdated, diffEvidence := Some(OutdatedEvidence))
    else if Checkable(t) then
      var (has, evidence) := DiffOverlap(FirstCommit(t), t.path, t.originalLine.value, git);
      t.(status := if has then Addressed else Unresolved, diffEvidence := Some(evidence))
    else
      t.(status := Unresolved, diffEvidence := Some(MissingInfoEvidence))
  }

  /** `classify_threads`: classify every thread of the list in place. */
  method ClassifyThreads(threads: array<ReviewThread>, git: GitOracle)
    modifies threads
    ensures forall i :: 0 <= i < threads.Length ==> threads[i] == Classify(old(threads[i]), git)
  {
    for i := 0 to threads.Length
      invariant forall j :: 0 <= j < i ==> threads[j] == Classify(old(threads[j]), git)
      invariant forall j :: i <= j < threads.Length ==> threads[j] == old(threads[j])
    {
      var t := threads[i];
      if t.isResolved {
        threads[i] := t.(status := Resolved, diffEvidence := Some(ResolvedEvidence(t.resolvedBy)));
      } else if t.isOutdated {
        threads[i] := t.(status := Outdated, diffEvidence := Some(OutdatedEvidence));
      } else {
        var originalCommit: Option<string> := None;
        if |t.comments| > 0 {
          originalCommit := t.comments[0].originalCommitOid;
        }
        if Truthy(originalCommit) && LineTruthy(t.originalLine) {
          var hasOverlap, evidence := CheckDiffOverlap(originalCommit, t.path, t.originalLine.value, git);
          threads[i] := t.(status := if hasOverlap then Addressed else Unresolved, diffEvidence := Some(evidence));
        } else {
          threads[i] := t.(status := Unresolved, diffEvidence := Some(MissingInfoEvidence));
        }
      }
    }
  }

  /** The priority of the classification: resolved, then outdated, then the diff check. */
  lemma ClassifyPriority(t: ReviewThread, git: GitOracle)
    ensures t.isResolved ==> Classify(t, git).status == Resolved
    ensures !t.isResolved && t.isOutdated ==> Classify(t, git).status == Outdated
    ensures !t.isResolved && !t.isOutdated ==>
              (Classify(t, git).status == Addressed <==>
               Checkable(t) && DiffOverlap(FirstCommit(t), t.path, t.originalLine.value, git).0)
    ensures !t.isResolved && !t.isOutdated ==> Classify(t, git).status in {Addressed, Unresolved}
  {
  }

  /** Without a first-comment commit or a non-zero original line the thread stays unresolved, saying why. */
  lemma MissingInfoUnresolved(t: ReviewThread, git: GitOracle)
    requires !t.isResolved && !t.isOutdated && !Checkable(t)
    ensures Classify(t, git).status == Unresolved
    ensures Contains(Classify(t, git).diffEvidence.value, "missing")
  {
    MissingInfoMentionsMissing();
  }

  lemma MissingInfoMentionsMissing()
    ensures Contains(MissingInfoEvidence, "missing")
  {
    ContainsInfix("unable to verify (", "missing", " commit/line info)");
    assert MissingInfoEvidence == "unable to verify (" + "missing" + " commit/line info)";
  }

  /** A file gone at HEAD counts as addressed. */
  lemma DeletedFileAddressed(t: ReviewThread, git: GitOracle)
    requires !t.isResolved && !t.isOutdated && Checkable(t)
    requires git.diff(FirstCommit(t).value, t.path).None? && git.catFile(t.path).None?
    ensures Classify(t, git).status == Addressed
    ensures Contains(Classify(t, git).diffEvidence.value, "deleted")
  {
    ContainsAt(FileDeletedEvidence, "deleted", 5);
  }

  /** Classification reads only fields it does not write, so classifying twice changes nothing. */
  lemma ClassifyIdempotent(t: ReviewThread, git: GitOracle)
    ensures Classify(Classify(t, git), git) == Classify(t, git)
  {
  }

  // ---------------------------------------------------------------------------
  // Auto-resolve step of main
  // ---------------------------------------------------------------------------

  const AutoResolvedSuffix: string := " (auto-resolved)"

  /**
   * What `resolve_thread` gives for one thread: the mutation's `isResolved`
   * answer (false also for any error it catches), or `GhFailed` when `gh`
   * itself exits non-zero, which ends the whole program.
   */
  datatype ResolveOutcome = Answer(resolved: bool) | GhFailed

  /** One thread after the auto-resolve step, given whether the resolve mutation succeeded. */
  function AutoResolveOne(t: ReviewThread, succeeded: bool): ReviewThread {
    if t.status == Addressed && succeeded then
      t.(status := Resolved, diffEvidence := Some(t.diffEvidence.GetOr("") + AutoResolvedSuffix))
    else t
  }

  /** The resolve mutation reported the thread resolved. */
  predicate Succeeded(o: ResolveOutcome) {
    o == Answer(true)
  }

  /** The loop reaches this thread's resolve call and `gh` fails there, ending the run. */
  predicate FatalAt(t: ReviewThread, resolve: string -> ResolveOutcome) {
    t.status == Addressed && resolve(t.threadId).GhFailed?
  }

  /**
   * The auto-resolve loop: every addressed thread is submitted to `resolve`
   * (the outcome of the GraphQL mutation for its id) and becomes resolved
   * when that succeeds. A failing `gh` call stops the loop at that thread
   * (`aborted`); the threads before it have been updated, the rest not.
   */
  method AutoResolve(threads: array<ReviewThread>, resolve: string -> ResolveOutcome) returns (aborted: bool)
    modifies threads
    ensures aborted <==> exists i :: 0 <= i < threads.Length && FatalAt(old(threads[i]), resolve)
    ensures forall i :: 0 <= i < threads.Length && (forall j :: 0 <= j <= i ==> !FatalAt(old(threads[j]), resolve)) ==>
              threads[i] == AutoResolveOne(old(threads[i]), Succeeded(resolve(old(threads[i]).threadId)))
    ensures forall i :: 0 <= i < threads.Length && (exists j :: 0 <= j <= i && FatalAt(old(threads[j]), resolve)) ==>
              threads[i] == old(threads[i])
  {
    aborted := false;
    for i := 0 to threads.Length
      invariant forall j :: 0 <= j < i ==> !FatalAt(old(threads[j]), resolve)
      invariant forall j :: 0 <= j < i ==>
                  threads[j] == AutoResolveOne(old(threads[j]), Succeeded(resolve(old(threads[j]).threadId)))
      invariant forall j :: i <= j < threads.Length ==> threads[j] == old(threads[j])
    {
      var t := threads[i];
      if t.status == Addressed {
        var outcome := resolve(t.threadId);
        if outcome.GhFailed? {
          aborted := true;
          return;
        }
        if outcome.resolved {
          threads[i] := t.(status := Resolved, diffEvidence := Some(t.diffEvidence.GetOr("") + AutoResolvedSuffix));
        }
      }
    }
  }

  /** Only addressed threads can become resolved, and only when the mutation succeeded. */
  lemma AutoResolveOnlyAddressed(t: ReviewThread, succeeded: bool)
    ensures AutoResolveOne(t, succeeded).status == Resolved <==>
              t.status == Resolved || (t.status == Addressed && succeeded)
    ensures t.status != Addressed || !succeeded ==> AutoResolveOne(t, succeeded) == t
  {
  }

  // ---------------------------------------------------------------------------
  // Counting and filtering behind format_markdown
  // ---------------------------------------------------------------------------

  /** Number of threads with status `s`. */
  function Count(ts: seq<ReviewThread>, s: Status): (n: nat)
    ensures n <= |ts|
  {
    if ts == [] then 0 else (if ts[0].status == s then 1 else 0) + Count(ts[1..], s)
  }

  lemma {:induction false} CountAppend(ts: seq<ReviewThread>, t: ReviewThread, s: Status)
    ensures Count(ts + [t], s) == Count(ts, s) + (if t.status == s then 1 else 0)
  {
    if ts != [] {
      assert (ts + [t])[1..] == ts[1..] + [t];
      CountAppend(ts[1..], t, s);
    }
  }

  /** The four counts add up to the number of threads. */
  lemma {:induction false} CountTotal(ts: seq<ReviewThread>)
    ensures Count(ts, Resolved) + Count(ts, Outdated) + Count(ts, Addressed) + Count(ts, Unresolved) == |ts|
  {
    if ts != [] {
      CountTotal(ts[1..]);
    }
  }

  /** The relation between a list of threads and the same list after the auto-resolve step. */
  predicate AutoResolvedFrom(before: seq<ReviewThread>, after: seq<ReviewThread>, resolve: string -> ResolveOutcome) {
    |after| == |before| &&
    forall i :: 0 <= i < |before| ==> after[i] == AutoResolveOne(before[i], Succeeded(resolve(before[i].threadId)))
  }

  /**
   * Auto-resolving leaves the outdated and unresolved counts alone and only
   * moves threads from addressed to resolved.
   */
  lemma {:induction false} AutoResolveCounts(before: seq<ReviewThread>, after: seq<ReviewThread>, resolve: string -> ResolveOutcome)
    requires AutoResolvedFrom(before, after, resolve)
    ensures Count(after, Outdated) == Count(before, Outdated)
    ensures Count(after, Unresolved) == Count(before, Unresolved)
    ensures Count(after, Resolved) + Count(after, Addressed) == Count(before, Resolved) + Count(before, Addressed)
    ensures Count(after, Resolved) >= Count(before, Resolved)
  {
    if before != [] {
      assert AutoResolvedFrom(before[1..], after[1..], resolve);
      AutoResolveCounts(before[1..], after[1..], resolve);
    }
  }

  /** `[t for t in threads if t.status != Status.RESOLVED]` */
  function WithoutResolved(ts: seq<ReviewThread>): seq<ReviewThread> {
    if ts == [] then []
    else if ts[0].status == Resolved then WithoutResolved(ts[1..])
    else [ts[0]] + WithoutResolved(ts[1..])
  }

  /** `[t for t in threads if t.status == Status.UNRESOLVED]` */
  function OnlyUnresolved(ts: seq<ReviewThread>): (r: seq<ReviewThread>)
    ensures |r| == Count(ts, Unresolved)
    ensures forall t :: t in r <==> t in ts && t.status == Unresolved
  {
    if ts == [] then []
    else if ts[0].status == Unresolved then [ts[0]] + OnlyUnresolved(ts[1..])
    else OnlyUnresolved(ts[1..])
  }

  /** Keeping only the unresolved threads is an order-keeping filter: it splits over concatenation. */
  lemma {:induction false} OnlyUnresolvedConcat(a: seq<ReviewThread>, b: seq<ReviewThread>)
    ensures OnlyUnresolved(a + b) == OnlyUnresolved(a) + OnlyUnresolved(b)
  {
    if a != [] {
      assert (a + b)[1..] == a[1..] + b;
      OnlyUnresolvedConcat(a[1..], b);
    } else {
      assert a + b == b;
    }
  }

  /** On one thread the filter keeps it exactly when it is unresolved. */
  lemma OnlyUnresolvedSingle(t: ReviewThread)
    ensures OnlyUnresolved([t]) == if t.status == Unresolved then [t] else []
  {
    assert [t][1..] == [];
  }

  /** Excluding resolved threads is an order-keeping filter: it splits over concatenation. */
  lemma {:induction false} WithoutResolvedConcat(a: seq<ReviewThread>, b: seq<ReviewThread>)
    ensures WithoutResolved(a + b) == WithoutResolved(a) + WithoutResolved(b)
  {
    if a != [] {
      assert (a + b)[1..] == a[1..] + b;
      WithoutResolvedConcat(a[1..], b);
    } else {
      assert a + b == b;
    }
  }

  /** On one thread the filter drops it exactly when it is resolved. */
  lemma WithoutResolvedSingle(t: ReviewThread)
    ensures WithoutResolved([t]) == if t.status == Resolved then [] else [t]
  {
    assert [t][1..] == [];
  }

  /** The threads the report shows. */
  function Visible(threads: seq<ReviewThread>, excludeResolved: bool): seq<ReviewThread> {
    if excludeResolved then WithoutResolved(threads) else threads
  }

  /**
   * Excluding resolved threads keeps exactly the others, in order, so every
   * count but the resolved one is unchanged.
   */
  lemma {:induction false} WithoutResolvedKeeps(ts: seq<ReviewThread>)
    ensures forall t :: t in WithoutResolved(ts) <==> t in ts && t.status != Resolved
    ensures forall s :: Count(WithoutResolved(ts), s) == if s == Resolved then 0 else Count(ts, s)
  {
    if ts != [] {
      WithoutResolvedKeeps(ts[1..]);
      assert ts == [ts[0]] + ts[1..];
    }
  }

  /** With `exclude_resolved`, the report is the "all resolved" text exactly when every thread is resolved. */
  lemma AllResolvedWhenExcluded(ts: seq<ReviewThread>)
    ensures Visible(ts, true) == [] <==> forall i :: 0 <= i < |ts| ==> ts[i].status == Resolved
  {
    WithoutResolvedKeeps(ts);
    if Visible(ts, true) != [] {
      var t := Visible(ts, true)[0];
      assert t in WithoutResolved(ts);
    }
    assert forall i :: 0 <= i < |ts| ==> ts[i] in ts;
  }

  /** The summary lines for `statuses`: each status with a non-zero count, with that count. */
  function SummaryOf(statuses: seq<Status>, ts: seq<ReviewThread>): seq<(Status, nat)> {
    if statuses == [] then []
    else
      var s := statuses[|statuses| - 1];
      SummaryOf(statuses[..|statuses| - 1], ts) + (if Count(ts, s) > 0 then [(s, Count(ts, s))] else [])
  }

  /** The summary section of the report. */
  function Summary(ts: seq<ReviewThread>): seq<(Status, nat)> {
    SummaryOf(AllStatuses, ts)
  }

  function SummaryPart(ts: seq<ReviewThread>, s: Status): seq<(Status, nat)> {
    if Count(ts, s) > 0 then [(s, Count(ts, s))] else []
  }

  function SumCounts(summary: seq<(Status, nat)>): nat {
    if summary == [] then 0 else summary[0].1 + SumCounts(summary[1..])
  }

  lemma {:induction false} SumCountsAppend(a: seq<(Status, nat)>, b: seq<(Status, nat)>)
    ensures SumCounts(a + b) == SumCounts(a) + SumCounts(b)
  {
    if a == [] {
      assert a + b == b;
    } else {
      assert (a + b)[0] == a[0];
      assert (a + b)[1..] == a[1..] + b;
      SumCountsAppend(a[1..], b);
    }
  }

  lemma SummaryUnrolled(ts: seq<ReviewThread>)
    ensures Summary(ts) == SummaryPart(ts, Resolved) + SummaryPart(ts, Outdated)
                         + SummaryPart(ts, Addressed) + SummaryPart(ts, Unresolved)
  {
    assert [Resolved][..0] == [];
    assert SummaryOf([Resolved], ts) == SummaryPart(ts, Resolved);
    assert [Resolved, Outdated][..1] == [Resolved];
    assert SummaryOf([Resolved, Outdated], ts) == SummaryOf([Resolved], ts) + SummaryPart(ts, Outdated);
    assert [Resolved, Outdated, Addressed][..2] == [Resolved, Outdated];
    assert SummaryOf([Resolved, Outdated, Addressed], ts)
        == SummaryOf([Resolved, Outdated], ts) + SummaryPart(ts, Addressed);
    assert AllStatuses[..3] == [Resolved, Outdated, Addressed];
  }

  /**
   * Every summary line names one of the statuses with its non-zero count, and
   * every status with a non-zero count has its line.
   */
  lemma {:induction false} SummaryOfEntries(statuses: seq<Status>, ts: seq<ReviewThread>)
    ensures forall k :: 0 <= k < |SummaryOf(statuses, ts)| ==>
              SummaryOf(statuses, ts)[k].0 in statuses &&
              SummaryOf(statuses, ts)[k].1 == Count(ts, SummaryOf(statuses, ts)[k].0) > 0
    ensures forall s :: s in statuses && Count(ts, s) > 0 ==> (s, Count(ts, s)) in SummaryOf(statuses, ts)
  {
    if statuses != [] {
      var init := statuses[..|statuses| - 1];
      var last := statuses[|statuses| - 1];
      SummaryOfEntries(init, ts);
      assert statuses == init + [last];
      assert SummaryOf(statuses, ts) == SummaryOf(init, ts) + SummaryPart(ts, last);
    }
  }

  /** Summary lines follow the order of the statuses they are built from. */
  lemma {:induction false} SummaryOfOrdered(statuses: seq<Status>, ts: seq<ReviewThread>)
    requires forall j, k :: 0 <= j < k < |statuses| ==> Ordinal(statuses[j]) < Ordinal(statuses[k])
    ensures forall j, k :: 0 <= j < k < |SummaryOf(statuses, ts)| ==>
              Ordinal(SummaryOf(statuses, ts)[j].0) < Ordinal(SummaryOf(statuses, ts)[k].0)
  {
    if statuses != [] {
      var init := statuses[..|statuses| - 1];
      var last := statuses[|statuses| - 1];
      SummaryOfOrdered(init, ts);
      SummaryOfEntries(init, ts);
      var prev := SummaryOf(init, ts);
      assert SummaryOf(statuses, ts) == prev + SummaryPart(ts, last);
      forall k | 0 <= k < |prev|
        ensures Ordinal(prev[k].0) < Ordinal(last)
      {
        var m :| 0 <= m < |init| && init[m] == prev[k].0;
      }
    }
  }

  /**
   * The summary lists each status whose count is non-zero, with that count,
   * in declaration order.
   */
  lemma SummaryCounts(ts: seq<ReviewThread>)
    ensures forall k :: 0 <= k < |Summary(ts)| ==>
              Summary(ts)[k].1 == Count(ts, Summary(ts)[k].0) && Summary(ts)[k].1 > 0
    ensures forall s :: Count(ts, s) > 0 ==> (s, Count(ts, s)) in Summary(ts)
    ensures forall j, k :: 0 <= j < k < |Summary(ts)| ==> Ordinal(Summary(ts)[j].0) < Ordinal(Summary(ts)[k].0)
  {
    SummaryOfEntries(AllStatuses, ts);
    SummaryOfOrdered(AllStatuses, ts);
    forall s ensures s in AllStatuses {
      assert AllStatuses[Ordinal(s)] == s;
    }
  }

  /** The counts on the summary lines add up to the number of threads shown. */
  lemma SummaryTotal(ts: seq<ReviewThread>)
    ensures SumCounts(Summary(ts)) == |ts|
  {
    SummaryUnrolled(ts);
    var r, o, a, u := SummaryPart(ts, Resolved), SummaryPart(ts, Outdated), SummaryPart(ts, Addressed), SummaryPart(ts, Unresolved);
    SumCountsPart(ts, Resolved);
    SumCountsPart(ts, Outdated);
    SumCountsPart(ts, Addressed);
    SumCountsPart(ts, Unresolved);
    SumCountsAppend(r, o);
    SumCountsAppend(r + o, a);
    SumCountsAppend(r + o + a, u);
    CountTotal(ts);
  }

  lemma SumCountsPart(ts: seq<ReviewThread>, s: Status)
    ensures SumCounts(SummaryPart(ts, s)) == Count(ts, s)
  {
    if Count(ts, s) > 0 {
      assert SummaryPart(ts, s)[1..] == [];
    }
  }

  /** One row of the details table. */
  datatype Row = Row(
    status: Status,
    path: string,
    line: Option<int>,
    reviewer: string,
    body: string,
    evidence: string)

  /** Width to which the first comment is truncated in the table (`truncate`'s default). */
  const CommentWidth: int := 80

  function RowOf(t: ReviewThread): Row {
    if |t.comments| > 0 then
      Row(t.status, t.path, if LineTruthy(t.originalLine) then t.originalLine else None,
          t.comments[0].author, Truncate(t.comments[0].body, CommentWidth), t.diffEvidence.GetOr(""))
    else
      Row(t.status, t.path, if LineTruthy(t.originalLine) then t.originalLine else None,
          "?", "", t.diffEvidence.GetOr(""))
  }

  /**
   * The structure of the markdown report: the "all resolved" text, or the
   * summary counts, one table row per shown thread and the unresolved
   * threads that need action.
   */
  datatype Report =
    | AllResolved
    | Audit(summary: seq<(Status, nat)>, rows: seq<Row>, actionRequired: seq<ReviewThread>)

  /** The `counts` dictionary of `format_markdown`: the statuses present, each with its count. */
  method CountStatuses(shown: seq<ReviewThread>) returns (counts: map<Status, nat>)
    ensures forall s :: s in counts <==> Count(shown, s) > 0
    ensures forall s :: s in counts ==> counts[s] == Count(shown, s)
  {
    counts := map[];
    for i := 0 to |shown|
      invariant forall s :: s in counts <==> Count(shown[..i], s) > 0
      invariant forall s :: s in counts ==> counts[s] == Count(shown[..i], s)
    {
      var s := shown[i].status;
      assert shown[..i + 1] == shown[..i] + [shown[i]];
      forall s' ensures Count(shown[..i + 1], s') == Count(shown[..i], s') + (if shown[i].status == s' then 1 else 0) {
        CountAppend(shown[..i], shown[i], s');
      }
      counts := counts[s := (if s in counts then counts[s] else 0) + 1];
    }
    assert shown[..|shown|] == shown;
  }

  /** The summary lines of `format_markdown`, read off the counts in enum order. */
  method SummaryFromCounts(shown: seq<ReviewThread>, counts: map<Status, nat>) returns (summary: seq<(Status, nat)>)
    requires forall s :: s in counts <==> Count(shown, s) > 0
    requires forall s :: s in counts ==> counts[s] == Count(shown, s)
    ensures summary == Summary(shown)
  {
    summary := [];
    for j := 0 to |AllStatuses|
      invariant summary == SummaryOf(AllStatuses[..j], shown)
    {
      var s := AllStatuses[j];
      assert AllStatuses[..j + 1][..j] == AllStatuses[..j];
      if s in counts {
        summary := summary + [(s, counts[s])];
      }
    }
    assert AllStatuses[..|AllStatuses|] == AllStatuses;
  }

  /** The details table of `format_markdown`: one row per shown thread, in order. */
  method TableRows(shown: seq<ReviewThread>) returns (rows: seq<Row>)
    ensures |rows| == |shown|
    ensures forall k :: 0 <= k < |shown| ==> rows[k] == RowOf(shown[k])
  {
    rows := [];
    for i := 0 to |shown|
      invariant |rows| == i
      invariant forall k :: 0 <= k < i ==> rows[k] == RowOf(shown[k])
    {
      ghost var before := rows;
      rows := rows + [RowOf(shown[i])];
      assert rows[..i] == before;
    }
  }

  /** `format_markdown`, up to the exact text of each line. */
  method FormatMarkdown(threads: seq<ReviewThread>, excludeResolved: bool) returns (report: Report)
    ensures report.AllResolved? <==> Visible(threads, excludeResolved) == []
    ensures report.Audit? ==> report.summary == Summary(Visible(threads, excludeResolved))
    ensures report.Audit? ==> |report.rows| == |Visible(threads, excludeResolved)|
    ensures report.Audit? ==> forall i :: 0 <= i < |report.rows| ==>
              report.rows[i] == RowOf(Visible(threads, excludeResolved)[i])
    ensures report.Audit? ==> report.actionRequired == OnlyUnresolved(Visible(threads, excludeResolved))
  {
    var shown := threads;
    if excludeResolved {
      shown := WithoutResolved(threads);
    }
    assert shown == Visible(threads, excludeResolved);
    if shown == [] {
      return AllResolved;
    }
    var counts := CountStatuses(shown);
    var summary := SummaryFromCounts(shown, counts);
    var rows := TableRows(shown);
    report := Audit(summary, rows, OnlyUnresolved(shown));
  }

  // ---------------------------------------------------------------------------
  // --pr argument
  // ---------------------------------------------------------------------------

  /** `parse_pr_arg`: (repository or `None`, PR number), or the fatal exit. */
  function ParsePrArg(arg: string): Result<(Option<string>, nat), string> {
    match MatchPrUrl(arg)
    case Some((repo, n)) => Success((Some(repo), n))
    case None =>
      if IsDigitString(arg) then Success((None, DigitsValue(arg)))
      else Failure("could not parse PR argument: " + arg)
  }

  /** A pull-request URL yields its repository and number. */
  lemma ParsePrArgUrl(owner: string, repo: string, n: nat)
    requires owner != [] && repo != [] && '/' !in owner && '/' !in repo
    ensures ParsePrArg(PrUrlPrefix + owner + "/" + repo + PullInfix + NatToString(n))
            == Success((Some(owner + "/" + repo), n))
  {
    PrUrlRoundTrip(owner, repo, n, "");
    assert PrUrlPrefix + owner + "/" + repo + PullInfix + NatToString(n) + ""
        == PrUrlPrefix + owner + "/" + repo + PullInfix + NatToString(n);
  }

  /** A bare number yields no repository and that number. */
  lemma ParsePrArgNumber(n: nat)
    ensures ParsePrArg(NatToString(n)) == Success((None, n))
  {
    var s := NatToString(n);
    DigitsRoundTrip(n);
  }

  /** An issue URL of the right repository is not a pull-request URL. */
  lemma ParsePrArgIssueUrl()
    ensures ParsePrArg("https://github.com/o/r/issues/5").Failure?
  {
    var issue := "https://github.com/o/r/issues/5";
    OwnerRepoEndOf(issue, 19, "o", "r");
    assert issue[22..][1] != PullInfix[1];
    assert !IsDigit(issue[0]);
  }

  /** `/pull/` must be followed by at least one digit. */
  lemma ParsePrArgNoNumber()
    ensures ParsePrArg("https://github.com/o/r/pull/").Failure?
  {
    var noNumber := "https://github.com/o/r/pull/";
    OwnerRepoEndOf(noNumber, 19, "o", "r");
    assert noNumber[22..][..6] == PullInfix;
    assert DigitRunEnd(noNumber, 28) == 28;
    assert !IsDigit(noNumber[0]);
  }

  /** Without a repository part the `[^/]+/[^/]+` group swallows "pull". */
  lemma ParsePrArgNoRepo()
    ensures ParsePrArg("https://github.com/o/pull/5").Failure?
  {
    var noRepo := "https://github.com/o/pull/5";
    OwnerRepoEndOf(noRepo, 19, "o", "pull");
    assert |noRepo[25..]| < |PullInfix|;
    assert !IsDigit(noRepo[0]);
  }

  /** URLs that start like a PR URL but are not one are rejected too. */
  lemma ParsePrArgNotPull()
    ensures ParsePrArg("https://github.com/o/r/issues/5").Failure?
    ensures ParsePrArg("https://github.com/o/r/pull/").Failure?
    ensures ParsePrArg("https://github.com/o/pull/5").Failure?
  {
    ParsePrArgIssueUrl();
    ParsePrArgNoNumber();
    ParsePrArgNoRepo();
  }

  /**
   * The argument is a fatal error exactly when it neither matches the PR-URL
   * pattern nor is all digits; in particular, anything not starting with the
   * GitHub prefix must be all digits.
   */
  lemma ParsePrArgRejects(arg: string)
    ensures ParsePrArg(arg).Failure? <==> MatchPrUrl(arg).None? && !IsDigitString(arg)
    ensures !StartsWith(arg, PrUrlPrefix) ==> (ParsePrArg(arg).Success? <==> IsDigitString(arg))
  {
    if MatchPrUrl(arg).Some? {
      MatchPrUrlShape(arg);
      var g := MatchPrUrl(arg).value.0;
      assert arg[..|PrUrlPrefix|] == (PrUrlPrefix + g + PullInfix)[..|PrUrlPrefix|];
    }
  }
}
