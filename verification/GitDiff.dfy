/** The unified-diff line machine (src/git_diff.rs) and the diffs it reads. */
module GitDiff {
  import opened Options
  import opened Text

  const DIFF_LINE_MAX: nat := 0x7FFF_FFFF_FFFF_FFFF

  datatype FileHunk = FileHunk(filePath: string, changedLines: seq<nat>, isNew: bool, isDeleted: bool)

  // ----- lines of a text -----

  function LineLength(t: string): (n: nat)
    ensures n <= |t|
    ensures n < |t| ==> t[n] == '\n'
    ensures forall i :: 0 <= i < n ==> t[i] != '\n'
  {
    if |t| == 0 || t[0] == '\n' then 0 else 1 + LineLength(t[1..])
  }

  function StripCr(line: string): string {
    if |line| > 0 && line[|line| - 1] == '\r' then line[..|line| - 1] else line
  }

  /** Rust's `str::lines`: a line ends at `\n` or `\r\n`, the last ending is optional. */
  function Lines(t: string): seq<string> {
    if t == "" then []
    else
      var n := LineLength(t);
      if n == |t| then [t] else [StripCr(t[..n])] + Lines(t[n + 1..])
  }

  function Unlines(lines: seq<string>): string {
    if lines == [] then "" else lines[0] + "\n" + Unlines(lines[1..])
  }

  function StripAll(lines: seq<string>): (r: seq<string>)
    ensures |r| == |lines|
  {
    if lines == [] then [] else [StripCr(lines[0])] + StripAll(lines[1..])
  }

  lemma LineLengthAt(t: string, n: nat)
    requires n < |t| && t[n] == '\n' && forall i :: 0 <= i < n ==> t[i] != '\n'
    ensures LineLength(t) == n
  {
  }

  lemma {:induction false} LinesOfUnlines(lines: seq<string>)
    requires forall l :: l in lines ==> '\n' !in l
    ensures Lines(Unlines(lines)) == StripAll(lines)
  {
    if lines != [] {
      var l, rest := lines[0], Unlines(lines[1..]);
      var t := l + "\n" + rest;
      assert l in lines;
      forall i | 0 <= i < |l| ensures t[i] != '\n' { assert t[i] == l[i]; }
      LineLengthAt(t, |l|);
      assert t[..|l|] == l && t[|l| + 1..] == rest;
      LinesOfUnlines(lines[1..]);
    }
  }

  // ----- parsing -----

  function DigitValue(c: char): nat
    requires IsDigit(c)
  {
    (c - '0') as nat
  }

  function Value(s: string): nat
    requires forall i :: 0 <= i < |s| ==> IsDigit(s[i])
  {
    if s == "" then 0 else 10 * Value(s[..|s| - 1]) + DigitValue(s[|s| - 1])
  }

  /** Rust's `str::parse::<u64>`: an optional `+`, then digits whose value fits. */
  function ParseU64(s: string): (n: Option<nat>)
    ensures n.Some? ==> n.value <= U64_MAX
  {
    ParseDigits(if s != "" && s[0] == '+' then s[1..] else s)
  }

  function ParseDigits(digits: string): (n: Option<nat>)
    ensures n.Some? ==> n.value <= U64_MAX
  {
    if digits == "" || exists i :: 0 <= i < |digits| && !IsDigit(digits[i]) then None
    else if Value(digits) <= U64_MAX then Some(Value(digits))
    else None
  }

  /** Index of the first character satisfying `p`, or the length. */
  function IndexOf(s: string, p: char -> bool): (n: nat)
    ensures n <= |s|
    ensures n < |s| ==> p(s[n])
    ensures forall i :: 0 <= i < n ==> !p(s[i])
  {
    if s == "" || p(s[0]) then 0 else 1 + IndexOf(s[1..], p)
  }

  predicate IsPlus(c: char) { c == '+' }
  predicate EndsNumber(c: char) { c == ',' || c == ' ' }

  /** `parse_hunk_header`: the number after the first `+`, up to a comma or a space. */
  function ParseHunkHeader(line: string): (n: Option<nat>)
    ensures n.Some? ==> n.value <= U64_MAX
  {
    var plus := IndexOf(line, IsPlus);
    if plus == |line| then None
    else
      var rest := line[plus + 1..];
      var end := IndexOf(rest, EndsNumber);
      if end == |rest| then None else ParseU64(rest[..end])
  }

  datatype State = State(
    hunks: seq<FileHunk>,
    file: Option<string>,
    lines: seq<nat>,
    line: nat,
    isNew: bool,
    isDeleted: bool)

  const START := State([], None, [], 0, false, false)

  function Flush(st: State): State {
    if st.file.Some? then
      st.(hunks := st.hunks + [FileHunk(st.file.value, st.lines, st.isNew, st.isDeleted)], file := None, lines := [])
    else st
  }

  datatype LineKind = DiffGit | OldPath(path: string) | OldNull | NewPath(path: string) | NewNull
                    | HunkHeader | AddedRow | DeletedRow | OtherLine

  /** Which branch of the loop a line takes, in the order the branches are tried. */
  function Classify(line: string): LineKind {
    if StartsWith(line, "diff --git") then DiffGit
    else if StartsWith(line, "--- a/") then OldPath(line[6..])
    else if StartsWith(line, "--- /dev/null") then OldNull
    else if StartsWith(line, "+++ b/") then NewPath(line[6..])
    else if StartsWith(line, "+++ /dev/null") then NewNull
    else if StartsWith(line, "@@ ") then HunkHeader
    else if StartsWith(line, "+") && !StartsWith(line, "+++") then AddedRow
    else if StartsWith(line, "-") && !StartsWith(line, "---") then DeletedRow
    else OtherLine
  }

  const TOO_LARGE := "diff_too_large: line counter would overflow"

  function StepLine(st: State, line: string): Result<State, string> {
    match Classify(line)
    case DiffGit => Ok(Flush(st).(isNew := false, isDeleted := false))
    case OldPath(p) => Ok(if st.file.None? then st.(file := Some(p)) else st)
    case OldNull => Ok(st.(isNew := true))
    case NewPath(p) => Ok(st.(file := Some(p)))
    case NewNull => Ok(st.(isDeleted := true))
    case HunkHeader => Ok(match ParseHunkHeader(line) case Some(n) => st.(line := n) case None => st)
    case AddedRow =>
      if st.line >= DIFF_LINE_MAX then Err(TOO_LARGE)
      else Ok(st.(lines := st.lines + [st.line], line := st.line + 1))
    case DeletedRow => Ok(st.(lines := st.lines + [st.line]))
    case OtherLine => if st.line >= DIFF_LINE_MAX then Err(TOO_LARGE) else Ok(st.(line := st.line + 1))
  }

  function Run(st: State, lines: seq<string>): Result<State, string>
    decreases |lines|
  {
    if lines == [] then Ok(st)
    else match StepLine(st, lines[0])
      case Err(e) => Err(e)
      case Ok(st') => Run(st', lines[1..])
  }

  function ParseUnifiedDiff(text: string): Result<seq<FileHunk>, string> {
    match Run(START, Lines(text))
    case Err(e) => Err(e)
    case Ok(st) => Ok(Flush(st).hunks)
  }

  /** `parse_unified_diff`. The counter is a machine word, so that this verifies
      is the proof that it never wraps around, whatever the text. */
  method ParseLoop(text: string) returns (r: Result<seq<FileHunk>, string>)
    ensures r == ParseUnifiedDiff(text)
  {
    hide Classify, Run, ParseHunkHeader;
    var hunks: seq<FileHunk> := [];
    var currentFile: Option<string> := None;
    var currentLines: seq<nat> := [];
    var currentLine: u64 := 0;
    var isNew, isDeleted := false, false;
    var lines := Lines(text);
    assert lines[0..] == lines;
    for k := 0 to |lines|
      invariant Run(START, lines) ==
                Run(State(hunks, currentFile, currentLines, currentLine as nat, isNew, isDeleted), lines[k..])
    {
      var line := lines[k];
      RunUnfolds(State(hunks, currentFile, currentLines, currentLine as nat, isNew, isDeleted), lines, k);
      match Classify(line) {
        case DiffGit =>
          if currentFile.Some? {
            hunks := hunks + [FileHunk(currentFile.value, currentLines, isNew, isDeleted)];
            currentFile, currentLines := None, [];
          }
          isNew, isDeleted := false, false;
        case OldPath(stripped) =>
          if currentFile.None? {
            currentFile := Some(stripped);
          }
        case OldNull => isNew := true;
        case NewPath(stripped) => currentFile := Some(stripped);
        case NewNull => isDeleted := true;
        case HunkHeader =>
          var header := ParseHunkHeader(line);
          if header.Some? {
            currentLine := header.value as u64;
          }
        case AddedRow =>
          currentLines := currentLines + [currentLine as nat];
          if currentLine as nat >= DIFF_LINE_MAX {
            return Err(TOO_LARGE);
          }
          currentLine := currentLine + 1;
        case DeletedRow => currentLines := currentLines + [currentLine as nat];
        case OtherLine =>
          if currentLine as nat >= DIFF_LINE_MAX {
            return Err(TOO_LARGE);
          }
          currentLine := currentLine + 1;
      }
    }
    RunUnfolds(State(hunks, currentFile, currentLines, currentLine as nat, isNew, isDeleted), lines, |lines|);
    if currentFile.Some? {
      hunks := hunks + [FileHunk(currentFile.value, currentLines, isNew, isDeleted)];
    }
    r := Ok(hunks);
  }

  lemma RunUnfolds(st: State, lines: seq<string>, k: nat)
    requires k <= |lines|
    ensures k == |lines| ==> Run(st, lines[k..]) == Ok(st)
    ensures k < |lines| ==>
              Run(st, lines[k..]) ==
              match StepLine(st, lines[k]) case Err(e) => Err(e) case Ok(st') => Run(st', lines[k + 1..])
  {
    if k < |lines| { assert lines[k..][1..] == lines[k + 1..]; }
  }

  // ----- diffs and how they are printed -----

  /** `NoNewline` is the note git prints after a last line that has no line ending. */
  datatype Row = Context(text: string) | Added(text: string) | Deleted(text: string) | NoNewline

  datatype Hunk = Hunk(oldRange: string, newStart: nat, newCount: Option<nat>, section: string, rows: seq<Row>)

  datatype Change = Modified(oldPath: string) | Created | Removed

  /** One file of a diff. `body` is absent when only the mode, the name or a binary blob
      changed: such a file has no path lines and no hunks. */
  datatype FileDiff = FileDiff(title: string, extended: seq<string>, body: Option<Body>)

  datatype Body = Body(change: Change, path: string, hunks: seq<Hunk>)

  function RowLine(r: Row): string {
    match r
    case Context(t) => " " + t
    case Added(t) => "+" + t
    case Deleted(t) => "-" + t
    case NoNewline => "\\ No newline at end of file"
  }

  function HeaderLine(h: Hunk): string {
    "@@ -" + h.oldRange + " +" + Decimal(h.newStart)
    + (if h.newCount.Some? then "," + Decimal(h.newCount.value) else "") + " @@" + h.section
  }

  function RowLines(rows: seq<Row>): (r: seq<string>)
    ensures |r| == |rows|
  {
    if rows == [] then [] else [RowLine(rows[0])] + RowLines(rows[1..])
  }

  function HunkLines(hunks: seq<Hunk>): seq<string> {
    if hunks == [] then [] else [HeaderLine(hunks[0])] + RowLines(hunks[0].rows) + HunkLines(hunks[1..])
  }

  function PathLines(b: Body): seq<string> {
    match b.change
    case Modified(oldPath) => ["--- a/" + oldPath, "+++ b/" + b.path]
    case Created => ["--- /dev/null", "+++ b/" + b.path]
    case Removed => ["--- a/" + b.path, "+++ /dev/null"]
  }

  function BodyLines(b: Option<Body>): seq<string> {
    if b.None? then [] else PathLines(b.value) + HunkLines(b.value.hunks)
  }

  function FileLines(f: FileDiff): seq<string> {
    ["diff --git" + f.title] + f.extended + BodyLines(f.body)
  }

  function DiffLines(files: seq<FileDiff>): seq<string> {
    if files == [] then [] else FileLines(files[0]) + DiffLines(files[1..])
  }

  /** No added text starts with `++`, no deleted text with `--`. */
  predicate RowOk(r: Row) {
    (r.Added? ==> !StartsWith(r.text, "++")) && (r.Deleted? ==> !StartsWith(r.text, "--"))
  }

  predicate Changed(r: Row) {
    r.Added? || r.Deleted?
  }

  /** No changed row comes after a note. */
  predicate NotesLast(rows: seq<Row>) {
    forall i, j :: 0 <= i < j < |rows| && rows[i].NoNewline? ==> !Changed(rows[j])
  }

  predicate RowsOk(rows: seq<Row>) {
    forall r :: r in rows ==> RowOk(r)
  }

  predicate HunksOk(hunks: seq<Hunk>) {
    forall h :: h in hunks ==> RowsOk(h.rows)
  }

  predicate FilesOk(files: seq<FileDiff>) {
    forall f :: f in files && f.body.Some? ==> HunksOk(f.body.value.hunks)
  }

  predicate HunkNotesLast(hunks: seq<Hunk>) {
    forall h :: h in hunks ==> NotesLast(h.rows)
  }

  predicate FileNotesLast(files: seq<FileDiff>) {
    forall f :: f in files && f.body.Some? ==> HunkNotesLast(f.body.value.hunks)
  }

  /** The frame of a hunk: the old range has no `+`, and the numbers stay below the limit. */
  predicate HunkFits(h: Hunk, total: nat) {
    '+' !in h.oldRange && h.newStart + total <= DIFF_LINE_MAX
  }

  predicate FileFits(f: FileDiff, total: nat) {
    && (forall l :: l in f.extended ==> Classify(l) == OtherLine)
    && (f.body.Some? ==> forall h :: h in f.body.value.hunks ==> HunkFits(h, total))
  }

  // ----- what parsing must recover -----

  /** Numbers of the changed rows: an added row has its line number in the new file, a
      deleted row that of the line that takes its place. */
  function Numbers(rows: seq<Row>, n: nat): seq<nat> {
    if rows == [] then []
    else match rows[0]
      case Context(_) => Numbers(rows[1..], n + 1)
      case Added(_) => [n] + Numbers(rows[1..], n + 1)
      case Deleted(_) => [n] + Numbers(rows[1..], n)
      case NoNewline => Numbers(rows[1..], n)
  }

  function AllNumbers(hunks: seq<Hunk>): seq<nat> {
    if hunks == [] then [] else Numbers(hunks[0].rows, hunks[0].newStart) + AllNumbers(hunks[1..])
  }

  function Record(b: Body): FileHunk {
    FileHunk(b.path, AllNumbers(b.hunks), b.change.Created?, b.change.Removed?)
  }

  function Records(files: seq<FileDiff>): seq<FileHunk> {
    if files == [] then []
    else (if files[0].body.Some? then [Record(files[0].body.value)] else []) + Records(files[1..])
  }

  // ----- what parsing gives when every row is read as what it is -----

  /** As `Numbers`, but a note is counted like a line. */
  function Counted(rows: seq<Row>, n: nat): seq<nat> {
    if rows == [] then []
    else (if Changed(rows[0]) then [n] else []) + Counted(rows[1..], if rows[0].Deleted? then n else n + 1)
  }

  function AllCounted(hunks: seq<Hunk>): seq<nat> {
    if hunks == [] then [] else Counted(hunks[0].rows, hunks[0].newStart) + AllCounted(hunks[1..])
  }

  function CountedRecord(b: Body): FileHunk {
    FileHunk(b.path, AllCounted(b.hunks), b.change.Created?, b.change.Removed?)
  }

  function CountedRecords(files: seq<FileDiff>): seq<FileHunk> {
    if files == [] then []
    else (if files[0].body.Some? then [CountedRecord(files[0].body.value)] else []) + CountedRecords(files[1..])
  }

  // ----- rendered lines are read as what they are -----

  lemma {:induction false} RunConcat(st: State, a: seq<string>, b: seq<string>)
    ensures Run(st, a + b) == match Run(st, a) case Err(e) => Err(e) case Ok(st') => Run(st', b)
    decreases |a|
  {
    hide StepLine;
    if a == [] {
      assert a + b == b;
    } else {
      assert (a + b)[0] == a[0] && (a + b)[1..] == a[1..] + b;
      match StepLine(st, a[0])
      case Err(_) =>
      case Ok(st') => RunConcat(st', a[1..], b);
    }
  }

  lemma {:induction false} ValueOfDecimal(n: nat)
    ensures Value(Decimal(n)) == n
  {
    if n >= 10 {
      ValueOfDecimal(n / 10);
      assert Decimal(n)[..|Decimal(n)| - 1] == Decimal(n / 10);
    } else {
      assert Value([Digit(n)]) == 10 * Value("") + n by { assert [Digit(n)][..0] == ""; }
    }
  }

  lemma NumberRoundTrip(n: nat)
    requires n <= U64_MAX
    ensures ParseU64(Decimal(n)) == Some(n)
  {
    ValueOfDecimal(n);
  }

  lemma IndexOfAt(s: string, p: char -> bool, n: nat)
    requires n < |s| && p(s[n]) && forall i :: 0 <= i < n ==> !p(s[i])
    ensures IndexOf(s, p) == n
  {
  }

  lemma HeaderRoundTrip(h: Hunk)
    requires '+' !in h.oldRange && h.newStart <= U64_MAX
    ensures Classify(HeaderLine(h)) == HunkHeader
    ensures ParseHunkHeader(HeaderLine(h)) == Some(h.newStart)
  {
    var line := HeaderLine(h);
    var before := "@@ -" + h.oldRange + " ";
    var tail := (if h.newCount.Some? then "," + Decimal(h.newCount.value) else "") + " @@" + h.section;
    assert line == before + "+" + (Decimal(h.newStart) + tail);
    HeaderIsClassified(line);
    NumberIsFound(before, h.newStart, tail);
  }

  lemma HeaderIsClassified(line: string)
    requires |line| >= 3 && line[..3] == "@@ "
    ensures Classify(line) == HunkHeader
  {
    assert line[0] == line[..3][0];
    NotFirst(line, "diff --git");
    NotFirst(line, "--- a/");
    NotFirst(line, "--- /dev/null");
    NotFirst(line, "+++ b/");
    NotFirst(line, "+++ /dev/null");
  }

  lemma NumberIsFound(before: string, n: nat, tail: string)
    requires '+' !in before && n <= U64_MAX && |tail| > 0 && EndsNumber(tail[0])
    ensures ParseHunkHeader(before + "+" + (Decimal(n) + tail)) == Some(n)
  {
    var digits := Decimal(n);
    var line, rest := before + "+" + (digits + tail), digits + tail;
    forall i | 0 <= i < |before| ensures !IsPlus(line[i]) { assert line[i] == before[i]; }
    IndexOfAt(line, IsPlus, |before|);
    assert line[|before| + 1..] == rest;
    forall i | 0 <= i < |digits| ensures !EndsNumber(rest[i]) { assert rest[i] == digits[i]; }
    IndexOfAt(rest, EndsNumber, |digits|);
    assert rest[..|digits|] == digits;
    NumberRoundTrip(n);
  }

  lemma NotFirst(s: string, p: string)
    requires p != "" && (s == "" || s[0] != p[0])
    ensures !StartsWith(s, p)
  {
    if |s| >= |p| { assert s[..|p|][0] == s[0]; }
  }

  /** Within a hunk the first character decides, unless the text itself starts with two more. */
  lemma RowIsRead(r: Row)
    ensures r.Context? || r.NoNewline? ==> Classify(RowLine(r)) == OtherLine
    ensures r.Added? ==> (Classify(RowLine(r)) == AddedRow <==> RowOk(r)) && Classify(RowLine(r)) != DeletedRow
    ensures r.Deleted? ==> (Classify(RowLine(r)) == DeletedRow <==> RowOk(r)) && Classify(RowLine(r)) != AddedRow
  {
    var l := RowLine(r);
    NotFirst(l, "diff --git");
    NotFirst(l, "@@ ");
    if l[0] != '-' {
      NotFirst(l, "-");
      NotFirst(l, "--- a/");
      NotFirst(l, "--- /dev/null");
    }
    if l[0] != '+' {
      NotFirst(l, "+");
      NotFirst(l, "+++ b/");
      NotFirst(l, "+++ /dev/null");
    }
    Doubled(l, l[1..], '+');
    Doubled(l, l[1..], '-');
    if !r.NoNewline? { assert l[1..] == r.text; }
    LongerPrefix(l, "+++", "+++ b/");
    LongerPrefix(l, "+++", "+++ /dev/null");
    LongerPrefix(l, "---", "--- a/");
    LongerPrefix(l, "---", "--- /dev/null");
  }

  lemma LongerPrefix(l: string, p: string, q: string)
    requires StartsWith(q, p)
    ensures StartsWith(l, q) ==> StartsWith(l, p)
  {
    if StartsWith(l, q) { assert l[..|p|] == l[..|q|][..|p|]; }
  }

  lemma Doubled(l: string, text: string, c: char)
    requires l != "" && l[1..] == text
    ensures l[0] == c ==> StartsWith(l, [c]) && (StartsWith(l, [c, c, c]) <==> StartsWith(text, [c, c]))
  {
    if l[0] == c {
      assert l == [c] + text;
      if |text| >= 2 { assert l[..3] == [c] + text[..2]; }
    }
  }

  lemma PathLinesAreRead(b: Body, st: State)
    requires st.file == None && !st.isNew && !st.isDeleted
    ensures Run(st, PathLines(b)) ==
            Ok(st.(file := Some(b.path), isNew := b.change.Created?, isDeleted := b.change.Removed?))
  {
    hide Classify, Run;
    var p := PathLines(b);
    RunTwo(st, p[0], p[1]);
    match b.change
    case Modified(q) =>
      OldPathIsRead(q);
      NewPathIsRead(b.path);
    case Created =>
      NullsAreRead();
      NewPathIsRead(b.path);
    case Removed =>
      OldPathIsRead(b.path);
      NullsAreRead();
  }

  lemma RunTwo(st: State, a: string, b: string)
    ensures Run(st, [a, b]) == match StepLine(st, a) case Err(e) => Err(e) case Ok(st') => StepLine(st', b)
  {
    hide StepLine;
    assert [a, b][1..] == [b] && [b][1..] == [];
    match StepLine(st, a)
    case Err(_) =>
    case Ok(st') => assert Run(st', [b]) == StepLine(st', b);
  }

  lemma OldPathIsRead(path: string)
    ensures Classify("--- a/" + path) == OldPath(path)
  {
    var l := "--- a/" + path;
    NotFirst(l, "diff --git");
    assert l[..6] == "--- a/" && l[6..] == path;
  }

  lemma NewPathIsRead(path: string)
    ensures Classify("+++ b/" + path) == NewPath(path)
  {
    var l := "+++ b/" + path;
    NotFirst(l, "diff --git");
    NotFirst(l, "--- a/");
    NotFirst(l, "--- /dev/null");
    assert l[..6] == "+++ b/" && l[6..] == path;
  }

  lemma NullsAreRead()
    ensures Classify("--- /dev/null") == OldNull
    ensures Classify("+++ /dev/null") == NewNull
  {
    var o, n := "--- /dev/null", "+++ /dev/null";
    NotFirst(o, "diff --git");
    assert o[..6][4] == '/';
    assert !StartsWith(o, "--- a/");
    NotFirst(n, "diff --git");
    NotFirst(n, "--- a/");
    NotFirst(n, "--- /dev/null");
    assert n[..6][4] == '/';
    assert !StartsWith(n, "+++ b/");
  }

  // ----- the round trip -----

  function LineAfter(rows: seq<Row>, n: nat): (m: nat)
    ensures n <= m <= n + |rows|
  {
    if rows == [] then n else LineAfter(rows[1..], if rows[0].Deleted? then n else n + 1)
  }

  lemma RowStep(st: State, r: Row)
    requires RowOk(r) && st.line < DIFF_LINE_MAX
    ensures StepLine(st, RowLine(r)) ==
            Ok(st.(lines := if Changed(r) then st.lines + [st.line] else st.lines,
                   line := if r.Deleted? then st.line else st.line + 1))
  {
    hide Classify, RowLine, RowOk;
    RowIsRead(r);
  }

  lemma CountedNothing()
    ensures forall n: nat :: Counted([], n) == []
  {
  }

  lemma CountedUnfolds(st: State, rows: seq<Row>)
    requires rows != []
    ensures var r := rows[0];
            var lines := if Changed(r) then st.lines + [st.line] else st.lines;
            st.lines + Counted(rows, st.line) ==
            lines + Counted(rows[1..], if r.Deleted? then st.line else st.line + 1)
  {
    var rest := Counted(rows[1..], if rows[0].Deleted? then st.line else st.line + 1);
    hide Changed;
    if Changed(rows[0]) {
      assert Counted(rows, st.line) == [st.line] + rest;
      Regroup(st.lines, [st.line], rest);
    } else {
      assert Counted(rows, st.line) == [] + rest == rest;
    }
  }

  lemma Regroup(a: seq<nat>, b: seq<nat>, c: seq<nat>)
    ensures a + (b + c) == (a + b) + c
  {
  }

  lemma {:induction false} RowsAreRead(st: State, rows: seq<Row>, after: nat)
    requires st.line + |rows| + after <= DIFF_LINE_MAX
    requires RowsOk(rows)
    ensures Run(st, RowLines(rows)) ==
            Ok(st.(lines := st.lines + Counted(rows, st.line), line := LineAfter(rows, st.line)))
    decreases |rows|
  {
    hide Classify, RowLine, RowOk, StepLine, Changed, Counted;
    CountedNothing();
    if rows != [] {
      var r := rows[0];
      assert r in rows && RowOk(r);
      RowStep(st, r);
      var st' := StepLine(st, RowLine(r)).value;
      RowsAreRead(st', rows[1..], after);
      CountedUnfolds(st, rows);
    } else {
      assert st.lines + [] == st.lines;
    }
  }

  lemma {:induction false} HunksAreRead(st: State, hunks: seq<Hunk>, total: nat, after: nat)
    requires |HunkLines(hunks)| + after <= total && st.line + after <= DIFF_LINE_MAX
    requires HunksOk(hunks) && forall h :: h in hunks ==> HunkFits(h, total)
    ensures var r := Run(st, HunkLines(hunks));
            && r.Ok? && r.value == st.(lines := st.lines + AllCounted(hunks), line := r.value.line)
            && r.value.line + after <= DIFF_LINE_MAX
    decreases |hunks|
  {
    hide StepLine, RowLines, HeaderLine, Counted, RowOk;
    if hunks == [] {
      assert st.lines + [] == st.lines;
    } else {
      var h, rest := hunks[0], HunkLines(hunks[1..]);
      assert h in hunks && HunkFits(h, total) && RowsOk(h.rows);
      HeaderIsRead(st, h, total);
      var st1 := st.(line := h.newStart);
      RowsAreRead(st1, h.rows, after);
      var st2 := st1.(lines := st1.lines + Counted(h.rows, h.newStart), line := LineAfter(h.rows, h.newStart));
      HunksAreRead(st2, hunks[1..], total, after);
      var head := [HeaderLine(h)];
      assert HunkLines(hunks) == head + RowLines(h.rows) + rest;
      RunConcat(st, head + RowLines(h.rows), rest);
      RunConcat(st, head, RowLines(h.rows));
      assert st.lines + AllCounted(hunks) == st2.lines + AllCounted(hunks[1..]);
    }
  }

  lemma HeaderIsRead(st: State, h: Hunk, total: nat)
    requires HunkFits(h, total)
    ensures Run(st, [HeaderLine(h)]) == Ok(st.(line := h.newStart))
  {
    hide Classify, ParseHunkHeader, HeaderLine;
    HeaderRoundTrip(h);
    assert [HeaderLine(h)][1..] == [];
  }

  lemma {:induction false} OthersAreRead(st: State, lines: seq<string>, after: nat)
    requires st.line + |lines| + after <= DIFF_LINE_MAX
    requires forall l :: l in lines ==> Classify(l) == OtherLine
    ensures Run(st, lines) == Ok(st.(line := st.line + |lines|))
    decreases |lines|
  {
    hide Classify;
    if lines != [] {
      assert lines[0] in lines;
      OthersAreRead(st.(line := st.line + 1), lines[1..], after);
    }
  }

  lemma TitleIsRead(st: State, title: string)
    ensures Run(st, ["diff --git" + title]) == Ok(Flush(st).(isNew := false, isDeleted := false))
  {
    var l := "diff --git" + title;
    assert l[..10] == "diff --git";
    var lines: seq<string> := [l];
    assert lines[1..] == [];
  }

  /** What is left to flush after the lines of a file. */
  function Held(st: State): seq<FileHunk> {
    Flush(st).hunks
  }

  lemma FileIsRead(st: State, f: FileDiff, total: nat, after: nat)
    requires FileFits(f, total) && (f.body.Some? ==> HunksOk(f.body.value.hunks)) && |FileLines(f)| + after <= total
    requires st.line + |FileLines(f)| + after <= DIFF_LINE_MAX
    requires st.file == None ==> st.lines == []
    ensures var r := Run(st, FileLines(f));
            && r.Ok? && r.value.line + after <= DIFF_LINE_MAX
            && (r.value.file == None ==> r.value.lines == [])
            && Held(r.value) == Held(st) + CountedOf(f)
  {
    hide StepLine, HunkLines, PathLines, Classify;
    var title, body := ["diff --git" + f.title], BodyLines(f.body);
    TitleIsRead(st, f.title);
    var st1 := Flush(st).(isNew := false, isDeleted := false);
    OthersAreRead(st1, f.extended, |body| + after);
    var st2 := st1.(line := st1.line + |f.extended|);
    RunConcat(st, title + f.extended, body);
    RunConcat(st, title, f.extended);
    assert Run(st, FileLines(f)) == Run(st2, body);
    if f.body.Some? {
      var b := f.body.value;
      PathLinesAreRead(b, st2);
      var st3 := st2.(file := Some(b.path), isNew := b.change.Created?, isDeleted := b.change.Removed?);
      HunksAreRead(st3, b.hunks, total, after);
      RunConcat(st2, PathLines(b), HunkLines(b.hunks));
      assert st3.lines + AllCounted(b.hunks) == AllCounted(b.hunks);
    } else {
      assert Held(st2) == Held(st) + [];
    }
  }

  lemma RunNothing(st: State)
    ensures Run(st, []) == Ok(st)
  {
  }

  function CountedOf(f: FileDiff): seq<FileHunk> {
    if f.body.Some? then [CountedRecord(f.body.value)] else []
  }

  lemma FilesUnfold(files: seq<FileDiff>, held: seq<FileHunk>)
    requires files != []
    ensures DiffLines(files) == FileLines(files[0]) + DiffLines(files[1..])
    ensures held + CountedRecords(files) == (held + CountedOf(files[0])) + CountedRecords(files[1..])
    ensures FilesOk(files) ==>
              FilesOk(files[1..]) && (files[0].body.Some? ==> HunksOk(files[0].body.value.hunks))
  {
    hide HunksOk, CountedRecord;
    assert files[0] in files;
  }

  lemma {:induction false} FilesAreRead(st: State, files: seq<FileDiff>, total: nat)
    requires |DiffLines(files)| <= total && st.line + |DiffLines(files)| <= DIFF_LINE_MAX
    requires FilesOk(files) && forall f :: f in files ==> FileFits(f, total)
    requires st.file == None ==> st.lines == []
    ensures var r := Run(st, DiffLines(files));
            r.Ok? && Held(r.value) == Held(st) + CountedRecords(files)
    decreases |files|
  {
    hide FileLines, CountedRecord, FileFits, HunksOk, FilesOk, Run, Held;
    if files == [] {
      assert DiffLines(files) == [];
      RunNothing(st);
      assert Held(st) + [] == Held(st);
    } else {
      hide DiffLines, CountedRecords;
      var f, rest := files[0], DiffLines(files[1..]);
      FilesUnfold(files, Held(st));
      assert f in files;
      FileIsRead(st, f, total, |rest|);
      FilesAreRead(Run(st, FileLines(f)).value, files[1..], total);
      RunConcat(st, FileLines(f), rest);
    }
  }

  // ----- when what is read is right -----

  lemma SameParts(a: seq<nat>, b: seq<nat>, c: seq<nat>, d: seq<nat>)
    requires |a| == |c|
    ensures a + b == c + d <==> a == c && b == d
  {
    if a + b == c + d {
      assert a == (a + b)[..|a|] == (c + d)[..|a|] == c;
      assert b == (a + b)[|a|..] == (c + d)[|a|..] == d;
    }
  }

  lemma {:induction false} AsManyNumbers(rows: seq<Row>, m: nat, n: nat)
    ensures |Counted(rows, m)| == |Numbers(rows, n)| == ChangedCount(rows)
  {
    if rows != [] {
      AsManyNumbers(rows[1..], if rows[0].Deleted? then m else m + 1,
                    if rows[0].Deleted? || rows[0].NoNewline? then n else n + 1);
    }
  }

  function ChangedCount(rows: seq<Row>): nat {
    if rows == [] then 0 else (if Changed(rows[0]) then 1 else 0) + ChangedCount(rows[1..])
  }

  /** Once the counter is ahead, the numbers are right only when nothing is left to number. */
  lemma {:induction false} AheadIsWrong(rows: seq<Row>, m: nat, n: nat)
    requires m > n
    ensures Counted(rows, m) == Numbers(rows, n) <==> forall r :: r in rows ==> !Changed(r)
  {
    if rows != [] {
      var rest := rows[1..];
      assert rows[0] in rows && forall r :: r in rows <==> r == rows[0] || r in rest;
      if Changed(rows[0]) {
        assert Counted(rows, m)[0] == m && Numbers(rows, n)[0] == n;
      } else {
        AheadIsWrong(rest, m + 1, if rows[0].NoNewline? then n else n + 1);
      }
    }
  }

  lemma NotesLastUnfolds(rows: seq<Row>)
    requires rows != []
    ensures NotesLast(rows) <==>
            NotesLast(rows[1..]) && (rows[0].NoNewline? ==> forall r :: r in rows[1..] ==> !Changed(r))
  {
    var rest := rows[1..];
    assert forall i :: 0 < i < |rows| ==> rows[i] == rest[i - 1];
    if NotesLast(rows) {
      assert forall i :: 0 <= i < |rest| ==> rest[i] == rows[i + 1];
    }
    if NotesLast(rest) && (rows[0].NoNewline? ==> forall r :: r in rest ==> !Changed(r)) {
      forall i, j | 0 <= i < j < |rows| && rows[i].NoNewline? ensures !Changed(rows[j]) {
        assert rows[j] == rest[j - 1] && rest[j - 1] in rest;
        if i > 0 { assert rest[i - 1].NoNewline?; }
      }
    }
  }

  lemma {:induction false} CountedIsRightIff(rows: seq<Row>, n: nat)
    ensures Counted(rows, n) == Numbers(rows, n) <==> NotesLast(rows)
  {
    hide NotesLast;
    if rows != [] {
      NotesLastUnfolds(rows);
      var rest := rows[1..];
      match rows[0]
      case NoNewline =>
        AheadIsWrong(rest, n + 1, n);
        if forall r :: r in rest ==> !Changed(r) { NothingChanged(rest); }
      case Context(_) => CountedIsRightIff(rest, n + 1);
      case Added(_) =>
        CountedIsRightIff(rest, n + 1);
        SameParts([n], Counted(rest, n + 1), [n], Numbers(rest, n + 1));
      case Deleted(_) =>
        CountedIsRightIff(rest, n);
        SameParts([n], Counted(rest, n), [n], Numbers(rest, n));
    } else {
      NothingChanged(rows);
    }
  }

  lemma NothingChanged(rows: seq<Row>)
    requires forall r :: r in rows ==> !Changed(r)
    ensures NotesLast(rows)
  {
    assert forall j :: 0 <= j < |rows| ==> rows[j] in rows;
  }

  lemma {:induction false} AllCountedIsRightIff(hunks: seq<Hunk>)
    ensures |AllCounted(hunks)| == |AllNumbers(hunks)|
    ensures AllCounted(hunks) == AllNumbers(hunks) <==> HunkNotesLast(hunks)
  {
    hide NotesLast, Counted, Numbers;
    if hunks != [] {
      var h, rest := hunks[0], hunks[1..];
      assert forall k :: k in hunks <==> k == h || k in rest;
      AsManyNumbers(h.rows, h.newStart, h.newStart);
      CountedIsRightIff(h.rows, h.newStart);
      AllCountedIsRightIff(rest);
      SameParts(Counted(h.rows, h.newStart), AllCounted(rest), Numbers(h.rows, h.newStart), AllNumbers(rest));
    }
  }

  lemma {:induction false} RecordsAreRightIff(files: seq<FileDiff>)
    ensures |CountedRecords(files)| == |Records(files)|
    ensures CountedRecords(files) == Records(files) <==> FileNotesLast(files)
  {
    hide AllCounted, AllNumbers, HunkNotesLast;
    if files != [] {
      var f, rest := files[0], files[1..];
      assert forall k :: k in files <==> k == f || k in rest;
      RecordsAreRightIff(rest);
      if f.body.Some? {
        AllCountedIsRightIff(f.body.value.hunks);
        var c, r := CountedRecord(f.body.value), Record(f.body.value);
        assert CountedRecords(files) == [c] + CountedRecords(rest) && Records(files) == [r] + Records(rest);
        assert CountedRecords(files)[1..] == CountedRecords(rest) && Records(files)[1..] == Records(rest);
      } else {
        assert CountedRecords(files) == [] + CountedRecords(rest) == CountedRecords(rest);
        assert Records(files) == [] + Records(rest) == Records(rest);
      }
    }
  }

  // ----- a row that is not read as what it is leaves a number out -----

  predicate Numbered(l: string) {
    Classify(l) == AddedRow || Classify(l) == DeletedRow
  }

  function NumberedCount(lines: seq<string>): nat {
    if lines == [] then 0 else (if Numbered(lines[0]) then 1 else 0) + NumberedCount(lines[1..])
  }

  lemma {:induction false} NumberedConcat(a: seq<string>, b: seq<string>)
    ensures NumberedCount(a + b) == NumberedCount(a) + NumberedCount(b)
  {
    hide Numbered;
    if a == [] {
      assert a + b == b;
    } else {
      assert (a + b)[1..] == a[1..] + b;
      NumberedConcat(a[1..], b);
    }
  }

  function Total(hunks: seq<FileHunk>): nat {
    if hunks == [] then 0 else |hunks[0].changedLines| + Total(hunks[1..])
  }

  lemma {:induction false} TotalConcat(a: seq<FileHunk>, b: seq<FileHunk>)
    ensures Total(a + b) == Total(a) + Total(b)
  {
    if a == [] {
      assert a + b == b;
    } else {
      assert (a + b)[1..] == a[1..] + b;
      TotalConcat(a[1..], b);
    }
  }

  /** The numbers a state has recorded. */
  function Recorded(st: State): nat {
    Total(st.hunks) + |st.lines|
  }

  lemma FlushRecords(st: State)
    ensures Recorded(Flush(st)) == Recorded(st) && Total(Flush(st).hunks) <= Recorded(st)
  {
    if st.file.Some? {
      var h := FileHunk(st.file.value, st.lines, st.isNew, st.isDeleted);
      TotalConcat(st.hunks, [h]);
      assert [h][1..] == [];
    }
  }

  lemma StepRecords(st: State, l: string)
    ensures var r := StepLine(st, l);
            r.Ok? ==> Recorded(r.value) == Recorded(st) + (if Numbered(l) then 1 else 0)
  {
    hide Classify, ParseHunkHeader, Flush;
    FlushRecords(st);
  }

  lemma {:induction false} RunRecords(st: State, lines: seq<string>)
    ensures var r := Run(st, lines); r.Ok? ==> Recorded(r.value) == Recorded(st) + NumberedCount(lines)
    decreases |lines|
  {
    hide StepLine, Numbered, Recorded;
    if lines != [] {
      StepRecords(st, lines[0]);
      if StepLine(st, lines[0]).Ok? { RunRecords(StepLine(st, lines[0]).value, lines[1..]); }
    }
  }

  /** How many numbers a diff should give, and how many rows are read as changed rows. */
  function HunksChanged(hunks: seq<Hunk>): nat {
    if hunks == [] then 0 else ChangedCount(hunks[0].rows) + HunksChanged(hunks[1..])
  }

  function FilesChanged(files: seq<FileDiff>): nat {
    if files == [] then 0
    else (if files[0].body.Some? then HunksChanged(files[0].body.value.hunks) else 0) + FilesChanged(files[1..])
  }

  lemma {:induction false} RowsNumbered(rows: seq<Row>)
    ensures NumberedCount(RowLines(rows)) <= ChangedCount(rows)
    ensures NumberedCount(RowLines(rows)) == ChangedCount(rows) ==> RowsOk(rows)
  {
    hide Classify, RowLine, RowOk;
    if rows != [] {
      RowIsRead(rows[0]);
      RowsNumbered(rows[1..]);
      OthersAreOk(rows[0]);
      assert RowLines(rows)[1..] == RowLines(rows[1..]);
    }
  }

  lemma OthersAreOk(r: Row)
    ensures !Changed(r) ==> RowOk(r)
  {
  }

  lemma OneNumbered(l: string)
    ensures NumberedCount([l]) == if Numbered(l) then 1 else 0
  {
    hide Numbered;
    assert [l][1..] == [];
  }

  lemma {:induction false} HunksNumbered(hunks: seq<Hunk>, total: nat)
    requires forall h :: h in hunks ==> HunkFits(h, total)
    ensures NumberedCount(HunkLines(hunks)) <= HunksChanged(hunks)
    ensures NumberedCount(HunkLines(hunks)) == HunksChanged(hunks) ==> HunksOk(hunks)
  {
    hide Classify, RowLines, HeaderLine, RowsOk, ChangedCount, NumberedCount;
    NoneNumbered();
    if hunks != [] {
      var h, rest := hunks[0], hunks[1..];
      assert h in hunks && forall k :: k in hunks <==> k == h || k in rest;
      HeaderRoundTrip(h);
      OneNumbered(HeaderLine(h));
      RowsNumbered(h.rows);
      HunksNumbered(rest, total);
      NumberedConcat([HeaderLine(h)] + RowLines(h.rows), HunkLines(rest));
      NumberedConcat([HeaderLine(h)], RowLines(h.rows));
    }
  }

  lemma NoneNumbered()
    ensures NumberedCount([]) == 0
  {
  }

  lemma {:induction false} OthersNumbered(lines: seq<string>)
    requires forall l :: l in lines ==> Classify(l) == OtherLine
    ensures NumberedCount(lines) == 0
  {
    hide Classify;
    if lines != [] {
      assert lines[0] in lines;
      OthersNumbered(lines[1..]);
    }
  }

  lemma PathsNumbered(b: Body)
    ensures NumberedCount(PathLines(b)) == 0
  {
    hide Classify, NumberedCount;
    var p := PathLines(b);
    match b.change {
      case Modified(q) =>
        OldPathIsRead(q);
        NewPathIsRead(b.path);
      case Created =>
        NullsAreRead();
        NewPathIsRead(b.path);
      case Removed =>
        OldPathIsRead(b.path);
        NullsAreRead();
    }
    OneNumbered(p[0]);
    OneNumbered(p[1]);
    NumberedConcat([p[0]], [p[1]]);
    assert p == [p[0]] + [p[1]];
  }

  lemma TitleNumbered(title: string)
    ensures NumberedCount(["diff --git" + title]) == 0
  {
    var l := "diff --git" + title;
    assert l[..10] == "diff --git";
    OneNumbered(l);
  }

  lemma FileNumbered(f: FileDiff, total: nat)
    requires FileFits(f, total)
    ensures var changed := if f.body.Some? then HunksChanged(f.body.value.hunks) else 0;
            && NumberedCount(FileLines(f)) <= changed
            && (NumberedCount(FileLines(f)) == changed && f.body.Some? ==> HunksOk(f.body.value.hunks))
  {
    hide Classify, NumberedCount, HunksChanged, PathLines, HunkLines;
    var title := ["diff --git" + f.title];
    NoneNumbered();
    TitleNumbered(f.title);
    OthersNumbered(f.extended);
    NumberedConcat(title + f.extended, BodyLines(f.body));
    NumberedConcat(title, f.extended);
    if f.body.Some? {
      var b := f.body.value;
      PathsNumbered(b);
      HunksNumbered(b.hunks, total);
      NumberedConcat(PathLines(b), HunkLines(b.hunks));
    }
  }

  lemma {:induction false} FilesNumbered(files: seq<FileDiff>, total: nat)
    requires forall f :: f in files ==> FileFits(f, total)
    ensures NumberedCount(DiffLines(files)) <= FilesChanged(files)
    ensures NumberedCount(DiffLines(files)) == FilesChanged(files) ==> FilesOk(files)
  {
    hide FileLines, FileFits, HunksChanged, HunksOk, NumberedCount;
    NoneNumbered();
    if files != [] {
      assert files[0] in files && forall k :: k in files <==> k == files[0] || k in files[1..];
      FileNumbered(files[0], total);
      FilesNumbered(files[1..], total);
      NumberedConcat(FileLines(files[0]), DiffLines(files[1..]));
    }
  }

  lemma {:induction false} NumbersOfHunks(hunks: seq<Hunk>)
    ensures |AllNumbers(hunks)| == HunksChanged(hunks)
  {
    hide Numbers, ChangedCount;
    if hunks != [] {
      AsManyNumbers(hunks[0].rows, hunks[0].newStart, hunks[0].newStart);
      NumbersOfHunks(hunks[1..]);
    }
  }

  lemma {:induction false} TotalOfRecords(files: seq<FileDiff>)
    ensures Total(Records(files)) == FilesChanged(files)
  {
    hide AllNumbers, HunksChanged;
    if files != [] {
      TotalOfRecords(files[1..]);
      if files[0].body.Some? {
        NumbersOfHunks(files[0].body.value.hunks);
        assert Records(files)[1..] == Records(files[1..]);
      } else {
        assert Records(files) == [] + Records(files[1..]) == Records(files[1..]);
      }
    }
  }

  // ----- the main results -----

  /** What parsing must give: one record per file with path lines, in order, with its path, its
      flags and the numbers of its changed rows. */
  predicate Recovers(r: Result<State, string>, files: seq<FileDiff>) {
    r.Ok? && Flush(r.value).hunks == Records(files)
  }

  /** Parsing the lines of a diff recovers it exactly when no added text starts with `++`, no
      deleted text with `--`, and in every hunk no changed row comes after a note. */
  lemma ParsingRecoversLinesIff(files: seq<FileDiff>)
    requires forall f :: f in files ==> FileFits(f, |DiffLines(files)|)
    requires |DiffLines(files)| <= DIFF_LINE_MAX
    ensures Recovers(Run(START, DiffLines(files)), files) <==> FilesOk(files) && FileNotesLast(files)
  {
    hide FilesOk, FileNotesLast, FileFits, Run, DiffLines, Flush, Recorded;
    var lines := DiffLines(files);
    if FilesOk(files) {
      FilesAreRead(START, files, |lines|);
      assert [] + CountedRecords(files) == CountedRecords(files);
      RecordsAreRightIff(files);
      StartHoldsNothing();
    } else if Recovers(Run(START, lines), files) {
      FilesNumbered(files, |lines|);
      RunRecords(START, lines);
      FlushRecords(Run(START, lines).value);
      TotalOfRecords(files);
      StartHoldsNothing();
      assert false;
    }
  }

  lemma StartHoldsNothing()
    ensures Held(START) == [] && Recorded(START) == 0
  {
  }

  // A row may itself end in a carriage return, which `Lines` drops with the line ending.

  function StripRow(r: Row): Row {
    match r
    case Context(t) => Context(StripCr(t))
    case Added(t) => Added(StripCr(t))
    case Deleted(t) => Deleted(StripCr(t))
    case NoNewline => NoNewline
  }

  function StripRows(rows: seq<Row>): (r: seq<Row>)
    ensures |r| == |rows|
    ensures forall i :: 0 <= i < |rows| ==> r[i] == StripRow(rows[i])
  {
    if rows == [] then [] else [StripRow(rows[0])] + StripRows(rows[1..])
  }

  function StripHunks(hunks: seq<Hunk>): seq<Hunk> {
    if hunks == [] then [] else [hunks[0].(rows := StripRows(hunks[0].rows))] + StripHunks(hunks[1..])
  }

  function StripFile(f: FileDiff): FileDiff {
    if f.body.None? then f else f.(body := Some(f.body.value.(hunks := StripHunks(f.body.value.hunks))))
  }

  function StripFiles(files: seq<FileDiff>): seq<FileDiff> {
    if files == [] then [] else [StripFile(files[0])] + StripFiles(files[1..])
  }

  predicate KeepsEnd(line: string) {
    StripCr(line) == line
  }

  /** Only the rows may end in a carriage return. */
  ghost predicate HeadersKeepEnd(f: FileDiff) {
    && KeepsEnd("diff --git" + f.title)
    && (forall l :: l in f.extended ==> KeepsEnd(l))
    && (f.body.Some? ==>
          && (forall l :: l in PathLines(f.body.value) ==> KeepsEnd(l))
          && (forall h :: h in f.body.value.hunks ==> KeepsEnd(HeaderLine(h))))
  }

  lemma {:induction false} StripConcat(a: seq<string>, b: seq<string>)
    ensures StripAll(a + b) == StripAll(a) + StripAll(b)
  {
    if a == [] {
      assert a + b == b;
    } else {
      assert (a + b)[1..] == a[1..] + b;
      StripConcat(a[1..], b);
    }
  }

  lemma {:induction false} NothingToStrip(lines: seq<string>)
    requires forall l :: l in lines ==> KeepsEnd(l)
    ensures StripAll(lines) == lines
  {
    if lines != [] {
      assert lines[0] in lines && KeepsEnd(lines[0]);
      NothingToStrip(lines[1..]);
    }
  }

  lemma StripsRow(r: Row)
    ensures StripCr(RowLine(r)) == RowLine(StripRow(r))
    ensures RowOk(StripRow(r)) <==> RowOk(r)
  {
    var l := RowLine(r);
    if r.NoNewline? {
      assert l[|l| - 1] == 'e';
    } else {
      assert l[|l| - 1] == if r.text == "" then l[0] else r.text[|r.text| - 1];
      assert l[..|l| - 1] == if r.text == "" then "" else [l[0]] + r.text[..|r.text| - 1];
      PrefixOfStripped(r.text, '+');
      PrefixOfStripped(r.text, '-');
    }
  }

  lemma PrefixOfStripped(t: string, c: char)
    requires c != '\r'
    ensures StartsWith(StripCr(t), [c, c]) <==> StartsWith(t, [c, c])
  {
    if |t| >= 2 { assert t[..2] == [t[0], t[1]]; }
    var u := StripCr(t);
    if |u| >= 2 { assert u[..2] == [u[0], u[1]]; }
  }

  lemma {:induction false} StripsRows(rows: seq<Row>, n: nat)
    ensures StripAll(RowLines(rows)) == RowLines(StripRows(rows))
    ensures Numbers(StripRows(rows), n) == Numbers(rows, n)
  {
    hide StripCr, RowLine, RowOk;
    if rows != [] {
      var r := rows[0];
      StripsRow(r);
      StripsRows(rows[1..], n);
      StripsRows(rows[1..], n + 1);
    }
  }

  lemma {:induction false} StripsOk(rows: seq<Row>)
    ensures RowsOk(StripRows(rows)) <==> RowsOk(rows)
  {
    hide RowOk, StripCr, StripRow;
    if rows != [] {
      var rest := rows[1..];
      StripsRow(rows[0]);
      StripsOk(rest);
      assert forall r :: r in rows <==> r == rows[0] || r in rest;
      assert forall r :: r in StripRows(rows) <==> r == StripRow(rows[0]) || r in StripRows(rest);
    }
  }

  lemma StripsNotes(rows: seq<Row>)
    ensures NotesLast(StripRows(rows)) <==> NotesLast(rows)
  {
    hide StripCr, StripRows;
    var stripped := StripRows(rows);
    assert forall i :: 0 <= i < |rows| ==>
             (stripped[i].NoNewline? <==> rows[i].NoNewline?) && (Changed(stripped[i]) <==> Changed(rows[i]));
  }

  lemma {:induction false} StripsHunks(hunks: seq<Hunk>, total: nat)
    requires forall h :: h in hunks ==> HunkFits(h, total) && KeepsEnd(HeaderLine(h))
    ensures StripAll(HunkLines(hunks)) == HunkLines(StripHunks(hunks))
    ensures AllNumbers(StripHunks(hunks)) == AllNumbers(hunks)
    ensures forall h :: h in StripHunks(hunks) ==> HunkFits(h, total)
    ensures HunksOk(StripHunks(hunks)) <==> HunksOk(hunks)
    ensures HunkNotesLast(StripHunks(hunks)) <==> HunkNotesLast(hunks)
  {
    hide HeaderLine, StripCr, RowsOk, NotesLast, Numbers, StripRows;
    if hunks != [] {
      var h, stripped := hunks[0], StripHunks(hunks);
      assert h in hunks && forall k :: k in hunks <==> k == h || k in hunks[1..];
      assert forall k :: k in stripped <==> k == h.(rows := StripRows(h.rows)) || k in StripHunks(hunks[1..]);
      StripsRows(h.rows, h.newStart);
      StripsOk(h.rows);
      StripsNotes(h.rows);
      StripsHunks(hunks[1..], total);
      SameHeader(h);
      var head := [HeaderLine(h)];
      assert StripAll(head) == head by { assert head[1..] == []; }
      StripConcat(head + RowLines(h.rows), HunkLines(hunks[1..]));
      StripConcat(head, RowLines(h.rows));
    }
  }

  lemma SameHeader(h: Hunk)
    ensures HeaderLine(h.(rows := StripRows(h.rows))) == HeaderLine(h)
  {
  }

  /** What a file must give and whether it is read right do not depend on carriage returns. */
  predicate Alike(f: FileDiff, g: FileDiff) {
    f.body.Some? == g.body.Some? &&
    (f.body.Some? ==>
       var b, c := f.body.value, g.body.value;
       && Record(b) == Record(c)
       && (HunksOk(b.hunks) <==> HunksOk(c.hunks)) && (HunkNotesLast(b.hunks) <==> HunkNotesLast(c.hunks)))
  }

  lemma StripsFile(f: FileDiff, total: nat)
    requires FileFits(f, total) && HeadersKeepEnd(f)
    ensures StripAll(FileLines(f)) == FileLines(StripFile(f))
    ensures FileFits(StripFile(f), total) && Alike(StripFile(f), f)
  {
    hide Classify, StripCr, HunksOk, HunkNotesLast, AllNumbers, HunkLines, PathLines, HunkFits;
    var title: seq<string> := ["diff --git" + f.title];
    NothingToStrip(title);
    NothingToStrip(f.extended);
    StripConcat(title + f.extended, BodyLines(f.body));
    StripConcat(title, f.extended);
    if f.body.Some? {
      var b := f.body.value;
      SamePaths(b);
      NothingToStrip(PathLines(b));
      StripsHunks(b.hunks, total);
      StripConcat(PathLines(b), HunkLines(b.hunks));
    }
  }

  lemma SamePaths(b: Body)
    ensures PathLines(b.(hunks := StripHunks(b.hunks))) == PathLines(b)
  {
  }

  lemma {:induction false} StripsFiles(files: seq<FileDiff>, total: nat)
    requires forall f :: f in files ==> FileFits(f, total) && HeadersKeepEnd(f)
    ensures StripAll(DiffLines(files)) == DiffLines(StripFiles(files))
    ensures Records(StripFiles(files)) == Records(files)
    ensures forall f :: f in StripFiles(files) ==> FileFits(f, total)
    ensures FilesOk(StripFiles(files)) <==> FilesOk(files)
    ensures FileNotesLast(StripFiles(files)) <==> FileNotesLast(files)
  {
    hide FileLines, Record, FileFits, HeadersKeepEnd, HunksOk, HunkNotesLast, StripFile;
    if files != [] {
      var f, rest := files[0], files[1..];
      assert forall k :: k in files <==> k == f || k in rest;
      assert forall k :: k in StripFiles(files) <==> k == StripFile(f) || k in StripFiles(rest);
      StripsFile(f, total);
      StripsFiles(rest, total);
      StripConcat(FileLines(f), DiffLines(rest));
    }
  }

  /** The same from the printed text: the parser's answer is right exactly then. */
  lemma ParsingRecoversDiffIff(files: seq<FileDiff>)
    requires forall f :: f in files ==> FileFits(f, |DiffLines(files)|) && HeadersKeepEnd(f)
    requires |DiffLines(files)| <= DIFF_LINE_MAX
    requires forall l :: l in DiffLines(files) ==> '\n' !in l
    ensures ParseUnifiedDiff(Unlines(DiffLines(files))) == Ok(Records(files)) <==>
            FilesOk(files) && FileNotesLast(files)
  {
    hide FileFits, HeadersKeepEnd, FilesOk, FileNotesLast, Run, Unlines, Lines;
    var lines, stripped := DiffLines(files), StripFiles(files);
    LinesOfUnlines(lines);
    StripsFiles(files, |lines|);
    assert |DiffLines(stripped)| == |lines|;
    ParsingRecoversLinesIff(stripped);
  }

  // ----- one note -----

  /** A note is counted like a context row, so the rows after it are numbered one too high. */
  lemma NoNewlineRowShiftsNumbers(st: State, rows: seq<Row>)
    requires st.line + |rows| + 1 <= DIFF_LINE_MAX && RowsOk(rows)
    ensures var r := Run(st, [RowLine(NoNewline)] + RowLines(rows));
            r.Ok? && r.value.lines == st.lines + Counted(rows, st.line + 1)
  {
    hide Classify, RowLines, Counted, Run, StepLine, RowsOk, RowLine, LineAfter;
    var note := RowLine(NoNewline);
    RowIsRead(NoNewline);
    OneOther(st, note);
    RunConcat(st, [note], RowLines(rows));
    RowsAreRead(st.(line := st.line + 1), rows, 0);
  }

  lemma OneOther(st: State, l: string)
    requires st.line < DIFF_LINE_MAX && Classify(l) == OtherLine
    ensures Run(st, [l]) == Ok(st.(line := st.line + 1))
  {
    hide Classify;
    OthersAreRead(st, [l], 0);
  }

  /** Such a row leaves the numbers right exactly when no changed row follows it in the hunk. */
  lemma NoNewlineRowIsHarmlessIff(st: State, rows: seq<Row>)
    requires st.line + |rows| + 1 <= DIFF_LINE_MAX && RowsOk(rows)
    ensures var r := Run(st, [RowLine(NoNewline)] + RowLines(rows));
            r.Ok? && (r.value.lines == st.lines + Numbers(rows, st.line) <==> forall r :: r in rows ==> !Changed(r))
  {
    hide Run, RowLines, RowLine, Numbers, Counted, RowsOk;
    NoNewlineRowShiftsNumbers(st, rows);
    AheadIsWrong(rows, st.line + 1, st.line);
    SameParts(st.lines, Numbers(rows, st.line), st.lines, Counted(rows, st.line + 1));
  }

  // ----- what else a line does -----

  /** The lines of a text: a line ends at a line feed, a carriage return before it belongs to the
      ending, and the last line needs none. */
  lemma LinesAre(l: string, rest: string)
    requires '\n' !in l
    ensures Lines(l + "\r\n" + rest) == [l] + Lines(rest)
    ensures (l == "" || l[|l| - 1] != '\r') ==> Lines(l + "\n" + rest) == [l] + Lines(rest)
    ensures Lines(l) == if l == "" then [] else [l]
  {
    hide Lines;
    EndAt(l + "\r", rest);
    EndAt(l, rest);
    LastLine(l);
    assert l + "\r\n" + rest == (l + "\r") + "\n" + rest;
    assert (l + "\r")[..|l|] == l;
  }

  lemma LastLine(l: string)
    requires '\n' !in l
    ensures Lines(l) == if l == "" then [] else [l]
  {
    assert forall i :: 0 <= i < |l| ==> l[i] in l;
  }

  lemma EndAt(l: string, rest: string)
    requires '\n' !in l
    ensures Lines(l + "\n" + rest) == [StripCr(l)] + Lines(rest)
  {
    var t := l + "\n" + rest;
    forall i | 0 <= i < |l| ensures t[i] != '\n' { assert t[i] == l[i] && l[i] in l; }
    LineLengthAt(t, |l|);
    assert t[..|l|] == l && t[|l| + 1..] == rest;
  }

  /** A number may have a plus in front; what is too large, empty or not all digits is none. */
  lemma NumbersAre(n: nat, s: string)
    requires n <= U64_MAX
    ensures ParseU64("+" + Decimal(n)) == Some(n)
    ensures s != "" && s[0] != '+' && (exists i :: 0 <= i < |s| && !('0' <= s[i] <= '9')) ==> ParseU64(s) == None
    ensures ParseU64("") == None && ParseU64("+") == None
  {
    ValueOfDecimal(n);
    assert ("+" + Decimal(n))[1..] == Decimal(n);
    assert "+"[1..] == "";
    if i: int :| 0 <= i < |s| && !('0' <= s[i] <= '9') { if s[0] != '+' { NoDigit(s, i); } }
  }

  lemma NoDigit(s: string, i: nat)
    requires i < |s| && !('0' <= s[i] <= '9') && s[0] != '+'
    ensures ParseU64(s) == None
  {
    assert !IsDigit(s[i]);
  }

  lemma LargeIsNoNumber(n: nat)
    requires n > U64_MAX
    ensures ParseU64(Decimal(n)) == None
  {
    ValueOfDecimal(n);
    assert IsDigit(Decimal(n)[0]);
  }

  /** What an added row does whose text starts with two pluses: it renames the file, marks it
      deleted, or passes for a context row. */
  lemma DoubledAddedRow(st: State, text: string)
    requires StartsWith(text, "++") && st.line < 0x7FFF_FFFF_FFFF_FFFF
    ensures var r := StepLine(st, "+" + text);
            r == Ok(if StartsWith(text, "++ b/") then st.(file := Some(text[5..]))
                    else if StartsWith(text, "++ /dev/null") then st.(isDeleted := true)
                    else st.(line := st.line + 1))
  {
    hide Classify, StartsWith;
    DoubledPlus(text);
  }

  lemma DoubledPlus(text: string)
    requires StartsWith(text, "++")
    ensures Classify("+" + text) == if StartsWith(text, "++ b/") then NewPath(text[5..])
                                    else if StartsWith(text, "++ /dev/null") then NewNull
                                    else OtherLine
  {
    var l := "+" + text;
    DoubledPrefix(l, text, '+', "++ b/");
    DoubledPrefix(l, text, '+', "++ /dev/null");
    DoubledPrefix(l, text, '+', "++");
    FirstChars(l);
    if |text| >= 5 { assert l[6..] == text[5..]; }
    hide StartsWith;
  }

  /** And a deleted row whose text starts with two minuses: the path of an old file counts only
      while no path is known. */
  lemma DoubledDeletedRow(st: State, text: string)
    requires StartsWith(text, "--") && st.line < 0x7FFF_FFFF_FFFF_FFFF
    ensures var r := StepLine(st, "-" + text);
            r == Ok(if StartsWith(text, "-- a/") then (if st.file.None? then st.(file := Some(text[5..])) else st)
                    else if StartsWith(text, "-- /dev/null") then st.(isNew := true)
                    else st.(line := st.line + 1))
  {
    hide Classify, StartsWith;
    DoubledMinus(text);
  }

  lemma DoubledMinus(text: string)
    requires StartsWith(text, "--")
    ensures Classify("-" + text) == if StartsWith(text, "-- a/") then OldPath(text[5..])
                                    else if StartsWith(text, "-- /dev/null") then OldNull
                                    else OtherLine
  {
    var l := "-" + text;
    DoubledPrefix(l, text, '-', "-- a/");
    DoubledPrefix(l, text, '-', "-- /dev/null");
    DoubledPrefix(l, text, '-', "--");
    FirstChars(l);
    if |text| >= 5 { assert l[6..] == text[5..]; }
    hide StartsWith;
  }

  lemma FirstChars(l: string)
    requires l != ""
    ensures l[0] != 'd' ==> !StartsWith(l, "diff --git")
    ensures l[0] != '@' ==> !StartsWith(l, "@@ ")
    ensures l[0] != '+' ==> !StartsWith(l, "+") && !StartsWith(l, "+++ b/") && !StartsWith(l, "+++ /dev/null")
    ensures l[0] != '-' ==> !StartsWith(l, "-") && !StartsWith(l, "--- a/") && !StartsWith(l, "--- /dev/null")
  {
    hide StartsWith;
    if l[0] != 'd' { NotFirst(l, "diff --git"); }
    if l[0] != '@' { NotFirst(l, "@@ "); }
    if l[0] != '+' {
      NotFirst(l, "+");
      NotFirst(l, "+++ b/");
      NotFirst(l, "+++ /dev/null");
    }
    if l[0] != '-' {
      NotFirst(l, "-");
      NotFirst(l, "--- a/");
      NotFirst(l, "--- /dev/null");
    }
  }

  lemma DoubledPrefix(l: string, text: string, c: char, p: string)
    requires l == [c] + text
    ensures StartsWith(l, [c] + p) <==> StartsWith(text, p)
  {
    if |p| <= |text| { assert l[..|p| + 1] == [c] + text[..|p|]; }
    if StartsWith(l, [c] + p) { assert text[..|p|] == l[..|p| + 1][1..] == ([c] + p)[1..] == p; }
  }

  /** At the limit the next line that would advance the counter is refused, whatever follows. */
  lemma LimitIsRefused(st: State, r: Row, rest: seq<string>)
    requires st.line >= 0x7FFF_FFFF_FFFF_FFFF && RowOk(r) && !r.Deleted?
    ensures Run(st, [RowLine(r)] + rest) == Err("diff_too_large: line counter would overflow")
  {
    hide Classify, RowLine, RowOk;
    RowIsRead(r);
    assert ([RowLine(r)] + rest)[0] == RowLine(r);
  }

  /** What is read of any header: the number between its first plus and the comma or space behind
      it; without a plus, or with neither behind it, nothing. */
  lemma HeaderIs(front: string, number: string, tail: string)
    requires '+' !in front && ',' !in number && ' ' !in number
    requires tail == "" || tail[0] == ',' || tail[0] == ' '
    ensures ParseHunkHeader(front + "+" + number + tail) == if tail == "" then None else ParseU64(number)
    ensures ParseHunkHeader(front) == None
  {
    hide ParseU64;
    var line, rest := front + "+" + number + tail, number + tail;
    assert forall i :: 0 <= i < |front| ==> front[i] in front;
    assert forall i :: 0 <= i < |number| ==> number[i] in number;
    IndexIs(line, IsPlus, |front|);
    IndexIs(front, IsPlus, |front|);
    assert line[|front| + 1..] == rest;
    IndexIs(rest, EndsNumber, |number|);
    assert rest[..|number|] == number;
  }

  lemma IndexIs(s: string, p: char -> bool, n: nat)
    requires n <= |s| && (forall i :: 0 <= i < n ==> !p(s[i])) && (n < |s| ==> p(s[n]))
    ensures IndexOf(s, p) == n
  {
  }

  /** A hunk header without a readable new range leaves the counter as it was. */
  lemma UnreadHeaderIsIgnored(st: State, l: string)
    requires StartsWith(l, "@@ ") && ParseHunkHeader(l) == None
    ensures StepLine(st, l) == Ok(st)
  {
    hide ParseHunkHeader;
    FirstChar(l, "@@ ");
    assert l != "";
    hide StartsWith;
    FirstChars(l);
  }
}
