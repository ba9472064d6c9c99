/** The directory-tree parser of the documentation gate (scripts/check_doc_claims.py): depth is
    read from the tree glyphs and a stack of parents rebuilds the full paths. */
module LayoutTree {
  import opened Options
  import opened Text

  const BAR: char := '\U{2502}'
  const DOT: char := '\U{00B7}'
  const ARROW: char := '\U{2190}'
  const TEE: string := "\U{251C}\U{2500}\U{2500} "
  const ELBOW: string := "\U{2514}\U{2500}\U{2500} "

  /** The line boundaries of `str.splitlines`. */
  predicate IsBreak(c: char) {
    '\n' <= c <= '\r' || '\U{1C}' <= c <= '\U{1E}' || c in {'\U{85}', '\U{2028}', '\U{2029}'}
  }

  predicate AllSpaces(s: string) {
    forall c :: c in s ==> IsSpace(c)
  }

  // ----- strings -----

  function LStrip(s: string): string {
    if s != "" && IsSpace(s[0]) then LStrip(s[1..]) else s
  }

  function RStrip(s: string): string {
    if s != "" && IsSpace(s[|s| - 1]) then RStrip(s[..|s| - 1]) else s
  }

  function Strip(s: string): string {
    RStrip(LStrip(s))
  }

  function RStripSlash(s: string): string {
    if s != "" && s[|s| - 1] == '/' then RStripSlash(s[..|s| - 1]) else s
  }

  function FirstBreak(s: string): (k: nat)
    ensures k <= |s|
    ensures k < |s| ==> IsBreak(s[k])
    ensures forall i :: 0 <= i < k ==> !IsBreak(s[i])
  {
    if s == "" || IsBreak(s[0]) then 0 else 1 + FirstBreak(s[1..])
  }

  function SplitLines(s: string): seq<string>
    decreases |s|
  {
    if s == "" then []
    else
      var k := FirstBreak(s);
      if k == |s| then [s]
      else
        var width := if s[k] == '\r' && k + 1 < |s| && s[k + 1] == '\n' then 2 else 1;
        [s[..k]] + SplitLines(s[k + width..])
  }

  // ----- one line -----

  predicate IsGroup(g: string) {
    |g| == 4 && (g[0] == BAR || IsSpace(g[0])) && IsSpace(g[1]) && IsSpace(g[2]) && IsSpace(g[3])
  }

  predicate IsBranch(b: string) {
    b == TEE || b == ELBOW
  }

  /** The regular expression of an entry line: its depth and the text after the branch. */
  function Entry(raw: string): Option<(nat, string)> {
    if |raw| < 4 then None
    else if IsGroup(raw[..4]) then
      match Entry(raw[4..])
      case None => None
      case Some((depth, rest)) => Some((depth + 1, rest))
    else if IsBranch(raw[..4]) then Some((0, raw[4..]))
    else None
  }

  function NonEmpty(parts: seq<string>): seq<string> {
    if parts == [] then []
    else (if Strip(parts[0]) != "" then [Strip(parts[0])] else []) + NonEmpty(parts[1..])
  }

  /** The names a line carries. */
  function Siblings(text: string): seq<string> {
    NonEmpty(Split(Strip(Split(text, ARROW)[0]), DOT))
  }

  // ----- all lines -----

  /** What a line that names entries is given: its number, the stack it sees, its names. */
  datatype Visit = Visit(line: nat, parents: seq<string>, labels: seq<string>)

  datatype State = State(parents: seq<string>, visits: seq<Visit>)

  const START := State([], [])

  predicate OpensDirectory(labels: seq<string>) {
    |labels| == 1 && EndsWith(labels[0], "/")
  }

  function StepLine(st: State, line: nat, raw: string): State {
    match Entry(raw)
    case None => st
    case Some((depth, rest)) =>
      var kept := if depth <= |st.parents| then st.parents[..depth] else st.parents;
      var labels := Siblings(rest);
      State(if OpensDirectory(labels) then kept + [RStripSlash(labels[0])] else kept,
            st.visits + [Visit(line, kept, labels)])
  }

  function Run(st: State, line: nat, lines: seq<string>): State
    decreases |lines|
  {
    if lines == [] then st else Run(StepLine(st, line, lines[0]), line + 1, lines[1..])
  }

  function VisitPaths(line: nat, parents: seq<string>, labels: seq<string>): seq<(nat, string)> {
    if labels == [] then []
    else [(line, Join(parents + [RStripSlash(labels[0])], '/'))] + VisitPaths(line, parents, labels[1..])
  }

  function Found(visits: seq<Visit>): seq<(nat, string)> {
    if visits == [] then []
    else VisitPaths(visits[0].line, visits[0].parents, visits[0].labels) + Found(visits[1..])
  }

  lemma {:induction false} FoundConcat(a: seq<Visit>, b: seq<Visit>)
    ensures Found(a + b) == Found(a) + Found(b)
  {
    hide VisitPaths;
    if a == [] {
      assert a + b == b;
    } else {
      assert (a + b)[1..] == a[1..] + b;
      FoundConcat(a[1..], b);
    }
  }

  lemma {:induction false} RunConcat(st: State, line: nat, x: seq<string>, y: seq<string>)
    ensures Run(st, line, x + y) == Run(Run(st, line, x), line + |x|, y)
    decreases |x|
  {
    hide StepLine;
    if x == [] {
      assert x + y == y;
    } else {
      assert (x + y)[1..] == x[1..] + y;
      RunConcat(StepLine(st, line, x[0]), line + 1, x[1..], y);
    }
  }

  lemma FoundAppend(a: seq<Visit>, v: Visit)
    ensures Found(a + [v]) == Found(a) + VisitPaths(v.line, v.parents, v.labels)
  {
    hide VisitPaths;
    FoundConcat(a, [v]);
    assert [v][1..] == [];
  }

  /** The loop over the names of one line. */
  method AddSiblings(line: nat, parents: seq<string>, siblings: seq<string>, found: seq<(nat, string)>)
    returns (all: seq<(nat, string)>)
    ensures all == found + VisitPaths(line, parents, siblings)
  {
    hide RStripSlash, Join;
    all := found;
    for k := 0 to |siblings|
      invariant all + VisitPaths(line, parents, siblings[k..]) == found + VisitPaths(line, parents, siblings)
    {
      assert siblings[k..][1..] == siblings[k + 1..];
      all := all + [(line, Join(parents + [RStripSlash(siblings[k])], '/'))];
    }
  }

  /** `_layout_paths`. */
  method LayoutPaths(block: string) returns (found: seq<(nat, string)>)
    ensures found == Found(Run(START, 1, SplitLines(block)).visits)
  {
    hide Siblings, RStripSlash, Entry, VisitPaths, Found, EndsWith, SplitLines;
    var parents: seq<string> := [];
    found := [];
    var lines := SplitLines(block);
    ghost var visits: seq<Visit> := [];
    NothingFound();
    for n := 0 to |lines|
      invariant Run(START, 1, lines) == Run(State(parents, visits), n + 1, lines[n..])
      invariant found == Found(visits)
    {
      assert lines[n..][1..] == lines[n + 1..];
      ghost var before := State(parents, visits);
      var entry := Entry(lines[n]);
      if entry.None? { continue; }
      var (depth, rest) := entry.value;
      assert depth == |parents| ==> parents[..depth] == parents;
      if depth < |parents| { parents := parents[..depth]; }
      var siblings := Siblings(rest);
      ghost var after := StepLine(before, n + 1, lines[n]);
      found := AddSiblings(n + 1, parents, siblings, found);
      FoundAppend(visits, Visit(n + 1, parents, siblings));
      visits := visits + [Visit(n + 1, parents, siblings)];
      if OpensDirectory(siblings) {
        parents := parents + [RStripSlash(siblings[0])];
      }
      assert after == State(parents, visits);
    }
  }

  lemma NothingFound()
    ensures Found([]) == []
  {
  }

  // ----- the regular expression -----

  predicate IsPrefix(p: string, depth: nat) {
    if depth == 0 then p == "" else |p| >= 4 && IsGroup(p[..4]) && IsPrefix(p[4..], depth - 1)
  }

  lemma BranchIsNoGroup(b: string)
    requires IsBranch(b)
    ensures |b| == 4 && !IsGroup(b)
  {
  }

  lemma {:induction false} PrefixIsRead(p: string, depth: nat, b: string, rest: string)
    requires IsPrefix(p, depth) && IsBranch(b)
    ensures Entry(p + b + rest) == Some((depth, rest))
  {
    hide IsGroup, IsBranch;
    BranchIsNoGroup(b);
    var raw := p + b + rest;
    if depth == 0 {
      assert raw[..4] == b && raw[4..] == rest;
    } else {
      assert raw[..4] == p[..4] && raw[4..] == p[4..] + b + rest;
      PrefixIsRead(p[4..], depth - 1, b, rest);
    }
  }

  lemma {:induction false} EntryHasPrefix(raw: string) returns (p: string, b: string)
    requires Entry(raw).Some?
    ensures IsPrefix(p, Entry(raw).value.0) && IsBranch(b) && raw == p + b + Entry(raw).value.1
  {
    hide IsGroup, IsBranch;
    if IsGroup(raw[..4]) {
      p, b := EntryHasPrefix(raw[4..]);
      p := raw[..4] + p;
      assert p[4..] == raw[4..][..|p| - 4];
      assert raw == raw[..4] + raw[4..];
    } else {
      p, b := "", raw[..4];
    }
  }

  /** A line is an entry of a depth exactly when it is that many four-column groups, a branch
      and the text; the depth and the text are then the only ones. */
  lemma EntryIsExact(raw: string, depth: nat, rest: string)
    ensures Entry(raw) == Some((depth, rest)) <==>
            exists p, b :: IsPrefix(p, depth) && IsBranch(b) && raw == p + b + rest
  {
    if Entry(raw) == Some((depth, rest)) {
      var p, b := EntryHasPrefix(raw);
    }
    if p, b :| IsPrefix(p, depth) && IsBranch(b) && raw == p + b + rest {
      PrefixIsRead(p, depth, b, rest);
    }
  }

  lemma {:induction false} DeeperPrefix(p: string, depth: nat, g: string)
    requires IsPrefix(p, depth) && IsGroup(g) && |g| == 4
    ensures IsPrefix(p + g, depth + 1)
  {
    hide IsGroup;
    if depth == 0 {
      assert p + g == g && g[..4] == g && g[4..] == "";
    } else {
      assert (p + g)[..4] == p[..4] && (p + g)[4..] == p[4..] + g;
      DeeperPrefix(p[4..], depth - 1, g);
    }
  }

  // ----- trees and their rendering -----

  datatype Sibling = Sibling(name: string, isDirectory: bool)

  datatype Note = Note(gap: string, text: string)

  /** Rows at one depth: lines without an entry, a row of one or more siblings with an optional
      remark, the rows below it, and the following rows. */
  datatype Forest =
    | Nil
    | Row(others: seq<string>, siblings: seq<Sibling>, note: Option<Note>, below: Forest, next: Forest)

  function Label(s: Sibling): string {
    if s.isDirectory then s.name + "/" else s.name
  }

  function Labels(siblings: seq<Sibling>): seq<string> {
    if siblings == [] then [] else [Label(siblings[0])] + Labels(siblings[1..])
  }

  function JoinLabels(labels: seq<string>): string {
    if labels == [] then ""
    else if |labels| == 1 then labels[0]
    else labels[0] + " " + [DOT] + (" " + JoinLabels(labels[1..]))
  }

  function NoteText(note: Option<Note>): string {
    if note.None? then "" else note.value.gap + [ARROW] + note.value.text
  }

  function RowLine(prefix: string, row: Forest): string
    requires row.Row?
  {
    prefix + (if row.next.Nil? then ELBOW else TEE) + (JoinLabels(Labels(row.siblings)) + NoteText(row.note))
  }

  function Below(prefix: string, row: Forest): string
    requires row.Row?
  {
    prefix + (if row.next.Nil? then "    " else [BAR] + "   ")
  }

  function Lines(f: Forest, prefix: string): seq<string>
    decreases f
  {
    if f.Nil? then []
    else f.others + [RowLine(prefix, f)] + (Lines(f.below, Below(prefix, f)) + Lines(f.next, prefix))
  }

  ghost predicate LabelOk(l: string) {
    && l != "" && !IsSpace(l[0]) && !IsSpace(l[|l| - 1])
    && DOT !in l && ARROW !in l
  }

  /** Names are not empty, not padded, and free of the characters the format reserves. */
  ghost predicate NameOk(name: string) {
    LabelOk(name) && '/' !in name
  }

  ghost predicate RowOk(f: Forest)
    requires f.Row?
  {
    && f.siblings != [] && (forall s :: s in f.siblings ==> NameOk(s.name))
    && (f.note.Some? ==> AllSpaces(f.note.value.gap))
    && (f.below.Row? ==> |f.siblings| == 1 && f.siblings[0].isDirectory)
    && (forall l :: l in f.others ==> Entry(l).None?)
  }

  ghost predicate ForestOk(f: Forest) {
    f.Row? ==> RowOk(f) && ForestOk(f.below) && ForestOk(f.next)
  }

  /** The rows in preorder, each with its line number and its ancestors. */
  function Nodes(f: Forest, above: seq<string>, line: nat): seq<Visit>
    decreases f
  {
    if f.Nil? then []
    else
      var at := line + |f.others|;
      [Visit(at, above, Labels(f.siblings))]
      + Nodes(f.below, if f.siblings == [] then above else above + [f.siblings[0].name], at + 1)
      + Nodes(f.next, above, at + 1 + Height(f.below))
  }

  function Height(f: Forest): nat {
    if f.Nil? then 0 else |f.others| + 1 + Height(f.below) + Height(f.next)
  }

  lemma {:induction false} HeightIsLineCount(f: Forest, prefix: string)
    ensures |Lines(f, prefix)| == Height(f)
    decreases f
  {
    hide RowLine, Below;
    if f.Row? {
      HeightIsLineCount(f.below, Below(prefix, f));
      HeightIsLineCount(f.next, prefix);
    }
  }

  function RowPaths(line: nat, above: seq<string>, siblings: seq<Sibling>): seq<(nat, string)> {
    if siblings == [] then []
    else [(line, Join(above + [siblings[0].name], '/'))] + RowPaths(line, above, siblings[1..])
  }

  /** The full path of every node in preorder, with its line number. */
  function Paths(f: Forest, above: seq<string>, line: nat): seq<(nat, string)>
    decreases f
  {
    if f.Nil? then []
    else
      var at := line + |f.others|;
      RowPaths(at, above, f.siblings)
      + Paths(f.below, if f.siblings == [] then above else above + [f.siblings[0].name], at + 1)
      + Paths(f.next, above, at + 1 + Height(f.below))
  }

  // ----- reading a row back -----

  lemma {:induction false} StripsPadding(left: string, core: string, right: string)
    requires AllSpaces(left) && AllSpaces(right)
    requires core != "" && !IsSpace(core[0]) && !IsSpace(core[|core| - 1])
    ensures Strip(left + core + right) == core
  {
    hide IsSpace;
    LStripsPadding(left, core + right);
    RStripsPadding(core, right);
    assert left + core + right == left + (core + right);
  }

  lemma {:induction false} LStripsPadding(left: string, rest: string)
    requires AllSpaces(left) && rest != "" && !IsSpace(rest[0])
    ensures LStrip(left + rest) == rest
  {
    hide IsSpace;
    if left == "" {
      assert left + rest == rest;
    } else {
      assert (left + rest)[1..] == left[1..] + rest;
      LStripsPadding(left[1..], rest);
    }
  }

  lemma {:induction false} RStripsPadding(core: string, right: string)
    requires AllSpaces(right) && core != "" && !IsSpace(core[|core| - 1])
    ensures RStrip(core + right) == core
  {
    hide IsSpace;
    if right == "" {
      assert core + right == core;
    } else {
      var s := core + right;
      assert s[|s| - 1] == right[|right| - 1] && s[..|s| - 1] == core + right[..|right| - 1];
      RStripsPadding(core, right[..|right| - 1]);
    }
  }

  ghost predicate LabelsOk(labels: seq<string>) {
    labels != [] && forall l :: l in labels ==> LabelOk(l)
  }

  lemma {:induction false} JoinedEnds(labels: seq<string>)
    requires LabelsOk(labels)
    ensures var j := JoinLabels(labels);
            j != "" && !IsSpace(j[0]) && !IsSpace(j[|j| - 1]) && ARROW !in j
  {
    hide IsSpace;
    assert LabelOk(labels[0]);
    if |labels| > 1 {
      JoinedEnds(labels[1..]);
      assert ARROW !in " " + [DOT] + " ";
    }
  }

  lemma JoinUnfolds(labels: seq<string>)
    requires labels != []
    ensures JoinLabels(labels) ==
            if |labels| == 1 then labels[0] else labels[0] + " " + [DOT] + (" " + JoinLabels(labels[1..]))
  {
  }

  lemma NonEmptyCons(part: string, name: string, rest: seq<string>)
    requires Strip(part) == name && name != ""
    ensures NonEmpty([part] + rest) == [name] + NonEmpty(rest)
  {
    assert ([part] + rest)[1..] == rest;
  }

  lemma {:induction false} PartsAreLabels(left: string, labels: seq<string>)
    requires LabelsOk(labels) && (left == "" || left == " ")
    ensures NonEmpty(Split(left + JoinLabels(labels), DOT)) == labels
    decreases |labels|
  {
    hide Strip, Split, JoinLabels, NonEmpty;
    var l, rest := labels[0], labels[1..];
    assert LabelOk(l);
    JoinUnfolds(labels);
    if |labels| == 1 {
      StripsPadding(left, l, "");
      SplitAt(left + l, DOT, "");
      assert left + l + "" == left + l;
      NonEmptyCons(left + l, l, []);
      NonEmptyOfNone();
      assert [left + l] + [] == [left + l] && labels == [l];
    } else {
      StripsPadding(left, l, " ");
      var part := left + l + " ";
      SplitAt(part, DOT, " " + JoinLabels(rest));
      assert left + JoinLabels(labels) == part + [DOT] + (" " + JoinLabels(rest));
      PartsAreLabels(" ", rest);
      NonEmptyCons(part, l, Split(" " + JoinLabels(rest), DOT));
    }
  }

  lemma NonEmptyOfNone()
    ensures NonEmpty([]) == []
  {
  }

  /** The names of a row are read back, whatever remark follows them. */
  lemma SiblingsAreRead(labels: seq<string>, note: Option<Note>)
    requires LabelsOk(labels) && (note.Some? ==> AllSpaces(note.value.gap))
    ensures Siblings(JoinLabels(labels) + NoteText(note)) == labels
  {
    hide IsSpace, Strip, Split, JoinLabels, NonEmpty;
    var j := JoinLabels(labels);
    JoinedEnds(labels);
    var gap := if note.Some? then note.value.gap else "";
    assert ARROW !in gap by { if ARROW in gap { assert IsSpace(ARROW); ArrowIsInk(); } }
    var tail := if note.Some? then note.value.text else "";
    SplitAt(j + gap, ARROW, tail);
    if note.Some? {
      assert j + NoteText(note) == (j + gap) + [ARROW] + tail;
    } else {
      assert j + NoteText(note) == j + gap;
    }
    StripsPadding("", j, gap);
    assert "" + j + gap == j + gap;
    PartsAreLabels("", labels);
    assert "" + j == j;
  }

  /** The names of a line are its parts without their padding, the empty ones dropped. */
  lemma {:induction false} EmptyNamesAreDropped(parts: seq<string>, n: string)
    ensures n in NonEmpty(parts) <==> n != "" && exists i :: 0 <= i < |parts| && Strip(parts[i]) == n
  {
    hide Strip;
    if parts != [] {
      EmptyNamesAreDropped(parts[1..], n);
      assert forall i :: 0 < i < |parts| ==> parts[i] == parts[1..][i - 1];
      if i :| 0 <= i < |parts[1..]| && Strip(parts[1..][i]) == n {
        assert Strip(parts[i + 1]) == n;
      }
    }
  }

  /** A name loses every slash at its end. */
  lemma {:induction false} SlashesAreStripped(name: string, k: nat)
    requires name == "" || name[|name| - 1] != '/'
    ensures RStripSlash(name + Slashes(k)) == name
  {
    var s := name + Slashes(k);
    if k == 0 {
      assert s == name;
    } else {
      assert s[|s| - 1] == '/' && s[..|s| - 1] == name + Slashes(k - 1);
      SlashesAreStripped(name, k - 1);
    }
  }

  function Slashes(k: nat): string {
    if k == 0 then "" else Slashes(k - 1) + "/"
  }

  lemma ArrowIsInk()
    ensures !IsSpace(ARROW) && !IsSpace('/')
  {
  }

  lemma {:induction false} LabelsAreOk(siblings: seq<Sibling>)
    requires siblings != [] && forall s :: s in siblings ==> NameOk(s.name)
    ensures LabelsOk(Labels(siblings)) && |Labels(siblings)| == |siblings|
  {
    hide IsSpace;
    ArrowIsInk();
    assert NameOk(siblings[0].name);
    if |siblings| > 1 { LabelsAreOk(siblings[1..]); }
  }

  lemma SlashIsStripped(s: Sibling)
    requires NameOk(s.name)
    ensures RStripSlash(Label(s)) == s.name
    ensures EndsWith(Label(s), "/") <==> s.isDirectory
  {
    hide IsSpace;
    var n := s.name;
    assert RStripSlash(n) == n;
    if s.isDirectory {
      assert Label(s)[..|n|] == n && Label(s)[|n|..] == "/";
    } else {
      assert n[|n| - 1..] == [n[|n| - 1]] && n[|n| - 1] in n;
    }
  }

  // ----- reading a tree back -----

  /** The step of a row: the stack is cut to the ancestors of the row, which are recorded, and
      grows by a name when the row is a single directory, and only then. A row indented deeper
      than the stack hangs below the whole stack. */
  lemma RowIsRead(st: State, line: nat, row: Forest, prefix: string, depth: nat)
    requires row.Row? && RowOk(row) && IsPrefix(prefix, depth)
    ensures var st' := StepLine(st, line, RowLine(prefix, row));
            var above := if depth <= |st.parents| then st.parents[..depth] else st.parents;
            && st'.visits == st.visits + [Visit(line, above, Labels(row.siblings))]
            && st'.parents == (if |row.siblings| == 1 && row.siblings[0].isDirectory
                               then above + [row.siblings[0].name] else above)
  {
    hide IsSpace, Siblings, Entry, RStripSlash, NoteText, JoinLabels, IsPrefix, EndsWith;
    var b := if row.next.Nil? then ELBOW else TEE;
    var rest := JoinLabels(Labels(row.siblings)) + NoteText(row.note);
    PrefixIsRead(prefix, depth, b, rest);
    LabelsAreOk(row.siblings);
    SiblingsAreRead(Labels(row.siblings), row.note);
    assert NameOk(row.siblings[0].name);
    SlashIsStripped(row.siblings[0]);
  }

  lemma {:induction false} OthersAreSkipped(st: State, line: nat, others: seq<string>)
    requires forall l :: l in others ==> Entry(l).None?
    ensures Run(st, line, others) == st
    decreases |others|
  {
    hide Entry;
    if others != [] {
      assert others[0] in others;
      OthersAreSkipped(st, line + 1, others[1..]);
    }
  }

  lemma RunOne(st: State, line: nat, raw: string)
    ensures Run(st, line, [raw]) == StepLine(st, line, raw)
  {
    hide StepLine;
    assert [raw][1..] == [];
  }

  lemma BelowIsPrefix(prefix: string, row: Forest, depth: nat)
    requires row.Row? && IsPrefix(prefix, depth)
    ensures IsPrefix(Below(prefix, row), depth + 1)
  {
    hide IsPrefix;
    var g := if row.next.Nil? then "    " else [BAR] + "   ";
    assert IsGroup(g);
    DeeperPrefix(prefix, depth, g);
  }

  /** A run over the lines of a non-empty forest: the row, what is below it, what follows. */
  lemma RunRow(st: State, line: nat, f: Forest, prefix: string)
    requires f.Row? && RowOk(f)
    ensures var at, st1 := line + |f.others|, StepLine(st, line + |f.others|, RowLine(prefix, f));
            Run(st, line, Lines(f, prefix)) ==
            Run(Run(st1, at + 1, Lines(f.below, Below(prefix, f))),
                at + 1 + Height(f.below), Lines(f.next, prefix))
  {
    hide StepLine, RowLine, Below, Run;
    var row, at := RowLine(prefix, f), line + |f.others|;
    var below, next := Lines(f.below, Below(prefix, f)), Lines(f.next, prefix);
    OthersAreSkipped(st, line, f.others);
    RunConcat(st, line, f.others + [row], below + next);
    RunConcat(st, line, f.others, [row]);
    RunOne(st, at, row);
    RunConcat(StepLine(st, at, row), at + 1, below, next);
    HeightIsLineCount(f.below, Below(prefix, f));
  }

  lemma RunNone(st: State, line: nat, f: Forest, prefix: string)
    requires f.Nil?
    ensures Run(st, line, Lines(f, prefix)) == st && forall above :: Nodes(f, above, line) == []
  {
  }

  lemma {:induction false} TreeIsRead(st: State, line: nat, f: Forest, prefix: string, depth: nat)
    requires ForestOk(f) && IsPrefix(prefix, depth) && depth <= |st.parents|
    ensures var st' := Run(st, line, Lines(f, prefix));
            && st'.visits == st.visits + Nodes(f, st.parents[..depth], line)
            && depth <= |st'.parents| && st'.parents[..depth] == st.parents[..depth]
    decreases f
  {
    hide StepLine, IsPrefix, RowLine, Below, RowOk, Labels, Run, Lines, Height, Nodes, ForestOk;
    if f.Nil? {
      RunNone(st, line, f, prefix);
    } else {
      var above, at := st.parents[..depth], line + |f.others|;
      RowShape(f, above, line);
      RunRow(st, line, f, prefix);
      RowIsRead(st, at, f, prefix, depth);
      var st1 := StepLine(st, at, RowLine(prefix, f));
      assert st1.parents[..depth] == above;
      var st2 := Run(st1, at + 1, Lines(f.below, Below(prefix, f)));
      if f.below.Row? {
        BelowIsPrefix(prefix, f, depth);
        TreeIsRead(st1, at + 1, f.below, Below(prefix, f), depth + 1);
        assert st1.parents[..depth + 1] == above + [f.siblings[0].name];
        assert st2.parents[..depth] == st2.parents[..depth + 1][..depth];
      } else {
        RunNone(st1, at + 1, f.below, Below(prefix, f));
      }
      TreeIsRead(st2, at + 1 + Height(f.below), f.next, prefix, depth);
    }
  }

  lemma RowShape(f: Forest, above: seq<string>, line: nat)
    requires f.Row? && ForestOk(f)
    ensures RowOk(f) && ForestOk(f.below) && ForestOk(f.next) && f.siblings != []
    ensures f.below.Row? ==> |f.siblings| == 1 && f.siblings[0].isDirectory
    ensures Nodes(f, above, line) ==
              [Visit(line + |f.others|, above, Labels(f.siblings))]
              + Nodes(f.below, above + [f.siblings[0].name], line + |f.others| + 1)
              + Nodes(f.next, above, line + |f.others| + 1 + Height(f.below))
  {
    hide NameOk, Labels;
  }

  lemma {:induction false} RowPathsFound(line: nat, above: seq<string>, siblings: seq<Sibling>)
    requires forall s :: s in siblings ==> NameOk(s.name)
    ensures VisitPaths(line, above, Labels(siblings)) == RowPaths(line, above, siblings)
  {
    hide Join, NameOk, RStripSlash, Label;
    if siblings != [] {
      assert siblings[0] in siblings;
      SlashIsStripped(siblings[0]);
      RowPathsFound(line, above, siblings[1..]);
    }
  }

  lemma {:induction false} NodesHavePaths(f: Forest, above: seq<string>, line: nat)
    requires ForestOk(f)
    ensures Found(Nodes(f, above, line)) == Paths(f, above, line)
    decreases f
  {
    hide VisitPaths, RowPaths, NameOk, Labels, Height, Join;
    if f.Row? {
      var at := line + |f.others|;
      var inner := if f.siblings == [] then above else above + [f.siblings[0].name];
      var first := [Visit(at, above, Labels(f.siblings))];
      var below, next := Nodes(f.below, inner, at + 1), Nodes(f.next, above, at + 1 + Height(f.below));
      RowPathsFound(at, above, f.siblings);
      NodesHavePaths(f.below, inner, at + 1);
      NodesHavePaths(f.next, above, at + 1 + Height(f.below));
      FoundConcat(first + below, next);
      FoundConcat(first, below);
      assert first[1..] == [];
    }
  }

  /** At each row of a rendered tree the stack holds exactly the ancestors of that row, and
      the paths found are the full paths of all nodes in preorder, each with its line. */
  lemma ParsingRecoversTree(f: Forest)
    requires ForestOk(f)
    ensures Run(START, 1, Lines(f, "")).visits == Nodes(f, [], 1)
    ensures Found(Run(START, 1, Lines(f, "")).visits) == Paths(f, [], 1)
  {
    TreeIsRead(START, 1, f, "", 0);
    NodesHavePaths(f, [], 1);
    assert START.parents[..0] == [] && [] + Nodes(f, [], 1) == Nodes(f, [], 1);
  }

  // ----- from the printed block -----

  function JoinLines(lines: seq<string>): string {
    if lines == [] then "" else if |lines| == 1 then lines[0] else lines[0] + "\n" + JoinLines(lines[1..])
  }

  ghost predicate OneLine(l: string) {
    forall c :: c in l ==> !IsBreak(c)
  }

  lemma FirstBreakIs(s: string, k: nat)
    requires k <= |s| && (forall i :: 0 <= i < k ==> !IsBreak(s[i])) && (k < |s| ==> IsBreak(s[k]))
    ensures FirstBreak(s) == k
  {
  }

  lemma {:induction false} LinesAreSplit(lines: seq<string>)
    requires forall l :: l in lines ==> OneLine(l)
    requires lines != [] ==> lines[|lines| - 1] != ""
    ensures SplitLines(JoinLines(lines)) == lines
  {
    hide IsBreak;
    if lines != [] {
      var l, s := lines[0], JoinLines(lines);
      assert OneLine(l);
      if |lines| == 1 {
        FirstBreakIs(s, |l|);
      } else {
        var rest := JoinLines(lines[1..]);
        assert s == l + ("\n" + rest) && s[|l|] == '\n' && s[..|l|] == l && s[|l| + 1..] == rest;
        FirstBreakIs(s, |l|);
        LinesAreSplit(lines[1..]);
      }
    }
  }

  lemma {:induction false} LastLineIsRow(f: Forest, prefix: string)
    ensures var ls := Lines(f, prefix); ls != [] ==> ls[|ls| - 1] != ""
    decreases f
  {
    hide Below, JoinLabels, NoteText;
    if f.Row? {
      LastLineIsRow(f.below, Below(prefix, f));
      LastLineIsRow(f.next, prefix);
      assert |RowLine(prefix, f)| >= 4;
    }
  }

  /** The same from the text of the block. */
  lemma ParsingRecoversBlock(f: Forest)
    requires ForestOk(f) && forall l :: l in Lines(f, "") ==> OneLine(l)
    ensures Found(Run(START, 1, SplitLines(JoinLines(Lines(f, "")))).visits) == Paths(f, [], 1)
  {
    LastLineIsRow(f, "");
    LinesAreSplit(Lines(f, ""));
    ParsingRecoversTree(f);
  }
}
