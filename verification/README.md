# Verified models of the codebase server's stateful and textual core

Dafny models of the parts of the server and of its repository scripts that hold state, parse
text or decide a policy, with proofs of what each one promises. `dafny verify dfyconfig.toml`
checks all of it.

| module | models |
|---|---|
| `GraphCache`, `HandleProtocol` | the cache of opened graph handles, and the rule that a graph is released before it is written, since closing a handle puts its stale view back on disk |
| `CivilTime` | Unix seconds to civil date and time, and the two timestamp formats |
| `Cochange` | the temporal-coupling miner: commits folded into aggregates, aggregates turned into edges |
| `GitDiff` | the unified-diff parser |
| `RustScan`, `Normaliser`, `NormalForm`, `FormStability`, `MovedBodies`, `FunctionChanges`, `ScanLoops` | the checker of code moves: it finds the Rust functions of two sides and compares their normal forms |
| `ScannerMeaning`, `BodyMeaning`, `BodyTrees`, `FunctionMeaning`, `NormalMeaning` | what that checker reads, said of written-out literals, comments, blocks and functions and by counting brackets |
| `LayoutTree` | the parser of the documented directory tree |
| `QueryPaging` | the offset cursor of `query_graph` |
| `AtomicFile`, `Sidecars` | atomic writes, and the manifest and `meta.json` of an index as a pair, down to the steps of their writes |
| `FindingIndex` | the per-run index that three re-runnable stages write |
| `AmbiguityPolicy`, `CallEvidence` | evidence tiers of symbol resolution, and their two-pass form |
| `RerunPlan`, `RerunMeaning` | the choice of the CI gate to run again, and what it comes to in the words of the workflow |
| `Text`, `Options` | shared string facts, `Option` and `Result` |

Conventions. A loop or an object that the source updates in place is a method or a class here,
proved equal to a specification function; the laws are lemmas about that function. What comes
from outside is a parameter: fingerprints, what an opener returns, which write fails, the rows of
a query, the package of a file, the jobs of an attempt. `Option` stands for `None` and `Result`
for an error return.

Hypotheses that the theorems carry:

- `HandleProtocol`: the process is single-threaded, so a step is atomic; an existing graph can be
  fingerprinted; closing a handle is the worst case, a full overwrite with the handle's own view; and
  no open pushes a graph out of a full cache whose handle the request holds. The last rule is exact
  (`RuleIsExact`): an open that breaks it always leaves a state in which an accepted write is lost.
  A request that holds cached handles of one graph at a time keeps it (`OneGraphKeepsRule`).
- `Cochange`: the files of one commit are distinct and no path contains U+001F.
- `GitDiff`: the diff is one that is printed from files, hunks and rows, with line numbers within
  `DIFF_LINE_MAX`; which of them are read rightly is part of the result.
- `QueryPaging`: the result is the same on every request.
- `Sidecars`: one writer at a time, temporary names other than the two targets, and different index
  runs give their manifests different identities.

Where the code and its own documentation disagree, the models follow the code:

- `src/ambiguity_policy.rs:256-259` speaks of a path-segment suffix; the code compares plain text
  suffixes (`AmbiguityPolicy.TextMatchesSegmentsIff` says when that is the same). So with `b::new`
  imported, the candidates `src/a.rs::ab::new` and `src/b.rs::b::new` both match and the import
  decides nothing (`AmbiguityPolicy.LongerNameTies`, `CallEvidence.LongerNameLeavesCallAmbiguous`).
- `scripts/check_moved_fn_bodies.py:8-12` promises that a changed function is reported. That is so
  for functions whose text is tidy: nothing but whitespace after a line comment inside them, and no
  lone quote followed by whitespace and a quote. Elsewhere a line end can be lost:
  `NormalForm.JoinedSemicolon` is a statement and the same statement commented out, with one normal
  form.
- `src/graph_freshness.rs:66-68` says that a sidecar without an identity pairs by default; the code
  below it refuses the pair, and so does `Sidecars.DescribesManifest`.
- `src/verification_ops.rs:362-386` calls the empty artifact path a sentinel that the merge
  overrides; it is stored when no earlier stage wrote an entry (`FindingIndex.SentinelSurvivesIff`).
- `src/graph_cache.rs:240` speaks of the least recently opened entry and the comment at line 187
  of LRU; a hit refreshes nothing, so the order is that of opening.

## Model

| member | source | states |
|---|---|---|
| GraphCache.GraphCache.MinByOpenedSeq | src/graph_cache.rs:245-249 | the loop finds the entry with the smallest sequence number |
| GraphCache.GraphCache.EvictIfOverCapacity | src/graph_cache.rs:243-256 | the loop leaves the cache that the eviction specification describes, valid and within capacity |
| GraphCache.GraphCache.GetWithOpener | src/graph_cache.rs:189-238 | a hit returns the cached handle and changes nothing, a failed open changes nothing, any other call caches the opened handle last and evicts; the cache stays valid and the returned handle is the cached one |
| GraphCache.GraphCache.Release | src/graph_cache.rs:296-322 | refuses exactly when the cached handle has a clone outside the cache, otherwise removes that entry and no other |
| GraphCache.EvictionKeepsNewest | src/graph_cache.rs:240-256 | whatever is dropped was opened before whatever is kept; kept entries are unchanged and as many as fit |
| GraphCache.GetCaches | src/graph_cache.rs:189-238 | after a successful open the path is cached with that handle, within capacity, with distinct sequence numbers below the next one |
| GraphCache.HitChangesNothing | src/graph_cache.rs:201-208 | a hit changes nothing, not even the entry's age; after an open a second get with that fingerprint opens nothing and changes nothing |
| GraphCache.GetIsCurrent | src/graph_cache.rs:201-233 | a cached handle is returned exactly when the path has an entry whose fingerprint is the one on disk, and then nothing changes; any other get, a changed fingerprint included, opens: on success the entry is the new handle with the fingerprint read after the open, or zeros, and at most eight entries remain |
| GraphCache.SameHandleUntilDropped | src/graph_cache.rs:275-278 | over any run that neither releases nor evicts an entry nor finds its graph changed, a later get is a hit on the same handle, with no new open |
| GraphCache.OpenRefinesQueue | src/graph_cache.rs:210-256 | an open moves its path to the back of a queue of paths, and only the front falls out when it is full |
| GraphCache.ReleaseRefinesQueue | src/graph_cache.rs:308-319 | a release takes one path out of the queue and keeps the order of the others |
| GraphCache.RunRefinesQueue | src/graph_cache.rs:177-322 | over every run of gets and releases the cached paths are those of the queue, oldest open first |
| HandleProtocol.GetUpdatesCache | src/graph_cache.rs:189-238 | the protocol's `get` does to the cache exactly what the proved method does |
| HandleProtocol.BusyMeansHeld | src/graph_cache.rs:289-292 | a release is refused exactly when the running request holds a handle of that graph |
| HandleProtocol.CachedGraphIsFresh | src/graph_cache.rs:275-278 | in a coherent state a cached graph is a hit, so it is not opened twice |
| HandleProtocol.StepIsSafe | src/graph_cache.rs:189-322 | each get, drop, accepted or refused write, eviction and removal keeps every live handle's view equal to the disk, and the disk rows are what the step commits; a request may hold any number of graphs |
| HandleProtocol.RunIsSafe | src/graph_cache.rs:189-322 | over every allowed run the disk holds exactly the rows of the ledger of commits |
| HandleProtocol.NoCommittedWriteIsLost | src/graph_cache_handles_tests.rs:1-7 | after any run in which no open evicts a held handle, and after the process exits, closing its handles in any order, the disk still holds every committed write |
| HandleProtocol.EvictedHeldHandleLosesAWrite | src/graph_cache.rs:240-256 | an open that pushes a held handle out of a full cache leaves a state from which a write is accepted and then undone when the request lets go |
| HandleProtocol.OneGraphKeepsRule | src/graph_cache.rs:284-292 | a request that holds handles of one graph at a time never breaks that rule |
| HandleProtocol.RuleIsExact | src/graph_cache.rs:284-292 | in a coherent state an open is allowed exactly when no continuation from it can lose a committed write |
| CivilTime.CivilCountsDays | src/handler_util.rs:85-105 | for every u64 second the date is valid, its day number counted through leap years and month lengths is `secs / 86400`, and the time of day is the remainder; machine integers never overflow |
| CivilTime.AgreesWithDayByDay | src/handler_util.rs:85-105 | the date is the one reached by turning the calendar over day by day from 1970-01-01 |
| CivilTime.NextDayFollows | src/handler_util.rs:85-105 | a day later is the next calendar date at the same time of day |
| CivilTime.DateIsRecovered | src/handler_util.rs:85-105 | every valid date from 1970 on is the answer for each second of its day |
| CivilTime.DayNumberInjective | src/handler_util.rs:83-105 | two valid dates with one day number are the same date, so the conversion is an inverse |
| CivilTime.FormatsPrint | src/handler_util.rs:70-80 | at every second both formats print the day-by-day date and the time of day: year, month, day, hour, minute, second, zero-padded to four and two digits, with the separators of each format |
| CivilTime.RenderingsSort | src/handler_util.rs:70-80 | before year 10000 the earlier second has the smaller string, in both formats |
| CivilTime.RenderingsAreInjective | src/handler_util.rs:70-80 | before year 10000 two strings are equal exactly when the seconds are |
| CivilTime.SortingEndsAtYear10000 | src/handler_util.rs:70-80 | the bound is real: no string of the years 2000 to 9999 is smaller than one of the years 10000 to 19999 |
| Cochange.KeyRoundTrip | src/cochange.rs:398-407 | splitting a pair key gives back its two paths |
| Cochange.KeyIsInjective | src/cochange.rs:390-400 | only the same unordered pair has the same key |
| Cochange.CochangeState.AddFiles | src/cochange.rs:216-218 | the loop adds one to the count of each file of the commit and to no other |
| Cochange.CochangeState.AddPairs | src/cochange.rs:220-233 | the nested loops bump the aggregate of each pair of the commit once, with the later time |
| Cochange.CochangeState.Accumulate | src/cochange.rs:206-235 | the loop over commits, with its early `continue`, folds them in order |
| Cochange.FoldConcat | src/cochange.rs:132-139 | mining in chunks equals mining the concatenation |
| Cochange.FoldIgnoresOrder | src/cochange.rs:206-235 | any reordering of the commits gives the same aggregates |
| Cochange.FilesInClosedForm | src/cochange.rs:206-235 | a file's count is the number of commits of 1 to 20 files containing it, and it has an entry exactly when that is positive |
| Cochange.PairsInClosedForm | src/cochange.rs:206-235 | a pair's count is the number of commits of 2 to 20 files containing both, with the latest of their times and 0 |
| Cochange.MinedKeys | src/cochange.rs:219-223 | every mined key is the key of an ordered pair of paths |
| Cochange.PairCountAtMostFileCount | src/cochange.rs:206-235 | a pair's count is at most either file's |
| Cochange.PutEdge | src/cochange.rs:276-295 | the probe after an insertion tells exactly whether the edge landed |
| Cochange.RewriteEdges | src/cochange.rs:241-297 | whatever edges existed, the store ends with exactly the edge of each pair that clears the thresholds and lands, once, and the result is their number |
| Cochange.MinedEdges | src/cochange.rs:241-297 | over every mined history a pair has an edge exactly when its count is at least 3 and at least 30% of the rarer file's; the edge carries the counts of the history, and both ratios lie in (0, 1], so the `union <= 0` branch is not taken |
| Cochange.ExpectedIffDue | src/cochange.rs:241-297 | the edges derived from a mined state are those due after the history, and no others |
| Cochange.Mine | src/cochange.rs:180-190 | extending mined aggregates by new commits leaves a store that holds each edge due after the whole history once and nothing else, and returns their number |
| GitDiff.ParseLoop | src/git_diff.rs:99-167 | on every text the loop computes the parser's specification, and its u64 counter never overflows |
| GitDiff.LinesAre | src/git_diff.rs:106 | a line ends at a line feed, with the carriage return before it, and the last line needs no ending |
| GitDiff.NumbersAre | src/git_diff.rs:174 | a number may have a plus in front; empty text and text with anything but digits is none |
| GitDiff.LargeIsNoNumber | src/git_diff.rs:174 | a number beyond 64 bits is none |
| GitDiff.HeaderIs | src/git_diff.rs:169-175 | of any header the number between the first plus and the comma or space after it is read; without a plus, or with neither behind it, nothing |
| GitDiff.UnreadHeaderIsIgnored | src/git_diff.rs:131-135 | a hunk header without a readable start leaves the state as it was |
| GitDiff.NumberRoundTrip | src/git_diff.rs:169-175 | reading a printed number gives it back |
| GitDiff.HeaderRoundTrip | src/git_diff.rs:131-135 | a printed hunk header is taken as one and its new-file start is recovered |
| GitDiff.RowIsRead | src/git_diff.rs:136-153 | an added or deleted row is taken as such exactly when its text does not start with two more of its marks |
| GitDiff.RowsAreRead | src/git_diff.rs:136-153 | added rows get the counter's value, deleted rows that of the next surviving line, and every other row advances the counter |
| GitDiff.FileIsRead | src/git_diff.rs:107-135 | the lines of one file flush what was held and leave one record with its path, its new and deleted flags and the counted numbers |
| GitDiff.RecordsAreRightIff | src/git_diff.rs:131-153 | of rows that are read as what they are, the numbers are right exactly when in every hunk no changed row comes after a note |
| GitDiff.ParsingRecoversLinesIff | src/git_diff.rs:99-167 | parsing the lines of a diff gives one record per file with path lines, in order and with the right path, flags and numbers, exactly when no added text starts with `++`, no deleted text with `--`, and in every hunk no changed row comes after a `\ No newline` note |
| GitDiff.ParsingRecoversDiffIff | src/git_diff.rs:99-167 | the same from the printed text, rows ending in a carriage return included |
| GitDiff.NoNewlineRowShiftsNumbers | src/git_diff.rs:147-153 | a `\ No newline` note advances the counter, so the rows after it are numbered one too high |
| GitDiff.NoNewlineRowIsHarmlessIff | src/git_diff.rs:147-153 | a note leaves the numbers of its hunk right exactly when no changed row follows it |
| GitDiff.DoubledAddedRow | src/git_diff.rs:120-153 | an added row whose text starts with two pluses renames the file, marks it deleted or counts as context, by what follows them |
| GitDiff.DoubledDeletedRow | src/git_diff.rs:113-153 | a deleted row whose text starts with two minuses names the file when none is named, marks it new or counts as context |
| GitDiff.LimitIsRefused | src/git_diff.rs:136-153 | at the counter's limit a row that would advance it ends the parse with the error, whatever follows |
| ScanLoops.StringEnd | scripts/check_moved_fn_bodies.py:46-51 | the loop ends where the escaped string does, after its start and within the text |
| ScanLoops.RawEnd | scripts/check_moved_fn_bodies.py:54-63 | the same for raw strings |
| ScanLoops.CommentEnd | scripts/check_moved_fn_bodies.py:76-91 | the same for line and nested block comments |
| ScanLoops.Matching | scripts/check_moved_fn_bodies.py:122-137 | the bracket loop stops where the bracket specification says, on every text |
| ScanLoops.BodyEnd | scripts/check_moved_fn_bodies.py:140-167 | the body loop stops where the nesting specification says, on every text |
| ScanLoops.NormaliseLoop | scripts/check_moved_fn_bodies.py:170-192 | the loop over pieces builds the normalised text |
| ScanLoops.Advance | scripts/check_moved_fn_bodies.py:203-240 | one iteration moves forward and does what one step of the specification does to position, prefix and result |
| ScanLoops.FindFnBodies | scripts/check_moved_fn_bodies.py:195-241 | the loop ends on every text with the multiset of its functions |
| ScanLoops.SideLoop | scripts/check_moved_fn_bodies.py:254-258 | the loop over files sums their multisets |
| ScannerMeaning.StringIsRead | scripts/check_moved_fn_bodies.py:46-51 | an escaped string is read to its first quote that no backslash escapes |
| ScannerMeaning.OpenStringIsRead | scripts/check_moved_fn_bodies.py:46-51 | one that is not closed is the rest of the text, a lone backslash at its end included |
| ScannerMeaning.StringsAreThese | scripts/check_moved_fn_bodies.py:46-51 | every text is one of those |
| ScannerMeaning.RawIsRead | scripts/check_moved_fn_bodies.py:54-63 | a raw string is read to the first quote with as many hashes behind it as it opened with |
| ScannerMeaning.OpenRawIsRead | scripts/check_moved_fn_bodies.py:54-63 | a raw string without such a quote is the rest of the text |
| ScannerMeaning.NoRaw | scripts/check_moved_fn_bodies.py:54-60 | hashes without a quote behind them are no raw string |
| ScannerMeaning.CommentIsRead | scripts/check_moved_fn_bodies.py:76-91 | a block comment with comments nested in it to any depth is read to its own closing mark; an open one is the rest of the text |
| ScannerMeaning.LineIsRead | scripts/check_moved_fn_bodies.py:76-80 | a line comment is read up to the line feed |
| ScannerMeaning.EscapeIsRead | scripts/check_moved_fn_bodies.py:66-73 | an escaped character literal is read to the first tick after the escaped character |
| ScannerMeaning.IdentifierCharacters | scripts/check_moved_fn_bodies.py:42 | identifiers start with a letter or underscore and go on with those and digits |
| ScannerMeaning.SpaceCharacters | scripts/check_moved_fn_bodies.py:204 | the characters that count as whitespace, listed |
| BodyTrees.SkippedIsSkipped | scripts/check_moved_fn_bodies.py:94-119 | each literal with each of its prefixes and each comment is skipped as a whole, whatever follows |
| BodyMeaning.BodyEndsWhereBracesMeet | scripts/check_moved_fn_bodies.py:140-167 | for every text: blank out literals and comments and count; the function ends with the first character at which a brace was opened and as many are closed, or before the first semicolon outside parentheses and brackets and before any brace, whichever is first, and otherwise with the text |
| BodyMeaning.BracketEndsWhereCountsMeet | scripts/check_moved_fn_bodies.py:122-137 | the bracket match is the first closing bracket outside literals and comments at which the counts meet |
| BodyTrees.BodyIsRead | scripts/check_moved_fn_bodies.py:140-167 | a body of blocks nested to any depth, with code, literals, comments and lifetimes between, is read to its own closing brace, whatever follows |
| Normaliser.NormaliseKeepsLiterals | scripts/check_moved_fn_bodies.py:170-192 | text and normalised text are the same literals, byte for byte and in order, with gaps between them that differ in whitespace only |
| Normaliser.NormaliseKeepsInk | scripts/check_moved_fn_bodies.py:170-192 | every non-whitespace character is kept, in order |
| NormalMeaning.NormalFormIsJoined | scripts/check_moved_fn_bodies.py:170-192 | the normal form of code, literals and comments with whitespace between them is the pieces joined by single spaces, literals untouched and comments collapsed |
| NormalMeaning.CommentIsItsWords | scripts/check_moved_fn_bodies.py:185-189 | a comment becomes its words joined by single spaces |
| MovedBodies.StepBeforeCut | scripts/check_moved_fn_bodies.py:203-240 | a step that ends before a cut is the same when the text stops at the cut |
| MovedBodies.Locality | scripts/check_moved_fn_bodies.py:195-241 | at a cut that no token reaches across and with no prefix pending, the functions of the text are the multiset sum of those of its two parts |
| MovedBodies.SelfContainedConcat | scripts/check_moved_fn_bodies.py:195-241 | pieces that end cleanly whatever follows them stay so when joined |
| MovedBodies.FileIsSumOfPieces | scripts/check_moved_fn_bodies.py:195-241 | a file of such pieces holds exactly the functions of its pieces |
| MovedBodies.ClosedPiecesAreSelfContained | scripts/check_moved_fn_bodies.py:195-241 | any text that ends with a closing brace as a step of its own, or with a function whose body closes there, is such a piece: functions, `impl` and `mod` blocks |
| MovedBodies.BlankIsSelfContained | scripts/check_moved_fn_bodies.py:204-206 | so is a whitespace character |
| MovedBodies.EmptyReportMeansEqual | scripts/check_moved_fn_bodies.py:261-271 | the report is empty exactly when the two multisets are equal |
| MovedBodies.ReportIsExact | scripts/check_moved_fn_bodies.py:261-271 | a name is reported lost, added or changed, in one way only, exactly for texts whose count fell or rose |
| MovedBodies.MovesAreInvisible | scripts/check_moved_fn_bodies.py:8-9 | rearranging self-contained pieces among any number of listed files leaves the report empty |
| NormalForm.ReadsBackIff | scripts/check_moved_fn_bodies.py:170-192 | the tokens of a text are read back from its normal form exactly when only whitespace follows a line comment and no lone quote is followed by whitespace and a quote |
| NormalForm.SameFormMeansSameTokens | scripts/check_moved_fn_bodies.py:14-19 | such texts have one normal form exactly when they have the same tokens: literals byte for byte, comments up to the whitespace in them, other characters, whitespace in the same places |
| NormalForm.TidyTwinIff | scripts/check_moved_fn_bodies.py:14-19 | a text with the normal form of a tidy one has its tokens exactly when it is tidy too |
| NormalForm.HasTidyTwinIff | scripts/check_moved_fn_bodies.py:14-19 | a text can be mistaken for a tidy one with other tokens exactly when it is not tidy and its normal form is its own |
| NormalForm.TidyFormIsStable | scripts/check_moved_fn_bodies.py:170-192 | the normal form of such a text is its own normal form |
| NormalForm.CodeJoinsComment | scripts/check_moved_fn_bodies.py:185-189 | code on the line after a line comment is joined to it by one space |
| NormalForm.CommentingOutIsInvisible | scripts/check_moved_fn_bodies.py:185-189 | so commenting that code out cannot be seen: different tokens, one normal form |
| NormalForm.JoinedSemicolon | scripts/check_moved_fn_bodies.py:185-189 | two such texts |
| FormStability.JoinedFormIsStableIff | scripts/check_moved_fn_bodies.py:170-192 | behind any tidy front, a line comment with more after it: the normal form is its own exactly when that of the code after the comment has no whitespace to lose |
| FormStability.JoinedLiteralIsNotStable | scripts/check_moved_fn_bodies.py:170-192 | a text for which normalising twice differs from normalising once |
| FunctionChanges.ClosedIsOneFunction | scripts/check_moved_fn_bodies.py:220-231 | a text that is `fn`, a name and a body closing at its end holds one function, with the normal form of the text |
| FunctionMeaning.FunctionEndsWhereBracesMeet | scripts/check_moved_fn_bodies.py:219-231 | `fn`, a name and any text behind it: the function recorded is the pending prefix and the text up to where the braces meet |
| FunctionMeaning.PrefixIsPending | scripts/check_moved_fn_bodies.py:203-240 | attributes, doc comments, qualifiers and `pub(..)` before a function, in any number and order, are pending when it is reached |
| FunctionMeaning.WrittenFunctionIsRecorded | scripts/check_moved_fn_bodies.py:195-241 | a written-out function with any such prefix and any tree of blocks is recorded once, under its name, with the normal form of its whole text, whatever follows it |
| FunctionMeaning.WrittenFunctionIsOne | scripts/check_moved_fn_bodies.py:8-9 | so it is a piece that can be moved anywhere |
| FunctionMeaning.EditIsReported | scripts/check_moved_fn_bodies.py:8-12 | when such a function is rewritten so that any character but whitespace differs, the report names it as changed and nothing else, whatever the rest of the files holds |
| FunctionMeaning.QualifierStep | scripts/check_moved_fn_bodies.py:232-238 | each qualifier joins the prefix |
| FunctionMeaning.StringStep | scripts/check_moved_fn_bodies.py:214-219 | a string is kept with a prefix, for the ABI of an `extern` |
| FunctionMeaning.LineCommentStep | scripts/check_moved_fn_bodies.py:214-219 | an ordinary line comment is kept with a prefix and starts none |
| FunctionMeaning.BlockCommentStep | scripts/check_moved_fn_bodies.py:214-219 | the same of a block comment |
| FunctionMeaning.OtherLiteralStep | scripts/check_moved_fn_bodies.py:214-219 | any other literal drops the prefix |
| FunctionMeaning.OtherWordStep | scripts/check_moved_fn_bodies.py:219-240 | any other word drops the prefix, `fn` without a name included |
| FunctionMeaning.OtherCharacterStep | scripts/check_moved_fn_bodies.py:239-240 | any other character is one step and drops the prefix |
| FunctionMeaning.InnerAttributeStep | scripts/check_moved_fn_bodies.py:210-212 | an inner attribute drops the prefix and is skipped |
| FunctionChanges.ReplacedFunctionIsReported | scripts/check_moved_fn_bodies.py:8-12 | when one function is replaced and everything else stays or moves, the report is empty exactly when name and normal form are the same; of a tidy function, name and tokens are the same exactly when the report is empty and the new function is tidy too |
| LayoutTree.LayoutPaths | scripts/check_doc_claims.py:247-270 | the loop with its stack of parents computes the specification on every block |
| LayoutTree.EntryIsExact | scripts/check_doc_claims.py:258-261 | a line is an entry of a depth exactly when it is that many four-column groups, a branch and the rest |
| LayoutTree.SiblingsAreRead | scripts/check_doc_claims.py:262-264 | the names of a row are read back, whatever remark follows the arrow |
| LayoutTree.EmptyNamesAreDropped | scripts/check_doc_claims.py:264 | the names of a line are its parts without padding, the empty ones dropped |
| LayoutTree.SlashesAreStripped | scripts/check_doc_claims.py:266 | a name loses every slash at its end |
| LayoutTree.RowIsRead | scripts/check_doc_claims.py:258-269 | a row cuts the stack to its depth, sees what is left as its ancestors, and opens a level exactly when it names a single directory; a row deeper than the stack hangs below all of it |
| LayoutTree.ParsingRecoversTree | scripts/check_doc_claims.py:247-270 | for trees of any shape and depth the stack at each row is exactly that row's ancestors, and the result is the full path of every node in preorder with its line number |
| LayoutTree.ParsingRecoversBlock | scripts/check_doc_claims.py:247-270 | the same from the printed block |
| QueryPaging.FittingIsLongest | src/response_budget.rs:135-142 | a page is the longest run within the budget, but never empty |
| QueryPaging.BoundValuesPaged | src/response_budget.rs:148-180 | the loop computes that page with its total, flag and cursor |
| QueryPaging.RowBuffer.ClipProbeRow | src/query_handlers.rs:142-148 | keeps the rows up to the window's end and tells whether one was cut |
| QueryPaging.QueryPage | src/query_handlers.rs:92-124 | fetch limit, clip and budget together give the page of the specification |
| QueryPaging.PageFillsBudget | src/query_handlers.rs:92-148 | the rows of a page add up to at most the budget, or there is one row; a page that ends before its window of 500 rows could not hold one row more; the total is the number of rows up to the window's end |
| QueryPaging.BoundPageFills | src/response_budget.rs:135-142 | the same of the byte cut alone, for any list |
| QueryPaging.PageIsRun | src/query_handlers.rs:222-270 | whatever cut it, a page is the run of rows from its offset, not empty while rows are left; it is truncated exactly when rows are left, and the cursor is then the first of them |
| QueryPaging.FollowingReachesEveryRow | src/response_budget.rs:144-147 | following the cursor from any offset ends and yields the rest of the result |
| QueryPaging.PagesAreTheResult | src/query_handlers.rs:92-148 | from offset 0 the pages concatenate to the result: no gap, no duplicate |
| AtomicFile.Directory.AtomicWrite | src/atomic_file.rs:75-113 | with a failure or crash at any step: the outcome and exactly what is on disk |
| AtomicFile.TargetIsOldOrNew | src/atomic_file.rs:71-74 | wherever the write stopped, the target is the old file or the whole new one, the new one on success and the old one on an error, and no third name changes |
| Sidecars.WriteIsRun | src/atomic_file.rs:98-111 | every atomic write, stopped by any fault, is a run of the writer's create, fill, sync and rename steps and leaves what the method leaves |
| Sidecars.StepIsSound | src/atomic_file.rs:98-111 | under either policy every file operation, error, crash and read keeps both targets whole documents and the meta being written that of the manifest on disk |
| Sidecars.StepIsPaired | src/graph_freshness.rs:55-64 | unless a manifest failure is carried on from over another run's manifest, every step keeps each meta paired with the manifest of its own run or with none |
| Sidecars.StartIsPaired | src/graph_freshness.rs:55-64 | a process that starts over a directory without sidecars is in such a state |
| Sidecars.AcceptedPairIsOneIndex | src/graph_freshness.rs:173-203 | in every run of file operations, with errors and crashes between any two and a reader interleaved anywhere, a reader that accepts has read both halves of one index: always for the stopping writer, and for the other one when no manifest write fails over the manifest of another run |
| Sidecars.TearingIsExact | src/indexing_handlers.rs:167-176 | a step tears the pair, which can be seen before it, exactly when some continuation that tears no more leaves a reader accepting two different indexes |
| Sidecars.CompletedIndexIsAccepted | src/graph_freshness.rs:55-92 | after any run that completes the index of run g, with no later writer step, every reader that starts then, in any arrangement of reads, finishes with exactly that index and accepts it; without a manifest on disk no reader accepts |
| Sidecars.StoppingHasManifest | src/analyze_handlers.rs:261-279 | the stopping writer never gets to a meta without a manifest on disk |
| Sidecars.CarryingOnLeavesTornPair | src/indexing_handlers.rs:167-176 | when the manifest write of a run fails over another run's manifest and the run still publishes its meta, then after any steps in between every reader that starts accepts a torn pair |
| AmbiguityPolicy.UniqueMatchLoop | src/ambiguity_policy.rs:240-254 | the loop with its early return finds the only match, if there is exactly one |
| AmbiguityPolicy.UniqueIgnoresOrder | src/ambiguity_policy.rs:237-254 | that match depends on the multiset of candidates only |
| AmbiguityPolicy.ResolveIgnoresOrder | src/ambiguity_policy.rs:173-179 | permuted candidates give the same variant, target, evidence and confidence, ambiguous lists equal up to order |
| AmbiguityPolicy.StrongestTierWins | src/ambiguity_policy.rs:184-207 | a result has a tier's evidence exactly when that tier matches exactly one candidate and no stronger tier does; it is that candidate |
| AmbiguityPolicy.ConfidenceFollowsStrength | src/ambiguity_policy.rs:180-183 | confidence is strictly ordered as the strength of the evidence |
| AmbiguityPolicy.ResolvedIff | src/ambiguity_policy.rs:184-207 | a candidate is the answer at a tier, with confidence 0.95, 0.90, 0.85 or 0.70, exactly when it alone is a lone candidate, matches an import, is in the caller's file or is in the caller's package, and no stronger tier has such a one |
| AmbiguityPolicy.AmbiguousIff | src/ambiguity_policy.rs:184-207 | the answer is open exactly when there are candidates and no tier has one |
| AmbiguityPolicy.DotsAreSlashes | src/ambiguity_policy.rs:260-266 | dots of an import compare as slashes |
| CallEvidence.StripSeqSuffixIsExact | src/call_evidence.rs:37-47 | exactly a final `#` with digits is removed |
| AmbiguityPolicy.TextMatchesSegmentsIff | src/ambiguity_policy.rs:256-266 | the text comparison finds what a comparison of segments finds and every pair in which one name cuts a segment of the other; the two agree exactly when there is no such pair or a segment match anyway |
| AmbiguityPolicy.LongerNameTies | src/ambiguity_policy.rs:256-266 | in any files, a candidate whose path ends with the imported one with text before it in its segment ties with the one that is meant, so the import tier does not decide |
| CallEvidence.LongerNameLeavesCallAmbiguous | src/call_evidence.rs:97-108 | such a call stays ambiguous through both passes |
| CallEvidence.ImportedNewStaysAmbiguous | src/call_evidence.rs:97-108 | such a call: `src/a.rs::ab::new` and `src/b.rs::b::new` with `b::new` imported |
| CallEvidence.TwoPassIsFilePass | src/call_evidence.rs:82-96 | when no candidate has a package and all share one bare name, the two-pass form is the file pass on lists of any length |
| CallEvidence.PackagePassDecidesIff | src/call_evidence.rs:114-156 | among two or more candidates without packages the first pass decides exactly when the bare name of exactly one of them matches an import |
| CallEvidence.SharedNameIsNeeded | src/call_evidence.rs:85-91 | the shared name is used: two candidates with different bare names, which a lookup by name does not produce, for which the two forms differ |
| CallEvidence.TargetIsACandidate | src/call_evidence.rs:76-80 | for every language a resolved target is one of the candidates, and an ambiguous result lists them |
| CallEvidence.TwoPassIgnoresOrder | src/call_evidence.rs:97-192 | for every language the outcome does not depend on the order of the candidates |
| CallEvidence.PackagePassIff | src/call_evidence.rs:114-156 | for every language the first pass resolves to a symbol exactly when it alone has a package-qualified name that matches an import |
| CallEvidence.TwoPassIff | src/call_evidence.rs:97-192 | then that is the answer with 0.90; otherwise it is what the policy says of the stored names with the caller's file and package |
| CallEvidence.ImportOfOnePackageResolves | src/call_evidence.rs:114-156 | of two candidates with one name in two packages, an import of one of them resolves to it |
| CallEvidence.KotlinImportResolves | src/call_evidence.rs:287-305 | the source's instance: `pkg.b.process` picks the `process` of `pkg/b` |
| CallEvidence.OneCandidateIsIt | src/call_evidence.rs:97-108 | a single candidate is the answer whatever is imported, and no candidate is none |
| FindingIndex.IndexFile.Upsert | src/finding_index.rs:88-116 | an error changes nothing; success merges one entry, stamps the time and creates the index when there is none |
| FindingIndex.IndexFile.Replay | src/finding_index.rs:88-116 | a history of upserts, failing ones included, leaves the findings of the calls that succeeded, their first start and their last time |
| FindingIndex.ReplacedWholesale | src/finding_index.rs:121-143 | without an entry, and in the mode that replaces, the new entry is stored as it is |
| FindingIndex.StagesOwnTheirFields | src/finding_index.rs:54-185 | over every sequence of extract, refine and finalize calls a finding's refined fields are those of its last refine, its stage-2 fields those of its last finalize, and its path the refined one once any refine ran |
| FindingIndex.SetFieldsStaySet | src/finding_index.rs:54-185 | no later call of any stage unsets a field that was set |
| FindingIndex.OtherFindingsAreUntouched | src/finding_index.rs:112-113 | an entry depends on the calls for its own finding only |
| FindingIndex.SentinelSurvivesIff | src/verification_ops.rs:362-386 | the empty path of a finalisation is what is stored exactly when neither extract nor refine ever ran |
| RerunPlan.AddAttempt | scripts/ci_codex_review_event.py:32-82 | one attempt is accepted exactly when its jobs are authentic, its names differ and its identities are new; it then adds the jobs whose names are not known yet |
| RerunPlan.Jobs | scripts/ci_codex_review_event.py:64-86 | the nested loops accept exactly the histories of the specification and return its effective list |
| RerunPlan.EffectiveIsNewest | scripts/ci_codex_review_event.py:64-96 | the effective list has one job per name: exactly the newest execution of each, minus skipped placeholders that newer children replace |
| RerunPlan.Index | scripts/ci_codex_review_resume.py:71-89 | the loop indexes a list exactly when names and identities are unique and positive |
| RerunPlan.AcceptedIsIndexable | scripts/ci_codex_review_resume.py:71-89 | whatever the collector accepts can be indexed |
| RerunPlan.WaitedIsExact | scripts/ci_codex_review_resume.py:26-43 | a job waited exactly when it failed, the named step is its only failed one and all others succeeded or were skipped |
| RerunPlan.PlanPicksCurrent | scripts/ci_codex_review_event.py:119-123 | a plan survives exactly when the picked job ran in the current attempt |
| RerunPlan.MergePlanIffDue | scripts/ci_codex_review_resume.py:120-150 | over every accepted history a merge is planned exactly when the proof is a success for this head, every prerequisite and the review last succeeded, nothing else last failed, and the merge job of the current attempt waited |
| RerunPlan.ReviewPlanIffDue | scripts/ci_codex_review_resume.py:120-142 | a review is planned exactly when the run is green and pending, or it failed, the review of the current attempt waited and the tests it repairs have all finished |
| RerunMeaning.AcceptedIffHistory | scripts/ci_codex_review_event.py:32-86 | the collector accepts exactly the histories in which every job belongs to the run, its attempt and its head, and names and identities do not repeat |
| RerunMeaning.EffectiveIsLatest | scripts/ci_codex_review_event.py:64-96 | the effective list is the last execution of each name, without the skipped `environment` and `install` jobs that a later matrix child replaces |
| RerunMeaning.MergeIffCalledFor | scripts/ci_codex_review_resume.py:120-150 | the condition of a merge with every job, step, state and reason spelled out |
| RerunMeaning.ReviewIffCalledFor | scripts/ci_codex_review_resume.py:104-142 | the same of a review |

## Left out

- The embedded database, Cypher and its lexical gate, tree-sitter, search, clustering and language servers.
- The JSON-RPC loop, prompts, tool schemas and response shaping beyond the cursor fields.
- Git and GitHub calls: the ranges `mine` asks for, `read_at`, and the pages of a REST answer.
- `resume` of the rerun planner, which plans twice and then posts; the model is of one plan.
- Foreign processes that write a graph, and two writers at once.
- `GraphFingerprint::of` and path canonicalisation: fingerprints are parameters and paths are canonical keys.
- The branch of `release` for a cache that is already borrowed; a single-threaded step cannot meet it.
- GraphCache.GraphCache.GetWithOpener: sequence numbers are unbounded, the source's are u64.
- Cochange.RewriteEdges: does not model floating point; the 0.30 threshold is compared as `10 * count >= 3 * min`, the ratios are kept as numerator and denominator and not printed with four digits, and counts are unbounded. Of the store's errors only a refused insertion is modelled; a failing delete query and a failing probe are not.
- `compute_risk_score`, the mapping of lines to symbols and the git ref checks of `src/git_diff.rs`.
- MovedBodies.ReportIsExact: models the three lists of `compare` as sets, without their sorting.
- `verdict`, `count_dirty`, `validated_root` and the coverage sidecar of the freshness check.
- Evidence tiers that `resolve` never produces, such as those of receivers and macros.
- `Replace`, a merge mode no caller uses, is a case of the merge and of `Upsert` only.
- Checks of malformed JSON types in the rerun planner: jobs, runs and proofs are typed records here.
- LayoutTree.ParsingRecoversTree: the finding of the fenced block in the README text and the check that paths exist are not modelled.
- QueryPaging.PagesAreTheResult: for a result that is the same on every request; the response reports whether the query ordered it.
- MovedBodies.ClosedPiecesAreSelfContained: gives a sufficient condition; the exact one is the definition itself, which quantifies over what follows.
- AtomicFile.Directory.AtomicWrite: file names are given; the random suffix of the temporary name and the creation of the parent directory are not modelled.
- GraphCache.GraphCache.Release: the refusal while the cache itself is borrowed is not modelled.
- Sidecars.AcceptedPairIsOneIndex: for runs whose manifests differ in size or modification time, which is all that a reader compares, and for two documents that can be read back.
- GitDiff.ParsingRecoversDiffIff: for printed diffs; `GitDiff.ParseLoop` holds on every text, but what a text that is no diff means is not said.
- FunctionMeaning.WrittenFunctionIsRecorded: for bodies whose code holds no slash or quote outside literals and comments, and for attributes and restrictions without literals or nested brackets; `FunctionMeaning.FunctionEndsWhereBracesMeet` and `BodyMeaning.BracketEndsWhereCountsMeet` hold on every text.
- NormalMeaning.NormalFormIsJoined: for pieces with whitespace after each of them; what pieces without whitespace between them come to is said by `NormalForm.ReadsBackIff`.
