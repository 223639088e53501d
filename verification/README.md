# Verified model of the file-editing core

octofs serves file views and file edits to language-model clients. This project models the part of it
that must not go wrong: the line diff and the delta views built from it, text replacement on files with
mixed line terminators, batch edits addressed by line ids, the multi-file transaction with rollback,
undo history under a byte budget, per-file locks and the calls that hold them, the memory of what each
client has seen, lines copied from file to file, and the delivery of job completions.

The model follows the form of the code. Loops over arrays and vectors are methods with the same loops;
objects that are updated in place (`EditableContent`, `HistoryStore`, the lock table, `ViewCache`, the
session table, the subscription registry, the disk) are classes; protocols in which several tasks
interleave are state machines whose steps are one mutex section, one file operation or one send. Each
method is proved against an independent specification, and the specification's own properties are
proved as lemmas.

| files | content |
|---|---|
| `EditScript`, `EditDistance`, `MyersDiff`, `Lcs` | the greedy diff: minimal, complete up to its bound, tied to the longest common subsequence |
| `DeltaHunks`, `DeltaShape`, `DeltaRender`, `ShiftNote` | hunks, what a delta view looks like, how it is rendered and read; the note on moved line numbers |
| `LineText`, `EditableText`, `EditableContent`, `TextReplace`, `ReadBack` | lines with their own terminators edited as one LF text, written and read back |
| `MovedText`, `UntouchedLines`, `ReplaceReport` | where a replacement moves the text around it, which lines it leaves, and what its answer tells of them |
| `BatchOps`, `Repetition`, `BatchEdit`, `BatchCall`, `BatchReport`, `ReportAccuracy` | batch edits: resolution, conflicts, repeated lines, two-phase application, the positions reported |
| `Extraction` | lines copied from one file into another, and what a view then shows |
| `MultiEdit`, `MultiEditCall`, `UndoEdit`, `HistoryStore` | multi-file commit with rollback, undo, and the bounded history |
| `FileLocks`, `Transactions`, `Keys` | mutual exclusion with a swept lock table; serializability and freedom from deadlock |
| `ViewCache`, `Sessions`, `ViewProtocol`, `ViewExceptions` | what the server remembers of each client's picture of a file |
| `Jobs`, `Subscriptions` | background jobs and the streams their completion is sent to |

`dafny verify dfyconfig.toml` verifies the whole project. `Wrappers` and `Seqs` hold common helpers.

## Findings

Five properties that the code is meant to have do not hold for all inputs. For each, the input is a
lemma, and another lemma gives the exact condition under which the property holds.

1. *A batch edit reports where its added lines landed.* It shows operations in the order of their start
   lines and adds up their growth (`text_editing.rs`, lines 1720 to 1801). An insertion after line n that
   is listed before a replacement starting at line n is counted too early
   (`ReportAccuracy.EarlyInsertionIsMisreported`), and an insertion below line 0 is reported one line too
   far down if everything above it was deleted (`ReportAccuracy.OrphanedInsertionIsMisreported`).
   `ReportAccuracy.ReportIsAccurate`: all positions are right if and only if neither occurs. The shift
   note of the same result is right for every batch (`BatchReport.BatchShiftNote`).
2. *A remembered text is what the client holds.* The cache is updated before the result is found to be
   too long (`delta.rs`, line 125; `core.rs`, line 441), so a rejected view is remembered as seen:
   `ViewExceptions.RejectedViewIsTakenForSeen`. The text noted for an edit is normalised once more
   (`delta.rs`, lines 93 and 96), which drops a further carriage return from text that has been
   normalised already: `ViewExceptions.EditCanLeaveExtraCr` for the text after the edit, and
   `ViewExceptions.StaleEditIsTakenForKnown` for the text before it, which makes a client that missed a
   change look current. Line extraction notes its write as known although its result shows at most 29
   of more than 30 copied lines (`core.rs`, lines 601 to 608 and 686): a client that appends 31 lines of
   a file it has never seen is told "unchanged" by the next view,
   `ViewExceptions.LongCopyIsTakenForKnown`. A multi-file commit whose request was cancelled notes its
   writes too (`multi_edit.rs`, lines 91 to 97 and 172 to 174): `ViewExceptions.UntoldWriteIsTakenForKnown`
   covers every write of both kinds. `ViewProtocol.EventKeepsValid`: an event keeps all remembered texts
   true if and only if it is benign, a condition on the request, whether its result is delivered, and the
   state before it. Runs of benign events give only true answers (`ViewProtocol.EveryAnswerIsTrue`).
3. *The snapshot just pushed survives the eviction that its push triggers.* Undo leaves an entry in the
   eviction queue that refers to no snapshot; the next push of the same file can be evicted through it
   (`core.rs`, lines 72 to 91). `HistoryStore.UndoThenEditCanLoseSnapshot` is such a sequence at the
   64 MiB budget in use. `HistoryStore.SurvivesAtBudget` gives the exact condition at any budget, and
   `HistoryStore.SurvivesExactlyWhenClean` the condition for all budgets at once.
4. *An edited file reads as the text with its matches substituted.* A replacement can bring a carriage
   return in front of the newline of an LF line, which is then read as CRLF
   (`EditableContent.CarriageReturnIsLost`). `EditableContent.ReplaceTextMeaning`: the file reads back as
   the substituted text if and only if no LF line that is written ends in a carriage return; in a file
   with one kind of terminator, if and only if that is CRLF or the text holds no carriage return before a
   newline.
5. *Line extraction adds the lines it reports.* A single blank line from inside a file, put at the end of
   another, is written without terminator and so not at all (`core.rs`, lines 666 to 677;
   `text_editing.rs`, lines 624 to 627): `Extraction.BlankLineIsLost`. And if the target ended in a
   carriage return without newline, the terminator that its last line gets takes it in.
   `Extraction.ExtractionShows`: the new file shows the old lines with the copied ones among them if and
   only if neither happens.

## Model

| member | source | states |
|---|---|---|
| EditDistance.DistanceIsMinimal | src/mcp/fs/delta.rs:259-267 | The distance used as reference is the least number of insertions and deletions over all scripts that turn the old lines into the new ones: no script has fewer and some script has that many. |
| EditDistance.PastBoth | src/mcp/fs/delta.rs:278-295 | The search may run past the ends of both files; such a point is charged its overshoot on top of the distance, so overrunning never makes a diff look cheaper. |
| EditScript.ReplayScript | src/mcp/fs/delta.rs:248-257 | Every script between two texts, read with lines kept from the old one and inserted from the new one, gives the new text. |
| MyersDiff.DiffLines | src/mcp/fs/delta.rs:267-297 | A diff is returned exactly when the edit distance is within the bound; it is a script from the old to the new lines, and no script is shorter. |
| MyersDiff.Extend | src/mcp/fs/delta.rs:281-289 | With one array shared by all rounds, each step still finds the furthest point that d edits reach on its diagonal. |
| MyersDiff.Round | src/mcp/fs/delta.rs:278-295 | A round either meets the end of both files, and then the distance is its number, or leaves the furthest points of all its diagonals. |
| MyersDiff.Backtrack | src/mcp/fs/delta.rs:299-330 | Walking back through the recorded rounds rebuilds a complete script with one edit per round after the first. |
| Lcs.LcsIsLongest | src/mcp/fs/text_editing.rs:268-269 | The recurrence gives the greatest length of a common subsequence: none is longer and one attains it. |
| Lcs.LcsLength | src/mcp/fs/text_editing.rs:269-289 | The two alternating rows compute the longest common subsequence of the inputs cut to 2000 elements. |
| Lcs.MinimalScriptKeepsLcs | src/mcp/fs/delta.rs:259-297 | A script keeps at most as many lines as the longest common subsequence has, and keeps that many exactly when it is minimal; distance and subsequence add up to the lines of both files. |
| DeltaHunks.Hunks | src/mcp/fs/delta.rs:163-175 | The hunks hold exactly the steps within two of a change, are in order, and leave at least one hidden step between neighbours. |
| DeltaRender.RenderDelta | src/mcp/fs/delta.rs:148-216 | A delta is given exactly when the distance is at most 500; a client that holds the old lines and reads header, gaps, kept, added and removed ranges ends up with exactly the new lines. The view shows as many added and removed lines as the distance, a kept line only within two of a change, and next to a gap exactly two; every gap hides a line, deletions in a row are one range, and the header counts the stretches and the lines of the file. |
| DeltaShape.TracedIsShaped | src/mcp/fs/delta.rs:163-216 | A view whose items account for every step of a script, near ones singly and far ones by gaps, has the shape that RenderDelta promises. |
| ShiftNote.MakeShiftNote | src/mcp/fs/text_editing.rs:449-473 | Whatever the regions and their order, the note read at any original line gives the sum of the changes of all regions that end before that line; it has no part that could be left out, and there is none if nothing moves. |
| ShiftNote.DiffShiftNote | src/mcp/fs/delta.rs:217-241 | The note of an edit diff tells every kept line exactly how far it moved. |
| LineText.RawRoundTrip | src/mcp/fs/text_editing.rs:543-598 | Splitting a raw file into lines with terminators and rendering them gives the file back, character by character. |
| LineText.RawNormalized | src/mcp/fs/text_editing.rs:580-589 | The normalised text of a raw file is the file with each CRLF replaced by LF, which is also what the view cache calls normalised. |
| LineText.IncomingLinesCons | src/mcp/fs/text_editing.rs:749-753 | The lines of a content are those between its newlines, in order, each without the carriage returns at its end; nothing follows a final newline. |
| LineText.TrimmedExactly | src/mcp/fs/text_editing.rs:752 | What is taken off the end of a line are carriage returns, and all of them. |
| EditableContent.Content.FromRaw | src/mcp/fs/text_editing.rs:543-578 | The lines of the file with their own terminators; the dominant terminator is CRLF exactly if more lines end in CRLF than in LF; and whether the file ends in a newline. |
| EditableContent.Content.FindRegion | src/mcp/fs/text_editing.rs:645-674 | The one-pass search finds the first and the last line that the replaced range touches, and the offsets where these lines begin and end. |
| EditableContent.Content.ReplaceNormalizedRange | src/mcp/fs/text_editing.rs:634-696 | Succeeds exactly for ranges inside the normalised text; the new lines are those of the specification step, and the content stays well formed. |
| EditableContent.Content.PreserveTrailingNewline | src/mcp/fs/text_editing.rs:698-724 | In place, the new lines are those of the final pass whose meaning PreservedText and PreservedKeepsTerminators give; the two recorded properties of the file stay. |
| EditableContent.Content.InsertLines | src/mcp/fs/text_editing.rs:600-632 | Succeeds exactly for positions up to the end; in place, the lines are those of the specified insertion, whose meaning ExtractionShows gives. |
| EditableText.ReplacedText | src/mcp/fs/text_editing.rs:634-696 | Read back as LF text, a replacement of a range is plain text replacement; only when the last, unterminated line is absorbed may one final newline be added. |
| EditableText.ReplacedKeepsOtherLines | src/mcp/fs/text_editing.rs:866-871 | Lines before the replaced region, and from the second line after it, keep text and terminator; so does the first line after it, exactly if the rewritten region is not left without a newline in front of it. |
| EditableText.PreservedText | src/mcp/fs/text_editing.rs:698-724 | After the final pass the text ends in a newline as the file did, except that a blank last line written by the edit is not lost. |
| EditableText.PreservedKeepsTerminators | src/mcp/fs/text_editing.rs:698-724 | The final pass changes no text and no terminator, but a missing one and the final one of a file without final newline. |
| TextReplace.FindAllPositions | src/mcp/fs/text_editing.rs:222-231 | The text stands at each position found, none overlaps the one before, and wherever else the text stands it overlaps an earlier one. |
| TextReplace.EditedLinesText | src/mcp/fs/text_editing.rs:806-820 | Replacing all matches from right to left on lines equals substituting every match in the plain text, followed by the rule for the final newline. |
| TextReplace.UniformFileStaysUniform | src/mcp/fs/text_editing.rs:866-871 | In a file with terminators of one kind the written text is the substitution with every newline written in that kind, also inside the new text. |
| MovedText.StartsExactly | src/mcp/fs/text_editing.rs:806-820 | With the matches from any index on replaced, the offset of a line start that no match runs across, moved, starts a line of the new text exactly under the condition of the row below. |
| UntouchedLines.UntouchedLineKeepsTerminator | src/mcp/fs/text_editing.rs:866-871 | In a file with mixed terminators, a terminated line that no match overlaps keeps its text and its exact terminator, at its offset moved by the replacements before it, exactly if nothing joins it to the text above: no match ends right before it, or the new text ends in a newline, or matches are deleted and the run of them before the line begins at a line start. Only as the last line of a file without final newline it loses the terminator. |
| ReplaceReport.ReplacementStarts | src/mcp/fs/text_editing.rs:822-829 | The new text of the i-th match stands at its offset moved by i length differences, and as many lines further down as the replacements before it bring. |
| ReplaceReport.ReplacementSites | src/mcp/fs/text_editing.rs:822-840 | Each reported line is the one its replacement starts on, although it is read off the text after the rule for the final newline; if the text ends before it, the last line is named. |
| ReplaceReport.ReplaceAllNote | src/mcp/fs/text_editing.rs:842-862 | Read at any line start that no match runs across, the shift note leads to the line of the new text that it moved to. |
| ReplaceReport.UniqueNote | src/mcp/fs/text_editing.rs:443-444 | The same of the note of a single replacement, whose region and change are computed from line counts of the old text and of both files. |
| EditableContent.Replace | src/mcp/fs/multi_edit.rs:178-207 | In place, the replacement that ReplaceTextMeaning and ReplaceErrors describe. |
| EditableContent.ReplaceErrors | src/mcp/fs/multi_edit.rs:178-207 | It fails exactly if there is nothing to find, if the text stands nowhere, or if it has several matches and not all are to be replaced; then all are named. |
| EditableContent.IncomingTextIs | src/mcp/fs/text_editing.rs:755-761 | New text without carriage returns at line ends is substituted exactly as it is. |
| EditableContent.LineEndCrIsIgnored | src/mcp/fs/text_editing.rs:755-761 | A carriage return at a line end of the new text makes no difference to the file written. |
| EditableContent.ReplaceTextMeaning | src/mcp/fs/multi_edit.rs:178-207 | A replacement succeeds exactly if there is one match, or there are some and all are to be replaced; the lines written are those of the LF text with every match substituted, and the file reads back as that text exactly if no LF line among them ends in a carriage return. In a file with one kind of terminator it is that text written with it, and reads back exactly if the kind is CRLF or the text has no carriage return before a newline. |
| EditableContent.CarriageReturnIsLost | src/mcp/fs/text_editing.rs:543-598 | An LF file with one line of a, a carriage return and b: deleting the b gives the text of a and a carriage return, but the file written reads as a. |
| ReadBack.ReadsBackExactly | src/mcp/fs/text_editing.rs:580-598 | Rendered lines, read and normalised again, give their own text exactly if no LF line ends in a carriage return. |
| BatchOps.DetectConflicts | src/mcp/fs/text_editing.rs:1120-1190 | Reports none exactly if no two operations conflict, whatever their order; otherwise a pair that does. |
| BatchOps.ConflictsExactly | src/mcp/fs/text_editing.rs:1120-1190 | Two operations on lines of a file conflict exactly if both replace one line, or one inserts into a gap that the other inserts into or replaces across. |
| Repetition.RepeatsExactly | src/mcp/fs/text_editing.rs:1075-1118 | An operation is refused as a repetition exactly if, in the file it would make by itself, a line at an edge of what it brings stands twice in a row and is not noise, or several inserted lines stand there already. |
| Repetition.NoiseExactly | src/mcp/fs/text_editing.rs:1055-1066 | Noise is exactly a line of white space, or of one closing bracket with commas and semicolons behind it and white space around. |
| BatchEdit.ApplyBatch | src/mcp/fs/text_editing.rs:1208-1359 | For operations without conflicts, applying replacements from the bottom up and then insertions at shifted anchors fails only if a target is outside the file, with the reason, and otherwise equals the simultaneous edit in which every operation refers to the original lines. |
| BatchEdit.InsertOne | src/mcp/fs/text_editing.rs:1322-1352 | The shifted position of an insertion is exactly its gap in the replaced file; neither clamp ever takes effect. |
| BatchCall.StandsForExactly | src/mcp/fs/text_editing.rs:173-211 | Exactly the operation that a request stands for: 0 is the gap at the start of the file, -1 the one at its end, an id the gap below the line that has its number and hash; a replacement takes the lines from one such line to another that is not above it; and the lines are those of the content, or a blank one for an empty insertion. |
| BatchCall.ResolveAll | src/mcp/fs/text_editing.rs:1583-1614 | Every request whose target is stale or invalid is named, and no other; if there is none, the operations are those requested, in order. |
| BatchCall.NormalizedLineCount | src/mcp/fs/text_editing.rs:1491-1495 | The line count that ids are resolved against is the number of lines that are edited. |
| BatchCall.EditBatch | src/mcp/fs/text_editing.rs:1453-1691 | The call succeeds exactly if there are 1 to 50 requests, all resolve, none conflict and none repeats lines around it; applying then cannot fail and the new file is the simultaneous edit. Each error is returned exactly in its case: all malformed requests are named, else all that do not resolve, else a conflicting pair, else a repetition. |
| BatchCall.InsertionDoes | src/mcp/fs/text_editing.rs:1453-1691 | A call with one insertion puts its lines into the gap it names, at 0 in front of all lines and at -1 behind them, and leaves the texts of the others and their order. |
| BatchCall.ReplacementDoes | src/mcp/fs/text_editing.rs:1453-1691 | A call with one replacement puts its lines in place of those it names and leaves the texts of the others and their order. |
| BatchCall.OrderIsIrrelevant | src/mcp/fs/text_editing.rs:1208-1214 | Listing the same requests in another order changes neither whether the call succeeds nor what it makes of the file. |
| BatchCall.CallIsListing | src/mcp/fs/text_editing.rs:1591-1619 | The operations of every call that passes form a compatible batch, each listed once, and every insertion brings in a line; so what is proved of such batches holds for every call. |
| BatchReport.BlockIsAtStart | src/mcp/fs/text_editing.rs:1713-1724 | The lines an operation adds are found in the result at its original position plus the growth of all operations above it. |
| BatchReport.ReportPositions | src/mcp/fs/text_editing.rs:1704-1801 | Operations are shown by start line, those of the same line in the order listed, each with its position moved by the growth of the ones shown before. |
| BatchReport.BatchShiftNote | src/mcp/fs/text_editing.rs:1807-1822 | Reading the note at any line that no replacement covers leads to that same line in the result. |
| BatchReport.SurvivorKeepsTerminator | src/mcp/fs/text_editing.rs:1486-1487 | Each line that no operation replaces keeps its terminator and stands where the shift note says, but for a missing terminator supplied and the final newline of a file without one. |
| Extraction.ExtractLines | src/mcp/fs/core.rs:500-712 | Line extraction with all its errors in order: otherwise the new file is the specified insertion, the echo shows what EchoTellsExactly says, and the shift note is right for every old line. |
| Extraction.ChecksExactly | src/mcp/fs/core.rs:500-665 | A request passes exactly if the source exists, the endpoints name lines by number from the start, by negative number from the end, or by id, the first not below the last, and the place is the start, the end or below a line named by its id. |
| Extraction.FaultsExactly | src/mcp/fs/core.rs:500-665 | Otherwise it is refused for exactly the first thing wrong with it. |
| Extraction.ExtractionShows | src/mcp/fs/core.rs:610-679 | A view of the new file shows the old lines with the copied ones among them, exactly if no blank last line stays without terminator and no carriage return is taken in at the old end. |
| Extraction.SourceTellsCopied | src/mcp/fs/core.rs:589-598 | The k-th copied line is the k-th of the named lines as a view of the source shows it, without carriage returns at its end. |
| Extraction.CopiedEnd | src/mcp/fs/core.rs:610-624 | The copied text ends in a newline exactly if it is the end of a source that does, or its last line is blank and not its only one. |
| Extraction.ExtensionEnds | src/mcp/fs/core.rs:666-679 | The file written ends in a newline as before if lines follow the copied ones or the last line was named by its id, and as the copied text does otherwise. |
| Extraction.BlankLineIsLost | src/mcp/fs/core.rs:618-676 | Copying one blank line from inside a file to the end of a file that ends in a newline leaves that file exactly as it was. |
| Extraction.EchoTellsExactly | src/utils/truncation.rs:88-114 | The echo of the copied lines fixes them all exactly if there are no more than 30. |
| Extraction.EchoIsTrue | src/utils/truncation.rs:88-114 | Every line of the echo is shown with its own number, and the marker counts those that are not shown. |
| ReportAccuracy.ReportIsAccurate | src/mcp/fs/text_editing.rs:1713-1719 | All reported positions are right if and only if no insertion is listed before a replacement that starts at its own line and every insertion below line 0 still has something above it. |
| ReportAccuracy.EarlyInsertionIsMisreported | src/mcp/fs/text_editing.rs:1706-1724 | An insertion after line 1 listed before a replacement of line 1: the replacement stands on line 1 and is reported on line 2. |
| ReportAccuracy.OrphanedInsertionIsMisreported | src/mcp/fs/text_editing.rs:1722-1775 | Line 1 is deleted and a line inserted after it: that line is line 1 of the result and is reported on line 2. |
| HistoryStore.RunRefines | src/mcp/fs/core.rs:47-103 | After any sequence of pushes and pops the byte count is exact, no file has more than ten snapshots, and what is stored of each file is a suffix of its unbounded undo stack. |
| HistoryStore.ActRefines | src/mcp/fs/core.rs:62-103 | A pop returns the top of the file's unbounded stack, or nothing exactly if nothing of the file is stored. |
| HistoryStore.EvictMeetsBudget | src/mcp/fs/core.rs:72-91 | After eviction the total is within the budget or at most one snapshot is left, although the queue holds stale entries. |
| HistoryStore.SurvivesExactlyWhenClean | src/mcp/fs/core.rs:72-91 | A snapshot with content survives its own push under every budget if and only if its file has no stale queue entries and is below the per-file limit. |
| HistoryStore.SurvivesAtBudget | src/mcp/fs/core.rs:72-91 | At a given budget a snapshot survives its own push if and only if its file is clean or the total meets the budget before the queue entry that would take it. |
| HistoryStore.UndoThenEditCanLoseSnapshot | src/mcp/fs/core.rs:72-91 | At 64 MiB: edit f, undo it, edit g with a 64 MiB text, edit f again; the snapshot of the last edit is gone at once. |
| HistoryStore.Store.PushSnapshot | src/mcp/fs/core.rs:62-92 | The store in place does what the specification says and stays exact; afterwards it is within the budget or holds at most one snapshot. |
| HistoryStore.Store.PopSnapshot | src/mcp/fs/core.rs:94-102 | The store in place gives up the newest snapshot of the file, as the specification says, and stays exact. |
| MultiEdit.Restore | src/mcp/fs/multi_edit.rs:209-221 | It succeeds exactly if the file is read again with its earlier content, or is written again and its permissions set; then the file holds its earlier content. No other file changes. |
| MultiEdit.RollBack | src/mcp/fs/multi_edit.rs:145-151 | Every attempted file is restored, or named because it cannot be; only attempted files are touched. |
| MultiEdit.FaultNamesExactly | src/mcp/fs/multi_edit.rs:139-163 | A failed commit names the first edit of the file whose write failed, and exactly the files attempted up to it that cannot be brought back. |
| MultiEdit.Commit | src/mcp/fs/multi_edit.rs:137-176 | With writes and rollbacks that may each fail and leave anything behind: success means all files hold the new contents and the history gains exactly the earlier contents of the changed ones; failure leaves the history unchanged and every file holding its earlier content, except those named. What is written, in order, is a function of the files and of what befalls the writes; success notes the changed files in the client's cache, failure none. |
| MultiEdit.NotedOneByOne | src/mcp/fs/multi_edit.rs:172-174 | Noting the changed files one after another leaves each entry as if its file were noted alone, and every other entry as it was. |
| MultiEditCall.ExecuteEdits | src/mcp/fs/multi_edit.rs:46-100 | Success is the edits applied one after another, each to what the ones before left, in all files at once; every error before the commit leaves all files and the history unchanged. Each error is returned exactly in its case: no edits; a file that cannot be loaded, the first in key order, by the first edit naming it; the edit that fails, by index and reason; an answer that is too large; a write that fails. In every case the writes made are a function of the texts loaded, given what befalls each read and write. |
| MultiEditCall.ExecutionIsCall | src/mcp/fs/multi_edit.rs:72-97 | Every execution is one of the calls whose interleavings are studied: it locks its files in ascending order, and its plan computes from the loaded texts exactly what was written. |
| MultiEditCall.EditCallIsWellFormed | src/mcp/fs/multi_edit.rs:72-97 | Whatever such a call loads and whatever befalls it, it writes only files it locked, each at most twice. |
| MultiEditCall.UnharmedCallMakesItsEdits | src/mcp/fs/multi_edit.rs:46-100 | A call whose reads and writes succeed makes of any files what its edits, applied in order, make of them, and leaves them alone exactly if an edit fails or the answer would be too large; so calls at once do this one after another. |
| Keys.BelowExactly | src/mcp/fs/multi_edit.rs:72-76 | Keys are in lexicographic order: a prefix is below its extensions, else the first difference decides. |
| UndoEdit.Undo | src/mcp/fs/core.rs:134-159 | Success puts back the newest stored content, or removes the file if there was none; without a snapshot nothing changes; no other file changes. Exactly if it succeeds the client's entry for the file is dropped. |
| UndoEdit.UndoFindsEarlierContent | src/mcp/fs/core.rs:126-132 | After a committed transaction undo of a changed file finds its content before the transaction or, if the budget took it, nothing; never another content. |
| UndoEdit.UndoAlwaysFindsIt | src/mcp/fs/core.rs:126-132 | If all snapshots of the transaction fit the budget with what is stored, every changed file can be undone. |
| FileLocks.MutualExclusion | src/mcp/fs/text_editing.rs:65-88 | In every run of acquires, each of which may sweep the table, entries and drops, no two tasks hold the lock of the same key. |
| FileLocks.EntersExactlyWhenKeyIsFree | src/mcp/fs/text_editing.rs:68-88 | In every run a task gets in exactly when no task holds the lock of its key; a swept and remade lock neither lets in nor keeps out anyone wrongly. |
| FileLocks.TableIsBounded | src/mcp/fs/text_editing.rs:74-80 | After an acquire the table has at most 1025 locks, or no more than there are live references. |
| FileLocks.LockTable.AcquireFileLock | src/mcp/fs/text_editing.rs:69-88 | The table in place: sweep above the threshold, then find or make the lock of the key; the invariant and the bound hold afterwards. |
| Transactions.Serializable | src/mcp/fs/multi_edit.rs:72-97 | However calls interleave, fail or are cancelled, once all are over the files are as if the calls that reached their writes had run one at a time in the order they ended; shielded commits make all their writes, and a cancelled single-file call its one write or none. |
| Transactions.NoDeadlock | src/mcp/fs/multi_edit.rs:72-76 | With locks taken in key order, in every reachable state some call can go on unless all are over. |
| Transactions.RunsEnd | src/mcp/fs/multi_edit.rs:72-97 | Every run is finite: its length is bounded by the numbers of keys and calls. |
| ViewCache.NoteWrite | src/mcp/fs/delta.rs:88-101 | The entry follows a write only if the text before it was the remembered one; otherwise it is dropped, and no other entry changes. |
| ViewCache.RenderWholeFile | src/mcp/fs/delta.rs:115-146 | The answer is one of those that the remembered text allows, and the current text is remembered unless it is too long. |
| ViewCache.SameLinesExactlyWithoutExtraCr | src/mcp/fs/delta.rs:83-86 | Normalising once more keeps the lines that are shown if and only if no line ends in an extra carriage return. |
| Sessions.SessionTable.Get | src/mcp/server.rs:112-145 | A session found for the same root and the same kind of epoch keeps its root, its working directory and, unless the epoch changed, what its client has seen; any other stands in its root with nothing seen. No other session changes, and one goes only for a new one in a full table, and then a least recently used one. At most 64 are kept. |
| Sessions.SessionTable.Move | src/mcp/server.rs:59-81 | A session that moves works in the new directory, or back in its root; nothing else changes. |
| Sessions.WorksWhereItMoved | src/mcp/server.rs:59-81 | In every run a session works in the directory it last moved to since it last started over, or in its root. |
| Sessions.RecentSessionSurvives | src/mcp/server.rs:83-86 | A session stays, with its cache and working directory, as long as fewer than 64 different other sessions made requests after its own last one. |
| ViewProtocol.FitsExactly | src/mcp/fs/core.rs:439-446 | A whole-file view is rejected exactly if the text it shows is too long: every line with its number in decimal and its two-character hash, a newline between lines, and the notice in front if there are too many changes. |
| ViewProtocol.KeepsEntriesIsExact | src/mcp/fs/delta.rs:88-125 | The exact condition under which a view, edit, create, line extraction, undo or delete, whose result is delivered or not, leaves every remembered text of its session true. |
| ViewProtocol.EventKeepsValid | src/mcp/fs/delta.rs:88-125 | From a state in which every remembered text is what the client holds, an event of any client, another program or a lost context leads to such a state if and only if it is benign. |
| ViewProtocol.EveryAnswerIsTrue | src/mcp/fs/delta.rs:115-146 | In every run of benign events with any number of clients, sessions dropped and contexts lost, each whole-file answer read with the client's own picture gives the current lines, and "unchanged" is said only when true. |
| ViewProtocol.WrittenIsViewed | src/mcp/fs/delta.rs:115-146 | After an edit, a create, a line extraction, an undo or a delete its file is there exactly if something was put into it, and a full view shows exactly that; every other file is as it was. |
| ViewExceptions.RejectedViewIsTakenForSeen | src/mcp/fs/core.rs:439-446 | A file of 1048576 newlines: the first view is rejected as too long, the second says "unchanged" to a client that has seen nothing. |
| ViewExceptions.LaterIsUnchanged | src/mcp/fs/delta.rs:120-132 | And so does every later view, for any file and client in that state. |
| ViewExceptions.EditCanLeaveExtraCr | src/mcp/fs/delta.rs:91-96 | An edit whose result ends a line in an extra carriage return leaves a remembered text that the client does not hold. |
| ViewExceptions.StaleEditIsTakenForKnown | src/mcp/fs/delta.rs:91-96 | Another program adds carriage returns to a line the client holds; the next edit is taken to come from a current picture and leaves a remembered text that the client does not hold. |
| ViewExceptions.UntoldWriteIsTakenForKnown | src/mcp/fs/multi_edit.rs:91-97 | Every remembered write to a file the client knows, whose result was not delivered or does not show the lines copied, leaves the server sure of a text that the client does not have. |
| ViewExceptions.LongCopyIsTakenForKnown | src/mcp/fs/core.rs:601-608 | A client views a file of one line and appends 31 lines of a file it never viewed: the next view says "unchanged" to it. |
| Jobs.NoCompletionIsLost | src/mcp/server.rs:1093-1112 | However a job's exit interleaves with a listener's registration and replay, once the notifier is done and the listener has made its checks the completion has reached the listener, if it is still registered. |
| Jobs.CompletionIsAnnounced | src/mcp/server.rs:496-505 | In every interleaving a job whose notifier is done has reached a stream or, unless it is a task, a push to the peer was tried; nothing is pushed about a running job. |
| Jobs.PushHasReason | src/mcp/server.rs:496-505 | A push is tried only because a late listener could not be told of an exit, or because the notifier of a job that is no task reached no stream. |
| Jobs.ReadIsComplete | src/mcp/fs/background.rs:350-365 | A read between any two moments never fails, and a job that reads as exited reads the same, with the same output, ever after. |
| Jobs.ReadTellsHowItEnded | src/mcp/fs/background.rs:255-275 | A job that reads as exited reads with exactly the code and the output that it ended with. |
| Jobs.NotifiedListenerReadsExit | src/mcp/server.rs:201-216 | A listener that is notified asked for that job, and reading the job then gives its exit and output. |
| Jobs.CancelledWasRunning | src/mcp/fs/background.rs:290-297 | A job is marked as cancelled only if some cancel call saw it running. |
| Jobs.MarkStays | src/mcp/fs/background.rs:290-297 | Once a job has exited and no such call is under way, the mark never changes. |
| Jobs.MarkCanComeLate | src/mcp/fs/background.rs:290-297 | While such a call is under way it can mark any job that has exited since it looked. |
| Subscriptions.SubscriptionRegistry.Notify | src/mcp/server.rs:201-216 | One attempt for each matching stream in order; delivered exactly if one succeeded; exactly the streams that failed are removed. |
| Subscriptions.CoveringIsSinksFor | src/mcp/server.rs:174-192 | The streams the registry finds are those the notifier of the interleaving model sends to, in the same order. |

## Left out

- EditableContent.Content.ReplaceNormalizedRange: offsets count characters; the code counts bytes and also rejects a range that splits a character, which cannot occur for offsets of matches.
- EditableContent.Replace: the empty `old_text` is an error here as in multi-file edits; the single-file command, which accepts it, and its recovery stages (escaped literals, normalised whitespace, indentation, closest candidates) are not modelled.
- BatchCall.EditBatch: wording and hints of error messages are left out. A comment in the code says that one trailing comma or semicolon is stripped before a line counts as a closing bracket; the code strips all of them, and the model follows it.
- BatchCall.ResolveAll: the line hash is an uninterpreted function; its collisions are not studied.
- DeltaRender.RenderDelta: added lines are shown one by one, as in views; edit results collapse the middle of long added blocks, which the reading client sent itself.
- Lcs.LcsLength: the similarity ratio computed from it, in floating point, and the ranking of candidates are left out.
- HistoryStore.RunRefines: byte counts are unbounded integers and sizes of texts are their lengths; the branch of the code for an empty stored list is absent because such a list cannot occur.
- MultiEdit.Commit: file permissions are only a flag.
- Extraction.ExtractLines: creating parent directories and reading and writing the files are left out; its lock, history and cache note are modelled in FileLocks, HistoryStore and ViewProtocol.
- MultiEditCall.ExecuteEdits: keys are given; resolving and canonicalising paths, and JSON decoding of the edits, are left out.
- UndoEdit.Undo: its lock is modelled in FileLocks.
- Transactions.Serializable: line extraction is a single-file call here, with the text of its source fixed when it starts, because it reads the source without a lock. The history is not part of the shared state, because one call's push may evict another file's snapshot; undo is therefore not among the calls. A write is one step, and what a failed write leaves is part of the plan. `create` takes no lock in the code and is not among the calls.
- Transactions.RunsEnd: fairness of the scheduler is not modelled; bounded length and NoDeadlock together say that runs not cut short end.
- FileLocks.MutualExclusion: reference counting is exact by construction; a poisoned mutex is left out.
- ViewProtocol.EveryAnswerIsTrue: each request is one step, and the length of a delta's text is a parameter. A client counts as knowing copied lines if the result shows them all or it holds the present lines of their file. Shell output spilled to a file counts as an edit or another program's write.
- Sessions.SessionTable.Get: session states are values; a handle kept by a request that is still running while its session is dropped is not modelled.
- Jobs.ReadIsComplete: the tail of a running job's log is a parameter; process groups, signals, output digests and log files are left out.
- Views with ranges, searches, directory listings, images, remote files over SSH, the shell tool, task polling and messages to a chat channel: they do not touch the state modelled here, or would add only easy members.
- Numbers are unbounded; the code's `i64` and `usize` would overflow only beyond any real file size.
