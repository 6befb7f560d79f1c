# A model of the Zile text engine

Zile is an Emacs-like editor written in C. This project models its text engine
and the small machines around it, and proves what they are for:

- **Text.** Growable strings (`Astr.dfy`), end-of-line conventions, the line
  index and the translation between conventions (`Eol.dfy`, `Detect.dfy`), the
  gap and what becomes of the bytes in it (`Gap.dfy`), and line search straight
  through the gap (`LineIndex.dfy`).
- **The buffer.** `Buffers.dfy` holds the buffer object: a byte array with a
  hole after point, an undo list, and a chain of markers. Every method is tied
  to a plain-text state; `Markers.dfy` looks at the markers of all buffers at
  once, the marks and the mark ring.
- **Undo.** `UndoLog.dfy` is the undo list as a machine that pushes records
  while it walks down them, and `Reverting.dfy` proves what the walk does;
  `Unwinding.dfy` says, in terms of the records, the text and the saved text,
  when an undo comes through and what it makes true; `Undoing.dfy` is undo
  commands in a row, and `Grouping.dfy` undoing what has just been done. `Session.dfy` is editing, moving, saving and undoing on a
  buffer that visits a file, and `Runs.dfy`, `Nesting.dfy` and `Shipped.dfy` are
  about whole runs of that.
- **Killing, moving, filling.** `Kill.dfy` and `KillRing.dfy`, `Motion.dfy` and
  `Moves.dfy`. In these pairs the first is about plain text and the second is
  the command on the buffer object, gap and all; `KillUndo.dfy` is killing a
  line and undoing that. `Columns.dfy`, `Spacing.dfy`, `Fill.dfy`,
  `Joining.dfy` and `Paragraphs.dfy` are about columns, white space, line
  breaks, and filling a paragraph by joining its lines and breaking them again;
  `Cuts.dfy` says what text such a run of edits leaves, and `Loops.dfy` what it
  means for a loop to end.
- **Keys.** The key-binding tree as a value and as linked nodes (`Keymap.dfy`,
  `Bindings.dfy`); the stack of terminal codes through which keys are put back
  and macros replayed (`Keys.dfy`, `Terminals.dfy`).
- **Windows and completion.** How windows share the screen (`Tiling.dfy`), the
  linked list of windows (`Windows.dfy`), the point each window keeps
  (`Views.dfy`), and completion's common-prefix loop (`Completion.dfy`).

C's assertions and null dereferences are the outcome `Crash` (or `Stuck`), never
a precondition that hides them from a value; a method asks its caller for the
outcome not to be one. `size_t` is a natural number, with the modulus written
out where a sum or a difference can wrap (`Eol.SIZE_MODULUS`). The undo list is
kept oldest record first, so a pointer into the C list is the number of records
at or below it.

## Where the code and its purpose part

Each is stated as what the code does, with the exact condition under which it
does what it is meant to, and most with an input on which it does not:

- **The undo command's pointer.** `call_command` sets the next record to revert
  back to the newest one after an undo, not after other commands. Repeating undo
  therefore toggles (`Shipped.UndoTwice`), and an undo after an edit can
  mark a changed buffer unmodified or abort (`Shipped.FlagLies`,
  `Shipped.UndoCrashes`). From any pointer, an undo comes through exactly
  when the item has a start and its records fit the text
  (`Unwinding.RevertsIff`); it restores the old text, and leaves a true flag,
  exactly when the text around the blocks is right (`Unwinding.StaleTextIff`,
  `Unwinding.StaleFlagIff`). Over whole runs: `Runs.RunIs`.
- **Macros that change buffers.** `process_keys` opens an undo sequence in one
  buffer and closes it in whatever buffer is current when the macro is done. The
  end record without a start that this leaves makes undo run off the list
  (`Shipped.UnmatchedEndCrashes`). `Nesting.UndoReachesLoadedTextIff` and
  `Nesting.DocumentedComesThroughIff` say for which runs it cannot happen.
- **Stale bytes in the gap.** When bytes are deleted and the gap must be opened,
  the last deleted bytes stay in it (`Gap.StaleBytes`, `Gap.StaysQuietIff`), and
  line search can find an end-of-line there (`LineIndex.LineIndexIff`,
  `Gap.StaleLineFeed`).
- **Marker wrap-around.** Inside a deleted stretch near the start of the buffer a
  marker's offset wraps (`Gap.MarkerInsideIff`, `Kill.DeleteRegionIff`,
  `Kill.DeleteRegionAborts`).
- **A split CRLF.** With point between the two bytes the gap hides that
  end-of-line (`LineIndex.QuietGapIff`, `LineIndex.SplitCrlfFails`).
- **Tab stops.** The goal column is computed with a bit trick that is right
  exactly for widths that are powers of two (`Columns.TabTrickIff`,
  `Columns.GoalRoundTripIff`).
- **Kill and yank.** A line-feed that is not an end-of-line of the buffer comes
  back as one (`Kill.KillThenYankIff`, `Kill.KillLinesThenYankIff`,
  `Kill.KillThenYankFails`).
- **Other windows.** `delete-other-windows` keeps the selected window only if it
  is one of the first two (`Windows.Screen.DeleteOtherWindows`).
- **The fill column.** A line is broken where the comment says it is, except
  that a tab across the fill column is passed over for an earlier blank, and a
  blank that ends the line is not seen (`Fill.ChoiceIsDocumentedIff`,
  `Fill.TabAcrossAt3`, `Fill.BlankLastAt1`).
- **Blanks at the end of a paragraph.** When they reach beyond the fill column,
  filling turns them into an end-of-line, and an empty line follows
  (`Paragraphs.RestUnchangedIff`, `Paragraphs.BlankEndAt1`).
- **Read-only buffers.** `delete-horizontal-space` hangs if a blank follows point
  on its line (`Spacing.SpaceEndsIff`, `Spacing.ReadOnlyBlankHangs`), and
  `fill-paragraph` unless the paragraph is one line that needs no break
  (`Paragraphs.ReadOnlyFillEndsIff`, `Paragraphs.ReadOnlyFillHangs`).
- **Macros and time-outs.** Putting back "no key" while a macro is recorded
  drops a recorded key, or aborts (`Keys.WaitkeyRecordsIff`).
- **The mark ring.** A buffer without a mark comes out of a push and a pop with
  a mark at its start (`Markers.MarkRing.PushThenPop`).

## Model

| member | source | states |
|---|---|---|
| Eol.EndOfLine | src/estr.c:108-114 | the first end-of-line at or after an offset, or the end of the string; no earlier one is missed |
| Eol.StartOfLine | src/estr.c:100-106 | the place just after the last end-of-line wholly before an offset, or 0; no later one is missed |
| Eol.Memrmem | src/memrmem.c:34-46 | the last occurrence of one string in another, or none exactly when there is none |
| Eol.FindStartOfLine | src/estr.c:100-106 | searching backwards for the end-of-line string finds the start of the line |
| Eol.EstrLines | src/estr.c:122-133 | hopping from end-of-line to end-of-line counts the leftmost non-overlapping ones |
| Eol.EstrLen | src/estr.h:52 | the predicted length is the length of the translation |
| Eol.EstrLenIsExact | src/estr.h:52 | the macro's unsigned difference may wrap and the product still comes out right, for every string whose translation has a size |
| Eol.TranslateSame | src/estr.c:135-157 | translating to the same convention is the identity |
| Eol.TranslateConcat | src/estr.c:135-157 | translation and line count split at any seam that no CRLF straddles |
| Eol.ToLfAndBackIff | src/estr.c:135-157 | convention to LF and back is the identity if and only if no line-feed lies outside that convention's ends-of-line |
| Eol.LfToCrlfAndBack | src/estr.c:135-157 | LF to CRLF to LF is the identity on every string, stray carriage-returns included |
| Detect.NewAstr | src/estr.c:48-84 | the convention taken for a file is the one all of its first three ends-of-line have, or else LF |
| Detect.DetectedAsWritten | src/estr.c:48-84 | a text written out in a convention is read back in it, as long as it has an end-of-line |
| Astrs.Astr.constructor | src/astr.c:50-59 | a new string is empty |
| Astrs.Astr.SetLen | src/astr.c:83-93 | the bytes kept are unchanged and the allocation stays within 16 bytes or about twice the length, the bound every other operation keeps too |
| Astrs.Astr.CatNstr | src/astr.c:95-103 | bytes are appended |
| Astrs.Astr.ReplaceNstr | src/astr.c:105-113 | exactly the bytes at the position are overwritten |
| Astrs.Astr.Remove | src/astr.c:115-124 | the stretch is taken out and the rest closes up |
| Astrs.Astr.Insert | src/astr.c:126-136 | a stretch of NULs is opened and the rest moves up |
| Astrs.Astr.Move | src/astr.c:138-147 | an overlapping move inside the string copies what was there before |
| Astrs.Astr.Set | src/astr.c:149-157 | exactly the stretch is filled |
| Astrs.Astr.ReplaceEstr | src/estr.c:135-157 | exactly the translation is written at the position, and nothing beyond it |
| Astrs.Astr.CatEstr | src/estr.c:159-165 | the translation is appended, in room made by its predicted length |
| LineIndex.TransparentAgrees | src/buffer.c:201-229 | line start, line end, previous and next line through a harmless gap are those of the text, at every offset |
| LineIndex.LineIndexIff | src/buffer.c:201-229 | they are those of the text at every offset if and only if the gap splits no end-of-line and shows none of its own |
| LineIndex.QuietGapIff | src/buffer.c:201-229 | a gap without carriage-returns and line-feeds, such as a cleared one, is harmless if and only if it is empty or point splits no CRLF |
| LineIndex.SplitCrlfFails | src/buffer.c:219-223 | with point between the two bytes of a CRLF the end of its line is not seen |
| Gap.MoveLeft | src/buffer.c:94-108 | carrying the gap to the left leaves the text as it was |
| Gap.MoveRight | src/buffer.c:94-108 | carrying it to the right does too |
| Gap.MoveKeepsNul | src/buffer.c:94-108 | a cleared gap is still clear after point moves |
| Gap.StaleBytes | src/buffer.c:154-172 | after a replace a cleared gap is clear, except that a gap opened while deleting holds exactly the last deleted bytes at its end |
| Gap.StaysNulIff | src/buffer.c:154-172 | the exact condition for the gap to stay clear |
| Gap.StaysQuietIff | src/buffer.c:154-172 | and for it to stay without bytes of an end-of-line |
| Gap.StaleLineFeed | src/buffer.c:154-172 | two letters written over a line-feed leave it in the gap, and the line before point is wrong |
| Gap.ReplaceBytes | src/buffer.c:153-176 | in all three resize branches the bytes hold the new text with a gap of the new size after the new point |
| Gap.RegionOfBytes | src/buffer.c:243-255 | the bytes either side of the gap make up the region of the text |
| Gap.MarkerMoves | src/buffer.c:178-181 | a marker before the replaced text stays, one after moves with the text, one inside keeps its distance from the end as far as the new text reaches, or is sent far beyond when the sum wraps |
| Gap.MarkerOrder | src/buffer.c:178-181 | markers keep their order as long as no sum wraps |
| Gap.MarkerInsideIff | src/buffer.c:178-181 | a marker ends inside the buffer if and only if its sum does not wrap |
| Columns.TabTrickIff | src/basic.c:54-65 | the bit trick reaches the next tab stop from every column if and only if the width is a power of two |
| Columns.GoalcIsColumn | src/basic.c:54-65 | then the goal column is the tab-expanded column |
| Columns.FindGoalc | src/buffer.c:750-767 | the nested loops stop at the least offset whose column is at least the goal, or at the line's end |
| Columns.LandsOnce | src/buffer.c:750-767 | there is only one such offset |
| Columns.GoalRoundTripIff | src/basic.c:54-65 | going back to the goal column of any place on any line is the identity if and only if the width is a power of two |
| Runs.WriteKeepsSound | src/undo.c:150-155 | a save keeps the history of the records, text and point, clears the modified flag, and whatever the flags claimed before it they are true after it |
| Undoing.WellNestedIffMatched | src/undo.c:79-89 | no prefix of the list closes more than it opened if and only if every end record has its own older start record |
| Reverting.ReplaceKeepsHistory | src/buffer.c:145-187 | every replace pushes the recipe that takes the text back, with a true clean flag |
| Reverting.RevertActionIs | src/undo.c:100-120 | from any state, in step with the pointer or not, reverting works the item off as unwinding its records does, claims and flag included, pushes exactly one item, puts point back where a group began, and is stuck exactly when the item has no start or does not unwind |
| Reverting.RevertGroupIs | src/undo.c:100-120 | the same for a group with any nesting inside |
| Reverting.RevertRunIs | src/undo.c:100-120 | the loop inside a group stops at that group's own start record, or is stuck, and pushes only whole items |
| Undoing.WellNestedIffWalked | src/undo.c:100-120 | walking down item by item comes to the end of the list if and only if every end record has its start |
| Unwinding.RevertsIff | src/undo.c:100-120 | an undo from any pointer comes through if and only if the item has a start and each record fits the text, by sizes alone, when its turn comes |
| Unwinding.InStepRevertsIff | src/undo.c:100-120 | from a pointer in step with the text, if and only if the item has a start |
| Unwinding.StaleTextIff | src/undo.c:100-120 | it restores the text from before the item if and only if every byte around the item's blocks is what it was |
| Unwinding.StaleFlagIff | src/undo.c:115-117 | the modified flag is true after it if and only if the item's oldest record makes no claim, or the text around its blocks is that of the saved text |
| Unwinding.StaleHonestIff | src/undo.c:115-117 | and all records' claims are true after it if and only if this holds of each record of the item that makes one |
| Undoing.UndoOnce | src/undo.c:122-145 | one undo from a pointer in step moves it down one item and the text with it, whatever lies further down the list |
| Undoing.SecondUndoReverts | src/undo.c:122-145 | with the list used up, one undo only sets the pointer to the newest record, and the second restores the text from before the newest item |
| Undoing.WalkBack | src/undo.c:122-145 | the k-th undo in a row restores the text from before the k-th item, never crashes, and pushes at most k items |
| Undoing.UndosUndone | src/undo.c:100-145 | any run of undos can itself be undone |
| Undoing.UndoneToBottomIff | src/undo.c:122-145 | undoing item by item comes to the oldest text, or else to an end record without a start, where the next undo crashes; the first if and only if the list is well nested |
| Grouping.GroupUndone | src/undo.c:79-120 | a start record, any whole items and an end record are one item, and undoing it puts back the text and point of when it was started |
| Grouping.EditUndone | src/undo.c:55-120 | undoing an edit just made puts back the text and the modified flag, with point after the text it had deleted |
| Grouping.NothingRecorded | src/undo.c:55-77 | where undo is off nothing is recorded and the command does nothing |
| UndoLog.ReplaceIs | src/buffer.c:145-187 | the new bytes end up before point, the rest stays, and the buffer is modified |
| Runs.StepIs | src/buffer.c:145-187 | an edit, motion, sequence mark, save or undo comes through if and only if it is safe where it stands, keeps the history true, and keeps the flags true exactly when said |
| Runs.RunIs | src/undo.c:55-145 | a run of them comes through if and only if each is safe, and ends with all flags true if and only if each undo since the last save kept them so |
| Runs.RunComesThroughIff | src/undo.c:55-145 | exactly when a run on a loaded buffer comes through |
| Runs.ModifiedFlagSound | src/undo.c:55-77 | after such a run an unset modified flag means the text is the one last loaded or saved |
| Runs.DocumentedRunIsTrue | src/undo.c:122-145 | under the documented rule every run that comes through is one |
| Nesting.RunNestsIff | src/undo.c:79-89 | after a run the undo list is well nested if and only if the run closed no sequence that was not open, undos not counted |
| Nesting.UndoReachesLoadedTextIff | src/file.c:205-244 | after any run, undo arrives at the text that was loaded and stops, if the run closed no sequence that was not open, and else comes to a crash |
| Nesting.DocumentedComesThroughIff | src/undo.c:122-145 | under the documented rule a run that closes only open sequences comes through whenever its edits and motions keep to the buffer |
| Shipped.UnmatchedEndCrashes | src/macro.c:128-140 | the end record that a macro leaves in another buffer makes undo there crash |
| Shipped.UndoTwice | src/bind.c:292-293 | as shipped, two undos in a row leave the text as it was, or crash exactly when the newest item has no start |
| Shipped.FlagLies | src/bind.c:292-293 | as shipped, four commands lead to a changed buffer that is marked unmodified |
| Shipped.UndoCrashes | src/bind.c:292-293 | as shipped, five commands lead to a failed assertion |
| Buffers.Buffer.constructor | src/file.c:205-244 | a loaded buffer holds the file with no gap, point at the start, no undo records and no modified flag, read-only if the file is |
| Buffers.Buffer.SetBufferPt | src/buffer.c:94-108 | only point and the place and contents of the gap change |
| Buffers.Buffer.GetBufferRegion | src/buffer.c:243-255 | the region of the text, in the buffer's convention |
| Buffers.Buffer.BufferStartOfLine | src/buffer.c:213-217 | the start of the line in the text, through a harmless gap |
| Buffers.Buffer.BufferEndOfLine | src/buffer.c:219-223 | the end of the line in the text, likewise |
| Buffers.Buffer.BufferPrevLine | src/buffer.c:201-205 | the start of the line before, likewise |
| Buffers.Buffer.BufferNextLine | src/buffer.c:207-211 | the start of the line after, likewise |
| Buffers.Buffer.GetBufferChar | src/buffer.c:195-199 | the character of the text at an offset |
| Buffers.Buffer.GetGoalc | src/basic.c:54-65 | the goal column of the text between the line start and point |
| Buffers.Buffer.GotoOffset | src/buffer.c:806-816 | point moves, and on another line the goal column is taken anew |
| Buffers.Buffer.UndoSaveBlock | src/undo.c:55-77 | the record pushed holds the old bytes, the new size and whether the buffer was unmodified |
| Buffers.Buffer.AdjustMarkers | src/buffer.c:178-181 | every marker of the chain, once each, is moved by the rule |
| Buffers.Buffer.ReplaceEstr | src/buffer.c:145-187 | the text, point, modified flag, undo list, gap contents and every marker after a replace, or nothing changed in a read-only buffer |
| Buffers.Buffer.RevertAction | src/undo.c:100-120 | the recursive walk over the buffer object does what the undo machine does |
| Buffers.Buffer.RevertWhile | src/undo.c:100-120 | so does its loop |
| Buffers.Buffer.Undo | src/undo.c:122-145 | so does the command, and it fails exactly when undo is off, the buffer is read-only, or the list is used up; then it sets the pointer to the newest record and changes nothing else |
| Buffers.Buffer.MarkSaved | src/file.c:586-637 | a save clears the modified flag and every record's claim |
| Buffers.Buffer.Chain | src/marker.c:80-98 | a marker goes to the head of the chain |
| Buffers.Buffer.Unchain | src/marker.c:57-78 | exactly that marker leaves the chain, the others keep their order |
| Markers.ChainCounts | src/marker.c:57-98 | a walk down the chain of a buffer comes by each marker that points into it, each once, and by no other |
| Markers.UnchainMarker | src/marker.c:57-78 | this stays so when a marker is taken out, and no other chain changes |
| Markers.MoveMarker | src/marker.c:80-98 | and when a marker moves to any buffer and offset |
| Markers.CopyMarker | src/marker.c:100-110 | and when a marker is copied, one that points nowhere included |
| Markers.SetMark | src/marker.c:166-173 | the mark goes to point, a new marker only if there was none |
| Markers.MarkRing.PushMark | src/marker.c:128-146 | the mark's place is saved on the ring, or the start of the buffer when there is no mark |
| Markers.MarkRing.PopMark | src/marker.c:149-163 | the place saved last becomes the mark of its buffer, and the ring is as it was before the push |
| Markers.MarkRing.PushThenPop | src/marker.c:128-163 | a push and a pop leave the mark where it was if and only if there was one, and else at the start of the buffer |
| Kill.DeleteRegionText | src/buffer.c:487-499 | unless it aborts, exactly the region goes, and point, wherever it was, stays with its text |
| Kill.DeleteRegionIff | src/buffer.c:487-499 | the deletion aborts if and only if point is inside the region and nearer to the start of the buffer than the region is long |
| Kill.DeleteRegionAborts | src/buffer.c:487-499 | as when three of four line-feeds are deleted around point after the first |
| Kill.DeleteCharMovesIff | src/buffer.c:267-292 | a deletion before the end of the buffer takes something away if and only if the buffer may be written |
| Kill.DeleteCharIs | src/buffer.c:267-292 | the byte after point goes, or a whole end-of-line, nothing else, and point stays |
| Kill.CopyOrKillIs | src/killring.c:50-67 | the ring gains the region's LF translation whether it is killed or copied; only a kill in a writable buffer takes the region out |
| Kill.YankIs | src/killring.c:242-261 | the ring ends up before point, in the buffer's convention |
| Kill.KillThenYankIff | src/killring.c:50-67 | killing a region and yanking restores the text if and only if the region has no line-feed outside the buffer's ends-of-line |
| Kill.KillThenYankLf | src/killring.c:242-261 | in an LF buffer it always does |
| Kill.KillThenYankFails | src/killring.c:50-67 | in a CR buffer a line-feed does not survive |
| Kill.KillWholeLine | src/killring.c:69-112 | one kill of a line that is not at the end of the buffer succeeds, takes the rest of the line with its end-of-line and appends exactly its LF translation |
| Kill.KillLinesAppend | src/killring.c:69-112 | n kills append exactly the LF translation of the one stretch of text they took, and fail only when nothing is left after point |
| Kill.KillLinesThenYankIff | src/killring.c:242-261 | and yanking after them restores the text under the same condition |
| KillUndo.KillLineIs | src/killring.c:69-112 | a kill takes the rest of the line, and its end-of-line exactly when whole lines are asked for or every byte left on the line is a space or a tab, and adds their LF translation to the ring |
| KillUndo.ReadOnlyKillIs | src/killring.c:69-112 | in a read-only buffer the rest is copied, and the kill fails exactly when the end-of-line should go too, with the records it leaves |
| KillUndo.KillAtEndFails | src/killring.c:89-93 | at the end of the buffer nothing changes |
| KillUndo.KillLineUndone | src/killring.c:69-112 | a kill leaves exactly one item on the undo list, and one undo of it restores text and point |
| KillRings.PointMarker | src/marker.c:112-118 | a new marker at point |
| KillRings.DeleteRegion | src/buffer.c:487-499 | the deletion on the buffer object, markers and gap included, with its helper marker gone afterwards |
| KillRings.DeleteChar | src/buffer.c:267-292 | a byte, or a whole end-of-line, goes; it fails at the end of the buffer and in a read-only one |
| KillRings.KillRing.Push | src/killring.c:42-48 | the LF translation is appended to the ring |
| KillRings.CopyOrKill | src/killring.c:50-67 | the region is added to the ring and, in a writable buffer, deleted |
| KillRings.KillLine | src/killring.c:69-112 | the command with all its branches, early failure and unclosed sequence included |
| KillRings.Yank | src/killring.c:242-261 | the ring is inserted at point, or nothing happens when nothing was killed |
| Keymap.Find | src/bind.c:65-73 | the first child with a key, or none exactly when there is none |
| Keymap.BoundIsFound | src/bind.c:95-131 | looking up a sequence just bound gives its procedure |
| Keymap.OthersUnchangedIff | src/bind.c:75-115 | every other sequence keeps its procedure, except a leaf at a proper prefix, which loses it |
| Keymap.BindNodesIff | src/bind.c:95-115 | binding makes a node for exactly the prefixes of the sequence |
| Keymap.LastBindingWins | src/bind.c:95-115 | after any run of bindings a sequence has the procedure last bound to it, unless it first became a prefix after that |
| Keymap.NeverBound | src/bind.c:95-115 | and one that was never bound has none |
| Keymap.BindKeepsUnique | src/bind.c:95-115 | siblings keep distinct keys |
| Keymap.SearchWithinHeight | src/bind.c:117-131 | no sequence longer than the tree is high leads anywhere |
| Keymap.WalkReportsIff | src/bind.c:548-573 | the walk reports exactly the bound sequences that have no bound proper prefix |
| Keymap.WalkReportsOnce | src/bind.c:548-573 | and each of them once |
| Bindings.Binding.constructor | src/bind.c:53-63 | a new node has no procedure and no children |
| Bindings.SearchNode | src/bind.c:65-73 | the loop finds what the value says |
| Bindings.AddNode | src/bind.c:75-93 | the child is appended, a leaf loses its procedure, and there is a free slot left |
| Bindings.BindKeyVec | src/bind.c:95-115 | the tree of nodes, changed in place, becomes the bound tree, with no node shared |
| Bindings.SearchKey | src/bind.c:117-131 | the walk down the nodes finds what the value says |
| Bindings.GetKeySequence | src/bind.c:164-186 | it waits for a first key and stops within one key more than the tree is high, at the first sequence that is not an unbound prefix |
| Bindings.Walker.Walk | src/bind.c:548-573 | the walk over the nodes reports what the value says and leaves its list of keys as it was |
| Keys.CodeRoundTrip | src/term_curses.c:142-369 | what any code decodes to is encoded by one code that decodes to it |
| Keys.CodesAreDistinct | src/term_curses.c:142-369 | no two codes read as the same key, backspace, suspend and no key apart, and each but the escape is its key's encoding |
| Keys.CharactersRead | src/term_curses.c:142-239 | printable characters and bytes from 128 up read as themselves, control characters as the control key of their letter, the rest as named |
| Keys.CursesKeysRead | src/term_curses.c:142-239 | which key each function, arrow and paging key reads as |
| Keys.ReadIsProducible | src/term_curses.c:401-408 | reading gives a key that can be typed, or none |
| Keys.UngetThenReadIff | src/term_curses.c:401-425 | putting a key back and reading gives it back and leaves the stack as it was, if and only if the key is one that can be read |
| Keys.ReplayIsExact | src/macro.c:128-140 | a macro of such keys, and of characters read raw, replays in order and leaves the stack at its old height |
| Keys.WaitkeyRecordsIff | src/getkey.c:125-149 | the key read is the one recorded last; reading a key and putting it back leaves the recorded keys alone if and only if there was a key, and aborts if and only if there was none and none is recorded |
| Terminals.Terminal.GetChar | src/term_curses.c:371-399 | the top of the buffer, or else the next code from the terminal |
| Terminals.Terminal.TermGetkey | src/term_curses.c:401-408 | the first code that is no escape, with the meta bit when there was an escape before it, from buffer and terminal alike |
| Terminals.Terminal.TermUngetkey | src/term_curses.c:419-425 | the codes of the key go on the buffer, last one first |
| Terminals.Terminal.ProcessKeys | src/macro.c:128-140 | the keys read until the buffer is back at its old height are those of the macro, in order |
| Terminals.Recorder.AddKey | src/getkey.c:68-77 | a key is recorded, the absence of one is not |
| Terminals.Recorder.RemoveKey | src/macro.c:78-83 | the key recorded last goes |
| Terminals.Recorder.AddCmd | src/macro.c:60-67 | the keys of the command are appended to the macro, in order |
| Completion.SortedAddKeeps | src/completion.c:273-283 | adding a match keeps the list in order |
| Completion.Collect | src/completion.c:273-283 | the matches are exactly the candidates that start with what was typed, in order, and full matches are counted |
| Completion.CommonPrefix | src/completion.c:304-318 | the loops stop at the longest common prefix, and run past the terminators if and only if all matches are equal |
| Completion.CompletionTry | src/completion.c:247-318 | which answer is given when, with the match and its size; a full match is the first in order |
| Completion.NeverOverruns | src/completion.c:304-318 | with distinct candidates nothing is read past a terminator |
| Tiling.SplitShares | src/window.c:78-102 | splitting shares the lines evenly and moves no other window |
| Tiling.EnlargeTakes | src/window.c:144-168 | from which window the line is taken, and exactly when there is none |
| Tiling.DeleteAt | src/window.c:104-128 | the window before, or after the first, gets all the lines, and is selected, and the others keep theirs |
| Tiling.RunKeeps | src/window.c:78-217 | through any run of commands the heights add up to the screen and every window has two lines |
| Tiling.SplitThenDelete | src/window.c:78-128 | deleting the window a split made puts everything back |
| Tiling.EnlargeThenShrinkIff | src/window.c:144-191 | shrinking after enlarging puts everything back if and only if the line came from the window it is given to |
| Tiling.ShrinkGives | src/window.c:171-191 | the next window gets the line, or the one before the last, and when nothing happens |
| Tiling.OthersVisitAll | src/window.c:219-226 | as many moves as there are windows select each of them once and come back |
| Windows.Window.Recenter | src/redisplay.c:88-97 | point's line is put at most half-way down |
| Windows.Screen.SplitWindow | src/window.c:78-102 | the list with the new window in it, the heights, and that the window split still shows its point |
| Windows.Screen.DeleteWindow | src/window.c:104-128 | the list without that window, still unbroken, the heir taller and selected |
| Windows.Screen.DeleteSelected | src/window.c:130-141 | the command fails exactly on the last window left, and otherwise does this to the selected one |
| Windows.Screen.EnlargeWindow | src/window.c:144-168 | the heights after it, and exactly when it fails |
| Windows.Screen.ShrinkWindow | src/window.c:171-191 | the heights after it, and exactly when it fails |
| Windows.Screen.OtherWindow | src/window.c:219-226 | the selection moves on, from the last window to the first |
| Windows.Screen.DeleteOtherWindows | src/window.c:207-217 | one window is left with every line, the first or the second, and it is the selected one if and only if that was one of these two |
| Views.Selection.SetCurrentWindow | src/window.c:56-76 | the window left keeps its point on a marker, and the one selected takes up its own |
| Views.Selection.SelectAndReturn | src/window.c:56-76 | selecting another window and this one again restores point, even on the same buffer |
| Motion.ForwardIs | src/buffer.c:723-745 | a step forward is a byte or a whole end-of-line, never into one, and the step back undoes it |
| Motion.BackwardIs | src/buffer.c:723-745 | and the other way round |
| Motion.MoveCharBack | src/buffer.c:723-745 | moving n characters and back is the identity on point when the first succeeds |
| Motion.StepsStopAtEnd | src/buffer.c:723-745 | and otherwise point stops at that end of the buffer |
| Motion.MoveCharIs | src/buffer.c:723-745 | a positive number moves point forward and a negative one back, a failing move stops at that end, and one character is a byte or a whole end-of-line |
| Motion.HopLands | src/buffer.c:769-795 | n line steps end on the nearest line to the one asked for, and all succeed exactly when it exists |
| Moves.BeginningOfLine | src/basic.c:34-40 | point at the start of its line, goal column 0 |
| Moves.EndOfLineCommand | src/basic.c:42-48 | point at the end of its line, goal column as far right as there is |
| Moves.MoveChar | src/buffer.c:723-745 | the command on the buffer object moves as Motion.MoveCharIs says |
| Moves.MoveWord | src/funcs.c:368-384 | either way over exactly the next word to its far end, lines crossed on the way; without one point is at that end of the buffer and nothing of a word was passed |
| Moves.OffsetToLine | src/buffer.c:797-804 | it ends, with the number of ends-of-line that start before the offset |
| Moves.GotoGoalc | src/buffer.c:750-767 | point at the goal column of its line, or at its end |
| Moves.MoveLine | src/buffer.c:769-795 | the line arrived at, the column on it, the goal column kept or taken, and exactly when it reports success |
| Moves.GotoLine | src/basic.c:131-150 | point at the start of that line or of the nearest there is |
| Spacing.BlankSplice | src/line.c:217-240 | trading white space for white space keeps everything else, in order |
| Spacing.ShiftIsAdjust | src/buffer.c:178-181 | where no mark wraps, marks move as the marker loop moves them |
| Spacing.DeleteHorizontalSpace | src/line.c:217-230 | all the blanks around point on its line go, and nothing else; in a read-only buffer point only goes back over the blanks |
| Spacing.JustOneSpace | src/line.c:232-240 | they become one space |
| Spacing.SpaceEndsIff | src/line.c:217-230 | the two loops end if and only if the buffer may be written or no blank follows point on its line |
| Spacing.ReadOnlyBlankHangs | src/line.c:217-230 | so they do not before the blank of a read-only "a b" |
| Fill.FillPoint | src/line.c:95-98 | the last place up to point, on its line, that is at most one past the fill column |
| Fill.BackToFill | src/line.c:95-98 | moving back a character at a time arrives there |
| Fill.Chosen | src/line.c:100-120 | the right-most blank before that place, else the left-most after it but for the line's last byte, else there is none |
| Fill.FindBreak | src/line.c:100-120 | the two loops find that blank |
| Fill.ChoiceIsDocumentedIff | src/line.c:74-79 | the blank chosen is the right-most at or before the fill column, or else the left-most after it, if and only if no tab with a blank before it lies across the fill column and the only blank is not the line's last byte |
| Fill.TabAcrossAt3 | src/line.c:95-108 | a line with such a tab |
| Fill.BlankLastAt1 | src/line.c:110-120 | a line with such a blank |
| Fill.FillBreakLine | src/line.c:81-137 | a break is reported exactly when point is beyond the fill column and a blank is found; all the blanks around it on its line give way to one end-of-line and point stays with its text, or nothing changes |
| Fill.BreakProgress | src/funcs.c:805-808 | each break leaves point at a line end, nearer to the start of its line |
| Fill.FirstPartFits | src/line.c:100-137 | the line before a break is no wider than the fill column, or has no blank |
| Fill.BreakKeepsFit | src/funcs.c:805-808 | and so is every line broken off before it |
| Joining.JoinLine | src/funcs.c:797-802 | one end-of-line and all the blanks about it become one space, every mark stays with its text, and fewer line ends are left before every later mark |
| Joining.JoinLines | src/funcs.c:797-802 | the joining loop ends with no line end between point and the mark; every stretch of blanks taken held an end-of-line and is one space now, and nothing else changed |
| Paragraphs.ChoiceIsBreak | src/line.c:81-137 | a line too wide is broken at a whole stretch of blanks, so that what comes before it fits or has no blank, and would not fit with the next word, unless a tab follows that |
| Paragraphs.BreakLines | src/funcs.c:804-808 | the breaking loop ends with a last line that fits or cannot be broken; each of the stretches broken at, left to right, is one of these and is an end-of-line now, and nothing else changed |
| Paragraphs.FillParagraph | src/funcs.c:779-815 | filling ends, aborts nowhere, joins the lines of the paragraph and no others, breaks the line they make only at such stretches and until the last line fits or cannot be broken; the text before and after is as it was, and point and every mark keep the same characters before them, white space apart |
| Paragraphs.FilledToOneLine | src/funcs.c:804-808 | a paragraph that fits becomes one line |
| Paragraphs.RestUnchangedIff | src/funcs.c:804-808 | the text after the paragraph is as it was if and only if no blanks at its very end gave way, which takes a line wider than the fill column that ends in a blank |
| Paragraphs.BlankEndAt1 | src/line.c:122-132 | a line whose blanks at the end become an end-of-line |
| Paragraphs.ReadOnlyFillEndsIff | src/funcs.c:797-808 | in a read-only buffer it ends if and only if the paragraph is one line that needs no break |
| Paragraphs.ReadOnlyFillHangs | src/funcs.c:797-802 | so it does not on two lines |

## Left out

- Scheme glue, variable look-up, minibuffer prompts, help and redisplay: tab width, fill column and the blank test of the C locale are parameters or definitions here.
- Reading and writing files: a load and a save are the flag and undo resets they make; the path functions are not modelled.
- Regular-expression search, s-expression motion, transposition, changing case, registers, shell commands.
- Parsing and describing key names; a walk reports key codes, not their names.
- Handling of screen resizes, by `getch` and by the window list, and re-synchronising a window with its point.
- Running out of memory, garbage collection, and aliasing of string views: a view is a sequence slice.
- Sizes above the range of `size_t`, except where a sum or difference is said to wrap.
- Reverting.RevertActionIs: is about a buffer that records undo and may be written; for one that is read-only the undo command does nothing.
- Undoing.WalkBack: point in between is wherever the records put it; only the text is claimed, and point after a group.
- Runs.StepIs: turning recording or writability on and off is not a step.
- Eol.EstrLen: counts without wrap-around; Eol.EstrLenIsExact says why the macro's unsigned arithmetic gives the same.
- Buffers.Buffer.Undo: the goal column is kept by the object but is not part of what the undo machine promises.
- Buffers.Buffer.MarkSaved: the write to disk itself, and the name and the temporary and no-save flags that a save also sets.
- Markers.MarkRing.PopMark: that the buffer of the marker saved last has not been killed since, which is a null dereference, is asked of the caller.
- KillRings.DeleteChar: for a buffer whose gap holds no byte of an end-of-line and whose point splits no CRLF, so that the line functions see the text. Deactivating the mark is not modelled.
- KillRings.KillLine: likewise. Remembering the last command is not modelled.
- KillRings.KillRing.Push: when the ring is emptied, which depends on the command before.
- KillRings.Yank: the mark that yank sets first.
- Moves.BeginningOfLine: for a buffer whose gap holds no byte of an end-of-line and whose point splits no CRLF, as all of Moves.
- Moves.EndOfLineCommand: likewise.
- Moves.MoveChar: likewise.
- Moves.MoveWord: likewise.
- Moves.OffsetToLine: likewise.
- Moves.GotoGoalc: likewise.
- Moves.MoveLine: likewise.
- Moves.GotoLine: likewise.
- Bindings.BindKeyVec: the vector is a sequence with its capacity beside it, not a block of memory that moves.
- Bindings.Walker.Walk: reports key codes, not their descriptions.
- Terminals.Terminal.GetChar: a resize of the screen, after which the terminal is read again.
- Terminals.Terminal.TermGetkey: needs the terminal not to send escapes for ever. Curses key codes are names, not numbers.
- Terminals.Terminal.ProcessKeys: the commands a macro runs are represented by how they read their keys, not by what they do; the two sequence marks around them are steps of Session.
- Completion.CompletionTry: reading a directory and popping up the list.
- Windows.Window.Recenter: the line of the window's point is a parameter.
- Windows.Screen.SplitWindow: the marker that keeps the new window's point; points are in Views.
- Windows.Screen.DeleteWindow: selects the heir, without the saving and taking up of points, which is in Views.
- Windows.Screen.DeleteSelected: likewise.
- Windows.Screen.OtherWindow: likewise.
- Views.Selection.SetCurrentWindow: the list of windows is left out here.
- Fill.ChoiceIsDocumentedIff: for a point that splits no CRLF; between the two bytes of one there is no telling which line is meant.
- Joining.JoinLines: a mark inside an end-of-line at the very start of the buffer, which would wrap, is excluded when that end-of-line is joined.
- Paragraphs.FillParagraph: the paragraph's bounds are given, any two places; undo records and the gap are those of the replaces it makes and are not repeated here. It is over plain text, since deleting a blank may bring a stray carriage-return and a line-feed together around point. A word followed by a tab may be put on the next line though it would have fitted, as Fill.ChoiceIsDocumentedIff says of one break.
