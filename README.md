# VsVim normal-mode operations, modelled in Dafny

This project models `DefaultOperations`, the engine behind VsVim's normal-mode
commands. Each operation edits the buffer shown by an editor view, moves the
view's caret, and may write a named register:

- `DeleteCharacterAtCursor` (`x`)
- `DeleteCharacterBeforeCursor` (`X`)
- `ReplaceChar` (`r`)
- `YankLines` (`yy`)
- `PasteAfter` (`p`)
- `PasteBefore` (`P`)
- `InsertLineAbove` (`O`)

The behaviour comes from the unit tests in
`VimCoreTest/Normal_DefaultOperationsTests.cs`.

## Structure

- `LineText` reads a buffer the way its snapshots do.
  - The buffer is one flat text with one abstract line-break character, `NewLine`.
  - `Lines(t)` splits the text into lines.
  - `LineNumber`, `LineStart` and `LineEnd` place an offset on its line.
  - The lemmas here say how splicing text into the buffer changes its lines.
- `LineEdits` holds the general edit lemmas:
  - replacing a piece of one line;
  - splitting a line with a break;
  - adding lines after a line;
  - adding an empty line before a line.
- `TextSnapshots` defines `Snapshot`, an immutable value holding a version and a text.
  - Its queries are `LineCount`, `GetLineFromPosition` and `GetLineFromLineNumber`.
  - `Replace` is the edit that produces the next snapshot.
  - Because snapshots are values, "the view still shows the same snapshot" is plain equality.
- `Registers` defines the `Register` class (a name and an optional value) and `RegisterValue` (a text plus `CharacterWise` or `LineWise`).
- `TextViews` defines the `TextView` class.
  - Its fields are the current snapshot, the caret offset and the caret's virtual-space columns.
  - `Replace` edits the buffer through the view and places the caret.
- `NormalModeEdits` is the specification.
  - For each operation there is a function giving the new text and caret from the old ones.
  - Lemmas say what that means for the lines: which line changes, which columns, and that no other line changes.
- `Operations` defines the `DefaultOperations` class over a `TextView`.
  - There is one method per operation.
  - Each method's postcondition ties the new snapshot, caret and register to the `NormalModeEdits` functions of the old state.
- `Scenarios` derives each test's resulting text and lines from the general lemmas, on any buffer with the test's lines.
- `DefaultOperationsTests` holds one method per test, named as the test is.
  - Each creates a `TextView` from the test's lines, a `DefaultOperations` over it and a `Register`, then makes the test's calls (`Caret.MoveTo`, the operation).
  - It returns what the test inspects: line texts, `StringValue`, the register's kind, the caret, the snapshot.
  - Its postcondition is what the test asserts. The proof combines the methods' contracts with the `Scenarios` lemmas.

## Model

| member | source | states |
|---|---|---|
| LineText.LinesOfJoin | VimCoreTest/Normal_DefaultOperationsTests.cs:25-45 | A buffer created from break-free lines, joined with breaks, has exactly those lines. |
| LineText.JoinOfLines | VimCoreTest/Normal_DefaultOperationsTests.cs:25-45 | Joining the lines of any text with breaks gives that text back (the inverse of `LinesOfJoin`). |
| LineText.CountOfLines | VimCoreTest/Normal_DefaultOperationsTests.cs:137-141 | A text has one more line than it has line breaks. |
| LineText.LinesOfAppend | VimCoreTest/Normal_DefaultOperationsTests.cs:133-155 | The lines of `a`, a break and `b` are the lines of `a` followed by those of `b`. |
| LineText.LineAt | VimCoreTest/Normal_DefaultOperationsTests.cs:53 | The line holding an offset is the text from its line start to its line end. It has the offset's line number, and the lines before and after it are those of the text before and after it. |
| LineText.LastLine | VimCoreTest/Normal_DefaultOperationsTests.cs:206-213 | An offset's line reaches the end of the buffer exactly when it is the last line. |
| TextSnapshots.Snapshot.LineCount | VimCoreTest/Normal_DefaultOperationsTests.cs:137-141 | `LineCount` is one more than the number of breaks. |
| TextSnapshots.Snapshot.GetLineFromPosition | VimCoreTest/Normal_DefaultOperationsTests.cs:318-322 | The containing line of an offset: its number and its bounds around the offset. Its text is that line of `Lines`. Its break is present exactly when it is not the last line. |
| TextSnapshots.Snapshot.GetLineFromLineNumber | VimCoreTest/Normal_DefaultOperationsTests.cs:53 | Line `n`: its text (`GetText`) is `Lines(text)[n]`. `EndIncludingLineBreak` is one past the break, or the buffer end on the last line. |
| TextSnapshots.Snapshot.SpanOfLines | VimCoreTest/Normal_DefaultOperationsTests.cs:184-196 | The span from the start of line `a` to `EndIncludingLineBreak` of line `b` is lines `a..b`, each followed by its break. The last line's break is missing from the span. |
| TextSnapshots.Snapshot.GetLineText | VimCoreTest/Normal_DefaultOperationsTests.cs:53 | `GetLineFromLineNumber(n).GetText()` is the `n`th line the text splits into. |
| TextSnapshots.Snapshot.Replace | VimCoreTest/Normal_DefaultOperationsTests.cs:157-164 | An edit yields a snapshot with the next version. It keeps the text before and after the replaced span and puts the replacement between them. |
| Registers.Register.constructor | VimCoreTest/Normal_DefaultOperationsTests.cs:51 | A new register has its name and holds nothing. |
| Registers.Register.UpdateValue | VimCoreTest/Normal_DefaultOperationsTests.cs:52-55 | Writing a register replaces its value with the given text and kind. |
| TextViews.TextView.constructor | VimCoreTest/Normal_DefaultOperationsTests.cs:25-45 | A view created from lines shows a buffer with exactly those lines, version 0, with the caret at offset 0 in real space. |
| TextViews.TextView.CaretLine | VimCoreTest/Normal_DefaultOperationsTests.cs:318-322 | The caret's containing line has the caret's line number, and its text is that line. |
| TextViews.TextView.MoveCaretTo | VimCoreTest/Normal_DefaultOperationsTests.cs:82 | `Caret.MoveTo` puts the caret at the offset, in real space, and leaves the snapshot alone. |
| TextViews.TextView.IsInVirtualSpace | VimCoreTest/Normal_DefaultOperationsTests.cs:305-313 | `VirtualBufferPosition.IsInVirtualSpace`: a caret in virtual space is at the end of its line. |
| TextViews.TextView.Replace | VimCoreTest/Normal_DefaultOperationsTests.cs:157-164 | The view shows the replaced snapshot. The caret is at the requested offset, in real space. |
| NormalModeEdits.DeleteAtCursorDeleted | VimCoreTest/Normal_DefaultOperationsTests.cs:47-77 | `x` deletes the smaller of `count` and what the caret's line holds from the caret's column on. The deleted text is those columns of the line. |
| NormalModeEdits.DeleteAtCursorLines | VimCoreTest/Normal_DefaultOperationsTests.cs:47-77 | After `x` the caret's line loses exactly those columns, and every other line is kept. |
| NormalModeEdits.DeleteBeforeCursorDeleted | VimCoreTest/Normal_DefaultOperationsTests.cs:78-116 | `X` deletes nothing exactly when `count` is 0 or the caret is at column 0. What it deletes are the columns just before the caret on its line. |
| NormalModeEdits.DeleteBeforeCursorLines | VimCoreTest/Normal_DefaultOperationsTests.cs:78-116 | After `X` the caret's line loses those columns, the deletion never reaches before the line's start, and every other line is kept. |
| NormalModeEdits.ReplaceCharFitsLine | VimCoreTest/Normal_DefaultOperationsTests.cs:157-164 | `ReplaceChar` can edit exactly when caret column plus `count` is at most the line's length. |
| NormalModeEdits.ReplaceCharLiteralLines | VimCoreTest/Normal_DefaultOperationsTests.cs:117-131 | A literal `ReplaceChar` overwrites columns `col..col+count` of the caret's line with `count` copies of the character, and every other line is kept. |
| NormalModeEdits.ReplaceCharLiteralShape | VimCoreTest/Normal_DefaultOperationsTests.cs:117-131 | A literal `ReplaceChar` keeps the number of lines and the length of every line. |
| NormalModeEdits.ReplaceCharBreakLines | VimCoreTest/Normal_DefaultOperationsTests.cs:133-155 | A line-break `ReplaceChar` replaces the caret's line by two lines: its columns before the caret, and its columns after the `count` replaced ones. |
| NormalModeEdits.YankEnd | VimCoreTest/Normal_DefaultOperationsTests.cs:174-196 | The yanked lines start at the caret's line, and with `count >= 1` there is at least one. They never run past the buffer's last line. |
| NormalModeEdits.YankedLines | VimCoreTest/Normal_DefaultOperationsTests.cs:174-196 | Yanked text ends with a break. Without that break it is the yanked lines joined by breaks. |
| NormalModeEdits.PastePointColumn | VimCoreTest/Normal_DefaultOperationsTests.cs:198-268 | A character-wise `p` inserts one column right of the caret, or at the caret when the caret is at the end of its line. |
| NormalModeEdits.PasteAfterCharLines | VimCoreTest/Normal_DefaultOperationsTests.cs:198-222 | A character-wise `p` of break-free text puts `count` copies into the caret's line at the paste point, and every other line is kept. |
| NormalModeEdits.PasteAfterCharCaret | VimCoreTest/Normal_DefaultOperationsTests.cs:252-259 | With `moveCaret`, the pasted copies lie exactly between the paste point and the new caret. |
| NormalModeEdits.PasteAfterLineLines | VimCoreTest/Normal_DefaultOperationsTests.cs:224-232 | A line-wise `p` puts the pasted lines right after the caret's line, even when it is the last line, and keeps all other lines in order. With nothing to paste the text is unchanged. |
| NormalModeEdits.PasteAfterLineCaret | VimCoreTest/Normal_DefaultOperationsTests.cs:234-242 | After a line-wise `p` the caret is at the start of the line after the caret's old line. With nothing to paste it stays. |
| NormalModeEdits.PasteBeforeLines | VimCoreTest/Normal_DefaultOperationsTests.cs:270-303 | `P` of break-free text puts `count` copies into the caret's line at the caret's column, and every other line is kept. |
| NormalModeEdits.PasteBeforeCaretAfterText | VimCoreTest/Normal_DefaultOperationsTests.cs:287-294 | With `moveCaret`, the pasted copies lie exactly between the old caret and the new one. |
| NormalModeEdits.InsertLineAboveLines | VimCoreTest/Normal_DefaultOperationsTests.cs:305-324 | `O` puts an empty line at the caret's line number and keeps every line before and after it. |
| NormalModeEdits.InsertLineAboveCaret | VimCoreTest/Normal_DefaultOperationsTests.cs:315-324 | After `O` the caret, at the old line's start, is on the new empty line, which has the caret's old line number. |
| NormalModeEdits.YankThenPasteDuplicatesLine | VimCoreTest/Normal_DefaultOperationsTests.cs:174-232 | Yanking the caret's line and pasting it line-wise puts a copy of that line right after it. |
| Operations.YankedTextIsSpan | VimCoreTest/Normal_DefaultOperationsTests.cs:184-196 | The text `YankLines` stores is the snapshot span from the caret line's `Start` to the last copied line's `EndIncludingLineBreak`, plus one break when that line is the buffer's last. |
| Operations.DefaultOperations.constructor | VimCoreTest/Normal_DefaultOperationsTests.cs:25-45 | The operations work on the given view. |
| Operations.DefaultOperations.DeleteCharacterAtCursor | VimCoreTest/Normal_DefaultOperationsTests.cs:47-77 | The new text is `x`'s function of the old one, and the caret keeps its offset. With something deleted: the next snapshot, and the register holds exactly the deleted text, character-wise. With nothing to delete: same snapshot, register untouched. |
| Operations.DefaultOperations.DeleteCharacterBeforeCursor | VimCoreTest/Normal_DefaultOperationsTests.cs:78-116 | The new text is `X`'s function of the old one, and the caret moves back by the deleted count. The register holds exactly the deleted text, character-wise. At column 0: same snapshot, register untouched. |
| Operations.DefaultOperations.ReplaceChar | VimCoreTest/Normal_DefaultOperationsTests.cs:117-172 | Returns true exactly when the characters fit on the caret's line. Then the next snapshot holds the replaced text. Otherwise the very same snapshot stays. The caret never moves. |
| Operations.DefaultOperations.YankLines | VimCoreTest/Normal_DefaultOperationsTests.cs:174-196 | The register holds the yanked lines, each with its break, line-wise. The value is well formed. |
| Operations.DefaultOperations.PasteAfter | VimCoreTest/Normal_DefaultOperationsTests.cs:198-268 | The next snapshot holds `p`'s text, and the caret is `p`'s caret, in real space. |
| Operations.DefaultOperations.PasteBefore | VimCoreTest/Normal_DefaultOperationsTests.cs:270-303 | The next snapshot holds `P`'s text, and the caret is `P`'s caret, in real space. |
| Operations.DefaultOperations.InsertLineAbove | VimCoreTest/Normal_DefaultOperationsTests.cs:305-324 | The next snapshot has an empty line in front of the caret's line. The caret is at that line's start, not in virtual space. |
| Scenarios.DeleteAtCursorOne | VimCoreTest/Normal_DefaultOperationsTests.cs:47-66 | On "foo","bar" at offset 0, `x` with count 1 deletes one character, "f". |
| Scenarios.DeleteAtCursorOneLines | VimCoreTest/Normal_DefaultOperationsTests.cs:47-66 | ...and the lines become "oo","bar". |
| Scenarios.DeleteAtCursorTwo | VimCoreTest/Normal_DefaultOperationsTests.cs:68-77 | On "foo","bar" at offset 0, `x` with count 2 deletes "fo". |
| Scenarios.DeleteAtCursorTwoLines | VimCoreTest/Normal_DefaultOperationsTests.cs:68-77 | ...and the lines become "o","bar". |
| Scenarios.DeleteBeforeCursorOne | VimCoreTest/Normal_DefaultOperationsTests.cs:78-87 | On "foo" at offset 1, `X` with count 1 deletes "f". |
| Scenarios.DeleteBeforeCursorOneLines | VimCoreTest/Normal_DefaultOperationsTests.cs:78-87 | ...and the line becomes "oo". |
| Scenarios.DeleteBeforeCursorLineStart | VimCoreTest/Normal_DefaultOperationsTests.cs:89-97 | On "foo","bar" at the start of line 1, `X` deletes nothing and the text is unchanged. |
| Scenarios.DeleteBeforeCursorTwo | VimCoreTest/Normal_DefaultOperationsTests.cs:99-108 | On "foo","bar" at offset 2, `X` with count 2 deletes "fo". |
| Scenarios.DeleteBeforeCursorTwoLines | VimCoreTest/Normal_DefaultOperationsTests.cs:99-108 | ...and the lines become "o","bar". |
| Scenarios.DeleteBeforeCursorColumnZero | VimCoreTest/Normal_DefaultOperationsTests.cs:110-116 | On "foo" at offset 0, `X` with count 2 deletes nothing and the text is unchanged. |
| Scenarios.ReplaceCharOnce | VimCoreTest/Normal_DefaultOperationsTests.cs:117-123 | On "foo", `r b` fits and gives "boo". |
| Scenarios.ReplaceCharTwice | VimCoreTest/Normal_DefaultOperationsTests.cs:125-131 | On "foo", `2r b` fits and gives "bbo". |
| Scenarios.ReplaceCharBreakFoo | VimCoreTest/Normal_DefaultOperationsTests.cs:133-143 | On "foo" at offset 1, a line-feed replace gives the two lines "f","o". |
| Scenarios.ReplaceCharBreakFood | VimCoreTest/Normal_DefaultOperationsTests.cs:145-155 | On "food" at offset 1, an Enter replace with count 2 fits and gives the two lines "f","d". |
| Scenarios.ReplaceCharTooMany | VimCoreTest/Normal_DefaultOperationsTests.cs:157-164 | On "food", a replace with count 200 does not fit. |
| Scenarios.YankOneLine | VimCoreTest/Normal_DefaultOperationsTests.cs:174-182 | On "foo","bar", `yy` stores "foo" and a break. |
| Scenarios.YankTwoLines | VimCoreTest/Normal_DefaultOperationsTests.cs:184-196 | On "foo","bar","jazz", `2yy` stores "foo", a break, "bar", a break. |
| Scenarios.PasteAfterInLine | VimCoreTest/Normal_DefaultOperationsTests.cs:198-204 | On "foo bar", `p` of "hey" gives "fheyoo bar". |
| Scenarios.PasteAfterEndOfBuffer | VimCoreTest/Normal_DefaultOperationsTests.cs:206-213 | On "foo","bar" at the buffer's end, `p` of "hello" makes line 1 "barhello". |
| Scenarios.PasteAfterEmptyLastLine | VimCoreTest/Normal_DefaultOperationsTests.cs:215-222 | On "foo","" at the buffer's end, `p` of "bar" makes line 1 "bar". |
| Scenarios.PasteAfterLineWise | VimCoreTest/Normal_DefaultOperationsTests.cs:224-242 | On "foo","bar" at offset 0, a line-wise `p` of "baz" and a break gives "foo","baz","bar". The caret is at the start of line 1. |
| Scenarios.PasteAfterRepeated | VimCoreTest/Normal_DefaultOperationsTests.cs:244-250 | On "foo", `2p` of "hey" gives "fheyheyoo". |
| Scenarios.PasteAfterMovingCaret | VimCoreTest/Normal_DefaultOperationsTests.cs:252-259 | On "foo", `p` of "hey" with `moveCaret` gives "fheyoo" and the caret at 4. |
| Scenarios.PasteAfterEndOfLine | VimCoreTest/Normal_DefaultOperationsTests.cs:261-268 | On "foo","bar" at the end of line 0, `p` of "hey" makes line 0 "foohey". |
| Scenarios.PasteBeforeOnce | VimCoreTest/Normal_DefaultOperationsTests.cs:270-294 | On "foo", `P` of "hey" gives "heyfoo". With `moveCaret` the caret is at 3. |
| Scenarios.PasteBeforeTwice | VimCoreTest/Normal_DefaultOperationsTests.cs:278-284 | On "foo", `2P` of "hey" gives "heyheyfoo". |
| Scenarios.PasteBeforeEndOfLine | VimCoreTest/Normal_DefaultOperationsTests.cs:296-303 | On "foo","bar" at the end of line 0, `P` of "hey" makes line 0 "foohey". |
| Scenarios.InsertLineAboveFirst | VimCoreTest/Normal_DefaultOperationsTests.cs:305-313 | On "foo", `O` gives "","foo" with the caret at offset 0. |
| Scenarios.InsertLineAboveSecond | VimCoreTest/Normal_DefaultOperationsTests.cs:315-324 | On "foo","bar" at the start of line 1, `O` gives "foo","","bar". The caret is on line 1, which is empty. |
| DefaultOperationsTests.DeleteCharacterAtCursor1 | VimCoreTest/Normal_DefaultOperationsTests.cs:47-55 | On "foo","bar", `x` leaves line 0 "oo" and the register's `StringValue` "f". |
| DefaultOperationsTests.DeleteCharacterAtCursor2 | VimCoreTest/Normal_DefaultOperationsTests.cs:57-66 | The same, and the register's kind is `CharacterWise`. |
| DefaultOperationsTests.DeleteCharacterAtCursor3 | VimCoreTest/Normal_DefaultOperationsTests.cs:68-77 | With count 2: line 0 "o", `StringValue` "fo", `CharacterWise`. |
| DefaultOperationsTests.DeleteCharacterBeforeCursor1 | VimCoreTest/Normal_DefaultOperationsTests.cs:78-87 | On "foo" with the caret moved to 1, `X` leaves "oo" and `StringValue` "f". |
| DefaultOperationsTests.DeleteCharacterBeforeCursor2 | VimCoreTest/Normal_DefaultOperationsTests.cs:89-97 | On "foo","bar" with the caret moved to line 1's `Start`, `X` keeps "bar" and "foo". |
| DefaultOperationsTests.DeleteCharacterBeforeCursor3 | VimCoreTest/Normal_DefaultOperationsTests.cs:99-108 | With the caret at line 0's `Start` plus 2, `X` with count 2 leaves "o" and `StringValue` "fo". |
| DefaultOperationsTests.DeleteCharacterBeforeCursor4 | VimCoreTest/Normal_DefaultOperationsTests.cs:110-116 | On "foo" at offset 0, `X` with count 2 keeps "foo". |
| DefaultOperationsTests.ReplaceChar1 | VimCoreTest/Normal_DefaultOperationsTests.cs:117-123 | On "foo", replacing with 'b' once gives "boo". |
| DefaultOperationsTests.ReplaceChar2 | VimCoreTest/Normal_DefaultOperationsTests.cs:125-131 | On "foo", replacing with 'b' twice gives "bbo". |
| DefaultOperationsTests.ReplaceChar3 | VimCoreTest/Normal_DefaultOperationsTests.cs:133-143 | On "foo" at offset 1, a LineFeed replace gives `LineCount` 2 and lines "f","o". |
| DefaultOperationsTests.ReplaceChar4 | VimCoreTest/Normal_DefaultOperationsTests.cs:145-155 | On "food" at offset 1, an Enter replace with count 2 returns true and gives lines "f","d". |
| DefaultOperationsTests.ReplaceChar5 | VimCoreTest/Normal_DefaultOperationsTests.cs:157-164 | On "food", a replace with count 200 returns false and the view keeps the very snapshot it had. |
| DefaultOperationsTests.ReplaceChar6 | VimCoreTest/Normal_DefaultOperationsTests.cs:166-172 | A replace that succeeds leaves the caret at offset 0. |
| DefaultOperationsTests.YankLines1 | VimCoreTest/Normal_DefaultOperationsTests.cs:174-182 | On "foo","bar", `yy` stores "foo" and a break, `LineWise`. |
| DefaultOperationsTests.YankLines2 | VimCoreTest/Normal_DefaultOperationsTests.cs:184-196 | On "foo","bar","jazz", `2yy` stores exactly the span from line 0's `Start` to line 1's `EndIncludingLineBreak`, `LineWise`. |
| DefaultOperationsTests.PasteAfter1 | VimCoreTest/Normal_DefaultOperationsTests.cs:198-204 | On "foo bar", `p` of "hey" gives line 0 "fheyoo bar". |
| DefaultOperationsTests.PasteAfter2 | VimCoreTest/Normal_DefaultOperationsTests.cs:206-213 | On "foo","bar" with the caret at the buffer's end point, `p` of "hello" gives line 1 "barhello". |
| DefaultOperationsTests.PasteAfter3 | VimCoreTest/Normal_DefaultOperationsTests.cs:215-222 | On "foo","" with the caret at the end point, `p` of "bar" gives line 1 "bar". |
| DefaultOperationsTests.PasteAfter4 | VimCoreTest/Normal_DefaultOperationsTests.cs:224-232 | A line-wise `p` of "baz" and a break at offset 0 keeps line 0 "foo" and gives line 1 "baz". |
| DefaultOperationsTests.PasteAfter7 | VimCoreTest/Normal_DefaultOperationsTests.cs:234-242 | After that paste the caret is at line 1's `Start`. |
| DefaultOperationsTests.PasteAfter8 | VimCoreTest/Normal_DefaultOperationsTests.cs:244-250 | On "foo", `p` of "hey" with count 2 gives "fheyheyoo". |
| DefaultOperationsTests.PasteAfter9 | VimCoreTest/Normal_DefaultOperationsTests.cs:252-259 | With `moveCaret`, `p` of "hey" gives "fheyoo" and the caret at 4. |
| DefaultOperationsTests.PasteAfter10 | VimCoreTest/Normal_DefaultOperationsTests.cs:261-268 | With the caret at line 0's `End`, `p` of "hey" gives line 0 "foohey". |
| DefaultOperationsTests.PasteBefore1 | VimCoreTest/Normal_DefaultOperationsTests.cs:270-276 | On "foo", `P` of "hey" gives "heyfoo". |
| DefaultOperationsTests.PasteBefore2 | VimCoreTest/Normal_DefaultOperationsTests.cs:278-284 | With count 2, "heyheyfoo". |
| DefaultOperationsTests.PasteBefore3 | VimCoreTest/Normal_DefaultOperationsTests.cs:287-294 | With `moveCaret`, "heyfoo" and the caret at 3. |
| DefaultOperationsTests.PasteBefore4 | VimCoreTest/Normal_DefaultOperationsTests.cs:296-303 | With the caret at line 0's `End`, `P` of "hey" gives line 0 "foohey". |
| DefaultOperationsTests.InsertLiveAbove1 | VimCoreTest/Normal_DefaultOperationsTests.cs:305-313 | On "foo", `O` leaves the caret in real space at offset 0. |
| DefaultOperationsTests.InsertLineAbove2 | VimCoreTest/Normal_DefaultOperationsTests.cs:315-324 | On "foo","bar" with the caret at line 1's `Start`, `O` leaves the caret's containing line numbered 1 and empty. |

## Left out

- The implementation of `DefaultOperations` is not part of this model. The operations are modelled on what the tests assert, with the following choices where the tests say nothing:
  - `x` clamps `count` at the end of the caret's line;
  - `ReplaceChar` refuses a `count` that runs past the line's end;
  - the caret moves with the text as described in the Model table.
- The test harness (`EditorUtil.CreateViewAndOperations`, `EditorUtil.CreateView`, NUnit, Moq) and the `IEditorOperations` host are left out. They are replaced by the `TextView` constructor, which builds a buffer from lines.
- Key translation (`InputUtil.CharToKeyInput`, `InputUtil.KeyToKeyInput`) is left out. The key is the two-case `KeyInput`: a character, or a line-break key (Enter or LineFeed).
- `Environment.NewLine` is one abstract break character, `NewLine`. A two-character "\r\n" break, with the offsets it would shift, is not modelled.
- Undo, redo, rendering and the editor's outlining are left out: no test exercises them.
- Register names are kept, but the register map and register selection are not modelled: each operation gets its register as an argument.
- Operations.DefaultOperations.YankLines: requires `count >= 1`, which every caller passes. With 0 it would store an empty line-wise text that is not well formed.
- Operations.DefaultOperations.PasteAfter: a line-wise paste of text that does not end with a break pastes it as is. The model does not say how the original treats such text.
- Operations.DefaultOperations.PasteAfter: a paste of nothing (`count` 0, or the empty text) still counts as an edit and yields a new snapshot version with the same text. A line-wise paste of nothing adds no line and leaves the caret where it was.
- Operations.DefaultOperations.PasteAfter: a line-wise paste goes in at the end of the caret's line as a break followed by the pasted text without its final break. This gives the same lines whether or not the caret's line is the buffer's last, which has no break after it. The tests only cover a line that is not the last one.
- Operations.DefaultOperations.ReplaceChar: after a line-break replace the caret keeps its offset. That offset is now the new break itself, at the end of the first of the two lines. The test asserts only the caret after a literal replace.
- Operations.DefaultOperations.ReplaceChar: with `count` 0 it returns true. A literal replace then yields a new version with the same text. A line-break replace splits the line at the caret without consuming a character.
- Virtual space is one number, the columns past the line's end. No modelled operation puts the caret there; the view's rendering of those columns is not modelled.
- A literal `ReplaceChar` key is a `Literal`, any character but the break. The break character comes from Enter or LineFeed, which are `LineBreak`.
