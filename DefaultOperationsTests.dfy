/** The operations' unit tests, run against the classes: each method
    creates a view from the test's lines, a `DefaultOperations` over it and
    a register, performs the test's calls, and returns what the test
    inspects; its postcondition is what the test asserts. The outcomes
    follow from the methods' contracts and the scenario lemmas. */
module DefaultOperationsTests {
  import opened LineText
  import opened TextSnapshots
  import opened Registers
  import opened TextViews
  import opened NormalModeEdits
  import opened Operations
  import opened Scenarios

  /** Line 0 of a snapshot starts at offset 0 and ends at the length of
      its text. */
  lemma FirstLineBounds(s: Snapshot)
    ensures 0 < s.LineCount()
    ensures s.GetLineFromLineNumber(0).start == 0
    ensures s.GetLineFromLineNumber(0).end == |Lines(s.text)[0]|
  {
    OnFirstLine(s.text, 0);
  }

  /** Line 1 of a snapshot starts just past line 0's break. */
  lemma SecondLineStart(s: Snapshot)
    requires |Lines(s.text)| >= 2
    ensures 1 < s.LineCount()
    ensures s.GetLineFromLineNumber(1).start == |Lines(s.text)[0]| + 1
  {
    var p := |Lines(s.text)[0]| + 1;
    OnSecondLine(s.text, p);
    s.LineOfPosition(p);
  }

  /** A text of two lines is as long as both and the break between. */
  lemma EndOfTwoLines(t: string)
    requires |Lines(t)| == 2
    ensures |t| == |Lines(t)[0]| + 1 + |Lines(t)[1]|
  {
    var p := |Lines(t)[0]| + 1 + |Lines(t)[1]|;
    OnSecondLine(t, p);
    LastLine(t, p);
  }

  // DeleteCharacterAtCursor

  method DeleteCharacterAtCursor1() returns (line0: string, stored: string)
    ensures line0 == "oo" && stored == "f"
  {
    var view := new TextView(["foo", "bar"]);
    var ops := new DefaultOperations(view);
    var reg := new Register('c');
    DeleteAtCursorOne(view.snapshot.text);
    DeleteAtCursorOneLines(view.snapshot.text);
    ops.DeleteCharacterAtCursor(1, reg);
    line0 := view.snapshot.GetLineText(0);
    stored := reg.StringValue();
  }

  method DeleteCharacterAtCursor2() returns (line0: string, stored: string, kind: OperationKind)
    ensures line0 == "oo" && stored == "f" && kind == CharacterWise
  {
    var view := new TextView(["foo", "bar"]);
    var ops := new DefaultOperations(view);
    var reg := new Register('c');
    DeleteAtCursorOne(view.snapshot.text);
    DeleteAtCursorOneLines(view.snapshot.text);
    ops.DeleteCharacterAtCursor(1, reg);
    line0 := view.snapshot.GetLineText(0);
    stored := reg.StringValue();
    kind := reg.value.value.operationKind;
  }

  method DeleteCharacterAtCursor3() returns (line0: string, stored: string, kind: OperationKind)
    ensures line0 == "o" && stored == "fo" && kind == CharacterWise
  {
    var view := new TextView(["foo", "bar"]);
    var ops := new DefaultOperations(view);
    var reg := new Register('c');
    DeleteAtCursorTwo(view.snapshot.text);
    DeleteAtCursorTwoLines(view.snapshot.text);
    ops.DeleteCharacterAtCursor(2, reg);
    line0 := view.snapshot.GetLineText(0);
    stored := reg.StringValue();
    kind := reg.value.value.operationKind;
  }

  // DeleteCharacterBeforeCursor

  method DeleteCharacterBeforeCursor1() returns (line0: string, stored: string)
    ensures line0 == "oo" && stored == "f"
  {
    var view := new TextView(["foo"]);
    var ops := new DefaultOperations(view);
    DeleteBeforeCursorOne(view.snapshot.text);
    DeleteBeforeCursorOneLines(view.snapshot.text);
    view.MoveCaretTo(1);
    var reg := new Register('c');
    ops.DeleteCharacterBeforeCursor(1, reg);
    line0 := view.snapshot.GetLineText(0);
    stored := reg.StringValue();
  }

  method DeleteCharacterBeforeCursor2() returns (line0: string, line1: string)
    ensures line1 == "bar" && line0 == "foo"
  {
    var view := new TextView(["foo", "bar"]);
    var ops := new DefaultOperations(view);
    SecondLineStart(view.snapshot);
    DeleteBeforeCursorLineStart(view.snapshot.text);
    view.MoveCaretTo(view.snapshot.GetLineFromLineNumber(1).start);
    var reg := new Register('c');
    ops.DeleteCharacterBeforeCursor(1, reg);
    line1 := view.snapshot.GetLineText(1);
    line0 := view.snapshot.GetLineText(0);
  }

  method DeleteCharacterBeforeCursor3() returns (line0: string, stored: string)
    ensures line0 == "o" && stored == "fo"
  {
    var view := new TextView(["foo", "bar"]);
    var ops := new DefaultOperations(view);
    var t := view.snapshot.text;
    DeleteBeforeCursorTwo(t);
    DeleteBeforeCursorTwoLines(t);
    var start := view.snapshot.GetLineFromLineNumber(0).start;
    assert start == 0 by {
      FirstLineBounds(view.snapshot);
    }
    view.MoveCaretTo(start + 2);
    var reg := new Register('c');
    ops.DeleteCharacterBeforeCursor(2, reg);
    line0 := view.snapshot.GetLineText(0);
    stored := reg.StringValue();
  }

  method DeleteCharacterBeforeCursor4() returns (line0: string)
    ensures line0 == "foo"
  {
    var view := new TextView(["foo"]);
    var ops := new DefaultOperations(view);
    DeleteBeforeCursorColumnZero(view.snapshot.text);
    var reg := new Register('c');
    ops.DeleteCharacterBeforeCursor(2, reg);
    line0 := view.snapshot.GetLineText(0);
  }

  // ReplaceChar

  method ReplaceChar1() returns (line0: string)
    ensures line0 == "boo"
  {
    var view := new TextView(["foo"]);
    var ops := new DefaultOperations(view);
    ReplaceCharOnce(view.snapshot.text);
    var _ := ops.ReplaceChar(Char('b'), 1);
    line0 := view.snapshot.GetLineText(0);
  }

  method ReplaceChar2() returns (line0: string)
    ensures line0 == "bbo"
  {
    var view := new TextView(["foo"]);
    var ops := new DefaultOperations(view);
    ReplaceCharTwice(view.snapshot.text);
    var _ := ops.ReplaceChar(Char('b'), 2);
    line0 := view.snapshot.GetLineText(0);
  }

  method ReplaceChar3() returns (lineCount: nat, line0: string, line1: string)
    ensures lineCount == 2 && line0 == "f" && line1 == "o"
  {
    var view := new TextView(["foo"]);
    var ops := new DefaultOperations(view);
    ReplaceCharBreakFoo(view.snapshot.text);
    view.MoveCaretTo(1);
    var _ := ops.ReplaceChar(LineBreak, 1);
    var tss := view.snapshot;
    lineCount := tss.LineCount();
    line0 := tss.GetLineText(0);
    line1 := tss.GetLineText(1);
  }

  method ReplaceChar4() returns (ok: bool, lineCount: nat, line0: string, line1: string)
    ensures ok && lineCount == 2 && line0 == "f" && line1 == "d"
  {
    var view := new TextView(["food"]);
    var ops := new DefaultOperations(view);
    ReplaceCharBreakFood(view.snapshot.text);
    view.MoveCaretTo(1);
    ok := ops.ReplaceChar(LineBreak, 2);
    var tss := view.snapshot;
    lineCount := tss.LineCount();
    line0 := tss.GetLineText(0);
    line1 := tss.GetLineText(1);
  }

  method ReplaceChar5() returns (ok: bool, same: bool)
    ensures !ok && same
  {
    var view := new TextView(["food"]);
    var ops := new DefaultOperations(view);
    var tss := view.snapshot;
    ReplaceCharTooMany(tss.text);
    ok := ops.ReplaceChar(Char('c'), 200);
    same := tss == view.snapshot;
  }

  method ReplaceChar6() returns (ok: bool, caret: nat)
    ensures ok && caret == 0
  {
    var view := new TextView(["foo"]);
    var ops := new DefaultOperations(view);
    ReplaceCharOnce(view.snapshot.text);
    ok := ops.ReplaceChar(Char('u'), 1);
    caret := view.caret;
  }

  // YankLines

  method YankLines1() returns (stored: string, kind: OperationKind)
    ensures stored == "foo" + [NewLine] && kind == LineWise
  {
    var view := new TextView(["foo", "bar"]);
    var ops := new DefaultOperations(view);
    var reg := new Register('c');
    YankOneLine(view.snapshot.text);
    ops.YankLines(1, reg);
    stored := reg.StringValue();
    kind := reg.value.value.operationKind;
  }

  method YankLines2() returns (span: string, stored: string, kind: OperationKind)
    ensures stored == span && kind == LineWise
    ensures stored == "foo" + [NewLine] + "bar" + [NewLine]
  {
    var view := new TextView(["foo", "bar", "jazz"]);
    var ops := new DefaultOperations(view);
    var reg := new Register('c');
    YankTwoLines(view.snapshot.text);
    ops.YankLines(2, reg);
    var tss := view.snapshot;
    OnFirstLine(tss.text, 0);
    YankedTextIsSpan(tss, 0, 2);
    tss.LineOfPosition(0);
    span := tss.text[tss.GetLineFromLineNumber(0).start..tss.GetLineFromLineNumber(1).endIncludingLineBreak];
    stored := reg.StringValue();
    kind := reg.value.value.operationKind;
  }

  // PasteAfter

  method PasteAfter1() returns (line0: string)
    ensures line0 == "fheyoo bar"
  {
    var view := new TextView(["foo bar"]);
    var ops := new DefaultOperations(view);
    PasteAfterInLine(view.snapshot.text);
    ops.PasteAfter("hey", 1, CharacterWise, false);
    line0 := view.snapshot.GetLineText(0);
  }

  method PasteAfter2() returns (line1: string)
    ensures line1 == "barhello"
  {
    var view := new TextView(["foo", "bar"]);
    var ops := new DefaultOperations(view);
    EndOfTwoLines(view.snapshot.text);
    PasteAfterEndOfBuffer(view.snapshot.text);
    view.MoveCaretTo(|view.snapshot.text|);
    ops.PasteAfter("hello", 1, CharacterWise, false);
    line1 := view.snapshot.GetLineText(1);
  }

  method PasteAfter3() returns (line1: string)
    ensures line1 == "bar"
  {
    var view := new TextView(["foo", ""]);
    var ops := new DefaultOperations(view);
    EndOfTwoLines(view.snapshot.text);
    PasteAfterEmptyLastLine(view.snapshot.text);
    view.MoveCaretTo(|view.snapshot.text|);
    ops.PasteAfter("bar", 1, CharacterWise, false);
    line1 := view.snapshot.GetLineText(1);
  }

  method PasteAfter4() returns (line0: string, line1: string)
    ensures line0 == "foo" && line1 == "baz"
  {
    var view := new TextView(["foo", "bar"]);
    var ops := new DefaultOperations(view);
    PasteAfterLineWise(view.snapshot.text, false);
    view.MoveCaretTo(0);
    ops.PasteAfter("baz" + [NewLine], 1, LineWise, false);
    line0 := view.snapshot.GetLineText(0);
    line1 := view.snapshot.GetLineText(1);
  }

  method PasteAfter7() returns (pos: nat, lineStart: nat)
    ensures pos == lineStart && pos == 4
  {
    var view := new TextView(["foo", "bar"]);
    var ops := new DefaultOperations(view);
    PasteAfterLineWise(view.snapshot.text, false);
    view.MoveCaretTo(0);
    ops.PasteAfter("baz" + [NewLine], 1, LineWise, false);
    pos := view.caret;
    var tss := view.snapshot;
    tss.LineOfPosition(pos);
    SecondLineStart(tss);
    lineStart := tss.GetLineFromLineNumber(1).start;
  }

  method PasteAfter8() returns (line0: string)
    ensures line0 == "fheyheyoo"
  {
    var view := new TextView(["foo"]);
    var ops := new DefaultOperations(view);
    PasteAfterRepeated(view.snapshot.text);
    ops.PasteAfter("hey", 2, CharacterWise, false);
    line0 := view.snapshot.GetLineText(0);
  }

  method PasteAfter9() returns (line0: string, caret: nat)
    ensures line0 == "fheyoo" && caret == 4
  {
    var view := new TextView(["foo"]);
    var ops := new DefaultOperations(view);
    PasteAfterMovingCaret(view.snapshot.text);
    ops.PasteAfter("hey", 1, CharacterWise, true);
    line0 := view.snapshot.GetLineText(0);
    caret := view.caret;
  }

  method PasteAfter10() returns (line0: string)
    ensures line0 == "foohey"
  {
    var view := new TextView(["foo", "bar"]);
    var ops := new DefaultOperations(view);
    FirstLineBounds(view.snapshot);
    PasteAfterEndOfLine(view.snapshot.text);
    view.MoveCaretTo(view.snapshot.GetLineFromLineNumber(0).end);
    ops.PasteAfter("hey", 1, CharacterWise, true);
    line0 := view.snapshot.GetLineText(0);
  }

  // PasteBefore

  method PasteBefore1() returns (line0: string)
    ensures line0 == "heyfoo"
  {
    var view := new TextView(["foo"]);
    var ops := new DefaultOperations(view);
    PasteBeforeOnce(view.snapshot.text);
    ops.PasteBefore("hey", 1, false);
    line0 := view.snapshot.GetLineText(0);
  }

  method PasteBefore2() returns (line0: string)
    ensures line0 == "heyheyfoo"
  {
    var view := new TextView(["foo"]);
    var ops := new DefaultOperations(view);
    PasteBeforeTwice(view.snapshot.text);
    ops.PasteBefore("hey", 2, false);
    line0 := view.snapshot.GetLineText(0);
  }

  method PasteBefore3() returns (line0: string, caret: nat)
    ensures line0 == "heyfoo" && caret == 3
  {
    var view := new TextView(["foo"]);
    var ops := new DefaultOperations(view);
    PasteBeforeOnce(view.snapshot.text);
    ops.PasteBefore("hey", 1, true);
    line0 := view.snapshot.GetLineText(0);
    caret := view.caret;
  }

  method PasteBefore4() returns (line0: string)
    ensures line0 == "foohey"
  {
    var view := new TextView(["foo", "bar"]);
    var ops := new DefaultOperations(view);
    FirstLineBounds(view.snapshot);
    PasteBeforeEndOfLine(view.snapshot.text);
    view.MoveCaretTo(view.snapshot.GetLineFromLineNumber(0).end);
    ops.PasteBefore("hey", 1, true);
    line0 := view.snapshot.GetLineText(0);
  }

  // InsertLineAbove

  method InsertLiveAbove1() returns (inVirtualSpace: bool, pos: nat)
    ensures !inVirtualSpace && pos == 0
  {
    var view := new TextView(["foo"]);
    var ops := new DefaultOperations(view);
    InsertLineAboveFirst(view.snapshot.text);
    ops.InsertLineAbove();
    inVirtualSpace := view.IsInVirtualSpace();
    pos := view.caret;
  }

  method InsertLineAbove2() returns (lineNumber: nat, lineText: string)
    ensures lineNumber == 1 && lineText == ""
  {
    var view := new TextView(["foo", "bar"]);
    var ops := new DefaultOperations(view);
    SecondLineStart(view.snapshot);
    InsertLineAboveSecond(view.snapshot.text);
    view.MoveCaretTo(view.snapshot.GetLineFromLineNumber(1).start);
    ops.InsertLineAbove();
    var line := view.CaretLine();
    lineNumber := line.lineNumber;
    lineText := view.snapshot.text[line.start..line.end];
  }
}
