/** The normal-mode operations engine (`DefaultOperations`): each operation
    reads the view's snapshot and caret, edits the buffer through the view,
    writes a register and moves the caret. What each one does to the text
    and the caret is the matching function of `NormalModeEdits`, whose
    lemmas say what that means for the lines. */
module Operations {
  import opened LineText
  import opened TextSnapshots
  import opened Registers
  import opened TextViews
  import opened LineEdits
  import opened NormalModeEdits

  /** The text `YankLines` stores is the snapshot's span from the start of
      the caret's line to the end of the last copied line, break included,
      with a break added when that line is the last one of the buffer,
      which has none. */
  lemma YankedTextIsSpan(s: Snapshot, c: nat, count: nat)
    requires c <= |s.text| && count >= 1
    ensures YankEnd(s.text, c, count) - 1 < s.LineCount()
    ensures s.GetLineFromPosition(c).start <= s.GetLineFromLineNumber(YankEnd(s.text, c, count) - 1).endIncludingLineBreak
    ensures YankedText(s.text, c, count)
         == s.text[s.GetLineFromPosition(c).start..s.GetLineFromLineNumber(YankEnd(s.text, c, count) - 1).endIncludingLineBreak]
            + (if YankEnd(s.text, c, count) == s.LineCount() then [NewLine] else [])
  {
    var n, b := LineNumber(s.text, c), YankEnd(s.text, c, count) - 1;
    s.LineOfPosition(c);
    s.SpanOfLines(n, b);
    assert Lines(s.text)[n..b + 1] == Lines(s.text)[n..YankEnd(s.text, c, count)];
  }

  class DefaultOperations {
    /** The view whose buffer and caret the operations edit. */
    const textView: TextView

    constructor (textView: TextView)
      ensures this.textView == textView
    {
      this.textView := textView;
    }

    /** Deletes `count` characters from the caret on, as many as its line
        holds, and stores them in `reg` character-wise; the caret keeps its
        offset. When there is nothing to delete nothing changes. */
    method DeleteCharacterAtCursor(count: nat, reg: Register)
      requires textView.Valid()
      modifies textView, reg
      ensures textView.Valid()
      ensures textView.snapshot.text == DeleteAtCursorText(old(textView.snapshot.text), old(textView.caret), count)
      ensures textView.caret == old(textView.caret)
      ensures DeleteAtCursorCount(old(textView.snapshot.text), old(textView.caret), count) == 0 ==>
        && textView.snapshot == old(textView.snapshot)
        && textView.virtualSpaces == old(textView.virtualSpaces)
        && reg.value == old(reg.value)
      ensures DeleteAtCursorCount(old(textView.snapshot.text), old(textView.caret), count) > 0 ==>
        && textView.snapshot.version == old(textView.snapshot.version) + 1
        && textView.virtualSpaces == 0
        && reg.value == Some(RegisterValue(old(textView.snapshot.text)[old(textView.caret)..old(textView.caret) + DeleteAtCursorCount(old(textView.snapshot.text), old(textView.caret), count)], CharacterWise))
    {
      var t, c := textView.snapshot.text, textView.caret;
      var k := DeleteAtCursorCount(t, c, count);
      if k > 0 {
        var deleted := t[c..c + k];
        textView.Replace(c, k, [], c);
        assert textView.snapshot.text == DeleteAtCursorText(t, c, count) by {
          assert t[..c] + [] + t[c + k..] == t[..c] + t[c + k..];
        }
        reg.UpdateValue(RegisterValue(deleted, CharacterWise));
      } else {
        assert t[..c] + t[c + k..] == t;
      }
    }

    /** Deletes `count` characters before the caret, as many as its column,
        stores them in `reg` character-wise and moves the caret back over
        them. At column 0, or with `count` zero, nothing changes. */
    method DeleteCharacterBeforeCursor(count: nat, reg: Register)
      requires textView.Valid()
      modifies textView, reg
      ensures textView.Valid()
      ensures textView.snapshot.text == DeleteBeforeCursorText(old(textView.snapshot.text), old(textView.caret), count)
      ensures textView.caret == old(textView.caret) - DeleteBeforeCursorCount(old(textView.snapshot.text), old(textView.caret), count)
      ensures DeleteBeforeCursorCount(old(textView.snapshot.text), old(textView.caret), count) == 0 ==>
        && textView.snapshot == old(textView.snapshot)
        && textView.virtualSpaces == old(textView.virtualSpaces)
        && reg.value == old(reg.value)
      ensures DeleteBeforeCursorCount(old(textView.snapshot.text), old(textView.caret), count) > 0 ==>
        && textView.snapshot.version == old(textView.snapshot.version) + 1
        && textView.virtualSpaces == 0
        && reg.value == Some(RegisterValue(old(textView.snapshot.text)[old(textView.caret) - DeleteBeforeCursorCount(old(textView.snapshot.text), old(textView.caret), count)..old(textView.caret)], CharacterWise))
    {
      var t, c := textView.snapshot.text, textView.caret;
      var k := DeleteBeforeCursorCount(t, c, count);
      if k > 0 {
        var deleted := t[c - k..c];
        textView.Replace(c - k, k, [], c - k);
        assert textView.snapshot.text == DeleteBeforeCursorText(t, c, count) by {
          assert t[..c - k] + [] + t[c - k + k..] == t[..c - k] + t[c..];
        }
        reg.UpdateValue(RegisterValue(deleted, CharacterWise));
      } else {
        assert t[..c - k] + t[c..] == t;
      }
    }

    /** Replaces the `count` characters at the caret by `input` when they
        all lie on the caret's line, and reports whether it did; the caret
        keeps its offset. When they do not, the view keeps its snapshot. */
    method ReplaceChar(input: KeyInput, count: nat) returns (ok: bool)
      requires textView.Valid()
      modifies textView
      ensures textView.Valid()
      ensures ok == ReplaceCharFits(old(textView.snapshot.text), old(textView.caret), count)
      ensures textView.caret == old(textView.caret)
      ensures !ok ==> textView.snapshot == old(textView.snapshot) && textView.virtualSpaces == old(textView.virtualSpaces)
      ensures ok ==>
        && textView.snapshot.version == old(textView.snapshot.version) + 1
        && textView.snapshot.text == ReplaceCharText(old(textView.snapshot.text), old(textView.caret), input, count)
        && textView.virtualSpaces == 0
    {
      var c := textView.caret;
      if !ReplaceCharFits(textView.snapshot.text, c, count) {
        return false;
      }
      var replacement := match input
        case Char(ch) => Repeat([ch], count)
        case LineBreak => [NewLine];
      textView.Replace(c, count, replacement, c);
      ok := true;
    }

    /** Stores the caret's line and the next `count - 1` lines, as many as
        there are, in `reg` line-wise, each with its break; the break the
        last line of the buffer lacks is added. The view is not changed. */
    method YankLines(count: nat, reg: Register)
      requires textView.Valid() && count >= 1
      modifies reg
      ensures reg.value == Some(RegisterValue(YankedText(textView.snapshot.text, textView.caret, count), LineWise))
      ensures WellFormed(reg.value.value)
    {
      YankedLines(textView.snapshot.text, textView.caret, count);
      reg.UpdateValue(RegisterValue(YankedText(textView.snapshot.text, textView.caret, count), LineWise));
    }

    /** Pastes `count` copies of `text` after the caret: character-wise
        after the caret's character (at the caret at the end of a line),
        line-wise as new lines after the caret's line. Pasting nothing
        line-wise edits the buffer by an empty insertion at the caret. */
    method PasteAfter(text: string, count: nat, kind: OperationKind, moveCaret: bool)
      requires textView.Valid()
      modifies textView
      ensures textView.Valid()
      ensures textView.snapshot.version == old(textView.snapshot.version) + 1
      ensures textView.snapshot.text == PasteAfterText(old(textView.snapshot.text), old(textView.caret), text, count, kind)
      ensures textView.caret == PasteAfterCaret(old(textView.snapshot.text), old(textView.caret), text, count, kind, moveCaret)
      ensures textView.virtualSpaces == 0
    {
      var t, c := textView.snapshot.text, textView.caret;
      var payload := Repeat(text, count);
      match kind
      case CharacterWise =>
        var p := PastePoint(t, c);
        textView.Replace(p, 0, payload, if moveCaret then p + |payload| else c);
        assert textView.snapshot.text == PasteAfterText(t, c, text, count, kind) by {
          assert t[p + 0..] == t[p..];
        }
      case LineWise =>
        if payload == [] {
          textView.Replace(c, 0, [], c);
          assert t[..c] + [] + t[c + 0..] == t;
          return;
        }
        var e, body := LineEnd(t, c), LineBody(payload);
        textView.Replace(e, 0, [NewLine] + body, e + 1);
        assert textView.snapshot.text == PasteAfterText(t, c, text, count, kind) by {
          assert t[e + 0..] == t[e..];
          Regroup(t[..e], [NewLine], body, t[e..]);
        }
    }

    /** Pastes `count` copies of `text` at the caret, character-wise. */
    method PasteBefore(text: string, count: nat, moveCaret: bool)
      requires textView.Valid()
      modifies textView
      ensures textView.Valid()
      ensures textView.snapshot.version == old(textView.snapshot.version) + 1
      ensures textView.snapshot.text == PasteBeforeText(old(textView.snapshot.text), old(textView.caret), text, count)
      ensures textView.caret == PasteBeforeCaret(old(textView.caret), text, count, moveCaret)
      ensures textView.virtualSpaces == 0
    {
      var t, c := textView.snapshot.text, textView.caret;
      var payload := Repeat(text, count);
      textView.Replace(c, 0, payload, if moveCaret then c + |payload| else c);
      assert t[c + 0..] == t[c..];
    }

    /** Puts an empty line in front of the caret's line and the caret at its
        start, in real space. */
    method InsertLineAbove()
      requires textView.Valid()
      modifies textView
      ensures textView.Valid()
      ensures textView.snapshot.version == old(textView.snapshot.version) + 1
      ensures textView.snapshot.text == InsertLineAboveText(old(textView.snapshot.text), old(textView.caret))
      ensures textView.caret == LineStart(old(textView.snapshot.text), old(textView.caret))
      ensures !textView.IsInVirtualSpace()
    {
      var t := textView.snapshot.text;
      var s := LineStart(t, textView.caret);
      textView.Replace(s, 0, [NewLine], s);
      assert t[s + 0..] == t[s..];
    }
  }
}
