/** The editor view the operations work on: the snapshot it shows and its
    caret. */
module TextViews {
  import opened LineText
  import opened TextSnapshots

  class TextView {
    /** The snapshot currently shown. */
    var snapshot: Snapshot
    /** The caret's offset in the snapshot (`Caret.Position.BufferPosition`). */
    var caret: nat
    /** Columns the caret stands beyond the end of its line (virtual space);
        zero for a caret in real space. */
    var virtualSpaces: nat

    /** The caret lies in the text, and only a caret at the end of a line
        can stand in virtual space. */
    ghost predicate Valid()
      reads this
    {
      && caret <= |snapshot.text|
      && (virtualSpaces > 0 ==> caret == LineEnd(snapshot.text, caret))
    }

    /** A view of a fresh buffer holding `lines`, the caret at offset 0. */
    constructor (lines: seq<string>)
      requires |lines| >= 1
      requires forall i :: 0 <= i < |lines| ==> NoBreak(lines[i])
      ensures Valid()
      ensures Lines(snapshot.text) == lines
      ensures snapshot.version == 0 && caret == 0 && virtualSpaces == 0
    {
      LinesOfJoin(lines);
      snapshot := Snapshot(0, Join(lines));
      caret := 0;
      virtualSpaces := 0;
    }

    /** The line holding the caret (`Caret.Position.BufferPosition.GetContainingLine()`):
        its number is the caret's line number and its text that line. */
    function CaretLine(): (l: SnapshotLine)
      reads this
      requires caret <= |snapshot.text|
      ensures l.start <= caret <= l.end <= |snapshot.text|
      ensures l.lineNumber == LineNumber(snapshot.text, caret) < |Lines(snapshot.text)|
      ensures snapshot.text[l.start..l.end] == Lines(snapshot.text)[l.lineNumber]
    {
      snapshot.GetLineFromPosition(caret)
    }

    /** Whether the caret stands beyond the end of its line
        (`VirtualBufferPosition.IsInVirtualSpace`); a caret in virtual space
        is at the end of its line, so its buffer offset is that line's
        end. */
    predicate IsInVirtualSpace(): (b: bool)
      reads this
      ensures Valid() && b ==> caret == LineEnd(snapshot.text, caret)
    {
      virtualSpaces > 0
    }

    /** Moves the caret to offset `p`, in real space. */
    method MoveCaretTo(p: nat)
      requires p <= |snapshot.text|
      modifies this
      ensures Valid()
      ensures caret == p && virtualSpaces == 0 && snapshot == old(snapshot)
    {
      caret := p;
      virtualSpaces := 0;
    }

    /** Replaces `length` characters at `start` by `replacement`, giving
        the next snapshot, and puts the caret at `caretAfter` in real
        space. */
    method Replace(start: nat, length: nat, replacement: string, caretAfter: nat)
      requires start + length <= |snapshot.text|
      requires caretAfter <= |snapshot.text| - length + |replacement|
      modifies this
      ensures Valid()
      ensures snapshot == old(snapshot).Replace(start, length, replacement)
      ensures snapshot.text == old(snapshot.text)[..start] + replacement + old(snapshot.text)[start + length..]
      ensures caret == caretAfter && virtualSpaces == 0
    {
      snapshot := snapshot.Replace(start, length, replacement);
      caret := caretAfter;
      virtualSpaces := 0;
    }
  }
}
