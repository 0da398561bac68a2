/** The effect of each normal-mode operation on a snapshot's text, the
    caret offset and the register, as functions of the text and caret
    before it, with lemmas saying what each does to the lines.

    `t` is the text, `c` the caret offset. The caret's line is line
    `LineNumber(t, c)`; its text is `Lines(t)[LineNumber(t, c)]` and the
    caret's column in it is `c - LineStart(t, c)`. */
module NormalModeEdits {
  import opened LineText
  import opened LineEdits
  import opened Registers

  function Min(a: nat, b: nat): (m: nat)
    ensures m <= a && m <= b && (m == a || m == b)
  {
    if a < b then a else b
  }

  // ---------------------------------------------------------------------
  // DeleteCharacterAtCursor

  /** How many characters `DeleteCharacterAtCursor(count)` deletes: `count`,
      but no more than remain on the caret's line. */
  function DeleteAtCursorCount(t: string, c: nat, count: nat): nat
    requires c <= |t|
  {
    Min(count, LineEnd(t, c) - c)
  }

  function DeleteAtCursorText(t: string, c: nat, count: nat): string
    requires c <= |t|
  {
    t[..c] + t[c + DeleteAtCursorCount(t, c, count)..]
  }

  /** `DeleteCharacterAtCursor` deletes `count` characters, or as many as
      the caret's line holds from the caret's column on, whichever is
      fewer; the deleted text is those columns of the line. */
  lemma DeleteAtCursorDeleted(t: string, c: nat, count: nat)
    requires c <= |t|
    ensures LineNumber(t, c) < |Lines(t)|
    ensures |Lines(t)[LineNumber(t, c)]| == LineEnd(t, c) - LineStart(t, c)
    ensures DeleteAtCursorCount(t, c, count) == Min(count, |Lines(t)[LineNumber(t, c)]| - (c - LineStart(t, c)))
    ensures t[c..c + DeleteAtCursorCount(t, c, count)]
         == Lines(t)[LineNumber(t, c)][c - LineStart(t, c)..c + DeleteAtCursorCount(t, c, count) - LineStart(t, c)]
  {
    LineSlice(t, c, c, c + DeleteAtCursorCount(t, c, count));
  }

  /** `DeleteCharacterAtCursor` takes those columns out of the caret's
      line, and no other line changes. */
  lemma DeleteAtCursorLines(t: string, c: nat, count: nat)
    requires c <= |t|
    ensures LineNumber(t, c) < |Lines(t)|
    ensures c + DeleteAtCursorCount(t, c, count) - LineStart(t, c) <= |Lines(t)[LineNumber(t, c)]|
    ensures Lines(DeleteAtCursorText(t, c, count))
         == Lines(t)[..LineNumber(t, c)]
            + [Lines(t)[LineNumber(t, c)][..c - LineStart(t, c)]
               + Lines(t)[LineNumber(t, c)][c + DeleteAtCursorCount(t, c, count) - LineStart(t, c)..]]
            + Lines(t)[LineNumber(t, c) + 1..]
  {
    var k := DeleteAtCursorCount(t, c, count);
    assert c + k <= LineEnd(t, c);
    DeleteInLine(t, c, c + k);
  }

  /** Deleting `t[p..q]` inside one line deletes those columns of it. */
  lemma DeleteInLine(t: string, p: nat, q: nat)
    requires p <= q <= |t| && q <= LineEnd(t, p)
    ensures LineNumber(t, p) < |Lines(t)|
    ensures q - LineStart(t, p) <= |Lines(t)[LineNumber(t, p)]|
    ensures Lines(t[..p] + t[q..])
         == Lines(t)[..LineNumber(t, p)]
            + [Lines(t)[LineNumber(t, p)][..p - LineStart(t, p)] + Lines(t)[LineNumber(t, p)][q - LineStart(t, p)..]]
            + Lines(t)[LineNumber(t, p) + 1..]
  {
    ReplaceInLine(t, p, q, []);
    var line := Lines(t)[LineNumber(t, p)];
    DropEmpty(t[..p], t[q..]);
    DropEmpty(line[..p - LineStart(t, p)], line[q - LineStart(t, p)..]);
    Substitute(Lines(t[..p] + t[q..]), Lines(t)[..LineNumber(t, p)],
      [line[..p - LineStart(t, p)] + [] + line[q - LineStart(t, p)..]],
      [line[..p - LineStart(t, p)] + line[q - LineStart(t, p)..]], Lines(t)[LineNumber(t, p) + 1..]);
  }

  lemma DropEmpty<T>(a: seq<T>, b: seq<T>)
    ensures a + [] + b == a + b
  {
  }

  // ---------------------------------------------------------------------
  // DeleteCharacterBeforeCursor

  /** How many characters `DeleteCharacterBeforeCursor(count)` deletes:
      `count`, but no more than the caret's column. */
  function DeleteBeforeCursorCount(t: string, c: nat, count: nat): nat
    requires c <= |t|
  {
    Min(count, c - LineStart(t, c))
  }

  function DeleteBeforeCursorText(t: string, c: nat, count: nat): string
    requires c <= |t|
  {
    t[..c - DeleteBeforeCursorCount(t, c, count)] + t[c..]
  }

  /** `DeleteCharacterBeforeCursor` deletes nothing exactly when the caret
      is at column 0 or `count` is zero, and what it deletes are the
      columns of the caret's line just before the caret. */
  lemma DeleteBeforeCursorDeleted(t: string, c: nat, count: nat)
    requires c <= |t|
    ensures LineNumber(t, c) < |Lines(t)|
    ensures |Lines(t)[LineNumber(t, c)]| == LineEnd(t, c) - LineStart(t, c)
    ensures DeleteBeforeCursorCount(t, c, count) == 0 <==> count == 0 || c == LineStart(t, c)
    ensures t[c - DeleteBeforeCursorCount(t, c, count)..c]
         == Lines(t)[LineNumber(t, c)][c - DeleteBeforeCursorCount(t, c, count) - LineStart(t, c)..c - LineStart(t, c)]
  {
    LineSlice(t, c, c - DeleteBeforeCursorCount(t, c, count), c);
  }

  /** `DeleteCharacterBeforeCursor` takes those columns out of the caret's
      line and never joins it with the line above. */
  lemma DeleteBeforeCursorLines(t: string, c: nat, count: nat)
    requires c <= |t|
    ensures LineNumber(t, c) < |Lines(t)|
    ensures c - LineStart(t, c) <= |Lines(t)[LineNumber(t, c)]|
    ensures c - DeleteBeforeCursorCount(t, c, count) >= LineStart(t, c)
    ensures Lines(DeleteBeforeCursorText(t, c, count))
         == Lines(t)[..LineNumber(t, c)]
            + [Lines(t)[LineNumber(t, c)][..c - DeleteBeforeCursorCount(t, c, count) - LineStart(t, c)]
               + Lines(t)[LineNumber(t, c)][c - LineStart(t, c)..]]
            + Lines(t)[LineNumber(t, c) + 1..]
  {
    DeleteBeforeInLine(t, c, DeleteBeforeCursorCount(t, c, count));
  }

  /** Deleting the `k` characters before `c`, which are on its line, deletes
      those columns of that line. */
  lemma DeleteBeforeInLine(t: string, c: nat, k: nat)
    requires c <= |t| && LineStart(t, c) + k <= c
    ensures LineNumber(t, c) < |Lines(t)|
    ensures c - LineStart(t, c) <= |Lines(t)[LineNumber(t, c)]|
    ensures Lines(t[..c - k] + t[c..])
         == Lines(t)[..LineNumber(t, c)]
            + [Lines(t)[LineNumber(t, c)][..c - k - LineStart(t, c)] + Lines(t)[LineNumber(t, c)][c - LineStart(t, c)..]]
            + Lines(t)[LineNumber(t, c) + 1..]
  {
    var p := c - k;
    SameLine(t, c, p);
    DeleteInLine(t, p, c);
    Reanchor(Lines(t[..p] + t[c..]), Lines(t), LineNumber(t, p), LineNumber(t, c),
      p - LineStart(t, p), c - k - LineStart(t, c), c - LineStart(t, p), c - LineStart(t, c));
  }

  /** The same cut of a line, named through equal line numbers and
      columns. */
  lemma Reanchor(x: seq<string>, ls: seq<string>, n: nat, n': nat, a: nat, a': nat, b: nat, b': nat)
    requires n == n' && a == a' && b == b' && n < |ls| && a <= b <= |ls[n]|
    requires x == ls[..n] + [ls[n][..a] + ls[n][b..]] + ls[n + 1..]
    ensures x == ls[..n'] + [ls[n'][..a'] + ls[n'][b'..]] + ls[n' + 1..]
  {
  }

  /** The characters from `p` to `q` on the line of `c`, as columns of its
      text. */
  lemma LineSlice(t: string, c: nat, p: nat, q: nat)
    requires c <= |t| && LineStart(t, c) <= p <= q <= LineEnd(t, c)
    ensures LineNumber(t, c) < |Lines(t)|
    ensures |Lines(t)[LineNumber(t, c)]| == LineEnd(t, c) - LineStart(t, c)
    ensures t[p..q] == Lines(t)[LineNumber(t, c)][p - LineStart(t, c)..q - LineStart(t, c)]
  {
    LineAt(t, c);
    SliceOfSlice(t, LineStart(t, c), LineEnd(t, c), p, q);
  }

  /** A slice of `x` read inside the slice `x[s..e]` that contains it. */
  lemma SliceOfSlice<T>(x: seq<T>, s: nat, e: nat, p: nat, q: nat)
    requires s <= p <= q <= e <= |x|
    ensures x[p..q] == x[s..e][p - s..q - s]
  {
    var y := x[s..e][p - s..q - s];
    assert |y| == q - p;
    assert forall i :: 0 <= i < |y| ==> y[i] == x[p..q][i];
  }

  // ---------------------------------------------------------------------
  // ReplaceChar

  /** A character a key writes as itself; the line-break character comes
      from Enter or LineFeed, which are `LineBreak`. */
  type Literal = ch: char | ch != NewLine witness 'a'

  /** The key a `ReplaceChar` gets: a character to write, or a key that
      starts a new line (Enter or LineFeed). */
  datatype KeyInput = Char(c: Literal) | LineBreak

  /** `ReplaceChar(input, count)` edits only when the `count` characters
      from the caret all lie on the caret's line. */
  predicate ReplaceCharFits(t: string, c: nat, count: nat)
    requires c <= |t|
  {
    c + count <= LineEnd(t, c)
  }

  /** The text after a `ReplaceChar` that fits: `count` copies of a literal
      character in place of the `count` characters at the caret, or those
      characters taken out and one break put in their place. */
  function ReplaceCharText(t: string, c: nat, input: KeyInput, count: nat): string
    requires c <= |t| && ReplaceCharFits(t, c, count)
  {
    match input
    case Char(ch) => t[..c] + Repeat([ch], count) + t[c + count..]
    case LineBreak => t[..c] + [NewLine] + t[c + count..]
  }

  /** A `ReplaceChar` fits exactly when `count` is at most what the caret's
      line holds from the caret's column on. */
  lemma ReplaceCharFitsLine(t: string, c: nat, count: nat)
    requires c <= |t|
    ensures LineNumber(t, c) < |Lines(t)|
    ensures ReplaceCharFits(t, c, count) <==> c - LineStart(t, c) + count <= |Lines(t)[LineNumber(t, c)]|
  {
    LineSlice(t, c, c, c);
  }

  /** A run of a literal character holds no break. */
  lemma NoBreakRepeat(ch: Literal, count: nat)
    ensures NoBreak(Repeat([ch], count))
  {
    NoBreakRepeated([ch], count);
  }

  /** A literal `ReplaceChar` overwrites columns `col .. col + count` of the
      caret's line with copies of the character, and no other line
      changes. */
  lemma ReplaceCharLiteralLines(t: string, c: nat, ch: Literal, count: nat)
    requires c <= |t| && ReplaceCharFits(t, c, count)
    ensures LineNumber(t, c) < |Lines(t)|
    ensures c + count - LineStart(t, c) <= |Lines(t)[LineNumber(t, c)]|
    ensures Lines(ReplaceCharText(t, c, Char(ch), count))
         == Lines(t)[..LineNumber(t, c)]
            + [Lines(t)[LineNumber(t, c)][..c - LineStart(t, c)] + Repeat([ch], count)
               + Lines(t)[LineNumber(t, c)][c + count - LineStart(t, c)..]]
            + Lines(t)[LineNumber(t, c) + 1..]
  {
    var q, r := c + count, Repeat([ch], count);
    assert ReplaceCharText(t, c, Char(ch), count) == t[..c] + r + t[q..];
    assert Lines(t[..c] + r + t[q..]) == Lines(t)[..LineNumber(t, c)]
            + [Lines(t)[LineNumber(t, c)][..c - LineStart(t, c)] + r + Lines(t)[LineNumber(t, c)][q - LineStart(t, c)..]]
            + Lines(t)[LineNumber(t, c) + 1..] by {
      NoBreakRepeat(ch, count);
      ReplaceInLine(t, c, q, r);
    }
  }

  /** A literal `ReplaceChar` keeps the number of lines and the length of
      every line. */
  lemma ReplaceCharLiteralShape(t: string, c: nat, ch: Literal, count: nat)
    requires c <= |t| && ReplaceCharFits(t, c, count)
    ensures |Lines(ReplaceCharText(t, c, Char(ch), count))| == |Lines(t)|
    ensures forall i :: 0 <= i < |Lines(t)| ==> |Lines(ReplaceCharText(t, c, Char(ch), count))[i]| == |Lines(t)[i]|
  {
    var ls, n, col := Lines(t), LineNumber(t, c), c - LineStart(t, c);
    var u := Lines(ReplaceCharText(t, c, Char(ch), count));
    assert n < |ls| && col + count <= |ls[n]| && u == ls[..n] + [ls[n][..col] + Repeat([ch], count) + ls[n][col + count..]] + ls[n + 1..] by {
      ReplaceCharLiteralLines(t, c, ch, count);
    }
    var x := ls[n][..col] + Repeat([ch], count) + ls[n][col + count..];
    assert |x| == |ls[n]|;
    ReplaceOne(ls, n, x);
  }

  /** `ls` with element `n` replaced by `x`: as many elements, `x` at `n`,
      the others kept. */
  lemma ReplaceOne<T>(ls: seq<T>, n: nat, x: T)
    requires n < |ls|
    ensures |ls[..n] + [x] + ls[n + 1..]| == |ls|
    ensures (ls[..n] + [x] + ls[n + 1..])[n] == x
    ensures forall i :: 0 <= i < |ls| && i != n ==> (ls[..n] + [x] + ls[n + 1..])[i] == ls[i]
  {
  }

  /** A line-break `ReplaceChar` splits the caret's line in two: its
      columns before the caret, and its columns after the `count` replaced
      characters. */
  lemma ReplaceCharBreakLines(t: string, c: nat, count: nat)
    requires c <= |t| && ReplaceCharFits(t, c, count)
    ensures LineNumber(t, c) < |Lines(t)|
    ensures c + count - LineStart(t, c) <= |Lines(t)[LineNumber(t, c)]|
    ensures Lines(ReplaceCharText(t, c, LineBreak, count))
         == Lines(t)[..LineNumber(t, c)]
            + [Lines(t)[LineNumber(t, c)][..c - LineStart(t, c)],
               Lines(t)[LineNumber(t, c)][c + count - LineStart(t, c)..]]
            + Lines(t)[LineNumber(t, c) + 1..]
  {
    SplitInLine(t, c, c + count);
  }

  // ---------------------------------------------------------------------
  // YankLines

  /** One past the last line `YankLines(count)` copies: `count` lines from
      the caret's line on, but no further than the last line. */
  function YankEnd(t: string, c: nat, count: nat): (r: nat)
    requires c <= |t|
    ensures LineNumber(t, c) <= r <= |Lines(t)|
    ensures count >= 1 ==> LineNumber(t, c) < r
  {
    LineSlice(t, c, c, c);
    Min(LineNumber(t, c) + count, |Lines(t)|)
  }

  /** The text `YankLines(count)` stores: the lines it copies, each
      followed by a break. */
  function YankedText(t: string, c: nat, count: nat): string
    requires c <= |t|
  {
    var e := YankEnd(t, c, count);
    Terminated(Lines(t)[LineNumber(t, c)..e])
  }

  /** Yanked text is well-formed line-wise text: it ends with a break and
      its lines are the yanked lines. */
  lemma YankedLines(t: string, c: nat, count: nat)
    requires c <= |t| && count >= 1
    ensures LineNumber(t, c) < |Lines(t)|
    ensures |YankedText(t, c, count)| > 0 && YankedText(t, c, count)[|YankedText(t, c, count)| - 1] == NewLine
    ensures LineBody(YankedText(t, c, count)) == Join(Lines(t)[LineNumber(t, c)..YankEnd(t, c, count)])
  {
    var e := YankEnd(t, c, count);
    var ls := Lines(t)[LineNumber(t, c)..e];
    TerminatedIsJoinAndBreak(ls);
    AppendedBreak(Join(ls));
  }

  /** Taking the break off a text with one appended gives the text back. */
  lemma AppendedBreak(s: string)
    ensures LineBody(s + [NewLine]) == s
  {
    assert (s + [NewLine])[..|s|] == s;
  }

  // ---------------------------------------------------------------------
  // PasteAfter and PasteBefore

  /** Where a character-wise `PasteAfter` inserts: after the caret's
      character, or at the caret at the end of a line or the buffer. */
  function PastePoint(t: string, c: nat): nat
    requires c <= |t|
  {
    if c < LineEnd(t, c) then c + 1 else c
  }

  /** The text after a `PasteAfter` of `count` copies of `text`:
      character-wise they go in at the paste point; line-wise the lines
      they hold go in after the caret's line, and pasting no copies, or
      copies of the empty text, adds no line. */
  function PasteAfterText(t: string, c: nat, text: string, count: nat, kind: OperationKind): string
    requires c <= |t|
  {
    match kind
    case CharacterWise => t[..PastePoint(t, c)] + Repeat(text, count) + t[PastePoint(t, c)..]
    case LineWise =>
      if Repeat(text, count) == [] then t
      else t[..LineEnd(t, c)] + [NewLine] + LineBody(Repeat(text, count)) + t[LineEnd(t, c)..]
  }

  /** The caret after a `PasteAfter`: a line-wise paste puts it at the start
      of the first pasted line, or leaves it when there is none; a
      character-wise one leaves it, or with `moveCaret` puts it just past
      the pasted text. */
  function PasteAfterCaret(t: string, c: nat, text: string, count: nat, kind: OperationKind, moveCaret: bool): nat
    requires c <= |t|
  {
    match kind
    case CharacterWise => if moveCaret then PastePoint(t, c) + |Repeat(text, count)| else c
    case LineWise => if Repeat(text, count) == [] then c else LineEnd(t, c) + 1
  }

  /** The paste point is one column right of the caret, or the end of the
      caret's line when the caret is there. */
  lemma PastePointColumn(t: string, c: nat)
    requires c <= |t|
    ensures LineNumber(t, c) < |Lines(t)|
    ensures c - LineStart(t, c) < |Lines(t)[LineNumber(t, c)]| ==> PastePoint(t, c) - LineStart(t, c) == c - LineStart(t, c) + 1
    ensures c - LineStart(t, c) == |Lines(t)[LineNumber(t, c)]| ==> PastePoint(t, c) == LineEnd(t, c)
  {
    LineSlice(t, c, c, c);
  }

  /** A character-wise `PasteAfter` of break-free text puts it into the
      caret's line at the paste point, and no other line changes. */
  lemma PasteAfterCharLines(t: string, c: nat, text: string, count: nat)
    requires c <= |t| && NoBreak(text)
    ensures LineNumber(t, c) < |Lines(t)|
    ensures PastePoint(t, c) - LineStart(t, c) <= |Lines(t)[LineNumber(t, c)]|
    ensures Lines(PasteAfterText(t, c, text, count, CharacterWise))
         == Lines(t)[..LineNumber(t, c)]
            + [Lines(t)[LineNumber(t, c)][..PastePoint(t, c) - LineStart(t, c)] + Repeat(text, count)
               + Lines(t)[LineNumber(t, c)][PastePoint(t, c) - LineStart(t, c)..]]
            + Lines(t)[LineNumber(t, c) + 1..]
  {
    var p := PastePoint(t, c);
    SameLine(t, c, p);
    NoBreakRepeated(text, count);
    ReplaceInLine(t, p, p, Repeat(text, count));
  }

  /** Copies of a break-free text hold no break. */
  lemma {:induction false} NoBreakRepeated(text: string, count: nat)
    requires NoBreak(text)
    ensures NoBreak(Repeat(text, count))
    decreases count
  {
    if count > 0 {
      NoBreakRepeated(text, count - 1);
    }
  }

  /** The inserted text lies between the paste point and the caret of a
      character-wise `PasteAfter` with `moveCaret`. */
  lemma PasteAfterCharCaret(t: string, c: nat, text: string, count: nat)
    requires c <= |t|
    ensures PastePoint(t, c) <= PasteAfterCaret(t, c, text, count, CharacterWise, true)
         <= |PasteAfterText(t, c, text, count, CharacterWise)|
    ensures PasteAfterText(t, c, text, count, CharacterWise)[PastePoint(t, c)..PasteAfterCaret(t, c, text, count, CharacterWise, true)]
         == Repeat(text, count)
  {
    InsertedSlice(t, PastePoint(t, c), Repeat(text, count));
  }

  /** What is inserted at `p` is found at `p`. */
  lemma InsertedSlice<T>(t: seq<T>, p: nat, x: seq<T>)
    requires p <= |t|
    ensures (t[..p] + x + t[p..])[p..p + |x|] == x
  {
  }

  /** A line-wise `PasteAfter` puts the pasted lines right after the
      caret's line, even when that line is the last one; with nothing to
      paste the text is unchanged. */
  lemma PasteAfterLineLines(t: string, c: nat, text: string, count: nat)
    requires c <= |t|
    ensures LineNumber(t, c) < |Lines(t)|
    ensures Repeat(text, count) == [] ==> PasteAfterText(t, c, text, count, LineWise) == t
    ensures Repeat(text, count) != [] ==>
      Lines(PasteAfterText(t, c, text, count, LineWise))
      == Lines(t)[..LineNumber(t, c) + 1] + Lines(LineBody(Repeat(text, count))) + Lines(t)[LineNumber(t, c) + 1..]
  {
    LineSlice(t, c, c, c);
    if Repeat(text, count) == [] {
      return;
    }
    var e, body := LineEnd(t, c), LineBody(Repeat(text, count));
    assert PasteAfterText(t, c, text, count, LineWise) == t[..e] + [NewLine] + body + t[e..];
    assert LineNumber(t, e) == LineNumber(t, c) by {
      SameLine(t, c, e);
    }
    assert Lines(t[..e] + [NewLine] + body + t[e..]) == Lines(t)[..LineNumber(t, e) + 1] + Lines(body) + Lines(t)[LineNumber(t, e) + 1..] by {
      LinesAfterLine(t, e, body);
    }
  }

  /** After a line-wise `PasteAfter` the caret is at the start of the line
      after the caret's old line, the first pasted one; with nothing to
      paste it stays. */
  lemma PasteAfterLineCaret(t: string, c: nat, text: string, count: nat, moveCaret: bool)
    requires c <= |t|
    ensures PasteAfterCaret(t, c, text, count, LineWise, moveCaret) <= |PasteAfterText(t, c, text, count, LineWise)|
    ensures Repeat(text, count) == [] ==> PasteAfterCaret(t, c, text, count, LineWise, moveCaret) == c
    ensures Repeat(text, count) != [] ==>
      && LineStart(PasteAfterText(t, c, text, count, LineWise), PasteAfterCaret(t, c, text, count, LineWise, moveCaret))
         == PasteAfterCaret(t, c, text, count, LineWise, moveCaret)
      && LineNumber(PasteAfterText(t, c, text, count, LineWise), PasteAfterCaret(t, c, text, count, LineWise, moveCaret))
         == LineNumber(t, c) + 1
  {
    if Repeat(text, count) == [] {
      return;
    }
    var e, body := LineEnd(t, c), LineBody(Repeat(text, count));
    assert PasteAfterText(t, c, text, count, LineWise) == t[..e] + [NewLine] + body + t[e..];
    assert PasteAfterCaret(t, c, text, count, LineWise, moveCaret) == e + 1;
    assert LineNumber(t, e) == LineNumber(t, c) by {
      SameLine(t, c, e);
    }
    LineAfterBreak(t, e, body);
  }

  /** The offset just past a break put in at `e` starts a line, numbered
      one more than the line of `e`. */
  lemma LineAfterBreak(t: string, e: nat, body: string)
    requires e <= |t|
    ensures LineStart(t[..e] + [NewLine] + body + t[e..], e + 1) == e + 1
    ensures LineNumber(t[..e] + [NewLine] + body + t[e..], e + 1) == LineNumber(t, e) + 1
  {
    var u := t[..e] + [NewLine] + body + t[e..];
    assert u[e] == NewLine;
    assert u[..e + 1] == t[..e] + [NewLine];
    BreaksOfAppend(t[..e], [NewLine]);
    assert Breaks([NewLine]) == 1 by {
      assert [NewLine][1..] == [];
    }
  }

  function PasteBeforeText(t: string, c: nat, text: string, count: nat): string
    requires c <= |t|
  {
    t[..c] + Repeat(text, count) + t[c..]
  }

  /** The caret after a `PasteBefore`: left at its offset, or with
      `moveCaret` just past the pasted text. */
  function PasteBeforeCaret(c: nat, text: string, count: nat, moveCaret: bool): nat
  {
    if moveCaret then c + |Repeat(text, count)| else c
  }

  /** A `PasteBefore` of break-free text puts it into the caret's line at
      the caret's column, and no other line changes; with `moveCaret` the
      caret ends just past it. */
  lemma PasteBeforeLines(t: string, c: nat, text: string, count: nat)
    requires c <= |t| && NoBreak(text)
    ensures LineNumber(t, c) < |Lines(t)|
    ensures c - LineStart(t, c) <= |Lines(t)[LineNumber(t, c)]|
    ensures Lines(PasteBeforeText(t, c, text, count))
         == Lines(t)[..LineNumber(t, c)]
            + [Lines(t)[LineNumber(t, c)][..c - LineStart(t, c)] + Repeat(text, count)
               + Lines(t)[LineNumber(t, c)][c - LineStart(t, c)..]]
            + Lines(t)[LineNumber(t, c) + 1..]
  {
    NoBreakRepeated(text, count);
    ReplaceInLine(t, c, c, Repeat(text, count));
  }

  /** The pasted text lies between the old caret and the caret of a
      `PasteBefore` with `moveCaret`. */
  lemma PasteBeforeCaretAfterText(t: string, c: nat, text: string, count: nat)
    requires c <= |t|
    ensures PasteBeforeCaret(c, text, count, true) <= |PasteBeforeText(t, c, text, count)|
    ensures PasteBeforeText(t, c, text, count)[c..PasteBeforeCaret(c, text, count, true)] == Repeat(text, count)
  {
    InsertedSlice(t, c, Repeat(text, count));
  }

  // ---------------------------------------------------------------------
  // InsertLineAbove

  function InsertLineAboveText(t: string, c: nat): string
    requires c <= |t|
  {
    t[..LineStart(t, c)] + [NewLine] + t[LineStart(t, c)..]
  }

  /** `InsertLineAbove` puts an empty line in front of the caret's line. */
  lemma InsertLineAboveLines(t: string, c: nat)
    requires c <= |t|
    ensures LineNumber(t, c) < |Lines(t)|
    ensures Lines(InsertLineAboveText(t, c))
         == Lines(t)[..LineNumber(t, c)] + [[]] + Lines(t)[LineNumber(t, c)..]
  {
    var s := LineStart(t, c);
    assert LineNumber(t, s) == LineNumber(t, c) by {
      NoBreakFromLineStart(t, c);
      BreaksWithinLine(t, s, c);
    }
    EmptyLineBefore(t, s);
    LineGroups(Lines(t), LineNumber(t, s), LineNumber(t, c));
  }

  /** The lines before and from line `n`, with `n` written two ways. */
  lemma LineGroups(ls: seq<string>, n: nat, n': nat)
    requires n == n' <= |ls|
    ensures ls[..n] + [[]] + ls[n..] == ls[..n'] + [[]] + ls[n'..]
  {
  }

  /** After `InsertLineAbove` the caret, at the old line's start, is on the
      new line, which has the caret's old line number and is empty. */
  lemma InsertLineAboveCaret(t: string, c: nat)
    requires c <= |t|
    ensures LineStart(t, c) <= |InsertLineAboveText(t, c)|
    ensures LineNumber(InsertLineAboveText(t, c), LineStart(t, c)) == LineNumber(t, c)
    ensures LineStart(InsertLineAboveText(t, c), LineStart(t, c)) == LineStart(t, c)
    ensures LineEnd(InsertLineAboveText(t, c), LineStart(t, c)) == LineStart(t, c)
  {
    var s := LineStart(t, c);
    var u := InsertLineAboveText(t, c);
    assert u[..s] == t[..s] && u[s] == NewLine;
    LineOfStart(t, c);
  }

  // ---------------------------------------------------------------------
  // Yank and paste together

  /** Yanking the caret's line and pasting it line-wise after itself puts
      a copy of that line right after it. */
  lemma YankThenPasteDuplicatesLine(t: string, c: nat)
    requires c <= |t|
    ensures LineNumber(t, c) < |Lines(t)|
    ensures Lines(PasteAfterText(t, c, YankedText(t, c, 1), 1, LineWise))
         == Lines(t)[..LineNumber(t, c) + 1] + [Lines(t)[LineNumber(t, c)]] + Lines(t)[LineNumber(t, c) + 1..]
  {
    var n := LineNumber(t, c);
    assert n < |Lines(t)| by {
      LineSlice(t, c, c, c);
    }
    var line := Lines(t)[n];
    var y := YankedText(t, c, 1);
    assert y == line + [NewLine] by {
      assert Lines(t)[n..YankEnd(t, c, 1)] == [line];
      assert Terminated([line]) == line + [NewLine] + Terminated([]);
    }
    assert Lines(LineBody(Repeat(y, 1))) == [line] by {
      assert Repeat(y, 1) == y + Repeat(y, 0);
      LineHasNoBreak(t, n);
      AppendedBreak(line);
      LinesOfNoBreak(line);
    }
    assert Repeat(y, 1) != [] by {
      assert Repeat(y, 1) == y + Repeat(y, 0);
    }
    assert Lines(PasteAfterText(t, c, y, 1, LineWise)) == Lines(t)[..n + 1] + Lines(LineBody(Repeat(y, 1))) + Lines(t)[n + 1..] by {
      PasteAfterLineLines(t, c, y, 1);
    }
  }
}
