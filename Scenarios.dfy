/** The scenarios of the operations' unit tests, on buffers with the
    tests' lines, derived from the general lemmas. A buffer is given by its
    text `t` with `Lines(t)` fixed, as the tests create views from lines. */
module Scenarios {
  import opened LineText
  import opened LineEdits
  import opened Registers
  import opened NormalModeEdits

  /** An offset within the first line: line 0, which starts at offset 0. */
  lemma OnFirstLine(t: string, p: nat)
    requires p <= |Lines(t)[0]|
    ensures p <= |t| && LineNumber(t, p) == 0 && LineStart(t, p) == 0 && LineEnd(t, p) == |Lines(t)[0]|
  {
    assert LineNumber(t, 0) == 0 && LineStart(t, 0) == 0 by {
      assert t[..0] == [];
    }
    LineSlice(t, 0, 0, 0);
    SameLine(t, 0, p);
  }

  /** An offset within the second line: line 1, which starts just past the
      first line's break. */
  lemma OnSecondLine(t: string, p: nat)
    requires |Lines(t)| >= 2 && |Lines(t)[0]| + 1 <= p <= |Lines(t)[0]| + 1 + |Lines(t)[1]|
    ensures p <= |t| && LineNumber(t, p) == 1 && LineStart(t, p) == |Lines(t)[0]| + 1
    ensures LineEnd(t, p) == |Lines(t)[0]| + 1 + |Lines(t)[1]|
  {
    var e := |Lines(t)[0]|;
    OnFirstLine(t, e);
    LastLine(t, e);
    assert t[e] == NewLine;
    assert LineStart(t, e + 1) == e + 1;
    assert LineNumber(t, e + 1) == 1 by {
      assert t[..e + 1] == t[..e] + [NewLine];
      BreaksOfAppend(t[..e], [NewLine]);
      assert Breaks([NewLine]) == 1 by {
        assert [NewLine][1..] == [];
      }
    }
    LineSlice(t, e + 1, e + 1, e + 1);
    SameLine(t, e + 1, p);
  }

  // The general lemmas, instantiated on the first or the second line.

  /** Replacing `t[p..q]` inside line 0 by a break-free `r` changes line 0
      alone. */
  lemma EditOnFirstLine(t: string, p: nat, q: nat, r: string)
    requires p <= q <= |Lines(t)[0]| && NoBreak(r)
    ensures q <= |t|
    ensures Lines(t[..p] + r + t[q..]) == [Lines(t)[0][..p] + r + Lines(t)[0][q..]] + Lines(t)[1..]
  {
    OnFirstLine(t, p);
    EditAtLineZero(t, p, q, r);
  }

  /** The same, from the facts that place `p` at line 0. */
  lemma EditAtLineZero(t: string, p: nat, q: nat, r: string)
    requires p <= q <= |t| && q <= LineEnd(t, p) && NoBreak(r)
    requires LineNumber(t, p) == 0 && LineStart(t, p) == 0
    ensures |Lines(t)| >= 1 && q <= |Lines(t)[0]|
    ensures Lines(t[..p] + r + t[q..]) == [Lines(t)[0][..p] + r + Lines(t)[0][q..]] + Lines(t)[1..]
  {
    ReplaceInLine(t, p, q, r);
    AtLineZero(Lines(t[..p] + r + t[q..]), Lines(t), 0, p, q, 0, r);
  }

  /** An edit of line `n` between offsets `p` and `q`, the line starting
      at `s`, with `n` and `s` both 0. */
  lemma AtLineZero(x: seq<string>, ls: seq<string>, n: nat, p: nat, q: nat, s: nat, r: string)
    requires |ls| >= 1 && n == 0 && s == 0 && p <= q <= |ls[0]|
    requires x == ls[..n] + [ls[n][..p - s] + r + ls[n][q - s..]] + ls[n + 1..]
    ensures x == [ls[0][..p] + r + ls[0][q..]] + ls[1..]
  {
  }

  /** Deleting `k` characters from offset `c` of line 0, which holds them:
      all `k` go. */
  lemma DeleteAtOnFirstLine(t: string, c: nat, k: nat)
    requires c + k <= |Lines(t)[0]|
    ensures c + k <= |t| && DeleteAtCursorCount(t, c, k) == k
    ensures t[c..c + k] == Lines(t)[0][c..c + k]
  {
    OnFirstLine(t, c);
    DeleteAtCursorDeleted(t, c, k);
  }

  /** The lines after deleting `k` characters from offset `c` of line 0. */
  lemma DeleteAtLinesOnFirstLine(t: string, c: nat, k: nat)
    requires c + k <= |Lines(t)[0]|
    ensures c <= |t|
    ensures Lines(DeleteAtCursorText(t, c, k)) == [Lines(t)[0][..c] + Lines(t)[0][c + k..]] + Lines(t)[1..]
  {
    DeleteAtOnFirstLine(t, c, k);
    assert DeleteAtCursorText(t, c, k) == t[..c] + [] + t[c + k..];
    EditOnFirstLine(t, c, c + k, []);
    assert Lines(t)[0][..c] + [] + Lines(t)[0][c + k..] == Lines(t)[0][..c] + Lines(t)[0][c + k..];
  }

  /** Deleting `k` characters before offset `c` of line 0, which has them. */
  lemma DeleteBeforeOnFirstLine(t: string, c: nat, k: nat)
    requires k <= c <= |Lines(t)[0]|
    ensures c <= |t| && DeleteBeforeCursorCount(t, c, k) == k
    ensures t[c - k..c] == Lines(t)[0][c - k..c]
  {
    OnFirstLine(t, c);
    DeleteBeforeCursorDeleted(t, c, k);
  }

  /** The lines after deleting `k` characters before offset `c` of line 0. */
  lemma DeleteBeforeLinesOnFirstLine(t: string, c: nat, k: nat)
    requires k <= c <= |Lines(t)[0]|
    ensures c <= |t|
    ensures Lines(DeleteBeforeCursorText(t, c, k)) == [Lines(t)[0][..c - k] + Lines(t)[0][c..]] + Lines(t)[1..]
  {
    DeleteBeforeOnFirstLine(t, c, k);
    assert DeleteBeforeCursorText(t, c, k) == t[..c - k] + [] + t[c..];
    EditOnFirstLine(t, c - k, c, []);
    assert Lines(t)[0][..c - k] + [] + Lines(t)[0][c..] == Lines(t)[0][..c - k] + Lines(t)[0][c..];
  }

  /** With nothing to delete before the caret, the text is unchanged. */
  lemma DeleteBeforeNothing(t: string, c: nat, count: nat)
    requires c <= |t| && DeleteBeforeCursorCount(t, c, count) == 0
    ensures DeleteBeforeCursorText(t, c, count) == t
  {
    assert t[..c] + t[c..] == t;
  }

  /** Replacing `count` characters of line 0 from offset `c` by `ch`. */
  lemma ReplaceLiteralOnFirstLine(t: string, c: nat, ch: Literal, count: nat)
    requires c + count <= |Lines(t)[0]|
    ensures c <= |t| && ReplaceCharFits(t, c, count)
    ensures Lines(ReplaceCharText(t, c, Char(ch), count))
         == [Lines(t)[0][..c] + Repeat([ch], count) + Lines(t)[0][c + count..]] + Lines(t)[1..]
  {
    var r := Repeat([ch], count);
    assert c <= |t| && ReplaceCharFits(t, c, count) by {
      OnFirstLine(t, c);
    }
    assert ReplaceCharText(t, c, Char(ch), count) == t[..c] + r + t[c + count..];
    assert NoBreak(r) by {
      NoBreakRepeat(ch, count);
    }
    EditOnFirstLine(t, c, c + count, r);
  }

  /** Replacing `t[p..q]` inside line 0 by a break splits line 0 in two. */
  lemma SplitOnFirstLine(t: string, p: nat, q: nat)
    requires p <= q <= |Lines(t)[0]|
    ensures q <= |t|
    ensures Lines(t[..p] + [NewLine] + t[q..]) == [Lines(t)[0][..p], Lines(t)[0][q..]] + Lines(t)[1..]
  {
    assert p <= |t| && LineNumber(t, p) == 0 && LineStart(t, p) == 0 && q <= LineEnd(t, p) by {
      OnFirstLine(t, p);
    }
    assert Lines(t[..p] + [NewLine] + t[q..])
        == Lines(t)[..LineNumber(t, p)]
           + [Lines(t)[LineNumber(t, p)][..p - LineStart(t, p)], Lines(t)[LineNumber(t, p)][q - LineStart(t, p)..]]
           + Lines(t)[LineNumber(t, p) + 1..] by {
      SplitInLine(t, p, q);
    }
    SplitAtLineZero(Lines(t[..p] + [NewLine] + t[q..]), Lines(t), LineNumber(t, p), p, q, LineStart(t, p));
  }

  /** Replacing `count` characters of line 0 from offset `c` by a break. */
  lemma ReplaceBreakOnFirstLine(t: string, c: nat, count: nat)
    requires c + count <= |Lines(t)[0]|
    ensures c <= |t| && ReplaceCharFits(t, c, count)
    ensures Lines(ReplaceCharText(t, c, LineBreak, count))
         == [Lines(t)[0][..c], Lines(t)[0][c + count..]] + Lines(t)[1..]
  {
    OnFirstLine(t, c);
    assert ReplaceCharText(t, c, LineBreak, count) == t[..c] + [NewLine] + t[c + count..];
    SplitOnFirstLine(t, c, c + count);
  }

  /** A split of line `n` at offsets `p` and `q`, the line starting at `s`,
      with `n` and `s` both 0. */
  lemma SplitAtLineZero(x: seq<string>, ls: seq<string>, n: nat, p: nat, q: nat, s: nat)
    requires |ls| >= 1 && n == 0 && s == 0 && p <= q <= |ls[0]|
    requires x == ls[..n] + [ls[n][..p - s], ls[n][q - s..]] + ls[n + 1..]
    ensures x == [ls[0][..p], ls[0][q..]] + ls[1..]
  {
  }

  /** A character-wise paste after offset `c` of line 0 goes in at `q`,
      one past the caret unless it is at the end of the line. */
  lemma PastePointOnFirstLine(t: string, c: nat, q: nat)
    requires c <= |Lines(t)[0]|
    requires q == if c < |Lines(t)[0]| then c + 1 else c
    ensures c <= |t| && PastePoint(t, c) == q
  {
    OnFirstLine(t, c);
  }

  /** The lines after a character-wise paste after offset `c` of line 0,
      which goes in at `q`. */
  lemma PasteAfterOnFirstLine(t: string, c: nat, q: nat, text: string, count: nat)
    requires c <= |Lines(t)[0]| && NoBreak(text)
    requires q == if c < |Lines(t)[0]| then c + 1 else c
    ensures c <= |t|
    ensures Lines(PasteAfterText(t, c, text, count, CharacterWise))
         == [Lines(t)[0][..q] + Repeat(text, count) + Lines(t)[0][q..]] + Lines(t)[1..]
  {
    PastePointOnFirstLine(t, c, q);
    assert PasteAfterText(t, c, text, count, CharacterWise) == t[..q] + Repeat(text, count) + t[q..];
    NoBreakRepeated(text, count);
    EditOnFirstLine(t, q, q, Repeat(text, count));
  }

  /** A character-wise paste after offset `c` of line 1 goes in at column
      `col` of that line, one past the caret unless it is at the end of the
      line. */
  lemma PasteAfterOnSecondLine(t: string, c: nat, col: nat, text: string, count: nat)
    requires |Lines(t)| >= 2 && NoBreak(text)
    requires |Lines(t)[0]| + 1 <= c <= |Lines(t)[0]| + 1 + |Lines(t)[1]|
    requires col == if c < |Lines(t)[0]| + 1 + |Lines(t)[1]| then c - |Lines(t)[0]| else c - |Lines(t)[0]| - 1
    ensures c <= |t|
    ensures Lines(PasteAfterText(t, c, text, count, CharacterWise))
         == Lines(t)[..1] + [Lines(t)[1][..col] + Repeat(text, count) + Lines(t)[1][col..]] + Lines(t)[2..]
  {
    OnSecondLine(t, c);
    PasteAfterCharLines(t, c, text, count);
  }

  /** A paste before offset `c` of line 0 goes in at `c`. */
  lemma PasteBeforeOnFirstLine(t: string, c: nat, text: string, count: nat)
    requires c <= |Lines(t)[0]| && NoBreak(text)
    ensures c <= |t|
    ensures Lines(PasteBeforeText(t, c, text, count))
         == [Lines(t)[0][..c] + Repeat(text, count) + Lines(t)[0][c..]] + Lines(t)[1..]
  {
    NoBreakRepeated(text, count);
    EditOnFirstLine(t, c, c, Repeat(text, count));
  }

  /** One and two copies of a text. */
  lemma RepeatTwice(s: string)
    ensures Repeat(s, 1) == s && Repeat(s, 2) == s + s
  {
    assert Repeat(s, 1) == s + Repeat(s, 0);
    assert Repeat(s, 2) == s + Repeat(s, 1);
  }

  /** The pasted texts of the scenarios hold no break. */
  lemma NoBreakPayloads()
    ensures NoBreak("hey") && NoBreak("hello") && NoBreak("bar")
  {
  }

  /** "hey", `count` times over, put in at column `col` of line 0 of
      `ls` gives `line`. */
  lemma HeyInFirstLine(ls: seq<string>, col: nat, count: nat, line: string)
    requires |ls| >= 1 && col <= |ls[0]| && 1 <= count <= 2
    requires line == ls[0][..col] + (if count == 1 then "hey" else "heyhey") + ls[0][col..]
    ensures [ls[0][..col] + Repeat("hey", count) + ls[0][col..]] + ls[1..] == [line] + ls[1..]
  {
    RepeatTwice("hey");
    assert Repeat("hey", count) == if count == 1 then "hey" else "heyhey";
  }

  // DeleteCharacterAtCursor

  /** "foo", "bar" at offset 0, count 1: "f" is deleted into the
      register. */
  lemma DeleteAtCursorOne(t: string)
    requires Lines(t) == ["foo", "bar"]
    ensures 1 <= |t| && DeleteAtCursorCount(t, 0, 1) == 1 && t[0..1] == "f"
  {
    DeleteAtOnFirstLine(t, 0, 1);
    PrefixesOfFoo(Lines(t)[0]);
  }

  /** "foo", "bar" at offset 0, count 1: line 0 becomes "oo". */
  lemma DeleteAtCursorOneLines(t: string)
    requires Lines(t) == ["foo", "bar"]
    ensures Lines(DeleteAtCursorText(t, 0, 1)) == ["oo", "bar"]
  {
    DeleteAtLinesOnFirstLine(t, 0, 1);
    FooBarWithout(Lines(t), 1);
  }

  /** "foo", "bar" at offset 0, count 2: "fo" is deleted into the
      register. */
  lemma DeleteAtCursorTwo(t: string)
    requires Lines(t) == ["foo", "bar"]
    ensures 2 <= |t| && DeleteAtCursorCount(t, 0, 2) == 2 && t[0..2] == "fo"
  {
    DeleteAtOnFirstLine(t, 0, 2);
    PrefixesOfFoo(Lines(t)[0]);
  }

  /** "foo", "bar" at offset 0, count 2: line 0 becomes "o". */
  lemma DeleteAtCursorTwoLines(t: string)
    requires Lines(t) == ["foo", "bar"]
    ensures Lines(DeleteAtCursorText(t, 0, 2)) == ["o", "bar"]
  {
    DeleteAtLinesOnFirstLine(t, 0, 2);
    FooBarWithout(Lines(t), 2);
  }

  /** The first one and two characters of "foo". */
  lemma PrefixesOfFoo(line: string)
    requires line == "foo"
    ensures line[0..1] == "f" && line[0..2] == "fo"
  {
  }

  /** "foo", "bar" without the first `k` characters of "foo". */
  lemma FooBarWithout(ls: seq<string>, k: nat)
    requires ls == ["foo", "bar"] && 1 <= k <= 2
    ensures [ls[0][..0] + ls[0][k..]] + ls[1..] == [if k == 1 then "oo" else "o", "bar"]
  {
    assert ls[0][..0] + ls[0][k..] == if k == 1 then "oo" else "o";
  }

  // DeleteCharacterBeforeCursor

  /** "foo" at offset 1, count 1: "f" is deleted into the register. */
  lemma DeleteBeforeCursorOne(t: string)
    requires Lines(t) == ["foo"]
    ensures 1 <= |t| && DeleteBeforeCursorCount(t, 1, 1) == 1 && t[0..1] == "f"
  {
    DeleteBeforeOnFirstLine(t, 1, 1);
    PrefixesOfFoo(Lines(t)[0]);
  }

  /** "foo" at offset 1, count 1: the line becomes "oo". */
  lemma DeleteBeforeCursorOneLines(t: string)
    requires Lines(t) == ["foo"]
    ensures 1 <= |t| && Lines(DeleteBeforeCursorText(t, 1, 1)) == ["oo"]
  {
    DeleteBeforeLinesOnFirstLine(t, 1, 1);
    FooWithoutFirst(Lines(t));
  }

  /** "foo" without its first character. */
  lemma FooWithoutFirst(ls: seq<string>)
    requires ls == ["foo"]
    ensures [ls[0][..0] + ls[0][1..]] + ls[1..] == ["oo"]
  {
    assert ls[0][..0] + ls[0][1..] == "oo";
  }

  /** "foo", "bar" at the start of line 1: nothing is deleted, both lines
      stay. */
  lemma DeleteBeforeCursorLineStart(t: string)
    requires Lines(t) == ["foo", "bar"]
    ensures 4 <= |t| && DeleteBeforeCursorCount(t, 4, 1) == 0
    ensures DeleteBeforeCursorText(t, 4, 1) == t
  {
    OnSecondLine(t, 4);
    DeleteBeforeNothing(t, 4, 1);
  }

  /** "foo", "bar" at offset 2, count 2: "fo" is deleted into the
      register. */
  lemma DeleteBeforeCursorTwo(t: string)
    requires Lines(t) == ["foo", "bar"]
    ensures 2 <= |t| && DeleteBeforeCursorCount(t, 2, 2) == 2 && t[0..2] == "fo"
  {
    DeleteBeforeOnFirstLine(t, 2, 2);
    PrefixesOfFoo(Lines(t)[0]);
  }

  /** "foo", "bar" at offset 2, count 2: line 0 becomes "o". */
  lemma DeleteBeforeCursorTwoLines(t: string)
    requires Lines(t) == ["foo", "bar"]
    ensures 2 <= |t| && Lines(DeleteBeforeCursorText(t, 2, 2)) == ["o", "bar"]
  {
    DeleteBeforeLinesOnFirstLine(t, 2, 2);
    FooBarWithout(Lines(t), 2);
  }

  /** "foo" at offset 0, count 2: nothing is deleted. */
  lemma DeleteBeforeCursorColumnZero(t: string)
    requires Lines(t) == ["foo"]
    ensures DeleteBeforeCursorCount(t, 0, 2) == 0
    ensures DeleteBeforeCursorText(t, 0, 2) == t
  {
    OnFirstLine(t, 0);
    DeleteBeforeNothing(t, 0, 2);
  }

  // ReplaceChar

  /** "foo" at offset 0, 'b' once: "boo". */
  lemma ReplaceCharOnce(t: string)
    requires Lines(t) == ["foo"]
    ensures ReplaceCharFits(t, 0, 1)
    ensures Lines(ReplaceCharText(t, 0, Char('b'), 1)) == ["boo"]
  {
    ReplaceLiteralOnFirstLine(t, 0, 'b', 1);
    FooWithBs(Lines(t), 1);
  }

  /** "foo" at offset 0, 'b' twice: "bbo". */
  lemma ReplaceCharTwice(t: string)
    requires Lines(t) == ["foo"]
    ensures ReplaceCharFits(t, 0, 2)
    ensures Lines(ReplaceCharText(t, 0, Char('b'), 2)) == ["bbo"]
  {
    ReplaceLiteralOnFirstLine(t, 0, 'b', 2);
    FooWithBs(Lines(t), 2);
  }

  /** "foo" with its first `k` characters replaced by 'b'. */
  lemma FooWithBs(ls: seq<string>, k: nat)
    requires ls == ["foo"] && 1 <= k <= 2
    ensures [ls[0][..0] + Repeat(['b'], k) + ls[0][k..]] + ls[1..] == [if k == 1 then "boo" else "bbo"]
  {
    RepeatTwice("b");
    assert ls[0][..0] + Repeat(['b'], k) + ls[0][k..] == if k == 1 then "boo" else "bbo";
  }

  /** "foo" at offset 1, a line break once: lines "f" and "o". */
  lemma ReplaceCharBreakFoo(t: string)
    requires Lines(t) == ["foo"]
    ensures 1 <= |t| && ReplaceCharFits(t, 1, 1)
    ensures Lines(ReplaceCharText(t, 1, LineBreak, 1)) == ["f", "o"]
  {
    ReplaceBreakOnFirstLine(t, 1, 1);
    FooSplit(Lines(t));
  }

  /** "food" at offset 1, a line break with count 2: lines "f" and "d". */
  lemma ReplaceCharBreakFood(t: string)
    requires Lines(t) == ["food"]
    ensures 1 <= |t| && ReplaceCharFits(t, 1, 2)
    ensures Lines(ReplaceCharText(t, 1, LineBreak, 2)) == ["f", "d"]
  {
    ReplaceBreakOnFirstLine(t, 1, 2);
    FoodSplit(Lines(t));
  }

  /** "foo" split after "f", without the first "o". */
  lemma FooSplit(ls: seq<string>)
    requires ls == ["foo"]
    ensures [ls[0][..1], ls[0][2..]] + ls[1..] == ["f", "o"]
  {
    assert ls[0][..1] == "f" && ls[0][2..] == "o";
  }

  /** "food" split after "f", without "oo". */
  lemma FoodSplit(ls: seq<string>)
    requires ls == ["food"]
    ensures [ls[0][..1], ls[0][3..]] + ls[1..] == ["f", "d"]
  {
    assert ls[0][..1] == "f" && ls[0][3..] == "d";
  }

  /** "food" at offset 0 with count 200 does not fit: no edit. */
  lemma ReplaceCharTooMany(t: string)
    requires Lines(t) == ["food"]
    ensures !ReplaceCharFits(t, 0, 200)
  {
    OnFirstLine(t, 0);
  }

  // YankLines

  /** "foo", "bar" at offset 0, count 1: "foo" and a break. */
  lemma YankOneLine(t: string)
    requires Lines(t) == ["foo", "bar"]
    ensures YankedText(t, 0, 1) == "foo" + [NewLine]
  {
    OnFirstLine(t, 0);
    assert Lines(t)[0..YankEnd(t, 0, 1)] == ["foo"];
    assert Terminated(["foo"]) == "foo" + [NewLine] + Terminated([]);
  }

  /** "foo", "bar", "jazz" at offset 0, count 2: "foo" and "bar", each with
      its break. */
  lemma YankTwoLines(t: string)
    requires Lines(t) == ["foo", "bar", "jazz"]
    ensures YankedText(t, 0, 2) == "foo" + [NewLine] + "bar" + [NewLine]
  {
    OnFirstLine(t, 0);
    assert Lines(t)[0..YankEnd(t, 0, 2)] == ["foo", "bar"];
    assert Terminated(["foo", "bar"]) == "foo" + [NewLine] + Terminated(["bar"]);
    assert Terminated(["bar"]) == "bar" + [NewLine] + Terminated([]);
  }

  // PasteAfter

  /** "foo bar" at offset 0, "hey" once, character-wise: "fheyoo bar". */
  lemma PasteAfterInLine(t: string)
    requires Lines(t) == ["foo bar"]
    ensures Lines(PasteAfterText(t, 0, "hey", 1, CharacterWise)) == ["fheyoo bar"]
  {
    NoBreakPayloads();
    PasteAfterOnFirstLine(t, 0, 1, "hey", 1);
    HeyInFirstLine(Lines(t), 1, 1, "fheyoo bar");
  }

  /** "foo", "bar" at the end of the buffer, "hello" once, character-wise:
      line 1 becomes "barhello". */
  lemma PasteAfterEndOfBuffer(t: string)
    requires Lines(t) == ["foo", "bar"]
    ensures 7 <= |t|
    ensures Lines(PasteAfterText(t, 7, "hello", 1, CharacterWise)) == ["foo", "barhello"]
  {
    NoBreakPayloads();
    PasteAfterOnSecondLine(t, 7, 3, "hello", 1);
    HelloAfterBar(Lines(t));
  }

  /** "hello" at the end of "bar", line 1 of "foo", "bar". */
  lemma HelloAfterBar(ls: seq<string>)
    requires ls == ["foo", "bar"]
    ensures ls[..1] + [ls[1][..3] + Repeat("hello", 1) + ls[1][3..]] + ls[2..] == ["foo", "barhello"]
  {
    RepeatTwice("hello");
    assert ls[1][..3] + "hello" + ls[1][3..] == "barhello";
  }

  /** "foo", "" at the end of the buffer, "bar" once, character-wise: line
      1 becomes "bar". */
  lemma PasteAfterEmptyLastLine(t: string)
    requires Lines(t) == ["foo", ""]
    ensures 4 <= |t|
    ensures Lines(PasteAfterText(t, 4, "bar", 1, CharacterWise)) == ["foo", "bar"]
  {
    NoBreakPayloads();
    PasteAfterOnSecondLine(t, 4, 0, "bar", 1);
    BarIntoEmpty(Lines(t));
  }

  /** "bar" into the empty line 1 of "foo", "". */
  lemma BarIntoEmpty(ls: seq<string>)
    requires ls == ["foo", ""]
    ensures ls[..1] + [ls[1][..0] + Repeat("bar", 1) + ls[1][0..]] + ls[2..] == ["foo", "bar"]
  {
    RepeatTwice("bar");
    assert ls[1][..0] + "bar" + ls[1][0..] == "bar";
  }

  /** "foo", "bar" at offset 0, "baz" and a break once, line-wise: lines
      "foo", "baz", "bar", the caret at the start of line 1. */
  lemma PasteAfterLineWise(t: string, moveCaret: bool)
    requires Lines(t) == ["foo", "bar"]
    ensures Lines(PasteAfterText(t, 0, "baz" + [NewLine], 1, LineWise)) == ["foo", "baz", "bar"]
    ensures PasteAfterCaret(t, 0, "baz" + [NewLine], 1, LineWise, moveCaret) <= |PasteAfterText(t, 0, "baz" + [NewLine], 1, LineWise)|
    ensures LineNumber(PasteAfterText(t, 0, "baz" + [NewLine], 1, LineWise), PasteAfterCaret(t, 0, "baz" + [NewLine], 1, LineWise, moveCaret)) == 1
    ensures LineStart(PasteAfterText(t, 0, "baz" + [NewLine], 1, LineWise), PasteAfterCaret(t, 0, "baz" + [NewLine], 1, LineWise, moveCaret))
         == PasteAfterCaret(t, 0, "baz" + [NewLine], 1, LineWise, moveCaret)
  {
    OnFirstLine(t, 0);
    var ls := Lines(t);
    var x := "baz" + [NewLine];
    assert Lines(PasteAfterText(t, 0, x, 1, LineWise)) == ls[..1] + Lines(LineBody(Repeat(x, 1))) + ls[1..] by {
      PasteAfterLineLines(t, 0, x, 1);
    }
    assert Lines(LineBody(Repeat(x, 1))) == ["baz"] by {
      RepeatTwice(x);
      AppendedBreak("baz");
      LinesOfNoBreak("baz");
    }
    PasteAfterLineCaret(t, 0, x, 1, moveCaret);
  }

  /** "foo" at offset 0, "hey" twice, character-wise: "fheyheyoo". */
  lemma PasteAfterRepeated(t: string)
    requires Lines(t) == ["foo"]
    ensures Lines(PasteAfterText(t, 0, "hey", 2, CharacterWise)) == ["fheyheyoo"]
  {
    NoBreakPayloads();
    PasteAfterOnFirstLine(t, 0, 1, "hey", 2);
    HeyInFirstLine(Lines(t), 1, 2, "fheyheyoo");
  }

  /** "foo" at offset 0, "hey" once, character-wise, moving the caret:
      "fheyoo", the caret at 4. */
  lemma PasteAfterMovingCaret(t: string)
    requires Lines(t) == ["foo"]
    ensures Lines(PasteAfterText(t, 0, "hey", 1, CharacterWise)) == ["fheyoo"]
    ensures PasteAfterCaret(t, 0, "hey", 1, CharacterWise, true) == 4
  {
    PastePointOnFirstLine(t, 0, 1);
    NoBreakPayloads();
    PasteAfterOnFirstLine(t, 0, 1, "hey", 1);
    HeyInFirstLine(Lines(t), 1, 1, "fheyoo");
  }

  /** "foo", "bar" at the end of line 0, "hey" once, character-wise: line 0
      becomes "foohey". */
  lemma PasteAfterEndOfLine(t: string)
    requires Lines(t) == ["foo", "bar"]
    ensures 3 <= |t|
    ensures Lines(PasteAfterText(t, 3, "hey", 1, CharacterWise)) == ["foohey", "bar"]
  {
    NoBreakPayloads();
    PasteAfterOnFirstLine(t, 3, 3, "hey", 1);
    HeyAfterFoo(Lines(t));
  }

  /** "hey" at the end of "foo", line 0 of "foo", "bar". */
  lemma HeyAfterFoo(ls: seq<string>)
    requires ls == ["foo", "bar"]
    ensures [ls[0][..3] + Repeat("hey", 1) + ls[0][3..]] + ls[1..] == ["foohey", "bar"]
  {
    RepeatTwice("hey");
    assert ls[0][..3] + "hey" + ls[0][3..] == "foohey";
  }

  // PasteBefore

  /** "foo" at offset 0, "hey" once: "heyfoo"; moving the caret puts it
      at 3. */
  lemma PasteBeforeOnce(t: string)
    requires Lines(t) == ["foo"]
    ensures Lines(PasteBeforeText(t, 0, "hey", 1)) == ["heyfoo"]
    ensures PasteBeforeCaret(0, "hey", 1, true) == 3
  {
    NoBreakPayloads();
    PasteBeforeOnFirstLine(t, 0, "hey", 1);
    HeyInFirstLine(Lines(t), 0, 1, "heyfoo");
  }

  /** "foo" at offset 0, "hey" twice: "heyheyfoo". */
  lemma PasteBeforeTwice(t: string)
    requires Lines(t) == ["foo"]
    ensures Lines(PasteBeforeText(t, 0, "hey", 2)) == ["heyheyfoo"]
  {
    NoBreakPayloads();
    PasteBeforeOnFirstLine(t, 0, "hey", 2);
    HeyInFirstLine(Lines(t), 0, 2, "heyheyfoo");
  }

  /** "foo", "bar" at the end of line 0, "hey" once: line 0 becomes
      "foohey". */
  lemma PasteBeforeEndOfLine(t: string)
    requires Lines(t) == ["foo", "bar"]
    ensures 3 <= |t|
    ensures Lines(PasteBeforeText(t, 3, "hey", 1)) == ["foohey", "bar"]
  {
    NoBreakPayloads();
    PasteBeforeOnFirstLine(t, 3, "hey", 1);
    HeyAfterFoo(Lines(t));
  }

  // InsertLineAbove

  /** "foo" at offset 0: an empty line 0 above "foo", the caret at offset
      0. */
  lemma InsertLineAboveFirst(t: string)
    requires Lines(t) == ["foo"]
    ensures Lines(InsertLineAboveText(t, 0)) == ["", "foo"]
    ensures LineStart(t, 0) == 0
  {
    OnFirstLine(t, 0);
    InsertLineAboveLines(t, 0);
  }

  /** "foo", "bar" at the start of line 1: the caret ends on line 1, which
      is empty. */
  lemma InsertLineAboveSecond(t: string)
    requires Lines(t) == ["foo", "bar"]
    ensures 4 <= |t| && LineStart(t, 4) <= |InsertLineAboveText(t, 4)|
    ensures LineNumber(InsertLineAboveText(t, 4), LineStart(t, 4)) == 1
    ensures Lines(InsertLineAboveText(t, 4)) == ["foo", "", "bar"]
  {
    OnSecondLine(t, 4);
    InsertLineAboveLines(t, 4);
    InsertLineAboveCaret(t, 4);
  }
}
