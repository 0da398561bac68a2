/** Immutable text snapshots and their lines.

    A snapshot is one generation of the buffer: its text and a version
    number. Snapshots are values; an edit yields a new snapshot with the
    next version, so "the buffer still shows the same snapshot" is plain
    equality of snapshots.
 */
module TextSnapshots {
  import opened LineText

  /** One line of a snapshot, by offsets: `[start, end)` is its text,
      `[end, endIncludingLineBreak)` its break (empty on the last line). */
  datatype SnapshotLine = SnapshotLine(lineNumber: nat, start: nat, end: nat, endIncludingLineBreak: nat)

  datatype Snapshot = Snapshot(version: nat, text: string) {

    /** The number of lines: one more than the number of breaks. */
    function LineCount(): (n: nat)
      ensures n == Breaks(text) + 1
    {
      CountOfLines(text);
      |Lines(text)|
    }

    /** The line holding offset `p` (`GetLineFromPosition`). */
    function GetLineFromPosition(p: nat): (l: SnapshotLine)
      requires p <= |text|
      ensures l.lineNumber == LineNumber(text, p) < LineCount()
      ensures l.start == LineStart(text, p) && l.end == LineEnd(text, p)
      ensures l.start <= p <= l.end <= l.endIncludingLineBreak <= |text|
      ensures text[l.start..l.end] == Lines(text)[l.lineNumber]
      ensures l.end < |text| <==> l.lineNumber + 1 < LineCount()
      ensures l.end < |text| ==> text[l.end] == NewLine && l.endIncludingLineBreak == l.end + 1
      ensures l.end == |text| ==> l.endIncludingLineBreak == |text|
    {
      LineAt(text, p);
      LastLine(text, p);
      var e := LineEnd(text, p);
      SnapshotLine(LineNumber(text, p), LineStart(text, p), e, if e < |text| then e + 1 else e)
    }

    /** Line number `n` (`GetLineFromLineNumber`). */
    function GetLineFromLineNumber(n: nat): (l: SnapshotLine)
      requires n < LineCount()
      ensures l.lineNumber == n
      ensures l.start == StartOfLine(text, n) && l.end == LineEnd(text, l.start)
      ensures l.start <= l.end <= l.endIncludingLineBreak <= |text|
      ensures text[l.start..l.end] == Lines(text)[n]
      ensures l.end < |text| <==> n + 1 < LineCount()
      ensures l.end < |text| ==> text[l.end] == NewLine && l.endIncludingLineBreak == l.end + 1
      ensures l.end == |text| ==> l.endIncludingLineBreak == |text|
    {
      var s := StartOfLine(text, n);
      LineOfStart(text, s);
      GetLineFromPosition(s)
    }

    /** The text of line `n`, its break left out
        (`GetLineFromLineNumber(n).GetText()`): the `n`th of the lines the
        text splits into. */
    function GetLineText(n: nat): (s: string)
      requires n < LineCount()
      ensures s == Lines(text)[n]
    {
      var l := GetLineFromLineNumber(n);
      text[l.start..l.end]
    }

    /** The line holding `p` is the line with that line number. */
    lemma LineOfPosition(p: nat)
      requires p <= |text|
      ensures GetLineFromPosition(p) == GetLineFromLineNumber(GetLineFromPosition(p).lineNumber)
    {
      LineOfStart(text, p);
    }

    /** Line `n` as text, break included; the last line gets one added. */
    lemma LineSpan(n: nat)
      requires n < LineCount()
      ensures var l := GetLineFromLineNumber(n);
        text[l.start..l.endIncludingLineBreak] + (if n + 1 == LineCount() then [NewLine] else [])
        == Lines(text)[n] + [NewLine]
    {
      var l := GetLineFromLineNumber(n);
      if l.end < |text| {
        SliceBack(text, l.start, l.end + 1);
      }
    }

    /** A line that is not the last one ends, break included, where the next
        line starts. */
    lemma NextLineStart(n: nat)
      requires n + 1 < LineCount()
      ensures GetLineFromLineNumber(n).endIncludingLineBreak == GetLineFromLineNumber(n + 1).start
    {
    }

    /** Whether the span from the start of line `a` to the end of line `b`,
        break included, with a break added when `b` is the last line (which
        has none), is lines `a` to `b` each followed by its break. */
    ghost predicate SpanIsLines(a: nat, b: nat)
      requires a <= b < LineCount()
    {
      var x, z := GetLineFromLineNumber(a).start, GetLineFromLineNumber(b).endIncludingLineBreak;
      && x <= z
      && text[x..z] + (if b + 1 == LineCount() then [NewLine] else []) == Terminated(Lines(text)[a..b + 1])
    }

    /** The span from the start of line `a` to the end of line `b`, break
        included, is lines `a` to `b` each with its break; when `b` is the
        last line, which has no break, the break is missing from the span. */
    lemma {:induction false} SpanOfLines(a: nat, b: nat)
      requires a <= b < LineCount()
      ensures SpanIsLines(a, b)
      decreases b - a
    {
      if a == b {
        SpanOfOneLine(a);
      } else {
        SpanOfLines(a + 1, b);
        SpanOfOneMoreLine(a, b);
      }
    }

    lemma SpanOfOneLine(a: nat)
      requires a < LineCount()
      ensures SpanIsLines(a, a)
    {
      var ls := Lines(text);
      LineSpan(a);
      SliceFront(ls, a, a + 1);
      assert Terminated([ls[a]]) == ls[a] + [NewLine] + Terminated([]);
    }

    lemma SpanOfOneMoreLine(a: nat, b: nat)
      requires a < b < LineCount()
      requires SpanIsLines(a + 1, b)
      ensures SpanIsLines(a, b)
    {
      var ls := Lines(text);
      var x, z := GetLineFromLineNumber(a).start, GetLineFromLineNumber(b).endIncludingLineBreak;
      var extra: string := if b + 1 == LineCount() then [NewLine] else [];
      NextLineStart(a);
      LineSpan(a);
      SpanStepFront(text, x, GetLineFromLineNumber(a + 1).start, z, extra, ls[a], ls[a + 1..b + 1]);
      SliceFront(ls, a, b + 1);
      var span := text[x..z] + extra;
      assert span == Terminated(ls[a..b + 1]);
    }

    /** The snapshot that replacing `length` characters at `start` by
        `replacement` produces (`ITextBuffer.Replace`): the next version,
        with the text before and after the span kept. */
    function Replace(start: nat, length: nat, replacement: string): (r: Snapshot)
      requires start + length <= |text|
      ensures r.version == version + 1
      ensures |r.text| == |text| - length + |replacement|
      ensures r.text[..start] == text[..start]
      ensures r.text[start..start + |replacement|] == replacement
      ensures r.text[start + |replacement|..] == text[start + length..]
    {
      Snapshot(version + 1, text[..start] + replacement + text[start + length..])
    }
  }

  /** One more line put in front of a span of terminated lines. */
  lemma SpanStepFront(t: string, x: nat, y: nat, z: nat, extra: string, l: string, ls: seq<string>)
    requires x <= y <= z <= |t|
    requires t[x..y] == l + [NewLine]
    requires t[y..z] + extra == Terminated(ls)
    ensures t[x..z] + extra == Terminated([l] + ls)
  {
    assert t[x..z] == t[x..y] + t[y..z];
    assert t[x..z] + extra == t[x..y] + (t[y..z] + extra);
    assert ([l] + ls)[1..] == ls;
  }

  /** A slice is its first element followed by the rest. */
  lemma SliceFront<T>(ls: seq<T>, a: nat, b: nat)
    requires a < b <= |ls|
    ensures ls[a..b] == [ls[a]] + ls[a + 1..b]
  {
  }

  /** A slice is its elements but the last, then the last. */
  lemma SliceBack<T>(s: seq<T>, x: nat, y: nat)
    requires x < y <= |s|
    ensures s[x..y] == s[x..y - 1] + [s[y - 1]]
  {
  }
}
