/** What the operations' edits do to the lines of a text.

    Each edit is a change of the flat text; the lemmas here say which
    lines it yields, so that the operations can promise line-level
    effects ("line 0 becomes `oo`", "an empty line appears at line 1"). */
module LineEdits {
  import opened LineText

  /** `s` concatenated with itself `n` times (the paste payload, and the
      replacement text of a literal `ReplaceChar`). */
  function Repeat(s: string, n: nat): (r: string)
    ensures |r| == n * |s|
  {
    if n == 0 then [] else s + Repeat(s, n - 1)
  }

  /** The text of line-wise content without its closing break: the lines
      it holds, joined. */
  function LineBody(s: string): (r: string)
    ensures |s| > 0 && s[|s| - 1] == NewLine ==> r + [NewLine] == s
    ensures !(|s| > 0 && s[|s| - 1] == NewLine) ==> r == s
  {
    if |s| > 0 && s[|s| - 1] == NewLine then s[..|s| - 1] else s
  }

  /** Replacing `t[p..q]`, inside one line, by a text without breaks
      changes that line alone, and it only between the same columns. */
  lemma ReplaceInLine(t: string, p: nat, q: nat, r: string)
    requires p <= q <= |t| && q <= LineEnd(t, p)
    requires NoBreak(r)
    ensures LineNumber(t, p) < |Lines(t)|
    ensures q - LineStart(t, p) <= |Lines(t)[LineNumber(t, p)]|
    ensures Lines(t[..p] + r + t[q..])
         == Lines(t)[..LineNumber(t, p)]
            + [Lines(t)[LineNumber(t, p)][..p - LineStart(t, p)] + r + Lines(t)[LineNumber(t, p)][q - LineStart(t, p)..]]
            + Lines(t)[LineNumber(t, p) + 1..]
  {
    EditWithinLine(t, p, q, r);
    var line := Lines(t)[LineNumber(t, p)];
    LineHasNoBreak(t, LineNumber(t, p));
    var mid := line[..p - LineStart(t, p)] + r + line[q - LineStart(t, p)..];
    NoBreakSplice(line, p - LineStart(t, p), q - LineStart(t, p), r);
    LinesOfNoBreak(mid);
    Substitute(Lines(t[..p] + r + t[q..]), Lines(t)[..LineNumber(t, p)], Lines(mid), [mid],
      Lines(t)[LineNumber(t, p) + 1..]);
  }

  /** Replacing `t[p..q]`, inside one line, by one break splits that line
      in two: its columns before `p` and its columns from `q` on. */
  lemma SplitInLine(t: string, p: nat, q: nat)
    requires p <= q <= |t| && q <= LineEnd(t, p)
    ensures LineNumber(t, p) < |Lines(t)|
    ensures q - LineStart(t, p) <= |Lines(t)[LineNumber(t, p)]|
    ensures Lines(t[..p] + [NewLine] + t[q..])
         == Lines(t)[..LineNumber(t, p)]
            + [Lines(t)[LineNumber(t, p)][..p - LineStart(t, p)], Lines(t)[LineNumber(t, p)][q - LineStart(t, p)..]]
            + Lines(t)[LineNumber(t, p) + 1..]
  {
    EditWithinLine(t, p, q, [NewLine]);
    var line := Lines(t)[LineNumber(t, p)];
    LineHasNoBreak(t, LineNumber(t, p));
    SplitLine(line, p - LineStart(t, p), q - LineStart(t, p));
    Substitute(Lines(t[..p] + [NewLine] + t[q..]), Lines(t)[..LineNumber(t, p)],
      Lines(line[..p - LineStart(t, p)] + [NewLine] + line[q - LineStart(t, p)..]),
      [line[..p - LineStart(t, p)], line[q - LineStart(t, p)..]], Lines(t)[LineNumber(t, p) + 1..]);
  }

  /** Putting `[NewLine] + body` at the end `e` of a line inserts the lines
      of `body` right after that line, whether or not it is the last one. */
  lemma LinesAfterLine(t: string, e: nat, body: string)
    requires e <= |t| && (e == |t| || t[e] == NewLine)
    ensures LineNumber(t, e) < |Lines(t)|
    ensures Lines(t[..e] + [NewLine] + body + t[e..])
         == Lines(t)[..LineNumber(t, e) + 1] + Lines(body) + Lines(t)[LineNumber(t, e) + 1..]
  {
    assert LineEnd(t, e) == e;
    EditWithinLine(t, e, e, [NewLine] + body);
    var n, s := LineNumber(t, e), LineStart(t, e);
    var line := Lines(t)[n];
    assert |line| == e - s by {
      LineAt(t, e);
    }
    var mid := line[..e - s] + ([NewLine] + body) + line[e - s..];
    LineHasNoBreak(t, n);
    AppendAtEnd(line, [NewLine] + body);
    LineThenLines(line, body);
    Substitute(Lines(t[..e] + ([NewLine] + body) + t[e..]), Lines(t)[..n], Lines(mid),
      [line] + Lines(body), Lines(t)[n + 1..]);
    SplitAfter(Lines(t), n, Lines(body));
    Regroup(t[..e], [NewLine], body, t[e..]);
  }

  /** Inserting at the very end of a sequence appends. */
  lemma AppendAtEnd<T>(line: seq<T>, x: seq<T>)
    ensures line[..|line|] + x + line[|line|..] == line + x
  {
    assert line[..|line|] == line;
  }

  /** Concatenation regrouped. */
  lemma Regroup<T>(a: seq<T>, b: seq<T>, c: seq<T>, d: seq<T>)
    ensures a + b + c + d == a + (b + c) + d
  {
  }

  /** Putting a break at the start `s` of a line inserts an empty line in
      front of it. */
  lemma EmptyLineBefore(t: string, s: nat)
    requires s <= |t| && (s == 0 || t[s - 1] == NewLine)
    ensures LineNumber(t, s) < |Lines(t)|
    ensures Lines(t[..s] + [NewLine] + t[s..])
         == Lines(t)[..LineNumber(t, s)] + [[]] + Lines(t)[LineNumber(t, s)..]
  {
    assert LineStart(t, s) == s;
    SplitInLine(t, s, s);
    var line := Lines(t)[LineNumber(t, s)];
    assert line[..0] == [] && line[0..] == line;
    SplitBefore(Lines(t), LineNumber(t, s), []);
  }

  /** Offsets between the start and the end of one line are on that
      line: same number, same start, same end. */
  lemma SameLine(t: string, c: nat, p: nat)
    requires c <= |t| && LineStart(t, c) <= p <= LineEnd(t, c)
    ensures LineNumber(t, p) == LineNumber(t, c)
    ensures LineStart(t, p) == LineStart(t, c) && LineEnd(t, p) == LineEnd(t, c)
  {
    var s, e := LineStart(t, c), LineEnd(t, c);
    NoBreakFromLineStart(t, c);
    NoBreakToLineEnd(t, c);
    NoBreakUpTo(t, s, c, e, p);
    LineEndFrom(t, s, p);
    LineEndFrom(t, s, c);
    assert LineNumber(t, p) == LineNumber(t, s) by {
      BreaksWithinLine(t, s, p);
    }
    assert LineNumber(t, c) == LineNumber(t, s) by {
      BreaksWithinLine(t, s, c);
    }
    var sp := LineStart(t, p);
    assert LineNumber(t, sp) == LineNumber(t, p) by {
      LineOfStart(t, p);
    }
    UniqueLineStart(t, sp, s);
  }

  /** No break from `s` to `c` and from `c` to `e`: none from `s` to any
      `p` in between. */
  lemma NoBreakUpTo(t: string, s: nat, c: nat, e: nat, p: nat)
    requires s <= c <= e <= |t| && s <= p <= e
    requires NoBreak(t[s..c]) && NoBreak(t[c..e])
    ensures NoBreak(t[s..p])
  {
    assert t[s..e] == t[s..c] + t[c..e];
    assert t[s..p] == t[s..e][..p - s];
  }

  /** A line cut at two columns and joined by a break is two lines. */
  lemma SplitLine(line: string, a: nat, b: nat)
    requires a <= b <= |line| && NoBreak(line)
    ensures Lines(line[..a] + [NewLine] + line[b..]) == [line[..a], line[b..]]
  {
    assert line == line[..a] + line[a..b] + line[b..];
    LinesOfAppend(line[..a], line[b..]);
    LinesOfNoBreak(line[..a]);
    LinesOfNoBreak(line[b..]);
  }

  /** A line followed by a break and a text: that line, then the text's
      lines. */
  lemma LineThenLines(line: string, body: string)
    requires NoBreak(line)
    ensures Lines(line + ([NewLine] + body)) == [line] + Lines(body)
  {
    assert line + ([NewLine] + body) == line + [NewLine] + body;
    LinesOfAppend(line, body);
    LinesOfNoBreak(line);
  }

  /** Splicing a text without breaks into one keeps it without breaks. */
  lemma NoBreakSplice(line: string, a: nat, b: nat, r: string)
    requires a <= b <= |line| && NoBreak(line) && NoBreak(r)
    ensures NoBreak(line[..a] + r + line[b..])
  {
    assert line == line[..a] + line[a..b] + line[b..];
  }

  /** `ls` with `m` spliced in after element `n`. */
  lemma SplitAfter<T>(ls: seq<T>, n: nat, m: seq<T>)
    requires n < |ls|
    ensures ls[..n] + ([ls[n]] + m) + ls[n + 1..] == ls[..n + 1] + m + ls[n + 1..]
  {
    assert ls[..n + 1] == ls[..n] + [ls[n]];
  }

  /** `ls` with `x` put in front of element `n`. */
  lemma SplitBefore<T>(ls: seq<T>, n: nat, x: T)
    requires n < |ls|
    ensures ls[..n] + [x, ls[n]] + ls[n + 1..] == ls[..n] + [x] + ls[n..]
  {
    assert ls[n..] == [ls[n]] + ls[n + 1..];
  }
}
