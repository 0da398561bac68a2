/** The line structure of a flat buffer text.

    A buffer's text is one character sequence in which a single abstract
    character, `NewLine`, separates lines (the platform's break encoding is
    not modelled). Every other notion of "line" in the model is derived
    from `Lines`, which splits a text at its breaks.
 */
module LineText {

  /** The one line-break marker of the model. */
  const NewLine: char := '\n'

  /** A text holding no line break: the text of a single line. */
  predicate NoBreak(s: string) {
    NewLine !in s
  }

  /** The lines of `t`: the maximal break-free pieces between its breaks.
      A text with `b` breaks has `b + 1` lines; the empty text has one
      empty line. */
  function Lines(t: string): (r: seq<string>)
    ensures |r| >= 1
    decreases |t|
  {
    if t == [] then [[]]
    else
      var rest := Lines(t[1..]);
      if t[0] == NewLine then [[]] + rest
      else [[t[0]] + rest[0]] + rest[1..]
  }

  /** No line holds a break. */
  lemma {:induction false} LineHasNoBreak(t: string, i: nat)
    requires i < |Lines(t)|
    ensures NoBreak(Lines(t)[i])
    decreases |t|
  {
    if t != [] {
      var rest := Lines(t[1..]);
      if t[0] == NewLine {
        if i > 0 {
          LineHasNoBreak(t[1..], i - 1);
          assert Lines(t)[i] == rest[i - 1];
        }
      } else {
        if i == 0 {
          LineHasNoBreak(t[1..], 0);
          assert Lines(t)[0] == [t[0]] + rest[0];
        } else {
          LineHasNoBreak(t[1..], i);
          assert Lines(t)[i] == rest[i];
        }
      }
    }
  }

  /** The lines joined back with one break between neighbours. */
  function Join(ls: seq<string>): (r: string)
    requires |ls| >= 1
    decreases |ls|
  {
    if |ls| == 1 then ls[0] else ls[0] + [NewLine] + Join(ls[1..])
  }

  /** The lines each followed by its break: the text of a line-wise
      register value. */
  function Terminated(ls: seq<string>): (r: string)
    ensures |ls| > 0 ==> |r| > 0 && r[|r| - 1] == NewLine
    decreases |ls|
  {
    if ls == [] then [] else ls[0] + [NewLine] + Terminated(ls[1..])
  }

  /** The start of the line holding offset `p`: just after the last break
      before `p`, or 0. */
  function LineStart(t: string, p: nat): (s: nat)
    requires p <= |t|
    ensures s <= p
    ensures s == 0 || t[s - 1] == NewLine
    decreases p
  {
    if p == 0 || t[p - 1] == NewLine then p
    else
      LineStart(t, p - 1)
  }

  /** The end of the line holding offset `p`, excluding its break: the first
      break at or after `p`, or the end of the text. */
  function LineEnd(t: string, p: nat): (e: nat)
    requires p <= |t|
    ensures p <= e <= |t|
    ensures e == |t| || t[e] == NewLine
    decreases |t| - p
  {
    if p == |t| || t[p] == NewLine then p
    else
      LineEnd(t, p + 1)
  }

  /** No break between the start of a line and an offset on it. */
  lemma {:induction false} NoBreakFromLineStart(t: string, p: nat)
    requires p <= |t|
    ensures NoBreak(t[LineStart(t, p)..p])
    decreases p
  {
    if !(p == 0 || t[p - 1] == NewLine) {
      NoBreakFromLineStart(t, p - 1);
      var s := LineStart(t, p - 1);
      assert t[s..p] == t[s..p - 1] + [t[p - 1]];
    }
  }

  /** No break between an offset on a line and the end of that line. */
  lemma {:induction false} NoBreakToLineEnd(t: string, p: nat)
    requires p <= |t|
    ensures NoBreak(t[p..LineEnd(t, p)])
    decreases |t| - p
  {
    if !(p == |t| || t[p] == NewLine) {
      NoBreakToLineEnd(t, p + 1);
      var e := LineEnd(t, p + 1);
      assert t[p..e] == [t[p]] + t[p + 1..e];
    }
  }

  /** The text of a line holds no break. */
  lemma NoBreakInLine(t: string, p: nat)
    requires p <= |t|
    ensures NoBreak(t[LineStart(t, p)..LineEnd(t, p)])
  {
    var s, e := LineStart(t, p), LineEnd(t, p);
    NoBreakFromLineStart(t, p);
    NoBreakToLineEnd(t, p);
    assert t[s..e] == t[s..p] + t[p..e];
  }

  /** The number of breaks in `s`. */
  function Breaks(s: string): nat
    decreases |s|
  {
    if s == [] then 0 else (if s[0] == NewLine then 1 else 0) + Breaks(s[1..])
  }

  /** A break-free text has no breaks. */
  lemma {:induction false} BreaksOfNoBreak(s: string)
    requires NoBreak(s)
    ensures Breaks(s) == 0
    decreases |s|
  {
    if s != [] {
      assert s[0] in s;
      assert forall x :: x in s[1..] ==> x in s;
      BreaksOfNoBreak(s[1..]);
    }
  }

  /** The number of the line holding offset `p`: the breaks before it. */
  function LineNumber(t: string, p: nat): nat
    requires p <= |t|
  {
    Breaks(t[..p])
  }

  /** A text with `b` breaks has `b + 1` lines. */
  lemma {:induction false} CountOfLines(t: string)
    ensures |Lines(t)| == Breaks(t) + 1
    decreases |t|
  {
    if t != [] {
      CountOfLines(t[1..]);
      assert t == [t[0]] + t[1..];
    }
  }

  /** A break-free text is one line. */
  lemma {:induction false} LinesOfNoBreak(s: string)
    requires NoBreak(s)
    ensures Lines(s) == [s]
    decreases |s|
  {
    if s != [] {
      assert s == [s[0]] + s[1..];
      LinesOfNoBreak(s[1..]);
    }
  }

  /** Splitting at a break: the lines of `a`, then the lines of `b`. */
  lemma {:induction false} LinesOfAppend(a: string, b: string)
    ensures Lines(a + [NewLine] + b) == Lines(a) + Lines(b)
    decreases |a|
  {
    if a == [] {
      var t := a + [NewLine] + b;
      assert t == [NewLine] + b;
      assert t[1..] == b;
      assert Lines(t) == [[]] + Lines(b);
    } else {
      LinesOfAppend(a[1..], b);
      if a[0] == NewLine {
        AppendStepAtBreak(a, b);
      } else {
        AppendStepInLine(a, b);
      }
    }
  }

  /** The step of `LinesOfAppend` for a text that starts with a break. */
  lemma AppendStepAtBreak(a: string, b: string)
    requires a != [] && a[0] == NewLine
    requires Lines(a[1..] + [NewLine] + b) == Lines(a[1..]) + Lines(b)
    ensures Lines(a + [NewLine] + b) == Lines(a) + Lines(b)
  {
    var t := a + [NewLine] + b;
    assert t[0] == a[0] && t[1..] == a[1..] + [NewLine] + b;
    var restA := Lines(a[1..]);
    assert Lines(t) == [[]] + (restA + Lines(b));
    assert Lines(a) == [[]] + restA;
    ConsAppend([], restA, Lines(b));
  }

  /** The step of `LinesOfAppend` for a text that starts inside a line. */
  lemma AppendStepInLine(a: string, b: string)
    requires a != [] && a[0] != NewLine
    requires Lines(a[1..] + [NewLine] + b) == Lines(a[1..]) + Lines(b)
    ensures Lines(a + [NewLine] + b) == Lines(a) + Lines(b)
  {
    var t := a + [NewLine] + b;
    assert t[0] == a[0] && t[1..] == a[1..] + [NewLine] + b;
    LinesInLine(t);
    LinesInLine(a);
    GlueHead([a[0]], Lines(t[1..]), Lines(a[1..]), Lines(b));
  }

  /** `Lines` of a text that starts inside a line, unfolded once. */
  lemma LinesInLine(t: string)
    requires t != [] && t[0] != NewLine
    ensures Lines(t) == [[t[0]] + Lines(t[1..])[0]] + Lines(t[1..])[1..]
  {
  }

  /** Joining `h` to the first of the lines `rest`, which are `restA`
      followed by `lb`. */
  lemma GlueHead(h: string, rest: seq<string>, restA: seq<string>, lb: seq<string>)
    requires rest == restA + lb && |restA| >= 1
    ensures [h + rest[0]] + rest[1..] == ([h + restA[0]] + restA[1..]) + lb
  {
    assert rest[1..] == restA[1..] + lb;
  }

  /** Putting an element in front of a concatenation. */
  lemma ConsAppend<T>(x: T, r: seq<T>, p: seq<T>)
    ensures [x] + (r + p) == ([x] + r) + p
  {
  }

  /** `Lines` undoes `Join` of break-free lines. */
  lemma {:induction false} LinesOfJoin(ls: seq<string>)
    requires |ls| >= 1
    requires forall i :: 0 <= i < |ls| ==> NoBreak(ls[i])
    ensures Lines(Join(ls)) == ls
    decreases |ls|
  {
    if |ls| == 1 {
      LinesOfNoBreak(ls[0]);
    } else {
      LinesOfNoBreak(ls[0]);
      LinesOfJoin(ls[1..]);
      LinesOfAppend(ls[0], Join(ls[1..]));
      assert ls == [ls[0]] + ls[1..];
    }
  }

  /** `Join` undoes `Lines`: splitting a text loses nothing. */
  lemma {:induction false} JoinOfLines(t: string)
    ensures Join(Lines(t)) == t
    decreases |t|
  {
    if t != [] {
      JoinOfLines(t[1..]);
      var rest := Lines(t[1..]);
      assert t == [t[0]] + t[1..];
      if t[0] == NewLine {
        assert ([[]] + rest)[1..] == rest;
      } else {
        var ls := [[t[0]] + rest[0]] + rest[1..];
        assert ls[1..] == rest[1..];
        if |rest| > 1 {
          assert rest == [rest[0]] + rest[1..];
        }
      }
    }
  }

  /** A non-empty run of terminated lines is their join plus one break. */
  lemma {:induction false} TerminatedIsJoinAndBreak(ls: seq<string>)
    requires |ls| >= 1
    ensures Terminated(ls) == Join(ls) + [NewLine]
    decreases |ls|
  {
    if |ls| > 1 {
      TerminatedIsJoinAndBreak(ls[1..]);
    }
  }

  /** Terminated runs concatenate. */
  lemma {:induction false} TerminatedAppend(ls: seq<string>, l: string)
    ensures Terminated(ls + [l]) == Terminated(ls) + l + [NewLine]
    decreases |ls|
  {
    if ls == [] {
      assert Terminated([l]) == l + [NewLine] + Terminated([]);
    } else {
      assert (ls + [l])[1..] == ls[1..] + [l];
      TerminatedAppend(ls[1..], l);
    }
  }

  /** Moving forward inside one line passes no break. */
  lemma BreaksWithinLine(t: string, s: nat, p: nat)
    requires s <= p <= |t|
    requires NoBreak(t[s..p])
    ensures Breaks(t[..p]) == Breaks(t[..s])
  {
    assert t[..p] == t[..s] + t[s..p];
    BreaksOfAppend(t[..s], t[s..p]);
    BreaksOfNoBreak(t[s..p]);
  }

  /** The lines before a line start number as many as the breaks before
      it. */
  lemma LinesBeforeCount(t: string, s: nat)
    requires 0 < s <= |t| && t[s - 1] == NewLine
    ensures |Lines(t[..s - 1])| == Breaks(t[..s])
  {
    assert t[..s] == t[..s - 1] + [NewLine];
    BreaksOfAppend(t[..s - 1], [NewLine]);
    CountOfLines(t[..s - 1]);
  }

  /** The parts of a sequence built around one middle element. */
  lemma Middle<T>(ls: seq<T>, a: seq<T>, x: T, b: seq<T>)
    requires ls == a + [x] + b
    ensures |a| < |ls| && ls[|a|] == x && ls[..|a|] == a && ls[|a| + 1..] == b
  {
  }

  /** Breaks are counted additively over a concatenation. */
  lemma {:induction false} BreaksOfAppend(a: string, b: string)
    ensures Breaks(a + b) == Breaks(a) + Breaks(b)
    decreases |a|
  {
    if a != [] {
      assert (a + b)[1..] == a[1..] + b;
      BreaksOfAppend(a[1..], b);
    } else {
      assert a + b == b;
    }
  }

  /** The start of line number `n`: offset 0 for the first line, one past
      the `n`-th break otherwise. */
  function StartOfLine(t: string, n: nat): (r: nat)
    requires n < |Lines(t)|
    ensures r <= |t|
    ensures r == 0 || t[r - 1] == NewLine
    ensures LineNumber(t, r) == n
    decreases n
  {
    if n == 0 then 0
    else
      var p := StartOfLine(t, n - 1);
      var e := LineEnd(t, p);
      assert t[..e] == t[..p] + t[p..e];
      BreaksOfAppend(t[..p], t[p..e]);
      NoBreakToLineEnd(t, p);
      BreaksOfNoBreak(t[p..e]);
      CountOfLines(t);
      assert t == t[..e] + t[e..];
      BreaksOfAppend(t[..e], t[e..]);
      assert e < |t|;
      assert t[..e + 1] == t[..e] + [NewLine];
      BreaksOfAppend(t[..e], [NewLine]);
      e + 1
  }

  /** The lines wholly before a line that starts at `s`. */
  function LinesBefore(t: string, s: nat): seq<string>
    requires s <= |t|
  {
    if s == 0 then [] else Lines(t[..s - 1])
  }

  /** The lines wholly after a line that ends at `e`. */
  function LinesAfter(t: string, e: nat): seq<string>
    requires e <= |t|
  {
    if e == |t| then [] else Lines(t[e + 1..])
  }

  /** Replacing a whole line `t[s..e]` by any text `m` (which may hold
      breaks) keeps the lines before and after it and puts the lines of
      `m` in its place. */
  lemma {:induction false} Splice(t: string, s: nat, e: nat, m: string)
    requires s <= e <= |t|
    requires s == 0 || t[s - 1] == NewLine
    requires e == |t| || t[e] == NewLine
    ensures Lines(t[..s] + m + t[e..]) == LinesBefore(t, s) + Lines(m) + LinesAfter(t, e)
  {
    if s == 0 && e == |t| {
      assert t[..s] + m + t[e..] == m;
    } else if s == 0 {
      SpliceFront(t, e, m);
    } else if e == |t| {
      SpliceBack(t, s, m);
    } else {
      SpliceInside(t, s, e, m);
    }
  }

  /** `Splice` for a first line that is not the last. */
  lemma SpliceFront(t: string, e: nat, m: string)
    requires e < |t| && t[e] == NewLine
    ensures Lines(t[..0] + m + t[e..]) == Lines(m) + LinesAfter(t, e)
  {
    assert t[..0] + m + t[e..] == m + [NewLine] + t[e + 1..];
    LinesOfAppend(m, t[e + 1..]);
  }

  /** `Splice` for a last line that is not the first. */
  lemma SpliceBack(t: string, s: nat, m: string)
    requires 0 < s <= |t| && t[s - 1] == NewLine
    ensures Lines(t[..s] + m + t[|t|..]) == LinesBefore(t, s) + Lines(m)
  {
    assert t[..s] + m + t[|t|..] == t[..s - 1] + [NewLine] + m;
    LinesOfAppend(t[..s - 1], m);
  }

  /** `Splice` for a line that is neither the first nor the last. */
  lemma SpliceInside(t: string, s: nat, e: nat, m: string)
    requires 0 < s <= e < |t| && t[s - 1] == NewLine && t[e] == NewLine
    ensures Lines(t[..s] + m + t[e..]) == LinesBefore(t, s) + Lines(m) + LinesAfter(t, e)
  {
    var before, after := t[..s - 1], t[e + 1..];
    assert t[..s] + m + t[e..] == before + [NewLine] + (m + [NewLine] + after);
    LinesOfAppend(m, after);
    LinesOfAppend(before, m + [NewLine] + after);
  }

  /** Equals substituted for equals in the middle of a concatenation. */
  lemma Substitute<T>(x: seq<T>, pre: seq<T>, m: seq<T>, m': seq<T>, post: seq<T>)
    requires x == pre + m + post && m == m'
    ensures x == pre + m' + post
  {
  }

  /** A whole line `t[s..e]`, bounded by breaks or by the ends of the text,
      splits the lines of `t` into those before it, itself, and those after
      it. */
  lemma {:induction false} LineBetween(t: string, s: nat, e: nat)
    requires s <= e <= |t|
    requires s == 0 || t[s - 1] == NewLine
    requires e == |t| || t[e] == NewLine
    requires NoBreak(t[s..e])
    ensures Lines(t) == LinesBefore(t, s) + [t[s..e]] + LinesAfter(t, e)
    ensures |LinesBefore(t, s)| == Breaks(t[..s])
  {
    var m := t[s..e];
    assert Lines(t) == LinesBefore(t, s) + [m] + LinesAfter(t, e) by {
      assert t[..s] + m + t[e..] == t;
      LinesOfNoBreak(m);
      Splice(t, s, e, m);
      Substitute(Lines(t[..s] + m + t[e..]), LinesBefore(t, s), Lines(m), [m], LinesAfter(t, e));
    }
    if s > 0 {
      LinesBeforeCount(t, s);
    } else {
      assert t[..s] == [];
    }
  }

  /** The line holding offset `p` is `t[LineStart(t, p)..LineEnd(t, p)]`,
      it has number `LineNumber(t, p)`, and the lines before and after it
      are those of the text before and after it. */
  lemma LineAt(t: string, p: nat)
    requires p <= |t|
    ensures LineNumber(t, p) < |Lines(t)|
    ensures Lines(t)[LineNumber(t, p)] == t[LineStart(t, p)..LineEnd(t, p)]
    ensures Lines(t)[..LineNumber(t, p)] == LinesBefore(t, LineStart(t, p))
    ensures Lines(t)[LineNumber(t, p) + 1..] == LinesAfter(t, LineEnd(t, p))
  {
    var s, e := LineStart(t, p), LineEnd(t, p);
    NoBreakInLine(t, p);
    NoBreakFromLineStart(t, p);
    LineBetween(t, s, e);
    BreaksWithinLine(t, s, p);
    Middle(Lines(t), LinesBefore(t, s), t[s..e], LinesAfter(t, e));
  }

  /** Replacing `t[p..q]`, a part of the whole line `t[s..e]`, by `r`
      keeps the lines before and after that line. */
  lemma EditBetween(t: string, s: nat, e: nat, p: nat, q: nat, r: string)
    requires s <= p <= q <= e <= |t|
    requires s == 0 || t[s - 1] == NewLine
    requires e == |t| || t[e] == NewLine
    ensures Lines(t[..p] + r + t[q..])
            == LinesBefore(t, s) + Lines(t[s..p] + r + t[q..e]) + LinesAfter(t, e)
  {
    assert t[..p] + r + t[q..] == t[..s] + (t[s..p] + r + t[q..e]) + t[e..];
    Splice(t, s, e, t[s..p] + r + t[q..e]);
  }

  /** An edit inside one line, replacing `t[p..q]` by `r`, changes only
      that line: the lines before and after it stay as they were, and the
      line itself becomes the lines of its edited text. */
  lemma EditWithinLine(t: string, p: nat, q: nat, r: string)
    requires p <= q <= |t| && q <= LineEnd(t, p)
    ensures LineNumber(t, p) < |Lines(t)|
    ensures q - LineStart(t, p) <= |Lines(t)[LineNumber(t, p)]|
    ensures Lines(t[..p] + r + t[q..])
         == Lines(t)[..LineNumber(t, p)]
            + Lines(Lines(t)[LineNumber(t, p)][..p - LineStart(t, p)] + r + Lines(t)[LineNumber(t, p)][q - LineStart(t, p)..])
            + Lines(t)[LineNumber(t, p) + 1..]
  {
    var s, e := LineStart(t, p), LineEnd(t, p);
    LineAt(t, p);
    SlicesOfSlice(t, s, p, q, e, r);
    EditBetween(t, s, e, p, q, r);
  }

  /** Cutting `t[s..e]` at `p` and `q` is cutting `t` there. */
  lemma SlicesOfSlice<T>(t: seq<T>, s: nat, p: nat, q: nat, e: nat, r: seq<T>)
    requires s <= p <= q <= e <= |t|
    ensures t[s..p] + r + t[q..e] == t[s..e][..p - s] + r + t[s..e][q - s..]
  {
    assert t[s..p] == t[s..e][..p - s];
    assert t[q..e] == t[s..e][q - s..];
  }

  /** A break between two offsets raises the line number. */
  lemma BreakBetween(t: string, a: nat, b: nat)
    requires a < b <= |t| && t[b - 1] == NewLine
    ensures LineNumber(t, a) < LineNumber(t, b)
  {
    assert t[..b] == t[..a] + t[a..b - 1] + [NewLine];
    BreaksOfAppend(t[..a] + t[a..b - 1], [NewLine]);
    BreaksOfAppend(t[..a], t[a..b - 1]);
  }

  /** A line start is determined by its line number. */
  lemma UniqueLineStart(t: string, a: nat, b: nat)
    requires a <= |t| && b <= |t|
    requires a == 0 || t[a - 1] == NewLine
    requires b == 0 || t[b - 1] == NewLine
    requires LineNumber(t, a) == LineNumber(t, b)
    ensures a == b
  {
    if a < b {
      BreakBetween(t, a, b);
    } else if b < a {
      BreakBetween(t, b, a);
    }
  }

  /** The line holding `p` reaches the end of the text exactly when it is
      the last line. */
  lemma LastLine(t: string, p: nat)
    requires p <= |t|
    ensures LineEnd(t, p) == |t| <==> LineNumber(t, p) + 1 == |Lines(t)|
  {
    var e := LineEnd(t, p);
    NoBreakToLineEnd(t, p);
    BreaksWithinLine(t, p, e);
    CountOfLines(t);
    if e < |t| {
      assert t[..e + 1] == t[..e] + [NewLine];
      BreaksOfAppend(t[..e], [NewLine]);
      assert t == t[..e + 1] + t[e + 1..];
      BreaksOfAppend(t[..e + 1], t[e + 1..]);
    } else {
      assert t[..e] == t;
    }
  }

  /** The end of a line is the same from any offset on it. */
  lemma {:induction false} LineEndFrom(t: string, s: nat, p: nat)
    requires s <= p <= |t| && NoBreak(t[s..p])
    ensures LineEnd(t, s) == LineEnd(t, p)
    decreases p - s
  {
    if s < p {
      assert t[s] == t[s..p][0];
      assert t[s + 1..p] == t[s..p][1..];
      LineEndFrom(t, s + 1, p);
    }
  }

  /** The start of the line holding `p` is the start of that line's number,
      and from it the line has the same number and end. */
  lemma LineOfStart(t: string, p: nat)
    requires p <= |t|
    ensures var s := LineStart(t, p);
      && LineStart(t, s) == s
      && LineNumber(t, s) == LineNumber(t, p)
      && LineEnd(t, s) == LineEnd(t, p)
      && LineNumber(t, p) < |Lines(t)|
      && StartOfLine(t, LineNumber(t, p)) == s
  {
    var s := LineStart(t, p);
    NoBreakFromLineStart(t, p);
    BreaksWithinLine(t, s, p);
    LineEndFrom(t, s, p);
    LineAt(t, p);
    UniqueLineStart(t, s, StartOfLine(t, LineNumber(t, p)));
  }
}
