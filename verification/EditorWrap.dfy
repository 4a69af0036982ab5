/**
 `wrap_line` (exec/fseditor.js:371-431): breaking over-long lines and carrying the rest downwards.
 `n` is the widest line allowed, screen_columns-1.
 */
module EditorWrap {
  import opened EditorLines

  /** Where wrapping stopped, and whether it stopped through exit(). */
  datatype Wrapped = Wrapped(lines: Buffer, stop: nat, exited: bool)

  /** The test on which `wrap_line` returns: the line fits, and ends where a line may end. */
  predicate Settled(lines: Buffer, l: nat, n: nat)
    requires l < |lines|
  {
    var t := Trimmed(lines[l].text);
    t <= n && (t != |lines[l].text| || l + 1 == |lines| || lines[l].hardcr)
  }

  /** Characters kept on an over-long line: up to a word boundary if there is one, else what fits. */
  function Cut(text: string, n: nat): (cut: nat)
    ensures cut <= |text|
    ensures n > 0 && text != "" ==> cut > 0
    ensures Trimmed(text[..cut]) <= n
  {
    FirstCutFits(text, n);
    if FirstCut(text, n) > 0 then FirstCut(text, n) else KludgeCut(text, n)
  }

  /** Line `l` keeps its first `cut` characters; the rest starts the next line, or a new one if `l` is hard or last. */
  function BreakLine(lines: Buffer, l: nat, cut: nat, kludge: bool): (r: Buffer)
    requires ValidBuffer(lines) && l < |lines| && cut <= |lines[l].text|
    ensures ValidBuffer(r) && |r| >= |lines| && |r| > l + 1
  {
    var ln := lines[l];
    var head := Line(ln.text[..cut], ln.attr[..cut], ln.hardcr, ln.kludged || kludge);
    var (text, attr) := (ln.text[cut..], ln.attr[cut..]);
    if l + 1 == |lines| then
      lines[..l] + [head, Line(text, attr, false, false)]
    else if ln.hardcr then
      lines[..l] + [head.(hardcr := false), Line(text, attr, true, false)] + lines[l + 1..]
    else
      lines[..l] + [head, lines[l + 1].(text := text + lines[l + 1].text, attr := attr + lines[l + 1].attr)] + lines[l + 2..]
  }

  /** One round of `wrap_line` on a line that is not settled. */
  function WrapStep(lines: Buffer, l: nat, n: nat): (r: Buffer)
    requires ValidBuffer(lines) && l < |lines|
    ensures ValidBuffer(r) && |r| >= |lines| && |r| > l + 1
  {
    BreakLine(lines, l, Cut(lines[l].text, n), FirstCut(lines[l].text, n) == 0)
  }

  function SetKludged(lines: Buffer, l: nat, k: bool): (r: Buffer)
    requires ValidBuffer(lines) && l < |lines|
    ensures ValidBuffer(r)
  {
    lines[l := lines[l].(kludged := k)]
  }

  function WrapAll(lines: Buffer, l: nat, n: nat): (r: Wrapped)
    requires ValidBuffer(lines) && n > 0
    ensures ValidBuffer(r.lines) && |r.lines| >= |lines|
    decreases TextFrom(lines, l)
  {
    if l >= |lines| || Settled(lines, l, n) then
      Wrapped(lines, l, false)
    else if lines[l].text == "" then
      Wrapped(SetKludged(lines, l, true), l, true)
    else
      WrapStepShrinks(lines, l, n);
      WrapAll(WrapStep(lines, l, n), l + 1, n)
  }

  lemma BreakLineShrinks(lines: Buffer, l: nat, cut: nat, kludge: bool)
    requires ValidBuffer(lines) && l < |lines| && cut <= |lines[l].text|
    ensures TextFrom(BreakLine(lines, l, cut, kludge), l + 1) == TextFrom(lines, l) - cut
  {
    var r := BreakLine(lines, l, cut, kludge);
    if l + 1 == |lines| {
      assert TextFrom(r, l + 2) == 0;
    } else if lines[l].hardcr {
      TextFromSame(r, lines, l + 2, l + 1);
    } else {
      TextFromSame(r, lines, l + 2, l + 2);
    }
  }

  /** The characters still to be looked at strictly decrease. */
  lemma WrapStepShrinks(lines: Buffer, l: nat, n: nat)
    requires ValidBuffer(lines) && n > 0 && l < |lines| && lines[l].text != ""
    ensures TextFrom(WrapStep(lines, l, n), l + 1) < TextFrom(lines, l)
  {
    BreakLineShrinks(lines, l, Cut(lines[l].text, n), FirstCut(lines[l].text, n) == 0);
  }

  // ---------------------------------------------------------------------------------------------
  // The document
  // ---------------------------------------------------------------------------------------------

  /** The guard of the faulty branch: the buffer's last line ends hard and has to be broken. */
  predicate SpillsAt(lines: Buffer, l: nat, n: nat) {
    l + 1 == |lines| && lines[l].hardcr && Trimmed(lines[l].text) > n
  }

  /** Wrapping from `l` reaches that branch. */
  predicate Spills(lines: Buffer, l: nat, n: nat)
    requires ValidBuffer(lines) && n > 0
    decreases TextFrom(lines, l)
  {
    l < |lines| && !Settled(lines, l, n) && lines[l].text != "" &&
    (SpillsAt(lines, l, n) || (WrapStepShrinks(lines, l, n); Spills(WrapStep(lines, l, n), l + 1, n)))
  }

  predicate LastHard(lines: Buffer) {
    lines != [] && lines[|lines| - 1].hardcr
  }

  lemma DocOfThree(p: Buffer, m: Buffer, s: Buffer)
    requires ValidBuffer(p) && ValidBuffer(m) && ValidBuffer(s)
    ensures ValidBuffer(p + m + s)
    ensures Doc(p + m + s) == Doc(p) + Doc(m) + Doc(s)
  {
    DocConcat(p, m);
    DocConcat(p + m, s);
  }

  /** Lines that stand for the same document can replace each other. */
  lemma DocSwap(p: Buffer, m: Buffer, m': Buffer, s: Buffer)
    requires ValidBuffer(p) && ValidBuffer(m) && ValidBuffer(m') && ValidBuffer(s)
    requires Doc(m) == Doc(m')
    ensures ValidBuffer(p + m + s) && ValidBuffer(p + m' + s)
    ensures Doc(p + m + s) == Doc(p + m' + s)
  {
    DocOfThree(p, m, s);
    DocOfThree(p, m', s);
  }

  lemma TwoInTheMiddle(lines: Buffer, l: nat)
    requires l + 1 < |lines|
    ensures lines == lines[..l] + [lines[l], lines[l + 1]] + lines[l + 2..]
  {
  }

  lemma DocOfOne(a: Line)
    requires a.Valid()
    ensures Doc([a]) == LineDoc(a)
  {
    assert [a][1..] == [];
  }

  lemma DocOfTwo(a: Line, b: Line)
    requires a.Valid() && b.Valid()
    ensures Doc([a, b]) == LineDoc(a) + LineDoc(b)
  {
    assert [a, b] == [a] + [b];
    DocConcat([a], [b]);
    DocOfOne(a);
    DocOfOne(b);
  }

  /** Breaking a line in two, with the hard return on the second. */
  lemma TwoHalves(ln: Line, head: Line, tail: Line, cut: nat)
    requires ln.Valid() && cut <= |ln.text|
    requires head.text == ln.text[..cut] && head.attr == ln.attr[..cut] && !head.hardcr
    requires tail.text == ln.text[cut..] && tail.attr == ln.attr[cut..] && tail.hardcr == ln.hardcr
    ensures head.Valid() && tail.Valid() && LineDoc(head) + LineDoc(tail) == LineDoc(ln)
  {
    LineDocSplit(ln, cut, tail);
  }

  /** Breaking a line in two, with the hard return left on the first. */
  lemma TwoHalvesHard(p: seq<Item>, ln: Line, head: Line, tail: Line, cut: nat)
    requires ln.Valid() && cut < |ln.text| && ln.hardcr
    requires head.text == ln.text[..cut] && head.attr == ln.attr[..cut] && head.hardcr
    requires tail.text == ln.text[cut..] && tail.attr == ln.attr[cut..] && !tail.hardcr
    ensures head.Valid() && tail.Valid()
    ensures Chars(p + (LineDoc(head) + LineDoc(tail))) == Chars(p + LineDoc(ln))
    ensures p + (LineDoc(head) + LineDoc(tail)) != p + LineDoc(ln)
  {
    CellsSplit(ln.text, ln.attr, cut);
    var (a, b) := (Cells(head.text, head.attr), Cells(tail.text, tail.attr));
    assert LineDoc(ln) == a + b + [Hard];
    assert LineDoc(head) + LineDoc(tail) == a + [Hard] + b;
    MoveDiffers(p, a, b);
  }

  lemma MoveDiffers(p: seq<Item>, a: seq<Item>, b: seq<Item>)
    requires b != [] && b[|b| - 1].Ch?
    ensures Chars(p + (a + [Hard] + b)) == Chars(p + (a + b + [Hard]))
    ensures p + (a + [Hard] + b) != p + (a + b + [Hard])
  {
    CharsOfMove(p, a, b);
    var (x, y) := (a + [Hard] + b, a + b + [Hard]);
    assert x[|x| - 1] == b[|b| - 1] && y[|y| - 1] == Hard;
    assert (p + x)[|p|..] == x && (p + y)[|p|..] == y;
  }

  /** Carrying the end of a soft line to the front of the next. */
  lemma CarriedDown(ln: Line, nx: Line, head: Line, nx': Line, cut: nat)
    requires ln.Valid() && nx.Valid() && cut <= |ln.text| && !ln.hardcr
    requires head.text == ln.text[..cut] && head.attr == ln.attr[..cut] && !head.hardcr
    requires nx'.text == ln.text[cut..] + nx.text && nx'.attr == ln.attr[cut..] + nx.attr && nx'.hardcr == nx.hardcr
    ensures head.Valid() && nx'.Valid() && LineDoc(head) + LineDoc(nx') == LineDoc(ln) + LineDoc(nx)
  {
    var tail := ln.(text := ln.text[cut..], attr := ln.attr[cut..]);
    LineDocSplit(ln, cut, tail);
    LineDocJoin(tail.text, tail.attr, nx, nx');
    assert LineDoc(tail) == Cells(tail.text, tail.attr) && LineDoc(head) == Cells(head.text, head.attr);
    Assoc(LineDoc(head), LineDoc(tail), LineDoc(nx));
  }

  /** The last line is broken: a new soft line is pushed, and a hard return does not move to it. */
  lemma BreakLastDoc(lines: Buffer, l: nat, cut: nat, kludge: bool)
    requires ValidBuffer(lines) && l + 1 == |lines| && cut < |lines[l].text|
    ensures Doc(BreakLine(lines, l, cut, kludge)) == Doc(lines) <==> !lines[l].hardcr
    ensures Chars(Doc(BreakLine(lines, l, cut, kludge))) == Chars(Doc(lines))
  {
    var r := BreakLine(lines, l, cut, kludge);
    var (ln, head, tail, above) := (lines[l], r[l], r[l + 1], lines[..l]);
    assert lines == above + [ln] && r == above + [head, tail];
    DocConcat(above, [ln]);
    DocConcat(above, [head, tail]);
    DocOfOne(ln);
    DocOfTwo(head, tail);
    if ln.hardcr {
      TwoHalvesHard(Doc(above), ln, head, tail, cut);
    } else {
      TwoHalves(ln, head, tail, cut);
    }
  }

  lemma BreakHardShape(lines: Buffer, l: nat, cut: nat, kludge: bool)
    requires ValidBuffer(lines) && l + 1 < |lines| && lines[l].hardcr && cut <= |lines[l].text|
    ensures var (r, ln) := (BreakLine(lines, l, cut, kludge), lines[l]);
      && r == lines[..l] + [r[l], r[l + 1]] + lines[l + 1..]
      && r[l].text == ln.text[..cut] && r[l].attr == ln.attr[..cut] && !r[l].hardcr
      && r[l + 1].text == ln.text[cut..] && r[l + 1].attr == ln.attr[cut..] && r[l + 1].hardcr
  {
  }

  /** A hard line in the middle is broken: a line is inserted, and the hard return moves to it. */
  lemma BreakHardDoc(lines: Buffer, l: nat, cut: nat, kludge: bool)
    requires ValidBuffer(lines) && l + 1 < |lines| && lines[l].hardcr && cut <= |lines[l].text|
    ensures Doc(BreakLine(lines, l, cut, kludge)) == Doc(lines)
  {
    hide Doc, LineDoc, Cells, BreakLine;
    BreakHardShape(lines, l, cut, kludge);
    var r := BreakLine(lines, l, cut, kludge);
    var (ln, head, tail) := (lines[l], r[l], r[l + 1]);
    DocOfOne(ln);
    DocOfTwo(head, tail);
    TwoHalves(ln, head, tail, cut);
    DocSwap(lines[..l], [ln], [head, tail], lines[l + 1..]);
    assert lines == lines[..l] + [ln] + lines[l + 1..];
  }

  /** A soft line is broken: the rest goes to the front of the next line. */
  lemma BreakSoftDoc(lines: Buffer, l: nat, cut: nat, kludge: bool)
    requires ValidBuffer(lines) && l + 1 < |lines| && !lines[l].hardcr && cut <= |lines[l].text|
    ensures Doc(BreakLine(lines, l, cut, kludge)) == Doc(lines)
  {
    var r := BreakLine(lines, l, cut, kludge);
    var (ln, nx, head, nx') := (lines[l], lines[l + 1], r[l], r[l + 1]);
    DocOfTwo(ln, nx);
    DocOfTwo(head, nx');
    CarriedDown(ln, nx, head, nx', cut);
    DocSwap(lines[..l], [ln, nx], [head, nx'], lines[l + 2..]);
    TwoInTheMiddle(lines, l);
  }

  lemma BreakKeeps(lines: Buffer, l: nat, cut: nat, kludge: bool)
    requires ValidBuffer(lines) && l < |lines| && cut <= |lines[l].text|
    ensures BreakLine(lines, l, cut, kludge)[l].text == lines[l].text[..cut]
    ensures forall i :: 0 <= i < l ==> BreakLine(lines, l, cut, kludge)[i] == lines[i]
  {
  }

  lemma BreakLastHard(lines: Buffer, l: nat, cut: nat, kludge: bool)
    requires ValidBuffer(lines) && l < |lines| && cut <= |lines[l].text|
    ensures LastHard(BreakLine(lines, l, cut, kludge)) <==> LastHard(lines) && l + 1 < |lines|
  {
  }

  lemma WrapStepDoc(lines: Buffer, l: nat, n: nat)
    requires ValidBuffer(lines) && n > 0 && l < |lines| && !Settled(lines, l, n)
    ensures Doc(WrapStep(lines, l, n)) == Doc(lines) <==> !SpillsAt(lines, l, n)
    ensures Chars(Doc(WrapStep(lines, l, n))) == Chars(Doc(lines))
    ensures LastHard(WrapStep(lines, l, n)) <==> LastHard(lines) && !SpillsAt(lines, l, n)
  {
    var cut := Cut(lines[l].text, n);
    var kludge := FirstCut(lines[l].text, n) == 0;
    BreakLastHard(lines, l, cut, kludge);
    if l + 1 == |lines| {
      TailNonEmpty(lines[l].text, n);
      BreakLastDoc(lines, l, cut, kludge);
    } else if lines[l].hardcr {
      BreakHardDoc(lines, l, cut, kludge);
    } else {
      BreakSoftDoc(lines, l, cut, kludge);
    }
  }

  /** A line that is too long is not cut after its last character. */
  lemma TailNonEmpty(text: string, n: nat)
    requires Trimmed(text) > n
    ensures Cut(text, n) < |text|
  {
  }

  lemma CharsOfMove(p: seq<Item>, a: seq<Item>, b: seq<Item>)
    ensures Chars(p + (a + b + [Hard])) == Chars(p + (a + [Hard] + b))
  {
    CharsOfHard();
    CharsConcat(p, a + b + [Hard]);
    CharsConcat(a + b, [Hard]);
    CharsConcat(a, b);
    CharsConcat(p, a + [Hard] + b);
    CharsConcat(a + [Hard], b);
    CharsConcat(a, [Hard]);
  }

  lemma {:induction false} LastSoftNeverSpills(lines: Buffer, l: nat, n: nat)
    requires ValidBuffer(lines) && n > 0 && !LastHard(lines)
    ensures !Spills(lines, l, n)
    decreases TextFrom(lines, l)
  {
    if l < |lines| && !Settled(lines, l, n) && lines[l].text != "" {
      WrapStepShrinks(lines, l, n);
      WrapStepDoc(lines, l, n);
      LastSoftNeverSpills(WrapStep(lines, l, n), l + 1, n);
    }
  }

  /** Changing a line's flag changes nothing that was written. */
  lemma {:induction false} DocOfFlag(lines: Buffer, l: nat, k: bool)
    requires ValidBuffer(lines) && l < |lines|
    ensures Doc(SetKludged(lines, l, k)) == Doc(lines)
    ensures LastHard(SetKludged(lines, l, k)) == LastHard(lines)
  {
    var r := SetKludged(lines, l, k);
    if l == 0 {
      assert r[1..] == lines[1..];
    } else {
      DocOfFlag(lines[1..], l - 1, k);
      assert r[1..] == SetKludged(lines[1..], l - 1, k);
    }
  }

  /**
   No character is ever lost, added or moved by wrapping, whatever branch is taken; and the hard
   carriage returns stay where they were exactly when the faulty branch is not reached.
   */
  lemma {:induction false} WrapKeepsDocument(lines: Buffer, l: nat, n: nat)
    requires ValidBuffer(lines) && n > 0
    ensures Chars(Doc(WrapAll(lines, l, n).lines)) == Chars(Doc(lines))
    ensures Doc(WrapAll(lines, l, n).lines) == Doc(lines) <==> !Spills(lines, l, n)
    ensures LastHard(WrapAll(lines, l, n).lines) <==> LastHard(lines) && !Spills(lines, l, n)
    decreases TextFrom(lines, l)
  {
    if l < |lines| && !Settled(lines, l, n) {
      if lines[l].text == "" {
        DocOfFlag(lines, l, true);
      } else {
        WrapStepShrinks(lines, l, n);
        WrapStepDoc(lines, l, n);
        var next := WrapStep(lines, l, n);
        WrapKeepsDocument(next, l + 1, n);
        if SpillsAt(lines, l, n) {
          LastSoftNeverSpills(next, l + 1, n);
        }
      }
    }
  }

  // ---------------------------------------------------------------------------------------------
  // The layout
  // ---------------------------------------------------------------------------------------------

  lemma {:induction false} WrapLeavesAbove(lines: Buffer, l: nat, n: nat, i: nat)
    requires ValidBuffer(lines) && n > 0 && i < l && i < |lines|
    ensures WrapAll(lines, l, n).lines[i] == lines[i]
    decreases TextFrom(lines, l)
  {
    if l < |lines| && !Settled(lines, l, n) && lines[l].text != "" {
      WrapStepShrinks(lines, l, n);
      BreakKeeps(lines, l, Cut(lines[l].text, n), FirstCut(lines[l].text, n) == 0);
      WrapLeavesAbove(WrapStep(lines, l, n), l + 1, n, i);
    }
  }

  /** Every line that wrapping passed, and the one it stopped on, fits the screen. */
  lemma {:induction false} WrapFits(lines: Buffer, l: nat, n: nat, i: nat)
    requires ValidBuffer(lines) && n > 0 && l <= i
    ensures var w := WrapAll(lines, l, n);
            i < |w.lines| && i <= w.stop ==> Trimmed(w.lines[i].text) <= n
    decreases TextFrom(lines, l)
  {
    if l < |lines| && !Settled(lines, l, n) && lines[l].text != "" {
      WrapStepShrinks(lines, l, n);
      var next := WrapStep(lines, l, n);
      if i == l {
        WrapLeavesAbove(next, l + 1, n, l);
        BreakKeeps(lines, l, Cut(lines[l].text, n), FirstCut(lines[l].text, n) == 0);
      } else {
        WrapFits(next, l + 1, n, i);
      }
    }
  }

  predicate SuffixOf(a: Buffer, b: Buffer) {
    |a| <= |b| && a == b[|b| - |a|..]
  }

  lemma SuffixTransitive(a: Buffer, b: Buffer, c: Buffer)
    requires SuffixOf(a, b) && SuffixOf(b, c)
    ensures SuffixOf(a, c)
  {
    assert c[|c| - |b|..][|b| - |a|..] == c[|c| - |a|..];
  }

  lemma StepLeavesRest(lines: Buffer, l: nat, n: nat)
    requires ValidBuffer(lines) && n > 0 && l < |lines|
    ensures l + 2 <= |WrapStep(lines, l, n)| && SuffixOf(WrapStep(lines, l, n)[l + 2..], lines[l + 1..])
  {
    hide Cut, FirstCut;
  }

  /** Nothing below the line it stopped on is touched. */
  lemma {:induction false} WrapLeavesRest(lines: Buffer, l: nat, n: nat)
    requires ValidBuffer(lines) && n > 0 && l < |lines|
    ensures var w := WrapAll(lines, l, n);
            w.stop < |w.lines| ==> SuffixOf(w.lines[w.stop + 1..], lines[l + 1..])
    decreases TextFrom(lines, l)
  {
    hide Settled, WrapStep, TextFrom;
    if !Settled(lines, l, n) && lines[l].text != "" {
      WrapStepShrinks(lines, l, n);
      StepLeavesRest(lines, l, n);
      var next := WrapStep(lines, l, n);
      WrapLeavesRest(next, l + 1, n);
      var w := WrapAll(next, l + 1, n);
      if w.stop < |w.lines| {
        SuffixTransitive(w.lines[w.stop + 1..], next[l + 2..], lines[l + 1..]);
      }
    }
  }

  /**
   How much of a text a broken line keeps: up to the last white space that leaves something behind it and at most
   `n` characters before it; if there is no such place, as much as fits the screen.
   */
  ghost predicate FillsRow(text: string, kept: nat, n: nat) {
    if exists k: nat :: BreaksAt(text, n, k) then
      exists k: nat :: BreaksAt(text, n, k) && kept == RunEnd(text, k) && forall j: nat :: k < j ==> !BreaksAt(text, n, j)
    else kept == if |text| < n then |text| else n
  }

  lemma CutFillsRow(text: string, n: nat)
    ensures FillsRow(text, Cut(text, n), n)
  {
    FirstCutIsGreedy(text, n);
    if k: nat :| BreaksAt(text, n, k) {
      assert RunEnd(text, k) >= k;
    }
  }

  /** The buffer as it is when wrapping from `l` comes to line `i`. */
  function Arrived(lines: Buffer, l: nat, n: nat, i: nat): (r: Buffer)
    requires ValidBuffer(lines) && n > 0
    ensures ValidBuffer(r)
    decreases TextFrom(lines, l)
  {
    if i <= l || l >= |lines| || Settled(lines, l, n) || lines[l].text == "" then lines
    else
      WrapStepShrinks(lines, l, n);
      Arrived(WrapStep(lines, l, n), l + 1, n, i)
  }

  /** Every line a run broke kept the front of what was on it then, filling the row; no more is broken off than must be. */
  lemma {:induction false} WrapFills(lines: Buffer, l: nat, n: nat, i: nat)
    requires ValidBuffer(lines) && n > 0 && l <= i < WrapAll(lines, l, n).stop
    ensures var (w, a) := (WrapAll(lines, l, n).lines, Arrived(lines, l, n, i));
      i < |w| && i < |a| && a[i].text != ""
      && w[i].text <= a[i].text && FillsRow(a[i].text, |w[i].text|, n)
    decreases TextFrom(lines, l)
  {
    hide Settled, FillsRow, TextFrom, Cut;
    WrapStepShrinks(lines, l, n);
    var next := WrapStep(lines, l, n);
    if i == l {
      WrapLeavesAbove(next, l + 1, n, l);
      BreakKeeps(lines, l, Cut(lines[l].text, n), FirstCut(lines[l].text, n) == 0);
      CutFillsRow(lines[l].text, n);
    } else {
      WrapFills(next, l + 1, n, i);
    }
  }

  /** The line fits, and ends where a line may end. */
  ghost predicate Finished(lines: Buffer, l: nat, n: nat)
    requires l < |lines|
  {
    var text := lines[l].text;
    && (forall i :: n <= i < |text| ==> IsSpace(text[i]))
    && (l + 1 == |lines| || lines[l].hardcr || (text != "" && IsSpace(text[|text| - 1])))
  }

  lemma SettledIsFinished(lines: Buffer, l: nat, n: nat)
    requires l < |lines|
    ensures Settled(lines, l, n) <==> Finished(lines, l, n)
  {
    var text := lines[l].text;
    var t := Trimmed(text);
    TrimmedIs(text, t);
    assert forall i :: t <= i < |text| ==> text[i] == text[t..][i - t];
    if t > n {
      assert !IsSpace(text[t - 1]);
    }
  }

  /** Wrapping does nothing exactly to such a line. */
  lemma WrapTouches(lines: Buffer, l: nat, n: nat)
    requires ValidBuffer(lines) && n > 0 && l < |lines|
    ensures WrapAll(lines, l, n) == Wrapped(lines, l, false) <==> Finished(lines, l, n)
  {
    hide Settled, Finished, WrapStep;
    SettledIsFinished(lines, l, n);
    if !Settled(lines, l, n) && lines[l].text != "" {
      WrapStepShrinks(lines, l, n);
      WrapMovesOn(WrapStep(lines, l, n), l + 1, n);
    }
  }

  lemma {:induction false} WrapMovesOn(lines: Buffer, l: nat, n: nat)
    requires ValidBuffer(lines) && n > 0
    ensures WrapAll(lines, l, n).stop >= l
    decreases TextFrom(lines, l)
  {
    hide Settled, WrapStep, TextFrom;
    if l < |lines| && !Settled(lines, l, n) && lines[l].text != "" {
      WrapStepShrinks(lines, l, n);
      WrapMovesOn(WrapStep(lines, l, n), l + 1, n);
    }
  }

  /** A broken line is marked as cut within a word exactly if no place at a word's end was found, or it was marked already. */
  lemma WrapMarks(lines: Buffer, l: nat, n: nat)
    requires ValidBuffer(lines) && n > 0 && l < |lines| && !Finished(lines, l, n) && lines[l].text != ""
    ensures var w := WrapAll(lines, l, n).lines;
      && l < |w|
      && (w[l].kludged <==> lines[l].kludged || forall k: nat :: !BreaksAt(lines[l].text, n, k))
      && (w[l].hardcr <==> lines[l].hardcr && l + 1 == |lines|)
  {
    hide Settled, Finished, TextFrom, Cut;
    SettledIsFinished(lines, l, n);
    WrapStepShrinks(lines, l, n);
    FirstCutIsGreedy(lines[l].text, n);
    WrapLeavesAbove(WrapStep(lines, l, n), l + 1, n, l);
  }

  /** A soft line with a successor and no text: where `wrap_line` gives up. */
  predicate EmptySoft(lines: Buffer, i: nat)
    requires i < |lines|
  {
    lines[i].text == "" && !lines[i].hardcr && i + 1 < |lines|
  }

  /** `wrap_line` runs to its end whenever no line from `l` on is soft and empty with a successor. */
  lemma {:induction false} WrapReturns(lines: Buffer, l: nat, n: nat)
    requires ValidBuffer(lines) && n > 0
    requires forall i: nat :: l <= i < |lines| ==> !EmptySoft(lines, i)
    ensures !WrapAll(lines, l, n).exited
    decreases TextFrom(lines, l)
  {
    if l < |lines| && !Settled(lines, l, n) {
      assert !EmptySoft(lines, l);
      WrapStepShrinks(lines, l, n);
      var next := WrapStep(lines, l, n);
      forall i: nat | l + 1 <= i < |next| ensures !EmptySoft(next, i) {
        if i > l + 1 {
          var j := |lines| - (|next| - i);
          assert next[i] == lines[j];
          assert !EmptySoft(lines, j);
        } else if l + 1 < |lines| {
          assert !EmptySoft(lines, l + 1);
        }
      }
      WrapReturns(next, l + 1, n);
    }
  }

  /** Wrapping from `l` comes to such a line. */
  predicate Exits(lines: Buffer, l: nat, n: nat)
    requires ValidBuffer(lines) && n > 0
    decreases TextFrom(lines, l)
  {
    l < |lines| &&
    (EmptySoft(lines, l) ||
     (!Settled(lines, l, n) && lines[l].text != "" && (WrapStepShrinks(lines, l, n); Exits(WrapStep(lines, l, n), l + 1, n))))
  }

  /** `wrap_line` ends in exit() exactly when it comes to an empty soft line that has a successor. */
  lemma {:induction false} WrapExits(lines: Buffer, l: nat, n: nat)
    requires ValidBuffer(lines) && n > 0
    ensures WrapAll(lines, l, n).exited <==> Exits(lines, l, n)
    decreases TextFrom(lines, l)
  {
    hide WrapStep, TextFrom;
    if l < |lines| && !Settled(lines, l, n) && lines[l].text != "" {
      WrapStepShrinks(lines, l, n);
      WrapExits(WrapStep(lines, l, n), l + 1, n);
    }
  }
}
