/**
 Buffers on which the editor does not keep what was written, one for each faulty branch whose exact
 condition is stated in EditorWrap, EditorUnwrap and EditorRewrap.
 */
module EditorFaults {
  import opened EditorLines
  import opened EditorWrap
  import opened EditorUnwrap
  import opened EditorRewrap

  function Text(s: string, hard: bool, kludged: bool): (ln: Line)
    ensures ln.Valid()
  {
    Line(s, seq(|s|, _ => 7), hard, kludged)
  }

  /** A last line that ends hard and is too long: its hard return stays in the middle of its text. */
  lemma HardReturnLeftBehind()
    ensures var lines := [Text("ab", true, false)];
            Doc(WrapAll(lines, 0, 1).lines) != Doc(lines)
  {
    var lines := [Text("ab", true, false)];
    assert Trimmed("ab") == 2;
    assert SpillsAt(lines, 0, 1);
    WrapKeepsDocument(lines, 0, 1);
  }

  lemma WholeWordTaken()
    ensures UnkludgeCut("b", 1) == 1
  {
    assert WordPrefix("b"[1..], 0) == 0;
    assert RunEnd("b", 1) == 1;
  }

  lemma BlankLineCrossed()
    ensures var lines := [Text("a", false, true), Text("b", true, false), Text("", false, false)];
            Crosses(lines, 0, 2)
  {
    hide UnwrapStep, UnkludgeCut, WordsCut, Doc;
    WholeWordTaken();
    var lines := [Text("a", false, true), Text("b", true, false), Text("", false, false)];
    assert MendCut(lines, 0, 2) == 1;
    assert CrossesAt(lines, 0, 2);
  }

  /** A kludge-wrapped word whose end exactly fits, and a blank line below it: the blank line disappears. */
  lemma BlankLineLost()
    ensures var lines := [Text("a", false, true), Text("b", true, false), Text("", false, false)];
            Doc(UnwrapAll(lines, 0, 2).lines) != Doc(lines)
  {
    var lines := [Text("a", false, true), Text("b", true, false), Text("", false, false)];
    hide UnwrapAll, Crosses, Doc, Weight, Chars;
    BlankLineCrossed();
    UnwrapKeepsDocument(lines, 0, 2);
  }

  /** A kludge-wrapped word whose end fits with room to spare, on the last two lines: the script throws. */
  lemma LastLinesThrow()
    ensures UnwrapAll([Text("a", false, true), Text("b", false, false)], 0, 3).threw
  {
    var lines := [Text("a", false, true), Text("b", false, false)];
    assert WordPrefix("b"[1..], 1) == 0;
    assert WordPrefix("b", 2) == 1;
    assert MendCut(lines, 0, 3) == 1;
    assert |Mend(lines, 0, 3)| == 1;
  }

  /** The last character of the last line is erased below a soft line with room: the cursor's line is gone. */
  lemma CursorOffTheBuffer()
    ensures var r := RewrapAll([Text("a ", false, false), Text("", false, false)], 0, 1, 5);
            r.outcome == Fine && r.ypos == |r.lines|
  {
    var lines := [Text("a ", false, false), Text("", false, false)];
    OntoLast(lines, 0, 5);
  }

  /** A word goes up to the line above, the cursor stands beyond it: the cursor slips to the right by that word. */
  lemma CursorSlips()
    ensures var lines := [Text("a ", false, false), Text("b cd", false, false)];
            Slip(lines, 4, 1, 3) == 2
  {
    var lines := [Text("a ", false, false), Text("b cd", false, false)];
    assert RunEnd("b cd", 2) == 2;
    assert WordsEndAt("b cd", 1, 1) && RunEnd("b cd", 1) == 2;
    assert WordsCut("b cd", 1) == 2;
    assert Mend(lines, 0, 3) == lines;
    assert UnwrapStep(lines, 0, 3).moved == 2;
  }

  /** Two empty soft lines before the last: unwrapping takes one of them out, wrapping gives up on the other. */
  lemma EmptyLinesExit()
    ensures var lines := [Text("", false, false), Text("", false, false), Text("x", false, false)];
            RewrapAll(lines, 0, 0, 5).outcome == Exited
  {
    var lines := [Text("", false, false), Text("", false, false), Text("x", false, false)];
    hide Settled, WrapStep;
    assert Mend(lines, 0, 5) == lines;
    assert WordsCut("", 5) == 0 by { WordsCutIsGreedy("", 5); }
    var round := UnwrapStep(lines, 0, 5);
    assert round.done && round.moved == -1 && !round.threw;
    assert round.lines[0].text == "" + "" == "";
    assert EmptySoft(round.lines, 0);
    WrapExits(round.lines, 0, 5);
    UnwrapThrows(lines, 0, 5);
    RewrapEnds(lines, 0, 0, 5);
  }

  /** The words of a kludge-wrapped line mended on the last two lines: `rewrap` ends in the exception. */
  lemma LastLinesEndRewrap()
    ensures RewrapAll([Text("a", false, true), Text("b", false, false)], 0, 0, 3).outcome == Threw
  {
    LastLinesThrow();
  }
}
