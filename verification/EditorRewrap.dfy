/**
 `rewrap` (exec/fseditor.js:448-509), called after every edit: it unwraps the line above the cursor,
 then the cursor's line, and wraps the cursor's line, stopping at the first that moved the cursor's text.
 */
module EditorRewrap {
  import opened EditorLines
  import opened EditorWrap
  import opened EditorUnwrap

  datatype Outcome = Fine | Threw | Exited

  datatype Rewrapped = Rewrapped(lines: Buffer, xpos: int, ypos: nat, outcome: Outcome)

  function Min(a: int, b: int): int {
    if a < b then a else b
  }

  predicate PrevSoft(lines: Buffer, ypos: nat) {
    0 < ypos <= |lines| && !lines[ypos - 1].hardcr
  }

  /** The first stage brought the cursor's text up to the line above. */
  predicate MovedUp(u: Unwrapped, xpos: int) {
    u.ret != -1 && xpos <= u.ret
  }

  /** The first stage: the line above the cursor takes what it has room for. */
  function FirstStage(lines: Buffer, ypos: nat, n: nat): (u: Unwrapped)
    requires ValidBuffer(lines)
    ensures ValidBuffer(u.lines)
  {
    if PrevSoft(lines, ypos) then UnwrapAll(lines, ypos - 1, n) else Unwrapped(lines, -1, false, ypos)
  }

  function RewrapAll(lines: Buffer, xpos: int, ypos: nat, n: nat): (r: Rewrapped)
    requires ValidBuffer(lines) && n > 0
    ensures ValidBuffer(r.lines)
  {
    if ypos >= |lines| then Rewrapped(lines, xpos, ypos, Fine)
    else
      var u := FirstStage(lines, ypos, n);
      if u.threw then Rewrapped(u.lines, xpos, ypos, Threw)
      else if MovedUp(u, xpos) then
        FirstStageKeeps(lines, ypos, n);
        var length := |u.lines[ypos - 1].text|;
        Rewrapped(u.lines, Min(length - (u.ret - xpos), length), ypos - 1, Fine)
      else if ypos >= |u.lines| then Rewrapped(u.lines, xpos, ypos, Fine)
      else SecondStage(u.lines, xpos, ypos, n)
  }

  /** The second stage: the cursor's line takes what it has room for; if that is nothing, it is wrapped. */
  function SecondStage(lines: Buffer, xpos: int, ypos: nat, n: nat): (r: Rewrapped)
    requires ValidBuffer(lines) && n > 0 && ypos < |lines|
    ensures ValidBuffer(r.lines)
  {
    var v := UnwrapAll(lines, ypos, n);
    if v.threw then Rewrapped(v.lines, xpos, ypos, Threw)
    else if v.ret != -1 then Rewrapped(v.lines, xpos, ypos, Fine)
    else LastStage(v.lines, xpos, ypos, n, |lines[ypos].text|)
  }

  /** Characters the first round of `wrap_line` carries to the next line, or -1 when it has nothing to do. */
  function WrapRet(lines: Buffer, l: nat, n: nat): int
    requires ValidBuffer(lines)
  {
    if l >= |lines| || Settled(lines, l, n) || lines[l].text == "" then -1
    else |lines[l].text| - Cut(lines[l].text, n)
  }

  /** The last stage: the cursor's line, `oldlen` long, is wrapped; the cursor follows what was carried down. */
  function LastStage(lines: Buffer, xpos: int, ypos: nat, n: nat, oldlen: nat): (r: Rewrapped)
    requires ValidBuffer(lines) && n > 0
    ensures ValidBuffer(r.lines)
  {
    var w := WrapAll(lines, ypos, n);
    var i := WrapRet(lines, ypos, n);
    if w.exited then Rewrapped(w.lines, xpos, ypos, Exited)
    else if i != -1 && ypos + 1 < |w.lines| && xpos > |w.lines[ypos].text| then
      Rewrapped(w.lines, Min(xpos - oldlen + i, |w.lines[ypos + 1].text|), ypos + 1, Fine)
    else Rewrapped(w.lines, xpos, ypos, Fine)
  }

  lemma {:induction false} UnwrapKeepsFirst(lines: Buffer, l: nat, n: nat)
    requires ValidBuffer(lines) && l < |lines|
    ensures l < |UnwrapAll(lines, l, n).lines|
    decreases |lines| - l
  {
    if Roomy(lines, l, n) {
      var round := UnwrapStep(lines, l, n);
      if !round.done {
        UnwrapLeavesAboveLength(round.lines, l + 1, n);
      }
    }
  }

  lemma {:induction false} UnwrapLeavesAboveLength(lines: Buffer, l: nat, n: nat)
    requires ValidBuffer(lines) && l <= |lines|
    ensures l <= |UnwrapAll(lines, l, n).lines|
  {
    if 0 < l {
      UnwrapLeavesAbove(lines, l, n, l - 1);
    }
  }

  lemma FirstStageKeeps(lines: Buffer, ypos: nat, n: nat)
    requires ValidBuffer(lines) && ypos < |lines|
    ensures ypos <= |FirstStage(lines, ypos, n).lines|
    ensures FirstStage(lines, ypos, n).ret != -1 ==> PrevSoft(lines, ypos)
  {
    if PrevSoft(lines, ypos) {
      UnwrapKeepsFirst(lines, ypos - 1, n);
    }
  }

  // ---------------------------------------------------------------------------------------------
  // The document
  // ---------------------------------------------------------------------------------------------

  /** Some stage that `rewrap` gets to takes its faulty branch. */
  predicate Disturbs(lines: Buffer, xpos: int, ypos: nat, n: nat)
    requires ValidBuffer(lines) && n > 0
  {
    ypos < |lines| &&
    var u := FirstStage(lines, ypos, n);
    || (PrevSoft(lines, ypos) && Crosses(lines, ypos - 1, n))
    || (!u.threw && !MovedUp(u, xpos) && ypos < |u.lines| && SecondDisturbs(u.lines, ypos, n))
  }

  predicate SecondDisturbs(lines: Buffer, ypos: nat, n: nat)
    requires ValidBuffer(lines) && n > 0
  {
    var v := UnwrapAll(lines, ypos, n);
    || Crosses(lines, ypos, n)
    || (!v.threw && v.ret == -1 && Spills(v.lines, ypos, n))
  }

  lemma FirstStageDoc(lines: Buffer, ypos: nat, n: nat)
    requires ValidBuffer(lines)
    ensures var u := FirstStage(lines, ypos, n);
            var crosses := PrevSoft(lines, ypos) && Crosses(lines, ypos - 1, n);
            && Chars(Doc(u.lines)) == Chars(Doc(lines))
            && (Doc(u.lines) == Doc(lines) <==> !crosses)
            && (if crosses then Weight(Doc(u.lines)) < Weight(Doc(lines)) else Weight(Doc(u.lines)) == Weight(Doc(lines)))
            && LastHard(u.lines) == LastHard(lines)
  {
    hide UnwrapAll, Crosses, Doc, Chars, Weight;
    if PrevSoft(lines, ypos) {
      UnwrapKeepsDocument(lines, ypos - 1, n);
    }
  }

  /** A buffer whose last line is hard and one whose last line is soft and not empty stand for different documents. */
  lemma {:induction false} LastHardDoc(lines: Buffer)
    requires ValidBuffer(lines)
    ensures LastHard(lines) ==> Doc(lines) != [] && Doc(lines)[|Doc(lines)| - 1] == Hard
  {
    if |lines| == 1 {
      DocOfOne(lines[0]);
      assert lines == [lines[0]];
    } else if lines != [] {
      LastHardDoc(lines[1..]);
    }
  }

  /** After the faulty branch of wrapping, the document ends with a character. */
  lemma {:induction false} SpilledEnds(lines: Buffer, l: nat, n: nat)
    requires ValidBuffer(lines) && n > 0 && Spills(lines, l, n)
    ensures var doc := Doc(WrapAll(lines, l, n).lines); doc != [] && doc[|doc| - 1].Ch?
    decreases TextFrom(lines, l)
  {
    hide Doc, Chars, Cut, Trimmed;
    WrapStepShrinks(lines, l, n);
    var next := WrapStep(lines, l, n);
    if SpillsAt(lines, l, n) {
      WrapStepDoc(lines, l, n);
      LastSoftNeverSpills(next, l + 1, n);
      WrapKeepsDocument(next, l + 1, n);
      var tail := next[l + 1];
      TailNonEmpty(lines[l].text, n);
      assert next == next[..l + 1] + [tail];
      DocConcat(next[..l + 1], [tail]);
      DocOfOne(tail);
      assert LineDoc(tail)[|LineDoc(tail)| - 1] == Ch(tail.text[|tail.text| - 1], tail.attr[|tail.attr| - 1]);
    } else {
      SpilledEnds(next, l + 1, n);
    }
  }

  lemma LastStageDoc(lines: Buffer, xpos: int, ypos: nat, n: nat, oldlen: nat)
    requires ValidBuffer(lines) && n > 0
    ensures var doc := Doc(LastStage(lines, xpos, ypos, n, oldlen).lines);
            && Chars(doc) == Chars(Doc(lines))
            && (!Spills(lines, ypos, n) ==> doc == Doc(lines))
            && (Spills(lines, ypos, n) ==> LastHard(lines) && doc != [] && doc[|doc| - 1].Ch?)
  {
    hide WrapAll, Spills, Settled, Doc, Chars, Cut, Trimmed;
    WrapKeepsDocument(lines, ypos, n);
    if Spills(lines, ypos, n) {
      SpilledEnds(lines, ypos, n);
      if !LastHard(lines) {
        LastSoftNeverSpills(lines, ypos, n);
      }
    }
  }

  lemma SecondStageDoc(lines: Buffer, xpos: int, ypos: nat, n: nat)
    requires ValidBuffer(lines) && n > 0 && ypos < |lines|
    ensures var doc := Doc(SecondStage(lines, xpos, ypos, n).lines);
            && Chars(doc) == Chars(Doc(lines))
            && (!SecondDisturbs(lines, ypos, n) ==> doc == Doc(lines))
            && (SecondDisturbs(lines, ypos, n) ==>
                  || Weight(doc) < Weight(Doc(lines))
                  || (LastHard(lines) && doc != [] && doc[|doc| - 1].Ch?))
  {
    hide UnwrapAll, WrapAll, Crosses, Spills, Doc, Chars, Weight, LastStage;
    UnwrapKeepsDocument(lines, ypos, n);
    var v := UnwrapAll(lines, ypos, n);
    LastStageDoc(v.lines, xpos, ypos, n, |lines[ypos].text|);
  }

  /**
   `rewrap` never loses, adds or moves a character, even in a run that ends in an exception or in exit();
   and it leaves every hard carriage return in its place exactly when no stage takes its faulty branch.
   */
  lemma RewrapKeepsDocument(lines: Buffer, xpos: int, ypos: nat, n: nat)
    requires ValidBuffer(lines) && n > 0
    ensures Chars(Doc(RewrapAll(lines, xpos, ypos, n).lines)) == Chars(Doc(lines))
    ensures Doc(RewrapAll(lines, xpos, ypos, n).lines) == Doc(lines) <==> !Disturbs(lines, xpos, ypos, n)
  {
    hide FirstStage, SecondStage, SecondDisturbs, Crosses, Doc, Chars, Weight;
    if ypos < |lines| {
      FirstStageDoc(lines, ypos, n);
      var u := FirstStage(lines, ypos, n);
      if !u.threw && !MovedUp(u, xpos) && ypos < |u.lines| {
        SecondStageDoc(u.lines, xpos, ypos, n);
        LastHardDoc(lines);
      }
    }
  }

  // ---------------------------------------------------------------------------------------------
  // How a run ends
  // ---------------------------------------------------------------------------------------------

  /** Some stage that `rewrap` gets to comes to a line on which `unwrap_line` throws. */
  predicate RewrapThrows(lines: Buffer, xpos: int, ypos: nat, n: nat)
    requires ValidBuffer(lines) && n > 0
  {
    ypos < |lines| &&
    var u := FirstStage(lines, ypos, n);
    || (PrevSoft(lines, ypos) && Throws(lines, ypos - 1, n))
    || (!MovedUp(u, xpos) && ypos < |u.lines| && Throws(u.lines, ypos, n))
  }

  /** `rewrap` gets to its last stage, and that to a line on which `wrap_line` gives up. */
  predicate RewrapExits(lines: Buffer, xpos: int, ypos: nat, n: nat)
    requires ValidBuffer(lines) && n > 0
  {
    ypos < |lines| && !RewrapThrows(lines, xpos, ypos, n) &&
    var u := FirstStage(lines, ypos, n);
    !MovedUp(u, xpos) && ypos < |u.lines| &&
    var v := UnwrapAll(u.lines, ypos, n);
    v.ret == -1 && Exits(v.lines, ypos, n)
  }

  /** How a run of `rewrap` ends. */
  lemma RewrapEnds(lines: Buffer, xpos: int, ypos: nat, n: nat)
    requires ValidBuffer(lines) && n > 0
    ensures RewrapAll(lines, xpos, ypos, n).outcome ==
            if RewrapThrows(lines, xpos, ypos, n) then Threw
            else if RewrapExits(lines, xpos, ypos, n) then Exited
            else Fine
  {
    hide UnwrapAll, WrapAll, Throws, Exits, WrapRet;
    if ypos < |lines| {
      var u := FirstStage(lines, ypos, n);
      if PrevSoft(lines, ypos) {
        UnwrapThrows(lines, ypos - 1, n);
      }
      if !u.threw && !MovedUp(u, xpos) && ypos < |u.lines| {
        UnwrapThrows(u.lines, ypos, n);
        WrapExits(UnwrapAll(u.lines, ypos, n).lines, ypos, n);
      }
    }
  }

  /** A buffer `rewrap` cannot harm: no kludge-wrapped line, and the last line soft. */
  predicate Harmless(lines: Buffer) {
    Unkludged(lines) && !LastHard(lines)
  }

  /** On such a buffer no stage takes a faulty branch and none throws. */
  lemma HarmlessUndisturbed(lines: Buffer, xpos: int, ypos: nat, n: nat)
    requires ValidBuffer(lines) && n > 0 && Harmless(lines)
    ensures !Disturbs(lines, xpos, ypos, n)
    ensures RewrapAll(lines, xpos, ypos, n).outcome != Threw
  {
    hide UnwrapAll, WrapAll, Crosses, Spills, LastStage, Doc, Chars, Weight;
    if ypos < |lines| {
      if PrevSoft(lines, ypos) {
        UnkludgedNeverCrosses(lines, ypos - 1, n);
        UnwrapKeepsUnkludged(lines, ypos - 1, n);
        UnwrapKeepsDocument(lines, ypos - 1, n);
      }
      var u := FirstStage(lines, ypos, n);
      UnkludgedNeverCrosses(u.lines, ypos, n);
      UnwrapKeepsDocument(u.lines, ypos, n);
      LastSoftNeverSpills(UnwrapAll(u.lines, ypos, n).lines, ypos, n);
      if ypos < |u.lines| {
        LastStageFine(u.lines, xpos, ypos, n);
      }
    }
  }

  lemma LastStageFine(lines: Buffer, xpos: int, ypos: nat, n: nat)
    requires ValidBuffer(lines) && n > 0 && ypos < |lines| && !UnwrapAll(lines, ypos, n).threw
    ensures SecondStage(lines, xpos, ypos, n).outcome != Threw
  {
    hide UnwrapAll, WrapAll;
  }

  // ---------------------------------------------------------------------------------------------
  // The layout
  // ---------------------------------------------------------------------------------------------

  /** What wrapping reports is what it carried down: the line keeps as much as fills its row. */
  lemma WrapRetFills(lines: Buffer, l: nat, n: nat)
    requires ValidBuffer(lines) && n > 0 && l < |lines|
    ensures WrapRet(lines, l, n) == -1 <==> Finished(lines, l, n) || lines[l].text == ""
    ensures WrapRet(lines, l, n) != -1 ==>
              0 <= WrapRet(lines, l, n) <= |lines[l].text| && FillsRow(lines[l].text, |lines[l].text| - WrapRet(lines, l, n), n)
  {
    hide Finished, FillsRow, Settled, Cut;
    SettledIsFinished(lines, l, n);
    CutFillsRow(lines[l].text, n);
  }

  lemma SecondStageFits(lines: Buffer, xpos: int, ypos: nat, n: nat)
    requires ValidBuffer(lines) && n > 0 && ypos < |lines|
    ensures var r := SecondStage(lines, xpos, ypos, n);
            r.outcome == Fine && r.ypos < |r.lines| ==> Trimmed(r.lines[r.ypos].text) <= n
  {
    hide UnwrapAll, WrapAll, WrapRet, Trimmed;
    var v := UnwrapAll(lines, ypos, n);
    if v.ret != -1 {
      UnwrapRetMoves(lines, ypos, n);
      UnwrapFits(lines, ypos, n, ypos);
    } else {
      var w := WrapAll(v.lines, ypos, n);
      WrapRetStops(v.lines, ypos, n);
      WrapFits(v.lines, ypos, n, ypos);
      WrapFits(v.lines, ypos, n, ypos + 1);
    }
  }

  lemma UnwrapRetMoves(lines: Buffer, l: nat, n: nat)
    requires ValidBuffer(lines) && UnwrapAll(lines, l, n).ret != -1
    ensures l < UnwrapAll(lines, l, n).stop
  {
    hide UnwrapStep, Roomy;
    assert Roomy(lines, l, n);
    var round := UnwrapStep(lines, l, n);
    if !round.done {
      UnwrapMovesOn(round.lines, l + 1, n);
    }
  }

  lemma {:induction false} UnwrapMovesOn(lines: Buffer, l: nat, n: nat)
    requires ValidBuffer(lines)
    ensures l <= UnwrapAll(lines, l, n).stop
    decreases |lines| - l
  {
    hide UnwrapStep;
    if Roomy(lines, l, n) {
      var round := UnwrapStep(lines, l, n);
      if !round.done {
        UnwrapMovesOn(round.lines, l + 1, n);
      }
    }
  }

  lemma WrapRetStops(lines: Buffer, l: nat, n: nat)
    requires ValidBuffer(lines) && n > 0
    ensures l <= WrapAll(lines, l, n).stop
    ensures WrapRet(lines, l, n) != -1 ==> l + 1 <= WrapAll(lines, l, n).stop
  {
    hide Settled, WrapStep;
    WrapMovesOn(lines, l, n);
    if l < |lines| && !Settled(lines, l, n) && lines[l].text != "" {
      WrapStepShrinks(lines, l, n);
      WrapMovesOn(WrapStep(lines, l, n), l + 1, n);
    }
  }

  /** In every run that returns, the line the cursor is left on fits the screen. */
  lemma CursorLineFits(lines: Buffer, xpos: int, ypos: nat, n: nat)
    requires ValidBuffer(lines) && n > 0
    ensures var r := RewrapAll(lines, xpos, ypos, n);
            r.outcome == Fine && r.ypos < |r.lines| ==> Trimmed(r.lines[r.ypos].text) <= n
  {
    hide UnwrapAll, SecondStage, Trimmed;
    if ypos < |lines| {
      FirstStageKeeps(lines, ypos, n);
      var u := FirstStage(lines, ypos, n);
      if MovedUp(u, xpos) {
        UnwrapRetMoves(lines, ypos - 1, n);
        UnwrapFits(lines, ypos - 1, n, ypos - 1);
      } else if !u.threw && ypos < |u.lines| {
        SecondStageFits(u.lines, xpos, ypos, n);
      }
    }
  }

  /**
   When the cursor's line is broken, a cursor on what it keeps stays where it is, at its end too; one beyond goes down
   with the text it stands in.
   */
  lemma CursorFollows(lines: Buffer, xpos: int, ypos: nat, n: nat)
    requires ValidBuffer(lines) && n > 0 && ypos < |lines|
    requires var v := UnwrapAll(lines, ypos, n); !v.threw && v.ret == -1 && WrapRet(v.lines, ypos, n) != -1
    requires SecondStage(lines, xpos, ypos, n).outcome == Fine
    ensures var r := SecondStage(lines, xpos, ypos, n);
      && ypos + 1 < |r.lines|
      && var kept := |r.lines[ypos].text|;
         if xpos <= kept then (r.xpos, r.ypos) == (xpos, ypos)
         else (r.xpos, r.ypos) == (Min(xpos - kept, |r.lines[ypos + 1].text|), ypos + 1)
  {
    hide UnwrapAll, WrapAll, WrapRet;
    UnwrapRet(lines, ypos, n);
    WrapRetIs(UnwrapAll(lines, ypos, n).lines, ypos, n);
  }

  // ---------------------------------------------------------------------------------------------
  // The cursor's line
  // ---------------------------------------------------------------------------------------------

  /** A round that leaves line `l` as the last one took all of the line below it, or threw. */
  lemma RoundTakes(lines: Buffer, l: nat, n: nat)
    requires ValidBuffer(lines) && Roomy(lines, l, n)
    ensures var r := UnwrapStep(lines, l, n);
            && (|r.lines| <= l + 1 ==> r.threw || r.moved == -1 || r.moved >= |lines[l + 1].text|)
            && (r.moved == -1 && |r.lines| <= l + 1 ==> lines[l + 1].text == "")
            && (lines[l + 1].text == "" ==> r.done && r.moved == -1 && !r.threw && |r.lines| == |lines| - 1)
            && (!r.done ==> !r.threw && r.moved != -1)
  {
    var k1 := MendCut(lines, l, n);
    var mid := Mend(lines, l, n);
    if k1 == 0 {
      assert |mid| == |lines| && mid[l + 1] == lines[l + 1];
    }
  }

  lemma OntoLast(lines: Buffer, l: nat, n: nat)
    requires ValidBuffer(lines) && Roomy(lines, l, n)
    ensures var u := UnwrapAll(lines, l, n);
            && (|u.lines| <= l + 1 ==> u.threw || u.ret == -1 || u.ret >= |lines[l + 1].text|)
            && (u.ret == -1 && |u.lines| <= l + 1 && !u.threw ==> lines[l + 1].text == "")
            && (lines[l + 1].text == "" ==> u.ret == -1 && !u.threw && |u.lines| == |lines| - 1)
  {
    hide UnwrapStep;
    var round := UnwrapStep(lines, l, n);
    RoundTakes(lines, l, n);
    if !round.done {
      if l + 1 < |round.lines| {
        UnwrapKeepsFirst(round.lines, l + 1, n);
      } else {
        assert UnwrapAll(round.lines, l + 1, n).lines == round.lines;
      }
    }
  }

  /** All text below line `l` fits on it, and one call moves it there. */
  predicate Swallows(lines: Buffer, l: nat, n: nat) {
    Roomy(lines, l, n) &&
    var k := MendCut(lines, l, n);
    var (nx, room) := (lines[l + 1].text, n - |lines[l].text| - k);
    if k == 0 || k < |nx| then l + 2 == |lines| && AllTaken(nx[k..], room)
    else if l + 2 == |lines| then room < 1
    else l + 3 == |lines| && AllTaken(lines[l + 2].text, room)
  }

  lemma SwallowsRoomy(lines: Buffer, l: nat, n: nat)
    ensures Swallows(lines, l, n) ==> Roomy(lines, l, n)
  {
  }

  /** The second half of a round takes the whole of a line. */
  predicate AllTaken(text: string, room: int) {
    text == "" || (room >= 1 && WordsCut(text, room) == |text|)
  }

  lemma FillSwallows(mid: Buffer, l: nat, room: int, k1: nat)
    requires ValidBuffer(mid) && l < |mid|
    ensures var r := Fill(mid, l, room, k1);
            && (!r.threw && |r.lines| == l + 1 <==>
                  if l + 1 == |mid| then room < 1 else l + 2 == |mid| && AllTaken(mid[l + 1].text, room))
            && (!r.threw && |r.lines| == l + 1 ==>
                  r.moved == (var all := k1 + TextFrom(mid, l + 1); if all == 0 then -1 else all))
            && (!r.done ==> !r.threw && l + 1 <= |r.lines|)
  {
    hide WordsCut;
    assert l + 2 == |mid| ==> TextFrom(mid, l + 1) == |mid[l + 1].text|;
  }

  lemma MendSwallows(lines: Buffer, l: nat, n: nat)
    requires ValidBuffer(lines) && Roomy(lines, l, n)
    ensures var (k, mid) := (MendCut(lines, l, n), Mend(lines, l, n));
            if k > 0 && k == |lines[l + 1].text| then |mid| == |lines| - 1 && mid[l + 1..] == lines[l + 2..]
            else |mid| == |lines| && mid[l + 1].text == lines[l + 1].text[k..] && mid[l + 2..] == lines[l + 2..]
    ensures MendCut(lines, l, n) + TextFrom(Mend(lines, l, n), l + 1) == TextFrom(lines, l + 1)
  {
    hide UnkludgeCut;
    var (k, mid) := (MendCut(lines, l, n), Mend(lines, l, n));
    if k > 0 && k == |lines[l + 1].text| {
      TextFromSame(mid, lines, l + 1, l + 2);
    } else {
      TextFromSame(mid, lines, l + 2, l + 2);
    }
  }

  /** A round swallows everything below exactly under that condition, and then reports all of it. */
  lemma RoundSwallows(lines: Buffer, l: nat, n: nat)
    requires ValidBuffer(lines) && Roomy(lines, l, n)
    ensures var r := UnwrapStep(lines, l, n);
            && (!r.threw && |r.lines| == l + 1 <==> Swallows(lines, l, n))
            && (Swallows(lines, l, n) ==> r.moved == if TextFrom(lines, l + 1) == 0 then -1 else TextFrom(lines, l + 1))
            && (!r.done ==> !r.threw && l + 1 <= |r.lines|)
  {
    hide Mend, Fill, MendCut, AllTaken;
    var k := MendCut(lines, l, n);
    var mid := Mend(lines, l, n);
    MendSwallows(lines, l, n);
    FillSwallows(mid, l, n - |lines[l].text| - k, k);
  }

  lemma OntoLine(lines: Buffer, l: nat, n: nat)
    requires ValidBuffer(lines) && l < |lines|
    ensures var u := UnwrapAll(lines, l, n);
            && (!u.threw && |u.lines| == l + 1 && l + 1 < |lines| <==> Swallows(lines, l, n))
            && (Swallows(lines, l, n) ==> u.ret == if TextFrom(lines, l + 1) == 0 then -1 else TextFrom(lines, l + 1))
  {
    hide UnwrapStep, Swallows;
    SwallowsRoomy(lines, l, n);
    if Roomy(lines, l, n) {
      RoundSwallows(lines, l, n);
      var round := UnwrapStep(lines, l, n);
      if !round.done {
        if l + 1 < |round.lines| {
          UnwrapKeepsFirst(round.lines, l + 1, n);
        } else {
          assert UnwrapAll(round.lines, l + 1, n).lines == round.lines;
        }
      }
    }
  }

  /**
   `rewrap` can leave the cursor below the last line of the buffer.  In a run that returns it does so exactly when
   the line above takes all text from the cursor's line on, and there is none or the cursor stands beyond it.
   */
  lemma RewrapLosesCursor(lines: Buffer, xpos: int, ypos: nat, n: nat)
    requires ValidBuffer(lines) && n > 0 && ypos < |lines|
    ensures var r := RewrapAll(lines, xpos, ypos, n);
            r.outcome == Fine ==>
              (r.ypos >= |r.lines| <==>
                ypos > 0 && Swallows(lines, ypos - 1, n) && (TextFrom(lines, ypos) == 0 || xpos > TextFrom(lines, ypos)))
  {
    hide UnwrapAll, WrapAll, Swallows, TextFrom;
    FirstStageKeeps(lines, ypos, n);
    var u := FirstStage(lines, ypos, n);
    if ypos > 0 {
      OntoLine(lines, ypos - 1, n);
      SwallowsRoomy(lines, ypos - 1, n);
    }
    if !u.threw && !MovedUp(u, xpos) && ypos < |u.lines| {
      UnwrapKeepsFirst(u.lines, ypos, n);
    }
  }

  /** From a cursor within its line: when that line is the last, is empty, and the line above is soft and has room. */
  lemma WithinLineLosesCursor(lines: Buffer, xpos: int, ypos: nat, n: nat)
    requires ValidBuffer(lines) && n > 0 && ypos < |lines| && 0 <= xpos <= |lines[ypos].text|
    ensures var r := RewrapAll(lines, xpos, ypos, n);
            r.outcome == Fine ==>
              (r.ypos >= |r.lines| <==> ypos > 0 && ypos + 1 == |lines| && Roomy(lines, ypos - 1, n) && lines[ypos].text == "")
  {
    hide RewrapAll, WordsCut, UnkludgeCut;
    RewrapLosesCursor(lines, xpos, ypos, n);
  }

  // ---------------------------------------------------------------------------------------------
  // The character under the cursor
  // ---------------------------------------------------------------------------------------------

  /** Characters on the first `y` lines: with the column added, the cursor's place in the flat text. */
  function TextBefore(lines: Buffer, y: nat): nat
    requires y <= |lines|
  {
    if y == 0 then 0 else TextBefore(lines, y - 1) + |lines[y - 1].text|
  }

  lemma {:induction false} TextBeforeSame(a: Buffer, b: Buffer, y: nat)
    requires y <= |a| && y <= |b| && forall i :: 0 <= i < y ==> a[i] == b[i]
    ensures TextBefore(a, y) == TextBefore(b, y)
  {
    if y > 0 {
      TextBeforeSame(a, b, y - 1);
    }
  }

  lemma FillLength(mid: Buffer, l: nat, room: int, k1: nat)
    requires ValidBuffer(mid) && l < |mid|
    ensures var r := Fill(mid, l, room, k1);
            && r.moved >= -1
            && (if r.moved == -1 then k1 == 0 && |r.lines[l].text| == |mid[l].text|
                else |r.lines[l].text| == |mid[l].text| + r.moved - k1)
  {
    hide WordsCut;
    PlainFits(mid, l);
    if room >= 1 && l + 1 < |mid| {
      PullAt(mid, l, WordsCut(mid[l + 1].text, room));
    }
  }

  lemma RoundLength(lines: Buffer, l: nat, n: nat)
    requires ValidBuffer(lines) && Roomy(lines, l, n)
    ensures var r := UnwrapStep(lines, l, n);
            r.moved >= -1 && |r.lines[l].text| == |lines[l].text| + (if r.moved == -1 then 0 else r.moved)
  {
    hide Mend, Fill, MendCut, Doc;
    MendDoc(lines, l, n);
    var k1 := MendCut(lines, l, n);
    FillLength(Mend(lines, l, n), l, n - |lines[l].text| - k1, k1);
  }

  /** The number `unwrap_line` returns is what its first line grew by. */
  lemma UnwrapRet(lines: Buffer, l: nat, n: nat)
    requires ValidBuffer(lines) && l < |lines|
    ensures var u := UnwrapAll(lines, l, n);
            && l < |u.lines| && u.ret >= -1
            && |u.lines[l].text| == |lines[l].text| + (if u.ret == -1 then 0 else u.ret)
            && TextBefore(u.lines, l) == TextBefore(lines, l)
  {
    hide UnwrapStep;
    UnwrapKeepsFirst(lines, l, n);
    var u := UnwrapAll(lines, l, n);
    forall i | 0 <= i < l ensures u.lines[i] == lines[i] {
      UnwrapLeavesAbove(lines, l, n, i);
    }
    TextBeforeSame(lines, u.lines, l);
    if Roomy(lines, l, n) {
      RoundLength(lines, l, n);
      var round := UnwrapStep(lines, l, n);
      if !round.done {
        UnwrapLeavesAbove(round.lines, l + 1, n, l);
      }
    }
  }

  /** The first line wrapped keeps what is not carried down. */
  lemma WrapRetIs(lines: Buffer, l: nat, n: nat)
    requires ValidBuffer(lines) && n > 0 && l < |lines|
    ensures var w := WrapAll(lines, l, n);
            && TextBefore(w.lines, l) == TextBefore(lines, l)
            && (WrapRet(lines, l, n) != -1 ==> l + 1 < |w.lines| && |w.lines[l].text| == |lines[l].text| - WrapRet(lines, l, n))
            && (WrapRet(lines, l, n) == -1 ==> |w.lines[l].text| == |lines[l].text|)
  {
    hide Cut, Trimmed, BreakLine;
    var w := WrapAll(lines, l, n);
    forall i | 0 <= i < l ensures w.lines[i] == lines[i] {
      WrapLeavesAbove(lines, l, n, i);
    }
    TextBeforeSame(lines, w.lines, l);
    if !Settled(lines, l, n) && lines[l].text != "" {
      WrapLeavesAbove(WrapStep(lines, l, n), l + 1, n, l);
      BreakKeeps(lines, l, Cut(lines[l].text, n), FirstCut(lines[l].text, n) == 0);
    }
  }

  /** The fault at exec/fseditor.js:473-477: text left the cursor's line upwards, but not the text under the cursor. */
  function Slip(lines: Buffer, xpos: int, ypos: nat, n: nat): int
    requires ValidBuffer(lines)
  {
    var ret := FirstStage(lines, ypos, n).ret;
    if ret != -1 && xpos > ret then ret else 0
  }

  /** How far the last stage pulls the cursor back because the line it lands on was itself broken before it. */
  function Clip(lines: Buffer, xpos: int, ypos: nat, n: nat): int
    requires ValidBuffer(lines) && n > 0 && ypos < |lines|
  {
    var v := UnwrapAll(lines, ypos, n);
    var w := WrapAll(v.lines, ypos, n).lines;
    if v.threw || v.ret != -1 || WrapRet(v.lines, ypos, n) == -1 || ypos + 1 >= |w| then 0
    else
      var over := xpos - |w[ypos].text| - |w[ypos + 1].text|;
      if over > 0 then over else 0
  }

  lemma SecondStageCursor(lines: Buffer, xpos: int, ypos: nat, n: nat)
    requires ValidBuffer(lines) && n > 0 && ypos < |lines|
    ensures var r := SecondStage(lines, xpos, ypos, n);
            && r.ypos <= |r.lines|
            && (r.outcome == Fine ==>
                  TextBefore(r.lines, r.ypos) + r.xpos == TextBefore(lines, ypos) + xpos - Clip(lines, xpos, ypos, n))
  {
    hide UnwrapAll, WrapAll, WrapRet;
    UnwrapRet(lines, ypos, n);
    var v := UnwrapAll(lines, ypos, n);
    WrapRetIs(v.lines, ypos, n);
  }

  /**
   Where the cursor ends up in the flat text, in every run of `rewrap` that returns: on the character it
   was on, plus the slip of the first stage, minus the clip of the last.  Each is zero unless its guard holds.
   */
  lemma RewrapMovesCursor(lines: Buffer, xpos: int, ypos: nat, n: nat)
    requires ValidBuffer(lines) && n > 0 && ypos < |lines|
    ensures var r := RewrapAll(lines, xpos, ypos, n);
            var u := FirstStage(lines, ypos, n);
            && r.ypos <= |r.lines|
            && (r.outcome == Fine ==>
                  TextBefore(r.lines, r.ypos) + r.xpos ==
                  TextBefore(lines, ypos) + xpos + Slip(lines, xpos, ypos, n)
                  - if MovedUp(u, xpos) || ypos >= |u.lines| then 0 else Clip(u.lines, xpos, ypos, n))
  {
    hide UnwrapAll, SecondStage, Clip;
    FirstStageKeeps(lines, ypos, n);
    var u := FirstStage(lines, ypos, n);
    if PrevSoft(lines, ypos) {
      UnwrapRet(lines, ypos - 1, n);
    }
    if !u.threw && !MovedUp(u, xpos) && ypos < |u.lines| {
      SecondStageCursor(u.lines, xpos, ypos, n);
    }
  }
}
