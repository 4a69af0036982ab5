/**
 The editor itself (exec/fseditor.js): the buffer, the cursor and the viewport, changed in place by
 every key.  Drawing is left out.
 */
module EditorSession {
  import opened EditorLines
  import opened EditorWrap
  import opened EditorUnwrap
  import opened EditorRewrap
  import opened EditorKeys
  import opened EditorRun

  lemma BreakOfFlag(lines: Buffer, l: nat, cut: nat)
    requires ValidBuffer(lines) && l < |lines| && cut <= |lines[l].text|
    ensures BreakLine(SetKludged(lines, l, true), l, cut, false) == BreakLine(lines, l, cut, true)
  {
  }

  /** Moving text up and then dropping an emptied line, in two steps on the buffer, is `Pull`. */
  lemma PulledInPlace(lines: Buffer, l: nat, k: nat)
    requires ValidBuffer(lines) && l + 1 < |lines| && k <= |lines[l + 1].text|
    ensures var (ln, nx) := (lines[l], lines[l + 1]);
            var moved := lines[l := ln.(text := ln.text + nx.text[..k], attr := ln.attr + nx.attr[..k])]
                              [l + 1 := nx.(text := nx.text[k..], attr := nx.attr[k..])];
            && ValidBuffer(moved)
            && (k < |nx.text| ==> moved == Pull(lines, l, k))
            && (k == |nx.text| ==> Pull(moved, l, 0) == Pull(lines, l, k))
  {
    var (ln, nx) := (lines[l], lines[l + 1]);
    var moved := lines[l := ln.(text := ln.text + nx.text[..k], attr := ln.attr + nx.attr[..k])]
                      [l + 1 := nx.(text := nx.text[k..], attr := nx.attr[k..])];
    assert moved[..l] == lines[..l] && moved[l + 2..] == lines[l + 2..];
    if k < |nx.text| {
      TwoInTheMiddle(moved, l);
    } else {
      assert moved[l].text + "" == moved[l].text && moved[l].attr + [] == moved[l].attr;
      assert Pull(moved, l, 0)[l] == Pull(lines, l, k)[l];
    }
  }

  /** The buffer `SplitAt` describes, reached by inserting a line and moving the text. */
  lemma SplitInPlace(lines: Buffer, y: nat, x: nat)
    requires ValidBuffer(lines) && y < |lines|
    ensures var (ln, k) := (lines[y], Upto(lines[y], x));
            var wider := lines[..y + 1] + [BLANK] + lines[y + 1..];
            wider[y + 1 := Line(ln.text[k..], ln.attr[k..], ln.hardcr, ln.kludged)]
                 [y := Line(ln.text[..k], ln.attr[..k], true, false)] == SplitAt(lines, y, x)
  {
  }

  class Editor {
    var line: Buffer
    var xpos: nat
    var ypos: nat
    var lastXpos: int
    var topline: nat
    var insert: bool
    var curattr: Attr

    const columns: nat      // the widest line allowed, screen_columns-1
    const rows: nat         // lines_on_screen
    const jump: nat         // scroll_lines

    ghost predicate Valid()
      reads this
    {
      && ValidBuffer(line) && columns > 0
      && 1 <= jump <= rows && lastXpos >= -1
      && OnScreen()
    }

    predicate OnScreen()
      reads this
    {
      topline <= ypos < topline + rows
    }

    /** The buffer and the cursor, without the viewport. */
    function Now(): Session
      reads this
    {
      Session(line, xpos, ypos, lastXpos, insert, curattr)
    }

    constructor (columns: nat, rows: nat, jump: nat)
      requires columns > 0 && 1 <= jump <= rows
      ensures Valid() && line == [BLANK] && xpos == 0 && ypos == 0 && insert && curattr == 7
    {
      line, xpos, ypos, lastXpos, topline, insert, curattr := [BLANK], 0, 0, -1, 0, true, 7;
      this.columns, this.rows, this.jump := columns, rows, jump;
    }

    // -------------------------------------------------------------------------------------------
    // The viewport
    // -------------------------------------------------------------------------------------------

    method Scroll(count: int)
      modifies `topline
      ensures var t := old(topline) + count;
              var top := if t + rows >= |line| then |line| - rows else t;
              topline == if top < 0 then 0 else top
    {
      var t := topline + count;
      if t + rows >= |line| {
        t := |line| - rows;
      }
      topline := if t < 0 then 0 else t;
    }

    method NextLine()
      requires Valid() && ypos < |line|
      modifies `line, `xpos, `ypos, `topline
      ensures Valid() && ypos == old(ypos) + 1 < |line|
      ensures line == if ypos < |old(line)| then old(line) else old(line) + [BLANK]
      ensures xpos == Min(if lastXpos >= 0 then lastXpos else old(xpos), |line[ypos].text|)
    {
      ypos := ypos + 1;
      if ypos >= |line| {
        line := line + [BLANK];
      }
      if ypos - topline >= rows {
        Scroll(jump);
      }
      if lastXpos >= 0 {
        xpos := lastXpos;
      }
      if xpos > |line[ypos].text| {
        xpos := |line[ypos].text|;
      }
    }

    method TryPrevLine() returns (ok: bool)
      requires Valid() && ypos <= |line|
      modifies `xpos, `ypos, `topline
      ensures Valid()
      ensures ok <==> old(ypos) > 0
      ensures ok ==> ypos == old(ypos) - 1 && xpos == Min(if lastXpos >= 0 then lastXpos else old(xpos), |line[ypos].text|)
      ensures !ok ==> xpos == old(xpos) && ypos == old(ypos)
    {
      ok := ypos > 0;
      if ok {
        ypos := ypos - 1;
        if ypos < topline {
          Scroll(0 - jump as int);
        }
        if lastXpos >= 0 {
          xpos := lastXpos;
        }
        if xpos > |line[ypos].text| {
          xpos := |line[ypos].text|;
        }
      }
    }

    method TryNextLine() returns (ok: bool)
      requires Valid() && ypos < |line|
      modifies `xpos, `ypos, `topline
      ensures Valid()
      ensures ok <==> old(ypos) + 1 < |line|
      ensures ok ==> ypos == old(ypos) + 1 && xpos == Min(if lastXpos >= 0 then lastXpos else old(xpos), |line[ypos].text|)
      ensures !ok ==> xpos == old(xpos) && ypos == old(ypos)
    {
      ok := ypos + 1 < |line|;
      if ok {
        ypos := ypos + 1;
        if ypos >= topline + rows {
          Scroll(jump);
        }
        if lastXpos >= 0 {
          xpos := lastXpos;
        }
        if xpos > |line[ypos].text| {
          xpos := |line[ypos].text|;
        }
      }
    }

    method PageUpKey()
      requires Valid() && ypos < |line|
      modifies `xpos, `ypos, `topline, `lastXpos
      ensures Valid()
      ensures ypos == if old(ypos) < rows - 1 then 0 else old(ypos) - (rows - 1)
      ensures lastXpos == if old(lastXpos) == -1 then old(xpos) else old(lastXpos)
      ensures xpos == if old(ypos) > 0 then Min(lastXpos, |line[ypos].text|) else old(xpos)
    {
      if lastXpos == -1 {
        lastXpos := xpos;
      }
      if ypos == 0 {
        return;
      }
      ypos := if ypos < rows - 1 then 0 else ypos - (rows - 1);
      if topline > ypos {
        topline := ypos;
      }
      xpos := lastXpos;
      if xpos > |line[ypos].text| {
        xpos := |line[ypos].text|;
      }
    }

    method PageDownKey()
      requires Valid() && ypos < |line|
      modifies `xpos, `ypos, `topline, `lastXpos
      ensures Valid()
      ensures ypos == Min(old(ypos) + rows - 1, |line| - 1)
      ensures lastXpos == if old(lastXpos) == -1 then old(xpos) else old(lastXpos)
      ensures xpos == if old(ypos) + 1 < |line| then Min(lastXpos, |line[ypos].text|) else old(xpos)
    {
      if lastXpos == -1 {
        lastXpos := xpos;
      }
      if ypos >= |line| - 1 {
        return;
      }
      ypos := ypos + rows - 1;
      if ypos > |line| - 1 {
        ypos := |line| - 1;
      }
      if ypos >= topline + rows {
        topline := ypos - rows + 1;
      }
      xpos := lastXpos;
      if xpos > |line[ypos].text| {
        xpos := |line[ypos].text|;
      }
    }

    // -------------------------------------------------------------------------------------------
    // Wrapping
    // -------------------------------------------------------------------------------------------

    /** Moves the first `k` characters of line l+1 to the end of line `l`. */
    method MoveUp(l: nat, k: nat)
      requires ValidBuffer(line) && l + 1 < |line| && k <= |line[l + 1].text|
      modifies `line
      ensures var (ln, nx) := (old(line[l]), old(line[l + 1]));
              line == old(line)[l := ln.(text := ln.text + nx.text[..k], attr := ln.attr + nx.attr[..k])]
                               [l + 1 := nx.(text := nx.text[k..], attr := nx.attr[k..])]
      ensures ValidBuffer(line)
    {
      var text, attr := line[l + 1].text, line[l + 1].attr;
      line := line[l := line[l].(text := line[l].text + text[..k], attr := line[l].attr + attr[..k])];
      line := line[l + 1 := line[l + 1].(text := text[k..], attr := attr[k..])];
    }

    /** Splices out line l+1, which is empty; line `l` takes over its hard return. */
    method DropNext(l: nat)
      requires ValidBuffer(line) && l + 1 < |line| && line[l + 1].text == ""
      modifies `line
      ensures line == Pull(old(line), l, 0)
    {
      line := line[l := line[l].(hardcr := line[l + 1].hardcr)];
      line := line[..l + 1] + line[l + 2..];
      assert line[l].text == old(line)[l].text + "" && line[l].attr == old(line)[l].attr + [];
    }

    method PullUp(l: nat, k: nat)
      requires ValidBuffer(line) && l + 1 < |line| && 0 < k <= |line[l + 1].text|
      modifies `line
      ensures line == Pull(old(line), l, k)
    {
      PulledInPlace(line, l, k);
      MoveUp(l, k);
      if line[l + 1].text == "" {
        DropNext(l);
      }
    }

    /** The attempt to mend a kludge wrap; `k` characters were moved. */
    method MendLine(l: nat) returns (k: nat)
      requires ValidBuffer(line) && Roomy(line, l, columns)
      modifies `line
      ensures k == MendCut(old(line), l, columns)
      ensures line == Mend(old(line), l, columns)
    {
      k := 0;
      if line[l].kludged {
        k := UnkludgeCut(line[l + 1].text, columns - |line[l].text|);
        if k > 0 {
          var words := line[l + 1].text[..k];
          var emptied := k == |line[l + 1].text|;
          PullUp(l, k);
          if emptied {
            line := SetKludged(line, l, false);
          }
          if exists i :: 0 <= i < |words| && IsSpace(words[i]) {
            line := SetKludged(line, l, false);
          }
        } else {
          line := SetKludged(line, l, false);
        }
      } else {
        assert line == SetKludged(line, l, false);
      }
    }

    /** Taking whole words from the next line, after `k1` characters were moved by mending. */
    method FillLine(l: nat, room: int, k1: nat) returns (moved: int, done: bool, threw: bool)
      requires ValidBuffer(line) && l < |line|
      modifies `line
      ensures threw ==> done
      ensures Round(line, moved, done, threw) == Fill(old(line), l, room, k1)
    {
      moved, done, threw := if k1 > 0 then k1 else -1, false, false;
      if room >= 1 && l + 1 >= |line| {
        return k1, true, true;
      }
      var k := if room >= 1 then WordsCut(line[l + 1].text, room) else 0;
      if k > 0 {
        moved := k1 + k;
        PullUp(l, k);
      } else {
        line := SetKludged(line, l, false);
        if l + 1 < |line| && line[l + 1].text == "" {
          DropNext(l);
        }
        done := true;
      }
    }

    method UnwrapLine(l0: nat) returns (ret: int, threw: bool)
      requires ValidBuffer(line) && l0 < |line|
      modifies `line
      ensures var u := UnwrapAll(old(line), l0, columns); line == u.lines && ret == u.ret && threw == u.threw
    {
      hide Mend, Fill, MendCut;
      var l, done, first := l0, false, true;
      ret, threw := -1, false;
      ghost var goal := UnwrapAll(line, l0, columns);
      while !done && l + 1 < |line|
        invariant ValidBuffer(line) && 0 <= l && (first ==> !done && ret == -1 && !threw && goal == UnwrapAll(line, l, columns))
        invariant if done then goal.lines == line && goal.threw == threw
                  else !threw && goal.lines == UnwrapAll(line, l, columns).lines && goal.threw == UnwrapAll(line, l, columns).threw
        invariant !first ==> goal.ret == ret
        decreases |line| - l + if done then 0 else 1
      {
        if line[l].hardcr {
          break;
        }
        var space := columns - |line[l].text|;
        if space < 1 {
          break;
        }
        ghost var was := line;
        var k := MendLine(l);
        space := space - k;
        var moved;
        moved, done, threw := FillLine(l, space, k);
        assert UnwrapStep(was, l, columns) == Round(line, moved, done, threw);
        if first {
          ret := moved;
        }
        l, first := l + 1, false;
      }
    }

    /** Line `l` keeps `cut` characters; a new line is pushed or inserted for the rest if it has to be. */
    method BreakInPlace(l: nat, cut: nat)
      requires ValidBuffer(line) && l < |line| && cut <= |line[l].text|
      modifies `line
      ensures line == BreakLine(old(line), l, cut, false)
    {
      var text, attr := line[l].text, line[l].attr;
      if l + 1 == |line| {
        line := line + [BLANK];
      } else if line[l].hardcr {
        line := line[..l + 1] + [BLANK] + line[l + 1..];
        line := line[l := line[l].(hardcr := false)];
        line := line[l + 1 := line[l + 1].(hardcr := true)];
      }
      var nx := line[l + 1];
      line := line[l + 1 := nx.(text := text[cut..] + nx.text, attr := attr[cut..] + nx.attr)];
      line := line[l := line[l].(text := text[..cut], attr := attr[..cut])];
      ghost var r := BreakLine(old(line), l, cut, false);
      assert text[cut..] + "" == text[cut..] && attr[cut..] + [] == attr[cut..];
      assert |line| == |r|;
      assert forall i :: 0 <= i < |line| ==> line[i] == r[i];
    }

    method WrapLine(l0: nat) returns (ret: int, exited: bool)
      requires ValidBuffer(line) && columns > 0
      modifies `line
      ensures var w := WrapAll(old(line), l0, columns); line == w.lines && exited == w.exited
      ensures ret == WrapRet(old(line), l0, columns)
    {
      var l := l0;
      ret, exited := -1, false;
      hide BreakLine, Trimmed;
      ghost var goal := WrapAll(line, l0, columns);
      while true
        invariant ValidBuffer(line) && l0 <= l
        invariant goal == WrapAll(line, l, columns)
        invariant l == l0 ==> ret == -1 && line == old(line)
        invariant l > l0 ==> ret >= 0 && ret == WrapRet(old(line), l0, columns)
        decreases TextFrom(line, l)
      {
        if l >= |line| || Settled(line, l, columns) {
          return;
        }
        ghost var was := line;
        var text := line[l].text;
        var cut := FirstCut(text, columns);
        if cut == 0 {
          cut := KludgeCut(text, columns);
          line := SetKludged(line, l, true);
          BreakOfFlag(was, l, cut);
        }
        if cut == 0 {
          exited := true;
          return;
        }
        BreakInPlace(l, cut);
        assert line == WrapStep(was, l, columns);
        if ret == -1 {
          ret := |text| - cut;
        }
        WrapStepShrinks(was, l, columns);
        l := l + 1;
      }
    }

    /** The cursor's line is unwrapped, or else wrapped. */
    method RewrapHere() returns (outcome: Outcome)
      requires Valid() && ypos < |line| && lastXpos == -1
      modifies `line, `xpos, `ypos, `topline
      ensures Valid()
      ensures var r := SecondStage(old(line), old(xpos), old(ypos), columns);
              line == r.lines && xpos == r.xpos && ypos == r.ypos && outcome == r.outcome
      ensures outcome == Fine ==> ypos < |line|
    {
      hide UnwrapAll, WrapAll, WrapRet, TextBefore;
      outcome := Fine;
      var oldlen := |line[ypos].text|;
      UnwrapRet(line, ypos, columns);
      var i, threw := UnwrapLine(ypos);
      if threw {
        outcome := Threw;
      } else if i == -1 {
        WrapRetIs(line, ypos, columns);
        var exited;
        i, exited := WrapLine(ypos);
        if exited {
          outcome := Exited;
        } else if i != -1 && xpos > |line[ypos].text| {
          xpos := xpos - oldlen + i;
          NextLine();
        }
      }
    }

    method Rewrap() returns (outcome: Outcome)
      requires Valid() && ypos <= |line| && lastXpos == -1
      modifies `line, `xpos, `ypos, `topline
      ensures Valid()
      ensures var r := RewrapAll(old(line), old(xpos), old(ypos), columns);
              line == r.lines && xpos == r.xpos && ypos == r.ypos && outcome == r.outcome
      ensures outcome == Fine ==> ypos <= |line|
    {
      hide UnwrapAll, SecondStage, TextBefore;
      outcome := Fine;
      if ypos >= |line| {
        return;
      }
      FirstStageKeeps(line, ypos, columns);
      if ypos > 0 && !line[ypos - 1].hardcr {
        UnwrapRet(line, ypos - 1, columns);
        var i, threw := UnwrapLine(ypos - 1);
        if threw {
          outcome := Threw;
          return;
        }
        if i != -1 && xpos <= i {
          xpos := |line[ypos - 1].text| - (i - xpos);
          var _ := TryPrevLine();
          return;
        }
        if ypos >= |line| {
          return;
        }
      }
      outcome := RewrapHere();
    }

    // -------------------------------------------------------------------------------------------
    // The editing keys
    // -------------------------------------------------------------------------------------------

    method TypeKey(key: char)
      requires Valid() && ypos < |line|
      modifies `line, `xpos, `lastXpos
      ensures Valid() && lastXpos == -1 && xpos == old(xpos) + 1
      ensures line == Typed(old(line), old(xpos), ypos, key, curattr, insert)
    {
      hide TypedOn;
      lastXpos := -1;
      if xpos == 0 && ypos > 0 && IsSpace(key) {
        line := SetKludged(line, ypos - 1, false);
      }
      line := line[ypos := TypedOn(line[ypos], xpos, key, curattr, insert)];
      xpos := xpos + 1;
    }

    /** A character is typed: one cell goes into the flat text at the cursor. */
    method AddChar(key: char) returns (outcome: Outcome)
      requires Valid() && ypos < |line|
      modifies this
      ensures Valid() && insert == old(insert) && curattr == old(curattr) && lastXpos == -1
      ensures outcome == Fine ==> ypos <= |line|
      ensures var r := RewrapAll(Typed(old(line), old(xpos), old(ypos), key, curattr, insert), old(xpos) + 1, old(ypos), columns);
              line == r.lines && xpos == r.xpos && ypos == r.ypos && outcome == r.outcome
      ensures var k := Upto(old(line[ypos]), old(xpos));
              var skip := if insert || k == |old(line[ypos]).text| then 0 else 1;
              && TextBefore(old(line), old(ypos)) + k + skip <= |Chars(Doc(old(line)))|
              && Chars(Doc(line)) == Splice(Chars(Doc(old(line))), TextBefore(old(line), old(ypos)) + k, skip, [Ch(key, curattr)])
    {
      hide RewrapAll, Disturbs, Chars, Doc, LineDoc, TextBefore, Place, Splice, ErasedFrom, TypedOn;
      hide IsSpace, SetKludged, Upto, Typed;
      TypingInsertsOneCell(line, xpos, ypos, key, curattr, insert, columns);
      TypeKey(key);
      outcome := Rewrap();
    }

    /** Backspace: the cell left of the cursor is removed, or the hard return of the line above, or nothing. */
    method HandleBackspace() returns (outcome: Outcome)
      requires Valid() && ypos < |line|
      modifies this
      ensures Valid() && insert == old(insert) && curattr == old(curattr) && lastXpos == -1
      ensures outcome == Fine ==> ypos <= |line|
      ensures var edited := BackspacedOver(old(line), old(xpos), old(ypos));
              var r := if old(xpos) > 0 then RewrapAll(edited, old(xpos) - 1, old(ypos), columns)
                       else if old(ypos) > 0 then RewrapAll(edited, |old(line[ypos - 1]).text|, old(ypos) - 1, columns)
                       else RewrapAll(edited, 0, 0, columns);
              line == r.lines && xpos == r.xpos && ypos == r.ypos && outcome == r.outcome
      ensures var x := old(xpos) - 1;
              var erases := 0 <= x < |old(line[ypos]).text|;
              && (erases ==> TextBefore(old(line), old(ypos)) + x < |Chars(Doc(old(line)))|)
              && Chars(Doc(line)) ==
                 if erases then Splice(Chars(Doc(old(line))), TextBefore(old(line), old(ypos)) + x, 1, []) else Chars(Doc(old(line)))
    {
      hide RewrapAll, Disturbs, Chars, Doc, LineDoc, TextBefore, Place, Splice, ErasedFrom, TypedOn;
      lastXpos := -1;
      if xpos > 0 {
        if xpos <= |line[ypos].text| {
          ErasingRefines(line, xpos - 1, ypos, xpos - 1, columns);
        } else {
          NothingErased(line, ypos, xpos - 1);
          RewrapKeepsDocument(line, xpos - 1, ypos, columns);
        }
        line := line[ypos := ErasedFrom(line[ypos], xpos - 1)];
        xpos := xpos - 1;
      } else {
        var moved := TryPrevLine();
        if moved {
          xpos := |line[ypos].text|;
          JoiningRefines(line, ypos, xpos, columns);
          line := line[ypos := line[ypos].(hardcr := false)];
        } else {
          RewrapKeepsDocument(line, xpos, ypos, columns);
        }
      }
      outcome := Rewrap();
    }

    /** Delete: the cell at the cursor is removed, or the hard return at the end of the line. */
    method HandleDelete() returns (outcome: Outcome)
      requires Valid() && ypos < |line|
      modifies this
      ensures Valid() && insert == old(insert) && curattr == old(curattr) && lastXpos == -1
      ensures outcome == Fine ==> ypos <= |line|
      ensures var ln := old(line[ypos]);
              var edited := old(line)[old(ypos) := if old(xpos) >= |ln.text| then ln.(hardcr := false) else ErasedFrom(ln, old(xpos))];
              var r := RewrapAll(edited, old(xpos), old(ypos), columns);
              line == r.lines && xpos == r.xpos && ypos == r.ypos && outcome == r.outcome
      ensures var erases := old(xpos) < |old(line[ypos]).text|;
              && (erases ==> TextBefore(old(line), old(ypos)) + old(xpos) < |Chars(Doc(old(line)))|)
              && Chars(Doc(line)) ==
                 if erases then Splice(Chars(Doc(old(line))), TextBefore(old(line), old(ypos)) + old(xpos), 1, []) else Chars(Doc(old(line)))
    {
      hide RewrapAll, Disturbs, Chars, Doc, LineDoc, TextBefore, Place, Splice, ErasedFrom, TypedOn;
      lastXpos := -1;
      if xpos >= |line[ypos].text| {
        JoiningRefines(line, ypos, xpos, columns);
        line := line[ypos := line[ypos].(hardcr := false)];
      } else {
        ErasingRefines(line, xpos, ypos, xpos, columns);
        line := line[ypos := ErasedFrom(line[ypos], xpos)];
      }
      outcome := Rewrap();
    }

    method AddNewLineBelow(l: nat)
      requires ValidBuffer(line) && l < |line|
      modifies `line
      ensures line == old(line)[..l + 1] + [BLANK] + old(line)[l + 1..]
    {
      line := line[..l + 1] + [BLANK] + line[l + 1..];
    }

    /** Carriage return: inserting, the line is split and ends hard; the flat text stays as it is. */
    method CarriageReturn() returns (outcome: Outcome)
      requires Valid() && ypos < |line|
      modifies this
      ensures Valid() && insert == old(insert) && curattr == old(curattr) && lastXpos == -1
      ensures outcome == Fine ==> ypos <= |line|
      ensures var r := if insert then RewrapAll(SplitAt(old(line), old(ypos), old(xpos)), 0, old(ypos) + 1, columns)
                       else RewrapAll(old(line), 0, Min(old(ypos) + 1, |old(line)| - 1), columns);
                line == r.lines && xpos == r.xpos && ypos == r.ypos && outcome == r.outcome
      ensures Chars(Doc(line)) == Chars(Doc(old(line)))
    {
      hide RewrapAll, Disturbs, Chars, Doc, LineDoc, Place, Splice;
      lastXpos := -1;
      if insert {
        EnterRefines(line, xpos, ypos, columns);
        SplitLines(xpos);
      } else {
        RewrapKeepsDocument(line, 0, Min(ypos + 1, |line| - 1), columns);
      }
      var _ := TryNextLine();
      xpos := 0;
      outcome := Rewrap();
    }

    /** The text from column `x` on moves to a new line below. */
    method SplitLines(x: nat)
      requires ValidBuffer(line) && ypos < |line|
      modifies `line
      ensures line == SplitAt(old(line), ypos, x)
    {
      SplitInPlace(line, ypos, x);
      var ln := line[ypos];
      var k := Upto(ln, x);
      AddNewLineBelow(ypos);
      line := line[ypos + 1 := line[ypos + 1].(text := ln.text[k..], attr := ln.attr[k..], hardcr := ln.hardcr)];
      line := line[ypos := line[ypos].(text := ln.text[..k], attr := ln.attr[..k], hardcr := true)];
      if line[ypos].kludged {
        line := line[ypos + 1 := line[ypos + 1].(kludged := true)];
        line := line[ypos := line[ypos].(kludged := false)];
      }
    }

    /** Up and down: the column aimed for is remembered. */
    method LineKey(key: Key)
      requires Valid() && ypos < |line| && key in {Up, Down}
      modifies `xpos, `ypos, `topline, `lastXpos
      ensures Valid() && Now() == Move(old(Now()), key, rows)
    {
      if lastXpos == -1 {
        lastXpos := xpos;
      }
      if key == Up {
        var _ := TryPrevLine();
      } else {
        var _ := TryNextLine();
      }
    }

    /** Within the line, and off its end to the next one. */
    method ColumnKey(key: Key)
      requires Valid() && ypos < |line| && key in {Left, Right, Home, End}
      modifies `xpos, `ypos, `topline, `lastXpos
      ensures Valid() && Now() == Move(old(Now()), key, rows)
    {
      lastXpos := -1;
      match key
      case Home => xpos := 0;
      case End => xpos := |line[ypos].text|;
      case Left => xpos := if xpos > 0 then xpos - 1 else 0;
      case Right =>
        if xpos < |line[ypos].text| {
          xpos := xpos + 1;
        } else if xpos > |line[ypos].text| && !line[ypos].hardcr {
          var _ := TryNextLine();
        }
    }

    /** A key that moves the cursor. */
    method MoveKey(key: Key)
      requires Valid() && ypos < |line| && Moves(key)
      modifies `xpos, `ypos, `topline, `lastXpos
      ensures Valid() && Now() == Move(old(Now()), key, rows)
    {
      if key in {Up, Down} {
        LineKey(key);
      } else if key == PageUp {
        PageUpKey();
      } else if key == PageDown {
        PageDownKey();
      } else {
        ColumnKey(key);
      }
    }

    /** One turn of the editor's key loop: the key is pressed, and the viewport follows the cursor. */
    method HandleKey(key: Key) returns (outcome: Outcome)
      requires Valid() && ypos < |line|
      modifies this
      ensures Valid() && (outcome == Fine ==> ypos <= |line|)
      ensures (Now(), outcome) == Press(old(Now()), key, Screen(columns, rows))
    {
      hide Chars, Doc, RewrapAll, TextBefore, Splice, Typed, SplitAt, ErasedFrom, BackspacedOver, Move;
      outcome := Fine;
      match key
      case Char(c) =>
        outcome := AddChar(c);
      case Enter =>
        outcome := CarriageReturn();
      case Backspace =>
        outcome := HandleBackspace();
      case Delete =>
        outcome := HandleDelete();
      case _ =>
        PressValid(Now(), key, Screen(columns, rows));
        MoveKey(key);
    }

    /**
     The key loop: keys are taken until they are used up, the script stops, or the cursor falls off the buffer.
     Over the whole run the viewport holds the cursor and text and attributes stay parallel.
     */
    method Edit(keys: seq<Key>) returns (taken: nat, outcome: Outcome)
      requires Valid() && ypos < |line|
      modifies this
      ensures Valid()
      ensures var p := Play(old(Now()), keys, Screen(columns, rows));
              Now() == Last(p.sessions) && taken + 1 == |p.sessions| && outcome == p.outcome
    {
      hide Press;
      taken, outcome := 0, Fine;
      ghost var screen := Screen(columns, rows);
      ghost var p := Play(Now(), keys, screen);
      while taken < |keys| && outcome == Fine && ypos < |line|
        invariant Valid() && taken <= |keys| && (outcome == Fine ==> ypos <= |line|)
        invariant outcome == Fine ==>
                    var rest := Play(Now(), keys[taken..], screen);
                    Last(p.sessions) == Last(rest.sessions) && |p.sessions| == taken + |rest.sessions| && p.outcome == rest.outcome
        invariant outcome != Fine ==> Now() == Last(p.sessions) && taken + 1 == |p.sessions| && outcome == p.outcome
        decreases |keys| - taken
      {
        if xpos > columns + 1 {
          xpos := columns + 1;
        }
        PressValid(Now(), keys[taken], screen);
        outcome := HandleKey(keys[taken]);
        assert keys[taken..][1..] == keys[taken + 1..];
        taken := taken + 1;
      }
    }
  }
}
