/**
 Runs of keys in the editor (exec/fseditor.js:1525-1934), without the viewport: what each key makes of the buffer
 and the cursor, and what any sequence of keys makes of the text.
 */
module EditorRun {
  import opened EditorLines
  import opened EditorWrap
  import opened EditorUnwrap
  import opened EditorRewrap
  import opened EditorKeys

  datatype Key = Char(c: char) | Enter | Backspace | Delete | Up | Down | PageUp | PageDown | Left | Right | Home | End

  predicate Moves(key: Key) {
    key in {Up, Down, PageUp, PageDown, Left, Right, Home, End}
  }

  /** The widest line allowed, and the lines on screen. */
  datatype Screen = Screen(columns: nat, rows: nat) {
    ghost predicate Valid() {
      columns > 0 && rows > 0
    }
  }

  /** The buffer, the cursor, the column it tries to keep, and what typing does. */
  datatype Session = Session(line: Buffer, xpos: int, ypos: nat, lastXpos: int, insert: bool, attr: Attr) {
    predicate Valid() {
      ValidBuffer(line) && xpos >= 0 && lastXpos >= -1
    }

    /** The cursor is on a line of the buffer. */
    predicate Ready() {
      Valid() && ypos < |line|
    }

    function Length(): nat
      requires Ready()
    {
      |line[ypos].text|
    }

    /** The column the cursor tries to keep when it moves from line to line. */
    function Column(): int {
      if lastXpos == -1 then xpos else lastXpos
    }

    /** The cursor on line `y`, in column `x` as far as the line goes. */
    function On(y: nat, x: int): Session
      requires ValidBuffer(line) && y < |line|
    {
      this.(ypos := y, xpos := Min(x, |line[y].text|))
    }

    function Rewrapped(r: Rewrapped): (Session, Outcome) {
      (this.(line := r.lines, xpos := r.xpos, ypos := r.ypos, lastXpos := -1), r.outcome)
    }
  }

  /** The buffer after a backspace at column `x` of line `y`, before `rewrap`. */
  function BackspacedOver(lines: Buffer, x: nat, y: nat): (r: Buffer)
    requires ValidBuffer(lines) && y < |lines|
    ensures ValidBuffer(r)
  {
    if x > 0 then lines[y := ErasedFrom(lines[y], x - 1)]
    else if y > 0 then lines[y - 1 := lines[y - 1].(hardcr := false)]
    else lines
  }

  // ---------------------------------------------------------------------------------------------
  // One key
  // ---------------------------------------------------------------------------------------------

  function PressBackspace(s: Session, n: nat): (Session, Outcome)
    requires s.Ready() && n > 0
  {
    var edited := BackspacedOver(s.line, s.xpos, s.ypos);
    s.Rewrapped(if s.xpos > 0 then RewrapAll(edited, s.xpos - 1, s.ypos, n)
                else if s.ypos > 0 then RewrapAll(edited, |s.line[s.ypos - 1].text|, s.ypos - 1, n)
                else RewrapAll(edited, 0, 0, n))
  }

  function PressDelete(s: Session, n: nat): (Session, Outcome)
    requires s.Ready() && n > 0
  {
    var ln := s.line[s.ypos];
    var edited := s.line[s.ypos := if s.xpos >= s.Length() then ln.(hardcr := false) else ErasedFrom(ln, s.xpos)];
    s.Rewrapped(RewrapAll(edited, s.xpos, s.ypos, n))
  }

  function PressEnter(s: Session, n: nat): (Session, Outcome)
    requires s.Ready() && n > 0
  {
    s.Rewrapped(if s.insert then RewrapAll(SplitAt(s.line, s.ypos, s.xpos), 0, s.ypos + 1, n)
                else RewrapAll(s.line, 0, Min(s.ypos + 1, |s.line| - 1), n))
  }

  /** A key that moves the cursor. */
  function Move(s: Session, key: Key, rows: nat): Session
    requires s.Ready() && Moves(key) && rows > 0
  {
    var kept := s.(lastXpos := s.Column());
    match key
    case Up => if s.ypos > 0 then kept.On(s.ypos - 1, s.Column()) else kept
    case Down => if s.ypos + 1 < |s.line| then kept.On(s.ypos + 1, s.Column()) else kept
    case PageUp => if s.ypos > 0 then kept.On(if s.ypos < rows - 1 then 0 else s.ypos - (rows - 1), s.Column()) else kept
    case PageDown => if s.ypos + 1 < |s.line| then kept.On(Min(s.ypos + rows - 1, |s.line| - 1), s.Column()) else kept
    case Home => s.(lastXpos := -1, xpos := 0)
    case End => s.(lastXpos := -1, xpos := s.Length())
    case Left => s.(lastXpos := -1, xpos := if s.xpos > 0 then s.xpos - 1 else 0)
    case Right =>
      var t := s.(lastXpos := -1);
      if s.xpos < s.Length() then t.(xpos := s.xpos + 1)
      else if s.xpos > s.Length() && !s.line[s.ypos].hardcr && s.ypos + 1 < |s.line| then t.On(s.ypos + 1, s.xpos)
      else t
  }

  /** Where the keys that stay on the line leave the cursor; none of them is remembered as a column to keep. */
  lemma ColumnKeysAre(s: Session, rows: nat)
    requires s.Ready() && rows > 0
    ensures forall key :: key in {Home, End, Left} ==> Move(s, key, rows).ypos == s.ypos && Move(s, key, rows).lastXpos == -1
    ensures Move(s, Home, rows).xpos == 0 && Move(s, End, rows).xpos == |s.line[s.ypos].text|
    ensures s.xpos > 0 ==> Move(s, Left, rows).xpos == s.xpos - 1
    ensures s.xpos == 0 ==> Move(s, Left, rows).xpos == 0
    ensures s.xpos < |s.line[s.ypos].text| ==> Move(s, Right, rows) == s.(xpos := s.xpos + 1, lastXpos := -1)
    ensures s.xpos >= |s.line[s.ypos].text| ==>
              Move(s, Right, rows) ==
              if s.xpos == |s.line[s.ypos].text| || s.line[s.ypos].hardcr || s.ypos == |s.line| - 1 then s.(lastXpos := -1)
              else s.(lastXpos := -1, ypos := s.ypos + 1, xpos := Min(s.xpos, |s.line[s.ypos + 1].text|))
  {
  }

  /** Up and PageUp stop at the first line; they remember the column and come back to it as far as the line allows. */
  lemma UpwardsIs(s: Session, key: Key, rows: nat)
    requires s.Ready() && rows > 0 && (key == Up || key == PageUp)
    ensures var (t, step) := (Move(s, key, rows), if key == Up then 1 else rows - 1);
      && t.ypos == (if s.ypos < step then 0 else s.ypos - step)
      && t.lastXpos == (if s.lastXpos == -1 then s.xpos else s.lastXpos)
      && t.xpos == if s.ypos == 0 then s.xpos else Min(t.lastXpos, |s.line[t.ypos].text|)
  {
  }

  /** Down and PageDown stop at the last line, and do likewise. */
  lemma DownwardsIs(s: Session, key: Key, rows: nat)
    requires s.Ready() && rows > 0 && (key == Down || key == PageDown)
    ensures var (t, step, last) := (Move(s, key, rows), if key == Down then 1 else rows - 1, |s.line| - 1);
      && t.ypos == (if last < s.ypos + step then last else s.ypos + step)
      && t.lastXpos == (if s.lastXpos == -1 then s.xpos else s.lastXpos)
      && t.xpos == if s.ypos == last then s.xpos else Min(t.lastXpos, |s.line[t.ypos].text|)
  {
  }

  /** Left takes back what Right did within a line. */
  lemma LeftTakesBackRight(s: Session, rows: nat)
    requires s.Ready() && rows > 0 && s.xpos < s.Length()
    ensures Move(s, Right, rows).Ready() && Move(Move(s, Right, rows), Left, rows) == s.(lastXpos := -1)
  {
  }

  /** Up and then Down come back to the line, in the column the cursor had or tried to keep, however short the line above. */
  lemma DownTakesBackUp(s: Session, rows: nat)
    requires s.Ready() && rows > 0 && s.ypos > 0
    ensures var t := Move(s, Up, rows);
      && t.Ready() && t.ypos == s.ypos - 1 && t.xpos <= t.Length()
      && Move(t, Down, rows) == s.(xpos := Min(s.Column(), s.Length()), lastXpos := s.Column())
  {
  }

  /** A page is one line less than the screen; paging back from the middle of the buffer comes back to the line. */
  lemma PageTakesBackPage(s: Session, rows: nat)
    requires s.Ready() && rows > 1 && s.ypos + rows - 1 < |s.line|
    ensures var t := Move(s, PageDown, rows);
      && t.Ready() && t.ypos == s.ypos + rows - 1
      && Move(t, PageUp, rows) == s.(xpos := Min(s.Column(), s.Length()), lastXpos := s.Column())
  {
  }

  function Press(s: Session, key: Key, screen: Screen): (Session, Outcome)
    requires s.Ready() && screen.Valid()
  {
    match key
    case Char(c) => s.Rewrapped(RewrapAll(Typed(s.line, s.xpos, s.ypos, c, s.attr, s.insert), s.xpos + 1, s.ypos, screen.columns))
    case Enter => PressEnter(s, screen.columns)
    case Backspace => PressBackspace(s, screen.columns)
    case Delete => PressDelete(s, screen.columns)
    case _ => (Move(s, key, screen.rows), Fine)
  }

  /** The column after `rewrap` is a column. */
  lemma RewrapColumn(lines: Buffer, xpos: int, ypos: nat, n: nat)
    requires ValidBuffer(lines) && n > 0 && xpos >= 0
    ensures RewrapAll(lines, xpos, ypos, n).xpos >= 0
    ensures var r := RewrapAll(lines, xpos, ypos, n); ypos <= |lines| ==> r.ypos <= |r.lines|
  {
    hide UnwrapAll, WrapAll, WrapRet, Clip, Slip;
    if ypos < |lines| {
      RewrapMovesCursor(lines, xpos, ypos, n);
      FirstStageKeeps(lines, ypos, n);
      if PrevSoft(lines, ypos) {
        UnwrapRet(lines, ypos - 1, n);
      }
      var u := FirstStage(lines, ypos, n);
      if !u.threw && !MovedUp(u, xpos) && ypos < |u.lines| {
        UnwrapRet(u.lines, ypos, n);
        WrapRetIs(UnwrapAll(u.lines, ypos, n).lines, ypos, n);
      }
    }
  }

  /** After any key the buffer is well formed, and the cursor is on it or just below it. */
  lemma PressValid(s: Session, key: Key, screen: Screen)
    requires s.Ready() && screen.Valid()
    ensures var (t, outcome) := Press(s, key, screen);
      && t.Valid() && t.ypos <= |t.line| && t.insert == s.insert && t.attr == s.attr
      && (Moves(key) ==> outcome == Fine && t.Ready() && t.line == s.line)
  {
    hide RewrapAll, Typed, SplitAt, BackspacedOver, ErasedFrom;
    var n := screen.columns;
    match key
    case Char(c) =>
      RewrapColumn(Typed(s.line, s.xpos, s.ypos, c, s.attr, s.insert), s.xpos + 1, s.ypos, n);
    case Enter =>
      if s.insert {
        RewrapColumn(SplitAt(s.line, s.ypos, s.xpos), 0, s.ypos + 1, n);
      } else {
        RewrapColumn(s.line, 0, Min(s.ypos + 1, |s.line| - 1), n);
      }
    case Backspace =>
      BackspaceValid(s, n);
    case Delete =>
      var ln := s.line[s.ypos];
      var edited := s.line[s.ypos := if s.xpos >= s.Length() then ln.(hardcr := false) else ErasedFrom(ln, s.xpos)];
      RewrapColumn(edited, s.xpos, s.ypos, n);
    case _ =>
  }

  lemma BackspaceValid(s: Session, n: nat)
    requires s.Ready() && n > 0
    ensures var t := PressBackspace(s, n).0;
      t.Valid() && t.ypos <= |t.line| && t.insert == s.insert && t.attr == s.attr
  {
    hide RewrapAll, ErasedFrom;
    var edited := BackspacedOver(s.line, s.xpos, s.ypos);
    if s.xpos > 0 {
      RewrapColumn(edited, s.xpos - 1, s.ypos, n);
    } else if s.ypos > 0 {
      RewrapColumn(edited, |s.line[s.ypos - 1].text|, s.ypos - 1, n);
    } else {
      RewrapColumn(edited, 0, 0, n);
    }
  }

  // ---------------------------------------------------------------------------------------------
  // The flat text
  // ---------------------------------------------------------------------------------------------

  function Flat(lines: Buffer): seq<Item>
    requires ValidBuffer(lines)
  {
    Chars(Doc(lines))
  }

  /**
   What a key makes of the flat text: a character is put in at the cursor (over the one there unless inserting),
   the one left of it or at it is removed, and any other key changes nothing.
   */
  ghost predicate Explained(s: Session, key: Key, after: seq<Item>)
    requires s.Ready()
  {
    var (before, at, length) := (Flat(s.line), TextBefore(s.line, s.ypos), s.Length());
    match key
    case Char(c) =>
      var k := Upto(s.line[s.ypos], s.xpos);
      var skip := if s.insert || k == length then 0 else 1;
      at + k + skip <= |before| && after == Splice(before, at + k, skip, [Ch(c, s.attr)])
    case Backspace =>
      if 1 <= s.xpos <= length then at + s.xpos <= |before| && after == Splice(before, at + s.xpos - 1, 1, [])
      else after == before
    case Delete =>
      if s.xpos < length then at + s.xpos < |before| && after == Splice(before, at + s.xpos, 1, []) else after == before
    case _ => after == before
  }

  lemma NothingErased(lines: Buffer, y: nat, x: nat)
    requires ValidBuffer(lines) && y < |lines| && x >= |lines[y].text|
    ensures lines[y := ErasedFrom(lines[y], x)] == lines
  {
  }

  lemma BackspaceExplained(s: Session, n: nat)
    requires s.Ready() && n > 0
    ensures ValidBuffer(PressBackspace(s, n).0.line) && Explained(s, Backspace, Flat(PressBackspace(s, n).0.line))
  {
    hide RewrapAll, Disturbs, Chars, Doc, TextBefore, Place, Splice, ErasedFrom;
    var (x, y) := (s.xpos, s.ypos);
    if 1 <= x <= s.Length() {
      ErasingRefines(s.line, x - 1, y, x - 1, n);
    } else if x > 0 {
      NothingErased(s.line, y, x - 1);
      RewrapKeepsDocument(s.line, x - 1, y, n);
    } else if y > 0 {
      JoiningRefines(s.line, y - 1, |s.line[y - 1].text|, n);
    } else {
      RewrapKeepsDocument(s.line, 0, 0, n);
    }
  }

  lemma DeleteExplained(s: Session, n: nat)
    requires s.Ready() && n > 0
    ensures ValidBuffer(PressDelete(s, n).0.line) && Explained(s, Delete, Flat(PressDelete(s, n).0.line))
  {
    hide RewrapAll, Disturbs, Chars, Doc, TextBefore, Place, Splice, ErasedFrom;
    if s.xpos < s.Length() {
      ErasingRefines(s.line, s.xpos, s.ypos, s.xpos, n);
    } else {
      JoiningRefines(s.line, s.ypos, s.xpos, n);
    }
  }

  lemma EnterExplained(s: Session, n: nat)
    requires s.Ready() && n > 0
    ensures ValidBuffer(PressEnter(s, n).0.line) && Explained(s, Enter, Flat(PressEnter(s, n).0.line))
  {
    hide RewrapAll, Disturbs, Chars, Doc, TextBefore, Place, Splice, SplitAt;
    if s.insert {
      EnterRefines(s.line, s.xpos, s.ypos, n);
    } else {
      RewrapKeepsDocument(s.line, 0, Min(s.ypos + 1, |s.line| - 1), n);
    }
  }

  /** Every key does exactly that, in runs that throw or exit too. */
  lemma PressExplained(s: Session, key: Key, screen: Screen)
    requires s.Ready() && screen.Valid()
    ensures ValidBuffer(Press(s, key, screen).0.line)
    ensures Explained(s, key, Flat(Press(s, key, screen).0.line))
  {
    hide RewrapAll, Chars, Doc, TextBefore, Splice, Typed, PressBackspace, PressDelete, PressEnter;
    var n := screen.columns;
    match key
    case Char(c) => TypingInsertsOneCell(s.line, s.xpos, s.ypos, c, s.attr, s.insert, n);
    case Enter => EnterExplained(s, n);
    case Backspace => BackspaceExplained(s, n);
    case Delete => DeleteExplained(s, n);
    case _ =>
  }

  // ---------------------------------------------------------------------------------------------
  // The paragraphs
  // ---------------------------------------------------------------------------------------------

  /** What a key should make of the paragraphs: the same one cell, or one hard return more or less. */
  ghost predicate ParagraphsExplained(s: Session, key: Key, after: seq<Item>)
    requires s.Ready()
  {
    var (doc, at, ln) := (Doc(s.line), Place(s.line, s.ypos), s.line[s.ypos]);
    match key
    case Char(c) =>
      var k := Upto(ln, s.xpos);
      var skip := if s.insert || k == s.Length() then 0 else 1;
      at + k + skip <= |doc| && after == Splice(doc, at + k, skip, [Ch(c, s.attr)])
    case Enter =>
      if s.insert then at + Upto(ln, s.xpos) <= |doc| && after == Splice(doc, at + Upto(ln, s.xpos), 0, [Hard])
      else after == doc
    case Backspace =>
      if 1 <= s.xpos <= s.Length() then at + s.xpos <= |doc| && after == Splice(doc, at + s.xpos - 1, 1, [])
      else if s.xpos > 0 || s.ypos == 0 then after == doc
      else Joined(s.line, s.ypos - 1, after)
    case Delete =>
      if s.xpos < s.Length() then at + s.xpos < |doc| && after == Splice(doc, at + s.xpos, 1, [])
      else Joined(s.line, s.ypos, after)
    case _ => after == doc
  }

  /** The hard return at the end of line `y`, if it has one, is gone. */
  ghost predicate Joined(lines: Buffer, y: nat, after: seq<Item>)
    requires ValidBuffer(lines) && y < |lines|
  {
    var (at, skip) := (Place(lines, y) + |lines[y].text|, if lines[y].hardcr then 1 else 0);
    at + skip <= |Doc(lines)| && after == Splice(Doc(lines), at, skip, [])
  }

  /**
   On a buffer without kludge-wrapped lines whose last line is soft, every key does exactly that to the paragraphs,
   and none ends in an exception.
   */
  lemma PressKeepsParagraphs(s: Session, key: Key, screen: Screen)
    requires s.Ready() && screen.Valid() && Harmless(s.line)
    ensures var (t, outcome) := Press(s, key, screen);
      outcome != Threw && ValidBuffer(t.line) && ParagraphsExplained(s, key, Doc(t.line))
  {
    hide RewrapAll, Disturbs, Doc, Chars, Splice, Place, TextBefore;
    var (x, y, n) := (s.xpos, s.ypos, screen.columns);
    match key
    case Char(c) =>
      TypingRefines(s.line, x, y, c, s.attr, s.insert, n);
      HarmlessUndisturbed(Typed(s.line, x, y, c, s.attr, s.insert), x + 1, y, n);
    case Enter =>
      if s.insert {
        EnterRefines(s.line, x, y, n);
        HarmlessUndisturbed(SplitAt(s.line, y, x), 0, y + 1, n);
      } else {
        Unedited(s.line, 0, Min(y + 1, |s.line| - 1), n);
      }
    case Backspace =>
      BackspaceKeepsParagraphs(s, n);
    case Delete =>
      if x < s.Length() {
        ErasingRefines(s.line, x, y, x, n);
        HarmlessUndisturbed(s.line[y := ErasedFrom(s.line[y], x)], x, y, n);
      } else {
        JoiningRefines(s.line, y, x, n);
        HarmlessUndisturbed(s.line[y := s.line[y].(hardcr := false)], x, y, n);
      }
    case _ =>
  }

  lemma BackspaceKeepsParagraphs(s: Session, n: nat)
    requires s.Ready() && n > 0 && Harmless(s.line)
    ensures var (t, outcome) := PressBackspace(s, n);
      outcome != Threw && ValidBuffer(t.line) && ParagraphsExplained(s, Backspace, Doc(t.line))
  {
    hide RewrapAll, Disturbs, Doc, Chars, Splice, Place, TextBefore;
    var (x, y) := (s.xpos, s.ypos);
    if 1 <= x <= s.Length() {
      ErasingRefines(s.line, x - 1, y, x - 1, n);
      HarmlessUndisturbed(s.line[y := ErasedFrom(s.line[y], x - 1)], x - 1, y, n);
    } else if x > 0 {
      NothingErased(s.line, y, x - 1);
      Unedited(s.line, x - 1, y, n);
    } else if y > 0 {
      JoiningRefines(s.line, y - 1, |s.line[y - 1].text|, n);
      HarmlessUndisturbed(s.line[y - 1 := s.line[y - 1].(hardcr := false)], |s.line[y - 1].text|, y - 1, n);
    } else {
      Unedited(s.line, 0, 0, n);
    }
  }

  lemma Unedited(lines: Buffer, xpos: int, ypos: nat, n: nat)
    requires ValidBuffer(lines) && n > 0 && Harmless(lines)
    ensures var r := RewrapAll(lines, xpos, ypos, n); r.outcome != Threw && Doc(r.lines) == Doc(lines)
  {
    hide RewrapAll, Disturbs, Doc, Chars;
    RewrapKeepsDocument(lines, xpos, ypos, n);
    HarmlessUndisturbed(lines, xpos, ypos, n);
  }

  // ---------------------------------------------------------------------------------------------
  // Any run of keys
  // ---------------------------------------------------------------------------------------------

  /** Before a key is read the cursor is brought back to the screen's columns. */
  function Clamped(s: Session, screen: Screen): Session {
    if s.xpos > screen.columns + 1 then s.(xpos := screen.columns + 1) else s
  }

  lemma ClampedIs(s: Session, screen: Screen)
    requires screen.Valid()
    ensures Clamped(s, screen) == s.(xpos := Clamped(s, screen).xpos)
    ensures Clamped(s, screen).xpos <= screen.columns + 1
    ensures Clamped(s, screen).xpos != s.xpos ==> Clamped(s, screen).xpos == screen.columns + 1 < s.xpos
  {
  }

  /** The sessions a run goes through, from the one it starts in; and how it ends. */
  datatype Played = Played(sessions: seq<Session>, outcome: Outcome)

  /** Keys are taken until they are used up, the script stops, or the cursor has fallen off the buffer. */
  function Play(s: Session, keys: seq<Key>, screen: Screen): (p: Played)
    requires s.Valid() && screen.Valid()
    ensures 1 <= |p.sessions| <= |keys| + 1 && p.sessions[0] == s
    decreases |keys|
  {
    if keys == [] || s.ypos >= |s.line| then Played([s], Fine)
    else
      PressValid(Clamped(s, screen), keys[0], screen);
      var (t, outcome) := Press(Clamped(s, screen), keys[0], screen);
      if outcome != Fine then Played([s, t], outcome)
      else
        var p := Play(t, keys[1..], screen);
        p.(sessions := [s] + p.sessions)
  }

  /** One step of a run: the key at `i` was pressed, and changed the flat text as it may, at the cursor. */
  ghost predicate StepExplained(p: Played, keys: seq<Key>, screen: Screen, i: nat)
    requires screen.Valid() && i + 1 < |p.sessions| <= |keys| + 1
  {
    var (s, t) := (Clamped(p.sessions[i], screen), p.sessions[i + 1]);
    s.Ready() && t.Valid() && t == Press(s, keys[i], screen).0 && Explained(s, keys[i], Flat(t.line))
  }

  /** Over any run, however it ends, every key taken did to the flat text exactly what it should, where the cursor was. */
  lemma {:induction false} PlayExplained(s: Session, keys: seq<Key>, screen: Screen)
    requires s.Valid() && screen.Valid()
    ensures var p := Play(s, keys, screen);
      && (forall i: nat :: i + 1 < |p.sessions| ==> StepExplained(p, keys, screen, i))
      && (p.outcome == Fine && Last(p.sessions).ypos < |Last(p.sessions).line| ==> |p.sessions| == |keys| + 1)
    decreases |keys|
  {
    hide Press, Explained;
    if keys != [] && s.ypos < |s.line| {
      var c := Clamped(s, screen);
      PressValid(c, keys[0], screen);
      PressExplained(c, keys[0], screen);
      var (t, outcome) := Press(c, keys[0], screen);
      var p := Play(s, keys, screen);
      if outcome == Fine {
        var q := Play(t, keys[1..], screen);
        PlayExplained(t, keys[1..], screen);
        forall i: nat | i + 1 < |p.sessions| ensures StepExplained(p, keys, screen, i) {
          if i > 0 {
            assert StepExplained(q, keys[1..], screen, i - 1);
          }
        }
      }
    }
  }

  /** Keys that move the cursor are all taken; they leave the buffer as it is and the cursor on one of its lines. */
  lemma {:induction false} PlayMoves(s: Session, keys: seq<Key>, screen: Screen)
    requires s.Ready() && screen.Valid() && forall i :: 0 <= i < |keys| ==> Moves(keys[i])
    ensures var p := Play(s, keys, screen);
      && p.outcome == Fine && |p.sessions| == |keys| + 1
      && forall i :: 0 <= i < |p.sessions| ==> p.sessions[i].Ready() && p.sessions[i].line == s.line
    decreases |keys|
  {
    hide Press, Moves;
    if keys != [] {
      var c := Clamped(s, screen);
      PressValid(c, keys[0], screen);
      PlayMoves(Press(c, keys[0], screen).0, keys[1..], screen);
    }
  }
}
