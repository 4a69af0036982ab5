/**
 What the editing keys do to the buffer before `rewrap` is called (exec/fseditor.js:1416-1503 and
 1735-1756), and what that means for the document.
 */
module EditorKeys {
  import opened EditorLines
  import opened EditorWrap
  import opened EditorRewrap

  /** `skip` items at `at` replaced by `mid`. */
  function Splice(d: seq<Item>, at: nat, skip: nat, mid: seq<Item>): seq<Item>
    requires at + skip <= |d|
  {
    d[..at] + mid + d[at + skip..]
  }

  /** JavaScript's substr(0, k): a count past the end takes everything. */
  function Upto(ln: Line, x: nat): (k: nat)
    ensures k <= |ln.text|
  {
    if x < |ln.text| then x else |ln.text|
  }

  /** A character put on a line at column `x`, over the one there unless inserting. */
  function TypedOn(ln: Line, x: nat, c: char, a: Attr, insert: bool): (r: Line)
    requires ln.Valid()
    ensures r.Valid()
  {
    var k := Upto(ln, x);
    var after := if insert || k == |ln.text| then k else k + 1;
    ln.(text := ln.text[..k] + [c] + ln.text[after..], attr := ln.attr[..k] + [a] + ln.attr[after..])
  }

  /** The character at column `x` removed; nothing is there past the end. */
  function ErasedFrom(ln: Line, x: nat): (r: Line)
    requires ln.Valid()
    ensures r.Valid()
  {
    if x < |ln.text| then ln.(text := ln.text[..x] + ln.text[x + 1..], attr := ln.attr[..x] + ln.attr[x + 1..]) else ln
  }

  /** A carriage return in line `y` at column `x`. */
  function SplitAt(lines: Buffer, y: nat, x: nat): (r: Buffer)
    requires ValidBuffer(lines) && y < |lines|
    ensures ValidBuffer(r) && |r| == |lines| + 1
  {
    var ln := lines[y];
    var k := Upto(ln, x);
    lines[..y] + [Line(ln.text[..k], ln.attr[..k], true, false), Line(ln.text[k..], ln.attr[k..], ln.hardcr, ln.kludged)] + lines[y + 1..]
  }

  /** Where line `y` begins in the document. */
  function Place(lines: Buffer, y: nat): nat
    requires ValidBuffer(lines) && y <= |lines|
  {
    |Doc(lines[..y])|
  }

  lemma Lift(p: seq<Item>, d: seq<Item>, s: seq<Item>, at: nat, skip: nat, mid: seq<Item>)
    requires at + skip <= |d|
    ensures p + (Splice(d, at, skip, mid) + s) == Splice(p + (d + s), |p| + at, skip, mid)
  {
  }

  /** An edit of one line is the same edit of the document. */
  lemma EditDoc(lines: Buffer, y: nat, ln: Line, at: nat, skip: nat, mid: seq<Item>)
    requires ValidBuffer(lines) && y < |lines| && ln.Valid()
    requires at + skip <= |LineDoc(lines[y])| && LineDoc(ln) == Splice(LineDoc(lines[y]), at, skip, mid)
    ensures ValidBuffer(lines[y := ln])
    ensures Place(lines, y) + at + skip <= |Doc(lines)|
    ensures Doc(lines[y := ln]) == Splice(Doc(lines), Place(lines, y) + at, skip, mid)
  {
    hide Doc, LineDoc, Splice;
    var r := lines[y := ln];
    DocAround(lines, y);
    DocAround(r, y);
    assert r[..y] == lines[..y] && r[y + 1..] == lines[y + 1..];
    Lift(Doc(lines[..y]), LineDoc(lines[y]), Doc(lines[y + 1..]), at, skip, mid);
  }

  lemma TypedCells(ln: Line, x: nat, c: char, a: Attr, insert: bool)
    requires ln.Valid()
    ensures var k := Upto(ln, x);
            var skip := if insert || k == |ln.text| then 0 else 1;
            var r := TypedOn(ln, x, c, a, insert);
            Cells(r.text, r.attr) == Splice(Cells(ln.text, ln.attr), k, skip, [Ch(c, a)])
  {
  }

  lemma TypedDoc(ln: Line, x: nat, c: char, a: Attr, insert: bool)
    requires ln.Valid()
    ensures var k := Upto(ln, x);
            var skip := if insert || k == |ln.text| then 0 else 1;
            && k + skip <= |LineDoc(ln)|
            && LineDoc(TypedOn(ln, x, c, a, insert)) == Splice(LineDoc(ln), k, skip, [Ch(c, a)])
  {
    hide TypedOn;
    TypedCells(ln, x, c, a, insert);
    var k := Upto(ln, x);
    var skip := if insert || k == |ln.text| then 0 else 1;
    TypedKeepsFlags(ln, x, c, a, insert);
    Lift([], Cells(ln.text, ln.attr), if ln.hardcr then [Hard] else [], k, skip, [Ch(c, a)]);
    assert forall d: seq<Item> :: [] + d == d;
  }

  lemma TypedKeepsFlags(ln: Line, x: nat, c: char, a: Attr, insert: bool)
    requires ln.Valid()
    ensures TypedOn(ln, x, c, a, insert).hardcr == ln.hardcr
  {
  }

  lemma ErasedDoc(ln: Line, x: nat)
    requires ln.Valid() && x < |ln.text|
    ensures x < |LineDoc(ln)| && LineDoc(ErasedFrom(ln, x)) == Splice(LineDoc(ln), x, 1, [])
  {
  }

  lemma JoinedDoc(ln: Line)
    requires ln.Valid()
    ensures var skip := if ln.hardcr then 1 else 0;
            && |ln.text| + skip == |LineDoc(ln)|
            && LineDoc(ln.(hardcr := false)) == Splice(LineDoc(ln), |ln.text|, skip, [])
  {
  }

  lemma SplitLine(ln: Line, k: nat, a: Line, b: Line)
    requires ln.Valid() && k <= |ln.text|
    requires a.text == ln.text[..k] && a.attr == ln.attr[..k] && a.hardcr
    requires b.text == ln.text[k..] && b.attr == ln.attr[k..] && b.hardcr == ln.hardcr
    ensures a.Valid() && b.Valid() && k <= |LineDoc(ln)|
    ensures LineDoc(a) + LineDoc(b) == Splice(LineDoc(ln), k, 0, [Hard])
  {
    LineDocSplit(ln, k, b);
    var head := Cells(a.text, a.attr);
    assert LineDoc(ln)[..k] == head && LineDoc(ln)[k..] == LineDoc(b);
  }

  /** A carriage return puts one hard return into the document, at the cursor. */
  lemma SplitDoc(lines: Buffer, y: nat, x: nat)
    requires ValidBuffer(lines) && y < |lines|
    ensures Place(lines, y) + Upto(lines[y], x) <= |Doc(lines)|
    ensures Doc(SplitAt(lines, y, x)) == Splice(Doc(lines), Place(lines, y) + Upto(lines[y], x), 0, [Hard])
  {
    hide Doc, LineDoc, Splice;
    var r := SplitAt(lines, y, x);
    var (ln, k) := (lines[y], Upto(lines[y], x));
    DocAround(lines, y);
    DocAround(r, y);
    assert r[..y] == lines[..y] && r[y + 2..] == lines[y + 1..];
    SplitLine(ln, k, r[y], r[y + 1]);
    Assoc(LineDoc(r[y]), LineDoc(r[y + 1]), Doc(lines[y + 1..]));
    Lift(Doc(lines[..y]), LineDoc(ln), Doc(lines[y + 1..]), k, 0, [Hard]);
  }

  // ---------------------------------------------------------------------------------------------
  // The flat text
  // ---------------------------------------------------------------------------------------------

  lemma CharsOfLine(ln: Line)
    requires ln.Valid()
    ensures Chars(LineDoc(ln)) == Cells(ln.text, ln.attr)
  {
    CharsConcat(Cells(ln.text, ln.attr), if ln.hardcr then [Hard] else []);
    CharsOfCells(ln.text, ln.attr);
    CharsOfHard();
  }

  lemma {:induction false} CharsBefore(lines: Buffer, y: nat)
    requires ValidBuffer(lines) && y <= |lines|
    ensures |Chars(Doc(lines[..y]))| == TextBefore(lines, y)
  {
    if y > 0 {
      CharsBefore(lines, y - 1);
      assert lines[..y] == lines[..y - 1] + [lines[y - 1]];
      DocConcat(lines[..y - 1], [lines[y - 1]]);
      DocOfOne(lines[y - 1]);
      CharsConcat(Doc(lines[..y - 1]), LineDoc(lines[y - 1]));
      CharsOfLine(lines[y - 1]);
    }
  }

  lemma CharsAround(lines: Buffer, y: nat)
    requires ValidBuffer(lines) && y < |lines|
    ensures Chars(Doc(lines)) == Chars(Doc(lines[..y])) + (Cells(lines[y].text, lines[y].attr) + Chars(Doc(lines[y + 1..])))
  {
    hide Doc, Chars, LineDoc;
    DocAround(lines, y);
    CharsConcat(Doc(lines[..y]), LineDoc(lines[y]) + Doc(lines[y + 1..]));
    CharsConcat(LineDoc(lines[y]), Doc(lines[y + 1..]));
    CharsOfLine(lines[y]);
  }

  /** An edit of one line's cells is the same edit of the flat text, at the cursor's place in it. */
  lemma EditChars(lines: Buffer, y: nat, ln: Line, at: nat, skip: nat, mid: seq<Item>)
    requires ValidBuffer(lines) && y < |lines| && ln.Valid() && at + skip <= |lines[y].text|
    requires Cells(ln.text, ln.attr) == Splice(Cells(lines[y].text, lines[y].attr), at, skip, mid)
    ensures ValidBuffer(lines[y := ln])
    ensures TextBefore(lines, y) + at + skip <= |Chars(Doc(lines))|
    ensures Chars(Doc(lines[y := ln])) == Splice(Chars(Doc(lines)), TextBefore(lines, y) + at, skip, mid)
  {
    hide Doc, Chars, LineDoc, Splice, TextBefore;
    var r := lines[y := ln];
    var (p, s) := (Doc(lines[..y]), Doc(lines[y + 1..]));
    CharsAround(lines, y);
    CharsAround(r, y);
    assert r[..y] == lines[..y] && r[y + 1..] == lines[y + 1..];
    CharsBefore(lines, y);
    Lift(Chars(p), Cells(lines[y].text, lines[y].attr), Chars(s), at, skip, mid);
  }

  lemma ErasedCells(ln: Line, x: nat)
    requires ln.Valid() && x < |ln.text|
    ensures Cells(ErasedFrom(ln, x).text, ErasedFrom(ln, x).attr) == Splice(Cells(ln.text, ln.attr), x, 1, [])
  {
  }

  lemma {:induction false} CharsOfSplice(doc: seq<Item>, at: nat, skip: nat, mid: seq<Item>)
    requires at + skip <= |doc| && Chars(mid) == [] && Chars(doc[at..at + skip]) == []
    ensures Chars(Splice(doc, at, skip, mid)) == Chars(doc)
  {
    var (a, b) := (doc[..at], doc[at + skip..]);
    assert doc == a + (doc[at..at + skip] + b);
    CharsConcat(a, doc[at..at + skip] + b);
    CharsConcat(doc[at..at + skip], b);
    CharsConcat(a + mid, b);
    CharsConcat(a, mid);
  }

  // ---------------------------------------------------------------------------------------------
  // Keys, with the rewrap that follows them
  // ---------------------------------------------------------------------------------------------

  /** `add_char` before its rewrap: white space typed at the start of a line mends the kludge above it. */
  function Typed(lines: Buffer, x: nat, y: nat, c: char, a: Attr, insert: bool): (r: Buffer)
    requires ValidBuffer(lines) && y < |lines|
    ensures ValidBuffer(r) && |r| == |lines|
  {
    var mended := if x == 0 && y > 0 && IsSpace(c) then SetKludged(lines, y - 1, false) else lines;
    mended[y := TypedOn(mended[y], x, c, a, insert)]
  }

  /** Typing is one cell put into the flat text at the cursor, whatever `rewrap` then does, and in every run. */
  lemma TypingInsertsOneCell(lines: Buffer, x: nat, y: nat, c: char, a: Attr, insert: bool, n: nat)
    requires ValidBuffer(lines) && n > 0 && y < |lines|
    ensures var r := RewrapAll(Typed(lines, x, y, c, a, insert), x + 1, y, n).lines;
            var k := Upto(lines[y], x);
            var skip := if insert || k == |lines[y].text| then 0 else 1;
            && TextBefore(lines, y) + k + skip <= |Chars(Doc(lines))|
            && Chars(Doc(r)) == Splice(Chars(Doc(lines)), TextBefore(lines, y) + k, skip, [Ch(c, a)])
  {
    hide RewrapAll, Disturbs, Doc, Chars, LineDoc, TypedOn, Splice, TextBefore, Place;
    var mended := if x == 0 && y > 0 && IsSpace(c) then SetKludged(lines, y - 1, false) else lines;
    MendedSame(lines, x, y, c);
    var k := Upto(lines[y], x);
    var skip := if insert || k == |lines[y].text| then 0 else 1;
    TypedCells(mended[y], x, c, a, insert);
    EditChars(mended, y, TypedOn(mended[y], x, c, a, insert), k, skip, [Ch(c, a)]);
    RewrapKeepsDocument(Typed(lines, x, y, c, a, insert), x + 1, y, n);
  }

  lemma MendedSame(lines: Buffer, x: nat, y: nat, c: char)
    requires ValidBuffer(lines) && y < |lines|
    ensures var mended := if x == 0 && y > 0 && IsSpace(c) then SetKludged(lines, y - 1, false) else lines;
            && Doc(mended) == Doc(lines) && mended[y] == lines[y] && |mended| == |lines|
            && TextBefore(mended, y) == TextBefore(lines, y)
            && Place(mended, y) == Place(lines, y)
  {
    if x == 0 && y > 0 && IsSpace(c) {
      var mended := SetKludged(lines, y - 1, false);
      DocOfFlag(lines, y - 1, false);
      TextBeforeSame(lines, mended, y - 1);
      assert mended[..y] == SetKludged(lines[..y], y - 1, false);
      DocOfFlag(lines[..y], y - 1, false);
    }
  }

  /** Typing changes the document by that one item, and moves no hard return, exactly when `rewrap` is not disturbed. */
  lemma TypingRefines(lines: Buffer, x: nat, y: nat, c: char, a: Attr, insert: bool, n: nat)
    requires ValidBuffer(lines) && n > 0 && y < |lines|
    ensures var typed := Typed(lines, x, y, c, a, insert);
            var r := RewrapAll(typed, x + 1, y, n).lines;
            var k := Upto(lines[y], x);
            var skip := if insert || k == |lines[y].text| then 0 else 1;
            && Place(lines, y) + k + skip <= |Doc(lines)|
            && (Doc(r) == Splice(Doc(lines), Place(lines, y) + k, skip, [Ch(c, a)]) <==> !Disturbs(typed, x + 1, y, n))
  {
    hide RewrapAll, Disturbs, Doc, Chars, LineDoc, TypedOn, Splice, TextBefore, Place;
    var mended := if x == 0 && y > 0 && IsSpace(c) then SetKludged(lines, y - 1, false) else lines;
    MendedSame(lines, x, y, c);
    var k := Upto(lines[y], x);
    var skip := if insert || k == |lines[y].text| then 0 else 1;
    TypedDoc(mended[y], x, c, a, insert);
    EditDoc(mended, y, TypedOn(mended[y], x, c, a, insert), k, skip, [Ch(c, a)]);
    RewrapKeepsDocument(Typed(lines, x, y, c, a, insert), x + 1, y, n);
  }

  /** Removing a character removes that cell of the flat text, and that item of the document unless `rewrap` is disturbed. */
  lemma ErasingRefines(lines: Buffer, x: nat, y: nat, xpos: nat, n: nat)
    requires ValidBuffer(lines) && n > 0 && y < |lines| && x < |lines[y].text|
    ensures var erased := lines[y := ErasedFrom(lines[y], x)];
            var r := RewrapAll(erased, xpos, y, n).lines;
            && TextBefore(lines, y) + x < |Chars(Doc(lines))|
            && Chars(Doc(r)) == Splice(Chars(Doc(lines)), TextBefore(lines, y) + x, 1, [])
            && Place(lines, y) + x < |Doc(lines)|
            && (Doc(r) == Splice(Doc(lines), Place(lines, y) + x, 1, []) <==> !Disturbs(erased, xpos, y, n))
  {
    hide RewrapAll, Disturbs, Doc, Chars, LineDoc, Splice, TextBefore, Place;
    var ln := ErasedFrom(lines[y], x);
    ErasedCells(lines[y], x);
    EditChars(lines, y, ln, x, 1, []);
    ErasedDoc(lines[y], x);
    EditDoc(lines, y, ln, x, 1, []);
    RewrapKeepsDocument(lines[y := ln], xpos, y, n);
  }

  /** Removing a line's hard return removes no character, and that one item of the document if it was there. */
  lemma JoiningRefines(lines: Buffer, y: nat, xpos: nat, n: nat)
    requires ValidBuffer(lines) && n > 0 && y < |lines|
    ensures var joined := lines[y := lines[y].(hardcr := false)];
            var r := RewrapAll(joined, xpos, y, n).lines;
            var at := Place(lines, y) + |lines[y].text|;
            && Chars(Doc(r)) == Chars(Doc(lines))
            && at + (if lines[y].hardcr then 1 else 0) <= |Doc(lines)|
            && (Doc(r) == Splice(Doc(lines), at, if lines[y].hardcr then 1 else 0, []) <==> !Disturbs(joined, xpos, y, n))
  {
    hide RewrapAll, Disturbs, Doc, Chars, LineDoc, Splice, Place;
    var ln := lines[y].(hardcr := false);
    var skip := if lines[y].hardcr then 1 else 0;
    var at := Place(lines, y) + |lines[y].text|;
    JoinedDoc(lines[y]);
    CharsAround(lines, y);
    CharsAround(lines[y := ln], y);
    assert lines[y := ln][..y] == lines[..y] && lines[y := ln][y + 1..] == lines[y + 1..];
    EditDoc(lines, y, ln, |lines[y].text|, skip, []);
    RewrapKeepsDocument(lines[y := ln], xpos, y, n);
  }

  /** A carriage return adds no character, and one hard return to the document. */
  lemma EnterRefines(lines: Buffer, x: nat, y: nat, n: nat)
    requires ValidBuffer(lines) && n > 0 && y < |lines|
    ensures var split := SplitAt(lines, y, x);
            var r := RewrapAll(split, 0, y + 1, n).lines;
            var at := Place(lines, y) + Upto(lines[y], x);
            && Chars(Doc(r)) == Chars(Doc(lines))
            && at <= |Doc(lines)|
            && (Doc(r) == Splice(Doc(lines), at, 0, [Hard]) <==> !Disturbs(split, 0, y + 1, n))
  {
    hide RewrapAll, Disturbs, Doc, Chars, LineDoc, Splice, Place, SplitAt, Upto;
    SplitDoc(lines, y, x);
    CharsOfHard();
    var at := Place(lines, y) + Upto(lines[y], x);
    assert Doc(lines)[at..at + 0] == [];
    CharsOfSplice(Doc(lines), at, 0, [Hard]);
    RewrapKeepsDocument(SplitAt(lines, y, x), 0, y + 1, n);
  }
}
