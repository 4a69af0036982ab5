/**
 The full-screen editor's buffer (exec/fseditor.js): its lines, the flat document they stand for,
 and the four regular expressions that decide where a line is split.

 A buffer is a sequence of lines.  What the user wrote is independent of where those lines happen
 to be broken: it is the flat sequence of coloured cells and hard carriage returns, `Doc`.

 The text of a line never holds a line terminator (the keys CR and LF and the file reader both turn
 them into line ends), so a regular expression's dot stands for any character here.
 */
module EditorLines {

  /** A text attribute byte: blink, background, high intensity, foreground. */
  type Attr = bv8

  datatype Line = Line(text: string, attr: seq<Attr>, hardcr: bool, kludged: bool) {
    /** The attribute string runs parallel to the text. */
    predicate Valid() {
      |text| == |attr|
    }
  }

  const BLANK := Line("", [], false, false)

  type Buffer = seq<Line>

  predicate ValidBuffer(lines: Buffer) {
    forall i :: 0 <= i < |lines| ==> lines[i].Valid()
  }

  /** One unit of the document: a coloured character, or a hard carriage return. */
  datatype Item = Ch(c: char, a: Attr) | Hard

  function Cells(text: string, attr: seq<Attr>): (cells: seq<Item>)
    requires |text| == |attr|
    ensures |cells| == |text|
    ensures forall i :: 0 <= i < |text| ==> cells[i] == Ch(text[i], attr[i])
  {
    seq(|text|, i requires 0 <= i < |text| => Ch(text[i], attr[i]))
  }

  function LineDoc(ln: Line): seq<Item>
    requires ln.Valid()
  {
    Cells(ln.text, ln.attr) + if ln.hardcr then [Hard] else []
  }

  function Doc(lines: Buffer): seq<Item>
    requires ValidBuffer(lines)
  {
    if lines == [] then [] else LineDoc(lines[0]) + Doc(lines[1..])
  }

  /** The document without its hard carriage returns. */
  function Chars(doc: seq<Item>): seq<Item> {
    if doc == [] then []
    else if doc[0].Ch? then [doc[0]] + Chars(doc[1..]) else Chars(doc[1..])
  }

  /** Characters held by the lines from `l` on. */
  function TextFrom(lines: Buffer, l: nat): nat
    decreases |lines| - l
  {
    if l >= |lines| then 0 else |lines[l].text| + TextFrom(lines, l + 1)
  }

  lemma {:induction false} DocConcat(a: Buffer, b: Buffer)
    requires ValidBuffer(a) && ValidBuffer(b)
    ensures ValidBuffer(a + b)
    ensures Doc(a + b) == Doc(a) + Doc(b)
  {
    if a == [] {
      assert a + b == b;
    } else {
      assert (a + b)[1..] == a[1..] + b;
      DocConcat(a[1..], b);
    }
  }

  lemma {:induction false} CharsConcat(a: seq<Item>, b: seq<Item>)
    ensures Chars(a + b) == Chars(a) + Chars(b)
  {
    if a == [] {
      assert a + b == b;
    } else {
      assert (a + b)[1..] == a[1..] + b;
      CharsConcat(a[1..], b);
    }
  }

  lemma {:induction false} CharsOfCells(text: string, attr: seq<Attr>)
    requires |text| == |attr|
    ensures Chars(Cells(text, attr)) == Cells(text, attr)
  {
    if text != "" {
      assert Cells(text, attr)[1..] == Cells(text[1..], attr[1..]);
      CharsOfCells(text[1..], attr[1..]);
    }
  }

  lemma CharsOfHard()
    ensures Chars([Hard]) == [] && Chars([]) == []
  {
    assert [Hard][1..] == [];
  }

  lemma {:induction false} TextFromSame(a: Buffer, b: Buffer, la: nat, lb: nat)
    requires la <= |a| && lb <= |b| && a[la..] == b[lb..]
    ensures TextFrom(a, la) == TextFrom(b, lb)
    decreases |a| - la
  {
    if la < |a| {
      assert a[la] == a[la..][0] == b[lb];
      assert a[la + 1..] == a[la..][1..] == b[lb + 1..];
      TextFromSame(a, b, la + 1, lb + 1);
    }
  }

  /** Seen from line `l`: what is before it, the line itself, the next one, and the rest. */
  lemma DocAround(lines: Buffer, l: nat)
    requires ValidBuffer(lines) && l < |lines|
    ensures Doc(lines) == Doc(lines[..l]) + (LineDoc(lines[l]) + Doc(lines[l + 1..]))
    ensures l + 1 < |lines| ==>
              Doc(lines) == Doc(lines[..l]) + (LineDoc(lines[l]) + (LineDoc(lines[l + 1]) + Doc(lines[l + 2..])))
  {
    assert lines == lines[..l] + lines[l..];
    DocConcat(lines[..l], lines[l..]);
    assert lines[l..][1..] == lines[l + 1..];
    if l + 1 < |lines| {
      assert lines[l + 1..][1..] == lines[l + 2..];
    }
  }

  /** Splitting a line's cells at `k`. */
  lemma CellsSplit(text: string, attr: seq<Attr>, k: nat)
    requires |text| == |attr| && k <= |text|
    ensures Cells(text, attr) == Cells(text[..k], attr[..k]) + Cells(text[k..], attr[k..])
  {
  }

  lemma CellsJoin(t1: string, a1: seq<Attr>, t2: string, a2: seq<Attr>)
    requires |t1| == |a1| && |t2| == |a2|
    ensures Cells(t1 + t2, a1 + a2) == Cells(t1, a1) + Cells(t2, a2)
  {
  }

  /** A line with more text put in front of it. */
  lemma LineDocJoin(text: string, attr: seq<Attr>, ln: Line, joined: Line)
    requires |text| == |attr| && ln.Valid()
    requires joined.text == text + ln.text && joined.attr == attr + ln.attr && joined.hardcr == ln.hardcr
    ensures joined.Valid() && LineDoc(joined) == Cells(text, attr) + LineDoc(ln)
  {
    CellsJoin(text, attr, ln.text, ln.attr);
    Assoc(Cells(text, attr), Cells(ln.text, ln.attr), if ln.hardcr then [Hard] else []);
  }

  /** A line without its first `k` characters. */
  lemma LineDocSplit(ln: Line, k: nat, tail: Line)
    requires ln.Valid() && k <= |ln.text|
    requires tail.text == ln.text[k..] && tail.attr == ln.attr[k..] && tail.hardcr == ln.hardcr
    ensures tail.Valid() && LineDoc(ln) == Cells(ln.text[..k], ln.attr[..k]) + LineDoc(tail)
  {
    CellsSplit(ln.text, ln.attr, k);
    Assoc(Cells(ln.text[..k], ln.attr[..k]), Cells(tail.text, tail.attr), if ln.hardcr then [Hard] else []);
  }

  lemma Assoc(a: seq<Item>, b: seq<Item>, c: seq<Item>)
    ensures (a + b) + c == a + (b + c)
  {
  }

  predicate Unkludged(lines: Buffer) {
    forall i :: 0 <= i < |lines| ==> !lines[i].kludged
  }

  function Front<T>(s: seq<T>): (r: seq<T>)
    requires s != []
    ensures |r| == |s| - 1
  {
    s[..|s| - 1]
  }

  function Last<T>(s: seq<T>): T
    requires s != []
  {
    s[|s| - 1]
  }

  // ---------------------------------------------------------------------------------------------
  // The splits
  // ---------------------------------------------------------------------------------------------

  /** White space as a regular expression's \s sees it, for single-byte characters. */
  predicate IsSpace(c: char) {
    c == ' ' || ('\t' <= c <= '\r') || c == '\U{A0}'
  }

  /** The seven of them: tab, line feed, vertical tab, form feed, carriage return, space, no-break space. */
  lemma SpacesAre(c: char)
    ensures IsSpace(c) <==> c as int in {9, 10, 11, 12, 13, 32, 160}
  {
  }

  predicate Blank(text: string) {
    forall i :: 0 <= i < |text| ==> IsSpace(text[i])
  }

  /** Length of the text without its trailing white space: ^(.*?)\s*$ */
  function Trimmed(text: string): (t: nat)
    ensures t <= |text|
  {
    if text != "" && IsSpace(text[|text| - 1]) then Trimmed(text[..|text| - 1]) else |text|
  }

  lemma {:induction false} TrimmedIs(text: string, t: nat)
    requires t <= |text|
    ensures t == Trimmed(text) <==> Blank(text[t..]) && (t > 0 ==> !IsSpace(text[t - 1]))
  {
    if text != "" && IsSpace(text[|text| - 1]) {
      var shorter := text[..|text| - 1];
      if t < |text| {
        TrimmedIs(shorter, t);
        assert text[t..] == shorter[t..] + [text[|text| - 1]];
      }
    } else if t < |text| {
      assert text[t..][|text| - 1 - t] == text[|text| - 1];
    }
  }

  lemma {:induction false} TrimmedAtMost(text: string, k: nat)
    requires k <= |text| && Blank(text[k..])
    ensures Trimmed(text) <= k
  {
    if k < |text| {
      assert text[k..][|text| - 1 - k] == text[|text| - 1];
      assert text[..|text| - 1][k..] == text[k..][..|text| - 1 - k];
      TrimmedAtMost(text[..|text| - 1], k);
    }
  }

  /** Where the run of white space that begins at `k` ends: a greedy \s* at `k`. */
  function RunEnd(text: string, k: nat): (e: nat)
    requires k <= |text|
    ensures k <= e <= |text|
    decreases |text| - k
  {
    if k < |text| && IsSpace(text[k]) then RunEnd(text, k + 1) else k
  }

  lemma {:induction false} RunEndIs(text: string, k: nat, e: nat)
    requires k <= e <= |text|
    ensures e == RunEnd(text, k) <==> Blank(text[k..e]) && (e < |text| ==> !IsSpace(text[e]))
    decreases |text| - k
  {
    if k < |text| && IsSpace(text[k]) {
      if e > k {
        RunEndIs(text, k + 1, e);
        assert text[k..e] == [text[k]] + text[k + 1..e];
      }
    } else if k < e {
      assert text[k..e][0] == text[k];
    }
  }

  /** A way for ^(.{1,n}\s+)(\S.*?)$ to match with `k` characters taken by the first quantifier. */
  predicate BreaksAt(text: string, n: nat, k: nat) {
    1 <= k <= n && k < |text| && IsSpace(text[k]) && RunEnd(text, k) < |text|
  }

  /** Length of the first group of ^(.{1,n}\s+)(\S.*?)$, or 0 when there is no match. */
  function FirstCut(text: string, n: nat): (cut: nat)
    ensures cut < |text| || cut == 0
    decreases n
  {
    if n == 0 then 0
    else if BreaksAt(text, n, n) then RunEnd(text, n)
    else FirstCut(text, n - 1)
  }

  /** Quantifiers are greedy: of all the ways to match, the one whose first quantifier takes most. */
  lemma {:induction false} FirstCutIsGreedy(text: string, n: nat)
    ensures FirstCut(text, n) == 0 <==> forall k: nat :: !BreaksAt(text, n, k)
    ensures FirstCut(text, n) > 0 ==>
              exists k: nat :: BreaksAt(text, n, k) && FirstCut(text, n) == RunEnd(text, k) && forall j: nat :: k < j ==> !BreaksAt(text, n, j)
    decreases n
  {
    if n > 0 && !BreaksAt(text, n, n) {
      var m := n - 1;
      FirstCutIsGreedy(text, m);
      assert forall k: nat :: BreaksAt(text, n, k) <==> BreaksAt(text, m, k);
    }
  }

  /** Length of the first group of ^(.{1,n})(.*?)$, or 0 when there is no match. */
  function KludgeCut(text: string, n: nat): nat {
    if |text| < n then |text| else n
  }

  /** A way for ^(.{1,n}(?!\S)\s*) to match with `k` characters taken by the quantifier. */
  predicate WordsEndAt(text: string, n: nat, k: nat) {
    1 <= k <= n && k <= |text| && (k == |text| || IsSpace(text[k]))
  }

  /** Length of the match of ^(.{1,n}(?!\S)\s*): as many whole words as fit; 0 when not even one does. */
  function WordsCut(text: string, n: nat): (cut: nat)
    ensures cut <= |text|
    decreases n
  {
    if n == 0 then 0
    else if WordsEndAt(text, n, n) then RunEnd(text, n)
    else WordsCut(text, n - 1)
  }

  lemma {:induction false} WordsCutIsGreedy(text: string, n: nat)
    ensures WordsCut(text, n) == 0 <==> forall k: nat :: !WordsEndAt(text, n, k)
    ensures WordsCut(text, n) > 0 ==>
              exists k: nat :: WordsEndAt(text, n, k) && WordsCut(text, n) == RunEnd(text, k) && forall j: nat :: k < j ==> !WordsEndAt(text, n, j)
    decreases n
  {
    if n > 0 && !WordsEndAt(text, n, n) {
      var m := n - 1;
      WordsCutIsGreedy(text, m);
      assert forall k: nat :: WordsEndAt(text, n, k) <==> WordsEndAt(text, m, k);
    }
  }

  /** The ways for ^(.{1,n}\s+)(\S.*?)$ to match: a front of 1 to n characters, white space, and something else behind it. */
  lemma BreaksAtIs(front: string, space: string, rest: string, n: nat)
    requires forall i :: 0 <= i < |space| ==> IsSpace(space[i])
    requires rest != "" ==> !IsSpace(rest[0])
    ensures var text := front + space + rest;
      && (BreaksAt(text, n, |front|) <==> 1 <= |front| <= n && space != "" && rest != "")
      && RunEnd(text, |front|) == |front + space|
  {
    var text := front + space + rest;
    assert text[|front|..] == space + rest;
    assert forall i :: |front| <= i < |front + space| ==> text[i] == space[i - |front|];
    assert rest != "" ==> text[|front + space|] == rest[0];
    RunEndIs(text, |front|, |front + space|);
  }

  /** The ways for ^(.{1,n}(?!\S)\s*) to match: a front of 1 to n characters with nothing or white space behind it. */
  lemma WordsEndAtIs(front: string, rest: string, n: nat)
    ensures WordsEndAt(front + rest, n, |front|) <==> front != "" && |front| <= n && (rest == "" || IsSpace(rest[0]))
  {
    var text := front + rest;
    assert rest != "" ==> text[|front|] == rest[0];
    assert |text| == |front| + |rest|;
  }

  /** How many characters other than white space the text begins with, up to `n` of them. */
  function WordPrefix(text: string, n: nat): (k: nat)
    ensures k <= n && k <= |text|
    ensures forall i :: 0 <= i < k ==> !IsSpace(text[i])
    ensures k == n || k == |text| || IsSpace(text[k])
    decreases n
  {
    if n == 0 || text == "" || IsSpace(text[0]) then 0
    else
      var k := WordPrefix(text[1..], n - 1);
      assert forall i :: 1 <= i < |text| ==> text[i] == text[1..][i - 1];
      k + 1
  }

  /** Length of the match of ^(\S{1,n}\s*), or 0 when there is no match. */
  function UnkludgeCut(text: string, n: nat): (cut: nat)
    ensures cut <= |text|
  {
    var k := WordPrefix(text, n);
    if k == 0 then 0 else RunEnd(text, k)
  }

  /** It takes the longest run of other characters, up to `n`, and the white space after it. */
  lemma UnkludgeCutIsGreedy(text: string, n: nat)
    ensures UnkludgeCut(text, n) == 0 <==> n == 0 || text == "" || IsSpace(text[0])
    ensures UnkludgeCut(text, n) > 0 ==>
              exists k: nat :: 1 <= k <= n && k <= |text| && UnkludgeCut(text, n) == RunEnd(text, k)
                && (forall i :: 0 <= i < k ==> !IsSpace(text[i])) && (k == n || k == |text| || IsSpace(text[k]))
  {
    var k := WordPrefix(text, n);
    assert k > 0 ==> UnkludgeCut(text, n) == RunEnd(text, k);
  }

  /** A line cut where `FirstCut` says fits in `n` columns once its trailing white space is ignored. */
  lemma FirstCutFits(text: string, n: nat)
    ensures Trimmed(text[..FirstCut(text, n)]) <= n
  {
    var cut := FirstCut(text, n);
    FirstCutIsGreedy(text, n);
    if cut > 0 {
      var k: nat :| BreaksAt(text, n, k) && cut == RunEnd(text, k);
      RunEndIs(text, k, cut);
      assert text[..cut][k..] == text[k..cut];
      TrimmedAtMost(text[..cut], k);
    }
  }

  /** White space put behind a text that fits does not count. */
  lemma BlankBehind(front: string, blanks: string)
    requires Blank(blanks)
    ensures Trimmed(front + blanks) <= |front|
  {
    assert (front + blanks)[|front|..] == blanks;
    TrimmedAtMost(front + blanks, |front|);
  }

  lemma TakenFitsAt(head: string, text: string, k: nat)
    requires k <= |text|
    ensures Trimmed(head + text[..RunEnd(text, k)]) <= |head| + k
  {
    hide IsSpace, Blank, RunEnd, Trimmed;
    var cut := RunEnd(text, k);
    RunEndIs(text, k, cut);
    BlankBehind(head + text[..k], text[k..cut]);
    assert head + text[..cut] == head + text[..k] + text[k..cut];
  }

  /** Appending what `WordsCut` or `UnkludgeCut` takes never makes the visible text longer than the room left. */
  lemma TakenFits(head: string, text: string, cut: nat, room: nat)
    requires cut == WordsCut(text, room) || cut == UnkludgeCut(text, room)
    requires cut > 0
    ensures Trimmed(head + text[..cut]) <= |head| + room
  {
    if cut == UnkludgeCut(text, room) {
      TakenFitsAt(head, text, WordPrefix(text, room));
    } else {
      WordsCutIsGreedy(text, room);
      var k: nat :| WordsEndAt(text, room, k) && cut == RunEnd(text, k);
      TakenFitsAt(head, text, k);
    }
  }
}
