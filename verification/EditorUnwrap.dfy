/**
 `unwrap_line` (exec/fseditor.js:254-365): filling lines up from the ones below them.
 `n` is the widest line allowed, screen_columns-1.
 */
module EditorUnwrap {
  import opened EditorLines
  import opened EditorWrap

  /** What one call did: characters moved up by its first round (-1 for none), the first line it did not fill. */
  datatype Unwrapped = Unwrapped(lines: Buffer, ret: int, threw: bool, stop: nat)

  /** What one round did; `done` ends the loop, `threw` is the TypeError on a line that is no longer there. */
  datatype Round = Round(lines: Buffer, moved: int, done: bool, threw: bool)

  /** The tests under which the loop goes on: there is a next line, no hard return, and room. */
  predicate Roomy(lines: Buffer, l: nat, n: nat) {
    l + 1 < |lines| && !lines[l].hardcr && |lines[l].text| < n
  }

  /** Line `l` takes the first `k` characters of the next line, which is spliced out once it is empty. */
  function Pull(lines: Buffer, l: nat, k: nat): (r: Buffer)
    requires ValidBuffer(lines) && l + 1 < |lines| && k <= |lines[l + 1].text|
    ensures ValidBuffer(r)
    ensures |r| == |lines| - if k == |lines[l + 1].text| then 1 else 0
  {
    var (ln, nx) := (lines[l], lines[l + 1]);
    var taken := ln.(text := ln.text + nx.text[..k], attr := ln.attr + nx.attr[..k]);
    if k == |nx.text| then
      lines[..l] + [taken.(hardcr := nx.hardcr)] + lines[l + 2..]
    else
      lines[..l] + [taken, nx.(text := nx.text[k..], attr := nx.attr[k..])] + lines[l + 2..]
  }

  /** How many characters the attempt to mend a kludge wrap moves. */
  function MendCut(lines: Buffer, l: nat, n: nat): (k: nat)
    requires Roomy(lines, l, n)
    ensures k <= |lines[l + 1].text|
  {
    if lines[l].kludged then UnkludgeCut(lines[l + 1].text, n - |lines[l].text|) else 0
  }

  /** The first half of a round. */
  function Mend(lines: Buffer, l: nat, n: nat): (r: Buffer)
    requires ValidBuffer(lines) && Roomy(lines, l, n)
    ensures ValidBuffer(r) && l < |r| <= |lines|
  {
    var k := MendCut(lines, l, n);
    var words := lines[l + 1].text[..k];
    if k == 0 then SetKludged(lines, l, false)
    else if k == |lines[l + 1].text| || (exists i :: 0 <= i < k && IsSpace(words[i])) then
      SetKludged(Pull(lines, l, k), l, false)
    else Pull(lines, l, k)
  }

  /** The second half of a round: whole words, as many as there is room for; `k1` characters were moved already. */
  function Fill(mid: Buffer, l: nat, room: int, k1: nat): (r: Round)
    requires ValidBuffer(mid) && l < |mid|
    ensures ValidBuffer(r.lines) && l < |r.lines| <= |mid|
  {
    if room >= 1 && l + 1 >= |mid| then
      Round(mid, k1, true, true)
    else
      var k2 := if room >= 1 then WordsCut(mid[l + 1].text, room) else 0;
      if k2 > 0 then
        Round(Pull(mid, l, k2), k1 + k2, false, false)
      else
        var plain := SetKludged(mid, l, false);
        var rest := if l + 1 < |plain| && plain[l + 1].text == "" then Pull(plain, l, 0) else plain;
        Round(rest, if k1 > 0 then k1 else -1, true, false)
  }

  /** One round of the loop. */
  function UnwrapStep(lines: Buffer, l: nat, n: nat): (r: Round)
    requires ValidBuffer(lines) && Roomy(lines, l, n)
    ensures ValidBuffer(r.lines) && l < |r.lines| <= |lines|
  {
    var k1 := MendCut(lines, l, n);
    Fill(Mend(lines, l, n), l, n - |lines[l].text| - k1, k1)
  }

  function UnwrapAll(lines: Buffer, l: nat, n: nat): (r: Unwrapped)
    requires ValidBuffer(lines)
    ensures ValidBuffer(r.lines) && |r.lines| <= |lines|
    decreases |lines| - l
  {
    if !Roomy(lines, l, n) then Unwrapped(lines, -1, false, l)
    else
      var round := UnwrapStep(lines, l, n);
      if round.done then Unwrapped(round.lines, round.moved, round.threw, l + 1)
      else UnwrapAll(round.lines, l + 1, n).(ret := round.moved)
  }

  // ---------------------------------------------------------------------------------------------
  // The document
  // ---------------------------------------------------------------------------------------------

  /** Each hard carriage return counts for what stands from it to the end: less, the later it comes. */
  function Weight(doc: seq<Item>): nat {
    if doc == [] then 0 else (if doc[0] == Hard then |doc| else 0) + Weight(doc[1..])
  }

  lemma {:induction false} WeightUnder(p: seq<Item>, a: seq<Item>, b: seq<Item>)
    requires |a| >= |b| && Weight(a) > Weight(b)
    ensures Weight(p + a) > Weight(p + b)
  {
    if p == [] {
      assert p + a == a && p + b == b;
    } else {
      WeightUnder(p[1..], a, b);
      assert (p + a)[1..] == p[1..] + a && (p + b)[1..] == p[1..] + b;
    }
  }

  lemma {:induction false} WeightSkipsCells(cells: seq<Item>, s: seq<Item>)
    requires forall i :: 0 <= i < |cells| ==> cells[i].Ch?
    ensures Weight(cells + s) == Weight(s)
  {
    if cells == [] {
      assert cells + s == s;
    } else {
      assert (cells + s)[1..] == cells[1..] + s;
      WeightSkipsCells(cells[1..], s);
    }
  }

  /** A hard return that characters overtake, or that is dropped, makes the document lighter. */
  lemma HardSinks(p: seq<Item>, cells: seq<Item>, s: seq<Item>)
    requires forall i :: 0 <= i < |cells| ==> cells[i].Ch?
    ensures cells != [] ==> Weight(p + ([Hard] + (cells + s))) > Weight(p + (cells + ([Hard] + s)))
    ensures Weight(p + ([Hard] + (cells + s))) > Weight(p + (cells + s))
  {
    var heavy := [Hard] + (cells + s);
    assert heavy[1..] == cells + s;
    WeightSkipsCells(cells, s);
    WeightUnder(p, heavy, cells + s);
    if cells != [] {
      WeightSkipsCells(cells, [Hard] + s);
      assert ([Hard] + s)[1..] == s;
      WeightUnder(p, heavy, cells + ([Hard] + s));
    }
  }

  /** A soft line that takes part of the next one. */
  lemma TookPart(ln: Line, nx: Line, a: Line, b: Line, k: nat)
    requires ln.Valid() && nx.Valid() && k <= |nx.text| && !ln.hardcr && !a.hardcr
    requires a.text == ln.text + nx.text[..k] && a.attr == ln.attr + nx.attr[..k]
    requires b.text == nx.text[k..] && b.attr == nx.attr[k..] && b.hardcr == nx.hardcr
    ensures a.Valid() && b.Valid() && LineDoc(a) + LineDoc(b) == LineDoc(ln) + LineDoc(nx)
  {
    var taken := Line(nx.text[..k], nx.attr[..k], false, false);
    LineDocSplit(nx, k, b);
    LineDocJoin(ln.text, ln.attr, taken, a);
    assert LineDoc(ln) == Cells(ln.text, ln.attr) && LineDoc(taken) == Cells(taken.text, taken.attr);
    Assoc(LineDoc(ln), LineDoc(taken), LineDoc(b));
  }

  /** A soft line that takes all of the next one, hard return included. */
  lemma TookAll(ln: Line, nx: Line, a: Line)
    requires ln.Valid() && nx.Valid() && !ln.hardcr
    requires a.text == ln.text + nx.text && a.attr == ln.attr + nx.attr && a.hardcr == nx.hardcr
    ensures a.Valid() && LineDoc(a) == LineDoc(ln) + LineDoc(nx)
  {
    LineDocJoin(ln.text, ln.attr, nx, a);
    assert LineDoc(ln) == Cells(ln.text, ln.attr);
  }

  lemma PullSoftDoc(lines: Buffer, l: nat, k: nat)
    requires ValidBuffer(lines) && l + 1 < |lines| && k <= |lines[l + 1].text| && !lines[l].hardcr
    ensures Doc(Pull(lines, l, k)) == Doc(lines)
  {
    var r := Pull(lines, l, k);
    var (ln, nx) := (lines[l], lines[l + 1]);
    DocOfTwo(ln, nx);
    TwoInTheMiddle(lines, l);
    if k == |nx.text| {
      assert nx.text[..k] == nx.text && nx.attr[..k] == nx.attr;
      TookAll(ln, nx, r[l]);
      DocOfOne(r[l]);
      DocSwap(lines[..l], [ln, nx], [r[l]], lines[l + 2..]);
    } else {
      TookPart(ln, nx, r[l], r[l + 1], k);
      DocOfTwo(r[l], r[l + 1]);
      DocSwap(lines[..l], [ln, nx], [r[l], r[l + 1]], lines[l + 2..]);
    }
  }

  lemma Regroup(p: seq<Item>, h: seq<Item>, m: seq<Item>, s: seq<Item>)
    ensures p + ((h + m) + s) == (p + h) + (m + s)
  {
  }

  /** The document around a hard line: what stands before its return, the `k` characters after it, and the rest. */
  lemma AroundHard(lines: Buffer, l: nat, k: nat) returns (p: seq<Item>, taken: seq<Item>, s: seq<Item>)
    requires ValidBuffer(lines) && l + 1 < |lines| && k <= |lines[l + 1].text| && lines[l].hardcr
    ensures taken == Cells(lines[l + 1].text[..k], lines[l + 1].attr[..k])
    ensures p == Doc(lines[..l]) + Cells(lines[l].text, lines[l].attr)
    ensures s == LineDoc(lines[l + 1].(text := lines[l + 1].text[k..], attr := lines[l + 1].attr[k..])) + Doc(lines[l + 2..])
    ensures Doc(lines) == p + ([Hard] + (taken + s))
  {
    var (ln, nx, below) := (lines[l], lines[l + 1], Doc(lines[l + 2..]));
    var head := Cells(ln.text, ln.attr);
    taken := Cells(nx.text[..k], nx.attr[..k]);
    p := Doc(lines[..l]) + head;
    var b := nx.(text := nx.text[k..], attr := nx.attr[k..]);
    s := LineDoc(b) + below;
    CellsSplit(nx.text, nx.attr, k);
    assert LineDoc(nx) == taken + LineDoc(b);
    assert LineDoc(nx) + below == taken + s;
    DocAround(lines, l);
    Regroup(Doc(lines[..l]), head, [Hard], LineDoc(nx) + below);
  }

  lemma TakenDoc(ln: Line, nx: Line, a: Line, k: nat)
    requires ln.Valid() && nx.Valid() && k <= |nx.text|
    requires a.text == ln.text + nx.text[..k] && a.attr == ln.attr + nx.attr[..k]
    ensures a.Valid()
    ensures LineDoc(a) == Cells(ln.text, ln.attr) + (Cells(nx.text[..k], nx.attr[..k]) + if a.hardcr then [Hard] else [])
  {
    CellsJoin(ln.text, ln.attr, nx.text[..k], nx.attr[..k]);
  }

  lemma Regroup2(p: seq<Item>, h: seq<Item>, t: seq<Item>, m: seq<Item>, s: seq<Item>)
    ensures p + ((h + (t + m)) + s) == (p + h) + (t + (m + s))
  {
  }

  /** The same document once those characters are pulled up: they stand before the return, which goes with an emptied line. */
  lemma PulledPastHard(lines: Buffer, l: nat, k: nat, p: seq<Item>, taken: seq<Item>, s: seq<Item>)
    requires ValidBuffer(lines) && l + 1 < |lines| && k <= |lines[l + 1].text| && lines[l].hardcr
    requires taken == Cells(lines[l + 1].text[..k], lines[l + 1].attr[..k])
    requires p == Doc(lines[..l]) + Cells(lines[l].text, lines[l].attr)
    requires s == LineDoc(lines[l + 1].(text := lines[l + 1].text[k..], attr := lines[l + 1].attr[k..])) + Doc(lines[l + 2..])
    ensures Doc(Pull(lines, l, k)) == p + (taken + if k == |lines[l + 1].text| then s else [Hard] + s)
  {
    var r := Pull(lines, l, k);
    var (ln, nx, above) := (lines[l], lines[l + 1], Doc(lines[..l]));
    DocAround(r, l);
    assert r[..l] == lines[..l];
    TakenDoc(ln, nx, r[l], k);
    var m := if r[l].hardcr then [Hard] else [];
    Regroup2(above, Cells(ln.text, ln.attr), taken, m, Doc(r[l + 1..]));
    if k == |nx.text| {
      assert r[l + 1..] == lines[l + 2..];
      assert m + Doc(r[l + 1..]) == s;
    } else {
      assert r[l + 1..][1..] == lines[l + 2..];
    }
  }

  /** Characters pulled over a hard return: they overtake it, or it is dropped with the emptied line. */
  lemma PullHardDoc(lines: Buffer, l: nat, k: nat)
    requires ValidBuffer(lines) && l + 1 < |lines| && k <= |lines[l + 1].text| && lines[l].hardcr
    requires k > 0 || lines[l + 1].text == ""
    ensures Chars(Doc(Pull(lines, l, k))) == Chars(Doc(lines))
    ensures Weight(Doc(Pull(lines, l, k))) < Weight(Doc(lines))
  {
    hide Chars, Weight, Doc, Pull, LineDoc;
    var p, taken, s := AroundHard(lines, l, k);
    PulledPastHard(lines, l, k, p, taken, s);
    HardSinks(p, taken, s);
    CharsPastHard(p, taken, s);
  }

  lemma CharsPastHard(p: seq<Item>, cells: seq<Item>, s: seq<Item>)
    ensures Chars(p + ([Hard] + (cells + s))) == Chars(p + (cells + s)) == Chars(p + (cells + ([Hard] + s)))
  {
    CharsOfHard();
    CharsConcat(p, [Hard] + (cells + s));
    CharsConcat([Hard], cells + s);
    CharsConcat(p, cells + s);
    CharsConcat(cells, s);
    CharsConcat(p, cells + ([Hard] + s));
    CharsConcat(cells, [Hard] + s);
    CharsConcat([Hard], s);
  }

  /**
   The guard of the faulty branch: mending a kludge wrap empties a next line that ended hard, and the
   line after that, which begins another paragraph, is empty or has a first word for which there is room.
   */
  predicate CrossesAt(lines: Buffer, l: nat, n: nat)
    requires Roomy(lines, l, n)
  {
    var k := MendCut(lines, l, n);
    var room := n - |lines[l].text| - k;
    && k > 0 && k == |lines[l + 1].text| && lines[l + 1].hardcr
    && l + 2 < |lines|
    && (lines[l + 2].text == "" || (room >= 1 && WordsCut(lines[l + 2].text, room) > 0))
  }

  /** Unwrapping from `l` reaches that branch. */
  predicate Crosses(lines: Buffer, l: nat, n: nat)
    requires ValidBuffer(lines)
    decreases |lines| - l
  {
    Roomy(lines, l, n) &&
    (CrossesAt(lines, l, n) ||
     (var round := UnwrapStep(lines, l, n); !round.done && Crosses(round.lines, l + 1, n)))
  }

  lemma PullLastHard(lines: Buffer, l: nat, k: nat)
    requires ValidBuffer(lines) && l + 1 < |lines| && k <= |lines[l + 1].text|
    ensures LastHard(Pull(lines, l, k)) == LastHard(lines)
  {
  }

  lemma MendDoc(lines: Buffer, l: nat, n: nat)
    requires ValidBuffer(lines) && Roomy(lines, l, n)
    ensures Doc(Mend(lines, l, n)) == Doc(lines)
    ensures LastHard(Mend(lines, l, n)) == LastHard(lines)
    ensures var k := MendCut(lines, l, n);
            var emptied := k > 0 && k == |lines[l + 1].text|;
            var mid := Mend(lines, l, n);
            && (mid[l].hardcr <==> emptied && lines[l + 1].hardcr)
            && mid[l].text == lines[l].text + lines[l + 1].text[..k]
            && (emptied ==> mid[l + 1..] == lines[l + 2..])
  {
    var k := MendCut(lines, l, n);
    if k == 0 {
      DocOfFlag(lines, l, false);
    } else {
      var pulled := Pull(lines, l, k);
      PullSoftDoc(lines, l, k);
      PullLastHard(lines, l, k);
      DocOfFlag(pulled, l, false);
    }
  }

  /** Characters pulled up leave the document alone unless they come from past a hard return. */
  lemma PullDoc(mid: Buffer, l: nat, k: nat)
    requires ValidBuffer(mid) && l + 1 < |mid| && k <= |mid[l + 1].text| && (k > 0 || mid[l + 1].text == "")
    ensures Chars(Doc(Pull(mid, l, k))) == Chars(Doc(mid))
    ensures !mid[l].hardcr ==> Doc(Pull(mid, l, k)) == Doc(mid)
    ensures mid[l].hardcr ==> Weight(Doc(Pull(mid, l, k))) < Weight(Doc(mid))
    ensures LastHard(Pull(mid, l, k)) == LastHard(mid)
  {
    PullLastHard(mid, l, k);
    if mid[l].hardcr {
      PullHardDoc(mid, l, k);
    } else {
      PullSoftDoc(mid, l, k);
    }
  }

  /** The second half of a round goes past a hard return. */
  predicate FillCrosses(mid: Buffer, l: nat, room: int)
    requires l < |mid|
  {
    mid[l].hardcr && l + 1 < |mid| && (mid[l + 1].text == "" || (room >= 1 && WordsCut(mid[l + 1].text, room) > 0))
  }

  lemma FillDoc(mid: Buffer, l: nat, room: int, k1: nat)
    requires ValidBuffer(mid) && l < |mid|
    ensures Chars(Doc(Fill(mid, l, room, k1).lines)) == Chars(Doc(mid))
    ensures !FillCrosses(mid, l, room) ==> Doc(Fill(mid, l, room, k1).lines) == Doc(mid)
    ensures FillCrosses(mid, l, room) ==> Weight(Doc(Fill(mid, l, room, k1).lines)) < Weight(Doc(mid))
    ensures LastHard(Fill(mid, l, room, k1).lines) == LastHard(mid)
  {
    if room < 1 || l + 1 < |mid| {
      var k2 := if room >= 1 then WordsCut(mid[l + 1].text, room) else 0;
      if k2 > 0 {
        PullDoc(mid, l, k2);
      } else {
        var plain := SetKludged(mid, l, false);
        DocOfFlag(mid, l, false);
        if l + 1 < |plain| && plain[l + 1].text == "" {
          PullDoc(plain, l, 0);
        }
      }
    }
  }

  lemma UnwrapStepDoc(lines: Buffer, l: nat, n: nat)
    requires ValidBuffer(lines) && Roomy(lines, l, n)
    ensures Chars(Doc(UnwrapStep(lines, l, n).lines)) == Chars(Doc(lines))
    ensures !CrossesAt(lines, l, n) ==> Doc(UnwrapStep(lines, l, n).lines) == Doc(lines)
    ensures CrossesAt(lines, l, n) ==> Weight(Doc(UnwrapStep(lines, l, n).lines)) < Weight(Doc(lines))
    ensures LastHard(UnwrapStep(lines, l, n).lines) == LastHard(lines)
  {
    hide Mend, Fill, Doc, Chars, Weight;
    var k1 := MendCut(lines, l, n);
    var mid := Mend(lines, l, n);
    var room := n - |lines[l].text| - k1;
    MendDoc(lines, l, n);
    assert mid[l].hardcr && l + 1 < |mid| ==> l + 2 < |lines| && mid[l + 1] == lines[l + 2..][0];
    assert CrossesAt(lines, l, n) <==> FillCrosses(mid, l, room);
    FillDoc(mid, l, room, k1);
  }

  /**
   No character is ever lost, added or moved by unwrapping, not even in a run that ends in an exception;
   and the hard carriage returns stay where they were exactly when the faulty branch is not reached.
   */
  lemma {:induction false} UnwrapKeepsDocument(lines: Buffer, l: nat, n: nat)
    requires ValidBuffer(lines)
    ensures Chars(Doc(UnwrapAll(lines, l, n).lines)) == Chars(Doc(lines))
    ensures Doc(UnwrapAll(lines, l, n).lines) == Doc(lines) <==> !Crosses(lines, l, n)
    ensures Weight(Doc(UnwrapAll(lines, l, n).lines)) <= Weight(Doc(lines))
    ensures Crosses(lines, l, n) ==> Weight(Doc(UnwrapAll(lines, l, n).lines)) < Weight(Doc(lines))
    ensures LastHard(UnwrapAll(lines, l, n).lines) == LastHard(lines)
    decreases |lines| - l
  {
    if Roomy(lines, l, n) {
      UnwrapStepDoc(lines, l, n);
      var round := UnwrapStep(lines, l, n);
      if !round.done {
        UnwrapKeepsDocument(round.lines, l + 1, n);
      }
    }
  }

  /** Without kludge-wrapped lines there is neither a crossing nor an exception. */
  lemma {:induction false} UnkludgedNeverCrosses(lines: Buffer, l: nat, n: nat)
    requires ValidBuffer(lines)
    requires forall i :: l <= i < |lines| ==> !lines[i].kludged
    ensures !Crosses(lines, l, n) && !UnwrapAll(lines, l, n).threw
    decreases |lines| - l
  {
    if Roomy(lines, l, n) {
      var round := UnwrapStep(lines, l, n);
      if !round.done {
        var k := WordsCut(lines[l + 1].text, n - |lines[l].text|);
        assert SetKludged(lines, l, false) == lines;
        assert round.lines == Pull(lines, l, k);
        UnkludgedNeverCrosses(round.lines, l + 1, n);
      }
    }
  }

  /** The guard of the exception: mending uses up the buffer's last line and leaves room for more words. */
  predicate ThrowsAt(lines: Buffer, l: nat, n: nat)
    requires Roomy(lines, l, n)
  {
    var k := MendCut(lines, l, n);
    k > 0 && k == |lines[l + 1].text| && l + 2 == |lines| && |lines[l].text| + k < n
  }

  /** Unwrapping from `l` comes to such a line. */
  predicate Throws(lines: Buffer, l: nat, n: nat)
    requires ValidBuffer(lines)
    decreases |lines| - l
  {
    Roomy(lines, l, n) &&
    (ThrowsAt(lines, l, n) ||
     (var round := UnwrapStep(lines, l, n); !round.done && Throws(round.lines, l + 1, n)))
  }

  lemma UnwrapStepThrows(lines: Buffer, l: nat, n: nat)
    requires ValidBuffer(lines) && Roomy(lines, l, n)
    ensures UnwrapStep(lines, l, n).threw <==> ThrowsAt(lines, l, n)
    ensures UnwrapStep(lines, l, n).threw ==> UnwrapStep(lines, l, n).done
  {
    hide MendCut;
  }

  /** `unwrap_line` ends in an exception exactly when it comes to such a line. */
  lemma {:induction false} UnwrapThrows(lines: Buffer, l: nat, n: nat)
    requires ValidBuffer(lines)
    ensures UnwrapAll(lines, l, n).threw <==> Throws(lines, l, n)
    decreases |lines| - l
  {
    hide UnwrapStep, ThrowsAt;
    if Roomy(lines, l, n) {
      UnwrapStepThrows(lines, l, n);
      var round := UnwrapStep(lines, l, n);
      if !round.done {
        UnwrapThrows(round.lines, l + 1, n);
      }
    }
  }

  /** Unwrapping marks no line as kludge-wrapped. */
  lemma {:induction false} UnwrapKeepsUnkludged(lines: Buffer, l: nat, n: nat)
    requires ValidBuffer(lines) && Unkludged(lines)
    ensures Unkludged(UnwrapAll(lines, l, n).lines)
    decreases |lines| - l
  {
    if Roomy(lines, l, n) {
      var round := UnwrapStep(lines, l, n);
      assert Mend(lines, l, n) == lines;
      if !round.done {
        UnwrapKeepsUnkludged(round.lines, l + 1, n);
      }
    }
  }

  // ---------------------------------------------------------------------------------------------
  // The layout
  // ---------------------------------------------------------------------------------------------

  /** What a round takes from `nx` where `room` is left: as many whole words as fit, with the white space after them. */
  ghost predicate TakesWords(nx: string, taken: nat, room: nat) {
    if exists k: nat :: WordsEndAt(nx, room, k) then
      exists k: nat :: WordsEndAt(nx, room, k) && taken == RunEnd(nx, k) && forall j: nat :: k < j ==> !WordsEndAt(nx, room, j)
    else taken == 0
  }

  lemma WordsTaken(nx: string, room: nat)
    ensures TakesWords(nx, WordsCut(nx, room), room)
  {
    WordsCutIsGreedy(nx, room);
    if k: nat :| WordsEndAt(nx, room, k) {
      assert RunEnd(nx, k) >= k;
    }
  }

  /**
   A round on a line that is not kludge-wrapped: it takes that from the next line, which is spliced out if nothing
   stays on it; the loop goes on if it took something.
   */
  lemma RoundTakesWords(lines: Buffer, l: nat, n: nat)
    requires ValidBuffer(lines) && Roomy(lines, l, n) && !lines[l].kludged
    ensures var r := UnwrapStep(lines, l, n);
      var nx := lines[l + 1].text;
      var taken := if r.moved == -1 then 0 else r.moved;
      && 0 <= taken <= |nx| && TakesWords(nx, taken, n - |lines[l].text|)
      && r.done == (taken == 0) && !r.threw && (r.moved == -1 <==> taken == 0)
      && r.lines[l].text == lines[l].text + nx[..taken]
      && (if taken == |nx| then |r.lines| == |lines| - 1 && r.lines[l].hardcr == lines[l + 1].hardcr
          else |r.lines| == |lines| && r.lines[l + 1].text == nx[taken..])
  {
    hide WordsCut, TakesWords;
    var room := n - |lines[l].text|;
    WordsTaken(lines[l + 1].text, room);
    assert Mend(lines, l, n) == lines;
    PullAt(lines, l, WordsCut(lines[l + 1].text, room));
    PlainFits(lines, l);
  }

  lemma MendFits(lines: Buffer, l: nat, n: nat)
    requires ValidBuffer(lines) && Roomy(lines, l, n)
    ensures Trimmed(Mend(lines, l, n)[l].text) <= n
  {
    var k := MendCut(lines, l, n);
    MendDoc(lines, l, n);
    if k > 0 {
      TakenFits(lines[l].text, lines[l + 1].text, k, n - |lines[l].text|);
    }
  }

  lemma FillFits(mid: Buffer, l: nat, room: int, k1: nat, n: nat)
    requires ValidBuffer(mid) && l < |mid| && |mid[l].text| + room <= n && Trimmed(mid[l].text) <= n
    ensures Trimmed(Fill(mid, l, room, k1).lines[l].text) <= n
  {
    PlainFits(mid, l);
    if room >= 1 && l + 1 < |mid| {
      var k2 := WordsCut(mid[l + 1].text, room);
      if k2 > 0 {
        TakenFits(mid[l].text, mid[l + 1].text, k2, room);
        PullAt(mid, l, k2);
      }
    }
  }

  lemma UnwrapStepFits(lines: Buffer, l: nat, n: nat)
    requires ValidBuffer(lines) && Roomy(lines, l, n)
    ensures Trimmed(UnwrapStep(lines, l, n).lines[l].text) <= n
  {
    hide Mend, Fill;
    MendFits(lines, l, n);
    MendDoc(lines, l, n);
    var k1 := MendCut(lines, l, n);
    FillFits(Mend(lines, l, n), l, n - |lines[l].text| - k1, k1, n);
  }

  lemma PullAt(lines: Buffer, l: nat, k: nat)
    requires ValidBuffer(lines) && l + 1 < |lines| && k <= |lines[l + 1].text|
    ensures Pull(lines, l, k)[l].text == lines[l].text + lines[l + 1].text[..k]
    ensures forall i :: 0 <= i < l ==> Pull(lines, l, k)[i] == lines[i]
  {
  }

  lemma PlainFits(mid: Buffer, l: nat)
    requires ValidBuffer(mid) && l < |mid|
    ensures var plain := SetKludged(mid, l, false);
            && plain[l].text == mid[l].text
            && (l + 1 < |plain| ==> plain[l + 1] == mid[l + 1])
            && (l + 1 < |plain| && plain[l + 1].text == "" ==> Pull(plain, l, 0)[l].text == mid[l].text)
  {
    var plain := SetKludged(mid, l, false);
    if l + 1 < |plain| && plain[l + 1].text == "" {
      PullAt(plain, l, 0);
      assert plain[l].text + plain[l + 1].text[..0] == plain[l].text;
    }
  }

  lemma UnwrapStepAbove(lines: Buffer, l: nat, n: nat, i: nat)
    requires ValidBuffer(lines) && Roomy(lines, l, n) && i < l
    ensures UnwrapStep(lines, l, n).lines[i] == lines[i]
  {
    var mid := Mend(lines, l, n);
    PullAt(lines, l, MendCut(lines, l, n));
    assert mid[i] == lines[i];
  }

  lemma {:induction false} UnwrapLeavesAbove(lines: Buffer, l: nat, n: nat, i: nat)
    requires ValidBuffer(lines) && i < l && i < |lines|
    ensures i < |UnwrapAll(lines, l, n).lines| && UnwrapAll(lines, l, n).lines[i] == lines[i]
    decreases |lines| - l
  {
    hide UnwrapStep;
    if Roomy(lines, l, n) {
      var round := UnwrapStep(lines, l, n);
      UnwrapStepAbove(lines, l, n, i);
      if !round.done {
        UnwrapLeavesAbove(round.lines, l + 1, n, i);
      }
    }
  }

  /** No line that receives text is ever made longer than the screen is wide. */
  lemma {:induction false} UnwrapFits(lines: Buffer, l: nat, n: nat, i: nat)
    requires ValidBuffer(lines) && l <= i < UnwrapAll(lines, l, n).stop
    ensures i < |UnwrapAll(lines, l, n).lines|
    ensures Trimmed(UnwrapAll(lines, l, n).lines[i].text) <= n
    decreases |lines| - l
  {
    hide UnwrapStep, Trimmed;
    var round := UnwrapStep(lines, l, n);
    UnwrapStepFits(lines, l, n);
    if !round.done {
      if i == l {
        UnwrapLeavesAbove(round.lines, l + 1, n, l);
      } else {
        UnwrapFits(round.lines, l + 1, n, i);
      }
    }
  }

  /** Mending leaves the mark only on a line it has filled to the last character. */
  lemma MendUnmarks(lines: Buffer, l: nat, n: nat)
    requires ValidBuffer(lines) && Roomy(lines, l, n)
    ensures Mend(lines, l, n)[l].kludged ==> MendCut(lines, l, n) == n - |lines[l].text|
  {
    hide UnkludgeCut;
    var (text, room) := (lines[l + 1].text, n - |lines[l].text|);
    var k := MendCut(lines, l, n);
    if k > 0 {
      PullAt(lines, l, k);
      if k < |text| && forall i :: 0 <= i < k ==> !IsSpace(text[i]) {
        UnkludgeCutIsGreedy(text, room);
        RunEndIs(text, k, k);
      }
    }
  }

  lemma FillUnmarks(mid: Buffer, l: nat, room: int, k1: nat)
    requires ValidBuffer(mid) && l < |mid| && (mid[l].kludged ==> room < 1)
    ensures !Fill(mid, l, room, k1).lines[l].kludged
  {
    hide WordsCut;
  }

  lemma StepUnmarks(lines: Buffer, l: nat, n: nat)
    requires ValidBuffer(lines) && Roomy(lines, l, n)
    ensures !UnwrapStep(lines, l, n).lines[l].kludged
  {
    hide Mend, MendCut, Fill;
    MendUnmarks(lines, l, n);
    FillUnmarks(Mend(lines, l, n), l, n - |lines[l].text| - MendCut(lines, l, n), MendCut(lines, l, n));
  }

  /** Every line that unwrapping comes to loses its mark. */
  lemma {:induction false} UnwrapUnmarks(lines: Buffer, l: nat, n: nat, i: nat)
    requires ValidBuffer(lines) && l <= i < UnwrapAll(lines, l, n).stop
    ensures i < |UnwrapAll(lines, l, n).lines| && !UnwrapAll(lines, l, n).lines[i].kludged
    decreases |lines| - l
  {
    hide UnwrapStep;
    var round := UnwrapStep(lines, l, n);
    StepUnmarks(lines, l, n);
    if !round.done {
      if i == l {
        UnwrapLeavesAbove(round.lines, l + 1, n, l);
      } else {
        UnwrapUnmarks(round.lines, l + 1, n, i);
      }
    }
  }
}
