/**
 The word wrap of the IRC client's message window (exec/irc.js:1209-1251). A line carries Ctrl-A colour
 codes: a Ctrl-A and the character after it take no room on screen.
 */
module IrcWrap {

  const CTRL_A: char := '\U{0001}'

  /** The text the terminal shows: everything but the colour codes. */
  function Show(s: string): string {
    if s == "" then ""
    else if s[0] == CTRL_A then (if |s| == 1 then "" else Show(s[2..]))
    else [s[0]] + Show(s[1..])
  }

  /** Position `k` is not inside a colour code when `s` is read from its start. */
  predicate Reached(s: string, k: nat) {
    if k == 0 then true
    else if s == "" then false
    else if s[0] == CTRL_A then k >= 2 && |s| >= 2 && Reached(s[2..], k - 2)
    else Reached(s[1..], k - 1)
  }

  /** A space that is shown, as opposed to one that is the second half of a colour code. */
  predicate Blank(s: string, k: int) {
    0 <= k < |s| && s[k] == ' ' && Reached(s, k)
  }

  /** The last shown space at or before `k`, -1 if there is none. */
  function LastBlank(s: string, k: int): (b: int)
    ensures -1 <= b
    ensures b >= 0 ==> b <= k && Blank(s, b)
    ensures forall m: int {:trigger Blank(s, m)} :: b < m <= k ==> !Blank(s, m)
    decreases k + 1
  {
    if k < 0 then -1 else if Blank(s, k) then k else LastBlank(s, k - 1)
  }

  /**
   Where the scan meets the cell after the first `n`; the end of the text counts as one more cell. |s| + 1 if it
   does not get that far, which includes a text that ends in a lone Ctrl-A.
   */
  function Stop(s: string, n: nat): (j: nat)
    ensures j <= |s| + 1
  {
    if s == "" then (if n == 0 then 0 else 1)
    else if s[0] == CTRL_A then (if |s| == 1 then 2 else 2 + Stop(s[2..], n))
    else if n == 0 then 0 else 1 + Stop(s[1..], n - 1)
  }

  function Min(a: nat, b: nat): nat {
    if a <= b then a else b
  }

  /** The cells a line may fill before it is broken: the counter restarts at one after the first break. */
  function Room(first: bool): nat {
    if first then 78 else 77
  }

  /** Where a line that is too long is cut: after the last space in reach, else behind the cell that overflows. */
  function CutAt(s: string, first: bool): (c: nat)
    requires Stop(s, Room(first)) <= |s|
    ensures c <= |s|
    ensures s != "" ==> c > 0
  {
    var j := Stop(s, Room(first));
    var b := LastBlank(s, j);
    if b >= 0 then b + 1
    else if first then Min(1, |s|) else Min(j + 1, |s|)
  }

  /** The lines that a text over 78 characters is printed as. */
  function Wrapped(s: string, first: bool): (r: seq<string>)
    decreases |s|
  {
    if Stop(s, Room(first)) > |s| then [s]
    else [s[..CutAt(s, first)]] + Wrapped(s[CutAt(s, first)..], false)
  }

  function Printed(s: string): seq<string> {
    if |s| <= 78 then [s] else Wrapped(s, true)
  }

  function Concat(parts: seq<string>): string {
    if parts == [] then "" else parts[0] + Concat(parts[1..])
  }

  /** What the reader sees of lines that are printed one by one. */
  function Shown(parts: seq<string>): string {
    if parts == [] then "" else Show(parts[0]) + Shown(parts[1..])
  }

  // ---------------------------------------------------------------------------------------------
  // Nothing is lost
  // ---------------------------------------------------------------------------------------------

  lemma {:induction false} WrappedKeepsText(s: string, first: bool)
    ensures Concat(Wrapped(s, first)) == s
    decreases |s|
  {
    if Stop(s, Room(first)) > |s| {
      assert Concat([s]) == s + Concat([]);
    } else {
      var c := CutAt(s, first);
      WrappedKeepsText(s[c..], false);
      var rest := Wrapped(s[c..], false);
      assert ([s[..c]] + rest)[1..] == rest;
      assert s[..c] + s[c..] == s;
    }
  }

  /** Whatever the wrapping does, the printed lines joined together are the line. */
  lemma {:induction false} TextKept(s: string)
    ensures Concat(Printed(s)) == s
  {
    if |s| > 78 {
      WrappedKeepsText(s, true);
    } else {
      assert Concat([s]) == s + Concat([]);
    }
  }

  // ---------------------------------------------------------------------------------------------
  // Where the breaks fall
  // ---------------------------------------------------------------------------------------------

  lemma ShowStep(s: string)
    requires s != ""
    ensures if s[0] != CTRL_A then Show(s) == [s[0]] + Show(s[1..]) else |s| >= 2 ==> Show(s) == Show(s[2..])
  {
  }

  lemma ShowEmpty()
    ensures Show("") == ""
  {
  }

  /** The cells before a place, in terms of the cells before it once the first step of the scan is taken. */
  lemma ShowBefore(s: string, w: nat, j: nat)
    requires s != "" && w == (if s[0] == CTRL_A then 2 else 1) && w <= j <= |s|
    ensures |Show(s[..j])| == (if s[0] == CTRL_A then 0 else 1) + |Show(s[w..][..j - w])|
  {
    hide Show;
    ShowStep(s[..j]);
    assert s[..j][w..] == s[w..][..j - w];
  }

  lemma {:induction false} StopIs(s: string, n: nat)
    ensures var j := Stop(s, n);
      if j <= |s| then Reached(s, j) && |Show(s[..j])| == n && (j < |s| ==> s[j] != CTRL_A)
      else |Show(s)| <= n
  {
    var j := Stop(s, n);
    if s == "" || (s[0] != CTRL_A && n == 0) || s == [CTRL_A] {
      assert j == 0 ==> s[..j] == "";
    } else {
      hide Show;
      var w := if s[0] == CTRL_A then 2 else 1;
      StopIs(s[w..], if s[0] == CTRL_A then n else n - 1);
      if j <= |s| {
        ShowBefore(s, w, j);
        assert j < |s| ==> s[j] == s[w..][j - w];
      } else {
        ShowStep(s);
      }
    }
  }

  /** The scan moves on by one cell, or by a whole colour code. */
  lemma {:induction false} ReachedNext(s: string, k: nat)
    requires Reached(s, k)
    ensures k <= |s|
    ensures k < |s| && s[k] != CTRL_A ==> Reached(s, k + 1)
    ensures k + 1 < |s| && s[k] == CTRL_A ==> Reached(s, k + 2) && !Reached(s, k + 1)
  {
    if k > 0 {
      if s[0] == CTRL_A {
        ReachedNext(s[2..], k - 2);
      } else {
        ReachedNext(s[1..], k - 1);
      }
    }
  }

  lemma {:induction false} ShowSplit(s: string, k: nat)
    requires Reached(s, k)
    ensures k <= |s| && Show(s) == Show(s[..k]) + Show(s[k..])
  {
    hide Show;
    if k == 0 {
      assert s[0..] == s && Show(s[..0]) == "" by { ShowEmpty(); }
    } else if s[0] == CTRL_A {
      ShowSplit(s[2..], k - 2);
      ShowStep(s);
      ShowStep(s[..k]);
      assert s[..k][2..] == s[2..][..k - 2] && s[k..] == s[2..][k - 2..];
    } else {
      ShowSplit(s[1..], k - 1);
      ShowStep(s);
      ShowStep(s[..k]);
      assert s[..k][1..] == s[1..][..k - 1] && s[k..] == s[1..][k - 1..];
    }
  }

  lemma ReachedOnwards(s: string, k: nat)
    requires Reached(s, k)
    ensures k <= |s|
    ensures Show(s) == Show(s[..k]) + Show(s[k..])
    ensures k < |s| && s[k] != CTRL_A ==> Reached(s, k + 1)
  {
    hide Reached, Show;
    ReachedNext(s, k);
    ShowSplit(s, k);
  }

  /** A row is broken only when it is full: at its 79th cell, on later rows the 78th, the end of the line counting as one. */
  lemma BrokenRowIsFull(s: string, first: bool)
    ensures var j := Stop(s, Room(first));
      if j <= |s| then |Show(s[..j])| == (if first then 78 else 77) && Reached(s, j) && CutAt(s, first) <= j + 1
      else |Show(s)| <= if first then 78 else 77
  {
    StopIs(s, Room(first));
  }

  lemma {:induction false} ReachedInPrefix(s: string, m: nat, k: nat)
    requires k <= m <= |s|
    ensures Reached(s[..m], k) == Reached(s, k)
  {
    if k > 0 {
      if s[0] == CTRL_A {
        if k >= 2 {
          ReachedInPrefix(s[2..], m - 2, k - 2);
          assert s[..m][2..] == s[2..][..m - 2];
        }
      } else {
        ReachedInPrefix(s[1..], m - 1, k - 1);
        assert s[..m][1..] == s[1..][..m - 1];
      }
    }
  }

  /** The cells before one reached position are among those before a later one. */
  lemma ShowGrows(s: string, k: nat, m: nat)
    requires k <= m <= |s| && Reached(s, k)
    ensures |Show(s[..k])| <= |Show(s[..m])|
  {
    ReachedInPrefix(s, m, k);
    ReachedOnwards(s[..m], k);
    assert s[..m][..k] == s[..k];
  }

  lemma OneMore(s: string, k: nat)
    requires k < |s| && s[k] != CTRL_A && Reached(s, k)
    ensures |Show(s[..k + 1])| == |Show(s[..k])| + 1
  {
    ReachedInPrefix(s, k + 1, k);
    ReachedOnwards(s[..k + 1], k);
    assert s[..k + 1][..k] == s[..k];
    assert s[..k + 1][k..] == [s[k]];
    assert [s[k]][1..] == "";
  }

  /**
   A break comes after the last space in reach if there is one, so it splits no word. A run without a space is
   broken when its row is full (78 cells), but on the first row after a single character.
   */
  lemma CutIsGreedy(s: string, first: bool)
    requires Stop(s, Room(first)) <= |s|
    ensures var j, c := Stop(s, Room(first)), CutAt(s, first);
      && ((exists m: int :: m <= j && Blank(s, m)) ==>
            c > 0 && Blank(s, c - 1) && c - 1 <= j && forall m: int :: c <= m <= j ==> !Blank(s, m))
      && ((forall m: int :: m <= j ==> !Blank(s, m)) ==>
            if first then c == 1 else c == |s| || (|Show(s[..c])| == 78 && Reached(s, c)))
  {
    var j := Stop(s, Room(first));
    StopIs(s, Room(first));
    if j < |s| {
      OneMore(s, j);
      ReachedOnwards(s, j);
    }
  }

  lemma {:induction false} ShowFits(s: string)
    ensures |Show(s)| <= |s|
  {
    if s != "" && s[0] == CTRL_A {
      if |s| > 1 {
        ShowFits(s[2..]);
      }
    } else if s != "" {
      ShowFits(s[1..]);
    }
  }

  lemma ReachedZero(s: string)
    ensures Reached(s, 0)
  {
  }

  lemma ReachedOne(s: string)
    requires s != ""
    ensures Reached(s, 1) <==> s[0] != CTRL_A
  {
  }

  lemma CutFits(s: string, first: bool)
    requires Stop(s, Room(first)) <= |s|
    ensures |Show(s[..CutAt(s, first)])| <= Room(first) + 1
    ensures Reached(s, CutAt(s, first)) <==>
            !(first && s[0] == CTRL_A && LastBlank(s, Stop(s, Room(first))) < 0)
  {
    hide Show, Reached, Stop, LastBlank;
    var j, c := Stop(s, Room(first)), CutAt(s, first);
    var b := LastBlank(s, j);
    StopIs(s, Room(first));
    ShowFits(s[..c]);
    ShowFits(s[..j]);
    if b >= 0 {
      ReachedOnwards(s, b);
      if b < j {
        ShowGrows(s, c, j);
      } else {
        OneMore(s, j);
      }
    } else if first {
      ReachedOne(s);
    } else if j < |s| {
      ReachedOnwards(s, j);
      OneMore(s, j);
    }
  }

  // ---------------------------------------------------------------------------------------------
  // What is shown
  // ---------------------------------------------------------------------------------------------

  lemma {:induction false} WrappedFits(s: string, first: bool)
    ensures Wrapped(s, first) != []
    ensures |Show(Wrapped(s, first)[0])| <= Room(first) + 1
    ensures forall k :: 1 <= k < |Wrapped(s, first)| ==> |Show(Wrapped(s, first)[k])| <= 78
    decreases |s|
  {
    if Stop(s, Room(first)) > |s| {
      StopIs(s, Room(first));
    } else {
      CutFits(s, first);
      WrappedFits(s[CutAt(s, first)..], false);
    }
  }

  /** No printed line is wider than the terminal's 79 usable columns, and none after the first than 78. */
  lemma LinesFit(s: string)
    ensures forall k :: 0 <= k < |Printed(s)| ==> |Show(Printed(s)[k])| <= if k == 0 then 79 else 78
  {
    if |s| <= 78 {
      ShowFits(s);
    } else {
      WrappedFits(s, true);
    }
  }

  lemma {:induction false} WrappedShows(s: string)
    ensures Shown(Wrapped(s, false)) == Show(s)
    decreases |s|
  {
    if Stop(s, 77) > |s| {
      assert Shown([s]) == Show(s) + Shown([]);
    } else {
      var c := CutAt(s, false);
      CutFits(s, false);
      ReachedOnwards(s, c);
      WrappedShows(s[c..]);
      assert ([s[..c]] + Wrapped(s[c..], false))[1..] == Wrapped(s[c..], false);
    }
  }

  /** A leading colour code is torn apart: the line is over 78 characters and no space is in the first row's reach. */
  predicate Severed(s: string) {
    |s| > 78 && s[0] == CTRL_A && Stop(s, 78) <= |s| && LastBlank(s, Stop(s, 78)) < 0
  }

  lemma {:induction false} OffByOne(s: string)
    requires s != "" && s[0] == CTRL_A && Show(s) != ""
    ensures |Show(s[1..])| != |Show(s)|
  {
    if s[1] == CTRL_A {
      var t := s[2..];
      assert s[1..][2..] == t[1..];
      if t[0] == CTRL_A {
        OffByOne(t);
      }
    } else {
      assert s[1..][1..] == s[2..];
    }
  }

  /**
   The wrapped lines show the text of the line, no more and no less, unless a leading colour code was torn
   apart; in that one case they do not.
   */
  lemma ShownExact(s: string)
    ensures Shown(Printed(s)) == Show(s) <==> !Severed(s)
  {
    if |s| <= 78 {
      assert Shown([s]) == Show(s) + Shown([]);
    } else if Stop(s, 78) > |s| {
      assert Shown([s]) == Show(s) + Shown([]);
    } else {
      var c := CutAt(s, true);
      CutFits(s, true);
      WrappedShows(s[c..]);
      assert ([s[..c]] + Wrapped(s[c..], false))[1..] == Wrapped(s[c..], false);
      if Reached(s, c) {
        ReachedOnwards(s, c);
      } else {
        assert Show(s[..1]) == "";
        StopIs(s, 78);
        ShowGrows(s, Stop(s, 78), |s|);
        assert s[..|s|] == s;
        OffByOne(s);
      }
    }
  }

  // ---------------------------------------------------------------------------------------------
  // The scanning loop
  // ---------------------------------------------------------------------------------------------

  /** The part of the line that is not printed yet. */
  function Rest(line: string, linestart: nat): string {
    line[Min(linestart, |line|)..]
  }

  /** How the loop's four indices describe a scan of the rest of the line that has come to `j`. */
  ghost predicate Scanning(line: string, linestart: nat, j: nat, i: nat, lastspace: nat) {
    var s, first := Rest(line, linestart), linestart == 0;
    && i <= 78
    && linestart <= j <= |line| + 1
    && (j > |line| ==> Stop(s, Room(first)) > |s|)
    && (j <= |line| ==>
          && Reached(s, j - linestart)
          && Stop(s, Room(first)) == j - linestart + Stop(s[j - linestart..], 78 - i)
          && (if first && LastBlank(s, j - 1) < 0 then lastspace == 0
              else lastspace == linestart + LastBlank(s, j - linestart - 1)))
  }

  lemma {:induction false} LastBlankNone(s: string, k: int, m: int)
    requires -1 <= k <= m
    requires forall x: int :: k < x <= m ==> !Blank(s, x)
    ensures LastBlank(s, m) == LastBlank(s, k)
  {
    if m > k {
      LastBlankNone(s, k, m - 1);
    }
  }

  lemma ScanCode(line: string, linestart: nat, j: nat, i: nat, lastspace: nat)
    requires Scanning(line, linestart, j, i, lastspace) && j < |line| && line[j] == CTRL_A
    ensures Scanning(line, linestart, j + 2, i, lastspace)
  {
    hide Reached;
    var s, p := Rest(line, linestart), j - linestart;
    assert s[p..][0] == CTRL_A;
    ReachedNext(s, p);
    if j + 1 < |line| {
      assert s[p..][2..] == s[p + 2..];
      LastBlankNone(s, p - 1, p + 1);
    }
  }

  lemma ScanCell(line: string, linestart: nat, j: nat, i: nat, lastspace: nat, lastspace': nat)
    requires Scanning(line, linestart, j, i, lastspace) && j <= |line| && i < 78
    requires j < |line| ==> line[j] != CTRL_A
    requires lastspace' == if j < |line| && line[j] == ' ' then j else lastspace
    ensures Scanning(line, linestart, j + 1, i + 1, lastspace')
  {
    hide Reached;
    var s, p := Rest(line, linestart), j - linestart;
    if j < |line| {
      ReachedNext(s, p);
      assert s[p..][1..] == s[p + 1..];
      if line[j] == ' ' {
        assert Blank(s, p);
      } else {
        LastBlankNone(s, p - 1, p);
      }
    } else {
      assert s[p..] == "";
    }
  }

  function Substring(line: string, from: nat, to: nat): string
    requires from <= to
  {
    line[Min(from, |line|)..Min(to, |line|)]
  }

  /** A full row is cut where `CutAt` says. */
  lemma CutFound(line: string, linestart: nat, j: nat, i: nat, lastspace: nat, cut: int)
    requires Scanning(line, linestart, j, i, lastspace) && j <= |line| && i == 78
    requires j < |line| ==> line[j] != CTRL_A
    requires cut == if j < |line| && line[j] == ' ' then j else if lastspace == linestart - 1 then j else lastspace
    ensures var s, first := Rest(line, linestart), linestart == 0;
      && linestart <= cut <= j
      && Stop(s, Room(first)) <= |s|
      && CutAt(s, first) == Min(cut + 1, |line|) - linestart
  {
    hide Reached, Show;
    var s, p, first := Rest(line, linestart), j - linestart, linestart == 0;
    assert Stop(s[p..], 0) == 0 by {
      assert j < |line| ==> s[p..][0] == line[j];
    }
    StopIs(s, Room(first));
    ShowFits(s[..p]);
    if j < |line| && line[j] == ' ' {
      assert Blank(s, p);
    } else {
      LastBlankNone(s, p - 1, p);
    }
  }

  /** Behind the cut the scan starts over with its counter at one. */
  lemma ScanBreak(line: string, linestart: nat, j: nat, i: nat, lastspace: nat, cut: nat)
    requires Scanning(line, linestart, j, i, lastspace) && j <= |line| && i == 78
    requires j < |line| ==> line[j] != CTRL_A
    requires cut == if j < |line| && line[j] == ' ' then j else if lastspace == linestart - 1 then j else lastspace
    ensures linestart <= cut <= j && Stop(Rest(line, linestart), Room(linestart == 0)) <= |Rest(line, linestart)|
    ensures Substring(line, linestart, cut + 1) == Rest(line, linestart)[..CutAt(Rest(line, linestart), linestart == 0)]
    ensures Wrapped(Rest(line, linestart), linestart == 0)
            == [Substring(line, linestart, cut + 1)] + Wrapped(Rest(line, cut + 1), false)
    ensures Scanning(line, cut + 1, cut + 1, 1, cut)
  {
    hide Reached, LastBlank, CutAt;
    CutFound(line, linestart, j, i, lastspace, cut);
    var s, c := Rest(line, linestart), CutAt(Rest(line, linestart), linestart == 0);
    assert Rest(line, cut + 1) == s[c..];
    Restart(line, cut + 1);
  }

  lemma Restart(line: string, linestart: nat)
    requires 1 <= linestart <= |line| + 1
    ensures Scanning(line, linestart, linestart, 1, linestart - 1)
  {
    hide Reached;
    var s := Rest(line, linestart);
    assert s[0..] == s;
    ReachedZero(s);
  }

  lemma ScanStart(line: string)
    ensures Scanning(line, 0, 0, 0, 0) && Rest(line, 0) == line
  {
    assert line[0..] == line;
  }

  /** A string of colour codes only. */
  predicate Codes(s: string) {
    s == "" || (|s| >= 2 && s[0] == CTRL_A && Codes(s[2..]))
  }

  lemma {:induction false} CodesShowNothing(s: string, t: string)
    requires Codes(s)
    ensures Show(s + t) == Show(t)
  {
    if s == "" {
      assert s + t == t;
    } else {
      CodesShowNothing(s[2..], t);
      assert (s + t)[2..] == s[2..] + t;
    }
  }

  /** shift and push, once for every line. */
  function Scrolled(buffer: seq<string>, added: seq<string>): seq<string>
    decreases |added|
  {
    if added == [] then buffer
    else Scrolled((if buffer == [] then [] else buffer[1..]) + [added[0]], added[1..])
  }

  /** The window holds the last lines of everything that was ever put in it. */
  lemma {:induction false} WindowIsTail(buffer: seq<string>, added: seq<string>)
    requires buffer != []
    ensures Scrolled(buffer, added) == (buffer + added)[|added|..]
    decreases |added|
  {
    if added == [] {
      assert buffer + added == buffer;
    } else {
      var next := buffer[1..] + [added[0]];
      WindowIsTail(next, added[1..]);
      assert next + added[1..] == (buffer + added)[1..];
    }
  }

  lemma {:induction false} ScrolledOne(buffer: seq<string>, added: seq<string>, x: string)
    ensures Scrolled(buffer, added + [x]) ==
            (var b := Scrolled(buffer, added); (if b == [] then [] else b[1..]) + [x])
    decreases |added|
  {
    if added == [] {
      assert added + [x] == [x];
      assert [x][1..] == [];
    } else {
      ScrolledOne((if buffer == [] then [] else buffer[1..]) + [added[0]], added[1..], x);
      assert (added + [x])[1..] == added[1..] + [x];
    }
  }

  /** Each line sent is its piece behind a prefix that shows nothing. */
  ghost predicate Carries(sent: seq<string>, pieces: seq<string>) {
    && |sent| == |pieces|
    && forall k :: 0 <= k < |sent| ==>
         && Show(sent[k]) == Show(pieces[k])
         && |pieces[k]| <= |sent[k]|
         && sent[k][|sent[k]| - |pieces[k]|..] == pieces[k]
  }

  // ---------------------------------------------------------------------------------------------
  // Colours carried over
  // ---------------------------------------------------------------------------------------------

  /** The colour codes the scan passes on its way to `j`. */
  function CodesTo(s: string, j: nat): string {
    if s == "" || j == 0 then ""
    else if s[0] != CTRL_A then CodesTo(s[1..], j - 1)
    else if |s| == 1 || j == 1 then ""
    else s[..2] + CodesTo(s[2..], j - 2)
  }

  lemma {:induction false} CodesNext(s: string, k: nat)
    requires Reached(s, k)
    ensures k <= |s|
    ensures k < |s| && s[k] != CTRL_A ==> CodesTo(s, k + 1) == CodesTo(s, k)
    ensures k + 1 < |s| && s[k] == CTRL_A ==> CodesTo(s, k + 2) == CodesTo(s, k) + s[k..k + 2]
  {
    if k == 0 {
      if |s| >= 2 && s[0] == CTRL_A {
        assert CodesTo(s, 2) == s[..2] + CodesTo(s[2..], 0);
      }
    } else if s[0] == CTRL_A {
      CodesNext(s[2..], k - 2);
      if k + 1 < |s| && s[k] == CTRL_A {
        assert s[2..][k - 2..k] == s[k..k + 2];
      }
    } else {
      CodesNext(s[1..], k - 1);
      if k + 1 < |s| && s[k] == CTRL_A {
        assert s[1..][k - 1..k + 1] == s[k..k + 2];
      }
    }
  }

  /** They are colour codes only, and there are none exactly if there is no Ctrl-A on the way. */
  lemma {:induction false} CodesToIs(s: string, j: nat)
    requires Reached(s, j)
    ensures j <= |s| && Codes(CodesTo(s, j))
    ensures CodesTo(s, j) == "" <==> CTRL_A !in s[..j]
  {
    if j > 0 {
      if s[0] == CTRL_A {
        CodesToIs(s[2..], j - 2);
        assert (s[..2] + CodesTo(s[2..], j - 2))[2..] == CodesTo(s[2..], j - 2);
        assert s[..j][0] == CTRL_A;
      } else {
        CodesToIs(s[1..], j - 1);
        assert s[..j] == [s[0]] + s[1..][..j - 1];
      }
    }
  }

  lemma {:induction false} CodesConcat(a: string, b: string)
    requires Codes(a) && Codes(b)
    ensures Codes(a + b)
  {
    if a == "" {
      assert a + b == b;
    } else {
      CodesConcat(a[2..], b);
      assert (a + b)[2..] == a[2..] + b;
    }
  }

  /** The colours in force after a broken row: those before it, and the codes passed while looking for its end. */
  function Carried(s: string, first: bool, colour: string): string {
    colour + CodesTo(s, Stop(s, Room(first)))
  }

  /** What goes to the console: each row behind the colours in force before it. */
  function PrintedRows(s: string, first: bool, colour: string): (r: seq<string>)
    decreases |s|
  {
    if Stop(s, Room(first)) > |s| then [colour + s]
    else
      var c := CutAt(s, first);
      [colour + s[..c]] + PrintedRows(s[c..], false, Carried(s, first, colour))
  }

  /** What goes into the window: a broken row behind the colours in force after it. */
  function StoredRows(s: string, first: bool, colour: string): (r: seq<string>)
    decreases |s|
  {
    if Stop(s, Room(first)) > |s| then [colour + s]
    else
      var c := CutAt(s, first);
      [Carried(s, first, colour) + s[..c]] + StoredRows(s[c..], false, Carried(s, first, colour))
  }

  function PrintedLines(s: string): seq<string> {
    if |s| <= 78 then [s] else PrintedRows(s, true, "")
  }

  function StoredLines(s: string): seq<string> {
    if |s| <= 78 then [s] else StoredRows(s, true, "")
  }

  /** A broken row in which, up to the cell that overflows it, there is a colour code. */
  predicate ColourInBrokenRow(s: string, first: bool)
    decreases |s|
  {
    Stop(s, Room(first)) <= |s| &&
    (CTRL_A in s[..Stop(s, Room(first))] || ColourInBrokenRow(s[CutAt(s, first)..], false))
  }

  lemma CarriedIs(s: string, first: bool, colour: string)
    requires Stop(s, Room(first)) <= |s| && Codes(colour)
    ensures Codes(Carried(s, first, colour))
    ensures Carried(s, first, colour) == colour <==> CTRL_A !in s[..Stop(s, Room(first))]
  {
    hide Reached, Codes, CodesTo, Show;
    var j := Stop(s, Room(first));
    StopIs(s, Room(first));
    CodesToIs(s, j);
    CodesConcat(colour, CodesTo(s, j));
    assert |Carried(s, first, colour)| == |colour| + |CodesTo(s, j)|;
    assert colour + "" == colour;
  }

  lemma BrokenNotEmpty(s: string, first: bool)
    requires Stop(s, Room(first)) <= |s|
    ensures s != ""
  {
  }

  /** Each row is its piece of the line behind a prefix that shows nothing, printed or stored. */
  lemma {:induction false} RowsCarry(s: string, first: bool, colour: string)
    requires Codes(colour)
    ensures Carries(PrintedRows(s, first, colour), Wrapped(s, first))
    ensures Carries(StoredRows(s, first, colour), Wrapped(s, first))
    decreases |s|
  {
    hide Stop, CutAt, Codes, Carried, Carries;
    if Stop(s, Room(first)) > |s| {
      CarriesOne(colour, s, [], []);
      assert [colour + s] + [] == [colour + s] && [s] + [] == [s];
    } else {
      BrokenNotEmpty(s, first);
      var c, next := CutAt(s, first), Carried(s, first, colour);
      CarriedIs(s, first, colour);
      RowsCarry(s[c..], false, next);
      CarriesOne(colour, s[..c], PrintedRows(s[c..], false, next), Wrapped(s[c..], false));
      CarriesOne(next, s[..c], StoredRows(s[c..], false, next), Wrapped(s[c..], false));
    }
  }

  lemma CarriesOne(colour: string, piece: string, rows: seq<string>, pieces: seq<string>)
    requires Codes(colour)
    ensures Carries([], [])
    ensures Carries(rows, pieces) ==> Carries([colour + piece] + rows, [piece] + pieces)
  {
    hide Show, Codes;
    CodesShowNothing(colour, piece);
  }

  /** Printed or stored, the rows show the pieces of the line. */
  lemma LinesCarry(s: string)
    ensures Carries(PrintedLines(s), Printed(s)) && Carries(StoredLines(s), Printed(s))
  {
    hide Show, Stop, PrintedRows, StoredRows, Wrapped;
    if |s| > 78 {
      assert Codes("");
      RowsCarry(s, true, "");
    }
  }

  lemma {:induction false} RowsAgree(s: string, first: bool, colour: string)
    requires Codes(colour)
    ensures PrintedRows(s, first, colour) == StoredRows(s, first, colour) <==> !ColourInBrokenRow(s, first)
    decreases |s|
  {
    hide Stop, CutAt, Codes, Carried;
    if Stop(s, Room(first)) <= |s| {
      BrokenNotEmpty(s, first);
      var c, next := CutAt(s, first), Carried(s, first, colour);
      CarriedIs(s, first, colour);
      RowsAgree(s[c..], false, next);
      var (p, q) := (PrintedRows(s, first, colour), StoredRows(s, first, colour));
      assert p[1..] == PrintedRows(s[c..], false, next) && q[1..] == StoredRows(s[c..], false, next);
      assert p == [p[0]] + p[1..] && q == [q[0]] + q[1..];
      assert p[0] == q[0] <==> colour == next by {
        assert p[0][..|colour|] == colour;
        if p[0] == q[0] {
          assert |colour| == |next|;
          assert q[0][..|next|] == next;
        }
      }
    }
  }

  /** The window holds what was printed exactly if no broken row has a colour code on the way to its end. */
  lemma StoredIsPrinted(s: string)
    ensures StoredLines(s) == PrintedLines(s) <==> |s| <= 78 || !ColourInBrokenRow(s, true)
  {
    if |s| > 78 {
      assert Codes("");
      RowsAgree(s, true, "");
    }
  }

  lemma {:induction false} PlainStop(s: string, n: nat)
    requires n <= |s| && CTRL_A !in s
    ensures Stop(s, n) == n
  {
    if n > 0 {
      PlainStop(s[1..], n - 1);
    }
  }

  /** A coloured word of 80 characters: its colour code is torn apart, and it is not stored as it is printed. */
  lemma LongColouredWord()
    ensures var s := [CTRL_A, 'R'] + seq(80, _ => 'x');
      Severed(s) && Shown(Printed(s)) != Show(s) && StoredLines(s) != PrintedLines(s)
  {
    var word := seq(80, _ => 'x');
    var s := [CTRL_A, 'R'] + word;
    assert s[2..] == word;
    PlainStop(word, 78);
    assert Stop(s, 78) == 80;
    assert s[..80][0] == CTRL_A;
    ShownExact(s);
    StoredIsPrinted(s);
  }

  // ---------------------------------------------------------------------------------------------
  // The method
  // ---------------------------------------------------------------------------------------------

  /** What is printed and stored so far, and what the rest of the line will add. */
  ghost predicate Pending(text: string, printed: seq<string>, stored: seq<string>, linestart: nat, colour: string) {
    var (s, first) := (Rest(text, linestart), linestart == 0);
    && printed + PrintedRows(s, first, colour) == PrintedRows(text, true, "")
    && stored + StoredRows(s, first, colour) == StoredRows(text, true, "")
  }

  /** `lastColour` is `colour` with the codes passed since the row began. */
  ghost predicate Passed(text: string, linestart: nat, j: nat, colour: string, lastColour: string) {
    linestart <= j <= |text| && lastColour == colour + CodesTo(Rest(text, linestart), j - linestart)
  }

  lemma NothingScrolled(buffer: seq<string>)
    ensures buffer == Scrolled(buffer, [])
  {
  }

  lemma PassStart(text: string)
    ensures Pending(text, [], [], 0, "") && Passed(text, 0, 0, "", "")
  {
    assert text[0..] == text;
  }

  lemma PassCode(text: string, linestart: nat, j: nat, i: nat, lastspace: nat, colour: string, lastColour: string)
    requires Scanning(text, linestart, j, i, lastspace) && Passed(text, linestart, j, colour, lastColour)
    requires j + 1 < |text| && text[j] == CTRL_A
    ensures Passed(text, linestart, j + 2, colour, lastColour + text[j..j + 2])
  {
    hide Reached, Stop, LastBlank, CodesTo;
    CodesNext(Rest(text, linestart), j - linestart);
    assert Rest(text, linestart)[j - linestart..j + 2 - linestart] == text[j..j + 2];
  }

  lemma PassCell(text: string, linestart: nat, j: nat, i: nat, lastspace: nat, colour: string, lastColour: string)
    requires Scanning(text, linestart, j, i, lastspace) && Passed(text, linestart, j, colour, lastColour)
    requires j < |text| && text[j] != CTRL_A
    ensures Passed(text, linestart, j + 1, colour, lastColour)
  {
    hide Reached, Stop, LastBlank, CodesTo;
    CodesNext(Rest(text, linestart), j - linestart);
  }

  /** A broken row: printed behind the old colours, stored behind the new ones. */
  lemma RowBroken(text: string, printed: seq<string>, stored: seq<string>, linestart: nat, j: nat, i: nat,
                  lastspace: nat, cut: nat, colour: string, lastColour: string)
    requires Scanning(text, linestart, j, i, lastspace) && j <= |text| && i == 78
    requires j < |text| ==> text[j] != CTRL_A
    requires cut == if j < |text| && text[j] == ' ' then j else if lastspace == linestart - 1 then j else lastspace
    requires Pending(text, printed, stored, linestart, colour) && Passed(text, linestart, j, colour, lastColour)
    ensures linestart <= cut <= j
    ensures var piece := Substring(text, linestart, cut + 1);
      Pending(text, printed + [colour + piece], stored + [lastColour + piece], cut + 1, lastColour)
    ensures cut + 1 <= |text| ==> Passed(text, cut + 1, cut + 1, lastColour, lastColour)
  {
    hide Reached, LastBlank, CutAt, Scanning, Stop, Wrapped, CodesTo;
    ScanBreak(text, linestart, j, i, lastspace, cut);
    CutFound(text, linestart, j, i, lastspace, cut);
    StopAt(text, linestart, j, i, lastspace);
    var (s, c, first) := (Rest(text, linestart), CutAt(Rest(text, linestart), linestart == 0), linestart == 0);
    assert Rest(text, cut + 1) == s[c..];
    assert Carried(s, first, colour) == lastColour;
    Rows(s, first, colour);
    Regroup(printed, colour + s[..c], PrintedRows(s[c..], false, lastColour));
    Regroup(stored, lastColour + s[..c], StoredRows(s[c..], false, lastColour));
    NoCodesYet(Rest(text, cut + 1), lastColour);
  }

  lemma Regroup(rows: seq<string>, row: string, rest: seq<string>)
    ensures (rows + [row]) + rest == rows + ([row] + rest)
  {
  }

  lemma Rows(s: string, first: bool, colour: string)
    requires Stop(s, Room(first)) <= |s|
    ensures var (c, next) := (CutAt(s, first), Carried(s, first, colour));
      && PrintedRows(s, first, colour) == [colour + s[..c]] + PrintedRows(s[c..], false, next)
      && StoredRows(s, first, colour) == [next + s[..c]] + StoredRows(s[c..], false, next)
  {
    hide Stop, CutAt, Carried;
  }

  lemma NoCodesYet(s: string, colour: string)
    ensures colour + CodesTo(s, 0) == colour
  {
  }

  lemma StopAt(text: string, linestart: nat, j: nat, i: nat, lastspace: nat)
    requires Scanning(text, linestart, j, i, lastspace) && j <= |text| && i == 78
    requires j < |text| ==> text[j] != CTRL_A
    ensures Stop(Rest(text, linestart), Room(linestart == 0)) == j - linestart
  {
    hide Reached, LastBlank;
    var (s, p) := (Rest(text, linestart), j - linestart);
    assert j < |text| ==> s[p..][0] == text[j];
  }

  lemma RowEnds(text: string, printed: seq<string>, stored: seq<string>, linestart: nat, j: nat, i: nat,
                lastspace: nat, colour: string)
    requires Scanning(text, linestart, j, i, lastspace) && j > |text|
    requires Pending(text, printed, stored, linestart, colour)
    ensures printed + [colour + Rest(text, linestart)] == PrintedRows(text, true, "")
    ensures stored + [colour + Rest(text, linestart)] == StoredRows(text, true, "")
  {
  }

  class Screen {
    var line: seq<string>

    constructor (rows: nat)
      ensures line == seq(rows, _ => "")
    {
      line := seq(rows, _ => "");
    }

    method Push(text: string)
      modifies this
      ensures line == (if old(line) == [] then [] else old(line)[1..]) + [text]
    {
      line := if line == [] then [] else line[1..];
      line := line + [text];
    }

    /**
     Screen_print_line once bold and mIRC codes are replaced: what goes to the console, and what is put into the
     window.  The colours carried over are brought up to date between the two.
     */
    method PrintLine(text: string) returns (printed: seq<string>, stored: seq<string>)
      modifies this
      ensures printed == PrintedLines(text) && stored == StoredLines(text)
      ensures line == Scrolled(old(line), stored)
    {
      hide Show, Stop, Reached, LastBlank, Blank, Scrolled, CutAt, Scanning, PrintedRows, StoredRows, Rest, CodesTo;
      hide Substring, Carried;
      var i, lastspace, linestart, j := 0, 0, 0, 0;
      var prevColour, lastColour := "", "";
      printed, stored := [], [];
      NothingScrolled(line);
      ScanStart(text);
      PassStart(text);
      if |text| > 78 {
        while j <= |text|
          invariant i <= 78 && linestart <= j <= |text| + 1
          invariant Scanning(text, linestart, j, i, lastspace)
          invariant Pending(text, printed, stored, linestart, prevColour)
          invariant j <= |text| ==> Passed(text, linestart, j, prevColour, lastColour)
          invariant line == Scrolled(old(line), stored)
          decreases |text| + 1 - linestart, |text| + 1 - j
        {
          hide Pending, Passed;
          if j < |text| && text[j] == CTRL_A {
            ScanCode(text, linestart, j, i, lastspace);
            if j + 1 < |text| {
              PassCode(text, linestart, j, i, lastspace, prevColour, lastColour);
            }
            lastColour := lastColour + text[j..if j + 2 <= |text| then j + 2 else |text|];
            j := j + 1;
          } else {
            ghost var before := lastspace;
            if j < |text| && text[j] == ' ' {
              lastspace := j;
            }
            if i >= 78 {
              if lastspace == linestart - 1 {
                lastspace := j;
              }
              ScanBreak(text, linestart, j, i, before, lastspace);
              RowBroken(text, printed, stored, linestart, j, i, before, lastspace, prevColour, lastColour);
              printed := printed + [prevColour + Substring(text, linestart, lastspace + 1)];
              prevColour := lastColour;
              var row := prevColour + Substring(text, linestart, lastspace + 1);
              ScrolledOne(old(line), stored, row);
              stored := stored + [row];
              Push(row);
              linestart := lastspace + 1;
              j := lastspace;
              i := 0;
            } else {
              ScanCell(text, linestart, j, i, before, lastspace);
              if j < |text| {
                PassCell(text, linestart, j, i, before, prevColour, lastColour);
              }
            }
            i := i + 1;
          }
          j := j + 1;
        }
        RowEnds(text, printed, stored, linestart, j, i, lastspace, prevColour);
      }
      if i <= 78 {
        var row := prevColour + Rest(text, linestart);
        assert "" + text == text;
        ScrolledOne(old(line), stored, row);
        printed, stored := printed + [row], stored + [row];
        Push(row);
      }
    }
  }
}
