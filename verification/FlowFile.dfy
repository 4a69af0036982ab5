/**
 BinkleyTerm flow files in the mailer (exec/binkit.js:239-268, 347-360, 553-597; FTS-5005): a flow file lists
 the files waiting for a node.  It is read when a session begins; entries are struck as files are sent; when
 the session ends the file is removed or rewritten.

 A flow file is the sequence of its lines.  Opening a file always succeeds.
 */
module FlowFile {

  // ---------------------------------------------------------------------------------------------
  // Lines
  // ---------------------------------------------------------------------------------------------

  /** A line that is skipped: already struck, or marked to be. */
  predicate Skipped(line: string) {
    line != "" && line[0] in {'~', '!'}
  }

  predicate HasDirective(line: string) {
    line != "" && line[0] in {'#', '^', '-', '@'}
  }

  /** The file a live line names: what follows its directive, if it has one. */
  function Name(line: string): string {
    if HasDirective(line) then line[1..] else line
  }

  predicate IsLive(line: string) {
    line != "" && !Skipped(line)
  }

  /** The lines of a flow file that wait to be sent, with their directives. */
  function Live(lines: seq<string>): seq<string> {
    if lines == [] then [] else if IsLive(lines[0]) then [lines[0]] + Live(lines[1..]) else Live(lines[1..])
  }

  function Names(lines: seq<string>): seq<string> {
    if lines == [] then [] else [Name(lines[0])] + Names(lines[1..])
  }

  /** The names that reading offers: the read loop ends at a blank line as it does at the end of the file. */
  function Offered(lines: seq<string>): seq<string> {
    if lines == [] || lines[0] == "" then []
    else if Skipped(lines[0]) then Offered(lines[1..]) else [Name(lines[0])] + Offered(lines[1..])
  }

  /** The live lines whose names were not sent. */
  function Unsent(lines: seq<string>, sent: set<string>): seq<string> {
    if lines == [] then [] else if Name(lines[0]) in sent then Unsent(lines[1..], sent) else [lines[0]] + Unsent(lines[1..], sent)
  }

  function Without(names: seq<string>, sent: set<string>): (r: seq<string>)
    ensures forall x :: x in r <==> x in names && x !in sent
  {
    if names == [] then [] else if names[0] in sent then Without(names[1..], sent) else [names[0]] + Without(names[1..], sent)
  }

  /** How `callout_done` writes a line back: an entry that is no longer waiting is struck with a '~'. */
  function Rewritten(line: string, waiting: seq<string>): string {
    if Skipped(line) || Name(line) in waiting then line else "~" + Name(line)
  }

  function Rewrite(lines: seq<string>, waiting: seq<string>): (r: seq<string>)
    ensures |r| == |lines| && forall i :: 0 <= i < |lines| ==> r[i] == Rewritten(lines[i], waiting)
  {
    if lines == [] then [] else [Rewritten(lines[0], waiting)] + Rewrite(lines[1..], waiting)
  }

  predicate NoBlank(lines: seq<string>) {
    forall i :: 0 <= i < |lines| ==> lines[i] != ""
  }

  // ---------------------------------------------------------------------------------------------
  // A session
  // ---------------------------------------------------------------------------------------------

  /** The flow file after a session in which the files `sent` were sent: gone, or rewritten. */
  datatype After = Gone | Kept(lines: seq<string>)

  function Session(lines: seq<string>, sent: set<string>): After {
    var waiting := Without(Offered(lines), sent);
    if waiting == [] then Gone else Kept(Rewrite(lines, waiting))
  }

  function LiveAfter(a: After): seq<string> {
    if a.Gone? then [] else Live(a.lines)
  }

  /** The live lines whose names are among `waiting`. */
  function Waiting(lines: seq<string>, waiting: seq<string>): seq<string> {
    if lines == [] then [] else if Name(lines[0]) in waiting then [lines[0]] + Waiting(lines[1..], waiting) else Waiting(lines[1..], waiting)
  }

  /** Rewriting keeps, of the live lines, exactly those that wait, as they were and in their order. */
  lemma {:induction false} RewriteLive(lines: seq<string>, waiting: seq<string>)
    ensures Live(Rewrite(lines, waiting)) == Waiting(Live(lines), waiting)
  {
    if lines != [] {
      RewriteLive(lines[1..], waiting);
      if IsLive(lines[0]) {
        assert ([lines[0]] + Live(lines[1..]))[1..] == Live(lines[1..]);
      }
    }
  }

  /**
   What a line is by its first character: after one of the four directives a file's name, already struck or marked,
   or a name as it stands.  A name is offered; a line whose name no longer waits is struck with a '~'.
   */
  lemma LineRead(x: char, name: string)
    ensures x in {'#', '^', '-', '@'} ==>
              Offered([[x] + name]) == [name] && Rewrite([[x] + name], []) == ["~" + name] && Rewrite([[x] + name], [name]) == [[x] + name]
    ensures x in {'~', '!'} ==> Offered([[x] + name]) == [] && Rewrite([[x] + name], []) == [[x] + name]
    ensures x !in {'#', '^', '-', '@', '~', '!'} ==>
              Offered([[x] + name]) == [[x] + name] && Rewrite([[x] + name], []) == ["~" + [x] + name]
              && Rewrite([[x] + name], [[x] + name]) == [[x] + name]
  {
    var line := [x] + name;
    var lines := [line];
    assert line[0] == x && line[1..] == name && lines[1..] == [];
    assert Offered([]) == [] && Rewrite([], []) == [];
    assert "~" + line == "~" + [x] + name;
  }

  /** Lines are read one after the other, as long as none is blank. */
  lemma {:induction false} OfferedConcat(a: seq<string>, b: seq<string>)
    requires NoBlank(a)
    ensures Offered(a + b) == Offered(a) + Offered(b)
  {
    if a == [] {
      assert a + b == b;
    } else {
      assert (a + b)[1..] == a[1..] + b;
      OfferedConcat(a[1..], b);
    }
  }

  /** Every one of the live lines was sent or waits. */
  predicate Covered(live: seq<string>, waiting: seq<string>, sent: set<string>) {
    forall i :: 0 <= i < |live| ==> Name(live[i]) in sent || Name(live[i]) in waiting
  }

  /** Keeping what waits is keeping what was not sent exactly when everything not sent waits. */
  lemma {:induction false} WaitingIsUnsent(live: seq<string>, waiting: seq<string>, sent: set<string>)
    requires forall x :: x in waiting ==> x !in sent
    ensures |Waiting(live, waiting)| <= |Unsent(live, sent)|
    ensures Waiting(live, waiting) == Unsent(live, sent) <==> Covered(live, waiting, sent)
  {
    if live != [] {
      WaitingIsUnsent(live[1..], waiting, sent);
      CoveredSplit(live, waiting, sent);
      var (w, u) := (Waiting(live[1..], waiting), Unsent(live[1..], sent));
      if Name(live[0]) in waiting {
        assert ([live[0]] + w)[1..] == w && ([live[0]] + u)[1..] == u;
      }
    }
  }

  lemma CoveredSplit(live: seq<string>, waiting: seq<string>, sent: set<string>)
    requires live != []
    ensures Covered(live, waiting, sent) <==>
            (Name(live[0]) in sent || Name(live[0]) in waiting) && Covered(live[1..], waiting, sent)
  {
    if (Name(live[0]) in sent || Name(live[0]) in waiting) && Covered(live[1..], waiting, sent) {
      forall i | 0 <= i < |live| ensures Name(live[i]) in sent || Name(live[i]) in waiting {
        if i > 0 {
          assert live[i] == live[1..][i - 1];
        }
      }
    }
    if Covered(live, waiting, sent) {
      forall i | 0 <= i < |live[1..]| ensures Name(live[1..][i]) in sent || Name(live[1..][i]) in waiting {
        assert live[1..][i] == live[i + 1];
      }
    }
  }

  /**
   A session conserves what it did not send (the file is gone, or reads back as exactly the unsent lines, with
   their directives and in their order) exactly when every live line was sent or offered.
   */
  lemma SessionExact(lines: seq<string>, sent: set<string>)
    ensures LiveAfter(Session(lines, sent)) == Unsent(Live(lines), sent) <==> Covered(Live(lines), Offered(lines), sent)
    ensures Session(lines, sent).Gone? <==> forall x :: x in Offered(lines) ==> x in sent
  {
    var waiting := Without(Offered(lines), sent);
    WaitingIsUnsent(Live(lines), waiting, sent);
    RewriteLive(lines, waiting);
    if waiting == [] {
      NothingWaits(Live(lines));
    } else {
      assert waiting[0] in waiting;
    }
  }

  lemma {:induction false} NothingWaits(live: seq<string>)
    ensures Waiting(live, []) == []
  {
    if live != [] {
      NothingWaits(live[1..]);
    }
  }

  /** Without blank lines everything is offered. */
  lemma {:induction false} NoBlankOffersAll(lines: seq<string>)
    requires NoBlank(lines)
    ensures Offered(lines) == Names(Live(lines))
  {
    if lines != [] {
      NoBlankOffersAll(lines[1..]);
      if IsLive(lines[0]) {
        assert ([lines[0]] + Live(lines[1..]))[1..] == Live(lines[1..]);
      }
    }
  }

  lemma {:induction false} NamesIn(live: seq<string>, i: nat)
    requires i < |live|
    ensures Name(live[i]) in Names(live)
  {
    if i > 0 {
      NamesIn(live[1..], i - 1);
    }
  }

  /** So a flow file without blank lines is conserved, and what is written back has none either. */
  lemma SessionConserves(lines: seq<string>, sent: set<string>)
    requires NoBlank(lines)
    ensures LiveAfter(Session(lines, sent)) == Unsent(Live(lines), sent)
    ensures Session(lines, sent).Gone? <==> Unsent(Live(lines), sent) == []
    ensures Session(lines, sent).Kept? ==> NoBlank(Session(lines, sent).lines)
  {
    SessionExact(lines, sent);
    NoBlankOffersAll(lines);
    forall i | 0 <= i < |Live(lines)| ensures Name(Live(lines)[i]) in Offered(lines) {
      NamesIn(Live(lines), i);
    }
    UnsentEmpty(Live(lines), sent);
  }

  lemma {:induction false} UnsentEmpty(live: seq<string>, sent: set<string>)
    ensures Unsent(live, sent) == [] <==> forall x :: x in Names(live) ==> x in sent
  {
    if live != [] {
      UnsentEmpty(live[1..], sent);
      assert Names(live)[0] == Name(live[0]) && Name(live[0]) in Names(live);
      assert forall x :: x in Names(live) <==> x == Name(live[0]) || x in Names(live[1..]);
    }
  }

  /** A blank line hides what comes after it: sending the first entry loses the second. */
  lemma BlankLineHides()
    ensures var lines := ["a", "", "b"];
            Session(lines, {"a"}).Gone? && Unsent(Live(lines), {"a"}) == ["b"]
  {
    var lines := ["a", "", "b"];
    assert lines[1..] == ["", "b"] && lines[1..][1..] == ["b"] && ["b"][1..] == [];
    assert Offered(lines) == ["a"] && Live(["b"]) == ["b"];
    assert Live(lines) == ["a", "b"];
    assert Unsent(["b"], {"a"}) == ["b"] && ["a", "b"][1..] == ["b"];
    assert Without(["a"], {"a"}) == [];
  }

  // ---------------------------------------------------------------------------------------------
  // Many sessions
  // ---------------------------------------------------------------------------------------------

  /** One session after another, each sending some files, as long as there is a flow file. */
  function Sessions(a: After, sents: seq<set<string>>): After
    decreases |sents|
  {
    if sents == [] || a.Gone? then a else Sessions(Session(a.lines, sents[0]), sents[1..])
  }

  function Union(sents: seq<set<string>>): set<string>
    decreases |sents|
  {
    if sents == [] then {} else sents[0] + Union(sents[1..])
  }

  lemma {:induction false} UnsentTwice(live: seq<string>, a: set<string>, b: set<string>)
    ensures Unsent(Unsent(live, a), b) == Unsent(live, a + b)
  {
    if live != [] {
      UnsentTwice(live[1..], a, b);
      if Name(live[0]) !in a {
        assert ([live[0]] + Unsent(live[1..], a))[1..] == Unsent(live[1..], a);
      }
    }
  }

  lemma {:induction false} UnsentNone(live: seq<string>)
    ensures Unsent(live, {}) == live
  {
    if live != [] {
      UnsentNone(live[1..]);
    }
  }

  /**
   Over any number of sessions exactly what none of them sent is left; so nothing sent is ever offered again,
   and nothing unsent is ever dropped.
   */
  lemma {:induction false} SessionsConserve(a: After, sents: seq<set<string>>)
    requires a.Kept? ==> NoBlank(a.lines)
    ensures LiveAfter(Sessions(a, sents)) == Unsent(LiveAfter(a), Union(sents))
    ensures Sessions(a, sents).Kept? ==> NoBlank(Sessions(a, sents).lines)
    ensures Sessions(a, sents).Kept? ==> forall x :: x in Offered(Sessions(a, sents).lines) ==> x !in Union(sents)
    decreases |sents|
  {
    if sents == [] || a.Gone? {
      if a.Kept? {
        UnsentNone(Live(a.lines));
      }
    } else {
      var next := Session(a.lines, sents[0]);
      SessionConserves(a.lines, sents[0]);
      SessionsConserve(next, sents[1..]);
      UnsentTwice(Live(a.lines), sents[0], Union(sents[1..]));
      var last := Sessions(a, sents);
      if last.Kept? {
        NoBlankOffersAll(last.lines);
        UnsentNames(Live(a.lines), Union(sents));
      }
    }
  }

  lemma {:induction false} UnsentNames(live: seq<string>, sent: set<string>)
    ensures forall x :: x in Names(Unsent(live, sent)) ==> x !in sent
  {
    if live != [] {
      UnsentNames(live[1..], sent);
      if Name(live[0]) !in sent {
        assert ([live[0]] + Unsent(live[1..], sent))[1..] == Unsent(live[1..], sent);
      }
    }
  }

  // ---------------------------------------------------------------------------------------------
  // The mailer
  // ---------------------------------------------------------------------------------------------

  class Mailer {
    /** The flow files on disk. */
    var disk: map<string, seq<string>>
    /** binkit_flow_contents: for each flow file read, the names that wait. */
    var contents: map<string, seq<string>>

    constructor (disk: map<string, seq<string>>)
      ensures this.disk == disk && contents == map[]
    {
      this.disk, contents := disk, map[];
    }

    /** Each flow file read is as it was, or gone with nothing waiting; what waits is what was offered and not sent. */
    ghost predicate InSession(was: map<string, seq<string>>, sent: set<string>)
      reads this
    {
      && contents.Keys <= was.Keys
      && (forall f :: f in contents ==> contents[f] == Without(Offered(was[f]), sent))
      && (forall f :: f in contents && f in disk ==> disk[f] == was[f])
      && (forall f :: f in contents && f !in disk ==> contents[f] == [])
    }

    /** Reading one flow file: the branch of `add_outbound_files` for '.?lo' files. */
    method AddFlowFile(flo: string)
      requires flo in disk && flo !in contents
      modifies `contents
      ensures contents == old(contents)[flo := Offered(disk[flo])]
    {
      var lines := disk[flo];
      var names := [];
      var i := 0;
      while i < |lines| && lines[i] != ""
        invariant i <= |lines| && Offered(lines) == names + Offered(lines[i..])
      {
        assert lines[i..][0] == lines[i] && lines[i..][1..] == lines[i + 1..];
        if !Skipped(lines[i]) {
          names := names + [Name(lines[i])];
        }
        i := i + 1;
      }
      assert Offered(lines[i..]) == [] && names + [] == names;
      contents := contents[flo := names];
    }

    /** `tx_callback`: a file was sent; it waits in no flow file any more, and a flow file nothing waits in goes. */
    method TxCallback(fname: string, ghost was: map<string, seq<string>>, ghost sent: set<string>)
      requires InSession(was, sent)
      modifies this
      ensures InSession(was, sent + {fname}) && contents.Keys == old(contents).Keys
      ensures forall f :: f in contents && f in disk ==> contents[f] != []
      ensures forall f :: f !in contents ==> (f in disk <==> f in old(disk)) && (f in disk ==> disk[f] == old(disk)[f])
    {
      hide Without, Offered;
      var todo := contents.Keys;
      while todo != {}
        invariant todo <= contents.Keys == old(contents).Keys
        invariant forall f :: f in todo ==> contents[f] == Without(Offered(was[f]), sent)
        invariant forall f :: f in contents && f !in todo ==> contents[f] == Without(Offered(was[f]), sent + {fname})
        invariant forall f :: f in contents && f in disk ==> disk[f] == was[f]
        invariant forall f :: f in contents && f !in disk ==> contents[f] == []
        invariant forall f :: f in contents && f in disk && f !in todo ==> contents[f] != []
        invariant forall f :: f !in contents ==> (f in disk <==> f in old(disk)) && (f in disk ==> disk[f] == old(disk)[f])
      {
        var flo :| flo in todo;
        WithoutOneMore(Offered(was[flo]), sent, fname);
        NothingLeft(fname);
        if flo in disk {
          var left := RemoveAll(contents[flo], fname);
          contents := contents[flo := left];
          if left == [] {
            disk := disk - {flo};
          }
        }
        todo := todo - {flo};
      }
    }

    /** `callout_done`: flow files with something waiting are written back, the others removed. */
    method CalloutDone(ghost was: map<string, seq<string>>, ghost sent: set<string>)
      requires InSession(was, sent)
      modifies `disk
      ensures forall f :: f in contents ==>
                match Session(was[f], sent)
                case Gone => f !in disk
                case Kept(lines) => f in disk && disk[f] == lines
      ensures forall f :: f !in contents ==> (f in disk <==> f in old(disk)) && (f in disk ==> disk[f] == old(disk)[f])
    {
      hide Rewrite, Without, Offered;
      var todo := contents.Keys;
      while todo != {}
        invariant todo <= contents.Keys
        invariant forall f :: f in todo && f in disk ==> disk[f] == was[f]
        invariant forall f :: f in todo && f !in disk ==> contents[f] == []
        invariant forall f :: f in contents && f !in todo ==>
                    if contents[f] == [] then f !in disk else f in disk && disk[f] == Rewrite(was[f], contents[f])
        invariant forall f :: f !in contents ==> (f in disk <==> f in old(disk)) && (f in disk ==> disk[f] == old(disk)[f])
      {
        var key :| key in todo;
        if contents[key] != [] {
          var lines := RewriteLines(disk[key], contents[key]);
          disk := disk[key := lines];
        } else if key in disk {
          disk := disk - {key};
        }
        todo := todo - {key};
      }
    }
  }

  ghost function SentOf(sends: seq<string>): set<string> {
    set x | x in sends
  }

  /** A whole session of a mailer: all flow files are read, files are sent in some order, and it ends. */
  method RunSession(m: Mailer, sends: seq<string>)
    requires m.contents == map[]
    modifies m
    ensures m.contents.Keys == old(m.disk).Keys
    ensures forall f :: f in old(m.disk) ==>
              match Session(old(m.disk)[f], SentOf(sends))
              case Gone => f !in m.disk
              case Kept(lines) => f in m.disk && m.disk[f] == lines
  {
    hide Offered, Without, Rewrite;
    ghost var was := m.disk;
    var todo := m.disk.Keys;
    while todo != {}
      invariant todo <= was.Keys && m.disk == was && m.contents.Keys == was.Keys - todo
      invariant forall f :: f in m.contents ==> m.contents[f] == Offered(was[f])
    {
      var flo :| flo in todo;
      m.AddFlowFile(flo);
      todo := todo - {flo};
    }
    forall f | f in was ensures Without(Offered(was[f]), {}) == Offered(was[f]) {
      WithoutAbsent(Offered(was[f]), {});
    }
    assert SentOf(sends[..0]) == {};
    for i := 0 to |sends|
      invariant m.InSession(was, SentOf(sends[..i])) && m.contents.Keys == was.Keys
    {
      m.TxCallback(sends[i], was, SentOf(sends[..i]));
      assert sends[..i + 1] == sends[..i] + [sends[i]];
      assert SentOf(sends[..i + 1]) == SentOf(sends[..i]) + {sends[i]};
    }
    assert sends[..|sends|] == sends;
    m.CalloutDone(was, SentOf(sends));
  }

  /** while ((j = indexOf(fname)) !== -1) splice(j, 1) */
  method RemoveAll(names: seq<string>, fname: string) returns (left: seq<string>)
    ensures left == Without(names, {fname})
  {
    left := names;
    var j := IndexOf(left, fname);
    while j != -1
      invariant -1 <= j < |left| && (j == -1 ==> fname !in left) && (j != -1 ==> left[j] == fname)
      invariant Without(left, {fname}) == Without(names, {fname})
      decreases |left|
    {
      WithoutSpliced(left, j, fname);
      left := left[..j] + left[j + 1..];
      j := IndexOf(left, fname);
    }
    WithoutAbsent(left, {fname});
  }

  method IndexOf(names: seq<string>, x: string) returns (j: int)
    ensures -1 <= j < |names|
    ensures j == -1 <==> x !in names
    ensures j != -1 ==> names[j] == x && x !in names[..j]
  {
    for i := 0 to |names|
      invariant x !in names[..i]
    {
      if names[i] == x {
        return i;
      }
    }
    j := -1;
  }

  lemma NothingLeft(x: string)
    ensures Without([], {x}) == []
  {
  }

  lemma {:induction false} WithoutSpliced(names: seq<string>, j: nat, x: string)
    requires j < |names| && names[j] == x
    ensures Without(names[..j] + names[j + 1..], {x}) == Without(names, {x})
  {
    if j == 0 {
      assert names[..0] + names[1..] == names[1..];
    } else {
      WithoutSpliced(names[1..], j - 1, x);
      assert (names[..j] + names[j + 1..])[1..] == names[1..][..j - 1] + names[1..][j..];
    }
  }

  lemma {:induction false} WithoutAbsent(names: seq<string>, sent: set<string>)
    requires forall x :: x in sent ==> x !in names
    ensures Without(names, sent) == names
  {
    if names != [] {
      assert names[0] in names;
      WithoutAbsent(names[1..], sent);
    }
  }

  lemma {:induction false} WithoutOneMore(names: seq<string>, sent: set<string>, x: string)
    ensures Without(Without(names, sent), {x}) == Without(names, sent + {x})
  {
    if names != [] {
      WithoutOneMore(names[1..], sent, x);
      if names[0] !in sent {
        assert ([names[0]] + Without(names[1..], sent))[1..] == Without(names[1..], sent);
      }
    }
  }

  method RewriteLines(lines: seq<string>, waiting: seq<string>) returns (r: seq<string>)
    ensures r == Rewrite(lines, waiting)
  {
    r := [];
    for i := 0 to |lines|
      invariant |r| == i && forall k :: 0 <= k < i ==> r[k] == Rewritten(lines[k], waiting)
    {
      var line := lines[i];
      if Skipped(line) {
        r := r + [line];
      } else if HasDirective(line) {
        r := r + [if line[1..] in waiting then line else "~" + line[1..]];
      } else {
        r := r + [if line in waiting then line else "~" + line];
      }
    }
  }
}
