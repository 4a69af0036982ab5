/**
 Which node the BinkleyTerm-style mailer calls next (exec/binkit.js:703-810, 1051-1112): the order of flow
 files, the retry loop over one outbound directory, and the polls that follow.
 */
module Callouts {

  datatype Option<T> = None | Some(value: T)

  // ---------------------------------------------------------------------------------------------
  // The order of flow files
  // ---------------------------------------------------------------------------------------------

  /** JavaScript's < on strings: by code unit, a prefix first. */
  predicate Less(a: string, b: string) {
    if b == "" then false
    else if a == "" then true
    else a[0] < b[0] || (a[0] == b[0] && Less(a[1..], b[1..]))
  }

  function Lower(c: char): char {
    if 'A' <= c <= 'Z' then c - 'A' + 'a' else c
  }

  lemma LowerIs(c: char)
    ensures Lower(c) as int == if 65 <= c as int <= 90 then c as int + 32 else c as int
  {
    assert 'A' as int == 65 && 'a' as int == 97;
  }

  /** substr(-3, 1): the third character from the end, the first of a shorter name. */
  function Flavour(f: string): int {
    if f == "" then -1
    else
      var c := Lower(f[if |f| < 3 then 0 else |f| - 3]);
      if c == 'i' then 0 else if c == 'c' then 1 else if c == 'd' then 2
      else if c == 'o' then 3 else if c == 'f' then 4 else if c == 'h' then 5 else -1
  }

  function Kind(f: string): int {
    if |f| < 2 then -1
    else
      var e := [Lower(f[|f| - 2]), Lower(f[|f| - 1])];
      if e == "ut" then 0 else if e == "lo" then 1 else -1
  }

  /** The comparator given to sort. */
  function FlowOrder(a: string, b: string): int {
    if Flavour(a) != Flavour(b) then Flavour(a) - Flavour(b)
    else if Kind(a) != Kind(b) then Kind(a) - Kind(b)
    else if Less(a, b) then -1
    else if Less(b, a) then 1
    else 0
  }

  lemma {:induction false} LessTotal(a: string, b: string)
    ensures Less(a, b) ==> !Less(b, a)
    ensures Less(a, b) || Less(b, a) || a == b
    ensures a == b ==> !Less(a, b)
  {
    if a != "" && b != "" {
      LessTotal(a[1..], b[1..]);
      assert a == [a[0]] + a[1..] && b == [b[0]] + b[1..];
    }
  }

  lemma {:induction false} LessTransitive(a: string, b: string, c: string)
    requires Less(a, b) && Less(b, c)
    ensures Less(a, c)
  {
    if a != "" && a[0] == b[0] == c[0] {
      LessTransitive(a[1..], b[1..], c[1..]);
    }
  }

  /** flow_order is a strict total order on names: the sign is antisymmetric, 0 only for equal names, transitive. */
  lemma FlowOrderIsTotal(a: string, b: string, c: string)
    ensures FlowOrder(a, b) < 0 <==> FlowOrder(b, a) > 0
    ensures FlowOrder(a, b) == 0 <==> a == b
    ensures FlowOrder(a, b) < 0 && FlowOrder(b, c) < 0 ==> FlowOrder(a, c) < 0
  {
    LessTotal(a, b);
    LessTotal(a, c);
    LessTotal(b, c);
    if Less(a, b) && Less(b, c) {
      LessTransitive(a, b, c);
    }
  }

  /** The order of strings: they agree up to a place where the first ends, or has the lesser character. */
  lemma {:induction false} LessIs(a: string, b: string)
    ensures Less(a, b) <==> exists k: nat :: k <= |a| && k < |b| && a[..k] == b[..k] && (k < |a| ==> a[k] < b[k])
  {
    if a != "" && b != "" && a[0] == b[0] {
      LessIs(a[1..], b[1..]);
      if k: nat :| k <= |a| && k < |b| && a[..k] == b[..k] && (k < |a| ==> a[k] < b[k]) {
        assert k > 0 && a[1..][..k - 1] == a[..k][1..] && b[1..][..k - 1] == b[..k][1..];
      }
      if k: nat :| k <= |a[1..]| && k < |b[1..]| && a[1..][..k] == b[1..][..k] && (k < |a[1..]| ==> a[1..][k] < b[1..][k]) {
        assert a[..k + 1] == [a[0]] + a[1..][..k] && b[..k + 1] == [b[0]] + b[1..][..k];
      }
    } else if b != "" {
      assert a[..0] == b[..0];
      assert forall k: nat :: 0 < k <= |a| && k < |b| && a[..k] == b[..k] ==> a[..k][0] == b[..k][0];
    }
  }

  /** The character is the `i`th of the flavours immediate, crash, direct, out, normal and hold, large or small. */
  predicate IsFlavour(x: char, i: nat) {
    i < 6 && (x == "icdofh"[i] || x == "ICDOFH"[i])
  }

  lemma FlavourAt(stem: string, x: char, kind: string)
    requires |kind| == 2
    ensures forall i: nat :: IsFlavour(x, i) ==> Flavour(stem + [x] + kind) == i
    ensures (forall i: nat :: !IsFlavour(x, i)) ==> Flavour(stem + [x] + kind) == -1
  {
    var f := stem + [x] + kind;
    assert f[|f| - 3] == x;
    assert IsFlavour(x, 0) <==> x in {'i', 'I'};
    assert IsFlavour(x, 1) <==> x in {'c', 'C'};
    assert IsFlavour(x, 2) <==> x in {'d', 'D'};
    assert IsFlavour(x, 3) <==> x in {'o', 'O'};
    assert IsFlavour(x, 4) <==> x in {'f', 'F'};
    assert IsFlavour(x, 5) <==> x in {'h', 'H'};
  }

  lemma KindAt(stem: string, kind: string)
    requires |kind| == 2
    ensures kind in {"ut", "Ut", "uT", "UT"} ==> Kind(stem + kind) == 0
    ensures kind in {"lo", "Lo", "lO", "LO"} ==> Kind(stem + kind) == 1
    ensures kind !in {"ut", "Ut", "uT", "UT", "lo", "Lo", "lO", "LO"} ==> Kind(stem + kind) == -1
  {
    var f := stem + kind;
    assert f[|f| - 2] == kind[0] && f[|f| - 1] == kind[1];
    assert kind == [kind[0], kind[1]];
  }

  /** Whatever the names begin with and however they end, the earlier flavour of that list comes first. */
  lemma FlavoursRank(a: string, x: char, k: string, i: nat, b: string, y: char, l: string, j: nat)
    requires |k| == |l| == 2 && IsFlavour(x, i) && IsFlavour(y, j) && i < j
    ensures FlowOrder(a + [x] + k, b + [y] + l) < 0
  {
    hide Flavour;
    FlavourAt(a, x, k);
    FlavourAt(b, y, l);
  }

  /** A name whose flavour is not in the list comes before all that are. */
  lemma UnknownFirst(a: string, x: char, k: string, b: string, y: char, l: string, j: nat)
    requires |k| == |l| == 2 && (forall i: nat :: !IsFlavour(x, i)) && IsFlavour(y, j)
    ensures FlowOrder(a + [x] + k, b + [y] + l) < 0
  {
    hide Flavour;
    FlavourAt(a, x, k);
    FlavourAt(b, y, l);
  }

  /** Within a flavour mail packets (ut) come before lists of files (lo). */
  lemma KindsRank(a: string, x: char, k: string, b: string, y: char, l: string, i: nat)
    requires IsFlavour(x, i) && IsFlavour(y, i)
    requires k in {"ut", "Ut", "uT", "UT"} && l in {"lo", "Lo", "lO", "LO"}
    ensures FlowOrder(a + [x] + k, b + [y] + l) < 0
  {
    hide Flavour, Kind;
    FlavourAt(a, x, k);
    FlavourAt(b, y, l);
    KindAt(a + [x], k);
    KindAt(b + [y], l);
  }

  /** A name of neither kind comes before both. */
  lemma OtherKindsFirst(a: string, x: char, k: string, b: string, y: char, l: string, i: nat)
    requires |k| == 2 && IsFlavour(x, i) && IsFlavour(y, i)
    requires k !in {"ut", "Ut", "uT", "UT", "lo", "Lo", "lO", "LO"} && l in {"ut", "Ut", "uT", "UT", "lo", "Lo", "lO", "LO"}
    ensures FlowOrder(a + [x] + k, b + [y] + l) < 0
  {
    hide Flavour, Kind;
    FlavourAt(a, x, k);
    FlavourAt(b, y, l);
    KindAt(a + [x], k);
    KindAt(b + [y], l);
  }

  /** Between names that end alike the text decides. */
  lemma TextDecides(a: string, b: string, end: string)
    requires |end| == 3
    ensures FlowOrder(a + end, b + end) < 0 <==> Less(a + end, b + end)
  {
    var (f, g) := (a + end, b + end);
    assert f[|f| - 3..] == end == g[|g| - 3..];
    assert f[|f| - 3] == f[|f| - 3..][0] && f[|f| - 2] == f[|f| - 3..][1] && f[|f| - 1] == f[|f| - 3..][2];
    assert g[|g| - 3] == g[|g| - 3..][0] && g[|g| - 2] == g[|g| - 3..][1] && g[|g| - 1] == g[|g| - 3..][2];
    LessTotal(f, g);
  }

  ghost predicate Ordered(files: seq<string>) {
    forall i, j :: 0 <= i < j < |files| ==> FlowOrder(files[i], files[j]) <= 0
  }

  function Insert(f: string, files: seq<string>): seq<string> {
    if files == [] || FlowOrder(f, files[0]) <= 0 then [f] + files else [files[0]] + Insert(f, files[1..])
  }

  /** flow_files.sort(flow_order) */
  function Sorted(files: seq<string>): seq<string> {
    if files == [] then [] else Insert(files[0], Sorted(files[1..]))
  }

  lemma OrderSteps(a: string, b: string, c: string)
    ensures FlowOrder(a, b) <= 0 || FlowOrder(b, a) <= 0
    ensures FlowOrder(a, b) <= 0 && FlowOrder(b, c) <= 0 ==> FlowOrder(a, c) <= 0
  {
    hide FlowOrder;
    FlowOrderIsTotal(a, b, c);
    FlowOrderIsTotal(b, c, a);
  }

  lemma PutFirst(x: string, r: seq<string>, f: string, rest: seq<string>)
    requires Ordered(r) && multiset(r) == multiset([f]) + multiset(rest)
    requires FlowOrder(x, f) <= 0 && forall y :: y in rest ==> FlowOrder(x, y) <= 0
    ensures Ordered([x] + r)
  {
    hide FlowOrder;
    forall j | 0 <= j < |r| ensures FlowOrder(x, r[j]) <= 0 {
      assert r[j] in multiset(r);
      assert r[j] == f || r[j] in rest;
    }
  }

  lemma {:induction false} InsertOrders(f: string, files: seq<string>)
    requires Ordered(files)
    ensures Ordered(Insert(f, files))
    ensures multiset(Insert(f, files)) == multiset([f]) + multiset(files)
  {
    hide FlowOrder;
    if files != [] {
      assert files == [files[0]] + files[1..];
      OrderSteps(f, files[0], f);
      if FlowOrder(f, files[0]) <= 0 {
        forall j | 0 <= j < |files| ensures FlowOrder(f, files[j]) <= 0 {
          OrderSteps(f, files[0], files[j]);
          OrderSteps(files[0], files[0], f);
        }
      } else {
        InsertOrders(f, files[1..]);
        PutFirst(files[0], Insert(f, files[1..]), f, files[1..]);
      }
    } else {
      assert Insert(f, files) == [f];
    }
  }

  lemma {:induction false} SortOrders(files: seq<string>)
    ensures Ordered(Sorted(files))
    ensures multiset(Sorted(files)) == multiset(files)
  {
    if files != [] {
      assert files == [files[0]] + files[1..];
      SortOrders(files[1..]);
      InsertOrders(files[0], Sorted(files[1..]));
    }
  }

  // ---------------------------------------------------------------------------------------------
  // One outbound directory, then the polls
  // ---------------------------------------------------------------------------------------------

  /** What lock_flow and then check_held answer. */
  datatype Attempt = Attempt(locked: bool, held: bool)

  /**
   The world around the loop: address parsing, file naming, and the answers it gets. Locks, hold files and the
   termination flag change while it runs, so those answers depend on how often it has asked.
   */
  datatype Site = Site(
    parse: string -> Option<string>,
    ext: string -> Option<string>,
    path: (string, string) -> string,
    address: string -> string,
    hasDir: string -> bool,
    door: nat -> Attempt,
    terminated: nat -> bool)

  /** Where the mailer has come to: nodes called, nodes dealt with, locks and termination flag asked for. */
  datatype Run = Run(calls: seq<string>, ran: set<string>, tick: nat, tests: nat)

  datatype Node = Node(name: string, poll: bool)

  /** The flavours that are called out for; hold files and unknown ones are passed over. */
  predicate Flows(ext: string) {
    var two := if |ext| < 2 then ext else ext[..2];
    two == ".c" || two == ".d" || two == ".i" || ext == ".flo" || ext == ".out"
  }

  /** A flow file that would be called for if its lock is free. */
  predicate Candidate(site: Site, f: string, ran: set<string>) {
    && site.parse(f).Some?
    && site.parse(f).value !in ran
    && site.ext(f).Some?
    && (var e := site.ext(f).value;
        && f == site.path(site.parse(f).value, if e == "" then "" else e[1..])
        && Flows(e))
  }

  predicate Granted(a: Attempt) {
    a.locked && !a.held
  }

  /** The number of files whose lock is asked for before position `k` is looked at. */
  function Asked(site: Site, files: seq<string>, ran: set<string>, k: nat): nat
    requires k <= |files|
  {
    if k == 0 then 0
    else Asked(site, files, ran, k - 1) + if Candidate(site, files[k - 1], ran) then 1 else 0
  }

  /** The candidate at position `k` gets its lock, and its node is not on hold, in a pass begun at `tick`. */
  predicate Wins(site: Site, files: seq<string>, ran: set<string>, tick: nat, k: nat) {
    && k < |files|
    && Candidate(site, files[k], ran)
    && Granted(site.door(tick + Asked(site, files, ran, k)))
  }

  /** The first position from `k` on that wins, |files| if there is none. */
  function FirstWin(site: Site, files: seq<string>, ran: set<string>, tick: nat, k: nat): (i: nat)
    requires k <= |files|
    ensures k <= i <= |files|
    ensures i < |files| ==> Wins(site, files, ran, tick, i)
    ensures forall m: nat {:trigger Wins(site, files, ran, tick, m)} :: k <= m < i ==> !Wins(site, files, ran, tick, m)
    decreases |files| - k
  {
    if k == |files| || Wins(site, files, ran, tick, k) then k else FirstWin(site, files, ran, tick, k + 1)
  }

  /** The nodes of these files that are still to be dealt with. */
  function Open(site: Site, files: seq<string>, ran: set<string>): set<string> {
    set f | f in files && site.parse(f).Some? && site.parse(f).value !in ran :: site.parse(f).value
  }

  lemma OpenShrinks(site: Site, files: seq<string>, more: seq<string>, ran: set<string>, i: nat)
    requires multiset(more) == multiset(files) && i < |more| && Candidate(site, more[i], ran)
    ensures site.parse(more[i]).Some?
    ensures Open(site, more, ran + {site.parse(more[i]).value}) < Open(site, files, ran)
  {
    forall f ensures f in more <==> f in files {
      assert f in more <==> f in multiset(more);
    }
    assert more[i] in files;
    assert site.parse(more[i]).value in Open(site, files, ran);
  }

  /** The state after the file at position `i` was called for. */
  function Called(site: Site, order: seq<string>, i: nat, r: Run): Run
    requires i < |order| && Candidate(site, order[i], r.ran)
  {
    var addr := site.parse(order[i]).value;
    Run(r.calls + [addr], r.ran + {addr}, r.tick + Asked(site, order, r.ran, i) + 1, r.tests + 1)
  }

  /** All rounds over one directory: a round calls the first file that wins, the last one finds none. */
  function Rounds(site: Site, files: seq<string>, r: Run): Run
    decreases Open(site, files, r.ran)
  {
    var tested := r.(tests := r.tests + 1);
    if site.terminated(r.tests) || files == [] then tested
    else
      var order := Sorted(files);
      var i := FirstWin(site, order, r.ran, r.tick, 0);
      if i == |order| then tested.(tick := r.tick + Asked(site, order, r.ran, i))
      else
        SortOrders(files);
        OpenShrinks(site, files, order, r.ran, i);
        Rounds(site, order, Called(site, order, i, r))
  }

  function Directories(site: Site, dirs: seq<seq<string>>, r: Run): Run {
    if dirs == [] then r else Directories(site, dirs[1..], Rounds(site, dirs[0], r))
  }

  /** A node without an outbound directory is called without a lock. */
  function PollOne(site: Site, addr: string, r: Run): Run {
    if site.hasDir(addr) then
      Run(if Granted(site.door(r.tick)) then r.calls + [addr] else r.calls, r.ran + {addr}, r.tick + 1, r.tests)
    else Run(r.calls + [addr], r.ran + {addr}, r.tick, r.tests)
  }

  function Polls(site: Site, nodes: seq<Node>, r: Run): Run {
    if nodes == [] then r
    else
      var addr := site.address(nodes[0].name);
      Polls(site, nodes[1..], if nodes[0].poll && addr !in r.ran then PollOne(site, addr, r) else r)
  }

  ghost predicate NoneTwice(r: Run) {
    && (forall k :: 0 <= k < |r.calls| ==> r.calls[k] in r.ran)
    && forall j, k :: 0 <= j < k < |r.calls| ==> r.calls[j] != r.calls[k]
  }

  /** `s` continues `r`: what it called since are nodes that were not dealt with at `r`, and it forgets none. */
  ghost predicate Continues(r: Run, s: Run) {
    && r.calls <= s.calls
    && r.ran <= s.ran
    && r.tick <= s.tick
    && (forall k :: |r.calls| <= k < |s.calls| ==> s.calls[k] !in r.ran && s.calls[k] in s.ran)
  }

  lemma CallOnce(r: Run, s: Run, addr: string)
    requires NoneTwice(r) && addr !in r.ran
    requires s.calls == r.calls + [addr] && s.ran == r.ran + {addr} && s.tick >= r.tick
    ensures NoneTwice(s) && Continues(r, s)
  {
  }

  lemma ContinuesTransitive(r: Run, s: Run, t: Run)
    requires Continues(r, s) && Continues(s, t)
    ensures Continues(r, t)
  {
    forall k | |r.calls| <= k < |t.calls| ensures t.calls[k] !in r.ran && t.calls[k] in t.ran {
      if k < |s.calls| {
        assert t.calls[k] == s.calls[k];
      }
    }
  }

  lemma CalledOnce(site: Site, order: seq<string>, i: nat, r: Run)
    requires i < |order| && Candidate(site, order[i], r.ran) && NoneTwice(r)
    ensures NoneTwice(Called(site, order, i, r)) && Continues(r, Called(site, order, i, r))
  {
    CallOnce(r, Called(site, order, i, r), site.parse(order[i]).value);
  }

  lemma {:induction false} RoundsOnce(site: Site, files: seq<string>, r: Run)
    requires NoneTwice(r)
    ensures NoneTwice(Rounds(site, files, r)) && Continues(r, Rounds(site, files, r))
    decreases Open(site, files, r.ran)
  {
    hide NoneTwice, Sorted, Candidate, Asked, FirstWin;
    var order := Sorted(files);
    var i := FirstWin(site, order, r.ran, r.tick, 0);
    if site.terminated(r.tests) || files == [] || i == |order| {
      Halts(r, Rounds(site, files, r));
    } else {
      var s := Called(site, order, i, r);
      SortOrders(files);
      OpenShrinks(site, files, order, r.ran, i);
      CalledOnce(site, order, i, r);
      RoundsOnce(site, order, s);
      ContinuesTransitive(r, s, Rounds(site, order, s));
    }
  }

  lemma Halts(r: Run, s: Run)
    requires NoneTwice(r) && s.calls == r.calls && s.ran == r.ran && s.tick >= r.tick
    ensures NoneTwice(s) && Continues(r, s)
  {
  }

  lemma {:induction false} DirectoriesOnce(site: Site, dirs: seq<seq<string>>, r: Run)
    requires NoneTwice(r)
    ensures NoneTwice(Directories(site, dirs, r)) && Continues(r, Directories(site, dirs, r))
  {
    if dirs != [] {
      var s := Rounds(site, dirs[0], r);
      RoundsOnce(site, dirs[0], r);
      DirectoriesOnce(site, dirs[1..], s);
      ContinuesTransitive(r, s, Directories(site, dirs[1..], s));
    }
  }

  /** Every directory has its rounds, after those of the directories before it. */
  lemma {:induction false} DirectoriesInTurn(site: Site, dirs: seq<seq<string>>, dir: seq<string>, more: seq<seq<string>>, r: Run)
    ensures Directories(site, dirs + [dir] + more, r)
            == Directories(site, more, Rounds(site, dir, Directories(site, dirs, r)))
  {
    hide Rounds;
    var all := dirs + [dir] + more;
    if dirs == [] {
      assert all == [dir] + more && all[1..] == more;
    } else {
      assert all[0] == dirs[0] && all[1..] == dirs[1..] + [dir] + more;
      DirectoriesInTurn(site, dirs[1..], dir, more, Rounds(site, dirs[0], r));
    }
  }

  lemma {:induction false} PollsOnce(site: Site, nodes: seq<Node>, r: Run)
    requires NoneTwice(r)
    ensures NoneTwice(Polls(site, nodes, r)) && Continues(r, Polls(site, nodes, r))
    ensures forall n :: n in nodes && n.poll ==> site.address(n.name) in Polls(site, nodes, r).ran
  {
    if nodes != [] {
      var addr := site.address(nodes[0].name);
      var s := if nodes[0].poll && addr !in r.ran then PollOne(site, addr, r) else r;
      PollsOnce(site, nodes[1..], s);
      ContinuesTransitive(r, s, Polls(site, nodes[1..], s));
      assert nodes == [nodes[0]] + nodes[1..];
    }
  }

  /**
   Over every outbound directory and the polls that follow, no node is called twice and none is called that was
   dealt with before, whatever the locks, hold files and the termination flag do meanwhile.
   */
  lemma NobodyTwice(site: Site, dirs: seq<seq<string>>, nodes: seq<Node>, ran: set<string>)
    ensures var r := Polls(site, nodes, Directories(site, dirs, Run([], ran, 0, 0)));
      && (forall j, k :: 0 <= j < k < |r.calls| ==> r.calls[j] != r.calls[k])
      && (forall k :: 0 <= k < |r.calls| ==> r.calls[k] !in ran)
      && (forall n :: n in nodes && n.poll ==> site.address(n.name) in r.ran)
  {
    var start := Run([], ran, 0, 0);
    var s := Directories(site, dirs, start);
    DirectoriesOnce(site, dirs, start);
    PollsOnce(site, nodes, s);
    ContinuesTransitive(start, s, Polls(site, nodes, s));
  }

  lemma OrderHas(files: seq<string>, g: string) returns (k: nat)
    requires g in files
    ensures k < |Sorted(files)| && Sorted(files)[k] == g
  {
    SortOrders(files);
    assert g in multiset(Sorted(files));
    k :| k < |Sorted(files)| && Sorted(files)[k] == g;
  }

  /** The candidate at position `k` was asked for in a pass begun at `tick`, and refused. */
  predicate Refused(site: Site, order: seq<string>, ran: set<string>, tick: nat, k: nat)
    requires k < |order|
  {
    !Granted(site.door(tick + Asked(site, order, ran, k)))
  }

  /**
   The file called for in a round is the least candidate in flow order whose lock could be had: everything
   before it that is a candidate was asked for in this round and refused.
   */
  lemma LeastFirst(site: Site, files: seq<string>, ran: set<string>, tick: nat, g: string)
    requires g in files && Candidate(site, g, ran)
    ensures var order := Sorted(files);
      var i := FirstWin(site, order, ran, tick, 0);
      i < |order| ==>
        || FlowOrder(order[i], g) <= 0
        || exists k: nat :: k < i && order[k] == g && Refused(site, order, ran, tick, k)
  {
    hide FlowOrder, Candidate, Sorted, Asked, Granted;
    var order := Sorted(files);
    SortOrders(files);
    var k := OrderHas(files, g);
    var i := FirstWin(site, order, ran, tick, 0);
    if k < i {
      assert !Wins(site, order, ran, tick, k);
      assert Refused(site, order, ran, tick, k);
    } else if k == i {
      OrderSteps(g, g, g);
    }
  }

  /** The extensions that are called for, and no others: any crash, direct or immediate one, `.flo` and `.out`. */
  lemma FlowsAre(x: char, rest: string)
    ensures Flows("." + [x] + rest) <==> x in {'c', 'd', 'i'} || (x == 'f' && rest == "lo") || (x == 'o' && rest == "ut")
  {
    var e := "." + [x] + rest;
    assert e[..2] == "." + [x];
    assert ("." + [x])[1] == x && e[2..] == rest;
    assert e == ".flo" <==> x == 'f' && rest == "lo" by {
      assert e[1] == x && rest == e[2..];
      assert ".flo"[2..] == "lo";
    }
    assert e == ".out" <==> x == 'o' && rest == "ut" by {
      assert e[1] == x && rest == e[2..];
      assert ".out"[2..] == "ut";
    }
  }

  /**
   A file is called for while its node is still to be dealt with, provided its path is the one that the node
   and the extension give and its flavour is called out for.
   */
  lemma CandidateIs(site: Site, f: string, addr: string, x: char, rest: string, ran: set<string>)
    requires site.parse(f) == Some(addr) && site.ext(f) == Some("." + [x] + rest)
    ensures Candidate(site, f, ran) <==>
      && addr !in ran
      && f == site.path(addr, [x] + rest)
      && (x in {'c', 'd', 'i'} || (x == 'f' && rest == "lo") || (x == 'o' && rest == "ut"))
  {
    hide Flows;
    FlowsAre(x, rest);
    assert ("." + [x] + rest)[1..] == [x] + rest;
  }

  /** The answer to question `t`: the lock was had and the node is not on hold. */
  ghost predicate Opened(site: Site, t: nat) {
    site.door(t).locked && !site.door(t).held
  }

  ghost predicate OpenedIn(site: Site, from: nat, to: nat) {
    exists t: nat :: from <= t < to && Opened(site, t)
  }

  ghost predicate RefusedIn(site: Site, from: nat, to: nat) {
    exists t: nat :: from <= t < to && !Opened(site, t)
  }

  lemma InWider(site: Site, a: nat, b: nat, c: nat, d: nat)
    requires a <= b && c <= d
    ensures OpenedIn(site, b, c) ==> OpenedIn(site, a, d)
    ensures RefusedIn(site, b, c) ==> RefusedIn(site, a, d)
  {
    hide Opened;
  }

  /** The places before `k` of files that would be called for. */
  ghost function Candidates(site: Site, files: seq<string>, ran: set<string>, k: nat): set<nat>
    requires k <= |files|
  {
    set i: nat | i < k && Candidate(site, files[i], ran)
  }

  /** The number of files asked for is the number of candidates passed. */
  lemma {:induction false} AskedIs(site: Site, files: seq<string>, ran: set<string>, k: nat)
    requires k <= |files|
    ensures Asked(site, files, ran, k) == |Candidates(site, files, ran, k)|
  {
    hide Candidate;
    if k > 0 {
      AskedIs(site, files, ran, k - 1);
      assert Candidates(site, files, ran, k) ==
             Candidates(site, files, ran, k - 1) + if Candidate(site, files[k - 1], ran) then {k - 1} else {};
    }
  }

  /** One of these files is for this node, and is one that is called out for. */
  ghost predicate HasFile(site: Site, files: seq<string>, addr: string) {
    exists f :: f in files && site.parse(f) == Some(addr) && Candidate(site, f, {})
  }

  lemma CandidateHasFile(site: Site, files: seq<string>, i: nat, ran: set<string>)
    requires i < |files| && Candidate(site, files[i], ran)
    ensures HasFile(site, files, site.parse(files[i]).value)
  {
    hide Flows;
    assert files[i] in files && Candidate(site, files[i], {});
  }

  lemma SameFiles(site: Site, order: seq<string>, files: seq<string>)
    requires multiset(order) == multiset(files)
    ensures forall addr :: HasFile(site, order, addr) ==> HasFile(site, files, addr)
  {
    hide Candidate;
    forall f | f in order ensures f in files {
      assert f in multiset(order);
    }
  }

  /** The answer that comes last before a call is the one that lets it through. */
  lemma LastAnswerOpens(site: Site, order: seq<string>, i: nat, r: Run)
    requires i < |order| && Wins(site, order, r.ran, r.tick, i)
    ensures var c := Called(site, order, i, r);
      && c.tick > r.tick && Opened(site, c.tick - 1)
      && c.calls == r.calls + [site.parse(order[i]).value]
  {
    hide Candidate, Asked;
  }

  /** Each node called between `r` and `s` had a file here, and a lock was had meanwhile. */
  ghost predicate CalledReady(site: Site, files: seq<string>, r: Run, s: Run) {
    forall k :: |r.calls| <= k < |s.calls| ==> OpenedIn(site, r.tick, s.tick) && HasFile(site, files, s.calls[k])
  }

  lemma ReadyThenMore(site: Site, order: seq<string>, files: seq<string>, addr: string, r: Run, c: Run, s: Run)
    requires c.calls == r.calls + [addr] && r.tick < c.tick && Opened(site, c.tick - 1) && HasFile(site, order, addr)
    requires c.calls <= s.calls && c.tick <= s.tick && CalledReady(site, order, c, s)
    requires multiset(order) == multiset(files)
    ensures r.calls <= s.calls && CalledReady(site, files, r, s)
  {
    SameFiles(site, order, files);
    hide HasFile, Opened;
    assert OpenedIn(site, r.tick, s.tick);
    forall k | |r.calls| <= k < |s.calls| ensures HasFile(site, files, s.calls[k]) {
      assert k < |c.calls| ==> s.calls[k] == c.calls[k];
    }
  }

  /** Every node called had a file here whose lock was had while it was not on hold; each round reads the flag once. */
  lemma {:induction false} RoundsCallReady(site: Site, files: seq<string>, r: Run)
    ensures var s := Rounds(site, files, r);
      && r.calls <= s.calls && r.tick <= s.tick
      && s.tests == r.tests + 1 + |s.calls| - |r.calls|
      && CalledReady(site, files, r, s)
    decreases Open(site, files, r.ran)
  {
    hide Sorted, Candidate, Asked, CalledReady, HasFile, Opened;
    var order := Sorted(files);
    var i := FirstWin(site, order, r.ran, r.tick, 0);
    if site.terminated(r.tests) || files == [] || i == |order| {
      NoneCalled(site, files, r, Rounds(site, files, r));
    } else {
      var c := Called(site, order, i, r);
      SortOrders(files);
      OpenShrinks(site, files, order, r.ran, i);
      RoundsCallReady(site, order, c);
      LastAnswerOpens(site, order, i, r);
      CandidateHasFile(site, order, i, r.ran);
      ReadyThenMore(site, order, files, site.parse(order[i]).value, r, c, Rounds(site, order, c));
    }
  }

  lemma NoneCalled(site: Site, files: seq<string>, r: Run, s: Run)
    requires s.calls == r.calls
    ensures CalledReady(site, files, r, s)
  {
  }

  lemma PollOneAsks(site: Site, addr: string, r: Run)
    ensures var s := PollOne(site, addr, r);
      && s.calls == (if site.hasDir(addr) && !Opened(site, r.tick) then r.calls else r.calls + [addr])
      && s.tick == (if site.hasDir(addr) then r.tick + 1 else r.tick)
      && s.tests == r.tests && s.ran == r.ran + {addr}
  {
  }

  /** The nodes are polled that are set to be and were not dealt with. */
  ghost predicate ToPoll(site: Site, nodes: seq<Node>, addr: string, ran: set<string>) {
    addr !in ran && exists n :: n in nodes && n.poll && site.address(n.name) == addr
  }

  function PollsHead(site: Site, node: Node, r: Run): Run {
    var addr := site.address(node.name);
    if node.poll && addr !in r.ran then PollOne(site, addr, r) else r
  }

  lemma PollsUnfold(site: Site, nodes: seq<Node>, r: Run)
    requires nodes != []
    ensures Polls(site, nodes, r) == Polls(site, nodes[1..], PollsHead(site, nodes[0], r))
  {
  }

  lemma PollsHeadIs(site: Site, node: Node, r: Run)
    ensures var (addr, s) := (site.address(node.name), PollsHead(site, node, r));
      && r.tick <= s.tick && s.tests == r.tests
      && s.ran == (if node.poll then r.ran + {addr} else r.ran)
      && if !node.poll || addr in r.ran then s.calls == r.calls
         else if site.hasDir(addr) && !OpenedIn(site, r.tick, s.tick) then s.calls == r.calls && RefusedIn(site, r.tick, s.tick)
         else s.calls == r.calls + [addr]
  {
    var addr := site.address(node.name);
    if site.hasDir(addr) {
      assert Opened(site, r.tick) || !Opened(site, r.tick);
      assert OpenedIn(site, r.tick, r.tick + 1) == Opened(site, r.tick);
    }
  }

  lemma Carries(a: seq<string>, b: seq<string>, x: string)
    requires a <= b && x !in b
    ensures x !in a
  {
    assert forall k :: 0 <= k < |a| ==> a[k] == b[k];
  }

  lemma ToPollFewer(site: Site, nodes: seq<Node>, addr: string, ran: set<string>, more: set<string>)
    requires ran <= more
    ensures ToPoll(site, nodes, addr, more) <==> ToPoll(site, nodes, addr, ran) && addr !in more
  {
  }

  /**
   The polls call every node set to be polled that was not dealt with, and no other; a node is passed over
   only when its directory's lock was refused, and one with a directory is called only when a lock was had.
   */
  lemma {:induction false} PollsCallReady(site: Site, nodes: seq<Node>, r: Run)
    ensures var s := Polls(site, nodes, r);
      && r.calls <= s.calls && r.tick <= s.tick && s.tests == r.tests
      && (forall k :: |r.calls| <= k < |s.calls| ==>
            && ToPoll(site, nodes, s.calls[k], r.ran)
            && (site.hasDir(s.calls[k]) ==> OpenedIn(site, r.tick, s.tick)))
      && (forall addr :: ToPoll(site, nodes, addr, r.ran) && addr !in s.calls ==>
            site.hasDir(addr) && RefusedIn(site, r.tick, s.tick))
  {
    if nodes != [] {
      hide Opened, PollOne, OpenedIn, RefusedIn, Polls;
      var addr := site.address(nodes[0].name);
      var (s, e) := (PollsHead(site, nodes[0], r), Polls(site, nodes, r));
      PollsCallReady(site, nodes[1..], s);
      PollsUnfold(site, nodes, r);
      PollsHeadIs(site, nodes[0], r);
      InWider(site, r.tick, s.tick, e.tick, e.tick);
      InWider(site, r.tick, r.tick, s.tick, e.tick);
      forall a ensures ToPoll(site, nodes, a, r.ran) <==>
                       ToPoll(site, nodes[1..], a, r.ran) || (nodes[0].poll && a == addr && addr !in r.ran) {
        assert nodes == [nodes[0]] + nodes[1..];
      }
      hide ToPoll;
      forall k | |r.calls| <= k < |e.calls|
        ensures ToPoll(site, nodes, e.calls[k], r.ran) && (site.hasDir(e.calls[k]) ==> OpenedIn(site, r.tick, e.tick))
      {
        if k < |s.calls| {
          assert e.calls[k] == s.calls[k] == addr;
        } else {
          assert ToPoll(site, nodes[1..], e.calls[k], s.ran);
          ToPollFewer(site, nodes[1..], e.calls[k], r.ran, s.ran);
        }
      }
      forall a | ToPoll(site, nodes, a, r.ran) && a !in e.calls
        ensures site.hasDir(a) && RefusedIn(site, r.tick, e.tick)
      {
        ToPollFewer(site, nodes[1..], a, r.ran, s.ran);
        if a == addr && nodes[0].poll && addr !in r.ran {
          Carries(s.calls, e.calls, addr);
        } else {
          assert ToPoll(site, nodes[1..], a, s.ran);
        }
      }
    }
  }

  /** So a node is called with one flavour only when every ready file of an earlier one was refused its lock in that round. */
  lemma EarlierFlavourFirst(site: Site, files: seq<string>, ran: set<string>, tick: nat,
                            a: string, x: char, k: string, i: nat, b: string, y: char, l: string, j: nat)
    requires |k| == |l| == 2 && IsFlavour(x, i) && IsFlavour(y, j) && i < j
    requires a + [x] + k in files && Candidate(site, a + [x] + k, ran)
    requires var order := Sorted(files);
      var c := FirstWin(site, order, ran, tick, 0);
      c < |order| && order[c] == b + [y] + l
    ensures var order := Sorted(files);
      exists m: nat :: m < FirstWin(site, order, ran, tick, 0) && order[m] == a + [x] + k && Refused(site, order, ran, tick, m)
  {
    hide FlowOrder, Candidate, Sorted, Asked, Granted, FirstWin;
    FlavoursRank(a, x, k, i, b, y, l, j);
    FlowOrderIsTotal(a + [x] + k, b + [y] + l, a + [x] + k);
    LeastFirst(site, files, ran, tick, a + [x] + k);
  }

  /** A pass over `order` begun at `tick` in which every file still open was asked for, in vain. */
  ghost predicate InVain(site: Site, order: seq<string>, ran: set<string>, tick: nat) {
    forall k: nat :: k < |order| && Candidate(site, order[k], ran) ==> Refused(site, order, ran, tick, k)
  }

  /**
   When the rounds over a directory end without being terminated, the last round went through all of the
   directory's files in flow order and was refused every one that is still open.
   */
  lemma {:induction false} NoneLeft(site: Site, files: seq<string>, r: Run) returns (order: seq<string>, tick: nat)
    requires forall n: nat :: !site.terminated(n)
    ensures multiset(order) == multiset(files) && Ordered(order)
    ensures r.tick <= tick
    ensures var s := Rounds(site, files, r);
      InVain(site, order, s.ran, tick) && s.tick == tick + Asked(site, order, s.ran, |order|)
    decreases Open(site, files, r.ran)
  {
    hide Sorted, Candidate, FlowOrder, Granted, NoneTwice;
    order, tick := Sorted(files), r.tick;
    var i := FirstWin(site, order, r.ran, r.tick, 0);
    SortOrders(files);
    if files == [] {
      assert order == [] by {
        assert |multiset(order)| == |order|;
      }
    } else if i < |order| {
      OpenShrinks(site, files, order, r.ran, i);
      order, tick := NoneLeft(site, order, Called(site, order, i, r));
    } else {
      forall k: nat | k < |order| && Candidate(site, order[k], r.ran) ensures Refused(site, order, r.ran, tick, k) {
        assert !Wins(site, order, r.ran, tick, k);
      }
    }
  }

  // ---------------------------------------------------------------------------------------------
  // The loops
  // ---------------------------------------------------------------------------------------------

  class Mailer {
    const site: Site
    var calls: seq<string>
    var ran: set<string>
    var tick: nat
    var tests: nat

    constructor (site: Site)
      ensures this.site == site && State() == Run([], {}, 0, 0)
    {
      this.site := site;
      calls, ran, tick, tests := [], {}, 0, 0;
    }

    function State(): Run
      reads this
    {
      Run(calls, ran, tick, tests)
    }

    /** lock_flow, then check_held. */
    method Lock() returns (granted: bool)
      modifies this`tick
      ensures tick == old(tick) + 1 && granted == Granted(site.door(old(tick)))
    {
      var a := site.door(tick);
      tick := tick + 1;
      granted := a.locked && !a.held;
    }

    /** The scan of one round: where it stopped, |order| if it went through. */
    method FindFile(order: seq<string>) returns (i: nat)
      modifies this`tick
      ensures i == FirstWin(site, order, ran, old(tick), 0)
      ensures tick == old(tick) + Asked(site, order, ran, i) + if i < |order| then 1 else 0
    {
      i := 0;
      while i < |order|
        invariant i <= |order|
        invariant tick == old(tick) + Asked(site, order, ran, i)
        invariant FirstWin(site, order, ran, old(tick), 0) == FirstWin(site, order, ran, old(tick), i)
      {
        if Candidate(site, order[i], ran) {
          var granted := Lock();
          if granted {
            return;
          }
        }
        i := i + 1;
      }
    }

    /** callout, which then counts as dealt with. */
    method Call(addr: string)
      modifies this`calls, this`ran
      ensures calls == old(calls) + [addr] && ran == old(ran) + {addr}
    {
      calls := calls + [addr];
      ran := ran + {addr};
    }

    /** One round of the loop; it is the last one unless it made a callout. */
    method Round(flowFiles: seq<string>) returns (done: bool, order: seq<string>)
      modifies this
      ensures Rounds(site, flowFiles, old(State())) == if done then State() else Rounds(site, order, State())
      ensures !done ==> Open(site, order, ran) < Open(site, flowFiles, old(ran))
    {
      hide Candidate, Granted, Asked, FirstWin, Sorted, Ordered, Open, FlowOrder;
      var stop := site.terminated(tests);
      tests := tests + 1;
      order := flowFiles;
      if stop || flowFiles == [] {
        return true, order;
      }
      SortOrders(flowFiles);
      order := Sorted(flowFiles);
      var i := FindFile(order);
      done := i == |order|;
      if !done {
        OpenShrinks(site, flowFiles, order, ran, i);
        Call(site.parse(order[i]).value);
      }
    }

    method RunOneOutboundDir(listing: seq<string>)
      modifies this
      ensures State() == Rounds(site, listing, old(State()))
    {
      hide *;
      var flowFiles, done := listing, false;
      while !done
        invariant Rounds(site, listing, old(State())) == if done then State() else Rounds(site, flowFiles, State())
        decreases !done, Open(site, flowFiles, ran)
      {
        done, flowFiles := Round(flowFiles);
      }
    }

    method RunOutbound(dirs: seq<seq<string>>)
      modifies this
      ensures State() == Directories(site, dirs, old(State()))
    {
      for k := 0 to |dirs|
        invariant Directories(site, dirs, old(State())) == Directories(site, dirs[k..], State())
      {
        RunOneOutboundDir(dirs[k]);
        assert dirs[k..][1..] == dirs[k + 1..];
      }
    }

    method PollNode(addr: string)
      modifies this`calls, this`tick
      ensures State() == PollOne(site, addr, old(State())).(ran := old(ran))
    {
      if site.hasDir(addr) {
        var granted := Lock();
        if !granted {
          return;
        }
      }
      calls := calls + [addr];
    }

    method RunPolls(nodes: seq<Node>)
      modifies this
      ensures State() == Polls(site, nodes, old(State()))
    {
      for k := 0 to |nodes|
        invariant Polls(site, nodes, old(State())) == Polls(site, nodes[k..], State())
      {
        assert nodes[k..][0] == nodes[k] && nodes[k..][1..] == nodes[k + 1..];
        if nodes[k].poll {
          var addr := site.address(nodes[k].name);
          if addr !in ran {
            PollNode(addr);
            ran := ran + {addr};
          }
        }
      }
    }
  }
}
