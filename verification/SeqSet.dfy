/**
 Message sequence sets of the IMAP service (exec/imapservice.js:584-630; sequence-set in section 9 of
 RFC 3501): from the text of a set to the message numbers it stands for.
 */
module SeqSet {

  datatype Option<T> = None | Some(value: T)

  /** The open folder: message numbers by position, and the numbers that are indexed. */
  datatype Index = Index(offsets: seq<nat>, numbers: set<nat>)

  // ---------------------------------------------------------------------------------------------
  // Text
  // ---------------------------------------------------------------------------------------------

  /** JavaScript's split on one character. */
  function Split(s: string, sep: char): (parts: seq<string>)
    ensures parts != []
  {
    if s == "" then [""]
    else
      var parts := Split(s[1..], sep);
      if s[0] == sep then [""] + parts else [[s[0]] + parts[0]] + parts[1..]
  }

  /** The number the digits at the front of `s` spell, continuing `acc`. */
  function Digits(s: string, acc: nat): nat {
    if s != "" && '0' <= s[0] <= '9' then Digits(s[1..], 10 * acc + (s[0] - '0') as nat) else acc
  }

  predicate StartsWithDigit(s: string) {
    s != "" && '0' <= s[0] <= '9'
  }

  /** parseInt(s, 10): leading white space and a sign are taken, trailing text is ignored, no digit is NaN. */
  function ParseInt(s: string): Option<int> {
    if s != "" && s[0] in {' ', '\t'} then ParseInt(s[1..])
    else if s != "" && s[0] == '-' then (if StartsWithDigit(s[1..]) then Some(-(Digits(s[1..], 0) as int)) else None)
    else if s != "" && s[0] == '+' then (if StartsWithDigit(s[1..]) then Some(Digits(s[1..], 0)) else None)
    else if StartsWithDigit(s) then Some(Digits(s, 0)) else None
  }

  function Endpoint(s: string, max: int): Option<int> {
    if s == "*" then Some(max) else ParseInt(s)
  }

  /** The range a chunk stands for, its endpoints in order; none if one of them is not a number. */
  function Range(chunk: string, max: int): (r: Option<(int, int)>)
    ensures r.Some? ==> r.value.0 <= r.value.1
  {
    var parts := Split(chunk, ':');
    var (a, b) := (Endpoint(parts[0], max), Endpoint(if |parts| == 1 then parts[0] else parts[1], max));
    if a.None? || b.None? then None
    else if a.value > b.value then Some((b.value, a.value)) else Some((a.value, b.value))
  }

  /** The message an entry of a range names: itself as a unique identifier, or by its position in the folder. */
  function Named(i: int, uid: bool, index: Index): Option<nat> {
    if uid then (if i >= 0 && i in index.numbers then Some(i) else None)
    else if 1 <= i <= |index.offsets| && index.offsets[i - 1] in index.numbers then Some(index.offsets[i - 1])
    else None
  }

  ghost predicate InChunk(chunk: string, uid: bool, index: Index, max: int, m: nat) {
    var r := Range(chunk, max);
    r.Some? && exists i :: r.value.0 <= i <= r.value.1 && Named(i, uid, index) == Some(m)
  }

  /** The messages that a set denotes: those some chunk of it does. */
  ghost predicate Denotes(chunks: seq<string>, uid: bool, index: Index, max: int, m: nat) {
    exists c :: 0 <= c < |chunks| && InChunk(chunks[c], uid, index, max, m)
  }

  // ---------------------------------------------------------------------------------------------
  // Sorting
  // ---------------------------------------------------------------------------------------------

  ghost predicate Ascending(s: seq<nat>) {
    forall i, j :: 0 <= i < j < |s| ==> s[i] <= s[j]
  }

  ghost predicate StrictlyAscending(s: seq<nat>) {
    forall i, j :: 0 <= i < j < |s| ==> s[i] < s[j]
  }

  function Insert(x: nat, s: seq<nat>): seq<nat> {
    if s == [] || x <= s[0] then [x] + s else [s[0]] + Insert(x, s[1..])
  }

  lemma {:induction false} InsertKeeps(x: nat, s: seq<nat>)
    ensures multiset(Insert(x, s)) == multiset{x} + multiset(s)
  {
    if s != [] && x > s[0] {
      InsertKeeps(x, s[1..]);
      assert s == [s[0]] + s[1..];
    }
  }

  lemma {:induction false} InsertAscends(x: nat, s: seq<nat>)
    requires Ascending(s)
    ensures Ascending(Insert(x, s))
    ensures forall i :: 0 <= i < |Insert(x, s)| ==> Insert(x, s)[i] >= if s == [] || x <= s[0] then x else s[0]
  {
    if s != [] && x > s[0] {
      InsertAscends(x, s[1..]);
    }
  }

  /** sort(function(a,b) { return a-b; }) */
  function Sort(s: seq<nat>): (r: seq<nat>)
    ensures Ascending(r) && multiset(r) == multiset(s)
  {
    if s == [] then []
    else
      assert s == [s[0]] + s[1..];
      InsertKeeps(s[0], Sort(s[1..]));
      InsertAscends(s[0], Sort(s[1..]));
      Insert(s[0], Sort(s[1..]))
  }

  lemma {:induction false} SameElements(a: seq<nat>, b: seq<nat>)
    requires multiset(a) == multiset(b)
    ensures forall m :: m in a <==> m in b
  {
    assert forall m :: m in a <==> m in multiset(a);
    assert forall m :: m in b <==> m in multiset(b);
  }

  /** Repeated numbers are spliced out while the scan stays where it is. */
  method DropRepeats(s: seq<nat>) returns (r: seq<nat>)
    requires Ascending(s)
    ensures StrictlyAscending(r) && forall m :: m in r <==> m in s
  {
    r := s;
    var i := 0;
    while i < |r|
      invariant 0 <= i <= |r| && Ascending(r) && forall m :: m in r <==> m in s
      invariant forall j, k :: 0 <= j < k < |r| && j < i ==> r[j] < r[k]
      decreases |r| - i
    {
      if i + 1 < |r| && r[i] == r[i + 1] {
        Spliced(r, i);
        r := r[..i + 1] + r[i + 2..];
        i := i - 1;
      }
      i := i + 1;
    }
  }

  lemma Spliced(r: seq<nat>, i: nat)
    requires i + 1 < |r| && r[i] == r[i + 1]
    ensures forall m :: m in r[..i + 1] + r[i + 2..] <==> m in r
  {
    assert r == r[..i + 1] + [r[i + 1]] + r[i + 2..];
  }

  // ---------------------------------------------------------------------------------------------
  // parse_seq_set
  // ---------------------------------------------------------------------------------------------

  /** The numbers one chunk adds, in the order they are pushed. */
  method Expand(chunk: string, uid: bool, index: Index, max: int) returns (response: seq<nat>)
    ensures forall m :: m in response <==> InChunk(chunk, uid, index, max, m)
  {
    response := [];
    var range := Range(chunk, max);
    if range.None? {
      return;
    }
    var (lo, hi) := range.value;
    var i := lo;
    while i <= hi
      invariant lo <= i <= hi + 1
      invariant forall m :: m in response <==> exists k :: lo <= k < i && Named(k, uid, index) == Some(m)
    {
      ghost var before := response;
      var msgnum := Named(i, uid, index);
      if msgnum.Some? {
        response := response + [msgnum.value];
      }
      forall m ensures m in response <==> exists k :: lo <= k < i + 1 && Named(k, uid, index) == Some(m) {
        assert m in response <==> m in before || Named(i, uid, index) == Some(m);
      }
      i := i + 1;
    }
  }

  /**
   The result is strictly ascending and holds exactly the messages the set denotes, whatever the text: chunks
   that are not numbers denote nothing.
   */
  method ParseSeqSet(set_: string, uid: bool, index: Index, lastMsg: nat) returns (response: seq<nat>)
    ensures StrictlyAscending(response)
    ensures forall m :: m in response <==> Denotes(Split(set_, ','), uid, index, if uid then lastMsg else |index.offsets|, m)
  {
    var max := if uid then lastMsg else |index.offsets|;
    var chunks := Split(set_, ',');
    response := [];
    for c := 0 to |chunks|
      invariant forall m :: m in response <==> exists k :: 0 <= k < c && InChunk(chunks[k], uid, index, max, m)
    {
      var more := Expand(chunks[c], uid, index, max);
      ghost var before := response;
      response := response + more;
      forall m ensures m in response <==> exists k :: 0 <= k < c + 1 && InChunk(chunks[k], uid, index, max, m) {
        assert m in response <==> m in before || m in more;
      }
    }
    var sorted := Sort(response);
    SameElements(sorted, response);
    response := DropRepeats(sorted);
  }

  // ---------------------------------------------------------------------------------------------
  // What does not matter
  // ---------------------------------------------------------------------------------------------

  /** A strictly ascending sequence is determined by its elements. */
  lemma {:induction false} AscendingDetermined(a: seq<nat>, b: seq<nat>)
    requires StrictlyAscending(a) && StrictlyAscending(b) && forall m :: m in a <==> m in b
    ensures a == b
    decreases |a|
  {
    assert a != [] ==> a[0] in a;
    assert b != [] ==> b[0] in b;
    if a != [] {
      assert a[0] in b;
      var i :| 0 <= i < |b| && b[i] == a[0];
      var j :| 0 <= j < |a| && a[j] == b[0];
      assert a[0] == b[0];
      forall m ensures m in a[1..] <==> m in b[1..] {
        assert m in a <==> m == a[0] || m in a[1..];
        assert m in b <==> m == b[0] || m in b[1..];
      }
      AscendingDetermined(a[1..], b[1..]);
      assert a == [a[0]] + a[1..] && b == [b[0]] + b[1..];
    }
  }

  /** Neither the order of the chunks nor their repetition matters: sets with the same chunks give the same result. */
  lemma ChunksAsASet(s: string, t: string, uid: bool, index: Index, max: int, a: seq<nat>, b: seq<nat>)
    requires forall x :: x in Split(s, ',') <==> x in Split(t, ',')
    requires StrictlyAscending(a) && forall m :: m in a <==> Denotes(Split(s, ','), uid, index, max, m)
    requires StrictlyAscending(b) && forall m :: m in b <==> Denotes(Split(t, ','), uid, index, max, m)
    ensures a == b
  {
    hide InChunk;
    var (xs, ys) := (Split(s, ','), Split(t, ','));
    forall m: nat ensures Denotes(xs, uid, index, max, m) <==> Denotes(ys, uid, index, max, m) {
      SubsetDenotes(xs, ys, uid, index, max, m);
      SubsetDenotes(ys, xs, uid, index, max, m);
    }
    AscendingDetermined(a, b);
  }

  lemma SubsetDenotes(xs: seq<string>, ys: seq<string>, uid: bool, index: Index, max: int, m: nat)
    requires forall x :: x in xs ==> x in ys
    ensures Denotes(xs, uid, index, max, m) ==> Denotes(ys, uid, index, max, m)
  {
    hide InChunk;
    if Denotes(xs, uid, index, max, m) {
      var c :| 0 <= c < |xs| && InChunk(xs[c], uid, index, max, m);
      assert xs[c] in ys;
      var d :| 0 <= d < |ys| && ys[d] == xs[c];
    }
  }

  lemma {:induction false} SplitNone(s: string, sep: char)
    requires sep !in s
    ensures Split(s, sep) == [s]
  {
    if s != "" {
      SplitNone(s[1..], sep);
      assert [s[0]] + s[1..] == s;
    }
  }

  lemma {:induction false} SplitOnce(a: string, b: string, sep: char)
    requires sep !in a && sep !in b
    ensures Split(a + [sep] + b, sep) == [a, b]
  {
    if a == "" {
      assert (a + [sep] + b)[1..] == b;
      SplitNone(b, sep);
    } else {
      assert (a + [sep] + b)[1..] == a[1..] + [sep] + b;
      SplitOnce(a[1..], b, sep);
      assert [a[0]] + a[1..] == a;
    }
  }

  /** A reversed range is the same range; a single number is the range from it to itself. */
  lemma EndpointOrder(a: string, b: string, max: int)
    requires ':' !in a && ':' !in b
    ensures Range(a + ":" + b, max) == Range(b + ":" + a, max)
    ensures Range(a, max) == Range(a + ":" + a, max)
  {
    SplitOnce(a, b, ':');
    SplitOnce(b, a, ':');
    SplitOnce(a, a, ':');
    SplitNone(a, ':');
  }

  // ---------------------------------------------------------------------------------------------
  // Numbers and sets as they are written
  // ---------------------------------------------------------------------------------------------

  /** A number in base ten. */
  function Decimal(n: nat): (s: string)
    ensures s != "" && forall i :: 0 <= i < |s| ==> '0' <= s[i] <= '9'
  {
    if n < 10 then ["0123456789"[n]] else Decimal(n / 10) + ["0123456789"[n % 10]]
  }

  lemma DigitIs(d: nat)
    requires d < 10
    ensures "0123456789"[d] as nat - '0' as nat == d && '0' <= "0123456789"[d] <= '9'
  {
  }

  lemma {:induction false} DigitsRead(n: nat, tail: string)
    ensures Digits(Decimal(n) + tail, 0) == Digits(tail, n)
  {
    DigitIs(n % 10);
    var d := "0123456789"[n % 10];
    assert ([d] + tail)[1..] == tail;
    if n < 10 {
      assert Decimal(n) == [d];
    } else {
      DigitsRead(n / 10, [d] + tail);
      assert Decimal(n) + tail == Decimal(n / 10) + ([d] + tail);
      assert Digits([d] + tail, n / 10) == Digits(tail, 10 * (n / 10) + n % 10);
    }
  }

  /** A written number is read back, with a sign or without, whatever follows that is not a digit. */
  lemma NumberRead(n: nat, tail: string)
    requires !StartsWithDigit(tail)
    ensures ParseInt(Decimal(n) + tail) == Some(n) == ParseInt("+" + Decimal(n) + tail)
    ensures ParseInt("-" + Decimal(n) + tail) == Some(-(n as int))
  {
    DigitsRead(n, tail);
    var s := Decimal(n) + tail;
    assert s[0] == Decimal(n)[0];
    assert ("+" + Decimal(n) + tail)[1..] == s && ("-" + Decimal(n) + tail)[1..] == s;
  }

  /** White space in front is skipped; a text that then begins with something else than a digit, a sign before it allowed, is no number. */
  lemma NoNumber(s: string)
    ensures ParseInt(" " + s) == ParseInt(s)
    ensures ParseInt("\t" + s) == ParseInt(s)
    ensures s == "" || !('0' <= s[0] <= '9' || s[0] in {' ', '\t', '+', '-'}) ==> ParseInt(s).None?
    ensures s == "" || !('0' <= s[0] <= '9') ==> ParseInt("+" + s).None? && ParseInt("-" + s).None?
  {
    assert (" " + s)[1..] == ("\t" + s)[1..] == ("+" + s)[1..] == ("-" + s)[1..] == s;
  }

  /** An endpoint as a client writes it. */
  datatype Written = Number(n: nat) | Star

  function Text(e: Written): string {
    match e
    case Number(n) => Decimal(n)
    case Star => "*"
  }

  function Value(e: Written, max: int): int {
    match e
    case Number(n) => n
    case Star => max
  }

  function SetText(pairs: seq<(Written, Written)>): string
    requires pairs != []
  {
    var chunk := Text(pairs[0].0) + ":" + Text(pairs[0].1);
    if |pairs| == 1 then chunk else chunk + "," + SetText(pairs[1..])
  }

  lemma TextIs(e: Written, max: int)
    ensures Endpoint(Text(e), max) == Some(Value(e, max))
    ensures ':' !in Text(e) && ',' !in Text(e)
  {
    if e.Number? {
      NumberRead(e.n, "");
      assert Decimal(e.n) + "" == Decimal(e.n);
      assert forall c :: c in Decimal(e.n) ==> '0' <= c <= '9';
    }
  }

  lemma ChunkRead(a: Written, b: Written, max: int)
    ensures var (v, w) := (Value(a, max), Value(b, max));
      Range(Text(a) + ":" + Text(b), max) == Some(if v > w then (w, v) else (v, w))
    ensures ',' !in Text(a) + ":" + Text(b)
  {
    TextIs(a, max);
    TextIs(b, max);
    SplitOnce(Text(a), Text(b), ':');
  }

  lemma {:induction false} SplitFirst(a: string, rest: string, sep: char)
    requires sep !in a
    ensures Split(a + [sep] + rest, sep) == [a] + Split(rest, sep)
  {
    if a == "" {
      assert (a + [sep] + rest)[1..] == rest;
    } else {
      assert (a + [sep] + rest)[1..] == a[1..] + [sep] + rest;
      SplitFirst(a[1..], rest, sep);
      assert [a[0]] + a[1..] == a;
      assert ([a[1..]] + Split(rest, sep))[1..] == Split(rest, sep);
    }
  }

  /** `i` lies between the two endpoints, whichever is greater. */
  predicate Between(i: int, pair: (Written, Written), max: int) {
    var (v, w) := (Value(pair.0, max), Value(pair.1, max));
    v <= i <= w || w <= i <= v
  }

  /** `i` stands for message `m`: as its unique identifier, or as its position counted from one. */
  predicate Stands(i: int, uid: bool, offsets: seq<nat>, m: nat) {
    if uid then i == m else 1 <= i <= |offsets| && offsets[i - 1] == m
  }

  /**
   A written set denotes exactly what it says: the indexed messages for which some number between the endpoints of
   some pair stands.
   */
  lemma {:induction false} WrittenSetDenotes(pairs: seq<(Written, Written)>, uid: bool, index: Index, max: int, m: nat)
    requires pairs != []
    ensures Denotes(Split(SetText(pairs), ','), uid, index, max, m) <==>
            m in index.numbers && exists p, i :: p in pairs && Between(i, p, max) && Stands(i, uid, index.offsets, m)
    decreases |pairs|
  {
    var (chunk, rest) := (Text(pairs[0].0) + ":" + Text(pairs[0].1), pairs[1..]);
    ChunkRead(pairs[0].0, pairs[0].1, max);
    ChunkDenotes(pairs[0], uid, index, max, m);
    assert pairs == [pairs[0]] + rest;
    if |pairs| == 1 {
      SplitNone(chunk, ',');
      OneMoreChunk(chunk, [], uid, index, max, m);
      assert [chunk] + [] == [chunk];
    } else {
      SplitFirst(chunk, SetText(rest), ',');
      OneMoreChunk(chunk, Split(SetText(rest), ','), uid, index, max, m);
      WrittenSetDenotes(rest, uid, index, max, m);
    }
  }

  lemma ChunkDenotes(p: (Written, Written), uid: bool, index: Index, max: int, m: nat)
    ensures InChunk(Text(p.0) + ":" + Text(p.1), uid, index, max, m) <==>
            m in index.numbers && exists i :: Between(i, p, max) && Stands(i, uid, index.offsets, m)
  {
    hide Range, Text;
    ChunkRead(p.0, p.1, max);
    var r := Range(Text(p.0) + ":" + Text(p.1), max);
    assert forall i :: Between(i, p, max) <==> r.value.0 <= i <= r.value.1;
    assert forall i :: Named(i, uid, index) == Some(m) <==> m in index.numbers && Stands(i, uid, index.offsets, m);
  }

  lemma OneMoreChunk(chunk: string, chunks: seq<string>, uid: bool, index: Index, max: int, m: nat)
    ensures Denotes([chunk] + chunks, uid, index, max, m) <==>
            InChunk(chunk, uid, index, max, m) || Denotes(chunks, uid, index, max, m)
  {
    hide InChunk;
    var all := [chunk] + chunks;
    if InChunk(chunk, uid, index, max, m) {
      assert all[0] == chunk;
    }
    if Denotes(chunks, uid, index, max, m) {
      var c :| 0 <= c < |chunks| && InChunk(chunks[c], uid, index, max, m);
      assert all[c + 1] == chunks[c];
    }
  }
}
