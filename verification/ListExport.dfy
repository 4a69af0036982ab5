/**
 The mailing list server's export of new messages to subscribers (exec/listserver.js:230-360): one list, its
 message base, and the pointer to the last message that was dealt with.
 */
module ListExport {

  datatype Option<T> = None | Some(value: T)

  /** What the export reads of a message: header flags, and whether its text can be read. */
  datatype Message = Message(deleted: bool, private_: bool, moderated: bool, validated: bool, readable: bool)

  /** The message base as one run finds it; numbers without a header are not in `messages`. */
  datatype Base = Base(messages: map<int, Message>, firstMsg: int, lastMsg: int)

  datatype User = User(name: string, address: string, disabled: bool)

  datatype Recipient = Recipient(name: string, address: string)

  /** A message handed to the mail base. */
  datatype Mail = Mail(number: int, recipients: seq<Recipient>)

  // ---------------------------------------------------------------------------------------------
  // One run
  // ---------------------------------------------------------------------------------------------

  /** Subscribers that get mail; one without a name is addressed by its address. */
  function Active(users: seq<User>): seq<Recipient> {
    if users == [] then []
    else
      var u := users[0];
      if u.disabled || u.address == "" then Active(users[1..])
      else [Recipient(if u.name == "" then u.address else u.name, u.address)] + Active(users[1..])
  }

  /** Exactly the enabled subscribers with an address receive, in the order they subscribed. */
  lemma {:induction false} ActiveExact(users: seq<User>, more: seq<User>, u: User)
    ensures Active(users + [u] + more) ==
            Active(users)
            + (if u.disabled || u.address == "" then [] else [Recipient(if u.name == "" then u.address else u.name, u.address)])
            + Active(more)
  {
    if users == [] {
      assert [] + [u] + more == [u] + more && ([u] + more)[1..] == more;
    } else {
      assert (users + [u] + more)[1..] == users[1..] + [u] + more;
      ActiveExact(users[1..], more, u);
    }
  }

  predicate Public(m: Message) {
    !m.deleted && !m.private_
  }

  /** An unvalidated message of a moderated list: the run stops in front of it. */
  predicate Held(base: Base, n: int) {
    n in base.messages && Public(base.messages[n]) && base.messages[n].moderated && !base.messages[n].validated
  }

  /** A message subscribers are to get. */
  predicate Eligible(base: Base, n: int) {
    && n in base.messages
    && Public(base.messages[n])
    && (base.messages[n].moderated ==> base.messages[n].validated)
    && base.messages[n].readable
  }

  /** What becomes of a message: neither deleted nor private ones are looked at, and only unvalidated moderated ones hold a run up. */
  lemma MessageRead(base: Base, n: int)
    ensures n !in base.messages ==> !Eligible(base, n) && !Held(base, n)
    ensures n in base.messages ==>
              var m := base.messages[n];
              && (m.deleted || m.private_ ==> !Eligible(base, n) && !Held(base, n))
              && (!m.deleted && !m.private_ ==>
                    && (Held(base, n) <==> m.moderated && !m.validated)
                    && (Eligible(base, n) <==> m.readable && !Held(base, n)))
  {
  }

  /** The number the run starts at. Without a pointer nothing that is there already is exported. */
  function Start(base: Base, ptr: Option<int>): int {
    if ptr.None? then base.lastMsg + 1
    else if ptr.value < base.firstMsg then base.firstMsg
    else ptr.value + 1
  }

  /** The first held message at or after `n`, else the number after the last message. */
  function Barrier(base: Base, n: int): (b: int)
    ensures n <= b || base.lastMsg < n
    ensures b <= base.lastMsg ==> n <= b && Held(base, b)
    ensures forall m :: n <= m < b ==> !Held(base, m)
    ensures n <= base.lastMsg + 1 ==> b <= base.lastMsg + 1
    decreases base.lastMsg + 1 - n
  {
    if n > base.lastMsg || Held(base, n) then n else Barrier(base, n + 1)
  }

  /** The messages sent from `n` up to `end`, in order. */
  function SentIn(base: Base, recipients: seq<Recipient>, n: int, end: int): seq<Mail>
    decreases end - n
  {
    if n >= end then []
    else (if Eligible(base, n) && recipients != [] then [Mail(n, recipients)] else []) + SentIn(base, recipients, n + 1, end)
  }

  /** The pointer a run saves. */
  function Saved(base: Base, ptr: Option<int>): int {
    var b := Barrier(base, Start(base, ptr));
    if b > base.lastMsg then base.lastMsg else b - 1
  }

  lemma {:induction false} SentStep(base: Base, recipients: seq<Recipient>, n: int, end: int)
    requires n <= end
    ensures SentIn(base, recipients, n, n) == []
    ensures SentIn(base, recipients, n, end + 1)
            == SentIn(base, recipients, n, end) + SentIn(base, recipients, end, end + 1)
    decreases end - n
  {
    if n < end {
      SentStep(base, recipients, n + 1, end);
    }
  }

  ghost predicate Ascending(sent: seq<Mail>) {
    forall j, k :: 0 <= j < k < |sent| ==> sent[j].number < sent[k].number
  }

  ghost predicate Has(sent: seq<Mail>, m: int) {
    exists k :: 0 <= k < |sent| && sent[k].number == m
  }

  lemma HasConcat(a: seq<Mail>, b: seq<Mail>, m: int)
    ensures Has(a + b, m) <==> Has(a, m) || Has(b, m)
  {
    if Has(a, m) {
      var k :| 0 <= k < |a| && a[k].number == m;
      assert (a + b)[k].number == m;
    }
    if Has(b, m) {
      var k :| 0 <= k < |b| && b[k].number == m;
      assert (a + b)[|a| + k].number == m;
    }
  }

  /** A stretch without a held message is sent exactly: every eligible number in it once, in order, to everyone active. */
  lemma {:induction false} SentInExact(base: Base, recipients: seq<Recipient>, n: int, end: int)
    ensures var s := SentIn(base, recipients, n, end);
      && Ascending(s)
      && (forall k :: 0 <= k < |s| ==> n <= s[k].number < end && s[k].recipients == recipients)
      && forall m :: Has(s, m) <==> n <= m < end && Eligible(base, m) && recipients != []
    decreases end - n
  {
    if n < end {
      SentInExact(base, recipients, n + 1, end);
      var rest := SentIn(base, recipients, n + 1, end);
      var head := if Eligible(base, n) && recipients != [] then [Mail(n, recipients)] else [];
      forall m ensures Has(head + rest, m) <==> n <= m < end && Eligible(base, m) && recipients != [] {
        HasConcat(head, rest, m);
        if head != [] {
          assert Has(head, n) by { assert head[0].number == n; }
        }
      }
    }
  }

  /** A pointer never moves back, unless it was beyond the last message to begin with. */
  lemma PointerAdvances(base: Base, p: int)
    ensures p <= Saved(base, Some(p)) <==> p <= base.lastMsg
    ensures Saved(base, Some(p)) <= base.lastMsg
  {
  }

  /** A run leaves off at the last message, or in front of a held one. */
  lemma StopsOnlyAtHeld(base: Base, ptr: Option<int>)
    ensures Saved(base, ptr) == base.lastMsg || Held(base, Saved(base, ptr) + 1)
  {
  }

  // ---------------------------------------------------------------------------------------------
  // Many runs
  // ---------------------------------------------------------------------------------------------

  /** A run of the server: what it finds, and whether the pointer could be written. */
  datatype Visit = Visit(base: Base, users: seq<User>, saves: bool)

  function Outgoing(ptr: Option<int>, v: Visit): seq<Mail> {
    if v.users == [] then []
    else SentIn(v.base, Active(v.users), Start(v.base, ptr), Barrier(v.base, Start(v.base, ptr)))
  }

  /** A list without subscribers is left alone, its pointer too. */
  function Next(ptr: Option<int>, v: Visit): Option<int> {
    if v.users == [] || !v.saves then ptr else Some(Saved(v.base, ptr))
  }

  function PointerAfter(ptr: Option<int>, visits: seq<Visit>): Option<int>
    decreases |visits|
  {
    if visits == [] then ptr else PointerAfter(Next(ptr, visits[0]), visits[1..])
  }

  function Delivered(ptr: Option<int>, visits: seq<Visit>): seq<Mail>
    decreases |visits|
  {
    if visits == [] then [] else Outgoing(ptr, visits[0]) + Delivered(Next(ptr, visits[0]), visits[1..])
  }

  /**
   The first run of a list, which has no pointer yet, sends nothing; it saves the last message's number. Later ones
   start after their pointer, and not before the first message there is.
   */
  lemma FirstRun(v: Visit)
    ensures Outgoing(None, v) == []
    ensures v.users != [] && v.saves ==> Next(None, v) == Some(v.base.lastMsg)
    ensures Next(None, v.(saves := false)) == Next(None, v.(users := [])) == None
    ensures forall p :: Start(v.base, Some(p)) == if p + 1 <= v.base.firstMsg then v.base.firstMsg else p + 1
  {
    hide Held;
    assert Start(v.base, None) == v.base.lastMsg + 1;
  }

  /**
   Between runs messages may be posted, validated, deleted or purged, and subscribers come and go. A base holds
   no number outside its bounds, and the last number never falls.
   */
  ghost predicate Timeline(ptr: Option<int>, visits: seq<Visit>) {
    && (forall k :: 0 <= k < |visits| ==> visits[k].saves)
    && (forall k, n :: 0 <= k < |visits| && n in visits[k].base.messages ==>
          visits[k].base.firstMsg <= n <= visits[k].base.lastMsg)
    && (forall j, k :: 0 <= j < k < |visits| ==> visits[j].base.lastMsg <= visits[k].base.lastMsg)
    && (visits != [] && ptr.Some? ==> ptr.value <= visits[0].base.lastMsg)
  }

  /** Run `v`, which started with pointer `ptr`, moved it past the number `m`. */
  ghost predicate Passes(ptr: Option<int>, v: Visit, m: int) {
    ptr.Some? && Next(ptr, v).Some? && ptr.value < m <= Next(ptr, v).value
  }

  /** The message `m` was eligible, and somebody subscribed, when the pointer moved past it. */
  ghost predicate Due(ptr: Option<int>, visits: seq<Visit>, m: int) {
    exists k :: 0 <= k < |visits| && DueAt(PointerAfter(ptr, visits[..k]), visits[k], m)
  }

  ghost predicate DueAt(ptr: Option<int>, v: Visit, m: int) {
    Passes(ptr, v, m) && Eligible(v.base, m) && Active(v.users) != []
  }

  lemma OneVisit(ptr: Option<int>, v: Visit)
    requires Timeline(ptr, [v])
    ensures Ascending(Outgoing(ptr, v))
    ensures forall m :: Has(Outgoing(ptr, v), m) <==> DueAt(ptr, v, m)
    ensures ptr.Some? ==> Next(ptr, v).Some? && ptr.value <= Next(ptr, v).value
    ensures Next(ptr, v).Some? ==> Next(ptr, v).value <= v.base.lastMsg
  {
    if v.users != [] {
      assert [v][0] == v;
      SentInExact(v.base, Active(v.users), Start(v.base, ptr), Barrier(v.base, Start(v.base, ptr)));
      if ptr.Some? {
        PointerAdvances(v.base, ptr.value);
      }
    }
  }

  lemma {:induction false} DueSplit(ptr: Option<int>, visits: seq<Visit>, m: int)
    requires visits != []
    ensures Due(ptr, visits, m) <==> DueAt(ptr, visits[0], m) || Due(Next(ptr, visits[0]), visits[1..], m)
  {
    var next, rest := Next(ptr, visits[0]), visits[1..];
    assert forall k :: 0 <= k < |rest| ==> visits[..k + 1][1..] == rest[..k];
    if Due(ptr, visits, m) {
      var k :| 0 <= k < |visits| && DueAt(PointerAfter(ptr, visits[..k]), visits[k], m);
      if k > 0 {
        assert visits[..k][1..] == rest[..k - 1];
        assert DueAt(PointerAfter(next, rest[..k - 1]), rest[k - 1], m);
      }
    }
    if DueAt(ptr, visits[0], m) {
      assert DueAt(PointerAfter(ptr, visits[..0]), visits[0], m);
    }
    if Due(next, rest, m) {
      var k :| 0 <= k < |rest| && DueAt(PointerAfter(next, rest[..k]), rest[k], m);
      assert DueAt(PointerAfter(ptr, visits[..k + 1]), visits[k + 1], m);
    }
  }

  /**
   Exactly-once delivery over any sequence of runs: numbers go out in ascending order, so none twice, and a
   message goes out if and only if it was eligible when the pointer moved past it. The pointer only moves up, so
   it moves past every number between where it starts and where it ends.
   */
  lemma {:induction false} ExactlyOnce(ptr: Option<int>, visits: seq<Visit>)
    requires Timeline(ptr, visits)
    ensures Ascending(Delivered(ptr, visits))
    ensures forall m :: Has(Delivered(ptr, visits), m) <==> Due(ptr, visits, m)
    ensures ptr.Some? ==> PointerAfter(ptr, visits).Some? && ptr.value <= PointerAfter(ptr, visits).value
    ensures ptr.Some? ==> forall m :: Has(Delivered(ptr, visits), m) ==> ptr.value < m
    decreases |visits|
  {
    if visits != [] {
      var v, next, rest := visits[0], Next(ptr, visits[0]), visits[1..];
      OneVisit(ptr, v);
      ExactlyOnce(next, rest);
      var a, b := Outgoing(ptr, v), Delivered(next, rest);
      forall m
        ensures Has(a + b, m) <==> Due(ptr, visits, m)
        ensures ptr.Some? && Has(a + b, m) ==> ptr.value < m
      {
        HasConcat(a, b, m);
        DueSplit(ptr, visits, m);
      }
      forall j, k | 0 <= j < |a| && 0 <= k < |b| ensures a[j].number < b[k].number {
        assert Has(a, a[j].number) && Has(b, b[k].number);
      }
    }
  }

  /** Every number between the first and the last pointer is moved past by one run. */
  lemma {:induction false} EveryNumberPassed(ptr: Option<int>, visits: seq<Visit>, m: int)
    requires Timeline(ptr, visits) && ptr.Some?
    requires PointerAfter(ptr, visits).Some? && ptr.value < m <= PointerAfter(ptr, visits).value
    ensures exists k :: 0 <= k < |visits| && Passes(PointerAfter(ptr, visits[..k]), visits[k], m)
    decreases |visits|
  {
    if visits != [] {
      OneVisit(ptr, visits[0]);
      var next, rest := Next(ptr, visits[0]), visits[1..];
      if m <= next.value {
        assert Passes(PointerAfter(ptr, visits[..0]), visits[0], m);
      } else {
        EveryNumberPassed(next, rest, m);
        var k :| 0 <= k < |rest| && Passes(PointerAfter(next, rest[..k]), rest[k], m);
        assert visits[..k + 1] == [visits[0]] + rest[..k];
        assert Passes(PointerAfter(ptr, visits[..k + 1]), visits[k + 1], m);
      }
    }
  }

  /**
   Nothing from an unvalidated moderated message on leaves over any number of runs in which it stays unvalidated,
   and the pointer stays in front of it.
   */
  lemma {:induction false} HeldBack(ptr: Option<int>, visits: seq<Visit>, h: int)
    requires Timeline(ptr, visits) && ptr.Some? && ptr.value < h
    requires forall k :: 0 <= k < |visits| ==> Held(visits[k].base, h)
    ensures forall m :: Has(Delivered(ptr, visits), m) ==> m < h
    ensures PointerAfter(ptr, visits).Some? && PointerAfter(ptr, visits).value < h
    decreases |visits|
  {
    hide Held, Outgoing, Next;
    if visits != [] {
      var v, next, rest := visits[0], Next(ptr, visits[0]), visits[1..];
      OneVisit(ptr, v);
      HeldOnce(ptr, v, h);
      HeldBack(next, rest, h);
      forall m | Has(Delivered(ptr, visits), m) ensures m < h {
        HasConcat(Outgoing(ptr, v), Delivered(next, rest), m);
      }
    }
  }

  lemma HeldOnce(ptr: Option<int>, v: Visit, h: int)
    requires Timeline(ptr, [v]) && Held(v.base, h) && ptr.Some? && ptr.value < h
    ensures Next(ptr, v).Some? && Next(ptr, v).value < h
    ensures forall m :: Has(Outgoing(ptr, v), m) ==> m < h
  {
    OneVisit(ptr, v);
    assert [v][0] == v;
  }

  /** Something is there to be sent: somebody active, and an eligible message in front of the first held one. */
  ghost predicate Waiting(ptr: Option<int>, v: Visit) {
    Active(v.users) != [] &&
    exists m :: Start(v.base, ptr) <= m < Barrier(v.base, Start(v.base, ptr)) && Eligible(v.base, m)
  }

  lemma WaitingIsSent(ptr: Option<int>, v: Visit)
    ensures Outgoing(ptr, v) == [] <==> !Waiting(ptr, v)
  {
    hide Barrier, Start;
    var (n, end) := (Start(v.base, ptr), Barrier(v.base, Start(v.base, ptr)));
    SentInExact(v.base, Active(v.users), n, end);
    var s := SentIn(v.base, Active(v.users), n, end);
    if s != [] {
      assert Has(s, s[0].number);
    }
    if Waiting(ptr, v) {
      var m :| n <= m < end && Eligible(v.base, m);
      assert Has(s, m);
    }
  }

  /** A run whose pointer cannot be written is repeated: the next one delivers the same again, if anything waits. */
  lemma OnceExact(ptr: Option<int>, v: Visit, saves: bool)
    requires Timeline(ptr, [v])
    ensures Ascending(Delivered(ptr, [v.(saves := saves), v])) <==> saves || !Waiting(ptr, v)
  {
    var w := v.(saves := saves);
    assert [w, v][1..] == [v] && [v][1..] == [] && [v][0] == v;
    WaitingIsSent(ptr, v);
    var a := Outgoing(ptr, w);
    assert a == Outgoing(ptr, v);
    OneVisit(ptr, v);
    if saves {
      assert w == v;
      assert Timeline(ptr, [v, v]) by {
        forall k | 0 <= k < 2 ensures [v, v][k] == v {}
      }
      ExactlyOnce(ptr, [v, v]);
    } else {
      var d := Delivered(ptr, [w, v]);
      assert d == a + a by {
        assert Delivered(ptr, [v]) == a + Delivered(Next(ptr, v), []);
      }
      if a != [] {
        assert d[0] == d[|a|];
      }
    }
  }

  // ---------------------------------------------------------------------------------------------
  // The loop
  // ---------------------------------------------------------------------------------------------

  method ActiveSubscribers(users: seq<User>) returns (recipients: seq<Recipient>)
    ensures recipients == Active(users)
  {
    recipients := [];
    for k := 0 to |users|
      invariant Active(users) == recipients + Active(users[k..])
    {
      assert users[k..] == [users[k]] + users[k + 1..];
      var u := users[k];
      if !u.disabled && u.address != "" {
        recipients := recipients + [Recipient(if u.name == "" then u.address else u.name, u.address)];
      }
    }
  }

  /** One mailing list: its pointer in the configuration file, the one in the older file, and the outgoing mail. */
  class MailingList {
    var iniPtr: Option<int>
    var oldPtr: Option<int>
    var mail: seq<Mail>

    constructor (iniPtr: Option<int>, oldPtr: Option<int>)
      ensures this.iniPtr == iniPtr && this.oldPtr == oldPtr && mail == []
    {
      this.iniPtr, this.oldPtr, mail := iniPtr, oldPtr, [];
    }

    function Pointer(): (ptr: Option<int>)
      reads this
      ensures iniPtr.Some? ==> ptr == iniPtr
      ensures iniPtr.None? ==> ptr == oldPtr
    {
      if iniPtr.Some? then iniPtr else oldPtr
    }

    /** One message of the loop; true if the run stops in front of it. */
    method Offer(base: Base, users: seq<User>, ptr: int) returns (stop: bool)
      modifies this`mail
      ensures stop == Held(base, ptr)
      ensures mail == old(mail) + if stop then [] else SentIn(base, Active(users), ptr, ptr + 1)
    {
      assert SentIn(base, Active(users), ptr + 1, ptr + 1) == [];
      if ptr !in base.messages {
        return false;
      }
      var hdr := base.messages[ptr];
      if hdr.deleted || hdr.private_ {
        return false;
      }
      if hdr.moderated && !hdr.validated {
        return true;
      }
      if !hdr.readable {
        return false;
      }
      var recipients := ActiveSubscribers(users);
      if recipients == [] {
        return false;
      }
      mail := mail + [Mail(ptr, recipients)];
      stop := false;
    }

    method Export(v: Visit)
      modifies this
      ensures mail == old(mail) + Outgoing(old(Pointer()), v)
      ensures Pointer() == Next(old(Pointer()), v)
    {
      hide SentIn, Held, Active;
      if v.users == [] {
        return;
      }
      var base := v.base;
      var ptr := Start(base, Pointer());
      ghost var start, end := ptr, Barrier(base, ptr);
      SentStep(base, Active(v.users), start, start);
      while ptr <= base.lastMsg
        invariant start <= ptr && (ptr <= base.lastMsg + 1 || ptr == start)
        invariant end == Barrier(base, ptr)
        invariant mail == old(mail) + SentIn(base, Active(v.users), start, ptr)
        invariant iniPtr == old(iniPtr) && oldPtr == old(oldPtr)
      {
        var stop := Offer(base, v.users, ptr);
        if stop {
          ptr := ptr - 1;
          break;
        }
        SentStep(base, Active(v.users), start, ptr);
        ptr := ptr + 1;
      }
      if ptr > base.lastMsg {
        ptr := base.lastMsg;
      }
      if v.saves {
        iniPtr, oldPtr := Some(ptr), None;
      }
    }
  }
}
