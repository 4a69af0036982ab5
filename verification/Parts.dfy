/**
 The database of multi-part attachments (exec/binarydecoder.js:446-690): parts of a file are recorded as the
 messages that carry them are found, and a file is put together once all are there.
 */
module Parts {

  datatype Option<T> = None | Some(value: T)

  /** A total that the subject spells with something else than digits is not a number, and equals nothing. */
  datatype Total = Count(n: int) | NaN

  /** What tells files apart. */
  datatype Key = Key(name: string, codec: string, size: Option<int>, crc32: Option<int>)

  /** An entry of the database; `ids` are the parts with a recorded message. */
  datatype Record = Record(key: Key, total: Total, parts: int, ids: map<int, string>) {

    /** The test for a complete file. */
    predicate Counted() {
      total.Count? && parts == total.n
    }

    /** Every part from 1 to the total has a recorded message. */
    ghost predicate Whole() {
      total.Count? && forall p :: 1 <= p <= total.n ==> p in ids
    }

    ghost predicate InRange() {
      forall p :: p in ids ==> 1 <= p && (total.Count? ==> p <= total.n)
    }

    /** Parts counted but not recorded: those a failed combine took back. */
    ghost function Lost(): int {
      parts - |ids|
    }

    ghost predicate Sound() {
      InRange() && Lost() >= 0 && (total.Count? ==> total.n >= 1)
    }
  }

  // ---------------------------------------------------------------------------------------------
  // What the count means
  // ---------------------------------------------------------------------------------------------

  ghost function UpTo(n: int): (s: set<int>)
    ensures forall p {:trigger p in s} :: p in s <==> 1 <= p <= n
    decreases if n < 0 then 0 else n
  {
    if n <= 0 then {} else UpTo(n - 1) + {n}
  }

  lemma {:induction false} UpToSize(n: nat)
    ensures |UpTo(n)| == n
  {
    if n > 0 {
      UpToSize(n - 1);
    }
  }

  lemma SubsetSize(a: set<int>, b: set<int>)
    requires a <= b
    ensures |a| <= |b|
    ensures |a| == |b| ==> a == b
  {
    assert b == a + (b - a);
  }

  /**
   What the count says about an entry. While no part was lost it is exact: the file counts as complete if and only
   if every part is there. After a loss an entry with every part recorded does not count as complete.
   */
  lemma CountExact(r: Record)
    requires r.Sound()
    ensures r.Lost() == 0 ==> (r.Counted() <==> r.Whole())
    ensures r.Lost() > 0 ==> !(r.Counted() && r.Whole())
  {
    if r.total.Count? {
      UpToSize(r.total.n);
      SubsetSize(r.ids.Keys, UpTo(r.total.n));
      assert |r.ids.Keys| == |r.ids|;
      if r.Whole() {
        assert r.ids.Keys == UpTo(r.total.n);
      }
    }
  }

  // ---------------------------------------------------------------------------------------------
  // Adding a part
  // ---------------------------------------------------------------------------------------------

  /** A part as it was found; its subject may give the numbers its text leaves out (-1 if it has none). */
  datatype Found = Found(key: Key, part: int, total: Option<Total>, subjectPart: int, subjectTotal: Total, id: string)

  predicate Below(t: Total, n: int) {
    t.Count? && t.n < n
  }

  /** The part number and the total, or nothing if they cannot be told. */
  function Numbers(f: Found): (r: Option<(int, Total)>)
    ensures r.Some? ==> r.value.0 >= 1 && !Below(r.value.1, r.value.0)
  {
    var part := if f.part < 1 then f.subjectPart else f.part;
    if part < 1 then None
    else
      var total := if f.total.None? || Below(f.total.value, part) then f.subjectTotal else f.total.value;
      if Below(total, part) then None else Some((part, total))
  }

  /** The text's own numbers count where they make sense, a total that is no number included; then the subject's. */
  lemma TextBeforeSubject(f: Found, p: int)
    requires p == if f.part >= 1 then f.part else f.subjectPart
    ensures p <= 0 ==> Numbers(f).None?
    ensures p >= 1 && f.total.Some? && (f.total.value.Count? ==> f.total.value.n >= p) ==> Numbers(f) == Some((p, f.total.value))
    ensures p >= 1 && (f.total.Some? ==> f.total.value.Count? && f.total.value.n < p) ==>
              Numbers(f) == if f.subjectTotal.Count? && f.subjectTotal.n < p then None else Some((p, f.subjectTotal))
  {
  }

  predicate Same(r: Record, key: Key, total: Total) {
    && r.key.name == key.name
    && total.Count? && r.total == total
    && r.key.codec == key.codec
    && (key.size.None? || r.key.size == key.size)
    && (key.crc32.None? || r.key.crc32 == key.crc32)
  }

  /** The first entry for this file, |records| if there is none. */
  function Lookup(records: seq<Record>, key: Key, total: Total): (i: nat)
    ensures i <= |records|
    ensures i < |records| ==> Same(records[i], key, total)
    ensures forall j :: 0 <= j < i ==> !Same(records[j], key, total)
  {
    if records == [] || Same(records[0], key, total) then 0
    else
      assert forall j :: 1 <= j < |records| ==> records[j] == records[1..][j - 1];
      1 + Lookup(records[1..], key, total)
  }

  /** Parts that differ in name, codec, total, or a size or CRC that the part gives never share an entry. */
  lemma SharedEntry(records: seq<Record>, key: Key, total: Total)
    ensures var i := Lookup(records, key, total);
      i < |records| ==>
        && records[i].key.name == key.name && records[i].key.codec == key.codec
        && total.Count? && records[i].total == total
        && (key.size.Some? ==> records[i].key.size == key.size)
        && (key.crc32.Some? ==> records[i].key.crc32 == key.crc32)
    ensures forall k :: 0 <= k < |records| && records[k].key == key && total.Count? && records[k].total == total ==>
              Lookup(records, key, total) <= k
  {
  }

  /** The entry with one more part recorded; a part that is there already changes nothing. */
  function WithPart(r: Record, part: int, id: string): Record {
    if part in r.ids then r else r.(parts := r.parts + 1, ids := r.ids[part := id])
  }

  function Added(records: seq<Record>, f: Found): seq<Record> {
    var numbers := Numbers(f);
    if numbers.None? then records
    else
      var (part, total) := numbers.value;
      var i := Lookup(records, f.key, total);
      if i < |records| then records[i := WithPart(records[i], part, f.id)]
      else records + [WithPart(Record(f.key, total, 0, map[]), part, f.id)]
  }

  lemma WithPartCounts(r: Record, part: int, id: string)
    requires r.Sound() && part >= 1 && !Below(r.total, part)
    ensures WithPart(r, part, id).Sound()
    ensures WithPart(r, part, id).Lost() == r.Lost()
    ensures WithPart(r, part, id).ids.Keys == r.ids.Keys + {part}
  {
    if part !in r.ids {
      assert (r.ids[part := id]).Keys == r.ids.Keys + {part};
      assert |r.ids.Keys| == |r.ids| && |r.ids[part := id].Keys| == |r.ids[part := id]|;
    }
  }

  /** `after` is `before` with this message recorded for the part, unless one was recorded already. */
  ghost predicate Records(before: Record, after: Record, part: int, id: string) {
    if part in before.ids then after == before
    else
      && after.key == before.key && after.total == before.total
      && after.parts == before.parts + 1 && after.ids == before.ids + map[part := id]
  }

  lemma WithPartRecords(r: Record, part: int, id: string)
    ensures Records(r, WithPart(r, part, id), part, id)
  {
    if part !in r.ids {
      assert r.ids[part := id] == r.ids + map[part := id];
    }
  }

  /** A part that can be placed is recorded in one entry: the first for its file, or a new one behind the others. */
  lemma OneEntryChanges(records: seq<Record>, f: Found, part: int, total: Total, i: nat)
    requires Numbers(f) == Some((part, total)) && i == Lookup(records, f.key, total)
    ensures var a := Added(records, f);
      && i < |a| && a[..i] == records[..i]
      && if i == |records| then |a| == i + 1 && Records(Record(f.key, total, 0, map[]), a[i], part, f.id)
         else |a| == |records| && a[i + 1..] == records[i + 1..] && Records(records[i], a[i], part, f.id)
  {
    hide Numbers, Lookup, WithPart, Records;
    if i < |records| {
      WithPartRecords(records[i], part, f.id);
      Replaced(records, i, WithPart(records[i], part, f.id));
    } else {
      var entry := WithPart(Record(f.key, total, 0, map[]), part, f.id);
      WithPartRecords(Record(f.key, total, 0, map[]), part, f.id);
      assert Added(records, f) == records + [entry];
    }
  }

  lemma Replaced<T>(s: seq<T>, i: nat, x: T)
    requires i < |s|
    ensures s[i := x][..i] == s[..i] && s[i := x][i + 1..] == s[i + 1..]
  {
  }

  lemma NotPlaced(records: seq<Record>, f: Found)
    requires Numbers(f).None?
    ensures Added(records, f) == records
  {
  }

  // ---------------------------------------------------------------------------------------------
  // Combining
  // ---------------------------------------------------------------------------------------------

  /** How an attempt to put a file together goes: the scratch file, each part's message, and size and CRC. */
  datatype Attempt = Attempt(opens: bool, delivers: int -> bool, intact: bool)

  /** The first part that cannot be had, the total plus one if all can. */
  function FirstFailure(a: Attempt, total: int, from: int): (p: int)
    ensures from <= p && (from <= total + 1 ==> p <= total + 1)
    ensures p <= total ==> !a.delivers(p)
    ensures forall q :: from <= q < p && q <= total ==> a.delivers(q)
    decreases total + 1 - from
  {
    if from > total || !a.delivers(from) then from else FirstFailure(a, total, from + 1)
  }

  predicate PartFails(r: Record, a: Attempt) {
    r.Counted() && a.opens && FirstFailure(a, r.total.n, 1) <= r.total.n
  }

  predicate Completes(r: Record, a: Attempt) {
    r.Counted() && a.opens && FirstFailure(a, r.total.n, 1) > r.total.n && a.intact
  }

  /** An entry that stays in the database; a part that fails has its message forgotten. */
  function Remains(r: Record, a: Attempt): Record {
    if PartFails(r, a) then r.(ids := r.ids - {FirstFailure(a, r.total.n, 1)}) else r
  }

  /**
   A file completes when it counts as complete, its scratch file opens, every part can be had, and size and CRC
   agree. If a part cannot be had, the first such one is forgotten, and nothing else is.
   */
  lemma AllPartsHad(r: Record, a: Attempt, q: int)
    ensures Completes(r, a) <==> r.Counted() && a.opens && a.intact && forall j :: 1 <= j <= r.total.n ==> a.delivers(j)
    ensures r.Counted() && a.opens && 1 <= q <= r.total.n && !a.delivers(q) && (forall j :: 1 <= j < q ==> a.delivers(j)) ==>
              Remains(r, a) == r.(ids := r.ids - {q})
    ensures !r.Counted() || !a.opens || (forall j :: 1 <= j <= r.total.n ==> a.delivers(j)) ==> Remains(r, a) == r
  {
  }

  /** The database after one pass; `attempts` goes by the position an entry had before it. */
  function Kept(records: seq<Record>, attempts: nat -> Attempt, k: nat): seq<Record>
    requires k <= |records|
    decreases |records| - k
  {
    if k == |records| then []
    else (if Completes(records[k], attempts(k)) then [] else [Remains(records[k], attempts(k))])
         + Kept(records, attempts, k + 1)
  }

  /** The names of the files a pass completes, in order. */
  function Finished(records: seq<Record>, attempts: nat -> Attempt, k: nat): seq<string>
    requires k <= |records|
    decreases |records| - k
  {
    if k == |records| then []
    else (if Completes(records[k], attempts(k)) then [records[k].key.name] else []) + Finished(records, attempts, k + 1)
  }

  lemma KeptStep(records: seq<Record>, attempts: nat -> Attempt, k: nat)
    requires k < |records|
    ensures Kept(records, attempts, k)
            == (if Completes(records[k], attempts(k)) then [] else [Remains(records[k], attempts(k))])
               + Kept(records, attempts, k + 1)
    ensures Finished(records, attempts, k)
            == (if Completes(records[k], attempts(k)) then [records[k].key.name] else [])
               + Finished(records, attempts, k + 1)
  {
  }

  lemma KeptEnd(records: seq<Record>, attempts: nat -> Attempt)
    ensures Kept(records, attempts, |records|) == [] && Finished(records, attempts, |records|) == []
  {
  }

  /** A failed part is lost to the count if it was recorded; nothing else about a pass changes the count. */
  lemma RemainsCounts(r: Record, a: Attempt)
    requires r.Sound()
    ensures Remains(r, a).Sound()
    ensures Remains(r, a).Lost()
            == r.Lost() + if PartFails(r, a) && FirstFailure(a, r.total.n, 1) in r.ids then 1 else 0
  {
    if PartFails(r, a) {
      var p := FirstFailure(a, r.total.n, 1);
      var ids := r.ids - {p};
      assert ids.Keys == r.ids.Keys - {p};
      assert |ids.Keys| == |ids| && |r.ids.Keys| == |r.ids|;
    }
  }

  /**
   The fault this leaves behind: an entry that counted correctly and failed on one part does not count as complete
   when that part is found again, although every part is then recorded.
   */
  lemma FoundAgain(r: Record, a: Attempt, id: string)
    requires r.Sound() && r.Lost() == 0 && PartFails(r, a)
    ensures var s := WithPart(Remains(r, a), FirstFailure(a, r.total.n, 1), id);
      s.Whole() && !s.Counted()
  {
    CountExact(r);
    RemainsCounts(r, a);
    var p := FirstFailure(a, r.total.n, 1);
    WithPartCounts(Remains(r, a), p, id);
    CountExact(WithPart(Remains(r, a), p, id));
  }

  // ---------------------------------------------------------------------------------------------
  // Any run
  // ---------------------------------------------------------------------------------------------

  datatype Event = Add(found: Found) | Combine(attempts: nat -> Attempt)

  function Step(records: seq<Record>, e: Event): seq<Record> {
    match e
    case Add(f) => Added(records, f)
    case Combine(attempts) => Kept(records, attempts, 0)
  }

  function Run(records: seq<Record>, events: seq<Event>): seq<Record>
    decreases |events|
  {
    if events == [] then records else Run(Step(records, events[0]), events[1..])
  }

  /** Each event is taken in turn. */
  lemma {:induction false} RunInTurn(records: seq<Record>, before: seq<Event>, e: Event, after: seq<Event>)
    ensures Run(records, before + [e] + after)
            == Run(match e
                   case Add(f) => Added(Run(records, before), f)
                   case Combine(attempts) => Kept(Run(records, before), attempts, 0),
                   after)
    decreases |before|
  {
    hide Added, Kept;
    var all := before + [e] + after;
    if before == [] {
      assert all == [e] + after && all[1..] == after;
    } else {
      assert all[0] == before[0] && all[1..] == before[1..] + [e] + after;
      RunInTurn(Step(records, before[0]), before[1..], e, after);
    }
  }

  /** No combine of the run fails on a part. */
  ghost predicate NoPartFails(records: seq<Record>, events: seq<Event>)
    decreases |events|
  {
    events != [] ==>
      && (events[0].Combine? ==>
            forall k :: 0 <= k < |records| ==> !PartFails(records[k], events[0].attempts(k)))
      && NoPartFails(Step(records, events[0]), events[1..])
  }

  ghost predicate AllSound(records: seq<Record>, exact: bool) {
    forall r :: r in records ==> r.Sound() && (exact ==> r.Lost() == 0)
  }

  lemma AddedSound(records: seq<Record>, f: Found, exact: bool)
    requires AllSound(records, exact)
    ensures AllSound(Added(records, f), exact)
  {
    if Numbers(f).Some? {
      var (part, total) := Numbers(f).value;
      var i := Lookup(records, f.key, total);
      if i < |records| {
        WithPartCounts(records[i], part, f.id);
      } else {
        WithPartCounts(Record(f.key, total, 0, map[]), part, f.id);
      }
    }
  }

  lemma {:induction false} KeptSound(records: seq<Record>, attempts: nat -> Attempt, k: nat, exact: bool)
    requires AllSound(records, exact) && k <= |records|
    requires exact ==> forall j :: k <= j < |records| ==> !PartFails(records[j], attempts(j))
    ensures AllSound(Kept(records, attempts, k), exact)
    decreases |records| - k
  {
    if k < |records| {
      RemainsCounts(records[k], attempts(k));
      KeptSound(records, attempts, k + 1, exact);
    }
  }

  lemma {:induction false} RunSound(records: seq<Record>, events: seq<Event>, exact: bool)
    requires AllSound(records, exact)
    requires exact ==> NoPartFails(records, events)
    ensures AllSound(Run(records, events), exact)
    decreases |events|
  {
    if events != [] {
      match events[0] {
        case Add(f) => AddedSound(records, f, exact);
        case Combine(attempts) => KeptSound(records, attempts, 0, exact);
      }
      RunSound(Step(records, events[0]), events[1..], exact);
    }
  }

  /**
   Over any run from an empty database, duplicates and all, recorded parts lie within 1 and the total; and as long
   as no combine failed on a part, a file counts as complete if and only if every one of its parts is there.
   */
  lemma CountedIsWhole(events: seq<Event>)
    ensures forall r :: r in Run([], events) ==> r.InRange() && |r.ids| <= r.parts
    ensures NoPartFails([], events) ==> forall r :: r in Run([], events) ==> (r.Counted() <==> r.Whole())
  {
    RunSound([], events, false);
    if NoPartFails([], events) {
      RunSound([], events, true);
      forall r | r in Run([], events) ensures r.Counted() <==> r.Whole() {
        CountExact(r);
      }
    }
  }

  // ---------------------------------------------------------------------------------------------
  // The database
  // ---------------------------------------------------------------------------------------------

  /** Two sequences with a common tail, one element further: taken out, replaced or left. */
  lemma Tails<T>(s: seq<T>, i: nat, t: seq<T>, j: nat, x: T)
    requires i < |s| && j <= |t| && s[i..] == t[j..]
    ensures j < |t| && s[i] == t[j]
    ensures s[i + 1..] == t[j + 1..]
    ensures (s[..i] + s[i + 1..])[i..] == t[j + 1..] && (s[..i] + s[i + 1..])[..i] == s[..i]
    ensures s[i := x][i + 1..] == t[j + 1..] && s[i := x][..i + 1] == s[..i] + [x]
    ensures t[..j + 1] == t[..j] + [t[j]]
  {
    assert s[i] == s[i..][0] && t[j] == t[j..][0];
    assert s[i + 1..] == s[i..][1..] && t[j + 1..] == t[j..][1..];
  }

  class Entry {
    const key: Key
    const total: Total
    var parts: int
    var ids: map<int, string>

    constructor (key: Key, total: Total)
      ensures View() == Record(key, total, 0, map[])
    {
      this.key, this.total := key, total;
      parts, ids := 0, map[];
    }

    function View(): Record
      reads this
    {
      Record(key, total, parts, ids)
    }

    /** Whether the part is new. */
    method AddPart(part: int, id: string) returns (added: bool)
      modifies this
      ensures View() == WithPart(old(View()), part, id)
      ensures added == (part !in old(ids))
    {
      added := part !in ids;
      if added {
        ids := ids[part := id];
        parts := parts + 1;
      }
    }

    /** Tries to put the file together; a part that cannot be had is forgotten. */
    method Combine(a: Attempt) returns (completed: bool)
      modifies this
      ensures completed == Completes(old(View()), a)
      ensures View() == if completed then old(View()) else Remains(old(View()), a)
    {
      if total.NaN? || parts != total.n || !a.opens {
        return false;
      }
      var pi := 1;
      while pi <= total.n && a.delivers(pi)
        invariant 1 <= pi
        invariant FirstFailure(a, total.n, 1) == FirstFailure(a, total.n, pi)
        decreases total.n - pi
      {
        pi := pi + 1;
      }
      if pi <= total.n {
        ids := ids - {pi};
        return false;
      }
      completed := a.intact;
    }
  }

  /**
   A pass over the entries `was` that has looked at the first `k`: what is left of them is in front of position
   `li`, the others are behind it as they were.
   */
  ghost predicate Underway(was: seq<Entry>, records0: seq<Record>, attempts: nat -> Attempt, k: nat,
                           list: seq<Entry>, records: seq<Record>, li: nat, finished: seq<string>)
  {
    && |was| == |records0| && |list| == |records| && k <= |was| && li <= |list|
    && list[li..] == was[k..] && records[li..] == records0[k..]
    && (forall e :: e in list ==> e in was)
    && Kept(records0, attempts, 0) == records[..li] + Kept(records0, attempts, k)
    && Finished(records0, attempts, 0) == finished + Finished(records0, attempts, k)
  }

  lemma PassStarts(was: seq<Entry>, records0: seq<Record>, attempts: nat -> Attempt)
    requires |was| == |records0|
    ensures Underway(was, records0, attempts, 0, was, records0, 0, [])
  {
  }

  lemma PassStep(was: seq<Entry>, records0: seq<Record>, attempts: nat -> Attempt, k: nat,
                 list: seq<Entry>, records: seq<Record>, li: nat, finished: seq<string>)
    requires Underway(was, records0, attempts, k, list, records, li, finished) && li < |list|
    ensures k < |was| && list[li] in was && list[li] == was[k]
    ensures Completes(records[li], attempts(k)) ==>
              Underway(was, records0, attempts, k + 1, list[..li] + list[li + 1..], records[..li] + records[li + 1..], li,
                       finished + [records[li].key.name])
    ensures !Completes(records[li], attempts(k)) ==>
              Underway(was, records0, attempts, k + 1, list, records[li := Remains(records[li], attempts(k))], li + 1, finished)
  {
    hide Completes, Remains, Kept, Finished;
    Tails(list, li, was, k, list[li]);
    Tails(records, li, records0, k, Remains(records[li], attempts(k)));
    KeptStep(records0, attempts, k);
  }

  lemma PassEnds(was: seq<Entry>, records0: seq<Record>, attempts: nat -> Attempt,
                 list: seq<Entry>, records: seq<Record>, finished: seq<string>)
    requires Underway(was, records0, attempts, |was|, list, records, |list|, finished)
    ensures records == Kept(records0, attempts, 0) && finished == Finished(records0, attempts, 0)
    ensures forall e :: e in list ==> e in was
  {
    KeptEnd(records0, attempts);
  }

  class Database {
    var list: seq<Entry>
    ghost var records: seq<Record>

    /** The entries are distinct objects, and `records` are their values. */
    ghost predicate Valid()
      reads this, list
    {
      && |list| == |records|
      && (forall i :: 0 <= i < |list| ==> list[i].View() == records[i])
      && forall i, j :: 0 <= i < j < |list| ==> list[i] != list[j]
    }

    constructor ()
      ensures Valid() && records == []
    {
      list, records := [], [];
    }

    method Search(key: Key, total: Total) returns (li: nat)
      requires Valid()
      ensures li == Lookup(records, key, total)
    {
      li := 0;
      while li < |list| && !Same(list[li].View(), key, total)
        invariant li <= |list|
        invariant Lookup(records, key, total) == li + Lookup(records[li..], key, total)
      {
        li := li + 1;
      }
    }

    method Resolve(f: Found) returns (numbers: Option<(int, Total)>)
      ensures numbers == Numbers(f)
    {
      var part, total := f.part, f.total;
      if part < 1 {
        part := f.subjectPart;
        if part < 1 {
          return None;
        }
      }
      if total.None? || Below(total.value, part) {
        total := Some(f.subjectTotal);
        if Below(total.value, part) {
          return None;
        }
      }
      numbers := Some((part, total.value));
    }

    method AddPart(f: Found) returns (ok: bool)
      requires Valid()
      modifies this, list
      ensures Valid() && records == Added(old(records), f)
      ensures ok == Numbers(f).Some?
      ensures forall e :: e in list ==> e in old(list) || fresh(e)
    {
      hide Numbers, Lookup, WithPart;
      var numbers := Resolve(f);
      ok := numbers.Some?;
      if ok {
        var (part, total) := numbers.value;
        var li := Search(f.key, total);
        if li < |list| {
          records := records[li := WithPart(records[li], part, f.id)];
          var added := list[li].AddPart(part, f.id);
        } else {
          var obj := new Entry(f.key, total);
          var added := obj.AddPart(part, f.id);
          list, records := list + [obj], records + [obj.View()];
        }
      }
    }
  
    /** One entry of the pass: a completed one is spliced out and the index stays, else it moves on. */
    method Attend(li: nat, a: Attempt) returns (completed: bool, next: int)
      requires Valid() && li < |list|
      modifies this, list[li]
      ensures Valid()
      ensures completed == Completes(old(records)[li], a)
      ensures list == if completed then old(list)[..li] + old(list)[li + 1..] else old(list)
      ensures records == if completed then old(records)[..li] + old(records)[li + 1..]
                         else old(records)[li := Remains(old(records)[li], a)]
      ensures next == if completed then li else li + 1
    {
      hide Completes, Remains;
      next := li;
      completed := list[li].Combine(a);
      if completed {
        list, records := list[..li] + list[li + 1..], records[..li] + records[li + 1..];
        next := next - 1;
      } else {
        records := records[li := Remains(records[li], a)];
      }
      next := next + 1;
    }

    /**
     The scan that takes entries out of the list it walks. Each entry is looked at exactly once, and those that
     are not completed stay, in order.
     */
    method CombineParts(attempts: nat -> Attempt) returns (finished: seq<string>, examined: seq<Entry>)
      requires Valid()
      modifies this, list
      ensures Valid() && records == Kept(old(records), attempts, 0)
      ensures finished == Finished(old(records), attempts, 0)
      ensures examined == old(list)
      ensures forall e :: e in list ==> e in old(list)
    {
      hide Completes, Remains, Kept, Finished, Underway;
      var li: int := 0;
      finished, examined := [], [];
      PassStarts(list, records, attempts);
      while li < |list|
        invariant 0 <= li <= |list| && |examined| <= |old(list)| && |list| - li == |old(list)| - |examined|
        invariant Valid() && examined == old(list)[..|examined|]
        invariant Underway(old(list), old(records), attempts, |examined|, list, records, li, finished)
        decreases |list| - li
      {
        var e, k := list[li], |examined|;
        PassStep(old(list), old(records), attempts, k, list, records, li, finished);
        var completed, next := Attend(li, attempts(k));
        li, examined := next, examined + [e];
        if completed {
          finished := finished + [e.key.name];
        }
      }
      PassEnds(old(list), old(records), attempts, list, records, finished);
    }
  }
}
