/**
 The IMAP service's compressed sets of seen messages (exec/imapservice.js): `binify` packs runs of nearby
 message numbers into bit strings, `save_cfg` stores them, `read_cfg` unpacks them.

 Base64 is taken to be an exact inverse pair and left out; a bit string is a sequence of bytes.
 */
module SeenSet {

  type Byte = bv8
  type Bytes = seq<Byte>

  /** 1 << k */
  function Mask(k: nat): Byte
    requires k < 8
  {
    if k == 0 then 1 else if k == 1 then 2 else if k == 2 then 4 else if k == 3 then 8
    else if k == 4 then 16 else if k == 5 then 32 else if k == 6 then 64 else 128
  }

  predicate Bit(b: Byte, j: nat)
    requires j < 8
  {
    b & Mask(j) != 0
  }

  function WithBit(b: Byte, k: nat): Byte
    requires k < 8
  {
    b | Mask(k)
  }

  lemma MaskSets(b: Byte, k: nat, j: nat)
    requires k < 8 && j < 8
    ensures Bit(WithBit(b, k), j) <==> Bit(b, j) || j == k
  {
  }

  lemma NoBits(j: nat)
    requires j < 8
    ensures (0 as Byte) & Mask(j) == 0
  {
  }

  /** The bit string that begins at message `base` marks message `m`. */
  predicate HasBit(bytes: Bytes, base: nat, m: nat) {
    base <= m && (m - base) / 8 < |bytes| && bytes[(m - base) / 8] & Mask((m - base) % 8) != 0
  }

  /** Which bit stands for a message: the byte eight messages on for each eight, within it the least for the first. */
  lemma BitOrder(bytes: Bytes, base: nat, i: nat)
    requires i < |bytes|
    ensures HasBit(bytes, base, base + 8 * i) <==> bytes[i] & 0x01 != 0
    ensures HasBit(bytes, base, base + 8 * i + 1) <==> bytes[i] & 0x02 != 0
    ensures HasBit(bytes, base, base + 8 * i + 2) <==> bytes[i] & 0x04 != 0
    ensures HasBit(bytes, base, base + 8 * i + 3) <==> bytes[i] & 0x08 != 0
    ensures HasBit(bytes, base, base + 8 * i + 4) <==> bytes[i] & 0x10 != 0
    ensures HasBit(bytes, base, base + 8 * i + 5) <==> bytes[i] & 0x20 != 0
    ensures HasBit(bytes, base, base + 8 * i + 6) <==> bytes[i] & 0x40 != 0
    ensures HasBit(bytes, base, base + 8 * i + 7) <==> bytes[i] & 0x80 != 0
  {
  }

  // ---------------------------------------------------------------------------------------------
  // Runs
  // ---------------------------------------------------------------------------------------------

  ghost predicate HasNext(s: set<nat>, m: nat) {
    exists x :: x in s && m < x <= m + 32
  }

  ghost predicate HasPrev(s: set<nat>, m: nat) {
    exists x :: x in s && x < m <= x + 32
  }

  /** More than 32 from every other message. */
  ghost predicate Isolated(s: set<nat>, m: nat) {
    m in s && !HasNext(s, m) && !HasPrev(s, m)
  }

  ghost predicate StartsRun(s: set<nat>, b: nat) {
    b in s && HasNext(s, b) && !HasPrev(s, b)
  }

  /** From `b` to `m` there is no gap of more than 32. */
  ghost predicate Chained(s: set<nat>, b: nat, m: nat) {
    b in s && m in s && b <= m && forall x :: x in s && b <= x < m ==> HasNext(s, x)
  }

  /**
   The compression of a set, without reference to how it is computed: what is left behind are the
   isolated messages; there is one bit string for each run, and it marks exactly the run's messages.
   */
  ghost predicate Compressed(s: set<nat>, left: set<nat>, runs: map<nat, Bytes>) {
    && (forall m :: m in left <==> Isolated(s, m))
    && (forall b :: b in runs <==> StartsRun(s, b))
    && (forall b, m :: b in runs ==> (HasBit(runs[b], b, m) <==> Chained(s, b, m)))
    && (forall b :: b in runs ==> runs[b] != [] && runs[b][|runs[b]| - 1] != 0)
  }

  lemma {:induction false} RunOf(s: set<nat>, m: nat) returns (b: nat)
    requires m in s && !Isolated(s, m)
    ensures StartsRun(s, b) && Chained(s, b, m)
    decreases m
  {
    if HasPrev(s, m) {
      var p :| p in s && p < m <= p + 32;
      assert HasNext(s, p);
      b := RunOf(s, p);
      forall x | x in s && b <= x < m ensures HasNext(s, x) {
        if p < x {
          assert m in s && x < m <= x + 32;
        }
      }
    } else {
      b := m;
    }
  }

  /** Inside a chain every message but the first has one close before it. */
  lemma {:induction false} ChainHasPrev(s: set<nat>, b: nat, m: nat, y: nat)
    requires Chained(s, b, m) && y in s && b < y <= m
    ensures HasPrev(s, y)
    decreases y - b
  {
    assert HasNext(s, b);
    var x :| x in s && b < x <= b + 32;
    if x < y {
      ChainHasPrev(s, x, m, y);
    } else {
      assert b in s && b < y <= b + 32;
    }
  }

  lemma ChainedIsNotIsolated(s: set<nat>, b: nat, m: nat)
    requires StartsRun(s, b) && Chained(s, b, m)
    ensures !Isolated(s, m)
  {
    if b < m {
      ChainHasPrev(s, b, m, m);
    }
  }

  lemma RunUnique(s: set<nat>, b: nat, c: nat, m: nat)
    requires StartsRun(s, b) && StartsRun(s, c) && Chained(s, b, m) && Chained(s, c, m)
    ensures b == c
  {
    if b < c {
      ChainHasPrev(s, b, m, c);
    } else if c < b {
      ChainHasPrev(s, c, m, b);
    }
  }

  /** The messages that some bit string marks. */
  ghost predicate Marked(runs: map<nat, Bytes>, m: nat) {
    exists b :: b in runs && HasBit(runs[b], b, m)
  }

  /**
   Nothing is lost and nothing is stored twice: a message is in the set exactly when it was left behind or
   is marked by a bit string; never both; and never by two bit strings.
   */
  lemma CompressionLossless(s: set<nat>, left: set<nat>, runs: map<nat, Bytes>)
    requires Compressed(s, left, runs)
    ensures forall m: nat :: m in s <==> m in left || Marked(runs, m)
    ensures forall m: nat :: !(m in left && Marked(runs, m))
    ensures forall m: nat, b, c :: b in runs && c in runs && HasBit(runs[b], b, m) && HasBit(runs[c], c, m) ==> b == c
  {
    forall m: nat | m in s ensures m in left || Marked(runs, m) {
      if !Isolated(s, m) {
        var b := RunOf(s, m);
        assert b in runs && HasBit(runs[b], b, m);
      }
    }
    forall m: nat, b | b in runs && HasBit(runs[b], b, m) ensures m in s && m !in left {
      assert Chained(s, b, m);
      ChainedIsNotIsolated(s, b, m);
    }
    forall m: nat, b, c | b in runs && c in runs && HasBit(runs[b], b, m) && HasBit(runs[c], c, m) ensures b == c {
      assert Chained(s, b, m) && Chained(s, c, m);
      RunUnique(s, b, c, m);
    }
  }

  /** Left behind are exactly the messages more than 32 away from every other one. */
  lemma LeftAreFarApart(s: set<nat>, left: set<nat>, runs: map<nat, Bytes>, m: nat)
    requires Compressed(s, left, runs)
    ensures m in left <==> m in s && forall x :: x in s && x != m ==> x > m + 32 || m > x + 32
  {
  }

  /** The compression is canonical: the set determines it, byte for byte. */
  lemma CompressionCanonical(s: set<nat>, left: set<nat>, runs: map<nat, Bytes>, left': set<nat>, runs': map<nat, Bytes>)
    requires Compressed(s, left, runs) && Compressed(s, left', runs')
    ensures left == left' && runs == runs'
  {
    forall b | b in runs ensures runs[b] == runs'[b] {
      forall m: nat ensures HasBit(runs[b], b, m) <==> HasBit(runs'[b], b, m) {}
      SameBits(b, runs[b], runs'[b]);
    }
    assert runs.Keys == runs'.Keys;
  }

  lemma BytesByBits(x: Byte, y: Byte)
    requires forall j: nat :: j < 8 ==> (x & Mask(j) != 0 <==> y & Mask(j) != 0)
    ensures x == y
  {
    assert (x & Mask(0) != 0 <==> y & Mask(0) != 0) && (x & Mask(1) != 0 <==> y & Mask(1) != 0);
    assert (x & Mask(2) != 0 <==> y & Mask(2) != 0) && (x & Mask(3) != 0 <==> y & Mask(3) != 0);
    assert (x & Mask(4) != 0 <==> y & Mask(4) != 0) && (x & Mask(5) != 0 <==> y & Mask(5) != 0);
    assert (x & Mask(6) != 0 <==> y & Mask(6) != 0) && (x & Mask(7) != 0 <==> y & Mask(7) != 0);
  }

  lemma NonZeroHasBit(x: Byte) returns (j: nat)
    requires x != 0
    ensures j < 8 && x & Mask(j) != 0
  {
    j := if x & 1 != 0 then 0 else if x & 2 != 0 then 1 else if x & 4 != 0 then 2 else if x & 8 != 0 then 3
         else if x & 16 != 0 then 4 else if x & 32 != 0 then 5 else if x & 64 != 0 then 6 else 7;
  }

  lemma SameBits(base: nat, x: Bytes, y: Bytes)
    requires x != [] && x[|x| - 1] != 0 && y != [] && y[|y| - 1] != 0
    requires forall m: nat :: HasBit(x, base, m) <==> HasBit(y, base, m)
    ensures x == y
  {
    NotShorter(base, x, y);
    NotShorter(base, y, x);
    forall i | 0 <= i < |x| ensures x[i] == y[i] {
      forall j: nat | j < 8 ensures x[i] & Mask(j) != 0 <==> y[i] & Mask(j) != 0 {
        BitAt(base, x, i, j);
        BitAt(base, y, i, j);
      }
      BytesByBits(x[i], y[i]);
    }
  }

  lemma BitAt(base: nat, x: Bytes, i: nat, j: nat)
    requires i < |x| && j < 8
    ensures HasBit(x, base, base + 8 * i + j) <==> x[i] & Mask(j) != 0
  {
    assert (8 * i + j) / 8 == i && (8 * i + j) % 8 == j;
  }

  lemma NotShorter(base: nat, x: Bytes, y: Bytes)
    requires x != [] && x[|x| - 1] != 0
    requires forall m: nat :: HasBit(x, base, m) ==> HasBit(y, base, m)
    ensures |x| <= |y|
  {
    var i := |x| - 1;
    var j := NonZeroHasBit(x[i]);
    BitAt(base, x, i, j);
    assert HasBit(y, base, base + 8 * i + j);
    assert (8 * i + j) / 8 == i;
  }

  ghost function RunMembers(s: set<nat>, b: nat, m: nat): set<nat> {
    set x | x in s && b <= x <= m
  }

  lemma {:induction false} ChainLength(s: set<nat>, b: nat, m: nat)
    requires Chained(s, b, m)
    ensures m - b <= 32 * (|RunMembers(s, b, m)| - 1)
    decreases m - b
  {
    var all := RunMembers(s, b, m);
    assert b in all;
    if b < m {
      assert HasNext(s, b);
      var x :| x in s && b < x <= b + 32;
      if x <= m {
        ChainLength(s, x, m);
        Smaller(RunMembers(s, x, m), all, b);
      } else {
        Smaller({m}, all, b);
      }
    } else {
      Smaller({}, all, b);
    }
  }

  lemma Smaller(a: set<nat>, b: set<nat>, x: nat)
    requires a <= b && x in b && x !in a
    ensures |a| < |b|
  {
    var c := b - a;
    assert x in c;
    assert b == a + c;
  }

  /** A run of k messages takes at most 4(k-1)+1 bytes. */
  lemma RunSize(s: set<nat>, left: set<nat>, runs: map<nat, Bytes>, b: nat)
    requires Compressed(s, left, runs) && b in runs
    ensures var members := set m | m in s && Chained(s, b, m);
            |runs[b]| <= 4 * (|members| - 1) + 1
  {
    var bytes := runs[b];
    var j := NonZeroHasBit(bytes[|bytes| - 1]);
    var m := b + 8 * (|bytes| - 1) + j;
    BitAt(b, bytes, |bytes| - 1, j);
    assert HasBit(runs[b], b, m);
    ChainLength(s, b, m);
    var members := set x | x in s && Chained(s, b, x);
    forall x | x in RunMembers(s, b, m) ensures x in members {
      assert Chained(s, b, m);
    }
    SubsetSize(RunMembers(s, b, m), members);
  }

  lemma SubsetSize(a: set<nat>, b: set<nat>)
    requires a <= b
    ensures |a| <= |b|
  {
    assert b == a + (b - a);
  }

  // ---------------------------------------------------------------------------------------------
  // binify
  // ---------------------------------------------------------------------------------------------

  ghost predicate Sorted(s: seq<nat>) {
    forall i, j :: 0 <= i < j < |s| ==> s[i] < s[j]
  }

  lemma LeastExists(s: set<nat>)
    requires s != {}
    ensures exists m :: m in s && forall x :: x in s ==> m <= x
  {
    var m :| m in s;
    if t :| t in s && t < m {
      LeastBelow(s, t);
    }
  }

  lemma {:induction false} LeastBelow(s: set<nat>, m: nat)
    requires m in s
    ensures exists k :: k in s && forall x :: x in s ==> k <= x
    decreases m
  {
    if t :| t in s && t < m {
      LeastBelow(s, t);
    }
  }

  /** `s` lists, in ascending order, all keys but those in `rest`, which are greater. */
  ghost predicate Listed(keys: set<nat>, s: seq<nat>, rest: set<nat>) {
    && rest <= keys && Sorted(s)
    && (forall m :: m in keys <==> m in s || m in rest)
    && forall m, x :: m in s && x in rest ==> m < x
  }

  lemma ListNext(keys: set<nat>, s: seq<nat>, rest: set<nat>, m: nat)
    requires Listed(keys, s, rest) && m in rest && forall x :: x in rest ==> m <= x
    ensures Listed(keys, s + [m], rest - {m})
  {
    assert forall i :: 0 <= i < |s| ==> s[i] in s;
    SnocSorted(s, m);
  }

  method Least(s: set<nat>) returns (m: nat)
    requires s != {}
    ensures m in s && forall x :: x in s ==> m <= x
  {
    LeastExists(s);
    m :| m in s && forall x :: x in s ==> m <= x;
  }

  /** The keys of the map, as numbers, in ascending order. */
  method SortedKeys(keys: set<nat>) returns (s: seq<nat>)
    ensures Sorted(s) && forall m :: m in s <==> m in keys
  {
    s := [];
    var rest := keys;
    while rest != {}
      invariant Listed(keys, s, rest)
    {
      hide Listed;
      var m := Least(rest);
      ListNext(keys, s, rest, m);
      s := s + [m];
      rest := rest - {m};
    }
  }

  lemma SnocSorted(s: seq<nat>, m: nat)
    requires Sorted(s) && forall i :: 0 <= i < |s| ==> s[i] < m
    ensures Sorted(s + [m])
    ensures forall x :: x in s + [m] <==> x in s || x == m
  {
  }

  /** bstr with the bit for `x` set: padded with zero bytes up to it, the byte it falls in updated. */
  ghost predicate OneBitMore(bytes: Bytes, more: Bytes, base: nat, x: nat) {
    && base <= x && |more| == (x - base) / 8 + 1
    && more[|more| - 1] != 0
    && forall m: nat :: HasBit(more, base, m) <==> HasBit(bytes, base, m) || m == x
  }

  /** Zero bytes are appended up to length `n`. */
  method PadTo(bytes: Bytes, n: nat) returns (bstr: Bytes)
    requires |bytes| <= n + 1
    ensures |bstr| == if |bytes| < n then n else |bytes|
    ensures forall i :: 0 <= i < |bstr| ==> bstr[i] == ByteAt(bytes, i)
  {
    bstr := bytes;
    while |bstr| < n
      invariant |bytes| <= |bstr| && (|bstr| <= n || bstr == bytes)
      invariant forall i :: 0 <= i < |bstr| ==> bstr[i] == ByteAt(bytes, i)
    {
      bstr := bstr + [0];
    }
  }

  method SetBit(bytes: Bytes, base: nat, x: nat) returns (more: Bytes)
    requires base <= x && |bytes| <= (x - base) / 8 + 1
    ensures OneBitMore(bytes, more, base, x)
  {
    var bo := (x - base) / 8;
    var bstr := PadTo(bytes, bo);
    var byte := if bo < |bstr| then bstr[bo] else 0;
    var bit := (x - base) - bo * 8;
    var updated := byte | Mask(bit);
    more := bstr[..bo] + [updated];
    MaskSets(byte, bit, bit);
    hide Mask, HasBit;
    forall m: nat ensures HasBit(more, base, m) <==> HasBit(bytes, base, m) || m == x {
      SetBitAt(bytes, more, base, x, m);
    }
  }

  /** A byte past the end of the string reads as zero. */
  function ByteAt(bytes: Bytes, i: nat): Byte {
    if i < |bytes| then bytes[i] else 0
  }

  predicate BitIn(bytes: Bytes, i: nat, j: nat)
    requires j < 8
  {
    Bit(ByteAt(bytes, i), j)
  }

  lemma OtherBytes(bytes: Bytes, more: Bytes, n: nat, i: nat)
    requires |bytes| <= n + 1 == |more| && i != n
    requires forall i :: 0 <= i < n ==> more[i] == ByteAt(bytes, i)
    ensures ByteAt(more, i) == ByteAt(bytes, i)
  {
  }

  lemma SetBitIn(bytes: Bytes, more: Bytes, n: nat, k: nat, i: nat, j: nat)
    requires k < 8 && j < 8 && |bytes| <= n + 1 == |more|
    requires forall i :: 0 <= i < n ==> more[i] == ByteAt(bytes, i)
    requires more[n] == WithBit(ByteAt(bytes, n), k)
    ensures BitIn(more, i, j) <==> BitIn(bytes, i, j) || (i == n && j == k)
  {
    hide Bit, WithBit;
    if i == n {
      MaskSets(ByteAt(bytes, n), k, j);
    } else {
      OtherBytes(bytes, more, n, i);
    }
  }

  lemma SameNumber(x: nat, y: nat)
    ensures x == y <==> x / 8 == y / 8 && x % 8 == y % 8
  {
  }

  lemma BitOf(bytes: Bytes, base: nat, m: nat)
    ensures HasBit(bytes, base, m) <==> base <= m && BitIn(bytes, (m - base) / 8, (m - base) % 8)
  {
    hide Mask;
    if base <= m {
      NoBits((m - base) % 8);
    }
  }

  lemma SetBitAt(bytes: Bytes, more: Bytes, base: nat, x: nat, m: nat)
    requires base <= x && |bytes| <= (x - base) / 8 + 1 == |more|
    requires forall i :: 0 <= i < |more| - 1 ==> more[i] == ByteAt(bytes, i)
    requires more[|more| - 1] == ByteAt(bytes, |more| - 1) | Mask((x - base) % 8)
    ensures HasBit(more, base, m) <==> HasBit(bytes, base, m) || m == x
  {
    hide HasBit, BitIn, ByteAt, Mask;
    BitOf(more, base, m);
    BitOf(bytes, base, m);
    if base <= m {
      SetBitIn(bytes, more, |more| - 1, (x - base) % 8, (m - base) / 8, (m - base) % 8);
      SameNumber(m - base, x - base);
    }
  }

  /** The messages marked: a mark of zero is none. */
  ghost function NonZero(marks: map<nat, int>): set<nat> {
    set m | m in marks && marks[m] != 0
  }

  /** A Seen object: message number to mark. */
  class Seen {
    var marks: map<nat, int>

    constructor (marks: map<nat, int>)
      ensures this.marks == marks
    {
      this.marks := marks;
    }
  }

  /** What is known in the middle of a run that begins at `base`, after the messages up to `last`. */
  ghost predicate Open(s: set<nat>, base: nat, last: nat, bstr: Bytes) {
    && StartsRun(s, base) && Chained(s, base, last)
    && |bstr| == (last - base) / 8 + 1 && bstr[|bstr| - 1] != 0
    && forall m: nat :: HasBit(bstr, base, m) <==> Chained(s, base, m) && m <= last
  }

  ghost predicate Finished(s: set<nat>, b: nat, bytes: Bytes) {
    && (forall m: nat :: HasBit(bytes, b, m) <==> Chained(s, b, m))
    && bytes != [] && bytes[|bytes| - 1] != 0
  }

  lemma OpenRun(s: set<nat>, b: nat)
    requires StartsRun(s, b)
    ensures Open(s, b, b, [1])
  {
    forall m: nat ensures HasBit([1], b, m) <==> Chained(s, b, m) && m <= b {
      if b <= m && (m - b) / 8 < 1 {
        assert m - b < 8 && (m - b) % 8 == m - b;
      }
    }
  }

  /** The next message of a run extends its chain, and nothing else does before it. */
  lemma ExtendRun(s: set<nat>, base: nat, last: nat, next: nat, bstr: Bytes, more: Bytes)
    requires Open(s, base, last, bstr) && next in s && last < next <= last + 32
    requires forall x :: x in s && x > last ==> x >= next
    requires OneBitMore(bstr, more, base, next)
    ensures Open(s, base, next, more)
  {
    hide HasBit;
    assert HasNext(s, last);
    assert Chained(s, base, next);
    forall m: nat ensures HasBit(more, base, m) <==> Chained(s, base, m) && m <= next {
    }
  }

  /** A run ends at a message with none close after it. */
  lemma FinishRun(s: set<nat>, base: nat, last: nat, bstr: Bytes)
    requires Open(s, base, last, bstr) && !HasNext(s, last)
    ensures Finished(s, base, bstr)
  {
    hide HasBit;
    forall m: nat ensures HasBit(bstr, base, m) <==> Chained(s, base, m) {
      assert Chained(s, base, m) && last < m ==> HasNext(s, last);
    }
  }

  /** Neighbours in the sorted order decide whether a message has one close to it. */
  lemma Neighbours(s: set<nat>, keys: seq<nat>, i: nat)
    requires Sorted(keys) && i < |keys| && forall m :: m in s <==> m in keys
    ensures HasNext(s, keys[i]) <==> i + 1 < |keys| && keys[i + 1] <= keys[i] + 32
    ensures HasPrev(s, keys[i]) <==> i > 0 && keys[i] <= keys[i - 1] + 32
    ensures forall x :: x in s && x > keys[i] ==> i + 1 < |keys| && x >= keys[i + 1]
  {
    forall x | x in s && x > keys[i] ensures i + 1 < |keys| && x >= keys[i + 1] {
      var j :| 0 <= j < |keys| && keys[j] == x;
      assert j > i;
    }
    if HasPrev(s, keys[i]) {
      var x :| x in s && x < keys[i] <= x + 32;
      var j :| 0 <= j < |keys| && keys[j] == x;
      assert j < i;
    }
    if i > 0 && keys[i] <= keys[i - 1] + 32 {
      assert keys[i - 1] in s;
    }
    if i + 1 < |keys| && keys[i + 1] <= keys[i] + 32 {
      assert keys[i + 1] in s;
    }
  }

  /** Marks of zero are deleted. */
  method DropZeros(seen: Seen)
    modifies seen
    ensures seen.marks == map m | m in old(seen.marks) && old(seen.marks)[m] != 0 :: old(seen.marks)[m]
  {
    var todo := seen.marks.Keys;
    while todo != {}
      invariant todo <= old(seen.marks).Keys
      invariant forall m :: m in seen.marks <==> m in old(seen.marks) && (m in todo || old(seen.marks)[m] != 0)
      invariant forall m :: m in seen.marks ==> seen.marks[m] == old(seen.marks)[m]
    {
      var i :| i in todo;
      if seen.marks[i] == 0 {
        seen.marks := seen.marks - {i};
      }
      todo := todo - {i};
    }
  }

  /** Where `binify` is after the first `i` keys: what is left, the runs packed, and the run that is open. */
  ghost predicate Progress(s: set<nat>, keys: seq<nat>, i: nat, left: set<nat>, ret: map<nat, Bytes>, base: nat, bstr: Bytes)
    requires i <= |keys|
  {
    && (forall m :: m in left <==> m in s && (m !in keys[..i] || Isolated(s, m)))
    && (bstr == [] && 0 < i ==> !HasNext(s, keys[i - 1]))
    && (bstr != [] ==> 0 < i < |keys| && HasNext(s, keys[i - 1]) && base in keys[..i] && Open(s, base, keys[i - 1], bstr))
    && (forall b :: b in ret <==> b in keys[..i] && StartsRun(s, b) && !(bstr != [] && b == base))
    && (forall b :: b in ret ==> Finished(s, b, ret[b]))
  }

  ghost predicate KeysOf(keys: seq<nat>, s: set<nat>) {
    Sorted(keys) && forall m :: m in keys <==> m in s
  }

  lemma TakeOne(keys: seq<nat>, i: nat)
    requires Sorted(keys) && i < |keys|
    ensures forall m :: m in keys[..i + 1] <==> m in keys[..i] || m == keys[i]
    ensures keys[i] !in keys[..i]
  {
    assert keys[..i + 1] == keys[..i] + [keys[i]];
  }

  /** A key with none close before or after it is left behind. */
  lemma StepIsolated(s: set<nat>, keys: seq<nat>, i: nat, left: set<nat>, ret: map<nat, Bytes>, base: nat)
    requires KeysOf(keys, s) && i < |keys| && Progress(s, keys, i, left, ret, base, [])
    requires i + 1 == |keys| || keys[i + 1] > keys[i] + 32
    ensures Progress(s, keys, i + 1, left, ret, base, [])
  {
    hide HasNext, HasPrev, Open, Finished;
    TakeOne(keys, i);
    Neighbours(s, keys, i);
    if i > 0 {
      Neighbours(s, keys, i - 1);
    }
  }

  /** A key with none close before it and one close after it opens a run. */
  lemma StepStart(s: set<nat>, keys: seq<nat>, i: nat, left: set<nat>, ret: map<nat, Bytes>, base: nat)
    requires KeysOf(keys, s) && i + 1 < |keys| && Progress(s, keys, i, left, ret, base, [])
    requires keys[i + 1] <= keys[i] + 32
    ensures Progress(s, keys, i + 1, left - {keys[i]}, ret, keys[i], [1])
  {
    hide HasNext, HasPrev, Open, Finished;
    TakeOne(keys, i);
    Neighbours(s, keys, i);
    if i > 0 {
      Neighbours(s, keys, i - 1);
    }
    OpenRun(s, keys[i]);
  }

  /** In an open run the next key sets its bit. */
  lemma StepExtend(s: set<nat>, keys: seq<nat>, i: nat, left: set<nat>, ret: map<nat, Bytes>, base: nat, bstr: Bytes, more: Bytes)
    requires KeysOf(keys, s) && i < |keys| && bstr != [] && Progress(s, keys, i, left, ret, base, bstr)
    requires OneBitMore(bstr, more, base, keys[i])
    ensures StartsRun(s, base) && Open(s, base, keys[i], more) && more != []
    ensures 0 < i && HasNext(s, keys[i - 1]) && HasPrev(s, keys[i]) && base in keys[..i] && base !in ret
  {
    hide HasNext, HasPrev, Open, Finished, OneBitMore;
    Neighbours(s, keys, i);
    Neighbours(s, keys, i - 1);
    ExtendRun(s, base, keys[i - 1], keys[i], bstr, more);
    OpenStarts(s, base, keys[i], more);
  }

  /** The run goes on if the key after is close. */
  lemma StepGoesOn(s: set<nat>, keys: seq<nat>, i: nat, left: set<nat>, ret: map<nat, Bytes>, base: nat, bstr: Bytes, more: Bytes)
    requires KeysOf(keys, s) && i + 1 < |keys| && bstr != [] && Progress(s, keys, i, left, ret, base, bstr)
    requires OneBitMore(bstr, more, base, keys[i]) && keys[i + 1] <= keys[i] + 32
    ensures Progress(s, keys, i + 1, left - {keys[i]}, ret, base, more)
  {
    hide HasNext, HasPrev, Open, Finished, OneBitMore;
    StepExtend(s, keys, i, left, ret, base, bstr, more);
    TakeOne(keys, i);
    Neighbours(s, keys, i);
  }

  /** The run is packed if the key after is not close, or there is none. */
  lemma StepCloses(s: set<nat>, keys: seq<nat>, i: nat, left: set<nat>, ret: map<nat, Bytes>, base: nat, bstr: Bytes, more: Bytes)
    requires KeysOf(keys, s) && i < |keys| && bstr != [] && Progress(s, keys, i, left, ret, base, bstr)
    requires OneBitMore(bstr, more, base, keys[i]) && (i + 1 == |keys| || keys[i + 1] > keys[i] + 32)
    ensures Progress(s, keys, i + 1, left - {keys[i]}, ret[base := more], base, [])
  {
    hide HasNext, HasPrev, Open, Finished, OneBitMore;
    StepExtend(s, keys, i, left, ret, base, bstr, more);
    TakeOne(keys, i);
    Neighbours(s, keys, i);
    FinishRun(s, base, keys[i], more);
  }

  lemma OpenStarts(s: set<nat>, base: nat, last: nat, bstr: Bytes)
    requires Open(s, base, last, bstr)
    ensures StartsRun(s, base) && bstr != []
  {
  }

  /** The byte the next key falls in is at most one past the end of the open string. */
  lemma RunGrows(s: set<nat>, base: nat, last: nat, next: nat, bstr: Bytes)
    requires Open(s, base, last, bstr) && last < next
    ensures base <= next && |bstr| <= (next - base) / 8 + 1
  {
  }

  /**
   `binify` (exec/imapservice.js:1374-1431): packs the runs of `seen` into bit strings and deletes them from
   it.  What it leaves and returns is the compression of the set of messages marked.
   */
  method Binify(seen: Seen) returns (ret: map<nat, Bytes>)
    modifies seen
    ensures Compressed(NonZero(old(seen.marks)), seen.marks.Keys, ret)
    ensures forall m :: m in seen.marks ==> m in old(seen.marks) && seen.marks[m] == old(seen.marks)[m] != 0
  {
    hide Progress, OneBitMore, Isolated, Open;
    ghost var messages := NonZero(seen.marks);
    DropZeros(seen);
    assert seen.marks.Keys == messages;
    var s := SortedKeys(seen.marks.Keys);
    var bstr: Bytes, basemsg := [], 0;
    ret := map[];
    NoProgress(messages, s);
    for i := 0 to |s|
      invariant KeysOf(s, messages) && Progress(messages, s, i, seen.marks.Keys, ret, basemsg, bstr)
      invariant i == |s| ==> bstr == []
      invariant forall m :: m in seen.marks ==> m in old(seen.marks) && seen.marks[m] == old(seen.marks)[m] != 0
    {
      ghost var left := seen.marks.Keys;
      if bstr == [] {
        if i + 1 == |s| || s[i + 1] > s[i] + 32 {
          StepIsolated(messages, s, i, left, ret, basemsg);
          continue;
        }
        StepStart(messages, s, i, left, ret, basemsg);
        basemsg := s[i];
        bstr := [1];
        seen.marks := seen.marks - {s[i]};
        assert seen.marks.Keys == left - {s[i]};
      } else {
        OpenBound(messages, s, i, left, ret, basemsg, bstr);
        var more := SetBit(bstr, basemsg, s[i]);
        if i + 1 == |s| || s[i + 1] > s[i] + 32 {
          StepCloses(messages, s, i, left, ret, basemsg, bstr, more);
        } else {
          StepGoesOn(messages, s, i, left, ret, basemsg, bstr, more);
        }
        seen.marks := seen.marks - {s[i]};
        assert seen.marks.Keys == left - {s[i]};
        bstr := more;
        if i + 1 == |s| || s[i + 1] > s[i] + 32 {
          ret := ret[basemsg := bstr];
          bstr := [];
        }
      }
    }
    Done(messages, s, seen.marks.Keys, ret, basemsg);
  }

  lemma NoProgress(s: set<nat>, keys: seq<nat>)
    ensures Progress(s, keys, 0, s, map[], 0, [])
  {
  }

  lemma OpenBound(s: set<nat>, keys: seq<nat>, i: nat, left: set<nat>, ret: map<nat, Bytes>, base: nat, bstr: Bytes)
    requires KeysOf(keys, s) && i < |keys| && bstr != [] && Progress(s, keys, i, left, ret, base, bstr)
    ensures base <= keys[i] && |bstr| <= (keys[i] - base) / 8 + 1
  {
    RunGrows(s, base, keys[i - 1], keys[i], bstr);
  }

  lemma Done(s: set<nat>, keys: seq<nat>, left: set<nat>, runs: map<nat, Bytes>, base: nat)
    requires KeysOf(keys, s) && Progress(s, keys, |keys|, left, runs, base, [])
    ensures Compressed(s, left, runs)
  {
    assert keys[..|keys|] == keys;
    AllFinished(s, left, runs);
  }

  lemma AllFinished(s: set<nat>, left: set<nat>, runs: map<nat, Bytes>)
    requires forall m :: m in left <==> Isolated(s, m)
    requires forall b :: b in runs <==> StartsRun(s, b)
    requires forall b :: b in runs ==> Finished(s, b, runs[b])
    ensures Compressed(s, left, runs)
  {
    hide HasBit, Chained;
  }

  // ---------------------------------------------------------------------------------------------
  // save_cfg and read_cfg
  // ---------------------------------------------------------------------------------------------

  function SectionOf<V>(ini: map<string, map<nat, V>>, sub: string): map<nat, V> {
    if sub in ini then ini[sub] else map[]
  }

  /** A section is replaced, or only removed when there is nothing to put into it. */
  function Rewritten<V>(ini: map<string, map<nat, V>>, sub: string, section: map<nat, V>): map<string, map<nat, V>> {
    if section == map[] then ini - {sub} else ini[sub := section]
  }

  /** What is written to a section is read from it, other sections stay, and no empty one is kept. */
  lemma SectionRead<V>(ini: map<string, map<nat, V>>, sub: string, section: map<nat, V>, other: string)
    ensures SectionOf(Rewritten(ini, sub, section), sub) == section
    ensures other != sub ==> SectionOf(Rewritten(ini, sub, section), other) == SectionOf(ini, other)
    ensures sub in Rewritten(ini, sub, section) <==> section != map[]
  {
  }

  /** The Seen objects in memory, and the '.seen' and '.bseen' sections of the user's file. */
  class Config {
    var saved: map<string, Seen>
    var seenIni: map<string, map<nat, int>>
    var bseenIni: map<string, map<nat, Bytes>>

    constructor (seenIni: map<string, map<nat, int>>, bseenIni: map<string, map<nat, Bytes>>)
      ensures saved == map[] && this.seenIni == seenIni && this.bseenIni == bseenIni
    {
      saved, this.seenIni, this.bseenIni := map[], seenIni, bseenIni;
    }

    /** No two areas share a Seen object. */
    ghost predicate Distinct()
      reads this
    {
      forall a, b :: a in saved && b in saved && a != b ==> saved[a] != saved[b]
    }

    /** The file holds the compression of `messages` for an area. */
    ghost predicate Stores(sub: string, messages: set<nat>)
      reads this
    {
      Compressed(messages, SectionOf(seenIni, sub).Keys, SectionOf(bseenIni, sub))
    }

    /** One area of `save_cfg`: `binify` empties the Seen object it is given, so a copy takes its place. */
    method SaveSeen(sub: string)
      requires sub in saved
      modifies this, saved[sub]
      ensures saved.Keys == old(saved).Keys && fresh(saved[sub]) && saved[sub].marks == old(saved[sub].marks)
      ensures forall x :: x in saved && x != sub ==> saved[x] == old(saved)[x]
      ensures Stores(sub, NonZero(old(saved[sub].marks)))
      ensures forall x :: x != sub ==> SectionOf(seenIni, x) == SectionOf(old(seenIni), x) && SectionOf(bseenIni, x) == SectionOf(old(bseenIni), x)
      ensures forall m :: m in SectionOf(seenIni, sub) ==> SectionOf(seenIni, sub)[m] != 0
    {
      hide Compressed;
      var s := saved[sub];
      var scpy := new Seen(s.marks);
      var b := Binify(s);
      bseenIni := Rewritten(bseenIni, sub, b);
      seenIni := Rewritten(seenIni, sub, s.marks);
      saved := saved[sub := scpy];
    }

    /** The area was saved: what is in memory is what was, and the file holds it compressed. */
    ghost predicate Kept(sub: string, marks: map<nat, int>)
      reads this, saved.Values
      requires sub in saved
    {
      && saved[sub].marks == marks
      && Stores(sub, NonZero(marks))
      && forall m :: m in SectionOf(seenIni, sub) ==> SectionOf(seenIni, sub)[m] != 0
    }

    /** `save_cfg` (exec/imapservice.js:1433-1462): every area with a Seen object is saved, and stays in memory as it was. */
    method SaveCfg()
      requires Distinct()
      modifies this, saved.Values
      ensures saved.Keys == old(saved).Keys
      ensures forall x :: x in saved ==> Kept(x, old(saved[x].marks))
      ensures forall x :: x !in saved ==> SectionOf(seenIni, x) == SectionOf(old(seenIni), x) && SectionOf(bseenIni, x) == SectionOf(old(bseenIni), x)
    {
      hide Compressed, NonZero, SectionOf, Rewritten;
      var todo := saved.Keys;
      while todo != {}
        invariant todo <= saved.Keys == old(saved).Keys
        invariant forall x :: x in todo ==> saved[x] == old(saved)[x] && saved[x].marks == old(saved[x].marks)
        invariant forall x :: x in saved && x !in todo ==> fresh(saved[x]) && Kept(x, old(saved[x].marks))
        invariant forall x :: x !in saved ==> SectionOf(seenIni, x) == SectionOf(old(seenIni), x) && SectionOf(bseenIni, x) == SectionOf(old(bseenIni), x)
      {
        var sub :| sub in todo;
        SaveSeen(sub);
        todo := todo - {sub};
      }
    }

    /** The areas that `read_cfg` finds sections for, read into fresh Seen objects. */
    method ReadSeen(sub: string) returns (seen: Seen)
      ensures fresh(seen)
      ensures forall m :: m in seen.marks <==> m in SectionOf(seenIni, sub) || Marked(SectionOf(bseenIni, sub), m)
      ensures forall m :: m in seen.marks ==> seen.marks[m] == if Marked(SectionOf(bseenIni, sub), m) then 1 else SectionOf(seenIni, sub)[m]
    {
      seen := new Seen(SectionOf(seenIni, sub));
      var bseen := SectionOf(bseenIni, sub);
      var todo := bseen.Keys;
      while todo != {}
        invariant todo <= bseen.Keys
        invariant forall m :: m in seen.marks <==> m in SectionOf(seenIni, sub) || MarkedBy(bseen, bseen.Keys - todo, m)
        invariant forall m :: m in seen.marks ==> seen.marks[m] == if MarkedBy(bseen, bseen.Keys - todo, m) then 1 else SectionOf(seenIni, sub)[m]
      {
        var j :| j in todo;
        ghost var was := seen.marks;
        UnpackInto(seen, j, bseen[j]);
        forall m ensures MarkedBy(bseen, bseen.Keys - (todo - {j}), m) <==> MarkedBy(bseen, bseen.Keys - todo, m) || HasBit(bseen[j], j, m) {
          OneMoreMarks(bseen, todo, j, m);
        }
        todo := todo - {j};
      }
      forall m ensures MarkedBy(bseen, bseen.Keys - todo, m) <==> Marked(bseen, m) {
        AllMarked(bseen, m);
      }
    }
  }

  ghost predicate MarkedBy(runs: map<nat, Bytes>, bases: set<nat>, m: nat) {
    exists b :: b in runs && b in bases && HasBit(runs[b], b, m)
  }

  lemma OneMoreMarks(runs: map<nat, Bytes>, todo: set<nat>, j: nat, m: nat)
    requires todo <= runs.Keys && j in todo
    ensures MarkedBy(runs, runs.Keys - (todo - {j}), m) <==> MarkedBy(runs, runs.Keys - todo, m) || HasBit(runs[j], j, m)
  {
  }

  lemma AllMarked(runs: map<nat, Bytes>, m: nat)
    ensures MarkedBy(runs, runs.Keys - {}, m) <==> Marked(runs, m)
  {
  }

  /** Some of the messages a bit string marks: those below `bound`. */
  ghost predicate BitBelow(bstr: Bytes, basemsg: nat, m: nat, bound: nat) {
    HasBit(bstr, basemsg, m) && m < bound
  }

  /** `marks` with the messages a bit string marks below `bound` set to 1. */
  ghost predicate Unpacked(was: map<nat, int>, marks: map<nat, int>, bstr: Bytes, basemsg: nat, bound: nat) {
    && (forall m: nat :: m in marks <==> m in was || BitBelow(bstr, basemsg, m, bound))
    && (forall m: nat :: m in marks ==> marks[m] == if BitBelow(bstr, basemsg, m, bound) then 1 else was[m])
  }

  lemma UnpackOne(was: map<nat, int>, marks: map<nat, int>, bstr: Bytes, basemsg: nat, byte: nat, bit: nat)
    requires byte < |bstr| && bit < 8 && Unpacked(was, marks, bstr, basemsg, basemsg + 8 * byte + bit)
    ensures Unpacked(was, if bstr[byte] & Mask(bit) != 0 then marks[basemsg + (byte * 8 + bit) := 1] else marks,
                     bstr, basemsg, basemsg + 8 * byte + bit + 1)
  {
    BitAt(basemsg, bstr, byte, bit);
    hide HasBit, Mask;
  }

  lemma SkipZero(was: map<nat, int>, marks: map<nat, int>, bstr: Bytes, basemsg: nat, byte: nat)
    requires byte < |bstr| && bstr[byte] == 0 && Unpacked(was, marks, bstr, basemsg, basemsg + 8 * byte)
    ensures Unpacked(was, marks, bstr, basemsg, basemsg + 8 * (byte + 1))
  {
    forall m: nat | basemsg + 8 * byte <= m < basemsg + 8 * byte + 8 ensures !HasBit(bstr, basemsg, m) {
      BitAt(basemsg, bstr, byte, m - basemsg - 8 * byte);
      NoBits(m - basemsg - 8 * byte);
    }
    hide HasBit;
  }

  /** The bits of one string become marks: the two inner loops of `read_cfg` (exec/imapservice.js:2310-2319). */
  method UnpackInto(seen: Seen, basemsg: nat, bstr: Bytes)
    modifies seen
    ensures forall m: nat :: m in seen.marks <==> m in old(seen.marks) || HasBit(bstr, basemsg, m)
    ensures forall m: nat :: m in seen.marks ==> seen.marks[m] == if HasBit(bstr, basemsg, m) then 1 else old(seen.marks)[m]
  {
    hide Unpacked;
    assert Unpacked(seen.marks, seen.marks, bstr, basemsg, basemsg) by { NothingUnpacked(seen.marks, bstr, basemsg); }
    for byte := 0 to |bstr|
      invariant Unpacked(old(seen.marks), seen.marks, bstr, basemsg, basemsg + 8 * byte)
    {
      var asc := bstr[byte];
      if asc == 0 {
        SkipZero(old(seen.marks), seen.marks, bstr, basemsg, byte);
        continue;
      }
      for bit := 0 to 8
        invariant Unpacked(old(seen.marks), seen.marks, bstr, basemsg, basemsg + 8 * byte + bit)
      {
        UnpackOne(old(seen.marks), seen.marks, bstr, basemsg, byte, bit);
        if asc & Mask(bit) != 0 {
          seen.marks := seen.marks[basemsg + (byte * 8 + bit) := 1];
        }
      }
    }
    AllUnpacked(old(seen.marks), seen.marks, bstr, basemsg);
  }

  lemma NothingUnpacked(was: map<nat, int>, bstr: Bytes, basemsg: nat)
    ensures Unpacked(was, was, bstr, basemsg, basemsg)
  {
  }

  lemma AllUnpacked(was: map<nat, int>, marks: map<nat, int>, bstr: Bytes, basemsg: nat)
    requires Unpacked(was, marks, bstr, basemsg, basemsg + 8 * |bstr|)
    ensures forall m: nat :: m in marks <==> m in was || HasBit(bstr, basemsg, m)
    ensures forall m: nat :: m in marks ==> marks[m] == if HasBit(bstr, basemsg, m) then 1 else was[m]
  {
    forall m: nat ensures BitBelow(bstr, basemsg, m, basemsg + 8 * |bstr|) <==> HasBit(bstr, basemsg, m) {}
  }

  /** What was saved is what is read: the set of messages marked is the same, for every area. */
  lemma SavedSeenIsRead(marks: map<nat, int>, seen: map<nat, int>, bseen: map<nat, Bytes>, read: map<nat, int>)
    requires Compressed(NonZero(marks), seen.Keys, bseen)
    requires forall m :: m in seen ==> seen[m] != 0
    requires forall m :: m in read <==> m in seen || Marked(bseen, m)
    requires forall m :: m in read ==> read[m] == if Marked(bseen, m) then 1 else seen[m]
    ensures NonZero(read) == NonZero(marks) == read.Keys
  {
    hide Compressed, Marked;
    CompressionLossless(NonZero(marks), seen.Keys, bseen);
  }
}
