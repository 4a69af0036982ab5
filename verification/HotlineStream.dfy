/**
 The encrypted half of a Hotline connection (exec/hotline.js:393-451, 485-494): bytes are decrypted with a
 block cipher in output feedback mode (section 6.4 of NIST SP 800-38A), and on request the key is changed at
 the next block boundary, the feedback being recovered from the tails of the two streams.

 The block function and the HMAC are parameters.
 */
module HotlineStream {

  type Byte = bv8
  type Bytes = seq<Byte>

  /** The cipher's block function, its block size, the HMAC and the session key. */
  datatype Params = Params(block: (Bytes, Bytes) -> Bytes, size: nat, hmac: (Bytes, Bytes) -> Bytes, session: Bytes) {
    ghost predicate Valid() {
      size > 0 && forall k, b :: |block(k, b)| == size
    }
  }

  /** An OFB context: the key, the feedback register, and how much of it has been used as key stream. */
  datatype Crypt = Crypt(key: Bytes, reg: Bytes, used: nat)

  /** The globals of the decrypting side. */
  datatype State = State(dcc: Crypt, encryptedTail: Bytes, decryptedTail: Bytes, decryptedBytes: nat, rekeyRounds: nat, dccKey: Bytes) {
    ghost predicate Valid(p: Params) {
      && p.Valid()
      && |dcc.reg| == p.size && dcc.used <= p.size
      && decryptedBytes < p.size
      && |encryptedTail| == |decryptedTail| == 8 + decryptedBytes
      && (rekeyRounds > 0 ==> decryptedBytes > 0)
    }
  }

  // ---------------------------------------------------------------------------------------------
  // One byte at a time
  // ---------------------------------------------------------------------------------------------

  function DecryptByte(p: Params, c: Crypt, x: Byte): (r: (Crypt, Byte))
    requires p.Valid() && |c.reg| == p.size && c.used <= p.size
    ensures |r.0.reg| == p.size && 0 < r.0.used <= p.size
  {
    var d := if c.used == p.size then Crypt(c.key, p.block(c.key, c.reg), 0) else c;
    (d.(used := d.used + 1), x ^ d.reg[d.used])
  }

  function Decrypt(p: Params, c: Crypt, val: Bytes): (r: (Crypt, Bytes))
    requires p.Valid() && |c.reg| == p.size && c.used <= p.size
    ensures |r.0.reg| == p.size && r.0.used <= p.size && |r.1| == |val|
    decreases |val|
  {
    if val == [] then (c, [])
    else
      var (d, y) := DecryptByte(p, c, val[0]);
      var (e, ys) := Decrypt(p, d, val[1..]);
      (e, [y] + ys)
  }

  /** A byte past the end of a tail reads as zero. */
  function At(s: Bytes, i: nat): Byte {
    if i < |s| then s[i] else 0
  }

  /** `derive_old_key`: what the two tails began with, exclusive-or'ed. */
  function DeriveOldKey(size: nat, encryptedTail: Bytes, decryptedTail: Bytes): (iv: Bytes)
    ensures |iv| == size
  {
    seq(size, i requires 0 <= i < size => At(encryptedTail, i) ^ At(decryptedTail, i))
  }

  function NextKey(p: Params, key: Bytes, rounds: nat): Bytes
    decreases rounds
  {
    if rounds == 0 then key else NextKey(p, p.hmac(key, p.session), rounds - 1)
  }

  /** `rekey`: a new context under the next key, started from what the tails give. */
  function Rekey(p: Params, s: State, rounds: nat): State {
    var key := NextKey(p, s.dccKey, rounds);
    s.(dcc := Crypt(key, DeriveOldKey(p.size, s.encryptedTail, s.decryptedTail), p.size), dccKey := key)
  }

  /** One byte goes through the cipher and into the tails; a full block leaves them. */
  function Step(p: Params, s: State, x: Byte): (r: (State, Byte))
    requires s.Valid(p)
    ensures r.0.(rekeyRounds := 0).Valid(p)
    ensures r.0.decryptedBytes == if s.decryptedBytes + 1 == p.size then 0 else s.decryptedBytes + 1
    ensures r.0.rekeyRounds == s.rekeyRounds && r.0.dccKey == s.dccKey
  {
    var (c, y) := DecryptByte(p, s.dcc, x);
    var (e, d) := (s.encryptedTail + [x], s.decryptedTail + [y]);
    if s.decryptedBytes + 1 == p.size then
      (s.(dcc := c, encryptedTail := e[p.size..], decryptedTail := d[p.size..], decryptedBytes := 0), y)
    else
      (s.(dcc := c, encryptedTail := e, decryptedTail := d, decryptedBytes := s.decryptedBytes + 1), y)
  }

  /** A pending change of key happens at the block boundary. */
  function StepRekey(p: Params, s: State, x: Byte): (r: (State, Byte))
    requires s.Valid(p)
    ensures r.0.Valid(p)
  {
    var (t, y) := Step(p, s, x);
    if t.decryptedBytes == 0 && t.rekeyRounds > 0 then (Rekey(p, t, t.rekeyRounds).(rekeyRounds := 0), y) else (t, y)
  }

  /** The stream as a machine that takes one byte at a time. */
  function Feed(p: Params, s: State, val: Bytes): (r: (State, Bytes))
    requires s.Valid(p)
    ensures r.0.Valid(p) && |r.1| == |val|
    decreases |val|
  {
    if val == [] then (s, [])
    else
      var (t, y) := StepRekey(p, s, val[0]);
      var (u, ys) := Feed(p, t, val[1..]);
      (u, [y] + ys)
  }

  /** How the bytes are cut into reads makes no difference: neither to the plaintext nor to the state. */
  lemma {:induction false} FeedConcat(p: Params, s: State, a: Bytes, b: Bytes)
    requires s.Valid(p)
    ensures Feed(p, s, a + b).0 == Feed(p, Feed(p, s, a).0, b).0
    ensures Feed(p, s, a + b).1 == Feed(p, s, a).1 + Feed(p, Feed(p, s, a).0, b).1
    decreases |a|
  {
    hide StepRekey;
    if a == [] {
      assert a + b == b;
    } else {
      assert (a + b)[1..] == a[1..] + b;
      FeedConcat(p, StepRekey(p, s, a[0]).0, a[1..], b);
    }
  }

  // ---------------------------------------------------------------------------------------------
  // The register
  // ---------------------------------------------------------------------------------------------

  /** The tails hold, from the eighth byte on, the first `n` bytes of the register as key stream. */
  ghost predicate TailsMatch(e: Bytes, d: Bytes, n: nat, reg: Bytes)
    requires |e| == |d| == 8 + n && n <= |reg|
  {
    forall i :: 0 <= i < n ==> e[8 + i] ^ d[8 + i] == reg[i]
  }

  /**
   At a block boundary the tails give the feedback register; inside a block, the part of the register used so
   far.  This is for blocks as long as the tails, which are 8 bytes.
   */
  ghost predicate InStep(p: Params, s: State)
    requires s.Valid(p)
  {
    && s.dcc.used == (if s.decryptedBytes == 0 then p.size else s.decryptedBytes)
    && (s.decryptedBytes == 0 ==> DeriveOldKey(p.size, s.encryptedTail, s.decryptedTail) == s.dcc.reg)
    && TailsMatch(s.encryptedTail, s.decryptedTail, s.decryptedBytes, s.dcc.reg)
  }

  lemma XorBack(x: Byte, k: Byte)
    ensures x ^ (x ^ k) == k
  {
  }

  /** What is received, exclusive-or'ed with what it decrypts to, is the key stream. */
  lemma KeyStream(p: Params, c: Crypt, x: Byte)
    requires p.Valid() && |c.reg| == p.size && c.used <= p.size
    ensures var (d, y) := DecryptByte(p, c, x);
            && d.used == (if c.used == p.size then 1 else c.used + 1)
            && (c.used < p.size ==> d.reg == c.reg)
            && x ^ y == d.reg[d.used - 1]
  {
    var d := if c.used == p.size then Crypt(c.key, p.block(c.key, c.reg), 0) else c;
    XorBack(x, d.reg[d.used]);
  }

  lemma GrownTails(e: Bytes, d: Bytes, x: Byte, y: Byte, n: nat, reg: Bytes)
    requires |e| == |d| == 8 + n && n < |reg| && x ^ y == reg[n] && TailsMatch(e, d, n, reg)
    ensures TailsMatch(e + [x], d + [y], n + 1, reg)
  {
  }

  lemma NoneMatched(e: Bytes, d: Bytes, reg: Bytes)
    requires |e| == |d| == 8
    ensures TailsMatch(e, d, 0, reg)
  {
  }

  lemma BoundaryRegister(e: Bytes, d: Bytes, reg: Bytes)
    requires |e| == |d| == 16 && |reg| == 8 && TailsMatch(e, d, 8, reg)
    ensures DeriveOldKey(8, e[8..], d[8..]) == reg
  {
    var iv := DeriveOldKey(8, e[8..], d[8..]);
    forall i | 0 <= i < 8 ensures iv[i] == reg[i] {
      assert e[8..][i] == e[8 + i] && d[8..][i] == d[8 + i];
    }
  }

  lemma StepInStep(p: Params, s: State, x: Byte)
    requires s.Valid(p) && InStep(p, s) && p.size == 8
    ensures InStep(p, Step(p, s, x).0.(rekeyRounds := 0))
  {
    hide DecryptByte, DeriveOldKey, TailsMatch;
    KeyStream(p, s.dcc, x);
    var (c, y) := DecryptByte(p, s.dcc, x);
    var (e, d, n) := (s.encryptedTail, s.decryptedTail, s.decryptedBytes);
    if n == 0 {
      NoneMatched(e, d, c.reg);
    }
    GrownTails(e, d, x, y, n, c.reg);
    if n + 1 == 8 {
      BoundaryRegister(e + [x], d + [y], c.reg);
      NoneMatched((e + [x])[8..], (d + [y])[8..], c.reg);
    }
  }

  /** Changing the key leaves the feedback register as it was: the new key stream continues from it. */
  lemma RekeyKeepsRegister(p: Params, s: State, rounds: nat)
    requires s.Valid(p) && InStep(p, s) && s.decryptedBytes == 0
    ensures Rekey(p, s, rounds).dcc.reg == s.dcc.reg
    ensures Rekey(p, s, rounds).Valid(p) && InStep(p, Rekey(p, s, rounds))
  {
  }

  /** Whatever is received, and whenever keys are changed, the tails and the register stay in step. */
  lemma {:induction false} FeedInStep(p: Params, s: State, val: Bytes)
    requires s.Valid(p) && InStep(p, s) && p.size == 8
    ensures InStep(p, Feed(p, s, val).0)
    decreases |val|
  {
    if val != [] {
      StepInStep(p, s, val[0]);
      var t := Step(p, s, val[0]).0;
      var u := t.(rekeyRounds := 0);
      if t.decryptedBytes == 0 && t.rekeyRounds > 0 {
        RekeyKeepsRegister(p, u, t.rekeyRounds);
        assert Rekey(p, t, t.rekeyRounds).(rekeyRounds := 0) == Rekey(p, u, t.rekeyRounds);
      }
      FeedInStep(p, StepRekey(p, s, val[0]).0, val[1..]);
    }
  }

  /** How a connection starts: tails and initialization vector all zero. */
  function Start(p: Params, key: Bytes): State {
    State(Crypt(key, seq(p.size, _ => 0), p.size), seq(8, _ => 0), seq(8, _ => 0), 0, 0, key)
  }

  lemma StartInStep(p: Params, key: Bytes)
    requires p.Valid()
    ensures Start(p, key).Valid(p) && InStep(p, Start(p, key))
    ensures forall i :: 0 <= i < p.size ==> Start(p, key).dcc.reg[i] == 0
    ensures Start(p, key).dccKey == Start(p, key).dcc.key == key
  {
    var s := Start(p, key);
    assert DeriveOldKey(p.size, s.encryptedTail, s.decryptedTail) == s.dcc.reg;
  }

  // ---------------------------------------------------------------------------------------------
  // The methods
  // ---------------------------------------------------------------------------------------------

  /** Bytes that all go in before a change of key is due. */
  function Plain(p: Params, s: State, val: Bytes): (r: (State, Bytes))
    requires s.(rekeyRounds := 0).Valid(p)
    ensures r.0.(rekeyRounds := 0).Valid(p) && r.0.rekeyRounds == s.rekeyRounds && |r.1| == |val|
    decreases |val|
  {
    if val == [] then (s, [])
    else
      var (t, y) := Step(p, s.(rekeyRounds := 0), val[0]);
      var (u, ys) := Plain(p, t.(rekeyRounds := s.rekeyRounds), val[1..]);
      (u, [y] + ys)
  }

  /** What is left of `k` once every full block has been taken off. */
  function Remainder(k: nat, size: nat): (r: nat)
    requires size > 0
    ensures r <= k && r < size
  {
    if k < size then k else Remainder(k - size, size)
  }

  function Suffix(s: Bytes, n: nat): Bytes
    requires n <= |s|
  {
    s[|s| - n..]
  }

  lemma SuffixDrop(s: Bytes, n: nat, k: nat)
    requires k <= n <= |s|
    ensures Suffix(s, n)[k..] == Suffix(s, n - k)
    ensures Suffix(s, |s|) == s && |Suffix(s, n)| == n
  {
  }

  lemma SuffixOfSuffix(s: Bytes, n: nat, more: Bytes, k: nat)
    requires n <= |s| && k <= n + |more|
    ensures Suffix(Suffix(s, n) + more, k) == Suffix(s + more, k)
  {
  }

  /** What the bulk update of `do_decrypt` amounts to. */
  lemma {:induction false} PlainInBulk(p: Params, s: State, val: Bytes)
    requires s.(rekeyRounds := 0).Valid(p)
    ensures var (c, ys) := Decrypt(p, s.dcc, val);
            var (r, zs) := Plain(p, s, val);
            var n := Remainder(s.decryptedBytes + |val|, p.size);
            && zs == ys && r.dcc == c && r.decryptedBytes == n && r.dccKey == s.dccKey
            && r.encryptedTail == Suffix(s.encryptedTail + val, 8 + n)
            && r.decryptedTail == Suffix(s.decryptedTail + ys, 8 + n)
    decreases |val|
  {
    hide Step, DecryptByte, Suffix, Remainder, Plain, Decrypt;
    var n := Remainder(s.decryptedBytes + |val|, p.size);
    Unfold(p, s, val);
    if val == [] {
      TailsStill(p, s);
    } else {
      var (t, y) := Step(p, s.(rekeyRounds := 0), val[0]);
      var u := t.(rekeyRounds := s.rekeyRounds);
      var more := val[1..];
      PlainInBulk(p, u, more);
      RemainderStep(s.decryptedBytes, |val|, p.size);
      StepTails(p, s, val[0]);
      var ys := [y] + Decrypt(p, t.dcc, more).1;
      TailsInBulk(s.encryptedTail, val[0], 8 + t.decryptedBytes, val, more, 8 + n);
      TailsInBulk(s.decryptedTail, y, 8 + t.decryptedBytes, ys, Decrypt(p, t.dcc, more).1, 8 + n);
    }
  }

  lemma Unfold(p: Params, s: State, val: Bytes)
    requires s.(rekeyRounds := 0).Valid(p)
    ensures val == [] ==> Plain(p, s, val) == (s, []) && Decrypt(p, s.dcc, val) == (s.dcc, [])
    ensures val != [] ==>
              var (t, y) := Step(p, s.(rekeyRounds := 0), val[0]);
              var u := t.(rekeyRounds := s.rekeyRounds);
              && Plain(p, s, val) == (Plain(p, u, val[1..]).0, [y] + Plain(p, u, val[1..]).1)
              && Decrypt(p, s.dcc, val) == (Decrypt(p, t.dcc, val[1..]).0, [y] + Decrypt(p, t.dcc, val[1..]).1)
  {
    if val != [] {
      StepTails(p, s, val[0]);
    }
  }

  lemma TailsStill(p: Params, s: State)
    requires s.(rekeyRounds := 0).Valid(p)
    ensures Remainder(s.decryptedBytes, p.size) == s.decryptedBytes
    ensures Suffix(s.encryptedTail + [], 8 + s.decryptedBytes) == s.encryptedTail
    ensures Suffix(s.decryptedTail + [], 8 + s.decryptedBytes) == s.decryptedTail
  {
  }

  lemma StepTails(p: Params, s: State, x: Byte)
    requires s.(rekeyRounds := 0).Valid(p)
    ensures var (t, y) := Step(p, s.(rekeyRounds := 0), x);
            && 8 + t.decryptedBytes <= |s.encryptedTail| + 1
            && t.encryptedTail == Suffix(s.encryptedTail + [x], 8 + t.decryptedBytes)
            && t.decryptedTail == Suffix(s.decryptedTail + [y], 8 + t.decryptedBytes)
            && t.dcc == DecryptByte(p, s.dcc, x).0 && y == DecryptByte(p, s.dcc, x).1
  {
    hide DecryptByte;
  }

  lemma TailsInBulk(tail: Bytes, x: Byte, n: nat, val: Bytes, more: Bytes, k: nat)
    requires n <= |tail| + 1 && k <= n + |more| && val == [x] + more
    ensures Suffix(Suffix(tail + [x], n) + more, k) == Suffix(tail + val, k)
  {
    SuffixOfSuffix(tail + [x], n, more, k);
    assert tail + [x] + more == tail + val;
  }

  lemma RemainderStep(d: nat, k: nat, size: nat)
    requires d < size && k > 0
    ensures Remainder((if d + 1 == size then 0 else d + 1) + (k - 1), size) == Remainder(d + k, size)
  {
  }

  /** As long as no change of key falls due, the machine only decrypts. */
  lemma {:induction false} FeedIsPlain(p: Params, s: State, val: Bytes)
    requires s.Valid(p) && (s.rekeyRounds == 0 || s.decryptedBytes + |val| < p.size)
    ensures Feed(p, s, val) == Plain(p, s, val)
    decreases |val|
  {
    if val != [] {
      StepPending(p, s, val[0]);
      var t := Step(p, s, val[0]).0;
      FeedIsPlain(p, t, val[1..]);
    }
  }

  /** Whether a change of key is pending makes no difference to a step. */
  lemma StepPending(p: Params, s: State, x: Byte)
    requires s.Valid(p)
    ensures var (t, y) := Step(p, s.(rekeyRounds := 0), x); Step(p, s, x) == (t.(rekeyRounds := s.rekeyRounds), y)
  {
    hide DecryptByte;
  }

  /** A pending change of key happens exactly when the block is full. */
  lemma {:induction false} FeedToBoundary(p: Params, s: State, val: Bytes)
    requires s.Valid(p) && s.rekeyRounds > 0 && s.decryptedBytes + |val| == p.size
    ensures var (t, ys) := Plain(p, s, val);
            && t.decryptedBytes == 0
            && Feed(p, s, val) == (Rekey(p, t, s.rekeyRounds).(rekeyRounds := 0), ys)
    decreases |val|
  {
    hide DecryptByte, Rekey;
    StepPending(p, s, val[0]);
    var (t, y) := Step(p, s, val[0]);
    if |val| == 1 {
      assert val[1..] == [];
    } else {
      FeedToBoundary(p, t, val[1..]);
    }
  }

  class Stream {
    const p: Params
    /** Whether the connection is encrypted: dcc is defined. */
    var secure: bool
    var dcc: Crypt
    var encryptedTail: Bytes
    var decryptedTail: Bytes
    var decryptedBytes: nat
    var rekeyRounds: nat
    var dccKey: Bytes
    /** What the socket has yet to give. */
    var incoming: Bytes

    ghost function Now(): State
      reads this
    {
      State(dcc, encryptedTail, decryptedTail, decryptedBytes, rekeyRounds, dccKey)
    }

    ghost predicate Valid()
      reads this
    {
      Now().Valid(p)
    }

    /** An encrypted connection whose login has just succeeded. */
    constructor (p: Params, key: Bytes, incoming: Bytes)
      requires p.Valid()
      ensures Valid() && secure && this.p == p && this.incoming == incoming && Now() == Start(p, key)
    {
      this.p, this.incoming, secure := p, incoming, true;
      dcc := Crypt(key, seq(p.size, _ => 0), p.size);
      encryptedTail, decryptedTail := seq(8, _ => 0), seq(8, _ => 0);
      decryptedBytes, rekeyRounds, dccKey := 0, 0, key;
    }

    method Recv(size: nat) returns (val: Bytes)
      requires size <= |incoming|
      modifies `incoming
      ensures val == old(incoming)[..size] && incoming == old(incoming)[size..]
    {
      val := incoming[..size];
      incoming := incoming[size..];
    }

    method DoDecrypt(val: Bytes) returns (plain: Bytes)
      requires Now().(rekeyRounds := 0).Valid(p)
      modifies `dcc, `encryptedTail, `decryptedTail, `decryptedBytes
      ensures (Now(), plain) == Plain(p, old(Now()), val)
    {
      hide Plain, Decrypt, Suffix;
      Unfold(p, Now(), val);
      if val == [] {
        return val;
      }
      PlainInBulk(p, Now(), val);
      ghost var goal, n := Plain(p, Now(), val).0, decryptedBytes + |val|;
      encryptedTail := encryptedTail + val;
      var decrypted := Decrypt(p, dcc, val);
      dcc, plain := decrypted.0, decrypted.1;
      decryptedTail := decryptedTail + plain;
      decryptedBytes := decryptedBytes + |plain|;
      DropBlocks();
      assert rekeyRounds == goal.rekeyRounds && dccKey == goal.dccKey && dcc == goal.dcc;
    }

    /** Every full block leaves the tails. */
    method DropBlocks()
      requires p.size > 0 && |encryptedTail| == |decryptedTail| == 8 + decryptedBytes
      modifies `encryptedTail, `decryptedTail, `decryptedBytes
      ensures decryptedBytes == Remainder(old(decryptedBytes), p.size)
      ensures encryptedTail == Suffix(old(encryptedTail), 8 + decryptedBytes)
      ensures decryptedTail == Suffix(old(decryptedTail), 8 + decryptedBytes)
    {
      hide Suffix;
      ghost var (e, d) := (encryptedTail, decryptedTail);
      SuffixDrop(e, |e|, 0);
      SuffixDrop(d, |d|, 0);
      while decryptedBytes >= p.size
        invariant Remainder(decryptedBytes, p.size) == Remainder(old(decryptedBytes), p.size)
        invariant 8 + decryptedBytes <= |e| == |d|
        invariant encryptedTail == Suffix(e, 8 + decryptedBytes) && decryptedTail == Suffix(d, 8 + decryptedBytes)
      {
        SuffixDrop(e, 8 + decryptedBytes, p.size);
        SuffixDrop(d, 8 + decryptedBytes, p.size);
        decryptedBytes := decryptedBytes - p.size;
        encryptedTail := encryptedTail[p.size..];
        decryptedTail := decryptedTail[p.size..];
      }
    }

    method RekeyNow(rounds: nat)
      requires p.Valid()
      modifies `dcc, `dccKey
      ensures Now() == Rekey(p, old(Now()), rounds)
    {
      var oldiv := DeriveOldKey(p.size, encryptedTail, decryptedTail);
      ghost var goal := NextKey(p, dccKey, rounds);
      for i := 0 to rounds
        invariant NextKey(p, dccKey, rounds - i) == goal
      {
        dccKey := p.hmac(dccKey, p.session);
      }
      dcc := Crypt(dccKey, oldiv, p.size);
    }

    /** `readsock_bytes`, on a socket that gives as many bytes as it is asked for: the machine, fed those bytes. */
    method ReadsockBytes(size: nat) returns (val: Bytes)
      requires Valid() && size <= |incoming|
      modifies this
      ensures Valid() && secure == old(secure) && incoming == old(incoming)[size..]
      ensures secure ==> (Now(), val) == Feed(p, old(Now()), old(incoming)[..size])
      ensures !secure ==> val == old(incoming)[..size] && Now() == old(Now())
    {
      hide Feed, Plain, Rekey;
      var val1, left := [], size;
      ghost var was, taken, bytes := Now(), 0, incoming[..size];
      FeedNothing(p, was);
      assert bytes[..0] == [];
      if secure && rekeyRounds > 0 && size >= p.size - decryptedBytes {
        taken := p.size - decryptedBytes;
        val1 := Recv(p.size - decryptedBytes);
        assert val1 == bytes[..taken];
        FeedToBoundary(p, was, val1);
        left := left - (p.size - decryptedBytes);
        val1 := DoDecrypt(val1);
        RekeyNow(rekeyRounds);
        rekeyRounds := 0;
      }
      ghost var middle := Now();
      assert secure ==> (middle, val1) == Feed(p, was, bytes[..taken]);
      var val2 := Recv(left);
      assert val2 == bytes[taken..];
      if secure {
        FeedIsPlain(p, middle, val2);
        FeedConcat(p, was, bytes[..taken], val2);
        assert bytes == bytes[..taken] + val2;
        val2 := DoDecrypt(val2);
      }
      val := val1 + val2;
    }

    /** The scheduling in `read_msg`: at a block boundary at once, else when the block is full. */
    method ScheduleRekey(flags: nat)
      requires Valid() && (rekeyRounds == 0 || decryptedBytes > 0)
      modifies this
      ensures Valid() && secure == old(secure) && incoming == old(incoming)
      ensures flags > 0 && secure ==>
                Now() == if old(decryptedBytes) == 0 then Rekey(p, old(Now()), flags) else old(Now()).(rekeyRounds := flags)
      ensures flags == 0 || !secure ==> Now() == old(Now())
    {
      if flags > 0 && secure {
        if decryptedBytes == 0 {
          RekeyNow(flags);
        } else {
          rekeyRounds := flags;
        }
      }
    }
  }

  lemma FeedNothing(p: Params, s: State)
    requires s.Valid(p)
    ensures Feed(p, s, []) == (s, [])
  {
  }

  // ---------------------------------------------------------------------------------------------
  // Other block sizes
  // ---------------------------------------------------------------------------------------------

  function Zeros(size: nat): Bytes {
    seq(size, _ => 0)
  }

  /** A cipher whose every block is all ones. */
  function Ones(size: nat, hmac: (Bytes, Bytes) -> Bytes, session: Bytes): Params {
    Params((k, b) => seq(size, _ => 1), size, hmac, session)
  }

  lemma {:induction false} OnesDecrypt(p: Params, c: Crypt, val: Bytes)
    requires p.Valid() && forall k, b :: p.block(k, b) == seq(p.size, _ => 1)
    requires |c.reg| == p.size && c.used <= p.size && (c.used == p.size || c.reg == seq(p.size, _ => 1))
    ensures forall i :: 0 <= i < |val| ==> Decrypt(p, c, val).1[i] == val[i] ^ 1
    ensures val != [] ==> Decrypt(p, c, val).0.reg == seq(p.size, _ => 1)
    decreases |val|
  {
    if val != [] {
      OnesByte(p, c, val[0]);
      hide DecryptByte;
      var (d, y) := DecryptByte(p, c, val[0]);
      OnesDecrypt(p, d, val[1..]);
      assert Decrypt(p, c, val).1 == [y] + Decrypt(p, d, val[1..]).1;
      if val[1..] == [] {
        assert Decrypt(p, d, val[1..]).0 == d;
      }
    }
  }

  lemma OnesByte(p: Params, c: Crypt, x: Byte)
    requires p.Valid() && forall k, b :: p.block(k, b) == seq(p.size, _ => 1)
    requires |c.reg| == p.size && c.used <= p.size && (c.used == p.size || c.reg == seq(p.size, _ => 1))
    ensures DecryptByte(p, c, x).0.reg == seq(p.size, _ => 1) && DecryptByte(p, c, x).1 == x ^ 1
  {
  }

  /**
   Only blocks of 8 bytes keep the tails in step with the register: with any other size the two part after
   the very first block.
   */
  lemma BlockSizeExact(size: nat, key: Bytes, hmac: (Bytes, Bytes) -> Bytes, session: Bytes)
    requires size > 0
    ensures var p := Ones(size, hmac, session);
            p.Valid() && Start(p, key).Valid(p) &&
            var s := Feed(p, Start(p, key), Zeros(size)).0;
            s.decryptedBytes == 0 && (DeriveOldKey(size, s.encryptedTail, s.decryptedTail) == s.dcc.reg <==> size == 8)
  {
    var p := Ones(size, hmac, session);
    var (start, zeros) := (Start(p, key), Zeros(size));
    StartInStep(p, key);
    FeedIsPlain(p, start, zeros);
    PlainInBulk(p, start, zeros);
    OnesDecrypt(p, start.dcc, zeros);
    var s := Feed(p, start, zeros).0;
    assert Remainder(size, size) == 0;
    if size == 8 {
      FeedInStep(p, start, zeros);
    } else {
      var iv := DeriveOldKey(size, s.encryptedTail, s.decryptedTail);
      assert iv[if size < 8 then 0 else 8] == 0;
      assert s.dcc.reg[if size < 8 then 0 else 8] == 1;
    }
  }
}
