/**
 Whole encrypted Hotline connections (exec/hotline.js:393-494): any sequence of reads and of changes of key asked
 for by message headers, compared with a decrypting side that keeps the cipher's feedback register.
 */
module HotlineRuns {
  import opened HotlineStream

  /** What happens to the decrypting side: bytes are read, or a message header asks for a change of key. */
  datatype Event = Read(val: Bytes) | Schedule(flags: nat)

  function Handle(p: Params, s: State, e: Event): (r: (State, Bytes))
    requires s.Valid(p)
    ensures r.0.Valid(p)
  {
    match e
    case Read(val) => Feed(p, s, val)
    case Schedule(flags) =>
      if flags == 0 then (s, [])
      else if s.decryptedBytes == 0 then (Rekey(p, s, flags), [])
      else (s.(rekeyRounds := flags), [])
  }

  /** The state after a run of events, and all plaintext read. */
  function Run(p: Params, s: State, events: seq<Event>): (r: (State, Bytes))
    requires s.Valid(p)
    ensures r.0.Valid(p)
    decreases |events|
  {
    if events == [] then (s, [])
    else
      var (t, a) := Handle(p, s, events[0]);
      var (u, b) := Run(p, t, events[1..]);
      (u, a + b)
  }

  /** A decrypting side without tails, which keeps the feedback register itself through every change of key. */
  datatype Ideal = Ideal(dcc: Crypt, filled: nat, rekeyRounds: nat, dccKey: Bytes) {
    ghost predicate Valid(p: Params) {
      p.Valid() && |dcc.reg| == p.size && dcc.used <= p.size && filled < p.size
    }
  }

  /** The key after `rounds` changes: each is the HMAC of the one before under the session key. */
  function Hashed(p: Params, key: Bytes, rounds: nat): Bytes {
    if rounds == 0 then key else p.hmac(Hashed(p, key, rounds - 1), p.session)
  }

  lemma {:induction false} HashedOnce(p: Params, key: Bytes, rounds: nat)
    ensures Hashed(p, p.hmac(key, p.session), rounds) == Hashed(p, key, rounds + 1)
  {
    if rounds > 0 {
      HashedOnce(p, key, rounds - 1);
    }
  }

  lemma {:induction false} KeysAgree(p: Params, key: Bytes, rounds: nat)
    ensures NextKey(p, key, rounds) == Hashed(p, key, rounds)
    decreases rounds
  {
    if rounds > 0 {
      KeysAgree(p, p.hmac(key, p.session), rounds - 1);
      HashedOnce(p, key, rounds - 1);
    }
  }

  function IdealRekey(p: Params, i: Ideal, rounds: nat): Ideal {
    var key := Hashed(p, i.dccKey, rounds);
    i.(dcc := Crypt(key, i.dcc.reg, p.size), dccKey := key)
  }

  function IdealStep(p: Params, i: Ideal, x: Byte): (r: (Ideal, Byte))
    requires i.Valid(p)
    ensures r.0.Valid(p)
  {
    var (c, y) := DecryptByte(p, i.dcc, x);
    if i.filled + 1 < p.size then (i.(dcc := c, filled := i.filled + 1), y)
    else if i.rekeyRounds == 0 then (i.(dcc := c, filled := 0), y)
    else (IdealRekey(p, i.(dcc := c, filled := 0, rekeyRounds := 0), i.rekeyRounds), y)
  }

  function IdealFeed(p: Params, i: Ideal, val: Bytes): (r: (Ideal, Bytes))
    requires i.Valid(p)
    ensures r.0.Valid(p)
    decreases |val|
  {
    if val == [] then (i, [])
    else
      var (j, y) := IdealStep(p, i, val[0]);
      var (k, ys) := IdealFeed(p, j, val[1..]);
      (k, [y] + ys)
  }

  function IdealHandle(p: Params, i: Ideal, e: Event): (r: (Ideal, Bytes))
    requires i.Valid(p)
    ensures r.0.Valid(p)
  {
    match e
    case Read(val) => IdealFeed(p, i, val)
    case Schedule(flags) =>
      if flags == 0 then (i, [])
      else if i.filled == 0 then (IdealRekey(p, i, flags), [])
      else (i.(rekeyRounds := flags), [])
  }

  function IdealRun(p: Params, i: Ideal, events: seq<Event>): (r: (Ideal, Bytes))
    requires i.Valid(p)
    ensures r.0.Valid(p)
    decreases |events|
  {
    if events == [] then (i, [])
    else
      var (j, a) := IdealHandle(p, i, events[0]);
      var (k, b) := IdealRun(p, j, events[1..]);
      (k, a + b)
  }

  function Forget(s: State): Ideal {
    Ideal(s.dcc, s.decryptedBytes, s.rekeyRounds, s.dccKey)
  }

  lemma ByteRefines(p: Params, s: State, x: Byte)
    requires s.Valid(p) && InStep(p, s) && p.size == 8
    ensures InStep(p, StepRekey(p, s, x).0)
    ensures IdealStep(p, Forget(s), x) == (Forget(StepRekey(p, s, x).0), StepRekey(p, s, x).1)
  {
    hide DecryptByte, DeriveOldKey, TailsMatch;
    StepInStep(p, s, x);
    var t := Step(p, s, x).0;
    if t.decryptedBytes == 0 && t.rekeyRounds > 0 {
      var u := t.(rekeyRounds := 0);
      RekeyKeepsRegister(p, u, t.rekeyRounds);
      KeysAgree(p, t.dccKey, t.rekeyRounds);
      assert Rekey(p, t, t.rekeyRounds).(rekeyRounds := 0) == Rekey(p, u, t.rekeyRounds);
    }
  }

  lemma {:induction false} BytesRefine(p: Params, s: State, val: Bytes)
    requires s.Valid(p) && InStep(p, s) && p.size == 8
    ensures InStep(p, Feed(p, s, val).0)
    ensures IdealFeed(p, Forget(s), val) == (Forget(Feed(p, s, val).0), Feed(p, s, val).1)
    decreases |val|
  {
    hide StepRekey, InStep, Forget;
    assert Forget(s).Valid(p) by { ForgetValid(p, s); }
    if val != [] {
      ByteRefines(p, s, val[0]);
      BytesRefine(p, StepRekey(p, s, val[0]).0, val[1..]);
    }
  }

  lemma ForgetValid(p: Params, s: State)
    requires s.Valid(p)
    ensures Forget(s).Valid(p)
  {
  }

  lemma HandleRefines(p: Params, s: State, e: Event)
    requires s.Valid(p) && InStep(p, s) && p.size == 8
    ensures InStep(p, Handle(p, s, e).0)
    ensures Forget(s).Valid(p)
    ensures IdealHandle(p, Forget(s), e) == (Forget(Handle(p, s, e).0), Handle(p, s, e).1)
  {
    hide Feed, DeriveOldKey, TailsMatch;
    ForgetValid(p, s);
    match e
    case Read(val) =>
      BytesRefine(p, s, val);
    case Schedule(flags) =>
      if flags > 0 && s.decryptedBytes == 0 {
        RekeyKeepsRegister(p, s, flags);
        KeysAgree(p, s.dccKey, flags);
      }
  }

  lemma {:induction false} RunRefines(p: Params, s: State, events: seq<Event>)
    requires s.Valid(p) && InStep(p, s) && p.size == 8
    ensures InStep(p, Run(p, s, events).0)
    ensures Forget(s).Valid(p)
    ensures IdealRun(p, Forget(s), events) == (Forget(Run(p, s, events).0), Run(p, s, events).1)
    decreases |events|
  {
    hide Handle, InStep, Forget;
    ForgetValid(p, s);
    if events != [] {
      HandleRefines(p, s, events[0]);
      RunRefines(p, Handle(p, s, events[0]).0, events[1..]);
    }
  }

  /**
   The tails do what they are for.  For blocks of 8 bytes, over any run of reads and changes of key after a login,
   plaintext and state are those of a decrypting side that keeps the feedback register; and at every block boundary
   reached, what is derived from the tails is that register.
   */
  lemma TailsKeepRegister(p: Params, key: Bytes, events: seq<Event>)
    requires p.Valid() && p.size == 8
    ensures Start(p, key).Valid(p) && Forget(Start(p, key)).Valid(p)
    ensures var (s, plain) := Run(p, Start(p, key), events);
            && IdealRun(p, Forget(Start(p, key)), events) == (Forget(s), plain)
            && (s.decryptedBytes == 0 ==> DeriveOldKey(8, s.encryptedTail, s.decryptedTail) == s.dcc.reg)
  {
    StartInStep(p, key);
    ForgetValid(p, Start(p, key));
    RunRefines(p, Start(p, key), events);
  }

  lemma {:induction false} RunConcat(p: Params, s: State, a: seq<Event>, b: seq<Event>)
    requires s.Valid(p)
    ensures var (t, x) := Run(p, s, a);
            Run(p, s, a + b) == (Run(p, t, b).0, x + Run(p, t, b).1)
    decreases |a|
  {
    hide Handle;
    if a == [] {
      assert a + b == b && [] + Run(p, s, b).1 == Run(p, s, b).1;
    } else {
      assert (a + b)[1..] == a[1..] + b;
      var (u, z) := Handle(p, s, a[0]);
      RunConcat(p, u, a[1..], b);
      var (t, x) := Run(p, u, a[1..]);
      assert z + (x + Run(p, t, b).1) == (z + x) + Run(p, t, b).1;
    }
  }

  /** Wherever in a run a read is cut in two, plaintext and state at the end are the same. */
  lemma ReadsSplit(p: Params, s: State, a: seq<Event>, x: Bytes, y: Bytes, b: seq<Event>)
    requires s.Valid(p)
    ensures Run(p, s, a + [Read(x + y)] + b) == Run(p, s, a + [Read(x), Read(y)] + b)
  {
    hide Feed;
    var t := Run(p, s, a).0;
    RunConcat(p, s, a + [Read(x + y)], b);
    RunConcat(p, s, a + [Read(x), Read(y)], b);
    RunConcat(p, s, a, [Read(x + y)]);
    RunConcat(p, s, a, [Read(x), Read(y)]);
    FeedConcat(p, t, x, y);
    OneEvent(p, t, Read(x + y));
    RunConcat(p, t, [Read(x)], [Read(y)]);
    assert [Read(x)] + [Read(y)] == [Read(x), Read(y)];
    OneEvent(p, t, Read(x));
    OneEvent(p, Feed(p, t, x).0, Read(y));
  }

  lemma OneEvent(p: Params, s: State, e: Event)
    requires s.Valid(p)
    ensures Run(p, s, [e]) == Handle(p, s, e)
  {
    hide Handle;
    assert Handle(p, s, e).1 + [] == Handle(p, s, e).1;
    assert [e][1..] == [];
  }

  /** With any other block size a single block and a change of key tell the two apart, for some cipher. */
  lemma TailsExact(size: nat, key: Bytes, hmac: (Bytes, Bytes) -> Bytes, session: Bytes)
    requires size > 0
    ensures var p := Ones(size, hmac, session);
            p.Valid() && Start(p, key).Valid(p) && Forget(Start(p, key)).Valid(p) &&
            var events := [Read(Zeros(size)), Schedule(1)];
            (Forget(Run(p, Start(p, key), events).0) == IdealRun(p, Forget(Start(p, key)), events).0 <==> size == 8)
  {
    hide Feed, DeriveOldKey, Run, Start;
    var p := Ones(size, hmac, session);
    var zeros := Zeros(size);
    BlockSizeExact(size, key, hmac, session);
    ForgetValid(p, Start(p, key));
    if size == 8 {
      TailsKeepRegister(p, key, [Read(zeros), Schedule(1)]);
    } else {
      OneBlock(p, key, zeros);
      var s := Feed(p, Start(p, key), zeros).0;
      assert s.decryptedBytes == 0 && DeriveOldKey(p.size, s.encryptedTail, s.decryptedTail) != s.dcc.reg;
      assert Run(p, Start(p, key), [Read(zeros), Schedule(1)]).0.dcc.reg != s.dcc.reg;
    }
  }

  lemma OneBlock(p: Params, key: Bytes, val: Bytes)
    requires p.Valid() && |val| == p.size && Start(p, key).Valid(p) && Forget(Start(p, key)).Valid(p)
    ensures var s := Feed(p, Start(p, key), val).0;
            var events := [Read(val), Schedule(1)];
            s.decryptedBytes == 0 ==>
              && Run(p, Start(p, key), events).0.dcc.reg == DeriveOldKey(p.size, s.encryptedTail, s.decryptedTail)
              && IdealRun(p, Forget(Start(p, key)), events).0.dcc.reg == s.dcc.reg
  {
    hide Feed, DeriveOldKey;
    assert [Read(val), Schedule(1)][1..] == [Schedule(1)] && [Schedule(1)][1..] == [];
    PlainBytes(p, Start(p, key), val);
  }

  /** Without a change of key pending the two agree for any block size. */
  lemma {:induction false} PlainBytes(p: Params, s: State, val: Bytes)
    requires s.Valid(p) && s.rekeyRounds == 0 && Forget(s).Valid(p)
    ensures IdealFeed(p, Forget(s), val).0 == Forget(Feed(p, s, val).0)
    decreases |val|
  {
    hide DecryptByte;
    if val != [] {
      var t := StepRekey(p, s, val[0]).0;
      ForgetValid(p, t);
      PlainBytes(p, t, val[1..]);
    }
  }

  // ---------------------------------------------------------------------------------------------
  // Keys and key stream
  // ---------------------------------------------------------------------------------------------

  /** One round asked for at a block boundary: at once the key is the HMAC of the old key under the session key. */
  lemma OneRoundAtBoundary(p: Params, s: State)
    requires s.Valid(p) && s.decryptedBytes == 0
    ensures var t := Run(p, s, [Schedule(1)]).0;
      t.dccKey == t.dcc.key == p.hmac(s.dccKey, p.session)
  {
    OneEvent(p, s, Schedule(1));
    KeysAgree(p, s.dccKey, 1);
    assert Hashed(p, s.dccKey, 0) == s.dccKey;
  }

  /** Inside a block the key stays until the block is full, and is that HMAC then. */
  lemma OneRoundPending(p: Params, s: State, val: Bytes)
    requires s.Valid(p) && s.decryptedBytes > 0 && s.decryptedBytes + |val| <= p.size
    ensures var t := Run(p, s, [Schedule(1), Read(val)]).0;
      if s.decryptedBytes + |val| < p.size then t.dccKey == s.dccKey && t.rekeyRounds == 1
      else t.dccKey == t.dcc.key == p.hmac(s.dccKey, p.session) && t.rekeyRounds == 0
  {
    var pending := s.(rekeyRounds := 1);
    RunConcat(p, s, [Schedule(1)], [Read(val)]);
    assert [Schedule(1)] + [Read(val)] == [Schedule(1), Read(val)];
    OneEvent(p, s, Schedule(1));
    OneEvent(p, pending, Read(val));
    PlainInBulk(p, pending, val);
    KeysAgree(p, s.dccKey, 1);
    assert Hashed(p, s.dccKey, 0) == s.dccKey;
    if s.decryptedBytes + |val| < p.size {
      FeedIsPlain(p, pending, val);
      PlainKeepsPending(p, pending, val);
    } else {
      FeedToBoundary(p, pending, val);
    }
  }

  lemma PlainKeepsPending(p: Params, s: State, val: Bytes)
    requires s.(rekeyRounds := 0).Valid(p)
    ensures Plain(p, s, val).0.rekeyRounds == s.rekeyRounds
  {
  }

  /** Rounds add up: so many at once are so many one after the other. */
  lemma RoundsAdd(p: Params, s: State, a: nat, b: nat)
    requires s.Valid(p) && s.decryptedBytes == 0
    ensures Run(p, s, [Schedule(a + b)]).0.dccKey == Run(p, s, [Schedule(a), Schedule(b)]).0.dccKey
  {
    hide Feed, DeriveOldKey, NextKey, Hashed, Run;
    var t := Handle(p, s, Schedule(a)).0;
    OneEvent(p, s, Schedule(a + b));
    OneEvent(p, s, Schedule(a));
    OneEvent(p, t, Schedule(b));
    RunConcat(p, s, [Schedule(a)], [Schedule(b)]);
    assert [Schedule(a)] + [Schedule(b)] == [Schedule(a), Schedule(b)];
    KeysAgree(p, s.dccKey, a + b);
    KeysAgree(p, s.dccKey, a);
    KeysAgree(p, t.dccKey, b);
    HashedAdd(p, s.dccKey, a, b);
  }

  lemma {:induction false} HashedAdd(p: Params, key: Bytes, a: nat, b: nat)
    ensures Hashed(p, Hashed(p, key, a), b) == Hashed(p, key, a + b)
  {
    if b > 0 {
      HashedAdd(p, key, a, b - 1);
    }
  }

  /** Output feedback, block by block: each block of key stream is the last one encrypted under the key. */
  function KeyBytes(p: Params, key: Bytes, reg: Bytes, n: nat): (r: Bytes)
    requires p.Valid()
    ensures |r| == n
    decreases n
  {
    var next := p.block(key, reg);
    if n <= p.size then next[..n] else next + KeyBytes(p, key, next, n - p.size)
  }

  function XorAll(val: Bytes, keys: Bytes): (r: Bytes)
    requires |val| <= |keys|
    ensures |r| == |val|
  {
    if val == [] then [] else [val[0] ^ keys[0]] + XorAll(val[1..], keys[1..])
  }

  lemma {:induction false} XorConcat(a: Bytes, b: Bytes, k: Bytes, l: Bytes)
    requires |a| == |k| && |b| <= |l|
    ensures XorAll(a + b, k + l) == XorAll(a, k) + XorAll(b, l)
  {
    if a == [] {
      assert a + b == b && k + l == l && [] + XorAll(b, l) == XorAll(b, l);
    } else {
      assert (a + b)[1..] == a[1..] + b && (k + l)[1..] == k[1..] + l;
      XorConcat(a[1..], b, k[1..], l);
    }
  }

  lemma ByteWithin(p: Params, c: Crypt, x: Byte)
    requires p.Valid() && |c.reg| == p.size && c.used < p.size
    ensures DecryptByte(p, c, x) == (c.(used := c.used + 1), x ^ c.reg[c.used])
  {
  }

  /** Bytes that fall into a block already begun. */
  lemma {:induction false} DecryptWithin(p: Params, c: Crypt, val: Bytes)
    requires p.Valid() && |c.reg| == p.size && c.used <= p.size && c.used + |val| <= p.size
    ensures Decrypt(p, c, val) == (c.(used := c.used + |val|), XorAll(val, c.reg[c.used..]))
    decreases |val|
  {
    hide DecryptByte;
    if val != [] {
      ByteWithin(p, c, val[0]);
      DecryptWithin(p, c.(used := c.used + 1), val[1..]);
      assert c.reg[c.used..][1..] == c.reg[c.used + 1..];
    }
  }

  lemma {:induction false} DecryptConcat(p: Params, c: Crypt, a: Bytes, b: Bytes)
    requires p.Valid() && |c.reg| == p.size && c.used <= p.size
    ensures var (d, x) := Decrypt(p, c, a);
      Decrypt(p, c, a + b) == (Decrypt(p, d, b).0, x + Decrypt(p, d, b).1)
    decreases |a|
  {
    hide DecryptByte;
    if a == [] {
      assert a + b == b && [] + Decrypt(p, c, b).1 == Decrypt(p, c, b).1;
    } else {
      assert (a + b)[1..] == a[1..] + b;
      var (d, y) := DecryptByte(p, c, a[0]);
      DecryptConcat(p, d, a[1..], b);
      var (e, x) := Decrypt(p, d, a[1..]);
      assert [y] + (x + Decrypt(p, e, b).1) == ([y] + x) + Decrypt(p, e, b).1;
    }
  }

  /** A block used up is as good as its register under the same key: the next byte begins a new block. */
  lemma FreshBlock(p: Params, c: Crypt, val: Bytes)
    requires p.Valid() && |c.reg| == p.size && c.used == p.size && val != []
    ensures Decrypt(p, c, val) == Decrypt(p, Crypt(c.key, p.block(c.key, c.reg), 0), val)
  {
  }

  /** Decryption is output feedback (section 6.4 of NIST SP 800-38A): the bytes exclusive-or'ed with that key stream. */
  lemma {:induction false} DecryptIsOutputFeedback(p: Params, c: Crypt, val: Bytes)
    requires p.Valid() && |c.reg| == p.size && c.used == p.size
    ensures Decrypt(p, c, val).1 == XorAll(val, KeyBytes(p, c.key, c.reg, |val|))
    decreases |val|
  {
    hide DecryptByte, Decrypt, XorAll;
    if val == [] {
      DecryptWithin(p, c, val);
    } else {
      var d := Crypt(c.key, p.block(c.key, c.reg), 0);
      FreshBlock(p, c, val);
      if |val| <= p.size {
        DecryptWithin(p, d, val);
        assert d.reg[0..] == d.reg[..|val|] + d.reg[|val|..];
        XorConcat(val, [], d.reg[..|val|], d.reg[|val|..]);
        assert val + [] == val && XorAll(val, d.reg[..|val|]) + XorAll([], d.reg[|val|..]) == XorAll(val, d.reg[..|val|]);
      } else {
        var (a, b) := (val[..p.size], val[p.size..]);
        assert val == a + b && d.reg[0..] == d.reg;
        DecryptWithin(p, d, a);
        DecryptConcat(p, d, a, b);
        DecryptIsOutputFeedback(p, d.(used := p.size), b);
        XorConcat(a, b, d.reg, KeyBytes(p, d.key, d.reg, |b|));
      }
    }
  }
}
