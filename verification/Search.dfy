/**
 The IMAP SEARCH command (exec/imapservice.js:1852-2096): `get_func` compiles the prefix-notation keys to
 predicates, each typed by the part of a message it looks at, and `do_search` applies them in stages so
 that headers and bodies are fetched only when they have to be.

 What a single key tests is left abstract: `holds(key, operands, message)`.
 */
module Search {

  /** The part of a message a predicate takes; All takes every part. */
  datatype Kind = Idx | Hdr | Body | All

  datatype Verdict = Yes | No | Throws

  datatype Option<T> = None | Some(value: T)

  type Holds = (string, seq<string>, nat) -> bool

  // ---------------------------------------------------------------------------------------------
  // Keys
  // ---------------------------------------------------------------------------------------------

  /** A compiled predicate. */
  datatype Pred =
    | Leaf(kind: Kind, key: string, operands: seq<string>)
    | Not(p: Pred)
    | Or(p: Pred, q: Pred)
  {
    /** Its type: OR compares a type with a function (exec/imapservice.js:1988), so it is never the common type. */
    function Type(): Kind {
      match this
      case Leaf(kind, _, _) => kind
      case Not(p) => p.Type()
      case Or(_, _) => All
    }
  }

  /** What `get_func` returns and leaves of its arguments; None is an exception. */
  datatype Compiled = Compiled(pred: Pred, rest: seq<string>)

  const HDR_KEYS := {"FROM", "KEYWORD", "SUBJECT", "TO", "UNKEYWORD", "BEFORE", "ON", "SINCE",
                     "SENTBEFORE", "SENTON", "SENTSINCE"}
  const SIZE_KEYS := {"LARGER", "SMALLER"}
  /** Keys whose predicate is built from a text with an unclosed parenthesis, so that building it throws. */
  const BROKEN_KEYS := {"HEADER", "CC", "BCC"}

  function Upper(s: string): string {
    seq(|s|, i requires 0 <= i < |s| => if 'a' <= s[i] <= 'z' then s[i] - 'a' + 'A' else s[i])
  }

  /** The type and the number of operands of a key other than NOT, OR and the broken ones; an unknown key takes none. */
  function Shape(key: string): (Kind, nat) {
    if key == "UID" then (Idx, 1)
    else if key == "BODY" then (Body, 1)
    else if key in HDR_KEYS then (Hdr, 1)
    else if key in SIZE_KEYS || key == "TEXT" then (All, 1)
    else (Idx, 0)
  }

  /** `get_func`: one key and its operands from the front of the arguments. */
  function Compile(args: seq<string>): (c: Option<Compiled>)
    ensures c.Some? ==> |c.value.rest| < |args|
    decreases |args|
  {
    if args == [] then None
    else
      var (key, rest) := (Upper(args[0]), args[1..]);
      if key in BROKEN_KEYS then None
      else if key == "NOT" then
        var c := Compile(rest);
        if c.None? then None else Some(Compiled(Not(c.value.pred), c.value.rest))
      else if key == "OR" then
        var c := Compile(rest);
        if c.None? then None
        else
          var d := Compile(c.value.rest);
          if d.None? then None else Some(Compiled(Or(c.value.pred, d.value.pred), d.value.rest))
      else
        var (kind, n) := Shape(key);
        if n == 0 then Some(Compiled(Leaf(kind, key, []), rest))
        else if rest == [] then (if key in SIZE_KEYS then Some(Compiled(Leaf(kind, key, []), rest)) else None)
        else Some(Compiled(Leaf(kind, key, [rest[0]]), rest[1..]))
  }

  function CompileAll(args: seq<string>): Option<seq<Pred>>
    decreases |args|
  {
    if args == [] then Some([])
    else
      var c := Compile(args);
      if c.None? then None
      else
        var more := CompileAll(c.value.rest);
        if more.None? then None else Some([c.value.pred] + more.value)
  }

  /**
   Arguments that cannot be compiled, by one scan from the left: `wanted` keys are still to come for the NOTs and
   ORs so far.  A broken key, a key without its operand (the sizes do without), or an operator without its keys.
   */
  predicate IllFormed(args: seq<string>, wanted: nat)
    decreases |args|
  {
    if args == [] then wanted > 0
    else
      var (key, rest, left) := (Upper(args[0]), args[1..], if wanted > 0 then wanted - 1 else 0);
      if key in BROKEN_KEYS then true
      else if key == "NOT" then IllFormed(rest, left + 1)
      else if key == "OR" then IllFormed(rest, left + 2)
      else if Shape(key).1 == 0 then IllFormed(rest, left)
      else if rest == [] then key !in SIZE_KEYS || left > 0
      else IllFormed(rest[1..], left)
  }

  lemma {:induction false} CompileOneExact(args: seq<string>, wanted: nat)
    requires wanted >= 1
    ensures IllFormed(args, wanted) <==> Compile(args).None? || IllFormed(Compile(args).value.rest, wanted - 1)
    decreases |args|
  {
    hide Upper, Shape;
    if args != [] && Upper(args[0]) !in BROKEN_KEYS {
      var rest := args[1..];
      if Upper(args[0]) == "NOT" {
        CompileOneExact(rest, wanted);
      } else if Upper(args[0]) == "OR" {
        CompileOneExact(rest, wanted + 1);
        if Compile(rest).Some? {
          CompileOneExact(Compile(rest).value.rest, wanted);
        }
      }
    }
  }

  /** Building the predicates throws exactly on those arguments. */
  lemma {:induction false} CompileAllExact(args: seq<string>)
    ensures CompileAll(args).None? <==> IllFormed(args, 0)
    decreases |args|
  {
    hide Upper, Shape, Compile;
    if args != [] {
      CompileOneExact(args, 1);
      assert IllFormed(args, 1) == IllFormed(args, 0);
      if Compile(args).Some? {
        CompileAllExact(Compile(args).value.rest);
      }
    }
  }

  // ---------------------------------------------------------------------------------------------
  // The keys
  // ---------------------------------------------------------------------------------------------

  /** The keys that take an operand, each with the part of a message it looks at. */
  ghost const OPERAND_KEYS: set<(string, Kind)> :=
    {("UID", Idx), ("BODY", Body), ("TEXT", All), ("LARGER", All), ("SMALLER", All),
     ("FROM", Hdr), ("TO", Hdr), ("SUBJECT", Hdr), ("KEYWORD", Hdr), ("UNKEYWORD", Hdr), ("BEFORE", Hdr),
     ("ON", Hdr), ("SINCE", Hdr), ("SENTBEFORE", Hdr), ("SENTON", Hdr), ("SENTSINCE", Hdr)}

  lemma OperandShape(key: string, kind: Kind)
    requires (key, kind) in OPERAND_KEYS
    ensures Shape(key) == (kind, 1) && key !in BROKEN_KEYS && key != "NOT" && key != "OR"
    ensures key in SIZE_KEYS <==> key == "LARGER" || key == "SMALLER"
  {
  }

  lemma PlainShape(key: string)
    requires forall kind: Kind :: (key, kind) !in OPERAND_KEYS
    ensures Shape(key) == (Idx, 0)
  {
    hide Upper;
    assert (key, Idx) !in OPERAND_KEYS && (key, Hdr) !in OPERAND_KEYS && (key, Body) !in OPERAND_KEYS && (key, All) !in OPERAND_KEYS;
  }

  /** Such a key with its operand is one predicate of that part, in any spelling; without one only the sizes compile. */
  lemma OperandKey(word: string, key: string, kind: Kind, x: string)
    requires (key, kind) in OPERAND_KEYS && Upper(word) == key
    ensures CompileAll([word, x]) == Some([Leaf(kind, key, [x])])
    ensures CompileAll([word]).None? <==> key != "LARGER" && key != "SMALLER"
  {
    hide Upper, Shape;
    OperandShape(key, kind);
    var args := [word, x];
    assert args[1..] == [x] && [x][1..] == [] && [word][1..] == [];
    assert CompileAll([]) == Some([]);
    assert [Leaf(kind, key, [x])] + [] == [Leaf(kind, key, [x])];
  }

  /** Every other word but NOT, OR and the broken keys is one predicate of the index, without an operand. */
  lemma PlainKey(word: string, key: string)
    requires Upper(word) == key && key !in {"NOT", "OR", "HEADER", "CC", "BCC"}
    requires forall kind: Kind :: (key, kind) !in OPERAND_KEYS
    ensures CompileAll([word]) == Some([Leaf(Idx, key, [])])
  {
    hide Upper, Shape;
    PlainShape(key);
    assert [word][1..] == [];
    assert CompileAll([]) == Some([]) && [Leaf(Idx, key, [])] + [] == [Leaf(Idx, key, [])];
  }

  /** A word that is one of these in capitals: NOT and OR wait for their keys, the others throw when built. */
  lemma OperatorKey(word: string, rest: seq<string>)
    ensures Upper(word) in {"HEADER", "CC", "BCC"} ==> CompileAll([word] + rest).None?
    ensures Upper(word) == "NOT" ==> CompileAll([word]).None?
    ensures Upper(word) == "OR" ==> CompileAll([word]).None?
  {
    hide Upper, Shape;
    assert ([word] + rest)[0] == word && [word][1..] == [];
    assert Compile([]).None?;
  }

  /** What a word is in capitals: the letters a to z 32 lower, the rest as it is. */
  lemma UpperIs(s: string, i: nat)
    requires i < |s|
    ensures |Upper(s)| == |s|
    ensures Upper(s)[i] as int == if 97 <= s[i] as int <= 122 then s[i] as int - 32 else s[i] as int
  {
  }

  /** Only what a word is in capitals matters where a key is expected. */
  lemma SpellingsAgree(word: string, other: string, rest: seq<string>)
    requires Upper(word) == Upper(other)
    ensures CompileAll([word] + rest) == CompileAll([other] + rest)
  {
    hide Upper, Shape;
    var (a, b) := ([word] + rest, [other] + rest);
    assert a[0] == word && b[0] == other && a[1..] == rest && b[1..] == rest;
    assert Compile(a) == Compile(b);
  }

  /** A search for a copied recipient. */
  lemma CopiedThrows(x: string)
    ensures CompileAll(["CC", x]).None?
  {
    assert Upper("CC") == "CC";
  }

  // ---------------------------------------------------------------------------------------------
  // Evaluation
  // ---------------------------------------------------------------------------------------------

  function Negated(v: Verdict): Verdict {
    match v
    case Yes => No
    case No => Yes
    case Throws => Throws
  }

  /**
   A compiled predicate applied to a message.  `full` is false where the header and the body are not passed:
   NOT hands on its first argument only, which for an All predicate is the index entry.  SENTSINCE names a
   variable that does not exist.
   */
  function Eval(p: Pred, m: nat, full: bool, holds: Holds): Verdict {
    match p
    case Leaf(kind, key, operands) =>
      if key == "SENTSINCE" || (kind != Idx && !full) then Throws
      else if holds(key, operands, m) then Yes else No
    case Not(q) =>
      Negated(Eval(q, m, full && q.Type() != All, holds))
    case Or(q, r) =>
      var v := Eval(q, m, full, holds);
      if v == No then Eval(r, m, full, holds) else v
  }

  /** What a search key means. */
  predicate Denotes(p: Pred, m: nat, holds: Holds) {
    match p
    case Leaf(_, key, operands) => holds(key, operands, m)
    case Not(q) => !Denotes(q, m, holds)
    case Or(q, r) => Denotes(q, m, holds) || Denotes(r, m, holds)
  }

  /**
   The condition under which evaluating a key throws: it comes to SENTSINCE, or to a key that looks at the header
   or the body where a NOT around keys of several parts has kept those from it.
   */
  predicate Fails(p: Pred, m: nat, full: bool, holds: Holds) {
    match p
    case Leaf(kind, key, _) => key == "SENTSINCE" || (kind != Idx && !full)
    case Not(q) => Fails(q, m, full && q.Type() != All, holds)
    case Or(q, r) => Fails(q, m, full, holds) || (!Denotes(q, m, holds) && Fails(r, m, full, holds))
  }

  /** What evaluating a key comes to, in all cases. */
  lemma {:induction false} EvalExact(p: Pred, m: nat, full: bool, holds: Holds)
    ensures Eval(p, m, full, holds) == if Fails(p, m, full, holds) then Throws else if Denotes(p, m, holds) then Yes else No
  {
    match p
    case Leaf(_, _, _) =>
    case Not(q) =>
      EvalExact(q, m, full && q.Type() != All, holds);
    case Or(q, r) =>
      EvalExact(q, m, full, holds);
      EvalExact(r, m, full, holds);
  }

  /** Only the index entry is looked at. */
  predicate IdxOnly(p: Pred) {
    match p
    case Leaf(kind, key, _) => kind == Idx && key != "SENTSINCE"
    case Not(q) => IdxOnly(q)
    case Or(q, r) => IdxOnly(q) && IdxOnly(r)
  }

  /** NOT is applied to predicates that take a single part, or look at nothing but the index entry. */
  predicate Safe(p: Pred) {
    match p
    case Leaf(_, key, _) => key != "SENTSINCE"
    case Not(q) => Safe(q) && (q.Type() == All ==> IdxOnly(q))
    case Or(q, r) => Safe(q) && Safe(r)
  }

  lemma {:induction false} IdxOnlyEvaluates(p: Pred, m: nat, full: bool, holds: Holds)
    requires IdxOnly(p)
    ensures Eval(p, m, full, holds) != Throws
  {
    match p
    case Leaf(_, _, _) =>
    case Not(q) =>
      IdxOnlyEvaluates(q, m, full && q.Type() != All, holds);
    case Or(q, r) =>
      IdxOnlyEvaluates(q, m, full, holds);
      IdxOnlyEvaluates(r, m, full, holds);
  }

  lemma {:induction false} SafeEvaluates(p: Pred, m: nat, holds: Holds)
    requires Safe(p)
    ensures Eval(p, m, true, holds) != Throws
  {
    match p
    case Leaf(_, _, _) =>
    case Not(q) =>
      if q.Type() == All {
        IdxOnlyEvaluates(q, m, false, holds);
      } else {
        SafeEvaluates(q, m, holds);
      }
    case Or(q, r) =>
      SafeEvaluates(q, m, holds);
      SafeEvaluates(r, m, holds);
  }

  /** NOT TEXT: a search that cannot be evaluated on any message. */
  lemma NotTextThrows(text: string, m: nat, holds: Holds)
    ensures Compile(["NOT", "TEXT", text]) == Some(Compiled(Not(Leaf(All, "TEXT", [text])), []))
    ensures Eval(Not(Leaf(All, "TEXT", [text])), m, true, holds) == Throws
  {
    var args := ["NOT", "TEXT", text];
    assert Upper("NOT") == "NOT" && Upper("TEXT") == "TEXT";
    assert args[1..] == ["TEXT", text];
    assert ["TEXT", text][1..] == [text];
    assert [text][1..] == [];
  }

  // ---------------------------------------------------------------------------------------------
  // The staged search
  // ---------------------------------------------------------------------------------------------

  /** The mailbox as far as fetching goes: whether a message's header and body can be read. */
  datatype Base = Base(hdrOk: nat -> bool, bodyOk: nat -> bool)

  predicate Uses(preds: seq<Pred>, kind: Kind) {
    exists i :: 0 <= i < |preds| && preds[i].Type() == kind
  }

  predicate NeedsHdr(preds: seq<Pred>) {
    Uses(preds, Hdr) || Uses(preds, All)
  }

  predicate AllSafe(preds: seq<Pred>) {
    forall i :: 0 <= i < |preds| ==> Safe(preds[i])
  }

  predicate NeedsBody(preds: seq<Pred>) {
    Uses(preds, Body) || Uses(preds, All)
  }

  predicate Readable(preds: seq<Pred>, offsets: seq<nat>, base: Base) {
    NeedsBody(preds) ==> forall i :: 0 <= i < |offsets| ==> base.bodyOk(offsets[i])
  }

  /** A message that the search is for; one whose header is needed and cannot be read is passed over. */
  predicate Matches(preds: seq<Pred>, m: nat, base: Base, holds: Holds) {
    && (forall i :: 0 <= i < |preds| ==> Denotes(preds[i], m, holds))
    && (NeedsHdr(preds) ==> base.hdrOk(m))
  }

  function Selected(offsets: seq<nat>, preds: seq<Pred>, base: Base, holds: Holds): seq<nat> {
    if offsets == [] then []
    else
      var before := Selected(offsets[..|offsets| - 1], preds, base, holds);
      var m := offsets[|offsets| - 1];
      if Matches(preds, m, base, holds) then before + [m] else before
  }

  lemma UsesIs(preds: seq<Pred>, kind: Kind)
    ensures Uses(preds, kind) <==> exists p :: p in preds && p.Type() == kind
  {
    if Uses(preds, kind) {
      var i :| 0 <= i < |preds| && preds[i].Type() == kind;
      assert preds[i] in preds;
    }
  }

  /** The messages selected are those that match, each where it stood. */
  lemma {:induction false} SelectedConcat(a: seq<nat>, m: nat, b: seq<nat>, preds: seq<Pred>, base: Base, holds: Holds)
    ensures Selected(a + [m] + b, preds, base, holds)
            == Selected(a, preds, base, holds)
               + (if m in Selected([m], preds, base, holds) then [m] else [])
               + Selected(b, preds, base, holds)
    decreases |b|
  {
    hide Matches;
    var whole := a + [m] + b;
    assert [m][..0] == [];
    if b == [] {
      assert whole[..|whole| - 1] == a;
    } else {
      assert whole[..|whole| - 1] == a + [m] + b[..|b| - 1];
      SelectedConcat(a, m, b[..|b| - 1], preds, base, holds);
    }
  }

  /** A message is selected when every key holds of it and, if some key looks beyond the index and the body alone, its header can be read. */
  lemma SelectedOne(m: nat, preds: seq<Pred>, base: Base, holds: Holds)
    ensures m in Selected([m], preds, base, holds) <==>
      && (forall p :: p in preds ==> Denotes(p, m, holds))
      && (base.hdrOk(m) || forall p :: p in preds ==> p.Type() == Idx || p.Type() == Body)
  {
    hide Denotes;
    assert [m][..0] == [];
    UsesIs(preds, Hdr);
    UsesIs(preds, All);
    assert (forall p :: p in preds ==> Denotes(p, m, holds)) <==> forall i :: 0 <= i < |preds| ==> Denotes(preds[i], m, holds);
  }

  /** A body is fetched when some key looks at it. */
  lemma NeedsBodyIs(preds: seq<Pred>)
    ensures NeedsBody(preds) <==> exists p :: p in preds && (p.Type() == Body || p.Type() == All)
  {
    UsesIs(preds, Body);
    UsesIs(preds, All);
  }

  /** `search_set`: the predicates of each type, in the order they were compiled. */
  datatype Sets = Sets(idx: seq<Pred>, hdr: seq<Pred>, body: seq<Pred>, all: seq<Pred>) {
    function Of(k: Kind): seq<Pred> {
      match k
      case Idx => idx
      case Hdr => hdr
      case Body => body
      case All => all
    }

    function Push(p: Pred): Sets {
      match p.Type()
      case Idx => this.(idx := idx + [p])
      case Hdr => this.(hdr := hdr + [p])
      case Body => this.(body := body + [p])
      case All => this.(all := all + [p])
    }
  }

  /** `preds` split by type. */
  ghost predicate Sorted(sets: Sets, preds: seq<Pred>) {
    forall k: Kind, p :: p in sets.Of(k) <==> p in preds && p.Type() == k
  }

  /** Some predicate of the type throws on the message. */
  ghost predicate FailsIn(preds: seq<Pred>, k: Kind, m: nat, holds: Holds) {
    exists p :: p in preds && p.Type() == k && Fails(p, m, true, holds)
  }

  ghost predicate HoldIn(preds: seq<Pred>, k: Kind, m: nat, holds: Holds) {
    forall p :: p in preds && p.Type() == k ==> Denotes(p, m, holds)
  }

  /**
   The search throws on the message: a predicate of a stage it comes to does, or its body is needed and cannot be
   read.  It comes to a stage if all predicates of the stages before hold and, past the index, the header is there.
   */
  ghost predicate ThrowsOn(preds: seq<Pred>, m: nat, base: Base, holds: Holds) {
    || FailsIn(preds, Idx, m, holds)
    || (HoldIn(preds, Idx, m, holds) && (NeedsHdr(preds) ==> base.hdrOk(m)) &&
        (|| FailsIn(preds, Hdr, m, holds)
         || (HoldIn(preds, Hdr, m, holds) &&
             (|| (NeedsBody(preds) && !base.bodyOk(m))
              || FailsIn(preds, Body, m, holds)
              || (HoldIn(preds, Body, m, holds) && FailsIn(preds, All, m, holds))))))
  }

  /** One stage: every predicate of a type is applied, whatever the others said. */
  method Stage(preds: seq<Pred>, m: nat, holds: Holds) returns (threw: bool, failed: bool)
    ensures threw <==> exists p :: p in preds && Fails(p, m, true, holds)
    ensures !threw ==> (failed <==> exists p :: p in preds && !Denotes(p, m, holds))
  {
    threw, failed := false, false;
    for j := 0 to |preds|
      invariant !threw && forall i :: 0 <= i < j ==> !Fails(preds[i], m, true, holds)
      invariant failed <==> exists i :: 0 <= i < j && !Denotes(preds[i], m, holds)
    {
      var v := Eval(preds[j], m, true, holds);
      EvalExact(preds[j], m, true, holds);
      if v == Throws {
        threw := true;
        return;
      }
      if v == No {
        failed := true;
      }
    }
  }

  lemma ByKind(sets: Sets, preds: seq<Pred>, k: Kind, m: nat, holds: Holds)
    requires Sorted(sets, preds)
    ensures FailsIn(preds, k, m, holds) <==> exists p :: p in sets.Of(k) && Fails(p, m, true, holds)
    ensures HoldIn(preds, k, m, holds) <==> !exists p :: p in sets.Of(k) && !Denotes(p, m, holds)
    ensures Uses(preds, k) <==> sets.Of(k) != []
  {
    hide Fails, Denotes;
    if sets.Of(k) != [] {
      assert sets.Of(k)[0] in preds;
    }
    if Uses(preds, k) {
      var i :| 0 <= i < |preds| && preds[i].Type() == k;
      assert preds[i] in sets.Of(k);
    }
  }

  /** All predicates hold when those of each type do. */
  lemma AllKinds(preds: seq<Pred>, m: nat, base: Base, holds: Holds)
    ensures Matches(preds, m, base, holds) <==>
            (forall k: Kind :: HoldIn(preds, k, m, holds)) && (NeedsHdr(preds) ==> base.hdrOk(m))
  {
    hide Denotes, NeedsHdr;
    if forall k: Kind :: HoldIn(preds, k, m, holds) {
      forall i | 0 <= i < |preds| ensures Denotes(preds[i], m, holds) {
        assert HoldIn(preds, preds[i].Type(), m, holds);
      }
    }
  }

  /** All stages for one message. */
  method Judge(sets: Sets, ghost preds: seq<Pred>, m: nat, base: Base, holds: Holds) returns (threw: bool, selected: bool)
    requires Sorted(sets, preds)
    ensures threw <==> ThrowsOn(preds, m, base, holds)
    ensures !threw ==> (selected <==> Matches(preds, m, base, holds))
  {
    hide Sorted, FailsIn, HoldIn, Uses, Matches, Fails, Denotes;
    var failed;
    selected := false;
    forall k: Kind {
      ByKind(sets, preds, k, m, holds);
    }
    AllKinds(preds, m, base, holds);
    assert sets.Of(Idx) == sets.idx && sets.Of(Hdr) == sets.hdr && sets.Of(Body) == sets.body && sets.Of(All) == sets.all;
    threw, failed := Stage(sets.idx, m, holds);
    if threw || failed {
      return;
    }
    if sets.hdr != [] || sets.all != [] {
      if !base.hdrOk(m) {
        return;
      }
      threw, failed := Stage(sets.hdr, m, holds);
      if threw || failed {
        return;
      }
    }
    if sets.body != [] || sets.all != [] {
      if !base.bodyOk(m) {
        threw := true;
        return;
      }
      threw, failed := Stage(sets.body, m, holds);
      if threw || failed {
        return;
      }
    }
    if sets.all != [] {
      threw, failed := Stage(sets.all, m, holds);
      if threw || failed {
        return;
      }
    }
    selected := true;
  }

  /** Safe keys with readable bodies throw on no message. */
  lemma SafeSearch(preds: seq<Pred>, m: nat, base: Base, holds: Holds)
    requires AllSafe(preds) && (NeedsBody(preds) ==> base.bodyOk(m))
    ensures !ThrowsOn(preds, m, base, holds)
  {
    hide Fails, Denotes, Safe, Uses, HoldIn;
    forall p | p in preds ensures !Fails(p, m, true, holds) {
      SafeEvaluates(p, m, holds);
      EvalExact(p, m, true, holds);
    }
  }

  lemma SentSinceOnly(p: Pred, m: nat, base: Base, holds: Holds)
    requires p.Leaf? && p.kind == Hdr && p.key == "SENTSINCE"
    ensures ThrowsOn([p], m, base, holds) <==> base.hdrOk(m)
  {
    var ps := [p];
    assert ps[0] == p && p in ps;
    assert Uses(ps, Hdr) && NeedsHdr(ps);
    assert !FailsIn(ps, Idx, m, holds) && HoldIn(ps, Idx, m, holds);
    assert Fails(p, m, true, holds) && FailsIn(ps, Hdr, m, holds);
  }

  /** A search by sending date throws on every message that has a header to look at. */
  lemma SentSinceThrows(x: string, m: nat, base: Base, holds: Holds)
    ensures CompileAll(["SENTSINCE", x]) == Some([Leaf(Hdr, "SENTSINCE", [x])])
    ensures ThrowsOn([Leaf(Hdr, "SENTSINCE", [x])], m, base, holds) <==> base.hdrOk(m)
  {
    var args := ["SENTSINCE", x];
    assert Upper("SENTSINCE") == "SENTSINCE";
    assert args[1..] == [x] && [x][1..] == [];
    var p := Leaf(Hdr, "SENTSINCE", [x]);
    assert Compile(args) == Some(Compiled(p, []));
    assert CompileAll([]) == Some([]) && [p] + [] == [p];
    SentSinceOnly(p, m, base, holds);
  }

  /**
   `do_search` over the offsets of the open folder.  It throws exactly if the keys cannot be compiled or it throws
   on some message; else it reports exactly the messages that satisfy every key, in index order.
   */
  method DoSearch(args: seq<string>, offsets: seq<nat>, base: Base, holds: Holds) returns (threw: bool, result: seq<nat>)
    ensures threw <==> || IllFormed(args, 0)
                       || (CompileAll(args).Some? && exists m :: m in offsets && ThrowsOn(CompileAll(args).value, m, base, holds))
    ensures !threw ==> CompileAll(args).Some? && result == Selected(offsets, CompileAll(args).value, base, holds)
    ensures CompileAll(args).Some? && AllSafe(CompileAll(args).value) && Readable(CompileAll(args).value, offsets, base) ==> !threw
  {
    hide Matches, Safe, Sorted, Compile, NeedsBody, ThrowsOn, IllFormed;
    CompileAllExact(args);
    NothingSorted();
    threw, result := false, [];
    var sets := Sets([], [], [], []);
    ghost var preds := [];
    var rest := args;
    while rest != []
      invariant Sorted(sets, preds)
      invariant CompileAll(args).None? <==> CompileAll(rest).None?
      invariant CompileAll(rest).Some? ==> CompileAll(args).value == preds + CompileAll(rest).value
      decreases |rest|
    {
      var c := Compile(rest);
      if c.None? {
        threw := true;
        return;
      }
      var p := c.value.pred;
      SortedMore(sets, preds, p);
      sets := sets.Push(p);
      preds := preds + [p];
      rest := c.value.rest;
    }
    assert preds + [] == preds;
    for i := 0 to |offsets|
      invariant !threw && result == Selected(offsets[..i], preds, base, holds)
      invariant forall j :: 0 <= j < i ==> !ThrowsOn(preds, offsets[j], base, holds)
    {
      var selected;
      threw, selected := Judge(sets, preds, offsets[i], base, holds);
      if AllSafe(preds) && Readable(preds, offsets, base) {
        SafeSearch(preds, offsets[i], base, holds);
      }
      if threw {
        return;
      }
      assert offsets[..i + 1][..i] == offsets[..i];
      if selected {
        result := result + [offsets[i]];
      }
    }
    assert offsets[..|offsets|] == offsets;
  }

  lemma NothingSorted()
    ensures Sorted(Sets([], [], [], []), [])
  {
  }

  lemma SortedMore(sets: Sets, preds: seq<Pred>, p: Pred)
    requires Sorted(sets, preds)
    ensures Sorted(sets.Push(p), preds + [p])
  {
    forall k: Kind, q ensures q in sets.Push(p).Of(k) <==> q in preds + [p] && q.Type() == k {
      assert sets.Push(p).Of(k) == if p.Type() == k then sets.Of(k) + [p] else sets.Of(k);
      assert q in sets.Of(k) <==> q in preds && q.Type() == k;
    }
  }

  // ---------------------------------------------------------------------------------------------
  // The compiler undoes prefix notation
  // ---------------------------------------------------------------------------------------------

  /** A predicate as the client writes it. */
  function Written(p: Pred): seq<string> {
    match p
    case Leaf(_, key, operands) => [key] + operands
    case Not(q) => ["NOT"] + Written(q)
    case Or(q, r) => ["OR"] + Written(q) + Written(r)
  }

  /** Every leaf has the type and the number of operands of its key. */
  predicate WellFormed(p: Pred) {
    match p
    case Leaf(kind, key, operands) =>
      Upper(key) == key && key !in BROKEN_KEYS && key != "NOT" && key != "OR" && Shape(key) == (kind, |operands|)
    case Not(q) => WellFormed(q)
    case Or(q, r) => WellFormed(q) && WellFormed(r)
  }

  lemma ShapeArity(key: string)
    ensures Shape(key).1 <= 1
  {
  }

  lemma LeafWritten(p: Pred, rest: seq<string>)
    requires WellFormed(p) && p.Leaf?
    ensures Compile(Written(p) + rest) == Some(Compiled(p, rest))
  {
    hide Upper, Shape;
    ShapeArity(p.key);
    var args := Written(p) + rest;
    var operands := p.operands;
    assert args[1..] == operands + rest;
    if |operands| == 1 {
      assert operands == [operands[0]];
      assert (operands + rest)[1..] == rest;
    } else {
      assert operands == [] && operands + rest == rest;
    }
  }

  lemma {:induction false} CompileWritten(p: Pred, rest: seq<string>)
    requires WellFormed(p)
    ensures Compile(Written(p) + rest) == Some(Compiled(p, rest))
  {
    hide Upper, Shape;
    OperatorsUpper();
    var args := Written(p) + rest;
    match p
    case Leaf(_, key, operands) =>
      LeafWritten(p, rest);
    case Not(q) =>
      assert args[1..] == Written(q) + rest;
      CompileWritten(q, rest);
    case Or(q, r) =>
      assert args[1..] == Written(q) + (Written(r) + rest);
      CompileWritten(q, Written(r) + rest);
      CompileWritten(r, rest);
  }

  lemma OperatorsUpper()
    ensures Upper("NOT") == "NOT" && Upper("OR") == "OR"
  {
  }

  function WrittenAll(ps: seq<Pred>): seq<string> {
    if ps == [] then [] else Written(ps[0]) + WrittenAll(ps[1..])
  }

  lemma WrittenNotEmpty(p: Pred)
    ensures Written(p) != []
  {
  }

  /** A whole command compiles to the keys it was written from. */
  lemma {:induction false} CompileAllWritten(ps: seq<Pred>)
    requires forall i :: 0 <= i < |ps| ==> WellFormed(ps[i])
    ensures CompileAll(WrittenAll(ps)) == Some(ps)
  {
    hide Compile, WellFormed;
    if ps != [] {
      WrittenNotEmpty(ps[0]);
      CompileWritten(ps[0], WrittenAll(ps[1..]));
      CompileAllWritten(ps[1..]);
      assert ps == [ps[0]] + ps[1..];
    }
  }
}
