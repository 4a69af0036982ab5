/**
 The IMAP command tokenizer (exec/imapservice.js:679-767): `parse_line` and its helpers consume a shared
 line and return nested argument lists.  String literals ('{') read on from the socket; the tokenizer
 modelled here stops at one.
 */
module Tokenizer {

  /** An argument: a string, quoted or not, or a parenthesised list. */
  datatype Arg = Str(s: string) | List(args: seq<Arg>)

  /** What one call returns, what it leaves of the line, and whether it met a literal. */
  datatype Parsed = Parsed(args: seq<Arg>, rest: string, literal: bool)

  datatype Token = Token(text: string, rest: string)

  /** `parse_atom`: up to a closing parenthesis, which stays, or a space, which goes. */
  function Atom(line: string): (t: Token)
    ensures |t.rest| <= |line|
    ensures line != "" && line[0] !in {')', ' '} ==> |t.rest| < |line|
  {
    if line == "" || line[0] == ')' then Token("", line)
    else if line[0] == ' ' then Token("", line[1..])
    else
      var t := Atom(line[1..]);
      Token([line[0]] + t.text, t.rest)
  }

  /** `parse_quotedstring` after its opening quote: up to the next quote, or all of the line. */
  function Quoted(line: string): (t: Token)
    ensures |t.rest| <= |line|
  {
    if line == "" then Token("", "")
    else if line[0] == '"' then Token("", line[1..])
    else
      var t := Quoted(line[1..]);
      Token([line[0]] + t.text, t.rest)
  }

  function Prepend(arg: Arg, p: Parsed): Parsed {
    p.(args := [arg] + p.args)
  }

  function Parse(line: string): (p: Parsed)
    ensures |p.rest| <= |line|
    decreases |line|
  {
    if line == "" then Parsed([], "", false)
    else if line[0] == '"' then
      var t := Quoted(line[1..]);
      Prepend(Str(t.text), Parse(t.rest))
    else if line[0] == ')' then Parsed([], line[1..], false)
    else if line[0] == '(' then
      var inner := Parse(line[1..]);
      if inner.literal then Parsed([List(inner.args)], inner.rest, true)
      else Prepend(List(inner.args), Parse(inner.rest))
    else if line[0] == '{' then Parsed([], line, true)
    else if line[0] == ' ' then Parse(line[1..])
    else
      var t := Atom(line);
      Prepend(Str(t.text), Parse(t.rest))
  }

  class Reader {
    var line: string

    constructor (line: string)
      ensures this.line == line
    {
      this.line := line;
    }

    method ParseAtom() returns (ret: string)
      modifies this
      ensures Token(ret, line) == Atom(old(line))
    {
      ret := "";
      while line != ""
        invariant Atom(old(line)) == Token(ret + Atom(line).text, Atom(line).rest)
        decreases |line|
      {
        if line[0] == ')' {
          return;
        } else if line[0] == ' ' {
          line := line[1..];
          return;
        } else {
          ret := ret + [line[0]];
          line := line[1..];
        }
      }
    }

    method ParseQuotedString() returns (ret: string)
      requires line != ""
      modifies this
      ensures Token(ret, line) == Quoted(old(line)[1..])
    {
      ret := "";
      line := line[1..];
      while line != ""
        invariant Quoted(old(line)[1..]) == Token(ret + Quoted(line).text, Quoted(line).rest)
        decreases |line|
      {
        if line[0] == '"' {
          line := line[1..];
          return;
        } else {
          ret := ret + [line[0]];
          line := line[1..];
        }
      }
    }

    /** `parse_line`: consumes the shared line, calling itself for each parenthesised list. */
    method ParseLine() returns (args: seq<Arg>, literal: bool)
      modifies this
      ensures Parsed(args, line, literal) == Parse(old(line))
      decreases |line|
    {
      hide Atom, Quoted;
      args, literal := [], false;
      while line != ""
        invariant |line| <= |old(line)|
        invariant Parse(old(line)) == Parse(line).(args := args + Parse(line).args)
        decreases |line|
      {
        var c := line[0];
        if c == '"' {
          var ret := ParseQuotedString();
          args := args + [Str(ret)];
        } else if c == ')' {
          line := line[1..];
          return;
        } else if c == '(' {
          line := line[1..];
          var inner;
          inner, literal := ParseLine();
          args := args + [List(inner)];
          if literal {
            return;
          }
        } else if c == '{' {
          literal := true;
          return;
        } else if c == ' ' {
          line := line[1..];
        } else {
          var ret := ParseAtom();
          args := args + [Str(ret)];
        }
      }
    }
  }

  // ---------------------------------------------------------------------------------------------
  // Printing
  // ---------------------------------------------------------------------------------------------

  /** How an argument is written. */
  datatype Syntax = Bare(s: string) | InQuotes(s: string) | InParens(items: seq<Syntax>)

  /** Atoms are not empty, hold no space or ')' and do not begin like anything else; quoted strings hold no quote. */
  predicate Writable(x: Syntax) {
    match x
    case Bare(s) => s != "" && s[0] !in {'"', '(', '{'} && ' ' !in s && ')' !in s
    case InQuotes(s) => '"' !in s
    case InParens(items) => forall i :: 0 <= i < |items| ==> Writable(items[i])
  }

  function Meaning(x: Syntax): Arg {
    match x
    case Bare(s) => Str(s)
    case InQuotes(s) => Str(s)
    case InParens(items) => List(Meanings(items))
  }

  function Meanings(items: seq<Syntax>): seq<Arg> {
    if items == [] then [] else [Meaning(items[0])] + Meanings(items[1..])
  }

  function Print(x: Syntax): string {
    match x
    case Bare(s) => s
    case InQuotes(s) => "\"" + s + "\""
    case InParens(items) => "(" + PrintAll(items) + ")"
  }

  /** The arguments with single spaces between them. */
  function PrintAll(items: seq<Syntax>): string {
    if items == [] then "" else if |items| == 1 then Print(items[0]) else Print(items[0]) + " " + PrintAll(items[1..])
  }

  /** Where an argument may end: at the end of the line, before a space, or before a closing parenthesis. */
  predicate Ends(tail: string) {
    tail == "" || tail[0] == ' ' || tail[0] == ')'
  }

  lemma {:induction false} AtomRead(s: string, tail: string)
    requires ' ' !in s && ')' !in s && Ends(tail)
    ensures Atom(s + tail) == Token(s, if tail != "" && tail[0] == ' ' then tail[1..] else tail)
  {
    if s == "" {
      assert s + tail == tail;
    } else {
      assert (s + tail)[1..] == s[1..] + tail;
      AtomRead(s[1..], tail);
    }
  }

  lemma {:induction false} QuotedRead(s: string, tail: string)
    requires '"' !in s
    ensures Quoted(s + "\"" + tail) == Token(s, tail)
  {
    if s == "" {
      assert s + "\"" + tail == "\"" + tail;
    } else {
      assert (s + "\"" + tail)[1..] == s[1..] + "\"" + tail;
      QuotedRead(s[1..], tail);
    }
  }

  lemma SpaceSkipped(tail: string)
    ensures Parse(" " + tail) == Parse(tail)
  {
    assert (" " + tail)[1..] == tail;
  }

  lemma BareRead(s: string, tail: string)
    requires Writable(Bare(s)) && Ends(tail)
    ensures Parse(s + tail) == Prepend(Str(s), Parse(tail))
  {
    AtomRead(s, tail);
    assert (s + tail)[0] == s[0];
    if tail != "" && tail[0] == ' ' {
      assert tail == " " + tail[1..];
      SpaceSkipped(tail[1..]);
    }
  }

  lemma InQuotesRead(s: string, tail: string)
    requires '"' !in s
    ensures Parse("\"" + s + "\"" + tail) == Prepend(Str(s), Parse(tail))
  {
    QuotedRead(s, tail);
    var line := "\"" + s + "\"" + tail;
    assert line[1..] == s + "\"" + tail;
  }

  lemma InParensRead(inner: string, args: seq<Arg>, tail: string)
    requires Parse(inner + (")" + tail)) == Parsed(args, tail, false)
    ensures Parse("(" + inner + ")" + tail) == Prepend(List(args), Parse(tail))
  {
    var line := "(" + inner + ")" + tail;
    assert line[1..] == inner + (")" + tail);
  }

  /** One printed argument is read back, whatever may follow it; the line goes on after it. */
  lemma {:induction false} OneRead(x: Syntax, tail: string)
    requires Writable(x) && Ends(tail)
    ensures Parse(Print(x) + tail) == Prepend(Meaning(x), Parse(tail))
    decreases x, 1
  {
    hide Parse, PrintAll;
    match x
    case Bare(s) =>
      BareRead(s, tail);
    case InQuotes(s) =>
      InQuotesRead(s, tail);
    case InParens(items) =>
      AllRead(items, ")" + tail);
      assert (")" + tail)[1..] == tail;
      InParensRead(PrintAll(items), Meanings(items), tail);
  }

  lemma NothingRead(tail: string)
    requires tail == "" || tail[0] == ')'
    ensures Parse(tail) == Parsed([], if tail == "" then "" else tail[1..], false)
  {
  }

  /** A printed list is read back, up to the closing parenthesis or the end of the line. */
  lemma {:induction false} AllRead(items: seq<Syntax>, tail: string)
    requires (forall i :: 0 <= i < |items| ==> Writable(items[i])) && (tail == "" || tail[0] == ')')
    ensures Parse(PrintAll(items) + tail) == Parsed(Meanings(items), if tail == "" then "" else tail[1..], false)
    decreases items, 0
  {
    hide Parse, Print, Writable, Meaning;
    if items == [] {
      assert PrintAll(items) + tail == tail;
      NothingRead(tail);
    } else if |items| == 1 {
      OneRead(items[0], tail);
      NothingRead(tail);
      assert Meanings(items) == [Meaning(items[0])];
    } else {
      var more := PrintAll(items[1..]) + tail;
      OneRead(items[0], " " + more);
      AllRead(items[1..], tail);
      SpaceSkipped(more);
      assert PrintAll(items) + tail == Print(items[0]) + (" " + more);
    }
  }

  /** Tokenizing undoes printing, on every writable command, and consumes the whole line. */
  lemma ParsePrint(items: seq<Syntax>)
    requires forall i :: 0 <= i < |items| ==> Writable(items[i])
    ensures Parse(PrintAll(items)) == Parsed(Meanings(items), "", false)
  {
    AllRead(items, "");
    assert PrintAll(items) + "" == PrintAll(items);
  }

  /** So commands that are printed alike mean the same. */
  lemma PrintInjective(items: seq<Syntax>, others: seq<Syntax>)
    requires forall i :: 0 <= i < |items| ==> Writable(items[i])
    requires forall i :: 0 <= i < |others| ==> Writable(others[i])
    requires PrintAll(items) == PrintAll(others)
    ensures Meanings(items) == Meanings(others)
  {
    ParsePrint(items);
    ParsePrint(others);
  }

  // ---------------------------------------------------------------------------------------------
  // Lines that end early
  // ---------------------------------------------------------------------------------------------

  /** Arguments with a space after each. */
  function Lead(items: seq<Syntax>): string {
    if items == [] then "" else Print(items[0]) + (" " + Lead(items[1..]))
  }

  /** A line that breaks off at `stop` with all lists but the first still open. */
  function Broken(lists: seq<seq<Syntax>>, stop: string): string
    requires lists != []
  {
    Lead(lists[0]) + if |lists| == 1 then stop else "(" + Broken(lists[1..], stop)
  }

  function Nested(lists: seq<seq<Syntax>>): seq<Arg>
    requires lists != []
  {
    Meanings(lists[0]) + if |lists| == 1 then [] else [List(Nested(lists[1..]))]
  }

  lemma {:induction false} LeadRead(items: seq<Syntax>, tail: string)
    requires forall i :: 0 <= i < |items| ==> Writable(items[i])
    ensures Parse(Lead(items) + tail) == Parse(tail).(args := Meanings(items) + Parse(tail).args)
  {
    hide Parse, Print, Writable, Meaning;
    if items == [] {
      assert Lead(items) + tail == tail && Meanings(items) + Parse(tail).args == Parse(tail).args;
    } else {
      var more := Lead(items[1..]) + tail;
      OneRead(items[0], " " + more);
      SpaceSkipped(more);
      LeadRead(items[1..], tail);
      assert Lead(items) + tail == Print(items[0]) + (" " + more);
      assert [Meaning(items[0])] + (Meanings(items[1..]) + Parse(tail).args) == Meanings(items) + Parse(tail).args;
    }
  }

  lemma ListOpened(tail: string)
    ensures var inner := Parse(tail);
      Parse("(" + tail) == if inner.literal then Parsed([List(inner.args)], inner.rest, true)
                           else Prepend(List(inner.args), Parse(inner.rest))
    ensures Parse("") == Parsed([], "", false)
    ensures tail != "" && tail[0] == '{' ==> Parse(tail) == Parsed([], tail, true)
  {
    assert ("(" + tail)[1..] == tail;
  }

  /**
   The end of the line closes every list that is still open, and a literal stops the tokenizer on the spot; either
   way all that was read before is returned, each list in its place.
   */
  lemma {:induction false} BrokenRead(lists: seq<seq<Syntax>>, stop: string)
    requires lists != [] && (stop == "" || stop[0] == '{')
    requires forall k, i :: 0 <= k < |lists| && 0 <= i < |lists[k]| ==> Writable(lists[k][i])
    ensures Parse(Broken(lists, stop)) == Parsed(Nested(lists), stop, stop != "")
    decreases |lists|
  {
    hide Parse, Writable, Lead, Meanings;
    ListOpened(stop);
    if |lists| == 1 {
      LeadRead(lists[0], stop);
    } else {
      var tail := Broken(lists[1..], stop);
      BrokenRead(lists[1..], stop);
      ListOpened(tail);
      LeadRead(lists[0], "(" + tail);
    }
  }

  /** The end of the line closes an open quote too. */
  lemma {:induction false} UnclosedQuote(s: string)
    requires '"' !in s
    ensures Parse("\"" + s) == Parsed([Str(s)], "", false)
  {
    assert ("\"" + s)[1..] == s;
    QuotedToEnd(s);
    ListOpened("");
  }

  lemma {:induction false} QuotedToEnd(s: string)
    requires '"' !in s
    ensures Quoted(s) == Token(s, "")
  {
    if s != "" {
      QuotedToEnd(s[1..]);
    }
  }

  lemma {:induction false} AtomExact(s: string)
    ensures |Atom(s).text| <= |s|
    ensures Atom(s).text == s <==> ' ' !in s && ')' !in s
    ensures Atom(s).text == s ==> Atom(s).rest == ""
  {
    if s != "" && s[0] != ')' && s[0] != ' ' {
      AtomExact(s[1..]);
      assert s == [s[0]] + s[1..];
    }
  }

  lemma {:induction false} QuotedExact(s: string)
    ensures Quoted(s + "\"").text == s <==> '"' !in s
    ensures '"' !in s ==> Quoted(s + "\"").rest == ""
  {
    if s == "" {
      assert s + "\"" == "\"";
    } else {
      QuotedExact(s[1..]);
      assert (s + "\"")[1..] == s[1..] + "\"";
      assert s == [s[0]] + s[1..];
    }
  }

  lemma {:induction false} QuotedLength(s: string)
    ensures |Quoted(s).text| <= |s|
  {
    if s != "" && s[0] != '"' {
      QuotedLength(s[1..]);
    }
  }

  lemma FirstDiffers(x: Arg, p: Parsed, s: string)
    requires x != Str(s)
    ensures Prepend(x, p).args != [Str(s)]
  {
    assert Prepend(x, p).args[0] == x;
  }

  /** No string returned at the top level is longer than the line it came from. */
  lemma {:induction false} ShorterStrings(line: string, s: string)
    requires |line| < |s|
    ensures Parse(line).args != [Str(s)]
    decreases |line|
  {
    if line != "" {
      if line[0] == '"' {
        QuotedLength(line[1..]);
        FirstDiffers(Str(Quoted(line[1..]).text), Parse(Quoted(line[1..]).rest), s);
      } else if line[0] == ' ' {
        ShorterStrings(line[1..], s);
      } else if line[0] == '(' {
        assert Parse(line).args[0].List?;
      } else if line[0] !in {')', '{'} {
        AtomExact(line);
        FirstDiffers(Str(Atom(line).text), Parse(Atom(line).rest), s);
      }
    }
  }

  /** Which strings can be written as they are: exactly those called writable. */
  lemma BareExact(s: string)
    ensures Parse(s) == Parsed([Str(s)], "", false) <==> Writable(Bare(s))
  {
    if s != "" {
      if s[0] == '"' {
        QuotedLength(s[1..]);
        FirstDiffers(Str(Quoted(s[1..]).text), Parse(Quoted(s[1..]).rest), s);
      } else if s[0] == ' ' {
        ShorterStrings(s[1..], s);
      } else if s[0] == '(' {
        assert Parse(s).args[0].List?;
      } else if s[0] !in {')', '{'} {
        AtomExact(s);
        if Atom(s).text != s {
          FirstDiffers(Str(Atom(s).text), Parse(Atom(s).rest), s);
        }
      }
    }
  }

  /** And which can be written in quotes: those that hold no quote. */
  lemma InQuotesExact(s: string)
    ensures Parse("\"" + s + "\"") == Parsed([Str(s)], "", false) <==> Writable(InQuotes(s))
  {
    QuotedExact(s);
    var line := "\"" + s + "\"";
    assert line[1..] == s + "\"";
    if '"' in s {
      FirstDiffers(Str(Quoted(s + "\"").text), Parse(Quoted(s + "\"").rest), s);
    }
  }
}
