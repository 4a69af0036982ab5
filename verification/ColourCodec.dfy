/**
 Saving and loading a message with Ctrl-A colour codes: `make_strings` with embed_colour and
 `make_lines` with nl_is_hardcr (exec/fseditor.js:823-985, 996-1099).
 */
module ColourCodec {
  import opened EditorLines

  const CTRL_A: char := '\U{01}'
  const NORMAL: Attr := 7

  // Foreground colours (exec/load/cga_defs.js:11-18).
  const BLACK: Attr := 0
  const BLUE: Attr := 1
  const GREEN: Attr := 2
  const CYAN: Attr := 3
  const RED: Attr := 4
  const MAGENTA: Attr := 5
  const BROWN: Attr := 6
  const LIGHTGRAY: Attr := 7

  // ---------------------------------------------------------------------------------------------
  // Encoder
  // ---------------------------------------------------------------------------------------------

  /** Going from `last` to `attr` turns blink or high intensity off, which takes a reset. */
  predicate NeedsReset(last: Attr, attr: Attr) {
    (attr & 0x80 == 0 && last & 0x80 != 0) || (attr & 0x08 == 0 && last & 0x08 != 0)
  }

  predicate WantsBlink(base: Attr, attr: Attr) {
    attr & 0x80 != 0 && base & 0x80 == 0
  }

  predicate WantsHigh(base: Attr, attr: Attr) {
    attr & 0x08 != 0 && base & 0x08 == 0
  }

  predicate NewForeground(base: Attr, attr: Attr) {
    attr & 0x07 != base & 0x07
  }

  predicate NewBackground(base: Attr, attr: Attr) {
    attr & 0x70 != base & 0x70
  }

  function Foreground(attr: Attr): char {
    var c := attr & 0x07;
    if c == BLACK then 'K' else if c == RED then 'R' else if c == GREEN then 'G' else if c == BROWN then 'Y'
    else if c == BLUE then 'B' else if c == MAGENTA then 'M' else if c == CYAN then 'C' else 'N'
  }

  function Background(attr: Attr): char {
    var c := (attr & 0x70) >> 4;
    if c == BLACK then '0' else if c == RED then '1' else if c == GREEN then '2' else if c == BROWN then '3'
    else if c == BLUE then '4' else if c == MAGENTA then '5' else if c == CYAN then '6' else '7'
  }

  function Code(when: bool, letter: char): string {
    if when then [CTRL_A, letter] else ""
  }

  /** What `lastattr` is once the reset, if one is needed, has been emitted. */
  function Base(last: Attr, attr: Attr): Attr {
    if NeedsReset(last, attr) then NORMAL else last
  }

  /** A code that is emitted when its condition holds. */
  datatype Step = Step(when: bool, letter: char)

  /** The codes that may be emitted before a character of attribute `attr`, in the order they are. */
  function Steps(last: Attr, attr: Attr): seq<Step> {
    if attr == last then []
    else
      var base := Base(last, attr);
      [Step(NeedsReset(last, attr), 'N'),
       Step(WantsBlink(base, attr), 'I'),
       Step(WantsHigh(base, attr), 'H'),
       Step(NewForeground(base, attr), Foreground(attr)),
       Step(NewBackground(base, attr), Background(attr))]
  }

  function Emit(steps: seq<Step>): string {
    if steps == [] then "" else Code(steps[0].when, steps[0].letter) + Emit(steps[1..])
  }

  function Codes(last: Attr, attr: Attr): string {
    Emit(Steps(last, attr))
  }

  /** replace(/([ \t]*)$/, '') */
  function TrimTail(s: string): (r: string)
    ensures |r| <= |s|
  {
    if s != "" && (s[|s| - 1] == ' ' || s[|s| - 1] == '\t') then TrimTail(s[..|s| - 1]) else s
  }

  datatype Encoded = Encoded(str: string, last: Attr)

  function EncodeItem(e: Encoded, item: Item): Encoded {
    match item
    case Ch(c, a) => Encoded(e.str + Codes(e.last, a) + [c], a)
    case Hard => Encoded(TrimTail(e.str) + "\r\n", e.last)
  }

  function Encode(items: seq<Item>): Encoded {
    if items == [] then Encoded("", NORMAL) else EncodeItem(Encode(items[..|items| - 1]), items[|items| - 1])
  }

  /** Blink or high intensity is on in `last` and off in `attr`. */
  ghost predicate Loses(last: Attr, attr: Attr) {
    last & !attr & 0x88 != 0
  }

  function One(when: bool): nat {
    if when then 1 else 0
  }

  lemma LosesIs(last: Attr, attr: Attr)
    ensures NeedsReset(last, attr) <==> Loses(last, attr)
    ensures !Loses(attr, attr)
  {
  }

  /** The colour as it should be is another one in these bits. */
  ghost predicate Differs(base: Attr, attr: Attr, bits: Attr) {
    (base ^ attr) & bits != 0
  }

  lemma FieldsDiffer(base: Attr, attr: Attr)
    requires base == 7 || !Loses(base, attr)
    ensures WantsBlink(base, attr) <==> Differs(base, attr, 0x80)
    ensures WantsHigh(base, attr) <==> Differs(base, attr, 0x08)
    ensures NewForeground(base, attr) <==> Differs(base, attr, 0x07)
    ensures NewBackground(base, attr) <==> Differs(base, attr, 0x70)
  {
  }

  lemma EmitOne(step: Step, steps: seq<Step>)
    ensures Emit([step] + steps) == Code(step.when, step.letter) + Emit(steps)
    ensures |Code(step.when, step.letter)| == 2 * One(step.when)
  {
    assert ([step] + steps)[1..] == steps;
  }

  lemma EmitFive(a: Step, b: Step, c: Step, d: Step, e: Step)
    ensures |Emit([a, b, c, d, e])| == 2 * (One(a.when) + One(b.when) + One(c.when) + One(d.when) + One(e.when))
    ensures a.when ==> [CTRL_A, a.letter] <= Emit([a, b, c, d, e])
  {
    EmitOne(e, []);
    EmitOne(d, [e]);
    EmitOne(c, [d, e]);
    EmitOne(b, [c, d, e]);
    EmitOne(a, [b, c, d, e]);
    hide One, Code;
    assert [e] + [] == [e] && [d] + [e] == [d, e] && [c] + [d, e] == [c, d, e];
    assert [b] + [c, d, e] == [b, c, d, e] && [a] + [b, c, d, e] == [a, b, c, d, e];
    assert Code(true, a.letter) == [CTRL_A, a.letter] by { CodeIs(a.letter); }
    assert Emit([]) == "";
  }

  lemma CodeIs(letter: char)
    ensures Code(true, letter) == [CTRL_A, letter]
  {
  }

  /**
   A change of colour takes one code for each of blink, intensity, foreground and background that is not as it
   should be, and a reset first only when blink or intensity goes off.
   */
  lemma OneCodePerField(last: Attr, attr: Attr)
    ensures var base := if Loses(last, attr) then 7 else last;
      |Codes(last, attr)| == 2 * (One(Loses(last, attr)) + One(Differs(base, attr, 0x80)) + One(Differs(base, attr, 0x08))
                                  + One(Differs(base, attr, 0x07)) + One(Differs(base, attr, 0x70)))
    ensures Loses(last, attr) ==> [CTRL_A, 'N'] <= Codes(last, attr)
  {
    hide Loses, NeedsReset, WantsBlink, WantsHigh, NewForeground, NewBackground, Foreground, Background, Emit, Differs, One;
    LosesIs(last, attr);
    var base := Base(last, attr);
    FieldsDiffer(base, attr);
    if attr == last {
      SameColour(attr);
    } else {
      EmitFive(Step(NeedsReset(last, attr), 'N'), Step(WantsBlink(base, attr), 'I'), Step(WantsHigh(base, attr), 'H'),
               Step(NewForeground(base, attr), Foreground(attr)), Step(NewBackground(base, attr), Background(attr)));
    }
  }

  lemma SameColour(attr: Attr)
    ensures !Loses(attr, attr) && Emit([]) == "" && One(false) == 0
    ensures forall bits :: !Differs(attr, attr, bits)
  {
  }

  // ---------------------------------------------------------------------------------------------
  // Decoder
  // ---------------------------------------------------------------------------------------------

  /** What the decoder has read: the items so far, the column, the running attribute, a pending Ctrl-A. */
  datatype Decoded = Decoded(items: seq<Item>, col: nat, attr: Attr, escape: bool, overflow: bool)

  function Upper(c: char): char {
    if 'a' <= c <= 'z' then c - 'a' + 'A' else c
  }

  function Apply(attr: Attr, letter: char): Attr {
    match Upper(letter)
    case 'K' => attr & 0xf8
    case 'R' => (attr & 0xf8) | RED
    case 'G' => (attr & 0xf8) | GREEN
    case 'Y' => (attr & 0xf8) | BROWN
    case 'B' => (attr & 0xf8) | BLUE
    case 'M' => (attr & 0xf8) | MAGENTA
    case 'C' => (attr & 0xf8) | CYAN
    case 'W' => (attr & 0xf8) | LIGHTGRAY
    case '0' => attr & 0x8f
    case '1' => (attr & 0x8f) | (RED << 4)
    case '2' => (attr & 0x8f) | (GREEN << 4)
    case '3' => (attr & 0x8f) | (BROWN << 4)
    case '4' => (attr & 0x8f) | (BLUE << 4)
    case '5' => (attr & 0x8f) | (MAGENTA << 4)
    case '6' => (attr & 0x8f) | (CYAN << 4)
    case '7' => (attr & 0x8f) | (LIGHTGRAY << 4)
    case 'H' => attr | 0x08
    case 'I' => attr | 0x80
    case 'N' => NORMAL
    case _ => attr
  }

  function Append(d: Decoded, c: char): Decoded {
    d.(items := d.items + [Ch(c, d.attr)], col := d.col + 1)
  }

  /** One character read; `width` is screen_columns.  A printable one with no column left overflows. */
  function DecodeChar(d: Decoded, c: char, width: nat): Decoded {
    if d.overflow then d
    else if d.escape then
      if c == CTRL_A then Append(d, c).(escape := false) else d.(attr := Apply(d.attr, c), escape := false)
    else if c == '\r' then d
    else if c == CTRL_A then d.(escape := true)
    else if c == '\n' then d.(items := d.items + [Hard], col := 0)
    else if c == ' ' then Append(d, c)
    else if d.col >= width then d.(overflow := true)
    else Append(d, c)
  }

  /** Everything but TAB, which the decoder expands. */
  function Decode(s: string, width: nat): Decoded {
    if s == "" then Decoded([], 0, NORMAL, false, false) else DecodeChar(Decode(s[..|s| - 1], width), s[|s| - 1], width)
  }

  function DecodeFrom(d: Decoded, s: string, width: nat): Decoded {
    if s == "" then d else DecodeChar(DecodeFrom(d, s[..|s| - 1], width), s[|s| - 1], width)
  }

  lemma {:induction false} DecodeConcat(a: string, b: string, width: nat)
    ensures Decode(a + b, width) == DecodeFrom(Decode(a, width), b, width)
  {
    if b == "" {
      assert a + b == a;
    } else {
      assert (a + b)[..|a + b| - 1] == a + b[..|b| - 1];
      DecodeConcat(a, b[..|b| - 1], width);
    }
  }

  lemma {:induction false} DecodeFromConcat(d: Decoded, a: string, b: string, width: nat)
    ensures DecodeFrom(d, a + b, width) == DecodeFrom(DecodeFrom(d, a, width), b, width)
  {
    if b == "" {
      assert a + b == a;
    } else {
      assert (a + b)[..|a + b| - 1] == a + b[..|b| - 1];
      DecodeFromConcat(d, a, b[..|b| - 1], width);
    }
  }

  // ---------------------------------------------------------------------------------------------
  // What the codes mean
  // ---------------------------------------------------------------------------------------------

  /** The foreground codes: the low three bits are black 0 to light grey 7. */
  lemma ForegroundCode(d: Attr, letter: char, k: Attr)
    requires (letter, k) in {('K', 0), ('B', 1), ('G', 2), ('C', 3), ('R', 4), ('M', 5), ('Y', 6), ('W', 7)}
    ensures Apply(d, letter) == (d & 0xf8) | k
  {
  }

  /** The background codes: bits 4 to 6. */
  lemma BackgroundCode(d: Attr, letter: char, k: Attr)
    requires (letter, k) in {('0', 0), ('4', 0x10), ('2', 0x20), ('6', 0x30), ('1', 0x40), ('5', 0x50), ('3', 0x60), ('7', 0x70)}
    ensures Apply(d, letter) == (d & 0x8f) | k
  {
  }

  /** High intensity, blink and the reset. */
  lemma FlagCode(d: Attr)
    ensures Apply(d, 'H') == d | 0x08 && Apply(d, 'I') == d | 0x80 && Apply(d, 'N') == 7
  {
    FlagsSet(d);
  }

  /** Small letters are as good as capitals. */
  lemma SmallCode(d: Attr, c: char)
    requires 'a' <= c <= 'z'
    ensures Apply(d, c) == Apply(d, c - 'a' + 'A')
  {
    hide Upper;
    UpperSmall(c);
  }

  lemma UpperSmall(c: char)
    requires 'a' <= c <= 'z'
    ensures Upper(c) == c - 'a' + 'A' == Upper(c - 'a' + 'A')
  {
  }

  /** No other character changes the colour. */
  lemma NoCode(d: Attr, c: char)
    requires c !in {'K', 'B', 'G', 'C', 'R', 'M', 'Y', 'W', '0', '1', '2', '3', '4', '5', '6', '7', 'H', 'I', 'N'}
    requires c !in {'k', 'b', 'g', 'c', 'r', 'm', 'y', 'w', 'h', 'i', 'n'}
    ensures Apply(d, c) == d
  {
  }

  /** A character that is loaded as itself. */
  predicate Printable(c: char) {
    c !in {CTRL_A, '\r', '\n', '\t'}
  }

  /**
   One code colours what comes after it: the characters up to the next code or end of line are loaded with the
   attribute the code makes of the running one, for as long as the row has room.
   */
  lemma {:induction false} CodeColours(before: string, letter: char, text: string, width: nat)
    requires letter != CTRL_A && forall i :: 0 <= i < |text| ==> Printable(text[i])
    requires var d := Decode(before, width); !d.escape && !d.overflow && d.col + |text| <= width
    ensures var (d, e) := (Decode(before, width), Decode(before + [CTRL_A, letter] + text, width));
      && e.items == d.items + Cells(text, seq(|text|, _ => Apply(d.attr, letter)))
      && e.attr == Apply(d.attr, letter) && e.col == d.col + |text| && !e.escape && !e.overflow
    decreases |text|
  {
    hide Apply;
    var s := before + [CTRL_A, letter] + text;
    var a := Apply(Decode(before, width).attr, letter);
    if text == "" {
      assert s[..|s| - 1] == before + [CTRL_A];
      assert (before + [CTRL_A])[..|before|] == before;
      assert Cells(text, seq(|text|, _ => a)) == [];
    } else {
      var shorter := text[..|text| - 1];
      CodeColours(before, letter, shorter, width);
      assert s[..|s| - 1] == before + [CTRL_A, letter] + shorter;
      assert Cells(text, seq(|text|, _ => a)) == Cells(shorter, seq(|shorter|, _ => a)) + [Ch(text[|text| - 1], a)];
    }
  }

  /** Only a character other than a blank overflows a row, and only when the row is full. */
  lemma OverflowsWhen(before: string, c: char, width: nat)
    requires c !in {'\r', '\n', '\t', CTRL_A}
    requires var d := Decode(before, width); !d.escape && !d.overflow
    ensures var (d, e) := (Decode(before, width), Decode(before + [c], width));
      && (e.overflow <==> c != ' ' && d.col >= width)
      && (!e.overflow ==> e.items == d.items + [Ch(c, d.attr)] && e.col == d.col + 1)
  {
    assert (before + [c])[..|before + [c]| - 1] == before;
  }

  /** A Ctrl-A after a Ctrl-A is loaded as a character of the running colour. */
  lemma CtrlALoaded(before: string, width: nat)
    requires var d := Decode(before, width); !d.escape && !d.overflow
    ensures var (d, e) := (Decode(before, width), Decode(before + [CTRL_A, CTRL_A], width));
      e.items == d.items + [Ch(CTRL_A, d.attr)] && e.attr == d.attr && !e.escape && !e.overflow
  {
    var s := before + [CTRL_A, CTRL_A];
    assert s[..|s| - 1] == before + [CTRL_A];
    assert (before + [CTRL_A])[..|before|] == before;
  }

  // ---------------------------------------------------------------------------------------------
  // One transition
  // ---------------------------------------------------------------------------------------------

  /**
   Light grey is encoded as a full reset.  A change to light grey comes out wrong when, without a reset,
   it also has blink or high intensity, or keeps a background other than black.
   */
  predicate BadTransition(last: Attr, attr: Attr) {
    && attr & 0x07 == LIGHTGRAY && last & 0x07 != LIGHTGRAY && !NeedsReset(last, attr)
    && (attr & 0x88 != 0 || (attr & 0x70 != 0 && attr & 0x70 == last & 0x70))
  }

  function ApplyIf(attr: Attr, when: bool, letter: char): Attr {
    if when then Apply(attr, letter) else attr
  }

  /** The decoder's attribute after the codes of one transition. */
  function Run(d: Attr, steps: seq<Step>): Attr
    decreases |steps|
  {
    if steps == [] then d else Run(ApplyIf(d, steps[0].when, steps[0].letter), steps[1..])
  }

  function After(last: Attr, attr: Attr): Attr {
    Run(last, Steps(last, attr))
  }

  lemma RunFive(d: Attr, a: Step, b: Step, c: Step, e: Step, f: Step)
    ensures var d1 := ApplyIf(d, a.when, a.letter);
            var d2 := ApplyIf(d1, b.when, b.letter);
            var d3 := ApplyIf(d2, c.when, c.letter);
            var d4 := ApplyIf(d3, e.when, e.letter);
            Run(d, [a, b, c, e, f]) == ApplyIf(d4, f.when, f.letter)
  {
    hide ApplyIf;
    var d1 := ApplyIf(d, a.when, a.letter);
    var d2 := ApplyIf(d1, b.when, b.letter);
    var d3 := ApplyIf(d2, c.when, c.letter);
    assert [a, b, c, e, f][1..] == [b, c, e, f];
    assert Run(d, [a, b, c, e, f]) == Run(d1, [b, c, e, f]);
    assert [b, c, e, f][1..] == [c, e, f];
    assert Run(d1, [b, c, e, f]) == Run(d2, [c, e, f]);
    assert [c, e, f][1..] == [e, f];
    assert Run(d2, [c, e, f]) == Run(d3, [e, f]);
    assert [e, f][1..] == [f];
    var d4 := ApplyIf(d3, e.when, e.letter);
    assert Run(d3, [e, f]) == Run(d4, [f]);
    assert [f][1..] == [];
    EmptyRun(ApplyIf(d4, f.when, f.letter));
    assert Run(d4, [f]) == ApplyIf(d4, f.when, f.letter);
  }

  /** What the foreground code of `attr` does: it sets the foreground, except that light grey resets everything. */
  function WithForeground(d: Attr, attr: Attr): Attr {
    if attr & 0x07 == LIGHTGRAY then NORMAL else (d & 0xf8) | (attr & 0x07)
  }

  function WithBackground(d: Attr, attr: Attr): Attr {
    (d & 0x8f) | (attr & 0x70)
  }

  lemma ForegroundSets(d: Attr, attr: Attr)
    ensures Apply(d, Foreground(attr)) == WithForeground(d, attr)
  {
  }

  lemma BackgroundSets(d: Attr, attr: Attr)
    ensures Apply(d, Background(attr)) == WithBackground(d, attr)
  {
  }

  lemma FlagsSet(d: Attr)
    ensures Apply(d, 'N') == NORMAL && Apply(d, 'I') == d | 0x80 && Apply(d, 'H') == d | 0x08
  {
  }

  /** The same as `After`, in terms of the bits each code sets. */
  function AfterBits(last: Attr, attr: Attr): Attr {
    var base := Base(last, attr);
    var a2 := if WantsBlink(base, attr) then base | 0x80 else base;
    var a3 := if WantsHigh(base, attr) then a2 | 0x08 else a2;
    var a4 := if NewForeground(base, attr) then WithForeground(a3, attr) else a3;
    if NewBackground(base, attr) then WithBackground(a4, attr) else a4
  }

  lemma AfterExpanded(last: Attr, attr: Attr)
    requires attr != last
    ensures var base := Base(last, attr);
            var d2 := ApplyIf(base, WantsBlink(base, attr), 'I');
            var d3 := ApplyIf(d2, WantsHigh(base, attr), 'H');
            var d4 := ApplyIf(d3, NewForeground(base, attr), Foreground(attr));
            After(last, attr) == ApplyIf(d4, NewBackground(base, attr), Background(attr))
  {
    hide Foreground, Background, Apply, NeedsReset, WantsBlink, WantsHigh, NewForeground, NewBackground, Run;
    var base := Base(last, attr);
    FlagsSet(last);
    assert ApplyIf(last, NeedsReset(last, attr), 'N') == base;
    RunFive(last, Step(NeedsReset(last, attr), 'N'), Step(WantsBlink(base, attr), 'I'), Step(WantsHigh(base, attr), 'H'),
            Step(NewForeground(base, attr), Foreground(attr)), Step(NewBackground(base, attr), Background(attr)));
  }

  lemma AfterIsBits(last: Attr, attr: Attr)
    requires attr != last
    ensures After(last, attr) == AfterBits(last, attr)
  {
    hide Foreground, Background, Apply, Base, WantsBlink, WantsHigh, NewForeground, NewBackground, WithForeground, WithBackground, After;
    AfterExpanded(last, attr);
    var base := Base(last, attr);
    var d2 := ApplyIf(base, WantsBlink(base, attr), 'I');
    var d3 := ApplyIf(d2, WantsHigh(base, attr), 'H');
    FlagsSet(base);
    FlagsSet(d2);
    ForegroundSets(d3, attr);
    BackgroundSets(ApplyIf(d3, NewForeground(base, attr), Foreground(attr)), attr);
  }

  lemma BitsExact(last: Attr, attr: Attr)
    requires attr != last
    ensures AfterBits(last, attr) == attr <==> !BadTransition(last, attr)
  {
  }

  lemma EmptyRun(d: Attr)
    ensures Run(d, []) == d
  {
  }

  /** The decoder ends on the attribute the encoder meant exactly when the transition is not a bad one. */
  lemma TransitionExact(last: Attr, attr: Attr)
    ensures After(last, attr) == attr <==> !BadTransition(last, attr)
  {
    hide AfterBits, Run;
    if attr == last {
      assert Run(last, []) == last by { EmptyRun(last); }
    } else {
      AfterIsBits(last, attr);
      BitsExact(last, attr);
    }
  }

  // ---------------------------------------------------------------------------------------------
  // The round trip, on flat documents
  // ---------------------------------------------------------------------------------------------

  /** No CR, LF, TAB or Ctrl-A in the text. */
  predicate Encodable(items: seq<Item>) {
    forall i :: 0 <= i < |items| ==> items[i].Ch? ==> items[i].c !in {'\r', '\n', '\t', CTRL_A}
  }

  /** Characters since the last hard return. */
  function Column(items: seq<Item>): nat {
    if items == [] || Last(items) == Hard then 0 else 1 + Column(Front(items))
  }

  /** Every character but a space has a column on the screen. */
  predicate FitsWidth(items: seq<Item>, width: nat) {
    items == [] || (FitsWidth(Front(items), width) && (Last(items).Ch? && Last(items).c != ' ' ==> Column(Front(items)) < width))
  }

  /** No change of attribute from one character to the next is a bad transition. */
  predicate NoBadTransition(items: seq<Item>) {
    items == [] ||
    (NoBadTransition(Front(items)) && (Last(items).Ch? ==> !BadTransition(Encode(Front(items)).last, Last(items).a)))
  }

  /** How many blanks of the last character's attribute the items end with. */
  function BlankRun(items: seq<Item>): (k: nat)
    ensures k <= |items|
  {
    if items == [] || Last(items) == Hard || Last(items).c != ' ' then 0
    else if |items| >= 2 && items[|items| - 2].Ch? && items[|items| - 2].a == Last(items).a then 1 + BlankRun(Front(items))
    else 1
  }

  /** What saving keeps: before each hard return, the trailing blanks of one attribute are dropped. */
  function Stripped(items: seq<Item>): seq<Item> {
    if items == [] then []
    else
      var before := Stripped(Front(items));
      (if Last(items) == Hard then before[..|before| - BlankRun(before)] else before) + [Last(items)]
  }

  lemma CodeDecodes(d: Decoded, when: bool, letter: char, width: nat)
    requires !d.escape && !d.overflow && letter != CTRL_A
    ensures DecodeFrom(d, Code(when, letter), width) == d.(attr := ApplyIf(d.attr, when, letter))
  {
    if when {
      var s := [CTRL_A, letter];
      assert s[..1] == [CTRL_A] && s[..1][..0] == "";
      assert DecodeFrom(d, s[..1], width) == d.(escape := true);
    }
  }

  lemma {:induction false} StepsDecode(d: Decoded, steps: seq<Step>, width: nat)
    requires !d.escape && !d.overflow && forall i :: 0 <= i < |steps| ==> steps[i].letter != CTRL_A
    ensures DecodeFrom(d, Emit(steps), width) == d.(attr := Run(d.attr, steps))
    decreases |steps|
  {
    if steps != [] {
      var code := Code(steps[0].when, steps[0].letter);
      DecodeFromConcat(d, code, Emit(steps[1..]), width);
      CodeDecodes(d, steps[0].when, steps[0].letter, width);
      StepsDecode(DecodeFrom(d, code, width), steps[1..], width);
    }
  }

  lemma {:induction false} EmitEnds(steps: seq<Step>)
    requires forall i :: 0 <= i < |steps| ==> steps[i].letter !in {' ', '\t'}
    ensures Emit(steps) == "" <==> forall i :: 0 <= i < |steps| ==> !steps[i].when
    ensures Emit(steps) != "" ==> Last(Emit(steps)) !in {' ', '\t'}
  {
    if steps != [] {
      EmitEnds(steps[1..]);
      forall i | 1 <= i < |steps| ensures steps[i] == steps[1..][i - 1] {}
    }
  }

  lemma Letters(last: Attr, attr: Attr)
    ensures forall i :: 0 <= i < |Steps(last, attr)| ==> Steps(last, attr)[i].letter !in {' ', '\t', CTRL_A}
  {
  }

  /** Codes are emitted exactly when the attribute changes, and never end with a blank. */
  lemma CodesEnd(last: Attr, attr: Attr)
    ensures Codes(last, attr) == "" <==> attr == last
    ensures attr != last ==> Last(Codes(last, attr)) !in {' ', '\t'}
  {
    hide Emit, Foreground, Background, NeedsReset, WantsBlink, WantsHigh, NewForeground, NewBackground;
    Letters(last, attr);
    EmitEnds(Steps(last, attr));
    if attr != last {
      OneBitDiffers(last, attr);
      var steps := Steps(last, attr);
      assert steps[0].when || steps[1].when || steps[2].when || steps[3].when || steps[4].when;
    }
  }

  lemma OneBitDiffers(last: Attr, attr: Attr)
    requires attr != last
    ensures var base := Base(last, attr);
            NeedsReset(last, attr) || WantsBlink(base, attr) || WantsHigh(base, attr) || NewForeground(base, attr) || NewBackground(base, attr)
  {
  }

  /** The encoder's output, and the same without its trailing blanks, as the decoder sees them. */
  ghost predicate Reads(e: Encoded, kept: seq<Item>, col: nat, width: nat) {
    var d := Decode(e.str, width);
    var k := |e.str| - |TrimTail(e.str)|;
    && d == Decoded(kept, col, e.last, false, false)
    && k == BlankRun(kept) && k <= col
    && Decode(TrimTail(e.str), width) == Decoded(kept[..|kept| - k], col - k, e.last, false, false)
    && (kept != [] && Last(kept).Ch? ==> Last(kept).a == e.last)
  }

  lemma DecodeSnoc(s: string, c: char, width: nat)
    ensures Decode(s + [c], width) == DecodeChar(Decode(s, width), c, width)
  {
    assert (s + [c])[..|s + [c]| - 1] == s;
  }

  lemma TrimSnoc(s: string, c: char)
    ensures TrimTail(s + [c]) == if c == ' ' || c == '\t' then TrimTail(s) else s + [c]
  {
    assert (s + [c])[..|s + [c]| - 1] == s;
  }

  lemma BlankRunSnoc(kept: seq<Item>, c: char, a: Attr)
    ensures BlankRun(kept + [Ch(c, a)]) ==
            if c != ' ' then 0 else if kept != [] && Last(kept).Ch? && Last(kept).a == a then 1 + BlankRun(kept) else 1
    ensures kept == [] || Last(kept) == Hard ==> BlankRun(kept) == 0
  {
    var more := kept + [Ch(c, a)];
    assert Front(more) == kept && Last(more) == Ch(c, a);
    if kept != [] {
      assert more[|more| - 2] == Last(kept);
    }
  }

  lemma ReadsIntro(e: Encoded, kept: seq<Item>, col: nat, k: nat, width: nat)
    requires Decode(e.str, width) == Decoded(kept, col, e.last, false, false)
    requires |e.str| - |TrimTail(e.str)| == k == BlankRun(kept) && k <= col
    requires Decode(TrimTail(e.str), width) == Decoded(kept[..|kept| - k], col - k, e.last, false, false)
    requires kept != [] && Last(kept).Ch? ==> Last(kept).a == e.last
    ensures Reads(e, kept, col, width)
  {
  }

  lemma ReadsElim(e: Encoded, kept: seq<Item>, col: nat, width: nat)
    requires Reads(e, kept, col, width)
    ensures var k := BlankRun(kept);
            && Decode(e.str, width) == Decoded(kept, col, e.last, false, false)
            && |e.str| - |TrimTail(e.str)| == k && k <= col
            && Decode(TrimTail(e.str), width) == Decoded(kept[..|kept| - k], col - k, e.last, false, false)
            && (kept != [] && Last(kept).Ch? ==> Last(kept).a == e.last)
  {
  }

  lemma CharRead(e: Encoded, kept: seq<Item>, col: nat, c: char, a: Attr, width: nat)
    requires Decode(e.str, width) == Decoded(kept, col, e.last, false, false)
    requires c !in {'\r', '\n', '\t', CTRL_A} && (c != ' ' ==> col < width) && !BadTransition(e.last, a)
    ensures Decode(e.str + Codes(e.last, a), width) == Decoded(kept, col, a, false, false)
    ensures Decode(e.str + Codes(e.last, a) + [c], width) == Decoded(kept + [Ch(c, a)], col + 1, a, false, false)
  {
    hide BadTransition, Decode, After, Codes;
    CodesRead(e.str, e.last, a, width);
    TransitionExact(e.last, a);
    DecodeSnoc(e.str + Codes(e.last, a), c, width);
  }

  /** A blank of the attribute before it: it lengthens the run that is trimmed. */
  lemma ReadsSameBlank(e: Encoded, kept: seq<Item>, col: nat, width: nat)
    requires Reads(e, kept, col, width) && !BadTransition(e.last, e.last)
    ensures Reads(EncodeItem(e, Ch(' ', e.last)), kept + [Ch(' ', e.last)], col + 1, width)
  {
    hide BadTransition, Decode, Codes, TrimTail, BlankRun, Reads;
    ReadsElim(e, kept, col, width);
    CharRead(e, kept, col, ' ', e.last, width);
    CodesEnd(e.last, e.last);
    var (more, k) := (kept + [Ch(' ', e.last)], BlankRun(kept));
    assert e.str + Codes(e.last, e.last) == e.str;
    TrimSnoc(e.str, ' ');
    BlankRunSnoc(kept, ' ', e.last);
    ShorterPrefix(kept, Ch(' ', e.last), k);
    ReadsIntro(EncodeItem(e, Ch(' ', e.last)), more, col + 1, k + 1, width);
  }

  /** Any other character: what is trimmed is at most that character. */
  lemma ReadsOther(e: Encoded, kept: seq<Item>, col: nat, c: char, a: Attr, width: nat)
    requires c != ' ' || a != e.last
    requires Reads(e, kept, col, width)
    requires c !in {'\r', '\n', '\t', CTRL_A} && (c != ' ' ==> col < width) && !BadTransition(e.last, a)
    ensures Reads(EncodeItem(e, Ch(c, a)), kept + [Ch(c, a)], col + 1, width)
  {
    hide BadTransition, Decode, Codes, TrimTail, BlankRun, Reads;
    ReadsElim(e, kept, col, width);
    CharRead(e, kept, col, c, a, width);
    var s := e.str + Codes(e.last, a);
    var more := kept + [Ch(c, a)];
    TrimSnoc(s, c);
    BlankRunSnoc(kept, c, a);
    ShorterPrefix(kept, Ch(c, a), 0);
    if c == ' ' {
      CodesTrimmed(e.str, e.last, a);
      ReadsIntro(EncodeItem(e, Ch(c, a)), more, col + 1, 1, width);
    } else {
      assert more[..|more| - 0] == more;
      ReadsIntro(EncodeItem(e, Ch(c, a)), more, col + 1, 0, width);
    }
  }

  lemma ReadsChar(e: Encoded, kept: seq<Item>, col: nat, c: char, a: Attr, width: nat)
    requires Reads(e, kept, col, width)
    requires c !in {'\r', '\n', '\t', CTRL_A} && (c != ' ' ==> col < width) && !BadTransition(e.last, a)
    ensures Reads(EncodeItem(e, Ch(c, a)), kept + [Ch(c, a)], col + 1, width)
  {
    hide BadTransition, Reads;
    if c == ' ' && a == e.last {
      ReadsSameBlank(e, kept, col, width);
    } else {
      ReadsOther(e, kept, col, c, a, width);
    }
  }

  lemma ShorterPrefix(kept: seq<Item>, item: Item, k: nat)
    requires k <= |kept|
    ensures (kept + [item])[..|kept| - k] == kept[..|kept| - k] && kept[..|kept| - 0] == kept
  {
  }

  /** A line end after text that does not end with a blank. */
  lemma LineEndRead(str: string, width: nat)
    requires TrimTail(str) == str
    ensures Decode(str + "\r\n", width) == DecodeChar(DecodeChar(Decode(str, width), '\r', width), '\n', width)
    ensures TrimTail(str + "\r\n") == str + "\r\n"
  {
    hide Decode, TrimTail, DecodeChar;
    DecodeSnoc(str, '\r', width);
    DecodeSnoc(str + "\r", '\n', width);
    assert str + "\r\n" == str + "\r" + "\n";
    TrimSnoc(str + "\r", '\n');
  }

  lemma CodesTrimmed(str: string, last: Attr, attr: Attr)
    requires attr != last
    ensures TrimTail(str + Codes(last, attr)) == str + Codes(last, attr)
  {
    hide Codes;
    CodesEnd(last, attr);
    var s := str + Codes(last, attr);
    assert s[|s| - 1] == Last(Codes(last, attr));
  }

  lemma CodesRead(str: string, last: Attr, attr: Attr, width: nat)
    requires var d := Decode(str, width); !d.escape && !d.overflow && d.attr == last
    ensures Decode(str + Codes(last, attr), width) == Decode(str, width).(attr := After(last, attr))
  {
    Letters(last, attr);
    DecodeConcat(str, Codes(last, attr), width);
    StepsDecode(Decode(str, width), Steps(last, attr), width);
  }

  lemma ReadsHard(e: Encoded, kept: seq<Item>, col: nat, width: nat)
    requires Reads(e, kept, col, width)
    ensures Reads(EncodeItem(e, Hard), kept[..|kept| - BlankRun(kept)] + [Hard], 0, width)
  {
    hide Decode, TrimTail, BlankRun, Reads;
    ReadsElim(e, kept, col, width);
    var t := TrimTail(e.str);
    var more := kept[..|kept| - BlankRun(kept)] + [Hard];
    var r := t + "\r\n";
    TrimTwice(e.str);
    LineEndRead(t, width);
    NoBlankAtHard(more);
    assert TrimTail(r) == r;
    assert Decode(r, width) == Decoded(more, 0, e.last, false, false);
    assert more[..|more| - 0] == more;
    ReadsIntro(Encoded(r, e.last), more, 0, 0, width);
  }

  lemma {:induction false} TrimTwice(s: string)
    ensures TrimTail(TrimTail(s)) == TrimTail(s)
  {
    if s != "" && (s[|s| - 1] == ' ' || s[|s| - 1] == '\t') {
      TrimTwice(s[..|s| - 1]);
    }
  }

  lemma NothingRead(width: nat)
    ensures Decode("", width) == Decoded([], 0, NORMAL, false, false) && TrimTail("") == ""
  {
  }

  lemma NothingReads(width: nat)
    ensures Reads(Encode([]), Stripped([]), Column([]), width)
  {
  }

  lemma FrontFits(items: seq<Item>, width: nat)
    requires items != [] && Encodable(items) && FitsWidth(items, width)
    ensures Encodable(Front(items)) && FitsWidth(Front(items), width)
    ensures Last(items).Ch? ==> Last(items).c !in {'\r', '\n', '\t', CTRL_A}
    ensures Last(items).Ch? && Last(items).c != ' ' ==> Column(Front(items)) < width
  {
  }

  /**
   What was saved is read back: for every document whose characters can be encoded, fit the width and
   change attribute without a bad transition, the decoder returns it as `Stripped` describes, and its
   running attribute is the encoder's.
   */
  lemma {:induction false} SavedIsRead(items: seq<Item>, width: nat)
    requires Encodable(items) && FitsWidth(items, width) && NoBadTransition(items)
    ensures Reads(Encode(items), Stripped(items), Column(items), width)
    decreases |items|
  {
    hide Reads, Decode, TrimTail, Codes, BadTransition, FitsWidth, Encodable, BlankRun;
    NothingRead(width);
    if items == [] {
      assert Reads(Encode(items), Stripped(items), Column(items), width) by { NothingReads(width); }
    } else {
      var (before, item) := (Front(items), Last(items));
      FrontFits(items, width);
      SavedIsRead(before, width);
      if item.Ch? {
        ReadsChar(Encode(before), Stripped(before), Column(before), item.c, item.a, width);
      } else {
        ReadsHard(Encode(before), Stripped(before), Column(before), width);
      }
    }
  }

  /** No hard return comes right after a blank. */
  predicate Tidy(items: seq<Item>) {
    items == [] || (Tidy(Front(items)) && (Last(items) == Hard ==> BlankRun(Front(items)) == 0))
  }

  lemma {:induction false} TidyIsKept(items: seq<Item>)
    requires Tidy(items)
    ensures Stripped(items) == items
    decreases |items|
  {
    if items != [] {
      TidyIsKept(Front(items));
      assert items == Front(items) + [Last(items)];
    }
  }

  // ---------------------------------------------------------------------------------------------
  // Exactly when
  // ---------------------------------------------------------------------------------------------

  /** Whatever the transitions, the decoder finds the same characters and returns; only attributes can differ. */
  ghost predicate SameShape(d: Decoded, items: seq<Item>) {
    && !d.escape && !d.overflow && d.col == Column(items)
    && |d.items| == |items|
    && forall i :: 0 <= i < |items| ==> (items[i] == Hard <==> d.items[i] == Hard)
  }

  lemma AnyCodesRead(str: string, last: Attr, attr: Attr, width: nat)
    requires var d := Decode(str, width); !d.escape && !d.overflow
    ensures var d := Decode(str + Codes(last, attr), width); d == Decode(str, width).(attr := d.attr)
  {
    Letters(last, attr);
    DecodeConcat(str, Codes(last, attr), width);
    StepsDecode(Decode(str, width), Steps(last, attr), width);
  }

  /** When no hard return follows a blank, nothing the encoder wrote is trimmed away again. */
  lemma {:induction false} ShapeKept(items: seq<Item>, width: nat)
    requires Encodable(items) && FitsWidth(items, width) && Tidy(items)
    ensures SameShape(Decode(Encode(items).str, width), items)
    ensures |Encode(items).str| - |TrimTail(Encode(items).str)| == BlankRun(items)
    ensures items != [] && Last(items).Ch? ==> Last(items).a == Encode(items).last
    decreases |items|
  {
    hide Decode, TrimTail, Codes, FitsWidth, Encodable, BlankRun;
    NothingRead(width);
    if items != [] {
      var (before, item) := (Front(items), Last(items));
      var e := Encode(before);
      FrontFits(items, width);
      ShapeKept(before, width);
      assert items == before + [item];
      if item.Ch? {
        ShapeOfChar(e, before, item.c, item.a, width);
      } else {
        TrimIdentity(e.str);
        LineEndRead(e.str, width);
        NoBlankAtHard(items);
      }
    } else {
      NoBlankAtHard(items);
    }
  }

  lemma NoBlankAtHard(items: seq<Item>)
    requires items == [] || Last(items) == Hard
    ensures BlankRun(items) == 0
  {
  }

  lemma {:induction false} TrimIdentity(s: string)
    requires |TrimTail(s)| == |s|
    ensures TrimTail(s) == s
  {
  }

  lemma ShapeOfChar(e: Encoded, before: seq<Item>, c: char, a: Attr, width: nat)
    requires SameShape(Decode(e.str, width), before)
    requires c !in {'\r', '\n', '\t', CTRL_A} && (c != ' ' ==> Column(before) < width)
    requires |e.str| - |TrimTail(e.str)| == BlankRun(before)
    requires before != [] && Last(before).Ch? ==> Last(before).a == e.last
    ensures var r := EncodeItem(e, Ch(c, a)).str;
            && SameShape(Decode(r, width), before + [Ch(c, a)])
            && |r| - |TrimTail(r)| == BlankRun(before + [Ch(c, a)])
            && Decode(r, width).items == Decode(e.str, width).items + [Ch(c, Decode(e.str + Codes(e.last, a), width).attr)]
  {
    hide Decode, Codes, TrimTail, BlankRun;
    var s := e.str + Codes(e.last, a);
    CodesEnd(e.last, a);
    AnyCodesRead(e.str, e.last, a, width);
    DecodeSnoc(s, c, width);
    TrimSnoc(s, c);
    BlankRunSnoc(before, c, a);
    assert Front(before + [Ch(c, a)]) == before;
    if c == ' ' {
      if a == e.last {
        assert s == e.str;
      } else {
        CodesTrimmed(e.str, e.last, a);
      }
    }
  }

  /**
   A document in which no hard return follows a blank comes back as it was exactly when it holds no bad
   transition.
   */
  lemma {:induction false} RoundTripExact(items: seq<Item>, width: nat)
    requires Encodable(items) && FitsWidth(items, width) && Tidy(items)
    ensures Decode(Encode(items).str, width).items == items <==> NoBadTransition(items)
    decreases |items|
  {
    hide Decode, TrimTail, Codes, BadTransition, FitsWidth, Encodable, BlankRun, After;
    NothingRead(width);
    if items != [] {
      var (before, item) := (Front(items), Last(items));
      FrontFits(items, width);
      RoundTripExact(before, width);
      ShapeKept(before, width);
      ShapeKept(items, width);
      var (e, d) := (Encode(before), Decode(Encode(before).str, width));
      assert items == before + [item];
      if item.Ch? {
        ShapeOfChar(e, before, item.c, item.a, width);
        if NoBadTransition(before) {
          SavedIsRead(before, width);
          CodesRead(e.str, e.last, item.a, width);
          TransitionExact(e.last, item.a);
        }
        SnocEqual(d.items, before, Ch(item.c, Decode(e.str + Codes(e.last, item.a), width).attr), item);
      } else {
        TrimIdentity(e.str);
        LineEndRead(e.str, width);
        SnocEqual(d.items, before, Hard, Hard);
      }
    }
  }

  lemma RedIsBad()
    ensures BadTransition(RED, 0x0F) && After(RED, 0x0F) == NORMAL
    ensures !BadTransition(NORMAL, RED)
  {
  }

  lemma TwoCharacters(a: Attr, b: Attr)
    ensures var items := [Ch('a', a), Ch('b', b)];
      && Encodable(items) && FitsWidth(items, 80) && Tidy(items)
      && (BadTransition(a, b) ==> !NoBadTransition(items))
  {
    hide Codes, BadTransition;
    var (one, items) := ([Ch('a', a)], [Ch('a', a), Ch('b', b)]);
    assert Front(items) == one && Front(one) == [];
    assert Column(one) == 1 by { assert Column([]) == 0; }
    assert Encode(one).last == a by { assert Encode([]).last == NORMAL; }
    assert FitsWidth([], 80) && FitsWidth(one, 80) && Tidy([]) && Tidy(one);
  }

  /** Bright white after red: the full reset written for the foreground also takes the brightness back. */
  lemma WhiteAfterRed()
    ensures BadTransition(RED, 0x0F) && After(RED, 0x0F) == NORMAL
    ensures var items := [Ch('a', RED), Ch('b', 0x0F)]; Decode(Encode(items).str, 80).items != items
  {
    hide Encode, Decode, Encodable, FitsWidth, Tidy, NoBadTransition;
    RedIsBad();
    TwoCharacters(RED, 0x0F);
    RoundTripExact([Ch('a', RED), Ch('b', 0x0F)], 80);
  }

  lemma SnocEqual(a: seq<Item>, b: seq<Item>, x: Item, y: Item)
    requires |a| == |b|
    ensures a + [x] == b + [y] <==> a == b && x == y
  {
    if a + [x] == b + [y] {
      assert a == (a + [x])[..|a|] == (b + [y])[..|a|] == b;
      assert x == (a + [x])[|a|] == y;
    }
  }

  // ---------------------------------------------------------------------------------------------
  // The loops
  // ---------------------------------------------------------------------------------------------

  /** The lines as they are saved: soft returns made hard on demand, and the last line always hard. */
  function ForSaving(lines: Buffer, soft: bool): (r: Buffer)
    requires ValidBuffer(lines)
    ensures ValidBuffer(r) && |r| == |lines|
  {
    seq(|lines|, i requires 0 <= i < |lines| => lines[i].(hardcr := soft || lines[i].hardcr || i + 1 == |lines|))
  }

  /** On demand every line ends hard; otherwise only the last is changed, and only so that it does. */
  lemma SavedLines(lines: Buffer)
    requires ValidBuffer(lines) && lines != []
    ensures AllHard(ForSaving(lines, true))
    ensures forall i :: 0 <= i < |lines| ==> ForSaving(lines, true)[i] == lines[i].(hardcr := true)
    ensures ForSaving(lines, false) == lines[..|lines| - 1] + [lines[|lines| - 1].(hardcr := true)]
  {
  }

  lemma HardEnd(ln: Line, before: seq<Item>)
    requires ln.Valid()
    ensures before + LineDoc(ln.(hardcr := true)) == before + LineDoc(ln) + if ln.hardcr then [] else [Hard]
  {
  }

  /** So what is saved is the document with a hard return at its very end. */
  lemma SavedDoc(lines: Buffer)
    requires ValidBuffer(lines) && lines != []
    ensures Doc(ForSaving(lines, false)) == Doc(lines) + if lines[|lines| - 1].hardcr then [] else [Hard]
  {
    hide Doc, LineDoc, ForSaving;
    SavedLines(lines);
    var i := |lines| - 1;
    var saved := ForSaving(lines, false);
    OneMoreLine(lines, i);
    OneMoreLine(saved, i);
    assert lines[..i + 1] == lines && saved[..i + 1] == saved && saved[..i] == lines[..i];
    HardEnd(lines[i], Doc(lines[..i]));
  }

  lemma EncodeSnoc(items: seq<Item>, item: Item)
    ensures Encode(items + [item]) == EncodeItem(Encode(items), item)
  {
    assert (items + [item])[..|items + [item]| - 1] == items;
  }

  lemma HardOrNot(before: seq<Item>, ln: Line, saved: Line)
    requires ln.Valid() && saved == ln.(hardcr := saved.hardcr)
    ensures before + LineDoc(saved) == before + Cells(ln.text, ln.attr) + if saved.hardcr then [Hard] else []
  {
    Assoc(before, Cells(ln.text, ln.attr), if saved.hardcr then [Hard] else []);
  }

  /** The inner loop of `make_strings`: one line's characters, with the codes their colours need. */
  method EncodeLine(start: string, last: Attr, ln: Line, ghost before: seq<Item>) returns (str: string, lastattr: Attr)
    requires ln.Valid() && Encoded(start, last) == Encode(before)
    ensures Encoded(str, lastattr) == Encode(before + Cells(ln.text, ln.attr))
  {
    hide Codes, TrimTail, Encode;
    str, lastattr := start, last;
    ghost var cells := Cells(ln.text, ln.attr);
    assert before + cells[..0] == before;
    for j := 0 to |ln.text|
      invariant Encoded(str, lastattr) == Encode(before + cells[..j])
    {
      var thisattr := ln.attr[j];
      EncodeSnoc(before + cells[..j], cells[j]);
      assert before + cells[..j] + [cells[j]] == before + cells[..j + 1];
      str := str + Codes(lastattr, thisattr);
      lastattr := thisattr;
      str := str + [ln.text[j]];
    }
    assert cells[..|ln.text|] == cells;
  }

  /** `make_strings` with embed_colour: the text of the message, with its colours as codes. */
  method MakeStrings(lines: Buffer, soft: bool) returns (str: string, line: Buffer)
    requires ValidBuffer(lines) && lines != []
    ensures line == lines[|lines| - 1 := lines[|lines| - 1].(hardcr := true)]
    ensures str == Encode(Doc(ForSaving(lines, soft))).str
  {
    hide Codes, TrimTail, Encode;
    line := lines[|lines| - 1 := lines[|lines| - 1].(hardcr := true)];
    str := "";
    var lastattr := NORMAL;
    ghost var saved := ForSaving(lines, soft);
    assert Encoded("", NORMAL) == Encode(Doc(saved[..0])) by { EncodeNothing(); }
    for i := 0 to |line|
      invariant Encoded(str, lastattr) == Encode(Doc(saved[..i]))
    {
      ghost var before := Doc(saved[..i]);
      str, lastattr := EncodeLine(str, lastattr, line[i], before);
      ghost var doc := before + Cells(line[i].text, line[i].attr);
      if soft || line[i].hardcr {
        EncodeSnoc(doc, Hard);
        str := TrimTail(str);
        str := str + "\r\n";
      }
      assert Encoded(str, lastattr) == Encode(doc + if soft || line[i].hardcr then [Hard] else []) by {
        assert doc + [] == doc;
      }
      OneMoreLine(saved, i);
      HardOrNot(before, line[i], saved[i]);
    }
    assert saved[..|line|] == saved;
  }

  lemma EncodeNothing()
    ensures Encode([]) == Encoded("", NORMAL)
  {
  }

  lemma OneMoreLine(lines: Buffer, i: nat)
    requires ValidBuffer(lines) && i < |lines|
    ensures Doc(lines[..i + 1]) == Doc(lines[..i]) + LineDoc(lines[i])
  {
    assert lines[..i + 1] == lines[..i] + [lines[i]];
    DocConcat(lines[..i], [lines[i]]);
    assert [lines[i]][1..] == [];
  }

  predicate AllHard(lines: Buffer) {
    forall i :: 0 <= i < |lines| ==> lines[i].hardcr
  }

  /** The lines `make_lines` builds from a string it can lay out. */
  ghost predicate LoadedFrom(nl: Buffer, str: string, width: nat) {
    && ValidBuffer(nl) && Unkludged(nl)
    && Doc(nl) == Decode(str, width).items
    && (str != "" && Last(str) == '\n' && !Decode(Front(str), width).escape ==> AllHard(nl))
  }

  /**
   `make_lines` with nl_is_hardcr.  A printable character for which the screen has no column left would be
   wrapped; that is reported and not modelled further.
   */
  method MakeLines(str: string, width: nat) returns (nl: Buffer, overflow: bool)
    requires '\t' !in str
    ensures overflow == Decode(str, width).overflow
    ensures !overflow ==> LoadedFrom(nl, str, width)
  {
    hide Apply, Decode, Doc, LineDoc;
    nl, overflow := [], false;
    var spos, thisattr := 0, NORMAL;
    NothingRead(width);
    assert str[..0] == "" && Doc([]) == [] by { EmptyDoc(); }
    while spos < |str|
      invariant spos <= |str| && ValidBuffer(nl) && Unkludged(nl)
      invariant Decode(str[..spos], width).items == Doc(nl) && !Decode(str[..spos], width).overflow
      invariant spos < |str| ==> AllHard(nl) && Decode(str[..spos], width) == Decoded(Doc(nl), 0, thisattr, false, false)
      invariant 0 < spos == |str| && str[spos - 1] == '\n' && !Decode(str[..spos - 1], width).escape ==> AllHard(nl)
      decreases |str| - spos
    {
      var done, cur := false, BLANK;
      ghost var before := Doc(nl);
      BlankDoc(before);
      ghost var start := spos;
      while spos < |str| && !done
        invariant start <= spos <= |str| && (done ==> start < spos) && cur.Valid() && !cur.kludged && (cur.hardcr <==> done)
        invariant Decode(str[..spos], width).items == before + LineDoc(cur) && !Decode(str[..spos], width).overflow
        invariant spos < |str| || done ==> Decode(str[..spos], width) == Decoded(before + LineDoc(cur), if done then 0 else |cur.text|, thisattr, false, false)
        invariant 0 < spos == |str| && str[spos - 1] == '\n' && !Decode(str[..spos - 1], width).escape ==> done
        decreases |str| - spos, !done
      {
        var c := str[spos];
        Prefixes(str, spos, width);
        if c == '\r' {
          spos := spos + 1;
        } else if c == CTRL_A {
          spos := spos + 1;
          if spos < |str| {
            Prefixes(str, spos, width);
            if str[spos] == CTRL_A {
              Assoc(before, LineDoc(cur), [Ch(CTRL_A, thisattr)]);
              cur := CharOn(cur, CTRL_A, thisattr);
            } else {
              thisattr := Apply(thisattr, str[spos]);
            }
            spos := spos + 1;
          }
        } else if c == '\n' {
          spos := spos + 1;
          done := true;
          HardenedDoc(before, cur);
          cur := cur.(hardcr := true);
        } else if c == ' ' {
          Assoc(before, LineDoc(cur), [Ch(c, thisattr)]);
          cur := CharOn(cur, c, thisattr);
          spos := spos + 1;
        } else if |cur.text| >= width {
          overflow := true;
          OverflowStays(str, spos + 1, width);
          return;
        } else {
          Assoc(before, LineDoc(cur), [Ch(c, thisattr)]);
          cur := CharOn(cur, c, thisattr);
          spos := spos + 1;
        }
      }
      AppendLine(nl, cur);
      nl := nl + [cur];
    }
    assert str[..|str|] == str;
  }

  lemma EmptyDoc()
    ensures Doc([]) == []
  {
  }

  lemma BlankDoc(before: seq<Item>)
    ensures before + LineDoc(BLANK) == before
  {
    assert LineDoc(BLANK) == [];
  }

  lemma HardenedDoc(before: seq<Item>, ln: Line)
    requires ln.Valid() && !ln.hardcr
    ensures before + LineDoc(ln.(hardcr := true)) == before + LineDoc(ln) + [Hard]
  {
    Assoc(before, LineDoc(ln), [Hard]);
    assert LineDoc(ln.(hardcr := true)) == LineDoc(ln) + [Hard];
  }

  lemma AppendLine(nl: Buffer, ln: Line)
    requires ValidBuffer(nl) && ln.Valid()
    ensures ValidBuffer(nl + [ln]) && Doc(nl + [ln]) == Doc(nl) + LineDoc(ln)
  {
    DocConcat(nl, [ln]);
    assert [ln][1..] == [];
  }

  lemma Prefixes(str: string, i: nat, width: nat)
    requires i < |str|
    ensures Decode(str[..i + 1], width) == DecodeChar(Decode(str[..i], width), str[i], width)
    ensures str[..|str|] == str
  {
    assert str[..i + 1] == str[..i] + [str[i]];
    DecodeSnoc(str[..i], str[i], width);
  }

  lemma {:induction false} OverflowStays(str: string, i: nat, width: nat)
    requires i <= |str| && Decode(str[..i], width).overflow
    ensures Decode(str, width).overflow
    decreases |str| - i
  {
    if i < |str| {
      Prefixes(str, i, width);
      OverflowStays(str, i + 1, width);
    } else {
      assert str[..i] == str;
    }
  }

  function CharOn(ln: Line, c: char, a: Attr): (r: Line)
    requires ln.Valid() && !ln.hardcr
    ensures r.Valid() && LineDoc(r) == LineDoc(ln) + [Ch(c, a)]
  {
    ln.(text := ln.text + [c], attr := ln.attr + [a])
  }

  // ---------------------------------------------------------------------------------------------
  // The round trip, on buffers
  // ---------------------------------------------------------------------------------------------

  /** A buffer of hard, unkludged lines is determined by its document. */
  lemma {:induction false} HardLinesDetermined(a: Buffer, b: Buffer)
    requires ValidBuffer(a) && ValidBuffer(b) && AllHard(a) && AllHard(b) && Unkludged(a) && Unkludged(b)
    requires Doc(a) == Doc(b)
    ensures a == b
    decreases |a|
  {
    if b != [] {
      FirstReturn(b);
    }
    if a != [] {
      FirstReturn(a);
      var (x, y) := (a[0], b[0]);
      assert LineDoc(x) == Doc(a)[..|x.text| + 1] && LineDoc(y) == Doc(b)[..|y.text| + 1];
      assert forall i :: 0 <= i < |x.text| ==> LineDoc(x)[i] == Ch(x.text[i], x.attr[i]);
      assert forall i :: 0 <= i < |y.text| ==> LineDoc(y)[i] == Ch(y.text[i], y.attr[i]);
      assert x.text == y.text && x.attr == y.attr;
      assert Doc(a)[|x.text| + 1..] == Doc(a[1..]) && Doc(b)[|y.text| + 1..] == Doc(b[1..]);
      HardLinesDetermined(a[1..], b[1..]);
      assert a == [x] + a[1..] && b == [y] + b[1..];
    }
  }

  /** The first hard return of the document is at the end of its first line. */
  lemma {:induction false} FirstReturn(lines: Buffer)
    requires ValidBuffer(lines) && lines != [] && lines[0].hardcr
    ensures |Doc(lines)| > |lines[0].text| && Doc(lines)[|lines[0].text|] == Hard
    ensures forall i :: 0 <= i < |lines[0].text| ==> Doc(lines)[i].Ch?
  {
  }

  /**
   The round trip on the editor's lines: hard lines whose characters can be encoded and fit the screen, none
   ending with a blank, are saved and loaded unchanged exactly when they hold no bad transition.
   */
  lemma SaveLoadExact(lines: Buffer, nl: Buffer, width: nat)
    requires ValidBuffer(lines) && AllHard(lines) && Unkludged(lines) && lines != []
    requires Encodable(Doc(lines)) && FitsWidth(Doc(lines), width) && Tidy(Doc(lines))
    requires LoadedFrom(nl, Encode(Doc(lines)).str, width)
    ensures nl == lines <==> NoBadTransition(Doc(lines))
  {
    hide Encode, Decode, FitsWidth, Encodable, Tidy, NoBadTransition;
    RoundTripExact(Doc(lines), width);
    if NoBadTransition(Doc(lines)) {
      SavedEndsLine(lines, width);
      HardLinesDetermined(nl, lines);
    }
  }

  /** What is saved ends with a line end that is not part of a code. */
  lemma SavedEndsLine(lines: Buffer, width: nat)
    requires ValidBuffer(lines) && AllHard(lines) && lines != []
    requires Encodable(Doc(lines)) && FitsWidth(Doc(lines), width) && NoBadTransition(Doc(lines))
    ensures var str := Encode(Doc(lines)).str;
            str != "" && Last(str) == '\n' && !Decode(Front(str), width).escape
  {
    hide Decode, FitsWidth, Encodable, NoBadTransition, TrimTail, BlankRun;
    var doc := Doc(lines);
    LastLineHard(lines);
    FrontFits(doc, width);
    FrontGood(doc);
    SavedIsRead(Front(doc), width);
    var t := TrimTail(Encode(Front(doc)).str);
    assert Encode(doc).str == t + "\r\n";
    assert Front(t + "\r\n") == t + "\r";
    DecodeSnoc(t, '\r', width);
  }

  lemma FrontGood(items: seq<Item>)
    requires items != [] && NoBadTransition(items)
    ensures NoBadTransition(Front(items))
  {
  }

  lemma {:induction false} LastLineHard(lines: Buffer)
    requires ValidBuffer(lines) && lines != [] && AllHard(lines)
    ensures Doc(lines) != [] && Last(Doc(lines)) == Hard
  {
    if |lines| == 1 {
      assert lines[1..] == [];
    } else {
      LastLineHard(lines[1..]);
    }
  }
}
