# Synchronet JavaScript services: a verified model

The Synchronet BBS keeps much of its server-side logic in JavaScript. Seven of those scripts hold algorithms with
real state, and this project models them in Dafny and proves what they keep, what they refine, and, where the code
falls short of what it is for, exactly when.

| area | source | modules |
|---|---|---|
| full-screen editor: line buffer, re-wrapping, cursor, viewport | `exec/fseditor.js` | `EditorLines`, `EditorWrap`, `EditorUnwrap`, `EditorRewrap`, `EditorKeys`, `EditorRun`, `EditorSession`, `EditorFaults` |
| the editor's colour codes, saving and loading | `exec/fseditor.js` | `ColourCodec` |
| IMAP service: seen sets, sequence sets, tokenizer, SEARCH | `exec/imapservice.js` | `SeenSet`, `SeqSet`, `Tokenizer`, `Search` |
| BinkleyTerm-style mailer: flow files, order of callouts | `exec/binkit.js` | `FlowFile`, `Callouts` |
| Hotline: encrypted stream and changes of key | `exec/hotline.js` | `HotlineStream`, `HotlineRuns` |
| mailing list export | `exec/listserver.js` | `ListExport` |
| multi-part attachments | `exec/binarydecoder.js` | `Parts` |
| IRC client: word wrap | `exec/irc.js` | `IrcWrap` |

Code that changes things in place is a class or a loop here too, tied by its contract to a function on values; the
laws are lemmas about those functions.

**The editor.** A buffer is a list of lines: text, one attribute per character, a hard-return flag and a flag for
words that were cut because they were too long ("kludged"). It has two abstractions. `Doc` is the flat sequence of
(character, attribute) cells and hard returns, so equality of `Doc` is equality of every paragraph; `Chars` is `Doc`
without the returns. Wrapping, unwrapping and re-wrapping keep `Chars` in every run, including the runs that end in
an exception. They keep `Doc` if and only if a branch with a fault is not reached, and the faults are named by
the guards that lead to them (`Spills`, `Crosses`, `Disturbs`). On top of that every editing key is one edit of the
flat text at the cursor, and the key loop is proved over whole runs.

**Saved colours.** The encoder and the decoder are compared for every pair of attributes by a bit-level argument and
then for every document, ending in an equivalence between a clean round trip and the absence of a bad transition.

**Runs and schedules.** Flow-file sessions, list exports, callout rounds, part-database events and the cipher stream
are each proved over arbitrary sequences of steps.

## Faults the proofs make exact

- A last line that ends hard and is too long keeps its return in the middle of its text (exec/fseditor.js:403-404):
  `WrapKeepsDocument`, input `HardReturnLeftBehind`.
- Mending a cut word may use up a next line that ended hard; what follows then belongs to another paragraph and is
  pulled in all the same (exec/fseditor.js:278-312): `UnwrapKeepsDocument`, input `BlankLineLost`. At the end of the
  buffer it is missing and the script throws: `UnwrapThrows`, input `LastLinesThrow`.
- Wrapping an empty soft line that has a successor ends the script (exec/fseditor.js:423-428): `WrapExits`, input
  `EmptyLinesExit`. `RewrapEnds` carries both endings through all stages.
- `rewrap` can leave the cursor below the buffer (exec/fseditor.js:448-477): `RewrapLosesCursor`, input
  `CursorOffTheBuffer`. It does not follow text that moved up if the cursor was further right: `RewrapMovesCursor`,
  input `CursorSlips`.
- The encoder writes a full reset for light grey (exec/fseditor.js:1043-1045): `RoundTripExact` and `SaveLoadExact`, input `WhiteAfterRed`.
- SEARCH keys HEADER, CC and BCC are built with an unclosed parenthesis and throw when compiled: `CompileAllExact`,
  input `CopiedThrows`. SENTSINCE names a variable that does not exist, and NOT passes on only its first argument, so
  that both can throw when evaluated: `EvalExact`, inputs `SentSinceThrows` and `NotTextThrows`
  (exec/imapservice.js:1852-2032). `DoSearch` says exactly which searches end in an exception.
- `derive_old_key` recovers the feedback register only for blocks of 8 bytes (exec/hotline.js:409-417): `TailsExact`.
- A blank line in a flow file hides what follows it (exec/binkit.js:239-268), so that the rest is dropped:
  `SessionExact`, input `BlankLineHides`.
- An export pointer that cannot be written repeats the run (exec/listserver.js:351-360): `OnceExact`.
- A part whose message cannot be read is taken off the record but not off the count (exec/binarydecoder.js:645-649);
  found again, it makes a whole file count as incomplete: `CountExact`, `FoundAgain`.
- The IRC word wrap breaks a first word longer than the row after one character, which splits a colour code if
  the line begins with one (exec/irc.js:1216-1251): `ShownExact`. The carried colours are brought up to date between
  printing a broken row and storing it, so the window keeps that row behind colours it only ends in
  (exec/irc.js:1230-1236): `StoredIsPrinted`. Input for both: `LongColouredWord`.

## Model

| member | source | states |
|---|---|---|
| `EditorLines.FirstCutIsGreedy` | exec/fseditor.js:377-393 | the split at a word boundary is the longest one that leaves at most n characters before its white space and something after it; none exists iff the function says so |
| `EditorLines.BreaksAtIs` | exec/fseditor.js:378-378 | the ways for the first pattern to match are the splits of a text into 1 to n characters, white space, and a rest that does not begin with any |
| `EditorLines.WordsCutIsGreedy` | exec/fseditor.js:306-313 | the words taken from the next line are the most whole words that fit in the room, with the white space after them |
| `EditorLines.WordsEndAtIs` | exec/fseditor.js:311-311 | the ways for the word pattern to match are the fronts of 1 to n characters with nothing or white space behind them |
| `EditorLines.TrimmedIs` | exec/fseditor.js:384-387 | the trimmed length is the one position with only white space after it and none just before it |
| `EditorLines.FirstCutFits` | exec/fseditor.js:377-417 | what stays on a broken line fits the screen once trailing white space is ignored |
| `EditorLines.TakenFits` | exec/fseditor.js:277-320 | appending what either unwrapping pattern takes never makes the visible text longer than the room there was |
| `EditorLines.UnkludgeCutIsGreedy` | exec/fseditor.js:277-280 | mending takes the longest front of the next line without white space that there is room for, and the white space behind it |
| `EditorWrap.WrapStepShrinks` | exec/fseditor.js:371-431 | each turn of the wrapping loop leaves strictly fewer characters to look at, so the loop ends |
| `EditorWrap.WrapStepDoc` | exec/fseditor.js:371-431 | one turn keeps every cell in order; it moves a hard return iff it breaks a hard last line |
| `EditorWrap.WrapKeepsDocument` | exec/fseditor.js:371-431 | whole runs: cells and attributes always survive in order, and the paragraphs survive iff the faulty branch is not reached |
| `EditorWrap.LastSoftNeverSpills` | exec/fseditor.js:403-404 | a buffer whose last line is soft never reaches the faulty branch |
| `EditorWrap.WrapFits` | exec/fseditor.js:371-431 | every line passed, and the one stopped on, has a trimmed length of at most the screen width |
| `EditorWrap.WrapFills` | exec/fseditor.js:371-431 | whole runs: every line passed kept the front of what stood on it then, up to the last place at a word's end in reach, and without one as many characters as fit |
| `EditorWrap.WrapTouches` | exec/fseditor.js:371-383 | wrapping leaves the buffer alone exactly when the line fits and is the last, ends hard or ends in white space |
| `EditorWrap.WrapMarks` | exec/fseditor.js:377-404 | a broken line is marked as cut within a word iff no place at a word's end was in reach or it was marked before; it keeps a hard return iff it was the last line |
| `EditorWrap.WrapLeavesAbove` | exec/fseditor.js:371-431 | lines above the starting line are not touched |
| `EditorWrap.WrapLeavesRest` | exec/fseditor.js:371-431 | lines below the stopping line are the original ones |
| `EditorWrap.WrapReturns` | exec/fseditor.js:423-428 | the loop never gives up on an empty line when no empty soft line has a successor |
| `EditorWrap.WrapExits` | exec/fseditor.js:371-431 | the loop gives up exactly when it comes to an empty soft line that has a successor |
| `EditorUnwrap.UnwrapStepDoc` | exec/fseditor.js:254-365 | one turn of unwrapping keeps every cell; unless it crosses a hard return it keeps the paragraphs, and if it crosses, a return moves strictly towards the end |
| `EditorUnwrap.UnwrapKeepsDocument` | exec/fseditor.js:254-365 | whole runs, thrown ones too: cells always survive in order; the paragraphs survive iff no turn crosses |
| `EditorUnwrap.UnkludgedNeverCrosses` | exec/fseditor.js:277-313 | without kludged lines there is neither a crossing nor an exception |
| `EditorUnwrap.UnwrapThrows` | exec/fseditor.js:277-313 | unwrapping ends in an exception exactly when it comes to a line whose mending uses up the last line and leaves room |
| `EditorUnwrap.UnwrapKeepsUnkludged` | exec/fseditor.js:254-365 | unwrapping marks no line as cut within a word |
| `EditorUnwrap.UnwrapFits` | exec/fseditor.js:254-365 | no line that received text exceeds the screen width |
| `EditorUnwrap.UnwrapUnmarks` | exec/fseditor.js:277-338 | whole runs: every line unwrapping comes to is afterwards not marked as cut within a word |
| `EditorUnwrap.RoundTakesWords` | exec/fseditor.js:306-332 | a round on an unmarked line moves up the most whole words there is room for, splices the next line out iff nothing stays on it, and is the last one iff it moved none |
| `EditorUnwrap.UnwrapLeavesAbove` | exec/fseditor.js:254-365 | lines above the starting line are not touched, whatever is spliced out below |
| `EditorRewrap.RewrapKeepsDocument` | exec/fseditor.js:448-509 | through all stages cells survive in order, and every hard return stays put iff no stage takes its faulty branch |
| `EditorRewrap.RewrapLosesCursor` | exec/fseditor.js:448-509 | for any cursor column: a returning run leaves the cursor below the buffer iff the line above takes all text from the cursor's line on, and there is none or the cursor stands beyond it |
| `EditorRewrap.WithinLineLosesCursor` | exec/fseditor.js:448-509 | from a cursor within its line that comes to: the last line, empty, below a soft line with room |
| `EditorRewrap.RewrapEnds` | exec/fseditor.js:448-509 | exactly when a run throws, exits or returns |
| `EditorRewrap.HarmlessUndisturbed` | exec/fseditor.js:448-509 | without cut words and with a soft last line no stage takes a faulty branch and none throws |
| `EditorRewrap.RewrapMovesCursor` | exec/fseditor.js:448-509 | the cursor's place in the flat text afterwards, in every returning run: where it was, plus the slip of the first stage, minus the clip of the last |
| `EditorRewrap.WrapRetFills` | exec/fseditor.js:371-431 | what wrapping reports is -1 iff there was nothing to do, and else the length of what the row could not hold |
| `EditorRewrap.CursorLineFits` | exec/fseditor.js:448-509 | in every run that returns, the line the cursor is left on fits the screen |
| `EditorRewrap.CursorFollows` | exec/fseditor.js:484-509 | when the cursor's line is broken, a cursor on what it keeps, its end included, stays, and one beyond goes down by what was kept |
| `EditorKeys.TypingInsertsOneCell` | exec/fseditor.js:1416-1444 | typing and the re-wrap after it insert (or replace) exactly one cell of the flat text, at the cursor |
| `EditorKeys.TypingRefines` | exec/fseditor.js:1416-1444 | the paragraphs change by that one item and nothing else iff the re-wrap is not disturbed |
| `EditorKeys.ErasingRefines` | exec/fseditor.js:1464-1502 | erasing removes exactly the addressed cell; paragraphs as above |
| `EditorKeys.JoiningRefines` | exec/fseditor.js:1464-1502 | deleting at the end of a line removes its hard return and no cell; paragraphs as above |
| `EditorKeys.EnterRefines` | exec/fseditor.js:1735-1756 | a carriage return adds one hard return at the cursor and no cell; paragraphs as above |
| `EditorRun.PressValid` | exec/fseditor.js:1531-1934 | after any key the buffer is well formed and the cursor on it or just below it; a movement key leaves the buffer alone and the cursor on one of its lines |
| `EditorRun.PressExplained` | exec/fseditor.js:1416-1934 | any key, in any run: the flat text gains, loses or has replaced exactly the one cell at the cursor that the key is for, or stays as it is |
| `EditorRun.PressKeepsParagraphs` | exec/fseditor.js:1416-1934 | on a buffer without cut words whose last line is soft, any key changes the paragraphs by exactly its one cell or hard return, at the cursor, and does not throw |
| `EditorRun.PlayExplained` | exec/fseditor.js:1525-1934 | over any run of keys, however it ends, every key taken did exactly that, where the cursor then was; all are taken unless the script stops or the cursor falls off the buffer |
| `EditorRun.PlayMoves` | exec/fseditor.js:1618-1918 | runs of movement keys take every key, leave the buffer as it is and the cursor on one of its lines throughout |
| `EditorRun.ColumnKeysAre` | exec/fseditor.js:1618-1918 | where Home, End, Left and Right leave the cursor, at the ends of a line and beyond them, and that they forget the remembered column |
| `EditorRun.UpwardsIs` | exec/fseditor.js:1757-1918 | Up and PageUp go up one line or a page less one, stop at the first line, remember the column and come back to it as far as the line allows |
| `EditorRun.DownwardsIs` | exec/fseditor.js:1679-1794 | Down and PageDown likewise, to the last line |
| `EditorRun.LeftTakesBackRight` | exec/fseditor.js:1618-1918 | Left undoes Right within a line |
| `EditorRun.DownTakesBackUp` | exec/fseditor.js:185-223 | Down undoes Up, column included, however short the line between |
| `EditorRun.PageTakesBackPage` | exec/fseditor.js:1757-1794 | a page is a line less than the screen, and a page up undoes a page down that did not meet the end |
| `EditorSession.Editor.constructor` | exec/fseditor.js:12-24 | an editor starts with one empty line, a visible cursor and insert mode |
| `EditorSession.Editor.Scroll` | exec/fseditor.js:135-146 | the top line moves by the count, held between zero and the last full page |
| `EditorSession.Editor.AddNewLineBelow` | exec/fseditor.js:151-163 | one empty line is inserted, the others keep their order |
| `EditorSession.Editor.NextLine` | exec/fseditor.js:167-183 | the cursor goes down one line, a new one if it was on the last, and stays on screen |
| `EditorSession.Editor.TryPrevLine` | exec/fseditor.js:185-205 | the cursor goes up iff there is a line above, keeps its remembered column as far as the line allows, and stays on screen |
| `EditorSession.Editor.TryNextLine` | exec/fseditor.js:207-223 | the same downwards |
| `EditorSession.Editor.PageUpKey` | exec/fseditor.js:1757-1774 | the cursor goes up a page or to the first line and stays on screen |
| `EditorSession.Editor.PageDownKey` | exec/fseditor.js:1776-1794 | the cursor goes down a page or to the last line and stays on screen |
| `EditorSession.Editor.MendLine` | exec/fseditor.js:277-305 | the in-place mending of a cut word is the step its laws are about |
| `EditorSession.Editor.FillLine` | exec/fseditor.js:306-350 | the in-place taking of words from the next line, spliced out when emptied, is the step its laws are about |
| `EditorSession.Editor.UnwrapLine` | exec/fseditor.js:254-365 | the in-place loop computes the run whose laws are proved, its result and its exceptions included |
| `EditorSession.Editor.BreakInPlace` | exec/fseditor.js:402-422 | breaking a line in place, pushing or inserting one when needed, is the step its laws are about |
| `EditorSession.Editor.WrapLine` | exec/fseditor.js:371-431 | the in-place loop computes the run whose laws are proved, its result and exit included |
| `EditorSession.Editor.RewrapHere` | exec/fseditor.js:484-509 | the later stages on the cursor's line; the cursor stays on screen and on the buffer |
| `EditorSession.Editor.Rewrap` | exec/fseditor.js:448-509 | all stages in place; whatever happens the viewport holds the cursor |
| `EditorSession.Editor.AddChar` | exec/fseditor.js:1416-1444 | one cell goes into the flat text at the cursor; the buffer is the re-wrapped one |
| `EditorSession.Editor.HandleBackspace` | exec/fseditor.js:1465-1484 | the cell left of the cursor leaves the flat text, or nothing does |
| `EditorSession.Editor.HandleDelete` | exec/fseditor.js:1486-1503 | the cell at the cursor leaves the flat text, or nothing does |
| `EditorSession.Editor.CarriageReturn` | exec/fseditor.js:1735-1756 | the flat text stays as it is, in either mode |
| `EditorSession.Editor.MoveKey` | exec/fseditor.js:1618-1918 | a movement key in place: the cursor goes where the specified session says and stays on screen |
| `EditorSession.Editor.HandleKey` | exec/fseditor.js:1531-1934 | any modelled key in place: buffer, cursor and outcome are those of the specified key, and the viewport holds the cursor |
| `EditorSession.Editor.Edit` | exec/fseditor.js:1525-1934 | the key loop in place is the run the laws are about, keys taken and outcome included, and the viewport holds the cursor throughout |
| `EditorFaults.HardReturnLeftBehind` | exec/fseditor.js:403-404 | a concrete buffer whose paragraphs wrapping changes |
| `EditorFaults.BlankLineLost` | exec/fseditor.js:278-312 | a concrete buffer in which unwrapping swallows a blank line |
| `EditorFaults.LastLinesThrow` | exec/fseditor.js:278-312 | a concrete buffer on which unwrapping throws |
| `EditorFaults.CursorOffTheBuffer` | exec/fseditor.js:448-477 | a concrete buffer on which the cursor ends below the last line |
| `EditorFaults.CursorSlips` | exec/fseditor.js:473-477 | a concrete buffer on which the cursor slips two characters to the right |
| `EditorFaults.EmptyLinesExit` | exec/fseditor.js:423-428 | a concrete buffer on which `rewrap` ends in exit() |
| `EditorFaults.LastLinesEndRewrap` | exec/fseditor.js:278-313 | a concrete buffer on which `rewrap` ends in an exception |
| `ColourCodec.TransitionExact` | exec/fseditor.js:1005-1083 | for all 65536 pairs of attributes: the decoder ends on the encoder's attribute iff the change is not to light grey with other bits to keep |
| `ColourCodec.CodesEnd` | exec/fseditor.js:1005-1083 | codes are written iff the attribute changes, and never end in a blank that trimming would take |
| `ColourCodec.OneCodePerField` | exec/fseditor.js:1005-1083 | for all 65536 pairs: a change of colour takes one code for each of blink, intensity, foreground and background that is not as it should be, and a reset, which comes first, iff blink or intensity goes off |
| `ColourCodec.SavedIsRead` | exec/fseditor.js:823-1099 | for every encodable document that fits the width and holds no bad transition the decoder's running attribute equals the encoder's and it reads the document back, less the blanks trimmed before hard returns |
| `ColourCodec.TidyIsKept` | exec/fseditor.js:996-1099 | nothing is trimmed from a document in which no hard return follows a blank |
| `ColourCodec.RoundTripExact` | exec/fseditor.js:823-1099 | for such documents, what is saved loads unchanged iff no change of attribute is a bad transition |
| `ColourCodec.WhiteAfterRed` | exec/fseditor.js:1043-1045 | a concrete text, bright white after red, that does not load as it was saved |
| `ColourCodec.HardLinesDetermined` | exec/fseditor.js:823-985 | a buffer of hard lines is determined by its document |
| `ColourCodec.SaveLoadExact` | exec/fseditor.js:823-1099 | line buffers saved and loaded: the same text, attributes and hard returns iff there is no bad transition |
| `ColourCodec.SavedDoc` | exec/fseditor.js:996-1004 | what is saved is the document with a hard return at its end, added only if it had none |
| `ColourCodec.SavedLines` | exec/fseditor.js:996-1099 | on demand every line is saved with a hard return, otherwise only the last one is changed; texts and colours stay |
| `ColourCodec.EncodeLine` | exec/fseditor.js:1005-1090 | the inner loop extends the encoding, and the running attribute, by one line |
| `ColourCodec.MakeStrings` | exec/fseditor.js:996-1099 | the saved string is the encoding of the whole document, and the last line is made hard in the process |
| `ColourCodec.MakeLines` | exec/fseditor.js:823-985 | the loaded buffer holds exactly the decoded document, unless a row overflows, which is reported |
| `ColourCodec.CodeColours` | exec/fseditor.js:823-985 | after any text, the characters that follow one code are loaded in the colour that code makes of the one before |
| `ColourCodec.OverflowsWhen` | exec/fseditor.js:933-970 | a row overflows exactly at a character other than a blank for which no column is left |
| `ColourCodec.ForegroundCode` | exec/fseditor.js:846-870 | K B G C R M Y W set the three foreground bits to 0 to 7 and keep the rest |
| `ColourCodec.BackgroundCode` | exec/fseditor.js:871-894 | 0 4 2 6 1 5 3 7 set the three background bits likewise |
| `ColourCodec.FlagCode` | exec/fseditor.js:844-912 | H sets high intensity, I blinking, and N gives light grey on black |
| `ColourCodec.SmallCode` | exec/fseditor.js:844-846 | the case of a code does not matter |
| `ColourCodec.NoCode` | exec/fseditor.js:844-912 | no other character changes the colour |
| `ColourCodec.CtrlALoaded` | exec/fseditor.js:844-912 | Ctrl-A twice is loaded as one character |
| `SeenSet.Binify` | exec/imapservice.js:1374-1431 | what it returns and what it leaves behind are together a compression of the marked messages |
| `SeenSet.CompressionLossless` | exec/imapservice.js:1374-1431 | each message of the set is left behind or marked by exactly one bit string, never both, and nothing else is |
| `SeenSet.CompressionCanonical` | exec/imapservice.js:1374-1431 | a set has only one compression, byte for byte, with no trailing zero byte |
| `SeenSet.LeftAreFarApart` | exec/imapservice.js:1396-1426 | left as plain marks are exactly the messages more than 32 from every other |
| `SeenSet.BitOrder` | exec/imapservice.js:1399-1426 | message base + 8i + j of a run is bit j, counted from the least, of its byte i |
| `SeenSet.RunSize` | exec/imapservice.js:1396-1426 | a run of k messages takes at most 4(k-1)+1 bytes |
| `SeenSet.RunOf` | exec/imapservice.js:1396-1426 | every message with a neighbour within 32 belongs to a run |
| `SeenSet.RunUnique` | exec/imapservice.js:1396-1426 | and to only one |
| `SeenSet.DropZeros` | exec/imapservice.js:1383-1388 | marks of zero are deleted and the others kept |
| `SeenSet.UnpackInto` | exec/imapservice.js:2304-2322 | exactly the messages with a set bit become marks |
| `SeenSet.Config.SaveSeen` | exec/imapservice.js:1444-1462 | the area's marks in memory are as they were although its object was emptied; the sections written are its compression; other areas are untouched |
| `SeenSet.Config.SaveCfg` | exec/imapservice.js:1433-1465 | the same for every area in memory at once; sections of other areas are untouched |
| `SeenSet.Config.ReadSeen` | exec/imapservice.js:2253-2322 | the marks read are the plain ones together with the unpacked ones |
| `SeenSet.SectionRead` | exec/imapservice.js:1449-1460 | what is written to a section is read from it, other sections stay, and an empty one is not kept |
| `SeenSet.SavedSeenIsRead` | exec/imapservice.js:1433-2322 | reading what was saved gives the set of seen messages that was saved |
| `SeqSet.ParseSeqSet` | exec/imapservice.js:584-630 | the result is strictly ascending and holds exactly the indexed messages some chunk denotes, whatever the text |
| `SeqSet.WrittenSetDenotes` | exec/imapservice.js:584-622 | a set printed from pairs of decimal numbers and stars selects exactly the indexed messages between some pair's ends, by unique identifier or by position in the mailbox |
| `SeqSet.NumberRead` | exec/imapservice.js:590-612 | decimal digits before anything that is not a digit are read as the number they were printed from, with either sign |
| `SeqSet.NoNumber` | exec/imapservice.js:590-612 | blanks before a number do not matter, and what starts otherwise is no number |
| `SeqSet.Expand` | exec/imapservice.js:590-621 | one chunk adds exactly the messages it denotes |
| `SeqSet.DropRepeats` | exec/imapservice.js:624-629 | the splicing loop ends and leaves each number once |
| `SeqSet.AscendingDetermined` | exec/imapservice.js:624-630 | a strictly ascending result is determined by its elements |
| `SeqSet.ChunksAsASet` | exec/imapservice.js:584-630 | order and repetition of chunks do not matter |
| `SeqSet.EndpointOrder` | exec/imapservice.js:590-612 | a range reversed is the same range, and a single number is a range |
| `Tokenizer.Reader.ParseAtom` | exec/imapservice.js:688-707 | consumes the shared line exactly up to the end of an atom |
| `Tokenizer.Reader.ParseQuotedString` | exec/imapservice.js:727-744 | consumes the shared line exactly up to the closing quote |
| `Tokenizer.Reader.ParseLine` | exec/imapservice.js:679-767 | the recursive loop over the shared line ends and is the parser of the laws |
| `Tokenizer.ParsePrint` | exec/imapservice.js:679-767 | tokenizing undoes printing on every nested list of writable arguments and consumes the whole line |
| `Tokenizer.PrintInjective` | exec/imapservice.js:679-767 | commands printed alike mean the same |
| `Tokenizer.BrokenRead` | exec/imapservice.js:679-767 | a line that breaks off inside any number of open lists: its end closes them all, a literal stops the tokenizer, and either way everything read before is returned in its place |
| `Tokenizer.UnclosedQuote` | exec/imapservice.js:727-744 | the end of the line closes an open quote |
| `Tokenizer.OneRead` | exec/imapservice.js:679-767 | one printed argument is read back whatever follows it |
| `Tokenizer.BareExact` | exec/imapservice.js:688-767 | the strings that can be written bare are exactly the non-empty ones without space or closing parenthesis that do not open a quote, a list or a literal |
| `Tokenizer.InQuotesExact` | exec/imapservice.js:727-744 | the strings that can be written in quotes are exactly those without a quote |
| `Search.EvalExact` | exec/imapservice.js:1852-2032 | what evaluating a key comes to, nested NOT and OR included: it throws iff it comes to SENTSINCE, or to a key that needs a part a NOT has kept from it; else it is what the key denotes |
| `Search.IdxOnlyEvaluates` | exec/imapservice.js:1852-2032 | keys that look at the index only never throw, however they are called |
| `Search.NotTextThrows` | exec/imapservice.js:1982-1990 | NOT TEXT compiles and throws on every message |
| `Search.CompileAllWritten` | exec/imapservice.js:1852-2045 | a command written in prefix form compiles back to the keys it was written from |
| `Search.CompileAllExact` | exec/imapservice.js:1852-2045 | compiling throws exactly on arguments that one scan from the left finds to hold a broken key, a missing operand or an operator without its keys |
| `Search.OperandKey` | exec/imapservice.js:1852-2032 | each of the sixteen keys with an operand compiles with it to one test of the part it looks at; without it only LARGER and SMALLER compile |
| `Search.PlainKey` | exec/imapservice.js:1852-2032 | every other word compiles to one test of the index without an operand |
| `Search.OperatorKey` | exec/imapservice.js:1852-2032 | HEADER, CC and BCC never compile, NOT and OR do not without keys |
| `Search.SpellingsAgree` | exec/imapservice.js:1852-1853 | the case of a key does not matter to the whole command |
| `Search.CopiedThrows` | exec/imapservice.js:1974-1977 | a search for a copied recipient cannot be compiled |
| `Search.SentSinceThrows` | exec/imapservice.js:1958-1961 | a search by sending date compiles and throws on every message that has a header |
| `Search.SafeSearch` | exec/imapservice.js:2034-2096 | with NOT over keys of one part only, and readable bodies, the search throws on no message |
| `Search.ByKind` | exec/imapservice.js:2034-2050 | after sorting the keys by part, each part's keys hold, throw or exist as those among all keys do |
| `Search.Stage` | exec/imapservice.js:2051-2090 | a stage throws iff some of its keys does, and else fails a message iff some of its keys does not hold |
| `Search.Judge` | exec/imapservice.js:2051-2090 | the staged filter throws exactly on the stated condition over the keys' denotations, header and body, and else selects a message iff it satisfies every key |
| `Search.DoSearch` | exec/imapservice.js:2034-2096 | the search throws iff its keys cannot be compiled or it throws on some message; else it reports exactly the matching messages in index order |
| `Search.SelectedConcat` | exec/imapservice.js:2051-2096 | matching messages are reported where they stand among those searched |
| `Search.SelectedOne` | exec/imapservice.js:2051-2096 | a message is reported iff every key holds of it and, if a key looks at the header or at everything, its header can be read |
| `Search.NeedsBodyIs` | exec/imapservice.js:2051-2090 | a body is fetched iff some key looks at it or at everything |
| `FlowFile.Mailer.AddFlowFile` | exec/binkit.js:239-268 | a flow file offers the names of its live lines up to the first blank line |
| `FlowFile.LineRead` | exec/binkit.js:239-268 | what a line offers and how it is rewritten, for each of the four directives, the two marks of a struck line, and a bare name |
| `FlowFile.OfferedConcat` | exec/binkit.js:239-268 | without blank lines a flow file offers line by line |
| `FlowFile.Mailer.TxCallback` | exec/binkit.js:347-360 | a sent file waits nowhere any more; a flow file nothing waits in goes, and no other file on disk changes |
| `FlowFile.Mailer.CalloutDone` | exec/binkit.js:553-597 | each flow file of the session ends gone or rewritten as the session says; no other file changes |
| `FlowFile.RunSession` | exec/binkit.js:239-597 | a whole session over all flow files, for any files sent in any order |
| `FlowFile.RewriteLines` | exec/binkit.js:553-597 | rewriting strikes exactly what no longer waits |
| `FlowFile.RewriteLive` | exec/binkit.js:553-597 | the live lines after rewriting are those that waited, as they were and in order |
| `FlowFile.WaitingIsUnsent` | exec/binkit.js:347-360 | what waits is what was not sent iff everything not sent was offered |
| `FlowFile.SessionExact` | exec/binkit.js:239-597 | a session conserves the unsent lines iff every live line was sent or offered; the file goes iff everything offered was sent |
| `FlowFile.SessionConserves` | exec/binkit.js:239-597 | without blank lines the file goes iff nothing is unsent, else it reads back as exactly the unsent lines |
| `FlowFile.SessionsConserve` | exec/binkit.js:239-597 | over any number of sessions nothing sent is offered again and nothing unsent is dropped |
| `FlowFile.BlankLineHides` | exec/binkit.js:239-268 | a concrete flow file of which a session loses an entry |
| `FlowFile.RemoveAll` | exec/binkit.js:347-360 | the splicing loop ends and removes every occurrence, keeping the rest in order |
| `Callouts.FlowOrderIsTotal` | exec/binkit.js:717-744 | the comparator is a strict total order on file names |
| `Callouts.FlavoursRank` | exec/binkit.js:717-731 | whatever else the names are, immediate comes before crash, direct, normal packets, normal lists and hold, in that order and in either case |
| `Callouts.UnknownFirst` | exec/binkit.js:717-731 | a flavour that is not in that list comes before all that are |
| `Callouts.KindsRank` | exec/binkit.js:719-737 | of one flavour, packets come before lists of files |
| `Callouts.OtherKindsFirst` | exec/binkit.js:719-737 | of one flavour, a name of neither kind comes before both |
| `Callouts.TextDecides` | exec/binkit.js:738-743 | of names with one ending, the lesser text comes first |
| `Callouts.LessIs` | exec/binkit.js:738-743 | the lesser text is the one with the lesser character at the first difference, or the front of the other |
| `Callouts.SortOrders` | exec/binkit.js:750-750 | sorting by it orders the files and keeps them all |
| `Callouts.RoundsOnce` | exec/binkit.js:746-807 | the rounds over one directory end, call only nodes not dealt with before, and none twice |
| `Callouts.LeastFirst` | exec/binkit.js:746-807 | the file called for is the least ready one in flow order: every ready file before it was asked for in the same round and refused |
| `Callouts.EarlierFlavourFirst` | exec/binkit.js:717-797 | a node is called for one flavour only when every ready file of an earlier flavour was refused its lock in that round |
| `Callouts.FlowsAre` | exec/binkit.js:769-788 | the flavours called out for, hold files and unknown ones excluded |
| `Callouts.CandidateIs` | exec/binkit.js:751-788 | a file is asked for iff its node is still to be dealt with, its path is the one that node and extension give, and its flavour is called out for |
| `Callouts.RoundsCallReady` | exec/binkit.js:746-807 | every node called had such a file in the directory, and a lock was had while it was not held; each round reads the termination flag once |
| `Callouts.LastAnswerOpens` | exec/binkit.js:790-797 | the last lock asked for before a call is the one that was had |
| `Callouts.AskedIs` | exec/binkit.js:751-797 | a scan asks for one lock per ready file it passes |
| `Callouts.NoneLeft` | exec/binkit.js:746-807 | when the rounds end by themselves, the last one was refused every file still open |
| `Callouts.PollsOnce` | exec/binkit.js:1088-1112 | polling calls no node twice, and afterwards every node to be polled is dealt with |
| `Callouts.PollsCallReady` | exec/binkit.js:1051-1112 | polling calls exactly nodes set to be polled that were not dealt with; one is passed over only when its directory's lock was refused |
| `Callouts.NobodyTwice` | exec/binkit.js:703-1112 | across all directories and then the polls no node is called twice, whatever locks, hold files and termination do |
| `Callouts.DirectoriesInTurn` | exec/binkit.js:908-910 | each directory has its rounds, after all those of the directories before it |
| `Callouts.Mailer.FindFile` | exec/binkit.js:751-797 | the scan stops at the first file that is ready and gets its lock, having asked for exactly the ready ones before it |
| `Callouts.Mailer.Round` | exec/binkit.js:746-807 | one round either ends the run or calls a node and shrinks the set of open ones |
| `Callouts.Mailer.RunOneOutboundDir` | exec/binkit.js:703-810 | the retry loop ends and is the run of the laws |
| `Callouts.Mailer.RunOutbound` | exec/binkit.js:908-910 | the directories are worked through in turn, sharing what was dealt with |
| `Callouts.Mailer.PollNode` | exec/binkit.js:1051-1086 | a poll calls the node unless its directory's lock is refused |
| `Callouts.Mailer.RunPolls` | exec/binkit.js:1088-1112 | a node counts as dealt with whether or not its poll was a call |
| `HotlineStream.FeedConcat` | exec/hotline.js:393-451 | how bytes are cut into reads changes neither the plaintext nor the state |
| `HotlineStream.FeedToBoundary` | exec/hotline.js:433-451 | a pending change of key happens exactly when the block is full, and at once then |
| `HotlineStream.FeedIsPlain` | exec/hotline.js:393-451 | before that the stream is only decrypted |
| `HotlineStream.PlainInBulk` | exec/hotline.js:393-407 | byte-by-byte decryption and the bulk update of counters and tails agree |
| `HotlineRuns.TailsKeepRegister` | exec/hotline.js:393-494 | over any run of reads and scheduled changes of key after a login, with 8-byte blocks: plaintext and state are those of a side that has no tails and keeps the feedback register itself, and at every boundary what is derived from the tails is that register |
| `HotlineRuns.OneRoundAtBoundary` | exec/hotline.js:419-494 | one round asked for at a block boundary: at once the key is the HMAC of the old key under the session key |
| `HotlineRuns.OneRoundPending` | exec/hotline.js:433-494 | inside a block the old key stays in use until the block is full, and that HMAC takes over then |
| `HotlineRuns.RoundsAdd` | exec/hotline.js:425-426 | as many rounds at once give the same key as one after the other |
| `HotlineRuns.DecryptIsOutputFeedback` | exec/hotline.js:393-431 | decryption from a fresh context is output feedback mode: the input exclusive-or'ed with the block function applied again and again to the initial vector under the current key |
| `HotlineRuns.ReadsSplit` | exec/hotline.js:433-451 | cutting any read of any such run in two changes neither the plaintext nor the state at the end |
| `HotlineRuns.TailsExact` | exec/hotline.js:409-431 | for a cipher whose blocks are all ones, one block and one change of key already tell the two sides apart iff blocks are not 8 bytes |
| `HotlineRuns.RunRefines` | exec/hotline.js:393-494 | the same from any state in which tails and register are in step, and they stay in step |
| `HotlineStream.StartInStep` | exec/hotline.js:1003-1021 | they are in step when a login succeeds |
| `HotlineStream.BlockSizeExact` | exec/hotline.js:409-417 | for that cipher and any key, they are in step after the first block iff blocks are 8 bytes |
| `HotlineStream.Stream.constructor` | exec/hotline.js:1003-1021 | the state after a successful login |
| `HotlineStream.Stream.DoDecrypt` | exec/hotline.js:393-407 | the method decrypts as the laws say |
| `HotlineStream.Stream.DropBlocks` | exec/hotline.js:401-405 | whole blocks leave both tails, which keep 8 bytes more than the open block |
| `HotlineStream.Stream.RekeyNow` | exec/hotline.js:419-431 | the key is put through the HMAC as often as asked and the context starts at the derived vector |
| `HotlineStream.Stream.ReadsockBytes` | exec/hotline.js:433-451 | a read of any size feeds exactly those bytes to the byte-wise machine; the tails keep their lengths |
| `HotlineStream.Stream.ScheduleRekey` | exec/hotline.js:485-494 | at a boundary the key changes at once, inside a block it is left pending |
| `ListExport.SentInExact` | exec/listserver.js:267-349 | a stretch up to a held message is sent exactly: each eligible number once, ascending, to everyone active |
| `ListExport.MessageRead` | exec/listserver.js:267-296 | deleted and private messages are passed over, an unvalidated moderated one holds the run up, and any other that can be read is sent |
| `ListExport.FirstRun` | exec/listserver.js:240-265 | a list without a pointer sends nothing and saves the last message's number; without subscribers or a writable file it saves none |
| `ListExport.ActiveExact` | exec/listserver.js:298-315 | exactly the enabled subscribers with an address receive, in the order of the list, by their address if they gave no name |
| `ListExport.PointerAdvances` | exec/listserver.js:258-355 | the saved pointer does not move back iff it was not beyond the last message |
| `ListExport.StopsOnlyAtHeld` | exec/listserver.js:281-286 | a run leaves off at the last message or in front of an unvalidated one |
| `ListExport.ExactlyOnce` | exec/listserver.js:230-360 | over any runs, with postings, validations, deletions and purges between them: numbers ascend, none goes out twice, and a message goes out iff it was eligible when the pointer moved past it |
| `ListExport.EveryNumberPassed` | exec/listserver.js:230-360 | the pointer moves past every number between its first and last value, so none is skipped |
| `ListExport.HeldBack` | exec/listserver.js:281-286 | over any runs in which a message stays held, nothing from it on leaves and the pointer stays before it |
| `ListExport.WaitingIsSent` | exec/listserver.js:267-349 | a run sends something iff somebody is active and an eligible message stands before the first held one |
| `ListExport.OnceExact` | exec/listserver.js:351-360 | two runs over the same base deliver nothing twice iff the first wrote its pointer or nothing waited to be sent |
| `ListExport.MailingList.Offer` | exec/listserver.js:268-348 | one message is sent, passed over or stopped at by its header, text and recipients |
| `ListExport.MailingList.Export` | exec/listserver.js:230-360 | the loop that advances and backs up its pointer, then saves it, is the run of the laws |
| `Parts.CountExact` | exec/binarydecoder.js:582-588 | by pigeonhole, while no part was lost a file counts as complete iff every part 1 to its total is recorded; after a loss a whole file never counts |
| `Parts.CountedIsWhole` | exec/binarydecoder.js:446-690 | over any run of additions, duplicates included, and combines |
| `Parts.RunInTurn` | exec/binarydecoder.js:446-690 | a run takes its events one after the other |
| `Parts.RemainsCounts` | exec/binarydecoder.js:645-649 | a failed part is the only thing in a pass that puts the count and the record apart, by one |
| `Parts.FoundAgain` | exec/binarydecoder.js:645-649 | an entry that failed on one part is whole but not complete once that part is found again |
| `Parts.WithPartCounts` | exec/binarydecoder.js:513-553 | recording a part moves count and record together; a duplicate moves neither |
| `Parts.OneEntryChanges` | exec/binarydecoder.js:481-553 | a part is recorded in one entry, the first for its file or a new one behind the others, and a part recorded before keeps its message; no other entry changes |
| `Parts.NotPlaced` | exec/binarydecoder.js:451-479 | a part without usable numbers changes nothing |
| `Parts.Lookup` | exec/binarydecoder.js:481-493 | the first entry that is the same file, by name, codec, total, and size and CRC if given |
| `Parts.SharedEntry` | exec/binarydecoder.js:481-493 | parts that differ in name, codec, total, or a given size or CRC never share an entry, and an equal one is found |
| `Parts.Database.AddPart` | exec/binarydecoder.js:446-556 | the entry objects and their order are those of the specified database, and no entry is shared |
| `Parts.Database.Resolve` | exec/binarydecoder.js:451-479 | part and total come from the text or else the subject, and lie within each other's bounds |
| `Parts.TextBeforeSubject` | exec/binarydecoder.js:451-479 | the part's own number and total count where they make sense, else those of the subject, else the part is refused |
| `Parts.Entry.Combine` | exec/binarydecoder.js:586-676 | an entry completes iff it counts as complete, all parts can be had, and size and CRC agree; the first part that fails is forgotten |
| `Parts.AllPartsHad` | exec/binarydecoder.js:586-676 | a file completes iff it counts as complete, the scratch file opens, each part 1 to the total can be had and size and CRC agree; else the first missing part is forgotten, and nothing else |
| `Parts.Database.CombineParts` | exec/binarydecoder.js:582-690 | the scan that splices the list it walks looks at each original entry exactly once and keeps, in order, exactly those not completed |
| `IrcWrap.TextKept` | exec/irc.js:1216-1251 | the printed pieces joined together are the line |
| `IrcWrap.LinesFit` | exec/irc.js:1216-1251 | no piece shows more than 79 cells, and none after the first more than 78 |
| `IrcWrap.ShownExact` | exec/irc.js:1216-1251 | what the reader sees is the text of the line, iff a leading colour code was not torn apart |
| `IrcWrap.CutIsGreedy` | exec/irc.js:1228-1242 | a break comes after the last space in reach; without one the row is filled, but on the first row one character is printed |
| `IrcWrap.BrokenRowIsFull` | exec/irc.js:1216-1242 | a row is broken exactly when more than 78 cells, on later rows 77, are to be shown |
| `IrcWrap.LinesCarry` | exec/irc.js:1216-1251 | printed or stored, each row shows its piece of the line behind colours that show nothing |
| `IrcWrap.StoredIsPrinted` | exec/irc.js:1230-1236 | the rows put into the window are those printed iff no broken row has a colour code before the cell that overflows it |
| `IrcWrap.LongColouredWord` | exec/irc.js:1216-1251 | a concrete line whose colour code is torn apart and that is not stored as it is printed |
| `IrcWrap.WindowIsTail` | exec/irc.js:1235-1249 | the window always holds the last rows put into it |
| `IrcWrap.Screen.PrintLine` | exec/irc.js:1209-1251 | the loop that sets its index back ends; the console gets each piece behind the colours in force before it, the window a broken one behind those in force after it, and scrolls by those |

## Left out

- Editor display: drawing, cursor addressing, colour boxes, quote mode and its `firstchar` and `selected` fields, file upload. Drawing changes no modelled state.
- Editor keys other than characters, Return, Backspace, Delete and the movement keys (tab, line deletion, colour changes, centring, saving) are not modelled; `curattr` and insert mode are fixed over a run of keys.
- Line objects are values here: the source never shares one between two places of the buffer, so aliasing is not captured.
- The editor assumes a screen of at least two columns, an edit area whose scroll step is between 1 and its height, and text without CR and LF, which the key loop filters.
- EditorSession.Editor.Edit: stops when the cursor has fallen off the buffer, because the source then dereferences a missing line on the next key.
- ColourCodec.MakeLines: guessing soft returns, wrapping of rows that overflow and expansion of TAB are not modelled; an overflow is reported.
- ColourCodec.MakeStrings: saving without colour codes is not modelled.
- Regular expressions are modelled by the split they perform; white space is space, tab, line feed, carriage return, form feed, vertical tab and no-break space.
- SeenSet: base64 is an exact inverse pair and left out; INI files are maps; file locking and the other saved settings are not modelled.
- Tokenizer.Reader.ParseLine: stops at a `{`, because literals read on from the socket.
- Search: what one key tests is a parameter; a sequence set as first argument only changes the offsets searched, which are a parameter too; parenthesised keys and the choice between numbers and unique identifiers in the report are not modelled.
- FlowFile: opening a file always succeeds; deleting or truncating sent files by directive, `.req` files and lock files are not modelled.
- Callouts: outbox callouts, passwords, statistics and the way lock files age are not modelled; address parsing, file naming and the answers of locks and hold files are parameters that may change from one question to the next. Node names of the configuration are taken to parse.
- HotlineStream: the block function and the HMAC are parameters, `recv` returns as many bytes as asked for, and the sending half is not modelled.
- ListExport: lists that are disabled or whose base cannot be opened are skipped before the modelled part; runs stopped by `js.terminated` are not modelled, nor are the headers added to mail; a message that the mail base refuses counts as sent, as in the source.
- Parts: part numbers are integers; parsing a subject, time stamps, stored line numbers, MD5 and CRC histories and renaming are not modelled. Reading messages and decoding are parameters of an attempt.
- IrcWrap: translation of mIRC codes before the loop is not modelled. The colours carried over are all codes the scan passes, those it passes again included; what they look like on a terminal is not modelled.
