# Typing practice core, in Dafny

This project models the core of a Japanese typing-practice application.
The application reads practice content from a small markup. The first line
may carry a `#title`. Each later non-blank line is a sequence of segments:
plain text, or `(base/reading)` annotations that show `base` and ask for
`reading` to be typed, with `\` making the next character literal. The
application then moves between four screens (menu, typing, pause, result)
as messages arrive.

Modelled here:

- the markup parser (`parse_problem`, `parse_line`, `parse_annotated`), as
  methods with the same loops, each proved equal to a specification function;
- the screen state machine (`update`, `new_model`) and the model and message
  types it works on;
- `key_input`, which picks the text to type for the segment under the cursor;
- the three code-point classifiers `is_japanese`, `is_japanese_kana` and
  `is_japanese_hiragana`.

Files:

- `parser.dfy` is module `Parser`.
- `model.dfy` is module `AppModel`.
- `msg.dfy` is module `AppMsg`.
- `update.dfy` is module `Update`.
- `typing.dfy` is module `Typing`.
- `textrender.dfy` is module `TextRender`.

## Parser specification

`ParseLine` and `ParseAnnotated` work through a line with a position in a
loop, and `ParseProblem` works through the lines with an index. Each method
is proved equal to a function that reads from a position or an index and
appends to an accumulator:

- `Scan` reads one field. A field is a plain run, an annotation base or an
  annotation reading.
- `Annot` reads one annotation.
- `SegsFrom` reads the rest of a line.
- `ParsedFrom` reads the remaining lines.

The functions' properties are stated against a markup writer (`Escaped`,
`SegmentMarkup`, `Markup`), and the round-trip lemma `MarkupRoundTrip`
connects the two. The writer escapes the characters that would end a field.
It writes a segment list one segment at a time, which is possible when
every plain text is non-empty and does not start with `(` or `\`, and no two
plain texts are adjacent (`Expressible`).

## Behaviour of the code worth noting

- The title is empty unless the first line starts with `#title`. Otherwise
  it is that line with every leading `#title` removed, then trimmed.
- Lines are split as current Rust's `str::lines` splits them. A `\r` is
  removed only when a `\n` follows it, so a bare `\r` at the very end of the
  input stays in the last line. Older Rust releases also removed that final
  `\r`; the model does not.
- `/` and `)` outside an annotation are ordinary text.
- `(b)` gives `Annotated(b, "")`.
- A `\` that starts a segment at the end of a line gives `Plain("")`, so a
  plain segment can be empty.
- `parse_annotated` does not look at the character at its start position.
  From a position past the end it gives `Annotated("", "")` and that
  position plus one.
- The model, message and update sources disagree on some record layouts.
  The model follows the field use in `src/rust/update.rs`:
  - the menu lists strings;
  - a paused session holds the content, the input and the start time;
  - a result holds those three and an end time.
- `key_input` reads a cursor (`status`) that the declared typing record
  lacks. The model adds the cursor type declared in `src/rust/model.rs` to
  the typing record, with two consequences:
  - choosing a content starts the cursor at line 0, segment 0, character 0;
  - resuming from a pause starts it there again, because the paused record
    has no cursor.

## Model

| member | source | states |
|---|---|---|
| Parser.ParseProblem | src/rust/parser.rs:24-45 | returns `Problem(input)`: the title from the first line, then one parsed line per later non-blank line |
| Parser.ParseLine | src/rust/parser.rs:47-88 | returns `Segs(line)`, the segments `SegsFrom` reads from position 0 |
| Parser.ParseAnnotated | src/rust/parser.rs:90-134 | returns `Annot(chars, start)`, with the new position strictly after `start`, and at most the line length when `start` is within the line |
| Parser.Scan | src/rust/parser.rs:70-81 | a field read from `pos` stops within the line, and moves past `pos` unless the character at `pos` ends the field |
| Parser.Annot | src/rust/parser.rs:90-134 | an annotation ends strictly after its start, and within the line when it starts there; from past the end it is `Annotated("", "")` ending one further on; it is always an `Annotated` segment |
| Parser.Trim | src/rust/parser.rs:30 | the result is a slice of the input with only whitespace before and after it, and has no whitespace at either end |
| Parser.TrimStart | src/rust/parser.rs:30 | exactly the leading whitespace is removed |
| Parser.TrimEnd | src/rust/parser.rs:30 | exactly the trailing whitespace is removed |
| Parser.TrimStartMatches | src/rust/parser.rs:30 | the result is a suffix that no longer starts with the prefix, and what was removed is zero or more copies of the prefix, at least one when the input starts with it |
| Parser.TitleOf | src/rust/parser.rs:28-33 | the title is empty unless the first line starts with `#title`; it has no surrounding whitespace |
| Parser.TitleAfterTag | src/rust/parser.rs:29-30 | `#title` followed by text that is not itself a tag gives that text, trimmed |
| Parser.TitleTagRepeated | src/rust/parser.rs:30 | every leading `#title` is stripped, not only the first |
| Parser.Lines | src/rust/parser.rs:26 | no line contains a line break; there are no lines exactly when the input is empty; a non-empty text without `\n` is one line, itself |
| Parser.IsWhitespace | src/rust/parser.rs:30 | the Unicode White_Space characters that `trim` removes |
| Parser.LinesAfterBreak | src/rust/parser.rs:26 | the text before the first `\n`, less a final `\r`, is the first line, and the lines of the rest follow |
| Parser.StripCR | src/rust/parser.rs:26 | removes one trailing `\r` and nothing else |
| Parser.TrimEmptyIffBlank | src/rust/parser.rs:38 | a line trims to nothing exactly when every character is whitespace |
| Parser.FirstLineIsConsumed | src/rust/parser.rs:26-37 | the first line only gives the title, whether or not it is a title line; the lines come from the text after it |
| Parser.SingleLine | src/rust/parser.rs:26-44 | a one-line text has no lines |
| Parser.ParsedLinesCons | src/rust/parser.rs:37-43 | a blank line adds nothing, and any other line adds exactly one parsed line, in input order |
| Parser.ParsedLinesNonEmpty | src/rust/parser.rs:37-43 | every parsed line has at least one segment |
| Parser.SegsNonEmpty | src/rust/parser.rs:51-86 | a non-empty line has at least one segment |
| Parser.PlainLine | src/rust/parser.rs:66-84 | a line without `(` or `\` is exactly one plain segment, `/` and `)` included |
| Parser.PlainRunNonEmpty | src/rust/parser.rs:66-84 | a plain run never yields an empty text |
| Parser.EscapeStartsSegment | src/rust/parser.rs:52-60 | a `\` at the start of a segment makes the next character a one-character plain segment of its own |
| Parser.TrailingBackslash | src/rust/parser.rs:52-60 | a `\` starting a segment at the end of a line gives a final `Plain("")` |
| Parser.EmptyPlainOnlyAtEnd | src/rust/parser.rs:51-86 | an empty plain segment appears only last, and only when the line ends with `\` |
| Parser.AnnotMarkup | src/rust/parser.rs:90-134 | `(b/r)`, with `b` and `r` escaped, reads as `Annotated(b, r)`, and scanning resumes just after `)` |
| Parser.AnnotationThenRest | src/rust/parser.rs:61-65 | an annotation at the start of a line is its first segment; the rest of the line gives the other segments |
| Parser.AnnotWithoutSlash | src/rust/parser.rs:104-106 | `(b)` reads as `Annotated(b, "")` |
| Parser.AnnotUnclosed | src/rust/parser.rs:112-132 | an unclosed `(b/r` takes the rest of the line as base and reading |
| Parser.AnnotUnclosedWithoutSlash | src/rust/parser.rs:95-110 | an unclosed `(b` takes the rest of the line as base, with an empty reading |
| Parser.ScanEscaped | src/rust/parser.rs:95-128 | a field reads back exactly the text escaped for it, and stops right after it |
| Parser.EscapedVerbatim | src/rust/parser.rs:70-81 | text with nothing to escape is written unchanged |
| Parser.SegmentStep | src/rust/parser.rs:51-86 | one segment's markup is read back as that segment, and reading continues after it |
| Parser.SegsMarkupThen | src/rust/parser.rs:51-86 | the markup of expressible segments, followed by more text, reads back as those segments, then the segments of that text |
| Parser.MarkupRoundTrip | src/rust/parser.rs:47-88 | parsing the markup of expressible segments gives them back |
| Parser.ScanShift | src/rust/parser.rs:70-81 | text before a line does not change how a field reads |
| Parser.AnnotShift | src/rust/parser.rs:90-134 | text before a line does not change how an annotation reads |
| Parser.SegsShift | src/rust/parser.rs:51-86 | text before a line does not change its segments |
| Parser.SegsResume | src/rust/parser.rs:51-65 | the segments after a position are those of the rest of the line, read on its own |
| Update.NewModel | src/rust/update.rs:110-118 | the menu offering `"Sample text"`; `NewModelConsistent` and `BackToMenuIsNewModel` are about it |
| Update.Update | src/rust/update.rs:17-100 | a message for another screen changes nothing; a resulting menu is the unchanged model or `new_model`'s model; a session keeps its content; only `StartTyping` changes the start time, to the current time |
| Update.SelectContentOpensSession | src/rust/update.rs:19-30 | choosing a content opens a typing session on it, with empty input and no start time |
| Update.StartTypingStamps | src/rust/update.rs:34-38 | starting sets the start time to now and clears the input; content and cursor stay |
| Update.UpdateInputReplaces | src/rust/update.rs:39-42 | new input replaces the old and changes nothing else |
| Update.PauseThenResume | src/rust/update.rs:43-78 | pausing then resuming gives back the content, the input and the start time |
| Update.FinishStampsEnd | src/rust/update.rs:51-59 | finishing keeps content, input and start time, and sets the end time to now |
| Update.BackToMenuIsNewModel | src/rust/update.rs:60-96 | cancelling from typing or pause, and going back from a result, all give `new_model`'s model |
| Update.NewModelConsistent | src/rust/update.rs:110-118 | the initial model is consistent |
| Update.UpdateKeepsConsistent | src/rust/update.rs:17-100 | one message keeps the model consistent when the clock does not go back |
| Update.RunKeepsConsistent | src/rust/update.rs:17-100 | any chronological sequence of messages keeps the model consistent |
| Update.ResultsAreOrdered | src/rust/update.rs:51-59 | every result reached from `new_model` by messages whose clock values never decrease has an end time, no earlier than its start time |
| Typing.TargetText | src/rust/typing.rs:10-13 | the text to type for a segment: a plain segment's text, an annotation's reading |
| Typing.KeyInput | src/rust/typing.rs:8-18 | needs the cursor's line and segment to exist; returns the session unchanged |
| Typing.AnnotationTargetIsReading | src/rust/typing.rs:12 | the text to type for an annotation is its reading, whatever its base |
| Typing.PlainTargetIsText | src/rust/typing.rs:11 | the text to type for a plain segment is its text |
| Typing.SelectedProblemIsTypable | src/rust/typing.rs:10 | choosing parsed content with at least one line gives a cursor `key_input` can index with |
| TextRender.IsJapanese | src/rust/textrender.rs:42-47 | hiragana U+3040..U+309F, katakana U+30A0..U+30FF or a CJK unified ideograph U+4E00..U+9FFF |
| TextRender.IsJapaneseKana | src/rust/textrender.rs:49-53 | hiragana or katakana |
| TextRender.IsJapaneseHiragana | src/rust/textrender.rs:55-58 | hiragana, U+3040..U+309F |
| TextRender.ClassesNest | src/rust/textrender.rs:42-58 | hiragana is kana, and kana is Japanese |
| TextRender.KanaIsOneRange | src/rust/textrender.rs:49-53 | kana is exactly U+3040..U+30FF |
| TextRender.KatakanaIsNotHiragana | src/rust/textrender.rs:52-58 | U+30A0..U+30FF is kana but not hiragana |
| TextRender.IdeographsAreNotKana | src/rust/textrender.rs:46-53 | U+4E00..U+9FFF is Japanese but not kana |
| TextRender.JapaneseIsKanaOrIdeograph | src/rust/textrender.rs:42-47 | Japanese means kana or an ideograph; nothing below U+3040, above U+9FFF or in U+3100..U+4DFF is Japanese |

## Left out

- Serialisation: the conversion of models and messages to and from
  JavaScript values (src/rust/update.rs:13-14, 103) is left out, with its
  error results. Only the transition itself is modelled.
- The clock: `Date::now()` becomes the `now` parameter of `Update.Update`,
  as milliseconds in a `real`. Floating-point rounding is not modelled.
  The invariant lemmas (`Update.UpdateKeepsConsistent`,
  `Update.RunKeepsConsistent`, `Update.ResultsAreOrdered`) assume that the
  clock never goes back. `Date::now()` reads the wall clock and does not
  guarantee this, so the code itself does not promise that a session ends
  no earlier than it started.
- `TypingMsg::Tick` (src/rust/msg.rs:21) has no case in `update`, so the
  message type here omits it rather than give it a behaviour.
- Typing.KeyInput: the two log calls (src/rust/typing.rs:9, 14) are left
  out. The key pressed has no other effect.
- Typing.KeyInput: the cursor fields are 32-bit. A negative field would be
  cast to a huge index and fail; `ValidCursor` requires the line and segment
  fields to be non-negative and in range, which rules that out. The
  character index is not used for indexing and is left unconstrained.
- Parser.TitleOf: states the shape of the title, not that it is a substring
  of the first line.
- The GUI, rendering, file loading, JavaScript bridges and timestamps are
  not part of this model. They are I/O and floating-point layout.
- The layout table, keystroke matching, correctness tracking, sessions and
  metrics are not part of this model. They do not exist in the code yet.
