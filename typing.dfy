/** Keystroke handling: for now it only finds the text that must be typed for
    the segment under the cursor, and returns the session unchanged. */
module Typing {
  import Parser
  import M = AppModel
  import G = AppMsg
  import Update

  /** The text the typist must enter for a segment: a plain text as written,
      an annotation's reading (the base is shown, not typed). */
  function TargetText(seg: Parser.Segment): string {
    match seg
    case Plain(text) => text
    case Annotated(_, reading) => reading
  }

  /** The cursor's line and segment exist, so indexing by them does not fail. */
  predicate ValidCursor(t: M.TypingModel) {
    0 <= t.status.line as int < |t.content.lines| &&
    0 <= t.status.segment as int < |t.content.lines[t.status.line as int].segments|
  }

  /** The target text of the segment under the cursor. */
  function Remaining(t: M.TypingModel): string
    requires ValidCursor(t)
  {
    TargetText(t.content.lines[t.status.line as int].segments[t.status.segment as int])
  }

  /** `key_input`: looks up the text left to type and returns the session
      as it was; the key only goes to the log. */
  function KeyInput(t: M.TypingModel, input: string): (r: M.TypingModel)
    requires ValidCursor(t)
    ensures r == t
  {
    var remaining := Remaining(t);
    t
  }

  /** What is typed for an annotation is its reading, whatever its base. */
  lemma AnnotationTargetIsReading(base: string, reading: string)
    ensures TargetText(Parser.Annotated(base, reading)) == reading
  {
  }

  /** What is typed for a plain segment is its text. */
  lemma PlainTargetIsText(text: string)
    ensures TargetText(Parser.Plain(text)) == text
  {
  }

  /** Choosing parsed content with at least one line opens a session whose
      cursor `key_input` can use: every parsed line has a segment. */
  lemma SelectedProblemIsTypable(menu: M.MenuModel, input: string, now: real)
    requires Parser.Problem(input).lines != []
    ensures var r := Update.Update(M.Menu(menu), G.Menu(G.SelectContent(Parser.Problem(input))), now);
      r.Typing? && ValidCursor(r.typing)
  {
    var ls := Parser.Lines(input);
    Parser.ParsedLinesNonEmpty(ls[1..], 0, []);
  }
}
