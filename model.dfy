/** The state of the typing application: one screen at a time, each with the
    data it shows. */
module AppModel {
  import Parser

  datatype Option<T> = None | Some(value: T)

  /** A 32-bit signed integer, the width of the cursor fields. */
  newtype Int32 = x: int | -0x8000_0000 <= x < 0x8000_0000

  /** Where the typist is: a line, a segment of that line and a character of
      the segment's target text. */
  datatype TypingStatus = TypingStatus(line: Int32, segment: Int32, charIndex: Int32)

  /** The cursor at the first character of the first segment of the first line. */
  const StartOfContent := TypingStatus(0, 0, 0)

  /** The menu lists the contents that can be chosen. */
  datatype MenuModel = MenuModel(availableContents: seq<string>)

  /** A typing session: the content being typed, what has been typed so far,
      when typing started (milliseconds) and the cursor. */
  datatype TypingModel = TypingModel(
    content: Parser.Content,
    userInput: string,
    startTime: Option<real>,
    status: TypingStatus)

  /** A paused session keeps the content, the input and the start time. */
  datatype PauseModel = PauseModel(content: Parser.Content, userInput: string, startTime: Option<real>)

  /** A finished session also records when it ended. */
  datatype ResultModel = ResultModel(
    content: Parser.Content,
    userInput: string,
    startTime: Option<real>,
    endTime: Option<real>)

  datatype Model =
    | Menu(menu: MenuModel)
    | Typing(typing: TypingModel)
    | Pause(pause: PauseModel)
    | Result(result: ResultModel)
}
