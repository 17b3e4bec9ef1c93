/** The messages the screens send. Each message belongs to one screen. */
module AppMsg {
  import Parser

  datatype MenuMsg = SelectContent(content: Parser.Content)

  datatype TypingMsg =
    | StartTyping
    | UpdateInput(input: string)
    | Pause
    | Finish
    | Cancel

  datatype PauseMsg = Resume | Cancel

  datatype ResultMsg = BackToMenu

  datatype Msg =
    | Menu(menuMsg: MenuMsg)
    | Typing(typingMsg: TypingMsg)
    | Pause(pauseMsg: PauseMsg)
    | Result(resultMsg: ResultMsg)
}
