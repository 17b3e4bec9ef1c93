/** The screen state machine: `update` takes the current model and a message
    to the next model, and `new_model` gives the first one. The clock value
    `update` reads with `Date::now()` when typing starts or finishes is the
    parameter `now`. */
module Update {
  import Parser
  import M = AppModel
  import G = AppMsg

  /** What the menu offers, in the initial model and after every return to it. */
  const SampleContents: seq<string> := ["Sample text"]

  /** `new_model`: the menu with the sample contents. */
  function NewModel(): M.Model {
    M.Menu(M.MenuModel(SampleContents))
  }

  /** The message is addressed to the screen the model is on. */
  predicate ForScreen(model: M.Model, msg: G.Msg) {
    (model.Menu? && msg.Menu?) || (model.Typing? && msg.Typing?) ||
    (model.Pause? && msg.Pause?) || (model.Result? && msg.Result?)
  }

  /** The content of the session a screen other than the menu belongs to. */
  function ContentOf(model: M.Model): Parser.Content
    requires !model.Menu?
  {
    match model
    case Typing(t) => t.content
    case Pause(p) => p.content
    case Result(r) => r.content
  }

  /** When the session a screen belongs to started typing; the menu has none. */
  function StartTimeOf(model: M.Model): M.Option<real> {
    match model
    case Menu(_) => M.None
    case Typing(t) => t.startTime
    case Pause(p) => p.startTime
    case Result(r) => r.startTime
  }

  /** `update`. A message for another screen leaves the model as it is; the
      menu is only ever left unchanged or reset to `NewModel()`; within a
      session the content never changes, and the start time changes only
      when typing starts, to the current time. */
  function Update(model: M.Model, msg: G.Msg, now: real): (r: M.Model)
    ensures !ForScreen(model, msg) ==> r == model
    ensures r.Menu? ==> r == model || r == NewModel()
    ensures !model.Menu? && !r.Menu? ==> ContentOf(r) == ContentOf(model)
    ensures !model.Menu? && !r.Menu? && StartTimeOf(r) != StartTimeOf(model) ==>
      msg == G.Typing(G.StartTyping) && StartTimeOf(r) == M.Some(now)
  {
    if !ForScreen(model, msg) then model
    else
      match model
      case Menu(_) =>
        (match msg.menuMsg
         case SelectContent(c) => M.Typing(M.TypingModel(c, "", M.None, M.StartOfContent)))
      case Typing(t) =>
        (match msg.typingMsg
         case StartTyping => M.Typing(t.(startTime := M.Some(now), userInput := ""))
         case UpdateInput(input) => M.Typing(t.(userInput := input))
         case Pause => M.Pause(M.PauseModel(t.content, t.userInput, t.startTime))
         case Finish => M.Result(M.ResultModel(t.content, t.userInput, t.startTime, M.Some(now)))
         case Cancel => NewModel())
      case Pause(p) =>
        (match msg.pauseMsg
         case Resume => M.Typing(M.TypingModel(p.content, p.userInput, p.startTime, M.StartOfContent))
         case Cancel => NewModel())
      case Result(_) =>
        (match msg.resultMsg
         case BackToMenu => NewModel())
  }

  // ---------------------------------------------------------------------
  // One message at a time
  // ---------------------------------------------------------------------

  /** Choosing a content opens a typing session on it with nothing typed and
      no start time. */
  lemma SelectContentOpensSession(menu: M.MenuModel, c: Parser.Content, now: real)
    ensures var r := Update(M.Menu(menu), G.Menu(G.SelectContent(c)), now);
      r.Typing? && r.typing.content == c && r.typing.userInput == "" && r.typing.startTime == M.None
  {
  }

  /** Starting to type stamps the current time and clears the input; the
      content and the cursor stay. */
  lemma StartTypingStamps(t: M.TypingModel, now: real)
    ensures Update(M.Typing(t), G.Typing(G.StartTyping), now)
         == M.Typing(M.TypingModel(t.content, "", M.Some(now), t.status))
  {
  }

  /** New input replaces the old and changes nothing else. */
  lemma UpdateInputReplaces(t: M.TypingModel, input: string, now: real)
    ensures Update(M.Typing(t), G.Typing(G.UpdateInput(input)), now)
         == M.Typing(M.TypingModel(t.content, input, t.startTime, t.status))
  {
  }

  /** Pausing and resuming gives back the content, the input and the start
      time; the cursor goes back to the start of the content. */
  lemma PauseThenResume(t: M.TypingModel, now1: real, now2: real)
    ensures var paused := Update(M.Typing(t), G.Typing(G.TypingMsg.Pause), now1);
      paused.Pause? &&
      Update(paused, G.Msg.Pause(G.Resume), now2)
        == M.Typing(M.TypingModel(t.content, t.userInput, t.startTime, M.StartOfContent))
  {
  }

  /** Finishing keeps the content, the input and the start time, and stamps
      the end time. */
  lemma FinishStampsEnd(t: M.TypingModel, now: real)
    ensures Update(M.Typing(t), G.Typing(G.Finish), now)
         == M.Result(M.ResultModel(t.content, t.userInput, t.startTime, M.Some(now)))
  {
  }

  /** Every way back to the menu gives the model `new_model` gives. */
  lemma BackToMenuIsNewModel(model: M.Model, now: real)
    ensures model.Typing? ==> Update(model, G.Typing(G.TypingMsg.Cancel), now) == NewModel()
    ensures model.Pause? ==> Update(model, G.Msg.Pause(G.PauseMsg.Cancel), now) == NewModel()
    ensures model.Result? ==> Update(model, G.Result(G.BackToMenu), now) == NewModel()
  {
  }

  // ---------------------------------------------------------------------
  // Sequences of messages
  // ---------------------------------------------------------------------

  /** A message and the clock value when it arrives. */
  datatype Step = Step(msg: G.Msg, time: real)

  /** The model after the steps, one after the other. */
  function Run(model: M.Model, steps: seq<Step>): M.Model
    decreases |steps|
  {
    if steps == [] then model else Run(Update(model, steps[0].msg, steps[0].time), steps[1..])
  }

  /** The steps arrive at or after `t`, in the order of their clock values. */
  predicate Chronological(t: real, steps: seq<Step>)
    decreases |steps|
  {
    steps == [] || (t <= steps[0].time && Chronological(steps[0].time, steps[1..]))
  }

  /** The clock value of the last step, or `t` when there is none. */
  function LastTime(t: real, steps: seq<Step>): real
    decreases |steps|
  {
    if steps == [] then t else LastTime(steps[0].time, steps[1..])
  }

  predicate StartedBy(start: M.Option<real>, t: real) {
    start.Some? ==> start.value <= t
  }

  /** What holds of every model reached from `new_model` by time `t`: the menu
      offers the sample contents; a start time is not in the future; a result
      has an end time, not in the future and not before its start. */
  predicate Consistent(model: M.Model, t: real) {
    match model
    case Menu(m) => m.availableContents == SampleContents
    case Typing(s) => StartedBy(s.startTime, t)
    case Pause(p) => StartedBy(p.startTime, t)
    case Result(r) =>
      r.endTime.Some? && r.endTime.value <= t && StartedBy(r.startTime, r.endTime.value)
  }

  lemma NewModelConsistent(t: real)
    ensures Consistent(NewModel(), t)
  {
  }

  /** One message keeps the model consistent when the clock does not go back. */
  lemma UpdateKeepsConsistent(model: M.Model, msg: G.Msg, t: real, now: real)
    requires Consistent(model, t) && t <= now
    ensures Consistent(Update(model, msg, now), now)
  {
  }

  /** Any chronological sequence of messages keeps the model consistent. */
  lemma {:induction false} RunKeepsConsistent(model: M.Model, t: real, steps: seq<Step>)
    requires Consistent(model, t) && Chronological(t, steps)
    ensures Consistent(Run(model, steps), LastTime(t, steps))
    decreases |steps|
  {
    if steps != [] {
      UpdateKeepsConsistent(model, steps[0].msg, t, steps[0].time);
      RunKeepsConsistent(Update(model, steps[0].msg, steps[0].time), steps[0].time, steps[1..]);
    }
  }

  /** A result reached from `new_model` by messages whose clock values never
      decrease always has an end time, and a session that started typing
      ended no earlier than it started. */
  lemma ResultsAreOrdered(t: real, steps: seq<Step>)
    requires Chronological(t, steps)
    ensures var r := Run(NewModel(), steps);
      r.Result? ==>
        r.result.endTime.Some? &&
        (r.result.startTime.Some? ==> r.result.startTime.value <= r.result.endTime.value)
  {
    RunKeepsConsistent(NewModel(), t, steps);
  }
}
