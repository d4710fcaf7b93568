/** The client page: the input field, the history of generated steps, the
    code on screen (the last step's), rollback, and the preview height the
    resize handle drags. Each handler is a function from one session state to
    the next. */
module Page {

  import opened Wrappers
  import opened Text
  import opened Validator
  import opened Route

  /** One generated step: what was asked, the code served, the explanation. */
  datatype HistoryStep = HistoryStep(prompt: string, code: string, explanation: string)

  /** The page state: the input field, the history, the preview height in
      percent and whether the handle is being dragged. */
  datatype Session = Session(userInput: string, history: seq<HistoryStep>, previewHeight: real, isResizing: bool)

  const InitialHeight: real := 60.0
  const MinHeight: real := 20.0
  const MaxHeight: real := 80.0

  const InitialSession := Session("", [], InitialHeight, false)

  /** The code shown in the preview and the code viewer. */
  function CurrentCode(history: seq<HistoryStep>): (code: string)
    ensures history == [] ==> code == []
    ensures history != [] ==> code == history[|history| - 1].code
  {
    if |history| > 0 then history[|history| - 1].code else ""
  }

  /** The body the page posts: the input and the code on screen. */
  function RequestOf(st: Session): (req: Request)
    ensures req.prompt == st.userInput
    ensures req.currentCode == Some(CurrentCode(st.history))
  {
    Request(st.userInput, Some(CurrentCode(st.history)))
  }

  /** The page's `if (data.error)`: a response whose error field is a
      non-empty string. */
  predicate HasError(r: Response) {
    match r
    case Failed(_) => true
    case Blocked(error, _, _) => error != []
    case Generated(_, _, _) => false
  }

  /** The step a response without an error adds. */
  function StepOf(prompt: string, r: Response): (step: HistoryStep)
    requires !r.Failed?
    ensures step.prompt == prompt && Some(step.code) == ServedCode(r)
  {
    HistoryStep(prompt, r.code, r.explanation)
  }

  /** `handleGenerate` once the reply is in: `None` when the request threw. A
      blank input sends nothing; an error or a failed request changes
      nothing; otherwise one step is appended and the input cleared. */
  function Submit(st: Session, reply: Option<Response>): (r: Session)
    ensures Trim(st.userInput) == [] ==> r == st
    ensures reply.None? || HasError(reply.value) ==> r == st
    ensures r.previewHeight == st.previewHeight && r.isResizing == st.isResizing
    ensures r != st ==> Trim(st.userInput) != [] && reply.Some? && !HasError(reply.value)
    ensures Trim(st.userInput) != [] && reply.Some? && !HasError(reply.value) ==>
      && r != st
      && |r.history| == |st.history| + 1
      && r.history[..|st.history|] == st.history
      && r.history[|st.history|] == StepOf(st.userInput, reply.value)
      && r.userInput == []
  {
    if Trim(st.userInput) == [] then st
    else match reply
      case None => st
      case Some(resp) =>
        if HasError(resp) then st
        else st.(history := st.history + [StepOf(st.userInput, resp)], userInput := "")
  }

  /** `handleRollback`: drops the last step, if there is one. */
  function Rollback(st: Session): (r: Session)
    ensures st.history == [] ==> r == st
    ensures st.history != [] ==> r.history + [st.history[|st.history| - 1]] == st.history
    ensures r.userInput == st.userInput && r.previewHeight == st.previewHeight && r.isResizing == st.isResizing
  {
    if |st.history| > 0 then st.(history := st.history[..|st.history| - 1]) else st
  }

  function StartResizing(st: Session): (r: Session)
    ensures r.isResizing && r == st.(isResizing := true)
  {
    st.(isResizing := true)
  }

  function StopResizing(st: Session): (r: Session)
    ensures !r.isResizing && r == st.(isResizing := false)
  {
    st.(isResizing := false)
  }

  /** The `mousemove` handler with the height the mouse drags to: taken only
      while dragging and only strictly between 20% and 80%. */
  function Resize(st: Session, height: real): (r: Session)
    ensures r.previewHeight == st.previewHeight || (st.isResizing && MinHeight < r.previewHeight < MaxHeight)
    ensures r.previewHeight == height <==> (st.isResizing && MinHeight < height < MaxHeight) || st.previewHeight == height
    ensures r.userInput == st.userInput && r.history == st.history && r.isResizing == st.isResizing
    ensures st.isResizing && MinHeight < height < MaxHeight ==> r == st.(previewHeight := height)
    ensures !(st.isResizing && MinHeight < height < MaxHeight) ==> r == st
  {
    if !st.isResizing then st
    else if MinHeight < height && height < MaxHeight then st.(previewHeight := height)
    else st
  }

  /** What the user and the server can do to the page. A generation either
      reaches the handler, whose model and parsers are `services`, or the
      request throws on the way. */
  datatype Event =
    | Type(text: string)
    | Generate(services: Services)
    | Unreachable
    | Undo
    | DragStart
    | DragEnd
    | Drag(height: real)

  function Step(st: Session, e: Event): Session {
    match e
    case Type(text) => st.(userInput := text)
    case Generate(services) =>
      if Trim(st.userInput) == [] then st
      else Submit(st, Some(Post(Some(RequestOf(st)), services).response))
    case Unreachable => Submit(st, None)
    case Undo => Rollback(st)
    case DragStart => StartResizing(st)
    case DragEnd => StopResizing(st)
    case Drag(height) => Resize(st, height)
  }

  function Run(st: Session, events: seq<Event>): Session
    decreases |events|
  {
    if events == [] then st else Run(Step(st, events[0]), events[1..])
  }

  /** A step the page may hold: asked for with a non-blank prompt, and with
      code that passes the validator. */
  predicate StepOk(step: HistoryStep) {
    Trim(step.prompt) != [] && ValidateJsx(step.code).isValid
  }

  /** What stays true of the page whatever happens: the preview height is in
      its open range and every step is one the page may hold. */
  predicate Inv(st: Session) {
    && MinHeight < st.previewHeight < MaxHeight
    && forall i :: 0 <= i < |st.history| ==> StepOk(st.history[i])
  }

  lemma InitialInv()
    ensures Inv(InitialSession)
  {
  }

  /** Appending a step the page may hold keeps the invariant. */
  lemma AppendKeepsInv(st: Session, r: Session, step: HistoryStep)
    requires Inv(st) && StepOk(step)
    requires r.previewHeight == st.previewHeight
    requires |r.history| == |st.history| + 1 && r.history[..|st.history|] == st.history
    requires r.history[|st.history|] == step
    ensures Inv(r)
  {
    forall i | 0 <= i < |r.history| ensures StepOk(r.history[i]) {
      if i < |st.history| {
        assert r.history[i] == r.history[..|st.history|][i];
      }
    }
  }

  /** The step a served response adds is one the page may hold. */
  lemma ServedStepOk(st: Session, services: Services)
    requires Trim(st.userInput) != []
    ensures var r := Post(Some(RequestOf(st)), services).response;
      !r.Failed? ==> StepOk(StepOf(st.userInput, r))
  {
    ServedCodePasses(Some(RequestOf(st)), services);
  }

  /** A generation that reaches the handler appends, if anything, a step
      with code that passes the validator. */
  lemma GenerateKeepsInv(st: Session, services: Services)
    requires Inv(st)
    ensures Inv(Step(st, Generate(services)))
  {
    if Trim(st.userInput) != [] {
      var resp := Post(Some(RequestOf(st)), services).response;
      var r := Submit(st, Some(resp));
      if r != st {
        ServedStepOk(st, services);
        AppendKeepsInv(st, r, StepOf(st.userInput, resp));
      }
    }
  }

  lemma RollbackKeepsInv(st: Session)
    requires Inv(st)
    ensures Inv(Rollback(st))
  {
    var r := Rollback(st);
    if st.history != [] {
      forall i | 0 <= i < |r.history| ensures StepOk(r.history[i]) {
        assert r.history[i] == (r.history + [st.history[|st.history| - 1]])[i];
      }
    }
  }

  lemma StepKeepsInv(st: Session, e: Event)
    requires Inv(st)
    ensures Inv(Step(st, e))
  {
    match e
    case Generate(services) => GenerateKeepsInv(st, services);
    case Undo => RollbackKeepsInv(st);
    case _ =>
  }

  /** From the initial page, any sequence of events keeps the invariant: the
      preview height never leaves (20, 80) and no code that fails the
      validator ever reaches the history, and so the screen. */
  lemma {:induction false} RunKeepsInv(st: Session, events: seq<Event>)
    requires Inv(st)
    ensures Inv(Run(st, events))
    decreases |events|
  {
    if events != [] {
      StepKeepsInv(st, events[0]);
      RunKeepsInv(Step(st, events[0]), events[1..]);
    }
  }

  /** The code on screen always passes the validator. */
  lemma ScreenCodePasses(events: seq<Event>)
    ensures var st := Run(InitialSession, events);
      st.history != [] ==> ValidateJsx(CurrentCode(st.history)).isValid
  {
    InitialInv();
    RunKeepsInv(InitialSession, events);
  }

  /** Rolling back a step just appended restores the history before it, and
      with it the code on screen. */
  lemma RollbackUndoesSubmit(st: Session, reply: Option<Response>)
    requires Submit(st, reply) != st
    ensures Rollback(Submit(st, reply)).history == st.history
    ensures CurrentCode(Rollback(Submit(st, reply)).history) == CurrentCode(st.history)
  {
    var r := Submit(st, reply);
    assert r.history[..|r.history| - 1] == st.history;
  }

  /** Two rollbacks drop the last two steps; the code on screen is then the
      step before them, or empty. */
  lemma RollbackTwice(st: Session)
    requires |st.history| >= 2
    ensures Rollback(Rollback(st)).history == st.history[..|st.history| - 2]
    ensures |st.history| == 2 ==> CurrentCode(Rollback(Rollback(st)).history) == []
    ensures |st.history| > 2 ==> CurrentCode(Rollback(Rollback(st)).history) == st.history[|st.history| - 3].code
  {
    var h := st.history;
    assert h[..|h| - 1][..|h| - 2] == h[..|h| - 2];
  }

  /** After a step is appended, the code on screen is the code it served. */
  lemma SubmitShowsServedCode(st: Session, reply: Option<Response>)
    requires Submit(st, reply) != st
    ensures Some(CurrentCode(Submit(st, reply).history)) == ServedCode(reply.value)
  {
  }

  /** A reply without an error to a non-blank input appends exactly one
      step, and the code on screen becomes its code. */
  lemma SubmitAppends(st: Session, resp: Response)
    ensures Trim(st.userInput) != [] && !HasError(resp) ==>
      && Submit(st, Some(resp)).history == st.history + [StepOf(st.userInput, resp)]
      && CurrentCode(Submit(st, Some(resp)).history) == resp.code
      && Submit(st, Some(resp)).userInput == []
  {
    if Trim(st.userInput) != [] && !HasError(resp) {
      var r := Submit(st, Some(resp));
      assert r.history == r.history[..|st.history|] + [r.history[|st.history|]];
    }
  }

  /** So does a generation that reaches the handler and comes back without an error. */
  lemma GenerateAppends(st: Session, services: Services)
    ensures var resp := Post(Some(RequestOf(st)), services).response;
      Trim(st.userInput) != [] && !HasError(resp) ==>
        Step(st, Generate(services)).history == st.history + [StepOf(st.userInput, resp)]
  {
    var resp := Post(Some(RequestOf(st)), services).response;
    SubmitAppends(st, resp);
  }
}
