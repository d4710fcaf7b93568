/** The body of the `POST` handler of the generate route: plan, generate,
    repair, validate, explain. The three model calls, `JSON.parse` and
    `JSON.stringify` are parameters, so every property below holds whatever
    the model replies. */
module Route {

  import opened Wrappers
  import opened Text
  import opened Rewrite
  import opened Validator
  import opened Repair
  import RepairFacts

  /** The plan the planner is asked for. */
  datatype Plan = Plan(intentSummary: string, componentsUsed: seq<string>, layoutStrategy: string)

  /** The plan used when the planner's reply does not parse. */
  const FallbackPlan := Plan("User requested UI changes.", ["Container"], "Standard Layout")

  /** The three model calls the handler makes, in order. */
  datatype Stage = Planner | Generator | Explainer

  /** One model call: which stage, and the context text it was given. */
  datatype Call = Call(stage: Stage, context: string)

  /** What the handler cannot see into: the model (`None` when the call
      throws), `JSON.parse` of a plan (`None` when it throws) and `JSON.stringify`. */
  datatype Services = Services(
    llm: (Stage, string) -> Option<string>,
    parse: string -> Option<Plan>,
    stringify: Plan -> string)

  /** The request body: the user's prompt and the code on screen, if any. */
  datatype Request = Request(prompt: string, currentCode: Option<string>)

  /** The three JSON bodies the handler answers with. */
  datatype Response =
    | Generated(plan: Plan, code: string, explanation: string)
    | Blocked(error: string, code: string, explanation: string)
    | Failed(error: string)

  /** The response together with the model calls made on the way. */
  datatype Outcome = Outcome(response: Response, calls: seq<Call>)

  const ServerError := "Failed to generate UI."
  const BlockedExplanation := "The generated code used disallowed HTML tags."

  /** The error card served in place of code that fails validation, tag by
      tag, each opening tag split after its component name. */
  const ErrorCardPieces: seq<string> := [
    "<>",
    "<" + "Card" + " title=\"Generation Error\">",
    "<" + "Container" + ">",
    "<" + "Button" + " variant=\"destructive\">Generation blocked",
    "</" + "Button>", "</" + "Container>", "</" + "Card>", "</" + ">"]

  const ErrorCardCode := Flatten(ErrorCardPieces)

  /** HTTP status of each response. */
  function Status(r: Response): (code: int)
    ensures code == 200 || code == 500
    ensures code == 500 <==> r.Failed?
  {
    if r.Failed? then 500 else 200
  }

  /** `currentCode || 'None'`: a missing or empty code reads `None`. */
  function CodeOrNone(code: Option<string>): (t: string)
    ensures t != []
    ensures code.Some? && code.value != [] ==> t == code.value
    ensures code.None? || code.value == [] ==> t == "None"
  {
    if code.Some? && code.value != [] then code.value else "None"
  }

  function PlannerContext(req: Request): string {
    "User Request: " + req.prompt + "\nCurrent UI Code: " + CodeOrNone(req.currentCode)
  }

  function GeneratorContext(planJson: string): string {
    "UI Plan to follow: " + planJson + "\nModify or create the UI."
  }

  function ExplainerContext(planJson: string): string {
    "Explain this UI Plan to the user: " + planJson
  }

  /** The planner's reply with every "```json" and then every "```" removed, trimmed. */
  function CleanPlanText(t: string): (r: string)
    ensures Trimmed(r)
  {
    Trim(ReplaceAll(Literal("```"), "", ReplaceAll(Literal("```json"), "", t)))
  }

  /** The plan the generator follows: the parsed reply, or the fallback plan. */
  function ChoosePlan(parse: string -> Option<Plan>, reply: string): Plan {
    parse(CleanPlanText(reply)).GetOr(FallbackPlan)
  }

  /** The handler. A body that does not parse is `None`; any call that throws
      ends the request with the server error. */
  function Post(request: Option<Request>, s: Services): (o: Outcome)
    ensures |o.calls| <= 3
    ensures forall i :: 0 <= i < |o.calls| ==> o.calls[i].stage == [Planner, Generator, Explainer][i]
    ensures request.None? <==> o.calls == []
    ensures request.Some? ==> o.calls[0].context == PlannerContext(request.value)
    ensures o.response.Failed? ==> o.response.error == ServerError
    ensures o.response.Failed? <==> o.calls == [] || Returned(s, o.calls[|o.calls| - 1]).None?
    ensures forall i :: 0 <= i < |o.calls| - 1 ==> Returned(s, o.calls[i]).Some?
    ensures |o.calls| >= 2 ==> Returned(s, o.calls[0]).Some? && o.calls[1] == GeneratorCall(s, Returned(s, o.calls[0]).value)
    ensures !o.response.Failed? ==> |o.calls| >= 2 && Answered(s, Returned(s, o.calls[0]).value, Returned(s, o.calls[1]).value, o)
  {
    match request
    case None => Outcome(Failed(ServerError), [])
    case Some(req) =>
      var c1 := Call(Planner, PlannerContext(req));
      match s.llm(Planner, c1.context)
      case None => Outcome(Failed(ServerError), [c1])
      case Some(reply) => AfterPlanner(s, c1, reply)
  }

  /** What the model returned for a call. */
  function Returned(s: Services, c: Call): Option<string> {
    s.llm(c.stage, c.context)
  }

  /** The generator call made after the planner replied `reply`. */
  function GeneratorCall(s: Services, reply: string): Call {
    Call(Generator, GeneratorContext(s.stringify(ChoosePlan(s.parse, reply))))
  }

  /** What a served response says, given the planner's and the generator's replies:
      blocked with the validator's error and the error card when the repaired
      code fails, otherwise the repaired code itself with the explainer's reply. */
  predicate Answered(s: Services, reply: string, raw: string, o: Outcome)
    requires !o.response.Failed?
  {
    var plan := ChoosePlan(s.parse, reply);
    var code := RepairCode(raw);
    match o.response
    case Blocked(error, served, explanation) =>
      && |o.calls| == 2
      && Some(error) == ValidateJsx(code).error
      && served == ErrorCardCode
      && explanation == BlockedExplanation
    case Generated(p, served, explanation) =>
      && |o.calls| == 3
      && ValidateJsx(served).isValid
      && p == plan && served == code
      && o.calls[2] == Call(Explainer, ExplainerContext(s.stringify(plan)))
      && Some(explanation) == s.llm(Explainer, o.calls[2].context)
  }

  /** The rest of the handler once the planner has replied. */
  function AfterPlanner(s: Services, c1: Call, reply: string): (o: Outcome)
    requires c1.stage == Planner && s.llm(Planner, c1.context) == Some(reply)
    ensures 2 <= |o.calls| <= 3 && o.calls[0] == c1 && o.calls[1] == GeneratorCall(s, reply)
    ensures forall i :: 0 <= i < |o.calls| ==> o.calls[i].stage == [Planner, Generator, Explainer][i]
    ensures o.response.Failed? ==> o.response.error == ServerError
    ensures o.response.Failed? <==> Returned(s, o.calls[|o.calls| - 1]).None?
    ensures forall i :: 0 <= i < |o.calls| - 1 ==> Returned(s, o.calls[i]).Some?
    ensures !o.response.Failed? ==> Answered(s, reply, Returned(s, o.calls[1]).value, o)
  {
    var plan := ChoosePlan(s.parse, reply);
    var c2 := GeneratorCall(s, reply);
    match s.llm(Generator, c2.context)
    case None => Outcome(Failed(ServerError), [c1, c2])
    case Some(raw) =>
      GeneratorAnswered(s, reply, [c1, c2], raw);
      AfterGenerator(s, plan, [c1, c2], RepairCode(raw))
  }

  /** Whatever the rest of the handler serves is the answer to the planner's
      and the generator's replies. */
  lemma GeneratorAnswered(s: Services, reply: string, calls: seq<Call>, raw: string)
    requires |calls| == 2
    ensures var o := AfterGenerator(s, ChoosePlan(s.parse, reply), calls, RepairCode(raw));
      !o.response.Failed? ==> Answered(s, reply, raw, o)
  {
  }

  /** The rest of the handler once the generator's reply has been repaired to `code`. */
  function AfterGenerator(s: Services, plan: Plan, calls: seq<Call>, code: string): (o: Outcome)
    requires |calls| == 2
    ensures |calls| <= |o.calls| <= 3 && o.calls[..2] == calls
    ensures |o.calls| == 3 ==> o.calls[2] == Call(Explainer, ExplainerContext(s.stringify(plan)))
    ensures |o.calls| == 3 <==> ValidateJsx(code).isValid
    ensures o.response.Failed? <==> |o.calls| == 3 && Returned(s, o.calls[2]).None?
    ensures o.response.Failed? ==> o.response.error == ServerError
    ensures o.response.Blocked? ==>
      && Some(o.response.error) == ValidateJsx(code).error
      && o.response.code == ErrorCardCode && o.response.explanation == BlockedExplanation
    ensures o.response.Generated? ==>
      && |o.calls| == 3 && o.response.plan == plan && o.response.code == code
      && Some(o.response.explanation) == Returned(s, o.calls[2])
  {
    var verdict := ValidateJsx(code);
    if !verdict.isValid then
      Outcome(Blocked(verdict.error.value, ErrorCardCode, BlockedExplanation), calls)
    else
      var c3 := Call(Explainer, ExplainerContext(s.stringify(plan)));
      match s.llm(Explainer, c3.context)
      case None => Outcome(Failed(ServerError), calls + [c3])
      case Some(explanation) => Outcome(Generated(plan, code, explanation), calls + [c3])
  }

  /** The code of a response that carries one. */
  function ServedCode(r: Response): (code: Option<string>)
    ensures code.Some? <==> !r.Failed?
  {
    match r
    case Generated(_, code, _) => Some(code)
    case Blocked(_, code, _) => Some(code)
    case Failed(_) => None
  }

  /** The error card is markup of registry components and fragments only. */
  lemma ErrorCardPiecesAreMarkup()
    ensures forall k :: 0 <= k < |ErrorCardPieces| ==> IsMarkupPiece(ErrorCardPieces[k])
  {
    forall k | 0 <= k < |ErrorCardPieces| ensures IsMarkupPiece(ErrorCardPieces[k]) {
      if k < 4 { OpeningPiecesAreMarkup(); } else { ClosingPiecesAreMarkup(); }
    }
  }

  lemma OpeningPiecesAreMarkup()
    ensures IsMarkupPiece("<>")
    ensures IsMarkupPiece("<" + "Card" + " title=\"Generation Error\">")
    ensures IsMarkupPiece("<" + "Container" + ">")
    ensures IsMarkupPiece("<" + "Button" + " variant=\"destructive\">Generation blocked")
  {
    CardPieceIsMarkup();
    ContainerPieceIsMarkup();
    ButtonPieceIsMarkup();
  }

  lemma CardPieceIsMarkup()
    ensures IsMarkupPiece("<" + "Card" + " title=\"Generation Error\">")
  {
    CardNamesRegistered();
    ComponentPiece("Card", " title=\"Generation Error\">");
  }

  lemma ContainerPieceIsMarkup()
    ensures IsMarkupPiece("<" + "Container" + ">")
  {
    CardNamesRegistered();
    ComponentPiece("Container", ">");
  }

  lemma ButtonPieceIsMarkup()
    ensures IsMarkupPiece("<" + "Button" + " variant=\"destructive\">Generation blocked")
  {
    CardNamesRegistered();
    ComponentPiece("Button", " variant=\"destructive\">Generation blocked");
  }

  lemma ClosingPiecesAreMarkup()
    ensures IsMarkupPiece("</" + "Button>") && IsMarkupPiece("</" + "Container>")
    ensures IsMarkupPiece("</" + "Card>") && IsMarkupPiece("</" + ">")
  {
    ClosingPiece("Button>");
    ClosingPiece("Container>");
    ClosingPiece("Card>");
    ClosingPiece(">");
  }

  /** The names the error card uses are registry names. */
  lemma CardNamesRegistered()
    ensures "Container" in Schema.RegistryNames()
    ensures "Button" in Schema.RegistryNames()
    ensures "Card" in Schema.RegistryNames()
  {
    Schema.RegistryOrder();
  }

  /** The error card passes the validator. */
  lemma ErrorCardPasses()
    ensures ValidateJsx(ErrorCardCode).isValid
  {
    ErrorCardPiecesAreMarkup();
    MarkupPasses([], ErrorCardPieces);
    assert [] + ErrorCardCode == ErrorCardCode;
  }

  /** Whatever the model, the parser and the serializer do, any code the
      handler serves passes the validator and opens with a fragment. */
  lemma ServedCodePasses(request: Option<Request>, s: Services)
    ensures var code := ServedCode(Post(request, s).response);
      code.Some? ==> ValidateJsx(code.value).isValid && StartsWith(code.value, "<>")
  {
    ErrorCardPasses();
    ErrorCardStartsWithFragment();
    GeneratedStartsWithFragment(request, s);
  }

  /** The error card opens with a fragment. */
  lemma ErrorCardStartsWithFragment()
    ensures StartsWith(ErrorCardCode, "<>")
  {
    assert ErrorCardCode == "<>" + Flatten(ErrorCardPieces[1..]);
  }

  /** A blocked request never reaches the explainer, and its error is the
      validator's, never empty. */
  lemma BlockedSkipsExplainer(request: Option<Request>, s: Services)
    ensures var o := Post(request, s);
      o.response.Blocked? ==> (forall c :: c in o.calls ==> c.stage != Explainer) && o.response.error != []
  {
    var o := Post(request, s);
    if o.response.Blocked? {
      assert o.calls[0].stage == Planner && o.calls[1].stage == Generator;
    }
  }

  /** A served generation is the repaired generator reply, which starts with `<>`. */
  lemma GeneratedStartsWithFragment(request: Option<Request>, s: Services)
    ensures var r := Post(request, s).response;
      r.Generated? ==> StartsWith(r.code, "<>")
  {
    var o := Post(request, s);
    if o.response.Generated? {
      RepairFacts.RepairStartsWithFragment(s.llm(Generator, o.calls[1].context).value);
    }
  }

  /** When the planner's reply does not parse, the generator works from the
      fallback plan, and the request goes on. */
  lemma PlanFallback(req: Request, s: Services)
    requires s.llm(Planner, PlannerContext(req)).Some?
    requires s.parse(CleanPlanText(s.llm(Planner, PlannerContext(req)).value)).None?
    ensures var o := Post(Some(req), s);
      |o.calls| >= 2 && o.calls[1].context == GeneratorContext(s.stringify(FallbackPlan))
      && (o.response.Generated? ==> o.response.plan == FallbackPlan)
  {
  }

  /** A planner reply without backquotes is only trimmed before parsing. */
  lemma PlanTextUnfenced(t: string)
    requires '`' !in t
    ensures CleanPlanText(t) == Trim(t)
  {
    LiteralFirstCharAbsent("```json", "", t);
    LiteralFirstCharAbsent("```", "", t);
  }
}
