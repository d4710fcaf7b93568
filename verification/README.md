# UI Generator: the constrained generation pipeline, in Dafny

This project models the core of a UI generator. A user describes a UI in
prose, and three language-model calls turn the description into code built
only from a fixed component registry:
- a planner writes a JSON plan;
- a generator writes JSX;
- an explainer describes the plan.

Between the generator and the screen sit three deterministic parts, each a
module here:
- **Cleaner**: the code cleaner. It pulls the code out of a markdown fence,
  or strips stray fences and falls back to the reply itself.
- **Repair**: the repair pass. It wraps the code in a `<>…</>` fragment,
  rewrites raw HTML tags to registry components, and replaces two malformed
  chart-data literals with a sample array.
- **Validator**: the whitelist validator. It rejects any upper-case tag that
  is not in the registry, and any of a list of raw lower-case HTML tags.

Module by module:
- `Text` and `Rewrite` supply the JavaScript semantics this needs:
  - `trim` and `\s`;
  - ASCII case folding, for the `i` flag;
  - the three regular-expression shapes the route uses, with `String.replace` and the `g` flag.
- `Schema` is the registry.
- `Cleaner` and `Validator` are `lib/utils/validation.ts`.
- `Repair`, `TagFix`, `DataFix` and `RepairFacts` are the repair steps of the route.
- `Route` is the `POST` handler of `app/api/generate/route.ts`.
- `Page` is the history and the resize handle of `app/page.tsx`.
- `Scenarios` works through concrete replies.

The model calls, `JSON.parse` and `JSON.stringify` are parameters of the handler (`Route.Services`).
Every property of `Route` and `Page` therefore holds whatever the model replies.

The main results:
- The validator accepts exactly the code in which:
  - every upper-case tag names a registry component;
  - no raw tag appears.

  When it rejects code for an unregistered upper-case tag, the message names the first such tag; a raw tag gets a fixed message that names no tag (`Validator.ValidateJsx`).
- Whatever the three calls reply, any code the handler serves passes the validator (`Route.ServedCodePasses`).
- The code on the page therefore always passes as well (`Page.ScreenCodePasses`).
- The error card served in place of rejected code passes too (`Route.ErrorCardPasses`).
- The preview height stays strictly between 20% and 80% (`Page.RunKeepsInv`).
- The repair pass works tag by tag (`RepairFacts.AutoFixTagByTag`). In code whose tags are separated by text without `<`, such as `<div>Hello World</div>`, each tag becomes what the chain makes of it alone. Each text gets only the two data rules. The pass's own output tags are fixed points of it.
- Every `data={[]()}` and `data={[]}` in text without `<` becomes the sample array, wherever it stands (`DataFix.DataLiteralFixed`). None is left afterwards (`DataFix.AutoFixLeavesNoMalformedData`).

Behaviour of the code that a reader may not expect:
- **Line breaks in the fragment.** The fragment wrap inserts line breaks: `<>\n` + code + `\n</>`.
  - A reply that is a single chart tag is wrapped as well.
  - `Scenarios.FencedGoButtonRepaired`, `Scenarios.DivHeadingRepaired` and `Scenarios.ChartDataRepaired` state what the code produces.
- **Repair is not idempotent.**
  - A reply of an empty fenced block followed by text between stray fences is repaired to code that still holds a fenced block.
  - Repairing that again keeps only the block's body (`Scenarios.RepairNotIdempotent`).
- **The `i` flag resets `Button`.** The button rule's `i` flag also matches the registry's own `<Button …>`, so every `Button`, whatever its variant, comes out as `<Button variant="primary">` (`RepairFacts.ButtonVariantReset`).
- **The error card never shows.** The page treats any response with a non-empty `error` as a failure and keeps its history.
  - So the error card the route sends with a rejection never reaches the screen.
  - `Page.Submit` models that `if`.
- **The rejection message ends oddly.** The whitelist includes an empty entry for the fragment, so it reads `…, Chart,  are allowed.` (`Validator.UnauthorizedMessageText`).

## Model

| member | source | states |
|---|---|---|
| Text.Trim | lib/utils/validation.ts:13 | `trim()`: the result has no white space at either end, and what it drops on each side is white space only |
| Text.TrimUnique | lib/utils/validation.ts:21 | any trimmed text framed by white space on both sides is the trim of the whole |
| Text.TrimIdempotent | lib/utils/validation.ts:21 | trimming twice gives what trimming once gives |
| Cleaner.FindBlock | lib/utils/validation.ts:9 | the fence pattern finds a block exactly when the reply holds two fences that do not overlap, and what it finds is the pattern's first match |
| Cleaner.FindBlockFindsFirst | lib/utils/validation.ts:9 | the first match has the leftmost opening fence, the first language tag that still lets a closing fence follow, and the shortest body; that match is the one found |
| Cleaner.FirstBlockMatchUnique | lib/utils/validation.ts:9 | there is at most one such first match |
| Cleaner.StripOpeningFence | lib/utils/validation.ts:18 | the fallback removes a prefix exactly when the reply starts with a fence, an optional `jsx`/`tsx`/`javascript` in any letter case, and a line break |
| Cleaner.StripClosingFence | lib/utils/validation.ts:19 | the fallback removes three final backquotes when the text ends with them and nothing otherwise |
| Cleaner.CleanGeneratedCode | lib/utils/validation.ts:7-22 | the cleaned code is always trimmed |
| Cleaner.CleanTakesFirstBlock | lib/utils/validation.ts:9-14 | when the first block has a non-empty body, the cleaned code is that body, trimmed |
| Cleaner.CleanFallback | lib/utils/validation.ts:16-21 | when the first block has an empty body, or there is none, the cleaned code is the reply with the opening fence line and the final fence stripped, trimmed |
| Cleaner.CleanAfterEmptyBlock | lib/utils/validation.ts:11-21 | a reply that opens with an empty block falls back even when a later block has a body |
| Cleaner.CleanFencedCode | lib/utils/validation.ts:9-14 | code in a block tagged `jsx`, `tsx`, `javascript`, `js` or nothing, after a preamble without backquotes, is extracted exactly |
| Cleaner.CleanKeepsPlainCode | lib/utils/validation.ts:16-21 | a trimmed reply without backquotes is its own cleaned code |
| Schema.RegistryOrder | lib/ai/schema.ts:1-70 | the registry names eight components: Navbar, Container, Button, Card, Input, Sidebar, Modal, Chart, in that order |
| Schema.RegistryNamesDistinct | lib/ai/schema.ts:1-70 | no component name appears twice |
| Schema.RegistryNamesAreTagNames | lib/ai/schema.ts:1-70 | every registry name is a capitalised identifier, a name the validator's tag pattern can capture |
| Schema.PropTypesKnown | lib/ai/schema.ts:1-70 | every prop's type is `string`, `node`, `boolean` or `array` |
| Schema.ButtonVariants | lib/ai/schema.ts:20-27 | `Button`'s `variant` prop allows `primary`, `secondary` and `destructive` |
| Validator.OneRegistry | lib/ai/schema.ts:72 | the prompt text is the serialisation of the registry, and a non-empty name is on the validator's whitelist exactly when a registry entry carries it: one registry value feeds both |
| Validator.ScanTags | lib/utils/validation.ts:33-44 | the scan returns the first position holding an upper-case tag whose name is not allowed, or nothing when there is none |
| Validator.FindRawTag | lib/utils/validation.ts:47 | true exactly when a raw tag (`div`, `p`, `span`, `button`, `a`, `img`, `script`) appears followed by white space, `>` or `/` |
| Validator.AllowedMeansRegistered | lib/utils/validation.ts:28-31 | a captured tag name is never empty, so the empty whitelist entry never matches and the whitelist acts as the registry |
| Validator.WhitelistedIff | lib/utils/validation.ts:36-44 | every upper-case tag is registered exactly when no position holds an unauthorized tag |
| Validator.ScanFindsFirst | lib/utils/validation.ts:33-44 | the scan finds nothing exactly when the code is whitelisted, and otherwise finds the first unauthorized tag |
| Validator.FirstUnauthorizedUnique | lib/utils/validation.ts:36-44 | the first unauthorized tag is unique |
| Validator.ValidateJsx | lib/utils/validation.ts:27-55 | valid exactly when every upper-case tag is registered and no raw tag appears; an error exactly when invalid; the error names the first unauthorized tag, and the raw-tag message is given only to whitelisted code |
| Validator.UnauthorizedMessageText | lib/utils/validation.ts:41 | the rejection message lists the registry names and then, for the empty entry, a trailing `, ` |
| Validator.ClosingAndFragmentIgnored | lib/utils/validation.ts:33-47 | closing tags and `<>` are seen by neither check |
| Validator.PassesConcat | lib/utils/validation.ts:27-55 | two passing codes, the second starting with `<`, pass when joined |
| Validator.MarkupPasses | lib/utils/validation.ts:27-55 | code made of closing tags, fragment tokens and opening tags of registry components, after text without `<`, is valid |
| Rewrite.OpenTagMatch | app/api/generate/route.ts:60 | an opening-tag pattern matches `m` characters exactly when they form `<name>` or `<name attributes>` for a listed name in any letter case, with the attributes starting with a space and holding no `>` |
| Rewrite.CloseTagMatch | app/api/generate/route.ts:61 | a closing-tag pattern matches `m` characters exactly when they form `</name>` for a listed name in any letter case |
| Rewrite.ReplaceAllWithoutMatch | app/api/generate/route.ts:59-67 | a global replace with no match anywhere leaves the text unchanged |
| Rewrite.ReplaceAllAtMatch | app/api/generate/route.ts:59-67 | a match at the front is replaced and the search resumes after it |
| Rewrite.ReplaceAllSplit | app/api/generate/route.ts:59-67 | no match of the route's patterns crosses a `>`, so a global replace works separately on the text up to a `>` and the rest |
| Rewrite.LiteralInContext | app/api/generate/route.ts:66-67 | a literal whose first character occurs nowhere else is replaced in place |
| Rewrite.LiteralSplit | app/api/generate/route.ts:66-67 | a global literal replace works separately on a text and on what follows it, when what follows starts with a character the literal holds at most at its front |
| Rewrite.ReplaceAllAvoids | app/api/generate/route.ts:66-67 | a global literal replace leaves no occurrence of the literal behind, and does not create an occurrence of another text that was absent, when the replacement holds that text's first character only at its front and does not start with it |
| Repair.WrapFragment | app/api/generate/route.ts:54-56 | the code is left alone exactly when its trim starts with `<>`, and is otherwise wrapped as `<>`, line break, code, line break, `</>` |
| Repair.WrapFragmentIdempotent | app/api/generate/route.ts:54-56 | wrapping trimmed code twice wraps it once |
| Repair.AutoFixSplit | app/api/generate/route.ts:59-67 | the eight-rule chain works separately on the text up to a `>` and the rest |
| Repair.AutoFixHit | app/api/generate/route.ts:59-67 | a tag that the first `k` rules keep, rule `k` rewrites, and the whole chain keeps afterwards comes out as rule `k`'s output |
| TagFix.OpenLayoutFixed | app/api/generate/route.ts:60 | any opening `div`, `main`, `section`, `header` or `footer` tag, in any letter case and with any attributes, becomes `<Container>` |
| TagFix.CloseLayoutFixed | app/api/generate/route.ts:61 | any closing layout tag becomes `</Container>` |
| TagFix.OpenTextFixed | app/api/generate/route.ts:62 | any opening `p`, `span` or `h1`–`h6` tag becomes `<Container>` |
| TagFix.CloseTextFixed | app/api/generate/route.ts:63 | any closing text tag becomes `</Container>` |
| TagFix.OpenButtonFixed | app/api/generate/route.ts:64 | any opening `button` tag, in any letter case, becomes `<Button variant="primary">` |
| TagFix.CloseButtonFixed | app/api/generate/route.ts:65 | any closing `button` tag becomes `</Button>` |
| DataFix.AutoFixPlainText | app/api/generate/route.ts:59-67 | text without `<` goes through the chain with only the two data rules acting |
| DataFix.DataLiteralFixed | app/api/generate/route.ts:59-67 | in text without `<`, `data={[]()}` or `data={[]}` becomes the sample array whatever stands around it, and the chain acts on the text before and after it as it would on each alone, so every occurrence is replaced; text around it without a `d` is kept as it is |
| DataFix.DataLiteralInTagFixed | app/api/generate/route.ts:59-67 | the same inside a tag no tag rule names, such as `<Chart data={[]()} />` |
| DataFix.DataRulesAround | app/api/generate/route.ts:66-67 | the two data rules replace a malformed literal wherever it stands and act on the text on either side of it as they would on each alone: no occurrence reaches across a literal |
| DataFix.DataRulesClean | app/api/generate/route.ts:66-67 | after the two data rules no `data={[]()}` and no `data={[]}` is left in any text: the first rule writes none back, and the second brings back no `data={[]()}` |
| DataFix.AutoFixLeavesNoMalformedData | app/api/generate/route.ts:59-67 | text without `<` comes out of the whole chain holding neither malformed literal |
| DataFix.SampleDataKept | app/api/generate/route.ts:66-67 | the sample array is left alone by every rule |
| DataFix.OtherDataKept | app/api/generate/route.ts:59-67 | text without `<` that holds neither `data={[]()}` nor `data={[]}` comes out of the chain unchanged, so other data is never replaced |
| DataFix.OtherDataInTagKept | app/api/generate/route.ts:59-67 | the same for a tag that no tag rule names, such as `<Chart data={[1, 2]} />` |
| RepairFacts.AutoFixKept | app/api/generate/route.ts:59-67 | text that every rule keeps comes out of the chain unchanged |
| RepairFacts.AutoFixPassesText | app/api/generate/route.ts:59-67 | text without `<` or `d` passes through the chain whatever follows it |
| RepairFacts.AutoFixTagByTag | app/api/generate/route.ts:59-67 | on text without `<` interleaved with tags running from `<` to `>`, the chain rewrites each tag as it would alone, and each text gets only the two data rules |
| RepairFacts.AutoFixInertTagByTag | app/api/generate/route.ts:59-67 | when the texts between the tags hold no `<` and no `d`, they are kept as they are, whatever the tags start with |
| RepairFacts.TextBeforeTag | app/api/generate/route.ts:59-67 | text without `<`, followed by code starting with `<`: the text gets only the data rules and the code goes through the chain as it would alone |
| RepairFacts.ApplyRulesBeforeLt | app/api/generate/route.ts:59-67 | a chain of rules whose literals hold no `<` and whose tag rules write tags works separately on text without `<` and on what follows from the next `<` |
| RepairFacts.AutoFixKeepsCode | app/api/generate/route.ts:59-67 | code whose tags the chain keeps is a fixed point of the chain |
| RepairFacts.WrittenTagsKept | app/api/generate/route.ts:59-67 | every tag the chain writes, and the fragment tokens, are kept by the chain |
| RepairFacts.RepairStartsWithFragment | app/api/generate/route.ts:52-67 | the repaired code starts with `<>` whatever the generator replied |
| RepairFacts.ButtonPropsReset | app/api/generate/route.ts:64 | `<Button …>` with any attributes comes out as `<Button variant="primary">` |
| RepairFacts.ButtonVariantReset | app/api/generate/route.ts:64 | `<Button variant="secondary">` comes out as `<Button variant="primary">` |
| RepairFacts.AutoFixKeepsWrapped | app/api/generate/route.ts:54-67 | text without `<` or `d`, once wrapped in a fragment, goes through the chain unchanged |
| Route.Status | app/api/generate/route.ts:74-97 | the status is 500 exactly for the server-error body and 200 otherwise |
| Route.CodeOrNone | app/api/generate/route.ts:18 | a missing or empty current code reads `None`; any other is quoted as it is |
| Route.PlanTextUnfenced | app/api/generate/route.ts:29 | a planner reply without backquotes is only trimmed before parsing |
| Route.PlanFallback | app/api/generate/route.ts:27-42 | when the planner's cleaned reply does not parse, the generator is given the fallback plan, and a successful response carries it |
| Route.Post | app/api/generate/route.ts:13-99 | the calls go planner, generator, explainer and stop at the first that throws; an unreadable body or a throw gives the server error; any other response answers the planner's and the generator's replies |
| Route.AfterPlanner | app/api/generate/route.ts:41-93 | once the planner has replied, the generator gets the chosen plan, and a served response is the answer to the two replies |
| Route.AfterGenerator | app/api/generate/route.ts:70-93 | repaired code that fails validation gives the validator's error with the error card and no explainer call; code that passes is served as it is, with the plan and the explainer's reply |
| Route.ErrorCardPasses | app/api/generate/route.ts:76 | the error card served with a rejection passes the validator |
| Route.ErrorCardStartsWithFragment | app/api/generate/route.ts:76 | the error card opens with `<>` |
| Route.ServedCodePasses | app/api/generate/route.ts:70-93 | every code the handler serves passes the validator and opens with `<>`, whatever the model replies |
| Route.BlockedSkipsExplainer | app/api/generate/route.ts:72-79 | a rejection makes no explainer call and carries a non-empty error |
| Route.GeneratedStartsWithFragment | app/api/generate/route.ts:52-93 | served generated code starts with `<>` |
| Page.CurrentCode | app/page.tsx:25 | the code on screen is the last step's, or empty when there is none |
| Page.RequestOf | app/page.tsx:36-39 | the posted body holds the input and the code on screen |
| Page.Submit | app/page.tsx:28-63 | a blank input, a failed request or a response with an error changes nothing; otherwise exactly one step is appended with the served code, the earlier steps stay, and the input is cleared |
| Page.Rollback | app/page.tsx:65-69 | drops the last step when there is one and changes nothing else |
| Page.Resize | app/page.tsx:84-94 | while dragging, a requested height strictly between 20% and 80% becomes the height and nothing else changes; any other request, or any request when not dragging, leaves the page as it is |
| Page.RunKeepsInv | app/page.tsx:14-103 | over any sequence of events the preview height stays strictly between 20% and 80% and every step holds a non-blank prompt and code that passes the validator |
| Page.ScreenCodePasses | app/page.tsx:25 | the code on screen always passes the validator |
| Page.RollbackUndoesSubmit | app/page.tsx:49-69 | rolling back a step just appended restores the earlier history and code on screen |
| Page.RollbackTwice | app/page.tsx:65-69 | two rollbacks drop the last two steps; with three steps, the first step's code is on screen |
| Page.SubmitAppends | app/page.tsx:44-55 | after a non-blank input and a response without an error, the history is the old history plus the one step built from the input and the response, that step's code is on screen, and the input is cleared |
| Page.GenerateAppends | app/page.tsx:28-55 | a generation whose response from the handler carries no error appends exactly the step built from the input and that response |
| Page.SubmitShowsServedCode | app/page.tsx:25-53 | after a step is appended the code on screen is the code served |
| Scenarios.FencedGoButtonRepaired | app/api/generate/route.ts:52-70 | a `jsx` block holding a container with a primary button is repaired to that code in a fragment, on lines of its own, and the result passes the validator, so it is what is served |
| Scenarios.DivHeadingRepaired | app/api/generate/route.ts:52-67 | `<div><h1>Title</h1></div>` is repaired to `<>`, a line break, two nested `Container`s around `Title`, a line break, `</>` |
| Scenarios.ChartDataRepaired | app/api/generate/route.ts:52-70 | `<Chart data={[]()} />` is repaired to a fragment holding it on a line of its own, with the sample array `[65, 59, 80, 81, 56, 55, 40]` as its data, and the result passes the validator, so it is what is served |
| Scenarios.StrayFencesCleaned | lib/utils/validation.ts:7-22 | an empty block followed by text between stray fences falls back and keeps the stray fences |
| Scenarios.RepairedOnceCleaned | lib/utils/validation.ts:9-14 | the code that repair yields for that reply holds a block, which cleaning extracts |
| Scenarios.RepairNotIdempotent | app/api/generate/route.ts:52-67 | repairing that reply twice differs from repairing it once |

## Left out

- The three model calls are parameters of `Route.Post`. So are the Groq client and its configuration, `JSON.parse`, `JSON.stringify` and the request body's JSON parsing. `JSON.parse` is narrowed to the three plan fields.
- Page.HasError: a `Failed` body counts as an error even if its message were empty. The route never sends one with an empty message.
- HTTP, `NextResponse` and status codes are left out, apart from `Route.Status`. So is `console` logging.
- The page's loading flag, its `alert` calls, the cursor styling and the rendering are left out. None of them changes the history or the height.
- Page.Resize: the requested height is given in percent. The mouse's `clientY` and the window's `innerHeight` are browser state, and the real division is left out.
- Schema.SchemaPromptText: this is the serialiser applied to the registry. The JSON formatting with two-space indents is left out.
- The prompt texts in `lib/ai/prompts.ts`, the components and the hooks are not part of this model.
- Route.CleanPlanText: the contract only states that the result is trimmed. Its effect on a reply that holds fences is stated only for replies without backquotes (`Route.PlanTextUnfenced`).
- A reply with an unregistered tag such as `<Foo>Hello</Foo>`, rejected with a message naming `Foo`, is covered only through the general contracts `Validator.ValidateJsx` and `Route.AfterGenerator`. It has no lemma of its own.
