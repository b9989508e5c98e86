# Hedge-fund page logic, modelled in Dafny

This project models the logic of the hedge-fund page of the Masumi Guard
front end (`Frontend/src/pages/HedgeFund.jsx`). Four parts of the page do real work:

- **Purchaser identifier** (`generateRandomHex`): random bytes written as
  lower-case hexadecimal, two digits per byte (module `HexIdentifier`).
- **Risk colour** (`getRiskScoreColor`): a risk-level string mapped to a CSS
  colour by looking for four marker strings in a fixed order (module
  `RiskColor`).
- **Result renderer** (`parseMarkdown`): a chain of regular-expression
  rewrites. They strip a code fence, then turn headings, `**strong**` spans,
  `---` rules and list items into HTML, and line feeds into `<br />`
  (modules `Markdown` and `MarkdownLines`).
- **Execution workflow** (`handleHedgeFundExecution` and `pollStatus`, plus
  the button that starts them). A click submits an assessment request, then
  a purchase, then polls for the outcome. The page keeps a status word, an
  error message and a result, and the button is guarded by the status
  (modules `Workflow` and `WorkflowProperties`).

Support modules:
- `Wrappers` holds an `Option` type.
- `Decimal` renders a number as a template literal does: `${status}` in the
  rejection messages.

How the model treats the page's inputs and timing:
- **Random sources are inputs.** The random bytes, the `Math.random` draws
  and the poll outcome draw are passed in.
- **Network replies and poll snapshots are events.** They are fed to a pure
  transition function, `Workflow.Step`.
- **Regular expressions are line-wise rewrites.** The renderer's expressions
  follow JavaScript semantics. Every rule except the fence strip is anchored
  to a line (`gim`) or cannot cross one (`.*?`). So each rule is modelled as
  a rewrite of every line, with the line terminators kept.
- **Line terminators are JavaScript's.** A line ends at LF, CR, U+2028 or
  U+2029, which is what `.` and multi-line `^`/`$` use.
- **Line-feed-only text has a simpler reading.** When the text's only
  terminator is the line feed, the whole renderer equals rendering each line
  and joining the lines with `<br />`. This is proved as
  `Markdown.ParseMarkdownIsLineWise`.

## Model

| member | source | states |
|---|---|---|
| HexIdentifier.Fill | Frontend/src/pages/HedgeFund.jsx:76-83 | the array holds exactly the bytes `crypto.getRandomValues` gave, or, in the fallback, `floor(draw * 256)` of each `Math.random` draw; its length is the requested length |
| HexIdentifier.FallbackByte | Frontend/src/pages/HedgeFund.jsx:81 | a fallback byte is the floor of the draw times 256, so it lies in 0..255 |
| HexIdentifier.PadStart | Frontend/src/pages/HedgeFund.jsx:84 | `padStart` keeps the string at the end, fills the front with the fill character, and reaches the target length |
| HexIdentifier.ToHexString | Frontend/src/pages/HedgeFund.jsx:84 | `toString(16)` gives at least one character, only lower-case hex digits, and no leading zero; `HexIdentifier.ByteDigits` pins it to one digit below 16 and to the two nibble digits otherwise |
| HexIdentifier.ByteToHex | Frontend/src/pages/HedgeFund.jsx:84 | `byte.toString(16).padStart(2, '0')` equals the reference two-digit form: high nibble digit, then low nibble digit |
| HexIdentifier.Encode | Frontend/src/pages/HedgeFund.jsx:84 | joining `ByteToHex` of every byte spells the bytes' digit pairs in order: exactly two characters per byte, all in `0-9a-f` |
| HexIdentifier.EncodeAt | Frontend/src/pages/HedgeFund.jsx:84 | characters 2i and 2i+1 are the hex digits of byte i's high and low nibbles |
| HexIdentifier.DigitsAt | Frontend/src/pages/HedgeFund.jsx:84 | in the digit pairs the encoding spells, characters 2i and 2i+1 are the digits of byte i's high and low nibbles |
| HexIdentifier.GenerateRandomHex | Frontend/src/pages/HedgeFund.jsx:75-85 | the identifier has length 2·n, uses only lower-case hex digits, and decodes back to the random bytes drawn |
| HexIdentifier.DefaultIdentifierLength | Frontend/src/pages/HedgeFund.jsx:75 | with the default length of 8 bytes the identifier is 16 characters long |
| HexIdentifier.DecodeEncode | Frontend/src/pages/HedgeFund.jsx:84 | decoding an identifier gives back the bytes it encodes |
| HexIdentifier.DecodeDigits | Frontend/src/pages/HedgeFund.jsx:84 | decoding the bytes' digit pairs gives back the bytes |
| HexIdentifier.EncodeDecode | Frontend/src/pages/HedgeFund.jsx:84 | every even-length lower-case hex string is the encoding of the bytes it decodes to |
| HexIdentifier.DigitsDecode | Frontend/src/pages/HedgeFund.jsx:84 | every string that decodes is the digit pairs of the bytes it decodes to |
| HexIdentifier.EncodeInjective | Frontend/src/pages/HedgeFund.jsx:84 | distinct byte arrays give distinct identifiers |
| RiskColor.Includes | Frontend/src/pages/HedgeFund.jsx:110-113 | `includes` holds exactly when the marker occurs at some index |
| RiskColor.ScoreColor | Frontend/src/pages/HedgeFund.jsx:108-115 | an absent or empty level gives `#fff`; otherwise red, orange, yellow and green are looked for in that order and the first marker found decides; no marker gives `#1fc7d4`; each colour in both directions |
| RiskColor.ScoreColorIsFirstLevel | Frontend/src/pages/HedgeFund.jsx:110-114 | the colour is the colour of the first level in the table whose marker the text contains, or the default when none is contained |
| RiskColor.RedBeatsGreen | Frontend/src/pages/HedgeFund.jsx:110-113 | a text holding both the red and the green marker is coloured red |
| RiskColor.MarkerAloneSelectsItsColor | Frontend/src/pages/HedgeFund.jsx:110-113 | no marker contains another, so each marker on its own selects its own colour |
| Markdown.StripFences | Frontend/src/pages/HedgeFund.jsx:90 | the fence strip removes at most a leading "```markdown" line and a trailing "```" and keeps the text between them unchanged; the trailing fence goes exactly when the text after the opening line ends with one |
| Markdown.Wrap | Frontend/src/pages/HedgeFund.jsx:92-101 | `/^marker(.*$)/gim` on one line: a line that starts with the marker becomes the open tag, the rest of the line and the close tag (`MarkdownLines.WrapApplies`); a line that does not is left as it is (`MarkdownLines.HeadingsSkip`, `MarkdownLines.ListRulesSkip`) |
| Markdown.Emphasize | Frontend/src/pages/HedgeFund.jsx:96 | the lazy strong rewrite: asterisk-free text around a line passes through untouched (`EmphasizeAfterStarFree`, `EmphasizeBeforeStarFree`), no line terminator appears (`EmphasizeKeepsLine`), and only `<`-initial markup is inserted (`MarkdownLines.EmphasizePlainPrefix`) |
| Markdown.HorizontalRuleOf | Frontend/src/pages/HedgeFund.jsx:98 | a line that is exactly `---` becomes the hr tag (`MarkdownLines.RuleLine`); a line starting with neither `-` nor a space is left alone (`MarkdownLines.ListRulesSkip`) |
| Markdown.Pass | Frontend/src/pages/HedgeFund.jsx:92-101 | `replace` with a `gim` expression rewrites every line of the text and keeps each terminator, so passes compose into one line-wise sweep (`PassThenLineWise`, `PassesAreLineWise`) |
| Markdown.BreakLines | Frontend/src/pages/HedgeFund.jsx:103 | `replace(/\n/g, '<br />')` leaves no line feed in the text; on line-feed-only text, after the line-wise sweep it joins the rewritten lines with `<br />` (`BreakLineWise`) |
| Markdown.FindPair | Frontend/src/pages/HedgeFund.jsx:96 | a reported `**` is a pair of asterisks at or after the start position |
| Markdown.FindPairIsFirst | Frontend/src/pages/HedgeFund.jsx:96 | the reported pair is the first one: any pair at or after the start is at or after it |
| Markdown.LineEnd | Frontend/src/pages/HedgeFund.jsx:92-101 | the text before the returned index holds no line terminator, and a terminator stands at the index unless it is the end |
| Markdown.ParseMarkdown | Frontend/src/pages/HedgeFund.jsx:87-106 | an absent or empty text renders as the empty string, and the rendered HTML never holds a line feed |
| Markdown.EmphasizeAfterStarFree | Frontend/src/pages/HedgeFund.jsx:96 | text without asterisks in front of a line is left alone by the strong rewrite |
| Markdown.EmphasizeBeforeStarFree | Frontend/src/pages/HedgeFund.jsx:96 | text without asterisks after a line is left alone by the strong rewrite |
| Markdown.EmphasizeKeepsLine | Frontend/src/pages/HedgeFund.jsx:96 | the lazy `**…**` rewrite never introduces a line terminator |
| Markdown.RewriteKeepsLine | Frontend/src/pages/HedgeFund.jsx:92-101 | no rewrite rule introduces a line terminator into a line |
| Markdown.PassThenLineWise | Frontend/src/pages/HedgeFund.jsx:92-101 | one rule over the whole text followed by the rest line by line equals all of them line by line |
| Markdown.PassesAreLineWise | Frontend/src/pages/HedgeFund.jsx:92-101 | the seven whole-text rewrites in sequence equal applying all seven to each line in one sweep |
| Markdown.BreakLineWise | Frontend/src/pages/HedgeFund.jsx:103 | on line-feed-only text, replacing line feeds after the line-wise sweep equals joining the rewritten lines with `<br />` |
| Markdown.ParseMarkdownIsLineWise | Frontend/src/pages/HedgeFund.jsx:87-106 | on non-empty line-feed-only text, the renderer strips the fences, renders each line, and joins the lines with `<br />` |
| Markdown.StripFencesKeepsLineFeeds | Frontend/src/pages/HedgeFund.jsx:90 | stripping the fences keeps line-feed-only text line-feed-only |
| Markdown.RenderLineIsRewriteLine | Frontend/src/pages/HedgeFund.jsx:92-101 | the rule order of the page (h3, h2, h1, strong, rule, item, sub-item) is what each line goes through |
| MarkdownLines.Heading3Line | Frontend/src/pages/HedgeFund.jsx:92-94 | a `### ` line becomes exactly one h3 element around its rendered text; the h2 and h1 rules no longer apply to it |
| MarkdownLines.Heading2Line | Frontend/src/pages/HedgeFund.jsx:92-94 | a `## ` line becomes exactly one h2 element; the h3 rule does not take it and the h1 rule no longer applies |
| MarkdownLines.Heading1Line | Frontend/src/pages/HedgeFund.jsx:92-94 | a `# ` line becomes exactly one h1 element; neither deeper heading rule takes it |
| MarkdownLines.ItemLine | Frontend/src/pages/HedgeFund.jsx:100 | a `- ` line becomes one list item around its rendered text |
| MarkdownLines.SubItemLine | Frontend/src/pages/HedgeFund.jsx:101 | a line starting with two spaces and `- ` becomes one nested list item |
| MarkdownLines.RuleLine | Frontend/src/pages/HedgeFund.jsx:98 | a line that is exactly `---` becomes the horizontal rule |
| MarkdownLines.EmphasizePlainPrefix | Frontend/src/pages/HedgeFund.jsx:96 | the strong rewrite only inserts text starting with `<`, so a `<`-free prefix of its output is a prefix of its input, and a `<`-free output is the input unchanged |
| MarkdownLines.ParagraphLine | Frontend/src/pages/HedgeFund.jsx:92-101 | any line that starts with none of `### `, `## `, `# `, `- ` and `  - ` and is not `---`, the empty one included, only has its strong spans rendered |
| MarkdownLines.EmphasizeBetweenTags | Frontend/src/pages/HedgeFund.jsx:92-96 | after a heading rule, the strong rewrite touches only the text inside the tags |
| Workflow.Step | Frontend/src/pages/HedgeFund.jsx:119-249 | a click takes effect exactly in idle, error and completed, clears error and result, and notes whether an interval was running; a reply the handler is not waiting for changes nothing; a rejected submission or purchase fails with the HTTP status and body in the message, and a missing job id with "No job_id received."; a job id moves the handler on to the purchase, and nothing else does; an accepted purchase leaves an interval running and shows error, completed or processing as its first poll throws, completes or neither; processing is entered only through an accepted purchase; a poll is taken only while an interval runs and no request is outstanding, and it shows an exception's message, or the result iff both statuses are `completed` and a result is present; only an accepted purchase starts an interval and only a run that captured a handle stops one |
| Workflow.StopPolling | Frontend/src/pages/HedgeFund.jsx:244-258 | the clear stops the interval exactly when the run captured a handle and changes nothing else |
| Workflow.Fail | Frontend/src/pages/HedgeFund.jsx:241-248 | a caught exception shows its message, sets the status to error and ends the handler, leaving the result as it was, and stops the interval when the run captured a handle |
| Workflow.ApplyPoll | Frontend/src/pages/HedgeFund.jsx:180-235 | a thrown poll shows its message as an error and keeps the result; a completing snapshot shows its result as completed; either stops the interval when the run captured a handle; any other snapshot changes nothing; a poll never touches the pending request |
| Workflow.Completes | Frontend/src/pages/HedgeFund.jsx:217 | the snapshot test: a poll stores its result and shows completed exactly when both statuses are `completed` and a result is present (`Workflow.ApplyPoll`, `Workflow.Step`) |
| Workflow.MissingJobId | Frontend/src/pages/HedgeFund.jsx:166 | `!jobId` for a string field: an absent or empty job id fails the run with "No job_id received.", and any other id moves it on to the purchase (`Workflow.Step`) |
| Workflow.RejectionMessage | Frontend/src/pages/HedgeFund.jsx:161 | the message names the step and carries the HTTP status in decimal and the body; it determines both (`RejectionMessageInjective`), and the two steps' messages never coincide (`RejectionStepsDiffer`) |
| Workflow.Disabled | Frontend/src/pages/HedgeFund.jsx:629 | the button is disabled while loading or processing: a click takes effect exactly in idle, error and completed (`Workflow.Step`) |
| Workflow.Label | Frontend/src/pages/HedgeFund.jsx:648-652 | each status shows one label, and no two statuses share one (`Workflow.LabelsDistinct`) |
| Workflow.SimulatedPoll | Frontend/src/pages/HedgeFund.jsx:182-216 | the fabricated snapshot completes, with the report, exactly when the draw exceeds 0.6 |
| Workflow.LabelsDistinct | Frontend/src/pages/HedgeFund.jsx:648-652 | each status shows its own label, and no two statuses share one |
| WorkflowProperties.InitialInv | Frontend/src/pages/HedgeFund.jsx:56-58 | the first render is idle with no error, no result and no interval |
| WorkflowProperties.StepInv | Frontend/src/pages/HedgeFund.jsx:119-249 | every event keeps the page's shape: a request is outstanding exactly while loading, and meanwhile an interval runs exactly when the run captured its handle; processing has an interval and shows neither error nor result; completed shows a result; error shows a message |
| WorkflowProperties.RunInv | Frontend/src/pages/HedgeFund.jsx:119-249 | every page reachable from the first render has that shape |
| WorkflowProperties.AwaitPurchaseHistory | Frontend/src/pages/HedgeFund.jsx:164-170 | waiting for the purchase reply implies the handler took a job id while waiting for one, and no click since started another run |
| WorkflowProperties.PollingHistory | Frontend/src/pages/HedgeFund.jsx:164-239 | a running poll interval, processing or completed all come only after the handler took a job id and then an ok purchase reply it was waiting for |
| WorkflowProperties.SettledStep | Frontend/src/pages/HedgeFund.jsx:119-249 | a page with no request outstanding and an interval, processing or completed stays so only under events other than an effective click, and is entered only through an ok purchase reply the handler waited for |
| WorkflowProperties.CurrentRunHistory | Frontend/src/pages/HedgeFund.jsx:119-249 | such a page comes from the current run: its job id and ok purchase were taken by the handler, and no click since started another run |
| WorkflowProperties.ProgressNeedsJobAndPurchase | Frontend/src/pages/HedgeFund.jsx:159-177 | processing or completed is reached only after the current run's job id and then its ok purchase, both taken by the handler with no click since: a rejection or a missing job id in the latest run never gets there, whatever earlier runs did |
| WorkflowProperties.FailLeavesNoInterval | Frontend/src/pages/HedgeFund.jsx:241-248 | a request that fails leaves the page in error with no interval running |
| WorkflowProperties.StoppedPageWaitsForClick | Frontend/src/pages/HedgeFund.jsx:119-249 | with no request outstanding and no interval, every event but a click is ignored, so a failed run stays as it is until the button is clicked |
| WorkflowProperties.RejectedSubmissionFails | Frontend/src/pages/HedgeFund.jsx:122-124 | a click answered by a rejected submission ends in error with the status and body in the message, and no result |
| WorkflowProperties.HappyPath | Frontend/src/pages/HedgeFund.jsx:119-237 | a click, a job id, an ok purchase and a completing first poll show the report, with no error; the first run's interval keeps running |
| WorkflowProperties.RetryFailureStopsPolling | Frontend/src/pages/HedgeFund.jsx:241-258 | a second click after the happy path whose submission is rejected ends in error with no report shown and no interval running |
| WorkflowProperties.RejectionMessageInjective | Frontend/src/pages/HedgeFund.jsx:161 | a rejection message determines the HTTP status and the body it was built from |
| WorkflowProperties.RejectionStepsDiffer | Frontend/src/pages/HedgeFund.jsx:161-174 | the submission's and the purchase's rejection messages never coincide |
| Decimal.ValueOfToDecimal | Frontend/src/pages/HedgeFund.jsx:161 | the decimal rendering of the status reads back as the same number |
| Decimal.ToDecimalInjective | Frontend/src/pages/HedgeFund.jsx:174 | distinct statuses render differently |
| Decimal.ToDecimal | Frontend/src/pages/HedgeFund.jsx:161 | `${status}` for a status below 10^21: at least one character, all decimal digits, no leading zero, and it reads back as the number (`Decimal.ValueOfToDecimal`) |
| Decimal.DigitsThenOther | Frontend/src/pages/HedgeFund.jsx:161 | a run of digits followed by a non-digit is fixed by the text, so the status in a message ends where " Response: " starts |

## Left out

- Timers. `setTimeout` in the simulated request and the two-minute
  `setInterval` are host scheduling. In the model, polls are delivered
  only while an interval runs and no request is outstanding. The model
  tracks whether an interval runs, not its handle.
- Stopping the interval follows the handle the handler captured.
  `agentPollingIntervalRef` is React state, so a run and its `pollStatus`
  see the handle from the render in which the button was clicked. On a
  first run that handle is null, so the clears at lines 220-223, 230-233
  and 244-247 do nothing and the interval goes on after completion or an
  error. A later completing snapshot replaces the result, and a later
  thrown poll turns a completed page into an error. A run clicked while
  an interval ran stops it when it fails. The clear itself stops the old
  interval. The null it stores makes the effect at lines 252-258 clear the
  interval that is current. Its own interval stops at its first
  completing or thrown interval poll. The unmount cleanup is not modelled.
- A poll from an earlier run's interval that fires while a later run's
  request is outstanding is not modelled. The same goes for a second click
  that such a poll would allow while the first handler is still running.
  Either case needs two runs of the handler interleaved.
- Randomness is an input. This covers the bytes from
  `window.crypto.getRandomValues`, the `Math.random` draws of the fallback,
  and the completion draw. Draws are real numbers in [0, 1), not IEEE
  doubles, so the product `draw * 256` is exact in the model.
- `Date.now()` timestamps, the simulated response payloads, the request
  payload and the report text are fixture data.
- `simulateApiCall` (lines 135-143) is always called with
  `success = true`, and the simulated reply always carries a job id. So
  the rejection and missing-`job_id` branches cannot be reached in this
  file. The model takes any reply as input, so it covers those branches
  as they would run against a real service.
- HexIdentifier.GenerateRandomHex: gives an identifier for every length.
  `crypto.getRandomValues` throws a QuotaExceededError for an array of
  more than 65536 bytes. The page asks for 6 to 16 bytes, so that error is
  not modelled.
- Decimal.ToDecimal: writes every integer in plain digits. JavaScript
  writes integers of 10^21 and above in exponent form, such as `1e+21`.
  HTTP statuses have three digits, so that form is not modelled.
- Transport failures and failed JSON decoding are left out. A not-ok reply
  is modelled with its status and body; a poll exception is modelled with
  its message.
- `console.log` calls are left out.
- Presentation is left out: style objects, `getButtonStyles`, hover
  handlers, the waiting note under the button, the modal and accordion, and
  the effect that opens the modal when a result arrives.
- The other pages and components are presentation and routing:
  `Agents.jsx`, `RiskManagement.jsx`, `ModernNavbar.jsx`,
  `SolarSystem.jsx`, `RiskWorld.jsx`, `Logo.jsx` and `App.jsx`.
- Markdown.ParseMarkdownIsLineWise: the join-with-`<br />` reading is
  stated for text whose only line terminator is the line feed. With CR,
  U+2028 or U+2029 in the text the rules still work line by line (proved
  by `Markdown.PassesAreLineWise` for every text), but those terminators
  stay in the output instead of becoming `<br />`.
- The HTTP status in a rejection message is modelled as a non-negative
  integer. JavaScript would also render a negative or fractional status,
  but responses do not carry one.
