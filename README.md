# SVG icon rule checker

This project models the icon validator of the blocked-services registry build
script (`scripts/services/validate-svg-icons.js`). Each service record
carries an `id` and raw SVG markup in `icon_svg`. The validator parses each
icon and applies four house-style rules to the result, in a fixed order:

1. the document's first child node is named `svg`;
2. the `viewBox` is square: after splitting the attribute on the single
   character `' '`, token 2 (width) and token 3 (height) are the same string;
3. the root element has neither a `width` nor a `height` attribute;
4. the root element's `fill` is exactly `currentColor`.

Each broken rule adds one message `"<id> : <text>"`. All services are checked
in order and their messages are concatenated. If there is any message,
validation fails once, with `"\n"` followed by the messages joined with
`"\n"`. If an icon does not parse, validation stops at once with an error
naming that service, and no messages are reported.

Modules:

- `Wrappers` (`wrappers.dfy`): `Option` and `Result`.
- `JsStrings` (`js_strings.dfy`): JavaScript's `split` and `join` for a
  one-character separator, with the round-trip lemmas between them.
- `Dom` (`dom.dfy`): the parts of a parsed document that the checks read:
  `childNodes` (each with a possibly undefined `nodeName`), and
  `documentElement` (possibly null) with its attributes as a map.
  `hasAttribute` is `in`; `getAttribute` is a map lookup returning an `Option`.
- `SvgIcons` (`svg_icons.dfy`): the rules, `parseSVG`, `checkSVG` and
  `validateSvgIcons`.

Modelling choices:

- The parser is a parameter `parse: string -> Option<Document>`. `None` means
  the parser threw.
- The three source functions are methods (`ParseSvg`, `CheckSvg`,
  `ValidateSvgIcons`). `CheckSvg` and `ValidateSvgIcons` build their lists
  step by step, as the source does, and are proved equal to the
  specification functions `CheckSpec` and `ValidateSpec`. The properties are
  lemmas about those functions. `ParseSvg` is proved to return the parser's
  document, or a parse error naming the service.
- `CheckSpec` is defined independently of the method's sequence of `if`s.
  It filters the list of rules in checking order down to the failing ones
  (`Failing`).
- A message is kept as a `Violation(serviceId, rule)` value. `Render` turns it
  into the source's exact text, `id + " : " + Text(rule)`. The thrown report
  is built from the rendered strings.
- JavaScript errors that the source does not catch become `Fault` values that
  stop validation at once:
  - `ParseError(id)`: the parse step threw.
  - `NoChildNodes`: `childNodes[0].nodeName` was read on a document with no
    children.
  - `NoDocumentElement`: `getAttribute` was called on a null document element.
  - `InvalidIcons(report)`: the aggregated failure.
  - `ViewBoxAbsent(id)`: see "Left out".
- Reading a viewBox token past the end of the split gives `undefined` in
  JavaScript; here it gives `None` (`TokenAt`). So two missing tokens compare
  equal, and one missing token differs from a present one.

Behaviour of the code that is easy to misread:

- The code checks the name of the document's first child node, not the
  document element's tag.
- A wrong root name is one aggregated message; it is not a parse fault.
- The viewBox is split on a single space, not on any whitespace.
- A missing viewBox is not treated as a square-rule failure.

## Model

| member | source | states |
|---|---|---|
| `SvgIcons.ParseSvg` | scripts/services/validate-svg-icons.js:11-19 | The result is the parsed document exactly when the parser succeeds. Otherwise it is a parse error carrying the service id. |
| `SvgIcons.ErrorMessage` | scripts/services/validate-svg-icons.js:17 | Only the parse error and the aggregated failure have a message text fixed by the code. The parse error's message ends with the service id. The aggregated failure's message is its report. |
| `SvgIcons.CheckSvg` | scripts/services/validate-svg-icons.js:28-55 | The sequence of `if`/`push` steps gives exactly `CheckSpec`. That is either a fault at the first failing access, or the violations of the failing rules, filtered from the rule list in checking order. |
| `SvgIcons.ValidateSvgIcons` | scripts/services/validate-svg-icons.js:64-77 | The `forEach` loop with in-place appends, then the conditional throw, gives exactly `ValidateSpec`. That is: the first fault, else pass when there are no messages, else one failure whose report is `"\n"` followed by all messages joined with `"\n"`. |
| `SvgIcons.Failing` | scripts/services/validate-svg-icons.js:32-53 | Filtering keeps a rule iff it is in the list and the document breaks it. The result is no longer than the rule list. |
| `SvgIcons.FailingOrdered` | scripts/services/validate-svg-icons.js:32-53 | Failing rules keep their relative order: if the input is in checking order, so is the output. |
| `SvgIcons.CheckViolationsShape` | scripts/services/validate-svg-icons.js:28-55 | One check gives at most 4 messages. All belong to this service and come in rule order with no rule twice. They render to pairwise different strings, each starting with `serviceId + " : "`. |
| `SvgIcons.ViolationIffFails` | scripts/services/validate-svg-icons.js:30-54 | A rule's violation is in a check's result iff the document breaks that rule. |
| `SvgIcons.CheckViolationIff` | scripts/services/validate-svg-icons.js:34-53 | Each rule's message is present iff its condition holds. Root name: the first child's name is missing or not `svg`. Square: tokens 2 and 3 of the ' '-split viewBox differ. Sizing: `height` or `width` is present. Fill: `fill` is absent or not exactly `currentColor`. No violation appears twice, so there is one sizing message even when both attributes are present. |
| `SvgIcons.TokenAt` | scripts/services/validate-svg-icons.js:41 | Defines array indexing with JavaScript's `undefined` past the end: `None` there, the token otherwise. It has no contract of its own. The square rule is stated through it in `SvgIcons.CheckViolationIff` and `SvgIcons.ShortViewBoxPassesSquare`. |
| `SvgIcons.Text` | scripts/services/validate-svg-icons.js:35-52 | Each rule's message text is non-empty and holds no newline, so every message is one line of the report. |
| `SvgIcons.Render` | scripts/services/validate-svg-icons.js:35-52 | A message `id + " : " + text` contains a newline iff the service id does. |
| `SvgIcons.CheckPassIff` | scripts/services/validate-svg-icons.js:28-55 | A check returns no messages iff the icon parses, can be inspected, and meets all four rules. |
| `SvgIcons.RenderInjective` | scripts/services/validate-svg-icons.js:35-52 | For one service, different rules render to different message strings. |
| `SvgIcons.RenderPrefix` | scripts/services/validate-svg-icons.js:35-52 | Every message starts with the service id followed by `" : "`. |
| `SvgIcons.NotSquareIff` | scripts/services/validate-svg-icons.js:40-43 | For a viewBox of four space-free tokens, the square rule fails iff width and height differ as strings. |
| `SvgIcons.DecimalTokenIsNotSquare` | scripts/services/validate-svg-icons.js:40-43 | `"0 0 24 24.0"` breaks the square rule, because the tokens are compared as strings and not as numbers. |
| `SvgIcons.ShortViewBoxPassesSquare` | scripts/services/validate-svg-icons.js:40-43 | A viewBox with at most one space has no width or height token, and it passes the square rule. |
| `SvgIcons.ExampleIconRules` | scripts/services/validate-svg-icons.js:34-53 | An `svg` root with viewBox `"0 0 10 20"` and `fill="currentColor"` breaks the square rule and no other rule. |
| `SvgIcons.OnlySquareFails` | scripts/services/validate-svg-icons.js:28-55 | A document that breaks only the square rule gives exactly one violation, the square one. |
| `SvgIcons.NonSquareExample` | scripts/services/validate-svg-icons.js:28-55 | Service `acme` with that example icon gets exactly the square violation. |
| `SvgIcons.NonSquareExampleText` | scripts/services/validate-svg-icons.js:42 | That violation renders as `"acme : The icon must have a square shape."`. |
| `SvgIcons.CollectConcat` | scripts/services/validate-svg-icons.js:68-73 | Checking `s + t` means checking `s` and then `t`. The messages are concatenated in order, and a fault in `s` stops before `t` is checked. |
| `SvgIcons.CollectSnoc` | scripts/services/validate-svg-icons.js:68-73 | One more loop iteration either appends that service's messages or stops with its fault. |
| `SvgIcons.CollectOkIff` | scripts/services/validate-svg-icons.js:68-73 | Every service is checked to the end iff no service's check faults. |
| `SvgIcons.CollectStopsAtFirstFault` | scripts/services/validate-svg-icons.js:64-73 | The first service whose check faults decides the outcome. The services after it play no part. |
| `SvgIcons.ParseFailureStops` | scripts/services/validate-svg-icons.js:11-19 | An unparsable icon, with only successful checks before it, fails the validation with a parse error naming that service. The message is `"Invalid SVG for the service with id: '" + id`. Earlier messages are not reported. |
| `SvgIcons.CollectPlacement` | scripts/services/validate-svg-icons.js:68-73 | Each service's messages sit in the report after those of the services before it and before those of the services after it. Nothing is dropped or reordered. |
| `SvgIcons.CollectLength` | scripts/services/validate-svg-icons.js:66-73 | The number of collected messages is the sum of the per-service message counts. |
| `SvgIcons.ValidatePassIff` | scripts/services/validate-svg-icons.js:64-77 | Validation passes iff every service's check returns no messages, so success never depends on other records. |
| `SvgIcons.CollectFaultFromService` | scripts/services/validate-svg-icons.js:68-73 | For any per-service check, a fault that stops the collection is the result of one service's check, the first one that faults. |
| `SvgIcons.CollectFaultIsPerService` | scripts/services/validate-svg-icons.js:64-77 | A fault that stops validation is exactly the check result of one service, the first to fault. It is never the aggregated report. |
| `SvgIcons.CollectIds` | scripts/services/validate-svg-icons.js:68-73 | Every collected violation carries the id of one of the services. |
| `SvgIcons.ReportIff` | scripts/services/validate-svg-icons.js:74-76 | Validation fails with the aggregated report iff every check completes and at least one message exists. |
| `SvgIcons.ReportRoundTrip` | scripts/services/validate-svg-icons.js:75 | The report starts with `"\n"`. If no id contains a newline, splitting the rest of the report on `"\n"` gives back every rendered message, in order. |
| `JsStrings.Split` | scripts/services/validate-svg-icons.js:40 | `split` with a one-character separator gives one more token than there are separators, and no token contains the separator. |
| `JsStrings.JoinSplit` | scripts/services/validate-svg-icons.js:40 | Joining the tokens of a split gives back the original string. |
| `JsStrings.Join` | scripts/services/validate-svg-icons.js:75 | `join` of no parts is the empty string. A join of one or more separator-free parts holds exactly one separator fewer than there are parts. |
| `JsStrings.SplitWithoutSeparator` | scripts/services/validate-svg-icons.js:40 | A string without the separator splits into itself alone. |
| `JsStrings.SplitAfterToken` | scripts/services/validate-svg-icons.js:40 | A separator-free prefix followed by the separator comes off as the first token. |
| `JsStrings.SplitJoin` | scripts/services/validate-svg-icons.js:75 | Splitting a `join` of one or more separator-free parts gives back exactly those parts. |
| `Dom.HasAttribute` | scripts/services/validate-svg-icons.js:46-51 | Defines `hasAttribute(name)` as membership of the name among the element's attributes; it carries no contract of its own. The sizing and fill rules are stated through it in `SvgIcons.CheckViolationIff`. |

## Left out

- The XML parser (`DOMParser` of xmldom) is a foreign library. It is the
  parameter `parse`, and its inner workings are not modelled.
- A missing `viewBox`: the source calls `.split` on whatever xmldom's
  `getAttribute` returns, and that library is not part of this model. The
  check stops with the outcome `ViewBoxAbsent(id)`, and validation is taken to
  stop there too. The model makes no claim about what the real run does next.
- The TypeErrors thrown for a document without child nodes or without a
  document element carry no message text here. Their text comes from the
  JavaScript engine.
- Ids and icons are strings. The source would also accept a missing `id`,
  which template strings render as `"undefined"`; the model does not cover
  that case.
- `ReportRoundTrip`: it assumes no service id contains a newline. A newline
  inside an id would split one message into two lines of the report.
- `scripts/services/rewrite-services-json.js` is not part of this model. It is
  file reading, YAML parsing, JSON writing, and an `Array.prototype.sort()`
  without a comparator. The meaning of that sort depends on the JavaScript
  engine, not on the repository's own logic.
- `Error` objects are modelled only by their message text.
