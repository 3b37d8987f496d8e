/**
 * The SVG icon rule checker: every service's icon is parsed and its root
 * element checked against four house-style rules; the violations of all
 * services are collected in order and reported together.
 */
module SvgIcons {
  import opened Wrappers
  import opened JsStrings
  import opened Dom

  /** One service record: its id (used in messages) and its raw SVG markup. */
  datatype Service = Service(id: string, iconSvg: string)

  /** The XML parser: a document, or None where parsing throws. */
  type Parser = string -> Option<Document>

  /** The four structural rules, declared in the order they are checked. */
  datatype Rule = RootName | Square | Sizing | Fill

  /** Position of a rule in the checking order. */
  function Rank(rule: Rule): nat
  {
    match rule
    case RootName => 0
    case Square => 1
    case Sizing => 2
    case Fill => 3
  }

  /** The rules in checking order. */
  const RuleOrder: seq<Rule> := [RootName, Square, Sizing, Fill]

  /**
   * What a violation of each rule reports: one line of text. The two long
   * texts are written in pieces so that the solver sees each piece is free
   * of newlines; a single long literal is more than it unfolds.
   */
  function Text(rule: Rule): (t: string)
    ensures |t| > 0 && '\n' !in t
  {
    match rule
    case RootName => "Parsed SVG object is undefined"
    case Square => "The icon must have a square shape."
    case Sizing => "Svg tag must not " + "contain 'width' and " + "'height' attributes"
    case Fill => "Svg tag must " + "contain 'fill=\"currentColor\"' " + "attribute."
  }

  /** One rule violation of one service: the message it reports is `Render`ed from it. */
  datatype Violation = Violation(serviceId: string, rule: Rule)

  /** The message text of a violation: the service id, " : ", and the rule's text. */
  function Render(v: Violation): (m: string)
    ensures '\n' in m <==> '\n' in v.serviceId
  {
    v.serviceId + " : " + Text(v.rule)
  }

  /** The messages of a sequence of violations, in the same order. */
  function RenderAll(vs: seq<Violation>): (ms: seq<string>)
    ensures |ms| == |vs|
    ensures forall k :: 0 <= k < |vs| ==> ms[k] == Render(vs[k])
  {
    if vs == [] then [] else [Render(vs[0])] + RenderAll(vs[1..])
  }

  /** The violations of a sequence of rules by the service `id`, in the same order. */
  function Violations(id: string, rules: seq<Rule>): seq<Violation>
  {
    seq(|rules|, k requires 0 <= k < |rules| => Violation(id, rules[k]))
  }

  /** Why a check or the whole validation stops. */
  datatype Fault =
    | ParseError(serviceId: string)      // the parser threw; reported with the service id
    | NoChildNodes                       // `childNodes[0].nodeName` read on a document without children
    | NoDocumentElement                  // `getAttribute` called on a null document element
    | ViewBoxAbsent(serviceId: string)   // the root has no viewBox: the parser's answer is not modelled
    | InvalidIcons(report: string)       // the aggregated report of all rule violations

  /**
   * The message of the error a fault throws, where the source fixes it: the
   * parse error names the service (with the opening quote left unclosed, as
   * in the source) and the aggregated report is its own message. The text of
   * the runtime's TypeErrors and the parser's handling of a missing viewBox
   * are not modelled.
   */
  function ErrorMessage(f: Fault): (m: Option<string>)
    ensures m.Some? <==> f.ParseError? || f.InvalidIcons?
    ensures f.InvalidIcons? ==> m == Some(f.report)
    ensures f.ParseError? ==>
      |f.serviceId| <= |m.value| && m.value[|m.value| - |f.serviceId|..] == f.serviceId
  {
    match f
    case ParseError(id) => Some("Invalid SVG for the service with id: '" + id)
    case InvalidIcons(report) => Some(report)
    case _ => None
  }

  /** The outcome of validating all services. */
  datatype Outcome = Pass | Fail(fault: Fault)

  // ---------------------------------------------------------------------
  // The rules, stated on the parsed document
  // ---------------------------------------------------------------------

  /** A document on which all four rules can be evaluated. */
  predicate Inspectable(doc: Document)
  {
    |doc.childNodes| > 0 && doc.documentElement.Some? &&
    HasAttribute(doc.documentElement.value, "viewBox")
  }

  /** Array indexing in JavaScript: an index past the end gives `undefined`. */
  function TokenAt(tokens: seq<string>, i: nat): Option<string>
  {
    if i < |tokens| then Some(tokens[i]) else None
  }

  /** The viewBox's width and height tokens differ (compared as strings). */
  predicate NotSquare(viewBox: string)
  {
    var tokens := Split(viewBox, ' ');
    TokenAt(tokens, 2) != TokenAt(tokens, 3)
  }

  /** Whether `doc` violates `rule`. */
  predicate Fails(rule: Rule, doc: Document)
    requires Inspectable(doc)
  {
    var root := doc.documentElement.value;
    match rule
    case RootName => doc.childNodes[0].nodeName != Some("svg")
    case Square => NotSquare(GetAttribute(root, "viewBox").value)
    case Sizing => HasAttribute(root, "height") || HasAttribute(root, "width")
    case Fill => !HasAttribute(root, "fill") || GetAttribute(root, "fill").value != "currentColor"
  }

  /** The rules of `rules` that `doc` violates, in their order in `rules`. */
  function Failing(doc: Document, rules: seq<Rule>): (r: seq<Rule>)
    requires Inspectable(doc)
    ensures |r| <= |rules|
    ensures forall x :: x in r <==> x in rules && Fails(x, doc)
  {
    if rules == [] then []
    else if Fails(rules[0], doc) then [rules[0]] + Failing(doc, rules[1..])
    else Failing(doc, rules[1..])
  }

  /** The outcome of `checkSVG` on one icon. */
  function CheckSpec(parse: Parser, svgIcon: string, serviceId: string): Result<seq<Violation>, Fault>
  {
    match parse(svgIcon)
    case None => Err(ParseError(serviceId))
    case Some(doc) =>
      if |doc.childNodes| == 0 then Err(NoChildNodes)
      else if doc.documentElement.None? then Err(NoDocumentElement)
      else if !HasAttribute(doc.documentElement.value, "viewBox") then Err(ViewBoxAbsent(serviceId))
      else Ok(Violations(serviceId, Failing(doc, RuleOrder)))
  }

  /** A check of one service record. */
  type Check = Service -> Result<seq<Violation>, Fault>

  /** `checkSVG` applied to a service record's icon and id. */
  function Checker(parse: Parser): Check
  {
    (s: Service) => CheckSpec(parse, s.iconSvg, s.id)
  }

  /** Running two steps one after the other: the first error stops, messages accumulate. */
  function Then(a: Result<seq<Violation>, Fault>, b: Result<seq<Violation>, Fault>): Result<seq<Violation>, Fault>
  {
    match a
    case Err(f) => Err(f)
    case Ok(x) =>
      match b
      case Err(g) => Err(g)
      case Ok(y) => Ok(x + y)
  }

  /** The messages of all services in order, or the first fault. */
  function Collect(check: Check, services: seq<Service>): Result<seq<Violation>, Fault>
  {
    if services == [] then Ok([])
    else Then(check(services[0]), Collect(check, services[1..]))
  }

  /** The outcome of `validateSvgIcons`. */
  function ValidateSpec(parse: Parser, services: seq<Service>): Outcome
  {
    match Collect(Checker(parse), services)
    case Err(f) => Fail(f)
    case Ok(reports) =>
      if reports == [] then Pass else Fail(InvalidIcons("\n" + Join(RenderAll(reports), '\n')))
  }

  /** Number of messages the services' checks produce. */
  function TotalCount(check: Check, services: seq<Service>): nat
  {
    if services == [] then 0
    else
      (match check(services[0]) case Ok(ms) => |ms| case Err(_) => 0)
      + TotalCount(check, services[1..])
  }

  // ---------------------------------------------------------------------
  // The operations
  // ---------------------------------------------------------------------

  /** `parseSVG`: the parsed document, or a parse error naming the service. */
  method ParseSvg(parse: Parser, svgIcon: string, serviceId: string) returns (r: Result<Document, Fault>)
    ensures r.Ok? <==> parse(svgIcon).Some?
    ensures r.Ok? ==> r.value == parse(svgIcon).value
    ensures r.Err? ==> r.error == ParseError(serviceId)
  {
    var parsed := parse(svgIcon);
    if parsed.None? {
      return Err(ParseError(serviceId));
    }
    return Ok(parsed.value);
  }

  /** `checkSVG`: the four rules applied in order to one icon. */
  method CheckSvg(parse: Parser, svgIcon: string, serviceId: string) returns (r: Result<seq<Violation>, Fault>)
    ensures r == CheckSpec(parse, svgIcon, serviceId)
  {
    var svgErrors: seq<Violation> := [];
    var parsed := ParseSvg(parse, svgIcon, serviceId);
    if parsed.Err? {
      return Err(parsed.error);
    }
    var svgNode := parsed.value;
    if |svgNode.childNodes| == 0 {
      return Err(NoChildNodes);
    }
    var name := svgNode.childNodes[0].nodeName;
    if name.None? || name.value != "svg" {
      svgErrors := svgErrors + [Violation(serviceId, RootName)];
    }
    if svgNode.documentElement.None? {
      return Err(NoDocumentElement);
    }
    var svgDocumentElement := svgNode.documentElement.value;
    var viewBox := GetAttribute(svgDocumentElement, "viewBox");
    if viewBox.None? {
      return Err(ViewBoxAbsent(serviceId));
    }
    // From here on every rule can be evaluated; after each step svgErrors
    // holds the violations of the rules checked so far.
    RuleStep(svgNode, serviceId, 0, RootName, [], svgErrors != []);
    var svgViewBox := Split(viewBox.value, ' ');
    var notSquare := TokenAt(svgViewBox, 2) != TokenAt(svgViewBox, 3);
    RuleStep(svgNode, serviceId, 1, Square, svgErrors, notSquare);
    if notSquare {
      svgErrors := svgErrors + [Violation(serviceId, Square)];
    }
    var sized := HasAttribute(svgDocumentElement, "height") || HasAttribute(svgDocumentElement, "width");
    RuleStep(svgNode, serviceId, 2, Sizing, svgErrors, sized);
    if sized {
      svgErrors := svgErrors + [Violation(serviceId, Sizing)];
    }
    var unthemed := !HasAttribute(svgDocumentElement, "fill") || GetAttribute(svgDocumentElement, "fill").value != "currentColor";
    RuleStep(svgNode, serviceId, 3, Fill, svgErrors, unthemed);
    if unthemed {
      svgErrors := svgErrors + [Violation(serviceId, Fill)];
    }
    assert RuleOrder[..4] == RuleOrder;
    return Ok(svgErrors);
  }

  /** `validateSvgIcons`: check every service in order, then pass or fail once. */
  method ValidateSvgIcons(parse: Parser, services: seq<Service>) returns (r: Outcome)
    ensures r == ValidateSpec(parse, services)
  {
    var errorReports: seq<Violation> := [];
    var i := 0;
    while i < |services|
      invariant 0 <= i <= |services|
      invariant Collect(Checker(parse), services[..i]) == Ok(errorReports)
    {
      var errors := CheckSvg(parse, services[i].iconSvg, services[i].id);
      assert errors == Checker(parse)(services[i]);
      CollectSnoc(Checker(parse), services[..i], services[i]);
      assert services[..i + 1] == services[..i] + [services[i]];
      if errors.Err? {
        CollectConcat(Checker(parse), services[..i + 1], services[i + 1..]);
        assert services[..i + 1] + services[i + 1..] == services;
        return Fail(errors.error);
      }
      if |errors.value| > 0 {
        errorReports := errorReports + errors.value;
      } else {
        assert errorReports + errors.value == errorReports;
      }
      i := i + 1;
    }
    assert services[..i] == services;
    if |errorReports| > 0 {
      return Fail(InvalidIcons("\n" + Join(RenderAll(errorReports), '\n')));
    }
    return Pass;
  }

  // ---------------------------------------------------------------------
  // Properties of one check
  // ---------------------------------------------------------------------

  /** Filtering one more rule appends it exactly when it fails. */
  lemma {:induction false} FailingSnoc(doc: Document, rules: seq<Rule>, rule: Rule)
    requires Inspectable(doc)
    ensures Failing(doc, rules + [rule]) == Failing(doc, rules) + (if Fails(rule, doc) then [rule] else [])
  {
    if rules == [] {
      assert [rule][1..] == [];
    } else {
      assert (rules + [rule])[0] == rules[0];
      assert (rules + [rule])[1..] == rules[1..] + [rule];
      FailingSnoc(doc, rules[1..], rule);
    }
  }

  /** The failing rules among the first `k + 1` rules of the checking order. */
  lemma {:induction false} FailingStep(doc: Document, k: nat)
    requires Inspectable(doc) && k < |RuleOrder|
    ensures Fails(RuleOrder[k], doc) ==> Failing(doc, RuleOrder[..k + 1]) == Failing(doc, RuleOrder[..k]) + [RuleOrder[k]]
    ensures !Fails(RuleOrder[k], doc) ==> Failing(doc, RuleOrder[..k + 1]) == Failing(doc, RuleOrder[..k])
  {
    assert RuleOrder[..k + 1] == RuleOrder[..k] + [RuleOrder[k]];
    FailingSnoc(doc, RuleOrder[..k], RuleOrder[k]);
    assert Failing(doc, RuleOrder[..k]) + [] == Failing(doc, RuleOrder[..k]);
  }

  /**
   * One step of `checkSVG`: given the violations of the first `k` rules,
   * checking rule `k` appends its violation exactly when it fails.
   */
  lemma {:induction false} RuleStep(doc: Document, id: string, k: nat, rule: Rule, soFar: seq<Violation>, bad: bool)
    requires Inspectable(doc) && k < |RuleOrder| && RuleOrder[k] == rule
    requires soFar == Violations(id, Failing(doc, RuleOrder[..k]))
    requires bad == Fails(rule, doc)
    ensures (if bad then soFar + [Violation(id, rule)] else soFar) == Violations(id, Failing(doc, RuleOrder[..k + 1]))
  {
    FailingStep(doc, k);
    if bad {
      ViolationsSnoc(id, Failing(doc, RuleOrder[..k]), rule);
    }
  }

  /** The violations of one more rule end with that rule's violation. */
  lemma {:induction false} ViolationsSnoc(id: string, rules: seq<Rule>, rule: Rule)
    ensures Violations(id, rules + [rule]) == Violations(id, rules) + [Violation(id, rule)]
  {
  }

  /** Filtering keeps the order: from rank-ordered rules the failing ones come out rank-ordered. */
  lemma {:induction false} FailingOrdered(doc: Document, rules: seq<Rule>)
    requires Inspectable(doc)
    requires forall i, j :: 0 <= i < j < |rules| ==> Rank(rules[i]) < Rank(rules[j])
    ensures forall i, j :: 0 <= i < j < |Failing(doc, rules)| ==>
      Rank(Failing(doc, rules)[i]) < Rank(Failing(doc, rules)[j])
  {
    if rules != [] {
      FailingOrdered(doc, rules[1..]);
      var tail := Failing(doc, rules[1..]);
      forall x | x in tail ensures Rank(rules[0]) < Rank(x) {
        var k :| 0 <= k < |rules[1..]| && rules[1..][k] == x;
        assert rules[k + 1] == x;
      }
    }
  }

  /** For one service, violations of different rules render to different messages. */
  lemma {:induction false} RenderInjective(a: Violation, b: Violation)
    requires a.serviceId == b.serviceId && Render(a) == Render(b)
    ensures a == b
  {
    var n := |a.serviceId + " : "|;
    assert Render(a)[n..] == Text(a.rule);
    assert Render(b)[n..] == Text(b.rule);
    assert |Text(RootName)| == 30 && |Text(Square)| == 34;
    assert |Text(Sizing)| == 56 && |Text(Fill)| == 53;
  }

  /** Every message starts with the service id followed by " : ". */
  lemma {:induction false} RenderPrefix(v: Violation)
    ensures |v.serviceId| + 3 <= |Render(v)|
    ensures Render(v)[..|v.serviceId| + 3] == v.serviceId + " : "
  {
    assert Render(v) == (v.serviceId + " : ") + Text(v.rule);
  }

  /**
   * The violations of one successful check: at most four, all of this
   * service, in checking order with no rule twice, and rendering to
   * pairwise different messages that start with the service id and " : ".
   */
  lemma {:induction false} CheckViolationsShape(parse: Parser, svgIcon: string, serviceId: string, vs: seq<Violation>)
    requires CheckSpec(parse, svgIcon, serviceId) == Ok(vs)
    ensures |vs| <= 4
    ensures forall k :: 0 <= k < |vs| ==> vs[k].serviceId == serviceId
    ensures forall i, j :: 0 <= i < j < |vs| ==> Rank(vs[i].rule) < Rank(vs[j].rule)
    ensures forall i, j :: 0 <= i < j < |vs| ==> Render(vs[i]) != Render(vs[j])
    ensures forall k :: 0 <= k < |vs| ==>
      |serviceId| + 3 <= |Render(vs[k])| && Render(vs[k])[..|serviceId| + 3] == serviceId + " : "
  {
    var doc := parse(svgIcon).value;
    FailingOrdered(doc, RuleOrder);
    forall i, j | 0 <= i < j < |vs| ensures Render(vs[i]) != Render(vs[j]) {
      if Render(vs[i]) == Render(vs[j]) {
        RenderInjective(vs[i], vs[j]);
      }
    }
    forall k | 0 <= k < |vs|
      ensures |serviceId| + 3 <= |Render(vs[k])| && Render(vs[k])[..|serviceId| + 3] == serviceId + " : "
    {
      RenderPrefix(vs[k]);
    }
  }

  /** A rule is reported for a checked document exactly when the document fails it. */
  lemma {:induction false} ViolationIffFails(serviceId: string, doc: Document, rule: Rule)
    requires Inspectable(doc)
    ensures Violation(serviceId, rule) in Violations(serviceId, Failing(doc, RuleOrder)) <==> Fails(rule, doc)
  {
    var rules := Failing(doc, RuleOrder);
    var vs := Violations(serviceId, rules);
    if Violation(serviceId, rule) in vs {
      var k :| 0 <= k < |vs| && vs[k] == Violation(serviceId, rule);
      assert rules[k] == rule;
    }
    if Fails(rule, doc) {
      assert rule in RuleOrder by { assert RuleOrder[Rank(rule)] == rule; }
      var k :| 0 <= k < |rules| && rules[k] == rule;
      assert vs[k] == Violation(serviceId, rule);
    }
  }

  /**
   * Each rule's violation is reported exactly when the rule is broken,
   * stated on the parsed document in the terms of the checks themselves,
   * and no violation is reported twice.
   */
  lemma {:induction false} CheckViolationIff(parse: Parser, svgIcon: string, serviceId: string, vs: seq<Violation>)
    requires CheckSpec(parse, svgIcon, serviceId) == Ok(vs)
    ensures parse(svgIcon).Some? && Inspectable(parse(svgIcon).value)
    ensures var doc := parse(svgIcon).value;
      (Violation(serviceId, RootName) in vs <==> doc.childNodes[0].nodeName != Some("svg"))
    ensures var root := parse(svgIcon).value.documentElement.value;
      var tokens := Split(GetAttribute(root, "viewBox").value, ' ');
      (Violation(serviceId, Square) in vs <==> TokenAt(tokens, 2) != TokenAt(tokens, 3))
    ensures var root := parse(svgIcon).value.documentElement.value;
      (Violation(serviceId, Sizing) in vs <==> HasAttribute(root, "height") || HasAttribute(root, "width"))
    ensures var root := parse(svgIcon).value.documentElement.value;
      (Violation(serviceId, Fill) in vs <==>
        !HasAttribute(root, "fill") || GetAttribute(root, "fill").value != "currentColor")
    ensures forall i, j :: 0 <= i < j < |vs| ==> vs[i] != vs[j]
  {
    CheckViolationsShape(parse, svgIcon, serviceId, vs);
    var doc := parse(svgIcon).value;
    ViolationIffFails(serviceId, doc, RootName);
    ViolationIffFails(serviceId, doc, Square);
    ViolationIffFails(serviceId, doc, Sizing);
    ViolationIffFails(serviceId, doc, Fill);
  }

  /** A check succeeds with no messages exactly when the icon parses and meets all four rules. */
  lemma {:induction false} CheckPassIff(parse: Parser, svgIcon: string, serviceId: string)
    ensures CheckSpec(parse, svgIcon, serviceId) == Ok([]) <==>
      parse(svgIcon).Some? && Inspectable(parse(svgIcon).value) &&
      forall rule :: !Fails(rule, parse(svgIcon).value)
  {
    if parse(svgIcon).Some? && Inspectable(parse(svgIcon).value) {
      var doc := parse(svgIcon).value;
      var rules := Failing(doc, RuleOrder);
      assert |Violations(serviceId, rules)| == |rules|;
      if rules != [] {
        assert rules[0] in rules;
      }
      forall rule | Fails(rule, doc) ensures rules != [] {
        assert RuleOrder[Rank(rule)] == rule;
        assert rule in rules;
      }
    }
  }

  /** With four space-free tokens, the square rule fails exactly when width and height differ as strings. */
  lemma {:induction false} NotSquareIff(minX: string, minY: string, width: string, height: string)
    requires ' ' !in minX && ' ' !in minY && ' ' !in width && ' ' !in height
    ensures NotSquare(minX + " " + minY + " " + width + " " + height) <==> width != height
  {
    var parts := [minX, minY, width, height];
    var s := minX + " " + minY + " " + width + " " + height;
    var p1, p2, p3 := [minY, width, height], [width, height], [height];
    assert Join(p3, ' ') == height;
    assert p2[1..] == p3 && Join(p2, ' ') == width + [' '] + height;
    assert p1[1..] == p2 && Join(p1, ' ') == minY + [' '] + Join(p2, ' ');
    assert parts[1..] == p1 && Join(parts, ' ') == minX + [' '] + Join(p1, ' ');
    assert s == minX + [' '] + (minY + [' '] + (width + [' '] + height));
    SplitJoin(parts, ' ');
  }

  /** "24" and "24.0" are different strings, so such a viewBox is not square. */
  lemma {:induction false} DecimalTokenIsNotSquare()
    ensures NotSquare("0 0 24 24.0")
  {
    assert "0 0 24 24.0" == "0" + " " + "0" + " " + "24" + " " + "24.0";
    NotSquareIff("0", "0", "24", "24.0");
  }

  /** A viewBox with at most one space has no width or height token and passes the square rule. */
  lemma {:induction false} ShortViewBoxPassesSquare(viewBox: string)
    requires Occurrences(viewBox, ' ') <= 1
    ensures !NotSquare(viewBox)
  {
  }

  /** The example icon: an svg root with viewBox "0 0 10 20" and fill="currentColor". */
  const ExampleIcon := Document([Node(Some("svg"))],
    Some(Element(map["viewBox" := "0 0 10 20", "fill" := "currentColor"])))

  /** The example icon breaks the square rule and no other. */
  lemma {:induction false} ExampleIconRules()
    ensures Inspectable(ExampleIcon)
    ensures !Fails(RootName, ExampleIcon) && Fails(Square, ExampleIcon)
    ensures !Fails(Sizing, ExampleIcon) && !Fails(Fill, ExampleIcon)
  {
    var attrs := ExampleIcon.documentElement.value.attributes;
    assert attrs.Keys == {"viewBox", "fill"};
    assert |"height"| == 6 && |"width"| == 5 && |"fill"| == 4 && |"viewBox"| == 7;
    assert "height" !in attrs.Keys && "width" !in attrs.Keys;
    assert attrs["viewBox"] == "0 0 10 20" && attrs["fill"] == "currentColor";
    assert "0 0 10 20" == "0" + " " + "0" + " " + "10" + " " + "20";
    NotSquareIff("0", "0", "10", "20");
  }

  /** A document that breaks the square rule and no other yields the square violation alone. */
  lemma {:induction false} OnlySquareFails(parse: Parser, svgIcon: string, serviceId: string)
    requires parse(svgIcon).Some? && Inspectable(parse(svgIcon).value)
    requires !Fails(RootName, parse(svgIcon).value) && Fails(Square, parse(svgIcon).value)
    requires !Fails(Sizing, parse(svgIcon).value) && !Fails(Fill, parse(svgIcon).value)
    ensures CheckSpec(parse, svgIcon, serviceId) == Ok([Violation(serviceId, Square)])
  {
    var doc := parse(svgIcon).value;
    assert RuleOrder[..0] == [] && RuleOrder[..4] == RuleOrder;
    assert RuleOrder[0] == RootName && RuleOrder[1] == Square;
    assert RuleOrder[2] == Sizing && RuleOrder[3] == Fill;
    FailingStep(doc, 0);
    FailingStep(doc, 1);
    FailingStep(doc, 2);
    FailingStep(doc, 3);
    assert Failing(doc, RuleOrder[..2]) == [Square];
    assert Failing(doc, RuleOrder) == [Square];
    assert Violations(serviceId, [Square]) == [Violation(serviceId, Square)];
  }

  /** A service whose icon parses to the example icon gets only the square message. */
  lemma {:induction false} NonSquareExample(parse: Parser, svgIcon: string)
    requires parse(svgIcon) == Some(ExampleIcon)
    ensures CheckSpec(parse, svgIcon, "acme") == Ok([Violation("acme", Square)])
  {
    ExampleIconRules();
    OnlySquareFails(parse, svgIcon, "acme");
  }

  /** The square message of the service "acme", rendered. */
  lemma {:induction false} NonSquareExampleText()
    ensures Render(Violation("acme", Square)) == "acme : The icon must have a square shape."
  {
  }

  // ---------------------------------------------------------------------
  // Properties of the validation over all services
  // ---------------------------------------------------------------------

  /** Running three steps does not depend on how they are grouped. */
  lemma {:induction false} ThenAssociative(a: Result<seq<Violation>, Fault>, b: Result<seq<Violation>, Fault>, c: Result<seq<Violation>, Fault>)
    ensures Then(Then(a, b), c) == Then(a, Then(b, c))
  {
    if a.Ok? && b.Ok? && c.Ok? {
      assert (a.value + b.value) + c.value == a.value + (b.value + c.value);
    }
  }

  /**
   * Checking `s + t` is checking `s`, then `t`: messages are concatenated in
   * order, and a fault in `s` stops before `t` is looked at.
   */
  lemma {:induction false} CollectConcat(check: Check, s: seq<Service>, t: seq<Service>)
    ensures Collect(check, s + t) == Then(Collect(check, s), Collect(check, t))
  {
    if s == [] {
      assert s + t == t;
      var c := Collect(check, t);
      if c.Ok? { assert [] + c.value == c.value; }
    } else {
      assert (s + t)[0] == s[0];
      assert (s + t)[1..] == s[1..] + t;
      CollectConcat(check, s[1..], t);
      ThenAssociative(check(s[0]), Collect(check, s[1..]), Collect(check, t));
    }
  }

  /** Checking one more service appends its violations, or stops with its fault. */
  lemma {:induction false} CollectSnoc(check: Check, services: seq<Service>, x: Service)
    ensures Collect(check, services + [x]) == Then(Collect(check, services), check(x))
  {
    CollectConcat(check, services, [x]);
    assert [x][1..] == [];
    var c := check(x);
    if c.Ok? {
      assert c.value + [] == c.value;
    }
  }

  /** All services are checked to completion exactly when none of their checks faults. */
  lemma {:induction false} CollectOkIff(check: Check, services: seq<Service>)
    ensures Collect(check, services).Ok? <==>
      forall i :: 0 <= i < |services| ==> check(services[i]).Ok?
  {
    if services != [] {
      CollectOkIff(check, services[1..]);
      assert forall i :: 1 <= i < |services| ==> services[i] == services[1..][i - 1];
    }
  }

  /**
   * The first service whose check faults decides the outcome: validation
   * fails with that fault, and the services after it play no part.
   */
  lemma {:induction false} CollectStopsAtFirstFault(check: Check, services: seq<Service>, i: nat)
    requires i < |services| && check(services[i]).Err?
    requires forall j :: 0 <= j < i ==> check(services[j]).Ok?
    ensures Collect(check, services) == check(services[i])
  {
    var pre := services[..i];
    CollectOkIff(check, pre);
    CollectConcat(check, pre, [services[i]]);
    CollectConcat(check, pre + [services[i]], services[i + 1..]);
    assert pre + [services[i]] + services[i + 1..] == services;
  }

  /**
   * Where each service's messages land in the report: after those of the
   * services before it and before those of the services after it.
   */
  lemma {:induction false} CollectPlacement(check: Check, services: seq<Service>, i: nat)
    requires i < |services| && Collect(check, services).Ok?
    ensures Collect(check, services[..i]).Ok? && check(services[i]).Ok? &&
      Collect(check, services[i + 1..]).Ok?
    ensures Collect(check, services).value ==
      Collect(check, services[..i]).value + check(services[i]).value +
      Collect(check, services[i + 1..]).value
  {
    var pre, x, post := services[..i], services[i], services[i + 1..];
    assert services == pre + ([x] + post);
    CollectConcat(check, pre, [x] + post);
    assert ([x] + post)[0] == x && ([x] + post)[1..] == post;
    var a, b, c := Collect(check, pre), check(x), Collect(check, post);
    assert Collect(check, [x] + post) == Then(b, c);
    assert Collect(check, services) == Then(a, Then(b, c));
    assert a.value + (b.value + c.value) == a.value + b.value + c.value;
  }

  /**
   * An icon that does not parse stops the validation at once, unless an
   * earlier check already stopped it: the error names that service, and
   * no violation found before it is reported.
   */
  lemma {:induction false} ParseFailureStops(parse: Parser, services: seq<Service>, i: nat)
    requires i < |services| && parse(services[i].iconSvg).None?
    requires forall j :: 0 <= j < i ==> Checker(parse)(services[j]).Ok?
    ensures ValidateSpec(parse, services) == Fail(ParseError(services[i].id))
    ensures ErrorMessage(ValidateSpec(parse, services).fault) ==
      Some("Invalid SVG for the service with id: '" + services[i].id)
  {
    CollectStopsAtFirstFault(Checker(parse), services, i);
  }

  /** The report holds exactly as many messages as the checks produce together. */
  lemma {:induction false} CollectLength(check: Check, services: seq<Service>)
    requires Collect(check, services).Ok?
    ensures |Collect(check, services).value| == TotalCount(check, services)
  {
    if services != [] {
      CollectLength(check, services[1..]);
    }
  }

  /** Validation passes exactly when every service's check succeeds with no messages. */
  lemma {:induction false} ValidatePassIff(parse: Parser, services: seq<Service>)
    ensures ValidateSpec(parse, services) == Pass <==>
      forall i :: 0 <= i < |services| ==> Checker(parse)(services[i]) == Ok([])
  {
    if services != [] {
      ValidatePassIff(parse, services[1..]);
      assert forall i :: 1 <= i < |services| ==> services[i] == services[1..][i - 1];
    }
  }

  /**
   * A fault that stops the collection is the result of one service's check,
   * the first one that faults.
   */
  lemma {:induction false} CollectFaultFromService(check: Check, services: seq<Service>)
    ensures Collect(check, services).Err? ==>
      exists i :: 0 <= i < |services| && check(services[i]) == Collect(check, services) &&
        forall j :: 0 <= j < i ==> check(services[j]).Ok?
  {
    if services != [] && Collect(check, services).Err? {
      if check(services[0]).Ok? {
        CollectFaultFromService(check, services[1..]);
        var i :| 0 <= i < |services[1..]| && check(services[1..][i]) == Collect(check, services[1..]) &&
          forall j :: 0 <= j < i ==> check(services[1..][j]).Ok?;
        assert services[1..][i] == services[i + 1];
        assert forall j :: 1 <= j < i + 1 ==> services[j] == services[1..][j - 1];
      } else {
        assert check(services[0]) == Collect(check, services);
      }
    }
  }

  /**
   * A fault that stops validation is one service's check result, never the
   * aggregated report.
   */
  lemma {:induction false} CollectFaultIsPerService(parse: Parser, services: seq<Service>)
    ensures Collect(Checker(parse), services).Err? ==>
      exists i :: 0 <= i < |services| && Checker(parse)(services[i]) == Collect(Checker(parse), services) &&
        forall j :: 0 <= j < i ==> Checker(parse)(services[j]).Ok?
    ensures Collect(Checker(parse), services).Err? ==> !Collect(Checker(parse), services).error.InvalidIcons?
  {
    CollectFaultFromService(Checker(parse), services);
    if Collect(Checker(parse), services).Err? {
      var i :| 0 <= i < |services| && Checker(parse)(services[i]) == Collect(Checker(parse), services);
    }
  }

  /** The collected violations are those of the services' own ids. */
  lemma {:induction false} CollectIds(parse: Parser, services: seq<Service>)
    requires Collect(Checker(parse), services).Ok?
    ensures forall k :: 0 <= k < |Collect(Checker(parse), services).value| ==>
      exists i :: 0 <= i < |services| && Collect(Checker(parse), services).value[k].serviceId == services[i].id
  {
    if services != [] {
      CollectIds(parse, services[1..]);
      var vs: seq<Violation> := Checker(parse)(services[0]).value;
      var rest: seq<Violation> := Collect(Checker(parse), services[1..]).value;
      CheckViolationsShape(parse, services[0].iconSvg, services[0].id, vs);
      forall k | 0 <= k < |vs + rest|
        ensures exists i :: 0 <= i < |services| && (vs + rest)[k].serviceId == services[i].id
      {
        if k < |vs| {
          assert (vs + rest)[k].serviceId == services[0].id;
        } else {
          assert (vs + rest)[k] == rest[k - |vs|];
          var i :| 0 <= i < |services[1..]| && rest[k - |vs|].serviceId == services[1..][i].id;
          assert services[1..][i] == services[i + 1];
        }
      }
    }
  }

  /** Validation fails with the aggregated report exactly when every check completes and some violation is found. */
  lemma {:induction false} ReportIff(parse: Parser, services: seq<Service>)
    ensures (ValidateSpec(parse, services).Fail? && ValidateSpec(parse, services).fault.InvalidIcons?) <==>
      (Collect(Checker(parse), services).Ok? && Collect(Checker(parse), services).value != [])
  {
    CollectFaultIsPerService(parse, services);
  }

  /**
   * The aggregated report is a newline followed by the messages joined by
   * newlines, so, where no service id contains a newline, splitting it on
   * newlines gives back every message, in order.
   */
  lemma {:induction false} ReportRoundTrip(parse: Parser, services: seq<Service>, vs: seq<Violation>)
    requires forall i :: 0 <= i < |services| ==> '\n' !in services[i].id
    requires Collect(Checker(parse), services) == Ok(vs) && vs != []
    ensures ValidateSpec(parse, services).Fail? && ValidateSpec(parse, services).fault.InvalidIcons?
    ensures var report := ValidateSpec(parse, services).fault.report;
      |report| > 0 && report[0] == '\n' && Split(report[1..], '\n') == RenderAll(vs)
  {
    var ms := RenderAll(vs);
    CollectIds(parse, services);
    forall k | 0 <= k < |ms| ensures '\n' !in ms[k] {
      var i :| 0 <= i < |services| && vs[k].serviceId == services[i].id;
      assert ms[k] == Render(vs[k]);
    }
    SplitJoin(ms, '\n');
    var report := ValidateSpec(parse, services).fault.report;
    assert report == "\n" + Join(ms, '\n');
    assert report[1..] == Join(ms, '\n');
  }
}
