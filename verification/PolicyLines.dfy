/**
  What a policy file says about a route of the document, line by line: roles, verbs in either case, and
  templates in their two spellings.
 */
module PolicyLines {
  import opened Text
  import opened PathPattern
  import opened RouteTemplate
  import opened RoutePolicy

  /** One `p` line, with its object as a template. */
  datatype Line = Line(role: Role, template: seq<Piece>, action: string, effect: Effect, number: nat)

  /** The rule that is read from the line: its object is stored normalised. */
  function RuleOf(line: Line): Rule {
    Rule(line.role, Normalised(PolicySpelling(line.template)), line.action, line.effect, line.number)
  }

  function RulesOf(lines: seq<Line>): (rules: seq<Rule>)
    ensures |rules| == |lines| && forall i :: 0 <= i < |lines| ==> rules[i] == RuleOf(lines[i])
  {
    seq(|lines|, i requires 0 <= i < |lines| => RuleOf(lines[i]))
  }

  predicate WellFormedFile(lines: seq<Line>) {
    forall line :: line in lines ==> WellFormed(line.template)
  }

  /** The action is the verb with its small letters made capital. */
  predicate IsCapitalOf(action: string, verb: string) {
    && |action| == |verb|
    && forall i :: 0 <= i < |verb| ==>
         if 'a' <= verb[i] <= 'z' then action[i] as int == verb[i] as int - 32 else action[i] == verb[i]
  }

  /** The line speaks about this verb on this route. */
  predicate Concerns(line: Line, verb: string, route: seq<Piece>) {
    (line.action == "*" || IsCapitalOf(line.action, verb)) && Covers(line.template, route)
  }

  lemma CapitalIsUpper(action: string, verb: string)
    ensures action == Upper(verb) <==> IsCapitalOf(action, verb)
  {
  }

  lemma {:induction false} GovernsExactly(line: Line, verb: string, route: seq<Piece>)
    requires WellFormed(line.template) && WellFormed(route) && Wildcard !in route
    ensures Governs(RuleOf(line), Route(verb, DocumentSpelling(route))) <==> Concerns(line, verb, route)
  {
    CapitalIsUpper(line.action, verb);
    SpellingsAgree(line.template, route);
  }

  /** Some line of this effect for this role concerns the route. */
  ghost predicate HasLine(lines: seq<Line>, role: Role, effect: Effect, verb: string, route: seq<Piece>) {
    exists line :: line in lines && line.role == role && line.effect == effect && Concerns(line, verb, route)
  }

  lemma {:induction false} SaysByLines(lines: seq<Line>, role: Role, effect: Effect, verb: string, route: seq<Piece>)
    requires WellFormedFile(lines) && WellFormed(route) && Wildcard !in route
    ensures Says(RulesOf(lines), Route(verb, DocumentSpelling(route)), role, effect)
        <==> HasLine(lines, role, effect, verb, route)
  {
    var rules, asked := RulesOf(lines), Route(verb, DocumentSpelling(route));
    if Says(rules, asked, role, effect) {
      var rule :| rule in rules && Governs(rule, asked) && rule.role == role && rule.effect == effect;
      var i :| 0 <= i < |rules| && rules[i] == rule;
      assert lines[i] in lines;
      GovernsExactly(lines[i], verb, route);
    }
    if HasLine(lines, role, effect, verb, route) {
      var line :| line in lines && line.role == role && line.effect == effect && Concerns(line, verb, route);
      var i :| 0 <= i < |lines| && lines[i] == line;
      assert rules[i] in rules;
      GovernsExactly(line, verb, route);
    }
  }

  /**
    A role may use a verb on a route exactly when a line of its own allows that verb, or every verb, on a
    template that covers the route, and none denies it.
   */
  lemma {:induction false} DecidedByLines(lines: seq<Line>, role: Role, verb: string, route: seq<Piece>)
    requires WellFormedFile(lines) && WellFormed(route) && Wildcard !in route
    ensures Reaches(RulesOf(lines), Route(verb, DocumentSpelling(route)), role)
        <==> HasLine(lines, role, Allow, verb, route) && !HasLine(lines, role, Deny, verb, route)
    ensures AccessFor(RulesOf(lines), Route(verb, DocumentSpelling(route))).None?
        <==> forall line :: line in lines ==> !Concerns(line, verb, route)
  {
    SaysByLines(lines, role, Allow, verb, route);
    SaysByLines(lines, role, Deny, verb, route);
    MentionedByLines(lines, verb, route);
  }

  lemma {:induction false} MentionedByLines(lines: seq<Line>, verb: string, route: seq<Piece>)
    requires WellFormedFile(lines) && WellFormed(route) && Wildcard !in route
    ensures Mentioned(RulesOf(lines), Route(verb, DocumentSpelling(route)))
        <==> exists line :: line in lines && Concerns(line, verb, route)
  {
    var rules, asked := RulesOf(lines), Route(verb, DocumentSpelling(route));
    if Mentioned(rules, asked) {
      var rule :| rule in rules && Governs(rule, asked);
      var i :| 0 <= i < |rules| && rules[i] == rule;
      assert lines[i] in lines;
      GovernsExactly(lines[i], verb, route);
    }
    if line :| line in lines && Concerns(line, verb, route) {
      var i :| 0 <= i < |lines| && lines[i] == line;
      assert rules[i] in rules;
      GovernsExactly(line, verb, route);
    }
  }

  /** A line for another verb changes nothing: no verdict, not whether the route is mentioned, and no use of it. */
  lemma {:induction false} OtherVerbsChangeNothing(before: seq<Rule>, rule: Rule, after: seq<Rule>, route: Route,
                                                   role: Role, served: seq<Route>)
    requires rule.action != "*" && !IsCapitalOf(rule.action, route.verb)
    ensures AccessFor(before + [rule] + after, route) == AccessFor(before + after, route)
    ensures Reaches(before + [rule] + after, route, role) <==> Reaches(before + after, route, role)
    ensures IsUnused(rule, served + [route]) <==> IsUnused(rule, served)
  {
    CapitalIsUpper(rule.action, route.verb);
    assert !Governs(rule, route);
    forall other: Role {
      AddingARule(before, after, rule, route, other);
    }
    var plain, extended := before + after, before + [rule] + after;
    assert forall r :: r in extended <==> r in plain || r == rule;
    assert Mentioned(extended, route) <==> Mentioned(plain, route);
    assert forall r :: r in served + [route] <==> r in served || r == route;
  }

  /** A route the document serves: its verb and its template. */
  datatype Served = Served(verb: string, route: seq<Piece>)

  function RoutesServed(served: seq<Served>): (routes: seq<Route>)
    ensures |routes| == |served|
    ensures forall i :: 0 <= i < |served| ==> routes[i] == Route(served[i].verb, DocumentSpelling(served[i].route))
  {
    seq(|served|, i requires 0 <= i < |served| => Route(served[i].verb, DocumentSpelling(served[i].route)))
  }

  /** A line is stale exactly when its template ends in no wildcard and it concerns nothing that is served. */
  lemma {:induction false} StaleExactly(line: Line, served: seq<Served>)
    requires WellFormed(line.template)
    requires forall s :: s in served ==> WellFormed(s.route) && Wildcard !in s.route
    ensures IsUnused(RuleOf(line), RoutesServed(served))
        <==> !line.template[|line.template| - 1].Wildcard?
             && forall s :: s in served ==> !Concerns(line, s.verb, s.route)
  {
    var routes := RoutesServed(served);
    WideExactly(line.template);
    forall i | 0 <= i < |served|
      ensures Governs(RuleOf(line), routes[i]) <==> Concerns(line, served[i].verb, served[i].route)
    {
      assert served[i] in served;
      GovernsExactly(line, served[i].verb, served[i].route);
    }
    assert forall i :: 0 <= i < |routes| ==> routes[i] in routes && served[i] in served;
  }

  /** A rule is wide exactly when its last segment is the wildcard. */
  lemma {:induction false} WideExactly(template: seq<Piece>)
    requires WellFormed(template)
    ensures var pattern := Normalised(PolicySpelling(template));
            pattern == "*" || EndsWith(pattern, "/*") <==> template[|template| - 1].Wildcard?
  {
    PolicySpellingIsNormal(template);
    LastSegment(template);
  }

  lemma {:induction false} LastSegment(template: seq<Piece>)
    requires WellFormed(template)
    ensures var pattern := PolicySpelling(template);
            pattern == "*" || EndsWith(pattern, "/*") <==> template[|template| - 1].Wildcard?
    decreases |template|
  {
    SpelledPlainly(template);
    var first, pattern := PolicyPiece(template[0]), PolicySpelling(template);
    assert template[0] in template && first == Spell(template, PolicyPiece)[0];
    FirstPieceDecides(template[0], template[0]);
    if |template| > 1 {
      var rest := PolicySpelling(template[1..]);
      SpellTail(template, PolicyPiece);
      LastSegment(template[1..]);
      SpelledPlainly(template[1..]);
      NoTrailingSlash(Spell(template[1..], PolicyPiece));
      assert pattern == first + "/" + rest;
      EndsAlike(first, rest);
    } else {
      assert pattern == first;
      NoSlashInside(first);
    }
  }

  lemma EndsAlike(first: string, rest: string)
    requires rest != ""
    ensures var s := first + "/" + rest; s != "*" && (EndsWith(s, "/*") <==> rest == "*" || EndsWith(rest, "/*"))
  {
    var s := first + "/" + rest;
    assert s[|first|] == '/' && "*"[0] == '*' && |s| > 1;
    assert s[|s| - 2..] == [s[|s| - 2], s[|s| - 1]] && "/*" == ['/', '*'];
    assert |rest| >= 2 ==> rest[|rest| - 2..] == [rest[|rest| - 2], rest[|rest| - 1]];
    assert |rest| == 1 ==> rest == [rest[0]];
  }

  lemma NoSlashInside(s: string)
    ensures EndsWith(s, "/*") ==> '/' in s
  {
    if EndsWith(s, "/*") {
      assert s[|s| - 2..][0] == '/' && s[|s| - 2] == '/';
    }
  }
}
