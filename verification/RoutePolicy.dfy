/**
  The route policy's decision rule: an allow somewhere and a deny nowhere among the matching rules.
 */
module RoutePolicy {
  import opened Text
  import opened PathPattern

  datatype Role = Anonymous | GuestVisitor | Session | TokenAdmin | TokenGuest

  datatype Effect = Allow | Deny

  /** One `p` line; `pattern` is stored normalised. */
  datatype Rule = Rule(role: Role, pattern: string, action: string, effect: Effect, line: nat)

  /** One operation as the document names it. */
  datatype Route = Route(verb: string, path: string)

  datatype Access = Access(anonymous: bool, guestVisitor: bool, session: bool, tokenAdmin: bool, tokenGuest: bool) {
    predicate AnyToken() { tokenAdmin || tokenGuest }
    predicate AdminTokenOnly() { tokenAdmin && !tokenGuest }
    predicate IsUnreachable() { !anonymous && !guestVisitor && !session && !AnyToken() }
    predicate IsTokenOnly() { AnyToken() && !session && !anonymous && !guestVisitor }
    predicate IsSessionOnly() { session && !AnyToken() && !anonymous && !guestVisitor }

    predicate Admits(role: Role) {
      match role
      case Anonymous => anonymous
      case GuestVisitor => guestVisitor
      case Session => session
      case TokenAdmin => tokenAdmin
      case TokenGuest => tokenGuest
    }
  }

  /** The rule speaks about this route, whatever it says. */
  predicate Governs(rule: Rule, route: Route) {
    (rule.action == "*" || rule.action == Upper(route.verb)) && PathMatches(rule.pattern, Normalised(route.path))
  }

  ghost predicate Says(rules: seq<Rule>, route: Route, role: Role, effect: Effect) {
    exists rule :: rule in rules && Governs(rule, route) && rule.role == role && rule.effect == effect
  }

  /** `some(allow) && !some(deny)` for one role. */
  ghost predicate Reaches(rules: seq<Rule>, route: Route, role: Role) {
    Says(rules, route, role, Allow) && !Says(rules, route, role, Deny)
  }

  ghost predicate Mentioned(rules: seq<Rule>, route: Route) {
    exists rule :: rule in rules && Governs(rule, route)
  }

  /** Who may reach a route, or nothing when no rule mentions it. */
  ghost function AccessFor(rules: seq<Rule>, route: Route): Option<Access> {
    if Mentioned(rules, route) then
      Some(Access(Reaches(rules, route, Anonymous), Reaches(rules, route, GuestVisitor), Reaches(rules, route, Session),
                  Reaches(rules, route, TokenAdmin), Reaches(rules, route, TokenGuest)))
    else None
  }

  method Matches(rule: Rule, normalised: string, action: string) returns (b: bool)
    ensures b <==> (rule.action == "*" || rule.action == action) && PathMatches(rule.pattern, normalised)
  {
    if rule.action != "*" && rule.action != action {
      return false;
    }
    b := KeyMatch2(rule.pattern, normalised);
  }

  lemma SaysOneMore(rules: seq<Rule>, n: nat, route: Route, role: Role, effect: Effect)
    requires n < |rules|
    ensures Says(rules[..n + 1], route, role, effect)
        <==> Says(rules[..n], route, role, effect)
             || (Governs(rules[n], route) && rules[n].role == role && rules[n].effect == effect)
  {
    assert rules[..n + 1] == rules[..n] + [rules[n]];
    assert rules[n] in rules[..n + 1];
    assert forall r :: r in rules[..n] ==> r in rules[..n + 1];
  }

  /** The flag loop. */
  method Allows(rules: seq<Rule>, role: Role, verb: string, path: string) returns (b: bool)
    ensures b <==> Reaches(rules, Route(verb, path), role)
  {
    var normalised := Normalise(path);
    var action := Upper(verb);
    ghost var route := Route(verb, path);
    var allowed, denied := false, false;
    for n := 0 to |rules|
      invariant allowed <==> Says(rules[..n], route, role, Allow)
      invariant denied <==> Says(rules[..n], route, role, Deny)
    {
      SaysOneMore(rules, n, route, role, Allow);
      SaysOneMore(rules, n, route, role, Deny);
      if rules[n].role != role {
        continue;
      }
      var governs := Matches(rules[n], normalised, action);
      if !governs {
        continue;
      }
      match rules[n].effect
      case Allow => allowed := true;
      case Deny => denied := true;
    }
    assert rules[..|rules|] == rules;
    b := allowed && !denied;
  }

  /** The set loop. */
  method AccessOf(rules: seq<Rule>, verb: string, path: string) returns (access: Option<Access>)
    ensures access == AccessFor(rules, Route(verb, path))
  {
    var normalised := Normalise(path);
    var action := Upper(verb);
    ghost var route := Route(verb, path);
    var mentioned := false;
    var allowed: set<Role>, denied: set<Role> := {}, {};
    for n := 0 to |rules|
      invariant mentioned <==> Mentioned(rules[..n], route)
      invariant forall role :: role in allowed <==> Says(rules[..n], route, role, Allow)
      invariant forall role :: role in denied <==> Says(rules[..n], route, role, Deny)
    {
      forall role, effect {
        SaysOneMore(rules, n, route, role, effect);
      }
      assert rules[..n + 1] == rules[..n] + [rules[n]];
      var governs := Matches(rules[n], normalised, action);
      if !governs {
        continue;
      }
      assert rules[n] in rules[..n + 1];
      mentioned := true;
      match rules[n].effect
      case Allow => allowed := allowed + {rules[n].role};
      case Deny => denied := denied + {rules[n].role};
    }
    assert rules[..|rules|] == rules;
    if !mentioned {
      return None;
    }
    access := Some(Access(Anonymous in allowed && Anonymous !in denied,
                          GuestVisitor in allowed && GuestVisitor !in denied,
                          Session in allowed && Session !in denied, TokenAdmin in allowed && TokenAdmin !in denied,
                          TokenGuest in allowed && TokenGuest !in denied));
  }

  // ----- What the decision depends on

  /** Every rule of one list is in the other, up to the line it stands on. */
  ghost predicate SaysNoMore(some: seq<Rule>, other: seq<Rule>) {
    forall rule :: rule in some ==> exists same :: same in other && same == rule.(line := same.line)
  }

  lemma SaysCarriesOver(some: seq<Rule>, other: seq<Rule>, route: Route)
    requires SaysNoMore(some, other)
    ensures forall role, effect :: Says(some, route, role, effect) ==> Says(other, route, role, effect)
    ensures Mentioned(some, route) ==> Mentioned(other, route)
  {
    forall role, effect | Says(some, route, role, effect)
      ensures Says(other, route, role, effect)
    {
      var rule :| rule in some && Governs(rule, route) && rule.role == role && rule.effect == effect;
      var same :| same in other && same == rule.(line := same.line);
      assert Governs(same, route);
    }
    if Mentioned(some, route) {
      var rule :| rule in some && Governs(rule, route);
      var same :| same in other && same == rule.(line := same.line);
      assert Governs(same, route);
    }
  }

  /**
    Two rule files with the same rules, in any order and with any repetition, decide every route the
    same way, and the two loops tell the same story: a role is admitted exactly when `Allows` says so,
    where "nothing mentions the route" admits nobody.
   */
  lemma DecisionDependsOnTheRuleSet(some: seq<Rule>, other: seq<Rule>, route: Route)
    requires SaysNoMore(some, other) && SaysNoMore(other, some)
    ensures AccessFor(some, route) == AccessFor(other, route)
    ensures forall role :: (Reaches(some, route, role)
                            <==> AccessFor(other, route).Some? && AccessFor(other, route).value.Admits(role))
  {
    SaysCarriesOver(some, other, route);
    SaysCarriesOver(other, some, route);
    SameSaysSameAccess(some, other, route);
    forall role {
      LoopsAgree(other, route, role);
    }
  }

  lemma SameSaysSameAccess(some: seq<Rule>, other: seq<Rule>, route: Route)
    requires forall role, effect :: Says(some, route, role, effect) <==> Says(other, route, role, effect)
    requires Mentioned(some, route) <==> Mentioned(other, route)
    ensures AccessFor(some, route) == AccessFor(other, route)
    ensures forall role :: Reaches(some, route, role) <==> Reaches(other, route, role)
  {
  }

  /** `access` admits a role exactly when `allows` does; where nothing mentions the route nobody is admitted. */
  lemma LoopsAgree(rules: seq<Rule>, route: Route, role: Role)
    ensures Reaches(rules, route, role) <==> AccessFor(rules, route).Some? && AccessFor(rules, route).value.Admits(role)
  {
    if Says(rules, route, role, Allow) {
      var rule :| rule in rules && Governs(rule, route) && rule.role == role && rule.effect == Allow;
      assert Mentioned(rules, route);
    }
  }

  /** Adding a deny admits nobody new and takes away its own role alone; adding an allow takes nobody away. */
  lemma AddingARule(before: seq<Rule>, after: seq<Rule>, rule: Rule, route: Route, role: Role)
    ensures rule.effect == Deny ==>
      (Reaches(before + [rule] + after, route, role)
       <==> Reaches(before + after, route, role) && !(Governs(rule, route) && rule.role == role))
    ensures rule.effect == Allow ==>
      (Reaches(before + [rule] + after, route, role)
       <==> Reaches(before + after, route, role)
            || (Governs(rule, route) && rule.role == role && !Says(before + after, route, role, Deny)))
  {
    var plain, extended := before + after, before + [rule] + after;
    assert forall r :: r in extended <==> r in plain || r == rule;
    assert forall e :: (Says(extended, route, role, e)
                        <==> Says(plain, route, role, e)
                             || (Governs(rule, route) && rule.role == role && rule.effect == e));
  }

  // ----- Stale rules

  predicate IsWide(rule: Rule) {
    rule.pattern == "*" || EndsWith(rule.pattern, "/*")
  }

  ghost predicate IsUnused(rule: Rule, served: seq<Route>) {
    !IsWide(rule) && forall route :: route in served ==> !Governs(rule, route)
  }

  datatype Report = Report(line: nat, role: Role, pattern: string, action: string)

  ghost function Unused(rules: seq<Rule>, served: seq<Route>): (reports: seq<Report>)
    ensures forall rule :: rule in rules && IsUnused(rule, served) ==>
              Report(rule.line, rule.role, rule.pattern, rule.action) in reports
    ensures forall report :: report in reports ==>
              exists rule :: rule in rules && IsUnused(rule, served)
                && report == Report(rule.line, rule.role, rule.pattern, rule.action)
  {
    if rules == [] then []
    else
      var first := rules[0];
      assert forall rule :: rule in rules ==> rule == first || rule in rules[1..];
      (if IsUnused(first, served) then [Report(first.line, first.role, first.pattern, first.action)] else [])
      + Unused(rules[1..], served)
  }

  lemma {:induction false} UnusedOneMore(rules: seq<Rule>, n: nat, served: seq<Route>)
    requires n < |rules|
    ensures Unused(rules[..n + 1], served)
         == Unused(rules[..n], served)
          + if IsUnused(rules[n], served)
            then [Report(rules[n].line, rules[n].role, rules[n].pattern, rules[n].action)] else []
  {
    if n > 0 {
      UnusedOneMore(rules[1..], n - 1, served);
      assert rules[1..][..n] == rules[..n + 1][1..];
      assert rules[1..][..n - 1] == rules[..n][1..];
    }
  }

  method UnusedRules(rules: seq<Rule>, served: seq<Route>) returns (unused: seq<Report>)
    ensures unused == Unused(rules, served)
  {
    unused := [];
    for n := 0 to |rules|
      invariant unused == Unused(rules[..n], served)
    {
      UnusedOneMore(rules, n, served);
      var rule := rules[n];
      if IsWide(rule) {
        continue;
      }
      var matched := false;
      for m := 0 to |served|
        invariant matched <==> exists route :: route in served[..m] && Governs(rule, route)
      {
        assert served[..m + 1] == served[..m] + [served[m]];
        assert served[m] in served[..m + 1];
        assert forall route :: route in served[..m + 1] <==> route in served[..m] || route == served[m];
        if !matched {
          var normalised := Normalise(served[m].path);
          matched := Matches(rule, normalised, Upper(served[m].verb));
        }
      }
      assert served[..|served|] == served;
      if !matched {
        unused := unused + [Report(rule.line, rule.role, rule.pattern, rule.action)];
      }
    }
    assert rules[..|rules|] == rules;
  }

  ghost predicate DistinctLines(rules: seq<Rule>) {
    forall i, j :: 0 <= i < j < |rules| ==> rules[i].line != rules[j].line
  }

  /** The file with every reported line deleted. */
  ghost function Pruned(rules: seq<Rule>, reports: seq<Report>): (kept: seq<Rule>)
    ensures forall rule :: rule in kept <==> rule in rules && forall report :: report in reports ==>
              report.line != rule.line
  {
    if rules == [] then []
    else if exists report :: report in reports && report.line == rules[0].line then Pruned(rules[1..], reports)
    else [rules[0]] + Pruned(rules[1..], reports)
  }

  /**
    Deleting the lines `unused_rules` reports changes nothing for any served route, leaves nothing to
    report, and deletes no rule that governs a served route.
   */
  lemma PruningIsSafeAndComplete(rules: seq<Rule>, served: seq<Route>, route: Route)
    requires DistinctLines(rules) && route in served
    ensures var kept := Pruned(rules, Unused(rules, served));
            && AccessFor(kept, route) == AccessFor(rules, route)
            && Unused(kept, served) == []
            && forall rule :: rule in rules && Governs(rule, route) ==> rule in kept
  {
    var kept := Pruned(rules, Unused(rules, served));
    forall rule | rule in rules
      ensures rule in kept <==> !IsUnused(rule, served)
    {
      KeptExactlyWhenUsed(rules, served, rule);
    }
    NothingToReport(kept, served);
    SameVerdicts(rules, kept, route);
  }

  lemma KeptExactlyWhenUsed(rules: seq<Rule>, served: seq<Route>, rule: Rule)
    requires DistinctLines(rules) && rule in rules
    ensures rule in Pruned(rules, Unused(rules, served)) <==> !IsUnused(rule, served)
  {
    var reports := Unused(rules, served);
    var mine := Report(rule.line, rule.role, rule.pattern, rule.action);
    assert IsUnused(rule, served) ==> mine in reports && mine.line == rule.line;
    if report :| report in reports && report.line == rule.line {
      var reported :| reported in rules && IsUnused(reported, served)
        && report == Report(reported.line, reported.role, reported.pattern, reported.action);
      assert reported == rule;
    }
  }

  lemma {:induction false} NothingToReport(rules: seq<Rule>, served: seq<Route>)
    requires forall rule :: rule in rules ==> !IsUnused(rule, served)
    ensures Unused(rules, served) == []
  {
    if rules != [] {
      NothingToReport(rules[1..], served);
    }
  }

  /** Dropping rules that do not govern a route keeps every verdict on it. */
  lemma SameVerdicts(rules: seq<Rule>, kept: seq<Rule>, route: Route)
    requires forall rule :: rule in kept ==> rule in rules
    requires forall rule :: rule in rules && Governs(rule, route) ==> rule in kept
    ensures AccessFor(kept, route) == AccessFor(rules, route)
  {
    forall role, effect
      ensures Says(kept, route, role, effect) == Says(rules, route, role, effect)
    {
    }
    assert Mentioned(kept, route) == Mentioned(rules, route);
    SameSaysSameAccess(kept, rules, route);
  }
}
