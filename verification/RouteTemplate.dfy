/**
  Route templates and their two spellings. The document writes a parameter `{id}`, the policy file `:id`;
  `normalise` brings both to a form in which one segment-wise question remains.
 */
module RouteTemplate {
  import opened Text
  import opened PathPattern

  datatype Piece = Fixed(text: string) | Parameter(name: string) | Wildcard

  predicate Plain(s: string) {
    '/' !in s && '{' !in s && '}' !in s
  }

  predicate WellFormedPiece(p: Piece) {
    match p
    case Fixed(text) => Plain(text) && !IsParameter(text) && text != "*"
    case Parameter(name) => Plain(name)
    case Wildcard => true
  }

  /** At least one piece, and no slash at the end. */
  predicate WellFormed(t: seq<Piece>) {
    t != [] && t[|t| - 1] != Fixed("") && forall p :: p in t ==> WellFormedPiece(p)
  }

  function DocumentPiece(p: Piece): string {
    match p
    case Fixed(text) => text
    case Parameter(name) => "{" + name + "}"
    case Wildcard => "*"
  }

  function PolicyPiece(p: Piece): string {
    match p
    case Fixed(text) => text
    case Parameter(name) => ":" + name
    case Wildcard => "*"
  }

  /** What `normalise` leaves of a piece in the document's spelling: the parameter's name is gone. */
  function NormalPiece(p: Piece): string {
    match p
    case Fixed(text) => text
    case Parameter(_) => ":"
    case Wildcard => "*"
  }

  function Spell(t: seq<Piece>, spelling: Piece -> string): seq<string> {
    seq(|t|, i requires 0 <= i < |t| => spelling(t[i]))
  }

  function DocumentSpelling(t: seq<Piece>): string {
    Join(Spell(t, DocumentPiece), '/')
  }

  function PolicySpelling(t: seq<Piece>): string {
    Join(Spell(t, PolicyPiece), '/')
  }

  /** A rule's template covers a route's: equal fixed pieces, anything under a parameter, any rest under a wildcard. */
  predicate Covers(rule: seq<Piece>, route: seq<Piece>) {
    if rule == [] then route == []
    else if route == [] then false
    else match rule[0]
      case Wildcard => true
      case Parameter(_) => Covers(rule[1..], route[1..])
      case Fixed(_) => rule[0] == route[0] && Covers(rule[1..], route[1..])
  }

  /**
    For every rule template and every route template without a wildcard: the rule as the policy file
    spells it matches the route as the document spells it exactly when the rule covers the route.
   */
  lemma SpellingsAgree(rule: seq<Piece>, route: seq<Piece>)
    requires WellFormed(rule) && WellFormed(route) && Wildcard !in route
    ensures PathMatches(Normalised(PolicySpelling(rule)), Normalised(DocumentSpelling(route))) <==> Covers(rule, route)
  {
    SpelledPlainly(rule);
    SpelledPlainly(route);
    PolicySpellingIsNormal(rule);
    DocumentSpellingIsNormal(route);
    SplitJoin(Spell(rule, PolicyPiece), '/');
    SplitJoin(Spell(route, NormalPiece), '/');
    SegmentsCover(rule, route);
  }

  lemma SpelledPlainly(t: seq<Piece>)
    requires WellFormed(t)
    ensures forall s :: s in Spell(t, PolicyPiece) ==> Plain(s)
    ensures forall s :: s in Spell(t, NormalPiece) ==> Plain(s)
    ensures PolicyPiece(t[|t| - 1]) != "" && NormalPiece(t[|t| - 1]) != ""
  {
    assert forall i :: 0 <= i < |t| ==> t[i] in t;
    assert forall i :: 0 <= i < |t| ==> Plain(PolicyPiece(t[i])) && Plain(NormalPiece(t[i]));
  }

  lemma PolicySpellingIsNormal(rule: seq<Piece>)
    requires WellFormed(rule)
    ensures Normalised(PolicySpelling(rule)) == PolicySpelling(rule)
  {
    SpelledPlainly(rule);
    JoinIsBraceFree(Spell(rule, PolicyPiece));
    UnbraceKeeps(PolicySpelling(rule));
    NoTrailingSlash(Spell(rule, PolicyPiece));
  }

  lemma DocumentSpellingIsNormal(route: seq<Piece>)
    requires WellFormed(route)
    ensures Normalised(DocumentSpelling(route)) == Join(Spell(route, NormalPiece), '/')
  {
    SpelledPlainly(route);
    UnbraceDocument(route);
    NoTrailingSlash(Spell(route, NormalPiece));
  }

  lemma {:induction false} JoinIsBraceFree(segments: seq<string>)
    requires forall s :: s in segments ==> Plain(s)
    ensures '{' !in Join(segments, '/') && '}' !in Join(segments, '/')
  {
    if segments != [] {
      assert segments[0] in segments;
      assert forall s :: s in segments[1..] ==> s in segments;
      JoinIsBraceFree(segments[1..]);
    }
  }

  lemma {:induction false} NoTrailingSlash(segments: seq<string>)
    requires segments != [] && segments[|segments| - 1] != "" && forall s :: s in segments ==> Plain(s)
    ensures DropTrailing(Join(segments, '/'), '/') == Join(segments, '/') != ""
    ensures var j := Join(segments, '/'); j[|j| - 1] != '/'
  {
    var s := segments[|segments| - 1];
    assert s in segments && s[|s| - 1] in s;
    if |segments| > 1 {
      var joined, rest := Join(segments, '/'), Join(segments[1..], '/');
      NoTrailingSlash(segments[1..]);
      assert joined == segments[0] + ['/'] + rest;
      assert joined[|joined| - 1] == rest[|rest| - 1];
    }
  }

  lemma {:induction false} UnbraceInside(name: string, rest: string)
    requires Plain(name)
    ensures Unbrace(name + "}" + rest, true) == Unbrace(rest, false)
  {
    if name == "" {
      assert name + "}" + rest == "}" + rest;
      assert ("}" + rest)[1..] == rest;
    } else {
      ConcatHead(name, "}" + rest);
      ConcatAssoc(name, "}", rest);
      ConcatAssoc(name[1..], "}", rest);
      UnbraceInside(name[1..], rest);
    }
  }

  lemma {:induction false} UnbraceText(text: string, rest: string)
    requires Plain(text)
    ensures Unbrace(text + rest, false) == text + Unbrace(rest, false)
  {
    if text == "" {
      assert text + rest == rest;
    } else {
      ConcatHead(text, rest);
      UnbraceText(text[1..], rest);
      ConcatAssoc([text[0]], text[1..], Unbrace(rest, false));
      assert [text[0]] + text[1..] == text;
    }
  }

  lemma UnbracePiece(p: Piece, rest: string)
    requires WellFormedPiece(p)
    ensures Unbrace(DocumentPiece(p) + rest, false) == NormalPiece(p) + Unbrace(rest, false)
  {
    match p
    case Fixed(text) => UnbraceText(text, rest);
    case Wildcard => UnbraceText("*", rest);
    case Parameter(name) =>
      UnbraceInside(name, rest);
      var s := DocumentPiece(p) + rest;
      assert s[1..] == name + "}" + rest;
  }

  lemma {:induction false} UnbraceDocument(route: seq<Piece>)
    requires route != [] && forall p :: p in route ==> WellFormedPiece(p)
    ensures Unbrace(DocumentSpelling(route), false) == Join(Spell(route, NormalPiece), '/')
  {
    var rest := route[1..];
    if rest == [] {
      UnbracePiece(route[0], "");
      assert DocumentPiece(route[0]) + "" == DocumentSpelling(route);
      assert NormalPiece(route[0]) + "" == NormalPiece(route[0]);
    } else {
      UnbraceDocument(rest);
      SpellTail(route, DocumentPiece);
      SpellTail(route, NormalPiece);
      JoinHead(Spell(route, DocumentPiece), '/');
      JoinHead(Spell(route, NormalPiece), '/');
      UnbracePiece(route[0], ['/'] + DocumentSpelling(rest));
      UnbraceSlash(DocumentSpelling(rest));
    }
  }

  lemma SpellTail(t: seq<Piece>, spelling: Piece -> string)
    requires t != []
    ensures Spell(t, spelling)[0] == spelling(t[0]) && Spell(t, spelling)[1..] == Spell(t[1..], spelling)
  {
  }

  lemma UnbraceSlash(rest: string)
    ensures Unbrace(['/'] + rest, false) == ['/'] + Unbrace(rest, false)
  {
    ConcatHead(['/'], rest);
    assert ['/'][1..] + rest == rest;
  }

  lemma FirstPieceDecides(rule: Piece, route: Piece)
    requires WellFormedPiece(rule) && WellFormedPiece(route)
    ensures PolicyPiece(rule) == "*" <==> rule.Wildcard?
    ensures IsParameter(PolicyPiece(rule)) <==> rule.Parameter?
    ensures rule.Fixed? && !route.Wildcard? ==> (PolicyPiece(rule) == NormalPiece(route) <==> rule == route)
  {
    assert IsParameter(":") && ":"[0] != "*"[0];
    assert rule.Parameter? ==> PolicyPiece(rule)[0] == ':' && PolicyPiece(rule)[..1] == ":";
    assert !IsParameter("*") by { assert "*"[..1][0] == '*'; }
  }

  lemma {:induction false} SegmentsCover(rule: seq<Piece>, route: seq<Piece>)
    requires forall p :: p in rule ==> WellFormedPiece(p)
    requires forall p :: p in route ==> WellFormedPiece(p) && p != Wildcard
    ensures SegmentsMatch(Spell(rule, PolicyPiece), Spell(route, NormalPiece), 0) <==> Covers(rule, route)
  {
    if rule != [] && route != [] {
      assert Spell(rule, PolicyPiece)[1..] == Spell(rule[1..], PolicyPiece);
      assert Spell(route, NormalPiece)[1..] == Spell(route[1..], NormalPiece);
      SegmentsCover(rule[1..], route[1..]);
      assert WellFormedPiece(rule[0]) && WellFormedPiece(route[0]);
      FirstPieceDecides(rule[0], route[0]);
    }
  }
}
