/**
  A trusted host with a comma in it: the peer list that carries it is read back longer than it was sent.
 */
module BridgeCommas {
  import opened Text
  import opened Origins
  import opened BridgeConfig
  import opened BridgeHandlers
  import opened BridgeRun

  /** The listed origins: a host with a comma, and those that its printed form is cut into. */
  datatype Cut = Cut(head: string, rest: string, port: nat, p: Origin, b: Origin, encoded: string)

  function WithComma(cut: Cut): Origin {
    Origin(Http, Named(cut.head + "," + cut.rest), Some(cut.port))
  }

  function BeforeComma(cut: Cut): Origin {
    Origin(Http, Named(cut.head), None)
  }

  /** As with `a` and `http` around the comma, `http://a%2Chttp:8080` as its encoding, and `b` behind `http:8080`. */
  ghost predicate ListsComma(env: Env, target: Origin, cut: Cut) {
    && env.cfg.trusted == [target, cut.p, WithComma(cut), BeforeComma(cut), cut.b]
    && ',' !in cut.head && ',' !in cut.rest && cut.rest != "" && !IsSpace(cut.rest[0], NEXT_LINE)
    && !HasComma(cut.p) && !HasComma(cut.b) && env.normalize(cut.rest + ":" + Digits(cut.port)) == Some(cut.b)
    && ',' !in cut.encoded && cut.encoded != "" && !IsSpace(cut.encoded[0], NEXT_LINE)
    && env.normalize(cut.encoded) == Some(WithComma(cut))
  }

  /** A start URL that offers the third peer and the one with the comma. */
  function OffersComma(target: Origin, cut: Cut, state: string): StartQuery {
    StartQuery(Render(target), Some("/"), state, Some(Render(cut.p) + "," + cut.encoded), None)
  }

  lemma {:induction false} TwoAreOffered(env: Env, target: Origin, cut: Cut, state: string)
    requires Sound(env) && ListsComma(env, target, cut)
    ensures Offered(env, OffersComma(target, cut, state)) == [cut.p, WithComma(cut)]
  {
    ListedAreApart(env, target, cut);
    PrintedThenAny(cut.p, cut.encoded, WithComma(cut), env.normalize);
  }

  lemma {:induction false} TwoAreRead(env: Env, target: Origin, cut: Cut)
    requires Sound(env) && ListsComma(env, target, cut)
    ensures ParsePeers(Sent([WithComma(cut)]), env.normalize) == [BeforeComma(cut), cut.b]
  {
    ListedAreApart(env, target, cut);
    PlainRenders(cut.head);
    CommaHostIsReadAsTwo(cut.head, cut.rest, cut.port, BeforeComma(cut), cut.b, env.normalize);
  }

  lemma PlainRenders(name: string)
    ensures Render(Origin(Http, Named(name), None)) == "http://" + name
  {
    assert "http://" + name + "" == "http://" + name;
  }

  lemma {:induction false} PrintedThenAny(p: Origin, second: string, c: Origin, normalize: Normalizer)
    requires ReadsBack(normalize) && IsNormal(p, normalize) && !HasComma(p) && normalize(second) == Some(c)
    requires ',' !in second && second != "" && !IsSpace(second[0], NEXT_LINE)
    ensures ParsePeers(Some(Render(p) + "," + second), normalize) == [p, c]
  {
    CommaIsInHost(p);
    assert Render(p)[0] == 'h';
    ReadsTwo(Render(p), second, p, c, normalize);
  }

  lemma {:induction false} ListedAreApart(env: Env, target: Origin, cut: Cut)
    requires Sound(env) && ListsComma(env, target, cut)
    ensures IsNormal(target, env.normalize) && IsNormal(cut.p, env.normalize)
    ensures IsNormal(BeforeComma(cut), env.normalize)
    ensures target != cut.p && target != WithComma(cut) && target != BeforeComma(cut) && target != cut.b
    ensures cut.p != BeforeComma(cut) && cut.p != cut.b && BeforeComma(cut) != cut.b && target in env.cfg.trusted
    ensures var allowed := CandidatePeers(env.cfg, target);
            cut.p in allowed && WithComma(cut) in allowed && BeforeComma(cut) in allowed && cut.b in allowed
    ensures !HasComma(BeforeComma(cut))
    ensures IsTrustedOrigin(env.cfg, BeforeComma(cut)) && IsTrustedOrigin(env.cfg, target)
  {
    var trusted := env.cfg.trusted;
    assert trusted[0] == target && trusted[1] == cut.p && trusted[2] == WithComma(cut)
           && trusted[3] == BeforeComma(cut) && trusted[4] == cut.b;
    CandidatesAre(env.cfg, target);
  }

  /**
    "No origin is visited twice, and no more than were offered" is not a property of every configuration. Two
    peers are offered to the origin before the comma; the second is read back as two, and the browser visits
    four origins, the first of them twice.
   */
  lemma {:induction false} CommaHostLengthensTheChain(env: Env, target: Origin, cut: Cut, state: string)
    requires Sound(env) && ListsComma(env, target, cut) && state != "" && Trim(state, NEXT_LINE) == state
    requires forall o :: env.sessionAt(o).None?
    ensures var query, a := OffersComma(target, cut, state), BeforeComma(cut);
            && Offered(env, query) == [cut.p, WithComma(cut)]
            && Chase(env, a, query).visited == [a, cut.p, a, cut.b]
  {
    var query, a := OffersComma(target, cut, state), BeforeComma(cut);
    ListedAreApart(env, target, cut);
    TwoAreOffered(env, target, cut, state);
    TwoAreRead(env, target, cut);
    var asked := AsksForRoot(env, a, query, target);
    var next := SendsTheComma(env, target, cut, query, asked);
    ComesBack(env, cut.p, next, asked, a, cut.b);
    Concats(cut.p, a, cut.b);
  }

  lemma {:induction false} ComesBack(env: Env, p: Origin, next: StartQuery, asked: Request, a: Origin, b: Origin)
    requires Sound(env) && Asks(env, p, next, asked) && Offered(env, next) == [a, b]
    requires p != a && p != b && asked.target != a && asked.target != b && a != b && !HasComma(a) && !HasComma(b)
    requires var allowed := CandidatePeers(env.cfg, asked.target); a in allowed && b in allowed
    requires asked.target in env.cfg.trusted && forall o :: env.sessionAt(o).None?
    ensures Chase(env, p, next).visited == [p, a, b]
  {
    LeftIsOffered(env, p, next, asked, a, b);
    TwoApart(a, b);
    AllAreVisited(env, p, next, asked, [a, b]);
    Concats(p, a, b);
  }

  lemma TwoApart(a: Origin, b: Origin)
    requires a != b && !HasComma(a) && !HasComma(b)
    ensures Distinct([a, b]) && NoCommas([a, b])
  {
  }

  lemma Concats(p: Origin, a: Origin, b: Origin)
    ensures [p] + [a, b] == [p, a, b] && [a] + [p, a, b] == [a, p, a, b]
  {
  }

  lemma {:induction false} SendsTheComma(env: Env, target: Origin, cut: Cut, query: StartQuery, asked: Request)
    returns (next: StartQuery)
    requires Sound(env) && ListsComma(env, target, cut) && asked.target == target
    requires Asks(env, BeforeComma(cut), query, asked) && Offered(env, query) == [cut.p, WithComma(cut)]
    requires forall o :: env.sessionAt(o).None?
    ensures Asks(env, cut.p, next, asked)
            && Offered(env, next) == ParsePeers(Sent([WithComma(cut)]), env.normalize)
            && Chase(env, BeforeComma(cut), query) == Prepend(BeforeComma(cut), Chase(env, cut.p, next))
  {
    var a, c := BeforeComma(cut), WithComma(cut);
    ListedAreApart(env, target, cut);
    LeftIsOffered(env, a, query, asked, cut.p, c);
    next := GoesToNext(env, a, query, asked);
    HopPassesOn(env, a, query);
    AsksOn(env, a, query, asked, cut.p, next);
    assert [cut.p, c][1..] == [c];
  }

  lemma {:induction false} LeftIsOffered(env: Env, current: Origin, query: StartQuery, asked: Request, first: Origin,
                                         second: Origin)
    requires Asks(env, current, query, asked) && Offered(env, query) == [first, second]
    requires current != first && current != second && asked.target != first && asked.target != second
    requires var allowed := CandidatePeers(env.cfg, asked.target); first in allowed && second in allowed
    ensures Left(env, current, query) == [first, second]
  {
    OnlyCurrentFiltered([first, second], current, asked.target, CandidatePeers(env.cfg, asked.target));
    WithoutCounts([first, second], current);
  }

  lemma {:induction false} AsksForRoot(env: Env, current: Origin, query: StartQuery, target: Origin)
    returns (asked: Request)
    requires query.targetOrigin == Render(target) && IsNormal(target, env.normalize) && query.returnTo == Some("/")
    requires query.state != "" && Trim(query.state, NEXT_LINE) == query.state && query.guestOk == None
    requires IsTrustedOrigin(env.cfg, target) && IsTrustedOrigin(env.cfg, current) && target != current
    ensures Asks(env, current, query, asked) && asked.target == target
  {
    assert Trim("/", NEXT_LINE) == "/" && Trim("/", NEXT_LINE)[0] == '/';
    asked := Request(target, "/", query.state, false);
  }

  lemma {:induction false} NobodyStops(env: Env, asked: Request, peers: seq<Origin>)
    requires asked.target in env.cfg.trusted && forall peer :: peer in peers ==> !Live(env, peer)
    ensures FirstStop(env, asked.target, peers) == |peers| && Search(env, asked, peers).visited == peers
  {
  }

  lemma {:induction false} AllAreVisited(env: Env, current: Origin, query: StartQuery, asked: Request,
                                         rest: seq<Origin>)
    requires Sound(env) && Asks(env, current, query, asked) && Left(env, current, query) == rest
    requires Distinct(rest) && NoCommas(rest) && asked.target in env.cfg.trusted
    requires forall o :: env.sessionAt(o).None?
    ensures Chase(env, current, query).visited == [current] + rest
  {
    DistinctAreMentionedOnce(rest);
    SearchesInOrder(env, current, query, asked);
    NobodyStops(env, asked, [current] + rest);
  }
}
