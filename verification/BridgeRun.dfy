/**
  A whole redirect chain: from `prepare` through the peers to the callback, for a fixed configuration.
 */
module BridgeRun {
  import opened Text
  import opened Origins
  import opened BridgeConfig
  import opened BridgeHandlers

  /** What stays fixed while the browser is redirected; `sessionAt` is the access token it holds at each origin. */
  datatype Env = Env(cfg: Config, normalize: Normalizer, sessionAt: Origin -> Option<Session>,
                     now: int, store: Store, created: Option<Code>)

  /** Every configuration that was loaded is allowed. */
  ghost predicate Sound(env: Env) {
    ReadsBack(env.normalize) && Loaded(env.cfg, env.normalize)
  }

  ghost function StepAt(env: Env, current: Origin, query: StartQuery): (Response, Store) {
    StartOutcome(Some(env.cfg), Some(current), query, env.sessionAt(current), env.now, env.store, env.created,
                 env.normalize)
  }

  ghost function StartAt(env: Env, current: Origin, query: StartQuery): Response {
    StepAt(env, current, query).0
  }

  ghost predicate GoesOn(response: Response) {
    response.Redirect? && response.place.StartPage?
  }

  ghost function Offered(env: Env, query: StartQuery): seq<Origin> {
    ParsePeers(query.peers, env.normalize)
  }

  /** The peers a start step at `current` would still ask. */
  ghost function Left(env: Env, current: Origin, query: StartQuery): seq<Origin>
    requires env.normalize(query.targetOrigin).Some?
  {
    var target := env.normalize(query.targetOrigin).value;
    Remaining(Offered(env, query), current, target, CandidatePeers(env.cfg, target))
  }

  // ----- Any start URL

  lemma {:induction false} TrimTwice(s: string)
    ensures Trim(Trim(s, NEXT_LINE), NEXT_LINE) == Trim(s, NEXT_LINE)
  {
    var t := Trim(s, NEXT_LINE);
    TrimIsCore(s, t, NEXT_LINE);
    assert t == "" + (t + "");
    TrimIsCore(t, t, NEXT_LINE);
  }

  /**
    What one peer tells the next: the same handoff, and the rest of the peers left. They are read as they were
    sent exactly when no host among them has a comma, and in any case none that is read has one.
   */
  lemma {:induction false} HopPassesOn(env: Env, current: Origin, query: StartQuery)
    requires Sound(env) && GoesOn(StartAt(env, current, query))
    ensures env.normalize(query.targetOrigin).Some?
    ensures var next, left := StartAt(env, current, query).place.start, Left(env, current, query);
            && left != [] && StartAt(env, current, query).origin == left[0] && |left| <= |Offered(env, query)|
            && Offered(env, next) == ParsePeers(Sent(left[1..]), env.normalize) && NoCommas(Offered(env, next))
            && (Offered(env, next) == left[1..] <==> NoCommas(left[1..]))
            && env.normalize(next.targetOrigin) == env.normalize(query.targetOrigin)
            && RelativeReturnTo(next.returnTo) == RelativeReturnTo(query.returnTo)
            && Trim(next.state, NEXT_LINE) == Trim(query.state, NEXT_LINE)
            && QueryFlag(next.guestOk) == QueryFlag(query.guestOk)
  {
    StartIsPassOn(env, current, query);
    var target, left := env.normalize(query.targetOrigin).value, Left(env, current, query);
    CandidatesAreNormal(env.cfg, target, env.normalize);
    PeersRoundTrip(left[1..], env.normalize);
    ReadHasNoComma(left[1..], env.normalize);
    assert IsNormal(target, env.normalize);
    TrimTwice(query.state);
    TrimTwice(query.returnTo.GetOr("/"));
    PlainFlag();
  }

  /** A redirect to another start endpoint comes from one place only. */
  lemma {:induction false} StartIsPassOn(env: Env, current: Origin, query: StartQuery)
    requires GoesOn(StartAt(env, current, query))
    ensures env.normalize(query.targetOrigin).Some? && RelativeReturnTo(query.returnTo).Some?
    ensures Left(env, current, query) != []
    ensures StartAt(env, current, query)
         == Redirect(Left(env, current, query)[0],
                     StartPage(StartQueryFor(env.normalize(query.targetOrigin).value,
                                             RelativeReturnTo(query.returnTo).value, Trim(query.state, NEXT_LINE),
                                             Left(env, current, query)[1..], QueryFlag(query.guestOk))))
  {
    var asked := GoingOnAsks(env, current, query);
    StartAnswers(env, current, query, asked);
  }

  lemma {:induction false} PlainFlag()
    ensures QueryFlag(Some("1")) && !QueryFlag(None)
  {
    assert Trim("1", NEXT_LINE) == "1";
  }

  datatype Run = Run(visited: seq<Origin>, last: Response, store: Store)

  /**
    Follows the browser from one start endpoint to the next. The offered list is what runs out; a list with a
    comma in a host may grow once, when it is first sent.
   */
  ghost function Chase(env: Env, current: Origin, query: StartQuery): (run: Run)
    requires Sound(env)
    ensures run.visited != [] && run.visited[0] == current && !GoesOn(run.last)
    decreases if NoCommas(Offered(env, query)) then 0 else 1, |Offered(env, query)|
  {
    var (response, store) := StepAt(env, current, query);
    if !GoesOn(response) then Run([current], response, store)
    else
      HopPassesOn(env, current, query);
      Prepend(current, Chase(env, response.origin, response.place.start))
  }

  ghost function Prepend(first: Origin, rest: Run): Run {
    Run([first] + rest.visited, rest.last, rest.store)
  }

  // ----- What a chain amounts to

  ghost predicate Live(env: Env, peer: Origin) {
    LiveFamily(env.sessionAt(peer), env.now, env.store.families).Some?
  }

  /** The search ends at this peer: it will not serve the target, or it has a session to hand over. */
  ghost predicate Stops(env: Env, target: Origin, peer: Origin) {
    !IsTrustedTarget(env.cfg, peer, target) || Live(env, peer)
  }

  ghost function FirstStop(env: Env, target: Origin, peers: seq<Origin>): (k: nat)
    ensures k <= |peers| && (k < |peers| ==> Stops(env, target, peers[k]))
    ensures forall i :: 0 <= i < k ==> !Stops(env, target, peers[i])
  {
    if peers == [] || Stops(env, target, peers[0]) then 0 else 1 + FirstStop(env, target, peers[1..])
  }

  /** The parts of a start URL that every peer passes on unchanged. */
  datatype Request = Request(target: Origin, returnTo: string, state: string, guestOk: bool)

  /** Where the run ends, given where the search stopped, and the store after it. */
  ghost function Ending(env: Env, asked: Request, peers: seq<Origin>, k: nat): (Response, Store)
    requires k <= |peers| && (k < |peers| ==> Stops(env, asked.target, peers[k]))
  {
    var target := asked.target;
    if k == |peers| then (Redirect(target, NoSession(asked.returnTo, asked.guestOk)), env.store)
    else if !IsTrustedTarget(env.cfg, peers[k], target) then (Redirect(peers[k], LoginPage(BadTarget)), env.store)
    else if env.created.None? then (Redirect(target, LoginPage(BadHandoff)), env.store)
    else (Redirect(target, CallbackPage(CallbackQuery(env.created.value, asked.state))),
          Created(env.store, env.created.value,
                  Handoff(env.sessionAt(peers[k]).value.family, target, asked.returnTo, asked.state, env.now)))
  }

  /** The peers up to the first stop, and the ending there. */
  ghost function Search(env: Env, asked: Request, peers: seq<Origin>): Run {
    var k := FirstStop(env, asked.target, peers);
    Run(if k < |peers| then peers[..k + 1] else peers, Ending(env, asked, peers, k).0, Ending(env, asked, peers, k).1)
  }

  /** Each peer once, in the order of first mention. */
  ghost function FirstMentions(peers: seq<Origin>): (once: seq<Origin>)
    ensures Distinct(once) && forall o :: o in once <==> o in peers
    ensures |once| <= |peers|
    decreases |peers|
  {
    if peers == [] then []
    else
      assert forall o :: o in peers <==> o == peers[0] || o in peers[1..];
      WithoutCounts(peers[1..], peers[0]);
      [peers[0]] + FirstMentions(Without(peers[1..], peers[0]))
  }

  lemma {:induction false} DistinctAreMentionedOnce(peers: seq<Origin>)
    requires Distinct(peers)
    ensures FirstMentions(peers) == peers
  {
    if peers != [] {
      DistinctAreMentionedOnce(peers[1..]);
      WithoutCounts(peers[1..], peers[0]);
      assert peers[0] !in peers[1..];
    }
  }

  /** A handoff that gets as far as the session: both ends trusted and apart, and a path and a state. */
  ghost predicate Asks(env: Env, current: Origin, query: StartQuery, asked: Request) {
    && IsTrustedOrigin(env.cfg, current) && IsTrustedOrigin(env.cfg, asked.target) && asked.target != current
    && env.normalize(query.targetOrigin) == Some(asked.target)
    && RelativeReturnTo(query.returnTo) == Some(asked.returnTo)
    && Trim(query.state, NEXT_LINE) == asked.state != "" && QueryFlag(query.guestOk) == asked.guestOk
  }

  /** The three answers of a start step to such a handoff. */
  lemma {:induction false} StartAnswers(env: Env, current: Origin, query: StartQuery, asked: Request)
    requires Asks(env, current, query, asked)
    ensures StepAt(env, current, query)
         == if Stops(env, asked.target, current) then Ending(env, asked, [current], 0)
            else (PassOn(env.cfg, current, asked.target, asked.returnTo, query, env.normalize), env.store)
  {
  }

  /** Only such a handoff sends the browser on. */
  lemma {:induction false} GoingOnAsks(env: Env, current: Origin, query: StartQuery) returns (asked: Request)
    requires GoesOn(StartAt(env, current, query))
    ensures Asks(env, current, query, asked)
  {
    var target, returnTo, state := env.normalize(query.targetOrigin), RelativeReturnTo(query.returnTo),
                                   Trim(query.state, NEXT_LINE);
    assert target.Some? && returnTo.Some? && state != "" && target != Some(current);
    assert IsTrustedOrigin(env.cfg, current) && IsTrustedTarget(env.cfg, current, target.value);
    asked := Request(target.value, returnTo.value, state, QueryFlag(query.guestOk));
  }

  /** The next peer is asked for the same. */
  lemma {:induction false} AsksOn(env: Env, current: Origin, query: StartQuery, asked: Request, peer: Origin,
                                  next: StartQuery)
    requires Sound(env) && Asks(env, current, query, asked)
    requires StartAt(env, current, query) == Redirect(peer, StartPage(next))
    ensures Left(env, current, query) != [] && peer == Left(env, current, query)[0]
    ensures Asks(env, peer, next, asked)
  {
    HopPassesOn(env, current, query);
    CandidatesAre(env.cfg, asked.target);
    assert Left(env, current, query)[0] in Left(env, current, query);
  }

  lemma {:induction false} OnlyCurrentFiltered(peers: seq<Origin>, current: Origin, target: Origin,
                                               allowed: seq<Origin>)
    requires target !in peers && forall o :: o in peers ==> o in allowed
    ensures Remaining(peers, current, target, allowed) == Without(peers, current)
  {
    if peers != [] {
      var last := |peers| - 1;
      InitOf(peers);
      OnlyCurrentFiltered(peers[..last], current, target, allowed);
    }
  }

  lemma InitOf(peers: seq<Origin>)
    requires peers != []
    ensures var last := |peers| - 1; peers[last] in peers && forall o :: o in peers[..last] ==> o in peers
  {
  }

  lemma {:induction false} SearchOneMore(env: Env, asked: Request, first: Origin, rest: seq<Origin>)
    ensures Search(env, asked, [first] + rest)
         == if Stops(env, asked.target, first)
            then Run([first], Ending(env, asked, [first], 0).0, Ending(env, asked, [first], 0).1)
            else Prepend(first, Search(env, asked, rest))
  {
    var peers := [first] + rest;
    assert peers[1..] == rest && peers[..1] == [first];
    if !Stops(env, asked.target, first) {
      var j := FirstStop(env, asked.target, rest);
      assert FirstStop(env, asked.target, peers) == j + 1;
      assert j < |rest| ==> rest[j] == peers[j + 1] && [first] + rest[..j + 1] == peers[..j + 2];
    }
  }

  /**
    From any start URL, with any peer list however stale, repeated or invented: the browser visits, in order and
    each once, the peers left to ask, up to and including the first that refuses the target or has a session.
   */
  lemma {:induction false} SearchesInOrder(env: Env, current: Origin, query: StartQuery, asked: Request)
    requires Sound(env) && Asks(env, current, query, asked) && NoCommas(Left(env, current, query))
    ensures Chase(env, current, query)
         == Search(env, asked, [current] + FirstMentions(Left(env, current, query)))
    decreases |Left(env, current, query)|
  {
    var left := Left(env, current, query);
    var rest := FirstMentions(left);
    SearchOneMore(env, asked, current, rest);
    if Stops(env, asked.target, current) || left == [] {
      StaysHere(env, current, query, asked);
    } else {
      var next := NextIsLeft(env, current, query, asked);
      SearchesInOrder(env, left[0], next, asked);
      assert rest == [left[0]] + FirstMentions(Without(left[1..], left[0]));
    }
  }

  lemma {:induction false} StaysHere(env: Env, current: Origin, query: StartQuery, asked: Request)
    requires Sound(env) && Asks(env, current, query, asked)
    requires Stops(env, asked.target, current) || Left(env, current, query) == []
    ensures var (last, store) := if Stops(env, asked.target, current) then Ending(env, asked, [current], 0)
                                 else Ending(env, asked, [], 0);
            Chase(env, current, query) == Run([current], last, store)
  {
    StartAnswers(env, current, query, asked);
  }

  lemma {:induction false} NextIsLeft(env: Env, current: Origin, query: StartQuery, asked: Request)
    returns (next: StartQuery)
    requires Sound(env) && Asks(env, current, query, asked) && NoCommas(Left(env, current, query))
    requires !Stops(env, asked.target, current) && Left(env, current, query) != []
    ensures var left := Left(env, current, query);
            && Asks(env, left[0], next, asked) && Left(env, left[0], next) == Without(left[1..], left[0])
            && |Left(env, left[0], next)| < |left| && NoCommas(Left(env, left[0], next))
            && Chase(env, current, query) == Prepend(current, Chase(env, left[0], next))
  {
    var left := Left(env, current, query);
    next := GoesToNext(env, current, query, asked);
    HopPassesOn(env, current, query);
    AsksOn(env, current, query, asked, left[0], next);
    assert forall o :: o in left[1..] ==> o in left;
    WithoutCounts(left[1..], left[0]);
    OnlyCurrentFiltered(left[1..], left[0], asked.target, CandidatePeers(env.cfg, asked.target));
  }

  lemma {:induction false} GoesToNext(env: Env, current: Origin, query: StartQuery, asked: Request)
    returns (next: StartQuery)
    requires Sound(env) && Asks(env, current, query, asked)
    requires !Stops(env, asked.target, current) && Left(env, current, query) != []
    ensures StartAt(env, current, query) == Redirect(Left(env, current, query)[0], StartPage(next))
    ensures Chase(env, current, query) == Prepend(current, Chase(env, Left(env, current, query)[0], next))
  {
    StartAnswers(env, current, query, asked);
    next := StartAt(env, current, query).place.start;
  }

  lemma {:induction false} DistinctFit(some: seq<Origin>, all: seq<Origin>)
    requires Distinct(some) && forall o :: o in some ==> o in all
    ensures |some| <= |all|
  {
    if some != [] {
      var last := |some| - 1;
      assert some[last] in some && forall o :: o in some[..last] ==> o in some && o != some[last];
      WithoutCounts(all, some[last]);
      DistinctFit(some[..last], Without(all, some[last]));
    }
  }

  /** With any hosts left to ask: what the next peer reads has no comma, and from there on the search is in order. */
  lemma {:induction false} SearchesAfterFirstHop(env: Env, current: Origin, query: StartQuery, asked: Request)
    returns (next: StartQuery)
    requires Sound(env) && Asks(env, current, query, asked)
    requires !Stops(env, asked.target, current) && Left(env, current, query) != []
    ensures var left := Left(env, current, query);
            && Asks(env, left[0], next, asked) && Offered(env, next) == ParsePeers(Sent(left[1..]), env.normalize)
            && Chase(env, current, query)
               == Prepend(current, Search(env, asked, [left[0]] + FirstMentions(Left(env, left[0], next))))
  {
    var left := Left(env, current, query);
    next := GoesToNext(env, current, query, asked);
    HopPassesOn(env, current, query);
    AsksOn(env, current, query, asked, left[0], next);
    SearchesInOrder(env, left[0], next, asked);
  }

  lemma {:induction false} VisitsOnly(env: Env, asked: Request, first: Origin, rest: seq<Origin>)
    requires Distinct(rest) && first !in rest
    ensures var visited := Search(env, asked, [first] + rest).visited;
            && visited != [] && visited[0] == first && Distinct(visited) && |visited| <= |rest| + 1
            && first !in visited[1..] && forall o :: o in visited[1..] ==> o in rest
  {
    var peers, visited := [first] + rest, Search(env, asked, [first] + rest).visited;
    assert visited != [] && visited == peers[..|visited|];
    assert forall i :: 0 <= i < |visited| - 1 ==> visited[1..][i] == rest[i];
  }

  lemma {:induction false} ChainEnds(env: Env, current: Origin, query: StartQuery, asked: Request)
    requires Sound(env) && Asks(env, current, query, asked) && NoCommas(Left(env, current, query))
    ensures var visited, left := Chase(env, current, query).visited, Left(env, current, query);
            && visited[0] == current && Distinct(visited) && |visited| <= |left| + 1
            && current !in visited[1..] && forall o :: o in visited[1..] ==> o in left
  {
    SearchesInOrder(env, current, query, asked);
    VisitsOnly(env, asked, current, FirstMentions(Left(env, current, query)));
  }

  /** The later origins were left to ask, none is asked twice, and none is where the chain began. */
  ghost predicate AsksEachOnce(later: seq<Origin>, current: Origin, left: seq<Origin>) {
    Distinct(later) && current !in later && |later| <= |left| && forall o :: o in later ==> o in left
  }

  /**
    From any start URL the chain ends, in every configuration: every later origin is one this server would
    offer for the target, and none comes twice, so there are no more of them than candidates. When no host left
    to ask has a comma, they are peers that were offered, so they are no more than those, and the browser does
    not come back to where it was.
   */
  lemma {:induction false} EveryChainEnds(env: Env, current: Origin, query: StartQuery)
    requires Sound(env)
    ensures var later, target := Chase(env, current, query).visited[1..], env.normalize(query.targetOrigin);
            later != [] ==>
              && target.Some? && Distinct(later) && |later| <= |CandidatePeers(env.cfg, target.value)|
              && (forall o :: o in later ==> o in CandidatePeers(env.cfg, target.value))
              && |Left(env, current, query)| <= |Offered(env, query)|
              && (NoCommas(Left(env, current, query)) ==> AsksEachOnce(later, current, Left(env, current, query)))
  {
    if GoesOn(StartAt(env, current, query)) {
      var asked := GoingOnAsks(env, current, query);
      var peer, next := StartAt(env, current, query).origin, StartAt(env, current, query).place.start;
      HopPassesOn(env, current, query);
      AsksOn(env, current, query, asked, peer, next);
      ChainEnds(env, peer, next, asked);
      var later := Chase(env, peer, next).visited;
      assert Chase(env, current, query).visited[1..] == later;
      assert peer in Left(env, current, query) && forall o :: o in later ==> o == peer || o in later[1..];
      DistinctFit(later, CandidatePeers(env.cfg, asked.target));
      if NoCommas(Left(env, current, query)) {
        ChainEnds(env, current, query, asked);
      }
    }
  }

  // ----- The run from prepare

  /** Whom the browser asks from a start URL on, in order, as long as nobody stops it. */
  ghost function Asked(env: Env, current: Origin, query: StartQuery): seq<Origin>
    requires env.normalize(query.targetOrigin).Some?
  {
    [current] + FirstMentions(Left(env, current, query))
  }

  lemma {:induction false} PreparedAsks(env: Env, target: Origin, query: PrepareQuery, state: string)
    returns (asked: Request)
    requires Sound(env) && IsNormal(target, env.normalize) && NormalPort(target)
    requires state != "" && Trim(state, NEXT_LINE) == state
    requires PrepareOutcome(Some(env.cfg), Some(target), query, state).Prepared?
    ensures var prepared := PrepareOutcome(Some(env.cfg), Some(target), query, state);
            && asked == Request(target, RelativeReturnTo(query.returnTo).value, state, QueryFlag(query.guestOk))
            && Asks(env, prepared.first, prepared.query, asked) && IsTrustedOrigin(env.cfg, target)
            && CandidatePeers(env.cfg, target) != [] && prepared.first == CandidatePeers(env.cfg, target)[0]
            && Offered(env, prepared.query) == ParsePeers(Sent(CandidatePeers(env.cfg, target)[1..]), env.normalize)
  {
    CandidatesAre(env.cfg, target);
    TrimTwice(query.returnTo.GetOr("/"));
    PlainFlag();
    asked := Request(target, RelativeReturnTo(query.returnTo).value, state, QueryFlag(query.guestOk));
    assert CandidatePeers(env.cfg, target)[0] in CandidatePeers(env.cfg, target);
  }

  /**
    Whom a prepared run asks: candidates only, the first one first, each once. It is the whole list of
    candidates in its order exactly when no candidate behind the first has a comma in its host.
   */
  lemma {:induction false} AskedFromPrepare(env: Env, target: Origin, query: StartQuery, asked: Request)
    requires Sound(env) && NormalPort(target) && target == asked.target && CandidatePeers(env.cfg, target) != []
    requires Asks(env, CandidatePeers(env.cfg, target)[0], query, asked)
    requires Offered(env, query) == ParsePeers(Sent(CandidatePeers(env.cfg, target)[1..]), env.normalize)
    ensures var peers := CandidatePeers(env.cfg, target); var all := Asked(env, peers[0], query);
            && Distinct(all) && (forall o :: o in all ==> o in peers) && NoCommas(Left(env, peers[0], query))
            && (all == peers <==> NoCommas(peers[1..]))
  {
    var peers := CandidatePeers(env.cfg, target);
    CandidatesAre(env.cfg, target);
    CandidatesAreNormal(env.cfg, target, env.normalize);
    TailOf(peers);
    PeersRoundTrip(peers[1..], env.normalize);
    ReadHasNoComma(peers[1..], env.normalize);
    NothingFiltered(Offered(env, query), peers[1..], peers[0], target, peers);
    OnceEach(Offered(env, query), target, peers);
    SameWithFirst(peers, FirstMentions(Left(env, peers[0], query)));
  }

  lemma {:induction false} OnceEach(offered: seq<Origin>, target: Origin, peers: seq<Origin>)
    requires peers != [] && NoCommas(offered)
    ensures var left := Remaining(offered, peers[0], target, peers);
            var all := [peers[0]] + FirstMentions(left);
            Distinct(all) && (forall o :: o in all ==> o in peers) && NoCommas(left)
  {
    var left := Remaining(offered, peers[0], target, peers);
    Prefixed(peers[0], FirstMentions(left));
  }

  lemma Prefixed(first: Origin, rest: seq<Origin>)
    requires first !in rest && Distinct(rest)
    ensures Distinct([first] + rest) && forall o :: o in [first] + rest ==> o == first || o in rest
  {
  }

  lemma SameWithFirst(peers: seq<Origin>, rest: seq<Origin>)
    requires peers != []
    ensures [peers[0]] + rest == peers <==> rest == peers[1..]
  {
    assert ([peers[0]] + rest)[1..] == rest && [peers[0]] + peers[1..] == peers;
  }

  lemma {:induction false} TailOf(peers: seq<Origin>)
    requires peers != [] && Distinct(peers)
    ensures peers[0] !in peers[1..] && Distinct(peers[1..]) && forall o :: o in peers[1..] ==> o in peers
    ensures forall normalize :: AllNormal(peers, normalize) ==> AllNormal(peers[1..], normalize)
  {
  }

  /** Of candidates that are read as they were sent nothing is filtered out; a comma among them shows. */
  lemma {:induction false} NothingFiltered(offered: seq<Origin>, rest: seq<Origin>, first: Origin, target: Origin,
                                           allowed: seq<Origin>)
    requires NoCommas(offered) && (offered == rest <==> NoCommas(rest))
    requires Distinct(rest) && first !in rest && target !in rest && forall o :: o in rest ==> o in allowed
    ensures FirstMentions(Remaining(offered, first, target, allowed)) == rest <==> NoCommas(rest)
  {
    if NoCommas(rest) {
      OnlyCurrentFiltered(rest, first, target, allowed);
      WithoutCounts(rest, first);
      DistinctAreMentionedOnce(rest);
    } else {
      var o :| o in rest && HasComma(o);
      assert o !in Remaining(offered, first, target, allowed);
    }
  }

  /**
    The run from `prepare` at `target`: the browser visits whom it asks in order, each once, up to and including
    the first that refuses the target or has a session, and the run ends there: at the callback, at the refusing
    peer's login page, or with no session when every peer was asked.
   */
  lemma {:induction false} RunFromPrepare(env: Env, target: Origin, query: PrepareQuery, state: string)
    requires Sound(env) && IsNormal(target, env.normalize) && NormalPort(target)
    requires state != "" && Trim(state, NEXT_LINE) == state
    requires PrepareOutcome(Some(env.cfg), Some(target), query, state).Prepared?
    ensures var prepared := PrepareOutcome(Some(env.cfg), Some(target), query, state);
            && env.normalize(prepared.query.targetOrigin) == Some(target)
            && var peers, all := CandidatePeers(env.cfg, target), Asked(env, prepared.first, prepared.query);
               var asked := Request(target, RelativeReturnTo(query.returnTo).value, state, QueryFlag(query.guestOk));
               && Chase(env, prepared.first, prepared.query) == Search(env, asked, all)
               && peers != [] && all[0] == peers[0] && Distinct(all) && (forall o :: o in all ==> o in peers)
               && (all == peers <==> NoCommas(peers[1..]))
  {
    var prepared := PrepareOutcome(Some(env.cfg), Some(target), query, state);
    var asked := PreparedAsks(env, target, query, state);
    AskedFromPrepare(env, target, prepared.query, asked);
    SearchesInOrder(env, prepared.first, prepared.query, asked);
  }

  /**
    When no peer refuses, exactly: the target is listed, or every listed origin is a loopback alias of
    the target's server. A loopback target beside an unrelated listed origin is refused there, although
    `prepare` accepted it.
   */
  lemma {:induction false} NoPeerRefusesExactly(cfg: Config, target: Origin)
    requires Distinct(cfg.trusted) && IsTrustedOrigin(cfg, target)
    ensures (forall peer :: peer in CandidatePeers(cfg, target) ==> IsTrustedTarget(cfg, peer, target))
        <==> target in cfg.trusted || forall o :: o in cfg.trusted ==> IsLoopback(o) && SameAuthority(o, target)
  {
    CandidatesAre(cfg, target);
    assert forall o :: o in LoopbackSiblings(target) ==> IsLoopback(o) && SameAuthority(o, target);
  }

  /**
    When no candidate refuses and somebody asked is live: the first live one stores a code for its own family,
    and the run ends at the callback with that code. Whenever the browser brings it there, the code is spent; it
    logs the browser in with that family exactly when at most a minute has passed, the family is still alive, and
    the return path is header text.
   */
  lemma {:induction false} LoginCompletes(env: Env, target: Origin, query: PrepareQuery, state: string, later: int)
    requires Sound(env) && IsNormal(target, env.normalize) && NormalPort(target)
    requires state != "" && Trim(state, NEXT_LINE) == state && env.created.Some?
    requires PrepareOutcome(Some(env.cfg), Some(target), query, state).Prepared?
    requires forall peer :: peer in CandidatePeers(env.cfg, target) ==> IsTrustedTarget(env.cfg, peer, target)
    requires var prepared := PrepareOutcome(Some(env.cfg), Some(target), query, state);
             env.normalize(prepared.query.targetOrigin).Some?
             && exists peer :: peer in Asked(env, prepared.first, prepared.query) && Live(env, peer)
    ensures var prepared := PrepareOutcome(Some(env.cfg), Some(target), query, state);
            var all, run := Asked(env, prepared.first, prepared.query), Chase(env, prepared.first, prepared.query);
            var k, returnTo := FirstStop(env, target, all), RelativeReturnTo(query.returnTo).value;
            && k < |all| && Live(env, all[k]) && (forall i :: 0 <= i < k ==> !Live(env, all[i]))
            && run.visited == all[..k + 1]
            && var record := Handoff(env.sessionAt(all[k]).value.family, target, returnTo, state, env.now);
               var callback := CallbackQuery(env.created.value, state);
               && run.last == Redirect(target, CallbackPage(callback))
               && run.store == Created(env.store, env.created.value, record)
               && TakenExactly(env.cfg, run.store, callback, record, later)
  {
    var prepared := PrepareOutcome(Some(env.cfg), Some(target), query, state);
    RunFromPrepare(env, target, query, state);
    var all := Asked(env, prepared.first, prepared.query);
    FirstStopIsLive(env, target, all);
    TrimTwice(query.returnTo.GetOr("/"));
    var asked := Request(target, RelativeReturnTo(query.returnTo).value, state, QueryFlag(query.guestOk));
    EndsAtCallback(env, asked, all);
    var run, k := Chase(env, prepared.first, prepared.query), FirstStop(env, target, all);
    var record := Handoff(env.sessionAt(all[k]).value.family, target, asked.returnTo, state, env.now);
    CallbackTakes(env.cfg, run.store, env.created.value, record, later);
  }

  lemma {:induction false} EndsAtCallback(env: Env, asked: Request, all: seq<Origin>)
    requires var k := FirstStop(env, asked.target, all); k < |all| && Live(env, all[k]) && env.created.Some?
                                                         && IsTrustedTarget(env.cfg, all[k], asked.target)
    ensures var k, code := FirstStop(env, asked.target, all), env.created.value;
            Search(env, asked, all)
            == Run(all[..k + 1], Redirect(asked.target, CallbackPage(CallbackQuery(code, asked.state))),
                   Created(env.store, code, Handoff(env.sessionAt(all[k]).value.family, asked.target, asked.returnTo,
                                                    asked.state, env.now)))
  {
  }

  lemma {:induction false} FirstStopIsLive(env: Env, target: Origin, peers: seq<Origin>)
    requires forall peer :: peer in peers ==> IsTrustedTarget(env.cfg, peer, target)
    requires exists peer :: peer in peers && Live(env, peer)
    ensures var k := FirstStop(env, target, peers);
            k < |peers| && Live(env, peers[k]) && forall i :: 0 <= i < k ==> !Live(env, peers[i])
  {
    var peer :| peer in peers && Live(env, peer);
    var i :| 0 <= i < |peers| && peers[i] == peer;
    assert Stops(env, target, peers[i]);
  }

  /**
    The callback at the target with the state's own cookie: the code is gone; it is granted exactly when it is
    in time, its family is alive and its path is header text, and it panics exactly when only the last fails.
   */
  ghost predicate TakenExactly(cfg: Config, store: Store, callback: CallbackQuery, record: Handoff, now: int) {
    var outcome := CallbackOutcome(Some(cfg), Some(record.target), callback, Some(record.state), now, store, true,
                                   true);
    var inTime := now - record.createdAt <= 60 && record.family in store.families
                  && now <= store.families[record.family].expiresAt
                  && now <= store.families[record.family].idleExpiresAt;
    && callback.code !in outcome.1.codes
    && outcome.2 == (if inTime && IsHeaderText(record.returnTo) then Some(record) else None)
    && outcome.0 == (if !inTime then NavigationError(Some(cfg), Some(record.target), None, BadHandoff)
                     else if IsHeaderText(record.returnTo) then Redirect(record.target, Landing(record.returnTo))
                     else Panic)
  }

  ghost predicate GoodRequest(returnTo: string, state: string) {
    RelativeReturnTo(Some(returnTo)) == Some(returnTo) && state != "" && Trim(state, NEXT_LINE) == state
  }

  lemma {:induction false} CallbackTakes(cfg: Config, store: Store, code: Code, record: Handoff, now: int)
    requires code in store.codes && store.codes[code] == record && GoodRequest(record.returnTo, record.state)
    ensures TakenExactly(cfg, store, CallbackQuery(code, record.state), record, now)
  {
  }
}
