/**
  Inputs the general theorems have to allow for: the state cookie is shared between the ports of a host, a
  login can land where the configuration has changed, a return path can break the callback, and a loopback
  target can be refused by a listed peer that `prepare` itself put first.
 */
module BridgeWitness {
  import opened Text
  import opened Origins
  import opened BridgeConfig
  import opened BridgeHandlers
  import opened BridgeTrace
  import BridgeRun

  lemma {:induction false} RunOneMore(from: World, actions: seq<Action>, a: Action, normalize: Normalizer)
    requires Run(from, actions, normalize) && Enabled(Ending(from, actions, normalize), a)
    ensures Run(from, actions + [a], normalize)
    ensures Ending(from, actions + [a], normalize) == After(Ending(from, actions, normalize), a, normalize)
  {
    assert (actions + [a])[..|actions|] == actions;
  }

  const HERE: Origin := Origin(Http, Localhost, Some(3000))
  const THERE: Origin := Origin(Http, Localhost, Some(3001))
  const ALIAS: Origin := Origin(Http, Loopback4, Some(3000))
  const PEER: Origin := Origin(Http, Loopback4, Some(3001))

  lemma {:induction false} RootPath()
    ensures RelativeReturnTo(Some("/")) == Some("/") && IsHeaderText("/")
  {
    assert Trim("/", NEXT_LINE) == "/";
  }

  // ----- A login up to the stored code

  /** A handoff that can go all the way: prepared at `first`, and stored at `peer` for `target`. */
  ghost predicate CanStore(cfg: Config, first: Origin, peer: Origin, target: Origin, returnTo: string, state: string,
                           normalize: Normalizer) {
    && IsTrustedOrigin(cfg, first) && CandidatePeers(cfg, first) != []
    && IsTrustedOrigin(cfg, peer) && peer != target && IsTrustedTarget(cfg, peer, target)
    && normalize(Render(target)) == Some(target) && RelativeReturnTo(Some(returnTo)) == Some(returnTo)
    && state != "" && Trim(state, NEXT_LINE) == state
  }

  function Record(target: Origin, returnTo: string, state: string): Handoff {
    Handoff(1, target, returnTo, state, 0)
  }

  /** The world after `prepare`, a sign-in at the peer, and the peer's start step. */
  function Stored(cfg: Config, first: Origin, peer: Origin, target: Origin, returnTo: string, state: string,
                  code: Code): World {
    World(0, cfg, map[(0, first.host) := Cookie(state, 300)], map[(0, peer.host) := Session(1, 100)],
          Store(map[code := Record(target, returnTo, state)], map[1 := Meta(100, 100)]),
          [Minted(0, 0, first, state), Opened(0, 0, peer.host, Session(1, 100)),
           Coded(0, 0, peer, code, Record(target, returnTo, state), cfg, Session(1, 100), Meta(100, 100))])
  }

  lemma {:induction false} Prepares(w: World, first: Origin, returnTo: string, state: string, normalize: Normalizer)
    requires IsTrustedOrigin(w.cfg, first) && CandidatePeers(w.cfg, first) != []
    requires RelativeReturnTo(Some(returnTo)) == Some(returnTo)
    ensures var a := Prepare(0, Some(first), true, PrepareQuery(Some(returnTo), None), state);
            After(w, a, normalize) == w.(cookies := w.cookies[(0, first.host) := Cookie(state, w.now + 300)],
                                         log := w.log + [Minted(w.now, 0, first, state)])
  {
  }

  /** A start step with everything in order stores its code. */
  lemma {:induction false} StoresCode(cfg: Config, current: Origin, query: StartQuery, session: Session, now: int,
                                      store: Store, code: Code, normalize: Normalizer, target: Origin)
    requires IsTrustedOrigin(cfg, current) && normalize(query.targetOrigin) == Some(target)
    requires target != current && IsTrustedTarget(cfg, current, target)
    requires RelativeReturnTo(query.returnTo).Some? && Trim(query.state, NEXT_LINE) != ""
    requires LiveFamily(Some(session), now, store.families) == Some(session.family)
    ensures StartOutcome(Some(cfg), Some(current), query, Some(session), now, store, Some(code), normalize).1
         == Created(store, code, Handoff(session.family, target, RelativeReturnTo(query.returnTo).value,
                                         Trim(query.state, NEXT_LINE), now))
  {
  }

  lemma {:induction false} RunToStored(cfg: Config, first: Origin, peer: Origin, target: Origin, returnTo: string,
                                       state: string, code: Code, normalize: Normalizer) returns (actions: seq<Action>)
    requires CanStore(cfg, first, peer, target, returnTo, state, normalize)
    ensures Run(Initial(0, cfg), actions, normalize)
    ensures Ending(Initial(0, cfg), actions, normalize) == Stored(cfg, first, peer, target, returnTo, state, code)
    ensures forall a :: a in actions && a.Prepare? ==> a.origin == Some(first)
  {
    var prepare := Prepare(0, Some(first), true, PrepareQuery(Some(returnTo), None), state);
    var signIn := SignIn(0, peer.host, 1, Meta(100, 100), 100);
    var start := Start(0, Some(peer), true, StartQuery(Render(target), Some(returnTo), state, None, None), Some(code));
    actions := [] + [prepare] + [signIn] + [start];
    RunOneMore(Initial(0, cfg), [], prepare, normalize);
    Prepares(Initial(0, cfg), first, returnTo, state, normalize);
    RunOneMore(Initial(0, cfg), [] + [prepare], signIn, normalize);
    SignsIn(cfg, first, peer, state, normalize);
    RunOneMore(Initial(0, cfg), [] + [prepare] + [signIn], start, normalize);
    Stores(cfg, first, peer, target, returnTo, state, code, normalize);
  }

  /** The world after `prepare`, and after the sign-in as well. */
  function Ready(cfg: Config, first: Origin, state: string): World {
    World(0, cfg, map[(0, first.host) := Cookie(state, 300)], map[], Store(map[], map[]), [Minted(0, 0, first, state)])
  }

  function SignedIn(cfg: Config, first: Origin, peer: Origin, state: string): World {
    World(0, cfg, map[(0, first.host) := Cookie(state, 300)], map[(0, peer.host) := Session(1, 100)],
          Store(map[], map[1 := Meta(100, 100)]),
          [Minted(0, 0, first, state), Opened(0, 0, peer.host, Session(1, 100))])
  }

  lemma {:induction false} SignsIn(cfg: Config, first: Origin, peer: Origin, state: string, normalize: Normalizer)
    ensures After(Ready(cfg, first, state), SignIn(0, peer.host, 1, Meta(100, 100), 100), normalize)
         == SignedIn(cfg, first, peer, state)
  {
  }

  lemma {:induction false} Stores(cfg: Config, first: Origin, peer: Origin, target: Origin, returnTo: string,
                                  state: string, code: Code, normalize: Normalizer)
    requires CanStore(cfg, first, peer, target, returnTo, state, normalize)
    ensures var w := SignedIn(cfg, first, peer, state);
            var a := Start(0, Some(peer), true, StartQuery(Render(target), Some(returnTo), state, None, None),
                           Some(code));
            Enabled(w, a) && After(w, a, normalize) == Stored(cfg, first, peer, target, returnTo, state, code)
  {
    var w := SignedIn(cfg, first, peer, state);
    StoresCode(cfg, peer, StartQuery(Render(target), Some(returnTo), state, None, None), Session(1, 100), 0, w.store,
               code, normalize, target);
    assert code in Created(w.store, code, Record(target, returnTo, state)).codes;
  }

  /** The callback that brings the code to the target. */
  function Returning(target: Origin, state: string, code: Code): Action {
    Callback(0, Some(target), true, CallbackQuery(code, state), true, true, 10)
  }

  /** What that callback does, whatever the configuration is by then. */
  lemma {:induction false} Returns(w: World, target: Origin, returnTo: string, state: string, code: Code,
                                   normalize: Normalizer)
    requires code in w.store.codes && w.store.codes[code] == Record(target, returnTo, state) && w.now == 0
    requires RelativeReturnTo(Some(returnTo)) == Some(returnTo) && state != "" && Trim(state, NEXT_LINE) == state
    requires (0, target.host) in w.cookies && w.cookies[(0, target.host)] == Cookie(state, 300)
    requires 1 in w.store.families && IsFresh(w.store.families[1], 0)
    ensures var a := Returning(target, state, code);
            && Answer(w, a, normalize)
               == (if IsHeaderText(returnTo) then Redirect(target, Landing(returnTo)) else Panic)
            && code !in After(w, a, normalize).store.codes
            && After(w, a, normalize).log
               == w.log + [Took(0, code)]
                + if IsHeaderText(returnTo) then [Granted(0, 0, target, code, Record(target, returnTo, state))] else []
  {
    BridgeRun.CallbackTakes(w.cfg, w.store, code, Record(target, returnTo, state), 0);
    assert w.log + [Took(0, code)] + [] == w.log + [Took(0, code)];
  }

  /** The log of a login that was prepared at `first` and brought back to the target. */
  function LoginLog(cfg: Config, first: Origin, peer: Origin, target: Origin, returnTo: string, state: string,
                    code: Code): seq<Event> {
    Stored(cfg, first, peer, target, returnTo, state, code).log + [Took(0, code)]
    + if IsHeaderText(returnTo) then [Granted(0, 0, target, code, Record(target, returnTo, state))] else []
  }

  lemma {:induction false} RunToReturn(cfg: Config, first: Origin, peer: Origin, target: Origin, returnTo: string,
                                       state: string, code: Code, normalize: Normalizer) returns (actions: seq<Action>)
    requires CanStore(cfg, first, peer, target, returnTo, state, normalize) && first.host == target.host
    ensures Run(Initial(0, cfg), actions, normalize)
    ensures var w := Ending(Initial(0, cfg), actions, normalize);
            code !in w.store.codes && w.log == LoginLog(cfg, first, peer, target, returnTo, state, code)
  {
    var stored := RunToStored(cfg, first, peer, target, returnTo, state, code, normalize);
    Returns(Stored(cfg, first, peer, target, returnTo, state, code), target, returnTo, state, code, normalize);
    RunOneMore(Initial(0, cfg), stored, Returning(target, state, code), normalize);
    actions := stored + [Returning(target, state, code)];
  }

  // ----- The inputs

  /** With nothing listed, loopback aliases of one server hand over to each other. */
  lemma {:induction false} AliasesCanStore(first: Origin, peer: Origin, target: Origin, returnTo: string, state: string,
                                           normalize: Normalizer)
    requires first.host.Localhost? && IsLoopback(peer) && IsLoopback(target) && SameAuthority(peer, target)
    requires peer != target
    requires ReadsBack(normalize) && NormalPort(target) && RelativeReturnTo(Some(returnTo)) == Some(returnTo)
    requires state != "" && Trim(state, NEXT_LINE) == state
    ensures CanStore(Config([], 0), first, peer, target, returnTo, state, normalize)
  {
    CandidatesAre(Config([], 0), first);
    assert LoopbackSiblings(first)[0] in CandidatePeers(Config([], 0), first);
  }

  /**
    "Prepared at the granted origin itself" is not a property of the code: in this run the session is granted
    at port 3001 of a host and the only `prepare` ran at its port 3000.
   */
  lemma {:induction false} PortsShareTheCookie(state: string, code: Code, normalize: Normalizer)
    returns (actions: seq<Action>)
    requires ReadsBack(normalize) && state != "" && Trim(state, NEXT_LINE) == state
    ensures var w := Ending(Initial(0, Config([], 0)), actions, normalize);
            && Run(Initial(0, Config([], 0)), actions, normalize)
            && (exists e :: e in w.log && e.Granted? && e.origin == THERE && e.record.state == state)
            && forall e :: e in w.log && e.Minted? ==> e.origin == HERE
  {
    RootPath();
    AliasesCanStore(HERE, PEER, THERE, "/", state, normalize);
    actions := RunToReturn(Config([], 0), HERE, PEER, THERE, "/", state, code, normalize);
    GrantedInLog(Config([], 0), HERE, PEER, THERE, "/", state, code);
  }

  lemma {:induction false} GrantedInLog(cfg: Config, first: Origin, peer: Origin, target: Origin, returnTo: string,
                                        state: string, code: Code)
    requires IsHeaderText(returnTo)
    ensures var log := LoginLog(cfg, first, peer, target, returnTo, state, code);
            && Granted(0, 0, target, code, Record(target, returnTo, state)) in log
            && forall e :: e in log && e.Minted? ==> e.origin == first
  {
    assert LoginLog(cfg, first, peer, target, returnTo, state, code)[4]
           == Granted(0, 0, target, code, Record(target, returnTo, state));
  }

  /**
    "A callback leads to an origin trusted now" is not a property of the code: here the target is taken off
    the list between the stored code and the callback, and the login still lands there.
   */
  lemma {:induction false} LandsOnUnlistedOrigin(target: Origin, peer: Origin, state: string, code: Code,
                                                 normalize: Normalizer)
    returns (actions: seq<Action>)
    requires !IsLoopback(target) && !IsLoopback(peer) && peer != target && normalize(Render(target)) == Some(target)
    requires state != "" && Trim(state, NEXT_LINE) == state
    ensures Run(Initial(0, Config([target, peer], 0)), actions, normalize)
    ensures var w := Ending(Initial(0, Config([target, peer], 0)), actions, normalize);
            && Answer(w, Returning(target, state, code), normalize) == Redirect(target, Landing("/"))
            && !IsTrustedOrigin(w.cfg, target)
  {
    var cfg, change := Config([target, peer], 0), Reconfigure(Config([peer], 0));
    RootPath();
    CandidatesAre(cfg, target);
    assert peer in cfg.trusted && target in cfg.trusted && peer in CandidatePeers(cfg, target);
    var stored := RunToStored(cfg, target, peer, target, "/", state, code, normalize);
    actions := stored + [change];
    RunOneMore(Initial(0, cfg), stored, change, normalize);
    Returns(Ending(Initial(0, cfg), actions, normalize), target, "/", state, code, normalize);
  }

  lemma {:induction false} LineBreakPasses()
    ensures RelativeReturnTo(Some("/a\nb")) == Some("/a\nb") && !IsHeaderText("/a\nb")
  {
    var path := "/a\nb";
    assert Trim(path, NEXT_LINE) == path;
    assert path[..1] == "/" && path[1] == 'a' && "//"[1] == '/' && path[2] == '\n';
    assert path[..2][1] == 'a';
  }

  /**
    "A code brought back in time logs the browser in" is not a property of the code: with `/a%0Ab` as return
    path every check passes, the code is spent, and the callback panics over the redirect's header.
   */
  lemma {:induction false} LineBreakLosesTheLogin(state: string, code: Code, normalize: Normalizer)
    returns (actions: seq<Action>)
    requires ReadsBack(normalize) && state != "" && Trim(state, NEXT_LINE) == state
    ensures Run(Initial(0, Config([], 0)), actions, normalize)
    ensures var w, record := Ending(Initial(0, Config([], 0)), actions, normalize), Record(HERE, "/a\nb", state);
            && code !in w.store.codes
            && w.log == [Minted(0, 0, HERE, state), Opened(0, 0, Loopback4, Session(1, 100)),
                         Coded(0, 0, ALIAS, code, record, Config([], 0), Session(1, 100), Meta(100, 100)),
                         Took(0, code)]
    ensures Answer(Stored(Config([], 0), HERE, ALIAS, HERE, "/a\nb", state, code), Returning(HERE, state, code),
                   normalize).Panic?
  {
    LineBreakPasses();
    AliasesCanStore(HERE, ALIAS, HERE, "/a\nb", state, normalize);
    actions := RunToReturn(Config([], 0), HERE, ALIAS, HERE, "/a\nb", state, code, normalize);
    Returns(Stored(Config([], 0), HERE, ALIAS, HERE, "/a\nb", state, code), HERE, "/a\nb", state, code, normalize);
  }

  /** `prepare` accepts a loopback target beside an unrelated listed origin, and puts first the peer that refuses it. */
  lemma {:induction false} ListedPeerRefusesLoopback(listed: Origin, query: PrepareQuery, state: string)
    requires !IsLoopback(listed) && RelativeReturnTo(query.returnTo).Some?
    ensures var cfg := Config([listed], 0);
            && PrepareOutcome(Some(cfg), Some(HERE), query, state).Prepared?
            && PrepareOutcome(Some(cfg), Some(HERE), query, state).first == listed
            && IsTrustedOrigin(cfg, listed) && !IsTrustedTarget(cfg, listed, HERE)
  {
    var cfg := Config([listed], 0);
    assert cfg.trusted[..0] == [] && Without(cfg.trusted, HERE) == [listed];
    MissingComesLater(LoopbackSiblings(HERE), [listed]);
  }
}
