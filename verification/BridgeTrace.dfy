/**
  Every interleaving of bridge requests by any browsers: browsers, cookie jars, live families, the code
  store and a log of what happened.

  The state cookie carries no Domain attribute, so a browser returns it to its host whatever the port or
  the scheme: cookie jars are keyed by host.
 */
module BridgeTrace {
  import opened Text
  import opened Origins
  import opened BridgeConfig
  import opened BridgeHandlers
  import opened BridgeLaws

  type Browser = nat

  const COOKIE_LIFETIME: int := 300

  datatype Cookie = Cookie(state: string, expiresAt: int)

  datatype Event =
    | Minted(at: int, browser: Browser, origin: Origin, state: string)
    | Opened(at: int, browser: Browser, host: Host, session: Session)
    | Coded(at: int, browser: Browser, origin: Origin, code: Code, record: Handoff, cfg: Config, session: Session,
            meta: Meta)
    | Took(at: int, code: Code)
    | Granted(at: int, browser: Browser, origin: Origin, code: Code, record: Handoff)

  datatype World = World(now: int, cfg: Config, cookies: map<(Browser, Host), Cookie>,
                         sessions: map<(Browser, Host), Session>, store: Store, log: seq<Event>)

  datatype Action =
    | Prepare(browser: Browser, origin: Option<Origin>, loads: bool, prepare: PrepareQuery, minted: string)
    | Start(browser: Browser, origin: Option<Origin>, loads: bool, start: StartQuery, created: Option<Code>)
    | Callback(browser: Browser, origin: Option<Origin>, loads: bool, callback: CallbackQuery,
               canRead: bool, canIssue: bool, accessLifetime: nat)
    | SignIn(browser: Browser, host: Host, family: Family, meta: Meta, accessExpiresAt: int)
    | SignOut(family: Family)
    | Evict(code: Code)
    | Wait(seconds: nat)
    | Reconfigure(cfg: Config)

  function LoadedConfig(w: World, loads: bool): Option<Config> {
    if loads then Some(w.cfg) else None
  }

  function CookieAt(w: World, browser: Browser, origin: Option<Origin>): Option<string> {
    if origin.Some? && (browser, origin.value.host) in w.cookies
      && w.now < w.cookies[(browser, origin.value.host)].expiresAt
    then Some(w.cookies[(browser, origin.value.host)].state) else None
  }

  function SessionAt(w: World, browser: Browser, origin: Option<Origin>): Option<Session> {
    if origin.Some? && (browser, origin.value.host) in w.sessions
        then Some(w.sessions[(browser, origin.value.host)]) else None
  }

  ghost predicate UnusedState(log: seq<Event>, state: string) {
    forall e :: e in log ==> !(e.Minted? && e.state == state) && !(e.Coded? && e.record.state == state)
  }

  ghost predicate UnusedCode(log: seq<Event>, code: Code) {
    forall e :: e in log ==> !(e.Coded? && e.code == code) && !(e.Took? && e.code == code)
  }

  /** A minted state is a new UUID without white space; a created code is new random hex. */
  ghost predicate Enabled(w: World, a: Action) {
    match a
    case Prepare(_, _, _, _, minted) => minted != "" && Trim(minted, NEXT_LINE) == minted && UnusedState(w.log, minted)
    case Start(_, _, _, _, created) => created.Some? ==> UnusedCode(w.log, created.value)
    case _ => true
  }

  /** The answer a browser gets. */
  ghost function Answer(w: World, a: Action, normalize: Normalizer): Response {
    match a
    case Prepare(_, origin, loads, prepare, minted) => PrepareOutcome(LoadedConfig(w, loads), origin, prepare, minted)
    case Start(browser, origin, loads, start, created) =>
      StartOutcome(LoadedConfig(w, loads), origin, start, SessionAt(w, browser, origin), w.now, w.store, created,
                   normalize).0
    case Callback(browser, origin, loads, callback, canRead, canIssue, _) =>
      CallbackOutcome(LoadedConfig(w, loads), origin, callback, CookieAt(w, browser, origin), w.now, w.store, canRead,
                      canIssue).0
    case _ => Page
  }

  ghost function AfterPrepare(w: World, a: Action, normalize: Normalizer): World
    requires a.Prepare?
  {
    if !Answer(w, a, normalize).Prepared? then w
    else
      var origin := a.origin.value;
      w.(cookies := w.cookies[(a.browser, origin.host) := Cookie(a.minted, w.now + COOKIE_LIFETIME)],
         log := w.log + [Minted(w.now, a.browser, origin, a.minted)])
  }

  ghost function AfterStart(w: World, a: Action, normalize: Normalizer): World
    requires a.Start?
  {
    var store := StartOutcome(LoadedConfig(w, a.loads), a.origin, a.start, SessionAt(w, a.browser, a.origin),
                              w.now, w.store, a.created, normalize).1;
    if store == w.store then w
    else
      StartStores(w, a, normalize);
      var record := store.codes[a.created.value];
      w.(store := store,
         log := w.log + [Coded(w.now, a.browser, a.origin.value, a.created.value, record, w.cfg,
                               SessionAt(w, a.browser, a.origin).value, w.store.families[record.family])])
  }

  /** What a start step that changes the store did. */
  lemma {:induction false} StartStores(w: World, a: Action, normalize: Normalizer)
    requires a.Start?
    requires StartOutcome(LoadedConfig(w, a.loads), a.origin, a.start, SessionAt(w, a.browser, a.origin),
                          w.now, w.store, a.created, normalize).1 != w.store
    ensures a.origin.Some? && a.created.Some? && a.loads
    ensures var store := StartOutcome(LoadedConfig(w, a.loads), a.origin, a.start, SessionAt(w, a.browser, a.origin),
                                      w.now, w.store, a.created, normalize).1;
            && a.created.value in store.codes
            && var record := store.codes[a.created.value];
               && store == Created(w.store, a.created.value, record)
               && record.createdAt == w.now && record.state != "" && record.target != a.origin.value
               && IsTrustedOrigin(w.cfg, a.origin.value) && IsTrustedTarget(w.cfg, a.origin.value, record.target)
               && var session := SessionAt(w, a.browser, a.origin);
                  && session.Some? && record.family == session.value.family && w.now <= session.value.accessExpiresAt
                  && record.family in w.store.families && w.now <= w.store.families[record.family].expiresAt
                  && w.now <= w.store.families[record.family].idleExpiresAt
  {
  }

  /** The code leaves the store as soon as the states agree and the store answers. */
  ghost predicate Takes(w: World, a: Action)
    requires a.Callback?
  {
    a.loads && a.origin.Some? && CookieAt(w, a.browser, a.origin) == Some(Trim(a.callback.state, NEXT_LINE))
      && a.canRead
    && a.callback.code in w.store.codes
  }

  ghost function GrantedTo(w: World, a: Action): Option<Handoff>
    requires a.Callback?
  {
    CallbackOutcome(LoadedConfig(w, a.loads), a.origin, a.callback, CookieAt(w, a.browser, a.origin),
                    w.now, w.store, a.canRead, a.canIssue).2
  }

  /** The world once the code is taken, before anything is granted. */
  ghost function Taken(w: World, a: Action): World
    requires a.Callback?
  {
    w.(store := CallbackOutcome(LoadedConfig(w, a.loads), a.origin, a.callback, CookieAt(w, a.browser, a.origin),
                                w.now, w.store, a.canRead, a.canIssue).1,
       log := w.log + [Took(w.now, a.callback.code)])
  }

  ghost function AfterCallback(w: World, a: Action): World
    requires a.Callback?
  {
    if !Takes(w, a) then w
    else
      var taken := Taken(w, a);
      if GrantedTo(w, a).None? then taken
      else
        var key, record := (a.browser, a.origin.value.host), GrantedTo(w, a).value;
        taken.(cookies := w.cookies - {key},
               sessions := w.sessions[key := Session(record.family, w.now + a.accessLifetime)],
               log := taken.log + [Granted(w.now, a.browser, a.origin.value, a.callback.code, record)])
  }

  ghost function After(w: World, a: Action, normalize: Normalizer): World {
    match a
    case Prepare(_, _, _, _, _) => AfterPrepare(w, a, normalize)
    case Start(_, _, _, _, _) => AfterStart(w, a, normalize)
    case Callback(_, _, _, _, _, _, _) => AfterCallback(w, a)
    case SignIn(browser, host, family, meta, accessExpiresAt) =>
      w.(store := w.store.(families := w.store.families[family := meta]),
         sessions := w.sessions[(browser, host) := Session(family, accessExpiresAt)],
         log := w.log + [Opened(w.now, browser, host, Session(family, accessExpiresAt))])
    case SignOut(family) => w.(store := w.store.(families := w.store.families - {family}))
    case Evict(code) => w.(store := w.store.(codes := w.store.codes - {code}))
    case Wait(seconds) => w.(now := w.now + seconds)
    case Reconfigure(cfg) => w.(cfg := cfg)
  }

  ghost predicate Run(from: World, actions: seq<Action>, normalize: Normalizer) {
    actions == [] || (Run(from, actions[..|actions| - 1], normalize)
                      && Enabled(Ending(from, actions[..|actions| - 1], normalize), actions[|actions| - 1]))
  }

  ghost function Ending(from: World, actions: seq<Action>, normalize: Normalizer): World {
    if actions == [] then from
    else After(Ending(from, actions[..|actions| - 1], normalize), actions[|actions| - 1], normalize)
  }

  function Initial(now: int, cfg: Config): World {
    World(now, cfg, map[], map[], Store(map[], map[]), [])
  }

  // ----- The invariant

  /** Entry `i` minted `state` for the browser on this host, and nothing later did before `end`. */
  ghost predicate LatestMint(log: seq<Event>, i: nat, end: nat, browser: Browser, host: Host, state: string)
    requires end <= |log|
  {
    && i < end && log[i].Minted? && log[i].browser == browser && log[i].origin.host == host && log[i].state == state
    && forall m :: i < m < end && log[m].Minted? && log[m].browser == browser ==> log[m].origin.host != host
  }

  /**
    Entry `j` stored this record under this code, at a trusted peer where the browser's access token named that
    family and neither the token nor the family had expired.
   */
  ghost predicate StoredAt(log: seq<Event>, j: nat, code: Code, record: Handoff)
    requires j < |log|
  {
    var e := log[j];
    && e.Coded? && e.code == code && e.record == record && record.createdAt == e.at && record.target != e.origin
    && IsTrustedOrigin(e.cfg, e.origin) && IsTrustedTarget(e.cfg, e.origin, record.target)
    && e.session.family == record.family && e.at <= e.session.accessExpiresAt
    && e.at <= e.meta.expiresAt && e.at <= e.meta.idleExpiresAt
  }

  /** Everything behind a granted session: see `EverySessionIsBacked`. */
  ghost predicate Backed(log: seq<Event>, i: nat, j: nat, k: nat)
    requires k < |log| && log[k].Granted?
  {
    var g := log[k];
    && i < j < k - 1
    && LatestMint(log, i, k, g.browser, g.origin.host, g.record.state) && g.at < log[i].at + 300
    && StoredAt(log, j, g.code, g.record) && g.record.target == g.origin && g.at - log[j].at <= 60
    && log[k - 1] == Took(g.at, g.code)
  }

  ghost predicate HasBacking(log: seq<Event>, k: nat)
    requires k < |log| && log[k].Granted?
  {
    exists i: nat, j: nat :: Backed(log, i, j, k)
  }

  ghost predicate AllBacked(log: seq<Event>) {
    forall k: nat :: k < |log| && log[k].Granted? ==> HasBacking(log, k)
  }

  ghost predicate CookiesMinted(w: World) {
    forall key :: key in w.cookies ==>
      exists i: nat :: LatestMint(w.log, i, |w.log|, key.0, key.1, w.cookies[key].state)
                       && w.cookies[key].expiresAt == w.log[i].at + COOKIE_LIFETIME
  }

  ghost predicate CodesStored(w: World) {
    forall code :: code in w.store.codes ==>
      && (exists j: nat :: j < |w.log| && StoredAt(w.log, j, code, w.store.codes[code]))
      && forall e :: e in w.log ==> !(e.Took? && e.code == code)
  }

  /** No code is stored twice and none taken twice; a minted state was not in use before. */
  ghost predicate Unrepeated(log: seq<Event>) {
    && (forall i, j :: 0 <= i < j < |log| && log[i].Coded? && log[j].Coded? ==> log[i].code != log[j].code)
    && (forall i, j :: 0 <= i < j < |log| && log[i].Took? && log[j].Took? ==> log[i].code != log[j].code)
    && (forall i, j :: 0 <= i < j < |log| && log[i].Minted? && log[j].Minted? ==> log[i].state != log[j].state)
    && (forall i, j :: 0 <= i < j < |log| && log[i].Coded? && log[j].Minted? ==> log[i].record.state != log[j].state)
  }

  /** Entry `i` gave the browser this session at this host: by signing in, or by a grant of the same family. */
  ghost predicate Gave(log: seq<Event>, i: nat, browser: Browser, host: Host, session: Session)
    requires i < |log|
  {
    var e := log[i];
    || (e.Opened? && e.browser == browser && e.host == host && e.session == session)
    || (e.Granted? && e.browser == browser && e.origin.host == host && e.record.family == session.family)
  }

  ghost predicate GivenBefore(log: seq<Event>, end: nat, browser: Browser, host: Host, session: Session)
    requires end <= |log|
  {
    exists i: nat :: i < end && Gave(log, i, browser, host, session)
  }

  ghost predicate SessionsGiven(w: World) {
    forall key :: key in w.sessions ==> GivenBefore(w.log, |w.log|, key.0, key.1, w.sessions[key])
  }

  /** Every code was stored with a session the browser was given before. */
  ghost predicate StoredWithGiven(log: seq<Event>) {
    forall j: nat :: j < |log| && log[j].Coded? ==>
      GivenBefore(log, j, log[j].browser, log[j].origin.host, log[j].session)
  }

  ghost predicate Invariant(w: World) {
    CookiesMinted(w) && CodesStored(w) && Unrepeated(w.log) && AllBacked(w.log) && SessionsGiven(w)
    && StoredWithGiven(w.log)
  }

  // ----- Growing the log

  lemma {:induction false} BackedStays(log: seq<Event>, e: Event, i: nat, j: nat, k: nat)
    requires k < |log| && log[k].Granted? && Backed(log, i, j, k)
    ensures Backed(log + [e], i, j, k)
  {
    var more := log + [e];
    assert forall m :: 0 <= m < |log| ==> more[m] == log[m];
  }

  lemma {:induction false} AllBackedStays(log: seq<Event>, e: Event)
    requires AllBacked(log)
    requires e.Granted? ==> HasBacking(log + [e], |log|)
    ensures AllBacked(log + [e])
  {
    var more := log + [e];
    forall k: nat | k < |more| && more[k].Granted?
      ensures HasBacking(more, k)
    {
      if k < |log| {
        assert more[k] == log[k];
        var i: nat, j: nat :| Backed(log, i, j, k);
        BackedStays(log, e, i, j, k);
      }
    }
  }

  lemma {:induction false} UnrepeatedStays(log: seq<Event>, e: Event)
    requires Unrepeated(log)
    requires e.Coded? ==> UnusedCode(log, e.code)
    requires e.Took? ==> forall f :: f in log ==> !(f.Took? && f.code == e.code)
    requires e.Minted? ==> UnusedState(log, e.state)
    ensures Unrepeated(log + [e])
  {
    var more := log + [e];
    assert forall m :: 0 <= m < |log| ==> more[m] == log[m] && log[m] in log;
  }

  lemma {:induction false} LatestMintStays(log: seq<Event>, e: Event, i: nat, browser: Browser, host: Host,
                                           state: string)
    requires LatestMint(log, i, |log|, browser, host, state)
    requires e.Minted? && e.browser == browser ==> e.origin.host != host
    ensures LatestMint(log + [e], i, |log| + 1, browser, host, state) && (log + [e])[i] == log[i]
  {
    var more := log + [e];
    assert forall m :: 0 <= m < |log| ==> more[m] == log[m];
  }

  /** The cookies that were there stay minted, all but one the new event may replace. */
  lemma {:induction false} CookiesStay(w: World, next: World, e: Event)
    requires CookiesMinted(w) && next.log == w.log + [e]
    requires forall key :: key in next.cookies ==>
               (key in w.cookies && next.cookies[key] == w.cookies[key]
                && !(e.Minted? && key == (e.browser, e.origin.host)))
               || (e.Minted? && key == (e.browser, e.origin.host)
                   && next.cookies[key] == Cookie(e.state, e.at + COOKIE_LIFETIME))
    ensures CookiesMinted(next)
  {
    forall key | key in next.cookies
      ensures exists i: nat :: LatestMint(next.log, i, |next.log|, key.0, key.1, next.cookies[key].state)
                               && next.cookies[key].expiresAt == next.log[i].at + COOKIE_LIFETIME
    {
      if e.Minted? && key == (e.browser, e.origin.host) {
        assert LatestMint(next.log, |w.log|, |next.log|, key.0, key.1, e.state);
      } else {
        var i: nat :| LatestMint(w.log, i, |w.log|, key.0, key.1, w.cookies[key].state)
                      && w.cookies[key].expiresAt == w.log[i].at + COOKIE_LIFETIME;
        LatestMintStays(w.log, e, i, key.0, key.1, w.cookies[key].state);
      }
    }
  }

  lemma {:induction false} CodesStay(w: World, next: World, e: Event)
    requires CodesStored(w) && next.log == w.log + [e]
    requires forall code :: code in next.store.codes ==>
               (code in w.store.codes && next.store.codes[code] == w.store.codes[code] && !(e.Took? && e.code == code))
               || (e.Coded? && e.code == code && StoredAt([e], 0, code, next.store.codes[code])
                   && UnusedCode(w.log, code))
    ensures CodesStored(next)
  {
    forall code | code in next.store.codes
      ensures exists j: nat :: j < |next.log| && StoredAt(next.log, j, code, next.store.codes[code])
      ensures forall f :: f in next.log ==> !(f.Took? && f.code == code)
    {
      if code in w.store.codes && next.store.codes[code] == w.store.codes[code] && !(e.Took? && e.code == code) {
        var j: nat :| j < |w.log| && StoredAt(w.log, j, code, w.store.codes[code]);
        assert next.log[j] == w.log[j];
        assert StoredAt(next.log, j, code, next.store.codes[code]);
      } else {
        assert next.log[|w.log|] == e;
        assert StoredAt(next.log, |w.log|, code, next.store.codes[code]);
      }
    }
  }

  lemma {:induction false} GivenStays(log: seq<Event>, e: Event, end: nat, browser: Browser, host: Host,
                                      session: Session)
    requires end <= |log| && GivenBefore(log, end, browser, host, session)
    ensures GivenBefore(log + [e], end, browser, host, session)
    ensures GivenBefore(log + [e], |log| + 1, browser, host, session)
  {
    var i: nat :| i < end && Gave(log, i, browser, host, session);
    assert (log + [e])[i] == log[i];
    assert Gave(log + [e], i, browser, host, session);
  }

  /** The sessions that were there were given; a new one is given by the new event. */
  lemma {:induction false} SessionsStay(w: World, next: World, e: Event)
    requires SessionsGiven(w) && StoredWithGiven(w.log) && next.log == w.log + [e]
    requires forall key :: key in next.sessions ==>
               (key in w.sessions && next.sessions[key] == w.sessions[key])
               || Gave([e], 0, key.0, key.1, next.sessions[key])
    requires e.Coded? ==> GivenBefore(w.log, |w.log|, e.browser, e.origin.host, e.session)
    ensures SessionsGiven(next) && StoredWithGiven(next.log)
  {
    forall key | key in next.sessions
      ensures GivenBefore(next.log, |next.log|, key.0, key.1, next.sessions[key])
    {
      if key in w.sessions && next.sessions[key] == w.sessions[key] {
        GivenStays(w.log, e, |w.log|, key.0, key.1, w.sessions[key]);
      } else {
        assert next.log[|w.log|] == e;
        assert Gave(next.log, |w.log|, key.0, key.1, next.sessions[key]);
      }
    }
    forall j: nat | j < |next.log| && next.log[j].Coded?
      ensures GivenBefore(next.log, j, next.log[j].browser, next.log[j].origin.host, next.log[j].session)
    {
      assert j < |w.log| ==> next.log[j] == w.log[j];
      GivenStays(w.log, e, j, next.log[j].browser, next.log[j].origin.host, next.log[j].session);
    }
  }

  // ----- Every step keeps it

  lemma {:induction false} PrepareKeeps(w: World, a: Action, normalize: Normalizer)
    requires Invariant(w) && a.Prepare? && Enabled(w, a)
    ensures Invariant(After(w, a, normalize))
  {
    if Answer(w, a, normalize).Prepared? {
      var next, e := After(w, a, normalize), Minted(w.now, a.browser, a.origin.value, a.minted);
      CookiesStay(w, next, e);
      SessionsStay(w, next, e);
      CodesStay(w, next, e);
      UnrepeatedStays(w.log, e);
      AllBackedStays(w.log, e);
    }
  }

  lemma {:induction false} StartKeeps(w: World, a: Action, normalize: Normalizer)
    requires Invariant(w) && a.Start? && Enabled(w, a)
    ensures Invariant(After(w, a, normalize))
  {
    var next := After(w, a, normalize);
    if next != w {
      StartStores(w, a, normalize);
      var e := next.log[|w.log|];
      assert next.log == w.log + [e];
      CookiesStay(w, next, e);
      SessionsStay(w, next, e);
      CodesStay(w, next, e);
      UnrepeatedStays(w.log, e);
      AllBackedStays(w.log, e);
    }
  }

  /** A callback that does not take its code changes nothing; in particular one whose state is not the cookie's. */
  lemma {:induction false} UntakenChangesNothing(w: World, a: Action)
    requires a.Callback?
    ensures CookieAt(w, a.browser, a.origin) != Some(Trim(a.callback.state, NEXT_LINE)) ==> !Takes(w, a)
    ensures !Takes(w, a) ==>
              CallbackOutcome(LoadedConfig(w, a.loads), a.origin, a.callback, CookieAt(w, a.browser, a.origin),
                              w.now, w.store, a.canRead, a.canIssue).1 == w.store && GrantedTo(w, a).None?
  {
    if a.callback.code !in w.store.codes {
      assert w.store.codes - {a.callback.code} == w.store.codes;
    }
  }

  /** What a callback that takes its code did. */
  lemma {:induction false} CallbackTakesOnce(w: World, a: Action)
    requires a.Callback? && Takes(w, a)
    ensures CallbackOutcome(LoadedConfig(w, a.loads), a.origin, a.callback, CookieAt(w, a.browser, a.origin),
                            w.now, w.store, a.canRead, a.canIssue).1.codes == w.store.codes - {a.callback.code}
    ensures GrantedTo(w, a).Some? ==>
              var record := w.store.codes[a.callback.code];
              && GrantedTo(w, a).value == record && record.target == a.origin.value
              && record.state == Trim(a.callback.state, NEXT_LINE) && w.now - record.createdAt <= 60
              && record.family in w.store.families && w.now <= w.store.families[record.family].expiresAt
              && w.now <= w.store.families[record.family].idleExpiresAt
  {
  }

  lemma {:induction false} TakeKeeps(w: World, store: Store, code: Code)
    requires Invariant(w) && code in w.store.codes && store.codes == w.store.codes - {code}
    ensures Invariant(w.(store := store, log := w.log + [Took(w.now, code)]))
  {
    var e := Took(w.now, code);
    var next := w.(store := store, log := w.log + [e]);
    CookiesStay(w, next, e);
    SessionsStay(w, next, e);
    CodesStay(w, next, e);
    UnrepeatedStays(w.log, e);
    AllBackedStays(w.log, e);
  }

  lemma {:induction false} GrantIsBacked(w: World, a: Action)
    requires Invariant(w) && a.Callback? && Takes(w, a) && GrantedTo(w, a).Some?
    ensures var log := w.log + [Took(w.now, a.callback.code)]
                       + [Granted(w.now, a.browser, a.origin.value, a.callback.code, GrantedTo(w, a).value)];
            HasBacking(log, |w.log| + 1)
  {
    CallbackTakesOnce(w, a);
    CookieInTime(w, a);
    BackedInStore(w, a.browser, a.origin.value, a.callback.code);
  }

  lemma {:induction false} BackedInStore(w: World, browser: Browser, origin: Origin, code: Code)
    requires CookiesMinted(w) && CodesStored(w) && Unrepeated(w.log) && code in w.store.codes
    requires var key, record := (browser, origin.host), w.store.codes[code];
             && key in w.cookies && w.cookies[key].state == record.state && w.now < w.cookies[key].expiresAt
             && record.target == origin && w.now - record.createdAt <= 60
    ensures HasBacking(w.log + [Took(w.now, code)] + [Granted(w.now, browser, origin, code, w.store.codes[code])],
                       |w.log| + 1)
  {
    var i, j := MintBeforeCode(w, (browser, origin.host), code);
    BackedBy(w.log, Granted(w.now, browser, origin, code, w.store.codes[code]), i, j);
  }

  lemma {:induction false} CookieInTime(w: World, a: Action)
    requires a.Callback? && Takes(w, a)
    ensures a.origin.Some?
    ensures var key := (a.browser, a.origin.value.host);
            key in w.cookies && w.cookies[key].state == Trim(a.callback.state, NEXT_LINE)
            && w.now < w.cookies[key].expiresAt
  {
  }

  /** A cookie and a code of one state: the cookie's `prepare` came first. */
  lemma {:induction false} MintBeforeCode(w: World, key: (Browser, Host), code: Code) returns (i: nat, j: nat)
    requires CookiesMinted(w) && CodesStored(w) && Unrepeated(w.log)
    requires key in w.cookies && code in w.store.codes && w.cookies[key].state == w.store.codes[code].state
    ensures i < j < |w.log| && LatestMint(w.log, i, |w.log|, key.0, key.1, w.cookies[key].state)
    ensures w.cookies[key].expiresAt == w.log[i].at + COOKIE_LIFETIME && StoredAt(w.log, j, code, w.store.codes[code])
  {
    i :| LatestMint(w.log, i, |w.log|, key.0, key.1, w.cookies[key].state)
         && w.cookies[key].expiresAt == w.log[i].at + COOKIE_LIFETIME;
    j :| j < |w.log| && StoredAt(w.log, j, code, w.store.codes[code]);
  }

  lemma {:induction false} BackedBy(log: seq<Event>, g: Event, i: nat, j: nat)
    requires g.Granted? && i < j && LatestMint(log, i, |log|, g.browser, g.origin.host, g.record.state)
    requires g.at < log[i].at + 300
    requires j < |log| && StoredAt(log, j, g.code, g.record) && g.record.target == g.origin
    requires g.at - log[j].at <= 60
    ensures HasBacking(log + [Took(g.at, g.code)] + [g], |log| + 1)
  {
    var longer := log + [Took(g.at, g.code)] + [g];
    assert forall m :: 0 <= m < |log| ==> longer[m] == log[m];
    assert longer[|log|] == Took(g.at, g.code) && longer[|log| + 1] == g;
    assert Backed(longer, i, j, |log| + 1);
  }

  lemma {:induction false} CallbackKeeps(w: World, a: Action, normalize: Normalizer)
    requires Invariant(w) && a.Callback?
    ensures Invariant(After(w, a, normalize))
  {
    if Takes(w, a) {
      TakenKeeps(w, a);
      if GrantedTo(w, a).Some? {
        GrantStaysBacked(w, a);
        GrantedKeeps(w, a);
      }
    }
  }

  lemma {:induction false} TakenKeeps(w: World, a: Action)
    requires Invariant(w) && a.Callback? && Takes(w, a)
    ensures Invariant(Taken(w, a))
  {
    CallbackTakesOnce(w, a);
    TakeKeeps(w, Taken(w, a).store, a.callback.code);
  }

  ghost function GrantEvent(w: World, a: Action): Event
    requires a.Callback? && a.origin.Some? && GrantedTo(w, a).Some?
  {
    Granted(w.now, a.browser, a.origin.value, a.callback.code, GrantedTo(w, a).value)
  }

  lemma {:induction false} GrantedWorld(w: World, a: Action)
    requires a.Callback? && Takes(w, a) && GrantedTo(w, a).Some?
    ensures var taken, next := Taken(w, a), AfterCallback(w, a);
            && next.log == taken.log + [GrantEvent(w, a)] && next.store == taken.store
            && (forall key :: key in next.cookies ==> key in taken.cookies && next.cookies[key] == taken.cookies[key])
            && forall key :: key in next.sessions ==>
                 (key in taken.sessions && next.sessions[key] == taken.sessions[key])
                 || Gave([GrantEvent(w, a)], 0, key.0, key.1, next.sessions[key])
  {
  }

  lemma {:induction false} GrantStaysBacked(w: World, a: Action)
    requires Invariant(w) && a.Callback? && Takes(w, a) && GrantedTo(w, a).Some?
    ensures |AfterCallback(w, a).log| == |w.log| + 2 && AfterCallback(w, a).log[|w.log| + 1] == GrantEvent(w, a)
    ensures HasBacking(AfterCallback(w, a).log, |w.log| + 1)
  {
    GrantIsBacked(w, a);
    GrantedWorld(w, a);
  }

  lemma {:induction false} GrantedKeeps(w: World, a: Action)
    requires a.Callback? && Takes(w, a) && GrantedTo(w, a).Some? && Invariant(Taken(w, a))
    requires |AfterCallback(w, a).log| == |w.log| + 2 && AfterCallback(w, a).log[|w.log| + 1] == GrantEvent(w, a)
    requires HasBacking(AfterCallback(w, a).log, |w.log| + 1)
    ensures Invariant(AfterCallback(w, a))
  {
    GrantedWorld(w, a);
    GrantKeeps(Taken(w, a), AfterCallback(w, a), GrantEvent(w, a));
  }

  lemma {:induction false} GrantKeeps(taken: World, next: World, e: Event)
    requires Invariant(taken) && e.Granted? && next.log == taken.log + [e] && HasBacking(next.log, |taken.log|)
    requires next.store == taken.store
    requires forall key :: key in next.cookies ==> key in taken.cookies && next.cookies[key] == taken.cookies[key]
    requires forall key :: key in next.sessions ==>
               (key in taken.sessions && next.sessions[key] == taken.sessions[key])
               || Gave([e], 0, key.0, key.1, next.sessions[key])
    ensures Invariant(next)
  {
    CookiesStay(taken, next, e);
    SessionsStay(taken, next, e);
    CodesStay(taken, next, e);
    UnrepeatedStays(taken.log, e);
    AllBackedStays(taken.log, e);
  }

  lemma {:induction false} SignInKeeps(w: World, a: Action, normalize: Normalizer)
    requires Invariant(w) && a.SignIn?
    ensures Invariant(After(w, a, normalize))
  {
    var next, e := After(w, a, normalize), Opened(w.now, a.browser, a.host, Session(a.family, a.accessExpiresAt));
    CookiesStay(w, next, e);
    SessionsStay(w, next, e);
    CodesStay(w, next, e);
    UnrepeatedStays(w.log, e);
    AllBackedStays(w.log, e);
  }

  lemma {:induction false} StepKeeps(w: World, a: Action, normalize: Normalizer)
    requires Invariant(w) && Enabled(w, a)
    ensures Invariant(After(w, a, normalize))
  {
    match a
    case Prepare(_, _, _, _, _) => PrepareKeeps(w, a, normalize);
    case Start(_, _, _, _, _) => StartKeeps(w, a, normalize);
    case Callback(_, _, _, _, _, _, _) => CallbackKeeps(w, a, normalize);
    case SignIn(_, _, _, _, _) => SignInKeeps(w, a, normalize);
    case _ =>
  }

  lemma {:induction false} RunKeeps(now: int, cfg: Config, actions: seq<Action>, normalize: Normalizer)
    requires Run(Initial(now, cfg), actions, normalize)
    ensures Invariant(Ending(Initial(now, cfg), actions, normalize))
  {
    if actions != [] {
      var last := |actions| - 1;
      RunKeeps(now, cfg, actions[..last], normalize);
      StepKeeps(Ending(Initial(now, cfg), actions[..last], normalize), actions[last], normalize);
    }
  }

  /**
    Safety over every run. A session granted at an origin was prepared for in that browser, at that host,
    by the latest `prepare` there and at most 300 seconds earlier; between the two, a peer other than the
    target, trusted and with a live session of the same family, stored the code for that state and that
    origin at most 60 seconds earlier; and that code was stored once and taken once in the whole run.
   */
  lemma {:induction false} EverySessionIsBacked(now: int, cfg: Config, actions: seq<Action>, normalize: Normalizer,
                                                k: nat)
    requires Run(Initial(now, cfg), actions, normalize)
    requires var log := Ending(Initial(now, cfg), actions, normalize).log; k < |log| && log[k].Granted?
    ensures var log := Ending(Initial(now, cfg), actions, normalize).log;
            && HasBacking(log, k)
            && (forall m :: 0 <= m < |log| && log[m].Took? && log[m].code == log[k].code ==> m == k - 1)
            && (forall m, n :: 0 <= m < n < |log| && log[m].Coded? && log[n].Coded? && log[m].code == log[k].code ==>
                  log[n].code != log[k].code)
  {
    RunKeeps(now, cfg, actions, normalize);
    var log := Ending(Initial(now, cfg), actions, normalize).log;
    var i: nat, j: nat :| Backed(log, i, j, k);
  }

  /** Somebody signed in with this family before entry `end`. */
  ghost predicate SignedInBefore(log: seq<Event>, end: nat, family: Family)
    requires end <= |log|
  {
    exists i: nat :: i < end && log[i].Opened? && log[i].session.family == family
  }

  /** Grants pass a family on and never make one: behind every granted family there is a sign-in. */
  lemma {:induction false} EveryFamilySignedIn(now: int, cfg: Config, actions: seq<Action>, normalize: Normalizer,
                                               k: nat)
    requires Run(Initial(now, cfg), actions, normalize)
    requires var log := Ending(Initial(now, cfg), actions, normalize).log; k < |log| && log[k].Granted?
    ensures var log := Ending(Initial(now, cfg), actions, normalize).log;
            SignedInBefore(log, k, log[k].record.family)
  {
    RunKeeps(now, cfg, actions, normalize);
    FamilyComesFrom(Ending(Initial(now, cfg), actions, normalize).log, k);
  }

  lemma {:induction false} FamilyComesFrom(log: seq<Event>, k: nat)
    requires AllBacked(log) && StoredWithGiven(log) && k < |log| && log[k].Granted?
    ensures SignedInBefore(log, k, log[k].record.family)
  {
    var i: nat, j: nat :| Backed(log, i, j, k);
    var g: nat :| g < j && Gave(log, g, log[j].browser, log[j].origin.host, log[j].session);
    if log[g].Granted? {
      FamilyComesFrom(log, g);
      var s: nat :| s < g && log[s].Opened? && log[s].session.family == log[g].record.family;
      assert s < k && log[s].session.family == log[k].record.family;
    }
  }

  /** The latest `prepare` of this browser at this origin's host ran at the origin itself. */
  ghost predicate LatestPrepareHere(log: seq<Event>, browser: Browser, origin: Origin) {
    exists i: nat :: i < |log| && log[i].Minted? && log[i].origin == origin
                     && LatestMint(log, i, |log|, browser, origin.host, log[i].state)
  }

  /**
    When a callback logs in, the state it carries was prepared at that very origin exactly when the
    browser's latest `prepare` at that host ran there: the cookie alone does not say which port it was.
   */
  lemma {:induction false} PreparedHereExactly(now: int, cfg: Config, actions: seq<Action>, normalize: Normalizer,
                                               a: Action)
    requires Run(Initial(now, cfg), actions, normalize) && a.Callback?
    requires GrantedTo(Ending(Initial(now, cfg), actions, normalize), a).Some?
    ensures a.origin.Some?
    ensures var w := Ending(Initial(now, cfg), actions, normalize);
            (exists e :: e in w.log && e.Minted? && e.state == Trim(a.callback.state, NEXT_LINE)
                         && e.origin == a.origin.value)
            <==> LatestPrepareHere(w.log, a.browser, a.origin.value)
  {
    var w := Ending(Initial(now, cfg), actions, normalize);
    RunKeeps(now, cfg, actions, normalize);
    UntakenChangesNothing(w, a);
    var state := Trim(a.callback.state, NEXT_LINE);
    var key := (a.browser, a.origin.value.host);
    var i: nat :| LatestMint(w.log, i, |w.log|, key.0, key.1, w.cookies[key].state)
                  && w.cookies[key].expiresAt == w.log[i].at + COOKIE_LIFETIME;
    MintDecides(w.log, i, state);
    LatestIsOne(w.log, i, a.browser, a.origin.value);
    assert w.log[i] in w.log;
  }

  lemma {:induction false} MintDecides(log: seq<Event>, i: nat, state: string)
    requires Unrepeated(log) && i < |log| && log[i].Minted? && log[i].state == state
    ensures forall e :: e in log && e.Minted? && e.state == state ==> e == log[i]
  {
    forall m | 0 <= m < |log| && log[m].Minted? && log[m].state == state
      ensures m == i
    {
    }
  }

  lemma {:induction false} LatestIsOne(log: seq<Event>, i: nat, browser: Browser, origin: Origin)
    requires i < |log| && log[i].Minted? && LatestMint(log, i, |log|, browser, origin.host, log[i].state)
    ensures LatestPrepareHere(log, browser, origin) <==> log[i].origin == origin
  {
    if LatestPrepareHere(log, browser, origin) {
      var j: nat :| j < |log| && log[j].Minted? && log[j].origin == origin
                    && LatestMint(log, j, |log|, browser, origin.host, log[j].state);
      assert i == j;
    }
  }

  // ----- Where redirects lead

  ghost predicate IsSafe(cfg: Option<Config>, answer: Response) {
    answer.Redirect? ==> cfg.Some? && IsTrustedOrigin(cfg.value, answer.origin)
  }

  lemma {:induction false} StartRedirectsAreTrusted(cfg: Option<Config>, current: Option<Origin>, query: StartQuery,
                                                    session: Option<Session>, now: int, store: Store,
                                                    created: Option<Code>, normalize: Normalizer)
    ensures IsSafe(cfg, StartOutcome(cfg, current, query, session, now, store, created, normalize).0)
  {
    if cfg.Some? && current.Some? && IsHandoff(cfg.value, current.value, query, normalize)
       && LiveFamily(session, now, store.families).None? {
      PassedOn(cfg.value, current.value, query, session, now, store, created, normalize);
      PassOnIsTrusted(cfg.value, current.value, normalize(query.targetOrigin).value,
                      RelativeReturnTo(query.returnTo).value, query, normalize);
    } else {
      NotPassedOn(cfg, current, query, session, now, store, created, normalize);
    }
  }

  lemma {:induction false} PassedOn(cfg: Config, current: Origin, query: StartQuery, session: Option<Session>, now: int,
                                    store: Store, created: Option<Code>, normalize: Normalizer)
    requires IsHandoff(cfg, current, query, normalize) && LiveFamily(session, now, store.families).None?
    ensures StartOutcome(Some(cfg), Some(current), query, session, now, store, created, normalize).0
         == PassOn(cfg, current, normalize(query.targetOrigin).value, RelativeReturnTo(query.returnTo).value, query,
                   normalize)
  {
  }

  lemma {:induction false} NotPassedOn(cfg: Option<Config>, current: Option<Origin>, query: StartQuery,
                                       session: Option<Session>, now: int, store: Store, created: Option<Code>,
                                       normalize: Normalizer)
    requires !(cfg.Some? && current.Some? && IsHandoff(cfg.value, current.value, query, normalize)
               && LiveFamily(session, now, store.families).None?)
    ensures IsSafe(cfg, StartOutcome(cfg, current, query, session, now, store, created, normalize).0)
  {
  }

  lemma {:induction false} PassOnIsTrusted(cfg: Config, current: Origin, target: Origin, returnTo: string,
                                           query: StartQuery, normalize: Normalizer)
    requires IsTrustedTarget(cfg, current, target)
    ensures var answer := PassOn(cfg, current, target, returnTo, query, normalize);
            answer.Redirect? && IsTrustedOrigin(cfg, answer.origin)
  {
    CandidatesAre(cfg, target);
    var left := Remaining(ParsePeers(query.peers, normalize), current, target, CandidatePeers(cfg, target));
    assert left != [] ==> left[0] in left;
  }

  /** The configuration the codes were stored under is still the one in force. */
  ghost predicate SameConfig(w: World) {
    forall e :: e in w.log && e.Coded? ==> e.cfg == w.cfg
  }

  /**
    A redirect leads to an origin the server trusts now, except that a completed login lands on an origin
    that was a trusted target when its code was stored: the callback does not ask again.
   */
  lemma {:induction false} RedirectsAreTrusted(w: World, a: Action, normalize: Normalizer)
    requires Invariant(w) && Answer(w, a, normalize).Redirect?
    ensures var origin := Answer(w, a, normalize).origin;
            || IsTrustedOrigin(w.cfg, origin)
            || (a.Callback? && Answer(w, a, normalize).place.Landing?
                && exists e :: e in w.log && e.Coded? && e.record.target == origin
                               && IsTrustedTarget(e.cfg, e.origin, origin))
    ensures SameConfig(w) ==> IsTrustedOrigin(w.cfg, Answer(w, a, normalize).origin)
  {
    match a
    case Start(browser, origin, loads, start, created) =>
      StartRedirectsAreTrusted(LoadedConfig(w, loads), origin, start, SessionAt(w, browser, origin), w.now, w.store,
                               created, normalize);
    case Callback(browser, origin, _, callback, _, _, _) =>
      if Answer(w, a, normalize).place.Landing? {
        LandsWhereGranted(w, a, normalize);
        var e := GrantWasForTarget(w, a);
      }
    case _ =>
  }

  /** The code the callback brings was stored for this origin when the configuration listed it. */
  ghost predicate WasListed(log: seq<Event>, code: Code, origin: Origin) {
    exists e :: e in log && e.Coded? && e.code == code && e.record.target == origin && origin in e.cfg.trusted
  }

  /**
    A redirect leads to an origin that is not trusted now exactly when it is a callback that grants a session at
    such an origin. That origin was listed when the code was stored.
   */
  lemma {:induction false} UntrustedLandingExactly(w: World, a: Action, normalize: Normalizer)
    requires Invariant(w) && Answer(w, a, normalize).Redirect?
    ensures var answer := Answer(w, a, normalize);
            !IsTrustedOrigin(w.cfg, answer.origin)
            <==> a.Callback? && GrantedTo(w, a).Some? && a.origin.Some? && !IsTrustedOrigin(w.cfg, a.origin.value)
    ensures var answer := Answer(w, a, normalize);
            !IsTrustedOrigin(w.cfg, answer.origin) ==>
              answer.place.Landing? && answer.origin == a.origin.value
              && WasListed(w.log, a.callback.code, a.origin.value)
  {
    RedirectsAreTrusted(w, a, normalize);
    GrantedLands(w, a, normalize);
    if a.Callback? && Answer(w, a, normalize).place.Landing? {
      LandsWhereGranted(w, a, normalize);
      GrantWasTrusted(w, a);
    }
  }

  lemma {:induction false} LandsWhereGranted(w: World, a: Action, normalize: Normalizer)
    requires a.Callback? && Answer(w, a, normalize).Redirect? && Answer(w, a, normalize).place.Landing?
    ensures Takes(w, a) && GrantedTo(w, a).Some? && Answer(w, a, normalize).origin == a.origin.value
  {
    UntakenChangesNothing(w, a);
  }

  lemma {:induction false} GrantedLands(w: World, a: Action, normalize: Normalizer)
    ensures a.Callback? && GrantedTo(w, a).Some? ==>
              a.origin.Some? && Answer(w, a, normalize).Redirect? && Answer(w, a, normalize).place.Landing?
              && Answer(w, a, normalize).origin == a.origin.value
  {
  }

  /** The event that stored the granted code: its target is where the callback is, and was trusted then. */
  lemma {:induction false} GrantWasForTarget(w: World, a: Action) returns (e: Event)
    requires CodesStored(w) && a.Callback? && Takes(w, a) && GrantedTo(w, a).Some?
    ensures e in w.log && e.Coded? && e.code == a.callback.code && e.record.target == a.origin.value
    ensures IsTrustedTarget(e.cfg, e.origin, a.origin.value)
  {
    CallbackTakesOnce(w, a);
    var j := StoringEvent(w, a.callback.code);
    e := w.log[j];
  }

  lemma {:induction false} StoringEvent(w: World, code: Code) returns (j: nat)
    requires CodesStored(w) && code in w.store.codes
    ensures j < |w.log| && StoredAt(w.log, j, code, w.store.codes[code])
  {
    j :| j < |w.log| && StoredAt(w.log, j, code, w.store.codes[code]);
  }

  lemma {:induction false} GrantWasTrusted(w: World, a: Action)
    requires CodesStored(w) && a.Callback? && Takes(w, a) && GrantedTo(w, a).Some?
    ensures IsLoopback(a.origin.value) || WasListed(w.log, a.callback.code, a.origin.value)
  {
    var e := GrantWasForTarget(w, a);
  }

  lemma {:induction false} ConfigStays(now: int, cfg: Config, actions: seq<Action>, normalize: Normalizer)
    requires Run(Initial(now, cfg), actions, normalize) && forall a :: a in actions ==> !a.Reconfigure?
    ensures var w := Ending(Initial(now, cfg), actions, normalize); w.cfg == cfg && SameConfig(w)
  {
    if actions != [] {
      var last := |actions| - 1;
      ConfigStays(now, cfg, actions[..last], normalize);
      assert actions[last] in actions;
    }
  }

  /** Under one configuration, no run makes any endpoint redirect to an origin it does not trust. */
  lemma {:induction false} EveryRedirectIsTrusted(now: int, cfg: Config, actions: seq<Action>, normalize: Normalizer,
                                                  a: Action)
    requires Run(Initial(now, cfg), actions, normalize) && forall b :: b in actions ==> !b.Reconfigure?
    requires Answer(Ending(Initial(now, cfg), actions, normalize), a, normalize).Redirect?
    ensures IsTrustedOrigin(cfg, Answer(Ending(Initial(now, cfg), actions, normalize), a, normalize).origin)
  {
    RunKeeps(now, cfg, actions, normalize);
    ConfigStays(now, cfg, actions, normalize);
    RedirectsAreTrusted(Ending(Initial(now, cfg), actions, normalize), a, normalize);
  }
}
