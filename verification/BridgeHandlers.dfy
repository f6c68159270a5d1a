/**
  The three bridge endpoints and the shared one-time code store.

  Each handler is a method over the store and is proved against a function on values; the run and trace
  theorems are about those functions.
 */
module BridgeHandlers {
  import opened Text
  import opened Origins
  import opened BridgeConfig

  type Family = nat
  type Code = string

  const CODE_LIFETIME: int := 60

  datatype Meta = Meta(expiresAt: int, idleExpiresAt: int)

  datatype Handoff = Handoff(family: Family, target: Origin, returnTo: string, state: string, createdAt: int)

  /** The access token a browser presents: its family and its own expiry. */
  datatype Session = Session(family: Family, accessExpiresAt: int)

  datatype Store = Store(codes: map<Code, Handoff>, families: map<Family, Meta>)

  predicate IsFresh(meta: Meta, now: int) {
    now <= meta.expiresAt && now <= meta.idleExpiresAt
  }

  /** The session's family, when the access token has not expired and the family is alive. */
  function LiveFamily(session: Option<Session>, now: int, families: map<Family, Meta>): Option<Family> {
    if session.Some? && now <= session.value.accessExpiresAt
       && session.value.family in families && IsFresh(families[session.value.family], now)
    then Some(session.value.family) else None
  }

  function IdleExpiry(now: int, lifetime: int, absolute: int): int {
    if lifetime <= 0 then absolute else if now + lifetime < absolute then now + lifetime else absolute
  }

  // ----- The store

  function Created(store: Store, code: Code, record: Handoff): Store {
    store.(codes := store.codes[code := record])
  }

  /** `GETDEL`: the code is gone whether or not it is still in time. */
  function Consumed(store: Store, code: Code, now: int): (Store, Option<Handoff>) {
    (store.(codes := store.codes - {code}),
     if code in store.codes && now - store.codes[code].createdAt <= CODE_LIFETIME then Some(store.codes[code])
         else None)
  }

  /** A token inside the same family, whose idle expiry moves; nothing for an unknown or dead family. */
  function Issued(store: Store, family: Family, now: int, idleLifetime: int): (Store, Option<Family>) {
    if family in store.families && IsFresh(store.families[family], now) then
      var meta := store.families[family];
      var renewed := meta.(idleExpiresAt := IdleExpiry(now, idleLifetime, meta.expiresAt));
      (store.(families := store.families[family := renewed]), Some(family))
    else (store, None)
  }

  class HandoffStore {
    var codes: map<Code, Handoff>
    var families: map<Family, Meta>

    ghost function View(): Store
      reads this
    {
      Store(codes, families)
    }

    constructor ()
      ensures View() == Store(map[], map[])
    {
      codes, families := map[], map[];
    }

    method Create(code: Code, record: Handoff)
      modifies this`codes
      ensures View() == Created(old(View()), code, record)
    {
      codes := codes[code := record];
    }

    method Consume(code: Code, now: int) returns (record: Option<Handoff>)
      modifies this`codes
      ensures (View(), record) == Consumed(old(View()), code, now)
    {
      record := None;
      if code in codes && now - codes[code].createdAt <= CODE_LIFETIME {
        record := Some(codes[code]);
      }
      codes := codes - {code};
    }

    method Issue(family: Family, now: int, idleLifetime: int) returns (issued: Option<Family>)
      modifies this`families
      ensures (View(), issued) == Issued(old(View()), family, now, idleLifetime)
    {
      if family !in families || !IsFresh(families[family], now) {
        return None;
      }
      var meta := families[family];
      families := families[family := meta.(idleExpiresAt := IdleExpiry(now, idleLifetime, meta.expiresAt))];
      issued := Some(family);
    }
  }

  // ----- Requests and responses

  datatype PrepareQuery = PrepareQuery(returnTo: Option<string>, guestOk: Option<string>)

  datatype StartQuery = StartQuery(targetOrigin: string, returnTo: Option<string>, state: string,
                                   peers: Option<string>, guestOk: Option<string>)

  datatype CallbackQuery = CallbackQuery(code: Code, state: string)

  datatype Reason = BadConfig | BadOrigin | BadTarget | BadReturn | BadState | BadHandoff

  /** Where on an origin a redirect leads. */
  datatype Place =
    | LoginPage(reason: Reason)
    | StartPage(start: StartQuery)
    | CallbackPage(callback: CallbackQuery)
    | NoSession(returnTo: string, guestOk: bool)
    | Landing(landing: string)

  /**
    A JSON refusal (`prepare` alone), a JSON start URL with the state cookie, an error page, a redirect, or
    no answer at all because the handler panics.
   */
  datatype Response =
    | Refused(status: nat)
    | Prepared(first: Origin, query: StartQuery)
    | Page
    | Redirect(origin: Origin, place: Place)
    | Panic

  function NavigationError(cfg: Option<Config>, current: Option<Origin>, prefer: Option<Origin>,
                           reason: Reason): Response {
    if cfg.Some? && prefer.Some? && IsTrustedOrigin(cfg.value, prefer.value)
    then Redirect(prefer.value, LoginPage(reason))
    else if cfg.Some? && current.Some? && IsTrustedOrigin(cfg.value, current.value)
    then Redirect(current.value, LoginPage(reason))
    else Page
  }

  function RelativeReturnTo(value: Option<string>): Option<string> {
    var v := Trim(value.GetOr("/"), NEXT_LINE);
    if v == "" || !StartsWith(v, "/") || StartsWith(v, "//") then None else Some(v)
  }

  /** What a header value may hold: no control character but the tab. The callback's redirect insists on it. */
  predicate IsHeaderText(s: string) {
    forall i :: 0 <= i < |s| ==> (' ' <= s[i] || s[i] == '\t') && s[i] != '\U{007F}'
  }

  predicate QueryFlag(value: Option<string>) {
    value.Some? && var v := Trim(value.value, NEXT_LINE); v == "1" || v == "true" || v == "yes"
  }

  function StartQueryFor(target: Origin, returnTo: string, state: string, rest: seq<Origin>,
                         guestOk: bool): StartQuery {
    StartQuery(Render(target), Some(returnTo), state, Sent(rest), if guestOk then Some("1") else None)
  }

  // ----- prepare

  ghost function PrepareOutcome(cfg: Option<Config>, current: Option<Origin>, query: PrepareQuery,
                                state: string): Response {
    if cfg.None? then Refused(500)
    else if current.None? then Refused(400)
    else if !IsTrustedOrigin(cfg.value, current.value) then Refused(403)
    else
      var peers := CandidatePeers(cfg.value, current.value);
      if peers == [] then Refused(404)
      else if RelativeReturnTo(query.returnTo).None? then Refused(400)
      else Prepared(peers[0], StartQueryFor(current.value, RelativeReturnTo(query.returnTo).value, state,
                                            peers[1..], QueryFlag(query.guestOk)))
  }

  method PrepareBridge(cfg: Option<Config>, current: Option<Origin>, query: PrepareQuery, state: string)
    returns (response: Response)
    ensures response == PrepareOutcome(cfg, current, query, state)
  {
    if cfg.None? {
      return Refused(500);
    }
    if current.None? {
      return Refused(400);
    }
    if !IsTrustedOrigin(cfg.value, current.value) {
      return Refused(403);
    }
    var peers := ComputeCandidatePeers(cfg.value, current.value);
    if peers == [] {
      return Refused(404);
    }
    var returnTo := RelativeReturnTo(query.returnTo);
    if returnTo.None? {
      return Refused(400);
    }
    response := Prepared(peers[0],
                         StartQueryFor(current.value, returnTo.value, state, peers[1..], QueryFlag(query.guestOk)));
  }

  // ----- start

  /** The peers still worth asking: neither end of the handoff, and only ones this server would offer itself. */
  ghost function Remaining(offered: seq<Origin>, current: Origin, target: Origin,
                           allowed: seq<Origin>): (kept: seq<Origin>)
    ensures forall o :: o in kept <==> o in offered && o != current && o != target && o in allowed
    ensures |kept| <= |offered|
  {
    if offered == [] then []
    else
      var last := |offered| - 1;
      assert forall o :: o in offered <==> o in offered[..last] || o == offered[last];
      Remaining(offered[..last], current, target, allowed)
      + if offered[last] != current && offered[last] != target && offered[last] in allowed then [offered[last]] else []
  }

  /** What a peer answers when it has no session to hand over. */
  ghost function PassOn(cfg: Config, current: Origin, target: Origin, returnTo: string, query: StartQuery,
                        normalize: Normalizer): Response {
    var remaining := Remaining(ParsePeers(query.peers, normalize), current, target, CandidatePeers(cfg, target));
    var guestOk := QueryFlag(query.guestOk);
    if remaining != [] then
      Redirect(remaining[0],
               StartPage(StartQueryFor(target, returnTo, Trim(query.state, NEXT_LINE), remaining[1..], guestOk)))
    else Redirect(target, NoSession(returnTo, guestOk))
  }

  /** `created` is the code the store answers with, or nothing when the store fails. */
  ghost function StartOutcome(cfg: Option<Config>, current: Option<Origin>, query: StartQuery, session: Option<Session>,
                              now: int, store: Store, created: Option<Code>, normalize: Normalizer): (Response, Store) {
    if cfg.None? then (NavigationError(None, current, None, BadConfig), store)
    else if current.None? then (NavigationError(cfg, None, None, BadOrigin), store)
    else if !IsTrustedOrigin(cfg.value, current.value) then (NavigationError(cfg, None, None, BadOrigin), store)
    else
      var target := normalize(query.targetOrigin);
      if target.None? then (NavigationError(cfg, current, None, BadTarget), store)
      else if target == current || !IsTrustedTarget(cfg.value, current.value, target.value) then
        (NavigationError(cfg, current, None, BadTarget), store)
      else if RelativeReturnTo(query.returnTo).None? then (NavigationError(cfg, current, target, BadReturn), store)
      else
        var returnTo, state := RelativeReturnTo(query.returnTo).value, Trim(query.state, NEXT_LINE);
        if state == "" then (NavigationError(cfg, current, target, BadState), store)
        else
          var family := LiveFamily(session, now, store.families);
          if family.None? then (PassOn(cfg.value, current.value, target.value, returnTo, query, normalize), store)
          else if created.None? then (NavigationError(cfg, current, target, BadHandoff), store)
          else
            (Redirect(target.value, CallbackPage(CallbackQuery(created.value, state))),
             Created(store, created.value, Handoff(family.value, target.value, returnTo, state, now)))
  }

  method StartBridge(store: HandoffStore, cfg: Option<Config>, current: Option<Origin>, query: StartQuery,
                     session: Option<Session>, now: int, created: Option<Code>, normalize: Normalizer)
    returns (response: Response)
    modifies store`codes
    ensures (response, store.View())
         == StartOutcome(cfg, current, query, session, now, old(store.View()), created, normalize)
  {
    if cfg.None? {
      return NavigationError(None, current, None, BadConfig);
    }
    if current.None? || !IsTrustedOrigin(cfg.value, current.value) {
      return NavigationError(cfg, None, None, BadOrigin);
    }
    var target := normalize(query.targetOrigin);
    if target.None? {
      return NavigationError(cfg, current, None, BadTarget);
    }
    if target == current || !IsTrustedTarget(cfg.value, current.value, target.value) {
      return NavigationError(cfg, current, None, BadTarget);
    }
    var returnTo := RelativeReturnTo(query.returnTo);
    if returnTo.None? {
      return NavigationError(cfg, current, target, BadReturn);
    }
    var state := Trim(query.state, NEXT_LINE);
    if state == "" {
      return NavigationError(cfg, current, target, BadState);
    }
    var family := LiveFamily(session, now, store.families);
    if family.Some? {
      if created.None? {
        return NavigationError(cfg, current, target, BadHandoff);
      }
      store.Create(created.value, Handoff(family.value, target.value, returnTo.value, state, now));
      return Redirect(target.value, CallbackPage(CallbackQuery(created.value, state)));
    }
    response := PassOnToNextPeer(cfg.value, current.value, target.value, returnTo.value, query, normalize);
  }

  method PassOnToNextPeer(cfg: Config, current: Origin, target: Origin, returnTo: string, query: StartQuery,
                          normalize: Normalizer) returns (response: Response)
    ensures response == PassOn(cfg, current, target, returnTo, query, normalize)
  {
    var allowed := ComputeCandidatePeers(cfg, target);
    var remaining := KeepRemaining(ParsePeers(query.peers, normalize), current, target, allowed);
    var guestOk := QueryFlag(query.guestOk);
    if remaining != [] {
      var next := StartQueryFor(target, returnTo, Trim(query.state, NEXT_LINE), remaining[1..], guestOk);
      return Redirect(remaining[0], StartPage(next));
    }
    response := Redirect(target, NoSession(returnTo, guestOk));
  }

  method KeepRemaining(offered: seq<Origin>, current: Origin, target: Origin, allowed: seq<Origin>)
    returns (kept: seq<Origin>)
    ensures kept == Remaining(offered, current, target, allowed)
  {
    kept := [];
    for n := 0 to |offered|
      invariant kept == Remaining(offered[..n], current, target, allowed)
    {
      assert offered[..n + 1][..n] == offered[..n];
      if offered[n] != current && offered[n] != target && offered[n] in allowed {
        kept := kept + [offered[n]];
      }
    }
    assert offered[..|offered|] == offered;
  }

  // ----- callback

  /** `canRead` and `canIssue` say whether the two store calls succeed. */
  ghost function CallbackOutcome(cfg: Option<Config>, current: Option<Origin>, query: CallbackQuery,
                                 cookie: Option<string>, now: int, store: Store, canRead: bool,
                                 canIssue: bool): (Response, Store, Option<Handoff>) {
    if cfg.None? then (NavigationError(None, current, None, BadConfig), store, None)
    else if current.None? then (NavigationError(cfg, None, None, BadOrigin), store, None)
    else
      var state, refusal := Trim(query.state, NEXT_LINE), NavigationError(cfg, current, None, BadHandoff);
      if cookie != Some(state) then (NavigationError(cfg, current, None, BadState), store, None)
      else if !canRead then (refusal, store, None)
      else
        var (taken, record) := Consumed(store, query.code, now);
        if record.None? || record.value.target != current.value || record.value.state != state
        then (refusal, taken, None)
        else if RelativeReturnTo(Some(record.value.returnTo)).None? || !canIssue then (refusal, taken, None)
        else
          var (done, issued) := Issued(taken, record.value.family, now, cfg.value.idleLifetime);
          if issued.None? then (refusal, done, None)
          else if !IsHeaderText(RelativeReturnTo(Some(record.value.returnTo)).value) then (Panic, done, None)
          else (Redirect(current.value, Landing(RelativeReturnTo(Some(record.value.returnTo)).value)), done, record)
  }

  method BridgeCallback(store: HandoffStore, cfg: Option<Config>, current: Option<Origin>, query: CallbackQuery,
                        cookie: Option<string>, now: int, canRead: bool, canIssue: bool)
    returns (response: Response, granted: Option<Handoff>)
    modifies store
    ensures (response, store.View(), granted)
         == CallbackOutcome(cfg, current, query, cookie, now, old(store.View()), canRead, canIssue)
  {
    granted := None;
    if cfg.None? {
      return NavigationError(None, current, None, BadConfig), None;
    }
    if current.None? {
      return NavigationError(cfg, None, None, BadOrigin), None;
    }
    var state := Trim(query.state, NEXT_LINE);
    if cookie != Some(state) {
      return NavigationError(cfg, current, None, BadState), None;
    }
    response := NavigationError(cfg, current, None, BadHandoff);
    if !canRead {
      return;
    }
    var record := store.Consume(query.code, now);
    if record.None? || record.value.target != current.value || record.value.state != state {
      return;
    }
    var returnTo := RelativeReturnTo(Some(record.value.returnTo));
    if returnTo.None? || !canIssue {
      return;
    }
    var issued := store.Issue(record.value.family, now, cfg.value.idleLifetime);
    if issued.None? {
      return;
    }
    if !IsHeaderText(returnTo.value) {
      return Panic, None;
    }
    response, granted := Redirect(current.value, Landing(returnTo.value)), record;
  }
}
