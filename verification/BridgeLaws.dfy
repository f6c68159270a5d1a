/**
  What the three endpoints decide, in terms of what a request, a session and a code hold.
 */
module BridgeLaws {
  import opened Text
  import opened Origins
  import opened BridgeConfig
  import opened BridgeHandlers

  // ----- Origins that may hand over to each other

  /** A target is trusted when it is listed, or when both ends are loopback addresses at one scheme and port. */
  lemma {:induction false} TrustedTargetExactly(cfg: Config, current: Origin, target: Origin)
    requires NormalPort(current) && NormalPort(target)
    ensures IsTrustedTarget(cfg, current, target)
        <==> target in cfg.trusted
             || (!current.host.Named? && !target.host.Named? && current.scheme == target.scheme
                 && current.port == target.port)
    ensures SameAuthority(current, target)
        <==> current.scheme == target.scheme && current.port == target.port
             && (current.host == target.host || (!current.host.Named? && !target.host.Named?))
  {
  }

  /** A loopback origin's siblings are the other two names of its server, and never `[::1]`. */
  lemma {:induction false} SiblingsExactly(o: Origin, peer: Origin)
    ensures peer in LoopbackSiblings(o)
        <==> !o.host.Named? && peer != o && (peer.host.Localhost? || peer.host.Loopback4?)
             && peer.scheme == o.scheme && peer.port == o.port
    ensures peer in LoopbackSiblings(o) ==> SameAuthority(o, peer)
  {
    var named, numbered := o.(host := Localhost), o.(host := Loopback4);
    assert !o.host.Named? && !o.host.Localhost? ==> named in LoopbackSiblings(o);
    assert !o.host.Named? && !o.host.Loopback4? ==> numbered in LoopbackSiblings(o);
  }

  /** The spellings of the loopback addresses. */
  lemma {:induction false} LoopbackSpellings(port: nat)
    ensures Render(Origin(Http, Localhost, None)) == "http://localhost"
    ensures Render(Origin(Https, Loopback4, Some(port))) == "https://127.0.0.1:" + Digits(port)
    ensures Render(Origin(Http, Loopback6, Some(port))) == "http://[::1]:" + Digits(port)
  {
    assert "http://" + "localhost" + "" == "http://localhost";
    assert "https://" + "127.0.0.1" + (":" + Digits(port)) == "https://127.0.0.1:" + Digits(port);
    assert "http://" + "[::1]" + (":" + Digits(port)) == "http://[::1]:" + Digits(port);
  }

  // ----- Return paths and flags

  /** A path on the same origin: it starts with one slash and ends in no white space. */
  predicate IsLocalPath(path: string) {
    path != "" && path[0] == '/' && (|path| > 1 ==> path[1] != '/') && !IsSpace(path[|path| - 1], NEXT_LINE)
  }

  /** The return path is the root when none is given, else the given one without white space, if it is local. */
  lemma {:induction false} ReturnPathExactly(value: Option<string>, path: string)
    ensures RelativeReturnTo(value) == Some(path)
        <==> IsLocalPath(path) && Pads(if value.Some? then value.value else "/", path, NEXT_LINE)
    ensures RelativeReturnTo(None) == Some("/")
  {
    var given := if value.Some? then value.value else "/";
    TrimIsCore(given, path, NEXT_LINE);
    TrimIsCore(given, Trim(given, NEXT_LINE), NEXT_LINE);
    LocalStart(Trim(given, NEXT_LINE));
    LocalStart(path);
    assert Trim("/", NEXT_LINE) == "/";
    LocalStart("/");
  }

  lemma {:induction false} LocalStart(path: string)
    ensures path != "" && StartsWith(path, "/") && !StartsWith(path, "//")
        <==> path != "" && path[0] == '/' && (|path| > 1 ==> path[1] != '/')
  {
    assert |path| > 1 ==> path[..2] == [path[0], path[1]];
    assert path != "" ==> path[..1] == [path[0]];
    assert "//"[0] == '/' && "//"[1] == '/' && "/"[0] == '/';
  }

  /** A flag is set by one of three words, with any white space around it. */
  lemma {:induction false} FlagExactly(value: Option<string>)
    ensures QueryFlag(value)
        <==> value.Some? && exists word :: word in {"1", "true", "yes"} && Pads(value.value, word, NEXT_LINE)
  {
    if value.Some? {
      var trimmed := Trim(value.value, NEXT_LINE);
      TrimIsCore(value.value, trimmed, NEXT_LINE);
      forall word | Pads(value.value, word, NEXT_LINE)
        ensures word == trimmed
      {
        TrimIsCore(value.value, word, NEXT_LINE);
      }
    }
  }

  /**
    A failed navigation leads to where the browser was headed, if that is trusted, else to the origin that serves
    it, if that is, and else nowhere: a forged host gets a page.
   */
  lemma {:induction false} ErrorExitsExactly(cfg: Option<Config>, current: Option<Origin>, prefer: Option<Origin>,
                                             reason: Reason)
    ensures var answer := NavigationError(cfg, current, prefer, reason);
            var headed := cfg.Some? && prefer.Some? && (prefer.value in cfg.value.trusted || !prefer.value.host.Named?);
            var here := cfg.Some? && current.Some?
                        && (current.value in cfg.value.trusted || !current.value.host.Named?);
            && (headed ==> answer == Redirect(prefer.value, LoginPage(reason)))
            && (!headed && here ==> answer == Redirect(current.value, LoginPage(reason)))
            && (!headed && !here ==> answer == Page)
  {
  }

  // ----- prepare

  /** `prepare` succeeds exactly when all is well, and says which of its conditions failed first. */
  lemma {:induction false} PreparesExactly(cfg: Option<Config>, current: Option<Origin>, query: PrepareQuery,
                                           state: string)
    ensures var answer := PrepareOutcome(cfg, current, query, state);
            var trusted := cfg.Some? && current.Some?
                           && (current.value in cfg.value.trusted || !current.value.host.Named?);
            var alone := trusted && current.value.host.Named?
                         && forall o :: o in cfg.value.trusted ==> o == current.value;
            var path := RelativeReturnTo(query.returnTo);
            && (answer.Prepared? <==> trusted && !alone && path.Some?)
            && (answer == Refused(500) <==> cfg.None?)
            && (answer == Refused(403) <==> cfg.Some? && current.Some? && !trusted)
            && (answer == Refused(404) <==> alone)
            && (answer == Refused(400) <==> cfg.Some? && (current.None? || (trusted && !alone && path.None?)))
  {
    if cfg.Some? && current.Some? {
      var peers, siblings := CandidatePeers(cfg.value, current.value), LoopbackSiblings(current.value);
      CandidatesAre(cfg.value, current.value);
      assert peers != [] ==> peers[0] in peers;
      assert siblings != [] ==> siblings[0] in peers;
    }
  }

  // ----- start

  /** Every check of `start` passed: the request is a handoff for a trusted target. */
  predicate IsHandoff(cfg: Config, current: Origin, query: StartQuery, normalize: Normalizer) {
    var target := normalize(query.targetOrigin);
    && IsTrustedOrigin(cfg, current) && target.Some? && target.value != current
    && IsTrustedTarget(cfg, current, target.value)
    && RelativeReturnTo(query.returnTo).Some? && Trim(query.state, NEXT_LINE) != ""
  }

  /** The token names a family, and neither of the two has expired. */
  predicate HasSession(session: Option<Session>, now: int, store: Store) {
    && session.Some? && now <= session.value.accessExpiresAt && session.value.family in store.families
    && now <= store.families[session.value.family].expiresAt
    && now <= store.families[session.value.family].idleExpiresAt
  }

  /**
    A handoff that passes every check is answered from the session alone: with a live one, and only then, a code
    for its family is stored and sent to the target; else the next peer is asked and nothing is stored.
   */
  lemma {:induction false} HandsOverExactly(cfg: Config, current: Origin, query: StartQuery, session: Option<Session>,
                                            now: int, store: Store, code: Code, normalize: Normalizer)
    requires IsHandoff(cfg, current, query, normalize)
    ensures var (answer, after) := StartOutcome(Some(cfg), Some(current), query, session, now, store, Some(code),
                                                normalize);
            var target, path, state := normalize(query.targetOrigin).value, RelativeReturnTo(query.returnTo).value,
                                       Trim(query.state, NEXT_LINE);
            if HasSession(session, now, store) then
              && answer == Redirect(target, CallbackPage(CallbackQuery(code, state)))
              && after.codes == store.codes[code := Handoff(session.value.family, target, path, state, now)]
              && after.families == store.families
            else
              after == store && answer.Redirect? && (answer.place.StartPage? || answer.place.NoSession?)
  {
  }

  /** Where a refused start step leads: to the target once that is known to be trusted, before that nowhere else. */
  lemma {:induction false} StartRefusals(cfg: Config, current: Origin, query: StartQuery, session: Option<Session>,
                                         now: int, store: Store, created: Option<Code>, normalize: Normalizer)
    ensures var (answer, after) := StartOutcome(Some(cfg), Some(current), query, session, now, store, created,
                                                normalize);
            var target := normalize(query.targetOrigin);
            var trusted := current in cfg.trusted || !current.host.Named?;
            var served := target.Some? && target.value != current && IsTrustedTarget(cfg, current, target.value);
            && (!trusted ==> answer == Page)
            && (trusted && !served ==> answer == Redirect(current, LoginPage(BadTarget)))
            && (trusted && served && RelativeReturnTo(query.returnTo).None? ==>
                  answer == Redirect(target.value, LoginPage(BadReturn)))
            && (trusted && served && RelativeReturnTo(query.returnTo).Some? && Trim(query.state, NEXT_LINE) == "" ==>
                  answer == Redirect(target.value, LoginPage(BadState)))
            && (IsHandoff(cfg, current, query, normalize) && HasSession(session, now, store) && created.None? ==>
                  answer == Redirect(target.value, LoginPage(BadHandoff)))
            && (!IsHandoff(cfg, current, query, normalize) || created.None? ==> after == store)
  {
  }

  // ----- callback

  /** What has to hold for the code to be taken: the state is the cookie's and the store answers. */
  predicate Presents(cfg: Option<Config>, current: Option<Origin>, query: CallbackQuery, cookie: Option<string>,
                     canRead: bool) {
    cfg.Some? && current.Some? && canRead && cookie.Some? && cookie.value == Trim(query.state, NEXT_LINE)
  }

  /** What no header value may hold. */
  predicate IsControl(c: char) {
    (c as int < 32 && c as int != 9) || c as int == 127
  }

  lemma {:induction false} HeaderTextExactly(s: string)
    ensures IsHeaderText(s) <==> forall c :: c in s ==> !IsControl(c)
  {
    assert forall i :: 0 <= i < |s| ==> s[i] in s;
  }

  /** What has to hold of the record for a login: it is for this origin and state, in time, and its family lives. */
  predicate Fits(record: Handoff, current: Origin, state: string, now: int, store: Store) {
    && record.target == current && record.state == state && now - record.createdAt <= 60
    && RelativeReturnTo(Some(record.returnTo)).Some?
    && (forall c :: c in RelativeReturnTo(Some(record.returnTo)).value ==> !IsControl(c))
    && record.family in store.families && now <= store.families[record.family].expiresAt
    && now <= store.families[record.family].idleExpiresAt
  }

  /**
    The code is spent exactly when it is presented, whatever comes of it. The login is granted exactly when the
    record fits as well, and then it is the stored one, at the return path.
   */
  lemma {:induction false} GrantsExactly(cfg: Option<Config>, current: Option<Origin>, query: CallbackQuery,
                                         cookie: Option<string>, now: int, store: Store, canRead: bool, canIssue: bool)
    ensures var (answer, after, granted) := CallbackOutcome(cfg, current, query, cookie, now, store, canRead, canIssue);
            var presented := Presents(cfg, current, query, cookie, canRead);
            && after.codes == (if presented then store.codes - {query.code} else store.codes)
            && (granted.Some? <==> presented && canIssue && query.code in store.codes
                                   && Fits(store.codes[query.code], current.value, cookie.value, now, store))
            && (granted.Some? ==>
                  granted.value == store.codes[query.code]
                  && answer == Redirect(current.value,
                                        Landing(RelativeReturnTo(Some(granted.value.returnTo)).value)))
            && (answer.Redirect? && granted.None? ==>
                  cfg.Some? && current.Some? && answer.origin == current.value && answer.place.LoginPage?)
  {
    if query.code in store.codes && RelativeReturnTo(Some(store.codes[query.code].returnTo)).Some? {
      HeaderTextExactly(RelativeReturnTo(Some(store.codes[query.code].returnTo)).value);
    }
  }

  /** Issuing inside a family never moves its end, and never its idle end beyond that or into the past. */
  lemma {:induction false} IssuingKeepsTheEnd(store: Store, family: Family, now: int, lifetime: int)
    ensures var (after, issued) := Issued(store, family, now, lifetime);
            && after.codes == store.codes && after.families.Keys == store.families.Keys
            && (forall other :: other in store.families && other != family ==>
                  after.families[other] == store.families[other])
            && (issued.Some? ==>
                  && issued == Some(family) && family in store.families
                  && var was, meta := store.families[family], after.families[family];
                     && meta.expiresAt == was.expiresAt && now <= meta.idleExpiresAt <= meta.expiresAt
                     && (lifetime > 0 ==> meta.idleExpiresAt <= now + lifetime)
                     && (meta.idleExpiresAt < meta.expiresAt ==> lifetime > 0 && meta.idleExpiresAt == now + lifetime))
            && (issued.Some? <==> family in store.families && now <= store.families[family].expiresAt
                                  && now <= store.families[family].idleExpiresAt)
            && (issued.None? ==> after == store)
  {
  }

  /**
    The promise of the two endpoints a browser navigates to: every exit is a redirect or a page, never JSON,
    except that the callback can fail to answer at all.
   */
  lemma {:induction false} NavigationsNeverSeeJson(cfg: Option<Config>, current: Option<Origin>, start: StartQuery,
                                                   callback: CallbackQuery, session: Option<Session>,
                                                   cookie: Option<string>, now: int, store: Store,
                                                   created: Option<Code>, canRead: bool, canIssue: bool,
                                                   normalize: Normalizer)
    ensures var started := StartOutcome(cfg, current, start, session, now, store, created, normalize).0;
            started.Redirect? || started.Page?
    ensures var (answer, after, granted) := CallbackOutcome(cfg, current, callback, cookie, now, store, canRead,
                                                            canIssue);
            && (answer.Redirect? || answer.Page? || answer.Panic?)
            && (answer.Panic? ==> callback.code in store.codes && callback.code !in after.codes && granted.None?
                                  && RelativeReturnTo(Some(store.codes[callback.code].returnTo)).Some?
                                  && exists c :: c in RelativeReturnTo(Some(store.codes[callback.code].returnTo)).value
                                                 && IsControl(c))
  {
    if callback.code in store.codes && RelativeReturnTo(Some(store.codes[callback.code].returnTo)).Some? {
      HeaderTextExactly(RelativeReturnTo(Some(store.codes[callback.code].returnTo)).value);
    }
  }
}
