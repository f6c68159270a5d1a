/**
  The bridge's configuration: which origins are trusted, and which peers a login may be looked for at.
 */
module BridgeConfig {
  import opened Text
  import opened Origins

  datatype Config = Config(trusted: seq<Origin>, idleLifetime: int)

  predicate IsTrustedOrigin(cfg: Config, o: Origin) {
    o in cfg.trusted || IsLoopback(o)
  }

  predicate IsTrustedTarget(cfg: Config, current: Origin, target: Origin) {
    target in cfg.trusted || (IsLoopback(current) && IsLoopback(target) && SameAuthority(current, target))
  }

  ghost predicate Distinct(s: seq<Origin>) {
    forall i, j :: 0 <= i < j < |s| ==> s[i] != s[j]
  }

  /** What every trusted list has that was loaded. */
  ghost predicate Loaded(cfg: Config, normalize: Normalizer) {
    Distinct(cfg.trusted) && AllNormal(cfg.trusted, normalize)
  }

  // ----- load_bridge_config

  function Entry(raw: string, normalize: Normalizer): Option<Origin> {
    var entry := Trim(raw, NEXT_LINE);
    if entry == "" then None else normalize(entry)
  }

  function Commas(raw: string): string {
    seq(|raw|, i requires 0 <= i < |raw| => if raw[i] == '\n' then ',' else raw[i])
  }

  /** Commas and line breaks both separate entries. */
  function Entries(raw: string): seq<string> {
    Split(Commas(raw), ',')
  }

  /** The first entry that gives this origin. */
  ghost function FirstMention(entries: seq<string>, o: Origin, normalize: Normalizer): (k: nat)
    ensures k <= |entries| && (k < |entries| ==> Entry(entries[k], normalize) == Some(o))
    ensures forall i :: 0 <= i < k ==> Entry(entries[i], normalize) != Some(o)
  {
    if entries == [] || Entry(entries[0], normalize) == Some(o) then 0 else 1 + FirstMention(entries[1..], o, normalize)
  }

  /** The entries of a setting are what stands between its commas and line breaks. */
  lemma {:induction false} EntriesBetween(a: string, b: string)
    ensures Entries(a + "," + b) == Entries(a) + Entries(b) && Entries(a + "\n" + b) == Entries(a) + Entries(b)
    ensures ',' !in a && '\n' !in a ==> Entries(a) == [a]
  {
    var left, right := Commas(a), Commas(b);
    assert Commas(a + "," + b) == left + [','] + right && Commas(a + "\n" + b) == left + [','] + right;
    SplitTwo(left, right, ',');
    if ',' !in a && '\n' !in a {
      assert left == a;
      SplitWhole(a, ',');
    }
  }

  /** The entry gives this origin: it is not blank, and normalises to it. */
  ghost predicate Gives(entry: string, o: Origin, normalize: Normalizer) {
    normalize(entry) == Some(o) && !AllSpace(entry, NEXT_LINE)
  }

  lemma {:induction false} EntryGives(entry: string, o: Origin, normalize: Normalizer)
    requires ReadsBack(normalize)
    ensures Entry(entry, normalize) == Some(o) <==> Gives(entry, o, normalize)
  {
    BlankIsSpace(entry);
    assert normalize(Trim(entry, NEXT_LINE)) == normalize(entry);
  }

  /**
    The list of trusted origins: what the entries give, each once, in the order of first mention. Such an
    origin survives being sent as a peer exactly when its host has no comma.
   */
  method LoadTrusted(raw: string, normalize: Normalizer) returns (trusted: seq<Origin>)
    requires ReadsBack(normalize)
    ensures Distinct(trusted) && AllNormal(trusted, normalize)
    ensures forall o :: o in trusted <==> exists entry :: entry in Entries(raw) && Gives(entry, o, normalize)
    ensures forall o :: o in trusted <==> FirstMention(Entries(raw), o, normalize) < |Entries(raw)|
    ensures forall i, j :: 0 <= i < j < |trusted| ==>
              FirstMention(Entries(raw), trusted[i], normalize) < FirstMention(Entries(raw), trusted[j], normalize)
    ensures forall o :: o in trusted ==> (ParsePeers(Sent([o]), normalize) == [o] <==> !HasComma(o))
  {
    trusted := [];
    var entries := Entries(raw);
    for n := 0 to |entries|
      invariant forall o :: o in trusted <==> FirstMention(entries, o, normalize) < n
      invariant forall i, j :: 0 <= i < j < |trusted| ==>
                  FirstMention(entries, trusted[i], normalize) < FirstMention(entries, trusted[j], normalize)
    {
      var origin := Entry(entries[n], normalize);
      assert forall o :: FirstMention(entries, o, normalize) == n ==> origin == Some(o);
      if origin.Some? && origin.value !in trusted {
        assert FirstMention(entries, origin.value, normalize) == n;
        trusted := trusted + [origin.value];
      }
    }
    forall o
      ensures FirstMention(entries, o, normalize) < |entries|
              <==> exists entry :: entry in entries && Gives(entry, o, normalize)
    {
      MentionedExactly(entries, o, normalize);
    }
    forall o | o in trusted
      ensures IsNormal(o, normalize) && (ParsePeers(Sent([o]), normalize) == [o] <==> !HasComma(o))
    {
      PeersRoundTrip([o], normalize);
    }
  }

  lemma {:induction false} MentionedExactly(entries: seq<string>, o: Origin, normalize: Normalizer)
    requires ReadsBack(normalize)
    ensures var k := FirstMention(entries, o, normalize);
            && (k < |entries| ==> Gives(entries[k], o, normalize))
            && forall i :: 0 <= i < k ==> !Gives(entries[i], o, normalize)
    ensures FirstMention(entries, o, normalize) < |entries|
        <==> exists entry :: entry in entries && Gives(entry, o, normalize)
  {
    var k := FirstMention(entries, o, normalize);
    forall i | 0 <= i < |entries|
      ensures Entry(entries[i], normalize) == Some(o) <==> Gives(entries[i], o, normalize)
    {
      EntryGives(entries[i], o, normalize);
    }
    if k < |entries| {
      assert entries[k] in entries;
    }
  }

  // ----- candidate_peers

  ghost function Without(all: seq<Origin>, one: Origin): (others: seq<Origin>)
    ensures forall o :: o in others <==> o in all && o != one
    ensures Distinct(all) ==> Distinct(others)
  {
    if all == [] then []
    else
      var last := |all| - 1;
      assert forall o :: o in all <==> o in all[..last] || o == all[last];
      assert Distinct(all) ==> Distinct(all[..last]) && all[last] !in all[..last];
      Without(all[..last], one) + if all[last] != one then [all[last]] else []
  }

  lemma {:induction false} WithoutCounts(all: seq<Origin>, one: Origin)
    ensures var others := Without(all, one);
            |others| <= |all| && (one in all ==> |others| < |all|) && (one !in all ==> others == all)
  {
    if all != [] {
      var last := |all| - 1;
      WithoutCounts(all[..last], one);
      assert all == all[..last] + [all[last]];
    }
  }

  ghost function Missing(extra: seq<Origin>, peers: seq<Origin>): seq<Origin> {
    if extra == [] then peers
    else Missing(extra[1..], if extra[0] in peers then peers else peers + [extra[0]])
  }

  /** The trusted origins but `current`, then its loopback aliases that are not among them. */
  ghost function CandidatePeers(cfg: Config, current: Origin): seq<Origin> {
    Missing(LoopbackSiblings(current), Without(cfg.trusted, current))
  }

  method ComputeCandidatePeers(cfg: Config, current: Origin) returns (peers: seq<Origin>)
    ensures peers == CandidatePeers(cfg, current)
  {
    peers := [];
    for n := 0 to |cfg.trusted|
      invariant peers == Without(cfg.trusted[..n], current)
    {
      assert cfg.trusted[..n + 1][..n] == cfg.trusted[..n];
      if cfg.trusted[n] != current {
        peers := peers + [cfg.trusted[n]];
      }
    }
    assert cfg.trusted[..|cfg.trusted|] == cfg.trusted;
    var siblings := LoopbackSiblings(current);
    for n := 0 to |siblings|
      invariant Missing(siblings[n..], peers) == CandidatePeers(cfg, current)
    {
      if siblings[n] !in peers {
        peers := peers + [siblings[n]];
      }
    }
  }

  /** No peer twice, never the origin itself, and exactly the trusted ones and the aliases. */
  lemma {:induction false} CandidatesAre(cfg: Config, current: Origin)
    ensures Distinct(cfg.trusted) ==> Distinct(CandidatePeers(cfg, current))
    ensures forall o :: o in CandidatePeers(cfg, current)
                        <==> (o in cfg.trusted && o != current) || o in LoopbackSiblings(current)
    ensures current !in CandidatePeers(cfg, current)
    ensures forall o :: o in CandidatePeers(cfg, current) ==> IsTrustedOrigin(cfg, o)
  {
    var siblings, others := LoopbackSiblings(current), Without(cfg.trusted, current);
    MissingAdds(siblings, others);
    assert forall o :: o in siblings ==> IsLoopback(o) && o != current;
  }

  lemma {:induction false} MissingAdds(extra: seq<Origin>, peers: seq<Origin>)
    ensures Distinct(peers) ==> Distinct(Missing(extra, peers))
    ensures forall o :: o in Missing(extra, peers) <==> o in extra || o in peers
    decreases |extra|
  {
    if extra != [] {
      MissingAdds(extra[1..], if extra[0] in peers then peers else peers + [extra[0]]);
      assert forall o :: o in extra <==> o == extra[0] || o in extra[1..];
    }
  }

  ghost predicate Precedes(s: seq<Origin>, a: Origin, b: Origin) {
    exists i, j :: 0 <= i < j < |s| && s[i] == a && s[j] == b
  }

  /** Candidates stand in the order of the list, and the aliases that are not listed behind them. */
  lemma {:induction false} CandidatesInOrder(cfg: Config, current: Origin)
    ensures forall i, j :: 0 <= i < j < |cfg.trusted| && cfg.trusted[i] != current && cfg.trusted[j] != current ==>
              Precedes(CandidatePeers(cfg, current), cfg.trusted[i], cfg.trusted[j])
    ensures forall a, b :: a in cfg.trusted && a != current && b in LoopbackSiblings(current) && b !in cfg.trusted ==>
              Precedes(CandidatePeers(cfg, current), a, b)
  {
    var listed, all := Without(cfg.trusted, current), CandidatePeers(cfg, current);
    WithoutInOrder(cfg.trusted, current);
    MissingComesLater(LoopbackSiblings(current), listed);
    CandidatesAre(cfg, current);
    forall i, j | 0 <= i < j < |cfg.trusted| && cfg.trusted[i] != current && cfg.trusted[j] != current
      ensures Precedes(all, cfg.trusted[i], cfg.trusted[j])
    {
      PrecedesLonger(listed, all, cfg.trusted[i], cfg.trusted[j]);
    }
    forall a, b | a in cfg.trusted && a != current && b in LoopbackSiblings(current) && b !in cfg.trusted
      ensures Precedes(all, a, b)
    {
      ComesBehind(listed, all, a, b);
    }
  }

  lemma {:induction false} PrecedesLonger(some: seq<Origin>, all: seq<Origin>, a: Origin, b: Origin)
    requires |some| <= |all| && all[..|some|] == some && Precedes(some, a, b)
    ensures Precedes(all, a, b)
  {
    var i, j :| 0 <= i < j < |some| && some[i] == a && some[j] == b;
    assert all[i] == some[i] && all[j] == some[j];
  }

  lemma {:induction false} ComesBehind(some: seq<Origin>, all: seq<Origin>, a: Origin, b: Origin)
    requires |some| <= |all| && all[..|some|] == some && a in some && b in all && b !in some
    ensures Precedes(all, a, b)
  {
    var i :| 0 <= i < |some| && some[i] == a;
    var j :| 0 <= j < |all| && all[j] == b;
    assert forall m :: 0 <= m < |some| ==> all[m] == some[m] && some[m] in some;
  }

  lemma {:induction false} WithoutInOrder(all: seq<Origin>, one: Origin)
    ensures forall i, j :: 0 <= i < j < |all| && all[i] != one && all[j] != one ==>
              Precedes(Without(all, one), all[i], all[j])
  {
    if all != [] {
      var last := |all| - 1;
      var shorter, kept := Without(all[..last], one), Without(all, one);
      WithoutInOrder(all[..last], one);
      forall i, j | 0 <= i < j < |all| && all[i] != one && all[j] != one
        ensures Precedes(kept, all[i], all[j])
      {
        if j < last {
          var k, l :| 0 <= k < l < |shorter| && shorter[k] == all[..last][i] && shorter[l] == all[..last][j];
          assert kept[k] == shorter[k] && kept[l] == shorter[l];
        } else {
          assert all[..last][i] in shorter;
          var k :| 0 <= k < |shorter| && shorter[k] == all[i];
          assert kept[k] == shorter[k] && kept[|shorter|] == all[j];
        }
      }
    }
  }

  lemma {:induction false} MissingComesLater(extra: seq<Origin>, peers: seq<Origin>)
    ensures |peers| <= |Missing(extra, peers)| && Missing(extra, peers)[..|peers|] == peers
    decreases |extra|
  {
    if extra != [] {
      MissingComesLater(extra[1..], if extra[0] in peers then peers else peers + [extra[0]]);
    }
  }

  /** Every candidate reads back from its own spelling. */
  lemma {:induction false} CandidatesAreNormal(cfg: Config, current: Origin, normalize: Normalizer)
    requires Loaded(cfg, normalize) && ReadsBack(normalize) && NormalPort(current)
    ensures AllNormal(CandidatePeers(cfg, current), normalize)
  {
    CandidatesAre(cfg, current);
    assert forall o :: o in LoopbackSiblings(current) ==> IsLoopback(o) && NormalPort(o);
  }
}
