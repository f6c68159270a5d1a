/**
  What the collection reports: on every link graph, and on the linear chains it is written for.
 */
module VersionChain {
  import opened Text
  import opened GallerySource
  import opened VersionHistory

  // ----- Any link graph

  /** A link to a newer revision has both its parts, and does not lead to the entry itself. */
  predicate NamesNewer(e: Entry) {
    !(e.currentGid == 0 || e.currentKey == "" || e.currentGid == e.gid)
  }

  predicate NamesOlder(e: Entry) {
    !(e.parentGid == 0 || e.parentKey == "")
  }

  ghost predicate FollowsCurrent(lookup: Lookup, a: Entry, b: Entry) {
    NamesNewer(a) && lookup(a.currentGid, a.currentKey) == Found(b)
  }

  ghost predicate FollowsParent(lookup: Lookup, a: Entry, b: Entry) {
    NamesOlder(a) && lookup(a.parentGid, a.parentKey) == Found(b)
  }

  /** `ups` current links, then parent links. */
  ghost predicate IsTrail(lookup: Lookup, trail: seq<Entry>, ups: nat) {
    && (forall i :: 0 < i < |trail| && i <= ups ==> FollowsCurrent(lookup, trail[i - 1], trail[i]))
    && (forall i :: 0 < i < |trail| && ups < i ==> FollowsParent(lookup, trail[i - 1], trail[i]))
  }

  lemma {:induction false} ClimbFollows(lookup: Lookup, tip: Entry, hops: nat)
    ensures IsTrail(lookup, [tip] + Climb(lookup, tip, hops).steps, hops)
    decreases hops
  {
    var steps := Climb(lookup, tip, hops).steps;
    if steps != [] {
      ClimbFollows(lookup, steps[0], hops - 1);
      var rest := Climb(lookup, steps[0], hops - 1).steps;
      assert steps == [steps[0]] + rest;
      TrailGrows(lookup, tip, steps, hops);
    }
  }

  lemma TrailGrows(lookup: Lookup, first: Entry, rest: seq<Entry>, ups: nat)
    requires rest != [] && ups > 0 && IsTrail(lookup, rest, ups - 1) && FollowsCurrent(lookup, first, rest[0])
    ensures IsTrail(lookup, [first] + rest, ups)
  {
    var trail := [first] + rest;
    forall i | 0 < i < |trail| && i <= ups
      ensures FollowsCurrent(lookup, trail[i - 1], trail[i])
    {
      assert trail[i] == rest[i - 1] && (i > 1 ==> trail[i - 1] == rest[i - 2]);
    }
    forall i | 0 < i < |trail| && ups < i
      ensures FollowsParent(lookup, trail[i - 1], trail[i])
    {
      assert trail[i] == rest[i - 1] && trail[i - 1] == rest[i - 2];
    }
  }

  lemma {:induction false} DescendFollows(lookup: Lookup, cursor: Entry, hops: nat, seen: set<nat>, seedGid: nat)
    ensures IsTrail(lookup, [cursor] + Descend(lookup, cursor, hops, seen, seedGid).steps, 0)
    decreases hops
  {
    var steps := Descend(lookup, cursor, hops, seen, seedGid).steps;
    if steps != [] {
      var e := steps[0];
      var trail := [cursor] + steps;
      if |steps| > 1 {
        DescendFollows(lookup, e, hops - 1, seen + {e.gid}, seedGid);
        var rest := Descend(lookup, e, hops - 1, seen + {e.gid}, seedGid).steps;
        assert steps == [e] + rest;
      }
      forall i | 0 < i < |trail|
        ensures FollowsParent(lookup, trail[i - 1], trail[i])
      {
        assert trail[i] == steps[i - 1] && (i > 1 ==> trail[i - 1] == steps[i - 2]);
      }
    }
  }

  /** Of the entries met under one gid, the one met last. */
  ghost predicate LastOfItsGid(visited: seq<Entry>, e: Entry) {
    exists j :: 0 <= j < |visited| && visited[j] == e && forall i :: j < i < |visited| ==> visited[i].gid != e.gid
  }

  /** One entry for every gid met. */
  ghost predicate Merges(values: seq<Entry>, visited: seq<Entry>) {
    && (forall i, j :: 0 <= i < j < |values| ==> values[i].gid != values[j].gid)
    && (forall i :: 0 <= i < |values| ==> LastOfItsGid(visited, values[i]))
    && forall k :: 0 <= k < |visited| ==> exists i :: 0 <= i < |values| && values[i].gid == visited[k].gid
  }

  lemma {:induction false} EntriesAreLast(visited: seq<Entry>, g: nat)
    ensures var entries := SetAll(EMPTY, visited).entries;
            g in entries <==> exists k :: 0 <= k < |visited| && visited[k].gid == g
    ensures var entries := SetAll(EMPTY, visited).entries;
            g in entries ==> entries[g].gid == g && LastOfItsGid(visited, entries[g])
  {
    if visited != [] {
      var last := |visited| - 1;
      var earlier := visited[..last];
      EntriesAreLast(earlier, g);
      SetAllOneMore(EMPTY, earlier, visited[last]);
      assert visited == earlier + [visited[last]];
      var entries := SetAll(EMPTY, visited).entries;
      assert entries == SetAll(EMPTY, earlier).entries[visited[last].gid := visited[last]];
      if g == visited[last].gid {
        assert visited[last] == entries[g];
      } else if g in entries {
        var j :| 0 <= j < last && earlier[j] == entries[g] && forall i :: j < i < last ==> earlier[i].gid != g;
        assert visited[j] == entries[g];
      }
    }
  }

  lemma ValuesMerge(visited: seq<Entry>)
    ensures SetAll(EMPTY, visited).Valid() && Merges(SetAll(EMPTY, visited).Values(), visited)
  {
    SetAllValid(EMPTY, visited);
    var record := SetAll(EMPTY, visited);
    var values := record.Values();
    forall i | 0 <= i < |values|
      ensures values[i].gid == record.order[i] && LastOfItsGid(visited, values[i])
    {
      assert record.order[i] in record.order;
      EntriesAreLast(visited, record.order[i]);
    }
    forall k | 0 <= k < |visited|
      ensures exists i :: 0 <= i < |values| && values[i].gid == visited[k].gid
    {
      EntriesAreLast(visited, visited[k].gid);
      assert visited[k].gid in record.order;
    }
  }

  /**
    Where the climb ends: after all its hops, at an entry without a newer one, or at one whose newer one
    is unknown.
   */
  ghost predicate ClimbStops(lookup: Lookup, up: seq<Entry>, hops: nat)
    requires up != []
  {
    var tip := up[|up| - 1];
    |up| == hops + 1 || !NamesNewer(tip) || lookup(tip.currentGid, tip.currentKey).Missing?
  }

  /** This step of the descent comes back to an entry met before, and that is not the seed. */
  ghost predicate ComesBack(up: seq<Entry>, downs: seq<Entry>, j: nat)
    requires up != [] && j < |downs|
  {
    Repeats(downs, j, Gids(up), up[0].gid)
  }

  /** Where the descent ends: after all its hops, at its first repeat, or at an entry without a known parent. */
  ghost predicate DescentStops(lookup: Lookup, up: seq<Entry>, downs: seq<Entry>, hops: nat)
    requires up != []
  {
    var last := Last(up[|up| - 1], downs);
    || |downs| == hops || (downs != [] && ComesBack(up, downs, |downs| - 1))
    || !NamesOlder(last) || lookup(last.parentGid, last.parentKey).Missing?
  }

  /** A walk: the climb from the seed and the descent from its tip, with no repeat before the end. */
  ghost predicate IsWalk(lookup: Lookup, gid: int, token: string, hops: nat, up: seq<Entry>, downs: seq<Entry>) {
    && up != [] && Found(up[0]) == lookup(gid, token) && |up| <= hops + 1 && |downs| <= hops
    && IsTrail(lookup, up + downs, |up| - 1)
    && forall j: nat :: j + 1 < |downs| ==> !ComesBack(up, downs, j)
  }

  /** Where a report came from: a whole walk, with the entries of one gid merged. */
  ghost predicate Explains(lookup: Lookup, gid: int, token: string, hops: nat, up: seq<Entry>, downs: seq<Entry>,
                           values: seq<Entry>) {
    && IsWalk(lookup, gid, token, hops, up, downs) && ClimbStops(lookup, up, hops)
       && DescentStops(lookup, up, downs, hops)
    && Merges(values, up + downs)
    && exists at :: ToldInOrder(HistoryOf(lookup, gid, token, hops), values, at)
  }

  /** The walk was cut short by a failing lookup, in the climb or in the descent. */
  ghost predicate Breaks(lookup: Lookup, gid: int, token: string, hops: nat, up: seq<Entry>, downs: seq<Entry>) {
    && IsWalk(lookup, gid, token, hops, up, downs)
    && var tip, last := up[|up| - 1], Last(up[|up| - 1], downs);
       || (downs == [] && |up| <= hops && NamesNewer(tip) && lookup(tip.currentGid, tip.currentKey).Failed?)
       || (ClimbStops(lookup, up, hops) && |downs| < hops && (downs != [] ==> !ComesBack(up, downs, |downs| - 1))
           && NamesOlder(last) && lookup(last.parentGid, last.parentKey).Failed?)
  }

  /**
    On every link graph, cycles, self-links, broken parents and wrong current links included. Nothing is
    reported when the seed is unknown or a lookup of the walk fails. Otherwise the report comes from a walk
    that starts at the seed, follows current links and then parent links, and ends only where a link or its
    entry is missing, at a repeat other than the seed, or when the hops are spent; the entries of one gid are
    merged. With the code's 50 hops the walk has at most 101 entries.
   */
  lemma ReportsATrail(lookup: Lookup, gid: int, token: string, hops: nat)
    ensures if lookup(gid, token).Found? && Visited(lookup, gid, token, hops).Some?
            then exists up, downs, values :: Explains(lookup, gid, token, hops, up, downs, values)
            else HistoryOf(lookup, gid, token, hops) == []
                 && (lookup(gid, token).Found? ==> exists up, downs :: Breaks(lookup, gid, token, hops, up, downs))
  {
    if lookup(gid, token).Found? {
      var seed := lookup(gid, token).entry;
      WalkedUp(lookup, gid, token, seed, hops);
      if !Climb(lookup, seed, hops).failed {
        WalkedDown(lookup, gid, token, seed, hops);
        if Visited(lookup, gid, token, hops).Some? {
          var up, downs, values := WalkIsReported(lookup, gid, token, seed, hops);
        }
      }
    }
  }

  lemma WalkIsReported(lookup: Lookup, gid: int, token: string, seed: Entry, hops: nat)
    returns (up: seq<Entry>, downs: seq<Entry>, values: seq<Entry>)
    requires lookup(gid, token) == Found(seed) && Visited(lookup, gid, token, hops).Some?
    ensures Explains(lookup, gid, token, hops, up, downs, values)
  {
    var climb := Climb(lookup, seed, hops);
    up := [seed] + climb.steps;
    downs := Descend(lookup, Last(seed, climb.steps), hops, Gids(up), seed.gid).steps;
    WalkedUp(lookup, gid, token, seed, hops);
    WalkedDown(lookup, gid, token, seed, hops);
    values := WholeWalkIsReported(lookup, gid, token, hops, up, downs);
  }

  lemma WholeWalkIsReported(lookup: Lookup, gid: int, token: string, hops: nat, up: seq<Entry>, downs: seq<Entry>)
    returns (values: seq<Entry>)
    requires IsWalk(lookup, gid, token, hops, up, downs) && ClimbStops(lookup, up, hops)
    requires DescentStops(lookup, up, downs, hops)
    requires Visited(lookup, gid, token, hops) == Some(up + downs)
    ensures Explains(lookup, gid, token, hops, up, downs, values)
  {
    VisitedIsReported(lookup, gid, token, hops, up + downs);
    values := SetAll(EMPTY, up + downs).Values();
    var at := EmitTells(values);
  }

  lemma VisitedIsReported(lookup: Lookup, gid: int, token: string, hops: nat, trail: seq<Entry>)
    requires Visited(lookup, gid, token, hops) == Some(trail)
    ensures SetAll(EMPTY, trail).Valid() && Merges(SetAll(EMPTY, trail).Values(), trail)
    ensures HistoryOf(lookup, gid, token, hops) == Emit(SetAll(EMPTY, trail).Values())
  {
    ValuesMerge(trail);
  }

  lemma WalkedUp(lookup: Lookup, gid: int, token: string, seed: Entry, hops: nat)
    requires lookup(gid, token) == Found(seed)
    ensures var climb := Climb(lookup, seed, hops);
            if climb.failed then Breaks(lookup, gid, token, hops, [seed] + climb.steps, [])
            else ClimbStops(lookup, [seed] + climb.steps, hops)
  {
    var climb := Climb(lookup, seed, hops);
    var up := [seed] + climb.steps;
    ClimbStopsRightly(lookup, seed, hops);
    ClimbIsTrail(lookup, seed, hops);
    assert up[|up| - 1] == Last(seed, climb.steps) && up + [] == up;
    if climb.failed {
      assert IsWalk(lookup, gid, token, hops, up, []);
    }
  }

  lemma WalkedDown(lookup: Lookup, gid: int, token: string, seed: Entry, hops: nat)
    requires lookup(gid, token) == Found(seed) && !Climb(lookup, seed, hops).failed
    ensures var climb := Climb(lookup, seed, hops);
            var up := [seed] + climb.steps;
            var down := Descend(lookup, Last(seed, climb.steps), hops, Gids(up), seed.gid);
            && IsWalk(lookup, gid, token, hops, up, down.steps)
            && if down.failed then Breaks(lookup, gid, token, hops, up, down.steps)
                 else DescentStops(lookup, up, down.steps, hops)
  {
    var climb := Climb(lookup, seed, hops);
    var up := [seed] + climb.steps;
    WalkedUp(lookup, gid, token, seed, hops);
    WalksMakeATrail(lookup, seed, hops);
    DescendStopsRightly(lookup, Last(seed, climb.steps), hops, Gids(up), seed.gid);
    assert up[|up| - 1] == Last(seed, climb.steps) && up[0] == seed;
  }

  lemma {:induction false} ClimbStopsRightly(lookup: Lookup, tip: Entry, hops: nat)
    ensures var walk := Climb(lookup, tip, hops);
            var last := Last(tip, walk.steps);
            if walk.failed then |walk.steps| < hops && HasCurrent(last)
              && lookup(last.currentGid, last.currentKey).Failed?
            else |walk.steps| == hops || !HasCurrent(last) || lookup(last.currentGid, last.currentKey).Missing?
    decreases hops
  {
    if hops > 0 && HasCurrent(tip) && lookup(tip.currentGid, tip.currentKey).Found? {
      ClimbStopsRightly(lookup, lookup(tip.currentGid, tip.currentKey).entry, hops - 1);
    }
  }

  /** Step `j` of a descent has a gid seen before, there or earlier, that is not the seed's. */
  ghost predicate Repeats(steps: seq<Entry>, j: nat, seen: set<nat>, seedGid: nat)
    requires j < |steps|
  {
    steps[j].gid != seedGid && (steps[j].gid in seen || exists i :: 0 <= i < j && steps[i].gid == steps[j].gid)
  }

  lemma {:induction false} DescendStopsRightly(lookup: Lookup, cursor: Entry, hops: nat, seen: set<nat>, seedGid: nat)
    ensures var walk := Descend(lookup, cursor, hops, seen, seedGid);
            var steps, last := walk.steps, Last(cursor, walk.steps);
            && (forall j: nat :: j + 1 < |steps| ==> !Repeats(steps, j, seen, seedGid))
            && var back := steps != [] && Repeats(steps, |steps| - 1, seen, seedGid);
               if walk.failed
               then |steps| < hops && !back && HasParent(last) && lookup(last.parentGid, last.parentKey).Failed?
               else |steps| == hops || back || !HasParent(last) || lookup(last.parentGid, last.parentKey).Missing?
    decreases hops
  {
    if hops > 0 && HasParent(cursor) && lookup(cursor.parentGid, cursor.parentKey).Found? {
      var e := lookup(cursor.parentGid, cursor.parentKey).entry;
      if !(e.gid in seen && e.gid != seedGid) {
        var rest := Descend(lookup, e, hops - 1, seen + {e.gid}, seedGid).steps;
        DescendStopsRightly(lookup, e, hops - 1, seen + {e.gid}, seedGid);
        RepeatsLater(e, rest, seen, seedGid);
        var steps := [e] + rest;
        assert !Repeats(steps, 0, seen, seedGid);
        assert rest != [] ==> (Repeats(steps, |steps| - 1, seen, seedGid)
                               <==> Repeats(rest, |rest| - 1, seen + {e.gid}, seedGid));
        forall j: nat | j + 1 < |steps|
          ensures !Repeats(steps, j, seen, seedGid)
        {
          if j > 0 {
            assert !Repeats(rest, j - 1, seen + {e.gid}, seedGid);
          }
        }
      }
    }
  }

  lemma {:induction false} RepeatsLater(e: Entry, rest: seq<Entry>, seen: set<nat>, seedGid: nat)
    ensures forall j: nat :: j < |rest| ==>
              (Repeats([e] + rest, j + 1, seen, seedGid) <==> Repeats(rest, j, seen + {e.gid}, seedGid))
  {
    var steps := [e] + rest;
    forall j: nat | j < |rest|
      ensures Repeats(steps, j + 1, seen, seedGid) <==> Repeats(rest, j, seen + {e.gid}, seedGid)
    {
      assert steps[j + 1] == rest[j] && steps[0] == e;
      if rest[j].gid == e.gid {
        assert steps[0].gid == steps[j + 1].gid;
      }
      assert forall i :: 0 <= i < j ==> steps[i + 1] == rest[i];
      if i :| 0 <= i < j + 1 && steps[i].gid == steps[j + 1].gid {
        assert i > 0 ==> rest[i - 1].gid == rest[j].gid;
      }
      if i :| 0 <= i < j && rest[i].gid == rest[j].gid {
        assert steps[i + 1].gid == steps[j + 1].gid;
      }
    }
  }

  lemma ClimbIsTrail(lookup: Lookup, seed: Entry, hops: nat)
    ensures var ups := Climb(lookup, seed, hops).steps; IsTrail(lookup, [seed] + ups, |ups|)
  {
    ClimbFollows(lookup, seed, hops);
  }

  lemma WalksMakeATrail(lookup: Lookup, seed: Entry, hops: nat)
    ensures var ups := Climb(lookup, seed, hops).steps;
            var downs := Descend(lookup, Last(seed, ups), hops, Gids([seed] + ups), seed.gid).steps;
            IsTrail(lookup, [seed] + ups + downs, |ups|)
  {
    var ups := Climb(lookup, seed, hops).steps;
    var tip, up := Last(seed, ups), [seed] + ups;
    ClimbFollows(lookup, seed, hops);
    DescendFollows(lookup, tip, hops, Gids(up), seed.gid);
    assert up[|up| - 1] == tip;
    TrailsJoin(lookup, up, Descend(lookup, tip, hops, Gids(up), seed.gid).steps);
  }

  lemma TrailsJoin(lookup: Lookup, up: seq<Entry>, downs: seq<Entry>)
    requires up != [] && IsTrail(lookup, up, |up|) && IsTrail(lookup, [up[|up| - 1]] + downs, 0)
    ensures IsTrail(lookup, up + downs, |up| - 1)
  {
    var trail, down := up + downs, [up[|up| - 1]] + downs;
    forall i | 0 < i < |trail| && |up| - 1 < i
      ensures FollowsParent(lookup, trail[i - 1], trail[i])
    {
      var k := i - |up| + 1;
      assert trail[i] == down[k] && trail[i - 1] == down[k - 1];
    }
    forall i | 0 < i < |trail| && i <= |up| - 1
      ensures FollowsCurrent(lookup, trail[i - 1], trail[i])
    {
      assert trail[i] == up[i] && trail[i - 1] == up[i - 1];
    }
  }

  // ----- A linear chain of revisions, newest first

  ghost predicate LinearChain(lookup: Lookup, chain: seq<Entry>) {
    && chain != [] && !NamesNewer(chain[0]) && !NamesOlder(chain[|chain| - 1])
    && (forall i, j :: 0 <= i < j < |chain| ==> chain[i].gid != chain[j].gid)
    && (forall i :: 0 < i < |chain| ==> FollowsCurrent(lookup, chain[i], chain[0]))
    && forall i :: 0 < i < |chain| ==> FollowsParent(lookup, chain[i - 1], chain[i])
  }

  function Least(a: nat, b: nat): nat {
    if a < b then a else b
  }

  lemma {:induction false} DescendsTheChain(lookup: Lookup, chain: seq<Entry>, i: nat, hops: nat, seen: set<nat>,
                                            seedGid: nat)
    requires LinearChain(lookup, chain) && i < |chain|
    requires forall k :: i < k < |chain| && chain[k].gid in seen ==> chain[k].gid == seedGid
    ensures Descend(lookup, chain[i], hops, seen, seedGid) == Walk(chain[i + 1..Least(i + 1 + hops, |chain|)], false)
    decreases hops
  {
    if hops > 0 && i + 1 < |chain| {
      var next := chain[i + 1];
      assert FollowsParent(lookup, chain[i], next);
      DescendsTheChain(lookup, chain, i + 1, hops - 1, seen + {next.gid}, seedGid);
      assert chain[i + 1..Least(i + 1 + hops, |chain|)] == [next] + chain[i + 2..Least(i + 1 + hops, |chain|)];
    }
  }

  lemma ClimbsTheChain(lookup: Lookup, chain: seq<Entry>, s: nat, hops: nat)
    requires LinearChain(lookup, chain) && s < |chain| && hops > 0
    ensures Climb(lookup, chain[s], hops) == Walk(if s == 0 then [] else [chain[0]], false)
  {
    if s > 0 {
      assert FollowsCurrent(lookup, chain[s], chain[0]);
      assert Climb(lookup, chain[0], hops - 1) == Walk([], false);
    }
  }

  lemma VisitsTheChain(lookup: Lookup, gid: int, token: string, chain: seq<Entry>, s: nat, hops: nat)
    requires LinearChain(lookup, chain) && s < |chain| && hops > 0 && lookup(gid, token) == Found(chain[s])
    ensures Visited(lookup, gid, token, hops)
         == Some(if s == 0 then chain[..Least(hops + 1, |chain|)] else [chain[s]] + chain[..Least(hops + 1, |chain|)])
  {
    ClimbsTheChain(lookup, chain, s, hops);
    var climb := Climb(lookup, chain[s], hops).steps;
    var up := [chain[s]] + climb;
    assert Last(chain[s], climb) == chain[0];
    assert Gids(up) == {chain[s].gid, chain[0].gid} by {
      assert up[0] == chain[s] && up[|up| - 1] == chain[0];
    }
    DescendsTheChain(lookup, chain, 0, hops, Gids(up), chain[s].gid);
    var m := Least(hops + 1, |chain|);
    var downs := Descend(lookup, chain[0], hops, Gids(up), chain[s].gid).steps;
    assert downs == chain[1..m];
    assert [chain[0]] + chain[1..m] == chain[..m];
    assert up + downs == if s == 0 then chain[..m] else [chain[s]] + chain[..m];
  }

  ghost predicate Holds(record: Record, values: seq<Entry>) {
    record.Valid() && record.Values() == values
  }

  lemma SetFresh(record: Record, values: seq<Entry>, e: Entry)
    requires Holds(record, values) && forall i :: 0 <= i < |values| ==> values[i].gid != e.gid
    ensures Holds(record.Set(e), values + [e])
  {
    forall i | 0 <= i < |record.order|
      ensures record.order[i] == values[i].gid
    {
      assert record.order[i] in record.order;
    }
    assert e.gid !in record.order;
  }

  lemma SetAgain(record: Record, values: seq<Entry>, i: nat)
    requires Holds(record, values) && i < |values|
    ensures record.Set(values[i]) == record
  {
    assert record.order[i] in record.order;
    assert record.entries[values[i].gid := values[i]] == record.entries;
  }

  /** The first `k` of `list` behind `list`'s own element `s`, which is not repeated. */
  ghost function Fronted(front: Entry, list: seq<Entry>, s: nat, k: nat): seq<Entry>
    requires k <= |list|
  {
    [front] + if s < k then list[..s] + list[s + 1..k] else list[..k]
  }

  lemma {:induction false} RecordsFronted(chain: seq<Entry>, s: nat, k: nat)
    requires s < |chain| && k <= |chain|
    requires forall i, j :: 0 <= i < j < |chain| ==> chain[i].gid != chain[j].gid
    ensures Holds(SetAll(EMPTY, [chain[s]] + chain[..k]), Fronted(chain[s], chain, s, k))
  {
    var front := chain[s];
    if k == 0 {
      assert [front] + chain[..0] == [front];
      SetFresh(EMPTY, [], front);
      assert SetAll(EMPTY, [front]) == SetAll(EMPTY.Set(front), []);
    } else {
      var e, earlier := chain[k - 1], [front] + chain[..k - 1];
      RecordsFronted(chain, s, k - 1);
      assert [front] + chain[..k] == earlier + [e];
      SetAllOneMore(EMPTY, earlier, e);
      FrontedOneMore(chain, s, k);
      if s == k - 1 {
        SetAgain(SetAll(EMPTY, earlier), Fronted(front, chain, s, k - 1), 0);
      } else {
        SetFresh(SetAll(EMPTY, earlier), Fronted(front, chain, s, k - 1), e);
      }
    }
  }

  lemma FrontedOneMore(chain: seq<Entry>, s: nat, k: nat)
    requires s < |chain| && 0 < k <= |chain|
    requires forall i, j :: 0 <= i < j < |chain| ==> chain[i].gid != chain[j].gid
    ensures var before, after := Fronted(chain[s], chain, s, k - 1), Fronted(chain[s], chain, s, k);
            && (s == k - 1 ==> after == before)
            && (s != k - 1 ==> after == before + [chain[k - 1]])
            && (s != k - 1 ==> forall i :: 0 <= i < |before| ==> before[i].gid != chain[k - 1].gid)
  {
    var before := Fronted(chain[s], chain, s, k - 1);
    assert forall i :: 0 < i < |before| ==> before[i] == if s < k - 1 && s <= i - 1 then chain[i] else chain[i - 1];
  }

  /**
    On a linear chain of any length and from any seed, the report is made from exactly the newest
    `hops + 1` revisions and the seed, the seed first and the others from the newest down; with the
    code's 50 hops that is the newest 51.
   */
  lemma ChainIsReported(lookup: Lookup, gid: int, token: string, chain: seq<Entry>, s: nat, hops: nat)
    requires LinearChain(lookup, chain) && s < |chain| && hops > 0 && lookup(gid, token) == Found(chain[s])
    ensures HistoryOf(lookup, gid, token, hops) == Emit(Fronted(chain[s], chain, s, Least(hops + 1, |chain|)))
  {
    var m := Least(hops + 1, |chain|);
    VisitsTheChain(lookup, gid, token, chain, s, hops);
    RecordsFronted(chain, s, m);
    if s == 0 {
      assert chain[..m] == [chain[0]] + chain[1..m];
      assert [chain[0]] + chain[..m] == [chain[0], chain[0]] + chain[1..m];
      TwiceIsOnce(chain[0], chain[1..m]);
    }
  }

  lemma TwiceIsOnce(e: Entry, rest: seq<Entry>)
    ensures SetAll(EMPTY, [e, e] + rest) == SetAll(EMPTY, [e] + rest)
  {
    SetAllAppend(EMPTY, [e, e], rest);
    SetAllAppend(EMPTY, [e], rest);
    assert [e, e][1..] == [e] && [e][1..] == [];
    assert SetAll(EMPTY, [e, e]) == SetAll(EMPTY.Set(e).Set(e), []);
    assert SetAll(EMPTY, [e]) == SetAll(EMPTY.Set(e), []);
    assert EMPTY.Set(e).Set(e).entries == EMPTY.Set(e).entries;
  }

  // ----- Sources

  ghost predicate IsNamed(e: Entry) {
    IsDated(e) && All(e.token, IsHex)
  }

  /** A reported source is the gallery's canonical form: what any alias of its URL is folded onto. */
  lemma SourceIsCanonical(e: Entry)
    requires IsNamed(e)
    ensures Published(e).source == CanonicalForm(Gallery(Digits(e.gid), e.token))
    ensures CanonicalizeSource(Published(e).source) == Published(e).source
    ensures ParseGallery(Published(e).source) == Some(Gallery(Digits(e.gid), e.token))
  {
    CanonicalFormIsFixed(Gallery(Digits(e.gid), e.token));
  }

  /** Different galleries never get one source, whatever their tokens look like. */
  lemma SourcesDiffer(a: Entry, b: Entry)
    requires a.gid != b.gid
    ensures Published(a).source != Published(b).source
  {
    PathFollows(a);
    PathFollows(b);
    var s := NumberStays(Digits(a.gid), a.token);
    var t := NumberStays(Digits(b.gid), b.token);
    if GALLERY_PATH + Digits(a.gid) + s == GALLERY_PATH + Digits(b.gid) + t {
      NumberIsRead(Digits(a.gid), s, Digits(b.gid), t);
      DigitsInjective(a.gid, b.gid);
    }
  }

  lemma PathFollows(e: Entry)
    ensures Published(e).source == CanonicalizeSource(GALLERY_PATH + Digits(e.gid) + "/" + e.token)
    ensures Digits(e.gid) != "" && All(Digits(e.gid), IsDigit)
  {
  }

  lemma NumberIsRead(m: string, s: string, n: string, t: string)
    requires All(m, IsDigit) && All(n, IsDigit) && (s == "" || s[0] == '/') && (t == "" || t[0] == '/')
    requires GALLERY_PATH + m + s == GALLERY_PATH + n + t
    ensures m == n
  {
    ConcatAssoc(GALLERY_PATH, m, s);
    ConcatAssoc(GALLERY_PATH, n, t);
    ConcatSlices(GALLERY_PATH, m + s);
    ConcatSlices(GALLERY_PATH, n + t);
    SpanOf(m, s, IsDigit);
    SpanOf(n, t, IsDigit);
    ConcatSlices(m, s);
    ConcatSlices(n, t);
  }

  lemma {:induction false} KeptAll(values: seq<Entry>)
    requires forall i :: 0 <= i < |values| ==> IsDated(values[i])
    ensures Kept(values) == values
  {
    if values != [] {
      var last := |values| - 1;
      assert IsDated(values[last]);
      KeptAll(values[..last]);
      assert values == values[..last] + [values[last]];
    }
  }

  /** Where entry `j` of a fronted list stands in the chain. */
  function At(s: nat, m: nat, j: nat): nat {
    if j == 0 then s else if s < m && s < j then j else j - 1
  }

  lemma FrontedAt(chain: seq<Entry>, s: nat, m: nat, j: nat)
    requires s < |chain| && m <= |chain| && j < |Fronted(chain[s], chain, s, m)|
    ensures At(s, m, j) < |chain| && Fronted(chain[s], chain, s, m)[j] == chain[At(s, m, j)]
  {
  }

  ghost predicate Among(s: nat, hops: nat, i: nat) {
    i <= hops || i == s
  }

  lemma SourcesAreDistinct(values: seq<Entry>, chain: seq<Entry>, s: nat, m: nat)
    requires s < |chain| && m <= |chain| && values == Fronted(chain[s], chain, s, m)
    requires forall i, j :: 0 <= i < j < |chain| ==> chain[i].gid != chain[j].gid
    requires forall k :: 0 <= k < |chain| ==> IsDated(chain[k])
    ensures forall a :: 0 <= a < |values| ==> IsDated(values[a])
    ensures forall a, b :: 0 <= a < b < |values| ==> Published(values[a]).source != Published(values[b]).source
  {
    forall a | 0 <= a < |values|
      ensures At(s, m, a) < |chain| && values[a] == chain[At(s, m, a)] && IsDated(values[a])
    {
      FrontedAt(chain, s, m, a);
    }
    forall a, b | 0 <= a < b < |values|
      ensures Published(values[a]).source != Published(values[b]).source
    {
      SourcesDiffer(values[a], values[b]);
    }
  }

  lemma ReportedWhenAmong(values: seq<Entry>, chain: seq<Entry>, s: nat, hops: nat, i: nat)
    requires s < |chain| && i < |chain| && values == Fronted(chain[s], chain, s, Least(hops + 1, |chain|))
    requires forall i, j :: 0 <= i < j < |chain| ==> chain[i].gid != chain[j].gid
    ensures Among(s, hops, i) <==> exists a :: 0 <= a < |values| && Published(values[a]) == Published(chain[i])
  {
    StandsWhenAmong(values, chain, s, hops, i);
    if !Among(s, hops, i) {
      forall a | 0 <= a < |values|
        ensures Published(values[a]) != Published(chain[i])
      {
        SourcesDiffer(values[a], chain[i]);
      }
    }
  }

  lemma StandsWhenAmong(values: seq<Entry>, chain: seq<Entry>, s: nat, hops: nat, i: nat)
    requires s < |chain| && i < |chain| && values == Fronted(chain[s], chain, s, Least(hops + 1, |chain|))
    requires forall i, j :: 0 <= i < j < |chain| ==> chain[i].gid != chain[j].gid
    ensures Among(s, hops, i) ==> exists a :: 0 <= a < |values| && values[a] == chain[i]
    ensures !Among(s, hops, i) ==> forall a :: 0 <= a < |values| ==> values[a].gid != chain[i].gid
  {
    var m := Least(hops + 1, |chain|);
    if Among(s, hops, i) {
      var j := if i == s then 0 else if s < m && s < i then i else i + 1;
      FrontedAt(chain, s, m, j);
    } else {
      forall a | 0 <= a < |values|
        ensures values[a].gid != chain[i].gid
      {
        FrontedAt(chain, s, m, a);
      }
    }
  }

  /** Some entry of the report tells of this revision. */
  ghost predicate IsTold(history: seq<HistoryEntry>, e: Entry) {
    exists told :: told in history && Tells(told, e)
  }

  /**
    A revision of a chain is reported, under its own address and time, exactly when it is among the newest
    `hops + 1` or is the seed, and no source is reported twice. Up to `hops + 1` revisions that is every
    revision once, whichever is the seed, those between the seed and the newest included.
   */
  lemma ReportedExactly(lookup: Lookup, gid: int, token: string, chain: seq<Entry>, s: nat, hops: nat, i: nat)
    requires LinearChain(lookup, chain) && s < |chain| && hops > 0 && lookup(gid, token) == Found(chain[s])
    requires forall k :: 0 <= k < |chain| ==> CanBeTold(chain[k])
    requires i < |chain|
    ensures var history := HistoryOf(lookup, gid, token, hops);
            && (IsTold(history, chain[i]) <==> Among(s, hops, i))
            && |history| == Least(hops + 1, |chain|) + (if s <= hops then 0 else 1)
            && forall a, b :: 0 <= a < b < |history| ==> history[a].source != history[b].source
  {
    TellsExactly(Published(chain[i]), chain[i]);
    ChainIsReported(lookup, gid, token, chain, s, hops);
    forall k | 0 <= k < |chain|
      ensures IsDated(chain[k])
    {
      TellsExactly(Published(chain[k]), chain[k]);
    }
    EmittedExactly(chain, s, hops, i);
    var history := HistoryOf(lookup, gid, token, hops);
    forall told | told in history
      ensures Tells(told, chain[i]) <==> told == Published(chain[i])
    {
      TellsExactly(told, chain[i]);
    }
  }

  lemma EmittedExactly(chain: seq<Entry>, s: nat, hops: nat, i: nat)
    requires s < |chain| && forall i, j :: 0 <= i < j < |chain| ==> chain[i].gid != chain[j].gid
    requires forall k :: 0 <= k < |chain| ==> IsDated(chain[k])
    requires i < |chain|
    ensures var history := Emit(Fronted(chain[s], chain, s, Least(hops + 1, |chain|)));
            && (Published(chain[i]) in history <==> Among(s, hops, i))
            && |history| == Least(hops + 1, |chain|) + (if s <= hops then 0 else 1)
            && forall a, b :: 0 <= a < b < |history| ==> history[a].source != history[b].source
  {
    var values := Fronted(chain[s], chain, s, Least(hops + 1, |chain|));
    SourcesAreDistinct(values, chain, s, Least(hops + 1, |chain|));
    KeptAll(values);
    ReportedWhenAmong(values, chain, s, hops, i);
    EntriesCarryOver(Emit(values), values, Published(chain[i]));
  }

  lemma EntriesCarryOver(history: seq<HistoryEntry>, values: seq<Entry>, entry: HistoryEntry)
    requires |history| == |values| && forall a :: 0 <= a < |values| ==> history[a] == Published(values[a])
    requires forall a, b :: 0 <= a < b < |values| ==> Published(values[a]).source != Published(values[b]).source
    ensures entry in history <==> exists a :: 0 <= a < |values| && Published(values[a]) == entry
    ensures forall a, b :: 0 <= a < b < |history| ==> history[a].source != history[b].source
  {
  }
}
