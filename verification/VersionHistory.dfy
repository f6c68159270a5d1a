/**
  `collectVersionHistory`: climb the current links to the newest revision, then follow the parents.
 */
module VersionHistory {
  import opened Text
  import opened GallerySource

  const MAX_HOPS: nat := 50

  /** One `gdata` entry. An absent or unreadable link has gid 0 or an empty key; `posted` is in seconds. */
  datatype Entry = Entry(gid: nat, token: string, posted: Option<real>,
                         parentGid: int, parentKey: string, currentGid: int, currentKey: string)

  /** One lookup: the entry, none (or an error stub), or an exception. */
  datatype Reply = Found(entry: Entry) | Missing | Failed

  type Lookup = (int, string) -> Reply

  predicate HasCurrent(e: Entry) {
    e.currentGid != 0 && e.currentKey != "" && e.currentGid != e.gid
  }

  predicate HasParent(e: Entry) {
    e.parentGid != 0 && e.parentKey != ""
  }

  /** A JavaScript `Map` from gid to entry: iteration follows the first insertion, `set` replaces in place. */
  datatype Record = Record(order: seq<nat>, entries: map<nat, Entry>) {
    function Set(e: Entry): Record {
      Record(if e.gid in entries then order else order + [e.gid], entries[e.gid := e])
    }

    ghost predicate Valid() {
      && (forall g :: g in order <==> g in entries)
      && (forall i, j :: 0 <= i < j < |order| ==> order[i] != order[j])
      && forall g :: g in entries ==> entries[g].gid == g
    }

    function Values(): (values: seq<Entry>)
      requires Valid()
      ensures |values| == |order|
      ensures forall i :: 0 <= i < |order| ==> values[i] == entries[order[i]]
    {
      seq(|order|, i requires 0 <= i < |order| => assert order[i] in order; entries[order[i]])
    }
  }

  const EMPTY: Record := Record([], map[])

  ghost function SetAll(record: Record, visited: seq<Entry>): Record
    decreases |visited|
  {
    if visited == [] then record else SetAll(record.Set(visited[0]), visited[1..])
  }

  ghost predicate Built(record: Record, start: Record, visited: seq<Entry>) {
    record == SetAll(start, visited)
  }

  lemma {:induction false} SetAllValid(record: Record, visited: seq<Entry>)
    requires record.Valid()
    ensures SetAll(record, visited).Valid()
    decreases |visited|
  {
    if visited != [] {
      SetAllValid(record.Set(visited[0]), visited[1..]);
    }
  }

  // ----- The two walks

  datatype Walk = Walk(steps: seq<Entry>, failed: bool)

  function Then(e: Entry, rest: Walk): Walk {
    Walk([e] + rest.steps, rest.failed)
  }

  ghost function After(done: seq<Entry>, rest: Walk): Walk {
    Walk(done + rest.steps, rest.failed)
  }

  ghost predicate Continues(full: Walk, done: seq<Entry>, rest: Walk) {
    full == After(done, rest)
  }

  lemma AfterOneMore(done: seq<Entry>, e: Entry, rest: Walk)
    ensures After(done, Then(e, rest)) == After(done + [e], rest)
  {
    assert done + ([e] + rest.steps) == (done + [e]) + rest.steps;
  }

  function Climb(lookup: Lookup, tip: Entry, hops: nat): (walk: Walk)
    ensures |walk.steps| <= hops
    decreases hops
  {
    if hops == 0 || !HasCurrent(tip) then Walk([], false)
    else match lookup(tip.currentGid, tip.currentKey)
      case Failed => Walk([], true)
      case Missing => Walk([], false)
      case Found(e) => Then(e, Climb(lookup, e, hops - 1))
  }

  function Descend(lookup: Lookup, cursor: Entry, hops: nat, seen: set<nat>, seedGid: nat): (walk: Walk)
    ensures |walk.steps| <= hops
    decreases hops
  {
    if hops == 0 || !HasParent(cursor) then Walk([], false)
    else match lookup(cursor.parentGid, cursor.parentKey)
      case Failed => Walk([], true)
      case Missing => Walk([], false)
      case Found(e) =>
        if e.gid in seen && e.gid != seedGid then Walk([e], false)
        else Then(e, Descend(lookup, e, hops - 1, seen + {e.gid}, seedGid))
  }

  function Last(seed: Entry, steps: seq<Entry>): Entry {
    if steps == [] then seed else steps[|steps| - 1]
  }

  function Gids(visited: seq<Entry>): set<nat> {
    set i | 0 <= i < |visited| :: visited[i].gid
  }

  /** Every entry looked up, in order, or nothing when a lookup threw or the seed is unknown. */
  function Visited(lookup: Lookup, gid: int, token: string, hops: nat): Option<seq<Entry>> {
    match lookup(gid, token)
    case Failed => None
    case Missing => None
    case Found(seed) =>
      var climb := Climb(lookup, seed, hops);
      if climb.failed then None
      else
        var down := Descend(lookup, Last(seed, climb.steps), hops, Gids([seed] + climb.steps), seed.gid);
        if down.failed then None else Some([seed] + climb.steps + down.steps)
  }

  // ----- What is reported

  datatype HistoryEntry = HistoryEntry(source: string, postedAt: int)

  function Truncated(x: real): int {
    if x >= 0.0 then x.Floor else -(-x).Floor
  }

  /** A token, and a time the `Date` type can hold. */
  predicate IsDated(e: Entry) {
    e.token != "" && e.posted.Some? && -8_640_000_000_000_000.0 <= e.posted.value * 1000.0 <= 8_640_000_000_000_000.0
  }

  function Published(e: Entry): HistoryEntry {
    HistoryEntry(CanonicalizeSource("e-hentai.org/g/" + Digits(e.gid) + "/" + e.token),
                 if e.posted.Some? then Truncated(e.posted.value * 1000.0) else 0)
  }

  /** Whole milliseconds for a time in seconds: less than one away from a thousand times it, and nearer to zero. */
  predicate IsMillis(millis: int, seconds: real) {
    && -1.0 < millis as real - 1000.0 * seconds < 1.0
    && if seconds >= 0.0 then 0.0 <= millis as real <= 1000.0 * seconds else 1000.0 * seconds <= millis as real <= 0.0
  }

  /** What is reported of a revision: its own address, made canonical, and its own time. */
  predicate Tells(told: HistoryEntry, e: Entry) {
    && e.posted.Some? && IsMillis(told.postedAt, e.posted.value)
    && told.source == CanonicalizeSource("e-hentai.org/g/" + Digits(e.gid) + "/" + e.token)
  }

  /** A revision can be reported: it has a token, and a time within a hundred million days of 1970. */
  predicate CanBeTold(e: Entry) {
    && e.token != "" && e.posted.Some?
    && -100_000_000.0 * 86_400.0 <= e.posted.value <= 100_000_000.0 * 86_400.0
  }

  lemma TellsExactly(told: HistoryEntry, e: Entry)
    ensures IsDated(e) <==> CanBeTold(e)
    ensures IsDated(e) ==> (Tells(told, e) <==> told == Published(e))
  {
    DatedExactly(e);
    if e.posted.Some? {
      MillisExactly(told.postedAt, e.posted.value);
    }
  }

  lemma {:induction false} DatedExactly(e: Entry)
    ensures IsDated(e) <==> CanBeTold(e)
  {
  }

  lemma {:induction false} MillisExactly(millis: int, seconds: real)
    ensures IsMillis(millis, seconds) <==> millis == Truncated(seconds * 1000.0)
  {
  }

  /** The entries at these places, in this order, are what is told. */
  ghost predicate ToldInOrder(history: seq<HistoryEntry>, values: seq<Entry>, at: seq<nat>) {
    ArePlaces(at, values) && TellThose(history, values, at)
  }

  ghost predicate TellThose(history: seq<HistoryEntry>, values: seq<Entry>, at: seq<nat>) {
    |at| == |history| && forall i :: 0 <= i < |at| ==> at[i] < |values| && Tells(history[i], values[at[i]])
  }

  /** The places of the entries that can be told, in order. */
  ghost predicate ArePlaces(at: seq<nat>, values: seq<Entry>) {
    && (forall i :: 0 <= i < |at| ==> at[i] < |values|)
    && (forall i, j :: 0 <= i < j < |at| ==> at[i] < at[j])
    && forall k :: 0 <= k < |values| ==> (k in at <==> CanBeTold(values[k]))
  }

  /** Every entry that can be told is, once and in order, and nothing else. */
  lemma {:induction false} EmitTells(values: seq<Entry>) returns (at: seq<nat>)
    ensures ToldInOrder(Emit(values), values, at)
  {
    at := [];
    if values != [] {
      var last := |values| - 1;
      var earlier := EmitTells(values[..last]);
      at := TellsLast(values, earlier);
    }
  }

  lemma {:induction false} TellsLast(values: seq<Entry>, earlier: seq<nat>) returns (at: seq<nat>)
    requires values != []
    requires ToldInOrder(Emit(values[..|values| - 1]), values[..|values| - 1], earlier)
    ensures ToldInOrder(Emit(values), values, at)
  {
    var e := values[|values| - 1];
    TellsExactly(Published(e), e);
    EmitOneMore(values);
    PlacesOneMore(earlier, values);
    at := earlier;
    if CanBeTold(e) {
      at := earlier + [|values| - 1];
      TellOneMore(Emit(values[..|values| - 1]), values, earlier, Published(e));
    } else {
      TellSameAfter(Emit(values[..|values| - 1]), values, earlier);
    }
  }

  lemma {:induction false} EmitOneMore(values: seq<Entry>)
    requires values != []
    ensures var last := |values| - 1;
            Emit(values)
            == if IsDated(values[last]) then Emit(values[..last]) + [Published(values[last])] else Emit(values[..last])
  {
  }

  lemma {:induction false} TellOneMore(history: seq<HistoryEntry>, values: seq<Entry>, at: seq<nat>,
                                       told: HistoryEntry)
    requires values != [] && TellThose(history, values[..|values| - 1], at) && Tells(told, values[|values| - 1])
    ensures TellThose(history + [told], values, at + [|values| - 1])
  {
    TellSameAfter(history, values, at);
  }

  lemma {:induction false} TellSameAfter(history: seq<HistoryEntry>, values: seq<Entry>, at: seq<nat>)
    requires values != [] && TellThose(history, values[..|values| - 1], at)
    ensures TellThose(history, values, at)
  {
    assert forall i :: 0 <= i < |at| ==> values[..|values| - 1][at[i]] == values[at[i]];
  }

  lemma {:induction false} PlacesOneMore(at: seq<nat>, values: seq<Entry>)
    requires values != [] && ArePlaces(at, values[..|values| - 1])
    ensures ArePlaces(if CanBeTold(values[|values| - 1]) then at + [|values| - 1] else at, values)
  {
    var last := |values| - 1;
    var more := if CanBeTold(values[last]) then at + [last] else at;
    forall k | 0 <= k < |values|
      ensures k in more <==> CanBeTold(values[k])
    {
      assert k in more <==> k in at || (k == last && CanBeTold(values[last]));
      assert k < last ==> values[..last][k] == values[k];
    }
  }

  /** A malformed entry drops only itself. */
  function Kept(entries: seq<Entry>): seq<Entry> {
    if entries == [] then []
    else
      var last := |entries| - 1;
      Kept(entries[..last]) + if IsDated(entries[last]) then [entries[last]] else []
  }

  function Emit(entries: seq<Entry>): (history: seq<HistoryEntry>)
    ensures |history| == |Kept(entries)|
    ensures forall i :: 0 <= i < |history| ==> history[i] == Published(Kept(entries)[i])
  {
    var kept := Kept(entries);
    seq(|kept|, i requires 0 <= i < |kept| => Published(kept[i]))
  }

  ghost function HistoryOf(lookup: Lookup, gid: int, token: string, hops: nat): seq<HistoryEntry> {
    var visited := Visited(lookup, gid, token, hops);
    if visited.None? then []
    else
      SetAllValid(EMPTY, visited.value);
      Emit(SetAll(EMPTY, visited.value).Values())
  }

  /** The whole collection: two bounded walks, then one pass over the recorded revisions. */
  method CollectVersionHistory(lookup: Lookup, gid: int, token: string)
    returns (history: seq<HistoryEntry>, lookups: nat)
    ensures history == HistoryOf(lookup, gid, token, 50) && lookups <= 101
  {
    history, lookups := CollectWithin(lookup, gid, token, MAX_HOPS);
  }

  method CollectWithin(lookup: Lookup, gid: int, token: string, hops: nat)
    returns (history: seq<HistoryEntry>, lookups: nat)
    ensures history == HistoryOf(lookup, gid, token, hops)
    ensures lookups <= 2 * hops + 1
  {
    var reply := lookup(gid, token);
    if !reply.Found? {
      return [], 1;
    }
    var seed := reply.entry;
    var byGid := EMPTY.Set(seed);
    assert Built(byGid, EMPTY, [seed]) by { assert [seed][1..] == []; }
    var tip, climbed, ups, failed := ClimbToTip(lookup, seed, byGid, hops);
    if failed {
      return [], 1 + ups;
    }
    ghost var visited := [seed] + Climb(lookup, seed, hops).steps;
    SetAllAppend(EMPTY, [seed], Climb(lookup, seed, hops).steps);
    RecordedGids(visited);
    var walked, downs, failedBelow := FollowParents(lookup, tip, climbed, seed.gid, hops);
    lookups := 1 + ups + downs;
    if failedBelow {
      return [], lookups;
    }
    ghost var steps := Descend(lookup, tip, hops, Gids(visited), seed.gid).steps;
    SetAllAppend(EMPTY, visited, steps);
    SetAllValid(EMPTY, visited + steps);
    history := EmitAll(walked.Values());
  }

  method ClimbToTip(lookup: Lookup, seed: Entry, start: Record, hops: nat)
    returns (tip: Entry, byGid: Record, lookups: nat, failed: bool)
    ensures failed == Climb(lookup, seed, hops).failed && lookups <= hops
    ensures !failed ==> tip == Last(seed, Climb(lookup, seed, hops).steps)
    ensures !failed ==> Built(byGid, start, Climb(lookup, seed, hops).steps)
  {
    var stop := false;
    tip, byGid, lookups, failed := seed, start, 0, false;
    ghost var full := Climb(lookup, seed, hops);
    ghost var steps: seq<Entry> := [];
    while lookups < hops && HasCurrent(tip) && !stop
      invariant lookups <= hops && tip == Last(seed, steps) && Built(byGid, start, steps) && (failed ==> stop)
      invariant !stop ==> Continues(full, steps, Climb(lookup, tip, hops - lookups))
      invariant stop ==> full == Walk(steps, failed)
      decreases hops - lookups
    {
      var reply := lookup(tip.currentGid, tip.currentKey);
      lookups := lookups + 1;
      if !reply.Found? {
        failed, stop := reply.Failed?, true;
      } else {
        ClimbOne(lookup, tip, hops - lookups + 1, steps, full);
        tip := reply.entry;
        byGid := RecordEntry(byGid, tip, start, steps);
        steps := steps + [tip];
      }
    }
    assert steps + [] == steps;
  }

  /** The `record` closure; the ghosts name what the map was built from. */
  method RecordEntry(byGid: Record, e: Entry, ghost start: Record, ghost steps: seq<Entry>) returns (next: Record)
    requires Built(byGid, start, steps)
    ensures Built(next, start, steps + [e]) && next.entries.Keys == byGid.entries.Keys + {e.gid}
  {
    SetAllOneMore(start, steps, e);
    next := byGid.Set(e);
  }

  method FollowParents(lookup: Lookup, tip: Entry, start: Record, seedGid: nat, hops: nat)
    returns (byGid: Record, lookups: nat, failed: bool)
    ensures failed == Descend(lookup, tip, hops, start.entries.Keys, seedGid).failed && lookups <= hops
    ensures !failed ==> Built(byGid, start, Descend(lookup, tip, hops, start.entries.Keys, seedGid).steps)
  {
    var cursor, stop := tip, false;
    byGid, lookups, failed := start, 0, false;
    ghost var full := Descend(lookup, tip, hops, start.entries.Keys, seedGid);
    ghost var steps, seen := [], start.entries.Keys;
    while lookups < hops && HasParent(cursor) && !stop
      invariant lookups <= hops && Built(byGid, start, steps) && byGid.entries.Keys == seen && (failed ==> stop)
      invariant !stop ==> Continues(full, steps, Descend(lookup, cursor, hops - lookups, seen, seedGid))
      invariant stop ==> full == Walk(steps, failed)
      decreases hops - lookups
    {
      var reply := lookup(cursor.parentGid, cursor.parentKey);
      lookups := lookups + 1;
      if !reply.Found? {
        failed, stop := reply.Failed?, true;
      } else {
        DescendOne(lookup, cursor, hops - lookups + 1, seen, seedGid, steps, full);
        cursor := reply.entry;
        stop := cursor.gid in byGid.entries && cursor.gid != seedGid;
        byGid := RecordEntry(byGid, cursor, start, steps);
        steps, seen := steps + [cursor], seen + {cursor.gid};
      }
    }
    assert steps + [] == steps;
  }

  lemma ClimbOne(lookup: Lookup, tip: Entry, hops: nat, done: seq<Entry>, full: Walk)
    requires hops > 0 && HasCurrent(tip) && lookup(tip.currentGid, tip.currentKey).Found?
    requires Continues(full, done, Climb(lookup, tip, hops))
    ensures var e := lookup(tip.currentGid, tip.currentKey).entry;
            Continues(full, done + [e], Climb(lookup, e, hops - 1))
  {
    var e := lookup(tip.currentGid, tip.currentKey).entry;
    AfterOneMore(done, e, Climb(lookup, e, hops - 1));
  }

  lemma DescendOne(lookup: Lookup, cursor: Entry, hops: nat, seen: set<nat>, seedGid: nat, done: seq<Entry>, full: Walk)
    requires hops > 0 && HasParent(cursor) && lookup(cursor.parentGid, cursor.parentKey).Found?
    requires Continues(full, done, Descend(lookup, cursor, hops, seen, seedGid))
    ensures var e := lookup(cursor.parentGid, cursor.parentKey).entry;
            if e.gid in seen && e.gid != seedGid then full == Walk(done + [e], false)
            else Continues(full, done + [e], Descend(lookup, e, hops - 1, seen + {e.gid}, seedGid))
  {
    var e := lookup(cursor.parentGid, cursor.parentKey).entry;
    AfterOneMore(done, e, Descend(lookup, e, hops - 1, seen + {e.gid}, seedGid));
  }

  method EmitAll(values: seq<Entry>) returns (history: seq<HistoryEntry>)
    ensures history == Emit(values)
    ensures exists at :: ToldInOrder(history, values, at)
  {
    history := [];
    for i := 0 to |values|
      invariant |history| == |Kept(values[..i])|
      invariant forall k :: 0 <= k < |history| ==> history[k] == Published(Kept(values[..i])[k])
    {
      assert values[..i + 1][..i] == values[..i];
      if !IsDated(values[i]) {
        continue;
      }
      history := history + [Published(values[i])];
    }
    assert values[..|values|] == values;
    ghost var at := EmitTells(values);
  }

  lemma SetAllOneMore(record: Record, visited: seq<Entry>, e: Entry)
    ensures SetAll(record, visited + [e]) == SetAll(record, visited).Set(e)
    ensures SetAll(record, visited).Set(e).entries.Keys == SetAll(record, visited).entries.Keys + {e.gid}
  {
    SetAllAppend(record, visited, [e]);
    assert SetAll(SetAll(record, visited), [e]) == SetAll(SetAll(record, visited).Set(e), []);
  }

  lemma {:induction false} SetAllAppend(record: Record, first: seq<Entry>, second: seq<Entry>)
    ensures SetAll(record, first + second) == SetAll(SetAll(record, first), second)
    decreases |first|
  {
    if first == [] {
      assert first + second == second;
    } else {
      assert (first + second)[1..] == first[1..] + second;
      SetAllAppend(record.Set(first[0]), first[1..], second);
    }
  }

  lemma GidsOneMore(visited: seq<Entry>, e: Entry)
    ensures Gids(visited + [e]) == Gids(visited) + {e.gid}
  {
    var more := visited + [e];
    assert forall i :: 0 <= i < |visited| ==> more[i] == visited[i];
    assert more[|visited|] == e;
  }

  lemma {:induction false} RecordedGids(visited: seq<Entry>)
    ensures SetAll(EMPTY, visited).entries.Keys == Gids(visited)
  {
    if visited != [] {
      var last := |visited| - 1;
      RecordedGids(visited[..last]);
      GidsOneMore(visited[..last], visited[last]);
      SetAllOneMore(EMPTY, visited[..last], visited[last]);
      assert visited[..last] + [visited[last]] == visited;
    }
  }
}
