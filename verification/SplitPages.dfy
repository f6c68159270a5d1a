/**
  Page numbers through a split: from the original's pages to a generated archive's and back, and the
  bookmarks and stamps that follow them.
 */
module SplitPages {
  import opened Text

  type Id = string

  /** Pages are numbered from 1. */
  type PageMap = map<nat, nat>

  ghost predicate Injective(m: PageMap) {
    forall k, l :: k in m && l in m && m[k] == m[l] ==> k == l
  }

  /** `r` reaches every original page `m` shows and goes back to it. */
  ghost predicate Inverts(r: PageMap, m: PageMap) {
    r.Keys == m.Values && forall o :: o in r ==> r[o] in m && m[r[o]] == o
  }

  /** Page numbers by name: `original_page_by_path`. */
  method NumberPages(pages: seq<string>) returns (numbers: map<string, nat>)
    ensures forall p :: p in numbers <==> p in pages
    ensures forall p :: p in numbers ==> 1 <= numbers[p] <= |pages| && pages[numbers[p] - 1] == p
  {
    numbers := map[];
    for i := 0 to |pages|
      invariant forall p :: p in numbers <==> p in pages[..i]
      invariant forall p :: p in numbers ==> 1 <= numbers[p] <= i && pages[numbers[p] - 1] == p
    {
      assert pages[..i + 1] == pages[..i] + [pages[i]];
      numbers := numbers[pages[i] := i + 1];
    }
    assert pages[..|pages|] == pages;
  }

  /** The original page behind local page `l`, when its entry came from one. */
  function OriginalOf(pages: seq<string>, sources: map<string, string>, numbers: map<string, nat>,
                      l: nat): Option<nat> {
    if 1 <= l <= |pages| && pages[l - 1] in sources && sources[pages[l - 1]] in numbers
    then Some(numbers[sources[pages[l - 1]]]) else None
  }

  /** One generated archive's local-to-original map. */
  method MapPages(pages: seq<string>, sources: map<string, string>, numbers: map<string, nat>) returns (m: PageMap)
    ensures forall l: nat :: l in m <==> OriginalOf(pages, sources, numbers, l).Some?
    ensures forall l :: l in m ==> Some(m[l]) == OriginalOf(pages, sources, numbers, l)
  {
    m := map[];
    for i := 0 to |pages|
      invariant forall l: nat :: l in m <==> l <= i && OriginalOf(pages, sources, numbers, l).Some?
      invariant forall l :: l in m ==> Some(m[l]) == OriginalOf(pages, sources, numbers, l)
    {
      var original := OriginalOf(pages, sources, numbers, i + 1);
      if original.Some? {
        m := m[i + 1 := original.value];
      }
    }
  }

  /**
    The inverse the inheritance builds, in whatever order the map is walked; on an injective map it is the
    exact inverse.
   */
  method Reverse(m: PageMap) returns (r: PageMap)
    ensures Inverts(r, m)
    ensures Injective(m) ==> forall l :: l in m ==> r[m[l]] == l
  {
    r := map[];
    var left := m.Keys;
    while left != {}
      invariant left <= m.Keys
      invariant forall o :: o in r ==> r[o] in m && m[r[o]] == o
      invariant forall l :: l in m && l !in left ==> m[l] in r
      decreases left
    {
      var l :| l in left;
      r := r[m[l] := l];
      left := left - {l};
    }
  }

  // ----- Bookmarks

  datatype Bookmark = Bookmark(page: nat, at: nat, name: Option<string>)

  /** The page of an archive. */
  datatype Spot = Spot(id: Id, page: nat)

  ghost predicate OnePerPage(bookmarks: seq<Bookmark>) {
    forall i, j :: 0 <= i < j < |bookmarks| ==> bookmarks[i].page != bookmarks[j].page
  }

  class BookmarkStore {
    var times: map<Spot, nat>
    var names: map<Spot, string>

    constructor ()
      ensures times == map[] && names == map[]
    {
      times, names := map[], map[];
    }

    method Add(spot: Spot, at: nat)
      modifies this`times
      ensures times == old(times)[spot := at]
    {
      times := times[spot := at];
    }

    /** An empty name clears. */
    method SetName(spot: Spot, name: string)
      modifies this`names
      ensures names == if name == "" then old(names) - {spot} else old(names)[spot := name]
    {
      if name == "" {
        names := names - {spot};
      } else {
        names := names[spot := name];
      }
    }
  }

  /** The bookmark stands at this spot with its own time and, when it has one, its own name. */
  ghost predicate Carries(times: map<Spot, nat>, names: map<Spot, string>, spot: Spot, b: Bookmark) {
    && spot in times && times[spot] == b.at
    && (b.name.Some? && b.name.value != "" ==> spot in names && names[spot] == b.name.value)
    && (b.name == Some("") ==> spot !in names)
  }

  /** Nothing changed but for this archive. */
  ghost predicate SameElsewhere<T(!new)>(before: map<Spot, T>, after: map<Spot, T>, id: Id) {
    forall s: Spot :: s.id != id ==> SameAt(before, after, s)
  }

  /** The bookmark this spot now holds is one whose page the archive shows there. */
  ghost predicate ComesFrom(bookmarks: seq<Bookmark>, id: Id, r: PageMap, s: Spot, i: nat)
    requires i < |bookmarks|
  {
    bookmarks[i].page in r && s == Spot(id, r[bookmarks[i].page])
  }

  /** Every time and name is an old one or a carried one. */
  ghost predicate NothingInvented(before: map<Spot, nat>, beforeNames: map<Spot, string>, times: map<Spot, nat>,
                                  names: map<Spot, string>, bookmarks: seq<Bookmark>, n: nat, id: Id, r: PageMap)
    requires n <= |bookmarks|
  {
    && (forall s :: s in times ==> (s in before && times[s] == before[s])
                                   || exists i: nat :: i < n && ComesFrom(bookmarks, id, r, s, i)
                                                       && times[s] == bookmarks[i].at)
    && (forall s :: s in names ==> (s in beforeNames && names[s] == beforeNames[s])
                                   || exists i: nat :: i < n && ComesFrom(bookmarks, id, r, s, i)
                                                       && bookmarks[i].name == Some(names[s]))
  }

  /** Spots that no bookmark came to are as before. */
  ghost predicate RestStays<T(!new)>(before: map<Spot, T>, after: map<Spot, T>, bookmarks: seq<Bookmark>, n: nat,
                                     id: Id, r: PageMap)
    requires n <= |bookmarks|
  {
    forall s: Spot :: (forall i: nat :: i < n ==> !ComesFrom(bookmarks, id, r, s, i)) ==> SameAt(before, after, s)
  }

  lemma {:induction false} RestOneMore<T(!new)>(first: map<Spot, T>, before: map<Spot, T>, after: map<Spot, T>,
                                          bookmarks: seq<Bookmark>, n: nat, id: Id, r: PageMap)
    requires n < |bookmarks| && RestStays(first, before, bookmarks, n, id, r)
    requires forall s: Spot :: !ComesFrom(bookmarks, id, r, s, n) ==> SameAt(before, after, s)
    ensures RestStays(first, after, bookmarks, n + 1, id, r)
  {
    forall s: Spot | forall i: nat :: i < n + 1 ==> !ComesFrom(bookmarks, id, r, s, i)
      ensures SameAt(first, after, s)
    {
      assert !ComesFrom(bookmarks, id, r, s, n);
      assert SameAt(first, before, s) && SameAt(before, after, s);
    }
  }

  predicate SameAt<T(==)>(before: map<Spot, T>, after: map<Spot, T>, s: Spot) {
    (s in after <==> s in before) && (s in after ==> after[s] == before[s])
  }

  /** Every bookmark so far stands where the archive shows its page. */
  ghost predicate AllCarried(times: map<Spot, nat>, names: map<Spot, string>, bookmarks: seq<Bookmark>, n: nat, id: Id,
                             r: PageMap)
    requires n <= |bookmarks|
  {
    forall i: nat :: i < n && bookmarks[i].page in r ==>
      Carries(times, names, Spot(id, r[bookmarks[i].page]), bookmarks[i])
  }

  function Relabelled(names: map<Spot, string>, spot: Spot, name: Option<string>): map<Spot, string> {
    if name.None? then names else if name.value == "" then names - {spot} else names[spot := name.value]
  }

  /** What one bookmark more does. */
  lemma {:induction false} InheritedOneMore(first: map<Spot, nat>, firstNames: map<Spot, string>, times: map<Spot, nat>,
                                            names: map<Spot, string>, bookmarks: seq<Bookmark>, n: nat, id: Id,
                                            r: PageMap)
    requires n < |bookmarks| && bookmarks[n].page in r
    requires NothingInvented(first, firstNames, times, names, bookmarks, n, id, r)
    requires RestStays(first, times, bookmarks, n, id, r) && RestStays(firstNames, names, bookmarks, n, id, r)
    ensures var b := bookmarks[n]; var spot := Spot(id, r[b.page]);
            var times', names' := times[spot := b.at], Relabelled(names, spot, b.name);
            && NothingInvented(first, firstNames, times', names', bookmarks, n + 1, id, r)
            && RestStays(first, times', bookmarks, n + 1, id, r)
            && RestStays(firstNames, names', bookmarks, n + 1, id, r)
  {
    var b := bookmarks[n];
    var spot := Spot(id, r[b.page]);
    var times', names' := times[spot := b.at], Relabelled(names, spot, b.name);
    assert ComesFrom(bookmarks, id, r, spot, n);
    RestOneMore(first, times, times', bookmarks, n, id, r);
    RestOneMore(firstNames, names, names', bookmarks, n, id, r);
  }

  lemma {:induction false} CarriedOneMore(times: map<Spot, nat>, names: map<Spot, string>, bookmarks: seq<Bookmark>,
                                          n: nat, id: Id, r: PageMap)
    requires n < |bookmarks| && bookmarks[n].page in r && OnePerPage(bookmarks)
    requires forall o, p :: o in r && p in r && r[o] == r[p] ==> o == p
    requires AllCarried(times, names, bookmarks, n, id, r)
    ensures var b := bookmarks[n]; var spot := Spot(id, r[b.page]);
            AllCarried(times[spot := b.at], Relabelled(names, spot, b.name), bookmarks, n + 1, id, r)
  {
    var b := bookmarks[n];
    var spot := Spot(id, r[b.page]);
    forall i: nat | i < n && bookmarks[i].page in r
      ensures Carries(times[spot := b.at], Relabelled(names, spot, b.name), Spot(id, r[bookmarks[i].page]),
                      bookmarks[i])
    {
      assert bookmarks[i].page != b.page;
      assert Carries(times, names, Spot(id, r[bookmarks[i].page]), bookmarks[i]);
    }
  }

  lemma {:induction false} RestIsElsewhere<T(!new)>(before: map<Spot, T>, after: map<Spot, T>, bookmarks: seq<Bookmark>,
                                              id: Id, r: PageMap)
    requires RestStays(before, after, bookmarks, |bookmarks|, id, r)
    ensures SameElsewhere(before, after, id)
  {
    forall s: Spot | s.id != id
      ensures SameAt(before, after, s)
    {
      assert forall i: nat :: i < |bookmarks| ==> !ComesFrom(bookmarks, id, r, s, i);
    }
  }

  method AddNamed(store: BookmarkStore, spot: Spot, b: Bookmark)
    modifies store
    ensures store.times == old(store.times)[spot := b.at]
    ensures store.names == Relabelled(old(store.names), spot, b.name)
  {
    store.Add(spot, b.at);
    if b.name.Some? {
      store.SetName(spot, b.name.value);
    }
  }

  /** One archive's turn: every bookmark whose page the archive has is added at its local page, and nothing else. */
  method InheritInto(store: BookmarkStore, bookmarks: seq<Bookmark>, id: Id, r: PageMap)
    requires forall o, p :: o in r && p in r && r[o] == r[p] ==> o == p
    modifies store
    ensures OnePerPage(bookmarks) ==> AllCarried(store.times, store.names, bookmarks, |bookmarks|, id, r)
    ensures NothingInvented(old(store.times), old(store.names), store.times, store.names, bookmarks, |bookmarks|, id, r)
    ensures SameElsewhere(old(store.times), store.times, id) && SameElsewhere(old(store.names), store.names, id)
    ensures RestStays(old(store.times), store.times, bookmarks, |bookmarks|, id, r)
    ensures RestStays(old(store.names), store.names, bookmarks, |bookmarks|, id, r)
    ensures old(store.times).Keys <= store.times.Keys
  {
    ghost var first, firstNames := store.times, store.names;
    for n := 0 to |bookmarks|
      invariant OnePerPage(bookmarks) ==> AllCarried(store.times, store.names, bookmarks, n, id, r)
      invariant NothingInvented(first, firstNames, store.times, store.names, bookmarks, n, id, r)
      invariant RestStays(first, store.times, bookmarks, n, id, r)
      invariant RestStays(firstNames, store.names, bookmarks, n, id, r)
      invariant first.Keys <= store.times.Keys
    {
      if bookmarks[n].page !in r {
        RestOneMore(first, store.times, store.times, bookmarks, n, id, r);
        RestOneMore(firstNames, store.names, store.names, bookmarks, n, id, r);
        continue;
      }
      InheritedOneMore(first, firstNames, store.times, store.names, bookmarks, n, id, r);
      if OnePerPage(bookmarks) {
        CarriedOneMore(store.times, store.names, bookmarks, n, id, r);
      }
      AddNamed(store, Spot(id, r[bookmarks[n].page]), bookmarks[n]);
    }
    RestIsElsewhere(first, store.times, bookmarks, id, r);
    RestIsElsewhere(firstNames, store.names, bookmarks, id, r);
  }

  /** A generated archive that was ingested: its id and its local-to-original map. */
  datatype Ingested = Ingested(id: Id, pages: PageMap)

  ghost predicate OwnIds(archives: seq<Ingested>) {
    forall i, j :: 0 <= i < j < |archives| ==> archives[i].id != archives[j].id
  }

  /** Bookmark `b` stands in archive `a` at a local page that shows the bookmarked original page. */
  ghost predicate Landed(times: map<Spot, nat>, names: map<Spot, string>, a: Ingested, b: Bookmark) {
    exists l :: l in a.pages && a.pages[l] == b.page && Carries(times, names, Spot(a.id, l), b)
  }

  /** The spot holds a bookmark whose original page is the one its archive shows there. */
  ghost predicate Rightful(archives: seq<Ingested>, n: nat, bookmarks: seq<Bookmark>, s: Spot, at: nat)
    requires n <= |archives|
  {
    exists k: nat, i: nat :: k < n && i < |bookmarks| && Shows(archives[k], s, bookmarks[i].page)
      && bookmarks[i].at == at
  }

  ghost predicate RightfulName(archives: seq<Ingested>, n: nat, bookmarks: seq<Bookmark>, s: Spot, name: string)
    requires n <= |archives|
  {
    exists k: nat, i: nat :: k < n && i < |bookmarks| && Shows(archives[k], s, bookmarks[i].page)
      && bookmarks[i].name == Some(name)
  }

  ghost predicate Shows(a: Ingested, s: Spot, page: nat) {
    a.id == s.id && s.page in a.pages && a.pages[s.page] == page
  }

  /** Some archive shows the page of some bookmark at this spot. */
  ghost predicate IsMarked(archives: seq<Ingested>, n: nat, bookmarks: seq<Bookmark>, s: Spot)
    requires n <= |archives|
  {
    exists k: nat, i: nat :: k < n && i < |bookmarks| && Shows(archives[k], s, bookmarks[i].page)
  }

  /** Every other spot is as before. */
  ghost predicate UnmarkedStay<T(!new)>(before: map<Spot, T>, after: map<Spot, T>, archives: seq<Ingested>, n: nat,
                                        bookmarks: seq<Bookmark>)
    requires n <= |archives|
  {
    forall s: Spot :: !IsMarked(archives, n, bookmarks, s) ==> SameAt(before, after, s)
  }

  lemma {:induction false} UnmarkedOneMore<T(!new)>(first: map<Spot, T>, before: map<Spot, T>, after: map<Spot, T>,
                                              archives: seq<Ingested>, n: nat, bookmarks: seq<Bookmark>, r: PageMap)
    requires n < |archives| && Inverts(r, archives[n].pages) && UnmarkedStay(first, before, archives, n, bookmarks)
    requires RestStays(before, after, bookmarks, |bookmarks|, archives[n].id, r)
    ensures UnmarkedStay(first, after, archives, n + 1, bookmarks)
  {
    forall s: Spot | !IsMarked(archives, n + 1, bookmarks, s)
      ensures SameAt(first, after, s)
    {
      forall i: nat | i < |bookmarks|
        ensures !ComesFrom(bookmarks, archives[n].id, r, s, i)
      {
        assert !Shows(archives[n], s, bookmarks[i].page);
      }
      assert !IsMarked(archives, n, bookmarks, s);
      assert SameAt(first, before, s) && SameAt(before, after, s);
    }
  }

  /**
    The bookmark part of `inherit_metadata_to_split_archives`. With every archive under its own id: each
    bookmark lands in every archive that has its page, with its time and name. In any case no archive holds
    a bookmark at a page that shows another page than the bookmarked one, no bookmark there was is lost, and
    spots no bookmark belongs to are as before.
   */
  method InheritBookmarks(store: BookmarkStore, bookmarks: seq<Bookmark>, archives: seq<Ingested>)
    modifies store
    ensures OnePerPage(bookmarks) && OwnIds(archives) ==>
              forall k: nat, i: nat :: k < |archives| && i < |bookmarks|
                                       && bookmarks[i].page in archives[k].pages.Values ==>
                Landed(store.times, store.names, archives[k], bookmarks[i])
    ensures forall s :: s in store.times ==> (s in old(store.times) && store.times[s] == old(store.times)[s])
                                             || Rightful(archives, |archives|, bookmarks, s, store.times[s])
    ensures forall s :: s in store.names ==> (s in old(store.names) && store.names[s] == old(store.names)[s])
                                             || RightfulName(archives, |archives|, bookmarks, s, store.names[s])
    ensures UnmarkedStay(old(store.times), store.times, archives, |archives|, bookmarks)
    ensures UnmarkedStay(old(store.names), store.names, archives, |archives|, bookmarks)
    ensures old(store.times).Keys <= store.times.Keys
  {
    for n := 0 to |archives|
      invariant OnePerPage(bookmarks) && OwnIds(archives) ==>
                  forall k: nat, i: nat :: k < n && i < |bookmarks| && bookmarks[i].page in archives[k].pages.Values ==>
                    Landed(store.times, store.names, archives[k], bookmarks[i])
      invariant forall s :: s in store.times ==> (s in old(store.times) && store.times[s] == old(store.times)[s])
                                                 || Rightful(archives, n, bookmarks, s, store.times[s])
      invariant forall s :: s in store.names ==> (s in old(store.names) && store.names[s] == old(store.names)[s])
                                                 || RightfulName(archives, n, bookmarks, s, store.names[s])
      invariant UnmarkedStay(old(store.times), store.times, archives, n, bookmarks)
      invariant UnmarkedStay(old(store.names), store.names, archives, n, bookmarks)
      invariant old(store.times).Keys <= store.times.Keys
    {
      var r := Reverse(archives[n].pages);
      ghost var times, names := store.times, store.names;
      InheritInto(store, bookmarks, archives[n].id, r);
      if OnePerPage(bookmarks) && OwnIds(archives) {
        LandedStays(times, names, store.times, store.names, archives, n, bookmarks);
        LandsHere(store.times, store.names, archives[n], r, bookmarks);
      }
      RightfulStays(times, names, store.times, store.names, archives, n, bookmarks, r);
      UnmarkedOneMore(old(store.times), times, store.times, archives, n, bookmarks, r);
      UnmarkedOneMore(old(store.names), names, store.names, archives, n, bookmarks, r);
    }
  }

  lemma {:induction false} LandsHere(times: map<Spot, nat>, names: map<Spot, string>, a: Ingested, r: PageMap,
                                     bookmarks: seq<Bookmark>)
    requires Inverts(r, a.pages)
    requires AllCarried(times, names, bookmarks, |bookmarks|, a.id, r)
    ensures forall i: nat :: i < |bookmarks| && bookmarks[i].page in a.pages.Values ==>
              Landed(times, names, a, bookmarks[i])
  {
  }

  lemma {:induction false} LandedStays(times: map<Spot, nat>, names: map<Spot, string>, times': map<Spot, nat>,
                                       names': map<Spot, string>, archives: seq<Ingested>, n: nat,
                                       bookmarks: seq<Bookmark>)
    requires n < |archives| && OwnIds(archives)
    requires SameElsewhere(times, times', archives[n].id) && SameElsewhere(names, names', archives[n].id)
    ensures forall k: nat, i: nat :: k < n && i < |bookmarks| && Landed(times, names, archives[k], bookmarks[i]) ==>
              Landed(times', names', archives[k], bookmarks[i])
  {
    forall k: nat, i: nat | k < n && i < |bookmarks| && Landed(times, names, archives[k], bookmarks[i])
      ensures Landed(times', names', archives[k], bookmarks[i])
    {
      var a := archives[k];
      var l :| l in a.pages && a.pages[l] == bookmarks[i].page && Carries(times, names, Spot(a.id, l), bookmarks[i]);
      assert Carries(times', names', Spot(a.id, l), bookmarks[i]);
    }
  }

  lemma {:induction false} RightfulStays(times: map<Spot, nat>, names: map<Spot, string>, times': map<Spot, nat>,
                                         names': map<Spot, string>, archives: seq<Ingested>, n: nat,
                                         bookmarks: seq<Bookmark>, r: PageMap)
    requires n < |archives| && Inverts(r, archives[n].pages)
    requires NothingInvented(times, names, times', names', bookmarks, |bookmarks|, archives[n].id, r)
    ensures forall s :: s in times' ==> (s in times && times'[s] == times[s])
                                        || Rightful(archives, n + 1, bookmarks, s, times'[s])
    ensures forall s :: s in names' ==> (s in names && names'[s] == names[s])
                                        || RightfulName(archives, n + 1, bookmarks, s, names'[s])
    ensures forall s: Spot, at: nat :: Rightful(archives, n, bookmarks, s, at) ==>
              Rightful(archives, n + 1, bookmarks, s, at)
    ensures forall s: Spot, name: string ::
              RightfulName(archives, n, bookmarks, s, name) ==> RightfulName(archives, n + 1, bookmarks, s, name)
  {
    forall s: Spot, i: nat | i < |bookmarks| && ComesFrom(bookmarks, archives[n].id, r, s, i)
      ensures Shows(archives[n], s, bookmarks[i].page)
    {
    }
  }

  // ----- Stamps

  /** What a stamp shows and where on the page. */
  datatype Mark = Mark(content: string, position: string, icon: string, rect: string)

  /** A stamp of the original: the page its key names, when the key has the usual form. */
  datatype Stamp = Stamp(page: Option<nat>, mark: Mark)

  /** Stamp keys name a page and a millisecond, and no archive. */
  datatype StampKey = StampKey(page: nat, millis: nat)

  datatype StampRecord = StampRecord(archive: Id, mark: Mark)

  /** The stamps one archive takes over, as local page and mark, in the original's order. */
  function Taken(stamps: seq<Stamp>, r: PageMap): seq<(nat, Mark)> {
    if stamps == [] then []
    else
      var last := stamps[|stamps| - 1];
      Taken(stamps[..|stamps| - 1], r)
      + if last.page.Some? && last.page.value in r then [(r[last.page.value], last.mark)] else []
  }

  /** The key of an archive's stamp number `k`: the count so far is added to the time. */
  function KeyOf(taken: seq<(nat, Mark)>, k: nat, now: nat): StampKey
    requires k < |taken|
  {
    StampKey(taken[k].0, now + taken[k].0 + k)
  }

  function Keys(taken: seq<(nat, Mark)>, now: nat): (keys: seq<StampKey>)
    ensures |keys| == |taken| && forall k :: 0 <= k < |taken| ==> keys[k] == KeyOf(taken, k, now)
  {
    seq(|taken|, k requires 0 <= k < |taken| => KeyOf(taken, k, now))
  }

  function ListOf(lists: map<Id, seq<StampKey>>, id: Id): seq<StampKey> {
    if id in lists then lists[id] else []
  }

  /** The archive's list grew by these keys and no other list changed. */
  ghost predicate Listed(lists: map<Id, seq<StampKey>>, before: map<Id, seq<StampKey>>, id: Id, keys: seq<StampKey>) {
    && ListOf(lists, id) == ListOf(before, id) + keys
    && forall other :: other != id ==> ListOf(lists, other) == ListOf(before, other)
  }

  /** Every stamp taken has its record, and no other record changed. */
  ghost predicate Recorded(records: map<StampKey, StampRecord>, before: map<StampKey, StampRecord>,
                           taken: seq<(nat, Mark)>, id: Id, now: nat) {
    && (forall k :: 0 <= k < |taken| ==> KeyOf(taken, k, now) in records
                                         && records[KeyOf(taken, k, now)] == StampRecord(id, taken[k].1))
    && forall key :: key !in Keys(taken, now) ==>
         (key in records <==> key in before) && (key in records ==> records[key] == before[key])
  }

  class StampStore {
    var records: map<StampKey, StampRecord>
    var lists: map<Id, seq<StampKey>>

    constructor ()
      ensures records == map[] && lists == map[]
    {
      records, lists := map[], map[];
    }

    method Create(id: Id, page: nat, mark: Mark, millis: nat)
      modifies this
      ensures records == old(records)[StampKey(page, millis) := StampRecord(id, mark)]
      ensures lists == old(lists)[id := ListOf(old(lists), id) + [StampKey(page, millis)]]
    {
      records := records[StampKey(page, millis) := StampRecord(id, mark)];
      lists := lists[id := ListOf(lists, id) + [StampKey(page, millis)]];
    }
  }

  /** One stamp more for an archive that took over `taken` so far, from the state `before` and `earlier`. */
  method StampOne(store: StampStore, id: Id, local: nat, mark: Mark, salt: nat, now: nat, ghost taken: seq<(nat, Mark)>,
                  ghost before: map<StampKey, StampRecord>, ghost earlier: map<Id, seq<StampKey>>)
    requires salt == |taken|
    requires Listed(store.lists, earlier, id, Keys(taken, now)) && Recorded(store.records, before, taken, id, now)
    modifies store
    ensures Listed(store.lists, earlier, id, Keys(taken + [(local, mark)], now))
    ensures Recorded(store.records, before, taken + [(local, mark)], id, now)
  {
    KeysOneMore(taken, local, mark, now);
    RecordedOneMore(store.records, before, taken, id, now, local, mark);
    ListedOneMore(store.lists, earlier, id, Keys(taken, now), StampKey(local, now + local + salt));
    store.Create(id, local, mark, now + local + salt);
  }

  /** The stamp part for one archive: each stamp of a page it has, on that page, under keys of its own. */
  method StampInto(store: StampStore, stamps: seq<Stamp>, id: Id, r: PageMap, now: nat)
    modifies store
    ensures Listed(store.lists, old(store.lists), id, Keys(Taken(stamps, r), now))
    ensures Recorded(store.records, old(store.records), Taken(stamps, r), id, now)
  {
    ghost var before, earlier := store.records, store.lists;
    ghost var taken: seq<(nat, Mark)> := [];
    var salt := 0;
    for n := 0 to |stamps|
      invariant taken == Taken(stamps[..n], r) && salt == |taken|
      invariant Listed(store.lists, earlier, id, Keys(taken, now))
      invariant Recorded(store.records, before, taken, id, now)
    {
      TakenOneMore(stamps, n, r);
      if stamps[n].page.None? || stamps[n].page.value !in r {
        continue;
      }
      var local := r[stamps[n].page.value];
      StampOne(store, id, local, stamps[n].mark, salt, now, taken, before, earlier);
      taken := taken + [(local, stamps[n].mark)];
      salt := salt + 1;
    }
    assert stamps[..|stamps|] == stamps;
  }

  lemma {:induction false} TakenOneMore(stamps: seq<Stamp>, n: nat, r: PageMap)
    requires n < |stamps|
    ensures Taken(stamps[..n + 1], r) == Taken(stamps[..n], r)
                                         + if stamps[n].page.Some? && stamps[n].page.value in r
                                           then [(r[stamps[n].page.value], stamps[n].mark)] else []
  {
    assert stamps[..n + 1][..n] == stamps[..n];
  }

  lemma {:induction false} KeysOneMore(taken: seq<(nat, Mark)>, local: nat, mark: Mark, now: nat)
    ensures var key, more := StampKey(local, now + local + |taken|), taken + [(local, mark)];
            && Keys(more, now) == Keys(taken, now) + [key] && KeyOf(more, |taken|, now) == key
            && forall k :: 0 <= k < |taken| ==> KeyOf(more, k, now) == KeyOf(taken, k, now)
  {
    var key, more := StampKey(local, now + local + |taken|), taken + [(local, mark)];
    assert forall k :: 0 <= k < |taken| ==> KeyOf(more, k, now) == KeyOf(taken, k, now);
    assert Keys(more, now) == Keys(taken, now) + [key];
  }

  lemma {:induction false} RecordedOneMore(records: map<StampKey, StampRecord>, before: map<StampKey, StampRecord>,
                                           taken: seq<(nat, Mark)>, id: Id, now: nat, local: nat, mark: Mark)
    requires Recorded(records, before, taken, id, now)
    ensures Recorded(records[StampKey(local, now + local + |taken|) := StampRecord(id, mark)], before,
                     taken + [(local, mark)], id, now)
  {
    var key, more := StampKey(local, now + local + |taken|), taken + [(local, mark)];
    var records' := records[key := StampRecord(id, mark)];
    KeysOneMore(taken, local, mark, now);
    forall k | 0 <= k < |more|
      ensures KeyOf(more, k, now) in records' && records'[KeyOf(more, k, now)] == StampRecord(id, more[k].1)
    {
      if k < |taken| {
        assert KeyOf(more, k, now) == KeyOf(taken, k, now);
        StampKeysCollideExactly(more, k, more, |taken|, now);
      }
    }
    forall other | other !in Keys(more, now)
      ensures (other in records' <==> other in before) && (other in records' ==> records'[other] == before[other])
    {
      assert Keys(more, now)[|taken|] == key;
      assert other !in Keys(taken, now);
    }
  }

  lemma {:induction false} ListedOneMore(lists: map<Id, seq<StampKey>>, before: map<Id, seq<StampKey>>, id: Id,
                                         keys: seq<StampKey>, key: StampKey)
    requires Listed(lists, before, id, keys)
    ensures Listed(lists[id := ListOf(lists, id) + [key]], before, id, keys + [key])
  {
    assert ListOf(before, id) + (keys + [key]) == ListOf(lists, id) + [key];
  }

  /**
    Two stamps created in one job get the same key exactly when they are each archive's `k`-th and stand on
    the same local page. Within one archive that is one stamp; in two archives it is two, and the later
    archive's record replaces the earlier one's, although both archives list the key.
   */
  lemma {:induction false} StampKeysCollideExactly(a: seq<(nat, Mark)>, j: nat, b: seq<(nat, Mark)>, k: nat, now: nat)
    requires j < |a| && k < |b|
    ensures KeyOf(a, j, now) == KeyOf(b, k, now) <==> j == k && a[j].0 == b[k].0
  {
  }

  /** A key names the local page; its time is the job's, moved on by that page and by the stamps before it. */
  lemma {:induction false} KeyNames(taken: seq<(nat, Mark)>, k: nat, now: nat)
    requires k < |taken|
    ensures KeyOf(taken, k, now).page == taken[k].0
    ensures KeyOf(taken, k, now).millis == now + taken[k].0 + k
    ensures forall j :: 0 <= j < |taken| && j != k && taken[j].0 == taken[k].0 ==>
              KeyOf(taken, j, now).millis - KeyOf(taken, k, now).millis == j - k
  {
  }

  /** The last of the first `n` archives to write the key of archive `k`'s stamp number `j`. */
  ghost function LastWriter(taken: seq<seq<(nat, Mark)>>, k: nat, j: nat, n: nat): (m: nat)
    requires k < n <= |taken| && j < |taken[k]|
    ensures k <= m < n && j < |taken[m]| && taken[m][j].0 == taken[k][j].0
    ensures m == k <==> forall l :: k < l < n ==> !(j < |taken[l]| && taken[l][j].0 == taken[k][j].0)
  {
    if n == k + 1 then k
    else if j < |taken[n - 1]| && taken[n - 1][j].0 == taken[k][j].0 then n - 1
    else LastWriter(taken, k, j, n - 1)
  }

  /** Each stamp's key holds the record of the last archive that wrote it. */
  ghost predicate Stamped(records: map<StampKey, StampRecord>, archives: seq<Ingested>, taken: seq<seq<(nat, Mark)>>,
                          now: nat)
    requires |taken| <= |archives|
  {
    forall k: nat, j: nat :: k < |taken| && j < |taken[k]| ==>
      var m := LastWriter(taken, k, j, |taken|);
      && KeyOf(taken[k], j, now) in records
      && records[KeyOf(taken[k], j, now)] == StampRecord(archives[m].id, taken[m][j].1)
  }

  /** `taken` is what an archive with page map `m` takes over. */
  ghost predicate TakenFrom(stamps: seq<Stamp>, m: PageMap, taken: seq<(nat, Mark)>) {
    exists r :: Inverts(r, m) && taken == Taken(stamps, r)
  }

  /** Every key there was has a record still, and every record is an old one or of a stamp some archive took over. */
  ghost predicate NothingStampedElse(before: map<StampKey, StampRecord>, records: map<StampKey, StampRecord>,
                                     archives: seq<Ingested>, taken: seq<seq<(nat, Mark)>>, now: nat)
    requires |taken| <= |archives|
  {
    && before.Keys <= records.Keys
    && forall key :: key in records ==>
         || (key in before && records[key] == before[key])
         || exists k: nat, j: nat :: k < |taken| && j < |taken[k]| && key == KeyOf(taken[k], j, now)
                                     && records[key] == StampRecord(archives[k].id, taken[k][j].1)
  }

  /** Every archive's list grew by the keys of its own stamps, in order, and no other list changed. */
  ghost predicate ListsGrew(before: map<Id, seq<StampKey>>, lists: map<Id, seq<StampKey>>, archives: seq<Ingested>,
                            taken: seq<seq<(nat, Mark)>>, now: nat)
    requires |taken| <= |archives|
  {
    && (forall k :: 0 <= k < |taken| ==>
          ListOf(lists, archives[k].id) == ListOf(before, archives[k].id) + Keys(taken[k], now))
    && OtherListsStay(before, lists, archives, |taken|)
  }

  /** The lists of all other archives are as before. */
  ghost predicate OtherListsStay(before: map<Id, seq<StampKey>>, lists: map<Id, seq<StampKey>>, archives: seq<Ingested>,
                                 n: nat)
    requires n <= |archives|
  {
    forall id :: (forall k :: 0 <= k < n ==> archives[k].id != id) ==> ListOf(lists, id) == ListOf(before, id)
  }

  /** The stamp part of `inherit_metadata_to_split_archives`. */
  method InheritStamps(store: StampStore, stamps: seq<Stamp>, archives: seq<Ingested>, now: nat)
    returns (ghost taken: seq<seq<(nat, Mark)>>)
    modifies store
    ensures |taken| == |archives| && Stamped(store.records, archives, taken, now)
    ensures forall k :: 0 <= k < |archives| ==> TakenFrom(stamps, archives[k].pages, taken[k])
    ensures NothingStampedElse(old(store.records), store.records, archives, taken, now)
    ensures OtherListsStay(old(store.lists), store.lists, archives, |archives|)
    ensures OwnIds(archives) ==> ListsGrew(old(store.lists), store.lists, archives, taken, now)
  {
    taken := [];
    ghost var first, firstLists := store.records, store.lists;
    for n := 0 to |archives|
      invariant |taken| == n && Stamped(store.records, archives, taken, now)
      invariant forall k :: 0 <= k < n ==> TakenFrom(stamps, archives[k].pages, taken[k])
      invariant NothingStampedElse(first, store.records, archives, taken, now)
      invariant OtherListsStay(firstLists, store.lists, archives, n)
      invariant OwnIds(archives) ==> ListsGrew(firstLists, store.lists, archives, taken, now)
    {
      var r := Reverse(archives[n].pages);
      ghost var before, lists := store.records, store.lists;
      StampInto(store, stamps, archives[n].id, r, now);
      StampedOneMore(before, store.records, archives, taken, Taken(stamps, r), now);
      OthersOneMore(firstLists, lists, store.lists, archives, n, Keys(Taken(stamps, r), now));
      NothingElseOneMore(first, before, store.records, archives, taken, Taken(stamps, r), now);
      if OwnIds(archives) {
        ListsOneMore(firstLists, lists, store.lists, archives, taken, Taken(stamps, r), now);
      }
      assert TakenFrom(stamps, archives[n].pages, Taken(stamps, r));
      taken := taken + [Taken(stamps, r)];
    }
  }

  lemma {:induction false} NothingElseOneMore(first: map<StampKey, StampRecord>, before: map<StampKey, StampRecord>,
                                              records: map<StampKey, StampRecord>, archives: seq<Ingested>,
                                              taken: seq<seq<(nat, Mark)>>, last: seq<(nat, Mark)>, now: nat)
    requires |taken| < |archives| && NothingStampedElse(first, before, archives, taken, now)
    requires Recorded(records, before, last, archives[|taken|].id, now)
    ensures NothingStampedElse(first, records, archives, taken + [last], now)
  {
    var n, more := |taken|, taken + [last];
    forall key | key in first
      ensures key in records
    {
      assert key in before;
    }
    forall key | key in records && !(key in first && records[key] == first[key])
      ensures exists k: nat, j: nat :: k < |more| && j < |more[k]| && key == KeyOf(more[k], j, now)
                                       && records[key] == StampRecord(archives[k].id, more[k][j].1)
    {
      if key in Keys(last, now) {
        var j :| 0 <= j < |last| && Keys(last, now)[j] == key;
        assert more[n] == last && key == KeyOf(more[n], j, now);
      } else {
        var k: nat, j: nat :| k < |taken| && j < |taken[k]| && key == KeyOf(taken[k], j, now)
                              && before[key] == StampRecord(archives[k].id, taken[k][j].1);
        assert more[k] == taken[k];
      }
    }
  }

  lemma {:induction false} OthersOneMore(first: map<Id, seq<StampKey>>, before: map<Id, seq<StampKey>>,
                                         lists: map<Id, seq<StampKey>>, archives: seq<Ingested>, n: nat,
                                         keys: seq<StampKey>)
    requires n < |archives| && OtherListsStay(first, before, archives, n)
    requires Listed(lists, before, archives[n].id, keys)
    ensures OtherListsStay(first, lists, archives, n + 1)
  {
    forall id | forall k :: 0 <= k < n + 1 ==> archives[k].id != id
      ensures ListOf(lists, id) == ListOf(first, id)
    {
      assert archives[n].id != id;
    }
  }

  lemma {:induction false} ListsOneMore(first: map<Id, seq<StampKey>>, before: map<Id, seq<StampKey>>,
                                        lists: map<Id, seq<StampKey>>, archives: seq<Ingested>,
                                        taken: seq<seq<(nat, Mark)>>, last: seq<(nat, Mark)>, now: nat)
    requires OwnIds(archives) && |taken| < |archives| && ListsGrew(first, before, archives, taken, now)
    requires Listed(lists, before, archives[|taken|].id, Keys(last, now))
    ensures ListsGrew(first, lists, archives, taken + [last], now)
  {
    var n, more := |taken|, taken + [last];
    assert forall k :: 0 <= k < n ==> archives[k].id != archives[n].id && more[k] == taken[k];
    OthersOneMore(first, before, lists, archives, n, Keys(last, now));
  }

  /** A stamp an archive took over stands on a local page that shows the stamped page, with the stamp's mark. */
  lemma {:induction false} TakenRightly(stamps: seq<Stamp>, m: PageMap, taken: seq<(nat, Mark)>, j: nat)
    returns (i: nat)
    requires TakenFrom(stamps, m, taken) && j < |taken|
    ensures i < |stamps| && stamps[i].page.Some? && stamps[i].mark == taken[j].1
    ensures taken[j].0 in m && m[taken[j].0] == stamps[i].page.value
  {
    var r :| Inverts(r, m) && taken == Taken(stamps, r);
    i := TakenAt(stamps, r, j);
  }

  lemma {:induction false} TakenAt(stamps: seq<Stamp>, r: PageMap, j: nat) returns (i: nat)
    requires j < |Taken(stamps, r)|
    ensures i < |stamps| && stamps[i].page.Some? && stamps[i].page.value in r
    ensures Taken(stamps, r)[j] == (r[stamps[i].page.value], stamps[i].mark)
  {
    var last := |stamps| - 1;
    var earlier := Taken(stamps[..last], r);
    if j < |earlier| {
      i := TakenAt(stamps[..last], r, j);
    } else {
      i := last;
    }
  }

  /** Every stamp of a page the archive has is taken over. */
  lemma {:induction false} TakenAll(stamps: seq<Stamp>, m: PageMap, taken: seq<(nat, Mark)>, i: nat) returns (j: nat)
    requires TakenFrom(stamps, m, taken) && i < |stamps| && stamps[i].page.Some? && stamps[i].page.value in m.Values
    ensures j < |taken| && taken[j].1 == stamps[i].mark && taken[j].0 in m && m[taken[j].0] == stamps[i].page.value
  {
    var r :| Inverts(r, m) && taken == Taken(stamps, r);
    j := TakenIndex(stamps, r, i);
  }

  lemma {:induction false} TakenIndex(stamps: seq<Stamp>, r: PageMap, i: nat) returns (j: nat)
    requires i < |stamps| && stamps[i].page.Some? && stamps[i].page.value in r
    ensures j < |Taken(stamps, r)| && Taken(stamps, r)[j] == (r[stamps[i].page.value], stamps[i].mark)
  {
    var last := |stamps| - 1;
    if i < last {
      j := TakenIndex(stamps[..last], r, i);
    } else {
      j := |Taken(stamps[..last], r)|;
    }
  }

  lemma {:induction false} StampedOneMore(before: map<StampKey, StampRecord>, records: map<StampKey, StampRecord>,
                                          archives: seq<Ingested>, taken: seq<seq<(nat, Mark)>>, last: seq<(nat, Mark)>,
                                          now: nat)
    requires |taken| < |archives| && Stamped(before, archives, taken, now)
    requires Recorded(records, before, last, archives[|taken|].id, now)
    ensures Stamped(records, archives, taken + [last], now)
  {
    var n, more := |taken|, taken + [last];
    forall k: nat, j: nat | k < |more| && j < |more[k]|
      ensures var m := LastWriter(more, k, j, |more|);
              && KeyOf(more[k], j, now) in records
              && records[KeyOf(more[k], j, now)] == StampRecord(archives[m].id, more[m][j].1)
    {
      var key := KeyOf(more[k], j, now);
      if j < |last| && last[j].0 == more[k][j].0 {
        assert LastWriter(more, k, j, |more|) == n;
        StampKeysCollideExactly(last, j, more[k], j, now);
      } else {
        LastWriterBefore(taken, last, k, j);
        if key in Keys(last, now) {
          var l :| 0 <= l < |last| && Keys(last, now)[l] == key;
          StampKeysCollideExactly(last, l, more[k], j, now);
        }
      }
    }
  }

  lemma {:induction false} LastWriterBefore(taken: seq<seq<(nat, Mark)>>, last: seq<(nat, Mark)>, k: nat, j: nat)
    requires k < |taken| && j < |taken[k]| && !(j < |last| && last[j].0 == taken[k][j].0)
    ensures LastWriter(taken + [last], k, j, |taken| + 1) == LastWriter(taken, k, j, |taken|)
  {
    SameWriters(taken, taken + [last], k, j, |taken|);
  }

  lemma {:induction false} SameWriters(taken: seq<seq<(nat, Mark)>>, more: seq<seq<(nat, Mark)>>, k: nat, j: nat,
                                       n: nat)
    requires k < n <= |taken| <= |more| && j < |taken[k]|
    requires forall l :: 0 <= l < |taken| ==> more[l] == taken[l]
    ensures LastWriter(more, k, j, n) == LastWriter(taken, k, j, n)
  {
    if n > k + 1 {
      SameWriters(taken, more, k, j, n - 1);
    }
  }

  /**
    After the job, archive `k`'s stamp number `j` still has its own record exactly when no later archive's
    stamp number `j` stands on the same local page.
   */
  lemma {:induction false} StampSurvivesExactly(records: map<StampKey, StampRecord>, archives: seq<Ingested>,
                                                taken: seq<seq<(nat, Mark)>>, now: nat, k: nat, j: nat)
    requires OwnIds(archives) && |taken| == |archives| && Stamped(records, archives, taken, now)
    requires k < |taken| && j < |taken[k]|
    ensures KeyOf(taken[k], j, now) in records
    ensures records[KeyOf(taken[k], j, now)] == StampRecord(archives[k].id, taken[k][j].1)
       <==> forall l :: k < l < |taken| ==> !(j < |taken[l]| && taken[l][j].0 == taken[k][j].0)
  {
    var m := LastWriter(taken, k, j, |taken|);
    assert m != k ==> archives[m].id != archives[k].id;
  }

  /** Two archives whose first stamp stands on their first page: the first archive's is lost. */
  lemma {:induction false} FirstPageStampsCollide(one: Mark, two: Mark, now: nat)
    ensures var stamps := [Stamp(Some(1), one), Stamp(Some(2), two)];
            var a, b := Taken(stamps, map[1 := 1]), Taken(stamps, map[2 := 1]);
            a == [(1, one)] && b == [(1, two)] && KeyOf(a, 0, now) == KeyOf(b, 0, now) == StampKey(1, now + 1)
  {
    var first, second := Stamp(Some(1), one), Stamp(Some(2), two);
    assert [first, second][..1] == [first] && [first][..0] == [];
    assert Taken([first], map[1 := 1]) == [(1, one)] && Taken([first], map[2 := 1]) == [];
  }
}
