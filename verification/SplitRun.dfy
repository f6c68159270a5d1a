/**
  A whole split: the archives are written, listed and ingested, and the original's bookmarks follow their
  pages into them.
 */
module SplitRun {
  import opened Text
  import opened FileNames
  import opened SplitPlan
  import opened SplitZip
  import opened SplitPages
  import opened SplitJob
  import opened SplitTargets
  import opened SplitContents
  import opened SplitMaps

  function SourcesAt(notes: map<string, map<string, string>>, target: string): map<string, string> {
    if target in notes then notes[target] else map[]
  }

  function Entries(files: map<string, File>, target: string): seq<Written> {
    if target in files && files[target].Zip? then files[target].entries else []
  }

  /** The page map of this file, when it can be listed, is composed from its own pages and notes. */
  ghost predicate ComposedFor(m: Option<PageMap>, target: string, files: map<string, File>,
                              notes: map<string, map<string, string>>, numbers: map<string, nat>, list: Lister) {
    var pages := list(target, Names(Entries(files, target)));
    (m.Some? <==> pages.Some?) && (m.Some? ==> Composes(m.value, pages.value, SourcesAt(notes, target), numbers))
  }

  method ComposeOne(target: string, files: map<string, File>, notes: map<string, map<string, string>>,
                    numbers: map<string, nat>, list: Lister) returns (m: Option<PageMap>)
    ensures ComposedFor(m, target, files, notes, numbers, list)
  {
    var pages := list(target, Names(Entries(files, target)));
    if pages.None? {
      return None;
    }
    var composed := MapPages(pages.value, SourcesAt(notes, target), numbers);
    m := Some(composed);
  }

  /** The page map of each generated file that can be listed. */
  method ComposePages(created: seq<string>, files: map<string, File>, notes: map<string, map<string, string>>,
                      numbers: map<string, nat>, list: Lister) returns (maps: map<string, PageMap>)
    ensures forall t :: t in maps ==> t in created
    ensures forall t :: t in created ==> ComposedFor(if t in maps then Some(maps[t])
                                                     else None, t, files, notes, numbers, list)
  {
    maps := map[];
    for k := 0 to |created|
      invariant forall t :: t in maps ==> t in created[..k]
      invariant forall t :: t in created[..k] ==>
                  ComposedFor(if t in maps then Some(maps[t]) else None, t, files, notes, numbers, list)
    {
      assert created[..k + 1] == created[..k] + [created[k]];
      var m := ComposeOne(created[k], files, notes, numbers, list);
      if m.Some? {
        maps := maps[created[k] := m.value];
      }
    }
    assert created[..|created|] == created;
  }

  /** Every generated file was ingested under an id of its own. */
  ghost predicate OwnIdsFor(created: seq<string>, ids: map<string, Id>) {
    && (forall k :: 0 <= k < |created| ==> created[k] in ids)
    && forall i, j :: 0 <= i < j < |created| ==> ids[created[i]] != ids[created[j]]
  }

  /** `a` is what became of this generated file. */
  ghost predicate Becomes(target: string, maps: map<string, PageMap>, ids: map<string, Id>, a: Ingested) {
    target in ids && target in maps && a == Ingested(ids[target], maps[target])
  }

  /** The ingested files that have a page map, of the first `n`. */
  ghost predicate Collected(archives: seq<Ingested>, created: seq<string>, n: nat, maps: map<string, PageMap>,
                            ids: map<string, Id>)
    requires n <= |created|
  {
    && (forall a :: a in archives ==> exists k :: 0 <= k < n && Becomes(created[k], maps, ids, a))
    && (forall k, a :: 0 <= k < n && Becomes(created[k], maps, ids, a) ==> a in archives)
  }

  /** What the inheritance is given: the ingested files that have a page map. */
  method Collect(created: seq<string>, maps: map<string, PageMap>, ids: map<string, Id>)
    returns (archives: seq<Ingested>)
    ensures Collected(archives, created, |created|, maps, ids)
    ensures OwnIdsFor(created, ids) ==> OwnIds(archives)
  {
    archives := [];
    for n := 0 to |created|
      invariant Collected(archives, created, n, maps, ids)
      invariant OwnIdsFor(created, ids) ==> OwnIds(archives)
    {
      if created[n] in ids && created[n] in maps {
        assert OwnIdsFor(created, ids) ==> forall a :: a in archives ==> a.id != ids[created[n]];
        ghost var earlier := archives;
        archives := archives + [Ingested(ids[created[n]], maps[created[n]])];
        assert Becomes(created[n], maps, ids, archives[|earlier|]);
      }
    }
  }

  /** In this archive the bookmark stands, with its time and name, on a page written from that file. */
  ghost predicate Follows(times: map<Spot, nat>, names: map<Spot, string>, id: Id, pages: seq<string>,
                          zip: seq<Written>, b: Bookmark, original: string) {
    exists l: nat :: PageShows(pages, zip, l, original) && Carries(times, names, Spot(id, l), b)
  }

  /** The spot is in a generated archive still on disk, and shows there the file that is this page of the original. */
  ghost predicate StandsRightly(created: seq<string>, zips: seq<seq<Written>>, list: Lister, ids: map<string, Id>,
                                originals: seq<string>, s: Spot, page: nat)
    requires |created| == |zips|
  {
    exists k: nat :: k < |created| && Stays(created, k) && Belongs(created[k], zips[k], list, ids, originals, s, page)
  }

  ghost predicate Belongs(target: string, zip: seq<Written>, list: Lister, ids: map<string, Id>, originals: seq<string>,
                          s: Spot, page: nat) {
    && target in ids && ids[target] == s.id && 1 <= page <= |originals|
    && list(target, Names(zip)).Some? && PageShows(list(target, Names(zip)).value, zip, s.page, originals[page - 1])
  }

  /** What the proofs below know of the archives after they are written, mapped and collected. */
  ghost predicate Mapped(created: seq<string>, zips: seq<seq<Written>>, files: map<string, File>,
                         notes: map<string, map<string, string>>, list: Lister, numbers: map<string, nat>,
                         originals: seq<string>, maps: map<string, PageMap>) {
    && Made(zips, created, files, notes) && IsLister(list) && Numbers(numbers, originals) && Distinct(originals)
    && (forall zip :: zip in zips ==> Distinct(Names(zip)))
    && (forall t :: t in maps ==> t in created)
    && (forall t :: t in created ==> ComposedFor(if t in maps then Some(maps[t])
                                                 else None, t, files, notes, numbers, list))
  }

  lemma {:induction false} LastFor(created: seq<string>, k: nat) returns (m: nat)
    requires k < |created|
    ensures k <= m < |created| && created[m] == created[k] && Stays(created, m)
    decreases |created| - k
  {
    if l :| k < l < |created| && created[l] == created[k] {
      m := LastFor(created, l);
    } else {
      m := k;
    }
  }

  /** The facts about one archive that nobody overwrote. */
  lemma {:induction false} MappedAt(created: seq<string>, zips: seq<seq<Written>>, files: map<string, File>,
                                    notes: map<string, map<string, string>>, list: Lister, numbers: map<string, nat>,
                                    originals: seq<string>, maps: map<string, PageMap>, k: nat)
    requires Mapped(created, zips, files, notes, list, numbers, originals, maps) && k < |created| && Stays(created, k)
    ensures var t, zip, sources := created[k], zips[k], SourcesAt(notes, created[k]);
            && Entries(files, t) == zip && Distinct(Names(zip)) && Sources(sources, zip)
            && (t in maps <==> list(t, Names(zip)).Some?)
            && (t in maps ==> Lists(list(t, Names(zip)).value, Names(zip))
                              && Composes(maps[t], list(t, Names(zip)).value, sources, numbers))
  {
    assert Kept(zips[k], created, k, files, notes);
    assert zips[k] in zips;
  }

  lemma {:induction false} FollowsAt(m: PageMap, pages: seq<string>, zip: seq<Written>, sources: map<string, string>,
                                     numbers: map<string, nat>, originals: seq<string>, times: map<Spot, nat>,
                                     names: map<Spot, string>, id: Id, b: Bookmark, l: nat)
    requires Composes(m, pages, sources, numbers) && Numbers(numbers, originals) && Distinct(originals)
    requires Lists(pages, Names(zip)) && Distinct(Names(zip)) && Sources(sources, zip) && 1 <= b.page <= |originals|
    requires l in m && m[l] == b.page && Carries(times, names, Spot(id, l), b)
    ensures Follows(times, names, id, pages, zip, b, originals[b.page - 1])
  {
    MapIsExact(m, pages, zip, sources, numbers, originals, l, b.page);
  }

  lemma {:induction false} FollowsThere(created: seq<string>, zips: seq<seq<Written>>, files: map<string, File>,
                                        notes: map<string, map<string, string>>, list: Lister,
                                        numbers: map<string, nat>, originals: seq<string>, maps: map<string, PageMap>,
                                        k: nat, times: map<Spot, nat>, names: map<Spot, string>, id: Id, b: Bookmark)
    requires Mapped(created, zips, files, notes, list, numbers, originals, maps)
    requires k < |created| && Stays(created, k) && created[k] in maps && 1 <= b.page <= |originals|
    requires b.page in maps[created[k]].Values ==> Landed(times, names, Ingested(id, maps[created[k]]), b)
    ensures list(created[k], Names(zips[k])).Some?
    ensures ShowsFile(zips[k], originals[b.page - 1]) ==>
              Follows(times, names, id, list(created[k], Names(zips[k])).value, zips[k], b, originals[b.page - 1])
  {
    MappedAt(created, zips, files, notes, list, numbers, originals, maps, k);
    var m, pages, sources := maps[created[k]], list(created[k], Names(zips[k])).value, SourcesAt(notes, created[k]);
    MapReaches(m, pages, zips[k], sources, numbers, originals, b.page);
    if ShowsFile(zips[k], originals[b.page - 1]) {
      var l :| l in m && m[l] == b.page && Carries(times, names, Spot(id, l), b);
      FollowsAt(m, pages, zips[k], sources, numbers, originals, times, names, id, b, l);
    }
  }

  lemma {:induction false} BelongsThere(created: seq<string>, zips: seq<seq<Written>>, files: map<string, File>,
                                        notes: map<string, map<string, string>>, list: Lister,
                                        numbers: map<string, nat>, originals: seq<string>, maps: map<string, PageMap>,
                                        ids: map<string, Id>, k: nat, s: Spot, page: nat)
    returns (m: nat)
    requires Mapped(created, zips, files, notes, list, numbers, originals, maps)
    requires k < |created| && created[k] in ids && created[k] in maps
    requires Shows(Ingested(ids[created[k]], maps[created[k]]), s, page)
    ensures m < |created| && Stays(created, m) && Belongs(created[m], zips[m], list, ids, originals, s, page)
  {
    m := LastFor(created, k);
    MappedAt(created, zips, files, notes, list, numbers, originals, maps, m);
    var pageMap, zip := maps[created[m]], zips[m];
    var p := MappedFrom(pageMap, list(created[m], Names(zip)).value, zip, SourcesAt(notes, created[m]), numbers,
                        originals, s.page);
  }

  /** Every generated file can be listed. */
  ghost predicate AllListed(created: seq<string>, zips: seq<seq<Written>>, list: Lister)
    requires |created| == |zips|
  {
    forall k :: 0 <= k < |created| ==> list(created[k], Names(zips[k])).Some?
  }

  /**
    Which bookmarked pages some generated archive shows: exactly the readable ones that a group takes with
    a real extension or as the first of its name. A covered page with a real extension whose bytes were read
    is among them.
   */
  lemma {:induction false} PagesShownExactly(source: Source, groups: seq<Group>, crc: Checksum, zips: seq<seq<Written>>,
                                             p: string)
    requires IsChecksum(crc) && AreZips(source, groups, crc, zips) && p in source.files && IsImageName(p)
    ensures (exists k :: 0 <= k < |zips| && ShowsFile(zips[k], p))
       <==> p in source.readable
            && exists k :: 0 <= k < |zips| && Selected(p, groups[k])
                           && (Extension(p).Some? || FirstOfItsName(zips[k], p))
    ensures p in source.readable && Extension(p).Some? && Covered(p, groups) ==>
              exists k :: 0 <= k < |zips| && ShowsFile(zips[k], p)
  {
    forall k | 0 <= k < |zips|
      ensures ShowsFile(zips[k], p)
         <==> Selected(p, groups[k]) && p in source.readable && (Extension(p).Some? || FirstOfItsName(zips[k], p))
    {
      ShownExactly(source, groups[k], crc, p);
    }
    if Covered(p, groups) && p in source.readable && Extension(p).Some? {
      var g :| g in groups && CoveredBy(p, g);
      var k :| 0 <= k < |groups| && groups[k] == g;
      assert Selected(p, groups[k]) && ShowsFile(zips[k], p);
    }
  }

  /** Every bookmark whose page an archive shows follows into that archive. */
  ghost predicate AllFollow(times: map<Spot, nat>, names: map<Spot, string>, created: seq<string>,
                            zips: seq<seq<Written>>, list: Lister, ids: map<string, Id>, originals: seq<string>,
                            bookmarks: seq<Bookmark>)
    requires |created| == |zips|
  {
    forall i: nat, k: nat :: i < |bookmarks| && 1 <= bookmarks[i].page <= |originals| && k < |zips|
                             && ShowsFile(zips[k], originals[bookmarks[i].page - 1]) ==>
      && created[k] in ids && list(created[k], Names(zips[k])).Some?
      && Follows(times, names, ids[created[k]], list(created[k], Names(zips[k])).value, zips[k], bookmarks[i],
                 originals[bookmarks[i].page - 1])
  }

  ghost predicate RightTime(created: seq<string>, zips: seq<seq<Written>>, list: Lister, ids: map<string, Id>,
                            originals: seq<string>, bookmarks: seq<Bookmark>, s: Spot, at: nat)
    requires |created| == |zips|
  {
    exists i: nat :: i < |bookmarks| && bookmarks[i].at == at
      && StandsRightly(created, zips, list, ids, originals, s, bookmarks[i].page)
  }

  ghost predicate RightName(created: seq<string>, zips: seq<seq<Written>>, list: Lister, ids: map<string, Id>,
                            originals: seq<string>, bookmarks: seq<Bookmark>, s: Spot, name: string)
    requires |created| == |zips|
  {
    exists i: nat :: i < |bookmarks| && bookmarks[i].name == Some(name)
                     && StandsRightly(created, zips, list, ids, originals, s, bookmarks[i].page)
  }

  /** Every time and every name in the store is an old one or stands rightly. */
  ghost predicate NoneMisplaced(before: map<Spot, nat>, beforeNames: map<Spot, string>, times: map<Spot, nat>,
                                names: map<Spot, string>, created: seq<string>, zips: seq<seq<Written>>, list: Lister,
                                ids: map<string, Id>, originals: seq<string>, bookmarks: seq<Bookmark>)
    requires |created| == |zips|
  {
    && (forall s :: s in times ==> (s in before && times[s] == before[s])
                                   || RightTime(created, zips, list, ids, originals, bookmarks, s, times[s]))
    && (forall s :: s in names ==> (s in beforeNames && names[s] == beforeNames[s])
                                   || RightName(created, zips, list, ids, originals, bookmarks, s, names[s]))
  }

  /** No bookmark's page belongs at this spot. */
  ghost predicate BelongsToNone(created: seq<string>, zips: seq<seq<Written>>, list: Lister, ids: map<string, Id>,
                                originals: seq<string>, bookmarks: seq<Bookmark>, s: Spot)
    requires |created| == |zips|
  {
    forall i: nat :: i < |bookmarks| ==> !StandsRightly(created, zips, list, ids, originals, s, bookmarks[i].page)
  }

  /** Bookmarks and names at all other spots are as before, and no bookmark is lost. */
  ghost predicate OthersKept(before: map<Spot, nat>, beforeNames: map<Spot, string>, times: map<Spot, nat>,
                             names: map<Spot, string>, created: seq<string>, zips: seq<seq<Written>>, list: Lister,
                             ids: map<string, Id>, originals: seq<string>, bookmarks: seq<Bookmark>)
    requires |created| == |zips|
  {
    && before.Keys <= times.Keys
    && forall s :: BelongsToNone(created, zips, list, ids, originals, bookmarks, s) ==>
         SameAt(before, times, s) && SameAt(beforeNames, names, s)
  }

  lemma {:induction false} EveryBookmarkFollows(created: seq<string>, zips: seq<seq<Written>>, files: map<string, File>,
                                                notes: map<string, map<string, string>>, list: Lister,
                                                numbers: map<string, nat>, originals: seq<string>,
                                                maps: map<string, PageMap>, ids: map<string, Id>,
                                                archives: seq<Ingested>, times: map<Spot, nat>,
                                                names: map<Spot, string>, bookmarks: seq<Bookmark>)
    requires Mapped(created, zips, files, notes, list, numbers, originals, maps)
    requires Collected(archives, created, |created|, maps, ids)
    requires OwnIdsFor(created, ids) && AllListed(created, zips, list)
    requires forall k: nat, i: nat :: k < |archives| && i < |bookmarks|
                                      && bookmarks[i].page in archives[k].pages.Values ==>
               Landed(times, names, archives[k], bookmarks[i])
    ensures AllFollow(times, names, created, zips, list, ids, originals, bookmarks)
  {
    forall i: nat, k: nat | i < |bookmarks| && 1 <= bookmarks[i].page <= |originals| && k < |zips|
                            && ShowsFile(zips[k], originals[bookmarks[i].page - 1])
      ensures Follows(times, names, ids[created[k]], list(created[k], Names(zips[k])).value, zips[k], bookmarks[i],
                      originals[bookmarks[i].page - 1])
    {
      assert Stays(created, k);
      MappedAt(created, zips, files, notes, list, numbers, originals, maps, k);
      var a := Ingested(ids[created[k]], maps[created[k]]);
      assert Becomes(created[k], maps, ids, a);
      assert a in archives;
      var n :| 0 <= n < |archives| && archives[n] == a;
      FollowsThere(created, zips, files, notes, list, numbers, originals, maps, k, times, names, ids[created[k]],
                   bookmarks[i]);
    }
  }

  lemma {:induction false} ShownRightly(created: seq<string>, zips: seq<seq<Written>>, files: map<string, File>,
                                        notes: map<string, map<string, string>>, list: Lister,
                                        numbers: map<string, nat>, originals: seq<string>, maps: map<string, PageMap>,
                                        ids: map<string, Id>, archives: seq<Ingested>, n: nat, s: Spot, page: nat)
    requires Mapped(created, zips, files, notes, list, numbers, originals, maps)
    requires Collected(archives, created, |created|, maps, ids)
    requires n < |archives| && Shows(archives[n], s, page)
    ensures StandsRightly(created, zips, list, ids, originals, s, page)
  {
    assert archives[n] in archives;
    var k :| 0 <= k < |created| && Becomes(created[k], maps, ids, archives[n]);
    var m := BelongsThere(created, zips, files, notes, list, numbers, originals, maps, ids, k, s, page);
  }

  lemma {:induction false} NoBookmarkMisplaced(created: seq<string>, zips: seq<seq<Written>>, files: map<string, File>,
                                               notes: map<string, map<string, string>>, list: Lister,
                                               numbers: map<string, nat>, originals: seq<string>,
                                               maps: map<string, PageMap>, ids: map<string, Id>,
                                               archives: seq<Ingested>, bookmarks: seq<Bookmark>)
    requires Mapped(created, zips, files, notes, list, numbers, originals, maps)
    requires Collected(archives, created, |created|, maps, ids)
    ensures forall s: Spot, at: nat :: Rightful(archives, |archives|, bookmarks, s, at) ==>
              RightTime(created, zips, list, ids, originals, bookmarks, s, at)
    ensures forall s: Spot, name: string :: RightfulName(archives, |archives|, bookmarks, s, name) ==>
              RightName(created, zips, list, ids, originals, bookmarks, s, name)
  {
    forall s: Spot, n: nat, i: nat | n < |archives| && i < |bookmarks| && Shows(archives[n], s, bookmarks[i].page)
      ensures StandsRightly(created, zips, list, ids, originals, s, bookmarks[i].page)
    {
      ShownRightly(created, zips, files, notes, list, numbers, originals, maps, ids, archives, n, s, bookmarks[i].page);
    }
  }

  lemma {:induction false} OthersAreKept(created: seq<string>, zips: seq<seq<Written>>, files: map<string, File>,
                                         notes: map<string, map<string, string>>, list: Lister,
                                         numbers: map<string, nat>, originals: seq<string>, maps: map<string, PageMap>,
                                         ids: map<string, Id>, archives: seq<Ingested>, bookmarks: seq<Bookmark>,
                                         before: map<Spot, nat>, beforeNames: map<Spot, string>, times: map<Spot, nat>,
                                         names: map<Spot, string>)
    requires Mapped(created, zips, files, notes, list, numbers, originals, maps)
    requires Collected(archives, created, |created|, maps, ids)
    requires UnmarkedStay(before, times, archives, |archives|, bookmarks) && before.Keys <= times.Keys
    requires UnmarkedStay(beforeNames, names, archives, |archives|, bookmarks)
    ensures OthersKept(before, beforeNames, times, names, created, zips, list, ids, originals, bookmarks)
  {
    forall s | BelongsToNone(created, zips, list, ids, originals, bookmarks, s)
      ensures !IsMarked(archives, |archives|, bookmarks, s)
    {
      forall n: nat, i: nat | n < |archives| && i < |bookmarks|
        ensures !Shows(archives[n], s, bookmarks[i].page)
      {
        if Shows(archives[n], s, bookmarks[i].page) {
          ShownRightly(created, zips, files, notes, list, numbers, originals, maps, ids, archives, n, s,
                       bookmarks[i].page);
        }
      }
    }
  }

  // ----- Arrival

  /** The bookmark stands in some generated archive on a page written from the bookmarked file. */
  ghost predicate Arrives(times: map<Spot, nat>, names: map<Spot, string>, created: seq<string>,
                          zips: seq<seq<Written>>, list: Lister, ids: map<string, Id>, b: Bookmark, original: string)
    requires |created| == |zips|
  {
    exists k: nat :: k < |created| && created[k] in ids && list(created[k], Names(zips[k])).Some?
                     && Follows(times, names, ids[created[k]], list(created[k], Names(zips[k])).value, zips[k], b,
                                original)
  }

  /** Some group takes this page with a real extension, or before every other entry of its name. */
  ghost predicate TakenAsPage(groups: seq<Group>, zips: seq<seq<Written>>, p: string) {
    exists k :: 0 <= k < |zips| && k < |groups| && Selected(p, groups[k])
                && (Extension(p).Some? || FirstOfItsName(zips[k], p))
  }

  /**
    Every bookmark arrives exactly when its page was read and some group takes it as a page; in particular
    every bookmark on a covered, readable page with a real extension does.
   */
  ghost predicate EveryBookmarkArrives(times: map<Spot, nat>, names: map<Spot, string>, source: Source,
                                       groups: seq<Group>, created: seq<string>, zips: seq<seq<Written>>, list: Lister,
                                       ids: map<string, Id>, originals: seq<string>, bookmarks: seq<Bookmark>)
    requires |created| == |zips|
  {
    forall i: nat :: i < |bookmarks| && 1 <= bookmarks[i].page <= |originals| ==>
      var p := originals[bookmarks[i].page - 1];
      && (p in source.readable && TakenAsPage(groups, zips, p) ==>
            Arrives(times, names, created, zips, list, ids, bookmarks[i], p))
      && (p in source.readable && Covered(p, groups) && Extension(p).Some? ==>
            Arrives(times, names, created, zips, list, ids, bookmarks[i], p))
  }

  /** The other half: a bookmark that arrives was read and taken as a page. */
  lemma {:induction false} ArrivalNeedsPage(times: map<Spot, nat>, names: map<Spot, string>, source: Source,
                                            groups: seq<Group>, crc: Checksum, created: seq<string>,
                                            zips: seq<seq<Written>>, list: Lister, ids: map<string, Id>, b: Bookmark,
                                            p: string)
    requires IsChecksum(crc) && IsLister(list) && AreZips(source, groups, crc, zips) && |created| == |zips|
    requires p in source.files && IsImageName(p) && Arrives(times, names, created, zips, list, ids, b, p)
    ensures p in source.readable && TakenAsPage(groups, zips, p)
  {
    var k: nat :| k < |created| && created[k] in ids && list(created[k], Names(zips[k])).Some?
                  && Follows(times, names, ids[created[k]], list(created[k], Names(zips[k])).value, zips[k], b, p);
    var pages := list(created[k], Names(zips[k])).value;
    var l: nat :| PageShows(pages, zips[k], l, p) && Carries(times, names, Spot(ids[created[k]], l), b);
    assert pages[l - 1] in pages;
    var e :| 0 <= e < |zips[k]| && zips[k][e] == Written(pages[l - 1], p);
    assert ShowsFile(zips[k], p);
    PagesShownExactly(source, groups, crc, zips, p);
  }

  lemma {:induction false} BookmarksArrive(times: map<Spot, nat>, names: map<Spot, string>, source: Source,
                                           groups: seq<Group>, crc: Checksum, created: seq<string>,
                                           zips: seq<seq<Written>>, list: Lister, ids: map<string, Id>,
                                           originals: seq<string>, bookmarks: seq<Bookmark>)
    requires IsChecksum(crc) && AreZips(source, groups, crc, zips) && |created| == |zips|
    requires Lists(originals, source.files)
    requires AllFollow(times, names, created, zips, list, ids, originals, bookmarks)
    ensures EveryBookmarkArrives(times, names, source, groups, created, zips, list, ids, originals, bookmarks)
  {
    forall i: nat | i < |bookmarks| && 1 <= bookmarks[i].page <= |originals|
      ensures (exists k :: 0 <= k < |zips| && ShowsFile(zips[k], originals[bookmarks[i].page - 1])) ==>
                Arrives(times, names, created, zips, list, ids, bookmarks[i], originals[bookmarks[i].page - 1])
    {
    }
    forall i: nat | i < |bookmarks| && 1 <= bookmarks[i].page <= |originals|
      ensures var p := originals[bookmarks[i].page - 1];
              p in source.readable && (TakenAsPage(groups, zips, p) || (Covered(p, groups) && Extension(p).Some?)) ==>
                exists k :: 0 <= k < |zips| && ShowsFile(zips[k], p)
    {
      assert originals[bookmarks[i].page - 1] in originals;
      PagesShownExactly(source, groups, crc, zips, originals[bookmarks[i].page - 1]);
    }
  }

  // ----- The page maps of the job

  /** Every page map the inheritance is given is a partial injection: it inverts exactly, in whatever order. */
  lemma {:induction false} EveryMapIsInjective(source: Source, groups: seq<Group>, crc: Checksum, created: seq<string>,
                                               zips: seq<seq<Written>>, files: map<string, File>,
                                               notes: map<string, map<string, string>>, list: Lister,
                                               numbers: map<string, nat>, originals: seq<string>,
                                               maps: map<string, PageMap>, t: string)
    requires Mapped(created, zips, files, notes, list, numbers, originals, maps) && AreZips(source, groups, crc, zips)
    requires Distinct(source.files) && Lists(originals, source.files) && t in maps
    ensures Injective(maps[t])
  {
    var i :| 0 <= i < |created| && created[i] == t;
    var k := LastFor(created, i);
    MappedAt(created, zips, files, notes, list, numbers, originals, maps, k);
    GroupHoldsOnce(source, groups[k], crc, zips[k], originals);
    MapIsInjective(maps[t], list(t, Names(zips[k])).value, zips[k], SourcesAt(notes, t), numbers, originals);
  }

  ghost predicate AllInjective(archives: seq<Ingested>) {
    forall a :: a in archives ==> Injective(a.pages)
  }

  // ----- Stamps

  /** Every key keeps a record, and each is an old one or a stamp's mark on a page written from the stamped file. */
  ghost predicate NoStampMisplaced(before: map<StampKey, StampRecord>, records: map<StampKey, StampRecord>,
                                   created: seq<string>, zips: seq<seq<Written>>, list: Lister, ids: map<string, Id>,
                                   originals: seq<string>, stamps: seq<Stamp>)
    requires |created| == |zips|
  {
    && before.Keys <= records.Keys
    && forall key :: key in records ==>
         (key in before && records[key] == before[key])
         || StampRight(created, zips, list, ids, originals, stamps, Spot(records[key].archive, key.page),
                       records[key].mark)
  }

  ghost predicate StampRight(created: seq<string>, zips: seq<seq<Written>>, list: Lister, ids: map<string, Id>,
                             originals: seq<string>, stamps: seq<Stamp>, s: Spot, mark: Mark)
    requires |created| == |zips|
  {
    exists i: nat :: i < |stamps| && stamps[i].page.Some? && stamps[i].mark == mark
                     && StandsRightly(created, zips, list, ids, originals, s, stamps[i].page.value)
  }

  lemma {:induction false} StampsStandRightly(created: seq<string>, zips: seq<seq<Written>>, files: map<string, File>,
                                              notes: map<string, map<string, string>>, list: Lister,
                                              numbers: map<string, nat>, originals: seq<string>,
                                              maps: map<string, PageMap>, ids: map<string, Id>, archives: seq<Ingested>,
                                              stamps: seq<Stamp>, taken: seq<seq<(nat, Mark)>>, now: nat,
                                              before: map<StampKey, StampRecord>, records: map<StampKey, StampRecord>)
    requires Mapped(created, zips, files, notes, list, numbers, originals, maps)
    requires Collected(archives, created, |created|, maps, ids)
    requires |taken| == |archives| && NothingStampedElse(before, records, archives, taken, now)
    requires forall k :: 0 <= k < |archives| ==> TakenFrom(stamps, archives[k].pages, taken[k])
    ensures NoStampMisplaced(before, records, created, zips, list, ids, originals, stamps)
  {
    forall key | key in records && !(key in before && records[key] == before[key])
      ensures StampRight(created, zips, list, ids, originals, stamps, Spot(records[key].archive, key.page),
                         records[key].mark)
    {
      var k: nat, j: nat :| k < |taken| && j < |taken[k]| && key == KeyOf(taken[k], j, now)
                            && records[key] == StampRecord(archives[k].id, taken[k][j].1);
      var i := TakenRightly(stamps, archives[k].pages, taken[k], j);
      ShownRightly(created, zips, files, notes, list, numbers, originals, maps, ids, archives, k,
                   Spot(archives[k].id, taken[k][j].0), stamps[i].page.value);
    }
  }

  // ----- The job

  /** The files are written, listed and composed; `archives` is what the inheritance is given. */
  method MakeArchives(source: Source, originals: seq<string>, groups: seq<Group>, folder: Folder, crc: Checksum,
                      list: Lister, ids: map<string, Id>)
    returns (done: bool, created: seq<string>, archives: seq<Ingested>, ghost zips: seq<seq<Written>>,
             ghost notes: map<string, map<string, string>>, ghost numbers: map<string, nat>,
             ghost maps: map<string, PageMap>)
    requires IsLister(list) && Lists(originals, source.files)
    modifies folder
    ensures done <==> forall g :: g in groups ==> GroupZip(source, g, crc).Some?
    ensures done ==> created == Targets(old(folder.files).Keys, ZipNames(groups), crc)
                     && AreZips(source, groups, crc, zips) && Made(zips, created, folder.files, notes)
                     && folder.files.Keys == old(folder.files).Keys + Elements(created)
    ensures Untouched(old(folder.files), folder.files, Targets(old(folder.files).Keys, ZipNames(groups), crc))
    ensures done && Distinct(source.files) ==>
              Mapped(created, zips, folder.files, notes, list, numbers, originals, maps)
    ensures done ==> Collected(archives, created, |created|, maps, ids)
    ensures done && OwnIdsFor(created, ids) ==> OwnIds(archives)
    ensures done && Distinct(source.files) ==> AllInjective(archives)
  {
    var written: map<string, map<string, string>>;
    done, created, written, zips := WriteGroups(source, groups, folder, crc);
    if !done {
      archives, notes, numbers, maps := [], map[], map[], map[];
      return;
    }
    var pageNumbers := NumberPages(originals);
    var composed := ComposePages(created, folder.files, written, pageNumbers, list);
    archives := Collect(created, composed, ids);
    notes, numbers, maps := written, pageNumbers, composed;
    if Distinct(source.files) {
      assert forall zip :: zip in zips ==> Distinct(Names(zip));
      assert Mapped(created, zips, folder.files, notes, list, numbers, originals, maps);
      forall a | a in archives
        ensures Injective(a.pages)
      {
        var k :| 0 <= k < |created| && Becomes(created[k], maps, ids, a);
        EveryMapIsInjective(source, groups, crc, created, zips, folder.files, notes, list, numbers, originals, maps,
                            created[k]);
      }
    }
  }

  /**
    `run_split_job` as far as bookmarks and stamps go. It succeeds exactly when every group's archive can be
    written. Then the folder holds the groups' archives and its other files as before; each archive is its group's
    files entry by entry, nested archives unpacked, and every covered file is in some; no bookmark and no stamp
    stands on a page written from another file than its own; bookmarks at other spots are as before, and none
    and no stamp key is lost; and every archive's page map inverts exactly. When every generated file can be
    listed and is ingested under an id of its own, every bookmark follows into every archive that shows its
    page, and arrives in at least one when its page is covered, was read and has a real extension.
   */
  method RunSplit(source: Source, originals: seq<string>, groups: seq<Group>, folder: Folder, crc: Checksum,
                  list: Lister, ids: map<string, Id>, store: BookmarkStore, bookmarks: seq<Bookmark>,
                  stampStore: StampStore, stamps: seq<Stamp>, now: nat)
    returns (done: bool, created: seq<string>, archives: seq<Ingested>, ghost zips: seq<seq<Written>>,
             ghost notes: map<string, map<string, string>>, ghost taken: seq<seq<(nat, Mark)>>)
    requires IsLister(list) && Lists(originals, source.files) && IsChecksum(crc)
    modifies folder, store, stampStore
    ensures done <==> forall g :: g in groups ==> GroupZip(source, g, crc).Some?
    ensures !done ==> store.times == old(store.times) && store.names == old(store.names)
                      && stampStore.records == old(stampStore.records) && stampStore.lists == old(stampStore.lists)
    ensures done ==> created == Targets(old(folder.files).Keys, ZipNames(groups), crc)
                     && AreZips(source, groups, crc, zips) && Made(zips, created, folder.files, notes)
                     && folder.files.Keys == old(folder.files).Keys + Elements(created)
                     && FilesKept(source, groups, zips, crc)
    ensures Untouched(old(folder.files), folder.files, Targets(old(folder.files).Keys, ZipNames(groups), crc))
    ensures (done && Distinct(source.files) && OnePerPage(bookmarks) && OwnIdsFor(created, ids)
             && AllListed(created, zips, list)) ==>
              AllFollow(store.times, store.names, created, zips, list, ids, originals, bookmarks)
              && EveryBookmarkArrives(store.times, store.names, source, groups, created, zips, list, ids, originals,
                                      bookmarks)
    ensures done && Distinct(source.files) ==>
              NoneMisplaced(old(store.times), old(store.names), store.times, store.names, created, zips, list, ids,
                            originals, bookmarks)
              && OthersKept(old(store.times), old(store.names), store.times, store.names, created, zips, list, ids,
                            originals, bookmarks)
    ensures done && Distinct(source.files) ==> AllInjective(archives)
    ensures done && Distinct(source.files) ==>
              NoStampMisplaced(old(stampStore.records), stampStore.records, created, zips, list, ids, originals, stamps)
    ensures done ==> UnmarkedStay(old(store.times), store.times, archives, |archives|, bookmarks)
                     && UnmarkedStay(old(store.names), store.names, archives, |archives|, bookmarks)
                     && old(store.times).Keys <= store.times.Keys
                     && old(stampStore.records).Keys <= stampStore.records.Keys
                     && OtherListsStay(old(stampStore.lists), stampStore.lists, archives, |archives|)
    ensures done ==> |taken| == |archives| && Stamped(stampStore.records, archives, taken, now)
                     && forall k :: 0 <= k < |archives| ==> TakenFrom(stamps, archives[k].pages, taken[k])
    ensures done && OwnIdsFor(created, ids) ==> ListsGrew(old(stampStore.lists), stampStore.lists, archives, taken, now)
  {
    ghost var numbers, maps;
    done, created, archives, zips, notes, numbers, maps := MakeArchives(source, originals, groups, folder, crc, list,
                                                                        ids);
    taken := [];
    if !done {
      return;
    }
    JobKeepsFiles(source, groups, zips, crc);
    InheritBookmarks(store, bookmarks, archives);
    taken := InheritStamps(stampStore, stamps, archives, now);
    if Distinct(source.files) {
      if OnePerPage(bookmarks) && OwnIdsFor(created, ids) && AllListed(created, zips, list) {
        EveryBookmarkFollows(created, zips, folder.files, notes, list, numbers, originals, maps, ids, archives,
                             store.times, store.names, bookmarks);
        BookmarksArrive(store.times, store.names, source, groups, crc, created, zips, list, ids, originals, bookmarks);
      }
      NoBookmarkMisplaced(created, zips, folder.files, notes, list, numbers, originals, maps, ids, archives, bookmarks);
      OthersAreKept(created, zips, folder.files, notes, list, numbers, originals, maps, ids, archives, bookmarks,
                    old(store.times), old(store.names), store.times, store.names);
      StampsStandRightly(created, zips, folder.files, notes, list, numbers, originals, maps, ids, archives, stamps,
                         taken, now, old(stampStore.records), stampStore.records);
    }
  }
}
