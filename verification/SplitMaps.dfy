/**
  The page map of a generated archive: which entries of a group's archive are a given page of the original,
  and where the archive shows them.
 */
module SplitMaps {
  import opened Text
  import opened FileNames
  import opened SplitPlan
  import opened SplitZip
  import opened SplitPages
  import opened SplitJob

  /** `list_pages` of a file with these entries; none when the file is of no kind it opens. */
  type Lister = (string, seq<string>) -> Option<seq<string>>

  /** The pages are the image entries, in some order. */
  ghost predicate Lists(pages: seq<string>, names: seq<string>) {
    && (forall p :: p in pages <==> p in names && IsImageName(p))
    && (Distinct(names) ==> Distinct(pages))
  }

  ghost predicate IsLister(list: Lister) {
    forall target: string, names: seq<string> :: list(target, names).Some? ==> Lists(list(target, names).value, names)
  }

  // ----- Which entries of a group's archive are a given page

  /** Some item was made of this file, and every such item has this name. */
  ghost predicate HasItem(items: seq<Written>, p: string) {
    exists k :: 0 <= k < |items| && items[k].source == p
  }

  ghost predicate NamedAfter(items: seq<Written>, p: string) {
    forall k :: 0 <= k < |items| && items[k].source == p ==> items[k].name == BaseName(p)
  }

  lemma {:induction false} ItemsConcat(earlier: seq<Written>, more: seq<Written>, p: string)
    ensures HasItem(earlier + more, p) <==> HasItem(earlier, p) || HasItem(more, p)
    ensures NamedAfter(earlier, p) && NamedAfter(more, p) ==> NamedAfter(earlier + more, p)
  {
    var all := earlier + more;
    assert forall k :: 0 <= k < |earlier| ==> all[k] == earlier[k];
    assert forall k :: 0 <= k < |more| ==> all[|earlier| + k] == more[k];
  }

  /** What one file contributes is made of that file. */
  lemma {:induction false} OwnItems(source: Source, path: string, p: string)
    requires ItemsOf(source, path).Some? && !IsArchiveName(p)
    ensures HasItem(ItemsOf(source, path).value, p) <==> p == path && p in source.readable
    ensures NamedAfter(ItemsOf(source, path).value, p)
  {
    var items := ItemsOf(source, path).value;
    assert forall k :: 0 <= k < |items| ==> items[k].source == path;
    if p == path && p in source.readable {
      assert items[0].source == p;
    }
  }

  lemma {:induction false} ItemsHoldPages(source: Source, paths: seq<string>, p: string)
    requires Items(source, paths).Some? && !IsArchiveName(p)
    ensures HasItem(Items(source, paths).value, p) <==> p in paths && p in source.readable
    ensures NamedAfter(Items(source, paths).value, p)
  {
    if paths != [] {
      var last := |paths| - 1;
      ItemsHoldPages(source, paths[..last], p);
      OwnItems(source, paths[last], p);
      ItemsConcat(Items(source, paths[..last]).value, ItemsOf(source, paths[last]).value, p);
      assert p in paths <==> p in paths[..last] || p == paths[last];
    }
  }

  /** A file of the original is in its archive once. */
  lemma {:induction false} ItemsHoldPagesOnce(source: Source, paths: seq<string>, p: string, i: nat, j: nat)
    requires Items(source, paths).Some? && !IsArchiveName(p) && Distinct(paths)
    requires i < |Items(source, paths).value| && j < |Items(source, paths).value|
    requires Items(source, paths).value[i].source == p == Items(source, paths).value[j].source
    ensures i == j
  {
    var last := |paths| - 1;
    var earlier, more := Items(source, paths[..last]).value, ItemsOf(source, paths[last]).value;
    assert forall k :: 0 <= k < |more| ==> more[k].source == paths[last];
    ItemsHoldPages(source, paths[..last], p);
    if p == paths[last] {
      assert p !in paths[..last];
    } else {
      ItemsHoldPagesOnce(source, paths[..last], p, i, j);
    }
  }

  /** The archive shows this file of the original as a page. */
  ghost predicate ShowsFile(zip: seq<Written>, p: string) {
    exists k :: 0 <= k < |zip| && zip[k].source == p && IsImageName(zip[k].name)
  }

  /** The entry made of this file got its plain name: no earlier entry had it. */
  ghost predicate FirstOfItsName(zip: seq<Written>, p: string) {
    exists k :: 0 <= k < |zip| && zip[k].source == p && BaseName(p) !in Names(zip[..k])
  }

  /**
    A group's archive shows a page of the original exactly when the group selects it, its bytes were read,
    and either its name has a real extension or no earlier entry took its name: a file called just `jpg` or
    `.jpg` loses its extension when renamed.
   */
  lemma {:induction false} ShownExactly(source: Source, group: Group, crc: Checksum, p: string)
    requires IsChecksum(crc) && GroupZip(source, group, crc).Some? && IsImageName(p)
    ensures ShowsFile(GroupZip(source, group, crc).value, p)
       <==> p in source.files && Selected(p, group) && p in source.readable
            && (Extension(p).Some? || FirstOfItsName(GroupZip(source, group, crc).value, p))
  {
    var selected := GroupFiles(source.files, group);
    var items, zip := Items(source, selected).value, GroupZip(source, group, crc).value;
    PageIsNoArchive(p);
    ItemsHoldPages(source, selected, p);
    forall k | 0 <= k < |zip| && zip[k].source == p
      ensures IsImageName(zip[k].name) <==> Extension(p).Some? || BaseName(p) !in Names(zip[..k])
    {
      EntryOfPage(items, k, crc, p);
    }
    assert forall k :: 0 <= k < |zip| ==> items[k].source == zip[k].source;
    if p in selected && p in source.readable {
      var k :| 0 <= k < |items| && items[k].source == p;
      assert zip[k].source == p;
    }
  }

  /** No item before the one made of this file has its base name. */
  ghost predicate FirstInGroup(items: seq<Written>, p: string) {
    exists k :: 0 <= k < |items| && items[k].source == p && BaseName(p) !in Names(items[..k])
  }

  /**
    The same in terms of the input alone, where renamed forms stand apart: a page is shown exactly when it
    is selected, readable, and has a real extension or comes first of all files of its base name.
   */
  lemma {:induction false} ShownByInputExactly(source: Source, group: Group, crc: Checksum, p: string)
    requires IsChecksum(crc) && GroupZip(source, group, crc).Some? && IsImageName(p)
    requires RenamesApart(Names(Items(source, GroupFiles(source.files, group)).value), EntryRename(crc))
    ensures ShowsFile(GroupZip(source, group, crc).value, p)
       <==> p in source.files && Selected(p, group) && p in source.readable
            && (Extension(p).Some? || FirstInGroup(Items(source, GroupFiles(source.files, group)).value, p))
  {
    var items := Items(source, GroupFiles(source.files, group)).value;
    ShownExactly(source, group, crc, p);
    PageIsNoArchive(p);
    ItemsHoldPages(source, GroupFiles(source.files, group), p);
    FirstOfItsNameByInput(items, crc, p);
  }

  lemma {:induction false} FirstOfItsNameByInput(items: seq<Written>, crc: Checksum, p: string)
    requires RenamesApart(Names(items), EntryRename(crc))
    requires NamedAfter(items, p)
    ensures FirstOfItsName(Contents(items, crc), p) <==> FirstInGroup(items, p)
  {
    var zip := Contents(items, crc);
    forall k | 0 <= k < |items| && items[k].source == p
      ensures BaseName(p) in Names(zip[..k]) <==> BaseName(p) in Names(items[..k])
    {
      TakenByInput(items, k, crc);
    }
  }

  lemma {:induction false} TakenByInput(items: seq<Written>, k: nat, crc: Checksum)
    requires RenamesApart(Names(items), EntryRename(crc)) && k < |items|
    ensures items[k].name in Names(Contents(items, crc)[..k]) <==> items[k].name in Names(items[..k])
  {
    assert Names(Contents(items, crc)[..k]) == Assign(Names(items), EntryRename(crc))[..k];
    assert Names(items[..k]) == Names(items)[..k];
    TakenExactly(Names(items), k, EntryRename(crc));
  }

  /** With renames apart a name is taken exactly when it occurred. */
  lemma {:induction false} TakenExactly(names: seq<string>, k: nat, rename: Rename)
    requires RenamesApart(names, rename) && k < |names|
    ensures names[k] in Assign(names, rename)[..k] <==> names[k] in names[..k]
  {
    var out := Assign(names, rename);
    if i :| 0 <= i < k && out[..k][i] == names[k] {
      RenamedWhenRepeated(names, i, rename);
      OccurredRepeats(names, i);
      assert names[..k][i] == names[i];
    }
    if i :| 0 <= i < k && names[..k][i] == names[k] {
      PlainIsTaken(names, i, rename);
      assert forall n :: n in out[..i + 1] ==> n in out[..k];
    }
  }

  /** Two files of one bare name in one group: the second is written without it and is no page any more. */
  lemma {:induction false} SecondBareNameIsLost(source: Source, group: Group, f: string, g: string, crc: Checksum)
    requires source.files == [f, g] && CoveredBy(f, group) && CoveredBy(g, group) && f in source.readable
    requires g in source.readable
    requires IsChecksum(crc) && f != g && IsImageName(f) && IsImageName(g)
    requires BaseName(f) == BaseName(g) && Extension(g).None?
    ensures GroupZip(source, group, crc).Some?
    ensures ShowsFile(GroupZip(source, group, crc).value, f) && !ShowsFile(GroupZip(source, group, crc).value, g)
  {
    PageIsNoArchive(f);
    PageIsNoArchive(g);
    TwoFiles(source, group, f, g);
    TwoOfOneName(f, g, crc);
    GroupIsWritableExactly(source, group, crc);
    ShownByInputExactly(source, group, crc, f);
    ShownByInputExactly(source, group, crc, g);
    OnlyTheFirst(f, g);
  }

  /** `a/.jpg` and `b/.jpg` are such files: the plan covers both, and one page is lost. */
  lemma {:induction false} HiddenNamesCollide(crc: Checksum)
    requires IsChecksum(crc)
    ensures var f, g := "a" + "/.jpg", "b" + "/.jpg";
            var zip := GroupZip(Source([f, g], {f, g}, map[]), Group("c.zip", [], [f, g]), crc);
            IsImageName(f) && IsImageName(g) && zip.Some? && ShowsFile(zip.value, f) && !ShowsFile(zip.value, g)
  {
    var f, g := "a" + "/.jpg", "b" + "/.jpg";
    BareName("a");
    BareName("b");
    assert f[0] == 'a' && g[0] == 'b';
    SecondBareNameIsLost(Source([f, g], {f, g}, map[]), Group("c.zip", [], [f, g]), f, g, crc);
  }

  lemma {:induction false} OnlyTheFirst(f: string, g: string)
    requires f != g && BaseName(f) == BaseName(g)
    ensures var items := [Written(BaseName(f), f), Written(BaseName(g), g)];
            FirstInGroup(items, f) && !FirstInGroup(items, g)
  {
    var items := [Written(BaseName(f), f), Written(BaseName(g), g)];
    assert items[0].source == f && Names(items[..0]) == [];
    assert Names(items[..1])[0] == BaseName(g);
  }

  lemma {:induction false} TwoOfOneName(f: string, g: string, crc: Checksum)
    requires IsChecksum(crc) && IsImageName(f) && BaseName(f) == BaseName(g)
    ensures var names := Names([Written(BaseName(f), f), Written(BaseName(g), g)]);
            RenamesApart(names, EntryRename(crc)) && AtMostTwice(names)
  {
    BaseOfPage(f);
    assert AfterLast(BaseName(f), '/') == BaseName(f);
    RenamedIsLonger(BaseName(f), "bin", crc);
  }

  lemma {:induction false} TwoFiles(source: Source, group: Group, f: string, g: string)
    requires source.files == [f, g] && CoveredBy(f, group) && CoveredBy(g, group)
    requires f in source.readable && g in source.readable && !IsArchiveName(f) && !IsArchiveName(g)
    ensures GroupFiles(source.files, group) == [f, g]
    ensures Items(source, [f, g]) == Some([Written(BaseName(f), f), Written(BaseName(g), g)])
  {
    assert [f, g][..1] == [f] && [f][..0] == [];
    assert GroupFiles([f], group) == GroupFiles([], group) + [f];
    assert GroupFiles([f, g], group) == GroupFiles([f], group) + [g];
    assert Items(source, []) == Some([]);
    var one, other := Written(BaseName(f), f), Written(BaseName(g), g);
    assert Items(source, [f]) == Some([] + [one]);
    assert [] + [one] + [other] == [one, other];
  }

  /** One entry made of a page: it is a page again unless it was renamed without an extension to keep. */
  lemma {:induction false} EntryOfPage(items: seq<Written>, k: nat, crc: Checksum, p: string)
    requires IsChecksum(crc) && IsImageName(p) && k < |items| && items[k] == Written(BaseName(p), p)
    ensures var zip := Contents(items, crc);
            IsImageName(zip[k].name) <==> Extension(p).Some? || BaseName(p) !in Names(zip[..k])
  {
    var zip, name := Contents(items, crc), BaseName(p);
    AssignAt(Names(items), k, EntryRename(crc));
    assert Names(zip[..k]) == Names(zip)[..k];
    BaseOfPage(p);
    assert AfterLast(name, '/') == name;
    assert FileName(name) == Some(name);
    RenamedPage(name, crc);
  }

  // ----- Page maps

  /** The map of a generated archive: listed pages, through the notes, to the original's numbers. */
  ghost predicate Composes(m: PageMap, pages: seq<string>, sources: map<string, string>, numbers: map<string, nat>) {
    && (forall l: nat :: l in m <==> OriginalOf(pages, sources, numbers, l).Some?)
    && (forall l :: l in m ==> Some(m[l]) == OriginalOf(pages, sources, numbers, l))
  }

  /** `numbers` numbers the original's pages. */
  ghost predicate Numbers(numbers: map<string, nat>, originals: seq<string>) {
    && (forall p :: p in numbers <==> p in originals)
    && (forall p :: p in numbers ==> 1 <= numbers[p] <= |originals| && originals[numbers[p] - 1] == p)
  }

  /** The notes about one archive are right. */
  ghost predicate Sources(sources: map<string, string>, zip: seq<Written>) {
    forall e :: e in zip ==> e.name in sources && sources[e.name] == e.source
  }

  /** The local page shows this very page of the original. */
  ghost predicate PageShows(pages: seq<string>, zip: seq<Written>, l: nat, original: string) {
    1 <= l <= |pages| && Written(pages[l - 1], original) in zip
  }

  /**
    The composed map is exact: a local page is mapped to an original page exactly when the entry behind it
    was written from that very file.
   */
  lemma {:induction false} MapIsExact(m: PageMap, pages: seq<string>, zip: seq<Written>, sources: map<string, string>,
                                      numbers: map<string, nat>, originals: seq<string>, l: nat, q: nat)
    requires Composes(m, pages, sources, numbers) && Numbers(numbers, originals) && Distinct(originals)
    requires Lists(pages, Names(zip)) && Distinct(Names(zip)) && Sources(sources, zip)
    requires 1 <= q <= |originals|
    ensures l in m && m[l] == q <==> PageShows(pages, zip, l, originals[q - 1])
  {
    if 1 <= l <= |pages| {
      var e := EntryNamed(zip, pages[l - 1]);
      assert sources[pages[l - 1]] == e.source;
      var p := originals[q - 1];
      assert p in numbers && numbers[p] == q;
      if Written(pages[l - 1], p) in zip {
        assert sources[pages[l - 1]] == p;
      }
      if l in m && m[l] == q {
        assert OriginalOf(pages, sources, numbers, l) == Some(q);
        assert e.source == p;
      }
    }
  }

  lemma {:induction false} EntryNamed(zip: seq<Written>, name: string) returns (e: Written)
    requires name in Names(zip)
    ensures e in zip && e.name == name
  {
    var k :| 0 <= k < |zip| && Names(zip)[k] == name;
    e := zip[k];
  }

  /** Which original pages an archive has: those it shows. */
  lemma {:induction false} MapReaches(m: PageMap, pages: seq<string>, zip: seq<Written>, sources: map<string, string>,
                                      numbers: map<string, nat>, originals: seq<string>, q: nat)
    requires Composes(m, pages, sources, numbers) && Numbers(numbers, originals) && Distinct(originals)
    requires Lists(pages, Names(zip)) && Distinct(Names(zip)) && Sources(sources, zip)
    requires 1 <= q <= |originals|
    ensures q in m.Values <==> ShowsFile(zip, originals[q - 1])
  {
    var p := originals[q - 1];
    if ShowsFile(zip, p) {
      var k :| 0 <= k < |zip| && zip[k].source == p && IsImageName(zip[k].name);
      assert Names(zip)[k] == zip[k].name;
      var i :| 0 <= i < |pages| && pages[i] == zip[k].name;
      assert zip[k] == Written(pages[i], p);
      MapIsExact(m, pages, zip, sources, numbers, originals, i + 1, q);
    }
    if q in m.Values {
      var l :| l in m && m[l] == q;
      MapIsExact(m, pages, zip, sources, numbers, originals, l, q);
      var k :| 0 <= k < |zip| && zip[k] == Written(pages[l - 1], p);
      assert pages[l - 1] in pages;
    }
  }

  lemma {:induction false} MappedFrom(m: PageMap, pages: seq<string>, zip: seq<Written>, sources: map<string, string>,
                                      numbers: map<string, nat>, originals: seq<string>, l: nat) returns (p: string)
    requires Composes(m, pages, sources, numbers) && Numbers(numbers, originals) && Distinct(originals)
    requires Lists(pages, Names(zip)) && Distinct(Names(zip)) && Sources(sources, zip)
    requires l in m
    ensures 1 <= m[l] <= |originals| && p == originals[m[l] - 1] && p in originals
    ensures 1 <= l <= |pages| && Written(pages[l - 1], p) in zip
  {
    p := originals[m[l] - 1];
    MapIsExact(m, pages, zip, sources, numbers, originals, l, m[l]);
  }

  /** An archive holds a page of the original at most once. */
  ghost predicate HoldsOnce(zip: seq<Written>, originals: seq<string>) {
    forall e, f :: e in zip && f in zip && e.source == f.source && e.source in originals ==> e == f
  }

  /**
    The page map of a generated archive is a partial injection, so the inverse the inheritance builds is
    exact, whatever order it is built in.
   */
  lemma {:induction false} MapIsInjective(m: PageMap, pages: seq<string>, zip: seq<Written>,
                                          sources: map<string, string>, numbers: map<string, nat>,
                                          originals: seq<string>)
    requires Composes(m, pages, sources, numbers) && Numbers(numbers, originals) && Distinct(originals)
    requires Lists(pages, Names(zip)) && Distinct(Names(zip)) && Sources(sources, zip)
    requires HoldsOnce(zip, originals)
    ensures Injective(m)
  {
    forall l, k | l in m && k in m && m[l] == m[k]
      ensures l == k
    {
      var p := MappedFrom(m, pages, zip, sources, numbers, originals, l);
      var q := MappedFrom(m, pages, zip, sources, numbers, originals, k);
      assert Written(pages[l - 1], p) == Written(pages[k - 1], p);
    }
  }

  /** A group's archive holds each page once, under names that are distinct. */
  lemma {:induction false} GroupHoldsOnce(source: Source, group: Group, crc: Checksum, zip: seq<Written>,
                                          originals: seq<string>)
    requires Distinct(source.files) && GroupZip(source, group, crc) == Some(zip)
    requires forall p :: p in originals ==> IsImageName(p)
    ensures HoldsOnce(zip, originals) && Distinct(Names(zip))
  {
    forall e, f | e in zip && f in zip && e.source == f.source && e.source in originals
      ensures e == f
    {
      SourceOnce(source, group, crc, zip, e, f);
    }
  }

  lemma {:induction false} SourceOnce(source: Source, group: Group, crc: Checksum, zip: seq<Written>, e: Written,
                                      f: Written)
    requires Distinct(source.files) && GroupZip(source, group, crc) == Some(zip)
    requires e in zip && f in zip && e.source == f.source && IsImageName(e.source)
    ensures e == f
  {
    var selected := GroupFiles(source.files, group);
    var i :| 0 <= i < |zip| && zip[i] == e;
    var j :| 0 <= j < |zip| && zip[j] == f;
    SelectedOnce(source.files, group);
    PageIsNoArchive(e.source);
    ItemsHoldPagesOnce(source, selected, e.source, i, j);
  }

  lemma {:induction false} SelectedOnce(files: seq<string>, group: Group)
    requires Distinct(files)
    ensures Distinct(GroupFiles(files, group))
  {
    SelectedInOrder(files, group);
    var at, selected := Positions(files, group), GroupFiles(files, group);
    forall i, j | 0 <= i < j < |selected|
      ensures selected[i] != selected[j]
    {
      assert at[i] < at[j] < |files|;
    }
  }
}
