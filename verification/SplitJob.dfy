/**
  What one group's archive holds: the group's files flattened to their last components, nested archives
  unpacked in place, each entry with the file it was written from.
 */
module SplitJob {
  import opened Text
  import opened FileNames
  import opened SplitPlan
  import opened SplitZip

  /**
    What the job reads from the original: its regular files in archive order, those whose bytes are found,
    and, for a nested archive that can be opened, the names of its readable regular files.
   */
  datatype Source = Source(files: seq<string>, readable: set<string>, inner: map<string, seq<string>>)

  function EntryRename(crc: Checksum): Rename {
    (name: string) => Renamed(name, "bin", crc)
  }

  /**
    What one selected file puts into the group's archive, under plain names; nothing when a nested
    archive cannot be opened.
   */
  function ItemsOf(source: Source, path: string): Option<seq<Written>> {
    if path !in source.readable then Some([])
    else if !IsArchiveName(path) then Some([Written(BaseName(path), path)])
    else if path in source.inner then
      var inner := source.inner[path];
      Some(seq(|inner|, i requires 0 <= i < |inner| => Written(BaseName(inner[i]), path)))
    else None
  }

  function Items(source: Source, paths: seq<string>): Option<seq<Written>> {
    if paths == [] then Some([])
    else
      var last := |paths| - 1;
      var earlier, more := Items(source, paths[..last]), ItemsOf(source, paths[last]);
      if earlier.Some? && more.Some? then Some(earlier.value + more.value) else None
  }

  /** The entries as written. */
  function Contents(items: seq<Written>, crc: Checksum): (entries: seq<Written>)
    ensures |entries| == |items|
    ensures forall k :: 0 <= k < |items| ==>
              entries[k] == Written(Assign(Names(items), EntryRename(crc))[k], items[k].source)
    ensures Names(entries) == Assign(Names(items), EntryRename(crc))
  {
    var out := Assign(Names(items), EntryRename(crc));
    seq(|items|, k requires 0 <= k < |items| => Written(out[k], items[k].source))
  }

  /** The archive of these files, when it can be written. */
  ghost function ZipOf(source: Source, selected: seq<string>, crc: Checksum): Option<seq<Written>> {
    var items := Items(source, selected);
    if items.Some? && Writable(items.value, crc) then Some(Contents(items.value, crc)) else None
  }

  ghost function GroupZip(source: Source, group: Group, crc: Checksum): Option<seq<Written>> {
    ZipOf(source, GroupFiles(source.files, group), crc)
  }

  lemma {:induction false} ContentsOneMore(items: seq<Written>, item: Written, crc: Checksum)
    ensures Contents(items + [item], crc)
         == Contents(items, crc)
          + [Written(OutName(Names(Contents(items, crc)), item.name, EntryRename(crc)), item.source)]
  {
    assert Names(items + [item])[..|items|] == Names(items);
    assert Names(items + [item])[|items|] == item.name;
  }

  lemma {:induction false} ContentsPrefix(items: seq<Written>, n: nat, crc: Checksum)
    requires n <= |items|
    ensures Contents(items[..n], crc) == Contents(items, crc)[..n]
  {
    assert Names(items[..n]) == Names(items)[..n];
    AssignPrefix(Names(items), n, EntryRename(crc));
  }

  lemma {:induction false} ClashStays(items: seq<Written>, n: nat, crc: Checksum)
    requires n <= |items| && !Distinct(Names(Contents(items[..n], crc)))
    ensures !Distinct(Names(Contents(items, crc)))
  {
    ContentsPrefix(items, n, crc);
    assert forall i :: 0 <= i < n ==> Names(Contents(items[..n], crc))[i] == Names(Contents(items, crc))[i];
  }

  lemma {:induction false} ItemsPrefix(source: Source, paths: seq<string>, n: nat)
    requires n <= |paths| && Items(source, paths).Some?
    ensures Items(source, paths[..n]).Some? && Items(source, paths[..n]).value <= Items(source, paths).value
  {
    if n == |paths| {
      assert paths[..n] == paths;
    } else {
      ItemsPrefix(source, paths[..|paths| - 1], n);
      assert paths[..|paths| - 1][..n] == paths[..n];
    }
  }

  lemma {:induction false} ItemsOneMore(source: Source, paths: seq<string>, n: nat)
    requires n < |paths| && Items(source, paths[..n]).Some?
    ensures ItemsOf(source, paths[n]).None? ==> Items(source, paths).None?
    ensures ItemsOf(source, paths[n]).Some? ==>
              Items(source, paths[..n + 1]) == Some(Items(source, paths[..n]).value + ItemsOf(source, paths[n]).value)
  {
    assert paths[..n + 1][..n] == paths[..n];
    if Items(source, paths).Some? {
      ItemsPrefix(source, paths, n + 1);
    }
  }

  /** The archive under construction holds exactly these items. */
  ghost predicate Wrote(zip: ZipOutput, items: seq<Written>, crc: Checksum)
    reads zip
  {
    zip.Valid() && zip.entries == Contents(items, crc) && Writable(items, crc)
  }

  /** The items can be written: no two get one name. */
  ghost predicate Writable(items: seq<Written>, crc: Checksum) {
    Distinct(Names(Contents(items, crc)))
  }

  method WriteItem(zip: ZipOutput, item: Written, crc: Checksum, ghost before: seq<Written>) returns (ok: bool)
    requires Wrote(zip, before, crc)
    modifies zip
    ensures ok <==> Writable(before + [item], crc)
    ensures ok ==> Wrote(zip, before + [item], crc)
  {
    ContentsOneMore(before, item, crc);
    ok := zip.Write(item.name, item.source, EntryRename(crc));
    if !ok {
      ghost var names := Names(Contents(before + [item], crc));
      ghost var earlier := Names(Contents(before, crc));
      assert forall k :: 0 <= k < |earlier| ==> names[k] == earlier[k];
      assert names[|before|] in earlier;
    }
  }

  lemma {:induction false} ClashWithin(before: seq<Written>, items: seq<Written>, n: nat, crc: Checksum)
    requires n <= |items| && !Writable(before + items[..n], crc)
    ensures !Writable(before + items, crc)
  {
    assert (before + items)[..|before| + n] == before + items[..n];
    ClashStays(before + items, |before| + n, crc);
  }

  lemma {:induction false} TakeOneMore(before: seq<Written>, items: seq<Written>, i: nat)
    requires i < |items|
    ensures before + items[..i + 1] == (before + items[..i]) + [items[i]]
  {
  }

  lemma {:induction false} TakeNoneAndAll(before: seq<Written>, items: seq<Written>)
    ensures before + items[..0] == before && before + items[..|items|] == before + items
  {
  }

  /** Writes further items after those already in the archive. */
  method WriteItems(zip: ZipOutput, items: seq<Written>, crc: Checksum, ghost before: seq<Written>) returns (ok: bool)
    requires Wrote(zip, before, crc)
    modifies zip
    ensures ok <==> Writable(before + items, crc)
    ensures ok ==> Wrote(zip, before + items, crc)
  {
    TakeNoneAndAll(before, items);
    for i := 0 to |items|
      invariant Wrote(zip, before + items[..i], crc)
    {
      TakeOneMore(before, items, i);
      ok := WriteItem(zip, items[i], crc, before + items[..i]);
      if !ok {
        ClashWithin(before, items, i + 1, crc);
        return;
      }
    }
    ok := true;
  }

  lemma {:induction false} StopsRightly(source: Source, paths: seq<string>, n: nat, crc: Checksum)
    requires n <= |paths|
    requires Items(source, paths[..n]).Some? ==> !Writable(Items(source, paths[..n]).value, crc)
    ensures Items(source, paths).Some? ==> !Writable(Items(source, paths).value, crc)
  {
    if Items(source, paths).Some? {
      ItemsPrefix(source, paths, n);
      var some, all := Items(source, paths[..n]).value, Items(source, paths).value;
      assert all[..|some|] == some;
      ClashStays(all, |some|, crc);
    }
  }

  /** What one path contributes, as the job gathers it; nothing when a nested archive cannot be opened. */
  method Gather(source: Source, path: string) returns (items: Option<seq<Written>>)
    ensures items == ItemsOf(source, path)
  {
    if path !in source.readable {
      return Some([]);
    }
    if !IsArchiveName(path) {
      return Some([Written(BaseName(path), path)]);
    }
    if path !in source.inner {
      return None;
    }
    var inner := source.inner[path];
    var found: seq<Written> := [];
    for k := 0 to |inner|
      invariant found == seq(k, i requires 0 <= i < k => Written(BaseName(inner[i]), path))
    {
      found := found + [Written(BaseName(inner[k]), path)];
    }
    items := Some(found);
  }

  /** One group of the job: read, flatten, write. */
  method WriteFiles(source: Source, selected: seq<string>, crc: Checksum) returns (written: Option<seq<Written>>)
    ensures written == ZipOf(source, selected, crc)
  {
    var zip := new ZipOutput();
    ghost var items: seq<Written> := [];
    for i := 0 to |selected|
      invariant fresh(zip) && Wrote(zip, items, crc)
      invariant Items(source, selected[..i]) == Some(items)
    {
      ItemsOneMore(source, selected, i);
      var more := Gather(source, selected[i]);
      if more.None? {
        return None;
      }
      var ok := WriteItems(zip, more.value, crc, items);
      if !ok {
        StopsRightly(source, selected, i + 1, crc);
        return None;
      }
      items := items + more.value;
    }
    assert selected[..|selected|] == selected;
    written := Some(zip.entries);
  }

  /**
    A group's archive can be written exactly when its nested archives can be opened and no base name occurs
    three times, where renamed forms stand apart.
   */
  lemma {:induction false} GroupIsWritableExactly(source: Source, group: Group, crc: Checksum)
    requires var items := Items(source, GroupFiles(source.files, group));
             items.Some? ==> RenamesApart(Names(items.value), EntryRename(crc))
    ensures var items := Items(source, GroupFiles(source.files, group));
            GroupZip(source, group, crc).Some? <==> items.Some? && AtMostTwice(Names(items.value))
  {
    var items := Items(source, GroupFiles(source.files, group));
    if items.Some? {
      WrittenNamesDistinctExactly(Names(items.value), EntryRename(crc));
    }
  }
}
