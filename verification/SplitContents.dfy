/**
  What a group's archive holds, file by file: every selected file that was read has entries of its own, and
  there are no others.
 */
module SplitContents {
  import opened Text
  import opened FileNames
  import opened SplitPlan
  import opened SplitZip
  import opened SplitJob

  /** How many entries a file of the original gives: its own, or one for each file of a nested archive. */
  function Size(source: Source, p: string): nat {
    if p !in source.readable then 0
    else if !IsArchiveName(p) then 1
    else if p in source.inner then |source.inner[p]|
    else 0
  }

  /** The last component of the file behind entry `k` of this file. */
  function PlainName(source: Source, p: string, k: nat): string
    requires k < Size(source, p)
  {
    BaseName(if IsArchiveName(p) then source.inner[p][k] else p)
  }

  /** The entry comes from this file, and is called by the plain name or by the renamed form of it. */
  predicate IsEntryOf(e: Written, p: string, name: string, crc: Checksum) {
    e.source == p && (e.name == name || e.name == Renamed(name, "bin", crc))
  }

  /** From `start` on stand all entries of this file, in its own order. */
  ghost predicate StandsAt(source: Source, p: string, zip: seq<Written>, start: nat, crc: Checksum) {
    && start + Size(source, p) <= |zip|
    && forall k: nat :: k < Size(source, p) ==> IsEntryOf(zip[start + k], p, PlainName(source, p, k), crc)
  }

  /** How many entries the first `i` files give. */
  function SizeBefore(source: Source, paths: seq<string>, i: nat): nat
    requires i <= |paths|
  {
    if i == 0 then 0 else SizeBefore(source, paths, i - 1) + Size(source, paths[i - 1])
  }

  /** The archive is its files' entries one after the other, and every nested archive was opened. */
  ghost predicate HoldsFiles(source: Source, paths: seq<string>, zip: seq<Written>, crc: Checksum) {
    && |zip| == SizeBefore(source, paths, |paths|)
    && (forall i: nat :: i < |paths| ==> StandsAt(source, paths[i], zip, SizeBefore(source, paths, i), crc))
    && AllOpen(source, paths)
  }

  lemma {:induction false} SizeOfPrefix(source: Source, paths: seq<string>, n: nat, i: nat)
    requires i <= n <= |paths|
    ensures SizeBefore(source, paths[..n], i) == SizeBefore(source, paths, i)
  {
    if i > 0 {
      SizeOfPrefix(source, paths, n, i - 1);
    }
  }

  /** The plain items, before any renaming. */
  ghost predicate ItemsStandAt(source: Source, p: string, items: seq<Written>, start: nat) {
    && start + Size(source, p) <= |items|
    && forall k: nat :: k < Size(source, p) ==> items[start + k] == Written(PlainName(source, p, k), p)
  }

  lemma {:induction false} OwnItemsStand(source: Source, p: string)
    requires ItemsOf(source, p).Some?
    ensures |ItemsOf(source, p).value| == Size(source, p) && ItemsStandAt(source, p, ItemsOf(source, p).value, 0)
    ensures p in source.readable && IsArchiveName(p) ==> p in source.inner
  {
  }

  ghost predicate AllItemsStand(source: Source, paths: seq<string>, items: seq<Written>) {
    && |items| == SizeBefore(source, paths, |paths|)
    && forall i: nat :: i < |paths| ==> ItemsStandAt(source, paths[i], items, SizeBefore(source, paths, i))
  }

  lemma {:induction false} ItemsStandLonger(source: Source, p: string, earlier: seq<Written>, more: seq<Written>,
                                            start: nat)
    ensures ItemsStandAt(source, p, earlier, start) ==> ItemsStandAt(source, p, earlier + more, start)
    ensures ItemsStandAt(source, p, more, 0) ==> ItemsStandAt(source, p, earlier + more, |earlier|)
  {
  }

  lemma {:induction false} OneFileMore(source: Source, paths: seq<string>, earlier: seq<Written>, more: seq<Written>)
    requires paths != [] && AllItemsStand(source, paths[..|paths| - 1], earlier)
    requires |more| == Size(source, paths[|paths| - 1]) && ItemsStandAt(source, paths[|paths| - 1], more, 0)
    ensures AllItemsStand(source, paths, earlier + more)
  {
    var last := |paths| - 1;
    SizeOfPrefix(source, paths, last, last);
    forall i: nat | i < |paths|
      ensures ItemsStandAt(source, paths[i], earlier + more, SizeBefore(source, paths, i))
    {
      ItemsStandLonger(source, paths[i], earlier, more, SizeBefore(source, paths, i));
      if i < last {
        SizeOfPrefix(source, paths, last, i);
        assert ItemsStandAt(source, paths[..last][i], earlier, SizeBefore(source, paths[..last], i));
      }
    }
  }

  lemma {:induction false} ItemsInOrder(source: Source, paths: seq<string>)
    requires Items(source, paths).Some?
    ensures AllItemsStand(source, paths, Items(source, paths).value)
  {
    if paths != [] {
      var last := |paths| - 1;
      ItemsInOrder(source, paths[..last]);
      OwnItemsStand(source, paths[last]);
      OneFileMore(source, paths, Items(source, paths[..last]).value, ItemsOf(source, paths[last]).value);
    }
  }

  /** Every nested archive among these files that was read can be opened. */
  predicate AllOpen(source: Source, paths: seq<string>) {
    forall p :: p in paths && p in source.readable && IsArchiveName(p) ==> p in source.inner
  }

  lemma {:induction false} ItemsWhenOpen(source: Source, paths: seq<string>)
    ensures Items(source, paths).Some? <==> AllOpen(source, paths)
  {
    if paths != [] {
      var last := |paths| - 1;
      ItemsWhenOpen(source, paths[..last]);
      assert forall p :: p in paths <==> p in paths[..last] || p == paths[last];
    }
  }

  /** The last components of all files, those in nested archives included, in the order they are written. */
  function PlainNames(source: Source, paths: seq<string>): seq<string> {
    if paths == [] then []
    else
      var last := |paths| - 1;
      PlainNames(source, paths[..last])
      + seq(Size(source, paths[last]), k requires 0 <= k < Size(source, paths[last]) =>
              PlainName(source, paths[last], k))
  }

  lemma {:induction false} NamesOfItems(source: Source, paths: seq<string>)
    requires Items(source, paths).Some?
    ensures Names(Items(source, paths).value) == PlainNames(source, paths)
  {
    if paths != [] {
      var last := |paths| - 1;
      NamesOfItems(source, paths[..last]);
      OwnItemsStand(source, paths[last]);
      NamesConcat(Items(source, paths[..last]).value, ItemsOf(source, paths[last]).value);
      NamesOfOne(source, paths[last]);
    }
  }

  lemma NamesConcat(a: seq<Written>, b: seq<Written>)
    ensures Names(a + b) == Names(a) + Names(b)
  {
  }

  lemma {:induction false} NamesOfOne(source: Source, p: string)
    requires ItemsOf(source, p).Some?
    ensures Names(ItemsOf(source, p).value)
         == seq(Size(source, p), k requires 0 <= k < Size(source, p) => PlainName(source, p, k))
  {
    OwnItemsStand(source, p);
    var items := ItemsOf(source, p).value;
    assert forall k :: 0 <= k < |items| ==> items[0 + k] == Written(PlainName(source, p, k), p);
  }

  /**
    A group's archive can be written exactly when its nested archives can be opened and no last component
    occurs three times among its files, where renamed forms stand apart.
   */
  lemma {:induction false} WritableExactly(source: Source, group: Group, crc: Checksum)
    requires RenamesApart(PlainNames(source, GroupFiles(source.files, group)), EntryRename(crc))
    ensures var paths := GroupFiles(source.files, group);
            GroupZip(source, group, crc).Some? <==> AllOpen(source, paths) && AtMostTwice(PlainNames(source, paths))
  {
    var paths := GroupFiles(source.files, group);
    ItemsWhenOpen(source, paths);
    if AllOpen(source, paths) {
      NamesOfItems(source, paths);
    }
    GroupIsWritableExactly(source, group, crc);
  }

  lemma {:induction false} NamedSo(items: seq<Written>, crc: Checksum, k: nat)
    requires k < |items|
    ensures IsEntryOf(Contents(items, crc)[k], items[k].source, items[k].name, crc)
  {
    AssignAt(Names(items), k, EntryRename(crc));
  }

  /** Nothing that was read is lost and nothing else is written: the archive of these files, entry by entry. */
  lemma {:induction false} EveryFileIsWritten(source: Source, paths: seq<string>, crc: Checksum)
    requires ZipOf(source, paths, crc).Some?
    ensures HoldsFiles(source, paths, ZipOf(source, paths, crc).value, crc)
  {
    var items, zip := Items(source, paths).value, ZipOf(source, paths, crc).value;
    ItemsInOrder(source, paths);
    ItemsWhenOpen(source, paths);
    forall i: nat | i < |paths|
      ensures StandsAt(source, paths[i], zip, SizeBefore(source, paths, i), crc)
    {
      assert ItemsStandAt(source, paths[i], items, SizeBefore(source, paths, i));
      forall k: nat | k < Size(source, paths[i])
        ensures IsEntryOf(zip[SizeBefore(source, paths, i) + k], paths[i], PlainName(source, paths[i], k), crc)
      {
        NamedSo(items, crc, SizeBefore(source, paths, i) + k);
      }
    }
  }

  /** A whole job: each group's archive is exactly its files', and every file of an accepted plan is in some. */
  ghost predicate FilesKept(source: Source, groups: seq<Group>, zips: seq<seq<Written>>, crc: Checksum) {
    && |zips| == |groups|
    && (forall g :: 0 <= g < |groups| ==> HoldsFiles(source, GroupFiles(source.files, groups[g]), zips[g], crc))
    && forall f :: f in source.files && Covered(f, groups) ==> IsSomewhere(source, f, zips, crc)
  }

  ghost predicate IsSomewhere(source: Source, f: string, zips: seq<seq<Written>>, crc: Checksum) {
    exists g: nat, start: nat :: g < |zips| && StandsAt(source, f, zips[g], start, crc)
  }

  lemma {:induction false} JobKeepsFiles(source: Source, groups: seq<Group>, zips: seq<seq<Written>>, crc: Checksum)
    requires |zips| == |groups|
    requires forall g :: 0 <= g < |groups| ==> GroupZip(source, groups[g], crc) == Some(zips[g])
    ensures FilesKept(source, groups, zips, crc)
  {
    forall g | 0 <= g < |groups|
      ensures HoldsFiles(source, GroupFiles(source.files, groups[g]), zips[g], crc)
    {
      EveryFileIsWritten(source, GroupFiles(source.files, groups[g]), crc);
    }
    forall f | f in source.files && Covered(f, groups)
      ensures IsSomewhere(source, f, zips, crc)
    {
      var group :| group in groups && CoveredBy(f, group);
      var g :| 0 <= g < |groups| && groups[g] == group;
      var paths := GroupFiles(source.files, group);
      assert f in paths;
      var i :| 0 <= i < |paths| && paths[i] == f;
      assert StandsAt(source, f, zips[g], SizeBefore(source, paths, i), crc);
    }
  }
}
