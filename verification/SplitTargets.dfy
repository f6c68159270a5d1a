/**
  Where a split job puts its archives: `run_split_job`'s target names, and what that leaves of the folder.
 */
module SplitTargets {
  import opened Text
  import opened FileNames
  import opened SplitPlan
  import opened SplitZip
  import opened SplitJob

  datatype File = Other | Zip(entries: seq<Written>)

  class Folder {
    var files: map<string, File>

    constructor (files: map<string, File>)
      ensures this.files == files
    {
      this.files := files;
    }

    /** Creates or truncates. */
    method Put(name: string, file: File)
      modifies this
      ensures files == old(files)[name := file]
    {
      files := files[name := file];
    }
  }

  function ZipRename(crc: Checksum): Rename {
    (name: string) => Renamed(name, "zip", crc)
  }

  function TargetOf(taken: set<string>, zipName: string, crc: Checksum): string {
    if zipName in taken then Renamed(zipName, "zip", crc) else zipName
  }

  function Elements(names: seq<string>): set<string> {
    set n | n in names
  }

  /** The files the groups are written to, in a folder that holds `existing`. */
  function Targets(existing: set<string>, zipNames: seq<string>, crc: Checksum): (targets: seq<string>)
    ensures |targets| == |zipNames|
  {
    if zipNames == [] then []
    else
      var last := |zipNames| - 1;
      var earlier := Targets(existing, zipNames[..last], crc);
      earlier + [TargetOf(existing + Elements(earlier), zipNames[last], crc)]
  }

  function ZipNames(groups: seq<Group>): (names: seq<string>)
    ensures |names| == |groups| && forall k :: 0 <= k < |groups| ==> names[k] == groups[k].zipName
  {
    seq(|groups|, k requires 0 <= k < |groups| => groups[k].zipName)
  }

  lemma {:induction false} TargetsPrefix(existing: set<string>, zipNames: seq<string>, n: nat, crc: Checksum)
    requires n <= |zipNames|
    ensures Targets(existing, zipNames[..n], crc) == Targets(existing, zipNames, crc)[..n]
  {
    if n < |zipNames| {
      var last := |zipNames| - 1;
      assert zipNames[..last][..n] == zipNames[..n];
      TargetsPrefix(existing, zipNames[..last], n, crc);
    } else {
      assert zipNames[..n] == zipNames;
    }
  }

  lemma {:induction false} TargetsOneMore(existing: set<string>, groups: seq<Group>, n: nat, crc: Checksum)
    requires n < |groups|
    ensures var target := TargetOf(existing + Elements(Targets(existing, ZipNames(groups[..n]), crc)),
                                   groups[n].zipName, crc);
            && Targets(existing, ZipNames(groups[..n + 1]), crc)
               == Targets(existing, ZipNames(groups[..n]), crc) + [target]
            && target in Targets(existing, ZipNames(groups), crc)
  {
    assert ZipNames(groups[..n + 1])[..n] == ZipNames(groups[..n]);
    assert ZipNames(groups[..n + 1]) == ZipNames(groups)[..n + 1];
    TargetsPrefix(existing, ZipNames(groups), n + 1, crc);
    assert Targets(existing, ZipNames(groups), crc)[..n + 1][n] == Targets(existing, ZipNames(groups), crc)[n];
  }

  /** A group's target is the plan's name, or its renamed form when the folder or an earlier group has that name. */
  lemma {:induction false} TargetExactly(existing: set<string>, zipNames: seq<string>, k: nat, crc: Checksum)
    requires k < |zipNames|
    ensures var targets := Targets(existing, zipNames, crc);
            targets[k] == if zipNames[k] in existing || zipNames[k] in targets[..k]
                          then Renamed(zipNames[k], "zip", crc) else zipNames[k]
  {
    TargetsPrefix(existing, zipNames, k + 1, crc);
    TargetsPrefix(existing, zipNames, k, crc);
    assert zipNames[..k + 1][..k] == zipNames[..k];
    assert Targets(existing, zipNames, crc)[..k + 1][k] == Targets(existing, zipNames, crc)[k];
  }

  /** A file already on disk and a name of the plan meet in the same way as two names of one archive. */
  lemma {:induction false} TargetsAreAssigned(existing: seq<string>, zipNames: seq<string>, crc: Checksum)
    requires Distinct(existing)
    ensures Assign(existing + zipNames, ZipRename(crc)) == existing + Targets(Elements(existing), zipNames, crc)
  {
    if zipNames != [] {
      var last := |zipNames| - 1;
      TargetsAreAssigned(existing, zipNames[..last], crc);
      assert (existing + zipNames)[..|existing| + last] == existing + zipNames[..last];
    } else {
      AssignDistinct(existing, ZipRename(crc));
      assert existing + zipNames == existing;
    }
  }

  lemma {:induction false} AssignDistinct(names: seq<string>, rename: Rename)
    requires Distinct(names)
    ensures Assign(names, rename) == names
  {
    if names != [] {
      var last := |names| - 1;
      AssignDistinct(names[..last], rename);
      assert names[last] !in names[..last];
    }
  }

  /**
    Every group gets a file of its own and no file of the folder is overwritten exactly when no ZIP name
    occurs three times, a file on disk counting as one: the renamed target is not checked again.
   */
  lemma {:induction false} NothingOverwrittenExactly(existing: seq<string>, zipNames: seq<string>, crc: Checksum)
    requires Distinct(existing) && RenamesApart(existing + zipNames, ZipRename(crc))
    ensures var targets := Targets(Elements(existing), zipNames, crc);
            (Distinct(targets) && forall t :: t in targets ==> t !in existing) <==> AtMostTwice(existing + zipNames)
  {
    var targets := Targets(Elements(existing), zipNames, crc);
    TargetsAreAssigned(existing, zipNames, crc);
    WrittenNamesDistinctExactly(existing + zipNames, ZipRename(crc));
    DistinctConcat(existing, targets);
  }

  lemma {:induction false} DistinctConcat(a: seq<string>, b: seq<string>)
    ensures Distinct(a + b) <==> Distinct(a) && Distinct(b) && forall x :: x in b ==> x !in a
  {
    var ab := a + b;
    if Distinct(ab) {
      assert forall i :: 0 <= i < |a| ==> ab[i] == a[i];
      assert forall i :: 0 <= i < |b| ==> ab[|a| + i] == b[i];
      forall x | x in b
        ensures x !in a
      {
        var j :| 0 <= j < |b| && b[j] == x;
        assert forall i :: 0 <= i < |a| ==> ab[i] != ab[|a| + j];
      }
    }
    if Distinct(a) && Distinct(b) && forall x :: x in b ==> x !in a {
      forall i, j | 0 <= i < j < |ab|
        ensures ab[i] != ab[j]
      {
        if i < |a| <= j {
          assert ab[j] in b && ab[i] in a;
        }
      }
    }
  }

  // ----- Writing the groups

  /** No later group is written to the same file. */
  ghost predicate Stays(created: seq<string>, k: nat)
    requires k < |created|
  {
    forall m :: k < m < |created| ==> created[m] != created[k]
  }

  /** The notes name every entry's source. */
  ghost predicate Noted(notes: map<string, map<string, string>>, target: string, entries: seq<Written>) {
    forall e :: e in entries ==> target in notes && e.name in notes[target] && notes[target][e.name] == e.source
  }

  /** Archive `k` is where it was put, with the notes about it, unless a later group took the file. */
  ghost predicate Kept(zip: seq<Written>, created: seq<string>, k: nat, files: map<string, File>,
                       notes: map<string, map<string, string>>)
    requires k < |created|
  {
    && created[k] in files && files[created[k]].Zip?
    && (Stays(created, k) ==> files[created[k]].entries == zip && Noted(notes, created[k], zip))
  }

  ghost predicate Made(zips: seq<seq<Written>>, created: seq<string>, files: map<string, File>,
                       notes: map<string, map<string, string>>) {
    |zips| == |created| && forall k: nat :: k < |created| ==> Kept(zips[k], created, k, files, notes)
  }

  /** These are the archives of the plan's groups. */
  ghost predicate AreZips(source: Source, groups: seq<Group>, crc: Checksum, zips: seq<seq<Written>>) {
    |zips| == |groups| && forall k :: 0 <= k < |groups| ==> GroupZip(source, groups[k], crc) == Some(zips[k])
  }

  method NoteSources(entries: seq<Written>) returns (sources: map<string, string>)
    requires Distinct(Names(entries))
    ensures forall e :: e in entries ==> e.name in sources && sources[e.name] == e.source
  {
    sources := map[];
    for i := 0 to |entries|
      invariant forall k :: 0 <= k < i ==> entries[k].name in sources && sources[entries[k].name] == entries[k].source
    {
      assert forall k :: 0 <= k < i ==> Names(entries)[k] != Names(entries)[i];
      sources := sources[entries[i].name := entries[i].source];
    }
  }

  lemma {:induction false} MadeOneMore(zips: seq<seq<Written>>, created: seq<string>, files: map<string, File>,
                                       notes: map<string, map<string, string>>, target: string, zip: seq<Written>,
                                       notes': map<string, map<string, string>>)
    requires Made(zips, created, files, notes) && Noted(notes', target, zip)
    requires forall t :: t in notes && t != target ==> t in notes' && notes'[t] == notes[t]
    ensures Made(zips + [zip], created + [target], files[target := Zip(zip)], notes')
  {
    var more, files' := created + [target], files[target := Zip(zip)];
    forall k: nat | k < |created|
      ensures Kept(zips[k], more, k, files', notes')
    {
      assert Kept(zips[k], created, k, files, notes);
      if Stays(more, k) {
        assert more[|created|] != more[k];
        assert forall m :: k < m < |created| ==> more[m] == created[m];
        assert Stays(created, k);
      }
    }
  }

  /** One group: creates its file, and fills it. */
  method WriteGroup(source: Source, group: Group, folder: Folder, crc: Checksum,
                    notes: map<string, map<string, string>>)
    returns (target: string, zip: Option<seq<Written>>, notes': map<string, map<string, string>>)
    modifies folder
    ensures target == TargetOf(old(folder.files).Keys, group.zipName, crc) && zip == GroupZip(source, group, crc)
    ensures folder.files == old(folder.files)[target := Zip(zip.GetOr([]))]
    ensures zip.Some? ==> Noted(notes', target, zip.value)
    ensures forall t :: t in notes && t != target ==> t in notes' && notes'[t] == notes[t]
  {
    target := TargetOf(folder.files.Keys, group.zipName, crc);
    folder.Put(target, Zip([]));
    notes' := notes;
    var selected := SelectFiles(source.files, group);
    var written := WriteFiles(source, selected, crc);
    zip := written;
    if written.Some? {
      folder.Put(target, Zip(written.value));
      if selected != [] {
        var sources := NoteSources(written.value);
        notes' := notes[target := sources];
      }
    }
  }

  /** Files of the folder that are nobody's target are as before. */
  ghost predicate Untouched(before: map<string, File>, after: map<string, File>, targets: seq<string>) {
    forall n :: n in before && n !in targets ==> n in after && after[n] == before[n]
  }

  lemma {:induction false} UntouchedStays(before: map<string, File>, files: map<string, File>, targets: seq<string>,
                                          target: string, file: File)
    requires Untouched(before, files, targets) && target in targets
    ensures Untouched(before, files[target := file], targets)
  {
  }

  lemma {:induction false} ElementsOneMore(names: seq<string>, name: string)
    ensures Elements(names + [name]) == Elements(names) + {name}
  {
  }

  lemma {:induction false} ZipsOneMore(source: Source, groups: seq<Group>, n: nat, crc: Checksum,
                                       zips: seq<seq<Written>>, zip: seq<Written>)
    requires n < |groups| && AreZips(source, groups[..n], crc, zips) && GroupZip(source, groups[n], crc) == Some(zip)
    ensures AreZips(source, groups[..n + 1], crc, zips + [zip])
  {
    assert forall k :: 0 <= k < n ==> groups[..n + 1][k] == groups[..n][k] && (zips + [zip])[k] == zips[k];
  }

  /** The groups of the job, in order, until one cannot be written. */
  method WriteGroups(source: Source, groups: seq<Group>, folder: Folder, crc: Checksum)
    returns (done: bool, created: seq<string>, notes: map<string, map<string, string>>, ghost zips: seq<seq<Written>>)
    modifies folder
    ensures done <==> forall g :: g in groups ==> GroupZip(source, g, crc).Some?
    ensures done ==> created == Targets(old(folder.files).Keys, ZipNames(groups), crc)
                     && AreZips(source, groups, crc, zips) && Made(zips, created, folder.files, notes)
    ensures done ==> folder.files.Keys == old(folder.files).Keys + Elements(created)
    ensures Untouched(old(folder.files), folder.files, Targets(old(folder.files).Keys, ZipNames(groups), crc))
  {
    created, notes, zips := [], map[], [];
    ghost var before := folder.files;
    for i := 0 to |groups|
      invariant created == Targets(before.Keys, ZipNames(groups[..i]), crc)
      invariant folder.files.Keys == before.Keys + Elements(created)
      invariant AreZips(source, groups[..i], crc, zips) && Made(zips, created, folder.files, notes)
      invariant Untouched(before, folder.files, Targets(before.Keys, ZipNames(groups), crc))
    {
      TargetsOneMore(before.Keys, groups, i, crc);
      ghost var files := folder.files;
      var target, zip, notes' := WriteGroup(source, groups[i], folder, crc, notes);
      UntouchedStays(before, files, Targets(before.Keys, ZipNames(groups), crc), target, Zip(zip.GetOr([])));
      if zip.None? {
        return false, created, notes, zips;
      }
      ElementsOneMore(created, target);
      ZipsOneMore(source, groups, i, crc, zips, zip.value);
      MadeOneMore(zips, created, files, notes, target, zip.value, notes');
      created, notes, zips := created + [target], notes', zips + [zip.value];
    }
    assert groups[..|groups|] == groups;
    done := true;
  }
}
