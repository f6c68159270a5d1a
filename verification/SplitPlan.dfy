/**
  A split plan against the archive's regular files: `validate_coverage` and the selection of each group's files.
 */
module SplitPlan {
  import opened Text

  datatype Group = Group(zipName: string, sourceDirs: seq<string>, sourceFiles: seq<string>)

  ghost predicate UnderDir(f: string, group: Group) {
    exists d :: d in group.sourceDirs && StartsWith(f, d + "/")
  }

  /** What `validate_coverage` counts as assigned. */
  ghost predicate CoveredBy(f: string, group: Group) {
    UnderDir(f, group) || f in group.sourceFiles
  }

  ghost predicate Covered(f: string, groups: seq<Group>) {
    exists g :: g in groups && CoveredBy(f, g)
  }

  /** What the job takes into a group's archive: also a file named like one of the directories. */
  ghost predicate Selected(f: string, group: Group) {
    CoveredBy(f, group) || f in group.sourceDirs
  }

  predicate Prefixes(some: seq<string>, all: seq<string>) {
    |some| <= |all| && all[..|some|] == some
  }

  lemma {:induction false} JoinBehind(a: seq<string>, b: seq<string>, sep: char)
    requires a != [] && b != []
    ensures Join(a + b, sep) == Join(a, sep) + [sep] + Join(b, sep)
  {
    if |a| == 1 {
      assert (a + b)[1..] == b;
    } else {
      JoinBehind(a[1..], b, sep);
      assert (a + b)[1..] == a[1..] + b;
      JoinHead(a, sep);
      JoinHead(a + b, sep);
      assert Join(a + b, sep) == a[0] + ([sep] + (Join(a[1..], sep) + [sep] + Join(b, sep)));
    }
  }

  /** A file lies under a directory exactly when its path begins with all components of the directory's. */
  lemma {:induction false} UnderByComponents(f: string, d: string)
    ensures StartsWith(f, d + "/") <==> Prefixes(Split(d, '/'), Split(f, '/')) && f != d
  {
    var parts, all := Split(d, '/'), Split(f, '/');
    JoinSplit(d, '/');
    JoinSplit(f, '/');
    if StartsWith(f, d + "/") {
      var rest := f[|d| + 1..];
      assert f == d + ['/'] + rest;
      SplitTwo(d, rest, '/');
    }
    if Prefixes(parts, all) && f != d {
      var rest := all[|parts|..];
      assert all == parts + rest && all != parts;
      JoinBehind(parts, rest, '/');
      assert f == d + "/" + Join(rest, '/');
      assert f[..|d| + 1] == d + "/";
    }
  }

  /**
    A group takes the files it lists, those that bear a directory's name, and those whose path begins with a
    directory's components; the check counts all but the second kind.
   */
  lemma {:induction false} SelectedByComponents(f: string, group: Group)
    ensures Selected(f, group)
        <==> f in group.sourceFiles || exists d :: d in group.sourceDirs && Prefixes(Split(d, '/'), Split(f, '/'))
    ensures CoveredBy(f, group)
        <==> f in group.sourceFiles
             || exists d :: d in group.sourceDirs && f != d && Prefixes(Split(d, '/'), Split(f, '/'))
  {
    forall d | d in group.sourceDirs
      ensures StartsWith(f, d + "/") <==> Prefixes(Split(d, '/'), Split(f, '/')) && f != d
    {
      UnderByComponents(f, d);
    }
  }

  method IsUnder(f: string, dirs: seq<string>) returns (b: bool)
    ensures b <==> exists d :: d in dirs && StartsWith(f, d + "/")
  {
    b := false;
    for i := 0 to |dirs|
      invariant b <==> exists d :: d in dirs[..i] && StartsWith(f, d + "/")
    {
      assert dirs[..i + 1] == dirs[..i] + [dirs[i]];
      assert dirs[i] in dirs[..i + 1];
      b := b || StartsWith(f, dirs[i] + "/");
    }
    assert dirs[..|dirs|] == dirs;
  }

  /** The files some directory of the group is a proper prefix of. */
  method FilesUnder(allFiles: set<string>, dirs: seq<string>) returns (found: set<string>)
    ensures found == set f | f in allFiles && exists d :: d in dirs && StartsWith(f, d + "/")
  {
    found := {};
    var left := allFiles;
    while left != {}
      invariant left <= allFiles
      invariant found == set f | f in allFiles - left && exists d :: d in dirs && StartsWith(f, d + "/")
      decreases left
    {
      var f :| f in left;
      var under := IsUnder(f, dirs);
      if under {
        found := found + {f};
      }
      left := left - {f};
    }
  }

  /** `validate_coverage`: the unassigned files; none means the plan is accepted. */
  method ValidateCoverage(allFiles: set<string>, groups: seq<Group>) returns (missing: set<string>)
    ensures missing == set f | f in allFiles && !Covered(f, groups)
  {
    var covered: set<string> := {};
    for i := 0 to |groups|
      invariant forall f :: f in allFiles ==> (f in covered <==> Covered(f, groups[..i]))
    {
      var under := FilesUnder(allFiles, groups[i].sourceDirs);
      CoveredOneMore(groups, i);
      covered := covered + under + set f | f in groups[i].sourceFiles;
    }
    assert groups[..|groups|] == groups;
    missing := allFiles - covered;
  }

  lemma {:induction false} CoveredOneMore(groups: seq<Group>, i: nat)
    requires i < |groups|
    ensures forall f :: Covered(f, groups[..i + 1]) <==> Covered(f, groups[..i]) || CoveredBy(f, groups[i])
  {
    assert groups[..i + 1] == groups[..i] + [groups[i]];
    assert forall g :: g in groups[..i + 1] <==> g in groups[..i] || g == groups[i];
  }

  /** The group's files, in archive order. */
  ghost function GroupFiles(files: seq<string>, group: Group): (selected: seq<string>)
    ensures forall f :: f in selected <==> f in files && Selected(f, group)
  {
    if files == [] then []
    else
      var last := |files| - 1;
      assert forall f :: f in files <==> f in files[..last] || f == files[last];
      GroupFiles(files[..last], group) + if Selected(files[last], group) then [files[last]] else []
  }

  method SelectFiles(files: seq<string>, group: Group) returns (selected: seq<string>)
    ensures selected == GroupFiles(files, group)
  {
    selected := [];
    for i := 0 to |files|
      invariant selected == GroupFiles(files[..i], group)
    {
      assert files[..i + 1][..i] == files[..i];
      var under := IsUnder(files[i], group.sourceDirs);
      if under || files[i] in group.sourceDirs || files[i] in group.sourceFiles {
        selected := selected + [files[i]];
      }
    }
    assert files[..|files|] == files;
  }

  /** The positions of the archive a group takes. */
  ghost function Positions(files: seq<string>, group: Group): (at: seq<nat>)
    ensures forall k :: 0 <= k < |at| ==> at[k] < |files|
  {
    if files == [] then []
    else
      var last := |files| - 1;
      Positions(files[..last], group) + if Selected(files[last], group) then [last] else []
  }

  /** Each group's list is exactly the selected positions of the archive, each once and in ascending order. */
  lemma {:induction false} SelectedInOrder(files: seq<string>, group: Group)
    ensures var at, selected := Positions(files, group), GroupFiles(files, group);
            && |at| == |selected| && (forall k :: 0 <= k < |at| ==> selected[k] == files[at[k]])
            && forall k, l :: 0 <= k < l < |at| ==> at[k] < at[l]
    ensures forall i: nat :: i in Positions(files, group) <==> i < |files| && Selected(files[i], group)
  {
    if files != [] {
      var last := |files| - 1;
      var earlier := files[..last];
      SelectedInOrder(earlier, group);
      assert forall i :: 0 <= i < last ==> earlier[i] == files[i];
      var at := Positions(files, group);
      forall i: nat
        ensures i in at <==> i < |files| && Selected(files[i], group)
      {
        assert i in at <==> i in Positions(earlier, group) || (i == last && Selected(files[last], group));
      }
    }
  }

  /**
    A plan is accepted exactly when every regular file lies under a group's directory or is listed, and
    then every file is taken into some group. The job loses no file exactly when each is covered or bears
    a directory's own name; the check is stricter by those.
   */
  lemma {:induction false} AcceptedPlansLoseNothing(files: seq<string>, groups: seq<Group>)
    ensures (forall f :: f in files ==> Covered(f, groups)) ==>
              forall f :: f in files ==> exists g :: g in groups && f in GroupFiles(files, g)
    ensures (forall f :: f in files ==> exists g :: g in groups && f in GroupFiles(files, g))
        <==> forall f :: f in files ==> Covered(f, groups) || exists g :: g in groups && f in g.sourceDirs
  {
    forall f | f in files
      ensures (exists g :: g in groups && f in GroupFiles(files, g))
          <==> Covered(f, groups) || exists g :: g in groups && f in g.sourceDirs
    {
      if Covered(f, groups) {
        var g :| g in groups && CoveredBy(f, g);
        assert f in GroupFiles(files, g);
      }
      if g :| g in groups && f in g.sourceDirs {
        assert Selected(f, g) && f in GroupFiles(files, g);
      }
    }
  }

  /** A file that bears a directory's own name: the check refuses the plan, the job would take the file. */
  lemma {:induction false} NamesakeIsTaken(name: string)
    ensures var group := Group("c.zip", [name], []);
            !Covered(name, [group]) && GroupFiles([name], group) == [name]
  {
    var group := Group("c.zip", [name], []);
    assert Selected(name, group) && !UnderDir(name, group);
    assert [name][..0] == [] && GroupFiles([name], group) == GroupFiles([], group) + [name];
  }
}
