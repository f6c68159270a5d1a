/**
  Writing a group's files into one flat ZIP: `write_zip_entry` and the names it gives.
 */
module SplitZip {
  type Rename = string -> string

  ghost predicate Distinct(names: seq<string>) {
    forall i, j :: 0 <= i < j < |names| ==> names[i] != names[j]
  }

  /** The name an entry is written under, after those in `written`. */
  function OutName(written: seq<string>, name: string, rename: Rename): string {
    if name in written then rename(name) else name
  }

  /** The names a whole list is written under. */
  function Assign(names: seq<string>, rename: Rename): (out: seq<string>)
    ensures |out| == |names|
  {
    if names == [] then []
    else
      var earlier := Assign(names[..|names| - 1], rename);
      earlier + [OutName(earlier, names[|names| - 1], rename)]
  }

  lemma {:induction false} AssignPrefix(names: seq<string>, k: nat, rename: Rename)
    requires k <= |names|
    ensures Assign(names[..k], rename) == Assign(names, rename)[..k]
  {
    if k < |names| {
      var last := |names| - 1;
      assert names[..last][..k] == names[..k];
      AssignPrefix(names[..last], k, rename);
    } else {
      assert names[..k] == names;
    }
  }

  /** One entry of the assignment: the plain name unless an earlier entry took it. */
  lemma {:induction false} AssignAt(names: seq<string>, k: nat, rename: Rename)
    requires k < |names|
    ensures Assign(names, rename)[k] == OutName(Assign(names, rename)[..k], names[k], rename)
  {
    AssignPrefix(names, k + 1, rename);
    AssignPrefix(names, k, rename);
    assert names[..k + 1][..k] == names[..k];
    assert Assign(names, rename)[..k + 1][k] == Assign(names, rename)[k];
  }

  /**
    Every name is written either plain or renamed, and a name that occurs is written plain at its first
    occurrence at the latest.
   */
  lemma {:induction false} PlainIsTaken(names: seq<string>, k: nat, rename: Rename)
    requires k < |names|
    ensures names[k] in Assign(names, rename)[..k + 1] || rename(names[k]) == Assign(names, rename)[k]
    ensures names[k] in Assign(names, rename)[..k + 1]
  {
    AssignAt(names, k, rename);
    var out := Assign(names, rename);
    assert out[..k + 1] == out[..k] + [out[k]];
  }

  ghost predicate Repeats(names: seq<string>, i: nat)
    requires i < |names|
  {
    exists j :: 0 <= j < |names| && j != i && names[j] == names[i]
  }

  /** No repeated name's renamed form is an entry's plain name, or another repeated name's renamed form. */
  ghost predicate RenamesApart(names: seq<string>, rename: Rename) {
    && (forall i: nat, j: nat :: i < |names| && j < |names| && Repeats(names, i) ==> rename(names[i]) != names[j])
    && forall i: nat, j: nat :: i < |names| && j < |names| && Repeats(names, i) && Repeats(names, j) ==>
         rename(names[i]) == rename(names[j]) ==> names[i] == names[j]
  }

  ghost predicate AtMostTwice(names: seq<string>) {
    forall i, j, k :: 0 <= i < j < k < |names| && names[i] == names[j] ==> names[k] != names[i]
  }

  /** Three files of one name always clash: the second and the third get the same renamed form. */
  lemma {:induction false} ThirdClashes(names: seq<string>, i: nat, j: nat, k: nat, rename: Rename)
    requires i < j < k < |names| && names[i] == names[j] == names[k]
    ensures !Distinct(Assign(names, rename))
  {
    var out := Assign(names, rename);
    PlainIsTaken(names, i, rename);
    AssignAt(names, j, rename);
    AssignAt(names, k, rename);
    assert forall n :: n in out[..i + 1] ==> n in out[..j] && n in out[..k];
    assert out[j] == rename(names[i]) && out[k] == rename(names[i]);
  }

  /**
    Where renamed forms stand apart from everything else, the written names are distinct exactly when no
    name occurs three times: the renamed form is not checked against the names already taken.
   */
  lemma {:induction false} WrittenNamesDistinctExactly(names: seq<string>, rename: Rename)
    requires RenamesApart(names, rename)
    ensures Distinct(Assign(names, rename)) <==> AtMostTwice(names)
  {
    if AtMostTwice(names) {
      forall i, j | 0 <= i < j < |names|
        ensures Assign(names, rename)[i] != Assign(names, rename)[j]
      {
        PairApart(names, i, j, rename);
      }
    } else {
      var i, j, k :| 0 <= i < j < k < |names| && names[i] == names[j] && names[k] == names[i];
      ThirdClashes(names, i, j, k, rename);
    }
  }

  /** With renames apart, an entry is written renamed exactly when its name occurred before. */
  lemma {:induction false} RenamedWhenRepeated(names: seq<string>, k: nat, rename: Rename)
    requires RenamesApart(names, rename) && k < |names|
    ensures Assign(names, rename)[k] == if names[k] in names[..k] then rename(names[k]) else names[k]
    decreases k
  {
    var out := Assign(names, rename);
    AssignAt(names, k, rename);
    if i :| 0 <= i < k && names[..k][i] == names[k] {
      PlainIsTaken(names, i, rename);
      assert forall n :: n in out[..i + 1] ==> n in out[..k];
    } else {
      forall i | 0 <= i < k
        ensures out[..k][i] != names[k]
      {
        RenamedWhenRepeated(names, i, rename);
        assert names[..k][i] == names[i];
        OccurredRepeats(names, i);
      }
    }
  }

  lemma {:induction false} OccurredRepeats(names: seq<string>, k: nat)
    requires k < |names|
    ensures names[k] in names[..k] ==> Repeats(names, k)
  {
    if names[k] in names[..k] {
      var i :| 0 <= i < k && names[..k][i] == names[k];
      assert names[i] == names[k];
    }
  }

  lemma {:induction false} PairApart(names: seq<string>, i: nat, j: nat, rename: Rename)
    requires RenamesApart(names, rename) && AtMostTwice(names) && i < j < |names|
    ensures Assign(names, rename)[i] != Assign(names, rename)[j]
  {
    RenamedWhenRepeated(names, i, rename);
    RenamedWhenRepeated(names, j, rename);
    OccurredRepeats(names, i);
    OccurredRepeats(names, j);
    assert names[..j][i] == names[i];
    assert forall h :: 0 <= h < i ==> names[..i][h] == names[h];
  }

  /**
    Outside that: a file that already bears the renamed form makes the second of a name clash, none
    being there three times.
   */
  lemma {:induction false} RenamedFormClashes(name: string, rename: Rename)
    requires rename(name) != name
    ensures !Distinct(Assign([rename(name), name, name], rename)) && AtMostTwice([rename(name), name, name])
  {
    var names := [rename(name), name, name];
    var out := Assign(names, rename);
    AssignAt(names, 0, rename);
    AssignAt(names, 1, rename);
    AssignAt(names, 2, rename);
    assert out[0] == rename(name) && out[1] == name;
    assert out[..2][1] == name;
    assert out[2] == rename(name);
  }

  // ----- The writer

  /** An entry of the generated archive and the file of the original it came from. */
  datatype Written = Written(name: string, source: string)

  function Names(entries: seq<Written>): (names: seq<string>)
    ensures |names| == |entries| && forall i :: 0 <= i < |names| ==> names[i] == entries[i].name
  {
    seq(|entries|, i requires 0 <= i < |entries| => entries[i].name)
  }

  /**
    A ZIP under construction: what was written, and the `seen` set. A name already in the ZIP is an
    error of the writer.
   */
  class ZipOutput {
    var entries: seq<Written>
    var seen: set<string>

    ghost predicate Valid()
      reads this
    {
      (forall n :: n in seen <==> n in Names(entries)) && Distinct(Names(entries))
    }

    constructor ()
      ensures Valid() && entries == []
    {
      entries, seen := [], {};
    }

    /** `write_zip_entry`, and the caller's note of where the entry came from. */
    method Write(name: string, source: string, rename: Rename) returns (ok: bool)
      requires Valid()
      modifies this
      ensures var out := OutName(old(Names(entries)), name, rename);
              && (ok <==> out !in old(Names(entries)))
              && (ok ==> Valid() && entries == old(entries) + [Written(out, source)])
    {
      var out := name;
      if out in seen {
        out := rename(name);
      }
      if out in seen {
        return false;
      }
      seen := seen + {out};
      entries := entries + [Written(out, source)];
      assert Names(entries) == old(Names(entries)) + [out];
      ok := true;
    }
  }
}
