/**
  The tree view of an archive with nested archives unfolded: `collect_split_tree_entries`. A nested archive
  may contain itself; the view stops at a depth.
 */
module SplitTree {
  import opened Text
  import opened FileNames

  const MAX_NESTED_TREE_DEPTH: nat := 6

  type ArchiveId = nat

  datatype Entry = Entry(name: string, isRegularFile: bool, isPage: bool)

  /** An archive's entries, and the archives its nested ones turn out to be when they can be read. */
  datatype Listing = Listing(entries: seq<Entry>, nested: map<string, ArchiveId>)

  type Store = map<ArchiveId, Listing>

  function Entries(store: Store, a: ArchiveId): seq<Entry> {
    if a in store then store[a].entries else []
  }

  /** The archive behind an entry, when it can be read and listed. */
  function Child(store: Store, a: ArchiveId, name: string): Option<ArchiveId> {
    if a in store && name in store[a].nested && store[a].nested[name] in store then Some(store[a].nested[name])
        else None
  }

  /** Which names are taken for archives; the program's test is `IsArchiveName`. */
  type NameTest = string -> bool

  predicate IsNested(test: NameTest, e: Entry) {
    e.isRegularFile && test(e.name)
  }

  // ----- The nesting tree

  datatype Tree = Leaf(entry: Entry) | Node(name: string, children: seq<Tree>)

  /** The nesting tree of an archive, cut below `levels` levels: an archive at the cut is a plain file. */
  ghost function Cut(test: NameTest, store: Store, a: ArchiveId, levels: nat): seq<Tree>
    decreases levels, 1, 0
  {
    CutEntries(test, store, a, Entries(store, a), levels)
  }

  ghost function CutEntries(test: NameTest, store: Store, a: ArchiveId, entries: seq<Entry>, levels: nat): seq<Tree>
    decreases levels, 0, |entries|
  {
    if entries == [] then []
    else [CutEntry(test, store, a, entries[0], levels)] + CutEntries(test, store, a, entries[1..], levels)
  }

  ghost function CutEntry(test: NameTest, store: Store, a: ArchiveId, e: Entry, levels: nat): Tree
    decreases levels, 0, 0
  {
    if !IsNested(test, e) then Leaf(e)
    else if levels == 0 then Leaf(Entry(e.name, true, false))
    else
      var child := Child(store, a, e.name);
      Node(e.name, if child.Some? then Cut(test, store, child.value, levels - 1) else [])
  }

  /** A name below a chain of enclosing archives. */
  function Under(chain: seq<string>, name: string): string {
    Join(chain + [name], '/')
  }

  /** Preorder, every name preceded by its enclosing archives' names. */
  ghost function Preorder(trees: seq<Tree>, chain: seq<string>): seq<Entry>
    decreases trees
  {
    if trees == [] then [] else PreorderOf(trees[0], chain) + Preorder(trees[1..], chain)
  }

  ghost function PreorderOf(tree: Tree, chain: seq<string>): seq<Entry>
    decreases tree
  {
    match tree
    case Leaf(e) => [e.(name := Under(chain, e.name))]
    case Node(name, children) => [Entry(Under(chain, name), false, false)] + Preorder(children, chain + [name])
  }

  // ----- The walk

  class EntryList {
    var items: seq<Entry>

    constructor ()
      ensures items == []
    {
      items := [];
    }

    method Push(e: Entry)
      modifies this
      ensures items == old(items) + [e]
    {
      items := items + [e];
    }
  }

  lemma {:induction false} JoinMore(parts: seq<string>, last: string, sep: char)
    requires parts != []
    ensures Join(parts + [last], sep) == Join(parts, sep) + [sep] + last
  {
    if |parts| > 1 {
      JoinMore(parts[1..], last, sep);
      assert (parts + [last])[1..] == parts[1..] + [last];
      assert Join(parts + [last], sep) == parts[0] + [sep] + (Join(parts[1..], sep) + [sep] + last);
      assert Join(parts, sep) == parts[0] + [sep] + Join(parts[1..], sep);
    } else {
      assert (parts + [last])[1..] == [last];
    }
  }

  /** No enclosing archive has an empty name, so an empty prefix stands for no archive at all. */
  ghost predicate IsPrefix(prefix: string, chain: seq<string>) {
    prefix == Join(chain, '/') && (prefix == "" <==> chain == [])
  }

  /** The name below the prefix. */
  method Qualify(prefix: string, name: string, ghost chain: seq<string>) returns (qualified: string)
    requires IsPrefix(prefix, chain)
    ensures qualified == Under(chain, name)
    ensures name != "" ==> IsPrefix(qualified, chain + [name])
  {
    if chain != [] {
      JoinMore(chain, name, '/');
    } else {
      assert chain + [name] == [name];
    }
    qualified := if prefix == "" then name else prefix + "/" + name;
  }

  /** The lines one entry contributes, case by case. */
  lemma {:induction false} EntryLines(test: NameTest, store: Store, a: ArchiveId, e: Entry, levels: nat,
                                      chain: seq<string>)
    ensures var lines := PreorderOf(CutEntry(test, store, a, e, levels), chain);
            var name, child := Under(chain, e.name), Child(store, a, e.name);
            && (!IsNested(test, e) ==> lines == [Entry(name, e.isRegularFile, e.isPage)])
            && (IsNested(test, e) && levels == 0 ==> lines == [Entry(name, true, false)])
            && (IsNested(test, e) && levels > 0 && child.None? ==> lines == [Entry(name, false, false)])
            && (IsNested(test, e) && levels > 0 && child.Some? ==>
                  lines == [Entry(name, false, false)]
                           + Preorder(Cut(test, store, child.value, levels - 1), chain + [e.name]))
  {
    assert Preorder([], chain + [e.name]) == [];
  }

  /** A nested archive above the cut: a folder line, and below it its contents when it can be read. */
  method CollectNested(test: NameTest, store: Store, a: ArchiveId, e: Entry, name: string, depth: nat, limit: nat,
                       out: EntryList, ghost chain: seq<string>)
    requires depth < limit && IsPrefix(name, chain) && !test("")
    modifies out
    ensures var child := Child(store, a, e.name);
            out.items == old(out.items) + ([Entry(name, false, false)]
                         + if child.Some? then Preorder(Cut(test, store, child.value, limit - depth - 1), chain)
                             else [])
    decreases limit - depth, 0, 0
  {
    out.Push(Entry(name, false, false));
    var child := Child(store, a, e.name);
    if child.Some? {
      CollectEntries(test, store, child.value, Entries(store, child.value), name, depth + 1, limit, out, chain);
    }
  }

  /** One entry: its own line, and below it the contents of a nested archive that can be read. */
  method CollectEntry(test: NameTest, store: Store, a: ArchiveId, e: Entry, prefix: string, depth: nat, limit: nat,
                      out: EntryList, ghost chain: seq<string>)
    requires depth <= limit && IsPrefix(prefix, chain) && !test("")
    modifies out
    ensures out.items == old(out.items) + PreorderOf(CutEntry(test, store, a, e, limit - depth), chain)
    decreases limit - depth, 0, 1
  {
    var name := Qualify(prefix, e.name, chain);
    EntryLines(test, store, a, e, limit - depth, chain);
    if IsNested(test, e) {
      if depth < limit {
        CollectNested(test, store, a, e, name, depth, limit, out, chain + [e.name]);
      } else {
        out.Push(Entry(name, true, false));
      }
    } else {
      out.Push(Entry(name, e.isRegularFile, e.isPage));
    }
  }

  /** `collect_split_tree_entries`: the preorder of the nesting tree cut at the depth limit is appended. */
  method CollectEntries(test: NameTest, store: Store, a: ArchiveId, entries: seq<Entry>, prefix: string, depth: nat,
                        limit: nat, out: EntryList, ghost chain: seq<string>)
    requires depth <= limit && IsPrefix(prefix, chain) && !test("")
    modifies out
    ensures out.items == old(out.items) + Preorder(CutEntries(test, store, a, entries, limit - depth), chain)
    decreases limit - depth, 1, 0
  {
    ghost var levels := limit - depth;
    ghost var all := Preorder(CutEntries(test, store, a, entries, levels), chain);
    ghost var before := out.items;
    assert entries[0..] == entries;
    for i := 0 to |entries|
      invariant before + all == out.items + Preorder(CutEntries(test, store, a, entries[i..], levels), chain)
    {
      UnfoldFirst(test, store, a, entries[i..], levels, chain);
      assert entries[i..][1..] == entries[i + 1..];
      CollectEntry(test, store, a, entries[i], prefix, depth, limit, out, chain);
    }
  }

  lemma {:induction false} UnfoldFirst(test: NameTest, store: Store, a: ArchiveId, entries: seq<Entry>, levels: nat,
                                       chain: seq<string>)
    requires entries != []
    ensures Preorder(CutEntries(test, store, a, entries, levels), chain)
         == PreorderOf(CutEntry(test, store, a, entries[0], levels), chain)
          + Preorder(CutEntries(test, store, a, entries[1..], levels), chain)
  {
    var trees := CutEntries(test, store, a, entries, levels);
    assert trees[0] == CutEntry(test, store, a, entries[0], levels)
           && trees[1..] == CutEntries(test, store, a, entries[1..], levels);
  }

  /** The whole view: from the archive itself, with no prefix, at depth zero. */
  method SplitTreeOf(store: Store, a: ArchiveId) returns (flat: seq<Entry>)
    ensures flat == Preorder(Cut(IsArchiveName, store, a, 6), [])
  {
    var out := new EntryList();
    CollectEntries(IsArchiveName, store, a, Entries(store, a), "", 0, MAX_NESTED_TREE_DEPTH, out, []);
    flat := out.items;
  }

  // ----- What the view shows

  /** Going down from `a` through nested archives of these names ends in `b`. */
  ghost predicate Descends(test: NameTest, store: Store, a: ArchiveId, chain: seq<string>, b: ArchiveId)
    decreases |chain|
  {
    if chain == [] then a == b
    else
      && (exists e :: e in Entries(store, a) && IsNested(test, e) && e.name == chain[0])
      && Child(store, a, chain[0]).Some?
      && Descends(test, store, Child(store, a, chain[0]).value, chain[1..], b)
  }

  /** How an entry is listed with this many levels left. */
  function Shown(test: NameTest, e: Entry, chain: seq<string>, left: nat): Entry {
    if IsNested(test, e) then Entry(Under(chain, e.name), left == 0, false) else e.(name := Under(chain, e.name))
  }

  /** `x` is the line of an entry of `b`, an archive nested at most `levels` deep below `a`. */
  ghost predicate LineOf(test: NameTest, store: Store, a: ArchiveId, levels: nat, outer: seq<string>, x: Entry,
                         chain: seq<string>, b: ArchiveId) {
    |chain| <= levels && Descends(test, store, a, chain, b)
    && exists e :: e in Entries(store, b) && x == Shown(test, e, outer + chain, levels - |chain|)
  }

  /** A line of one entry, or a line from inside the archive it is. */
  ghost predicate LineFrom(test: NameTest, store: Store, a: ArchiveId, levels: nat, outer: seq<string>, x: Entry,
                           e: Entry) {
    || x == Shown(test, e, outer, levels)
    || (IsNested(test, e) && levels > 0 && Child(store, a, e.name).Some?
        && x in Preorder(Cut(test, store, Child(store, a, e.name).value, levels - 1), outer + [e.name]))
  }

  lemma {:induction false} LinesOfEntries(test: NameTest, store: Store, a: ArchiveId, entries: seq<Entry>, levels: nat,
                                          outer: seq<string>, x: Entry)
    ensures x in Preorder(CutEntries(test, store, a, entries, levels), outer)
       <==> exists e :: e in entries && LineFrom(test, store, a, levels, outer, x, e)
    decreases |entries|
  {
    if entries != [] {
      UnfoldFirst(test, store, a, entries, levels, outer);
      LinesOfEntries(test, store, a, entries[1..], levels, outer, x);
      LinesOfEntry(test, store, a, entries[0], levels, outer, x);
      assert forall e :: e in entries <==> e == entries[0] || e in entries[1..];
    }
  }

  lemma {:induction false} LinesOfEntry(test: NameTest, store: Store, a: ArchiveId, e: Entry, levels: nat,
                                        outer: seq<string>, x: Entry)
    ensures x in PreorderOf(CutEntry(test, store, a, e, levels), outer)
            <==> LineFrom(test, store, a, levels, outer, x, e)
  {
    if IsNested(test, e) && levels > 0 && Child(store, a, e.name).None? {
      assert Preorder([], outer + [e.name]) == [];
    }
  }

  lemma {:induction false} LongerChain(test: NameTest, store: Store, a: ArchiveId, levels: nat, outer: seq<string>,
                                       x: Entry, e: Entry, chain: seq<string>, b: ArchiveId)
    requires levels > 0 && e in Entries(store, a) && IsNested(test, e) && Child(store, a, e.name).Some?
    requires LineOf(test, store, Child(store, a, e.name).value, levels - 1, outer + [e.name], x, chain, b)
    ensures LineOf(test, store, a, levels, outer, x, [e.name] + chain, b)
  {
    var longer := [e.name] + chain;
    assert longer[1..] == chain;
    assert (outer + [e.name]) + chain == outer + longer;
  }

  lemma {:induction false} ViewIsSound(test: NameTest, store: Store, a: ArchiveId, levels: nat, outer: seq<string>,
                                       x: Entry)
    returns (chain: seq<string>, b: ArchiveId)
    requires x in Preorder(Cut(test, store, a, levels), outer)
    ensures LineOf(test, store, a, levels, outer, x, chain, b)
    decreases levels
  {
    LinesOfEntries(test, store, a, Entries(store, a), levels, outer, x);
    var e :| e in Entries(store, a) && LineFrom(test, store, a, levels, outer, x, e);
    if x == Shown(test, e, outer, levels) {
      assert outer + [] == outer;
      chain, b := [], a;
    } else {
      chain, b := ViewIsSound(test, store, Child(store, a, e.name).value, levels - 1, outer + [e.name], x);
      LongerChain(test, store, a, levels, outer, x, e, chain, b);
      chain := [e.name] + chain;
    }
  }

  lemma {:induction false} ViewIsComplete(test: NameTest, store: Store, a: ArchiveId, levels: nat, outer: seq<string>,
                                          x: Entry, chain: seq<string>, b: ArchiveId)
    requires LineOf(test, store, a, levels, outer, x, chain, b)
    ensures x in Preorder(Cut(test, store, a, levels), outer)
    decreases levels
  {
    LinesOfEntries(test, store, a, Entries(store, a), levels, outer, x);
    if chain == [] {
      assert outer + chain == outer;
      var e :| e in Entries(store, a) && x == Shown(test, e, outer, levels);
      assert LineFrom(test, store, a, levels, outer, x, e);
    } else {
      var e := ShorterChain(test, store, a, levels, outer, x, chain, b);
      ViewIsComplete(test, store, Child(store, a, e.name).value, levels - 1, outer + [e.name], x, chain[1..], b);
      assert LineFrom(test, store, a, levels, outer, x, e);
    }
  }

  lemma {:induction false} ShorterChain(test: NameTest, store: Store, a: ArchiveId, levels: nat, outer: seq<string>,
                                        x: Entry, chain: seq<string>, b: ArchiveId) returns (e: Entry)
    requires chain != [] && LineOf(test, store, a, levels, outer, x, chain, b)
    ensures e in Entries(store, a) && IsNested(test, e) && Child(store, a, e.name).Some? && levels > 0
    ensures LineOf(test, store, Child(store, a, e.name).value, levels - 1, outer + [e.name], x, chain[1..], b)
  {
    e :| e in Entries(store, a) && IsNested(test, e) && e.name == chain[0];
    assert (outer + [e.name]) + chain[1..] == outer + chain;
  }

  /** A name with the archives around it in front, outermost first. */
  function NameWithin(chain: seq<string>, name: string): string {
    if chain == [] then name else chain[0] + "/" + NameWithin(chain[1..], name)
  }

  lemma {:induction false} UnderIsWithin(chain: seq<string>, name: string)
    ensures Under(chain, name) == NameWithin(chain, name)
  {
    if chain != [] {
      UnderIsWithin(chain[1..], name);
      assert (chain + [name])[1..] == chain[1..] + [name];
    }
  }

  /** The archives of these names lie one inside the other: each is a regular file, and can be read and listed. */
  ghost predicate LiesWithin(test: NameTest, store: Store, a: ArchiveId, chain: seq<string>, b: ArchiveId)
    decreases |chain|
  {
    if chain == [] then a == b
    else
      && a in store && (exists e :: e in store[a].entries && e.isRegularFile && e.name == chain[0]) && test(chain[0])
      && chain[0] in store[a].nested && store[a].nested[chain[0]] in store
      && LiesWithin(test, store, store[a].nested[chain[0]], chain[1..], b)
  }

  /** The line of an entry: a nested archive is a folder, or a plain file when no level is left; others stay. */
  ghost predicate IsLineFor(test: NameTest, e: Entry, chain: seq<string>, left: nat, x: Entry) {
    && x.name == NameWithin(chain, e.name)
    && (if e.isRegularFile && test(e.name) then (x.isRegularFile <==> left == 0) && !x.isPage
        else x.isRegularFile == e.isRegularFile && x.isPage == e.isPage)
  }

  lemma {:induction false} DescendsIsWithin(test: NameTest, store: Store, a: ArchiveId, chain: seq<string>,
                                            b: ArchiveId)
    ensures Descends(test, store, a, chain, b) <==> LiesWithin(test, store, a, chain, b)
    decreases |chain|
  {
    if chain != [] && Child(store, a, chain[0]).Some? {
      DescendsIsWithin(test, store, Child(store, a, chain[0]).value, chain[1..], b);
    }
  }

  /** `x` is the line of an entry of an archive at most `levels` deep. */
  ghost predicate IsEntryLine(test: NameTest, store: Store, a: ArchiveId, levels: nat, x: Entry, chain: seq<string>,
                              b: ArchiveId) {
    && |chain| <= levels && LiesWithin(test, store, a, chain, b) && b in store
    && exists e :: e in store[b].entries && IsLineFor(test, e, chain, levels - |chain|, x)
  }

  lemma {:induction false} LineIsEntryLine(test: NameTest, store: Store, a: ArchiveId, levels: nat, x: Entry,
                                           chain: seq<string>, b: ArchiveId)
    ensures LineOf(test, store, a, levels, [], x, chain, b) <==> IsEntryLine(test, store, a, levels, x, chain, b)
  {
    DescendsIsWithin(test, store, a, chain, b);
    assert [] + chain == chain;
    if LineOf(test, store, a, levels, [], x, chain, b) {
      var e :| e in Entries(store, b) && x == Shown(test, e, [] + chain, levels - |chain|);
      UnderIsWithin(chain, e.name);
      assert e in store[b].entries && IsLineFor(test, e, chain, levels - |chain|, x);
    }
    if IsEntryLine(test, store, a, levels, x, chain, b) {
      var e :| e in store[b].entries && IsLineFor(test, e, chain, levels - |chain|, x);
      UnderIsWithin(chain, e.name);
      assert e in Entries(store, b) && x == Shown(test, e, [] + chain, levels - |chain|);
    }
  }

  /**
    The view holds exactly the entries of the archives reached by going down at most `levels` nested
    archives, each named by the archives above it, and a nested archive is a plain file exactly at the cut.
   */
  lemma {:induction false} ViewIsExact(test: NameTest, store: Store, a: ArchiveId, levels: nat, x: Entry)
    ensures x in Preorder(Cut(test, store, a, levels), [])
            <==> exists chain, b :: IsEntryLine(test, store, a, levels, x, chain, b)
  {
    if x in Preorder(Cut(test, store, a, levels), []) {
      var chain, b := ViewIsSound(test, store, a, levels, [], x);
      LineIsEntryLine(test, store, a, levels, x, chain, b);
    }
    if chain, b :| IsEntryLine(test, store, a, levels, x, chain, b) {
      LineIsEntryLine(test, store, a, levels, x, chain, b);
      ViewIsComplete(test, store, a, levels, [], x, chain, b);
    }
  }

  /** Entries are listed in their own order: the lines of the first ones, then the lines of the rest. */
  lemma {:induction false} ListedInOrder(test: NameTest, store: Store, a: ArchiveId, first: seq<Entry>,
                                         rest: seq<Entry>, levels: nat, outer: seq<string>)
    ensures Preorder(CutEntries(test, store, a, first + rest, levels), outer)
         == Preorder(CutEntries(test, store, a, first, levels), outer)
          + Preorder(CutEntries(test, store, a, rest, levels), outer)
    decreases |first|
  {
    if first == [] {
      assert first + rest == rest;
    } else {
      assert (first + rest)[1..] == first[1..] + rest;
      UnfoldFirst(test, store, a, first + rest, levels, outer);
      UnfoldFirst(test, store, a, first, levels, outer);
      ListedInOrder(test, store, a, first[1..], rest, levels, outer);
    }
  }

  /** An archive that contains only itself is listed once per level and once more as a file. */
  lemma {:induction false} SelfContainingEnds(test: NameTest, store: Store, a: ArchiveId, e: Entry, levels: nat,
                                              outer: seq<string>)
    requires Entries(store, a) == [e] && IsNested(test, e) && Child(store, a, e.name) == Some(a)
    ensures |Preorder(Cut(test, store, a, levels), outer)| == levels + 1
    ensures forall i :: 0 <= i <= levels ==>
              Preorder(Cut(test, store, a, levels), outer)[i].isRegularFile == (i == levels)
    decreases levels
  {
    UnfoldFirst(test, store, a, [e], levels, outer);
    assert Preorder(CutEntries(test, store, a, [], levels), outer) == [];
    if levels > 0 {
      SelfContainingEnds(test, store, a, e, levels - 1, outer + [e.name]);
    }
  }
}
