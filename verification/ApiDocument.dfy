/**
  The API reference generator: layers are merged into operations, gates compare them with the route
  policy, and the emitted operations state who may call them.
 */
module ApiDocument {
  import opened Text
  import opened PathPattern
  import opened RoutePolicy

  datatype Json =
    | Str(text: string)
    | Flag(on: bool)
    | List(items: seq<Json>)
    | Object(fields: map<string, Json>)
    | Scalar

  type Fields = map<string, Json>

  /** One method on one absolute path, as the source scan found it. */
  datatype Registration = Registration(route: Route, area: string, handler: Option<string>, location: string)

  /** What the two layers supply: whole operations, and the names of the schemas they define. */
  datatype Layers = Layers(sidecar: map<Route, Json>, legacy: map<Route, Json>, sidecarSchemas: set<string>,
                           legacySchemas: set<string>)

  // ----- merge

  predicate HasResponses(fields: Fields) {
    "responses" in fields && fields["responses"].Object? && fields["responses"].fields != map[]
  }

  predicate HasId(fields: Fields) {
    "operationId" in fields && fields["operationId"].Str? && fields["operationId"].text != ""
  }

  function Id(fields: Fields): string
    requires HasId(fields)
  {
    fields["operationId"].text
  }

  function Derived(registration: Registration): Json {
    Object(map["summary" := Str(registration.handler.GetOr("endpoint")), "description" := Str(registration.location),
               "responses" := Object(map["200" := Object(map[])])])
  }

  function FirstTag(fields: Fields, fallback: string): string {
    if "tags" in fields && fields["tags"].List? && fields["tags"].items != [] && fields["tags"].items[0].Str?
    then fields["tags"].items[0].text else fallback
  }

  // `strip_upstream_key_marker`: a key in a summary goes, and white space closes up behind it.

  const KEY_MARKER: char := '\U{1F511}'

  function Without(s: string, c: char): (kept: string)
    ensures c !in kept && forall d :: d in kept ==> d in s
  {
    if s == "" then "" else (if s[0] == c then "" else [s[0]]) + Without(s[1..], c)
  }

  /** The length of the word at the start. */
  function WordEnd(s: string): (k: nat)
    ensures k <= |s| && (k < |s| ==> IsSpace(s[k], NEXT_LINE))
    ensures forall i :: 0 <= i < k ==> !IsSpace(s[i], NEXT_LINE)
  {
    if s == "" || IsSpace(s[0], NEXT_LINE) then 0 else 1 + WordEnd(s[1..])
  }

  predicate IsWord(w: string) {
    w != "" && forall i :: 0 <= i < |w| ==> !IsSpace(w[i], NEXT_LINE)
  }

  function Words(s: string): (words: seq<string>)
    ensures forall w :: w in words ==> IsWord(w)
    decreases |s|
  {
    if s == "" then []
    else if IsSpace(s[0], NEXT_LINE) then Words(s[1..])
    else [s[..WordEnd(s)]] + Words(s[WordEnd(s)..])
  }

  function Cleaned(summary: string): string {
    Join(Words(Without(summary, KEY_MARKER)), ' ')
  }

  function Unmarked(fields: Fields): Fields {
    if "summary" in fields && fields["summary"].Str? && KEY_MARKER in fields["summary"].text
    then fields["summary" := Str(Cleaned(fields["summary"].text))] else fields
  }

  lemma {:induction false} WordsOfJoin(words: seq<string>)
    requires forall w :: w in words ==> IsWord(w)
    ensures Words(Join(words, ' ')) == words
  {
    if words != [] {
      assert IsWord(words[0]);
      assert words[1..] == [] || IsWord(words[1]);
      var rest := if |words| == 1 then "" else [' '] + Join(words[1..], ' ');
      assert Join(words, ' ') == words[0] + rest;
      FirstWord(words[0], rest);
      if |words| > 1 {
        assert rest[1..] == Join(words[1..], ' ');
        WordsOfJoin(words[1..]);
      }
    }
  }

  lemma {:induction false} FirstWord(word: string, rest: string)
    requires IsWord(word) && (rest == "" || IsSpace(rest[0], NEXT_LINE))
    ensures Words(word + rest) == [word] + Words(rest)
  {
    var s := word + rest;
    var k := WordEnd(s);
    assert forall i :: 0 <= i < |word| ==> s[i] == word[i];
    assert forall i :: 0 <= i < |word| ==> !IsSpace(s[i], NEXT_LINE);
    assert rest != "" ==> s[|word|] == rest[0];
    assert s[..k] == word && s[k..] == rest;
  }

  function Concat(parts: seq<string>): string {
    if parts == [] then "" else parts[0] + Concat(parts[1..])
  }

  /** Text without a character is its pieces between the places where that stood. */
  lemma {:induction false} WithoutIsRest(s: string, c: char)
    ensures Without(s, c) == Concat(Split(s, c))
  {
    if s != "" {
      WithoutIsRest(s[1..], c);
      var rest := Split(s[1..], c);
      if s[0] == c {
        assert ([""] + rest)[1..] == rest;
      } else {
        assert ([[s[0]] + rest[0]] + rest[1..])[1..] == rest[1..];
      }
    }
  }

  /** A cleaned summary keeps every word that is left without the marker, in order, with single spaces between. */
  lemma {:induction false} CleaningKeepsWords(summary: string)
    ensures Words(Cleaned(summary)) == Words(Concat(Split(summary, '\U{1F511}')))
    ensures Cleaned(summary) == Join(Words(Cleaned(summary)), ' ') && '\U{1F511}' !in Cleaned(summary)
  {
    WithoutIsRest(summary, KEY_MARKER);
    var words := Words(Without(summary, KEY_MARKER));
    WordsOfJoin(words);
    WordsArePart(Without(summary, KEY_MARKER));
    JoinIsFree(words, KEY_MARKER);
  }

  lemma {:induction false} WordsArePart(s: string)
    ensures forall w, c :: w in Words(s) && c in w ==> c in s
    decreases |s|
  {
    if s != "" {
      if IsSpace(s[0], NEXT_LINE) {
        WordsArePart(s[1..]);
      } else {
        WordsArePart(s[WordEnd(s)..]);
      }
    }
  }

  lemma {:induction false} JoinIsFree(words: seq<string>, c: char)
    requires c != ' ' && forall w :: w in words ==> c !in w
    ensures c !in Join(words, ' ')
  {
    if |words| > 1 {
      JoinIsFree(words[1..], c);
    }
  }

  /** `finish_operation`: whatever a layer claimed about security is dropped; a response is always there. */
  function Finish(fields: Fields, registration: Registration, source: string): (finished: Fields)
    ensures "security" !in finished && HasResponses(finished)
  {
    var bare := fields - {"security", "x-mojo-to"};
    var tagged := bare["tags" := List([Str(FirstTag(bare, registration.area))])]
                      ["x-lanrurugi-source" := Str(registration.location)]
                      ["x-lanrurugi-schema-source" := Str(source)];
    var marked := if source == "none" then tagged["x-lanrurugi-undocumented" := Flag(true)]
                  else tagged - {"x-lanrurugi-undocumented"};
    assert "200" in map["200" := Object(map[])];
    if HasResponses(marked) then marked else marked["responses" := Object(map["200" := Object(map[])])]
  }

  /** `operation_id_from_handler`: underscores go, the letter after one is capitalised. */
  function CamelCase(name: string, upperNext: bool): string {
    if name == "" then ""
    else if name[0] == '_' then CamelCase(name[1..], true)
    else [if upperNext then UpperChar(name[0]) else name[0]] + CamelCase(name[1..], false)
  }

  function IdFromHandler(handler: string): (id: string)
    ensures id != ""
  {
    var out := CamelCase(handler, false);
    if out == "" then "handler" else out
  }

  function Capital(word: string): string {
    if word == "" then "" else [UpperChar(word[0])] + word[1..]
  }

  function Capitals(words: seq<string>): string {
    if words == [] then "" else Capital(words[0]) + Capitals(words[1..])
  }

  predicate IsNameWord(word: string) {
    word != "" && '_' !in word
  }

  /** `list_archives` becomes `listArchives`: every word but the first gets a capital, and nothing else changes. */
  lemma {:induction false} HandlerWords(words: seq<string>)
    requires words != [] && forall w :: w in words ==> IsNameWord(w)
    ensures IdFromHandler(Join(words, '_')) == words[0] + Capitals(words[1..])
  {
    assert words[0] in words;
    CamelWords(words, false);
  }

  lemma {:induction false} CamelWords(words: seq<string>, upperNext: bool)
    requires words != [] && forall w :: w in words ==> IsNameWord(w)
    ensures CamelCase(Join(words, '_'), upperNext)
         == (if upperNext then Capital(words[0]) else words[0]) + Capitals(words[1..])
  {
    var first := words[0];
    assert first in words;
    if |words| == 1 {
      assert first + "" == first;
      CamelWord(first, "", upperNext);
    } else {
      var rest := Join(words[1..], '_');
      assert forall w :: w in words[1..] ==> w in words;
      CamelWords(words[1..], true);
      JoinHead(words, '_');
      CamelWord(first, ['_'] + rest, upperNext);
      assert (['_'] + rest)[1..] == rest && words[1..][1..] == words[2..];
      assert Capitals(words[1..]) == Capital(words[1]) + Capitals(words[2..]);
    }
  }

  lemma {:induction false} CamelWord(word: string, rest: string, upperNext: bool)
    requires '_' !in word
    ensures CamelCase(word + rest, upperNext)
         == (if word == "" then CamelCase(rest, upperNext)
             else (if upperNext then Capital(word) else word) + CamelCase(rest, false))
  {
    if word == "" {
      assert word + rest == rest;
    } else {
      assert (word + rest)[1..] == word[1..] + rest && word[0] in word;
      CamelWord(word[1..], rest, false);
      assert [word[0]] + word[1..] == word;
    }
  }

  /** What stands behind a name that is taken: the path's segments with underscores between them. */
  lemma {:induction false} PathWords(base: string, words: seq<string>)
    requires words != [] && forall w :: w in words ==> IsPathWord(w)
    ensures WithPath(base, "/" + Join(words, '/')) == base + "_" + Join(words, '_')
  {
    var joined := Join(words, '/');
    JoinEnds(words, '_');
    JoinEnds(words, '/');
    UnderscoredJoin(words);
    assert ("/" + joined)[1..] == joined && ("/" + joined)[0] == '/';
    assert DropLeading("/" + joined, '/') == DropLeading(joined, '/') == joined;
  }

  /** Of a path that is one parameter its name is left: the underscores at either end go. */
  lemma {:induction false} PathParameter(base: string, name: string)
    requires IsPathWord(name)
    ensures WithPath(base, "/{" + name + "}") == base + "_" + name
  {
    var braced := "{" + name + "}";
    assert ("/" + braced)[1..] == braced && ("/" + braced)[0] == '/' && braced[0] == '{';
    assert DropLeading("/" + braced, '/') == DropLeading(braced, '/') == braced;
    assert "/{" + name + "}" == "/" + braced;
    assert Underscored(name) == name && Underscored(braced) == "_" + (name + "_");
    TrimmedTo("_", name, "_", '_');
  }

  predicate OnlyOf(s: string, c: char) {
    forall i :: 0 <= i < |s| ==> s[i] == c
  }

  lemma {:induction false} TrimmedTo(lead: string, core: string, tail: string, c: char)
    requires OnlyOf(lead, c) && OnlyOf(tail, c) && core != "" && core[0] != c && core[|core| - 1] != c
    ensures TrimChar(lead + (core + tail), c) == core
    decreases |lead| + |tail|
  {
    var s := lead + (core + tail);
    if lead != "" {
      assert s[1..] == lead[1..] + (core + tail);
      TrimmedTo(lead[1..], core, tail, c);
    } else if tail != "" {
      var shorter := tail[..|tail| - 1];
      assert s[..|s| - 1] == lead + (core + shorter) && s[0] == core[0];
      TrimmedTo(lead, core, shorter, c);
    } else {
      assert s == core;
    }
  }

  predicate IsPathWord(word: string) {
    word != "" && forall i :: 0 <= i < |word| ==>
      word[i] != '/' && word[i] != '{' && word[i] != '}' && word[i] != '-' && word[i] != '_'
  }

  lemma {:induction false} JoinEnds(words: seq<string>, sep: char)
    requires words != [] && forall w :: w in words ==> IsPathWord(w)
    ensures var joined := Join(words, sep);
            && joined != "" && joined[0] != '/' && joined[0] != '_'
            && joined[|joined| - 1] != '/' && joined[|joined| - 1] != '_'
  {
    assert words[0] in words;
    if |words| > 1 {
      assert forall w :: w in words[1..] ==> w in words;
      JoinEnds(words[1..], sep);
    }
  }

  lemma {:induction false} UnderscoredJoin(words: seq<string>)
    requires forall w :: w in words ==> IsPathWord(w)
    ensures Underscored(Join(words, '/')) == Join(words, '_')
  {
    if words != [] {
      assert words[0] in words && Underscored(words[0]) == words[0];
      if |words| > 1 {
        assert forall w :: w in words[1..] ==> w in words;
        UnderscoredJoin(words[1..]);
        var rest := Join(words[1..], '/');
        assert Underscored(words[0] + ['/'] + rest) == Underscored(words[0]) + ['_'] + Underscored(rest);
      }
    }
  }

  function Underscored(s: string): string {
    seq(|s|, i requires 0 <= i < |s| => if s[i] in "/{}-" then '_' else s[i])
  }

  function TrimChar(s: string, c: char): string {
    if s != "" && s[0] == c then TrimChar(s[1..], c)
    else if s != "" && s[|s| - 1] == c then TrimChar(s[..|s| - 1], c)
    else s
  }

  function DropLeading(s: string, c: char): string {
    if s != "" && s[0] == c then DropLeading(s[1..], c) else s
  }

  function Numbered(base: string, bump: nat): string {
    base + "_" + Digits(bump)
  }

  lemma NumberedInjective(base: string, i: nat, j: nat)
    requires Numbered(base, i) == Numbered(base, j)
    ensures i == j
  {
    assert Numbered(base, i)[|base| + 1..] == Digits(i);
    assert Numbered(base, j)[|base| + 1..] == Digits(j);
    DigitsInjective(i, j);
  }

  /** The taken names the counter can still run into. */
  ghost function Ahead(taken: set<string>, base: string, bump: nat): set<string> {
    set id | id in taken && exists k: nat :: bump <= k && id == Numbered(base, k)
  }

  lemma AheadShrinks(taken: set<string>, base: string, bump: nat)
    ensures Ahead(taken, base, bump + 1) <= Ahead(taken, base, bump)
    ensures Numbered(base, bump) in taken ==> Ahead(taken, base, bump + 1) < Ahead(taken, base, bump)
  {
    if Numbered(base, bump) in taken {
      if Numbered(base, bump) in Ahead(taken, base, bump + 1) {
        var k: nat :| bump + 1 <= k && Numbered(base, bump) == Numbered(base, k);
        NumberedInjective(base, bump, k);
      }
      assert Numbered(base, bump) in Ahead(taken, base, bump);
    }
  }

  /** The name an operation asks for: its own, or one made from its handler, or from its path. */
  function BaseId(fields: Fields, registration: Registration): (id: string)
    ensures id != ""
  {
    if HasId(fields) then Id(fields) else IdFromHandler(registration.handler.GetOr(registration.route.path))
  }

  function WithPath(base: string, path: string): string {
    base + "_" + TrimChar(Underscored(DropLeading(path, '/')), '_')
  }

  /**
    `assign_operation_id`: the name asked for when it is free, else with the path behind it, else with the
    first number from 2 on that is free; the counter always finds one.
   */
  method AssignId(fields: Fields, registration: Registration, taken: set<string>) returns (id: string)
    ensures id !in taken && id != ""
    ensures var base := BaseId(fields, registration);
            var longer := WithPath(base, registration.route.path);
            if base !in taken then id == base
            else if longer !in taken then id == longer
            else exists k: nat :: k >= 2 && id == Numbered(base, k) && forall l: nat :: 2 <= l < k ==>
                Numbered(base, l) in taken
  {
    var base := BaseId(fields, registration);
    id := base;
    if id in taken {
      id := WithPath(base, registration.route.path);
    }
    ghost var first := id;
    var bump := 2;
    while id in taken
      invariant bump >= 2 && id != "" && (base !in taken ==> id == base == first)
      invariant id == if bump == 2 then first else Numbered(base, bump - 1)
      invariant bump > 2 ==> first in taken
      invariant forall l: nat :: 2 <= l < bump - 1 ==> Numbered(base, l) in taken
      decreases Ahead(taken, base, bump), if id in taken then 1 else 0
    {
      AheadShrinks(taken, base, bump);
      id := Numbered(base, bump);
      bump := bump + 1;
    }
  }

  function IdOf(operation: Json): Option<string> {
    if operation.Object? && HasId(operation.fields) then Some(Id(operation.fields)) else None
  }

  ghost predicate DistinctIds(operations: map<Route, Json>) {
    forall a, b :: a in operations && b in operations && a != b && IdOf(operations[a]).Some? ==>
      IdOf(operations[a]) != IdOf(operations[b])
  }

  /** What the merge promises of one operation object. */
  ghost predicate Finished(operation: Json, taken: set<string>) {
    operation.Object? ==>
      "security" !in operation.fields && HasResponses(operation.fields)
      && HasId(operation.fields) && Id(operation.fields) in taken
  }

  ghost predicate SoundOperations(operations: map<Route, Json>, taken: set<string>) {
    (forall route :: route in operations ==> Finished(operations[route], taken)) && DistinctIds(operations)
  }

  ghost predicate DistinctRoutes(registrations: seq<Registration>, n: nat)
    requires n <= |registrations|
  {
    forall i, j :: 0 <= i < j < n ==> registrations[i].route != registrations[j].route
  }

  ghost function RoutesOf(registrations: seq<Registration>, n: nat): set<Route>
    requires n <= |registrations|
  {
    set i | 0 <= i < n :: registrations[i].route
  }

  function Source(layers: Layers, registration: Registration): (Json, string) {
    if registration.route in layers.sidecar then (layers.sidecar[registration.route], "sidecar")
    else if registration.route in layers.legacy then (layers.legacy[registration.route], "legacy")
    else (Derived(registration), "none")
  }

  /** No schema is defined by both layers; the merge stops when one is. */
  predicate SchemasApart(layers: Layers) {
    layers.sidecarSchemas !! layers.legacySchemas
  }

  /**
    `merge`: it fails exactly when a sidecar schema takes an upstream name. Otherwise the registered routes
    and nothing else are described, whole operations replace each other, and the structural gates hold by
    construction, except where a layer supplies something that is not an object. The counts agree exactly
    when no route is registered twice.
   */
  method Merge(registrations: seq<Registration>, layers: Layers) returns (merged: Option<map<Route, Json>>)
    ensures merged.Some? <==> SchemasApart(layers)
    ensures merged.Some? ==>
              && merged.value.Keys == RoutesOf(registrations, |registrations|)
              && (exists taken :: SoundOperations(merged.value, taken)) && AsSupplied(layers, merged.value)
              && NoNameTwice(merged.value) && AllNamed(merged.value)
              && (|merged.value| == |registrations| <==> DistinctRoutes(registrations, |registrations|))
              && (DistinctRoutes(registrations, |registrations|) ==>
                    KeepsIds(layers, merged.value)
                    && AllSayWhere(registrations, |registrations|, layers, merged.value))
  {
    if !SchemasApart(layers) {
      return None;
    }
    var operations, taken := MergeOperations(registrations, layers);
    NamesAreIds(operations);
    merged := Some(operations);
  }

  method MergeOperations(registrations: seq<Registration>, layers: Layers)
    returns (operations: map<Route, Json>, taken: set<string>)
    ensures operations.Keys == RoutesOf(registrations, |registrations|)
    ensures SoundOperations(operations, taken)
    ensures AsSupplied(layers, operations)
    ensures |operations| == |registrations| <==> DistinctRoutes(registrations, |registrations|)
    ensures DistinctRoutes(registrations, |registrations|) ==>
              KeepsIds(layers, operations) && AllSayWhere(registrations, |registrations|, layers, operations)
  {
    operations, taken := map[], {};
    MergedNothing(registrations, layers);
    for n := 0 to |registrations|
      invariant MergedSoFar(registrations, n, layers, operations, taken)
    {
      var value, grown := Describe(registrations[n], layers, taken);
      MergedOneMore(registrations, n, layers, operations, taken, value, grown);
      operations, taken := operations[registrations[n].route := value], grown;
    }
    if DistinctRoutes(registrations, |registrations|) {
      TakenIsHeld(layers, operations, taken);
    }
  }

  /** What holds after the first `n` registrations; a route that comes again gives its earlier name away. */
  ghost predicate MergedSoFar(registrations: seq<Registration>, n: nat, layers: Layers, operations: map<Route, Json>,
                              taken: set<string>)
    requires n <= |registrations|
  {
    && operations.Keys == RoutesOf(registrations, n) && SoundOperations(operations, taken)
    && AsSupplied(layers, operations) && NamesTaken(layers, operations, taken)
    && |operations| <= n && (|operations| == n <==> DistinctRoutes(registrations, n))
    && (DistinctRoutes(registrations, n) ==>
          AllHeld(operations, taken) && AllSayWhere(registrations, n, layers, operations))
  }

  lemma MergedNothing(registrations: seq<Registration>, layers: Layers)
    ensures MergedSoFar(registrations, 0, layers, map[], {})
  {
  }

  lemma MergedOneMore(registrations: seq<Registration>, n: nat, layers: Layers, operations: map<Route, Json>,
                      taken: set<string>, value: Json, grown: set<string>)
    requires n < |registrations| && MergedSoFar(registrations, n, layers, operations, taken)
    requires SuppliedAt(layers, registrations[n].route, value) && Finished(value, grown)
    requires grown == (if IdOf(value).Some? then taken + {IdOf(value).value} else taken)
    requires IdOf(value).Some? ==> IdOf(value).value !in taken
    requires value.Object? ==> SaysWhere(registrations[n], SuppliedFields(layers, registrations[n].route), value.fields)
    requires forall id :: value.Object? && IsNamed(SuppliedFields(layers, registrations[n].route), id) ==> id in grown
    ensures MergedSoFar(registrations, n + 1, layers, operations[registrations[n].route := value], grown)
  {
    var route := registrations[n].route;
    AddSound(operations, taken, route, value, grown);
    CountOneMore(registrations, n, operations, value);
    SuppliedOneMore(layers, operations, route, value);
    NamesOneMore(layers, operations, taken, route, value, grown);
    if DistinctRoutes(registrations, n + 1) {
      HeldOneMore(operations, taken, route, value, grown);
      SaysWhereOneMore(registrations, n, layers, operations, value);
    }
  }

  ghost predicate AllSayWhere(registrations: seq<Registration>, n: nat, layers: Layers, operations: map<Route, Json>)
    requires n <= |registrations|
  {
    forall i :: 0 <= i < n && registrations[i].route in operations && operations[registrations[i].route].Object? ==>
      SaysWhere(registrations[i], SuppliedFields(layers, registrations[i].route),
                operations[registrations[i].route].fields)
  }

  /** Every name a layer gives a described route is taken. */
  ghost predicate NamesTaken(layers: Layers, operations: map<Route, Json>, taken: set<string>) {
    forall route, id :: route in operations && IsNamed(SuppliedFields(layers, route), id) ==> id in taken
  }

  ghost predicate IsHeld(operations: map<Route, Json>, id: string) {
    exists route :: route in operations && IdOf(operations[route]) == Some(id)
  }

  ghost predicate AllHeld(operations: map<Route, Json>, taken: set<string>) {
    forall id :: id in taken ==> IsHeld(operations, id)
  }

  lemma NamesOneMore(layers: Layers, operations: map<Route, Json>, taken: set<string>, route: Route, value: Json,
                     grown: set<string>)
    requires NamesTaken(layers, operations, taken) && taken <= grown && SuppliedAt(layers, route, value)
    requires forall id :: value.Object? && IsNamed(SuppliedFields(layers, route), id) ==> id in grown
    ensures NamesTaken(layers, operations[route := value], grown)
  {
    assert !value.Object? ==> SuppliedFields(layers, route) == map[];
  }

  lemma HeldOneMore(operations: map<Route, Json>, taken: set<string>, route: Route, value: Json, grown: set<string>)
    requires AllHeld(operations, taken) && route !in operations
    requires grown == (if IdOf(value).Some? then taken + {IdOf(value).value} else taken)
    ensures AllHeld(operations[route := value], grown)
  {
    var more := operations[route := value];
    forall id | id in grown
      ensures IsHeld(more, id)
    {
      if id in taken {
        var holder :| holder in operations && IdOf(operations[holder]) == Some(id);
        assert more[holder] == operations[holder];
      } else {
        assert more[route] == value;
      }
    }
  }

  lemma SaysWhereOneMore(registrations: seq<Registration>, n: nat, layers: Layers, operations: map<Route, Json>,
                         value: Json)
    requires n < |registrations| && DistinctRoutes(registrations, n + 1)
    requires AllSayWhere(registrations, n, layers, operations)
    requires value.Object? ==> SaysWhere(registrations[n], SuppliedFields(layers, registrations[n].route), value.fields)
    ensures AllSayWhere(registrations, n + 1, layers, operations[registrations[n].route := value])
  {
  }

  lemma TakenIsHeld(layers: Layers, operations: map<Route, Json>, taken: set<string>)
    requires NamesTaken(layers, operations, taken) && AllHeld(operations, taken)
    ensures KeepsIds(layers, operations)
  {
    forall route, id | route in operations && IsNamed(SuppliedFields(layers, route), id)
      ensures exists holder :: holder in operations && operations[holder].Object?
                               && IsNamed(operations[holder].fields, id)
    {
      assert IsHeld(operations, id);
      var holder :| holder in operations && IdOf(operations[holder]) == Some(id);
      assert IsNamed(operations[holder].fields, id);
    }
  }

  ghost predicate SameAt(key: string, before: Fields, after: Fields) {
    if key in before then key in after && after[key] == before[key] else key !in after
  }

  /** The fields the merge itself writes or drops. */
  predicate IsStamped(key: string) {
    key == "security" || key == "x-mojo-to" || key == "tags" || key == "responses" || key == "operationId"
    || key == "x-lanrurugi-source" || key == "x-lanrurugi-schema-source" || key == "x-lanrurugi-undocumented"
  }

  /** The fields emission writes. */
  predicate IsPolicyField(key: string) {
    key == "security" || key == "x-lanrurugi-token-role" || key == "x-lanrurugi-guest-visible"
    || key == "x-lanrurugi-access-notes" || key == "description"
  }

  /** The layer that describes a route: the sidecar before the legacy document, none when neither does. */
  function LayerOf(layers: Layers, route: Route): (string, Option<Json>) {
    if route in layers.sidecar then ("sidecar", Some(layers.sidecar[route]))
    else if route in layers.legacy then ("legacy", Some(layers.legacy[route]))
    else ("none", None)
  }

  /** An operation names the layer it comes from and keeps all that layer says, but for the fields written over. */
  ghost predicate Carries(layers: Layers, route: Route, fields: Fields, emitted: bool) {
    var (layer, supplied) := LayerOf(layers, route);
    && "x-lanrurugi-schema-source" in fields && fields["x-lanrurugi-schema-source"] == Str(layer)
    && ("x-lanrurugi-undocumented" in fields <==> layer == "none")
    && (supplied.Some? ==> supplied.value.Object? && KeepsSupplied(supplied.value.fields, fields, emitted))
    && (supplied.None? ==> forall key :: key in fields && !(emitted && IsPolicyField(key)) ==>
          IsStamped(key) || key == "summary" || key == "description")
  }

  /** What the layer says of a route, when it says it with an object. */
  function SuppliedFields(layers: Layers, route: Route): Fields {
    var supplied := LayerOf(layers, route).1;
    if supplied.Some? && supplied.value.Object? then supplied.value.fields else map[]
  }

  function Field(fields: Fields, key: string): Option<Json> {
    if key in fields then Some(fields[key]) else None
  }

  /** The tag that heads the operation: the layer's first one, if it is text, else the area of the source. */
  ghost predicate IsTag(tag: string, supplied: Fields, area: string) {
    var given := Field(supplied, "tags");
    if given.Some? && given.value.List? && |given.value.items| > 0 && given.value.items[0].Str?
    then given.value.items[0] == Str(tag) else tag == area
  }

  /** The operation says where it is registered, under which one tag, and some response; no foreign controller. */
  ghost predicate SaysWhere(registration: Registration, supplied: Fields, fields: Fields) {
    && Field(fields, "x-lanrurugi-source") == Some(Str(registration.location)) && "x-mojo-to" !in fields
    && (exists tag :: IsTag(tag, supplied, registration.area) && Field(fields, "tags") == Some(List([Str(tag)])))
    && (exists responses: Fields ::
          Field(fields, "responses") == Some(Object(responses))
          && if Field(supplied, "responses") == Some(Object(responses)) then responses != map[] else "200" in responses)
  }

  /** Nothing the layer calls an operation is lost: some operation bears that name. */
  ghost predicate KeepsIds(layers: Layers, operations: map<Route, Json>) {
    forall route, id :: route in operations && IsNamed(SuppliedFields(layers, route), id) ==>
      exists holder :: holder in operations && operations[holder].Object? && IsNamed(operations[holder].fields, id)
  }

  predicate IsNamed(fields: Fields, id: string) {
    id != "" && Field(fields, "operationId") == Some(Str(id))
  }

  /** No two operations bear one name. */
  ghost predicate NoNameTwice(operations: map<Route, Json>) {
    forall a, b, id :: a in operations && b in operations && a != b
                       && operations[a].Object? && operations[b].Object? ==>
      !(IsNamed(operations[a].fields, id) && IsNamed(operations[b].fields, id))
  }

  ghost predicate AllNamed(operations: map<Route, Json>) {
    forall route :: route in operations && operations[route].Object? ==>
      exists id :: IsNamed(operations[route].fields, id)
  }

  lemma NamesAreIds(operations: map<Route, Json>)
    ensures DistinctIds(operations) <==> NoNameTwice(operations)
    ensures (forall route :: route in operations && operations[route].Object? ==> HasId(operations[route].fields))
        <==> AllNamed(operations)
  {
    forall route | route in operations && operations[route].Object?
      ensures forall id :: IsNamed(operations[route].fields, id) <==> IdOf(operations[route]) == Some(id)
    {
    }
    forall route | route in operations && operations[route].Object? && HasId(operations[route].fields)
      ensures exists id :: IsNamed(operations[route].fields, id)
    {
      assert IsNamed(operations[route].fields, Id(operations[route].fields));
    }
    if !DistinctIds(operations) {
      var a, b :| a in operations && b in operations && a != b && IdOf(operations[a]).Some?
                  && IdOf(operations[a]) == IdOf(operations[b]);
      assert IsNamed(operations[a].fields, IdOf(operations[a]).value);
    }
  }

  ghost predicate KeepsSupplied(supplied: Fields, fields: Fields, emitted: bool) {
    && (forall key :: !IsStamped(key) && key != "summary" && !(emitted && IsPolicyField(key)) ==>
          SameAt(key, supplied, fields))
    && KeepsSummary(Field(supplied, "summary"), Field(fields, "summary"))
    && (forall given: Fields :: given != map[] && Field(supplied, "responses") == Some(Object(given)) ==>
          Field(fields, "responses") == Some(Object(given)))
  }

  /** The summary stays, but that one with the key marker in it is cleaned. */
  predicate KeepsSummary(given: Option<Json>, kept: Option<Json>) {
    kept == if given.Some? && given.value.Str? && '\U{1F511}' in given.value.text
            then Some(Str(Cleaned(given.value.text))) else given
  }

  /** An object carries its layer; anything else is passed through for the gates to refuse. */
  ghost predicate SuppliedAt(layers: Layers, route: Route, operation: Json) {
    && (operation.Object? <==> IsObject(layers, route))
    && (operation.Object? ==> Carries(layers, route, operation.fields, false))
    && (!operation.Object? ==> LayerOf(layers, route).1 == Some(operation))
  }

  ghost predicate AsSupplied(layers: Layers, operations: map<Route, Json>) {
    forall route :: route in operations ==> SuppliedAt(layers, route, operations[route])
  }

  lemma SuppliedOneMore(layers: Layers, operations: map<Route, Json>, route: Route, value: Json)
    requires AsSupplied(layers, operations) && SuppliedAt(layers, route, value)
    ensures AsSupplied(layers, operations[route := value])
  {
  }

  /** The layer that describes this route gives an object; a derived description always is one. */
  predicate IsObject(layers: Layers, route: Route) {
    if route in layers.sidecar then layers.sidecar[route].Object?
    else route in layers.legacy ==> layers.legacy[route].Object?
  }

  lemma CountOneMore(registrations: seq<Registration>, n: nat, operations: map<Route, Json>, value: Json)
    requires n < |registrations| && operations.Keys == RoutesOf(registrations, n)
    ensures var added := operations[registrations[n].route := value];
            && added.Keys == RoutesOf(registrations, n + 1)
            && |added| == |operations| + if registrations[n].route in operations then 0 else 1
    ensures DistinctRoutes(registrations, n + 1)
        <==> DistinctRoutes(registrations, n) && registrations[n].route !in operations
  {
    var route := registrations[n].route;
    var added := operations[route := value];
    assert added.Keys == operations.Keys + {route};
    assert |added| == |added.Keys| && |operations| == |operations.Keys|;
    RoutesOneMore(registrations, n);
    assert route in operations <==> exists i :: 0 <= i < n && registrations[i].route == route;
    DistinctOneMore(registrations, n);
  }

  lemma RoutesOneMore(registrations: seq<Registration>, n: nat)
    requires n < |registrations|
    ensures RoutesOf(registrations, n + 1) == RoutesOf(registrations, n) + {registrations[n].route}
  {
  }

  lemma DistinctOneMore(registrations: seq<Registration>, n: nat)
    requires n < |registrations|
    ensures DistinctRoutes(registrations, n + 1)
        <==> DistinctRoutes(registrations, n) && forall i :: 0 <= i < n ==>
            registrations[i].route != registrations[n].route
  {
  }

  /** One route's operation, finished and named; anything but an object is passed through as it is. */
  method Describe(registration: Registration, layers: Layers, taken: set<string>)
    returns (value: Json, grown: set<string>)
    ensures SuppliedAt(layers, registration.route, value)
    ensures Finished(value, grown) && grown == (if IdOf(value).Some? then taken + {IdOf(value).value} else taken)
    ensures IdOf(value).Some? ==> IdOf(value).value !in taken
    ensures value.Object? ==> SaysWhere(registration, SuppliedFields(layers, registration.route), value.fields)
    ensures forall id :: value.Object? && IsNamed(SuppliedFields(layers, registration.route), id) ==> id in grown
  {
    var (layered, source) := Source(layers, registration);
    value, grown := layered, taken;
    if layered.Object? {
      var fields := Finish(Unmarked(layered.fields), registration, source);
      var id := AssignId(fields, registration, taken);
      grown := taken + {id};
      value := Object(fields["operationId" := Str(id)]);
      DescribedWell(registration, layers, layered.fields, source, id);
    }
  }

  lemma DescribedWell(registration: Registration, layers: Layers, layered: Fields, source: string, id: string)
    requires Source(layers, registration) == (Object(layered), source) && id != ""
    ensures var fields := Finish(Unmarked(layered), registration, source);
            var named := fields["operationId" := Str(id)];
            && SuppliedAt(layers, registration.route, Object(named))
            && SaysWhere(registration, SuppliedFields(layers, registration.route), named)
            && (forall own :: IsNamed(SuppliedFields(layers, registration.route), own) ==>
                  BaseId(fields, registration) == own)
            && HasId(named) && Id(named) == id && "security" !in named && HasResponses(named)
  {
    FinishKeeps(layered, registration, source, id);
    FinishSaysWhere(layered, registration, source, id);
    if LayerOf(layers, registration.route).1.None? {
      DerivedIsPlain(registration, id);
    }
  }

  lemma FinishKeys(layered: Fields, registration: Registration, source: string, id: string)
    ensures var fields := Finish(Unmarked(layered), registration, source)["operationId" := Str(id)];
            forall key :: key in fields ==> IsStamped(key) || key in layered
  {
  }

  lemma DerivedIsPlain(registration: Registration, id: string)
    ensures Derived(registration).Object?
    ensures var derived := Derived(registration).fields;
            var fields := Finish(Unmarked(derived), registration, "none")["operationId" := Str(id)];
            && "tags" !in derived && "operationId" !in derived
            && forall key :: key in fields ==> IsStamped(key) || key == "summary" || key == "description"
  {
    var derived := Derived(registration).fields;
    DerivedKeys(registration);
    FinishKeys(derived, registration, "none", id);
  }

  lemma DerivedKeys(registration: Registration)
    ensures var derived := Derived(registration).fields;
            && "tags" !in derived && "operationId" !in derived
            && forall key :: key in derived ==> key == "responses" || key == "summary" || key == "description"
  {
  }

  lemma FinishSaysWhere(layered: Fields, registration: Registration, source: string, id: string)
    ensures var fields := Finish(Unmarked(layered), registration, source);
            var named := fields["operationId" := Str(id)];
            && SaysWhere(registration, layered, named)
            && forall own :: IsNamed(layered, own) ==> BaseId(fields, registration) == own
  {
    var fields := Finish(Unmarked(layered), registration, source);
    assert IsTag(FirstTag(layered, registration.area), layered, registration.area);
    assert SameAt("tags", layered, Unmarked(layered)) && SameAt("operationId", layered, Unmarked(layered));
    assert SameAt("operationId", layered, fields);
  }

  lemma FinishKeeps(supplied: Fields, registration: Registration, source: string, id: string)
    ensures var fields := Finish(Unmarked(supplied), registration, source)["operationId" := Str(id)];
            && KeepsSupplied(supplied, fields, false)
            && "x-lanrurugi-schema-source" in fields && fields["x-lanrurugi-schema-source"] == Str(source)
            && ("x-lanrurugi-undocumented" in fields <==> source == "none")
  {
  }

  lemma AddSound(operations: map<Route, Json>, taken: set<string>, route: Route, value: Json, grown: set<string>)
    requires SoundOperations(operations, taken)
    requires taken <= grown && Finished(value, grown)
    requires IdOf(value).Some? ==> IdOf(value).value !in taken
    ensures SoundOperations(operations[route := value], grown)
  {
    assert forall r :: r in operations && IdOf(operations[r]).Some? ==> IdOf(operations[r]).value in taken;
  }

  // ----- validate

  predicate IsApi(route: Route) {
    StartsWith(route.path, "/api")
  }

  predicate IsMutating(route: Route) {
    Upper(route.verb) in {"POST", "PUT", "PATCH", "DELETE"}
  }

  ghost predicate Integral(route: Route, operation: Json) {
    StartsWith(route.path, "/") && operation.Object? && HasResponses(operation.fields) && HasId(operation.fields)
  }

  /** Somebody reaches the route, and a guest token does not write. */
  ghost predicate Guarded(route: Route, rules: seq<Rule>) {
    IsApi(route) ==>
      && AccessFor(rules, route).Some? && !AccessFor(rules, route).value.IsUnreachable()
      && !(IsMutating(route) && Reaches(rules, route, TokenGuest))
  }

  ghost predicate GatesPass(registered: nat, operations: map<Route, Json>, rules: seq<Rule>) {
    && |operations| == registered
    && (forall route :: route in operations ==> Integral(route, operations[route]))
    && DistinctIds(operations)
    && (forall route :: route in operations ==> Guarded(route, rules))
    && (forall rule :: rule in rules ==> IsWide(rule) || exists route :: route in operations && Governs(rule, route))
  }

  /** Guarded by roles and verbs: some role reaches the route, and no guest token one of the four writing verbs. */
  lemma GuardedExactly(route: Route, rules: seq<Rule>)
    ensures Guarded(route, rules)
        <==> (StartsWith(route.path, "/api") ==>
                && (exists role :: Reaches(rules, route, role))
                && !(Reaches(rules, route, TokenGuest)
                     && (Upper(route.verb) == "POST" || Upper(route.verb) == "PUT" || Upper(route.verb) == "PATCH"
                         || Upper(route.verb) == "DELETE")))
  {
    forall role: Role {
      LoopsAgree(rules, route, role);
    }
  }

  method CheckPolicy(route: Route, rules: seq<Rule>) returns (ok: bool)
    ensures ok <==> Guarded(route, rules)
  {
    ok := true;
    if IsApi(route) {
      var access := AccessOf(rules, route.verb, route.path);
      if access.None? || access.value.IsUnreachable() {
        ok := false;
      }
      if IsMutating(route) {
        var guestWrites := Allows(rules, TokenGuest, route.verb, route.path);
        ok := ok && !guestWrites;
      }
    }
  }

  lemma PrefixGrows(keys: seq<Route>, n: nat)
    requires n < |keys|
    requires forall i, j :: 0 <= i < j < |keys| ==> keys[i] != keys[j]
    ensures keys[n] !in keys[..n]
    ensures forall r :: r in keys[..n + 1] <==> r in keys[..n] || r == keys[n]
  {
    assert keys[..n + 1] == keys[..n] + [keys[n]];
  }

  /** A whole operation: an absolute path, an object, a response and a name. */
  lemma IntegralExactly(route: Route, operation: Json)
    ensures Integral(route, operation)
        <==> route.path != "" && route.path[0] == '/' && operation.Object?
             && (exists id :: IsNamed(operation.fields, id))
             && exists responses: Fields :: responses != map[]
                                            && Field(operation.fields, "responses") == Some(Object(responses))
  {
    assert route.path != "" ==> route.path[..1] == [route.path[0]];
    if operation.Object? && HasId(operation.fields) {
      assert IsNamed(operation.fields, Id(operation.fields));
    }
  }

  method CheckOne(route: Route, operation: Json) returns (ok: bool)
    ensures ok <==> Integral(route, operation)
  {
    ok := StartsWith(route.path, "/") && operation.Object? && HasResponses(operation.fields) && HasId(operation.fields);
  }

  /** No two of the first `n` operations bear one id. */
  ghost predicate DistinctSoFar(keys: seq<Route>, n: nat, operations: map<Route, Json>)
    requires n <= |keys| && forall route :: route in keys <==> route in operations
  {
    forall a, b :: a in keys[..n] && b in keys[..n] && a != b && IdOf(operations[a]).Some? ==>
      IdOf(operations[a]) != IdOf(operations[b])
  }

  ghost predicate IdsSoFar(ids: set<string>, keys: seq<Route>, n: nat, operations: map<Route, Json>)
    requires n <= |keys| && forall route :: route in keys <==> route in operations
  {
    forall id :: id in ids <==> exists route :: route in keys[..n] && IdOf(operations[route]) == Some(id)
  }

  lemma OneIdMore(ids: set<string>, keys: seq<Route>, n: nat, operations: map<Route, Json>)
    requires n < |keys| && forall route :: route in keys <==> route in operations
    requires forall i, j :: 0 <= i < j < |keys| ==> keys[i] != keys[j]
    requires IdsSoFar(ids, keys, n, operations)
    ensures var id := IdOf(operations[keys[n]]);
            && IdsSoFar(if id.Some? then ids + {id.value} else ids, keys, n + 1, operations)
            && (DistinctSoFar(keys, n + 1, operations)
                <==> DistinctSoFar(keys, n, operations) && !(id.Some? && id.value in ids))
  {
    PrefixGrows(keys, n);
    var id := IdOf(operations[keys[n]]);
    if id.Some? && id.value in ids {
      var other :| other in keys[..n] && IdOf(operations[other]) == id;
      assert other in keys[..n + 1] && keys[n] in keys[..n + 1] && other != keys[n];
    }
    forall some | some in (if id.Some? then ids + {id.value} else ids)
      ensures exists route :: route in keys[..n + 1] && IdOf(operations[route]) == Some(some)
    {
      if some in ids {
        var route :| route in keys[..n] && IdOf(operations[route]) == Some(some);
        assert route in keys[..n + 1];
      } else {
        assert keys[n] in keys[..n + 1];
      }
    }
  }

  method CheckIntegrity(keys: seq<Route>, operations: map<Route, Json>) returns (integral: bool, distinct: bool)
    requires forall route :: route in keys <==> route in operations
    requires forall i, j :: 0 <= i < j < |keys| ==> keys[i] != keys[j]
    ensures integral <==> forall route :: route in operations ==> Integral(route, operations[route])
    ensures distinct <==> DistinctIds(operations)
  {
    integral, distinct := true, true;
    var ids: set<string> := {};
    for n := 0 to |keys|
      invariant integral <==> forall route :: route in keys[..n] ==> Integral(route, operations[route])
      invariant IdsSoFar(ids, keys, n, operations)
      invariant distinct <==> DistinctSoFar(keys, n, operations)
    {
      PrefixGrows(keys, n);
      OneIdMore(ids, keys, n, operations);
      var whole := CheckOne(keys[n], operations[keys[n]]);
      integral := integral && whole;
      var id := IdOf(operations[keys[n]]);
      if id.Some? {
        if id.value in ids {
          distinct := false;
        }
        ids := ids + {id.value};
      }
    }
    assert keys[..|keys|] == keys;
  }

  /** `validate::run`: nothing is skipped because something else failed. */
  method RunGates(registered: nat, keys: seq<Route>, operations: map<Route, Json>, rules: seq<Rule>)
    returns (passed: bool)
    requires forall route :: route in keys <==> route in operations
    requires forall i, j :: 0 <= i < j < |keys| ==> keys[i] != keys[j]
    ensures passed <==> GatesPass(registered, operations, rules)
    ensures passed ==> NoNameTwice(operations) && AllNamed(operations)
  {
    var counted := |operations| == registered;
    var integral, distinct := CheckIntegrity(keys, operations);
    var guarded := true;
    for n := 0 to |keys|
      invariant guarded <==> forall route :: route in keys[..n] ==> Guarded(route, rules)
    {
      assert keys[..n + 1] == keys[..n] + [keys[n]];
      assert forall r :: r in keys[..n + 1] <==> r in keys[..n] || r == keys[n];
      var ok := CheckPolicy(keys[n], rules);
      guarded := guarded && ok;
    }
    assert keys[..|keys|] == keys;
    NamesAreIds(operations);
    var unused := UnusedRules(rules, keys);
    NothingUnused(rules, keys, operations);
    passed := counted && integral && distinct && guarded && unused == [];
  }

  lemma NothingUnused(rules: seq<Rule>, keys: seq<Route>, operations: map<Route, Json>)
    requires forall route :: route in keys <==> route in operations
    ensures Unused(rules, keys) == []
        <==> forall rule :: rule in rules ==>
            IsWide(rule) || exists route :: route in operations && Governs(rule, route)
  {
    if rule :| rule in rules && IsUnused(rule, keys) {
      assert Report(rule.line, rule.role, rule.pattern, rule.action) in Unused(rules, keys);
    } else {
      NothingToReport(rules, keys);
    }
  }

  // ----- emit

  function Requirement(scheme: string): Json {
    Object(map[scheme := List([])])
  }

  /** The document-level default: either credential. */
  const DOCUMENT_SECURITY: Json := List([Requirement("bearerAuth"), Requirement("sessionCookie")])

  /** What `attach_security` makes of an operation. */
  ghost function Secured(fields: Fields, route: Route, rules: seq<Rule>): Fields {
    if !IsApi(route) then fields["security" := List([])]
    else if AccessFor(rules, route).None? then fields
    else
      var access := AccessFor(rules, route).value;
      var role := if access.AdminTokenOnly() then fields["x-lanrurugi-token-role" := Str("admin")] else fields;
      var guest := if access.guestVisitor then role["x-lanrurugi-guest-visible" := Flag(true)] else role;
      if access.anonymous then guest["security" := List([])]
      else if access.IsSessionOnly() then guest["security" := List([Requirement("sessionCookie")])]
      else if access.IsTokenOnly() then guest["security" := List([Requirement("bearerAuth")])]
      else guest
  }

  method AttachSecurity(fields: Fields, route: Route, rules: seq<Rule>) returns (out: Fields)
    ensures out == Secured(fields, route, rules)
  {
    out := fields;
    if !IsApi(route) {
      return out["security" := List([])];
    }
    var found := AccessOf(rules, route.verb, route.path);
    if found.None? {
      return;
    }
    var access := found.value;
    if access.AdminTokenOnly() {
      out := out["x-lanrurugi-token-role" := Str("admin")];
    }
    if access.guestVisitor {
      out := out["x-lanrurugi-guest-visible" := Flag(true)];
    }
    if access.anonymous {
      out := out["security" := List([])];
    } else if access.IsSessionOnly() {
      out := out["security" := List([Requirement("sessionCookie")])];
    } else if access.IsTokenOnly() {
      out := out["security" := List([Requirement("bearerAuth")])];
    }
  }

  /** `attach_access_notes`: the notes as a field, and once more behind the description. */
  function Noted(fields: Fields, route: Route, notes: map<Route, (Json, string)>): Fields {
    if route !in notes then fields
    else
      var (entries, block) := notes[route];
      var text := if "description" in fields && fields["description"].Str?
                     && Trim(fields["description"].text, NEXT_LINE) != ""
                  then fields["description"].text + "\n\n" + block else block;
      fields["x-lanrurugi-access-notes" := entries]["description" := Str(text)]
  }

  /** The schemes a requirement list names: any one of them is enough, an empty list asks for none. */
  function Schemes(security: Json): set<string> {
    if security.List? then
      set i, scheme | 0 <= i < |security.items| && security.items[i].Object?
        && scheme in security.items[i].fields :: scheme
    else {}
  }

  /** What a reader of the document is told: the operation's own requirement, or the document's. */
  function EffectiveSecurity(fields: Fields): set<string> {
    Schemes(if "security" in fields then fields["security"] else DOCUMENT_SECURITY)
  }

  /** The credential kinds the policy admits; none are needed where anonymous callers are admitted. */
  ghost function AdmittedCredentials(rules: seq<Rule>, route: Route): set<string> {
    if Reaches(rules, route, Anonymous) then {}
    else (if Reaches(rules, route, Session) then {"sessionCookie"} else {})
         + (if TokenReaches(rules, route) then {"bearerAuth"} else {})
  }

  ghost predicate TokenReaches(rules: seq<Rule>, route: Route) {
    Reaches(rules, route, TokenAdmin) || Reaches(rules, route, TokenGuest)
  }

  /** A route guests see, that is not open to all and does not take both credentials. */
  ghost predicate IsGuestPage(rules: seq<Rule>, route: Route) {
    Reaches(rules, route, GuestVisitor) && !Reaches(rules, route, Anonymous)
    && !(Reaches(rules, route, Session) && TokenReaches(rules, route))
  }

  lemma SchemeOf(scheme: string)
    ensures Schemes(List([Requirement(scheme)])) == {scheme}
  {
    var security := List([Requirement(scheme)]);
    assert security.items[0] == Requirement(scheme);
    assert scheme in security.items[0].fields;
  }

  lemma SchemesOfLists()
    ensures Schemes(List([])) == {}
    ensures Schemes(List([Requirement("sessionCookie")])) == {"sessionCookie"}
    ensures Schemes(List([Requirement("bearerAuth")])) == {"bearerAuth"}
    ensures Schemes(DOCUMENT_SECURITY) == {"bearerAuth", "sessionCookie"}
  {
    SchemeOf("sessionCookie");
    SchemeOf("bearerAuth");
    var both := DOCUMENT_SECURITY.items;
    assert both[0] == Requirement("bearerAuth") && both[1] == Requirement("sessionCookie");
    assert "bearerAuth" in both[0].fields && "sessionCookie" in both[1].fields;
  }

  /**
    For every reachable route the stated requirement is exactly the admitted credentials, except on a
    guest-visible route that is not anonymous and does not take both credentials: there the document
    falls back to its default and names both.
   */
  lemma StatedSecurityIsExact(fields: Fields, route: Route, rules: seq<Rule>)
    requires IsApi(route) && "security" !in fields && exists role :: Reaches(rules, route, role)
    ensures var stated, admitted := EffectiveSecurity(Secured(fields, route, rules)), AdmittedCredentials(rules, route);
            && (stated == admitted <==> !IsGuestPage(rules, route))
            && (IsGuestPage(rules, route) ==> stated == {"bearerAuth", "sessionCookie"})
  {
    SchemesOfLists();
    assert "bearerAuth" != "sessionCookie";
    forall role: Role {
      LoopsAgree(rules, route, role);
    }
  }

  /** The property the document exists for, of one emitted operation. */
  ghost predicate StatesThePolicy(route: Route, emitted: Json, rules: seq<Rule>) {
    emitted.Object? &&
    if !StartsWith(route.path, "/api") then EffectiveSecurity(emitted.fields) == {}
    else
      && (exists role :: Reaches(rules, route, role))
      && (EffectiveSecurity(emitted.fields) == AdmittedCredentials(rules, route) <==> !IsGuestPage(rules, route))
      && (IsGuestPage(rules, route) ==> EffectiveSecurity(emitted.fields) == {"bearerAuth", "sessionCookie"})
  }

  /**
    The two marks: an administrator's token is asked for exactly where it is admitted and a guest's is not,
    and guests are named exactly where they are admitted. Elsewhere stands what stood there before.
   */
  ghost predicate MarksTheRoles(route: Route, before: Fields, emitted: Fields, rules: seq<Rule>) {
    var api := StartsWith(route.path, "/api");
    && Field(emitted, "x-lanrurugi-token-role")
       == (if api && Reaches(rules, route, TokenAdmin) && !Reaches(rules, route, TokenGuest) then Some(Str("admin"))
           else Field(before, "x-lanrurugi-token-role"))
    && Field(emitted, "x-lanrurugi-guest-visible")
       == (if api && Reaches(rules, route, GuestVisitor) then Some(Flag(true))
           else Field(before, "x-lanrurugi-guest-visible"))
  }

  /** The notes are a field of their own, and stand once more behind a description that has any text. */
  ghost predicate TellsTheNotes(route: Route, before: Fields, emitted: Fields, notes: map<Route, (Json, string)>) {
    var given, told := Field(before, "description"), Field(emitted, "description");
    if route !in notes then
      told == given && Field(emitted, "x-lanrurugi-access-notes") == Field(before, "x-lanrurugi-access-notes")
    else
      && Field(emitted, "x-lanrurugi-access-notes") == Some(notes[route].0)
      && told.Some? && told.value.Str?
      && told.value.text == (if given.Some? && given.value.Str? && !AllSpace(given.value.text, NEXT_LINE)
                             then given.value.text + "\n\n" else "") + notes[route].1
  }

  lemma EmittedStatesThePolicy(fields: Fields, route: Route, rules: seq<Rule>, notes: map<Route, (Json, string)>)
    requires "security" !in fields && Guarded(route, rules)
    ensures StatesThePolicy(route, Emitted(fields, route, rules, notes), rules)
  {
    SchemesOfLists();
    GuardedExactly(route, rules);
    if IsApi(route) {
      StatedSecurityIsExact(fields, route, rules);
    }
    var secured := Secured(fields, route, rules);
    assert SameAt("security", secured, Noted(secured, route, notes));
  }

  lemma EmittedMarksTheRoles(fields: Fields, route: Route, rules: seq<Rule>, notes: map<Route, (Json, string)>)
    ensures MarksTheRoles(route, fields, Emitted(fields, route, rules, notes).fields, rules)
  {
    forall role: Role {
      LoopsAgree(rules, route, role);
    }
  }

  lemma EmittedTellsTheNotes(fields: Fields, route: Route, rules: seq<Rule>, notes: map<Route, (Json, string)>)
    ensures TellsTheNotes(route, fields, Emitted(fields, route, rules, notes).fields, notes)
  {
    var secured := Secured(fields, route, rules);
    assert SameAt("description", fields, secured) && SameAt("x-lanrurugi-access-notes", fields, secured);
    if "description" in fields && fields["description"].Str? {
      BlankIsSpace(fields["description"].text);
    }
  }

  ghost function Emitted(fields: Fields, route: Route, rules: seq<Rule>, notes: map<Route, (Json, string)>): Json {
    Object(Noted(Secured(fields, route, rules), route, notes))
  }

  /** The gates in terms of what was registered, supplied and ruled. */
  ghost predicate Publishable(registrations: seq<Registration>, layers: Layers, rules: seq<Rule>) {
    && SchemasApart(layers) && DistinctRoutes(registrations, |registrations|)
    && (forall i :: 0 <= i < |registrations| ==>
          StartsWith(registrations[i].route.path, "/") && IsObject(layers, registrations[i].route)
          && Guarded(registrations[i].route, rules))
    && forall rule :: rule in rules ==>
         IsWide(rule) || exists i :: 0 <= i < |registrations| && Governs(rule, registrations[i].route)
  }

  /** One emitted operation: the policy, the notes, and otherwise what its layer says. */
  ghost predicate FaithfulAt(route: Route, emitted: Json, layers: Layers, rules: seq<Rule>,
                             notes: map<Route, (Json, string)>) {
    var supplied := SuppliedFields(layers, route);
    && StatesThePolicy(route, emitted, rules) && MarksTheRoles(route, supplied, emitted.fields, rules)
    && Carries(layers, route, emitted.fields, true)
    && (LayerOf(layers, route).1.Some? ==> TellsTheNotes(route, supplied, emitted.fields, notes))
    && (route in notes ==> Field(emitted.fields, "x-lanrurugi-access-notes") == Some(notes[route].0))
  }

  /** The registered routes, each under its own id, and no id a layer gives is lost. */
  ghost predicate FaithfulDocument(document: map<Route, Json>, registrations: seq<Registration>, layers: Layers,
                                   rules: seq<Rule>, notes: map<Route, (Json, string)>) {
    && document.Keys == RoutesOf(registrations, |registrations|)
    && NoNameTwice(document) && AllNamed(document) && KeepsIds(layers, document)
    && AllSayWhere(registrations, |registrations|, layers, document)
    && forall route :: route in document ==> FaithfulAt(route, document[route], layers, rules, notes)
  }

  /**
    `run`: merge, gate, and only then emit. The run passes exactly when the input is publishable; a document
    appears when it passes and more than a check was asked for, and then it describes the registered routes
    and each operation states the policy.
   */
  method Generate(registrations: seq<Registration>, layers: Layers, rules: seq<Rule>, notes: map<Route, (Json, string)>,
                  checkOnly: bool) returns (passed: bool, document: Option<map<Route, Json>>)
    ensures passed <==> Publishable(registrations, layers, rules)
    ensures document.Some? <==> passed && !checkOnly
    ensures document.Some? ==> FaithfulDocument(document.value, registrations, layers, rules, notes)
  {
    var merged := Merge(registrations, layers);
    if merged.None? {
      return false, None;
    }
    var operations := merged.value;
    var keys := KeysOf(operations);
    passed := RunGates(|registrations|, keys, operations, rules);
    ghost var taken :| SoundOperations(operations, taken);
    GatesAreAboutRegistrations(registrations, layers, operations, rules, taken);
    if !passed || checkOnly {
      return passed, None;
    }
    var emitted := Assemble(keys, operations, rules, notes);
    EmissionIsFaithful(registrations, layers, operations, taken, rules, notes, emitted);
    document := Some(emitted);
  }

  lemma EmissionIsFaithful(registrations: seq<Registration>, layers: Layers, operations: map<Route, Json>,
                           taken: set<string>, rules: seq<Rule>, notes: map<Route, (Json, string)>,
                           document: map<Route, Json>)
    requires operations.Keys == RoutesOf(registrations, |registrations|)
    requires SoundOperations(operations, taken) && AsSupplied(layers, operations) && KeepsIds(layers, operations)
    requires AllSayWhere(registrations, |registrations|, layers, operations)
    requires forall route :: route in operations ==> operations[route].Object? && Guarded(route, rules)
    requires document == map route | route in operations :: Emitted(operations[route].fields, route, rules, notes)
    ensures FaithfulDocument(document, registrations, layers, rules, notes)
  {
    forall route | route in operations
      ensures FaithfulAt(route, document[route], layers, rules, notes)
    {
      EmittedIsFaithful(layers, operations[route].fields, route, rules, notes);
    }
    EmissionIsDistinct(operations, document, rules, notes);
    NamesAreIds(document);
    EmissionKeepsIds(layers, operations, document, rules, notes);
    EmissionSaysWhere(registrations, layers, operations, document, rules, notes);
  }

  lemma EmissionIsDistinct(operations: map<Route, Json>, document: map<Route, Json>, rules: seq<Rule>,
                           notes: map<Route, (Json, string)>)
    requires DistinctIds(operations) && document.Keys == operations.Keys
    requires forall route :: route in operations ==>
               operations[route].Object? && document[route] == Emitted(operations[route].fields, route, rules, notes)
               && HasId(operations[route].fields)
    ensures DistinctIds(document)
    ensures forall route :: route in document ==> document[route].Object? && HasId(document[route].fields)
  {
    forall route | route in operations
      ensures IdOf(document[route]) == IdOf(operations[route])
    {
      KeepsId(operations[route].fields, route, rules, notes);
    }
  }

  lemma EmittedIsFaithful(layers: Layers, fields: Fields, route: Route, rules: seq<Rule>,
                          notes: map<Route, (Json, string)>)
    requires Carries(layers, route, fields, false) && "security" !in fields && Guarded(route, rules)
    ensures FaithfulAt(route, Emitted(fields, route, rules, notes), layers, rules, notes)
  {
    EmissionCarries(layers, fields, route, rules, notes);
    EmittedStatesThePolicy(fields, route, rules, notes);
    EmittedMarksTheRoles(fields, route, rules, notes);
    EmittedTellsTheNotes(fields, route, rules, notes);
    AsTheLayerSays(layers, route, fields);
  }

  /** The fields emission may write still are what the layer says when it starts. */
  lemma AsTheLayerSays(layers: Layers, route: Route, fields: Fields)
    requires Carries(layers, route, fields, false)
    ensures var supplied := SuppliedFields(layers, route);
            && Field(fields, "x-lanrurugi-token-role") == Field(supplied, "x-lanrurugi-token-role")
            && Field(fields, "x-lanrurugi-guest-visible") == Field(supplied, "x-lanrurugi-guest-visible")
            && (LayerOf(layers, route).1.Some? ==>
                  Field(fields, "x-lanrurugi-access-notes") == Field(supplied, "x-lanrurugi-access-notes")
                  && Field(fields, "description") == Field(supplied, "description"))
  {
    var supplied := SuppliedFields(layers, route);
    if LayerOf(layers, route).1.Some? {
      assert SameAt("x-lanrurugi-token-role", supplied, fields);
      assert SameAt("x-lanrurugi-guest-visible", supplied, fields);
      assert SameAt("x-lanrurugi-access-notes", supplied, fields);
      assert SameAt("description", supplied, fields);
    }
  }

  lemma EmissionKeepsIds(layers: Layers, operations: map<Route, Json>, document: map<Route, Json>, rules: seq<Rule>,
                         notes: map<Route, (Json, string)>)
    requires KeepsIds(layers, operations) && document.Keys == operations.Keys
    requires forall route :: route in operations ==>
               operations[route].Object? && document[route] == Emitted(operations[route].fields, route, rules, notes)
    ensures KeepsIds(layers, document)
  {
    forall route, id | route in document && IsNamed(SuppliedFields(layers, route), id)
      ensures exists holder :: holder in document && document[holder].Object? && IsNamed(document[holder].fields, id)
    {
      var holder :| holder in operations && operations[holder].Object? && IsNamed(operations[holder].fields, id);
      SameUnlessPolicy("operationId", operations[holder].fields, holder, rules, notes);
      assert IsNamed(document[holder].fields, id);
    }
  }

  lemma SameUnlessPolicy(key: string, fields: Fields, route: Route, rules: seq<Rule>, notes: map<Route, (Json, string)>)
    requires !IsPolicyField(key)
    ensures Field(Emitted(fields, route, rules, notes).fields, key) == Field(fields, key)
  {
    var secured := Secured(fields, route, rules);
    assert SameAt(key, fields, secured) && SameAt(key, secured, Noted(secured, route, notes));
  }

  lemma EmissionSaysWhere(registrations: seq<Registration>, layers: Layers, operations: map<Route, Json>,
                          document: map<Route, Json>, rules: seq<Rule>, notes: map<Route, (Json, string)>)
    requires AllSayWhere(registrations, |registrations|, layers, operations) && document.Keys == operations.Keys
    requires forall route :: route in operations ==>
               operations[route].Object? && document[route] == Emitted(operations[route].fields, route, rules, notes)
    ensures AllSayWhere(registrations, |registrations|, layers, document)
  {
    forall i | 0 <= i < |registrations| && registrations[i].route in document
      ensures SaysWhere(registrations[i], SuppliedFields(layers, registrations[i].route),
                        document[registrations[i].route].fields)
    {
      var route := registrations[i].route;
      var fields := operations[route].fields;
      assert SaysWhere(registrations[i], SuppliedFields(layers, route), fields);
      SameUnlessPolicy("x-lanrurugi-source", fields, route, rules, notes);
      SameUnlessPolicy("tags", fields, route, rules, notes);
      SameUnlessPolicy("responses", fields, route, rules, notes);
      SameUnlessPolicy("x-mojo-to", fields, route, rules, notes);
    }
  }

  lemma EmissionCarries(layers: Layers, fields: Fields, route: Route, rules: seq<Rule>,
                        notes: map<Route, (Json, string)>)
    requires Carries(layers, route, fields, false)
    ensures Carries(layers, route, Emitted(fields, route, rules, notes).fields, true)
  {
    var emitted := Emitted(fields, route, rules, notes).fields;
    forall key | !IsPolicyField(key)
      ensures Field(emitted, key) == Field(fields, key)
    {
      SameUnlessPolicy(key, fields, route, rules, notes);
    }
    CarriesSame(layers, route, fields, emitted);
  }

  lemma CarriesSame(layers: Layers, route: Route, fields: Fields, emitted: Fields)
    requires Carries(layers, route, fields, false)
    requires forall key :: !IsPolicyField(key) ==> Field(emitted, key) == Field(fields, key)
    ensures Carries(layers, route, emitted, true)
  {
    assert forall key :: !IsPolicyField(key) ==> (key in emitted <==> key in fields);
    assert Field(emitted, "x-lanrurugi-schema-source") == Field(fields, "x-lanrurugi-schema-source");
    assert Field(emitted, "responses") == Field(fields, "responses");
    assert Field(emitted, "summary") == Field(fields, "summary");
    assert !IsPolicyField("x-lanrurugi-undocumented");
    forall key, supplied: Fields | !IsPolicyField(key) && SameAt(key, supplied, fields)
      ensures SameAt(key, supplied, emitted)
    {
      assert Field(emitted, key) == Field(fields, key);
    }
  }

  lemma KeepsId(fields: Fields, route: Route, rules: seq<Rule>, notes: map<Route, (Json, string)>)
    ensures IdOf(Emitted(fields, route, rules, notes)) == IdOf(Object(fields))
  {
    SameUnlessPolicy("operationId", fields, route, rules, notes);
  }

  lemma GatesAreAboutRegistrations(registrations: seq<Registration>, layers: Layers, operations: map<Route, Json>,
                                   rules: seq<Rule>, taken: set<string>)
    requires operations.Keys == RoutesOf(registrations, |registrations|)
    requires SoundOperations(operations, taken) && AsSupplied(layers, operations) && SchemasApart(layers)
    requires |operations| == |registrations| <==> DistinctRoutes(registrations, |registrations|)
    ensures GatesPass(|registrations|, operations, rules) <==> Publishable(registrations, layers, rules)
  {
    assert forall i :: 0 <= i < |registrations| ==> registrations[i].route in operations;
    assert forall route :: route in operations ==>
             exists i :: 0 <= i < |registrations| && registrations[i].route == route;
  }

  // ----- An input on which the stated security is not exact

  /** Every segment list matches itself. */
  lemma {:induction false} MatchesItself(segments: seq<string>)
    ensures SegmentsMatch(segments, segments, 0)
  {
    if segments != [] {
      MatchesItself(segments[1..]);
    }
  }

  /** A route that guests see and that otherwise takes a session only. */
  const GUEST_PAGE: Route := Route("GET", "/api")

  const GUEST_RULES: seq<Rule> := [Rule(GuestVisitor, "/api", "GET", Allow, 1), Rule(Session, "/api", "GET", Allow, 2)]

  lemma {:induction false} PlainPathMatches(path: string)
    requires Normalised(path) == path
    ensures PathMatches(path, Normalised(path))
  {
    MatchesItself(Split(path, '/'));
  }

  /** Two allows and nothing else: guests and sessions are admitted. */
  lemma {:induction false} GuestsAndSessions(first: Rule, second: Rule, route: Route)
    requires Governs(first, route) && Governs(second, route) && first.effect.Allow? && second.effect.Allow?
    requires first.role.GuestVisitor? && second.role.Session?
    ensures AccessFor([first, second], route) == Some(Access(false, true, true, false, false))
  {
    var rules := [first, second];
    assert first in rules && second in rules;
    assert forall rule :: rule in rules ==> rule == first || rule == second;
  }

  lemma {:induction false} GuestPageAccess()
    ensures forall rule :: rule in GUEST_RULES ==> Governs(rule, GUEST_PAGE)
    ensures AccessFor(GUEST_RULES, GUEST_PAGE) == Some(Access(false, true, true, false, false))
  {
    var path := "/api";
    UnbraceKeeps(path);
    assert Normalised(path) == path;
    PlainPathMatches(path);
    assert Upper("GET") == "GET";
    GuestsAndSessions(GUEST_RULES[0], GUEST_RULES[1], GUEST_PAGE);
  }

  /** All gates pass, the policy admits a session cookie alone, and the document names both credentials. */
  lemma {:induction false} GuestPageStatesBoth(notes: map<Route, (Json, string)>, location: string)
    ensures Publishable([Registration(GUEST_PAGE, "pages", None, location)], Layers(map[], map[], {}, {}), GUEST_RULES)
    ensures AccessFor(GUEST_RULES, GUEST_PAGE).Some?
    ensures AdmittedCredentials(GUEST_RULES, GUEST_PAGE) == {"sessionCookie"}
    ensures EffectiveSecurity(Emitted(map[], GUEST_PAGE, GUEST_RULES, notes).fields) == {"bearerAuth", "sessionCookie"}
  {
    GuestPageAccess();
    SchemesOfLists();
    var registrations := [Registration(GUEST_PAGE, "pages", None, location)];
    assert "/api"[..4] == "/api" && "/api"[..1] == "/";
    assert Upper("GET") == "GET";
    assert registrations[0].route == GUEST_PAGE;
    assert !(GUEST_PAGE.path == "") && DistinctRoutes(registrations, 1);
    assert forall rule :: rule in GUEST_RULES ==> Governs(rule, registrations[0].route);
  }

  method KeysOf(operations: map<Route, Json>) returns (keys: seq<Route>)
    ensures forall route :: route in keys <==> route in operations
    ensures forall i, j :: 0 <= i < j < |keys| ==> keys[i] != keys[j]
  {
    keys := [];
    var left := operations.Keys;
    while left != {}
      invariant left <= operations.Keys
      invariant forall route :: route in keys <==> route in operations && route !in left
      invariant forall i, j :: 0 <= i < j < |keys| ==> keys[i] != keys[j]
      decreases left
    {
      var route :| route in left;
      keys, left := keys + [route], left - {route};
    }
  }

  method Assemble(keys: seq<Route>, operations: map<Route, Json>, rules: seq<Rule>, notes: map<Route, (Json, string)>)
    returns (paths: map<Route, Json>)
    requires forall route :: route in keys <==> route in operations
    requires forall route :: route in operations ==> operations[route].Object?
    ensures paths == map route | route in operations ::
                       Emitted(operations[route].fields, route, rules, notes)
  {
    paths := map[];
    for n := 0 to |keys|
      invariant paths == map route | route in keys[..n] ::
                           Emitted(operations[route].fields, route, rules, notes)
    {
      assert keys[..n + 1] == keys[..n] + [keys[n]];
      var fields := AttachSecurity(operations[keys[n]].fields, keys[n], rules);
      paths := paths[keys[n] := Object(Noted(fields, keys[n], notes))];
    }
    assert keys[..|keys|] == keys;
  }
}
