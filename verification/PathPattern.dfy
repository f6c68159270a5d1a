/**
  Path patterns of the route policy: `normalise` and `key_match2`.

  The matcher walks two lists of segments. The language a pattern stands for is defined here on
  characters, by scanning the pattern once, so that the two definitions share nothing but the strings.
 */
module PathPattern {
  import opened Text

  // ----- The matcher

  predicate IsParameter(segment: string) {
    StartsWith(segment, ":")
  }

  /** The segment loop as a recursion; `least` is the shortest value a parameter accepts (the code's is 0). */
  predicate SegmentsMatch(pattern: seq<string>, path: seq<string>, least: nat) {
    if pattern == [] then path == []
    else if path == [] then false
    else if pattern[0] == "*" then true
    else if IsParameter(pattern[0]) then |path[0]| >= least && SegmentsMatch(pattern[1..], path[1..], least)
    else pattern[0] == path[0] && SegmentsMatch(pattern[1..], path[1..], least)
  }

  predicate PathMatches(pattern: string, path: string) {
    SegmentsMatch(Split(pattern, '/'), Split(path, '/'), 0)
  }

  /** `key_match2`: both iterators advance together, one segment a turn. */
  method KeyMatch2(pattern: string, path: string) returns (matched: bool)
    ensures matched <==> PathMatches(pattern, path)
    ensures matched <==> InLanguage(Compile(pattern, 0), path)
  {
    MatcherAcceptsTheLanguage(pattern, path, 0);
    var patternSegments, pathSegments := Split(pattern, '/'), Split(path, '/');
    var i := 0;
    while true
      invariant i <= |patternSegments| && i <= |pathSegments|
      invariant PathMatches(pattern, path) <==> SegmentsMatch(patternSegments[i..], pathSegments[i..], 0)
      decreases |patternSegments| - i
    {
      if i == |patternSegments| && i == |pathSegments| {
        return true;
      } else if i == |patternSegments| || i == |pathSegments| {
        return false;
      } else if patternSegments[i] == "*" {
        return true;
      } else if !IsParameter(patternSegments[i]) && patternSegments[i] != pathSegments[i] {
        return false;
      }
      i := i + 1;
    }
  }

  // ----- The language of a pattern

  /** One regular-expression item: a character, a slash-free run of at least `least`, or anything at all. */
  datatype Token = Literal(c: char) | Run(least: nat) | Anything

  ghost predicate InLanguage(tokens: seq<Token>, s: string) {
    if tokens == [] then s == ""
    else match tokens[0]
      case Literal(c) => s != "" && s[0] == c && InLanguage(tokens[1..], s[1..])
      case Run(least) => exists k :: least <= k <= |s| && '/' !in s[..k] && InLanguage(tokens[1..], s[k..])
      case Anything => exists k :: 0 <= k <= |s| && InLanguage(tokens[1..], s[k..])
  }

  /** Reads a pattern from the start of a segment: `*` alone stops the pattern, `:name` is a run. */
  function Compile(pattern: string, least: nat): seq<Token>
    decreases |pattern|, 1
  {
    if pattern == "*" || StartsWith(pattern, "*/") then [Anything]
    else if StartsWith(pattern, ":") then [Run(least)] + CompileRest(pattern[IndexOf(pattern, '/')..], least)
    else CompileRest(pattern, least)
  }

  /** Reads a pattern from inside a segment: every character stands for itself. */
  function CompileRest(pattern: string, least: nat): seq<Token>
    decreases |pattern|, 0
  {
    if pattern == "" then []
    else if pattern[0] == '/' then [Literal('/')] + Compile(pattern[1..], least)
    else [Literal(pattern[0])] + CompileRest(pattern[1..], least)
  }

  lemma EverythingIsAnything(s: string)
    ensures InLanguage([Anything], s)
  {
    assert s[|s|..] == "";
    assert InLanguage([Anything][1..], s[|s|..]);
  }

  /** A literal run of a pattern matches exactly itself as a prefix. */
  lemma {:induction false} LiteralPrefix(pattern: string, k: nat, least: nat, s: string)
    requires k <= |pattern| && '/' !in pattern[..k]
    ensures InLanguage(CompileRest(pattern, least), s)
        <==> StartsWith(s, pattern[..k]) && InLanguage(CompileRest(pattern[k..], least), s[k..])
  {
    if k == 0 {
      assert pattern[0..] == pattern && s[0..] == s;
    } else {
      var tokens := CompileRest(pattern, least);
      assert pattern[0] == pattern[..k][0];
      assert tokens == [Literal(pattern[0])] + CompileRest(pattern[1..], least);
      assert tokens[1..] == CompileRest(pattern[1..], least);
      assert pattern[1..][..k - 1] == pattern[..k][1..];
      assert pattern[1..][k - 1..] == pattern[k..];
      if s != "" {
        LiteralPrefix(pattern[1..], k - 1, least, s[1..]);
        if k <= |s| {
          assert s[1..][k - 1..] == s[k..];
          assert s[..k] == [s[0]] + s[1..][..k - 1];
          assert pattern[..k] == [pattern[0]] + pattern[1..][..k - 1];
        }
      }
    }
  }

  /** After a whole segment the rest of the pattern starts with a slash or is empty. */
  lemma AtSegmentEnd(rest: string, least: nat, s: string)
    requires rest == "" || rest[0] == '/'
    ensures rest == "" ==> (InLanguage(CompileRest(rest, least), s) <==> s == "")
    ensures rest != "" ==> (InLanguage(CompileRest(rest, least), s)
                            <==> s != "" && s[0] == '/' && InLanguage(Compile(rest[1..], least), s[1..]))
  {
    if rest != "" {
      var tokens := CompileRest(rest, least);
      assert tokens == [Literal('/')] + Compile(rest[1..], least);
      assert tokens[1..] == Compile(rest[1..], least);
    }
  }

  /** A run must stop exactly at the path's next slash, or at its end, when only a slash or nothing can follow. */
  lemma RunStopsAtSlash(rest: seq<Token>, least: nat, s: string)
    requires rest == [] || rest[0] == Literal('/')
    ensures var j := IndexOf(s, '/');
            InLanguage([Run(least)] + rest, s) <==> least <= j && InLanguage(rest, s[j..])
  {
    var j := IndexOf(s, '/');
    assert ([Run(least)] + rest)[1..] == rest;
    forall k | 0 <= k <= |s| && '/' !in s[..k] && InLanguage(rest, s[k..])
      ensures k == j
    {
      FreeOf(s, k, '/');
      FreeOf(s, j, '/');
    }
  }

  /** The segment loop accepts exactly the language of the pattern, for every pattern and every path. */
  lemma {:induction false} MatcherAcceptsTheLanguage(pattern: string, path: string, least: nat)
    ensures SegmentsMatch(Split(pattern, '/'), Split(path, '/'), least) <==> InLanguage(Compile(pattern, least), path)
    decreases |pattern|
  {
    var k, j := IndexOf(pattern, '/'), IndexOf(path, '/');
    SplitHead(pattern, k);
    SplitHead(path, j);
    ShapeOfFirstSegment(pattern, k);
    if pattern[..k] == "*" {
      EverythingIsAnything(path);
    } else {
      if k < |pattern| && j < |path| {
        MatcherAcceptsTheLanguage(pattern[k + 1..], path[j + 1..], least);
      }
      TailAgrees(pattern, k, path, j, least);
      FirstSegmentAgrees(pattern, k, path, j, least);
    }
  }

  /** What follows the first segments, given the claim for what follows the first slashes. */
  lemma TailAgrees(pattern: string, k: nat, path: string, j: nat, least: nat)
    requires k == IndexOf(pattern, '/') && j == IndexOf(path, '/')
    requires k < |pattern| && j < |path| ==>
      (SegmentsMatch(Split(pattern[k + 1..], '/'), Split(path[j + 1..], '/'), least)
       <==> InLanguage(Compile(pattern[k + 1..], least), path[j + 1..]))
    ensures InLanguage(CompileRest(pattern[k..], least), path[j..])
        <==> SegmentsMatch(Split(pattern, '/')[1..], Split(path, '/')[1..], least)
  {
    SplitHead(pattern, k);
    SplitHead(path, j);
    AtSegmentEnd(pattern[k..], least, path[j..]);
    if k < |pattern| && j < |path| {
      assert pattern[k..][1..] == pattern[k + 1..] && path[j..][1..] == path[j + 1..];
    }
  }

  lemma FirstSegmentAgrees(pattern: string, k: nat, path: string, j: nat, least: nat)
    requires k == IndexOf(pattern, '/') && j == IndexOf(path, '/') && pattern[..k] != "*"
    ensures InLanguage(Compile(pattern, least), path)
        <==> (if IsParameter(pattern[..k]) then least <= j else pattern[..k] == path[..j])
             && InLanguage(CompileRest(pattern[k..], least), path[j..])
  {
    ShapeOfFirstSegment(pattern, k);
    if IsParameter(pattern[..k]) {
      assert k < |pattern| ==> pattern[k..][0] == '/';
      RunStopsAtSlash(CompileRest(pattern[k..], least), least, path);
    } else {
      LiteralSegment(pattern, k, least, path, j);
    }
  }

  lemma ShapeOfFirstSegment(pattern: string, k: nat)
    requires k == IndexOf(pattern, '/')
    ensures pattern[..k] == "*" <==> pattern == "*" || StartsWith(pattern, "*/")
    ensures IsParameter(pattern[..k]) <==> StartsWith(pattern, ":")
  {
    FreeOf(pattern, k, '/');
    assert k > 0 ==> pattern[..k][0] == pattern[0];
    assert |pattern| >= 2 ==> pattern[..2] == [pattern[0], pattern[1]];
    assert k >= 1 ==> pattern[..k][..1] == [pattern[0]] == pattern[..1];
    assert k == 1 ==> pattern[..k] == [pattern[0]];
    assert k == 1 && |pattern| == 1 ==> pattern == [pattern[0]];
  }

  lemma SplitHead(s: string, k: nat)
    requires k == IndexOf(s, '/')
    ensures Split(s, '/') == [s[..k]] + if k == |s| then [] else Split(s[k + 1..], '/')
  {
    if k == |s| {
      SplitWhole(s, '/');
      assert s[..k] == s;
    } else {
      SplitAtFirst(s, '/', k);
    }
  }

  lemma LiteralSegment(pattern: string, k: nat, least: nat, path: string, j: nat)
    requires k == IndexOf(pattern, '/') && j == IndexOf(path, '/')
    ensures InLanguage(CompileRest(pattern, least), path)
        <==> pattern[..k] == path[..j] && InLanguage(CompileRest(pattern[k..], least), path[j..])
  {
    LiteralPrefix(pattern, k, least, path);
    if StartsWith(path, pattern[..k]) {
      AtSegmentEnd(pattern[k..], least, path[k..]);
      FreeOf(pattern, k, '/');
      FreeOf(path, j, '/');
      assert forall i :: 0 <= i < k ==> path[i] == path[..k][i] == pattern[i];
    }
  }

  // ----- The regular expression the documentation names

  /**
    The rewriting that the comment on `key_match2` calls the same relation: a slash and a colon up to the next
    slash become `/[^/]+`, a slash and a star `/.*`; every other character stands for itself.
   */
  function Rewritten(pattern: string): seq<Token>
    decreases |pattern|
  {
    if pattern == "" then []
    else if StartsWith(pattern, "/:") then [Literal('/')] + ([Run(1)] + Rewritten(AfterName(pattern)))
    else if StartsWith(pattern, "/*") then [Literal('/')] + ([Anything] + Rewritten(pattern[2..]))
    else [Literal(pattern[0])] + Rewritten(pattern[1..])
  }

  /** The rest of a pattern from the slash that ends its `/:name`. */
  function AfterName(pattern: string): (rest: string)
    requires StartsWith(pattern, "/:")
    ensures |rest| < |pattern| && (rest == "" || rest[0] == '/')
  {
    pattern[1..][IndexOf(pattern[1..], '/')..]
  }

  /** Every star behind a slash ends the pattern. */
  predicate StarsAtEnd(pattern: string) {
    forall i :: 0 <= i < |pattern| - 2 ==> !(pattern[i] == '/' && pattern[i + 1] == '*')
  }

  /** The first segment, which has no slash before it, is no wildcard, and stars stand at the end only. */
  predicate WildcardsInPlace(pattern: string) {
    !StartsWith(pattern, ":") && pattern != "*" && !StartsWith(pattern, "*/") && StarsAtEnd(pattern)
  }

  /** No `:name` before the first `*` meets an empty segment. */
  predicate NoEmptyParameter(pattern: seq<string>, path: seq<string>) {
    pattern == [] || path == [] || pattern[0] == "*"
    || ((IsParameter(pattern[0]) ==> path[0] != "") && NoEmptyParameter(pattern[1..], path[1..]))
  }

  lemma {:induction false} NonEmptyParameters(pattern: seq<string>, path: seq<string>)
    ensures SegmentsMatch(pattern, path, 1) <==> SegmentsMatch(pattern, path, 0) && NoEmptyParameter(pattern, path)
  {
    if pattern != [] && path != [] && pattern[0] != "*" {
      NonEmptyParameters(pattern[1..], path[1..]);
    }
  }

  /** The code matches, and no parameter took an empty segment. */
  predicate MatchesWithValues(pattern: string, path: string) {
    PathMatches(pattern, path) && NoEmptyParameter(Split(pattern, '/'), Split(path, '/'))
  }

  lemma ValuesAreCompiled(pattern: string, path: string)
    ensures MatchesWithValues(pattern, path) <==> InLanguage(Compile(pattern, 1), path)
  {
    MatcherAcceptsTheLanguage(pattern, path, 1);
    NonEmptyParameters(Split(pattern, '/'), Split(path, '/'));
  }

  /**
    The code and the documented regular expression are one relation, but for empty parameters, exactly when the
    wildcards of the pattern are in place. An empty segment is a value for the code and none for the regular
    expression.
   */
  lemma {:induction false} AgreesWithDocumentedRegex(pattern: string)
    ensures WildcardsInPlace(pattern)
        <==> forall path :: InLanguage(Rewritten(pattern), path) <==> MatchesWithValues(pattern, path)
  {
    if WildcardsInPlace(pattern) {
      forall path
        ensures InLanguage(Rewritten(pattern), path) <==> MatchesWithValues(pattern, path)
      {
        AgreesInPlace(pattern, path);
      }
    } else {
      var path := DiffersOutOfPlace(pattern);
      ValuesAreCompiled(pattern, path);
    }
  }

  /** For one path, with the wildcards in place. */
  lemma {:induction false} AgreesInPlace(pattern: string, path: string)
    requires WildcardsInPlace(pattern)
    ensures InLanguage(Rewritten(pattern), path) <==> MatchesWithValues(pattern, path)
  {
    RewritesInPlace(pattern);
    ValuesAreCompiled(pattern, path);
  }

  lemma {:induction false} RewritesInPlace(pattern: string)
    requires StarsAtEnd(pattern)
    ensures Rewritten(pattern) == CompileRest(pattern, 1)
    decreases |pattern|
  {
    if pattern != "" {
      PrefixIs(pattern, '/', ':');
      PrefixIs(pattern, '/', '*');
      if StartsWith(pattern, "/:") {
        RewritesInPlace(AfterName(pattern));
        assert StartsWith(pattern[1..], ":") && pattern[1..] != "*" && pattern[1..][0] == ':';
      } else if StartsWith(pattern, "/*") {
        assert pattern[1..] == "*" && pattern[2..] == "";
      } else {
        RewritesInPlace(pattern[1..]);
        SegmentStartsPlain(pattern);
      }
    }
  }

  lemma PrefixIs(s: string, a: char, b: char)
    ensures StartsWith(s, [a, b]) <==> |s| >= 2 && s[0] == a && s[1] == b
    ensures StartsWith(s, [a]) <==> |s| >= 1 && s[0] == a
  {
    assert |s| >= 2 ==> s[..2] == [s[0], s[1]];
    assert |s| >= 1 ==> s[..1] == [s[0]];
  }

  /** Behind a slash that starts no wildcard, the pattern is read character by character. */
  lemma SegmentStartsPlain(pattern: string)
    requires pattern != "" && !StartsWith(pattern, "/:") && !StartsWith(pattern, "/*")
    ensures CompileRest(pattern, 1) == [Literal(pattern[0])] + CompileRest(pattern[1..], 1)
  {
    PrefixIs(pattern, '/', ':');
    PrefixIs(pattern, '/', '*');
    PrefixIs(pattern[1..], '*', '/');
    PrefixIs(pattern[1..], ':', '/');
  }

  // ----- Patterns out of place

  lemma LiteralFirst(c: char, rest: seq<Token>, s: string)
    ensures InLanguage([Literal(c)] + rest, s) <==> s != "" && s[0] == c && InLanguage(rest, s[1..])
  {
    assert ([Literal(c)] + rest)[1..] == rest;
  }

  lemma AnythingFirst(rest: seq<Token>, s: string, k: nat)
    requires k <= |s| && InLanguage(rest, s[k..])
    ensures InLanguage([Anything] + rest, s)
  {
    assert ([Anything] + rest)[1..] == rest;
  }

  /** A pattern, read as a path, is in the language of its own rewriting. */
  lemma {:induction false} RewritingTakesItself(pattern: string)
    ensures InLanguage(Rewritten(pattern), pattern)
    decreases |pattern|
  {
    if pattern != "" {
      PrefixIs(pattern, '/', ':');
      PrefixIs(pattern, '/', '*');
      var rest := pattern[1..];
      if StartsWith(pattern, "/:") {
        RewritingTakesItself(AfterName(pattern));
        RunStopsAtSlash(Rewritten(AfterName(pattern)), 1, rest);
        LiteralFirst('/', [Run(1)] + Rewritten(AfterName(pattern)), pattern);
      } else if StartsWith(pattern, "/*") {
        RewritingTakesItself(pattern[2..]);
        assert rest[1..] == pattern[2..];
        AnythingFirst(Rewritten(pattern[2..]), rest, 1);
        LiteralFirst('/', [Anything] + Rewritten(pattern[2..]), pattern);
      } else {
        RewritingTakesItself(rest);
        LiteralFirst(pattern[0], Rewritten(rest), pattern);
      }
    }
  }

  /** So it is in the language the code gives it. */
  lemma {:induction false} CompiledTakesItself(pattern: string)
    ensures InLanguage(CompileRest(pattern, 1), pattern) && InLanguage(Compile(pattern, 1), pattern)
    decreases |pattern|
  {
    PrefixIs(pattern, ':', '/');
    if pattern != "" {
      CompiledTakesItself(pattern[1..]);
      if pattern[0] == '/' {
        LiteralFirst('/', Compile(pattern[1..], 1), pattern);
      } else {
        LiteralFirst(pattern[0], CompileRest(pattern[1..], 1), pattern);
      }
    }
    if pattern == "*" || StartsWith(pattern, "*/") {
      EverythingIsAnything(pattern);
    } else if StartsWith(pattern, ":") {
      var k := IndexOf(pattern, '/');
      if k < |pattern| {
        CompiledTakesItself(pattern[k..]);
      } else {
        assert pattern[k..] == "";
      }
      RunStopsAtSlash(CompileRest(pattern[k..], 1), 1, pattern);
    }
  }

  /** A path on which the two differ, for a pattern with a wildcard out of place. */
  lemma {:induction false} DiffersOutOfPlace(pattern: string) returns (path: string)
    requires !WildcardsInPlace(pattern)
    ensures InLanguage(Rewritten(pattern), path) != InLanguage(Compile(pattern, 1), path)
  {
    PrefixIs(pattern, ':', '/');
    PrefixIs(pattern, '/', ':');
    PrefixIs(pattern, '/', '*');
    PrefixIs(pattern, '*', '/');
    if pattern == "*" || StartsWith(pattern, "*/") {
      path := "";
      EverythingIsAnything(path);
      LiteralFirst('*', Rewritten(pattern[1..]), path);
    } else if StartsWith(pattern, ":") {
      var k := IndexOf(pattern, '/');
      path := "x" + pattern[k..];
      IndexIs(path, '/', 1);
      assert path[1..] == pattern[k..];
      CompiledTakesItself(pattern[k..]);
      RunStopsAtSlash(CompileRest(pattern[k..], 1), 1, path);
      LiteralFirst(':', Rewritten(pattern[1..]), path);
    } else {
      path := DiffersInside(pattern);
    }
  }

  /** A star behind a slash that does not end the pattern: either more follows it in its segment, or a slash. */
  lemma {:induction false} DiffersInside(pattern: string) returns (path: string)
    requires !StarsAtEnd(pattern)
    ensures InLanguage(Rewritten(pattern), path) != InLanguage(CompileRest(pattern, 1), path)
    decreases |pattern|
  {
    PrefixIs(pattern, '/', ':');
    PrefixIs(pattern, '/', '*');
    if StartsWith(pattern, "/:") {
      path := DiffersAfterName(pattern);
    } else if StartsWith(pattern, "/*") && |pattern| > 2 {
      path := DiffersAtStar(pattern);
    } else {
      var i :| 0 <= i < |pattern| - 2 && pattern[i] == '/' && pattern[i + 1] == '*';
      assert pattern[1..][i - 1] == '/' && pattern[1..][i] == '*';
      var rest := DiffersInside(pattern[1..]);
      path := [pattern[0]] + rest;
      assert path[1..] == rest;
      SegmentStartsPlain(pattern);
      LiteralFirst(pattern[0], Rewritten(pattern[1..]), path);
      LiteralFirst(pattern[0], CompileRest(pattern[1..], 1), path);
    }
  }

  lemma {:induction false} DiffersAfterName(pattern: string) returns (path: string)
    requires !StarsAtEnd(pattern) && StartsWith(pattern, "/:")
    ensures InLanguage(Rewritten(pattern), path) != InLanguage(CompileRest(pattern, 1), path)
    decreases |pattern|, 0
  {
    var rest := AfterName(pattern);
    var k := 1 + IndexOf(pattern[1..], '/');
    var i :| 0 <= i < |pattern| - 2 && pattern[i] == '/' && pattern[i + 1] == '*';
    PrefixIs(pattern, '/', ':');
    FreeOf(pattern[1..], k - 1, '/');
    assert i > 0 ==> pattern[i] == pattern[1..][i - 1];
    assert i >= k && rest == pattern[k..] && rest[i - k] == '/' && rest[i - k + 1] == '*';
    var tail := DiffersInside(rest);
    path := "/" + ("x" + tail);
    StartsAtSlash(rest, tail);
    RunsOver(Rewritten(rest), tail);
    RunsOver(CompileRest(rest, 1), tail);
    assert path[1..] == "x" + tail;
    LiteralFirst('/', [Run(1)] + Rewritten(rest), path);
    PrefixIs(pattern[1..], ':', '/');
    LiteralFirst('/', [Run(1)] + CompileRest(rest, 1), path);
  }

  lemma StartsAtSlash(rest: string, s: string)
    requires rest != "" && rest[0] == '/'
    requires InLanguage(Rewritten(rest), s) || InLanguage(CompileRest(rest, 1), s)
    ensures s != "" && s[0] == '/'
    ensures Rewritten(rest) != [] && Rewritten(rest)[0] == Literal('/')
    ensures CompileRest(rest, 1) != [] && CompileRest(rest, 1)[0] == Literal('/')
  {
  }

  lemma RunsOver(rest: seq<Token>, tail: string)
    requires rest != [] && rest[0] == Literal('/') && tail != "" && tail[0] == '/'
    ensures InLanguage([Run(1)] + rest, "x" + tail) <==> InLanguage(rest, tail)
  {
    var s := "x" + tail;
    IndexIs(s, '/', 1);
    assert s[1..] == tail;
    RunStopsAtSlash(rest, 1, s);
  }

  lemma {:induction false} DiffersAtStar(pattern: string) returns (path: string)
    requires StartsWith(pattern, "/*") && |pattern| > 2
    ensures InLanguage(Rewritten(pattern), path) != InLanguage(CompileRest(pattern, 1), path)
  {
    var after, rest := pattern[1..], pattern[2..];
    PrefixIs(pattern, '/', '*');
    PrefixIs(pattern, '/', ':');
    PrefixIs(after, '*', '/');
    PrefixIs(after, ':', '/');
    if rest[0] == '/' {
      path := "/";
      assert path[1..] == "" && Rewritten(rest)[0] == Literal('/');
      LiteralFirst('/', [Anything] + Rewritten(rest), path);
      assert ([Anything] + Rewritten(rest))[1..] == Rewritten(rest);
      EverythingIsAnything("");
      LiteralFirst('/', [Anything], path);
    } else {
      path := "/" + ("x" + rest);
      assert path[1..] == "x" + rest && ("x" + rest)[1..] == rest;
      RewritingTakesItself(rest);
      AnythingFirst(Rewritten(rest), "x" + rest, 1);
      LiteralFirst('/', [Anything] + Rewritten(rest), path);
      LiteralFirst('/', CompileRest(after, 1), path);
      LiteralFirst('*', CompileRest(rest, 1), "x" + rest);
      assert after[1..] == rest;
    }
  }

  lemma CutsFirst(head: string, rest: string)
    requires '/' !in head
    ensures Split(head + "/" + rest, '/') == [head] + Split(rest, '/')
  {
    var s := head + "/" + rest;
    assert s[..|head|] == head && s[|head| + 1..] == rest;
    SplitAtFirst(s, '/', |head|);
  }

  /** The documented relation is not the code's: the parameter of `/a/:id/b` also takes an empty segment. */
  lemma {:induction false} DocumentedRegexIsStricter()
    ensures PathMatches("/a/:id/b", "/a//b") && !InLanguage(Rewritten("/a/:id/b"), "/a//b")
  {
    assert "/" + ("a" + "/" + (":id" + "/" + "b")) == "/a/:id/b" && "/" + ("a" + "/" + ("" + "/" + "b")) == "/a//b";
    PrefixIs(":id", ':', 'i');
    PrefixIs("a", ':', 'i');
    EmptySegmentDiffers("a", ":id", "b");
  }

  lemma {:induction false} EmptySegmentDiffers(a: string, name: string, b: string)
    requires '/' !in a && '/' !in name && '/' !in b && '*' !in a && '*' !in name && '*' !in b
    requires !IsParameter(a) && IsParameter(name)
    ensures var pattern, path := "/" + (a + "/" + (name + "/" + b)), "/" + (a + "/" + ("" + "/" + b));
            PathMatches(pattern, path) && !InLanguage(Rewritten(pattern), path)
  {
    var pattern, path := "/" + (a + "/" + (name + "/" + b)), "/" + (a + "/" + ("" + "/" + b));
    CutsInThree(a, name, b);
    CutsInThree(a, "", b);
    OneSegment(b, [], b, []);
    OneSegment(name, [b], "", [b]);
    OneSegment(a, [name] + [b], a, [""] + [b]);
    OneSegment("", [a] + ([name] + [b]), "", [a] + ([""] + [b]));
    assert '*' !in pattern && pattern[0] == '/';
    AgreesInPlace(pattern, path);
  }

  lemma {:induction false} CutsInThree(a: string, name: string, b: string)
    requires '/' !in a && '/' !in name && '/' !in b
    ensures Split("/" + (a + "/" + (name + "/" + b)), '/') == [""] + ([a] + ([name] + [b]))
  {
    var rest := a + "/" + (name + "/" + b);
    assert "/" + rest == "" + "/" + rest;
    CutsFirst("", rest);
    CutsFirst(a, name + "/" + b);
    CutsFirst(name, b);
    SplitWhole(b, '/');
  }

  /** One turn of the segment loop, at a segment other than `*`. */
  lemma OneSegment(segment: string, pattern: seq<string>, value: string, path: seq<string>)
    requires segment != "*"
    ensures SegmentsMatch([segment] + pattern, [value] + path, 0)
        <==> (IsParameter(segment) || segment == value) && SegmentsMatch(pattern, path, 0)
    ensures NoEmptyParameter([segment] + pattern, [value] + path)
        <==> (IsParameter(segment) ==> value != "") && NoEmptyParameter(pattern, path)
  {
    assert ([segment] + pattern)[1..] == pattern && ([value] + path)[1..] == path;
  }

  /** A star that starts a longer segment is a wildcard for the documented relation only. */
  lemma {:induction false} StarInsideSegment()
    ensures InLanguage(Rewritten("/*x"), "/yx") && !PathMatches("/*x", "/yx")
  {
    assert "" + "/" + "*x" == "/*x" && "" + "/" + "yx" == "/yx";
    CutsFirst("", "*x");
    CutsFirst("", "yx");
    SplitWhole("*x", '/');
    SplitWhole("yx", '/');
    assert "*x"[0] == '*' && "yx"[0] == 'y' && !IsParameter("*x") && !IsParameter("");
    assert ([""] + ["*x"])[1..] == ["*x"] && ([""] + ["yx"])[1..] == ["yx"];
    PrefixIs("/*x", '/', '*');
    PrefixIs("/*x", '/', ':');
    assert "/*x"[2..] == "x" && "/yx"[1..] == "yx" && "yx"[1..] == "x";
    RewritingTakesItself("x");
    AnythingFirst(Rewritten("x"), "yx", 1);
    LiteralFirst('/', [Anything] + Rewritten("x"), "/yx");
  }

  /** A star with more segments behind it ends the pattern for the code only. */
  lemma {:induction false} StarBeforeMore()
    ensures PathMatches("/*/b", "/x/c") && !InLanguage(Rewritten("/*/b"), "/x/c")
  {
    assert "" + "/" + "*/b" == "/*/b" && "*" + "/" + "b" == "*/b" && "" + "/" + "x/c" == "/x/c";
    CutsFirst("", "*/b");
    CutsFirst("*", "b");
    CutsFirst("", "x/c");
    assert ([""] + (["*"] + Split("b", '/')))[1..][0] == "*";
    assert PathMatches("/*/b", "/x/c");
    PrefixIs("/*/b", '/', '*');
    PrefixIs("/*/b", '/', ':');
    var rest, path := Rewritten("/b"), "x/c";
    assert "/*/b"[2..] == "/b" && "/x/c"[1..] == path;
    LiteralFirst('/', [Anything] + rest, "/x/c");
    assert ([Anything] + rest)[1..] == rest;
    forall k | 0 <= k <= |path|
      ensures !InLanguage(rest, path[k..])
    {
      SlashThen('b', path[k..]);
      assert k < 3 ==> path[k..][|path[k..]| - 1] == 'c';
    }
  }

  lemma {:induction false} SlashThen(c: char, s: string)
    requires c != ':' && c != '*' && c != '/'
    ensures InLanguage(Rewritten(['/', c]), s) ==> s != "" && s[|s| - 1] == c
  {
    var pattern := ['/', c];
    PrefixIs(pattern, '/', ':');
    PrefixIs(pattern, '/', '*');
    PrefixIs([c], '/', ':');
    PrefixIs([c], '/', '*');
    assert pattern[1..] == [c] && [c][1..] == "";
    LiteralFirst('/', Rewritten([c]), s);
    assert Rewritten([c]) == [Literal(c)] + [];
    if s != "" {
      LiteralFirst(c, [], s[1..]);
    }
  }

  // ----- normalise

  /** What one pass over the characters leaves: `{name}` becomes `:`, everything else stays. */
  function Unbrace(path: string, inBrace: bool): (out: string)
    ensures '{' !in out && '}' !in out
  {
    if path == "" then ""
    else if path[0] == '{' then ":" + Unbrace(path[1..], true)
    else if path[0] == '}' then Unbrace(path[1..], false)
    else if inBrace then Unbrace(path[1..], inBrace)
    else [path[0]] + Unbrace(path[1..], inBrace)
  }

  function Normalised(path: string): string {
    DropTrailing(Unbrace(path, false), '/')
  }

  method Normalise(path: string) returns (out: string)
    ensures out == Normalised(path)
  {
    out := "";
    var inBrace := false;
    for i := 0 to |path|
      invariant out + Unbrace(path[i..], inBrace) == Unbrace(path, false)
    {
      assert path[i..][1..] == path[i + 1..];
      ghost var before := out + Unbrace(path[i..], inBrace);
      if path[i] == '{' {
        inBrace := true;
        out := out + ":";
      } else if path[i] == '}' {
        inBrace := false;
      } else if inBrace {
      } else {
        out := out + [path[i]];
      }
      assert before == out + Unbrace(path[i + 1..], inBrace);
    }
    assert out == Unbrace(path, false);
    while out != "" && out[|out| - 1] == '/'
      invariant DropTrailing(out, '/') == Normalised(path)
      decreases |out|
    {
      out := out[..|out| - 1];
    }
  }

  lemma {:induction false} UnbraceKeeps(s: string)
    requires '{' !in s && '}' !in s
    ensures Unbrace(s, false) == s
  {
    if s != "" {
      UnbraceKeeps(s[1..]);
    }
  }

  /** Normalising twice changes nothing more: a policy object is stored normalised and compared normalised. */
  lemma NormalisedIsStable(path: string)
    ensures Normalised(Normalised(path)) == Normalised(path)
  {
    var n := Normalised(path);
    assert forall i :: 0 <= i < |n| ==> n[i] == Unbrace(path, false)[i];
    UnbraceKeeps(n);
  }
}
