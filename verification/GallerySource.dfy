/**
  `canonicalizeSource`: every alias and URL shape of a gallery becomes one `e-hentai.org/g/{gid}/{token}`.
 */
module GallerySource {
  import opened Text

  predicate IsDigit(c: char) {
    '0' <= c <= '9'
  }

  predicate IsHex(c: char) {
    IsDigit(c) || 'a' <= c <= 'f' || 'A' <= c <= 'F'
  }

  /** Sixteen digits, the letters in either case. */
  lemma DigitsAreThese(c: char)
    ensures IsDigit(c) <==> c in {'0', '1', '2', '3', '4', '5', '6', '7', '8', '9'}
    ensures IsHex(c) <==> IsDigit(c) || LowerChar(c) in {'a', 'b', 'c', 'd', 'e', 'f'}
  {
  }

  predicate All(s: string, p: char -> bool) {
    forall i :: 0 <= i < |s| ==> p(s[i])
  }

  /** The longest run at the start whose characters all satisfy `p`. */
  function Span(s: string, p: char -> bool): (k: nat)
    ensures k <= |s| && All(s[..k], p) && (k < |s| ==> !p(s[k]))
  {
    if s != "" && p(s[0]) then
      var k := 1 + Span(s[1..], p);
      assert forall i :: 0 < i < k ==> s[..k][i] == s[1..][..k - 1][i - 1];
      k
    else 0
  }

  /** `prefix` is lower case; letters of `s` match it in either case. */
  predicate FoldStarts(s: string, prefix: string) {
    |prefix| <= |s| && Lower(s[..|prefix|]) == prefix
  }

  function StripFold(s: string, prefix: string): string {
    if FoldStarts(s, prefix) then s[|prefix|..] else s
  }

  function StripScheme(s: string): string {
    if FoldStarts(s, "https://") then s[8..] else StripFold(s, "http://")
  }

  function Before(s: string, sep: char): string {
    s[..IndexOf(s, sep)]
  }

  /** The generic trimming, in the order the code applies it. */
  function Generic(url: string): string {
    DropTrailing(Before(Before(StripFold(StripScheme(Trim(url, BYTE_ORDER_MARK)), "www."), '?'), '#'), '/')
  }

  /** The prefixes of the gallery pattern, its two alternations multiplied out. */
  const PREFIXES: seq<string> := [
    "e-hentai.org/g/", "exhentai.org/g/",
    "g.e-hentai.org/g/", "g.exhentai.org/g/",
    "forums.e-hentai.org/g/", "forums.exhentai.org/g/"]

  /** Two hosts, bare or under one of two names, and the gallery path. */
  lemma {:induction false} PrefixesAre(p: string)
    ensures p in PREFIXES
        <==> exists name, host :: name in {"", "g.", "forums."} && host in {"e-hentai.org", "exhentai.org"}
                                  && p == name + host + "/g/"
  {
    assert "" + "e-hentai.org" + "/g/" == PREFIXES[0] && "" + "exhentai.org" + "/g/" == PREFIXES[1];
    assert "g." + "e-hentai.org" + "/g/" == PREFIXES[2] && "g." + "exhentai.org" + "/g/" == PREFIXES[3];
    assert "forums." + "e-hentai.org" + "/g/" == PREFIXES[4] && "forums." + "exhentai.org" + "/g/" == PREFIXES[5];
  }

  datatype Gallery = Gallery(gid: string, token: string)

  /** Length of the pattern's prefix at the start of `s`, 0 when none is there. */
  function PrefixLength(s: string, prefixes: seq<string>): nat {
    if prefixes == [] then 0
    else if FoldStarts(s, prefixes[0]) then |prefixes[0]|
    else PrefixLength(s, prefixes[1..])
  }

  /** The capture groups of the gallery pattern, when it matches. */
  function ParseGallery(s: string): Option<Gallery> {
    var n := PrefixLength(s, PREFIXES);
    if n == 0 || |s| < n then None
    else
      var rest := s[n..];
      var d := Span(rest, IsDigit);
      if d == 0 || d == |rest| || rest[d] != '/' then None
      else
        var h := Span(rest[d + 1..], IsHex);
        if h == 0 then None else Some(Gallery(rest[..d], rest[d + 1..][..h]))
  }

  function CanonicalForm(gallery: Gallery): string {
    "e-hentai.org/g/" + gallery.gid + "/" + gallery.token
  }

  function CanonicalizeSource(url: string): string {
    var generic := Generic(url);
    var found := ParseGallery(generic);
    if found.Some? then CanonicalForm(found.value) else generic
  }

  // ----- The pattern as a relation

  ghost predicate IsPrefix(prefix: string) {
    Lower(prefix) in PREFIXES
  }

  ghost predicate WellFormed(gallery: Gallery) {
    gallery.gid != "" && All(gallery.gid, IsDigit) && gallery.token != "" && All(gallery.token, IsHex)
  }

  /** What may follow a complete token. */
  ghost predicate EndsToken(tail: string) {
    tail == "" || !IsHex(tail[0])
  }

  ghost predicate Spells(s: string, prefix: string, gallery: Gallery, tail: string) {
    && s == prefix + gallery.gid + "/" + gallery.token + tail
    && IsPrefix(prefix) && WellFormed(gallery) && EndsToken(tail)
  }

  lemma {:induction false} PrefixFound(s: string, i: nat, prefixes: seq<string>)
    requires i < |prefixes| && FoldStarts(s, prefixes[i])
    requires forall a, b :: 0 <= a < b < |prefixes| ==> Differ(prefixes[a], prefixes[b])
    ensures PrefixLength(s, prefixes) == |prefixes[i]|
  {
    if i > 0 {
      assert Differ(prefixes[0], prefixes[i]);
      PrefixFound(s, i - 1, prefixes[1..]);
    }
  }

  ghost predicate Differ(p: string, q: string) {
    exists k :: 0 <= k < |p| && k < |q| && p[k] != q[k]
  }

  lemma PrefixesDiffer()
    ensures forall a, b :: 0 <= a < b < |PREFIXES| ==> Differ(PREFIXES[a], PREFIXES[b])
  {
    var at := (p: string, q: string, k: nat) requires k < |p| && k < |q| => p[k] != q[k];
    assert at(PREFIXES[0], PREFIXES[1], 1) && at(PREFIXES[2], PREFIXES[3], 3) && at(PREFIXES[4], PREFIXES[5], 8);
    forall a, b | 0 <= a < b < |PREFIXES|
      ensures Differ(PREFIXES[a], PREFIXES[b])
    {
      if b - a == 1 && a % 2 == 0 {
      } else {
        assert PREFIXES[a][0] != PREFIXES[b][0];
      }
    }
  }

  lemma {:induction false} PrefixIsListed(s: string, prefixes: seq<string>)
    requires PrefixLength(s, prefixes) > 0
    ensures var n := PrefixLength(s, prefixes); n <= |s| && Lower(s[..n]) in prefixes
  {
    if !FoldStarts(s, prefixes[0]) {
      PrefixIsListed(s, prefixes[1..]);
    }
  }

  lemma {:induction false} SpanOf(run: string, rest: string, p: char -> bool)
    requires All(run, p) && (rest == "" || !p(rest[0]))
    ensures Span(run + rest, p) == |run|
  {
    if run == "" {
      assert run + rest == rest;
    } else {
      assert (run + rest)[1..] == run[1..] + rest;
      SpanOf(run[1..], rest, p);
    }
  }

  /** The hand-written matcher finds exactly what the pattern describes. */
  lemma ParsesExactlyThePattern(s: string, gallery: Gallery)
    ensures ParseGallery(s) == Some(gallery) <==> exists prefix, tail :: Spells(s, prefix, gallery, tail)
  {
    if ParseGallery(s) == Some(gallery) {
      ParsedIsSpelled(s, gallery);
    }
    if prefix, tail :| Spells(s, prefix, gallery, tail) {
      SpelledParses(s, prefix, gallery, tail);
    }
  }

  lemma ParsedIsSpelled(s: string, gallery: Gallery)
    requires ParseGallery(s) == Some(gallery)
    ensures exists prefix, tail :: Spells(s, prefix, gallery, tail)
  {
    PrefixIsListed(s, PREFIXES);
    var n := PrefixLength(s, PREFIXES);
    var tail := s[n + |gallery.gid| + 1 + |gallery.token|..];
    Reassemble(s, n, |gallery.gid|, |gallery.token|);
    assert Spells(s, s[..n], gallery, tail);
  }

  lemma Reassemble(s: string, n: nat, d: nat, h: nat)
    requires n + d + 1 + h <= |s| && s[n + d] == '/'
    ensures s[n..][d + 1..] == s[n + d + 1..] && s[n + d + 1..][h..] == s[n + d + 1 + h..]
    ensures s == s[..n] + s[n..][..d] + "/" + s[n..][d + 1..][..h] + s[n + d + 1 + h..]
  {
  }

  lemma SpelledParses(s: string, prefix: string, gallery: Gallery, tail: string)
    requires Spells(s, prefix, gallery, tail)
    ensures ParseGallery(s) == Some(gallery)
  {
    var after := gallery.token + tail;
    var rest := gallery.gid + ("/" + after);
    Regrouped(prefix, gallery.gid, "/", gallery.token, tail);
    ConcatAssoc(gallery.gid, "/" + gallery.token, tail);
    ConcatAssoc("/", gallery.token, tail);
    ConcatSlices(prefix, rest);
    PrefixMeasured(s, prefix);
    CapturesAt(rest, gallery, tail);
  }

  lemma CapturesAt(rest: string, gallery: Gallery, tail: string)
    requires WellFormed(gallery) && EndsToken(tail)
    requires rest == gallery.gid + ("/" + (gallery.token + tail))
    ensures var d := |gallery.gid|;
            && Span(rest, IsDigit) == d < |rest| && rest[d] == '/' && rest[..d] == gallery.gid
            && Span(rest[d + 1..], IsHex) == |gallery.token| && rest[d + 1..][..|gallery.token|] == gallery.token
  {
    var after := gallery.token + tail;
    SpanOf(gallery.gid, "/" + after, IsDigit);
    ConcatSlices(gallery.gid, "/" + after);
    ConcatSlices(gallery.gid + "/", after);
    ConcatAssoc(gallery.gid, "/", after);
    SpanOf(gallery.token, tail, IsHex);
    ConcatSlices(gallery.token, tail);
  }

  lemma PrefixMeasured(s: string, prefix: string)
    requires IsPrefix(prefix) && |prefix| <= |s| && s[..|prefix|] == prefix
    ensures PrefixLength(s, PREFIXES) == |prefix| > 0
  {
    var i :| 0 <= i < |PREFIXES| && PREFIXES[i] == Lower(prefix);
    PrefixesDiffer();
    PrefixFound(s, i, PREFIXES);
    PrefixCharacters(i);
  }

  // ----- One value per gallery

  lemma {:induction false} TrimEndStops(core: string, tail: string, extra: char)
    requires core != "" && !IsSpace(core[|core| - 1], extra)
    ensures TrimEnd(core + tail, extra) == core + TrimEnd(tail, extra) && StartsWith(tail, TrimEnd(tail, extra))
  {
    if tail == "" {
      assert core + tail == core;
    } else if IsSpace(tail[|tail| - 1], extra) {
      var shorter := tail[..|tail| - 1];
      assert (core + tail)[..|core + tail| - 1] == core + shorter;
      TrimEndStops(core, shorter, extra);
    }
  }

  lemma BeforeKeeps(core: string, tail: string, sep: char)
    requires sep !in core
    ensures Before(core + tail, sep) == core + Before(tail, sep) && StartsWith(tail, Before(tail, sep))
  {
    var s, k := core + tail, |core| + IndexOf(tail, sep);
    assert s[..k] == core + tail[..IndexOf(tail, sep)];
    IndexIs(s, sep, k);
  }

  lemma {:induction false} DropTrailingStops(core: string, tail: string, c: char)
    requires core != "" && core[|core| - 1] != c
    ensures DropTrailing(core + tail, c) == core + DropTrailing(tail, c)
  {
    if tail == "" {
      assert core + tail == core;
    } else if tail[|tail| - 1] == c {
      var shorter := tail[..|tail| - 1];
      assert (core + tail)[..|core + tail| - 1] == core + shorter;
      DropTrailingStops(core, shorter, c);
    }
  }

  /** The letters the listed prefixes begin with: neither a scheme nor `www.` begins like that. */
  predicate StartsHost(s: string) {
    s != "" && (LowerChar(s[0]) == 'e' || LowerChar(s[0]) == 'f' || LowerChar(s[0]) == 'g')
  }

  /** A gallery's URL up to the end of its token: nothing in it is trimmed, cut or stripped. */
  lemma CoreSurvives(prefix: string, gallery: Gallery, core: string)
    requires IsPrefix(prefix) && WellFormed(gallery)
    requires core == prefix + gallery.gid + "/" + gallery.token
    ensures StartsHost(core)
    ensures IsHex(core[|core| - 1]) && '?' !in core && '#' !in core
  {
    var i :| 0 <= i < |PREFIXES| && PREFIXES[i] == Lower(prefix);
    assert forall k :: 0 <= k < |prefix| ==> PREFIXES[i][k] == LowerChar(prefix[k]);
    PrefixCharacters(i);
    assert core[0] == prefix[0];
    assert gallery.token == core[|core| - |gallery.token|..];
  }

  lemma PrefixCharacters(i: nat)
    requires i < |PREFIXES|
    ensures StartsHost(PREFIXES[i]) && '?' !in PREFIXES[i] && '#' !in PREFIXES[i]
  {
  }

  predicate IsScheme(scheme: string) {
    scheme == "" || Lower(scheme) == "http://" || Lower(scheme) == "https://"
  }

  predicate IsWww(www: string) {
    www == "" || Lower(www) == "www."
  }

  /** Everything in front of the gallery's own host that the generic trimming removes. */
  ghost predicate IsLead(lead: string, scheme: string, www: string) {
    && (forall i :: 0 <= i < |lead| ==> IsSpace(lead[i], BYTE_ORDER_MARK))
    && IsScheme(scheme)
    && IsWww(www)
  }

  lemma SchemeGoes(scheme: string, rest: string)
    requires IsScheme(scheme)
    requires rest != "" && (StartsHost(rest) || LowerChar(rest[0]) == 'w')
    ensures StripScheme(scheme + rest) == rest
  {
    var s := scheme + rest;
    if scheme == "" {
      assert s == rest;
      assert |rest| >= 7 ==> Lower(rest[..7])[0] == LowerChar(rest[0]);
      assert |rest| >= 8 ==> Lower(rest[..8])[0] == LowerChar(rest[0]);
    } else {
      assert s[..|scheme|] == scheme && s[|scheme|..] == rest;
      if |scheme| == 7 {
        assert LowerChar(s[4]) == Lower(scheme)[4] == ':';
        assert |s| >= 8 ==> Lower(s[..8])[4] == ':';
      }
    }
  }

  lemma WwwGoes(www: string, rest: string)
    requires IsWww(www)
    requires StartsHost(rest)
    ensures StripFold(www + rest, "www.") == rest
  {
    var s := www + rest;
    if www == "" {
      assert s == rest;
      assert |rest| >= 4 ==> Lower(rest[..4])[0] == LowerChar(rest[0]);
    } else {
      assert s[..4] == www && s[4..] == rest;
    }
  }

  lemma FrontGoes(scheme: string, www: string, rest: string)
    requires IsScheme(scheme) && IsWww(www)
    requires StartsHost(rest)
    ensures StripFold(StripScheme(scheme + (www + rest)), "www.") == rest
    ensures !IsSpace((scheme + (www + rest))[0], BYTE_ORDER_MARK)
  {
    var named := www + rest;
    assert www != "" ==> LowerChar(named[0]) == Lower(www)[0] == 'w';
    assert scheme != "" ==> LowerChar((scheme + named)[0]) == Lower(scheme)[0] == 'h';
    SchemeGoes(scheme, named);
    WwwGoes(www, rest);
  }

  lemma LeadGoes(lead: string, scheme: string, www: string, core: string, tail: string)
    requires IsLead(lead, scheme, www)
    requires StartsHost(core) && IsHex(core[|core| - 1])
    ensures StripFold(StripScheme(Trim(lead + scheme + www + core + tail, BYTE_ORDER_MARK)), "www.")
         == core + TrimEnd(tail, BYTE_ORDER_MARK)
    ensures StartsWith(tail, TrimEnd(tail, BYTE_ORDER_MARK))
  {
    var cut := TrimEnd(tail, BYTE_ORDER_MARK);
    FrontGoes(scheme, www, core);
    LastOf(scheme, www, core);
    TrimsTo(lead, scheme + (www + core), tail);
    Regrouped(lead, scheme, www, core, tail);
    Regrouped(lead, scheme, www, core, cut);
    assert (core + cut)[0] == core[0];
    FrontGoes(scheme, www, core + cut);
  }

  lemma TrimsTo(lead: string, full: string, tail: string)
    requires forall i :: 0 <= i < |lead| ==> IsSpace(lead[i], BYTE_ORDER_MARK)
    requires full != "" && !IsSpace(full[0], BYTE_ORDER_MARK) && !IsSpace(full[|full| - 1], BYTE_ORDER_MARK)
    ensures Trim(lead + (full + tail), BYTE_ORDER_MARK) == full + TrimEnd(tail, BYTE_ORDER_MARK)
    ensures StartsWith(tail, TrimEnd(tail, BYTE_ORDER_MARK))
  {
    TrimStartDrops(lead, full + tail, BYTE_ORDER_MARK);
    TrimEndStops(full, tail, BYTE_ORDER_MARK);
  }

  lemma Regrouped(a: string, b: string, c: string, d: string, e: string)
    ensures a + b + c + d + e == a + ((b + (c + d)) + e)
    ensures (b + (c + d)) + e == b + (c + (d + e))
  {
  }

  lemma LastOf(a: string, b: string, c: string)
    requires c != ""
    ensures var s := a + (b + c); s != "" && s[|s| - 1] == c[|c| - 1]
  {
  }

  /** The generic trimming takes off what stands in front of a core and some of what follows it, and no more. */
  lemma GenericKeepsCore(lead: string, scheme: string, www: string, core: string, tail: string) returns (rest: string)
    requires IsLead(lead, scheme, www) && StartsHost(core) && IsHex(core[|core| - 1]) && '?' !in core && '#' !in core
    ensures Generic(lead + scheme + www + core + tail) == core + rest
    ensures rest != "" ==> tail != "" && rest[0] == tail[0]
  {
    LeadGoes(lead, scheme, www, core, tail);
    var t1 := TrimEnd(tail, BYTE_ORDER_MARK);
    BeforeKeeps(core, t1, '?');
    var t2 := Before(t1, '?');
    BeforeKeeps(core, t2, '#');
    var t3 := Before(t2, '#');
    DropTrailingStops(core, t3, '/');
    rest := DropTrailing(t3, '/');
    assert StartsWith(tail, t1) && StartsWith(t1, t2) && StartsWith(t2, t3) && StartsWith(t3, rest);
    assert rest != "" ==> rest[0] == t3[0] == t2[0] == t1[0] == tail[0];
  }

  /** Every alias of a gallery's URL, whatever follows the token, has the gallery's one canonical form. */
  lemma EveryAliasIsCanonical(lead: string, scheme: string, www: string, prefix: string, gallery: Gallery, tail: string)
    requires IsLead(lead, scheme, www) && IsPrefix(prefix) && WellFormed(gallery) && EndsToken(tail)
    ensures CanonicalizeSource(lead + scheme + www + prefix + gallery.gid + "/" + gallery.token + tail)
         == CanonicalForm(gallery)
  {
    var core := prefix + gallery.gid + "/" + gallery.token;
    var url := lead + scheme + www + prefix + gallery.gid + "/" + gallery.token + tail;
    CoreSurvives(prefix, gallery, core);
    assert url == lead + scheme + www + core + tail;
    var rest := GenericKeepsCore(lead, scheme, www, core, tail);
    assert core + rest == prefix + gallery.gid + "/" + gallery.token + rest;
    SpelledParses(core + rest, prefix, gallery, rest);
  }

  const GALLERY_PATH: string := "e-hentai.org/g/"

  /** Whatever the token, the value keeps the gallery's number whole: it is followed by a slash or by nothing. */
  lemma NumberStays(gid: string, token: string) returns (tail: string)
    requires gid != "" && All(gid, IsDigit)
    ensures CanonicalizeSource(GALLERY_PATH + gid + "/" + token) == GALLERY_PATH + gid + tail
    ensures tail == "" || tail[0] == '/'
  {
    tail := GenericOfNumber(gid, token);
    if ParseGallery(GALLERY_PATH + gid + tail).Some? {
      NumberParsed(gid, tail);
      var token' := ParseGallery(GALLERY_PATH + gid + tail).value.token;
      FormOfNumber(Gallery(gid, token'));
      tail := "/" + token';
    }
  }

  lemma FormOfNumber(gallery: Gallery)
    ensures CanonicalForm(gallery) == GALLERY_PATH + gallery.gid + ("/" + gallery.token)
  {
    ConcatAssoc(GALLERY_PATH + gallery.gid, "/", gallery.token);
  }

  lemma GenericOfNumber(gid: string, token: string) returns (rest: string)
    requires gid != "" && All(gid, IsDigit)
    ensures Generic(GALLERY_PATH + gid + "/" + token) == GALLERY_PATH + gid + rest
    ensures rest == "" || rest[0] == '/'
  {
    CoreOfNumber(gid);
    NoLead();
    ConcatAssoc(GALLERY_PATH + gid, "/", token);
    assert "" + "" + "" + (GALLERY_PATH + gid) == GALLERY_PATH + gid;
    rest := GenericKeepsCore("", "", "", GALLERY_PATH + gid, "/" + token);
  }

  lemma NoLead()
    ensures IsLead("", "", "")
  {
  }

  lemma CoreOfNumber(gid: string)
    requires gid != "" && All(gid, IsDigit)
    ensures var core := GALLERY_PATH + gid;
            StartsHost(core) && IsHex(core[|core| - 1]) && '?' !in core && '#' !in core
  {
    var core := GALLERY_PATH + gid;
    assert core[|core| - 1] == gid[|gid| - 1];
    assert '?' !in GALLERY_PATH && '#' !in GALLERY_PATH;
    assert forall i :: 0 <= i < |gid| ==> IsDigit(gid[i]);
  }

  lemma NumberParsed(gid: string, tail: string)
    requires gid != "" && All(gid, IsDigit) && (tail == "" || tail[0] == '/')
    requires ParseGallery(GALLERY_PATH + gid + tail).Some?
    ensures ParseGallery(GALLERY_PATH + gid + tail).value.gid == gid
  {
    PathIsPrefix();
    ConcatAssoc(GALLERY_PATH, gid, tail);
    NumberAfter(GALLERY_PATH, gid, tail);
  }

  lemma PathIsPrefix()
    ensures IsPrefix(GALLERY_PATH)
  {
    assert Lower(GALLERY_PATH) == GALLERY_PATH == PREFIXES[0];
  }

  lemma NumberAfter(prefix: string, gid: string, tail: string)
    requires IsPrefix(prefix) && gid != "" && All(gid, IsDigit) && (tail == "" || tail[0] == '/')
    requires ParseGallery(prefix + (gid + tail)).Some?
    ensures ParseGallery(prefix + (gid + tail)).value.gid == gid
  {
    ConcatSlices(prefix, gid + tail);
    ConcatSlices(gid, tail);
    PrefixMeasured(prefix + (gid + tail), prefix);
    SpanOf(gid, tail, IsDigit);
  }

  /** A canonical form is its own canonical form. */
  lemma CanonicalFormIsFixed(gallery: Gallery)
    requires WellFormed(gallery)
    ensures CanonicalizeSource(CanonicalForm(gallery)) == CanonicalForm(gallery)
    ensures ParseGallery(CanonicalForm(gallery)) == Some(gallery)
  {
    var prefix := "e-hentai.org/g/";
    assert Lower(prefix) == prefix == PREFIXES[0];
    var url := CanonicalForm(gallery);
    assert url == "" + "" + "" + prefix + gallery.gid + "/" + gallery.token + "";
    assert Lower("") == "";
    EveryAliasIsCanonical("", "", "", prefix, gallery, "");
    SpelledParses(url, prefix, gallery, "");
  }

  lemma ParsedIsWellFormed(s: string)
    requires ParseGallery(s).Some?
    ensures WellFormed(ParseGallery(s).value)
  {
    ParsedIsSpelled(s, ParseGallery(s).value);
  }

  /** Two URLs have the same value exactly when both name one gallery, or neither names any and they trim alike. */
  lemma SameValueIffSameGallery(u: string, v: string)
    ensures CanonicalizeSource(u) == CanonicalizeSource(v)
        <==> ParseGallery(Generic(u)) == ParseGallery(Generic(v))
             && (ParseGallery(Generic(u)).None? ==> Generic(u) == Generic(v))
  {
    var p, q := ParseGallery(Generic(u)), ParseGallery(Generic(v));
    if p.Some? {
      ParsedIsWellFormed(Generic(u));
      CanonicalFormIsFixed(p.value);
    }
    if q.Some? {
      ParsedIsWellFormed(Generic(v));
      CanonicalFormIsFixed(q.value);
    }
  }

  // ----- Canonicalizing twice

  /** Nothing at the ends of `s` is left for another pass to remove. */
  predicate Settled(s: string) {
    && (s != "" ==> !IsSpace(s[0], BYTE_ORDER_MARK) && !IsSpace(s[|s| - 1], BYTE_ORDER_MARK))
    && !FoldStarts(s, "http://") && !FoldStarts(s, "https://") && !FoldStarts(s, "www.")
  }

  lemma {:induction false} TrimShrinks(s: string, extra: char)
    ensures |TrimStart(s, extra)| <= |s| && |TrimEnd(s, extra)| <= |s|
    ensures s != "" && IsSpace(s[0], extra) ==> |TrimStart(s, extra)| < |s|
    ensures s != "" && IsSpace(s[|s| - 1], extra) ==> |TrimEnd(s, extra)| < |s|
  {
    if s != "" {
      TrimShrinks(s[1..], extra);
      TrimShrinks(s[..|s| - 1], extra);
    }
  }

  lemma GenericShrinks(s: string)
    ensures |Generic(s)| <= |s|
    ensures !Settled(s) ==> |Generic(s)| < |s|
  {
    var extra := BYTE_ORDER_MARK;
    TrimShrinks(s, extra);
    TrimShrinks(TrimStart(s, extra), extra);
    if s != "" && IsSpace(s[|s| - 1], extra) && !IsSpace(s[0], extra) {
      assert TrimStart(s, extra) == s;
    }
  }

  lemma SettledStays(url: string)
    requires Settled(Generic(url))
    ensures Generic(Generic(url)) == Generic(url)
  {
    var g := Generic(url);
    GenericIsCut(url);
    IndexIs(g, '?', |g|);
    IndexIs(g, '#', |g|);
  }

  lemma GenericIsCut(url: string)
    ensures '?' !in Generic(url) && '#' !in Generic(url)
  {
    var stripped := StripFold(StripScheme(Trim(url, BYTE_ORDER_MARK)), "www.");
    var a := Before(stripped, '?');
    var b := Before(a, '#');
    var g := Generic(url);
    assert forall c :: c in b ==> c in a;
    assert forall c :: c in g ==> c in b;
  }

  /**
    `canonicalizeSource` is idempotent on a URL exactly when it names a gallery or its trimmed form has
    no further scheme, `www.` or outer white space: those are removed once, not until none is left.
   */
  lemma IdempotentExactly(url: string)
    ensures CanonicalizeSource(CanonicalizeSource(url)) == CanonicalizeSource(url)
        <==> ParseGallery(Generic(url)).Some? || Settled(Generic(url))
  {
    var g := Generic(url);
    if ParseGallery(g).Some? {
      ParsedIsWellFormed(g);
      CanonicalFormIsFixed(ParseGallery(g).value);
    } else if Settled(g) {
      SettledStays(url);
    } else {
      GenericShrinks(g);
      if ParseGallery(Generic(g)).Some? {
        ParsedIsWellFormed(Generic(g));
        CanonicalFormIsFixed(ParseGallery(Generic(g)).value);
      }
    }
  }

  /** White space before a trailing slash is such a URL: the slash goes only after the trimming. */
  lemma NotAlwaysIdempotent() returns (url: string)
    ensures CanonicalizeSource(CanonicalizeSource(url)) != CanonicalizeSource(url)
  {
    url :| url == ['a', ' ', '/'];
    assert Trim(url, BYTE_ORDER_MARK) == url;
    IndexIs(url, '?', 3);
    IndexIs(url, '#', 3);
    assert url[..3] == url && url[..2] == ['a', ' '];
    assert Generic(url) == ['a', ' '];
    NoGalleryHere(['a', ' ']);
    IdempotentExactly(url);
  }

  lemma NoGalleryHere(s: string)
    requires s != "" && !StartsHost(s)
    ensures ParseGallery(s).None?
  {
    var n := PrefixLength(s, PREFIXES);
    assert 0 < n <= |s| ==> Lower(s[..n])[0] == LowerChar(s[0]);
    forall i: nat | i < |PREFIXES| {
      PrefixCharacters(i);
    }
    assert forall p :: p in PREFIXES ==> StartsHost(p);
    if n > 0 {
      PrefixIsListed(s, PREFIXES);
    }
  }
}
