/**
  Origins as `normalize_origin` leaves them, their spelling, and the peer list a redirect carries as text.
 */
module Origins {
  import opened Text

  datatype Scheme = Http | Https

  datatype Host = Localhost | Loopback4 | Loopback6 | Named(name: string)

  /** The port is present only when it is not the scheme's own. */
  datatype Origin = Origin(scheme: Scheme, host: Host, port: Option<nat>)

  /** A port the `url` crate would print: in range and not the default of the scheme. */
  predicate NormalPort(o: Origin) {
    o.port.Some? ==> o.port.value < 0x1_0000 && o.port.value != if o.scheme.Http? then 80 else 443
  }

  function EffectivePort(o: Origin): nat {
    o.port.GetOr(if o.scheme.Http? then 80 else 443)
  }

  predicate IsLoopback(o: Origin) {
    !o.host.Named?
  }

  /** Same scheme and port, and the same host or two loopback aliases. */
  predicate SameAuthority(a: Origin, b: Origin) {
    a.scheme == b.scheme && EffectivePort(a) == EffectivePort(b)
    && (a.host == b.host || (IsLoopback(a) && IsLoopback(b)))
  }

  /** The aliases a loopback origin may hand off to; never `[::1]`. */
  function LoopbackSiblings(o: Origin): seq<Origin> {
    if !IsLoopback(o) then []
    else
      (if o.host.Localhost? then [] else [o.(host := Localhost)])
      + if o.host.Loopback4? then [] else [o.(host := Loopback4)]
  }

  function RenderHost(h: Host): string {
    match h
    case Localhost => "localhost"
    case Loopback4 => "127.0.0.1"
    case Loopback6 => "[::1]"
    case Named(name) => name
  }

  function Render(o: Origin): string {
    (if o.scheme.Http? then "http://" else "https://") + RenderHost(o.host)
    + if o.port.Some? then ":" + Digits(o.port.value) else ""
  }

  type Normalizer = string -> Option<Origin>

  /** A printed origin is ASCII, with nothing percent-encoded in it. */
  predicate IsPrintable(s: string) {
    forall i :: 0 <= i < |s| ==> s[i] < '\U{0080}' && s[i] != '%'
  }

  /**
    What is assumed of `normalize_origin`: it trims, it reads back what it wrote, and a host gets a comma only
    from a comma, from percent-decoding, or from a character outside ASCII.
   */
  ghost predicate ReadsBack(normalize: Normalizer) {
    && (forall s {:trigger Trim(s, NEXT_LINE)} :: normalize(Trim(s, NEXT_LINE)) == normalize(s))
    && (forall s :: normalize(s).Some? ==>
          NormalPort(normalize(s).value) && IsNormal(normalize(s).value, normalize)
          && IsPrintable(Render(normalize(s).value)))
    && (forall o :: IsLoopback(o) && NormalPort(o) ==> IsNormal(o, normalize))
    && (forall s :: normalize(s).Some? && IsPrintable(s) && ',' !in s ==> !HasComma(normalize(s).value))
  }

  /** The origin reads back from its own spelling. */
  predicate IsNormal(o: Origin, normalize: Normalizer) {
    normalize(Render(o)) == Some(o)
  }

  ghost predicate AllNormal(peers: seq<Origin>, normalize: Normalizer) {
    forall o :: o in peers ==> IsNormal(o, normalize)
  }

  predicate HasComma(o: Origin) {
    ',' in RenderHost(o.host)
  }

  predicate NoCommas(peers: seq<Origin>) {
    forall o :: o in peers ==> !HasComma(o)
  }

  lemma CommaIsInHost(o: Origin)
    ensures ',' in Render(o) <==> HasComma(o)
  {
    var scheme := if o.scheme.Http? then "http://" else "https://";
    var port := if o.port.Some? then ":" + Digits(o.port.value) else "";
    assert ',' !in scheme && ',' !in port;
    assert Render(o) == scheme + RenderHost(o.host) + port;
  }

  // ----- encode_peers and parse_peers

  function Rendered(peers: seq<Origin>): seq<string> {
    seq(|peers|, i requires 0 <= i < |peers| => Render(peers[i]))
  }

  function EncodePeers(peers: seq<Origin>): string {
    Join(Rendered(peers), ',')
  }

  /** The parameter that carries a peer list: absent when the list is empty. */
  function Sent(peers: seq<Origin>): Option<string> {
    if peers == [] then None else Some(EncodePeers(peers))
  }

  /** Each piece trimmed; empty and unreadable ones dropped. */
  function ReadAll(pieces: seq<string>, normalize: Normalizer): (peers: seq<Origin>)
    ensures |peers| <= |pieces|
  {
    if pieces == [] then []
    else
      var piece := Trim(pieces[0], NEXT_LINE);
      (if piece != "" && normalize(piece).Some? then [normalize(piece).value] else []) + ReadAll(pieces[1..], normalize)
  }

  function ParsePeers(raw: Option<string>, normalize: Normalizer): seq<Origin> {
    ReadAll(Split(raw.GetOr(""), ','), normalize)
  }

  lemma TrimKeepsText(s: string)
    requires s != "" && !IsSpace(s[0], NEXT_LINE)
    ensures Trim(s, NEXT_LINE) != ""
  {
    TrimEndKeepsStart(s);
  }

  lemma TrimEndKeepsStart(s: string)
    requires s != "" && !IsSpace(s[0], NEXT_LINE)
    ensures TrimEnd(s, NEXT_LINE) != "" && TrimEnd(s, NEXT_LINE)[0] == s[0]
  {
  }

  lemma {:induction false} ReadsRendered(peers: seq<Origin>, normalize: Normalizer)
    requires ReadsBack(normalize) && AllNormal(peers, normalize)
    ensures ReadAll(Rendered(peers), normalize) == peers
  {
    if peers != [] {
      assert peers[0] in peers && Render(peers[0])[0] == 'h';
      TrimKeepsText(Render(peers[0]));
      ReadsRendered(peers[1..], normalize);
      assert Rendered(peers)[1..] == Rendered(peers[1..]);
    }
  }

  /** Pieces that are printed text without a comma name no host with a comma. */
  lemma {:induction false} PiecesHaveNoComma(pieces: seq<string>, normalize: Normalizer)
    requires ReadsBack(normalize) && forall p :: p in pieces ==> IsPrintable(p) && ',' !in p
    ensures NoCommas(ReadAll(pieces, normalize))
  {
    if pieces != [] {
      assert pieces[0] in pieces;
      PiecesHaveNoComma(pieces[1..], normalize);
    }
  }

  lemma {:induction false} SplitIsPrintable(s: string)
    requires IsPrintable(s)
    ensures forall p :: p in Split(s, ',') ==> IsPrintable(p)
  {
    var k := IndexOf(s, ',');
    if k == |s| {
      SplitWhole(s, ',');
    } else {
      SplitAtFirst(s, ',', k);
      SplitIsPrintable(s[k + 1..]);
    }
  }

  lemma {:induction false} JoinIsPrintable(parts: seq<string>)
    requires forall p :: p in parts ==> IsPrintable(p)
    ensures IsPrintable(Join(parts, ','))
  {
    if parts != [] {
      JoinIsPrintable(parts[1..]);
      assert parts[0] in parts && ',' < '\U{0080}';
      assert |parts| > 1 ==> Join(parts, ',') == parts[0] + [','] + Join(parts[1..], ',');
    }
  }

  /** Whatever normal peers are sent, no peer that is read has a comma in its host. */
  lemma {:induction false} ReadHasNoComma(peers: seq<Origin>, normalize: Normalizer)
    requires ReadsBack(normalize) && AllNormal(peers, normalize)
    ensures NoCommas(ParsePeers(Sent(peers), normalize))
  {
    forall p | p in Rendered(peers)
      ensures IsPrintable(p)
    {
      var i :| 0 <= i < |peers| && p == Render(peers[i]);
      assert peers[i] in peers;
    }
    JoinIsPrintable(Rendered(peers));
    var raw := Sent(peers).GetOr("");
    SplitIsPrintable(raw);
    JoinSplit(raw, ',');
    PiecesHaveNoComma(Split(raw, ','), normalize);
  }

  /** A peer list survives being sent exactly when no host in it has a comma. */
  lemma {:induction false} PeersRoundTrip(peers: seq<Origin>, normalize: Normalizer)
    requires ReadsBack(normalize) && AllNormal(peers, normalize)
    ensures ParsePeers(Sent(peers), normalize) == peers <==> NoCommas(peers)
    ensures Sent(peers).None? <==> peers == []
  {
    ReadHasNoComma(peers, normalize);
    if peers == [] {
      assert Split("", ',') == [""] && Trim("", NEXT_LINE) == "";
      assert ReadAll([""], normalize) == ReadAll([""][1..], normalize);
    } else if NoCommas(peers) {
      forall p | p in Rendered(peers)
        ensures ',' !in p
      {
        var i :| 0 <= i < |peers| && p == Render(peers[i]);
        assert peers[i] in peers;
        CommaIsInHost(peers[i]);
      }
      SplitJoin(Rendered(peers), ',');
      ReadsRendered(peers, normalize);
    }
  }

  /** A peer whose host has a comma is never among those read back: the list is cut inside its name. */
  lemma {:induction false} CommaHostIsLost(peers: seq<Origin>, o: Origin, normalize: Normalizer)
    requires ReadsBack(normalize) && AllNormal(peers, normalize) && HasComma(o)
    ensures o !in ParsePeers(Sent(peers), normalize)
  {
    ReadHasNoComma(peers, normalize);
  }

  /** `http://a%2Cb` is such a host: it holds no comma itself, but hosts are percent-decoded. */
  lemma {:induction false} EncodedCommaIsLost(normalize: Normalizer)
    requires ReadsBack(normalize) && normalize("http://a%2Cb") == Some(Origin(Http, Named("a,b"), None))
    ensures var o := normalize("http://a%2Cb").value;
            IsNormal(o, normalize) && o !in ParsePeers(Sent([o]), normalize)
  {
    var o := normalize("http://a%2Cb").value;
    assert "a,b"[1] == ',' && HasComma(o);
    CommaHostIsLost([o], o, normalize);
  }

  /** Two readable pieces around a comma are two peers. */
  lemma {:induction false} ReadsTwo(first: string, second: string, a: Origin, b: Origin, normalize: Normalizer)
    requires ReadsBack(normalize) && first != "" && second != "" && ',' !in first && ',' !in second
    requires !IsSpace(first[0], NEXT_LINE) && !IsSpace(second[0], NEXT_LINE)
    requires normalize(first) == Some(a) && normalize(second) == Some(b)
    ensures ParsePeers(Some(first + "," + second), normalize) == [a, b]
  {
    assert Join([first, second], ',') == first + [','] + second;
    SplitJoin([first, second], ',');
    TrimKeepsText(first);
    TrimKeepsText(second);
    assert [first, second][1..] == [second] && [second][1..] == [];
    assert ReadAll([second], normalize) == [b] + ReadAll([], normalize);
  }

  /**
    One peer sent can be two peers read: the name is cut at its comma, and what stands behind it is an address
    of its own once the port follows it, as `http:8080` is.
   */
  lemma {:induction false} CommaHostIsReadAsTwo(head: string, rest: string, port: nat, a: Origin, b: Origin,
                                                normalize: Normalizer)
    requires ReadsBack(normalize) && ',' !in head && ',' !in rest && rest != "" && !IsSpace(rest[0], NEXT_LINE)
    requires normalize("http://" + head) == Some(a) && normalize(rest + ":" + Digits(port)) == Some(b)
    ensures ParsePeers(Sent([Origin(Http, Named(head + "," + rest), Some(port))]), normalize) == [a, b]
  {
    var o, first, second := Origin(Http, Named(head + "," + rest), Some(port)), "http://" + head,
                            rest + ":" + Digits(port);
    assert Render(o) == first + "," + second && Rendered([o]) == [first + "," + second];
    assert first[0] == 'h' && second[0] == rest[0];
    ReadsTwo(first, second, a, b, normalize);
  }
}
