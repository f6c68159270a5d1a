/** Strings as the modelled code cuts them: splitting at a separator, joining, prefixes, trimming. */
module Text {

  datatype Option<+T> = None | Some(value: T) {
    function GetOr(default: T): T {
      if Some? then value else default
    }
  }

  predicate StartsWith(s: string, prefix: string) {
    |prefix| <= |s| && s[..|prefix|] == prefix
  }

  predicate EndsWith(s: string, suffix: string) {
    |suffix| <= |s| && s[|s| - |suffix|..] == suffix
  }

  /** The pieces between the separators, empty ones included: the empty string has one empty piece. */
  function Split(s: string, sep: char): (parts: seq<string>)
    ensures |parts| >= 1
  {
    if s == "" then [""]
    else if s[0] == sep then [""] + Split(s[1..], sep)
    else
      var rest := Split(s[1..], sep);
      [[s[0]] + rest[0]] + rest[1..]
  }

  function Join(parts: seq<string>, sep: char): string {
    if |parts| == 0 then ""
    else if |parts| == 1 then parts[0]
    else parts[0] + [sep] + Join(parts[1..], sep)
  }

  /** Where the first separator stands, or the length when there is none. */
  function IndexOf(s: string, sep: char): (k: nat)
    ensures k <= |s| && sep !in s[..k]
    ensures k < |s| ==> s[k] == sep
    ensures k == |s| <==> sep !in s
  {
    if s == "" || s[0] == sep then 0
    else
      var k := 1 + IndexOf(s[1..], sep);
      assert s[..k] == [s[0]] + s[1..][..k - 1];
      k
  }

  lemma ConcatHead(a: string, b: string)
    requires a != ""
    ensures (a + b)[0] == a[0] && (a + b)[1..] == a[1..] + b
  {
  }

  lemma ConcatSlices(a: string, b: string)
    ensures (a + b)[..|a|] == a && (a + b)[|a|..] == b
  {
  }

  lemma ConcatAssoc(a: string, b: string, c: string)
    ensures (a + b) + c == a + (b + c)
  {
  }

  lemma FreeOf(s: string, k: nat, c: char)
    requires k <= |s| && c !in s[..k]
    ensures forall i :: 0 <= i < k ==> s[i] != c
  {
    assert forall i :: 0 <= i < k ==> s[i] == s[..k][i];
  }

  lemma JoinHead(parts: seq<string>, sep: char)
    requires |parts| > 1
    ensures Join(parts, sep) == parts[0] + ([sep] + Join(parts[1..], sep))
  {
    ConcatAssoc(parts[0], [sep], Join(parts[1..], sep));
  }

  lemma IndexIs(s: string, sep: char, k: nat)
    requires k <= |s| && sep !in s[..k] && (k < |s| ==> s[k] == sep)
    ensures IndexOf(s, sep) == k
  {
    FreeOf(s, k, sep);
    FreeOf(s, IndexOf(s, sep), sep);
  }

  lemma {:induction false} SplitAtFirst(s: string, sep: char, k: nat)
    requires k < |s| && sep !in s[..k] && s[k] == sep
    ensures Split(s, sep) == [s[..k]] + Split(s[k + 1..], sep)
  {
    if k > 0 {
      assert s[0] == s[..k][0];
      assert forall c :: c in s[1..][..k - 1] ==> c in s[..k];
      SplitAtFirst(s[1..], sep, k - 1);
      assert s[1..][k..] == s[k + 1..];
      assert s[..k] == [s[0]] + s[1..][..k - 1];
    }
  }

  lemma {:induction false} SplitWhole(s: string, sep: char)
    requires sep !in s
    ensures Split(s, sep) == [s]
  {
    if s != "" {
      SplitWhole(s[1..], sep);
      assert s == [s[0]] + s[1..];
    }
  }

  /** A separator between two strings separates their pieces. */
  lemma {:induction false} SplitTwo(a: string, b: string, sep: char)
    ensures Split(a + [sep] + b, sep) == Split(a, sep) + Split(b, sep)
  {
    var s, k := a + [sep] + b, IndexOf(a, sep);
    if k == |a| {
      assert s[..k] == a && s[k + 1..] == b;
      SplitWhole(a, sep);
      SplitAtFirst(s, sep, k);
    } else {
      assert s[..k] == a[..k] && s[k + 1..] == a[k + 1..] + [sep] + b;
      SplitAtFirst(s, sep, k);
      SplitAtFirst(a, sep, k);
      SplitTwo(a[k + 1..], b, sep);
    }
  }

  /** Joining what was split gives the string back. */
  lemma {:induction false} JoinSplit(s: string, sep: char)
    ensures Join(Split(s, sep), sep) == s
    ensures forall p :: p in Split(s, sep) ==> sep !in p
  {
    var k := IndexOf(s, sep);
    if k == |s| {
      SplitWhole(s, sep);
    } else {
      SplitAtFirst(s, sep, k);
      JoinSplit(s[k + 1..], sep);
      assert s == s[..k] + [sep] + s[k + 1..];
    }
  }

  /** Splitting what was joined gives the pieces back, when no piece holds the separator. */
  lemma {:induction false} SplitJoin(parts: seq<string>, sep: char)
    requires parts != []
    requires forall p :: p in parts ==> sep !in p
    ensures Split(Join(parts, sep), sep) == parts
  {
    if |parts| == 1 {
      SplitWhole(parts[0], sep);
    } else {
      var joined, k := Join(parts, sep), |parts[0]|;
      assert joined == parts[0] + [sep] + Join(parts[1..], sep);
      assert joined[..k] == parts[0] && joined[k + 1..] == Join(parts[1..], sep);
      SplitAtFirst(joined, sep, k);
      SplitJoin(parts[1..], sep);
    }
  }

  function LowerChar(c: char): char {
    if 'A' <= c <= 'Z' then 'a' + (c - 'A') else c
  }

  function UpperChar(c: char): char {
    if 'a' <= c <= 'z' then 'A' + (c - 'a') else c
  }

  function Lower(s: string): (r: string)
    ensures |r| == |s|
  {
    seq(|s|, i requires 0 <= i < |s| => LowerChar(s[i]))
  }

  function Upper(s: string): (r: string)
    ensures |r| == |s|
  {
    seq(|s|, i requires 0 <= i < |s| => UpperChar(s[i]))
  }

  const NEXT_LINE: char := '\U{0085}'
  const BYTE_ORDER_MARK: char := '\U{FEFF}'

  /** White space. Rust's `str::trim` also removes U+0085 and JavaScript's `trim` also removes U+FEFF: `extra`. */
  predicate IsSpace(c: char, extra: char) {
    c == '\t' || c == '\n' || c == '\r' || c == ' ' || c == '\U{000B}' || c == '\U{000C}' || c == '\U{00A0}'
      || c == '\U{1680}'
    || '\U{2000}' <= c <= '\U{200A}' || c == '\U{2028}' || c == '\U{2029}' || c == '\U{202F}'
    || c == '\U{205F}' || c == '\U{3000}' || c == extra
  }

  /** By code point: Unicode's white space, and U+0085 for Rust alone, U+FEFF for JavaScript alone. */
  lemma SpacesAre(c: char)
    ensures var n := c as int;
            var shared := 9 <= n <= 13 || n == 32 || n == 0xA0 || n == 0x1680 || 0x2000 <= n <= 0x200A || n == 0x2028
                          || n == 0x2029 || n == 0x202F || n == 0x205F || n == 0x3000;
            (IsSpace(c, NEXT_LINE) <==> shared || n == 0x85) && (IsSpace(c, BYTE_ORDER_MARK) <==> shared || n == 0xFEFF)
  {
  }

  function TrimStart(s: string, extra: char): string {
    if s != "" && IsSpace(s[0], extra) then TrimStart(s[1..], extra) else s
  }

  function TrimEnd(s: string, extra: char): string {
    if s != "" && IsSpace(s[|s| - 1], extra) then TrimEnd(s[..|s| - 1], extra) else s
  }

  function Trim(s: string, extra: char): string {
    TrimEnd(TrimStart(s, extra), extra)
  }

  predicate AllSpace(s: string, extra: char) {
    forall i :: 0 <= i < |s| ==> IsSpace(s[i], extra)
  }

  /** White space, a core that neither starts nor ends with any, and white space again. */
  ghost predicate Pads(s: string, core: string, extra: char) {
    && (core == "" || (!IsSpace(core[0], extra) && !IsSpace(core[|core| - 1], extra)))
    && exists lead, tail :: AllSpace(lead, extra) && AllSpace(tail, extra) && s == lead + (core + tail)
  }

  /** What trimming leaves is the core, and nothing else is. */
  lemma {:induction false} TrimIsCore(s: string, core: string, extra: char)
    ensures Trim(s, extra) == core <==> Pads(s, core, extra)
  {
    if Trim(s, extra) == core {
      var rest := TrimStart(s, extra);
      var lead := TrimStartCuts(s, extra);
      var tail := TrimEndCuts(rest, extra);
      assert s == lead + (core + tail);
    }
    if Pads(s, core, extra) {
      var lead, tail :| AllSpace(lead, extra) && AllSpace(tail, extra) && s == lead + (core + tail);
      TrimStartDrops(lead, core + tail, extra);
      TrimEndDrops(core, tail, extra);
      if core == "" {
        TrimStartDrops(tail, "", extra);
        assert core + tail == tail + "";
      }
    }
  }

  lemma {:induction false} BlankIsSpace(s: string)
    ensures Trim(s, NEXT_LINE) == "" <==> AllSpace(s, NEXT_LINE)
  {
    TrimIsCore(s, "", NEXT_LINE);
    if Trim(s, NEXT_LINE) == "" {
      var lead, tail :| AllSpace(lead, NEXT_LINE) && AllSpace(tail, NEXT_LINE) && s == lead + ("" + tail);
    }
    if AllSpace(s, NEXT_LINE) {
      assert s == s + ("" + "");
    }
  }

  lemma {:induction false} TrimStartCuts(s: string, extra: char) returns (lead: string)
    ensures AllSpace(lead, extra) && s == lead + TrimStart(s, extra)
    ensures TrimStart(s, extra) == "" || !IsSpace(TrimStart(s, extra)[0], extra)
  {
    if s != "" && IsSpace(s[0], extra) {
      lead := TrimStartCuts(s[1..], extra);
      lead := [s[0]] + lead;
    } else {
      lead := "";
    }
  }

  lemma {:induction false} TrimEndCuts(s: string, extra: char) returns (tail: string)
    requires s == "" || !IsSpace(s[0], extra)
    ensures AllSpace(tail, extra) && s == TrimEnd(s, extra) + tail
    ensures var core := TrimEnd(s, extra);
            core == "" || (!IsSpace(core[|core| - 1], extra) && core[0] == s[0])
  {
    if s != "" && IsSpace(s[|s| - 1], extra) {
      tail := TrimEndCuts(s[..|s| - 1], extra);
      tail := tail + [s[|s| - 1]];
    } else {
      tail := "";
    }
  }

  lemma {:induction false} TrimStartDrops(lead: string, rest: string, extra: char)
    requires AllSpace(lead, extra)
    ensures TrimStart(lead + rest, extra) == TrimStart(rest, extra)
  {
    if lead == "" {
      assert lead + rest == rest;
    } else {
      assert (lead + rest)[1..] == lead[1..] + rest;
      TrimStartDrops(lead[1..], rest, extra);
    }
  }

  lemma {:induction false} TrimEndDrops(core: string, tail: string, extra: char)
    requires AllSpace(tail, extra) && (core == "" || !IsSpace(core[|core| - 1], extra))
    ensures TrimEnd(core + tail, extra) == core
  {
    if tail == "" {
      assert core + tail == core;
    } else {
      var shorter := tail[..|tail| - 1];
      assert (core + tail)[..|core + tail| - 1] == core + shorter;
      TrimEndDrops(core, shorter, extra);
    }
  }

  function DropTrailing(s: string, c: char): (out: string)
    ensures out == "" || out[|out| - 1] != c
    ensures StartsWith(s, out) && forall i :: |out| <= i < |s| ==> s[i] == c
  {
    if s != "" && s[|s| - 1] == c then DropTrailing(s[..|s| - 1], c) else s
  }

  predicate AllDigits(s: string) {
    forall i :: 0 <= i < |s| ==> '0' <= s[i] <= '9'
  }

  /** Decimal digits of a natural number, without leading zeros. */
  function Digits(n: nat): (s: string)
    ensures s != "" && AllDigits(s)
  {
    if n < 10 then ['0' + n as char] else Digits(n / 10) + ['0' + (n % 10) as char]
  }

  lemma {:induction false} DigitsInjective(m: nat, n: nat)
    requires Digits(m) == Digits(n)
    ensures m == n
  {
    var s, t := Digits(m), Digits(n);
    assert s[|s| - 1] == '0' + (m % 10) as char && t[|t| - 1] == '0' + (n % 10) as char;
    assert m % 10 == n % 10;
    if m >= 10 && n >= 10 {
      assert s[..|s| - 1] == Digits(m / 10) && t[..|t| - 1] == Digits(n / 10);
      DigitsInjective(m / 10, n / 10);
    }
  }
}
