/**
  The CSS `url(...)` extraction of the hook: the fixed regular expression
  `/url\((['"`])?(.+?)\1\)/`, applied globally to a `background-image` value,
  and the `$2` replacement applied to every whole match.

  The regular expression is given twice: declaratively, by the ghost
  predicates `OpensAt`, `IsBodyEnd`, `QuotedEnd` and `PlainEnd` (what a match
  is, under JavaScript's leftmost, backtracking semantics), and executably, by
  the scanner `LazyBody`, `LeastBodyEnd`, `MatchAt`, `FirstMatch` and `Scan`,
  whose contracts tie it to the declarative version.
*/
module CssUrl {
  import opened Wrappers

  /** One match of the pattern: the whole match is `s[start..end]`, `quote`
      is capture group 1 (`None` when the group did not participate) and
      `body` is capture group 2. */
  datatype Match = Match(start: nat, end: nat, quote: Option<char>, body: string)

  /** The characters of the first capture group `(['"`])`. */
  predicate IsQuote(c: char) {
    c == '\'' || c == '"' || c == '`'
  }

  /** The characters that `.` does not match in JavaScript (no `s` flag). */
  predicate IsLineTerminator(c: char) {
    c == '\n' || c == '\r' || c == '\U{2028}' || c == '\U{2029}'
  }

  /** `.` accepts every character of `s[b..e]`. */
  predicate NoLineTerminator(s: string, b: nat, e: nat)
    requires b <= e <= |s|
  {
    forall i :: b <= i < e ==> !IsLineTerminator(s[i])
  }

  /** `\1\)` matches at `e`: the back-referenced quote (nothing when group 1
      did not participate), then `)`. */
  predicate ClosesAt(s: string, e: nat, quote: Option<char>) {
    match quote
    case Some(q) => e + 1 < |s| && s[e] == q && s[e + 1] == ')'
    case None => e < |s| && s[e] == ')'
  }

  /** The literal `url(` starts at `p`. */
  predicate OpensAt(s: string, p: nat) {
    p + 4 <= |s| && s[p] == 'u' && s[p + 1] == 'r' && s[p + 2] == 'l' && s[p + 3] == '('
  }

  /** The text a match covers, rebuilt from its capture groups. */
  function MatchText(m: Match): string {
    match m.quote
    case Some(q) => "url(" + [q] + m.body + [q, ')']
    case None => "url(" + m.body + ")"
  }

  // ---------------------------------------------------------------------
  // The pattern, declaratively

  /** `(.+?)` may stop at `e` when the body starts at `b`: the body `s[b..e]`
      is non-empty, has no line terminator, and the closer follows it. */
  ghost predicate IsBodyEnd(s: string, b: nat, e: nat, quote: Option<char>) {
    b < e <= |s| && NoLineTerminator(s, b, e) && ClosesAt(s, e, quote)
  }

  /** The alternative in which group 1 matches a quote: `url(`, a quote,
      a body ending at `e`, the same quote, `)`. */
  ghost predicate QuotedEnd(s: string, p: nat, e: nat) {
    OpensAt(s, p) && p + 4 < |s| && IsQuote(s[p + 4]) && IsBodyEnd(s, p + 5, e, Some(s[p + 4]))
  }

  /** The alternative in which group 1 is skipped (so `\1` matches the empty
      string): `url(`, a body ending at `e`, `)`. */
  ghost predicate PlainEnd(s: string, p: nat, e: nat) {
    OpensAt(s, p) && IsBodyEnd(s, p + 4, e, None)
  }

  /** No match of the pattern starts anywhere in `[lo, hi)`. */
  ghost predicate NoMatchIn(s: string, lo: nat, hi: nat) {
    forall p: nat :: lo <= p < hi ==> MatchAt(s, p).None?
  }

  // ---------------------------------------------------------------------
  // The pattern, executably

  /** The lazy quantifier `.+?` once the body `s[b..j]` has been consumed:
      try to match the closer at `j`, otherwise consume one more character
      that `.` accepts, otherwise fail. The result is the end of the body. */
  function LazyBody(s: string, b: nat, j: nat, quote: Option<char>): (r: Option<nat>)
    requires b < j <= |s|
    requires NoLineTerminator(s, b, j)
    ensures r.Some? ==> j <= r.value && IsBodyEnd(s, b, r.value, quote)
    ensures r.Some? ==> forall e: nat :: j <= e < r.value ==> !IsBodyEnd(s, b, e, quote)
    ensures r.None? ==> forall e: nat :: j <= e ==> !IsBodyEnd(s, b, e, quote)
    decreases |s| - j
  {
    if ClosesAt(s, j, quote) then Some(j)
    else if j < |s| && !IsLineTerminator(s[j]) then LazyBody(s, b, j + 1, quote)
    else None
  }

  /** The shortest body starting at `b` that the closer follows, if any. */
  function LeastBodyEnd(s: string, b: nat, quote: Option<char>): (r: Option<nat>)
    ensures r.Some? ==> IsBodyEnd(s, b, r.value, quote)
    ensures r.Some? ==> forall e: nat :: e < r.value ==> !IsBodyEnd(s, b, e, quote)
    ensures r.None? ==> forall e: nat :: !IsBodyEnd(s, b, e, quote)
  {
    if b < |s| && !IsLineTerminator(s[b]) then LazyBody(s, b, b + 1, quote) else None
  }

  /** The end of the body of the quoted alternative at `p`, if it matches. */
  function QuotedBodyEnd(s: string, p: nat): (r: Option<nat>)
    requires OpensAt(s, p)
    ensures r.Some? ==> QuotedEnd(s, p, r.value)
    ensures r.Some? ==> forall e: nat :: e < r.value ==> !QuotedEnd(s, p, e)
    ensures r.None? ==> forall e: nat :: !QuotedEnd(s, p, e)
  {
    if p + 4 < |s| && IsQuote(s[p + 4]) then LeastBodyEnd(s, p + 5, Some(s[p + 4])) else None
  }

  /** The end of the body of the alternative without a quote at `p`, if it matches. */
  function PlainBodyEnd(s: string, p: nat): (r: Option<nat>)
    requires OpensAt(s, p)
    ensures r.Some? ==> PlainEnd(s, p, r.value)
    ensures r.Some? ==> forall e: nat :: e < r.value ==> !PlainEnd(s, p, e)
    ensures r.None? ==> forall e: nat :: !PlainEnd(s, p, e)
  {
    LeastBodyEnd(s, p + 4, None)
  }

  /** The pattern matched at position `p` exactly: the quoted alternative is
      tried first (the `?` on group 1 is greedy), then the one without a quote.
      `MatchAtIsLeastMatch` states which match this is. */
  function MatchAt(s: string, p: nat): (r: Option<Match>)
    ensures r.Some? ==> r.value.start == p && p < r.value.end <= |s| && |r.value.body| > 0
  {
    if !OpensAt(s, p) then None
    else
      match QuotedBodyEnd(s, p)
      case Some(e) => Some(Match(p, e + 2, Some(s[p + 4]), s[p + 5..e]))
      case None =>
        match PlainBodyEnd(s, p)
        case Some(e) => Some(Match(p, e + 1, None, s[p + 4..e]))
        case None => None
  }

  /** `RegExp.prototype.exec` from position `from`: the leftmost match that
      starts at or after `from`. */
  function FirstMatch(s: string, from: nat): (r: Option<Match>)
    ensures r.Some? ==> from <= r.value.start && MatchAt(s, r.value.start) == r
    ensures r.Some? ==> NoMatchIn(s, from, r.value.start)
    ensures r.None? ==> NoMatchIn(s, from, |s|)
    decreases |s| - from
  {
    if from >= |s| then None
    else if MatchAt(s, from).Some? then MatchAt(s, from)
    else FirstMatch(s, from + 1)
  }

  /** The matches of the global search, each one resumed at the end of the
      previous one (a match is never empty, so `lastIndex` only moves on). */
  function Scan(s: string, from: nat): (r: seq<Match>)
    ensures forall i :: 0 <= i < |r| ==> MatchAt(s, r[i].start) == Some(r[i])
    ensures forall i :: 0 <= i < |r| ==> from <= r[i].start
    ensures forall i, j :: 0 <= i < j < |r| ==> r[i].end <= r[j].start
    decreases |s| - from
  {
    match FirstMatch(s, from)
    case None => []
    case Some(m) =>
      var rest := Scan(s, m.end);
      var r := [m] + rest;
      assert r[0] == m && r[1..] == rest;
      r
  }

  /** The global search misses no match before its first match or after
      its last one (nor anywhere, when it finds none). */
  lemma {:induction false} ScanMissesNoneOutside(s: string, from: nat)
    ensures var r := Scan(s, from);
      (|r| == 0 ==> NoMatchIn(s, from, |s|)) &&
      (|r| > 0 ==> NoMatchIn(s, from, r[0].start) && NoMatchIn(s, r[|r| - 1].end, |s|))
    decreases |s| - from
  {
    match FirstMatch(s, from)
    case None =>
    case Some(m) =>
      var r, rest := Scan(s, from), Scan(s, m.end);
      ScanMissesNoneOutside(s, m.end);
      assert r == [m] + rest;
      if |rest| > 0 {
        assert r[|r| - 1] == rest[|rest| - 1];
      }
  }

  /** Nor does it miss a match between two consecutive matches. */
  lemma {:induction false} ScanMissesNoneBetween(s: string, from: nat)
    ensures var r := Scan(s, from);
      forall i :: 0 <= i < |r| - 1 ==> NoMatchIn(s, r[i].end, r[i + 1].start)
    decreases |s| - from
  {
    match FirstMatch(s, from)
    case None =>
    case Some(m) =>
      var r, rest := Scan(s, from), Scan(s, m.end);
      ScanMissesNoneBetween(s, m.end);
      ScanMissesNoneOutside(s, m.end);
      assert r == [m] + rest;
      forall i | 0 <= i < |r| - 1 ensures NoMatchIn(s, r[i].end, r[i + 1].start) {
        if i > 0 {
          assert r[i] == rest[i - 1] && r[i + 1] == rest[i];
        }
      }
  }

  /** `String.prototype.match` with the global flag: the whole-match texts in
      order, or `None` (JavaScript's `null`) when nothing matches. */
  function MatchAll(s: string): Option<seq<string>> {
    var ms := Scan(s, 0);
    if |ms| == 0 then None
    else Some(seq(|ms|, i requires 0 <= i < |ms| => s[ms[i].start..ms[i].end]))
  }

  /** `t.replace(urlRgx, '$2')`: the first match, if any, is replaced by its
      second capture group; what lies around it is kept. */
  function ReplaceWithGroup2(t: string): string {
    match FirstMatch(t, 0)
    case None => t
    case Some(m) => t[..m.start] + m.body + t[m.end..]
  }

  /** The URLs the hook derives from a `background-image` value: the global
      match, then the `$2` replacement on each whole match. */
  function ExtractUrls(s: string): Option<seq<string>> {
    match MatchAll(s)
    case None => None
    case Some(texts) => Some(seq(|texts|, i requires 0 <= i < |texts| => ReplaceWithGroup2(texts[i])))
  }

  // ---------------------------------------------------------------------
  // Properties

  /** What `MatchAt` finds, in terms of the declarative pattern: the quoted
      alternative with its shortest body when it matches at all; otherwise
      the alternative without a quote with its shortest body; otherwise
      nothing. The text matched is rebuilt from the capture groups. */
  lemma MatchAtIsLeastMatch(s: string, p: nat)
    ensures var r := MatchAt(s, p);
      (r.Some? ==> OpensAt(s, p) && s[p..r.value.end] == MatchText(r.value)) &&
      ((r.Some? && r.value.quote.Some?) <==> exists e: nat :: QuotedEnd(s, p, e)) &&
      (r.Some? && r.value.quote.Some? ==>
        var e := r.value.end - 2;
        QuotedEnd(s, p, e) && (forall e': nat :: e' < e ==> !QuotedEnd(s, p, e')) &&
        r.value.quote == Some(s[p + 4]) && r.value.body == s[p + 5..e]) &&
      (r.Some? && r.value.quote.None? ==>
        var e := r.value.end - 1;
        (forall e': nat :: !QuotedEnd(s, p, e')) &&
        PlainEnd(s, p, e) && (forall e': nat :: e' < e ==> !PlainEnd(s, p, e')) &&
        r.value.body == s[p + 4..e]) &&
      (r.None? ==> forall e: nat :: !QuotedEnd(s, p, e) && !PlainEnd(s, p, e))
  {
    if OpensAt(s, p) {
      assert s[p..p + 4] == "url(";
      match QuotedBodyEnd(s, p)
      case Some(e) =>
        assert s[p..e + 2] == s[p..p + 4] + [s[p + 4]] + s[p + 5..e] + [s[e], s[e + 1]];
      case None =>
        match PlainBodyEnd(s, p)
        case Some(e) =>
          assert s[p..e + 1] == s[p..p + 4] + s[p + 4..e] + [s[e]];
        case None =>
    }
  }

  /** A body end inside the slice `s[lo..hi]` is one in `s`, shifted by `lo`,
      whose closer still fits inside the slice. */
  lemma BodyEndInSlice(s: string, lo: nat, hi: nat, b: nat, e: nat, quote: Option<char>)
    requires lo <= hi <= |s|
    ensures IsBodyEnd(s[lo..hi], b, e, quote) <==>
      IsBodyEnd(s, lo + b, lo + e, quote) && lo + e + (if quote.Some? then 2 else 1) <= hi
  {
    var t := s[lo..hi];
    if b < e <= |t| {
      assert NoLineTerminator(t, b, e) <==> NoLineTerminator(s, lo + b, lo + e) by {
        if NoLineTerminator(t, b, e) {
          forall i | lo + b <= i < lo + e ensures !IsLineTerminator(s[i]) {
            assert s[i] == t[i - lo];
          }
        }
      }
    }
  }

  lemma QuotedEndInSlice(s: string, p: nat, hi: nat, e: nat)
    requires OpensAt(s, p) && p + 4 <= hi <= |s|
    ensures QuotedEnd(s[p..hi], 0, e) <==> QuotedEnd(s, p, p + e) && p + e + 2 <= hi
  {
    if p + 4 < hi {
      BodyEndInSlice(s, p, hi, 5, e, Some(s[p + 4]));
    }
  }

  lemma PlainEndInSlice(s: string, p: nat, hi: nat, e: nat)
    requires OpensAt(s, p) && p + 4 <= hi <= |s|
    ensures PlainEnd(s[p..hi], 0, e) <==> PlainEnd(s, p, p + e) && p + e + 1 <= hi
  {
    BodyEndInSlice(s, p, hi, 4, e, None);
  }

  /** Re-matching the text of a quoted match whose body ends at `e`. */
  lemma RematchQuoted(s: string, p: nat, e: nat)
    requires QuotedEnd(s, p, e) && forall e': nat :: e' < e ==> !QuotedEnd(s, p, e')
    ensures MatchAt(s[p..e + 2], 0) == Some(Match(0, e + 2 - p, Some(s[p + 4]), s[p + 5..e]))
  {
    var t := s[p..e + 2];
    MatchAtIsLeastMatch(t, 0);
    QuotedEndInSlice(s, p, e + 2, e - p);
    var r := MatchAt(t, 0).value;
    var e' := r.end - 2;
    QuotedEndInSlice(s, p, e + 2, e');
    assert e' == e - p;
    assert t[5..e'] == s[p + 5..e];
  }

  /** Re-matching the text of a match without a quote whose body ends at `e`. */
  lemma RematchPlain(s: string, p: nat, e: nat)
    requires forall e': nat :: !QuotedEnd(s, p, e')
    requires PlainEnd(s, p, e) && forall e': nat :: e' < e ==> !PlainEnd(s, p, e')
    ensures MatchAt(s[p..e + 1], 0) == Some(Match(0, e + 1 - p, None, s[p + 4..e]))
  {
    var t := s[p..e + 1];
    MatchAtIsLeastMatch(t, 0);
    forall e': nat ensures !QuotedEnd(t, 0, e') {
      QuotedEndInSlice(s, p, e + 1, e');
    }
    PlainEndInSlice(s, p, e + 1, e - p);
    var r := MatchAt(t, 0).value;
    var e' := r.end - 1;
    PlainEndInSlice(s, p, e + 1, e');
    assert e' == e - p;
    assert t[4..e'] == s[p + 4..e];
  }

  /** Matching the pattern again on the text of a match finds the same match,
      at position 0 and covering that whole text. */
  lemma RematchAt(s: string, p: nat)
    requires MatchAt(s, p).Some?
    ensures var m := MatchAt(s, p).value;
      MatchAt(s[p..m.end], 0) == Some(Match(0, m.end - p, m.quote, m.body))
  {
    match QuotedBodyEnd(s, p)
    case Some(e) => RematchQuoted(s, p, e);
    case None =>
      match PlainBodyEnd(s, p)
      case Some(e) => RematchPlain(s, p, e);
  }

  /** Hence `match.replace(urlRgx, '$2')` on a whole match is exactly that
      match's second capture group. */
  lemma ReplaceMatchTextIsBody(s: string, p: nat)
    requires MatchAt(s, p).Some?
    ensures var m := MatchAt(s, p).value;
      ReplaceWithGroup2(s[p..m.end]) == m.body
  {
    var m := MatchAt(s, p).value;
    var t := s[p..m.end];
    RematchAt(s, p);
    assert FirstMatch(t, 0) == MatchAt(t, 0);
  }

  /** The extracted URLs are the bodies of the global matches, one per match,
      in order; there are none exactly when nothing matches. */
  lemma ExtractUrlsAreBodies(s: string)
    ensures var ms := Scan(s, 0);
      (ExtractUrls(s).None? <==> |ms| == 0) &&
      (ExtractUrls(s).Some? ==>
        |ExtractUrls(s).value| == |ms| &&
        forall i :: 0 <= i < |ms| ==> ExtractUrls(s).value[i] == ms[i].body)
  {
    var ms := Scan(s, 0);
    forall i | 0 <= i < |ms| ensures ReplaceWithGroup2(s[ms[i].start..ms[i].end]) == ms[i].body {
      ReplaceMatchTextIsBody(s, ms[i].start);
    }
  }

  /** `url(u)` without quotes yields exactly `[u]`, when `u` is a non-empty
      body that does not start with a quote and holds no `)` and no line
      terminator. */
  lemma UnquotedUrlExtracts(u: string)
    requires |u| > 0 && !IsQuote(u[0])
    requires forall i :: 0 <= i < |u| ==> u[i] != ')' && !IsLineTerminator(u[i])
    ensures ExtractUrls("url(" + u + ")") == Some([u])
  {
    var s := "url(" + u + ")";
    var e := 4 + |u|;
    assert s[4..e] == u;
    assert forall i :: 4 <= i < e ==> s[i] == u[i - 4];
    assert IsBodyEnd(s, 4, e, None);
    assert OpensAt(s, 0);
    forall e' | 4 < e' < e ensures !ClosesAt(s, e', None) {
      assert s[e'] == u[e' - 4];
    }
    var v := PlainBodyEnd(s, 0).value;
    assert v == e;
    var m := Match(0, |s|, None, u);
    assert MatchAt(s, 0) == Some(m);
    assert FirstMatch(s, 0) == Some(m);
    assert Scan(s, |s|) == [];
    assert Scan(s, 0) == [m];
    ExtractUrlsAreBodies(s);
    var urls := ExtractUrls(s).value;
    assert |urls| == 1 && urls[0] == u;
    assert urls == [u];
  }

  /** `url(` q u q `)` with a quote q yields exactly `[u]`: the quotes are
      stripped, provided the non-empty body `u` has no line terminator and no
      q followed by `)`. */
  lemma QuotedUrlExtracts(q: char, u: string)
    requires IsQuote(q) && |u| > 0
    requires forall i :: 0 <= i < |u| ==> !IsLineTerminator(u[i])
    requires forall i :: 0 <= i < |u| - 1 ==> !(u[i] == q && u[i + 1] == ')')
    ensures ExtractUrls("url(" + [q] + u + [q, ')']) == Some([u])
  {
    var s := "url(" + [q] + u + [q, ')'];
    var e := 5 + |u|;
    assert s[5..e] == u;
    assert forall i :: 5 <= i < e ==> s[i] == u[i - 5];
    assert s[4] == q && s[e] == q && s[e + 1] == ')';
    assert OpensAt(s, 0);
    assert QuotedEnd(s, 0, e);
    forall e' | 5 < e' < e ensures !ClosesAt(s, e', Some(q)) {
      assert s[e'] == u[e' - 5];
      if e' + 1 < e { assert s[e' + 1] == u[e' - 4]; }
    }
    var v := QuotedBodyEnd(s, 0).value;
    assert v == e;
    var m := Match(0, |s|, Some(q), u);
    assert MatchAt(s, 0) == Some(m);
    assert FirstMatch(s, 0) == Some(m);
    assert Scan(s, |s|) == [];
    assert Scan(s, 0) == [m];
    ExtractUrlsAreBodies(s);
    var urls := ExtractUrls(s).value;
    assert |urls| == 1 && urls[0] == u;
    assert urls == [u];
  }

  /** The computed style of the hook's test element: one unquoted URL. */
  lemma TestElementUrlExtracts()
    ensures ExtractUrls("url(https://test/file.png)") == Some(["https://test/file.png"])
  {
    var u := "https://test/file.png";
    assert "url(" + u + ")" == "url(https://test/file.png)";
    UnquotedUrlExtracts(u);
  }
}
