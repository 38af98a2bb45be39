/** The regular expressions of toggleLink (main.ts:48-52), each written out as a
    hand scanner with the semantics of a JavaScript regular expression match,
    and the String.prototype.indexOf that recovers where a match stands. */
module Patterns {
  import opened Wrappers

  /** The first index at or after `from` whose character is in `stops`, or |s|. */
  function Find(s: seq<char>, stops: set<char>, from: nat): (r: nat)
    requires from <= |s|
    ensures from <= r <= |s|
    ensures r < |s| ==> s[r] in stops
    ensures forall k :: from <= k < r ==> s[k] !in stops
    decreases |s| - from
  {
    if from == |s| || s[from] in stops then from else Find(s, stops, from + 1)
  }

  /** The last index in [lo, hi) holding `c`. */
  function LastIndex(s: seq<char>, c: char, lo: nat, hi: nat): (r: Option<nat>)
    requires lo <= hi <= |s|
    ensures r.Some? ==> lo <= r.value < hi && s[r.value] == c
    ensures r.Some? ==> forall k :: r.value < k < hi ==> s[k] != c
    ensures r.None? ==> forall k :: lo <= k < hi ==> s[k] != c
    decreases hi - lo
  {
    if lo == hi then None
    else if s[hi - 1] == c then Some(hi - 1)
    else LastIndex(s, c, lo, hi - 1)
  }

  // ---------------------------------------------------------------------------
  // The two link grammars

  /** `s` is a whole match of \[\[([^\]]*)\]\]: "[[", an inner text without ']', "]]". */
  predicate IsWikiLink(s: seq<char>) {
    && |s| >= 4
    && s[0] == '[' && s[1] == '['
    && s[|s| - 2] == ']' && s[|s| - 1] == ']'
    && forall k :: 2 <= k < |s| - 2 ==> s[k] != ']'
  }

  /** `s` is a whole match of \[([^\]]*)\]\(([^\(]*)\) whose "](" stands at q: '[',
      a display text without ']', "](", a path without '(', ')'. */
  predicate IsMdLinkAt(s: seq<char>, q: nat) {
    && 1 <= q && q + 3 <= |s|
    && s[0] == '[' && s[q] == ']' && s[q + 1] == '(' && s[|s| - 1] == ')'
    && (forall k :: 1 <= k < q ==> s[k] != ']')
    && (forall k :: q + 2 <= k < |s| - 1 ==> s[k] != '(')
  }

  ghost predicate IsMdLink(s: seq<char>) {
    exists q: nat :: IsMdLinkAt(s, q)
  }

  /** Where a match of the wiki pattern that starts at p ends. With `nonEmpty` the
      pattern is \[\[([^\]]+)\]\] (main.ts:49), otherwise \[\[([^\]]*)\]\] (main.ts:51). */
  function WikiMatchAt(line: seq<char>, p: nat, nonEmpty: bool): (r: Option<nat>)
    requires p <= |line|
    ensures r.Some? ==> p + 4 <= r.value <= |line| && IsWikiLink(line[p..r.value])
    ensures r.Some? && nonEmpty ==> p + 4 < r.value
  {
    if p + 1 < |line| && line[p] == '[' && line[p + 1] == '[' then
      var q := Find(line, {']'}, p + 2);
      if q + 1 < |line| && line[q + 1] == ']' && (!nonEmpty || q > p + 2) then Some(q + 2)
      else None
    else None
  }

  /** Where a match of the markdown pattern that starts at p ends. The group
      [^\(]* is greedy: it runs up to the next '(' or the end of the line, and the
      match ends at the last ')' inside that run (main.ts:52). */
  function MdMatchAt(line: seq<char>, p: nat): (r: Option<nat>)
    requires p <= |line|
    ensures r.Some? ==> p + 4 <= r.value <= |line| && IsMdLinkAt(line[p..r.value], Find(line, {']'}, p + 1) - p)
  {
    if p < |line| && line[p] == '[' then
      var q := Find(line, {']'}, p + 1);
      if q + 1 < |line| && line[q + 1] == '(' then
        var stop := Find(line, {'('}, q + 2);
        match LastIndex(line, ')', q + 2, stop)
        case Some(c) => Some(c + 1)
        case None => None
      else None
    else None
  }

  /** Every wiki link that starts at p is the match there. */
  lemma WikiMatchAtComplete(line: seq<char>, p: nat, e: nat, nonEmpty: bool)
    requires p <= e <= |line| && IsWikiLink(line[p..e])
    requires nonEmpty ==> p + 4 < e
    ensures WikiMatchAt(line, p, nonEmpty) == Some(e)
  {
    var s := line[p..e];
    var q := Find(line, {']'}, p + 2);
    assert line[e - 2] == s[|s| - 2] == ']';
  }

  /** Every markdown link that starts at p ends at or before the match there: the
      match is the longest one. */
  lemma MdMatchAtLongest(line: seq<char>, p: nat, e: nat, q: nat)
    requires p <= e <= |line| && IsMdLinkAt(line[p..e], q)
    ensures MdMatchAt(line, p).Some? && e <= MdMatchAt(line, p).value
  {
    var s := line[p..e];
    var q' := Find(line, {']'}, p + 1);
    assert line[p + q] == s[q] == ']';
    assert q' == p + q;
    assert line[e - 1] == s[|s| - 1] == ')';
  }

  // ---------------------------------------------------------------------------
  // Global scans: String.prototype.match with the g flag

  datatype Pattern = Wiki | Markdown

  ghost predicate IsLink(pat: Pattern, s: seq<char>) {
    match pat
    case Wiki => IsWikiLink(s)
    case Markdown => IsMdLink(s)
  }

  function MatchAt(pat: Pattern, line: seq<char>, p: nat): (r: Option<nat>)
    requires p <= |line|
    ensures r.Some? ==> p + 4 <= r.value <= |line| && IsLink(pat, line[p..r.value])
  {
    match pat
    case Wiki => WikiMatchAt(line, p, false)
    case Markdown => MdMatchAt(line, p)
  }

  /** A link text found anywhere in the line makes the pattern match where it starts. */
  lemma OccurrenceMatches(pat: Pattern, line: seq<char>, p: nat, e: nat)
    requires p <= e <= |line| && IsLink(pat, line[p..e])
    ensures MatchAt(pat, line, p).Some?
  {
    match pat
    case Wiki => WikiMatchAtComplete(line, p, e, false);
    case Markdown =>
      var q: nat :| IsMdLinkAt(line[p..e], q);
      MdMatchAtLongest(line, p, e, q);
  }

  /** A match occurrence: its half-open range in the line. */
  datatype Span = Span(start: nat, end: nat)

  /** Where the scan looked for the j-th match: the end of the one before it. */
  function Resume(spans: seq<Span>, from: nat, j: nat): nat
    requires j <= |spans|
  {
    if j == 0 then from else spans[j - 1].end
  }

  predicate NoMatchIn(pat: Pattern, line: seq<char>, lo: nat, hi: nat)
    requires hi <= |line|
  {
    forall p :: lo <= p < hi ==> MatchAt(pat, line, p).None?
  }

  /** The j-th span is the leftmost match at or after where the search resumed. */
  predicate LeftmostAt(pat: Pattern, line: seq<char>, from: nat, spans: seq<Span>, j: nat)
    requires j < |spans|
  {
    && Resume(spans, from, j) <= spans[j].start < spans[j].end <= |line|
    && MatchAt(pat, line, spans[j].start) == Some(spans[j].end)
    && NoMatchIn(pat, line, Resume(spans, from, j), spans[j].start)
  }

  /** `spans` is what a global search of the line from `from` finds: each match is
      the leftmost one at or after the end of the previous one, and after the last
      there is none. */
  predicate IsScanOf(pat: Pattern, line: seq<char>, from: nat, spans: seq<Span>) {
    && from <= |line|
    && (forall j :: 0 <= j < |spans| ==> spans[j].start < spans[j].end <= |line|)
    && (forall j :: 0 <= j < |spans| ==> LeftmostAt(pat, line, from, spans, j))
    && Resume(spans, from, |spans|) <= |line|
    && NoMatchIn(pat, line, Resume(spans, from, |spans|), |line|)
  }

  function Scan(pat: Pattern, line: seq<char>, from: nat): (spans: seq<Span>)
    requires from <= |line|
    decreases |line| - from
  {
    if from == |line| then []
    else
      match MatchAt(pat, line, from)
      case Some(e) => [Span(from, e)] + Scan(pat, line, e)
      case None => Scan(pat, line, from + 1)
  }

  /** A match at `from` followed by a scan from its end is a scan from `from`. */
  lemma ScanOfPrepend(pat: Pattern, line: seq<char>, from: nat, e: nat, rest: seq<Span>)
    requires from <= |line| && MatchAt(pat, line, from) == Some(e)
    requires IsScanOf(pat, line, e, rest)
    ensures IsScanOf(pat, line, from, [Span(from, e)] + rest)
  {
    var spans := [Span(from, e)] + rest;
    forall j | 0 <= j < |spans| ensures LeftmostAt(pat, line, from, spans, j) {
      if j > 0 {
        assert spans[j] == rest[j - 1];
        assert Resume(spans, from, j) == Resume(rest, e, j - 1);
        assert LeftmostAt(pat, line, e, rest, j - 1);
      }
    }
    assert Resume(spans, from, |spans|) == Resume(rest, e, |rest|);
  }

  /** A position where nothing matches can be added in front of a scan. */
  lemma ScanOfSkip(pat: Pattern, line: seq<char>, from: nat, spans: seq<Span>)
    requires from < |line| && MatchAt(pat, line, from).None?
    requires IsScanOf(pat, line, from + 1, spans)
    ensures IsScanOf(pat, line, from, spans)
  {
    forall j | 0 <= j < |spans| ensures LeftmostAt(pat, line, from, spans, j) {
      assert LeftmostAt(pat, line, from + 1, spans, j);
      if j == 0 {
        NoMatchFrom(pat, line, from, spans[0].start);
      }
    }
    if spans == [] {
      NoMatchFrom(pat, line, from, |line|);
    }
  }

  lemma NoMatchFrom(pat: Pattern, line: seq<char>, lo: nat, hi: nat)
    requires lo < |line| && hi <= |line|
    requires MatchAt(pat, line, lo).None? && NoMatchIn(pat, line, lo + 1, hi)
    ensures NoMatchIn(pat, line, lo, hi)
  {
  }

  /** Scan is the global search: leftmost matches, each search resuming where the
      previous match ended, none missed. */
  lemma {:induction false} ScanIsLeftmost(pat: Pattern, line: seq<char>, from: nat)
    requires from <= |line|
    ensures IsScanOf(pat, line, from, Scan(pat, line, from))
    decreases |line| - from
  {
    if from < |line| {
      match MatchAt(pat, line, from)
      case Some(e) =>
        ScanIsLeftmost(pat, line, e);
        ScanOfPrepend(pat, line, from, e, Scan(pat, line, e));
      case None =>
        ScanIsLeftmost(pat, line, from + 1);
        ScanOfSkip(pat, line, from, Scan(pat, line, from + 1));
    }
  }

  /** The facts IsScanOf states about its j-th span. */
  lemma ScanSpan(pat: Pattern, line: seq<char>, from: nat, spans: seq<Span>, j: nat)
    requires IsScanOf(pat, line, from, spans) && j < |spans|
    ensures Resume(spans, from, j) <= spans[j].start < spans[j].end <= |line|
    ensures MatchAt(pat, line, spans[j].start) == Some(spans[j].end)
    ensures IsLink(pat, line[spans[j].start..spans[j].end])
    ensures NoMatchIn(pat, line, Resume(spans, from, j), spans[j].start)
  {
    assert LeftmostAt(pat, line, from, spans, j);
  }

  /** The strings line.match(re) returns for the g flag (null is the empty sequence). */
  function Matches(pat: Pattern, line: seq<char>): (items: seq<seq<char>>)
    ensures |items| == |Scan(pat, line, 0)|
    ensures forall k :: 0 <= k < |items| ==>
              && |items[k]| >= 4 && items[k][0] == '['
              && items[k][|items[k]| - 1] == (if pat == Wiki then ']' else ')')
  {
    var spans := Scan(pat, line, 0);
    ScanLinks(pat, line);
    seq(|spans|, j requires 0 <= j < |spans| => line[spans[j].start..spans[j].end])
  }

  /** Every string the global match returns is a link of its pattern. */
  lemma MatchesAreLinks(pat: Pattern, line: seq<char>)
    ensures forall k :: 0 <= k < |Matches(pat, line)| ==> IsLink(pat, Matches(pat, line)[k])
  {
    ScanLinks(pat, line);
  }

  /** Every span of a scan from the start of the line lies in the line and covers a
      link of the pattern. */
  lemma ScanLinks(pat: Pattern, line: seq<char>)
    ensures forall j :: 0 <= j < |Scan(pat, line, 0)| ==>
              && Scan(pat, line, 0)[j].start + 4 <= Scan(pat, line, 0)[j].end <= |line|
              && IsLink(pat, line[Scan(pat, line, 0)[j].start..Scan(pat, line, 0)[j].end])
  {
    var spans := Scan(pat, line, 0);
    ScanIsLeftmost(pat, line, 0);
    forall j | 0 <= j < |spans|
      ensures spans[j].start + 4 <= spans[j].end <= |line| && IsLink(pat, line[spans[j].start..spans[j].end])
    {
      ScanSpan(pat, line, 0, spans, j);
    }
  }

  // ---------------------------------------------------------------------------
  // Recovering offsets with indexOf

  predicate OccursAt(s: seq<char>, t: seq<char>, k: nat) {
    k + |t| <= |s| && s[k..k + |t|] == t
  }

  /** The first position at or after k where t occurs in s, or -1. */
  function IndexFrom(s: seq<char>, t: seq<char>, k: nat): (r: int)
    ensures r >= 0 ==> k <= r && OccursAt(s, t, r)
    ensures r >= 0 ==> forall m :: k <= m < r ==> !OccursAt(s, t, m)
    ensures r < 0 ==> r == -1 && forall m :: k <= m ==> !OccursAt(s, t, m)
    decreases |s| - k
  {
    if k + |t| > |s| then -1
    else if OccursAt(s, t, k) then k
    else IndexFrom(s, t, k + 1)
  }

  /** String.prototype.indexOf: the first position where t occurs in s, or -1. */
  function IndexOf(s: seq<char>, t: seq<char>): (r: int)
    ensures r >= 0 ==> OccursAt(s, t, r) && forall m: nat :: m < r ==> !OccursAt(s, t, m)
    ensures r < 0 ==> r == -1 && forall m: nat :: !OccursAt(s, t, m)
  {
    IndexFrom(s, t, 0)
  }

  /** `i + line.slice(i).indexOf(item)`, with i the end of the previous match,
      is exactly where the scan found item (main.ts:62-63, 120-121). */
  lemma SpanRecovery(pat: Pattern, line: seq<char>, from: nat, spans: seq<Span>, j: nat)
    requires IsScanOf(pat, line, from, spans) && j < |spans|
    ensures var i := Resume(spans, from, j);
            i + IndexOf(line[i..], line[spans[j].start..spans[j].end]) == spans[j].start
  {
    var i := Resume(spans, from, j);
    var start, end := spans[j].start, spans[j].end;
    ScanSpan(pat, line, from, spans, j);
    var item := line[start..end];
    var tail := line[i..];
    assert OccursAt(tail, item, start - i) by {
      assert tail[start - i..start - i + |item|] == item;
    }
    forall m: nat | m < start - i ensures !OccursAt(tail, item, m) {
      if OccursAt(tail, item, m) {
        NoOtherOccurrence(pat, line, i, m, start, item);
      }
    }
  }

  lemma NoOtherOccurrence(pat: Pattern, line: seq<char>, i: nat, m: nat, start: nat, item: seq<char>)
    requires i + m < start <= |line| && IsLink(pat, item)
    requires NoMatchIn(pat, line, i, start)
    ensures !OccursAt(line[i..], item, m)
  {
    if OccursAt(line[i..], item, m) {
      assert line[i + m..i + m + |item|] == item;
      OccurrenceMatches(pat, line, i + m, i + m + |item|);
    }
  }

  // ---------------------------------------------------------------------------
  // The has-extension test ^([^\\]*)\.(\w+)$ (main.ts:48)

  predicate IsWordChar(c: char) {
    ('a' <= c <= 'z') || ('A' <= c <= 'Z') || ('0' <= c <= '9') || c == '_'
  }

  /** s matches ^([^\\]*)\.(\w+)$ with the literal dot at d. */
  predicate ExtensionDotAt(s: seq<char>, d: nat) {
    && d + 1 < |s| && s[d] == '.'
    && (forall k :: 0 <= k < d ==> s[k] != '\\')
    && (forall k :: d < k < |s| ==> IsWordChar(s[k]))
  }

  /** The two groups of a match: the stem before the dot and the extension. */
  datatype Extension = Extension(stem: seq<char>, ext: seq<char>)

  function HasExtension(s: seq<char>): (r: Option<Extension>)
    ensures r.Some? ==> s == r.value.stem + "." + r.value.ext && ExtensionDotAt(s, |r.value.stem|)
  {
    match LastIndex(s, '.', 0, |s|)
    case Some(d) =>
      if ExtensionDotAt(s, d) then
        assert s == s[..d] + "." + s[d + 1..];
        Some(Extension(s[..d], s[d + 1..]))
      else None
    case None => None
  }

  /** The test matches exactly when some dot is followed only by word characters
      and no backslash precedes it; the groups then split at that dot. */
  lemma HasExtensionExactly(s: seq<char>, d: nat)
    requires ExtensionDotAt(s, d)
    ensures HasExtension(s) == Some(Extension(s[..d], s[d + 1..]))
  {
    assert s[d] == '.';
  }

  /** Any backslash makes the test fail. */
  lemma BackslashHasNoExtension(s: seq<char>)
    requires '\\' in s
    ensures HasExtension(s).None?
  {
    var k :| 0 <= k < |s| && s[k] == '\\';
    assert !IsWordChar(s[k]);
  }

  // ---------------------------------------------------------------------------
  // The parenthesis pattern \((.*?)\) (main.ts:50)

  /** The characters '.' does not match. */
  predicate IsLineTerminator(c: char) {
    c == '\n' || c == '\r' || c == '\U{2028}' || c == '\U{2029}'
  }

  /** s[p..c+1] is a match of \((.*?)\): '(' at p and, the lazy group taking as
      little as it can, ')' at the first ')' after p, with no line terminator
      between. */
  predicate ParenMatchAt(s: seq<char>, p: nat, c: nat) {
    && p < c < |s| && s[p] == '(' && s[c] == ')'
    && forall k :: p < k < c ==> s[k] != ')' && !IsLineTerminator(s[k])
  }

  /** The leftmost match of \((.*?)\) at or after `from`, as the positions of its
      parentheses. */
  function ParenSearch(s: seq<char>, from: nat): (r: Option<(nat, nat)>)
    requires from <= |s|
    ensures r.Some? ==> from <= r.value.0 && ParenMatchAt(s, r.value.0, r.value.1)
    ensures r.Some? ==> forall p, c :: from <= p < r.value.0 ==> !ParenMatchAt(s, p, c)
    ensures r.None? ==> forall p, c :: from <= p ==> !ParenMatchAt(s, p, c)
    decreases |s| - from
  {
    if from == |s| then None
    else if s[from] == '(' then
      var c := Find(s, {')', '\n', '\r', '\U{2028}', '\U{2029}'}, from + 1);
      if c < |s| && s[c] == ')' then Some((from, c))
      else ParenSearch(s, from + 1)
    else ParenSearch(s, from + 1)
  }

  /** The k-th string of line.match(re), looked up with indexOf from the end of the
      match before it, is found where the scan found it (main.ts:62-63, 120-121). */
  lemma MatchOffset(pat: Pattern, line: seq<char>, k: nat)
    requires k < |Scan(pat, line, 0)|
    ensures var spans := Scan(pat, line, 0);
            var i := Resume(spans, 0, k);
            && i <= spans[k].start && spans[k].start + 4 <= spans[k].end <= |line|
            && Matches(pat, line)[k] == line[spans[k].start..spans[k].end]
            && i + IndexOf(line[i..], Matches(pat, line)[k]) == spans[k].start
  {
    var spans := Scan(pat, line, 0);
    ScanIsLeftmost(pat, line, 0);
    ScanSpan(pat, line, 0, spans, k);
    SpanRecovery(pat, line, 0, spans, k);
  }
}
