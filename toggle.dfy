/** toggleLink (main.ts:42-161): the links of the cursor line that contain the
    cursor are rewritten in place, wiki links first and markdown links only
    when no wiki link contains the cursor. */
module Toggle {
  import opened Wrappers
  import opened Patterns
  import opened Convert
  import opened Uri

  // ---------------------------------------------------------------------------
  // The editor's cursor line

  /** One replaceRange call on the cursor line: replace [start, end) by `text`. */
  datatype Edit = Edit(start: nat, end: nat, text: seq<char>)

  function Min(a: nat, b: nat): nat {
    if a <= b then a else b
  }

  /** What CodeMirror's replaceRange does to the line: the two offsets are put in
      order and clipped to the line's length, then the range between them is
      replaced. */
  function Replace(line: seq<char>, e: Edit): seq<char> {
    var a := Min(Min(e.start, e.end), |line|);
    var b := Min(if e.start <= e.end then e.end else e.start, |line|);
    line[..a] + e.text + line[b..]
  }

  /** replaceRange keeps the line before the range and after it, and puts the text
      in between; offsets past the end of the line act as the end of the line. */
  lemma ReplaceSplices(line: seq<char>, e: Edit)
    ensures var a := Min(Min(e.start, e.end), |line|);
            var b := Min(if e.start <= e.end then e.end else e.start, |line|);
            var r := Replace(line, e);
            && |r| == |line| - (b - a) + |e.text|
            && r[..a] == line[..a]
            && r[a..a + |e.text|] == e.text
            && r[a + |e.text|..] == line[b..]
  {
  }

  /** The line after the edits, applied one after the other. */
  function ApplyEdits(line: seq<char>, edits: seq<Edit>): seq<char>
    decreases |edits|
  {
    if edits == [] then line
    else ApplyEdits(Replace(line, edits[0]), edits[1..])
  }

  /** The CodeMirror document, reduced to the line the cursor is on. */
  class Editor {
    var line: seq<char>

    constructor (line: seq<char>)
      ensures this.line == line
    {
      this.line := line;
    }

    /** editor.replaceRange(text, {line, ch: from}, {line, ch: to}). */
    method ReplaceRange(text: seq<char>, from: nat, to: nat)
      modifies this
      ensures line == Replace(old(line), Edit(from, to, text))
    {
      var a := Min(Min(from, to), |line|);
      var b := Min(if from <= to then to else from, |line|);
      line := line[..a] + text + line[b..];
    }
  }

  // ---------------------------------------------------------------------------
  // What toggleLink does, as a function of the line

  /** What the body of a loop does to one matched link: the new text, or what it
      throws. */
  type Rewriter = seq<char> -> Result<seq<char>, Failure>

  /** The rewrite of the wiki loop (main.ts:69-101) and of the markdown loop
      (main.ts:127-147). */
  function RewriterOf(pat: Pattern, resolve: Resolver, contextPath: seq<char>): Rewriter {
    match pat
    case Wiki => item => WikiToMd(item, resolve, contextPath)
    case Markdown => item => MdToWiki(item)
  }

  /** The cursor test of main.ts:67 and 125: both ends count as inside. */
  predicate Contains(s: Span, ch: nat) {
    s.start <= ch <= s.end
  }

  /** Some span contains the cursor. */
  predicate Touches(spans: seq<Span>, ch: nat) {
    exists j :: 0 <= j < |spans| && Contains(spans[j], ch)
  }

  /** Every span lies in the line and is long enough to be a link. */
  predicate ValidSpans(line: seq<char>, spans: seq<Span>) {
    forall j :: 0 <= j < |spans| ==> spans[j].start + 4 <= spans[j].end <= |line|
  }

  /** The outcome of one loop over the matches: the replaceRange calls made,
      whether a match contained the cursor, and what was thrown, if anything. */
  datatype Run = Run(edits: seq<Edit>, found: bool, failure: Option<Failure>)

  /** One iteration of the loop of main.ts:60-113 (or 118-158) on the span `s`,
      followed by the iterations `rest` on the spans after it. */
  function Step(line: seq<char>, s: Span, rest: Run, ch: nat, rewrite: Rewriter): Run
    requires s.start + 4 <= s.end <= |line|
  {
    if !Contains(s, ch) then rest
    else
      match rewrite(line[s.start..s.end])
      case Err(f) => Run([], true, Some(f))
      case Ok(item) => Run([Edit(s.start, s.end, item)] + rest.edits, true, rest.failure)
  }

  /** The loop of main.ts:60-113 (or 118-158) over the spans of the matches: every
      span that contains the cursor is rewritten at its offsets in the original
      line; the first rewrite that throws ends the command. */
  function Replay(line: seq<char>, spans: seq<Span>, ch: nat, rewrite: Rewriter): Run
    requires ValidSpans(line, spans)
    decreases |spans|
  {
    if spans == [] then Run([], false, None)
    else Step(line, spans[0], Replay(line, spans[1..], ch, rewrite), ch, rewrite)
  }

  /** The loop from the k-th span on is its k-th iteration followed by the rest. */
  lemma ReplayFrom(line: seq<char>, spans: seq<Span>, k: nat, ch: nat, rewrite: Rewriter)
    requires ValidSpans(line, spans) && k < |spans|
    ensures ValidSpans(line, spans[k..]) && ValidSpans(line, spans[k + 1..])
    ensures Replay(line, spans[k..], ch, rewrite)
            == Step(line, spans[k], Replay(line, spans[k + 1..], ch, rewrite), ch, rewrite)
  {
    assert spans[k..][1..] == spans[k + 1..];
  }

  lemma ScanValid(pat: Pattern, line: seq<char>)
    ensures ValidSpans(line, Scan(pat, line, 0))
  {
    ScanLinks(pat, line);
  }

  /** The whole command: the wiki loop, then the markdown loop when the wiki loop
      found nothing (main.ts:115-116). Both loops read the line as it was before
      any edit. */
  function ToggleRun(line: seq<char>, ch: nat, resolve: Resolver, contextPath: seq<char>): (run: Run)
    ensures run.found <==> Touches(Scan(Wiki, line, 0), ch) || Touches(Scan(Markdown, line, 0), ch)
    ensures !run.found ==> run.edits == [] && run.failure.None?
  {
    ScanValid(Wiki, line);
    ScanValid(Markdown, line);
    ReplayFound(line, Scan(Wiki, line, 0), ch, RewriterOf(Wiki, resolve, contextPath));
    ReplayFound(line, Scan(Markdown, line, 0), ch, RewriterOf(Markdown, resolve, contextPath));
    var wiki := Replay(line, Scan(Wiki, line, 0), ch, RewriterOf(Wiki, resolve, contextPath));
    if wiki.found then wiki
    else Replay(line, Scan(Markdown, line, 0), ch, RewriterOf(Markdown, resolve, contextPath))
  }

  // ---------------------------------------------------------------------------
  // The command on the editor

  /** After some iterations of a loop whose whole run is `total`, the edits made so
      far took `before` to `now`, and the iterations left, `rest`, finish the run. */
  ghost predicate Resumes(total: Run, before: seq<char>, now: seq<char>, found: bool, rest: Run) {
    && ApplyEdits(before, total.edits) == ApplyEdits(now, rest.edits)
    && total.found == (found || rest.found)
    && total.failure == rest.failure
  }

  /** One iteration keeps the loop on course: a span without the cursor changes
      nothing, a rewrite that succeeds is one more edit, and one that fails ends the
      run with what was edited so far. */
  lemma StepResumes(total: Run, before: seq<char>, now: seq<char>, found: bool, line: seq<char>, s: Span, rest: Run, ch: nat, rewrite: Rewriter)
    requires s.start + 4 <= s.end <= |line|
    requires Resumes(total, before, now, found, Step(line, s, rest, ch, rewrite))
    ensures !Contains(s, ch) ==> Resumes(total, before, now, found, rest)
    ensures Contains(s, ch) && rewrite(line[s.start..s.end]).Ok? ==>
              Resumes(total, before, Replace(now, Edit(s.start, s.end, rewrite(line[s.start..s.end]).value)), true, rest)
    ensures Contains(s, ch) && rewrite(line[s.start..s.end]).Err? ==>
              ApplyEdits(before, total.edits) == now && total.found
              && total.failure == Some(rewrite(line[s.start..s.end]).error)
  {
    if Contains(s, ch) && rewrite(line[s.start..s.end]).Ok? {
      var e := Edit(s.start, s.end, rewrite(line[s.start..s.end]).value);
      assert ([e] + rest.edits)[0] == e && ([e] + rest.edits)[1..] == rest.edits;
    }
  }

  /** One loop of toggleLink over the matches of `pat` in `line`: the offset of
      each match is recovered with indexOf, and each match that contains the
      cursor is rewritten through the editor. */
  method ReplaceContaining(editor: Editor, pat: Pattern, line: seq<char>, ch: nat, rewrite: Rewriter)
    returns (found: bool, thrown: Option<Failure>)
    modifies editor
    ensures ValidSpans(line, Scan(pat, line, 0))
    ensures var run := Replay(line, Scan(pat, line, 0), ch, rewrite);
            && editor.line == ApplyEdits(old(editor.line), run.edits)
            && found == run.found && thrown == run.failure
  {
    ghost var spans := Scan(pat, line, 0);
    ScanValid(pat, line);
    ghost var total := Replay(line, spans, ch, rewrite);
    ghost var before := editor.line;
    var items := Matches(pat, line);
    found := false;
    var i: nat := 0;
    var k := 0;
    while k < |items|
      invariant 0 <= k <= |spans| && |items| == |spans|
      invariant i == Resume(spans, 0, k)
      invariant ValidSpans(line, spans[k..])
      invariant Resumes(total, before, editor.line, found, Replay(line, spans[k..], ch, rewrite))
    {
      MatchOffset(pat, line, k);
      ReplayFrom(line, spans, k, ch, rewrite);
      ghost var rest := Replay(line, spans[k + 1..], ch, rewrite);
      ghost var s := spans[k];
      StepResumes(total, before, editor.line, found, line, s, rest, ch, rewrite);
      var item := items[k];
      var index: nat := i + IndexOf(line[i..], item);
      var indexEnd := index + |item|;
      assert index == s.start && indexEnd == s.end && item == line[s.start..s.end];
      i := indexEnd;
      if index <= ch <= indexEnd {
        found := true;
        var r := rewrite(item);
        if r.Err? {
          thrown := Some(r.error);
          return;
        }
        ghost var now := editor.line;
        editor.ReplaceRange(r.value, index, indexEnd);
        assert editor.line == Replace(now, Edit(s.start, s.end, rewrite(line[s.start..s.end]).value));
      } else {
        assert !Contains(s, ch);
      }
      assert Resumes(total, before, editor.line, found, Replay(line, spans[k + 1..], ch, rewrite));
      k := k + 1;
    }
    assert spans[k..] == [];
    assert Replay(line, spans[k..], ch, rewrite) == Run([], false, None);
    thrown := None;
  }

  /** toggleLink on the cursor line of `editor`, with the cursor at `ch`.
      `resolve` stands for metadataCache.getFirstLinkpathDest and `contextPath`
      for the path of the open file. The result is what the command throws. */
  method ToggleLink(editor: Editor, ch: nat, resolve: Resolver, contextPath: seq<char>) returns (thrown: Option<Failure>)
    modifies editor
    ensures var run := ToggleRun(old(editor.line), ch, resolve, contextPath);
            editor.line == ApplyEdits(old(editor.line), run.edits) && thrown == run.failure
  {
    var line := editor.line;
    var found;
    found, thrown := ReplaceContaining(editor, Wiki, line, ch, RewriterOf(Wiki, resolve, contextPath));
    if thrown.Some? {
      ReplayFound(line, Scan(Wiki, line, 0), ch, RewriterOf(Wiki, resolve, contextPath));
      return;
    }
    if !found {
      ReplayFound(line, Scan(Wiki, line, 0), ch, RewriterOf(Wiki, resolve, contextPath));
      found, thrown := ReplaceContaining(editor, Markdown, line, ch, RewriterOf(Markdown, resolve, contextPath));
    }
  }

  // ---------------------------------------------------------------------------
  // Properties of a loop

  /** A loop reports a match exactly when some span contains the cursor, and a loop
      that found none made no edit and threw nothing. */
  lemma {:induction false} ReplayFound(line: seq<char>, spans: seq<Span>, ch: nat, rewrite: Rewriter)
    requires ValidSpans(line, spans)
    ensures var run := Replay(line, spans, ch, rewrite);
            && (run.found <==> Touches(spans, ch))
            && (!run.found ==> run.edits == [] && run.failure.None?)
    decreases |spans|
  {
    if spans != [] {
      ReplayFound(line, spans[1..], ch, rewrite);
      if exists j :: 0 <= j < |spans| && Contains(spans[j], ch) {
        var j :| 0 <= j < |spans| && Contains(spans[j], ch);
        if j > 0 {
          assert Contains(spans[1..][j - 1], ch);
        }
      }
      if exists j :: 0 <= j < |spans| - 1 && Contains(spans[1..][j], ch) {
        var j :| 0 <= j < |spans| - 1 && Contains(spans[1..][j], ch);
        assert Contains(spans[j + 1], ch);
      }
    }
  }

  /** The spans that contain the cursor, in order. */
  function Containing(spans: seq<Span>, ch: nat): (r: seq<Span>)
    ensures |r| <= |spans|
    ensures forall s <- r :: s in spans && Contains(s, ch)
  {
    if spans == [] then []
    else if Contains(spans[0], ch) then [spans[0]] + Containing(spans[1..], ch)
    else Containing(spans[1..], ch)
  }

  /** `e` is the edit the loop makes for the span `s`: its rewrite succeeds and
      replaces the span at its offsets in the original line. */
  predicate EditFor(line: seq<char>, s: Span, e: Edit, rewrite: Rewriter) {
    && s.start + 4 <= s.end <= |line|
    && rewrite(line[s.start..s.end]).Ok?
    && e == Edit(s.start, s.end, rewrite(line[s.start..s.end]).value)
  }

  /** The rewrite of the span `s` throws `f`. */
  predicate FailsWith(line: seq<char>, s: Span, f: Failure, rewrite: Rewriter) {
    && s.start + 4 <= s.end <= |line|
    && rewrite(line[s.start..s.end]) == Err(f)
  }

  /** The edits of a loop are the containing spans, in order, at their offsets in
      the original line and with their rewrites as text; the loop stops at the
      first rewrite that fails and throws its failure. */
  lemma {:induction false} ReplayEdits(line: seq<char>, spans: seq<Span>, ch: nat, rewrite: Rewriter)
    requires ValidSpans(line, spans)
    ensures var run := Replay(line, spans, ch, rewrite);
            var c := Containing(spans, ch);
            && |run.edits| <= |c|
            && (forall j :: 0 <= j < |run.edits| ==> EditFor(line, c[j], run.edits[j], rewrite))
            && (run.failure.None? <==> |run.edits| == |c|)
            && (run.failure.Some? ==> FailsWith(line, c[|run.edits|], run.failure.value, rewrite))
    decreases |spans|
  {
    if spans != [] {
      var s := spans[0];
      var run := Replay(line, spans, ch, rewrite);
      var rest := Replay(line, spans[1..], ch, rewrite);
      var c := Containing(spans[1..], ch);
      ReplayEdits(line, spans[1..], ch, rewrite);
      if Contains(s, ch) {
        assert Containing(spans, ch) == [s] + c;
        var r := rewrite(line[s.start..s.end]);
        if r.Ok? {
          assert run.edits == [Edit(s.start, s.end, r.value)] + rest.edits;
          forall j | 0 <= j < |run.edits|
            ensures EditFor(line, ([s] + c)[j], run.edits[j], rewrite)
          {
            if j > 0 {
              assert run.edits[j] == rest.edits[j - 1];
              assert ([s] + c)[j] == c[j - 1];
            }
          }
          if run.failure.Some? {
            assert ([s] + c)[|run.edits|] == c[|rest.edits|];
          }
        }
      }
    }
  }

  // ---------------------------------------------------------------------------
  // Properties of the command

  /** A wiki link containing the cursor decides the command: the markdown links are
      not looked at. */
  lemma WikiTakesPriority(line: seq<char>, ch: nat, resolve: Resolver, contextPath: seq<char>, j: nat)
    requires j < |Scan(Wiki, line, 0)| && Contains(Scan(Wiki, line, 0)[j], ch)
    ensures ValidSpans(line, Scan(Wiki, line, 0))
    ensures ToggleRun(line, ch, resolve, contextPath) == Replay(line, Scan(Wiki, line, 0), ch, RewriterOf(Wiki, resolve, contextPath))
  {
    ScanValid(Wiki, line);
    ReplayFound(line, Scan(Wiki, line, 0), ch, RewriterOf(Wiki, resolve, contextPath));
  }

  /** With no wiki link containing the cursor, the command is the markdown loop. */
  lemma MarkdownOtherwise(line: seq<char>, ch: nat, resolve: Resolver, contextPath: seq<char>)
    requires forall s <- Scan(Wiki, line, 0) :: !Contains(s, ch)
    ensures ValidSpans(line, Scan(Markdown, line, 0))
    ensures ToggleRun(line, ch, resolve, contextPath) == Replay(line, Scan(Markdown, line, 0), ch, RewriterOf(Markdown, resolve, contextPath))
  {
    var spans := Scan(Wiki, line, 0);
    ScanValid(Wiki, line);
    ScanValid(Markdown, line);
    ReplayFound(line, spans, ch, RewriterOf(Wiki, resolve, contextPath));
    assert !exists j :: 0 <= j < |spans| && Contains(spans[j], ch) by {
      forall j | 0 <= j < |spans| ensures !Contains(spans[j], ch) {
        assert spans[j] in spans;
      }
    }
  }

  /** With the cursor in no link of either kind the line stays as it is and nothing
      is thrown. */
  lemma NoContainingLinkNoEdit(line: seq<char>, ch: nat, resolve: Resolver, contextPath: seq<char>)
    requires forall s <- Scan(Wiki, line, 0) :: !Contains(s, ch)
    requires forall s <- Scan(Markdown, line, 0) :: !Contains(s, ch)
    ensures var run := ToggleRun(line, ch, resolve, contextPath);
            ApplyEdits(line, run.edits) == line && run.failure.None?
  {
    var spans := Scan(Markdown, line, 0);
    MarkdownOtherwise(line, ch, resolve, contextPath);
    ReplayFound(line, spans, ch, RewriterOf(Markdown, resolve, contextPath));
    assert !exists j :: 0 <= j < |spans| && Contains(spans[j], ch) by {
      forall j | 0 <= j < |spans| ensures !Contains(spans[j], ch) {
        assert spans[j] in spans;
      }
    }
  }

  /** Matches of one scan come in order and do not overlap; between two matches
      that are not neighbours there is a third. */
  lemma {:induction false} ScanOrdered(pat: Pattern, line: seq<char>, spans: seq<Span>, j1: nat, j2: nat)
    requires IsScanOf(pat, line, 0, spans) && j1 < j2 < |spans|
    ensures spans[j1].end <= spans[j2].start
    ensures j1 + 1 < j2 ==> spans[j1].end < spans[j2].start
    decreases j2 - j1
  {
    assert LeftmostAt(pat, line, 0, spans, j2);
    if j1 + 1 < j2 {
      ScanOrdered(pat, line, spans, j1, j2 - 1);
      assert LeftmostAt(pat, line, 0, spans, j2 - 1);
    }
  }

  /** Two matches of one kind contain the cursor only when they are neighbours and
      the cursor sits where the first ends and the second begins; so at most two
      links are rewritten. */
  lemma ContainingAreNeighbours(pat: Pattern, line: seq<char>, ch: nat, j1: nat, j2: nat)
    requires j1 < j2 < |Scan(pat, line, 0)|
    requires Contains(Scan(pat, line, 0)[j1], ch) && Contains(Scan(pat, line, 0)[j2], ch)
    ensures j2 == j1 + 1
    ensures Scan(pat, line, 0)[j1].end == ch == Scan(pat, line, 0)[j2].start
  {
    ScanIsLeftmost(pat, line, 0);
    ScanOrdered(pat, line, Scan(pat, line, 0), j1, j2);
  }

  /** A link alone in containing the cursor is replaced by its rewrite, and the
      rest of the line is kept. */
  lemma SingleLinkReplaced(line: seq<char>, spans: seq<Span>, ch: nat, rewrite: Rewriter, s: Span)
    requires ValidSpans(line, spans)
    requires Containing(spans, ch) == [s]
    requires s.start + 4 <= s.end <= |line|
    ensures var run := Replay(line, spans, ch, rewrite);
            var r := rewrite(line[s.start..s.end]);
            && (r.Ok? ==> ApplyEdits(line, run.edits) == line[..s.start] + r.value + line[s.end..] && run.failure.None?)
            && (r.Err? ==> ApplyEdits(line, run.edits) == line && run.failure == Some(r.error))
  {
    var run := Replay(line, spans, ch, rewrite);
    ReplayEdits(line, spans, ch, rewrite);
    if run.edits != [] {
      assert run.edits[1..] == [];
    }
  }

  // ---------------------------------------------------------------------------
  // Adjacent links

  /** An unresolved one-letter wiki link becomes a markdown link to "/x.md": the
      instance of Convert.UnresolvedLinkToMd that the adjacent-links example needs. */
  lemma LetterLinkToMd(x: char, resolve: Resolver, contextPath: seq<char>)
    requires 'a' <= x <= 'z' && resolve([x], contextPath).None?
    ensures WikiToMd(['[', '[', x, ']', ']'], resolve, contextPath)
            == Ok(['[', x, ']', '(', '/', x, '.', 'm', 'd', ')'])
  {
    assert Unescaped(x);
    UnresolvedTargetHasExtension([x]);
    assert HasExtension([x]).None?;
    UnresolvedLinkToMd([x], resolve, contextPath);
    LetterLinkText(x);
  }

  lemma LetterLinkText(x: char)
    ensures "[[" + [x] + "]]" == ['[', '[', x, ']', ']']
    ensures "[" + [x] + "](/" + [x] + ".md)" == ['[', x, ']', '(', '/', x, '.', 'm', 'd', ')']
  {
  }

  /** Two spans that both contain the cursor and both rewrite are both edited. */
  lemma TwoContainingReplay(line: seq<char>, s1: Span, s2: Span, ch: nat, rewrite: Rewriter, t1: seq<char>, t2: seq<char>)
    requires s1.start + 4 <= s1.end <= |line| && s2.start + 4 <= s2.end <= |line|
    requires Contains(s1, ch) && Contains(s2, ch)
    requires rewrite(line[s1.start..s1.end]) == Ok(t1) && rewrite(line[s2.start..s2.end]) == Ok(t2)
    ensures ValidSpans(line, [s1, s2])
    ensures Replay(line, [s1, s2], ch, rewrite) == Run([Edit(s1.start, s1.end, t1), Edit(s2.start, s2.end, t2)], true, None)
  {
    var spans := [s1, s2];
    assert spans[0] == s1 && spans[1..] == [s2];
    assert spans[1..][0] == s2 && spans[1..][1..] == [];
    var last := Replay(line, [s2], ch, rewrite);
    assert [s2][0] == s2 && [s2][1..] == [];
    assert ValidSpans(line, [s2]) && ValidSpans(line, []);
    assert last == Step(line, s2, Replay(line, [], ch, rewrite), ch, rewrite);
    assert Replay(line, [], ch, rewrite) == Run([], false, None);
    assert last == Run([Edit(s2.start, s2.end, t2)] + [], true, None);
    assert [Edit(s2.start, s2.end, t2)] + [] == [Edit(s2.start, s2.end, t2)];
    assert Replay(line, spans, ch, rewrite) == Step(line, s1, last, ch, rewrite);
  }

  /** With the cursor on an empty wiki link "[[]]", the command throws NoWikiInner
      and leaves the line as it was (main.ts:51 finds the link, main.ts:69 throws). */
  lemma EmptyWikiLinkThrows(ch: nat, resolve: Resolver, contextPath: seq<char>)
    requires ch <= 4
    ensures ToggleRun("[[]]", ch, resolve, contextPath) == Run([], true, Some(NoWikiInner))
  {
    var line := "[[]]";
    assert WikiMatchAt(line, 0, false) == Some(4);
    assert Scan(Wiki, line, 4) == [];
    assert Scan(Wiki, line, 0) == [Span(0, 4)];
    var spans := [Span(0, 4)];
    assert line[0..4] == line;
    assert WikiToMd(line, resolve, contextPath) == Err(NoWikiInner);
    assert spans[1..] == [];
    assert ValidSpans(line, spans) && ValidSpans(line, []);
    assert Replay(line, spans, ch, RewriterOf(Wiki, resolve, contextPath))
           == Step(line, Span(0, 4), Replay(line, [], ch, RewriterOf(Wiki, resolve, contextPath)), ch, RewriterOf(Wiki, resolve, contextPath));
  }

  /** The wiki scan of "[[a]][[b]]" finds the two links. */
  lemma AdjacentScan()
    ensures Scan(Wiki, "[[a]][[b]]", 0) == [Span(0, 5), Span(5, 10)]
  {
    var line := "[[a]][[b]]";
    assert WikiMatchAt(line, 0, false) == Some(5);
    assert WikiMatchAt(line, 5, false) == Some(10);
    assert Scan(Wiki, line, 10) == [];
    assert Scan(Wiki, line, 5) == [Span(5, 10)];
  }

  /** The wiki loop rewrites both links of "[[a]][[b]]" when the cursor is at 5. */
  lemma AdjacentReplay(resolve: Resolver, contextPath: seq<char>)
    requires resolve("a", contextPath).None? && resolve("b", contextPath).None?
    ensures var spans := [Span(0, 5), Span(5, 10)];
            && ValidSpans("[[a]][[b]]", spans)
            && Replay("[[a]][[b]]", spans, 5, RewriterOf(Wiki, resolve, contextPath))
               == Run([Edit(0, 5, "[a](/a.md)"), Edit(5, 10, "[b](/b.md)")], true, None)
  {
    var line := "[[a]][[b]]";
    var rewrite := RewriterOf(Wiki, resolve, contextPath);
    var spans := [Span(0, 5), Span(5, 10)];
    assert line[0..5] == "[[a]]";
    assert line[5..10] == "[[b]]";
    LetterLinkToMd('a', resolve, contextPath);
    LetterLinkToMd('b', resolve, contextPath);
    assert rewrite(line[0..5]) == WikiToMd(line[0..5], resolve, contextPath) == Ok("[a](/a.md)");
    assert rewrite(line[5..10]) == WikiToMd(line[5..10], resolve, contextPath) == Ok("[b](/b.md)");
    TwoContainingReplay(line, Span(0, 5), Span(5, 10), 5, rewrite, "[a](/a.md)", "[b](/b.md)");
  }

  lemma FirstEdit()
    ensures Replace("[[a]][[b]]", Edit(0, 5, "[a](/a.md)")) == "[a](/a.md)[[b]]"
  {
    var line := "[[a]][[b]]";
    assert line[5..] == "[[b]]";
    assert Replace(line, Edit(0, 5, "[a](/a.md)")) == [] + "[a](/a.md)" + line[5..];
  }

  lemma SecondEdit()
    ensures Replace("[a](/a.md)[[b]]", Edit(5, 10, "[b](/b.md)")) == "[a](/[b](/b.md)[[b]]"
  {
    var first := "[a](/a.md)[[b]]";
    assert first[..5] == "[a](/";
    assert first[10..] == "[[b]]";
    assert Replace(first, Edit(5, 10, "[b](/b.md)")) == first[..5] + "[b](/b.md)" + first[10..];
  }

  /** The second edit lands inside the text of the first. */
  lemma AdjacentEdits()
    ensures ApplyEdits("[[a]][[b]]", [Edit(0, 5, "[a](/a.md)"), Edit(5, 10, "[b](/b.md)")])
            == "[a](/[b](/b.md)[[b]]"
  {
    var edits := [Edit(0, 5, "[a](/a.md)"), Edit(5, 10, "[b](/b.md)")];
    FirstEdit();
    SecondEdit();
    assert edits[1..] == [edits[1]];
    assert edits[1..][1..] == [];
  }

  /** With the cursor between two adjacent wiki links both are rewritten, and the
      second replaceRange uses offsets of the line as it was before the first:
      "[[a]][[b]]" with the cursor at 5 becomes "[a](/[b](/b.md)[[b]]". */
  lemma AdjacentLinksUseStaleOffsets(resolve: Resolver, contextPath: seq<char>)
    requires resolve("a", contextPath).None? && resolve("b", contextPath).None?
    ensures var line := "[[a]][[b]]";
            var run := ToggleRun(line, 5, resolve, contextPath);
            ApplyEdits(line, run.edits) == "[a](/[b](/b.md)[[b]]" && run.failure.None?
  {
    AdjacentScan();
    AdjacentReplay(resolve, contextPath);
    AdjacentEdits();
    WikiTakesPriority("[[a]][[b]]", 5, resolve, contextPath, 0);
  }
}
