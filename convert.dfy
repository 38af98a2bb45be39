/** The two per-link rewrites of toggleLink: a wiki link to a markdown link
    (main.ts:69-101) and a markdown link to a wiki link (main.ts:127-147). */
module Convert {
  import opened Wrappers
  import opened Patterns
  import opened Uri

  /** What toggleLink throws while rewriting one link. */
  datatype Failure =
    | NoWikiInner   // TypeError: `item.match(regexWiki)` is null for "[[]]" (main.ts:69)
    | NoParenGroup  // TypeError: `item.match(regexParenthesis)` is null (main.ts:127)
    | UriMalformed  // URIError: decodeURI rejects the path (main.ts:128)

  type Resolver = (seq<char>, seq<char>) -> Option<seq<char>>

  // ---------------------------------------------------------------------------
  // String.prototype.split on one character

  /** The inverse of Split: the parts with the separator between them. */
  function Join(parts: seq<seq<char>>, sep: char): seq<char>
    requires |parts| >= 1
  {
    if |parts| == 1 then parts[0] else parts[0] + [sep] + Join(parts[1..], sep)
  }

  function Split(s: seq<char>, sep: char): (parts: seq<seq<char>>)
    ensures |parts| >= 1
    ensures forall j :: 0 <= j < |parts| ==> sep !in parts[j]
    ensures Join(parts, sep) == s
    ensures |parts| == 1 <==> sep !in s
    decreases |s|
  {
    var i := Find(s, {sep}, 0);
    if i == |s| then [s]
    else
      var rest := Split(s[i + 1..], sep);
      var parts := [s[..i]] + rest;
      assert parts[1..] == rest;
      assert s == s[..i] + [sep] + s[i + 1..];
      parts
  }

  /** The last part is what follows the last separator. */
  lemma {:induction false} JoinLast(parts: seq<seq<char>>, sep: char)
    requires |parts| >= 2
    ensures Join(parts, sep) == Join(parts[..|parts| - 1], sep) + [sep] + parts[|parts| - 1]
    decreases |parts|
  {
    if |parts| > 2 {
      JoinLast(parts[1..], sep);
      assert parts[1..][..|parts| - 2] == parts[..|parts| - 1][1..];
    }
  }

  // ---------------------------------------------------------------------------
  // Wiki link to markdown link

  /** The group of regexWiki, \[\[([^\]]+)\]\], searched for from `from` (main.ts:69). */
  function WikiInner(s: seq<char>, from: nat): Option<seq<char>>
    requires from <= |s|
    decreases |s| - from
  {
    if from == |s| then None
    else
      match WikiMatchAt(s, from, true)
      case Some(e) => Some(s[from + 2..e - 2])
      case None => WikiInner(s, from + 1)
  }

  /** On a wiki link the inner group is its inner text, and there is none exactly
      when that text is empty. */
  lemma WikiInnerOfLink(item: seq<char>)
    requires IsWikiLink(item)
    ensures WikiInner(item, 0) == if |item| > 4 then Some(item[2..|item| - 2]) else None
  {
    if |item| > 4 {
      assert item[0..|item|] == item;
      WikiMatchAtComplete(item, 0, |item|, true);
    } else {
      NoInnerInShortText(item, 0);
    }
  }

  /** On a wiki match, the rewrite finds an inner text unless the match is "[[]]". */
  lemma WikiInnerOfMatch(item: seq<char>)
    ensures IsWikiLink(item) ==> (WikiInner(item, 0).None? <==> item == "[[]]")
  {
    if IsWikiLink(item) {
      WikiInnerOfLink(item);
      if |item| == 4 {
        assert item == "[[]]";
      }
    }
  }

  lemma {:induction false} NoInnerInShortText(s: seq<char>, from: nat)
    requires from <= |s| <= 4
    ensures WikiInner(s, from).None?
    decreases |s| - from
  {
    if from < |s| {
      NoInnerInShortText(s, from + 1);
    }
  }

  /** The link path and the display text of a wiki link's inner text
      (main.ts:72-78). */
  function SplitPipe(text: seq<char>): (r: (seq<char>, seq<char>))
    ensures '|' !in text ==> r == (text, text)
  {
    if '|' in text then
      var parts := Split(text, '|');
      (parts[0], parts[1])
    else (text, text)
  }

  /** With a pipe, the link path is the text before the first '|' and the display
      text the text between the first '|' and the next one or the end. */
  lemma PipeSegments(text: seq<char>)
    requires '|' in text
    ensures var (path, display) := SplitPipe(text);
            && '|' !in path && '|' !in display
            && |path| + 1 + |display| <= |text|
            && text[..|path|] == path && text[|path|] == '|'
            && text[|path| + 1..|path| + 1 + |display|] == display
            && (|path| + 1 + |display| == |text| || text[|path| + 1 + |display|] == '|')
  {
    var parts := Split(text, '|');
    assert text == parts[0] + ['|'] + Join(parts[1..], '|');
    if |parts| > 2 {
      assert parts[1..][1..] == parts[2..];
      assert Join(parts[1..], '|') == parts[1] + ['|'] + Join(parts[2..], '|');
    }
  }

  /** The path the markdown link points to (main.ts:86-98): the resolved file,
      else the link path as it is when it has an extension, else with ".md". */
  function TargetPath(linkPath: seq<char>, resolved: Option<seq<char>>): (target: seq<char>)
    ensures |target| >= 1 && target[0] == '/'
    ensures resolved.Some? ==> target[1..] == resolved.value
    ensures resolved.None? ==> && |target| >= |linkPath| + 1 && target[1..|linkPath| + 1] == linkPath
                               && (HasExtension(linkPath).Some? <==> |target| == |linkPath| + 1)
                               && (HasExtension(linkPath).None? ==> target[|linkPath| + 1..] == ".md")
  {
    match resolved
    case Some(path) => "/" + path
    case None => if HasExtension(linkPath).None? then "/" + linkPath + ".md" else "/" + linkPath
  }

  /** Appending ".md" to a name without a backslash gives it the extension "md". */
  lemma MdSuffixIsExtension(name: seq<char>)
    requires '\\' !in name
    ensures ExtensionDotAt(name + ".md", |name|)
  {
    var t := name + ".md";
    forall k | 0 <= k < |name| ensures t[k] != '\\' {
      assert t[k] == name[k];
    }
  }

  /** Putting a character other than a backslash in front keeps the extension. */
  lemma ExtensionDotAtShift(c: char, s: seq<char>, d: nat)
    requires c != '\\' && ExtensionDotAt(s, d)
    ensures ExtensionDotAt([c] + s, d + 1)
  {
    var t := [c] + s;
    forall k | 1 <= k < |t| ensures t[k] == s[k - 1] {
    }
  }

  /** An unresolved target always ends in an extension, unless the link path holds
      a backslash; an extension already there is kept and not doubled. */
  lemma UnresolvedTargetHasExtension(linkPath: seq<char>)
    requires '\\' !in linkPath
    ensures var t := TargetPath(linkPath, None);
            && HasExtension(t).Some?
            && (HasExtension(linkPath).Some? ==> t == "/" + linkPath)
            && (HasExtension(linkPath).None? ==> t == "/" + linkPath + ".md")
  {
    if HasExtension(linkPath).None? {
      MdSuffixIsExtension("/" + linkPath);
      HasExtensionExactly("/" + linkPath + ".md", |linkPath| + 1);
    } else {
      var d := |HasExtension(linkPath).value.stem|;
      ExtensionDotAtShift('/', linkPath, d);
      assert "/" + linkPath == ['/'] + linkPath;
      HasExtensionExactly("/" + linkPath, d + 1);
    }
  }

  /** The markdown link toggleLink writes for a wiki link (main.ts:69-101). */
  function WikiToMd(item: seq<char>, resolve: Resolver, contextPath: seq<char>): (r: Result<seq<char>, Failure>)
    ensures r.Err? ==> r.error == NoWikiInner
    ensures IsWikiLink(item) ==> (r.Err? <==> item == "[[]]")
    ensures r.Ok? ==> |r.value| >= 4 && r.value[0] == '[' && r.value[|r.value| - 1] == ')'
  {
    WikiInnerOfMatch(item);
    match WikiInner(item, 0)
    case None => Err(NoWikiInner)
    case Some(text) =>
      var (linkPath, display) := SplitPipe(text);
      var target := TargetPath(linkPath, resolve(linkPath, contextPath));
      Ok("[" + display + "](" + EncodeURI(target) + ")")
  }

  // ---------------------------------------------------------------------------
  // Markdown link to wiki link

  /** The file name part of a path (main.ts:131-135). */
  function BaseName(text: seq<char>): seq<char> {
    if '/' in text then
      var parts := Split(text, '/');
      parts[|parts| - 1]
    else text
  }

  /** The base name is the text after the last '/', or all of it. */
  lemma BaseNameIsLastSegment(text: seq<char>)
    ensures var r := BaseName(text);
            && '/' !in r && |r| <= |text| && text[|text| - |r|..] == r
            && (|r| == |text| || text[|text| - |r| - 1] == '/')
  {
    if '/' in text {
      var parts := Split(text, '/');
      JoinLast(parts, '/');
    }
  }

  lemma BaseNameAfterSlash(dir: seq<char>, name: seq<char>)
    requires '/' !in name
    ensures BaseName(dir + "/" + name) == name
  {
    var text := dir + "/" + name;
    var r := BaseName(text);
    BaseNameIsLastSegment(text);
    assert text[|text| - |name|..] == name;
    SlashBeforeSegment(text, r, |text| - |name| - 1);
    if |r| < |text| {
      SlashBeforeSegment(text, name, |text| - |r| - 1);
    }
    assert text[|text| - |name|..] == text[|text| - |r|..];
  }

  /** A '/' in the text at or after the start of a final segment lies in that segment. */
  lemma SlashBeforeSegment(text: seq<char>, segment: seq<char>, p: nat)
    requires |segment| <= |text| && text[|text| - |segment|..] == segment
    requires p < |text| && text[p] == '/'
    ensures p >= |text| - |segment| ==> '/' in segment
  {
    if p >= |text| - |segment| {
      assert segment[p - (|text| - |segment|)] == text[p];
    }
  }

  /** The file name without its extension when that extension is exactly "md"
      (main.ts:138-145). */
  function StripMd(filename: seq<char>): seq<char> {
    match HasExtension(filename)
    case Some(Extension(stem, ext)) => if ext == "md" then stem else filename
    case None => filename
  }

  /** ".md" is removed exactly when the name ends in it and holds no backslash;
      "MD" or any other extension stays. */
  lemma StripMdExactly(filename: seq<char>)
    ensures StripMd(filename) ==
            if '\\' !in filename && |filename| >= 3 && filename[|filename| - 3..] == ".md"
            then filename[..|filename| - 3] else filename
  {
    var n := |filename|;
    if '\\' !in filename && n >= 3 && filename[n - 3..] == ".md" {
      StripMdRemoves(filename);
    } else {
      StripMdKeeps(filename);
    }
  }

  lemma StripMdRemoves(filename: seq<char>)
    requires '\\' !in filename && |filename| >= 3 && filename[|filename| - 3..] == ".md"
    ensures StripMd(filename) == filename[..|filename| - 3]
  {
    var n := |filename|;
    assert filename[n - 3] == '.' && filename[n - 2] == 'm' && filename[n - 1] == 'd';
    assert ExtensionDotAt(filename, n - 3);
    HasExtensionExactly(filename, n - 3);
    assert filename[n - 2..] == "md";
  }

  lemma StripMdKeeps(filename: seq<char>)
    requires !('\\' !in filename && |filename| >= 3 && filename[|filename| - 3..] == ".md")
    ensures StripMd(filename) == filename
  {
    if '\\' in filename {
      BackslashHasNoExtension(filename);
    } else {
      var h := HasExtension(filename);
      if h.Some? {
        MdExtensionIsSuffix(filename, h.value.stem, h.value.ext);
      }
    }
  }

  /** A name whose extension is "md" ends in ".md". */
  lemma MdExtensionIsSuffix(s: seq<char>, stem: seq<char>, ext: seq<char>)
    requires s == stem + "." + ext
    ensures ext == "md" ==> |s| >= 3 && s[|s| - 3..] == ".md"
  {
    if ext == "md" {
      assert s[|s| - 3..] == "." + ext;
    }
  }

  /** The wiki link target for a decoded markdown path. */
  function FileName(path: seq<char>): (name: seq<char>)
    ensures '/' !in name
  {
    BaseNameIsLastSegment(path);
    StripMdExactly(BaseName(path));
    StripMd(BaseName(path))
  }

  /** The wiki link toggleLink writes for a markdown link (main.ts:127-147). The
      display text is not carried over. */
  function MdToWiki(item: seq<char>): (r: Result<seq<char>, Failure>)
    ensures r.Ok? ==> && |r.value| >= 4 && r.value[..2] == "[[" && r.value[|r.value| - 2..] == "]]"
                      && '/' !in r.value
    ensures r == Err(NoParenGroup) <==> forall p, c :: !ParenMatchAt(item, p, c)
    ensures r == Err(UriMalformed) ==> '%' in item
  {
    match ParenSearch(item, 0)
    case None => Err(NoParenGroup)
    case Some((p, c)) =>
      match DecodeURI(item[p + 1..c])
      case None => InSlice(item, p + 1, c, '%'); Err(UriMalformed)
      case Some(text) => WikiLinkText(FileName(text)); Ok("[[" + FileName(text) + "]]")
  }

  lemma InSlice(s: seq<char>, i: nat, j: nat, x: char)
    requires i <= j <= |s|
    ensures x in s[i..j] ==> x in s
  {
    if x in s[i..j] {
      var k :| 0 <= k < j - i && s[i..j][k] == x;
      assert s[i + k] == x;
    }
  }

  /** "[[" + name + "]]" is bracketed and holds a '/' only if the name does. */
  lemma WikiLinkText(name: seq<char>)
    ensures var w := "[[" + name + "]]";
            && |w| >= 4 && w[..2] == "[[" && w[|w| - 2..] == "]]"
            && ('/' in w <==> '/' in name)
  {
    var w := "[[" + name + "]]";
    assert w[..2] == "[[";
    assert w[|w| - 2..] == "]]";
    assert w == "[[" + (name + "]]");
  }

  // ---------------------------------------------------------------------------
  // Round trip

  /** The parenthesis group of "[display](path)" is the path when the display has
      no '(' and the path neither ')' nor a line terminator. */
  lemma ParenGroupOfLink(display: seq<char>, path: seq<char>)
    requires '(' !in display && ')' !in path
    requires forall c <- path :: !IsLineTerminator(c)
    ensures var m := "[" + display + "](" + path + ")";
            ParenSearch(m, 0) == Some((|display| + 2, |m| - 1))
  {
    var m := "[" + display + "](" + path + ")";
    var p, c := |display| + 2, |m| - 1;
    assert ParenMatchAt(m, p, c) by {
      forall k | p < k < c ensures m[k] != ')' && !IsLineTerminator(m[k]) {
        assert m[k] == path[k - p - 1];
      }
    }
    forall p' | 0 <= p' < p ensures m[p'] != '(' {
      if 0 < p' <= |display| {
        assert m[p'] == display[p' - 1];
      }
    }
    var r := ParenSearch(m, 0);
    assert r.Some?;
    assert r.value.0 == p;
  }

  /** The markdown link written for a non-empty wiki link. */
  lemma WikiToMdOfLink(inner: seq<char>, resolve: Resolver, contextPath: seq<char>)
    requires inner != [] && ']' !in inner
    ensures var (linkPath, display) := SplitPipe(inner);
            var target := TargetPath(linkPath, resolve(linkPath, contextPath));
            WikiToMd("[[" + inner + "]]", resolve, contextPath)
              == Ok("[" + display + "](" + EncodeURI(target) + ")")
  {
    var item := "[[" + inner + "]]";
    assert IsWikiLink(item);
    WikiInnerOfLink(item);
    assert item[2..|item| - 2] == inner;
  }

  /** encodeURI writes neither a line terminator nor a ')' that was not there. */
  lemma EncodedPathIsPlain(target: seq<char>)
    requires ')' !in target
    ensures ')' !in EncodeURI(target)
    ensures forall c <- EncodeURI(target) :: !IsLineTerminator(c)
  {
    var encoded := EncodeURI(target);
    forall c | c in encoded ensures c != ')' && !IsLineTerminator(c) {
      if c in target && Unescaped(c) {
        UnescapedIsNoTerminator(c);
      }
    }
  }

  lemma UnescapedIsNoTerminator(c: char)
    requires Unescaped(c)
    ensures !IsLineTerminator(c)
  {
    if c in "-_.!~*'()" {
      var i :| 0 <= i < 9 && "-_.!~*'()"[i] == c;
    } else if Preserved(c) {
      var i :| 0 <= i < 11 && ";/?:@&=+$,#"[i] == c;
    }
  }

  /** The wiki link written for "[display](path)" is that of the decoded path's
      file name, when the display has no '(' and the path no ')'. */
  lemma MdToWikiOfLink(display: seq<char>, path: seq<char>, decoded: seq<char>)
    requires '(' !in display && ')' !in path
    requires forall c <- path :: !IsLineTerminator(c)
    requires DecodeURI(path) == Some(decoded)
    ensures MdToWiki("[" + display + "](" + path + ")") == Ok("[[" + FileName(decoded) + "]]")
  {
    var m := "[" + display + "](" + path + ")";
    ParenGroupOfLink(display, path);
    assert m[|display| + 3..|m| - 1] == path;
  }

  /** A path that decodeURI rejects makes the markdown rewrite throw (main.ts:128). */
  lemma MalformedPathThrows(display: seq<char>, path: seq<char>)
    requires '(' !in display && ')' !in path
    requires forall c <- path :: !IsLineTerminator(c)
    requires DecodeURI(path).None?
    ensures MdToWiki("[" + display + "](" + path + ")") == Err(UriMalformed)
  {
    var m := "[" + display + "](" + path + ")";
    ParenGroupOfLink(display, path);
    assert m[|display| + 3..|m| - 1] == path;
  }

  /** A '%' with no two hexadecimal digits after it, as in "[notes](%)", throws. */
  lemma TruncatedEscapeThrows(display: seq<char>)
    requires '(' !in display
    ensures MdToWiki("[" + display + "](%)") == Err(UriMalformed)
  {
    assert DecodeEscape("%").None?;
    MalformedPathThrows(display, "%");
    assert "[" + display + "](" + "%" + ")" == "[" + display + "](%)";
  }

  /** An unresolved wiki link whose name encodeURI leaves alone points to the name
      under the root, with ".md" added when it has no extension: [[todo]] becomes
      [todo](/todo.md) and [[report.pdf]] becomes [report.pdf](/report.pdf). */
  lemma UnresolvedLinkToMd(name: seq<char>, resolve: Resolver, contextPath: seq<char>)
    requires name != [] && forall c <- name :: Unescaped(c)
    requires resolve(name, contextPath).None?
    ensures HasExtension(name).None? ==>
              WikiToMd("[[" + name + "]]", resolve, contextPath) == Ok("[" + name + "](/" + name + ".md)")
    ensures HasExtension(name).Some? ==>
              WikiToMd("[[" + name + "]]", resolve, contextPath) == Ok("[" + name + "](/" + name + ")")
  {
    PlainNameHasNoMarkup(name);
    WikiToMdOfLink(name, resolve, contextPath);
    UnresolvedTargetHasExtension(name);
    var target := TargetPath(name, None);
    assert SplitPipe(name) == (name, name);
    assert WikiToMd("[[" + name + "]]", resolve, contextPath) == Ok("[" + name + "](" + EncodeURI(target) + ")");
    PlainPathIsKept(name);
    LinkToRoot(name);
  }

  lemma PlainNameHasNoMarkup(name: seq<char>)
    requires forall c <- name :: Unescaped(c)
    ensures ']' !in name && '|' !in name && '\\' !in name
  {
  }

  /** encodeURI leaves "/name" and "/name.md" alone when the name holds only
      characters it does not escape. */
  lemma PlainPathIsKept(name: seq<char>)
    requires forall c <- name :: Unescaped(c)
    ensures EncodeURI("/" + name) == "/" + name
    ensures EncodeURI("/" + name + ".md") == "/" + name + ".md"
  {
    forall c <- "/" + name ensures Unescaped(c) {
      assert c == '/' || c in name;
    }
    forall c <- "/" + name + ".md" ensures Unescaped(c) {
      assert c in "/" + name || c in ".md";
    }
  }

  /** The markdown links to "/name.md" and to "/name", written out. */
  lemma LinkToRoot(name: seq<char>)
    ensures "[" + name + "](" + ("/" + name + ".md") + ")" == "[" + name + "](/" + name + ".md)"
    ensures "[" + name + "](" + ("/" + name) + ")" == "[" + name + "](/" + name + ")"
  {
    assert ".md" + ")" == ".md)";
  }

  /** Rewriting a wiki link to markdown and back gives the wiki link of the target's
      file name (main.ts:69-101 then 127-147), whenever the display text has no
      '(' and the target no ')'. */
  lemma WikiToMdToWiki(inner: seq<char>, resolve: Resolver, contextPath: seq<char>)
    requires inner != [] && ']' !in inner
    requires var (linkPath, display) := SplitPipe(inner);
             '(' !in display && ')' !in TargetPath(linkPath, resolve(linkPath, contextPath))
    ensures var (linkPath, display) := SplitPipe(inner);
            var md := WikiToMd("[[" + inner + "]]", resolve, contextPath);
            && md.Ok?
            && MdToWiki(md.value) == Ok("[[" + FileName(TargetPath(linkPath, resolve(linkPath, contextPath))) + "]]")
  {
    var (linkPath, display) := SplitPipe(inner);
    var target := TargetPath(linkPath, resolve(linkPath, contextPath));
    var encoded := EncodeURI(target);
    WikiToMdOfLink(inner, resolve, contextPath);
    EncodedPathIsPlain(target);
    DecodeEncode(target);
    MdToWikiOfLink(display, encoded, target);
  }

  /** The markdown pattern of main.ts:52 matches a written link "[display](path)"
      whole when the display has no ']' and the path no '(': the next run of the
      command finds the link again. */
  lemma ConvertedLinkIsMatched(display: seq<char>, path: seq<char>)
    requires ']' !in display && '(' !in path
    ensures var m := "[" + display + "](" + path + ")";
            MdMatchAt(m, 0) == Some(|m|)
  {
    var m := "[" + display + "](" + path + ")";
    var q := |display| + 1;
    forall k | 1 <= k < q ensures m[k] != ']' {
      assert m[k] == display[k - 1];
    }
    forall k | q + 2 <= k < |m| - 1 ensures m[k] != '(' {
      assert m[k] == path[k - q - 2];
    }
    assert m[..|m|] == m;
    MdMatchAtLongest(m, 0, |m|, q);
  }

  /** A '(' in the path ends the markdown pattern's path group, so a link written
      for a target such as "/a(b.md" is not matched at its '['. */
  lemma ParenInPathIsNotMatched()
    ensures MdMatchAt("[x](/a(b.md)", 0).None?
  {
    var line := "[x](/a(b.md)";
    assert Find(line, {']'}, 1) == 2;
    assert Find(line, {'('}, 4) == 6;
    assert LastIndex(line, ')', 4, 6).None?;
  }

  /** The wiki name of a path in a folder is the name after the folder, less ".md"
      when that is its extension: "notes/todo.md" gives "todo", "notes/todo.pdf"
      gives "todo.pdf" and "notes/todo.MD" gives "todo.MD". */
  lemma FolderFileName(dir: seq<char>, name: seq<char>)
    requires '/' !in name
    ensures FileName(dir + "/" + name) ==
            if '\\' !in name && |name| >= 3 && name[|name| - 3..] == ".md"
            then name[..|name| - 3] else name
  {
    BaseNameAfterSlash(dir, name);
    StripMdExactly(name);
  }

  /** Under the root directory the file name is the stripped name. */
  lemma FileNameUnderRoot(name: seq<char>)
    requires '/' !in name
    ensures FileName("/" + name) == StripMd(name)
  {
    assert "/" + name == [] + "/" + name;
    BaseNameAfterSlash([], name);
  }

  /** A name without an extension gets ".md", which is stripped again. */
  lemma AddedMdIsStripped(name: seq<char>)
    requires '/' !in name && '\\' !in name
    ensures FileName("/" + name + ".md") == name
  {
    var full := name + ".md";
    assert full[|full| - 3..] == ".md";
    forall k | 0 <= k < |full| ensures full[k] != '/' && full[k] != '\\' {
      if k < |name| {
        assert full[k] == name[k];
      }
    }
    assert "/" + name + ".md" == "/" + full;
    FileNameUnderRoot(full);
    StripMdExactly(full);
    assert full[..|name|] == name;
  }

  /** A name with an extension other than a trailing ".md" is kept whole. */
  lemma KeptExtensionIsKept(name: seq<char>)
    requires '/' !in name && '\\' !in name
    requires !(|name| >= 3 && name[|name| - 3..] == ".md")
    ensures FileName("/" + name) == name
  {
    FileNameUnderRoot(name);
    StripMdExactly(name);
  }

  /** The file name of an unresolved name's target is the name itself, unless it
      already ends in ".md". */
  lemma UnresolvedFileName(name: seq<char>)
    requires '/' !in name && '\\' !in name
    requires !(|name| >= 3 && name[|name| - 3..] == ".md")
    ensures FileName(TargetPath(name, None)) == name
  {
    UnresolvedTargetHasExtension(name);
    if HasExtension(name).None? {
      AddedMdIsStripped(name);
    } else {
      KeptExtensionIsKept(name);
    }
  }

  /** An unresolved bare name comes back unchanged: [[todo]] becomes
      [todo](/todo.md) and that becomes [[todo]] again. */
  lemma BareNameRoundTrip(name: seq<char>, resolve: Resolver, contextPath: seq<char>)
    requires name != []
    requires ']' !in name && '|' !in name && '/' !in name && '\\' !in name
    requires '(' !in name && ')' !in name
    requires resolve(name, contextPath).None?
    requires !(|name| >= 3 && name[|name| - 3..] == ".md")
    ensures var md := WikiToMd("[[" + name + "]]", resolve, contextPath);
            md.Ok? && MdToWiki(md.value) == Ok("[[" + name + "]]")
  {
    UnresolvedFileName(name);
    UnresolvedTargetNoParen(name);
    assert SplitPipe(name) == (name, name);
    WikiToMdToWiki(name, resolve, contextPath);
  }

  /** The path made up for an unresolved name has no ')' when the name has none. */
  lemma UnresolvedTargetNoParen(name: seq<char>)
    requires ')' !in name && '\\' !in name
    ensures ')' !in TargetPath(name, None)
  {
    UnresolvedTargetHasExtension(name);
  }

  /** A name the resolver finds as "dir/name.md" comes back as [[name]], whatever
      display text the wiki link had. */
  lemma ResolvedNameRoundTrip(inner: seq<char>, dir: seq<char>, resolve: Resolver, contextPath: seq<char>)
    requires inner != [] && ']' !in inner
    requires '(' !in SplitPipe(inner).1
    requires '/' !in SplitPipe(inner).0 && ')' !in SplitPipe(inner).0 && '\\' !in SplitPipe(inner).0
    requires ')' !in dir
    requires resolve(SplitPipe(inner).0, contextPath) == Some(dir + "/" + SplitPipe(inner).0 + ".md")
    ensures var md := WikiToMd("[[" + inner + "]]", resolve, contextPath);
            md.Ok? && MdToWiki(md.value) == Ok("[[" + SplitPipe(inner).0 + "]]")
  {
    var linkPath := SplitPipe(inner).0;
    var target := TargetPath(linkPath, resolve(linkPath, contextPath));
    ResolvedFileName(dir, linkPath);
    WikiToMdToWiki(inner, resolve, contextPath);
  }

  /** The file name of "/dir/name.md" is the name, and the path has no ')' when
      neither part has one. */
  lemma ResolvedFileName(dir: seq<char>, name: seq<char>)
    requires '/' !in name && ')' !in name && '\\' !in name && ')' !in dir
    ensures var target := TargetPath(name, Some(dir + "/" + name + ".md"));
            FileName(target) == name && ')' !in target
  {
    var full := name + ".md";
    var target := TargetPath(name, Some(dir + "/" + name + ".md"));
    assert target == ("/" + dir) + "/" + full;
    forall k | 0 <= k < |full| ensures full[k] != '/' && full[k] != '\\' && full[k] != ')' {
      if k < |name| {
        assert full[k] == name[k];
      }
    }
    forall k | 0 <= k < |target| ensures target[k] != ')' {
      if 1 <= k <= |dir| {
        assert target[k] == dir[k - 1];
      } else if k > |dir| + 1 {
        assert target[k] == full[k - |dir| - 2];
      }
    }
    BaseNameAfterSlash("/" + dir, full);
    assert full[|full| - 3..] == ".md";
    StripMdExactly(full);
    assert full[..|name|] == name;
  }
}
