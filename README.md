# wikilinks-to-mdlinks: the toggleLink command in Dafny

This models the one piece of logic in the Obsidian plugin wikilinks-to-mdlinks:
`toggleLink` (main.ts:42-161). Given the cursor line and the cursor column, the
command finds each link under the cursor and rewrites it into the other notation:

- a wiki link `[[path|display]]` becomes the markdown link
  `[display](encodeURI(target))`;
- a markdown link `[display](path)` becomes `[[name]]`, where `name` is the last
  segment of the decoded path, with a `.md` extension removed.

The project has five modules, one per file:

- `Wrappers` (wrappers.dfy): `Option` and `Result`.
- `Uri` (uri.dfy): `encodeURI` and `decodeURI` of ECMA-262, section 19.2.6, over
  Unicode scalar values with their UTF-8 octets. This includes the escape sets
  and the error cases of decodeURI. The model proves the round trip
  `DecodeURI(EncodeURI(s)) == Some(s)`.
- `Patterns` (patterns.dfy): the five regular expressions of main.ts:48-52, each
  written as a scanner. It also models the global `match`, which finds the
  leftmost, non-overlapping matches. `indexOf` is modelled too, and the model
  proves that the offset recovery of main.ts:59-65 and 119-123 finds exactly
  the scanner's spans.
- `Convert` (convert.dfy): the two per-link rewrites.
  - Wiki to markdown (main.ts:69-101): the pipe split, the resolver, the
    extension fallback and the encoding.
  - Markdown to wiki (main.ts:127-147): the parenthesis group, decoding, the
    base name and `.md` stripping.
- `Toggle` (toggle.dfy): the command itself.
  - An `Editor` class holds the cursor line. Its `ReplaceRange` method acts as
    CodeMirror's `replaceRange` does.
  - `ReplaceContaining` is the loop of main.ts:60-113 and 118-158. It is proved
    against `Replay`, the pure description of one loop.
  - `ToggleLink` runs the wiki loop and then, only if no wiki link held the
    cursor, the markdown loop.

Values the command reads from the host are parameters: the line, the cursor
column, the path of the open file, and Obsidian's link resolver. An exception
the command throws is modelled as a `Failure` value, and the edits made before
the throw stay in the editor, as they do in the source.

Because the loops never break, every link of the winning kind that touches the
cursor is replaced, using offsets taken from the line as it was before the first
edit. Two adjacent wiki links meet at one column. With the cursor on that column
both are rewritten, and the second edit lands on stale offsets:
`AdjacentLinksUseStaleOffsets` shows `[[a]][[b]]` with the cursor at 5 becoming
`[a](/[b](/b.md)[[b]]`. The model keeps this behaviour as the code has it.

One might expect `[[real-name|Shown Text]]` to keep its display text after a
round trip through markdown. The code drops it when it rewrites markdown to wiki
(main.ts:147) and emits `[[real-name]]`. Only the link target survives a round
trip, and `WikiToMdToWiki` and `ResolvedNameRoundTrip` state it that way.

The round-trip lemmas compose the two rewrites of one link. Two runs of the
command compose them only when the markdown pattern of main.ts:52 finds the
written link again, and its path group stops at a '('. `ConvertedLinkIsMatched`
shows that a link whose path has no '(' is matched whole. encodeURI keeps '(',
so a target such as "/a(b.md" is written as `[x](/a(b.md)`, which is no match at
its '[' (`ParenInPathIsNotMatched`), and such a link cannot be toggled back.

## Model

| member | source | states |
|---|---|---|
| Uri.EncodeURI | main.ts:100 | encodeURI never shortens the text. It writes only unreserved or reserved characters taken from the input, '%' and upper-case hex digits. It leaves the text unchanged exactly when every character is one it does not escape |
| Uri.DecodeURI | main.ts:128 | decodeURI returns text without '%' unchanged and never lengthens the text. It fails only when there is a '%' to decode |
| Uri.DecodeEncode | main.ts:100 | decodeURI undoes encodeURI for every string of Unicode scalar values |
| Patterns.WikiMatchAt | main.ts:49-51 | a match found at a position is a wiki link `[[…]]` with no ']' inside and lies in the line. The non-empty pattern of line 49 needs at least one character inside |
| Patterns.WikiMatchAtComplete | main.ts:49-51 | every wiki link that starts at a position is the match the scanner finds there |
| Patterns.MdMatchAt | main.ts:52 | a match found at a position is `[display](path)`, with no ']' in the display and no '(' in the path, ending in ')' |
| Patterns.MdMatchAtLongest | main.ts:52 | if a markdown link starts at a position, the scanner finds a match there, and it is at least as long as that link (the greedy path) |
| Patterns.Matches | main.ts:54-55 | the global match returns one item per span of the scan. Each item has at least four characters, starts with '[' and ends with ']' for the wiki pattern or ')' for the markdown one |
| Patterns.MatchesAreLinks | main.ts:54-55 | every item the global match returns is a whole link of its pattern |
| Patterns.ScanIsLeftmost | main.ts:54-55 | the global match returns the leftmost match from each resume point, non-overlapping and in order. No match is skipped between two results, and none follows the last |
| Patterns.IndexOf | main.ts:63 | indexOf returns the first occurrence of the item, or -1 when there is none |
| Patterns.SpanRecovery | main.ts:59-65 | `i + line.slice(i).indexOf(item)` is the start of the scanner's span when `i` is the end of the previous match |
| Patterns.MatchOffset | main.ts:119-123 | each matched item is the line between its span's ends, and the indexOf recovery from the previous end gives its start |
| Patterns.HasExtension | main.ts:48 | a match of `^([^\\]*)\.(\w+)$` splits the text into a stem and a word-character extension at a dot, with no backslash before it |
| Patterns.HasExtensionExactly | main.ts:48 | the extension test picks the last dot followed only by word characters and returns the text before and after it |
| Patterns.BackslashHasNoExtension | main.ts:48 | any backslash makes the extension test fail |
| Patterns.ParenSearch | main.ts:50 | `\((.*?)\)` finds the leftmost '(' followed by a ')' with no line terminator between, and the first such ')'. No earlier '(' has a match, and no match means there is none at all |
| Convert.Split | main.ts:75 | split gives the segments between separators: none holds the separator, joining them gives back the text, and there is one segment exactly when there is no separator |
| Convert.PipeSegments | main.ts:72-78 | with a pipe character, the link path is the text before the first pipe, and the display is the text between the first pipe and the next one or the end |
| Convert.SplitPipe | main.ts:72-78 | without a pipe character, the link path and the display are both the whole inner text |
| Convert.WikiInnerOfLink | main.ts:69 | the inner text of a wiki match is what lies between `[[` and `]]`. For the empty `[[]]` there is none |
| Convert.TargetPath | main.ts:86-98 | the target starts with '/'. A resolved target is "/" followed by the file's path. An unresolved one is "/" followed by the link path, then ".md" exactly when the link path has no extension |
| Convert.UnresolvedTargetHasExtension | main.ts:86-98 | for a link path without a backslash, an unresolved link path gets "/" in front, and ".md" after it unless it already has an extension. The result always has one |
| Convert.WikiToMdOfLink | main.ts:69-101 | `[[inner]]` becomes `[display](encodeURI(target))`, with the target `"/" + file.path` when the resolver finds a file, and otherwise the fallback |
| Convert.WikiToMd | main.ts:69-101 | the wiki rewrite throws nothing but NoWikiInner, and on a wiki match it throws exactly when the match is the empty `[[]]`. What it writes starts with '[' and ends with ')' |
| Convert.UnresolvedLinkToMd | main.ts:86-101 | an unresolved `[[name]]` whose name encodeURI leaves alone becomes `[name](/name.md)`, or `[name](/name)` when the name has an extension |
| Convert.BaseNameIsLastSegment | main.ts:131-135 | the base name is the text after the last '/', or the whole text when there is no '/' |
| Convert.BaseNameAfterSlash | main.ts:131-135 | after "dir/" the base name is the name that follows |
| Convert.StripMdExactly | main.ts:137-145 | ".md" is removed exactly when the name ends in it and has no backslash. "MD" and other extensions stay |
| Convert.FileName | main.ts:131-147 | the name put into `[[…]]` never holds a '/' |
| Convert.FolderFileName | main.ts:131-147 | "dir/name" gives the name, less ".md" when that is its extension: notes/todo.md gives todo and notes/todo.pdf gives todo.pdf |
| Convert.ParenGroupOfLink | main.ts:127 | the parenthesis group of `[display](path)` is the path when the display has no '(' and the path no ')' or line terminator |
| Convert.MdToWiki | main.ts:127-147 | the markdown rewrite writes `[[…]]` with no '/' inside. It throws NoParenGroup exactly when the item has no parenthesis group, and UriMalformed only when the item holds a '%' |
| Convert.MdToWikiOfLink | main.ts:127-147 | such a link becomes `[[name]]`, where name is the file name of the decoded path; the display is dropped |
| Convert.MalformedPathThrows | main.ts:128 | such a link whose path decodeURI rejects throws UriMalformed |
| Convert.TruncatedEscapeThrows | main.ts:128 | a lone '%' as the path throws UriMalformed |
| Convert.EncodedPathIsPlain | main.ts:100 | an encoded path has no line terminator, and no ')' when the target had none, so the parenthesis pattern of main.ts:50 reads it back whole |
| Convert.ConvertedLinkIsMatched | main.ts:52 | a written `[display](path)` whose display has no ']' and whose path has no '(' is matched whole by the markdown pattern |
| Convert.ParenInPathIsNotMatched | main.ts:52 | `[x](/a(b.md)` is no match of the markdown pattern at its '[': a '(' in the path stops the path group |
| Convert.WikiToMdToWiki | main.ts:69-147 | rewriting a wiki link to markdown and back gives `[[f]]`, where f is the file name of the target |
| Convert.UnresolvedFileName | main.ts:86-98 | an unresolved name without ".md" at its end, '/' or backslash is the file name of its own target |
| Convert.BareNameRoundTrip | main.ts:69-147 | an unresolved `[[name]]` comes back as itself |
| Convert.ResolvedNameRoundTrip | main.ts:80-147 | a link path the resolver finds as "dir/path.md" comes back as `[[path]]`, whatever the display text was |
| Toggle.ReplaceSplices | main.ts:111 | replaceRange keeps the line before and after the range and puts the text between. Offsets are put in order and clipped to the line |
| Toggle.Editor.constructor | main.ts:45-47 | the editor starts with the cursor line |
| Toggle.Editor.ReplaceRange | main.ts:111 | the line after the call is the line with the range replaced |
| Toggle.ReplaceContaining | main.ts:59-113 | the loop leaves the editor with the edits of `Replay` applied in order. It reports whether a match held the cursor and what was thrown |
| Toggle.ToggleRun | main.ts:54-125 | the command finds a link exactly when a wiki span or a markdown span holds the cursor. Without one it makes no edit and throws nothing |
| Toggle.ToggleLink | main.ts:42-161 | the command leaves the editor with the edits of `ToggleRun` applied and throws what `ToggleRun` throws |
| Toggle.ReplayFound | main.ts:67-68 | a loop reports a match exactly when some span contains the cursor, both ends inclusive. Otherwise it makes no edit and throws nothing |
| Toggle.ReplayEdits | main.ts:61-111 | the edits are the containing spans, in order, at their offsets in the original line, with their rewrites. The loop stops at the first rewrite that throws and throws its failure |
| Toggle.WikiTakesPriority | main.ts:56-68 | when a wiki span holds the cursor, the command is the wiki loop alone |
| Toggle.MarkdownOtherwise | main.ts:116-118 | when no wiki span holds the cursor, the command is the markdown loop |
| Toggle.NoContainingLinkNoEdit | main.ts:67-125 | with the cursor outside every link, the line is unchanged and nothing is thrown |
| Toggle.ScanOrdered | main.ts:59-65 | the spans of a scan are ordered and do not overlap. Spans that are not neighbours do not even touch |
| Toggle.ContainingAreNeighbours | main.ts:67 | at most two spans hold the cursor: two neighbours that meet at the cursor |
| Toggle.SingleLinkReplaced | main.ts:103-111 | with one containing span the line becomes the text before it, the rewrite, and the text after it. If the rewrite throws, the line is unchanged |
| Toggle.EmptyWikiLinkThrows | main.ts:49-69 | with the cursor on the line `[[]]`, the command throws NoWikiInner and makes no edit. The global pattern matches the empty link but the non-empty one of line 49 does not |
| Toggle.AdjacentScan | main.ts:51 | `[[a]][[b]]` scans as two adjacent spans, 0-5 and 5-10 |
| Toggle.AdjacentLinksUseStaleOffsets | main.ts:61-111 | with the cursor where two wiki links meet, both are rewritten with the original offsets, giving `[a](/[b](/b.md)[[b]]` |

## Left out

- Plugin lifecycle, command registration, hotkey and logging (main.ts:13-40): host glue with no logic of its own.
- The active-view and source-mode checks and how the editor is obtained (main.ts:19-23, 43-45): the editor's cursor line and the cursor column are inputs instead.
- The resolver `metadataCache.getFirstLinkpathDest` (main.ts:81-84): Obsidian's own logic, which is not visible here. It is a function parameter that returns the file path or nothing.
- The unused imports (main.ts:1-10).
- Strings are sequences of Unicode scalar values. JavaScript indexes strings by UTF-16 code unit, so offsets agree only on text in the Basic Multilingual Plane. Lone surrogates, which encodeURI rejects, cannot be written in the model.
- Only the cursor line is modelled. A line break that decodeURI puts into a wiki name (from "%0A") is kept as an ordinary character of the line, although CodeMirror would split the line there.
- Toggle.Editor.ReplaceRange: the ordering and clipping of offsets follow CodeMirror 5's `replaceRange`, which is host code outside this repository. The model states that behaviour rather than deriving it.
- A general regular-expression engine: only the five fixed patterns of main.ts:48-52 are modelled, each as a scanner.
- Display text through markdown to wiki: the code drops it (main.ts:147), so no round trip of the display is stated.
