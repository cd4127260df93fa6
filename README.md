# parseCSS, modelled and verified in Dafny

`parseCSS` (src/index.ts) reads CSS text without a grammar. It rewrites the text step by step
until its structure can be read off with simple scans:

1. Line endings are normalised to `\n`.
2. Every quoted string and every `/* */` comment is hidden behind a placeholder, `\0<n>\0`
   or `\0c<n>\0`. A placeholder names an entry of the table `code`; `pushCode` appends to
   that table.
3. Lines are trimmed and blank ones dropped.
4. Brace blocks that hold no brace and no quote are hidden behind `\0b<n>\0` placeholders,
   again and again, until none is left. Blocks therefore collapse from the innermost outward.
5. `parseCode` walks the flattened text. It takes out the `@charset …;` and then the
   `@import …;` directives (`parseNode`). It then builds one node per "header + block
   placeholder".
6. Each node gets:
   - its selector, trimmed and with comment placeholders removed;
   - the first comment of the header, resolved;
   - as its type, the last `@ident` of the selector;
   - then either the children of its body, parsed again (`media`, `supports`, `keyframes`,
     `page`), or its declarations (`parseRules`).
7. `parseRules` splits a body at `;` and cuts each piece at its first `:`. A piece without a
   colon becomes a defective rule. Values are resolved with `popCodeRecursive`.

The project has two layers.

- **The specification layer** is pure functions over the placeholder table (`seq<string>`)
  and the text (`seq<char>`). In dependency order:
  - `JsString`: the string operations of JavaScript the program uses.
  - `Placeholder`: tokens, the table, `popCode` and its repetition until no NUL is left.
  - `Spans`: the string/comment and brace-block scanners, `replace(…, pushCode)` and the
    collapse loop.
  - `AtRules`: the directive patterns.
  - `Scans`: the comment strip, the block walk and the at-keyword scan.
  - `Rules`: `parseRules`.
  - `Tree`: `parseNode`, `parseCode`, parseCSS's preparation of the text, and parseCSS.
- **The imperative layer** is module `CssParser`. Class `Parser` holds the table, and its
  methods are the program's loops and closures. Each method is proved to compute what the
  specification layer defines.

`Findings` keeps two scans exactly as the source writes them, each with an input on which it
goes wrong (see "## Findings").

Every regular expression is written out as a scanner that keeps the order in which the
JavaScript engine tries alternatives:

- in a quoted string, an escape is tried first, then any non-quote character, then the
  closing quote;
- the directive pattern is lazy: it stops at the first `;` and does not cross a line
  terminator;
- `.?` tries one character before none;
- the at-keyword pattern is lower-case only.

Where the code and its documented behaviour disagree, the model follows the code:

- Directive `styles` are resolved with the one-level `popCode` (src/index.ts:119-120), not
  recursively.
- The comment attached to a node is the first comment placeholder anywhere in its header
  (src/index.ts:124), not only one that immediately precedes the selector.
- A node that is not a container gets `rules` even when its block is empty
  (src/index.ts:141), so every block node has exactly one of `rules` and `children`.

## Model

| member | source | states |
|---|---|---|
| JsString.Trim | src/index.ts:41 | the trimmed text is never longer, and is empty or starts and ends with non-whitespace |
| JsString.TrimSpan | src/index.ts:41 | the trimmed text is a slice of the input with only whitespace outside it |
| JsString.TrimIdempotent | src/index.ts:41 | trimming twice is trimming once |
| JsString.TrimFree | src/index.ts:48 | trimming introduces no character absent from its input |
| JsString.Split | src/index.ts:41 | `split` gives at least one piece and no piece holds the separator |
| JsString.JoinSplit | src/index.ts:49 | joining the pieces of a split with the same separator gives back the text |
| JsString.SplitJoin | src/index.ts:110 | splitting a join of separator-free pieces gives back the pieces |
| JsString.SplitConcat | src/index.ts:41 | the split of `a + sep + b` is the split of `a` followed by the split of `b` |
| JsString.IndexOf | src/index.ts:46 | `indexOf` is the first occurrence, and is below the length exactly when the character occurs |
| JsString.SplitAtFirst | src/index.ts:47-49 | with a colon present, `data[0]` is the text before the first colon and `data.slice(1).join(':')` the text after it |
| JsString.TrimmedNonEmpty | src/index.ts:41 | `.map(trim).filter(nonEmpty)` keeps at most as many pieces, each one trimmed and non-empty |
| JsString.TrimmedNonEmptyConcat | src/index.ts:41 | trim-and-filter distributes over concatenation, so order is kept |
| JsString.TrimmedNonEmptyNoop | src/index.ts:110 | trim-and-filter leaves a list of trimmed non-empty lines unchanged |
| JsString.ReplaceChar | src/index.ts:49 | `replace(/\n/g, ' ')` turns every line feed into a space and keeps every other character in place |
| JsString.NatToDigits | src/index.ts:98 | the decimal text of an index is all digits and spells that index |
| JsString.DigitRunAgree | src/index.ts:99 | where `\d+` stops depends only on the characters up to and including the first non-digit |
| Placeholder.TokenRead | src/index.ts:98-99 | a placeholder read back yields its own length, its index and its tag |
| Placeholder.TokenText | src/index.ts:98 | a placeholder is a well-formed text that names exactly its index |
| Placeholder.PushPopRoundTrip | src/index.ts:98-99 | `popCode` on the placeholder `pushCode` returns for a text gives back that text |
| Placeholder.PopMatchAtToken | src/index.ts:99 | at a whole placeholder, the popCode pattern `/\0.?\d+\0/` matches exactly that placeholder |
| Placeholder.PopCodeToken | src/index.ts:99 | `popCode` replaces a leading placeholder by the entry it names (`undefined` past the end) |
| Placeholder.PopCodeNulFree | src/index.ts:99 | `popCode` leaves text without NUL unchanged |
| Placeholder.PopCodePrefix | src/index.ts:99 | `popCode` copies a NUL-free prefix unchanged |
| Placeholder.PopCodeConcat | src/index.ts:99 | on well-formed text, `popCode` distributes over concatenation |
| Placeholder.ResolveDeep | src/index.ts:100-105 | on a valid table, where each entry names only older entries, full resolution ends and leaves no NUL |
| Placeholder.PopCodeStep | src/index.ts:100-105 | one `popCode` pass keeps text in range, changes nothing when no placeholder is left, strictly lowers the largest index named, and keeps the full resolution, so popCodeRecursive terminates |
| Placeholder.ResolveNulFree | src/index.ts:100-105 | popCodeRecursive leaves text without NUL unchanged |
| Placeholder.ResolveConcat | src/index.ts:100-105 | full resolution distributes over concatenation |
| Placeholder.ResolveExtend | src/index.ts:96-98 | entries appended later do not change what a text resolves to |
| Placeholder.ValidTableAppend | src/index.ts:96-98 | appending entries that name only older entries keeps the table valid |
| Spans.CrlfToLf | src/index.ts:108 | replacing `\r\n` by `\n` never lengthens the text |
| Spans.CrlfToLfCount | src/index.ts:108 | every character other than `\r` occurs as often after `\r\n` → `\n` as before |
| Spans.CrlfToLfNul | src/index.ts:108 | `\r\n` → `\n` introduces no NUL |
| Spans.CrlfToLfUnits | src/index.ts:108 | a CRLF pair becomes one line feed, and any single character stays as it is |
| Spans.CrlfToLfConcat | src/index.ts:108 | the replacement works piece by piece: cut anywhere except inside a CRLF pair, each half is normalised on its own; with CrlfToLfUnits this fixes the result on every string |
| Spans.QuotedEnd | src/index.ts:26 | a quoted string found by the backtracking pattern ends at its closing quote |
| Spans.QuotedEndAtQuote | src/index.ts:26 | a quote character reached inside a string closes it right there |
| Spans.CommentClose | src/index.ts:26 | the lazy comment body stops at a `*/` |
| Spans.CommentCloseFirst | src/index.ts:26 | that `*/` is the first one |
| Spans.SpanLen | src/index.ts:26 | a string/comment match opens with a quote or `/*` and closes with the same quote or `*/` |
| Spans.BlockLen | src/index.ts:27 | a block match opens with `{` and closes with `}` |
| Spans.BlockLenInner | src/index.ts:27 | nothing between the braces of a block match is a brace or a quote |
| Spans.BlockLenComplete | src/index.ts:27 | conversely, a span with braces at both ends and none of those characters inside is a block match |
| Spans.ExtractRoundTrip | src/index.ts:109 | with pushCode's placeholders, `popCode` over the extended table turns the text that `replace(…, pushCode)` produced back into the input |
| Spans.ExtractValid | src/index.ts:109-113 | the replaced text names only entries of the extended table, and the new entries name only older ones |
| Spans.ExtractResolve | src/index.ts:109-113 | hiding spans keeps the table valid and keeps what the text resolves to |
| Spans.ExtractCopies | src/index.ts:109 | replacement copies placeholder characters unchanged |
| Spans.ExtractBraces | src/index.ts:113 | a block pass removes as many `{` from the text as it pushes blocks |
| Spans.HasBlockAt | src/index.ts:112 | `search(regexCodeBlock) >= 0` holds exactly when a block match starts at some index |
| Spans.HasBlockExtract | src/index.ts:112-113 | a pass over text that has a block pushes at least one entry |
| Spans.Collapse | src/index.ts:112-114 | when the collapse loop ends, no block match is left |
| Spans.CollapseStep | src/index.ts:112-114 | each turn of the collapse loop strictly lowers the number of `{`, and the loop is that pass followed by the rest of the loop |
| Spans.CollapseResolve | src/index.ts:112-114 | collapsing keeps the table valid and keeps what the text resolves to |
| Spans.NormalizeLinesSplit | src/index.ts:110 | the lines of the normalised text are the trimmed non-blank lines of the input, in order |
| Spans.NormalizeLinesTrimmed | src/index.ts:110 | every line of the normalised text is trimmed |
| Spans.NormalizeLinesIdempotent | src/index.ts:110 | normalising twice is normalising once |
| Spans.NormalizeLinesBelow | src/index.ts:110 | line normalisation keeps placeholders whole |
| AtRules.DirectiveLen | src/index.ts:29-30 | a directive match starts with `@`, the keyword in either case and a space, and ends with `;` |
| AtRules.DirectiveInner | src/index.ts:29-30 | no `;` and no line terminator occurs before that final `;` |
| AtRules.SemicolonAtFirst | src/index.ts:29-30 | the lazy `.*?;` stops at the first `;` |
| AtRules.DirectivesWhole | src/index.ts:84-85 | every match the exec loop collects is a whole directive |
| AtRules.ScanOrdered | src/index.ts:84-85 | the exec loop, resuming at `lastIndex`, finds its matches at indices inside the text where the pattern matches, each at or after the end of the one before |
| AtRules.ScanComplete | src/index.ts:84-85 | every index from the starting `lastIndex` on where the pattern matches starts one of the exec loop's matches or lies inside one |
| AtRules.DirectivesScan | src/index.ts:84-87 | the matches the scan takes out are exactly the texts at the indices the exec loop finds, in the same order |
| AtRules.DirectivesAt | src/index.ts:84-85 | the k-th directive is the text at the k-th index the exec loop finds, and the pattern matches exactly that much there |
| AtRules.DirectivesComplete | src/index.ts:84-85 | no directive is missed: every index of the segment where the pattern matches starts one of the collected directives or lies inside one |
| AtRules.DirectivesPartition | src/index.ts:84-87 | the matches and the remaining text hold every character of the input exactly once |
| AtRules.DirectivesSemicolons | src/index.ts:84-87 | each match takes exactly one `;` out of the text |
| AtRules.DirectiveSemicolon | src/index.ts:29-30 | a directive holds exactly one `;` |
| AtRules.DirectivesBelow | src/index.ts:87 | removing directives keeps placeholders whole |
| AtRules.DirectivesCopies | src/index.ts:84-87 | the directive scan copies placeholder characters unchanged |
| Scans.CountTagConcat | src/index.ts:122-125 | placeholders of a tag in `a + b` are those of `a` plus those of `b` |
| Scans.CountTagToken | src/index.ts:122-125 | a placeholder counts for its own tag only |
| Scans.StripCommentsBelow | src/index.ts:125 | removing comment placeholders keeps the text well-formed and names no new entry |
| Scans.StripCommentsCount | src/index.ts:125 | after the strip no comment placeholder is left, and every other placeholder is kept |
| Scans.StripCommentsNone | src/index.ts:125 | the strip leaves text without comment placeholders unchanged |
| Scans.StripCommentsIdempotent | src/index.ts:125 | stripping twice is stripping once |
| Scans.FirstCommentExists | src/index.ts:124-131 | a header gets a comment exactly when it holds a comment placeholder |
| Scans.FirstCommentToken | src/index.ts:124-130 | what `regexComments.exec` finds is one whole comment placeholder naming an existing entry |
| Scans.FirstCommentAfter | src/index.ts:124 | the search passes over any well-formed text holding no comment placeholder |
| Scans.FirstCommentIsFirst | src/index.ts:124 | a comment placeholder with no comment placeholder before it is the one `regexComments.exec` returns, whatever follows it |
| Scans.BlocksCount | src/index.ts:122 | the block walk yields one match per block placeholder |
| Scans.BlocksSkip | src/index.ts:122 | text without a block placeholder becomes part of the next match's header |
| Scans.BlocksFirst | src/index.ts:122 | the first match has as header everything before the first block placeholder |
| Scans.BlocksAtToken | src/index.ts:122 | a block placeholder closes the current header |
| Scans.BlocksIn | src/index.ts:122 | every match names an existing block and a header free of block placeholders |
| Scans.BlocksCons | src/index.ts:122 | one match that is in range, followed by matches in range, is in range |
| Scans.IdentEnd | src/index.ts:133 | `[a-z\d_\-]*` stops at the first character outside that class |
| Scans.KeywordsNone | src/index.ts:133-135 | the at-keyword scan finds nothing exactly when no at-keyword starts in the text |
| Scans.KeywordsLast | src/index.ts:133-135 | the last match of the scan is the at-keyword with none after it |
| Scans.LastKeywordSpec | src/index.ts:133-135 | `type` is absent exactly when the selector has no at-keyword, and otherwise is the last one |
| Scans.KeywordNameShape | src/index.ts:133 | an at-keyword name is non-empty, starts with `[a-z_\-]` and continues with `[a-z\d_\-]` |
| Scans.KeywordsNames | src/index.ts:133 | every name the scan finds has that shape |
| Scans.LastKeywordName | src/index.ts:133-135 | a node's type, when present, has that shape |
| Scans.CountTagFree | src/index.ts:122-125 | text without NUL holds no placeholder |
| Scans.SpaceNoTag | src/index.ts:125 | whitespace holds no placeholder |
| Scans.TrimCountTag | src/index.ts:125 | trimming keeps text well-formed and keeps every placeholder |
| Scans.SpaceAround | src/index.ts:125 | a slice with only whitespace outside it holds all the placeholders of the text |
| Rules.SegmentsBelow | src/index.ts:41 | the segments of a body keep placeholders whole, and none holds a `;` |
| Rules.ValueTextBelow | src/index.ts:47-49 | the value text is everything after the first colon, line feeds made spaces, placeholders whole |
| Rules.AfterColonBelow | src/index.ts:47-49 | cutting after the first colon keeps placeholders whole |
| Rules.DeclarationFirstColon | src/index.ts:46-53 | a segment with a colon gives the key (trimmed text before the first colon) and the value (trimmed full resolution of the rest); the pair is kept exactly when both are non-empty |
| Rules.DeclarationShape | src/index.ts:46-56 | a segment is dropped only when it has a colon; a kept rule is defective exactly when its segment has no colon |
| Rules.DeclarationDefective | src/index.ts:54-56 | a segment without a colon always yields `{key: '', value: replace(segment), defective: true}` |
| Rules.QuotedValueVerbatim | src/index.ts:46-53 | `key:` followed by a hidden string gives that string verbatim as value, whatever `;`, `:`, `{` or `}` it holds |
| Rules.TokenNoLineFeed | src/index.ts:49 | turning line feeds into spaces leaves a placeholder unchanged |
| Rules.ColonLine | src/index.ts:46-47 | in `key:` + placeholder, with a colon-free key, the first colon is right after the key |
| Rules.IndexOfAt | src/index.ts:46 | `indexOf` finds a character at a position with no earlier occurrence |
| Rules.ResolveCode | src/index.ts:100-105 | a string placeholder resolves to its NUL-free entry |
| Rules.ParseRulesSplit | src/index.ts:41-57 | the rules of `a;b` are the rules of `a` followed by those of `b` |
| Rules.RulesOfConcat | src/index.ts:43-57 | the loop's rules over two lists of segments are those of the first, then those of the second |
| Rules.RulesOfSnoc | src/index.ts:43-57 | one more turn of the loop appends that segment's rule, if any |
| Rules.RulesOfLength | src/index.ts:43-57 | at most one rule per segment |
| Rules.RulesOfShape | src/index.ts:43-57 | every rule is well shaped: a defective one has an empty key; any other has a trimmed colon-free key and a trimmed value; no value holds a placeholder |
| Rules.ParseRulesShape | src/index.ts:38-60 | `parseRules` gives at most one rule per non-empty segment, each well shaped |
| Tree.DirectiveNodes | src/index.ts:84-86 | one node per directive match |
| Tree.DirectiveNodesFrom | src/index.ts:84-86 | the nodes of the directives from the k-th on start with the k-th one's node |
| Tree.DirectiveNodesAppend | src/index.ts:84-86 | directive nodes distribute over concatenation of the matches, so order is kept |
| Tree.BlockBody | src/index.ts:137 | a block's body names only entries older than the block |
| Tree.ParseCodeParts | src/index.ts:116-122 | parseCode is the charset nodes, then the import nodes, then the block nodes of what is left |
| Tree.BlockNodes | src/index.ts:122 | one node per block match |
| Tree.BlockNodesFrom | src/index.ts:122 | the nodes of the matches from the k-th on start with the k-th one's node |
| Tree.BlocksBelowSlice | src/index.ts:122 | a slice of in-range matches is in range |
| Tree.Prepare | src/index.ts:107-114 | the prepared table is valid, the prepared text names only its entries, and no brace block is left |
| Tree.PrepareResolves | src/index.ts:107-114 | preparing hides strings and comments without loss, and then changes the text only by line normalisation |
| Tree.DirectiveNodesShape | src/index.ts:85 | each directive node is `{selector: '@' + name, type: name, styles: popCode(match)}`, in match order |
| Tree.BlockNodeShape | src/index.ts:124-142 | a block node has a trimmed selector free of comment placeholders; its comment is present exactly when the header holds a comment placeholder, and is then the first comment placeholder of the header resolved with popCodeRecursive; its type is the last at-keyword; it has `children` exactly for a container type and well-shaped `rules` otherwise; the strip and trim keep the header's block placeholders (there are none in headers the walk yields, by Scans.BlocksIn) |
| Tree.BlockNodesShaped | src/index.ts:122-143 | every block node, at every depth, has that shape |
| Tree.ParseCodeShaped | src/index.ts:116-145 | every node parseCode returns, at every depth, is a directive node or a block node |
| Tree.ParseCodeOrder | src/index.ts:116-145 | parseCode returns the charset nodes, then the import nodes, each in source order, then exactly one block node per block placeholder |
| Tree.AllShapedAppend | src/index.ts:116-145 | well-shaped lists are well shaped when joined |
| Tree.ShapedCons | src/index.ts:128 | a well-shaped block node in front of well-shaped block nodes |
| Tree.RunsJoin | src/index.ts:119-122 | charset, import and block runs sit at their offsets in the joined result |
| Tree.ParseCSSShaped | src/index.ts:95-147 | every node of parseCSS's tree is a directive node or a block node |
| CssParser.Parser.constructor | src/index.ts:96 | the table starts empty |
| CssParser.Parser.PushCode | src/index.ts:98 | appends the text at index `code.length`, leaves every earlier entry in place, returns the placeholder tagged for the text, and popCode reads it back; a valid table stays valid when the new entry is |
| CssParser.Parser.PopCodeRecursive | src/index.ts:100-105 | the loop computes the full resolution and leaves no NUL |
| CssParser.Parser.ReplaceSpans | src/index.ts:109-113 | `replace(pattern, pushCode)` returns the replaced text and appends exactly the matched spans; over a valid table it keeps the table valid, the text well-formed and what the text resolves to |
| CssParser.Parser.CollapseBlocks | src/index.ts:112-114 | the while loop computes the collapse, appends its blocks, and ends with no block match; over a valid table it keeps the table valid, the text well-formed and what the text resolves to |
| CssParser.Parser.ParseRules | src/index.ts:38-60 | the for loop computes `parseRules` of the body |
| CssParser.Parser.ParseNode | src/index.ts:83-88 | the exec loop appends one node per directive to the caller's nodes and returns the text without them |
| CssParser.Parser.ParseCode | src/index.ts:116-145 | computes parseCode of the segment |
| CssParser.Parser.ParseBlocks | src/index.ts:122-143 | the block walk pushes the node of each match, in order |
| CssParser.Parser.BlockNode | src/index.ts:123-142 | the callback builds the node of one match |
| CssParser.ReplaceMatch | src/index.ts:109-113 | a match keeps the replace loop's invariant |
| CssParser.ReplaceLiteral | src/index.ts:109-113 | a copied character keeps the replace loop's invariant |
| CssParser.CollapseRound | src/index.ts:112-114 | a turn of the collapse loop lowers the `{` count and keeps its invariant |
| CssParser.ScanType | src/index.ts:133-135 | the exec loop, trying the pattern at each index from the end of the last match on, leaves in `type` the last at-keyword of the selector |
| CssParser.ParseCSS | src/index.ts:95-147 | parseCSS computes the tree of the functional model |
| Findings.TaggedLen | src/index.ts:28 | a match of `/\0c\d+\0/` opens and closes with NUL and carries its tag |
| Findings.CommentDesync | src/index.ts:137 | the comment strip as written turns `b:\00\0c5\0c1\0` into `b:\00c1\0`, on which the loop of popCodeRecursive (src/index.ts:100-105) returns to the same text and position |
| Findings.CommentAligned | src/index.ts:137 | the placeholder-aligned strip keeps the string and `c5` and removes only the comment |
| Findings.StripAround | src/index.ts:137 | the aligned strip removes a trailing comment placeholder and keeps a string placeholder between literals |
| Findings.BlockDesync | src/index.ts:122 | the block walk as written reads index 9 from `\00\0b9\01\0\0b2\0`, past a table of three |
| Findings.BlockAligned | src/index.ts:122 | the placeholder-aligned walk finds one match with the whole header and index 2 |
| Findings.HeaderShape | src/index.ts:122 | two string placeholders around a literal form a well-formed header without a block placeholder |

## Left out

- The JavaScript regular-expression engine is not modelled in general. Each of the five
  module patterns (src/index.ts:26-30), the popCode pattern and the two patterns inside
  parseCode is written as a scanner with the same matches.
- `lastIndex` carried from one call to the next on the module-level `/g` patterns is not
  modelled.
  - The exec loops of parseNode run until no match is left, which resets it.
  - `regexComments.exec` is always followed by a `replace` with the same pattern, which resets
    it too; so each exec starts at index 0, as the model assumes.
- CssParser.ParseCSS, Tree.Prepare and Tree.ParseCSS require a source without NUL. A source
  holding NUL makes the placeholders ambiguous, and popCodeRecursive can loop forever on it.
- Tree.BlockNode: builds the node as a value. The source pushes the node into the result
  first and then sets `comments`, `type` and `rules`/`children` on it. No caller sees the node
  in between, so only the order of mutation is lost.
- Placeholder.NumericIndex: unary plus on the matched text is exact for digits preceded by
  nothing, whitespace, `+`, `-` or `.`. Indices beyond 2^53, where a JavaScript number loses
  precision, are not modelled.
- Undefined table entries are modelled as the text `undefined`, which is what `replace`
  inserts for them. The TypeError that `code[9].slice` raises in Findings.BlockDesync is
  shown by the index being out of range, not modelled as an exception.
- Scans.StripComments, Scans.FirstComment, Scans.Blocks: the comment and block scans are
  aligned on placeholder boundaries, so they differ from the source on the inputs in
  "## Findings"; Findings keeps the scans as written.
- The `declare global` namespace and the TypeScript types (src/index.ts:1-24) are not part
  of this model. Only the field shapes of `CSS.Object` and `CSS.Rule` are kept, as
  `Tree.Node` and `Rules.Rule`. `type` is the field `kind`, since `type` is a Dafny keyword.
- Characters: a Dafny `char` is a Unicode scalar value, while a JavaScript string is a
  sequence of UTF-16 code units. A lone surrogate cannot be represented, and a character
  outside the Basic Multilingual Plane is one `char` here but two code units there. No
  pattern of the core tells the two apart: none uses the `u` flag, the classes it matches are
  all inside the Basic Multilingual Plane, and `.` and `[\s\S]` take either form alike.
- The compiled dist/ files and the test file src/index.spec.ts are not part of this model.

## Findings

| source | as written | input that shows it | evidently intended | confidence | as-written member | corrected member |
|---|---|---|---|---|---|---|
| src/index.ts:137 | `regexComments` (`/\0c\d+\0/g`, src/index.ts:28) removes any NUL, `c`, digits, NUL, even when the first NUL closes one placeholder and the last opens the next | `a{b:"x"c5/*y*/}`: the block body `b:\00\0c5\0c1\0` is stripped to `b:\00c1\0`, which popCode cannot change, so popCodeRecursive never ends | only whole comment placeholders removed, giving the value `"x"c5` (Scans.StripCommentsCount proves this of every text) | not executed | Findings.CommentDesync | Findings.CommentAligned |
| src/index.ts:122 | `/([\s\S]*?)\0b(\d+)\0/gi` matches `\0b<digits>\0` across the boundary of two placeholders | `'a'b9'c'{}`: the text `\00\0b9\01\0\0b2\0` over three entries yields block index 9, and `code[9].slice` throws | one node whose header is both string placeholders around `b9`, with block index 2 (Scans.BlocksIn proves every index in range) | not executed | Findings.BlockDesync | Findings.BlockAligned |
