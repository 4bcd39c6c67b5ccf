# Markdown to Confluence wiki markup: a Dafny model of the converter core

This project models the conversion core of a Markdown-to-Confluence server.
A parsed Markdown tree is rendered node by node into Confluence wiki markup
(`*bold*`, `h2. `, `{code:language=java}`, `|| head ||`, `*#` list
prefixes, inline code between two reserved NUL-framed markers). The rendered
text is then post-processed in five steps:

1. every `{code…}…{code}` block is swapped for a NUL-framed placeholder;
2. leftover `**x**` becomes `*x*`;
3. runs of three or more newlines shrink to two;
4. the blocks are put back;
5. the inline-code markers become `{{` and `}}`, and the text is stripped and given one final newline.

The modules follow the program:

- `Tree`: the node kinds the renderer handles.
- `Renderer`: one case per handler, plus the link-text walk.
- `ListPrefix`: the bottom-up prefix walk as a loop, and the top-down nesting the renderer threads.
- `Escape`: the brace and backslash escapes.
- `Protect`: the code-block pattern, placeholders, the restore as written and a positional restore.
- `Rewrite`: the bold fix-up and the newline collapse, as Java's regex engine reads the two patterns.
- `PostProcess`: the five steps composed, once as written and once with steps 4 and 5 read positionally.
- `Converter`: the blank check and the composition. `Converter.Convert` is the program's pipeline as written; `Converter.ConvertPositional` is the same pipeline with the positional restores.

`Strings` models the Java string operations used: `replace`, `trim`,
`strip`, `isBlank` and the decimal form of an int. `RenderFacts`,
`ProtectFacts` and the lemmas in `PostProcess` relate the pieces. `RenderNul`
shows that the renderer emits NUL only through inline code. `BlockScan`
shows that each emitted code block is exactly one protected block.
`ConversionFacts` follows small documents through the whole pipeline.
`MarkerFrames` follows a code block and a paragraph of inline code through
both post-processings (third finding).

The renderer's state is a context parameter. The source reads it from parent
and sibling links and from one instance field. The context holds the list
nesting seen from the node, whether the node is the last of its siblings, and
the table-header flag.

The central results are:

- `PostProcess.PostProcessKeepsBlocks` and `ProtectFacts.ProtectRestore`: for rendered text without NUL, steps 2 and 3 never touch a protected block. Every block comes back verbatim and in place. The text between blocks changes only in stars and newlines.
- The restore step as written needs one more condition for this, and the finding below shows why.
- `ProtectFacts.ProtectRestoreScan`: a restore that reads the placeholders positionally needs no extra condition. `Converter.ConvertPositional` uses that restore, and `Converter.ConvertPositionalKeepsBlocks` lifts the result to the whole conversion.
- `PostProcess.InlineScanSpans`: the marker restore as written handles one code span between NUL-free text (`PostProcess.InlineRestoreSpan`), but two spans can defeat it (second finding). A restore that reads the markers positionally turns any number of spans into `{{code}}`.
- `RenderNul.RenderNulFree`: a tree without inline code whose texts hold no NUL renders without NUL, so `ConversionFacts.ConvertNulFreeKeepsBlocks` applies to every such tree.

## Model

| member | source | states |
|---|---|---|
| Strings.ReplaceAll | src/main/java/com/cjenm/confluence/mcp/converter/ConfluenceConverter.java:94 | `String.replace`: a text with no occurrence of the pattern is returned unchanged |
| Strings.ReplaceAllSkips | src/main/java/com/cjenm/confluence/mcp/converter/ConfluenceConverter.java:98 | a prefix without the pattern's first character passes through `replace` unchanged |
| Strings.ReplaceCharIsSubst | src/main/java/com/cjenm/confluence/mcp/converter/ConfluenceNodeRenderer.java:150 | replacing a one-character pattern is the per-character substitution |
| Strings.Decimal | src/main/java/com/cjenm/confluence/mcp/converter/ConfluenceNodeRenderer.java:169 | the level or index is written as a non-empty run of decimal digits, starting with `0` only for zero, one digit exactly below 10 |
| Strings.DecimalValue | src/main/java/com/cjenm/confluence/mcp/converter/ConfluenceNodeRenderer.java:169 | the digits read back as the number itself |
| Strings.DecimalInjective | src/main/java/com/cjenm/confluence/mcp/converter/ConfluenceConverter.java:81 | different indexes give different decimal forms, so different placeholders |
| Strings.Trim | src/main/java/com/cjenm/confluence/mcp/converter/ConfluenceNodeRenderer.java:191 | `trim` leaves no character up to U+0020 at either end and is empty only when every character is such |
| Strings.TrimCutsEnds | src/main/java/com/cjenm/confluence/mcp/converter/ConfluenceNodeRenderer.java:191 | `trim` returns a middle slice of its input and cuts only characters up to U+0020 |
| Strings.Strip | src/main/java/com/cjenm/confluence/mcp/converter/ConfluenceConverter.java:100 | `strip` leaves no whitespace at either end and is empty exactly for a blank text |
| Strings.StripCutsEnds | src/main/java/com/cjenm/confluence/mcp/converter/ConfluenceConverter.java:100 | `strip` returns a middle slice of its input and cuts only whitespace |
| Escape.EscapeTextPerChar | src/main/java/com/cjenm/confluence/mcp/converter/ConfluenceNodeRenderer.java:148-152 | the two chained replaces on plain text give each brace exactly one backslash and change nothing else |
| Escape.EscapeCodePerChar | src/main/java/com/cjenm/confluence/mcp/converter/ConfluenceNodeRenderer.java:100-106 | the three chained replaces on inline code escape each character once; backslashes are doubled first, and the backslashes added before braces are not doubled again |
| Escape.TextRoundTrip | src/main/java/com/cjenm/confluence/mcp/converter/ConfluenceNodeRenderer.java:150 | plain-text escaping is undone by removing one backslash before each brace |
| Escape.CodeRoundTrip | src/main/java/com/cjenm/confluence/mcp/converter/ConfluenceNodeRenderer.java:102-105 | inline-code escaping is undone character by character |
| Escape.CodeEachNoNul | src/main/java/com/cjenm/confluence/mcp/converter/ConfluenceNodeRenderer.java:102-105 | escaping adds no NUL |
| Renderer.CodeSpan | src/main/java/com/cjenm/confluence/mcp/converter/ConfluenceNodeRenderer.java:100-107 | inline code is its escaped text between the start and end markers, and the escaped middle reads back as the code |
| Renderer.PlainText | src/main/java/com/cjenm/confluence/mcp/converter/ConfluenceNodeRenderer.java:148-152 | text is brace-escaped per character, reads back as the original, and gains no NUL |
| Renderer.LinkMarkup | src/main/java/com/cjenm/confluence/mcp/converter/ConfluenceNodeRenderer.java:109-118 | a link is `[url]` exactly when its text is empty or equals the url, and otherwise the text and the url in brackets, split by a bar |
| Renderer.ImageMarkup | src/main/java/com/cjenm/confluence/mcp/converter/ConfluenceNodeRenderer.java:130-138 | an image is `!url!` exactly when alt is empty, and otherwise the url, a bar and `alt=` with the alt text, between `!` |
| Renderer.DropFinalNewline | src/main/java/com/cjenm/confluence/mcp/converter/ConfluenceNodeRenderer.java:194-196 | the code content loses one trailing newline if it has one and is otherwise unchanged |
| Renderer.ThemeParams | src/main/java/com/cjenm/confluence/mcp/converter/ConfluenceNodeRenderer.java:207-209 | one parameter, `theme=` and the theme, exactly when a non-empty theme is set; none otherwise |
| Renderer.FencedParams | src/main/java/com/cjenm/confluence/mcp/converter/ConfluenceNodeRenderer.java:190-209 | the parameters are `language=info` when info is neither empty nor `mermaid`; for `mermaid` they are language=text, title=mermaid, collapse=true; a theme parameter comes last in every case |
| Renderer.FencedParamsClean | src/main/java/com/cjenm/confluence/mcp/converter/ConfluenceNodeRenderer.java:190-209 | a character other than `=`, `\|` and the lower-case letters appears in the joined parameters only if the info string or the theme holds it |
| ListPrefix.Markers | src/main/java/com/cjenm/confluence/mcp/converter/ConfluenceNodeRenderer.java:283-300 | one marker per list in the chain, in order: `*` for a bullet list, `#` for an ordered one |
| ListPrefix.Walk | src/main/java/com/cjenm/confluence/mcp/converter/ConfluenceNodeRenderer.java:282-304 | the chain of lists reached upward is empty exactly when the parent is not a list, and never longer than the path |
| ListPrefix.ComputeListPrefix | src/main/java/com/cjenm/confluence/mcp/converter/ConfluenceNodeRenderer.java:279-307 | the loop returns a non-empty prefix equal to the walk's markers, or the item's own marker when no list was found |
| ListPrefix.ItemPrefix | src/main/java/com/cjenm/confluence/mcp/converter/ConfluenceNodeRenderer.java:279-307 | the prefix the renderer writes is non-empty and made only of the item's own marker, `*` and `#` |
| ListPrefix.TopDownEqualsBottomUp | src/main/java/com/cjenm/confluence/mcp/converter/ConfluenceNodeRenderer.java:279-307 | the prefix the renderer builds top-down equals the one the bottom-up walk computes over the same ancestors |
| ListPrefix.NestedListsChain | src/main/java/com/cjenm/confluence/mcp/converter/ConfluenceNodeRenderer.java:276-277 | descending through alternately nested lists and items keeps one list kind per level, outer to inner |
| ListPrefix.NestedPrefix | src/main/java/com/cjenm/confluence/mcp/converter/ConfluenceNodeRenderer.java:276-277 | an item in a chain of nested lists gets one marker per list, outer to inner (`*#` for an ordered list in a bullet list) |
| RenderFacts.CellsJoin | src/main/java/com/cjenm/confluence/mcp/converter/ConfluenceNodeRenderer.java:353-369 | the cells of a row render as their contents joined by the row's separator, then the closing bar |
| RenderFacts.RowShape | src/main/java/com/cjenm/confluence/mcp/converter/ConfluenceNodeRenderer.java:343-351 | a header row is a double bar, the cells joined by spaced double bars, and a closing double bar and newline; a body row is the same with single bars |
| RenderFacts.HeadRowsAreHeaders | src/main/java/com/cjenm/confluence/mcp/converter/ConfluenceNodeRenderer.java:333-337 | in any context, the rows under a table head render as header rows `\|\| a \|\| b \|\|`, whatever the flag outside the head |
| RenderFacts.BodyRowsArePlain | src/main/java/com/cjenm/confluence/mcp/converter/ConfluenceNodeRenderer.java:339-341 | outside a table head, the rows of a table body render as plain rows `\| a \| b \|` |
| RenderFacts.TableSections | src/main/java/com/cjenm/confluence/mcp/converter/ConfluenceNodeRenderer.java:328-341 | in any context outside a table head, a table is its head rows as header rows, its body rows as plain rows, no separator output, then one newline |
| RenderFacts.TableWithoutBody | src/main/java/com/cjenm/confluence/mcp/converter/ConfluenceNodeRenderer.java:328-341 | a table with a head and no body is its header rows and one newline |
| RenderFacts.ItemUsesWalk | src/main/java/com/cjenm/confluence/mcp/converter/ConfluenceNodeRenderer.java:253-273 | the item's prefix is the one the bottom-up walk of the source computes |
| RenderFacts.ItemContentNewlines | src/main/java/com/cjenm/confluence/mcp/converter/ConfluenceNodeRenderer.java:312-322 | item content without list children is the plain rendering of the children |
| RenderFacts.ItemWithSublist | src/main/java/com/cjenm/confluence/mcp/converter/ConfluenceNodeRenderer.java:174-182 | a paragraph in an item adds no blank line; a nested list follows after one newline and adds no trailing newline |
| RenderFacts.TopListTrailer | src/main/java/com/cjenm/confluence/mcp/converter/ConfluenceNodeRenderer.java:238-251 | a list outside any item ends with one extra newline |
| RenderFacts.CollectAgrees | src/main/java/com/cjenm/confluence/mcp/converter/ConfluenceNodeRenderer.java:388-419 | for the inline kinds both walks know, the link-text walk renders a node as the main renderer does |
| RenderFacts.CollectAllAgrees | src/main/java/com/cjenm/confluence/mcp/converter/ConfluenceNodeRenderer.java:380-386 | the link text of such children is their main rendering |
| RenderFacts.JoinEmpty | src/main/java/com/cjenm/confluence/mcp/converter/ConfluenceNodeRenderer.java:211 | joined non-empty parameters are empty exactly when there are none, so the `:` is left out only then |
| RenderNul.RenderNulFree | src/main/java/com/cjenm/confluence/mcp/converter/ConfluenceNodeRenderer.java:82-373 | every handler emits NUL only through inline code: a tree without inline code, whose texts and theme hold no NUL, renders without NUL |
| RenderNul.ChildrenNulFree | src/main/java/com/cjenm/confluence/mcp/converter/ConfluenceNodeRenderer.java:154-156 | the children of a node render without NUL when each of them does |
| RenderNul.ItemContentNulFree | src/main/java/com/cjenm/confluence/mcp/converter/ConfluenceNodeRenderer.java:312-322 | item content, with its newline before each nested list, holds no NUL for such children |
| RenderNul.CollectNulFree | src/main/java/com/cjenm/confluence/mcp/converter/ConfluenceNodeRenderer.java:380-386 | the link text of children without inline code holds no NUL |
| RenderNul.CollectOneNulFree | src/main/java/com/cjenm/confluence/mcp/converter/ConfluenceNodeRenderer.java:388-419 | each case of the link-text walk other than inline code adds no NUL |
| RenderNul.LinkNulFree | src/main/java/com/cjenm/confluence/mcp/converter/ConfluenceNodeRenderer.java:109-138 | links, autolinks, mail links and images add only brackets, bars, `!` and fixed words around their NUL-free text |
| BlockScan.CodeBlockScan | src/main/java/com/cjenm/confluence/mcp/converter/ConfluenceConverter.java:27-28 | a rendered block whose parameters hold no `}` and whose content holds no `{code}` is exactly one match of the block pattern, from its start to just before its two final newlines |
| BlockScan.FencedScan | src/main/java/com/cjenm/confluence/mcp/converter/ConfluenceNodeRenderer.java:190-213 | a fenced block whose info string and theme hold no `}` and whose content holds no `{code}` is protected as one whole block, with only its two final newlines outside |
| BlockScan.IndentedScan | src/main/java/com/cjenm/confluence/mcp/converter/ConfluenceNodeRenderer.java:215-226 | the same for an indented block, whose only parameter is the theme |
| Protect.Body | src/main/java/com/cjenm/confluence/mcp/converter/ConfluenceConverter.java:81 | every placeholder body starts with `CODE_BLOCK_` and holds no NUL |
| Protect.OpenAt | src/main/java/com/cjenm/confluence/mcp/converter/ConfluenceConverter.java:28 | an opening `{code` with optional `:params` that hold no `}`, closed by `}` |
| Protect.CloseFrom | src/main/java/com/cjenm/confluence/mcp/converter/ConfluenceConverter.java:28 | the lazy body stops at the first `{code}` after the opener |
| Protect.MatchAt | src/main/java/com/cjenm/confluence/mcp/converter/ConfluenceConverter.java:27-28 | a match starts with `{code` and ends with `{code}` |
| Protect.FindBlock | src/main/java/com/cjenm/confluence/mcp/converter/ConfluenceConverter.java:77-79 | the next match is the leftmost one: no match starts earlier |
| Protect.Scan | src/main/java/com/cjenm/confluence/mcp/converter/ConfluenceConverter.java:76-84 | the text splits into the pieces between matches and the matched blocks, one more piece than blocks, which splice back to the text |
| Protect.ScanLeftmost | src/main/java/com/cjenm/confluence/mcp/converter/ConfluenceConverter.java:76-84 | the scan cuts at the leftmost matches in order: each block is what the search finds from the start of the piece before it, and the search finds nothing from the start of the last piece |
| Protect.RestoreFrom | src/main/java/com/cjenm/confluence/mcp/converter/ConfluenceConverter.java:93-95 | text without NUL holds no placeholder, so the remaining passes of the restore loop leave it unchanged |
| Protect.RestoreBlocks | src/main/java/com/cjenm/confluence/mcp/converter/ConfluenceConverter.java:93-95 | the restore as written leaves text without NUL unchanged |
| Protect.RestoreScan | src/main/java/com/cjenm/confluence/mcp/converter/ConfluenceConverter.java:93-95 | the positional restore leaves text without NUL unchanged |
| ProtectFacts.BodyInjective | src/main/java/com/cjenm/confluence/mcp/converter/ConfluenceConverter.java:81 | different indexes give different placeholders |
| ProtectFacts.WovenUntouched | src/main/java/com/cjenm/confluence/mcp/converter/ConfluenceConverter.java:94 | replacing an earlier placeholder leaves the rest of the protected text unchanged, given clean gaps |
| ProtectFacts.HitOnce | src/main/java/com/cjenm/confluence/mcp/converter/ConfluenceConverter.java:94 | a placeholder occurring once is replaced once, and nothing before it changes |
| ProtectFacts.RestoreStep | src/main/java/com/cjenm/confluence/mcp/converter/ConfluenceConverter.java:93-95 | the i-th pass of the restore loop puts back block i and nothing else |
| ProtectFacts.RestoreLoop | src/main/java/com/cjenm/confluence/mcp/converter/ConfluenceConverter.java:93-95 | the remaining passes restore every remaining block |
| ProtectFacts.RestoreWoven | src/main/java/com/cjenm/confluence/mcp/converter/ConfluenceConverter.java:93-95 | the restore loop turns the protected text back into the pieces and blocks spliced together |
| ProtectFacts.ProtectRestore | src/main/java/com/cjenm/confluence/mcp/converter/ConfluenceConverter.java:76-95 | protect then restore as written gives back NUL-free text whose pieces between blocks do not start like a placeholder body |
| ProtectFacts.ScanSkipsLiteral | src/main/java/com/cjenm/confluence/mcp/converter/ConfluenceConverter.java:93-95 | the positional restore copies a NUL-free prefix unchanged and carries on after it |
| ProtectFacts.ScanSentinel | src/main/java/com/cjenm/confluence/mcp/converter/ConfluenceConverter.java:93-95 | the positional restore turns a placeholder into its block and resumes after it |
| ProtectFacts.ScanWoven | src/main/java/com/cjenm/confluence/mcp/converter/ConfluenceConverter.java:93-95 | the positional restore of a protected text gives back pieces and blocks spliced together, for pieces whose every NUL sits in a whole inline-code marker |
| ProtectFacts.NoNulMarked | src/main/java/com/cjenm/confluence/mcp/converter/ConfluenceConverter.java:93-95 | text without NUL counts as marked: it has no NUL outside a marker |
| ProtectFacts.ScanMarker | src/main/java/com/cjenm/confluence/mcp/converter/ConfluenceConverter.java:93-95 | the positional block restore copies an inline-code marker whole and resumes after its closing NUL |
| ProtectFacts.ScanSkipsMarked | src/main/java/com/cjenm/confluence/mcp/converter/ConfluenceConverter.java:93-95 | the positional block restore copies a marked prefix unchanged and carries on after it |
| ProtectFacts.ProtectRestoreScan | src/main/java/com/cjenm/confluence/mcp/converter/ConfluenceConverter.java:76-95 | protect then positional restore gives back every NUL-free text |
| ProtectFacts.ProtectRestoreScanMarked | src/main/java/com/cjenm/confluence/mcp/converter/ConfluenceConverter.java:76-95 | protect then positional restore gives back every text whose pieces between blocks hold NUL only inside whole inline-code markers, such as rendered inline code |
| ProtectFacts.BadRawScan | src/main/java/com/cjenm/confluence/mcp/converter/ConfluenceConverter.java:76-84 | the counterexample text splits into three empty blocks with `CODE_BLOCK_0` between the second and third |
| ProtectFacts.BadRestoreAsWritten | src/main/java/com/cjenm/confluence/mcp/converter/ConfluenceConverter.java:93-95 | the restore as written turns that protected text into 50 characters, not the 48 it came from |
| ProtectFacts.BadRawMisrestored | src/main/java/com/cjenm/confluence/mcp/converter/ConfluenceConverter.java:93-95 | a NUL-free text that the restore as written does not give back, while the positional restore does |
| Rewrite.Keep | src/main/java/com/cjenm/confluence/mcp/converter/ConfluenceConverter.java:87-90 | the characters a mask keeps, never more than the text |
| Rewrite.KeepSqueeze | src/main/java/com/cjenm/confluence/mcp/converter/ConfluenceConverter.java:87-90 | deleting only stars and newlines does not change a text's star- and newline-free form |
| Rewrite.BoldClose | src/main/java/com/cjenm/confluence/mcp/converter/ConfluenceConverter.java:29-30 | the lazy group ends at the first `**` after at least one character, and no line terminator lies inside it; without such an end there is no match |
| Rewrite.BoldAt | src/main/java/com/cjenm/confluence/mcp/converter/ConfluenceConverter.java:29-30 | a match at a position starts and ends with `**` around a non-empty group |
| Rewrite.BoldIsKeep | src/main/java/com/cjenm/confluence/mcp/converter/ConfluenceConverter.java:87 | from any position, the bold fix-up is the text kept under a mask that drops nothing but `*` |
| Rewrite.BoldFix | src/main/java/com/cjenm/confluence/mcp/converter/ConfluenceConverter.java:87 | step 2 deletes only stars, and leaves a text without `**` unchanged |
| Rewrite.BoldFixNoPair | src/main/java/com/cjenm/confluence/mcp/converter/ConfluenceConverter.java:87 | from any position, text without `**` is copied unchanged |
| Rewrite.BoldFixExample | src/main/java/com/cjenm/confluence/mcp/converter/ConfluenceConverter.java:87 | `**bold text**` becomes `*bold text*` |
| Rewrite.BoldFixKeepsNestedBullets | src/main/java/com/cjenm/confluence/mcp/converter/ConfluenceConverter.java:29-30 | `** a\n** b` (a nested bullet prefix on two lines) is not taken for bold, because the group cannot span a line |
| Rewrite.RunLen | src/main/java/com/cjenm/confluence/mcp/converter/ConfluenceConverter.java:31-32 | the greedy run of newlines at a position: all newlines, followed by no newline |
| Rewrite.KeepRun | src/main/java/com/cjenm/confluence/mcp/converter/ConfluenceConverter.java:90 | a run of three or more newlines becomes two, a shorter one stays |
| Rewrite.CollapseIsKeep | src/main/java/com/cjenm/confluence/mcp/converter/ConfluenceConverter.java:90 | from any position, the collapse is the text kept under a mask that drops nothing but newlines |
| Rewrite.Collapse | src/main/java/com/cjenm/confluence/mcp/converter/ConfluenceConverter.java:90 | step 3 deletes only newlines and leaves no three newlines in a row |
| Rewrite.CollapseNoTriple | src/main/java/com/cjenm/confluence/mcp/converter/ConfluenceConverter.java:90 | from any position, no three newlines follow each other after the collapse |
| Rewrite.CollapseKeepsClean | src/main/java/com/cjenm/confluence/mcp/converter/ConfluenceConverter.java:90 | text without three newlines in a row is unchanged |
| Rewrite.CollapseIdempotent | src/main/java/com/cjenm/confluence/mcp/converter/ConfluenceConverter.java:90 | collapsing twice is collapsing once |
| PostProcess.InlineRestore | src/main/java/com/cjenm/confluence/mcp/converter/ConfluenceConverter.java:98 | step 5 leaves text without NUL unchanged |
| PostProcess.InlineRestoreSpan | src/main/java/com/cjenm/confluence/mcp/converter/ConfluenceConverter.java:98 | a rendered inline code span between NUL-free text becomes `{{`, the escaped code, `}}` |
| PostProcess.InlineRestoreTwoSpans | src/main/java/com/cjenm/confluence/mcp/converter/ConfluenceConverter.java:98 | on two spans `a` and `b` with `CS` between them, step 5 as written gives `{{a`, NUL, `CE{{CS`, NUL, `b}}`, not the intended `{{a}}CS{{b}}` |
| PostProcess.InlineScan | src/main/java/com/cjenm/confluence/mcp/converter/ConfluenceConverter.java:98 | the positional marker restore never lengthens the text; what it gives is stated by `PostProcess.InlineScanPlain` and `PostProcess.InlineScanSpans` |
| PostProcess.InlineScanSkips | src/main/java/com/cjenm/confluence/mcp/converter/ConfluenceConverter.java:98 | the positional marker restore copies a NUL-free prefix unchanged and carries on after it |
| PostProcess.InlineScanPlain | src/main/java/com/cjenm/confluence/mcp/converter/ConfluenceConverter.java:98 | the positional marker restore leaves text without NUL unchanged |
| PostProcess.InlineScanSpans | src/main/java/com/cjenm/confluence/mcp/converter/ConfluenceConverter.java:98 | the positional marker restore turns every rendered span between NUL-free pieces into `{{`, the escaped code, `}}`, for any number of spans |
| PostProcess.Finalize | src/main/java/com/cjenm/confluence/mcp/converter/ConfluenceConverter.java:100 | the result ends with a newline, is just `\n` exactly for blank text, and has no whitespace right after its start or right before the final newline |
| PostProcess.Middle | src/main/java/com/cjenm/confluence/mcp/converter/ConfluenceConverter.java:86-90 | steps 2 and 3 together leave no three newlines in a row and change the text only in stars and newlines |
| PostProcess.PostProcess | src/main/java/com/cjenm/confluence/mcp/converter/ConfluenceConverter.java:74-101 | the post-processing as written ends with a newline and has no whitespace right after its start or right before the final newline |
| PostProcess.PostProcessPositional | src/main/java/com/cjenm/confluence/mcp/converter/ConfluenceConverter.java:74-101 | the same for the post-processing with the positional block and marker restores |
| PostProcess.KeepWoven | src/main/java/com/cjenm/confluence/mcp/converter/ConfluenceConverter.java:86-90 | a deletion of stars and newlines leaves every placeholder intact and acts piece by piece |
| PostProcess.KeepWovenSqueeze | src/main/java/com/cjenm/confluence/mcp/converter/ConfluenceConverter.java:86-90 | each piece between placeholders keeps its star- and newline-free form |
| PostProcess.RewriteWoven | src/main/java/com/cjenm/confluence/mcp/converter/ConfluenceConverter.java:86-90 | steps 2 and 3 leave every placeholder in place and change the pieces between them only in stars and newlines |
| PostProcess.RewrittenClean | src/main/java/com/cjenm/confluence/mcp/converter/ConfluenceConverter.java:86-95 | pieces that do not start like a placeholder body, stars and newlines aside, still do not after steps 2 and 3 |
| PostProcess.PostProcessKeepsBlocks | src/main/java/com/cjenm/confluence/mcp/converter/ConfluenceConverter.java:74-101 | for NUL-free rendered text with clean pieces, the output is the pieces after steps 2 and 3 with every block verbatim in place, stripped, plus a newline |
| PostProcess.PostProcessPositionalKeepsBlocks | src/main/java/com/cjenm/confluence/mcp/converter/ConfluenceConverter.java:74-101 | the same for every NUL-free rendered text under the positional restore |
| Converter.Convert | src/main/java/com/cjenm/confluence/mcp/converter/ConfluenceConverter.java:41-62 | the result is empty exactly for a missing or blank input; otherwise it ends with a newline and neither starts nor ends its last line with whitespace |
| Converter.ConvertDefault | src/main/java/com/cjenm/confluence/mcp/converter/ConfluenceConverter.java:67-69 | the overload with default options keeps the blank-input contract |
| Converter.ConvertPositional | src/main/java/com/cjenm/confluence/mcp/converter/ConfluenceConverter.java:41-62 | the pipeline with the positional restore keeps the same blank-input and final-newline contract |
| Converter.ConvertKeepsBlocks | src/main/java/com/cjenm/confluence/mcp/converter/ConfluenceConverter.java:41-61 | a non-blank input whose rendering holds no NUL and whose pieces between blocks are clean converts with every code block verbatim and in place |
| Converter.ConvertPositionalKeepsBlocks | src/main/java/com/cjenm/confluence/mcp/converter/ConfluenceConverter.java:41-61 | with the positional restore, every non-blank input whose rendering holds no NUL converts with every code block verbatim and in place |
| Converter.AsWrittenAgrees | src/main/java/com/cjenm/confluence/mcp/converter/ConfluenceConverter.java:74-101 | where the pieces are clean, the post-processing as written and the positional one agree |
| ConversionFacts.ConvertNulFreeKeepsBlocks | src/main/java/com/cjenm/confluence/mcp/converter/ConfluenceConverter.java:41-61 | a tree without inline code whose texts hold no NUL converts, with the positional restore, with every code block verbatim and in place |
| ConversionFacts.ConvertNulFreeAsWritten | src/main/java/com/cjenm/confluence/mcp/converter/ConfluenceConverter.java:41-101 | for such a tree with clean pieces, the conversion as written gives the same text as the positional one |
| ConversionFacts.PostProcessNoBlocks | src/main/java/com/cjenm/confluence/mcp/converter/ConfluenceConverter.java:74-101 | text without a brace, `**` or three newlines in a row has no block to protect and passes steps 2 to 4 unchanged, so only step 5 and the strip act on it, in both pipelines |
| ConversionFacts.PostProcessPositionalSpans | src/main/java/com/cjenm/confluence/mcp/converter/ConfluenceConverter.java:74-101 | such text made of code spans between NUL-free pieces post-processes, positionally, to the pieces with each span as `{{code}}`, stripped, plus a newline |
| ConversionFacts.PostProcessPlain | src/main/java/com/cjenm/confluence/mcp/converter/ConfluenceConverter.java:74-101 | text without a brace, NUL, `**` or three newlines in a row is only stripped and given its final newline |
| ConversionFacts.ConvertLine | src/main/java/com/cjenm/confluence/mcp/converter/ConfluenceConverter.java:41-62 | a document that renders as one trimmed plain line and a blank line converts to that line and one newline |
| ConversionFacts.TwoSpansRender | src/main/java/com/cjenm/confluence/mcp/converter/ConfluenceNodeRenderer.java:100-107 | the paragraph `` `a`CS`b` `` renders as two code spans with `CS` between them and a blank line after |
| ConversionFacts.TwoSpansAsWritten | src/main/java/com/cjenm/confluence/mcp/converter/ConfluenceConverter.java:41-62 | `` `a`CS`b` `` converts, as written, to `{{a`, NUL, `CE{{CS`, NUL, `b}}` and a newline |
| ConversionFacts.TwoSpansPositional | src/main/java/com/cjenm/confluence/mcp/converter/ConfluenceConverter.java:41-62 | with the positional restores the same input converts to `{{a}}CS{{b}}` and a newline |
| MarkerFrames.MarkedSpans | src/main/java/com/cjenm/confluence/mcp/converter/ConfluenceNodeRenderer.java:100-107 | rendered inline code spans between NUL-free text hold NUL only inside whole markers, however many spans there are |
| MarkerFrames.MarkedAppend | src/main/java/com/cjenm/confluence/mcp/converter/ConfluenceConverter.java:93-95 | two marked texts side by side are marked |
| MarkerFrames.ProtectedGap | src/main/java/com/cjenm/confluence/mcp/converter/ConfluenceConverter.java:76-90 | a rendered code block followed by the paragraph `a` in code, `CODE_BLOCK_0`, `b` in code is protected as placeholder 0 and that paragraph, and steps 2 and 3 leave it alone |
| MarkerFrames.FalseSentinel | src/main/java/com/cjenm/confluence/mcp/converter/ConfluenceConverter.java:93-95 | the NUL closing an end marker, a placeholder body and the NUL opening the next start marker are replaced by the block as if they were a placeholder |
| MarkerFrames.RestoreMisread | src/main/java/com/cjenm/confluence/mcp/converter/ConfluenceConverter.java:93-95 | step 4 as written on that protected text puts the block back twice: in place of the placeholder and in place of the text `CODE_BLOCK_0` |
| MarkerFrames.InlineRestoreMisread | src/main/java/com/cjenm/confluence/mcp/converter/ConfluenceConverter.java:98 | step 5 as written on what step 4 left turns only the first start marker and the last end marker into braces, keeping two NULs |
| MarkerFrames.AsWrittenTail | src/main/java/com/cjenm/confluence/mcp/converter/ConfluenceConverter.java:93-100 | steps 4 and 5 as written and the final strip give the block, a blank line, `{{a`, NUL, `CE`, the block again, `CS`, NUL, `b}}` and a newline |
| MarkerFrames.FramedGapAsWritten | src/main/java/com/cjenm/confluence/mcp/converter/ConfluenceConverter.java:74-101 | the post-processing as written of a code block followed by the paragraph `` `a`CODE_BLOCK_0`b` `` gives the block, a blank line, `{{a`, NUL, `CE`, the block a second time, `CS`, NUL, `b}}` and a newline: the block twice and the inline code broken |
| MarkerFrames.PositionalRestored | src/main/java/com/cjenm/confluence/mcp/converter/ConfluenceConverter.java:76-95 | when steps 2 and 3 change nothing, the positional block restore gives back text whose pieces are marked |
| MarkerFrames.FramedGapPositional | src/main/java/com/cjenm/confluence/mcp/converter/ConfluenceConverter.java:74-101 | with the positional restores the same input gives the block once, a blank line and `{{a}}CODE_BLOCK_0{{b}}` and a newline |
| BlockScan.CodeBlockScanThen | src/main/java/com/cjenm/confluence/mcp/converter/ConfluenceConverter.java:76-84 | a rendered code block followed by text without `{` is found as one block, and the text after its closing `{code}` is one piece |
| ConversionFacts.BoldConverts | src/main/java/com/cjenm/confluence/mcp/converter/ConfluenceNodeRenderer.java:82-86 | a paragraph of strong plain text `t` converts to `*t*` and a newline |
| ConversionFacts.ItalicConverts | src/main/java/com/cjenm/confluence/mcp/converter/ConfluenceNodeRenderer.java:88-92 | a paragraph of emphasised plain text `t` converts to `_t_` and a newline |
| ConversionFacts.StrikeConverts | src/main/java/com/cjenm/confluence/mcp/converter/ConfluenceNodeRenderer.java:94-98 | a paragraph of struck-through plain text `t` converts to `-t-` and a newline |
| ConversionFacts.HeadingConverts | src/main/java/com/cjenm/confluence/mcp/converter/ConfluenceNodeRenderer.java:168-172 | a heading of level N over plain text `t` converts to `hN. t` and a newline |
| ConversionFacts.ThematicBreakConverts | src/main/java/com/cjenm/confluence/mcp/converter/ConfluenceNodeRenderer.java:228-230 | a rule converts to `----` and a newline |
| ConversionFacts.BoldExample | src/test/java/com/cjenm/confluence/mcp/converter/ConfluenceConverterTest.java:26-28 | `**bold text**` converts to `*bold text*` and a newline, which holds no `**` |
| ConversionFacts.ItalicExample | src/test/java/com/cjenm/confluence/mcp/converter/ConfluenceConverterTest.java:34-35 | `*italic text*` converts to `_italic text_` and a newline |
| ConversionFacts.StrikeExample | src/test/java/com/cjenm/confluence/mcp/converter/ConfluenceConverterTest.java:41-42 | `~~strikethrough~~` converts to `-strikethrough-` and a newline |
| ConversionFacts.HeadingExample | src/test/java/com/cjenm/confluence/mcp/converter/ConfluenceConverterTest.java:88-93 | `# H1` to `###### H6` convert to `h1. H1` to `h6. H6` and a newline |
| ConversionFacts.ThematicBreakExample | src/test/java/com/cjenm/confluence/mcp/converter/ConfluenceConverterTest.java:141-142 | `---` converts to `----` and a newline |

## Left out

- Markdown parsing (flexmark's parser, HTML renderer builder, extensions; src/main/java/com/cjenm/confluence/mcp/converter/ConfluenceConverter.java:46-60) is a foreign library: the parsed tree is a parameter of `Converter.Convert`. The end-to-end lemmas in `ConversionFacts` take as that parameter the tree the parser builds for their input.
- Handler registration and the renderer factory (src/main/java/com/cjenm/confluence/mcp/converter/ConfluenceNodeRenderer.java:33-78, src/main/java/com/cjenm/confluence/mcp/converter/ConfluenceNodeRenderer.java:424-435) become the exhaustive match in `Renderer.Render`; node kinds with no handler fall back to flexmark's HTML renderer and are not in `Tree.Node`.
- The HTML writer is plain concatenation; its own buffering is not modelled.
- The header flag is an instance field in the source, set on entering a table head and cleared on leaving it. In the model it is a context value inherited by the head's descendants. The two differ only for a table head nested inside another table head, where the source clears the flag early. The concurrency hazard of that shared field is not modelled either.
- Java's `Character.isWhitespace` is written out as a table of code points (`Strings.IsWhitespace`); `isBlank` and `strip` use it.
- `Matcher.appendReplacement` treats the dollar sign and the backslash in a replacement specially. The placeholders contain neither, so the model inserts them literally. In `*$1*` the `$1` is a group reference, which the model expands to the captured group (`Rewrite.BoldAt`); the replacement holds no backslash.
- The MCP tool wrappers, the template repository, the application bootstrap, the build and the plain records (`ConvertOptions` is `Renderer.Options`, an empty theme counting as none) have no behaviour of the core.
- Renderer.Render, `Renderer.RenderChildren`, `Renderer.ItemContent`, `Renderer.CollectInline` and `Renderer.CollectOne` carry no contract of their own: a postcondition on the thirty-case match makes its single proof obligation too large, so their properties are the lemmas of `RenderFacts`, `RenderNul` and `BlockScan`.
- Protect.ProtectBlocks carries no contract of its own: its round trip with either restore is `ProtectFacts.ProtectRestore` and `ProtectFacts.ProtectRestoreScan`.
- Protect.Scan: its own contract states only the splice-back; that the blocks are the leftmost matches, in order, is `Protect.ScanLeftmost`.
- Strings.Decimal: its own contract gives the shape of the digits; the value they denote is `Strings.DecimalValue`, kept apart so that every placeholder does not bring the read-back into each proof.
- PostProcess.PostProcess: its own contract states only the final newline and the trimmed ends; what it does is stated by `PostProcess.PostProcessKeepsBlocks` and `ProtectFacts.BadRawMisrestored`.
- PostProcess.PostProcessPositional: likewise only the final newline and the trimmed ends; what it does is stated by `PostProcess.PostProcessPositionalKeepsBlocks`.
- PostProcess.PostProcessKeepsBlocks: proved only for rendered text with no NUL, which rules out inline code. Inline-code markers are NUL-framed, so they are stated apart, by `PostProcess.InlineRestoreSpan` and `PostProcess.InlineScanSpans`. The third finding shows how a marker NUL can also take part in a false placeholder.
- PostProcess.InlineRestoreSpan: covers one span between NUL-free text. With several spans step 5 as written can go wrong (`PostProcess.InlineRestoreTwoSpans`, second finding); any number of spans is stated for the positional marker restore by `PostProcess.InlineScanSpans`.
- ConversionFacts.PostProcessPositionalSpans: asks the pieces to hold no brace, `**` or three newlines in a row, so that steps 1 to 4 leave the text alone.
- PostProcess.PostProcessKeepsBlocks: also needs each piece between two blocks not to start with `CODE_BLOCK_` once stars and newlines are removed. The restore as written fails without it (see the finding).
- PostProcess.PostProcessPositionalKeepsBlocks: proved only for rendered text with no NUL, so not for documents with inline code. For those, the positional block restore alone is covered by `ProtectFacts.ProtectRestoreScanMarked`, and one whole example by `MarkerFrames.FramedGapPositional`.
- Converter.ConvertKeepsBlocks: proved only for renderings with no NUL and clean pieces, for the same reasons.
- Converter.ConvertPositionalKeepsBlocks: proved only for renderings with no NUL.
- RenderNul.RenderNulFree: covers trees without inline code only, because inline code is rendered between NUL-framed markers by design.
- BlockScan.FencedScan: holds only when the info string and the theme hold no `}` and the content holds no `{code}`; otherwise the block pattern cuts the block elsewhere. The same holds for `BlockScan.IndentedScan` and `BlockScan.CodeBlockScan`.
- RenderFacts.TableSections: proved for a context outside a table head, as are `RenderFacts.TableWithoutBody` and `RenderFacts.BodyRowsArePlain`; a table inside a table head does not occur in a parsed document.
- ConversionFacts.BoldConverts: asks the text to be plain (no brace, star, NUL or newline, no whitespace at either end), as do the other end-to-end lemmas, because such text passes the escapes and steps 2 to 5 unchanged.
- Rewrite.CollapseNoTriple: the claim that three newlines in a row can survive only inside a restored block is not stated for the whole pipeline. What is proved is that no three newlines follow each other after step 3, and that the output is the rewritten pieces with the blocks spliced back verbatim.

## Findings

| source | as written | input that shows it | evidently intended | confidence | as-written member | corrected member |
|---|---|---|---|---|---|---|
| src/main/java/com/cjenm/confluence/mcp/converter/ConfluenceConverter.java:93-95 | step 4 replaces every occurrence of `\0CODE_BLOCK_i\0` anywhere in the text, one index after another. The closing NUL of one placeholder, a piece between blocks, and the opening NUL of the next placeholder can together read as an earlier placeholder | post-processor input `{code}{code}{code}{code}CODE_BLOCK_0{code}{code}`, for example an HTML block carrying that line. After protection it is `P0 P1 CODE_BLOCK_0 P2`. Restoring block 0 also fires on NUL·`CODE_BLOCK_0`·NUL between P1 and P2. The result keeps two NULs and is 50 characters long, not 48 | every saved block comes back exactly where it was taken from, so protect-then-restore gives back every NUL-free text | not executed | ProtectFacts.BadRawMisrestored | ProtectFacts.ProtectRestoreScan |
| src/main/java/com/cjenm/confluence/mcp/converter/ConfluenceConverter.java:98 | step 5 replaces every `\0CS\0` first and every `\0CE\0` after. The NUL closing one span, the text between two spans and the NUL opening the next read as an opening marker when that text is `CS` | the Markdown paragraph `` `a`CS`b` `` renders as NUL`CS`NUL`a`NUL`CE`NUL`CS`NUL`CS`NUL`b`NUL`CE`NUL and converts to `{{a`, NUL, `CE{{CS`, NUL, `b}}` and a newline | every inline code span becomes `{{code}}`: `{{a}}CS{{b}}` and a newline | not executed | ConversionFacts.TwoSpansAsWritten | PostProcess.InlineScanSpans |
| src/main/java/com/cjenm/confluence/mcp/converter/ConfluenceConverter.java:93-95 | step 4 replaces `\0CODE_BLOCK_i\0` wherever it occurs, and the inline-code markers are framed by NUL as well. The NUL closing an end marker, the text between two spans and the NUL opening the next start marker read as a placeholder when that text is a placeholder body | a code block followed by the paragraph `` `a`CODE_BLOCK_0`b` ``, rendered as the block, then NUL`CS`NUL`a`NUL`CE`NUL`CODE_BLOCK_0`NUL`CS`NUL`b`NUL`CE`NUL and a blank line. Step 4 puts block 0 back twice. The output is the block, a blank line, `{{a`, NUL, `CE`, the block again, `CS`, NUL, `b}}` and a newline | the block comes back once and in place, and the paragraph becomes `{{a}}CODE_BLOCK_0{{b}}` | not executed | MarkerFrames.FramedGapAsWritten | ProtectFacts.ProtectRestoreScanMarked |

`Converter.Convert` models the program as written, with this restore. The
corrected restore (`Protect.RestoreScan`) reads the text once, left to right.
A NUL, the body of a saved block and a NUL become that block, and reading
resumes after the closing NUL. A closing NUL can therefore never open another
placeholder. `PostProcess.PostProcessPositional` and
`Converter.ConvertPositional` use it. The two pipelines agree wherever the
pieces between blocks are clean (`Converter.AsWrittenAgrees`).

Inline-code markers are framed by NUL too, so under step 4 as written a
marker's NUL can also begin a false placeholder (third finding). The
positional restore copies a NUL frame whose body names no saved block whole,
marker included, and resumes after its closing NUL. So the NUL closing a
marker never opens a placeholder either. `ProtectFacts.ProtectRestoreScanMarked`
gives back every text whose NULs all sit in whole markers, and
`MarkerFrames.MarkedSpans` shows that rendered inline code is such text.
`MarkerFrames.FramedGapPositional` shows the input of the third finding
coming out as intended.

The marker restore as written (`PostProcess.InlineRestore`) has the same
flaw on its own markers, shown by the second finding. The corrected one
(`PostProcess.InlineScan`) also reads left to right: an opening marker
becomes `{{`, a closing one `}}`, and reading resumes after the marker.
`PostProcess.PostProcessPositional` and `Converter.ConvertPositional` use it
after the positional block restore, and `ConversionFacts.TwoSpansPositional`
shows the input above converting as intended.
