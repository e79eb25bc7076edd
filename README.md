# es-quotes in Dafny

A model of the non-editor core of the vscode-es-quotes extension. The extension turns a
JavaScript or TypeScript string literal under the selection from one kind into another:
single-quoted, double-quoted, or template.

The model follows the four source files of the core, with two modules shared between them (escapes and bridge).

- **transform** (`transform.dfy`, module `Transform`). These are the four body rewrites, each a
  global regex replace. A replace reads as a left-to-right scan, one `Piece` per step, with the
  regex's alternatives tried in their priority order. `ConvertBody` is the if-chain that picks a
  rewrite, `WrapLiteral` writes the delimiters, and `Transform` does both. The proofs are:
  - no unescaped destination quote is left;
  - no bare backtick or `${` is left in a template;
  - line terminators are escaped in a normal literal;
  - single to double and double to single undo each other on well-formed bodies;
  - a valid body of one kind becomes a valid body of the other.
- **escapes** (`escapes.dfy`, module `Escapes`). What "escaped" means: a character is escaped
  when an odd run of backslashes precedes it. This module also has the lemmas that carry escapes
  across concatenation, which every rewrite proof uses.
- **parser** (`scanner.dfy` and `parser.dfy`).
  - Module `Scanner` hand-codes the two regexes of the parser:
    - the main alternation over comments, quoted literals, backticks, brackets and `}`;
    - the template fragment regex.
    Each matcher is proved to match exactly what the regex takes, and the match is proved unique.
  - Module `Parser` is the one-pass state machine:
    - a stack of open groups, each with its own bracket stack;
    - the push and pop of nested targets;
    - `finalizeTargets`, written as a loop that splices the list in place;
    - `Parse`, the loop over the source.
  - The JavaScript code appends to the current list through aliasing into `partials`. The model
    instead folds each open frame into its parent, so `Tree` shows the object graph the code
    would have at any point. The lemmas show that a push appends an empty group at the current
    depth and that a pop leaves the tree unchanged.
- **target lookup** (`es_quotes.dfy`, module `EsQuotes`). `StringType`, and the two depth-first
  searches for the literal under a selection. The body targets are related to the pre-order
  "first hit".
- **line index** (`range.dfy`, module `Range`). The class `RangeBuilder` builds the table of line
  text spans with the line regex `(.*)(\r?\n|$)` and maps an offset to a (line, character) pair.
  Numbering starts at 1 for both, as the code writes it.
- **bridge** (`bridge.dfy`, module `Bridge`). This ties the parser and the rewrites together:
  - a body the parser reads from a complete literal is a valid body of that literal's kind;
  - a literal that `transform` writes reads back through the same scanners as one literal whose
    body is the rewritten body.

Modelling choices:

- Ranges of parse targets are offset spans (`Span(start, end)`). The line/column table is
  modelled on its own in `Range`. `Contains` is offset containment.
- Parse never sets the `type` field of a target. `TypeOf` reads the kind from the opening
  delimiter: `'` is single, `"` is double, and `` ` `` or `}` is template.
- Where the code leaves a JavaScript `undefined` or throws, the model returns an explicit value:
  `Option.None` when a search finds nothing, and `Location.Undefined` and `Location.Throws` for
  `getPosition`.

## Model

| member | source | states |
|---|---|---|
| Transform.QuoteChar | src/transform.ts:129-139 | the quote of a normal kind: `'` exactly for single, `"` exactly for double |
| Transform.RequoteStep | src/transform.ts:10-24 | one step of the single/double replace consumes at least one character and no more than is left |
| Transform.RequoteStepEscapes | src/transform.ts:10-24 | one step leaves every destination quote escaped and no source quote escaped; it keeps the backslash run of what it consumed, and what it consumed never ends inside an escape pair when more follows |
| Transform.RequoteStepTerminators | src/transform.ts:10-24 | one step escapes any terminator after its first character, and copies a leading terminator or a piece ending in an escaped CR unchanged |
| Transform.Requote | src/transform.ts:10-24 | the replace pieced together from its steps: the output is empty exactly when the body is; what it escapes is stated in RequoteEscapes and RequoteTerminators, and its inverse in RequoteRoundTrip |
| Transform.RequoteEscapes | src/transform.ts:9-43 | after the replace, every destination quote is escaped and no source quote is, for any input; the output ends in a dangling backslash exactly when the input does |
| Transform.SingleToDouble | src/transform.ts:9-25 | every `"` of the output is escaped and no `'` is; the output has a dangling backslash iff the input does; escaped line terminators stay escaped |
| Transform.DoubleToSingle | src/transform.ts:27-43 | mirror of SingleToDouble: every `'` is escaped, no `"` is, dangling iff dangling, terminators stay escaped |
| Transform.RequoteTerminators | src/transform.ts:9-43 | line terminators escaped after the first character stay escaped through the replace |
| Transform.RequoteKeepsTerminatorsEscaped | src/transform.ts:9-43 | a body whose line terminators are all escaped gives an output whose line terminators are all escaped |
| Transform.JunctionTerminator | src/transform.ts:9-43 | an escaped terminator at the seam of a step's output and the rest can only be the LF of an escaped CR LF |
| Transform.InverseRequoteStep | src/transform.ts:9-43 | on a body with every source quote escaped and no destination quote escaped, the reverse step undoes one forward step |
| Transform.RequoteRoundTrip | src/transform.ts:9-43 | requoting back restores any body whose source quotes are all escaped and whose destination quotes never are |
| Transform.SingleDoubleRoundTrip | src/transform.ts:9-43 | double to single after single to double restores a body with no bare `'` and no `\"` |
| Transform.DoubleSingleRoundTrip | src/transform.ts:9-43 | single to double after double to single restores a body with no bare `"` and no `\'` |
| Transform.NormalToTemplateStep | src/transform.ts:46-66 | one step of the normal-to-template replace consumes at least one character and no more than is left |
| Transform.NormalToTemplateStepEscapes | src/transform.ts:46-66 | one step escapes every backtick and every `${` it writes; an output starting with `{` comes from an input starting with `{`; an output ending in a bare `$` is never followed by `{` in the input |
| Transform.NormalToTemplateStepBackslashes | src/transform.ts:46-66 | one step keeps the backslash run of what it consumed and never splits an escape pair |
| Transform.NormalToTemplate | src/transform.ts:46-66 | the normal-to-template replace pieced together from its steps: the output is empty exactly when the body is; what it escapes is stated in NormalToTemplateEscapes |
| Transform.NormalToTemplateEscapes | src/transform.ts:45-67 | after normal to template no backtick is bare and no `${` opens an interpolation; the output has a dangling backslash iff the input does |
| Transform.TemplateToNormalStep | src/transform.ts:70-100 | one step of the template-to-normal replace consumes at least one character and no more than is left |
| Transform.TemplateToNormalStepQuotes | src/transform.ts:70-100 | one step escapes the quote of the destination kind wherever it writes one |
| Transform.TemplateToNormalStepBackslashes | src/transform.ts:70-100 | one step keeps the backslash parity of what it consumed and never splits an escape pair |
| Transform.TemplateToNormalStepTerminators | src/transform.ts:70-100 | a raw CR LF or LF is written as `\n\` followed by that terminator, so every terminator a step writes is escaped, unless the step starts at a stray terminator |
| Transform.TemplateToNormal | src/transform.ts:70-100 | the template-to-normal replace pieced together from its steps: the output is empty exactly when the body is; what it escapes is stated in TemplateToNormalEscapes and TemplateToNormalTerminators |
| Transform.TemplateToNormalEscapes | src/transform.ts:69-101 | after template to normal every quote of the destination kind is escaped; the output has a dangling backslash iff the input does |
| Transform.TemplateToNormalTerminators | src/transform.ts:69-101 | with no stray terminator in the template body, every line terminator of the output is escaped |
| Transform.WrapLiteral | src/transform.ts:129-145 | the output is the opening delimiter, then the body unchanged, then the closing delimiter: `'`/`"` for normal kinds; for a template, `` ` `` or `}` by `first` and `` ` `` or `${` by `last` |
| Transform.ConvertBody | src/transform.ts:110-124 | with equal kinds the body is untouched |
| Transform.Transform | src/transform.ts:103-127 | with equal kinds the result is exactly `wrapLiteral(body, toType, first, last)` |
| Transform.ConvertBodyKeepsValid | src/transform.ts:103-127 | rewriting a valid body of one kind gives a valid body of the destination kind |
| Transform.TransformGivesValidLiteral | src/transform.ts:103-145 | the text between the delimiters transform writes is a valid body of the destination kind |
| Escapes.BackslashRun | src/parser.ts:26-27 | the length of the backslash run that ends at k: at most the characters from lo to k, all of them backslashes |
| Escapes.BackslashRunStops | src/parser.ts:26-27 | the run is maximal: the character before it, when there is one above lo, is not a backslash |
| Escapes.EscapedInConcat | src/transform.ts:9-101 | in a + b with no dangling backslash in a, escapes read as in a up to its end and as in b from there on |
| Escapes.EscapedAfterEvenPrefix | src/transform.ts:9-101 | after a prefix with no dangling backslash, escapes read the same as in the suffix alone |
| Escapes.ConcatAllEscaped | src/transform.ts:9-101 | concatenating two strings with every `c` escaped gives a string with every `c` escaped when the first has no dangling backslash |
| Escapes.ConcatTerminatorsEscaped | src/transform.ts:9-43 | the same for line terminators |
| Escapes.ConcatDollarBracesEscaped | src/transform.ts:46 | the same for `${`, provided no bare `$` meets a `{` at the seam |
| Scanner.BlockCommentEnd | src/parser.ts:26 | a block comment ends just after its first `*/`, or at the end of input when unterminated (lazy match) |
| Scanner.LineCommentEnd | src/parser.ts:26 | a line comment stops before the first line terminator, or at the end of input |
| Scanner.QuotedBodyEnd | src/parser.ts:26 | the end of a quoted body, between its start and the end of the source; QuotedBodyEndCorrect proves it is exactly where the body pattern stops |
| Scanner.QuotedBodyEndCorrect | src/parser.ts:26 | the scan for a quoted body stops where the body pattern of the main regex stops: escape pairs (an escaped CR LF as one) and any character but the quote or a line terminator |
| Scanner.QuotedBodyAtUnique | src/parser.ts:26 | the quoted body the regex takes is unique |
| Scanner.QuotedAt | src/parser.ts:26 | the quoted body is a slice of the source with no unescaped copy of the quote and no unescaped line terminator; the literal is closed exactly when the quote follows; it ends after the closing quote if there is one |
| Scanner.MatchAt | src/parser.ts:26 | the main regex matches at a position exactly by its first character: a comment, a quote, a backtick, an opening bracket or `(`/`)`/`[`/`]`, or `}`; a comment ends where the block or line comment scan ends, a quoted literal where QuotedAt ends, anything else after one character; anything else is no match |
| Scanner.TemplateBodyEnd | src/parser.ts:27 | the end of a fragment body, between its start and the end of the source; TemplateBodyEndCorrect proves it is exactly where the fragment pattern stops |
| Scanner.TemplateBodyEndCorrect | src/parser.ts:27 | the scan for a template body stops where the fragment regex stops: escape pairs, and any character but a backtick that does not start `${` |
| Scanner.TemplateBodyAtUnique | src/parser.ts:27 | the template body the regex takes is unique |
| Scanner.TemplateAt | src/parser.ts:27 | a fragment opens with `` ` `` or `}` and closes with `` ` `` or `${`; the closing is `` ` `` when it runs to the end of input; its body has no unescaped backtick and no `${` |
| Parser.AppendTarget | src/parser.ts:77-82 | currentStringTargets.push: TreeAppendTarget states its effect on the object graph, AppendTargetBodies and AppendBodySolid what it does to the bodies and the solidity invariant |
| Parser.Push | src/parser.ts:148-159 | pushNestedTargetStack: TreePush, PushBodies and PushSolid state its effect |
| Parser.Pop | src/parser.ts:161-173 | popNestedTargetStack: TreePop, PopBodies and PopSolid state its effect |
| Parser.TreeAppendTarget | src/parser.ts:77-119 | appending a target puts it at the end of the current list in the tree |
| Parser.TreePush | src/parser.ts:148-159 | push appends an empty group with an empty bracket stack to the current list and makes its partials current |
| Parser.TreePop | src/parser.ts:161-173 | pop leaves the tree unchanged and makes the parent's list current, or the root when the stack empties |
| Parser.Partner | src/parser.ts:46-50 | every closing bracket has an opening partner |
| Parser.BracketStep | src/parser.ts:127-141 | the bracket branch: BracketStepEffect states its whole effect, BracketOpenClose that a closer undoes its opener |
| Parser.BracketStepEffect | src/parser.ts:127-141 | at top level a bracket changes nothing; inside a group an opener is pushed and a closer pops only when the top is its partner, and otherwise leaves the stack as it is; nothing else of the state changes |
| Parser.BracketOpenClose | src/parser.ts:127-141 | a closer right after its partner restores the state |
| Parser.QuotedTarget | src/parser.ts:68-82 | a quoted literal gives a body target whose opening and closing both equal the quote, even when unclosed, and whose range covers the matched text |
| Parser.FragmentTarget | src/parser.ts:104-119 | a fragment gives a body target opened by `` ` `` or `}`, closed by `` ` `` or `${`, closed by `` ` `` when the fragment runs to the end of input, whose range covers the fragment's text |
| Parser.TemplateStep | src/parser.ts:96-125 | after the hand-off the main scan resumes exactly at the end of the fragment; TemplateStepTree states how it groups the fragments |
| Parser.TemplateStepTree | src/parser.ts:114-125 | the fragment is appended to the current list; one closed by `${` then opens an empty group after it and the depth grows by one, one closed by `` ` `` leaves the object graph as it is and the depth shrinks by one, or stays 0 |
| Parser.Step | src/parser.ts:63-142 | every step moves strictly forward and stays within the source |
| Parser.Run | src/parser.ts:63-142 | the loop ends at the end of the source |
| Parser.StepComment | src/parser.ts:66-67 | a comment changes nothing but the position |
| Parser.StepCurlyKet | src/parser.ts:83-141 | a `}` closes an interpolation exactly when a group is open and its bracket stack holds no `{`; it then pops and scans a fragment; otherwise it is an ordinary bracket |
| Parser.StepQuoted | src/parser.ts:68-82 | a quoted literal first pushes a new group when the bracket stack is non-empty, then adds its target |
| Parser.StepBacktick | src/parser.ts:83-125 | a backtick pushes a group, so a template literal becomes a group, then its fragment is scanned |
| Parser.StepBracket | src/parser.ts:127-141 | a bracket character takes the bracket branch and moves one character |
| Parser.StepOther | src/parser.ts:63 | any other character leaves the state as it was apart from the position |
| Parser.BodiesConcat | src/parser.ts:52-146 | the body targets of a concatenation are those of each part, in order |
| Parser.AppendTargetBodies | src/parser.ts:77-119 | appending a target adds its body targets after all earlier ones |
| Parser.PushBodies | src/parser.ts:148-159 | push adds no body target |
| Parser.PopBodies | src/parser.ts:161-173 | pop loses no body target |
| Parser.BracketStepBodies | src/parser.ts:127-141 | brackets add no body target |
| Parser.StepBodies | src/parser.ts:63-142 | a step adds exactly the body targets it scans, after all earlier ones |
| Parser.AppendBodySolid | src/parser.ts:77-119 | appending a body keeps every group empty-or-holding-a-body, and the current group then holds a body |
| Parser.PushSolid | src/parser.ts:148-159 | push keeps every group empty-or-holding-a-body when the current group holds a body |
| Parser.PopSolid | src/parser.ts:161-173 | pop keeps every group empty-or-holding-a-body |
| Parser.BracketStepSolid | src/parser.ts:127-141 | brackets keep every group empty-or-holding-a-body |
| Parser.StepSolid | src/parser.ts:63-142 | each step keeps every group empty-or-holding-a-body |
| Parser.StepInvariant | src/parser.ts:63-142 | each step keeps the body targets well formed, in source order and behind the position |
| Parser.RunInvariant | src/parser.ts:63-142 | the whole loop keeps that invariant |
| Parser.TreeSolid | src/parser.ts:144 | the tree handed to finalize has every group empty or holding a body |
| Parser.Finalized | src/parser.ts:175-189 | finalize never makes a list longer; FinalizedBodies, FinalizedNoBracketStacks and FinalizedNoEmptyGroups state what it keeps and removes, and FinalizeTargets that the in-place loop computes it |
| Parser.FinalizedBodies | src/parser.ts:175-189 | finalize keeps every body target, in the same order |
| Parser.FinalizedNoBracketStacks | src/parser.ts:175-189 | after finalize no group carries a bracket stack |
| Parser.FinalizedNoEmptyGroups | src/parser.ts:175-189 | after finalize of a tree whose groups are empty or hold a body, no group is empty at any depth |
| Parser.SpliceKeeps | src/parser.ts:182-183 | splicing out an empty group leaves the finished prefix plus the finalized rest unchanged, and the rest moves up by one |
| Parser.ReplaceKeeps | src/parser.ts:180-186 | replacing an element by its finalized form extends the finished prefix by one and leaves the rest after it unchanged |
| Parser.FinalizeTargets | src/parser.ts:175-189 | the in-place loop that splices empty groups and steps back computes the finalized tree |
| Parser.ParseSpec | src/parser.ts:52-146 | what parse returns: the finalized tree after the loop; ParseSpecProperties states its properties and Parse that the method computes it |
| Parser.ParseSpecProperties | src/parser.ts:52-146 | parse output lists every scanned literal and fragment, well formed and in source order; it has no bracket stack and no empty group |
| Parser.Parse | src/parser.ts:52-146 | the loop computes the parse output, with the properties above |
| EsQuotes.TypeOf | src/es-quotes.ts:16-20 | the kind is single exactly for opening `'` and double exactly for opening `"` |
| EsQuotes.TypeOfWellFormed | src/es-quotes.ts:16-20 | for parse targets, `` ` `` and `}` mean template |
| EsQuotes.FindActiveStringTarget | src/es-quotes.ts:27-43 | a result is a body target whose range contains the selection, never a group |
| EsQuotes.FirstHit | src/es-quotes.ts:28-40 | nothing exactly when no body contains the selection; otherwise the first one that does |
| EsQuotes.FindIsFirstHit | src/es-quotes.ts:27-43 | the tree search equals the first hit among the body targets in pre-order |
| EsQuotes.FindActiveStringTargetFirst | src/es-quotes.ts:27-43 | the search gives undefined exactly when no body target contains the selection; otherwise it gives a hit with no earlier hit in pre-order |
| EsQuotes.FindActiveStringTargetsFrom | src/es-quotes.ts:45-62 | a result is never an empty list |
| EsQuotes.FindActiveStringTargets | src/es-quotes.ts:45-62 | a result is never an empty list |
| EsQuotes.FindActiveStringTargetsAgree | src/es-quotes.ts:45-62 | undefined exactly when findActiveStringTarget is undefined; a non-template hit comes alone, and a template hit comes with its whole sibling list from the tree |
| EsQuotes.FindActiveStringTargetsAsWritten | src/es-quotes.ts:45-62 | as written, every result is a single target |
| EsQuotes.AsWrittenIsSingleHit | src/es-quotes.ts:45-62 | as written, the result is the hit of findActiveStringTarget, alone |
| EsQuotes.AsWrittenDropsSiblings | src/es-quotes.ts:55-56 | on a template literal with an interpolation, the as-written search drops the tail fragment that the intended one returns |
| Range.TextEndStops | src/range.ts:12 | `.*` takes no line terminator, and stops at one or at the end of input |
| Range.EndingAt | src/range.ts:12 | the ending group matches an empty string at the end of input, one LF, or CR LF, and nothing else |
| Range.ExecLine | src/range.ts:12-19 | the match exec finds starts at or after lastIndex and ends within the source |
| Range.ExecLineMatch | src/range.ts:12-19 | the match is the line text from its start, followed by a line ending of the reported length |
| Range.ExecLineLeftmost | src/range.ts:12-19 | the regex matches at no start between lastIndex and the match exec finds |
| Range.ExecLineSkipsNoNewline | src/range.ts:12-17 | the search for a match never skips a LF |
| Range.LineCount | src/range.ts:16-31 | the loop pushes at least one span |
| Range.Scan | src/range.ts:16-31 | the loop pushes one span per match, up to the first match with an empty ending |
| Range.LineTable | src/range.ts:11-34 | the table has one span per match |
| Range.ScanAt | src/range.ts:16-31 | the loop pushes the text span of the k-th match at position k, after what it already holds |
| Range.ScanKeeps | src/range.ts:16-31 | the loop never changes a span it already holds |
| Range.LineTableAt | src/range.ts:11-34 | span k of the table is the text of the k-th match |
| Range.LineAtSpan | src/range.ts:16-31 | each match's text is a stretch of line text from lastIndex on |
| Range.LineAtLast | src/range.ts:16-31 | the last match's text ends at the end of the source |
| Range.LineAtSorted | src/range.ts:16-31 | an earlier match's text ends before a later match's text starts |
| Range.LineTableBounds | src/range.ts:11-34 | the table has at least one span, its last span ends at the end of the source, and each span is line text |
| Range.LineTableSorted | src/range.ts:11-34 | spans are in order, each ending before the next starts |
| Range.LineCountNewlines | src/range.ts:16-31 | the loop pushes one span per LF of the rest, plus one |
| Range.LineTableCount | src/range.ts:11-34 | the table has one span per LF plus one, and the last ends at `source.length` |
| Range.LineTableOrdered | src/range.ts:11-34 | spans are ordered with start no later than end, and no span's text holds a line terminator |
| Range.ExecLineClean | src/range.ts:12-19 | with no lone CR, U+2028 or U+2029, exec matches right at lastIndex |
| Range.LineAtFollows | src/range.ts:16-31 | with no stray terminator, each match's text starts right after the previous match's line ending |
| Range.LineTableClean | src/range.ts:11-34 | with no lone CR, U+2028 or U+2029, the first span starts at 0 and each next span starts one after an LF ending, two after a CR LF ending |
| Range.FirstEndAbove | src/range.ts:39-41 | the first span whose end is above the offset: every earlier span ends at or below it |
| Range.FirstEndAboveIs | src/range.ts:39-41 | the search stops at the first span whose end is above the offset, and only there |
| Range.Locate | src/range.ts:36-52 | getPosition on the table: undefined exactly when no span ends above the offset, a TypeError exactly when the offset lies before the first span and below its end, and otherwise a line between 1 and the number of spans; LocateInside, LocateBetween, LocateBeyond and LocateBeforeFirst give each case |
| Range.LocateInside | src/range.ts:39-44 | an offset inside line i's text maps to (i+1, offset-start+1) |
| Range.LocateBetween | src/range.ts:45-49 | an offset on a line ending maps to the end of the preceding line, (i+1, its length+1) |
| Range.LocateBeyond | src/range.ts:39-52 | an offset at or past the end of the source gives undefined |
| Range.LocateBeforeFirst | src/range.ts:45-48 | an offset before the first span reads the span before the first and throws |
| Range.LocateClean | src/range.ts:36-52 | with no stray terminator, every offset inside the source gets a position |
| Range.LocateMonotone | src/range.ts:36-58 | position order follows offset order |
| Range.LocateOrdered | src/range.ts:36-52 | in any source, two ordered offsets that both get a position get them in the same order |
| Range.EndOfSourceUndefined | src/range.ts:41 | the offset equal to the length of the source gives undefined |
| Range.FirstEndReaching | src/range.ts:41 | the corrected search: the first span whose end is at or above the offset |
| Range.LocateCorrected | src/range.ts:36-52 | getPosition with `end >= index`: undefined exactly when every span ends below the offset, a TypeError exactly when the offset lies before the first span and not above its end, and otherwise a line between 1 and the number of spans; LocateCorrectedAgrees and LocateCorrectedEnd relate it to the code |
| Range.LocateCorrectedAgreesOn | src/range.ts:36-52 | on ordered spans the corrected lookup agrees with the code on every offset but the end of the last span |
| Range.LocateCorrectedAgrees | src/range.ts:36-52 | the corrected lookup agrees with the code on every offset but the length of the source |
| Range.LocateCorrectedEnd | src/range.ts:36-52 | the corrected lookup maps the end of the source to the end of the last line |
| Range.RangeBuilder.constructor | src/range.ts:11-34 | the loop builds exactly the line table of the source |
| Range.RangeBuilder.GetPosition | src/range.ts:36-52 | the loop returns the lookup of the offset in the table |
| Range.RangeBuilder.GetRange | src/range.ts:54-58 | pairs the lookups of the two offsets |
| Bridge.QuotedKind | src/parser.ts:69-81 | the normal kind whose quote opened the literal |
| Bridge.ScannedQuotedBodyValid | src/parser.ts:68-82 | the body of a closed quoted literal is a valid body of its kind |
| Bridge.ScannedFragmentBodyValid | src/parser.ts:104-119 | the body of a fragment closed by `` ` `` or `${` is a valid template body |
| Bridge.ValidQuotedRescans | src/transform.ts:129-139 | a valid normal body wrapped in its quotes reads back as one closed literal with exactly that body |
| Bridge.WrapLiteralParts | src/transform.ts:129-145 | the written literal is one opening character, then the body, then the closing delimiter |
| Bridge.ValidFragmentRescans | src/transform.ts:140-143 | a valid template body wrapped in fragment delimiters reads back as one fragment with that body and closing |
| Bridge.TransformRescans | src/transform.ts:103-145 | transform of a valid body writes a literal that the parser reads back whole, with the rewritten body |
| Bridge.ParsedBodyValid | src/parser.ts:68-119 | a complete literal or fragment target holds a valid body of the kind its opening names |
| Bridge.ParseGivesValidBodies | src/parser.ts:52-146 | every complete body target parse makes can be handed to transform as a valid body |

## Left out

- `src/extension.ts` is not part of this model: it registers commands, keeps a memento, shows
  messages and edits the editor.
- `findActiveStringTargetInEditor`, `findActiveStringTargetsInEditor` and `supportedLanguages`
  (src/es-quotes.ts:22-25,64-106) read editor and document state and are left out.
- The vscode `Position` and `Range` classes. Parse targets carry offset spans, and the
  position of an offset is modelled separately by `RangeBuilder`. Checks that vscode's `Range`
  constructor would make on an undefined position are not modelled.
- Offsets, ranges and columns count characters (Unicode scalar values), where JavaScript counts
  UTF-16 code units. They agree with the source only for text made of Basic Multilingual Plane
  characters: a character outside it counts as two in the source and one here, and a lone
  surrogate, which a JavaScript string may hold, cannot be represented.
- The `console.log` for a mismatched bracket (src/parser.ts:136) is a no-op.
- The parse regexes are module-level globals, so their `lastIndex` carries over to the next call if
  a parse throws. The model restarts every scan at offset 0.
- In-place aliasing of target arrays. The parser state is a value: open frames fold into their
  parent on pop, and `Tree` rebuilds the shared object graph.
- The `src/regexs/*.js` generator inputs and `gulpfile.js`: the regexes they generate are the
  ones modelled.
- Transform.TemplateToNormalTerminators: line terminators are proved escaped only for a template body
  with no U+2028, U+2029 or CR without LF. Template to normal copies those raw, so the normal
  literal it writes may break there.
- Transform.ConvertBodyKeepsValid: needs the same premise, for the same reason, when converting
  from a template.
- Transform.TransformGivesValidLiteral: needs the same premise for the same reason.
- Bridge.TransformRescans: needs the same premise for the same reason.
- Range.LocateMonotone: proved for sources with no stray terminator. With one, offsets in the text
  the line regex skips have no span of their own. Range.LocateOrdered gives the order for any
  source, for the offsets that get a position.
- Range.RangeBuilder.GetRange: returns the pair of lookups. Building a vscode `Range` from
  undefined positions is not modelled.
- Behaviour of later versions of the extension (low-priority operators, whitespace ranges, kept
  empty groups) is not modelled. The model follows this code, whose finalize removes only groups
  that are empty before they are finalized; no empty group survives parse all the same, because
  every group parse builds is empty or holds a body.

## Findings

| source | as written | input that shows it | evidently intended | confidence | as-written member | corrected member |
|---|---|---|---|---|---|---|
| src/es-quotes.ts:55 | the template test reads `target.type`, which parse never sets, so the hit always comes alone | the tree parse makes of `` `a${b}c` ``, with the selection inside the head fragment | a template fragment brings its whole sibling list, with the kind read from `opening` | not executed | EsQuotes.FindActiveStringTargetsAsWritten (EsQuotes.AsWrittenDropsSiblings) | EsQuotes.FindActiveStringTargets (EsQuotes.FindActiveStringTargetsAgree) |
| src/range.ts:41 | `indexRange.end > index` never holds at `index == source.length`, so getPosition of the end of the source is undefined, and parse asks for exactly that offset when a literal ends the source | source `'a'`: the literal's range ends at offset 3 | the end of the source maps to the end of the last line | not executed | Range.Locate (Range.EndOfSourceUndefined) | Range.LocateCorrected (Range.LocateCorrectedEnd, Range.LocateCorrectedAgrees) |
