# JSDoc header standardiser — a Dafny model

`standardize-jsdoc.cjs` rewrites the leading `/** … */` header of a source file
from a metadata record. It finds an existing header at the start of the file,
keeps the header's copyright and licence lines, renders the metadata in a fixed
tag order, and splices the new block into the file. Without a header, it puts
the new block in front of the file. This project models that core with the file
access, logging and command-line handling removed.

- `text.dfy` (module `JsText`): the JavaScript string built-ins the core uses,
  written out. These are the `\s` class, `trim()`, `includes`, `split('\n')`,
  `join('\n')` and the global newline replacement that re-indents multi-line
  values.
- `build.dfy` (module `JsdocBlock`): `buildNewJsdocBlock`. It is the method
  `BuildNewJsdocBlock`, with a loop over the tag order and an inner loop over
  array items. It is proved equal to `Layout`, a reference definition. `Layout`
  lists the truthy tags first (`Rendered`), then renders each tag's section
  (`Sections`), with a flag saying whether anything came before it.
- `merge.dfy` (module `JsdocMerge`): the merge part of `processJsdoc`. The
  regular expression `^\s*\/\*\*[\s\S]*?\*\/` becomes an explicit scan,
  `HeaderEnd`, which is proved equivalent to a declarative form, `HeaderMatch`.
  The merged text is `Merge` (the header is replaced literally). The method
  `ProcessJsdoc` follows the source step by step.

Metadata is a `map<string, Value>`, where a `Value` is `Str(string)` or
`Arr(seq<string>)`. A key is truthy as in JavaScript: a missing key and the
empty string are falsy, and every array is truthy, the empty array included.

Details of the code's behaviour that the model follows exactly:
- An empty array is not skipped. It renders a lone ` * @tag` line.
- No ` *` line goes between the preserved lines and the first rendered tag.
- Preserved lines do not count as "already emitted" for the spacing rule.
- Whitespace before the old header is part of the match, so it is dropped.

## Model

| member | source | states |
|---|---|---|
| `JsText.LeadingWs` | standardize-jsdoc.cjs:45 | the count of leading characters that `^\s*` consumes: all of them are whitespace, and the next character (if any) is not |
| `JsText.Trim` | standardize-jsdoc.cjs:59 | `trim()` gives the slice left after removing all whitespace at both ends: what it removes is whitespace, and the result neither starts nor ends with whitespace |
| `JsText.Contains` | standardize-jsdoc.cjs:54 | `includes`: a match needs room for the whole pattern, and the empty pattern is found in every line |
| `JsText.ContainsIff` | standardize-jsdoc.cjs:54 | `includes` holds exactly when the pattern occurs at some index of the line |
| `JsText.Split` | standardize-jsdoc.cjs:53 | `split('\n')` returns at least one piece, and no piece contains a newline |
| `JsText.Join` | standardize-jsdoc.cjs:66-69 | `join('\n')` of no lines is empty; otherwise the text starts with the first line, followed by a newline when more lines come |
| `JsText.JoinSplit` | standardize-jsdoc.cjs:53 | joining the pieces of a split with newlines gives back the original text |
| `JsText.SplitJoin` | standardize-jsdoc.cjs:67 | splitting a newline join of newline-free lines gives back the lines |
| `JsText.JoinAppend` | standardize-jsdoc.cjs:66-67 | joining two non-empty groups of lines puts exactly one newline between the groups |
| `JsText.Reindent` | standardize-jsdoc.cjs:112 | after the newline replacement, every newline in a value is followed by ` * ` |
| `JsText.UnindentReindent` | standardize-jsdoc.cjs:112 | the replacement loses nothing: turning each `\n * ` back into a newline recovers the original value |
| `JsText.ReindentNoNewline` | standardize-jsdoc.cjs:112 | a value without newlines is rendered unchanged |
| `JsdocBlock.Truthy` | standardize-jsdoc.cjs:104 | the `if (jsdocData[tag])` test: a tag counts exactly when it is present and its value is not the empty string |
| `JsdocBlock.Rendered` | standardize-jsdoc.cjs:103-104 | the truthy tags of a tag list; each has a value in the metadata |
| `JsdocBlock.Layout` | standardize-jsdoc.cjs:95-119 | the builder's lines: there are none exactly when no tag is rendered, and the first line is never a lone ` *` |
| `JsdocBlock.Bullets` | standardize-jsdoc.cjs:110 | one ` * - item` line per array element, in element order |
| `JsdocBlock.TagLines` | standardize-jsdoc.cjs:108-113 | an array gives ` * @tag` followed by its 1 + n bullet lines; a string gives exactly one entry ` * @tag value`, with the value re-indented |
| `JsdocBlock.BuildNewJsdocBlock` | standardize-jsdoc.cjs:95-119 | the imperative builder's lines equal the reference rendering `Layout`: truthy tags in fixed order, each section preceded by ` *` only for spacing tags with something already rendered |
| `JsdocBlock.PushTag` | standardize-jsdoc.cjs:104-114 | the callback for one truthy tag appends a ` *` line exactly when it is a spacing tag and `lines` is non-empty, then the tag's own lines |
| `JsdocBlock.PushItems` | standardize-jsdoc.cjs:110 | the inner loop appends one bullet per element, in order, after what was already there |
| `JsdocBlock.LayoutStep` | standardize-jsdoc.cjs:103-107 | the loop step for the `i`-th tag of the list: a truthy tag extends the rendering by its section, with the spacing line decided by whether earlier lines exist; a falsy tag adds nothing |
| `JsdocBlock.RenderedIsFilter` | standardize-jsdoc.cjs:97-104 | a tag is rendered exactly when it is in the tag list with a truthy value; there are no more rendered tags than listed ones, and the list's order is kept, so each truthy tag appears once |
| `JsdocBlock.LayoutIgnoresOtherKeys` | standardize-jsdoc.cjs:97-104 | dropping every key outside the fixed tag order leaves the rendered lines unchanged, so other keys never appear |
| `JsdocBlock.SpacingRule` | standardize-jsdoc.cjs:101-107 | before the k-th rendered tag, something has been rendered exactly when k > 0; the line there is a lone ` *` exactly when the tag is module, dependencies, outputs or changelog and something came before; the tag's ` * @tag` line follows |
| `JsdocBlock.NothingToRender` | standardize-jsdoc.cjs:103-104 | with no recognised truthy value, the builder returns no lines |
| `JsdocMerge.FindClose` | standardize-jsdoc.cjs:45 | the lazy `[\s\S]*?\*\/` stops at the first `*/` at or after the given index, or there is none |
| `JsdocMerge.HeaderEnd` | standardize-jsdoc.cjs:45-46 | a header the scan finds fits in the text and is a match of the regular expression starting after the leading whitespace |
| `JsdocMerge.HeaderEndIsRegexMatch` | standardize-jsdoc.cjs:45-46 | the scan finds a header ending at e exactly when the regular expression matches the prefix of length e: only whitespace before `/**`, and the first `*/` after it closes the match |
| `JsdocMerge.KeepMarked` | standardize-jsdoc.cjs:53-55 | every kept line contains `Copyright` or `@license` |
| `JsdocMerge.KeepMarkedIsFilter` | standardize-jsdoc.cjs:53-55 | the kept lines are exactly those containing `Copyright` or `@license`; there are no more kept lines than lines, and their relative order is kept, so each marked line is kept once |
| `JsdocMerge.Normalize` | standardize-jsdoc.cjs:58-64 | a kept line becomes a space and its trimmed text when that starts with `*`, otherwise ` * ` and its trimmed text; either way it starts with ` *` |
| `JsdocMerge.PreservedLines` | standardize-jsdoc.cjs:53-64 | every preserved line is a comment line starting with ` *` |
| `JsdocMerge.PreservedLinesSelected` | standardize-jsdoc.cjs:53-64 | the preserved lines are the normalised marked lines of the old header, one per marked line, in order, each starting with ` *` |
| `JsdocMerge.Wrap` | standardize-jsdoc.cjs:66-69 | the template literal: the text is `/**` and a newline, then the joined lines, then a newline and ` */` |
| `JsdocMerge.WrapSplit` | standardize-jsdoc.cjs:66-69 | read back line by line, a block of newline-free lines is the opening `/**`, the lines themselves and the closing ` */` |
| `JsdocMerge.FinalBlock` | standardize-jsdoc.cjs:49-70 | the new header always opens with `/**` and a newline and closes with a newline and ` */` |
| `JsdocMerge.UnmarkedHeaderDropped` | standardize-jsdoc.cjs:51-70 | an old header without marked lines contributes nothing: the block equals the one for a file without a header |
| `JsdocMerge.PreservedBeforeRendered` | standardize-jsdoc.cjs:66-67 | under a header with marked lines and with something rendered, the block holds the joined preserved lines, one newline, then the joined rendered lines, and the first rendered line is a tag line, not a lone ` *` |
| `JsdocMerge.Merge` | standardize-jsdoc.cjs:72-78 | the merged file text always starts with the new block's opening line `/**` |
| `JsdocMerge.MergeWithoutHeader` | standardize-jsdoc.cjs:76-78 | with no header, a non-empty file becomes the new block, a blank line and the untouched content; an empty file becomes the block alone |
| `JsdocMerge.MergeWithHeader` | standardize-jsdoc.cjs:73-74 | with a header ending at e, the whole prefix up to e (leading whitespace included) is replaced by the block of preserved and rendered lines, and everything from e on is kept unchanged |
| `JsdocMerge.EmptyBlock` | standardize-jsdoc.cjs:66-69 | with nothing to render and nothing to preserve (no header, or a header without marked lines), the block is exactly `/**\n\n */` |
| `JsdocMerge.Substitute` | standardize-jsdoc.cjs:74 | the `$`-pattern expansion of `replace` leaves a replacement without `$` unchanged |
| `JsdocMerge.MergeAsWritten` | standardize-jsdoc.cjs:72-78 | the source's result: without a header it is the literal merge; with a header ending at e, it still ends with the untouched `content[e..]` |
| `JsdocMerge.AsWrittenAgrees` | standardize-jsdoc.cjs:74 | when the new block holds no `$`, the source's replacement equals the literal splice |
| `JsdocMerge.DollarAmpersandPastesOldHeader` | standardize-jsdoc.cjs:74 | a `$&` in a one-line `file` value is replaced by the whole old header in the source's output, where the literal splice keeps `$&` |
| `JsdocMerge.DollarAmpersandExample` | standardize-jsdoc.cjs:74 | for the file `/***/` and metadata `{file: "$&"}`, the source's output differs from the literal splice |
| `JsdocMerge.ProcessJsdoc` | standardize-jsdoc.cjs:43-79 | the method computes the source's result, including the `$` expansion, and equals the literal splice whenever the new block holds no `$` |

## Left out

- The command line: `main`, its argument check, `JSON.parse` and `process.exit` (standardize-jsdoc.cjs:8-35, 121). These are glue around the core.
- File access and logging: `fs.readFileSync`, `fs.writeFileSync` and the `console` calls (standardize-jsdoc.cjs:20, 81-87). The model takes the file text as a parameter and returns the new text.
- Badly shaped metadata: a recognised tag whose value is truthy but is neither a string nor an array (a number, an object, an array of non-strings). The `Value` type holds only strings and arrays of strings, so these cannot be expressed.
- Characters are Unicode scalar values; JavaScript strings are UTF-16 code units. Surrogate pairs are not modelled.
- `JsText.IsWs` lists the ECMAScript WhiteSpace and LineTerminator code points for the current Unicode space separators. It does not track changes to the Unicode category Zs across versions.
- Metadata key order: a Dafny map has no key order, so "independent of the input's key order" holds by construction. It is not a separate lemma.

## Findings

| source | as written | input that shows it | evidently intended | confidence | as-written member | corrected member |
|---|---|---|---|---|---|---|
| standardize-jsdoc.cjs:74 | `fileContent.replace(jsdocRegex, finalJsdocBlock)` passes the new block as a replacement string, so `$&`, `$$`, `` $` `` and `$'` in it are expanded (ECMA-262, GetSubstitution) | file text `/***/`, metadata `{file: "$&"}`: the new header becomes `/**\n * @file /***/\n */` | the new block is inserted literally: `/**\n * @file $&\n */` | high; not executed | `JsdocMerge.DollarAmpersandPastesOldHeader` | `JsdocMerge.MergeWithHeader` |

`JsdocMerge.MergeAsWritten` models the source's replacement, including the
expansion. `JsdocMerge.Merge` is the literal splice; the merge properties above
are proved about it. The two agree whenever the new block contains no `$`.
