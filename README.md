# vue-o2c: the conversion core of `start`

This project models, in Dafny, the core of `start` in `src/command/index.ts`
of vue-o2c. `start` converts a Vue component written in the Options API into
one written with `@vue/composition-api`. The model covers the steps from the
parsed template and the transformer's output up to the text handed to the
code formatter:

- `findVarNode` walks the template tree. It collects the root name of every
  dynamic expression into an insertion-ordered set.
- `filterData` keeps the names for which the merged table of computed
  properties, methods and refs gives a truthy value. As written, that
  lookup also finds the members every object inherits from
  `Object.prototype` (see "## Findings"). The filter as written is
  modelled, and `Start` runs the intended filter that drops those names.
- `replaceAll` builds the normalised props object and renders it with
  `stringifyObj`. It then rewrites the generated script text:
  - it inserts the `return { ... }` block;
  - it retargets the `vue` import;
  - it drops `setup `;
  - it wraps the body in `defineComponent`;
  - it removes the `withDefaults`/`defineProps`/`defineEmits` calls;
  - it applies the `$emit` rewrites.
- `moveImport` and `getMatchImport` collect every import statement. When
  there is more than one, they remove them all and put them back as one
  block after the line that opens the script.

The modules follow that structure:

- `Text`: the JavaScript string built-ins used (`indexOf`, `replace` with a
  string pattern, `split`/`join`, ASCII `toUpperCase`, the `\s` and line
  terminator classes).
- `Template`: the template values and the set the walk fills.
- `Symbols`: the declaration tables and the filter.
- `Props`: the props loop and `stringifyObj`, with a parser that reads the
  rendered text back.
- `Script`: every rewrite of `replaceAll`. Each regular expression is
  written out as the search the JavaScript engine performs.
- `Imports`: the import expression of lines 168, 178 and 189, with the
  engine's backtracking order. Also the block move of `moveImport`.
- `ImportGroups`: shows that `matchImport`, run again on the text of one
  match, retraces that match and extracts its two groups.
- `Command`: the state of `start`: the class `Conversion`, whose fields are
  `result` and `resultStr` and whose methods are the inner functions. The
  method `Start` runs them in the source's order.

The model follows the source throughout, with one exception: the lookup at
line 104. `Start` runs the corrected filter, and its output is proved equal
to the output as written whenever no name the template uses is an
undeclared inherited member (see "## Findings").

Notes on the source:

- The prop field is named `require`, not `required`.
- The type name is capitalised in the props loop (line 116), not by
  `stringifyObj`.
- `$emit` → `emit` is a plain global replace. It leaves `$emit` behind
  where the text has `$$emit`; see `Script.DoubleDollarKept`.
- The names are filtered against computed properties, methods and refs
  only (lines 98-102).
- A second consolidation pass is not a no-op. On the text handed to the
  formatter, the lines the first pass emptied stay, and a second pass
  empties the import lines again. On two lines `import a from 'b'`, one
  pass gives the two lines and an empty line; a second pass adds two more
  empty lines. See `Imports.ConsolidationNotIdempotent`. The source runs
  the move once.

## Model

| member | source | states |
|---|---|---|
| Template.Root | src/command/index.ts:84 | the root is the prefix of the expression before its first `.`, and holds no `.` |
| Template.DynamicFieldsNotVisited | src/command/index.ts:83-84 | a dynamic type-4 node contributes exactly its root name; its fields are not walked and it cannot throw |
| Template.NonDynamicAddsOnlyFields | src/command/index.ts:86-94 | a static or non-type-4 node adds nothing of its own, only what its fields add; it throws exactly when one of its fields throws |
| Template.Throws | src/command/index.ts:82-95 | a walk that throws did not start at a dynamic expression or at a non-object value |
| Template.ThrowsAnySome | src/command/index.ts:87-93 | walking the field values of an object throws if and only if one of the values throws |
| Template.Names | src/command/index.ts:82-95 | the names the walk adds, in walk order; no collected name contains a `.` |
| Template.AddEachMembers | src/command/index.ts:64 | adding names to the set keeps what was there and adds exactly the new names |
| Template.AddEachDistinct | src/command/index.ts:64 | the set never holds a name twice |
| Template.AddEach | src/command/index.ts:64 | adding names keeps what the set held, in place, at its front, and adds at most one entry per name given |
| Template.AddEachAppend | src/command/index.ts:84-89 | adding two runs of names in turn is adding their concatenation |
| Command.Conversion.FindVarNode | src/command/index.ts:82-95 | the walk succeeds exactly when it meets no `null` in an enumerated object; when it succeeds, it adds the template's names in walk order, and `resultStr` is unchanged |
| Symbols.Merged | src/command/index.ts:98-102 | the merged table has every name of the three tables; refs win over methods, and methods over computed properties |
| Symbols.Kept | src/command/index.ts:104 | the intended filter: every name it keeps is declared with a truthy value, and it never lengthens the list |
| Symbols.KeptMembers | src/command/index.ts:104 | a name survives the filter if and only if it was collected and the merged table holds a truthy value for it |
| Symbols.KeptInOrder | src/command/index.ts:104 | the filter keeps the set's order |
| Symbols.KeptDistinct | src/command/index.ts:104 | the filtered list has no duplicates |
| Symbols.FilterDeclared | src/command/index.ts:104 | the filter loop computes exactly the kept names |
| Symbols.InheritedNameSurvives | src/command/index.ts:98-104 | as written, `constructor` with nothing declared survives the filter; the intended filter drops it |
| Symbols.LooksUpTruthy | src/command/index.ts:104 | `totalData[key]` is truthy for every declared name, and on a name that is not inherited it is truthy exactly when the name is declared |
| Symbols.Visible | src/command/index.ts:98-104 | the table a property read on the merged object sees: a name reads as truthy there exactly when `totalData[key]` is truthy, declared or inherited |
| Symbols.KeptAsWritten | src/command/index.ts:104 | the filter as written is the intended filter run on the table the property read sees |
| Symbols.KeptAsWrittenMembers | src/command/index.ts:104 | as written, a name survives if and only if it was collected and the property read finds a truthy value for it |
| Symbols.KeptAsWrittenInOrder | src/command/index.ts:104 | as written, the filter keeps the set's order and has no duplicates |
| Symbols.KeptAsWrittenAgrees | src/command/index.ts:104 | the filter as written and the intended one agree unless an undeclared name is an `Object.prototype` member |
| Command.Conversion.FilterData | src/command/index.ts:97-105 | `result` becomes the names the merged table declares, in set order |
| Props.Normalised | src/command/index.ts:114-120 | each entry is an object with two keys, and a third exactly when the default node is truthy |
| Props.NormaliseProps | src/command/index.ts:111-121 | the props object has exactly the declared keys in order, each holding the normalised entry |
| Props.NormalisedFields | src/command/index.ts:114-120 | each entry has the keys `require`, `type` and, exactly when the default node is truthy, `default`; `require` is `required \|\| false`; `type` is the type text with its first character upper-cased; `default` holds the node's text |
| Props.Render | src/command/index.ts:146-157 | an object is rendered between braces |
| Props.StringifyObj | src/command/index.ts:146-157 | the loop builds exactly the rendering of the object |
| Props.RenderEntriesAppend | src/command/index.ts:153 | each entry adds `key: value,` after the entries before it |
| Props.EmptyObjectRendersBraces | src/command/index.ts:156 | an empty object renders as `{}` |
| Props.RenderRoundTrip | src/command/index.ts:146-157 | an object whose keys and texts hold no separators can be parsed back from its rendering: the keys, the nesting and the scalar texts |
| Props.EntriesRoundTrip | src/command/index.ts:148-154 | the entries of a rendering parse back to the entries, followed by the rest of the text |
| Script.ReturnBlock | src/command/index.ts:124 | the block opens with `return {` on a new line and ends with `}` on a line of its own |
| Script.InsertReturn | src/command/index.ts:124 | the return block is added once, exactly when the text has a `</script>` |
| Script.ReturnBeforeFirstClose | src/command/index.ts:124 | the return block listing the names goes right before the first `</script>`, and the rest of the text is kept |
| Script.NoCloseNoReturn | src/command/index.ts:124 | without `</script>` the text is unchanged |
| Script.RetargetVueImport | src/command/index.ts:125 | when the expression matches, the 13 characters of ` } from 'vue'` become the `defineComponent` tail; otherwise the length is kept |
| Script.RetargetKeepsNames | src/command/index.ts:125 | the first one-line `import {...} from 'vue'` becomes an import from `@vue/composition-api` that keeps its names and adds `defineComponent`; the rest of the text is kept |
| Script.NoMatchUnchanged | src/command/index.ts:125 | a text where the expression matches nowhere is unchanged |
| Script.NoVueImportUnchanged | src/command/index.ts:125 | a text without `import {` is unchanged |
| Script.DropSetupKeyword | src/command/index.ts:126 | six characters go exactly when the text has `setup ` |
| Script.SetupKeywordDropped | src/command/index.ts:126 | exactly the first `setup ` is removed |
| Script.NoSetupKeywordUnchanged | src/command/index.ts:126 | without `setup ` the text is unchanged |
| Script.Draft | src/command/index.ts:123-126 | a missing transformer output gives the empty text |
| Script.WrapKeepsBody | src/command/index.ts:130-136 | the text between the quoted `@vue/composition-api` and the last `</script>` is kept in place inside the `defineComponent` wrapper |
| Script.WrapBody | src/command/index.ts:130-136 | the text grows by the wrapper zero, one or two times |
| Script.WrapTwiceAtClose | src/command/index.ts:130-136 | when the last `</script>` itself follows a quoted `@vue/composition-api` after the first one, the empty match there adds the wrapper a second time |
| Script.WrappedUnchanged | src/command/index.ts:128-137 | a draft with no quoted `@vue/composition-api`, no `withDefaults` and no `defineProps` is unchanged |
| Script.Wrapped | src/command/index.ts:128-137 | without props the text only gains the wrapper; with props it grows by at most two wrappers, as removing the calls only shortens it |
| Script.StripCall | src/command/index.ts:131-132 | a removal never lengthens the text (the same search is used at line 141) |
| Script.StripCallRemovesFirst | src/command/index.ts:131-132 | a removal takes out the first call, from its optional `const ... = ` through the first closing text after the name, and nothing else (the same search is used at line 141) |
| Script.StripCallAbsent | src/command/index.ts:131-132 | a text without the call is unchanged |
| Script.EmitSignature | src/command/index.ts:142 | the text before the first `setup()` or `setup(props)` parentheses is kept, `(props, { emit })` stands there, and the text never shrinks |
| Script.EmitSignatureAt | src/command/index.ts:142 | only the first `()` or `(props)` right after `setup` becomes `(props, { emit })` |
| Script.EmitCalls | src/command/index.ts:143 | the global replace never lengthens the text |
| Script.EmitCallsRemoveAll | src/command/index.ts:143 | unless the text holds `$$emit`, no `$emit` remains |
| Script.DoubleDollarKept | src/command/index.ts:143 | on `$$emit` the replacement leaves `$emit` |
| Script.EmitRewritten | src/command/index.ts:139-144 | without emit the text is not changed |
| Imports.TailEndIsTail | src/command/index.ts:178 | the tail found is ` from `, a quote, a run of one line and the last quote on that line; when none is found, there is none |
| Imports.LastQuoteIsLast | src/command/index.ts:178 | the greedy `(.+)` ends at the last quote before the end of the line: no quote follows it on the line, and when none is found the line holds no quote |
| Imports.StartNone | src/command/index.ts:178 | the search from the opening `\s*` fails if and only if every combination of leading spaces, lazy group and trailing spaces fails at `}?` and the tail |
| Imports.SearchNone | src/command/index.ts:178 | from any point of the backtracking, the search fails if and only if every combination still to be tried fails |
| Imports.StartFinds | src/command/index.ts:178 | a search that succeeds stops at the first combination, in the engine's order, whose `}?` and tail match |
| Imports.StartPicks | src/command/index.ts:178 | whichever combination is the first to succeed, the search finds it |
| Imports.FirstUnique | src/command/index.ts:178 | two combinations that are both the first to succeed from the same point are the same |
| Imports.MatchAt | src/command/index.ts:178 | a match starts with `import `, its group is not empty and its tail has at least nine characters |
| Imports.MatchAtIsMatch | src/command/index.ts:178 | a match is `import `, a non-empty group and a tail whose closing quote is the last one on its line |
| Imports.MatchAtNone | src/command/index.ts:178 | there is no match at a position if and only if no way to match exists there, with or without the `{` |
| Imports.FirstMatch | src/command/index.ts:178-180 | the leftmost match at or after a position, and no match before it |
| Imports.AllMatches | src/command/index.ts:180 | the global search's matches, in order, each starting at or after the previous one's end |
| Imports.AllMatchesMatch | src/command/index.ts:180 | each match of the global search is a match of the expression at its own start, with its own close and end |
| Imports.NoKeywordNoMatch | src/command/index.ts:180 | a text without `import ` has no match |
| Imports.MatchedTexts | src/command/index.ts:180 | one matched text per match of the global search |
| Imports.MatchImport | src/command/index.ts:188-192 | when the single-match expression finds nothing, both groups are empty |
| Imports.GetMatchImport | src/command/index.ts:177-186 | the push loop returns one pair per match, in order |
| Imports.PushPairs | src/command/index.ts:183-184 | the loop pushes `matchImport` of each matched text, in match order |
| Imports.NoKeywordNoPairs | src/command/index.ts:186 | without `import ` there is no pair |
| ImportGroups.MatchAtInside | src/command/index.ts:188-190 | searching again in the text of a match finds that same match, shifted |
| ImportGroups.MatchImportOfMatch | src/command/index.ts:188-192 | `matchImport` on the text of a match gives the text between `import ` and ` from `, braces included, and the path between the quotes |
| ImportGroups.ImportPairsAreGroups | src/command/index.ts:177-192 | each pair is the imported names and the path of the corresponding match |
| Imports.Stripped | src/command/index.ts:168 | removing the matches never lengthens the text, and shortens it exactly when there is a match |
| Imports.StrippedKeepsGaps | src/command/index.ts:168 | removing the imports keeps exactly the text between the matches, in order |
| Imports.ImportLine | src/command/index.ts:165 | an import line starts with `import `, ends with the closing quote, and holds the two groups and 15 more characters |
| Imports.ImportLinesOf | src/command/index.ts:165 | one import line per pair |
| Imports.ImportLines | src/command/index.ts:165 | one import line per match |
| Imports.FirstLineWith | src/command/index.ts:170 | the first line containing `<script`, or -1 when no line contains it |
| Imports.FindLineWith | src/command/index.ts:170 | the `findIndex` loop computes that line |
| Imports.Consolidated | src/command/index.ts:164-174 | with one import or none, the text is unchanged |
| Imports.SpliceLines | src/command/index.ts:171-172 | splicing a block into separator-free lines and joining gives, when split again, the lines around the block's lines |
| Imports.Moved | src/command/index.ts:169-172 | the result starts with the lines up to and including the script line, and the import block comes right after them, or at the top when there is no script line |
| Imports.MovedLines | src/command/index.ts:169-172 | the moved text, split into lines, is the lines up to the script line, then the lines of every import line, then the remaining lines |
| Imports.ConsolidatedLines | src/command/index.ts:167-172 | with two imports or more, the result's lines are the stripped text's lines with the import lines after the script line, or at the top when there is none |
| Imports.ConsolidationNotIdempotent | src/command/index.ts:164-174 | consolidating two one-line imports twice adds two more empty lines than consolidating once |
| Command.Conversion.ReplaceAll | src/command/index.ts:107-158 | `resultStr` becomes the rewritten transformer output, and the names are kept |
| Command.Conversion.MoveImport | src/command/index.ts:164-174 | `resultStr` becomes its consolidation, and the names are kept |
| Command.ReturnedNames | src/command/index.ts:97-104 | the returned names keep the order of first use in the template |
| Command.Rewritten | src/command/index.ts:123-126 | without transformer output `replaceAll` gives the empty text |
| Command.Converted | src/command/index.ts:166 | with one import or none, the move changes nothing |
| Command.ReturnedNamesAsWritten | src/command/index.ts:97-104 | as written, the returned names keep the order of first use in the template |
| Command.ConvertedAsWritten | src/command/index.ts:64-71 | as written, with one import or none the move changes nothing |
| Command.ReturnedNamesAsWrittenAreVisibleUses | src/command/index.ts:97-104 | as written, the return block lists, once each, the names the template uses for which the property read finds a truthy value |
| Command.ConvertedAsWrittenAgrees | src/command/index.ts:97-104 | when every name the template uses is declared or is not an inherited member, the output as written and the intended output are the same |
| Command.ReturnedNamesAreDeclaredUses | src/command/index.ts:68-69 | the return block lists, once each, exactly the names the template uses that the tree declares |
| Command.NothingTransformedGivesEmpty | src/command/index.ts:123-126 | without transformer output the whole result is empty |
| Command.Start | src/command/index.ts:64-71 | the pipeline fails exactly when the walk throws, and otherwise gives the converted text, which is the text as written unless a used name is an undeclared inherited member |
| Text.Capitalize | src/command/index.ts:116 | the first character is upper-cased and the rest kept |
| Text.SplitJoin | src/command/index.ts:169-172 | splitting a join gives back the pieces, each split at the separator |
| Text.JoinSplit | src/command/index.ts:169-172 | joining a split gives back the text |

## Left out

- The banner, the logging, the exit code, the `try`/`catch` and `writeFileSync` are I/O.
- Reading the file, `parse` and `transformPath` are left out. Their results are the inputs: the template `Value` and the `Command.Tree`.
- The prettier `format` call (`formatCode`) is a call into code outside the model. The modelled result is the text handed to it.
- `src/cli.ts` (option parsing) is not part of this model.
- Text.Capitalize: `toUpperCase` is modelled for ASCII letters only. Every other character is kept as it is.
- Script.ReturnBlock: the replacement texts of lines 124, 125 and 130 expand `$1` only. Every other `$` pattern inside a name (line 124) or inside the props text, default nodes included (line 130), is taken literally. In JavaScript `$$` becomes `$`, so a default node `'$$'` comes out as `'$'`. `$n` and `$nn` (`$1`, `$01`) expand to the captured group, and `$&`, `$'` and `` $` `` to the match and the text after and before it.
- Props.PropDecl: a `type` whose value is a function or another non-string is modelled by its `String(...)` text. `stringifyObj`'s `instanceof Function` branch is not modelled, because every value it meets is a string, a boolean or an object.
- Props.NormaliseProps: `Object.keys` puts integer-like keys first in numeric order. The model takes the keys in the order given, and takes them distinct.
- Symbols.Merged: the truthiness of a value stored under a name is an input. Which values are truthy is not modelled.
- `tree.propDefaultNodes[key]` is modelled as a map lookup. An inherited `Object.prototype` member is not found there.
- Script.StripCall: its own contract states only a length bound; what it removes is stated by `Script.StripCallRemovesFirst`, for the case where the name occurs.
- Symbols.FilterDeclared: computes the intended filter `Symbols.Kept`, not line 104 as written. The filter as written is `Symbols.KeptAsWritten`. The two differ only on an undeclared name inherited from `Object.prototype` (see "## Findings").
- Command.Conversion.FilterData: sets `result` to the intended filter, not line 104 as written, for the same reason.
- Command.ReturnedNames: uses the intended filter. `Command.ReturnedNamesAsWritten` is the list as written.
- Command.Start: its output is built with the intended filter. Its second `ensures` states that this equals the output as written whenever no name the template uses is an undeclared inherited member.
- Command.Tree: the `$emit` usage flag, the transformer output and the tables are given values. How `transformPath` computes them is not modelled.

## Findings

| source | as written | input that shows it | evidently intended | confidence | as-written member | corrected member |
|---|---|---|---|---|---|---|
| src/command/index.ts:98-104 | `totalData[key]` also finds the members every object inherits from `Object.prototype`, and these are truthy functions | a template `{{ constructor.name }}` with no computed property, method or ref: `constructor` survives and `return { constructor }` is generated | keep only the names the three tables declare | not executed | Symbols.InheritedNameSurvives | Symbols.Kept |
