# NOLOL converter core: line packing, stacks and splice-while-traversing

This project models two parts of the NOLOL-to-YOLOL converter of yodk and proves
properties of them in Dafny.

**The converter tail (`pkg/nolol/converter.go`).**
- The greedy line packer `mergeStatementElements` makes one left-to-right pass and glues each
  statement line onto the line before it whenever it may. A line may be glued onto the line before it only if it
  has no label and no `HasBOL` marker. Nothing is glued onto a line with `HasEOL`. The printed
  length must stay within the budget. The budget is 70 characters, or 66 when the program
  tracks time.
- The element-kind checks of `mergeNololElements`.
- The line-length estimate. It excludes a trailing newline and prints fixed-width
  placeholders for jumps and `line()` calls.
- The loop-id and macro-call stacks that `convertNodes` keeps.
- The 20-line ceiling of `Convert`.

**The traversal of the extended-language tree (`nolol/visitor.go`).**
- A node with a list of children works as follows:
  - it calls the visitor before its children, between them with the next child's index, and
    after them;
  - it lets each child traverse itself;
  - when a child answers with a replacement, it splices the replacement nodes into its own
    list and carries on after them.
- A constant declaration keeps only the first replacement node of its value.
- A `goto` statement is a leaf that is visited once.

Modules:
- `Wrappers`: `Option` and `Result`.
- `Nast`: the statement lines, elements, emitted lines and errors, the 20-line ceiling and
  decimal printing.
- `Packer`: `mergeStatementElements`, `mergeNololElements` and `getLengthOfLine`.
  - The packing the greedy pass produces is described declaratively by the ghost list
    `starts`: where each output line begins. The predicates `GreedySegment`, `Packing` and
    `Assembled` say what each output line is and why it ends where it does.
  - `MergeStatementElements` is the imperative pass. It is proved to produce that packing.
- `Visitor`: the nodes and their traversal methods.
  - The visitor and the children's own traversals are the environment `respond`. It gives
    the answer to a node's `n`-th call.
  - `AcceptSpec` is the whole traversal of a node with a list of children, as a function.
  - `ExtProgramm.Accept` and `ExecutableLine.Accept` run the source's index loop over the
    mutable list. They are proved to end in exactly the state, call sequence and outcome
    `AcceptSpec` gives. Lemmas describe that function call by call.
- `Converter`: the converter class with its stacks, the line budget and the tail of
  `Convert`.
  - What one visit does to the stacks is the function `Step`. What a sequence of visits
    does is `Replay`. Lemmas prove how the stacks pair up along a traversal.

## Model

| member | source | states |
|---|---|---|
| Packer.MergeStatementElements | pkg/nolol/converter.go:321-380 | On success, the output is the greedy packing of all input lines, and it keeps their statements and labels in order. On failure, the output is the packing of the lines before the offending line, then that line alone, and the error is "line too long" at that line's position |
| Packer.ExtendLine | pkg/nolol/converter.go:343-376 | The inner loop either stops with the greedy output line starting at `s` (after rolling back a rejected absorption), or reports that the line at `s` alone is over budget while another line follows |
| Packer.EndOfLineSegment | pkg/nolol/converter.go:337-341 | A line with `HasEOL` closes at once and becomes an output line of its own |
| Packer.TooLongStop | pkg/nolol/converter.go:343-352 | Stopping at an overlong line leaves the packing so far followed by that line, and the pass has failed there |
| Packer.PackingKeepsStatements | pkg/nolol/converter.go:326-376 | The output lines' statements, concatenated in order, are exactly the input lines' statements |
| Packer.PackingKeepsLabels | pkg/nolol/converter.go:326-335 | The non-empty labels of the output are exactly those of the input, in order: none is lost or duplicated |
| Packer.PackingRespectsBoundaries | pkg/nolol/converter.go:337-375 | A line with a label or `HasBOL` always starts an output line, and so does every line after a `HasEOL` line |
| Packer.PackingFitsBudget | pkg/nolol/converter.go:358-367 | Every output line that absorbed at least one following line prints within the budget |
| Packer.PackingIsUnique | pkg/nolol/converter.go:321-380 | The packing is determined by the input: two packings of the same lines are equal |
| Packer.StopMeansNoPacking | pkg/nolol/converter.go:343-352 | When the pass stops at an overlong line, the whole input has no packing at all, so the "line too long" error and a successful packing exclude each other |
| Packer.MergeNololElements | pkg/nolol/converter.go:298-318 | Fails with "unconverted element" exactly when some element is not a statement line, naming the first such element. Otherwise it returns the packing of the lines, or the packer's "line too long" error |
| Packer.LengthOfLineExcludesNewline | pkg/nolol/converter.go:410-415 | The length of a line is the length of its printed text without one trailing newline |
| Packer.PlaceholderNotShorter | pkg/nolol/converter.go:390-404 | In a program of at most 20 lines, a resolved jump or line number is never longer than the placeholder the estimate prints for it |
| Visitor.Patch | nolol/visitor.go:71-83 | Patching fails exactly when a replacement node has the wrong kind. Otherwise the result has length old + k - 1, keeps the elements before and after the position, and has the replacement nodes in between |
| Visitor.PatchPlacesReplacement | nolol/visitor.go:74-80 | The patched list holds each replacement node, in order, from the patched position on |
| Visitor.PatchExtLines | nolol/visitor.go:71-83 | The slice built append by append is the patched list, or the panic on the first node of the wrong kind |
| Visitor.AcceptSpec | nolol/visitor.go:10-13 | Every traversal starts with the pre-visit |
| Visitor.AcceptCallOrder | nolol/visitor.go:9-29 | The pre-visit comes first and only there. Each child's traversal comes right after the index visit naming its position in the patched list. Each index visit except a last one is followed by a child's traversal. The post-visit comes only last |
| Visitor.AcceptVisitsOriginalChildren | nolol/visitor.go:14-24 | Only original children are traversed, each at most once and in order, so replacement nodes are never visited. All of them are traversed when the node is post-visited |
| Visitor.AcceptStopsAtFirstRefusal | nolol/visitor.go:10-29 | Every call but the last goes on. The node is post-visited only if all calls went on. The traversal returns the answer of its last call, or panics when that is a replacement it cannot splice |
| Visitor.AcceptChildren | nolol/visitor.go:14-27 | The children afterwards are what the calls before the last one left (each child that answered nothing, or its replacement), followed by the original children from the first one the traversal did not get past |
| Visitor.ExtProgramm.Accept | nolol/visitor.go:9-30 | The index loop over the mutable list of lines ends with the lines, the calls and the outcome of `AcceptSpec` |
| Visitor.ExecutableLine.Accept | nolol/visitor.go:32-53 | The same as for a program, over the statements of the line |
| Visitor.ConstKeepsFirstReplacement | nolol/visitor.go:60-64 | When the value asks to be replaced, only the first replacement node counts, and it becomes the new value |
| Visitor.ConstDeclaration.Accept | nolol/visitor.go:55-69 | Ends with the value, calls and outcome of `ConstAcceptSpec`, and leaves the name alone |
| Visitor.GoToLabelAccept | nolol/visitor.go:5-7 | A `goto` statement makes exactly one call, a single visit, and returns its answer |
| Nast.DecimalRoundTrip | pkg/nolol/converter.go:220 | The decimal digits of a line number denote that number, so distinct numbers print differently |
| Converter.MacroCallNameIdentifies | pkg/nolol/converter.go:220 | Two macro insertions stack the same name only when they name the same macro at the same line: the text after the last colon is the line number |
| Converter.StepLevels | pkg/nolol/converter.go:239-248 | One visit panics exactly when it unstacks an empty stack. Otherwise the stack depths move by one up or down |
| Converter.StepKeepsValid | pkg/nolol/converter.go:240-243 | Loop ids stay between 1 and the counter and strictly increase inwards. A loop's pre-visit stacks a fresh id, larger than every id below it |
| Converter.ReplayDepths | pkg/nolol/converter.go:218-262 | A sequence of visits panics exactly when it unstacks more than is stacked at that point. Otherwise each stack's depth is the start depth plus entries minus exits |
| Converter.ReplayKeepsValid | pkg/nolol/converter.go:239-248 | Any sequence of visits keeps the loop ids valid and never sets the counter back |
| Converter.ReplayKeepsOuter | pkg/nolol/converter.go:239-262 | Visits that never unstack below a given depth leave the stack entries below it untouched |
| Converter.BalancedRestores | pkg/nolol/converter.go:239-262 | A balanced sequence of visits never panics and leaves both stacks as they were |
| Converter.LoopBodySeesItsOwnId | pkg/nolol/converter.go:239-248 | While a loop's body is lowered, the innermost loop id is the one its pre-visit issued. Its post-visit restores the stack |
| Converter.MacroBodySeesItsCall | pkg/nolol/converter.go:218-222 | While an inserted macro body is lowered, the innermost macro name is that insertion's. The `macroleft` trigger restores the stack |
| Converter.Converter.MaxLineLength | pkg/nolol/converter.go:194-199 | The budget is 70 characters, or exactly 66 when the program tracks time |
| Converter.Converter.Visit | pkg/nolol/converter.go:218-262 | The stacks change as `Step` says, and the visit panics when that unstacks an empty stack. The `macroleft` trigger answers an empty replacement. A loop's post-visit, a macro's pre-visit and other kinds answer their conversion helper's result. Every other visit that returns answers `Nil` |
| Converter.Converter.Convert | pkg/nolol/converter.go:94-192 | A complete case split on the outcome. An error of the earlier passes is returned. An element that is not a statement line fails with "unconverted element", naming the first such element. Otherwise the packer runs with the converter's budget: when it stops at an overlong line, the error is "line too long" at that line's position; when it packs every line, the final passes run on that packing and their error is returned, a non-line element among their results panics, and otherwise the emitted lines (each with its line's position and statements) are returned, with the "too large" error exactly when there are more than 20 of them |

## Left out

- The printer itself is not part of this model. A line's printed text is the parameter `printer`, and no additivity over statements is assumed.
  - `Packer.PlaceholderText` records which placeholder texts the estimate prints.
  - The choice between spaceless and compact mode is the `useSpaces` flag there.
- The optimizers (static expressions, boolean inversion, variable names) are outside this model. This includes reserving the time-tracking variable name.
- File loading and parsing (`ConvertFile`, `ConvertFileEx`) are I/O and an external parser, and are left out.
- These passes are not modelled: lowering of the individual node kinds, the final goto, goto chains, unused labels, duplicate gotos, jump labels, `line()` calls, the line counter and the removal of a final goto.
  - `Converter.Convert` receives their combined results as the parameters `lowered`, `finish` and `trimFinal`.
  - `usesTimeTracking(prog)` is the parameter `timeTracking`.
- `Converter.Converter.Visit`: the conversion helpers called from `convertNodes` are the parameter `converted`. A node kind that does not touch the stacks is `OtherNode`.
- `Converter.Converter.Visit`: the traversal that drives `convertNodes` is not run inside `Convert`. The stack discipline is proved over sequences of visits (`Replay`), not over a concrete tree.
- `Packer.MergeNololElements` also stands for `mergeNololNestableElements` (`pkg/nolol/converter.go:275-295`). That function differs only in the element interface type.
- `Visitor.PatchExtLines` also stands for `parser.PatchStatements`. That function is not part of this model, and it is taken to have the same contract.
- The traversal methods of the children are not modelled. Their answers come from `respond`, so in-place changes a child makes to its own fields are not captured. Neither is aliasing between nodes.
- The error's end position (`current.End()`) and the too-large error's span are not carried by `LineTooLong`. The span is kept only as the constants `Nast.TooLargeStart`/`Nast.TooLargeEnd`.
- The "line too long" check follows the code, not the prose description.
  - It fires only when another line follows and the current line has no `HasEOL`.
  - A last line or a `HasEOL` line that is over budget is emitted without an error (`Packer.TooLongAt`).
  - Its message always says 70 characters, even when the budget is 66.
- An output line takes `HasEOL` from its first input line and has `HasBOL` false, as the code builds it.
- Go's panics (slice bounds, failed type assertions) are modelled as explicit `Panic` outcomes.
- Packer.LengthOfLine: the printed text is the parameter `printer` as a sequence of characters, while Go's `len` counts the UTF-8 bytes of the string. The two agree on ASCII programs only.
- Packer.LengthOfLine: an error of the printer, on which `getLengthOfLine` panics (`pkg/nolol/converter.go:405-408`), is not modelled; `printer` always returns a text.
