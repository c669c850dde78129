# SumFlow sheet engine and sheet store, in Dafny

SumFlow is a notepad calculator. Each line of a sheet is a small expression: `Salary = 5000`,
`Tax = Total Income * Tax Rate`, `$200 in EUR`. The result of each line is shown beside it.
This project models two parts of it and proves what they guarantee.

**The sheet evaluator** (`evaluateSheet` and `formatValue`, src/utils/mathEngine.ts) goes over
the lines of a sheet once, and all lines share one scope.

- A blank line gets an empty result.
- Before any other line is evaluated, the scope is refreshed:
  - `prev` and `previous` are bound to the last value computed, unless that value is nullish;
  - `line1`, `line2`, … are bound to the values of the earlier lines that are not nullish.
- A line of the form `Name = expr` or `Name: expr` is an assignment.
  - Its display name may contain white space.
  - It is bound under a safe name, where each white-space run is replaced by `_`.
- The expression is rewritten before evaluation:
  - known display names become their safe names, longest first;
  - currency glyphs become three-letter codes (`$50` and `50$` become `50 USD`);
  - the word `of` becomes `*`;
  - ` as ` becomes ` to `.
- The rewritten expression goes to the mathematical evaluator.
  - An accepted line registers its assignment and becomes the last value.
  - A rejected line gets the result `Invalid expression`.

The model states the pass twice:

- as a specification: `Evaluator.Step` for one line, and `Evaluator.Run`, the fold of `Step` over the lines;
- as the imperative loop: `Evaluator.EvaluateSheet`.

The loop, and each of its inner loops, is proved to compute exactly the specification.
The properties are then proved of the specification:

- one result per line, each depending only on the lines above it;
- the exact shape of blank, rejected and accepted results;
- the names registered are exactly the accepted assignments;
- `line<N>` refers to line N;
- `prev` refers to the most recent value that is not nullish;
- what each textual rewrite does.

The code has one behaviour that a careful reader might not expect: the refresh of `prev`, `previous` and `line<N>` happens before the `try`, so a line the evaluator rejects still leaves those bindings in the shared scope. Only the name map and the last value stay as they were. `Evaluator.Evaluated` models this, and `EvaluatorFacts.RejectedLine` states it.

**The sheet store** (src/store/useSheetStore.ts) holds:

- the sheets;
- the active sheet;
- per-sheet undo/redo stacks, where the undo stack keeps at most 50 entries;
- the theme.

Each action is a function from the old state to the new one. The properties proved for each action are:

- what it changes;
- when it does nothing;
- that undo and redo invert each other;
- that the bound on the history holds after any sequence of actions;
- that migrating legacy `lines` arrays keeps the lines.

Files:

| file | module | contents |
|---|---|---|
| wrappers.dfy | Wrappers | `Option` |
| text.dfy | Text | character classes, `trim`, decimal numerals, `join`/`split` |
| regex.dfy | Regex | the global regular-expression replacements the evaluator uses, matched by hand |
| assignment.dfy | Assignments | the assignment pattern, display names, safe names, escaping |
| rewriting.dfy | Rewriting | the sort of known names and the rewrite pipeline |
| values.dfy | Values | values, scopes and `formatValue` |
| evaluator.dfy | Evaluator | the pass: specification and loop |
| evaluator_facts.dfy | EvaluatorFacts | properties of the pass |
| sheet_store.dfy | SheetStore | the store state and its actions |
| sheet_store_facts.dfy | SheetStoreFacts | properties of the actions |

## Model

| member | source | states |
|---|---|---|
| Text.Trim | src/utils/mathEngine.ts:87-88 | `line.trim()` is the text between the leading and the trailing white space. It neither starts nor ends with white space, and it is empty exactly when the line is all white space |
| Text.NatToString | src/utils/mathEngine.ts:103 | the numeral in `line${idx + 1}` is a non-empty run of decimal digits, and it is one digit exactly below 10 |
| Text.NatToStringInjective | src/utils/mathEngine.ts:103 | distinct line numbers give distinct numerals |
| Text.Split | src/components/SheetEditor.tsx:17 | splitting at a separator gives at least one part, and no part holds the separator |
| Text.SplitJoin | src/store/useSheetStore.ts:228 | joining lines with `'\n'` and splitting the result at line breaks gives back the lines, when there is one or more and none holds a line break |
| Regex.MatchAt | src/utils/mathEngine.ts:117-171 | a match of any of the evaluator's patterns starts at its position, is non-empty and ends within the text |
| Regex.ReplaceChars | src/utils/mathEngine.ts:117-171 | every character of a replaced text comes from the subject or from the replacement the pattern inserts |
| Regex.ReplaceNoMatch | src/utils/mathEngine.ts:117-171 | a pattern that matches nowhere leaves the text unchanged |
| Regex.OnlyWholeWordsReplaced | src/utils/mathEngine.ts:128-129 | `\bWORD\b` changes nothing in a text in which the word never occurs between two word boundaries |
| Regex.ReplaceWordBySelf | src/utils/mathEngine.ts:128-129 | replacing a word by itself changes nothing |
| Regex.SymbolRemoved | src/utils/mathEngine.ts:163-164 | after the bare-glyph replacement no occurrence of the glyph is left, when its code does not contain it |
| Regex.SpaceRunsRemoved | src/utils/mathEngine.ts:117 | replacing each white-space run by a text without white space leaves no white space |
| Regex.CurrencyMatchHasSymbol | src/utils/mathEngine.ts:154-164 | a match of any of the three currency patterns holds the currency glyph within the text it spans |
| Regex.CurrencyAbsent | src/utils/mathEngine.ts:154-164 | a currency rewrite of a text without its glyph is the identity |
| Regex.WholeWordInsideWord | src/utils/mathEngine.ts:128-129 | within a single run of word characters, a whole-word pattern replaces the complete run when it equals the word, and nothing otherwise |
| Regex.WholeWordSplit | src/utils/mathEngine.ts:128-129 | a whole-word rewrite works word by word: the text on either side of a non-word character is rewritten independently |
| Regex.SpacedWordBetween | src/utils/mathEngine.ts:171 | `X  WORD  Y`, with white space around WORD (any case) and none in X or Y, becomes `X` + replacement + `Y` |
| Assignments.MatchAssignment | src/utils/mathEngine.ts:108 | the two capture groups of a match are a prefix and a suffix of the line, and they are shorter than the line together |
| Assignments.MatchAssignmentIsPattern | src/utils/mathEngine.ts:108 | the match succeeds exactly when the line is in the language of `^([a-zA-Z_][a-zA-Z0-9_\s]*)\s*[:=]\s*(.*)$`. Its groups are the leftmost-greedy ones: the first group ends at the operator of every way of matching, and the second starts no earlier |
| Assignments.SplitIsGreedy | src/utils/mathEngine.ts:108 | every way of matching puts the operator where the greedy first group stops and ends the white space after it no later than the greedy run |
| Assignments.DisplayNameShape | src/utils/mathEngine.ts:115 | the trimmed first group is a display name and is the first group without its trailing white space. A display name starts like an identifier, holds name characters only and ends in a word character |
| Assignments.SafeNameShape | src/utils/mathEngine.ts:117 | the safe name of a display name is a non-empty run of word characters |
| Assignments.SafeNameOfWord | src/utils/mathEngine.ts:117 | a name without white space is its own safe name |
| Assignments.Escape | src/utils/mathEngine.ts:127 | escaping never shortens a text |
| Assignments.EscapeNameIsIdentity | src/utils/mathEngine.ts:127-128 | a display name holds no regex special character, so escaping leaves it unchanged and `\bNAME\b` matches it literally |
| Assignments.EscapeChangesSpecial | src/utils/mathEngine.ts:127 | a text with a special character is lengthened by escaping |
| Rewriting.InsertByLengthPermutes | src/utils/mathEngine.ts:123 | inserting into the sorted list adds exactly that element |
| Rewriting.InsertByLengthOrdered | src/utils/mathEngine.ts:123 | inserting into a longest-first list keeps it longest-first |
| Rewriting.SortByLength | src/utils/mathEngine.ts:123 | the known names, sorted by `b.length - a.length`, are longest first and a permutation of the keys |
| Rewriting.SortByLengthStable | src/utils/mathEngine.ts:123 | the sort is stable: names of equal length keep their registration order |
| Rewriting.SubstituteNamesAbsent | src/utils/mathEngine.ts:124-130 | an expression in which no known name occurs as a whole word is unchanged by the name loop |
| Rewriting.NameReplaced | src/utils/mathEngine.ts:127-129 | an occurrence of a display name with no letter, digit, `_` or white space on either side is replaced by the replacement, and the text before and after it is rewritten as if on its own |
| Rewriting.CodesAvoidSymbols | src/utils/mathEngine.ts:65-74 | no code of the currency table contains a glyph of the table, and no glyph is a blank |
| Rewriting.CurrencySymbolsRemoved | src/utils/mathEngine.ts:147-165 | after the loop has handled an entry of the table, the expression holds no glyph of that entry |
| Rewriting.ConvertCurrenciesAbsent | src/utils/mathEngine.ts:147-165 | entries whose glyph does not occur change nothing |
| Rewriting.PrefixSymbolMatch | src/utils/mathEngine.ts:154-155 | a glyph, optional white space and a number become the number, a blank and the code |
| Rewriting.SuffixSymbolMatch | src/utils/mathEngine.ts:158-159 | a number, optional white space and a glyph become the number, a blank and the code |
| Rewriting.SymbolAtEnd | src/utils/mathEngine.ts:163-164 | a glyph at the end of a text without it becomes the code |
| Rewriting.NumberlessUntouched | src/utils/mathEngine.ts:154-159 | the prefix and suffix patterns change nothing in a text without digits or dots |
| Rewriting.DollarPrefix | src/utils/mathEngine.ts:147-165 | through the whole currency loop, `$50` and `$ 50` become `50 USD` |
| Rewriting.DollarSuffix | src/utils/mathEngine.ts:147-165 | through the whole currency loop, `50$` and `50 $` become `50 USD` |
| Rewriting.DollarStandalone | src/utils/mathEngine.ts:161-164 | a `$` with no number beside it, as in `Price in $`, becomes `USD` |
| Rewriting.OfBecomesTimes | src/utils/mathEngine.ts:168 | the word `of`, in any case, between two non-word characters becomes `*`, and the text around it is rewritten on its own |
| Rewriting.AsBecomesTo | src/utils/mathEngine.ts:171 | `as`, in any case, with white space on both sides becomes ` to `, and that white space is consumed |
| Rewriting.NormalizedHasNoCurrency | src/utils/mathEngine.ts:121-171 | no currency glyph of the table survives the whole rewrite of an expression |
| Values.FormatValue | src/utils/mathEngine.ts:37-62 | nullish values render as the empty text. Any other value renders as what its renderer (unit, number, date, `toString`) produces, and as `String(value)` when that renderer throws |
| Evaluator.KnownNames | src/utils/mathEngine.ts:123 | the sorted known names are a permutation of the registered keys |
| Evaluator.KnownNamesSubstitutable | src/utils/mathEngine.ts:123-130 | every known name is a registered display name, so the name loop can always build its pattern |
| Evaluator.RegisterKeepsValid | src/utils/mathEngine.ts:179 | registering a display name under its own safe name keeps the name map valid: keys listed once in insertion order, each a display name mapped to its safe name |
| Evaluator.Accept | src/utils/mathEngine.ts:177-191 | an accepted line keeps the name map valid |
| Evaluator.Evaluated | src/utils/mathEngine.ts:173-198 | evaluating a line keeps the name map valid, adds exactly one result and keeps the earlier results |
| Evaluator.Step | src/utils/mathEngine.ts:86-199 | one line keeps the name map valid, adds exactly one result and keeps the earlier ones |
| Evaluator.Run | src/utils/mathEngine.ts:76-203 | the pass over the lines keeps the name map valid and yields one result per line |
| Evaluator.BindReferences | src/utils/mathEngine.ts:95-105 | the loop over the earlier results leaves exactly the scope of the specification: `prev`/`previous` refreshed from a non-nullish last value, then each non-nullish result bound under its `line<N>` |
| Evaluator.SubstituteKnownNames | src/utils/mathEngine.ts:123-130 | the loop over the sorted known names computes the specified substitution |
| Evaluator.ConvertCurrencySymbols | src/utils/mathEngine.ts:147-165 | the loop over the currency table computes the specified conversion, entry by entry in table order |
| Evaluator.Rewrite | src/utils/mathEngine.ts:121-171 | names, currency, `of` and `as`, in that order, as specified |
| Evaluator.EvaluateLine | src/utils/mathEngine.ts:93-199 | the loop body for a non-blank line changes the pass state exactly as `Step` specifies |
| Evaluator.EvaluateSheet | src/utils/mathEngine.ts:76-203 | `evaluateSheet` returns exactly the results of the specified pass |
| EvaluatorFacts.ResultsPrefix | src/utils/mathEngine.ts:84-203 | one result per line, and the results for the first n lines are the first n results: a line's result depends only on it and the lines above |
| EvaluatorFacts.ResultOfLine | src/utils/mathEngine.ts:86-199 | the result of line i is what one step adds for it after the lines above |
| EvaluatorFacts.BlankLine | src/utils/mathEngine.ts:87-91 | a blank line yields the result with value null, empty formatting, no error and no assignment. Scope, names and last value are unchanged |
| EvaluatorFacts.RejectedLine | src/utils/mathEngine.ts:192-198 | a rejected line yields `Invalid expression` with value null and no assignment. Names and last value are unchanged, and the scope keeps the refreshed `prev`/`line<N>` bindings |
| EvaluatorFacts.ErrorIffRejected | src/utils/mathEngine.ts:185-198 | a line's result has an error exactly when the evaluator rejected it |
| EvaluatorFacts.AcceptedLine | src/utils/mathEngine.ts:183-191 | an accepted line yields its value, its formatting, its display name and a snapshot of the scope after the line. Its value becomes the last value |
| EvaluatorFacts.IsAssignmentIff | src/utils/mathEngine.ts:108-198 | `isAssignment` holds exactly for lines that match the assignment pattern and are accepted |
| EvaluatorFacts.AcceptedAssignment | src/utils/mathEngine.ts:108-180 | an accepted assignment evaluates its right-hand group. It registers the trimmed left group under its safe name, which has no white space, and binds the safe name to the value. A new name goes after the ones already registered |
| EvaluatorFacts.NoAssignmentNoName | src/utils/mathEngine.ts:110-180 | a line that is no assignment registers nothing and binds no name |
| EvaluatorFacts.StepExtendsNames | src/utils/mathEngine.ts:179 | registered names are never dropped, and each keeps its safe name |
| EvaluatorFacts.StepRegisters | src/utils/mathEngine.ts:177-189 | a line newly registers a name exactly when it is an accepted assignment of that name |
| EvaluatorFacts.RegisteredNames | src/utils/mathEngine.ts:123-180 | the names the next line's rewrite knows are exactly the display names of the accepted assignments so far |
| EvaluatorFacts.LineKeyInjective | src/utils/mathEngine.ts:103 | distinct lines have distinct `line<N>` keys |
| EvaluatorFacts.LineRefsBound | src/utils/mathEngine.ts:101-105 | after the loop over the results, each non-nullish result is bound under its own `line<N>` |
| EvaluatorFacts.LineRefsKeep | src/utils/mathEngine.ts:101-105 | the loop over the results touches no key that does not start with `line` |
| EvaluatorFacts.LineRefBinding | src/utils/mathEngine.ts:101-105 | every earlier line with a non-nullish value is visible to the next line as `line<N>` with that value |
| EvaluatorFacts.LastValue | src/utils/mathEngine.ts:95-183 | the most recent non-nullish value of the results: absent exactly when all are nullish, and otherwise a value with only nullish results after it |
| EvaluatorFacts.PrevInLineScope | src/utils/mathEngine.ts:95-98 | under the invariant, the scope a line is evaluated in binds `prev` and `previous` to the most recent non-nullish value, and binds neither before there is one |
| EvaluatorFacts.StepKeepsPrevInvariant | src/utils/mathEngine.ts:86-199 | each line keeps the relation between `prev`/`previous`, the last value and the results |
| EvaluatorFacts.RunKeepsPrevInvariant | src/utils/mathEngine.ts:76-203 | the relation holds after any lines |
| EvaluatorFacts.PrevBinding | src/utils/mathEngine.ts:82-183 | unless an assignment took the name `prev` or `previous`, the next line sees both bound to the most recent non-nullish value, and neither before there is one |
| SheetStore.Initial | src/store/useSheetStore.ts:72-82 | a fresh store holds only the welcome sheet, which is active, with no history and the dark theme |
| SheetStore.Find | src/store/useSheetStore.ts:149 | `find` returns the first sheet with the id, and nothing exactly when no sheet has it |
| SheetStore.Without | src/store/useSheetStore.ts:122 | `filter` keeps exactly the sheets with another id. It keeps everything when no sheet has the id, it is empty exactly when every sheet has the id, and otherwise it starts with the first sheet with another id |
| SheetStoreFacts.WithoutOne | src/store/useSheetStore.ts:122 | `filter` keeps a single sheet exactly when its id is another one |
| SheetStoreFacts.WithoutAppend | src/store/useSheetStore.ts:122 | filtering a concatenation is the concatenation of the filtered parts, so the kept sheets stay in their order and each appears once |
| SheetStore.TakeLast | src/store/useSheetStore.ts:156 | `slice(-50)` keeps the last 50 entries, or all of them when there are fewer |
| SheetStore.ToggleTheme | src/store/useSheetStore.ts:84 | the theme changes and nothing else does |
| SheetStore.SetActiveSheet | src/store/useSheetStore.ts:138 | the active id becomes the given one, unchecked, and nothing else changes |
| SheetStore.DeleteSheet | src/store/useSheetStore.ts:118-136 | with one sheet or none, the state is unchanged. Otherwise it throws exactly when the active sheet is deleted and no sheet remains |
| SheetStore.Migrate | src/store/useSheetStore.ts:224-233 | id, name and time stamp are kept. A legacy `lines` array is dropped, and any other sheet is left as it is |
| SheetStoreFacts.ToggleThemeTwice | src/store/useSheetStore.ts:84 | toggling twice gives the state back, and one toggle swaps dark and light |
| SheetStoreFacts.AddSheetAppends | src/store/useSheetStore.ts:86-100 | one empty `New Sheet` is appended after the unchanged sheets and becomes active. A fresh id keeps ids unique, and `find` locates it |
| SheetStoreFacts.AddWelcomeSheetAppends | src/store/useSheetStore.ts:102-116 | one welcome sheet is appended after the unchanged sheets and becomes active. A fresh id keeps ids unique |
| SheetStoreFacts.DeleteSheetEffect | src/store/useSheetStore.ts:118-136 | the sheets with the id go and the others stay in order. The active id is kept unless it was deleted, in which case the first remaining sheet becomes active. The deleted id's history goes and no other history changes |
| SheetStoreFacts.DeleteUnknownSheet | src/store/useSheetStore.ts:118-136 | deleting an id that no sheet has and that is not active changes only that id's history |
| SheetStoreFacts.DeleteSheetUnique | src/store/useSheetStore.ts:118-136 | with unique ids, deleting from two or more sheets never throws and removes at most one sheet. It keeps an active id that named a sheet pointing at a sheet |
| SheetStoreFacts.WithoutUnique | src/store/useSheetStore.ts:122 | filtering unique ids drops exactly the sheet with the id, if any, and keeps ids unique |
| SheetStoreFacts.UpdateSheetNameEffect | src/store/useSheetStore.ts:140-145 | renaming changes only the name and time stamp of the sheets with the id. Count and order of the sheets, active id, history and theme are unchanged |
| SheetStoreFacts.UpdateSheetNameUnknown | src/store/useSheetStore.ts:140-145 | renaming an id no sheet has changes nothing |
| SheetStoreFacts.ReviseEffect | src/store/useSheetStore.ts:158-218 | the common step of edit, undo and redo: the sheets with the id get the new content and the id gets the new history. Nothing else changes |
| SheetStoreFacts.UpdateSheetContentUnknown | src/store/useSheetStore.ts:149-150 | editing the content of an id no sheet has changes nothing |
| SheetStoreFacts.UpdateSheetContentEffect | src/store/useSheetStore.ts:147-170 | editing gives the sheets with the id the new content. The old content of the first of them becomes the newest undo entry, within the last 50 entries of the stack, and the redo stack is emptied |
| SheetStoreFacts.UndoNothing | src/store/useSheetStore.ts:172-181 | undo does nothing without history, with an empty undo stack, or without a sheet with the active id |
| SheetStoreFacts.RedoNothing | src/store/useSheetStore.ts:197-206 | redo does nothing without history, with an empty redo stack, or without a sheet with the active id |
| SheetStoreFacts.UndoEffect | src/store/useSheetStore.ts:172-195 | undo makes the newest undo entry the content, drops it from the undo stack and pushes the old content on the front of the redo stack |
| SheetStoreFacts.RedoEffect | src/store/useSheetStore.ts:197-220 | redo makes the front of the redo stack the content, drops it and appends the old content to the undo stack |
| SheetStoreFacts.UndoThenRedo | src/store/useSheetStore.ts:172-220 | undo followed by redo restores contents, both stacks, active id and theme exactly, apart from time stamps, when the sheets with the active id agree on content |
| SheetStoreFacts.RedoThenUndo | src/store/useSheetStore.ts:172-220 | redo followed by undo restores the state the same way |
| SheetStoreFacts.SameIdsFind | src/store/useSheetStore.ts:180-205 | edits that keep the ids keep which sheet `find` returns |
| SheetStoreFacts.UniqueIdsSameContent | src/store/useSheetStore.ts:86-116 | with unique ids the proviso of the round trips always holds |
| SheetStoreFacts.ImportSheetsEffect | src/store/useSheetStore.ts:222-240 | a non-array or empty import changes nothing. Otherwise the migrated sheets replace the old ones in order, the first becomes active and all history is cleared, and the theme stays |
| SheetStoreFacts.MigrateKeepsLines | src/store/useSheetStore.ts:225-231 | migrating a legacy sheet keeps its lines: splitting the new content at line breaks gives them back |
| SheetStoreFacts.RehydrateIdempotent | src/store/useSheetStore.ts:244-256 | rehydration leaves no legacy `lines` array, and rehydrating again changes nothing |
| SheetStoreFacts.UpdateSheetContentBounded | src/store/useSheetStore.ts:155-166 | editing keeps every sheet's undo and redo stacks within 50 entries together |
| SheetStoreFacts.UndoBounded | src/store/useSheetStore.ts:177-183 | undo moves one entry between the stacks, so the bound holds |
| SheetStoreFacts.RedoBounded | src/store/useSheetStore.ts:202-208 | redo moves one entry back, so the bound holds although redo does not cut the undo stack |
| SheetStoreFacts.ApplyBounded | src/store/useSheetStore.ts:84-256 | every action keeps the bound |
| SheetStoreFacts.ReplayBounded | src/store/useSheetStore.ts:69-260 | however the store is used from a fresh state, no sheet's stacks together ever exceed 50 entries |

## Left out

- **The mathematical library.**
  - Parsing, compiling and evaluating an expression is modelled as a parameter of the pass: `Env.eval` answers a value, or nothing when `compile` or `evaluate` throws.
  - Not modelled: the units and currencies it defines (src/utils/mathEngine.ts:1-26) and its exchange rates.
  - Not modelled: expressions that add to the scope themselves, such as `f(x) = …`, so the scope changes only as the pass itself changes it.
- **Value rendering.**
  - Rendering a unit, a number (`Intl.NumberFormat`) or a date, and `toString`, are parameters of `Values.FormatValue` that may throw.
  - `String(value)` is taken to be total.
  - Floating point, precision and locale are not modelled.
- **JavaScript object-key quirks.** The scope, the name map and the per-sheet history record (`state.history`) are Dafny maps. `Object.keys` insertion order is kept explicitly, as the list of registered names. Prototype keys such as `__proto__` or `constructor` are not modelled: in the source a sheet id `constructor` finds an inherited value in `state.history`, whose `past` is undefined, so `updateSheetContent` throws there; the model gives such an id an empty history like any other.
- **Case-insensitive matching.** `/i` is modelled by folding ASCII letters only. The patterns that use it (`of`, `as`) are ASCII.
- **Regular expressions and legacy lines.**
  - The regular expressions are matched by hand, one per pattern, not by a general engine.
  - The escaped currency glyph and the escaped variable name are matched literally. The escaping itself is proved to be the identity on display names. Of the eight glyphs only `$` is a special character, and its escaped form `\$` matches the glyph itself; the other seven are not special. The model matches each glyph literally.
  - Legacy `lines` whose items are not strings are not modelled; their items are taken to be texts.
- **Clock and id generator.** `Date.now()` and `uuidv4()` are parameters of the store actions. Uniqueness of generated ids is a hypothesis (`UniqueIds`) where a property needs it.
- **Persistence and UI.** zustand's persistence layer (local storage, serialisation, the store name) is not modelled, and neither are the React components. Rehydration is modelled as a function of the stored state.
- **A throwing `deleteSheet`.** It leaves the state unchanged in `SheetStoreFacts.Apply`, because the exception escapes `set`.
- SheetStoreFacts.UndoThenRedo: restores the sheets only apart from `lastModified`, which both actions set from the clock, and only when the sheets with the active id agree on their content. With unique ids they always do (`UniqueIdsSameContent`).
- SheetStoreFacts.RedoThenUndo: the same reservation as `UndoThenRedo`.
- EvaluatorFacts.PrevBinding: assumes no assignment has taken the safe name `prev` or `previous`. An assignment to those names overwrites the binding, and the refresh then depends on that value.
