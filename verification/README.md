# RuleWeave in Dafny

RuleWeave is a browser tool for writing business rules. A user describes a
rule in natural language, a language model turns it into a rule expression
such as `if transaction.amount > 1000 then flag_transaction`, and the user
saves named rules with a version history. This project models the
deterministic logic around those model calls and proves properties of it:

- **The heuristic auto-fixer** (`RuleFixer`, worked inputs in `FixerExamples`).
  `autoFixRule` applies five textual repairs in a fixed order: close
  parentheses, close a double quote, close a single quote, insert ` then `,
  and fill in a missing operand. Each repair records an explanation and
  lowers an integer confidence score.
- **The versioned rule store** (`RuleStorage`). It covers `getAllRules`,
  `getRuleById`, `saveRule`, `deleteRule` and `revertToVersion` over the
  sequence of rules the browser storage holds. Reverting appends a history
  entry; it never rewinds.
- **The editor page handlers** (`EditorPage`). Suggestion insertion, inline
  completion, fix and apply-fix, save, load, delete, revert, new rule, and
  the results of the wizard, visual builder and template gallery are each
  modelled as one transition over a record of editor state.
- **The translation lookup `t`** (`Translations`). It resolves a dotted path
  with a language fallback, then an English fallback, then echoes the path,
  and finally substitutes `{key}` placeholders.
- **The visual rule builder** (`VisualBuilder`). It covers the canvas edits
  (add a value, drag in, reorder, remove, clear) and the serialiser that
  turns the canvas into a sentence and a code string. Codes are keyed on
  `id.split('_')[0]`.
- **The template gallery** (`TemplatesGallery`). It covers the constant
  template table, the search and category filter, grouping by category,
  selecting a template, and substituting the customised values.
- **The rule wizard** (`RuleWizard`): step gating, Next/Back/Reset, and the
  sentence the five choices compose.
- **The language drop-down** (`LanguageSelector`): keyboard handling with
  cyclic arrows, the fallback display entry, and clicks.
- **The contextual suggestion list** (`ContextualSuggestions`): when a
  request is made, what its reply does, and the keyboard cursor.
- **The inline completion** (`InlineSuggestions`): length tracking, the
  ordered pattern table, Tab acceptance and the hint condition.

`Strings` holds the JavaScript string operations the source relies on:
`includes`, `indexOf`, `lastIndexOf`, `startsWith`, `trim` (with the
ECMAScript white-space and line-terminator set), global literal `replace`,
`split`, `join` and decimal rendering. `Optional` holds `Option`.

Each JavaScript handler is one atomic step.

- The clock (`Date.now()` and `new Date()`) is the parameter `now`.
- `window.confirm` is a boolean input.
- `toLowerCase` is a function parameter `lower`.
- The numeric test `!isNaN(v) && !isNaN(parseFloat(v))` is a predicate
  parameter `isNumeric`.
- Replies of the suggestion service are inputs.

Two consequences of the code for the version history:

- `saveRule` keeps any `versions` array the caller passes, even `[]`
  (`src/utils/ruleStorage.js:43`). The page always passes
  `currentRule?.versions || []` (`src/pages/index.js:272`). So a rule first
  saved from the editor has an empty history, and its code is not yet
  recorded in any version (`EditorPage.FirstSaveHasEmptyHistory`).
- `saveRule` takes the caller's `createdAt`, or else the current time, on
  every save (`src/utils/ruleStorage.js:41`), and the page never passes one.
  So every save from the editor resets the creation time
  (`EditorPage.SaveResetsCreatedAt`).

## Model

| member | source | states |
|---|---|---|
| Strings.IndexOfIs | src/utils/ruleFixerUtils.js:68 | `indexOf` reports the first position where the pattern occurs |
| Strings.LastIndexOf | src/utils/ruleFixerUtils.js:39 | `lastIndexOf` reports -1 or a position where the pattern occurs |
| Strings.LastIndexOfLast | src/utils/ruleFixerUtils.js:39 | Nothing occurs after the position `lastIndexOf` reports |
| Strings.TrimStart | src/utils/ruleFixerUtils.js:69 | The leading part of `trim`: a suffix of the input that does not start with white space |
| Strings.TrimEnd | src/utils/ruleFixerUtils.js:69 | The trailing part of `trim`: a prefix of the input that does not end with white space |
| Strings.TrimKeepsCount | src/utils/ruleFixerUtils.js:69 | `trim` keeps the count of every character that is not white space |
| Strings.Split | src/utils/translations.js:240 | `split` gives at least one part, and no part holds the separator |
| Strings.JoinSplit | src/components/TemplatesGallery.js:254 | Joining the parts of a `split` with the separator gives back the input |
| Strings.ReplaceAllJoin | src/utils/translations.js:261-263 | A global replace rewrites every occurrence of the pattern, not only the first |
| RuleFixer.AutoFix | src/utils/ruleFixerUtils.js:10-97 | `wasFixed` holds exactly when some repair fired. With no repair the result is the original rule, the single explanation "No automatic fixes applied", confidence 0 and `wasFixed` false. Otherwise it is the repaired text, one explanation per repair in order, and 100 minus the penalties. There are 1 to 10 explanations, and the text has no unclosed `(` and even counts of both quote characters |
| RuleFixer.FixParens | src/utils/ruleFixerUtils.js:15-21 | With k more `(` than `)`, exactly k `)` are appended, "Added k missing closing parenthesis" is recorded and 5k points are deducted; otherwise nothing changes. Only the count of `)` changes |
| RuleFixer.FixQuote | src/utils/ruleFixerUtils.js:23-34 | An odd count of the quote character gets one more appended (5 points, "Added missing closing quote"), which makes it even. An even count changes nothing. Other characters keep their counts |
| RuleFixer.ThenPositionIsBeforeOr | src/utils/ruleFixerUtils.js:38-57 | No ` and ` follows the last `and`. ` then ` therefore goes right before the first ` or ` after the last `and`, or at the very end when no ` or ` follows |
| RuleFixer.FixThen | src/utils/ruleFixerUtils.js:36-62 | The step fires exactly when the rule contains `if` and `and` but not `then`. It splices ` then ` in at that position, records the explanation and deducts 10 points; all other text is kept |
| RuleFixer.FixThenInserts | src/utils/ruleFixerUtils.js:59 | After the step fires, the rule contains `then` |
| RuleFixer.StripConnective | src/utils/ruleFixerUtils.js:73 | Removing a leading `and`/`or`/`then` leaves a suffix of the text |
| RuleFixer.FixOperator | src/utils/ruleFixerUtils.js:67-77 | When the text after the first occurrence of the operator, trimmed, is empty or starts with `and`/`or`/`then`, the text is cut after the operator, ` 0 ` and the stripped tail are appended, and 15 points are deducted. Otherwise nothing changes |
| RuleFixer.FixOperators | src/utils/ruleFixerUtils.js:65-79 | The loop over the six operators adds at most one repair per operator |
| RuleFixer.FixOperatorsAppend | src/utils/ruleFixerUtils.js:65-79 | The operator loop keeps the earlier repairs and only appends operand repairs for operators of the table |
| RuleFixer.FixOperatorsNoop | src/utils/ruleFixerUtils.js:65-79 | When no operator lacks an operand the loop changes nothing |
| RuleFixer.RepairedAccounted | src/utils/ruleFixerUtils.js:12-79 | After the five steps, the explanations are exactly those of the repairs in order, and the confidence is 100 minus the sum of their penalties |
| RuleFixer.BalancedNoop | src/utils/ruleFixerUtils.js:15-34 | Text with closed parentheses and even quote counts passes the first three steps untouched |
| RuleFixer.NoRepair | src/utils/ruleFixerUtils.js:81-89 | When no step changed anything the result is the original rule, "No automatic fixes applied", 0, false |
| RuleFixer.SomeRepair | src/utils/ruleFixerUtils.js:91-96 | When some repair fired the result is the final text, explanations and score, with `wasFixed` true |
| RuleFixer.FixCountBound | src/utils/ruleFixerUtils.js:15-79 | At most ten repairs fire: one per balancing step, one `then`, one per operator |
| RuleFixer.FixedRuleBalanced | src/utils/ruleFixerUtils.js:15-34 | The fixed text never has more `(` than `)` or an odd count of either quote. With no repair, the input was already so |
| RuleFixer.RepairedKeepsStructural | src/utils/ruleFixerUtils.js:36-79 | The `then` and operand steps never add or remove parentheses or quotes |
| RuleFixer.FilledKeepsStructural | src/utils/ruleFixerUtils.js:72-74 | Filling an operand keeps the count of every parenthesis and quote |
| RuleFixer.InsertedThenKeepsStructural | src/utils/ruleFixerUtils.js:59 | Inserting ` then ` keeps the count of every parenthesis and quote |
| RuleFixer.ErrorsIgnored | src/utils/ruleFixerUtils.js:10 | The `errors` argument has no influence on the result |
| RuleFixer.ParensHead | src/utils/ruleFixerUtils.js:15-21 | When `(` outnumbers `)`, the parenthesis repair is the first one logged |
| RuleFixer.ParensPenaltyKept | src/utils/ruleFixerUtils.js:20 | The 5-per-parenthesis penalty stays part of the total deduction |
| RuleFixer.ConfidenceCanBeNegative | src/utils/ruleFixerUtils.js:13-20 | The score is not clamped: 21 or more unclosed `(` give a negative confidence |
| RuleFixer.ConfidenceNegativeExample | src/utils/ruleFixerUtils.js:16-20 | A rule of 21 or more `(` is reported with a negative confidence |
| RuleFixer.CountAsWritten | src/utils/ruleFixerUtils.js:102-104 | `new RegExp(char, 'g')` throws for `(` and `)` and counts `"` and `'` literally |
| RuleFixer.AutoFixAsWritten | src/utils/ruleFixerUtils.js:16 | As shipped, `autoFixRule` throws on every input at its first count |
| FixerExamples.NothingFires | src/utils/ruleFixerUtils.js:81-89 | A rule that passes all steps untouched comes back unfixed with confidence 0 |
| FixerExamples.DanglingOperatorExample | src/utils/ruleFixerUtils.js:64-79 | `amount > ` becomes `amount > 0 ` with one explanation and confidence 85 |
| FixerExamples.CompleteRuleExample | src/utils/ruleFixerUtils.js:81-89 | `amount > 100` is returned unchanged with "No automatic fixes applied" and confidence 0 |
| FixerExamples.FirstOccurrenceOnlyExample | src/utils/ruleFixerUtils.js:67-72 | In `a > 1 and b >` only the first `>` is examined, so nothing is fixed |
| FixerExamples.ThenDeletedExample | src/utils/ruleFixerUtils.js:37-79 | `if a and b >` gains ` then ` at the end, then the operand step strips that `then`. The result is `if a and b > 0 ` with two explanations and confidence 75 |
| RuleStorage.AllRules | src/utils/ruleStorage.js:18-25 | No window, or nothing stored, gives the empty list; otherwise the stored list |
| RuleStorage.FindIndex | src/utils/ruleStorage.js:47 | The first position holding the id, or -1 exactly when no rule carries it |
| RuleStorage.FindIndexIs | src/utils/ruleStorage.js:47 | A position holding the id with none before it is the one reported |
| RuleStorage.RuleById | src/utils/ruleStorage.js:28-31 | The first rule with the id, and null exactly when none carries it |
| RuleStorage.Assemble | src/utils/ruleStorage.js:38-44 | The id is the caller's, or else `rule_` followed by the clock (`MintedId`). `createdAt` is the caller's or now; `updatedAt` is now. `versions` are the caller's when given, even empty, else a single entry with the code |
| RuleStorage.UpdatedVersions | src/utils/ruleStorage.js:53-61 | Changed code appends exactly one entry with the new code to the stored history; unchanged code keeps the stored history |
| RuleStorage.SaveRule | src/utils/ruleStorage.js:34-74 | The saved rule carries the caller's id, or else the minted one. A rule already stored under that id is replaced in place: the length stays and the others are untouched. Otherwise the rule is appended at the end with the assembled history. The stored `createdAt` is never consulted |
| RuleStorage.Without | src/utils/ruleStorage.js:79 | The filter keeps exactly the rules without the id |
| RuleStorage.DeleteRule | src/utils/ruleStorage.js:77-82 | Every rule with the id is removed, and the call reports success even for an unknown id |
| RuleStorage.RevertToVersion | src/utils/ruleStorage.js:85-121 | Null exactly for an unknown id or an index naming no entry. Otherwise the code of that entry becomes the rule's code, and one entry marked as a revert from that index is appended in place |
| RuleStorage.SaveThenFind | src/utils/ruleStorage.js:34-74 | A saved rule is what a lookup of its id then finds |
| RuleStorage.SaveKeepsUniqueIds | src/utils/ruleStorage.js:46-68 | Saving keeps ids unique |
| RuleStorage.NewRuleKeepsCallerVersions | src/utils/ruleStorage.js:43 | A new rule keeps caller-supplied versions, even an empty list, and the store grows by one |
| RuleStorage.ChangedCodeGrowsHistory | src/utils/ruleStorage.js:54-58 | Changed code under a known id grows the history by exactly one entry, which holds the new code, and keeps the earlier entries |
| RuleStorage.UnchangedCodeKeepsHistory | src/utils/ruleStorage.js:59-61 | Unchanged code under a known id keeps the stored history and ignores the caller's |
| RuleStorage.CreatedAtIgnoresStore | src/utils/ruleStorage.js:41 | The creation time depends on the caller and the clock, never on the stored rule |
| RuleStorage.WithoutAppend | src/utils/ruleStorage.js:79 | Deleting distributes over concatenation, so the survivors keep their order |
| RuleStorage.WithoutAbsent | src/utils/ruleStorage.js:79 | Deleting an unknown id changes nothing |
| RuleStorage.DeleteKeepsUniqueIds | src/utils/ruleStorage.js:77-82 | Deleting keeps ids unique |
| RuleStorage.DeleteThenFind | src/utils/ruleStorage.js:77-82 | After a delete the id is not found, and a second delete changes nothing |
| RuleStorage.RevertThenFind | src/utils/ruleStorage.js:85-121 | A successful revert is what a later lookup finds |
| RuleStorage.RevertKeepsUniqueIds | src/utils/ruleStorage.js:118 | A revert rewrites one rule in place and keeps ids unique |
| RuleStorage.RevertToRevert | src/utils/ruleStorage.js:99-116 | Reverting to the entry a revert appended keeps the code and adds one more entry |
| RuleStorage.StorageRoundTrip | src/utils/ruleStorage.js:18-72 | What `saveRule` writes to storage is what the next `getAllRules` reads: the saved rule is found by its id, the store grows by at most one, and every rule with another id reads back at its old position. The first save into a window with nothing stored leaves a store holding just that rule |
| EditorPage.Before | src/pages/index.js:158 | `substring(0, i)` with `i` clamped to the length |
| EditorPage.After | src/pages/index.js:159 | `substring(i)` with `i` clamped to the length |
| EditorPage.SuggestionSelect | src/pages/index.js:153-171 | Without a text area nothing changes. Otherwise the text becomes the part before the cursor, the suggestion, a space, and the part after; the cursor moves by the suggestion's length plus 1 |
| EditorPage.SuggestionSelectUndo | src/pages/index.js:162-168 | The suggestion sits at the cursor, and cutting it and its space out restores the text |
| EditorPage.AcceptInline | src/pages/index.js:189-191 | The completion is appended to the text and nothing else changes |
| EditorPage.FixRule | src/pages/index.js:194-200 | A no-op without both a generated rule and a validation result; otherwise the fixer's result on them and an open dialog. This uses the corrected fixer (see Findings) |
| EditorPage.FixRuleAsWritten | src/pages/index.js:194-200 | As shipped, `autoFixRule` throws before the result is stored, so the page is left exactly as it was and the dialog never opens |
| EditorPage.ApplyFix | src/pages/index.js:203-206 | The fixed text becomes the generated rule and the dialog closes |
| EditorPage.SaveDraft | src/pages/index.js:267-273 | The saved draft carries the current rule's id and versions, or no id and an empty version list, and never a `createdAt` |
| EditorPage.Save | src/pages/index.js:253-284 | Refused with "No rule to save" or "Please enter a name for this rule" and no store change. Otherwise the store is written, the saved rule becomes current and the list shows the store |
| EditorPage.Load | src/pages/index.js:287-299 | A known id fills name, text and code, clears validation and returns to direct mode; an unknown id changes nothing |
| EditorPage.Delete | src/pages/index.js:302-318 | Unconfirmed, nothing changes. Confirmed, the id is deleted and the list refreshed; the editor is cleared only when the deleted rule is current |
| EditorPage.Revert | src/pages/index.js:321-335 | Needs a current rule and a confirmation. The page changes only when the store returns a rule, which becomes current with its code |
| EditorPage.NewRule | src/pages/index.js:338-348 | An empty editor in direct mode with the wizard, builder and history closed. The store, the error, the fix dialog, the gallery and the cursor are untouched |
| EditorPage.WizardRuleGenerated | src/pages/index.js:137-143 | The wizard's code and sentence are taken, the wizard closes, direct mode, validation cleared |
| EditorPage.VisualRuleGenerated | src/pages/index.js:146-150 | The builder's code and sentence are taken and validation cleared; the builder stays open |
| EditorPage.SelectTemplate | src/pages/index.js:371-379 | A chosen template fills name, text and code; the gallery closes either way |
| EditorPage.FirstSaveHasEmptyHistory | src/pages/index.js:267-275 | A rule first saved from the editor gets a fresh id, an empty history and the current time, and is appended to the store |
| EditorPage.SaveResetsCreatedAt | src/pages/index.js:267-273 | Every save from the editor sets the creation time to now |
| EditorPage.SaveThenLoad | src/pages/index.js:275-293 | Loading the rule just saved restores the same name, text and code |
| EditorPage.SaveKeepsStore | src/pages/index.js:275-279 | Saving keeps the shown list equal to the store and ids unique |
| EditorPage.DeleteKeepsStore | src/pages/index.js:303-307 | Deleting keeps the shown list equal to the store and ids unique |
| EditorPage.RevertKeepsStore | src/pages/index.js:325-332 | Reverting keeps the shown list equal to the store and ids unique |
| EditorPage.DeleteOtherKeepsEditor | src/pages/index.js:310-316 | Deleting a rule other than the current one leaves the editor untouched |
| EditorPage.RevertOutOfRange | src/pages/index.js:325-333 | A revert to an index naming no entry leaves the page as it was |
| EditorPage.FixThenApply | src/pages/index.js:194-206 | Fixing and then applying the proposal leaves a rule with no unclosed `(` and even quote counts. A fix that repaired nothing gives the rule back unchanged. The text and the store are untouched |
| EditorPage.TabAccepts | src/pages/index.js:189-191 | Whenever the completion hint is drawn, Tab extends the text by exactly the completion and leaves the rule and the store alone |
| EditorPage.WizardThenSave | src/pages/index.js:137-143 | A rule taken from the wizard and then saved is stored with the wizard's code and sentence, in direct mode with the wizard closed |
| EditorPage.VisualThenSave | src/pages/index.js:146-150 | A rule taken from the visual builder and then saved is stored with the builder's code and sentence; the builder and the mode stay as they were |
| EditorPage.TemplateFillsEditor | src/pages/index.js:371-379 | A freshly selected template with only number variables, taken as it is, fills the editor with its own name, sentence and code; the store and the current rule stay |
| EditorPage.NewRuleThenSave | src/pages/index.js:338-348 | After "new rule", a rule written and named afresh is saved under a freshly minted id and appended, so the rule loaded before is not overwritten |
| Translations.Child | src/utils/translations.js:244 | `value[key]` finds the field with that key in a section and nothing in a string |
| Translations.Lookup | src/utils/translations.js:244 | The entry of a field named `key` with no later field of that name, as an object literal keeps the last duplicate; none exactly when no field has that key |
| Translations.ResolveSnoc | src/utils/translations.js:243-244 | Resolving one more key takes one child of the shorter path's entry |
| Translations.ResolveMissing | src/utils/translations.js:246-253 | Once a prefix of the path misses, the whole path misses |
| Translations.LanguageTable | src/utils/translations.js:237 | `translations[lang] \|\| translations.en` |
| Translations.T | src/utils/translations.js:235-266 | The reference lookup: the string found in the chosen table, else the one found in English, each with placeholders substituted; the path itself when both miss |
| Translations.Translate | src/utils/translations.js:235-266 | The loop with its English restart and path echo computes the reference lookup `T` |
| Translations.UnknownLanguageIsEnglish | src/utils/translations.js:237 | An unknown language code resolves exactly as English |
| Translations.FoundInChosen | src/utils/translations.js:240-245 | A path found in the chosen table gives that string |
| Translations.SectionIsRendered | src/utils/translations.js:260 | A path ending at a section gives `[object Object]` rather than falling back |
| Translations.MissingFallsBackToEnglish | src/utils/translations.js:247-255 | A path missing in the chosen table is resolved from the root of the English table |
| Translations.MissingEverywhereEchoesPath | src/utils/translations.js:251-253 | A path missing in English too comes back verbatim |
| Translations.NoBraceUnchanged | src/utils/translations.js:259-263 | A string without `{` is unchanged by any placeholders |
| Translations.PlaceholderReplaced | src/utils/translations.js:261-263 | A `{key}` between brace-free text is replaced by its value |
| Translations.PlaceholderEverywhere | src/utils/translations.js:261-263 | The replacement is global: every `{key}` in brace-free text is replaced by its value |
| VisualBuilder.IndexOfId | src/components/VisualRuleBuilder.js:305 | The first position holding the id, or -1 exactly when none does |
| VisualBuilder.FindId | src/components/VisualRuleBuilder.js:315-319 | The first item with the id, or none exactly when none carries it |
| VisualBuilder.SpliceStart | src/components/VisualRuleBuilder.js:310 | `splice` counts a negative start from the end and clamps both ends |
| VisualBuilder.InsertAt | src/components/VisualRuleBuilder.js:310 | `splice(start, 0, x)` puts x at the normalised start and shifts the rest |
| VisualBuilder.RemoveAt | src/components/VisualRuleBuilder.js:309 | `splice(i, 1)` drops exactly the i-th item |
| VisualBuilder.AddValue | src/components/VisualRuleBuilder.js:284-296 | A blank input changes nothing; otherwise one VALUE component with the input is appended and the field is cleared |
| VisualBuilder.Copy | src/components/VisualRuleBuilder.js:324 | A dropped copy keeps kind, caption and value under the id `id_now` |
| VisualBuilder.Move | src/components/VisualRuleBuilder.js:305-310 | Reordering keeps the length |
| VisualBuilder.DragEndWith | src/components/VisualRuleBuilder.js:299-343 | A drop on itself does nothing. A canvas item dropped on another is moved. A palette item is inserted as a fresh copy at the target's index, or appended when there is no target. Anything else does nothing |
| VisualBuilder.RemoveItem | src/components/VisualRuleBuilder.js:346-348 | Exactly the items without the id remain |
| VisualBuilder.ClearCanvas | src/components/VisualRuleBuilder.js:351-355 | A confirmed clear of a non-empty canvas empties it; otherwise nothing changes |
| VisualBuilder.ClearedIsEmpty | src/components/VisualRuleBuilder.js:351-363 | A cleared canvas serialises to an empty sentence and empty code, clearing it again changes nothing, and an unconfirmed clear keeps the canvas |
| VisualBuilder.Words | src/components/VisualRuleBuilder.js:376-384 | Each component's word: subject and connector labels, `is ` plus a condition label, a value's raw value |
| VisualBuilder.Literal | src/components/VisualRuleBuilder.js:411-412 | A numeric value is emitted bare and any other in double quotes |
| VisualBuilder.Piece | src/components/VisualRuleBuilder.js:390-431 | A subject's code holds no underscore. A value's code starts with its literal and is exactly the literal unless a condition precedes it. A connector emits the JavaScript and, or and not operators, or nothing |
| VisualBuilder.Sentence | src/components/VisualRuleBuilder.js:367-387 | The sentence loop gives the words joined by single spaces |
| VisualBuilder.SentenceStep | src/components/VisualRuleBuilder.js:373 | The loop's next word is preceded by a space except for the first |
| VisualBuilder.Code | src/components/VisualRuleBuilder.js:390-431 | The code loop gives the concatenation of the components' pieces |
| VisualBuilder.Generate | src/components/VisualRuleBuilder.js:358-440 | An empty canvas gives an empty sentence and code; otherwise the joined words and the concatenated pieces |
| VisualBuilder.MovePermutes | src/components/VisualRuleBuilder.js:308-310 | Taking an item out and splicing it back in is a permutation |
| VisualBuilder.ReorderIsPermutation | src/components/VisualRuleBuilder.js:302-312 | Dragging a canvas item onto another keeps the same components and the same length |
| VisualBuilder.DropAddsOneCopy | src/components/VisualRuleBuilder.js:314-340 | A palette drop adds exactly one fresh copy, and taking it back out gives the canvas before |
| VisualBuilder.RemoveItemAppend | src/components/VisualRuleBuilder.js:347 | Removing distributes over concatenation, so the order of the rest is kept |
| VisualBuilder.RemoveItemAbsent | src/components/VisualRuleBuilder.js:347 | Removing an id no item carries changes nothing |
| VisualBuilder.AddThenRemove | src/components/VisualRuleBuilder.js:284-296 | Removing a value just added under a fresh id restores the canvas |
| VisualBuilder.KeyOfCopy | src/components/VisualRuleBuilder.js:393 | A copy's key is the palette item's key |
| VisualBuilder.KeyHasNoUnderscore | src/components/VisualRuleBuilder.js:393 | `split('_')[0]` holds no underscore |
| VisualBuilder.KeyBeforeUnderscore | src/components/VisualRuleBuilder.js:393 | An id's key is exactly the text before its first underscore |
| VisualBuilder.SilentConditions | src/components/VisualRuleBuilder.js:399-408 | Only the `contains` and `in` conditions emit code; the underscore-bearing ones emit nothing |
| VisualBuilder.TruncatedSubjects | src/components/VisualRuleBuilder.js:393-397 | `weekly_revenue`, `monthly_revenue` and `user.is_new` emit `weekly`, `monthly` and `user.is` |
| VisualBuilder.ContainsValueCloses | src/components/VisualRuleBuilder.js:415-419 | A value right after a `contains` condition is followed by `)` |
| TemplatesGallery.Filter | src/components/TemplatesGallery.js:110-116 | The filter never adds templates |
| TemplatesGallery.FilterKeeps | src/components/TemplatesGallery.js:110-116 | A template is shown exactly when its lower-cased name or description contains the lower-cased query and the tab is "all" or its category |
| TemplatesGallery.EmptySearchShowsAll | src/components/TemplatesGallery.js:110-116 | An empty search on the "all" tab shows the whole table in order |
| TemplatesGallery.MembersAdd | src/components/TemplatesGallery.js:119-125 | One `reduce` step appends the template to its own category only |
| TemplatesGallery.HeadingsAdd | src/components/TemplatesGallery.js:119-125 | One `reduce` step opens a heading only for a category not yet seen |
| TemplatesGallery.Grouping | src/components/TemplatesGallery.js:119-125 | Every heading lists at least one template and only templates of its own category; there are at most as many headings as templates, and at least one when there is a template |
| TemplatesGallery.GroupingPartitions | src/components/TemplatesGallery.js:119-125 | Each heading lists exactly that category's templates in their original order |
| TemplatesGallery.GroupingHeadings | src/components/TemplatesGallery.js:119-125 | The headings are the categories in order of first appearance, each once |
| TemplatesGallery.Select | src/components/TemplatesGallery.js:128-138 | Selecting records the template and keeps the search and tab |
| TemplatesGallery.DefaultsKeys | src/components/TemplatesGallery.js:132-135 | The initial values have exactly one key per variable name |
| TemplatesGallery.DefaultsHold | src/components/TemplatesGallery.js:132-135 | With distinct names each variable starts at its default |
| TemplatesGallery.SelectInitialises | src/components/TemplatesGallery.js:128-138 | Selecting initialises every variable's value to its default |
| TemplatesGallery.Change | src/components/TemplatesGallery.js:141-146 | One value is set and every other is kept |
| TemplatesGallery.ListFromInput | src/components/TemplatesGallery.js:252-255 | The list input always gives a list of at least one item |
| TemplatesGallery.Apply | src/components/TemplatesGallery.js:149-187 | Nothing without a selected template; otherwise the template's name with the substituted texts |
| TemplatesGallery.SubstituteSnoc | src/components/TemplatesGallery.js:156-177 | Variables act one after another, each on the result of the earlier ones |
| TemplatesGallery.Substitute | src/components/TemplatesGallery.js:156-177 | Number variables still at their defaults leave both texts unchanged |
| TemplatesGallery.NumberTemplateUnchanged | src/components/TemplatesGallery.js:156-177 | Applying a freshly selected number-only template gives back its own texts |
| TemplatesGallery.TableNumbersOnly | src/components/TemplatesGallery.js:14-101 | Every template of the table except the high-risk one has only number variables |
| TemplatesGallery.ListPatternQuoted | src/components/TemplatesGallery.js:166-167 | A list's search pattern starts with a double quote |
| TemplatesGallery.ListStepBrackets | src/components/TemplatesGallery.js:160-170 | A list variable at its default is searched for without brackets but replaced with them |
| TemplatesGallery.ListTemplateDoubleBrackets | src/components/TemplatesGallery.js:160-170 | A one-list-variable template applied with its default has its list wrapped in a second pair of brackets |
| TemplatesGallery.QuoteThree | src/components/TemplatesGallery.js:167 | Three items quote and join as `"a", "b", "c"` |
| TemplatesGallery.HighRiskDoubleBrackets | src/components/TemplatesGallery.js:53 | The high-risk template applied with its default reads `in [["Country1", "Country2", "Country3"]]` |
| TemplatesGallery.LaterVariableRewritesEarlier | src/components/TemplatesGallery.js:156-177 | With the duration changed to 10, the text "500" of the degradation template becomes "1000" |
| TemplatesGallery.DegradationValues | src/components/TemplatesGallery.js:141-146 | After that change, `responseTime` holds 500 and `duration` holds 10 |
| RuleWizard.Recompose | src/components/RuleWizard.js:30-42 | The sentence is recomposed exactly when type, subject, condition and value are all set; otherwise the wizard is unchanged. Only the sentence ever changes |
| RuleWizard.ActionIsPrefix | src/components/RuleWizard.js:34-38 | An action only adds `action ` in front of the sentence |
| RuleWizard.CanProceed | src/components/RuleWizard.js:240-250 | Steps 1 to 5 need their own choice, step 6 always may proceed, any other step may not |
| RuleWizard.Handle | src/components/RuleWizard.js:44-89 | Next advances one step exactly when it is enabled, Back goes back one exactly when it is shown, Reset restores the initial wizard, and a choice never changes the step |
| RuleWizard.Reset | src/components/RuleWizard.js:80-89 | Step 1 with every choice, the error and the sentence empty |
| RuleWizard.InitialConsistent | src/components/RuleWizard.js:80-89 | The starting wizard satisfies the invariant |
| RuleWizard.SetField | src/components/RuleWizard.js:103-195 | Setting one step's choice keeps the others |
| RuleWizard.ChoiceKeepsConsistent | src/components/RuleWizard.js:30-42 | Changing the current step's choice keeps the invariant |
| RuleWizard.MoveKeepsConsistent | src/components/RuleWizard.js:288-313 | Next and Back, offered only as the buttons allow, keep the invariant |
| RuleWizard.HandleKeepsConsistent | src/components/RuleWizard.js:288-313 | Every event keeps the step within 1..6, every earlier step's choice set, and the sentence fresh |
| RuleWizard.LastStepHasFullSentence | src/components/RuleWizard.js:34-35 | On step 6 the sentence starts with the action and lists all choices |
| RuleWizard.IncompleteKeepsSentence | src/components/RuleWizard.js:30-42 | A choice leaving the four incomplete keeps the previous sentence |
| LanguageSelector.FindIndex | src/components/LanguageSelector.js:54 | The first position of the code, or -1 exactly when it is not listed |
| LanguageSelector.CodesDistinct | src/components/LanguageSelector.js:4-14 | The nine language codes are distinct |
| LanguageSelector.FindOwnIndex | src/components/LanguageSelector.js:54 | In a list without repeats a code is found at its own position |
| LanguageSelector.ShownIn | src/components/LanguageSelector.js:21 | A listed code shows its own entry and an unknown code shows the first |
| LanguageSelector.Neighbour | src/components/LanguageSelector.js:55-57 | The arrow arithmetic always gives a valid index |
| LanguageSelector.NeighbourSteps | src/components/LanguageSelector.js:55-57 | From a listed index the arrows step by one and wrap at both ends |
| LanguageSelector.MoveSteps | src/components/LanguageSelector.js:52-59 | From a listed code, ArrowDown selects the next code and ArrowUp the previous, cyclically |
| LanguageSelector.MoveRoundTrip | src/components/LanguageSelector.js:52-59 | Down then up returns to a listed code |
| LanguageSelector.MoveFromUnknown | src/components/LanguageSelector.js:54-57 | From an unlisted code, down selects the first entry and up the second to last |
| LanguageSelector.OpenKeys | src/components/LanguageSelector.js:38-61 | An open menu stays open under every key but Escape, and an arrow always selects a listed language |
| LanguageSelector.KeyDownIn | src/components/LanguageSelector.js:38-61 | A key keeps the language or selects a listed one. While closed the language never changes. Escape closes an open menu without a change, and only the arrows change the language |
| LanguageSelector.Click | src/components/LanguageSelector.js:98-101 | A click reports its code and closes the menu |
| LanguageSelector.ClickShows | src/components/LanguageSelector.js:98-101 | After a click the menu is closed, the button shows the clicked language, and Escape then changes nothing |
| LanguageSelector.ClosedKeys | src/components/LanguageSelector.js:38-45 | While closed only Enter, Space or ArrowDown open the menu, and the language stays |
| LanguageSelector.EscapeCloses | src/components/LanguageSelector.js:47-50 | While open, Escape closes without changing the language |
| LanguageSelector.ArrowsCycle | src/components/LanguageSelector.js:52-59 | While open, the arrows select the neighbouring code, wrapping around |
| LanguageSelector.DownThenUp | src/components/LanguageSelector.js:52-59 | ArrowDown then ArrowUp restores a listed language |
| LanguageSelector.UnknownCode | src/components/LanguageSelector.js:21-59 | An unknown code displays the first entry, ArrowDown selects it and ArrowUp the second to last |
| ContextualSuggestions.OnInput | src/components/ContextualSuggestions.js:76-83 | A request is scheduled exactly for a non-empty text whose trimmed length exceeds 2, with a key, while active; otherwise the list is cleared |
| ContextualSuggestions.Fetch | src/components/ContextualSuggestions.js:42-68 | Blank text, no key or inactive clears the list. A returned list replaces it with nothing highlighted. A failure clears it and records "Failed to get suggestions" |
| ContextualSuggestions.Pick | src/components/ContextualSuggestions.js:133-138 | A picked suggestion is reported and the list cleared |
| ContextualSuggestions.KeyDown | src/components/ContextualSuggestions.js:93-117 | The cursor stays within -1 and the last entry. Only Enter picks, and only an entry of the list, which then closes. Keys other than Escape keep the list unless they pick |
| ContextualSuggestions.PickThenKeys | src/components/ContextualSuggestions.js:133-143 | After a pick the cursor is still valid, every later key is ignored, and the panel is hidden unless a request is under way |
| ContextualSuggestions.KeyKeepsValid | src/components/ContextualSuggestions.js:93-117 | Keys keep the cursor within -1 and the last entry, move it by at most one place, and only the arrows move it |
| ContextualSuggestions.FetchKeepsValid | src/components/ContextualSuggestions.js:57-59 | Replies keep the cursor within -1 and the last entry |
| ContextualSuggestions.InputKeepsValid | src/components/ContextualSuggestions.js:81-83 | Input changes keep the cursor within -1 and the last entry |
| ContextualSuggestions.EmptyIgnoresKeys | src/components/ContextualSuggestions.js:94 | With no suggestions every key is ignored |
| ContextualSuggestions.ArrowsClamp | src/components/ContextualSuggestions.js:97-107 | ArrowDown moves down but stops at the last entry; ArrowUp moves up but stops at the first, so from no highlight it selects the first |
| ContextualSuggestions.EnterPicks | src/components/ContextualSuggestions.js:109-111 | Enter picks the highlighted entry and clears the list, and does nothing without a highlight |
| ContextualSuggestions.EscapeCloses | src/components/ContextualSuggestions.js:114-116 | Escape clears the list without picking |
| ContextualSuggestions.EscapeHides | src/components/ContextualSuggestions.js:141-143 | With entries and no request under way, the panel is drawn exactly while active, and Escape hides it |
| ContextualSuggestions.UpThenDown | src/components/ContextualSuggestions.js:97-107 | Up then Down from an entry below the first returns to it |
| ContextualSuggestions.FreshListStartsUnselected | src/components/ContextualSuggestions.js:57-59 | A new list has nothing highlighted, and the first ArrowDown highlights its first entry |
| InlineSuggestions.FirstMatchWins | src/components/InlineSuggestions.js:49-58 | The first pattern that fires gives the completion, whatever follows |
| InlineSuggestions.NoMatchIsEmpty | src/components/InlineSuggestions.js:46-60 | When no pattern fires the completion is empty |
| InlineSuggestions.FirstMatch | src/components/InlineSuggestions.js:46-60 | The completion is empty or the completion of some pattern of the table |
| InlineSuggestions.MatchFromTable | src/components/InlineSuggestions.js:46-60 | A completion is empty or belongs to a pattern that fires |
| InlineSuggestions.MatchIffFires | src/components/InlineSuggestions.js:46-60 | The completion is non-empty exactly when some pattern fires |
| InlineSuggestions.PatternsComplete | src/components/InlineSuggestions.js:49-58 | Every pattern's completion is non-empty |
| InlineSuggestions.Generate | src/components/InlineSuggestions.js:17-66 | Blank text, no key or inactive clears the completion. A text shorter than the last one only records its length. A text under 10 characters clears it. Otherwise the pattern table decides |
| InlineSuggestions.GenerateFromTable | src/components/InlineSuggestions.js:17-60 | A completion is the old one, empty, or one the table offers for this text |
| InlineSuggestions.TransactionsOver | src/components/InlineSuggestions.js:49-50 | A text with `transactions` and `over` is completed with ` $500 from new users` |
| InlineSuggestions.SpanishLast | src/components/InlineSuggestions.js:55-57 | After the English patterns fail, a Spanish word in the lower-cased text gives the Spanish completion, and no Spanish word gives none |
| InlineSuggestions.OnKey | src/components/InlineSuggestions.js:86-93 | Tab accepts exactly a non-empty completion that is not being recomputed |
| InlineSuggestions.HintMeansTabWorks | src/components/InlineSuggestions.js:87-117 | Whenever the hint is drawn, Tab accepts the completion |
| InlineSuggestions.HintAfterGenerate | src/components/InlineSuggestions.js:104-117 | After a growing text of at least 10 characters, the hint is drawn exactly when some pattern fires |

## Left out

- I/O: `localStorage` serialisation is left out. Its JSON round trip turns dates into strings. The store is the sequence of rules it holds, and times are numbers.
- Dates are modelled as one clock value `now` per call. `new Date()` and `Date.now()` are taken to read the same instant.
- RuleStorage.StorageRoundTrip: a save without a window is not modelled. There `getAllRules` keeps returning [] and the unguarded `localStorage.setItem` has nowhere to write, so the read-back clause speaks only of a store held in a window.
- The language-model routes (`pages/api/translate.js`, `validate.js`, `suggest.js`) and `utils/claudeAPI.js` are not modelled: they are network calls. So are the page's translate and validate handlers and the wizard's `handleBuildRule`. The suggestion service's reply is an input of `ContextualSuggestions.Fetch`.
- Timers and asynchrony are left out: debounce timers, the simulated delay, re-validation after a fix, toast hiding, focus and scrolling. Each handler is one atomic step.
- `EditorPage.Save`: the `catch` branch ("Failed to save rule") is not modelled, because the modelled store never throws.
- `toLowerCase` is the parameter `lower`. Unicode case mapping is not modelled.
- `isNaN`/`parseFloat` is the parameter `isNumeric`. Number parsing in the gallery's number input is not modelled: a number value is kept as its string form.
- `Translations.Child`: property lookup on strings (`"abc"["length"]`) and on inherited object properties is not modelled; a string has no children.
- Placeholder values and template values are used as plain text. `$` patterns in `String.replace` replacement text are not modelled.
- `Translations.Substitute`: placeholder keys are taken literally. The source builds ``new RegExp(`{${key}}`, 'g')``, so a key with regular-expression metacharacters behaves differently, and a numeric key such as `1` makes `{1}` a quantifier that throws. No caller in the repository passes placeholders.
- Template patterns are modelled as literal global replacement. This is faithful because the patterns come from the constant table, which has no regular-expression metacharacters. The high-risk template's code is written around the constant `CountryPattern`, which spells the same text as the source.
- Lengths are counted in characters, not UTF-16 code units.
- Drag-and-drop collision detection and animation are left out. `handleDragEnd` is modelled on given active and over ids.
- Persisting the chosen language (`pages/index.js:419`) is left out: it is a `localStorage` write. The selector reports the code, which the page adopts.
- The gallery's search box, category tabs and back button only set state and are not modelled separately.
- Presentational components are left out: `AccessibilityPanel.js`, `Logo.js`, `RuleEditor.js`, `RuleFixModal.js`, `ValidationToast.js` and the configuration files.
- `InlineSuggestions.Generate`: the loading flag raised during the simulated delay is not modelled, because the delay and the reply form one step. The error branch is unreachable, since the simulation cannot fail.
- `ContextualSuggestions.Fetch`: the loading flag raised while a request is outstanding is not modelled.
- `EditorPage.FixRule` opens the dialog with the corrected fixer's result. As shipped the handler throws before storing a result and the dialog never opens (`EditorPage.FixRuleAsWritten`; see Findings).
- `RuleFixer.AutoFix` models the documented literal character count of `countOccurrences`, not the shipped regular expression (see Findings).
- `RuleWizard.Handle`: a choice takes effect only on its own step and only for an offered option, since those are the only buttons on screen.
- `LanguageSelector.Click` requires an open menu and a listed code, since only those buttons exist.

## Findings

| source | as written | input that shows it | evidently intended | confidence | as-written member | corrected member |
|---|---|---|---|---|---|---|
| src/utils/ruleFixerUtils.js:16 | `countOccurrences` builds `new RegExp(char, 'g')`, and `(` is not a valid regular expression, so the first count throws a `SyntaxError` | any rule, e.g. `amount > ` | count the character literally, as the comment at lines 99-101 says | high, not executed | RuleFixer.AutoFixAsWritten | RuleFixer.AutoFix |
