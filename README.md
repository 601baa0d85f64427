# Story map: list edits, reorder, bulk import, export and the import preview

A story map is a tree: themes hold epics, epics hold user stories ("As a
{role}, I want to {action}, so that {result}"), and user stories hold
acceptance criteria ("Given ..., When ..., Then ..."). This project models the
logic of the application's card components, spreadsheet import, CSV export and
import preview table in Dafny. It then proves what that logic promises.

- `story_map.dfy` (`StoryMap`): the entity tree as values, and the two sentence templates.
- `siblings.dfy` (`Siblings`): the id-keyed list edits all cards share:
  - append (`[...list, x]`)
  - replace by id (`map`)
  - remove by id (`filter`)
  - the drag-and-drop reorder (`findIndex` and two `splice`s, done in place on an array)
- `epic_card.dfy`, `user_story_card.dfy`, `theme_card.dfy`: each card's fallback edits of its children, its own field edit, its drop guard and its reorder handler. The theme card also has its story counter.
- `text.dfy` (`Text`): JavaScript white space, `trim`, ASCII `toLowerCase`.
- `regex.dfy` (`Regex`): the part of ECMAScript regular expressions the story parser uses. It has two halves:
  - a backtracking matcher with greedy quantifiers and a leftmost search;
  - a declarative reference definition, against which the matcher is proved.
- `bulk_import_dialog.dfy` (`BulkImportDialog`): `parseUserStory` and the row mapping, filter and empty check of `processExcelFile`.
- `bulk_import.dfy` (`BulkImport`): the import loop of `useBulkImport`, which has four parts:
  - epic find-or-create;
  - duplicate detection;
  - the counters;
  - the criteria splitter.

  The loop runs over an in-memory store. What the database returns for each row is a parameter.
- `export.dfy` (`Export`): `exportToCSV`. It flattens the tree into four-cell rows with nested loops, then quotes the cells and joins them. A reader for the produced text is proved to be its inverse.
- `import_preview.dfy` (`ImportPreview`): the preview table's edit, save, cancel, delete and story formatting, as a class with its state fields.
- `round_trip.dfy` (`RoundTrip`): the story and criteria cells the export writes are read back by the import's parsers, for stories whose fields are non-empty and trimmed, whose role and action hold no comma, whose result holds no line break, and whose criteria clauses are non-empty, trimmed and comma-free. Outside these conditions a written sentence may not parse back (a role "user, admin" stops `[^,]+` and the fallback applies).

Where the application's own description of itself and its code disagree, the model follows the code:
- Dropping a story on another epic's card does not move it: the reorder finds no index, so nothing changes (`UserStoryCard.ForeignDropIsNoop`).
- Import rows are not grouped, and criteria are not de-duplicated. Each row creates at most one criterion.
- A missing "Given" clause falls back to the whole criteria text, not to a stock phrase.
- The filter in `processExcelFile` tests the epic cell as read, untrimmed.
- The import reads spreadsheets only; there is no CSV import path.

## Model

| member | source | states |
|---|---|---|
| Siblings.FindIndex | src/components/EpicCard.tsx:149-150 | the position found holds the id and no earlier one does; None exactly when no element has the id |
| Siblings.RemoveAt | src/components/EpicCard.tsx:153 | `splice(i, 1)`: one element fewer; those before `i` stay, those after move one step up |
| Siblings.InsertAt | src/components/EpicCard.tsx:154 | `splice(i, 0, x)`: one element more; `x` sits at `i`, those before stay, those from `i` on move one step down |
| Siblings.Move | src/components/EpicCard.tsx:153-154 | removing at `from` and inserting at `to` keeps the length; the dragged element lands at `to`; elements between the two positions shift one step towards `from`; all others stay put |
| Siblings.MovePermutes | src/components/EpicCard.tsx:153-154 | the reorder is a permutation: same multiset of elements |
| Siblings.MoveKeepsOthersInOrder | src/components/UserStoryCard.tsx:148-149 | taking the dragged element out of the result gives the original list without it, so the others keep their relative order |
| Siblings.MoveOntoItself | src/components/UserStoryCard.tsx:148-149 | dragging an element onto its own index leaves the list identical |
| Siblings.MoveUndo | src/components/EpicCard.tsx:153-154 | moving back from the target to the origin restores the list |
| Siblings.Reorder | src/components/EpicCard.tsx:149-154 | no update exactly when either id is absent; otherwise the move from the dragged element's index to the target's index in the original list, so same length and elements, with the dragged element at the target's index |
| Siblings.ReorderOntoItself | src/components/UserStoryCard.tsx:144-149 | reordering an element onto itself gives back the same list |
| Siblings.MoveInPlace | src/components/EpicCard.tsx:153-154 | the two `splice`s done in place on an array leave exactly the moved list |
| Siblings.ReorderCopy | src/components/EpicCard.tsx:148-154 | copying the list, finding both indices and moving in place computes the reorder |
| Siblings.Append | src/components/ThemeCard.tsx:30 | one element more, at the end, the others untouched |
| Siblings.ReplaceById | src/components/ThemeCard.tsx:37-39 | same length; elements with the id become the replacement, every other element is kept in place |
| Siblings.RemoveById | src/components/ThemeCard.tsx:46 | no element with the id remains, and the list does not grow |
| Siblings.RemoveByIdCounts | src/components/ThemeCard.tsx:46 | every copy of an element with the id goes, and every copy of any other element stays |
| Siblings.RemoveByIdDistributes | src/components/ThemeCard.tsx:46 | the filter works element by element, so survivors keep their order |
| Siblings.AppendThenRemove | src/components/EpicCard.tsx:46-56 | deleting a just-appended element by its fresh id restores the list |
| Siblings.RemoveAbsent | src/components/ThemeCard.tsx:46 | deleting an id that is not present changes nothing |
| Siblings.ReplaceThenRemove | src/components/EpicCard.tsx:66-67 | replacing then deleting an id is the same as deleting it |
| EpicCard.AddUserStory | src/components/EpicCard.tsx:46-56 | one story with the new id, the given fields and no criteria is appended; earlier stories, id and title unchanged |
| EpicCard.UpdateUserStory | src/components/EpicCard.tsx:64-69 | stories with the updated id are replaced, all others kept in place; id and title unchanged |
| EpicCard.DeleteUserStory | src/components/EpicCard.tsx:77-80 | exactly the stories with that id disappear, with every other story's multiplicity kept |
| EpicCard.UpdateEpic | src/components/EpicCard.tsx:84-89 | only the title changes |
| EpicCard.AddThenDeleteUserStory | src/components/EpicCard.tsx:46-80 | adding a story with a fresh id and deleting it restores the epic |
| EpicCard.UpdateThenDeleteUserStory | src/components/EpicCard.tsx:64-80 | deleting an edited story equals deleting the original |
| EpicCard.DraggedId | src/components/EpicCard.tsx:138 | JavaScript's "or" of the two payloads: the plain-text payload when it is non-empty, else the typed one; empty only when both are |
| EpicCard.HandleDrop | src/components/EpicCard.tsx:138-143 | `onReorder` is called exactly when the payload is non-empty, is not the epic itself, and the callback exists; it is called with the dragged payload and the epic's id |
| EpicCard.HandleUserStoryReorder | src/components/EpicCard.tsx:146-161 | no update when either story id is absent; otherwise only `userStories` changes, to the reorder of the stories |
| UserStoryCard.AddAcceptanceCriteria | src/components/UserStoryCard.tsx:40-49 | one criterion with the new id and clauses is appended; the story's other fields are unchanged |
| UserStoryCard.UpdateAcceptanceCriteria | src/components/UserStoryCard.tsx:57-62 | criteria with the updated id are replaced, all others kept in place |
| UserStoryCard.DeleteAcceptanceCriteria | src/components/UserStoryCard.tsx:70-73 | exactly the criteria with that id disappear |
| UserStoryCard.UpdateUserStory | src/components/UserStoryCard.tsx:77-84 | role, action and result change; id and criteria are kept |
| UserStoryCard.AddThenDeleteAcceptanceCriteria | src/components/UserStoryCard.tsx:40-73 | adding a criterion with a fresh id and deleting it restores the story |
| UserStoryCard.HandleDrop | src/components/UserStoryCard.tsx:133-138 | `onReorder` is called exactly when the payload is non-empty, is not the story itself, and the callback exists; it is called with the dragged payload and the story's id |
| UserStoryCard.ForeignDropIsNoop | src/components/EpicCard.tsx:149-152 | a dropped id that is not a story of the epic passes the card's guard, but the epic's reorder finds no index and changes nothing |
| UserStoryCard.HandleAcceptanceCriteriaReorder | src/components/UserStoryCard.tsx:141-156 | no update when either criteria id is absent; otherwise only `acceptanceCriteria` changes, to the reorder |
| ThemeCard.AddEpic | src/components/ThemeCard.tsx:22-32 | one epic with the new id, the title and no stories is appended; the theme's other fields are unchanged |
| ThemeCard.UpdateEpic | src/components/ThemeCard.tsx:34-41 | epics with the updated id are replaced, length and order kept |
| ThemeCard.DeleteEpic | src/components/ThemeCard.tsx:43-48 | exactly the epics with that id disappear |
| ThemeCard.UpdateTheme | src/components/ThemeCard.tsx:50-56 | only title and description change |
| ThemeCard.TotalUserStories | src/components/ThemeCard.tsx:58 | the total counts every epic's stories, and is 0 exactly when no epic has a story |
| ThemeCard.StoryCountConcat | src/components/ThemeCard.tsx:58 | the story count adds up over any split of the epic list |
| ThemeCard.StoryCountFirst | src/components/ThemeCard.tsx:58 | the count is the first epic's story count plus that of the rest (the `reduce`, first to last) |
| ThemeCard.AddEpicKeepsTotal | src/components/ThemeCard.tsx:22-58 | adding an epic leaves the story total unchanged |
| ThemeCard.DeleteEpicTotal | src/components/ThemeCard.tsx:43-58 | deleting epics never raises the total, and deleting an absent id keeps it |
| Text.LowerChar | src/hooks/useBulkImport.ts:46 | lower-casing keeps white space, line terminators and commas, and leaves no upper-case ASCII letter |
| Text.Lower | src/hooks/useBulkImport.ts:46 | `toLowerCase` maps every character and keeps the length |
| Text.Trim | src/hooks/useBulkImport.ts:54 | the result has no white space at either end and no new characters; it is empty exactly when the text is all white space; trimmed text is kept; which text it is, the part between the first and last non-space character, is stated by Text.TrimSlice |
| Text.TrimSlice | src/hooks/useBulkImport.ts:54 | `trim` keeps the text between the first and last non-space character in place: the result is a slice `s[i..j]` with only white space before `i` and after `j` |
| Text.LowerTrim | src/hooks/useBulkImport.ts:46 | lower-casing and trimming commute, so the key of a trimmed title is that of the title |
| Regex.Run | src/components/BulkImportDialog.tsx:78 | the longest run of a character class from a position; the next character is not in the class |
| Regex.Backtrack | src/components/BulkImportDialog.tsx:78-79 | the counts the backtracking matcher settles on describe a match |
| Regex.BacktrackIsGreatest | src/components/BulkImportDialog.tsx:78-79 | whenever any match exists at a position, the matcher succeeds there, with the lexicographically greatest counts (greedy) |
| Regex.Search | src/components/BulkImportDialog.tsx:79 | a match found by trying start positions left to right is a real match |
| Regex.SearchIsLeftmost | src/components/BulkImportDialog.tsx:79 | the search finds the leftmost start with a match, and finds nothing exactly when no start has one |
| Regex.Exec | src/components/BulkImportDialog.tsx:79 | a match yields one capture per group |
| Regex.SpellsIgnoresCase | src/components/BulkImportDialog.tsx:78 | the `i` flag: literal items that match the lower-cased text match the text |
| BulkImportDialog.MatchGroups | src/components/BulkImportDialog.tsx:78 | any match of the story pattern has three groups: a comma-free role, a comma-free action, and a result without line breaks |
| BulkImportDialog.MatchUserStory | src/components/BulkImportDialog.tsx:78-79 | `match` on the story pattern: no match, or three groups of that shape |
| BulkImportDialog.DefaultsTrimmed | src/components/BulkImportDialog.tsx:91-93 | the fallback role and result are non-empty and trimmed |
| BulkImportDialog.ParseUserStory | src/components/BulkImportDialog.tsx:76-95 | all three fields are trimmed; with a match the role and action hold no comma; without one the role is "user", the action is the trimmed text and the result is the stock phrase |
| BulkImportDialog.LeadInSkipped | src/components/BulkImportDialog.tsx:79 | text with no "a" in any case before a position holds no match start |
| BulkImportDialog.ExecFindsSentenceAnyCase | src/components/BulkImportDialog.tsx:78-79 | a story sentence in any letter case, after any lead-in without an "a", matches with exactly its role, action and result as groups |
| BulkImportDialog.ExecStorySentence | src/components/BulkImportDialog.tsx:78-79 | the sentence the application writes for a story matches with its three fields as groups, when the fields are non-empty and trimmed, the role and action hold no comma, and the result no line break |
| BulkImportDialog.ParseStorySentence | src/components/BulkImportDialog.tsx:76-95 | `parseUserStory` gives back role, action and result of a written story sentence when they are non-empty and trimmed, the role and action hold no comma, and the result no line break |
| BulkImportDialog.NoMatchInEmpty | src/components/BulkImportDialog.tsx:108-109 | the pattern finds nothing in an empty cell |
| BulkImportDialog.CellText | src/components/BulkImportDialog.tsx:108 | an absent cell reads as the empty text |
| BulkImportDialog.ToImportData | src/components/BulkImportDialog.tsx:107-117 | the epic and criteria cells are copied, and the story cell is parsed into role, action and result |
| BulkImportDialog.MissingStoryDropped | src/components/BulkImportDialog.tsx:108-118 | a row without a story cell gets an empty action and is dropped |
| BulkImportDialog.FallbackKept | src/components/BulkImportDialog.tsx:89-118 | an unmatched story cell is kept exactly when the epic is non-empty and the cell is not all white space |
| BulkImportDialog.SentenceRowKept | src/components/BulkImportDialog.tsx:107-118 | a well-formed story sentence under a non-empty epic is kept with exactly its fields |
| BulkImportDialog.KeepRows | src/components/BulkImportDialog.tsx:118 | kept rows have non-empty epic, role, action and result, and are exactly the input rows that do |
| BulkImportDialog.KeepRowsDistributes | src/components/BulkImportDialog.tsx:118 | the filter keeps rows in their input order |
| BulkImportDialog.ToImportRows | src/components/BulkImportDialog.tsx:107 | one mapped row per sheet row, in order |
| BulkImportDialog.ProcessRows | src/components/BulkImportDialog.tsx:107-127 | nothing is handed to the import exactly when no row survives the filter; otherwise the non-empty list of surviving rows |
| BulkImport.FindEpic | src/hooks/useBulkImport.ts:45-47 | the result is the first known epic whose lower-cased, trimmed title equals that of the row, as `find` returns; a found epic is known |
| BulkImport.FindEpicNone | src/hooks/useBulkImport.ts:45-47 | nothing is found exactly when no known epic has the same normalised title |
| BulkImport.FindEpicAppend | src/hooks/useBulkImport.ts:61 | adding an epic changes the search only when it found nothing before and the new epic matches |
| BulkImport.FindEpicSameTitle | src/hooks/useBulkImport.ts:45-47 | titles that normalise alike find the same epic |
| BulkImport.FindEpicPrefix | src/hooks/useBulkImport.ts:45-61 | once the known epics contain a match, epics appended after them do not change what is found |
| BulkImport.IsDuplicateExactly | src/hooks/useBulkImport.ts:65-70 | `some` finds a duplicate exactly when a known story has the same epic and the same normalised role, action and result |
| BulkImport.IsDuplicateAppend | src/hooks/useBulkImport.ts:92-97 | a story added to the known ones is found by later duplicate checks |
| BulkImport.CriteriaText | src/hooks/useBulkImport.ts:102-103 | criteria text is used exactly when present and not blank, and then trimmed |
| BulkImport.FindPart | src/hooks/useBulkImport.ts:107-109 | `find`: the result is the first part that starts with the keyword in any case; none exactly when no part does |
| BulkImport.StripKeyword | src/hooks/useBulkImport.ts:107-109 | when the part starts with the keyword and white space, the result is the rest after the keyword and the whole white-space run (it starts with no white space); otherwise the part unchanged |
| BulkImport.Field | src/hooks/useBulkImport.ts:107-109 | the first part with the keyword, stripped of it, or the fallback when no part has the keyword or nothing is left after stripping |
| BulkImport.ParseCriteria | src/hooks/useBulkImport.ts:105-109 | each field comes from the first part starting with its keyword, stripped; without such a part, or with nothing left, "given" is the whole text, "when" is "action is performed" and "then" is "result is achieved"; all three are non-empty |
| BulkImport.OrElse | src/hooks/useBulkImport.ts:107-109 | JavaScript's "or" on strings: the text unless it is empty, then the fallback; empty only when both are |
| BulkImport.SplitCriteria | src/hooks/useBulkImport.ts:105 | `split` gives at least one part |
| BulkImport.SplitCriteriaEnds | src/hooks/useBulkImport.ts:105 | the first part begins the text and the last part ends it |
| BulkImport.ParseCriteriaPlain | src/hooks/useBulkImport.ts:105-109 | a text with no comma that starts with no keyword gives the whole text as "given" and the two stock phrases |
| BulkImport.SplitNoComma | src/hooks/useBulkImport.ts:105 | text without a comma is one part |
| BulkImport.SplitJoin | src/hooks/useBulkImport.ts:105 | parts joined with ", " split back into the same parts when none has a comma and each after the first starts with "when" or "then" |
| BulkImport.SplitSentence | src/hooks/useBulkImport.ts:105 | a criteria sentence splits into its three clauses |
| BulkImport.GivenField | src/hooks/useBulkImport.ts:107 | the "given" field of a criteria sentence is its first clause, without the keyword |
| BulkImport.WhenField | src/hooks/useBulkImport.ts:108 | the "when" field is the second clause, without the keyword |
| BulkImport.ThenField | src/hooks/useBulkImport.ts:109 | the "then" field is the third clause, without the keyword |
| BulkImport.CriteriaRoundTrip | src/hooks/useBulkImport.ts:102-109 | a "Given g, When w, Then o" text is used whole and split back into g, w and o when each is non-empty, trimmed and comma-free |
| BulkImport.RowOutcome | src/hooks/useBulkImport.ts:42-124 | one row: an epic is added exactly when none matched and its insert succeeded; the row fails exactly when an insert it needs fails; it is a duplicate exactly when its epic has an equal story; only a created story changes stories and criteria |
| BulkImport.ImportAllStep | src/hooks/useBulkImport.ts:42-125 | the loop over one more row is the loop so far followed by that row |
| BulkImport.BulkImport | src/hooks/useBulkImport.ts:25-131 | the in-place loop computes the store and counters of the row-by-row specification, and returns all rows as `totalRows` |
| BulkImport.CountersBounded | src/hooks/useBulkImport.ts:72-99 | each row adds one to at most one counter, and counters never decrease |
| BulkImport.SummaryBounded | src/hooks/useBulkImport.ts:127-131 | new stories plus skipped duplicates never exceed the number of rows |
| BulkImport.RowOnlyAdds | src/hooks/useBulkImport.ts:61-97 | a row only appends to the known epics, stories and criteria |
| BulkImport.ImportOnlyAdds | src/hooks/useBulkImport.ts:42-125 | the whole loop only appends to what is known |
| BulkImport.SameTitleTrim | src/hooks/useBulkImport.ts:54 | a trimmed title normalises like the title |
| BulkImport.NewEpicReused | src/hooks/useBulkImport.ts:49-62 | an unmatched epic is created under its trimmed title, and right after that row every title that normalises alike finds it |
| BulkImport.RowEpicFoundAgain | src/hooks/useBulkImport.ts:45-62 | after a row, its epic is what every alike title finds |
| BulkImport.DuplicateExactly | src/hooks/useBulkImport.ts:64-75 | a row is skipped exactly when its epic already holds an equal story, and then stores nothing |
| BulkImport.NewEpicNoDuplicate | src/hooks/useBulkImport.ts:49-70 | a row under a just-created epic is never a duplicate |
| BulkImport.CreatedThenDuplicate | src/hooks/useBulkImport.ts:78-97 | a created story is stored trimmed, and the next row, if equal to it once normalised, is counted as a duplicate |
| BulkImport.CriteriaOnlyForNewStories | src/hooks/useBulkImport.ts:101-119 | a criterion is stored only for a created story with non-blank criteria text, split from the trimmed text and tied to the new story |
| BulkImport.FailedRowCaught | src/hooks/useBulkImport.ts:121-124 | a failing row leaves stories, criteria and counters as they were |
| BulkImport.ImportAllConcat | src/hooks/useBulkImport.ts:42-125 | the loop over two batches of rows is the loop over the first, continued over the second |
| BulkImport.AfterFirstRow | src/hooks/useBulkImport.ts:42-125 | the loop over a first row and more rows continues from the state the first row leaves |
| BulkImport.EpicReusedLater | src/hooks/useBulkImport.ts:45-62 | once a row has its epic, found or created, every later row of the run whose title normalises alike goes under that epic, whatever rows come between |
| BulkImport.DuplicateStays | src/hooks/useBulkImport.ts:65-97 | a story that counts as a duplicate before some rows still does after them |
| BulkImport.StoryKnownLater | src/hooks/useBulkImport.ts:92-97 | a created story is found by the duplicate check of every later row of the run that equals it once normalised |
| BulkImport.RowDuplicate | src/hooks/useBulkImport.ts:64-75 | a row whose epic is found and already holds an equal story is skipped and changes nothing |
| BulkImport.CreatedThenDuplicateLater | src/hooks/useBulkImport.ts:42-97 | after a created story, any later row of the same run equal to it once normalised is skipped as a duplicate: the skipped counter rises by one and nothing is stored |
| Export.CriteriaRowsEach | src/components/ExportButton.tsx:37-40 | k criteria give k rows, row i carrying criterion i's sentence |
| Export.StoryRowsEach | src/components/ExportButton.tsx:32-41 | a story gives one row per criterion, or one row with an empty fourth cell; each holds the theme, the epic and the story sentence |
| Export.EpicRowsUnder | src/components/ExportButton.tsx:44-47 | every row of an epic has four cells, the theme and the epic title; there is at least one, exactly [theme, epic, "", ""] without stories |
| Export.ThemeRowsInTheme | src/components/ExportButton.tsx:50-53 | every row of a theme has four cells and the theme title; exactly [theme, "", "", ""] without epics |
| Export.TreeRowsFour | src/components/ExportButton.tsx:29-54 | every exported row has four cells, and each theme gives at least one |
| Export.TreeRowsAppend | src/components/ExportButton.tsx:29 | the rows follow the theme order |
| Export.PushStoryRows | src/components/ExportButton.tsx:31-41 | the story loop appends exactly the story's rows |
| Export.PushEpicRows | src/components/ExportButton.tsx:30-47 | the epic loop appends exactly the epic's rows |
| Export.PushThemeRows | src/components/ExportButton.tsx:29-53 | the theme loop appends exactly the theme's rows |
| Export.CsvRows | src/components/ExportButton.tsx:25-54 | the table is the header row followed by the rows of every theme in order |
| Export.Escape | src/components/ExportButton.tsx:58 | doubling quotes never shortens a cell |
| Export.EscapeCounts | src/components/ExportButton.tsx:58 | escaping adds exactly one character per '"' and leaves a cell without quotes unchanged |
| Export.QuoteCellShape | src/components/ExportButton.tsx:58 | a quoted cell opens and closes with '"' and is two characters longer than the escaped cell; a cell without quotes sits unchanged between them |
| Export.JoinCellsShape | src/components/ExportButton.tsx:58 | joined cells are empty only for no cells, and otherwise open and close with a quote |
| Export.JoinRowsShape | src/components/ExportButton.tsx:57-59 | no rows give the empty text; with cells in the first and last row, the text opens and closes with a quote, so there is no trailing line break |
| Export.ReadQuoted | src/components/ExportButton.tsx:58 | a quoted cell read back in context gives the cell and the position after its closing quote |
| Export.UnquoteQuote | src/components/ExportButton.tsx:58 | unquoting a quoted cell gives back the cell |
| Export.DecodeJoinRows | src/components/ExportButton.tsx:57-59 | any table whose rows all have cells reads back from its joined text |
| Export.DecodeExport | src/components/ExportButton.tsx:25-59 | the exported text reads back as the header and the rows of every theme |
| Export.ExportToCsv | src/components/ExportButton.tsx:14-59 | no content exactly when there are no themes; otherwise the joined table, which reads back as the header and the theme rows |
| ImportPreview.RemoveAt | src/components/ImportPreviewTable.tsx:46-49 | deleting an index in range drops that row and shifts the later ones by one; any other index keeps the rows |
| ImportPreview.RemoveAtCounts | src/components/ImportPreviewTable.tsx:47 | deleting removes exactly one copy of that row; out of range nothing changes |
| ImportPreview.RemoveAtKeepsOrder | src/components/ImportPreviewTable.tsx:47 | every other row survives, in order |
| ImportPreview.EditRow | src/components/ImportPreviewTable.tsx:26-29 | `handleEdit`: the row index and a copy of that row are set; the rows are unchanged and the state is valid |
| ImportPreview.TypeInto | src/components/ImportPreviewTable.tsx:72-109 | the inputs' `onChange`: the rows and the index stay, a draft stays a draft, and a valid state stays valid |
| ImportPreview.SaveEdit | src/components/ImportPreviewTable.tsx:31-39 | `handleSave`: the editor is closed and the row count kept |
| ImportPreview.CancelEdit | src/components/ImportPreviewTable.tsx:41-44 | `handleCancel`: the editor is closed and the rows kept |
| ImportPreview.DeleteAsWritten | src/components/ImportPreviewTable.tsx:46-49 | `handleDelete` as written: the rows become RemoveAt of the rows (only row `index` removed, the rest in order, an out-of-range index changes nothing), one row fewer when the index is in range, and the editing index and draft left as they were |
| ImportPreview.EditOpensCopy | src/components/ImportPreviewTable.tsx:26-29 | opening a row sets the index and a copy of that row as the draft, and changes no row |
| ImportPreview.TypeIntoDraft | src/components/ImportPreviewTable.tsx:72-109 | typing into an input changes only that field of the draft |
| ImportPreview.SaveReplacesEditedRow | src/components/ImportPreviewTable.tsx:31-39 | saving writes the draft over exactly the edited row, keeps the length and the other rows, and closes the editor |
| ImportPreview.SaveIdle | src/components/ImportPreviewTable.tsx:32 | saving with no row open changes nothing |
| ImportPreview.SaveUntouchedDraft | src/components/ImportPreviewTable.tsx:26-39 | saving a draft nobody changed leaves the rows as they were |
| ImportPreview.EditThenCancel | src/components/ImportPreviewTable.tsx:26-44 | cancel after opening a row restores the idle state |
| ImportPreview.DeleteRowValid | src/components/ImportPreviewTable.tsx:46-49 | with the corrected delete, an open row is always a shown row |
| ImportPreview.DeleteRowKeepsTarget | src/components/ImportPreviewTable.tsx:46-49 | with the corrected delete, the editor stays on the row it was opened for |
| ImportPreview.SaveAfterDeleteRow | src/components/ImportPreviewTable.tsx:31-49 | with the corrected delete, deleting another row and then saving equals saving and then deleting |
| ImportPreview.StaleIndexAfterDelete | src/components/ImportPreviewTable.tsx:46-49 | as written, editing C in A, B, C, D, deleting A and saving loses D and leaves C unedited; the corrected delete gives B, C', D |
| ImportPreview.StaleIndexPastEnd | src/components/ImportPreviewTable.tsx:46-49 | as written, deleting a row above the open last row leaves the index past the end |
| ImportPreview.FormatUserStory | src/components/ImportPreviewTable.tsx:51-53 | the story cell the table shows is parsed back by `parseUserStory` into the row's fields, when they are non-empty and trimmed, the role and action hold no comma, and the result no line break |
| ImportPreview.PreviewTable.constructor | src/components/ImportPreviewTable.tsx:22-24 | the table starts idle with the given rows |
| ImportPreview.PreviewTable.Edit | src/components/ImportPreviewTable.tsx:26-29 | `handleEdit` updates the fields as the edit specification says, and keeps the state valid |
| ImportPreview.PreviewTable.Type | src/components/ImportPreviewTable.tsx:72-109 | an input's `onChange` updates the draft as the typing specification says |
| ImportPreview.PreviewTable.Save | src/components/ImportPreviewTable.tsx:31-39 | `handleSave` updates the fields as the save specification says |
| ImportPreview.PreviewTable.Cancel | src/components/ImportPreviewTable.tsx:41-44 | `handleCancel` clears the editor and keeps the rows |
| ImportPreview.PreviewTable.Delete | src/components/ImportPreviewTable.tsx:46-49 | delete, corrected to keep the editor on its row, keeps the state valid |
| RoundTrip.ExportedStoryRowsReimport | src/components/ExportButton.tsx:32-39 | for a story whose fields are non-empty and trimmed, with role and action comma-free, the result without line breaks, and every criteria clause non-empty, trimmed and comma-free: every exported row's story cell parses back to the story's fields; each criteria cell is kept by the import and splits into that criterion's clauses; an empty criteria cell reads as no criteria |

## Left out

- Database calls are modelled as parameters and in-memory lists. For the cards this covers the `onAdd…`/`onUpdate…`/`onDelete…` callbacks; for the import, the epic, story and criteria inserts. Query invalidation, toasts and console logging are not modelled.
- The fresh ids from `Date.now()` and from the database are parameters. Whether they are really fresh is a premise of the lemmas that need it (`AddThenDeleteUserStory`, `NewEpicNoDuplicate`).
- Spreadsheet reading (`XLSX.read`, `sheet_to_json`) is not modelled: the rows arrive as values, each cell present or absent.
- BulkImportDialog.CellText: spreadsheet cells hold text only. `sheet_to_json` gives numbers (and booleans, dates) for non-text cells, and those cases are not modelled: a number in the "User Story" cell makes `match` throw (`BulkImportDialog.tsx:79`), which the catch at lines 136-142 turns into a failed import; a number in the "Epic" cell passes the filter and throws at `item.epic.toLowerCase()` (`useBulkImport.ts:46`), so that row fails; a `0` cell reads as empty through `|| ''`.
- The browser download of the CSV file (Blob, link element, click) is not modelled: the model stops at the file's text.
- The CSV reader in `export.dfy` is not application code. The application has no CSV import; the reader exists only to state that the encoding loses nothing.
- Text.Lower: lower-cases ASCII letters only; `toLowerCase` on other scripts is not modelled.
- Regex: covers only the constructs the story pattern uses: one-character classes, `+`, `*`, capture groups, the `i` flag, no anchors.
- The template example row built in the dialog (`BulkImportDialog.tsx:42`) is not restated. `ParseStorySentence` covers every sentence of that shape.
- The existing epics and stories the import reads may be `null` in the source (`existingEpics?.find`); the model starts from lists.
- The result of the criteria insert is ignored by the source. The model lets it fail without affecting the row's outcome, and then stores no criterion.
- BulkImport.CriteriaRoundTrip: stated for comma-free clauses. The splitter only cuts at a comma followed by "When" or "Then", so other commas would also survive; that wider case is not proved.
- Drag visual feedback and the drag-leave geometry are not modelled: DOM styles and floating-point cursor positions.
- The persistence of positions after a reorder (one update per sibling, sent concurrently) is not modelled.
- ImportPreview.PreviewTable.Delete: models the corrected delete (see Findings). The as-written behaviour is `DeleteAsWritten`.
- Writing past the end of the rows on save (JavaScript arrays grow with holes) is not modelled. In the corrected model the index is always in range. As written, the only stale index past the end belongs to no shown row, so no Save button can be clicked for it.
- `onDataChange` is modelled as the parent replacing the rows with the new list. The table's parent is not part of this model.

## Findings

| source | as written | input that shows it | evidently intended | confidence | as-written member | corrected member |
|---|---|---|---|---|---|---|
| src/components/ImportPreviewTable.tsx:46-49 | `handleDelete` filters out the row but leaves `editingIndex` unchanged, and the other rows' delete buttons stay visible while a row is open | rows A, B, C, D; edit row 2 (C) and change its action; delete row 0 (A); save, with a parent that passes `updatedData` back as `data` (the component that mounts the table is not part of this model, so this is assumed): the rows become B, C, C'. D is overwritten, and C keeps its old text | the draft replaces the row that was opened: deleting a row above it moves the index up by one, deleting the row itself closes the editor; result B, C', D | not executed | ImportPreview.StaleIndexAfterDelete | ImportPreview.SaveAfterDeleteRow |
