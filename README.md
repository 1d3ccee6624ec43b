# Magpie Clipper quote store, modelled in Dafny

Magpie Clipper is a browser extension for saving highlighted text ("quotes")
into named files. All three surfaces share one store: a dictionary from file
name to file, kept under the `files` key of the extension's local storage.
Each file holds its name, a creation time and its quotes in the order they
were saved. Each quote holds an id, the text, the page URL and title, and the
save time.

The model has five modules, one per concern of the extension:

- `Text` models the JavaScript string built-ins the code relies on:
  - the `\s` class and `trim`;
  - `toLowerCase`/`includes` matching;
  - the default `sort` order on strings;
  - `split`/`join`, and the markdown block quote built from them.
- `Store` models the shared data:
  - the `Quote`, `File` and `Entry` values and the `LocalStorage` area;
  - the store invariant `WellFormed`: each file sits under its own name, and
    no file is left without quotes;
  - the two store updates the surfaces share: append a quote (content
    script) and remove a quote by id (popup and viewer);
  - the sorted list of file names.
- `Content` models the content script (`content.js`):
  - file-name sanitising;
  - the tooltip's file-name dropdown: filtering, the "Create" entry, the
    highlighted row and the arrow keys;
  - the tooltip placement clamp;
  - the save itself, as a `ContentScript` class with the script's state.
- `Page` models the full-page viewer (`page/index.js`):
  - flattening the store into one list tagged with file names;
  - the stable newest-first sort;
  - search and file filters;
  - grouping by source page;
  - the markdown export grouped by source;
  - single, batch and total deletion, as a `Viewer` class whose fields are
    the page's globals.
- `Popup` models the toolbar popup (`popup/popup.js`):
  - the file list view, its previews and the `truncate` helper;
  - file selection;
  - deletion of a file, a quote, the selected files or everything;
  - the flat markdown export, as a `Popup` class.

Things the code gets from the browser are parameters of the model:
- the quote id and the clock readings;
- the page URL and title;
- the URL parser behind `getSourceKey` (`parse`);
- the long date formatter of the popup export (`formatDate`).

## Model

| member | source | states |
|---|---|---|
| Text.Trim | content.js:247 | `trim` leaves no whitespace at either end and removes only whitespace, from the two ends of the string |
| Text.TrimTrimmed | content.js:247 | trimming a string without outer whitespace returns it unchanged |
| Text.TrimAllSpace | content.js:247-248 | a name made only of whitespace trims to the empty string, which the save then refuses |
| Text.TrimStartIsSuffix | content.js:247 | trimming the start leaves a suffix of the string |
| Text.TrimStartDropsSpace | content.js:247 | trimming the start drops only whitespace |
| Text.TrimEndIsPrefix | content.js:247 | trimming the end leaves a prefix of the string |
| Text.TrimEndDropsSpace | content.js:247 | trimming the end drops only whitespace |
| Text.LessEqTotal | content.js:240 | the default string sort order relates any two names |
| Text.LessEqAntisymmetric | content.js:240 | two names that sort at or before each other are equal |
| Text.LessEqTransitive | content.js:240 | the default string sort order is transitive |
| Text.ToLower | content.js:127 | `toLowerCase` keeps the length and lower-cases each ASCII letter in place |
| Text.ContainsAt | content.js:127 | `includes` holds exactly when the term occurs at some position of the text |
| Text.ContainsIgnoringCaseAt | page/index.js:102-104 | the case-insensitive match holds exactly when the lower-cased term occurs at some position of the lower-cased text |
| Text.Split | popup/popup.js:259 | `split('\n')` gives at least one piece, and no piece holds a newline |
| Text.SplitJoin | popup/popup.js:259 | joining newline-free pieces with `\n` and splitting again gives the pieces back |
| Text.JoinSplit | popup/popup.js:259 | splitting on `\n` and joining with `\n` gives the text back |
| Text.JoinSnoc | popup/popup.js:259 | joining one more piece appends the glue and that piece to the join of the others |
| Text.QuoteLines | page/index.js:295 | the block quote starts with the `> ` marker |
| Text.QuoteLinesOneLine | page/index.js:295 | a text without a newline is just that text behind the `> ` marker |
| Text.QuoteLinesPrefixEveryLine | page/index.js:295 | the block quote of a text has exactly the text's lines, each with `> ` in front |
| Text.BlockQuoteLines | popup/popup.js:259 | a quote's paragraph in either export is the text's lines, each behind `> `, then a blank line |
| Store.AppendQuote | content.js:258-270 | the file gets the quote at its end, and is created with the given name and time when missing; no other file changes; the store invariant is kept |
| Store.WithoutId | page/index.js:252 | filtering by id keeps, in order, exactly the quotes with a different id |
| Store.WithoutIdCounts | page/index.js:252 | each quote with another id is kept as often as it occurs and those with the id are dropped |
| Store.RemoveQuote | page/index.js:250-256 | a missing file leaves the store alone; otherwise the file loses every quote with that id and is dropped exactly when it is left empty; no other file changes; the invariant is kept |
| Store.RemoveQuoteIdempotent | popup/popup.js:223-229 | deleting the same quote twice equals deleting it once |
| Store.ListFileNames | content.js:237-241 | `Object.keys(files).sort()` lists every file name exactly once, in strictly ascending order |
| Content.StripDisallowed | content.js:247 | the regex replace gives an in-order subsequence of the name holding only characters in `[a-zA-Z0-9-_\s]` and every such character of the name, and keeps a name made only of them as it is |
| Content.StripDisallowedCounts | content.js:247 | each allowed character is kept as often as it occurs in the name and every other one is dropped, which with the subsequence ensures fixes the result |
| Content.Sanitize | content.js:247 | a sanitised name holds only allowed characters and has no outer whitespace |
| Content.SanitizeIdempotent | content.js:247 | sanitising a sanitised name changes nothing |
| Content.SanitizeKeepsCleanName | content.js:247 | a clean, trimmed name is kept as typed |
| Content.AppendQuoteAsWritten | content.js:261-269 | the save as written fails exactly for an absent name inherited from `Object.prototype`; otherwise it is the intended append |
| Content.InheritedNameLosesQuote | content.js:261-269 | "constructor" survives sanitising, and the save as written loses the quote where the intended append stores it |
| Content.FilterNames | content.js:124-128 | the dropdown keeps, in order, exactly the names containing the typed value, ignoring case |
| Content.FilterNamesCounts | content.js:124-128 | each matching name is kept as often as it occurs and every other one is dropped |
| Content.FilterNamesEmpty | content.js:126-128 | with nothing typed, every name is listed |
| Content.FilterNamesKeepsExactName | content.js:126-128 | the typed value is still listed after filtering exactly when it is an existing name |
| Content.RenderDropdown | content.js:206-235 | a highlighted "Create" row comes first exactly when the value is non-empty and not listed; then one row per name, the first highlighted only when nothing is typed; the empty hint shows exactly when there is neither a name nor a value; at most one row is highlighted |
| Content.CreateEntryIffNewName | content.js:124-131 | after typing, the first row is a highlighted "Create" row for the typed value exactly when the value is non-empty and is not an existing file name |
| Content.ActiveIndex | content.js:134-136 | `indexOf` of the highlighted row: the first highlighted position, or -1 when none is highlighted |
| Content.FirstNameActiveWhenNothingTyped | content.js:219-222 | when the tooltip opens on a non-empty store, the first file name is highlighted |
| Content.NextDown | content.js:138-144 | ArrowDown moves the highlight one row down, and stays put on the last row |
| Content.NextUp | content.js:145-151 | ArrowUp moves the highlight one row up; it stays put on the first row or when nothing is highlighted |
| Content.MoveActive | content.js:141-142 | moving the highlight changes only the rows it moves from and to |
| Content.MoveActiveHighlightsTarget | content.js:138-151 | after a move, exactly the target row is highlighted |
| Content.PositionTooltip | content.js:180-204 | left is the selection's left edge, or the right-margin position when the tooltip would cross it, raised to 10; top is 10 below the selection, or 10 above it when the tooltip would cross the bottom margin, raised to 10; so the tooltip is at least 10 from the top and left edges, at the selection when that fits, and inside the right margin when the view is wide enough |
| Content.SaveTarget | content.js:152-159 | Enter saves to the highlighted row's name; without one, to the trimmed input if that is not blank; otherwise nothing is saved |
| Content.StoredNamesDropdown | content.js:124-131 | the dropdown is rendered from every stored file name, once each and in ascending order, filtered by the typed value; at most one row is highlighted |
| Content.ContentScript.ShowTooltip | content.js:91-117 | opening the tooltip renders the dropdown from every stored name, in ascending order, with nothing typed; the selected text is kept |
| Content.ContentScript.OnTriggerSave | content.js:33-57 | the shortcut opens the tooltip on the trimmed selection, its dropdown listing every stored name with nothing typed, and does nothing for a blank one |
| Content.ContentScript.OnShowTooltip | content.js:60-88 | the context-menu message opens the tooltip on the trimmed text it carries, its dropdown listing every stored name with nothing typed, and does nothing without text |
| Content.ContentScript.OnInput | content.js:124-131 | typing re-renders the dropdown from the sorted store names filtered by the typed value |
| Content.ContentScript.OnArrowDown | content.js:138-144 | ArrowDown moves the highlight as `NextDown` says and changes nothing else |
| Content.ContentScript.OnArrowUp | content.js:145-151 | ArrowUp moves the highlight as `NextUp` says and changes nothing else |
| Content.PushQuote | content.js:258-270 | the store becomes the old store with the quote appended to the named file, created when missing; the store invariant is kept |
| Content.SaveSelection | content.js:243-270 | nothing is written without a name, without selected text, or when the name sanitises to nothing; otherwise the quote is appended to the sanitised file; the store invariant is kept |
| Content.ContentScript.SaveToFile | content.js:243-274 | a save happens exactly when the name and selection are non-empty and the name sanitises to something; it appends the quote to the sanitised file and closes the tooltip; otherwise nothing changes |
| Content.ContentScript.RemoveTooltip | content.js:293-299 | closing the tooltip removes it and its rows, and keeps the selected text |
| Content.ContentScript.OnKeyDown | content.js:318-322 | Escape closes the tooltip; any other key changes nothing |
| Content.ContentScript.OnClick | content.js:312-316 | a click outside the open tooltip closes it; a click inside it, or with no tooltip, changes nothing |
| Content.ContentScript.OnEnter | content.js:152-173 | Enter and Save save exactly when there is a non-empty target, selected text and a target that survives sanitising; a save appends the quote under the sanitised target and closes the tooltip; every other case writes nothing and leaves the tooltip as it was |
| Page.Tag | page/index.js:26-31 | each of a file's quotes becomes one entry tagged with the file's name, in order |
| Page.TagCounts | page/index.js:26-31 | tagging keeps each quote's number of occurrences |
| Page.Flatten | page/index.js:24-32 | the flat list holds exactly the quotes of the enumerated files, one entry per stored quote |
| Page.FlattenCounts | page/index.js:24-32 | over distinct file names, each entry occurs as often as its quote occurs in its file |
| Page.AppendTagged | page/index.js:26-31 | the inner loop appends one file's quotes, tagged with its name, in order |
| Page.FlattenQuotes | page/index.js:24-32 | the nested loop builds the flattening over some enumeration of the store's file names |
| Page.SortNewestFirst | page/index.js:35 | the sorted list is newest first and a permutation of its input |
| Page.InsertNewest | page/index.js:35 | inserting an entry keeps the list newest first and adds exactly that entry |
| Page.SortNewestFirstStable | page/index.js:35 | the sort is stable: entries saved at the same time keep their relative order |
| Page.FilterQuotes | page/index.js:96-112 | filtering keeps, in order, exactly the entries that match the search (case-insensitive, in text, title or file name) and the file filter; with no search and "All files" it keeps everything |
| Page.FilterQuotesCounts | page/index.js:96-112 | each matching entry is kept as often as it occurs and every other one is dropped |
| Page.SourceKey | page/index.js:114-122 | the source key is the parser's origin and path, or the raw URL when it does not parse |
| Page.EntriesWithKey | page/index.js:124-133 | the entries of one source key are exactly those whose URL maps to that key |
| Page.KeyOrder | page/index.js:124-133 | the group keys are distinct, and are exactly the keys of the groups built |
| Page.GroupsOfKey | page/index.js:124-133 | a key has a group exactly when some entry has that key, and the group holds exactly those entries, in order |
| Page.CollectBySource | page/index.js:124-133 | the grouping loop builds the group map and its key order |
| Page.SortGroups | page/index.js:135-140 | the groups are sorted by size (largest first), then by key, and none is lost or added |
| Page.GroupBySource | page/index.js:124-141 | each entry lies in the group of its source key; each group holds exactly its key's entries, in order, and is non-empty; keys are distinct; groups are sorted by size, then by key |
| Page.QuotesWithKey | page/index.js:282-289 | one source section holds exactly the file's quotes with that key |
| Page.FirstSeenKeys | page/index.js:282-289 | the section keys are distinct, and are exactly the keys some quote has, in order of first appearance |
| Page.SectionsCoverEveryQuote | page/index.js:282-297 | the sections together hold exactly as many quotes as the file, so each quote is exported exactly once |
| Page.SourceGroupsOfKey | page/index.js:282-289 | each source group holds exactly its key's quotes and carries the title and URL of the first one |
| Page.CollectSourceGroups | page/index.js:282-289 | the grouping loop builds the source groups and their first-appearance order |
| Page.WriteSection | page/index.js:291-297 | one section is its heading (title or "Source", and a link) followed by a block quote per quote |
| Page.GenerateMarkdown | page/index.js:278-300 | the export is the file name as title, then one section per source page, in order of first appearance |
| Page.FindById | page/index.js:236 | `find` returns nothing exactly when no entry has the id, and otherwise an entry with that id |
| Page.FindByIdFirst | page/index.js:236 | `find` returns the first entry with the id |
| Page.WithoutIds | page/index.js:235-240 | removing a set of ids keeps, in order, exactly the quotes whose id is not in it |
| Page.WithoutIdsCounts | page/index.js:235-240 | each quote whose id is not selected is kept as often as it occurs and the others are dropped |
| Page.BatchDeleteSurvivors | page/index.js:235-240 | a stored quote survives the batch delete exactly when it was not selected and located in its own file; surviving files keep their order |
| Page.RemoveNothing | page/index.js:229-248 | a batch delete with nothing selected leaves the store as it is |
| Page.PruneStep | page/index.js:235-240 | one turn of the loop, deleting one more located quote, gives the closed form with that id added |
| Page.Viewer.LoadFiles | page/index.js:19-37 | the page's copy of the store is the stored one; the list is its flattening sorted newest first, and is shown unfiltered |
| Page.Viewer.Init | page/index.js:11-17 | the first load shows every quote with "All files" selected |
| Page.Viewer.Refresh | page/index.js:242-245 | the reload after a delete rebuilds the list, resets the file filter to "All files" and re-applies the search |
| Page.Viewer.ApplyFilters | page/index.js:96-112 | the shown list is the filtered list for the current search and file filter |
| Page.Viewer.OnSearch | page/index.js:88-90 | a new search term re-filters the list |
| Page.Viewer.OnFilter | page/index.js:92-94 | a new file filter re-filters the list |
| Page.Viewer.HandleCheckbox | page/index.js:200-208 | ticking adds the quote's id to the selection; unticking removes it |
| Page.Viewer.DeleteQuote | page/index.js:250-265 | the store becomes `RemoveQuote` of the old store and is written back; the page refreshes when asked and the file exists, and otherwise keeps its lists |
| Page.Viewer.BatchDelete | page/index.js:229-248 | the store loses exactly the selected quotes, each located through the flat list before the deletes; the selection is cleared and the page refreshed once |
| Page.Viewer.DeleteAll | page/index.js:68-86 | nothing happens without quotes; otherwise the store, both lists and the selection are emptied, and the filter is reset |
| Popup.Truncate | popup/popup.js:305-308 | a text that fits is kept; a longer one becomes its first `maxLength` characters followed by "..." |
| Popup.TruncateIdempotent | popup/popup.js:305-308 | truncating a preview again changes nothing |
| Popup.Line | popup/popup.js:96-101 | a quote's preview is its text truncated to 150 characters, and its source line is its title truncated to 40, or its URL when there is no title; it keeps the quote's id and URL |
| Popup.Card | popup/popup.js:63-114 | a file card shows the file's quote count, its tick state and one preview per quote, in order |
| Popup.RenderFiles | popup/popup.js:48-114 | the empty state shows exactly when there is no file; otherwise there is one card per file, in strictly ascending name order |
| Popup.QuoteSectionsAppend | popup/popup.js:257-262 | the export of two runs of quotes is the export of each, in turn |
| Popup.ExportAfterSave | popup/popup.js:254-265 | saving a quote to a file appends exactly that quote's section to the file's export |
| Popup.WriteQuote | popup/popup.js:258-261 | the four appended lines of one quote are exactly its export section |
| Popup.GenerateMarkdown | popup/popup.js:254-265 | the export is the file name as title, then per quote a rule, its block quote, its source link and its long date |
| Popup.Popup.LoadFiles | popup/popup.js:15-18 | the popup's copy of the store is the stored one |
| Popup.Popup.HandleCheckboxChange | popup/popup.js:151-159 | ticking adds the file to the selection; unticking removes it |
| Popup.Popup.DeleteFile | popup/popup.js:216-221 | the file is removed from the store and from the selection, and the selection stays within the listed files |
| Popup.Popup.DeleteQuote | popup/popup.js:223-233 | the store becomes `RemoveQuote` of the old store; a file left empty is unticked; a missing file changes nothing |
| Popup.Popup.BatchDelete | popup/popup.js:200-214 | the store loses exactly the ticked files; the selection is cleared |
| Popup.Popup.DeleteAll | popup/popup.js:32-46 | nothing happens without files; otherwise the store and the selection are emptied |

## Left out

- Asynchronous storage access is not modelled: each handler runs to completion, as if no other handler or tab writes the store meanwhile. `Page.Viewer.Valid` and `Popup.Popup.Valid` state that the surface's copy of the store equals the stored one; `Content.ContentScript.Valid` only states that at most one dropdown row is highlighted.
- The DOM is not modelled:
  - HTML building and `escapeHtml`;
  - toasts, scrolling and focus, including the focus `removeTooltip` restores;
  - adding and removing the document's `click` and `keydown` listeners (the two handlers themselves are modelled as `OnClick` and `OnKeyDown`);
  - the confirmation modal, which is modelled as the confirmed callback;
  - `toggleFileExpand`;
  - the batch-bar and batch-button labels.
- `buildQuotesList` of the viewer, which only writes the quote count, is not modelled; `renderQuotes` is modelled only by the grouping it calls (`groupQuotesBySource`). `populateFileFilter` is modelled only by its effect of resetting the filter to "All files"; its option labels are not.
- Downloads are not modelled. `exportAll`, `exportFile` and `exportAllFiles` only call `generateMarkdown` and download the result; both `generateMarkdown` functions are modelled.
- `background.js` (context menu and keyboard command wiring) is not part of this model; the content script's two messages are modelled as `OnTriggerSave` and `OnShowTooltip`.
- `generateId`, `window.location.href`, `document.title` and `new Date()` are parameters of the save.
- Save times are integers; the ISO-8601 strings and their `new Date` difference in the newest-first comparator are not modelled.
- `new URL(url)` is the parameter `parse`; a `None` result stands for the thrown error that makes the raw URL the key.
- `toLocaleDateString` is the parameter `formatDate`. The popup's short date labels are not modelled.
- `sort()` is modelled as code-point order (`LessEq`), which equals its UTF-16 code-unit order on strings without characters above U+FFFF, such as every sanitised file name; `localeCompare` in the group sort is modelled as the same order, and locale collation is not modelled.
- `toLowerCase` is modelled on ASCII letters only.
- Strings are sequences of code points, not UTF-16 code units, so `length` and `slice` in `Truncate` count code points.
- The iteration order of `Object.entries` over the store is left open (any enumeration of the names). The rule that puts integer-like keys first is not modelled, and neither is the key order of the group objects: the model uses insertion order.
- The iteration order of the selection `Set` in the two batch deletes is left open; the results are proved independent of it.
- `positionTooltip` is modelled on integer pixels, with the selection rectangle and the tooltip size as inputs. The fallbacks that pick the rectangle are not modelled.
- The lookups `files[name]` in the viewer's `deleteQuote`, the popup's `deleteQuote` and `exportFile`, and the group objects also see inherited `Object.prototype` members. The model treats such a name as absent, which is the intended behaviour; the save's instance is listed under Findings.
- A single delete in the viewer leaves the deleted id in `selectedQuotes`. The model keeps that behaviour, since it is what the viewer does.

## Findings

| source | as written | input that shows it | evidently intended | confidence | as-written member | corrected member |
|---|---|---|---|---|---|---|
| content.js:261-269 | `if (!files[sanitizedName])` is a truthiness check, so an absent name inherited from `Object.prototype` (such as `constructor`) finds the inherited function, no file is created, and `files[sanitizedName].quotes.push` throws before the store is written | saving any selection to a new file named "constructor" | create the file when the store has no own entry of that name, then append the quote | high, not executed | Content.AppendQuoteAsWritten | Store.AppendQuote |
