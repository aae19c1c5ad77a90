# Telegram-export knowledge base: the indexing engine in Dafny

This project models the in-memory indexing engine of `app.js`. The application loads an
exported Telegram chat (`info.html`) and turns each message element into an item. An item
carries an id, the carried-over author, a formatted date, its HTML and plain text, its links,
up to six photo thumbnails, a category and tags. The application then offers three things:

- author and category facet lists;
- a search that filters by author, category and normalised text and ranks newer message
  ids first;
- HTML-escaped snippets in which the query is highlighted.

The model is split into these modules:

- `Text`:
  - `normalizeText`: collapse whitespace runs, trim, lower-case;
  - the string primitives the engine uses: `trim`, `includes`, `indexOf`, `join`.
- `Categorizer`:
  - `pickCategory`: the first rule whose key occurs in the normalised text wins, with the
    fallback `Прочее`;
  - the tag loop: every other matching rule;
  - the rule table is a parameter.
- `CategoryTable`: the shipped `CATEGORY_RULES`, the facts about it, and one worked message.
- `Dates`: `fmtDate`, which finds the leftmost `DD.MM.YYYY<ws>HH:MM` and renders it as
  `DD.MM.YYYY HH:MM`, and the date fallback to the visible time text.
- `Extractor`: the per-element loop of `loadTelegramExport`, which covers:
  - skipping non-`message` ids and empty shells;
  - the running `lastAuthor`;
  - links and thumbnails;
  - category and tags.

  The loop is an imperative method (`Extract`), proved equal to a fold (`Extracted`).
- `Facets`: `Array.from(new Set(…)).sort(…)`, which keeps first occurrences and then sorts.
- `Query`: the filter and sort stages of `doSearch`. The sort key is
  `parseInt(id.replace("message","")) || 0`. The sort is stable and puts higher keys first.
- `Snippet`: `escapeHtml`, `highlight` (escape first, then mark case-insensitive occurrences)
  and `buildSnippet`. `buildSnippet` finds the match in the normalised text but cuts the window
  from the original text, using a 260-character preview and a window of 90 characters before
  and 140 after.
- `Marks`: which occurrences `highlight` wraps. The global replace scans left to right and
  takes every occurrence that does not overlap the one before. `Marks` is that greedy scan,
  and the marked text is the escaped text with exactly those spans wrapped.
- `KnowledgeBase`: the application's `state` object as a class.
  - `LoadExport` fills the messages and the facets and sets `ready`.
  - `DoSearch` replaces only the result list.

The DOM is not modelled: `fetch`, `DOMParser`, `querySelector` and `stripHtml` are left out.
A parsed message element reaches the model as an `Element` value. It holds:

- the `id` attribute, with `""` when it is missing;
- the `.from_name` text, if there is one;
- the date `title` attribute and the date text, each `""` when missing;
- the inner HTML of `.text` and its text content (`plain`);
- the photo `src` values, in document order;
- the link `href` values, in document order.

Strings are sequences of Unicode code points.

Author carry-over follows the code rather than the shortest statement of it:

- The `continue` for a non-`message` id (app.js:77) comes before the author is read
  (app.js:80). An element skipped for its id therefore never changes `lastAuthor`.
- An empty shell, skipped at app.js:102, does update `lastAuthor`.

`Extractor.ExtractedAuthors` states the result: an item's author is the trimmed `.from_name`
of the nearest element at or before it that has a `message` id and a non-empty name. It is
`—` when there is no such element.

Matching the query against the escaped text (app.js:198) has a visible consequence.
`Snippet.HighlightInsideEntity` shows that the query `amp` marks the inside of the `&amp;`
entity that `escapeHtml` produced for `&`.

## Model

| member | source | states |
|---|---|---|
| Text.LowerFacts | app.js:30 | lower-casing one character never creates or removes whitespace, and lower-casing twice equals lower-casing once |
| Text.TrimStartDropsSpaces | app.js:29 | `trim` at the front drops exactly a run of whitespace, and the result starts with a non-space |
| Text.TrimEndDropsSpaces | app.js:29 | `trim` at the back drops exactly a run of whitespace, and the result ends with a non-space |
| Text.CollapseSpaces | app.js:28 | replacing every whitespace run by one space leaves no two adjacent spaces and no whitespace other than `' '`; the first character maps as the run rule says |
| Text.NormalizeIsNormal | app.js:26-31 | normalised text has single spaces only, none at either end, and every character already lower case |
| Text.NormalizeFixesNormal | app.js:26-31 | a text already in normal form is left unchanged by normalisation |
| Text.NormalizeIdempotent | app.js:26-31 | normalising twice equals normalising once |
| Text.NormalizeKeepsContent | app.js:26-31 | with the whitespace removed, the normalised text is the input's non-whitespace characters, in order, lower-cased |
| Text.CollapseSpread | app.js:28 | words separated by non-empty whitespace runs and followed by whitespace collapse to the words joined by single spaces, with one space at the end exactly when whitespace followed |
| Text.CollapseWords | app.js:28 | the same with whitespace in front as well: a leading run becomes one space, each run between words one space, a trailing run one space |
| Text.NormalizeWords | app.js:26-31 | words separated by whitespace runs, with any whitespace before and after, normalise to the lower-cased words joined by single spaces |
| Text.NormalizeBlank | app.js:26-31 | a text of whitespace only normalises to `""` |
| Text.NormalizeClean | app.js:26-31 | for a text with single spaces and no edge spaces, normalisation is plain lower-casing, even with a trailing space appended |
| Text.IndexOf | app.js:207 | `indexOf` returns -1 exactly when the key does not occur; otherwise the key occurs there and nowhere earlier |
| Categorizer.CategoryOfIsFirstMatch | app.js:33-39 | the category is that of the lowest-index rule with a key included in the text, or the fallback when no rule matches |
| Categorizer.FirstMatchExists | app.js:35-37 | when some rule matches, a lowest matching rule exists |
| Categorizer.FallbackExactlyWhenNoneMatch | app.js:33-39 | in a table that never names the fallback, `Прочее` is assigned if and only if no rule matches |
| Categorizer.PickCategory | app.js:33-39 | the scanning loop returns the first matching rule's category of the normalised text, and the fallback when none matches |
| Categorizer.CollectTags | app.js:105-110 | the tag loop yields, in table order, the category of every rule other than the primary one that matches the normalised plain text |
| Categorizer.TagsSoundAndComplete | app.js:105-110 | tags never contain the primary category; every tag is a matching rule's category; every other matching rule's category is a tag |
| Categorizer.TagsFollowTable | app.js:106-109 | tag `a` comes from a matching rule whose index strictly increases with `a` |
| Categorizer.TagsHaveNoDuplicates | app.js:106-109 | with distinct category names, no tag repeats |
| CategoryTable.TableIsWellFormed | app.js:14-24 | the shipped table's categories are pairwise distinct and none is the fallback |
| CategoryTable.OilChangeNormalization | app.js:26-31 | `Замена масла в вариаторе CVT` normalises to `замена масла в вариаторе cvt`, with or without a trailing space |
| CategoryTable.OilChangeCategory | app.js:14-39 | that message is categorised `Обслуживание (ТО)`, because the key `то` occurs inside `вариаторе` |
| CategoryTable.OilChangeTags | app.js:105-110 | its tags are exactly `Масла и жидкости` then `Ремонт/Инструкции` |
| Dates.SpaceRunEnd | app.js:49 | the greedy `\s+` run starting at `j` ends at the first non-space at or after `j` |
| Dates.FirstMatchFrom | app.js:49 | the search returns the leftmost index at which the date pattern matches, or none when it matches nowhere |
| Dates.RenderedFormatted | app.js:51 | the text rendered from a match has the `DD.MM.YYYY HH:MM` shape |
| Dates.FmtDateSpec | app.js:47-52 | without a match the input comes back unchanged; with one the result has the `DD.MM.YYYY HH:MM` shape and is rendered from the leftmost match |
| Dates.FormattedMatchesItself | app.js:49-51 | a formatted date matches at 0 and renders to itself |
| Dates.FmtDateIdempotent | app.js:47-52 | formatting a formatted date changes nothing |
| Dates.FmtDateEmptyIff | app.js:50 | `fmtDate` yields `""` if and only if the title is `""` |
| Dates.DateField | app.js:84-86 | the date is the formatted title, or the trimmed time text when the title is missing |
| Dates.TelegramTitleFormatted | app.js:48-51 | `06.09.2024 11:08:21 UTC+06:00` formats to `06.09.2024 11:08` |
| Extractor.NonEmpty | app.js:95 | `.filter(Boolean)` keeps at most as many values, all of them non-empty |
| Extractor.NonEmptyKeeps | app.js:97-99 | the filter keeps exactly the non-empty values, and changes nothing when there are no empty values |
| Extractor.Thumbs | app.js:92-95 | at most six thumbnails, all non-empty |
| Extractor.NonEmptyCounts | app.js:97-99 | the filter keeps every non-empty value as often as it occurs, and never `""` |
| Extractor.NonEmptyConcat | app.js:97-99 | filtering a concatenation is concatenating the filtered parts, so the filter keeps the order of the values |
| Extractor.ThumbsKeep | app.js:92-95 | the thumbnails are exactly the non-empty sources among the first six photos, because the cap applies before empties are dropped |
| Extractor.ThumbsShort | app.js:92-95 | with at most six photos, the thumbnails are exactly the filtered sources |
| Extractor.ThumbsCap | app.js:92-95 | photos after the sixth never contribute: the thumbnails are the filtered first six, each source as often as it occurs there |
| Extractor.LastNamedIsNearest | app.js:73-81 | the running author is the last non-empty name seen, or `—` when there is none |
| Extractor.Extract | app.js:73-123 | the loop's items equal the fold over the elements |
| Extractor.KeptIndicesInOrder | app.js:75-102 | the kept element indices are in range, strictly increasing, and each one is not skipped |
| Extractor.KeptIndicesComplete | app.js:77-102 | every element that is not skipped appears among the kept indices |
| Extractor.ExtractedFollowsNodes | app.js:75-123 | item `a` is built from the `a`-th kept element with the author carried up to and including it |
| Extractor.BuildWellFormed | app.js:83-122 | a built item has a `message` id, is not a shell, has at most six non-empty thumbnails and non-empty links, and its tags are sound and complete for its plain text |
| Extractor.ExtractedWellFormed | app.js:73-123 | every extracted item is well formed |
| Extractor.ExtractedAuthorsCarried | app.js:79-81 | each item's author is the running author at its element |
| Extractor.ExtractedAuthors | app.js:73-81 | each item's author is the nearest declared name at or before it among `message` elements, or `—` |
| Facets.LessTotal | app.js:127 | any two different strings are ordered |
| Facets.LessTransitive | app.js:127 | the order is transitive |
| Facets.LessIrreflexive | app.js:127 | no string is below itself |
| Facets.DedupeDistinct | app.js:127 | the `Set` keeps each value once, and a value is kept if and only if it occurs |
| Facets.InsertMultiset | app.js:127 | insertion adds its value to the multiset and keeps every other value |
| Facets.InsertSorted | app.js:127 | inserting a new value keeps the list strictly increasing |
| Facets.SortMultiset | app.js:127 | sorting is a permutation |
| Facets.SortSorted | app.js:127 | sorting distinct values yields a strictly increasing list |
| Facets.FacetSortedAndComplete | app.js:127-128 | a facet list is strictly increasing and holds exactly the input values |
| Facets.SortedUnique | app.js:127-128 | two strictly increasing lists with the same values are equal, so the facet list is the only sorted list of distinct values |
| Facets.AuthorsFacet | app.js:127 | the author facet is strictly increasing and lists exactly the authors of the items |
| Facets.CategoriesFacet | app.js:128 | the category facet is strictly increasing and lists exactly the categories of the items |
| Query.RemoveFirst | app.js:236 | without an occurrence the id is unchanged; otherwise the first occurrence, and only it, is cut out |
| Query.DigitRun | app.js:236 | the leading run of decimal digits, ended by a non-digit or the end |
| Query.DecimalValue | app.js:236 | the digits of `n` read back as `n` |
| Query.KeyOfTelegramId | app.js:236 | the key of `message<n>` is `n` |
| Query.KeyWithoutDigits | app.js:236 | with no digit after the removed prefix the key is 0 (`NaN \|\| 0`) |
| Query.Keep | app.js:225-232 | `filter` keeps exactly the elements that pass, and no more of them |
| Query.KeepMultiset | app.js:225-232 | each passing element is kept as often as it occurs, and the others are dropped |
| Query.KeepKeep | app.js:225-232 | two filters in a row equal one filter by both conditions |
| Query.KeepAll | app.js:225-232 | a filter everything passes changes nothing |
| Query.KeepSame | app.js:225-232 | two filters that agree on every message keep the same list |
| Query.StageAsKeep | app.js:225-232 | an optional stage equals the filter "switched off, or passes" |
| Query.StageAfterKeep | app.js:225-232 | an optional stage after a filter equals one filter by both conditions |
| Query.ThreeStages | app.js:225-233 | three optional filter stages keep exactly what passes every switched-on filter |
| Query.StagesSelect | app.js:221-233 | the author, category and text stages keep exactly the messages that pass, in input order |
| Query.SelectedMembers | app.js:221-233 | a message is selected if and only if it is in the list and passes |
| Query.SelectedAllWhenEmpty | app.js:225-228 | with every input empty, nothing is filtered out |
| Query.InsertDescMultiset | app.js:236 | insertion adds its value to the multiset and keeps every other value |
| Query.InsertDescSorted | app.js:236 | insertion keeps keys non-increasing |
| Query.SortDescMultiset | app.js:236 | the sort is a permutation |
| Query.SortDescSorted | app.js:236 | the sort leaves keys non-increasing |
| Query.SortDescStable | app.js:236 | messages of equal key keep their input order |
| Query.SortDescSpec | app.js:236 | the sort is a stable permutation into non-increasing key order |
| Query.Search | app.js:221-238 | the result holds exactly the passing messages as a permutation of the selection, sorted by key with higher keys first, stable within a key, and all messages when every input is empty |
| Snippet.EscapeHtml | app.js:191-193 | escaping never shortens the text |
| Snippet.EscapeSafe | app.js:191-193 | the output has no `<`, `>`, `"` or `'`, and every `&` begins one of the five entities |
| Snippet.UnescapeEscape | app.js:191-193 | unescaping the escaped text gives back the original |
| Snippet.StripPlain | app.js:197-198 | tag stripping passes text without `<` through unchanged |
| Snippet.StripMarkAll | app.js:198 | removing the `<mark>` tags from the marked text gives back the text |
| Snippet.MarkAllNoMatch | app.js:198 | without a case-insensitive occurrence nothing is marked |
| Snippet.HighlightSpec | app.js:195-199 | without the `<mark>` tags the highlighted text is exactly the escaped text, and it unescapes to the original; when the query does not occur in the escaped text, `highlight` only escapes |
| Snippet.HighlightInsideEntity | app.js:198 | highlighting `amp` in `&` gives `&<mark>amp</mark>;` |
| Snippet.PreviewSpec | app.js:205 | a text of at most 260 characters is shown whole and escaped (the preview equals `escapeHtml(plain)`) with no ellipsis; a longer one is its first 260 characters, escaped, then `…` |
| Snippet.SnippetStripped | app.js:201-214 | without its `<mark>` tags every snippet is an escaped slice of `plain`, followed by `…` exactly when the slice stops before the end of `plain` |
| Snippet.SnippetSafe | app.js:201-214 | without its `<mark>` tags every snippet holds no `<`, `>` or quote and every `&` begins an entity: the only markup in a snippet is the mark tags |
| Snippet.StripEllipsis | app.js:213 | appending the `…` after the highlighted window adds nothing that reads as a mark tag: dropping the tags commutes with it |
| Snippet.SnippetWithoutMatch | app.js:201-208 | with an empty or unmatched normalised query, the snippet is the preview |
| Snippet.SnippetWindow | app.js:207-213 | with a match, the snippet highlights `plain` from 90 characters before the first match in the normalised text, or from the start when the match lies within the first 90, up to 140 characters after the match or the end of `plain`; it ends with `…` exactly when the window stops before `plain` does; without the tags it reads as that slice |
| Marks.MarksSpec | app.js:198 | every mark is a case-insensitive occurrence of the query, marks lie at least the query's length apart, and every occurrence that no earlier mark overlaps is a mark |
| Marks.MarkAllWraps | app.js:198 | the global replace yields the text with exactly the marked spans wrapped in `<mark>` tags, each as written in the text |
| Marks.HighlightWraps | app.js:195-199 | `highlight` with a query is the escaped text with exactly the greedy occurrences of the query wrapped |
| KnowledgeBase.KnowledgeBase.constructor | app.js:4-12 | the initial state has no messages, no results, empty facets and is not ready |
| KnowledgeBase.IndexFacts | app.js:73-128 | the extracted messages are all well formed, and with their computed facets they form an indexed state |
| KnowledgeBase.IndexedFacets | app.js:127-128 | in an indexed state both facet lists are strictly increasing and hold exactly the authors and the categories of the messages |
| KnowledgeBase.KnowledgeBase.LoadExport | app.js:73-132 | after loading, the messages are the extracted ones, all well formed; the facets are the computed ones, strictly increasing and holding exactly the messages' authors and categories; the base is ready; the result list is unchanged |
| KnowledgeBase.KnowledgeBase.DoSearch | app.js:221-238 | only the result list changes, and it becomes the stable, key-descending permutation of the messages that pass |
| Text.Normalize | app.js:26-31 | definition of `normalizeText`; never longer than its input; its meaning is stated by `NormalizeIsNormal`, `NormalizeKeepsContent` and `NormalizeWords` |
| Categorizer.CategoryOf | app.js:33-39 | definition of `pickCategory`; stated by `CategoryOfIsFirstMatch` |
| Categorizer.TagsOf | app.js:105-110 | definition of the tag loop; stated by `TagsSoundAndComplete` and `TagsFollowTable` |
| Dates.FmtDate | app.js:47-52 | definition of `fmtDate`; stated by `FmtDateSpec` |
| Extractor.Build | app.js:83-122 | the item built from one element; stated by `BuildWellFormed` |
| Extractor.Extracted | app.js:73-123 | the items of `loadTelegramExport`; stated by `ExtractedFollowsNodes` and `ExtractedAuthors` |
| Query.Key | app.js:236 | the sort key; stated by `KeyOfTelegramId` and `KeyWithoutDigits` |
| Query.Passes | app.js:225-232 | the three filter conditions of `doSearch`; stated by `SelectedMembers` |
| Query.Selected | app.js:225-233 | the filtered list of `doSearch`; stated by `StagesSelect` and `SelectedMembers` |
| Query.SortDesc | app.js:236 | the stable descending sort; stated by `SortDescSpec` |
| Facets.Facet | app.js:127-128 | `Array.from(new Set(…)).sort(…)`; stated by `FacetSortedAndComplete` |
| Snippet.MarkAll | app.js:198 | the global `<mark>` replace; stated by `MarkAllWraps` and `StripMarkAll` |
| Snippet.Highlight | app.js:195-199 | definition of `highlight`; stated by `HighlightSpec` and `HighlightWraps` |
| Snippet.Preview | app.js:205 | the 260-character preview: the whole text escaped when it is at most 260 characters long, otherwise the escaped first 260 then `…`; stated by `PreviewSpec`, and by `SnippetSafe` for its markup |
| Snippet.BuildSnippet | app.js:201-214 | definition of `buildSnippet`; stated by `SnippetWithoutMatch`, `SnippetWindow`, `SnippetStripped` and `SnippetSafe` |
| Marks.Marks | app.js:198 | the greedy left-to-right occurrences; stated by `MarksSpec` |

## Left out

- Loading and parsing: `fetch`, `DOMParser`, `querySelector`, `getAttribute` and the `|| ""` defaults for missing attributes. These are I/O or a browser API; a missing value reaches the model as `""` or `None`.
- `stripHtml` (app.js:41-45) needs the browser's HTML parser, so an element's text content `plain` is an input.
- `loadConfig`, `config`, the pinned list and the unused `state.lastAuthor` field (app.js:54-61, 167-189). They are I/O or outside the engine.
- Rendering: `renderFilters`, `renderResults` with its 200-item cap, `openItem`, `route`, `init`. These are DOM output.
- Text.Lower: lower-cases only ASCII and basic Cyrillic capitals (U+0400..U+042F). Full Unicode `toLowerCase` (special casings, other scripts) needs the Unicode tables.
- Snippet.MatchAt: the `i` flag is modelled by comparing lower-cased characters, which is not JavaScript's upper-case canonicalisation. The `$&` escaping of the query is not modelled; the query is treated as the literal text it escapes to.
- Snippet.Preview: counts code points, where JavaScript's `slice` and `length` count UTF-16 code units. For a text of characters outside the Basic Multilingual Plane (200 × U+1F600, length 400 in JavaScript), the 260 cut and the `…` test differ, and JavaScript can cut a surrogate pair in half.
- Snippet.BuildSnippet: the 90 and 140 window bounds and the match index count code points, not UTF-16 code units, so the window differs from JavaScript's for text outside the Basic Multilingual Plane.
- Text.IndexOf: returns a code-point index, not JavaScript's UTF-16 code-unit index; the two agree only on text inside the Basic Multilingual Plane.
- Facets.Less: orders by code point, not by `localeCompare(…, 'ru')`. Collation depends on ICU data.
- Query.Key: does not model `parseInt`'s leading whitespace, sign, `0x` prefix or precision limits. Only the decimal digits that directly follow the removed `message` count.
- Query.Search: receives the already-trimmed query. The `.value.trim()` read of the input box is DOM I/O, and `(x.links||[])` is always a list here.
- Dates.MatchAt: the regular expression engine is replaced by a direct scan. The scan is equivalent for this one pattern, because a digit is never whitespace.
