# Name Your Calories — a verified model of its core

Name Your Calories has three parts:

- a scraper that reads restaurant nutrition PDFs into a menu table;
- a Flask API that filters that table;
- a React page that lets a user pick a restaurant, categories and a calorie range.

This project models the logic of all three in Dafny and proves what each of them promises.

- **PDF scraper** (`backend/pdf_cache.py`), modules `PdfColumns` and `PdfCache`:
  - `get_indices` finds the column of each macro from the first table of a page. It transposes the table, normalises each column's text and searches it for the reversed header words. It is modelled as a method with a loop, proved equal to a column-by-column reference function.
  - The page/table/row loops of `parse_menu_pdf` are modelled as three methods, one per loop level. They are proved against a declarative reference stated over the flattened stream of the rows the loop body visits:
    - the first exception a row raises ends the scan;
    - `last_category` is the most recent header;
    - every data row becomes an item carrying that category.

    Each row's fate is characterised exactly: short, header, incomplete, unparsable, item, `IndexError`, `AttributeError` or `KeyError`.
- **HTTP handlers** (`backend/routes.py`), module `Routes`:
  - `get_menu` parses its arguments, selects the matching rows, orders them by calories (highest first) and builds the reply.
  - `get_restaurants` lists the sorted, distinct restaurant names.
- **Client** (`frontend/src/App.tsx`), modules `Params` and `App`:
  - `paramsSerializer` is modelled as a method with loops, proved against a specification of the pairs it appends.
  - The page state is a class whose event-handler methods change exactly the fields the handlers set:
    - `fetchItems`, `fetchRestaurants` and `fetchCategories`;
    - the category checkbox toggle;
    - the restaurant select;
    - the two calorie inputs.

    Pure functions give the input coercion, the toggled set, the request parameters and the "no items found" rule.

Shared modules:

| module | contents |
|---|---|
| `Wrappers` | `Option` and `Result` |
| `Text` | Python's whitespace, `strip`, ASCII `lower`, `re.sub(r"\s+", "", …)`, substring test and string order |
| `Menu` | the menu item record and its JSON view |

`frontend/src/App.tsx` sends the restaurant, a calorie range and the selected categories; `get_menu` filters by restaurant and calories only, and so does the model.

## Model

| member | source | states |
|---|---|---|
| PdfColumns.Width | backend/pdf_cache.py:39 | `zip(*table)` yields as many columns as the shortest row has cells (none for an empty table) |
| PdfColumns.Column | backend/pdf_cache.py:39 | column `j` of the transposed table holds cell `j` of every row, top to bottom |
| PdfColumns.ColumnClasses | backend/pdf_cache.py:42-53 | one class per transposed column: the first of the four reversed header words its normalised text contains, if any |
| PdfColumns.GetIndices | backend/pdf_cache.py:38-55 | the loop's dictionary is the reference column map; its keys and values are distinct; every index lies inside every row of the table |
| PdfColumns.ColumnMapInRange | backend/pdf_cache.py:42-53 | after `n` columns, the keys are distinct, the values are distinct and every value is below `n` |
| PdfColumns.ColumnMapLastMatchWins | backend/pdf_cache.py:46-53 | a macro is missing exactly when no column matches it; otherwise its index is a matching column after which none matches (a later match overwrites an earlier one) |
| PdfColumns.ColumnMapKeyOrder | backend/pdf_cache.py:40-53 | the dictionary's keys stand in the order of their first matching columns (insertion order survives reassignment) |
| PdfColumns.Classify | backend/pdf_cache.py:46-53 | the `if`/`elif` chain: a column is the first macro, in the order calories, fat, carbs, protein, whose reversed header word its text contains, and none when it contains no header word |
| PdfColumns.Put | backend/pdf_cache.py:47 | `col_map[k] = v`: a key not yet present is added at the end |
| PdfColumns.LookupAfterPut | backend/pdf_cache.py:47 | after `col_map[k] = v`, `k` maps to `v` and every other key to what it mapped to before |
| PdfColumns.PutExisting | backend/pdf_cache.py:47 | assigning to a key already present keeps the keys and their order |
| PdfColumns.LookupNone | backend/pdf_cache.py:88 | `col_map[k]` finds nothing exactly when no entry has key `k` |
| PdfColumns.LookupEntry | backend/pdf_cache.py:88 | with distinct keys, every entry is what a lookup of its key finds |
| PdfColumns.LookupFound | backend/pdf_cache.py:88 | what a lookup finds is the value of an entry with that key |
| PdfColumns.ColumnWordIsNormalizedText | backend/pdf_cache.py:43-44 | stripping cells before the removal of whitespace changes nothing: the matched word is the lower-cased raw column text without whitespace |
| PdfColumns.LowerRemoveSpacesCommute | backend/pdf_cache.py:43-44 | lower-casing and the removal of whitespace commute |
| Text.Strip | backend/pdf_cache.py:74 | `strip()` is a contiguous slice of the text with only whitespace before and after it; it is empty exactly for blank text, neither starts nor ends with whitespace, and drops only whitespace |
| Text.RemoveSpacesBlank | backend/pdf_cache.py:44 | removing whitespace leaves nothing exactly when the text is blank |
| Text.ContainsAt | backend/pdf_cache.py:46 | `p in s` holds exactly when `p` occurs in `s` at some index |
| PdfCache.AnyPresent | backend/pdf_cache.py:77 | `any(row[i] for i in …)`: with every index inside the row, whether some cell is non-empty; it raises only `IndexError`, and a false result means every index was inside the row |
| PdfCache.AnyPresentRaises | backend/pdf_cache.py:77 | `any` raises exactly when it reaches an index past the row's end with every cell before it empty |
| PdfCache.AllPresent | backend/pdf_cache.py:82 | `all(row[i] for i in …)`: with every index inside the row, whether every cell is non-empty; a true result means every index was inside the row |
| PdfCache.AllPresentRaises | backend/pdf_cache.py:82 | `all` raises exactly when it reaches an index past the row's end with every cell before it present |
| PdfCache.AnyPresentMapped | backend/pdf_cache.py:77 | with every mapped column inside the row, `any` is true exactly when some mapped cell is present |
| PdfCache.AllPresentMapped | backend/pdf_cache.py:82 | with every mapped column inside the row, `all` is true exactly when every mapped cell is present |
| PdfCache.MappedCell | backend/pdf_cache.py:88-91 | `row[col_map[k]]`: nothing exactly when `k` has no column, otherwise the non-empty cell of an entry for `k` |
| PdfCache.ReadNutrition | backend/pdf_cache.py:87-93 | the `try` block: a `KeyError` names a macro without a column; a result holds the four parsed cells; when all four cells parse, the result is theirs |
| PdfCache.ReadNutritionFails | backend/pdf_cache.py:87-93 | when `k` is the first macro in the order calories, fat, carbs, protein whose lookup or parse fails, the block raises `KeyError(k)` if `k` has no column and is skipped (`ValueError`) if it has one |
| PdfCache.ReadNutritionKeyError | backend/pdf_cache.py:87-91 | `KeyError(k)` is raised exactly when every macro read before `k` has a column whose cell parses and `k` has no column |
| PdfCache.ReadNutritionUnparsable | backend/pdf_cache.py:87-93 | the row is skipped as unparsable exactly when the first macro to fail has a column, so it is its parse that failed |
| PdfCache.ClassifyRow | backend/pdf_cache.py:71-93 | the body of the row loop; a row is skipped as short exactly when it has fewer than five cells |
| PdfCache.ClassifyNonHeader | backend/pdf_cache.py:82-93 | a row past the header test is neither short nor a header |
| PdfCache.ReadItem | backend/pdf_cache.py:86-93 | a row read as an item is an item or skipped as unparsable, unless it raises |
| PdfCache.ClassifyHeader | backend/pdf_cache.py:74-79 | a row is a header exactly when it has five or more cells, every mapped column is inside it and empty, and its first cell is not blank; the category is the stripped first cell |
| PdfCache.ClassifyData | backend/pdf_cache.py:82-91 | a row is the item `(name, n)` exactly when it has five or more cells, every mapped cell is present, its first cell is text whose strip is `name`, and the four cells parse to `n` |
| PdfCache.ClassifyIndexError | backend/pdf_cache.py:77-82 | `IndexError` escapes exactly when `any` or `all` reaches a mapped index past the end of a row of five or more cells |
| PdfCache.ClassifyAttributeError | backend/pdf_cache.py:86 | `AttributeError` escapes exactly when a row reaching the name has `None` as its first cell |
| PdfCache.ClassifyKeyError | backend/pdf_cache.py:74-91 | `KeyError(k)` escapes exactly when a row of five or more cells, with every mapped cell present and a first cell, is no header (some column is mapped or the first cell is blank), and `k` is the first macro to fail, for want of a column |
| PdfCache.ClassifySkipped | backend/pdf_cache.py:82-93 | the exact conditions under which a row is skipped as incomplete (`all` false) or as unparsable (`ValueError` caught) |
| PdfCache.Body | backend/pdf_cache.py:70 | `table[1:]`: every row but the first, in order |
| PdfCache.RowSteps | backend/pdf_cache.py:70 | the rows of one table, each paired with the page's column map |
| PdfCache.BodyMembers | backend/pdf_cache.py:70 | the rows a table contributes are exactly its rows after the first |
| PdfCache.TablesStepsMembers | backend/pdf_cache.py:69-70 | the rows a page's tables contribute are exactly the non-first rows of its tables, with its column map |
| PdfCache.PageMembers | backend/pdf_cache.py:62-67 | a page contributes rows only when it has a non-empty first table, and then its tables' non-first rows with that table's column map |
| PdfCache.DocStepsMembers | backend/pdf_cache.py:61-70 | the body runs on exactly the non-first rows of the tables of the pages the loop reads, each with its page's column map |
| PdfCache.Next | backend/pdf_cache.py:71-103 | one execution of the loop body: an exception ends the scan, a header sets `last_category`, a data row appends its item with the current category, and a skipped row changes nothing (its contract is stated by `SkippedRowsChangeNothing` and `HeaderRowsSetCategory`) |
| PdfCache.RunResult | backend/pdf_cache.py:61-103 | executing the row body over the rows one by one ends in the first exception raised, or else with the last header and the emitted items |
| PdfCache.RaisedPrefix | backend/pdf_cache.py:61-103 | once a prefix of the rows raises, the whole scan ends in that exception |
| PdfCache.ParseMenuPdf | backend/pdf_cache.py:57-105 | the page loop: it raises the first exception a row of the document raises, and otherwise returns the reference items |
| PdfCache.ScanTables | backend/pdf_cache.py:69-103 | the table loop of one page continues the scan state exactly as the reference scan of its rows does |
| PdfCache.ScanRows | backend/pdf_cache.py:70-103 | the row loop of one table continues the scan state exactly as the reference scan of its rows does |
| PdfCache.NoErrorIffAllRowsSucceed | backend/pdf_cache.py:61-103 | the scan raises nothing exactly when no row raises |
| PdfCache.FirstErrorIsFirst | backend/pdf_cache.py:61-103 | the scan's exception is that of a row which every earlier row passes without raising |
| PdfCache.NoHeaderYet | backend/pdf_cache.py:98 | `last_category` is unbound (category "unknown") exactly when no header row came before |
| PdfCache.LastHeaderIsMostRecent | backend/pdf_cache.py:78 | `last_category`, once bound, is the category of a header row after which no header row came, across pages and tables |
| PdfCache.EmittedGrows | backend/pdf_cache.py:95 | the items so far are a prefix of the final items: appending only |
| PdfCache.EmittedFromDataRows | backend/pdf_cache.py:95-103 | every emitted item is the item of a data row, with the category of the most recent header before it |
| PdfCache.DataRowsEmitted | backend/pdf_cache.py:95-103 | every data row is emitted, with the category of the most recent header before it |
| PdfCache.SkippedRowsChangeNothing | backend/pdf_cache.py:71-93 | a skipped row changes neither the category nor the items |
| PdfCache.HeaderRowsSetCategory | backend/pdf_cache.py:77-79 | a header row sets the category and emits nothing |
| Routes.IntArg | backend/routes.py:10-11 | `int(request.args.get(name, 0))`: a missing argument is 0, a present one is its parse, and a failed parse is a `ValueError` |
| Routes.RestaurantArg | backend/routes.py:9 | `request.args.get('restaurant', '').lower()`: as long as the argument (empty when it is missing), with no ASCII capital left |
| Routes.Select | backend/routes.py:13-16 | the three filter conditions applied to the table in order (its contract is stated by `SelectCount`) |
| Routes.SelectCount | backend/routes.py:13-16 | the filter keeps every row of the restaurant within `[cal_min, cal_max]`, as often as the table holds it, and nothing else |
| Routes.InsertByCalories | backend/routes.py:17 | placing one item keeps every item (multiset) |
| Routes.InsertKeepsOrder | backend/routes.py:17 | placing one item keeps the list highest calories first |
| Routes.SortByCalories | backend/routes.py:17 | the ordering is a permutation |
| Routes.SortedByCalories | backend/routes.py:17 | the ordering is highest calories first |
| Routes.QueryIsSortedSelection | backend/routes.py:13-17 | the query holds exactly the matching rows, each as often as the table does, highest calories first |
| Routes.GetMenu | backend/routes.py:8-31 | the handler answers exactly when both bounds parse, and then replies for the lower-cased restaurant and the two bounds; otherwise it raises the `ValueError` of `calorieMax` if that fails, else that of `calorieMin` (`calorieMax` is parsed first) |
| Routes.MenuReply | backend/routes.py:17-31 | the reply for given bounds: "no items" for an empty query, otherwise one JSON object per item in query order (its contract is stated by `NoItemsIffNoMatch`, `RepliesAreMatches`, `MatchesAreReplied` and `RepliesByCaloriesDesc`) |
| Routes.NoItemsIffNoMatch | backend/routes.py:19-20 | the reply is "no items" exactly when no row matches |
| Routes.RepliesAreMatches | backend/routes.py:13-31 | every replied item comes from a matching row |
| Routes.MatchesAreReplied | backend/routes.py:13-31 | every matching row is replied |
| Routes.RepliesByCaloriesDesc | backend/routes.py:17-31 | the reply lists the items highest calories first |
| Routes.MissingMaximumIsZero | backend/routes.py:10 | without `calorieMax`, only items of at most 0 calories are replied |
| Routes.InsertName | backend/routes.py:36 | adding a name to the sorted list adds exactly that name |
| Routes.InsertNameKeepsOrder | backend/routes.py:36 | adding a name keeps the list strictly increasing |
| Routes.SortedNames | backend/routes.py:36 | the names listed are exactly the restaurants of the rows |
| Routes.GetRestaurants | backend/routes.py:34-37 | the handler: the sorted distinct restaurant names (its contract is stated by `RestaurantsSortedDistinct`) |
| Routes.RestaurantsSortedDistinct | backend/routes.py:34-37 | `get_restaurants` is strictly increasing (sorted, no duplicates), and it lists every restaurant of the table and nothing else |
| Text.LexIrreflexive | backend/routes.py:36 | Python's string order is irreflexive |
| Text.LexTransitive | backend/routes.py:36 | Python's string order is transitive |
| Text.LexTotal | backend/routes.py:36 | of two different strings exactly one is the smaller |
| Params.ParamsSerializer | frontend/src/App.tsx:14-23 | the loop over the keys appends exactly the specified pairs, in order |
| Params.AppendEach | frontend/src/App.tsx:19 | `forEach` appends one pair per element, in order |
| Params.ToText | frontend/src/App.tsx:19-21 | `String(...)` as `append` applies it: strings as they are, numbers in decimal with a leading `-` when negative, booleans, `null` and `undefined` by name (its number case is stated by `NatText` and `NatTextValue`) |
| Params.Contribution | frontend/src/App.tsx:18-21 | the pairs one key contributes (its contract is stated by `ArrayContribution` and `ScalarContribution`) |
| Params.ArrayContribution | frontend/src/App.tsx:18-19 | an array gives one pair per element, with its key and in element order; an empty array gives none |
| Params.ScalarContribution | frontend/src/App.tsx:20-21 | a scalar is omitted exactly when it is `undefined` or `""`; `0` is sent as "0" |
| Params.SerializedSplit | frontend/src/App.tsx:16-23 | the pairs follow the keys' order, and each key's pairs are contiguous |
| Params.JoinAppend | frontend/src/App.tsx:16-23 | the pairs of two runs of keys are those of the first followed by those of the second |
| Params.ValuesOfSerialized | frontend/src/App.tsx:16-23 | under a key of the object, the query carries exactly the texts of its value, in order; under any other name, nothing |
| Params.ValuesOfKey | frontend/src/App.tsx:16-23 | with distinct keys, the values under the key of entry `i` are the texts of that entry's value |
| Params.NatText | frontend/src/App.tsx:21 | a number's text is non-empty, has only decimal digits and no leading zero |
| Params.NatTextValue | frontend/src/App.tsx:21 | reading a number's text back gives the number |
| App.FromInputText | frontend/src/App.tsx:131 | an input of `""` stays `""`; any other input becomes its numeric value |
| App.InputParam | frontend/src/App.tsx:32-33 | the value a number input sends: a blank input gives `""`, which the serialiser drops, and a number is never dropped |
| App.MenuParams | frontend/src/App.tsx:30-35 | the request object has four distinct keys |
| App.MenuQuery | frontend/src/App.tsx:29-36 | the menu query carries the restaurant unless none is chosen, each calorie bound unless its input is blank, and one `categories` value per selected category in the set's order |
| App.MenuQueryRestaurant | frontend/src/App.tsx:31 | the query carries the restaurant unless none is chosen |
| App.MenuQueryMax | frontend/src/App.tsx:32 | the query carries the maximum's text unless its input is blank |
| App.MenuQueryMin | frontend/src/App.tsx:33 | the query carries the minimum's text unless its input is blank |
| App.MenuQueryCategories | frontend/src/App.tsx:34 | the query carries one `categories` value per selected category, in the set's order |
| App.Remove | frontend/src/App.tsx:113 | `Set.delete`: the category leaves, every other member stays, and the set stays duplicate-free |
| App.Dedupe | frontend/src/App.tsx:65 | `new Set(data)`: duplicate-free, the same members as `data`, and `data` itself when it has no duplicates |
| App.DedupeOrder | frontend/src/App.tsx:65 | the members of `new Set(data)` stand in the order of their first occurrences in `data` |
| App.Toggled | frontend/src/App.tsx:111-116 | the `setSelectedCategories` updater: a copy with `cat` deleted if present, added at the end if not (its contract is stated by `ToggleFlips` and `ToggleTwice`) |
| App.ToggleFlips | frontend/src/App.tsx:111-116 | the toggle flips the membership of `cat` and of no other category, and keeps the set duplicate-free |
| App.ToggleTwice | frontend/src/App.tsx:111-116 | toggling twice restores the members, and the exact order when `cat` was not selected |
| App.AppState.constructor | frontend/src/App.tsx:5-12 | the initial state: nothing chosen, blank bounds, no fetch done, nothing loaded |
| App.AppState.ShowsNoItemsFound | frontend/src/App.tsx:150 | the display rule: "no items found" shows once a fetch has completed and left no items (used by the contract of `FetchItems`) |
| App.AppState.FetchItems | frontend/src/App.tsx:27-45 | after a fetch `hasFetched` holds and the items are the data, or none on failure; "no items found" shows exactly when that leaves no items; only those two fields change |
| App.AppState.FetchRestaurants | frontend/src/App.tsx:47-55 | the restaurant list becomes the data, or empty on failure; nothing else changes |
| App.AppState.FetchCategories | frontend/src/App.tsx:57-71 | with no restaurant chosen nothing changes; otherwise the categories become the data, all of them selected, or both become empty on failure |
| App.AppState.ToggleCategory | frontend/src/App.tsx:110-117 | the selection becomes the toggled copy: `cat` flips, every other category is untouched, the set stays duplicate-free, nothing else changes |
| App.AppState.SelectRestaurant | frontend/src/App.tsx:91 | the chosen restaurant becomes the selected option; nothing else changes |
| App.AppState.SetMinCalories | frontend/src/App.tsx:131 | the minimum becomes the coerced input; nothing else changes |
| App.AppState.SetMaxCalories | frontend/src/App.tsx:138 | the maximum becomes the coerced input; nothing else changes |

## Left out

- `get_restaurant_name` (backend/pdf_cache.py:17-36): it reads the PDF's first page and applies a date/name regular expression. The restaurant name is a parameter of `PdfCache.ParseMenuPdf` instead.
- `Menu.MenuItem`: backend/database.py:5-11 declares no `fat`, `carbs` or `protein` column, although `cache_restaurants` passes them (backend/pdf_cache.py:114-122) and `get_menu` reads them (backend/routes.py:26-28). The model gives the record all seven fields, so the `AttributeError` that a non-empty `get_menu` reply would raise is not modelled.
- `cache_restaurants` and the database writes (backend/pdf_cache.py:107-134): they are I/O. `backend/cache_single.py`, `backend/app.py` and `backend/create_db.py` are not part of this model, and of `backend/database.py` only the column list is referred to.
- `pdfplumber`: it is a call into code that cannot be seen. A document is the sequence of pages `extract_tables()` would give. A table is a sequence of rows of optional strings.
- `int(...)`, `float(...)` and `Number(...)`: they are abstract parameters (`Parsers`, `IntParser`, `NumberParser`). Fat, carbs and protein are `real` values that no operation inspects. Floating-point rounding, `NaN` and fractional calorie inputs are not modelled; a client number is an integer.
- `str.lower()` is modelled on ASCII letters only. Other case mappings of Unicode are not modelled.
- `print("skipping bad row")` and `console.error(...)`: they are output only.
- `Params.ParamsSerializer`: it does not model the final `searchParams.toString()`. It returns the list of pairs; the percent-encoding of that list into text is not modelled.
- `Params.ParamsSerializer`: keys are taken in the object's own order. JavaScript visits integer-like keys first; the keys used here are not integer-like.
- Sparse arrays, whose holes `forEach` skips, are not modelled.
- axios, `async`/`await`, React's rendering, JSX and `useEffect` are not modelled.
  - A request is a function from the request to a response (`Ok(data)` or `Failed`), applied when the handler runs; interleavings of concurrent requests are not modelled.
  - The effect that runs `fetchCategories` after a restaurant change, and the one that runs `fetchRestaurants` once at start, are separate method calls.
- `App.AppState.ToggleCategory` and `App.AppState.FetchCategories` require the selection to be duplicate-free (`Valid`). Every method keeps that invariant.
- `App.AppState.FetchItems`: it models the items as a list of entries. When the server answers the string "no items" (backend/routes.py:20), the client stores that string as `items`; that case is not modelled.
- The `IndexError` of the `except` at backend/pdf_cache.py:92 is never raised there. Line 82 has already indexed every mapped column, so the `try` block can only raise `ValueError` (caught) or `KeyError` (not caught).
- `Routes.SortByCalories`: it does not fix the order among items with equal calories, because SQL leaves that order open. Its contract states only permutation and order.
- `Params.ToText`: JavaScript's `String(n)` writes a number of magnitude `1e21` or more in exponent form ("1e+21"); the model writes every integer in plain decimal digits.
- Flask's `request.args` is a map with one value per name (the first value of a repeated name).
- The ORM query runs over a table modelled as a sequence of rows.
