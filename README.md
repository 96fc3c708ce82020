# Personal Library Manager: the book record store

The Personal Library Manager is a one-page Streamlit app. It keeps a list of
book records and writes them to a JSON data file. Each record has a title,
author, year, genre, read flag and added date. The app's only logic is a
record store written inline in the page's branches (`library_manager.py`):

- **Add**: refuses a submission with an empty title, author or genre. It also
  refuses a title that equals a stored title ignoring case. Otherwise it
  appends a new record stamped with the current date.
- **Update**: edits the first record whose title equals the selected title
  exactly. It refuses empty fields, keeps the added date, and does not check
  for duplicate titles.
- **Delete**: removes that same record with `list.remove`.
- **Search**: filters the list by a lower-cased query against the lower-cased
  title or author. An empty query shows everything.
- **Statistics**: counts total, read and unread records. The read percentage
  is guarded against an empty list.

After every successful change, the whole list is written back to the data
file.

The model separates the store from the UI:

- `text.dfy` (module `Text`): ASCII lower-casing and substring containment.
- `records.dfy` (module `Records`): the `Book` record and the `Fields` the forms
  submit. It also has the title predicates and the two linear scans the
  source runs: the `any(...)` duplicate test and the `next(...)` lookup. Both
  are methods with loops, proved against `TitleTaken` and `FirstIndex`.
- `catalog.dfy` (module `Catalog`): add, update and delete as functions from
  the old list to the new list or to an `Error`. The laws relating them are
  lemmas: uniqueness of titles, the add/delete inverse, update's frame, and
  delete's exact effect.
- `storage.dfy` (module `Storage`): the data file as a value (missing,
  not valid JSON, or holding a list) and what loading it yields.
- `library.dfy` (module `Store`): class `Library`, which holds the list and the
  data file. Its `Add`, `Update` and `Delete` methods change them in place and
  save after success. Each method's postcondition ties the new state to the
  matching `Catalog` function. The class invariant `Valid()` says that reading
  the data file gives back the list in memory. That invariant matters because
  Streamlit re-runs the script, and so reloads `books`, on every interaction.
  It is also the persistence round-trip law: after any sequence of operations,
  reloading reproduces the collection.
- `views.dfy` (module `Views`): search and statistics as functions, with
  lemmas that characterise the search result exactly. Further lemmas say how
  each mutation moves the counters.

Three behaviours of the code are easy to misread:

- The search uses pandas `str.contains`, which treats the query as a regular
  expression, not a plain substring. See "Left out".
- Delete cannot report "not found" in the app. The button only appears once
  the lookup has found a record. The model's `NotFound` result stands for
  that guard: nothing happens and nothing is saved.
- Update looks the record up before it checks for empty fields, so
  `NotFound` takes precedence over `MissingFields`.

## Model

| member | source | states |
|---|---|---|
| `Text.LowerChar` | library_manager.py:57 | an upper-case ASCII letter becomes its lower-case letter (code point plus 32), every other character is returned unchanged, and the result is never an upper-case ASCII letter |
| `Text.Lower` | library_manager.py:57 | lower-casing keeps the length; at every position an upper-case ASCII letter becomes its lower-case letter (code point plus 32), any other character is kept, and no upper-case ASCII letter remains |
| `Records.FirstIndex` | library_manager.py:108 | on success it gives a position whose title is exactly the target, with no earlier exact match; it gives none exactly when no record has that title |
| `Records.NewBook` | library_manager.py:60-67 | the new record carries exactly the submitted fields and the given date stamp |
| `Records.Edit` | library_manager.py:121-127 | the edited record carries exactly the submitted fields and keeps its added date |
| `Records.TitleTaken` | library_manager.py:57 | the case-insensitive clash test of the add form; `Records.TitleInUse` is proved equal to it |
| `Records.TitleInUse` | library_manager.py:57 | the scan answers true exactly when some stored title equals the new title ignoring case |
| `Records.Lookup` | library_manager.py:108 | the scan returns the position of the first exact-title match, or none, as `FirstIndex` specifies |
| `Catalog.AddBook` | library_manager.py:55-68 | the add form's outcome; its contract is stated by `Catalog.AddOutcome`, `Catalog.AddKeepsTitlesUnique` and `Catalog.AddThenDeleteRestores` |
| `Catalog.UpdateBook` | library_manager.py:108-127 | the edit form's outcome; its contract is stated by `Catalog.UpdateOutcome`, `Catalog.UpdateWithOwnFieldsIsIdentity` and the two uniqueness lemmas |
| `Catalog.DeleteBook` | library_manager.py:108-136 | the delete button's outcome; its contract is stated by `Catalog.DeleteRemovesFirstMatch` and `Catalog.DeleteKeepsTitlesUnique` |
| `Catalog.RemoveFirst` | library_manager.py:136 | `list.remove` of an element that is present shortens the list by exactly one |
| `Catalog.AddOutcome` | library_manager.py:55-74 | an empty required field is refused with `MissingFields`; a case-insensitive title clash is refused with `AlreadyExists`; otherwise the list grows by one, every earlier record is unchanged, and the new last record carries the submitted fields and the date stamp |
| `Catalog.AddKeepsTitlesUnique` | library_manager.py:57-68 | if no two titles are equal ignoring case before a successful add, none are after it |
| `Catalog.AddThenDeleteRestores` | library_manager.py:57-68 | deleting the title that was just added gives back exactly the collection from before the add |
| `Catalog.UpdateOutcome` | library_manager.py:108-133 | a missing title is refused with `NotFound` and an empty field with `MissingFields`; an update of a present title with filled fields always succeeds, whatever title it sets (no duplicate check); a successful update rewrites only the first exact-title match, takes its five editable fields from the form, keeps its added date, and leaves the length and every other record unchanged |
| `Catalog.UpdateWithOwnFieldsIsIdentity` | library_manager.py:112-127 | submitting the edit form with the values it was pre-filled with leaves the collection unchanged |
| `Catalog.UpdateKeepsTitlesUniqueWhenFree` | library_manager.py:120-127 | an update keeps titles unique when its new title clashes, ignoring case, with no other record |
| `Catalog.UpdateCanDuplicateTitles` | library_manager.py:120-127 | update has no duplicate check: renaming one of two records to the other's title in another case is accepted and breaks uniqueness |
| `Catalog.RemoveFirstAt` | library_manager.py:136 | `list.remove` of an element with no equal element before it removes exactly its position |
| `Catalog.DeleteRemovesFirstMatch` | library_manager.py:108-136 | a delete is refused exactly when no title matches; otherwise it removes exactly the first exact-title match, so the length drops by one and the other records keep their order |
| `Catalog.DeleteKeepsTitlesUnique` | library_manager.py:136 | a delete keeps titles unique |
| `Storage.Load` | library_manager.py:11-16 | a missing file or invalid JSON yields the empty list, and a stored list is returned as it is; `Store.Library.Open` and `Valid()` rely on it |
| `Store.Library.Open` | library_manager.py:24 | at startup the list is what the data file yields, so memory and file agree |
| `Store.Library.Save` | library_manager.py:19-21 | the data file is overwritten with the whole list |
| `Store.Library.Add` | library_manager.py:55-74 | the list and the data file become the result of `AddBook`, or both stay unchanged with the error reported; memory and file still agree |
| `Store.Library.Update` | library_manager.py:107-133 | the list and the data file become the result of `UpdateBook`, or both stay unchanged with the error reported; memory and file still agree |
| `Store.Library.Delete` | library_manager.py:135-137 | the list and the data file become the result of `DeleteBook`, or both stay unchanged; memory and file still agree |
| `Views.Search` | library_manager.py:81-84 | an empty query gives the whole collection; otherwise every record shown matches the lower-cased query, and nothing is shown that the collection does not hold; `Views.SearchResult` pins the result exactly |
| `Views.Filter` | library_manager.py:83-84 | the filtered list is no longer than the input, every element matches the query, and it takes nothing the input does not hold |
| `Views.FilterCount` | library_manager.py:83-84 | a matching record keeps every copy it had, and a record that does not match has none |
| `Views.FilterIsSubsequence` | library_manager.py:83-84 | the filter keeps the records in their original order |
| `Views.FilterEmptyKeepsAll` | library_manager.py:82-84 | filtering by the empty query would keep every record, so the empty-query shortcut changes nothing |
| `Views.SearchResult` | library_manager.py:81-84 | an empty query shows the whole collection; any query shows, in original order, exactly the records whose lower-cased title or author contains the lower-cased query |
| `Views.SearchFindsAdded` | library_manager.py:81-84 | after a successful add, a query equal to the new title ignoring case shows the new record |
| `Views.CountRead` | library_manager.py:93 | the read count never exceeds the number of records |
| `Views.Statistics` | library_manager.py:92-94 | the total is the number of records and read plus unread equals it; the read count is 0 exactly when no record is read, and the unread count is 0 exactly when every record is read |
| `Views.ReadPercentage` | library_manager.py:95 | the percentage is 0 for an empty collection, lies between 0 and 100, and is 100 exactly when every record of a non-empty collection is read |
| `Views.CountReadAppend` | library_manager.py:93 | the read count of two lists joined is the sum of their read counts |
| `Views.CountReadExtremes` | library_manager.py:93 | the read count is 0 exactly when no record is read, and equals the total exactly when every record is read |
| `Views.CountReadRemoveAt` | library_manager.py:93 | taking a record out of the list lowers the read count by one if that record is read, and otherwise leaves it unchanged |
| `Views.StatisticsAfterAdd` | library_manager.py:92-94 | a successful add raises the total by one, and raises the read count by one exactly when the new record is marked read |
| `Views.StatisticsAfterUpdate` | library_manager.py:92-94 | a successful update keeps the total, and moves the read count by the change in the edited record's read flag |
| `Views.StatisticsAfterDelete` | library_manager.py:92-94 | a successful delete lowers the total by one, and lowers the read count by one exactly when the deleted record was read |
| `Views.StatisticsExamples` | library_manager.py:92-95 | an empty collection gives 0, 0, 0 and 0 %; four records with three read give 4, 3, 1 and 75 % |

## Left out

- The Streamlit page is not modelled. That covers page setup and styling, the
  navigation radio, the forms and widgets, the metric and table rendering,
  the success and error messages, `st.rerun` and `time.sleep`. It is
  presentation with no logic of its own.
- Whitespace stripping of the form inputs and the query is not modelled. The
  text fields and the query reach the model already stripped, as the forms
  hand them over.
- `Store.Library.Add` and `Store.Library.Update` require the year to lie in
  0..2025. The number widget enforces that range before the store sees it.
- `Store.Library.Add`: the date stamp is a parameter. Reading the clock with
  `datetime.now()` is I/O.
- `Storage.Load` models only what the data file holds, not its JSON encoding.
  Records read back are assumed to have every key with the right type.
  `book.get("read", False)` is therefore just the read flag. Only a missing
  file and invalid JSON fall back to the empty list. A file that cannot be
  opened (no permission, a directory) or whose bytes do not decode raises an
  error that stops the app. Valid JSON that is not a list of records (for
  example `{}`) is returned as it is and becomes the collection. Neither case
  is modelled. Records read back are also assumed to be as the app writes
  them: a year in 0..2025, and text fields without surrounding whitespace.
- `Store.Library.Update` and `Store.Library.Delete` succeed on any record
  the lookup finds. In the app, a stored year outside 0..2025 (only a data
  file the app did not write can hold one) makes the edit form's number
  widget raise at line 114. The page then stops before the update can be
  submitted and before the delete button is drawn, so that record can be
  neither updated nor deleted. This is not modelled.
- `Catalog.UpdateWithOwnFieldsIsIdentity` holds in the app only for records
  whose title, author and genre have no surrounding whitespace. The form
  strips its pre-filled values (lines 112-115), so resubmitting it unchanged
  rewrites such a record with the stripped text.
- `Store.Library.Save`: a failed write of the data file is not modelled. The
  model's save always succeeds.
- `Text.Lower`: it lower-cases ASCII letters only. It does not implement
  Python's full Unicode `str.lower`.
- `Views.Search`: pandas `str.contains` treats the query as a regular
  expression. The model treats it as a literal substring. The two agree
  whenever the query contains no regular-expression metacharacters. A query
  with an unbalanced bracket, such as `(` or `[`, makes pandas raise an
  error, and `.` matches every record; neither case is modelled.
- `Views.SearchFindsAdded` holds for the literal reading only. In the app a
  title such as `Who? (Me)` does not find itself, and a title with an
  unbalanced bracket, such as `Notes (draft`, makes the search raise an
  error.
- The view page shows a warning instead of a table when the collection is
  empty. The model's search result for an empty collection is simply empty.
- `Views.ReadPercentage`: the model computes an exact `real`. The app uses a
  floating-point division and formats it to two decimals, and neither the
  rounding nor the formatting is modelled.
- Concurrency is not modelled. The app is single-user and runs one request
  at a time.
