# Data-Stream data store, modelled in Dafny

Data-Stream imports pipe-separated viewing events into a file-based data
store and answers SELECT / FILTER / ORDER queries over it. Each event has six
string fields: `stb` (the set-top-box id), `date`, `title`, `provider`, `rev`
and `time`. This project models the data-store core in
`Common/functions.py`:

- **Record store** (`add_data`). There is one JSON document per box id. It
  holds the box's `stb` and maps each date to a dictionary from titles to
  `{rev, time, provider}`. A later event for the same (box, date, title)
  overwrites the earlier one.
- **Index manager** (`create_indices`). There is one index file per column
  other than `stb`. Each maps a column value to the list of box ids that
  produced it. An id is appended only when it is absent, and nothing is
  ever removed.
- **Query engine** (`get_filtered_stb`, `get_data_matching_filter`,
  `selected`, `get_data`).
  - `get_filtered_stb` resolves the candidate ids. With no filter it scans the
    directory. A filter on `stb` passes its value through. Any other filter
    looks up the column's index.
  - `get_data_matching_filter` flattens each candidate's document into rows
    and filters them again.
  - `selected` projects the rows onto the selected columns.
  - `get_data` loads the candidates, then projects and orders the rows
    (stable, by the tuple of order values compared as text).

The directory is the class `DataStore.Store`. Its two fields are `docs` (box
id to document) and `indices` (column to index). `AddData`, `CreateIndices`,
`GetFilteredStb`, `GetData` and `GetDataMatchingFilter`/`Selected` are
imperative methods with the loops of the source. Each is proved against a
specification function (`Ingest`, `IndexRecord`, `Candidates`,
`QueryResult`, `MatchingRows`, `Project`). The properties are proved about
those functions.

Python dictionaries keep insertion order, and JSON keeps it through a dump
and a load. Documents are therefore `OrderedDict.Dict` values (a key list
plus a map), so the order in which rows are flattened is the source's order.
Python's `<` on `str` and on tuples is `Ordering.StrLt` and `Ordering.KeyLt`.
`list.sort` is a stable insertion sort on (key, row) pairs.
`Ordering.StableSortUnique` shows that every sorted, stable arrangement is
that one. Failures that escape the source are values of `Types.Error`:
- `MissingIndex(c)`: opening an index file that does not exist;
- `MissingDoc(id)`: opening the document of a candidate that has none;
- `MissingKey(c)`: the sort key names a column that was not selected.

Where the documented behaviour and the code disagree, the model follows the code:

- **A missing index file is an error.** When the index file of the filter
  column does not exist, `get_filtered_stb` lets the `open` fail
  (`Common/functions.py:116-118`). It does not return an empty set, because
  only the later lookup of the value is guarded (`:119-123`). The model
  gives `Err(MissingIndex(c))`:
  - `DataStore.EmptyStoreFilterFails` shows this for an empty store;
  - `DataStore.IngestCreatesIndices` shows that after the first event every
    such filter succeeds.
- **The directory scan also sees the index files.** With no filter,
  `os.listdir` lists the documents and the index files together. The scan
  keeps any name that starts with `stb` and cuts it at the first dot.
  `QueryEngine.FullScanIds` shows that no index file passes, because there is
  never an index of the `stb` column. The ids reported are the stems of the
  stored ids that start with `stb`.

## Model

| member | source | states |
|---|---|---|
| `OrderedDict.Put` | Common/functions.py:81-84 | `d[k] = v` on a dict: the map gets the value, an existing key keeps its place, a new key goes last, and keys stay distinct and equal to the map's domain |
| `OrderedDict.PutPresent` | Common/functions.py:84 | writing the value a key already holds leaves the dict unchanged |
| `OrderedDict.PutOverwrites` | Common/functions.py:84 | a second write to a key replaces the first and keeps the key's position |
| `RecordStore.NewDoc` | Common/functions.py:78-79 | a box's first document holds only its `stb` and no slot |
| `RecordStore.WriteSlot` | Common/functions.py:81-84 | the (date, title) slot holds the event's `{rev, time, provider}`; every other slot is present and unchanged exactly when it was before |
| `RecordStore.Ingest` | Common/functions.py:73-87 | the event's document exists afterwards and carries its slot; a new document gets the event's id; other slots and other documents are unchanged |
| `RecordStore.IngestIdempotent` | Common/functions.py:75-87 | adding the same event twice leaves the documents as adding it once |
| `RecordStore.WriteSlotOverwrites` | Common/functions.py:84 | two writes to one slot of a document equal the second write alone |
| `RecordStore.IngestOverwrites` | Common/functions.py:73-87 | a later event for the same (box, date, title) replaces the earlier one: last write wins |
| `IndexManager.WithId` | Common/functions.py:38-39 | the list afterwards contains exactly the old ids plus `id`, and stays duplicate-free |
| `IndexManager.AddId` | Common/functions.py:36-39 | the index afterwards has the value as a key; its list gains the id as a set would; other keys are unchanged |
| `IndexManager.IndexColumnEntry` | Common/functions.py:31-42 | loading, updating and writing back one index changes only the entry of (column, value) |
| `IndexManager.IndexColumnsKeys` | Common/functions.py:28-42 | after the loop, an index file exists for each column visited and each that existed before |
| `IndexManager.IndexColumnsEntry` | Common/functions.py:28-42 | after the loop over columns, each entry (c, e[c]) of a visited column has e's id added as to a set, and every other entry is unchanged |
| `IndexManager.IndexRecordEffect` | Common/functions.py:28-42 | `create_indices(e)`: all five index files exist afterwards, and exactly the entries (c, e[c]) change, each gaining `e.stb` |
| `IndexManager.IndexRecordMembership` | Common/functions.py:28-42 | after `create_indices(e)`, e's id is listed under each of its five values |
| `IndexManager.IndexRecordGrows` | Common/functions.py:36-39 | nothing is ever removed from an index: every key and every listed id stays |
| `IndexManager.IndexRecordNoDuplicates` | Common/functions.py:38-39 | the membership check keeps every index list free of duplicates |
| `IndexManager.EntriesDetermine` | Common/functions.py:28-42 | two index sets with the same files and the same entries are equal |
| `IndexManager.IndexRecordIdempotent` | Common/functions.py:7-43 | indexing the same event twice gives the indices of indexing it once |
| `QueryEngine.Stem` | Common/functions.py:109 | `name.split('.')[0]` is the prefix of the name up to its first dot, and contains no dot |
| `QueryEngine.IndexFileNotScanned` | Common/functions.py:107-108 | no index file of a column other than `stb` starts with "stb" |
| `QueryEngine.StemOfDocFile` | Common/functions.py:109 | for an id without a dot, cutting `<id>.json` at its first dot gives back the id |
| `QueryEngine.DocFilePrefix` | Common/functions.py:108 | a document's file name starts with "stb" exactly when its id does |
| `QueryEngine.FullScanIds` | Common/functions.py:105-109 | with no filter, the candidates are exactly the stems of the document files of the stored ids that start with "stb" |
| `QueryEngine.FullScanFinds` | Common/functions.py:105-109 | a stored id that starts with "stb" and has no dot is reported by the full scan |
| `QueryEngine.TitleRowsSound` | Common/functions.py:163-173 | every row kept for a date is the flattened slot of one of its titles and passes the filter |
| `QueryEngine.DateRowsSound` | Common/functions.py:162-173 | every row kept is the flattened slot of one of the dates visited and passes the filter |
| `QueryEngine.TitleRowsComplete` | Common/functions.py:163-173 | every slot of a listed title that passes the filter is kept |
| `QueryEngine.DateRowsComplete` | Common/functions.py:162-173 | every slot of a listed date that passes the filter is kept |
| `QueryEngine.TitleRowsDistinct` | Common/functions.py:163-173 | distinct titles give rows from distinct slots |
| `QueryEngine.DateRowsDistinct` | Common/functions.py:162-173 | a document gives at most one row per (date, title) slot |
| `QueryEngine.MatchingRowsExact` | Common/functions.py:157-175 | `get_data_matching_filter` returns exactly the flattened slots that pass the filter, all of them when there is no filter, one row per slot |
| `QueryEngine.MatchingRowsFiltered` | Common/functions.py:159-173 | every returned row carries the document's id and, under a filter, the filter value |
| `QueryEngine.UnfilteredRowsAllSlots` | Common/functions.py:158-159 | with no filter, every slot of the document gives exactly one row |
| `QueryEngine.TitleRowsStep` | Common/functions.py:163-173 | one pass of the title loop appends that title's kept row |
| `QueryEngine.DateRowsStep` | Common/functions.py:162-173 | one pass of the date loop appends that date's kept rows |
| `QueryEngine.DayRows` | Common/functions.py:163-173 | the inner loop returns the kept rows of one date, its titles taken in insertion order |
| `QueryEngine.GetDataMatchingFilter` | Common/functions.py:150-175 | the loops return exactly `MatchingRows`, the rows whose properties are proved above |
| `QueryEngine.Project` | Common/functions.py:145 | a projected row has exactly the selected columns, each with the entry's value |
| `QueryEngine.Selected` | Common/functions.py:127-147 | one output row per input row, in order, each with exactly the selected columns and the entry's values |
| `QueryEngine.KeyOf` | Common/functions.py:198 | the sort key succeeds exactly when every order column is in the row, and lists their values in order; otherwise it fails on the first missing column |
| `QueryEngine.Decorate` | Common/functions.py:198 | keys are computed for all rows, which succeeds exactly when every row has every order column; each pair holds its row's key |
| `QueryEngine.Gather` | Common/functions.py:188-193 | loading fails exactly when some candidate has no document, naming the first such id |
| `QueryEngine.GatherRows` | Common/functions.py:188-193 | the gathered rows are exactly the matching rows of the candidates' documents |
| `QueryEngine.KeysOfRowsPermuted` | Common/functions.py:198 | reordering (key, row) pairs keeps each pair's key correct |
| `QueryEngine.RedecorateKeyed` | Common/functions.py:198 | computing keys again for sorted rows gives back the sorted pairs |
| `QueryEngine.UndecoratePermuted` | Common/functions.py:198 | dropping the keys of a permutation gives a permutation of the rows |
| `QueryEngine.QueryOrdered` | Common/functions.py:196-198 | with an order, `get_data` returns a permutation of the projected rows, sorted by key and stable within each key |
| `QueryEngine.QueryRowsProjected` | Common/functions.py:178-200 | one output row per gathered row; each has exactly the selected columns, is the projection of a gathered row, and carries the filter value when that column is selected; with no order, rows come in gather order |
| `QueryEngine.QueryErrors` | Common/functions.py:188-198 | `get_data` fails at the first candidate without a document; else exactly when there are rows and some order column is not selected, naming the first such column |
| `Ordering.RevenueOrderedAsText` | Common/functions.py:198 | revenues are ordered as text: "10.00" sorts before "2.00" |
| `Ordering.StrLtIrreflexive` | Common/functions.py:198 | no string is smaller than itself |
| `Ordering.StrLtTransitive` | Common/functions.py:198 | string `<` is transitive |
| `Ordering.StrLtTotal` | Common/functions.py:198 | any two different strings are ordered one way or the other |
| `Ordering.KeyLtIrreflexive` | Common/functions.py:198 | no key tuple is smaller than itself |
| `Ordering.KeyLtTransitive` | Common/functions.py:198 | tuple `<` is transitive |
| `Ordering.KeyLtTotal` | Common/functions.py:198 | any two different key tuples are ordered one way or the other |
| `Ordering.KeyLtAsymmetric` | Common/functions.py:198 | two key tuples are never each smaller than the other |
| `Ordering.Insert` | Common/functions.py:198 | inserting a pair into a list adds exactly that pair |
| `Ordering.StableSort` | Common/functions.py:198 | the sort returns a permutation of its input |
| `Ordering.WithKeyAppend` | Common/functions.py:198 | the pairs with one key in a concatenation are those of each part, in order |
| `Ordering.InsertSorted` | Common/functions.py:198 | inserting into a sorted list keeps it sorted |
| `Ordering.InsertWithKey` | Common/functions.py:198 | inserting places the new pair after every pair with an equal key |
| `Ordering.StableSortSorted` | Common/functions.py:198 | the sort's result is sorted by key |
| `Ordering.StableSortStable` | Common/functions.py:198 | the sort is stable: pairs with equal keys keep their input order |
| `Ordering.WithKeyMember` | Common/functions.py:198 | a pair occurs among the pairs with its own key |
| `Ordering.SortedByKeysUnique` | Common/functions.py:198 | two sorted lists with the same pairs for every key are equal |
| `Ordering.StableSortUnique` | Common/functions.py:198 | any sorted and stable arrangement of the input is the sort's result, so every stable sort (Timsort included) gives it |
| `DataStore.IngestedEventIndexed` | Common/functions.py:84-90 | after `add_data`, every stored event is listed under each of its five values |
| `DataStore.IndexedIdsStored` | Common/functions.py:84-90 | after `add_data`, every indexed id still has a document |
| `DataStore.IngestKeepsOwnIds` | Common/functions.py:75-87 | every document stays well formed and carries its own id |
| `DataStore.IndexRecordKeepsStb` | Common/functions.py:28 | `create_indices` never creates an index of the `stb` column |
| `DataStore.IngestPreservesInvariant` | Common/functions.py:46-91 | `add_data` keeps the store invariant (documents own their ids, no `stb` index, duplicate-free lists, indexed ids stored, stored events indexed) |
| `DataStore.Store.constructor` | Common/functions.py:4 | the data directory starts empty, with no documents and no index files |
| `DataStore.Store.CreateIndices` | Common/functions.py:7-43 | the loop leaves the documents alone and the indices as `IndexRecord` describes |
| `DataStore.Store.AddData` | Common/functions.py:46-91 | the documents become `Ingest(old, e)`, the indices `IndexRecord(old, e)`, and the store invariant holds again |
| `DataStore.Store.GetFilteredStb` | Common/functions.py:94-124 | the scan, the `stb` shortcut and the index lookup return `Candidates`, with a missing index an error |
| `DataStore.Store.GetData` | Common/functions.py:178-200 | the loop over candidates, the projection and the sort return `QueryResult` |
| `DataStore.IndexColumnsStep` | Common/functions.py:28-42 | one pass of the column loop adds that column's index update |
| `DataStore.GatherStopsAtMissing` | Common/functions.py:189-192 | once a document fails to load, the ids after it are never reached |
| `DataStore.IndexCandidatesStored` | Common/functions.py:114-123 | in a consistent store, an index filter fails exactly when its index file is missing, and every id it reports has a document |
| `DataStore.IndexQueryLoads` | Common/functions.py:189-193 | loading the ids an index filter reported, in any order, never fails |
| `DataStore.StoredEventFound` | Common/functions.py:94-124 | a filter on any of a stored event's six values reports its box id |
| `DataStore.StoredEventLoaded` | Common/functions.py:188-193 | loading any id list that contains the box gives the stored event among the rows |
| `DataStore.FullScanReturnsAll` | Common/functions.py:105-109 | when every stored id starts with "stb" and has no dot, the full scan reports exactly the stored ids |
| `DataStore.IngestCreatesIndices` | Common/functions.py:31-42 | after one event every index filter succeeds, and a value no event carried gives no ids |
| `DataStore.EmptyStoreFilterFails` | Common/functions.py:114-118 | before any event an index filter fails on the missing file, and the full scan finds nothing |
| `DataStore.IngestThenRead` | Common/functions.py:84 | reading a box right after adding an event gives that event as the only row of its slot |
| `DataStore.LastWriteRead` | Common/functions.py:84 | after two events for the same slot, the box reads back one row for it, with the second event's values |
| `DataStore.DistinctCountsOnce` | Common/functions.py:38-39 | an element of a duplicate-free list occurs in it exactly once |
| `DataStore.AddDataIdempotent` | Common/functions.py:46-91 | adding an event twice leaves documents and indices as adding it once |
| `DataStore.AddDataListsOnce` | Common/functions.py:36-39 | after an event is added, its box id is listed exactly once under each of its values |
| `DataStore.OrderSingleRow` | Common/functions.py:198 | sorting a single row that has every order column returns it unchanged |
| `DataStore.OneEventCandidates` | Common/functions.py:114-123 | after one event, each of its values lists just its box, and any other value lists none |
| `DataStore.OneEventDoc` | Common/functions.py:75-87 | after one event, the store holds one document with one date and one title |
| `DataStore.SingleSlotRows` | Common/functions.py:157-175 | a one-slot document gives its event if that passes the filter, else nothing |
| `DataStore.OneEventRows` | Common/functions.py:188-193 | after one event, loading its box under a filter it passes gives exactly that event |
| `DataStore.StaleEntryListed` | Common/functions.py:36-39 | after a slot is overwritten with another provider, the old provider still lists the box |
| `DataStore.StaleEntryGivesNoRows` | Common/functions.py:173 | loading that box under the old provider gives no row, because rows are filtered again |
| `DataStore.SingleEventCandidates` | Common/functions.py:114-123 | example: after the event (stb1, Titanic, Paramount, 2017-04-01, 6.00, 12:30), provider Paramount finds `{stb1}` and Fox finds nothing |
| `DataStore.SingleEventQuery` | Common/functions.py:178-200 | example: selecting `stb,rev` with filter provider=Paramount, ordered by `stb`, gives the single row `{stb: stb1, rev: 6.00}` |
| `DataStore.ExampleProjection` | Common/functions.py:145 | example: the event projected onto `stb,rev` is `{stb: stb1, rev: 6.00}` |

## Left out

- The command-line front end `query.py` and the test-data generator `generator.py` are not part of this model. That includes the parsing and validation of input lines, the reformatting of dates, times and revenues, and printing.
- File-system behaviour is left out. The model has no `os.makedirs`, no `os.path.normpath`, and no files other than the store's. A data directory that does not exist when the scan lists it is also left out. The directory is the pair of maps in `DataStore.Store`.
- JSON encoding is left out. Documents and indices are stored as values, so a corrupt or hand-edited file cannot occur.
- Crashes, partial writes and concurrent writers are left out. Each `add_data` is atomic in the model.
- Set iteration order is unspecified in Python. `get_data` takes its candidates as a sequence of distinct ids in the order the set happens to give them. Every property above holds for any such order.
- `list.sort` sorts in place with Timsort. The model sorts values with a stable insertion sort. `Ordering.StableSortUnique` shows that every stable sort gives the same result.
- The document's `stb` key is modelled as a separate field. In the source it shares a dictionary with the dates, so a date equal to the string "stb" would collide with it. The callers accept only `YYYY-MM-DD` dates, so the model assumes dates are never "stb".
- Filters, selections and orders name one of the six known columns. An unknown column name, which the callers reject, is not modelled.
- DataStore.StoredEventFound: proves only that every box with a matching stored event is reported. The converse does not hold in the source, because an overwritten value stays listed under its old index entry (`DataStore.StaleEntryListed`). Rows are filtered again, so a stale entry never gives a wrong row (`DataStore.StaleEntryGivesNoRows`).
