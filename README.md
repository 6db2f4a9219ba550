# Degree router: a verified model

This project models the `degree` router of a multi-tenant back-office
application (`server/api/routers/degree.ts`). The router exposes CRUD
procedures over a table of degrees, each a `{name, description}` record with
a store-assigned id. It also has an `import` procedure that reconciles an
uploaded list with the stored rows in one of three modes:

- `RESET` deletes every row, then bulk-inserts the upload.
- `UPDATE` overwrites the rows whose names are already stored and inserts the rest.
- `ADD_NEW_ONLY` inserts only the rows whose names are new.

The database is replaced by an in-memory table, the class
`DegreeStore.DegreeTable`. Its rows are a sequence in id order, and its ids
come from a counter, so they ascend. Row names are unique. The router relies
on that when it updates by `name` (degree.ts:160), so `create`, `update` and
the bulk insert `createMany` report a uniqueness violation instead of storing
a second row with the same name. `createMany` is one statement: it inserts
the whole batch or nothing.

The table's content, seen by name, is `Contents()`, a map from name to
description. It is built by `DegreeModel.Catalog`, which reads a list of
records in order, so a later record with the same name wins. Each import
mode is stated as an equation on that map:

- `RESET`: the content is `Catalog(upload)`, and the stored records are the upload itself, in order.
- `UPDATE`: the content is `old + Catalog(upload)`. No pre-existing row is lost, and no pre-existing row changes its id or name. Behind the old rows stand the new-name upload records, in upload order.
- `ADD_NEW_ONLY`: the content is `old + Catalog(newData)`. The rows are the old rows followed by `newData`, where `newData` is the upload filtered to new names, in upload order.
- A null or unknown mode changes nothing and returns nothing.

Modules:

- `DegreeModel` (degree_model.dfy): records, rows, store errors, the name view `Catalog`, the name filter `Select`, and the lookups by id and by name.
- `DegreeImport` (degree_import.dfy): the three loops inside `import`, as methods proved equal to `Names`/`Select`, plus what UPDATE and ADD_NEW_ONLY do to the name view.
- `DegreeQueries` (degree_queries.dfy): `get` and `getById` as functions over the rows.
- `DegreeStore` (degree_store.dfy): the table class with `create`, `update`, `delete`, `deleteAll`, `import` and the database calls `import` issues.
- `DegreeScenarios` (degree_scenarios.dfy): verified client methods that derive the outcome of each mode on a table holding A and B from the contracts alone, plus an empty RESET and an unknown mode.

Three consequences of the code that the model states:

- An empty `RESET` upload empties the table, because the delete runs before the empty insert (degree.ts:130-136).
- `ADD_NEW_ONLY` always calls `createMany`, which returns 0 when nothing is new (degree.ts:177-179).
- A repeated name in a `RESET` upload makes the insert fail after the delete, which leaves an empty table and an `Err`.

## Model

| member | source | states |
|---|---|---|
| DegreeImport.CollectNames | server/api/routers/degree.ts:120-126 | `oldListSet` holds exactly the names of the rows read at the start: a name is in it if and only if some row carries it |
| DegreeImport.PartitionUpload | server/api/routers/degree.ts:139-148 | `overWrittenRows` is the upload filtered to stored names and `createNewRows` the upload filtered to new names, each in upload order (equal to `Select`) |
| DegreeImport.NewRowsOnly | server/api/routers/degree.ts:170-175 | `newData` is the upload filtered to names not in `oldListSet`, in upload order; a row is in it if and only if it is uploaded and its name is new |
| DegreeModel.SelectMembers | server/api/routers/degree.ts:142-148 | a row is selected if and only if it is in the upload and its name is (or is not) in the name set |
| DegreeModel.SelectInOrder | server/api/routers/degree.ts:142-148 | the selection is the upload's rows at strictly increasing positions, exactly the positions whose row qualifies, so upload order is kept |
| DegreeModel.SelectSplit | server/api/routers/degree.ts:142-148 | the two selections together hold every uploaded row exactly as often as the upload does, and their lengths add up to the upload's |
| DegreeModel.SelectAppend | server/api/routers/degree.ts:171-175 | filtering a concatenation is concatenating the filtered parts, so the filter processes rows one by one in order |
| DegreeModel.SelectNames | server/api/routers/degree.ts:143-146 | the names of the stored-name selection are the upload's names inside the set; those of the new-name selection are the upload's names outside it |
| DegreeModel.CatalogKeys | server/api/routers/degree.ts:120-126 | the name view of a list of records has exactly the records' names as keys |
| DegreeModel.CatalogLastWins | server/api/routers/degree.ts:156-165 | the last record carrying a name decides that name's description |
| DegreeModel.CatalogAppend | server/api/routers/degree.ts:150-154 | appending records overrides the name view with the appended records' view |
| DegreeModel.CatalogPartition | server/api/routers/degree.ts:139-165 | the upload's name view equals the view of its new-name rows overridden by the view of its stored-name rows, so inserting one part and overwriting with the other applies the whole upload |
| DegreeModel.CatalogReplace | server/api/routers/degree.ts:91-100 | overwriting one row whose new name is its own or unused keeps names distinct and replaces that row's entry in the name view only |
| DegreeModel.CatalogRemove | server/api/routers/degree.ts:61-64 | removing one row keeps names distinct and removes exactly its name from the name view |
| DegreeModel.FirstClash | server/api/routers/degree.ts:134-136 | a bulk insert finds no clash if and only if the batch has no repeated name and shares no name with the table; a reported clash is a batch name |
| DegreeModel.IndexOfId | server/api/routers/degree.ts:92-95 | finds the position of the row with the id, and finds none exactly when no row has that id |
| DegreeModel.IndexOfName | server/api/routers/degree.ts:158-161 | finds the position of the row with the name, and finds none exactly when no row carries that name |
| DegreeImport.UpdateOutcome | server/api/routers/degree.ts:150-168 | after UPDATE the names are the stored ones plus the uploaded ones; a stored name absent from the upload keeps its description; an uploaded name gets the description of its last upload row |
| DegreeImport.UpdateApplies | server/api/routers/degree.ts:139-166 | inserting the new-name rows and then overwriting with the stored-name rows turns any view into that view overridden by the whole upload |
| DegreeImport.AddNewOnlyOutcome | server/api/routers/degree.ts:170-179 | after ADD_NEW_ONLY every stored name keeps its description and the names are the stored ones plus the uploaded ones |
| DegreeQueries.ContainsIff | server/api/routers/degree.ts:28-31 | the substring test holds if and only if some slice of the name equals the search key |
| DegreeQueries.Matching | server/api/routers/degree.ts:25-34 | a row matches if and only if it is in the table and its name contains the key (case ignored); an empty key matches every row |
| DegreeQueries.MatchingAscending | server/api/routers/degree.ts:25-37 | the filter keeps table order: on a table whose ids ascend, the matches' ids ascend, as `orderBy: id asc` asks |
| DegreeQueries.Window | server/api/routers/degree.ts:23-24 | `skip`/`take`: the window has `min(take, len - skip)` elements (none past the end), element `k` being element `skip + k` of the list |
| DegreeQueries.Get | server/api/routers/degree.ts:18-40 | `get` returns at most `pageSize` rows, all matching and from the table, in ascending id order, namely the matches after skipping `pageIndex * pageSize`; `rowCount` is the table size whatever the key |
| DegreeQueries.PageAt | server/api/routers/degree.ts:23-24 | on any list, the element at `pos` lies in the window skipping `(pos / pageSize) * pageSize` and taking `pageSize`, at offset `pos % pageSize` |
| DegreeQueries.PageHoldsMatch | server/api/routers/degree.ts:22-24 | every matching row is reachable: the match at position `pos` is on page `pos / pageSize` at offset `pos % pageSize` |
| DegreeQueries.GetById | server/api/routers/degree.ts:43-53 | `getById` returns a table row with that id, or nothing exactly when no row has it; with ascending ids the row is the only one |
| DegreeStore.InsertRows | server/api/routers/degree.ts:150-154 | a bulk insert of a batch without repeated or stored names keeps ids ascending, distinct and below the next id, appends the batch's records and overrides the view with the batch's |
| DegreeStore.ReplaceRow | server/api/routers/degree.ts:92-100 | overwriting one row's record under its id, with its own name or an unused one, keeps the table well formed and changes only that row's entry of the view |
| DegreeStore.RenewRow | server/api/routers/degree.ts:158-163 | overwriting the row that carries a name changes that row only, keeps every id and name, and gives the name the new description |
| DegreeStore.DropRow | server/api/routers/degree.ts:62-64 | removing one row keeps the table well formed and removes exactly its name from the view |
| DegreeStore.DegreeTable.Create | server/api/routers/degree.ts:67-81 | `create` appends exactly one row with the next id and the given record, adding its name to the view; a stored name is refused and nothing changes |
| DegreeStore.DegreeTable.Update | server/api/routers/degree.ts:83-101 | `update` replaces only the row with the given id; a missing id gives not-found, a name held by another row gives a uniqueness error, both without change |
| DegreeStore.DegreeTable.Delete | server/api/routers/degree.ts:55-65 | `delete` removes only the row with the id and returns it, dropping its name from the view; a missing id gives not-found without change |
| DegreeStore.DegreeTable.DeleteAll | server/api/routers/degree.ts:103-105 | `deleteAll` empties the table and reports the number of rows it held |
| DegreeStore.DegreeTable.CreateMany | server/api/routers/degree.ts:150-154 | a bulk insert appends the batch with fresh ascending ids and overrides the view with it, or, on a repeated or stored name, fails and changes nothing |
| DegreeStore.DegreeTable.UpdateByName | server/api/routers/degree.ts:158-163 | an update keyed by name gives the row carrying that name the uploaded record and leaves every other row, every id and every name as it was |
| DegreeStore.DegreeTable.CreateNewRows | server/api/routers/degree.ts:150-154 | the UPDATE branch inserts its new-name rows only when there are some; either way the table ends as the bulk insert of them would leave it, or unchanged with an error on a repeated name |
| DegreeStore.DegreeTable.OverwriteAll | server/api/routers/degree.ts:155-166 | the per-name updates leave ids and names in place, leave every row whose name is not among the overwritten ones exactly as it was, and turn the view into the old view overridden by the overwritten rows' view |
| DegreeStore.TailKept | server/api/routers/degree.ts:150-166 | rows inserted with new names survive the later updates keyed by stored names, so the records behind the old rows are still the inserted batch, in order |
| DegreeStore.DegreeTable.ImportReset | server/api/routers/degree.ts:130-136 | RESET leaves exactly the uploaded records, in upload order, and returns their count, whatever was stored; an empty upload leaves an empty table; a repeated name leaves an empty table and an error |
| DegreeStore.DegreeTable.ImportUpdate | server/api/routers/degree.ts:138-168 | UPDATE returns nothing and makes the view `old + Catalog(upload)`, keeping every old row's id and name; the records behind the old rows are the new-name upload rows in upload order; a repeated new name fails before any write |
| DegreeStore.DegreeTable.ImportAddNewOnly | server/api/routers/degree.ts:170-179 | ADD_NEW_ONLY appends exactly the new-name upload rows after the untouched old rows and returns their count; a repeated new name fails without change |
| DegreeStore.DegreeTable.Import | server/api/routers/degree.ts:107-184 | `import` reads the stored names and dispatches on the mode string: RESET, UPDATE and ADD_NEW_ONLY as above; a null or unrecognised mode changes nothing and returns nothing |

## Left out

- Database execution: the ORM's queries run against the in-memory table. Connection errors, timeouts and other store failures outside the uniqueness and not-found errors are not modelled.
- The concrete error types and codes of the ORM: they are reduced to `UniqueViolation(name)` and `NotFound(id)`.
- Id generation: the real ids are strings generated by the database layer. Here they are increasing natural numbers, so "ordered by id" is insertion order. The model does not capture an id order that differs from creation order.
- The table's uniqueness of `name`: the database schema is not part of this model. Uniqueness is inferred from the update keyed on `name` (degree.ts:160).
- `Promise.all` in UPDATE (degree.ts:156-165): the per-name updates run one after the other in upload order. For a name that occurs twice, the later row wins, which is one of the outcomes the concurrent dispatch allows. A failure part-way through the updates cannot arise in the model, because every update targets a stored name.
- Concurrent writers between the initial read and the writes of `import`: every procedure runs alone on the table.
- Case-insensitive matching (degree.ts:30): only ASCII letters are folded. Unicode case folding and database collation are not modelled.
- `pageIndex` and `pageSize` are natural numbers. The input schema accepts any number, and the database layer's handling of negative or fractional `skip`/`take` is not modelled.
- The tRPC/zod input validation, the `protectedProcedure` authentication wrapper and the procedures' async plumbing.
- `components/auth/ForgotPasswordForm.tsx`, `components/shared/GoogleReCAPTCHA.tsx`: UI components with a form regex, a `fetch` call and component state.
- `lib/recaptcha.ts`: an HTTP call to an external verification endpoint.
- `lib/retraced.ts`: a wrapper over an audit-log SDK, with a lazily built client and wall-clock timestamps.
- `middleware.ts`: route matching and token verification are delegated to external libraries.
- DegreeStore.DegreeTable.ImportUpdate: on success it states the view, the count of rows, the ids and names of the old rows and the inserted records in order. It does not state the ids given to the inserted rows; `CreateMany` states them for the insert itself.
- DegreeStore.DegreeTable.Import: in RESET it does not restate `nextId`; `ImportReset` states it.
