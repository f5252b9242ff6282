# Shape store

A model of the in-memory shape service of `main.py`: one ordered collection of
shape records (`item_name`, `no_of_sides`, `id`) and the handlers that list,
look up, create, update, upsert and delete records in it. Each handler is a
pure function from the current store, the path id and the request body to a
response (a value or not-found) together with the next store.

Ids are supplied by callers and are never checked for uniqueness, so records
may share an id. Every handler scans from the front and acts on the FIRST
record carrying the id. The model keeps that: `Shapes.IsFirstMatch` names the
index a scan stops at, and every contract is stated in terms of it.

Files:

- `shapes.dfy` (module `Shapes`): the `Shape` record, the `Result`/`Response`
  types, the seed store, and the first-match search.
- `store.dfy` (module `ShapeStore`): the handlers as functions, plus the scan
  loop and the deletion loop as methods proved to agree with them.
- `properties.dfy` (module `StoreProperties`): properties that relate
  several calls.

Two quirks of the code are kept on purpose:

- An update never writes the body's `id`. The matched record keeps its stored
  id (`StoreProperties.UpdateIgnoresBodyId`).
- An upsert of an absent id appends the body as it is, with the body's own
  `id`, which may differ from the path id. A repeated upsert then appends again
  (`StoreProperties.UpsertAbsentRepeatAppendsAgain`).

Because ids may repeat, two expectations hold only for unique ids, and the
model states the general behaviour:

- A create followed by a lookup of the body's id returns the body only when no
  earlier record carried that id; otherwise it returns the earlier record
  (`StoreProperties.CreateThenGet`).
- A delete followed by a lookup of the same id reports not-found exactly when
  no other record shared the id (`StoreProperties.DeleteThenGet`).

## Model

| member | source | states |
|---|---|---|
| `Shapes.FindFrom` | main.py:43-45 | the scan finds nothing iff no record carries the id; otherwise it stops at the lowest index carrying it |
| `ShapeStore.ScanFirst` | main.py:58-59 | the handlers' loop reports a match iff some record carries the id, and then the index of the first one |
| `ShapeStore.Get` | main.py:41-48 | lookup fails with not-found (carrying the id) iff no record has the id, otherwise returns the record at the first matching index; the store is never changed |
| `ShapeStore.Create` | main.py:50-54 | the body is appended with no uniqueness check: length grows by one, earlier records are unchanged, the body is last and is returned |
| `ShapeStore.Update` | main.py:56-64 | on a present id only the first match changes, to the body's name and side count with the path id kept; every other record and the length stay; on an absent id the store is returned untouched with not-found |
| `ShapeStore.Upsert` | main.py:67-80 | never fails; on a present id it is exactly the update; on an absent id the body itself, own id included, is appended and returned |
| `ShapeStore.Delete` | main.py:82-93 | on a present id the length drops by one and the records before and after the first match keep their relative order; on an absent id not-found with the store untouched |
| `ShapeStore.DeleteByScan` | main.py:85-93 | the position-counting deletion loop computes the same response and store as the deletion function |
| `StoreProperties.StartupState` | main.py:11-14 | the initial listing is Triangle/3/id 1 then Square/4/id 2; ids 1 and 2 find those records, every other id is not found, and no id repeats |
| `StoreProperties.CreateThenGet` | main.py:50-54 | a lookup of a created body's id returns the body when the id was new and the earlier record otherwise |
| `StoreProperties.CreateThenDelete` | main.py:82-93 | deleting a freshly created record with a new id restores the store exactly |
| `StoreProperties.UpdateIgnoresBodyId` | main.py:60-61 | the update's outcome does not depend on the body's id |
| `StoreProperties.UpdatePreservesIds` | main.py:58-63 | an update keeps the length and every record's id in place |
| `StoreProperties.UpdateThenGet` | main.py:56-63 | after a successful update a lookup of the same id returns the updated record |
| `StoreProperties.UpdateIdempotent` | main.py:56-64 | repeating an update with the same body changes neither store nor result |
| `StoreProperties.UpsertAbsentRepeatAppendsAgain` | main.py:77-80 | when the path id is absent and the body's id differs, two upserts append the body twice |
| `StoreProperties.UpsertIdempotentWhenIdsAgree` | main.py:67-80 | when the body carries the path id, a repeated upsert changes neither store nor result |
| `StoreProperties.DeleteThenGet` | main.py:82-93 | after a successful delete the id is not found iff no other record shared it |
| `StoreProperties.DeleteRemovesFirstMatch` | main.py:85-90 | a successful delete removes exactly one copy of the first matching record and keeps all others (as a multiset) |

## Left out

- HTTP routing, status codes and JSON serialisation: not-found is the `NotFound(id)` result constructor instead of an HTTP 404, and the detail strings of the error messages are not modelled.
- Validation and coercion of the request body: the body is taken as a well-typed `Shape`.
- The startup and shutdown hooks, the log file and the clock timestamps they write: I/O only.
- The `print` calls and the hello-world root endpoint: no logic.
- Asynchronous handling and concurrent requests: each handler is one atomic step on the store.
- The listing handler is the `ShapeStore.List` function with no contract of its own; it returns the store unchanged, and its result at startup is stated by `StoreProperties.StartupState`.
- Integers are unbounded, as in Python.
