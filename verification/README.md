# ANY-note: the note and folder store

This project models the store behind the routes of the ANY-note web
application (`app.py`). It has two SQLite tables:

- `folders(id, name, color)`
- `notes(id, folder_id, title, content, pinned, color, updated_at)`

The index route shows the notes of one folder, or of every folder, with
pinned notes first and the most recently updated first within each group.
Each route that changes a table runs one `INSERT`, `UPDATE` or `DELETE`.
The GET pages of `index` and `edit` only read. `toggle_pin` first reads the
note's pin flag and then writes its negation in a second statement.

The model has four modules:

- `Records` (`records.dfy`): the rows of both tables, the seven-colour
  palette, the note form, and a `Result` type for a route's error exit.
  The errors are:
  - a missing form field (HTTP 400);
  - an integer outside SQLite's signed 64-bit INTEGER range bound as a
    statement parameter (`OverflowError`, HTTP 500);
  - an AUTOINCREMENT counter with no id left (`SQLITE_FULL`, HTTP 500);
  - a pin toggle that finds no row (HTTP 500).

  Every error happens before the route writes anything.
- `Listing` (`listing.dfy`): the listing query as pure functions. The
  folder filter is `Selected` and `ORDER BY pinned DESC, updated_at DESC`
  is `Sort`. `ListNotes` combines the two, and lemmas state the ordering
  contract.
- `Table` (`table.dfy`): what each SQL statement does to the rows of a
  table, as pure functions:
  - the lookup by id;
  - the three `UPDATE ... SET` clauses on notes and the two on folders;
  - the `DELETE`;
  - the seeding `INSERT OR IGNORE`;
  - the pin negation.

  It also states the well-formedness of each table. Ids are AUTOINCREMENT
  rowids in ascending order, below the next id. `pinned` is 0 or 1, and
  every `folder_id` fits the INTEGER range.
- `Store` (`store.dfy`): the class `NoteStore`. Its fields are both tables
  (as sequences in rowid order) and both AUTOINCREMENT counters. It has one
  method per route. Neither counter passes the largest INTEGER by more
  than one. Each method keeps `Valid()` and gives the new tables as
  functions from `Table` of the old ones. Lemmas relate the operations to
  the listing. `CreatePinDelete` is a client that runs create, list, pin,
  list, delete, list on a fresh store.

The clock (`datetime.utcnow().isoformat()`) is a caller-supplied `nat`
named `now`. ISO-8601 UTC text compares lexicographically in time order, so
a number keeps the order the listing sorts by. `random.choice(COLORS)` in
`new_folder` is a `color` parameter that must be in `Colors`.

Some behaviour of the code is easy to assume otherwise. The model follows
the code:

- A note with empty content is accepted. Only a form with no `note` field
  aborts, before any write.
- `edit`, `delete` and `move_note` on an id that no note has change
  nothing and report success. They do not report "not found".
- `move_note` does not check that the target folder exists.
- `color_folder` does not check the colour against the palette.
- There are no accounts or owners. Notes have no `created_at` column.
- `toggle_pin` reads and then writes in two statements. It is not atomic.
- Ids and the folder filter are Python integers of any size. One outside
  the INTEGER range fails when it is bound, so it never matches a row and
  never reaches a table. A filter of 0 is never bound.

## Model

| member | source | states |
|---|---|---|
| `Listing.Selected` | app.py:74-84 | Folder filter 0 selects every note, in table order. Any other filter keeps exactly the notes whose `folder_id` equals it, each as often as in the table. |
| `Listing.Sort` | app.py:77 | The result is ordered by `pinned` descending, then `updated_at` descending, and is a permutation of its input. |
| `Listing.ListNotes` | app.py:74-84 | The listing is ordered and holds each matching note as often as the table does, and no other note. A note is listed iff it is in the table and matches the filter. Filter 0 lists a permutation of the whole table. |
| `Listing.OrderedPairwise` | app.py:77 | Ordering between neighbours extends to every pair of positions. |
| `Listing.ListingOrder` | app.py:83 | In every listing, each pinned note comes before each unpinned one. Within equal `pinned`, `updated_at` does not increase. |
| `Table.Find` | app.py:158 | The lookup finds a row iff some row has that id. The row it finds is in the table and has that id. |
| `Table.FindUnique` | app.py:34 | With unique ids, the lookup returns the one row with that id. |
| `Table.Apply` | app.py:141-179 | A SET clause keeps the id and sets `updated_at` to now. `edit` sets title, content and colour, `toggle_pin` sets pinned, `move_note` sets the folder. Every column outside the clause keeps its value. |
| `Table.Updated` | app.py:141-179 | An UPDATE keeps the length and order of the table. Only rows with the given id change, as the SET clause says. An absent id leaves the table unchanged. |
| `Table.UpdatedAscending` | app.py:34 | An UPDATE keeps the ids in rowid order. |
| `Table.UpdatedValid` | app.py:34-38 | An UPDATE keeps the table well formed when the pin flag it writes is 0 or 1 and the folder id it writes fits the INTEGER range. |
| `Table.Deleted` | app.py:127 | The DELETE removes every row with the id. It keeps every other row with its multiplicity. An absent id leaves the table unchanged. |
| `Table.DeletedAscending` | app.py:127 | The rows left after a delete stay in rowid order. |
| `Table.Toggled` | app.py:160 | The new pin state is 0 or 1. It is 0 exactly when the old state was 1. |
| `Table.ToggleTwice` | app.py:160 | Negating a 0/1 flag twice restores it. |
| `Table.PinnedTwice` | app.py:162-166 | A second pin UPDATE of the same id overrides the first. The pair has the effect of the second alone. |
| `Table.RepinnedRows` | app.py:162-166 | A pin UPDATE that writes back a note's own flag changes only that note's `updated_at`. Every other row stays as it was. |
| `Table.SaveFolder` | app.py:64 | A note goes to the filtered folder, or to folder 1 when the filter is 0. It never goes to folder 0. |
| `Table.Seeded` | app.py:44-47 | Afterwards folder 1 exists. Existing rows are kept. "My Notes"/grey is added only when no row has id 1. |
| `Table.SeedIdempotent` | app.py:44-47 | Seeding twice is the same as seeding once. |
| `Table.SeededValid` | app.py:25-26 | Seeding keeps the folders table well formed. The AUTOINCREMENT counter moves past id 1. |
| `Table.ApplyFolder` | app.py:109-117 | A folder SET clause keeps the id. It sets the name (rename) or the colour (recolour) and keeps the other column. |
| `Table.FoldersUpdated` | app.py:105-119 | A folder UPDATE keeps the length and order of the table. Only rows with the given id change, as the SET clause says. An absent id changes nothing. |
| `Table.FoldersUpdatedValid` | app.py:109-117 | A folder UPDATE keeps the folders table well formed. |
| `Store.NewNote` | app.py:60-69 | The inserted note is in the filtered folder, or folder 1 for filter 0. It has the submitted content and is unpinned. Title is "" and colour "grey" unless the form gives them. `updated_at` is now. |
| `Store.CreatedNoteListed` | app.py:64-84 | A note created under a filter is on the page that the same request renders. |
| `Store.DeletedNoteUnlisted` | app.py:124-129 | After a delete, no listing shows the deleted id. Every listing still shows every other note it showed. |
| `Store.FindUpdated` | app.py:162-166 | After an UPDATE of an existing id, looking it up gives the old row with the SET clause applied. |
| `Store.MovedNoteListing` | app.py:172-181 | A moved note is listed under its new folder and under no other nonzero filter. |
| `Store.AppendedValid` | app.py:66-69 | Inserting an unpinned note with the next AUTOINCREMENT id and a folder id in the INTEGER range keeps the notes table well formed. |
| `Store.AppendedFolderValid` | app.py:100 | Inserting a folder with the next AUTOINCREMENT id keeps the folders table well formed. |
| `Store.NoteStore.constructor` | app.py:22-42 | A fresh database has empty tables, and both counters start at 1. |
| `Store.NoteStore.InitDb` | app.py:22-47 | Seeds the default folder and leaves notes unchanged. |
| `Store.NoteStore.Index` | app.py:54-89 | A POST whose form lacks `note` fails first. Then a folder filter outside the INTEGER range fails, on POST and GET. Then a POST with no id left fails with `Full`. No failure writes. Any other POST appends `NewNote` with the next id, and the page then lists it. A GET changes nothing. Every success returns the folders and `ListNotes` for the filter. |
| `Store.NoteStore.InsertNote` | app.py:66-69 | The INSERT appends the row with the next id and advances the counter. The notes table stays well formed. |
| `Store.NoteStore.UpdateNote` | app.py:141-145 | An UPDATE turns the notes table into `Updated` of the old one and keeps it well formed. |
| `Store.NoteStore.NewFolder` | app.py:94-102 | Appends a folder with the next id, the submitted name and the drawn palette colour. A missing `name`, then an exhausted counter, fails with no insert. |
| `Store.NoteStore.RenameFolder` | app.py:105-111 | Renames only the folder with that id. A missing `name` fails first, then an id outside the INTEGER range. Neither writes. |
| `Store.NoteStore.ColorFolder` | app.py:114-119 | Recolours only the folder with that id, with any colour. An id outside the INTEGER range fails with no write. |
| `Store.NoteStore.Delete` | app.py:124-129 | The notes table becomes `Deleted` of the old one. An id outside the INTEGER range fails with no write. Nothing else changes. |
| `Store.NoteStore.EditPage` | app.py:149-150 | Returns the note with that id, or nothing when there is none. An id outside the INTEGER range fails. |
| `Store.NoteStore.Edit` | app.py:132-147 | Sets title, content, colour and `updated_at` of the note with that id only. A missing `note` field fails first, then an id outside the INTEGER range. Neither writes. |
| `Store.NoteStore.TogglePin` | app.py:155-169 | An id outside the INTEGER range fails, and so does an id no note has, both before any write. Otherwise returns the negated flag, writes it with `updated_at` = now, and changes nothing else. |
| `Store.NoteStore.MoveNote` | app.py:172-181 | Sets the folder and `updated_at` of the note with that id only. The folder's existence is not checked. A note or folder id outside the INTEGER range fails with no write. |
| `Store.PinTwice` | app.py:155-169 | Two toggles of an existing note return different states, and the second returns the original flag. Together they equal one UPDATE that writes back that flag. Folders and counters do not change. |
| `Store.CreatePinDelete` | app.py:54-129 | On a fresh store, the created note is listed alone, unpinned, in folder 1. Pinning returns 1 and lists it pinned. After deleting it the listing is empty. |

## Left out

- Flask routing, form and query-string parsing, template rendering,
  redirects and JSON responses. Routes take their arguments as values and
  return what the page or payload is built from.
- A `folder` query argument that is not an integer. `int()` raises
  `ValueError`, which Flask answers with HTTP 500. The model takes the
  folder filter as an `int`.
- The length limit on SQLite strings and blobs (`SQLITE_TOOBIG`). Names,
  titles, contents and colours are unbounded strings.
- SQLite connections, commits and the `CREATE TABLE IF NOT EXISTS` text.
  The constructor stands for a freshly created, empty database.
- The clock. `now` is a parameter, and nothing relates the `now` of one
  call to the next. A caller can pass a smaller value than before.
- The random colour choice. It is a parameter that must be in the palette.
- The order of listed notes with equal `pinned` and `updated_at`. SQL
  leaves it open. `Sort` keeps table order among them, and the contracts
  only claim the ordering and the permutation.
- Concurrent requests, including two `toggle_pin` calls racing between
  their read and their write. Calls are modelled one at a time.
- Starting the server (`app.run`).
