/** The rows of the two tables behind the note-taking routes (folders and
    notes), the colour palette, the form a note is submitted with, and the
    result type that stands for a route's error exit. */
module Records {

  /** The colour palette new folders draw from. */
  const Colors: seq<string> := ["blue", "warm", "peach", "pink", "green", "purple", "grey"]

  /** Colour of a note whose form has no `color` field, and of the default folder. */
  const DefaultColor: string := "grey"

  /** The folder seeded when the database is initialised; a note created
      while no folder is selected is saved here. */
  const DefaultFolderId: nat := 1
  const DefaultFolderName: string := "My Notes"

  /** The range of SQLite's INTEGER: a Python int outside it cannot be bound
      as a statement parameter, and AUTOINCREMENT hands out no id above it. */
  const MinInteger: int := -0x8000_0000_0000_0000
  const MaxInteger: int := 0x7FFF_FFFF_FFFF_FFFF

  predicate FitsInteger(x: int) {
    MinInteger <= x <= MaxInteger
  }

  /** A row of the `folders` table. */
  datatype Folder = Folder(id: nat, name: string, color: string)

  /** A row of the `notes` table. `pinned` is the INTEGER column (the routes
      only ever write 0 or 1 to it); `updatedAt` stands for the ISO-8601 UTC
      text, whose lexicographic order is its time order. */
  datatype Note = Note(
    id: nat,
    folderId: int,
    title: string,
    content: string,
    pinned: int,
    color: string,
    updatedAt: nat)

  datatype Option<T> = None | Some(value: T) {
    function GetOr(default: T): T {
      match this
      case Some(v) => v
      case None => default
    }
  }

  /** Why a route ends without its table effect: a required form field is
      absent (HTTP 400); an integer does not fit a statement parameter
      (`OverflowError`, HTTP 500); AUTOINCREMENT has no id left
      (`SQLITE_FULL`, HTTP 500); or the pin toggle found no row to read
      (HTTP 500). */
  datatype Error = MissingField(field: string) | IntegerOverflow | Full | NoNote(id: nat)

  datatype Result<T> = Ok(value: T) | Err(error: Error)

  /** The form fields of a note submission; `None` is a field the request lacks. */
  datatype NoteForm = NoteForm(title: Option<string>, note: Option<string>, color: Option<string>)
}
