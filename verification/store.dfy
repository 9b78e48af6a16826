/** The note store the routes change in place: the folders and notes tables,
    each with its AUTOINCREMENT counter. Every route is one method; the clock
    (`datetime.utcnow()`) is the caller-supplied `now`, and the random folder
    colour is a caller-supplied palette member. */
module Store {
  import opened Records
  import opened Table
  import opened Listing

  /** What the index page is rendered from. */
  datatype Page = Page(folders: seq<Folder>, notes: seq<Note>, activeFolder: int)

  /** The row the index route inserts for a submitted form: saved to the
      filtered folder (the default folder when the filter is 0), unpinned,
      with title "" and colour "grey" when the form has none, updated `now`. */
  function NewNote(id: nat, folderArg: int, form: NoteForm, now: nat): (n: Note)
    requires form.note.Some?
    ensures n.id == id && n.content == form.note.value
    ensures n.folderId != 0 && (folderArg != 0 ==> n.folderId == folderArg)
    ensures folderArg == 0 ==> n.folderId == DefaultFolderId
    ensures n.pinned == 0 && n.updatedAt == now
    ensures n.title == (if form.title.Some? then form.title.value else "")
    ensures n.color == (if form.color.Some? then form.color.value else DefaultColor)
  {
    Note(id, SaveFolder(folderArg), form.title.GetOr(""), form.note.value, 0, form.color.GetOr(DefaultColor), now)
  }

  /** A note created under the filter `folderArg` is on the page that route
      renders: either every note is listed, or the filter is its folder. */
  lemma CreatedNoteListed(ns: seq<Note>, id: nat, folderArg: int, form: NoteForm, now: nat)
    requires form.note.Some?
    ensures NewNote(id, folderArg, form, now) in ListNotes(ns + [NewNote(id, folderArg, form, now)], folderArg)
  {
    var n := NewNote(id, folderArg, form, now);
    assert n in ns + [n];
  }

  /** After a delete, no listing shows the note, and every listing still
      shows every other note it showed. */
  lemma DeletedNoteUnlisted(ns: seq<Note>, id: nat, folder: int)
    ensures forall n :: n in ListNotes(Deleted(ns, id), folder) <==> n in ListNotes(ns, folder) && n.id != id
  {
  }

  /** After an UPDATE of an existing id, looking the id up gives the old row
      with the SET clause applied. */
  lemma FindUpdated(ns: seq<Note>, id: nat, c: Change, now: nat)
    requires NoteIdsAscending(ns) && HasNote(ns, id)
    ensures Find(Updated(ns, id, c, now), id) == Some(Apply(Find(ns, id).value, c, now))
  {
    var n := Find(ns, id).value;
    var k :| 0 <= k < |ns| && ns[k] == n;
    var r := Updated(ns, id, c, now);
    assert r[k] == Apply(n, c, now);
    UpdatedAscending(ns, id, c, now);
    FindUnique(r, r[k]);
  }

  /** A note moved to folder `g` is listed under `g` and under no other
      nonzero folder filter. */
  lemma MovedNoteListing(ns: seq<Note>, id: nat, g: nat, now: nat, h: int)
    requires NoteIdsAscending(ns) && HasNote(ns, id)
    requires h != 0 && h != g
    ensures var moved := Updated(ns, id, SetFolder(g), now);
      && Find(moved, id).Some?
      && Find(moved, id).value in ListNotes(moved, g)
      && forall n :: n in ListNotes(moved, h) ==> n.id != id
  {
    var moved := Updated(ns, id, SetFolder(g), now);
    FindUpdated(ns, id, SetFolder(g), now);
    UpdatedAscending(ns, id, SetFolder(g), now);
    forall n | n in ListNotes(moved, h) ensures n.id != id {
      if n.id == id {
        FindUnique(moved, n);
      }
    }
  }

  class NoteStore {
    var folders: seq<Folder>
    var notes: seq<Note>
    var nextFolderId: nat
    var nextNoteId: nat

    /** Both counters start at 1 and pass the INTEGER range by at most one,
        once AUTOINCREMENT has handed out its last id. */
    ghost predicate Valid()
      reads this
    {
      && 1 <= nextFolderId <= MaxInteger + 1 && 1 <= nextNoteId <= MaxInteger + 1
      && FoldersValid(folders, nextFolderId) && NotesValid(notes, nextNoteId)
    }

    /** A fresh database: both tables exist and are empty. */
    constructor ()
      ensures Valid()
      ensures folders == [] && notes == []
      ensures nextFolderId == 1 && nextNoteId == 1
    {
      folders, notes := [], [];
      nextFolderId, nextNoteId := 1, 1;
    }

    /** `init_db`: seeds the default folder unless a folder with its id exists. */
    method InitDb()
      requires Valid()
      modifies this
      ensures Valid()
      ensures folders == Seeded(old(folders)) && notes == old(notes)
      ensures nextNoteId == old(nextNoteId)
      ensures nextFolderId ==
        if HasFolder(old(folders), DefaultFolderId) || old(nextFolderId) >= 2 then old(nextFolderId) else 2
    {
      SeededValid(folders, nextFolderId);
      if !HasFolder(folders, DefaultFolderId) && nextFolderId < 2 {
        nextFolderId := 2;
      }
      folders := Seeded(folders);
    }

    /** The index route. A submitted form (`form` is `None` for a GET) inserts
        a note; a form without its `note` field, a folder filter outside the
        INTEGER range (bound by the INSERT or by the filtered SELECT) and an
        exhausted AUTOINCREMENT fail before any write, in that order. The page
        lists the notes the folder filter selects. */
    method Index(folderArg: int, form: Option<NoteForm>, now: nat) returns (r: Result<Page>)
      requires Valid()
      modifies this
      ensures Valid()
      ensures folders == old(folders) && nextFolderId == old(nextFolderId)
      ensures r.Err? ==> notes == old(notes) && nextNoteId == old(nextNoteId)
      ensures form.Some? && form.value.note.None? ==> r == Err(MissingField("note"))
      ensures (form.None? || form.value.note.Some?) && !FitsInteger(folderArg) ==> r == Err(IntegerOverflow)
      ensures form.None? && FitsInteger(folderArg) ==>
        r.Ok? && notes == old(notes) && nextNoteId == old(nextNoteId)
      ensures form.Some? && form.value.note.Some? && FitsInteger(folderArg) && old(nextNoteId) > MaxInteger ==>
        r == Err(Full)
      ensures form.Some? && form.value.note.Some? && FitsInteger(folderArg) && old(nextNoteId) <= MaxInteger ==>
        && nextNoteId == old(nextNoteId) + 1
        && notes == old(notes) + [NewNote(old(nextNoteId), folderArg, form.value, now)]
        && r.Ok? && NewNote(old(nextNoteId), folderArg, form.value, now) in r.value.notes
      ensures r.Ok? ==> r == Ok(Page(folders, ListNotes(notes, folderArg), folderArg))
    {
      if form.Some? && form.value.note.None? {
        return Err(MissingField("note"));
      }
      if !FitsInteger(folderArg) {
        return Err(IntegerOverflow);
      }
      if form.Some? {
        if nextNoteId > MaxInteger {
          return Err(Full);
        }
        CreatedNoteListed(notes, nextNoteId, folderArg, form.value, now);
        InsertNote(NewNote(nextNoteId, folderArg, form.value, now));
      }
      r := Ok(Page(folders, ListNotes(notes, folderArg), folderArg));
    }

    /** The note INSERT: the row takes the next AUTOINCREMENT id. */
    method InsertNote(n: Note)
      requires Valid()
      requires n.id == nextNoteId <= MaxInteger && n.pinned == 0 && FitsInteger(n.folderId)
      modifies this
      ensures Valid()
      ensures notes == old(notes) + [n] && nextNoteId == old(nextNoteId) + 1
      ensures folders == old(folders) && nextFolderId == old(nextFolderId)
    {
      AppendedValid(notes, nextNoteId, n);
      notes := notes + [n];
      nextNoteId := nextNoteId + 1;
    }

    /** A note UPDATE: the notes table becomes `Updated` of the old one. */
    method UpdateNote(id: nat, c: Change, now: nat)
      requires Valid()
      requires c.SetPinned? ==> c.pinned == 0 || c.pinned == 1
      requires c.SetFolder? ==> FitsInteger(c.folderId)
      modifies this
      ensures Valid()
      ensures notes == Updated(old(notes), id, c, now)
      ensures folders == old(folders) && nextNoteId == old(nextNoteId) && nextFolderId == old(nextFolderId)
    {
      UpdatedValid(notes, id, c, now, nextNoteId);
      notes := Updated(notes, id, c, now);
    }

    /** `new_folder`: appends a folder with the next id, the submitted name
        and a palette colour; a form without `name` and an exhausted
        AUTOINCREMENT fail before any write. */
    method NewFolder(name: Option<string>, color: string) returns (r: Result<()>)
      requires Valid()
      requires color in Colors
      modifies this
      ensures Valid()
      ensures notes == old(notes) && nextNoteId == old(nextNoteId)
      ensures r.Err? ==> folders == old(folders) && nextFolderId == old(nextFolderId)
      ensures name.None? ==> r == Err(MissingField("name"))
      ensures name.Some? && old(nextFolderId) > MaxInteger ==> r == Err(Full)
      ensures name.Some? && old(nextFolderId) <= MaxInteger ==>
        && r == Ok(())
        && folders == old(folders) + [Folder(old(nextFolderId), name.value, color)]
        && nextFolderId == old(nextFolderId) + 1
    {
      if name.None? {
        return Err(MissingField("name"));
      }
      if nextFolderId > MaxInteger {
        return Err(Full);
      }
      var f := Folder(nextFolderId, name.value, color);
      AppendedFolderValid(folders, nextFolderId, f);
      folders := folders + [f];
      nextFolderId := nextFolderId + 1;
      r := Ok(());
    }

    /** `rename_folder`: renames the folder with that id, if any; a form
        without `name` and an id outside the INTEGER range fail before any
        write. */
    method RenameFolder(id: nat, name: Option<string>) returns (r: Result<()>)
      requires Valid()
      modifies this
      ensures Valid()
      ensures notes == old(notes) && nextNoteId == old(nextNoteId) && nextFolderId == old(nextFolderId)
      ensures r.Err? ==> folders == old(folders)
      ensures name.None? ==> r == Err(MissingField("name"))
      ensures name.Some? && !FitsInteger(id) ==> r == Err(IntegerOverflow)
      ensures name.Some? && FitsInteger(id) ==>
        r == Ok(()) && folders == FoldersUpdated(old(folders), id, SetName(name.value))
    {
      if name.None? {
        return Err(MissingField("name"));
      }
      if !FitsInteger(id) {
        return Err(IntegerOverflow);
      }
      FoldersUpdatedValid(folders, id, SetName(name.value), nextFolderId);
      folders := FoldersUpdated(folders, id, SetName(name.value));
      r := Ok(());
    }

    /** `color_folder`: recolours the folder with that id, if any; the colour
        is not checked against the palette, and an id outside the INTEGER
        range fails before any write. */
    method ColorFolder(id: nat, color: string) returns (r: Result<()>)
      requires Valid()
      modifies this
      ensures Valid()
      ensures notes == old(notes) && nextNoteId == old(nextNoteId) && nextFolderId == old(nextFolderId)
      ensures !FitsInteger(id) ==> r == Err(IntegerOverflow) && folders == old(folders)
      ensures FitsInteger(id) ==> r == Ok(()) && folders == FoldersUpdated(old(folders), id, SetColor(color))
    {
      if !FitsInteger(id) {
        return Err(IntegerOverflow);
      }
      FoldersUpdatedValid(folders, id, SetColor(color), nextFolderId);
      folders := FoldersUpdated(folders, id, SetColor(color));
      r := Ok(());
    }

    /** `delete`: removes the note with that id, if any; an id outside the
        INTEGER range fails before any write. */
    method Delete(id: nat) returns (r: Result<()>)
      requires Valid()
      modifies this
      ensures Valid()
      ensures folders == old(folders) && nextNoteId == old(nextNoteId) && nextFolderId == old(nextFolderId)
      ensures !FitsInteger(id) ==> r == Err(IntegerOverflow) && notes == old(notes)
      ensures FitsInteger(id) ==> r == Ok(()) && notes == Deleted(old(notes), id)
    {
      if !FitsInteger(id) {
        return Err(IntegerOverflow);
      }
      DeletedAscending(notes, id);
      notes := Deleted(notes, id);
      r := Ok(());
    }

    /** `edit` (GET): the note the edit form is filled from, if any; an id
        outside the INTEGER range fails. */
    method EditPage(id: nat) returns (r: Result<Option<Note>>)
      requires Valid()
      ensures !FitsInteger(id) ==> r == Err(IntegerOverflow)
      ensures FitsInteger(id) ==> r.Ok?
      ensures r.Ok? ==> (r.value.Some? <==> HasNote(notes, id))
      ensures r.Ok? && r.value.Some? ==> r.value.value in notes && r.value.value.id == id
      ensures forall n :: n in notes && n.id == id ==> r == Ok(Some(n))
    {
      if !FitsInteger(id) {
        return Err(IntegerOverflow);
      }
      r := Ok(Find(notes, id));
      forall n | n in notes && n.id == id ensures r == Ok(Some(n)) {
        FindUnique(notes, n);
      }
    }

    /** `edit` (POST): sets title, content and colour of the note with that
        id, if any, and refreshes its `updated_at`; a form without `note`
        and an id outside the INTEGER range fail before any write. */
    method Edit(id: nat, form: NoteForm, now: nat) returns (r: Result<()>)
      requires Valid()
      modifies this
      ensures Valid()
      ensures folders == old(folders) && nextNoteId == old(nextNoteId) && nextFolderId == old(nextFolderId)
      ensures r.Err? ==> notes == old(notes)
      ensures form.note.None? ==> r == Err(MissingField("note"))
      ensures form.note.Some? && !FitsInteger(id) ==> r == Err(IntegerOverflow)
      ensures form.note.Some? && FitsInteger(id) ==>
        && r == Ok(())
        && notes == Updated(old(notes), id, SetText(form.title.GetOr(""), form.note.value, form.color.GetOr(DefaultColor)), now)
    {
      if form.note.None? {
        return Err(MissingField("note"));
      }
      if !FitsInteger(id) {
        return Err(IntegerOverflow);
      }
      UpdateNote(id, SetText(form.title.GetOr(""), form.note.value, form.color.GetOr(DefaultColor)), now);
      r := Ok(());
    }

    /** `toggle_pin`: reads the note's pin flag, writes its negation and
        refreshes `updated_at`, and returns the new flag. An id outside the
        INTEGER range fails at the read, and an id no note has fails on the
        missing row; both before any write. */
    method TogglePin(id: nat, now: nat) returns (r: Result<int>)
      requires Valid()
      modifies this
      ensures Valid()
      ensures folders == old(folders) && nextNoteId == old(nextNoteId) && nextFolderId == old(nextFolderId)
      ensures r.Err? ==> notes == old(notes)
      ensures !FitsInteger(id) ==> r == Err(IntegerOverflow)
      ensures FitsInteger(id) && !HasNote(old(notes), id) ==> r == Err(NoNote(id))
      ensures HasNote(old(notes), id) ==>
        && r == Ok(Toggled(Find(old(notes), id).value.pinned))
        && notes == Updated(old(notes), id, SetPinned(r.value), now)
        && Find(notes, id) == Some(Find(old(notes), id).value.(pinned := r.value, updatedAt := now))
    {
      if !FitsInteger(id) {
        assert !HasNote(notes, id);
        return Err(IntegerOverflow);
      }
      var row := Find(notes, id);
      if row.None? {
        return Err(NoNote(id));
      }
      var state := Toggled(row.value.pinned);
      FindUpdated(notes, id, SetPinned(state), now);
      UpdateNote(id, SetPinned(state), now);
      r := Ok(state);
    }

    /** `move_note`: sets the folder of the note with that id, if any, and
        refreshes its `updated_at`; the folder is not checked to exist. A
        folder or note id outside the INTEGER range fails before any write. */
    method MoveNote(noteId: nat, folderId: nat, now: nat) returns (r: Result<()>)
      requires Valid()
      modifies this
      ensures Valid()
      ensures folders == old(folders) && nextNoteId == old(nextNoteId) && nextFolderId == old(nextFolderId)
      ensures !FitsInteger(folderId) || !FitsInteger(noteId) ==> r == Err(IntegerOverflow) && notes == old(notes)
      ensures FitsInteger(folderId) && FitsInteger(noteId) ==>
        r == Ok(()) && notes == Updated(old(notes), noteId, SetFolder(folderId), now)
    {
      if !FitsInteger(folderId) || !FitsInteger(noteId) {
        return Err(IntegerOverflow);
      }
      UpdateNote(noteId, SetFolder(folderId), now);
      r := Ok(());
    }
  }

  /** Appending a row with the next AUTOINCREMENT id keeps the notes table
      well formed. */
  lemma AppendedValid(ns: seq<Note>, next: nat, n: Note)
    requires NotesValid(ns, next) && 1 <= next
    requires n.id == next && n.pinned == 0 && FitsInteger(n.folderId)
    ensures NotesValid(ns + [n], next + 1)
  {
    var r := ns + [n];
    forall i, j | 0 <= i < j < |r| ensures r[i].id < r[j].id {
      assert r[i] == ns[i] && ns[i] in ns;
      if j < |ns| {
        assert r[j] == ns[j];
      }
    }
  }

  lemma AppendedFolderValid(fs: seq<Folder>, next: nat, f: Folder)
    requires FoldersValid(fs, next) && 1 <= next
    requires f.id == next
    ensures FoldersValid(fs + [f], next + 1)
  {
    var r := fs + [f];
    forall i, j | 0 <= i < j < |r| ensures r[i].id < r[j].id {
      assert r[i] == fs[i] && fs[i] in fs;
      if j < |fs| {
        assert r[j] == fs[j];
      }
    }
  }

  /** Two toggles of an existing note restore its pin flag: the two calls
      return different states, and together they act as one UPDATE that
      writes back the note's own flag, so that only its `updated_at`
      changes. */
  method PinTwice(s: NoteStore, id: nat, t1: nat, t2: nat) returns (first: Result<int>, second: Result<int>)
    requires s.Valid() && HasNote(s.notes, id)
    modifies s
    ensures s.Valid()
    ensures s.folders == old(s.folders) && s.nextNoteId == old(s.nextNoteId) && s.nextFolderId == old(s.nextFolderId)
    ensures first.Ok? && second.Ok? && first.value != second.value
    ensures second.value == Find(old(s.notes), id).value.pinned
    ensures s.notes == Updated(Updated(old(s.notes), id, SetPinned(first.value), t1), id, SetPinned(second.value), t2)
    ensures s.notes == Updated(old(s.notes), id, SetPinned(second.value), t2)
  {
    ghost var before := s.notes;
    ghost var n := Find(s.notes, id).value;
    assert n.pinned == 0 || n.pinned == 1 by { assert n in s.notes; }
    first := s.TogglePin(id, t1);
    assert HasNote(s.notes, id) && Find(s.notes, id).value.pinned == first.value;
    second := s.TogglePin(id, t2);
    assert second.value == n.pinned by { Table.ToggleTwice(n.pinned); }
    PinnedTwice(before, id, first.value, second.value, t1, t2);
  }

  /** A listing of a one-note table is that note. */
  lemma ListOne(n: Note, folder: int)
    requires Matches(n, folder)
    ensures ListNotes([n], folder) == [n]
  {
    var r := ListNotes([n], folder);
    assert multiset(r) == multiset{n};
    assert |r| == |multiset(r)| == 1;
    assert r[0] in multiset(r);
  }

  /** On a fresh store: a note created with only its content is listed
      unpinned; pinning it returns 1 and lists it pinned; deleting it
      leaves an empty listing. */
  method CreatePinDelete(t1: nat, t2: nat, t3: nat)
    returns (listed: seq<Note>, state: Result<int>, pinned: seq<Note>, after: seq<Note>)
    ensures |listed| == 1 && listed[0].content == "buy milk" && listed[0].folderId == DefaultFolderId
    ensures listed[0].pinned == 0 && listed[0].title == "" && listed[0].color == DefaultColor
    ensures state == Ok(1)
    ensures pinned == [listed[0].(pinned := 1, updatedAt := t2)]
    ensures after == []
  {
    var s := new NoteStore();
    s.InitDb();
    var page := s.Index(0, Some(NoteForm(None, Some("buy milk"), None)), t1);
    var n := NewNote(1, 0, NoteForm(None, Some("buy milk"), None), t1);
    assert s.notes == [n];
    ListOne(n, 0);
    assert page.Ok?;
    listed := page.value.notes;
    assert n in s.notes;
    state := s.TogglePin(n.id, t2);
    var m := n.(pinned := 1, updatedAt := t2);
    assert s.notes == [m];
    ListOne(m, 0);
    page := s.Index(0, None, t2);
    pinned := page.value.notes;
    var deleted := s.Delete(n.id);
    assert s.notes == [];
    page := s.Index(0, None, t3);
    after := page.value.notes;
  }
}
