/** The effect of each SQL statement of the routes on the rows of a table:
    the SELECT by id, the UPDATEs with their SET clauses, the DELETE, the
    seeding INSERT OR IGNORE, and the pin negation. Tables are sequences of
    rows in rowid order. */
module Table {
  import opened Records

  predicate HasNote(ns: seq<Note>, id: nat) {
    exists n :: n in ns && n.id == id
  }

  predicate HasFolder(fs: seq<Folder>, id: nat) {
    exists f :: f in fs && f.id == id
  }

  /** Note ids strictly increase in table order, as AUTOINCREMENT rowids do. */
  predicate NoteIdsAscending(ns: seq<Note>) {
    forall i, j :: 0 <= i < j < |ns| ==> ns[i].id < ns[j].id
  }

  predicate FolderIdsAscending(fs: seq<Folder>) {
    forall i, j :: 0 <= i < j < |fs| ==> fs[i].id < fs[j].id
  }

  /** The notes table as the routes leave it: ascending positive ids below
      the next AUTOINCREMENT value, `pinned` always 0 or 1, and every folder
      id within the INTEGER range. */
  predicate NotesValid(ns: seq<Note>, next: nat) {
    && NoteIdsAscending(ns)
    && (forall n :: n in ns ==>
          1 <= n.id < next && (n.pinned == 0 || n.pinned == 1) && FitsInteger(n.folderId))
  }

  predicate FoldersValid(fs: seq<Folder>, next: nat) {
    && FolderIdsAscending(fs)
    && (forall f :: f in fs ==> 1 <= f.id < next)
  }

  /** `SELECT ... FROM notes WHERE id=?` followed by `fetchone()`. */
  function Find(ns: seq<Note>, id: nat): (r: Option<Note>)
    ensures r.Some? <==> HasNote(ns, id)
    ensures r.Some? ==> r.value in ns && r.value.id == id
  {
    if ns == [] then None
    else if ns[0].id == id then Some(ns[0])
    else Find(ns[1..], id)
  }

  /** With unique ids, the row `Find` returns is the one row with that id. */
  lemma {:induction false} FindUnique(ns: seq<Note>, n: Note)
    requires NoteIdsAscending(ns) && n in ns
    ensures Find(ns, n.id) == Some(n)
  {
    if ns[0] != n {
      var k :| 0 <= k < |ns| && ns[k] == n;
      assert k > 0;
      assert ns[0].id != n.id;
      assert ns[1..][k - 1] == n;
      FindUnique(ns[1..], n);
    }
  }

  /** The SET clause of an UPDATE on the notes table: `edit` sets title,
      content and colour, `toggle_pin` sets the pin flag, `move_note` sets
      the folder. Each also refreshes `updated_at`. */
  datatype Change =
    | SetText(title: string, content: string, color: string)
    | SetPinned(pinned: int)
    | SetFolder(folderId: int)

  /** One row after a SET clause: the id is kept, `updated_at` becomes `now`,
      and every column the clause does not name keeps its value. */
  function Apply(n: Note, c: Change, now: nat): (m: Note)
    ensures m.id == n.id && m.updatedAt == now
    ensures c.SetText? ==>
      m.folderId == n.folderId && m.pinned == n.pinned
      && m.title == c.title && m.content == c.content && m.color == c.color
    ensures c.SetPinned? ==>
      m.folderId == n.folderId && m.title == n.title && m.content == n.content && m.color == n.color
      && m.pinned == c.pinned
    ensures c.SetFolder? ==>
      m.title == n.title && m.content == n.content && m.color == n.color && m.pinned == n.pinned
      && m.folderId == c.folderId
  {
    match c
    case SetText(t, body, col) => n.(title := t, content := body, color := col, updatedAt := now)
    case SetPinned(p) => n.(pinned := p, updatedAt := now)
    case SetFolder(f) => n.(folderId := f, updatedAt := now)
  }

  /** `UPDATE notes SET ... WHERE id=?`: the rows with that id change as the
      clause says, every other row and the order of rows stay as they were,
      and an id no row has leaves the table as it was. */
  function Updated(ns: seq<Note>, id: nat, c: Change, now: nat): (r: seq<Note>)
    ensures |r| == |ns|
    ensures forall i :: 0 <= i < |ns| ==> r[i] == if ns[i].id == id then Apply(ns[i], c, now) else ns[i]
    ensures !HasNote(ns, id) ==> r == ns
  {
    if ns == [] then []
    else [if ns[0].id == id then Apply(ns[0], c, now) else ns[0]] + Updated(ns[1..], id, c, now)
  }

  /** An UPDATE keeps every id in its place, hence rowid order. */
  lemma UpdatedAscending(ns: seq<Note>, id: nat, c: Change, now: nat)
    requires NoteIdsAscending(ns)
    ensures NoteIdsAscending(Updated(ns, id, c, now))
  {
  }

  /** An UPDATE keeps the table well formed when the pin flag it writes is 0
      or 1 and the folder id it writes fits the INTEGER range. */
  lemma UpdatedValid(ns: seq<Note>, id: nat, c: Change, now: nat, next: nat)
    requires NotesValid(ns, next)
    requires c.SetPinned? ==> c.pinned == 0 || c.pinned == 1
    requires c.SetFolder? ==> FitsInteger(c.folderId)
    ensures NotesValid(Updated(ns, id, c, now), next)
  {
    var r := Updated(ns, id, c, now);
    UpdatedAscending(ns, id, c, now);
    forall n | n in r
      ensures 1 <= n.id < next && (n.pinned == 0 || n.pinned == 1) && FitsInteger(n.folderId)
    {
      var i :| 0 <= i < |r| && r[i] == n;
      assert ns[i] in ns;
      if ns[i].id == id {
        assert n == Apply(ns[i], c, now);
      } else {
        assert n == ns[i];
      }
    }
  }

  /** `DELETE FROM notes WHERE id=?`: the rows with that id go, every other
      row stays with its multiplicity and in its order, and an id no row has
      leaves the table as it was. */
  function Deleted(ns: seq<Note>, id: nat): (r: seq<Note>)
    ensures forall n :: multiset(r)[n] == if n.id == id then 0 else multiset(ns)[n]
    ensures forall n :: n in r <==> n in ns && n.id != id
    ensures !HasNote(ns, id) ==> r == ns
  {
    if ns == [] then []
    else
      assert ns == [ns[0]] + ns[1..];
      var rest := Deleted(ns[1..], id);
      var r := if ns[0].id == id then rest else [ns[0]] + rest;
      assert forall n :: n in r <==> n in multiset(r);
      assert forall n :: n in ns <==> n in multiset(ns);
      r
  }

  /** Deleting keeps the remaining rows in rowid order. */
  lemma {:induction false} DeletedAscending(ns: seq<Note>, id: nat)
    requires NoteIdsAscending(ns)
    ensures NoteIdsAscending(Deleted(ns, id))
  {
    if ns != [] {
      var rest := Deleted(ns[1..], id);
      DeletedAscending(ns[1..], id);
      if ns[0].id != id {
        forall n | n in rest ensures ns[0].id < n.id {
          HeadBelowTail(ns, n);
        }
        ConsAscending(ns[0], rest);
      }
    }
  }

  lemma HeadBelowTail(ns: seq<Note>, n: Note)
    requires NoteIdsAscending(ns) && ns != [] && n in ns[1..]
    ensures ns[0].id < n.id
  {
    var k :| 0 <= k < |ns[1..]| && ns[1..][k] == n;
    assert ns[k + 1] == n;
  }

  lemma ConsAscending(x: Note, s: seq<Note>)
    requires NoteIdsAscending(s)
    requires forall n :: n in s ==> x.id < n.id
    ensures NoteIdsAscending([x] + s)
  {
    var r := [x] + s;
    forall i, j | 0 <= i < j < |r| ensures r[i].id < r[j].id {
      assert r[j] == s[j - 1];
      if i > 0 {
        assert r[i] == s[i - 1];
      }
    }
  }

  /** The pin negation of `toggle_pin`: a note pinned (1) becomes unpinned
      (0), anything else becomes pinned (1). */
  function Toggled(pinned: int): (s: int)
    ensures s == 0 || s == 1
    ensures s == 0 <==> pinned == 1
  {
    if pinned == 1 then 0 else 1
  }

  /** Two toggles restore a 0/1 flag. */
  lemma ToggleTwice(pinned: int)
    requires pinned == 0 || pinned == 1
    ensures Toggled(Toggled(pinned)) == pinned
  {
  }

  /** A second pin UPDATE of the same id overrides the first: the pair has
      the effect of the second alone. */
  lemma {:induction false} PinnedTwice(ns: seq<Note>, id: nat, p: int, q: int, t1: nat, t2: nat)
    ensures Updated(Updated(ns, id, SetPinned(p), t1), id, SetPinned(q), t2) == Updated(ns, id, SetPinned(q), t2)
  {
    var r := Updated(Updated(ns, id, SetPinned(p), t1), id, SetPinned(q), t2);
    var u := Updated(ns, id, SetPinned(q), t2);
    forall i | 0 <= i < |ns| ensures r[i] == u[i] {
      assert Updated(ns, id, SetPinned(p), t1)[i].id == ns[i].id;
    }
  }

  /** A pin UPDATE that writes back the flag the row already has changes
      only that row's `updated_at`. */
  lemma RepinnedRows(ns: seq<Note>, id: nat, t: nat)
    requires NoteIdsAscending(ns) && HasNote(ns, id)
    ensures var r := Updated(ns, id, SetPinned(Find(ns, id).value.pinned), t);
      forall i :: 0 <= i < |ns| ==> r[i] == if ns[i].id == id then ns[i].(updatedAt := t) else ns[i]
  {
    forall i | 0 <= i < |ns| && ns[i].id == id
      ensures Find(ns, id).value.pinned == ns[i].pinned
    {
      assert ns[i] in ns;
      FindUnique(ns, ns[i]);
    }
  }

  /** The folder saved to when a note is created under the folder filter
      `folderArg`: the filter itself, or the default folder when it is 0. */
  function SaveFolder(folderArg: int): (f: int)
    ensures f != 0
    ensures folderArg != 0 ==> f == folderArg
    ensures folderArg == 0 ==> f == DefaultFolderId
  {
    if folderArg != 0 then folderArg else DefaultFolderId
  }

  /** The row `init_db` seeds. */
  function DefaultFolder(): Folder {
    Folder(DefaultFolderId, DefaultFolderName, DefaultColor)
  }

  /** `INSERT OR IGNORE INTO folders (id, name, color) VALUES (1, 'My Notes',
      'grey')`: the default folder exists afterwards, every existing row is
      kept, and the default row is added only when no row has id 1. Row 1
      comes first in rowid order. */
  function Seeded(fs: seq<Folder>): (r: seq<Folder>)
    ensures HasFolder(r, DefaultFolderId)
    ensures forall f :: f in r <==> f in fs || (f == DefaultFolder() && !HasFolder(fs, DefaultFolderId))
    ensures HasFolder(fs, DefaultFolderId) ==> r == fs
    ensures |r| <= |fs| + 1
  {
    if HasFolder(fs, DefaultFolderId) then fs else [DefaultFolder()] + fs
  }

  /** Seeding is idempotent: a second `init_db` changes nothing. */
  lemma SeedIdempotent(fs: seq<Folder>)
    ensures Seeded(Seeded(fs)) == Seeded(fs)
  {
  }

  /** Seeding keeps the folders table well formed; AUTOINCREMENT moves past
      the explicit id 1. */
  lemma SeededValid(fs: seq<Folder>, next: nat)
    requires FoldersValid(fs, next)
    ensures FoldersValid(Seeded(fs), if HasFolder(fs, DefaultFolderId) then next else if next < 2 then 2 else next)
  {
    if !HasFolder(fs, DefaultFolderId) {
      forall f | f in fs ensures DefaultFolderId < f.id {
        assert f.id != DefaultFolderId;
      }
      ConsFolderAscending(DefaultFolder(), fs);
    }
  }

  lemma ConsFolderAscending(x: Folder, s: seq<Folder>)
    requires FolderIdsAscending(s)
    requires forall f :: f in s ==> x.id < f.id
    ensures FolderIdsAscending([x] + s)
  {
    var r := [x] + s;
    forall i, j | 0 <= i < j < |r| ensures r[i].id < r[j].id {
      assert r[j] == s[j - 1];
      if i > 0 {
        assert r[i] == s[i - 1];
      }
    }
  }

  /** The SET clause of an UPDATE on the folders table. */
  datatype FolderChange = SetName(name: string) | SetColor(color: string)

  /** One folder row after a SET clause: the id is kept, the clause's column
      takes the new value and the other column keeps its value. */
  function ApplyFolder(f: Folder, c: FolderChange): (g: Folder)
    ensures g.id == f.id
    ensures c.SetName? ==> g.name == c.name && g.color == f.color
    ensures c.SetColor? ==> g.color == c.color && g.name == f.name
  {
    match c
    case SetName(name) => f.(name := name)
    case SetColor(color) => f.(color := color)
  }

  /** `UPDATE folders SET ... WHERE id=?`: the rows with that id change as
      the clause says, every other row and the order of rows stay as they
      were, and an id no row has leaves the table as it was. */
  function FoldersUpdated(fs: seq<Folder>, id: nat, c: FolderChange): (r: seq<Folder>)
    ensures |r| == |fs|
    ensures forall i :: 0 <= i < |fs| ==> r[i] == if fs[i].id == id then ApplyFolder(fs[i], c) else fs[i]
    ensures !HasFolder(fs, id) ==> r == fs
  {
    if fs == [] then []
    else [if fs[0].id == id then ApplyFolder(fs[0], c) else fs[0]] + FoldersUpdated(fs[1..], id, c)
  }

  /** A folder UPDATE keeps the folders table well formed. */
  lemma FoldersUpdatedValid(fs: seq<Folder>, id: nat, c: FolderChange, next: nat)
    requires FoldersValid(fs, next)
    ensures FoldersValid(FoldersUpdated(fs, id, c), next)
  {
    var r := FoldersUpdated(fs, id, c);
    assert forall i :: 0 <= i < |r| ==> r[i].id == fs[i].id;
    forall f | f in r ensures 1 <= f.id < next {
      var i :| 0 <= i < |r| && r[i] == f;
      assert fs[i] in fs;
    }
  }
}
