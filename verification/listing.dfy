/** The listing query of the index page: the notes of one folder (or of
    every folder), ordered pinned first and, within each group, most recently
    updated first. */
module Listing {
  import opened Records

  /** The WHERE clause of the listing: folder 0 selects every note. */
  predicate Matches(n: Note, folder: int) {
    folder == 0 || n.folderId == folder
  }

  /** The rows the listing selects, in table order. Every note keeps its
      multiplicity when it matches and is dropped when it does not. */
  function Selected(ns: seq<Note>, folder: int): (r: seq<Note>)
    ensures forall n :: multiset(r)[n] == if Matches(n, folder) then multiset(ns)[n] else 0
    ensures folder == 0 ==> r == ns
  {
    if ns == [] then []
    else
      assert ns == [ns[0]] + ns[1..];
      (if Matches(ns[0], folder) then [ns[0]] else []) + Selected(ns[1..], folder)
  }

  /** `ORDER BY pinned DESC, updated_at DESC`: `a` may stand before `b`. */
  predicate Precedes(a: Note, b: Note) {
    a.pinned > b.pinned || (a.pinned == b.pinned && a.updatedAt >= b.updatedAt)
  }

  /** Each note may stand before its successor. */
  predicate Ordered(s: seq<Note>) {
    forall i :: 0 <= i < |s| - 1 ==> Precedes(s[i], s[i + 1])
  }

  /** Puts `n` before the first note it may precede. */
  function Insert(n: Note, s: seq<Note>): (r: seq<Note>)
    requires Ordered(s)
    ensures Ordered(r)
    ensures multiset(r) == multiset(s) + multiset{n}
    ensures r[0] == n || (s != [] && r[0] == s[0])
  {
    if s == [] || Precedes(n, s[0]) then [n] + s
    else
      assert s == [s[0]] + s[1..];
      [s[0]] + Insert(n, s[1..])
  }

  /** A stable sort by the listing's ORDER BY. SQL leaves the order of notes
      with equal keys open; this one keeps table order among them. */
  function Sort(s: seq<Note>): (r: seq<Note>)
    ensures Ordered(r)
    ensures multiset(r) == multiset(s)
  {
    if s == [] then []
    else
      assert s == [s[0]] + s[1..];
      Insert(s[0], Sort(s[1..]))
  }

  /** The notes the index page shows for the folder filter `folder`: exactly
      the matching notes, each as often as in the table, in listing order. */
  function ListNotes(ns: seq<Note>, folder: int): (r: seq<Note>)
    ensures Ordered(r)
    ensures forall n :: multiset(r)[n] == if Matches(n, folder) then multiset(ns)[n] else 0
    ensures forall n :: n in r <==> n in ns && Matches(n, folder)
    ensures folder == 0 ==> multiset(r) == multiset(ns)
  {
    var sel := Selected(ns, folder);
    var r := Sort(sel);
    assert forall n :: n in r <==> n in multiset(r);
    assert forall n :: n in ns <==> n in multiset(ns);
    r
  }

  /** Ordering between neighbours extends to every pair. */
  lemma {:induction false} OrderedPairwise(s: seq<Note>)
    requires Ordered(s)
    ensures forall i, j :: 0 <= i < j < |s| ==> Precedes(s[i], s[j])
  {
    if |s| > 1 {
      OrderedPairwise(s[1..]);
      forall i, j | 0 <= i < j < |s| ensures Precedes(s[i], s[j]) {
        if i > 0 {
          assert s[i] == s[1..][i - 1] && s[j] == s[1..][j - 1];
        } else if j > 1 {
          assert s[1] == s[1..][0] && s[j] == s[1..][j - 1];
        }
      }
    }
  }

  /** The ordering contract of the listing: every pinned note comes before
      every unpinned one, and within a group of equal `pinned` the notes
      come in non-increasing `updatedAt`. */
  lemma ListingOrder(ns: seq<Note>, folder: int)
    ensures var r := ListNotes(ns, folder);
      forall i, j :: 0 <= i < |r| && 0 <= j < |r| && r[i].pinned == 1 && r[j].pinned == 0 ==> i < j
    ensures var r := ListNotes(ns, folder);
      forall i, j :: 0 <= i < j < |r| && r[i].pinned == r[j].pinned ==> r[i].updatedAt >= r[j].updatedAt
  {
    var r := ListNotes(ns, folder);
    OrderedPairwise(r);
  }
}
