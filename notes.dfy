/** The note records of the in-memory store, its seed data, the `find` that
    the `note` query runs over it, and the invariant that ties every note's id
    to its position. */
module Notes {
  import opened Wrappers
  import opened Decimal

  datatype Note = Note(id: string, content: string, author: string)

  /** The author that `newNote` writes on every note it creates. */
  const DefaultAuthor: string := "Randy Neely"

  /** The four notes the list starts with, ids "1" to "4" in that order. */
  const SeedNotes: seq<Note> := [
    Note("1",
         "Arrived at Cristiano Ronaldo International Airport on Madeira Island; Airport Code: FNC",
         "Mr. & Mrs. Carter"),
    Note("2", "Rented a car", "Fred Miller & Michael Smith"),
    Note("3", "Drove around Funchal and then to Prazeres", "Alicia and Peter Silva"),
    Note("4", "Checked into the Jardim Atlantico Hotel", "Steve Archuleta & Randy Neely")
  ]

  /** The note at 0-based position i has id String(i + 1). */
  predicate IdsArePositions(notes: seq<Note>) {
    forall i | 0 <= i < |notes| :: notes[i].id == NatToString(i + 1)
  }

  /** `notes.find(note => note.id === id)`: the first note carrying `id`,
      or absent when there is none. */
  function FindNote(notes: seq<Note>, id: string): (r: Option<Note>)
    ensures r.None? <==> forall i | 0 <= i < |notes| :: notes[i].id != id
    ensures r.Some? ==>
      r.value.id == id &&
      exists i | 0 <= i < |notes| ::
        notes[i] == r.value && forall j | 0 <= j < i :: notes[j].id != id
  {
    if notes == [] then None
    else if notes[0].id == id then Some(notes[0])
    else
      var r := FindNote(notes[1..], id);
      if r.Some? then
        var i :| 0 <= i < |notes[1..]| && notes[1..][i] == r.value &&
                 forall j | 0 <= j < i :: notes[1..][j].id != id;
        assert notes[i + 1] == r.value;
        r
      else r
  }

  /** The record `newNote(content)` builds when the list is `notes`. */
  function NewRecord(notes: seq<Note>, content: string): (n: Note)
    ensures n.content == content && n.author == DefaultAuthor
    ensures ParseDecimal(n.id) == Some(|notes| + 1)
    ensures forall i | 0 <= i < |n.id| :: IsDigit(n.id[i])
    ensures n.id[0] != '0'
  {
    ParseNatToString(|notes| + 1);
    Note(NatToString(|notes| + 1), content, DefaultAuthor)
  }

  lemma SeedIdsArePositions()
    ensures IdsArePositions(SeedNotes)
  {
    assert NatToString(1) == "1" && NatToString(2) == "2";
    assert NatToString(3) == "3" && NatToString(4) == "4";
  }

  /** Ids are pairwise distinct while the invariant holds. */
  lemma IdsAreUnique(notes: seq<Note>)
    requires IdsArePositions(notes)
    ensures forall i, j | 0 <= i < j < |notes| :: notes[i].id != notes[j].id
  {
    forall i, j | 0 <= i < j < |notes| ensures notes[i].id != notes[j].id {
      NatToStringInjective(i + 1, j + 1);
    }
  }

  /** `find` returns the note at the first position that carries the id. */
  lemma {:induction false} FindNoteFirst(notes: seq<Note>, id: string, i: nat)
    requires i < |notes| && notes[i].id == id
    requires forall j | 0 <= j < i :: notes[j].id != id
    ensures FindNote(notes, id) == Some(notes[i])
  {
    if i > 0 {
      assert notes[0].id != id;
      assert notes[1..][i - 1] == notes[i];
      FindNoteFirst(notes[1..], id, i - 1);
    }
  }

  /** `note(String(k))` is the k-th note. */
  lemma FindNoteAtPosition(notes: seq<Note>, k: nat)
    requires IdsArePositions(notes)
    requires 1 <= k <= |notes|
    ensures FindNote(notes, NatToString(k)) == Some(notes[k - 1])
  {
    forall j | 0 <= j < k - 1 ensures notes[j].id != NatToString(k) {
      NatToStringInjective(j + 1, k);
    }
    FindNoteFirst(notes, NatToString(k), k - 1);
  }

  /** Under the invariant `note(id)` finds something exactly when `id` is
      String(k) for a position k of the list. */
  lemma FindNoteFound(notes: seq<Note>, id: string)
    requires IdsArePositions(notes)
    ensures FindNote(notes, id).Some? <==>
            exists k | 1 <= k <= |notes| :: id == NatToString(k)
  {
    if FindNote(notes, id).Some? {
      var i :| 0 <= i < |notes| && notes[i].id == id;
      assert id == NatToString(i + 1);
    } else if exists k | 1 <= k <= |notes| :: id == NatToString(k) {
      var k :| 1 <= k <= |notes| && id == NatToString(k);
      assert notes[k - 1].id == id;
    }
  }

  /** Appending a note leaves every earlier lookup as it was; the new note is
      found only for an id no earlier note has. */
  lemma {:induction false} FindNoteAppend(notes: seq<Note>, n: Note, id: string)
    ensures FindNote(notes + [n], id) ==
            if FindNote(notes, id).Some? then FindNote(notes, id)
            else if n.id == id then Some(n)
            else None
  {
    if notes != [] {
      assert (notes + [n])[0] == notes[0];
      assert (notes + [n])[1..] == notes[1..] + [n];
      FindNoteAppend(notes[1..], n, id);
    }
  }

  /** Appending the record `newNote` builds keeps the invariant. */
  lemma AppendKeepsIds(notes: seq<Note>, content: string)
    requires IdsArePositions(notes)
    ensures IdsArePositions(notes + [NewRecord(notes, content)])
  {
  }

  /** A created note is found again by its id. */
  lemma NewRecordFound(notes: seq<Note>, content: string)
    requires IdsArePositions(notes)
    ensures FindNote(notes + [NewRecord(notes, content)], NewRecord(notes, content).id)
            == Some(NewRecord(notes, content))
  {
    var n := NewRecord(notes, content);
    AppendKeepsIds(notes, content);
    FindNoteAtPosition(notes + [n], |notes| + 1);
  }
}
