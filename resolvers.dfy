/** The module-level `notes` list and the resolver table over it: three
    queries that only read the list and one mutation that appends to it. */
module Resolvers {
  import opened Wrappers
  import opened Decimal
  import opened Notes

  /** What the `hello` query answers. */
  const Greeting: string := "Hello Travellers!"

  /** The operations of the schema. The arguments the schema marks as
      required (`id: ID!`, `content: String!`) are plain, non-optional
      fields, so an operation cannot be built without them. */
  datatype Operation =
    | Hello
    | AllNotes
    | NoteById(id: string)
    | NewNote(content: string)

  datatype Response =
    | Text(text: string)
    | NoteList(notes: seq<Note>)
    | MaybeNote(found: Option<Note>)
    | Created(note: Note)

  class NoteStore {
    /** The list of notes, in insertion order. */
    var notes: seq<Note>

    /** Every note's id is the decimal string of its 1-based position. */
    ghost predicate Valid()
      reads this
    {
      IdsArePositions(notes)
    }

    /** The list as the module loads it: the four seed notes. */
    constructor ()
      ensures Valid()
      ensures notes == SeedNotes
    {
      notes := SeedNotes;
      SeedIdsArePositions();
    }

    /** `Mutation.newNote`: builds a note with id String(length + 1), the
        given content and the fixed author, pushes it and returns it. */
    method CreateNote(content: string) returns (n: Note)
      requires Valid()
      modifies this
      ensures Valid()
      ensures n.id == NatToString(|old(notes)| + 1)
      ensures n.content == content && n.author == DefaultAuthor
      ensures notes == old(notes) + [n]
      ensures FindNote(notes, n.id) == Some(n)
    {
      n := NewRecord(notes, content);
      AppendKeepsIds(notes, content);
      NewRecordFound(notes, content);
      notes := notes + [n];
    }

    /** The resolver table: dispatches one operation. Only `newNote`
        changes the list; the queries answer from the current list. */
    method Execute(op: Operation) returns (resp: Response)
      requires Valid()
      modifies this
      ensures Valid()
      ensures !op.NewNote? ==> notes == old(notes)
      ensures op.Hello? ==> resp == Text(Greeting)
      ensures op.AllNotes? ==> resp == NoteList(old(notes))
      ensures op.NoteById? ==> resp == MaybeNote(FindNote(old(notes), op.id))
      ensures op.NewNote? ==>
        resp.Created? &&
        resp.note == NewRecord(old(notes), op.content) &&
        notes == old(notes) + [resp.note] &&
        FindNote(notes, resp.note.id) == Some(resp.note)
    {
      match op
      case Hello =>
        resp := Text(Greeting);
      case AllNotes =>
        resp := NoteList(notes);
      case NoteById(id) =>
        resp := MaybeNote(FindNote(notes, id));
      case NewNote(content) =>
        var n := CreateNote(content);
        resp := Created(n);
    }
  }

  /** From the seed list, `newNote("Rented a car")` gives note "5" with the
      fixed author, `note("5")` returns it, and `note("6")` is absent. */
  method SeedThenCreate() returns (created: Note, found: Option<Note>, missing: Option<Note>)
    ensures created == Note("5", "Rented a car", DefaultAuthor)
    ensures found == Some(created)
    ensures missing == None
  {
    var store := new NoteStore();
    created := store.CreateNote("Rented a car");
    assert NatToString(5) == "5";
    var r := store.Execute(NoteById("5"));
    found := r.found;
    r := store.Execute(NoteById("6"));
    missing := r.found;
    assert missing.Some? ==> exists k | 1 <= k <= 5 :: "6" == NatToString(k) by {
      FindNoteFound(store.notes, "6");
    }
    assert NatToString(1) == "1" && NatToString(2) == "2" && NatToString(3) == "3";
    assert NatToString(4) == "4";
  }
}
