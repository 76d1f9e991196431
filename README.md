# Travel notes: the in-memory note store and its resolvers

This project models the core of the `notedly` GraphQL server's entry point,
`src/index.js`. The core is the module-level `notes` list and the resolver
table over it. The list is seeded with four notes. The resolvers are three
queries and one mutation:

- `hello` answers a fixed greeting.
- `notes` answers the whole list.
- `note(id)` answers the first note whose id equals `id`, or nothing.
- `newNote(content)` builds a note whose id is `String(notes.length + 1)`
  and whose author is always `Randy Neely`. It pushes the note onto the list
  and returns it.

The central fact is the id invariant. The note at 0-based position `i` has
id `String(i + 1)`. The seed list has it, and `newNote` keeps it. From it
follow three things: ids are pairwise distinct, `note(String(k))` is the k-th
note, and a created note is found again by its id.

Files:

- `wrappers.dfy`: `Option`, standing for the `undefined`-or-value that `find` gives in src/index.js.
- `decimal.dfy`: `String(n)` for natural numbers (`NatToString`). It comes
  with a parser, `ParseDecimal`, proved to be its inverse. Injectivity follows.
- `notes.dfy`: the `Note` record, the seed list, `find`, the invariant and
  the lemmas about them.
- `resolvers.dfy`: the class `NoteStore`, which holds the mutable list. It
  has `CreateNote` for `newNote` and `Execute`, the resolver table that
  dispatches one operation.

The schema marks two arguments as required: `id: ID!` on `note` and
`content: String!` on `newNote`. Here they are plain, non-optional
parameters, so no call can leave them out.

`src/index.js` imports `./db` and `./models` and connects to a database,
but none of its resolvers uses them. The resolvers work on an ordered
in-memory array and derive each id from its length. The model follows these
resolvers.

## Model

| member | source | states |
|---|---|---|
| `Decimal.NatToString` | src/index.js:105 | `String(n)` of a natural is a non-empty string of decimal digits, with no leading zero unless n is 0 |
| `Decimal.ParseNatToString` | src/index.js:105 | reading the decimal string of n back gives n, so the id encodes the list position exactly |
| `Decimal.CanonicalSpelling` | src/index.js:105 | a digits-only string without a leading zero is exactly `String(n)` of the number it reads as, so the clauses on a note id fix its spelling |
| `Decimal.NatToStringInjective` | src/index.js:105 | two lengths give the same id string exactly when they are equal |
| `Notes.FindNote` | src/index.js:98-100 | `find` gives absent exactly when no note has the id; otherwise it gives a note with that id, at a position before which no note has it |
| `Notes.NewRecord` | src/index.js:104-108 | the new record keeps the given content and has the fixed author `Randy Neely`; its id is the one canonical decimal spelling of the old length plus 1 (digits only, no leading zero, reads back as that number) |
| `Notes.SeedIdsArePositions` | src/index.js:50-68 | the four seed notes have ids "1" to "4" in order, so the invariant holds at start |
| `Notes.IdsAreUnique` | src/index.js:105 | while the invariant holds, no two notes share an id |
| `Notes.FindNoteFirst` | src/index.js:98-100 | when position i is the first that carries the id, `find` returns the note at i |
| `Notes.FindNoteAtPosition` | src/index.js:99-105 | while the invariant holds, `note(String(k))` returns the k-th note for every k from 1 to the list length |
| `Notes.FindNoteFound` | src/index.js:98-100 | while the invariant holds, `note(id)` finds a note exactly when id is String(k) for some k from 1 to the list length |
| `Notes.FindNoteAppend` | src/index.js:99-109 | appending a note changes no lookup that already succeeded; the new note is found only for an id no earlier note has |
| `Notes.AppendKeepsIds` | src/index.js:105-109 | appending the record `newNote` builds keeps the invariant |
| `Notes.NewRecordFound` | src/index.js:99-110 | after the append, looking up the new record's id returns that record |
| `Resolvers.NoteStore.constructor` | src/index.js:50-68 | the list starts as the four seed notes and satisfies the invariant |
| `Resolvers.NoteStore.CreateNote` | src/index.js:103-111 | `newNote` grows the list by exactly the returned note at the end and changes no earlier entry; the note has id String(old length + 1), the given content and the fixed author; the invariant is kept; `note` on the new id returns it |
| `Resolvers.NoteStore.Execute` | src/index.js:94-113 | `hello` answers exactly "Hello Travellers!", `notes` answers the current list, `note(id)` answers the `find` result, and none of the three changes the list; `newNote` appends the record it returns, and that record is found by its id |
| `Resolvers.SeedThenCreate` | src/index.js:103-110 | from the seed list, `newNote("Rented a car")` returns note "5" with the fixed author, `note("5")` returns that note and `note("6")` is absent |

## Left out

- The Express application, `app.listen`, the port fallback `process.env.PORT || 4000` and the console message (src/index.js:43, 118, 140-144): server bootstrap and I/O.
- `require('dotenv').config()` and `DB_HOST` (src/index.js:26, 48): environment configuration.
- `db.connect(DB_HOST)` and the `./db` and `./models` modules (src/index.js:31, 37, 123): a MongoDB connection. `./db` and `./models` are not part of this model, and the resolvers do not use them.
- Schema parsing with `gql`, `new ApolloServer` and `applyMiddleware` (src/index.js:73-89, 128, 134): library calls. Only the required-argument facts are kept, as non-optional parameters. Apollo's rejection of a request that lacks them happens before any resolver runs and is not modelled. Neither is its coercion of `ID` values to strings.
- Concurrency: Node runs resolvers one at a time and the code has no coordination, so calls are modelled as sequential.
- Aliasing: `notes` returns the live array, which a JavaScript caller could mutate. The model returns the list as a value.
- `Decimal.NatToString`: models `String(n)` only on natural numbers. The JavaScript resolvers in src/index.js apply it only to `notes.length + 1`, which is always a positive integer.
- String representation: JavaScript strings are sequences of UTF-16 code units, while the model's `string` is a sequence of Unicode scalar values. A `content` holding a lone surrogate cannot be represented. On well-formed strings `===` and the model's equality agree.
- Array length limit: a JavaScript array holds at most 2^32 - 1 elements, and `notes.push` (src/index.js:109) throws a `RangeError` beyond that. The model's list grows without bound, so the invariant is also proved for lengths JavaScript never reaches, and the failing push is not modelled.
