# Note store

A Dafny model of the in-memory note store behind the `note` resource of a
small resource server with no authentication. The store is one ordered list
of notes, seeded with two notes. Five handlers work on it:

- `get` returns the first note with a given id.
- `list` returns all notes, or those of one author.
- `create` builds a note with defaulted fields and appends it.
- `delete` splices out the first note with a given id.
- `search` matches a query against title and content, ignoring case.

Layout:

- `wrappers.dfy` (module `Wrappers`): `Option`, standing for a JavaScript
  value that may be `undefined`.
- `sequences.dfy` (module `Sequences`): models of the array built-ins the
  handlers call (`find`, `findIndex`, `filter`). It also defines
  `IsSubsequence`, used to state "order is preserved". `FilterUnique` shows
  that `Filter`'s contract determines its result, so every contract stated
  in those terms is exact.
- `strings.dfy` (module `Strings`): `toLowerCase` on ASCII letters,
  `includes`, and the decimal `toString` of a number. Each has its partner:
  `IsSubstring` for `includes`, `ParseDecimal` for `toString`.
- `note_store.dfy` (module `NoteStore`): the `Note` datatype, the seed, and
  class `Store`. The class holds the list as the field `notes: seq<Note>`.
  `Create` and `Delete` are methods that change `notes` in place. `Get`,
  `List` and `Search` are functions that only read it. `Call`, `Apply` and
  `Run` replay a sequence of creates and deletes on a plain list. The
  methods are proved to agree with `Apply`.
- `note_store_properties.dfy` (module `NoteStoreProperties`): lemmas across
  several calls. They cover id assignment, the duplicate ids that appear
  after a delete, what `get` finds after a delete, what search returns on
  the seed, and a run of create, delete and get on a fresh store.

JavaScript truthiness is explicit. `Truthy(authorId)` means present and
non-empty, which is how `if (authorId)` and `data.authorId || "anonymous"`
behave. `OrElse(s, d)` is `s || d` on a string.

Id assignment has a defect, and the model keeps it as written. A new note
gets the id `(notes.length + 1).toString()`
(src/resources/handlers/note.ts:60). This keeps ids distinct only while
nothing is deleted:

- `CreatesFromSeedKeepIdsDistinct`: from the seed, any run of creates keeps
  ids distinct.
- `DeleteThenCreateRepeatsId`: while ids are still their positions + 1, a
  delete of any note but the last, followed by a create, repeats the last
  note's id.
- `SeedDeleteThenCreateDuplicates`: from the seed, `delete("1")` then a
  create leaves two notes with id `"2"`.

Two consequences of the code for `get`:

- `get` returns the first note with the id in store order (`notes.find`,
  line 33), not the latest one. `Store.Get` states this.
- `get` after `delete` of the same id finds nothing only while ids are
  distinct (`GetAfterDeleteNotFound`). After a duplicate it can still find
  one: from the seed, after `delete("1")` and a create, deleting `"2"` still
  leaves a note with id `"2"` (`DeleteOfDuplicateLeavesId`).

## Model

| member | source | states |
|---|---|---|
| `Sequences.Find` | src/resources/handlers/note.ts:33 | `find` returns nothing exactly when no element satisfies the predicate; otherwise it returns the element at the first position that does |
| `Sequences.FindIndex` | src/resources/handlers/note.ts:76 | `findIndex` is -1 exactly when no element satisfies the predicate; otherwise it is the first position that does |
| `Sequences.FindAgreesWithFindIndex` | src/resources/handlers/note.ts:33 | `find` returns the element at the index `findIndex` gives, and nothing when that index is -1 |
| `Sequences.Filter` | src/resources/handlers/note.ts:44 | `filter` gives a subsequence of its input (order kept). Every element it keeps satisfies the predicate. Each element that satisfies it keeps its full multiplicity, and every other element is dropped |
| `Sequences.FilterUnique` | src/resources/handlers/note.ts:96-102 | any subsequence with exactly those multiplicities equals `Filter`, so `Filter`'s contract fixes its result |
| `Sequences.FilterAll` | src/resources/handlers/note.ts:99-102 | when every element satisfies the predicate, `filter` returns the whole input |
| `Sequences.SpliceIsSubsequence` | src/resources/handlers/note.ts:81 | `splice(k, 1)` leaves a subsequence of the original, so the other notes keep their relative order |
| `Strings.Lower` | src/resources/handlers/note.ts:100-101 | `toLowerCase` keeps the length and leaves no ASCII capital. Each character is unchanged or is the capital it replaces plus 32 |
| `Strings.IncludesIffSubstring` | src/resources/handlers/note.ts:100-101 | `includes(s, t)` holds exactly when `t` occurs in `s` at some offset; in particular the empty query is included everywhere |
| `Strings.NatToString` | src/resources/handlers/note.ts:60 | `toString` of a number gives a non-empty string of decimal digits with no leading zero |
| `Strings.ParseNatToString` | src/resources/handlers/note.ts:60 | reading back the decimal form of `n` gives `n` |
| `Strings.NatToStringInjective` | src/resources/handlers/note.ts:60 | distinct numbers get distinct id strings |
| `NoteStore.NewNote` | src/resources/handlers/note.ts:59-65 | the new note's id is the decimal of count + 1. Its title is never empty: the input title, or "Untitled" when that is empty. Its content is the input content verbatim, since defaulting an empty content to the empty string changes nothing. Its author is never empty: the input author when present and non-empty, else "anonymous". Its timestamp is the given clock value |
| `NoteStore.Removed` | src/resources/handlers/note.ts:76-81 | with no note of that id the list is unchanged. Otherwise it is one shorter, and the first note with that id is cut out with everything before and after it kept in place. The result is a subsequence of the input |
| `NoteStore.Store.constructor` | src/resources/handlers/note.ts:6-21 | a new store holds exactly the two seed notes |
| `NoteStore.Store.Get` | src/resources/handlers/note.ts:31-34 | returns nothing exactly when no note has the id; otherwise the first note in store order with that id. The store is only read |
| `NoteStore.Store.List` | src/resources/handlers/note.ts:41-47 | with no author or an empty one, the whole store. Otherwise exactly the notes with that author, each as often as in the store, in store order. The store is only read |
| `NoteStore.Store.Search` | src/resources/handlers/note.ts:91-103 | a subsequence of `List(authorId)` holding exactly the notes whose lower-cased content or title includes the lower-cased query, with their multiplicities |
| `NoteStore.Store.Create` | src/resources/handlers/note.ts:56-69 | returns `NewNote` for the old length and appends it. Every earlier note is unchanged and keeps its position. The new state is `Apply` of the create call |
| `NoteStore.Store.Delete` | src/resources/handlers/note.ts:73-83 | `success` is true exactly when some note had the id. The new state is `Removed(old notes, id)`: unchanged when `success` is false, otherwise one note shorter |
| `NoteStoreProperties.SeedIdsSequential` | src/resources/handlers/note.ts:6-21 | the seed notes carry ids "1" and "2", the ids create would have given them |
| `NoteStoreProperties.SequentialIdsDistinct` | src/resources/handlers/note.ts:60 | a list whose note at position i has id i + 1 has pairwise distinct ids |
| `NoteStoreProperties.CreatesKeepIdsSequential` | src/resources/handlers/note.ts:59-67 | any run of creates keeps every note's id equal to its position + 1 |
| `NoteStoreProperties.CreatesFromSeedKeepIdsDistinct` | src/resources/handlers/note.ts:6-21 | starting from the seed, any run of creates alone keeps ids pairwise distinct |
| `NoteStoreProperties.RemovedAtSequential` | src/resources/handlers/note.ts:76-81 | while ids are sequential, deleting the id at position k removes exactly position k |
| `NoteStoreProperties.CreateRepeatsLastId` | src/resources/handlers/note.ts:60 | on a list of n notes whose last id is n + 1, a create reuses that id and breaks distinctness |
| `NoteStoreProperties.DeleteThenCreateRepeatsId` | src/resources/handlers/note.ts:60-81 | deleting any note but the last from a list with sequential ids, then creating, gives the new note the last note's id. Ids are no longer distinct |
| `NoteStoreProperties.SeedDeleteThenCreateDuplicates` | src/resources/handlers/note.ts:6-21 | from the seed, `delete("1")` followed by any create leaves two notes, both with id "2" |
| `NoteStoreProperties.GetAfterDeleteNotFound` | src/resources/handlers/note.ts:33 | while ids are distinct, a `get` after `delete` of the same id finds nothing |
| `NoteStoreProperties.DeleteOfSharedIdKeepsSecond` | src/resources/handlers/note.ts:76-81 | a delete on two notes sharing an id removes only the first |
| `NoteStoreProperties.DeleteOfDuplicateLeavesId` | src/resources/handlers/note.ts:81 | from the seed, `delete("1")`, a create, then `delete("2")` still leaves a note with id "2" |
| `NoteStoreProperties.SearchIgnoresQueryCase` | src/resources/handlers/note.ts:99-102 | two queries that are equal after lower-casing give the same search result |
| `NoteStoreProperties.EmptyQueryMatchesAll` | src/resources/handlers/note.ts:100-101 | every note matches the empty query |
| `NoteStoreProperties.SearchEmptyQueryIsList` | src/resources/handlers/note.ts:93-102 | an empty query returns exactly `list(authorId)` |
| `NoteStoreProperties.WelcomeNoteMatches` | src/resources/handlers/note.ts:9 | the query "WELCOME" matches the seed note titled "Welcome Note" |
| `NoteStoreProperties.GettingStartedDoesNotMatch` | src/resources/handlers/note.ts:16-17 | the query "WELCOME" matches neither the title "Getting Started" nor the content of the second seed note |
| `NoteStoreProperties.SearchOfTwoFindsFirst` | src/resources/handlers/note.ts:99-102 | on a store of two notes where only the first matches the query, search with no author returns exactly that first note |
| `NoteStoreProperties.SeedSearchWelcome` | src/resources/handlers/note.ts:91-103 | on the seed, `search("WELCOME")` returns exactly one note, the one titled "Welcome Note" |
| `NoteStoreProperties.SeedScenario` | src/resources/handlers/note.ts:56-83 | on a fresh store, creating title "A" and content "hello world" gives id "3" with author "anonymous". Then `delete("1")` succeeds, `get("1")` finds nothing, and `delete("999")` fails |

## Left out

- Logging (`console.log` in every handler) is output only and is not modelled.
- The resource framework (`createResource`, the URI template, registration of the handlers) is a library wrapper whose source is not part of this model.
- The zod input schemas and `NoteSchema` validation are not modelled: inputs are taken as well-typed. `src/resources/schemas/Note.ts:3-9` gives only the fields of `Note`.
- The handlers are `async` but contain no suspension point, so each is a synchronous method or function. Concurrent callers and their races are not modelled.
- `new Date()` at line 64 reads the clock. `Create` takes the timestamp as the parameter `now`, a number of milliseconds since the epoch. The seed dates are written as such numbers.
- `Strings.Lower`: only ASCII capitals are lower-cased. JavaScript's full Unicode `toLowerCase` (multi-character and locale-independent mappings) is not modelled.
- `get`, `list` and `search` hand back the store's own note objects (and `list` with no filter hands back the store's own array). `create` returns the very object it pushes (src/resources/handlers/note.ts:67-68). A caller could mutate the store through any of them. The model returns values, so this aliasing is not captured.
