/**
 * The in-memory note store of the note resource: the seeded list of notes
 * and its five handlers `get`, `list`, `create`, `delete` and `search`.
 * The list is the field `notes` of a `Store` object; `Create` and `Delete`
 * change it in place, the queries only read it.
 */
module NoteStore {
  import opened Wrappers
  import opened Sequences
  import opened Strings

  /** A note; `createdAt` is a timestamp in milliseconds since the epoch. */
  datatype Note = Note(
    id: string,
    title: string,
    content: string,
    authorId: Option<string>,
    createdAt: nat)

  /** The two notes the store starts with (2024-01-01 and 2024-01-02, UTC midnight). */
  function Seed(): seq<Note>
  {
    [ Note("1", "Welcome Note", "This is a public note that anyone can access.",
           Some("public"), 1704067200000),
      Note("2", "Getting Started", "This server has no authentication - all data is public.",
           Some("public"), 1704153600000) ]
  }

  /** The JavaScript truthiness of an optional string: present and non-empty. */
  predicate Truthy(s: Option<string>)
  {
    s.Some? && s.value != ""
  }

  /** JavaScript `s || fallback` on a string. */
  function OrElse(s: string, fallback: string): string
  {
    if s != "" then s else fallback
  }

  function IdIs(id: string): Note -> bool
  {
    (n: Note) => n.id == id
  }

  ghost predicate HasId(s: seq<Note>, id: string)
  {
    exists i :: 0 <= i < |s| && s[i].id == id
  }

  /** Position `k` holds the first note of `s` whose id is `id`. */
  ghost predicate FirstWithId(s: seq<Note>, id: string, k: int)
  {
    0 <= k < |s| && s[k].id == id && forall j :: 0 <= j < k ==> s[j].id != id
  }

  ghost predicate DistinctIds(s: seq<Note>)
  {
    forall i, j :: 0 <= i < j < |s| ==> s[i].id != s[j].id
  }

  /** The note `create` builds for a store that holds `count` notes. */
  function NewNote(count: nat, title: string, content: string, authorId: Option<string>, now: nat): (n: Note)
    ensures n.id == NatToString(count + 1)
    ensures n.title != ""
    ensures title != "" ==> n.title == title
    ensures title == "" ==> n.title == "Untitled"
    ensures n.content == content
    ensures Truthy(n.authorId)
    ensures Truthy(authorId) ==> n.authorId == authorId
    ensures !Truthy(authorId) ==> n.authorId == Some("anonymous")
    ensures n.createdAt == now
  {
    Note(NatToString(count + 1),
         OrElse(title, "Untitled"),
         OrElse(content, ""),
         Some(if Truthy(authorId) then authorId.value else "anonymous"),
         now)
  }

  /** The store after `delete(id)`: the first note with that id spliced out, if there is one. */
  function Removed(s: seq<Note>, id: string): (r: seq<Note>)
    ensures !HasId(s, id) ==> r == s
    ensures HasId(s, id) ==> |r| == |s| - 1 && exists k :: FirstWithId(s, id, k) && r[..k] == s[..k] && r[k..] == s[k + 1..]
    ensures IsSubsequence(r, s)
  {
    var index := FindIndex(s, IdIs(id));
    if index == -1 then
      SubsequenceReflexive(s);
      s
    else
      SpliceIsSubsequence(s, index);
      var r := s[..index] + s[index + 1..];
      assert FirstWithId(s, id, index) && r[..index] == s[..index] && r[index..] == s[index + 1..];
      r
  }

  /** A request to one of the two handlers that change the store. */
  datatype Call =
    | CreateCall(title: string, content: string, authorId: Option<string>, now: nat)
    | DeleteCall(id: string)

  /** The store after one call. */
  function Apply(s: seq<Note>, c: Call): seq<Note>
  {
    match c
    case CreateCall(title, content, authorId, now) => s + [NewNote(|s|, title, content, authorId, now)]
    case DeleteCall(id) => Removed(s, id)
  }

  /** The store after a sequence of calls, in order. */
  function Run(s: seq<Note>, calls: seq<Call>): seq<Note>
    decreases |calls|
  {
    if calls == [] then s else Run(Apply(s, calls[0]), calls[1..])
  }

  /** The note text `search` matches: the query occurs, ignoring case, in the content or the title. */
  predicate Matches(n: Note, query: string)
  {
    Includes(Lower(n.content), Lower(query)) || Includes(Lower(n.title), Lower(query))
  }

  class Store {
    var notes: seq<Note>

    constructor ()
      ensures notes == Seed()
    {
      notes := Seed();
    }

    /** `get`: the first note with the given id, if any. */
    function Get(id: string): (r: Option<Note>)
      reads this
      ensures r.None? <==> !HasId(notes, id)
      ensures r.Some? ==> exists k :: FirstWithId(notes, id, k) && r.value == notes[k]
    {
      Find(notes, IdIs(id))
    }

    /**
     * `list`: every note when no author (or an empty one) is given;
     * otherwise exactly the notes of that author, in store order.
     */
    function List(authorId: Option<string>): (r: seq<Note>)
      reads this
      ensures !Truthy(authorId) ==> r == notes
      ensures IsSubsequence(r, notes)
      ensures Truthy(authorId) ==>
        forall x :: multiset(r)[x] == if x.authorId == authorId then multiset(notes)[x] else 0
    {
      if Truthy(authorId) then
        Filter(notes, (n: Note) => n.authorId == authorId)
      else
        SubsequenceReflexive(notes);
        notes
    }

    /**
     * `search`: among the notes `list(authorId)` gives, exactly those whose
     * content or title contains the query ignoring case, in store order.
     */
    function Search(query: string, authorId: Option<string>): (r: seq<Note>)
      reads this
      ensures IsSubsequence(r, List(authorId))
      ensures forall x :: multiset(r)[x] == if Matches(x, query) then multiset(List(authorId))[x] else 0
    {
      Filter(List(authorId), (n: Note) => Matches(n, query))
    }

    /** `create`: appends a note numbered one past the current count and returns it. */
    method Create(title: string, content: string, authorId: Option<string>, now: nat) returns (n: Note)
      modifies this
      ensures n == NewNote(|old(notes)|, title, content, authorId, now)
      ensures notes == old(notes) + [n]
      ensures notes == Apply(old(notes), CreateCall(title, content, authorId, now))
    {
      n := NewNote(|notes|, title, content, authorId, now);
      notes := notes + [n];
    }

    /** `delete`: splices out the first note with the given id and reports whether there was one. */
    method Delete(id: string) returns (success: bool)
      modifies this
      ensures success <==> HasId(old(notes), id)
      ensures notes == Removed(old(notes), id)
      ensures notes == Apply(old(notes), DeleteCall(id))
    {
      var index := FindIndex(notes, IdIs(id));
      if index == -1 {
        success := false;
        return;
      }
      notes := notes[..index] + notes[index + 1..];
      success := true;
    }
  }
}
