/**
 * Properties of the note store across several calls: how ids are assigned,
 * where that assignment breaks down after a delete, what search returns, and
 * a run of calls on a fresh store.
 */
module NoteStoreProperties {
  import opened Wrappers
  import opened Sequences
  import opened Strings
  import opened NoteStore

  /** The note at position `i` has id `i + 1`: what holds while no delete has happened. */
  ghost predicate SequentialIds(s: seq<Note>)
  {
    forall i :: 0 <= i < |s| ==> s[i].id == NatToString(i + 1)
  }

  predicate AllCreates(calls: seq<Call>)
  {
    forall i :: 0 <= i < |calls| ==> calls[i].CreateCall?
  }

  lemma SeedIdsSequential()
    ensures SequentialIds(Seed())
  {
  }

  /** Sequential ids are pairwise distinct. */
  lemma SequentialIdsDistinct(s: seq<Note>)
    requires SequentialIds(s)
    ensures DistinctIds(s)
  {
    forall i, j | 0 <= i < j < |s|
      ensures s[i].id != s[j].id
    {
      if s[i].id == s[j].id {
        NatToStringInjective(i + 1, j + 1);
      }
    }
  }

  /** A run of creates keeps the ids sequential. */
  lemma {:induction false} CreatesKeepIdsSequential(s: seq<Note>, calls: seq<Call>)
    requires SequentialIds(s)
    requires AllCreates(calls)
    ensures SequentialIds(Run(s, calls))
    decreases |calls|
  {
    if calls != [] {
      var next := Apply(s, calls[0]);
      assert SequentialIds(next);
      assert AllCreates(calls[1..]) by {
        forall i | 0 <= i < |calls[1..]|
          ensures calls[1..][i].CreateCall?
        {
          assert calls[1..][i] == calls[i + 1];
        }
      }
      CreatesKeepIdsSequential(next, calls[1..]);
    }
  }

  /** Starting from the seed, any sequence of creates alone keeps ids pairwise distinct. */
  lemma CreatesFromSeedKeepIdsDistinct(calls: seq<Call>)
    requires AllCreates(calls)
    ensures DistinctIds(Run(Seed(), calls))
  {
    SeedIdsSequential();
    CreatesKeepIdsSequential(Seed(), calls);
    SequentialIdsDistinct(Run(Seed(), calls));
  }

  /** Two calls in a row. */
  lemma RunTwo(s: seq<Note>, a: Call, b: Call)
    ensures Run(s, [a, b]) == Apply(Apply(s, a), b)
  {
    assert [a, b][1..] == [b];
    assert [b][1..] == [];
    assert Run(s, [a, b]) == Run(Apply(s, a), [b]);
    assert Run(Apply(s, a), [b]) == Run(Apply(Apply(s, a), b), []);
  }

  /** With sequential ids, deleting the id of position `k` splices out exactly position `k`. */
  lemma RemovedAtSequential(s: seq<Note>, k: nat)
    requires SequentialIds(s)
    requires k < |s|
    ensures Removed(s, s[k].id) == s[..k] + s[k + 1..]
  {
    var id := s[k].id;
    var d := Removed(s, id);
    assert HasId(s, id);
    var k' :| FirstWithId(s, id, k') && d[..k'] == s[..k'] && d[k'..] == s[k' + 1..];
    NatToStringInjective(k' + 1, k + 1);
    assert d == d[..k] + d[k..];
  }

  /** A create on a store of `n` notes whose last note has id `n + 1` repeats that id. */
  lemma CreateRepeatsLastId(d: seq<Note>, title: string, content: string, authorId: Option<string>, now: nat)
    requires |d| > 0 && d[|d| - 1].id == NatToString(|d| + 1)
    ensures var r := Apply(d, CreateCall(title, content, authorId, now));
      |r| == |d| + 1 && r[..|d|] == d && r[|d|].id == d[|d| - 1].id && !DistinctIds(r)
  {
  }

  /**
   * Deleting any note but the last one from a store with sequential ids and
   * then creating a note makes the new note repeat the id of the last one.
   */
  lemma DeleteThenCreateRepeatsId(s: seq<Note>, k: nat, title: string, content: string, authorId: Option<string>, now: nat)
    requires SequentialIds(s)
    requires k + 1 < |s|
    ensures var r := Run(s, [DeleteCall(s[k].id), CreateCall(title, content, authorId, now)]);
      |r| == |s| && r[|s| - 2] == s[|s| - 1] && r[|s| - 1].id == s[|s| - 1].id && !DistinctIds(r)
  {
    var c1, c2 := DeleteCall(s[k].id), CreateCall(title, content, authorId, now);
    RunTwo(s, c1, c2);
    RemovedAtSequential(s, k);
    var d := s[..k] + s[k + 1..];
    assert Run(s, [c1, c2]) == Apply(d, c2);
    assert |d| == |s| - 1 && d[|s| - 2] == s[|s| - 1];
    assert s[|s| - 1].id == NatToString(|s|);
    CreateRepeatsLastId(d, title, content, authorId, now);
  }

  /** From the seed, `delete("1")` followed by a create leaves two notes with id "2". */
  lemma SeedDeleteThenCreateDuplicates(title: string, content: string, authorId: Option<string>, now: nat)
    ensures var r := Run(Seed(), [DeleteCall("1"), CreateCall(title, content, authorId, now)]);
      |r| == 2 && r[0].id == "2" && r[1].id == "2" && !DistinctIds(r)
  {
    SeedIdsSequential();
    DeleteThenCreateRepeatsId(Seed(), 0, title, content, authorId, now);
  }

  /** With distinct ids, `get` after `delete` of the same id finds nothing. */
  lemma GetAfterDeleteNotFound(st: Store, before: seq<Note>, id: string)
    requires DistinctIds(before)
    requires st.notes == Removed(before, id)
    ensures st.Get(id) == None
  {
  }

  /** Deleting an id that two notes share removes only the first of them. */
  lemma DeleteOfSharedIdKeepsSecond(s: seq<Note>)
    requires |s| == 2 && s[0].id == s[1].id
    ensures Removed(s, s[0].id) == [s[1]]
  {
  }

  /** Once an id is duplicated, deleting it leaves a note with that id behind. */
  lemma DeleteOfDuplicateLeavesId(title: string, content: string, authorId: Option<string>, now: nat)
    ensures var r := Run(Seed(), [DeleteCall("1"), CreateCall(title, content, authorId, now), DeleteCall("2")]);
      |r| == 1 && r[0].id == "2"
  {
    var calls := [DeleteCall("1"), CreateCall(title, content, authorId, now)];
    SeedDeleteThenCreateDuplicates(title, content, authorId, now);
    var s := Run(Seed(), calls);
    RunAppend(Seed(), calls, [DeleteCall("2")]);
    assert calls + [DeleteCall("2")] == [DeleteCall("1"), CreateCall(title, content, authorId, now), DeleteCall("2")];
    assert Run(s, [DeleteCall("2")]) == Run(Removed(s, "2"), []);
    DeleteOfSharedIdKeepsSecond(s);
  }

  /** Running two call sequences one after the other is running their concatenation. */
  lemma {:induction false} RunAppend(s: seq<Note>, first: seq<Call>, second: seq<Call>)
    ensures Run(s, first + second) == Run(Run(s, first), second)
    decreases |first|
  {
    if first == [] {
      assert first + second == second;
    } else {
      assert (first + second)[1..] == first[1..] + second;
      RunAppend(Apply(s, first[0]), first[1..], second);
    }
  }

  /** Search ignores the case of the query: queries equal after lower-casing give the same result. */
  lemma SearchIgnoresQueryCase(st: Store, q1: string, q2: string, authorId: Option<string>)
    requires Lower(q1) == Lower(q2)
    ensures st.Search(q1, authorId) == st.Search(q2, authorId)
  {
    var pool := st.List(authorId);
    var p := (n: Note) => Matches(n, q1);
    FilterUnique(pool, p, st.Search(q1, authorId));
    FilterUnique(pool, p, st.Search(q2, authorId));
  }

  /** Every note matches the empty query. */
  lemma EmptyQueryMatchesAll(n: Note)
    ensures Matches(n, "")
  {
  }

  /** An empty query filters nothing: search returns all of `list(authorId)`. */
  lemma SearchEmptyQueryIsList(st: Store, authorId: Option<string>)
    ensures st.Search("", authorId) == st.List(authorId)
  {
    var pool := st.List(authorId);
    var p := (n: Note) => Matches(n, "");
    forall i | 0 <= i < |pool|
      ensures p(pool[i])
    {
      EmptyQueryMatchesAll(pool[i]);
    }
    forall x
      ensures Matches(x, "")
    {
      EmptyQueryMatchesAll(x);
    }
    FilterUnique(pool, p, st.Search("", authorId));
    FilterAll(pool, p);
  }

  /** "WELCOME" matches the title of the first seed note once both are lower-cased. */
  lemma WelcomeNoteMatches()
    ensures Matches(Seed()[0], "WELCOME")
  {
    assert Lower("WELCOME") == "welcome";
    assert Lower("Welcome Note")[..7] == "welcome";
  }

  /** A string with no letter w in either case. */
  predicate LacksW(s: string)
  {
    'w' !in s && 'W' !in s
  }

  lemma LacksWConcat(a: string, b: string)
    requires LacksW(a) && LacksW(b)
    ensures LacksW(a + b)
  {
  }

  lemma StartedContentHeadLacksW()
    ensures LacksW("This server has no authe")
  {
  }

  lemma StartedContentTailLacksW()
    ensures LacksW("ntication - all data is public.")
  {
    assert LacksW("ntication - all ");
    assert LacksW("data is public.");
    LacksWConcat("ntication - all ", "data is public.");
    assert "ntication - all data is public." == "ntication - all " + "data is public.";
  }

  lemma StartedContentSplit()
    ensures "This server has no authentication - all data is public." == "This server has no authe" + "ntication - all data is public."
  {
  }

  /** Neither the title nor the content of the second seed note contains a w. */
  lemma GettingStartedLacksW()
    ensures LacksW(Seed()[1].title) && LacksW(Seed()[1].content)
  {
    StartedContentHeadLacksW();
    StartedContentTailLacksW();
    LacksWConcat("This server has no authe", "ntication - all data is public.");
    StartedContentSplit();
  }

  /** A string lacking the first character of `t` does not include `t`. */
  lemma MissingFirstCharNotIncluded(s: string, t: string)
    requires |t| > 0
    requires forall i :: 0 <= i < |s| ==> s[i] != t[0]
    ensures !Includes(s, t)
  {
    IncludesIffSubstring(s, t);
  }

  /** A string with no w, once lower-cased, does not include "welcome". */
  lemma NoWDoesNotMatchWelcome(s: string)
    requires LacksW(s)
    ensures !Includes(Lower(s), Lower("WELCOME"))
  {
    forall i | 0 <= i < |s|
      ensures Lower(s)[i] != 'w'
    {
      assert s[i] in s;
    }
    MissingFirstCharNotIncluded(Lower(s), Lower("WELCOME"));
  }

  /** "WELCOME" matches neither the title nor the content of the second seed note. */
  lemma GettingStartedDoesNotMatch()
    ensures !Matches(Seed()[1], "WELCOME")
  {
    GettingStartedLacksW();
    NoWDoesNotMatchWelcome(Seed()[1].content);
    NoWDoesNotMatchWelcome(Seed()[1].title);
  }

  /** On a store of two notes where only the first matches, search returns just that one. */
  lemma SearchOfTwoFindsFirst(st: Store, query: string, a: Note, b: Note)
    requires st.notes == [a, b]
    requires Matches(a, query) && !Matches(b, query)
    ensures st.Search(query, None) == [a]
  {
    var p := (n: Note) => Matches(n, query);
    FilterUnique(st.notes, p, st.Search(query, None));
    assert IsSubsequence([a], [a, b]) by {
      assert [a][1..] == [];
      assert [a, b][1..] == [b];
    }
    assert a != b;
    assert [a, b] == [a] + [b];
    FilterUnique(st.notes, p, [a]);
  }

  /** On the seed, searching for "WELCOME" returns exactly the note titled "Welcome Note". */
  lemma SeedSearchWelcome(st: Store)
    requires st.notes == Seed()
    ensures st.Search("WELCOME", None) == [Seed()[0]]
  {
    WelcomeNoteMatches();
    GettingStartedDoesNotMatch();
    SearchOfTwoFindsFirst(st, "WELCOME", Seed()[0], Seed()[1]);
  }

  /**
   * A run of calls on a fresh store: a create gets id "3" and the
   * default author, `delete("1")` succeeds and `get("1")` then finds
   * nothing, and `delete("999")` fails.
   */
  method SeedScenario(now: nat) returns (created: Note, deleted: bool, afterDelete: Option<Note>, missing: bool)
    ensures created.id == "3" && created.title == "A" && created.content == "hello world"
    ensures created.authorId == Some("anonymous") && created.createdAt == now
    ensures deleted && afterDelete == None && !missing
  {
    var st := new Store();
    created := st.Create("A", "hello world", None, now);
    assert created.id == "3";
    deleted := st.Delete("1");
    assert HasId(Seed() + [created], "1") by {
      assert (Seed() + [created])[0].id == "1";
    }
    afterDelete := st.Get("1");
    missing := st.Delete("999");
  }
}
