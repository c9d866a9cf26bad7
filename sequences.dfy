/**
 * Models of the JavaScript array built-ins the note handlers use
 * (`find`, `findIndex`, `filter`), each with the meaning it has in the
 * language, and facts about subsequences that state "order is preserved".
 */
module Sequences {
  import opened Wrappers

  /** `sub` is obtained from `s` by deleting elements and keeping the order of the rest. */
  predicate IsSubsequence<T(==)>(sub: seq<T>, s: seq<T>)
    decreases |s|
  {
    if sub == [] then true
    else if s == [] then false
    else (sub[0] == s[0] && IsSubsequence(sub[1..], s[1..])) || IsSubsequence(sub, s[1..])
  }

  /** `k` is the position of the first element of `s` that satisfies `p`. */
  ghost predicate FirstMatch<T>(s: seq<T>, p: T -> bool, k: int)
  {
    0 <= k < |s| && p(s[k]) && forall j :: 0 <= j < k ==> !p(s[j])
  }

  /** `Array.prototype.find`: the first element satisfying `p`, or `undefined`. */
  function Find<T>(s: seq<T>, p: T -> bool): (r: Option<T>)
    ensures r.None? <==> forall i :: 0 <= i < |s| ==> !p(s[i])
    ensures r.Some? ==> exists k :: FirstMatch(s, p, k) && s[k] == r.value
  {
    if s == [] then None
    else if p(s[0]) then (assert FirstMatch(s, p, 0); Some(s[0]))
    else
      var r := Find(s[1..], p);
      assert forall k :: FirstMatch(s[1..], p, k) ==> FirstMatch(s, p, k + 1);
      assert forall i :: 1 <= i < |s| ==> s[i] == s[1..][i - 1];
      r
  }

  /** `Array.prototype.findIndex`: the index of the first element satisfying `p`, or -1. */
  function FindIndex<T>(s: seq<T>, p: T -> bool): (r: int)
    ensures -1 <= r < |s|
    ensures r == -1 <==> forall i :: 0 <= i < |s| ==> !p(s[i])
    ensures r != -1 ==> FirstMatch(s, p, r)
  {
    if s == [] then -1
    else if p(s[0]) then 0
    else
      var r := FindIndex(s[1..], p);
      if r == -1 then
        assert forall i :: 1 <= i < |s| ==> s[i] == s[1..][i - 1];
        -1
      else r + 1
  }

  /**
   * `Array.prototype.filter`: the elements satisfying `p`, in their original
   * order, each with its original multiplicity.
   */
  function Filter<T(==,!new)>(s: seq<T>, p: T -> bool): (r: seq<T>)
    ensures IsSubsequence(r, s)
    ensures forall i :: 0 <= i < |r| ==> p(r[i])
    ensures forall x :: multiset(r)[x] == if p(x) then multiset(s)[x] else 0
  {
    if s == [] then []
    else
      var rest := Filter(s[1..], p);
      FilterMultisetStep(s, p, rest);
      assert s == [s[0]] + s[1..];
      if p(s[0]) then
        assert ([s[0]] + rest)[1..] == rest;
        [s[0]] + rest
      else
        assert [] + rest == rest;
        rest
  }

  /** One step of `Filter`: the multiplicities carry over from the tail to the whole sequence. */
  lemma FilterMultisetStep<T(!new)>(s: seq<T>, p: T -> bool, rest: seq<T>)
    requires s != []
    requires forall x :: multiset(rest)[x] == if p(x) then multiset(s[1..])[x] else 0
    ensures forall x :: multiset((if p(s[0]) then [s[0]] else []) + rest)[x] == if p(x) then multiset(s)[x] else 0
  {
    assert s == [s[0]] + s[1..];
    forall x
      ensures multiset((if p(s[0]) then [s[0]] else []) + rest)[x] == if p(x) then multiset(s)[x] else 0
    {
      assert multiset(s)[x] == multiset([s[0]])[x] + multiset(s[1..])[x];
    }
  }

  /** When every element satisfies `p`, filtering keeps the whole sequence. */
  lemma {:induction false} FilterAll<T(!new)>(s: seq<T>, p: T -> bool)
    requires forall i :: 0 <= i < |s| ==> p(s[i])
    ensures Filter(s, p) == s
  {
    if s != [] {
      assert forall i :: 0 <= i < |s[1..]| ==> s[1..][i] == s[i + 1];
      FilterAll(s[1..], p);
      assert s == [s[0]] + s[1..];
    }
  }

  /** `find` and `findIndex` agree: `find` yields the element at `findIndex`. */
  lemma FindAgreesWithFindIndex<T>(s: seq<T>, p: T -> bool)
    ensures Find(s, p) == if FindIndex(s, p) == -1 then None else Some(s[FindIndex(s, p)])
  {
  }

  lemma {:induction false} SubsequenceReflexive<T>(s: seq<T>)
    ensures IsSubsequence(s, s)
  {
    if s != [] {
      SubsequenceReflexive(s[1..]);
    }
  }

  /** Removing one element (as `splice(k, 1)` does) leaves a subsequence. */
  lemma {:induction false} SpliceIsSubsequence<T>(s: seq<T>, k: nat)
    requires k < |s|
    ensures IsSubsequence(s[..k] + s[k + 1..], s)
  {
    var r := s[..k] + s[k + 1..];
    if k == 0 {
      assert r == s[1..];
      SubsequenceReflexive(s[1..]);
    } else {
      SpliceIsSubsequence(s[1..], k - 1);
      assert r[0] == s[0];
      assert r[1..] == s[1..][..k - 1] + s[1..][k..];
    }
  }

  /** A subsequence never holds more copies of anything than the sequence it comes from. */
  lemma {:induction false} SubsequenceMultiset<T>(sub: seq<T>, s: seq<T>)
    requires IsSubsequence(sub, s)
    ensures multiset(sub) <= multiset(s)
    decreases |s|
  {
    if sub != [] {
      assert s == [s[0]] + s[1..];
      if sub[0] == s[0] && IsSubsequence(sub[1..], s[1..]) {
        assert sub == [sub[0]] + sub[1..];
        SubsequenceMultiset(sub[1..], s[1..]);
      } else {
        SubsequenceMultiset(sub, s[1..]);
      }
    }
  }

  /**
   * The contract of `Filter` determines its result: any subsequence of `s`
   * holding exactly the `p`-elements of `s`, with their multiplicities, is
   * `Filter(s, p)`.
   */
  lemma {:induction false} FilterUnique<T(!new)>(s: seq<T>, p: T -> bool, r: seq<T>)
    requires IsSubsequence(r, s)
    requires forall x :: multiset(r)[x] == if p(x) then multiset(s)[x] else 0
    ensures r == Filter(s, p)
    decreases |s|
  {
    if s == [] {
      assert r == [];
    } else {
      var a := s[0];
      assert s == [a] + s[1..];
      if r != [] && r[0] == a && IsSubsequence(r[1..], s[1..]) {
        assert r == [a] + r[1..];
        assert p(a) by {
          assert multiset(r)[a] >= 1;
        }
        forall x
          ensures multiset(r[1..])[x] == if p(x) then multiset(s[1..])[x] else 0
        {
          assert multiset(r)[x] == multiset(r[1..])[x] + (if x == a then 1 else 0);
          assert multiset(s)[x] == multiset(s[1..])[x] + (if x == a then 1 else 0);
        }
        FilterUnique(s[1..], p, r[1..]);
      } else {
        assert IsSubsequence(r, s[1..]);
        SubsequenceMultiset(r, s[1..]);
        assert !p(a) by {
          assert multiset(s)[a] == multiset(s[1..])[a] + 1;
        }
        forall x
          ensures multiset(r)[x] == if p(x) then multiset(s[1..])[x] else 0
        {
          assert multiset(s)[x] == multiset(s[1..])[x] + (if x == a then 1 else 0);
        }
        FilterUnique(s[1..], p, r);
      }
    }
  }
}
