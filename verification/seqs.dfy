/**
 * Sequence vocabulary shared by the keyword extractor and the scorer: duplicate-free
 * sequences, first-occurrence de-duplication (Python's seen-set loop and
 * `dict.fromkeys`), membership filtering (a list comprehension with an `in` test)
 * and order-preserving subsequences.
 */
module Seqs {

  /** No element occurs twice. */
  predicate NoDup<T(==,!new)>(s: seq<T>) {
    forall i, j :: 0 <= i < j < |s| ==> s[i] != s[j]
  }

  /** The set of elements of a sequence (Python's `set(list)`). */
  function Elems<T>(s: seq<T>): set<T> {
    set x | x in s
  }

  /**
   * Two repeat-free sequences told apart by one element (every entry of `a` holds `x`,
   * no entry of `b` does) concatenate to a repeat-free sequence.
   */
  lemma NoDupConcat<T(!new)>(a: seq<seq<T>>, b: seq<seq<T>>, x: T)
    requires NoDup(a) && NoDup(b)
    requires forall u :: u in a ==> x in u
    requires forall v :: v in b ==> x !in v
    ensures NoDup(a + b)
  {
    var r := a + b;
    forall i, j | 0 <= i < j < |r| ensures r[i] != r[j] {
      if j < |a| {
        assert r[i] == a[i] && r[j] == a[j];
      } else if i >= |a| {
        assert r[i] == b[i - |a|] && r[j] == b[j - |a|];
      } else {
        assert r[i] in a && r[j] in b;
      }
    }
  }

  /** `a` is `b` with some elements left out, the rest kept in order. */
  predicate IsSubsequence<T(==,!new)>(a: seq<T>, b: seq<T>)
    decreases |b|
  {
    if a == [] then true
    else if b == [] then false
    else if a[|a| - 1] == b[|b| - 1] then IsSubsequence(a[..|a| - 1], b[..|b| - 1])
    else IsSubsequence(a, b[..|b| - 1])
  }

  /** Position of the first occurrence of `x` in `s`. */
  function FirstIndex<T(==,!new)>(s: seq<T>, x: T): (i: nat)
    requires x in s
    ensures i < |s| && s[i] == x
    ensures x !in s[..i]
  {
    if s[0] == x then 0 else 1 + FirstIndex(s[1..], x)
  }

  /**
   * The elements of `s`, each kept at its first occurrence: the result of scanning
   * `s` left to right with a seen-set and appending every element not seen before.
   */
  function Dedup<T(==,!new)>(s: seq<T>): (r: seq<T>)
    ensures NoDup(r)
    ensures forall x :: x in r <==> x in s
    ensures |r| <= |s|
  {
    if s == [] then []
    else
      var d := Dedup(s[..|s| - 1]);
      var x := s[|s| - 1];
      assert s == s[..|s| - 1] + [x];
      if x in d then d else d + [x]
  }

  /**
   * The elements `x` of `s` with `(x in pool) == inPool`, in order: a list
   * comprehension `[x for x in s if x in pool]` (or `not in pool`).
   */
  function FilterIn<T(==,!new)>(s: seq<T>, pool: set<T>, inPool: bool): (r: seq<T>)
    ensures forall x :: x in r <==> x in s && (x in pool) == inPool
    ensures IsSubsequence(r, s)
    ensures NoDup(s) ==> NoDup(r)
  {
    if s == [] then []
    else
      var f := FilterIn(s[..|s| - 1], pool, inPool);
      var x := s[|s| - 1];
      assert s == s[..|s| - 1] + [x];
      if (x in pool) == inPool then
        assert (f + [x])[..|f + [x]| - 1] == f;
        f + [x]
      else
        SubsequenceOfLonger(f, s[..|s| - 1], x);
        f
  }

  /**
   * One step of the seen-set loop: extending the scanned prefix by one element either
   * appends that element (it passes the filter and was not kept before) or keeps the
   * result as it was.
   */
  lemma DedupFilterStep<T(!new)>(s: seq<T>, i: nat, pool: set<T>, inPool: bool)
    requires i < |s|
    ensures Dedup(FilterIn(s[..i + 1], pool, inPool)) ==
              var d := Dedup(FilterIn(s[..i], pool, inPool));
              if (s[i] in pool) == inPool && s[i] !in d then d + [s[i]] else d
  {
    assert s[..i + 1][..i] == s[..i];
  }

  lemma {:induction false} SubsequenceOfLonger<T(!new)>(a: seq<T>, b: seq<T>, x: T)
    requires IsSubsequence(a, b)
    ensures IsSubsequence(a, b + [x])
    decreases |b|, 1
  {
    if a != [] {
      var b' := b + [x];
      assert b'[..|b'| - 1] == b;
      if a[|a| - 1] == x {
        // a matched inside b; since a is a subsequence of b, it is one of b + [x] too
        SubsequenceDropLast(a, b);
        assert IsSubsequence(a[..|a| - 1], b);
      }
    }
  }

  lemma {:induction false} SubsequenceDropLast<T(!new)>(a: seq<T>, b: seq<T>)
    requires a != [] && IsSubsequence(a, b)
    ensures IsSubsequence(a[..|a| - 1], b)
    decreases |b|, 0
  {
    var a' := a[..|a| - 1];
    if a[|a| - 1] == b[|b| - 1] {
      // IsSubsequence(a', b[..|b| - 1]) holds, so a' embeds in b
      SubsequenceOfLonger(a', b[..|b| - 1], b[|b| - 1]);
      assert b[..|b| - 1] + [b[|b| - 1]] == b;
    } else {
      SubsequenceDropLast(a, b[..|b| - 1]);
      SubsequenceOfLonger(a', b[..|b| - 1], b[|b| - 1]);
      assert b[..|b| - 1] + [b[|b| - 1]] == b;
    }
  }

  /** Filtering for membership and for non-membership splits a sequence in two. */
  lemma {:induction false} FilterInSplit<T(!new)>(s: seq<T>, pool: set<T>)
    ensures |FilterIn(s, pool, true)| + |FilterIn(s, pool, false)| == |s|
  {
    if s != [] {
      FilterInSplit(s[..|s| - 1], pool);
    }
  }

  /** A filter that every element passes keeps the whole sequence. */
  lemma {:induction false} FilterInAll<T(!new)>(s: seq<T>, pool: set<T>, inPool: bool)
    requires forall x :: x in s ==> (x in pool) == inPool
    ensures FilterIn(s, pool, inPool) == s
  {
    if s != [] {
      FilterInAll(s[..|s| - 1], pool, inPool);
      assert s == s[..|s| - 1] + [s[|s| - 1]];
    }
  }

  /** De-duplicating a sequence that has no repeats changes nothing (`dict.fromkeys` is a no-op). */
  lemma {:induction false} DedupOfNoDup<T(!new)>(s: seq<T>)
    requires NoDup(s)
    ensures Dedup(s) == s
  {
    if s != [] {
      var init := s[..|s| - 1];
      assert NoDup(init) by {
        forall i, j | 0 <= i < j < |init| ensures init[i] != init[j] {
          assert init[i] == s[i] && init[j] == s[j];
        }
      }
      DedupOfNoDup(init);
      assert s[|s| - 1] !in init;
      assert s == init + [s[|s| - 1]];
    }
  }

  /** A first occurrence is found by FirstIndex. */
  lemma FirstIndexUnique<T(!new)>(s: seq<T>, x: T, i: nat)
    requires i < |s| && s[i] == x && x !in s[..i]
    ensures FirstIndex(s, x) == i
  {
  }

  /** Appending an element does not move the first occurrence of anything already present. */
  lemma FirstIndexAppend<T(!new)>(s: seq<T>, x: T, y: T)
    requires y in s
    ensures FirstIndex(s + [x], y) == FirstIndex(s, y)
  {
    var k := FirstIndex(s, y);
    assert (s + [x])[..k] == s[..k];
    FirstIndexUnique(s + [x], y, k);
  }

  /**
   * Dedup keeps the order of first occurrences: of two kept elements, the one that
   * comes first in the result occurs first in the input.
   */
  lemma {:induction false} DedupKeepsFirstOccurrenceOrder<T(!new)>(s: seq<T>)
    ensures forall i, j :: 0 <= i < j < |Dedup(s)| ==>
              FirstIndex(s, Dedup(s)[i]) < FirstIndex(s, Dedup(s)[j])
  {
    if s != [] {
      var init := s[..|s| - 1];
      var x := s[|s| - 1];
      assert s == init + [x];
      DedupKeepsFirstOccurrenceOrder(init);
      var d := Dedup(init);
      var r := Dedup(s);
      forall i, j | 0 <= i < j < |r|
        ensures FirstIndex(s, r[i]) < FirstIndex(s, r[j])
      {
        FirstIndexAppend(init, x, r[i]);
        if j < |d| {
          FirstIndexAppend(init, x, r[j]);
        } else {
          // r == d + [x] and x does not occur in init
          assert r[j] == x && x !in init;
          FirstIndexUnique(s, x, |init|);
        }
      }
    }
  }
}
