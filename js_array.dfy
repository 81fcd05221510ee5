/**
 * The built-in Array behaviour the chat code leans on: `indexOf` with strict
 * equality, "push if `indexOf` says absent", and `splice(index, 1)` at the
 * first occurrence. Both the room directory and the HD helpers use these.
 */
module JsArray {

  /**
   * A reference to a JavaScript array. Helpers that mutate the array they are
   * given (and return that same array) change `items` of the shared object.
   */
  class ArrayRef<T> {
    var items: seq<T>

    constructor (items: seq<T>)
      ensures this.items == items
    {
      this.items := items;
    }
  }

  /** No value occurs twice. */
  predicate Distinct<T(==)>(s: seq<T>) {
    forall i, j :: 0 <= i < j < |s| ==> s[i] != s[j]
  }

  /** `a` is `b` with some elements left out, the rest in their order. */
  ghost predicate Subsequence<T>(a: seq<T>, b: seq<T>)
    decreases |b|
  {
    if |a| == 0 then true
    else if |b| == 0 then false
    else (a[0] == b[0] && Subsequence(a[1..], b[1..])) || Subsequence(a, b[1..])
  }

  /** Putting an element in front of the larger sequence keeps a subsequence one. */
  lemma SubsequenceSkip<T>(a: seq<T>, b: seq<T>)
    requires |b| > 0 && Subsequence(a, b[1..])
    ensures Subsequence(a, b)
  {
  }

  /** `s.indexOf(x)`: the least index holding `x`, or -1 when there is none. */
  function IndexOf<T(==)>(s: seq<T>, x: T): (r: int)
    ensures -1 <= r < |s|
    ensures r == -1 <==> x !in s
    ensures 0 <= r ==> s[r] == x
  {
    if |s| == 0 then -1
    else if s[0] == x then 0
    else
      var k := IndexOf(s[1..], x);
      if k == -1 then -1 else k + 1
  }

  /** `if (s.indexOf(x) === -1) s.push(x)`, as a value. */
  function PushAbsent<T(==)>(s: seq<T>, x: T): (r: seq<T>)
    ensures x in r
    ensures |s| <= |r| <= |s| + 1 && r[..|s|] == s
  {
    if IndexOf(s, x) == -1 then s + [x] else s
  }

  /** `var k = s.indexOf(x); if (k > -1) s.splice(k, 1)`, as a value. */
  function RemoveFirst<T(==)>(s: seq<T>, x: T): (r: seq<T>)
    ensures x !in s ==> r == s
    ensures x in s ==> |r| == |s| - 1
  {
    var k := IndexOf(s, x);
    if k == -1 then s else s[..k] + s[k + 1..]
  }

  /** `indexOf` finds the first occurrence: no earlier slot holds `x`. */
  lemma {:induction false} IndexOfFirst<T>(s: seq<T>, x: T)
    ensures forall j :: 0 <= j < IndexOf(s, x) ==> s[j] != x
    decreases |s|
  {
    if |s| > 0 && s[0] != x {
      IndexOfFirst(s[1..], x);
    }
  }

  /** Push-if-absent adds nothing but `x`. */
  lemma PushAbsentOnlyAdds<T>(s: seq<T>, x: T)
    ensures forall i :: 0 <= i < |PushAbsent(s, x)| ==> PushAbsent(s, x)[i] in s || PushAbsent(s, x)[i] == x
  {
  }

  /** The removal takes out exactly one copy of `x`, when there is one. */
  lemma RemoveFirstCount<T>(s: seq<T>, x: T)
    ensures multiset(RemoveFirst(s, x)) == multiset(s) - multiset{x}
  {
    var k := IndexOf(s, x);
    if k != -1 {
      assert s == s[..k] + [s[k]] + s[k + 1..];
    }
  }

  /** Pushing a value that is present changes nothing: the push is idempotent. */
  lemma PushAbsentIdempotent<T>(s: seq<T>, x: T)
    ensures PushAbsent(PushAbsent(s, x), x) == PushAbsent(s, x)
  {
  }

  /** Pushing only absent values keeps an array free of duplicates. */
  lemma PushAbsentKeepsDistinct<T>(s: seq<T>, x: T)
    requires Distinct(s)
    ensures Distinct(PushAbsent(s, x))
  {
  }

  /**
   * Removing the first occurrence keeps the remaining values in their order:
   * the result is `s` with exactly the slot `IndexOf(s, x)` taken out.
   */
  lemma RemoveFirstAt<T>(s: seq<T>, x: T)
    requires x in s
    ensures var k := IndexOf(s, x);
      && RemoveFirst(s, x)[..k] == s[..k]
      && RemoveFirst(s, x)[k..] == s[k + 1..]
  {
  }

  /** On a duplicate-free array the removed value is gone and no duplicate appears. */
  lemma RemoveFirstDistinct<T>(s: seq<T>, x: T)
    requires Distinct(s)
    ensures x !in RemoveFirst(s, x)
    ensures Distinct(RemoveFirst(s, x))
  {
    var r := RemoveFirst(s, x);
    if x in s {
      var k := IndexOf(s, x);
      assert r == s[..k] + s[k + 1..];
      assert forall i :: 0 <= i < |r| ==> r[i] == (if i < k then s[i] else s[i + 1]);
    }
  }

  /** With a duplicate the value survives one removal: only the first copy goes. */
  lemma RemoveFirstLeavesDuplicate<T>(x: T)
    ensures RemoveFirst([x, x], x) == [x]
  {
    assert IndexOf([x, x], x) == 0;
  }
}
