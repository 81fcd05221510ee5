/**
 * `HD.Math.Set` (array-backed set operations) and the integer part of
 * `HD.Math.Geometry` from hd.math.js.
 */
module HdMath {
  import opened JsArray

  // ---------------------------------------------------------------------
  // Specification functions

  /** The elements of `a` that occur in `b`, in `a`'s order, duplicates of `a` kept. */
  function Common<T(==)>(a: seq<T>, b: seq<T>): (r: seq<T>)
    ensures |r| <= |a|
  {
    if |a| == 0 then []
    else Common(a[..|a| - 1], b) + (if a[|a| - 1] in b then [a[|a| - 1]] else [])
  }

  /** The elements of `a` that do not occur in `b`, in `a`'s order. */
  function Outside<T(==)>(a: seq<T>, b: seq<T>): (r: seq<T>)
    ensures |r| <= |a|
  {
    if |a| == 0 then []
    else Outside(a[..|a| - 1], b) + (if a[|a| - 1] !in b then [a[|a| - 1]] else [])
  }

  /** `a` after pushing, in order, each element of `b` that is not yet present. */
  function Merged<T(==)>(a: seq<T>, b: seq<T>): (r: seq<T>)
    ensures |a| <= |r| <= |a| + |b|
  {
    if |b| == 0 then a
    else PushAbsent(Merged(a, b[..|b| - 1]), b[|b| - 1])
  }

  /** Ascending order. */
  predicate Ascending(s: seq<int>) {
    forall i, j :: 0 <= i < j < |s| ==> s[i] <= s[j]
  }

  /** Place `x` before the first larger-or-equal element of a sorted sequence. */
  function Insert(x: int, s: seq<int>): (r: seq<int>)
    ensures |r| == |s| + 1
    ensures multiset(r) == multiset(s) + multiset{x}
  {
    if |s| == 0 || x <= s[0] then [x] + s
    else
      assert s == [s[0]] + s[1..];
      [s[0]] + Insert(x, s[1..])
  }

  /** Inserting into an ascending sequence keeps it ascending. */
  lemma {:induction false} InsertAscending(x: int, s: seq<int>)
    requires Ascending(s)
    ensures Ascending(Insert(x, s))
    decreases |s|
  {
    if |s| > 0 && x > s[0] {
      InsertAscending(x, s[1..]);
      var rest := Insert(x, s[1..]);
      forall k | 0 <= k < |rest|
        ensures s[0] <= rest[k]
      {
        assert rest[k] in multiset(rest);
        if rest[k] != x {
          assert rest[k] in multiset(s[1..]);
          var j :| 0 <= j < |s[1..]| && s[1..][j] == rest[k];
          assert s[j + 1] == rest[k];
        }
      }
    }
  }

  /** Insertion sort: the ascending permutation of `s`. */
  function SortAscending(s: seq<int>): (r: seq<int>)
    ensures |r| == |s|
    ensures multiset(r) == multiset(s)
    ensures Ascending(r)
  {
    if |s| == 0 then []
    else
      assert s == [s[0]] + s[1..];
      var t := SortAscending(s[1..]);
      InsertAscending(s[0], t);
      Insert(s[0], t)
  }

  // ---------------------------------------------------------------------
  // HD.Math.Set

  /**
   * `HD.Math.Set.union(A, B)`: pushes into `A` itself each element of `B`
   * that `A` does not hold yet and returns `A`.
   */
  method Union<T(==)>(A: ArrayRef<T>, B: seq<T>) returns (ret: ArrayRef<T>)
    modifies A
    ensures ret == A
    ensures A.items == Merged(old(A.items), B)
  {
    ret := A;
    for n := 0 to |B|
      invariant ret == A
      invariant A.items == Merged(old(A.items), B[..n])
    {
      assert B[..n + 1][..n] == B[..n];
      if IndexOf(ret.items, B[n]) == -1 {
        ret.items := ret.items + [B[n]];
      }
    }
    assert B[..|B|] == B;
  }

  /** `HD.Math.Set.intersection(A, B)`: a fresh array of the elements of `A` found in `B`. */
  method Intersection<T(==)>(A: seq<T>, B: seq<T>) returns (ret: seq<T>)
    ensures ret == Common(A, B)
    ensures |ret| == 0 <==> forall i :: 0 <= i < |A| ==> A[i] !in B
  {
    ret := [];
    for n := 0 to |A|
      invariant ret == Common(A[..n], B)
    {
      assert A[..n + 1][..n] == A[..n];
      if IndexOf(B, A[n]) > -1 {
        ret := ret + [A[n]];
      }
    }
    assert A[..|A|] == A;
    CommonEmpty(A, B);
  }

  /** `HD.Math.Set.difference(A, B)`: a fresh array of the elements of `A` missing from `B`. */
  method Difference<T(==)>(A: seq<T>, B: seq<T>) returns (ret: seq<T>)
    ensures ret == Outside(A, B)
  {
    ret := [];
    for n := 0 to |A|
      invariant ret == Outside(A[..n], B)
    {
      assert A[..n + 1][..n] == A[..n];
      if IndexOf(B, A[n]) == -1 {
        ret := ret + [A[n]];
      }
    }
    assert A[..|A|] == A;
  }

  /**
   * `HD.Math.Set.equal(A, B)`: the same array is equal to itself; arrays of
   * different lengths are not equal; otherwise both arrays are sorted in
   * place and compared element by element, so the answer is whether they
   * hold the same elements with the same multiplicities.
   */
  method Equal(A: ArrayRef<int>, B: ArrayRef<int>) returns (r: bool)
    modifies A, B
    ensures r <==> A == B || multiset(old(A.items)) == multiset(old(B.items))
    ensures A == B || |old(A.items)| != |old(B.items)| ==>
      A.items == old(A.items) && B.items == old(B.items)
    ensures A != B && |old(A.items)| == |old(B.items)| ==>
      A.items == SortAscending(old(A.items)) && B.items == SortAscending(old(B.items))
  {
    if A == B {
      r := true;
    } else if |A.items| != |B.items| {
      assert |multiset(A.items)| != |multiset(B.items)|;
      r := false;
    } else {
      ghost var oa, ob := A.items, B.items;
      var a := SortAscending(A.items);
      var b := SortAscending(B.items);
      A.items := a;
      B.items := b;
      SortDeterminedByElements(oa, ob);
      r := SameEntries(a, b);
    }
  }

  /** The comparison loop of `equal`: true when the entries agree at every index. */
  method SameEntries(a: seq<int>, b: seq<int>) returns (r: bool)
    requires |a| == |b|
    ensures r <==> a == b
  {
    var i := 0;
    while i < |a|
      invariant 0 <= i <= |a|
      invariant a[..i] == b[..i]
    {
      if a[i] != b[i] {
        return false;
      }
      assert a[..i + 1] == a[..i] + [a[i]];
      assert b[..i + 1] == b[..i] + [b[i]];
      i := i + 1;
    }
    assert a == a[..i] && b == b[..i];
    return true;
  }

  // ---------------------------------------------------------------------
  // Properties of the set operations

  /** The intersection holds exactly the values of `a` that `b` holds, each as often as in `a`. */
  lemma {:induction false} CommonCount<T>(a: seq<T>, b: seq<T>, x: T)
    ensures multiset(Common(a, b))[x] == if x in b then multiset(a)[x] else 0
    decreases |a|
  {
    if |a| > 0 {
      CommonCount(a[..|a| - 1], b, x);
      assert a == a[..|a| - 1] + [a[|a| - 1]];
    }
  }

  /** Membership in the intersection: in `a` and in `b`. */
  lemma CommonMembers<T>(a: seq<T>, b: seq<T>, x: T)
    ensures x in Common(a, b) <==> x in a && x in b
  {
    CommonCount(a, b, x);
    assert x in Common(a, b) <==> x in multiset(Common(a, b));
    assert x in a <==> x in multiset(a);
  }

  /** The intersection is empty exactly when the arrays share no element. */
  lemma CommonEmpty<T>(a: seq<T>, b: seq<T>)
    ensures |Common(a, b)| == 0 <==> forall i :: 0 <= i < |a| ==> a[i] !in b
  {
    if |Common(a, b)| == 0 {
      forall i | 0 <= i < |a|
        ensures a[i] !in b
      {
        CommonMembers(a, b, a[i]);
      }
    } else {
      var x := Common(a, b)[0];
      CommonMembers(a, b, x);
    }
  }

  /** Intersection works element by element, so it keeps `a`'s order: it distributes over concatenation. */
  lemma {:induction false} CommonAppend<T>(a: seq<T>, c: seq<T>, b: seq<T>)
    ensures Common(a + c, b) == Common(a, b) + Common(c, b)
    decreases |c|
  {
    if |c| == 0 {
      assert a + c == a;
    } else {
      CommonAppend(a, c[..|c| - 1], b);
      assert (a + c)[..|a + c| - 1] == a + c[..|c| - 1];
    }
  }

  /** Intersection and difference split `a` between them. */
  lemma {:induction false} CommonOutsidePartition<T>(a: seq<T>, b: seq<T>)
    ensures multiset(Common(a, b)) + multiset(Outside(a, b)) == multiset(a)
    decreases |a|
  {
    if |a| > 0 {
      CommonOutsidePartition(a[..|a| - 1], b);
      assert a == a[..|a| - 1] + [a[|a| - 1]];
    }
  }

  /** The difference holds no element of `b` and every element of `a` outside `b`. */
  lemma {:induction false} OutsideMembers<T>(a: seq<T>, b: seq<T>, x: T)
    ensures x in Outside(a, b) <==> x in a && x !in b
    decreases |a|
  {
    if |a| > 0 {
      OutsideMembers(a[..|a| - 1], b, x);
      assert a == a[..|a| - 1] + [a[|a| - 1]];
    }
  }

  /** Union leaves the original prefix of `A` as it was. */
  lemma {:induction false} MergedKeepsPrefix<T>(a: seq<T>, b: seq<T>)
    ensures Merged(a, b)[..|a|] == a
    decreases |b|
  {
    if |b| > 0 {
      MergedKeepsPrefix(a, b[..|b| - 1]);
    }
  }

  /** Union holds exactly the elements of both arrays. */
  lemma {:induction false} MergedMembers<T>(a: seq<T>, b: seq<T>, x: T)
    ensures x in Merged(a, b) <==> x in a || x in b
    decreases |b|
  {
    if |b| > 0 {
      MergedMembers(a, b[..|b| - 1], x);
      var m := Merged(a, b[..|b| - 1]);
      assert x in PushAbsent(m, b[|b| - 1]) <==> x in m || x == b[|b| - 1];
      assert x in b <==> x in b[..|b| - 1] || x == b[|b| - 1];
    }
  }

  /**
   * Union introduces no new duplicates: what it appends is duplicate-free
   * and disjoint from the original `A`.
   */
  lemma {:induction false} MergedAppendsFresh<T>(a: seq<T>, b: seq<T>)
    ensures Distinct(Merged(a, b)[|a|..])
    ensures forall i :: |a| <= i < |Merged(a, b)| ==> Merged(a, b)[i] !in a
    decreases |b|
  {
    if |b| > 0 {
      var m := Merged(a, b[..|b| - 1]);
      var x := b[|b| - 1];
      MergedAppendsFresh(a, b[..|b| - 1]);
      MergedKeepsPrefix(a, b[..|b| - 1]);
      if x !in m {
        assert Merged(a, b) == m + [x];
        assert Merged(a, b)[|a|..] == m[|a|..] + [x];
        forall j | 0 <= j < |a|
          ensures a[j] != x
        {
          assert a[j] == m[..|a|][j] == m[j];
        }
      }
    }
  }

  /** Hence union of duplicate-free arrays is duplicate-free. */
  lemma MergedDistinct<T>(a: seq<T>, b: seq<T>)
    requires Distinct(a)
    ensures Distinct(Merged(a, b))
  {
    var m := Merged(a, b);
    MergedKeepsPrefix(a, b);
    MergedAppendsFresh(a, b);
    forall i, j | 0 <= i < j < |m|
      ensures m[i] != m[j]
    {
      if j < |a| {
        assert m[i] == a[i] && m[j] == a[j];
      } else if i < |a| {
        assert m[i] == a[i];
      } else {
        assert m[i] == m[|a|..][i - |a|] && m[j] == m[|a|..][j - |a|];
      }
    }
  }

  /** Two ascending sequences with the same elements are the same sequence. */
  lemma {:induction false} SortedUnique(s: seq<int>, t: seq<int>)
    requires Ascending(s) && Ascending(t) && multiset(s) == multiset(t)
    ensures s == t
    decreases |s|
  {
    assert |t| == |s| by {
      assert |multiset(s)| == |s| && |multiset(t)| == |t|;
    }
    if |s| > 0 {
      SortedSameHead(s, t);
      SameElementsAfterHead(s, t);
      assert Ascending(s[1..]) && Ascending(t[1..]);
      SortedUnique(s[1..], t[1..]);
      assert s == [s[0]] + s[1..] && t == [t[0]] + t[1..];
    }
  }

  /** Two non-empty ascending sequences with the same elements start with the same (least) element. */
  lemma SortedSameHead(s: seq<int>, t: seq<int>)
    requires Ascending(s) && Ascending(t) && multiset(s) == multiset(t) && |s| > 0
    ensures |t| > 0 && s[0] == t[0]
  {
    assert s[0] in multiset(t);
    var i :| 0 <= i < |t| && t[i] == s[0];
    assert t[0] in multiset(s);
    var j :| 0 <= j < |s| && s[j] == t[0];
    assert t[0] <= t[i] by { if 0 < i { assert Ascending(t); } }
    assert s[0] <= s[j] by { if 0 < j { assert Ascending(s); } }
  }

  /** Taking the same first element off two sequences with the same elements leaves the same elements. */
  lemma SameElementsAfterHead(s: seq<int>, t: seq<int>)
    requires |s| > 0 && |t| > 0 && s[0] == t[0] && multiset(s) == multiset(t)
    ensures multiset(s[1..]) == multiset(t[1..])
  {
    var x := s[0];
    assert s == [x] + s[1..] && t == [x] + t[1..];
    calc {
      multiset(s[1..]);
      multiset(s) - multiset{x};
      multiset(t) - multiset{x};
      multiset(t[1..]);
    }
  }

  /** Sorting forgets the original order: the result depends only on the elements. */
  lemma SortDeterminedByElements(s: seq<int>, t: seq<int>)
    ensures multiset(s) == multiset(t) <==> SortAscending(s) == SortAscending(t)
  {
    if multiset(s) == multiset(t) {
      SortedUnique(SortAscending(s), SortAscending(t));
    }
  }

  // ---------------------------------------------------------------------
  // HD.Math.Geometry

  /** A point with integer coordinates. */
  datatype Point = Point(x: int, y: int)

  /** A rectangle: top-left corner, width and height. */
  datatype Rectangle = Rectangle(x: int, y: int, w: int, h: int)

  /** `isPointInsideRectangle`: strictly inside on both axes, so only a rectangle of positive size contains anything. */
  predicate IsPointInsideRectangle(point: Point, rect: Rectangle): (r: bool)
    ensures r ==> rect.w > 0 && rect.h > 0
  {
    rect.x < point.x && rect.x + rect.w > point.x
    && rect.y < point.y && rect.y + rect.h > point.y
  }

  /** The comparisons are strict: every point on the border counts as outside. */
  lemma BorderIsOutside(point: Point, rect: Rectangle)
    requires point.x == rect.x || point.x == rect.x + rect.w || point.y == rect.y || point.y == rect.y + rect.h
    ensures !IsPointInsideRectangle(point, rect)
  {
  }
}
