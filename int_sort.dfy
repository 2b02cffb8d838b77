/**
 * `Arrays.sort(int[])` on a clone of an array, as a pure function on
 * sequences of Java `int`s, with the counting facts the rank computation of
 * the evaluator relies on.
 */
module IntSort {
  /** Ascending order. */
  predicate Sorted(s: seq<int>)
  {
    forall i, j :: 0 <= i < j < |s| ==> s[i] <= s[j]
  }

  /** The number of elements strictly below x. */
  function CountLess(s: seq<int>, x: int): (n: nat)
    ensures n <= |s|
  {
    if s == [] then 0 else (if s[0] < x then 1 else 0) + CountLess(s[1..], x)
  }

  /** The number of elements at or below x. */
  function CountLeq(s: seq<int>, x: int): (n: nat)
    ensures n <= |s|
  {
    if s == [] then 0 else (if s[0] <= x then 1 else 0) + CountLeq(s[1..], x)
  }

  /** x placed before the first element not below it. */
  function Insert(x: int, s: seq<int>): (r: seq<int>)
    ensures |r| == |s| + 1
  {
    if s == [] then [x]
    else if x <= s[0] then [x] + s
    else [s[0]] + Insert(x, s[1..])
  }

  /** Insertion into a sorted sequence keeps it sorted; the first element is x or the old first. */
  lemma {:induction false} InsertSorted(x: int, s: seq<int>)
    requires Sorted(s)
    ensures Sorted(Insert(x, s))
    ensures Insert(x, s)[0] == x || (s != [] && Insert(x, s)[0] == s[0])
  {
    if s == [] {
    } else if x <= s[0] {
      SortedCons(x, s);
    } else {
      var t := Insert(x, s[1..]);
      assert Sorted(s[1..]);
      InsertSorted(x, s[1..]);
      assert s[1..] != [] ==> s[1..][0] == s[1];
      SortedCons(s[0], t);
    }
  }

  /** Insertion adds exactly x. */
  lemma {:induction false} InsertPermutes(x: int, s: seq<int>)
    ensures multiset(Insert(x, s)) == multiset(s) + multiset{x}
  {
    if s != [] && x > s[0] {
      InsertPermutes(x, s[1..]);
      assert s == [s[0]] + s[1..];
      assert multiset(s) == multiset{s[0]} + multiset(s[1..]);
      assert multiset([s[0]] + Insert(x, s[1..])) == multiset{s[0]} + multiset(Insert(x, s[1..]));
    }
  }

  lemma SortedCons(a: int, t: seq<int>)
    requires Sorted(t) && t != [] && a <= t[0]
    ensures Sorted([a] + t)
  {
    forall i, j | 0 <= i < j < |[a] + t|
      ensures ([a] + t)[i] <= ([a] + t)[j]
    {
      if i == 0 {
        assert ([a] + t)[j] == t[j - 1] >= t[0];
      }
    }
  }

  /** The sorted copy, by insertion from the back. */
  function Sort(s: seq<int>): (r: seq<int>)
    ensures |r| == |s|
  {
    if s == [] then [] else Insert(s[0], Sort(s[1..]))
  }

  /** The sorted copy is ascending. */
  lemma {:induction false} SortSorted(s: seq<int>)
    ensures Sorted(Sort(s))
  {
    if s != [] {
      SortSorted(s[1..]);
      InsertSorted(s[0], Sort(s[1..]));
    }
  }

  /** The sorted copy is a permutation of the input. */
  lemma {:induction false} SortPermutes(s: seq<int>)
    ensures multiset(Sort(s)) == multiset(s)
  {
    if s != [] {
      SortPermutes(s[1..]);
      InsertPermutes(s[0], Sort(s[1..]));
      assert s == [s[0]] + s[1..];
    }
  }

  /** Inserting y adds one to the count below x exactly when y is below x. */
  lemma {:induction false} InsertCounts(y: int, s: seq<int>, x: int)
    ensures CountLess(Insert(y, s), x) == CountLess(s, x) + (if y < x then 1 else 0)
    ensures CountLeq(Insert(y, s), x) == CountLeq(s, x) + (if y <= x then 1 else 0)
  {
    if s == [] {
    } else if y <= s[0] {
      assert ([y] + s)[1..] == s;
    } else {
      InsertCounts(y, s[1..], x);
      assert ([s[0]] + Insert(y, s[1..]))[1..] == Insert(y, s[1..]);
    }
  }

  /** Sorting keeps both counts. */
  lemma {:induction false} SortCounts(s: seq<int>, x: int)
    ensures CountLess(Sort(s), x) == CountLess(s, x)
    ensures CountLeq(Sort(s), x) == CountLeq(s, x)
  {
    if s != [] {
      SortCounts(s[1..], x);
      InsertCounts(s[0], Sort(s[1..]), x);
    }
  }

  /** In a sorted sequence the elements below x are exactly the first CountLess(s, x). */
  lemma {:induction false} SortedCountLess(s: seq<int>, x: int)
    requires Sorted(s)
    ensures forall k :: 0 <= k < |s| ==> (s[k] < x <==> k < CountLess(s, x))
  {
    if s != [] {
      SortedCountLess(s[1..], x);
      assert forall k :: 1 <= k < |s| ==> s[k] == s[1..][k - 1];
    }
  }

  /** In a sorted sequence the elements at or below x are exactly the first CountLeq(s, x). */
  lemma {:induction false} SortedCountLeq(s: seq<int>, x: int)
    requires Sorted(s)
    ensures forall k :: 0 <= k < |s| ==> (s[k] <= x <==> k < CountLeq(s, x))
  {
    if s != [] {
      SortedCountLeq(s[1..], x);
      assert forall k :: 1 <= k < |s| ==> s[k] == s[1..][k - 1];
    }
  }

  /** Every element below x is at or below x; an element equal to x adds one more. */
  lemma {:induction false} CountLessLeq(s: seq<int>, x: int)
    ensures CountLess(s, x) <= CountLeq(s, x)
    ensures x in s ==> CountLess(s, x) < CountLeq(s, x)
  {
    if s != [] {
      CountLessLeq(s[1..], x);
      assert x in s ==> s[0] == x || x in s[1..];
    }
  }

  /** The count below x never falls as x rises. */
  lemma {:induction false} CountLeqBelow(s: seq<int>, y: int, x: int)
    requires y < x
    ensures CountLeq(s, y) <= CountLess(s, x)
  {
    if s != [] {
      CountLeqBelow(s[1..], y, x);
    }
  }
}
