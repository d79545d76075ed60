/**
 * The ordered collections the summarizer uses: `stream().sorted()` on a list of
 * `Integer`, and `TreeSet<Integer>` built by repeated `add`.
 */
module Sorting {
  import opened JavaLang

  predicate Sorted(s: seq<int>)
  {
    forall i, j :: 0 <= i < j < |s| ==> s[i] <= s[j]
  }

  /** Ascending with no repeated value: the iteration order of a `TreeSet`. */
  predicate StrictlyAscending(s: seq<int>)
  {
    forall i, j :: 0 <= i < j < |s| ==> s[i] < s[j]
  }

  lemma SortedCons(h: int, t: seq<int>)
    requires Sorted(t)
    requires forall j :: 0 <= j < |t| ==> h <= t[j]
    ensures Sorted([h] + t)
  {
    var s := [h] + t;
    forall i, j | 0 <= i < j < |s| ensures s[i] <= s[j] {
      assert s[j] == t[j - 1];
      if i > 0 { assert s[i] == t[i - 1]; }
    }
  }

  /** A list in which each element is at most the next one is sorted. */
  lemma {:induction false} SortedByNeighbours(s: seq<int>)
    requires forall i :: 0 <= i < |s| - 1 ==> s[i] <= s[i + 1]
    ensures Sorted(s)
    decreases |s|
  {
    if |s| > 1 {
      var t := s[1..];
      assert forall i :: 0 <= i < |t| - 1 ==> t[i] <= t[i + 1] by {
        forall i | 0 <= i < |t| - 1 ensures t[i] <= t[i + 1] {
          assert t[i] == s[i + 1] && t[i + 1] == s[i + 2];
        }
      }
      SortedByNeighbours(t);
      forall j | 0 <= j < |t| ensures s[0] <= t[j] {
        assert s[0] <= s[1] == t[0];
        if j > 0 { assert t[0] <= t[j]; }
      }
      SortedCons(s[0], t);
      assert [s[0]] + t == s;
    }
  }

  /** Each element below the next one: then every element is below every later one. */
  lemma {:induction false} NeighboursBelow(s: seq<int>, i: nat, j: nat)
    requires forall k :: 0 <= k < |s| - 1 ==> s[k] < s[k + 1]
    requires i < j < |s|
    ensures s[i] < s[j]
    decreases j - i
  {
    if i + 1 < j {
      NeighboursBelow(s, i + 1, j);
    }
  }

  /** A list in which each element is below the next one is strictly ascending. */
  lemma StrictlyAscendingByNeighbours(s: seq<int>)
    requires forall i :: 0 <= i < |s| - 1 ==> s[i] < s[i + 1]
    ensures StrictlyAscending(s)
  {
    forall i, j | 0 <= i < j < |s| ensures s[i] < s[j] {
      NeighboursBelow(s, i, j);
    }
  }

  /** Puts `x` into the sorted list `s` before the first element not below it. */
  function Insert(s: seq<Int32>, x: Int32): (r: seq<Int32>)
    requires Sorted(s)
    ensures Sorted(r)
    ensures multiset(r) == multiset(s) + multiset{x}
    decreases |s|
  {
    if s == [] || x <= s[0] then
      SortedCons(x, s);
      [x] + s
    else
      var t := Insert(s[1..], x);
      assert s == [s[0]] + s[1..];
      assert forall i :: 0 <= i < |t| ==> s[0] <= t[i] by {
        forall i | 0 <= i < |t| ensures s[0] <= t[i] {
          assert t[i] in multiset(t);
          assert t[i] in multiset(s[1..]) || t[i] == x;
          assert t[i] in s[1..] || t[i] == x;
        }
      }
      SortedCons(s[0], t);
      [s[0]] + t
  }

  /** `stream().sorted()`: the input in ascending order, every occurrence kept. */
  function Sort(s: seq<Int32>): (r: seq<Int32>)
    ensures Sorted(r)
    ensures multiset(r) == multiset(s)
  {
    if s == [] then []
    else
      assert s == s[..|s| - 1] + [s[|s| - 1]];
      Insert(Sort(s[..|s| - 1]), s[|s| - 1])
  }

  /** The head of a sorted list is its least element. */
  lemma SortedHeadLeast(a: seq<int>, x: int)
    requires Sorted(a) && x in multiset(a)
    ensures a[0] <= x
  {
    var i :| 0 <= i < |a| && a[i] == x;
  }

  /** Dropping the head of a sorted list removes one occurrence of its least element. */
  lemma SortedTail(a: seq<int>)
    requires Sorted(a) && a != []
    ensures Sorted(a[1..])
    ensures multiset(a[1..]) == multiset(a) - multiset{a[0]}
  {
    assert a == [a[0]] + a[1..];
  }

  /** A sorted list is determined by its multiset of elements, so every sorting
      algorithm gives the result `Sort` gives. */
  lemma {:induction false} SortedUnique(a: seq<int>, b: seq<int>)
    requires Sorted(a) && Sorted(b)
    requires multiset(a) == multiset(b)
    ensures a == b
    decreases |a|
  {
    if a == [] {
      assert |multiset(b)| == 0;
    } else {
      assert b != [] && a[0] == b[0] && |a| == |b| by {
        assert |a| == |multiset(a)| == |multiset(b)| == |b|;
        assert a[0] in multiset(b) by { assert a[0] in a; }
        assert b[0] in multiset(a) by { assert b[0] in b; }
        SortedHeadLeast(b, a[0]);
        SortedHeadLeast(a, b[0]);
      }
      assert Sorted(a[1..]) && Sorted(b[1..]) && multiset(a[1..]) == multiset(b[1..]) by {
        SortedTail(a);
        SortedTail(b);
      }
      SortedUnique(a[1..], b[1..]);
      assert a == [a[0]] + a[1..] == [b[0]] + b[1..] == b;
    }
  }

  /** A list that is already sorted is left as it is. */
  lemma SortOfSorted(s: seq<Int32>)
    requires Sorted(s)
    ensures Sort(s) == s
  {
    SortedUnique(Sort(s), s);
  }

  /** `TreeSet.add`: the element is added unless it is already present. */
  function AddToSet(s: seq<Int32>, x: Int32): (r: seq<Int32>)
    requires StrictlyAscending(s)
    ensures StrictlyAscending(r)
    ensures forall v :: v in r <==> v in s || v == x
  {
    if s == [] || x < s[0] then [x] + s
    else if x == s[0] then s
    else
      var t := AddToSet(s[1..], x);
      assert s == [s[0]] + s[1..];
      assert forall j :: 0 <= j < |t| ==> s[0] < t[j] by {
        forall j | 0 <= j < |t| ensures s[0] < t[j] {
          assert t[j] in t;
        }
      }
      [s[0]] + t
  }

  /** Adding a value above every element appends it. */
  lemma {:induction false} AddToSetAbove(s: seq<Int32>, x: Int32)
    requires StrictlyAscending(s)
    requires forall i :: 0 <= i < |s| ==> s[i] < x
    ensures AddToSet(s, x) == s + [x]
    decreases |s|
  {
    if s != [] {
      AddToSetAbove(s[1..], x);
      assert s == [s[0]] + s[1..];
    }
  }

  /** A strictly ascending list is determined by the values it holds. */
  lemma {:induction false} StrictlyAscendingUnique(a: seq<int>, b: seq<int>)
    requires StrictlyAscending(a) && StrictlyAscending(b)
    requires forall v :: v in a <==> v in b
    ensures a == b
    decreases |a|
  {
    if a == [] {
      assert forall i :: 0 <= i < |b| ==> b[i] in b;
    } else {
      assert a[0] in a;
      assert b != [];
      assert b[0] in a;
      assert a[0] == b[0] by {
        var i :| 0 <= i < |b| && b[i] == a[0];
        var j :| 0 <= j < |a| && a[j] == b[0];
      }
      forall v ensures v in a[1..] <==> v in b[1..] {
        if v in a[1..] {
          var j :| 1 <= j < |a| && a[j] == v;
          assert v in b && v != b[0];
          var i :| 0 <= i < |b| && b[i] == v;
          assert b[1..][i - 1] == v;
        }
        if v in b[1..] {
          var j :| 1 <= j < |b| && b[j] == v;
          assert v in a && v != a[0];
          var i :| 0 <= i < |a| && a[i] == v;
          assert a[1..][i - 1] == v;
        }
      }
      StrictlyAscendingUnique(a[1..], b[1..]);
    }
  }
}
