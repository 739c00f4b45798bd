/**
  A stable sort with a caller-supplied comparison. JavaScript's Array.prototype.sort is stable, and for
  a consistent comparison function every stable sort produces the same result, so a stable insertion
  sort is an exact model of it.
 */
module Sorting {
  import opened Common

  /** `le` behaves as "a sorts no later than b" of a consistent comparison: total and transitive. */
  ghost predicate TotalPreorder<T(!new)>(le: (T, T) -> bool)
  {
    && (forall a, b :: le(a, b) || le(b, a))
    && (forall a, b, c :: le(a, b) && le(b, c) ==> le(a, c))
  }

  predicate Sorted<T>(s: seq<T>, le: (T, T) -> bool)
  {
    forall i, j :: 0 <= i < j < |s| ==> le(s[i], s[j])
  }

  /** Places `x` after the leading run of elements that sort no later than it. */
  function Insert<T>(x: T, s: seq<T>, le: (T, T) -> bool): (r: seq<T>)
    ensures |r| == |s| + 1
  {
    if |s| == 0 then [x]
    else if le(s[0], x) then [s[0]] + Insert(x, s[1..], le)
    else [x] + s
  }

  /** Inserts the elements of `s` one by one, in input order. */
  function Sort<T>(s: seq<T>, le: (T, T) -> bool): (r: seq<T>)
    ensures |r| == |s|
  {
    if |s| == 0 then []
    else Insert(s[|s| - 1], Sort(s[..|s| - 1], le), le)
  }

  /** Inserting adds exactly the one element. */
  lemma {:induction false} InsertPermutes<T>(x: T, s: seq<T>, le: (T, T) -> bool)
    ensures multiset(Insert(x, s, le)) == multiset(s) + multiset{x}
  {
    if |s| > 0 && le(s[0], x) {
      InsertPermutes(x, s[1..], le);
      assert s == [s[0]] + s[1..];
    }
  }

  /** Sorting only reorders: the result is a permutation of the input. */
  lemma {:induction false} SortPermutes<T>(s: seq<T>, le: (T, T) -> bool)
    ensures multiset(Sort(s, le)) == multiset(s)
  {
    if |s| > 0 {
      var init := s[..|s| - 1];
      SortPermutes(init, le);
      InsertPermutes(s[|s| - 1], Sort(init, le), le);
      assert s == init + [s[|s| - 1]];
    }
  }

  lemma {:induction false} InsertSorted<T(!new)>(x: T, s: seq<T>, le: (T, T) -> bool)
    requires TotalPreorder(le)
    requires Sorted(s, le)
    ensures Sorted(Insert(x, s, le), le)
  {
    if |s| > 0 && le(s[0], x) {
      InsertSorted(x, s[1..], le);
      InsertPermutes(x, s, le);
      var r := Insert(x, s, le);
      assert r == [s[0]] + Insert(x, s[1..], le);
      assert forall k :: 0 <= k < |r| ==> r[k] in multiset(s) + multiset{x};
      forall i, j | 0 <= i < j < |r|
        ensures le(r[i], r[j])
      {
        if i == 0 {
          assert r[j] in multiset(s) + multiset{x};
          if r[j] == x {
          } else {
            assert r[j] in s;
            var k :| 0 <= k < |s| && s[k] == r[j];
            if k > 0 {
              assert le(s[0], s[k]);
            }
          }
        }
      }
    } else if |s| > 0 {
      var r := Insert(x, s, le);
      assert r == [x] + s;
      forall i, j | 0 <= i < j < |r|
        ensures le(r[i], r[j])
      {
        if i == 0 {
          assert le(x, s[0]);
          if j > 1 {
            assert le(s[0], s[j - 1]);
          }
        }
      }
    }
  }

  /** The result of `Sort` is ordered, provided the comparison is consistent. */
  lemma {:induction false} SortSorted<T(!new)>(s: seq<T>, le: (T, T) -> bool)
    requires TotalPreorder(le)
    ensures Sorted(Sort(s, le), le)
  {
    if |s| > 0 {
      SortSorted(s[..|s| - 1], le);
      InsertSorted(s[|s| - 1], Sort(s[..|s| - 1], le), le);
    }
  }

  lemma {:induction false} InsertKeepsClassOrder<T(!new)>(x: T, s: seq<T>, le: (T, T) -> bool, p: T -> bool)
    requires TotalPreorder(le)
    requires Sorted(s, le)
    requires forall a, b :: p(a) && p(b) ==> le(a, b)
    ensures Filter(Insert(x, s, le), p) == Filter(s, p) + Filter([x], p)
    decreases |s|, 1
  {
    if |s| == 0 {
    } else if le(s[0], x) {
      InsertBehindHead(x, s, le, p);
    } else {
      InsertInFront(x, s, le, p);
    }
  }

  lemma {:induction false} InsertBehindHead<T(!new)>(x: T, s: seq<T>, le: (T, T) -> bool, p: T -> bool)
    requires TotalPreorder(le)
    requires Sorted(s, le)
    requires forall a, b :: p(a) && p(b) ==> le(a, b)
    requires |s| > 0 && le(s[0], x)
    ensures Filter(Insert(x, s, le), p) == Filter(s, p) + Filter([x], p)
    decreases |s|, 0
  {
    SortedTail(s, le);
    InsertKeepsClassOrder(x, s[1..], le, p);
    FilterBehindHead(x, s, le, p);
  }

  /** Inserting behind the head filters as inserting into the tail does, with the head in front. */
  lemma FilterBehindHead<T>(x: T, s: seq<T>, le: (T, T) -> bool, p: T -> bool)
    requires |s| > 0 && le(s[0], x)
    requires Filter(Insert(x, s[1..], le), p) == Filter(s[1..], p) + Filter([x], p)
    ensures Filter(Insert(x, s, le), p) == Filter(s, p) + Filter([x], p)
  {
    InsertBehind(x, s, le);
    FilterCons(s[0], Insert(x, s[1..], le), s[1..], Filter([x], p), p);
  }

  lemma InsertBehind<T>(x: T, s: seq<T>, le: (T, T) -> bool)
    requires |s| > 0 && le(s[0], x)
    ensures Insert(x, s, le) == [s[0]] + Insert(x, s[1..], le)
    ensures s == [s[0]] + s[1..]
  {
  }

  /** Putting the same element in front of two sequences keeps a relation between their filtered forms. */
  lemma FilterCons<T>(h: T, u: seq<T>, t: seq<T>, y: seq<T>, p: T -> bool)
    requires Filter(u, p) == Filter(t, p) + y
    ensures Filter([h] + u, p) == Filter([h] + t, p) + y
  {
    FilterAppend([h], u, p);
    FilterAppend([h], t, p);
    AppendAssoc(Filter([h], p), Filter(t, p), y);
  }

  lemma SortedTail<T>(s: seq<T>, le: (T, T) -> bool)
    requires |s| > 0 && Sorted(s, le)
    ensures Sorted(s[1..], le)
  {
    var t := s[1..];
    forall i, j | 0 <= i < j < |t|
      ensures le(t[i], t[j])
    {
      assert t[i] == s[i + 1] && t[j] == s[j + 1];
    }
  }

  lemma InsertInFront<T(!new)>(x: T, s: seq<T>, le: (T, T) -> bool, p: T -> bool)
    requires TotalPreorder(le)
    requires Sorted(s, le)
    requires forall a, b :: p(a) && p(b) ==> le(a, b)
    requires |s| > 0 && !le(s[0], x)
    ensures Filter(Insert(x, s, le), p) == Filter(s, p) + Filter([x], p)
  {
    assert Insert(x, s, le) == [x] + s;
    if p(x) {
      NoClassBehind(x, s, le, p);
    }
    FilterInFront(x, s, p);
  }

  /** When `x` sorts before the head, no member of its class can follow. */
  lemma NoClassBehind<T(!new)>(x: T, s: seq<T>, le: (T, T) -> bool, p: T -> bool)
    requires TotalPreorder(le)
    requires Sorted(s, le)
    requires forall a, b :: p(a) && p(b) ==> le(a, b)
    requires |s| > 0 && !le(s[0], x) && p(x)
    ensures Filter(s, p) == []
  {
    HeadBeforeClass(x, s, le, p);
    NoneSatisfy(s, p);
  }

  /** In a sorted sequence, every member of `x`'s class sits after the head, so the head sorts no later than `x`. */
  lemma HeadBeforeClass<T(!new)>(x: T, s: seq<T>, le: (T, T) -> bool, p: T -> bool)
    requires TotalPreorder(le)
    requires Sorted(s, le)
    requires forall a, b :: p(a) && p(b) ==> le(a, b)
    requires |s| > 0 && p(x)
    ensures forall k :: 0 <= k < |s| && p(s[k]) ==> le(s[0], x)
  {
    forall k | 0 <= k < |s| && p(s[k])
      ensures le(s[0], x)
    {
      var a, b := s[0], s[k];
      assert le(a, b);
      assert le(b, x);
    }
  }

  lemma {:induction false} NoneSatisfy<T>(s: seq<T>, p: T -> bool)
    requires forall k :: 0 <= k < |s| ==> !p(s[k])
    ensures Filter(s, p) == []
  {
    if |s| > 0 {
      NoneSatisfy(s[1..], p);
    }
  }

  /**
    Stability: the elements of a class that the comparison cannot tell apart keep their input order.
   */
  lemma {:induction false} SortKeepsClassOrder<T(!new)>(s: seq<T>, le: (T, T) -> bool, p: T -> bool)
    requires TotalPreorder(le)
    requires forall a, b :: p(a) && p(b) ==> le(a, b)
    ensures Filter(Sort(s, le), p) == Filter(s, p)
  {
    if |s| > 0 {
      var init, x := s[..|s| - 1], s[|s| - 1];
      assert s == init + [x];
      assert Sort(s, le) == Insert(x, Sort(init, le), le);
      SortKeepsClassOrder(init, le, p);
      SortSorted(init, le);
      InsertKeepsClassOrder(x, Sort(init, le), le, p);
      FilterAppend(init, [x], p);
    }
  }

  lemma {:induction false} SumInsert<T>(x: T, s: seq<T>, le: (T, T) -> bool, f: T -> int)
    ensures Sum(Insert(x, s, le), f) == Sum(s, f) + f(x)
  {
    if |s| > 0 && le(s[0], x) {
      SumInsert(x, s[1..], le, f);
      assert Insert(x, s, le)[1..] == Insert(x, s[1..], le);
    } else if |s| > 0 {
      assert Insert(x, s, le)[1..] == s;
    }
  }

  /** Sorting does not change a sum over the elements. */
  lemma {:induction false} SumSort<T>(s: seq<T>, le: (T, T) -> bool, f: T -> int)
    ensures Sum(Sort(s, le), f) == Sum(s, f)
  {
    if |s| > 0 {
      var init, x := s[..|s| - 1], s[|s| - 1];
      var sorted := Sort(init, le);
      assert Sort(s, le) == Insert(x, sorted, le);
      SumSort(init, le, f);
      SumInsert(x, sorted, le, f);
      assert s == init + [x];
      SumAppend(init, [x], f);
      assert Sum([x], f) == f(x);
    }
  }

  lemma {:induction false} MapInsert<T, U>(x: T, s: seq<T>, le: (T, T) -> bool, f: T -> U)
    ensures multiset(Map(Insert(x, s, le), f)) == multiset(Map(s, f)) + multiset{f(x)}
  {
    if |s| > 0 && le(s[0], x) {
      MapInsert(x, s[1..], le, f);
      MapAppend([s[0]], Insert(x, s[1..], le), f);
      MapAppend([s[0]], s[1..], f);
      assert s == [s[0]] + s[1..];
    } else {
      MapAppend([x], s, f);
    }
  }

  /** Sorting only reorders: any projection of the elements keeps its multiset. */
  lemma {:induction false} MapSort<T, U>(s: seq<T>, le: (T, T) -> bool, f: T -> U)
    ensures multiset(Map(Sort(s, le), f)) == multiset(Map(s, f))
  {
    if |s| > 0 {
      var init, x := s[..|s| - 1], s[|s| - 1];
      assert s == init + [x];
      assert Sort(s, le) == Insert(x, Sort(init, le), le);
      MapSort(init, le, f);
      MapInsert(x, Sort(init, le), le, f);
      MapAppend(init, [x], f);
      assert Map(s, f) == Map(init, f) + [f(x)];
    }
  }
}
