/** Small shared vocabulary: optional values and order-preserving filtering and summing of sequences. */
module Common {

  /** A value that may be absent (JavaScript `undefined`/`null`). */
  datatype Option<+T> = None | Some(value: T) {

    /** The value, or `default` when absent (the `??` operator). */
    function GetOr(default: T): T {
      match this
      case Some(v) => v
      case None => default
    }
  }

  /** The elements of `s` that satisfy `p`, in their original order (Array.prototype.filter). */
  function Filter<T>(s: seq<T>, p: T -> bool): (r: seq<T>)
    ensures |r| <= |s|
    ensures forall i :: 0 <= i < |r| ==> r[i] in s && p(r[i])
    ensures forall i :: 0 <= i < |s| && p(s[i]) ==> s[i] in r
  {
    if |s| == 0 then [] else (if p(s[0]) then [s[0]] else []) + Filter(s[1..], p)
  }

  lemma {:induction false} FilterAppend<T>(a: seq<T>, b: seq<T>, p: T -> bool)
    ensures Filter(a + b, p) == Filter(a, p) + Filter(b, p)
  {
    if |a| > 0 {
      assert (a + b)[1..] == a[1..] + b;
      FilterAppend(a[1..], b, p);
    } else {
      assert a + b == b;
    }
  }

  lemma {:induction false} FilterAll<T>(s: seq<T>, p: T -> bool)
    requires forall i :: 0 <= i < |s| ==> p(s[i])
    ensures Filter(s, p) == s
  {
    if |s| > 0 {
      FilterAll(s[1..], p);
      assert s == [s[0]] + s[1..];
    }
  }

  /** The last element kept is the last one kept after the head, or the head itself when none follows. */
  lemma FilterLast<T>(s: seq<T>, p: T -> bool)
    requires |Filter(s, p)| > 0
    ensures var r := Filter(s, p);
      var later := Filter(s[1..], p);
      && (|later| > 0 ==> r[|r| - 1] == later[|later| - 1])
      && (|later| == 0 ==> p(s[0]) && r == [s[0]])
  {
    var later := Filter(s[1..], p);
    var head := if p(s[0]) then [s[0]] else [];
    FilterUnfold(s, p);
    if |later| == 0 {
      assert head + later == head;
    } else {
      assert (head + later)[|head + later| - 1] == later[|later| - 1];
    }
  }

  lemma FilterUnfold<T>(s: seq<T>, p: T -> bool)
    requires |s| > 0
    ensures Filter(s, p) == (if p(s[0]) then [s[0]] else []) + Filter(s[1..], p)
  {
  }

  /** Filtering with `x` in front, when nothing after it is kept if `x` is. */
  lemma FilterInFront<T>(x: T, s: seq<T>, p: T -> bool)
    requires p(x) ==> Filter(s, p) == []
    ensures Filter([x] + s, p) == Filter(s, p) + Filter([x], p)
  {
    FilterAppend([x], s, p);
    if p(x) {
      assert Filter([x], p) + [] == [] + Filter([x], p);
    } else {
      assert Filter([x], p) == [];
    }
  }

  /** Each kept element is an element of the input at some index, and satisfies the condition. */
  lemma FilterMember<T>(s: seq<T>, p: T -> bool, j: nat)
    requires j < |Filter(s, p)|
    ensures exists i :: 0 <= i < |s| && s[i] == Filter(s, p)[j] && p(s[i])
  {
    assert Filter(s, p)[j] in s;
  }

  /** Filtering a concatenation whose parts are known to filter to `x` and `y`. */
  lemma FilterConcat<T>(a: seq<T>, b: seq<T>, p: T -> bool, x: seq<T>, y: seq<T>)
    requires Filter(a, p) == x && Filter(b, p) == y
    ensures Filter(a + b, p) == x + y
  {
    FilterAppend(a, b, p);
  }

  /** The conjunction of two conditions. */
  function Both<T>(p: T -> bool, q: T -> bool): T -> bool
  {
    x => p(x) && q(x)
  }

  /** Filtering twice is filtering once by both conditions. */
  lemma {:induction false} FilterFilter<T>(s: seq<T>, p: T -> bool, q: T -> bool)
    ensures Filter(Filter(s, p), q) == Filter(s, Both(p, q))
  {
    if |s| > 0 {
      FilterFilter(s[1..], p, q);
      assert Both(p, q)(s[0]) == (p(s[0]) && q(s[0]));
      if p(s[0]) {
        var f := Filter(s, p);
        assert f == [s[0]] + Filter(s[1..], p);
        assert f[0] == s[0] && f[1..] == Filter(s[1..], p);
      } else {
        assert Filter(s, p) == Filter(s[1..], p);
      }
    }
  }

  /** `a` can be obtained from `b` by deleting elements (order is kept). */
  predicate Subsequence<T(==)>(a: seq<T>, b: seq<T>)
  {
    if |a| == 0 then true
    else if |b| == 0 then false
    else if a[0] == b[0] then Subsequence(a[1..], b[1..])
    else Subsequence(a, b[1..])
  }

  lemma {:induction false} FilterIsSubsequence<T>(s: seq<T>, p: T -> bool)
    ensures Subsequence(Filter(s, p), s)
  {
    if |s| > 0 {
      FilterIsSubsequence(s[1..], p);
      if p(s[0]) {
        assert Filter(s, p) == [s[0]] + Filter(s[1..], p);
        assert Filter(s, p)[1..] == Filter(s[1..], p);
      } else {
        assert Filter(s, p) == Filter(s[1..], p);
      }
    }
  }

  /** Sum of `f` over the elements of `s` (a `reduce` with initial value 0). */
  function Sum<T>(s: seq<T>, f: T -> int): int
  {
    if |s| == 0 then 0 else f(s[0]) + Sum(s[1..], f)
  }

  lemma {:induction false} SumAppend<T>(a: seq<T>, b: seq<T>, f: T -> int)
    ensures Sum(a + b, f) == Sum(a, f) + Sum(b, f)
  {
    if |a| > 0 {
      assert (a + b)[1..] == a[1..] + b;
      SumAppend(a[1..], b, f);
    } else {
      assert a + b == b;
    }
  }

  /** With non-negative summands, every summand is at most the sum. */
  lemma {:induction false} SumBoundsElement<T>(s: seq<T>, f: T -> int, i: nat)
    requires i < |s|
    requires forall j :: 0 <= j < |s| ==> f(s[j]) >= 0
    ensures f(s[i]) <= Sum(s, f)
    ensures Sum(s, f) >= 0
  {
    if i == 0 {
      SumNonNegative(s[1..], f);
    } else {
      SumBoundsElement(s[1..], f, i - 1);
    }
  }

  lemma {:induction false} SumNonNegative<T>(s: seq<T>, f: T -> int)
    requires forall j :: 0 <= j < |s| ==> f(s[j]) >= 0
    ensures Sum(s, f) >= 0
  {
    if |s| > 0 {
      SumNonNegative(s[1..], f);
    }
  }

  /** `f` applied to every element, in order (Array.prototype.map). */
  function Map<T, U>(s: seq<T>, f: T -> U): (r: seq<U>)
    ensures |r| == |s| && forall i :: 0 <= i < |s| ==> r[i] == f(s[i])
  {
    seq(|s|, i requires 0 <= i < |s| => f(s[i]))
  }

  lemma MapAppend<T, U>(a: seq<T>, b: seq<T>, f: T -> U)
    ensures Map(a + b, f) == Map(a, f) + Map(b, f)
  {
  }

  /** `f` applied to every element in order, failing as a whole when it fails on any element. */
  function MapAll<T, U>(s: seq<T>, f: T -> Option<U>): (r: Option<seq<U>>)
    ensures r.None? <==> exists i :: 0 <= i < |s| && f(s[i]).None?
    ensures r.Some? ==> |r.value| == |s| && forall i :: 0 <= i < |s| ==> Some(r.value[i]) == f(s[i])
    decreases |s|
  {
    if |s| == 0 then Some([])
    else
      match f(s[0])
      case None => None
      case Some(x) =>
        var rest := MapAll(s[1..], f);
        assert forall i :: 1 <= i < |s| ==> s[i] == s[1..][i - 1];
        match rest
        case None => None
        case Some(xs) => Some([x] + xs)
  }

  lemma MapCons<T, U>(s: seq<T>, f: T -> U)
    requires |s| > 0
    ensures Map(s, f) == [f(s[0])] + Map(s[1..], f)
  {
  }

  lemma AppendAssoc<T>(a: seq<T>, b: seq<T>, c: seq<T>)
    ensures a + (b + c) == (a + b) + c
  {
  }

  /** `a` and `b` have the same length and are related position by position. */
  predicate Pointwise<T, U>(a: seq<T>, b: seq<U>, rel: (T, U) -> bool)
  {
    |a| == |b| && forall i :: 0 <= i < |a| ==> rel(a[i], b[i])
  }

  lemma PointwiseCons<T, U>(x: T, a: seq<T>, y: U, b: seq<U>, rel: (T, U) -> bool)
    requires Pointwise(a, b, rel) && rel(x, y)
    ensures Pointwise([x] + a, [y] + b, rel)
  {
    assert forall i :: 0 < i < |a| + 1 ==> ([x] + a)[i] == a[i - 1] && ([y] + b)[i] == b[i - 1];
  }
}
