/**
  The post-order rollup of `aggregateTree`: every node with children ends up with its own tokens
  plus its children's aggregated tokens, the latest non-empty date among itself and its children,
  and its children sorted by path.
 */
module Aggregator {
  import opened Common
  import opened Strings
  import opened Sorting
  import opened Tree
  import opened TreeBuilder

  /** The child order: `a.path.localeCompare(b.path)` not positive. */
  function PathOrder(cmp: (string, string) -> int): (TreeNode, TreeNode) -> bool
  {
    (a: TreeNode, b: TreeNode) => cmp(a.path, b.path) <= 0
  }

  /** The greatest of some strings under string `<`. */
  function MaxString(ds: seq<string>): (r: string)
    requires |ds| > 0
    ensures r in ds
    ensures forall i :: 0 <= i < |ds| ==> !Less(r, ds[i])
  {
    if |ds| == 1 then LessIrreflexive(ds[0]); ds[0]
    else
      var m := MaxString(ds[1..]);
      assert forall i :: 1 <= i < |ds| ==> ds[i] == ds[1..][i - 1];
      if Less(m, ds[0]) then
        LessIrreflexive(ds[0]);
        assert forall i :: 1 <= i < |ds| ==> !Less(ds[0], ds[i]) by {
          forall i | 1 <= i < |ds|
            ensures !Less(ds[0], ds[i])
          {
            if Less(ds[0], ds[i]) {
              LessTransitive(m, ds[0], ds[i]);
            }
          }
        }
        ds[0]
      else m
  }

  function NonEmpty(s: string): bool
  {
    s != ""
  }

  /**
    The date a parent takes: the first of its own and its children's dates after dropping empty
    ones and sorting descending, or its own date when all are empty. That is the latest of them.
   */
  function LatestDate(own: string, cs: seq<TreeNode>): (r: string)
    ensures r == own || exists i :: 0 <= i < |cs| && r == cs[i].lastUpdated
    ensures !Less(r, own)
    ensures forall i :: 0 <= i < |cs| ==> !Less(r, cs[i].lastUpdated)
  {
    var all := [own] + Map(cs, NodeDate);
    LatestBounds(all);
    LatestAmongDates(own, cs, Latest(all));
    Latest(all)
  }

  /** The first of some dates once the empty ones are dropped and the rest sorted descending; the first date if all are empty. */
  function Latest(all: seq<string>): string
    requires |all| > 0
  {
    var ds := Filter(all, NonEmpty);
    if |ds| == 0 then all[0] else MaxString(ds)
  }

  /** `Latest` picks one of the dates, and none is later. */
  lemma LatestBounds(all: seq<string>)
    requires |all| > 0
    ensures Latest(all) in all
    ensures forall i :: 0 <= i < |all| ==> !Less(Latest(all), all[i])
  {
    var ds := Filter(all, NonEmpty);
    var r := Latest(all);
    forall i | 0 <= i < |all|
      ensures !Less(r, all[i])
    {
      if all[i] == "" {
        assert !Less(r, all[i]);
      } else {
        assert all[i] in ds;
      }
    }
  }

  /** A date among a node's own and its children's dates, not before any of them. */
  lemma LatestAmongDates(own: string, cs: seq<TreeNode>, r: string)
    requires var all := [own] + Map(cs, NodeDate);
      r in all && forall i :: 0 <= i < |all| ==> !Less(r, all[i])
    ensures r == own || exists i :: 0 <= i < |cs| && r == cs[i].lastUpdated
    ensures !Less(r, own)
    ensures forall i :: 0 <= i < |cs| ==> !Less(r, cs[i].lastUpdated)
  {
    var all := [own] + Map(cs, NodeDate);
    var dates := Map(cs, NodeDate);
    assert |all| == |cs| + 1 && all[0] == own && all[1..] == dates;
    DatesAfterOwn(own, cs, r, all);
    var j :| 0 <= j < |all| && all[j] == r;
    if j > 0 {
      assert all[j] == dates[j - 1];
    }
  }

  lemma DatesAfterOwn(own: string, cs: seq<TreeNode>, r: string, all: seq<string>)
    requires all == [own] + Map(cs, NodeDate)
    requires forall i :: 0 <= i < |all| ==> !Less(r, all[i])
    ensures !Less(r, own)
    ensures forall i :: 0 <= i < |cs| ==> !Less(r, cs[i].lastUpdated)
  {
    assert all[0] == own;
    forall i | 0 <= i < |cs|
      ensures !Less(r, cs[i].lastUpdated)
    {
      assert all[i + 1] == cs[i].lastUpdated;
    }
  }

  /** `aggregateTree`; `cmp` stands for `localeCompare`. */
  function Aggregate(n: TreeNode, cmp: (string, string) -> int): (r: TreeNode)
    ensures |n.children| == 0 ==> r == n
    ensures && r.path == n.path && r.title == n.title && r.description == n.description
            && r.contentFile == n.contentFile && r.depth == n.depth
    ensures multiset(r.children) == multiset(AggregateEach(n.children, cmp))
    ensures r.tokenCount == n.tokenCount + ChildTokens(r)
    ensures |n.children| > 0 ==>
      && (r.lastUpdated == n.lastUpdated || exists i :: 0 <= i < |r.children| && r.lastUpdated == r.children[i].lastUpdated)
      && !Less(r.lastUpdated, n.lastUpdated)
      && forall i :: 0 <= i < |r.children| ==> !Less(r.lastUpdated, r.children[i].lastUpdated)
    decreases n
  {
    if |n.children| == 0 then n
    else
      var sorted := Sort(AggregateEach(n.children, cmp), PathOrder(cmp));
      SortPermutes(AggregateEach(n.children, cmp), PathOrder(cmp));
      SumNonNegative(sorted, TokenOf);
      n.(children := sorted,
         tokenCount := n.tokenCount + Sum(sorted, TokenOf),
         lastUpdated := LatestDate(n.lastUpdated, sorted))
  }

  /** The node's own part survives aggregation: its title, its content file, and its tokens once the children's are taken off. */
  lemma AggregateKeepsOwn(n: TreeNode, cmp: (string, string) -> int)
    ensures var a := Aggregate(n, cmp);
      a.title == n.title && a.contentFile == n.contentFile && a.tokenCount - ChildTokens(a) == n.tokenCount
  {
  }

  /** `node.children.map(aggregateTree)`. */
  function AggregateEach(cs: seq<TreeNode>, cmp: (string, string) -> int): (r: seq<TreeNode>)
    ensures |r| == |cs|
    ensures forall i :: 0 <= i < |cs| ==> r[i] == Aggregate(cs[i], cmp)
    decreases cs
  {
    if |cs| == 0 then [] else [Aggregate(cs[0], cmp)] + AggregateEach(cs[1..], cmp)
  }

  /** Aggregation only reorders the children: the multiset of their paths is unchanged. */
  lemma AggregateKeepsChildPaths(n: TreeNode, cmp: (string, string) -> int)
    ensures multiset(ChildPaths(Aggregate(n, cmp))) == multiset(ChildPaths(n))
  {
    if |n.children| > 0 {
      var each := AggregateEach(n.children, cmp);
      assert Aggregate(n, cmp).children == Sort(each, PathOrder(cmp));
      MapSort(each, PathOrder(cmp), NodePath);
      AggregateEachPaths(n.children, cmp);
    }
  }

  lemma AggregateEachPaths(cs: seq<TreeNode>, cmp: (string, string) -> int)
    ensures Map(AggregateEach(cs, cmp), NodePath) == Map(cs, NodePath)
  {
    var each := AggregateEach(cs, cmp);
    assert forall i :: 0 <= i < |cs| ==> NodePath(each[i]) == NodePath(cs[i]);
  }

  /** Each child list of the aggregated tree, at every depth, is ordered by path. */
  predicate SortedTree(n: TreeNode, cmp: (string, string) -> int)
    decreases n
  {
    Sorted(n.children, PathOrder(cmp)) && forall i :: 0 <= i < |n.children| ==> SortedTree(n.children[i], cmp)
  }

  lemma PathOrderTotal(cmp: (string, string) -> int)
    requires Comparator(cmp)
    ensures TotalPreorder(PathOrder(cmp))
  {
    var le := PathOrder(cmp);
    forall a: TreeNode, b: TreeNode
      ensures le(a, b) || le(b, a)
    {
      assert cmp(a.path, b.path) <= 0 || cmp(b.path, a.path) <= 0;
    }
    forall a: TreeNode, b: TreeNode, c: TreeNode | le(a, b) && le(b, c)
      ensures le(a, c)
    {
      assert cmp(a.path, b.path) <= 0 && cmp(b.path, c.path) <= 0;
    }
  }

  lemma {:induction false} AggregateSorted(n: TreeNode, cmp: (string, string) -> int)
    requires Comparator(cmp)
    ensures SortedTree(Aggregate(n, cmp), cmp)
    decreases n
  {
    if |n.children| > 0 {
      var each := AggregateEach(n.children, cmp);
      forall j | 0 <= j < |each|
        ensures SortedTree(each[j], cmp)
      {
        AggregateSorted(n.children[j], cmp);
      }
      PathOrderTotal(cmp);
      SortSorted(each, PathOrder(cmp));
      SortedParent(Aggregate(n, cmp), each, cmp);
    }
  }

  /** A node whose sorted children are a permutation of sorted subtrees is a sorted subtree. */
  lemma SortedParent(r: TreeNode, each: seq<TreeNode>, cmp: (string, string) -> int)
    requires multiset(r.children) == multiset(each)
    requires Sorted(r.children, PathOrder(cmp))
    requires forall j :: 0 <= j < |each| ==> SortedTree(each[j], cmp)
    ensures SortedTree(r, cmp)
  {
    forall i | 0 <= i < |r.children|
      ensures SortedTree(r.children[i], cmp)
    {
      assert r.children[i] in multiset(r.children);
      assert r.children[i] in each;
    }
  }

  /** The tokens of every node of the subtree, each counted once. */
  function TotalOwn(n: TreeNode): int
  {
    Sum(PreOrder(n), TokenOf)
  }

  /** After aggregation a node's count is the sum of the original counts of its whole subtree. */
  lemma {:induction false} AggregateTotal(n: TreeNode, cmp: (string, string) -> int)
    ensures Aggregate(n, cmp).tokenCount == TotalOwn(n)
    decreases n, 1
  {
    var r := Aggregate(n, cmp);
    SumAppend([n], PreOrderAll(n.children), TokenOf);
    if |n.children| > 0 {
      var each := AggregateEach(n.children, cmp);
      assert r.children == Sort(each, PathOrder(cmp));
      SumSort(each, PathOrder(cmp), TokenOf);
      EachTotal(n.children, cmp);
    }
  }

  lemma {:induction false} EachTotal(cs: seq<TreeNode>, cmp: (string, string) -> int)
    ensures Sum(AggregateEach(cs, cmp), TokenOf) == Sum(PreOrderAll(cs), TokenOf)
    decreases cs, 0
  {
    if |cs| > 0 {
      AggregateTotal(cs[0], cmp);
      EachTotal(cs[1..], cmp);
      SumAppend(PreOrder(cs[0]), PreOrderAll(cs[1..]), TokenOf);
    }
  }

  /** With non-negative counts, a parent's aggregated count is at least each child's. */
  lemma AggregateParentBound(n: TreeNode, cmp: (string, string) -> int, i: nat)
    requires i < |Aggregate(n, cmp).children|
    ensures Aggregate(n, cmp).children[i].tokenCount <= Aggregate(n, cmp).tokenCount
  {
    var r := Aggregate(n, cmp);
    SumBoundsElement(r.children, TokenOf, i);
  }

  lemma AggregateGrows(n: TreeNode, cmp: (string, string) -> int)
    ensures Aggregate(n, cmp).tokenCount >= n.tokenCount
  {
    SumNonNegative(Aggregate(n, cmp).children, TokenOf);
  }

  lemma {:induction false} EachGrows(cs: seq<TreeNode>, cmp: (string, string) -> int)
    ensures Sum(AggregateEach(cs, cmp), TokenOf) >= Sum(cs, TokenOf)
  {
    if |cs| > 0 {
      AggregateGrows(cs[0], cmp);
      EachGrows(cs[1..], cmp);
    }
  }

  /** The rollup is not idempotent: running it again counts the children's tokens a second time. */
  lemma AggregateTwiceGrows(n: TreeNode, cmp: (string, string) -> int)
    requires ChildTokens(Aggregate(n, cmp)) > 0
    ensures Aggregate(Aggregate(n, cmp), cmp).tokenCount > Aggregate(n, cmp).tokenCount
  {
    var a := Aggregate(n, cmp);
    var b := Aggregate(a, cmp);
    assert |a.children| > 0;
    var each := AggregateEach(a.children, cmp);
    SumSort(each, PathOrder(cmp), TokenOf);
    EachGrows(a.children, cmp);
  }
}
