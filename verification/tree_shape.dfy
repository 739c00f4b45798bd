/**
  The shape every tree built from pages has, and what it buys: each path has one place where its
  node can be, so looking a path up in a node amounts to looking it up in the one child whose
  domain holds it.
 */
module TreeShape {
  import opened Common
  import opened Strings
  import opened Paths
  import opened Tree

  predicate IsPrefix(a: seq<string>, b: seq<string>)
  {
    |a| <= |b| && b[..|a|] == a
  }

  /**
    Where a child may sit below its parent: one segment deeper and under the parent's segments, or
    (below the root only) a path with no segments that is not `/` itself, such as `""` or `//`.
   */
  predicate ChildShape(parent: string, child: string)
  {
    var P := Segments(parent);
    var C := Segments(child);
    (|C| == |P| + 1 && IsPrefix(P, C)) || (|P| == 0 && |C| == 0 && !Normal(child))
  }

  /**
    The invariant of a built tree: depth is the segment count, only normalised paths have
    children, siblings have distinct paths, and every child has the shape above.
   */
  predicate Good(n: TreeNode)
    decreases n
  {
    && n.depth == |Segments(n.path)|
    && (|n.children| > 0 ==> Normal(n.path))
    && DistinctPaths(n.children)
    && (forall k :: 0 <= k < |n.children| ==> ChildShape(n.path, n.children[k].path) && Good(n.children[k]))
  }

  /**
    The paths whose node, if there is one, lies in the subtree rooted at a node with path `p`:
    `p` itself and, when `p` is normalised, every path strictly below it (everything, for `/`).
   */
  predicate InDomain(x: string, p: string)
  {
    || x == p
    || (&& Normal(p)
        && IsPrefix(Segments(p), Segments(x))
        && (|Segments(x)| > |Segments(p)| || |Segments(p)| == 0))
  }

  lemma RootNormal()
    ensures Segments("/") == [] && Normal("/")
  {
    assert Split("/", '/') == [""] + Split("", '/');
    assert Split("/", '/') == ["", ""];
  }

  lemma PrefixTransitive(a: seq<string>, b: seq<string>, c: seq<string>)
    requires IsPrefix(a, b) && IsPrefix(b, c)
    ensures IsPrefix(a, c)
  {
    assert c[..|a|] == c[..|b|][..|a|];
  }

  /** A child's domain lies inside its parent's. */
  lemma DomainNested(p: string, d: string, x: string)
    requires Normal(p) && ChildShape(p, d) && InDomain(x, d)
    ensures InDomain(x, p)
  {
    if x != d {
      PrefixTransitive(Segments(p), Segments(d), Segments(x));
    }
  }

  /** The domains of two different children of one parent do not meet. */
  lemma DomainsDisjoint(p: string, a: string, b: string, x: string)
    requires ChildShape(p, a) && ChildShape(p, b) && a != b
    requires InDomain(x, a)
    ensures !InDomain(x, b)
  {
  }

  /** A parent's own path is in none of its children's domains. */
  lemma ParentOutsideChild(p: string, d: string)
    requires Normal(p) && ChildShape(p, d)
    ensures !InDomain(p, d)
  {
  }

  lemma {:induction false} GetAllNone(cs: seq<TreeNode>, x: string)
    requires forall j :: 0 <= j < |cs| ==> Get(cs[j], x).None?
    ensures GetAll(cs, x).None?
  {
    if |cs| > 0 {
      GetAllNone(cs[1..], x);
    }
  }

  lemma {:induction false} GetAllOnly(cs: seq<TreeNode>, k: nat, x: string)
    requires k < |cs|
    requires forall j :: 0 <= j < |cs| && j != k ==> Get(cs[j], x).None?
    ensures GetAll(cs, x) == Get(cs[k], x)
  {
    if k == 0 {
      GetAllNone(cs[1..], x);
    } else {
      GetAllOnly(cs[1..], k - 1, x);
    }
  }

  lemma {:induction false} GetAllWitness(cs: seq<TreeNode>, x: string) returns (k: nat)
    requires GetAll(cs, x).Some?
    ensures k < |cs| && Get(cs[k], x) == GetAll(cs, x)
  {
    if Get(cs[0], x).Some? {
      k := 0;
    } else {
      var k' := GetAllWitness(cs[1..], x);
      k := k' + 1;
    }
  }

  /** Whatever a lookup finds in a well-shaped subtree lies in the subtree's domain. */
  lemma {:induction false} GetInDomain(c: TreeNode, x: string)
    requires Good(c) && Get(c, x).Some?
    ensures InDomain(x, c.path)
    decreases c
  {
    if x != c.path {
      var k := GetAllWitness(c.children, x);
      var d := c.children[k];
      GetInDomain(d, x);
      DomainNested(c.path, d.path, x);
    }
  }

  /** A lookup of a path in one child's domain goes to that child. */
  lemma GetAt(n: TreeNode, k: nat, x: string)
    requires Good(n) && x != n.path
    requires k < |n.children| && InDomain(x, n.children[k].path)
    ensures Get(n, x) == Get(n.children[k], x)
  {
    forall j | 0 <= j < |n.children| && j != k
      ensures Get(n.children[j], x).None?
    {
      DomainsDisjoint(n.path, n.children[k].path, n.children[j].path, x);
      if Get(n.children[j], x).Some? {
        GetInDomain(n.children[j], x);
      }
    }
    GetAllOnly(n.children, k, x);
  }

  /** A lookup of a path in no child's domain (and not the node's own) finds nothing. */
  lemma GetOutside(n: TreeNode, x: string)
    requires Good(n) && x != n.path
    requires forall j :: 0 <= j < |n.children| ==> !InDomain(x, n.children[j].path)
    ensures Get(n, x).None?
  {
    forall j | 0 <= j < |n.children|
      ensures Get(n.children[j], x).None?
    {
      if Get(n.children[j], x).Some? {
        GetInDomain(n.children[j], x);
      }
    }
    GetAllNone(n.children, x);
  }

  /** The child responsible for `x`, if any, with the lookup delegated to it. */
  lemma GetViaDomain(n: TreeNode, x: string) returns (o: Option<nat>)
    requires Good(n) && x != n.path
    ensures o.None? ==> Get(n, x).None? && forall j :: 0 <= j < |n.children| ==> !InDomain(x, n.children[j].path)
    ensures o.Some? ==> o.value < |n.children| && InDomain(x, n.children[o.value].path)
    ensures o.Some? ==> Get(n, x) == Get(n.children[o.value], x)
  {
    if j :| 0 <= j < |n.children| && InDomain(x, n.children[j].path) {
      GetAt(n, j, x);
      o := Some(j);
    } else {
      GetOutside(n, x);
      o := None;
    }
  }

  /** Replacing a child by a well-shaped node with the same path keeps the parent well-shaped. */
  lemma GoodReplace(n: TreeNode, k: nat, c: TreeNode)
    requires Good(n) && k < |n.children|
    requires Good(c) && c.path == n.children[k].path
    ensures Good(n.(children := n.children[k := c]))
  {
    var r := n.(children := n.children[k := c]);
    assert forall j :: 0 <= j < |r.children| ==> r.children[j].path == n.children[j].path;
  }

  /** Appending a well-shaped child with a fresh path and the right shape keeps the parent well-shaped. */
  lemma GoodAppend(n: TreeNode, c: TreeNode)
    requires Good(n) && Normal(n.path)
    requires Good(c) && ChildShape(n.path, c.path)
    requires forall j :: 0 <= j < |n.children| ==> n.children[j].path != c.path
    ensures Good(n.(children := n.children + [c]))
  {
  }

  predicate AllInDomain(s: seq<TreeNode>, p: string)
  {
    forall i :: 0 <= i < |s| ==> InDomain(s[i].path, p)
  }

  predicate NoneInDomain(s: seq<TreeNode>, p: string)
  {
    forall i :: 0 <= i < |s| ==> !InDomain(s[i].path, p)
  }

  predicate NoneWithPath(s: seq<TreeNode>, p: string)
  {
    forall i :: 0 <= i < |s| ==> s[i].path != p
  }

  /** In a well-shaped subtree every node lies in the root's domain, and no path occurs twice. */
  lemma {:induction false} PreOrderShape(c: TreeNode)
    requires Good(c)
    ensures DistinctPaths(PreOrder(c)) && AllInDomain(PreOrder(c), c.path)
    decreases c, 1
  {
    assert c.children[0..] == c.children;
    PreOrderAllShape(c, 0);
    var t := PreOrderAll(c.children);
    assert PreOrder(c) == [c] + t;
  }

  /** The pre-order of the children from the `j`-th on: distinct paths, inside the parent's domain, outside the earlier children's. */
  lemma {:induction false} PreOrderAllShape(n: TreeNode, j: nat)
    requires Good(n) && j <= |n.children|
    ensures var t := PreOrderAll(n.children[j..]);
      && DistinctPaths(t) && AllInDomain(t, n.path) && NoneWithPath(t, n.path)
      && forall k :: 0 <= k < j ==> NoneInDomain(t, n.children[k].path)
    decreases n, 0, |n.children| - j
  {
    if j < |n.children| {
      var d := n.children[j];
      assert n.children[j..][1..] == n.children[j + 1..];
      PreOrderShape(d);
      PreOrderAllShape(n, j + 1);
      var a := PreOrder(d);
      var b := PreOrderAll(n.children[j + 1..]);
      assert PreOrderAll(n.children[j..]) == a + b;
      ChildPartShape(n, j, a);
      ConcatShape(n, j, a, b);
    }
  }

  /** The nodes of the `j`-th child's subtree sit inside the parent's domain and outside the earlier children's. */
  lemma ChildPartShape(n: TreeNode, j: nat, a: seq<TreeNode>)
    requires Good(n) && j < |n.children| && AllInDomain(a, n.children[j].path)
    ensures AllInDomain(a, n.path) && NoneWithPath(a, n.path)
    ensures forall k :: 0 <= k < j ==> NoneInDomain(a, n.children[k].path)
  {
    var d := n.children[j];
    forall i | 0 <= i < |a|
      ensures InDomain(a[i].path, n.path) && a[i].path != n.path
    {
      DomainNested(n.path, d.path, a[i].path);
      ParentOutsideChild(n.path, d.path);
    }
    forall k, i | 0 <= k < j && 0 <= i < |a|
      ensures !InDomain(a[i].path, n.children[k].path)
    {
      DomainsDisjoint(n.path, d.path, n.children[k].path, a[i].path);
    }
  }

  lemma ConcatShape(n: TreeNode, j: nat, a: seq<TreeNode>, b: seq<TreeNode>)
    requires j < |n.children|
    requires DistinctPaths(a) && AllInDomain(a, n.path) && NoneWithPath(a, n.path)
    requires AllInDomain(a, n.children[j].path)
    requires forall k :: 0 <= k < j ==> NoneInDomain(a, n.children[k].path)
    requires DistinctPaths(b) && AllInDomain(b, n.path) && NoneWithPath(b, n.path)
    requires forall k :: 0 <= k < j + 1 ==> NoneInDomain(b, n.children[k].path)
    ensures var t := a + b;
      && DistinctPaths(t) && AllInDomain(t, n.path) && NoneWithPath(t, n.path)
      && forall k :: 0 <= k < j ==> NoneInDomain(t, n.children[k].path)
  {
    var t := a + b;
    assert NoneInDomain(b, n.children[j].path);
    forall i1, i2 | 0 <= i1 < i2 < |t|
      ensures t[i1].path != t[i2].path
    {
      if i1 < |a| && i2 >= |a| {
        assert t[i2] == b[i2 - |a|];
      } else if i1 >= |a| {
        assert t[i1] == b[i1 - |a|] && t[i2] == b[i2 - |a|];
      }
    }
    forall k | 0 <= k < j
      ensures NoneInDomain(t, n.children[k].path)
    {
      assert NoneInDomain(a, n.children[k].path) && NoneInDomain(b, n.children[k].path);
    }
  }
}
