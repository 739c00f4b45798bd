/**
  The indexer's data: crawled pages after processing (`ProcessedPage`) and the path tree built from
  them (`TreeNode`), with the traversals every later stage uses.
 */
module Tree {
  import opened Common

  /** One processed page: its site path, display metadata, cleaned markdown and token count. */
  datatype Page = Page(
    url: string,
    path: string,
    title: string,
    description: string,
    markdown: string,
    tokenCount: nat,
    lastUpdated: string)

  /**
    A node of the site tree. `contentFile` is absent for directory nodes created to fill path gaps;
    `tokenCount` and `lastUpdated` are a page's own values until aggregation rolls them up.
   */
  datatype TreeNode = TreeNode(
    path: string,
    title: string,
    description: string,
    tokenCount: nat,
    lastUpdated: string,
    children: seq<TreeNode>,
    contentFile: Option<string>,
    depth: nat)

  /** The JavaScript truthiness test `if (node.contentFile)`: present and non-empty. */
  predicate HasContent(n: TreeNode)
  {
    n.contentFile.Some? && n.contentFile.value != ""
  }

  /** Every node of the subtree, parents before children, children in list order. */
  function PreOrder(n: TreeNode): (r: seq<TreeNode>)
    ensures |r| >= 1 && r[0] == n
    decreases n
  {
    [n] + PreOrderAll(n.children)
  }

  function PreOrderAll(cs: seq<TreeNode>): seq<TreeNode>
    decreases cs
  {
    if |cs| == 0 then [] else PreOrder(cs[0]) + PreOrderAll(cs[1..])
  }

  function TokenOf(n: TreeNode): int
  {
    n.tokenCount
  }

  function NodePath(n: TreeNode): string
  {
    n.path
  }

  function NodeDate(n: TreeNode): string
  {
    n.lastUpdated
  }

  /** `node.children.map(c => c.path)`. */
  function ChildPaths(n: TreeNode): seq<string>
  {
    Map(n.children, NodePath)
  }

  /** `node.children.reduce((sum, c) => sum + c.tokenCount, 0)`. */
  function ChildTokens(n: TreeNode): int
  {
    Sum(n.children, TokenOf)
  }

  /** What a node says about its path, apart from the path itself and the children. */
  datatype Info = Info(
    title: string,
    description: string,
    tokenCount: nat,
    lastUpdated: string,
    contentFile: Option<string>,
    depth: nat)

  function InfoOf(n: TreeNode): Info
  {
    Info(n.title, n.description, n.tokenCount, n.lastUpdated, n.contentFile, n.depth)
  }

  /** The node stored under path `x`: the first one met in pre-order, if any. */
  function Get(n: TreeNode, x: string): Option<Info>
    decreases n
  {
    if n.path == x then Some(InfoOf(n)) else GetAll(n.children, x)
  }

  function GetAll(cs: seq<TreeNode>, x: string): Option<Info>
    decreases cs
  {
    if |cs| == 0 then None
    else match Get(cs[0], x)
      case Some(info) => Some(info)
      case None => GetAll(cs[1..], x)
  }

  /** No two nodes of the list share a path. */
  predicate DistinctPaths(s: seq<TreeNode>)
  {
    forall i, j :: 0 <= i < j < |s| ==> s[i].path != s[j].path
  }

  /** The information of the first node in `s` whose path is `x`. */
  function FirstInfo(s: seq<TreeNode>, x: string): (r: Option<Info>)
    ensures r.None? <==> forall i :: 0 <= i < |s| ==> s[i].path != x
    ensures r.Some? ==> exists i :: 0 <= i < |s| && s[i].path == x && r.value == InfoOf(s[i])
  {
    if |s| == 0 then None
    else if s[0].path == x then Some(InfoOf(s[0]))
    else
      var r := FirstInfo(s[1..], x);
      assert forall i :: 1 <= i < |s| ==> s[i] == s[1..][i - 1];
      r
  }

  lemma {:induction false} FirstInfoAppend(a: seq<TreeNode>, b: seq<TreeNode>, x: string)
    ensures FirstInfo(a + b, x) == if FirstInfo(a, x).Some? then FirstInfo(a, x) else FirstInfo(b, x)
  {
    if |a| > 0 {
      assert (a + b)[1..] == a[1..] + b;
      FirstInfoAppend(a[1..], b, x);
    } else {
      assert a + b == b;
    }
  }

  /** `Get` is the lookup of the first node in pre-order with the given path. */
  lemma {:induction false} GetIsFirstInPreOrder(n: TreeNode, x: string)
    ensures Get(n, x) == FirstInfo(PreOrder(n), x)
    decreases n, 1
  {
    GetAllIsFirst(n.children, x);
    FirstInfoAppend([n], PreOrderAll(n.children), x);
  }

  lemma {:induction false} GetAllIsFirst(cs: seq<TreeNode>, x: string)
    ensures GetAll(cs, x) == FirstInfo(PreOrderAll(cs), x)
    decreases cs, 0
  {
    if |cs| > 0 {
      GetIsFirstInPreOrder(cs[0], x);
      GetAllIsFirst(cs[1..], x);
      FirstInfoAppend(PreOrder(cs[0]), PreOrderAll(cs[1..]), x);
    }
  }
}
