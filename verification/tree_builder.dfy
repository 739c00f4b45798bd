/**
  Turning the flat list of processed pages into the site tree (`buildTree`, `insertNode`,
  `segmentToTitle`, `pathToContentFile`).

  The functions follow the source step by step. The lemmas describe the result through `Get`,
  the node stored under a path: after building, `Get` agrees with `Fold`, a per-path replay of the
  sorted pages that knows nothing about trees.
 */
module TreeBuilder {
  import opened Common
  import opened Strings
  import opened Sorting
  import opened Paths
  import opened Tree
  import opened TreeShape

  /** A `localeCompare`-style comparison whose "no later than" relation (`<= 0`) is total and transitive. */
  ghost predicate Comparator(cmp: (string, string) -> int)
  {
    && (forall a, b :: cmp(a, b) <= 0 || cmp(b, a) <= 0)
    && (forall a, b, c :: cmp(a, b) <= 0 && cmp(b, c) <= 0 ==> cmp(a, c) <= 0)
  }

  function PageDepth(p: Page): nat
  {
    |Segments(p.path)|
  }

  /**
    The sort order of `buildTree`: `aDepth - bDepth || a.path.localeCompare(b.path)`, read as
    "a may stay before b" when the comparison is not positive.
   */
  function PageOrder(cmp: (string, string) -> int): (Page, Page) -> bool
  {
    (a: Page, b: Page) =>
      PageDepth(a) < PageDepth(b) || (PageDepth(a) == PageDepth(b) && cmp(a.path, b.path) <= 0)
  }

  /** `pathToContentFile`: the root's file is `_root.md`, any other page's is its segments joined plus `.md`. */
  function PathToContentFile(path: string): (r: string)
    ensures path == "/" ==> r == "_root.md"
    ensures path != "/" && |Segments(path)| > 0 ==> r == Join(Segments(path), "/") + ".md"
    ensures path != "/" && |Segments(path)| == 0 ==> r == "undefined.md"
    ensures r != ""
  {
    if path == "/" then "_root.md"
    else
      var segs := Segments(path);
      if |segs| == 0 then
        // `segments.pop()!` yields `undefined`, which the template literal prints as text
        "undefined.md"
      else
        var last := segs[|segs| - 1];
        var init := segs[..|segs| - 1];
        if |init| == 0 then
          assert segs == [last];
          last + ".md"
        else
          assert segs == init + [last];
          JoinAppendOne(init, last, "/");
          Join(init, "/") + "/" + last + ".md"
  }

  /** `Array.prototype.find` on a children list: the first index whose node has path `p`. */
  function FindChild(cs: seq<TreeNode>, p: string): (r: Option<nat>)
    ensures r.Some? ==> r.value < |cs| && cs[r.value].path == p
    ensures r.None? ==> forall k :: 0 <= k < |cs| ==> cs[k].path != p
  {
    if |cs| == 0 then None
    else if cs[0].path == p then Some(0)
    else match FindChild(cs[1..], p)
      case Some(k) => Some(k + 1)
      case None => None
  }

  /** A directory node created to fill a path gap. */
  function Intermediate(path: string, segment: string, depth: nat, date: string): TreeNode
  {
    TreeNode(path, SegmentToTitle(segment), "", 0, date, [], None, depth)
  }

  /** The node a page creates when its path is new. */
  function NewPageNode(page: Page, depth: nat): TreeNode
  {
    TreeNode(page.path, page.title, page.description, page.tokenCount, page.lastUpdated, [],
      Some(PathToContentFile(page.path)), depth)
  }

  /** A duplicate path: the page's fields replace the node's, its children and depth stay. */
  function Overwrite(n: TreeNode, page: Page): TreeNode
  {
    n.(title := page.title, description := page.description, tokenCount := page.tokenCount,
       lastUpdated := page.lastUpdated, contentFile := Some(PathToContentFile(page.path)))
  }

  /**
    `insertNode` from the `i`-th step of its walk on: `n` is the current node, `segs` the page's
    segments. The current node's own fields never change.
   */
  function InsertAt(n: TreeNode, segs: seq<string>, i: nat, page: Page): (r: TreeNode)
    ensures r.path == n.path && InfoOf(r) == InfoOf(n)
    decreases |segs| - i
  {
    if i + 1 < |segs| then
      var partialPath := PathOf(segs[..i + 1]);
      match FindChild(n.children, partialPath)
      case Some(k) =>
        n.(children := n.children[k := InsertAt(n.children[k], segs, i + 1, page)])
      case None =>
        var child := Intermediate(partialPath, segs[i], i + 1, page.lastUpdated);
        n.(children := n.children + [InsertAt(child, segs, i + 1, page)])
    else
      match FindChild(n.children, page.path)
      case Some(k) => n.(children := n.children[k := Overwrite(n.children[k], page)])
      case None => n.(children := n.children + [NewPageNode(page, |segs|)])
  }

  function InsertNode(root: TreeNode, page: Page): TreeNode
  {
    InsertAt(root, Segments(page.path), 0, page)
  }

  /** The insertion loop of `buildTree`: root pages are skipped, every other page is inserted in turn. */
  function InsertAll(root: TreeNode, pages: seq<Page>): (r: TreeNode)
    ensures r.path == root.path && InfoOf(r) == InfoOf(root)
    decreases |pages|
  {
    if |pages| == 0 then root
    else InsertAll(if pages[0].path == "/" then root else InsertNode(root, pages[0]), pages[1..])
  }

  /** `Array.prototype.find(p => p.path === '/')`. */
  function FindRootPage(pages: seq<Page>): (r: Option<Page>)
    ensures r.Some? ==> r.value.path == "/" && r.value in pages
    ensures r.None? ==> forall i :: 0 <= i < |pages| ==> pages[i].path != "/"
  {
    if |pages| == 0 then None
    else if pages[0].path == "/" then Some(pages[0])
    else FindRootPage(pages[1..])
  }

  /** The root before any insertion: seeded by the root page if there is one, else a `Home` placeholder. */
  function InitialRoot(rootPage: Option<Page>, today: string): TreeNode
  {
    TreeNode(
      "/",
      if rootPage.Some? then rootPage.value.title else "Home",
      if rootPage.Some? then rootPage.value.description else "",
      if rootPage.Some? then rootPage.value.tokenCount else 0,
      if rootPage.Some? then rootPage.value.lastUpdated else today,
      [],
      if rootPage.Some? then Some("_root.md") else None,
      0)
  }

  function SortPages(pages: seq<Page>, cmp: (string, string) -> int): seq<Page>
  {
    Sort(pages, PageOrder(cmp))
  }

  /**
    `buildTree`. `cmp` stands for `String.prototype.localeCompare`; `today` is the date the clock
    reports, used only when there is no root page.
   */
  function BuildTree(pages: seq<Page>, cmp: (string, string) -> int, today: string): TreeNode
  {
    var sorted := SortPages(pages, cmp);
    InsertAll(InitialRoot(FindRootPage(sorted), today), sorted)
  }

  /** What a page stores under its own path. */
  function PageInfo(page: Page): Info
  {
    Info(page.title, page.description, page.tokenCount, page.lastUpdated,
      Some(PathToContentFile(page.path)), |Segments(page.path)|)
  }

  /** What a directory created at path `x` by a page dated `date` stores. */
  function IntermediateInfo(x: string, date: string): Info
    requires |Segments(x)| > 0
  {
    var S := Segments(x);
    Info(SegmentToTitle(S[|S| - 1]), "", 0, date, None, |S|)
  }

  /** `x` is one of the directories a page at `p` is filed under: a normalised path made of a non-empty proper prefix of its segments. */
  predicate IsProperAncestor(x: string, p: string)
  {
    Normal(x) && 0 < |Segments(x)| < |Segments(p)| && IsPrefix(Segments(x), Segments(p))
  }

  /**
    What is stored under `x` after the insertion walk of `page` has run from depth `level` on, when
    `prev` was stored before: the page itself at its own path, a fresh directory at each missing
    ancestor below `level`, and otherwise what was there.
   */
  function Expect(prev: Option<Info>, page: Page, x: string, level: nat): Option<Info>
  {
    if x == page.path then Some(PageInfo(page))
    else if prev.None? && IsProperAncestor(x, page.path) && |Segments(x)| > level then
      Some(IntermediateInfo(x, page.lastUpdated))
    else prev
  }

  /** One iteration of the insertion loop, seen from the single path `x`. */
  function Step(prev: Option<Info>, page: Page, x: string): Option<Info>
  {
    if page.path == "/" then prev else Expect(prev, page, x, 0)
  }

  /** The insertion loop seen from the single path `x`: no tree, only what is stored under `x`. */
  function Fold(v: Option<Info>, pages: seq<Page>, x: string): Option<Info>
    decreases |pages|
  {
    if |pages| == 0 then v else Fold(Step(v, pages[0], x), pages[1..], x)
  }

  /** Where the insertion walk of `page` stands at step `i`: at a well-shaped node for the page's first `i` segments. */
  predicate WalkPos(n: TreeNode, page: Page, i: nat)
  {
    var segs := Segments(page.path);
    && page.path != "/"
    && (i < |segs| || (i == 0 && |segs| == 0))
    && Good(n) && Normal(n.path) && Segments(n.path) == segs[..i]
  }

  /** `r` is well-shaped and stores under every path what `Expect` says. */
  ghost predicate ViewAfter(r: TreeNode, n: TreeNode, page: Page, i: nat)
  {
    Good(r) && forall x :: Get(r, x) == Expect(Get(n, x), page, x, i)
  }

  lemma AncestorAtLevel(p: string, x: string, l: nat)
    requires l <= |Segments(p)|
    ensures IsProperAncestor(x, p) && |Segments(x)| == l ==> x == PathOf(Segments(p)[..l])
  {
  }

  /** The page and its ancestors deeper than `i` all lie in the domain of the walk's next directory. */
  lemma BelowNext(page: Page, i: nat, x: string)
    requires i + 1 < |Segments(page.path)|
    ensures (x == page.path || (IsProperAncestor(x, page.path) && |Segments(x)| > i))
      ==> InDomain(x, PathOf(Segments(page.path)[..i + 1]))
  {
    var segs := Segments(page.path);
    var T := segs[..i + 1];
    SegmentsOfPathOf(T);
    PathOfNormal(T);
    if IsProperAncestor(x, page.path) && |Segments(x)| > i {
      var S := Segments(x);
      assert S[..i + 1] == segs[..|S|][..i + 1];
      if |S| == i + 1 {
        assert S == T;
      }
    }
  }

  lemma {:induction false} InsertAtView(n: TreeNode, page: Page, i: nat)
    requires WalkPos(n, page, i)
    ensures ViewAfter(InsertAt(n, Segments(page.path), i, page), n, page, i)
    decreases |Segments(page.path)| - i, 2
  {
    var segs := Segments(page.path);
    if i + 1 < |segs| {
      match FindChild(n.children, PathOf(segs[..i + 1]))
      case Some(k) => DescendExisting(n, page, i, k);
      case None => DescendNew(n, page, i);
    } else {
      match FindChild(n.children, page.path)
      case Some(k) => LeafExisting(n, page, i, k);
      case None => LeafNew(n, page, i);
    }
  }

  lemma {:induction false} DescendExisting(n: TreeNode, page: Page, i: nat, k: nat)
    requires WalkPos(n, page, i)
    requires i + 1 < |Segments(page.path)|
    requires FindChild(n.children, PathOf(Segments(page.path)[..i + 1])) == Some(k)
    ensures ViewAfter(InsertAt(n, Segments(page.path), i, page), n, page, i)
    decreases |Segments(page.path)| - i, 1
  {
    var c' := DescendExistingShape(n, page, i, k);
    var r := InsertAt(n, Segments(page.path), i, page);
    NodeUntouched(n, page, i);
    forall x
      ensures Get(r, x) == Expect(Get(n, x), page, x, i)
    {
      DescendAt(n, r, page, i, k, x);
    }
  }

  /** The walk goes on inside the existing child `k`; only that child changes and the result is a well-shaped tree. */
  lemma {:induction false} DescendExistingShape(n: TreeNode, page: Page, i: nat, k: nat) returns (c': TreeNode)
    requires WalkPos(n, page, i)
    requires i + 1 < |Segments(page.path)|
    requires FindChild(n.children, PathOf(Segments(page.path)[..i + 1])) == Some(k)
    ensures k < |n.children| && ViewAfter(c', n.children[k], page, i + 1) && c'.path == n.children[k].path
    ensures var r := InsertAt(n, Segments(page.path), i, page);
      Good(r) && r == n.(children := n.children[k := c'])
    decreases |Segments(page.path)| - i, 0
  {
    var segs := Segments(page.path);
    SegmentsOfPathOf(segs[..i + 1]);
    PathOfNormal(segs[..i + 1]);
    var c := n.children[k];
    assert segs[..i + 1][..i] == segs[..i];
    InsertAtView(c, page, i + 1);
    c' := InsertAt(c, segs, i + 1, page);
    assert InsertAt(n, segs, i, page) == n.(children := n.children[k := c']);
    GoodReplace(n, k, c');
  }

  /** One path's view after the walk went down into the existing child `k` and changed only it. */
  lemma DescendAt(n: TreeNode, r: TreeNode, page: Page, i: nat, k: nat, x: string)
    requires i + 1 < |Segments(page.path)|
    requires Good(n) && Good(r) && r.path == n.path && InfoOf(r) == InfoOf(n) && !Touched(page, n.path, i)
    requires k < |n.children| == |r.children|
    requires r.children[k].path == n.children[k].path == PathOf(Segments(page.path)[..i + 1])
    requires forall j :: 0 <= j < |n.children| && j != k ==> r.children[j] == n.children[j]
    requires Get(r.children[k], x) == Expect(Get(n.children[k], x), page, x, i + 1)
    ensures Get(r, x) == Expect(Get(n, x), page, x, i)
  {
    if x == n.path {
      ExpectUntouched(Get(n, x), page, x, i);
    } else {
      BelowNext(page, i, x);
      AncestorAtLevel(page.path, x, i + 1);
      ReplacedAt(n, r, page, i, k, PathOf(Segments(page.path)[..i + 1]), x);
    }
  }

  /** The paths an insertion walk from depth `i` on can change: the page's own and its ancestors deeper than `i`. */
  predicate Touched(page: Page, x: string, i: nat)
  {
    x == page.path || (IsProperAncestor(x, page.path) && |Segments(x)| > i)
  }

  /** The walk never changes the node it stands on. */
  lemma NodeUntouched(n: TreeNode, page: Page, i: nat)
    requires WalkPos(n, page, i)
    ensures !Touched(page, n.path, i)
  {
  }

  lemma ExpectUntouched(v: Option<Info>, page: Page, x: string, i: nat)
    requires !Touched(page, x, i)
    ensures Expect(v, page, x, i) == v
  {
  }

  lemma ExpectLevel(v: Option<Info>, page: Page, x: string, i: nat)
    requires !(v.None? && IsProperAncestor(x, page.path) && |Segments(x)| == i + 1)
    ensures Expect(v, page, x, i + 1) == Expect(v, page, x, i)
  {
  }

  /** One path's view when the walk went on inside the existing child `k` (for the directory `next`) or overwrote it (for the page). */
  lemma ReplacedAt(n: TreeNode, r: TreeNode, page: Page, i: nat, k: nat, next: string, x: string)
    requires Good(n) && Good(r) && r.path == n.path && x != n.path
    requires k < |n.children| == |r.children| && r.children[k].path == n.children[k].path == next
    requires forall j :: 0 <= j < |n.children| && j != k ==> r.children[j] == n.children[j]
    requires Get(r.children[k], x) == Expect(Get(n.children[k], x), page, x, i + 1)
    requires Touched(page, x, i) ==> InDomain(x, next)
    requires IsProperAncestor(x, page.path) && |Segments(x)| == i + 1 ==> x == next
    ensures Get(r, x) == Expect(Get(n, x), page, x, i)
  {
    var o := GetViaDomain(r, x);
    if o == Some(k) {
      GetAt(n, k, x);
      ExpectLevel(Get(n.children[k], x), page, x, i);
    } else if o.Some? {
      var j := o.value;
      GetAt(n, j, x);
      DomainsDisjoint(n.path, n.children[j].path, next, x);
      ExpectUntouched(Get(n, x), page, x, i);
    } else {
      GetOutside(n, x);
      ExpectUntouched(Get(n, x), page, x, i);
    }
  }

  /** One path's view when the walk appended a new child `next` holding `Expect(None, ..)`. */
  lemma AppendedAt(n: TreeNode, r: TreeNode, page: Page, i: nat, next: string, x: string)
    requires Good(n) && Good(r) && r.path == n.path && x != n.path
    requires |r.children| == |n.children| + 1 && r.children[|n.children|].path == next
    requires forall j :: 0 <= j < |n.children| ==> r.children[j] == n.children[j]
    requires Get(r.children[|n.children|], x) == Expect(None, page, x, i)
    requires Touched(page, x, i) ==> InDomain(x, next)
    ensures Get(r, x) == Expect(Get(n, x), page, x, i)
  {
    var o := GetViaDomain(r, x);
    if o == Some(|n.children|) {
      AppendedInNew(n, r, next, x);
    } else if o.Some? {
      AppendedInOld(n, r, next, x, o.value);
      ExpectUntouched(Get(n, x), page, x, i);
    } else {
      AppendedOutside(n, r, next, x);
      ExpectUntouched(Get(n, x), page, x, i);
    }
  }

  /** A path in no child's domain of the new tree is in none of the old tree's, nor the new child's. */
  lemma AppendedOutside(n: TreeNode, r: TreeNode, next: string, x: string)
    requires Good(n) && x != n.path
    requires |r.children| == |n.children| + 1 && r.children[|n.children|].path == next
    requires forall j :: 0 <= j < |n.children| ==> r.children[j] == n.children[j]
    requires forall j :: 0 <= j < |r.children| ==> !InDomain(x, r.children[j].path)
    ensures Get(n, x).None? && !InDomain(x, next)
  {
    assert forall j :: 0 <= j < |n.children| ==> !InDomain(x, n.children[j].path);
    GetOutside(n, x);
  }

  /** A path in the new child's domain was in no old child's domain, so the old tree did not hold it. */
  lemma AppendedInNew(n: TreeNode, r: TreeNode, next: string, x: string)
    requires Good(n) && Good(r) && r.path == n.path && x != n.path
    requires |r.children| == |n.children| + 1 && r.children[|n.children|].path == next
    requires forall j :: 0 <= j < |n.children| ==> r.children[j] == n.children[j]
    requires InDomain(x, next)
    ensures Get(n, x).None?
  {
    var K := |n.children|;
    forall j | 0 <= j < K
      ensures !InDomain(x, n.children[j].path)
    {
      assert r.children[j].path != r.children[K].path;
      DomainsDisjoint(n.path, next, n.children[j].path, x);
    }
    GetOutside(n, x);
  }

  /** A path in an old child's domain is looked up there in both trees and is outside the new child's domain. */
  lemma AppendedInOld(n: TreeNode, r: TreeNode, next: string, x: string, j: nat)
    requires Good(n) && Good(r) && r.path == n.path && x != n.path
    requires |r.children| == |n.children| + 1 && r.children[|n.children|].path == next
    requires forall j :: 0 <= j < |n.children| ==> r.children[j] == n.children[j]
    requires j < |n.children| && InDomain(x, n.children[j].path) && Get(r, x) == Get(r.children[j], x)
    ensures Get(r, x) == Get(n, x) && !InDomain(x, next)
  {
    GetAt(n, j, x);
    assert r.children[j].path != r.children[|n.children|].path;
    DomainsDisjoint(n.path, n.children[j].path, next, x);
  }

  /** A fresh directory for the walk's next step, once the walk has gone on inside it, holds what `Expect` says for an absent node. */
  lemma NewDirectoryAt(page: Page, i: nat, x: string, c: TreeNode)
    requires i + 1 < |Segments(page.path)|
    requires var segs := Segments(page.path);
      c == Intermediate(PathOf(segs[..i + 1]), segs[i], i + 1, page.lastUpdated)
    ensures Expect(Get(c, x), page, x, i + 1) == Expect(None, page, x, i)
  {
    var segs := Segments(page.path);
    var pp := PathOf(segs[..i + 1]);
    SegmentsOfPathOf(segs[..i + 1]);
    PathOfNormal(segs[..i + 1]);
    AncestorAtLevel(page.path, x, i + 1);
    if x == pp && x != page.path {
      assert IsProperAncestor(x, page.path);
    }
  }

  lemma {:induction false} DescendNew(n: TreeNode, page: Page, i: nat)
    requires WalkPos(n, page, i)
    requires i + 1 < |Segments(page.path)|
    requires FindChild(n.children, PathOf(Segments(page.path)[..i + 1])).None?
    ensures ViewAfter(InsertAt(n, Segments(page.path), i, page), n, page, i)
    decreases |Segments(page.path)| - i, 1
  {
    var segs := Segments(page.path);
    var c' := DescendNewShape(n, page, i);
    var r := InsertAt(n, segs, i, page);
    NodeUntouched(n, page, i);
    forall x
      ensures Get(r, x) == Expect(Get(n, x), page, x, i)
    {
      if x == n.path {
        ExpectUntouched(Get(n, x), page, x, i);
      } else {
        DescendNewAt(n, r, c', page, i, x);
      }
    }
  }

  /** The walk creates the next directory and goes on inside it; the result is a well-shaped tree. */
  lemma {:induction false} DescendNewShape(n: TreeNode, page: Page, i: nat) returns (c': TreeNode)
    requires WalkPos(n, page, i)
    requires i + 1 < |Segments(page.path)|
    requires FindChild(n.children, PathOf(Segments(page.path)[..i + 1])).None?
    ensures var segs := Segments(page.path);
      ViewAfter(c', Intermediate(PathOf(segs[..i + 1]), segs[i], i + 1, page.lastUpdated), page, i + 1)
    ensures c'.path == PathOf(Segments(page.path)[..i + 1])
    ensures var r := InsertAt(n, Segments(page.path), i, page);
      Good(r) && r == n.(children := n.children + [c'])
    decreases |Segments(page.path)| - i, 0
  {
    var segs := Segments(page.path);
    var child := Intermediate(PathOf(segs[..i + 1]), segs[i], i + 1, page.lastUpdated);
    NewDirectoryShape(n, page, i);
    InsertAtView(child, page, i + 1);
    c' := InsertAt(child, segs, i + 1, page);
    AppendDirectoryGood(n, page, i, c');
  }

  lemma AppendDirectoryGood(n: TreeNode, page: Page, i: nat, c': TreeNode)
    requires WalkPos(n, page, i)
    requires i + 1 < |Segments(page.path)|
    requires FindChild(n.children, PathOf(Segments(page.path)[..i + 1])).None?
    requires Good(c') && ChildShape(n.path, c'.path) && c'.path == PathOf(Segments(page.path)[..i + 1])
    requires var segs := Segments(page.path);
      c' == InsertAt(Intermediate(PathOf(segs[..i + 1]), segs[i], i + 1, page.lastUpdated), segs, i + 1, page)
    ensures var r := InsertAt(n, Segments(page.path), i, page);
      Good(r) && r == n.(children := n.children + [c'])
  {
    assert InsertAt(n, Segments(page.path), i, page) == n.(children := n.children + [c']);
    GoodAppend(n, c');
  }

  lemma DescendNewAt(n: TreeNode, r: TreeNode, c': TreeNode, page: Page, i: nat, x: string)
    requires i + 1 < |Segments(page.path)|
    requires var segs := Segments(page.path);
      ViewAfter(c', Intermediate(PathOf(segs[..i + 1]), segs[i], i + 1, page.lastUpdated), page, i + 1)
    requires c'.path == PathOf(Segments(page.path)[..i + 1])
    requires Good(n) && Good(r) && r == n.(children := n.children + [c']) && x != n.path
    ensures Get(r, x) == Expect(Get(n, x), page, x, i)
  {
    var segs := Segments(page.path);
    BelowNext(page, i, x);
    NewDirectoryAt(page, i, x, Intermediate(PathOf(segs[..i + 1]), segs[i], i + 1, page.lastUpdated));
    AppendedAt(n, r, page, i, c'.path, x);
  }

  /** The directory the walk creates is well-shaped, sits correctly below the current node, and is where the walk goes on. */
  lemma NewDirectoryShape(n: TreeNode, page: Page, i: nat)
    requires WalkPos(n, page, i) && i + 1 < |Segments(page.path)|
    ensures var segs := Segments(page.path);
      var child := Intermediate(PathOf(segs[..i + 1]), segs[i], i + 1, page.lastUpdated);
      Good(child) && ChildShape(n.path, child.path) && WalkPos(child, page, i + 1)
  {
    var segs := Segments(page.path);
    SegmentsOfPathOf(segs[..i + 1]);
    PathOfNormal(segs[..i + 1]);
    assert segs[..i + 1][..i] == segs[..i];
  }

  lemma OverwriteGood(c: TreeNode, page: Page)
    requires Good(c) && c.path == page.path
    ensures Good(Overwrite(c, page))
  {
  }

  /** Overwriting the page's node stores the page there and changes nothing below it. */
  lemma OverwriteAt(c: TreeNode, page: Page, i: nat, x: string)
    requires Good(c) && c.path == page.path && i + 1 >= |Segments(page.path)|
    ensures Get(Overwrite(c, page), x) == Expect(Get(c, x), page, x, i + 1)
  {
  }

  lemma {:induction false} LeafExisting(n: TreeNode, page: Page, i: nat, k: nat)
    requires WalkPos(n, page, i)
    requires i + 1 >= |Segments(page.path)|
    requires FindChild(n.children, page.path) == Some(k)
    ensures ViewAfter(InsertAt(n, Segments(page.path), i, page), n, page, i)
  {
    var segs := Segments(page.path);
    var c := n.children[k];
    var c' := Overwrite(c, page);
    var r := InsertAt(n, segs, i, page);
    assert r == n.(children := n.children[k := c']);
    OverwriteGood(c, page);
    GoodReplace(n, k, c');
    NodeUntouched(n, page, i);
    forall x
      ensures Get(r, x) == Expect(Get(n, x), page, x, i)
    {
      if x == n.path {
        ExpectUntouched(Get(n, x), page, x, i);
      } else {
        OverwriteAt(c, page, i, x);
        ReplacedAt(n, r, page, i, k, page.path, x);
      }
    }
  }

  lemma {:induction false} LeafNew(n: TreeNode, page: Page, i: nat)
    requires WalkPos(n, page, i)
    requires i + 1 >= |Segments(page.path)|
    requires FindChild(n.children, page.path).None?
    ensures ViewAfter(InsertAt(n, Segments(page.path), i, page), n, page, i)
  {
    var segs := Segments(page.path);
    var c' := NewPageNode(page, |segs|);
    var r := InsertAt(n, segs, i, page);
    assert r == n.(children := n.children + [c']);
    if |segs| > 0 {
      assert segs[..i] == segs[..|segs| - 1];
    }
    GoodAppend(n, c');
    NodeUntouched(n, page, i);
    forall x
      ensures Get(r, x) == Expect(Get(n, x), page, x, i)
    {
      if x == n.path {
        ExpectUntouched(Get(n, x), page, x, i);
      } else {
        AppendedAt(n, r, page, i, page.path, x);
      }
    }
  }

  /** The insertion loop keeps the tree well-shaped and stores under every path what the replay `Fold` computes. */
  lemma {:induction false} InsertAllView(root: TreeNode, pages: seq<Page>)
    requires Good(root) && root.path == "/"
    ensures Good(InsertAll(root, pages))
    ensures forall x :: Get(InsertAll(root, pages), x) == Fold(Get(root, x), pages, x)
    decreases |pages|
  {
    if |pages| > 0 {
      var p := pages[0];
      var next := if p.path == "/" then root else InsertNode(root, p);
      if p.path != "/" {
        RootNormal();
        InsertAtView(root, p, 0);
      }
      assert forall x :: Get(next, x) == Step(Get(root, x), p, x);
      InsertAllView(next, pages[1..]);
    }
  }

  lemma InitialRootGood(rootPage: Option<Page>, today: string)
    ensures Good(InitialRoot(rootPage, today))
  {
    RootNormal();
  }

  /** `buildTree` yields a well-shaped tree that stores under every path what replaying the sorted pages on that path gives. */
  lemma BuildTreeView(pages: seq<Page>, cmp: (string, string) -> int, today: string)
    ensures var t := BuildTree(pages, cmp, today);
      var sorted := SortPages(pages, cmp);
      var root := InitialRoot(FindRootPage(sorted), today);
      Good(t) && forall x :: Get(t, x) == Fold(Get(root, x), sorted, x)
  {
    var sorted := SortPages(pages, cmp);
    var root := InitialRoot(FindRootPage(sorted), today);
    InitialRootGood(FindRootPage(sorted), today);
    InsertAllView(root, sorted);
  }

  /** Pages whose path is `x`. */
  function HasPath(x: string): Page -> bool
  {
    (p: Page) => p.path == x
  }

  /** No page touches the root path: the replay leaves it as it was. */
  lemma {:induction false} FoldRoot(v: Option<Info>, pages: seq<Page>)
    ensures Fold(v, pages, "/") == v
    decreases |pages|
  {
    RootNormal();
    if |pages| > 0 {
      FoldRoot(v, pages[1..]);
    }
  }

  /** Once something is stored under `x`, only a page at `x` replaces it. */
  lemma {:induction false} FoldKeepsSome(v: Option<Info>, pages: seq<Page>, x: string)
    requires v.Some?
    requires forall i :: 0 <= i < |pages| ==> pages[i].path != x
    ensures Fold(v, pages, x) == v
    decreases |pages|
  {
    if |pages| > 0 {
      FoldKeepsSome(v, pages[1..], x);
    }
  }

  /** Of several pages at one non-root path, the last one replayed is what is stored. */
  lemma {:induction false} FoldLastWins(v: Option<Info>, pages: seq<Page>, x: string)
    requires x != "/"
    requires |Filter(pages, HasPath(x))| > 0
    ensures var same := Filter(pages, HasPath(x));
      Fold(v, pages, x) == Some(PageInfo(same[|same| - 1]))
    decreases |pages|
  {
    var p := pages[0];
    var rest := pages[1..];
    var later := Filter(rest, HasPath(x));
    FilterLast(pages, HasPath(x));
    if |later| > 0 {
      FoldLastWins(Step(v, p, x), rest, x);
    } else {
      StepAtOwnPath(v, p);
      NoneAtPath(rest, x);
      FoldKeepsSome(Step(v, p, x), rest, x);
    }
  }

  lemma NoneAtPath(pages: seq<Page>, x: string)
    requires |Filter(pages, HasPath(x))| == 0
    ensures forall i :: 0 <= i < |pages| ==> pages[i].path != x
  {
    forall i | 0 <= i < |pages|
      ensures pages[i].path != x
    {
      assert HasPath(x)(pages[i]) == (pages[i].path == x);
    }
  }

  lemma StepAtOwnPath(v: Option<Info>, p: Page)
    requires p.path != "/"
    ensures Step(v, p, p.path) == Some(PageInfo(p))
  {
  }

  /** The first page in `pages` filed under the directory `x`. */
  function FirstBelow(pages: seq<Page>, x: string): (r: Option<Page>)
    ensures r.Some? ==> r.value in pages && IsProperAncestor(x, r.value.path)
    ensures r.None? <==> forall i :: 0 <= i < |pages| ==> !IsProperAncestor(x, pages[i].path)
  {
    if |pages| == 0 then None
    else if IsProperAncestor(x, pages[0].path) then Some(pages[0])
    else
      assert forall i :: 1 <= i < |pages| ==> pages[i] == pages[1..][i - 1];
      FirstBelow(pages[1..], x)
  }

  /** Under a path no page has, the replay stores a directory made by the first page filed below it, if any. */
  lemma {:induction false} FoldDirectory(pages: seq<Page>, x: string)
    requires forall i :: 0 <= i < |pages| ==> pages[i].path != x
    ensures Fold(None, pages, x) == match FirstBelow(pages, x)
      case None => None
      case Some(p) => Some(IntermediateInfo(x, p.lastUpdated))
    decreases |pages|
  {
    RootNormal();
    if |pages| > 0 {
      var p := pages[0];
      if IsProperAncestor(x, p.path) {
        FoldKeepsSome(Step(None, p, x), pages[1..], x);
      } else {
        FoldDirectory(pages[1..], x);
      }
    }
  }

  /** With a consistent comparison, the page order is a total preorder, so sorting by it is well defined. */
  lemma PageOrderTotal(cmp: (string, string) -> int)
    requires Comparator(cmp)
    ensures TotalPreorder(PageOrder(cmp))
  {
    var le := PageOrder(cmp);
    forall a: Page, b: Page
      ensures le(a, b) || le(b, a)
    {
      assert cmp(a.path, b.path) <= 0 || cmp(b.path, a.path) <= 0;
    }
    forall a: Page, b: Page, c: Page | le(a, b) && le(b, c)
      ensures le(a, c)
    {
      if PageDepth(a) == PageDepth(b) == PageDepth(c) {
        assert cmp(a.path, b.path) <= 0 && cmp(b.path, c.path) <= 0;
      }
    }
  }

  /** Pages at one path are tied under the page order, so a stable sort keeps them in input order. */
  lemma SortKeepsSamePathOrder(pages: seq<Page>, cmp: (string, string) -> int, x: string)
    requires Comparator(cmp)
    ensures Filter(SortPages(pages, cmp), HasPath(x)) == Filter(pages, HasPath(x))
  {
    PageOrderTotal(cmp);
    SortKeepsClassOrder(pages, PageOrder(cmp), HasPath(x));
  }

  lemma {:induction false} FindRootPageIsFirst(pages: seq<Page>)
    ensures var roots := Filter(pages, HasPath("/"));
      FindRootPage(pages) == if |roots| > 0 then Some(roots[0]) else None
  {
    if |pages| > 0 {
      FindRootPageIsFirst(pages[1..]);
    }
  }

  /**
    The built tree is well-shaped (every node's depth is its segment count, every child is one
    segment below its parent, only normalised paths have children) and no path occurs twice in it.
   */
  lemma BuildTreeShape(pages: seq<Page>, cmp: (string, string) -> int, today: string)
    ensures Good(BuildTree(pages, cmp, today))
    ensures DistinctPaths(PreOrder(BuildTree(pages, cmp, today)))
  {
    BuildTreeView(pages, cmp, today);
    PreOrderShape(BuildTree(pages, cmp, today));
  }

  /**
    The root comes from the first `/` page in input order (the sort keeps ties in order), with
    content file `_root.md`; without one it is the `Home` placeholder dated `today`.
   */
  lemma BuildTreeRoot(pages: seq<Page>, cmp: (string, string) -> int, today: string)
    requires Comparator(cmp)
    ensures var t := BuildTree(pages, cmp, today);
      var roots := Filter(pages, HasPath("/"));
      && t.path == "/" && t.depth == 0
      && (|roots| == 0 ==>
            && t.title == "Home" && t.description == "" && t.tokenCount == 0
            && t.lastUpdated == today && t.contentFile == None)
      && (|roots| > 0 ==>
            && t.title == roots[0].title && t.description == roots[0].description
            && t.tokenCount == roots[0].tokenCount && t.lastUpdated == roots[0].lastUpdated
            && t.contentFile == Some("_root.md"))
  {
    var sorted := SortPages(pages, cmp);
    FindRootPageIsFirst(sorted);
    SortKeepsSamePathOrder(pages, cmp, "/");
  }

  /** At a non-root path that some page has, the tree holds the last such page in input order. */
  lemma BuildTreeLastWins(pages: seq<Page>, cmp: (string, string) -> int, today: string, x: string)
    requires Comparator(cmp)
    requires x != "/" && |Filter(pages, HasPath(x))| > 0
    ensures var same := Filter(pages, HasPath(x));
      Get(BuildTree(pages, cmp, today), x) == Some(PageInfo(same[|same| - 1]))
  {
    BuildTreeBelowRoot(pages, cmp, today, x);
    SortKeepsSamePathOrder(pages, cmp, x);
    FoldLastWins(None, SortPages(pages, cmp), x);
  }

  lemma SortedHasSamePages(pages: seq<Page>, cmp: (string, string) -> int)
    ensures forall i :: 0 <= i < |SortPages(pages, cmp)| ==> SortPages(pages, cmp)[i] in pages
    ensures forall i :: 0 <= i < |pages| ==> pages[i] in SortPages(pages, cmp)
  {
    var sorted := SortPages(pages, cmp);
    SortPermutes(pages, PageOrder(cmp));
    forall i | 0 <= i < |sorted|
      ensures sorted[i] in pages
    {
      assert sorted[i] in multiset(pages);
    }
    forall i | 0 <= i < |pages|
      ensures pages[i] in sorted
    {
      assert pages[i] in multiset(sorted);
    }
  }

  /** Below the root, the built tree stores what replaying the sorted pages from nothing gives. */
  lemma BuildTreeBelowRoot(pages: seq<Page>, cmp: (string, string) -> int, today: string, x: string)
    requires x != "/"
    ensures Get(BuildTree(pages, cmp, today), x) == Fold(None, SortPages(pages, cmp), x)
  {
    var sorted := SortPages(pages, cmp);
    var root := InitialRoot(FindRootPage(sorted), today);
    BuildTreeView(pages, cmp, today);
    assert Get(root, x) == None;
  }

  /** Whether some page is filed below `x` does not depend on the order of the pages. */
  lemma FirstBelowExists(ps: seq<Page>, qs: seq<Page>, x: string)
    requires forall i :: 0 <= i < |ps| ==> ps[i] in qs
    requires forall i :: 0 <= i < |qs| ==> qs[i] in ps
    ensures FirstBelow(ps, x).Some? <==> exists i :: 0 <= i < |qs| && IsProperAncestor(x, qs[i].path)
  {
    var first := FirstBelow(ps, x);
    if first.Some? {
      var k :| 0 <= k < |qs| && qs[k] == first.value;
    }
    if i :| 0 <= i < |qs| && IsProperAncestor(x, qs[i].path) {
      var j :| 0 <= j < |ps| && ps[j] == qs[i];
    }
  }

  /**
    At a non-root path that no page has, the tree holds a directory exactly when some page is
    filed below the path: no content file, title from the last segment, no tokens, and the date of
    the first such page in insertion order.
   */
  lemma BuildTreeDirectory(pages: seq<Page>, cmp: (string, string) -> int, today: string, x: string)
    requires x != "/" && forall i :: 0 <= i < |pages| ==> pages[i].path != x
    ensures var first := FirstBelow(SortPages(pages, cmp), x);
      Get(BuildTree(pages, cmp, today), x) ==
        if first.Some? then Some(IntermediateInfo(x, first.value.lastUpdated)) else None
    ensures Get(BuildTree(pages, cmp, today), x).Some? <==>
      exists i :: 0 <= i < |pages| && IsProperAncestor(x, pages[i].path)
  {
    var sorted := SortPages(pages, cmp);
    BuildTreeBelowRoot(pages, cmp, today, x);
    SortedHasSamePages(pages, cmp);
    assert forall i :: 0 <= i < |sorted| ==> sorted[i].path != x;
    FoldDirectory(sorted, x);
    FirstBelowExists(sorted, pages, x);
  }

  /** Below the root, a node has a content file exactly when some page has its path. */
  lemma BuildTreeContent(pages: seq<Page>, cmp: (string, string) -> int, today: string, x: string)
    requires Comparator(cmp) && x != "/"
    ensures var r := Get(BuildTree(pages, cmp, today), x);
      (r.Some? && r.value.contentFile.Some?) <==> exists i :: 0 <= i < |pages| && pages[i].path == x
  {
    if |Filter(pages, HasPath(x))| > 0 {
      ContentWhenPage(pages, cmp, today, x);
    } else {
      NoContentWithoutPage(pages, cmp, today, x);
    }
  }

  lemma ContentWhenPage(pages: seq<Page>, cmp: (string, string) -> int, today: string, x: string)
    requires Comparator(cmp) && x != "/" && |Filter(pages, HasPath(x))| > 0
    ensures var r := Get(BuildTree(pages, cmp, today), x);
      r.Some? && r.value.contentFile.Some?
    ensures exists i :: 0 <= i < |pages| && pages[i].path == x
  {
    var same := Filter(pages, HasPath(x));
    var last := same[|same| - 1];
    BuildTreeLastWins(pages, cmp, today, x);
    assert Get(BuildTree(pages, cmp, today), x) == Some(PageInfo(last));
    assert PageInfo(last).contentFile.Some?;
    SomePageAt(pages, x);
  }

  lemma NoContentWithoutPage(pages: seq<Page>, cmp: (string, string) -> int, today: string, x: string)
    requires x != "/" && |Filter(pages, HasPath(x))| == 0
    ensures var r := Get(BuildTree(pages, cmp, today), x);
      !(r.Some? && r.value.contentFile.Some?)
    ensures forall i :: 0 <= i < |pages| ==> pages[i].path != x
  {
    NoneAtPath(pages, x);
    BuildTreeDirectory(pages, cmp, today, x);
  }

  lemma SomePageAt(pages: seq<Page>, x: string)
    requires |Filter(pages, HasPath(x))| > 0
    ensures exists i :: 0 <= i < |pages| && pages[i].path == x
  {
    FilterMember(pages, HasPath(x), 0);
  }
}
