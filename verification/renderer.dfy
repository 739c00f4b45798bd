/**
  The index renderer's helpers: token-count formatting, counting pages, picking example paths and
  an example directory, and the indented site-map lines of a subtree.
 */
module Renderer {
  import opened Common
  import opened Strings
  import opened Tree
  import opened Aggregator

  /*
   * formatTokens
   */

  /** `toLocaleString` of an integer in the `en-US` locale: digits grouped by three with commas. */
  function Grouped(n: nat): (r: string)
    ensures n < 1000 ==> r == NatToString(n)
  {
    if n < 1000 then NatToString(n) else Grouped(n / 1000) + "," + Pad3(n % 1000)
  }

  /** Three digits, with leading zeros. */
  function Pad3(n: nat): (r: string)
    requires n < 1000
    ensures |r| == 3 && forall i :: 0 <= i < 3 ==> IsDigit(r[i])
  {
    [DigitChar(n / 100), DigitChar(n / 10 % 10), DigitChar(n % 10)]
  }

  /** A count in thousands rounded to one decimal, half up: `(count / 1000).toFixed(1)` in tenths. */
  function Tenths(count: int): nat
    requires count >= 1000
  {
    (count + 50) / 100
  }

  /** The thousands form before the `.0k` clean-up: whole part, a point, one decimal, `k`. */
  function Fixed(t: nat): string
  {
    NatToString(t / 10) + "." + [DigitChar(t % 10)] + "k"
  }

  /** `formatTokens`. */
  function FormatTokens(count: int): string
  {
    if count >= 1000 then ReplaceFirst(Fixed(Tenths(count)), ".0k", "k")
    else if count >= 0 then Grouped(count)
    else "-" + Grouped(-count)
  }

  /** The thousands form with a zero decimal left out, written directly. */
  function Kilo(t: nat): string
  {
    if t % 10 == 0 then NatToString(t / 10) + "k" else NatToString(t / 10) + "." + [DigitChar(t % 10)] + "k"
  }

  /** In `Fixed(t)` the only place `.0k` can start is the point, and only when the decimal is 0. */
  lemma FixedReplace(t: nat)
    ensures ReplaceFirst(Fixed(t), ".0k", "k") == Kilo(t)
  {
    var w := NatToString(t / 10);
    var s := Fixed(t);
    var pat := ".0k";
    assert |s| == |w| + 3;
    assert s[|w|] == '.' && s[|w| + 1] == DigitChar(t % 10) && s[|w| + 2] == 'k';
    forall k | 0 <= k < |w|
      ensures !OccursAt(s, pat, k)
    {
      assert s[k] == w[k];
      NotOccursAt(s, pat, k);
    }
    if t % 10 == 0 {
      assert s[|w|..|w| + 3] == pat;
      assert OccursAt(s, pat, |w|);
      var k := IndexOf(s, pat).value;
      assert k == |w|;
      assert s[..k] == w && s[k + 3..] == [];
    } else {
      assert !OccursAt(s, pat, |w|) by {
        assert s[|w|..|w| + 3][1] == s[|w| + 1];
      }
      assert IndexOf(s, pat).None?;
    }
  }

  lemma NotOccursAt(s: string, pat: string, k: nat)
    requires k < |s| && |pat| > 0 && s[k] != pat[0]
    ensures !OccursAt(s, pat, k)
  {
    assert k + |pat| <= |s| ==> s[k..k + |pat|][0] == s[k];
  }

  /** Below 1000 a count is printed as its decimal digits, which read back as the count. */
  lemma FormatTokensSmall(count: int)
    requires 0 <= count < 1000
    ensures FormatTokens(count) == NatToString(count)
    ensures DecimalValue(FormatTokens(count)) == count
  {
    DecimalRoundTrip(count);
  }

  /** A whole number of thousands is printed as that number followed by `k`. */
  lemma FormatTokensThousands(count: int)
    requires count >= 1000 && count % 1000 == 0
    ensures FormatTokens(count) == NatToString(count / 1000) + "k"
  {
    FixedReplace(Tenths(count));
  }

  /** A whole number of hundreds that is not of thousands keeps its one decimal. */
  lemma FormatTokensHundreds(count: int)
    requires count >= 1000 && count % 100 == 0 && count % 1000 != 0
    ensures FormatTokens(count) == NatToString(count / 1000) + "." + [DigitChar(count / 100 % 10)] + "k"
  {
    var t := Tenths(count);
    FixedReplace(t);
    HundredsTenths(count);
    assert Kilo(t) == NatToString(t / 10) + "." + [DigitChar(t % 10)] + "k";
  }

  /** For a whole number of hundreds the tenths are exact: their last digit is the hundreds digit. */
  lemma HundredsTenths(count: int)
    requires count >= 1000 && count % 100 == 0
    ensures Tenths(count) / 10 == count / 1000 && Tenths(count) % 10 == count / 100 % 10
    ensures Tenths(count) % 10 == 0 <==> count % 1000 == 0
  {
    var q := count / 100;
    assert count == 100 * q;
    assert Tenths(count) == q;
    var h, r := q / 10, q % 10;
    assert q == 10 * h + r && 0 <= r < 10;
    assert count == 1000 * h + 100 * r;
    assert count / 1000 == h;
    assert count % 1000 == 100 * r;
  }

  /** From a thousand on, the result is the rounded count in thousands, with a decimal only when it is not 0. */
  lemma FormatTokensLarge(count: int)
    requires count >= 1000
    ensures FormatTokens(count) == Kilo(Tenths(count))
    ensures 100 * Tenths(count) - 50 <= count < 100 * Tenths(count) + 50
  {
    FixedReplace(Tenths(count));
  }

  /*
   * countLeaves, collectLeafPaths, collectFirstDir
   */

  function ContentFlag(n: TreeNode): nat
  {
    if HasContent(n) then 1 else 0
  }

  /** `countLeaves`: the node itself when it has content, plus its children's counts. */
  function CountLeaves(n: TreeNode): nat
    decreases n
  {
    if |n.children| == 0 then ContentFlag(n) else ContentFlag(n) + CountAll(n.children)
  }

  function CountAll(cs: seq<TreeNode>): nat
    decreases cs
  {
    if |cs| == 0 then 0 else CountLeaves(cs[0]) + CountAll(cs[1..])
  }

  /** `countLeaves` counts every node of the subtree that has content, directories included. */
  lemma {:induction false} CountLeavesIsContentNodes(n: TreeNode)
    ensures CountLeaves(n) == |Filter(PreOrder(n), HasContent)|
    decreases n, 1
  {
    CountAllIsContentNodes(n.children);
    assert PreOrder(n) == [n] + PreOrderAll(n.children);
    FilterAppend([n], PreOrderAll(n.children), HasContent);
  }

  lemma {:induction false} CountAllIsContentNodes(cs: seq<TreeNode>)
    ensures CountAll(cs) == |Filter(PreOrderAll(cs), HasContent)|
    decreases cs, 0
  {
    if |cs| > 0 {
      CountLeavesIsContentNodes(cs[0]);
      CountAllIsContentNodes(cs[1..]);
      FilterAppend(PreOrder(cs[0]), PreOrderAll(cs[1..]), HasContent);
    }
  }

  /** A node whose path `collectLeafPaths` records: it has content and is not the root path. */
  predicate IsExample(n: TreeNode)
  {
    HasContent(n) && n.path != "/"
  }

  /** The paths of the example nodes of `s`, in order. */
  function Examples(s: seq<TreeNode>): seq<string>
  {
    Map(Filter(s, IsExample), NodePath)
  }

  /** The first `k` elements of `s`, all of them when there are fewer, none when `k` is not positive. */
  function Take<T>(s: seq<T>, k: int): (r: seq<T>)
    ensures |r| <= |s| && (k <= 0 ==> r == []) && (0 <= k <= |s| ==> |r| == k)
    ensures r == s[..|r|]
  {
    if k <= 0 then [] else if k >= |s| then s else s[..k]
  }

  lemma TakeAppend<T>(a: seq<T>, b: seq<T>, k: int)
    ensures Take(a + b, k) == Take(a, k) + Take(b, k - |Take(a, k)|)
  {
    if k > |a| {
      assert (a + b)[..|a|] == a;
      if k < |a| + |b| {
        assert (a + b)[..k] == a + b[..k - |a|];
      }
    }
  }

  lemma ExamplesAppend(a: seq<TreeNode>, b: seq<TreeNode>)
    ensures Examples(a + b) == Examples(a) + Examples(b)
  {
    FilterAppend(a, b, IsExample);
    MapAppend(Filter(a, IsExample), Filter(b, IsExample), NodePath);
  }

  /** `collectLeafPaths(node, max, paths)`, returning the grown list instead of pushing into it. */
  function CollectLeafPaths(n: TreeNode, max: int, acc: seq<string>): seq<string>
    decreases n
  {
    if |acc| >= max then acc
    else CollectAll(n.children, max, acc + (if IsExample(n) then [n.path] else []))
  }

  /** The loop over the children, which stops as soon as `max` paths are collected. */
  function CollectAll(cs: seq<TreeNode>, max: int, acc: seq<string>): seq<string>
    decreases cs
  {
    if |cs| == 0 then acc
    else if |acc| >= max then acc
    else CollectAll(cs[1..], max, CollectLeafPaths(cs[0], max, acc))
  }

  /**
    `collectLeafPaths` appends to what was collected the first example paths of the subtree in
    pre-order, as many as fit below `max`.
   */
  lemma {:induction false} CollectLeafPathsIsTake(n: TreeNode, max: int, acc: seq<string>)
    ensures CollectLeafPaths(n, max, acc) == acc + Take(Examples(PreOrder(n)), max - |acc|)
    decreases n, 1
  {
    if |acc| < max {
      var own := if IsExample(n) then [n.path] else [];
      CollectAllIsTake(n.children, max, acc + own);
      ExamplesOfNode(n);
      TakeAfterOwn(acc, own, Examples(PreOrderAll(n.children)), max);
    }
  }

  lemma ExamplesOfNode(n: TreeNode)
    ensures Examples(PreOrder(n)) == (if IsExample(n) then [n.path] else []) + Examples(PreOrderAll(n.children))
  {
    assert PreOrder(n) == [n] + PreOrderAll(n.children);
    ExamplesAppend([n], PreOrderAll(n.children));
    assert Examples([n]) == if IsExample(n) then [n.path] else [];
  }

  /** Collecting at most one element of one's own, then taking the rest, is taking from both. */
  lemma TakeAfterOwn<T>(acc: seq<T>, own: seq<T>, rest: seq<T>, max: int)
    requires |own| <= 1 && |acc| < max
    ensures (acc + own) + Take(rest, max - |acc + own|) == acc + Take(own + rest, max - |acc|)
  {
    TakeAfterShort(own, rest, max - |acc|);
  }

  /** Taking from a list that starts with at most one element that fits. */
  lemma TakeAfterShort<T>(own: seq<T>, rest: seq<T>, k: int)
    requires |own| <= 1 && k >= 1
    ensures Take(own + rest, k) == own + Take(rest, k - |own|)
  {
    TakeAppend(own, rest, k);
  }

  lemma {:induction false} CollectAllIsTake(cs: seq<TreeNode>, max: int, acc: seq<string>)
    ensures CollectAll(cs, max, acc) == acc + Take(Examples(PreOrderAll(cs)), max - |acc|)
    decreases cs, 0
  {
    if |cs| == 0 {
      assert Examples([]) == [];
    } else if |acc| < max {
      var first := Examples(PreOrder(cs[0]));
      var rest := Examples(PreOrderAll(cs[1..]));
      var acc1 := CollectLeafPaths(cs[0], max, acc);
      CollectLeafPathsIsTake(cs[0], max, acc);
      CollectAllIsTake(cs[1..], max, acc1);
      ExamplesAppend(PreOrder(cs[0]), PreOrderAll(cs[1..]));
      TakeTwice(acc, first, rest, max);
    }
  }

  /** Taking up to `max` in two rounds is taking from the concatenation in one. */
  lemma TakeTwice<T>(acc: seq<T>, first: seq<T>, rest: seq<T>, max: int)
    ensures var acc1 := acc + Take(first, max - |acc|);
      acc1 + Take(rest, max - |acc1|) == acc + Take(first + rest, max - |acc|)
  {
    TakeAppend(first, rest, max - |acc|);
  }

  /**
    The example paths of the index: at most three, never `/`, and the first example paths of the
    tree in pre-order.
   */
  lemma ExamplePaths(root: TreeNode)
    ensures var r := CollectLeafPaths(root, 3, []);
      && |r| <= 3
      && "/" !in r
      && |r| <= |Examples(PreOrder(root))|
      && r == Examples(PreOrder(root))[..|r|]
      && (|r| < 3 ==> r == Examples(PreOrder(root)))
  {
    CollectLeafPathsIsTake(root, 3, []);
    var e := Examples(PreOrder(root));
    var f := Filter(PreOrder(root), IsExample);
    forall i | 0 <= i < |e|
      ensures e[i] != "/"
    {
      assert IsExample(f[i]);
    }
  }

  /** `collectFirstDir`: the path of the first child that has children of its own. */
  function FirstDir(cs: seq<TreeNode>): (r: Option<string>)
    ensures r.None? <==> forall i :: 0 <= i < |cs| ==> |cs[i].children| == 0
    ensures r.Some? ==> exists i :: && 0 <= i < |cs| && |cs[i].children| > 0 && r.value == cs[i].path
                                    && forall j :: 0 <= j < i ==> |cs[j].children| == 0
  {
    if |cs| == 0 then None
    else if |cs[0].children| > 0 then Some(cs[0].path)
    else
      var r := FirstDir(cs[1..]);
      assert forall i :: 1 <= i < |cs| ==> cs[i] == cs[1..][i - 1];
      r
  }

  const DefaultDir := "/docs"

  /** `collectFirstDir(root) || '/docs'`: an empty path counts as missing too. */
  function ExampleDir(root: TreeNode): (r: string)
    ensures FirstDir(root.children).None? ==> r == DefaultDir
    ensures FirstDir(root.children).Some? && FirstDir(root.children).value != "" ==> r == FirstDir(root.children).value
    ensures r != ""
  {
    match FirstDir(root.children)
    case Some(p) => if p != "" then p else DefaultDir
    case None => DefaultDir
  }

  /*
   * renderNode
   */

  const Dash := "\U{2014}"

  /** `'  '.repeat(indent)`. */
  function Pad(level: nat): (r: string)
    ensures |r| == 2 * level && forall i :: 0 <= i < |r| ==> r[i] == ' '
  {
    if level == 0 then "" else Pad(level - 1) + "  "
  }

  /** `~N tokens`, the token part of every site-map line. */
  function TokenText(count: int): string
  {
    "~" + FormatTokens(count) + " tokens"
  }

  /** The end of a bullet line: the update date for a page without children, the page count for a directory. */
  function BulletTail(n: TreeNode): string
  {
    var hasChildren := |n.children| > 0;
    if !hasChildren && HasContent(n) then ", updated " + n.lastUpdated + ")"
    else if hasChildren then " across " + NatToString(CountLeaves(n)) + " pages)"
    else ")"
  }

  /** A bullet after its indentation: the path, with `/` for a node with children, the title, tokens and tail. */
  function BulletText(n: TreeNode): string
  {
    "- **" + n.path + AfterPath(n)
  }

  function AfterPath(n: TreeNode): (r: string)
    ensures |r| > 0 && (r[0] == '/' <==> |n.children| > 0)
  {
    var mark := if |n.children| > 0 then "/**" else "**";
    mark + " " + Dash + " " + n.title + "  (" + TokenText(n.tokenCount) + BulletTail(n)
  }

  /**
    How a bullet line ends: its token count, then the date for a page without children, the page
    count for a directory (every node of its subtree with content), and nothing more otherwise.
   */
  lemma BulletForms(n: TreeNode, level: nat)
    ensures EndsWith(BulletLine(n, level), TokenText(n.tokenCount) + BulletTail(n))
    ensures |n.children| == 0 && HasContent(n) ==> BulletTail(n) == ", updated " + n.lastUpdated + ")"
    ensures |n.children| > 0 ==> BulletTail(n) == " across " + NatToString(|Filter(PreOrder(n), HasContent)|) + " pages)"
    ensures |n.children| == 0 && !HasContent(n) ==> BulletTail(n) == ")"
  {
    BulletEnds(n, level);
    CountLeavesIsContentNodes(n);
  }

  lemma BulletEnds(n: TreeNode, level: nat)
    ensures EndsWith(BulletLine(n, level), TokenText(n.tokenCount) + BulletTail(n))
  {
    var mark := if |n.children| > 0 then "/**" else "**";
    var p := mark + " " + Dash + " " + n.title + "  (";
    var x := TokenText(n.tokenCount) + BulletTail(n);
    assert AfterPath(n) == p + TokenText(n.tokenCount) + BulletTail(n);
    EndsWithTwo(p, TokenText(n.tokenCount), BulletTail(n));
    SuffixOfConcat("- **" + n.path, AfterPath(n), x);
    SuffixOfConcat(Pad(level), BulletText(n), x);
  }

  lemma EndsWithTwo(p: string, q: string, r: string)
    ensures EndsWith(p + q + r, q + r)
  {
    assert p + q + r == p + (q + r);
  }

  /** A suffix of the second part is a suffix of the whole. */
  lemma SuffixOfConcat(a: string, b: string, c: string)
    requires EndsWith(b, c)
    ensures EndsWith(a + b, c)
  {
    assert (a + b)[|a + b| - |c|..] == b[|b| - |c|..];
  }

  /** The bullet line of a node at nesting level `level`. */
  function BulletLine(n: TreeNode, level: nat): string
  {
    Pad(level) + BulletText(n)
  }

  /** The description line under a bullet, indented one level further. */
  function DescriptionLine(n: TreeNode, level: nat): string
  {
    Pad(level + 1) + "> " + n.description
  }

  /** The lines one node contributes: its bullet, then its description when it has one. */
  function NodeLines(n: TreeNode, level: nat): seq<string>
  {
    [BulletLine(n, level)] + (if n.description != "" then [DescriptionLine(n, level)] else [])
  }

  /** `renderNode(node, lines, indent)`: the node's lines, then each child's at one level deeper. */
  function RenderNode(n: TreeNode, level: nat): seq<string>
    decreases n
  {
    NodeLines(n, level) + RenderAll(n.children, level + 1)
  }

  function RenderAll(cs: seq<TreeNode>, level: nat): seq<string>
    decreases cs
  {
    if |cs| == 0 then [] else RenderNode(cs[0], level) + RenderAll(cs[1..], level)
  }

  /** A node of a subtree with the nesting level it is rendered at. */
  datatype Placed = Placed(node: TreeNode, level: nat)

  /** The subtree in pre-order, each node with its level: the root at `level`, children one deeper. */
  function PlacedPreOrder(n: TreeNode, level: nat): seq<Placed>
    decreases n
  {
    [Placed(n, level)] + PlacedAll(n.children, level + 1)
  }

  function PlacedAll(cs: seq<TreeNode>, level: nat): seq<Placed>
    decreases cs
  {
    if |cs| == 0 then [] else PlacedPreOrder(cs[0], level) + PlacedAll(cs[1..], level)
  }

  function NodeOf(p: Placed): TreeNode
  {
    p.node
  }

  lemma {:induction false} PlacedIsPreOrder(n: TreeNode, level: nat)
    ensures Map(PlacedPreOrder(n, level), NodeOf) == PreOrder(n)
    decreases n, 1
  {
    PlacedAllIsPreOrder(n.children, level + 1);
    MapAppend([Placed(n, level)], PlacedAll(n.children, level + 1), NodeOf);
  }

  lemma {:induction false} PlacedAllIsPreOrder(cs: seq<TreeNode>, level: nat)
    ensures Map(PlacedAll(cs, level), NodeOf) == PreOrderAll(cs)
    decreases cs, 0
  {
    if |cs| > 0 {
      PlacedIsPreOrder(cs[0], level);
      PlacedAllIsPreOrder(cs[1..], level);
      MapAppend(PlacedPreOrder(cs[0], level), PlacedAll(cs[1..], level), NodeOf);
    }
  }

  /** The lines of a list of placed nodes, one node after another. */
  function LinesOf(ps: seq<Placed>): seq<string>
  {
    if |ps| == 0 then [] else NodeLines(ps[0].node, ps[0].level) + LinesOf(ps[1..])
  }

  lemma {:induction false} LinesOfAppend(a: seq<Placed>, b: seq<Placed>)
    ensures LinesOf(a + b) == LinesOf(a) + LinesOf(b)
  {
    if |a| > 0 {
      assert (a + b)[1..] == a[1..] + b;
      LinesOfAppend(a[1..], b);
    } else {
      assert a + b == b;
    }
  }

  /** `renderNode` writes the lines of the subtree's nodes in pre-order, each at its nesting level. */
  lemma {:induction false} RenderNodeIsPreOrder(n: TreeNode, level: nat)
    ensures RenderNode(n, level) == LinesOf(PlacedPreOrder(n, level))
    decreases n, 1
  {
    RenderAllIsPreOrder(n.children, level + 1);
    LinesOfAppend([Placed(n, level)], PlacedAll(n.children, level + 1));
  }

  lemma {:induction false} RenderAllIsPreOrder(cs: seq<TreeNode>, level: nat)
    ensures RenderAll(cs, level) == LinesOf(PlacedAll(cs, level))
    decreases cs, 0
  {
    if |cs| > 0 {
      RenderNodeIsPreOrder(cs[0], level);
      RenderAllIsPreOrder(cs[1..], level);
      LinesOfAppend(PlacedPreOrder(cs[0], level), PlacedAll(cs[1..], level));
    }
  }

  /*
   * Bullet lines
   */

  /** The number of spaces a line starts with. */
  function LeadingSpaces(line: string): (k: nat)
    ensures k <= |line| && forall i :: 0 <= i < k ==> line[i] == ' '
    ensures k < |line| ==> line[k] != ' '
  {
    if |line| > 0 && line[0] == ' ' then
      var k := 1 + LeadingSpaces(line[1..]);
      assert forall i :: 1 <= i < |line| ==> line[i] == line[1..][i - 1];
      k
    else 0
  }

  /** A site-map bullet: its first character after the indentation is `-`. */
  predicate IsBullet(line: string)
  {
    LeadingSpaces(line) < |line| && line[LeadingSpaces(line)] == '-'
  }

  lemma LeadingSpacesOf(pad: string, rest: string)
    requires forall i :: 0 <= i < |pad| ==> pad[i] == ' '
    requires |rest| > 0 && rest[0] != ' '
    ensures LeadingSpaces(pad + rest) == |pad|
    ensures (pad + rest)[|pad|] == rest[0]
  {
    var s := pad + rest;
    assert forall i :: 0 <= i < |pad| ==> s[i] == pad[i];
    assert s[|pad|] == rest[0];
  }

  /**
    A bullet line starts with two spaces per level, then `- **` and the node's path, followed by `/`
    exactly when the node has children.
   */
  lemma BulletShape(n: TreeNode, level: nat)
    ensures var b := BulletLine(n, level);
      var k := 2 * level + 4 + |n.path|;
      && IsBullet(b) && LeadingSpaces(b) == 2 * level
      && k < |b| && b[2 * level..k] == "- **" + n.path
      && (b[k] == '/' <==> |n.children| > 0)
  {
    var t := BulletText(n);
    var head := "- **" + n.path;
    var b := BulletLine(n, level);
    LeadingSpacesOf(Pad(level), t);
    assert b == Pad(level) + head + AfterPath(n);
    assert b[2 * level..2 * level + 4 + |n.path|] == head;
    assert b[2 * level + 4 + |n.path|] == AfterPath(n)[0];
  }

  /** A description line is not a bullet: after its indentation comes `>`. */
  lemma DescriptionShape(n: TreeNode, level: nat)
    ensures !IsBullet(DescriptionLine(n, level))
    ensures LeadingSpaces(DescriptionLine(n, level)) == 2 * level + 2
  {
    assert DescriptionLine(n, level) == Pad(level + 1) + ("> " + n.description);
    LeadingSpacesOf(Pad(level + 1), "> " + n.description);
  }

  lemma NodeLinesBullets(n: TreeNode, level: nat)
    ensures Filter(NodeLines(n, level), IsBullet) == [BulletLine(n, level)]
  {
    BulletShape(n, level);
    if n.description != "" {
      DescriptionShape(n, level);
      assert Filter([DescriptionLine(n, level)], IsBullet) == [];
      FilterAppend([BulletLine(n, level)], [DescriptionLine(n, level)], IsBullet);
    }
  }

  /** The bullet line of a placed node. */
  function PlacedBullet(p: Placed): string
  {
    BulletLine(p.node, p.level)
  }

  lemma {:induction false} BulletsOfLines(ps: seq<Placed>)
    ensures Filter(LinesOf(ps), IsBullet) == Map(ps, PlacedBullet)
  {
    if |ps| > 0 {
      var ls := NodeLines(ps[0].node, ps[0].level);
      BulletsOfLines(ps[1..]);
      NodeLinesBullets(ps[0].node, ps[0].level);
      assert LinesOf(ps) == ls + LinesOf(ps[1..]);
      FilterConcat(ls, LinesOf(ps[1..]), IsBullet, [PlacedBullet(ps[0])], Map(ps[1..], PlacedBullet));
      MapCons(ps, PlacedBullet);
    }
  }

  /**
    The bullet lines `renderNode` writes are one per node of the subtree, in pre-order, each at the
    node's nesting level.
   */
  lemma RenderNodeBullets(n: TreeNode, level: nat)
    ensures Filter(RenderNode(n, level), IsBullet) == Map(PlacedPreOrder(n, level), PlacedBullet)
    ensures |Filter(RenderNode(n, level), IsBullet)| == |PreOrder(n)|
  {
    RenderNodeIsPreOrder(n, level);
    BulletsOfLines(PlacedPreOrder(n, level));
    PlacedIsPreOrder(n, level);
  }

  /*
   * renderIndex
   */

  /** The constant runs of lines of the index, kept opaque. */
  datatype Block =
    | Instructions     // the instructions heading and a blank line
    | Steps            // step 1 and the start of step 2
    | WildcardSteps    // the end of step 2 and the start of step 3
    | SearchSteps      // the end of step 3 and the start of step 4
    | Reference        // the end of step 4 and the parameter reference
    | QuickExamples    // the quick-examples heading and a blank line
    | Rule             // the rule closing the instructions
    | Credits          // the credit line between blank lines
    | ForHumans        // the section for human readers
    | SiteMapHeading   // the site-map heading and a blank line

  datatype Line = Text(text: string) | Prose(block: Block)

  function TextLine(s: string): Line
  {
    Text(s)
  }

  datatype RenderOptions = RenderOptions(
    siteName: Option<string>,
    siteDescription: Option<string>,
    fetchEndpoint: Option<string>,
    siteUrl: Option<string>)

  function QuickExampleLines(fe: string, examples: seq<string>, dir: string): seq<Line>
    requires |examples| >= 2
  {
    [ Prose(QuickExamples),
      Text("Fetch two specific pages: `" + fe + "?sections=" + examples[0] + "," + examples[1] + "`"), Text(""),
      Text("Fetch entire directory: `" + fe + "?sections=" + dir + "/*`"), Text(""),
      Text("Search for a topic: `" + fe + "?search=getting+started&limit=3`"), Text(""),
      Text("Get everything: `" + fe + "?sections=/*`"), Text("") ]
  }

  /** The block for agents, written only when there is a fetch endpoint. */
  function InstructionLines(root: TreeNode, title: string, siteUrl: string, fe: string): seq<Line>
  {
    var dir := ExampleDir(root);
    var examples := CollectLeafPaths(root, 3, []);
    InstructionHead(title, siteUrl, fe, dir)
    + (if |examples| >= 2 then QuickExampleLines(fe, examples, dir) else [])
    + [Prose(Rule)]
  }

  /** The instructions up to the parameter reference. */
  function InstructionHead(title: string, siteUrl: string, fe: string, dir: string): (r: seq<Line>)
    ensures Prose(QuickExamples) !in r
  {
    [ Prose(Instructions),
      Text("You are reading the structured content map for **" + title + "**"
           + (if siteUrl != "" then " (" + siteUrl + ")" else "") + "."),
      Prose(Steps),
      Text("GET " + fe + "?sections=/path1,/path2,/path3"),
      Prose(WildcardSteps),
      Text("GET " + fe + "?sections=" + dir + "/*"),
      Prose(SearchSteps),
      Text("GET " + fe + "?search=your+keyword&limit=5"),
      Prose(Reference) ]
  }

  /** The root's bullet: its title, a token count and a date. */
  function RootLine(title: string, tokens: int, date: string): string
  {
    "- **/** " + Dash + " " + title + "  (~" + FormatTokens(tokens) + " tokens, updated " + date + ")"
  }

  /** The root's own lines, written only when the root has content: its bullet with its own tokens, and its description. */
  function RootLines(root: TreeNode): seq<Line>
  {
    if HasContent(root) then [Text(RootLine(root.title, OwnTokens(root), root.lastUpdated))] + RootDescription(root)
    else []
  }

  /** A node's tokens without its children's. */
  function OwnTokens(n: TreeNode): int
  {
    n.tokenCount - ChildTokens(n)
  }

  function RootDescription(root: TreeNode): seq<Line>
  {
    if root.description != "" then [Text("  > " + root.description)] else []
  }

  /** The instructions, when a fetch endpoint is given and non-empty. */
  function AgentLines(root: TreeNode, opts: RenderOptions): seq<Line>
  {
    var fe := opts.fetchEndpoint.GetOr("");
    if fe != "" then InstructionLines(root, opts.siteName.GetOr(root.title), opts.siteUrl.GetOr(""), fe) else []
  }

  /** The title, the optional description, the constant sections and the site-map totals. */
  function HeaderLines(root: TreeNode, opts: RenderOptions): seq<Line>
  {
    var description := opts.siteDescription.GetOr(root.description);
    [Text("# " + opts.siteName.GetOr(root.title))]
    + (if description != "" then [Text("> " + description)] else [])
    + [Prose(Credits), Prose(ForHumans), Prose(SiteMapHeading),
       Text("> **" + NatToString(CountLeaves(root)) + " pages** | **~" + FormatTokens(root.tokenCount) + " tokens** total"),
       Text("")]
  }

  /** The root's line, the children's subtrees and a closing blank line. */
  function TreeLines(root: TreeNode): seq<Line>
  {
    RootLines(root) + Map(RenderAll(root.children, 0), TextLine) + [Text("")]
  }

  /** `renderIndex`, as its list of lines before they are joined with newlines. */
  function RenderIndex(root: TreeNode, opts: RenderOptions): seq<Line>
  {
    AgentLines(root, opts) + HeaderLines(root, opts) + TreeLines(root)
  }

  lemma TreeLinesText(root: TreeNode)
    ensures forall i :: 0 <= i < |TreeLines(root)| ==> TreeLines(root)[i].Text?
  {
  }

  /** No constant block is among the tree's lines. */
  lemma NoBlockInTree(root: TreeNode, b: Block)
    ensures Prose(b) !in TreeLines(root)
  {
    TreeLinesText(root);
  }

  /** The header holds only the credits, the section for humans and the site-map heading. */
  lemma HeaderBlocks(root: TreeNode, opts: RenderOptions, b: Block)
    requires b != Credits && b != ForHumans && b != SiteMapHeading
    ensures Prose(b) !in HeaderLines(root, opts)
  {
  }

  /** A block outside the header and the tree is in the index exactly when it is in the instructions. */
  lemma BlockInIndex(root: TreeNode, opts: RenderOptions, b: Block)
    requires b != Credits && b != ForHumans && b != SiteMapHeading
    ensures Prose(b) in RenderIndex(root, opts) <==> Prose(b) in AgentLines(root, opts)
  {
    NoBlockInTree(root, b);
    HeaderBlocks(root, opts, b);
    InConcat(Prose(b), AgentLines(root, opts), HeaderLines(root, opts), TreeLines(root));
  }

  lemma InConcat<T>(x: T, a: seq<T>, b: seq<T>, c: seq<T>)
    ensures x in a + b + c <==> x in a || x in b || x in c
  {
  }

  /** The instructions for agents appear exactly when a fetch endpoint is given and non-empty. */
  lemma RenderIndexInstructions(root: TreeNode, opts: RenderOptions)
    ensures Prose(Steps) in RenderIndex(root, opts) <==> opts.fetchEndpoint.GetOr("") != ""
  {
    BlockInIndex(root, opts, Steps);
    var fe := opts.fetchEndpoint.GetOr("");
    if fe != "" {
      StepsInInstructions(root, opts.siteName.GetOr(root.title), opts.siteUrl.GetOr(""), fe);
    }
  }

  lemma StepsInInstructions(root: TreeNode, title: string, siteUrl: string, fe: string)
    ensures Prose(Steps) in InstructionLines(root, title, siteUrl, fe)
  {
    var examples := CollectLeafPaths(root, 3, []);
    var head := InstructionHead(title, siteUrl, fe, ExampleDir(root));
    var quick := if |examples| >= 2 then QuickExampleLines(fe, examples, ExampleDir(root)) else [];
    assert InstructionLines(root, title, siteUrl, fe) == head + quick + [Prose(Rule)];
    assert head[2] == Prose(Steps);
    InConcat(Prose(Steps), head, quick, [Prose(Rule)]);
  }

  /** The quick examples appear exactly when there are instructions and at least two example paths. */
  lemma RenderIndexQuickExamples(root: TreeNode, opts: RenderOptions)
    ensures Prose(QuickExamples) in RenderIndex(root, opts)
            <==> opts.fetchEndpoint.GetOr("") != "" && |CollectLeafPaths(root, 3, [])| >= 2
  {
    BlockInIndex(root, opts, QuickExamples);
    if opts.fetchEndpoint.GetOr("") != "" {
      QuickExamplesInInstructions(root, opts.siteName.GetOr(root.title), opts.siteUrl.GetOr(""), opts.fetchEndpoint.GetOr(""));
    }
  }

  lemma QuickExamplesInInstructions(root: TreeNode, title: string, siteUrl: string, fe: string)
    ensures Prose(QuickExamples) in InstructionLines(root, title, siteUrl, fe) <==> |CollectLeafPaths(root, 3, [])| >= 2
  {
    var examples := CollectLeafPaths(root, 3, []);
    var head := InstructionHead(title, siteUrl, fe, ExampleDir(root));
    var quick := if |examples| >= 2 then QuickExampleLines(fe, examples, ExampleDir(root)) else [];
    assert InstructionLines(root, title, siteUrl, fe) == head + quick + [Prose(Rule)];
    InConcat(Prose(QuickExamples), head, quick, [Prose(Rule)]);
    if |examples| >= 2 {
      assert quick[0] == Prose(QuickExamples);
    }
  }

  /**
    After the instructions comes the title line, `siteName` or else the root's title, then the
    description line exactly when the chosen description is non-empty.
   */
  lemma RenderIndexHeader(root: TreeNode, opts: RenderOptions)
    ensures var k := |AgentLines(root, opts)|;
      var description := opts.siteDescription.GetOr(root.description);
      var r := RenderIndex(root, opts);
      && k + 1 < |r|
      && r[k] == Text("# " + opts.siteName.GetOr(root.title))
      && (r[k + 1].Text? <==> description != "")
      && (description != "" ==> r[k + 1] == Text("> " + description))
  {
    var h := HeaderLines(root, opts);
    var r := RenderIndex(root, opts);
    var k := |AgentLines(root, opts)|;
    assert r[k] == h[0] && r[k + 1] == h[1];
  }

  /**
    The index ends with the root's own lines, present only when the root has content, then the
    children's subtrees as `renderNode` writes them at level 0, one bullet per node, then a blank line.
   */
  lemma RenderIndexTree(root: TreeNode, opts: RenderOptions)
    ensures var tail := RootLines(root) + Map(RenderAll(root.children, 0), TextLine) + [Text("")];
      var r := RenderIndex(root, opts);
      && |tail| <= |r| && r[|r| - |tail|..] == tail
      && (|RootLines(root)| > 0 <==> HasContent(root))
      && |Filter(RenderAll(root.children, 0), IsBullet)| == |PreOrderAll(root.children)|
  {
    var r := RenderIndex(root, opts);
    assert r[|r| - |TreeLines(root)|..] == TreeLines(root);
    RenderAllIsPreOrder(root.children, 0);
    BulletsOfLines(PlacedAll(root.children, 0));
    PlacedAllIsPreOrder(root.children, 0);
  }

  /** After aggregation the root's line shows the root's own tokens, the aggregate minus its children's. */
  lemma RootLineShowsOwnTokens(n: TreeNode, cmp: (string, string) -> int)
    requires HasContent(n)
    ensures var a := Aggregate(n, cmp);
      |RootLines(a)| > 0
      && RootLines(a)[0] == Text(RootLine(n.title, n.tokenCount, a.lastUpdated))
  {
    AggregateKeepsOwn(n, cmp);
    RootLineOfKept(n, Aggregate(n, cmp));
  }

  /** A node that keeps another's title, content file and own tokens shows that node's tokens on its root line. */
  lemma RootLineOfKept(n: TreeNode, a: TreeNode)
    requires HasContent(n)
    requires a.title == n.title && a.contentFile == n.contentFile && a.tokenCount - ChildTokens(a) == n.tokenCount
    ensures |RootLines(a)| > 0
    ensures RootLines(a)[0] == Text(RootLine(n.title, n.tokenCount, a.lastUpdated))
  {
    assert OwnTokens(a) == n.tokenCount;
    RootLineOf(a, n.tokenCount);
  }

  lemma RootLineOf(root: TreeNode, own: int)
    requires HasContent(root) && OwnTokens(root) == own
    ensures |RootLines(root)| > 0
    ensures RootLines(root)[0] == Text(RootLine(root.title, own, root.lastUpdated))
  {
  }
}
