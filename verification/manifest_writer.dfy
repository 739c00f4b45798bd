/**
  The manifest: a path-keyed table of every node that has a content file, with its direct
  children's paths, plus site metadata and totals.
 */
module ManifestWriter {
  import opened Common
  import opened Tree

  /** One manifest entry (`ManifestSection`). */
  datatype Section = Section(
    path: string,
    title: string,
    description: string,
    tokenCount: nat,
    lastUpdated: string,
    contentFile: string,
    children: seq<string>)

  datatype Site = Site(name: string, url: string, description: string)

  /** The manifest document; `sections` is the path-keyed record. */
  datatype Manifest = Manifest(
    version: string,
    generatedAt: string,
    site: Site,
    totalTokens: nat,
    totalPages: nat,
    fetchEndpoint: string,
    sections: map<string, Section>)

  const ContentDir := "content/"

  /** The entry written for a node with a content file. */
  function SectionOf(n: TreeNode): (s: Section)
    requires HasContent(n)
    ensures s.path == n.path && s.contentFile == ContentDir + n.contentFile.value
    ensures s.title == n.title && s.description == n.description
    ensures s.tokenCount == n.tokenCount && s.lastUpdated == n.lastUpdated
    ensures s.children == ChildPaths(n) && |s.children| == |n.children|
  {
    Section(n.path, n.title, n.description, n.tokenCount, n.lastUpdated,
            ContentDir + n.contentFile.value, ChildPaths(n))
  }

  /** What visiting one node does to the record: writes its entry when it has content. */
  function Visit(sections: map<string, Section>, n: TreeNode): (r: map<string, Section>)
    ensures HasContent(n) ==> r == sections[n.path := SectionOf(n)]
    ensures !HasContent(n) ==> r == sections
  {
    if HasContent(n) then sections[n.path := SectionOf(n)] else sections
  }

  /** `flattenTree`: visit the node, then each child's subtree in order. */
  function FlattenTree(n: TreeNode, sections: map<string, Section>): map<string, Section>
    decreases n
  {
    FlattenAll(n.children, Visit(sections, n))
  }

  function FlattenAll(cs: seq<TreeNode>, sections: map<string, Section>): map<string, Section>
    decreases cs
  {
    if |cs| == 0 then sections else FlattenAll(cs[1..], FlattenTree(cs[0], sections))
  }

  /** Visiting a list of nodes one after another. */
  function VisitEach(s: seq<TreeNode>, sections: map<string, Section>): map<string, Section>
  {
    if |s| == 0 then sections else VisitEach(s[1..], Visit(sections, s[0]))
  }

  lemma {:induction false} VisitEachAppend(a: seq<TreeNode>, b: seq<TreeNode>, sections: map<string, Section>)
    ensures VisitEach(a + b, sections) == VisitEach(b, VisitEach(a, sections))
  {
    if |a| > 0 {
      assert (a + b)[1..] == a[1..] + b;
      VisitEachAppend(a[1..], b, Visit(sections, a[0]));
    } else {
      assert a + b == b;
    }
  }

  /** `flattenTree` visits every node of the tree in pre-order, directories without content included. */
  lemma {:induction false} FlattenIsPreOrder(n: TreeNode, sections: map<string, Section>)
    ensures FlattenTree(n, sections) == VisitEach(PreOrder(n), sections)
    decreases n, 1
  {
    FlattenAllIsPreOrder(n.children, Visit(sections, n));
    assert PreOrder(n) == [n] + PreOrderAll(n.children);
    VisitEachAppend([n], PreOrderAll(n.children), sections);
  }

  lemma {:induction false} FlattenAllIsPreOrder(cs: seq<TreeNode>, sections: map<string, Section>)
    ensures FlattenAll(cs, sections) == VisitEach(PreOrderAll(cs), sections)
    decreases cs, 0
  {
    if |cs| > 0 {
      FlattenIsPreOrder(cs[0], sections);
      FlattenAllIsPreOrder(cs[1..], FlattenTree(cs[0], sections));
      VisitEachAppend(PreOrder(cs[0]), PreOrderAll(cs[1..]), sections);
    }
  }

  /** The nodes that write an entry under key `k`. */
  function WritesAt(k: string): TreeNode -> bool
  {
    (m: TreeNode) => HasContent(m) && m.path == k
  }

  /**
    The record after visiting `s`: key `k` is present iff it was before or some node of `s` with
    content has path `k`, and the last such node's entry is the one kept.
   */
  lemma VisitEachAt(s: seq<TreeNode>, sections: map<string, Section>, k: string)
    ensures var r := VisitEach(s, sections);
      var hits := Filter(s, WritesAt(k));
      && (k in r <==> k in sections || |hits| > 0)
      && (|hits| > 0 ==> r[k] == SectionOf(hits[|hits| - 1]))
      && (|hits| == 0 && k in sections ==> r[k] == sections[k])
  {
    VisitEachHas(s, sections, k);
    if k in sections || |Filter(s, WritesAt(k))| > 0 {
      VisitEachValue(s, sections, k);
    }
  }

  lemma {:induction false} VisitEachHas(s: seq<TreeNode>, sections: map<string, Section>, k: string)
    ensures k in VisitEach(s, sections) <==> k in sections || |Filter(s, WritesAt(k))| > 0
  {
    if |s| > 0 {
      VisitEachHas(s[1..], Visit(sections, s[0]), k);
      VisitAt(sections, s[0], k);
    }
  }

  lemma {:induction false} VisitEachValue(s: seq<TreeNode>, sections: map<string, Section>, k: string)
    requires k in sections || |Filter(s, WritesAt(k))| > 0
    ensures var hits := Filter(s, WritesAt(k));
      && k in VisitEach(s, sections)
      && (|hits| > 0 ==> VisitEach(s, sections)[k] == SectionOf(hits[|hits| - 1]))
      && (|hits| == 0 ==> VisitEach(s, sections)[k] == sections[k])
  {
    if |s| > 0 {
      var v := Visit(sections, s[0]);
      var rest := Filter(s[1..], WritesAt(k));
      VisitAt(sections, s[0], k);
      VisitEachHas(s[1..], v, k);
      VisitEachValue(s[1..], v, k);
      if WritesAt(k)(s[0]) {
        assert Filter(s, WritesAt(k)) == [s[0]] + rest;
      } else {
        assert Filter(s, WritesAt(k)) == rest;
      }
    }
  }

  lemma VisitAt(sections: map<string, Section>, n: TreeNode, k: string)
    ensures var v := Visit(sections, n);
      && (k in v <==> k in sections || WritesAt(k)(n))
      && (WritesAt(k)(n) ==> v[k] == SectionOf(n))
      && (!WritesAt(k)(n) && k in sections ==> v[k] == sections[k])
  {
  }

  /** Every entry is keyed by its own path and points into the content directory. */
  predicate WellKeyed(sections: map<string, Section>)
  {
    forall k :: k in sections ==> sections[k].path == k && |sections[k].contentFile| > |ContentDir|
  }

  lemma {:induction false} VisitEachWellKeyed(s: seq<TreeNode>, sections: map<string, Section>)
    requires WellKeyed(sections)
    ensures WellKeyed(VisitEach(s, sections))
  {
    if |s| > 0 {
      VisitEachWellKeyed(s[1..], Visit(sections, s[0]));
    }
  }

  /** `buildManifest`; `now` is the generation timestamp the source reads from the clock. */
  function BuildManifest(root: TreeNode, siteUrl: string, siteName: string, siteDescription: string,
                         fetchEndpoint: string, now: string): (m: Manifest)
    ensures m.version == "1.0" && m.generatedAt == now
    ensures m.site == Site(siteName, siteUrl, siteDescription) && m.fetchEndpoint == fetchEndpoint
    ensures m.totalTokens == root.tokenCount
    ensures WellKeyed(m.sections)
    ensures m.totalPages == |m.sections|
  {
    var sections := FlattenTree(root, map[]);
    FlattenIsPreOrder(root, map[]);
    VisitEachWellKeyed(PreOrder(root), map[]);
    PagesAreSections(sections);
    Manifest("1.0", now, Site(siteName, siteUrl, siteDescription), root.tokenCount,
             PageCount(sections), fetchEndpoint, sections)
  }

  /** `Object.values(sections).filter(s => s.contentFile).length`. */
  function PageCount(sections: map<string, Section>): nat
  {
    |set k | k in sections && sections[k].contentFile != ""|
  }

  /** Every written entry has a non-empty content file, so the page count is the entry count. */
  lemma PagesAreSections(sections: map<string, Section>)
    requires WellKeyed(sections)
    ensures PageCount(sections) == |sections|
  {
    assert (set k | k in sections && sections[k].contentFile != "") == sections.Keys;
  }

  /**
    On a tree whose paths are unique, the manifest holds exactly the nodes with content, each under
    its own path, with its fields, its prefixed content file and its direct children's paths.
   */
  lemma ManifestSections(root: TreeNode, siteUrl: string, siteName: string, siteDescription: string,
                         fetchEndpoint: string, now: string, i: nat)
    requires DistinctPaths(PreOrder(root)) && i < |PreOrder(root)|
    ensures var m := BuildManifest(root, siteUrl, siteName, siteDescription, fetchEndpoint, now);
      var n := PreOrder(root)[i];
      && (n.path in m.sections <==> HasContent(n))
      && (HasContent(n) ==> m.sections[n.path] == SectionOf(n))
  {
    var s := PreOrder(root);
    FlattenIsPreOrder(root, map[]);
    VisitEachAt(s, map[], s[i].path);
    OnlyWriter(s, i);
  }

  /** With unique paths, the only node that can write under a node's path is that node. */
  lemma OnlyWriter(s: seq<TreeNode>, i: nat)
    requires DistinctPaths(s) && i < |s|
    ensures var hits := Filter(s, WritesAt(s[i].path));
      && (forall j :: 0 <= j < |hits| ==> hits[j] == s[i])
      && (|hits| > 0 <==> HasContent(s[i]))
  {
    var hits := Filter(s, WritesAt(s[i].path));
    forall j | 0 <= j < |hits|
      ensures hits[j] == s[i]
    {
      assert hits[j] in s;
    }
    if HasContent(s[i]) {
      assert s[i] in hits;
    }
    if |hits| > 0 {
      assert WritesAt(s[i].path)(hits[0]);
    }
  }

  /** A key is in the manifest only if some node with content has that path. */
  lemma ManifestKeys(root: TreeNode, siteUrl: string, siteName: string, siteDescription: string,
                     fetchEndpoint: string, now: string, k: string)
    ensures var m := BuildManifest(root, siteUrl, siteName, siteDescription, fetchEndpoint, now);
      k in m.sections <==> exists j :: 0 <= j < |PreOrder(root)| && PreOrder(root)[j].path == k && HasContent(PreOrder(root)[j])
  {
    var s := PreOrder(root);
    FlattenIsPreOrder(root, map[]);
    VisitEachAt(s, map[], k);
    var hits := Filter(s, WritesAt(k));
    if |hits| > 0 {
      assert hits[0] in s;
    }
    forall j | 0 <= j < |s| && s[j].path == k && HasContent(s[j])
      ensures |hits| > 0
    {
      assert s[j] in hits;
    }
  }
}
