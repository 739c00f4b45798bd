/**
  The crawler's URL filtering: glob patterns matched against a URL's pathname, and the include and
  exclude lists applied to crawl results and to discovered links. URL parsing is a parameter
  (`pathnameOf`, `None` when the URL does not parse); a glob is translated into a regular
  expression, and the part of regular-expression syntax a translated glob can contain is modelled
  exactly, while any other syntax is handed to a regular-expression engine given as a parameter.
 */
module Mapper {
  import opened Common
  import opened Strings

  /** A page returned by the crawler, before processing. */
  datatype ScrapedPage = ScrapedPage(
    url: string,
    markdown: string,
    title: Option<string>,
    description: Option<string>,
    statusCode: Option<int>)

  /** The metadata of one crawl result item; every field may be missing. */
  datatype Metadata = Metadata(
    sourceURL: Option<string>,
    title: Option<string>,
    description: Option<string>,
    statusCode: Option<int>)

  /** One crawl result item as the crawl service returns it. */
  datatype CrawlItem = CrawlItem(markdown: Option<string>, metadata: Option<Metadata>)

  /** The pieces of a translated glob: a literal character, `.` (one character) and `.*` (any run). */
  datatype Token = Lit(c: char) | AnyChar | AnyRun

  /** Characters with a regular-expression meaning that the translation leaves in place, `.` aside. */
  predicate RegexSyntax(c: char)
  {
    c in "\\^$|+()[]{}"
  }

  /** The regular-expression source built from a glob: `*` becomes `.*`, then `?` becomes `.`. */
  function Translate(pattern: string): (r: string)
    ensures '?' !in r
    ensures |r| >= |pattern|
    ensures forall c :: c in pattern && c != '*' && c != '?' ==> c in r
    ensures '*' !in pattern && '?' !in pattern ==> r == pattern
  {
    if |pattern| == 0 then ""
    else
      (if pattern[0] == '*' then ".*" else if pattern[0] == '?' then "." else [pattern[0]])
      + Translate(pattern[1..])
  }

  /** `s.replace(/c/g, rep)` for one character `c`: every occurrence replaced, left to right. */
  function ReplaceAllChar(s: string, c: char, rep: string): (r: string)
    ensures c !in s ==> r == s
  {
    if |s| == 0 then ""
    else (if s[0] == c then rep else [s[0]]) + ReplaceAllChar(s[1..], c, rep)
  }

  lemma {:induction false} ReplaceAllCharAppend(a: string, b: string, c: char, rep: string)
    ensures ReplaceAllChar(a + b, c, rep) == ReplaceAllChar(a, c, rep) + ReplaceAllChar(b, c, rep)
  {
    if |a| == 0 {
      assert a + b == b;
    } else {
      var ab := a + b;
      assert ab[0] == a[0] && ab[1..] == a[1..] + b;
      ReplaceAllCharAppend(a[1..], b, c, rep);
    }
  }

  /** Translating a glob piece by piece: the translation of a concatenation is the concatenation of the translations. */
  lemma {:induction false} TranslateAppend(a: string, b: string)
    ensures Translate(a + b) == Translate(a) + Translate(b)
  {
    if |a| == 0 {
      assert a + b == b;
    } else {
      assert (a + b)[0] == a[0];
      assert (a + b)[1..] == a[1..] + b;
      TranslateAppend(a[1..], b);
    }
  }

  /**
    The one-pass translation is the source's two passes: every `*` replaced by `.*`, then every `?`
    by `.`. The second pass cannot touch what the first inserted, as `.*` holds no `?`.
   */
  lemma {:induction false} TranslateIsTwoReplaces(pattern: string)
    ensures Translate(pattern) == ReplaceAllChar(ReplaceAllChar(pattern, '*', ".*"), '?', ".")
  {
    if |pattern| > 0 {
      var head := if pattern[0] == '*' then ".*" else [pattern[0]];
      var tail := ReplaceAllChar(pattern[1..], '*', ".*");
      assert ReplaceAllChar(pattern, '*', ".*") == head + tail;
      ReplaceAllCharAppend(head, tail, '?', ".");
      TranslateIsTwoReplaces(pattern[1..]);
      if pattern[0] == '*' {
        assert ReplaceAllChar(head, '?', ".") == ".*";
      } else {
        assert ReplaceAllChar(head, '?', ".") == if pattern[0] == '?' then "." else [pattern[0]];
      }
    }
  }

  /** A lone `*` becomes `.*`, and a lone `?` becomes `.`. */
  lemma TranslateWildcards()
    ensures Translate("*") == ".*" && Translate("?") == "."
  {
  }

  /** The usual directory glob, a plain prefix and a trailing `*`, becomes the prefix and `.*`. */
  lemma TranslatePrefixStar(prefix: string)
    requires '*' !in prefix && '?' !in prefix
    ensures Translate(prefix + "*") == prefix + ".*"
  {
    TranslateAppend(prefix, "*");
    TranslateWildcards();
  }

  /** The token a glob character stands for once translated: `.` keeps its regular-expression meaning. */
  function TokenOf(c: char): Token
  {
    if c == '*' then AnyRun else if c == '?' || c == '.' then AnyChar else Lit(c)
  }

  /** The tokens of a glob whose translation uses no other regular-expression syntax. */
  function Compile(pattern: string): (r: Option<seq<Token>>)
    ensures r.Some? <==> forall i :: 0 <= i < |pattern| ==> !RegexSyntax(pattern[i])
    ensures r.Some? ==> |r.value| == |pattern|
  {
    if exists i :: 0 <= i < |pattern| && RegexSyntax(pattern[i]) then None
    else Some(seq(|pattern|, i requires 0 <= i < |pattern| => TokenOf(pattern[i])))
  }

  /** No line terminator in `s`: what `.` may run over. */
  predicate NoBreak(s: string)
  {
    forall i :: 0 <= i < |s| ==> !IsLineTerminator(s[i])
  }

  /** Whether the anchored expression `^…$` made of `g` matches all of `s`. */
  function Matches(g: seq<Token>, s: string): bool
    decreases |g| + |s|
  {
    if |g| == 0 then |s| == 0
    else match g[0]
      case Lit(c) => |s| > 0 && s[0] == c && Matches(g[1..], s[1..])
      case AnyChar => |s| > 0 && !IsLineTerminator(s[0]) && Matches(g[1..], s[1..])
      case AnyRun => Matches(g[1..], s) || (|s| > 0 && !IsLineTerminator(s[0]) && Matches(g, s[1..]))
  }

  /**
    `matchGlob`: the URL's pathname against the glob, anchored at both ends. `engine(source, text)`
    stands for `new RegExp(source).test(text)`, `None` when the source is not a valid expression;
    it is consulted only for globs using syntax beyond `*`, `?` and `.`.
   */
  function MatchGlob(url: string, pattern: string, pathnameOf: string -> Option<string>,
                     engine: (string, string) -> Option<bool>): (r: bool)
    ensures pathnameOf(url).None? ==> !r
    ensures pathnameOf(url).Some? && Compile(pattern).Some? ==> (r <==> Matches(Compile(pattern).value, pathnameOf(url).value))
    ensures pathnameOf(url).Some? && Compile(pattern).None? ==>
      (r <==> engine(Translate(pattern), pathnameOf(url).value) == Some(true))
  {
    match pathnameOf(url)
    case None => false
    case Some(path) =>
      match Compile(pattern)
      case Some(g) => Matches(g, path)
      case None =>
        match engine(Translate(pattern), path)
        case None => false
        case Some(b) => b
  }

  // Properties of the token language.

  /** The tokens of a plain string: every character literal. */
  function Lits(s: string): (g: seq<Token>)
    ensures |g| == |s| && forall i :: 0 <= i < |s| ==> g[i] == Lit(s[i])
  {
    seq(|s|, i requires 0 <= i < |s| => Lit(s[i]))
  }

  /** Literal tokens match exactly their own text. */
  lemma {:induction false} MatchesLiteral(lit: string, s: string)
    ensures Matches(Lits(lit), s) <==> s == lit
  {
    if |lit| > 0 && |s| > 0 {
      MatchesLiteral(lit[1..], s[1..]);
      assert Lits(lit)[1..] == Lits(lit[1..]);
      if s[0] == lit[0] && s[1..] == lit[1..] {
        assert s == [s[0]] + s[1..] && lit == [lit[0]] + lit[1..];
      }
    }
  }

  /** `.*` alone matches exactly the texts without a line terminator, the empty one included. */
  lemma {:induction false} MatchesAnyRun(s: string)
    ensures Matches([AnyRun], s) <==> NoBreak(s)
  {
    if |s| > 0 {
      MatchesAnyRun(s[1..]);
      assert [AnyRun][1..] == [];
      assert NoBreak(s) <==> !IsLineTerminator(s[0]) && NoBreak(s[1..]) by {
        assert forall i :: 1 <= i < |s| ==> s[i] == s[1..][i - 1];
      }
    }
  }

  /** A match of a concatenation splits into a match of each part. */
  lemma {:induction false} MatchesSplit(g1: seq<Token>, g2: seq<Token>, s: string) returns (k: nat)
    requires Matches(g1 + g2, s)
    ensures k <= |s| && Matches(g1, s[..k]) && Matches(g2, s[k..])
    decreases |g1| + |s|
  {
    if |g1| == 0 {
      assert g1 + g2 == g2;
      k := 0;
      assert s[..0] == [] && s[0..] == s;
    } else {
      assert (g1 + g2)[0] == g1[0] && (g1 + g2)[1..] == g1[1..] + g2;
      match g1[0]
      case AnyRun =>
        if Matches(g1[1..] + g2, s) {
          k := MatchesSplit(g1[1..], g2, s);
        } else {
          var k' := MatchesSplit(g1, g2, s[1..]);
          k := k' + 1;
          assert s[..k][0] == s[0] && s[..k][1..] == s[1..][..k'];
          assert s[k..] == s[1..][k'..];
        }
      case _ =>
        var k' := MatchesSplit(g1[1..], g2, s[1..]);
        k := k' + 1;
        assert s[..k][0] == s[0] && s[..k][1..] == s[1..][..k'];
        assert s[k..] == s[1..][k'..];
    }
  }

  /** Matches of the parts, side by side, make a match of the concatenation. */
  lemma {:induction false} MatchesJoin(g1: seq<Token>, g2: seq<Token>, s: string, k: nat)
    requires k <= |s| && Matches(g1, s[..k]) && Matches(g2, s[k..])
    ensures Matches(g1 + g2, s)
    decreases |g1| + |s|
  {
    if |g1| == 0 {
      assert g1 + g2 == g2;
      assert s[k..] == s;
    } else {
      assert (g1 + g2)[0] == g1[0] && (g1 + g2)[1..] == g1[1..] + g2;
      match g1[0]
      case AnyRun =>
        if Matches(g1[1..], s[..k]) {
          MatchesJoin(g1[1..], g2, s, k);
        } else {
          assert s[..k][1..] == s[1..][..k - 1];
          assert s[k..] == s[1..][k - 1..];
          MatchesJoin(g1, g2, s[1..], k - 1);
        }
      case _ =>
        assert s[..k][1..] == s[1..][..k - 1];
        assert s[k..] == s[1..][k - 1..];
        MatchesJoin(g1[1..], g2, s[1..], k - 1);
    }
  }

  /** The tokens read left to right: a concatenation matches exactly the concatenations of matches. */
  lemma MatchesAppend(g1: seq<Token>, g2: seq<Token>, s: string)
    ensures Matches(g1 + g2, s) <==> exists k :: 0 <= k <= |s| && Matches(g1, s[..k]) && Matches(g2, s[k..])
  {
    if Matches(g1 + g2, s) {
      var k := MatchesSplit(g1, g2, s);
    }
    forall k | 0 <= k <= |s| && Matches(g1, s[..k]) && Matches(g2, s[k..])
      ensures Matches(g1 + g2, s)
    {
      MatchesJoin(g1, g2, s, k);
    }
  }

  /** A literal prefix followed by `*` matches the texts that start with the prefix and continue without a line break. */
  lemma PrefixThenAnyRun(prefix: string, s: string)
    ensures Matches(Lits(prefix) + [AnyRun], s) <==> StartsWith(s, prefix) && NoBreak(s[|prefix|..])
  {
    MatchesAppend(Lits(prefix), [AnyRun], s);
    if StartsWith(s, prefix) && NoBreak(s[|prefix|..]) {
      MatchesLiteral(prefix, s[..|prefix|]);
      MatchesAnyRun(s[|prefix|..]);
    }
    forall k | 0 <= k <= |s| && Matches(Lits(prefix), s[..k]) && Matches([AnyRun], s[k..])
      ensures StartsWith(s, prefix) && NoBreak(s[|prefix|..])
    {
      MatchesLiteral(prefix, s[..k]);
      MatchesAnyRun(s[k..]);
    }
  }

  /** Without `*`, a glob matches texts of its own length, position by position. */
  lemma {:induction false} MatchesWithoutRun(g: seq<Token>, s: string)
    requires forall i :: 0 <= i < |g| ==> g[i] != AnyRun
    ensures Matches(g, s) <==> |s| == |g| && forall i :: 0 <= i < |s| ==>
      (if g[i] == AnyChar then !IsLineTerminator(s[i]) else g[i] == Lit(s[i]))
  {
    if |g| > 0 && |s| > 0 {
      MatchesWithoutRun(g[1..], s[1..]);
      assert forall i :: 1 <= i < |s| ==> s[i] == s[1..][i - 1];
      assert forall i :: 1 <= i < |g| ==> g[i] == g[1..][i - 1];
    }
  }

  // Properties of matchGlob.

  /** Only the pathname counts: URLs with the same pathname match the same globs. */
  lemma MatchGlobPathnameOnly(u1: string, u2: string, pattern: string, pathnameOf: string -> Option<string>,
                              engine: (string, string) -> Option<bool>)
    requires pathnameOf(u1) == pathnameOf(u2)
    ensures MatchGlob(u1, pattern, pathnameOf, engine) == MatchGlob(u2, pattern, pathnameOf, engine)
  {
  }

  /** A glob without wildcards, `.` or other syntax matches only the identical pathname. */
  lemma MatchGlobLiteral(url: string, pattern: string, pathnameOf: string -> Option<string>,
                         engine: (string, string) -> Option<bool>)
    requires forall i :: 0 <= i < |pattern| ==> !RegexSyntax(pattern[i]) && pattern[i] !in "*?."
    ensures MatchGlob(url, pattern, pathnameOf, engine) <==> pathnameOf(url) == Some(pattern)
  {
    assert Compile(pattern).value == Lits(pattern);
    if pathnameOf(url).Some? {
      MatchesLiteral(pattern, pathnameOf(url).value);
    }
  }

  /** `prefix*` matches the pathnames that start with the prefix, the prefix itself included. */
  lemma MatchGlobPrefix(url: string, prefix: string, pathnameOf: string -> Option<string>,
                        engine: (string, string) -> Option<bool>)
    requires forall i :: 0 <= i < |prefix| ==> !RegexSyntax(prefix[i]) && prefix[i] !in "*?."
    ensures MatchGlob(url, prefix + "*", pathnameOf, engine) <==>
      pathnameOf(url).Some? && StartsWith(pathnameOf(url).value, prefix) && NoBreak(pathnameOf(url).value[|prefix|..])
  {
    var pattern := prefix + "*";
    assert forall i :: 0 <= i < |pattern| ==> !RegexSyntax(pattern[i]);
    assert Compile(pattern).value == Lits(prefix) + [AnyRun];
    if pathnameOf(url).Some? {
      PrefixThenAnyRun(prefix, pathnameOf(url).value);
    }
  }

  /**
    Without `*`, each `?` and each `.` of a glob stands for exactly one character, and every other
    character for itself: a `.` meant literally also matches any other character.
   */
  lemma MatchGlobOneForOne(url: string, pattern: string, pathnameOf: string -> Option<string>,
                           engine: (string, string) -> Option<bool>)
    requires forall i :: 0 <= i < |pattern| ==> !RegexSyntax(pattern[i]) && pattern[i] != '*'
    ensures MatchGlob(url, pattern, pathnameOf, engine) <==>
      && pathnameOf(url).Some?
      && |pathnameOf(url).value| == |pattern|
      && forall i :: 0 <= i < |pattern| ==>
           if pattern[i] == '?' || pattern[i] == '.' then !IsLineTerminator(pathnameOf(url).value[i])
           else pathnameOf(url).value[i] == pattern[i]
  {
    if pathnameOf(url).Some? {
      MatchesWithoutRun(Compile(pattern).value, pathnameOf(url).value);
    }
  }

  // The include and exclude filters.

  /** `patterns.some(p => matchGlob(url, p, …))`. */
  predicate AnyMatch(url: string, patterns: seq<string>, pathnameOf: string -> Option<string>,
                     engine: (string, string) -> Option<bool>)
  {
    exists i :: 0 <= i < |patterns| && MatchGlob(url, patterns[i], pathnameOf, engine)
  }

  /** A URL passes when the include list is absent or empty or one of it matches, and no exclude pattern matches. */
  predicate Admitted(url: string, includes: Option<seq<string>>, excludes: seq<string>,
                     pathnameOf: string -> Option<string>, engine: (string, string) -> Option<bool>)
  {
    && (includes.None? || |includes.value| == 0 || AnyMatch(url, includes.value, pathnameOf, engine))
    && !AnyMatch(url, excludes, pathnameOf, engine)
  }

  /** JavaScript truthiness of an optional string: present and non-empty. */
  predicate Truthy(o: Option<string>)
  {
    o.Some? && o.value != ""
  }

  /** A crawl item with markdown and a source URL. */
  predicate Usable(item: CrawlItem)
  {
    Truthy(item.markdown) && item.metadata.Some? && Truthy(item.metadata.value.sourceURL)
  }

  function SourceUrl(item: CrawlItem): string
    requires Usable(item)
  {
    item.metadata.value.sourceURL.value
  }

  /** The page built from a usable item. */
  function PageOf(item: CrawlItem): (p: ScrapedPage)
    requires Usable(item)
    ensures p.url == SourceUrl(item) && p.markdown == item.markdown.value
    ensures p.title == item.metadata.value.title && p.description == item.metadata.value.description
    ensures p.statusCode == item.metadata.value.statusCode
  {
    var md := item.metadata.value;
    ScrapedPage(md.sourceURL.value, item.markdown.value, md.title, md.description, md.statusCode)
  }

  /** The loop over a completed crawl's items in `crawlSite`: skip unusable items, then filter. */
  function CrawlPages(items: seq<CrawlItem>, includes: Option<seq<string>>, excludes: seq<string>,
                      pathnameOf: string -> Option<string>, engine: (string, string) -> Option<bool>)
    : (r: seq<ScrapedPage>)
    ensures |r| <= |items|
    ensures forall i :: 0 <= i < |r| ==>
      r[i].url != "" && r[i].markdown != "" && Admitted(r[i].url, includes, excludes, pathnameOf, engine)
  {
    if |items| == 0 then []
    else
      var rest := CrawlPages(items[1..], includes, excludes, pathnameOf, engine);
      if Usable(items[0]) && Admitted(SourceUrl(items[0]), includes, excludes, pathnameOf, engine)
      then [PageOf(items[0])] + rest
      else rest
  }

  /** An item the loop keeps. */
  predicate Kept(item: CrawlItem, includes: Option<seq<string>>, excludes: seq<string>,
                 pathnameOf: string -> Option<string>, engine: (string, string) -> Option<bool>)
  {
    Usable(item) && Admitted(SourceUrl(item), includes, excludes, pathnameOf, engine)
  }

  function KeptItem(includes: Option<seq<string>>, excludes: seq<string>, pathnameOf: string -> Option<string>,
                    engine: (string, string) -> Option<bool>): CrawlItem -> bool
  {
    item => Kept(item, includes, excludes, pathnameOf, engine)
  }

  /** The crawl's pages are the kept items, in their order, each made into a page. */
  lemma {:induction false} CrawlPagesIsFilter(items: seq<CrawlItem>, includes: Option<seq<string>>, excludes: seq<string>,
                                              pathnameOf: string -> Option<string>, engine: (string, string) -> Option<bool>)
    ensures var kept := Filter(items, KeptItem(includes, excludes, pathnameOf, engine));
      var r := CrawlPages(items, includes, excludes, pathnameOf, engine);
      && |r| == |kept|
      && forall i :: 0 <= i < |kept| ==> Usable(kept[i]) && r[i] == PageOf(kept[i])
  {
    var kf := KeptItem(includes, excludes, pathnameOf, engine);
    CrawlPagesPointwise(items, includes, excludes, pathnameOf, engine);
    assert Pointwise(Filter(items, kf), CrawlPages(items, includes, excludes, pathnameOf, engine), MadeFrom);
  }

  /** A page is the one built from an item. */
  predicate MadeFrom(item: CrawlItem, page: ScrapedPage)
  {
    Usable(item) && page == PageOf(item)
  }

  lemma {:induction false} CrawlPagesPointwise(items: seq<CrawlItem>, includes: Option<seq<string>>, excludes: seq<string>,
                                               pathnameOf: string -> Option<string>, engine: (string, string) -> Option<bool>)
    ensures Pointwise(Filter(items, KeptItem(includes, excludes, pathnameOf, engine)),
                      CrawlPages(items, includes, excludes, pathnameOf, engine), MadeFrom)
  {
    if |items| > 0 {
      var kf := KeptItem(includes, excludes, pathnameOf, engine);
      var rest := CrawlPages(items[1..], includes, excludes, pathnameOf, engine);
      var keptRest := Filter(items[1..], kf);
      CrawlPagesPointwise(items[1..], includes, excludes, pathnameOf, engine);
      if kf(items[0]) {
        assert Filter(items, kf) == [items[0]] + keptRest;
        PointwiseCons(items[0], keptRest, PageOf(items[0]), rest, MadeFrom);
      } else {
        assert Filter(items, kf) == keptRest;
      }
    }
  }

  /** An item whose URL an exclude pattern matches never yields a page, whatever the include list says. */
  lemma CrawlExcludeWins(items: seq<CrawlItem>, includes: Option<seq<string>>, excludes: seq<string>,
                         pathnameOf: string -> Option<string>, engine: (string, string) -> Option<bool>, url: string)
    requires AnyMatch(url, excludes, pathnameOf, engine)
    ensures forall i :: 0 <= i < |CrawlPages(items, includes, excludes, pathnameOf, engine)| ==>
      CrawlPages(items, includes, excludes, pathnameOf, engine)[i].url != url
  {
  }

  /** The include test of `mapSite`: passes everything when no include pattern is given. */
  function IncludeTest(includes: Option<seq<string>>, pathnameOf: string -> Option<string>,
                       engine: (string, string) -> Option<bool>): string -> bool
  {
    u => includes.None? || |includes.value| == 0 || AnyMatch(u, includes.value, pathnameOf, engine)
  }

  function ExcludeTest(excludes: seq<string>, pathnameOf: string -> Option<string>,
                       engine: (string, string) -> Option<bool>): string -> bool
  {
    u => !AnyMatch(u, excludes, pathnameOf, engine)
  }

  /** Both filters in a row keep, in order, exactly the admitted links. */
  lemma FilteredTwice(links: seq<string>, includes: Option<seq<string>>, excludes: seq<string>,
                      pathnameOf: string -> Option<string>, engine: (string, string) -> Option<bool>)
    ensures var r := Filter(Filter(links, IncludeTest(includes, pathnameOf, engine)), ExcludeTest(excludes, pathnameOf, engine));
      && Subsequence(r, links)
      && forall u :: u in r <==> u in links && Admitted(u, includes, excludes, pathnameOf, engine)
  {
    var both := Both(IncludeTest(includes, pathnameOf, engine), ExcludeTest(excludes, pathnameOf, engine));
    FilterFilter(links, IncludeTest(includes, pathnameOf, engine), ExcludeTest(excludes, pathnameOf, engine));
    FilterIsSubsequence(links, both);
    assert forall u :: both(u) == Admitted(u, includes, excludes, pathnameOf, engine);
  }

  /** The link filter of `mapSite`: keep include matches when includes are given, then drop exclude matches. */
  function FilterLinks(links: seq<string>, includes: Option<seq<string>>, excludes: Option<seq<string>>,
                       pathnameOf: string -> Option<string>, engine: (string, string) -> Option<bool>)
    : (r: seq<string>)
    ensures Subsequence(r, links)
    ensures forall u :: u in r <==> u in links && Admitted(u, includes, excludes.GetOr([]), pathnameOf, engine)
  {
    var byInclude := IncludeTest(includes, pathnameOf, engine);
    var byExclude := ExcludeTest(excludes.GetOr([]), pathnameOf, engine);
    var urls := if includes.Some? && |includes.value| > 0 then Filter(links, byInclude) else links;
    var r := if excludes.Some? && |excludes.value| > 0 then Filter(urls, byExclude) else urls;
    assert urls == Filter(links, byInclude) by {
      if includes.None? || |includes.value| == 0 {
        FilterAll(links, byInclude);
      }
    }
    assert r == Filter(urls, byExclude) by {
      if excludes.None? || |excludes.value| == 0 {
        FilterAll(urls, byExclude);
      }
    }
    FilteredTwice(links, includes, excludes.GetOr([]), pathnameOf, engine);
    r
  }

  /** With the default exclude list, an admin path is never kept, even when an include pattern names it. */
  lemma DefaultExcludeDropsAdmin(links: seq<string>, includes: Option<seq<string>>, pathnameOf: string -> Option<string>,
                                 engine: (string, string) -> Option<bool>, url: string)
    requires pathnameOf(url).Some? && StartsWith(pathnameOf(url).value, "/admin/")
    requires NoBreak(pathnameOf(url).value)
    ensures url !in FilterLinks(links, includes, Some(DefaultExclude), pathnameOf, engine)
  {
    var p := pathnameOf(url).value;
    MatchGlobPrefix(url, "/admin/", pathnameOf, engine);
    assert "/admin/" + "*" == DefaultExclude[0];
    assert p[7..] == p[|"/admin/"|..];
    assert forall i :: 7 <= i < |p| ==> p[i] == p[7..][i - 7];
  }

  /** The exclude list a configuration gets when it names none. */
  const DefaultExclude: seq<string> := ["/admin/*", "/api/*", "/login*", "/sitemap.xml", "/atom", "/feed", "/rss"]
}
