/**
  Page processing: a crawled page becomes a `Page` with a site path, cleaned markdown, a title and
  a description. URL parsing is a parameter (`pathnameOf`), as are the tokenizer (`countTokens`) and
  today's date; the regular expressions of the processor are modelled by their leftmost-match
  semantics, with JavaScript's white space and line terminators.
 */
module Processor {
  import opened Common
  import opened Strings
  import opened Paths
  import opened Tree
  import opened Mapper

  // urlToPath

  /** The site path for a URL pathname: `/` for the root or an empty pathname, one trailing `/` dropped otherwise. */
  function PathOfPathname(pathname: string): (r: string)
    ensures r != ""
    ensures pathname == "" ==> r == "/"
    ensures pathname != "" && !EndsWith(pathname, "/") ==> r == pathname
    ensures EndsWith(pathname, "/") && pathname != "/" ==> r + "/" == pathname
  {
    if pathname == "/" || pathname == "" then "/"
    else if EndsWith(pathname, "/") && |pathname| > 1 then pathname[..|pathname| - 1]
    else pathname
  }

  /** `urlToPath`: `None` when either URL fails to parse (the source throws); only the page's pathname is used. */
  function UrlToPath(url: string, baseUrl: string, pathnameOf: string -> Option<string>): (r: Option<string>)
    ensures r.None? <==> pathnameOf(baseUrl).None? || pathnameOf(url).None?
    ensures r.Some? ==> r.value == PathOfPathname(pathnameOf(url).value)
  {
    if pathnameOf(baseUrl).None? || pathnameOf(url).None? then None
    else Some(PathOfPathname(pathnameOf(url).value))
  }

  /** The base URL is only parsed, never used: any base that parses gives the same path. */
  lemma UrlToPathIgnoresBase(url: string, base1: string, base2: string, pathnameOf: string -> Option<string>)
    requires pathnameOf(base1).Some? && pathnameOf(base2).Some?
    ensures UrlToPath(url, base1, pathnameOf) == UrlToPath(url, base2, pathnameOf)
  {
  }

  /** The last character of a path built from segments is its last segment's, so never `/` unless it is the root. */
  lemma {:induction false} PathOfLast(segs: seq<string>)
    requires |segs| > 0 && forall i :: 0 <= i < |segs| ==> IsSegment(segs[i])
    ensures |PathOf(segs)| > 1 && PathOf(segs)[|PathOf(segs)| - 1] != '/'
  {
    var last := segs[|segs| - 1];
    if |segs| == 1 {
      assert Join(segs, "/") == last;
    } else {
      var init := segs[..|segs| - 1];
      assert segs == init + [last];
      JoinAppendOne(init, last, "/");
    }
    assert PathOf(segs)[|PathOf(segs)| - 1] == last[|last| - 1];
  }

  /**
    The tree's normalised paths are fixed points: a pathname that is a normalised path, with or
    without one trailing `/`, gives that path back.
   */
  lemma PathOfPathnameNormal(segs: seq<string>)
    requires forall i :: 0 <= i < |segs| ==> IsSegment(segs[i])
    ensures PathOfPathname(PathOf(segs)) == PathOf(segs)
    ensures |segs| > 0 ==> PathOfPathname(PathOf(segs) + "/") == PathOf(segs)
  {
    if |segs| > 0 {
      PathOfLast(segs);
      var p := PathOf(segs);
      assert !EndsWith(p, "/") by {
        assert p[|p| - 1..] == [p[|p| - 1]];
      }
      assert (p + "/")[..|p + "/"| - 1] == p;
    } else {
      assert PathOf(segs) == "/" + "";
    }
  }

  // cleanMarkdown: runs of three or more line feeds become two.

  /** The end of the run of `\n` starting at `i`. */
  function NewlineRunEnd(s: string, i: nat): (j: nat)
    requires i <= |s|
    ensures i <= j <= |s|
    ensures forall k :: i <= k < j ==> s[k] == '\n'
    ensures j < |s| ==> s[j] != '\n'
    decreases |s| - i
  {
    if i < |s| && s[i] == '\n' then NewlineRunEnd(s, i + 1) else i
  }

  /** `s.replace(/\n{3,}/g, '\n\n')`: each maximal run of three or more `\n` becomes exactly two. */
  function CollapseNewlines(s: string): (r: string)
    ensures |r| <= |s|
    ensures |s| > 0 ==> |r| > 0 && r[0] == s[0]
    decreases |s|
  {
    if |s| == 0 then ""
    else if s[0] != '\n' then [s[0]] + CollapseNewlines(s[1..])
    else
      var j := NewlineRunEnd(s, 0);
      (if j >= 3 then "\n\n" else s[..j]) + CollapseNewlines(s[j..])
  }

  /** A character other than a line feed is copied, and collapsing goes on after it. */
  lemma CollapseChar(c: char, s: string)
    requires c != '\n'
    ensures CollapseNewlines([c] + s) == [c] + CollapseNewlines(s)
  {
  }

  /** `k` line feeds. */
  function Newlines(k: nat): (r: string)
    ensures |r| == k && forall i :: 0 <= i < k ==> r[i] == '\n'
  {
    seq(k, _ => '\n')
  }

  /** A text opening with a line feed: its first run is kept when shorter than three, else replaced by two. */
  lemma CollapseAtRun(s: string, j: nat)
    requires |s| > 0 && s[0] == '\n' && j == NewlineRunEnd(s, 0)
    ensures CollapseNewlines(s) == (if j >= 3 then "\n\n" else s[..j]) + CollapseNewlines(s[j..])
  {
  }

  /**
    A maximal run of `k` line feeds becomes exactly two when `k` is three or more, and stays as it is
    otherwise; collapsing goes on after the run.
   */
  lemma CollapseRun(k: nat, b: string)
    requires |b| == 0 || b[0] != '\n'
    ensures CollapseNewlines(Newlines(k) + b) == (if k >= 3 then "\n\n" else Newlines(k)) + CollapseNewlines(b)
  {
    var run := Newlines(k);
    var s := run + b;
    if k == 0 {
      assert s == b;
    } else {
      RunThenText(run, b);
      CollapseAtRun(s, k);
    }
  }

  /** In a run of line feeds followed by a text not opening with one, the run ends where the text begins. */
  lemma RunThenText(run: string, b: string)
    requires |run| > 0 && forall i :: 0 <= i < |run| ==> run[i] == '\n'
    requires |b| == 0 || b[0] != '\n'
    ensures var s := run + b;
      s[0] == '\n' && NewlineRunEnd(s, 0) == |run| && s[..|run|] == run && s[|run|..] == b
  {
    var s := run + b;
    assert forall i :: 0 <= i < |run| ==> s[i] == '\n';
    assert |run| < |s| ==> s[|run|] == b[0];
    NewlineRunEndAt(s, 0, |run|);
  }

  /** Paragraphs apart by three line feeds stay apart by two: `a\n\n\nb` collapses to `a\n\nb`. */
  lemma CollapseParagraphs()
    ensures CollapseNewlines("a\n\n\nb") == "a\n\nb"
  {
  }

  /** Three line feeds in a row start at `i`. */
  predicate TripleAt(s: string, i: nat)
  {
    i + 3 <= |s| && s[i] == '\n' && s[i + 1] == '\n' && s[i + 2] == '\n'
  }

  predicate NoTriple(s: string)
  {
    forall i :: 0 <= i < |s| ==> !TripleAt(s, i)
  }

  /** Two texts without three adjacent line feeds, the second not starting with one, stay so side by side. */
  lemma NoTripleJoin(x: string, y: string)
    requires NoTriple(x) && NoTriple(y) && (|y| > 0 ==> y[0] != '\n')
    ensures NoTriple(x + y)
  {
    var s := x + y;
    forall i | 0 <= i < |s|
      ensures !TripleAt(s, i)
    {
      if i >= |x| {
        assert !TripleAt(y, i - |x|);
      } else if i + 3 <= |x| {
        assert !TripleAt(x, i);
      } else {
        assert i + 3 <= |s| ==> s[|x|] == y[0];
      }
    }
  }

  /** After collapsing, no three line feeds are adjacent. */
  lemma {:induction false} CollapseNoTriple(s: string)
    ensures NoTriple(CollapseNewlines(s))
    decreases |s|
  {
    if |s| > 0 {
      if s[0] != '\n' {
        var rest := CollapseNewlines(s[1..]);
        CollapseNoTriple(s[1..]);
        NoTripleAfterChar(s[0], rest);
      } else {
        var j := NewlineRunEnd(s, 0);
        var b := if j >= 3 then "\n\n" else s[..j];
        CollapseNoTriple(s[j..]);
        assert NoTriple(b);
        NoTripleJoin(b, CollapseNewlines(s[j..]));
      }
    }
  }

  lemma NoTripleAfterChar(c: char, rest: string)
    requires c != '\n' && NoTriple(rest)
    ensures NoTriple([c] + rest)
  {
    var s := [c] + rest;
    forall i | 0 <= i < |s|
      ensures !TripleAt(s, i)
    {
      if i >= 1 {
        assert !TripleAt(rest, i - 1);
      }
    }
  }

  /** A text without three adjacent line feeds is left as it is. */
  lemma {:induction false} CollapseKeepsNoTriple(s: string)
    requires NoTriple(s)
    ensures CollapseNewlines(s) == s
    decreases |s|
  {
    if |s| > 0 {
      if s[0] != '\n' {
        NoTripleSuffix(s, 1);
        CollapseKeepsNoTriple(s[1..]);
        assert s == [s[0]] + s[1..];
      } else {
        var j := NewlineRunEnd(s, 0);
        assert j < 3 by {
          assert !TripleAt(s, 0);
        }
        NoTripleSuffix(s, j);
        CollapseKeepsNoTriple(s[j..]);
        assert s == s[..j] + s[j..];
      }
    }
  }

  lemma NoTripleSuffix(s: string, j: nat)
    requires NoTriple(s) && j <= |s|
    ensures NoTriple(s[j..])
  {
    forall i | 0 <= i < |s[j..]|
      ensures !TripleAt(s[j..], i)
    {
      assert !TripleAt(s, j + i);
    }
  }

  lemma NoTriplePrefix(s: string, j: nat)
    requires NoTriple(s) && j <= |s|
    ensures NoTriple(s[..j])
  {
    forall i | 0 <= i < j
      ensures !TripleAt(s[..j], i)
    {
      assert !TripleAt(s, i);
    }
  }

  /** Collapsing changes a text exactly when it has three adjacent line feeds; so collapsing twice is collapsing once. */
  lemma CollapseFixedPoint(s: string)
    ensures CollapseNewlines(s) == s <==> NoTriple(s)
    ensures CollapseNewlines(CollapseNewlines(s)) == CollapseNewlines(s)
  {
    CollapseNoTriple(s);
    if NoTriple(s) {
      CollapseKeepsNoTriple(s);
    }
    CollapseKeepsNoTriple(CollapseNewlines(s));
  }

  /** The characters of `s` other than line feeds. */
  function Text(s: string): string
  {
    if |s| == 0 then "" else (if s[0] == '\n' then "" else [s[0]]) + Text(s[1..])
  }

  lemma {:induction false} TextAppend(a: string, b: string)
    ensures Text(a + b) == Text(a) + Text(b)
  {
    if |a| > 0 {
      assert (a + b)[1..] == a[1..] + b;
      TextAppend(a[1..], b);
    } else {
      assert a + b == b;
    }
  }

  lemma {:induction false} TextOfNewlines(s: string)
    requires forall k :: 0 <= k < |s| ==> s[k] == '\n'
    ensures Text(s) == ""
  {
    if |s| > 0 {
      TextOfNewlines(s[1..]);
    }
  }

  /** Collapsing removes line feeds only: every other character stays, in order. */
  lemma {:induction false} CollapseKeepsText(s: string)
    ensures Text(CollapseNewlines(s)) == Text(s)
    decreases |s|
  {
    if |s| > 0 {
      if s[0] != '\n' {
        CollapseKeepsText(s[1..]);
        TextAppend([s[0]], CollapseNewlines(s[1..]));
      } else {
        var j := NewlineRunEnd(s, 0);
        var b := if j >= 3 then "\n\n" else s[..j];
        CollapseKeepsText(s[j..]);
        TextAppend(b, CollapseNewlines(s[j..]));
        TextOfNewlines(b);
        TextOfNewlines(s[..j]);
        assert s == s[..j] + s[j..];
        TextAppend(s[..j], s[j..]);
      }
    }
  }

  // cleanMarkdown: the first skip-navigation link at the start of a line is removed.

  /** A position where `^` matches in multiline mode. */
  predicate LineStart(s: string, p: nat)
  {
    p == 0 || (p <= |s| && IsLineTerminator(s[p - 1]))
  }

  /** The end of the line holding position `i`: the next line terminator, or the end of the text. */
  function LineEnd(s: string, i: nat): (e: nat)
    requires i <= |s|
    ensures i <= e <= |s|
    ensures forall k :: i <= k < e ==> !IsLineTerminator(s[k])
    ensures e < |s| ==> IsLineTerminator(s[e])
    decreases |s| - i
  {
    if i < |s| && !IsLineTerminator(s[i]) then LineEnd(s, i + 1) else i
  }

  /** The first position in `[i, e)` holding `c`. */
  function FindChar(s: string, c: char, i: nat, e: nat): (r: Option<nat>)
    requires i <= e <= |s|
    ensures r.Some? ==> i <= r.value < e && s[r.value] == c && forall k :: i <= k < r.value ==> s[k] != c
    ensures r.None? ==> forall k :: i <= k < e ==> s[k] != c
    decreases e - i
  {
    if i == e then None else if s[i] == c then Some(i) else FindChar(s, c, i + 1, e)
  }

  const SkipPrefix := "[Skip to "

  /**
    `.*?\]\(.*?\)` from `j` within the line ending at `e`: the lazy first `.*?` tries each `](` in
    turn and stops at the first one followed on the line by a `)`; the position of that `)`.
   */
  function LinkClose(s: string, j: nat, e: nat): (r: Option<nat>)
    requires j <= e <= |s|
    ensures r.Some? ==> j + 2 <= r.value < e && s[r.value] == ')'
    decreases e - j
  {
    if j + 2 > e then None
    else if OccursAt(s, "](", j) && FindChar(s, ')', j + 2, e).Some? then FindChar(s, ')', j + 2, e)
    else LinkClose(s, j + 1, e)
  }

  /** Where a match of `\[Skip to .*?\]\(.*?\)\n*` starting at `p` ends, if one does. */
  function SkipLinkEnd(s: string, p: nat): (r: Option<nat>)
    requires p <= |s|
    ensures r.Some? ==> OccursAt(s, SkipPrefix, p) && p + |SkipPrefix| < r.value <= |s|
    ensures r.Some? && r.value < |s| ==> s[r.value] != '\n'
  {
    if !OccursAt(s, SkipPrefix, p) then None
    else
      var a := p + |SkipPrefix|;
      match LinkClose(s, a, LineEnd(s, a))
      case None => None
      case Some(c) => Some(NewlineRunEnd(s, c + 1))
  }

  /** The skip-link expression, anchored by `^` in multiline mode, matches at `p`. */
  predicate SkipLinkAt(s: string, p: nat)
    requires p <= |s|
  {
    LineStart(s, p) && SkipLinkEnd(s, p).Some?
  }

  /** `p` is the leftmost position where the skip-link expression matches. */
  predicate FirstSkipLink(s: string, p: nat)
  {
    p <= |s| && SkipLinkAt(s, p) && forall k :: 0 <= k < p ==> !SkipLinkAt(s, k)
  }

  /** The leftmost match of the skip-link expression at or after `p`: its start and end. */
  function FindSkipLink(s: string, p: nat): (r: Option<(nat, nat)>)
    requires p <= |s|
    ensures r.Some? ==> p <= r.value.0 <= |s| && SkipLinkAt(s, r.value.0) && SkipLinkEnd(s, r.value.0) == Some(r.value.1)
    ensures r.Some? ==> forall k :: p <= k < r.value.0 ==> !SkipLinkAt(s, k)
    ensures r.None? ==> forall k :: p <= k <= |s| ==> !SkipLinkAt(s, k)
    decreases |s| - p
  {
    if SkipLinkAt(s, p) then Some((p, SkipLinkEnd(s, p).value))
    else if p == |s| then None
    else
      var r := FindSkipLink(s, p + 1);
      NoSkipLinkFrom(s, p, if r.Some? then r.value.0 else |s| + 1);
      r
  }

  /** A position without a match extends a stretch without one back by one. */
  lemma NoSkipLinkFrom(s: string, p: nat, q: nat)
    requires p < |s| && q <= |s| + 1 && !SkipLinkAt(s, p)
    requires forall k :: p + 1 <= k < q ==> !SkipLinkAt(s, k)
    ensures forall k :: p <= k < q ==> !SkipLinkAt(s, k)
  {
  }

  /**
    `s.replace(/^\[Skip to .*?\]\(.*?\)\n*\/m, '')`: without a match the text is unchanged; otherwise
    the leftmost match, from its line start to the end of the line feeds after it, is cut out.
   */
  function RemoveSkipLink(s: string): (r: string)
    ensures r != s ==> exists k :: 0 <= k <= |s| && SkipLinkAt(s, k)
    ensures forall p :: 0 <= p <= |s| && FirstSkipLink(s, p) ==> r == s[..p] + s[SkipLinkEnd(s, p).value..]
  {
    match FindSkipLink(s, 0)
    case None => s
    case Some((p0, e)) =>
      var r := s[..p0] + s[e..];
      forall p | 0 <= p <= |s| && FirstSkipLink(s, p)
        ensures r == s[..p] + s[SkipLinkEnd(s, p).value..]
      {
        assert !(p < p0);
        assert !(p0 < p);
      }
      r
  }

  /** A text with a match anywhere gets strictly shorter: the leftmost match is cut out and is never empty. */
  lemma RemoveSkipLinkShorter(s: string)
    ensures (exists k :: 0 <= k <= |s| && SkipLinkAt(s, k)) ==> |RemoveSkipLink(s)| < |s|
  {
  }

  /** Whatever is removed is one stretch that begins at a line start with `[Skip to `. */
  lemma RemoveSkipLinkShape(s: string)
    ensures var r := RemoveSkipLink(s);
      r == s || exists p, e :: 0 <= p < e <= |s| && LineStart(s, p) && OccursAt(s, SkipPrefix, p) && r == s[..p] + s[e..]
  {
  }

  /** A text with no `[Skip to ` anywhere is left as it is. */
  lemma RemoveSkipLinkAbsent(s: string)
    requires forall k :: 0 <= k <= |s| ==> !OccursAt(s, SkipPrefix, k)
    ensures RemoveSkipLink(s) == s
  {
  }

  /** Removing the link cannot join line feeds into a run of three: the match swallows all the line feeds after it. */
  lemma RemoveSkipLinkNoTriple(s: string)
    requires NoTriple(s)
    ensures NoTriple(RemoveSkipLink(s))
  {
    match FindSkipLink(s, 0)
    case None =>
    case Some((p, e)) =>
      NoTripleSuffix(s, e);
      NoTriplePrefix(s, p);
      NoTripleJoin(s[..p], s[e..]);
  }

  /** Removing every `]` from `a` and every `)` from `b` leaves one place for the link to close. */
  lemma {:induction false} LinkCloseSkips(s: string, j: nat, j0: nat, e: nat)
    requires j <= j0 && j0 + 2 <= e <= |s|
    requires forall k :: j <= k < j0 ==> s[k] != ']'
    ensures LinkClose(s, j, e) == LinkClose(s, j0, e)
    decreases j0 - j
  {
    if j < j0 {
      assert !OccursAt(s, "](", j) by {
        assert s[j..j + 2][0] == s[j];
      }
      LinkCloseSkips(s, j + 1, j0, e);
    }
  }

  /**
    A skip link at the very start, given by where its `](` and its `)` are and where the line
    feeds after it end, is removed together with those line feeds.
   */
  lemma RemoveSkipLinkAtStart(s: string, j0: nat, m: nat, e: nat)
    requires OccursAt(s, SkipPrefix, 0) && |SkipPrefix| <= j0 && j0 + 2 <= m < e <= |s|
    requires forall k :: |SkipPrefix| <= k < j0 ==> s[k] != ']'
    requires OccursAt(s, "](", j0) && s[m] == ')'
    requires forall k :: j0 + 2 <= k < m ==> s[k] != ')'
    requires forall k :: |SkipPrefix| <= k <= m ==> !IsLineTerminator(s[k])
    requires forall k :: m + 1 <= k < e ==> s[k] == '\n'
    requires e == |s| || s[e] != '\n'
    ensures RemoveSkipLink(s) == s[e..]
  {
    SkipLinkEndAt(s, j0, m, e);
    assert FindSkipLink(s, 0) == Some((0, e));
    assert s[..0] + s[e..] == s[e..];
  }

  /** The match at the start of the text ends where the line feeds after its `)` end. */
  lemma SkipLinkEndAt(s: string, j0: nat, m: nat, e: nat)
    requires OccursAt(s, SkipPrefix, 0) && |SkipPrefix| <= j0 && j0 + 2 <= m < e <= |s|
    requires forall k :: |SkipPrefix| <= k < j0 ==> s[k] != ']'
    requires OccursAt(s, "](", j0) && s[m] == ')'
    requires forall k :: j0 + 2 <= k < m ==> s[k] != ')'
    requires forall k :: |SkipPrefix| <= k <= m ==> !IsLineTerminator(s[k])
    requires forall k :: m + 1 <= k < e ==> s[k] == '\n'
    requires e == |s| || s[e] != '\n'
    ensures SkipLinkEnd(s, 0) == Some(e)
  {
    var a := |SkipPrefix|;
    var le := LineEnd(s, a);
    LineEndBeyond(s, a, m);
    LinkCloseSkips(s, a, j0, le);
    LinkCloseAt(s, j0, m, le);
    NewlineRunEndAt(s, m + 1, e);
  }

  /** A `](` followed on its line by a `)`: the link closes at the first such `)`. */
  lemma LinkCloseAt(s: string, j0: nat, m: nat, le: nat)
    requires j0 + 2 <= m < le <= |s|
    requires OccursAt(s, "](", j0) && s[m] == ')'
    requires forall k :: j0 + 2 <= k < m ==> s[k] != ')'
    ensures LinkClose(s, j0, le) == Some(m)
  {
    FindCharAt(s, ')', j0 + 2, m, le);
  }

  /** The line holding `i` runs on past any position up to which there is no line terminator. */
  lemma LineEndBeyond(s: string, i: nat, m: nat)
    requires i <= m < |s|
    requires forall k :: i <= k <= m ==> !IsLineTerminator(s[k])
    ensures m < LineEnd(s, i)
  {
  }

  /** The first `c` of a range is the one found. */
  lemma FindCharAt(s: string, c: char, i: nat, m: nat, e: nat)
    requires i <= m < e <= |s| && s[m] == c
    requires forall k :: i <= k < m ==> s[k] != c
    ensures FindChar(s, c, i, e) == Some(m)
  {
  }

  /** A run of line feeds ending where the text ends or at another character is the run found. */
  lemma NewlineRunEndAt(s: string, i: nat, e: nat)
    requires i <= e <= |s|
    requires forall k :: i <= k < e ==> s[k] == '\n'
    requires e == |s| || s[e] != '\n'
    ensures NewlineRunEnd(s, i) == e
  {
  }

  /**
    A skip link on the first line, `[Skip to a](b)` followed by its line feeds, is removed with
    them, when `a` has no `]`, `b` has no `)` and neither has a line break.
   */
  lemma RemoveLeadingSkipLink(a: string, b: string, newlines: nat, rest: string)
    requires ']' !in a && NoBreak(a) && ')' !in b && NoBreak(b)
    requires |rest| == 0 || rest[0] != '\n'
    ensures RemoveSkipLink(SkipPrefix + a + "](" + b + ")" + seq(newlines, _ => '\n') + rest) == rest
  {
    var nl := seq(newlines, _ => '\n');
    var head := SkipPrefix + a + "](" + b + ")";
    var s := head + nl + rest;
    var j0 := |SkipPrefix| + |a|;
    var m := j0 + 2 + |b|;
    SkipLinkHead(a, b);
    assert |head| == m + 1;
    assert forall k :: 0 <= k < |head| ==> s[k] == head[k];
    assert s[..|SkipPrefix|] == head[..|SkipPrefix|];
    assert s[j0..j0 + 2] == head[j0..j0 + 2];
    assert forall k :: m + 1 <= k < m + 1 + newlines ==> s[k] == nl[k - m - 1];
    assert s[m + 1 + newlines..] == rest;
    RemoveSkipLinkAtStart(s, j0, m, m + 1 + newlines);
  }

  /** The layout of `[Skip to a](b)`: where its `](` and `)` are, and what lies between. */
  lemma SkipLinkHead(a: string, b: string)
    requires ']' !in a && NoBreak(a) && ')' !in b && NoBreak(b)
    ensures var head := SkipPrefix + a + "](" + b + ")";
      var j0 := |SkipPrefix| + |a|;
      var m := j0 + 2 + |b|;
      && |head| == m + 1
      && OccursAt(head, SkipPrefix, 0) && OccursAt(head, "](", j0) && head[m] == ')'
      && (forall k :: |SkipPrefix| <= k < j0 ==> head[k] != ']')
      && (forall k :: j0 + 2 <= k < m ==> head[k] != ')')
      && (forall k :: |SkipPrefix| <= k <= m ==> !IsLineTerminator(head[k]))
  {
    var head := SkipPrefix + a + "](" + b + ")";
    var j0 := |SkipPrefix| + |a|;
    var m := j0 + 2 + |b|;
    assert head[..|SkipPrefix|] == SkipPrefix;
    assert head[j0..j0 + 2] == "](";
    assert forall k :: |SkipPrefix| <= k < j0 ==> head[k] == a[k - |SkipPrefix|];
    assert forall k :: j0 + 2 <= k < m ==> head[k] == b[k - j0 - 2];
  }

  /** What `trim` keeps of a text without three adjacent line feeds has none either. */
  lemma TrimNoTriple(s: string)
    requires NoTriple(s)
    ensures NoTriple(Trim(s))
  {
    var a := SkipSpaces(s, 0);
    var b := SkipSpacesBack(s, a, |s|);
    NoTriplePrefix(s, b);
    NoTripleSuffix(s[..b], a);
    assert Trim(s) == s[..b][a..];
  }

  /** `cleanMarkdown`: collapse line-feed runs, remove the first skip link, trim. */
  function CleanMarkdown(markdown: string): (r: string)
    ensures NoTriple(r)
    ensures |r| > 0 ==> !IsSpace(r[0]) && !IsSpace(r[|r| - 1])
  {
    var collapsed := CollapseNewlines(markdown);
    var removed := RemoveSkipLink(collapsed);
    CollapseNoTriple(markdown);
    RemoveSkipLinkNoTriple(collapsed);
    TrimNoTriple(removed);
    Trim(removed)
  }

  /** Markdown that is already clean, trimmed, without a run of three line feeds or a skip link, is kept as it is. */
  lemma CleanMarkdownKeepsClean(markdown: string)
    requires NoTriple(markdown) && (|markdown| == 0 || (!IsSpace(markdown[0]) && !IsSpace(markdown[|markdown| - 1])))
    requires forall k :: 0 <= k <= |markdown| ==> !OccursAt(markdown, SkipPrefix, k)
    ensures CleanMarkdown(markdown) == markdown
  {
    CollapseKeepsNoTriple(markdown);
  }

  /** A leading skip link goes, with the line feeds after it, and the rest is trimmed. */
  lemma CleanMarkdownDropsSkipLink(a: string, b: string, newlines: nat, rest: string)
    requires ']' !in a && NoBreak(a) && ')' !in b && NoBreak(b)
    requires |rest| == 0 || rest[0] != '\n'
    requires NoTriple(SkipPrefix + a + "](" + b + ")" + seq(newlines, _ => '\n') + rest)
    ensures CleanMarkdown(SkipPrefix + a + "](" + b + ")" + seq(newlines, _ => '\n') + rest) == Trim(rest)
  {
    CollapseKeepsNoTriple(SkipPrefix + a + "](" + b + ")" + seq(newlines, _ => '\n') + rest);
    RemoveLeadingSkipLink(a, b, newlines, rest);
  }

  // extractTitle: `/^#\s+(.+)$/m`, the capture trimmed.

  /**
    The largest `q` in `[lo, hi]` holding a character other than a line terminator: where `(.+)`
    starts once the greedy `\s+` has given back as little as it must.
   */
  function GroupStart(s: string, lo: nat, hi: nat): (r: Option<nat>)
    requires lo <= hi
    ensures r.Some? ==> lo <= r.value <= hi && r.value < |s| && !IsLineTerminator(s[r.value])
    ensures r.None? ==> forall k :: lo <= k <= hi ==> k >= |s| || IsLineTerminator(s[k])
    decreases hi - lo
  {
    if hi < |s| && !IsLineTerminator(s[hi]) then Some(hi)
    else if hi == lo then None
    else GroupStart(s, lo, hi - 1)
  }

  /**
    The capture of `#\s+(.+)$` matched at `p`. `\s+` takes all the white space after `#`, line
    breaks included, and `(.+)` then runs to the end of its line.
   */
  function HeadingAt(s: string, p: nat): (r: Option<string>)
    requires p <= |s|
    ensures r.Some? ==> p + 1 < |s| && s[p] == '#' && IsSpace(s[p + 1]) && |r.value| > 0 && NoBreak(r.value)
  {
    if p < |s| && s[p] == '#' then
      var w := SkipSpaces(s, p + 1);
      if w == p + 1 then None
      else
        match GroupStart(s, p + 2, w)
        case None => None
        case Some(q) =>
          var e := LineEnd(s, q);
          assert forall k :: 0 <= k < e - q ==> s[q..e][k] == s[q + k];
          Some(s[q..e])
    else None
  }

  /** What `trim` keeps of a text without line breaks has none. */
  lemma TrimNoBreak(s: string)
    requires NoBreak(s)
    ensures NoBreak(Trim(s))
  {
    TrimIsSlice(s);
  }

  /** A match of the heading expression starts at `k`. */
  predicate Opens(s: string, k: nat)
  {
    k <= |s| && LineStart(s, k) && HeadingAt(s, k).Some?
  }

  /** The leftmost position at or after `p` where a match starts. */
  function FirstHeading(s: string, p: nat): (r: Option<nat>)
    requires p <= |s|
    ensures r.Some? ==> p <= r.value && Opens(s, r.value) && forall k :: p <= k < r.value ==> !Opens(s, k)
    ensures r.None? ==> forall k :: p <= k <= |s| ==> !Opens(s, k)
    decreases |s| - p
  {
    if Opens(s, p) then Some(p)
    else if p == |s| then None
    else FirstHeading(s, p + 1)
  }

  /**
    `extractTitle`: the capture of the leftmost match, trimmed; `None` when nothing matches. A
    line starting `##` never opens a match, and the title has no line break.
   */
  function ExtractTitle(markdown: string): (r: Option<string>)
    ensures r.None? <==> forall k :: 0 <= k <= |markdown| ==> !Opens(markdown, k)
    ensures r.Some? ==> NoBreak(r.value)
    ensures r.Some? ==> exists k: nat :: Opens(markdown, k) && markdown[k] == '#' && IsSpace(markdown[k + 1])
  {
    match FirstHeading(markdown, 0)
    case None => None
    case Some(k) =>
      TrimNoBreak(HeadingAt(markdown, k).value);
      Some(Trim(HeadingAt(markdown, k).value))
  }

  /** No line of `pre` opens a heading: each line starting with `#` goes on with a character that is not white space. */
  predicate NoHeadingLine(pre: string)
  {
    forall p :: 0 <= p < |pre| && LineStart(pre, p) && pre[p] == '#' ==> p + 1 < |pre| && !IsSpace(pre[p + 1])
  }

  /** White space from `i` up to a character that is not: `SkipSpaces` stops exactly there. */
  lemma {:induction false} SkipSpacesTo(s: string, i: nat, j: nat)
    requires i <= j < |s| && !IsSpace(s[j])
    requires forall k :: i <= k < j ==> IsSpace(s[k])
    ensures SkipSpaces(s, i) == j
    decreases j - i
  {
    if i < j {
      SkipSpacesTo(s, i + 1, j);
    }
  }

  /**
    A heading whose `#` is followed by white space up to `m`, and from `m` by the text `t` up to the
    end of its line, captures `t`.
   */
  lemma HeadingAtText(s: string, n: nat, m: nat, t: string)
    requires n + 1 < m && m + |t| <= |s| && s[n] == '#' && s[m..m + |t|] == t
    requires forall k :: n + 1 <= k < m ==> IsSpace(s[k])
    requires |t| > 0 && !IsSpace(t[0]) && NoBreak(t)
    requires m + |t| == |s| || IsLineTerminator(s[m + |t|])
    ensures HeadingAt(s, n) == Some(t)
  {
    assert s[m] == t[0];
    SkipSpacesTo(s, n + 1, m);
    assert GroupStart(s, n + 2, m) == Some(m);
    assert forall k :: m <= k < m + |t| ==> s[k] == t[k - m];
    assert LineEnd(s, m) == m + |t|;
  }

  /** No line start inside `pre` opens a heading, whatever follows `pre`. */
  lemma NoHeadingBefore(pre: string, h: string, k: nat)
    requires NoHeadingLine(pre) && k < |pre| && LineStart(pre + h, k)
    ensures HeadingAt(pre + h, k).None?
  {
    var s := pre + h;
    assert k > 0 ==> s[k - 1] == pre[k - 1];
    assert LineStart(pre, k);
    if s[k] == '#' {
      assert s[k + 1] == pre[k + 1];
    }
  }

  lemma NoOpensBefore(pre: string, h: string)
    requires NoHeadingLine(pre)
    ensures forall k :: 0 <= k < |pre| ==> !Opens(pre + h, k)
  {
    forall k | 0 <= k < |pre|
      ensures !Opens(pre + h, k)
    {
      if LineStart(pre + h, k) {
        NoHeadingBefore(pre, h, k);
      }
    }
  }

  /**
    The title is the first heading's text, trimmed: lines before it may start with `##` or `#tag`.
    The white space after `#` may be a line break, in which case the title is the next line.
   */
  lemma TitleOfFirstHeading(pre: string, ws: string, t: string, rest: string)
    requires NoHeadingLine(pre) && (|pre| == 0 || IsLineTerminator(pre[|pre| - 1]))
    requires |ws| > 0 && forall k :: 0 <= k < |ws| ==> IsSpace(ws[k])
    requires |t| > 0 && !IsSpace(t[0]) && NoBreak(t)
    requires |rest| == 0 || IsLineTerminator(rest[0])
    ensures ExtractTitle(pre + "#" + ws + t + rest) == Some(Trim(t))
  {
    var h := "#" + ws + t + rest;
    var s := pre + h;
    assert s == pre + "#" + ws + t + rest;
    var n := |pre|;
    var m := n + 1 + |ws|;
    NoOpensBefore(pre, h);
    assert s[n] == '#';
    assert forall k :: n + 1 <= k < m ==> s[k] == ws[k - n - 1];
    assert s[m..m + |t|] == t;
    assert m + |t| < |s| ==> s[m + |t|] == rest[0];
    HeadingAtText(s, n, m, t);
    FirstHeadingAt(s, n);
  }

  /** A match at `n` with none before it is the leftmost. */
  lemma FirstHeadingAt(s: string, n: nat)
    requires Opens(s, n) && forall k :: 0 <= k < n ==> !Opens(s, k)
    ensures FirstHeading(s, 0) == Some(n)
  {
  }

  /** Every white-space character after `#` goes to `\s+`, so two spaces before the text are skipped as one. */
  lemma TitleAfterSpaces()
    ensures ExtractTitle("#  Intro") == Some("Intro")
  {
    var s := "" + "#" + "  " + "Intro" + "";
    assert s == "#  Intro";
    TitleOfFirstHeading("", "  ", "Intro", "");
    assert Trim("Intro") == "Intro";
  }

  /** A bare `#` followed by a line break takes the next line as the title. */
  lemma TitleAcrossLineBreak()
    ensures ExtractTitle("#\nIntro") == Some("Intro")
  {
    var s := "" + "#" + "\n" + "Intro" + "";
    assert s == "#\nIntro";
    TitleOfFirstHeading("", "\n", "Intro", "");
    assert Trim("Intro") == "Intro";
  }

  // extractDescription

  /** A line that can serve as the description once a heading line has been seen. */
  predicate DescriptionLine(line: string)
  {
    && Trim(line) != ""
    && !StartsWith(line, "#") && !StartsWith(line, "!") && !StartsWith(line, "[")
    && 10 < |Trim(line)| < 300
  }

  /** The loop of `extractDescription` over the remaining lines, `found` telling whether a heading line was passed. */
  function DescriptionFrom(lines: seq<string>, found: bool): (r: Option<string>)
    ensures r.Some? ==> 10 < |r.value| < 300
    decreases |lines|
  {
    if |lines| == 0 then None
    else if StartsWith(lines[0], "#") then DescriptionFrom(lines[1..], true)
    else if found && DescriptionLine(lines[0]) then Some(Trim(lines[0]))
    else DescriptionFrom(lines[1..], found)
  }

  /** `extractDescription`: the lines are the pieces between line feeds. */
  function ExtractDescription(markdown: string): (r: Option<string>)
    ensures r.Some? ==> 10 < |r.value| < 300
  {
    DescriptionFrom(Split(markdown, '\n'), false)
  }

  /** Line `i` qualifies: it comes after some line starting with `#` (or one was passed already) and is a description line. */
  predicate Qualifies(lines: seq<string>, found: bool, i: nat)
  {
    && i < |lines|
    && (found || exists j :: 0 <= j < i && StartsWith(lines[j], "#"))
    && DescriptionLine(lines[i])
  }

  /** Dropping the first line moves every later line's verdict back by one. */
  lemma QualifiesShift(lines: seq<string>, found: bool, i: nat)
    requires 0 < i < |lines|
    ensures Qualifies(lines, found, i) <==> Qualifies(lines[1..], found || StartsWith(lines[0], "#"), i - 1)
  {
    var tail := lines[1..];
    if exists j :: 0 <= j < i && StartsWith(lines[j], "#") {
      var j :| 0 <= j < i && StartsWith(lines[j], "#");
      if j > 0 {
        assert StartsWith(tail[j - 1], "#");
      }
    }
    if exists j :: 0 <= j < i - 1 && StartsWith(tail[j], "#") {
      var j :| 0 <= j < i - 1 && StartsWith(tail[j], "#");
      assert StartsWith(lines[j + 1], "#");
    }
  }

  /** The loop returns the trimmed first qualifying line, and nothing when no line qualifies. */
  lemma {:induction false} DescriptionFromIsFirst(lines: seq<string>, found: bool)
    ensures DescriptionFrom(lines, found).None? <==> forall i :: 0 <= i < |lines| ==> !Qualifies(lines, found, i)
    ensures DescriptionFrom(lines, found).Some? ==>
      exists i :: (0 <= i < |lines| && Qualifies(lines, found, i)
        && DescriptionFrom(lines, found).value == Trim(lines[i]) && forall k :: 0 <= k < i ==> !Qualifies(lines, found, k))
    decreases |lines|
  {
    if |lines| > 0 {
      var found' := found || StartsWith(lines[0], "#");
      DescriptionFromIsFirst(lines[1..], found');
      forall i | 0 < i < |lines|
        ensures Qualifies(lines, found, i) <==> Qualifies(lines[1..], found', i - 1)
      {
        QualifiesShift(lines, found, i);
      }
      if !StartsWith(lines[0], "#") && found && DescriptionLine(lines[0]) {
        assert Qualifies(lines, found, 0);
      } else {
        assert !Qualifies(lines, found, 0);
        if DescriptionFrom(lines, found).Some? {
          var i :| 0 <= i < |lines[1..]| && Qualifies(lines[1..], found', i)
            && DescriptionFrom(lines[1..], found').value == Trim(lines[1..][i])
            && forall k :: 0 <= k < i ==> !Qualifies(lines[1..], found', k);
          assert Qualifies(lines, found, i + 1);
        }
      }
    }
  }

  /**
    The description is the trimmed first line, counting lines between line feeds, that follows some
    line starting with `#`, is not blank, does not start with `#`, `!` or `[`, and is 11 to 299
    characters long once trimmed; there is none when no line is like that.
   */
  lemma ExtractDescriptionIsFirst(markdown: string)
    ensures var lines := Split(markdown, '\n');
      && (ExtractDescription(markdown).None? <==> forall i :: 0 <= i < |lines| ==> !Qualifies(lines, false, i))
      && (ExtractDescription(markdown).Some? ==>
            exists i :: (0 <= i < |lines| && Qualifies(lines, false, i)
              && ExtractDescription(markdown).value == Trim(lines[i]) && forall k :: 0 <= k < i ==> !Qualifies(lines, false, k)))
  {
    DescriptionFromIsFirst(Split(markdown, '\n'), false);
  }

  // pathToTitle

  /** The last non-empty segment of a path, or the empty string. */
  function LastSegment(path: string): (r: string)
    ensures r == "" || IsSegment(r)
  {
    var segs := Segments(path);
    if |segs| == 0 then "" else segs[|segs| - 1]
  }

  /** `pathToTitle`: `Home` for the root, otherwise the last segment humanised as the tree builder humanises directories. */
  function PathToTitle(path: string): (r: string)
    ensures path == "/" ==> r == "Home"
    ensures path != "/" ==> |r| == |LastSegment(path)|
  {
    if path == "/" then "Home" else SegmentToTitle(LastSegment(path))
  }

  /** On a normalised path, the title comes from the path's own last segment. */
  lemma PathToTitleOfPath(segs: seq<string>)
    requires |segs| > 0 && forall i :: 0 <= i < |segs| ==> IsSegment(segs[i])
    ensures PathToTitle(PathOf(segs)) == SegmentToTitle(segs[|segs| - 1])
  {
    SegmentsOfPathOf(segs);
    PathOfLast(segs);
  }

  /** A trailing `/` does not change the title. */
  lemma PathToTitleTrailingSlash(path: string)
    requires path != "" && path != "/"
    ensures PathToTitle(path + "/") == PathToTitle(path)
  {
    SegmentsTrailingSlash(path);
    assert path + "/" != "/";
  }

  lemma SegmentsTrailingSlash(path: string)
    ensures Segments(path + "/") == Segments(path)
  {
    SplitAppend(path, "", '/');
    assert path + ['/'] + "" == path + "/";
    assert Split("", '/') == [""];
    var nonEmpty := (s: string) => s != "";
    FilterAppend(Split(path, '/'), [""], nonEmpty);
    assert Filter([""], nonEmpty) == [];
  }

  // cleanTitle: `/\s*[|–—-]\s*[^|–—-]+$/` removed, the rest trimmed, the original kept if nothing is left.

  /** The separators of site-name suffixes: `|`, en dash, em dash and hyphen. */
  predicate IsTitleSeparator(c: char)
  {
    c == '|' || c == '\U{2013}' || c == '\U{2014}' || c == '-'
  }

  /**
    The suffix expression matches from `p`: after the white space at `p`, a separator, then a
    non-empty rest without separators up to the end. (The greedy `\s*` can only give back white
    space, which is not a separator, and `[^|–—-]` also matches white space.)
   */
  predicate SuffixMatchAt(t: string, p: nat)
    requires p <= |t|
  {
    var w := SkipSpaces(t, p);
    && w + 1 < |t| && IsTitleSeparator(t[w])
    && forall k :: w < k < |t| ==> !IsTitleSeparator(t[k])
  }

  /** The leftmost start of a match at or after `p`. */
  function SuffixMatch(t: string, p: nat): (r: Option<nat>)
    requires p <= |t|
    ensures r.Some? ==> p <= r.value <= |t| && SuffixMatchAt(t, r.value) && forall k :: p <= k < r.value ==> !SuffixMatchAt(t, k)
    ensures r.None? ==> forall k :: p <= k <= |t| ==> !SuffixMatchAt(t, k)
    decreases |t| - p
  {
    if SuffixMatchAt(t, p) then Some(p)
    else if p == |t| then None
    else SuffixMatch(t, p + 1)
  }

  /** `cleanTitle`. */
  function CleanTitle(title: string): (r: string)
    ensures r == "" <==> title == ""
    ensures r == title || (|r| > 0 && !IsSpace(r[0]) && !IsSpace(r[|r| - 1]))
  {
    var stripped := match SuffixMatch(title, 0) case None => title case Some(p) => title[..p];
    var trimmed := Trim(stripped);
    if trimmed == "" then title else trimmed
  }

  /** The last separator of `t[..n]`. */
  function LastSeparator(t: string, n: nat): (r: Option<nat>)
    requires n <= |t|
    ensures r.Some? ==> r.value < n && IsTitleSeparator(t[r.value]) && forall k :: r.value < k < n ==> !IsTitleSeparator(t[k])
    ensures r.None? ==> forall k :: 0 <= k < n ==> !IsTitleSeparator(t[k])
  {
    if n == 0 then None
    else if IsTitleSeparator(t[n - 1]) then Some(n - 1)
    else LastSeparator(t, n - 1)
  }

  /** The separators are not white space. */
  lemma SeparatorNotSpace(c: char)
    requires IsTitleSeparator(c)
    ensures !IsSpace(c)
  {
  }

  /**
    The match, when there is one, starts at the white space before the last separator, and there
    is one exactly when the last separator is not the final character: so `cleanTitle` cuts the
    last separator, the white space before it and the text after it.
   */
  lemma SuffixMatchIsLastSeparator(t: string)
    ensures SuffixMatch(t, 0) ==
      match LastSeparator(t, |t|)
      case Some(q) => if q + 1 < |t| then Some(SkipSpacesBack(t, 0, q)) else None
      case None => None
  {
    match LastSeparator(t, |t|)
    case None =>
      forall p | 0 <= p <= |t|
        ensures !SuffixMatchAt(t, p)
      {
      }
    case Some(q) =>
      SeparatorNotSpace(t[q]);
      if q + 1 < |t| {
        var start := SkipSpacesBack(t, 0, q);
        assert SkipSpaces(t, start) == q;
        assert SuffixMatchAt(t, start);
        forall p | 0 <= p < start
          ensures !SuffixMatchAt(t, p)
        {
          assert !IsSpace(t[start - 1]);
          assert SkipSpaces(t, p) < start;
        }
      } else {
        forall p | 0 <= p <= |t|
          ensures !SuffixMatchAt(t, p)
        {
          var w := SkipSpaces(t, p);
          assert w + 1 < |t| && IsTitleSeparator(t[w]) ==> w < q;
        }
      }
  }

  /** A title without separators is only trimmed. */
  lemma CleanTitleNoSeparator(title: string)
    requires forall k :: 0 <= k < |title| ==> !IsTitleSeparator(title[k])
    ensures CleanTitle(title) == if Trim(title) == "" then title else Trim(title)
  {
    SuffixMatchIsLastSeparator(title);
  }

  lemma LastSeparatorIs(t: string, q: nat)
    requires q < |t| && IsTitleSeparator(t[q]) && forall k :: q < k < |t| ==> !IsTitleSeparator(t[k])
    ensures LastSeparator(t, |t|) == Some(q)
  {
  }

  lemma SkipSpacesBackIs(t: string, q: nat, e: nat)
    requires e <= q <= |t| && forall k :: e <= k < q ==> IsSpace(t[k])
    requires e == 0 || !IsSpace(t[e - 1])
    ensures SkipSpacesBack(t, 0, q) == e
  {
  }

  /** A site name after ` | ` (or another separator between spaces) goes, leaving the trimmed page name. */
  lemma CleanTitleDropsSiteName(name: string, sep: char, site: string)
    requires |name| > 0 && !IsSpace(name[0]) && !IsSpace(name[|name| - 1])
    requires IsTitleSeparator(sep)
    requires |site| > 0 && forall k :: 0 <= k < |site| ==> !IsTitleSeparator(site[k])
    ensures CleanTitle(name + " " + [sep] + " " + site) == name
  {
    var t := name + " " + [sep] + " " + site;
    var n := |name|;
    assert t[n] == ' ' && t[n + 1] == sep && t[n + 2] == ' ';
    assert forall k :: n + 3 <= k < |t| ==> t[k] == site[k - n - 3];
    LastSeparatorIs(t, n + 1);
    assert t[n - 1] == name[n - 1];
    SkipSpacesBackIs(t, n + 1, n);
    SuffixMatchIsLastSeparator(t);
    assert t[..n] == name;
  }

  /** The example of the source: the site name after `|` goes. */
  lemma CleanTitleExample()
    ensures CleanTitle("Getting Started | Vercel Docs") == "Getting Started"
  {
    var name, site := "Getting Started", "Vercel Docs";
    ExampleParts(name, site);
    CleanTitleDropsSiteName(name, '|', site);
  }

  lemma ExampleParts(name: string, site: string)
    requires name == "Getting Started" && site == "Vercel Docs"
    ensures |name| > 0 && !IsSpace(name[0]) && !IsSpace(name[|name| - 1])
    ensures |site| > 0 && forall k :: 0 <= k < |site| ==> !IsTitleSeparator(site[k])
    ensures name + " " + ['|'] + " " + site == "Getting Started | Vercel Docs"
  {
  }

  // processPage, processPages

  /** The title before cleaning: the scraped title when present (even empty), else the first heading, else the path. */
  function RawTitle(page: ScrapedPage, markdown: string, path: string): (r: string)
    ensures page.title.Some? ==> r == page.title.value
    ensures page.title.None? && ExtractTitle(markdown).Some? ==> r == ExtractTitle(markdown).value
    ensures page.title.None? && ExtractTitle(markdown).None? ==> r == PathToTitle(path)
  {
    match page.title
    case Some(t) => t
    case None =>
      match ExtractTitle(markdown)
      case Some(t) => t
      case None => PathToTitle(path)
  }

  /** The description: the first qualifying paragraph line of the content wins over the scraped one. */
  function PageDescription(page: ScrapedPage, markdown: string): (r: string)
    ensures ExtractDescription(markdown).Some? ==> r == ExtractDescription(markdown).value
    ensures ExtractDescription(markdown).None? ==> r == page.description.GetOr("")
  {
    match ExtractDescription(markdown)
    case Some(d) => d
    case None => page.description.GetOr("")
  }

  /**
    `processPage`: `None` when a URL fails to parse (the source throws). `countTokens` is the
    tokenizer and `today` the date part of the current time.
   */
  function ProcessPage(page: ScrapedPage, baseUrl: string, pathnameOf: string -> Option<string>,
                       countTokens: string -> nat, today: string): (r: Option<Page>)
    ensures r.None? <==> UrlToPath(page.url, baseUrl, pathnameOf).None?
    ensures r.Some? ==> var path := UrlToPath(page.url, baseUrl, pathnameOf).value;
      var markdown := CleanMarkdown(page.markdown);
      && r.value.url == page.url
      && r.value.path == path
      && r.value.markdown == markdown
      && r.value.title == CleanTitle(RawTitle(page, markdown, path))
      && r.value.description == PageDescription(page, markdown)
      && r.value.tokenCount == countTokens(markdown)
      && r.value.lastUpdated == today
  {
    match UrlToPath(page.url, baseUrl, pathnameOf)
    case None => None
    case Some(path) =>
      var markdown := CleanMarkdown(page.markdown);
      var title := CleanTitle(RawTitle(page, markdown, path));
      Some(Page(page.url, path, title, PageDescription(page, markdown), markdown, countTokens(markdown), today))
  }

  /** `processPage` with the run's fixed arguments, for mapping over the pages. */
  function Processing(baseUrl: string, pathnameOf: string -> Option<string>, countTokens: string -> nat, today: string)
    : ScrapedPage -> Option<Page>
  {
    page => ProcessPage(page, baseUrl, pathnameOf, countTokens, today)
  }

  /** `processPages`: every page processed in order; one URL that fails to parse fails the whole run. */
  function ProcessPages(pages: seq<ScrapedPage>, baseUrl: string, pathnameOf: string -> Option<string>,
                        countTokens: string -> nat, today: string): (r: Option<seq<Page>>)
    ensures r.None? <==> exists i :: 0 <= i < |pages| && UrlToPath(pages[i].url, baseUrl, pathnameOf).None?
    ensures r.Some? ==> (|r.value| == |pages|
      && forall i :: 0 <= i < |pages| ==> Some(r.value[i]) == ProcessPage(pages[i], baseUrl, pathnameOf, countTokens, today))
  {
    var f := Processing(baseUrl, pathnameOf, countTokens, today);
    assert forall i :: 0 <= i < |pages| ==> f(pages[i]) == ProcessPage(pages[i], baseUrl, pathnameOf, countTokens, today);
    MapAll(pages, f)
  }

  /**
    The page shape every later stage relies on: a non-empty path without a trailing slash (except
    the root), markdown with no blank-line run of more than one and no space at either end, and a
    title that is empty only when the raw title was.
   */
  lemma ProcessedPageShape(page: ScrapedPage, baseUrl: string, pathnameOf: string -> Option<string>,
                           countTokens: string -> nat, today: string)
    requires UrlToPath(page.url, baseUrl, pathnameOf).Some?
    ensures var p := ProcessPage(page, baseUrl, pathnameOf, countTokens, today).value;
      && p.path != ""
      && (p.path == "/" || !EndsWith(p.path, "/") || EndsWith(pathnameOf(page.url).value, "//"))
      && NoTriple(p.markdown)
      && (|p.markdown| > 0 ==> !IsSpace(p.markdown[0]) && !IsSpace(p.markdown[|p.markdown| - 1]))
      && (p.title == "" <==> RawTitle(page, p.markdown, p.path) == "")
  {
    var p := ProcessPage(page, baseUrl, pathnameOf, countTokens, today).value;
    PathOfPathnameShape(pathnameOf(page.url).value);
    assert p.path == PathOfPathname(pathnameOf(page.url).value);
    assert p.markdown == CleanMarkdown(page.markdown);
  }

  /** A path made from a pathname keeps a trailing slash only when it is the root or the pathname ended in two. */
  lemma PathOfPathnameShape(pathname: string)
    ensures var r := PathOfPathname(pathname);
      r == "/" || !EndsWith(r, "/") || EndsWith(pathname, "//")
  {
  }

  /**
    Which title a page gets: a scraped title wins, even over a heading; without one the first
    `# ` heading gives it; without either the path does, and the root page is `Home`.
   */
  lemma TitlePrecedence(page: ScrapedPage, baseUrl: string, pathnameOf: string -> Option<string>,
                        countTokens: string -> nat, today: string)
    requires UrlToPath(page.url, baseUrl, pathnameOf).Some?
    ensures var p := ProcessPage(page, baseUrl, pathnameOf, countTokens, today).value;
      && (page.title.Some? ==> p.title == CleanTitle(page.title.value))
      && (page.title.None? && ExtractTitle(p.markdown).Some? ==> p.title == CleanTitle(ExtractTitle(p.markdown).value))
      && (page.title.None? && ExtractTitle(p.markdown).None? && p.path == "/" ==> p.title == "Home")
  {
    var p := ProcessPage(page, baseUrl, pathnameOf, countTokens, today).value;
    if page.title.None? && ExtractTitle(p.markdown).None? && p.path == "/" {
      HomeIsClean();
    }
  }

  lemma HomeIsClean()
    ensures CleanTitle("Home") == "Home"
  {
    var t := "Home";
    HomeLetters(t);
    CleanTitleNoSeparator(t);
  }

  lemma HomeLetters(t: string)
    requires t == "Home"
    ensures forall k :: 0 <= k < |t| ==> !IsTitleSeparator(t[k])
    ensures Trim(t) == t
  {
    assert !IsSpace(t[0]) && !IsSpace(t[3]);
  }

  /**
    Which description a page gets: the first line of its cleaned markdown that qualifies, trimmed;
    when no line qualifies, the scraped description, or the empty string.
   */
  lemma DescriptionPrecedence(page: ScrapedPage, baseUrl: string, pathnameOf: string -> Option<string>,
                              countTokens: string -> nat, today: string)
    requires UrlToPath(page.url, baseUrl, pathnameOf).Some?
    ensures var p := ProcessPage(page, baseUrl, pathnameOf, countTokens, today).value;
      var lines := Split(p.markdown, '\n');
      && ((forall i :: 0 <= i < |lines| ==> !Qualifies(lines, false, i)) ==> p.description == page.description.GetOr(""))
      && ((exists i :: 0 <= i < |lines| && Qualifies(lines, false, i)) ==>
            exists i :: (0 <= i < |lines| && Qualifies(lines, false, i) && p.description == Trim(lines[i])
              && forall k :: 0 <= k < i ==> !Qualifies(lines, false, k)))
  {
    var p := ProcessPage(page, baseUrl, pathnameOf, countTokens, today).value;
    ExtractDescriptionIsFirst(p.markdown);
  }
}
