/**
  Site paths as the indexer sees them: a path is split on `/` and its empty pieces dropped
  (`path.split('/').filter(Boolean)`), and paths are rebuilt as `'/' + segments.join('/')`.
 */
module Paths {
  import opened Common
  import opened Strings

  predicate IsSegment(s: string)
  {
    s != "" && '/' !in s
  }

  /** The non-empty `/`-separated pieces of `path`, in order. */
  function Segments(path: string): (r: seq<string>)
    ensures forall i :: 0 <= i < |r| ==> IsSegment(r[i])
  {
    Filter(Split(path, '/'), (s: string) => s != "")
  }

  /** The path whose segments are `segs`; the root `/` when there are none. */
  function PathOf(segs: seq<string>): string
  {
    "/" + Join(segs, "/")
  }

  /** A normalised path: leading `/`, no empty segment, no trailing `/` except on the root. */
  predicate Normal(path: string)
  {
    path == PathOf(Segments(path))
  }

  /** Rebuilding a path from segments and splitting it again gives the same segments. */
  lemma SegmentsOfPathOf(segs: seq<string>)
    requires forall i :: 0 <= i < |segs| ==> IsSegment(segs[i])
    ensures Segments(PathOf(segs)) == segs
  {
    var j := Join(segs, "/");
    assert PathOf(segs) == "" + ['/'] + j;
    SplitAppend("", j, '/');
    var pieces := Split(PathOf(segs), '/');
    var nonEmpty := (s: string) => s != "";
    if |segs| == 0 {
      assert pieces == ["", ""];
    } else {
      SplitJoin(segs, '/');
      assert pieces == [""] + segs;
      FilterAppend([""], segs, nonEmpty);
      FilterAll(segs, nonEmpty);
    }
  }

  /** Different segment sequences give different paths. */
  lemma PathOfInjective(a: seq<string>, b: seq<string>)
    requires forall i :: 0 <= i < |a| ==> IsSegment(a[i])
    requires forall i :: 0 <= i < |b| ==> IsSegment(b[i])
    requires PathOf(a) == PathOf(b)
    ensures a == b
  {
    SegmentsOfPathOf(a);
    SegmentsOfPathOf(b);
  }

  /** Every path built from segments is normalised. */
  lemma PathOfNormal(segs: seq<string>)
    requires forall i :: 0 <= i < |segs| ==> IsSegment(segs[i])
    ensures Normal(PathOf(segs))
  {
    SegmentsOfPathOf(segs);
  }

  /** The start of a word in the sense of `\b\w`: a word character not preceded by one. */
  predicate WordStart(t: string, i: nat)
    requires i < |t|
  {
    IsWordChar(t[i]) && (i == 0 || !IsWordChar(t[i - 1]))
  }

  /** `s.replace(/[-_]/g, ' ')`. */
  function SeparatorsToSpaces(s: string): (t: string)
    ensures |t| == |s|
    ensures forall i :: 0 <= i < |t| ==> t[i] != '-' && t[i] != '_'
  {
    seq(|s|, i requires 0 <= i < |s| => if s[i] == '-' || s[i] == '_' then ' ' else s[i])
  }

  /** `t.replace(/\b\w/g, c => c.toUpperCase())`. */
  function CapitalizeWords(t: string): (u: string)
    ensures |u| == |t|
  {
    seq(|t|, i requires 0 <= i < |t| => if WordStart(t, i) then UpperAscii(t[i]) else t[i])
  }

  /** Humanises a path segment into a title: separators become spaces and each word starts upper-case. */
  function SegmentToTitle(segment: string): (r: string)
    ensures |r| == |segment|
    ensures forall i :: 0 <= i < |r| ==> r[i] != '-' && r[i] != '_'
    ensures forall i :: 0 <= i < |r| && WordStart(r, i) ==> !('a' <= r[i] <= 'z')
    ensures forall i :: 0 <= i < |r| && WordStart(r, i) ==> r[i] == UpperAscii(segment[i])
    ensures forall i :: 0 <= i < |r| && !WordStart(r, i) && segment[i] != '-' && segment[i] != '_' ==> r[i] == segment[i]
    ensures forall i :: 0 <= i < |r| && (segment[i] == '-' || segment[i] == '_') ==> r[i] == ' '
  {
    var t := SeparatorsToSpaces(segment);
    var u := CapitalizeWords(t);
    assert forall i :: 0 <= i < |u| ==> (IsWordChar(u[i]) <==> IsWordChar(t[i]));
    assert forall i :: 0 <= i < |u| ==> (WordStart(u, i) <==> WordStart(t, i));
    assert forall i :: 0 <= i < |u| && WordStart(t, i) ==> t[i] == segment[i];
    u
  }

  /** A typical slug: `quick-start` becomes `Quick Start`. */
  lemma SegmentToTitleExample()
    ensures SegmentToTitle("quick-start") == "Quick Start"
  {
    var t := SeparatorsToSpaces("quick-start");
    assert t == "quick start";
    assert CapitalizeWords(t) == "Quick Start";
  }


  /** Humanising a title that is already humanised changes nothing. */
  lemma SegmentToTitleIdempotent(segment: string)
    ensures SegmentToTitle(SegmentToTitle(segment)) == SegmentToTitle(segment)
  {
    var r := SegmentToTitle(segment);
    var t := SeparatorsToSpaces(r);
    assert t == r;
    var u := CapitalizeWords(t);
    forall i | 0 <= i < |r|
      ensures u[i] == r[i]
    {
      if WordStart(r, i) {
        assert !('a' <= r[i] <= 'z');
      }
    }
  }
}
