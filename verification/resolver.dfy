/**
  Resolving requested section paths against the manifest: exact key lookup, an optional date
  cutoff, and a silent skip of sections whose content file is missing. The content directory is a
  map from content-file path to text.
 */
module Resolver {
  import opened Common
  import opened Strings
  import opened ManifestWriter

  /** A manifest section together with its content (`ResolvedSection`). */
  datatype Resolved = Resolved(section: Section, content: string)

  /** `options.updatedAfter` is truthy: given and non-empty. */
  predicate HasCutoff(updatedAfter: Option<string>)
  {
    updatedAfter.Some? && updatedAfter.value != ""
  }

  /** Whether a requested path yields a result. */
  predicate Keeps(m: Manifest, store: map<string, string>, updatedAfter: Option<string>, p: string)
  {
    && p in m.sections
    && !(HasCutoff(updatedAfter) && Less(m.sections[p].lastUpdated, updatedAfter.value))
    && m.sections[p].contentFile in store
  }

  /** One iteration of the loop in `resolveSections`. */
  function ResolveOne(m: Manifest, store: map<string, string>, updatedAfter: Option<string>, p: string): (r: Option<Resolved>)
    ensures r.Some? <==> Keeps(m, store, updatedAfter, p)
    ensures r.Some? ==> r.value.section == m.sections[p] && r.value.content == store[m.sections[p].contentFile]
  {
    if p !in m.sections then None
    else
      var section := m.sections[p];
      if HasCutoff(updatedAfter) && Less(section.lastUpdated, updatedAfter.value) then None
      else if section.contentFile !in store then None
      else Some(Resolved(section, store[section.contentFile]))
  }

  /** `resolveSections`. */
  function ResolveSections(m: Manifest, store: map<string, string>, paths: seq<string>, updatedAfter: Option<string>): (r: seq<Resolved>)
    ensures |r| <= |paths|
  {
    if |paths| == 0 then []
    else
      ResolvedList(m, store, updatedAfter, paths[0]) + ResolveSections(m, store, paths[1..], updatedAfter)
  }

  /** What one requested path contributes: its result, or nothing. */
  function ResolvedList(m: Manifest, store: map<string, string>, updatedAfter: Option<string>, p: string): (r: seq<Resolved>)
    ensures |r| <= 1
  {
    match ResolveOne(m, store, updatedAfter, p)
    case Some(x) => [x]
    case None => []
  }

  /** Resolving a concatenation of requests concatenates the results: nothing is de-duplicated. */
  lemma {:induction false} ResolveAppend(m: Manifest, store: map<string, string>, a: seq<string>, b: seq<string>, updatedAfter: Option<string>)
    ensures ResolveSections(m, store, a + b, updatedAfter)
            == ResolveSections(m, store, a, updatedAfter) + ResolveSections(m, store, b, updatedAfter)
  {
    if |a| > 0 {
      assert (a + b)[0] == a[0] && (a + b)[1..] == a[1..] + b;
      ResolveAppend(m, store, a[1..], b, updatedAfter);
      var h := ResolvedList(m, store, updatedAfter, a[0]);
      var ra := ResolveSections(m, store, a[1..], updatedAfter);
      var rb := ResolveSections(m, store, b, updatedAfter);
      assert ResolveSections(m, store, a + b, updatedAfter) == h + (ra + rb);
      assert ResolveSections(m, store, a, updatedAfter) == h + ra;
      AppendAssoc(h, ra, rb);
    } else {
      assert a + b == b;
    }
  }

  /** The results are, in request order, exactly the kept requests, each with its section and content. */
  lemma {:induction false} ResolveIsFilter(m: Manifest, store: map<string, string>, paths: seq<string>, updatedAfter: Option<string>)
    ensures var r := ResolveSections(m, store, paths, updatedAfter);
      var kept := Filter(paths, (p: string) => Keeps(m, store, updatedAfter, p));
      && |r| == |kept|
      && forall i :: 0 <= i < |r| ==>
           kept[i] in m.sections && r[i] == Resolved(m.sections[kept[i]], store[m.sections[kept[i]].contentFile])
  {
    if |paths| > 0 {
      ResolveIsFilter(m, store, paths[1..], updatedAfter);
    }
  }

  /** A path that is not a key of the manifest, a pattern with `*` included, contributes nothing. */
  lemma ResolveUnknown(m: Manifest, store: map<string, string>, p: string, updatedAfter: Option<string>)
    requires p !in m.sections
    ensures ResolveSections(m, store, [p], updatedAfter) == []
  {
  }

  /** Asking twice for a path that resolves gives its result twice. */
  lemma ResolveRepeated(m: Manifest, store: map<string, string>, p: string, updatedAfter: Option<string>)
    requires Keeps(m, store, updatedAfter, p)
    ensures var one := Resolved(m.sections[p], store[m.sections[p].contentFile]);
      ResolveSections(m, store, [p, p], updatedAfter) == [one, one]
  {
    ResolveAppend(m, store, [p], [p], updatedAfter);
    assert [p] + [p] == [p, p];
  }

  /**
    With a non-empty cutoff, a present section with its content is dropped exactly when its date is
    before the cutoff in string order; a date equal to the cutoff is kept.
   */
  lemma ResolveCutoff(m: Manifest, store: map<string, string>, p: string, cutoff: string)
    requires cutoff != "" && p in m.sections && m.sections[p].contentFile in store
    ensures ResolveOne(m, store, Some(cutoff), p).None? <==> Less(m.sections[p].lastUpdated, cutoff)
    ensures m.sections[p].lastUpdated == cutoff ==> ResolveOne(m, store, Some(cutoff), p).Some?
  {
    LessIrreflexive(cutoff);
  }

  /** Without a cutoff, or with an empty one, dates play no part. */
  lemma ResolveNoCutoff(m: Manifest, store: map<string, string>, p: string, updatedAfter: Option<string>)
    requires !HasCutoff(updatedAfter)
    ensures ResolveOne(m, store, updatedAfter, p).Some? <==> p in m.sections && m.sections[p].contentFile in store
  {
  }
}
