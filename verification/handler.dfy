/**
  The fetch handler as a step function over its one piece of state, the cached manifest. Loading
  the manifest is outside the model: each call is given what a load would return at that moment
  (`None` when it throws), and the content directory is a map.
 */
module Handler {
  import opened Common
  import opened Strings
  import opened ManifestWriter
  import opened Resolver
  import opened Formats

  datatype Request = Request(sections: Option<string>, format: Option<string>, updatedAfter: Option<string>)

  /** A response body: a JSON error message (left unserialised) or the formatted sections. */
  datatype ResponseBody = Error(message: string) | Ok(body: Body)

  datatype Response = Response(status: int, headers: map<string, string>, body: ResponseBody)

  const AllowOrigin := "Access-Control-Allow-Origin"
  const AllowMethods := "Access-Control-Allow-Methods"
  const ContentType := "Content-Type"

  /** The CORS headers every response carries, with its content type. */
  function Headers(contentType: string): (h: map<string, string>)
    ensures h.Keys == {AllowOrigin, AllowMethods, ContentType}
    ensures h[AllowOrigin] == "*" && h[AllowMethods] == "GET, OPTIONS" && h[ContentType] == contentType
  {
    map[AllowOrigin := "*", AllowMethods := "GET, OPTIONS", ContentType := contentType]
  }

  /** The requested paths: the `sections` parameter split at commas, each piece trimmed. */
  function Patterns(sections: string): (r: seq<string>)
    ensures |r| == |Split(sections, ',')|
    ensures forall i :: 0 <= i < |r| ==> r[i] == Trim(Split(sections, ',')[i]) && ',' !in r[i]
  {
    var pieces := Split(sections, ',');
    var r := Map(pieces, Trim);
    assert forall i :: 0 <= i < |r| ==> ',' !in r[i] by {
      forall i | 0 <= i < |r|
        ensures ',' !in r[i]
      {
        TrimIsSlice(pieces[i]);
      }
    }
    r
  }

  /** The untrimmed pieces, joined again with commas, are the parameter: the order is the request's. */
  lemma PatternsInOrder(sections: string)
    ensures Join(Split(sections, ','), ",") == sections
  {
    JoinSplit(sections, ',');
  }

  /**
    `handleFetch`: given the cached manifest, the request, what loading the manifest would give now,
    and the content directory, the new cache and the response.
   */
  function HandleFetch(cache: Option<Manifest>, req: Request, load: Option<Manifest>, store: map<string, string>)
    : (r: (Option<Manifest>, Response))
    ensures r.1.headers.Keys == {AllowOrigin, AllowMethods, ContentType}
    ensures r.1.headers[AllowOrigin] == "*" && r.1.headers[AllowMethods] == "GET, OPTIONS"
    ensures r.1.status == 400 <==> req.sections.GetOr("") == ""
    ensures r.1.status == 400 ==> r.0 == cache && r.1.body == Error("sections parameter required")
    ensures r.1.status == 500 <==> req.sections.GetOr("") != "" && cache.None? && load.None?
    ensures r.1.status == 500 ==> r.0 == None && r.1.body == Error("manifest.json not found")
    ensures r.1.status == 400 || r.1.status == 500 ==> r.1.headers[ContentType] == "application/json"
    ensures r.1.status in {200, 400, 500}
    ensures r.1.status == 200 ==> r.0 == (if cache.Some? then cache else load) && r.0.Some?
  {
    if req.sections.GetOr("") == "" then
      (cache, Response(400, Headers("application/json"), Error("sections parameter required")))
    else if cache.None? && load.None? then
      (None, Response(500, Headers("application/json"), Error("manifest.json not found")))
    else
      var m := if cache.Some? then cache.value else load.value;
      var paths := Patterns(req.sections.value);
      var format := req.format.GetOr("md");
      var resolved := ResolveSections(m, store, paths, req.updatedAfter);
      var out := FormatResponse(resolved, format);
      (Some(m), Response(200, Headers(out.contentType), Ok(out.body)))
  }

  /** A request without `sections` never looks at the manifest: what a load would give does not matter. */
  lemma MissingSectionsSkipsLoad(cache: Option<Manifest>, req: Request, load1: Option<Manifest>, load2: Option<Manifest>,
                                 store: map<string, string>)
    requires req.sections.GetOr("") == ""
    ensures HandleFetch(cache, req, load1, store) == HandleFetch(cache, req, load2, store)
  {
  }

  /** Once a manifest is cached it is used for every later call and never reloaded or dropped. */
  lemma CachedNeverReloads(m: Manifest, req: Request, load1: Option<Manifest>, load2: Option<Manifest>,
                           store: map<string, string>)
    ensures HandleFetch(Some(m), req, load1, store) == HandleFetch(Some(m), req, load2, store)
    ensures HandleFetch(Some(m), req, load1, store).0 == Some(m)
  {
  }

  /**
    A successful call answers 200 with the formatter's content type and body, for the trimmed
    comma-separated paths, the format defaulting to `md` and the date cutoff passed through.
   */
  lemma SuccessResponse(cache: Option<Manifest>, req: Request, load: Option<Manifest>, store: map<string, string>)
    requires req.sections.GetOr("") != "" && (cache.Some? || load.Some?)
    ensures var (c, resp) := HandleFetch(cache, req, load, store);
      var m := if cache.Some? then cache.value else load.value;
      var out := FormatResponse(ResolveSections(m, store, Patterns(req.sections.value), req.updatedAfter),
                                req.format.GetOr("md"));
      && c == Some(m)
      && resp.status == 200
      && resp.headers[ContentType] == out.contentType
      && resp.body == Ok(out.body)
      && (req.format.None? ==> resp.headers[ContentType] == "text/markdown")
  {
  }

  /** Serving a run of requests; `loads[i]` is what loading would give at the `i`-th call. */
  function Serve(cache: Option<Manifest>, reqs: seq<Request>, loads: seq<Option<Manifest>>, store: map<string, string>)
    : (r: (Option<Manifest>, seq<Response>))
    requires |loads| == |reqs|
    ensures |r.1| == |reqs|
    decreases |reqs|
  {
    if |reqs| == 0 then (cache, [])
    else
      var (c, resp) := HandleFetch(cache, reqs[0], loads[0], store);
      var (c', rest) := Serve(c, reqs[1..], loads[1..], store);
      (c', [resp] + rest)
  }

  /** A cache, once filled, stays filled over any run of later requests, whatever loading would give. */
  lemma {:induction false} ServeKeepsCache(cache: Option<Manifest>, reqs: seq<Request>, loads: seq<Option<Manifest>>,
                                           store: map<string, string>)
    requires |loads| == |reqs| && cache.Some?
    ensures Serve(cache, reqs, loads, store).0 == cache
  {
    if |reqs| > 0 {
      ServeKeepsCache(HandleFetch(cache, reqs[0], loads[0], store).0, reqs[1..], loads[1..], store);
    }
  }

  /** A load failure does not stick: the call after it loads again and can succeed. */
  lemma RetryAfterFailure(req: Request, store: map<string, string>, m: Manifest)
    requires req.sections.GetOr("") != ""
    ensures var (c1, r1) := HandleFetch(None, req, None, store);
      var (c2, r2) := HandleFetch(c1, req, Some(m), store);
      r1.status == 500 && c1 == None && r2.status == 200 && c2 == Some(m)
  {
  }
}
