# llmsmap-txt in Dafny

A model of the core of llmsmap-txt, a TypeScript tool that crawls a web site and builds an
`llmsmap.txt` index for language-model agents. The index is a hierarchical, token-annotated site map.
The tool also builds a `manifest.json` lookup table, and a fetch handler serves any subset of pages
in one request. The model covers:

- **Crawl filtering** (`Mapper`, `src/crawler/mapper.ts`): glob include/exclude patterns matched against
  a URL's pathname, applied to crawl results and to discovered links.
- **Page processing** (`Processor`, `src/crawler/processor.ts`):
  - URL to site path;
  - markdown clean-up (collapsing blank-line runs, dropping a leading "Skip to" link, trimming);
  - title and description extraction;
  - site-name suffix stripping.
- **Tree building** (`TreeBuilder`, `src/indexer/tree-builder.ts`): pages sorted by depth, then inserted
  under a root, creating intermediate directory nodes. Duplicate paths are last-write-wins.
- **Aggregation** (`Aggregator`, `src/indexer/aggregator.ts`): subtree token totals, latest dates and
  children sorted by path.
- **Rendering** (`Renderer`, `src/indexer/renderer.ts`):
  - token formatting (`999`, `1.5k`, `12.3k`; the comma grouping of `toLocaleString` is reached only by
    counts of -1000 or below);
  - page counts and example paths;
  - the instructions block;
  - the nested bullet lines of the site map.
- **Manifest** (`ManifestWriter`, `src/generator/manifest-writer.ts`): flattening the tree into a
  path-keyed table of sections for the pages that have content.
- **Serving**:
  - `Resolver` (`src/server/resolver.ts`): looks up requested paths, with a date cutoff and missing
    content files skipped;
  - `Formats` (`src/server/formats.ts`): renders JSON or markdown/text responses;
  - `Handler` (`src/server/handler.ts`): the fetch handler, with its cached manifest, 400/500 errors
    and CORS headers.

Shared pieces live in their own modules:

- `Common`: `Option`, `Filter`, `Map`, `Sum`.
- `Strings`: JavaScript `split`/`join`/`trim`, the white-space classes, string `<`, decimal printing.
- `Sorting`: a stable insertion sort, standing for the stable `Array.prototype.sort`.
- `Paths`: path segments and `segmentToTitle`.
- `Tree`: the `TreeNode` record, pre-order and lookup by path.
- `TreeShape`: the shape invariant a built tree keeps.

Everything outside the program's own logic is a parameter of the model:

- `cmp`: `localeCompare`;
- `today` and `now`: the clock;
- `countTokens`: the tokenizer;
- `pathnameOf`: URL parsing;
- `engine`: a regular-expression engine, for syntax that the glob translation leaves as written;
- a map from file names to contents, standing for the content directory.

The server departs from the index's own usage text (src/indexer/renderer.ts:41-68), and the model
follows the server:

- The usage text promises `*` wildcards in `sections` (renderer.ts:42-46, 62), but `resolveSections`
  looks every requested path up exactly.
  - A pattern such as `/docs/*` is looked up as a literal key, so it normally contributes nothing.
  - There is no de-duplication: a repeated path is returned twice.
- The usage text offers `?search=` (renderer.ts:49-56, 63), but the fetch handler reads only
  `sections`. A request without it is a 400.
- The usage text says `updated_after` returns "only sections updated after this date"
  (renderer.ts:65). The resolver drops a section only when its date is strictly before the cutoff, so
  a section dated on the cutoff is kept.

Two behaviours of the crawler's regular expressions are easy to miss:

- In a glob, `.` is left as a regular-expression wildcard, so `/a.b` also matches `/aXb`.
- `extractTitle`'s `#\s+` can cross a line break: a lone `#` line followed by a text line titles the
  page with that text (`Processor.TitleAcrossLineBreak`).

## Model

| member | source | states |
|---|---|---|
| Mapper.Compile | src/crawler/mapper.ts:128-135 | a glob compiles to tokens exactly when it has no regular-expression syntax other than what the translation produces, one token per glob character |
| Mapper.MatchGlob | src/crawler/mapper.ts:128-139 | an unparsable URL never matches; otherwise the pathname is matched, anchored at both ends, by the translated glob, and patterns with other regular-expression syntax are decided by the engine |
| Mapper.MatchesLiteral | src/crawler/mapper.ts:135 | a glob of plain characters matches exactly the identical string |
| Mapper.MatchesAnyRun | src/crawler/mapper.ts:133 | `*` alone matches every string without a line terminator, because `.*` does not cross one |
| Mapper.MatchesAppend | src/crawler/mapper.ts:135 | a concatenated pattern matches a string exactly when some split point lets each half match its part |
| Mapper.PrefixThenAnyRun | src/crawler/mapper.ts:133-135 | `prefix*` matches exactly the strings starting with the prefix whose remainder has no line terminator |
| Mapper.MatchesWithoutRun | src/crawler/mapper.ts:134-135 | a pattern without `*` matches exactly the strings of its length that agree position by position, where `?` and `.` take any non-line-terminator character |
| Mapper.MatchGlobPathnameOnly | src/crawler/mapper.ts:129-131 | only the pathname counts: two URLs with the same pathname match the same globs (the base URL argument is unused) |
| Mapper.MatchGlobLiteral | src/crawler/mapper.ts:128-139 | a pattern without wildcards or regular-expression syntax matches a URL exactly when the URL's pathname equals the pattern |
| Mapper.MatchGlobPrefix | src/crawler/mapper.ts:128-139 | `prefix*` matches a URL exactly when its pathname starts with the prefix and the rest has no line terminator |
| Mapper.MatchGlobOneForOne | src/crawler/mapper.ts:132-135 | with no `*`, each `?` and each `.` of the pattern stands for exactly one non-line-terminator character of the pathname |
| Mapper.PageOf | src/crawler/mapper.ts:82-88 | the scraped page copies the source URL, markdown, title, description and status code of the crawl item |
| Mapper.CrawlPages | src/crawler/mapper.ts:74-91 | every page kept has a non-empty URL and markdown and is admitted by the include and exclude lists |
| Mapper.CrawlPagesIsFilter | src/crawler/mapper.ts:74-91 | the pages returned are, in order, the pages made from exactly the items that have markdown and a source URL and pass both lists |
| Mapper.CrawlPagesPointwise | src/crawler/mapper.ts:74-91 | the returned pages correspond one for one, in order, to the kept items, each page made from its item |
| Mapper.CrawlExcludeWins | src/crawler/mapper.ts:79-80 | a URL matched by any exclude pattern never appears in the crawl result, whatever the includes say |
| Mapper.FilteredTwice | src/crawler/mapper.ts:118-123 | filtering by includes and then by excludes keeps the links in order, and a link survives exactly when it is admitted |
| Mapper.FilterLinks | src/crawler/mapper.ts:116-125 | the links kept are a subsequence of the discovered links, and a link is kept exactly when it matches an include (if any are given) and no exclude |
| Mapper.DefaultExcludeDropsAdmin | src/core/config.ts:13 | with the default exclude list, a link whose pathname starts with `/admin/` is always dropped |
| Mapper.Translate | src/crawler/mapper.ts:132-134 | the translated source contains no `?`, is at least as long as the glob, keeps every other glob character, and is the glob itself when it has no wildcard; TranslateIsTwoReplaces, TranslateAppend and TranslatePrefixStar state where each wildcard goes |
| Mapper.ReplaceAllChar | src/crawler/mapper.ts:133-134 | one global `replace` of a single character; a text without the character is returned unchanged |
| Mapper.TranslateIsTwoReplaces | src/crawler/mapper.ts:132-134 | the translation equals the two passes as written: every `*` replaced by `.*`, then every `?` by `.` |
| Mapper.TranslateAppend | src/crawler/mapper.ts:132-134 | the translation works character by character: that of a concatenation is the concatenation of the translations |
| Mapper.TranslateWildcards | src/crawler/mapper.ts:133-134 | `*` becomes `.*` and `?` becomes `.` |
| Mapper.TranslatePrefixStar | src/crawler/mapper.ts:132-134 | a plain prefix followed by `*` becomes the prefix followed by `.*` |
| Processor.PathOfPathname | src/crawler/processor.ts:33-41 | the path is never empty; an empty pathname gives `/`; one trailing slash is removed except from `/` itself |
| Processor.UrlToPath | src/crawler/processor.ts:28-42 | the path is defined exactly when both URLs parse, and is the page pathname without its trailing slash |
| Processor.UrlToPathIgnoresBase | src/crawler/processor.ts:28-42 | the base URL only has to parse: any two parsable bases give the same path |
| Processor.PathOfPathnameNormal | src/crawler/processor.ts:33-41 | a normal path is its own path, and with one trailing slash added it maps back to itself |
| Processor.CollapseNewlines | src/crawler/processor.ts:47 | the result is no longer than the text and starts with the same character; CollapseRun and CollapseChar state that each maximal run of three or more newlines becomes exactly two, shorter runs and other characters are copied, and CollapseNoTriple, CollapseFixedPoint and CollapseKeepsText state the rest |
| Processor.CollapseRun | src/crawler/processor.ts:47 | a maximal run of `k` newlines becomes exactly two when `k` is at least three and is kept as it is otherwise, and collapsing continues after it |
| Processor.CollapseChar | src/crawler/processor.ts:47 | a character other than a newline is copied, and collapsing continues after it |
| Processor.CollapseParagraphs | src/crawler/processor.ts:47 | `a`, three newlines, `b` collapses to `a`, two newlines, `b`: paragraphs stay apart |
| Processor.CollapseNoTriple | src/crawler/processor.ts:47 | after collapsing, no three newlines are adjacent |
| Processor.CollapseFixedPoint | src/crawler/processor.ts:47 | a text is unchanged by collapsing exactly when it has no run of three newlines, so collapsing twice equals collapsing once |
| Processor.CollapseKeepsText | src/crawler/processor.ts:47 | collapsing removes only newlines: the non-newline characters are unchanged and in order |
| Processor.RemoveSkipLink | src/crawler/processor.ts:49 | the first (leftmost) match of the pattern, a line start with `[Skip to `, the link and the line feeds after it, is cut out and nothing else changes; the text changes only when it holds a match |
| Processor.RemoveSkipLinkShorter | src/crawler/processor.ts:49 | a text holding a match gets strictly shorter |
| Processor.RemoveSkipLinkShape | src/crawler/processor.ts:49 | whatever is removed is one stretch beginning at a line start with `[Skip to ` |
| Processor.FindSkipLink | src/crawler/processor.ts:49 | the regular-expression search: the position found is a match, no earlier position from the start of the search is, and no result means no match in the rest of the text |
| Processor.RemoveSkipLinkAbsent | src/crawler/processor.ts:49 | a text without `[Skip to ` is left unchanged |
| Processor.RemoveLeadingSkipLink | src/crawler/processor.ts:49 | a leading skip link `[Skip to a](b)` on one line, with the newlines after it, is removed, leaving the rest |
| Processor.CleanMarkdown | src/crawler/processor.ts:44-51 | the cleaned markdown has no run of three newlines and no white space at either end |
| Processor.CleanMarkdownKeepsClean | src/crawler/processor.ts:44-51 | markdown that is already collapsed, trimmed and free of skip links is returned unchanged |
| Processor.CleanMarkdownDropsSkipLink | src/crawler/processor.ts:44-51 | markdown opening with a skip link cleans to the trimmed rest |
| Processor.ExtractTitle | src/crawler/processor.ts:53-56 | there is a title exactly when some line opens a heading, and the title sits on one line |
| Processor.TitleOfFirstHeading | src/crawler/processor.ts:53-56 | after lines that open no heading, a line of `#`, any non-empty run of white space (line breaks included) and text up to the end of its line gives that text, trimmed, as the title |
| Processor.TitleAfterSpaces | src/crawler/processor.ts:53-56 | `#  Intro` gives `Intro`: the whole run of white space after `#` is skipped |
| Processor.TitleAcrossLineBreak | src/crawler/processor.ts:54 | a `#` alone on a line followed by a text line yields that text as the title |
| Processor.ExtractDescription | src/crawler/processor.ts:58-75 | a description is longer than 10 and shorter than 300 characters |
| Processor.DescriptionFromIsFirst | src/crawler/processor.ts:62-74 | the scan returns the trimmed first line that qualifies, and nothing exactly when no line does |
| Processor.ExtractDescriptionIsFirst | src/crawler/processor.ts:58-75 | the description is the trimmed first line after a heading that is not a heading, image or link and has the right length, and there is none when no line qualifies |
| Processor.PathToTitle | src/crawler/processor.ts:77-83 | the root is titled `Home`; any other path gets a title as long as its last segment |
| Processor.PathToTitleOfPath | src/crawler/processor.ts:77-83 | the title of a path is its last segment's title (separators become spaces, word starts capitalised) |
| Processor.PathToTitleTrailingSlash | src/crawler/processor.ts:79 | a trailing slash does not change the title |
| Processor.SuffixMatch | src/crawler/processor.ts:92 | the suffix match starts at the first position where the suffix pattern matches, and there is none when it matches nowhere |
| Processor.SuffixMatchIsLastSeparator | src/crawler/processor.ts:92 | the suffix removed starts at the spaces before the last separator, and only when some character follows that separator |
| Processor.CleanTitle | src/crawler/processor.ts:90-94 | the cleaned title is empty only for an empty title, and is the title itself or a trimmed non-empty string |
| Processor.CleanTitleNoSeparator | src/crawler/processor.ts:90-94 | a title without separators is trimmed, and kept as given when it is all white space |
| Processor.CleanTitleDropsSiteName | src/crawler/processor.ts:85-94 | `name <sep> site` cleans to `name` for each of the four separators |
| Processor.CleanTitleExample | src/crawler/processor.ts:87 | `Getting Started \| Vercel Docs` cleans to `Getting Started` |
| Processor.RawTitle | src/crawler/processor.ts:11 | the scraped title wins, then the first heading, then the title made from the path; TitlePrecedence states the outcome for a processed page |
| Processor.PageDescription | src/crawler/processor.ts:15 | the description found in the content wins over the meta description, which wins over the empty string; DescriptionPrecedence states the outcome for a processed page |
| Processor.ProcessPage | src/crawler/processor.ts:8-26 | a processed page keeps the URL and has its path, cleaned markdown, cleaned title, description, token count of the cleaned markdown and today's date; ProcessedPageShape, TitlePrecedence and DescriptionPrecedence state what those fields then satisfy |
| Processor.ProcessPages | src/crawler/processor.ts:4-6 | each page is processed in order, and the whole call fails exactly when some URL does not parse |
| Processor.ProcessedPageShape | src/crawler/processor.ts:8-26 | a processed page has a non-empty path and clean markdown, and its title is empty only when the raw title is |
| Processor.TitlePrecedence | src/crawler/processor.ts:11-12 | the title is the cleaned scraped title if present, else the cleaned heading, else `Home` for the root |
| Processor.HomeIsClean | src/crawler/processor.ts:78 | the root's fallback title survives cleaning unchanged |
| Processor.DescriptionPrecedence | src/crawler/processor.ts:13-15 | the first qualifying content line is the description; only when none qualifies is the meta description used |
| Paths.SegmentToTitle | src/indexer/tree-builder.ts:82-86 | the title keeps the segment's length, turns `-` and `_` into spaces, makes each word start the ASCII upper-case of the segment's character there, and leaves every other character unchanged |
| Paths.SegmentToTitleExample | src/indexer/tree-builder.ts:82-86 | `quick-start` becomes `Quick Start` |
| Paths.SegmentToTitleIdempotent | src/indexer/tree-builder.ts:82-86 | applying the conversion twice equals applying it once |
| Paths.SegmentsOfPathOf | src/indexer/tree-builder.ts:35-40 | the segments of a path built from segments are those segments |
| Paths.PathOfInjective | src/indexer/tree-builder.ts:40 | distinct segment lists give distinct partial paths |
| TreeBuilder.PathToContentFile | src/indexer/tree-builder.ts:88-99 | the root's file is `_root.md`; any other path's file is its segments joined by `/` plus `.md`, and `undefined.md` when it has no segments |
| TreeBuilder.BuildTree | src/indexer/tree-builder.ts:4-32 | `buildTree`; what each path of the result holds is stated by BuildTreeView against the per-path replay, and by BuildTreeRoot, BuildTreeLastWins, BuildTreeDirectory, BuildTreeContent and BuildTreeShape |
| TreeBuilder.InsertAt | src/indexer/tree-builder.ts:34-80 | `insertNode` from a step of its walk on: the current node keeps its path and fields; its effect on every path is stated by InsertAtView |
| TreeBuilder.FindChild | src/indexer/tree-builder.ts:41 | the child found has the path asked for, and none is found only when no child has it |
| TreeBuilder.FindRootPage | src/indexer/tree-builder.ts:13 | the root page found is one of the pages with path `/`, and none is found only when no page has that path |
| TreeBuilder.FindRootPageIsFirst | src/indexer/tree-builder.ts:13 | the root page is the first page with path `/` |
| TreeBuilder.SortKeepsSamePathOrder | src/indexer/tree-builder.ts:6-10 | sorting keeps pages with the same path in their input order, since the sort is stable |
| TreeBuilder.InsertAtView | src/indexer/tree-builder.ts:34-80 | inserting a page at a node changes the lookup of each path as one replay step: the page's own path gets its data, and a missing ancestor becomes a directory |
| TreeBuilder.InsertAllView | src/indexer/tree-builder.ts:26-29 | inserting pages in order keeps the tree well shaped, and every path's lookup is the per-path replay of the pages |
| TreeBuilder.BuildTreeView | src/indexer/tree-builder.ts:4-32 | the built tree is well shaped, and looking up any path gives the replay of the sorted pages from the initial root |
| TreeBuilder.BuildTreeShape | src/indexer/tree-builder.ts:4-32 | no two nodes of the built tree share a path |
| TreeBuilder.BuildTreeRoot | src/indexer/tree-builder.ts:13-23 | the root is `/` at depth 0 and takes the first `/` page's data and `_root.md`, or `Home`, no description, 0 tokens, today's date and no content file when there is no `/` page |
| TreeBuilder.BuildTreeLastWins | src/indexer/tree-builder.ts:61-67 | among pages sharing a path, the last in input order decides the node's data |
| TreeBuilder.BuildTreeDirectory | src/indexer/tree-builder.ts:43-54 | a path that no page has exists in the tree exactly when some page lies below it, as a directory titled from its segment and dated by the first such page in sorted order |
| TreeBuilder.BuildTreeContent | src/indexer/tree-builder.ts:60-79 | a non-root node has a content file exactly when some page has its path |
| TreeBuilder.FirstBelow | src/indexer/tree-builder.ts:39-58 | the first page below a path is a page below it, and there is none exactly when no page lies below it |
| Aggregator.MaxString | src/indexer/aggregator.ts:22-26 | the latest date is one of the dates and no date is later |
| Aggregator.LatestDate | src/indexer/aggregator.ts:22-28 | the node's date becomes its own date or a child's, never earlier than any of them |
| Aggregator.Aggregate | src/indexer/aggregator.ts:8-30 | a leaf is unchanged; otherwise identity fields are kept, the children are the aggregated children reordered, the tokens are own plus children's, and the date is the latest |
| Aggregator.AggregateKeepsOwn | src/indexer/aggregator.ts:17-19 | title and content file are unchanged, and the node's own tokens are what remains after taking off the children's |
| Aggregator.AggregateKeepsChildPaths | src/indexer/aggregator.ts:12-15 | aggregation only reorders the children: the same paths, counted with repetition |
| Aggregator.AggregateSorted | src/indexer/aggregator.ts:15 | after aggregation every node's children are in path order |
| Aggregator.AggregateTotal | src/indexer/aggregator.ts:8-30 | a node's aggregated token count is the sum of its whole subtree's own counts |
| Aggregator.AggregateParentBound | src/indexer/aggregator.ts:17-19 | no child has more tokens than its aggregated parent |
| Aggregator.AggregateGrows | src/indexer/aggregator.ts:18-19 | aggregation never lowers a node's token count |
| Aggregator.AggregateTwiceGrows | src/indexer/aggregator.ts:8-19 | when the children hold tokens, aggregating again raises the total once more: the operation is not idempotent |
| ManifestWriter.SectionOf | src/generator/manifest-writer.ts:53-63 | a section copies its node's path, title, description, tokens and date, prefixes the content file with `content/` and lists the children's paths |
| ManifestWriter.FlattenTree | src/generator/manifest-writer.ts:52-68 | `flattenTree`; FlattenIsPreOrder states it visits the nodes in pre-order, and VisitEachAt what each key then holds |
| ManifestWriter.FlattenIsPreOrder | src/generator/manifest-writer.ts:52-68 | flattening visits the nodes in pre-order |
| ManifestWriter.VisitEachAt | src/generator/manifest-writer.ts:52-68 | after a visit a key is present exactly when it was already there or a visited node with content has that path, and its value comes from the last such node |
| ManifestWriter.BuildManifest | src/generator/manifest-writer.ts:27-50 | the manifest has version `1.0`, the given time, site and endpoint, the root's token total, every section under its own path, and as many pages as sections |
| ManifestWriter.PagesAreSections | src/generator/manifest-writer.ts:46 | the page count is the number of sections |
| ManifestWriter.ManifestSections | src/generator/manifest-writer.ts:27-68 | in a tree with distinct paths, a node is in the manifest exactly when it has content, as its own section |
| ManifestWriter.ManifestKeys | src/generator/manifest-writer.ts:27-68 | the manifest's keys are exactly the paths of the tree's nodes with content |
| Renderer.FormatTokensSmall | src/indexer/renderer.ts:183-188 | below 1000 the count is printed in full, and reads back as the count |
| Renderer.FormatTokensThousands | src/indexer/renderer.ts:184-186 | whole thousands print as `<n>k`, with the `.0` removed |
| Renderer.FormatTokensHundreds | src/indexer/renderer.ts:184-186 | whole hundreds above 1000 print as `<n>.<d>k` |
| Renderer.FormatTokensLarge | src/indexer/renderer.ts:184-186 | from 1000 on, the printed number of tenths of a thousand is within half a tenth of the count |
| Renderer.FormatTokens | src/indexer/renderer.ts:183-188 | `formatTokens`; its outputs are stated by FormatTokensSmall, FormatTokensThousands, FormatTokensHundreds and FormatTokensLarge |
| Renderer.CountLeaves | src/indexer/renderer.ts:190-193 | `countLeaves`; CountLeavesIsContentNodes states it is the number of content nodes in the subtree |
| Renderer.CountLeavesIsContentNodes | src/indexer/renderer.ts:190-193 | the page count of a subtree is the number of its nodes with content |
| Renderer.CollectLeafPathsIsTake | src/indexer/renderer.ts:199-209 | collecting example paths appends the first paths, in pre-order, of non-root nodes with content, up to the limit |
| Renderer.CollectLeafPaths | src/indexer/renderer.ts:199-209 | `collectLeafPaths`; CollectLeafPathsIsTake states it appends the first example paths in pre-order up to the limit |
| Renderer.ExamplePaths | src/indexer/renderer.ts:73 | there are at most three example paths, never `/`, taken as a prefix of the content pages in pre-order, and all of them when fewer than three exist |
| Renderer.FirstDir | src/indexer/renderer.ts:211-218 | the directory found is the first child with children of its own, and there is none exactly when no child has children |
| Renderer.ExampleDir | src/indexer/renderer.ts:45 | the example directory is the first sub-directory, or `/docs` when there is none |
| Renderer.AfterPath | src/indexer/renderer.ts:164-171 | the text after a node's path starts with `/` exactly when the node has children |
| Renderer.BulletShape | src/indexer/renderer.ts:158-171 | a node's bullet is indented two spaces per level, starts `- **` and the path, and the path is followed by `/` exactly when the node has children |
| Renderer.BulletForms | src/indexer/renderer.ts:163-172 | a bullet ends with the token text and then: the date for a leaf with content, the count of content pages for a directory, or nothing for an empty leaf |
| Renderer.DescriptionShape | src/indexer/renderer.ts:174-176 | a description line is not a bullet and is indented one step deeper than its bullet |
| Renderer.RenderNode | src/indexer/renderer.ts:157-181 | `renderNode`; RenderNodeIsPreOrder states its lines follow the subtree in pre-order, and RenderNodeBullets that each node gets one bullet |
| Renderer.RenderNodeIsPreOrder | src/indexer/renderer.ts:157-181 | rendering a subtree writes each node's lines in pre-order, each one level deeper than its parent |
| Renderer.RenderNodeBullets | src/indexer/renderer.ts:157-181 | the bullets of a rendered subtree are its nodes' bullets in pre-order, one per node |
| Renderer.BlockInIndex | src/indexer/renderer.ts:13-155 | a constant block other than the credits, the section for humans and the site-map heading appears in the index exactly when it is in the instructions |
| Renderer.RenderIndex | src/indexer/renderer.ts:13-155 | `renderIndex` as a list of lines; BlockInIndex, RenderIndexInstructions, RenderIndexQuickExamples, RenderIndexHeader and RenderIndexTree state its parts |
| Renderer.RenderIndexInstructions | src/indexer/renderer.ts:20-89 | the instructions appear exactly when a non-empty fetch endpoint is given |
| Renderer.RenderIndexQuickExamples | src/indexer/renderer.ts:72-85 | quick examples appear exactly when there is an endpoint and at least two example paths |
| Renderer.RenderIndexHeader | src/indexer/renderer.ts:91-95 | after the instructions comes the `#` title, the site name over the root's title, then a `>` description line exactly when the description is non-empty |
| Renderer.RenderIndexTree | src/indexer/renderer.ts:138-154 | the index ends with the root's own lines, present exactly when the root has content, then the children's subtrees and a blank line, with one bullet per node |
| Renderer.RootLineShowsOwnTokens | src/indexer/renderer.ts:140-142 | after aggregation the root's bullet shows the root's own tokens, not the total |
| Resolver.ResolveOne | src/server/resolver.ts:28-37 | a path resolves exactly when it is a known section, passes the cutoff and its content file exists, and carries that section and that content |
| Resolver.ResolveSections | src/server/resolver.ts:17-41 | `resolveSections`: never more results than requested paths; ResolveIsFilter states they are exactly the requested paths that resolve, in order |
| Resolver.ResolveIsFilter | src/server/resolver.ts:17-41 | the result lists, in request order, exactly the requested paths that resolve, each with its section and content |
| Resolver.ResolveAppend | src/server/resolver.ts:27-38 | resolving two lists of paths one after the other gives the two results concatenated |
| Resolver.ResolveUnknown | src/server/resolver.ts:28-29 | an unknown path contributes nothing |
| Resolver.ResolveRepeated | src/server/resolver.ts:27-38 | a path requested twice is returned twice |
| Resolver.ResolveCutoff | src/server/resolver.ts:31 | with a cutoff, a section is dropped exactly when its date is strictly earlier, so a section dated on the cutoff is kept |
| Resolver.ResolveNoCutoff | src/server/resolver.ts:31-34 | without a cutoff, a path resolves exactly when it is a section whose content file exists |
| Formats.FormatResponse | src/server/formats.ts:5-37 | `json` gives the sections and their token sum as `application/json`; any other format gives the joined response lines as `text/plain` for `txt` and `text/markdown` otherwise |
| Formats.TextAndMarkdownAgree | src/server/formats.ts:18-36 | every non-JSON format gives the same body; only the content type differs |
| Formats.ResponseLayout | src/server/formats.ts:18-31 | a response has a header line and eight lines per section, and the path can be read back from each section's opening line |
| Formats.ResponseEmpty | src/server/formats.ts:9-20 | with no sections the response is only the header line, counting 0 sections and 0 tokens |
| Handler.Headers | src/server/handler.ts:25-28 | every response carries the two CORS headers and its content type |
| Handler.Patterns | src/server/handler.ts:51 | the requested paths are the comma-separated pieces, each trimmed, and none contains a comma |
| Handler.PatternsInOrder | src/server/handler.ts:51 | the untrimmed pieces, joined with commas again, give back the parameter |
| Handler.HandleFetch | src/server/handler.ts:21-66 | a missing or empty `sections` answers 400 and nothing else does; a failed load with nothing cached answers 500; otherwise 200 with the manifest cached |
| Handler.Serve | src/server/handler.ts:21-24 | a run of calls to one handler, threading its cached manifest: one response per request; ServeKeepsCache states a filled cache stays |
| Handler.MissingSectionsSkipsLoad | src/server/handler.ts:30-36 | a 400 answer does not depend on what loading would give |
| Handler.CachedNeverReloads | src/server/handler.ts:38-41 | once cached, the manifest is used for every call whatever loading would give |
| Handler.ServeKeepsCache | src/server/handler.ts:22 | over any run of later calls a filled cache stays the same |
| Handler.RetryAfterFailure | src/server/handler.ts:39-48 | a failed load is not remembered: the next call loads again and can succeed |
| Handler.SuccessResponse | src/server/handler.ts:51-65 | a successful call answers with the formatted resolution of the trimmed paths, format `md` by default, and the cutoff passed through |
| Strings.JoinSplit | src/server/handler.ts:51 | joining the pieces of a split with the separator gives back the string |
| Strings.SplitJoin | src/crawler/processor.ts:60 | splitting a join of separator-free pieces gives back the pieces |
| Strings.Trim | src/server/handler.ts:51 | the trimmed string is empty exactly when the string is all white space, otherwise it has non-space ends, and a string without white space at its ends is unchanged |
| Strings.DecimalRoundTrip | src/server/formats.ts:18-20 | a printed count reads back as the same number |

## Left out

- Crawling and mapping: the requests to the crawl service, its polling loop and its failure errors
  (`crawlSite`, `mapSite`) are I/O. The model starts from the items and links the service returns.
- File-system access and JSON:
  - reading `manifest.json` and content files, and writing output files;
  - `JSON.stringify` / `JSON.parse`. Response and error bodies are kept as structured values.
- The tokenizer is a parameter (`countTokens`), and the clock is the parameters `today` and `now`.
- URL parsing (`new URL(..).pathname`) is a parameter (`pathnameOf`), `None` when the URL throws.
- Regular-expression syntax other than what a translated glob produces is decided by the `engine`
  parameter.
- `localeCompare` is the comparator parameter `cmp`. The sortedness and stability lemmas assume it is
  a total preorder. The `en-US` locale is assumed for `toLocaleString`.
- Renderer.FormatTokensLarge: `toFixed(1)` works on binary floating point. The model rounds halves up
  in exact arithmetic, so counts exactly on a half-tenth boundary may differ.
- String comparison is by code point, and lengths count code points. JavaScript uses UTF-16 code units,
  which agree on the Basic Multilingual Plane.
- Keys that collide with `Object.prototype` properties in `manifest.sections[path]` are not modelled.
  The sections table is a map.
- The constant prose of the index (headings, instructions text, credits, the section for humans) is
  modelled as opaque blocks. Only the interpolated lines are spelled out.
- Rendering stops at the list of index lines: joining them with `\n` and the byte length are not
  modelled.
- Content files are looked up by their manifest name in a map. `path.resolve` against the base
  directory is not modelled.
- The order of keys in the manifest object is not modelled.
- Config loading and validation are not modelled. Only the default exclude list is used, in
  `Mapper.DefaultExcludeDropsAdmin`.
- src/generator/fetch-handler.ts and src/crawler/scraper.ts are not part of this model.
- TreeBuilder.PathToContentFile models what JavaScript produces for a path without segments that is
  not `/` (such as `""` or `//`): `undefined.md`. TreeShape allows such a node as a child of the root.
