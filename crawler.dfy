/**
 * SiteCrawler of the package: add_url, one iteration of the crawl loop and
 * the loop itself, over the frontier table. robots.txt, HTTP, HTML parsing and
 * the language model are the collaborators gathered in `Web`.
 */
module Crawler {
  import opened Wrappers
  import opened Strings
  import opened Frontier
  import opened Policy
  import opened Summarizer

  /** What a GET of a page gives. */
  datatype Fetch = FetchError | Page(contentTypeHeader: string, body: string)

  /** The crawler's collaborators, as functions of their inputs. */
  datatype Web = Web(
    allowed: string -> bool,              // robots can_fetch("*", url)
    fetch: string -> Fetch,
    anchors: string -> seq<string>,       // href of every <a href> in a body
    images: string -> seq<string>,        // src of every <img src> in a body
    clean: (string, Value) -> string,     // HTMLCleaner.clean_html with the content exclude patterns
    llm: (string, nat) -> Attempt,        // the i-th POST made for a cleaned text
    parse: string -> Parsed)              // json.loads

  /** The media type of a Content-Type header: the part before any ";", stripped. */
  function MediaType(header: string): string {
    Strip(Split(header, ';')[0])
  }

  /** How one dequeued URL is classified before any link is followed. */
  datatype StepOutcome =
    | Excluded
    | BinaryLeft
    | Disallowed
    | FetchFailed
    | Unsupported(contentType: string)
    | Fetched(contentType: string, body: string)

  /** The exclude check of the crawl loop, against the URL's effective exclude patterns. */
  predicate Excludes(cfg: CrawlerConfig, lib: UrlLib, url: string, depth: int) {
    ShouldExcludeUrl(lib, url, ExcludePatternsOf(EffectiveSettings(cfg, lib, url, depth)), cfg.excludeUrlPatterns)
  }

  function Classify(cfg: CrawlerConfig, lib: UrlLib, web: Web, url: string, depth: int): StepOutcome {
    ClassifyFrom(cfg, web, url, Excludes(cfg, lib, url, depth))
  }

  /** The checks after the exclude check, in the order the crawl loop makes them. */
  function ClassifyFrom(cfg: CrawlerConfig, web: Web, url: string, excluded: bool): StepOutcome {
    if excluded then Excluded
    else if IsBinaryUrl(cfg.binaryExtensions, url) then BinaryLeft
    else if cfg.respectRobots && !web.allowed(url) then Disallowed
    else match web.fetch(url)
      case FetchError => FetchFailed
      case Page(header, body) =>
        var ct := MediaType(header);
        if ct !in cfg.acceptedContentTypes then Unsupported(ct) else Fetched(ct, body)
  }

  /** The row a classified URL is left with. */
  function MarkAfter(t: Table, url: string, o: StepOutcome): Table {
    match o
    case Excluded => WithStatus(t, url, Ignored, None)
    case BinaryLeft => t
    case Disallowed => WithStatus(t, url, Ignored, None)
    case FetchFailed => WithStatus(t, url, Ignored, None)
    case Unsupported(ct) => WithStatus(t, url, Ignored, Some(ct))
    case Fetched(ct, _) => WithStatus(t, url, Visited, Some(ct))
  }

  /** Only a binary URL keeps its `to_visit` status; every other outcome moves the row out of it. */
  lemma MarkAfterLeavesToVisit(t: Table, url: string, o: StepOutcome)
    requires url in t && t[url].status == ToVisit
    ensures o != BinaryLeft ==> MarkAfter(t, url, o)[url].status != ToVisit
    ensures o == BinaryLeft ==> MarkAfter(t, url, o) == t
    ensures o.Fetched? <==> MarkAfter(t, url, o)[url].status == Visited
    ensures o.Fetched? ==> MarkAfter(t, url, o)[url].contentType == Some(o.contentType)
  {
    match o {
      case Excluded =>
      case BinaryLeft =>
      case Disallowed =>
      case FetchFailed =>
      case Unsupported(_) =>
      case Fetched(_, _) =>
    }
  }

  /**
   * The classification: BinaryLeft exactly for a non-excluded binary URL, and a
   * page is Fetched only when robots allow it and its media type is accepted.
   */
  lemma ClassifyCases(cfg: CrawlerConfig, lib: UrlLib, web: Web, url: string, depth: int)
    ensures var excluded := ShouldExcludeUrl(lib, url, ExcludePatternsOf(EffectiveSettings(cfg, lib, url, depth)), cfg.excludeUrlPatterns);
      var o := Classify(cfg, lib, web, url, depth);
      && (o == Excluded <==> excluded)
      && (o == BinaryLeft <==> !excluded && IsBinaryUrl(cfg.binaryExtensions, url))
      && (o.Fetched? ==> !excluded && !IsBinaryUrl(cfg.binaryExtensions, url) && (!cfg.respectRobots || web.allowed(url)))
      && (o.Fetched? ==> web.fetch(url).Page? && o.contentType == MediaType(web.fetch(url).contentTypeHeader)
                         && o.contentType in cfg.acceptedContentTypes && o.body == web.fetch(url).body)
  {
  }

  /**
   * A binary row that is next in line is classified BinaryLeft and left as it
   * is, so the dequeue returns it again: the package crawl never moves past it.
   */
  lemma BinaryRowIsDequeuedAgain(cfg: CrawlerConfig, lib: UrlLib, web: Web, t: Table, order: seq<string>)
    requires Scan(t, order, cfg.maxDepth).Some?
    requires var (u, d) := Scan(t, order, cfg.maxDepth).value;
      IsBinaryUrl(cfg.binaryExtensions, u) &&
      !ShouldExcludeUrl(lib, u, ExcludePatternsOf(EffectiveSettings(cfg, lib, u, d)), cfg.excludeUrlPatterns)
    ensures var (u, d) := Scan(t, order, cfg.maxDepth).value;
      Classify(cfg, lib, web, u, d) == BinaryLeft &&
      Scan(MarkAfter(t, u, BinaryLeft), order, cfg.maxDepth) == Some((u, d))
  {
  }

  /** The image URLs of a page: each src resolved against the page URL. */
  function ImageUrls(lib: UrlLib, page: string, srcs: seq<string>): (r: seq<string>)
    ensures |r| == |srcs|
    ensures forall i :: 0 <= i < |srcs| ==> r[i] == lib.join(page, srcs[i])
  {
    if |srcs| == 0 then [] else ImageUrls(lib, page, srcs[..|srcs| - 1]) + [lib.join(page, srcs[|srcs| - 1])]
  }

  /** get_next_url gives no URL to process: none is left, or the one it found is empty. */
  ghost predicate Stops(s: CrawlState, maxDepth: int) {
    var n := Scan(s.urls, s.order, maxDepth); n.None? || n.value.0 == ""
  }

  /**
   * The crawl loop run for at most `fuel` iterations from state `s`, each
   * iteration being `step` on the pair get_next_url returns: the pairs, in
   * order, and the state left.
   */
  ghost function Run(step: (CrawlState, string, int) -> CrawlState, maxDepth: int, s: CrawlState, fuel: nat): (r: (seq<(string, int)>, CrawlState))
    ensures |r.0| <= fuel
    ensures |r.0| < fuel ==> Stops(r.1, maxDepth)
    decreases fuel
  {
    if fuel == 0 || Stops(s, maxDepth) then ([], s)
    else
      var n := Scan(s.urls, s.order, maxDepth).value;
      var rest := Run(step, maxDepth, step(s, n.0, n.1), fuel - 1);
      ([n] + rest.0, rest.1)
  }

  /** A run with no fuel left, or from a state where get_next_url gives nothing to process, does nothing. */
  lemma RunStops(step: (CrawlState, string, int) -> CrawlState, maxDepth: int, s: CrawlState, fuel: nat)
    requires fuel == 0 || Stops(s, maxDepth)
    ensures Run(step, maxDepth, s, fuel) == ([], s)
  {
  }

  /** The loop's account of the run so far is kept by one more turn, whether it processes a pair or stops. */
  lemma RunAdvance(step: (CrawlState, string, int) -> CrawlState, maxDepth: int, s0: CrawlState, fuel: nat, steps: nat,
                   prior: seq<(string, int)>, before: CrawlState, after: CrawlState, next: Option<(string, int)>)
    requires steps < fuel
    requires Run(step, maxDepth, s0, fuel) == (prior + Run(step, maxDepth, before, fuel - steps).0, Run(step, maxDepth, before, fuel - steps).1)
    requires if Stops(before, maxDepth) then next.None? && after == before
      else next == Scan(before.urls, before.order, maxDepth) && after == step(before, next.value.0, next.value.1)
    ensures var prior', steps' := prior + (if next.Some? then [next.value] else []), steps + (if next.Some? then 1 else 0);
      Run(step, maxDepth, s0, fuel) == (prior' + Run(step, maxDepth, after, fuel - steps').0, Run(step, maxDepth, after, fuel - steps').1)
    ensures next.None? ==> Stops(after, maxDepth)
  {
    if next.Some? {
      var rest := Run(step, maxDepth, after, fuel - steps - 1);
      assert Run(step, maxDepth, before, fuel - steps) == ([next.value] + rest.0, rest.1);
      assert prior + ([next.value] + rest.0) == (prior + [next.value]) + rest.0;
    } else {
      assert prior + [] == prior;
    }
  }

  /** The content exclude patterns a page is cleaned with: the effective setting, else the global list. */
  function ContentPatterns(cfg: CrawlerConfig, eff: Settings): Value {
    if ExcludeContentKey in eff then eff[ExcludeContentKey] else Strs(cfg.excludeContentPatterns)
  }

  /** The summary and tags get_summary_and_tags gives a cleaned text: the first of three POSTs that does not time out. */
  function PageSummary(web: Web, text: string): (string, seq<Tag>) {
    FirstAnswer([web.llm(text, 0), web.llm(text, 1), web.llm(text, 2)], web.parse)
  }

  /** What a crawl changes: the frontier table, its insertion order, and the URLs handed to download_file. */
  datatype CrawlState = CrawlState(urls: Table, order: seq<string>, downloads: seq<string>)

  /** What one add_url call does to the state, given its decision `a` and the row an insert would add. */
  function Apply(s: CrawlState, url: string, a: AddAction, rec: UrlRec): CrawlState {
    match a
    case Exclude => s
    case DownloadBinary => s.(urls := WithStatus(s.urls, url, Downloaded, Some("binary")), downloads := s.downloads + [url])
    case SkipBinary => s.(urls := WithStatus(s.urls, url, Ignored, Some("binary")))
    case Insert => s.(urls := InsertIfAbsent(s.urls, url, rec), order := if url in s.urls then s.order else s.order + [url])
  }

  /** The state after add_url for each of `links` in turn, each decided by `act`. */
  ghost function ApplyAll(s: CrawlState, links: seq<string>, act: string -> AddAction, rec: UrlRec): CrawlState {
    if |links| == 0 then s
    else var u := links[|links| - 1]; Apply(ApplyAll(s, links[..|links| - 1], act, rec), u, act(u), rec)
  }

  /** The links of `links` that add_url hands to download_file, in order. */
  ghost function DownloadsOf(links: seq<string>, act: string -> AddAction): seq<string> {
    if |links| == 0 then []
    else var u := links[|links| - 1]; DownloadsOf(links[..|links| - 1], act) + if act(u) == DownloadBinary then [u] else []
  }

  /** One add_url: only an inserted URL is new, only a binary decision touches an existing row, only a download is recorded. */
  lemma ApplyFacts(s: CrawlState, url: string, a: AddAction, rec: UrlRec)
    ensures var r := Apply(s, url, a, rec);
      && s.urls.Keys <= r.urls.Keys <= s.urls.Keys + (if a == Insert then {url} else {})
      && r.downloads == s.downloads + (if a == DownloadBinary then [url] else [])
      && (forall v :: v in s.urls && (v != url || a == Insert || a == Exclude) ==> r.urls[v] == s.urls[v])
      && (a == Insert ==> url in r.urls)
      && (a == Insert && url !in s.urls ==> r.urls[url] == rec)
  {
  }

  lemma ApplyAllSnoc(s: CrawlState, links: seq<string>, u: string, act: string -> AddAction, rec: UrlRec)
    ensures ApplyAll(s, links + [u], act, rec) == Apply(ApplyAll(s, links, act, rec), u, act(u), rec)
    ensures DownloadsOf(links + [u], act) == DownloadsOf(links, act) + if act(u) == DownloadBinary then [u] else []
  {
    assert (links + [u])[..|links|] == links;
  }

  /** The table only grows, and the downloads grow by exactly the links decided DownloadBinary. */
  lemma {:induction false} ApplyAllDownloads(s: CrawlState, links: seq<string>, act: string -> AddAction, rec: UrlRec)
    ensures var r := ApplyAll(s, links, act, rec);
      s.urls.Keys <= r.urls.Keys && r.downloads == s.downloads + DownloadsOf(links, act)
  {
    if |links| > 0 {
      var pre := links[..|links| - 1];
      var u := links[|links| - 1];
      assert links == pre + [u];
      ApplyAllDownloads(s, pre, act, rec);
      ApplyAllSnoc(s, pre, u, act, rec);
      ApplyFacts(ApplyAll(s, pre, act, rec), u, act(u), rec);
    }
  }

  /** The rows created are `rec`, for links decided Insert. */
  lemma {:induction false} ApplyAllNewRows(s: CrawlState, links: seq<string>, act: string -> AddAction, rec: UrlRec)
    ensures var r := ApplyAll(s, links, act, rec);
      forall v :: v in r.urls && v !in s.urls ==> v in links && act(v) == Insert && r.urls[v] == rec
  {
    if |links| > 0 {
      var pre := links[..|links| - 1];
      var u := links[|links| - 1];
      ApplyAllNewRows(s, pre, act, rec);
      ApplyAllDownloads(s, pre, act, rec);
      ApplyFacts(ApplyAll(s, pre, act, rec), u, act(u), rec);
    }
  }

  /** An existing row is changed only for a URL decided DownloadBinary or SkipBinary. */
  lemma {:induction false} ApplyAllKeeps(s: CrawlState, links: seq<string>, act: string -> AddAction, rec: UrlRec)
    ensures var r := ApplyAll(s, links, act, rec);
      forall v :: v in s.urls && (act(v) == Insert || act(v) == Exclude) ==> v in r.urls && r.urls[v] == s.urls[v]
  {
    if |links| > 0 {
      var pre := links[..|links| - 1];
      var u := links[|links| - 1];
      ApplyAllKeeps(s, pre, act, rec);
      ApplyAllDownloads(s, pre, act, rec);
      ApplyFacts(ApplyAll(s, pre, act, rec), u, act(u), rec);
    }
  }

  /** A link decided Insert is in the table afterwards. */
  lemma {:induction false} ApplyAllInserts(s: CrawlState, links: seq<string>, act: string -> AddAction, rec: UrlRec, k: int)
    requires 0 <= k < |links| && act(links[k]) == Insert
    ensures links[k] in ApplyAll(s, links, act, rec).urls
  {
    var pre := links[..|links| - 1];
    var u := links[|links| - 1];
    ApplyFacts(ApplyAll(s, pre, act, rec), u, act(u), rec);
    if k < |pre| {
      assert links[k] == pre[k];
      ApplyAllInserts(s, pre, act, rec, k);
    }
  }

  /** An href the link loop skips: a fragment or a blank string. */
  predicate SkippedHref(href: string) {
    StartsWith(href, "#") || Strip(href) == ""
  }

  /**
   * The URLs an anchor loop passes to add_url, in order: each href that is
   * neither a fragment nor blank, joined against the page, on the host `host`.
   */
  ghost function Links(lib: UrlLib, host: string, page: string, hrefs: seq<string>): (r: seq<string>)
    ensures forall k :: 0 <= k < |r| ==> lib.netloc(r[k]) == host
    ensures forall i :: 0 <= i < |hrefs| && !SkippedHref(hrefs[i]) && lib.netloc(lib.join(page, hrefs[i])) == host ==>
      lib.join(page, hrefs[i]) in r
  {
    if |hrefs| == 0 then []
    else
      var pre := hrefs[..|hrefs| - 1];
      var h := hrefs[|hrefs| - 1];
      assert forall i :: 0 <= i < |pre| ==> pre[i] == hrefs[i];
      Links(lib, host, page, pre) + if !SkippedHref(h) && lib.netloc(lib.join(page, h)) == host then [lib.join(page, h)] else []
  }

  class SiteCrawler {
    const cfg: CrawlerConfig
    const lib: UrlLib
    const db: FrontierDb
    var downloads: seq<string>    // the URLs download_file was asked for, in order

    ghost predicate Valid()
      reads this, db
    {
      db.Valid()
    }

    constructor (cfg: CrawlerConfig, lib: UrlLib, db: FrontierDb)
      requires db.Valid()
      ensures Valid() && this.cfg == cfg && this.lib == lib && this.db == db && downloads == []
    {
      this.cfg := cfg;
      this.lib := lib;
      this.db := db;
      downloads := [];
    }

    ghost function State(): CrawlState
      reads this, db
    {
      CrawlState(db.urls, db.order, downloads)
    }

    /** The state add_url leaves, by its decision. */
    ghost function Added(s: CrawlState, url: string, depth: int, status: Status, contentType: Option<string>): CrawlState {
      Apply(s, url, AddUrlAction(cfg, lib, url, depth), UrlRec(depth, status, contentType, None, None))
    }

    /** merge_settings: the dict built from the globals and then updated twice. */
    method MergeSettings(url: string, depth: int) returns (eff: Settings)
      ensures eff == EffectiveSettings(cfg, lib, url, depth)
      ensures forall k :: k in eff <==> k in GlobalSettings(cfg) || k in DepthLayer(cfg, depth) || k in UrlSpecificSettings(lib, cfg.urlSettings, url)
    {
      eff := GlobalSettings(cfg);
      eff := eff + DepthLayer(cfg, depth);
      eff := eff + UrlSpecificSettings(lib, cfg.urlSettings, url);
    }

    /**
     * add_url: an excluded URL changes nothing; a binary URL is downloaded or
     * skipped and only ever updates an existing row; any other URL is inserted
     * if absent.
     */
    method AddUrl(url: string, depth: int, status: Status, contentType: Option<string>)
      requires Valid()
      modifies db, this`downloads
      ensures Valid() && db.order == old(db.order) + (if db.urls.Keys == old(db.urls).Keys then [] else [url])
      ensures old(db.urls).Keys <= db.urls.Keys && old(downloads) <= downloads
      ensures forall u :: u in db.urls && u !in old(db.urls) ==>
        u == url && !IsBinaryUrl(cfg.binaryExtensions, u) && db.urls[u] == UrlRec(depth, status, contentType, None, None)
      ensures forall u :: u in old(db.urls) && (u != url || !IsBinaryUrl(cfg.binaryExtensions, url)) ==> db.urls[u] == old(db.urls)[u]
      ensures match AddUrlAction(cfg, lib, url, depth)
        case Exclude => db.urls == old(db.urls) && downloads == old(downloads)
        case DownloadBinary => db.urls == WithStatus(old(db.urls), url, Downloaded, Some("binary")) && downloads == old(downloads) + [url]
        case SkipBinary => db.urls == WithStatus(old(db.urls), url, Ignored, Some("binary")) && downloads == old(downloads)
        case Insert => db.urls == InsertIfAbsent(old(db.urls), url, UrlRec(depth, status, contentType, None, None)) && downloads == old(downloads)
      ensures State() == Added(old(State()), url, depth, status, contentType)
    {
      var action := DecideAdd(url, depth);
      ghost var before, order := db.urls, db.order;
      match action {
        case Exclude =>
        case DownloadBinary =>
          downloads := downloads + [url];
          db.UpdateUrlStatus(url, Downloaded, Some("binary"));
        case SkipBinary =>
          db.UpdateUrlStatus(url, Ignored, Some("binary"));
        case Insert =>
          db.InsertUrl(url, depth, status, contentType);
      }
      AddedRows(before, db.urls, order, db.order, url, UrlRec(depth, status, contentType, None, None), action);
    }

    /** The checks add_url makes, in its order: exclusion, binary, then the download settings. */
    method DecideAdd(url: string, depth: int) returns (action: AddAction)
      ensures action == AddUrlAction(cfg, lib, url, depth)
      ensures action.Insert? <==> action != Exclude && !IsBinaryUrl(cfg.binaryExtensions, url)
    {
      var eff := MergeSettings(url, depth);
      if ShouldExcludeUrl(lib, url, ExcludePatternsOf(eff), cfg.excludeUrlPatterns) {
        return Exclude;
      }
      if IsBinaryUrl(cfg.binaryExtensions, url) {
        var ext := Lower(Extension(lib.path(url)));
        var specific := if DownloadSpecificKey in eff then eff[DownloadSpecificKey] else Null;
        if FlagOf(eff, DownloadBinariesKey, false) || (specific.Strs? && |specific.items| > 0 && ext in specific.items) {
          return DownloadBinary;
        }
        return SkipBinary;
      }
      return Insert;
    }

    /** The table and insertion order each add_url decision leaves, stated row by row. */
    lemma AddedRows(before: Table, after: Table, order: seq<string>, order': seq<string>, url: string, rec: UrlRec, action: AddAction)
      requires action.Insert? <==> action != Exclude && !IsBinaryUrl(cfg.binaryExtensions, url)
      requires match action
        case Exclude => after == before && order' == order
        case DownloadBinary => after == WithStatus(before, url, Downloaded, Some("binary")) && order' == order
        case SkipBinary => after == WithStatus(before, url, Ignored, Some("binary")) && order' == order
        case Insert => after == InsertIfAbsent(before, url, rec) && order' == if url in before then order else order + [url]
      ensures order' == order + (if after.Keys == before.Keys then [] else [url])
      ensures before.Keys <= after.Keys
      ensures forall u :: u in after && u !in before ==> u == url && !IsBinaryUrl(cfg.binaryExtensions, u) && after[u] == rec
      ensures forall u :: u in before && (u != url || !IsBinaryUrl(cfg.binaryExtensions, url)) ==> after[u] == before[u]
    {
      if action.Insert? && url !in before {
        assert url in after.Keys - before.Keys;
      }
    }

    /**
     * The rows a crawl step may add: same host as the base URL, not binary,
     * one level deeper than the page, to be visited.
     */
    ghost predicate ChildRows(before: Table, after: Table, depth: int)
    {
      forall u :: u in after && u !in before ==>
        lib.netloc(u) == lib.netloc(cfg.baseUrl) && !IsBinaryUrl(cfg.binaryExtensions, u) &&
        after[u] == UrlRec(depth + 1, ToVisit, None, None, None)
    }

    /** Rows are never removed, and the row of a non-binary URL other than `url` never changes. */
    ghost predicate KeepsOthers(before: Table, after: Table, url: string)
    {
      before.Keys <= after.Keys &&
      forall u :: u in before && u != url && !IsBinaryUrl(cfg.binaryExtensions, u) ==> after[u] == before[u]
    }

    /** add_url's decision for each URL at `depth`. */
    ghost function Action(depth: int): string -> AddAction {
      u => AddUrlAction(cfg, lib, u, depth)
    }

    /** The state after add_url(u, depth) for each u of `links` in turn. */
    ghost function AddAll(s: CrawlState, links: seq<string>, depth: int): CrawlState {
      ApplyAll(s, links, Action(depth), UrlRec(depth, ToVisit, None, None, None))
    }

    lemma AddAllSnoc(s: CrawlState, links: seq<string>, u: string, depth: int)
      ensures AddAll(s, links + [u], depth) == Added(AddAll(s, links, depth), u, depth, ToVisit, None)
    {
      ApplyAllSnoc(s, links, u, Action(depth), UrlRec(depth, ToVisit, None, None, None));
    }

    /** add_url decides Insert exactly for a non-binary URL it does not exclude. */
    lemma ActionBinary(url: string, depth: int)
      ensures var a := AddUrlAction(cfg, lib, url, depth);
        (a == Insert <==> a != Exclude && !IsBinaryUrl(cfg.binaryExtensions, url)) &&
        (a == DownloadBinary || a == SkipBinary ==> IsBinaryUrl(cfg.binaryExtensions, url))
    {
    }

    /** The for-loop over anchors: same-host children enqueued at depth + 1. */
    method EnqueueLinks(page: string, depth: int, hrefs: seq<string>)
      requires Valid()
      modifies db, this`downloads
      ensures Valid()
      ensures State() == AddAll(old(State()), Links(lib, lib.netloc(cfg.baseUrl), page, hrefs), depth + 1)
      ensures var links := Links(lib, lib.netloc(cfg.baseUrl), page, hrefs);
        forall k :: 0 <= k < |links| && AddUrlAction(cfg, lib, links[k], depth + 1) == Insert ==>
          links[k] in db.urls && (links[k] !in old(db.urls) ==> db.urls[links[k]] == UrlRec(depth + 1, ToVisit, None, None, None))
      ensures downloads == old(downloads) + DownloadsOf(Links(lib, lib.netloc(cfg.baseUrl), page, hrefs), Action(depth + 1))
      ensures ChildRows(old(db.urls), db.urls, depth)
      ensures old(db.urls).Keys <= db.urls.Keys
      ensures forall u :: u in old(db.urls) && !IsBinaryUrl(cfg.binaryExtensions, u) ==> db.urls[u] == old(db.urls)[u]
    {
      var i := 0;
      while i < |hrefs|
        invariant 0 <= i <= |hrefs|
        invariant Valid()
        invariant State() == AddAll(old(State()), Links(lib, lib.netloc(cfg.baseUrl), page, hrefs[..i]), depth + 1)
      {
        assert hrefs[..i + 1] == hrefs[..i] + [hrefs[i]];
        EnqueueHref(page, depth, hrefs[i], old(State()), hrefs[..i]);
        i := i + 1;
      }
      assert hrefs[..i] == hrefs;
      LinksInserted(old(State()), Links(lib, lib.netloc(cfg.baseUrl), page, hrefs), depth + 1);
      LinksKept(old(State()), Links(lib, lib.netloc(cfg.baseUrl), page, hrefs), depth + 1);
    }

    /** One pass of the anchor loop, for the href after `prior`. */
    method EnqueueHref(page: string, depth: int, href: string, ghost s0: CrawlState, ghost prior: seq<string>)
      requires Valid() && State() == AddAll(s0, Links(lib, lib.netloc(cfg.baseUrl), page, prior), depth + 1)
      modifies db, this`downloads
      ensures Valid() && State() == AddAll(s0, Links(lib, lib.netloc(cfg.baseUrl), page, prior + [href]), depth + 1)
    {
      assert (prior + [href])[..|prior|] == prior;
      ghost var links := Links(lib, lib.netloc(cfg.baseUrl), page, prior);
      if !SkippedHref(href) {
        var absolute := lib.join(page, href);
        if lib.netloc(absolute) == lib.netloc(cfg.baseUrl) {
          AddUrl(absolute, depth + 1, ToVisit, None);
          assert Links(lib, lib.netloc(cfg.baseUrl), page, prior + [href]) == links + [absolute];
          AddAllSnoc(s0, links, absolute, depth + 1);
        } else {
          assert Links(lib, lib.netloc(cfg.baseUrl), page, prior + [href]) == links;
        }
      } else {
        assert Links(lib, lib.netloc(cfg.baseUrl), page, prior + [href]) == links;
      }
    }

    /** The links add_url inserts are in the table, and the rows it creates are fresh children of the page. */
    lemma LinksInserted(s: CrawlState, links: seq<string>, depth: int)
      requires forall k :: 0 <= k < |links| ==> lib.netloc(links[k]) == lib.netloc(cfg.baseUrl)
      ensures var r := AddAll(s, links, depth);
        && (forall k :: 0 <= k < |links| && AddUrlAction(cfg, lib, links[k], depth) == Insert ==>
             links[k] in r.urls && (links[k] !in s.urls ==> r.urls[links[k]] == UrlRec(depth, ToVisit, None, None, None)))
        && ChildRows(s.urls, r.urls, depth - 1)
    {
      var act, rec := Action(depth), UrlRec(depth, ToVisit, None, None, None);
      var r := ApplyAll(s, links, act, rec);
      ApplyAllNewRows(s, links, act, rec);
      forall k | 0 <= k < |links| && act(links[k]) == Insert
        ensures links[k] in r.urls
      {
        ApplyAllInserts(s, links, act, rec, k);
      }
      forall u | u in r.urls && u !in s.urls
        ensures !IsBinaryUrl(cfg.binaryExtensions, u)
      {
        ActionBinary(u, depth);
      }
    }

    /** A run of add_url calls keeps every row but the binary ones, and downloads exactly the binary links it is told to. */
    lemma LinksKept(s: CrawlState, links: seq<string>, depth: int)
      ensures var r := AddAll(s, links, depth);
        && r.downloads == s.downloads + DownloadsOf(links, Action(depth))
        && s.urls.Keys <= r.urls.Keys
        && forall u :: u in s.urls && !IsBinaryUrl(cfg.binaryExtensions, u) ==> r.urls[u] == s.urls[u]
    {
      var act, rec := Action(depth), UrlRec(depth, ToVisit, None, None, None);
      ApplyAllDownloads(s, links, act, rec);
      ApplyAllKeeps(s, links, act, rec);
      forall u | u in s.urls && !IsBinaryUrl(cfg.binaryExtensions, u)
        ensures act(u) == Insert || act(u) == Exclude
      {
        ActionBinary(u, depth);
      }
    }

    /** The image loop: every `<img src>` resolved against the page, downloaded when downloading is on. */
    method DownloadImages(page: string, srcs: seq<string>, download: bool)
      modifies this`downloads
      ensures downloads == old(downloads) + (if download then ImageUrls(lib, page, srcs) else [])
    {
      var i := 0;
      while i < |srcs|
        invariant 0 <= i <= |srcs|
        invariant downloads == old(downloads) + (if download then ImageUrls(lib, page, srcs[..i]) else [])
      {
        assert srcs[..i + 1][..i] == srcs[..i];
        var imgUrl := lib.join(page, srcs[i]);
        if download {
          downloads := downloads + [imgUrl];
        }
        i := i + 1;
      }
      assert srcs[..i] == srcs;
    }

    /**
     * The checks of one iteration of the crawl loop, in the order the Python loop makes them, and
     * the status each leaves: exclude, binary, robots, fetch, content type.
     */
    method ClassifyAndMark(web: Web, url: string, excluded: bool) returns (o: StepOutcome)
      requires Valid()
      modifies db
      ensures Valid()
      ensures o == ClassifyFrom(cfg, web, url, excluded)
      ensures db.urls == MarkAfter(old(db.urls), url, o) && db.order == old(db.order)
    {
      if excluded {
        o := Excluded;
      } else if IsBinaryUrl(cfg.binaryExtensions, url) {
        o := BinaryLeft;
      } else if cfg.respectRobots && !web.allowed(url) {
        o := Disallowed;
      } else {
        var response := web.fetch(url);
        if response.FetchError? {
          o := FetchFailed;
        } else {
          var ct := MediaType(response.contentTypeHeader);
          o := if ct !in cfg.acceptedContentTypes then Unsupported(ct) else Fetched(ct, response.body);
        }
      }
      MarkRow(url, o);
    }

    /** The update_url_status call each outcome makes (none for a binary URL). */
    method MarkRow(url: string, o: StepOutcome)
      requires Valid()
      modifies db
      ensures Valid()
      ensures db.urls == MarkAfter(old(db.urls), url, o) && db.order == old(db.order)
    {
      match o {
        case Excluded => db.UpdateUrlStatus(url, Ignored, None);
        case BinaryLeft =>
        case Disallowed => db.UpdateUrlStatus(url, Ignored, None);
        case FetchFailed => db.UpdateUrlStatus(url, Ignored, None);
        case Unsupported(ct) => db.UpdateUrlStatus(url, Ignored, Some(ct));
        case Fetched(ct, _) => db.UpdateUrlStatus(url, Visited, Some(ct));
      }
    }

    /**
     * One iteration of the crawl loop for a dequeued URL: the row is marked as
     * Classify and MarkAfter say; a fetched HTML page also gets its summary and
     * tags, its images and, when crawling recursively, its same-host links.
     */
    method ProcessUrl(web: Web, url: string, depth: int) returns (o: StepOutcome, info: Option<(string, seq<Tag>)>)
      requires Valid()
      modifies db, this`downloads
      ensures Valid()
      ensures o == Classify(cfg, lib, web, url, depth)
      ensures !o.Fetched? ==> db.urls == MarkAfter(old(db.urls), url, o) && downloads == old(downloads)
      ensures !o.Fetched? ==> db.urls.Keys == old(db.urls).Keys && forall u :: u in old(db.urls) && u != url ==> db.urls[u] == old(db.urls)[u]
      ensures o.Fetched? ==> !IsBinaryUrl(cfg.binaryExtensions, url) && o.contentType in cfg.acceptedContentTypes
      ensures info.Some? <==> o.Fetched? && Contains(Lower(o.contentType), "html")
      ensures ChildRows(old(db.urls), db.urls, depth) && KeepsOthers(old(db.urls), db.urls, url)
      ensures old(downloads) <= downloads
      ensures !(info.Some? && cfg.recursiveCrawl) ==> db.urls.Keys == old(db.urls).Keys
      ensures State() == StepAfter(web, old(State()), url, depth)
      ensures info == if o.Fetched? && Contains(Lower(o.contentType), "html")
        then Some(PageSummary(web, web.clean(o.body, ContentPatterns(cfg, EffectiveSettings(cfg, lib, url, depth))))) else None
      ensures o.Fetched? && url in old(db.urls) ==>
        db.urls[url] == old(db.urls)[url].(status := Visited, contentType := Some(o.contentType),
          summary := if info.Some? then Some(info.value.0) else old(db.urls)[url].summary,
          tags := if info.Some? then Some(TagString(info.value.1)) else old(db.urls)[url].tags)
    {
      var eff := MergeSettings(url, depth);
      ghost var before := db.urls;
      o := ClassifyAndMark(web, url, ShouldExcludeUrl(lib, url, ExcludePatternsOf(eff), cfg.excludeUrlPatterns));
      ghost var marked := db.urls;
      info := None;
      ClassifyCases(cfg, lib, web, url, depth);
      if o.Fetched? && Contains(Lower(o.contentType), "html") {
        var summary, tags := HandleHtml(web, url, depth, o.body, eff);
        info := Some((summary, tags));
      }
      ProcessedRows(before, marked, db.urls, url, depth, o, info);
    }

    /** The marked row followed by the HTML branch, stated against the table before both. */
    lemma ProcessedRows(before: Table, marked: Table, after: Table, url: string, depth: int,
                        o: StepOutcome, info: Option<(string, seq<Tag>)>)
      requires marked == MarkAfter(before, url, o)
      requires info.Some? ==> (o.Fetched? && ChildRows(marked, after, depth) && KeepsOthers(marked, after, url) &&
        (!cfg.recursiveCrawl ==> after.Keys == marked.Keys) &&
        (url in marked ==> after[url] == marked[url].(summary := Some(info.value.0), tags := Some(TagString(info.value.1)))))
      requires info.None? ==> after == marked
      ensures !o.Fetched? ==> after == MarkAfter(before, url, o)
      ensures !o.Fetched? ==> after.Keys == before.Keys && forall u :: u in before && u != url ==> after[u] == before[u]
      ensures ChildRows(before, after, depth) && KeepsOthers(before, after, url)
      ensures !(info.Some? && cfg.recursiveCrawl) ==> after.Keys == before.Keys
      ensures o.Fetched? && url in before ==>
        after[url] == before[url].(status := Visited, contentType := Some(o.contentType),
          summary := if info.Some? then Some(info.value.0) else before[url].summary,
          tags := if info.Some? then Some(TagString(info.value.1)) else before[url].tags)
    {
    }

    /** The state the HTML branch leaves: page info stored, images downloaded, links enqueued. */
    ghost function HtmlAfter(web: Web, s: CrawlState, url: string, depth: int, body: string, eff: Settings): CrawlState {
      var info := PageSummary(web, web.clean(body, ContentPatterns(cfg, eff)));
      var s' := CrawlState(WithPageInfo(s.urls, url, info.0, TagString(info.1)), s.order, s.downloads + PageImages(web, url, body, eff));
      if cfg.recursiveCrawl then AddAll(s', Links(lib, lib.netloc(cfg.baseUrl), url, web.anchors(body)), depth + 1) else s'
    }

    /** The image URLs the HTML branch downloads: all of the page's, when finding and downloading are both on. */
    function PageImages(web: Web, url: string, body: string, eff: Settings): seq<string> {
      if FlagOf(eff, FindImagesKey, cfg.findImages) && FlagOf(eff, DownloadBinariesKey, cfg.downloadBinaries)
      then ImageUrls(lib, url, web.images(body)) else []
    }

    /** The state one iteration of the crawl loop leaves for the dequeued (url, depth). */
    ghost function StepAfter(web: Web, s: CrawlState, url: string, depth: int): CrawlState {
      var o := Classify(cfg, lib, web, url, depth);
      var s' := s.(urls := MarkAfter(s.urls, url, o));
      if o.Fetched? && Contains(Lower(o.contentType), "html")
      then HtmlAfter(web, s', url, depth, o.body, EffectiveSettings(cfg, lib, url, depth))
      else s'
    }

    /**
     * The HTML branch of a crawl step: summary and tags stored with the page,
     * images downloaded, and same-host links enqueued when crawling recursively.
     */
    method HandleHtml(web: Web, url: string, depth: int, body: string, eff: Settings) returns (summary: string, tags: seq<Tag>)
      requires Valid() && !IsBinaryUrl(cfg.binaryExtensions, url)
      modifies db, this`downloads
      ensures Valid()
      ensures ChildRows(old(db.urls), db.urls, depth) && KeepsOthers(old(db.urls), db.urls, url)
      ensures old(downloads) <= downloads
      ensures !cfg.recursiveCrawl ==> db.urls.Keys == old(db.urls).Keys
      ensures url in old(db.urls) ==> db.urls[url] == old(db.urls)[url].(summary := Some(summary), tags := Some(TagString(tags)))
      ensures (summary, tags) == PageSummary(web, web.clean(body, ContentPatterns(cfg, eff)))
      ensures State() == HtmlAfter(web, old(State()), url, depth, body, eff)
    {
      var text := web.clean(body, ContentPatterns(cfg, eff));
      var posts;
      summary, tags, posts := GetSummaryAndTags((i: nat) => web.llm(text, i), web.parse);
      db.UpdatePageInfo(url, summary, TagString(tags));
      if FlagOf(eff, FindImagesKey, cfg.findImages) {
        DownloadImages(url, web.images(body), FlagOf(eff, DownloadBinariesKey, cfg.downloadBinaries));
      }
      ghost var stored := State();
      assert stored == CrawlState(WithPageInfo(old(db.urls), url, summary, TagString(tags)), old(db.order), old(downloads) + PageImages(web, url, body, eff));
      if cfg.recursiveCrawl {
        EnqueueLinks(url, depth, web.anchors(body));
      }
      HtmlRows(web, old(State()), url, depth, body, eff);
    }

    /** What the HTML branch does to the rows: only the page's info changes, and every new row is a child. */
    lemma HtmlRows(web: Web, s: CrawlState, url: string, depth: int, body: string, eff: Settings)
      requires !IsBinaryUrl(cfg.binaryExtensions, url)
      ensures var r := HtmlAfter(web, s, url, depth, body, eff);
        var info := PageSummary(web, web.clean(body, ContentPatterns(cfg, eff)));
        && ChildRows(s.urls, r.urls, depth) && KeepsOthers(s.urls, r.urls, url)
        && s.downloads <= r.downloads
        && (!cfg.recursiveCrawl ==> r.urls.Keys == s.urls.Keys)
        && (url in s.urls ==> r.urls[url] == s.urls[url].(summary := Some(info.0), tags := Some(TagString(info.1))))
    {
      var info := PageSummary(web, web.clean(body, ContentPatterns(cfg, eff)));
      var s' := CrawlState(WithPageInfo(s.urls, url, info.0, TagString(info.1)), s.order, s.downloads + PageImages(web, url, body, eff));
      if cfg.recursiveCrawl {
        LinksInserted(s', Links(lib, lib.netloc(cfg.baseUrl), url, web.anchors(body)), depth + 1);
        LinksKept(s', Links(lib, lib.netloc(cfg.baseUrl), url, web.anchors(body)), depth + 1);
      }
    }

    /** Rows are never removed and every new row is a same-host, non-binary URL. */
    ghost predicate Grown(before: Table, after: Table)
    {
      before.Keys <= after.Keys &&
      forall u :: u in after && u !in before ==> lib.netloc(u) == lib.netloc(cfg.baseUrl) && !IsBinaryUrl(cfg.binaryExtensions, u)
    }

    /** Every URL of `visited` has a visited row with an accepted content type and is not binary. */
    ghost predicate VisitedRows(t: Table, visited: set<string>)
    {
      forall u :: u in visited ==>
        u in t && t[u].status == Visited && !IsBinaryUrl(cfg.binaryExtensions, u) &&
        t[u].contentType.Some? && t[u].contentType.value in cfg.acceptedContentTypes
    }

    /**
     * One turn of the crawl loop: dequeue, stop if there is no URL, else
     * process the dequeued URL; it joins the visited set exactly when its
     * page was fetched.
     */
    method CrawlStep(web: Web, visited: set<string>, ghost trace: seq<(string, int)>)
      returns (visited': set<string>, next: Option<(string, int)>, ghost trace': seq<(string, int)>)
      requires Valid() && VisitedRows(db.urls, visited)
      modifies db, this`downloads
      ensures Valid() && VisitedRows(db.urls, visited') && visited <= visited'
      ensures Grown(old(db.urls), db.urls) && old(downloads) <= downloads
      ensures if Stops(old(State()), cfg.maxDepth) then next.None? && State() == old(State()) && visited' == visited
        else next == Scan(old(db.urls), old(db.order), cfg.maxDepth) && State() == StepAfter(web, old(State()), next.value.0, next.value.1)
      ensures next.Some? ==> var (u, d) := next.value; var o := Classify(cfg, lib, web, u, d);
        && visited' == (if o.Fetched? then visited + {u} else visited)
        && u in db.urls && ChildRows(old(db.urls), db.urls, d) && KeepsOthers(old(db.urls), db.urls, u)
        && (!o.Fetched? ==> db.urls == MarkAfter(old(db.urls), u, o))
        && (o.Fetched? ==> u in db.urls && db.urls[u].status == Visited && db.urls[u].contentType == Some(o.contentType))
      ensures trace' == trace + if next.Some? then [next.value] else []
      ensures visited == FetchedIn(web, trace) ==> visited' == FetchedIn(web, trace')
      ensures (forall i :: 0 <= i < |trace| ==> trace[i].0 in old(db.urls)) ==> forall i :: 0 <= i < |trace'| ==> trace'[i].0 in db.urls
    {
      next := db.GetNextUrl(cfg.maxDepth);
      if next.None? || next.value.0 == "" {
        return visited, None, trace;
      }
      var (url, depth) := next.value;
      ghost var before := db.urls;
      var o, info := ProcessUrl(web, url, depth);
      visited' := if o.Fetched? then visited + {url} else visited;
      StepSettles(before, db.urls, visited, url, depth, o, info);
      trace' := trace + [(url, depth)];
      TraceGrows(web, trace, visited, visited', url, depth);
      TraceInTable(trace, url, depth, before, db.urls);
    }

    /** A step that processed `url` extends the trace, and the visited set by `url` exactly when its page was fetched. */
    lemma TraceGrows(web: Web, trace: seq<(string, int)>, visited: set<string>, visited': set<string>, url: string, depth: int)
      requires visited' == if Classify(cfg, lib, web, url, depth).Fetched? then visited + {url} else visited
      ensures visited == FetchedIn(web, trace) ==> visited' == FetchedIn(web, trace + [(url, depth)])
    {
      FetchedInSnoc(web, trace, (url, depth));
    }

    /** Rows are never removed, so every dequeued URL keeps its row. */
    lemma TraceInTable(trace: seq<(string, int)>, url: string, depth: int, before: Table, after: Table)
      requires before.Keys <= after.Keys && url in after
      ensures (forall i :: 0 <= i < |trace| ==> trace[i].0 in before) ==>
        forall i :: 0 <= i < |trace| + 1 ==> (trace + [(url, depth)])[i].0 in after
    {
    }

    /** What a processed row leaves: the visited set stays truthful and the table only grows. */
    lemma StepSettles(before: Table, after: Table, visited: set<string>, url: string, depth: int,
                      o: StepOutcome, info: Option<(string, seq<Tag>)>)
      requires VisitedRows(before, visited) && url in before && before[url].status == ToVisit
      requires ChildRows(before, after, depth) && KeepsOthers(before, after, url)
      requires o.Fetched? ==> !IsBinaryUrl(cfg.binaryExtensions, url) && o.contentType in cfg.acceptedContentTypes
      requires o.Fetched? ==> after[url] == before[url].(status := Visited, contentType := Some(o.contentType),
          summary := if info.Some? then Some(info.value.0) else before[url].summary,
          tags := if info.Some? then Some(TagString(info.value.1)) else before[url].tags)
      ensures VisitedRows(after, if o.Fetched? then visited + {url} else visited)
      ensures Grown(before, after)
    {
      assert url !in visited;
    }

    /** The URLs of `trace` (dequeued URLs and their depths, in order) whose page was fetched. */
    ghost function FetchedIn(web: Web, trace: seq<(string, int)>): set<string>
    {
      if |trace| == 0 then {}
      else
        var last := trace[|trace| - 1];
        FetchedIn(web, trace[..|trace| - 1]) + if Classify(cfg, lib, web, last.0, last.1).Fetched? then {last.0} else {}
    }

    lemma FetchedInSnoc(web: Web, trace: seq<(string, int)>, step: (string, int))
      ensures FetchedIn(web, trace + [step]) ==
        FetchedIn(web, trace) + if Classify(cfg, lib, web, step.0, step.1).Fetched? then {step.0} else {}
    {
      assert (trace + [step])[..|trace|] == trace;
    }

    /** One iteration of the crawl loop as a function of the state and the dequeued pair. */
    ghost function Step(web: Web): (CrawlState, string, int) -> CrawlState {
      (s, u, d) => StepAfter(web, s, u, d)
    }

    /**
     * crawl: the base URL is added at depth 0, then rows are dequeued and
     * processed until the dequeue gives no URL. `fuel` bounds the number of
     * iterations; `done` says the loop ended as the Python loop does. `trace`
     * is the URLs dequeued, in order: the returned set is exactly those whose
     * page was fetched.
     */
    method Crawl(web: Web, fuel: nat) returns (visited: set<string>, done: bool, ghost trace: seq<(string, int)>)
      requires Valid()
      modifies db, this`downloads
      ensures Valid()
      ensures (trace, State()) == Run(Step(web), cfg.maxDepth, Added(old(State()), cfg.baseUrl, 0, ToVisit, None), fuel)
      ensures old(db.urls).Keys <= db.urls.Keys && old(downloads) <= downloads
      ensures forall u :: u in db.urls && u !in old(db.urls) ==>
        (u == cfg.baseUrl || lib.netloc(u) == lib.netloc(cfg.baseUrl)) && !IsBinaryUrl(cfg.binaryExtensions, u)
      ensures VisitedRows(db.urls, visited)
      ensures visited == FetchedIn(web, trace)
      ensures forall i :: 0 <= i < |trace| ==> trace[i].0 in db.urls
      ensures if done then |trace| < fuel else |trace| == fuel
      ensures done ==> Stops(State(), cfg.maxDepth)
    {
      AddUrl(cfg.baseUrl, 0, ToVisit, None);
      visited, done, trace := CrawlLoop(web, fuel);
    }

    /** The run from `s0` so far is `trace`, and the rest of it runs from `s`. */
    ghost predicate Accounted(web: Web, s0: CrawlState, fuel: nat, steps: nat, trace: seq<(string, int)>, s: CrawlState)
      requires steps <= fuel
    {
      var run, rest := Run(Step(web), cfg.maxDepth, s0, fuel), Run(Step(web), cfg.maxDepth, s, fuel - steps);
      run == (trace + rest.0, rest.1)
    }

    lemma GrownTrans(a: Table, b: Table, c: Table)
      requires Grown(a, b) && Grown(b, c)
      ensures Grown(a, c)
    {
    }

    /** One turn of the while-loop: a crawl step, and the run so far accounted for. */
    method Turn(web: Web, visited: set<string>, ghost trace: seq<(string, int)>, ghost s0: CrawlState, ghost fuel: nat, ghost steps: nat)
      returns (visited': set<string>, next: Option<(string, int)>, ghost trace': seq<(string, int)>)
      requires Valid() && VisitedRows(db.urls, visited) && visited == FetchedIn(web, trace)
      requires forall i :: 0 <= i < |trace| ==> trace[i].0 in db.urls
      requires steps < fuel && |trace| == steps && Accounted(web, s0, fuel, steps, trace, State())
      modifies db, this`downloads
      ensures Valid() && VisitedRows(db.urls, visited') && visited' == FetchedIn(web, trace')
      ensures Grown(old(db.urls), db.urls) && old(downloads) <= downloads
      ensures forall i :: 0 <= i < |trace'| ==> trace'[i].0 in db.urls
      ensures var steps' := steps + if next.Some? then 1 else 0;
        |trace'| == steps' && Accounted(web, s0, fuel, steps', trace', State())
      ensures next.None? ==> Stops(State(), cfg.maxDepth)
    {
      ghost var before := State();
      visited', next, trace' := CrawlStep(web, visited, trace);
      RunAdvance(Step(web), cfg.maxDepth, s0, fuel, steps, trace, before, State(), next);
    }

    /** The while-loop of crawl, from the table the base URL was added to. */
    method CrawlLoop(web: Web, fuel: nat) returns (visited: set<string>, done: bool, ghost trace: seq<(string, int)>)
      requires Valid()
      modifies db, this`downloads
      ensures Valid() && Grown(old(db.urls), db.urls) && old(downloads) <= downloads
      ensures (trace, State()) == Run(Step(web), cfg.maxDepth, old(State()), fuel)
      ensures VisitedRows(db.urls, visited)
      ensures visited == FetchedIn(web, trace)
      ensures forall i :: 0 <= i < |trace| ==> trace[i].0 in db.urls
      ensures if done then |trace| < fuel else |trace| == fuel
      ensures done ==> Stops(State(), cfg.maxDepth)
    {
      visited, done, trace := {}, false, [];
      var steps := 0;
      assert [] + Run(Step(web), cfg.maxDepth, State(), fuel).0 == Run(Step(web), cfg.maxDepth, State(), fuel).0;
      while !done && steps < fuel
        invariant Valid() && VisitedRows(db.urls, visited)
        invariant Grown(old(db.urls), db.urls) && old(downloads) <= downloads
        invariant visited == FetchedIn(web, trace)
        invariant forall i :: 0 <= i < |trace| ==> trace[i].0 in db.urls
        invariant steps <= fuel && |trace| == steps
        invariant Accounted(web, old(State()), fuel, steps, trace, State())
        invariant done ==> Stops(State(), cfg.maxDepth) && steps < fuel
        decreases fuel - steps, if done then 0 else 1
      {
        var next;
        ghost var before := db.urls;
        visited, next, trace := Turn(web, visited, trace, old(State()), fuel, steps);
        GrownTrans(old(db.urls), before, db.urls);
        if next.None? {
          done := true;
        } else {
          steps := steps + 1;
        }
      }
      RunStops(Step(web), cfg.maxDepth, State(), fuel - steps);
      assert trace + [] == trace;
    }
  }
}
