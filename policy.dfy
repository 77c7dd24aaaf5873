/**
 * The crawl policy engine of SiteCrawler: binary-suffix detection, exclude
 * patterns, URL-scoped settings and the three-layer settings merge. Regular
 * expression search and URL parsing are library calls and are parameters here.
 */
module Policy {
  import opened Wrappers
  import opened Strings

  /** The library collaborators: re.search, urlparse(..).path, urlparse(..).netloc, urljoin. */
  datatype UrlLib = UrlLib(
    search: (string, string) -> bool,    // search(pattern, text)
    path: string -> string,
    netloc: string -> string,
    join: (string, string) -> string)

  /** A settings value, as YAML gives it: a flag, a list of strings, or null. */
  datatype Value = Flag(b: bool) | Strs(items: seq<string>) | Null

  type Settings = map<string, Value>

  const DownloadBinariesKey := "download_binaries"
  const DownloadSpecificKey := "download_specific_binaries"
  const FindImagesKey := "find_images"
  const ExcludeUrlKey := "exclude_url_patterns"
  const ExcludeContentKey := "exclude_content_patterns"

  /** The configuration a SiteCrawler reads when it is constructed. */
  datatype CrawlerConfig = CrawlerConfig(
    baseUrl: string,
    maxDepth: int,
    acceptedContentTypes: seq<string>,
    binaryExtensions: seq<string>,
    downloadBinaries: bool,
    downloadSpecificBinaries: seq<string>,
    findImages: bool,
    respectRobots: bool,
    excludeUrlPatterns: seq<string>,
    excludeContentPatterns: seq<string>,
    depthSettings: map<int, Settings>,
    urlSettings: seq<(string, Settings)>,   // a dict: its keys in declared order
    recursiveCrawl: bool)

  /** Python truthiness of a settings value. */
  predicate Truthy(v: Value) {
    match v
    case Flag(b) => b
    case Strs(s) => |s| > 0
    case Null => false
  }

  /** is_binary_url: some configured extension ends the lower-cased URL. */
  function IsBinaryUrl(exts: seq<string>, url: string): (r: bool)
    ensures r <==> exists i :: 0 <= i < |exts| && EndsWith(Lower(url), exts[i])
  {
    if |exts| == 0 then false
    else EndsWith(Lower(url), exts[0]) || IsBinaryUrl(exts[1..], url)
  }

  /** Some pattern of the list is found in the text. */
  function AnyMatch(search: (string, string) -> bool, patterns: seq<string>, text: string): (r: bool)
    ensures r <==> exists i :: 0 <= i < |patterns| && search(patterns[i], text)
  {
    if |patterns| == 0 then false
    else search(patterns[0], text) || AnyMatch(search, patterns[1..], text)
  }

  /**
   * should_exclude_url: the passed list when there is one (even an empty one),
   * otherwise the crawler's own list; true iff one of its patterns is found.
   */
  function ShouldExcludeUrl(lib: UrlLib, url: string, patterns: Option<seq<string>>, own: seq<string>): (r: bool)
    ensures patterns.Some? ==> (r <==> exists i :: 0 <= i < |patterns.value| && lib.search(patterns.value[i], url))
    ensures patterns.None? ==> (r <==> exists i :: 0 <= i < |own| && lib.search(own[i], url))
  {
    AnyMatch(lib.search, if patterns.Some? then patterns.value else own, url)
  }

  /** The first entry whose key is exactly the URL. */
  function ExactEntry(entries: seq<(string, Settings)>, url: string): (r: Option<Settings>)
    ensures r.None? <==> forall i :: 0 <= i < |entries| ==> entries[i].0 != url
    ensures r.Some? ==> exists i :: 0 <= i < |entries| && entries[i] == (url, r.value) &&
                          forall j :: 0 <= j < i ==> entries[j].0 != url
  {
    if |entries| == 0 then None
    else if entries[0].0 == url then Some(entries[0].1)
    else
      var r := ExactEntry(entries[1..], url);
      if r.Some? then
        var i :| 0 <= i < |entries[1..]| && entries[1..][i] == (url, r.value) &&
                 forall j :: 0 <= j < i ==> entries[1..][j].0 != url;
        assert entries[i + 1] == (url, r.value);
        r
      else r
  }

  /** The first entry, in declared order, whose key (a pattern) is found in the URL. */
  function FirstMatchingEntry(search: (string, string) -> bool, entries: seq<(string, Settings)>, url: string): (r: Option<Settings>)
    ensures r.None? <==> forall i :: 0 <= i < |entries| ==> !search(entries[i].0, url)
    ensures r.Some? ==> exists i :: 0 <= i < |entries| && search(entries[i].0, url) && entries[i].1 == r.value &&
                          forall j :: 0 <= j < i ==> !search(entries[j].0, url)
  {
    if |entries| == 0 then None
    else if search(entries[0].0, url) then Some(entries[0].1)
    else
      var r := FirstMatchingEntry(search, entries[1..], url);
      if r.Some? then
        var i :| 0 <= i < |entries[1..]| && search(entries[1..][i].0, url) && entries[1..][i].1 == r.value &&
                 forall j :: 0 <= j < i ==> !search(entries[1..][j].0, url);
        assert entries[i + 1] == entries[1..][i];
        r
      else r
  }

  /** get_url_specific_settings: an exact key wins outright, then the first matching pattern, else {}. */
  function UrlSpecificSettings(lib: UrlLib, entries: seq<(string, Settings)>, url: string): (r: Settings)
    ensures ExactEntry(entries, url).Some? ==> r == ExactEntry(entries, url).value
    ensures ExactEntry(entries, url).None? && FirstMatchingEntry(lib.search, entries, url).Some? ==>
              r == FirstMatchingEntry(lib.search, entries, url).value
    ensures ExactEntry(entries, url).None? && FirstMatchingEntry(lib.search, entries, url).None? ==> r == map[]
  {
    match ExactEntry(entries, url)
    case Some(s) => s
    case None => FirstMatchingEntry(lib.search, entries, url).GetOr(map[])
  }

  /** The global layer of merge_settings: the crawler's five policy keys. */
  function GlobalSettings(cfg: CrawlerConfig): (r: Settings)
    ensures r.Keys == {DownloadBinariesKey, DownloadSpecificKey, FindImagesKey, ExcludeUrlKey, ExcludeContentKey}
  {
    map[DownloadBinariesKey := Flag(cfg.downloadBinaries),
        DownloadSpecificKey := Strs(cfg.downloadSpecificBinaries),
        FindImagesKey := Flag(cfg.findImages),
        ExcludeUrlKey := Strs(cfg.excludeUrlPatterns),
        ExcludeContentKey := Strs(cfg.excludeContentPatterns)]
  }

  function DepthLayer(cfg: CrawlerConfig, depth: int): Settings {
    if depth in cfg.depthSettings then cfg.depthSettings[depth] else map[]
  }

  /**
   * merge_settings: globals, then depth_settings[depth], then the URL's
   * settings, each a shallow overwrite of the one before.
   */
  function EffectiveSettings(cfg: CrawlerConfig, lib: UrlLib, url: string, depth: int): (eff: Settings)
    ensures var g, d, u := GlobalSettings(cfg), DepthLayer(cfg, depth), UrlSpecificSettings(lib, cfg.urlSettings, url);
      && eff.Keys == g.Keys + d.Keys + u.Keys
      && (forall k :: k in u ==> eff[k] == u[k])
      && (forall k :: k in d && k !in u ==> eff[k] == d[k])
      && (forall k :: k in g && k !in d && k !in u ==> eff[k] == g[k])
  {
    GlobalSettings(cfg) + DepthLayer(cfg, depth) + UrlSpecificSettings(lib, cfg.urlSettings, url)
  }

  /** `effective.get("exclude_url_patterns", [])`, as should_exclude_url receives it. */
  function ExcludePatternsOf(eff: Settings): (r: Option<seq<string>>)
    ensures ExcludeUrlKey !in eff ==> r == Some([])
    ensures ExcludeUrlKey in eff && eff[ExcludeUrlKey].Strs? ==> r == Some(eff[ExcludeUrlKey].items)
    ensures r.None? <==> ExcludeUrlKey in eff && eff[ExcludeUrlKey] == Null
  {
    if ExcludeUrlKey !in eff then Some([])
    else match eff[ExcludeUrlKey]
      case Strs(s) => Some(s)
      case Null => None
      case Flag(_) => Some([])
  }

  /** `effective.get(key, default)` read for its truthiness. */
  function FlagOf(eff: Settings, key: string, default: bool): bool {
    if key in eff then Truthy(eff[key]) else default
  }

  /**
   * `os.path.splitext(path)[1]`: from the last dot of the last path segment,
   * provided that segment has a non-dot character before it; otherwise "".
   */
  function Extension(path: string): (ext: string)
    ensures ext == "" || (ext[0] == '.' && '.' !in ext[1..] && '/' !in ext)
    ensures ext != "" ==> EndsWith(path, ext)
  {
    var sep := LastIndex(path, '/');
    var dot := LastIndex(path, '.');
    if dot > sep && exists i :: sep + 1 <= i < dot && path[i] != '.' then
      assert path[dot..][0] == '.';
      assert path[dot..][1..] == path[dot + 1..];
      path[dot..]
    else ""
  }

  /** The index of the last occurrence of c, or -1. */
  function LastIndex(s: string, c: char): (r: int)
    ensures -1 <= r < |s|
    ensures r >= 0 ==> s[r] == c
    ensures forall i :: r < i < |s| ==> s[i] != c
  {
    if |s| == 0 then -1
    else if s[|s| - 1] == c then |s| - 1
    else LastIndex(s[..|s| - 1], c)
  }

  /** What add_url does with a URL, decided from the URL string alone. */
  datatype AddAction = Exclude | DownloadBinary | SkipBinary | Insert

  function AddUrlAction(cfg: CrawlerConfig, lib: UrlLib, url: string, depth: int): AddAction {
    var eff := EffectiveSettings(cfg, lib, url, depth);
    if ShouldExcludeUrl(lib, url, ExcludePatternsOf(eff), cfg.excludeUrlPatterns) then Exclude
    else if IsBinaryUrl(cfg.binaryExtensions, url) then
      var ext := Lower(Extension(lib.path(url)));
      var specific := if DownloadSpecificKey in eff then eff[DownloadSpecificKey] else Null;
      if FlagOf(eff, DownloadBinariesKey, false) || (specific.Strs? && |specific.items| > 0 && ext in specific.items)
      then DownloadBinary
      else SkipBinary
    else Insert
  }

  /**
   * The add_url decision: excluded URLs are dropped; a binary URL is downloaded
   * iff downloading is on or its last extension is listed, and is never inserted;
   * any other URL is inserted.
   */
  lemma AddUrlDecision(cfg: CrawlerConfig, lib: UrlLib, url: string, depth: int)
    ensures var eff := EffectiveSettings(cfg, lib, url, depth);
      var excluded := ShouldExcludeUrl(lib, url, ExcludePatternsOf(eff), cfg.excludeUrlPatterns);
      var binary := exists i :: 0 <= i < |cfg.binaryExtensions| && EndsWith(Lower(url), cfg.binaryExtensions[i]);
      var ext := Lower(Extension(lib.path(url)));
      var listed := DownloadSpecificKey in eff && eff[DownloadSpecificKey].Strs? && ext in eff[DownloadSpecificKey].items;
      && (AddUrlAction(cfg, lib, url, depth) == Exclude <==> excluded)
      && (AddUrlAction(cfg, lib, url, depth) == Insert <==> !excluded && !binary)
      && (AddUrlAction(cfg, lib, url, depth) == DownloadBinary <==>
            !excluded && binary && (FlagOf(eff, DownloadBinariesKey, false) || listed))
  {
  }

  /**
   * `splitext` keeps only the last extension, so an extension with two dots
   * such as ".tar.gz" never equals the extension of any path.
   */
  lemma MultiDotExtensionNeverFound(path: string, listed: string)
    requires |listed| > 1 && '.' in listed[1..]
    ensures Lower(Extension(path)) != listed
  {
  }

  /** A ".tar.gz" URL is skipped when only ".tar.gz" is listed for download. */
  lemma TarGzNotDownloadedBySpecificList(cfg: CrawlerConfig, lib: UrlLib, url: string, depth: int)
    requires EffectiveSettings(cfg, lib, url, depth) == GlobalSettings(cfg)
    requires !cfg.downloadBinaries && cfg.downloadSpecificBinaries == [".tar.gz"]
    requires IsBinaryUrl(cfg.binaryExtensions, url)
    requires !AnyMatch(lib.search, cfg.excludeUrlPatterns, url)
    ensures AddUrlAction(cfg, lib, url, depth) == SkipBinary
  {
    MultiDotExtensionNeverFound(lib.path(url), ".tar.gz");
    assert ".tar.gz"[1..][3] == '.';
  }
}
