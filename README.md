# safarnama, modelled in Dafny

safarnama is a site crawler. It walks one site from a base URL, keeps a frontier of URLs in a
database, reads each HTML page, asks an LLM for a summary and tags, and follows links on the same
host. It also queries a pool of SearxNG instances and puts instances that fail into a cooldown.
The repository carries two crawlers:

- the package crawler in `src/safarnama/` (`crawler.py`, `db.py`, `searcher.py`, `config.py`);
- an older single-file crawler in `src/safarnama/main.py`, which learns new binary extensions and
  writes them back to its YAML file.

This project models both crawlers and proves what their code promises.

- `frontier.dfy` (module `Frontier`) is the URL table of `db.py`. `FrontierDb` keeps the rows as
  a map and the insertion order as a sequence. Its methods are proved against pure functions:
  - `InsertIfAbsent`: the first insert wins;
  - `WithStatus` and `WithPageInfo`: the row updates;
  - `Scan`: the dequeue, the shallowest row still to visit.
- `registry.dfy` (module `Registry`) is the instances table:
  - `InstanceRegistry` does the upsert with its default priority of 100, sets and clears the
    cooldown, and recomputes the priorities;
  - the listing of available instances is proved sorted by priority, a permutation of the
    available rows, and free of duplicates.
- `policy.dfy` (module `Policy`) holds the pure decisions of the package crawler:
  - binary-URL test;
  - exclusion patterns;
  - per-URL settings, exact entry first, then the first pattern that matches;
  - the three-layer settings merge;
  - `os.path.splitext`;
  - the four outcomes of `add_url`.
- `crawler.dfy` (module `Crawler`) is the package crawler. `SiteCrawler`'s `AddUrl`,
  `ProcessUrl`, `CrawlStep` and `Crawl` drive a `FrontierDb`. The crawl keeps these invariants:
  - every visited URL has a `visited` row with an accepted content type and a non-binary URL;
  - every row added is on the base host and is not binary;
  - the crawl is the run of one step function from the table holding the base URL: the URLs
    dequeued are, in order, those `get_next_url` gives on each successive table, and the returned
    set is exactly those of them whose page was fetched;
  - a step's table is the one its page's classification, summary, images and links give.
- `llm.dfy` (module `Summarizer`) models `get_summary_and_tags`:
  - at most three POSTs, retried only on a timeout;
  - the code-fence stripping, with a round trip;
  - tag normalisation.
- `searcher.dfy` (module `Searcher`) models `SearxNGSearcher`. For a whole search it proves:
  - every query goes to an instance whose health probe just succeeded;
  - the rounds stay within `retries`;
  - each round reloads the available instances sorted by priority and probes them in that order;
  - the result is the first query to succeed, and a search that found nothing ran every round and
    probed every listed instance in each.
- `config.dfy` (module `Config`) models the package `load_dotenv` and `load_config`:
  - the dotenv parse, where the first definition wins and existing variables are kept;
  - the merge of `DEFAULT_CONFIG` into the YAML mapping: its keys, its failure cases, when
    `updated` is set, and idempotence;
  - the connection-string and `max_depth` rules.
- `legacy.dfy` (module `Legacy`) models `main.py`:
  - `load_env` and `update_env`, where the last line wins, with the write/read round trip;
  - `load_config` with the `LLM_API_KEY` override, which reaches the file;
  - `update_config_binary_extension`, whose learned extension survives the reload;
  - the single-file crawler, proved equal to the run of its step function from the table holding
    the base URL. It never dequeues a URL twice, returns exactly the URLs whose page it fetched,
    and stops at the first step that raises.
- `strings.dfy` (modules `Wrappers` and `Strings`) holds `Option` and the string functions the
  source uses: strip, lower, startswith and endswith, split, join.

The collaborators the code calls are parameters of the model:

- the HTTP client, robots.txt parser, HTML parser and LLM are `Web`, `LegacyWeb`, `Http` and
  per-attempt outcome functions;
- regex search, `urljoin` and `urlparse(...).netloc` are the `UrlLib` record;
- the JSON decoder is a function argument;
- the process environment is a `map`;
- files are a `map` (YAML) or a text field (`.env`);
- the clock is one `now` per operation.

## Model

| member | source | states |
|---|---|---|
| Frontier.InsertIfAbsent | src/safarnama/db.py:50-60 | the URL is present afterwards; an existing row is kept; otherwise the new row is stored; no other row changes |
| Frontier.WithStatus | src/safarnama/db.py:62-74 | only the URL's status and content type change; a missing URL leaves the table as it is |
| Frontier.WithPageInfo | src/safarnama/db.py:76-88 | only the URL's summary and tags are set; the keys are kept |
| Frontier.ScanCorrect | src/safarnama/db.py:90-107 | the dequeued row is a to-visit row within max_depth of minimal depth, and nothing is dequeued iff there is no such row |
| Frontier.MarkedRowLeavesFrontier | src/safarnama/db.py:95 | a row marked with any status other than to_visit is no longer a candidate, the candidacy of the other rows is unchanged, and the next dequeue is another URL |
| Frontier.FirstInsertWins | src/safarnama/db.py:50-60 | a second insert of the same URL leaves the first row in place |
| Frontier.FrontierDb.constructor | src/safarnama/db.py:44-47 | the table starts empty |
| Frontier.FrontierDb.InsertUrl | src/safarnama/db.py:50-60 | the table becomes the first-insert-wins insertion; the order grows only by a new URL |
| Frontier.FrontierDb.UpdateUrlStatus | src/safarnama/db.py:62-74 | the table becomes the status update; the order is kept |
| Frontier.FrontierDb.UpdatePageInfo | src/safarnama/db.py:76-88 | the table becomes the page-info update; the order is kept |
| Frontier.FrontierDb.GetNextUrl | src/safarnama/db.py:90-107 | the loop returns a shallowest candidate with its depth, or None exactly when there is no candidate |
| Registry.MetaOf | src/safarnama/db.py:116-127 | the stored metadata copies the instance JSON and ipv6 is "Yes" exactly when the flag is set |
| Registry.Upserted | src/safarnama/db.py:110-184 | an existing row gets new metadata and uptime with its priority and cooldown kept; a new row gets priority 100 and no cooldown; other rows are kept |
| Registry.WithSleep | src/safarnama/db.py:186-212 | only the instance's cooldown changes |
| Registry.Reprioritised | src/safarnama/db.py:214-221 | priority plus uptime (missing uptime counts as 0) equals 100; the other fields are kept |
| Registry.ReprioritisedAll | src/safarnama/db.py:214-226 | every row is reprioritised and the keys are kept |
| Registry.AvailableIn | src/safarnama/db.py:232-234 | a URL is listed iff it is a stored instance that is available at `now` |
| Registry.InsertByPriority | src/safarnama/db.py:235 | inserting into the priority ordering adds exactly that URL, as a multiset |
| Registry.InsertKeepsSorted | src/safarnama/db.py:235 | insertion keeps the list sorted by ascending priority |
| Registry.AvailableInNoDup | src/safarnama/db.py:232-237 | the available list has no duplicates |
| Registry.SortedAvailablePerm | src/safarnama/db.py:232-237 | the result is sorted by priority and is a permutation of the available instances |
| Registry.SortedAvailableSpec | src/safarnama/db.py:228-243 | the listing holds exactly the available instances, sorted by priority, without duplicates |
| Registry.CooledIn | src/safarnama/db.py:234 | under the reading where the line filters, SQL keeps exactly the rows whose cooldown is set and has elapsed |
| Registry.ListedAsWritten | src/safarnama/db.py:228-243 | the listing as written gives nothing iff `False \| expr` raises; otherwise it lists only cooled, elapsed instances |
| Registry.NeverCooledNeverListedAsWritten | src/safarnama/db.py:234 | under either reading of the line as written, a newly upserted instance is never listed, although the intended filter lists it |
| Registry.AsWrittenIsNarrower | src/safarnama/db.py:234 | under the reading where the line filters, it keeps a subset of the intended filter and drops exactly the instances without a cooldown |
| Registry.InstanceRegistry.constructor | src/safarnama/db.py:44-47 | the instances table starts empty |
| Registry.InstanceRegistry.UpsertInstance | src/safarnama/db.py:110-184 | the table becomes the upsert; the order grows only by a new URL |
| Registry.InstanceRegistry.UpdateSleep | src/safarnama/db.py:186-199 | the instance's cooldown ends `seconds` after `now` |
| Registry.InstanceRegistry.ClearSleep | src/safarnama/db.py:201-212 | the instance's cooldown is cleared |
| Registry.InstanceRegistry.UpdateAllPriorities | src/safarnama/db.py:214-226 | every row's priority is recomputed from its uptime by the loop, and nothing else changes |
| Registry.InstanceRegistry.GetAvailableInstances | src/safarnama/db.py:228-243 | the loop returns the available instances (no cooldown, or one that has elapsed), sorted by priority, without duplicates |
| Policy.IsBinaryUrl | src/safarnama/crawler.py:57-61 | true iff the lower-cased URL ends with one of the binary extensions |
| Policy.AnyMatch | src/safarnama/crawler.py:69-73 | true iff some pattern is found in the text |
| Policy.ShouldExcludeUrl | src/safarnama/crawler.py:63-73 | true iff some pattern of the given list is found in the URL, falling back to the crawler's own list when none is given |
| Policy.ExactEntry | src/safarnama/crawler.py:76-77 | the settings stored under exactly this URL, or None iff no entry has that key |
| Policy.FirstMatchingEntry | src/safarnama/crawler.py:78-80 | the settings of the first entry whose pattern is found in the URL, or None iff none matches |
| Policy.UrlSpecificSettings | src/safarnama/crawler.py:75-81 | an exact entry wins, then the first matching pattern, otherwise an empty mapping |
| Policy.GlobalSettings | src/safarnama/crawler.py:84-90 | the global layer has exactly the five setting keys |
| Policy.EffectiveSettings | src/safarnama/crawler.py:83-93 | each key takes its value from the URL layer, else the depth layer, else the global layer |
| Policy.ExcludePatternsOf | src/safarnama/crawler.py:113-114 | a listed value gives its patterns, an explicit null falls back to the crawler's own list, and a missing key gives no patterns |
| Policy.Extension | src/safarnama/crawler.py:119 | the extension is empty or a final suffix of the path that starts with '.' and has no further '.' or '/' |
| Policy.AddUrlDecision | src/safarnama/crawler.py:109-131 | the outcome of add_url: excluded first; then a binary URL is downloaded (when binaries, or its extension, are enabled) or dropped; otherwise it is inserted |
| Policy.MultiDotExtensionNeverFound | src/safarnama/crawler.py:119-122 | a listed extension with an inner dot never equals the splitext extension |
| Policy.TarGzNotDownloadedBySpecificList | src/safarnama/crawler.py:119-122 | with only ".tar.gz" listed for download, a .tar.gz URL is still skipped |
| Crawler.MarkAfterLeavesToVisit | src/safarnama/crawler.py:229-257 | each outcome except the binary one takes the row out of to_visit; the row is visited iff the page was fetched, with its media type |
| Crawler.ClassifyCases | src/safarnama/crawler.py:229-256 | excluded iff the patterns match; a binary URL is left as it is; a fetched page passed robots, has an accepted media type and its body |
| Crawler.BinaryRowIsDequeuedAgain | src/safarnama/crawler.py:235-236 | a binary to_visit row at the head of the frontier is left unchanged and dequeued again |
| Crawler.ImageUrls | src/safarnama/crawler.py:274-275 | every image src is resolved against the page URL, in order |
| Crawler.SiteCrawler.constructor | src/safarnama/crawler.py:17-39 | the crawler holds its configuration and database and has downloaded nothing |
| Crawler.SiteCrawler.MergeSettings | src/safarnama/crawler.py:83-93 | the merged settings have exactly the keys of the three layers |
| Crawler.SiteCrawler.DecideAdd | src/safarnama/crawler.py:110-131 | the method's decision agrees with the add_url outcome; it inserts iff the URL is neither excluded nor binary |
| Crawler.SiteCrawler.AddedRows | src/safarnama/crawler.py:109-131 | only a non-binary URL is ever added, as the given row; the order grows by it alone |
| Crawler.SiteCrawler.AddUrl | src/safarnama/crawler.py:109-131 | the frontier changes as the add_url outcome says; new rows are non-binary; binary downloads are appended |
| Crawler.SiteCrawler.EnqueueLinks | src/safarnama/crawler.py:281-293 | the state is add_url applied at depth + 1 to the same-host links, in href order; every link add_url inserts is in the table, a new one as a to_visit child; the downloads grow by exactly the links add_url downloads; existing non-binary rows are kept |
| Crawler.SiteCrawler.DownloadImages | src/safarnama/crawler.py:272-280 | the resolved image URLs are recorded iff image downloading is on |
| Crawler.SiteCrawler.ClassifyAndMark | src/safarnama/crawler.py:229-257 | the outcome is the classification, and the row is marked as that outcome requires |
| Crawler.SiteCrawler.MarkRow | src/safarnama/crawler.py:229-257 | the row is marked for the outcome |
| Crawler.SiteCrawler.ProcessedRows | src/safarnama/crawler.py:257-293 | the marked row and the page handling together give the post-state of one dequeued URL |
| Crawler.SiteCrawler.HandleHtml | src/safarnama/crawler.py:259-293 | the summary and tags are get_summary_and_tags of the cleaned body; the state is the page row with them, the downloads plus the page images when downloading is on, and the link additions when recursion is on |
| Crawler.SiteCrawler.ProcessUrl | src/safarnama/crawler.py:229-293 | one URL is classified and marked; the state is the step function of the URL; the page info is the summary of the cleaned body iff the page is HTML; a fetched row is visited with its content type and info; nothing is added without recursion |
| Crawler.SiteCrawler.StepSettles | src/safarnama/crawler.py:257-258 | a fetched URL joins the visited set with a visited row, and earlier visited rows are kept |
| Crawler.SiteCrawler.CrawlStep | src/safarnama/crawler.py:226-294 | when get_next_url gives nothing, nothing changes; otherwise the pair processed is its answer and the state is the step function of that pair; the URL joins the visited set iff its page was fetched, its row is marked for its outcome and the rows added are its children |
| Crawler.SiteCrawler.TraceGrows | src/safarnama/crawler.py:226-258 | one more processed URL adds it to the set of fetched URLs iff its page was fetched |
| Crawler.SiteCrawler.FetchedInSnoc | src/safarnama/crawler.py:226-258 | the fetched URLs of a longer trace are those of the shorter one plus the last URL if it was fetched |
| Crawler.SiteCrawler.CrawlLoop | src/safarnama/crawler.py:225-295 | the trace and the state are the run of the step function from the starting state; the visited set is exactly the fetched URLs of the trace, each with a visited row; a loop that ended found nothing to dequeue, and one that did not used all its fuel |
| Crawler.SiteCrawler.Crawl | src/safarnama/crawler.py:221-295 | the trace and the state are the run of the step function from the state after add_url(base URL, 0); the returned set is exactly the fetched URLs of the trace; every visited URL has a visited row; every added row is on the base host and non-binary; a finished crawl left nothing to dequeue |
| Crawler.SiteCrawler.Turn | src/safarnama/crawler.py:226-294 | one more iteration keeps the account: the trace so far followed by the run from the new state is the whole run; when nothing was dequeued the run has stopped |
| Crawler.SiteCrawler.EnqueueHref | src/safarnama/crawler.py:283-293 | one more href extends the state by add_url of the link it gives, if any |
| Crawler.SiteCrawler.LinksInserted | src/safarnama/crawler.py:281-293 | after the link additions every link add_url inserts is present, a new one as a to_visit row at the given depth, and every new row is such a child |
| Crawler.SiteCrawler.LinksKept | src/safarnama/crawler.py:109-131 | the link additions download exactly the links add_url downloads, add rows only, and keep every existing non-binary row |
| Crawler.SiteCrawler.HtmlRows | src/safarnama/crawler.py:259-293 | the HTML branch stores the summary and tag string in the page row, adds only children, keeps the other rows, only grows the downloads, and adds nothing without recursion |
| Crawler.Run | src/safarnama/crawler.py:225-295 | a run dequeues at most `fuel` pairs, and fewer only when get_next_url has nothing left to give |
| Crawler.RunStops | src/safarnama/crawler.py:226-228 | with no fuel, or nothing to dequeue, a run dequeues nothing and changes nothing |
| Crawler.RunAdvance | src/safarnama/crawler.py:226-294 | one step from a state on the run, with the pair get_next_url gives, stays on the run, and a stop means the run has ended |
| Crawler.ApplyFacts | src/safarnama/crawler.py:109-131 | one add_url adds a URL only when it inserts it, as the given row, records a download only for a download, and changes an existing row only for a binary URL |
| Crawler.ApplyAllDownloads | src/safarnama/crawler.py:109-131 | a run of add_url calls only adds rows and appends exactly the downloaded URLs, in order |
| Crawler.ApplyAllNewRows | src/safarnama/crawler.py:109-131 | every row a run of add_url calls creates is one of its links, decided Insert, holding the given row |
| Crawler.ApplyAllKeeps | src/safarnama/crawler.py:109-131 | a run of add_url calls keeps every existing row of a non-binary URL |
| Crawler.ApplyAllInserts | src/safarnama/crawler.py:109-131 | every link decided Insert is in the table after the run |
| Crawler.Links | src/safarnama/crawler.py:283-292 | the links passed to add_url are on the base host, and every non-skipped href whose join is on the base host gives one |
| Summarizer.NormalizeTag | src/safarnama/crawler.py:265-270 | a normalised tag contains no '/' |
| Summarizer.NormalizeAll | src/safarnama/crawler.py:265-270 | the tags are normalised one by one, in order |
| Summarizer.TagStringShape | src/safarnama/crawler.py:265-270 | the tag string has no '/', is empty for no tags, and is the single tag for one |
| Summarizer.StripFenceRoundTrip | src/safarnama/crawler.py:195-198 | a body wrapped in a json code fence is recovered exactly |
| Summarizer.UnfencedContentUnchanged | src/safarnama/crawler.py:195-198 | a reply without the fence is parsed as it is |
| Summarizer.GetSummaryAndTags | src/safarnama/crawler.py:177-209 | at most three POSTs, retried only after a timeout; the answer is that of the first attempt that does not time out, interpreted, and any other failure gives an empty summary and no tags (reply shapes outside the model: see Left out) |
| Summarizer.FirstAnswer | src/safarnama/crawler.py:178-209 | when every attempt times out the answer is empty; otherwise the first attempt that does not time out is interpreted, or gives the empty answer when it failed |
| Summarizer.FencedReplyScenario | src/safarnama/crawler.py:194-202 | a fenced JSON reply yields its summary and tags |
| Searcher.Probe | src/safarnama/searcher.py:49-67 | rate-limited iff the status is 429; healthy iff a success status carries a JSON object |
| Searcher.QueryResult | src/safarnama/searcher.py:69-82 | a result iff the status is a non-429 success with a non-null JSON body, which is the result |
| Searcher.Stripped | src/safarnama/searcher.py:33 | each instance URL is taken with its trailing '/' removed, one for one |
| Searcher.ProbeUrlsAppend | src/safarnama/searcher.py:32-44 | the probed URLs of two event runs are those of each, in turn |
| Searcher.TryOneEvents | src/safarnama/searcher.py:33-44 | one instance, with its trailing '/' stripped, is probed first and only, and is queried only if the probe succeeded; a result comes from that URL |
| Searcher.TryAllEvents | src/safarnama/searcher.py:32-44 | each query of a round follows its healthy probe, and the first successful query is the last event |
| Searcher.TryAllProbes | src/safarnama/searcher.py:32-44 | a round probes a prefix of its list in list order, the whole list when nothing was found, and a result comes from the last URL probed |
| Searcher.RoundsEvents | src/safarnama/searcher.py:28-47 | the remaining rounds keep the same event discipline within their bounds |
| Searcher.SearchGuarantees | src/safarnama/searcher.py:28-47 | queries follow healthy probes, rounds stay within retries, a failed search had every query fail, and a result is the last event |
| Searcher.FirstRoundOk | src/safarnama/searcher.py:24-46 | a round refreshes the priorities, reloads the available instances sorted by priority (a permutation of the available ones) and probes them in that order |
| Searcher.RoundTriesOk | src/safarnama/searcher.py:28-47 | the rounds from one attempt number form a chain of well-formed rounds, each starting where the last left off, and there are retries - attempt + 1 of them unless one found a result |
| Searcher.RoundsChainAt | src/safarnama/searcher.py:30-46 | round k of a chain is numbered attempt + k and is well formed |
| Searcher.RoundsChainLinks | src/safarnama/searcher.py:28-47 | every round of a chain but the last found nothing, and the next starts from the table it left |
| Searcher.RoundsTries | src/safarnama/searcher.py:28-47 | the remaining rounds' events, table, result and loaded list are the concatenation and the last round's |
| Searcher.SearchRounds | src/safarnama/searcher.py:28-47 | a search is a chain of rounds from round 0 over freshly sorted lists probed in order; a result is the last round's, and a search that found nothing ran all retries + 1 rounds, each probing its whole list |
| Searcher.TrailingSlashCooldownLost | src/safarnama/searcher.py:33 | for a URL whose stored form ends in "/", the cooldown is written under the stripped key, which matches no row, so nothing changes |
| Searcher.ProbeCooldownApplied | src/safarnama/searcher.py:56-66 | a failed probe puts the instance in a 60-second cooldown on 429, otherwise 86400 seconds |
| Searcher.SearxNGSearcher.constructor | src/safarnama/searcher.py:15-22 | the searcher loads the available instances sorted by priority |
| Searcher.SearxNGSearcher.UpdateInstances | src/safarnama/searcher.py:24-26 | the priorities are recomputed and the available list is reloaded |
| Searcher.SearxNGSearcher.CheckInstanceHealth | src/safarnama/searcher.py:49-67 | healthy iff the probe is; the cooldown becomes the probe's cooldown |
| Searcher.SearxNGSearcher.PerformSearch | src/safarnama/searcher.py:69-82 | the result is the query result; a 429 puts the instance in cooldown |
| Searcher.SearxNGSearcher.TryRecord | src/safarnama/searcher.py:33-44 | one instance of a round is handled as TryOne says |
| Searcher.SearxNGSearcher.TryInstances | src/safarnama/searcher.py:32-44 | the loop over a round's instances agrees with TryAll, so TryAllEvents and TryAllProbes (list order, the whole list when nothing is found) apply to it |
| Searcher.SearxNGSearcher.Round | src/safarnama/searcher.py:30-46 | one round followed by the remaining ones agrees with Rounds, so FirstRoundOk and RoundTriesOk apply to it |
| Searcher.SearxNGSearcher.Search | src/safarnama/searcher.py:28-47 | the search loop agrees with Rounds from round 0, so SearchGuarantees and SearchRounds apply to it |
| Config.ParseLine | src/safarnama/config.py:69-74 | a parsed key and value are stripped; a blank line, a comment or a line without '=' gives nothing |
| Config.ParseLineKey | src/safarnama/config.py:72-74 | a key contains no '=' and does not start with '#' |
| Config.ParseLineCases | src/safarnama/config.py:69-74 | a line is parsed iff it is not blank, not a comment and has '='; the split is at the first '=' |
| Config.DotenvKeepsExisting | src/safarnama/config.py:65-74 | variables already set are never overwritten, and a new one comes from some line of the file |
| Config.DotenvFirstLineWins | src/safarnama/config.py:74 | the first line that defines a new key gives its value |
| Config.DotenvAppend | src/safarnama/config.py:68-74 | loading two pieces of a file in turn equals loading the whole file |
| Config.DotenvStep | src/safarnama/config.py:68-74 | one more line sets its key only if that key is not set yet |
| Config.Environment.constructor | src/safarnama/config.py:74 | the environment holds the given variables |
| Config.Environment.LoadDotenv | src/safarnama/config.py:65-74 | the loop leaves the environment as the dotenv fold says |
| Config.Environment.LoadLine | src/safarnama/config.py:69-74 | one line sets its parsed key to its parsed value unless the key is already set, and otherwise changes nothing |
| Config.ListItems | src/safarnama/config.py:93-97 | each default list item becomes its own membership entry, in order |
| Config.FillStepFacts | src/safarnama/config.py:88-97 | one missing item is added (dict key or list append) and `updated` is set only then |
| Config.FillCompletes | src/safarnama/config.py:88-97 | after filling, every default item is present |
| Config.FillIdle | src/safarnama/config.py:88-97 | a value that already holds every item is left as it is, and nothing is marked updated |
| Config.FillFails | src/safarnama/config.py:88-97 | filling raises iff the file's value has the wrong kind and some item is missing |
| Config.FillDictKeys | src/safarnama/config.py:88-92 | a filled mapping has the old keys plus the default sub-keys |
| Config.FillDictFirstWins | src/safarnama/config.py:89-92 | a sub-key the file lacks takes the default's value |
| Config.FillListContents | src/safarnama/config.py:93-97 | a filled list is the old list followed by the missing defaults in order |
| Config.MergeEntryFacts | src/safarnama/config.py:84-97 | one default key is merged or raises, with the exact cases for each |
| Config.MergeKeys | src/safarnama/config.py:84-97 | the merged mapping has the file's keys plus the default keys |
| Config.MergePerKey | src/safarnama/config.py:84-97 | each default key's merged value is the file's value filled from the default, or the default itself |
| Config.MergeUpdated | src/safarnama/config.py:83-97 | `updated` is set iff some default key was missing or incomplete |
| Config.MergeFacts | src/safarnama/config.py:84-97 | the merged mapping is complete; missing keys get the default; scalars and complete entries are kept; other keys are untouched |
| Config.MergeIdle | src/safarnama/config.py:84-97 | a complete file is returned unchanged and not marked updated |
| Config.MergeIdempotent | src/safarnama/config.py:84-97 | merging the merged mapping again changes nothing |
| Config.MergeFails | src/safarnama/config.py:84-97 | the merge raises iff some default key fails |
| Config.PostRules | src/safarnama/config.py:99-107 | the connection string comes from the environment or the sqlite default; max_depth 0 turns recursion off; other keys are kept |
| Config.MergeDefaults | src/safarnama/config.py:84-97 | the loop over the defaults agrees with Merge, including when it raises |
| Config.FillValue | src/safarnama/config.py:88-97 | the loop over one default's items agrees with Fill |
| Config.LoadConfig | src/safarnama/config.py:77-113 | load_dotenv runs first; the result is the post-processed merge or None iff it raises; the file is rewritten iff updated |
| Config.DefaultKeysDistinct | src/safarnama/config.py:8-62 | the default configuration has no repeated key |
| Config.MissingConnectionStringRewritesFile | src/safarnama/config.py:84-104 | a file without connection_string is rewritten, and the loaded value comes from the environment |
| Strings.StripTrims | src/safarnama/config.py:69 | a stripped string has no leading or trailing whitespace, and a string without any is unchanged |
| Strings.IndexOf | src/safarnama/config.py:73 | the first index of the character, or None iff it is absent |
| Strings.RStripChar | src/safarnama/searcher.py:33 | the result is a prefix of the input that does not end in the character, and only that character was removed |
| Strings.RemoveChar | src/safarnama/crawler.py:266-268 | the character no longer occurs, the string does not grow, and a string without it is unchanged |
| Strings.Split | src/safarnama/main.py:79 | there is at least one piece and no piece contains the separator |
| Strings.SplitJoin | src/safarnama/main.py:93-95 | splitting a join of separator-free pieces recovers the pieces |
| Legacy.AssignFacts | src/safarnama/main.py:85 | assigning a key sets it, keeps the keys distinct and leaves every other key |
| Legacy.AssignAllDistinct | src/safarnama/main.py:76-86 | the parsed dictionary never repeats a key |
| Legacy.ParseEnvStep | src/safarnama/main.py:79-85 | one more line assigns its key to its value when it parses |
| Legacy.AssignAllLastWins | src/safarnama/main.py:85 | the last assignment of a key gives its value |
| Legacy.LoadEnvLastLineWins | src/safarnama/main.py:74-86 | in load_env the last line that defines a key wins |
| Legacy.DotenvFirstLoadEnvLast | src/safarnama/main.py:61-86 | for two lines with the same key, load_dotenv keeps the first and load_env the second |
| Legacy.SerialiseIsJoin | src/safarnama/main.py:93-95 | the written file is the "k=v" lines, each followed by a newline |
| Legacy.ParseWrittenLine | src/safarnama/main.py:95 | a written line parses back to its pair |
| Legacy.ParsedWritable | src/safarnama/main.py:74-86 | a parsed file has distinct keys and only pairs that can be written back |
| Legacy.ParseWrittenDict | src/safarnama/main.py:74-95 | parsing the written lines gives back the dictionary |
| Legacy.SerialiseRoundTrip | src/safarnama/main.py:74-95 | load_env of the text update_env writes is the dictionary it wrote |
| Legacy.DotenvFile.constructor | src/safarnama/main.py:77-78 | the file holds the given text |
| Legacy.LoadEnv | src/safarnama/main.py:74-86 | the loop's dictionary is the parse of the file's lines |
| Legacy.WriteEnv | src/safarnama/main.py:93-95 | the file's text becomes the serialised dictionary |
| Legacy.UpdateEnv | src/safarnama/main.py:89-96 | the file holds the old contents with the key assigned, and the process environment has the key set |
| Legacy.UpdateEnvReadBack | src/safarnama/main.py:89-96 | reading the file back gives the new value for the key and the old value for every other key |
| Legacy.LegacyKeysDistinct | src/safarnama/main.py:19-58 | the single-file defaults have no repeated key |
| Legacy.ApiKeyOverride | src/safarnama/main.py:128-131 | the override changes at most the "llm" entry and keeps the keys |
| Legacy.LlmAfterMerge | src/safarnama/main.py:113-126 | after the merge "llm" is present, and it is a mapping iff the file's was (or it was missing) |
| Legacy.LoadLegacyFails | src/safarnama/main.py:103-137 | load_config raises iff the merge fails, or an API key is set and "llm" is not a mapping |
| Legacy.LoadLegacyFacts | src/safarnama/main.py:103-137 | the result holds every default key, complete; other keys are kept; `updated` iff incomplete; a set API key is stored under llm.api_key |
| Legacy.OverrideFacts | src/safarnama/main.py:128-131 | the override keeps completeness, stores a set key, and changes nothing when the key is unset |
| Legacy.LoadLegacyIdempotent | src/safarnama/main.py:103-137 | loading the loaded mapping returns it again and writes nothing |
| Legacy.OverrideIdle | src/safarnama/main.py:128-131 | a mapping that already holds the key is returned as it is |
| Legacy.ApiKeyReachesFile | src/safarnama/main.py:128-136 | when the file lacks any default key or setting, the API key from the environment is written into it |
| Legacy.ConfigFile.constructor | src/safarnama/main.py:109-111 | the YAML file holds the given mapping |
| Legacy.LoadConfigFile | src/safarnama/main.py:103-137 | the result is the load or None iff it raises; the file then holds what load_config leaves |
| Legacy.AddExtension | src/safarnama/main.py:148-151 | only binary_extensions changes |
| Legacy.AddExtensionFacts | src/safarnama/main.py:148-155 | the extension is in the list afterwards; the file is written iff it was absent, by appending it |
| Legacy.AddExtensionIdempotent | src/safarnama/main.py:150-155 | adding the same extension twice writes nothing the second time |
| Legacy.UpdateConfigBinaryExtension | src/safarnama/main.py:140-155 | the method returns the list and leaves the file as the function model says |
| Legacy.UpdateBinaryExtensionFacts | src/safarnama/main.py:140-155 | the returned list holds the lower-cased extension and is what the file holds; a second call changes nothing; loading the file writes nothing |
| Legacy.AfterLoadIsLoaded | src/safarnama/main.py:133-137 | what load_config leaves in the file loads back to the same mapping without a write |
| Legacy.GrownListLoadsBack | src/safarnama/main.py:150-153 | a list grown by one extension still loads back without a write |
| Legacy.StrItems | src/safarnama/main.py:422-424 | the list as strings, or None iff some item is not a string |
| Legacy.LearnedExtensionKept | src/safarnama/main.py:416-424 | after learning, reloading writes nothing and the crawler's list holds the lower-cased extension |
| Legacy.LegacyMarkLeavesFrontier | src/safarnama/main.py:391-427 | every outcome takes the row out of to_visit, keeps the others, and the next dequeue is another URL |
| Legacy.LegacyBinaryRowLeaves | src/safarnama/main.py:391-394 | a binary row at the head is marked ignored with type "binary" and is not dequeued again |
| Legacy.ProcessedRowSettles | src/safarnama/main.py:391-452 | after one URL is processed, its row left to_visit and no row returned to to_visit |
| Legacy.LegacyCrawler.constructor | src/safarnama/main.py:210-229 | the crawler holds its configuration, lists and database |
| Legacy.LegacyCrawler.IsBinaryUrl | src/safarnama/main.py:258-262 | the loop is true iff the lower-cased URL ends with a listed extension |
| Legacy.LegacyCrawler.AddUrl | src/safarnama/main.py:264-278 | a binary URL's row is marked ignored with type "binary"; any other URL is inserted if absent and appended to the order; the state is that one add_url |
| Legacy.LegacyCrawler.EnqueueLinks | src/safarnama/main.py:442-452 | the state is the legacy add_url applied at depth + 1 to the same-host links, in href order; every non-binary link is in the table, a new one as a to_visit child; existing rows are kept or, for binary URLs, ignored |
| Legacy.LegacyCrawler.Classify | src/safarnama/main.py:391-415 | the method's outcome is the classification: binary, disallowed, fetch error, unaccepted type, or fetched |
| Legacy.LegacyCrawler.ClassifyAndMark | src/safarnama/main.py:391-427 | the row is marked as the classification requires |
| Legacy.LegacyCrawler.Learn | src/safarnama/main.py:419-424 | the file, list and configuration after learning are those of update_config_binary_extension and the reload; when the reload fails the list is the one update_config_binary_extension returned |
| Legacy.LegacyCrawler.MaybeLearn | src/safarnama/main.py:416-424 | learning happens iff an octet-stream response has a non-empty path extension not yet in the list, and then leaves the file, list and configuration update_config_binary_extension and the reload give; otherwise nothing changes |
| Legacy.LegacyCrawler.HandleHtml | src/safarnama/main.py:430-452 | the summary and tags are get_summary_and_tags of the cleaned body; the page row gets them; the state is that row change followed by the link additions; new rows are same-host children |
| Legacy.LegacyCrawler.ProcessUrl | src/safarnama/main.py:391-452 | one URL is classified and marked, an HTML page's summary of the cleaned body and its links are stored, and an unseen extension is learned; the state and the raised flag are the step function of the URL |
| Legacy.LegacyCrawler.CrawlStep | src/safarnama/main.py:387-453 | when get_next_url gives nothing, nothing changes; otherwise it processes that URL, never dequeued before, and the state and raised flag are the step function of the pair; the URL joins the visited set iff its page was fetched, its row is marked for its outcome, and no row returns to to_visit |
| Legacy.LegacyCrawler.TraceGrows | src/safarnama/main.py:387-428 | one more dequeued URL adds it to the set of fetched URLs iff its page was fetched |
| Legacy.DistinctSnoc | src/safarnama/main.py:387-390 | dequeuing a URL not dequeued before keeps the trace free of repeats and adds exactly that URL |
| Legacy.LegacyCrawler.CrawlLoop | src/safarnama/main.py:386-454 | the trace, state and raised flag are the run of the step function from the starting state; the visited set is exactly the fetched URLs of its trace; no URL is dequeued twice; a loop that ended found nothing to dequeue, and one that neither ended nor raised used all its fuel |
| Legacy.LegacyCrawler.Crawl | src/safarnama/main.py:381-454 | the trace, state and raised flag are the run of the step function from the state after add_url(base URL, 0); the returned set is exactly the fetched URLs of the trace; no URL is dequeued twice; every visited URL is settled; no row returns to to_visit; a finished crawl left nothing to dequeue, and an unfinished one that did not raise used all its fuel |
| Legacy.LegacyCrawler.Turn | src/safarnama/main.py:387-453 | one more iteration keeps the account: while no step raised, the trace so far followed by the run from the new state is the whole run; a step that raised ends the run there |
| Legacy.LegacyCrawler.AfterMark | src/safarnama/main.py:416-452 | after the marking, the state and raised flag are those the learning branch or the HTML branch gives; the page info is the summary iff the page is HTML |
| Legacy.LegacyCrawler.EnqueueHref | src/safarnama/main.py:443-452 | one more href extends the state by the legacy add_url of the link it gives, if any |
| Legacy.LegacyCrawler.LinksInserted | src/safarnama/main.py:442-452 | after the link additions every non-binary link is present, a new one as a to_visit row at the given depth, and every new row is such a child |
| Legacy.LegacyCrawler.LinksKept | src/safarnama/main.py:264-278 | the link additions only add rows and keep each existing row or mark a binary one ignored |
| Legacy.LinksMarked | src/safarnama/main.py:264-278 | a run of legacy add_url calls keeps every existing row or marks a binary one ignored with type "binary" |
| Legacy.LegacyRun | src/safarnama/main.py:386-454 | a run dequeues at most `fuel` URLs, and fewer, without raising, only when get_next_url has nothing left to give |
| Legacy.LegacyRunStops | src/safarnama/main.py:387-389 | with no fuel, or nothing to dequeue, a run dequeues nothing, changes nothing and does not raise |
| Legacy.LegacyRunAdvance | src/safarnama/main.py:387-453 | one step from a state on the run stays on the run, or, when it raised, ends the run with that URL last; a stop means the run has ended |
| Legacy.LearnAfterIs | src/safarnama/main.py:416-424 | the learning relation holds of exactly the outcome the learning function computes |

## Left out

- HTTP, robots.txt, regex and HTML parsing are parameters. The model fixes their answers per URL and does not implement them.
- `clean_html`, `generate_sitemap`, `download_file`'s file writing, logging and the CLI command handlers are not modelled. A download is recorded as the URL it would fetch.
- YAML and file I/O: a YAML file is a `map` of a small value type and the `.env` file is text. A top-level YAML document that is not a mapping is not modelled.
- The model does not capture aliasing between a loaded configuration and the module-level `DEFAULT_CONFIG`, which the Python merge can mutate in place.
- The configuration value type has strings, integers, lists, mappings and null. Floats are kept as text, so `IsPyZero` does not treat `0.0` as zero.
- Keys of YAML mappings are strings only.
- `time.sleep`, the request delays and `timeout` are left out. Every operation sees one `now` in whole seconds, standing in for `datetime.utcnow()` with `timedelta`.
- db.py imports `timedelta` from the `time` module, which has no such name. The model assumes `datetime.timedelta` is meant.
- SQL errors that the code catches as no-ops are not modelled, and stored rows are never NULL except where the schema says so.
- When several rows share the minimal depth, `get_next_url` uses the order in which they were inserted. SQL leaves that order open.
- `ExcludePatternsOf`: a value of `exclude_url_patterns` that is neither a list nor null is treated as no patterns, where Python would instead iterate over it or raise.
- Policy settings values are restricted to flags, string lists and null.
- The package `is_binary_url` loop is modelled by the function `Policy.IsBinaryUrl`. The single-file crawler's loop is the method `Legacy.LegacyCrawler.IsBinaryUrl`.
- `Crawler.SiteCrawler.Crawl` and `Legacy.LegacyCrawler.Crawl` bound the `while True` loop by a `fuel` argument. When the fuel runs out the model stops without claiming the frontier is empty. The package crawl can loop forever on a binary to_visit row (see `Crawler.BinaryRowIsDequeuedAgain`).
- Strings.Lower: Python's `lower` is modelled for ASCII letters only. `strip` removes exactly the characters for which Python's `str.isspace` holds.
- Universal-newline translation of '\r' and empty variable names in `os.environ` are not modelled.
- `Legacy.Reload` treats a `binary_extensions` value that is not a list of strings as raising.
- Legacy.ReturnedList: when update_config_binary_extension returns a list holding something other than strings, the crawler's list keeps its old value, where Python would store that list.
- Searcher.SearxNGSearcher.Search: the searcher, and every Searcher member that loads the instance list, use the intended listing `Registry.SortedAvailable` that `Registry.InstanceRegistry.GetAvailableInstances` returns, not the filter db.py:234 applies as written (see Findings). As written, the list never holds an instance without a cooldown, or the call raises, so the Python search probes fewer instances than the model says.
- Registry.InstanceJson: a description in which "tls", "http", "html", "network", "timing", "uptime" or one of their nested objects is JSON null makes `instance.get(key, {}).get(...)` raise AttributeError (db.py:116-145). The handler at db.py:179 catches only SQLAlchemyError, so in Python that upsert aborts with the exception. The model reads each field as an `Option` and stores None instead.
- Registry.MetaOf: takes the fields as `InstanceJson` holds them, so the null sub-object case above is outside it too.
- Registry.Upserted: the response-time columns `search_response_time`, `google_response_time` and `initial_response_time` (db.py:129-144, stored at db.py:156-158 and 171-173) are not stored in the model. No modelled operation reads them.
- GetAvailableInstances: among instances of equal priority the model keeps insertion order. SQL's `ORDER BY priority` leaves that order open.
- Policy.AddUrlAction: a `download_specific_binaries` setting of `true` makes Python's `ext in True` raise TypeError when `download_binaries` is off. The model treats it as no listed extension and skips the download.
- Summarizer.Interpret: the parsed reply holds a string or absent "summary" and a list or absent "tags" of strings and objects with an optional string "name". Other shapes are not modelled: a null or numeric "tags" or a numeric tag makes the crawl's tag join (crawler.py:265-269, main.py:434-439) raise and abort the crawl; a string "tags" is joined character by character; a `{"name": null}` tag raises; a null "summary" is stored as NULL. The model uses the defaults instead.
- GetSummaryAndTags: because of the reply type above, a summarised page never aborts the crawl in the model.
- The single-file crawler does not rebuild its typed constructor arguments from the configuration. They are passed in directly.
- The LLM prompts, request payloads and the `llm` configuration fields of the payload are not modelled. Only the retry loop and the interpretation of the reply are.
- The import-time `load_dotenv()` at main.py:100 is the same fold as `Config.Environment.LoadDotenv`. It is not modelled again.
- The repository's tests, the packaging and the `test_llm_endpoint` helper are not part of this model.

## Findings

| source | as written | input that shows it | evidently intended | confidence | as-written member | corrected member |
|---|---|---|---|---|---|---|
| src/safarnama/db.py:234 | the `is None` test on the column is evaluated by Python, where it is always False; then either `False \| expr` raises TypeError, which the SQLAlchemyError handler does not catch, or SQL only keeps rows whose cooldown has elapsed (`Registry.Reading` models both) | an instance that was upserted and never put in cooldown (sleep_until NULL) | instances without a cooldown are listed as available | high that such an instance is never listed; medium on which of the two readings holds; not executed | Registry.NeverCooledNeverListedAsWritten | Registry.InstanceRegistry.GetAvailableInstances |

The rest of the model uses the corrected listing: `Registry.InstanceRegistry.GetAvailableInstances` returns `Registry.SortedAvailable`, and every Searcher member is stated over it.
