/**
 * The SearxNG instance selector: a priority-ordered circuit breaker over the
 * instance registry. Each round refreshes priorities and reloads the available
 * instances; each instance is probed with a test query and, when healthy,
 * asked the real query. HTTP is the parameter `http(round, url, q)`: the reply
 * to a GET of `url` with query `q` during round `round`.
 */
module Searcher {
  import opened Wrappers
  import opened Strings
  import opened Registry

  /** A decoded JSON body: null, an object, or any other value (list, number, string). */
  datatype JsonV = JNull | JObject(text: string) | JOther(text: string)

  datatype Body = NotJson | Json(value: JsonV)

  /** What one GET gives: no response at all (timeout, connection error) or a status and body. */
  datatype Reply = NoResponse | Response(status: int, body: Body)

  type Http = (int, string, string) -> Reply

  datatype Health = Healthy | RateLimited | ProbeFailed

  /** What the search loop did, in order: a health probe or a query of an instance. */
  datatype Event = ProbeEv(round: int, url: string) | QueryEv(round: int, url: string)

  const TestQuery := "test"
  const TooManyRequests := 429

  /** raise_for_status: every status outside 2xx raises. */
  predicate IsSuccess(status: int) {
    200 <= status < 300
  }

  /** check_instance_health's verdict on a reply. */
  function Probe(r: Reply): (h: Health)
    ensures h == RateLimited <==> r.Response? && r.status == TooManyRequests
    ensures h == Healthy <==> r.Response? && IsSuccess(r.status) && r.body.Json? && r.body.value.JObject?
  {
    match r
    case NoResponse => ProbeFailed
    case Response(status, body) =>
      if status == TooManyRequests then RateLimited
      else if !IsSuccess(status) then ProbeFailed
      else if body.Json? && body.value.JObject? then Healthy
      else ProbeFailed
  }

  /** The cooldown a probe leaves: 60 s on 429, 24 h on any other failure, none on success. */
  function ProbeCooldown(h: Health, now: int): Option<int> {
    match h
    case Healthy => None
    case RateLimited => Some(now + RateLimitCooldown)
    case ProbeFailed => Some(now + FailureCooldown)
  }

  /** perform_search's value, where a JSON null is Python's None like every failure. */
  function QueryResult(r: Reply): (v: Option<JsonV>)
    ensures v.Some? <==> r.Response? && r.status != TooManyRequests && IsSuccess(r.status) && r.body.Json? && !r.body.value.JNull?
    ensures v.Some? ==> v.value == r.body.value
  {
    match r
    case NoResponse => None
    case Response(status, body) =>
      if status == TooManyRequests || !IsSuccess(status) then None
      else match body
        case NotJson => None
        case Json(v) => if v.JNull? then None else Some(v)
  }

  /** The registry after a query: only a 429 sets a (60 s) cooldown. */
  function AfterQuery(t: Table, url: string, r: Reply, now: int): Table {
    if r.Response? && r.status == TooManyRequests then WithSleep(t, url, Some(now + RateLimitCooldown)) else t
  }

  /** What a sequence of tries leaves: the registry, the result if any, and the events. */
  datatype Tried = Tried(table: Table, result: Option<(string, JsonV)>, events: seq<Event>)

  /** One instance of the for-loop: strip "/", probe, and query when healthy. */
  function TryOne(t: Table, record: string, round: int, q: string, now: int, http: Http): Tried {
    var url := RStripChar(record, '/');
    var h := Probe(http(round, url, TestQuery));
    var t1 := WithSleep(t, url, ProbeCooldown(h, now));
    if h != Healthy then Tried(t1, None, [ProbeEv(round, url)])
    else
      var reply := http(round, url, q);
      var v := QueryResult(reply);
      Tried(AfterQuery(t1, url, reply, now), if v.Some? then Some((url, v.value)) else None,
            [ProbeEv(round, url), QueryEv(round, url)])
  }

  /** The for-loop over a round's list: the first success ends it. */
  function TryAll(t: Table, list: seq<string>, round: int, q: string, now: int, http: Http): Tried
    decreases |list|
  {
    if |list| == 0 then Tried(t, None, [])
    else
      var first := TryOne(t, list[0], round, q, now, http);
      if first.result.Some? then first
      else
        var rest := TryAll(first.table, list[1..], round, q, now, http);
        Tried(rest.table, rest.result, first.events + rest.events)
  }

  /** The for-loop from position i: the try of list[i], then the rest unless it succeeded. */
  lemma TryAllCons(t: Table, list: seq<string>, i: nat, round: int, q: string, now: int, http: Http)
    requires i < |list|
    ensures var first := TryOne(t, list[i], round, q, now, http);
      TryAll(t, list[i..], round, q, now, http) ==
        if first.result.Some? then first
        else
          var rest := TryAll(first.table, list[i + 1..], round, q, now, http);
          Tried(rest.table, rest.result, first.events + rest.events)
  {
    assert list[i..][1..] == list[i + 1..];
  }

  /** What the rounds leave, with the instance list the searcher holds at the end. */
  datatype Searched = Searched(table: Table, result: Option<(string, JsonV)>, events: seq<Event>, loaded: seq<string>)

  /**
   * One round of the while-loop: its number, the registry it started from,
   * the refreshed registry, the list it loaded, its events and result, and
   * the registry its cooldowns left.
   */
  datatype RoundTry = RoundTry(round: int, start: Table, table: Table, list: seq<string>, events: seq<Event>,
                               result: Option<(string, JsonV)>, after: Table)

  /** Round `attempt` from registry `t`: refresh the priorities, reload the available instances, run the for-loop. */
  function RoundOf(t: Table, order: seq<string>, attempt: int, q: string, now: int, http: Http): RoundTry {
    var t1 := ReprioritisedAll(t);
    var list := SortedAvailable(t1, order, now);
    var round := TryAll(t1, list, attempt, q, now, http);
    RoundTry(attempt, t, t1, list, round.events, round.result, round.table)
  }

  /** The while-loop of search from round `attempt` on, with `loaded` the list held before it. */
  function Rounds(t: Table, order: seq<string>, attempt: int, retries: int, q: string, now: int, http: Http, loaded: seq<string>): Searched
    decreases if attempt > retries then 0 else retries - attempt + 1
  {
    if attempt > retries then Searched(t, None, [], loaded)
    else
      var t1 := ReprioritisedAll(t);
      var list := SortedAvailable(t1, order, now);
      var round := TryAll(t1, list, attempt, q, now, http);
      if round.result.Some? then Searched(round.table, round.result, round.events, list)
      else
        var rest := Rounds(round.table, order, attempt + 1, retries, q, now, http, list);
        Searched(rest.table, rest.result, round.events + rest.events, rest.loaded)
  }

  /** The rounds Rounds runs from `attempt` on, one entry per round, in order. */
  ghost function RoundTries(t: Table, order: seq<string>, attempt: int, retries: int, q: string, now: int, http: Http): seq<RoundTry>
    decreases if attempt > retries then 0 else retries - attempt + 1
  {
    if attempt > retries then []
    else
      var rt := RoundOf(t, order, attempt, q, now, http);
      [rt] + if rt.result.Some? then [] else RoundTries(rt.after, order, attempt + 1, retries, q, now, http)
  }

  /** The events of a sequence of rounds, one round after another. */
  function AllEvents(ts: seq<RoundTry>): seq<Event> {
    if |ts| == 0 then [] else ts[0].events + AllEvents(ts[1..])
  }

  /** The URLs probed by the events, in order. */
  function ProbeUrls(ev: seq<Event>): seq<string> {
    if |ev| == 0 then [] else (if ev[0].ProbeEv? then [ev[0].url] else []) + ProbeUrls(ev[1..])
  }

  /** The records of a list with the trailing "/" removed, as the for-loop strips each one. */
  function Stripped(list: seq<string>): (r: seq<string>)
    ensures |r| == |list|
    ensures forall i :: 0 <= i < |list| ==> r[i] == RStripChar(list[i], '/')
  {
    if |list| == 0 then [] else [RStripChar(list[0], '/')] + Stripped(list[1..])
  }

  /** The probes of a try: the stripped list in order, up to the first success, or all of it when `complete`. */
  ghost predicate ProbedInOrder(ev: seq<Event>, list: seq<string>, complete: bool) {
    var p := ProbeUrls(ev);
    |p| <= |list| && p == Stripped(list)[..|p|] && (complete ==> p == Stripped(list))
  }

  /**
   * What one round does: every event in that round; the list is the
   * refreshed registry's available instances sorted by ascending priority;
   * the probes follow that list up to the success, which is the URL probed
   * last, and cover all of it when no query succeeded.
   */
  ghost predicate RoundOk(rt: RoundTry, order: seq<string>, now: int) {
    && RoundsWithin(rt.events, rt.round, rt.round)
    && rt.table == ReprioritisedAll(rt.start)
    && (forall k :: 0 <= k < |rt.list| ==> rt.list[k] in rt.table)
    && SortedByPriority(rt.table, rt.list)
    && multiset(rt.list) == multiset(AvailableIn(rt.table, order, now))
    && ProbedInOrder(rt.events, rt.list, rt.result.None?)
    && (rt.result.Some? ==> var p := ProbeUrls(rt.events); |p| > 0 && rt.result.value.0 == p[|p| - 1])
  }

  /** Rounds numbered from `attempt`, each as RoundOk says, each starting where the one before left off, all but the last failed. */
  ghost predicate RoundsChain(ts: seq<RoundTry>, attempt: int, order: seq<string>, now: int)
    decreases |ts|
  {
    |ts| == 0 ||
    (&& ts[0].round == attempt && RoundOk(ts[0], order, now)
     && (|ts| > 1 ==> ts[0].result.None? && ts[1].start == ts[0].after)
     && RoundsChain(ts[1..], attempt + 1, order, now))
  }

  /** Every query is preceded by a probe of the same URL in the same round, which found it healthy. */
  ghost predicate QueriesFollowHealthyProbes(ev: seq<Event>, http: Http) {
    forall k :: 0 <= k < |ev| && ev[k].QueryEv? ==>
      k > 0 && ev[k - 1] == ProbeEv(ev[k].round, ev[k].url) && Probe(http(ev[k].round, ev[k].url, TestQuery)) == Healthy
  }

  /** Every query of the events gave None. */
  ghost predicate QueriesFailed(ev: seq<Event>, q: string, http: Http) {
    forall k :: 0 <= k < |ev| && ev[k].QueryEv? ==> QueryResult(http(ev[k].round, ev[k].url, q)).None?
  }

  /** Every event belongs to a round in [lo, hi]. */
  ghost predicate RoundsWithin(ev: seq<Event>, lo: int, hi: int) {
    forall k :: 0 <= k < |ev| ==> lo <= ev[k].round <= hi
  }

  /** What a successful search returns: the stripped URL last queried, and what that query gave. */
  ghost predicate SuccessShape(ev: seq<Event>, result: (string, JsonV), q: string, http: Http) {
    |ev| > 0 && ev[|ev| - 1].QueryEv? && ev[|ev| - 1].url == result.0 &&
    QueryResult(http(ev[|ev| - 1].round, result.0, q)) == Some(result.1) &&
    (|result.0| > 0 ==> result.0[|result.0| - 1] != '/') &&
    QueriesFailed(ev[..|ev| - 1], q, http)
  }

  /** The properties the events and result of any run of tries have, for rounds in [lo, hi]. */
  ghost predicate EventsOk(ev: seq<Event>, result: Option<(string, JsonV)>, lo: int, hi: int, q: string, http: Http) {
    && (|ev| > 0 ==> ev[0].ProbeEv?)
    && QueriesFollowHealthyProbes(ev, http)
    && RoundsWithin(ev, lo, hi)
    && (result.None? ==> QueriesFailed(ev, q, http))
    && (result.Some? ==> SuccessShape(ev, result.value, q, http))
  }

  /** Failed tries followed by more tries: the properties carry over to the concatenation. */
  lemma ConcatEvents(a: seq<Event>, b: seq<Event>, result: Option<(string, JsonV)>, lo: int, mid: int, hi: int, q: string, http: Http)
    requires EventsOk(a, None, lo, mid, q, http) && EventsOk(b, result, lo, hi, q, http) && mid <= hi
    ensures EventsOk(a + b, result, lo, hi, q, http)
  {
    var ab := a + b;
    forall k | 0 <= k < |ab| && ab[k].QueryEv?
      ensures k > 0 && ab[k - 1] == ProbeEv(ab[k].round, ab[k].url)
    {
      if k >= |a| {
        assert ab[k] == b[k - |a|];
        assert ab[k - 1] == b[k - 1 - |a|];
      }
    }
    if result.Some? {
      var b' := b[..|b| - 1];
      assert ab[..|ab| - 1] == a + b';
      forall k | 0 <= k < |a + b'| && (a + b')[k].QueryEv?
        ensures QueryResult(http((a + b')[k].round, (a + b')[k].url, q)).None?
      {
        if k >= |a| {
          assert (a + b')[k] == b'[k - |a|];
        }
      }
    }
  }

  lemma {:induction false} ProbeUrlsAppend(a: seq<Event>, b: seq<Event>)
    ensures ProbeUrls(a + b) == ProbeUrls(a) + ProbeUrls(b)
    decreases |a|
  {
    if |a| == 0 {
      assert a + b == b;
    } else {
      assert (a + b)[1..] == a[1..] + b;
      ProbeUrlsAppend(a[1..], b);
    }
  }

  /** The events of one try: a probe of the stripped URL, then a query only when it was healthy; the result is that query's. */
  lemma TryOneEvents(t: Table, record: string, round: int, q: string, now: int, http: Http)
    ensures var r := TryOne(t, record, round, q, now, http);
      && |r.events| > 0 && EventsOk(r.events, r.result, round, round, q, http)
      && r.events[0] == ProbeEv(round, RStripChar(record, '/'))
      && ProbeUrls(r.events) == [RStripChar(record, '/')]
      && (r.result.Some? ==> r.result.value.0 == RStripChar(record, '/'))
  {
    var r := TryOne(t, record, round, q, now, http);
    var url := RStripChar(record, '/');
    if |r.events| == 2 {
      assert r.events[1..] == [QueryEv(round, url)];
      assert r.events[1..][1..] == [];
      assert ProbeUrls(r.events[1..]) == [];
    } else {
      assert r.events[1..] == [];
    }
  }

  /** A round's events: probes in list order, each query after its healthy probe, the first success last. */
  lemma {:induction false} TryAllEvents(t: Table, list: seq<string>, round: int, q: string, now: int, http: Http)
    ensures var r := TryAll(t, list, round, q, now, http);
      EventsOk(r.events, r.result, round, round, q, http)
    decreases |list|
  {
    if |list| > 0 {
      var first := TryOne(t, list[0], round, q, now, http);
      TryOneEvents(t, list[0], round, q, now, http);
      if first.result.None? {
        var rest := TryAll(first.table, list[1..], round, q, now, http);
        TryAllEvents(first.table, list[1..], round, q, now, http);
        ConcatEvents(first.events, rest.events, rest.result, round, round, round, q, http);
      }
    }
  }

  /**
   * A round's probes: the stripped records in list order up to the first
   * success, which is the last URL probed; a round without a success
   * probed the whole list.
   */
  lemma {:induction false} TryAllProbes(t: Table, list: seq<string>, round: int, q: string, now: int, http: Http)
    ensures var r := TryAll(t, list, round, q, now, http);
      && ProbedInOrder(r.events, list, r.result.None?)
      && (r.result.Some? ==> var p := ProbeUrls(r.events); |p| > 0 && r.result.value.0 == p[|p| - 1])
    decreases |list|
  {
    if |list| > 0 {
      var first := TryOne(t, list[0], round, q, now, http);
      TryOneEvents(t, list[0], round, q, now, http);
      var s0 := RStripChar(list[0], '/');
      assert Stripped(list) == [s0] + Stripped(list[1..]);
      if first.result.None? {
        var rest := TryAll(first.table, list[1..], round, q, now, http);
        TryAllProbes(first.table, list[1..], round, q, now, http);
        ProbeUrlsAppend(first.events, rest.events);
        var pr := ProbeUrls(rest.events);
        assert ProbeUrls(first.events + rest.events) == [s0] + pr;
        assert Stripped(list)[..1 + |pr|] == [s0] + Stripped(list[1..])[..|pr|];
      }
    }
  }

  /**
   * The whole search: rounds from `attempt` to `retries` at most, every query
   * made only to an instance that was just found healthy, and a result that
   * is the first query to succeed, on a URL without a trailing "/".
   */
  lemma {:induction false} RoundsEvents(t: Table, order: seq<string>, attempt: int, retries: int, q: string, now: int, http: Http, loaded: seq<string>)
    ensures var r := Rounds(t, order, attempt, retries, q, now, http, loaded);
      EventsOk(r.events, r.result, attempt, retries, q, http)
    decreases if attempt > retries then 0 else retries - attempt + 1
  {
    if attempt <= retries {
      var t1 := ReprioritisedAll(t);
      var list := SortedAvailable(t1, order, now);
      var round := TryAll(t1, list, attempt, q, now, http);
      TryAllEvents(t1, list, attempt, q, now, http);
      if round.result.None? {
        var rest := Rounds(round.table, order, attempt + 1, retries, q, now, http, list);
        RoundsEvents(round.table, order, attempt + 1, retries, q, now, http, list);
        WidenRounds(rest.events, rest.result, attempt + 1, attempt, retries, q, http);
        ConcatEvents(round.events, rest.events, rest.result, attempt, attempt, retries, q, http);
      }
    }
  }

  /**
   * The rounds from `attempt` on form a chain, starting from `t`; unless the
   * last one succeeded they run out at `retries`.
   */
  lemma {:induction false} RoundTriesOk(t: Table, order: seq<string>, attempt: int, retries: int, q: string, now: int, http: Http)
    ensures var ts := RoundTries(t, order, attempt, retries, q, now, http);
      var n := if attempt > retries then 0 else retries - attempt + 1;
      && |ts| <= n && (|ts| == 0 || ts[|ts| - 1].result.None? ==> |ts| == n)
      && (|ts| > 0 ==> ts[0].start == t)
      && RoundsChain(ts, attempt, order, now)
    decreases if attempt > retries then 0 else retries - attempt + 1
  {
    if attempt <= retries {
      var rt := RoundOf(t, order, attempt, q, now, http);
      FirstRoundOk(t, order, attempt, q, now, http);
      var ts := RoundTries(t, order, attempt, retries, q, now, http);
      if rt.result.Some? {
        assert ts == [rt];
        assert RoundsChain(ts[1..], attempt + 1, order, now);
      } else {
        var tr := RoundTries(rt.after, order, attempt + 1, retries, q, now, http);
        RoundTriesOk(rt.after, order, attempt + 1, retries, q, now, http);
        assert ts == [rt] + tr;
        assert ts[1..] == tr;
      }
    }
  }

  /** A chain, round by round: numbered in order, and each as RoundOk says. */
  lemma {:induction false} RoundsChainAt(ts: seq<RoundTry>, attempt: int, order: seq<string>, now: int)
    requires RoundsChain(ts, attempt, order, now)
    ensures forall k :: 0 <= k < |ts| ==> ts[k].round == attempt + k && RoundOk(ts[k], order, now)
    decreases |ts|
  {
    if |ts| > 0 {
      var tr := ts[1..];
      RoundsChainAt(tr, attempt + 1, order, now);
      forall k | 1 <= k < |ts|
        ensures ts[k].round == attempt + k && RoundOk(ts[k], order, now)
      {
        assert ts[k] == tr[k - 1];
      }
    }
  }

  /** A chain, round by round: each round but the last failed and is followed by one starting where it left off. */
  lemma {:induction false} RoundsChainLinks(ts: seq<RoundTry>, attempt: int, order: seq<string>, now: int)
    requires RoundsChain(ts, attempt, order, now)
    ensures forall k :: 0 <= k < |ts| - 1 ==> ts[k].result.None? && ts[k + 1].start == ts[k].after
    decreases |ts|
  {
    if |ts| > 0 {
      var tr := ts[1..];
      RoundsChainLinks(tr, attempt + 1, order, now);
      forall k | 1 <= k < |ts| - 1
        ensures ts[k].result.None? && ts[k + 1].start == ts[k].after
      {
        assert ts[k] == tr[k - 1] && ts[k + 1] == tr[k];
      }
    }
  }

  /**
   * The search from `attempt` on is its rounds: their events one after
   * another, and the registry, result and list of the last one.
   */
  lemma {:induction false} RoundsTries(t: Table, order: seq<string>, attempt: int, retries: int, q: string, now: int, http: Http, loaded: seq<string>)
    ensures var r := Rounds(t, order, attempt, retries, q, now, http, loaded);
      var ts := RoundTries(t, order, attempt, retries, q, now, http);
      && r.events == AllEvents(ts)
      && r.table == (if |ts| == 0 then t else ts[|ts| - 1].after)
      && r.result == (if |ts| == 0 then None else ts[|ts| - 1].result)
      && r.loaded == (if |ts| == 0 then loaded else ts[|ts| - 1].list)
    decreases if attempt > retries then 0 else retries - attempt + 1
  {
    if attempt <= retries {
      var rt := RoundOf(t, order, attempt, q, now, http);
      var ts := RoundTries(t, order, attempt, retries, q, now, http);
      if rt.result.Some? {
        assert ts == [rt];
        assert AllEvents(ts) == rt.events + AllEvents([]);
      } else {
        var tr := RoundTries(rt.after, order, attempt + 1, retries, q, now, http);
        RoundsTries(rt.after, order, attempt + 1, retries, q, now, http, rt.list);
        assert ts == [rt] + tr;
        assert ts[1..] == tr;
        if |tr| > 0 {
          assert ts[|ts| - 1] == tr[|tr| - 1];
        }
      }
    }
  }

  /** One round on its own: numbered `attempt`, started from `t`, and as RoundOk says. */
  lemma FirstRoundOk(t: Table, order: seq<string>, attempt: int, q: string, now: int, http: Http)
    ensures var rt := RoundOf(t, order, attempt, q, now, http);
      rt.round == attempt && rt.start == t && RoundOk(rt, order, now)
  {
    var t1 := ReprioritisedAll(t);
    var list := SortedAvailable(t1, order, now);
    TryAllEvents(t1, list, attempt, q, now, http);
    TryAllProbes(t1, list, attempt, q, now, http);
    SortedAvailablePerm(t1, order, now);
  }

  lemma WidenRounds(ev: seq<Event>, result: Option<(string, JsonV)>, lo: int, lo': int, hi: int, q: string, http: Http)
    requires EventsOk(ev, result, lo, hi, q, http) && lo' <= lo
    ensures EventsOk(ev, result, lo', hi, q, http)
  {
  }

  /**
   * The cooldown calls use the stripped URL as the key, so for a registered
   * URL with a trailing "/" (and no registered stripped twin) a failed probe
   * sets no cooldown at all.
   */
  lemma TrailingSlashCooldownLost(t: Table, record: string, round: int, q: string, now: int, http: Http)
    requires record in t && RStripChar(record, '/') !in t
    ensures TryOne(t, record, round, q, now, http).table == t
  {
  }

  /** For a URL without a trailing "/", each probe outcome sets exactly its cooldown. */
  lemma ProbeCooldownApplied(t: Table, record: string, round: int, q: string, now: int, http: Http)
    requires record in t && (|record| == 0 || record[|record| - 1] != '/')
    requires Probe(http(round, record, TestQuery)) != Healthy
    ensures var h := Probe(http(round, record, TestQuery));
      TryOne(t, record, round, q, now, http).table[record].sleepUntil ==
        Some(now + if h == RateLimited then 60 else 86400)
  {
    assert RStripChar(record, '/') == record;
  }

  class SearxNGSearcher {
    const db: InstanceRegistry
    const retries: int
    var instances: seq<string>

    /** __init__: the available instances are loaded once at construction. */
    constructor (db: InstanceRegistry, retries: int, now: int)
      requires db.Valid()
      ensures this.db == db && this.retries == retries
      ensures instances == SortedAvailable(db.instances, db.order, now)
    {
      this.db := db;
      this.retries := retries;
      new;
      instances := db.GetAvailableInstances(now);
    }

    /** update_instances: priorities recomputed, then the available instances reloaded. */
    method UpdateInstances(now: int)
      requires db.Valid()
      modifies db, this`instances
      ensures db.Valid() && db.order == old(db.order)
      ensures db.instances == ReprioritisedAll(old(db.instances))
      ensures instances == SortedAvailable(db.instances, db.order, now)
    {
      db.UpdateAllPriorities();
      instances := db.GetAvailableInstances(now);
    }

    /** check_instance_health: the verdict on the test query, and the cooldown it sets or clears. */
    method CheckInstanceHealth(url: string, round: int, now: int, http: Http) returns (healthy: bool, message: Health)
      requires db.Valid()
      modifies db
      ensures db.Valid() && db.order == old(db.order)
      ensures message == Probe(http(round, url, TestQuery)) && (healthy <==> message == Healthy)
      ensures db.instances == WithSleep(old(db.instances), url, ProbeCooldown(message, now))
    {
      var reply := http(round, url, TestQuery);
      if reply.Response? && reply.status == TooManyRequests {
        db.UpdateSleep(url, RateLimitCooldown, now);
        return false, RateLimited;
      }
      if reply.NoResponse? || !IsSuccess(reply.status) || !(reply.body.Json? && reply.body.value.JObject?) {
        db.UpdateSleep(url, FailureCooldown, now);
        return false, ProbeFailed;
      }
      db.ClearSleep(url);
      return true, Healthy;
    }

    /** perform_search: the parsed JSON, or None; only a 429 touches the cooldown. */
    method PerformSearch(url: string, q: string, round: int, now: int, http: Http) returns (result: Option<JsonV>)
      requires db.Valid()
      modifies db
      ensures db.Valid() && db.order == old(db.order)
      ensures result == QueryResult(http(round, url, q))
      ensures db.instances == AfterQuery(old(db.instances), url, http(round, url, q), now)
    {
      var reply := http(round, url, q);
      if reply.Response? && reply.status == TooManyRequests {
        db.UpdateSleep(url, RateLimitCooldown, now);
        return None;
      }
      if reply.NoResponse? || !IsSuccess(reply.status) || reply.body.NotJson? {
        return None;
      }
      return if reply.body.value.JNull? then None else Some(reply.body.value);
    }

    /** The for-loop of one round over the loaded instances. */
    method TryInstances(list: seq<string>, round: int, q: string, now: int, http: Http)
      returns (result: Option<(string, JsonV)>, events: seq<Event>)
      requires db.Valid()
      modifies db
      ensures db.Valid() && db.order == old(db.order)
      ensures Tried(db.instances, result, events) == TryAll(old(db.instances), list, round, q, now, http)
    {
      events := [];
      var i := 0;
      while i < |list|
        invariant 0 <= i <= |list|
        invariant db.Valid() && db.order == old(db.order)
        invariant TryAll(old(db.instances), list, round, q, now, http) ==
          var rest := TryAll(db.instances, list[i..], round, q, now, http);
          Tried(rest.table, rest.result, events + rest.events)
      {
        ghost var t0 := db.instances;
        TryAllCons(t0, list, i, round, q, now, http);
        var r, ev := TryRecord(list[i], round, q, now, http);
        if r.Some? {
          return r, events + ev;
        }
        ghost var rest := TryAll(db.instances, list[i + 1..], round, q, now, http);
        assert events + (ev + rest.events) == (events + ev) + rest.events;
        events := events + ev;
        i := i + 1;
      }
      assert events + [] == events;
      return None, events;
    }

    /** One record of the for-loop: strip "/", probe, and query when healthy. */
    method TryRecord(record: string, round: int, q: string, now: int, http: Http)
      returns (result: Option<(string, JsonV)>, events: seq<Event>)
      requires db.Valid()
      modifies db
      ensures db.Valid() && db.order == old(db.order)
      ensures Tried(db.instances, result, events) == TryOne(old(db.instances), record, round, q, now, http)
    {
      var url := RStripChar(record, '/');
      var healthy, _ := CheckInstanceHealth(url, round, now, http);
      if healthy {
        var r := PerformSearch(url, q, round, now, http);
        if r.Some? {
          return Some((url, r.value)), [ProbeEv(round, url), QueryEv(round, url)];
        }
        return None, [ProbeEv(round, url), QueryEv(round, url)];
      }
      return None, [ProbeEv(round, url)];
    }

    /** One round of search: refresh the instances, then try them in order. */
    method Round(q: string, attempt: int, now: int, http: Http) returns (result: Option<(string, JsonV)>, events: seq<Event>)
      requires db.Valid() && attempt <= retries
      modifies db, this`instances
      ensures db.Valid() && db.order == old(db.order)
      ensures var rest := Rounds(db.instances, db.order, attempt + 1, retries, q, now, http, instances);
        Rounds(old(db.instances), db.order, attempt, retries, q, now, http, old(instances)) ==
          if result.Some? then Searched(db.instances, result, events, instances)
          else Searched(rest.table, rest.result, events + rest.events, rest.loaded)
    {
      UpdateInstances(now);
      result, events := TryInstances(instances, attempt, q, now, http);
    }

    /**
     * search: up to retries + 1 rounds, each refreshing the instances and
     * trying them in order; the first successful query gives the result.
     */
    method Search(q: string, now: int, http: Http) returns (result: Option<(string, JsonV)>, events: seq<Event>)
      requires db.Valid()
      modifies db, this`instances
      ensures db.Valid() && db.order == old(db.order)
      ensures Searched(db.instances, result, events, instances) ==
        Rounds(old(db.instances), db.order, 0, retries, q, now, http, old(instances))
    {
      events := [];
      var attempt := 0;
      while attempt <= retries
        invariant db.Valid() && db.order == old(db.order)
        invariant Rounds(old(db.instances), db.order, 0, retries, q, now, http, old(instances)) ==
          var rest := Rounds(db.instances, db.order, attempt, retries, q, now, http, instances);
          Searched(rest.table, rest.result, events + rest.events, rest.loaded)
        decreases retries - attempt + 1
      {
        var r, ev := Round(q, attempt, now, http);
        ghost var rest := Rounds(db.instances, db.order, attempt + 1, retries, q, now, http, instances);
        if r.Some? {
          return r, events + ev;
        }
        assert events + (ev + rest.events) == (events + ev) + rest.events;
        events := events + ev;
        attempt := attempt + 1;
      }
      assert events + [] == events;
      return None, events;
    }
  }

  /** What the searcher promises of a search, drawn from its specification. */
  lemma SearchGuarantees(t: Table, order: seq<string>, retries: int, q: string, now: int, http: Http, loaded: seq<string>)
    ensures var r := Rounds(t, order, 0, retries, q, now, http, loaded);
      && QueriesFollowHealthyProbes(r.events, http)
      && RoundsWithin(r.events, 0, retries)
      && (r.result.None? ==> QueriesFailed(r.events, q, http))
      && (r.result.Some? ==> SuccessShape(r.events, r.result.value, q, http))
      && (retries < 0 ==> r.result.None? && r.events == [] && r.table == t)
  {
    RoundsEvents(t, order, 0, retries, q, now, http, loaded);
  }

  /**
   * The rounds of a search form a chain from round 0 (RoundsChainAt and
   * RoundsChainLinks give it round by round): each reloads the refreshed
   * registry's available instances by priority and probes them in that
   * order, each starts where the one before left off, all but the last
   * failed; the result is the last round's, and a search that found nothing
   * ran all retries + 1 rounds, none of which found anything, so each probed
   * its whole list.
   */
  lemma SearchRounds(t: Table, order: seq<string>, retries: int, q: string, now: int, http: Http, loaded: seq<string>)
    ensures var r := Rounds(t, order, 0, retries, q, now, http, loaded);
      var ts := RoundTries(t, order, 0, retries, q, now, http);
      && r.events == AllEvents(ts)
      && RoundsChain(ts, 0, order, now)
      && (|ts| > 0 ==> ts[0].start == t && r.result == ts[|ts| - 1].result)
      && (r.result.None? && retries >= 0 ==> |ts| == retries + 1)
      && (r.result.Some? ==> 0 < |ts| <= retries + 1)
  {
    var r := Rounds(t, order, 0, retries, q, now, http, loaded);
    var ts := RoundTries(t, order, 0, retries, q, now, http);
    RoundsTries(t, order, 0, retries, q, now, http, loaded);
    RoundTriesOk(t, order, 0, retries, q, now, http);
  }
}
