/**
 * The crawl frontier: the `urls` table of the crawler's database, one row per
 * URL (the primary key) with its depth, status, content type, summary and tags.
 * A row is read and changed through the DBHandler operations modelled here;
 * a storage error is caught by the Python code and leaves the table as it was.
 */
module Frontier {
  import opened Wrappers

  datatype Status = ToVisit | Visited | Ignored | Downloaded

  datatype UrlRec = UrlRec(
    depth: int,
    status: Status,
    contentType: Option<string>,
    summary: Option<string>,
    tags: Option<string>)

  type Table = map<string, UrlRec>

  /** A row the dequeue may return: still to visit, and not deeper than the limit. */
  predicate IsCandidate(r: UrlRec, maxDepth: int) {
    r.status == ToVisit && r.depth <= maxDepth
  }

  ghost predicate HasCandidate(t: Table, maxDepth: int) {
    exists u :: u in t && IsCandidate(t[u], maxDepth)
  }

  /** The table after an insert that is rolled back when the key exists. */
  function InsertIfAbsent(t: Table, url: string, rec: UrlRec): (r: Table)
    ensures url in r && r[url] == (if url in t then t[url] else rec)
    ensures r.Keys == t.Keys + {url}
    ensures forall k :: k in t ==> r[k] == t[k]
  {
    if url in t then t else t[url := rec]
  }

  /** The table after `UPDATE ... SET status, content_type WHERE url = ...`. */
  function WithStatus(t: Table, url: string, status: Status, ct: Option<string>): (r: Table)
    ensures r.Keys == t.Keys
    ensures forall k :: k in t && k != url ==> r[k] == t[k]
    ensures url in t ==> r[url].status == status && r[url].contentType == ct
    ensures url in t ==> r[url].depth == t[url].depth && r[url].summary == t[url].summary && r[url].tags == t[url].tags
  {
    if url in t then t[url := t[url].(status := status, contentType := ct)] else t
  }

  /** The table after `UPDATE ... SET summary, tags WHERE url = ...`. */
  function WithPageInfo(t: Table, url: string, summary: string, tags: string): (r: Table)
    ensures r.Keys == t.Keys
    ensures forall k :: k in t && k != url ==> r[k] == t[k]
    ensures url in t ==> r[url] == UrlRec(t[url].depth, t[url].status, t[url].contentType, Some(summary), Some(tags))
  {
    if url in t then t[url := t[url].(summary := Some(summary), tags := Some(tags))] else t
  }

  /**
   * The row `SELECT ... WHERE status = 'to_visit' AND depth <= maxDepth ORDER BY depth`
   * returns first, scanning the rows in insertion order: the shallowest candidate,
   * the earliest inserted among equally shallow ones.
   */
  function Scan(t: Table, order: seq<string>, maxDepth: int): Option<(string, int)>
  {
    if |order| == 0 then None
    else
      var prev := Scan(t, order[..|order| - 1], maxDepth);
      var u := order[|order| - 1];
      if u in t && IsCandidate(t[u], maxDepth) && (prev.None? || t[u].depth < prev.value.1)
      then Some((u, t[u].depth))
      else prev
  }

  /** What the scan returns is a candidate and no candidate among the scanned rows is shallower. */
  lemma {:induction false} ScanCorrect(t: Table, order: seq<string>, maxDepth: int)
    ensures Scan(t, order, maxDepth).Some? ==>
      var (u, d) := Scan(t, order, maxDepth).value;
      u in t && IsCandidate(t[u], maxDepth) && t[u].depth == d &&
      forall i :: 0 <= i < |order| && order[i] in t && IsCandidate(t[order[i]], maxDepth) ==> d <= t[order[i]].depth
    ensures Scan(t, order, maxDepth).None? <==>
      forall i :: 0 <= i < |order| ==> !(order[i] in t && IsCandidate(t[order[i]], maxDepth))
  {
    if |order| > 0 {
      var pre := order[..|order| - 1];
      ScanCorrect(t, pre, maxDepth);
      assert forall i :: 0 <= i < |pre| ==> pre[i] == order[i];
    }
  }

  /** The frontier table, with the insertion order of its rows. */
  class FrontierDb {
    var urls: Table
    var order: seq<string>

    ghost predicate Valid()
      reads this
    {
      forall u :: u in urls <==> u in order
    }

    constructor ()
      ensures Valid() && urls == map[] && order == []
    {
      urls := map[];
      order := [];
    }

    /** insert_url: a duplicate primary key is rolled back, so the first insert wins. */
    method InsertUrl(url: string, depth: int, status: Status, contentType: Option<string>)
      requires Valid()
      modifies this
      ensures Valid()
      ensures urls == InsertIfAbsent(old(urls), url, UrlRec(depth, status, contentType, None, None))
      ensures order == if url in old(urls) then old(order) else old(order) + [url]
    {
      if url !in urls {
        urls := urls[url := UrlRec(depth, status, contentType, None, None)];
        order := order + [url];
      }
    }

    /** update_url_status: sets status and content type (None included) of a known URL. */
    method UpdateUrlStatus(url: string, status: Status, contentType: Option<string>)
      requires Valid()
      modifies this
      ensures Valid()
      ensures urls == WithStatus(old(urls), url, status, contentType) && order == old(order)
    {
      if url in urls {
        urls := urls[url := urls[url].(status := status, contentType := contentType)];
      }
    }

    /** update_page_info: sets summary and tags of a known URL. */
    method UpdatePageInfo(url: string, summary: string, tags: string)
      requires Valid()
      modifies this
      ensures Valid()
      ensures urls == WithPageInfo(old(urls), url, summary, tags) && order == old(order)
    {
      if url in urls {
        urls := urls[url := urls[url].(summary := Some(summary), tags := Some(tags))];
      }
    }

    /**
     * get_next_url: the shallowest `to_visit` row with depth at most maxDepth,
     * or None (Python's `(None, None)`) when there is none. Reads only.
     */
    method GetNextUrl(maxDepth: int) returns (r: Option<(string, int)>)
      requires Valid()
      ensures r == Scan(urls, order, maxDepth)
      ensures r.Some? ==> r.value.0 in urls && IsCandidate(urls[r.value.0], maxDepth) && urls[r.value.0].depth == r.value.1
      ensures r.Some? ==> forall u :: u in urls && IsCandidate(urls[u], maxDepth) ==> r.value.1 <= urls[u].depth
      ensures r.None? <==> !HasCandidate(urls, maxDepth)
    {
      r := None;
      var i := 0;
      while i < |order|
        invariant 0 <= i <= |order|
        invariant r == Scan(urls, order[..i], maxDepth)
      {
        var u := order[i];
        assert order[..i + 1][..i] == order[..i];
        if u in urls && IsCandidate(urls[u], maxDepth) && (r.None? || urls[u].depth < r.value.1) {
          r := Some((u, urls[u].depth));
        }
        i := i + 1;
      }
      assert order[..i] == order;
      ScanCorrect(urls, order, maxDepth);
      if r.Some? {
        forall u | u in urls && IsCandidate(urls[u], maxDepth) ensures r.value.1 <= urls[u].depth {
          var j :| 0 <= j < |order| && order[j] == u;
        }
      } else {
        forall u | u in urls ensures !IsCandidate(urls[u], maxDepth) {
          var j :| 0 <= j < |order| && order[j] == u;
        }
      }
    }
  }

  /** Once a row is marked with any status other than `to_visit`, the dequeue no longer returns it. */
  lemma MarkedRowLeavesFrontier(t: Table, order: seq<string>, url: string, status: Status, ct: Option<string>, maxDepth: int)
    requires status != ToVisit
    requires url in t
    ensures !IsCandidate(WithStatus(t, url, status, ct)[url], maxDepth)
    ensures forall u :: u in t && u != url ==> (IsCandidate(WithStatus(t, url, status, ct)[u], maxDepth) <==> IsCandidate(t[u], maxDepth))
    ensures var n := Scan(WithStatus(t, url, status, ct), order, maxDepth); n.Some? ==> n.value.0 != url
  {
    ScanCorrect(WithStatus(t, url, status, ct), order, maxDepth);
  }

  /** Inserting a URL that is already present leaves its row unchanged, whatever the second insert carries. */
  lemma FirstInsertWins(t: Table, url: string, first: UrlRec, second: UrlRec)
    requires url !in t
    ensures InsertIfAbsent(InsertIfAbsent(t, url, first), url, second) == InsertIfAbsent(t, url, first)
    ensures InsertIfAbsent(InsertIfAbsent(t, url, first), url, second)[url] == first
  {
  }
}
