/**
 * The registry of search instances: the `instances` table of the database,
 * keyed by the instance URL, with descriptive metadata, a priority (lower is
 * preferred) and an optional cooldown expiry `sleepUntil` (seconds).
 */
module Registry {
  import opened Wrappers

  /** The fields upsert_instance reads from one instance's JSON description. */
  datatype InstanceJson = InstanceJson(
    version: Option<string>,
    tlsGrade: Option<string>,
    httpGrade: Option<string>,
    htmlGrade: Option<string>,
    certificateIssuer: Option<string>,
    ipv6: bool,                  // truthiness of network.ipv6
    country: Option<string>,
    networkType: Option<string>,
    uptimeYear: Option<int>)

  datatype Meta = Meta(
    version: Option<string>,
    tls: Option<string>,
    csp: Option<string>,
    html: Option<string>,
    certificate: Option<string>,
    ipv6: string,
    country: Option<string>,
    network: Option<string>)

  datatype Instance = Instance(meta: Meta, uptime: Option<int>, priority: int, sleepUntil: Option<int>)

  type Table = map<string, Instance>

  const DefaultPriority := 100
  const RateLimitCooldown := 60
  const FailureCooldown := 24 * 3600

  /** The stored metadata of an instance description. */
  function MetaOf(j: InstanceJson): (m: Meta)
    ensures m.ipv6 == "Yes" || m.ipv6 == "No"
    ensures m.ipv6 == "Yes" <==> j.ipv6
    ensures m.version == j.version && m.tls == j.tlsGrade && m.csp == j.httpGrade && m.html == j.htmlGrade
    ensures m.certificate == j.certificateIssuer && m.country == j.country && m.network == j.networkType
  {
    Meta(j.version, j.tlsGrade, j.httpGrade, j.htmlGrade, j.certificateIssuer,
         if j.ipv6 then "Yes" else "No", j.country, j.networkType)
  }

  /** upsert_instance: new rows start at priority 100 without cooldown; existing rows keep both. */
  function Upserted(t: Table, url: string, j: InstanceJson): (r: Table)
    ensures r.Keys == t.Keys + {url}
    ensures forall k :: k in t && k != url ==> r[k] == t[k]
    ensures r[url].meta == MetaOf(j) && r[url].uptime == j.uptimeYear
    ensures url !in t ==> r[url].priority == DefaultPriority && r[url].sleepUntil == None
    ensures url in t ==> r[url].priority == t[url].priority && r[url].sleepUntil == t[url].sleepUntil
  {
    if url in t then t[url := t[url].(meta := MetaOf(j), uptime := j.uptimeYear)]
    else t[url := Instance(MetaOf(j), j.uptimeYear, DefaultPriority, None)]
  }

  /** The table with the cooldown of one known instance replaced. */
  function WithSleep(t: Table, url: string, until: Option<int>): (r: Table)
    ensures r.Keys == t.Keys
    ensures forall k :: k in t && k != url ==> r[k] == t[k]
    ensures url in t ==> r[url].sleepUntil == until && r[url].meta == t[url].meta
    ensures url in t ==> r[url].uptime == t[url].uptime && r[url].priority == t[url].priority
  {
    if url in t then t[url := t[url].(sleepUntil := until)] else t
  }

  /** The priority update_all_priorities assigns: 100 minus the uptime, an unknown uptime counting as 0. */
  function Reprioritised(i: Instance): (r: Instance)
    ensures r.priority + i.uptime.GetOr(0) == DefaultPriority
    ensures r.meta == i.meta && r.uptime == i.uptime && r.sleepUntil == i.sleepUntil
  {
    i.(priority := DefaultPriority - i.uptime.GetOr(0))
  }

  /**
   * The filter as evidently intended at db.py:234: no cooldown, or one
   * that has already elapsed.
   */
  predicate Available(i: Instance, now: int) {
    i.sleepUntil.None? || i.sleepUntil.value <= now
  }

  /**
   * The filter as written: `Instance.sleep_until is None` is evaluated by
   * Python on the column object and is always False. What `False | expr`
   * then does depends on whether the SQL expression takes `|` from the
   * right, which is not settled here, so both readings are modelled.
   */
  datatype Reading =
    | Filters   // the disjunction degrades to `sleep_until <= now` in SQL
    | Raises    // `False | expr` raises TypeError, which the SQLAlchemyError handler does not catch

  /** Under Filters, only `sleep_until <= now` reaches SQL, where a NULL cooldown compares as unknown. */
  predicate AvailableAsWritten(i: Instance, now: int) {
    false || (i.sleepUntil.Some? && i.sleepUntil.value <= now)
  }

  /** The rows of `s` that the as-written SQL keeps, in the order of `s`. */
  function CooledIn(t: Table, s: seq<string>, now: int): (r: seq<string>)
    requires forall k :: 0 <= k < |s| ==> s[k] in t
    ensures forall k :: 0 <= k < |r| ==> r[k] in t
    ensures forall u :: u in r <==> u in s && u in t && AvailableAsWritten(t[u], now)
  {
    if |s| == 0 then []
    else
      var u := s[|s| - 1];
      CooledIn(t, s[..|s| - 1], now) + (if AvailableAsWritten(t[u], now) then [u] else [])
  }

  /**
   * get_available_instances as written: nothing under Raises (the call
   * raises), and under Filters the rows the intended listing orders by
   * priority, less those without a cooldown.
   */
  function ListedAsWritten(reading: Reading, t: Table, order: seq<string>, now: int): (r: Option<seq<string>>)
    ensures r.None? <==> reading == Raises
    ensures r.Some? ==> forall u :: u in r.value ==> u in t && AvailableAsWritten(t[u], now)
  {
    match reading
    case Raises => None
    case Filters => Some(CooledIn(t, SortedAvailable(t, order, now), now))
  }

  /**
   * As written, an instance that was never put in cooldown is never listed,
   * under either reading, although the intended filter lists it.
   */
  lemma NeverCooledNeverListedAsWritten(reading: Reading, t: Table, order: seq<string>, url: string,
                                        j: InstanceJson, now: int)
    requires url !in t && NoDup(order) && forall u :: u in t <==> u in order
    ensures var t', order' := Upserted(t, url, j), order + [url];
      var r := ListedAsWritten(reading, t', order', now);
      && (r.None? || url !in r.value)
      && url in SortedAvailable(t', order', now)
  {
    var t', order' := Upserted(t, url, j), order + [url];
    assert forall u :: u in t' <==> u in order' by {
      assert forall u :: u in order' <==> u in order || u == url;
    }
    forall a, b | 0 <= a < b < |order'|
      ensures order'[a] != order'[b]
    {
      if b == |order| {
        assert order[a] in t;
      }
    }
    SortedAvailableSpec(t', order', now);
  }

  /** Under Filters the written filter keeps a subset of the intended one, dropping exactly the never-cooled instances. */
  lemma AsWrittenIsNarrower(i: Instance, now: int)
    ensures AvailableAsWritten(i, now) ==> Available(i, now)
    ensures Available(i, now) && !AvailableAsWritten(i, now) <==> i.sleepUntil.None?
  {
  }

  predicate SortedByPriority(t: Table, s: seq<string>)
    requires forall k :: 0 <= k < |s| ==> s[k] in t
  {
    forall a, b :: 0 <= a < b < |s| ==> t[s[a]].priority <= t[s[b]].priority
  }

  predicate NoDup(s: seq<string>) {
    forall a, b :: 0 <= a < b < |s| ==> s[a] != s[b]
  }

  /** The available instances among `order`, in that order. */
  function AvailableIn(t: Table, order: seq<string>, now: int): (r: seq<string>)
    ensures forall u :: u in r <==> u in order && u in t && Available(t[u], now)
  {
    if |order| == 0 then []
    else
      var u := order[|order| - 1];
      AvailableIn(t, order[..|order| - 1], now) + (if u in t && Available(t[u], now) then [u] else [])
  }

  /** Inserts u after every element whose priority is not greater (a stable insertion). */
  function InsertByPriority(t: Table, s: seq<string>, u: string): (r: seq<string>)
    requires u in t && forall k :: 0 <= k < |s| ==> s[k] in t
    ensures multiset(r) == multiset(s) + multiset{u}
    ensures forall k :: 0 <= k < |r| ==> r[k] in t
  {
    if |s| == 0 then [u]
    else if t[s[|s| - 1]].priority <= t[u].priority then s + [u]
    else
      var pre := s[..|s| - 1];
      assert s == pre + [s[|s| - 1]];
      InsertByPriority(t, pre, u) + [s[|s| - 1]]
  }

  /** The list get_available_instances builds: each available instance, in id order, inserted by priority. */
  function SortedAvailable(t: Table, order: seq<string>, now: int): (r: seq<string>)
    ensures forall k :: 0 <= k < |r| ==> r[k] in t
  {
    if |order| == 0 then []
    else
      var pre := SortedAvailable(t, order[..|order| - 1], now);
      var u := order[|order| - 1];
      if u in t && Available(t[u], now) then InsertByPriority(t, pre, u) else pre
  }

  /** The table after update_all_priorities. */
  function ReprioritisedAll(t: Table): (r: Table)
    ensures r.Keys == t.Keys
    ensures forall u :: u in t ==> r[u] == Reprioritised(t[u])
  {
    map u | u in t :: Reprioritised(t[u])
  }

  lemma {:induction false} InsertKeepsSorted(t: Table, s: seq<string>, u: string)
    requires u in t && forall k :: 0 <= k < |s| ==> s[k] in t
    requires SortedByPriority(t, s)
    ensures SortedByPriority(t, InsertByPriority(t, s, u))
  {
    if |s| > 0 && t[s[|s| - 1]].priority > t[u].priority {
      var pre := s[..|s| - 1];
      var last := s[|s| - 1];
      assert SortedByPriority(t, pre);
      InsertKeepsSorted(t, pre, u);
      var ins := InsertByPriority(t, pre, u);
      forall k | 0 <= k < |ins| ensures t[ins[k]].priority <= t[last].priority {
        assert ins[k] in multiset(ins);
        assert ins[k] in multiset(pre) || ins[k] == u;
        if ins[k] != u {
          var m :| 0 <= m < |pre| && pre[m] == ins[k];
          assert s[m] == pre[m];
        }
      }
    }
  }

  lemma {:induction false} AvailableInNoDup(t: Table, order: seq<string>, now: int)
    requires NoDup(order)
    ensures NoDup(AvailableIn(t, order, now))
  {
    if |order| > 0 {
      var pre := order[..|order| - 1];
      assert NoDup(pre);
      AvailableInNoDup(t, pre, now);
    }
  }

  lemma MultisetNoDup(s: seq<string>, r: seq<string>)
    requires multiset(s) == multiset(r) && NoDup(s)
    ensures NoDup(r)
  {
    forall a, b | 0 <= a < b < |r| ensures r[a] != r[b] {
      if r[a] == r[b] {
        var x := r[a];
        assert multiset(r)[x] >= 2 by {
          assert r == r[..a] + [x] + r[a + 1..b] + [x] + r[b + 1..];
          assert multiset(r) == multiset(r[..a]) + multiset{x} + multiset(r[a + 1..b]) + multiset{x} + multiset(r[b + 1..]);
        }
        CountAtMostOne(s, x);
        assert false;
      }
    }
  }

  lemma {:induction false} CountAtMostOne(s: seq<string>, x: string)
    requires NoDup(s)
    ensures multiset(s)[x] <= 1
  {
    if |s| > 0 {
      var pre := s[..|s| - 1];
      assert s == pre + [s[|s| - 1]];
      assert NoDup(pre);
      CountAtMostOne(pre, x);
      if s[|s| - 1] == x {
        assert x !in pre;
      }
    }
  }

  lemma PrefixStep(s: seq<string>, i: nat)
    requires i < |s|
    ensures |s[..i + 1]| == i + 1 && s[..i + 1][..i] == s[..i] && s[..i + 1][i] == s[i]
  {
  }

  /** The insertion sort keeps its result sorted and a permutation of the available instances. */
  lemma {:induction false} SortedAvailablePerm(t: Table, order: seq<string>, now: int)
    ensures SortedByPriority(t, SortedAvailable(t, order, now))
    ensures multiset(SortedAvailable(t, order, now)) == multiset(AvailableIn(t, order, now))
  {
    if |order| > 0 {
      var pre := order[..|order| - 1];
      var u := order[|order| - 1];
      SortedAvailablePerm(t, pre, now);
      if u in t && Available(t[u], now) {
        InsertKeepsSorted(t, SortedAvailable(t, pre, now), u);
      }
    }
  }

  /**
   * With distinct ids, the sorted available list holds exactly the
   * instances whose cooldown is unset or elapsed, each once, by priority.
   */
  lemma SortedAvailableSpec(t: Table, order: seq<string>, now: int)
    requires NoDup(order) && forall u :: u in t ==> u in order
    ensures var r := SortedAvailable(t, order, now);
      && (forall u :: u in r <==> u in t && Available(t[u], now))
      && SortedByPriority(t, r)
      && NoDup(r)
  {
    var r := SortedAvailable(t, order, now);
    var avail := AvailableIn(t, order, now);
    SortedAvailablePerm(t, order, now);
    AvailableInNoDup(t, order, now);
    MultisetNoDup(avail, r);
    forall u ensures u in r <==> u in avail {
      assert u in r <==> u in multiset(r);
      assert u in avail <==> u in multiset(avail);
    }
  }

  class InstanceRegistry {
    var instances: Table
    var order: seq<string>   // insertion (id) order

    ghost predicate Valid()
      reads this
    {
      (forall u :: u in instances <==> u in order) && NoDup(order)
    }

    constructor ()
      ensures Valid() && instances == map[] && order == []
    {
      instances := map[];
      order := [];
    }

    method UpsertInstance(j: InstanceJson, url: string)
      requires Valid()
      modifies this
      ensures Valid()
      ensures instances == Upserted(old(instances), url, j)
      ensures order == if url in old(instances) then old(order) else old(order) + [url]
    {
      if url in instances {
        instances := instances[url := instances[url].(meta := MetaOf(j), uptime := j.uptimeYear)];
      } else {
        instances := instances[url := Instance(MetaOf(j), j.uptimeYear, DefaultPriority, None)];
        order := order + [url];
      }
    }

    /** update_sleep: the cooldown of a known instance ends `seconds` after now. */
    method UpdateSleep(url: string, seconds: int, now: int)
      requires Valid()
      modifies this
      ensures Valid() && order == old(order)
      ensures instances == WithSleep(old(instances), url, Some(now + seconds))
    {
      if url in instances {
        instances := instances[url := instances[url].(sleepUntil := Some(now + seconds))];
      }
    }

    /** clear_sleep: a known instance has no cooldown any more. */
    method ClearSleep(url: string)
      requires Valid()
      modifies this
      ensures Valid() && order == old(order)
      ensures instances == WithSleep(old(instances), url, None)
    {
      if url in instances {
        instances := instances[url := instances[url].(sleepUntil := None)];
      }
    }

    /** update_all_priorities: every instance gets priority 100 - uptime; nothing else changes. */
    method UpdateAllPriorities()
      requires Valid()
      modifies this
      ensures Valid() && order == old(order)
      ensures instances.Keys == old(instances).Keys
      ensures forall u :: u in instances ==> instances[u] == Reprioritised(old(instances)[u])
      ensures instances == ReprioritisedAll(old(instances))
    {
      var i := 0;
      while i < |order|
        invariant 0 <= i <= |order|
        invariant instances.Keys == old(instances).Keys && order == old(order)
        invariant forall u :: u in instances ==>
          instances[u] == if u in order[..i] then Reprioritised(old(instances)[u]) else old(instances)[u]
      {
        var u := order[i];
        assert order[..i + 1] == order[..i] + [u];
        instances := instances[u := Reprioritised(instances[u])];
        i := i + 1;
      }
      assert order[..i] == order;
      assert instances == ReprioritisedAll(old(instances));
    }

    /**
     * get_available_instances: exactly the instances whose cooldown is unset
     * or elapsed, each once, by ascending priority. Reads only.
     */
    method GetAvailableInstances(now: int) returns (r: seq<string>)
      requires Valid()
      ensures forall k :: 0 <= k < |r| ==> r[k] in instances
      ensures forall u :: u in r <==> u in instances && Available(instances[u], now)
      ensures SortedByPriority(instances, r)
      ensures NoDup(r)
      ensures r == SortedAvailable(instances, order, now)
    {
      r := [];
      var i := 0;
      while i < |order|
        invariant 0 <= i <= |order|
        invariant r == SortedAvailable(instances, order[..i], now)
      {
        var u := order[i];
        PrefixStep(order, i);
        if u in instances && Available(instances[u], now) {
          r := InsertByPriority(instances, r, u);
        }
        i := i + 1;
      }
      assert order[..i] == order;
      SortedAvailableSpec(instances, order, now);
    }
  }
}
