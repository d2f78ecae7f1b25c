/** GET /api/metrics: dashboard counters gathered from the docs folder, the approval store and analytics. */
module Metrics {
  import opened Wrappers
  import opened FsTree
  import opened Approvals

  /**
   * `walk`: list a directory (throwing when it cannot be listed) and add up its documents,
   * descending into subdirectories. None stands for the exception.
   */
  method Walk(readable: bool, es: seq<Entry>) returns (r: Option<nat>)
    ensures r.Some? <==> readable && AllReadable(es)
    ensures r.Some? ==> r.value == DocCount(es)
    decreases es
  {
    if !readable {
      return None;
    }
    var count := 0;
    var i := 0;
    while i < |es|
      invariant i <= |es|
      invariant AllReadable(es[..i])
      invariant count == DocCount(es[..i])
    {
      Step(es, i);
      match es[i] {
        case Dir(_, dirReadable, sub) =>
          var n := Walk(dirReadable, sub);
          if n.None? {
            assert es == es[..i + 1] + es[i + 1..];
            CountAppend(es[..i + 1], es[i + 1..]);
            return None;
          }
          count := count + n.value;
        case File(name) =>
          if IsDocName(name) {
            count := count + 1;
          }
        case Other(_) =>
      }
      i := i + 1;
    }
    assert es[..i] == es;
    return Some(count);
  }

  lemma {:induction false} CountAppend(a: seq<Entry>, b: seq<Entry>)
    ensures DocCount(a + b) == DocCount(a) + DocCount(b)
    ensures AllReadable(a + b) == (AllReadable(a) && AllReadable(b))
  {
    if a != [] {
      CountAppend(a[1..], b);
      assert (a + b)[0] == a[0] && (a + b)[1..] == a[1..] + b;
    } else {
      assert a + b == b;
    }
  }

  lemma Step(es: seq<Entry>, i: nat)
    requires i < |es|
    ensures DocCount(es[..i + 1]) == DocCount(es[..i]) + DocCount([es[i]])
    ensures AllReadable(es[..i + 1]) == (AllReadable(es[..i]) && AllReadable([es[i]]))
    ensures DocCount([es[i]]) == match es[i]
                                 case Dir(_, _, sub) => DocCount(sub)
                                 case File(name) => if IsDocName(name) then 1 else 0
                                 case Other(_) => 0
    ensures AllReadable([es[i]]) == match es[i]
                                    case Dir(_, readable, sub) => readable && AllReadable(sub)
                                    case _ => true
  {
    assert es[..i + 1] == es[..i] + [es[i]];
    CountAppend(es[..i], [es[i]]);
    assert [es[i]][1..] == [];
  }

  /** `countDocs`: the documents below the docs root, or 0 when any directory cannot be listed. */
  function CountDocs(rootReadable: bool, es: seq<Entry>): (n: nat)
    ensures rootReadable && AllReadable(es) ==> n == DocCount(es)
    ensures !(rootReadable && AllReadable(es)) ==> n == 0
  {
    if rootReadable && AllReadable(es) then DocCount(es) else 0
  }

  /** The number of items whose status is exactly "pending". */
  function PendingOf(items: seq<Item>): (n: nat)
    ensures n <= |items|
  {
    if items == [] then 0 else (if items[0].status == "pending" then 1 else 0) + PendingOf(items[1..])
  }

  /**
   * `countPendingApprovals`: an unreadable or malformed store counts as `{}`, i.e. no items
   * (unlike the approvals handler, which falls back to its seed items).
   */
  function CountPendingApprovals(f: StoreFile): (n: nat)
    ensures f.Unreadable? ==> n == 0
    ensures f.Stored? ==> n == PendingOf(f.items) && n <= |f.items|
  {
    if f.Unreadable? then 0 else PendingOf(f.items)
  }

  /** The count is zero exactly when no item is pending, and the item count exactly when all are. */
  lemma {:induction false} PendingOfExtremes(items: seq<Item>)
    ensures PendingOf(items) == 0 <==> forall i | 0 <= i < |items| :: items[i].status != "pending"
    ensures PendingOf(items) == |items| <==> forall i | 0 <= i < |items| :: items[i].status == "pending"
  {
    if items != [] {
      PendingOfExtremes(items[1..]);
      assert forall i | 1 <= i < |items| :: items[i] == items[1..][i - 1];
    }
  }

  function IsPending(it: Item): nat {
    if it.status == "pending" then 1 else 0
  }

  lemma {:induction false} PendingOfUpdate(items: seq<Item>, k: nat, x: Item)
    requires k < |items|
    ensures PendingOf(items[k := x]) + IsPending(items[k]) == PendingOf(items) + IsPending(x)
  {
    if k > 0 {
      PendingOfUpdate(items[1..], k - 1, x);
      assert items[k := x][1..] == items[1..][k - 1 := x];
    }
  }

  lemma {:induction false} PendingOfAppend(items: seq<Item>, x: Item)
    ensures PendingOf(items + [x]) == PendingOf(items) + IsPending(x)
  {
    if items == [] {
      assert [x][1..] == [];
    } else {
      PendingOfAppend(items[1..], x);
      assert (items + [x])[1..] == items[1..] + [x];
    }
  }

  /**
   * An approval request moves the pending count by at most one: up by one when a new item is
   * queued as pending, down by one when a pending item is approved or rejected.
   */
  lemma UpsertPendingCount(items: seq<Item>, id: string, req: Request)
    requires Upsert(items, id, req).Some?
    ensures var after := PendingOf(Upsert(items, id, req).value);
            var k := IndexOf(items, id);
            (k >= 0 ==> after + IsPending(items[k]) == PendingOf(items) + IsPending(items[k].(status := req.status))) &&
            (k < 0 ==> after == PendingOf(items) + (if req.status == "pending" then 1 else 0))
  {
    var k := IndexOf(items, id);
    if k >= 0 {
      PendingOfUpdate(items, k, items[k].(status := req.status));
    } else {
      PendingOfAppend(items, Item(id, req.title.value, req.author.GetOr("system"), req.href.value, req.status));
    }
  }

  /** The seed approvals hold two pending items, yet the metrics count none for an unreadable store. */
  lemma SeedNotCounted()
    ensures PendingOf(Items(Unreadable)) == 2
    ensures CountPendingApprovals(Unreadable) == 0
  {
  }

  /** The analytics aggregate: each value is absent when the response lacks it. */
  datatype Aggregate = Aggregate(visitors: Option<int>, pageviews: Option<int>)

  datatype Stats = Stats(uniqueUsers7d: int, pageViews7d: int)

  /**
   * `fetchPlausible`: nothing without both a domain and an API key (checked before any request),
   * nothing when the request fails; otherwise the two values, 0 where absent.
   */
  function FetchPlausible(domain: Option<string>, apiKey: Option<string>, response: Option<Aggregate>): (r: Option<Stats>)
    ensures r.Some? <==> domain.Some? && domain.value != [] && apiKey.Some? && apiKey.value != [] && response.Some?
    ensures r.Some? ==> response.Some? &&
                        r.value.uniqueUsers7d == response.value.visitors.GetOr(0) &&
                        r.value.pageViews7d == response.value.pageviews.GetOr(0)
  {
    if domain.None? || domain.value == [] || apiKey.None? || apiKey.value == [] then None
    else if response.None? then None
    else Some(Stats(response.value.visitors.GetOr(0), response.value.pageviews.GetOr(0)))
  }

  datatype MetricsBody = MetricsBody(totalDocs: nat, pendingApprovals: nat, pageViews7d: int, uniqueUsers7d: int, updatedAt: int)

  /** The response body; the clock reading is a parameter. */
  function Get(rootReadable: bool, docs: seq<Entry>, approvals: StoreFile,
               domain: Option<string>, apiKey: Option<string>, response: Option<Aggregate>, now: int): (m: MetricsBody)
    ensures m.totalDocs == CountDocs(rootReadable, docs)
    ensures m.pendingApprovals == CountPendingApprovals(approvals)
    ensures FetchPlausible(domain, apiKey, response).None? ==> m.pageViews7d == 0 && m.uniqueUsers7d == 0
    ensures FetchPlausible(domain, apiKey, response).Some? ==>
              m.pageViews7d == response.value.pageviews.GetOr(0) && m.uniqueUsers7d == response.value.visitors.GetOr(0)
    ensures m.updatedAt == now
  {
    var stats := FetchPlausible(domain, apiKey, response);
    MetricsBody(CountDocs(rootReadable, docs), CountPendingApprovals(approvals),
                if stats.Some? then stats.value.pageViews7d else 0,
                if stats.Some? then stats.value.uniqueUsers7d else 0,
                now)
  }
}
