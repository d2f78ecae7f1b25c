/**
 * The landing page's client logic: the search box (the first ten pages for a blank query, at most
 * twenty fuzzy matches otherwise, each shown with the query marked in it) and the list of approved
 * documents, most recently modified first.
 */
module HomePage {
  import opened Wrappers
  import opened Text
  import opened Sorting
  import opened DocsIndex
  import Approvals

  // ---------------------------------------------------------------------------------------------
  // Highlighting

  /** What `highlight` renders: the text as it is, or the text split around one `<mark>`. */
  datatype Highlighted = Plain(text: string) | Marked(before: string, mark: string, after: string) {
    /** The characters shown on screen, in order. */
    function Shown(): string {
      match this
      case Plain(t) => t
      case Marked(b, m, a) => b + m + a
    }
  }

  lemma ToLowerSlice(s: string, i: nat, j: nat)
    requires i <= j <= |s|
    ensures ToLower(s[i..j]) == ToLower(s)[i..j]
  {
  }

  /**
   * Marks the first case-insensitive occurrence of `query` in `text`; an empty query, or one that
   * does not occur, leaves the text as it is. The text shown is always the text given.
   */
  function Highlight(text: string, query: string): (h: Highlighted)
    ensures h.Shown() == text
    ensures h.Plain? <==> query == [] || forall k: nat :: !OccursAt(ToLower(text), ToLower(query), k)
    ensures h.Marked? ==> |h.mark| == |query| && ToLower(h.mark) == ToLower(query)
    ensures h.Marked? ==> forall k: nat | k < |h.before| :: !OccursAt(ToLower(text), ToLower(query), k)
  {
    if query == [] then Plain(text)
    else match FindFrom(ToLower(text), ToLower(query), 0)
      case None => Plain(text)
      case Some(idx) =>
        ToLowerSlice(text, idx, idx + |query|);
        assert text[..idx] + text[idx..idx + |query|] + text[idx + |query|..] == text;
        Marked(text[..idx], text[idx..idx + |query|], text[idx + |query|..])
  }

  /** Only the query's letters matter, not their case. */
  lemma HighlightIgnoresQueryCase(text: string, q1: string, q2: string)
    requires ToLower(q1) == ToLower(q2)
    ensures Highlight(text, q1) == Highlight(text, q2)
  {
    assert |q1| == |ToLower(q1)| == |ToLower(q2)| == |q2|;
  }

  // ---------------------------------------------------------------------------------------------
  // Search results

  const BlankQueryLimit: nat := 10
  const MatchLimit: nat := 20

  /** `s.slice(0, n)`. */
  function Take<T>(s: seq<T>, n: nat): (r: seq<T>)
    ensures |r| == if |s| < n then |s| else n
    ensures r == s[..|r|]
  {
    if |s| < n then s else s[..n]
  }

  /**
   * The `filtered` list. `search` stands for the fuzzy matcher over title, href and group: it
   * returns the matching pages for a query, best first.
   */
  function Filtered(pages: seq<Page>, query: string, search: string -> seq<Page>): (r: seq<Page>)
    ensures Trim(query) == [] ==> |r| == (if |pages| < BlankQueryLimit then |pages| else BlankQueryLimit)
    ensures Trim(query) == [] ==> r == pages[..|r|]
    ensures Trim(query) != [] ==> |r| <= MatchLimit && |r| <= |search(Trim(query))| && r == search(Trim(query))[..|r|]
    ensures Trim(query) != [] && |search(Trim(query))| <= MatchLimit ==> r == search(Trim(query))
  {
    var q := Trim(query);
    if q == [] then Take(pages, BlankQueryLimit) else Take(search(q), MatchLimit)
  }

  // ---------------------------------------------------------------------------------------------
  // Approved documents

  /** One entry of the approved list; `mtime` and `excerpt` are absent when no metadata arrived. */
  datatype ApprovedDoc = ApprovedDoc(id: string, title: string, href: string, mtime: Option<int>, excerpt: Option<string>)

  /** A successful answer of the document-metadata handler. */
  datatype DocMetaReply = DocMetaReply(mtime: int, excerpt: string)

  /**
   * The entry for an approved queue item: its title, or its href when the title is empty, and the
   * metadata `fetchMeta` returns for its href (absent when the request fails or is refused).
   */
  function Entry(item: Approvals.Item, fetchMeta: string -> Option<DocMetaReply>): (d: ApprovedDoc)
    ensures d.id == item.id && d.href == item.href
    ensures d.title == (if item.title == [] then item.href else item.title)
    ensures fetchMeta(item.href).None? ==> d.mtime.None? && d.excerpt.None?
    ensures fetchMeta(item.href).Some? ==>
              d.mtime == Some(fetchMeta(item.href).value.mtime) && d.excerpt == Some(fetchMeta(item.href).value.excerpt)
  {
    var base := ApprovedDoc(item.id, if item.title == [] then item.href else item.title, item.href, None, None);
    match fetchMeta(item.href)
    case None => base
    case Some(m) => base.(mtime := Some(m.mtime), excerpt := Some(m.excerpt))
  }

  predicate IsApproved(item: Approvals.Item) {
    item.status == "approved"
  }

  /** The approved items' entries, in queue order, before sorting. */
  function Entries(items: seq<Approvals.Item>, fetchMeta: string -> Option<DocMetaReply>): seq<ApprovedDoc> {
    if items == [] then []
    else
      var last := items[|items| - 1];
      Entries(items[..|items| - 1], fetchMeta) + (if IsApproved(last) then [Entry(last, fetchMeta)] else [])
  }

  /** The sort key: the modification time, with a missing one counting as 0. */
  function MtimeKey(d: ApprovedDoc): int {
    d.mtime.GetOr(0)
  }

  /** The list the page shows: the entries, most recently modified first, ties in queue order. */
  function ApprovedList(items: seq<Approvals.Item>, fetchMeta: string -> Option<DocMetaReply>): (r: seq<ApprovedDoc>)
    ensures SortedDesc(r, MtimeKey)
    ensures multiset(r) == multiset(Entries(items, fetchMeta))
  {
    SortDesc(Entries(items, fetchMeta), MtimeKey)
  }

  lemma {:induction false} EntriesMembers(items: seq<Approvals.Item>, fetchMeta: string -> Option<DocMetaReply>, d: ApprovedDoc)
    ensures d in Entries(items, fetchMeta) <==>
            exists i | 0 <= i < |items| :: IsApproved(items[i]) && d == Entry(items[i], fetchMeta)
  {
    if items != [] {
      var init, last := items[..|items| - 1], items[|items| - 1];
      EntriesMembers(init, fetchMeta, d);
      assert Entries(items, fetchMeta) == Entries(init, fetchMeta) + (if IsApproved(last) then [Entry(last, fetchMeta)] else []);
      if d in Entries(items, fetchMeta) {
        if d in Entries(init, fetchMeta) {
          var i :| 0 <= i < |init| && IsApproved(init[i]) && d == Entry(init[i], fetchMeta);
          assert items[i] == init[i];
        } else {
          assert IsApproved(items[|init|]) && d == Entry(items[|init|], fetchMeta);
        }
      }
      if exists i | 0 <= i < |items| :: IsApproved(items[i]) && d == Entry(items[i], fetchMeta) {
        var i :| 0 <= i < |items| && IsApproved(items[i]) && d == Entry(items[i], fetchMeta);
        if i < |init| {
          assert init[i] == items[i];
        }
      }
    }
  }

  /**
   * The list holds exactly the approved items, each once per queue entry: a document is listed if
   * and only if some queue item with status "approved" produces it.
   */
  lemma ApprovedListMembers(items: seq<Approvals.Item>, fetchMeta: string -> Option<DocMetaReply>, d: ApprovedDoc)
    ensures d in ApprovedList(items, fetchMeta) <==>
            exists i | 0 <= i < |items| :: IsApproved(items[i]) && d == Entry(items[i], fetchMeta)
  {
    var r := ApprovedList(items, fetchMeta);
    assert d in r <==> d in multiset(r);
    EntriesMembers(items, fetchMeta, d);
  }

  /** Entries with the same modification time keep their queue order. */
  lemma ApprovedListStable(items: seq<Approvals.Item>, fetchMeta: string -> Option<DocMetaReply>, t: int)
    ensures WithKey(ApprovedList(items, fetchMeta), MtimeKey, t) == WithKey(Entries(items, fetchMeta), MtimeKey, t)
  {
    SortDescStable(Entries(items, fetchMeta), MtimeKey, t);
  }

  /** A document without metadata is never listed above one with a positive modification time. */
  lemma NoMetaBelowDated(items: seq<Approvals.Item>, fetchMeta: string -> Option<DocMetaReply>, i: nat, j: nat)
    requires i < j < |ApprovedList(items, fetchMeta)|
    requires ApprovedList(items, fetchMeta)[j].mtime.Some? && ApprovedList(items, fetchMeta)[j].mtime.value > 0
    ensures ApprovedList(items, fetchMeta)[i].mtime.Some?
  {
    var r := ApprovedList(items, fetchMeta);
    assert MtimeKey(r[i]) >= MtimeKey(r[j]);
  }

  // ---------------------------------------------------------------------------------------------
  // Page state

  /** The page's React state. */
  class Home {
    var query: string
    var pages: seq<Page>
    var loading: bool
    var approved: seq<ApprovedDoc>
    var loadingApproved: bool

    constructor ()
      ensures query == [] && pages == [] && !loading && approved == [] && !loadingApproved
    {
      query := [];
      pages := [];
      loading := false;
      approved := [];
      loadingApproved := false;
    }

    /** The search box's change handler. */
    method SetQuery(q: string)
      modifies this
      ensures query == q
      ensures pages == old(pages) && loading == old(loading)
      ensures approved == old(approved) && loadingApproved == old(loadingApproved)
    {
      query := q;
    }

    /**
     * `load`: `reply` is the docs index's `pages` (None when the request is refused, `[]` when the
     * body holds no array).
     */
    method LoadPages(reply: Option<seq<Page>>)
      modifies this
      ensures pages == if reply.Some? then reply.value else old(pages)
      ensures !loading
      ensures query == old(query) && approved == old(approved) && loadingApproved == old(loadingApproved)
    {
      loading := true;
      if reply.Some? {
        pages := reply.value;
      }
      loading := false;
    }

    /**
     * `loadApproved`: `reply` is the approval queue's `items` (None when the request is refused,
     * `[]` when the body holds no array); `fetchMeta` answers the per-document metadata requests.
     */
    method LoadApproved(reply: Option<seq<Approvals.Item>>, fetchMeta: string -> Option<DocMetaReply>)
      modifies this
      ensures approved == if reply.Some? then ApprovedList(reply.value, fetchMeta) else old(approved)
      ensures !loadingApproved
      ensures query == old(query) && pages == old(pages) && loading == old(loading)
    {
      loadingApproved := true;
      if reply.Some? {
        var items := reply.value;
        var withMeta: seq<ApprovedDoc> := [];
        var i := 0;
        while i < |items|
          invariant i <= |items|
          invariant withMeta == Entries(items[..i], fetchMeta)
        {
          assert items[..i + 1][..i] == items[..i];
          if IsApproved(items[i]) {
            withMeta := withMeta + [Entry(items[i], fetchMeta)];
          }
          i := i + 1;
        }
        assert items[..i] == items;
        approved := SortDesc(withMeta, MtimeKey);
      }
      loadingApproved := false;
    }
  }
}
