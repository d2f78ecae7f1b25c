/** GET and POST /api/approvals: the queue of documents awaiting an administrator's approval. */
module Approvals {
  import opened Wrappers
  import opened Seqs
  import opened Json
  import opened Text
  import opened AdminAuth

  /** One queue entry. Statuses are kept as the strings stored in the file. */
  datatype Item = Item(id: string, title: string, author: string, href: string, status: string)

  /**
   * The store file: unreadable (missing or not JSON), or parsed, where a file whose `items` is not
   * an array holds no items.
   */
  datatype StoreFile = Unreadable | Stored(items: seq<Item>)

  const SeedItems: seq<Item> := [
    Item("doc-123", "Getting Started", "alice", "/docs/guides/quickstart", "pending"),
    Item("doc-124", "Theme API", "bob", "/docs/guides/theme-api", "pending"),
    Item("doc-125", "CLI Overview", "carol", "/docs/reference/cli/overview", "approved")
  ]

  /** The items a handler works on: the three seed items when the file cannot be read. */
  function Items(f: StoreFile): (items: seq<Item>)
    ensures f.Unreadable? ==> |items| == 3 && items == SeedItems
    ensures f.Stored? ==> items == f.items
  {
    if f.Unreadable? then SeedItems else f.items
  }

  lemma SeedIdsDistinct()
    ensures Distinct(IdsOf(SeedItems))
  {
  }

  class ApprovalStore {
    var file: StoreFile

    constructor (initial: StoreFile)
      ensures file == initial
    {
      file := initial;
    }
  }

  // ---------------------------------------------------------------------------------------------
  // The id derived from an href

  /** `s.replace(/[^a-z0-9]+/gi, '-')`: every maximal run of other characters becomes one '-'. */
  function Dashify(s: string): (r: string)
    ensures forall c | c in r :: IsAlnum(c) || c == '-'
    ensures forall i | 0 <= i < |r| - 1 :: r[i] == '-' ==> r[i + 1] != '-'
    ensures Kept(r, IsAlnum) == Kept(s, IsAlnum)
  {
    ReplaceRunsKept(s, IsAlnum);
    ReplaceRuns(s, IsAlnum)
  }

  /**
   * The value of the rewrite: between two alphanumeric stretches, a non-empty run of other
   * characters becomes exactly one '-', and alphanumerics are copied. With DashifyAlnum this
   * determines Dashify on every input.
   */
  lemma DashifyJoin(a: string, sep: string, b: string)
    requires a == [] || IsAlnum(a[|a| - 1])
    requires sep != [] && forall c | c in sep :: !IsAlnum(c)
    requires b == [] || IsAlnum(b[0])
    ensures Dashify(a + sep + b) == Dashify(a) + "-" + Dashify(b)
  {
    assert a + sep + b == a + (sep + b);
    ReplaceRunsAppend(a, sep + b, IsAlnum);
    ReplaceRunsRun(sep, b, IsAlnum);
    SeqAssoc(Dashify(a), "-", Dashify(b));
  }

  /** Text made of letters and digits only is its own id. */
  lemma DashifyAlnum(s: string)
    requires forall c | c in s :: IsAlnum(c)
    ensures Dashify(s) == s
  {
    ReplaceRunsOfKept(s, IsAlnum);
  }

  /** Two words and the space between them give two words and one dash. */
  lemma DashifyExample()
    ensures Dashify("a b") == "a-b"
  {
    assert "a b" == "a" + " " + "b";
    DashifyJoin("a", " ", "b");
    DashifyAlnum("a");
    DashifyAlnum("b");
  }

  /** Deriving an id from an href that is already dashified changes nothing. */
  lemma DashifyIdempotent(s: string)
    ensures Dashify(Dashify(s)) == Dashify(s)
  {
    ReplaceRunsIdempotent(s, IsAlnum);
  }

  /** `resolveId`: the given id, else "doc-" and the dashified href, else nothing. */
  function ResolveId(id: Option<string>, href: Option<string>): (r: Option<string>)
    ensures id.Some? ==> r == id
    ensures id.None? && href.Some? && href.value != [] ==> r == Some("doc-" + Dashify(href.value))
    ensures r.None? <==> id.None? && (href.None? || href.value == [])
  {
    if id.Some? then id
    else if href.Some? && href.value != [] then Some("doc-" + Dashify(href.value))
    else None
  }

  // ---------------------------------------------------------------------------------------------
  // The request

  datatype Request = Request(id: Option<string>, href: Option<string>, title: Option<string>,
                             author: Option<string>, status: string)

  /** An optional string of at least one character (`z.string().min(1).optional()`). */
  predicate OptionalNonEmpty(f: Field) {
    f.Missing? || StrAtLeast(f, 1)
  }

  predicate IsStatus(s: string) {
    s == "approved" || s == "rejected" || s == "pending"
  }

  function OptionOf(f: Field): Option<string> {
    if f.Str? then Some(f.s) else None
  }

  /** The request schema; a missing status defaults to "pending". */
  function ParseRequest(id: Field, href: Field, title: Field, author: Field, status: Field): (r: Option<Request>)
    ensures r.Some? <==>
              OptionalNonEmpty(id) && OptionalNonEmpty(href) && OptionalNonEmpty(title) && OptionalStr(author) &&
              (status.Missing? || (status.Str? && IsStatus(status.s)))
    ensures r.Some? ==> IsStatus(r.value.status) && (status.Missing? ==> r.value.status == "pending")
    ensures r.Some? ==> (r.value.id.Some? ==> r.value.id.value != []) && (r.value.href.Some? ==> r.value.href.value != [])
                        && (r.value.title.Some? ==> r.value.title.value != [])
  {
    if OptionalNonEmpty(id) && OptionalNonEmpty(href) && OptionalNonEmpty(title) && OptionalStr(author) &&
       (status.Missing? || (status.Str? && IsStatus(status.s)))
    then Some(Request(OptionOf(id), OptionOf(href), OptionOf(title), OptionOf(author),
                      if status.Str? then status.s else "pending"))
    else None
  }

  // ---------------------------------------------------------------------------------------------
  // The upsert

  function IdsOf(items: seq<Item>): seq<string> {
    seq(|items|, i requires 0 <= i < |items| => items[i].id)
  }

  /** The position of the first item with the id, or -1: what `findIndex` computes. */
  function IndexOf(items: seq<Item>, id: string): (k: int)
    ensures -1 <= k < |items|
    ensures k == -1 <==> id !in IdsOf(items)
    ensures k >= 0 ==> items[k].id == id && forall j | 0 <= j < k :: items[j].id != id
  {
    if items == [] then -1
    else if items[0].id == id then
      assert IdsOf(items)[0] == id;
      0
    else
      var k := IndexOf(items[1..], id);
      assert IdsOf(items) == [items[0].id] + IdsOf(items[1..]);
      if k == -1 then -1 else k + 1
  }

  method FindIndex(items: seq<Item>, id: string) returns (idx: int)
    ensures idx == IndexOf(items, id)
  {
    idx := 0;
    while idx < |items|
      invariant idx <= |items|
      invariant forall j | 0 <= j < idx :: items[j].id != id
    {
      if items[idx].id == id {
        assert IdsOf(items)[idx] == id;
        return;
      }
      idx := idx + 1;
    }
    return -1;
  }

  /**
   * The new item list for a resolved id: the existing item gets the requested status, or a new
   * item is appended, for which href and title are required (None otherwise).
   */
  function Upsert(items: seq<Item>, id: string, req: Request): Option<seq<Item>> {
    var k := IndexOf(items, id);
    if k >= 0 then Some(items[k := items[k].(status := req.status)])
    else if req.href.None? || req.title.None? then None
    else Some(items + [Item(id, req.title.value, req.author.GetOr("system"), req.href.value, req.status)])
  }

  datatype Response = Saved(id: string) | Unauthorized | InvalidRequest | IdRequired | TitleAndHrefRequired {
    function Status(): nat {
      match this
      case Saved(_) => 200
      case Unauthorized => 401
      case InvalidRequest | IdRequired | TitleAndHrefRequired => 400
    }
  }

  /**
   * POST: authorise, validate, resolve the id, upsert, and write `{ items }` back. A store that
   * could not be read is written back as the seed items plus the change.
   */
  method Post(store: ApprovalStore, token: Option<string>, auth: Option<string>,
              id: Field, href: Field, title: Field, author: Field, status: Field) returns (resp: Response)
    modifies store
    ensures resp == Unauthorized <==> !Authorized(token, auth)
    ensures Authorized(token, auth) ==> (resp == InvalidRequest <==> ParseRequest(id, href, title, author, status).None?)
    ensures var req := ParseRequest(id, href, title, author, status);
            Authorized(token, auth) && req.Some? ==>
              var rid := ResolveId(req.value.id, req.value.href);
              (resp == IdRequired <==> rid.None?) &&
              (rid.Some? ==>
                 var up := Upsert(Items(old(store.file)), rid.value, req.value);
                 (resp == TitleAndHrefRequired <==> up.None?) &&
                 (up.Some? ==> resp == Saved(rid.value) && store.file == Stored(up.value)))
    ensures !resp.Saved? ==> store.file == old(store.file)
  {
    if !Authorized(token, auth) {
      return Unauthorized;
    }
    var req := ParseRequest(id, href, title, author, status);
    if req.None? {
      return InvalidRequest;
    }
    var items := Items(store.file);
    var rid := ResolveId(req.value.id, req.value.href);
    if rid.None? {
      return IdRequired;
    }
    var idx := FindIndex(items, rid.value);
    if idx >= 0 {
      items := items[idx := items[idx].(status := req.value.status)];
    } else {
      if req.value.href.None? || req.value.title.None? {
        return TitleAndHrefRequired;
      }
      items := items + [Item(rid.value, req.value.title.value, req.value.author.GetOr("system"),
                             req.value.href.value, req.value.status)];
    }
    store.file := Stored(items);
    return Saved(rid.value);
  }

  /** GET: the store as read, with the seed items standing in for an unreadable file. */
  function Get(f: StoreFile): (items: seq<Item>)
    ensures f.Unreadable? ==> items == SeedItems
    ensures f.Stored? ==> items == f.items
  {
    Items(f)
  }

  // ---------------------------------------------------------------------------------------------
  // Properties of the upsert

  /** Updating an existing id changes that item's status and nothing else. */
  lemma UpsertExisting(items: seq<Item>, id: string, req: Request)
    requires id in IdsOf(items)
    ensures var r := Upsert(items, id, req);
            var k := IndexOf(items, id);
            r.Some? && |r.value| == |items| &&
            r.value[k] == items[k].(status := req.status) &&
            forall j | 0 <= j < |items| && j != k :: r.value[j] == items[j]
  {
  }

  /** A new id is appended at the end, with the author defaulting to "system" only when absent. */
  lemma UpsertNew(items: seq<Item>, id: string, req: Request)
    requires id !in IdsOf(items) && req.href.Some? && req.title.Some?
    ensures var r := Upsert(items, id, req);
            r.Some? && r.value[..|items|] == items && |r.value| == |items| + 1 &&
            r.value[|items|] == Item(id, req.title.value, if req.author.Some? then req.author.value else "system",
                                     req.href.value, req.status)
  {
    var r := Upsert(items, id, req);
    assert r.value[..|items|] == items;
  }

  /** Ids that were unique before a POST are unique after it. */
  lemma UpsertKeepsIdsDistinct(items: seq<Item>, id: string, req: Request)
    requires Distinct(IdsOf(items))
    requires Upsert(items, id, req).Some?
    ensures Distinct(IdsOf(Upsert(items, id, req).value))
    ensures id in IdsOf(Upsert(items, id, req).value)
  {
    var r := Upsert(items, id, req).value;
    var k := IndexOf(items, id);
    if k >= 0 {
      assert IdsOf(r) == IdsOf(items);
    } else {
      assert IdsOf(r) == IdsOf(items) + [id];
      assert IdsOf(r)[|items|] == id;
    }
  }
}
