/** GET and POST /api/comments: a page's top-level comments, and posting a comment or a reply. */
module CommentsRoute {
  import opened Wrappers
  import opened Json
  import opened Seqs
  import opened CommentTree

  /** The top-level comments of the store that belong to `slug`, in stored order. */
  function BySlug(cs: seq<Comment>, slug: string): (r: seq<Comment>)
    ensures forall c | c in r :: c in cs && c.slug == slug
    ensures forall c | c in cs && c.slug == slug :: c in r
  {
    if cs == [] then []
    else (if cs[0].slug == slug then [cs[0]] else []) + BySlug(cs[1..], slug)
  }

  /** Each comment of the page is listed as often as it is stored, and nothing else is listed. */
  lemma {:induction false} BySlugCounts(cs: seq<Comment>, slug: string, c: Comment)
    ensures multiset(BySlug(cs, slug))[c] == if c.slug == slug then multiset(cs)[c] else 0
  {
    if cs != [] {
      BySlugCounts(cs[1..], slug, c);
      assert cs == [cs[0]] + cs[1..];
    }
  }

  datatype GetResponse = Comments(comments: seq<Comment>) | SlugRequired {
    function Status(): nat {
      if Comments? then 200 else 400
    }
  }

  /** GET: the `slug` query parameter is required and non-empty; replies come nested in their parents. */
  function Get(cs: seq<Comment>, slug: Option<string>): (r: GetResponse)
    ensures r.SlugRequired? <==> slug.None? || slug.value == []
    ensures r.Comments? ==> r.comments == BySlug(cs, slug.value)
  {
    if slug.None? || slug.value == [] then SlugRequired else Comments(BySlug(cs, slug.value))
  }

  datatype PostRequest = PostRequest(slug: string, content: string, author: string, parentId: Option<string>)

  /**
   * The request schema: slug non-empty, content of 1 to 2000 characters, author of 1 to 100, and
   * an optional parent id that must be a string when present. An unparsable body reads as `{}`.
   */
  function ParseRequest(slug: Field, content: Field, author: Field, parentId: Field): (r: Option<PostRequest>)
    ensures r.Some? <==>
              StrAtLeast(slug, 1) && StrBetween(content, 1, 2000) && StrBetween(author, 1, 100) && OptionalStr(parentId)
    ensures r.Some? ==> 1 <= |r.value.slug| && 1 <= |r.value.content| <= 2000 && 1 <= |r.value.author| <= 100
    ensures r.Some? ==> (r.value.parentId.Some? <==> parentId.Str?)
  {
    if StrAtLeast(slug, 1) && StrBetween(content, 1, 2000) && StrBetween(author, 1, 100) && OptionalStr(parentId)
    then Some(PostRequest(slug.s, content.s, author.s, if parentId.Str? then Some(parentId.s) else None))
    else None
  }

  /** The stored comment; its random id and its time are supplied by the caller. */
  function NewComment(id: string, req: PostRequest, now: int): (c: Comment)
    ensures c.id == id && c.slug == req.slug && c.content == req.content && c.author == req.author
    ensures c.createdAt == now && c.likes == 0 && c.replies == [] && c.flags == []
    ensures !c.isFlagged && c.moderationStatus.None?
  {
    Comment(id, req.slug, req.content, req.author, now, 0, [], [], false, None)
  }

  /** `comments.findIndex(c => c.id === parentId)`: top-level comments only. */
  method FindIndex(cs: seq<Comment>, parentId: string) returns (idx: int)
    ensures -1 <= idx < |cs|
    ensures idx == -1 <==> forall j | 0 <= j < |cs| :: cs[j].id != parentId
    ensures idx >= 0 ==> cs[idx].id == parentId && forall j | 0 <= j < idx :: cs[j].id != parentId
  {
    var i := 0;
    while i < |cs|
      invariant i <= |cs|
      invariant forall j | 0 <= j < i :: cs[j].id != parentId
    {
      if cs[i].id == parentId {
        return i;
      }
      i := i + 1;
    }
    return -1;
  }

  /** The position of the first top-level comment with the given id, as FindIndex computes it. */
  function TopIndex(cs: seq<Comment>, id: string): (k: int)
    ensures -1 <= k < |cs|
    ensures k == -1 <==> forall j | 0 <= j < |cs| :: cs[j].id != id
    ensures k >= 0 ==> cs[k].id == id && forall j | 0 <= j < k :: cs[j].id != id
  {
    if cs == [] then -1
    else if cs[0].id == id then 0
    else
      var k := TopIndex(cs[1..], id);
      if k == -1 then -1 else k + 1
  }

  /** A parent id is used only when it is a non-empty string. */
  predicate IsReply(req: PostRequest) {
    req.parentId.Some? && req.parentId.value != []
  }

  /**
   * The store after posting `n`: appended to the replies of the first top-level comment with the
   * parent id, or to the top level when there is no parent; None when the parent is not found.
   */
  function Posted(cs: seq<Comment>, req: PostRequest, n: Comment): Option<seq<Comment>> {
    if IsReply(req) then
      var k := TopIndex(cs, req.parentId.value);
      if k == -1 then None else Some(cs[k := cs[k].(replies := cs[k].replies + [n])])
    else Some(cs + [n])
  }

  datatype PostResponse = Created(comment: Comment) | InvalidRequest | ParentNotFound {
    function Status(): nat {
      match this
      case Created(_) => 200
      case InvalidRequest => 400
      case ParentNotFound => 404
    }
  }

  /** POST: validate, attach the new comment, and write the store back only on success. */
  method Post(store: CommentFile, slug: Field, content: Field, author: Field, parentId: Field,
              newId: string, now: int) returns (resp: PostResponse)
    modifies store
    ensures resp == InvalidRequest <==> ParseRequest(slug, content, author, parentId).None?
    ensures var req := ParseRequest(slug, content, author, parentId);
            req.Some? ==>
              var posted := Posted(old(store.comments), req.value, NewComment(newId, req.value, now));
              (resp == ParentNotFound <==> posted.None?) &&
              (resp.Created? ==> resp.comment == NewComment(newId, req.value, now) && store.comments == posted.value)
    ensures !resp.Created? ==> store.comments == old(store.comments)
  {
    var req := ParseRequest(slug, content, author, parentId);
    if req.None? {
      return InvalidRequest;
    }
    var n := NewComment(newId, req.value, now);
    var cs := store.comments;
    if IsReply(req.value) {
      var parentIndex := FindIndex(cs, req.value.parentId.value);
      assert parentIndex == TopIndex(cs, req.value.parentId.value);
      if parentIndex >= 0 {
        store.comments := cs[parentIndex := cs[parentIndex].(replies := cs[parentIndex].replies + [n])];
      } else {
        return ParentNotFound;
      }
    } else {
      store.comments := cs + [n];
    }
    return Created(n);
  }

  lemma IdsSingle(n: Comment)
    requires n.replies == []
    ensures Ids([n]) == [n.id]
  {
    IdsCons([n]);
    assert [n][1..] == [];
  }

  /** Appending a reply to comment `k` adds exactly the reply's id to the ids of the tree. */
  lemma IdsAppendReply(cs: seq<Comment>, k: nat, n: Comment)
    requires k < |cs| && n.replies == []
    ensures multiset(Ids(cs[k := cs[k].(replies := cs[k].replies + [n])])) == multiset(Ids(cs)) + multiset{n.id}
  {
    var c := cs[k];
    var c' := c.(replies := c.replies + [n]);
    var r := cs[k := c'];
    assert cs == cs[..k] + [c] + cs[k + 1..];
    assert r == cs[..k] + [c'] + cs[k + 1..];
    IdsAppend(cs[..k] + [c], cs[k + 1..]);
    IdsAppend(cs[..k], [c]);
    IdsAppend(cs[..k] + [c'], cs[k + 1..]);
    IdsAppend(cs[..k], [c']);
    IdsCons([c]);
    IdsCons([c']);
    assert [c][1..] == [] && [c'][1..] == [];
    IdsAppend(c.replies, [n]);
    IdsSingle(n);
  }

  /** A successful post adds exactly one comment, the new one, to the tree. */
  lemma PostAddsOne(cs: seq<Comment>, req: PostRequest, n: Comment)
    requires n.replies == [] && Posted(cs, req, n).Some?
    ensures multiset(Ids(Posted(cs, req, n).value)) == multiset(Ids(cs)) + multiset{n.id}
  {
    if IsReply(req) {
      IdsAppendReply(cs, TopIndex(cs, req.parentId.value), n);
    } else {
      IdsAppend(cs, [n]);
      IdsSingle(n);
    }
  }

  /** A new top-level comment is listed last by GET for its page. */
  lemma PostTopLevelListed(cs: seq<Comment>, req: PostRequest, n: Comment)
    requires !IsReply(req) && n.slug == req.slug && req.slug != []
    ensures var after := Posted(cs, req, n).value;
            Get(after, Some(req.slug)) == Comments(BySlug(cs, req.slug) + [n])
  {
    assert Posted(cs, req, n).value == cs + [n];
    BySlugAppend(cs, [n], req.slug);
    assert [n][1..] == [];
    assert BySlug([n], req.slug) == [n] + BySlug([], req.slug);
  }

  lemma {:induction false} BySlugAppend(a: seq<Comment>, b: seq<Comment>, slug: string)
    ensures BySlug(a + b, slug) == BySlug(a, slug) + BySlug(b, slug)
  {
    if a == [] {
      assert a + b == b;
    } else {
      var head := if a[0].slug == slug then [a[0]] else [];
      assert (a + b)[0] == a[0] && (a + b)[1..] == a[1..] + b;
      calc {
        BySlug(a + b, slug);
        head + BySlug(a[1..] + b, slug);
        { BySlugAppend(a[1..], b, slug); }
        head + (BySlug(a[1..], slug) + BySlug(b, slug));
        (head + BySlug(a[1..], slug)) + BySlug(b, slug);
        BySlug(a, slug) + BySlug(b, slug);
      }
    }
  }

  // ---------------------------------------------------------------------------------------------
  // Replies to replies

  /**
   * Only top-level comments can be parents: a reply to a reply is refused as "parent not found",
   * although the comment list offers a reply button on replies too.
   */
  lemma ReplyToReplyRefused(n: Comment)
    ensures var reply := Comment("r", "s", "c", "a", 0, 0, [], [], false, None);
            var top := Comment("t", "s", "c", "a", 0, 0, [reply], [], false, None);
            var req := PostRequest("s", "c", "a", Some("r"));
            "r" in Ids([top]) && Posted([top], req, n).None?
  {
    var reply := Comment("r", "s", "c", "a", 0, 0, [], [], false, None);
    var top := Comment("t", "s", "c", "a", 0, 0, [reply], [], false, None);
    IdsCons([top]);
    IdsCons([reply]);
    assert [top][1..] == [] && [reply][1..] == [];
  }

  /** The reply as evidently intended: appended to the first comment anywhere in the tree with the id. */
  function AddReplyFirst(cs: seq<Comment>, id: string, n: Comment): seq<Comment> {
    if cs == [] then []
    else if cs[0].id == id then [cs[0].(replies := cs[0].replies + [n])] + cs[1..]
    else if id in Ids(cs[0].replies) then [cs[0].(replies := AddReplyFirst(cs[0].replies, id, n))] + cs[1..]
    else [cs[0]] + AddReplyFirst(cs[1..], id, n)
  }

  /** The corrected store update: a reply can be attached to any comment in the tree. */
  function PostedAnywhere(cs: seq<Comment>, req: PostRequest, n: Comment): Option<seq<Comment>> {
    if IsReply(req) then
      if req.parentId.value in Ids(cs) then Some(AddReplyFirst(cs, req.parentId.value, n)) else None
    else Some(cs + [n])
  }

  lemma {:induction false} AddReplyFirstIds(cs: seq<Comment>, id: string, n: Comment)
    requires id in Ids(cs) && n.replies == []
    ensures multiset(Ids(AddReplyFirst(cs, id, n))) == multiset(Ids(cs)) + multiset{n.id}
  {
    var r := AddReplyFirst(cs, id, n);
    IdsCons(cs);
    IdsCons(r);
    if cs[0].id == id {
      assert r[0] == cs[0].(replies := cs[0].replies + [n]) && r[1..] == cs[1..];
      IdsAppend(cs[0].replies, [n]);
      IdsSingle(n);
    } else if id in Ids(cs[0].replies) {
      AddReplyFirstIds(cs[0].replies, id, n);
      assert r[0] == cs[0].(replies := AddReplyFirst(cs[0].replies, id, n)) && r[1..] == cs[1..];
    } else {
      AddReplyFirstIds(cs[1..], id, n);
      assert r[0] == cs[0] && r[1..] == AddReplyFirst(cs[1..], id, n);
    }
  }

  /**
   * With the correction, a reply to any comment in the tree is accepted and adds exactly the new
   * comment; only an id absent from the whole tree is refused.
   */
  lemma PostedAnywhereAccepts(cs: seq<Comment>, req: PostRequest, n: Comment)
    requires n.replies == []
    ensures PostedAnywhere(cs, req, n).None? <==> IsReply(req) && req.parentId.value !in Ids(cs)
    ensures PostedAnywhere(cs, req, n).Some? ==>
              multiset(Ids(PostedAnywhere(cs, req, n).value)) == multiset(Ids(cs)) + multiset{n.id}
  {
    if IsReply(req) && req.parentId.value in Ids(cs) {
      AddReplyFirstIds(cs, req.parentId.value, n);
    } else if !IsReply(req) {
      IdsAppend(cs, [n]);
      IdsSingle(n);
    }
  }

  /** Where the top level already holds the parent, the correction changes nothing. */
  lemma {:induction false} PostedAnywhereAgrees(cs: seq<Comment>, req: PostRequest, n: Comment)
    requires Posted(cs, req, n).Some? && Distinct(Ids(cs))
    ensures PostedAnywhere(cs, req, n) == Posted(cs, req, n)
  {
    if IsReply(req) {
      var id := req.parentId.value;
      var k := TopIndex(cs, id);
      AddReplyTop(cs, k, id, n);
    }
  }

  lemma {:induction false} AddReplyTop(cs: seq<Comment>, k: nat, id: string, n: Comment)
    requires k < |cs| && cs[k].id == id && forall j | 0 <= j < k :: cs[j].id != id
    requires Distinct(Ids(cs))
    ensures id in Ids(cs)
    ensures AddReplyFirst(cs, id, n) == cs[k := cs[k].(replies := cs[k].replies + [n])]
  {
    IdsCons(cs);
    if k == 0 {
      assert Ids(cs)[0] == id;
    } else {
      DistinctParts(cs);
      AddReplyTop(cs[1..], k - 1, id, n);
      var r := AddReplyFirst(cs, id, n);
      assert r == [cs[0]] + AddReplyFirst(cs[1..], id, n);
    }
  }

  /** In a forest with distinct ids, the first comment's subtree and the rest share no id. */
  lemma DistinctParts(cs: seq<Comment>)
    requires cs != [] && Distinct(Ids(cs))
    ensures Distinct(Ids(cs[1..]))
    ensures forall x | x in Ids(cs[0].replies) :: x !in Ids(cs[1..])
  {
    IdsCons(cs);
    var a, b := [cs[0].id] + Ids(cs[0].replies), Ids(cs[1..]);
    assert Ids(cs) == a + b;
    forall x | x in Ids(cs[0].replies) ensures x !in b {
      var i :| 0 <= i < |Ids(cs[0].replies)| && Ids(cs[0].replies)[i] == x;
      assert Ids(cs)[1 + i] == x;
      forall j | 0 <= j < |b| ensures b[j] != x {
        assert Ids(cs)[|a| + j] == b[j];
      }
    }
    forall i, j | 0 <= i < j < |b| ensures b[i] != b[j] {
      assert Ids(cs)[|a| + i] == b[i] && Ids(cs)[|a| + j] == b[j];
    }
  }
}
