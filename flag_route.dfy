/** POST /api/comments/flag: a reader reports a comment anywhere in the tree for moderation. */
module FlagRoute {
  import opened Wrappers
  import opened Seqs
  import opened Json
  import opened CommentTree

  datatype FlagRequest = FlagRequest(commentId: string, reason: string)

  datatype FlagResponse = Flagged | InvalidRequest | CommentNotFound {
    function Status(): nat {
      match this
      case Flagged => 200
      case InvalidRequest => 400
      case CommentNotFound => 404
    }
  }

  /** The request schema: both fields are strings of at least one character. */
  function ParseRequest(commentId: Field, reason: Field): (r: Option<FlagRequest>)
    ensures r.Some? <==> StrAtLeast(commentId, 1) && StrAtLeast(reason, 1)
    ensures r.Some? ==> |r.value.commentId| >= 1 && |r.value.reason| >= 1
    ensures r.Some? ==> r.value.commentId == commentId.s && r.value.reason == reason.s
  {
    if StrAtLeast(commentId, 1) && StrAtLeast(reason, 1) then Some(FlagRequest(commentId.s, reason.s))
    else None
  }

  /** The flag recorded for a request; its random id and its time are supplied by the caller. */
  function NewFlag(flagId: string, req: FlagRequest, now: int): (f: Flag)
    ensures f.commentId == req.commentId && f.reason == req.reason
    ensures f.status == FlagPending && f.flaggedAt == now
  {
    Flag(flagId, req.commentId, req.reason, now, FlagPending)
  }

  /**
   * The handler's recursive search: walk the comments in order, flag the first one carrying `id`
   * and stop, otherwise descend into its replies before moving on.
   */
  method UpdateComment(cs: seq<Comment>, id: string, f: Flag) returns (found: bool, r: seq<Comment>)
    ensures found <==> id in Ids(cs)
    ensures r == EditFirst(cs, id, AddFlag(f))
    decreases cs
  {
    var i := 0;
    while i < |cs|
      invariant i <= |cs|
      invariant id !in Ids(cs[..i])
    {
      IdsPrefixStep(cs, i);
      assert cs == cs[..i + 1] + cs[i + 1..];
      IdsAppend(cs[..i + 1], cs[i + 1..]);
      if cs[i].id == id {
        EditFirstHere(cs, i, id, AddFlag(f));
        return true, cs[..i] + [ApplyEdit(cs[i], AddFlag(f))] + cs[i + 1..];
      }
      var sub;
      found, sub := UpdateComment(cs[i].replies, id, f);
      if found {
        EditFirstBelow(cs, i, id, AddFlag(f));
        return true, cs[..i] + [cs[i].(replies := sub)] + cs[i + 1..];
      }
      i := i + 1;
    }
    assert cs[..i] == cs;
    EditFirstAbsent(cs, id, AddFlag(f));
    return false, cs;
  }

  /** The request handler: validate, flag the comment, and write the store back only on success. */
  method Post(store: CommentFile, commentId: Field, reason: Field, flagId: string, now: int)
    returns (resp: FlagResponse)
    modifies store
    ensures resp == InvalidRequest <==> ParseRequest(commentId, reason).None?
    ensures resp == CommentNotFound <==>
              ParseRequest(commentId, reason).Some? && commentId.s !in Ids(old(store.comments))
    ensures resp == Flagged ==>
              store.comments == EditFirst(old(store.comments), commentId.s,
                                          AddFlag(NewFlag(flagId, ParseRequest(commentId, reason).value, now)))
    ensures resp != Flagged ==> store.comments == old(store.comments)
  {
    var req := ParseRequest(commentId, reason);
    if req.None? {
      return InvalidRequest;
    }
    var found, updated := UpdateComment(store.comments, req.value.commentId, NewFlag(flagId, req.value, now));
    if !found {
      return CommentNotFound;
    }
    store.comments := updated;
    return Flagged;
  }

  /** The number of flags on a list of comments. */
  function FlagTotal(ns: seq<Comment>): nat {
    if ns == [] then 0 else |ns[0].flags| + FlagTotal(ns[1..])
  }

  lemma {:induction false} FlagTotalUpdate(ns: seq<Comment>, k: nat, x: Comment)
    requires k < |ns|
    ensures FlagTotal(ns[k := x]) + |ns[k].flags| == FlagTotal(ns) + |x.flags|
  {
    if k > 0 {
      FlagTotalUpdate(ns[1..], k - 1, x);
      assert ns[k := x][1..] == ns[1..][k - 1 := x];
    }
  }

  /**
   * Flagging a comment that exists puts one more flag into the store, on that comment: the
   * first comment with the id in pre-order gets the pending flag appended, is marked flagged and
   * pending, and keeps everything else.
   */
  lemma FlagAddsOne(cs: seq<Comment>, id: string, f: Flag)
    requires id in Ids(cs)
    ensures var r := EditFirst(cs, id, AddFlag(f));
            FlagTotal(Nodes(r)) == FlagTotal(Nodes(cs)) + 1
    ensures var r := EditFirst(cs, id, AddFlag(f));
            var k := FirstIndex(Ids(cs), id);
            k < |Nodes(r)| && Nodes(r)[k].id == id && Nodes(r)[k].flags == Nodes(cs)[k].flags + [f] &&
            Nodes(r)[k].isFlagged && Nodes(r)[k].moderationStatus == Some(Pending)
  {
    EditFirstNodes(cs, id, AddFlag(f));
    IdsAreNodeIds(cs);
    var k := FirstIndex(Ids(cs), id);
    FlagTotalUpdate(Nodes(cs), k, ApplyEdit(Nodes(cs)[k], AddFlag(f)));
  }
}
