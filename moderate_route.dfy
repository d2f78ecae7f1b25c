/** POST /api/admin/moderate-comment: an administrator approves, rejects or dismisses a comment. */
module ModerateRoute {
  import opened Wrappers
  import opened Seqs
  import opened Json
  import opened CommentTree

  datatype ModerateResponse = Moderated(message: string) | InvalidRequest | CommentNotFound {
    function Status(): nat {
      match this
      case Moderated(_) => 200
      case InvalidRequest => 400
      case CommentNotFound => 404
    }
  }

  function ActionName(a: Action): string {
    match a
    case Approve => "approve"
    case Reject => "reject"
    case Dismiss => "dismiss"
  }

  /** The `action` field: exactly one of the three action names. */
  function ParseAction(f: Field): (r: Option<Action>)
    ensures r.Some? <==> f.Str? && f.s in {"approve", "reject", "dismiss"}
    ensures r.Some? ==> ActionName(r.value) == f.s
  {
    if f == Str("approve") then Some(Approve)
    else if f == Str("reject") then Some(Reject)
    else if f == Str("dismiss") then Some(Dismiss)
    else None
  }

  lemma ParseActionName(a: Action)
    ensures ParseAction(Str(ActionName(a))) == Some(a)
  {
  }

  /**
   * The handler's recursive search: moderate the first comment carrying `id` in depth-first
   * pre-order and stop.
   */
  method ModerateComment(cs: seq<Comment>, id: string, a: Action) returns (found: bool, r: seq<Comment>)
    ensures found <==> id in Ids(cs)
    ensures r == EditFirst(cs, id, Moderate(a))
    decreases cs
  {
    var i := 0;
    while i < |cs|
      invariant i <= |cs|
      invariant id !in Ids(cs[..i])
    {
      IdsPrefixStep(cs, i);
      assert cs == cs[..i + 1] + cs[i + 1..];
      IdsAppend(cs[..i + 1], cs[i + 1..]);
      if cs[i].id == id {
        EditFirstHere(cs, i, id, Moderate(a));
        return true, cs[..i] + [ApplyEdit(cs[i], Moderate(a))] + cs[i + 1..];
      }
      var sub;
      found, sub := ModerateComment(cs[i].replies, id, a);
      if found {
        EditFirstBelow(cs, i, id, Moderate(a));
        return true, cs[..i] + [cs[i].(replies := sub)] + cs[i + 1..];
      }
      i := i + 1;
    }
    assert cs[..i] == cs;
    EditFirstAbsent(cs, id, Moderate(a));
    return false, cs;
  }

  /** The confirmation message as written: the action name with a "d" appended. */
  function SuccessMessageAsWritten(a: Action): string {
    "Comment " + ActionName(a) + "d successfully"
  }

  /** The message as evidently intended: the past tense of each action. */
  function SuccessMessage(a: Action): (m: string)
    ensures a == Approve ==> m == SuccessMessageAsWritten(a)
  {
    match a
    case Approve => "Comment approved successfully"
    case Reject => "Comment rejected successfully"
    case Dismiss => "Comment dismissed successfully"
  }

  /** Only "approve" gives a past tense when "d" is appended. */
  lemma MessageAsWrittenMisspells()
    ensures SuccessMessageAsWritten(Reject) == "Comment rejectd successfully"
    ensures SuccessMessageAsWritten(Dismiss) == "Comment dismissd successfully"
    ensures SuccessMessageAsWritten(Reject) != SuccessMessage(Reject)
    ensures SuccessMessageAsWritten(Dismiss) != SuccessMessage(Dismiss)
  {
  }

  /** The three corrected messages are pairwise distinct. */
  lemma SuccessMessagesDistinct(a: Action, b: Action)
    ensures SuccessMessage(a) == SuccessMessage(b) <==> a == b
  {
  }

  /** The request handler: validate, moderate, and write the store back only on success. */
  method Post(store: CommentFile, commentId: Field, action: Field) returns (resp: ModerateResponse)
    modifies store
    ensures resp == InvalidRequest <==> !StrAtLeast(commentId, 1) || ParseAction(action).None?
    ensures resp == CommentNotFound <==>
              StrAtLeast(commentId, 1) && ParseAction(action).Some? && commentId.s !in Ids(old(store.comments))
    ensures resp.Moderated? ==>
              resp.message == SuccessMessageAsWritten(ParseAction(action).value) &&
              store.comments == EditFirst(old(store.comments), commentId.s, Moderate(ParseAction(action).value))
    ensures !resp.Moderated? ==> store.comments == old(store.comments)
  {
    var a := ParseAction(action);
    if !StrAtLeast(commentId, 1) || a.None? {
      return InvalidRequest;
    }
    var found, updated := ModerateComment(store.comments, commentId.s, a.value);
    if !found {
      return CommentNotFound;
    }
    store.comments := updated;
    return Moderated(SuccessMessageAsWritten(a.value));
  }

  /**
   * What moderation does to the comment it finds: the recorded status, every flag's status and,
   * on rejection, the removed content and the cleared flag; everything else stays.
   */
  lemma ModerateTarget(cs: seq<Comment>, id: string, a: Action)
    requires id in Ids(cs)
    ensures var r := EditFirst(cs, id, Moderate(a));
            var k := FirstIndex(Ids(cs), id);
            var before := Nodes(cs)[k];
            k < |Nodes(r)| && Nodes(r)[k].id == id &&
            Nodes(r)[k].moderationStatus == Some(if a == Reject then Rejected else Approved) &&
            |Nodes(r)[k].flags| == |before.flags| &&
            (forall j :: 0 <= j < |before.flags| ==>
               Nodes(r)[k].flags[j] == before.flags[j].(status := if a == Dismiss then FlagDismissed else FlagReviewed)) &&
            Nodes(r)[k].content == (if a == Reject then RemovedContent else before.content) &&
            Nodes(r)[k].isFlagged == (a != Reject && before.isFlagged) &&
            Nodes(r)[k].author == before.author && Nodes(r)[k].likes == before.likes
  {
    EditFirstNodes(cs, id, Moderate(a));
    IdsAreNodeIds(cs);
  }
}
