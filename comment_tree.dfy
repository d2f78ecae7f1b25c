/**
 * The comment store shared by the comment, flag and moderation handlers: a forest of comments
 * whose replies nest to any depth, kept in one JSON file. An absent `replies` or `flags` list is
 * represented as the empty sequence (every handler treats the two alike), an absent `isFlagged`
 * as false and an absent `likes` as 0. Timestamps are milliseconds since the epoch.
 */
module CommentTree {
  import opened Wrappers
  import opened Seqs

  datatype FlagStatus = FlagPending | FlagReviewed | FlagDismissed

  datatype Flag = Flag(id: string, commentId: string, reason: string, flaggedAt: int, status: FlagStatus)

  datatype ModerationStatus = Pending | Approved | Rejected

  datatype Comment = Comment(
    id: string,
    slug: string,
    content: string,
    author: string,
    createdAt: int,
    likes: int,
    replies: seq<Comment>,
    flags: seq<Flag>,
    isFlagged: bool,
    moderationStatus: Option<ModerationStatus>)

  /** The `comments` array of the store file; an unreadable or malformed file reads as `[]`. */
  class CommentFile {
    var comments: seq<Comment>

    constructor (initial: seq<Comment>)
      ensures comments == initial
    {
      comments := initial;
    }
  }

  /** Moderation actions accepted by the moderation handler. */
  datatype Action = Approve | Reject | Dismiss

  /** What a handler does to the one comment it finds. */
  datatype Edit = AddFlag(flag: Flag) | Moderate(action: Action)

  const RemovedContent: string := "[Content removed by moderator]"

  /** The moderation status an action records (a dismissal counts as an approval). */
  function StatusAfter(a: Action): ModerationStatus {
    if a == Reject then Rejected else Approved
  }

  /** The status every flag of a moderated comment receives. */
  function FlagStatusAfter(a: Action): FlagStatus {
    if a == Dismiss then FlagDismissed else FlagReviewed
  }

  function ReviewFlags(flags: seq<Flag>, a: Action): seq<Flag> {
    seq(|flags|, i requires 0 <= i < |flags| => flags[i].(status := FlagStatusAfter(a)))
  }

  /** The in-place update a handler applies to the matching comment; replies are never touched. */
  function ApplyEdit(c: Comment, e: Edit): Comment {
    match e
    case AddFlag(f) =>
      c.(flags := c.flags + [f], isFlagged := true, moderationStatus := Some(Pending))
    case Moderate(a) =>
      var reviewed := c.(moderationStatus := Some(StatusAfter(a)), flags := ReviewFlags(c.flags, a));
      if a == Reject then reviewed.(content := RemovedContent, isFlagged := false) else reviewed
  }

  /** Every comment of the forest, each with its subtree, in depth-first pre-order. */
  function Preorder(cs: seq<Comment>): seq<Comment> {
    if cs == [] then [] else [cs[0]] + Preorder(cs[0].replies) + Preorder(cs[1..])
  }

  /** A comment's own fields, without its replies. */
  function Shallow(c: Comment): Comment {
    c.(replies := [])
  }

  function IdsOf(ns: seq<Comment>): seq<string> {
    seq(|ns|, i requires 0 <= i < |ns| => ns[i].id)
  }

  function ShallowAll(ns: seq<Comment>): seq<Comment> {
    seq(|ns|, i requires 0 <= i < |ns| => Shallow(ns[i]))
  }

  /** The ids of all comments of the forest, in pre-order. */
  function Ids(cs: seq<Comment>): seq<string> {
    IdsOf(Preorder(cs))
  }

  /** The own fields of all comments of the forest, in pre-order. */
  function Nodes(cs: seq<Comment>): seq<Comment> {
    ShallowAll(Preorder(cs))
  }

  /** The nesting structure alone: which comment has how many replies, recursively. */
  datatype Skeleton = Node(kids: seq<Skeleton>)

  function Shape(cs: seq<Comment>): seq<Skeleton> {
    if cs == [] then [] else [Node(Shape(cs[0].replies))] + Shape(cs[1..])
  }

  /**
   * The common traversal of the flag and moderation handlers: apply `e` to the first comment
   * with id `id` in depth-first pre-order, leaving everything else as it is.
   */
  function EditFirst(cs: seq<Comment>, id: string, e: Edit): seq<Comment> {
    if cs == [] then []
    else if cs[0].id == id then [ApplyEdit(cs[0], e)] + cs[1..]
    else if id in Ids(cs[0].replies) then [cs[0].(replies := EditFirst(cs[0].replies, id, e))] + cs[1..]
    else [cs[0]] + EditFirst(cs[1..], id, e)
  }

  // ---------------------------------------------------------------------------------------------
  // Pre-order structure

  lemma PreorderCons(c: Comment, rest: seq<Comment>)
    ensures Preorder([c] + rest) == [c] + Preorder(c.replies) + Preorder(rest)
  {
    assert ([c] + rest)[0] == c && ([c] + rest)[1..] == rest;
  }

  lemma {:induction false} PreorderAppend(a: seq<Comment>, b: seq<Comment>)
    ensures Preorder(a + b) == Preorder(a) + Preorder(b)
  {
    if a == [] {
      assert a + b == b;
    } else {
      var c, t := a[0], a[1..];
      assert a == [c] + t && a + b == [c] + (t + b);
      PreorderCons(c, t + b);
      PreorderCons(c, t);
      PreorderAppend(t, b);
    }
  }

  lemma IdsOfAppend(a: seq<Comment>, b: seq<Comment>)
    ensures IdsOf(a + b) == IdsOf(a) + IdsOf(b)
  {
  }

  lemma ShallowAllAppend(a: seq<Comment>, b: seq<Comment>)
    ensures ShallowAll(a + b) == ShallowAll(a) + ShallowAll(b)
  {
  }

  lemma IdsCons(cs: seq<Comment>)
    requires cs != []
    ensures Ids(cs) == [cs[0].id] + Ids(cs[0].replies) + Ids(cs[1..])
  {
    var p1, p2 := Preorder(cs[0].replies), Preorder(cs[1..]);
    IdsOfAppend([cs[0]] + p1, p2);
    IdsOfAppend([cs[0]], p1);
  }

  lemma NodesCons(cs: seq<Comment>)
    requires cs != []
    ensures Nodes(cs) == [Shallow(cs[0])] + Nodes(cs[0].replies) + Nodes(cs[1..])
  {
    var p1, p2 := Preorder(cs[0].replies), Preorder(cs[1..]);
    ShallowAllAppend([cs[0]] + p1, p2);
    ShallowAllAppend([cs[0]], p1);
  }

  lemma IdsAppend(a: seq<Comment>, b: seq<Comment>)
    ensures Ids(a + b) == Ids(a) + Ids(b)
  {
    PreorderAppend(a, b);
    IdsOfAppend(Preorder(a), Preorder(b));
  }

  /** The ids in pre-order are the ids of the pre-order nodes. */
  lemma IdsAreNodeIds(cs: seq<Comment>)
    ensures Ids(cs) == IdsOf(Nodes(cs))
  {
  }

  // ---------------------------------------------------------------------------------------------
  // EditFirst: what the flag and moderation handlers change

  /** Comments before the first match are passed over unchanged. */
  lemma {:induction false} EditFirstSkip(a: seq<Comment>, b: seq<Comment>, id: string, e: Edit)
    requires id !in Ids(a)
    ensures EditFirst(a + b, id, e) == a + EditFirst(b, id, e)
  {
    if a == [] {
      assert a + b == b;
    } else {
      var c, t := a[0], a[1..];
      assert a == [c] + t && a + b == [c] + (t + b);
      IdsCons(a);
      EditFirstSkip(t, b, id, e);
      EditFirstPast(c, t + b, id, e);
      SeqAssoc([c], t, EditFirst(b, id, e));
    }
  }

  lemma EditFirstPast(c: Comment, rest: seq<Comment>, id: string, e: Edit)
    requires c.id != id && id !in Ids(c.replies)
    ensures EditFirst([c] + rest, id, e) == [c] + EditFirst(rest, id, e)
  {
    assert ([c] + rest)[0] == c && ([c] + rest)[1..] == rest;
  }

  /** An id that occurs nowhere in the tree leaves the tree unchanged. */
  lemma EditFirstAbsent(cs: seq<Comment>, id: string, e: Edit)
    requires id !in Ids(cs)
    ensures EditFirst(cs, id, e) == cs
  {
    EditFirstSkip(cs, [], id, e);
    assert cs + [] == cs;
  }

  /** The nesting structure never changes. */
  lemma {:induction false} EditFirstShape(cs: seq<Comment>, id: string, e: Edit)
    ensures Shape(EditFirst(cs, id, e)) == Shape(cs)
  {
    if cs != [] {
      var r := EditFirst(cs, id, e);
      if cs[0].id == id {
        assert r[1..] == cs[1..];
      } else if id in Ids(cs[0].replies) {
        EditFirstShape(cs[0].replies, id, e);
        assert r[1..] == cs[1..];
      } else {
        EditFirstShape(cs[1..], id, e);
        assert r[1..] == EditFirst(cs[1..], id, e);
      }
    }
  }

  lemma SeqUpdateRight<T>(a: seq<T>, b: seq<T>, i: nat, x: T)
    requires |a| <= i < |a| + |b|
    ensures (a + b)[i := x] == a + b[i - |a| := x]
  {
  }

  lemma SeqUpdateHead<T>(a: T, b: T, t1: seq<T>, t2: seq<T>)
    ensures ([a] + t1 + t2)[0 := b] == [b] + t1 + t2
  {
  }

  lemma SeqUpdateLeft<T>(a: seq<T>, b: seq<T>, i: nat, x: T)
    requires i < |a|
    ensures (a + b)[i := x] == a[i := x] + b
  {
  }

  /** Where the first `id` sits in the pre-order of `cs`, by which part of `cs` holds it. */
  lemma FirstIndexCons(cs: seq<Comment>, id: string)
    requires cs != [] && id in Ids(cs)
    ensures cs[0].id == id ==> FirstIndex(Ids(cs), id) == 0
    ensures cs[0].id != id && id in Ids(cs[0].replies) ==>
              FirstIndex(Ids(cs), id) == 1 + FirstIndex(Ids(cs[0].replies), id)
    ensures cs[0].id != id && id !in Ids(cs[0].replies) ==>
              id in Ids(cs[1..]) &&
              FirstIndex(Ids(cs), id) == 1 + |Ids(cs[0].replies)| + FirstIndex(Ids(cs[1..]), id)
  {
    var c, rest := cs[0], cs[1..];
    var i1, i2 := Ids(c.replies), Ids(rest);
    assert Ids(cs) == [c.id] + (i1 + i2) by {
      IdsCons(cs);
    }
    FirstIndexConcat([c.id], i1 + i2, id);
    if c.id != id {
      FirstIndexConcat(i1, i2, id);
    }
  }

  lemma NodesIdsLength(cs: seq<Comment>)
    ensures |Nodes(cs)| == |Ids(cs)|
  {
  }

  lemma NodesConsOf(c: Comment, rest: seq<Comment>)
    ensures Nodes([c] + rest) == [Shallow(c)] + Nodes(c.replies) + Nodes(rest)
  {
    NodesCons([c] + rest);
    assert ([c] + rest)[0] == c && ([c] + rest)[1..] == rest;
  }

  /** Replacing one comment's replies changes the pre-order nodes only inside its subtree. */
  lemma NodesReplaceReplies(c: Comment, sub: seq<Comment>, rest: seq<Comment>, k': nat, x: Comment)
    requires k' < |Nodes(c.replies)|
    requires Nodes(sub) == Nodes(c.replies)[k' := x]
    ensures Nodes([c.(replies := sub)] + rest) == Nodes([c] + rest)[1 + k' := x]
  {
    var c' := c.(replies := sub);
    var h, n1, n2 := [Shallow(c)], Nodes(c.replies), Nodes(rest);
    assert Shallow(c') == Shallow(c);
    calc {
      Nodes([c'] + rest);
      { NodesConsOf(c', rest); }
      h + n1[k' := x] + n2;
      { SeqUpdateLeft(n1, n2, k', x); }
      h + (n1 + n2)[k' := x];
      { SeqUpdateRight(h, n1 + n2, 1 + k', x); }
      (h + (n1 + n2))[1 + k' := x];
      { assert h + (n1 + n2) == h + n1 + n2; }
      (h + n1 + n2)[1 + k' := x];
      { NodesConsOf(c, rest); }
      Nodes([c] + rest)[1 + k' := x];
    }
  }

  lemma EditNodesDown(cs: seq<Comment>, id: string, e: Edit, k': nat, x: Comment)
    requires cs != [] && cs[0].id != id && id in Ids(cs[0].replies)
    requires k' < |Nodes(cs[0].replies)|
    requires Nodes(EditFirst(cs[0].replies, id, e)) == Nodes(cs[0].replies)[k' := x]
    ensures Nodes(EditFirst(cs, id, e)) == Nodes(cs)[1 + k' := x]
  {
    assert cs == [cs[0]] + cs[1..];
    NodesReplaceReplies(cs[0], EditFirst(cs[0].replies, id, e), cs[1..], k', x);
  }

  lemma EditNodesRight(cs: seq<Comment>, id: string, e: Edit, k'': nat, x: Comment)
    requires cs != [] && cs[0].id != id && id !in Ids(cs[0].replies)
    requires k'' < |Nodes(cs[1..])|
    requires Nodes(EditFirst(cs[1..], id, e)) == Nodes(cs[1..])[k'' := x]
    ensures Nodes(EditFirst(cs, id, e)) == Nodes(cs)[1 + |Nodes(cs[0].replies)| + k'' := x]
  {
    var c, rest := cs[0], cs[1..];
    var r := EditFirst(cs, id, e);
    NodesCons(cs);
    assert r == [c] + EditFirst(rest, id, e);
    NodesCons(r);
    assert r[1..] == EditFirst(rest, id, e);
    SeqUpdateRight([Shallow(c)] + Nodes(c.replies), Nodes(rest), 1 + |Nodes(c.replies)| + k'', x);
  }

  lemma EditNodesDownAt(cs: seq<Comment>, id: string, e: Edit)
    requires cs != [] && id in Ids(cs) && cs[0].id != id && id in Ids(cs[0].replies)
    requires FirstIndex(Ids(cs[0].replies), id) < |Nodes(cs[0].replies)|
    requires var k' := FirstIndex(Ids(cs[0].replies), id);
             var n := Nodes(cs[0].replies);
             Nodes(EditFirst(cs[0].replies, id, e)) == n[k' := ApplyEdit(n[k'], e)]
    ensures FirstIndex(Ids(cs), id) < |Nodes(cs)|
    ensures var k := FirstIndex(Ids(cs), id);
            Nodes(EditFirst(cs, id, e)) == Nodes(cs)[k := ApplyEdit(Nodes(cs)[k], e)]
  {
    var k' := FirstIndex(Ids(cs[0].replies), id);
    assert FirstIndex(Ids(cs), id) == 1 + k' by {
      FirstIndexCons(cs, id);
    }
    var x := ApplyEdit(Nodes(cs[0].replies)[k'], e);
    assert 1 + k' < |Nodes(cs)| && Nodes(cs)[1 + k'] == Nodes(cs[0].replies)[k'] by {
      NodesCons(cs);
    }
    EditNodesDown(cs, id, e, k', x);
  }

  lemma RightIndex(cs: seq<Comment>, id: string)
    requires cs != [] && id in Ids(cs) && cs[0].id != id && id !in Ids(cs[0].replies)
    requires id in Ids(cs[1..])
    ensures FirstIndex(Ids(cs), id) == 1 + |Nodes(cs[0].replies)| + FirstIndex(Ids(cs[1..]), id)
  {
    FirstIndexCons(cs, id);
    NodesIdsLength(cs[0].replies);
  }

  lemma NodesRightAt(cs: seq<Comment>, k'': nat)
    requires cs != [] && k'' < |Nodes(cs[1..])|
    ensures 1 + |Nodes(cs[0].replies)| + k'' < |Nodes(cs)|
    ensures Nodes(cs)[1 + |Nodes(cs[0].replies)| + k''] == Nodes(cs[1..])[k'']
  {
    NodesCons(cs);
  }

  lemma EditNodesRightAt(cs: seq<Comment>, id: string, e: Edit)
    requires cs != [] && id in Ids(cs) && cs[0].id != id && id !in Ids(cs[0].replies)
    requires id in Ids(cs[1..])
    requires FirstIndex(Ids(cs[1..]), id) < |Nodes(cs[1..])|
    requires var k'' := FirstIndex(Ids(cs[1..]), id);
             var n := Nodes(cs[1..]);
             Nodes(EditFirst(cs[1..], id, e)) == n[k'' := ApplyEdit(n[k''], e)]
    ensures FirstIndex(Ids(cs), id) < |Nodes(cs)|
    ensures var k := FirstIndex(Ids(cs), id);
            Nodes(EditFirst(cs, id, e)) == Nodes(cs)[k := ApplyEdit(Nodes(cs)[k], e)]
  {
    var k'' := FirstIndex(Ids(cs[1..]), id);
    RightIndex(cs, id);
    NodesRightAt(cs, k'');
    EditNodesRight(cs, id, e, k'', ApplyEdit(Nodes(cs[1..])[k''], e));
  }

  lemma EditNodesHere(cs: seq<Comment>, id: string, e: Edit)
    requires cs != [] && id in Ids(cs) && cs[0].id == id
    ensures FirstIndex(Ids(cs), id) < |Nodes(cs)|
    ensures var k := FirstIndex(Ids(cs), id);
            Nodes(EditFirst(cs, id, e)) == Nodes(cs)[k := ApplyEdit(Nodes(cs)[k], e)]
  {
    FirstIndexCons(cs, id);
    var c, rest := cs[0], cs[1..];
    var c' := ApplyEdit(c, e);
    assert EditFirst(cs, id, e) == [c'] + rest;
    NodesCons(cs);
    NodesConsOf(c', rest);
    ShallowApplyEdit(c, e);
    SeqUpdateHead(Shallow(c), ApplyEdit(Shallow(c), e), Nodes(c.replies), Nodes(rest));
  }

  /** Editing a comment touches only its own fields. */
  lemma ShallowApplyEdit(c: Comment, e: Edit)
    ensures ApplyEdit(c, e).replies == c.replies
    ensures Shallow(ApplyEdit(c, e)) == ApplyEdit(Shallow(c), e)
  {
  }

  /**
   * Frame: listing the comments' own fields in pre-order, the edited tree differs from the old
   * one at exactly one place, the first comment carrying `id`, which is replaced by its edit.
   * Together with EditFirstShape this determines the new tree completely.
   */
  lemma {:induction false} EditFirstNodes(cs: seq<Comment>, id: string, e: Edit)
    requires id in Ids(cs)
    ensures FirstIndex(Ids(cs), id) < |Nodes(cs)|
    ensures var k := FirstIndex(Ids(cs), id);
            Nodes(EditFirst(cs, id, e)) == Nodes(cs)[k := ApplyEdit(Nodes(cs)[k], e)]
  {
    var c := cs[0];
    if c.id == id {
      EditNodesHere(cs, id, e);
    } else if id in Ids(c.replies) {
      EditFirstNodes(c.replies, id, e);
      EditNodesDownAt(cs, id, e);
    } else {
      FirstIndexCons(cs, id);
      EditFirstNodes(cs[1..], id, e);
      EditNodesRightAt(cs, id, e);
    }
  }

  /** Edits never change a comment's id, so the pre-order id list is unchanged. */
  lemma EditFirstIds(cs: seq<Comment>, id: string, e: Edit)
    ensures Ids(EditFirst(cs, id, e)) == Ids(cs)
  {
    if id in Ids(cs) {
      EditFirstNodes(cs, id, e);
      IdsAreNodeIds(cs);
      IdsAreNodeIds(EditFirst(cs, id, e));
    } else {
      EditFirstAbsent(cs, id, e);
    }
  }
  // ---------------------------------------------------------------------------------------------
  // Steps of the handlers' loops over one level of the forest

  /** Advancing the loop index past a comment adds that comment's subtree to the ids seen. */
  lemma IdsPrefixStep(cs: seq<Comment>, i: nat)
    requires i < |cs|
    ensures Ids(cs[..i + 1]) == Ids(cs[..i]) + [cs[i].id] + Ids(cs[i].replies)
  {
    assert cs[..i + 1] == cs[..i] + [cs[i]];
    IdsAppend(cs[..i], [cs[i]]);
    IdsCons([cs[i]]);
    assert [cs[i]][1..] == [];
  }

  /** The loop found the id on comment `i` itself. */
  lemma EditFirstHere(cs: seq<Comment>, i: nat, id: string, e: Edit)
    requires i < |cs| && id !in Ids(cs[..i]) && cs[i].id == id
    ensures EditFirst(cs, id, e) == cs[..i] + [ApplyEdit(cs[i], e)] + cs[i + 1..]
  {
    assert cs == cs[..i] + cs[i..];
    EditFirstSkip(cs[..i], cs[i..], id, e);
    assert cs[i..][0] == cs[i] && cs[i..][1..] == cs[i + 1..];
  }

  /** The loop found the id inside the replies of comment `i`. */
  lemma EditFirstBelow(cs: seq<Comment>, i: nat, id: string, e: Edit)
    requires i < |cs| && id !in Ids(cs[..i]) && cs[i].id != id && id in Ids(cs[i].replies)
    ensures EditFirst(cs, id, e)
            == cs[..i] + [cs[i].(replies := EditFirst(cs[i].replies, id, e))] + cs[i + 1..]
  {
    assert cs == cs[..i] + cs[i..];
    EditFirstSkip(cs[..i], cs[i..], id, e);
    assert cs[i..][0] == cs[i] && cs[i..][1..] == cs[i + 1..];
  }

  // ---------------------------------------------------------------------------------------------
  // Moderation

  lemma ApplyModerateTwice(c: Comment, a: Action)
    ensures ApplyEdit(ApplyEdit(c, Moderate(a)), Moderate(a)) == ApplyEdit(c, Moderate(a))
  {
    var once := ApplyEdit(c, Moderate(a));
    assert ReviewFlags(once.flags, a) == once.flags;
  }

  /** Moderating the same comment twice with the same action is the same as moderating it once. */
  lemma {:induction false} ModerateIdempotent(cs: seq<Comment>, id: string, a: Action)
    ensures EditFirst(EditFirst(cs, id, Moderate(a)), id, Moderate(a)) == EditFirst(cs, id, Moderate(a))
  {
    if cs != [] {
      var e := Moderate(a);
      var r := EditFirst(cs, id, e);
      if cs[0].id == id {
        ApplyModerateTwice(cs[0], a);
        assert r[0] == ApplyEdit(cs[0], e) && r[1..] == cs[1..];
      } else if id in Ids(cs[0].replies) {
        ModerateIdempotent(cs[0].replies, id, a);
        EditFirstIds(cs[0].replies, id, e);
        assert r[0] == cs[0].(replies := EditFirst(cs[0].replies, id, e)) && r[1..] == cs[1..];
      } else {
        ModerateIdempotent(cs[1..], id, a);
        assert r[0] == cs[0] && r[1..] == EditFirst(cs[1..], id, e);
      }
    }
  }
}
