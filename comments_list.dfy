/**
 * The comment thread shown under a document: the relative date of each comment, the nesting of
 * replies with a reply button only on the first two levels, and the per-comment like counter.
 */
module CommentsList {
  import opened Wrappers
  import opened Seqs

  // ---------------------------------------------------------------------------------------------
  // Relative dates

  const HourMs: int := 3_600_000
  const DayMs: int := 86_400_000

  /** What `formatDate` shows. `OnDate` stands for the locale's rendering of the creation date. */
  datatype DateLabel = JustNow | HoursAgo(hours: int) | DaysAgo(days: int) | OnDate(date: int)

  /**
   * `formatDate` for a comment created at `created`, seen at `now` (both in milliseconds). The
   * whole hours elapsed are `Math.floor(diff / HourMs)`, which for a positive divisor is Dafny's
   * `/`. A date in the future shows as "Just now".
   */
  lemma HoursBracket(diff: int)
    ensures (diff / HourMs) * HourMs <= diff < (diff / HourMs + 1) * HourMs
  {
  }

  lemma DaysBracket(h: int)
    ensures (h / 24) * DayMs == ((h / 24) * 24) * HourMs
    ensures (h / 24 + 1) * DayMs == ((h / 24) * 24 + 24) * HourMs
    ensures (h / 24) * 24 <= h < (h / 24) * 24 + 24
  {
  }

  function FormatDate(created: int, now: int): (l: DateLabel)
    ensures l.JustNow? <==> now - created < HourMs
    ensures l.HoursAgo? <==> HourMs <= now - created < DayMs
    ensures l.DaysAgo? <==> DayMs <= now - created < 7 * DayMs
    ensures l.OnDate? <==> 7 * DayMs <= now - created
    ensures l.HoursAgo? ==> 1 <= l.hours < 24 && l.hours * HourMs <= now - created < (l.hours + 1) * HourMs
    ensures l.DaysAgo? ==> 1 <= l.days <= 6 && l.days * DayMs <= now - created < (l.days + 1) * DayMs
    ensures l.OnDate? ==> l.date == created
  {
    var diff := now - created;
    var h := diff / HourMs;
    HoursBracket(diff);
    if h < 1 then JustNow
    else if h < 24 then HoursAgo(h)
    else if h < 168 then
      DaysBracket(h);
      DaysAgo(h / 24)
    else OnDate(created)
  }

  /** The label never gets coarser as time passes: hours, then days, then a date. */
  lemma FormatDateOrder(created: int, now: int, later: int)
    requires now <= later
    ensures !FormatDate(created, now).JustNow? ==> !FormatDate(created, later).JustNow?
    ensures FormatDate(created, now).DaysAgo? ==> FormatDate(created, later).DaysAgo? || FormatDate(created, later).OnDate?
    ensures FormatDate(created, now).OnDate? ==> FormatDate(created, later).OnDate?
    ensures FormatDate(created, now).DaysAgo? && FormatDate(created, later).DaysAgo? ==>
            FormatDate(created, now).days <= FormatDate(created, later).days
  {
    var a, b := FormatDate(created, now), FormatDate(created, later);
    if a.DaysAgo? && b.DaysAgo? {
      assert a.days * DayMs <= now - created < (b.days + 1) * DayMs;
    }
  }

  // ---------------------------------------------------------------------------------------------
  // The thread

  /** A comment as the client receives it: replies nested, an optional parent id. */
  datatype Item = Item(id: string, createdAt: int, likes: Option<int>, replies: seq<Item>, parentId: Option<string>)

  /** Replies can be written on the top level and on the first level of replies only. */
  const ReplyDepthLimit: nat := 2

  predicate CanReply(depth: nat) {
    depth < ReplyDepthLimit
  }

  /** One rendered comment: its nesting depth, the like count it starts with, and its reply button. */
  datatype Row = Row(id: string, depth: nat, likes: int, replyButton: bool)

  /** `likes || 0`: an absent count shows as 0. */
  function RowOf(c: Item, depth: nat): Row {
    Row(c.id, depth, c.likes.GetOr(0), CanReply(depth))
  }

  /** `CommentItem` for each of `cs` at `depth`, each followed by its replies one level deeper. */
  function Rows(cs: seq<Item>, depth: nat): seq<Row> {
    if cs == [] then [] else [RowOf(cs[0], depth)] + Rows(cs[0].replies, depth + 1) + Rows(cs[1..], depth)
  }

  /** `!comment.parentId`: no parent id, or the empty string, which JavaScript treats as false. */
  predicate IsTopLevel(c: Item) {
    c.parentId.None? || c.parentId.value == []
  }

  /** The comments rendered at the top: those whose parent id is absent or empty, in order. */
  function TopLevel(cs: seq<Item>): (r: seq<Item>)
    ensures |r| <= |cs|
    ensures forall c | c in r :: c in cs && (c.parentId.None? || c.parentId.value == [])
    ensures forall c | c in cs && (c.parentId.None? || c.parentId.value == []) :: c in r
  {
    if cs == [] then []
    else (if IsTopLevel(cs[0]) then [cs[0]] else []) + TopLevel(cs[1..])
  }

  /** The whole rendered thread. */
  function View(cs: seq<Item>): seq<Row> {
    Rows(TopLevel(cs), 0)
  }

  /** The rows at exactly depth `d`, in order. */
  function AtDepth(rows: seq<Row>, d: nat): seq<Row> {
    if rows == [] then [] else (if rows[0].depth == d then [rows[0]] else []) + AtDepth(rows[1..], d)
  }

  /** The rows of `cs` themselves at depth `d`, without their replies. */
  function Heads(cs: seq<Item>, d: nat): (r: seq<Row>)
    ensures |r| == |cs|
  {
    if cs == [] then [] else [RowOf(cs[0], d)] + Heads(cs[1..], d)
  }

  lemma {:induction false} AtDepthAppend(a: seq<Row>, b: seq<Row>, d: nat)
    ensures AtDepth(a + b, d) == AtDepth(a, d) + AtDepth(b, d)
  {
    if a != [] {
      var r, t := a[0], a[1..];
      assert a == [r] + t && a + b == [r] + (t + b);
      AtDepthAppend(t, b, d);
      AtDepthCons(r, t + b, d);
      AtDepthCons(r, t, d);
      SeqAssoc(if r.depth == d then [r] else [], AtDepth(t, d), AtDepth(b, d));
    } else {
      assert a + b == b;
    }
  }

  lemma AtDepthCons(r: Row, t: seq<Row>, d: nat)
    ensures AtDepth([r] + t, d) == (if r.depth == d then [r] else []) + AtDepth(t, d)
  {
    assert ([r] + t)[0] == r && ([r] + t)[1..] == t;
  }

  lemma {:induction false} AtDepthNone(rows: seq<Row>, d: nat)
    requires forall r | r in rows :: r.depth != d
    ensures AtDepth(rows, d) == []
  {
    if rows != [] {
      assert rows[0] in rows;
      AtDepthNone(rows[1..], d);
    }
  }

  /** Every row lies at `depth` or deeper, and has a reply button exactly when it is shallower than 2. */
  lemma {:induction false} RowsDepth(cs: seq<Item>, depth: nat)
    ensures forall r | r in Rows(cs, depth) :: r.depth >= depth && (r.replyButton <==> r.depth < 2)
  {
    if cs != [] {
      RowsDepth(cs[0].replies, depth + 1);
      RowsDepth(cs[1..], depth);
    }
  }

  /** The rows at a list's own depth are exactly its comments, in order: replies sit one level below. */
  lemma {:induction false} RowsHeads(cs: seq<Item>, depth: nat)
    ensures AtDepth(Rows(cs, depth), depth) == Heads(cs, depth)
  {
    if cs != [] {
      var sub := Rows(cs[0].replies, depth + 1);
      var rest := Rows(cs[1..], depth);
      RowsDepth(cs[0].replies, depth + 1);
      AtDepthNone(sub, depth);
      RowsHeads(cs[1..], depth);
      AtDepthAppend([RowOf(cs[0], depth)] + sub, rest, depth);
      AtDepthAppend([RowOf(cs[0], depth)], sub, depth);
    }
  }

  /**
   * The top level of the rendered thread shows exactly the comments without a parent id, in order;
   * every row has a reply button if and only if it is on one of the first two levels.
   */
  lemma ViewShape(cs: seq<Item>)
    ensures AtDepth(View(cs), 0) == Heads(TopLevel(cs), 0)
    ensures forall r | r in View(cs) :: r.replyButton <==> r.depth < ReplyDepthLimit
  {
    RowsHeads(TopLevel(cs), 0);
    RowsDepth(TopLevel(cs), 0);
  }

  /** The replies of a rendered comment are rendered one level below it, each with its own row. */
  lemma RepliesOneDeeper(c: Item, depth: nat)
    ensures Rows([c], depth) == [RowOf(c, depth)] + Rows(c.replies, depth + 1)
    ensures AtDepth(Rows(c.replies, depth + 1), depth + 1) == Heads(c.replies, depth + 1)
  {
    assert [c][1..] == [];
    RowsHeads(c.replies, depth + 1);
  }

  // ---------------------------------------------------------------------------------------------
  // Per-comment state

  /** The state of one `CommentItem`: its shown like count and whether its reply form is open. */
  class CommentItem {
    var likes: int
    var showReplyForm: bool

    constructor (c: Item)
      ensures likes == c.likes.GetOr(0) && !showReplyForm
    {
      likes := c.likes.GetOr(0);
      showReplyForm := false;
    }

    /** A like adds exactly one to the shown count; nothing is sent to the server. */
    method HandleLike()
      modifies this
      ensures likes == old(likes) + 1
      ensures showReplyForm == old(showReplyForm)
    {
      likes := likes + 1;
    }

    /** The reply button toggles the reply form. */
    method HandleReply()
      modifies this
      ensures showReplyForm == !old(showReplyForm)
      ensures likes == old(likes)
    {
      showReplyForm := !showReplyForm;
    }
  }

  // ---------------------------------------------------------------------------------------------
  // The list

  /**
   * The outcome of fetching a document's comments: a JSON body with an optional `comments` array,
   * a refusal with an optional `error` message, or a failure (network or JSON) carrying a message.
   */
  datatype ListReply = Listed(comments: Option<seq<Item>>) | Refused(error: Option<string>) | Failed(message: string)

  /** The state of `CommentsList`. */
  class ThreadView {
    var comments: seq<Item>
    var loading: bool
    var error: string

    constructor ()
      ensures comments == [] && loading && error == []
    {
      comments := [];
      loading := true;
      error := [];
    }

    /**
     * `fetchComments`. A successful fetch replaces the comments but does not clear an earlier
     * error message; a refusal shows the server's message, or a fixed one when it has none.
     */
    method Fetch(reply: ListReply)
      modifies this
      ensures reply.Listed? ==> comments == reply.comments.GetOr([]) && error == old(error)
      ensures reply.Refused? ==> comments == old(comments)
      ensures reply.Refused? ==>
                error == (if reply.error.Some? && reply.error.value != [] then reply.error.value else "Failed to fetch comments")
      ensures reply.Failed? ==> comments == old(comments) && error == reply.message
      ensures !loading
    {
      loading := true;
      match reply {
        case Listed(cs) =>
          comments := cs.GetOr([]);
        case Refused(e) =>
          error := if e.Some? && e.value != [] then e.value else "Failed to fetch comments";
        case Failed(m) =>
          error := m;
      }
      loading := false;
    }
  }
}
