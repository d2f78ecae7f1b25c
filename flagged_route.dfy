/** GET /api/admin/flagged-comments: every reported comment in the store, most recently flagged first. */
module FlaggedRoute {
  import opened Wrappers
  import opened Seqs
  import opened Sorting
  import opened CommentTree

  /** A comment the listing reports: marked flagged and carrying at least one flag. */
  predicate Reportable(c: Comment) {
    c.isFlagged && |c.flags| > 0
  }

  /** The reportable comments of a list, in order. */
  function Flagged(ns: seq<Comment>): (r: seq<Comment>)
    ensures forall c | c in r :: Reportable(c) && c in ns
    ensures |r| <= |ns|
  {
    if ns == [] then []
    else (if Reportable(ns[0]) then [ns[0]] else []) + Flagged(ns[1..])
  }

  /** The reportable comments of the forest, each with its replies, in depth-first pre-order. */
  function FlaggedOf(cs: seq<Comment>): seq<Comment> {
    Flagged(Preorder(cs))
  }

  lemma {:induction false} FlaggedAppend(a: seq<Comment>, b: seq<Comment>)
    ensures Flagged(a + b) == Flagged(a) + Flagged(b)
  {
    if a == [] {
      assert a + b == b;
    } else {
      var head := if Reportable(a[0]) then [a[0]] else [];
      assert (a + b)[0] == a[0] && (a + b)[1..] == a[1..] + b;
      calc {
        Flagged(a + b);
        head + Flagged(a[1..] + b);
        { FlaggedAppend(a[1..], b); }
        head + (Flagged(a[1..]) + Flagged(b));
        (head + Flagged(a[1..])) + Flagged(b);
        Flagged(a) + Flagged(b);
      }
    }
  }

  lemma FlaggedSingle(c: Comment)
    ensures Flagged([c]) == if Reportable(c) then [c] else []
  {
    assert [c][1..] == [];
  }

  lemma FlaggedOfPrefixStep(cs: seq<Comment>, i: nat)
    requires i < |cs|
    ensures FlaggedOf(cs[..i + 1])
            == FlaggedOf(cs[..i]) + (if Reportable(cs[i]) then [cs[i]] else []) + FlaggedOf(cs[i].replies)
  {
    var c, pre := cs[i], cs[..i];
    var sub := Preorder(c.replies);
    assert cs[..i + 1] == pre + [c];
    PreorderAppend(pre, [c]);
    PreorderCons(c, []);
    assert [c] + [] == [c];
    assert Preorder([c]) == [c] + sub;
    FlaggedAppend(Preorder(pre), [c] + sub);
    FlaggedAppend([c], sub);
    FlaggedSingle(c);
  }

  /** The handler's recursive collection: each comment, if reportable, followed by its replies' finds. */
  method FindFlaggedComments(cs: seq<Comment>) returns (flagged: seq<Comment>)
    ensures flagged == FlaggedOf(cs)
    decreases cs
  {
    flagged := [];
    var i := 0;
    while i < |cs|
      invariant i <= |cs|
      invariant flagged == FlaggedOf(cs[..i])
    {
      FlaggedOfPrefixStep(cs, i);
      var c := cs[i];
      if c.isFlagged && |c.flags| > 0 {
        flagged := flagged + [c];
      }
      if |c.replies| > 0 {
        var below := FindFlaggedComments(c.replies);
        flagged := flagged + below;
      }
      i := i + 1;
    }
    assert cs[..i] == cs;
  }

  /** The sort key: the time of the comment's last flag, or its creation time when it has none. */
  function LatestFlagTime(c: Comment): (t: int)
    ensures |c.flags| > 0 ==> t == c.flags[|c.flags| - 1].flaggedAt
    ensures |c.flags| == 0 ==> t == c.createdAt
  {
    if |c.flags| > 0 then c.flags[|c.flags| - 1].flaggedAt else c.createdAt
  }

  datatype Listing = Listing(comments: seq<Comment>, total: nat)

  /** The response body: the reportable comments, most recent flag first, and their number. */
  function Get(cs: seq<Comment>): (r: Listing)
    ensures SortedDesc(r.comments, LatestFlagTime)
    ensures multiset(r.comments) == multiset(FlaggedOf(cs))
    ensures r.total == |r.comments|
    ensures forall c | c in r.comments :: Reportable(c) && c in Preorder(cs)
  {
    var sorted := SortDesc(FlaggedOf(cs), LatestFlagTime);
    assert forall c | c in sorted :: c in multiset(FlaggedOf(cs));
    Listing(sorted, |sorted|)
  }

  /** Comments whose last flags were raised at the same time keep their pre-order. */
  lemma GetStable(cs: seq<Comment>, t: int)
    ensures WithKey(Get(cs).comments, LatestFlagTime, t) == WithKey(FlaggedOf(cs), LatestFlagTime, t)
  {
    SortDescStable(FlaggedOf(cs), LatestFlagTime, t);
  }

  // ---------------------------------------------------------------------------------------------
  // Which ids the listing holds, and how the flag and moderation handlers change that

  /** The ids of the reportable comments of a list, in order. */
  function FlaggedIdList(ns: seq<Comment>): seq<string> {
    if ns == [] then []
    else (if Reportable(ns[0]) then [ns[0].id] else []) + FlaggedIdList(ns[1..])
  }

  /** The ids the listing holds, in pre-order. */
  function ListedIds(cs: seq<Comment>): seq<string> {
    IdsOf(FlaggedOf(cs))
  }

  lemma {:induction false} FlaggedIdListOf(ns: seq<Comment>)
    ensures IdsOf(Flagged(ns)) == FlaggedIdList(ns)
  {
    if ns != [] {
      FlaggedIdListOf(ns[1..]);
      IdsOfAppend(if Reportable(ns[0]) then [ns[0]] else [], Flagged(ns[1..]));
    }
  }

  lemma {:induction false} FlaggedIdListShallow(ns: seq<Comment>)
    ensures FlaggedIdList(ShallowAll(ns)) == FlaggedIdList(ns)
  {
    if ns != [] {
      FlaggedIdListShallow(ns[1..]);
      assert ShallowAll(ns)[1..] == ShallowAll(ns[1..]);
    }
  }

  /** The listed ids depend only on the comments' own fields in pre-order. */
  lemma ListedIdsFromNodes(cs: seq<Comment>)
    ensures ListedIds(cs) == FlaggedIdList(Nodes(cs))
  {
    FlaggedIdListOf(Preorder(cs));
    FlaggedIdListShallow(Preorder(cs));
  }

  lemma {:induction false} FlaggedIdListMember(ns: seq<Comment>, id: string)
    ensures id in FlaggedIdList(ns) <==> exists j :: 0 <= j < |ns| && ns[j].id == id && Reportable(ns[j])
  {
    if ns != [] {
      FlaggedIdListMember(ns[1..], id);
      if exists j :: 0 <= j < |ns| && ns[j].id == id && Reportable(ns[j]) {
        var j :| 0 <= j < |ns| && ns[j].id == id && Reportable(ns[j]);
        if j > 0 {
          assert ns[1..][j - 1] == ns[j];
        }
      }
      if exists j :: 0 <= j < |ns[1..]| && ns[1..][j].id == id && Reportable(ns[1..][j]) {
        var j :| 0 <= j < |ns[1..]| && ns[1..][j].id == id && Reportable(ns[1..][j]);
        assert ns[j + 1] == ns[1..][j];
      }
    }
  }

  lemma {:induction false} FlaggedIdListUpdate(ns: seq<Comment>, k: nat, x: Comment)
    requires k < |ns| && x.id == ns[k].id && Reportable(x) == Reportable(ns[k])
    ensures FlaggedIdList(ns[k := x]) == FlaggedIdList(ns)
  {
    if k > 0 {
      FlaggedIdListUpdate(ns[1..], k - 1, x);
      assert ns[k := x][1..] == ns[1..][k - 1 := x];
    }
  }

  /** After a successful flag request the flagged comment is in the listing. */
  lemma FlagLists(cs: seq<Comment>, id: string, f: Flag)
    requires id in Ids(cs)
    ensures id in ListedIds(EditFirst(cs, id, AddFlag(f)))
  {
    var r := EditFirst(cs, id, AddFlag(f));
    EditFirstNodes(cs, id, AddFlag(f));
    IdsAreNodeIds(cs);
    var k := FirstIndex(Ids(cs), id);
    assert Nodes(r)[k].id == id && Reportable(Nodes(r)[k]);
    ListedIdsFromNodes(r);
    FlaggedIdListMember(Nodes(r), id);
  }

  /**
   * Once the ids in the store are distinct, rejecting a comment takes it off the listing (the
   * only moderation action that does).
   */
  lemma RejectUnlists(cs: seq<Comment>, id: string)
    requires id in Ids(cs) && Distinct(Ids(cs))
    ensures id !in ListedIds(EditFirst(cs, id, Moderate(Reject)))
  {
    var e := Moderate(Reject);
    var r := EditFirst(cs, id, e);
    EditFirstNodes(cs, id, e);
    EditFirstIds(cs, id, e);
    IdsAreNodeIds(cs);
    IdsAreNodeIds(r);
    var k := FirstIndex(Ids(cs), id);
    assert !Reportable(Nodes(r)[k]);
    forall j | 0 <= j < |Nodes(r)| && Nodes(r)[j].id == id
      ensures !Reportable(Nodes(r)[j])
    {
      assert Ids(r)[j] == id && Ids(r)[k] == id;
    }
    ListedIdsFromNodes(r);
    FlaggedIdListMember(Nodes(r), id);
  }

  /** Approving or dismissing never changes which comments the listing holds. */
  lemma ApproveKeepsListing(cs: seq<Comment>, id: string, a: Action)
    requires a != Reject
    ensures ListedIds(EditFirst(cs, id, Moderate(a))) == ListedIds(cs)
  {
    var e := Moderate(a);
    if id in Ids(cs) {
      var r := EditFirst(cs, id, e);
      EditFirstNodes(cs, id, e);
      IdsAreNodeIds(cs);
      var k := FirstIndex(Ids(cs), id);
      FlaggedIdListUpdate(Nodes(cs), k, ApplyEdit(Nodes(cs)[k], e));
      ListedIdsFromNodes(r);
      ListedIdsFromNodes(cs);
    } else {
      EditFirstAbsent(cs, id, e);
    }
  }
}
