/** GET, POST and PUT /api/users: author profiles with a reputation computed from their activity. */
module Users {
  import opened Wrappers
  import opened Json
  import opened Sorting

  datatype User = User(
    id: string,
    username: string,
    displayName: string,
    email: Option<string>,
    avatar: Option<string>,
    bio: Option<string>,
    reputation: int,
    level: string,
    docsCreated: int,
    commentsPosted: int,
    joinedAt: int,
    lastActive: int,
    badges: seq<string>)

  /** `users.json`; an unreadable or malformed file reads as no users. */
  class UserStore {
    var users: seq<User>

    constructor (initial: seq<User>)
      ensures users == initial
    {
      users := initial;
    }
  }

  // ---------------------------------------------------------------------------------------------
  // Reputation and level

  /** `calculateReputation`: 10 points per document and 2 per comment. */
  function CalculateReputation(docsCreated: int, commentsPosted: int): (r: int)
    ensures docsCreated >= 0 && commentsPosted >= 0 ==> r >= 0 && r % 2 == 0
    ensures r == 10 * docsCreated + 2 * commentsPosted
  {
    docsCreated * 10 + commentsPosted * 2
  }

  /** `calculateLevel`: the highest threshold the reputation reaches. */
  function CalculateLevel(reputation: int): (level: string)
    ensures reputation >= 1000 ==> level == "Expert"
    ensures 500 <= reputation < 1000 ==> level == "Advanced"
    ensures 200 <= reputation < 500 ==> level == "Intermediate"
    ensures 50 <= reputation < 200 ==> level == "Contributor"
    ensures reputation < 50 ==> level == "Beginner"
  {
    if reputation >= 1000 then "Expert"
    else if reputation >= 500 then "Advanced"
    else if reputation >= 200 then "Intermediate"
    else if reputation >= 50 then "Contributor"
    else "Beginner"
  }

  /** The position of a level name in the order Beginner < Contributor < ... < Expert. */
  function LevelRank(level: string): nat {
    if level == "Expert" then 4
    else if level == "Advanced" then 3
    else if level == "Intermediate" then 2
    else if level == "Contributor" then 1
    else 0
  }

  /** A higher reputation never gives a lower level. */
  lemma LevelMonotone(a: int, b: int)
    requires a <= b
    ensures LevelRank(CalculateLevel(a)) <= LevelRank(CalculateLevel(b))
  {
  }

  /** A stored user whose reputation and level agree with the counters. */
  predicate Consistent(u: User) {
    u.reputation == CalculateReputation(u.docsCreated, u.commentsPosted) && u.level == CalculateLevel(u.reputation)
  }

  // ---------------------------------------------------------------------------------------------
  // Lookup

  function UsernamesOf(users: seq<User>): seq<string> {
    seq(|users|, i requires 0 <= i < |users| => users[i].username)
  }

  /** The position of the first user with the username, or -1. */
  function IndexOf(users: seq<User>, username: string): (k: int)
    ensures -1 <= k < |users|
    ensures k == -1 <==> username !in UsernamesOf(users)
    ensures k >= 0 ==> users[k].username == username && forall j | 0 <= j < k :: users[j].username != username
  {
    if users == [] then -1
    else if users[0].username == username then
      assert UsernamesOf(users)[0] == username;
      0
    else
      var k := IndexOf(users[1..], username);
      assert UsernamesOf(users) == [users[0].username] + UsernamesOf(users[1..]);
      if k == -1 then -1 else k + 1
  }

  /** `users.findIndex(u => u.username === username)`. */
  method FindIndex(users: seq<User>, username: string) returns (idx: int)
    ensures idx == IndexOf(users, username)
  {
    idx := 0;
    while idx < |users|
      invariant idx <= |users|
      invariant forall j | 0 <= j < idx :: users[j].username != username
    {
      if users[idx].username == username {
        assert UsernamesOf(users)[idx] == username;
        return;
      }
      idx := idx + 1;
    }
    return -1;
  }

  function ByReputation(u: User): int {
    u.reputation
  }

  datatype GetResponse = Found(user: User) | UserNotFound | AllUsers(users: seq<User>) {
    function Status(): nat {
      if UserNotFound? then 404 else 200
    }
  }

  /**
   * GET: with a non-empty `username` parameter, the first user with that name; otherwise every
   * user, highest reputation first (ties in stored order).
   */
  function Get(users: seq<User>, username: Option<string>): (r: GetResponse)
    ensures username.Some? && username.value != [] ==>
              (r.UserNotFound? <==> username.value !in UsernamesOf(users)) &&
              (r.Found? ==> r.user == users[IndexOf(users, username.value)])
    ensures username.None? || username.value == [] ==>
              r.AllUsers? && SortedDesc(r.users, ByReputation) && multiset(r.users) == multiset(users)
  {
    if username.Some? && username.value != [] then
      var k := IndexOf(users, username.value);
      if k == -1 then UserNotFound else Found(users[k])
    else AllUsers(SortDesc(users, ByReputation))
  }

  /**
   * `Array.prototype.sort` is stable: users with the same reputation are listed in their stored
   * order.
   */
  lemma GetStable(users: seq<User>, v: int)
    ensures Get(users, None).AllUsers?
    ensures WithKey(Get(users, None).users, ByReputation, v) == WithKey(users, ByReputation, v)
  {
    SortDescStable(users, ByReputation, v);
  }

  // ---------------------------------------------------------------------------------------------
  // POST: create or update a profile

  datatype ProfileRequest = ProfileRequest(username: string, displayName: string, email: Option<string>,
                                           avatar: Option<string>, bio: Option<string>)

  /**
   * The profile schema. Whether a given email or avatar string is a well-formed address or URL
   * is decided by the validation library; those two verdicts are parameters.
   */
  function ParseProfile(username: Field, displayName: Field, email: Field, emailWellFormed: bool,
                        avatar: Field, avatarWellFormed: bool, bio: Field): (r: Option<ProfileRequest>)
    ensures r.Some? <==>
              StrBetween(username, 1, 50) && StrBetween(displayName, 1, 100) &&
              (email.Missing? || (email.Str? && emailWellFormed)) &&
              (avatar.Missing? || (avatar.Str? && avatarWellFormed)) &&
              (bio.Missing? || StrBetween(bio, 0, 500))
    ensures r.Some? ==> 1 <= |r.value.username| <= 50 && 1 <= |r.value.displayName| <= 100 &&
                        (r.value.bio.Some? ==> |r.value.bio.value| <= 500)
  {
    if StrBetween(username, 1, 50) && StrBetween(displayName, 1, 100) &&
       (email.Missing? || (email.Str? && emailWellFormed)) &&
       (avatar.Missing? || (avatar.Str? && avatarWellFormed)) &&
       (bio.Missing? || StrBetween(bio, 0, 500))
    then Some(ProfileRequest(username.s, displayName.s,
                             if email.Str? then Some(email.s) else None,
                             if avatar.Str? then Some(avatar.s) else None,
                             if bio.Str? then Some(bio.s) else None))
    else None
  }

  /** A field given as a non-empty string replaces the stored one; otherwise the stored one stays. */
  function Overwrite(stored: Option<string>, given: Option<string>): (r: Option<string>)
    ensures given.Some? && given.value != [] ==> r == given
    ensures given.None? || given.value == [] ==> r == stored
  {
    if given.Some? && given.value != [] then given else stored
  }

  /** The update of an existing profile. */
  function UpdateProfile(u: User, req: ProfileRequest, now: int): (v: User)
    ensures v.displayName == req.displayName && v.lastActive == now
    ensures v.email == Overwrite(u.email, req.email) && v.avatar == Overwrite(u.avatar, req.avatar)
    ensures v.bio == Overwrite(u.bio, req.bio)
    ensures v.id == u.id && v.username == u.username && v.joinedAt == u.joinedAt && v.badges == u.badges
    ensures v.reputation == u.reputation && v.level == u.level
    ensures v.docsCreated == u.docsCreated && v.commentsPosted == u.commentsPosted
  {
    u.(displayName := req.displayName, email := Overwrite(u.email, req.email),
       avatar := Overwrite(u.avatar, req.avatar), bio := Overwrite(u.bio, req.bio), lastActive := now)
  }

  /** A new profile: no activity yet, so reputation 0 and level "Beginner". */
  function NewUser(id: string, req: ProfileRequest, now: int): (u: User)
    ensures u.reputation == 0 && u.level == "Beginner" && u.docsCreated == 0 && u.commentsPosted == 0
    ensures u.username == req.username && u.displayName == req.displayName && u.badges == []
  {
    User(id, req.username, req.displayName, req.email, req.avatar, req.bio, 0, "Beginner", 0, 0, now, now, [])
  }

  lemma NewUserConsistent(id: string, req: ProfileRequest, now: int)
    ensures Consistent(NewUser(id, req, now))
  {
    assert CalculateLevel(0) == "Beginner";
  }

  /** The confirmation as written: the condition tests the record just found or created, never null. */
  function PostMessageAsWritten(created: bool): string {
    var user := true;
    if user then "User updated successfully" else "User created successfully"
  }

  /** The confirmation as evidently intended: it tells creation from update. */
  function PostMessage(created: bool): (m: string)
    ensures !created ==> m == PostMessageAsWritten(created)
  {
    if created then "User created successfully" else "User updated successfully"
  }

  lemma CreationReportedAsUpdate()
    ensures PostMessageAsWritten(true) == "User updated successfully"
    ensures PostMessageAsWritten(true) != PostMessage(true)
  {
  }

  datatype PostResponse = Saved(user: User, message: string) | InvalidProfile {
    function Status(): nat {
      if Saved? then 200 else 400
    }
  }

  /** The record a valid profile request saves: the updated existing profile, or a new one. */
  function SavedUser(users: seq<User>, req: ProfileRequest, newId: string, now: int): User {
    var k := IndexOf(users, req.username);
    if k >= 0 then UpdateProfile(users[k], req, now) else NewUser(newId, req, now)
  }

  /** The user list after a valid profile request: the saved record replaces or follows the others. */
  function Posted(users: seq<User>, req: ProfileRequest, newId: string, now: int): seq<User> {
    var k := IndexOf(users, req.username);
    if k >= 0 then users[k := SavedUser(users, req, newId, now)]
    else users + [SavedUser(users, req, newId, now)]
  }

  /**
   * An existing username has its profile updated in place and nobody else changes; a new one is
   * appended after all stored users.
   */
  lemma PostedFrame(users: seq<User>, req: ProfileRequest, newId: string, now: int)
    ensures var r := Posted(users, req, newId, now);
            var k := IndexOf(users, req.username);
            var saved := SavedUser(users, req, newId, now);
            (k >= 0 ==> |r| == |users| && r[k] == saved && forall j | 0 <= j < |users| && j != k :: r[j] == users[j]) &&
            (k < 0 ==> |r| == |users| + 1 && r[..|users|] == users && r[|users|] == saved)
  {
    var r := Posted(users, req, newId, now);
    if IndexOf(users, req.username) < 0 {
      assert r[..|users|] == users;
    }
  }

  method Post(store: UserStore, username: Field, displayName: Field, email: Field, emailWellFormed: bool,
              avatar: Field, avatarWellFormed: bool, bio: Field, newId: string, now: int) returns (resp: PostResponse)
    modifies store
    ensures var req := ParseProfile(username, displayName, email, emailWellFormed, avatar, avatarWellFormed, bio);
            (resp.InvalidProfile? <==> req.None?) &&
            (req.Some? ==>
               var k := IndexOf(old(store.users), req.value.username);
               store.users == Posted(old(store.users), req.value, newId, now) &&
               resp == Saved(SavedUser(old(store.users), req.value, newId, now), PostMessageAsWritten(k < 0)))
    ensures resp.InvalidProfile? ==> store.users == old(store.users)
    ensures resp.Saved? ==> resp.message == "User updated successfully"
  {
    var req := ParseProfile(username, displayName, email, emailWellFormed, avatar, avatarWellFormed, bio);
    if req.None? {
      return InvalidProfile;
    }
    var users := store.users;
    var k := FindIndex(users, req.value.username);
    var user;
    if k >= 0 {
      user := UpdateProfile(users[k], req.value, now);
      users := users[k := user];
    } else {
      user := NewUser(newId, req.value, now);
      users := users + [user];
    }
    store.users := users;
    return Saved(user, PostMessageAsWritten(k < 0));
  }

  /** Every stored user's reputation and level agree with the counters. */
  predicate AllConsistent(users: seq<User>) {
    forall i | 0 <= i < |users| :: Consistent(users[i])
  }

  /** A profile request keeps every stored user consistent, and touches no counter. */
  lemma PostedKeepsConsistent(users: seq<User>, req: ProfileRequest, newId: string, now: int)
    requires AllConsistent(users)
    ensures AllConsistent(Posted(users, req, newId, now))
  {
    var k := IndexOf(users, req.username);
    if k >= 0 {
      var v := UpdateProfile(users[k], req, now);
      assert Consistent(users[k]);
      UpdateKeepsConsistent(users, k, v);
    } else {
      var n := NewUser(newId, req, now);
      NewUserConsistent(newId, req, now);
      AppendKeepsConsistent(users, n);
    }
  }

  lemma UpdateKeepsConsistent(users: seq<User>, k: nat, v: User)
    requires k < |users| && AllConsistent(users) && Consistent(v)
    ensures AllConsistent(users[k := v])
  {
  }

  lemma AppendKeepsConsistent(users: seq<User>, n: User)
    requires AllConsistent(users) && Consistent(n)
    ensures AllConsistent(users + [n])
  {
  }

  // ---------------------------------------------------------------------------------------------
  // PUT: count one more document or comment

  datatype StatAction = DocCreated | CommentPosted

  function ParseStatAction(f: Field): (r: Option<StatAction>)
    ensures r == Some(DocCreated) <==> f == Str("doc_created")
    ensures r == Some(CommentPosted) <==> f == Str("comment_posted")
  {
    if f == Str("doc_created") then Some(DocCreated)
    else if f == Str("comment_posted") then Some(CommentPosted)
    else None
  }

  /** One more document or comment, with reputation and level recomputed from the counters. */
  function Bump(u: User, a: StatAction, now: int): (v: User)
    ensures Consistent(v)
    ensures a == DocCreated ==> v.docsCreated == u.docsCreated + 1 && v.commentsPosted == u.commentsPosted
    ensures a == CommentPosted ==> v.commentsPosted == u.commentsPosted + 1 && v.docsCreated == u.docsCreated
    ensures v.(reputation := u.reputation, level := u.level, docsCreated := u.docsCreated,
               commentsPosted := u.commentsPosted, lastActive := u.lastActive) == u
    ensures v.lastActive == now
  {
    var counted := if a == DocCreated then u.(docsCreated := u.docsCreated + 1)
                   else u.(commentsPosted := u.commentsPosted + 1);
    var rep := CalculateReputation(counted.docsCreated, counted.commentsPosted);
    counted.(reputation := rep, level := CalculateLevel(rep), lastActive := now)
  }

  /** For a consistent user, a document adds 10 points and a comment 2, and the level never drops. */
  lemma BumpGain(u: User, a: StatAction, now: int)
    requires Consistent(u)
    ensures Bump(u, a, now).reputation == u.reputation + (if a == DocCreated then 10 else 2)
    ensures LevelRank(Bump(u, a, now).level) >= LevelRank(u.level)
  {
    LevelMonotone(u.reputation, Bump(u, a, now).reputation);
  }

  datatype PutResponse = Updated(user: User) | InvalidUpdate | UnknownUser {
    function Status(): nat {
      match this
      case Updated(_) => 200
      case InvalidUpdate => 400
      case UnknownUser => 404
    }
  }

  method Put(store: UserStore, username: Field, action: Field, now: int) returns (resp: PutResponse)
    modifies store
    ensures resp.InvalidUpdate? <==> !StrAtLeast(username, 1) || ParseStatAction(action).None?
    ensures resp.UnknownUser? <==>
              StrAtLeast(username, 1) && ParseStatAction(action).Some? && username.s !in UsernamesOf(old(store.users))
    ensures resp.Updated? ==>
              var k := IndexOf(old(store.users), username.s);
              0 <= k && resp.user == Bump(old(store.users)[k], ParseStatAction(action).value, now) &&
              store.users == old(store.users)[k := resp.user]
    ensures !resp.Updated? ==> store.users == old(store.users)
  {
    var a := ParseStatAction(action);
    if !StrAtLeast(username, 1) || a.None? {
      return InvalidUpdate;
    }
    var k := FindIndex(store.users, username.s);
    if k == -1 {
      return UnknownUser;
    }
    var user := Bump(store.users[k], a.value, now);
    store.users := store.users[k := user];
    return Updated(user);
  }

  /** A stats update keeps every stored user consistent and changes no other user. */
  lemma BumpKeepsConsistent(users: seq<User>, k: nat, a: StatAction, now: int)
    requires k < |users| && AllConsistent(users)
    ensures AllConsistent(users[k := Bump(users[k], a, now)])
  {
  }
}
