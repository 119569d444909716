/**
 * The relational tables of the dashboard as values: one datatype per record, tables as
 * sequences in insertion order, a Database object whose fields are the tables that the
 * request handlers update, the judges' weighted score and the two composite unique
 * constraints (one vote per judge and team, one reaction per post, user and type).
 */
module Models {
  import opened Wrappers

  datatype User = User(id: nat, username: string, isAdmin: bool, isJudge: bool, teamId: Option<nat>)

  datatype Team = Team(id: nat, name: string)

  datatype RegistrationCode = RegistrationCode(id: nat, code: string, isUsed: bool, usedByUserId: Option<nat>)

  datatype Post = Post(id: nat, userId: nat, teamId: nat, description: string,
                       imagePath: Option<string>, isGlobal: bool)

  datatype Vote = Vote(judgeId: nat, teamId: nat, innovationScore: int, implementationScore: int,
                       designScore: int, presentationScore: int)

  datatype Reaction = Reaction(postId: nat, userId: nat, reactionType: string)

  datatype Mention = Mention(postId: Option<nat>, commentId: Option<nat>,
                             mentionedUserId: nat, mentionerUserId: nat)

  /** The user a request is made by, or nobody (the login session's current user). */
  datatype Principal = Anonymous | SignedIn(user: User)

  /** Python truthiness of `team_id`: set and not zero. */
  predicate HasTeam(u: User) {
    u.teamId.Some? && u.teamId.value != 0
  }

  // ---------------------------------------------------------------- queries

  /** `query.filter_by(...).first()`: the position of the first row satisfying p, at or after i. */
  function FirstFrom<T>(rows: seq<T>, p: T -> bool, i: nat): (r: Option<nat>)
    requires i <= |rows|
    ensures r.Some? ==> i <= r.value < |rows| && p(rows[r.value])
    ensures r.Some? ==> forall k :: i <= k < r.value ==> !p(rows[k])
    ensures r.None? ==> forall k :: i <= k < |rows| ==> !p(rows[k])
    decreases |rows| - i
  {
    if i == |rows| then None
    else if p(rows[i]) then Some(i)
    else FirstFrom(rows, p, i + 1)
  }

  function First<T>(rows: seq<T>, p: T -> bool): Option<nat> {
    FirstFrom(rows, p, 0)
  }

  /** `User.query.filter_by(username=name).first()`, as a position in the table. */
  function UserByName(users: seq<User>, name: string): Option<nat> {
    First(users, (u: User) => u.username == name)
  }

  /** `User.query.get(id)`, as a position in the table. */
  function UserById(users: seq<User>, id: int): Option<nat> {
    First(users, (u: User) => u.id == id)
  }

  function TeamByName(teams: seq<Team>, name: string): Option<nat> {
    First(teams, (t: Team) => t.name == name)
  }

  function CodeByString(codes: seq<RegistrationCode>, code: string): Option<nat> {
    First(codes, (c: RegistrationCode) => c.code == code)
  }

  function CodeById(codes: seq<RegistrationCode>, id: int): Option<nat> {
    First(codes, (c: RegistrationCode) => c.id == id)
  }

  predicate UsernameTaken(users: seq<User>, name: string) {
    exists k :: 0 <= k < |users| && users[k].username == name
  }

  predicate CodeStored(codes: seq<RegistrationCode>, code: string) {
    exists k :: 0 <= k < |codes| && codes[k].code == code
  }

  lemma UserByNameFound(users: seq<User>, name: string)
    ensures UserByName(users, name).Some? <==> UsernameTaken(users, name)
  {
    if UsernameTaken(users, name) {
      var k :| 0 <= k < |users| && users[k].username == name;
      assert ((u: User) => u.username == name)(users[k]);
    }
  }

  lemma CodeByStringFound(codes: seq<RegistrationCode>, code: string)
    ensures CodeByString(codes, code).Some? <==> CodeStored(codes, code)
  {
    if CodeStored(codes, code) {
      var k :| 0 <= k < |codes| && codes[k].code == code;
      assert ((c: RegistrationCode) => c.code == code)(codes[k]);
    }
  }

  // ---------------------------------------------------------------- table invariants

  /** Autoincrement ids: later rows have larger ids, so no two rows share one. */
  predicate UserIdsIncreasing(users: seq<User>) {
    forall i, j :: 0 <= i < j < |users| ==> users[i].id < users[j].id
  }

  predicate UsersWellFormed(users: seq<User>, nextId: nat) {
    && nextId >= 1
    && (forall i :: 0 <= i < |users| ==> 1 <= users[i].id < nextId)
    && UserIdsIncreasing(users)
    && (forall i, j :: 0 <= i < j < |users| ==> users[i].username != users[j].username)
  }

  predicate TeamsWellFormed(teams: seq<Team>, nextId: nat) {
    && nextId >= 1
    && (forall i :: 0 <= i < |teams| ==> 1 <= teams[i].id < nextId)
    && (forall i, j :: 0 <= i < j < |teams| ==> teams[i].id < teams[j].id)
    && (forall i, j :: 0 <= i < j < |teams| ==> teams[i].name != teams[j].name)
  }

  predicate UserIdExists(users: seq<User>, id: nat) {
    exists k :: 0 <= k < |users| && users[k].id == id
  }

  /** A code is used exactly when it records the user who used it, and that user exists. */
  predicate CodeStateConsistent(c: RegistrationCode, users: seq<User>) {
    && (c.isUsed <==> c.usedByUserId.Some?)
    && (c.usedByUserId.Some? ==> UserIdExists(users, c.usedByUserId.value))
  }

  predicate CodesWellFormed(codes: seq<RegistrationCode>, nextId: nat, users: seq<User>) {
    && nextId >= 1
    && (forall i :: 0 <= i < |codes| ==> 1 <= codes[i].id < nextId)
    && (forall i, j :: 0 <= i < j < |codes| ==> codes[i].id < codes[j].id)
    && (forall i, j :: 0 <= i < j < |codes| ==> codes[i].code != codes[j].code)
    && (forall i :: 0 <= i < |codes| ==> CodeStateConsistent(codes[i], users))
  }

  predicate PostsWellFormed(posts: seq<Post>, nextId: nat) {
    && nextId >= 1
    && (forall i :: 0 <= i < |posts| ==> 1 <= posts[i].id < nextId)
    && (forall i, j :: 0 <= i < j < |posts| ==> posts[i].id < posts[j].id)
  }

  lemma UserIdExistsUnderAppend(users: seq<User>, u: User, id: nat)
    requires UserIdExists(users, id)
    ensures UserIdExists(users + [u], id)
  {
    var k :| 0 <= k < |users| && users[k].id == id;
    assert (users + [u])[k] == users[k];
  }

  /** Adding a user keeps every code's reference to its user valid. */
  lemma CodesUnderNewUser(codes: seq<RegistrationCode>, next: nat, users: seq<User>, u: User)
    requires CodesWellFormed(codes, next, users)
    ensures CodesWellFormed(codes, next, users + [u])
  {
    forall i | 0 <= i < |codes| && codes[i].usedByUserId.Some?
      ensures UserIdExists(users + [u], codes[i].usedByUserId.value)
    {
      UserIdExistsUnderAppend(users, u, codes[i].usedByUserId.value);
    }
  }

  lemma UsersUnderNewUser(users: seq<User>, next: nat, u: User)
    requires UsersWellFormed(users, next)
    requires u.id == next && !UsernameTaken(users, u.username)
    ensures UsersWellFormed(users + [u], next + 1)
  {
    var all := users + [u];
    assert forall j :: 0 <= j < |users| ==> all[j] == users[j];
  }

  /**
   * The tables the request handlers read and update. Ids are handed out by per-table
   * counters, standing for the database's autoincrement keys.
   */
  class Database {
    var users: seq<User>
    var teams: seq<Team>
    var codes: seq<RegistrationCode>
    var posts: seq<Post>
    var nextUserId: nat
    var nextTeamId: nat
    var nextCodeId: nat
    var nextPostId: nat

    ghost predicate Valid()
      reads this
    {
      && UsersWellFormed(users, nextUserId)
      && TeamsWellFormed(teams, nextTeamId)
      && CodesWellFormed(codes, nextCodeId, users)
      && PostsWellFormed(posts, nextPostId)
    }

    /** The empty database that `db.create_all()` leaves. */
    constructor ()
      ensures Valid()
      ensures users == [] && teams == [] && codes == [] && posts == []
      ensures nextUserId == 1 && nextTeamId == 1 && nextCodeId == 1 && nextPostId == 1
    {
      users, teams, codes, posts := [], [], [], [];
      nextUserId, nextTeamId, nextCodeId, nextPostId := 1, 1, 1, 1;
    }
  }

  /**
   * `db.session.add(User(...))` and commit: the row gets the table's next key and is
   * appended; no other table changes.
   */
  method AddUser(db: Database, username: string, isAdmin: bool, isJudge: bool, teamId: Option<nat>)
    returns (u: User)
    requires db.Valid() && !UsernameTaken(db.users, username)
    modifies db
    ensures db.Valid()
    ensures u == User(old(db.nextUserId), username, isAdmin, isJudge, teamId)
    ensures db.users == old(db.users) + [u] && db.nextUserId == old(db.nextUserId) + 1
    ensures db.codes == old(db.codes) && db.teams == old(db.teams) && db.posts == old(db.posts)
    ensures db.nextCodeId == old(db.nextCodeId) && db.nextTeamId == old(db.nextTeamId)
    ensures db.nextPostId == old(db.nextPostId)
  {
    u := User(db.nextUserId, username, isAdmin, isJudge, teamId);
    UsersUnderNewUser(db.users, db.nextUserId, u);
    CodesUnderNewUser(db.codes, db.nextCodeId, db.users, u);
    db.users := db.users + [u];
    db.nextUserId := db.nextUserId + 1;
  }

  /** Appending a row with the next key keeps the post ids in range and increasing. */
  lemma PostsUnderNewPost(posts: seq<Post>, next: nat, p: Post)
    requires PostsWellFormed(posts, next) && p.id == next
    ensures PostsWellFormed(posts + [p], next + 1)
  {
    var all := posts + [p];
    assert forall j :: 0 <= j < |posts| ==> all[j] == posts[j];
  }

  /** `db.session.add(Post(...))` and commit: the post gets the next key and is appended. */
  method AddPost(db: Database, userId: nat, teamId: nat, description: string,
                 imagePath: Option<string>, isGlobal: bool)
    returns (p: Post)
    requires db.Valid()
    modifies db
    ensures db.Valid()
    ensures p == Post(old(db.nextPostId), userId, teamId, description, imagePath, isGlobal)
    ensures db.posts == old(db.posts) + [p] && db.nextPostId == old(db.nextPostId) + 1
    ensures db.users == old(db.users) && db.teams == old(db.teams) && db.codes == old(db.codes)
    ensures db.nextUserId == old(db.nextUserId) && db.nextTeamId == old(db.nextTeamId)
    ensures db.nextCodeId == old(db.nextCodeId)
  {
    p := Post(db.nextPostId, userId, teamId, description, imagePath, isGlobal);
    PostsUnderNewPost(db.posts, db.nextPostId, p);
    db.posts := db.posts + [p];
    db.nextPostId := db.nextPostId + 1;
  }

  // ---------------------------------------------------------------- votes

  /** The score of every criterion lies in 1..10. */
  predicate ScoresInRange(v: Vote) {
    && 1 <= v.innovationScore <= 10 && 1 <= v.implementationScore <= 10
    && 1 <= v.designScore <= 10 && 1 <= v.presentationScore <= 10
  }

  /** `Vote.calculate_total_score`, in exact arithmetic: weights 0.3, 0.3, 0.2, 0.2, scaled by 10. */
  function TotalScore(v: Vote): (total: real)
    ensures total == (3 * v.innovationScore + 3 * v.implementationScore
                      + 2 * v.designScore + 2 * v.presentationScore) as real
  {
    (v.innovationScore as real * 0.30 + v.implementationScore as real * 0.30
     + v.designScore as real * 0.20 + v.presentationScore as real * 0.20) * 10.0
  }

  /** With every score in 1..10 the total lies in 10..100. */
  lemma TotalScoreBounds(v: Vote)
    requires ScoresInRange(v)
    ensures 10.0 <= TotalScore(v) <= 100.0
  {
  }

  /** The weights sum to one: four equal scores s give 10 * s. */
  lemma TotalScoreOfEqualScores(v: Vote, s: int)
    requires v.innovationScore == s && v.implementationScore == s
    requires v.designScore == s && v.presentationScore == s
    ensures TotalScore(v) == 10.0 * s as real
  {
  }

  /** One more point in innovation or implementation adds 3; in design or presentation, 2. */
  lemma TotalScoreIncrements(v: Vote)
    ensures TotalScore(v.(innovationScore := v.innovationScore + 1)) == TotalScore(v) + 3.0
    ensures TotalScore(v.(implementationScore := v.implementationScore + 1)) == TotalScore(v) + 3.0
    ensures TotalScore(v.(designScore := v.designScore + 1)) == TotalScore(v) + 2.0
    ensures TotalScore(v.(presentationScore := v.presentationScore + 1)) == TotalScore(v) + 2.0
  {
  }

  // ---------------------------------------------------------------- unique constraints

  datatype Insertion<T> = Inserted(rows: seq<T>) | IntegrityError

  predicate SameVoteKey(a: Vote, b: Vote) {
    a.judgeId == b.judgeId && a.teamId == b.teamId
  }

  /** The constraint `unique_vote`: one vote per judge and team. */
  predicate UniqueVotes(votes: seq<Vote>) {
    forall i, j :: 0 <= i < j < |votes| ==> !SameVoteKey(votes[i], votes[j])
  }

  /** Inserting a vote: the database refuses a second vote of the same judge for the same team. */
  function InsertVote(votes: seq<Vote>, v: Vote): (r: Insertion<Vote>)
    ensures r.Inserted? <==> forall k :: 0 <= k < |votes| ==> !SameVoteKey(votes[k], v)
    ensures r.Inserted? ==> r.rows == votes + [v]
    ensures UniqueVotes(votes) && r.Inserted? ==> UniqueVotes(r.rows)
  {
    if exists k :: 0 <= k < |votes| && SameVoteKey(votes[k], v) then IntegrityError
    else Inserted(votes + [v])
  }

  predicate SameReactionKey(a: Reaction, b: Reaction) {
    a.postId == b.postId && a.userId == b.userId && a.reactionType == b.reactionType
  }

  /** The constraint `unique_reaction`: one reaction of each type per user and post. */
  predicate UniqueReactions(reactions: seq<Reaction>) {
    forall i, j :: 0 <= i < j < |reactions| ==> !SameReactionKey(reactions[i], reactions[j])
  }

  /** Inserting a reaction: the database refuses a duplicate (post, user, type). */
  function InsertReaction(reactions: seq<Reaction>, x: Reaction): (r: Insertion<Reaction>)
    ensures r.Inserted? <==> forall k :: 0 <= k < |reactions| ==> !SameReactionKey(reactions[k], x)
    ensures r.Inserted? ==> r.rows == reactions + [x]
    ensures UniqueReactions(reactions) && r.Inserted? ==> UniqueReactions(r.rows)
  {
    if exists k :: 0 <= k < |reactions| && SameReactionKey(reactions[k], x) then IntegrityError
    else Inserted(reactions + [x])
  }

  /** In a table that keeps the constraint, a (judge, team) pair picks out at most one vote. */
  lemma {:induction false} AtMostOneVotePerPair(votes: seq<Vote>, judge: nat, team: nat)
    requires UniqueVotes(votes)
    ensures |set k | 0 <= k < |votes| && votes[k].judgeId == judge && votes[k].teamId == team| <= 1
  {
    var ks := set k | 0 <= k < |votes| && votes[k].judgeId == judge && votes[k].teamId == team;
    if |ks| > 1 {
      var a :| a in ks;
      assert |ks - {a}| == |ks| - 1;
      var b :| b in ks - {a};
      if a < b { assert SameVoteKey(votes[a], votes[b]); } else { assert SameVoteKey(votes[b], votes[a]); }
      assert false;
    }
  }
}
