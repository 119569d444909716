/**
 * The request handlers that change the tables, the access and routing rules in front of
 * them, the upload-name check, the "time ago" filter and the post-login redirect target.
 * A handler is a method on the database; the signed-in user, the submitted form data,
 * the random draws and the upload's timestamped name are its inputs.
 */
module App {
  import opened Wrappers
  import opened Strings
  import opened Models
  import opened Forms
  import Codes
  import TextUtils

  // ---------------------------------------------------------------- access and routing

  /** What a request gets before its handler runs. */
  datatype Access = Granted(user: User) | ToLogin | Forbidden

  /** `@login_required`: anonymous requests go to the login page. */
  function LoginRequired(p: Principal): (a: Access)
    ensures a.Granted? <==> p.SignedIn?
    ensures a.Granted? ==> a.user == p.user
    ensures !a.Granted? ==> a == ToLogin
  {
    match p
    case Anonymous => ToLogin
    case SignedIn(u) => Granted(u)
  }

  /** `admin_required`: 403 unless the request is made by a signed-in administrator. */
  function AdminRequired(p: Principal): (a: Access)
    ensures a.Granted? <==> p.SignedIn? && p.user.isAdmin
    ensures a.Granted? ==> a.user == p.user
    ensures !a.Granted? ==> a == Forbidden
  {
    if p.SignedIn? && p.user.isAdmin then Granted(p.user) else Forbidden
  }

  /** The admin routes wear `@login_required` outside `@admin_required`. */
  function AdminOnly(p: Principal): Access {
    if LoginRequired(p).Granted? then AdminRequired(p) else LoginRequired(p)
  }

  /** Anonymous requests are sent to log in, signed-in non-administrators are refused. */
  lemma AdminOnlyMeaning(p: Principal)
    ensures AdminOnly(p).Granted? <==> p.SignedIn? && p.user.isAdmin
    ensures AdminOnly(p) == ToLogin <==> p.Anonymous?
    ensures AdminOnly(p) == Forbidden <==> p.SignedIn? && !p.user.isAdmin
  {
  }

  datatype Response = Page(template: string) | RedirectTo(path: string)

  /** `index`: administrators to their dashboard, other users to theirs, nobody to the login page. */
  function Index(p: Principal): (r: Response)
    ensures r.RedirectTo?
    ensures r.path == "/admin" <==> p.SignedIn? && p.user.isAdmin
    ensures r.path == "/dashboard" <==> p.SignedIn? && !p.user.isAdmin
    ensures r.path == "/login" <==> p.Anonymous?
  {
    match p
    case Anonymous => RedirectTo("/login")
    case SignedIn(u) => if u.isAdmin then RedirectTo("/admin") else RedirectTo("/dashboard")
  }

  /** `user_dashboard`: only signed-in non-administrators see it. */
  function UserDashboard(p: Principal): (r: Response)
    ensures r.Page? <==> p.SignedIn? && !p.user.isAdmin
    ensures p.SignedIn? && p.user.isAdmin ==> r == RedirectTo("/admin")
  {
    match LoginRequired(p)
    case Granted(u) => if u.isAdmin then RedirectTo("/admin") else Page("user/dashboard.html")
    case _ => RedirectTo("/login")
  }

  /** `team_timeline`: a user without a team is sent back to the dashboard. */
  function TeamTimeline(p: Principal): (r: Response)
    ensures r.Page? <==> p.SignedIn? && HasTeam(p.user)
    ensures p.SignedIn? && !HasTeam(p.user) ==> r == RedirectTo("/dashboard")
  {
    match LoginRequired(p)
    case Granted(u) => if !HasTeam(u) then RedirectTo("/dashboard") else Page("user/team_timeline.html")
    case _ => RedirectTo("/login")
  }

  // ---------------------------------------------------------------- the login redirect

  /** `next` as written: used when it is present, not empty and starts with `/`; else `/`. */
  function NextTarget(next: Option<string>): (target: string)
    ensures next.Some? && StartsWith(next.value, "/") ==> target == next.value
    ensures !(next.Some? && StartsWith(next.value, "/")) ==> target == "/"
  {
    if next.None? || next.value == "" || next.value[0] != '/' then "/" else next.value
  }

  /**
   * A path that a browser resolves against another host: `//host/...`, or `/\host/...`,
   * which browsers read the same way.
   */
  predicate LeavesSite(target: string) {
    |target| >= 2 && target[0] == '/' && (target[1] == '/' || target[1] == '\\')
  }

  /** The check as written lets a protocol-relative URL through, sending the user off the site. */
  lemma NextTargetAdmitsOtherHosts()
    ensures NextTarget(Some("//evil.example")) == "//evil.example"
    ensures LeavesSite(NextTarget(Some("//evil.example")))
  {
  }

  /** The evidently intended check: a local path only. */
  function SafeNextTarget(next: Option<string>): (target: string)
    ensures StartsWith(target, "/") && !LeavesSite(target)
    ensures next.Some? && StartsWith(next.value, "/") && !LeavesSite(next.value) ==> target == next.value
    ensures next.Some? && LeavesSite(next.value) ==> target == "/"
  {
    if next.Some? && LeavesSite(next.value) then "/" else NextTarget(next)
  }

  /**
   * `login`. `accepted` stands for a valid form naming a user whose password checks out;
   * password hashing is not modelled.
   */
  function Login(p: Principal, accepted: bool, next: Option<string>): (r: Response)
    ensures p.SignedIn? ==> r == RedirectTo("/")
    ensures p.Anonymous? && accepted ==> r.RedirectTo? && StartsWith(r.path, "/")
    ensures p.Anonymous? && accepted && next.Some? && StartsWith(next.value, "/") ==> r == RedirectTo(next.value)
    ensures p.Anonymous? && accepted && !(next.Some? && StartsWith(next.value, "/")) ==> r == RedirectTo("/")
    ensures p.Anonymous? && !accepted ==> r == Page("login.html")
  {
    if p.SignedIn? then RedirectTo("/")
    else if accepted then RedirectTo(NextTarget(next))
    else Page("login.html")
  }

  /** `login` with the corrected check: an accepted login never redirects off the site. */
  function SafeLogin(p: Principal, accepted: bool, next: Option<string>): (r: Response)
    ensures p.SignedIn? ==> r == RedirectTo("/")
    ensures p.Anonymous? && accepted ==> r.RedirectTo? && StartsWith(r.path, "/") && !LeavesSite(r.path)
    ensures p.Anonymous? && accepted && next.Some? && StartsWith(next.value, "/") && !LeavesSite(next.value) ==>
              r == RedirectTo(next.value)
    ensures p.Anonymous? && !accepted ==> r == Page("login.html")
    ensures r != Login(p, accepted, next) ==> p.Anonymous? && accepted && next.Some? && LeavesSite(next.value)
  {
    if p.SignedIn? then RedirectTo("/")
    else if accepted then RedirectTo(SafeNextTarget(next))
    else Page("login.html")
  }

  /** The two checks differ only on targets that leave the site. */
  lemma SafeNextTargetAgrees(next: Option<string>)
    ensures !(next.Some? && LeavesSite(next.value)) ==> SafeNextTarget(next) == NextTarget(next)
    ensures SafeNextTarget(next) != NextTarget(next) ==> next.Some? && LeavesSite(next.value)
  {
  }

  // ---------------------------------------------------------------- uploads and times

  const ImageTypes: set<string> := {"png", "jpg", "jpeg"}

  /** `allowed_file` of the application: a name whose text after the last dot is an image type. */
  function AllowedImage(filename: string): bool {
    TextUtils.AllowedFile(filename, ImageTypes)
  }

  /** `base.ext`, ext without dots, is accepted exactly for png, jpg and jpeg in any case. */
  lemma AllowedImageByExtension(base: string, ext: string)
    requires '.' !in ext
    ensures AllowedImage(base + "." + ext) <==> Lower(ext) in {"png", "jpg", "jpeg"}
  {
    TextUtils.AllowedFileOfExtension(base, ext, ImageTypes);
  }

  /**
   * The name `save_upload` stores an accepted upload under: a timestamp-and-random stem
   * (an input here) and the lower-cased extension.
   */
  function UploadName(stem: string, filename: string): (name: string)
    requires AllowedImage(filename)
    ensures exists base, ext :: filename == base + "." + ext && '.' !in ext && name == stem + "." + Lower(ext)
    ensures exists ext :: ext in ImageTypes && name == stem + "." + ext
  {
    var i := LastIndexOf(filename, '.');
    UploadNameParts(filename, i);
    stem + "." + Lower(filename[i + 1..])
  }

  /** A name cut at its last dot: the part before, the dot, and a dot-free extension. */
  lemma UploadNameParts(filename: string, i: int)
    requires AllowedImage(filename) && i == LastIndexOf(filename, '.')
    ensures 0 <= i < |filename| && filename == filename[..i] + "." + filename[i + 1..]
    ensures '.' !in filename[i + 1..] && Lower(filename[i + 1..]) in ImageTypes
  {
    TextUtils.CutAtLastDot(filename, i);
  }

  /** `int(x)` on a Python float: truncation toward zero. */
  function Trunc(x: real): int {
    if x >= 0.0 then x.Floor else -((-x).Floor)
  }

  /** Dividing first or taking whole seconds first gives the same count of minutes. */
  lemma WholeMinutes(x: real)
    requires x >= 0.0
    ensures (x / 60.0).Floor == x.Floor / 60
  {
    var q := x.Floor / 60;
    assert q * 60 <= x.Floor < q * 60 + 60;
    assert q as real <= x / 60.0 < q as real + 1.0;
  }

  lemma WholeHours(x: real)
    requires x >= 0.0
    ensures (x / 3600.0).Floor == x.Floor / 3600
  {
    var q := x.Floor / 3600;
    assert q * 3600 <= x.Floor < q * 3600 + 3600;
    assert q as real <= x / 3600.0 < q as real + 1.0;
  }

  lemma WholeDays(x: real)
    requires x >= 0.0
    ensures (x / 86400.0).Floor == x.Floor / 86400
  {
    var q := x.Floor / 86400;
    assert q * 86400 <= x.Floor < q * 86400 + 86400;
    assert q as real <= x / 86400.0 < q as real + 1.0;
  }

  /**
   * `time_ago` on the age in seconds as a number with a fraction: the same buckets and
   * counts as `format_time_ago` on the whole seconds.
   */
  function TimeAgo(seconds: real): (a: TextUtils.Ago)
    ensures a == TextUtils.FormatTimeAgo(seconds.Floor)
  {
    if seconds < 60.0 then TextUtils.JustNow
    else if seconds < 3600.0 then
      WholeMinutes(seconds);
      TextUtils.Minutes(Trunc(seconds / 60.0))
    else if seconds < 86400.0 then
      WholeHours(seconds);
      TextUtils.Hours(Trunc(seconds / 3600.0))
    else if seconds < 604800.0 then
      WholeDays(seconds);
      TextUtils.Days(Trunc(seconds / 86400.0))
    else TextUtils.DateFormatted
  }

  // ---------------------------------------------------------------- table invariants under updates

  /** Changing a user's team keeps every id, so every code's reference stays valid. */
  lemma CodesUnderTeamChange(codes: seq<RegistrationCode>, next: nat, users: seq<User>, k: nat, team: Option<nat>)
    requires CodesWellFormed(codes, next, users) && k < |users|
    ensures CodesWellFormed(codes, next, users[k := users[k].(teamId := team)])
  {
    var users' := users[k := users[k].(teamId := team)];
    forall i | 0 <= i < |codes| && codes[i].usedByUserId.Some?
      ensures UserIdExists(users', codes[i].usedByUserId.value)
    {
      var j :| 0 <= j < |users| && users[j].id == codes[i].usedByUserId.value;
      assert users'[j].id == users[j].id;
    }
  }

  /** Marking the registration code used by the new user keeps the code table well formed. */
  lemma CodesUnderRegistration(codes: seq<RegistrationCode>, next: nat, users: seq<User>, u: User, k: nat)
    requires CodesWellFormed(codes, next, users + [u]) && k < |codes|
    ensures CodesWellFormed(codes[k := Codes.MarkUsed(codes[k], u.id)], next, users + [u])
  {
    Codes.MarkUsedIsConsistent(codes[k], users + [u], |users|);
  }

  /** What an accepted registration form guarantees the handler. */
  lemma AcceptedRegistration(code: string, username: string, password: string,
                             users: seq<User>, codes: seq<RegistrationCode>)
    requires NoErrors(RegistrationErrors(code, username, password, users, codes))
    ensures CodeByString(codes, code).Some? && !codes[CodeByString(codes, code).value].isUsed
    ensures !UsernameTaken(users, username)
  {
    RegistrationAccepts(code, username, password, users, codes);
    CodeByStringFound(codes, code);
  }

  /** An accepted post form with an uploaded image has an image name `save_upload` accepts. */
  lemma AcceptedPostImage(description: string, image: Option<string>)
    requires NoErrors(PostErrors(description, image)) && image.Some? && image.value != ""
    ensures AllowedImage(image.value)
  {
    PostAccepts(description, image);
    FileAllowedAgreesWithAllowedFile(image.value);
  }

  /** Registration keeps the user and code tables well formed. */
  lemma RegistrationKeepsWellFormed(users: seq<User>, nextUser: nat, codes: seq<RegistrationCode>, nextCode: nat,
                                    username: string, k: nat)
    requires UsersWellFormed(users, nextUser) && CodesWellFormed(codes, nextCode, users)
    requires !UsernameTaken(users, username) && k < |codes|
    ensures UsersWellFormed(users + [User(nextUser, username, false, false, None)], nextUser + 1)
    ensures CodesWellFormed(codes[k := Codes.MarkUsed(codes[k], nextUser)], nextCode,
                            users + [User(nextUser, username, false, false, None)])
  {
    var u := User(nextUser, username, false, false, None);
    UsersUnderNewUser(users, nextUser, u);
    CodesUnderNewUser(codes, nextCode, users, u);
    CodesUnderRegistration(codes, nextCode, users, u, k);
  }

  // ---------------------------------------------------------------- registration codes

  datatype RegisterResult = AlreadySignedIn | RegisterFormInvalid | Registered(userId: nat, codeIndex: nat)

  /**
   * `register`: a valid form creates an ordinary user without a team and marks the first
   * code row with the submitted text as used by that user.
   */
  method Register(db: Database, p: Principal, code: string, username: string, password: string)
    returns (r: RegisterResult)
    requires db.Valid()
    modifies db
    ensures db.Valid()
    ensures r.Registered? <==>
              p.Anonymous? && NoErrors(RegistrationErrors(code, username, password, old(db.users), old(db.codes)))
    ensures r.Registered? ==>
              && r.userId == old(db.nextUserId)
              && CodeByString(old(db.codes), code) == Some(r.codeIndex)
              && r.codeIndex < |old(db.codes)| && !old(db.codes)[r.codeIndex].isUsed
              && db.users == old(db.users) + [User(r.userId, username, false, false, None)]
              && db.nextUserId == old(db.nextUserId) + 1
              && db.codes == old(db.codes)[r.codeIndex := Codes.MarkUsed(old(db.codes)[r.codeIndex], r.userId)]
              && db.teams == old(db.teams) && db.posts == old(db.posts)
              && db.nextTeamId == old(db.nextTeamId) && db.nextCodeId == old(db.nextCodeId)
              && db.nextPostId == old(db.nextPostId)
    ensures !r.Registered? ==> unchanged(db)
  {
    if p.SignedIn? {
      return AlreadySignedIn;
    }
    if !NoErrors(RegistrationErrors(code, username, password, db.users, db.codes)) {
      return RegisterFormInvalid;
    }
    AcceptedRegistration(code, username, password, db.users, db.codes);
    var k := CodeByString(db.codes, code).value;
    var id := CommitRegistration(db, username, k);
    r := Registered(id, k);
  }

  /** The writes of `register`: the new user, then the code marked used by that user. */
  method CommitRegistration(db: Database, username: string, k: nat) returns (id: nat)
    requires db.Valid()
    requires !UsernameTaken(db.users, username) && k < |db.codes|
    modifies db
    ensures db.Valid()
    ensures id == old(db.nextUserId)
    ensures db.users == old(db.users) + [User(id, username, false, false, None)]
    ensures db.nextUserId == old(db.nextUserId) + 1
    ensures db.codes == old(db.codes)[k := Codes.MarkUsed(old(db.codes)[k], id)]
    ensures db.teams == old(db.teams) && db.posts == old(db.posts)
    ensures db.nextTeamId == old(db.nextTeamId) && db.nextCodeId == old(db.nextCodeId)
    ensures db.nextPostId == old(db.nextPostId)
  {
    id := db.nextUserId;
    RegistrationKeepsWellFormed(db.users, id, db.codes, db.nextCodeId, username, k);
    db.users := db.users + [User(id, username, false, false, None)];
    db.nextUserId := id + 1;
    db.codes := db.codes[k := Codes.MarkUsed(db.codes[k], id)];
  }

  datatype ResetResult = ResetDenied(access: Access) | CodeNotFound | ResetDone(codeIndex: nat)

  /** `admin_reset_code`: the code with this id becomes unused, keeping its text; 404 if there is none. */
  method ResetCode(db: Database, p: Principal, codeId: int) returns (r: ResetResult)
    requires db.Valid()
    modifies db
    ensures db.Valid()
    ensures r.ResetDenied? <==> !AdminOnly(p).Granted?
    ensures r.CodeNotFound? <==>
              AdminOnly(p).Granted? && forall k :: 0 <= k < |old(db.codes)| ==> old(db.codes)[k].id != codeId
    ensures r.ResetDone? ==>
              && r.codeIndex < |old(db.codes)| && old(db.codes)[r.codeIndex].id == codeId
              && db.codes == old(db.codes)[r.codeIndex := Codes.Reset(old(db.codes)[r.codeIndex])]
              && db.codes[r.codeIndex].code == old(db.codes)[r.codeIndex].code
              && db.users == old(db.users) && db.teams == old(db.teams) && db.posts == old(db.posts)
              && db.nextUserId == old(db.nextUserId) && db.nextTeamId == old(db.nextTeamId)
              && db.nextCodeId == old(db.nextCodeId) && db.nextPostId == old(db.nextPostId)
    ensures !r.ResetDone? ==> unchanged(db)
  {
    if !AdminOnly(p).Granted? {
      return ResetDenied(AdminOnly(p));
    }
    var found := CodeById(db.codes, codeId);
    if found.None? {
      return CodeNotFound;
    }
    var k := found.value;
    Codes.ResetIsConsistentAndIdempotent(db.codes[k], db.users);
    db.codes := db.codes[k := Codes.Reset(db.codes[k])];
    r := ResetDone(k);
  }

  datatype GenerateResult = GenerateDenied(access: Access) | GenerateFormInvalid | OutOfDraws
                          | Generated(batch: seq<string>)

  /**
   * `admin_codes`: a valid batch size n adds n new unused codes of six digits, each absent
   * from the table when it was drawn. The draws stand for `random.choices`; only when they
   * hold fewer than n distinct codes that are not stored is nothing committed.
   */
  method GenerateCodes(db: Database, p: Principal, count: Option<int>, draws: seq<nat>)
    returns (r: GenerateResult)
    requires db.Valid()
    modifies db
    ensures db.Valid()
    ensures r.GenerateDenied? <==> !AdminOnly(p).Granted?
    ensures r.GenerateFormInvalid? <==> AdminOnly(p).Granted? && !NoErrors(GenerateCodesErrors(count))
    ensures r.Generated? ==>
              && count == Some(|r.batch|) && |r.batch| in {5, 10, 20, 50}
              && Codes.FreshBatch(r.batch, Codes.CodeStrings(old(db.codes)))
              && (forall j :: 0 <= j < |r.batch| ==> r.batch[j] in Codes.Candidates(draws))
              && db.codes == old(db.codes) + Codes.NewRows(old(db.nextCodeId), r.batch)
              && db.users == old(db.users) && db.teams == old(db.teams) && db.posts == old(db.posts)
              && db.nextUserId == old(db.nextUserId) && db.nextTeamId == old(db.nextTeamId)
              && db.nextPostId == old(db.nextPostId)
    ensures r.OutOfDraws? ==>
              && count.Some? && count.value in {5, 10, 20, 50}
              && !Codes.EnoughFresh(Codes.Candidates(draws), Codes.CodeStrings(old(db.codes)), count.value)
    ensures !r.Generated? ==> unchanged(db)
  {
    if !AdminOnly(p).Granted? {
      return GenerateDenied(AdminOnly(p));
    }
    if !NoErrors(GenerateCodesErrors(count)) {
      return GenerateFormInvalid;
    }
    GenerateCodesAccepts(count);
    var batch, ok := Codes.DrawFreshCodes(Codes.CodeStrings(db.codes), count.value, draws);
    if !ok {
      return OutOfDraws;
    }
    var _ := Codes.AddCodes(db, batch);
    r := Generated(batch);
  }

  // ---------------------------------------------------------------- users and teams

  /** A created user's team: only a selected team id above 0; "No Team" (0) leaves it unset. */
  function ChosenTeam(choice: Option<int>): (team: Option<nat>)
    ensures team.Some? <==> choice.Some? && choice.value > 0
    ensures team.Some? ==> team.value as int == choice.value
  {
    if choice.Some? && choice.value > 0 then Some(choice.value as nat) else None
  }

  datatype CreateUserResult = CreateUserDenied(access: Access) | CreateUserFormInvalid | UserCreated(userId: nat)

  /** `admin_users` on submit: a valid form adds a user (never a judge) with the chosen team. */
  method CreateUser(db: Database, p: Principal, username: string, password: string, isAdmin: bool,
                    teamId: Option<int>)
    returns (r: CreateUserResult)
    requires db.Valid()
    modifies db
    ensures db.Valid()
    ensures r.CreateUserDenied? <==> !AdminOnly(p).Granted?
    ensures r.UserCreated? <==>
              AdminOnly(p).Granted? && NoErrors(CreateUserErrors(username, password, teamId, old(db.users), old(db.teams)))
    ensures r.UserCreated? ==>
              && r.userId == old(db.nextUserId)
              && db.users == old(db.users) + [User(r.userId, username, isAdmin, false, ChosenTeam(teamId))]
              && db.nextUserId == old(db.nextUserId) + 1
              && db.codes == old(db.codes) && db.teams == old(db.teams) && db.posts == old(db.posts)
              && db.nextTeamId == old(db.nextTeamId) && db.nextCodeId == old(db.nextCodeId)
              && db.nextPostId == old(db.nextPostId)
    ensures !r.UserCreated? ==> unchanged(db)
  {
    if !AdminOnly(p).Granted? {
      return CreateUserDenied(AdminOnly(p));
    }
    if !NoErrors(CreateUserErrors(username, password, teamId, db.users, db.teams)) {
      return CreateUserFormInvalid;
    }
    CreateUserAccepts(username, password, teamId, db.users, db.teams);
    var u := AddUser(db, username, isAdmin, false, ChosenTeam(teamId));
    r := UserCreated(u.id);
  }

  datatype AssignResult = AssignDenied(access: Access) | AssignFormInvalid | UserNotFound
                        | Assigned(userIndex: nat, team: nat)

  /**
   * `admin_assign_team`: a valid form puts the chosen user into the chosen team. The user
   * choices are the stored users, so a valid form never reaches the unknown-user branch.
   */
  method AssignTeam(db: Database, p: Principal, userId: Option<int>, teamId: Option<int>)
    returns (r: AssignResult)
    requires db.Valid()
    modifies db
    ensures db.Valid()
    ensures r.AssignDenied? <==> !AdminOnly(p).Granted?
    ensures r.AssignFormInvalid? <==>
              AdminOnly(p).Granted? && !NoErrors(AssignTeamErrors(userId, teamId, old(db.users), old(db.teams)))
    ensures r.Assigned? <==>
              AdminOnly(p).Granted? && NoErrors(AssignTeamErrors(userId, teamId, old(db.users), old(db.teams)))
    ensures r.Assigned? ==>
              && r.userIndex < |old(db.users)|
              && userId == Some(old(db.users)[r.userIndex].id as int) && teamId == Some(r.team as int)
              && TeamIdStored(old(db.teams), r.team)
              && db.users == old(db.users)[r.userIndex := old(db.users)[r.userIndex].(teamId := Some(r.team))]
              && db.codes == old(db.codes) && db.teams == old(db.teams) && db.posts == old(db.posts)
              && db.nextUserId == old(db.nextUserId) && db.nextTeamId == old(db.nextTeamId)
              && db.nextCodeId == old(db.nextCodeId) && db.nextPostId == old(db.nextPostId)
    ensures !r.Assigned? ==> unchanged(db)
  {
    if !AdminOnly(p).Granted? {
      return AssignDenied(AdminOnly(p));
    }
    if !NoErrors(AssignTeamErrors(userId, teamId, db.users, db.teams)) {
      return AssignFormInvalid;
    }
    AssignTeamAccepts(userId, teamId, db.users, db.teams);
    var found := UserById(db.users, userId.value);
    if found.None? {
      return UserNotFound;
    }
    var k := found.value;
    var team: nat := teamId.value as nat;
    CodesUnderTeamChange(db.codes, db.nextCodeId, db.users, k, Some(team));
    db.users := db.users[k := db.users[k].(teamId := Some(team))];
    r := Assigned(k, team);
  }

  // ---------------------------------------------------------------- posts

  datatype PostResult = PostDenied(access: Access) | NoTeam | PostFormInvalid | Posted(post: Post)

  /**
   * `create_post`: refused to a user without a team; a valid form adds a post by the user,
   * for the user's team, with the stored image name when an image was uploaded.
   */
  method CreatePost(db: Database, p: Principal, description: string, image: Option<string>,
                    isGlobal: bool, stem: string)
    returns (r: PostResult)
    requires db.Valid()
    modifies db
    ensures db.Valid()
    ensures r.PostDenied? <==> p.Anonymous?
    ensures r.NoTeam? <==> p.SignedIn? && !HasTeam(p.user)
    ensures r.PostFormInvalid? <==> p.SignedIn? && HasTeam(p.user) && !NoErrors(PostErrors(description, image))
    ensures r.Posted? ==>
              && p.SignedIn? && r.post.userId == p.user.id && p.user.teamId == Some(r.post.teamId)
              && r.post.id == old(db.nextPostId)
              && r.post.description == description && r.post.isGlobal == isGlobal
              && (r.post.imagePath.Some? <==> image.Some? && image.value != "")
              && (r.post.imagePath.Some? ==> image.Some? && AllowedImage(image.value)
                                             && r.post.imagePath.value == UploadName(stem, image.value))
              && db.posts == old(db.posts) + [r.post] && db.nextPostId == old(db.nextPostId) + 1
              && db.users == old(db.users) && db.teams == old(db.teams) && db.codes == old(db.codes)
              && db.nextUserId == old(db.nextUserId) && db.nextTeamId == old(db.nextTeamId)
              && db.nextCodeId == old(db.nextCodeId)
    ensures !r.Posted? ==> unchanged(db)
  {
    if p.Anonymous? {
      return PostDenied(LoginRequired(p));
    }
    var u := p.user;
    if !HasTeam(u) {
      return NoTeam;
    }
    if !NoErrors(PostErrors(description, image)) {
      return PostFormInvalid;
    }
    var imagePath: Option<string> := None;
    if image.Some? && image.value != "" {
      AcceptedPostImage(description, image);
      imagePath := Some(UploadName(stem, image.value));
    }
    var post := AddPost(db, u.id, u.teamId.value, description, imagePath, isGlobal);
    r := Posted(post);
  }
}
