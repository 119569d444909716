/**
 * The input forms and their validators. A field's validators run in order, after the
 * field's own choice check; its inline `validate_<field>` method runs last. `DataRequired`
 * stops the chain and leaves only its own message; the other validators add a message and
 * let the chain go on. A form is accepted when no field has a message.
 *
 * Field data is text as submitted; an absent field is the empty text. A select field's
 * data is the submitted value coerced to an integer, None when that fails.
 */
module Forms {
  import opened Wrappers
  import opened Strings
  import opened Models
  import TextUtils

  datatype Message =
    | Required | BadLength(min: int, max: int) | NotSixDigits
    | NameTaken | InvalidCode | CodeAlreadyUsed | TeamNameTaken
    | NotAValidChoice | ImagesOnly

  /** What one validator does: pass, record a message, or stop the chain. */
  datatype Verdict = Ok | Invalid(m: Message) | Stop(m: Message, clear: bool)

  /**
   * The messages a field ends with, given the messages it already has and the verdicts of
   * its validators in order. A stopping validator that clears (DataRequired) leaves only
   * its own message.
   */
  function RunChain(vs: seq<Verdict>, errors: seq<Message>): (r: seq<Message>)
    ensures r == [] <==> errors == [] && forall k :: 0 <= k < |vs| ==> vs[k].Ok?
    decreases |vs|
  {
    if vs == [] then errors
    else match vs[0]
      case Ok => RunChain(vs[1..], errors)
      case Invalid(m) => RunChain(vs[1..], errors + [m])
      case Stop(m, clear) => if clear then [m] else errors + [m]
  }

  lemma ChainOfTwo(a: Verdict, b: Verdict)
    ensures RunChain([a, b], []) == [] <==> a.Ok? && b.Ok?
  {
    var vs := [a, b];
    assert vs[0] == a && vs[1] == b;
  }

  lemma ChainOfThree(a: Verdict, b: Verdict, c: Verdict)
    ensures RunChain([a, b, c], []) == [] <==> a.Ok? && b.Ok? && c.Ok?
  {
    var vs := [a, b, c];
    assert vs[0] == a && vs[1] == b && vs[2] == c;
  }

  /** Four validators of which the first three pass leave what the last one says. */
  lemma ChainOfFour(a: Verdict, b: Verdict, c: Verdict, d: Verdict)
    ensures RunChain([a, b, c, d], []) == [] <==> a.Ok? && b.Ok? && c.Ok? && d.Ok?
    ensures a.Ok? && b.Ok? && c.Ok? && d.Invalid? ==> RunChain([a, b, c, d], []) == [d.m]
  {
    var vs := [a, b, c, d];
    assert vs[0] == a && vs[1] == b && vs[2] == c && vs[3] == d;
    if a.Ok? && b.Ok? && c.Ok? {
      assert vs[1..] == [b, c, d] && [b, c, d][1..] == [c, d] && [c, d][1..] == [d];
      assert RunChain(vs, []) == RunChain([b, c, d], []);
      assert RunChain([b, c, d], []) == RunChain([c, d], []);
      assert RunChain([c, d], []) == RunChain([d], []);
      if d.Invalid? {
        assert [d][1..] == [];
        assert RunChain([d], []) == RunChain([], [d.m]);
      }
    }
  }

  // ---------------------------------------------------------------- validators

  /** `DataRequired()`: the text is not empty once surrounding whitespace is stripped. */
  function DataRequired(data: string): (v: Verdict)
    ensures v.Ok? <==> !AllSpace(data, PyIsSpace)
    ensures !v.Ok? ==> v == Stop(Required, true)
  {
    StripEmptyIffAllSpace(data, PyIsSpace);
    if Strip(data, PyIsSpace) != "" then Ok else Stop(Required, true)
  }

  /** `Length(min, max)`; a max of -1 means no upper bound. */
  function LengthCheck(data: string, min: int, max: int): (v: Verdict)
    ensures v.Ok? <==> min <= |data| && (max == -1 || |data| <= max)
    ensures !v.Ok? ==> v == Invalid(BadLength(min, max))
  {
    if min <= |data| && (max == -1 || |data| <= max) then Ok else Invalid(BadLength(min, max))
  }

  /**
   * `Regexp(r'^\d{6}$')` under `re.match`: six digits, where `$` also matches before a final
   * newline.
   */
  function SixDigitPattern(data: string): (v: Verdict)
    ensures v.Ok? <==> (|data| == 6 && AllDigits(data))
                       || (|data| == 7 && AllDigits(data[..6]) && data[6] == '\n')
  {
    if (|data| == 6 && AllDigits(data)) || (|data| == 7 && AllDigits(data[..6]) && data[6] == '\n') then Ok
    else Invalid(NotSixDigits)
  }

  /** `validate_username`: the name is not in the user table. */
  function ValidateUsername(users: seq<User>, name: string): (v: Verdict)
    ensures v.Ok? <==> !UsernameTaken(users, name)
  {
    UserByNameFound(users, name);
    if UserByName(users, name).Some? then Invalid(NameTaken) else Ok
  }

  /** `validate_code`: the first code row with this text exists and is not used. */
  function ValidateCode(codes: seq<RegistrationCode>, code: string): (v: Verdict)
    ensures !CodeStored(codes, code) ==> v == Invalid(InvalidCode)
    ensures CodeStored(codes, code) ==>
              (v.Ok? <==> !codes[CodeByString(codes, code).value].isUsed)
    ensures CodeStored(codes, code) && !v.Ok? ==> v == Invalid(CodeAlreadyUsed)
  {
    CodeByStringFound(codes, code);
    match CodeByString(codes, code)
    case None => Invalid(InvalidCode)
    case Some(k) => if codes[k].isUsed then Invalid(CodeAlreadyUsed) else Ok
  }

  predicate TeamNameStored(teams: seq<Team>, name: string) {
    exists k :: 0 <= k < |teams| && teams[k].name == name
  }

  /** `validate_name` of the team form: no team has this name. */
  function ValidateTeamName(teams: seq<Team>, name: string): (v: Verdict)
    ensures v.Ok? <==> !TeamNameStored(teams, name)
  {
    if exists k :: 0 <= k < |teams| && teams[k].name == name then Invalid(TeamNameTaken) else Ok
  }

  /** The choice check of a select field: the coerced value is one of the choices. */
  function ChoiceErrors(data: Option<int>, choices: set<int>): (errors: seq<Message>)
    ensures errors == [] <==> data.Some? && data.value in choices
  {
    if data.Some? && data.value in choices then [] else [NotAValidChoice]
  }

  /** `DataRequired()` on a coerced integer: Python truthiness, so 0 fails. */
  function IntRequired(data: Option<int>): (v: Verdict)
    ensures v.Ok? <==> data.Some? && data.value != 0
  {
    if data.Some? && data.value != 0 then Ok else Stop(Required, true)
  }

  predicate EndsWith(s: string, suffix: string) {
    |suffix| <= |s| && s[|s| - |suffix|..] == suffix
  }

  const ImageExtensions: seq<string> := ["png", "jpg", "jpeg"]

  /**
   * `FileAllowed(['png', 'jpg', 'jpeg'])`: no upload, or an upload with an empty name,
   * passes; otherwise the lower-cased name must end in `.` and an allowed extension.
   */
  function FileAllowed(filename: Option<string>): (v: Verdict)
    ensures v.Ok? <==> filename.None? || filename.value == ""
                       || exists k :: 0 <= k < |ImageExtensions| && EndsWith(Lower(filename.value), "." + ImageExtensions[k])
  {
    if filename.None? || filename.value == "" then Ok
    else if exists k :: 0 <= k < |ImageExtensions| && EndsWith(Lower(filename.value), "." + ImageExtensions[k]) then Ok
    else Stop(ImagesOnly, false)
  }

  // ---------------------------------------------------------------- fields

  /** A name of 3 to 80 characters that is not all whitespace. */
  predicate GoodUsername(name: string) {
    3 <= |name| <= 80 && !AllSpace(name, PyIsSpace)
  }

  /** A password of at least 6 characters that is not all whitespace. */
  predicate GoodPassword(password: string) {
    |password| >= 6 && !AllSpace(password, PyIsSpace)
  }

  /** A field whose only validator is `DataRequired()`. */
  function RequiredErrors(data: string): (r: seq<Message>)
    ensures r == [] <==> !AllSpace(data, PyIsSpace)
    ensures r != [] ==> r == [Required]
  {
    RunChain([DataRequired(data)], [])
  }

  /** The login form's username: `DataRequired(), Length(min=3, max=80)`. */
  function LoginUsernameErrors(name: string): (r: seq<Message>)
    ensures r == [] <==> GoodUsername(name)
  {
    ChainOfTwo(DataRequired(name), LengthCheck(name, 3, 80));
    RunChain([DataRequired(name), LengthCheck(name, 3, 80)], [])
  }

  /** A new account's username: as in the login form, and not taken. */
  function NewUsernameErrors(users: seq<User>, name: string): (r: seq<Message>)
    ensures r == [] <==> GoodUsername(name) && !UsernameTaken(users, name)
  {
    ChainOfThree(DataRequired(name), LengthCheck(name, 3, 80), ValidateUsername(users, name));
    RunChain([DataRequired(name), LengthCheck(name, 3, 80), ValidateUsername(users, name)], [])
  }

  /** A new account's password: `DataRequired(), Length(min=6)`. */
  function NewPasswordErrors(password: string): (r: seq<Message>)
    ensures r == [] <==> GoodPassword(password)
  {
    ChainOfTwo(DataRequired(password), LengthCheck(password, 6, -1));
    RunChain([DataRequired(password), LengthCheck(password, 6, -1)], [])
  }

  /** The format checks on a registration code pass exactly for six ASCII digits. */
  lemma CodeFormatAccepts(code: string)
    ensures (DataRequired(code).Ok? && LengthCheck(code, 6, 6).Ok? && SixDigitPattern(code).Ok?)
            <==> |code| == 6 && AllDigits(code)
  {
    if |code| == 6 && AllDigits(code) {
      assert !PyIsSpace(code[0]);
    }
  }

  /**
   * The registration code: six digits naming a stored, unused code. A well-formed code
   * that is unknown, or already used, gets exactly that one message.
   */
  function CodeErrors(codes: seq<RegistrationCode>, code: string): (r: seq<Message>)
    ensures r == [] <==> && |code| == 6 && AllDigits(code) && CodeStored(codes, code)
                         && !codes[CodeByString(codes, code).value].isUsed
    ensures |code| == 6 && AllDigits(code) && !CodeStored(codes, code) ==> r == [InvalidCode]
    ensures (|code| == 6 && AllDigits(code) && CodeStored(codes, code)
             && codes[CodeByString(codes, code).value].isUsed) ==> r == [CodeAlreadyUsed]
  {
    CodeFormatAccepts(code);
    CodeByStringFound(codes, code);
    ChainOfFour(DataRequired(code), LengthCheck(code, 6, 6), SixDigitPattern(code), ValidateCode(codes, code));
    RunChain([DataRequired(code), LengthCheck(code, 6, 6), SixDigitPattern(code), ValidateCode(codes, code)], [])
  }

  /** The post description: `DataRequired(), Length(min=1, max=5000)`. */
  function DescriptionErrors(description: string): (r: seq<Message>)
    ensures r == [] <==> 1 <= |description| <= 5000 && !AllSpace(description, PyIsSpace)
  {
    ChainOfTwo(DataRequired(description), LengthCheck(description, 1, 5000));
    RunChain([DataRequired(description), LengthCheck(description, 1, 5000)], [])
  }

  /** The post image: `FileAllowed(['png', 'jpg', 'jpeg'])`. */
  function ImageErrors(image: Option<string>): (r: seq<Message>)
    ensures r == [] <==> FileAllowed(image).Ok?
    ensures r != [] ==> r == [ImagesOnly]
  {
    RunChain([FileAllowed(image)], [])
  }

  predicate TeamIdStored(teams: seq<Team>, id: int) {
    exists k :: 0 <= k < |teams| && teams[k].id == id
  }

  predicate UserIdStored(users: seq<User>, id: int) {
    exists k :: 0 <= k < |users| && users[k].id == id
  }

  /** The choices of the create-user form's team field: 0 for "No Team", then every team's id. */
  function TeamChoicesWithNone(teams: seq<Team>): (s: set<int>)
    ensures forall x :: x in s <==> x == 0 || TeamIdStored(teams, x)
  {
    {0} + set k | 0 <= k < |teams| :: teams[k].id as int
  }

  function TeamChoices(teams: seq<Team>): (s: set<int>)
    ensures forall x :: x in s <==> TeamIdStored(teams, x)
  {
    set k | 0 <= k < |teams| :: teams[k].id as int
  }

  function UserChoices(users: seq<User>): (s: set<int>)
    ensures forall x :: x in s <==> UserIdStored(users, x)
  {
    set k | 0 <= k < |users| :: users[k].id as int
  }

  /** The create-user form's team field has no validators: only the choice check. */
  function NewUserTeamErrors(teamId: Option<int>, teams: seq<Team>): (r: seq<Message>)
    ensures r == [] <==> teamId.Some? && (teamId.value == 0 || TeamIdStored(teams, teamId.value))
  {
    RunChain([], ChoiceErrors(teamId, TeamChoicesWithNone(teams)))
  }

  /** A select field with `DataRequired()`: a non-zero value among the choices. */
  function RequiredChoiceErrors(data: Option<int>, choices: set<int>): (r: seq<Message>)
    ensures r == [] <==> data.Some? && data.value != 0 && data.value in choices
    ensures data.Some? && data.value == 0 ==> r == [Required]
  {
    RunChain([IntRequired(data)], ChoiceErrors(data, choices))
  }

  /** The team name: `DataRequired(), Length(min=2, max=100)`, then not in use. */
  function TeamNameErrors(teams: seq<Team>, name: string): (r: seq<Message>)
    ensures r == [] <==> 2 <= |name| <= 100 && !AllSpace(name, PyIsSpace) && !TeamNameStored(teams, name)
  {
    ChainOfThree(DataRequired(name), LengthCheck(name, 2, 100), ValidateTeamName(teams, name));
    RunChain([DataRequired(name), LengthCheck(name, 2, 100), ValidateTeamName(teams, name)], [])
  }

  // ---------------------------------------------------------------- forms

  type FormErrors = map<string, seq<Message>>

  predicate NoErrors(e: FormErrors) {
    forall f :: f in e ==> e[f] == []
  }

  lemma NoErrorsOne(a: string, x: seq<Message>)
    ensures NoErrors(map[a := x]) <==> x == []
  {
    assert a in map[a := x];
  }

  lemma NoErrorsTwo(a: string, x: seq<Message>, b: string, y: seq<Message>)
    requires a != b
    ensures NoErrors(map[a := x, b := y]) <==> x == [] && y == []
  {
    var e := map[a := x, b := y];
    assert a in e && e[a] == x;
    assert b in e && e[b] == y;
  }

  lemma NoErrorsThree(a: string, x: seq<Message>, b: string, y: seq<Message>, c: string, z: seq<Message>)
    requires a != b && a != c && b != c
    ensures NoErrors(map[a := x, b := y, c := z]) <==> x == [] && y == [] && z == []
  {
    var e := map[a := x, b := y, c := z];
    assert a in e && e[a] == x;
    assert b in e && e[b] == y;
    assert c in e && e[c] == z;
  }

  function LoginErrors(username: string, password: string): FormErrors {
    map["username" := LoginUsernameErrors(username), "password" := RequiredErrors(password)]
  }

  function RegistrationErrors(code: string, username: string, password: string,
                              users: seq<User>, codes: seq<RegistrationCode>): FormErrors
  {
    map["code" := CodeErrors(codes, code), "username" := NewUsernameErrors(users, username),
        "password" := NewPasswordErrors(password)]
  }

  function PostErrors(description: string, image: Option<string>): FormErrors {
    map["description" := DescriptionErrors(description), "image" := ImageErrors(image)]
  }

  function CreateUserErrors(username: string, password: string, teamId: Option<int>,
                            users: seq<User>, teams: seq<Team>): FormErrors
  {
    map["username" := NewUsernameErrors(users, username), "password" := NewPasswordErrors(password),
        "team_id" := NewUserTeamErrors(teamId, teams)]
  }

  function CreateTeamErrors(name: string, teams: seq<Team>): FormErrors {
    map["name" := TeamNameErrors(teams, name)]
  }

  function AssignTeamErrors(userId: Option<int>, teamId: Option<int>, users: seq<User>, teams: seq<Team>): FormErrors {
    map["user_id" := RequiredChoiceErrors(userId, UserChoices(users)),
        "team_id" := RequiredChoiceErrors(teamId, TeamChoices(teams))]
  }

  const BatchSizes: set<int> := {5, 10, 20, 50}

  function GenerateCodesErrors(count: Option<int>): FormErrors {
    map["count" := RequiredChoiceErrors(count, BatchSizes)]
  }

  // ---------------------------------------------------------------- what each form accepts

  /** The login form checks lengths of the name only; any non-blank password passes. */
  lemma LoginAccepts(username: string, password: string)
    ensures NoErrors(LoginErrors(username, password)) <==>
              GoodUsername(username) && !AllSpace(password, PyIsSpace)
  {
    NoErrorsTwo("username", LoginUsernameErrors(username), "password", RequiredErrors(password));
  }

  /**
   * Registration is accepted exactly for a six-digit code that is stored and unused, a
   * free 3 to 80 character name and a password of at least 6 characters, none blank.
   */
  lemma RegistrationAccepts(code: string, username: string, password: string,
                            users: seq<User>, codes: seq<RegistrationCode>)
    ensures NoErrors(RegistrationErrors(code, username, password, users, codes)) <==>
              && |code| == 6 && AllDigits(code)
              && CodeStored(codes, code) && !codes[CodeByString(codes, code).value].isUsed
              && GoodUsername(username) && !UsernameTaken(users, username)
              && GoodPassword(password)
  {
    NoErrorsThree("code", CodeErrors(codes, code), "username", NewUsernameErrors(users, username),
                  "password", NewPasswordErrors(password));
  }

  /** A post needs a non-blank description of 1 to 5000 characters and, if any, an image name. */
  lemma PostAccepts(description: string, image: Option<string>)
    ensures NoErrors(PostErrors(description, image)) <==>
              && 1 <= |description| <= 5000 && !AllSpace(description, PyIsSpace)
              && FileAllowed(image).Ok?
  {
    NoErrorsTwo("description", DescriptionErrors(description), "image", ImageErrors(image));
  }

  /** Creating a user: a good free name, a good password, and "No Team" or an existing team. */
  lemma CreateUserAccepts(username: string, password: string, teamId: Option<int>,
                          users: seq<User>, teams: seq<Team>)
    ensures NoErrors(CreateUserErrors(username, password, teamId, users, teams)) <==>
              && GoodUsername(username) && !UsernameTaken(users, username)
              && GoodPassword(password)
              && teamId.Some? && (teamId.value == 0 || TeamIdStored(teams, teamId.value))
  {
    NoErrorsThree("username", NewUsernameErrors(users, username), "password", NewPasswordErrors(password),
                  "team_id", NewUserTeamErrors(teamId, teams));
  }

  /** A team name is accepted when it has 2 to 100 characters, is not blank and is not in use. */
  lemma CreateTeamAccepts(name: string, teams: seq<Team>)
    ensures NoErrors(CreateTeamErrors(name, teams)) <==>
              2 <= |name| <= 100 && !AllSpace(name, PyIsSpace) && !TeamNameStored(teams, name)
  {
    NoErrorsOne("name", TeamNameErrors(teams, name));
  }

  /** Assignment is accepted for an existing user and an existing team (ids are never 0). */
  lemma AssignTeamAccepts(userId: Option<int>, teamId: Option<int>, users: seq<User>, teams: seq<Team>)
    requires forall k :: 0 <= k < |users| ==> users[k].id != 0
    requires forall k :: 0 <= k < |teams| ==> teams[k].id != 0
    ensures NoErrors(AssignTeamErrors(userId, teamId, users, teams)) <==>
              && userId.Some? && UserIdStored(users, userId.value)
              && teamId.Some? && TeamIdStored(teams, teamId.value)
  {
    NoErrorsTwo("user_id", RequiredChoiceErrors(userId, UserChoices(users)),
                "team_id", RequiredChoiceErrors(teamId, TeamChoices(teams)));
  }

  /** The batch size must be one of 5, 10, 20 and 50. */
  lemma GenerateCodesAccepts(count: Option<int>)
    ensures NoErrors(GenerateCodesErrors(count)) <==> count.Some? && count.value in {5, 10, 20, 50}
  {
    NoErrorsOne("count", RequiredChoiceErrors(count, BatchSizes));
  }

  // ---------------------------------------------------------------- the image check, twice

  lemma LowerSlice(f: string, i: nat)
    requires i <= |f|
    ensures Lower(f[i..]) == Lower(f)[i..]
  {
  }

  lemma LowerKeepsDots(f: string)
    ensures forall k :: 0 <= k < |f| ==> (Lower(f)[k] == '.' <==> f[k] == '.')
  {
  }

  /** A lower-cased name ending in `.x`, x without dots, has its last dot just before x. */
  lemma ExtensionAfterLastDot(f: string, x: string)
    requires '.' !in x
    requires EndsWith(Lower(f), "." + x)
    ensures TextUtils.LastDotAt(f, |f| - |x| - 1)
    ensures Lower(f[|f| - |x|..]) == x
  {
    var l := Lower(f);
    var p := |f| - |x| - 1;
    LowerKeepsDots(f);
    assert l[p..] == "." + x;
    assert l[p] == '.';
    assert forall j :: p < j < |f| ==> l[j] == x[j - p - 1];
    LowerSlice(f, p + 1);
  }

  /** The lower-cased name ends in a dot and the lower-cased text after its last dot. */
  lemma LastDotEndsName(f: string, i: int)
    requires TextUtils.LastDotAt(f, i)
    ensures EndsWith(Lower(f), "." + Lower(f[i + 1..]))
  {
    var l := Lower(f);
    LowerKeepsDots(f);
    LowerSlice(f, i + 1);
    assert l[i..] == [l[i]] + l[i + 1..];
  }

  lemma FileAllowedImpliesAllowedFile(f: string)
    requires f != "" && FileAllowed(Some(f)).Ok?
    ensures TextUtils.AllowedFile(f, {"png", "jpg", "jpeg"})
  {
    var exts: set<string> := {"png", "jpg", "jpeg"};
    var k :| 0 <= k < |ImageExtensions| && EndsWith(Lower(f), "." + ImageExtensions[k]);
    var x := ImageExtensions[k];
    ExtensionAfterLastDot(f, x);
    var p := |f| - |x| - 1;
    assert f[p + 1..] == f[|f| - |x|..];
    TextUtils.AllowedFileMeaning(f, exts);
    assert TextUtils.LastDotAt(f, p) && Lower(f[p + 1..]) in exts;
  }

  lemma AllowedFileImpliesFileAllowed(f: string)
    requires f != "" && TextUtils.AllowedFile(f, {"png", "jpg", "jpeg"})
    ensures FileAllowed(Some(f)).Ok?
  {
    TextUtils.AllowedFileMeaning(f, {"png", "jpg", "jpeg"});
    var i :| TextUtils.LastDotAt(f, i) && Lower(f[i + 1..]) in {"png", "jpg", "jpeg"};
    LastDotEndsName(f, i);
    var k := ListedExtension(Lower(f[i + 1..]));
    assert EndsWith(Lower(f), "." + ImageExtensions[k]);
  }

  /** Each allowed extension has its place in the form's list. */
  lemma ListedExtension(x: string) returns (k: nat)
    requires x in {"png", "jpg", "jpeg"}
    ensures k < |ImageExtensions| && ImageExtensions[k] == x
  {
    k := if x == "png" then 0 else if x == "jpg" then 1 else 2;
  }

  /**
   * The form's check and the server's `allowed_file` agree on every non-empty name:
   * ending in `.png`, `.jpg` or `.jpeg` after lower-casing is the same as having one of
   * those after the last dot.
   */
  lemma FileAllowedAgreesWithAllowedFile(f: string)
    requires f != ""
    ensures FileAllowed(Some(f)).Ok? <==> TextUtils.AllowedFile(f, {"png", "jpg", "jpeg"})
  {
    if FileAllowed(Some(f)).Ok? { FileAllowedImpliesAllowedFile(f); }
    if TextUtils.AllowedFile(f, {"png", "jpg", "jpeg"}) { AllowedFileImpliesFileAllowed(f); }
  }
}
