# Campfire Adelaide dashboard: the verified core

This project is a Dafny model of the parts of the Campfire Adelaide dashboard that have
logic of their own. The dashboard is a Flask application with browser scripts. The model
covers:

- the server's fixed-window rate limiter and the judge gate (`decorators.py`);
- mention extraction, the mention-link rewrite, HTML sanitising, the upload-extension
  whitelist and the "time ago" wording (`utils.py`);
- the form validators (`forms.py`);
- the handlers that change the tables: registration, code generation and reset, user
  creation, team assignment and post creation, plus the access and routing rules and the
  post-login redirect (`app.py`);
- database seeding (`init_db.py`);
- the judges' weighted score and the unique constraints on votes and reactions (`models.py`);
- the browser helpers:
  - mention autocomplete;
  - the lightbox;
  - the upload check;
  - the theme toggle;
  - the reaction bar;
  - the comments toggle;
  - the CSRF-token readers;
  - `escapeHtml`;
  - the toast colours.

There is one module per source file. Two modules hold shared helpers: `Strings` (string
functions of Python and JavaScript) and `Wrappers` (`Option`). `CsrfJs` holds the four
copies of `getCsrfToken`, which the page scripts define in two shapes.

State the source changes in place is modelled as classes:

- `Models.Database` holds the tables, as sequences in insertion order. Per-table id
  counters stand for the autoincrement keys.
- `RateLimit.RateLimiter` holds `rate_limit_storage`.
- `MainJs.Lightbox`, `MainJs.FileInput` and `MainJs.CommentsSection` hold the lightbox
  globals, the file input and a comments section of the page script.
- `DarkModeJs.ThemeState` holds the `data-theme` attribute, the localStorage entry and
  the icon.
- `ReactionsJs.ReactionContainer` holds a post's reaction bar.
- `CommentsJs.CommentsSection` holds a comments section of the comments script.
- `MentionsJs.MentionCache` holds the user cache.

Each method that changes state is proved against a specification function. Further lemmas
are proved about those functions: round trips, invariants, bounds and "nothing else
changes".

Some things are inputs rather than computed values:

- the signed-in user (`Models.Principal`);
- the current time, in integer seconds on the server and milliseconds in the browser;
- the submitted form data, coerced as WTForms coerces it;
- the random draws of code generation (`seq<nat>`, one draw per six-digit candidate);
- the timestamp-and-random stem of an upload name;
- the server's replies.

## Model

| member | source | states |
|---|---|---|
| RateLimit.Identifier | decorators.py:39-43 | a signed-in requester is counted under a `user_` key, anyone else under an `ip_` key (an absent address formats as `None`) |
| RateLimit.IdentifierSeparatesActions | decorators.py:40-43 | two different actions of the same requester never share a counter |
| RateLimit.IdentifierSeparatesUsers | decorators.py:41 | signed-in users with different ids never share a counter, whatever their actions |
| RateLimit.IdentifierSeparatesPrincipals | decorators.py:40-43 | a signed-in user and an anonymous address never share a counter |
| RateLimit.Decide | decorators.py:49-73 | a request is refused iff its key is in the window with count at least the maximum, and then the table is untouched; an allowed request inside the window adds exactly 1 and keeps the start; an unseen key or an expired window gets count 1 and start now; other keys are unchanged |
| RateLimit.Sweep | decorators.py:12-20 | `clear_old_rate_limits` on the table; what it keeps is stated by RateLimit.WindowCutToOneHour and RateLimit.RateLimiter.ClearOldRateLimits |
| RateLimit.Step | decorators.py:44-73 | one non-admin request: the sweep, then RateLimit.Decide; its bounds are stated by RateLimit.StepKeepsCountsWithin, RateLimit.RejectionKeepsEntry and RateLimit.BurstAllowsExactlyMax |
| RateLimit.WindowCutToOneHour | decorators.py:12-20 | an entry older than 3600 s is swept first, so the next request passes and opens a fresh window, however long the configured window |
| RateLimit.RejectionKeepsEntry | decorators.py:54-59 | after a refusal the key's entry is exactly what it was, and its count is at least the maximum |
| RateLimit.StepKeepsCountsWithin | decorators.py:50-73 | for a limit of at least 1, every stored count stays between 1 and its action's limit after any request |
| RateLimit.BurstAllowsExactlyMax | decorators.py:50-73 | from an unseen key, the first max requests of an instant all pass and leave count max; the next one is refused |
| RateLimit.RateLimiter.constructor | decorators.py:9 | the storage starts empty, so every count is within any limit |
| RateLimit.RateLimiter.ClearOldRateLimits | decorators.py:12-20 | the table afterwards is exactly the old entries whose age is at most 3600 s, each unchanged |
| RateLimit.RateLimiter.Check | decorators.py:34-75 | an admin passes and the table is untouched; anyone else gets the sweep, then the window decision under their identifier; when each action is always checked against one limit of at least 1, every stored count stays between 1 and that limit |
| RateLimit.JudgeRequired | decorators.py:116-126 | only signed-in judges or admins proceed; a signed-in non-judge also gets a message, an anonymous request does not |
| TextUtils.RunEnd | utils.py:14 | the end of the maximal run of word characters from i: all word characters up to it, and none at it |
| TextUtils.ScanFrom | utils.py:14-15 | every match found is `@` followed by a non-empty maximal run of word characters; matches do not overlap and come in order |
| TextUtils.FindAll | utils.py:15 | one name per match, the text of the run after the `@` |
| TextUtils.ScanFindsEveryMention | utils.py:14-15 | when `@` is no word character, every `@` followed by a word character starts a match |
| TextUtils.MentionFor | utils.py:19-26 | a record is made only for an existing user who is not the author, and it carries the post id, the comment id and the author as mentioner; the first user of that name who is not the author always yields one |
| TextUtils.ParseMentions | utils.py:8-29 | the records returned are exactly one per distinct matched name of an existing user other than the author, with the given ids; with distinct user ids no user is mentioned twice |
| TextUtils.Replacement | utils.py:38-43 | a match becomes a profile link when the user exists, and stays `@name` otherwise |
| TextUtils.HighlightIsSubstitution | utils.py:32-45 | the rewrite replaces every match of `@(\w+)` by its replacement and copies all other text unchanged |
| TextUtils.HighlightMentions | utils.py:32-45 | `highlight_mentions`; its meaning is stated by TextUtils.HighlightIsSubstitution and TextUtils.HighlightUnknownNames |
| TextUtils.HighlightUnknownNames | utils.py:38-45 | with no matched name registered, the text comes back unchanged |
| TextUtils.SanitizeIsPerCharacter | utils.py:53-58 | the chain of `html.escape` replacements followed by `\n` to `<br>` equals rewriting each character on its own |
| TextUtils.SanitizeHtml | utils.py:48-58 | `sanitize_html`; its meaning is stated by TextUtils.SanitizeIsPerCharacter, TextUtils.SanitizeOutputShape and TextUtils.SanitizeRoundTrip |
| TextUtils.SanitizeOutputShape | utils.py:53-58 | every `<` in the output begins `<br>`, and no quote or apostrophe is left |
| TextUtils.SanitizeRoundTrip | utils.py:48-58 | decoding the sanitized text gives back the original, so nothing is lost |
| TextUtils.SanitizeConcat | utils.py:53-58 | sanitizing distributes over concatenation |
| TextUtils.AllowedFileMeaning | utils.py:90-92 | a name is allowed iff it has a dot and the lower-cased text after its last dot is an allowed extension |
| TextUtils.AllowedFile | utils.py:90-92 | `allowed_file`; its meaning is stated by TextUtils.AllowedFileMeaning and TextUtils.AllowedFileOfExtension |
| TextUtils.AllowedFileOfExtension | utils.py:90-92 | `base.ext` with a dot-free ext is allowed iff ext lower-cased is allowed |
| TextUtils.FormatTimeAgo | utils.py:121-140 | the bucket is just now below 60 s (negative ages included), then whole minutes below 3600, hours below 86400, days below 604800, a date otherwise; each count is the floor of the age over its unit and lies in its bucket's range |
| TextUtils.PhrasePluralIffNotOne | utils.py:132-138 | the noun is plural exactly when the count is not 1 |
| TextUtils.Phrase | utils.py:128-138 | the wording of `format_time_ago`; its plural rule is stated by TextUtils.PhrasePluralIffNotOne |
| Forms.RunChain | forms.py:11 | a field has no messages iff it had none and every validator passed |
| Forms.ChainOfFour | forms.py:19-23 | four validators leave no message iff all pass; when only the last fails, its message alone remains |
| Forms.DataRequired | forms.py:11 | passes iff the text is not all whitespace; otherwise it stops the chain with its own message only |
| Forms.LengthCheck | forms.py:21 | passes iff the length is within the bounds (a max of -1 is no bound) |
| Forms.SixDigitPattern | forms.py:22 | passes iff the text is six ASCII digits, or six digits and a final newline (`$` under `re.match`) |
| Forms.ValidateUsername | forms.py:28-32 | passes iff no user has the name |
| Forms.ValidateCode | forms.py:34-40 | an unknown code fails as invalid; a stored code passes iff its first row is unused, and fails as already used otherwise |
| Forms.ValidateTeamName | forms.py:80-84 | passes iff no team has the name |
| Forms.ChoiceErrors | forms.py:65 | a select field is clean iff its value coerced and is one of the choices |
| Forms.IntRequired | forms.py:89 | `DataRequired` on a coerced integer passes iff it is present and not 0 |
| Forms.FileAllowed | forms.py:46 | passes iff there is no upload, its name is empty, or its lower-cased name ends in `.png`, `.jpg` or `.jpeg` |
| Forms.RequiredErrors | forms.py:12 | clean iff the text is not blank; otherwise the one message Required |
| Forms.LoginUsernameErrors | forms.py:11 | clean iff the name has 3 to 80 characters and is not blank |
| Forms.NewUsernameErrors | forms.py:24-32 | clean iff the name is a good 3 to 80 character name that no user has |
| Forms.NewPasswordErrors | forms.py:25 | clean iff the password has at least 6 characters and is not blank |
| Forms.CodeFormatAccepts | forms.py:19-23 | the three format checks pass together exactly for six ASCII digits |
| Forms.CodeErrors | forms.py:19-40 | clean iff the code is six digits, stored and unused; a well-formed unknown or used code gets exactly that one message |
| Forms.DescriptionErrors | forms.py:45 | clean iff the description has 1 to 5000 characters and is not blank |
| Forms.ImageErrors | forms.py:46 | clean iff the image check passes, otherwise the single message Images only |
| Forms.TeamChoicesWithNone | app.py:190 | the create-user team choices are 0 ("No Team") and every team's id |
| Forms.TeamChoices | app.py:191 | the assignment team choices are exactly the team ids |
| Forms.UserChoices | app.py:195 | the assignment user choices are exactly the user ids |
| Forms.NewUserTeamErrors | forms.py:65 | clean iff the value is 0 or an existing team's id |
| Forms.RequiredChoiceErrors | forms.py:89-90 | clean iff the value is non-zero and among the choices; 0 gets Required |
| Forms.TeamNameErrors | forms.py:77-84 | clean iff the name has 2 to 100 characters, is not blank and no team has it |
| Forms.LoginAccepts | forms.py:9-14 | the login form is accepted iff the name is a good 3 to 80 character name and the password is not blank; there is no password length rule |
| Forms.LoginErrors | forms.py:9-14 | the field-by-field errors of `LoginForm`; when they are all empty is stated by Forms.LoginAccepts |
| Forms.RegistrationAccepts | forms.py:17-40 | registration is accepted iff the code is six digits, stored and unused, the name is good and free, and the password is good |
| Forms.RegistrationErrors | forms.py:17-40 | the field-by-field errors of `RegistrationForm`; when they are all empty is stated by Forms.RegistrationAccepts |
| Forms.PostAccepts | forms.py:43-48 | a post is accepted iff the description has 1 to 5000 characters and is not blank, and the image check passes |
| Forms.PostErrors | forms.py:43-48 | the field-by-field errors of `PostForm`; when they are all empty is stated by Forms.PostAccepts |
| Forms.CreateUserAccepts | forms.py:60-72 | creating a user is accepted iff the name is good and free, the password is good, and the team is 0 or an existing team |
| Forms.CreateUserErrors | forms.py:60-72 | the field-by-field errors of `CreateUserForm`; when they are all empty is stated by Forms.CreateUserAccepts |
| Forms.CreateTeamAccepts | forms.py:75-84 | a team name is accepted iff it has 2 to 100 characters, is not blank and is not in use |
| Forms.CreateTeamErrors | forms.py:75-84 | the field-by-field errors of `CreateTeamForm`; when they are all empty is stated by Forms.CreateTeamAccepts |
| Forms.AssignTeamAccepts | forms.py:87-91 | assignment is accepted iff both ids name an existing user and an existing team |
| Forms.AssignTeamErrors | forms.py:87-91 | the field-by-field errors of `AssignTeamForm`; when they are all empty is stated by Forms.AssignTeamAccepts |
| Forms.GenerateCodesAccepts | forms.py:94-100 | the batch size is accepted iff it is 5, 10, 20 or 50 |
| Forms.GenerateCodesErrors | forms.py:94-100 | the field-by-field errors of `GenerateCodesForm`; when they are all empty is stated by Forms.GenerateCodesAccepts |
| Forms.FileAllowedAgreesWithAllowedFile | forms.py:46 | for a non-empty name, the form's image check and the server's `allowed_file` agree |
| App.LoginRequired | app.py:154 | only signed-in requests pass; the rest go to the login page |
| App.AdminRequired | app.py:36-43 | only signed-in administrators pass; everyone else gets 403 |
| App.AdminOnlyMeaning | app.py:164-165 | on the admin routes, anonymous requests go to log in, signed-in non-admins get 403, admins pass |
| App.Index | app.py:91-99 | admins go to the admin dashboard, other users to theirs, anonymous requests to the login page |
| App.UserDashboard | app.py:296-303 | only signed-in non-admins see the page; admins are redirected to the admin dashboard |
| App.TeamTimeline | app.py:326-335 | only signed-in users with a team see the page; users without one go back to the dashboard |
| App.NextTarget | app.py:113-115 | as written: `next` is used when present and starting with `/`, otherwise index |
| App.NextTargetAdmitsOtherHosts | app.py:113-115 | the check as written lets `//evil.example` through, a target on another host |
| App.SafeNextTarget | app.py:113-115 | the corrected check always gives a local path; a local `next` is kept, one that leaves the site gives index |
| App.Login | app.py:102-121 | a signed-in user goes to index; accepted credentials redirect to the submitted `next` whenever it starts with `/`, including `//host`, and to index otherwise; rejected credentials get the login page again |
| App.SafeLogin | app.py:102-121 | the handler with the corrected check: accepted credentials never redirect off the site, a local `next` is followed, and it answers differently from App.Login only on a `next` that leaves the site |
| App.SafeNextTargetAgrees | app.py:113-115 | the two checks differ only on targets that leave the site |
| App.AllowedImageByExtension | app.py:46-49 | `base.ext` is accepted exactly when ext, in any case, is png, jpg or jpeg |
| App.AllowedImage | app.py:46-49 | the application's `allowed_file`; stated by App.AllowedImageByExtension |
| App.UploadName | app.py:52-57 | an accepted upload `base.ext` (ext without dots) is stored under the stem, a dot and ext lower-cased, which is one of png, jpg, jpeg |
| App.TimeAgo | app.py:64-83 | `time_ago` on a fractional age gives the same bucket and count as `format_time_ago` on its whole seconds |
| App.CodesUnderTeamChange | app.py:224-227 | changing a user's team keeps every code's reference to its user valid |
| App.AcceptedRegistration | app.py:131-133 | an accepted registration form guarantees that the code row exists and is unused and that the name is free |
| App.AcceptedPostImage | app.py:356-359 | an accepted post form with an image has an image name that `save_upload` accepts |
| App.RegistrationKeepsWellFormed | app.py:136-145 | adding the new user and marking the code used keeps the user and code tables well formed |
| App.Register | app.py:124-150 | registration succeeds iff the requester is anonymous and the form is valid; it then appends an ordinary user without a team under the next id, marks the first code row with that text as used by that user, and changes nothing else; otherwise the database is unchanged |
| App.CommitRegistration | app.py:136-145 | the writes of registration: the new user, then the consumed code marked used by that user |
| App.ResetCode | app.py:282-292 | admins only; an unknown id is 404; otherwise the code with that id becomes unused with no user, keeping its text, and nothing else changes |
| App.GenerateCodes | app.py:253-276 | admins only; a valid size n adds n unused rows whose codes are six digits, pairwise distinct and absent from the table, and nothing else changes; it fails only when the draws hold fewer than n distinct codes not in the table, and a refused or failed request changes nothing |
| App.ChosenTeam | app.py:200-201 | a created user gets a team only for a selected id above 0 |
| App.CreateUser | app.py:180-207 | admins only; a valid form appends a user with that name and admin flag, never a judge, under the next id, with the chosen team; otherwise nothing changes |
| App.AssignTeam | app.py:210-232 | admins only; the team is assigned iff an admin submits a valid form, and then exactly the chosen user's team becomes the chosen existing team; the user choices are the stored users, so no valid form reaches the unknown-user branch; any other outcome changes nothing |
| App.CreatePost | app.py:346-378 | refused to users without a team; a valid form appends one post by the author for the author's team with the description and the global flag, and with an image name exactly when an image was uploaded |
| Codes.MarkUsed | app.py:142-143 | a consumed code is used, records its user, and keeps its id and text |
| Codes.Reset | app.py:288-289 | a reset code is unused, records no user, and keeps its id and text |
| Codes.UseThenResetRestores | app.py:142-143 | using an unused code and resetting it gives back exactly the row it was |
| Codes.ResetIsConsistentAndIdempotent | app.py:288-289 | a reset code is consistent, and resetting twice is resetting once |
| Codes.MarkUsedIsConsistent | app.py:142-143 | a code marked used by an existing user is consistent |
| Codes.CodeStrings | app.py:267 | lists exactly the code strings stored in the table |
| Codes.Candidate | app.py:266 | every draw gives six ASCII digits |
| Codes.Pick | app.py:263-272 | the reference selection: the candidates in draw order, keeping each that is neither stored nor kept already, until n are kept; Codes.DrawFreshCodes is proved equal to it |
| Codes.DrawFreshCodes | app.py:263-272 | the batch is the first n draws, in draw order, that are neither stored nor drawn before (`Codes.Pick`); they are six digits, pairwise distinct and none stored; it succeeds iff the draws hold n distinct codes that are not stored, and on failure every draw was stored or chosen |
| Codes.AddCodesKeepsWellFormed | app.py:270-274 | appending a fresh batch keeps ids increasing, code strings unique and every row consistent |
| Codes.AddCodes | app.py:270-274 | the batch is appended as unused rows under fresh ids, and nothing else changes |
| InitDb.AddAdmin | init_db.py:19-23 | the new administrator is appended as an admin, not a judge, without a team, and nothing else changes |
| InitDb.InitDatabase | init_db.py:9-48 | the admin is added iff no user has its name; with no codes, ten fresh six-digit codes are added unless the draws hold fewer than ten distinct codes; teams and posts are untouched; a seeded database is left unchanged, so a second run adds nothing |
| Models.FirstFrom | forms.py:30 | `filter_by(...).first()`: the first matching row at or after i, or none when no row matches |
| Models.UserByNameFound | forms.py:30-31 | the name lookup finds a row iff some user has the name |
| Models.CodeByStringFound | forms.py:36-37 | the code lookup finds a row iff some row has the code |
| Models.UserIdExistsUnderAppend | models.py:107 | a user id stays present when a user is appended |
| Models.CodesUnderNewUser | models.py:107 | adding a user keeps every code's reference to its user valid |
| Models.UsersUnderNewUser | models.py:14-15 | appending a user with the next id and a free name keeps ids increasing and names unique |
| Models.AddUser | app.py:198-203 | a user with a free name gets the next user id and is appended with the given flags and team; every other table and counter is unchanged and the database stays well formed |
| Models.PostsUnderNewPost | models.py:73-77 | appending a post with the next id keeps post ids in range and increasing |
| Models.AddPost | app.py:361-369 | the post gets the next post id and is appended with the given author, team, text, image and flag; every other table and counter is unchanged and the database stays well formed |
| Models.Database.constructor | init_db.py:13 | the tables start empty with every id counter at 1 |
| Models.TotalScore | models.py:201-208 | in exact arithmetic the total is 3·innovation + 3·implementation + 2·design + 2·presentation |
| Models.TotalScoreBounds | models.py:187-190 | with every score in 1..10 the total lies in 10..100 |
| Models.TotalScoreOfEqualScores | models.py:203-208 | four equal scores s give 10·s, because the weights sum to 1 |
| Models.TotalScoreIncrements | models.py:204-207 | one more point in innovation or implementation adds 3, in design or presentation 2 |
| Models.InsertVote | models.py:199 | a vote is inserted iff no vote of the same judge for the same team exists; the table then keeps the constraint |
| Models.InsertReaction | models.py:132 | a reaction is inserted iff no reaction with the same post, user and type exists; the table then keeps the constraint |
| Models.AtMostOneVotePerPair | models.py:199 | in a table that keeps the constraint, a judge and a team pick out at most one vote |
| MentionsJs.JsSubstring | static/js/mentions.js:23 | within bounds, `substring` is the slice |
| MentionsJs.MentionTrigger | static/js/mentions.js:23-31 | a user search for a term starts iff the text before the cursor ends in `@` and ASCII word characters, and the term is those characters; otherwise the dropdown is hidden |
| MentionsJs.HandleMentionInput | static/js/mentions.js:17-32 | `handleMentionInput`: the trigger on the text before the cursor; stated by MentionsJs.MentionTrigger and MentionsJs.TriggerExamples |
| MentionsJs.TriggerExamples | static/js/mentions.js:24-28 | just after `@name` the term is name; a following space closes the dropdown |
| MentionsJs.HandleMentionKeydown | static/js/mentions.js:35-59 | ArrowDown highlights min(i+1, n-1), ArrowUp max(i-1, 0); Enter or Tab chooses the highlighted entry if there is one; Escape closes; a hidden dropdown ignores keys |
| MentionsJs.ArrowsStayInList | static/js/mentions.js:43-50 | with at least one entry the arrows always highlight an entry of the list |
| MentionsJs.ArrowsStopAtTheEnds | static/js/mentions.js:43-50 | down from the last entry stays there, up from the first stays there |
| MentionsJs.SelectMentionSplices | static/js/mentions.js:153-163 | the text becomes the part before the last `@` before the cursor, then `@name `, then the text from the cursor on; the cursor lands just after the inserted space |
| MentionsJs.SelectMention | static/js/mentions.js:149-163 | `selectMention`: the new text and cursor; stated by MentionsJs.SelectMentionSplices |
| MentionsJs.Matching | static/js/mentions.js:197-199 | keeps exactly the users whose lower-cased name contains the lower-cased term, in their order |
| MentionsJs.Take | static/js/mentions.js:195 | `slice(0, 10)`: a prefix of at most n entries, the whole list when it is short enough |
| MentionsJs.FilterUsers | static/js/mentions.js:194-201 | at most ten users: the first ten for an empty term, else the first ten matching users |
| MentionsJs.FilterUsersMeaning | static/js/mentions.js:194-201 | the result keeps the users' order, holds only matching users for a non-empty term, and holds every matching user unless cut at ten |
| MentionsJs.CacheFreshForAMinute | static/js/mentions.js:173-174 | a non-empty cache is used for less than 60000 ms after its refresh, and not at 60000 ms |
| MentionsJs.MentionCache.FetchUsers | static/js/mentions.js:170-191 | a fresh cache answers filtered locally and is kept; otherwise a successful reply is returned and refills the cache with the time now; a failed reply gives nothing and keeps the cache |
| MainJs.JsRem | static/js/main.js:168 | JavaScript's `%`: the sign of the dividend, magnitude below the divisor |
| MainJs.NextIndex | static/js/main.js:172-175 | from -1 to n-1, moves to (i+1) mod n, which is i+1 or 0 past the last picture |
| MainJs.PrevIndex | static/js/main.js:167-170 | from 0 to n-1, moves to (i-1+n) mod n, which is i-1 or n-1 before the first picture |
| MainJs.NextPrevInverse | static/js/main.js:167-175 | Next then Prev, and Prev then Next, return to the same picture |
| MainJs.StepsForwardWraps | static/js/main.js:172-175 | up to n steps forward count on from i and wrap past the last picture to 0 |
| MainJs.FullCircle | static/js/main.js:172-175 | n steps forward return to the start |
| MainJs.CounterFor | static/js/main.js:141 | the counter is shown iff there is more than one picture, as position index+1 of n |
| MainJs.CounterInRangeAfterMove | static/js/main.js:177-186 | after any move through two or more pictures the counter shows a position from 1 to n |
| MainJs.Lightbox.constructor | static/js/main.js:120-121 | no pictures and index 0 |
| MainJs.Lightbox.Open | static/js/main.js:123-130 | with a list: the list, and the first position of src in it or -1; without one: src alone at 0 |
| MainJs.Lightbox.Next | static/js/main.js:172-175 | the pictures are kept and the index moves to NextIndex |
| MainJs.Lightbox.Prev | static/js/main.js:167-170 | the pictures are kept and the index moves to PrevIndex |
| MainJs.FileInput.Validate | static/js/main.js:73-97 | accepted iff there is no file, or its type is allowed and its size at most the limit; an accepted file is kept, a refused one is cleared |
| MainJs.UploadLimitIsInclusive | static/js/main.js:90 | a file of exactly the limit passes, one byte more does not, and a wrong type never does |
| MainJs.FlipDisplay | static/js/main.js:285 | the result is block exactly for none, and is always none or block |
| MainJs.FlipDisplayInvolution | static/js/main.js:285 | on none and block the flip is its own inverse; anything else becomes none |
| MainJs.CommentsSection.Toggle | static/js/main.js:282-287 | the display becomes the flip of what it was |
| DarkModeJs.Toggled | static/js/dark-mode.js:6-7 | dark goes to light; anything else, an unset attribute included, goes to dark |
| DarkModeJs.ToggleTwice | static/js/dark-mode.js:7 | on light and dark, toggling twice gives the theme back; from anything else it ends on light |
| DarkModeJs.Icon | static/js/dark-mode.js:26 | the sun for dark, the moon for every other theme |
| DarkModeJs.InitialTheme | static/js/dark-mode.js:60-66 | the stored theme if truthy, else the server's if truthy, else light; never empty |
| DarkModeJs.ThemeState.UpdateIcon | static/js/dark-mode.js:23-28 | an icon that exists shows the theme's icon; a page without one, and the rest of the state, are unchanged |
| DarkModeJs.ThemeState.ToggleDarkMode | static/js/dark-mode.js:4-20 | the attribute and localStorage both get the toggled theme, and the icon follows |
| DarkModeJs.ThemeState.Initialize | static/js/dark-mode.js:56-72 | the attribute gets the initial theme and the icon follows; localStorage is not written |
| ReactionsJs.InfoFor | static/js/reactions.js:48 | a type missing from the server's map counts 0 and is not reacted |
| ReactionsJs.ButtonFor | static/js/reactions.js:48-58 | a button is active iff the user reacted, shows its count iff it is positive, and toggles its own type on the given post |
| ReactionsJs.BarShape | static/js/reactions.js:36-47 | the bar always holds six buttons, like, love, celebrate, idea, fire and applause in that order, all for the same post |
| ReactionsJs.Bar | static/js/reactions.js:31-64 | the buttons `updateReactionDisplay` builds; stated by ReactionsJs.BarShape, ReactionsJs.MissingTypeShowsNothing and ReactionsJs.ButtonFor |
| ReactionsJs.MissingTypeShowsNothing | static/js/reactions.js:48 | a type the server left out shows as an inactive button without a count |
| ReactionsJs.ReactionContainer.constructor | static/js/reactions.js:32 | an empty container |
| ReactionsJs.UpdateReactionDisplay | static/js/reactions.js:31-64 | without a container nothing changes; otherwise the container shows exactly the bar for the post |
| CommentsJs.CommentToSend | static/js/comments.js:4-11 | nothing is sent iff the content is all whitespace; otherwise the trimmed text, which is non-empty and has no whitespace at either end |
| CommentsJs.ToggleStep | static/js/comments.js:102-114 | the display flips; comments load iff the section was hidden and not marked loaded, and loading marks it |
| CommentsJs.LoadedStaysLoaded | static/js/comments.js:109-111 | once marked loaded a section stays marked, and no later toggle loads |
| CommentsJs.LoadsAtMostOnce | static/js/comments.js:109-111 | however often a section is toggled, its comments load at most once, and after a load it is marked |
| CommentsJs.FirstOpenLoads | static/js/comments.js:109 | opening a hidden, unloaded section loads; closing never does |
| CommentsJs.CommentsSection.Toggle | static/js/comments.js:102-114 | the new display and loaded flag, and whether comments are fetched, are those of ToggleStep |
| CsrfJs.FindRow | static/js/utils.js:12-14 | `find`: the first row starting with one of the prefixes, or -1 iff there is none |
| CsrfJs.SecondPiece | static/js/utils.js:15 | `split('=')[1]`: the text after the first `=` up to the next `=` or the end |
| CsrfJs.CookieTokenReadsFirstMatch | static/js/utils.js:12-15 | for cookie rows joined by "; ", the cookie token is the value of the first row with one of the prefixes |
| CsrfJs.CookieToken | static/js/utils.js:12-15 | the cookie fallback of `getCsrfToken`; stated by CsrfJs.CookieTokenReadsFirstMatch and CsrfJs.CookieTokenEmptyWithoutMatch |
| CsrfJs.CookieTokenEmptyWithoutMatch | static/js/utils.js:15 | with no row carrying one of the prefixes the token is '' |
| CsrfJs.FieldOrCookieToken | static/js/utils.js:7-16 | a hidden `csrf_token` field wins whenever it exists |
| CsrfJs.FieldlessTokenFromCookie | static/js/dark-mode.js:49-52 | without the field, the token comes from whichever of a `csrf_token=` and a `session=` row comes first among the cookie's `; `-separated rows |
| CsrfJs.MetaOrCookieToken | static/js/reactions.js:67-77 | the meta tag's content wins whenever the tag exists |
| CsrfJs.MetalessTokenFromCookie | static/js/comments.js:154-157 | without the meta tag, the token is the value of the first `csrf_token=` row among the cookie's `; `-separated rows |
| CsrfJs.MetalessTokenIgnoresSession | static/js/reactions.js:73-76 | a `session=` row alone gives '' in the meta-tag variant |
| UtilsJs.ToastColour | static/js/utils.js:28-40 | a known type gets its own colour; any other type gets the info colour |
| UtilsJs.ToastColourIsKnown | static/js/utils.js:28-40 | every type gets one of the four colours, and every type but error, success and warning looks like info |
| UtilsJs.EscapeHtmlShape | static/js/utils.js:61-65 | the escaped text holds no `<`, `>` or no-break space, and every `&` in it begins an entity |
| UtilsJs.EscapeHtml | static/js/utils.js:61-65 | `escapeHtml`; stated by UtilsJs.EscapeHtmlShape, UtilsJs.EscapeHtmlKeepsPlainText and UtilsJs.EscapeHtmlRoundTrip |
| UtilsJs.EscapeHtmlKeepsPlainText | static/js/utils.js:61-65 | text without `&`, `<`, `>` and no-break space, quotes included, comes out as it went in |
| UtilsJs.EscapeHtmlRoundTrip | static/js/utils.js:61-65 | decoding the escaped text gives back the text |
| UtilsJs.EscapeHtmlConcat | static/js/utils.js:61-65 | escaping works character by character, so it distributes over concatenation |
| Strings.NatToStringInjective | decorators.py:41 | distinct ids render as distinct decimal strings |
| Strings.ParseNatToString | decorators.py:41 | reading the decimal rendering of an id gives the id back |
| Strings.SixDigits | app.py:266 | a draw renders as exactly six ASCII digits |
| Strings.Lower | utils.py:92 | lower-casing keeps the length and maps each character by ASCII case |
| Strings.LastIndexOf | static/js/mentions.js:155 | the last index of the character, or -1 iff it is absent |
| Strings.IndexOf | static/js/main.js:126 | the first index of the element, or -1 iff it is absent |
| Strings.JoinSplit | static/js/utils.js:12-13 | splitting loses nothing: joining the pieces back gives the original |
| Strings.SplitJoin | static/js/utils.js:12-13 | rows free of the separator split back out of their join unchanged |
| Strings.StripEmptyIffAllSpace | static/js/comments.js:6-8 | trimming gives the empty string exactly when every character is whitespace |
| Strings.StripShape | static/js/comments.js:6 | the trimmed text is a slice of the input and starts and ends with a non-space character |
| Strings.ReplaceAllAbsent | utils.py:55-57 | replacing a character that does not occur changes nothing |

## Left out

- Flask plumbing is not modelled: routing, templates, `flash`, `redirect`, `abort`, Flask-Login sessions, CSRF protection and `validate_on_submit`. A handler's result says which branch it took.
- ORM behaviour is not modelled: relationships, cascades, `create_all` and sessions. Tables are sequences, and a handler's writes land together as a commit would.
- Autoflush is modelled in one place only. In `admin_codes` (app.py:263-272), a drawn code is checked only against the database, with no `code not in generated` test. The query sees the codes added earlier in the same request only because autoflush writes them out first. `App.GenerateCodes` relies on that, because Codes.DrawFreshCodes skips codes already chosen. `init_database` makes the same test explicitly (init_db.py:37).
- Password hashing (`set_password`, `check_password`) is a foreign library call. Passwords are only validated, never stored.
- `save_upload` and `generate_unique_filename` are partly modelled. Writing the file is left out. The timestamp-and-random stem is an input (`stem`), and only the extension rule is modelled.
- The retry loops of code generation are modelled over a finite sequence of draws in place of `random.choices`.
- Codes.DrawFreshCodes: the draws are finite. It fails exactly when they hold fewer than n distinct codes that are not stored (`Codes.EnoughFresh`). Then `App.GenerateCodes` and `InitDb.InitDatabase` commit no code, where the source would go on drawing.
- The `profile` upload handler is not modelled. `admin_teams` team creation is not modelled either, beyond its form (`Forms.CreateTeamAccepts`).
- Rate limiter: the `wait_time` message, the flash and the redirect are left out.
- Rate limiter: time is integer seconds, so the floating-point `total_seconds() / 60` becomes the exact comparison `now - start < window * 60`.
- Thread safety of `rate_limit_storage` is not modelled.
- `audit_log`, `create_audit_log` and `get_site_settings` are database writes with little logic, and are not modelled.
- `validate_url` is a large case-insensitive regular expression and is not modelled.
- `migrate_db.py` is not part of this model.
- `calculate_total_score` is computed in exact real arithmetic. The IEEE double rounding of 0.3 and 0.2 is not modelled.
- App.TimeAgo and TextUtils.FormatTimeAgo: the strftime date branch is a single value, `DateFormatted`, without its text.
- Python's `\w` is Unicode-aware, so it is the parameter `isWord` of the mention functions.
- `lower()` and `toLowerCase()` are modelled as ASCII lower-casing.
- `\d` in the code pattern is modelled as the ASCII digits. In Python it also accepts other Unicode decimal digits.
- The SelectField coerce error message is not modelled: a value that does not coerce is `None` and fails the choice check.
- The `submit.data` flag in `admin_users` is not modelled: creating a user is the submit branch.
- The browser plumbing is left out:
  - `fetch` and the server's JSON, modelled as inputs;
  - DOM building and `innerHTML` markup: the reaction bar is a sequence of button values;
  - `setTimeout` and `setInterval`;
  - `alert`;
  - `saveThemePreference`;
  - the keyboard-shortcut, click and scroll handlers.
- `showToast` is modelled only for its colour lookup. The `reactions.js` and `comments.js` copies of `showToast` are not modelled.
- UtilsJs.ToastColour: keys inherited from `Object.prototype` (such as `constructor`) are not modelled. Any type outside the four gets the info colour.
- MainJs.Lightbox.Next and MainJs.Lightbox.Prev require a non-empty list. With no pictures the source computes `NaN`, which is not modelled.
- CsrfJs.MetaOrCookieToken: the meta tag's content is a present string. `getAttribute('content')` returning `null` is not modelled.
- `getCsrfToken` is a global function in four scripts (`comments.js`, `dark-mode.js`, `reactions.js`, `utils.js`), and `showToast` in three (`comments.js`, `reactions.js`, `utils.js`). On a page that loads several of them, the copy loaded last serves every caller. Each `getCsrfToken` copy is modelled in `CsrfJs`; which copy a page runs is not modelled.
- `showMentionAutocomplete` hides the dropdown again when `fetchUsers` returns no users (static/js/mentions.js:74-80). The dropdown markup is left out; the search it starts is `MentionsJs.MentionCache.FetchUsers`.
- `main.js` and `comments.js` both define a global `toggleComments`, and the one loaded last wins. Both versions are modelled, as `MainJs.CommentsSection` and `CommentsJs.CommentsSection`. Which one a page runs is not modelled.
- A missing `#comments-section-<id>` element is not modelled: with no section there is no object to toggle, and nothing changes.
- `updateLightboxImage` is modelled only through the counter and the index it shows.

## Findings

| source | as written | input that shows it | evidently intended | confidence | as-written member | corrected member |
|---|---|---|---|---|---|---|
| app.py:113-115 | the post-login redirect uses `next` whenever it starts with `/` | `next=//evil.example`, a protocol-relative URL that browsers resolve to another host (an open redirect) | only local paths are followed; anything that leaves the site falls back to index | not executed | App.NextTargetAdmitsOtherHosts | App.SafeNextTargetAgrees |
