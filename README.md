# Task manager API: ownership, sessions and user validation in Dafny

This project models the decision logic of a small Express/Mongoose REST API for personal task
lists, and proves what that logic promises. Users sign up, log in and out with session tokens,
and edit their profile and avatar. Each user creates, lists, reads, updates and deletes tasks
that only they can see.

The MongoDB collections become a `Store.Db` object. Its fields are a map of users, a map of
tasks and two id counters. `Db.Valid()` is the database invariant:

- every document satisfies its schema;
- emails are unique;
- every task's owner is a stored user.

Every route is a module-level method that takes the `Db` as a parameter. The routes that
write modify it. Each returns the status code, and each writing route states the whole new store
in its postcondition: both maps and both counters. Every route that can fail states that a rejected request leaves the store
untouched (`unchanged(db)`).

| file | module | models |
|---|---|---|
| common.dfy | `Common` | ids, JSON request bodies, status codes, the allow-list check |
| text.dfy | `Text` | the JavaScript string operations the core uses: `toLowerCase`, `trim`, `includes`, `endsWith`, `split(':')`, and the leading digits `parseInt` reads |
| bcrypt.dfy | `Bcrypt` | `bcrypt.hash` and `bcrypt.compare`, as an injective stand-in |
| task_model.dfy | `TaskModel` | the task document and the casts of its two settable paths |
| user_model.dfy | `UserModel` | the user schema's setters and validators, `toJSON`, `findByCredentials`, the pre-save hook and the cascade filter |
| store.dfy | `Store` | the two collections, `generateAuthToken`, `save` and `deleteOne`, and the database invariant |
| auth.dfy | `Auth` | the authentication gate every protected route sits behind |
| task_query.dfy | `TaskQuery` | GET /tasks: the `match` and `sort` objects, then the populate with `limit` and `skip` |
| task_router.dfy | `TaskRouter` | the /tasks routes |
| user_router.dfy | `UserRouter` | the /users routes |
| fixtures.dfy | `Fixtures` | the test database (two users, three tasks) as a concrete scenario |

The main theorems:

- **Ownership isolation.** Every task lookup filters on `{ _id, owner }`. A task that belongs to
  someone else answers exactly as an absent one does (`TaskRouter.ForeignTaskLooksAbsent`).
  A listing never depends on other users' tasks (`TaskQuery.ListingIsolated`).
- **Owner stamping.** A created task is always owned by the caller, whatever `owner` the body
  carries.
- **No change on rejection.** Every failed request leaves the store untouched.
- **Token-list algebra.** Logout removes every copy of the request's token and keeps every
  other entry, in order. Logging out a fresh session restores the earlier list. Logout-all
  clears the list.
- **Password handling.** The pre-save hook hashes only a modified password, so saves that
  leave the password alone keep login working.
- **Cascade delete.** Deleting a user deletes exactly that user's tasks, and the invariant
  survives.

Some behaviours of the code are easy to misread. The model keeps them as written:

- `sortBy` is split only on `:` (src/routers/task.js:40-41). The comment at
  src/routers/task.js:28 advertises a `_desc` suffix too. That suffix is read as part of the
  field name and sorts ascending (`TaskQuery.UnderscoreDescNotRecognised`).
- Logout filters out every entry equal to the request's token, not exactly one
  (src/routers/user.js:45-47).
- Any non-empty `completed` value other than `true` filters on `false`
  (src/routers/task.js:34-37).
- `age` gets no default, because the schema key is misspelt `defualt` (src/models/user.js:39).
- `minlength` on the password counts UTF-16 code units, as a JavaScript string's `length` does
  (src/models/user.js:17). A character outside the Basic Multilingual Plane counts twice
  (`UserModel.PasswordLengthInCodeUnits`).

## Model

| member | source | states |
|---|---|---|
| Text.Lower | src/models/user.js:20 | `toLowerCase` keeps the length of the text |
| Text.LowerAt | src/models/user.js:20 | each character of the lower-cased text is the lower-case form of the character at the same index |
| Text.LowerHasNoUpper | src/models/user.js:30 | a lower-cased text holds no upper-case letter |
| Text.LowerIdempotent | src/models/user.js:30 | lower-casing a lower-cased text changes nothing |
| Text.TrimStart | src/models/user.js:12 | the result is a suffix of the input that starts with a non-space character, and everything dropped is white space |
| Text.TrimEnd | src/models/user.js:12 | the result is a prefix of the input that ends with a non-space character, and everything dropped is white space |
| Text.Trim | src/models/user.js:18 | `trim` never lengthens its input; `Text.TrimIsInfix` states the result is the infix between leading and trailing white space, and that it starts and ends with a non-space character |
| Text.TrimIsInfix | src/models/user.js:29 | the trimmed text occurs in the input at an index where everything before it and everything after it is white space |
| Text.TrimIdempotent | src/models/user.js:12 | trimming twice is trimming once |
| Text.LowerTrimCommute | src/models/user.js:29-30 | trimming and lower-casing commute, so the stored email form is well defined |
| Text.Contains | src/models/user.js:20 | `includes`: the word is a prefix of the text or of one of its suffixes; `Text.ContainsIff` states it as an occurrence at some index |
| Text.ContainsIff | src/models/user.js:20 | `includes` holds exactly when the word occurs at some index |
| Text.EndsWith | src/routers/user.js:116 | the regular expression's `$` anchor: the text's last characters are the suffix; `Text.EndsWithIff` states it as a base followed by the suffix |
| Text.EndsWithIff | src/routers/user.js:116 | a name ends with a suffix exactly when it is some base followed by that suffix |
| Text.Split | src/routers/task.js:40 | `split(':')` yields at least one part and no part contains the separator |
| Text.JoinSplit | src/routers/task.js:40 | joining the parts of a split gives back the text |
| Text.SplitJoin | src/routers/task.js:40 | splitting the join of separator-free parts gives back the parts |
| Text.SplitHead | src/routers/task.js:40-41 | the first part is the text before the first separator, or all of it |
| Text.Utf16Length | src/models/user.js:17 | a JavaScript `length` lies between the number of characters and twice that number |
| Text.Utf16LengthBmp | src/models/user.js:17 | a text of Basic Multilingual Plane characters has one code unit per character |
| Text.ParseNatPrefix | src/routers/task.js:53-54 | a count is read exactly when the text starts with a digit |
| Text.ParseNatPrefixStopsAtNonDigit | src/routers/task.js:53-54 | the value read is that of the leading digits, whatever follows them |
| Bcrypt.Hash | src/models/user.js:121 | the stand-in's hash is longer than its input and carries the bcrypt marker (a real bcrypt hash is always 60 characters; see "Left out") |
| Bcrypt.HashInjective | src/models/user.js:121 | different passwords never share a hash |
| Bcrypt.CompareHash | src/models/user.js:105 | `compare` accepts a hash for the password it was made from and for no other |
| Bcrypt.RehashBreaksCompare | src/models/user.js:120-122 | hashing a stored hash again makes the real password stop matching |
| TaskModel.CastDescription | src/routers/task.js:9-18 | a description is accepted exactly when it is a string with a non-space character; the stored value is the trimmed input, and it is non-empty |
| TaskModel.CastCompleted | src/routers/task.js:99-100 | `completed` is accepted exactly when it is a boolean, and the stored value is that boolean |
| TaskModel.TrimEmptyIffBlank | src/routers/task.js:9-18 | trimming leaves nothing exactly when the text is all white space |
| UserModel.CastName | src/models/user.js:9-13 | a name is accepted exactly when it is a string that is not blank; the stored value is the trimmed input |
| UserModel.PasswordAccepted | src/models/user.js:17-23 | the password rules on the trimmed text: a JavaScript length of at least 7 and no "password" in the lower-cased text; `UserModel.PasswordAcceptedIff` states it through occurrences |
| UserModel.CastPassword | src/models/user.js:14-24 | a password is accepted exactly when its trimmed form has a JavaScript length (UTF-16 code units) of at least 7 and no occurrence of "password" in its lower-cased form; the stored value is the trimmed input |
| UserModel.PasswordLengthInCodeUnits | src/models/user.js:17 | four emoji make a password of JavaScript length 8, which is accepted |
| UserModel.PasswordAcceptedIff | src/models/user.js:17-23 | the password rule stated through the length and the absence of an occurrence of the word |
| UserModel.LowerContainsIff | src/models/user.js:20 | the lower-cased password contains the word exactly when the word occurs in it at some index |
| UserModel.NormalizeEmail | src/models/user.js:29-30 | the stored email form is no longer than the input |
| UserModel.NormalizeEmailForm | src/models/user.js:29-30 | the stored email form is already trimmed and lower-cased |
| UserModel.NormalizeEmailIdempotent | src/models/user.js:29-30 | normalising a stored email changes nothing |
| UserModel.CastEmail | src/models/user.js:25-36 | an email is accepted exactly when its normalised form is non-empty and a valid address; the stored value is the normalised input |
| UserModel.CastAge | src/models/user.js:37-45 | an age is accepted exactly when it is a number that is not negative |
| UserModel.NoAgeDefault | src/models/user.js:39 | a user created without an age has none: the misspelt default is never applied |
| UserModel.NewUser | src/routers/user.js:13 | a new user document exists exactly when name, email and password are present and accepted and any age is accepted; it has no tokens and no avatar |
| UserModel.SetPath | src/routers/user.js:86 | `user[key] = value` for one path, through that path's cast; `UserModel.ApplyUpdatesStep` states what a sequence of them does |
| UserModel.ApplyUpdates | src/routers/user.js:86 | every supplied path set through its cast, or nothing when one is refused; `UserModel.ApplyUpdatesAccepts` and `UserModel.ApplyUpdatesAssigns` state its meaning |
| UserModel.ApplyUpdatesAccepts | src/routers/user.js:86 | the update succeeds exactly when every supplied path accepts its value; tokens, avatar and every unsupplied path are unchanged |
| UserModel.ApplyUpdatesAssigns | src/routers/user.js:86 | every supplied path holds its cast value, and a well-formed user stays well formed apart from the still-plain password |
| UserModel.ApplyUpdatesStep | src/routers/user.js:86 | assigning the keys one at a time, in any order, ends in the same document |
| UserModel.PreSave | src/models/user.js:117-126 | the hook changes only the password; an unmodified password keeps the stored hash, a modified one is replaced by a hash that matches it |
| UserModel.SaveKeepsLogin | src/models/user.js:117-126 | after a save that leaves the password alone the password still logs in, and hashing on every save would have broken that |
| UserModel.ToJson | src/models/user.js:71-81 | the public profile belongs to the user it was made from |
| UserModel.ToJsonHidesSecretsOnly | src/models/user.js:71-81 | two users serialise alike exactly when they agree on name, email and age, so password, tokens and avatar never show and nothing else is hidden |
| UserModel.FindByEmail | src/models/user.js:99 | a user is found exactly when one has that email, and the one found has it |
| UserModel.FindByCredentials | src/models/user.js:98-110 | login succeeds exactly when a user has the normalised email and a hash matching the password; both failures give the same "Unable to login" |
| UserModel.DeleteTasksOf | src/models/user.js:133-138 | exactly the tasks of other owners remain, unchanged |
| Store.Db.constructor | src/models/user.js:142 | an empty database satisfies the invariant |
| Store.Db.SaveUser | src/models/user.js:117-126 | `save` stores the document as the pre-save hook leaves it |
| Store.Db.GenerateAuthToken | src/models/user.js:85-94 | exactly one token is appended at the end of the list, nothing else changes, and the invariant holds |
| Store.Db.SaveSession | src/routers/user.js:45-48 | saving a change to tokens or avatar alone keeps the invariant and stores the document as given |
| Store.Db.AddUser | src/routers/user.js:16 | the document is stored under the next fresh id, the counter moves on, and nothing else changes |
| Store.Db.InsertUser | src/routers/user.js:13-16 | a new user with an unused email is stored, password hashed, under the next fresh id, and the invariant holds |
| Store.Db.InsertTask | src/routers/task.js:18 | a new task is stored under the next fresh id |
| Store.Db.SaveTask | src/routers/task.js:100 | the task is replaced and nothing else changes |
| Store.Db.RemoveTask | src/routers/task.js:111 | exactly that task is removed |
| Store.Db.DeleteUser | src/models/user.js:133-138 | the user and exactly the user's tasks are removed, and the invariant holds |
| Store.Db.DeleteTasksOwnedBy | src/models/user.js:136 | `deleteMany({ owner })` leaves exactly the other owners' tasks |
| Store.Db.RemoveUser | src/routers/user.js:104 | exactly that user is removed |
| Store.UsersValidReplace | src/models/user.js:25-36 | replacing a user by a well-formed document whose email no other user has keeps the users valid |
| Store.AllWellFormedReplace | src/models/user.js:9-45 | replacing a user by a well-formed document keeps every user well formed |
| Store.EmailsUniqueReplace | src/models/user.js:27 | replacing a user by a document whose email no other user has keeps emails unique |
| Store.UsersValidRemove | src/models/user.js:133-138 | removing a user keeps the users valid |
| Store.DeleteUserKeepsValid | src/models/user.js:133-138 | deleting a user together with its tasks keeps both collections valid |
| Store.UsersValidInsert | src/routers/user.js:13-16 | a new well-formed user with an unused email keeps the collections valid |
| Store.TasksValidStore | src/routers/task.js:18 | storing a well-formed task of a stored user keeps the tasks valid |
| Store.TasksValidRemove | src/routers/task.js:111 | removing a task keeps the tasks valid |
| Store.TasksValidOwnerReplaced | src/routers/user.js:48 | saving a stored user under its own id keeps every task's owner stored |
| Store.CascadeLeavesNoOrphans | src/models/user.js:133-138 | after the cascade every remaining task is still well formed and owned by a remaining user |
| Auth.Gate | tests/user.test.js:62-67 | a request passes exactly when it carries a token and a verified claim, and the claimed user is stored and holds that token; Signup, Login, Logout, LogoutAll and DeleteMe state what the gate answers afterwards |
| Auth.GateStatus | tests/user.test.js:80-85 | every refused request gets 401, in particular one without a token |
| TaskQuery.MatchOf | src/routers/task.js:34-37 | the `match` object; `TaskQuery.CompletedFilter` states its three cases |
| TaskQuery.SortOf | src/routers/task.js:39-42 | a `sort` object exists exactly when `sortBy` is non-empty; its direction is 1 or -1 and its field contains no ':' |
| TaskQuery.CompletedFilter | src/routers/task.js:34-37 | an absent or empty `completed` adds no filter, exactly "true" filters on true, and any other text filters on false |
| TaskQuery.SortFieldIsHead | src/routers/task.js:40-41 | the sort field is the text before the first ':' |
| TaskQuery.SortOfSegments | src/routers/task.js:40-41 | with colon-free segments the sort is on the first, descending exactly when the second is "desc" |
| TaskQuery.SortOfWithoutColon | src/routers/task.js:40-41 | a `sortBy` without ':' sorts ascending on the whole text |
| TaskQuery.UnderscoreDescNotRecognised | src/routers/task.js:28-41 | `createdAt_desc` sorts ascending on a field of that name |
| TaskQuery.SortRefused | src/routers/task.js:39-41 | the database refuses the `sort` object when its field is not exactly `$natural` and some dotted segment of it is empty or starts with `$`; the lemmas below state which `sortBy` values that covers |
| TaskQuery.EmptySortFieldRefused | src/routers/task.js:40-41 | a `sortBy` starting with ':', such as ":desc", sorts on the empty field, which is refused |
| TaskQuery.DollarSortFieldRefused | src/routers/task.js:40-41 | a `sortBy` starting with '$' is refused unless its field is exactly `$natural` |
| TaskQuery.NaturalFieldAccepted | src/routers/task.js:40-41 | a sort on `$natural` is never refused |
| TaskQuery.NaturalSortAccepted | src/routers/task.js:40-41 | `sortBy=$natural` sorts ascending on `$natural` and is accepted |
| TaskQuery.NaturalDescSortAccepted | src/routers/task.js:40-41 | `sortBy=$natural:desc` sorts descending on `$natural` and is accepted |
| TaskQuery.NaturalDescendingNewestFirst | src/routers/task.js:55 | `$natural: -1` lists newer tasks first |
| TaskQuery.PlainSortFieldAccepted | src/routers/task.js:40-41 | a `sortBy` without '.' that starts with neither ':' nor '$' is accepted |
| TaskQuery.SortRefusedExamples | src/routers/task.js:40-41 | ":desc" and "$x" are refused; "createdAt:desc" and no `sortBy` are accepted |
| TaskQuery.TrailingDotRefused | src/routers/task.js:40-41 | "a." leaves an empty last segment and is refused |
| TaskQuery.DoubleDotRefused | src/routers/task.js:40-41 | "a..b" leaves an empty middle segment and is refused |
| TaskQuery.ParseCount | src/routers/task.js:53-54 | a count is read only from text that starts with a digit |
| TaskQuery.Owned | src/routers/task.js:48-50 | the listed tasks are stored tasks of the caller that satisfy the filter, in strictly increasing id order |
| TaskQuery.OwnedComplete | src/routers/task.js:48-50 | every task of the caller that satisfies the filter is listed |
| TaskQuery.OwnedIsolated | src/routers/task.js:48-50 | two stores that agree on the caller's tasks give the same list |
| TaskQuery.Precedes | src/routers/task.js:55 | the order a `sort` object gives: `Rank` of the field (the id for `_id`, `createdAt` and `$natural`) times the direction, ties by id; `TaskQuery.PrecedesTotalPreorder` and `TaskQuery.SortDirections` state its meaning |
| TaskQuery.PrecedesTotalPreorder | src/routers/task.js:55 | any two tasks are comparable and the order is transitive |
| TaskQuery.SortDirections | src/routers/task.js:56-59 | `createdAt: -1` lists newer tasks first; `completed: -1` lists finished tasks first and `completed: 1` does the opposite |
| TaskQuery.Insert | src/routers/task.js:55 | inserting into an ordered list keeps it ordered and adds exactly that entry |
| TaskQuery.Order | src/routers/task.js:55 | the sorted list is a permutation of its input, ordered by the sort key |
| TaskQuery.Window | src/routers/task.js:53-54 | the window is the contiguous slice starting after `skip` entries, of length `limit` when positive and available, otherwise the rest |
| TaskQuery.Listing | src/routers/task.js:48-62 | the populate: the caller's tasks under the filter, ordered, then windowed; the four lemmas below state its meaning |
| TaskQuery.ListingOwnedOnly | src/routers/task.js:48-62 | a listing shows only stored tasks of the caller that satisfy the filter |
| TaskQuery.ListingComplete | src/routers/task.js:48-62 | without `skip` and `limit` every such task is listed |
| TaskQuery.ListingBounded | src/routers/task.js:53 | a positive `limit` bounds the length of the listing |
| TaskQuery.ListingIsolated | src/routers/task.js:48-62 | the listing never depends on other users' tasks |
| TaskRouter.NewTask | src/routers/task.js:9-15 | a task is created exactly when the description is accepted and any `completed` is a boolean; its owner is the caller, `completed` defaults to false |
| TaskRouter.NewTaskIgnoresBodyOwner | src/routers/task.js:9-15 | an `owner` key in the body changes nothing |
| TaskRouter.FindOwned | src/routers/task.js:74 | a task is found exactly when it exists and its owner is the caller |
| TaskRouter.ForeignTaskLooksAbsent | src/routers/task.js:74-77 | another user's task is found exactly as if it did not exist |
| TaskRouter.SetTaskPath | src/routers/task.js:99 | `task[key] = value` for one path, through that path's cast; `TaskRouter.ApplyTaskUpdatesStep` states what a sequence of them does |
| TaskRouter.ApplyTaskUpdates | src/routers/task.js:99-100 | the update succeeds exactly when every supplied path accepts its value; the owner and every unsupplied path are unchanged |
| TaskRouter.ApplyTaskUpdatesAssigns | src/routers/task.js:99-100 | every supplied path holds its cast value, and a well-formed task stays well formed |
| TaskRouter.ApplyTaskUpdatesStep | src/routers/task.js:99 | assigning the keys one at a time, in any order, ends in the same task |
| TaskRouter.AssignTaskPaths | src/routers/task.js:99 | the `forEach` loop yields a valid document exactly when the update succeeds, and then that document |
| TaskRouter.CreateTask | src/routers/task.js:7-23 | 201 stores the caller's new task under a fresh id and moves the task counter on; 400 stores nothing |
| TaskRouter.ListTasks | src/routers/task.js:29-66 | 500 with nothing listed exactly when the database refuses the sort field; otherwise 200, and the handler's `match` and `sort` objects give exactly the caller's listing: only the caller's stored tasks that pass the filter, and without `skip` and `limit` every one of them |
| TaskRouter.GetTask | src/routers/task.js:69-82 | an invalid id gives 500; otherwise 200 with the task exactly when the caller owns it, else 404 |
| TaskRouter.PatchTask | src/routers/task.js:84-106 | a key outside {description, completed} gives 400 with "Invalid updates!" before any lookup; an invalid id or a rejected value gives 400; a task not owned gives 404; only a 200 changes the store, and then only the supplied paths of that task |
| TaskRouter.DeleteTask | src/routers/task.js:108-119 | an invalid id gives 500; a task not owned gives 404 and stays; otherwise exactly that task is removed |
| UserRouter.RemoveToken | src/routers/user.js:45-47 | filtering never lengthens the list |
| UserRouter.RemoveTokenCounts | src/routers/user.js:45-47 | every copy of the token goes and every other entry keeps its number of copies |
| UserRouter.RemoveTokenMembership | src/routers/user.js:45-47 | a token remains exactly when it was there and is not the one removed |
| UserRouter.RemoveTokenConcat | src/routers/user.js:45-47 | the filter distributes over concatenation, so the remaining entries keep their order |
| UserRouter.RemoveTokenAbsent | src/routers/user.js:45-47 | a list without the token is left as it is |
| UserRouter.LogoutUndoesLogin | src/routers/user.js:45-47 | removing a freshly appended token restores the list |
| UserRouter.EmailTaken | src/models/user.js:27 | the unique index: another stored user already has the email |
| UserRouter.AvatarAccepted | src/routers/user.js:115-118 | the file filter: the name ends in `.jpg`, `.jpeg` or `.png`; `UserRouter.AvatarAcceptedIff` and `UserRouter.AvatarFilterExamples` state its meaning |
| UserRouter.AvatarAcceptedIff | src/routers/user.js:115-120 | a file name passes exactly when it is a base followed by `.jpg`, `.jpeg` or `.png` |
| UserRouter.AvatarFilterExamples | src/routers/user.js:116 | the match is case-sensitive and anchored at the end |
| UserRouter.Registered | src/routers/user.js:16-19 | a new user's stored password matches the plain text but differs from it, and the issued token is the only one |
| UserRouter.SaveNewUser | src/routers/user.js:16-18 | the new user is stored under the next fresh id, registered with the token, and the invariant holds |
| UserRouter.Signup | src/routers/user.js:11-31 | 400 with nothing stored when validation fails or the email is taken; otherwise 201 with the hashed user stored under the next id, and the gate admits the issued token |
| UserRouter.Login | src/routers/user.js:33-41 | failed credentials give 400 and append no token; otherwise the token is appended at the end of that user's list and the gate admits it |
| UserRouter.Logout | src/routers/user.js:43-53 | the gate answers 401 to the request's token, every other token of the caller still authenticates, and nothing else changes |
| UserRouter.LogoutAll | src/routers/user.js:55-63 | the caller's token list becomes empty, so the gate answers 401 to every token, and nothing else changes |
| UserRouter.GetMe | src/routers/user.js:66-68 | the response is the caller's public profile |
| UserRouter.AssignUserPaths | src/routers/user.js:86 | the `forEach` loop yields a valid document exactly when the update succeeds, and then that document |
| UserRouter.PatchMe | src/routers/user.js:70-99 | a key outside {name, email, password, age} gives 400 with "Invalid updates!"; a rejected value or an email another user has gives 400; every 400 changes nothing; otherwise the updated user is saved through the pre-save hook |
| UserRouter.DeleteMe | src/routers/user.js:101-109 | the caller is removed together with exactly its tasks, the old profile is returned, and the gate answers 401 to every token of the caller |
| UserRouter.UploadAvatar | src/routers/user.js:111-140 | a refused file name or an oversized file gives 400 with its message and changes nothing; otherwise the avatar is set to the processed image |
| UserRouter.DeleteAvatar | src/routers/user.js:142-146 | the avatar becomes absent and nothing else changes |
| UserRouter.GetAvatar | src/routers/user.js:148-165 | 200 with the avatar exactly when the user exists and has one, else 404 |
| Fixtures.FixtureOwned | tests/fixtures/db.js:28-58 | user one's tasks in the test database are task one and task two |
| Fixtures.UserOneListsTwoTasks | tests/task.test.js:37-45 | user one's listing has exactly two entries |
| Fixtures.UserOneCompletedFilter | src/routers/task.js:34-37 | with `completed=true` user one sees only its finished task |
| Fixtures.UserTwoCannotReachTaskOne | tests/task.test.js:47-55 | user two's lookup of task one finds nothing, while user one's finds it (so `TaskRouter.DeleteTask` answers 404 and leaves the store unchanged) |

## Left out

- Network and process plumbing is not modelled: server start-up, the database connection, Express routing, request parsing and the welcome and cancellation emails.
- src/middleware/auth.js is not part of this model. Its behaviour is reconstructed from the 401 tests: a caller is a stored user holding the request's token. JWT signing and verification are foreign calls. Tokens and the verified claim are parameters.
- src/models/task.js is not part of this model. The task schema assumed here has `description` as a required, trimmed string, `completed` as a boolean defaulting to false, and `owner` as a required user id.
- Bcrypt.Hash: the real hash is salted and one-way, and always 60 characters long. Here it is a deterministic injective stand-in, so equal passwords share a hash, and "longer than its input" holds of the stand-in only.
- Bcrypt.HashInjective: bcrypt reads only the first 72 bytes of a password, so two passwords that agree on those bytes match the same hash. The stand-in does not truncate, so this lemma holds of the model, not of bcrypt.
- Bcrypt.CompareHash: "for no other password" fails for bcrypt on passwords longer than 72 bytes, for the reason above.
- `validator.isEmail` is a library predicate. It is the constant `isEmail` of the store.
- The resizer and multer internals are left out. The resized image is a parameter, and a missing file field is not modelled. A file with an accepted name that is not an image, which makes the resizer throw so that no response is sent, cannot be represented: every accepted name yields an image.
- Casting is strict. A path accepts only a JSON value of its own type. Mongoose's lenient casts are not modelled, for example the number 5 becoming the description "5", or "true" becoming a boolean, and null values are not modelled either.
- UserModel.CastAge: ages are integers. Fractional numbers are not modelled, because floating point is outside the model.
- Signup bodies that set `tokens`, `avatar` or `_id`, and task bodies that set `_id`, are not modelled. Only the schema paths above are read.
- Login with a missing or non-string email or password is not modelled. `email` and `password` are strings.
- UserModel.ToJson: the user schema's timestamps (`createdAt`, `updatedAt`) and the version key `__v` are not stored, so the profile omits them; "nothing else is hidden" in `UserModel.ToJsonHidesSecretsOnly` is about the modelled fields only.
- TaskQuery.Precedes: timestamps are not stored. Sorting on `createdAt`, `_id` or `$natural` uses the id, which grows with creation order. Sorting on any other accepted field is treated as if every task lacked that field, including `updatedAt` and `description`. Refused fields give 500 (`TaskQuery.SortRefused`).
- TaskQuery.SortRefused: only empty segments and segments starting with `$` are refused, and the one `$` key accepted is `$natural`. The database's other field-name rules, such as a NUL character, are not modelled.
- TaskQuery.Order: ties are broken by ascending id. The database leaves their order unspecified.
- TaskQuery.ParseCount: only leading decimal digits are read. `parseInt`'s sign, white space and hexadecimal forms are not modelled. A negative `limit` or `skip` therefore counts as absent.
- Repeated query parameters, which arrive as arrays, are not modelled.
- Text.Lower: lower-casing covers ASCII letters only. Other letters are unchanged.
- Storage failures are not modelled: the 500 answers to an unavailable database on list, get and delete, and errors raised by `save`.
- Concurrency and request interleaving are not modelled. Each request is one atomic step, including the cascade on account deletion.
- The validators the save re-runs on unchanged paths are not modelled. The model assumes they pass on a stored document. The invariant establishes that for name, email and age, but for the password it records only that the stored value is a hash, not that the hash passes the password validator.
