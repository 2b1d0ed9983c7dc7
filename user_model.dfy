/** The user document of src/models/user.js: the schema's setters and validators, `toJSON`,
    `findByCredentials`, the pre-save hook that hashes a modified password and the pre-deleteOne
    hook that deletes the user's tasks. */
module UserModel {

  import opened Common
  import opened Text
  import opened Bcrypt
  import opened TaskModel

  /** A stored user. `password` holds the bcrypt hash; `age` is absent unless it was supplied. */
  datatype User = User(
    name: string,
    email: string,
    password: string,
    age: Option<int>,
    tokens: seq<Token>,
    avatar: Option<Bytes>)

  /** What `toJSON` exposes: the document without `password`, `tokens` and `avatar`. */
  datatype Profile = Profile(id: UserId, name: string, email: string, age: Option<int>)

  /** The schema paths a request body can set on a user. */
  const NAME: string := "name"
  const EMAIL: string := "email"
  const PASSWORD: string := "password"
  const AGE: string := "age"

  const MIN_PASSWORD_LENGTH: nat := 7
  /** The text no password may contain, whatever its case. */
  const FORBIDDEN_IN_PASSWORD: string := "password"
  const UNABLE_TO_LOGIN: string := "Unable to login"

  /** `name`: trimmed, then required (an empty string fails `required`). */
  function CastName(v: Value): (r: Option<string>)
    ensures r.Some? <==> v.Str? && Trim(v.text) != []
    ensures r.Some? ==> r.value == Trim(v.text)
    ensures r.Some? ==> r.value != [] && Trim(r.value) == r.value
  {
    if v.Str? && Trim(v.text) != [] then
      TrimIdempotent(v.text);
      Some(Trim(v.text))
    else None
  }

  /** The password rules on the trimmed text: a JavaScript length (UTF-16 code units) of at
      least 7, and no occurrence of "password" in any letter case. */
  predicate PasswordAccepted(trimmed: string)
  {
    Utf16Length(trimmed) >= MIN_PASSWORD_LENGTH && !Contains(Lower(trimmed), FORBIDDEN_IN_PASSWORD)
  }

  /** `password`: trimmed, then `minlength: 7` and the custom validator. */
  function CastPassword(v: Value): (r: Option<string>)
    ensures r.Some? <==> v.Str? && Utf16Length(Trim(v.text)) >= MIN_PASSWORD_LENGTH
                         && !(exists i :: OccursAt(Lower(Trim(v.text)), FORBIDDEN_IN_PASSWORD, i))
    ensures r.Some? ==> r.value == Trim(v.text)
  {
    if v.Str? then
      PasswordAcceptedIff(Trim(v.text));
      if PasswordAccepted(Trim(v.text)) then Some(Trim(v.text)) else None
    else None
  }

  /** `minlength` counts UTF-16 code units: four emoji make a JavaScript length of 8, so the
      password is long enough although it has only four characters. */
  lemma PasswordLengthInCodeUnits()
    ensures var p := "\U{1F600}\U{1F600}\U{1F600}\U{1F600}";
            |p| == 4 && CastPassword(Str(p)) == Some(p)
  {
    var p := "\U{1F600}\U{1F600}\U{1F600}\U{1F600}";
    assert TrimStart(p) == p by {
      assert !IsSpace(p[0]);
    }
    assert TrimEnd(p) == p by {
      assert !IsSpace(p[3]);
    }
    assert Utf16Length(p) == 8 by {
      assert p[1..][1..][1..][1..] == [];
    }
    assert |Lower(p)| < |FORBIDDEN_IN_PASSWORD|;
    assert PasswordAccepted(Trim(p));
  }

  lemma PasswordAcceptedIff(t: string)
    ensures PasswordAccepted(t)
            <==> Utf16Length(t) >= MIN_PASSWORD_LENGTH && !(exists i :: OccursAt(Lower(t), FORBIDDEN_IN_PASSWORD, i))
  {
    LowerContainsIff(t, FORBIDDEN_IN_PASSWORD);
  }

  lemma LowerContainsIff(t: string, word: string)
    ensures Contains(Lower(t), word) <==> exists i :: OccursAt(Lower(t), word, i)
  {
    ContainsIff(Lower(t), word);
  }

  /** The stored form of an email address: trimmed and lower-cased. */
  function NormalizeEmail(s: string): (r: string)
    ensures |r| <= |s|
  {
    Lower(Trim(s))
  }

  /** A normalised address is trimmed and lower-cased already. */
  lemma NormalizeEmailForm(s: string)
    ensures var r := NormalizeEmail(s); Lower(r) == r && Trim(r) == r
  {
    var t := Trim(s);
    LowerIdempotent(t);
    LowerTrimCommute(t);
    TrimIdempotent(s);
  }

  /** Normalising an address that is already stored changes nothing. */
  lemma NormalizeEmailIdempotent(s: string)
    ensures NormalizeEmail(NormalizeEmail(s)) == NormalizeEmail(s)
  {
    var t := Trim(s);
    LowerTrimCommute(t);
    TrimIdempotent(s);
    LowerIdempotent(t);
  }

  /** `email`: trimmed and lower-cased, then required and `validator.isEmail`. */
  function CastEmail(v: Value, isEmail: string -> bool): (r: Option<string>)
    ensures r.Some? <==> v.Str? && NormalizeEmail(v.text) != [] && isEmail(NormalizeEmail(v.text))
    ensures r.Some? ==> r.value == NormalizeEmail(v.text)
    ensures r.Some? ==> NormalizeEmail(r.value) == r.value && isEmail(r.value)
  {
    if v.Str? && NormalizeEmail(v.text) != [] && isEmail(NormalizeEmail(v.text)) then
      NormalizeEmailIdempotent(v.text);
      Some(NormalizeEmail(v.text))
    else None
  }

  /** `age`: a number that is not negative. The schema's `defualt: 0` is a misspelt key, so an
      absent age stays absent. */
  function CastAge(v: Value): (r: Option<int>)
    ensures r.Some? <==> v.Num? && v.n >= 0
    ensures r.Some? ==> r.value == v.n
  {
    if v.Num? && v.n >= 0 then Some(v.n) else None
  }

  /** A stored user satisfies the schema, and its password is a hash. */
  predicate UserWellFormed(u: User, isEmail: string -> bool)
  {
    && u.name != [] && Trim(u.name) == u.name
    && u.email != [] && NormalizeEmail(u.email) == u.email && isEmail(u.email)
    && (u.age.Some? ==> u.age.value >= 0)
    && IsHashed(u.password)
  }

  /** The unique index on `email`. */
  predicate EmailsUnique(users: map<UserId, User>)
  {
    forall a, b :: a in users && b in users && users[a].email == users[b].email ==> a == b
  }

  /** `new User(req.body)` followed by validation, before the pre-save hook: the password is
      still the trimmed plain text. Keys outside the schema are dropped. */
  function NewUser(body: Body, isEmail: string -> bool): (r: Option<User>)
    ensures r.Some? <==> && NAME in body && CastName(body[NAME]).Some?
                         && EMAIL in body && CastEmail(body[EMAIL], isEmail).Some?
                         && PASSWORD in body && CastPassword(body[PASSWORD]).Some?
                         && (AGE in body ==> CastAge(body[AGE]).Some?)
    ensures r.Some? ==> && r.value.name == CastName(body[NAME]).value
                        && r.value.email == CastEmail(body[EMAIL], isEmail).value
                        && r.value.password == Trim(body[PASSWORD].text)
                        && r.value.age == (if AGE in body then Some(body[AGE].n) else None)
                        && r.value.tokens == [] && r.value.avatar.None?
  {
    if NAME !in body || EMAIL !in body || PASSWORD !in body then None
    else
      var name := CastName(body[NAME]);
      var email := CastEmail(body[EMAIL], isEmail);
      var password := CastPassword(body[PASSWORD]);
      var age := if AGE in body then CastAge(body[AGE]) else None;
      if name.None? || email.None? || password.None? || (AGE in body && age.None?) then None
      else Some(User(name.value, email.value, password.value, age, [], None))
  }

  /** A user signed up without an age has none: no default is applied. */
  lemma NoAgeDefault(body: Body, isEmail: string -> bool)
    requires AGE !in body && NewUser(body, isEmail).Some?
    ensures NewUser(body, isEmail).value.age.None?
  {
  }

  /** `doc[key] = value` for one path a PATCH may set, with that path's cast and validators;
      `None` when they reject the value. */
  function SetPath(u: User, key: string, v: Value, isEmail: string -> bool): (r: Option<User>)
  {
    if key == NAME then
      (match CastName(v) case Some(x) => Some(u.(name := x)) case None => None)
    else if key == EMAIL then
      (match CastEmail(v, isEmail) case Some(x) => Some(u.(email := x)) case None => None)
    else if key == PASSWORD then
      (match CastPassword(v) case Some(x) => Some(u.(password := x)) case None => None)
    else if key == AGE then
      (match CastAge(v) case Some(x) => Some(u.(age := Some(x))) case None => None)
    else Some(u)
  }

  /** The document after every key of `body` has been assigned and validated, or `None` when
      some value is rejected. Only the password is still plain text; hashing is the hook's job. */
  function ApplyUpdates(u: User, body: Body, isEmail: string -> bool): (r: Option<User>)
  {
    Combine(u, NewName(u, body), NewEmail(u, body, isEmail), NewPassword(u, body), NewAge(u, body))
  }

  /** `u` with each path set to its new value, or `None` when some path rejected its value. */
  function Combine(u: User, name: Option<string>, email: Option<string>, password: Option<string>,
                   age: Option<Option<int>>): Option<User>
  {
    if name.None? || email.None? || password.None? || age.None? then None
    else Some(u.(name := name.value, email := email.value, password := password.value, age := age.value))
  }

  /** The update succeeds exactly when every supplied path accepts its value; the tokens, the
      avatar and every path the body does not name keep their values. */
  lemma ApplyUpdatesAccepts(u: User, body: Body, isEmail: string -> bool)
    ensures var r := ApplyUpdates(u, body, isEmail);
            r.Some? <==> && (NAME in body ==> CastName(body[NAME]).Some?)
                         && (EMAIL in body ==> CastEmail(body[EMAIL], isEmail).Some?)
                         && (PASSWORD in body ==> CastPassword(body[PASSWORD]).Some?)
                         && (AGE in body ==> CastAge(body[AGE]).Some?)
    ensures var r := ApplyUpdates(u, body, isEmail);
            r.Some? ==> && r.value.tokens == u.tokens && r.value.avatar == u.avatar
                        && (NAME !in body ==> r.value.name == u.name)
                        && (EMAIL !in body ==> r.value.email == u.email)
                        && (PASSWORD !in body ==> r.value.password == u.password)
                        && (AGE !in body ==> r.value.age == u.age)
  {
  }

  /** The value each path holds after the update: the cast of the supplied value, or the
      current one when the body does not name the path; `None` when the cast rejects it. */
  function NewName(u: User, body: Body): Option<string>
  {
    if NAME in body then CastName(body[NAME]) else Some(u.name)
  }

  function NewEmail(u: User, body: Body, isEmail: string -> bool): Option<string>
  {
    if EMAIL in body then CastEmail(body[EMAIL], isEmail) else Some(u.email)
  }

  function NewPassword(u: User, body: Body): Option<string>
  {
    if PASSWORD in body then CastPassword(body[PASSWORD]) else Some(u.password)
  }

  function NewAge(u: User, body: Body): Option<Option<int>>
  {
    if AGE !in body then Some(u.age)
    else match CastAge(body[AGE]) case Some(n) => Some(Some(n)) case None => None
  }

  /** Every supplied path holds its cast value, so a well-formed user stays well formed apart
      from the password, which is plain text until the pre-save hook hashes it. */
  lemma ApplyUpdatesAssigns(u: User, body: Body, isEmail: string -> bool)
    requires ApplyUpdates(u, body, isEmail).Some?
    ensures var r := ApplyUpdates(u, body, isEmail).value;
            && (NAME in body ==> r.name == CastName(body[NAME]).value)
            && (EMAIL in body ==> r.email == CastEmail(body[EMAIL], isEmail).value)
            && (PASSWORD in body ==> r.password == CastPassword(body[PASSWORD]).value)
            && (AGE in body ==> r.age == Some(body[AGE].n))
    ensures UserWellFormed(u, isEmail) ==> UserWellFormed(ApplyUpdates(u, body, isEmail).value.(password := u.password), isEmail)
  {
  }

  /** Assigning the keys of `body` one at a time, in any order, ends in `ApplyUpdates`: adding
      one more key to the assigned part applies that key's `SetPath`. */
  lemma ApplyUpdatesStep(u: User, body: Body, done: set<string>, key: string, isEmail: string -> bool)
    requires key in body && key !in done
    ensures var before := ApplyUpdates(u, Restrict(body, done), isEmail);
            var after := ApplyUpdates(u, Restrict(body, done + {key}), isEmail);
            if before.None? then after.None?
            else after == SetPath(before.value, key, body[key], isEmail)
  {
    var r0 := Restrict(body, done);
    assert Restrict(body, done + {key}) == r0[key := body[key]];
    ApplyUpdatesAdd(u, r0, key, body[key], isEmail);
  }

  /** Adding one key to a body that lacks it applies that key's `SetPath` after the rest. */
  lemma ApplyUpdatesAdd(u: User, body: Body, key: string, v: Value, isEmail: string -> bool)
    requires key !in body
    ensures var before := ApplyUpdates(u, body, isEmail);
            var after := ApplyUpdates(u, body[key := v], isEmail);
            if before.None? then after.None? else after == SetPath(before.value, key, v, isEmail)
  {
    var b := body[key := v];
    if key != NAME { assert NewName(u, b) == NewName(u, body); }
    if key != EMAIL { assert NewEmail(u, b, isEmail) == NewEmail(u, body, isEmail); }
    if key != PASSWORD { assert NewPassword(u, b) == NewPassword(u, body); }
    if key != AGE { assert NewAge(u, b) == NewAge(u, body); }
  }

  /** The pre-save hook: when the password path was modified (a new document, or a value that
      differs from the stored one), it is replaced by its hash; otherwise the stored hash stays. */
  function PreSave(stored: Option<User>, doc: User): (r: User)
    ensures r.(password := doc.password) == doc
    ensures stored.Some? && doc.password == stored.value.password ==> r.password == stored.value.password
    ensures stored.None? || doc.password != stored.value.password ==> Compare(doc.password, r.password)
  {
    if stored.None? || doc.password != stored.value.password then doc.(password := Hash(doc.password))
    else doc
  }

  /** Saves that leave the password alone keep the stored hash, so the password still logs in;
      hashing on every save would have broken that. */
  lemma SaveKeepsLogin(plain: string, stored: User, doc: User)
    requires Compare(plain, stored.password) && doc.password == stored.password
    ensures Compare(plain, PreSave(Some(stored), doc).password)
    ensures !Compare(plain, Hash(doc.password))
  {
    RehashBreaksCompare(plain);
  }

  /** `toJSON`. */
  function ToJson(id: UserId, u: User): (r: Profile)
    ensures r.id == id
  {
    Profile(id, u.name, u.email, u.age)
  }

  /** Two users serialise alike exactly when they agree on everything except the password, the
      tokens and the avatar: the secrets never show, and nothing else is hidden. */
  lemma ToJsonHidesSecretsOnly(id: UserId, u: User, v: User)
    ensures ToJson(id, u) == ToJson(id, v) <==> u.name == v.name && u.email == v.email && u.age == v.age
  {
  }

  /** `User.findOne({email})`: the user stored under the normalised address, if any. */
  function FindByEmail(users: map<UserId, User>, email: string): (r: Option<UserId>)
    requires EmailsUnique(users)
    ensures r.Some? <==> exists id :: id in users && users[id].email == email
    ensures r.Some? ==> r.value in users && users[r.value].email == email
  {
    if exists id :: id in users && users[id].email == email then
      var id :| id in users && users[id].email == email;
      Some(id)
    else None
  }

  /** `findByCredentials`: the user whose address is `email` and whose hash matches `password`.
      An unknown address and a wrong password fail alike, with "Unable to login". */
  function FindByCredentials(users: map<UserId, User>, email: string, password: string): (r: Result<UserId>)
    requires EmailsUnique(users)
    ensures r.Ok? <==> exists id :: id in users && users[id].email == NormalizeEmail(email)
                                    && Compare(password, users[id].password)
    ensures r.Ok? ==> r.value in users && users[r.value].email == NormalizeEmail(email)
                      && Compare(password, users[r.value].password)
    ensures r.Err? ==> r.message == UNABLE_TO_LOGIN
  {
    var found := FindByEmail(users, NormalizeEmail(email));
    if found.None? then Err(UNABLE_TO_LOGIN)
    else
      EmailOwnerUnique(users, found.value);
      if Compare(password, users[found.value].password) then Ok(found.value) else Err(UNABLE_TO_LOGIN)
  }

  /** With unique emails, the user holding an address is the only one holding it. */
  lemma EmailOwnerUnique(users: map<UserId, User>, id: UserId)
    requires EmailsUnique(users) && id in users
    ensures forall k :: k in users && users[k].email == users[id].email ==> k == id
  {
  }

  /** `Task.deleteMany({owner})`, which the pre-deleteOne hook runs. */
  function DeleteTasksOf(tasks: map<TaskId, Task>, owner: UserId): (r: map<TaskId, Task>)
    ensures forall id :: id in r <==> id in tasks && tasks[id].owner != owner
    ensures forall id :: id in r ==> r[id] == tasks[id]
  {
    map id | id in tasks && tasks[id].owner != owner :: tasks[id]
  }
}
