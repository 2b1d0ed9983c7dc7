/** The /users routes of src/routers/user.js: signup and login issue a session token, logout and
    logoutAll withdraw them, /users/me reads, updates and deletes the caller, and the avatar
    routes store, remove and serve the profile picture. */
module UserRouter {

  import opened Common
  import opened Text
  import opened Bcrypt
  import opened UserModel
  import opened Store
  import opened Auth

  /** The paths PATCH /users/me may set. */
  const USER_UPDATES: set<string> := {NAME, EMAIL, PASSWORD, AGE}

  /** multer's `fileSize` limit, in bytes. */
  const MAX_AVATAR_BYTES: nat := 1000000
  const NOT_AN_IMAGE: string := "Please upload an image"
  const FILE_TOO_LARGE: string := "File too large"

  /** Some other stored user already has this email: the unique index refuses the save. */
  predicate EmailTaken(users: map<UserId, User>, self: Option<UserId>, email: string)
  {
    exists k :: k in users && Some(k) != self && users[k].email == email
  }

  /** `tokens.filter((t) => t.token !== token)`. */
  function RemoveToken(tokens: seq<Token>, token: Token): (r: seq<Token>)
    ensures |r| <= |tokens|
  {
    if tokens == [] then []
    else (if tokens[0] == token then [] else [tokens[0]]) + RemoveToken(tokens[1..], token)
  }

  /** Every copy of the token goes, and every other entry keeps its number of copies. */
  lemma {:induction false} RemoveTokenCounts(tokens: seq<Token>, token: Token)
    ensures multiset(RemoveToken(tokens, token)) == multiset(tokens)[token := 0]
  {
    if tokens != [] {
      RemoveTokenCounts(tokens[1..], token);
      assert tokens == [tokens[0]] + tokens[1..];
    }
  }

  /** A token is left exactly when it was there and is not the one removed. */
  lemma RemoveTokenMembership(tokens: seq<Token>, token: Token, t: Token)
    ensures t in RemoveToken(tokens, token) <==> t in tokens && t != token
  {
    RemoveTokenCounts(tokens, token);
    assert t in RemoveToken(tokens, token) <==> t in multiset(RemoveToken(tokens, token));
  }

  /** The filter works piece by piece, so the remaining entries keep their order. */
  lemma {:induction false} RemoveTokenConcat(a: seq<Token>, b: seq<Token>, token: Token)
    ensures RemoveToken(a + b, token) == RemoveToken(a, token) + RemoveToken(b, token)
  {
    if a == [] {
      assert a + b == b;
    } else {
      var head := if a[0] == token then [] else [a[0]];
      RemoveTokenConcat(a[1..], b, token);
      assert (a + b)[0] == a[0] && (a + b)[1..] == a[1..] + b;
      assert RemoveToken(a + b, token) == head + RemoveToken(a[1..] + b, token);
      assert RemoveToken(a, token) == head + RemoveToken(a[1..], token);
    }
  }

  /** A list without the token is left as it is. */
  lemma {:induction false} RemoveTokenAbsent(tokens: seq<Token>, token: Token)
    requires token !in tokens
    ensures RemoveToken(tokens, token) == tokens
  {
    if tokens != [] {
      RemoveTokenAbsent(tokens[1..], token);
    }
  }

  /** Logging out a session just opened with a fresh token restores the token list. */
  lemma LogoutUndoesLogin(tokens: seq<Token>, token: Token)
    requires token !in tokens
    ensures RemoveToken(tokens + [token], token) == tokens
  {
    RemoveTokenConcat(tokens, [token], token);
    RemoveTokenAbsent(tokens, token);
  }

  /** `multer`'s file filter: the original name ends in `.jpg`, `.jpeg` or `.png`, in that case. */
  predicate AvatarAccepted(filename: string)
  {
    EndsWith(filename, ".jpg") || EndsWith(filename, ".jpeg") || EndsWith(filename, ".png")
  }

  /** A file name passes exactly when it is some base name followed by one of the three
      extensions. */
  lemma AvatarAcceptedIff(filename: string)
    ensures AvatarAccepted(filename) <==> || (exists base :: filename == base + ".jpg")
                                          || (exists base :: filename == base + ".jpeg")
                                          || (exists base :: filename == base + ".png")
  {
    EndsWithIff(filename, ".jpg");
    EndsWithIff(filename, ".jpeg");
    EndsWithIff(filename, ".png");
  }

  /** The match is case-sensitive and anchored at the end. */
  lemma AvatarFilterExamples()
    ensures AvatarAccepted("me.jpeg") && AvatarAccepted("a.png")
    ensures !AvatarAccepted("me.JPG") && !AvatarAccepted("me.png.pdf") && !AvatarAccepted("mejpg")
  {
    assert "me.jpeg"[2..] == ".jpeg";
    assert "a.png"[1..] == ".png";
    assert "me.JPG"[3] == 'J' && ".jpg"[1] == 'j';
    assert "me.png.pdf"[7..] == "pdf";
    assert "mejpg"[1] == 'e' && ".jpg"[0] == '.';
  }

  /** A signed-up user as stored: the password hashed by the pre-save hook, and the token of
      `generateAuthToken` as its only session. */
  function Registered(doc: User, token: Token): (r: User)
    ensures r.tokens == [token]
    ensures Compare(doc.password, r.password) && r.password != doc.password
    ensures r.(password := doc.password, tokens := doc.tokens) == doc
  {
    doc.(password := Hash(doc.password), tokens := [token])
  }

  /** Inserting the hashed document and then appending the token stores `Registered`. */
  lemma InsertThenToken(users: map<UserId, User>, id: UserId, doc: User, token: Token)
    requires doc.tokens == []
    ensures var inserted := PreSave(None, doc);
            users[id := inserted][id := inserted.(tokens := inserted.tokens + [token])]
              == users[id := Registered(doc, token)]
  {
    var inserted := PreSave(None, doc);
    assert inserted.(tokens := inserted.tokens + [token]) == Registered(doc, token) by {
      assert inserted.tokens + [token] == [token];
    }
  }

  /** `user.save()` of the new document, then `generateAuthToken`. */
  method SaveNewUser(db: Db, doc: User, token: Token) returns (id: UserId)
    requires db.Valid() && doc.tokens == []
    requires UserWellFormed(PreSave(None, doc), db.isEmail) && !EmailTaken(db.users, None, doc.email)
    modifies db
    ensures db.Valid()
    ensures id == old(db.nextUserId) && id !in old(db.users)
    ensures db.users == old(db.users)[id := Registered(doc, token)]
    ensures db.tasks == old(db.tasks)
    ensures db.nextUserId == old(db.nextUserId) + 1 && db.nextTaskId == old(db.nextTaskId)
  {
    id := db.InsertUser(doc);
    db.GenerateAuthToken(id, token);
    InsertThenToken(old(db.users), id, doc, token);
  }

  /** POST /users: 201 with the new user stored under a fresh id, its password hashed and the
      issued token as its only session; 400 with nothing stored when validation fails or the
      email is taken. */
  method Signup(db: Db, body: Body, token: Token) returns (status: nat, id: Option<UserId>)
    requires db.Valid()
    modifies db
    ensures db.Valid()
    ensures status != CREATED ==> status == BAD_REQUEST && id.None? && unchanged(db)
    ensures NewUser(body, db.isEmail).None? ==> status == BAD_REQUEST
    ensures NewUser(body, db.isEmail).Some? ==>
              (status == BAD_REQUEST <==> EmailTaken(old(db.users), None, NewUser(body, db.isEmail).value.email))
    ensures status == CREATED ==>
              && id == Some(old(db.nextUserId)) && id.value !in old(db.users)
              && db.users == old(db.users)[id.value := Registered(NewUser(body, db.isEmail).value, token)]
              && Authenticated(db.users, id.value, token) && Gate(db.users, Some(token), id) == id
              && db.tasks == old(db.tasks)
              && db.nextUserId == old(db.nextUserId) + 1 && db.nextTaskId == old(db.nextTaskId)
  {
    var doc := NewUser(body, db.isEmail);
    if doc.None? {
      return BAD_REQUEST, None;
    }
    if exists k :: k in db.users && db.users[k].email == doc.value.email {
      return BAD_REQUEST, None;
    }
    var newId := SaveNewUser(db, doc.value, token);
    status, id := CREATED, Some(newId);
  }

  /** POST /users/login: `findByCredentials`, then `generateAuthToken`. Either failure gives the
      same 400 and appends no token anywhere. */
  method Login(db: Db, email: string, password: string, token: Token) returns (status: nat, id: Option<UserId>)
    requires db.Valid()
    modifies db
    ensures db.Valid()
    ensures FindByCredentials(old(db.users), email, password).Err? ==> status == BAD_REQUEST && id.None? && unchanged(db)
    ensures FindByCredentials(old(db.users), email, password).Ok? ==>
              var who := FindByCredentials(old(db.users), email, password).value;
              && status == OK && id == Some(who)
              && db.users == old(db.users)[who := old(db.users)[who].(tokens := old(db.users)[who].tokens + [token])]
              && db.users[who].tokens[|old(db.users)[who].tokens|] == token
              && Authenticated(db.users, who, token) && Gate(db.users, Some(token), id) == id
              && db.tasks == old(db.tasks) && db.nextUserId == old(db.nextUserId) && db.nextTaskId == old(db.nextTaskId)
  {
    var found := FindByCredentials(db.users, email, password);
    if found.Err? {
      return BAD_REQUEST, None;
    }
    db.GenerateAuthToken(found.value, token);
    status, id := OK, Some(found.value);
  }

  /** POST /users/logout: every entry equal to the request's token goes; the caller's other
      sessions stay, in order. */
  method Logout(db: Db, caller: UserId, token: Token) returns (status: nat)
    requires db.Valid() && Authenticated(db.users, caller, token)
    modifies db
    ensures db.Valid()
    ensures status == OK
    ensures db.users == old(db.users)[caller := old(db.users)[caller].(tokens := RemoveToken(old(db.users)[caller].tokens, token))]
    ensures !Authenticated(db.users, caller, token) && GateStatus(db.users, Some(token), Some(caller)) == UNAUTHORIZED
    ensures forall t :: t != token && Authenticated(old(db.users), caller, t) ==> Authenticated(db.users, caller, t)
    ensures db.tasks == old(db.tasks) && db.nextUserId == old(db.nextUserId) && db.nextTaskId == old(db.nextTaskId)
  {
    var user := db.users[caller];
    var old_tokens := user.tokens;
    db.SaveSession(caller, user.(tokens := RemoveToken(user.tokens, token)));
    RemoveTokenMembership(old_tokens, token, token);
    forall t | t != token && t in old_tokens
      ensures t in db.users[caller].tokens
    {
      RemoveTokenMembership(old_tokens, token, t);
    }
    status := OK;
  }

  /** POST /users/logoutAll: the caller's token list becomes empty. */
  method LogoutAll(db: Db, caller: UserId, token: Token) returns (status: nat)
    requires db.Valid() && Authenticated(db.users, caller, token)
    modifies db
    ensures db.Valid()
    ensures status == OK
    ensures db.users == old(db.users)[caller := old(db.users)[caller].(tokens := [])]
    ensures forall t :: !Authenticated(db.users, caller, t) && GateStatus(db.users, Some(t), Some(caller)) == UNAUTHORIZED
    ensures db.tasks == old(db.tasks) && db.nextUserId == old(db.nextUserId) && db.nextTaskId == old(db.nextTaskId)
  {
    var user := db.users[caller];
    db.SaveSession(caller, user.(tokens := []));
    status := OK;
  }

  /** GET /users/me: the caller, as `toJSON` shows it. */
  method GetMe(db: Db, caller: UserId, token: Token) returns (status: nat, profile: Profile)
    requires Authenticated(db.users, caller, token)
    ensures status == OK && profile == ToJson(caller, db.users[caller])
    ensures profile.name == db.users[caller].name && profile.email == db.users[caller].email
  {
    status, profile := OK, ToJson(caller, db.users[caller]);
  }

  /** `updates.forEach((update) => req.user[update] = req.body[update])`: the keys are assigned
      one at a time; a rejected value marks the document invalid, and `save` will refuse it. */
  method AssignUserPaths(user: User, body: Body, isEmail: string -> bool) returns (valid: bool, doc: User)
    requires OnlyKeys(body, USER_UPDATES)
    ensures valid <==> ApplyUpdates(user, body, isEmail).Some?
    ensures valid ==> doc == ApplyUpdates(user, body, isEmail).value
  {
    doc, valid := user, true;
    var done: set<string> := {};
    while done != body.Keys
      invariant done <= body.Keys
      invariant valid ==> ApplyUpdates(user, Restrict(body, done), isEmail) == Some(doc)
      invariant !valid ==> ApplyUpdates(user, Restrict(body, done), isEmail).None?
      decreases |body.Keys - done|
    {
      var key :| key in body.Keys - done;
      ApplyUpdatesStep(user, body, done, key, isEmail);
      if valid {
        var next := SetPath(doc, key, body[key], isEmail);
        if next.Some? {
          doc := next.value;
        } else {
          valid := false;
        }
      }
      RemainderShrinks(body.Keys, done, key);
      done := done + {key};
    }
    RestrictToAllKeys(body);
  }

  /** The updated document, once the pre-save hook has run, satisfies the schema again. */
  lemma PatchedUserWellFormed(stored: User, body: Body, isEmail: string -> bool)
    requires UserWellFormed(stored, isEmail) && ApplyUpdates(stored, body, isEmail).Some?
    ensures UserWellFormed(PreSave(Some(stored), ApplyUpdates(stored, body, isEmail).value), isEmail)
  {
    var doc := ApplyUpdates(stored, body, isEmail).value;
    var saved := PreSave(Some(stored), doc);
    ApplyUpdatesAssigns(stored, body, isEmail);
    assert saved.(password := stored.password) == doc.(password := stored.password);
    if saved.password != stored.password {
      assert saved.password == Hash(doc.password);
    }
  }

  /** PATCH /users/me. A key outside the allow-list gives 400; so does a rejected value or an
      email another user has. Otherwise every supplied path is set and the document saved,
      hashing the password only when it changed. */
  method PatchMe(db: Db, caller: UserId, token: Token, body: Body)
    returns (status: nat, profile: Option<Profile>, error: Option<string>)
    requires db.Valid() && Authenticated(db.users, caller, token)
    modifies db
    ensures db.Valid()
    ensures status != OK ==> status == BAD_REQUEST && profile.None? && unchanged(db)
    ensures !OnlyKeys(body, USER_UPDATES) ==> status == BAD_REQUEST && error == Some(INVALID_UPDATES)
    ensures OnlyKeys(body, USER_UPDATES) ==> error.None?
    ensures OnlyKeys(body, USER_UPDATES) ==>
              var stored := old(db.users)[caller];
              var doc := ApplyUpdates(stored, body, db.isEmail);
              && (doc.None? ==> status == BAD_REQUEST)
              && (doc.Some? ==> (status == BAD_REQUEST <==> EmailTaken(old(db.users), Some(caller), doc.value.email)))
              && (status == OK ==> && db.users == old(db.users)[caller := PreSave(Some(stored), doc.value)]
                                   && profile == Some(ToJson(caller, db.users[caller]))
                                   && db.tasks == old(db.tasks) && db.nextUserId == old(db.nextUserId) && db.nextTaskId == old(db.nextTaskId))
  {
    if !(body.Keys <= USER_UPDATES) {
      return BAD_REQUEST, None, Some(INVALID_UPDATES);
    }
    var stored := db.users[caller];
    var valid, doc := AssignUserPaths(stored, body, db.isEmail);
    if !valid {
      return BAD_REQUEST, None, None;
    }
    if exists k :: k in db.users && k != caller && db.users[k].email == doc.email {
      return BAD_REQUEST, None, None;
    }
    var saved := PreSave(Some(stored), doc);
    PatchedUserWellFormed(stored, body, db.isEmail);
    UsersValidReplace(db.users, db.nextUserId, db.isEmail, caller, saved);
    TasksValidOwnerReplaced(db.tasks, db.nextTaskId, db.users, caller, saved);
    db.SaveUser(caller, doc);
    status, profile, error := OK, Some(ToJson(caller, db.users[caller])), None;
  }

  /** DELETE /users/me: the caller and, through the pre-deleteOne hook, every task it owns are
      deleted; the response is the deleted user. */
  method DeleteMe(db: Db, caller: UserId, token: Token) returns (status: nat, profile: Profile)
    requires db.Valid() && Authenticated(db.users, caller, token)
    modifies db
    ensures db.Valid()
    ensures status == OK && profile == ToJson(caller, old(db.users)[caller])
    ensures caller !in db.users && db.users == old(db.users) - {caller}
    ensures db.tasks == DeleteTasksOf(old(db.tasks), caller)
    ensures forall id :: id in db.tasks ==> db.tasks[id].owner != caller
    ensures forall t :: GateStatus(db.users, Some(t), Some(caller)) == UNAUTHORIZED
    ensures db.nextUserId == old(db.nextUserId) && db.nextTaskId == old(db.nextTaskId)
  {
    profile := ToJson(caller, db.users[caller]);
    db.DeleteUser(caller);
    status := OK;
  }

  /** POST /users/me/avatar. `filename` is the upload's original name, `file` its bytes and
      `image` what the resizer makes of them. A name the filter refuses, or a file over the size
      limit, gives 400 with the error's message and changes nothing. */
  method UploadAvatar(db: Db, caller: UserId, token: Token, filename: string, file: Bytes, image: Bytes)
    returns (status: nat, error: Option<string>)
    requires db.Valid() && Authenticated(db.users, caller, token)
    modifies db
    ensures db.Valid()
    ensures !AvatarAccepted(filename) ==> status == BAD_REQUEST && error == Some(NOT_AN_IMAGE) && unchanged(db)
    ensures AvatarAccepted(filename) && |file| > MAX_AVATAR_BYTES ==>
              status == BAD_REQUEST && error == Some(FILE_TOO_LARGE) && unchanged(db)
    ensures AvatarAccepted(filename) && |file| <= MAX_AVATAR_BYTES ==>
              && status == OK && error.None?
              && db.users == old(db.users)[caller := old(db.users)[caller].(avatar := Some(image))]
              && db.tasks == old(db.tasks) && db.nextUserId == old(db.nextUserId) && db.nextTaskId == old(db.nextTaskId)
  {
    if !AvatarAccepted(filename) {
      return BAD_REQUEST, Some(NOT_AN_IMAGE);
    }
    if |file| > MAX_AVATAR_BYTES {
      return BAD_REQUEST, Some(FILE_TOO_LARGE);
    }
    var user := db.users[caller];
    db.SaveSession(caller, user.(avatar := Some(image)));
    status, error := OK, None;
  }

  /** DELETE /users/me/avatar: the avatar becomes absent. */
  method DeleteAvatar(db: Db, caller: UserId, token: Token) returns (status: nat)
    requires db.Valid() && Authenticated(db.users, caller, token)
    modifies db
    ensures db.Valid()
    ensures status == OK
    ensures db.users == old(db.users)[caller := old(db.users)[caller].(avatar := None)]
    ensures db.users[caller].avatar.None?
    ensures db.tasks == old(db.tasks) && db.nextUserId == old(db.nextUserId) && db.nextTaskId == old(db.nextTaskId)
  {
    var user := db.users[caller];
    db.SaveSession(caller, user.(avatar := None));
    status := OK;
  }

  /** GET /users/:id/avatar, open to anyone. `id` is absent when the path segment is not a valid
      ObjectId. A missing user or a missing avatar gives 404; an avatar that is present is
      served even when it is empty, since a Buffer object is truthy. */
  method GetAvatar(db: Db, id: Option<UserId>) returns (status: nat, image: Option<Bytes>)
    ensures status == OK <==> id.Some? && id.value in db.users && db.users[id.value].avatar.Some?
    ensures status == OK ==> image == db.users[id.value].avatar
    ensures status != OK ==> status == NOT_FOUND && image.None?
  {
    if id.None? || id.value !in db.users || db.users[id.value].avatar.None? {
      return NOT_FOUND, None;
    }
    status, image := OK, db.users[id.value].avatar;
  }
}
