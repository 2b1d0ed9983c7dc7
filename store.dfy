/** The two MongoDB collections the API uses, as one object whose fields the handlers update,
    with the persistence steps of the user model: `save` (running the pre-save hook),
    `generateAuthToken`, and `deleteOne` (running the pre-deleteOne hook). */
module Store {

  import opened Common
  import opened Bcrypt
  import opened TaskModel
  import opened UserModel

  class Db {
    var users: map<UserId, User>
    var tasks: map<TaskId, Task>
    /** Fresh ObjectIds: every id handed out so far is below these counters. */
    var nextUserId: nat
    var nextTaskId: nat
    /** `validator.isEmail`, a library predicate outside this model. */
    const isEmail: string -> bool

    /** The database invariant: ids come from the counters, every document satisfies its
        schema, emails are unique, and every task's owner is a stored user. */
    ghost predicate Valid()
      reads this
    {
      UsersValid(users, nextUserId, isEmail) && TasksValid(tasks, nextTaskId, users)
    }

    constructor (isEmail: string -> bool)
      ensures Valid()
      ensures this.isEmail == isEmail
      ensures users == map[] && tasks == map[]
    {
      this.isEmail := isEmail;
      users, tasks := map[], map[];
      nextUserId, nextTaskId := 0, 0;
    }

    /** `user.save()` for a document that passed validation: the pre-save hook, then the write. */
    method SaveUser(id: UserId, doc: User)
      modifies this
      ensures users == old(users)[id := PreSave(if id in old(users) then Some(old(users)[id]) else None, doc)]
      ensures tasks == old(tasks) && nextUserId == old(nextUserId) && nextTaskId == old(nextTaskId)
    {
      var stored := if id in users then Some(users[id]) else None;
      var saved := doc;
      if stored.None? || doc.password != stored.value.password {
        saved := doc.(password := Hash(doc.password));
      }
      users := users[id := saved];
    }

    /** `generateAuthToken`: appends the freshly signed token and saves. The password is not
        modified, so the hook keeps the stored hash. */
    method GenerateAuthToken(id: UserId, token: Token)
      requires Valid() && id in users
      modifies this
      ensures Valid()
      ensures users == old(users)[id := old(users)[id].(tokens := old(users)[id].tokens + [token])]
      ensures tasks == old(tasks) && nextUserId == old(nextUserId) && nextTaskId == old(nextTaskId)
    {
      var user := users[id];
      SaveSession(id, user.(tokens := user.tokens + [token]));
    }

    /** `user.save()` after only the session fields (`tokens`, `avatar`) changed: no validator
        and no hashing has anything to do. */
    method SaveSession(id: UserId, doc: User)
      requires Valid() && id in users
      requires doc.(tokens := users[id].tokens, avatar := users[id].avatar) == users[id]
      modifies this
      ensures Valid()
      ensures users == old(users)[id := doc]
      ensures tasks == old(tasks) && nextUserId == old(nextUserId) && nextTaskId == old(nextTaskId)
    {
      UsersValidReplace(users, nextUserId, isEmail, id, doc);
      TasksValidOwnerReplaced(tasks, nextTaskId, users, id, doc);
      SaveUser(id, doc);
    }

    /** `new User(...).save()` for a validated document: the pre-save hook hashes its password
        and the document is stored under a fresh id. */
    method InsertUser(doc: User) returns (id: UserId)
      requires Valid() && UserWellFormed(PreSave(None, doc), isEmail)
      requires forall k :: k in users ==> users[k].email != doc.email
      modifies this
      ensures Valid()
      ensures id == old(nextUserId) && id !in old(users) && nextUserId == old(nextUserId) + 1
      ensures users == old(users)[id := PreSave(None, doc)]
      ensures tasks == old(tasks) && nextTaskId == old(nextTaskId)
    {
      UsersValidInsert(users, tasks, nextUserId, nextTaskId, isEmail, PreSave(None, doc));
      AddUser(PreSave(None, doc));
      id := nextUserId - 1;
    }

    /** Writing a new document under the next fresh id. */
    method AddUser(u: User)
      modifies this
      ensures nextUserId == old(nextUserId) + 1 && users == old(users)[old(nextUserId) := u]
      ensures tasks == old(tasks) && nextTaskId == old(nextTaskId)
    {
      users, nextUserId := users[nextUserId := u], nextUserId + 1;
    }

    /** `task.save()` for a new task: stored under a fresh id. */
    method InsertTask(t: Task) returns (id: TaskId)
      modifies this
      ensures id == old(nextTaskId) && nextTaskId == old(nextTaskId) + 1
      ensures tasks == old(tasks)[id := t]
      ensures users == old(users) && nextUserId == old(nextUserId)
    {
      id := nextTaskId;
      tasks, nextTaskId := tasks[id := t], nextTaskId + 1;
    }

    /** `task.save()` for a stored task. */
    method SaveTask(id: TaskId, t: Task)
      modifies this
      ensures tasks == old(tasks)[id := t]
      ensures users == old(users) && nextUserId == old(nextUserId) && nextTaskId == old(nextTaskId)
    {
      tasks := tasks[id := t];
    }

    /** Removing one task document. */
    method RemoveTask(id: TaskId)
      modifies this
      ensures tasks == old(tasks) - {id}
      ensures users == old(users) && nextUserId == old(nextUserId) && nextTaskId == old(nextTaskId)
    {
      tasks := tasks - {id};
    }

    /** `user.deleteOne()`: the pre-deleteOne hook deletes the user's tasks, then the user goes. */
    method DeleteUser(id: UserId)
      requires Valid() && id in users
      modifies this
      ensures Valid()
      ensures users == old(users) - {id}
      ensures tasks == DeleteTasksOf(old(tasks), id)
      ensures nextUserId == old(nextUserId) && nextTaskId == old(nextTaskId)
    {
      DeleteUserKeepsValid(users, tasks, nextUserId, nextTaskId, isEmail, id);
      DeleteTasksOwnedBy(id);
      RemoveUser(id);
    }

    /** `Task.deleteMany({ owner })`. */
    method DeleteTasksOwnedBy(owner: UserId)
      modifies this
      ensures tasks == DeleteTasksOf(old(tasks), owner)
      ensures users == old(users) && nextUserId == old(nextUserId) && nextTaskId == old(nextTaskId)
    {
      tasks := DeleteTasksOf(tasks, owner);
    }

    /** Removing the user document itself. */
    method RemoveUser(id: UserId)
      modifies this
      ensures users == old(users) - {id}
      ensures tasks == old(tasks) && nextUserId == old(nextUserId) && nextTaskId == old(nextTaskId)
    {
      users := users - {id};
    }
  }

  /** The users collection: ids below the counter, every document well formed, emails unique. */
  ghost predicate UsersValid(users: map<UserId, User>, nextId: nat, isEmail: string -> bool)
  {
    && (forall id :: id in users ==> id < nextId)
    && AllWellFormed(users, isEmail)
    && EmailsUnique(users)
  }

  ghost predicate AllWellFormed(users: map<UserId, User>, isEmail: string -> bool)
  {
    forall id :: id in users ==> UserWellFormed(users[id], isEmail)
  }

  /** The tasks collection: ids below the counter, every document well formed, every owner
      among `owners`. */
  ghost predicate TasksValid(tasks: map<TaskId, Task>, nextId: nat, owners: map<UserId, User>)
  {
    && (forall id :: id in tasks ==> id < nextId)
    && (forall id :: id in tasks ==> TaskWellFormed(tasks[id]) && tasks[id].owner in owners)
  }

  /** Replacing a stored user by a well-formed document whose email no other user has keeps the
      collection valid. */
  lemma UsersValidReplace(users: map<UserId, User>, nextId: nat, isEmail: string -> bool, id: UserId, u: User)
    requires UsersValid(users, nextId, isEmail) && id < nextId
    requires UserWellFormed(u, isEmail)
    requires forall k :: k in users && k != id ==> users[k].email != u.email
    ensures UsersValid(users[id := u], nextId, isEmail)
  {
    AllWellFormedReplace(users, isEmail, id, u);
    EmailsUniqueReplace(users, id, u);
  }

  lemma AllWellFormedReplace(users: map<UserId, User>, isEmail: string -> bool, id: UserId, u: User)
    requires AllWellFormed(users, isEmail) && UserWellFormed(u, isEmail)
    ensures AllWellFormed(users[id := u], isEmail)
  {
  }

  lemma EmailsUniqueReplace(users: map<UserId, User>, id: UserId, u: User)
    requires EmailsUnique(users)
    requires forall k :: k in users && k != id ==> users[k].email != u.email
    ensures EmailsUnique(users[id := u])
  {
  }

  lemma UsersValidRemove(users: map<UserId, User>, nextId: nat, isEmail: string -> bool, id: UserId)
    requires UsersValid(users, nextId, isEmail)
    ensures UsersValid(users - {id}, nextId, isEmail)
  {
    var rest := users - {id};
    forall a, b | a in rest && b in rest && rest[a].email == rest[b].email ensures a == b {
      assert rest[a] == users[a] && rest[b] == users[b];
    }
  }

  /** Deleting a user together with its tasks keeps both collections valid. */
  lemma DeleteUserKeepsValid(users: map<UserId, User>, tasks: map<TaskId, Task>, nextUserId: nat, nextTaskId: nat,
                             isEmail: string -> bool, id: UserId)
    requires UsersValid(users, nextUserId, isEmail) && TasksValid(tasks, nextTaskId, users)
    ensures UsersValid(users - {id}, nextUserId, isEmail)
    ensures TasksValid(DeleteTasksOf(tasks, id), nextTaskId, users - {id})
  {
    UsersValidRemove(users, nextUserId, isEmail, id);
    CascadeLeavesNoOrphans(tasks, nextTaskId, users, id);
  }

  /** A new user under the next fresh id keeps the users collection valid, and the tasks'
      owners are still stored users. */
  lemma UsersValidInsert(users: map<UserId, User>, tasks: map<TaskId, Task>, nextUserId: nat, nextTaskId: nat,
                         isEmail: string -> bool, u: User)
    requires UsersValid(users, nextUserId, isEmail) && TasksValid(tasks, nextTaskId, users)
    requires UserWellFormed(u, isEmail)
    requires forall k :: k in users ==> users[k].email != u.email
    ensures nextUserId !in users
    ensures UsersValid(users[nextUserId := u], nextUserId + 1, isEmail)
    ensures TasksValid(tasks, nextTaskId, users[nextUserId := u])
  {
    AllWellFormedReplace(users, isEmail, nextUserId, u);
    EmailsUniqueReplace(users, nextUserId, u);
  }

  /** Storing a well-formed task of a stored user under a valid id keeps the tasks collection
      valid. */
  lemma TasksValidStore(tasks: map<TaskId, Task>, nextId: nat, owners: map<UserId, User>, id: TaskId, t: Task)
    requires TasksValid(tasks, nextId, owners) && id < nextId
    requires TaskWellFormed(t) && t.owner in owners
    ensures TasksValid(tasks[id := t], nextId, owners)
  {
  }

  /** Removing a task keeps the tasks collection valid. */
  lemma TasksValidRemove(tasks: map<TaskId, Task>, nextId: nat, owners: map<UserId, User>, id: TaskId)
    requires TasksValid(tasks, nextId, owners)
    ensures TasksValid(tasks - {id}, nextId, owners)
  {
  }

  /** Replacing a stored user keeps the tasks' owners stored. */
  lemma TasksValidOwnerReplaced(tasks: map<TaskId, Task>, nextId: nat, owners: map<UserId, User>, id: UserId, u: User)
    requires TasksValid(tasks, nextId, owners) && id in owners
    ensures TasksValid(tasks, nextId, owners[id := u])
  {
  }

  /** After the cascade, no remaining task is owned by the deleted user. */
  lemma CascadeLeavesNoOrphans(tasks: map<TaskId, Task>, nextId: nat, owners: map<UserId, User>, id: UserId)
    requires TasksValid(tasks, nextId, owners)
    ensures TasksValid(DeleteTasksOf(tasks, id), nextId, owners - {id})
  {
  }
}
