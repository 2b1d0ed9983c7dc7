/** The /tasks routes of src/routers/task.js. Every route sits behind the authentication gate, so
    each handler requires an authenticated caller; every task lookup is filtered by
    `{ _id, owner: caller }`. */
module TaskRouter {

  import opened Common
  import opened Text
  import opened TaskModel
  import opened UserModel
  import opened Store
  import opened Auth
  import opened TaskQuery

  /** The paths a PATCH may set. */
  const TASK_UPDATES: set<string> := {DESCRIPTION, COMPLETED}

  /** The body key a client might use to claim another owner. */
  const OWNER: string := "owner"

  /** `new Task({ ...req.body, owner: req.user._id })` followed by validation: `owner` is written
      after the spread, so it is always the caller; keys outside the schema are dropped. */
  function NewTask(body: Body, caller: UserId): (r: Option<Task>)
    ensures r.Some? <==> && DESCRIPTION in body && CastDescription(body[DESCRIPTION]).Some?
                         && (COMPLETED in body ==> CastCompleted(body[COMPLETED]).Some?)
    ensures r.Some? ==> && r.value.owner == caller && TaskWellFormed(r.value)
                        && r.value.description == CastDescription(body[DESCRIPTION]).value
                        && r.value.completed == (COMPLETED in body && body[COMPLETED].b)
  {
    if DESCRIPTION !in body then None
    else
      var description := CastDescription(body[DESCRIPTION]);
      var completed := if COMPLETED in body then CastCompleted(body[COMPLETED]) else Some(false);
      if description.None? || completed.None? then None
      else Some(Task(description.value, completed.value, caller))
  }

  /** An `owner` key in the body changes nothing. */
  lemma NewTaskIgnoresBodyOwner(body: Body, caller: UserId, v: Value)
    ensures NewTask(body[OWNER := v], caller) == NewTask(body, caller)
  {
    assert OWNER != DESCRIPTION && OWNER != COMPLETED;
  }

  /** `Task.findOne({ _id: id, owner: caller })`. */
  function FindOwned(tasks: map<TaskId, Task>, id: TaskId, caller: UserId): (r: Option<Task>)
    ensures r.Some? <==> id in tasks && tasks[id].owner == caller
    ensures r.Some? ==> r.value == tasks[id]
  {
    if id in tasks && tasks[id].owner == caller then Some(tasks[id]) else None
  }

  /** A task owned by someone else is indistinguishable from one that does not exist. */
  lemma ForeignTaskLooksAbsent(tasks: map<TaskId, Task>, id: TaskId, caller: UserId)
    requires id in tasks && tasks[id].owner != caller
    ensures FindOwned(tasks, id, caller) == FindOwned(tasks - {id}, id, caller) == None
  {
  }

  /** `task[key] = value` for one allowed path, with that path's cast and validators; `None` when
      they reject the value. */
  function SetTaskPath(t: Task, key: string, v: Value): (r: Option<Task>)
  {
    if key == DESCRIPTION then
      (match CastDescription(v) case Some(x) => Some(t.(description := x)) case None => None)
    else if key == COMPLETED then
      (match CastCompleted(v) case Some(x) => Some(t.(completed := x)) case None => None)
    else Some(t)
  }

  /** The task after every key of `body` has been assigned and validated, or `None` when some
      value is rejected. */
  function ApplyTaskUpdates(t: Task, body: Body): (r: Option<Task>)
    ensures r.Some? <==> && (DESCRIPTION in body ==> CastDescription(body[DESCRIPTION]).Some?)
                         && (COMPLETED in body ==> CastCompleted(body[COMPLETED]).Some?)
    ensures r.Some? ==> && r.value.owner == t.owner
                        && (DESCRIPTION !in body ==> r.value.description == t.description)
                        && (COMPLETED !in body ==> r.value.completed == t.completed)
  {
    var description := if DESCRIPTION in body then CastDescription(body[DESCRIPTION]) else Some(t.description);
    var completed := if COMPLETED in body then CastCompleted(body[COMPLETED]) else Some(t.completed);
    if description.None? || completed.None? then None
    else Some(Task(description.value, completed.value, t.owner))
  }

  /** Every supplied path holds its cast value, so a well-formed task stays well formed. */
  lemma ApplyTaskUpdatesAssigns(t: Task, body: Body)
    requires ApplyTaskUpdates(t, body).Some?
    ensures var r := ApplyTaskUpdates(t, body).value;
            && (DESCRIPTION in body ==> r.description == CastDescription(body[DESCRIPTION]).value)
            && (COMPLETED in body ==> r.completed == body[COMPLETED].b)
    ensures TaskWellFormed(t) ==> TaskWellFormed(ApplyTaskUpdates(t, body).value)
  {
  }

  /** Assigning the keys of `body` one at a time, in any order, ends in `ApplyTaskUpdates`:
      adding one more key to the assigned part applies that key's `SetTaskPath`. */
  lemma ApplyTaskUpdatesStep(t: Task, body: Body, done: set<string>, key: string)
    requires key in body && key !in done && key in TASK_UPDATES
    ensures var before := ApplyTaskUpdates(t, Restrict(body, done));
            var after := ApplyTaskUpdates(t, Restrict(body, done + {key}));
            if before.None? then after.None? else after == SetTaskPath(before.value, key, body[key])
  {
    var r0 := Restrict(body, done);
    var r1 := Restrict(body, done + {key});
    assert r1 == r0[key := body[key]];
  }

  /** `updates.forEach((update) => task[update] = req.body[update])`: the keys are assigned one
      at a time; a rejected value marks the document invalid, and `save` will refuse it. */
  method AssignTaskPaths(task: Task, body: Body) returns (valid: bool, doc: Task)
    requires OnlyKeys(body, TASK_UPDATES)
    ensures valid <==> ApplyTaskUpdates(task, body).Some?
    ensures valid ==> doc == ApplyTaskUpdates(task, body).value
  {
    doc, valid := task, true;
    var done: set<string> := {};
    while done != body.Keys
      invariant done <= body.Keys
      invariant valid ==> ApplyTaskUpdates(task, Restrict(body, done)) == Some(doc)
      invariant !valid ==> ApplyTaskUpdates(task, Restrict(body, done)).None?
      decreases |body.Keys - done|
    {
      var key :| key in body.Keys - done;
      ApplyTaskUpdatesStep(task, body, done, key);
      if valid {
        var next := SetTaskPath(doc, key, body[key]);
        if next.Some? {
          doc := next.value;
        } else {
          valid := false;
        }
      }
      RemainderShrinks(body.Keys, done, key);
      done := done + {key};
    }
    RestrictToAllKeys(body);
  }

  /** POST /tasks: 201 with the new task stored under a fresh id and owned by the caller, or 400
      with nothing stored. */
  method CreateTask(db: Db, caller: UserId, token: Token, body: Body) returns (status: nat, created: Option<Entry>)
    requires db.Valid() && Authenticated(db.users, caller, token)
    modifies db
    ensures db.Valid()
    ensures NewTask(body, caller).None? ==> status == BAD_REQUEST && created.None? && unchanged(db)
    ensures NewTask(body, caller).Some? ==>
              && status == CREATED
              && created == Some(Entry(old(db.nextTaskId), NewTask(body, caller).value))
              && created.value.id !in old(db.tasks)
              && db.tasks == old(db.tasks)[created.value.id := created.value.task]
              && db.users == old(db.users)
              && db.nextUserId == old(db.nextUserId) && db.nextTaskId == old(db.nextTaskId) + 1
  {
    var task := NewTask(body, caller);
    if task.None? {
      return BAD_REQUEST, None;
    }
    TasksValidStore(db.tasks, db.nextTaskId + 1, db.users, db.nextTaskId, task.value);
    var id := db.InsertTask(task.value);
    status, created := CREATED, Some(Entry(id, task.value));
  }

  /** GET /tasks: 200 with the caller's listing. The handler builds `match` and `sort` from the
      query string, then the populate runs with them; a sort field the database refuses makes
      the populate reject, and the catch answers 500. */
  method ListTasks(db: Db, caller: UserId, token: Token, q: Query) returns (status: nat, list: seq<Entry>)
    requires db.Valid() && Authenticated(db.users, caller, token)
    ensures status == OK || status == SERVER_ERROR
    ensures status == SERVER_ERROR <==> SortRefused(q.sortBy)
    ensures status == SERVER_ERROR ==> list == []
    ensures status == OK ==> list == Listing(db.tasks, caller, q, db.nextTaskId)
    ensures status == OK ==>
              forall e :: e in list ==> && e.id in db.tasks && db.tasks[e.id] == e.task
                                        && e.task.owner == caller && Matches(e.task, MatchOf(q.completed))
    ensures status == OK && q.skip.None? && q.limit.None? ==>
              forall id :: id in db.tasks && db.tasks[id].owner == caller && Matches(db.tasks[id], MatchOf(q.completed)) ==>
                Entry(id, db.tasks[id]) in list
  {
    var filter: Option<bool> := None;
    var sort: Option<SortKey> := None;
    if q.completed.Some? && q.completed.value != [] {
      filter := Some(q.completed.value == "true");
    }
    if q.sortBy.Some? && q.sortBy.value != [] {
      var parts := Split(q.sortBy.value, ':');
      sort := Some(SortKey(parts[0], if |parts| > 1 && parts[1] == DESC then -1 else 1));
    }
    assert filter == MatchOf(q.completed) && sort == SortOf(q.sortBy);
    if sort.Some? && FieldRefused(sort.value.field) {
      return SERVER_ERROR, [];
    }
    var owned := Owned(db.tasks, caller, filter, db.nextTaskId);
    list := Window(Order(sort, owned), ParseCount(q.skip), ParseCount(q.limit));
    status := OK;
    forall e | e in list {
      ListingOwnedOnly(db.tasks, caller, q, db.nextTaskId, e);
    }
    if q.skip.None? && q.limit.None? {
      forall id | id in db.tasks && db.tasks[id].owner == caller && Matches(db.tasks[id], MatchOf(q.completed)) {
        ListingComplete(db.tasks, caller, q, db.nextTaskId, id);
      }
    }
  }

  /** GET /tasks/:id. `id` is absent when the path segment is not a valid ObjectId; the cast error
      lands in the catch (500). A task that is absent or someone else's gives the same 404. */
  method GetTask(db: Db, caller: UserId, token: Token, id: Option<TaskId>) returns (status: nat, found: Option<Task>)
    requires Authenticated(db.users, caller, token)
    ensures id.None? ==> status == SERVER_ERROR && found.None?
    ensures id.Some? ==> found == FindOwned(db.tasks, id.value, caller)
    ensures id.Some? ==> (status == OK <==> found.Some?) && (status == NOT_FOUND <==> found.None?)
  {
    if id.None? {
      return SERVER_ERROR, None;
    }
    found := FindOwned(db.tasks, id.value, caller);
    status := if found.None? then NOT_FOUND else OK;
  }

  /** PATCH /tasks/:id. A key outside the allow-list gives 400 before any lookup; an invalid id
      is a cast error in the try (400); a task that is absent or someone else's gives 404; a
      rejected value gives 400. Only the 200 case changes the store, and then only this task. */
  method PatchTask(db: Db, caller: UserId, token: Token, id: Option<TaskId>, body: Body)
    returns (status: nat, updated: Option<Task>, error: Option<string>)
    requires db.Valid() && Authenticated(db.users, caller, token)
    modifies db
    ensures db.Valid()
    ensures status != OK ==> updated.None? && unchanged(db)
    ensures !OnlyKeys(body, TASK_UPDATES) ==> status == BAD_REQUEST && error == Some(INVALID_UPDATES)
    ensures OnlyKeys(body, TASK_UPDATES) ==> error.None?
    ensures OnlyKeys(body, TASK_UPDATES) && id.None? ==> status == BAD_REQUEST
    ensures OnlyKeys(body, TASK_UPDATES) && id.Some? && FindOwned(old(db.tasks), id.value, caller).None? ==>
              status == NOT_FOUND
    ensures OnlyKeys(body, TASK_UPDATES) && id.Some? && FindOwned(old(db.tasks), id.value, caller).Some? ==>
              var after := ApplyTaskUpdates(old(db.tasks)[id.value], body);
              && (after.None? ==> status == BAD_REQUEST)
              && (after.Some? ==> && status == OK && updated == after
                                  && db.tasks == old(db.tasks)[id.value := after.value]
                                  && db.users == old(db.users)
                                  && db.nextUserId == old(db.nextUserId) && db.nextTaskId == old(db.nextTaskId))
  {
    if !(body.Keys <= TASK_UPDATES) {
      return BAD_REQUEST, None, Some(INVALID_UPDATES);
    }
    if id.None? {
      return BAD_REQUEST, None, None;
    }
    var task := FindOwned(db.tasks, id.value, caller);
    if task.None? {
      return NOT_FOUND, None, None;
    }
    var valid, doc := AssignTaskPaths(task.value, body);
    if !valid {
      return BAD_REQUEST, None, None;
    }
    ApplyTaskUpdatesAssigns(task.value, body);
    TasksValidStore(db.tasks, db.nextTaskId, db.users, id.value, doc);
    db.SaveTask(id.value, doc);
    status, updated, error := OK, Some(doc), None;
  }

  /** DELETE /tasks/:id: `Task.findOneAndDelete({ _id: id, owner: caller })`. An invalid id
      gives 500; a task that is absent or someone else's gives 404 and stays; otherwise the task
      is removed and returned. */
  method DeleteTask(db: Db, caller: UserId, token: Token, id: Option<TaskId>) returns (status: nat, deleted: Option<Task>)
    requires db.Valid() && Authenticated(db.users, caller, token)
    modifies db
    ensures db.Valid()
    ensures status != OK ==> deleted.None? && unchanged(db)
    ensures id.None? ==> status == SERVER_ERROR
    ensures id.Some? ==> deleted == FindOwned(old(db.tasks), id.value, caller)
    ensures id.Some? && deleted.None? ==> status == NOT_FOUND
    ensures id.Some? && deleted.Some? ==> && status == OK && db.tasks == old(db.tasks) - {id.value}
                                          && db.users == old(db.users)
                                          && db.nextUserId == old(db.nextUserId) && db.nextTaskId == old(db.nextTaskId)
  {
    if id.None? {
      return SERVER_ERROR, None;
    }
    deleted := FindOwned(db.tasks, id.value, caller);
    if deleted.None? {
      return NOT_FOUND, None;
    }
    TasksValidRemove(db.tasks, db.nextTaskId, db.users, id.value);
    db.RemoveTask(id.value);
    status := OK;
  }
}
