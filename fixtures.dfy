/** The test database of tests/fixtures/db.js (two users, three tasks) as a concrete scenario
    for the listing and ownership rules. Ids follow the order the fixture saves documents in. */
module Fixtures {

  import opened Common
  import opened TaskModel
  import opened TaskQuery
  import opened TaskRouter

  const USER_ONE: UserId := 0
  const USER_TWO: UserId := 1
  const TASK_ONE: TaskId := 0
  const TASK_TWO: TaskId := 1
  const TASK_THREE: TaskId := 2

  /** The fixture's tasks: two of user one's (one open, one done) and one of user two's. */
  function FixtureTasks(): map<TaskId, Task>
  {
    map[TASK_ONE := Task("First task", false, USER_ONE),
        TASK_TWO := Task("Secon task", true, USER_ONE),
        TASK_THREE := Task("Third task", true, USER_TWO)]
  }

  /** A query string with no parameters. */
  const NO_QUERY: Query := Query(None, None, None, None)

  /** The caller's tasks of the fixture, before sorting and windowing. */
  lemma FixtureOwned()
    ensures Owned(FixtureTasks(), USER_ONE, None, 3) == [Entry(TASK_ONE, FixtureTasks()[TASK_ONE]), Entry(TASK_TWO, FixtureTasks()[TASK_TWO])]
  {
    assert Owned(FixtureTasks(), USER_ONE, None, 1) == [Entry(TASK_ONE, FixtureTasks()[TASK_ONE])];
    assert Owned(FixtureTasks(), USER_ONE, None, 2) == Owned(FixtureTasks(), USER_ONE, None, 1) + [Entry(TASK_TWO, FixtureTasks()[TASK_TWO])];
  }

  /** GET /tasks for user one lists exactly its two tasks. */
  lemma UserOneListsTwoTasks()
    ensures |Listing(FixtureTasks(), USER_ONE, NO_QUERY, 3)| == 2
  {
    FixtureOwned();
  }

  /** With `completed=true` user one sees only its finished task. */
  lemma UserOneCompletedFilter()
    ensures Listing(FixtureTasks(), USER_ONE, Query(Some("true"), None, None, None), 3) == [Entry(TASK_TWO, FixtureTasks()[TASK_TWO])]
  {
    var m := MatchOf(Some("true"));
    assert m == Some(true);
    assert Owned(FixtureTasks(), USER_ONE, m, 1) == [];
    assert Owned(FixtureTasks(), USER_ONE, m, 2) == [Entry(TASK_TWO, FixtureTasks()[TASK_TWO])];
    assert Owned(FixtureTasks(), USER_ONE, m, 3) == Owned(FixtureTasks(), USER_ONE, m, 2);
  }

  /** User two cannot reach user one's first task: GET, PATCH and DELETE all answer 404, as for
      a task that does not exist. */
  lemma UserTwoCannotReachTaskOne()
    ensures FindOwned(FixtureTasks(), TASK_ONE, USER_TWO).None?
    ensures FindOwned(FixtureTasks(), TASK_ONE, USER_ONE) == Some(FixtureTasks()[TASK_ONE])
  {
  }
}
