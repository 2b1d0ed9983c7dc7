/** What GET /tasks answers: the `match` and `sort` objects built from the query string, and the
    populate of the caller's `tasks` virtual with them, `limit` and `skip`. */
module TaskQuery {

  import opened Common
  import opened Text
  import opened TaskModel

  /** The query string of GET /tasks: each parameter absent or its raw text. */
  datatype Query = Query(completed: Option<string>, sortBy: Option<string>, limit: Option<string>, skip: Option<string>)

  /** The `sort` object: one field name and its direction, 1 ascending or -1 descending. */
  datatype SortKey = SortKey(field: string, direction: int)

  /** One listed task with its id. */
  datatype Entry = Entry(id: TaskId, task: Task)

  /** The direction that `sortBy` requests with `:desc`. */
  const DESC: string := "desc"

  /** A query parameter is truthy when present and not empty. */
  predicate Truthy(p: Option<string>)
  {
    p.Some? && p.value != []
  }

  /** The `match` object: a filter on `completed`, or none. */
  function MatchOf(completed: Option<string>): (r: Option<bool>)
  {
    if Truthy(completed) then Some(completed.value == "true") else None
  }

  /** A task satisfies the `match` object. */
  predicate Matches(t: Task, m: Option<bool>)
  {
    m.None? || t.completed == m.value
  }

  /** The `sort` object built from `sortBy`, or none. */
  function SortOf(sortBy: Option<string>): (r: Option<SortKey>)
    ensures r.None? <==> !Truthy(sortBy)
    ensures r.Some? ==> r.value.direction == 1 || r.value.direction == -1
    ensures r.Some? ==> ':' !in r.value.field
  {
    if Truthy(sortBy) then
      var parts := Split(sortBy.value, ':');
      Some(SortKey(parts[0], if |parts| > 1 && parts[1] == DESC then -1 else 1))
    else None
  }

  /** The `completed` parameter: absent or empty adds no filter, exactly "true" filters on true,
      and any other text filters on false. */
  lemma CompletedFilter(s: string)
    ensures MatchOf(None) == None && MatchOf(Some([])) == None
    ensures MatchOf(Some(s)) == if s == [] then None else Some(s == "true")
  {
  }

  /** The sort field is the text of `sortBy` before its first ':' (all of it when there is none). */
  lemma SortFieldIsHead(s: string)
    requires s != []
    ensures var f := SortOf(Some(s)).value.field;
            |f| <= |s| && f == s[..|f|] && (|f| == |s| || s[|f|] == ':')
  {
    SplitHead(s, ':');
  }

  /** A `sortBy` of colon-free segments sorts on the first, descending exactly when the second
      is "desc". */
  lemma {:induction false} SortOfSegments(field: string, next: string, more: seq<string>)
    requires ':' !in field && ':' !in next
    requires forall i :: 0 <= i < |more| ==> ':' !in more[i]
    ensures SortOf(Some(Join([field, next] + more, ':'))) == Some(SortKey(field, if next == DESC then -1 else 1))
  {
    var parts := [field, next] + more;
    assert parts[0] == field && parts[1] == next;
    SplitJoin(parts, ':');
    assert |Join(parts, ':')| > 0 by {
      assert Join(parts, ':') == parts[0] + [':'] + Join(parts[1..], ':');
    }
  }

  /** A `sortBy` without ':' sorts ascending on the whole text, so a suffix such as `_desc` is
      part of the field name and asks for no descending order. */
  lemma SortOfWithoutColon(s: string)
    requires s != [] && ':' !in s
    ensures SortOf(Some(s)) == Some(SortKey(s, 1))
  {
    SplitJoin([s], ':');
  }

  /** `createdAt_desc` is read as an ascending sort on a field of that name. */
  lemma UnderscoreDescNotRecognised()
    ensures SortOf(Some("createdAt_desc")) == Some(SortKey("createdAt_desc", 1))
  {
    SortOfWithoutColon("createdAt_desc");
  }

  /** A dotted segment of a field path that the database refuses as a field name: empty, or
      starting with `$`. */
  predicate SegmentRefused(seg: string)
  {
    seg == [] || seg[0] == '$'
  }

  /** The sort key for the collection's natural (insertion) order, the one `$` name the
      database accepts in a sort. */
  const NATURAL: string := "$natural"

  /** The database refuses to sort on `field`: it is not `$natural`, and some segment of the
      dotted path is refused. */
  predicate FieldRefused(field: string)
  {
    var segments := Split(field, '.');
    field != NATURAL && exists i :: 0 <= i < |segments| && SegmentRefused(segments[i])
  }

  /** The `sort` object built from `sortBy` is one the database refuses, so the populate
      rejects. */
  predicate SortRefused(sortBy: Option<string>)
  {
    SortOf(sortBy).Some? && FieldRefused(SortOf(sortBy).value.field)
  }

  /** A `sortBy` that starts with ':', such as ":desc", sorts on the empty field, which is
      refused. */
  lemma EmptySortFieldRefused(s: string)
    requires s != [] && s[0] == ':'
    ensures SortOf(Some(s)).value.field == [] && SortRefused(Some(s))
  {
    SortFieldIsHead(s);
    assert SegmentRefused(Split([], '.')[0]);
  }

  /** A `sortBy` that starts with '$' sorts on a field whose first segment is refused, unless
      the field is exactly `$natural`. */
  lemma DollarSortFieldRefused(s: string)
    requires s != [] && s[0] == '$'
    ensures SortOf(Some(s)).value.field != NATURAL ==> SortRefused(Some(s))
  {
    SortFieldIsHead(s);
    var f := SortOf(Some(s)).value.field;
    assert f != [] && f[0] == '$';
    SplitHead(f, '.');
    var head := Split(f, '.')[0];
    assert head != [] && head[0] == f[0];
    assert SegmentRefused(head);
  }

  /** A `sortBy` without '.' that starts with neither ':' nor '$' gives a field the database
      accepts. */
  lemma PlainSortFieldAccepted(s: string)
    requires s != [] && s[0] != ':' && s[0] != '$' && '.' !in s
    ensures !SortRefused(Some(s))
  {
    SortFieldIsHead(s);
    var f := SortOf(Some(s)).value.field;
    assert f != [] && f[0] == s[0];
    assert '.' !in f by {
      forall i | 0 <= i < |f|
        ensures f[i] != '.'
      {
        assert f[i] == s[i];
      }
    }
    SplitJoin([f], '.');
    assert Split(f, '.') == [f];
  }

  /** Concrete `sortBy` values: an empty field and a leading `$` are refused; an ordinary
      field is not. */
  lemma SortRefusedExamples()
    ensures SortRefused(Some(":desc")) && SortRefused(Some("$x"))
    ensures !SortRefused(Some("createdAt:desc")) && !SortRefused(None)
  {
    EmptySortFieldRefused(":desc");
    DollarSortFieldRefused("$x");
    PlainSortFieldAccepted("createdAt:desc");
  }

  /** A sort on `$natural` is never refused. */
  lemma NaturalFieldAccepted(sortBy: Option<string>)
    requires SortOf(sortBy).Some? && SortOf(sortBy).value.field == NATURAL
    ensures !SortRefused(sortBy)
  {
  }

  /** `sortBy=$natural` sorts ascending on `$natural`, which is accepted. */
  lemma NaturalSortAccepted()
    ensures SortOf(Some("$natural")) == Some(SortKey(NATURAL, 1)) && !SortRefused(Some("$natural"))
  {
    SortOfWithoutColon(NATURAL);
    NaturalFieldAccepted(Some(NATURAL));
  }

  /** `sortBy=$natural:desc` sorts descending on `$natural`, which is accepted. */
  lemma NaturalDescSortAccepted()
    ensures SortOf(Some("$natural:desc")) == Some(SortKey(NATURAL, -1)) && !SortRefused(Some("$natural:desc"))
  {
    var parts := [NATURAL, DESC];
    assert parts + [] == parts;
    assert Join(parts, ':') == NATURAL + [':'] + DESC by {
      assert parts[1..] == [DESC];
    }
    SortOfSegments(NATURAL, DESC, []);
    NaturalFieldAccepted(Some(NATURAL + [':'] + DESC));
    assert NATURAL + [':'] + DESC == "$natural:desc" by {
      forall i | 0 <= i < 13
        ensures (NATURAL + [':'] + DESC)[i] == "$natural:desc"[i]
      {
      }
    }
  }

  /** `$natural: -1` lists newer tasks first. */
  lemma NaturalDescendingNewestFirst(a: Entry, b: Entry)
    requires a.id != b.id
    ensures Precedes(Some(SortKey(NATURAL, -1)), a, b) <==> a.id > b.id
  {
  }

  /** A trailing '.' leaves an empty last segment, which is refused. */
  lemma TrailingDotRefused()
    ensures SortRefused(Some("a."))
  {
    SortOfWithoutColon("a.");
    var segments := ["a", ""];
    assert Join(segments, '.') == "a.";
    SplitJoin(segments, '.');
    assert SegmentRefused(Split("a.", '.')[1]);
  }

  /** Two dots in a row leave an empty segment between them, which is refused. */
  lemma DoubleDotRefused()
    ensures SortRefused(Some("a..b"))
  {
    SortOfWithoutColon("a..b");
    var segments := ["a", "", "b"];
    assert Join(segments, '.') == "a..b";
    SplitJoin(segments, '.');
    assert SegmentRefused(Split("a..b", '.')[1]);
  }

  /** `parseInt` of a query parameter, as far as it yields a natural number: the leading decimal
      digits, or nothing (NaN) when there are none. */
  function ParseCount(p: Option<string>): (r: Option<nat>)
    ensures r.Some? ==> p.Some? && p.value != [] && IsDigit(p.value[0])
  {
    if p.Some? then ParseNatPrefix(p.value) else None
  }

  /** The caller's tasks among the ids below `n` that satisfy `m`, in ascending id (insertion)
      order: what `Task.find({ owner, ...match })` yields before sorting. */
  function Owned(tasks: map<TaskId, Task>, caller: UserId, m: Option<bool>, n: nat): (r: seq<Entry>)
    ensures forall i :: 0 <= i < |r| ==> && r[i].id < n && r[i].id in tasks && tasks[r[i].id] == r[i].task
                                          && r[i].task.owner == caller && Matches(r[i].task, m)
    ensures forall i, j :: 0 <= i < j < |r| ==> r[i].id < r[j].id
  {
    if n == 0 then []
    else
      var prefix := Owned(tasks, caller, m, n - 1);
      var id := n - 1;
      if id in tasks && tasks[id].owner == caller && Matches(tasks[id], m) then prefix + [Entry(id, tasks[id])]
      else prefix
  }

  /** Every task of the caller below `n` that satisfies `m` is listed. */
  lemma {:induction false} OwnedComplete(tasks: map<TaskId, Task>, caller: UserId, m: Option<bool>, n: nat, id: TaskId)
    requires id < n && id in tasks && tasks[id].owner == caller && Matches(tasks[id], m)
    ensures Entry(id, tasks[id]) in Owned(tasks, caller, m, n)
  {
    if id < n - 1 {
      OwnedComplete(tasks, caller, m, n - 1, id);
    }
  }

  /** Only the caller's own tasks matter: two stores that agree on them list alike. */
  lemma {:induction false} OwnedIsolated(tasks: map<TaskId, Task>, other: map<TaskId, Task>, caller: UserId, m: Option<bool>, n: nat)
    requires forall id :: id in tasks && tasks[id].owner == caller ==> id in other && other[id] == tasks[id]
    requires forall id :: id in other && other[id].owner == caller ==> id in tasks && tasks[id] == other[id]
    ensures Owned(tasks, caller, m, n) == Owned(other, caller, m, n)
  {
    if n > 0 {
      OwnedIsolated(tasks, other, caller, m, n - 1);
    }
  }

  /** The value a sort field gives an entry: ids stand for `_id`, `createdAt` and `$natural`,
      since all three follow creation order; a field the model does not track gives every task
      the same value. */
  function Rank(field: string, e: Entry): int
  {
    if field == "_id" || field == "createdAt" || field == NATURAL then e.id
    else if field == "completed" then (if e.task.completed then 1 else 0)
    else 0
  }

  /** The sort value with the direction applied; without a `sort` object every task ties. */
  function Score(k: Option<SortKey>, e: Entry): int
  {
    if k.Some? then k.value.direction * Rank(k.value.field, e) else 0
  }

  /** `a` may come before `b`: a smaller sort value, or a tie broken by id. */
  predicate Precedes(k: Option<SortKey>, a: Entry, b: Entry)
  {
    Score(k, a) < Score(k, b) || (Score(k, a) == Score(k, b) && a.id <= b.id)
  }

  predicate SortedBy(k: Option<SortKey>, s: seq<Entry>)
  {
    forall i, j :: 0 <= i < j < |s| ==> Precedes(k, s[i], s[j])
  }

  /** Any two entries are comparable, and the order is transitive, so every list has a sorted
      arrangement. */
  lemma PrecedesTotalPreorder(k: Option<SortKey>, a: Entry, b: Entry, c: Entry)
    ensures Precedes(k, a, b) || Precedes(k, b, a)
    ensures Precedes(k, a, b) && Precedes(k, b, c) ==> Precedes(k, a, c)
  {
  }

  /** `createdAt: -1` puts newer tasks first, and `completed: -1` puts finished tasks before
      unfinished ones, while `completed: 1` does the opposite. */
  lemma SortDirections(a: Entry, b: Entry)
    ensures a.id != b.id ==> (Precedes(Some(SortKey("createdAt", -1)), a, b) <==> a.id > b.id)
    ensures a.task.completed && !b.task.completed ==>
              Precedes(Some(SortKey("completed", -1)), a, b) && !Precedes(Some(SortKey("completed", 1)), a, b)
  {
  }

  /** `e` inserted into an ordered sequence. */
  function Insert(k: Option<SortKey>, e: Entry, s: seq<Entry>): (r: seq<Entry>)
    requires SortedBy(k, s)
    ensures multiset(r) == multiset(s) + multiset{e}
    ensures SortedBy(k, r)
  {
    if s == [] then [e]
    else if Precedes(k, e, s[0]) then [e] + s
    else
      var rest := Insert(k, e, s[1..]);
      assert multiset(s) == multiset{s[0]} + multiset(s[1..]) by {
        assert s == [s[0]] + s[1..];
      }
      forall x | x in rest ensures Precedes(k, s[0], x) {
        assert x in multiset(rest);
        if x != e {
          assert x in multiset(s[1..]);
          var j :| 0 <= j < |s[1..]| && s[1..][j] == x;
          assert s[j + 1] == x;
        }
      }
      [s[0]] + rest
  }

  /** The `sort` option applied by the database. */
  function Order(k: Option<SortKey>, s: seq<Entry>): (r: seq<Entry>)
    ensures multiset(r) == multiset(s)
    ensures SortedBy(k, r)
  {
    if s == [] then []
    else
      assert s == s[..|s| - 1] + [s[|s| - 1]];
      Insert(k, s[|s| - 1], Order(k, s[..|s| - 1]))
  }

  /** The `skip` and `limit` options: drop the first `skip` entries, then keep at most `limit`;
      a limit of 0 or none means no limit. */
  function Window(s: seq<Entry>, skip: Option<nat>, limit: Option<nat>): (r: seq<Entry>)
    ensures var from := if skip.Some? && skip.value <= |s| then skip.value else if skip.Some? then |s| else 0;
            && from + |r| <= |s| && r == s[from..from + |r|]
            && (limit.Some? && limit.value > 0 ==> |r| == if from + limit.value <= |s| then limit.value else |s| - from)
            && (limit.None? || limit.value == 0 ==> |r| == |s| - from)
  {
    var from := if skip.Some? && skip.value <= |s| then skip.value else if skip.Some? then |s| else 0;
    var rest := s[from..];
    if limit.Some? && 0 < limit.value < |rest| then rest[..limit.value] else rest
  }

  /** The caller's listing: owned tasks that match, sorted, then windowed. `n` bounds the task ids
      in use. */
  function Listing(tasks: map<TaskId, Task>, caller: UserId, q: Query, n: nat): seq<Entry>
  {
    Window(Order(SortOf(q.sortBy), Owned(tasks, caller, MatchOf(q.completed), n)), ParseCount(q.skip), ParseCount(q.limit))
  }

  /** A listing shows only tasks the caller owns that satisfy the `completed` filter, as stored. */
  lemma ListingOwnedOnly(tasks: map<TaskId, Task>, caller: UserId, q: Query, n: nat, e: Entry)
    requires e in Listing(tasks, caller, q, n)
    ensures e.id in tasks && tasks[e.id] == e.task
    ensures e.task.owner == caller && Matches(e.task, MatchOf(q.completed))
  {
    var owned := Owned(tasks, caller, MatchOf(q.completed), n);
    var ordered := Order(SortOf(q.sortBy), owned);
    assert e in ordered;
    assert e in multiset(owned);
  }

  /** Without `skip` and `limit`, every task the caller owns that satisfies the filter is listed. */
  lemma ListingComplete(tasks: map<TaskId, Task>, caller: UserId, q: Query, n: nat, id: TaskId)
    requires q.skip.None? && q.limit.None?
    requires id < n && id in tasks && tasks[id].owner == caller && Matches(tasks[id], MatchOf(q.completed))
    ensures Entry(id, tasks[id]) in Listing(tasks, caller, q, n)
  {
    var owned := Owned(tasks, caller, MatchOf(q.completed), n);
    OwnedComplete(tasks, caller, MatchOf(q.completed), n, id);
    assert Entry(id, tasks[id]) in multiset(owned);
    assert Entry(id, tasks[id]) in multiset(Order(SortOf(q.sortBy), owned));
  }

  /** A positive `limit` bounds the length of the listing. */
  lemma ListingBounded(tasks: map<TaskId, Task>, caller: UserId, q: Query, n: nat)
    requires ParseCount(q.limit).Some? && ParseCount(q.limit).value > 0
    ensures |Listing(tasks, caller, q, n)| <= ParseCount(q.limit).value
  {
  }

  /** The listing never depends on other users' tasks. */
  lemma ListingIsolated(tasks: map<TaskId, Task>, other: map<TaskId, Task>, caller: UserId, q: Query, n: nat)
    requires forall id :: id in tasks && tasks[id].owner == caller ==> id in other && other[id] == tasks[id]
    requires forall id :: id in other && other[id].owner == caller ==> id in tasks && tasks[id] == other[id]
    ensures Listing(tasks, caller, q, n) == Listing(other, caller, q, n)
  {
    OwnedIsolated(tasks, other, caller, MatchOf(q.completed), n);
  }
}
