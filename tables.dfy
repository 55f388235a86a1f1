/** The meaning of the SQL statements of the ledger, as functions on the two
    tables. Each table is the sequence of its rows in rowid order; `users.id`
    and `tasks.id` are AUTOINCREMENT keys, so rows appear in ascending key
    order and a new row always goes at the end. */
module Tables {
  import opened Schema

  // ---------------------------------------------------------------------
  // Keys, constraints and the store invariant
  // ---------------------------------------------------------------------

  ghost predicate AscendingUserIds(users: seq<User>)
  {
    forall i, j :: 0 <= i < j < |users| ==> users[i].id < users[j].id
  }

  ghost predicate AscendingTaskIds(tasks: seq<Task>)
  {
    forall i, j :: 0 <= i < j < |tasks| ==> tasks[i].id < tasks[j].id
  }

  /** The UNIQUE constraint on `users.telegram_id`. */
  ghost predicate UniqueTelegramIds(users: seq<User>)
  {
    forall i, j :: 0 <= i < j < |users| ==> users[i].telegramId != users[j].telegramId
  }

  ghost predicate HasUserId(users: seq<User>, id: int)
  {
    exists u :: u in users && u.id == id
  }

  /** What holds of the two tables between operations: keys are positive,
      below the next AUTOINCREMENT value and ascending; at most one user per
      Telegram identity; every task refers to an existing user; and a task
      has a completion date exactly when it is done. */
  ghost predicate Consistent(users: seq<User>, tasks: seq<Task>, nextUserId: int, nextTaskId: int)
  {
    && 1 <= nextUserId
    && 1 <= nextTaskId
    && (forall u :: u in users ==> 1 <= u.id < nextUserId)
    && AscendingUserIds(users)
    && UniqueTelegramIds(users)
    && (forall t :: t in tasks ==> 1 <= t.id < nextTaskId)
    && AscendingTaskIds(tasks)
    && (forall t :: t in tasks ==> HasUserId(users, t.userId))
    && (forall t :: t in tasks ==> (t.isDone <==> t.doneDate.Some?))
  }

  // ---------------------------------------------------------------------
  // Lookups: SELECT ... WHERE telegram_id = ? / WHERE id = ?, fetchone()
  // ---------------------------------------------------------------------

  /** The first user row with the given Telegram identity, if any. */
  function UserWithTelegram(users: seq<User>, telegramId: int): (r: Option<User>)
    ensures r.Some? ==> r.value in users && r.value.telegramId == telegramId
    ensures r.None? <==> forall u :: u in users ==> u.telegramId != telegramId
  {
    if users == [] then None
    else if users[0].telegramId == telegramId then Some(users[0])
    else UserWithTelegram(users[1..], telegramId)
  }

  /** Under the UNIQUE constraint the lookup finds THE user with that identity. */
  lemma UserWithTelegramUnique(users: seq<User>, u: User)
    requires UniqueTelegramIds(users)
    requires u in users
    ensures UserWithTelegram(users, u.telegramId) == Some(u)
  {
  }

  /** The first task row with the given id, if any. */
  function TaskWithId(tasks: seq<Task>, id: int): (r: Option<Task>)
    ensures r.Some? ==> r.value in tasks && r.value.id == id
    ensures r.None? <==> forall t :: t in tasks ==> t.id != id
  {
    if tasks == [] then None
    else if tasks[0].id == id then Some(tasks[0])
    else TaskWithId(tasks[1..], id)
  }

  /** Task ids are keys: the lookup by id finds THE task with that id. */
  lemma TaskWithIdUnique(tasks: seq<Task>, t: Task)
    requires AscendingTaskIds(tasks)
    requires t in tasks
    ensures TaskWithId(tasks, t.id) == Some(t)
  {
  }

  // ---------------------------------------------------------------------
  // Listing: SELECT id, title, category, priority FROM tasks WHERE ...
  // ---------------------------------------------------------------------

  /** The rows of the tasks that `Listed` selects, in table order. Defined
      from the end of the table, the way a scan appends to its result. */
  function Listing(tasks: seq<Task>, userId: int, onlyPending: bool): (rows: seq<TaskRow>)
    ensures |rows| <= |tasks|
  {
    if tasks == [] then []
    else
      var last := tasks[|tasks| - 1];
      Listing(tasks[..|tasks| - 1], userId, onlyPending)
        + (if Listed(last, userId, onlyPending) then [RowOf(last)] else [])
  }

  /** A row is listed exactly when it is the row of a selected task. */
  lemma {:induction false} ListingMembers(tasks: seq<Task>, userId: int, onlyPending: bool, row: TaskRow)
    ensures (row in Listing(tasks, userId, onlyPending))
        <==> (exists t :: t in tasks && Listed(t, userId, onlyPending) && RowOf(t) == row)
  {
    if tasks != [] {
      var front, last := tasks[..|tasks| - 1], tasks[|tasks| - 1];
      assert tasks == front + [last];
      ListingMembers(front, userId, onlyPending, row);
      if exists t :: t in tasks && Listed(t, userId, onlyPending) && RowOf(t) == row {
        var t :| t in tasks && Listed(t, userId, onlyPending) && RowOf(t) == row;
        if t != last {
          assert t in front;
        }
      }
    }
  }

  /** Every listed row is the row of a task that the listing selects. */
  lemma ListingOwned(tasks: seq<Task>, userId: int, onlyPending: bool)
    ensures forall row :: row in Listing(tasks, userId, onlyPending) ==>
              exists t :: t in tasks && Listed(t, userId, onlyPending) && RowOf(t) == row
  {
    forall row | row in Listing(tasks, userId, onlyPending)
      ensures exists t :: t in tasks && Listed(t, userId, onlyPending) && RowOf(t) == row
    {
      ListingMembers(tasks, userId, onlyPending, row);
    }
  }

  /** Inserting a task extends each listing by at most that task's row. */
  lemma ListingAppend(tasks: seq<Task>, t: Task, userId: int, onlyPending: bool)
    ensures Listing(tasks + [t], userId, onlyPending)
              == Listing(tasks, userId, onlyPending) + (if Listed(t, userId, onlyPending) then [RowOf(t)] else [])
  {
  }

  ghost predicate AscendingRowIds(rows: seq<TaskRow>)
  {
    forall i, j :: 0 <= i < j < |rows| ==> rows[i].id < rows[j].id
  }

  /** Listed rows come in ascending id order, so no task is listed twice. */
  lemma {:induction false} ListingAscending(tasks: seq<Task>, userId: int, onlyPending: bool)
    requires AscendingTaskIds(tasks)
    ensures AscendingRowIds(Listing(tasks, userId, onlyPending))
  {
    if tasks != [] {
      var front, last := tasks[..|tasks| - 1], tasks[|tasks| - 1];
      ListingAscending(front, userId, onlyPending);
      var head := Listing(front, userId, onlyPending);
      forall i | 0 <= i < |head|
        ensures head[i].id < last.id
      {
        ListingMembers(front, userId, onlyPending, head[i]);
        assert head[i] in head;
        var t :| t in front && Listed(t, userId, onlyPending) && RowOf(t) == head[i];
        var k :| 0 <= k < |front| && front[k] == t;
        assert tasks[k] == t;
      }
      assert tasks == front + [last];
      if Listed(last, userId, onlyPending) {
        var rows := head + [RowOf(last)];
        assert Listing(tasks, userId, onlyPending) == rows;
        forall i, j | 0 <= i < j < |rows|
          ensures rows[i].id < rows[j].id
        {
          if j == |head| {
            assert rows[i] == head[i] && rows[j] == RowOf(last);
            assert head[i].id < last.id;
          } else {
            assert rows[i] == head[i] && rows[j] == head[j];
          }
        }
      }
    }
  }

  /** get_user_tasks: the listing of the user with that Telegram identity,
      or nothing when there is no such user. */
  function UserTasks(users: seq<User>, tasks: seq<Task>, telegramId: int, onlyPending: bool): (rows: seq<TaskRow>)
    ensures UserWithTelegram(users, telegramId).None? ==> rows == []
    ensures forall row :: row in rows ==>
              exists u, t :: u in users && u.telegramId == telegramId && t in tasks
                             && Listed(t, u.id, onlyPending) && RowOf(t) == row
  {
    match UserWithTelegram(users, telegramId)
    case None => []
    case Some(u) =>
      ListingOwned(tasks, u.id, onlyPending);
      Listing(tasks, u.id, onlyPending)
  }

  // ---------------------------------------------------------------------
  // Deletion: DELETE FROM tasks WHERE id = ?
  // ---------------------------------------------------------------------

  function WithoutTask(tasks: seq<Task>, id: int): (r: seq<Task>)
    ensures forall t :: t in r <==> t in tasks && t.id != id
  {
    if tasks == [] then []
    else (if tasks[0].id == id then [] else [tasks[0]]) + WithoutTask(tasks[1..], id)
  }

  /** Deleting an absent id changes nothing. */
  lemma {:induction false} WithoutAbsentTask(tasks: seq<Task>, id: int)
    requires TaskWithId(tasks, id).None?
    ensures WithoutTask(tasks, id) == tasks
  {
    if tasks != [] {
      assert tasks[0] in tasks;
      WithoutAbsentTask(tasks[1..], id);
    }
  }

  /** In a table with ascending ids the first row has the smallest id. */
  lemma HeadBelowRest(tasks: seq<Task>)
    requires tasks != [] && AscendingTaskIds(tasks)
    ensures AscendingTaskIds(tasks[1..])
    ensures forall x :: x in tasks[1..] ==> tasks[0].id < x.id
  {
  }

  /** Deleting keeps the remaining rows in ascending key order. */
  lemma {:induction false} WithoutTaskAscending(tasks: seq<Task>, id: int)
    requires AscendingTaskIds(tasks)
    ensures AscendingTaskIds(WithoutTask(tasks, id))
  {
    if tasks != [] {
      HeadBelowRest(tasks);
      WithoutTaskAscending(tasks[1..], id);
      var tail := WithoutTask(tasks[1..], id);
      forall j | 0 <= j < |tail|
        ensures tasks[0].id < tail[j].id
      {
        assert tail[j] in tail;
      }
    }
  }

  /** Deleting removes exactly one row when the id is present, none otherwise. */
  lemma {:induction false} WithoutTaskLength(tasks: seq<Task>, id: int)
    requires AscendingTaskIds(tasks)
    ensures |WithoutTask(tasks, id)| == |tasks| - (if TaskWithId(tasks, id).Some? then 1 else 0)
  {
    if tasks == [] {
    } else if tasks[0].id == id {
      HeadBelowRest(tasks);
      WithoutAbsentTask(tasks[1..], id);
    } else {
      HeadBelowRest(tasks);
      WithoutTaskLength(tasks[1..], id);
    }
  }

  // ---------------------------------------------------------------------
  // Completion: UPDATE tasks SET is_done = 1, done_date = ? WHERE id = ?
  //             UPDATE users SET score = score + ? WHERE id = ?
  // ---------------------------------------------------------------------

  function Completed(t: Task, now: int): Task
  {
    t.(isDone := true, doneDate := Some(now))
  }

  /** Every row with the id is marked done at `now`; every other row is kept. */
  function WithDone(tasks: seq<Task>, id: int, now: int): (r: seq<Task>)
    ensures |r| == |tasks|
    ensures forall i :: 0 <= i < |r| && tasks[i].id == id ==> r[i] == Completed(tasks[i], now)
    ensures forall i :: 0 <= i < |r| && tasks[i].id != id ==> r[i] == tasks[i]
  {
    seq(|tasks|, i requires 0 <= i < |tasks| =>
      if tasks[i].id == id then Completed(tasks[i], now) else tasks[i])
  }

  /** After the update the task with the id is found done at `now` with its
      owner, priority and creation time unchanged; every other id finds what
      it found before. */
  lemma {:induction false} WithDoneLookup(tasks: seq<Task>, id: int, now: int, k: int)
    ensures TaskWithId(WithDone(tasks, id, now), k)
              == match TaskWithId(tasks, k)
                 case None => None
                 case Some(t) => Some(if k == id then Completed(t, now) else t)
  {
    if tasks != [] {
      var w := WithDone(tasks, id, now);
      assert w[1..] == WithDone(tasks[1..], id, now);
      WithDoneLookup(tasks[1..], id, now, k);
    }
  }

  /** Completion takes the task out of its owner's pending listing and keeps
      every other pending row. */
  lemma {:induction false} WithDonePending(tasks: seq<Task>, id: int, now: int, userId: int, row: TaskRow)
    ensures (row in Listing(WithDone(tasks, id, now), userId, true))
        <==> (row in Listing(tasks, userId, true) && row.id != id)
  {
    var w := WithDone(tasks, id, now);
    ListingMembers(w, userId, true, row);
    ListingMembers(tasks, userId, true, row);
    if row in Listing(w, userId, true) {
      var t :| t in w && Listed(t, userId, true) && RowOf(t) == row;
      var k :| 0 <= k < |w| && w[k] == t;
      assert tasks[k] in tasks && Listed(tasks[k], userId, true) && RowOf(tasks[k]) == row;
    }
    if row in Listing(tasks, userId, true) && row.id != id {
      var t :| t in tasks && Listed(t, userId, true) && RowOf(t) == row;
      var k :| 0 <= k < |tasks| && tasks[k] == t;
      assert w[k] in w && Listed(w[k], userId, true) && RowOf(w[k]) == row;
    }
  }

  /** The full listing does not show `is_done`, so completion leaves it as is. */
  lemma {:induction false} WithDoneFullListing(tasks: seq<Task>, id: int, now: int, userId: int)
    ensures Listing(WithDone(tasks, id, now), userId, false) == Listing(tasks, userId, false)
  {
    if tasks != [] {
      var w := WithDone(tasks, id, now);
      var front := tasks[..|tasks| - 1];
      assert w[..|w| - 1] == WithDone(front, id, now);
      WithDoneFullListing(front, id, now, userId);
    }
  }

  function CreditedUser(u: User, userId: int, points: int): User
  {
    if u.id == userId then u.(score := u.score + points) else u
  }

  /** Adds `points` to the score of every user row with the id. */
  function Credited(users: seq<User>, userId: int, points: int): (r: seq<User>)
    ensures |r| == |users|
    ensures forall i :: 0 <= i < |r| ==>
              && r[i].id == users[i].id && r[i].telegramId == users[i].telegramId
              && r[i].fullName == users[i].fullName && r[i].joinDate == users[i].joinDate
              && r[i].score == users[i].score + (if users[i].id == userId then points else 0)
  {
    seq(|users|, i requires 0 <= i < |users| => CreditedUser(users[i], userId, points))
  }

  function TotalScore(users: seq<User>): int
  {
    if users == [] then 0 else users[0].score + TotalScore(users[1..])
  }

  /** Crediting a user changes the sum of all scores by exactly `points`
      (nothing when no user has the id). */
  lemma {:induction false} CreditedTotal(users: seq<User>, userId: int, points: int)
    requires AscendingUserIds(users)
    ensures TotalScore(Credited(users, userId, points))
              == TotalScore(users) + (if HasUserId(users, userId) then points else 0)
  {
    if users != [] {
      var c := Credited(users, userId, points);
      var rest := users[1..];
      assert c[1..] == Credited(rest, userId, points);
      CreditedTotal(rest, userId, points);
      if users[0].id == userId {
        assert users[0] in users;
        forall u | u in rest
          ensures u.id != userId
        {
          var k :| 0 <= k < |rest| && rest[k] == u;
          assert users[k + 1] == u;
        }
      } else {
        if HasUserId(users, userId) {
          var u :| u in users && u.id == userId;
          assert u in rest;
        }
        if HasUserId(rest, userId) {
          var u :| u in rest && u.id == userId;
          assert u in users;
        }
      }
    }
  }

  /** Looking a user up after crediting finds the same row, credited when it
      is the user with the id. */
  lemma {:induction false} CreditedLookup(users: seq<User>, userId: int, points: int, telegramId: int)
    ensures UserWithTelegram(Credited(users, userId, points), telegramId)
              == match UserWithTelegram(users, telegramId)
                 case None => None
                 case Some(u) => Some(CreditedUser(u, userId, points))
  {
    if users != [] {
      var c := Credited(users, userId, points);
      assert c[0] == CreditedUser(users[0], userId, points);
      if users[0].telegramId == telegramId {
        assert UserWithTelegram(c, telegramId) == Some(c[0]);
      } else {
        assert c[1..] == Credited(users[1..], userId, points);
        CreditedLookup(users[1..], userId, points, telegramId);
        assert UserWithTelegram(c, telegramId) == UserWithTelegram(c[1..], telegramId);
      }
    }
  }

  /** Under the UNIQUE constraint, after crediting, every user is found by its
      Telegram identity with the points added exactly when it is the credited
      user. */
  lemma CreditedUsers(users: seq<User>, userId: int, points: int)
    requires UniqueTelegramIds(users)
    ensures forall u :: u in users ==>
              UserWithTelegram(Credited(users, userId, points), u.telegramId) == Some(CreditedUser(u, userId, points))
  {
    forall u | u in users
      ensures UserWithTelegram(Credited(users, userId, points), u.telegramId) == Some(CreditedUser(u, userId, points))
    {
      UserWithTelegramUnique(users, u);
      CreditedLookup(users, userId, points, u.telegramId);
    }
  }

  /** The minutes reported when a task is too young: the whole minutes left
      of the 30-minute wait, rounded down. */
  function MinutesLeft(elapsed: int): (m: int)
    requires elapsed < CompletionDelay
    ensures 60 * m <= CompletionDelay - elapsed < 60 * (m + 1)
    ensures 0 <= m
    ensures 0 <= elapsed ==> m <= 30
    ensures 0 < elapsed ==> m <= 29
  {
    (CompletionDelay - elapsed) / 60
  }

  // ---------------------------------------------------------------------
  // Every statement keeps the invariant
  // ---------------------------------------------------------------------

  lemma ConsistentAfterAddUser(users: seq<User>, tasks: seq<Task>, nextUserId: int, nextTaskId: int,
                               telegramId: int, fullName: string, now: int)
    requires Consistent(users, tasks, nextUserId, nextTaskId)
    requires UserWithTelegram(users, telegramId).None?
    ensures Consistent(users + [User(nextUserId, telegramId, fullName, 0, now)], tasks, nextUserId + 1, nextTaskId)
  {
  }

  lemma ConsistentAfterAddTask(users: seq<User>, tasks: seq<Task>, nextUserId: int, nextTaskId: int,
                               owner: User, title: string, category: string, priority: int, now: int)
    requires Consistent(users, tasks, nextUserId, nextTaskId)
    requires owner in users
    ensures Consistent(users, tasks + [Task(nextTaskId, owner.id, title, category, priority, now, false, None)],
                       nextUserId, nextTaskId + 1)
  {
  }

  lemma ConsistentAfterDelete(users: seq<User>, tasks: seq<Task>, nextUserId: int, nextTaskId: int, id: int)
    requires Consistent(users, tasks, nextUserId, nextTaskId)
    ensures Consistent(users, WithoutTask(tasks, id), nextUserId, nextTaskId)
  {
    WithoutTaskAscending(tasks, id);
  }

  /** Crediting changes scores only: ids and Telegram identities stay put. */
  lemma CreditedKeys(users: seq<User>, userId: int, points: int)
    requires AscendingUserIds(users) && UniqueTelegramIds(users)
    ensures AscendingUserIds(Credited(users, userId, points))
    ensures UniqueTelegramIds(Credited(users, userId, points))
    ensures forall u :: u in users ==> HasUserId(Credited(users, userId, points), u.id)
    ensures forall u :: u in Credited(users, userId, points) ==> HasUserId(users, u.id)
  {
    var c := Credited(users, userId, points);
    forall u | u in users
      ensures HasUserId(c, u.id)
    {
      var k :| 0 <= k < |users| && users[k] == u;
      assert c[k] in c;
    }
    forall u | u in c
      ensures HasUserId(users, u.id)
    {
      var k :| 0 <= k < |c| && c[k] == u;
      assert users[k] in users;
    }
  }

  /** Marking done changes `is_done` and `done_date` only. */
  lemma WithDoneKeys(tasks: seq<Task>, id: int, now: int)
    requires AscendingTaskIds(tasks)
    ensures AscendingTaskIds(WithDone(tasks, id, now))
    ensures forall t :: t in WithDone(tasks, id, now) ==>
              exists s :: s in tasks && s.id == t.id && s.userId == t.userId && (t.isDone || t == s)
  {
  }

  lemma ConsistentAfterDone(users: seq<User>, tasks: seq<Task>, nextUserId: int, nextTaskId: int,
                            id: int, now: int, userId: int, points: int)
    requires Consistent(users, tasks, nextUserId, nextTaskId)
    ensures Consistent(Credited(users, userId, points), WithDone(tasks, id, now), nextUserId, nextTaskId)
  {
    var users', tasks' := Credited(users, userId, points), WithDone(tasks, id, now);
    CreditedKeys(users, userId, points);
    WithDoneKeys(tasks, id, now);
    forall u | u in users'
      ensures 1 <= u.id < nextUserId
    {
      var k :| 0 <= k < |users'| && users'[k] == u;
      assert users[k] in users;
    }
    forall t | t in tasks'
      ensures 1 <= t.id < nextTaskId && HasUserId(users', t.userId) && (t.isDone <==> t.doneDate.Some?)
    {
      var k :| 0 <= k < |tasks'| && tasks'[k] == t;
      assert tasks[k] in tasks;
      var u :| u in users && u.id == tasks[k].userId;
    }
  }
}
