/** The ledger's store: the `users` and `tasks` tables and their AUTOINCREMENT
    counters, with one method per database operation. Each mutating method
    changes the tables in place and states the new tables in terms of the
    functions of module Tables; the two reading methods state their result. */
module Store {
  import opened Schema
  import opened Tables

  class TaskStore {
    var users: seq<User>
    var tasks: seq<Task>
    /** The next AUTOINCREMENT keys; keys are never reused, even after a delete. */
    var nextUserId: int
    var nextTaskId: int

    ghost predicate Valid()
      reads this
    {
      Consistent(users, tasks, nextUserId, nextTaskId)
    }

    /** A freshly initialised database: both tables empty. */
    constructor ()
      ensures Valid()
      ensures users == [] && tasks == []
      ensures nextUserId == 1 && nextTaskId == 1
    {
      users, tasks := [], [];
      nextUserId, nextTaskId := 1, 1;
    }

    /** get_user_by_telegram_id: the user row with that Telegram identity. */
    method GetUserByTelegramId(telegramId: int) returns (user: Option<User>)
      requires Valid()
      ensures user == UserWithTelegram(users, telegramId)
      ensures user.None? <==> forall u :: u in users ==> u.telegramId != telegramId
      ensures forall u :: u in users && u.telegramId == telegramId ==> user == Some(u)
    {
      user := UserWithTelegram(users, telegramId);
      forall u | u in users && u.telegramId == telegramId
        ensures user == Some(u)
      {
        UserWithTelegramUnique(users, u);
      }
    }

    /** add_user: INSERT with the defaults score = 0 and join_date = now. A
        Telegram identity already present violates the UNIQUE constraint; the
        INSERT is then refused (`ok` is false) and nothing changes. */
    method AddUser(telegramId: int, fullName: string, now: int) returns (ok: bool)
      requires Valid()
      modifies this`users, this`nextUserId
      ensures Valid()
      ensures ok <==> UserWithTelegram(old(users), telegramId).None?
      ensures ok ==> users == old(users) + [User(old(nextUserId), telegramId, fullName, 0, now)]
                     && nextUserId == old(nextUserId) + 1
      ensures !ok ==> users == old(users) && nextUserId == old(nextUserId)
    {
      ok := UserWithTelegram(users, telegramId).None?;
      if ok {
        ConsistentAfterAddUser(users, tasks, nextUserId, nextTaskId, telegramId, fullName, now);
        users := users + [User(nextUserId, telegramId, fullName, 0, now)];
        nextUserId := nextUserId + 1;
      }
    }

    /** add_task: refuses an unknown owner; otherwise INSERTs a pending task
        owned by that user's internal id, created now. The priority is stored
        as given, without a range check. The new task's row ends both of the
        owner's listings. */
    method AddTask(telegramId: int, title: string, category: string, priority: int, now: int)
      returns (ok: bool)
      requires Valid()
      modifies this`tasks, this`nextTaskId
      ensures Valid()
      ensures ok <==> UserWithTelegram(users, telegramId).Some?
      ensures ok ==> tasks == old(tasks) + [Task(old(nextTaskId), UserWithTelegram(users, telegramId).value.id,
                                                title, category, priority, now, false, None)]
                     && nextTaskId == old(nextTaskId) + 1
      ensures !ok ==> tasks == old(tasks) && nextTaskId == old(nextTaskId)
      ensures forall t :: t in old(tasks) ==> t.id < old(nextTaskId)
      ensures ok ==> forall onlyPending: bool ::
                UserTasks(users, tasks, telegramId, onlyPending)
                == UserTasks(users, old(tasks), telegramId, onlyPending) + [RowOf(tasks[|tasks| - 1])]
    {
      var owner := UserWithTelegram(users, telegramId);
      if owner.None? {
        return false;
      }
      ConsistentAfterAddTask(users, tasks, nextUserId, nextTaskId, owner.value, title, category, priority, now);
      tasks := tasks + [Task(nextTaskId, owner.value.id, title, category, priority, now, false, None)];
      nextTaskId := nextTaskId + 1;
      ok := true;
      forall onlyPending: bool
        ensures UserTasks(users, tasks, telegramId, onlyPending)
                == UserTasks(users, old(tasks), telegramId, onlyPending) + [RowOf(tasks[|tasks| - 1])]
      {
        ListingAppend(old(tasks), tasks[|tasks| - 1], owner.value.id, onlyPending);
      }
    }

    /** get_user_tasks: the rows of the user's tasks (only the pending ones when
        `onlyPending`), built by one scan of the tasks table; nothing for an
        unknown Telegram identity. */
    method GetUserTasks(telegramId: int, onlyPending: bool := true) returns (rows: seq<TaskRow>)
      requires Valid()
      ensures rows == UserTasks(users, tasks, telegramId, onlyPending)
      ensures UserWithTelegram(users, telegramId).None? ==> rows == []
      ensures forall u, row :: u in users && u.telegramId == telegramId ==>
                (row in rows <==> exists t :: t in tasks && Listed(t, u.id, onlyPending) && RowOf(t) == row)
      ensures AscendingRowIds(rows)
    {
      var owner := UserWithTelegram(users, telegramId);
      if owner.None? {
        return [];
      }
      var userId := owner.value.id;
      rows := [];
      var i := 0;
      while i < |tasks|
        invariant 0 <= i <= |tasks|
        invariant rows == Listing(tasks[..i], userId, onlyPending)
      {
        var t := tasks[i];
        assert tasks[..i + 1][..i] == tasks[..i];
        if Listed(t, userId, onlyPending) {
          rows := rows + [RowOf(t)];
        }
        i := i + 1;
      }
      assert tasks[..i] == tasks;
      ListingAscending(tasks, userId, onlyPending);
      forall u, row | u in users && u.telegramId == telegramId
        ensures row in rows <==> exists t :: t in tasks && Listed(t, u.id, onlyPending) && RowOf(t) == row
      {
        UserWithTelegramUnique(users, u);
        ListingMembers(tasks, userId, onlyPending, row);
      }
    }

    /** delete_task: DELETE by id, with no owner check and no change to any
        score; an absent id deletes nothing. */
    method DeleteTask(taskId: int)
      requires Valid()
      modifies this`tasks
      ensures Valid()
      ensures tasks == WithoutTask(old(tasks), taskId)
      ensures forall t :: t in tasks <==> t in old(tasks) && t.id != taskId
      ensures |tasks| == |old(tasks)| - (if TaskWithId(old(tasks), taskId).Some? then 1 else 0)
      ensures TaskWithId(old(tasks), taskId).None? ==> tasks == old(tasks)
    {
      ConsistentAfterDelete(users, tasks, nextUserId, nextTaskId, taskId);
      WithoutTaskLength(tasks, taskId);
      if TaskWithId(tasks, taskId).None? {
        WithoutAbsentTask(tasks, taskId);
      }
      tasks := WithoutTask(tasks, taskId);
    }

    /** mark_task_done: an absent id is NotFound; a task younger than 30
        minutes is TooSoon with the whole minutes still to wait; otherwise the
        task is marked done now and its priority is added to its owner's score.
        Whether the task was already done is not looked at. */
    method MarkTaskDone(taskId: int, now: int) returns (outcome: DoneOutcome)
      requires Valid()
      modifies this`users, this`tasks
      ensures Valid()
      ensures TaskWithId(old(tasks), taskId).None? ==>
                outcome == NotFound && users == old(users) && tasks == old(tasks)
      ensures TaskWithId(old(tasks), taskId).Some? ==>
                var t := TaskWithId(old(tasks), taskId).value;
                if now - t.createdAt < CompletionDelay then
                  outcome == TooSoon(MinutesLeft(now - t.createdAt)) && users == old(users) && tasks == old(tasks)
                else
                  outcome == Done(t.priority)
                  && tasks == WithDone(old(tasks), taskId, now)
                  && users == Credited(old(users), t.userId, t.priority)
      ensures (Succeeded(outcome))
        <==> (TaskWithId(old(tasks), taskId).Some?
              && now - TaskWithId(old(tasks), taskId).value.createdAt >= CompletionDelay)
      ensures outcome.Done? ==>
                var t := TaskWithId(old(tasks), taskId).value;
                && HasUserId(old(users), t.userId)
                && forall u :: u in old(users) ==>
                     UserWithTelegram(users, u.telegramId) == Some(CreditedUser(u, t.userId, t.priority))
    {
      var found := TaskWithId(tasks, taskId);
      if found.None? {
        return NotFound;
      }
      var t := found.value;
      var elapsed := now - t.createdAt;
      if elapsed < CompletionDelay {
        return TooSoon(MinutesLeft(elapsed));
      }
      ConsistentAfterDone(users, tasks, nextUserId, nextTaskId, taskId, now, t.userId, t.priority);
      assert HasUserId(users, t.userId);
      CreditedUsers(users, t.userId, t.priority);
      tasks := WithDone(tasks, taskId, now);
      users := Credited(users, t.userId, t.priority);
      outcome := Done(t.priority);
    }
  }
}
