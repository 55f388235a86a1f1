/** Clients of the store that run whole sessions on a fresh database, using
    nothing but the contracts of the store's methods. Times are seconds. */
module Scenarios {
  import opened Schema
  import opened Tables
  import opened Store

  /** One user registers and adds a task of priority 1 at time 0; a second
      registration with the same Telegram identity is refused. */
  method RegisteredWithTask() returns (store: TaskStore, again: bool)
    ensures fresh(store) && store.Valid()
    ensures store.users == [User(1, 7, "A", 0, 0)]
    ensures store.tasks == [Task(1, 1, "Buy milk", "errands", 1, 0, false, None)]
    ensures !again
  {
    store := new TaskStore();
    var ok := store.AddUser(7, "A", 0);
    assert store.users == [User(1, 7, "A", 0, 0)];
    again := store.AddUser(7, "B", 5);
    ok := store.AddTask(7, "Buy milk", "errands", 1, 0);
  }

  /** Ten minutes after creation the completion is refused with 20 minutes to
      go; 31 minutes after creation it succeeds, the user's score is 1 and the
      pending listing is empty, while the full listing still shows the task.
      A second registration with the same Telegram identity is refused. */
  method CompletionSession() returns (early: DoneOutcome, late: DoneOutcome, score: int,
                                      pending: seq<TaskRow>, all: seq<TaskRow>, again: bool)
    ensures early == TooSoon(20)
    ensures late == Done(1)
    ensures score == 1
    ensures pending == []
    ensures all == [TaskRow(1, "Buy milk", "errands", 1)]
    ensures !again
  {
    var store;
    store, again := RegisteredWithTask();
    var task := store.tasks[0];
    early := store.MarkTaskDone(1, 10 * 60);
    assert MinutesLeft(10 * 60) == 20;
    late := store.MarkTaskDone(1, 31 * 60);
    assert store.tasks == [Completed(task, 31 * 60)];
    assert store.users == [User(1, 7, "A", 1, 0)];
    assert UserWithTelegram(store.users, 7) == Some(User(1, 7, "A", 1, 0));
    var user := store.GetUserByTelegramId(7);
    score := user.value.score;
    assert store.tasks[..0] == [];
    assert Listing(store.tasks, 1, true) == [];
    assert Listing(store.tasks, 1, false) == [RowOf(task)];
    pending := store.GetUserTasks(7, true);
    all := store.GetUserTasks(7, false);
  }

  /** Marking the same task done twice is accepted twice and credits its
      priority twice: the store does not remember that it was already done. */
  method ReplaySession() returns (first: DoneOutcome, second: DoneOutcome, score: int)
    ensures first == Done(3) && second == Done(3)
    ensures score == 6
  {
    var store := new TaskStore();
    var ok := store.AddUser(7, "A", 0);
    ok := store.AddTask(7, "Report", "work", 3, 0);
    first := store.MarkTaskDone(1, 3600);
    second := store.MarkTaskDone(1, 3700);
    var user := store.GetUserByTelegramId(7);
    assert store.users[0] in store.users;
    score := user.value.score;
  }

  /** Deleting removes the task from every listing and costs no points, and
      the key of a deleted task is not given to the next task. */
  method DeleteSession() returns (score: int, all: seq<TaskRow>, nextId: int)
    ensures score == 0
    ensures all == [TaskRow(2, "Run", "health", 2)]
    ensures nextId == 3
  {
    var store := new TaskStore();
    var ok := store.AddUser(7, "A", 0);
    assert store.users == [User(1, 7, "A", 0, 0)];
    ok := store.AddTask(7, "Buy milk", "errands", 3, 0);
    assert store.tasks == [Task(1, 1, "Buy milk", "errands", 3, 0, false, None)];
    store.DeleteTask(1);
    assert store.tasks == [];
    store.DeleteTask(1);
    assert UserWithTelegram(store.users, 7) == Some(User(1, 7, "A", 0, 0));
    ok := store.AddTask(7, "Run", "health", 2, 10);
    var run := Task(2, 1, "Run", "health", 2, 10, false, None);
    assert store.tasks == [run];
    assert store.tasks[..0] == [];
    assert Listing(store.tasks, 1, false) == [RowOf(run)];
    var user := store.GetUserByTelegramId(7);
    assert store.users[0] in store.users;
    score := user.value.score;
    all := store.GetUserTasks(7, false);
    nextId := store.nextTaskId;
  }
}
