/** The handlers of main.py that touch state: the per-user conversation mode kept in
    `user_states` (main.py:17) and changed by `cmd_start`, `add_task_prompt`, `start_edit`
    and `handle_text`; the callbacks that delete a task; the lookup of
    `show_task_actions`; and the reminder pass, all over one task table. */
module Handlers {
  import opened Wrappers
  import opened Text
  import opened TimeParse
  import opened TaskStore
  import opened Reminders

  /** The value of `user_states[user_id]`; a user without an entry is idle. */
  datatype Mode = AwaitingNewTask | Editing(taskId: nat)

  /** What one text message does to the store: `handle_text`'s three branches, reduced to
      the write they make or the reason they make none. */
  datatype Effect =
    | ClockRejected(hour: nat, minute: nat)  // `now.replace` raised: the handler stops
    | EmptyRejected                          // nothing left after the parse
    | Add(task: string, reminder: Option<int>)
    | Update(taskId: nat, task: string, reminder: Option<int>)

  /** `handle_text` (main.py:246-375) as a decision: strip the message, run the one time
      parse that each of the three branches copies, refuse an empty result, and write to
      the task being edited in edit mode, or add a task otherwise. */
  function Decide(mode: Option<Mode>, message: string, now: int): (e: Effect)
    ensures e.ClockRejected? <==> ParseTime(Strip(message), now).ClockOutOfRange?
    ensures e.ClockRejected? ==> e.hour > 23 || e.minute > 59
    ensures e.ClockRejected? ==> ParseTime(Strip(message), now) == ClockOutOfRange(e.hour, e.minute)
    ensures e.EmptyRejected? <==> ParseTime(Strip(message), now).Parsed? && ParseTime(Strip(message), now).text == []
    ensures e.Add? || e.Update? ==> ParseTime(Strip(message), now) == Parsed(e.task, e.reminder)
    ensures e.Add? ==> e.task != [] && NoOuterSpace(e.task)
    ensures e.Update? ==> e.task != [] && NoOuterSpace(e.task) && mode == Some(Editing(e.taskId))
  {
    match ParseTime(Strip(message), now)
    case ClockOutOfRange(h, m) => ClockRejected(h, m)
    case Parsed(text, reminder) =>
      if text == [] then EmptyRejected
      else if mode.Some? && mode.value.Editing? then Update(mode.value.taskId, text, reminder)
      else Add(text, reminder)
  }

  /** The three copies of the parse (main.py:257-276, 294-313, 338-357) behave alike: a
      message in add mode does what it does when idle, and in edit mode it does the same
      except that the add becomes an update of the task being edited. */
  lemma SameParseEverywhere(message: string, now: int, id: nat)
    ensures Decide(Some(AwaitingNewTask), message, now) == Decide(None, message, now)
    ensures Decide(Some(Editing(id)), message, now)
            == match Decide(None, message, now)
               case Add(task, reminder) => Update(id, task, reminder)
               case other => other
  {
  }

  /** A blank message writes nothing, whatever the mode. */
  lemma BlankRejected(mode: Option<Mode>, message: string, now: int)
    requires AllSpace(message)
    ensures Decide(mode, message, now) == EmptyRejected
  {
    StripUnique(message, [], []);
    assert message + [] + [] == message;
    NoPhraseNoReminder([], now);
  }

  /** A message with neither a clock nor a minutes phrase is stored as it was typed,
      without its outer whitespace and without a reminder. */
  lemma PlainMessageAdded(mode: Option<Mode>, message: string, now: int)
    requires Strip(message) != []
    requires NoClockBefore(Strip(message), |Strip(message)|)
    requires NoMinutesBefore(Strip(message), |Strip(message)|)
    ensures Decide(mode, message, now)
            == if mode.Some? && mode.value.Editing? then Update(mode.value.taskId, Strip(message), None)
               else Add(Strip(message), None)
  {
    NoPhraseNoReminder(Strip(message), now);
  }

  /** `next((t for t in tasks if t[0] == task_id), None)` (main.py:169): the first listed
      task with that id. */
  function FindTask(tasks: seq<Listed>, id: nat): (r: Option<Listed>)
    ensures r.Some? ==> r.value in tasks && r.value.id == id
    ensures r.Some? ==> exists i :: 0 <= i < |tasks| && tasks[i] == r.value
                                    && forall j :: 0 <= j < i ==> tasks[j].id != id
    ensures r.None? <==> forall t :: t in tasks ==> t.id != id
  {
    if tasks == [] then None
    else if tasks[0].id == id then Some(tasks[0])
    else FindTask(tasks[1..], id)
  }

  /** Only `show_task_actions` looks at the owner: it finds a task exactly when the user
      owns a row with that id, and what it finds is that row's columns. */
  lemma FindOwnTask(rows: seq<Row>, u: int, id: nat)
    ensures FindTask(Project(Listing(rows, u)), id).Some?
            <==> exists x :: x in rows && x.id == id && x.userId == u
    ensures var r := FindTask(Project(Listing(rows, u)), id);
            r.Some? ==> exists x :: x in rows && x.userId == u && Columns(x) == r.value
  {
    ListingMembers(rows, u);
    ProjectMembers(Listing(rows, u));
  }

  /** No stored task is empty or has outer whitespace: the handlers only write text that
      survived `strip()` and the emptiness test. */
  predicate StoredTextsClean(rows: seq<Row>) {
    forall x :: x in rows ==> x.task != [] && NoOuterSpace(x.task)
  }

  /** Appending a row with clean text, or rewriting a row's text with clean text, keeps
      the table clean. */
  lemma CleanAppended(rows: seq<Row>, x: Row)
    requires StoredTextsClean(rows) && x.task != [] && NoOuterSpace(x.task)
    ensures StoredTextsClean(rows + [x])
  {
  }

  lemma CleanEdited(rows: seq<Row>, id: nat, task: string, reminder: Option<int>)
    requires StoredTextsClean(rows) && task != [] && NoOuterSpace(task)
    ensures StoredTextsClean(Edited(rows, id, task, reminder))
  {
    var r := Edited(rows, id, task, reminder);
    forall x | x in r ensures x.task != [] && NoOuterSpace(x.task) {
      var i :| 0 <= i < |r| && r[i] == x;
      assert rows[i] in rows;
    }
  }

  /** The bot's state: the mode map and the task table it writes to. */
  class Bot {
    var userStates: map<int, Mode>
    const db: TaskTable

    predicate Valid()
      reads this, db
    {
      db.Valid() && StoredTextsClean(db.rows)
    }

    /** Start-up: no user has a mode yet. */
    constructor(store: TaskTable)
      requires store.Valid() && StoredTextsClean(store.rows)
      ensures db == store && userStates == map[] && Valid()
    {
      db := store;
      userStates := map[];
    }

    /** `/start` (main.py:130): the user's mode is dropped. */
    method CmdStart(userId: int)
      requires Valid()
      modifies this
      ensures Valid()
      ensures userStates == old(userStates) - {userId}
    {
      userStates := userStates - {userId};
    }

    /** The "add task" button (main.py:208): the next text is a new task. */
    method AddTaskPrompt(userId: int)
      requires Valid()
      modifies this
      ensures Valid()
      ensures userStates == old(userStates)[userId := AwaitingNewTask]
    {
      userStates := userStates[userId := AwaitingNewTask];
    }

    /** An `edit_N` button (main.py:223): the next text replaces task N. */
    method StartEdit(userId: int, taskId: nat)
      requires Valid()
      modifies this
      ensures Valid()
      ensures userStates == old(userStates)[userId := Editing(taskId)]
    {
      userStates := userStates[userId := Editing(taskId)];
    }

    /** A `done_N` button (main.py:229-242): task N is deleted, whoever owns it, and the
        deletion always reports success, so the "already deleted" reply never shows. */
    method CompleteTask(taskId: nat) returns (success: bool)
      requires Valid()
      modifies db
      ensures Valid() && success
      ensures db.rows == WithoutId(old(db.rows), taskId) && db.nextId == old(db.nextId)
    {
      success := db.DeleteTask(taskId);
    }

    /** A `confirm_delete_N` button (main.py:197-198): task N is deleted. */
    method DoDelete(taskId: nat)
      requires Valid()
      modifies db
      ensures Valid()
      ensures db.rows == WithoutId(old(db.rows), taskId) && db.nextId == old(db.nextId)
    {
      var _ := db.DeleteTask(taskId);
    }

    /** A `task_N` button (main.py:167-172): task N among the user's own tasks, if any. */
    function ShowTaskActions(userId: int, taskId: nat): (r: Option<Listed>)
      reads db
      ensures r.Some? <==> exists x :: x in db.rows && x.id == taskId && x.userId == userId
      ensures r.Some? ==> r.value.id == taskId
                          && exists x :: x in db.rows && x.userId == userId && Columns(x) == r.value
    {
      FindOwnTask(db.rows, userId, taskId);
      FindTask(db.GetTasks(userId), taskId)
    }

    /** A text message (main.py:246-375). The effect is `Decide` on the user's mode. A
        rejected clock raises before anything is written or cleared; otherwise the user's
        mode is dropped (a no-op when idle), and the table gets the add or the update. */
    method HandleText(userId: int, message: string, now: int, stamp: int) returns (e: Effect)
      requires Valid()
      modifies this, db
      ensures Valid()
      ensures e == Decide(if userId in old(userStates) then Some(old(userStates)[userId]) else None, message, now)
      ensures e.ClockRejected? ==> userStates == old(userStates)
      ensures !e.ClockRejected? ==> userStates == old(userStates) - {userId}
      ensures e.Add? ==> db.rows == old(db.rows) + [Row(old(db.nextId), userId, e.task, stamp, e.reminder)]
                         && db.nextId == old(db.nextId) + 1
      ensures e.Update? ==> db.rows == Edited(old(db.rows), e.taskId, e.task, e.reminder)
                            && db.nextId == old(db.nextId)
      ensures e.ClockRejected? || e.EmptyRejected? ==> db.rows == old(db.rows) && db.nextId == old(db.nextId)
    {
      var mode := if userId in userStates then Some(userStates[userId]) else None;
      e := Decide(mode, message, now);
      match e {
        case ClockRejected(_, _) =>
        case EmptyRejected =>
          userStates := userStates - {userId};
        case Add(task, reminder) =>
          CleanAppended(db.rows, Row(db.nextId, userId, task, stamp, reminder));
          db.AddTask(userId, task, reminder, stamp);
          userStates := userStates - {userId};
        case Update(taskId, task, reminder) =>
          CleanEdited(db.rows, taskId, task, reminder);
          var _ := db.EditTask(taskId, task, reminder);
          userStates := userStates - {userId};
      }
    }

    /** One pass of `check_reminders` over the bot's table. */
    method CheckReminders(now: int) returns (due: seq<Row>, sent: seq<bool>)
      requires Valid()
      modifies db
      ensures Valid() && db.nextId == old(db.nextId)
      ensures due == DueRows(old(db.rows), now) && |sent| == |due|
      ensures db.rows == WithoutIds(old(db.rows), Delivered(due, sent))
    {
      due, sent := Sweep(db, now);
    }
  }
}
