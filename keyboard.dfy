/** The task-list keyboard of `get_tasks_keyboard` (main.py:107-117): one button per task,
    labelled with the task text cut to 30 characters and an alarm-clock mark when a
    reminder is set, and a final "back" button. */
module Keyboard {
  import opened Wrappers
  import opened Text
  import opened TaskStore

  /** An `InlineKeyboardButton`: its label and its callback data. */
  datatype Button = Button(text: string, callbackData: string)

  /** The longest task text shown whole. */
  const MaxLabel: nat := 30
  /** How much of a longer text is kept before the ellipsis. */
  const KeptPrefix: nat := 27
  const Ellipsis: string := "..."
  /** `⏰ `, the mark of a task with a reminder. */
  const AlarmMark: string := "\U{23F0} "
  /** Callback data of a task button: this prefix and the task id. */
  const TaskCallback: string := "task_"
  /** The last row: `⬅️ Назад` leading back to the main menu. */
  const BackButton: Button := Button("\U{2B05}\U{FE0F} Назад", "back")

  /** `task if len(task) <= 30 else task[:27] + "..."`. */
  function ShortText(task: string): (r: string)
    ensures |r| <= MaxLabel
  {
    if |task| <= MaxLabel then task else task[..KeptPrefix] + Ellipsis
  }

  /** `f"{prefix}{short_text}"`, where the prefix is `⏰ ` when the reminder is set. */
  function Label(t: Listed): string {
    (if t.reminder.Some? then AlarmMark else []) + ShortText(t.task)
  }

  /** `f"task_{task_id}"`. */
  function TaskCallbackData(id: nat): (r: string)
    ensures HasAt(r, 0, TaskCallback)
  {
    TaskCallback + Decimal(id)
  }

  /** The id `show_task_actions` reads back from a task button's data (main.py:165-167):
      the decimal digits after `task_`; anything else is not a task button. */
  function TaskIdOf(data: string): Option<nat> {
    if |data| > |TaskCallback| && HasAt(data, 0, TaskCallback) && AllDigits(data[|TaskCallback|..])
    then Some(DigitsValue(data[|TaskCallback|..]))
    else None
  }

  function TaskButton(t: Listed): Button {
    Button(Label(t), TaskCallbackData(t.id))
  }

  /** The rows of the keyboard: one single-button row per task, in order, then the back
      row. */
  function TasksKeyboard(tasks: seq<Listed>): (rows: seq<seq<Button>>)
    ensures |rows| == |tasks| + 1
    ensures rows[|tasks|] == [BackButton]
    ensures forall i :: 0 <= i < |tasks| ==> rows[i] == [TaskButton(tasks[i])]
  {
    if tasks == [] then [[BackButton]]
    else [[TaskButton(tasks[0])]] + TasksKeyboard(tasks[1..])
  }

  /* ---------- what the labels promise ---------- */

  /** A text is shown whole exactly when it fits in 30 characters; a longer one keeps its
      first 27 characters and ends in `...`, so the shown text is 30 characters long. */
  lemma ShortTextShape(task: string)
    ensures ShortText(task) == task <==> |task| <= MaxLabel
    ensures |task| > MaxLabel ==>
              && |ShortText(task)| == MaxLabel
              && ShortText(task)[..KeptPrefix] == task[..KeptPrefix]
              && ShortText(task)[KeptPrefix..] == Ellipsis
  {
    if |task| > MaxLabel {
      assert |ShortText(task)| != |task|;
    }
  }

  /** The mark is there exactly when the reminder is set: what follows the mark, or the
      whole label without one, is the shortened text. */
  lemma LabelShape(t: Listed)
    ensures t.reminder.Some? ==> Label(t)[..|AlarmMark|] == AlarmMark && Label(t)[|AlarmMark|..] == ShortText(t.task)
    ensures t.reminder.None? ==> Label(t) == ShortText(t.task)
    ensures |Label(t)| <= |AlarmMark| + MaxLabel
  {
    if t.reminder.None? {
      assert [] + ShortText(t.task) == ShortText(t.task);
    }
  }

  /** A task button leads back to its own task: the id `show_task_actions` reads from the
      callback data is the id the button was built from. */
  lemma {:induction false} TaskCallbackRoundTrip(id: nat)
    ensures TaskIdOf(TaskCallbackData(id)) == Some(id)
  {
    var data := TaskCallbackData(id);
    assert data[|TaskCallback|..] == Decimal(id);
  }

  /** Different tasks get different callback data. */
  lemma TaskCallbackInjective(a: nat, b: nat)
    requires TaskCallbackData(a) == TaskCallbackData(b)
    ensures a == b
  {
    TaskCallbackRoundTrip(a);
    TaskCallbackRoundTrip(b);
  }

  /** The back button's data is not a task button's data. */
  lemma BackIsNoTask()
    ensures TaskIdOf(BackButton.callbackData).None?
  {
    assert !HasAt(BackButton.callbackData, 0, TaskCallback) by {
      assert BackButton.callbackData[0] != TaskCallback[0];
    }
  }
}
