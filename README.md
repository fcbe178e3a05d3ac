# Reminder bot core in Dafny

A model of the logic inside `main.py`, a Telegram to-do bot with reminders. The model
covers five parts:

- **Time phrases** (`TimeParse`, over `Text`). Each of `handle_text`'s three branches
  copies the same parse. It finds `в H:MM` ("at H:MM"), optionally with `завтра`
  ("tomorrow"), or `через N минут` ("in N minutes"). From the phrase it computes a
  reminder instant, and it cuts the phrase out of the task text with `re.sub` and
  `strip()`.
  - Both regexes are ASCII-digit scanners. `re.search` and `re.sub` are a leftmost search
    and a left-to-right, non-overlapping removal over a generic matcher.
  - Time is whole seconds. `now` is a parameter, and "today" starts at `now - now % 86400`.
  - `ParseTime` is written once. `Handlers.Decide` is the one place that calls it, and
    `Handlers.SameParseEverywhere` shows that the three branches behave the same.
- **The task table** (`TaskStore`). It holds rows `(id, user_id, task, created_at,
  reminder_time)` and an `AUTOINCREMENT` counter. `TaskTable` is a class whose methods
  are `add_task`, `delete_task` and `edit_task`. `get_tasks` filters by owner and sorts by
  `created_at`.
- **The conversation state** (`Handlers.Bot`). `user_states` is a map field. `cmd_start`,
  `add_task_prompt`, `start_edit` and `handle_text` change it. The callbacks `done_N`,
  `confirm_delete_N` and `task_N` act on the same table.
- **One reminder pass** (`Reminders.Sweep`). The body of `check_reminders` selects the due
  rows and tries to send each one. A row is deleted only when its send went out. Whether a
  send succeeds is chosen nondeterministically.
- **The task-list keyboard** (`Keyboard`). This is `get_tasks_keyboard`: one button per
  task, with a shortened label, an alarm mark when a reminder is set, and `task_N`
  callback data.

The tomorrow test is `"завтра" in text`. It is a substring test, not a word test.
`TimeParse.BreakfastPutOff` shows what follows: "позавтракать в 9:00" ("have breakfast at
9:00") is always due tomorrow, because the word "позавтракать" contains "завтра". The model
keeps this behaviour as the code has it.

Where the code and its description differ, the model follows the code:

- `re.sub` removes every clock (or minutes) phrase in the text, not just the first one.
  The hour and minute still come from the leftmost match.
- A failed send leaves the row in the table for the next pass.
- `delete_task` and `edit_task` never check the owner.

## Model

| member | source | states |
|---|---|---|
| Text.Strip | main.py:248 | `strip()` returns the part of the message after its leading whitespace; the result has no whitespace at either end, and only whitespace follows it in the message |
| Text.StripUnique | main.py:248 | a core with no outer whitespace, padded with whitespace on both sides, strips back to exactly that core |
| Text.StripIdempotent | main.py:271 | stripping text that is already stripped (as the parse does after `re.sub`) changes nothing |
| Text.ContainsIff | main.py:259 | `w in s` holds exactly when `w` appears at some position of `s` |
| Text.Decimal | main.py:114 | `str(n)` gives decimal digits with no leading zero, and reading them back gives `n` |
| TimeParse.DigitRunAt | main.py:258 | a greedy `\d` run: all digits, and the first character after it is not a digit |
| TimeParse.DigitRunUnique | main.py:258 | a digit run that ends at a non-digit is exactly the greedy run |
| TimeParse.ClockLenAt | main.py:258 | the length of a `в \d{1,2}:\d{2}` match at a position is 0, 6 or 7 and stays inside the text |
| TimeParse.ClockLenIsPhrase | main.py:258 | the scanner reports a match of length n exactly when the text holds `в `, one or two digits, `:` and two digits there |
| TimeParse.MinutesLenAt | main.py:260 | the length of a `через \d+ минут` match is 0 or more than 12, inside the text |
| TimeParse.MinutesLenIsPhrase | main.py:260 | the scanner reports a match of length n exactly when the text holds `через `, a digit run and ` минут` there |
| TimeParse.MatchAt | main.py:271 | a match of any of the three patterns, including the clock with an optional ` завтра`, is empty or lies inside the text |
| TimeParse.Search | main.py:258 | `re.search` reports a match position, and no position before it matches (or none matches at all) |
| TimeParse.SearchFinds | main.py:260 | the first matching position is the one `re.search` reports |
| TimeParse.RemoveNoLonger | main.py:276 | `re.sub` with an empty replacement never makes the text longer |
| TimeParse.RemoveLeftmost | main.py:271 | `re.sub` keeps the text before the leftmost match, drops the match and continues after it |
| TimeParse.RemoveShrinks | main.py:271 | when the pattern matches, `re.sub` makes the text strictly shorter |
| TimeParse.RemoveUnchangedIff | main.py:276 | `re.sub` leaves the text unchanged exactly when the pattern matches nowhere |
| TimeParse.SameSearchWithQualifier | main.py:271 | adding the optional ` завтра` to the clock pattern does not change where it first matches |
| TimeParse.ClockBranch | main.py:262-271 | the clock branch raises only for an hour above 23 or a minute above 59; otherwise it sets a reminder, shortens the text and leaves it stripped |
| TimeParse.MinutesBranch | main.py:273-276 | the minutes branch always sets a reminder, shortens the text and leaves it stripped |
| TimeParse.ParseTime | main.py:257-276 | no reminder exactly when neither pattern matches, and then the text is unchanged; with a reminder the text is shorter; it raises only for an hour above 23 or a minute above 59; stripped input stays stripped |
| TimeParse.NoClockMatchBefore | main.py:258 | with no clock phrase before a position, the clock pattern matches nowhere before it |
| TimeParse.NoMinutesMatchBefore | main.py:260 | with no minutes phrase before a position, the minutes pattern matches nowhere before it |
| TimeParse.ClockFoundAt | main.py:258 | the leftmost clock phrase is what `re.search` reports, with its length |
| TimeParse.MinutesFoundAt | main.py:260 | the leftmost minutes phrase is what `re.search` reports, with its length |
| TimeParse.NoClockFound | main.py:258 | with no clock phrase in the text, the clock search finds nothing |
| TimeParse.NoMinutesFound | main.py:260 | with no minutes phrase in the text, the minutes search finds nothing |
| TimeParse.ClockReminder | main.py:262-270 | the hour and minute come from the leftmost clock phrase. With `завтра` anywhere in the text, the reminder is tomorrow at H:MM:00. Without it, the reminder is H:MM:00 today or tomorrow, is never before `now`, and is less than a day after it. This holds whether or not a minutes phrase is present |
| TimeParse.ClockRaises | main.py:263-265 | an hour above 23 or a minute above 59 in the leftmost phrase makes `now.replace` raise, reporting those values |
| TimeParse.ClockPhraseCut | main.py:271 | the stored text is the text before the leftmost clock phrase, then the rest with every later clock phrase removed, then stripped. The phrase is removed together with a ` завтра` directly after it, but `Завтра` and a `завтра` elsewhere stay |
| TimeParse.ClockRemoved | main.py:271 | `re.sub` of the clock pattern cuts the leftmost phrase, and its directly following ` завтра`, out of the text |
| TimeParse.MinutesReminder | main.py:273-276 | with no clock phrase, a minutes phrase gives a reminder exactly N*60 seconds after `now`, and every minutes phrase is cut out |
| TimeParse.MinutesRemoved | main.py:276 | `re.sub` of the minutes pattern cuts the leftmost phrase and continues after it |
| TimeParse.NoPhraseNoReminder | main.py:257-260 | with neither phrase there is no reminder and the text comes back unchanged |
| TimeParse.TomorrowInsideWord | main.py:259 | the tomorrow test also fires on `завтра` inside another word |
| TimeParse.BreakfastPutOff | main.py:262-270 | "позавтракать в 9:00" is due tomorrow at 9:00, whatever the time of sending |
| TaskStore.OwnedBy | main.py:51 | `WHERE user_id = ?` keeps exactly the user's rows, each as many times as it occurs |
| TaskStore.InsertByCreated | main.py:51 | insertion adds exactly one row |
| TaskStore.InsertKeepsSorted | main.py:51 | inserting into a list sorted by `created_at` keeps it sorted |
| TaskStore.SortByCreated | main.py:51 | `ORDER BY created_at` returns a permutation of its input, sorted by creation time |
| TaskStore.Project | main.py:51 | `SELECT id, task, reminder_time` keeps those three columns of each row, in order |
| TaskStore.ProjectMembers | main.py:51 | the selected tuples are exactly the columns of the selected rows |
| TaskStore.ListingExact | main.py:48-54 | `get_tasks(u)` is sorted by creation time and holds every row of `u` exactly once, and no other row |
| TaskStore.ListingMembers | main.py:51 | a row is listed for `u` exactly when it is in the table and belongs to `u` |
| TaskStore.WithoutId | main.py:58 | `DELETE ... WHERE id = ?` keeps exactly the rows with another id, and never adds a row |
| TaskStore.Edited | main.py:64-67 | `UPDATE ... WHERE id = ?` replaces both the text and the reminder of rows with that id (a missing reminder becomes NULL) and leaves every other row as it was |
| TaskStore.DeleteIdempotent | main.py:56-60 | deleting the same id twice is deleting it once |
| TaskStore.WithoutIdUnique | main.py:58 | a deletion keeps ids unique |
| TaskStore.DeleteAbsent | main.py:56-60 | deleting an id that no row has leaves the table exactly as it was |
| TaskStore.EditAbsent | main.py:62-69 | editing an id that no row has changes nothing |
| TaskStore.DeleteIgnoresOwner | main.py:58 | the deletion names no owner: the table loses a row exactly when some row, whoever owns it, has that id |
| TaskStore.TaskTable.constructor | main.py:26-37 | a fresh table is empty and its counter starts at 1 |
| TaskStore.TaskTable.GetTasks | main.py:48-54 | `get_tasks(u)` returns one tuple per row of `u`, and a tuple is listed exactly when it is the `(id, task, reminder_time)` of a row that `u` owns; the tuples are those of `Listing`, so `ListingExact` orders them by `created_at` |
| TaskStore.TaskTable.AddTask | main.py:40-46 | `add_task` appends exactly one row under the next id and advances the counter; ids stay unique and below the counter |
| TaskStore.TaskTable.DeleteTask | main.py:56-60 | `delete_task` removes the rows with that id, keeps the rest in order and always returns True |
| TaskStore.TaskTable.EditTask | main.py:62-69 | `edit_task` replaces the text and the reminder of the row with that id and always returns True |
| Reminders.DueRows | main.py:77-81 | the `SELECT` returns exactly the rows whose reminder is set and not after `now` |
| Reminders.DueRowsUnique | main.py:78 | the selected rows have unique ids |
| Reminders.WithoutIds | main.py:95 | the table after the pass keeps exactly the rows whose id was not deleted |
| Reminders.WithoutIdsStep | main.py:95 | one more `DELETE` after a batch of deletions is the larger batch |
| Reminders.DeliveredStep | main.py:82-96 | each successful send adds its id to the ids to be deleted |
| Reminders.Sweep | main.py:82-98 | the pass deletes exactly the due rows whose send went out, and nothing else in the table changes |
| Reminders.UndueKept | main.py:78-98 | a row that is not due, or has no reminder, survives the pass |
| Reminders.FailedKept | main.py:84-98 | a due row whose send raised stays in the table for the next pass |
| Reminders.SentDeleted | main.py:86-96 | a due row whose send went out is gone |
| Reminders.AllSentNoneDue | main.py:82-96 | when every send succeeds, no due reminder is left in the table |
| Keyboard.ShortText | main.py:111 | the shown text is never longer than 30 characters |
| Keyboard.ShortTextShape | main.py:111 | the text is shown whole exactly when it is at most 30 characters long; otherwise the label keeps its first 27 characters, then `...` |
| Keyboard.LabelShape | main.py:110-113 | with a reminder the label is `⏰ ` followed by the shortened text; without one it is the shortened text alone; either way it has at most 32 characters |
| Keyboard.TaskCallbackData | main.py:114 | task button data starts with `task_` |
| Keyboard.TaskCallbackRoundTrip | main.py:114 | the id that `show_task_actions` reads back from a task button is the id the button was built from |
| Keyboard.TaskCallbackInjective | main.py:114 | different tasks get different callback data |
| Keyboard.TasksKeyboard | main.py:107-117 | one single-button row per task, in order, then one final back row |
| Keyboard.BackIsNoTask | main.py:116 | the back button's data is not a task button's data |
| Handlers.Decide | main.py:246-375 | the effect is the time parse of the stripped message: it is rejected exactly when the parse raises for a bad clock (hour above 23 or minute above 59), reporting the parsed hour and minute, writes nothing exactly when the parsed text is empty, and otherwise writes the parsed text and reminder. Anything written is non-empty and stripped. It updates only in edit mode, and only the task being edited |
| Handlers.SameParseEverywhere | main.py:257-357 | in add mode a message does what it does when idle; in edit mode the same, except that the add becomes an update of the edited task |
| Handlers.BlankRejected | main.py:278-281 | a message of whitespace alone writes nothing, in any mode |
| Handlers.PlainMessageAdded | main.py:338-363 | a message with no time phrase is stored stripped and without a reminder |
| Handlers.FindTask | main.py:169 | the lookup returns the first listed task with that id, as `next(...)` does, or reports that none has it |
| Handlers.FindOwnTask | main.py:166-172 | `show_task_actions` finds a task exactly when the user owns a row with that id, and returns that row's columns |
| Handlers.Bot.ShowTaskActions | main.py:166-172 | a `task_N` button finds a task exactly when the user owns a row with id N, and what it shows is that row's id, text and reminder |
| Handlers.Bot.constructor | main.py:17 | the bot starts with no user in any mode |
| Handlers.Bot.CmdStart | main.py:130 | `/start` removes the user's mode, leaves every other entry alone and does not touch the table |
| Handlers.Bot.AddTaskPrompt | main.py:208 | the add button puts the user in add mode, leaves every other entry alone and does not touch the table |
| Handlers.Bot.StartEdit | main.py:223 | `edit_N` puts the user in edit mode for task N, leaves every other entry alone and does not touch the table |
| Handlers.Bot.CompleteTask | main.py:229-242 | `done_N` deletes task N whoever owns it, and always reports success, so the "already deleted" reply cannot happen |
| Handlers.Bot.DoDelete | main.py:196-203 | `confirm_delete_N` deletes task N whoever owns it |
| Handlers.Bot.HandleText | main.py:246-375 | A rejected clock changes neither the mode map nor the table. Otherwise only the sender's entry is removed, which does nothing for an idle user, and the table gets exactly the one add or update, or nothing for an empty text. No stored task is ever empty |
| Handlers.Bot.CheckReminders | main.py:75-98 | a reminder pass over the bot's table deletes exactly the delivered due rows and keeps every stored text clean |

These members model an expression of the source but carry no contract of their own;
lemmas say what they mean:

- `TimeParse.Remove` is `re.sub` with an empty replacement (main.py:271, 276). Its lemmas
  are `RemoveNoLonger`, `RemoveLeftmost`, `RemoveShrinks`, `RemoveUnchangedIff`,
  `ClockRemoved` and `MinutesRemoved`.
- `Text.Contains` is the substring test `"завтра" in text` (main.py:259). Its lemmas are
  `ContainsIff` and `TomorrowInsideWord`.
- `TaskStore.Listing` is the row selection of `get_tasks` (main.py:51). Its lemmas are
  `ListingExact` and `ListingMembers`, and `TaskTable.GetTasks` states it is what
  `get_tasks` projects.
- `Keyboard.Label` is a task button's label (main.py:110-113). Its lemma is `LabelShape`.
- `Keyboard.TaskIdOf` reads a task id back from callback data (main.py:165-167). Its
  lemmas are `TaskCallbackRoundTrip` and `BackIsNoTask`.

## Left out

- Telegram transport is not modelled. That covers `Bot`, `Dispatcher`, `message.answer`
  and `reply`, `edit_text`, `callback.answer` and handler registration. A send is only a
  success or a failure.
- Reply texts, Markdown and `strftime` formatting are not modelled. They are presentation
  only.
- The static menus `get_main_menu_button`, `get_main_menu_inline` and `get_task_actions`
  are not modelled. So are the screens of `go_back`, `show_tasks` and `confirm_delete`,
  which only draw menus.
- sqlite connections, commits and files are not modelled. The table is an in-memory
  sequence of rows, kept in insertion order.
- `datetime.now()` is not modelled; it is the `now` parameter.
  - `CURRENT_TIMESTAMP` is the `stamp` parameter of an insertion.
  - Time is naive local time in whole seconds, so there are no time zones and no DST.
  - Stored timestamps are compared as numbers. sqlite compares the text it stores, which
    agrees with numeric order only while the formats line up.
- TimeParse.MinutesBranch: `datetime.now()` has microseconds, which the model has no unit
  for. The minutes reminder keeps `now`'s sub-minute part, as the code does, but only to
  the second.
- TimeParse.ClockBranch: `reminder < now` (main.py:268) compares H:MM:00 with a `now`
  that has microseconds. "в 9:00" sent at 09:00:00.4 is due tomorrow in Python, because
  09:00:00 is before 09:00:00.4. The model's `now` is 09:00:00, so the reminder is today,
  at `now` itself. The model gives "tomorrow" only when `now` is at least one whole second
  past H:MM:00.
- TimeParse.ParseTime: Python's `datetime` cannot go past year 9999, and a huge `N` in
  `через N минут` raises `OverflowError` there. The model's integers are unbounded, so it
  never raises for that.
- The `asyncio` loop, `sleep(60)`, `create_task` and `main()` are not modelled. They are
  scheduling and concurrency. One pass of `check_reminders` is the model, and handlers run
  one at a time.
- `\d` matches only ASCII `0`-`9` in the model. Python's `\d` also matches other Unicode
  decimal digits.
- `int()` parsing of callback data is left out. `split("_")[1]` is parsed only in the
  shape this bot produces (`task_` followed by decimal digits), and ids reach the handlers
  as natural numbers. The model does not cover Python's extra `int()` syntax (signs,
  spaces, underscores) or the crash on foreign data.
- TaskStore.SortByCreated: sqlite may return rows with equal `created_at` in any order.
  The model picks table order. Sortedness and the exact multiset are all that is stated.
- Exceptions from sqlite itself are not modelled. That covers a failed connection, and a
  failed `DELETE` after a successful send, which the code also logs as a send error.
