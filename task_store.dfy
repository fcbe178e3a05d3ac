/** The `tasks` table and the four functions that touch it (main.py:40-69):
    `add_task`, `get_tasks`, `delete_task` and `edit_task`. The sqlite file is an
    in-memory sequence of rows in insertion order; `AUTOINCREMENT` is a counter that only
    grows; `CURRENT_TIMESTAMP` is a parameter of the insertion. */
module TaskStore {
  import opened Wrappers

  /** One row of `tasks (id, user_id, task, created_at, reminder_time)`. */
  datatype Row = Row(id: nat, userId: int, task: string, createdAt: int, reminder: Option<int>)

  /** One tuple of `SELECT id, task, reminder_time`: what `get_tasks` hands back. */
  datatype Listed = Listed(id: nat, task: string, reminder: Option<int>)

  function Columns(x: Row): Listed {
    Listed(x.id, x.task, x.reminder)
  }

  /** No two rows share an id: what `INTEGER PRIMARY KEY` guarantees. */
  predicate UniqueIds(rows: seq<Row>) {
    forall i, j :: 0 <= i < j < |rows| ==> rows[i].id != rows[j].id
  }

  /* ---------- WHERE user_id = ? ORDER BY created_at ---------- */

  /** The rows of user `u`, in table order. */
  function OwnedBy(rows: seq<Row>, u: int): (r: seq<Row>)
    ensures forall x :: multiset(r)[x] == if x.userId == u then multiset(rows)[x] else 0
    ensures forall x :: x in r <==> x in rows && x.userId == u
  {
    if rows == [] then []
    else
      assert rows == [rows[0]] + rows[1..];
      (if rows[0].userId == u then [rows[0]] else []) + OwnedBy(rows[1..], u)
  }

  predicate SortedByCreated(s: seq<Row>) {
    forall i, j :: 0 <= i < j < |s| ==> s[i].createdAt <= s[j].createdAt
  }

  /** Puts `x` in front of the first row created no earlier than it. */
  function InsertByCreated(x: Row, s: seq<Row>): (r: seq<Row>)
    ensures multiset(r) == multiset(s) + multiset{x}
  {
    if s == [] || x.createdAt <= s[0].createdAt then [x] + s
    else
      assert s == [s[0]] + s[1..];
      [s[0]] + InsertByCreated(x, s[1..])
  }

  /** Inserting into a sorted list keeps it sorted. */
  lemma {:induction false} InsertKeepsSorted(x: Row, s: seq<Row>)
    requires SortedByCreated(s)
    ensures SortedByCreated(InsertByCreated(x, s))
  {
    if s != [] && x.createdAt > s[0].createdAt {
      var rest := InsertByCreated(x, s[1..]);
      InsertKeepsSorted(x, s[1..]);
      assert multiset(rest) == multiset(s[1..]) + multiset{x};
      forall k | 0 <= k < |rest| ensures s[0].createdAt <= rest[k].createdAt {
        assert rest[k] in multiset(rest);
        assert rest[k] in multiset(s[1..]) || rest[k] == x;
      }
    }
  }

  /** `ORDER BY created_at`, by insertion. Rows created in the same instant keep their
      table order. */
  function SortByCreated(s: seq<Row>): (r: seq<Row>)
    ensures SortedByCreated(r)
    ensures multiset(r) == multiset(s)
  {
    if s == [] then []
    else
      assert s == [s[0]] + s[1..];
      var sorted := SortByCreated(s[1..]);
      InsertKeepsSorted(s[0], sorted);
      InsertByCreated(s[0], sorted)
  }

  /** The rows `get_tasks(u)` selects, in the order it returns them. */
  function Listing(rows: seq<Row>, u: int): seq<Row> {
    SortByCreated(OwnedBy(rows, u))
  }

  function Project(rows: seq<Row>): (r: seq<Listed>)
    ensures |r| == |rows| && forall i :: 0 <= i < |rows| ==> r[i] == Columns(rows[i])
  {
    if rows == [] then [] else [Columns(rows[0])] + Project(rows[1..])
  }

  /** `get_tasks(u)` lists every row of `u` exactly once, nothing else, ordered by
      creation time. */
  lemma ListingExact(rows: seq<Row>, u: int)
    ensures SortedByCreated(Listing(rows, u))
    ensures forall x :: multiset(Listing(rows, u))[x] == if x.userId == u then multiset(rows)[x] else 0
  {
  }

  /** A row is listed for `u` exactly when it is in the table and belongs to `u`. */
  lemma ListingMembers(rows: seq<Row>, u: int)
    ensures forall x :: x in Listing(rows, u) <==> x in rows && x.userId == u
  {
    var listing := Listing(rows, u);
    forall x ensures x in listing <==> x in rows && x.userId == u {
      assert x in listing <==> multiset(listing)[x] > 0;
      assert x in rows <==> multiset(rows)[x] > 0;
    }
  }

  /** The tuples of a projection are the columns of its rows. */
  lemma ProjectMembers(rows: seq<Row>)
    ensures forall t :: t in Project(rows) <==> exists x :: x in rows && Columns(x) == t
  {
    var tasks := Project(rows);
    forall t ensures t in tasks <==> exists x :: x in rows && Columns(x) == t {
      if t in tasks {
        var i :| 0 <= i < |tasks| && tasks[i] == t;
        assert rows[i] in rows;
      }
      if exists x :: x in rows && Columns(x) == t {
        var x :| x in rows && Columns(x) == t;
        var i :| 0 <= i < |rows| && rows[i] == x;
        assert tasks[i] == t;
      }
    }
  }

  /* ---------- DELETE and UPDATE ---------- */

  /** `DELETE FROM tasks WHERE id = ?`: every other row stays, in order. */
  function WithoutId(rows: seq<Row>, id: nat): (r: seq<Row>)
    ensures forall x :: x in r <==> x in rows && x.id != id
    ensures |r| <= |rows|
  {
    if rows == [] then []
    else (if rows[0].id == id then [] else [rows[0]]) + WithoutId(rows[1..], id)
  }

  /** `UPDATE tasks SET task = ?, reminder_time = ? WHERE id = ?`. */
  function Edited(rows: seq<Row>, id: nat, task: string, reminder: Option<int>): (r: seq<Row>)
    ensures |r| == |rows|
    ensures forall i :: 0 <= i < |rows| ==>
              r[i] == if rows[i].id == id then rows[i].(task := task, reminder := reminder) else rows[i]
  {
    if rows == [] then []
    else
      var x := if rows[0].id == id then rows[0].(task := task, reminder := reminder) else rows[0];
      [x] + Edited(rows[1..], id, task, reminder)
  }

  /** Deleting twice is deleting once. */
  lemma {:induction false} DeleteIdempotent(rows: seq<Row>, id: nat)
    ensures WithoutId(WithoutId(rows, id), id) == WithoutId(rows, id)
  {
    if rows != [] {
      DeleteIdempotent(rows[1..], id);
      var w := WithoutId(rows, id);
      if rows[0].id != id {
        assert w == [rows[0]] + WithoutId(rows[1..], id);
        assert w[0] == rows[0] && w[1..] == WithoutId(rows[1..], id);
        assert WithoutId(w, id) == [w[0]] + WithoutId(w[1..], id);
      } else {
        assert [] + WithoutId(rows[1..], id) == WithoutId(rows[1..], id);
        assert w == WithoutId(rows[1..], id);
      }
    }
  }

  /** A deletion keeps the ids unique. */
  lemma {:induction false} WithoutIdUnique(rows: seq<Row>, id: nat)
    requires UniqueIds(rows)
    ensures UniqueIds(WithoutId(rows, id))
  {
    if rows != [] {
      var rest := rows[1..];
      assert UniqueIds(rest) by {
        forall i, j | 0 <= i < j < |rest| ensures rest[i].id != rest[j].id {
          assert rest[i] == rows[i + 1] && rest[j] == rows[j + 1];
        }
      }
      WithoutIdUnique(rest, id);
      assert forall y :: y in rest ==> y.id != rows[0].id;
    }
  }

  /** Deleting an id that no row has changes nothing. */
  lemma {:induction false} DeleteAbsent(rows: seq<Row>, id: nat)
    requires forall i :: 0 <= i < |rows| ==> rows[i].id != id
    ensures WithoutId(rows, id) == rows
  {
    if rows != [] {
      DeleteAbsent(rows[1..], id);
      assert rows == [rows[0]] + rows[1..];
    }
  }

  /** Editing an id that no row has changes nothing. */
  lemma EditAbsent(rows: seq<Row>, id: nat, task: string, reminder: Option<int>)
    requires forall i :: 0 <= i < |rows| ==> rows[i].id != id
    ensures Edited(rows, id, task, reminder) == rows
  {
  }

  /** `DELETE ... WHERE id = ?` names no owner: the table loses a row exactly when some
      row, whoever owns it, has that id. */
  lemma DeleteIgnoresOwner(rows: seq<Row>, id: nat)
    ensures |WithoutId(rows, id)| < |rows| <==> exists x :: x in rows && x.id == id
  {
  }

  /* ---------- the table ---------- */

  /** The table with its `AUTOINCREMENT` counter: the next id it hands out. */
  class TaskTable {
    var rows: seq<Row>
    var nextId: nat

    /** Ids are unique and all below the counter, which starts at 1. */
    predicate Valid()
      reads this
    {
      && nextId >= 1
      && (forall i :: 0 <= i < |rows| ==> 1 <= rows[i].id < nextId)
      && UniqueIds(rows)
    }

    /** `init_db` on an empty file. */
    constructor()
      ensures Valid() && rows == [] && nextId == 1
    {
      rows := [];
      nextId := 1;
    }

    /** `add_task(user_id, task, reminder_time)`: one new row with a fresh id; `stamp` is
        the `CURRENT_TIMESTAMP` of the insertion. */
    method AddTask(userId: int, task: string, reminder: Option<int>, stamp: int)
      requires Valid()
      modifies this
      ensures Valid()
      ensures rows == old(rows) + [Row(old(nextId), userId, task, stamp, reminder)]
      ensures nextId == old(nextId) + 1
    {
      rows := rows + [Row(nextId, userId, task, stamp, reminder)];
      nextId := nextId + 1;
    }

    /** `get_tasks(user_id)`. */
    function GetTasks(u: int): (r: seq<Listed>)
      reads this
      ensures forall t :: t in r <==> exists x :: x in rows && x.userId == u && Columns(x) == t
      ensures |r| == |OwnedBy(rows, u)|
      ensures r == Project(Listing(rows, u))  // so `ListingExact` gives the order
    {
      ListingMembers(rows, u);
      ProjectMembers(Listing(rows, u));
      assert |multiset(Listing(rows, u))| == |multiset(OwnedBy(rows, u))|;
      Project(Listing(rows, u))
    }

    /** `delete_task(task_id)`: always reports success. */
    method DeleteTask(id: nat) returns (ok: bool)
      requires Valid()
      modifies this
      ensures Valid() && ok
      ensures rows == WithoutId(old(rows), id) && nextId == old(nextId)
    {
      WithoutIdUnique(rows, id);
      rows := WithoutId(rows, id);
      ok := true;
    }

    /** `edit_task(task_id, new_task, new_reminder)`: always reports success. */
    method EditTask(id: nat, task: string, reminder: Option<int>) returns (ok: bool)
      requires Valid()
      modifies this
      ensures Valid() && ok
      ensures rows == Edited(old(rows), id, task, reminder) && nextId == old(nextId)
    {
      rows := Edited(rows, id, task, reminder);
      ok := true;
    }
  }
}
