/** One pass of `check_reminders` (main.py:75-98): select the rows whose reminder is due,
    try to send each, and delete a row only once its message went out. The minute-long
    sleep and the endless loop around the pass are not modelled; the clock is the `now`
    parameter and the outcome of each send is chosen nondeterministically. */
module Reminders {
  import opened Wrappers
  import opened TaskStore

  /** `reminder_time IS NOT NULL AND reminder_time <= now`. */
  predicate IsDue(x: Row, now: int) {
    x.reminder.Some? && x.reminder.value <= now
  }

  /** The rows the `SELECT` of main.py:78 returns, in table order. */
  function DueRows(rows: seq<Row>, now: int): (r: seq<Row>)
    ensures forall x :: x in r <==> x in rows && IsDue(x, now)
    ensures |r| <= |rows|
  {
    if rows == [] then []
    else (if IsDue(rows[0], now) then [rows[0]] else []) + DueRows(rows[1..], now)
  }

  /** The ids whose reminder was sent: the rows the pass deletes. */
  function Delivered(due: seq<Row>, sent: seq<bool>): (ids: set<nat>)
    requires |sent| == |due|
  {
    set i | 0 <= i < |due| && sent[i] :: due[i].id
  }

  lemma DeliveredStep(due: seq<Row>, sent: seq<bool>, i: nat, ok: bool)
    requires i < |due| && |sent| == i
    ensures Delivered(due[..i + 1], sent + [ok])
            == Delivered(due[..i], sent) + (if ok then {due[i].id} else {})
  {
    assert due[..i + 1][..i] == due[..i] && due[..i + 1][i] == due[i];
  }

  /** The rows the `SELECT` returns have unique ids, as the table's do. */
  lemma {:induction false} DueRowsUnique(rows: seq<Row>, now: int)
    requires UniqueIds(rows)
    ensures UniqueIds(DueRows(rows, now))
  {
    if rows != [] {
      var rest := rows[1..];
      assert UniqueIds(rest) by {
        forall i, j | 0 <= i < j < |rest| ensures rest[i].id != rest[j].id {
          assert rest[i] == rows[i + 1] && rest[j] == rows[j + 1];
        }
      }
      DueRowsUnique(rest, now);
      assert forall y :: y in rest ==> y.id != rows[0].id;
    }
  }

  /** Every row whose id is not in `ids`, in order. */
  function WithoutIds(rows: seq<Row>, ids: set<nat>): (r: seq<Row>)
    ensures forall x :: x in r <==> x in rows && x.id !in ids
  {
    if rows == [] then []
    else (if rows[0].id in ids then [] else [rows[0]]) + WithoutIds(rows[1..], ids)
  }

  lemma {:induction false} WithoutIdsNone(rows: seq<Row>)
    ensures WithoutIds(rows, {}) == rows
  {
    if rows != [] {
      WithoutIdsNone(rows[1..]);
      assert rows == [rows[0]] + rows[1..];
    }
  }

  /** Deleting one more id after a batch is deleting the larger batch. */
  lemma {:induction false} WithoutIdsStep(rows: seq<Row>, ids: set<nat>, id: nat)
    ensures WithoutId(WithoutIds(rows, ids), id) == WithoutIds(rows, ids + {id})
  {
    if rows != [] {
      WithoutIdsStep(rows[1..], ids, id);
      if rows[0].id in ids {
        DroppedHead(rows, ids);
        DroppedHead(rows, ids + {id});
      } else {
        KeptHead(rows, ids);
        WithoutIdOfCons(rows[0], WithoutIds(rows[1..], ids), id);
        if rows[0].id == id {
          DroppedHead(rows, ids + {id});
        } else {
          KeptHead(rows, ids + {id});
        }
      }
    }
  }

  lemma DroppedHead(rows: seq<Row>, ids: set<nat>)
    requires rows != [] && rows[0].id in ids
    ensures WithoutIds(rows, ids) == WithoutIds(rows[1..], ids)
  {
    assert [] + WithoutIds(rows[1..], ids) == WithoutIds(rows[1..], ids);
  }

  lemma KeptHead(rows: seq<Row>, ids: set<nat>)
    requires rows != [] && rows[0].id !in ids
    ensures WithoutIds(rows, ids) == [rows[0]] + WithoutIds(rows[1..], ids)
  {
  }

  lemma WithoutIdOfCons(x: Row, rest: seq<Row>, id: nat)
    ensures WithoutId([x] + rest, id) == if x.id == id then WithoutId(rest, id) else [x] + WithoutId(rest, id)
  {
    var s := [x] + rest;
    assert s[0] == x && s[1..] == rest;
    assert [] + WithoutId(rest, id) == WithoutId(rest, id);
  }

  /** The pass over the table: `due` is what the `SELECT` returned, `sent[i]` whether the
      message for `due[i]` went out. Exactly the delivered rows are gone; nothing else in
      the table changes. */
  method Sweep(db: TaskTable, now: int) returns (due: seq<Row>, sent: seq<bool>)
    requires db.Valid()
    modifies db
    ensures db.Valid() && db.nextId == old(db.nextId)
    ensures due == DueRows(old(db.rows), now) && |sent| == |due|
    ensures db.rows == WithoutIds(old(db.rows), Delivered(due, sent))
  {
    due := DueRows(db.rows, now);
    sent := [];
    WithoutIdsNone(db.rows);
    assert Delivered(due[..0], sent) == {};
    var i := 0;
    while i < |due|
      invariant 0 <= i <= |due| && |sent| == i
      invariant db.Valid() && db.nextId == old(db.nextId)
      invariant db.rows == WithoutIds(old(db.rows), Delivered(due[..i], sent))
    {
      var ok: bool := *;
      ghost var before := Delivered(due[..i], sent);
      DeliveredStep(due, sent, i, ok);
      if ok {
        WithoutIdsStep(old(db.rows), before, due[i].id);
        var _ := db.DeleteTask(due[i].id);
        assert db.rows == WithoutIds(old(db.rows), before + {due[i].id});
      } else {
        assert before + {} == before;
      }
      sent := sent + [ok];
      i := i + 1;
    }
    assert due[..i] == due;
  }

  /* ---------- what one pass promises ---------- */

  /** A row that is not due, or has no reminder, survives the pass untouched. */
  lemma UndueKept(rows: seq<Row>, now: int, sent: seq<bool>, x: Row)
    requires UniqueIds(rows) && |sent| == |DueRows(rows, now)|
    requires x in rows && !IsDue(x, now)
    ensures x in WithoutIds(rows, Delivered(DueRows(rows, now), sent))
  {
    var due := DueRows(rows, now);
    forall i | 0 <= i < |due| ensures due[i].id != x.id {
      assert due[i] in rows;
      assert due[i] != x;
    }
  }

  /** A due row whose message failed stays in the table for the next pass. */
  lemma FailedKept(rows: seq<Row>, now: int, sent: seq<bool>, i: nat)
    requires UniqueIds(rows) && |sent| == |DueRows(rows, now)|
    requires i < |sent| && !sent[i]
    ensures DueRows(rows, now)[i] in WithoutIds(rows, Delivered(DueRows(rows, now), sent))
  {
    var due := DueRows(rows, now);
    assert due[i] in rows;
    DueRowsUnique(rows, now);
    forall j | 0 <= j < |due| && sent[j] ensures due[j].id != due[i].id {
      assert j != i;
    }
    assert due[i].id !in Delivered(due, sent);
  }

  /** A due row whose message went out is gone. */
  lemma SentDeleted(rows: seq<Row>, now: int, sent: seq<bool>, i: nat)
    requires |sent| == |DueRows(rows, now)| && i < |sent| && sent[i]
    ensures DueRows(rows, now)[i] !in WithoutIds(rows, Delivered(DueRows(rows, now), sent))
  {
    assert DueRows(rows, now)[i].id in Delivered(DueRows(rows, now), sent);
  }

  /** When every send succeeds, no due reminder is left. */
  lemma AllSentNoneDue(rows: seq<Row>, now: int, sent: seq<bool>)
    requires |sent| == |DueRows(rows, now)| && forall i :: 0 <= i < |sent| ==> sent[i]
    ensures DueRows(WithoutIds(rows, Delivered(DueRows(rows, now), sent)), now) == []
  {
    var due := DueRows(rows, now);
    var left := WithoutIds(rows, Delivered(due, sent));
    forall x | x in left ensures !IsDue(x, now) {
      if IsDue(x, now) {
        assert false;
      }
    }
    if DueRows(left, now) != [] {
      assert DueRows(left, now)[0] in DueRows(left, now);
    }
  }
}
