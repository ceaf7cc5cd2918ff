/** The `tasks` table and the five JSON task handlers that read and change it. */
module Table {
  import opened Text
  import opened Tasks

  /** What a handler answers: a row (200), a created row (201), a validation error (400),
      not found (404), a confirmed deletion (200), or a fault reported by the store (500). */
  datatype Response =
    | Ok(task: Task)
    | Created(task: Task)
    | Validation(msg: string)
    | NotFound
    | Deleted
    | StorageError(msg: string)

  /** The store's message when an UPDATE writes `null` into the NOT NULL `title` column. */
  const NotNullTitle: string := "NOT NULL constraint failed: tasks.title"

  /** Every id of `ts` is larger than the one after it. */
  predicate StrictlyDescending(ts: seq<Task>)
  {
    forall i, j :: 0 <= i < j < |ts| ==> ts[i].id > ts[j].id
  }

  /** The ids that occur in `ts`. */
  function IdsOf(ts: seq<Task>): set<nat>
  {
    set i | 0 <= i < |ts| :: ts[i].id
  }

  /** Appending a row adds its id to the ids of a list. */
  lemma IdsOfAppend(ts: seq<Task>, t: Task)
    ensures IdsOf(ts + [t]) == IdsOf(ts) + {t.id}
  {
    var ts' := ts + [t];
    assert forall i :: 0 <= i < |ts| ==> ts'[i] == ts[i];
    assert ts'[|ts|] == t;
  }

  /** Appending a row whose id is below every id of a descending list keeps it descending. */
  lemma DescendingAppend(ts: seq<Task>, t: Task)
    requires StrictlyDescending(ts)
    requires forall i :: 0 <= i < |ts| ==> ts[i].id > t.id
    ensures StrictlyDescending(ts + [t])
  {
  }

  /** A strictly descending list holds each of its ids exactly once. */
  lemma {:induction false} DescendingIdsDistinct(ts: seq<Task>)
    requires StrictlyDescending(ts)
    ensures |IdsOf(ts)| == |ts|
  {
    if ts != [] {
      var rest := ts[1..];
      assert IdsOf(ts) == {ts[0].id} + IdsOf(rest) by {
        forall i | 0 <= i < |ts| ensures ts[i].id in {ts[0].id} + IdsOf(rest) {
          if i > 0 { assert ts[i].id == rest[i - 1].id; }
        }
      }
      assert ts[0].id !in IdsOf(rest);
      DescendingIdsDistinct(rest);
    }
  }

  /** The `tasks` table of one database file. `nextId` plays the part of the AUTOINCREMENT
      sequence: it is one more than the largest id ever assigned, and it never goes down. */
  class TaskTable {
    var rows: map<nat, Task>
    var nextId: nat
    /** Every id ever assigned, deleted rows' ids included. */
    ghost var issued: set<nat>

    /** Rows are stored under their own id; ids are positive; every id ever assigned is below
        `nextId`, so a new one is never a reused one; and `nextId` is one more than the last id
        assigned, or 1 before any. */
    ghost predicate Valid()
      reads this
    {
      && 1 <= nextId
      && rows.Keys <= issued
      && (forall id :: id in issued ==> 1 <= id < nextId)
      && (nextId == 1 || nextId - 1 in issued)
      && (forall id :: id in rows ==> rows[id].id == id)
    }

    /** A freshly initialised database: an empty table whose first id will be 1. */
    constructor ()
      ensures Valid()
      ensures rows == map[] && nextId == 1 && issued == {}
    {
      rows := map[];
      nextId := 1;
      issued := {};
    }

    /** `get_task`: the row with that id, or not found. */
    method Get(id: nat) returns (r: Response)
      ensures id in rows ==> r == Ok(rows[id])
      ensures id !in rows ==> r == NotFound
    {
      if id in rows {
        r := Ok(rows[id]);
      } else {
        r := NotFound;
      }
    }

    /** `list_tasks`: every row exactly once, highest id first. */
    method List() returns (ts: seq<Task>)
      requires Valid()
      ensures StrictlyDescending(ts)
      ensures IdsOf(ts) == rows.Keys && |ts| == |rows|
      ensures forall i :: 0 <= i < |ts| ==> ts[i].id in rows && rows[ts[i].id] == ts[i]
    {
      ts := [];
      var k := nextId;
      while k > 0
        invariant k <= nextId
        invariant StrictlyDescending(ts)
        invariant forall i :: 0 <= i < |ts| ==> k <= ts[i].id && ts[i].id in rows && rows[ts[i].id] == ts[i]
        invariant forall id :: id in rows && k <= id ==> id in IdsOf(ts)
      {
        k := k - 1;
        if k in rows {
          DescendingAppend(ts, rows[k]);
          IdsOfAppend(ts, rows[k]);
          ts := ts + [rows[k]];
        }
      }
      assert IdsOf(ts) == rows.Keys;
      DescendingIdsDistinct(ts);
      assert |rows.Keys| == |rows|;
    }

    /** `create_task`: validate the body; on success insert a row under the next id with both
        timestamps set to `now`, and answer the row as read back from the table. */
    method Create(body: Body, now: Timestamp) returns (r: Response)
      requires Valid()
      modifies this
      ensures Valid()
      ensures match CheckCreate(body)
        case Reject(msg) =>
          && r == Validation(msg)
          && rows == old(rows) && nextId == old(nextId) && issued == old(issued)
        case Pass(n) =>
          && r == Created(Task(old(nextId), n.title, n.description, n.dueDate, n.status, now, now))
          && (forall id :: id in old(issued) ==> id < r.task.id)
          && rows == old(rows)[r.task.id := r.task]
          && nextId == old(nextId) + 1
          && issued == old(issued) + {r.task.id}
    {
      match CheckCreate(body) {
        case Reject(msg) =>
          r := Validation(msg);
        case Pass(n) =>
          var id := Insert(n, now);
          r := Created(rows[id]);
      }
    }

    /** `INSERT INTO tasks ...` followed by `lastrowid`: store a row under the next id, with both
        timestamps set to `now`, and give back that id. */
    method Insert(n: NewTask, now: Timestamp) returns (id: nat)
      requires Valid()
      modifies this
      ensures Valid()
      ensures id == old(nextId) && id !in old(issued) && id !in old(rows)
      ensures forall old_id :: old_id in old(issued) ==> old_id < id
      ensures rows == old(rows)[id := Task(id, n.title, n.description, n.dueDate, n.status, now, now)]
      ensures nextId == old(nextId) + 1 && issued == old(issued) + {id}
    {
      id := nextId;
      rows := rows[id := Task(id, n.title, n.description, n.dueDate, n.status, now, now)];
      nextId := nextId + 1;
      issued := issued + {id};
    }

    /** `update_task`: validate the body first, then look the id up, then assign exactly the
        supplied allowed fields and set the update time to `now`; answer the row as stored.
        Writing `null` into the title is refused by the store and changes nothing. */
    method Update(id: nat, body: Body, now: Timestamp) returns (r: Response)
      requires Valid()
      modifies this
      ensures Valid()
      ensures nextId == old(nextId) && issued == old(issued)
      ensures match CheckUpdate(body)
        case Reject(msg) =>
          r == Validation(msg) && rows == old(rows)
        case Pass(u) =>
          if id !in old(rows) then
            r == NotFound && rows == old(rows)
          else if "title" in u && u["title"] == Null then
            r == StorageError(NotNullTitle) && rows == old(rows)
          else
            && r == Ok(Apply(old(rows)[id], u, now))
            && rows == old(rows)[id := r.task]
    {
      var checked := CheckUpdate(body);
      if checked.Reject? {
        return Validation(checked.msg);
      }
      var u := checked.value;
      if id !in rows {
        return NotFound;
      }
      if "title" in u && u["title"] == Null {
        return StorageError(NotNullTitle);
      }
      rows := rows[id := Apply(rows[id], u, now)];
      r := Ok(rows[id]);
    }

    /** `delete_task`: look the id up, then remove exactly that row. */
    method Delete(id: nat) returns (r: Response)
      requires Valid()
      modifies this
      ensures Valid()
      ensures nextId == old(nextId) && issued == old(issued)
      ensures id in old(rows) ==> r == Deleted && rows == old(rows) - {id}
      ensures id !in old(rows) ==> r == NotFound && rows == old(rows)
    {
      if id !in rows {
        return NotFound;
      }
      rows := rows - {id};
      r := Deleted;
    }
  }

  /** A created row reads back equal, under an id no earlier row ever had. */
  method CreateThenGet(table: TaskTable, body: Body, now: Timestamp) returns (created: Response, got: Response)
    requires table.Valid()
    modifies table
    ensures table.Valid()
    ensures created.Created? <==> CheckCreate(body).Pass?
    ensures created.Created? ==> got == Ok(created.task) && created.task.id !in old(table.issued)
    ensures !created.Created? ==> table.rows == old(table.rows)
  {
    created := table.Create(body, now);
    if created.Created? {
      got := table.Get(created.task.id);
    } else {
      got := NotFound;
    }
  }

  /** After a deletion the id is gone: a lookup and a second deletion both find nothing. */
  method DeleteThenGetThenDelete(table: TaskTable, id: nat) returns (first: Response, got: Response, second: Response)
    requires table.Valid()
    modifies table
    ensures table.Valid()
    ensures first == Deleted <==> id in old(table.rows)
    ensures first == Deleted || first == NotFound
    ensures got == NotFound && second == NotFound
    ensures table.rows == old(table.rows) - {id}
  {
    first := table.Delete(id);
    got := table.Get(id);
    second := table.Delete(id);
  }

  /** An update of an id that is not in the table never changes it, and it answers not found
      exactly when the body passes validation. */
  method UpdateMissing(table: TaskTable, id: nat, body: Body, now: Timestamp) returns (r: Response)
    requires table.Valid() && id !in table.rows
    modifies table
    ensures table.Valid()
    ensures table.rows == old(table.rows)
    ensures r == NotFound <==> CheckUpdate(body).Pass?
    ensures r != NotFound ==> r.Validation?
  {
    r := table.Update(id, body, now);
  }

  /** `{"title": pad + title + pad}` passes the create checks with the padding stripped and the
      status defaulted to pending. */
  lemma PaddedTitleBody(body: Body, pad: string, title: string)
    requires Blank(pad) && Stripped(title) && title != []
    requires body == map["title" := Str(pad + title + pad)]
    ensures CheckCreate(body) == Pass(NewTask(title, Null, Null, Pending))
  {
    StripCharacterization(pad, title, pad);
    assert TitleText(body) == pad + title + pad;
    assert Lookup(body, "status") == Null;
  }

  /** The first create on a fresh table: id 1, the title stripped, the status pending, both
      timestamps the clock value. */
  method WalkFirstCreate(pad: string, title: string, now: Timestamp)
    requires Blank(pad) && Stripped(title) && title != []
  {
    var padded := map["title" := Str(pad + title + pad)];
    PaddedTitleBody(padded, pad, title);
    var table := new TaskTable();
    var r := table.Create(padded, now);
    assert r == Created(Task(1, title, Null, Null, Pending, now, now));
  }

  /** A blank title and an unknown status are refused, and the table stays empty. */
  method WalkCreateRefused(pad: string, title: string, bogus: string, now: Timestamp)
    requires Blank(pad) && title != [] && !IsSpace(title[0])
    requires bogus != "" && forall st :: bogus != StatusName(st)
  {
    var blank := map["title" := Str(pad)];
    assert TitleText(blank) == pad;
    assert CheckCreate(blank) == Reject(TitleRequired);
    var wrong := map["title" := Str(title), "status" := Str(bogus)];
    assert TitleText(wrong) == title && !Blank(title);
    assert Lookup(wrong, "status") == Str(bogus);
    assert CheckCreate(wrong) == Reject(InvalidStatus);

    var table := new TaskTable();
    var r := table.Create(blank, now);
    assert r == Validation(TitleRequired);
    r := table.Create(wrong, now);
    assert r == Validation(InvalidStatus);
    assert table.rows == map[];
  }

  /** A status-only update changes the status and the update time and nothing else. */
  method WalkStatusUpdate(table: TaskTable, id: nat, now: Timestamp)
    requires table.Valid() && id in table.rows
    modifies table
  {
    var before := table.rows[id];
    var done := map["status" := Str("done")];
    assert FilterUpdates(done) == done;
    var r := table.Update(id, done, now);
    ApplyStatusOnly(before, Done, now);
    assert r == Ok(before.(status := Done, updatedAt := now));
  }

  /** For a missing id the body is checked first: a body of unknown fields is a validation error,
      a valid one is not found. */
  method WalkUpdateMissing(other: string, now: Timestamp)
    requires other !in Allowed
  {
    var table := new TaskTable();
    var foo := map[other := Str("bar")];
    assert foo.Keys * Allowed == {};
    var r := table.Update(999999, foo, now);
    assert r == Validation(NoValidFields);

    var done := map["status" := Str("done")];
    assert FilterUpdates(done) == done;
    r := table.Update(999999, done, now);
    assert r == NotFound;
  }

  /** An id is not reused: after deleting the only row, the next create gets a new id, and the
      listing holds only the new row. */
  method WalkNoReuse(body: Body, t0: Timestamp, t1: Timestamp)
    requires CheckCreate(body).Pass?
  {
    var table := new TaskTable();
    var r := table.Create(body, t0);
    assert table.nextId == 2 && table.rows.Keys == {1};
    r := table.Delete(1);
    assert table.rows == map[];
    r := table.Create(body, t1);
    assert r.Created? && r.task.id == 2;
    assert table.rows == map[2 := r.task];
    var all := table.List();
    assert all == [r.task] by {
      assert |all| == 1 && all[0].id in table.rows;
    }
  }
}
