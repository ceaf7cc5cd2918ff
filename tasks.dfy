/** Rows of the `tasks` table, the request bodies of the JSON handlers, and the pure validation steps the
    create and update handlers run before they touch the table. */
module Tasks {
  import opened Text

  datatype Option<T> = None | Some(value: T)

  /** A field of a JSON request body, as far as the handlers can store it: `null` or a string. */
  datatype Value = Null | Str(s: string)

  /** A decoded JSON object body: field name to value. */
  type Body = map<string, Value>

  /** The three values the `status` column's CHECK constraint admits. */
  datatype Status = Pending | InProgress | Done

  /** A reading of the store's clock, as `CURRENT_TIMESTAMP` renders it. */
  type Timestamp = string

  /** One row of the `tasks` table; `title` and `status` are NOT NULL columns. */
  datatype Task = Task(
    id: nat,
    title: string,
    description: Value,
    dueDate: Value,
    status: Status,
    createdAt: Timestamp,
    updatedAt: Timestamp)

  /** The outcome of validating a request body. */
  datatype Checked<T> = Pass(value: T) | Reject(msg: string)

  /** The validated column values of a row to insert. */
  datatype NewTask = NewTask(title: string, description: Value, dueDate: Value, status: Status)

  const TitleRequired: string := "title is required"
  const InvalidStatus: string := "invalid status"
  const NoValidFields: string := "no valid fields"

  /** The body fields `update_task` keeps. */
  const Allowed: set<string> := {"title", "description", "due_date", "status"}

  /** The text the `status` column holds for a status. */
  function StatusName(st: Status): (name: string)
    ensures name in {"pending", "in_progress", "done"}
    ensures name == "pending" <==> st == Pending
    ensures name == "in_progress" <==> st == InProgress
  {
    match st
    case Pending => "pending"
    case InProgress => "in_progress"
    case Done => "done"
  }

  /** The membership test `v in ("pending", "in_progress", "done")`, giving the status named. */
  function ParseStatus(v: Value): (r: Option<Status>)
    ensures r.Some? ==> v == Str(StatusName(r.value))
    ensures r.None? ==> forall st :: v != Str(StatusName(st))
  {
    if v == Str("pending") then Some(Pending)
    else if v == Str("in_progress") then Some(InProgress)
    else if v == Str("done") then Some(Done)
    else None
  }

  /** Every status name is accepted, and it parses back to the status it names. */
  lemma ParseStatusName(st: Status)
    ensures ParseStatus(Str(StatusName(st))) == Some(st)
  {
  }

  /** `data.get(key)`: a missing field reads as `null`. */
  function Lookup(body: Body, key: string): (v: Value)
    ensures key in body ==> v == body[key]
    ensures key !in body ==> v == Null
  {
    if key in body then body[key] else Null
  }

  /** Python truthiness of a body field: `null` and `""` are falsy. */
  function Truthy(v: Value): (b: bool)
    ensures b <==> v.Str? && |v.s| > 0
  {
    v != Null && v != Str("")
  }

  /** `data.get("title") or ""`, before stripping. */
  function TitleText(body: Body): (t: string)
    ensures Truthy(Lookup(body, "title")) ==> Lookup(body, "title") == Str(t)
    ensures !Truthy(Lookup(body, "title")) ==> t == ""
  {
    match Lookup(body, "title")
    case Null => ""
    case Str(s) => s
  }

  /** `data.get("status") or "pending"`. */
  function StatusOrDefault(body: Body): (v: Value)
    ensures Truthy(v)
    ensures Truthy(Lookup(body, "status")) ==> v == Lookup(body, "status")
    ensures !Truthy(Lookup(body, "status")) ==> v == Str("pending")
  {
    if Truthy(Lookup(body, "status")) then Lookup(body, "status") else Str("pending")
  }

  /** The checks `create_task` makes, in its order: the stripped title must be non-empty, then
      the status (defaulted to "pending" when absent or falsy) must be one of the three. */
  function CheckCreate(body: Body): (r: Checked<NewTask>)
    ensures r.Pass? || r == Reject(TitleRequired) || r == Reject(InvalidStatus)
    ensures r == Reject(TitleRequired) <==> Blank(TitleText(body))
    ensures r == Reject(InvalidStatus) <==>
              && !Blank(TitleText(body))
              && Truthy(Lookup(body, "status"))
              && ParseStatus(Lookup(body, "status")).None?
    ensures r.Pass? ==>
              && r.value.title == Strip(TitleText(body))
              && r.value.title != []
              && Stripped(r.value.title)
              && r.value.description == Lookup(body, "description")
              && r.value.dueDate == Lookup(body, "due_date")
              && (Truthy(Lookup(body, "status")) ==> Lookup(body, "status") == Str(StatusName(r.value.status)))
              && (!Truthy(Lookup(body, "status")) ==> r.value.status == Pending)
  {
    var title := Strip(TitleText(body));
    if title == [] then
      Reject(TitleRequired)
    else
      match ParseStatus(StatusOrDefault(body))
      case None => Reject(InvalidStatus)
      case Some(st) => Pass(NewTask(title, Lookup(body, "description"), Lookup(body, "due_date"), st))
  }

  /** The comprehension `{k: v for k, v in data.items() if k in allowed}`. */
  function FilterUpdates(body: Body): (u: Body)
    ensures u.Keys == body.Keys * Allowed
    ensures forall k :: k in u ==> u[k] == body[k]
  {
    map k | k in body && k in Allowed :: body[k]
  }

  /** Fields that are ignored by the filter do not affect what it keeps. */
  lemma FilterIgnoresOthers(body: Body, k: string, v: Value)
    requires k !in Allowed
    ensures FilterUpdates(body[k := v]) == FilterUpdates(body)
  {
  }

  /** The checks `update_task` makes on its body, in its order: a present status must be one of
      the three (no default here, so `null` and `""` are rejected), then at least one allowed
      field must remain after filtering. The title is neither stripped nor checked. */
  function CheckUpdate(body: Body): (r: Checked<Body>)
    ensures r.Pass? || r == Reject(InvalidStatus) || r == Reject(NoValidFields)
    ensures r == Reject(InvalidStatus) <==> "status" in body && ParseStatus(body["status"]).None?
    ensures r == Reject(NoValidFields) <==> body.Keys * Allowed == {}
    ensures r.Pass? ==>
              && r.value.Keys == body.Keys * Allowed
              && r.value != map[]
              && (forall k :: k in r.value ==> r.value[k] == body[k])
  {
    var updates := FilterUpdates(body);
    if "status" in updates && ParseStatus(updates["status"]).None? then
      Reject(InvalidStatus)
    else if updates == map[] then
      assert body.Keys * Allowed == {};
      Reject(NoValidFields)
    else
      Pass(updates)
  }

  /** The column values of a row that an UPDATE may assign, by column name. */
  function Columns(t: Task): (c: map<string, Value>)
    ensures c.Keys == Allowed
    ensures Assignable(c)
    ensures c["title"] == Str(t.title) && c["description"] == t.description
    ensures c["due_date"] == t.dueDate && ParseStatus(c["status"]) == Some(t.status)
  {
    map["title" := Str(t.title), "description" := t.description,
        "due_date" := t.dueDate, "status" := Str(StatusName(t.status))]
  }

  /** An update set the store accepts: allowed columns only, a valid status, a non-null title. */
  function Assignable(u: Body): (b: bool)
    ensures b ==> forall k :: k in u && k != "description" && k != "due_date" ==> u[k].Str?
  {
    && u.Keys <= Allowed
    && ("title" in u ==> u["title"].Str?)
    && ("status" in u ==> ParseStatus(u["status"]).Some?)
  }

  /** A non-empty update set the store accepts passes `update_task`'s checks as it is. */
  lemma AssignablePasses(u: Body)
    requires Assignable(u) && u != map[]
    ensures CheckUpdate(u) == Pass(u)
  {
    assert FilterUpdates(u) == u;
  }

  /** `UPDATE tasks SET k=?, ..., updated_at=CURRENT_TIMESTAMP`: the row's columns become its old
      columns overridden by the update set; the id and creation time stay, the update time is now. */
  function Apply(t: Task, u: Body, now: Timestamp): (t': Task)
    requires Assignable(u)
    ensures Columns(t') == Columns(t) + u
    ensures t'.id == t.id && t'.createdAt == t.createdAt && t'.updatedAt == now
  {
    var t' := t.(
      title := if "title" in u then u["title"].s else t.title,
      description := if "description" in u then u["description"] else t.description,
      dueDate := if "due_date" in u then u["due_date"] else t.dueDate,
      status := if "status" in u then ParseStatus(u["status"]).value else t.status,
      updatedAt := now);
    assert "status" in u ==> Str(StatusName(t'.status)) == u["status"];
    assert Columns(t').Keys == (Columns(t) + u).Keys;
    t'
  }

  /** A row is determined by its id, its timestamps and its columns. */
  lemma ColumnsDetermineTask(a: Task, b: Task)
    requires a.id == b.id && a.createdAt == b.createdAt && a.updatedAt == b.updatedAt
    requires Columns(a) == Columns(b)
    ensures a == b
  {
    assert Columns(a)["title"] == Columns(b)["title"];
    assert Columns(a)["description"] == Columns(b)["description"];
    assert Columns(a)["due_date"] == Columns(b)["due_date"];
    assert Columns(a)["status"] == Columns(b)["status"];
    ParseStatusName(a.status);
    ParseStatusName(b.status);
  }

  /** Replaying the same update set at the same time changes nothing more. */
  lemma ApplyIdempotent(t: Task, u: Body, now: Timestamp)
    requires Assignable(u)
    ensures Apply(Apply(t, u, now), u, now) == Apply(t, u, now)
  {
    var once := Apply(t, u, now);
    var twice := Apply(once, u, now);
    assert Columns(twice) == Columns(once);
    ColumnsDetermineTask(twice, once);
  }

  /** An update of the status alone changes the status and the update time and nothing else. */
  lemma ApplyStatusOnly(t: Task, st: Status, now: Timestamp)
    ensures Assignable(map["status" := Str(StatusName(st))])
    ensures Apply(t, map["status" := Str(StatusName(st))], now) == t.(status := st, updatedAt := now)
  {
    ParseStatusName(st);
  }

  /** Create defaults a falsy status to pending; update rejects the same value. */
  lemma EmptyStatusCreateVersusUpdate(body: Body)
    requires !Blank(TitleText(body))
    requires "status" in body && body["status"] in {Null, Str("")}
    ensures CheckCreate(body).Pass? && CheckCreate(body).value.status == Pending
    ensures CheckUpdate(body) == Reject(InvalidStatus)
  {
  }

  /** Update lets a blank title through unchanged, where create would refuse it. */
  lemma BlankTitleCreateVersusUpdate(title: string)
    requires Blank(title)
    ensures CheckCreate(map["title" := Str(title)]) == Reject(TitleRequired)
    ensures CheckUpdate(map["title" := Str(title)]) == Pass(map["title" := Str(title)])
  {
    var body := map["title" := Str(title)];
    assert FilterUpdates(body) == body;
  }
}
