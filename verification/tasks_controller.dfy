/** The task service of backend/src/controllers/tasksController.js, run against an
    abstract `tasks` table instead of Postgres. Each handler is a total function
    from the table and the request to the response and the table afterwards.
    Column defaults come from the schema in backend/src/config/database.js:
    `id SERIAL` (the `nextId` counter), `title VARCHAR(255) NOT NULL`,
    `completed BOOLEAN DEFAULT false`, `created_at TIMESTAMP DEFAULT NOW()`
    (the `now` parameter of a create). */
module TasksController {
  import opened Text
  import opened Tasks

  /** A field of the JSON request body as Express hands it over; a field the
      client left out is `Undefined`. */
  datatype Json = Undefined | Null | Bool(b: bool) | Num(n: int) | Str(s: string)

  /** JavaScript truthiness: `undefined`, `null`, `false`, `0` and `""` are falsy. */
  predicate Truthy(v: Json)
    ensures Truthy(v) <==> v !in {Undefined, Null, Bool(false), Num(0), Str("")}
  {
    match v
    case Undefined => false
    case Null => false
    case Bool(b) => b
    case Num(n) => n != 0
    case Str(s) => s != ""
  }

  /** The `:id` path segment: an integer literal, or text that is not one. */
  datatype IdParam = Numeric(n: int) | NotNumeric

  const INT_MIN: int := -0x8000_0000
  const INT_MAX: int := 0x7FFF_FFFF
  /** The `VARCHAR(255)` limit of the `title` column. */
  const MAX_TITLE: nat := 255

  const TITLE_REQUIRED := "El título es requerido"
  const FIELD_REQUIRED := "Se requiere completed o title"
  const NOT_FOUND := "Tarea no encontrada"

  /** The `integer` key Postgres makes of the `:id` parameter; `None` when it
      rejects the text or the value is out of range, which fails the query. */
  function Key(p: IdParam): (k: Option<int>)
    ensures k.Some? <==> p.Numeric? && INT_MIN <= p.n <= INT_MAX
    ensures k.Some? ==> k.value == p.n
  {
    if p.Numeric? && INT_MIN <= p.n <= INT_MAX then Some(p.n) else None
  }

  datatype Body = TaskList(rows: seq<Task>) | OneTask(row: Task) | ErrorBody(error: string) | NoContent

  /** What a handler does with the request: answer with a status and a body, or
      pass an exception to `next(err)` (a storage fault), whose status the
      error-handling middleware decides. */
  datatype Outcome = Reply(status: nat, body: Body) | Fault

  /** The `tasks` table in storage order, and the next value of its id sequence. */
  datatype Store = Store(rows: seq<Task>, nextId: int)

  datatype Step = Step(outcome: Outcome, store: Store)

  /** What the table keeps between requests: every id was drawn from the
      sequence and is distinct (the schema's serial primary key), every title
      fits the column (the schema's `VARCHAR(255)`) and is not empty (which the
      handlers, not the schema, ensure). */
  predicate Valid(st: Store) {
    && 1 <= st.nextId <= INT_MAX + 1
    && (forall t :: t in st.rows ==> 1 <= t.id < st.nextId && 1 <= |t.title| <= MAX_TITLE)
    && DistinctIds(st.rows)
  }

  predicate NewestFirst(rows: seq<Task>) {
    forall i, j :: 0 <= i < j < |rows| ==> rows[i].createdAt >= rows[j].createdAt
  }

  /** Every character of `s` from index `n` on is a space. */
  predicate SpacesFrom(s: string, n: nat) {
    forall i :: n <= i < |s| ==> s[i] == ' '
  }

  /** The value Postgres stores when the string `s` is bound to the `title`
      column, or `None` when it raises: text cannot hold U+0000, and a
      `VARCHAR(255)` value longer than the limit is cut to it only when every
      excess character is a space. */
  function TitleColumn(s: string): (v: Option<string>)
    ensures v.Some? <==> '\0' !in s && SpacesFrom(s, MAX_TITLE)
    ensures v.Some? ==> |v.value| == (if |s| <= MAX_TITLE then |s| else MAX_TITLE)
    ensures v.Some? ==> v.value == s[..|v.value|]
  {
    if '\0' in s || !SpacesFrom(s, MAX_TITLE) then None
    else if |s| <= MAX_TITLE then Some(s)
    else Some(s[..MAX_TITLE])
  }

  /** A title with no whitespace at its end is never cut: it is stored whole
      or not at all. */
  lemma TitleColumnOfTrimmed(s: string)
    requires Trimmed(s)
    ensures TitleColumn(s).Some? ==> TitleColumn(s) == Some(s)
    ensures '\0' !in s && |s| <= MAX_TITLE ==> TitleColumn(s) == Some(s)
  {
    if |s| > MAX_TITLE {
      assert IsWhitespace(' ');
      assert !SpacesFrom(s, MAX_TITLE) by {
        assert s[|s| - 1] != ' ';
      }
    }
  }

  /** Places `t` before the first row that is not newer than it. */
  function InsertByCreatedAt(t: Task, rows: seq<Task>): (r: seq<Task>)
    requires NewestFirst(rows)
    ensures NewestFirst(r)
    ensures multiset(r) == multiset(rows) + multiset{t}
    ensures |r| == |rows| + 1
    ensures r[0] == t || (rows != [] && r[0] == rows[0])
  {
    if rows == [] || t.createdAt >= rows[0].createdAt then [t] + rows
    else
      MultisetHead(rows);
      TailFacts(rows);
      var tail := InsertByCreatedAt(t, rows[1..]);
      ConsNewestFirst(rows[0], tail);
      [rows[0]] + tail
  }

  /** A row no older than the head of a newest-first list may go in front of it. */
  lemma ConsNewestFirst(h: Task, rows: seq<Task>)
    requires NewestFirst(rows)
    requires rows != [] ==> h.createdAt >= rows[0].createdAt
    ensures NewestFirst([h] + rows)
  {
    var r := [h] + rows;
    forall i, j | 0 <= i < j < |r| ensures r[i].createdAt >= r[j].createdAt {
      if i == 0 {
        assert r[j] == rows[j - 1];
      } else {
        assert r[i] == rows[i - 1] && r[j] == rows[j - 1];
      }
    }
  }

  /** `ORDER BY created_at DESC`: the same rows, newest first. The source leaves
      the order of equal timestamps to the database; this model fixes one. */
  function OrderByCreatedAtDesc(rows: seq<Task>): (r: seq<Task>)
    ensures NewestFirst(r)
    ensures multiset(r) == multiset(rows)
    ensures |r| == |rows|
  {
    if rows == [] then []
    else
      assert rows == [rows[0]] + rows[1..];
      InsertByCreatedAt(rows[0], OrderByCreatedAtDesc(rows[1..]))
  }

  /** `getAllTasks`: 200 with every row, newest first; the table is untouched. */
  function GetAllTasks(st: Store): (s: Step)
    ensures s.store == st
    ensures s.outcome.Reply? && s.outcome.status == 200 && s.outcome.body.TaskList?
    ensures NewestFirst(s.outcome.body.rows)
    ensures multiset(s.outcome.body.rows) == multiset(st.rows)
  {
    Step(Reply(200, TaskList(OrderByCreatedAtDesc(st.rows))), st)
  }

  /** `createTask`: a falsy or blank title is a 400; a non-string title has no
      `trim` and throws; otherwise the trimmed title is inserted with the
      column defaults, and the insert fails when the column refuses the
      trimmed title or the id sequence is exhausted. */
  function CreateTask(st: Store, title: Json, now: nat): (s: Step)
    ensures s.outcome == Reply(400, ErrorBody(TITLE_REQUIRED))
            <==> !Truthy(title) || (title.Str? && AllWhitespace(title.s))
    ensures s.outcome.Reply? ==> s.outcome.status in {201, 400}
    ensures !(s.outcome.Reply? && s.outcome.status == 201) ==> s.store == st
    ensures s.outcome.Reply? && s.outcome.status == 201 ==>
              && |s.store.rows| == |st.rows| + 1
              && s.store.rows[..|st.rows|] == st.rows
              && s.outcome.body == OneTask(s.store.rows[|st.rows|])
    ensures Valid(st) ==> Valid(s.store)
  {
    TrimEmptyIff(if title.Str? then title.s else "");
    if !Truthy(title) then Step(Reply(400, ErrorBody(TITLE_REQUIRED)), st)
    else if !title.Str? then Step(Fault, st)
    else if Trim(title.s) == "" then Step(Reply(400, ErrorBody(TITLE_REQUIRED)), st)
    else
      var column := TitleColumn(Trim(title.s));
      if column.None? || st.nextId > INT_MAX then Step(Fault, st)
      else
      var row := Task(st.nextId, column.value, false, now);
      assert Valid(st) ==> Valid(Store(st.rows + [row], st.nextId + 1)) by {
        if Valid(st) { InsertFreshRow(st, row); }
      }
      assert (st.rows + [row])[..|st.rows|] == st.rows;
      Step(Reply(201, OneTask(row)), Store(st.rows + [row], st.nextId + 1))
  }

  /** Appending a row that carries the next id keeps the table valid. */
  lemma InsertFreshRow(st: Store, row: Task)
    requires Valid(st) && row.id == st.nextId <= INT_MAX && 1 <= |row.title| <= MAX_TITLE
    ensures Valid(Store(st.rows + [row], st.nextId + 1))
  {
    var rows := st.rows + [row];
    forall i, j | 0 <= i < j < |rows| ensures rows[i].id != rows[j].id {
      if j == |st.rows| {
        assert rows[i] in st.rows;
      } else {
        assert rows[i] == st.rows[i] && rows[j] == st.rows[j];
      }
    }
  }

  /** The columns an update writes: `None` leaves a column as it is. */
  datatype Patch = Patch(completed: Option<bool>, title: Option<string>)

  function ApplyPatch(t: Task, p: Patch): Task {
    t.(completed := if p.completed.Some? then p.completed.value else t.completed,
       title := if p.title.Some? then p.title.value else t.title)
  }

  /** `UPDATE tasks SET ... WHERE id = key`: every matching row is patched;
      no row moves, loses its id or timestamp, and the others are untouched. */
  function PatchRows(rows: seq<Task>, key: int, p: Patch): (r: seq<Task>)
    ensures |r| == |rows|
    ensures forall i :: 0 <= i < |rows| ==> r[i].id == rows[i].id && r[i].createdAt == rows[i].createdAt
    ensures forall i :: 0 <= i < |rows| && rows[i].id != key ==> r[i] == rows[i]
    ensures !HasId(rows, key) ==> r == rows
  {
    seq(|rows|, i requires 0 <= i < |rows| => if rows[i].id == key then ApplyPatch(rows[i], p) else rows[i])
  }

  /** Patching keeps every id and timestamp, so the table stays valid when a
      written title fits the column. */
  lemma PatchKeepsValid(st: Store, key: int, p: Patch)
    requires Valid(st)
    requires p.title.Some? ==> 1 <= |p.title.value| <= MAX_TITLE
    ensures Valid(Store(PatchRows(st.rows, key, p), st.nextId))
  {
    var rows := PatchRows(st.rows, key, p);
    forall t | t in rows ensures 1 <= t.id < st.nextId && 1 <= |t.title| <= MAX_TITLE {
      var i :| 0 <= i < |rows| && rows[i] == t;
      assert st.rows[i] in st.rows;
    }
    forall i, j | 0 <= i < j < |rows| ensures rows[i].id != rows[j].id {
      assert rows[i].id == st.rows[i].id && rows[j].id == st.rows[j].id;
    }
  }

  /** `updateTask`: the branch on which of `completed` (any value but
      `undefined`) and `title` (truthy) are present picks the columns written;
      neither is a 400. A value the column cannot take, a title the column
      refuses (one holding U+0000, or one with more than spaces past the
      255th character), or an `:id` that is not an integer, fails the query
      before any row is read: the parameters are constants of the plan, so
      their casts are evaluated while planning. Otherwise no matching row is
      a 404, and a match answers 200 with the updated row, its title cut to
      255 characters when the excess is all spaces. */
  function UpdateTask(st: Store, id: IdParam, completed: Json, title: Json): (s: Step)
    ensures s.outcome.Reply? ==> s.outcome.status in {200, 400, 404}
    ensures !(s.outcome.Reply? && s.outcome.status == 200) ==> s.store == st
    ensures |s.store.rows| == |st.rows| && s.store.nextId == st.nextId
    ensures forall i :: 0 <= i < |st.rows| ==>
              s.store.rows[i].id == st.rows[i].id && s.store.rows[i].createdAt == st.rows[i].createdAt
    ensures s.outcome.Reply? && s.outcome.status == 200 ==>
              && id.Numeric? && FirstIndexOf(st.rows, id.n).Some?
              && s.outcome.body == OneTask(s.store.rows[FirstIndexOf(st.rows, id.n).value])
    ensures Valid(st) ==> Valid(s.store)
  {
    var setCompleted := completed != Undefined;
    var setTitle := Truthy(title);
    if !setCompleted && !setTitle then Step(Reply(400, ErrorBody(FIELD_REQUIRED)), st)
    else if (setCompleted && !completed.Bool?) || (setTitle && !title.Str?) || Key(id).None? then
      Step(Fault, st)
    else if setTitle && TitleColumn(title.s).None? then Step(Fault, st)
    else
      var key := Key(id).value;
      match FirstIndexOf(st.rows, key)
      case None => Step(Reply(404, ErrorBody(NOT_FOUND)), st)
      case Some(i) =>
        var p := Patch(if setCompleted then Some(completed.b) else None,
                       if setTitle then TitleColumn(title.s) else None);
        var rows := PatchRows(st.rows, key, p);
        assert Valid(st) ==> Valid(Store(rows, st.nextId)) by {
          if Valid(st) { PatchKeepsValid(st, key, p); }
        }
        Step(Reply(200, OneTask(rows[i])), Store(rows, st.nextId))
  }

  /** `deleteTask`: removes every row with the key and answers 204, or 404 when
      there is none; an `:id` that is not an integer fails the query. */
  function DeleteTask(st: Store, id: IdParam): (s: Step)
    ensures s.outcome.Reply? ==> s.outcome.status in {204, 404}
    ensures !(s.outcome.Reply? && s.outcome.status == 204) ==> s.store == st
    ensures s.store.nextId == st.nextId
    ensures Valid(st) ==> Valid(s.store)
  {
    match Key(id)
    case None => Step(Fault, st)
    case Some(key) =>
      if !HasId(st.rows, key) then Step(Reply(404, ErrorBody(NOT_FOUND)), st)
      else
        assert DistinctIds(st.rows) ==> DistinctIds(WithoutId(st.rows, key)) by {
          if DistinctIds(st.rows) { WithoutIdDistinct(st.rows, key); }
        }
        Step(Reply(204, NoContent), Store(WithoutId(st.rows, key), st.nextId))
  }

  // ---------------------------------------------------------------- list

  /** Ties aside, the listing order is determined: when no two rows share a
      timestamp, any newest-first arrangement of the same rows is the listing. */
  lemma {:induction false} NewestFirstUnique(a: seq<Task>, b: seq<Task>)
    requires multiset(a) == multiset(b)
    requires NewestFirst(a) && NewestFirst(b)
    requires DistinctTimestamps(a)
    ensures a == b
    decreases |a|
  {
    assert |a| == |multiset(a)| == |multiset(b)| == |b|;
    if a != [] {
      HeadsAgree(a, b);
      MultisetHead(a);
      MultisetHead(b);
      Cancel(multiset(a[1..]), multiset(b[1..]), a[0]);
      TailFacts(a);
      TailFacts(b);
      NewestFirstUnique(a[1..], b[1..]);
      assert a == [a[0]] + a[1..] && b == [b[0]] + b[1..];
    }
  }

  /** Two newest-first arrangements of the same rows, without ties, start
      with the same row. */
  lemma HeadsAgree(a: seq<Task>, b: seq<Task>)
    requires a != [] && b != []
    requires multiset(a) == multiset(b)
    requires NewestFirst(a) && NewestFirst(b)
    requires DistinctTimestamps(a)
    ensures a[0] == b[0]
  {
    assert a[0] in multiset(b) && b[0] in multiset(a);
    HeadIsNewest(b, a[0]);
    HeadIsNewest(a, b[0]);
    SameTimestampIsHead(a, b[0]);
  }

  /** The head of a newest-first list is at least as new as any of its rows. */
  lemma HeadIsNewest(rows: seq<Task>, t: Task)
    requires NewestFirst(rows) && t in rows
    ensures rows[0].createdAt >= t.createdAt
  {
    var k :| 0 <= k < |rows| && rows[k] == t;
    if k > 0 {
      assert rows[0].createdAt >= rows[k].createdAt;
    }
  }

  /** Without ties, the only row sharing the head's timestamp is the head. */
  lemma SameTimestampIsHead(rows: seq<Task>, t: Task)
    requires DistinctTimestamps(rows) && t in rows && t.createdAt == rows[0].createdAt
    ensures t == rows[0]
  {
    assert forall m :: 0 < m < |rows| ==> rows[m].createdAt != rows[0].createdAt;
  }

  predicate DistinctTimestamps(rows: seq<Task>) {
    forall i, j :: 0 <= i < j < |rows| ==> rows[i].createdAt != rows[j].createdAt
  }

  lemma TailFacts(rows: seq<Task>)
    requires rows != []
    ensures NewestFirst(rows) ==> NewestFirst(rows[1..])
    ensures DistinctTimestamps(rows) ==> DistinctTimestamps(rows[1..])
  {
    var tl := rows[1..];
    assert forall k :: 0 <= k < |tl| ==> tl[k] == rows[k + 1];
  }

  /** With distinct timestamps the listing is exactly the newest-first
      arrangement of the table: created at t1 < t2 < t3, listed t3, t2, t1. */
  lemma ListOrder(st: Store, expected: seq<Task>)
    requires DistinctTimestamps(st.rows)
    requires multiset(expected) == multiset(st.rows) && NewestFirst(expected)
    ensures GetAllTasks(st).outcome == Reply(200, TaskList(expected))
  {
    var listed := OrderByCreatedAtDesc(st.rows);
    forall i, j | 0 <= i < j < |listed| ensures listed[i].createdAt != listed[j].createdAt {
      DistinctTimestampsPermute(st.rows, listed, i, j);
    }
    NewestFirstUnique(listed, expected);
  }

  lemma DistinctTimestampsPermute(rows: seq<Task>, p: seq<Task>, i: nat, j: nat)
    requires DistinctTimestamps(rows)
    requires multiset(p) == multiset(rows)
    requires i < j < |p|
    ensures p[i].createdAt != p[j].createdAt
  {
    assert p == p[..j] + [p[j]] + p[j + 1..];
    assert p[..j] == p[..i] + [p[i]] + p[i + 1..j];
    assert multiset{p[i], p[j]} <= multiset(p);
    if p[i].createdAt == p[j].createdAt {
      assert p[i] in multiset(rows) && p[j] in multiset(rows);
      var a :| 0 <= a < |rows| && rows[a] == p[i];
      var b :| 0 <= b < |rows| && rows[b] == p[j];
      if a == b {
        assert p[i] == p[j];
        assert multiset(p)[p[i]] >= 2;
        assert multiset(rows)[p[i]] >= 2;
        MultiplicityTwo(rows, p[i]);
      }
    }
  }

  /** A row that occurs twice in a table sits at two indices. */
  lemma MultiplicityTwo(rows: seq<Task>, t: Task)
    requires multiset(rows)[t] >= 2
    ensures exists a, b :: 0 <= a < b < |rows| && rows[a] == t && rows[b] == t
  {
    var a :| 0 <= a < |rows| && rows[a] == t;
    assert rows == rows[..a] + [t] + rows[a + 1..];
    assert multiset(rows[..a] + rows[a + 1..])[t] >= 1;
    assert t in rows[..a] + rows[a + 1..];
    var c :| 0 <= c < |rows[..a] + rows[a + 1..]| && (rows[..a] + rows[a + 1..])[c] == t;
    if c < a {
      assert rows[c] == t;
    } else {
      assert rows[c + 1] == t;
    }
  }

  // -------------------------------------------------------------- create

  /** A missing, null, false or zero title, or one that is empty or
      whitespace-only after trimming, is a 400 and inserts nothing. */
  lemma CreateRejectsBlankTitle(st: Store, title: Json, now: nat)
    requires title.Undefined? || title.Null? || (title.Str? && AllWhitespace(title.s))
    ensures CreateTask(st, title, now) == Step(Reply(400, ErrorBody(TITLE_REQUIRED)), st)
  {
  }

  /** A successful create stores the trimmed title, not completed, with the
      clock's timestamp and an id no row had, appends exactly that row, and
      answers 201 with it. */
  lemma CreateStoresTrimmedTitle(st: Store, title: string, now: nat)
    requires Valid(st)
    requires !AllWhitespace(title) && |Trim(title)| <= MAX_TITLE && st.nextId <= INT_MAX
    requires '\0' !in title
    ensures var s := CreateTask(st, Str(title), now);
            var row := Task(st.nextId, Trim(title), false, now);
            && s.outcome == Reply(201, OneTask(row))
            && s.store.rows == st.rows + [row]
            && !HasId(st.rows, row.id)
            && s.store.nextId > row.id
  {
    TrimEmptyIff(title);
    TrimWithin(title);
    TitleColumnOfTrimmed(Trim(title));
  }

  /** The 255-character limit belongs to the column, not the controller: a
      longer trimmed title passes validation and then fails the insert. */
  lemma CreateTooLongFaults(st: Store, title: string, now: nat)
    requires |Trim(title)| > MAX_TITLE
    ensures CreateTask(st, Str(title), now) == Step(Fault, st)
  {
    TrimEmptyIff(title);
    TitleColumnOfTrimmed(Trim(title));
  }

  /** Postgres text cannot hold U+0000: a title containing it fails the
      insert or the update, whatever surrounds it. */
  lemma NulTitleFaults(st: Store, key: int, a: string, b: string, completed: Json, now: nat)
    requires INT_MIN <= key <= INT_MAX && (completed.Undefined? || completed.Bool?)
    ensures CreateTask(st, Str(a + ['\0'] + b), now) == Step(Fault, st)
    ensures UpdateTask(st, Numeric(key), completed, Str(a + ['\0'] + b)) == Step(Fault, st)
  {
    var t := a + ['\0'] + b;
    assert t[|a|] == '\0';
    assert !IsWhitespace('\0');
    TrimKeeps(t, |a|);
    TrimEmptyIff(t);
  }

  // -------------------------------------------------------------- update

  /** With `completed` undefined and no truthy title, update is a 400 and
      changes nothing, whatever the id. */
  lemma UpdateNeedsAField(st: Store, id: IdParam, title: Json)
    requires !Truthy(title)
    ensures UpdateTask(st, id, Undefined, title) == Step(Reply(400, ErrorBody(FIELD_REQUIRED)), st)
  {
  }

  /** With only `completed`, the matching row gets the new flag and keeps its
      title; every other row is unchanged. */
  lemma UpdateCompletedOnly(st: Store, key: int, b: bool, title: Json)
    requires !Truthy(title) && INT_MIN <= key <= INT_MAX && HasId(st.rows, key)
    ensures var s := UpdateTask(st, Numeric(key), Bool(b), title);
            var k := FirstIndexOf(st.rows, key).value;
            && s.outcome == Reply(200, OneTask(st.rows[k].(completed := b)))
            && forall i :: 0 <= i < |st.rows| ==>
                 s.store.rows[i] == (if st.rows[i].id == key then st.rows[i].(completed := b) else st.rows[i])
  {
  }

  /** With a non-empty string title that fits the column and `completed`
      undefined, the title is stored as sent, untrimmed, and the flag is kept;
      so a whitespace-only title, which create refuses, is accepted here. */
  lemma UpdateTitleVerbatim(st: Store, key: int, title: string)
    requires title != "" && |title| <= MAX_TITLE && '\0' !in title
    requires INT_MIN <= key <= INT_MAX && HasId(st.rows, key)
    ensures var s := UpdateTask(st, Numeric(key), Undefined, Str(title));
            var k := FirstIndexOf(st.rows, key).value;
            && s.outcome == Reply(200, OneTask(st.rows[k].(title := title)))
            && forall i :: 0 <= i < |st.rows| ==>
                 s.store.rows[i] == (if st.rows[i].id == key then st.rows[i].(title := title) else st.rows[i])
  {
  }

  /** Concretely: a title of two spaces is refused by create but stored by update. */
  lemma BlankTitleCreateVersusUpdate(st: Store, key: int, now: nat)
    requires INT_MIN <= key <= INT_MAX && HasId(st.rows, key)
    ensures CreateTask(st, Str("  "), now).outcome == Reply(400, ErrorBody(TITLE_REQUIRED))
    ensures UpdateTask(st, Numeric(key), Undefined, Str("  ")).outcome.Reply?
    ensures UpdateTask(st, Numeric(key), Undefined, Str("  ")).outcome.status == 200
  {
    assert AllWhitespace("  ");
    UpdateTitleVerbatim(st, key, "  ");
  }

  /** With both fields, both columns are written in one statement. */
  lemma UpdateBoth(st: Store, key: int, b: bool, title: string)
    requires title != "" && |title| <= MAX_TITLE && '\0' !in title
    requires INT_MIN <= key <= INT_MAX && HasId(st.rows, key)
    ensures var s := UpdateTask(st, Numeric(key), Bool(b), Str(title));
            var k := FirstIndexOf(st.rows, key).value;
            && s.outcome == Reply(200, OneTask(st.rows[k].(completed := b, title := title)))
            && forall i :: 0 <= i < |st.rows| ==>
                 s.store.rows[i] == (if st.rows[i].id == key then st.rows[i].(completed := b, title := title) else st.rows[i])
  {
  }

  /** Updating an id no row has is a 404 and changes nothing, once the
      request's values pass their columns. */
  lemma UpdateMissingIsNotFound(st: Store, key: int, completed: Json, title: Json)
    requires INT_MIN <= key <= INT_MAX && !HasId(st.rows, key)
    requires completed.Undefined? || completed.Bool?
    requires !Truthy(title) || (title.Str? && TitleColumn(title.s).Some?)
    requires completed.Bool? || Truthy(title)
    ensures UpdateTask(st, Numeric(key), completed, title) == Step(Reply(404, ErrorBody(NOT_FOUND)), st)
  {
  }

  /** A title longer than the column whose excess is all spaces is cut to
      255 characters and stored; the flag is kept. */
  lemma UpdateCutsTrailingSpaces(st: Store, key: int, title: string)
    requires |title| > MAX_TITLE && SpacesFrom(title, MAX_TITLE) && '\0' !in title
    requires INT_MIN <= key <= INT_MAX && HasId(st.rows, key)
    ensures var s := UpdateTask(st, Numeric(key), Undefined, Str(title));
            var k := FirstIndexOf(st.rows, key).value;
            && s.outcome == Reply(200, OneTask(st.rows[k].(title := title[..MAX_TITLE])))
            && forall i :: 0 <= i < |st.rows| ==>
                 s.store.rows[i] == (if st.rows[i].id == key then st.rows[i].(title := title[..MAX_TITLE]) else st.rows[i])
  {
  }

  /** A title with any character other than a space past the 255th fails the
      update and changes nothing, whether or not a row has the id. */
  lemma UpdateOverlongFaults(st: Store, key: int, title: string, j: nat)
    requires MAX_TITLE <= j < |title| && title[j] != ' '
    requires INT_MIN <= key <= INT_MAX
    ensures UpdateTask(st, Numeric(key), Undefined, Str(title)) == Step(Fault, st)
  {
  }

  // ------------------------------------------------------------------ ids

  /** An `:id` that is not an integer in the column's range fails the query,
      so it is a storage fault and never a 404, on update and on delete. */
  lemma MalformedIdFaults(st: Store, id: IdParam, completed: Json, title: Json)
    requires id.NotNumeric? || id.n < INT_MIN || id.n > INT_MAX
    requires completed != Undefined || Truthy(title)
    ensures DeleteTask(st, id) == Step(Fault, st)
    ensures UpdateTask(st, id, completed, title) == Step(Fault, st)
  {
  }

  // -------------------------------------------------------------- delete

  /** Deleting an id no row has is a 404 and changes nothing. */
  lemma DeleteMissingIsNotFound(st: Store, key: int)
    requires INT_MIN <= key <= INT_MAX && !HasId(st.rows, key)
    ensures DeleteTask(st, Numeric(key)) == Step(Reply(404, ErrorBody(NOT_FOUND)), st)
  {
  }

  /** A successful delete answers 204 with no body and removes exactly the row
      with that id: the other rows stay, in their order. */
  lemma DeleteRemovesExactlyThatRow(st: Store, k: nat)
    requires Valid(st) && k < |st.rows|
    ensures var s := DeleteTask(st, Numeric(st.rows[k].id));
            && s.outcome == Reply(204, NoContent)
            && s.store.rows == st.rows[..k] + st.rows[k + 1..]
  {
    assert HasId(st.rows, st.rows[k].id);
    WithoutIdOfUnique(st.rows, st.rows[k].id, k);
  }

  /** Deleting the same id twice: the second call is a 404. */
  lemma DeleteTwice(st: Store, key: int)
    requires INT_MIN <= key <= INT_MAX && HasId(st.rows, key)
    ensures DeleteTask(st, Numeric(key)).outcome == Reply(204, NoContent)
    ensures DeleteTask(DeleteTask(st, Numeric(key)).store, Numeric(key)).outcome
            == Reply(404, ErrorBody(NOT_FOUND))
  {
  }

  // ------------------------------------------------------------ scenario

  /** One task through its whole life on an empty table: created with id 1 and
      not completed, listed alone, completed, deleted, and the list is empty. */
  lemma Lifecycle(title: string, now: nat)
    requires title != "" && Trimmed(title) && |title| <= MAX_TITLE && '\0' !in title
    ensures var row := Task(1, title, false, now);
            var s1 := CreateTask(Store([], 1), Str(title), now);
            var s2 := UpdateTask(s1.store, Numeric(1), Bool(true), Undefined);
            var s3 := DeleteTask(s2.store, Numeric(1));
            && s1.outcome == Reply(201, OneTask(row))
            && GetAllTasks(s1.store).outcome == Reply(200, TaskList([row]))
            && s2.outcome == Reply(200, OneTask(row.(completed := true)))
            && s3.outcome == Reply(204, NoContent)
            && GetAllTasks(s3.store).outcome == Reply(200, TaskList([]))
  {
    TrimOfTrimmed(title);
    TrimEmptyIff(title);
    TitleColumnOfTrimmed(title);
    var row := Task(1, title, false, now);
    var s1 := CreateTask(Store([], 1), Str(title), now);
    assert s1.store == Store([row], 2);
    assert OrderByCreatedAtDesc([row]) == [row];
    var s2 := UpdateTask(s1.store, Numeric(1), Bool(true), Undefined);
    assert FirstIndexOf([row], 1) == Some(0);
    assert s2.store.rows == [row.(completed := true)];
    assert HasId(s2.store.rows, 1);
    assert WithoutId(s2.store.rows, 1) == [];
  }
}
