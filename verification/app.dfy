/** The view-model of frontend/src/app.js: the list of tasks on screen and the id
    of the task being edited, with one transition per user action. Whatever the
    browser or the server decides is a parameter: how the API call settled, the
    answer to `confirm()`, and the text in the edit box. Each transition also
    reports the API request it issued, if any, and the notice `showError` displays. */
module App {
  import opened Text
  import opened Tasks
  import Stats

  /** How an API call settled: the parsed body, or the message of the error it threw. */
  datatype ApiResult<T> = Ok(value: T) | Failed(message: string)

  /** The requests of frontend/src/services/api.js. */
  datatype Request =
    | ListRequest
    | CreateRequest(title: string)
    | UpdateRequest(id: int, updates: Updates)
    | DeleteRequest(id: int)

  /** The `updates` object sent with an update: the fields present. */
  datatype Updates = Updates(completed: Option<bool>, title: Option<string>)

  datatype State = State(tasks: seq<Task>, editingId: Option<int>)

  /** The state afterwards, the request issued (if any) and the notice shown (if any). */
  datatype Transition = Transition(state: State, request: Option<Request>, notice: Option<string>)

  /** `handleAddTask` rethrows instead of showing a notice; its caller, the
      add form, classifies the error. */
  datatype AddTransition = AddTransition(state: State, request: Request, thrown: Option<string>)

  const LOAD_ERROR := "❌ Error al cargar tareas"
  const UPDATE_ERROR := "❌ Error al actualizar tarea"
  const EMPTY_TITLE := "📝 El título no puede estar vacío"
  const SAVE_ERROR := "❌ Error al guardar cambios"
  const DELETE_ERROR := "❌ Error al eliminar tarea"

  /** `tasks.map(t => t.id === id ? updated : t)`: the same length, every
      entry with the id becomes `updated`, and the others stay in place. */
  function ReplaceById(ts: seq<Task>, id: int, updated: Task): (r: seq<Task>)
    ensures |r| == |ts|
    ensures forall i :: 0 <= i < |ts| && ts[i].id != id ==> r[i] == ts[i]
    ensures forall t :: t in r ==> t == updated || (t in ts && t.id != id)
    ensures HasId(ts, id) ==> updated in r
    ensures !HasId(ts, id) ==> r == ts
  {
    var r := seq(|ts|, i requires 0 <= i < |ts| => if ts[i].id == id then updated else ts[i]);
    assert forall t :: t in r ==> t == updated || (t in ts && t.id != id) by {
      forall t | t in r ensures t == updated || (t in ts && t.id != id) {
        var i :| 0 <= i < |r| && r[i] == t;
      }
    }
    assert HasId(ts, id) ==> updated in r by {
      if HasId(ts, id) {
        var i :| 0 <= i < |ts| && ts[i].id == id;
        assert r[i] == updated;
      }
    }
    r
  }

  /** `loadTasks`: the list is replaced by the server's; on failure it stays. */
  function LoadTasks(st: State, r: ApiResult<seq<Task>>): (t: Transition)
    ensures t.request == Some(ListRequest) && t.state.editingId == st.editingId
    ensures r.Failed? ==> t.state == st && t.notice == Some(LOAD_ERROR)
    ensures r.Ok? ==> t.state.tasks == r.value && t.notice.None?
  {
    match r
    case Ok(ts) => Transition(st.(tasks := ts), Some(ListRequest), None)
    case Failed(_) => Transition(st, Some(ListRequest), Some(LOAD_ERROR))
  }

  /** `handleAddTask(title)`: creates the task and puts the server's row in
      front of the list, without re-sorting; a failure leaves the list alone
      and is rethrown. */
  function HandleAddTask(st: State, title: string, r: ApiResult<Task>): (t: AddTransition)
    ensures t.request == CreateRequest(title)
    ensures t.state.editingId == st.editingId
    ensures r.Ok? ==> t.state.tasks == [r.value] + st.tasks && t.thrown.None?
    ensures r.Failed? ==> t.state == st && t.thrown == Some(r.message)
  {
    match r
    case Ok(task) => AddTransition(st.(tasks := [task] + st.tasks), CreateRequest(title), None)
    case Failed(m) => AddTransition(st, CreateRequest(title), Some(m))
  }

  /** `toggleTask(id)`: an id not on screen does nothing; otherwise it asks the
      server to flip the first such task's flag and, on success, puts the
      server's row in place of every entry with the id. */
  function ToggleTask(st: State, id: int, r: ApiResult<Task>): (t: Transition)
    ensures !HasId(st.tasks, id) ==> t == Transition(st, None, None)
    ensures t.state.editingId == st.editingId
    ensures r.Failed? ==> t.state == st
    ensures HasId(st.tasks, id) && r.Failed? ==> t.notice == Some(UPDATE_ERROR)
  {
    match FirstIndexOf(st.tasks, id)
    case None => Transition(st, None, None)
    case Some(i) =>
      var req := UpdateRequest(id, Updates(Some(!st.tasks[i].completed), None));
      match r
      case Ok(updated) => Transition(st.(tasks := ReplaceById(st.tasks, id, updated)), Some(req), None)
      case Failed(_) => Transition(st, Some(req), Some(UPDATE_ERROR))
  }

  /** `startEdit(id)`: only the edited id changes. */
  function StartEdit(st: State, id: int): (s: State)
    ensures s.tasks == st.tasks && s.editingId == Some(id)
  {
    st.(editingId := Some(id))
  }

  /** `saveEdit(id)`: the edit box's text, trimmed, becomes the title; a
      missing box or a blank text shows a notice and asks nothing of the
      server. On success the row is replaced and editing ends; on failure
      nothing changes. */
  function SaveEdit(st: State, id: int, editText: Option<string>, r: ApiResult<Task>): (t: Transition)
    ensures editText.None? || AllWhitespace(editText.value) ==> t == Transition(st, None, Some(EMPTY_TITLE))
    ensures r.Failed? ==> t.state == st
    ensures t.request.Some? ==> editText.Some? && t.request.value == UpdateRequest(id, Updates(None, Some(Trim(editText.value))))
  {
    if editText.None? then Transition(st, None, Some(EMPTY_TITLE))
    else
      var newTitle := Trim(editText.value);
      TrimEmptyIff(editText.value);
      if newTitle == "" then Transition(st, None, Some(EMPTY_TITLE))
      else
        var req := UpdateRequest(id, Updates(None, Some(newTitle)));
        match r
        case Ok(updated) => Transition(State(ReplaceById(st.tasks, id, updated), None), Some(req), None)
        case Failed(_) => Transition(st, Some(req), Some(SAVE_ERROR))
  }

  /** `cancelEdit(id)`: editing ends, whichever id is passed. */
  function CancelEdit(st: State, id: int): (s: State)
    ensures s.tasks == st.tasks && s.editingId.None?
  {
    st.(editingId := None)
  }

  /** `deleteTask(id)`: asks for confirmation first; a declined confirmation
      does nothing, a failed request changes nothing, a successful one drops
      the entries with the id. */
  function DeleteTask(st: State, id: int, confirmed: bool, r: ApiResult<()>): (t: Transition)
    ensures !confirmed ==> t == Transition(st, None, None)
    ensures confirmed ==> t.request == Some(DeleteRequest(id))
    ensures t.state.editingId == st.editingId
    ensures r.Failed? ==> t.state == st
    ensures confirmed && r.Failed? ==> t.notice == Some(DELETE_ERROR)
    ensures confirmed && r.Ok? ==> t.state.tasks == WithoutId(st.tasks, id) && t.notice.None?
  {
    if !confirmed then Transition(st, None, None)
    else
      match r
      case Ok(_) => Transition(st.(tasks := WithoutId(st.tasks, id)), Some(DeleteRequest(id)), None)
      case Failed(_) => Transition(st, Some(DeleteRequest(id)), Some(DELETE_ERROR))
  }

  // ----------------------------------------------------------- properties

  /** Toggling sends the inverse of the flag of the first task with the id. */
  lemma ToggleRequestsInverse(st: State, id: int, r: ApiResult<Task>, i: nat)
    requires i < |st.tasks| && st.tasks[i].id == id
    requires forall j :: 0 <= j < i ==> st.tasks[j].id != id
    ensures ToggleTask(st, id, r).request == Some(UpdateRequest(id, Updates(Some(!st.tasks[i].completed), None)))
  {
    assert HasId(st.tasks, id);
  }

  /** When the server answers with a row carrying the same id, the entries
      without the id are the same sequence before and after the replacement. */
  lemma {:induction false} ReplaceByIdKeepsOthers(ts: seq<Task>, id: int, updated: Task)
    requires updated.id == id
    ensures WithoutId(ReplaceById(ts, id, updated), id) == WithoutId(ts, id)
  {
    if ts != [] {
      var r := ReplaceById(ts, id, updated);
      assert r == [r[0]] + ReplaceById(ts[1..], id, updated);
      ReplaceByIdKeepsOthers(ts[1..], id, updated);
      WithoutIdAppend([r[0]], ReplaceById(ts[1..], id, updated), id);
      WithoutIdAppend([ts[0]], ts[1..], id);
      assert ts == [ts[0]] + ts[1..];
    }
  }

  /** A successful toggle replaces every entry with the id by the server's row
      and leaves the others and the length alone. */
  lemma ToggleSuccess(st: State, id: int, updated: Task)
    requires HasId(st.tasks, id)
    ensures var t := ToggleTask(st, id, Ok(updated));
            && |t.state.tasks| == |st.tasks|
            && (forall i :: 0 <= i < |st.tasks| ==>
                  t.state.tasks[i] == if st.tasks[i].id == id then updated else st.tasks[i])
            && t.notice.None?
  {
  }

  /** A successful save replaces the entries like a toggle does and ends editing. */
  lemma SaveSuccess(st: State, id: int, text: string, updated: Task)
    requires !AllWhitespace(text)
    ensures var t := SaveEdit(st, id, Some(text), Ok(updated));
            && t.request == Some(UpdateRequest(id, Updates(None, Some(Trim(text)))))
            && t.state.editingId.None?
            && |t.state.tasks| == |st.tasks|
            && (forall i :: 0 <= i < |st.tasks| ==>
                  t.state.tasks[i] == if st.tasks[i].id == id then updated else st.tasks[i])
  {
    TrimEmptyIff(text);
  }

  /** A failed save keeps both the list and the edited id, with a notice. */
  lemma SaveFailure(st: State, id: int, text: string, message: string)
    requires !AllWhitespace(text)
    ensures var t := SaveEdit(st, id, Some(text), Failed(message));
            t.state == st && t.notice == Some(SAVE_ERROR) && t.request.Some?
  {
    TrimEmptyIff(text);
  }

  /** `cancelEdit` ignores its argument. */
  lemma CancelIgnoresId(st: State, a: int, b: int)
    ensures CancelEdit(st, a) == CancelEdit(st, b)
    ensures CancelEdit(StartEdit(st, a), b) == st.(editingId := None)
  {
  }

  /** A successful delete removes exactly the entries with the id, from any
      list: what is left holds every other entry and none with the id, and the
      entries on either side of a removed one keep their order. */
  lemma DeleteSuccess(st: State, id: int, k: nat)
    requires k < |st.tasks| && st.tasks[k].id == id
    ensures var t := DeleteTask(st, id, true, Ok(()));
            && t.notice.None?
            && (forall x :: x in t.state.tasks <==> x in st.tasks && x.id != id)
            && t.state.tasks == WithoutId(st.tasks[..k], id) + WithoutId(st.tasks[k + 1..], id)
  {
    var before, rest := st.tasks[..k], st.tasks[k + 1..];
    assert st.tasks == before + ([st.tasks[k]] + rest);
    WithoutIdAppend(before, [st.tasks[k]] + rest, id);
    WithoutIdAppend([st.tasks[k]], rest, id);
    assert WithoutId([st.tasks[k]], id) == [];
  }

  /** When ids are distinct, that is the one entry at its index. */
  lemma DeleteSuccessDistinct(st: State, id: int, k: nat)
    requires k < |st.tasks| && st.tasks[k].id == id && DistinctIds(st.tasks)
    ensures DeleteTask(st, id, true, Ok(())).state.tasks == st.tasks[..k] + st.tasks[k + 1..]
  {
    WithoutIdOfUnique(st.tasks, id, k);
  }

  // ---------------------------------------------------------------- stats

  /** After a successful add the counters grow by one task: the total by one,
      and the completed or the pending count by one according to the new row. */
  lemma AddUpdatesCounts(st: State, title: string, task: Task)
    ensures var after := Stats.Update(HandleAddTask(st, title, Ok(task)).state.tasks);
            var before := Stats.Update(st.tasks);
            && after.total == before.total + 1
            && after.completed == before.completed + (if task.completed then 1 else 0)
            && after.pending == before.pending + (if task.completed then 0 else 1)
  {
    Stats.CompletedAppend([task], st.tasks);
  }

  /** When ids are distinct and the server echoes the row with its flag
      flipped, a toggle moves exactly one task between completed and pending. */
  lemma ToggleMovesOneTask(st: State, k: nat)
    requires k < |st.tasks| && DistinctIds(st.tasks)
    ensures var prev := st.tasks[k];
            var after := Stats.Update(ToggleTask(st, prev.id, Ok(prev.(completed := !prev.completed))).state.tasks);
            var before := Stats.Update(st.tasks);
            && after.total == before.total
            && after.completed == before.completed + (if prev.completed then -1 else 1)
  {
    var prev := st.tasks[k];
    var updated := prev.(completed := !prev.completed);
    assert HasId(st.tasks, prev.id);
    var ts := ReplaceById(st.tasks, prev.id, updated);
    assert ts == st.tasks[..k] + [updated] + st.tasks[k + 1..];
    assert st.tasks == st.tasks[..k] + [prev] + st.tasks[k + 1..];
    Stats.CompletedAppend(st.tasks[..k] + [updated], st.tasks[k + 1..]);
    Stats.CompletedAppend(st.tasks[..k], [updated]);
    Stats.CompletedAppend(st.tasks[..k] + [prev], st.tasks[k + 1..]);
    Stats.CompletedAppend(st.tasks[..k], [prev]);
  }
}
