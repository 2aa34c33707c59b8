/** The five actions of `TaskController` as transitions over a value of the task
    table: what each answers and what table it leaves behind. `DbSet.Find`, `Add`
    and `Remove` become map lookup, insert and remove; each action is one atomic step. */
module Actions {
  import opened Model

  const GetNotFoundMessage := "Task was not found."
  const IdMismatchMessage := "Id does not match task to update."
  const UpdateNotFoundMessage := "Task to update was not found."
  const UpdatedMessage := "Task Updated Successful."
  const DeleteNotFoundMessage := "Task to delete was not found."
  const DeletedMessage := "Task Deleted Successfully."
  const InternalErrorMessage := "An unexpected error occurred. Please try again later."

  /** The action results the controller returns. */
  datatype Response =
    | OkList(items: seq<TaskItem>)          // 200 with the array of tasks
    | NoContent                             // 204
    | OkTask(task: TaskItem)                // 200 with one task
    | Created(id: int, task: TaskItem)      // 201, Location names GetTask(id)
    | OkMessage(message: string)            // 200 with a text acknowledgement
    | ValidationProblem(fields: set<Field>) // 400 from ModelState
    | BadRequest(message: string)           // 400
    | NotFound(message: string)             // 404
    | ServerError(message: string)          // 500

  /** The task table: rows by key, and the next key the database hands out.
      The table is SQLite with an autoincrementing key, so generated keys lie
      above every key ever used. */
  datatype Store = Store(tasks: map<int, TaskItem>, nextId: int) {
    ghost predicate Valid() {
      && 1 <= nextId
      && forall k :: k in tasks ==>
           k != 0 && k < nextId && tasks[k].id == k && tasks[k].Valid()
    }
  }

  /** The table after an action, and the action's result. */
  datatype Step = Step(store: Store, response: Response)

  /** The database starts with an empty table (`EnsureCreated`). */
  const Empty := Store(map[], 1)

  /** `DbSet.Find`: the row with that key, if any. */
  function Find(tasks: map<int, TaskItem>, id: int): Option<TaskItem> {
    if id in tasks then Some(tasks[id]) else None
  }

  /** The id a body carries, 0 when it carries none. */
  function BodyId(body: TaskBody): int {
    body.id.GetOr(0)
  }

  /** `GetTasks` answers with the stored tasks in some order: each once, each
      stored under its own id, none missing. */
  ghost predicate Lists(items: seq<TaskItem>, tasks: map<int, TaskItem>) {
    && |items| == |tasks|
    && (forall i :: 0 <= i < |items| ==> items[i].id in tasks && tasks[items[i].id] == items[i])
    && (forall i, j :: 0 <= i < j < |items| ==> items[i].id != items[j].id)
    && (forall k :: k in tasks ==> exists i :: 0 <= i < |items| && items[i] == tasks[k])
  }

  /** GET /api/task/{id}. */
  function Get(s: Store, id: int): (r: Response)
    requires s.Valid()
    ensures r.OkTask? <==> id in s.tasks
    ensures r.OkTask? ==> r.task == s.tasks[id] && r.task.id == id
    ensures !r.OkTask? ==> r == NotFound(GetNotFoundMessage)
  {
    match Find(s.tasks, id)
    case None => NotFound(GetNotFoundMessage)
    case Some(task) => OkTask(task)
  }

  /** POST /api/task. A body that fails validation is refused and nothing is
      added. Otherwise the bound item is added under a key: one the database
      generates when the body carries no id (or 0), else the body's own id,
      which fails as a duplicate key (500) when already taken. */
  function Create(s: Store, body: TaskBody, now: Clock): (r: Step)
    requires s.Valid()
    ensures r.store.Valid()
    ensures Errors(body) != {} <==> r.response.ValidationProblem?
    ensures r.response.ValidationProblem? ==> r.response.fields == Errors(body)
    ensures r.response.ServerError? <==> Errors(body) == {} && BodyId(body) in s.tasks
    ensures r.response.Created? <==> Errors(body) == {} && BodyId(body) !in s.tasks
    ensures !r.response.Created? ==> r.store == s
    ensures r.response.Created? ==>
      var id := r.response.id;
      && id !in s.tasks
      && (BodyId(body) == 0 ==> id == s.nextId)
      && (BodyId(body) != 0 ==> id == BodyId(body))
      && r.response.task == Materialize(body, now).(id := id)
      && r.store.tasks == s.tasks[id := r.response.task]
      && r.store.nextId > id && r.store.nextId >= s.nextId
  {
    var errors := Errors(body);
    if errors != {} then
      Step(s, ValidationProblem(errors))
    else
      var item := Materialize(body, now);
      var key := if item.id == 0 then s.nextId else item.id;
      if key in s.tasks then
        Step(s, ServerError(InternalErrorMessage))
      else
        var stored := item.(id := key);
        var next := if key >= s.nextId then key + 1 else s.nextId;
        Step(Store(s.tasks[key := stored], next), Created(key, stored))
  }

  /** PUT /api/task/{id}. Checked in this order: validation, then route id
      against body id, then existence. On success only Title, Description,
      IsCompleted and DateUpdated of that one row change. */
  function Update(s: Store, id: int, body: TaskBody, now: Clock): (r: Step)
    requires s.Valid()
    ensures r.store.Valid()
    ensures r.response.ValidationProblem? <==> Errors(body) != {}
    ensures r.response.ValidationProblem? ==> r.response.fields == Errors(body)
    ensures r.response.BadRequest? <==> Errors(body) == {} && id != BodyId(body)
    ensures r.response.BadRequest? ==> r.response.message == IdMismatchMessage
    ensures r.response.NotFound? <==>
      Errors(body) == {} && id == BodyId(body) && id !in s.tasks
    ensures r.response.NotFound? ==> r.response.message == UpdateNotFoundMessage
    ensures r.response.OkMessage? <==>
      Errors(body) == {} && id == BodyId(body) && id in s.tasks
    ensures !r.response.OkMessage? ==> r.store == s
    ensures r.response.OkMessage? ==>
      && r.response.message == UpdatedMessage
      && r.store.nextId == s.nextId
      && r.store.tasks.Keys == s.tasks.Keys
      && (forall k :: k in s.tasks && k != id ==> r.store.tasks[k] == s.tasks[k])
      && var before, after := s.tasks[id], r.store.tasks[id];
      && after.id == before.id
      && after.dateCreated == before.dateCreated
      && after.title == body.title.value
      && after.description == body.description.value
      && after.isCompleted == body.isCompleted.GetOr(false)
      && after.dateUpdated == now
  {
    var errors := Errors(body);
    if errors != {} then
      Step(s, ValidationProblem(errors))
    else
      var update := Materialize(body, now);
      if id != update.id then
        Step(s, BadRequest(IdMismatchMessage))
      else
        match Find(s.tasks, id)
        case None => Step(s, NotFound(UpdateNotFoundMessage))
        case Some(task) =>
          var changed := task.(title := update.title, description := update.description,
                               isCompleted := update.isCompleted, dateUpdated := now);
          Step(s.(tasks := s.tasks[id := changed]), OkMessage(UpdatedMessage))
  }

  /** DELETE /api/task/{id}: removes exactly that row, or answers 404 and changes nothing. */
  function Delete(s: Store, id: int): (r: Step)
    requires s.Valid()
    ensures r.store.Valid()
    ensures r.response.OkMessage? <==> id in s.tasks
    ensures r.response.OkMessage? ==> r.response.message == DeletedMessage
    ensures !r.response.OkMessage? ==> r == Step(s, NotFound(DeleteNotFoundMessage))
    ensures r.response.OkMessage? ==>
      && r.store.nextId == s.nextId
      && r.store.tasks.Keys == s.tasks.Keys - {id}
      && (forall k :: k in r.store.tasks ==> r.store.tasks[k] == s.tasks[k])
  {
    match Find(s.tasks, id)
    case None => Step(s, NotFound(DeleteNotFoundMessage))
    case Some(_) => Step(s.(tasks := s.tasks - {id}), OkMessage(DeletedMessage))
  }

  /** A request to the controller. */
  datatype Request =
    | ListRequest
    | GetRequest(id: int)
    | PostRequest(body: TaskBody)
    | PutRequest(id: int, body: TaskBody)
    | DeleteRequest(id: int)

  /** A request together with the clock reading at which it is served. */
  datatype Timed = Timed(request: Request, at: Clock)

  /** The table after serving one request. */
  function Next(s: Store, t: Timed): (r: Store)
    requires s.Valid()
    ensures r.Valid()
    ensures r.nextId >= s.nextId
  {
    match t.request
    case ListRequest => s
    case GetRequest(_) => s
    case PostRequest(body) => Create(s, body, t.at).store
    case PutRequest(id, body) => Update(s, id, body, t.at).store
    case DeleteRequest(id) => Delete(s, id).store
  }

  /** The table after serving requests one after another. */
  function Run(s: Store, trace: seq<Timed>): (r: Store)
    requires s.Valid()
    ensures r.Valid()
    ensures r.nextId >= s.nextId
    decreases |trace|
  {
    if trace == [] then s else Run(Next(s, trace[0]), trace[1..])
  }
}
