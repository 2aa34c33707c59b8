/** `TaskController`: the five actions over the shared task table. The table is
    a field the actions read, insert into, rewrite one row of, or remove from. */
module Controllers {
  import opened Model
  import opened Actions

  /** Proof helper for `AnyKey`: a non-empty key set has an element. */
  lemma NonEmptyHasKey(keys: set<int>)
    requires keys != {}
    ensures exists k :: k in keys
  {
    if forall k :: k !in keys {
      assert false;
    }
  }

  /** Some element of a non-empty key set; which one is left open, as is the
      order in which the database returns rows. */
  method AnyKey(keys: set<int>) returns (k: int)
    requires keys != {}
    ensures k in keys
  {
    NonEmptyHasKey(keys);
    k :| k in keys;
  }

  class TaskController {
    /** The `Tasks` table, by key. */
    var tasks: map<int, TaskItem>
    /** The key the database generates for the next row added without one. */
    var nextId: int

    function State(): Store
      reads this
    {
      Store(tasks, nextId)
    }

    ghost predicate Valid()
      reads this
    {
      State().Valid()
    }

    /** A controller over a freshly created, empty database. */
    constructor ()
      ensures Valid()
      ensures State() == Empty
    {
      tasks := map[];
      nextId := 1;
    }

    /** GET /api/task: every stored task, or 204 when there is none. */
    method GetTasks() returns (r: Response)
      requires Valid()
      ensures r.NoContent? <==> tasks == map[]
      ensures r.NoContent? || r.OkList?
      ensures r.OkList? ==> Lists(r.items, tasks)
    {
      var items: seq<TaskItem> := [];
      var todo := tasks.Keys;
      while todo != {}
        invariant todo <= tasks.Keys
        invariant |items| + |todo| == |tasks|
        invariant forall i :: 0 <= i < |items| ==>
          items[i].id in tasks && items[i].id !in todo && tasks[items[i].id] == items[i]
        invariant forall i, j :: 0 <= i < j < |items| ==> items[i].id != items[j].id
        invariant forall k :: k in tasks && k !in todo ==>
          exists i :: 0 <= i < |items| && items[i] == tasks[k]
        decreases |todo|
      {
        var k := AnyKey(todo);
        ghost var prefix := items;
        items := items + [tasks[k]];
        assert items[|prefix|] == tasks[k];
        forall k' | k' in tasks && k' !in todo
          ensures exists i :: 0 <= i < |items| && items[i] == tasks[k']
        {
          var i :| 0 <= i < |prefix| && prefix[i] == tasks[k'];
          assert items[i] == tasks[k'];
        }
        todo := todo - {k};
      }
      if items == [] {
        r := NoContent;
      } else {
        r := OkList(items);
      }
    }

    /** GET /api/task/{id}. */
    method GetTask(id: int) returns (r: Response)
      requires Valid()
      ensures r == Get(State(), id)
    {
      var task := Find(tasks, id);
      if task.None? {
        return NotFound(GetNotFoundMessage);
      }
      return OkTask(task.value);
    }

    /** POST /api/task. */
    method CreateTask(body: TaskBody, now: Clock) returns (r: Response)
      requires Valid()
      modifies this
      ensures Valid()
      ensures Step(State(), r) == Create(old(State()), body, now)
    {
      var errors := Errors(body);
      if errors != {} {
        return ValidationProblem(errors);
      }
      var item := Materialize(body, now);
      var key := item.id;
      if key == 0 {
        key := nextId;
      }
      if key in tasks {
        return ServerError(InternalErrorMessage);
      }
      item := item.(id := key);
      tasks := tasks[key := item];
      if key >= nextId {
        nextId := key + 1;
      }
      r := Created(key, item);
    }

    /** PUT /api/task/{id}. */
    method UpdateTask(id: int, body: TaskBody, now: Clock) returns (r: Response)
      requires Valid()
      modifies this
      ensures Valid()
      ensures Step(State(), r) == Update(old(State()), id, body, now)
    {
      var errors := Errors(body);
      if errors != {} {
        return ValidationProblem(errors);
      }
      var update := Materialize(body, now);
      if id != update.id {
        return BadRequest(IdMismatchMessage);
      }
      var task := Find(tasks, id);
      if task.None? {
        return NotFound(UpdateNotFoundMessage);
      }
      var row := task.value;
      row := row.(title := update.title);
      row := row.(description := update.description);
      row := row.(isCompleted := update.isCompleted);
      row := row.(dateUpdated := now);
      tasks := tasks[id := row];
      r := OkMessage(UpdatedMessage);
    }

    /** DELETE /api/task/{id}. */
    method DeleteTask(id: int) returns (r: Response)
      requires Valid()
      modifies this
      ensures Valid()
      ensures Step(State(), r) == Delete(old(State()), id)
    {
      var task := Find(tasks, id);
      if task.None? {
        return NotFound(DeleteNotFoundMessage);
      }
      tasks := tasks - {id};
      r := OkMessage(DeletedMessage);
    }
  }
}
