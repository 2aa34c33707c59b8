/** What the actions promise together: what a later read sees after a write,
    what survives any sequence of requests, and the request sequence the
    backend is expected to serve end to end. */
module Properties {
  import opened Model
  import opened Actions

  /** The body the task form posts: a title and a description, nothing else. */
  function FormBody(title: string, description: string): TaskBody {
    TaskBody(None, Some(title), Some(description), None, None, None)
  }

  /** The key identifies the task: no two stored rows carry the same Id. */
  lemma KeyIdentifiesTask(s: Store, k1: int, k2: int)
    requires s.Valid()
    requires k1 in s.tasks && k2 in s.tasks
    requires s.tasks[k1].id == s.tasks[k2].id
    ensures k1 == k2
  {
  }

  /** A valid create without an id stores the bound item under a fresh generated
      key, a following read returns it, and every row already there reads as before. */
  lemma CreateThenGet(s: Store, body: TaskBody, now: Clock)
    requires s.Valid()
    requires Errors(body) == {} && BodyId(body) == 0
    ensures var st := Create(s, body, now);
      && st.response == Created(s.nextId, Materialize(body, now).(id := s.nextId))
      && Get(st.store, s.nextId) == OkTask(st.response.task)
      && (forall k :: k in s.tasks ==> Get(st.store, k) == Get(s, k))
  {
  }

  /** A task posted by the form starts pending, with both dates at the clock. */
  lemma FormCreateDefaults(s: Store, title: string, description: string, now: Clock)
    requires s.Valid()
    requires HasText(title) && HasText(description)
    ensures var st := Create(s, FormBody(title, description), now);
      && st.response.Created?
      && st.response.task == TaskItem(s.nextId, title, description, false, now, now)
  {
  }

  /** A deleted task reads as not found, and every other task reads as before. */
  lemma DeleteThenGet(s: Store, id: int)
    requires s.Valid()
    requires id in s.tasks
    ensures var st := Delete(s, id);
      && Get(st.store, id) == NotFound(GetNotFoundMessage)
      && (forall k :: k != id ==> Get(st.store, k) == Get(s, k))
  {
  }

  /** The list view's toggle sends the whole task back with IsCompleted flipped:
      the update succeeds and the stored row differs from before only in
      IsCompleted and DateUpdated. */
  lemma ToggleCompleted(s: Store, id: int, now: Clock)
    requires s.Valid()
    requires id in s.tasks
    ensures var t := s.tasks[id];
      var st := Update(s, id, ToBody(t.(isCompleted := !t.isCompleted)), now);
      && st.response == OkMessage(UpdatedMessage)
      && Get(st.store, id) == OkTask(t.(isCompleted := !t.isCompleted, dateUpdated := now))
  {
  }

  /** Sending a task back unchanged rewrites nothing but its DateUpdated. */
  lemma UpdateWithSameTask(s: Store, id: int, now: Clock)
    requires s.Valid()
    requires id in s.tasks
    ensures var st := Update(s, id, ToBody(s.tasks[id]), now);
      && st.response == OkMessage(UpdatedMessage)
      && st.store.tasks == s.tasks[id := s.tasks[id].(dateUpdated := now)]
  {
  }

  /** A body whose id differs from the route id is refused before the lookup:
      the answer is the same whether or not the route id is stored. */
  lemma MismatchIgnoresExistence(s: Store, id: int, body: TaskBody, now: Clock)
    requires s.Valid()
    requires Errors(body) == {} && id != BodyId(body)
    ensures Update(s, id, body, now).response == Update(s.(tasks := s.tasks - {id}), id, body, now).response
    ensures Update(s, id, body, now) == Step(s, BadRequest(IdMismatchMessage))
  {
  }

  /** Listing a table of one task yields exactly that task. */
  lemma ListOfOne(items: seq<TaskItem>, k: int, t: TaskItem)
    requires Lists(items, map[k := t])
    ensures items == [t]
  {
  }

  /** After one create on the empty table, the list holds exactly the created task. */
  lemma ListAfterOneCreate(body: TaskBody, now: Clock, items: seq<TaskItem>)
    requires Errors(body) == {}
    requires Lists(items, Create(Empty, body, now).store.tasks)
    ensures Create(Empty, body, now).response.Created?
    ensures items == [Create(Empty, body, now).response.task]
  {
  }

  /** A task stays stored, under its own id and with its DateCreated, through any
      requests that do not delete it: no other request removes it, and neither
      a create nor an update rewrites its key or creation date. */
  lemma {:induction false} TaskPersists(s: Store, trace: seq<Timed>, k: int)
    requires s.Valid()
    requires k in s.tasks
    requires forall i :: 0 <= i < |trace| ==> trace[i].request != DeleteRequest(k)
    ensures k in Run(s, trace).tasks
    ensures Run(s, trace).tasks[k].id == k
    ensures Run(s, trace).tasks[k].dateCreated == s.tasks[k].dateCreated
    decreases |trace|
  {
    if trace != [] {
      var s' := Next(s, trace[0]);
      assert k in s'.tasks && s'.tasks[k].dateCreated == s.tasks[k].dateCreated by {
        match trace[0].request
        case ListRequest =>
        case GetRequest(_) =>
        case PostRequest(body) =>
        case PutRequest(id, body) =>
        case DeleteRequest(id) =>
      }
      assert forall i :: 0 <= i < |trace[1..]| ==> trace[1..][i] == trace[i + 1];
      TaskPersists(s', trace[1..], k);
    }
  }

  /** A generated key is never one that was held before: after any requests, a
      create without an id gets a key above every key stored at the start,
      deleted ones included. */
  lemma GeneratedKeyNeverReused(s: Store, trace: seq<Timed>, body: TaskBody, now: Clock)
    requires s.Valid()
    requires Errors(body) == {} && BodyId(body) == 0
    ensures var st := Create(Run(s, trace), body, now);
      && st.response.Created?
      && st.response.id >= s.nextId
      && st.response.id !in s.tasks
  {
  }

  /** Every stored task was created no later than it was last updated, and no
      later than the clock. */
  ghost predicate DatesOrdered(s: Store, now: Clock) {
    forall k :: k in s.tasks ==>
      s.tasks[k].dateCreated <= s.tasks[k].dateUpdated <= now
  }

  /** A create whose body leaves both dates to their defaults. */
  predicate ClockDated(r: Request) {
    r.PostRequest? ==> r.body.dateCreated.None? && r.body.dateUpdated.None?
  }

  /** The clock reading after serving a trace. */
  function ClockAfter(now: Clock, trace: seq<Timed>): Clock {
    if trace == [] then now else trace[|trace| - 1].at
  }

  /** One request served at a clock no earlier than the last keeps the dates
      ordered, provided a create leaves the dates to the clock. */
  lemma NextKeepsDatesOrdered(s: Store, t: Timed, now: Clock)
    requires s.Valid() && DatesOrdered(s, now)
    requires now <= t.at && ClockDated(t.request)
    ensures DatesOrdered(Next(s, t), t.at)
  {
  }

  /** With a clock that never runs backwards and creates that leave the dates to
      the clock, DateUpdated never precedes DateCreated. */
  lemma {:induction false} RunKeepsDatesOrdered(s: Store, trace: seq<Timed>, now: Clock)
    requires s.Valid() && DatesOrdered(s, now)
    requires forall i :: 0 <= i < |trace| ==> ClockDated(trace[i].request)
    requires forall i :: 0 <= i < |trace| ==> now <= trace[i].at
    requires forall i, j :: 0 <= i < j < |trace| ==> trace[i].at <= trace[j].at
    ensures DatesOrdered(Run(s, trace), ClockAfter(now, trace))
    decreases |trace|
  {
    if trace != [] {
      NextKeepsDatesOrdered(s, trace[0], now);
      var rest := trace[1..];
      assert forall i :: 0 <= i < |rest| ==> rest[i] == trace[i + 1];
      RunKeepsDatesOrdered(Next(s, trace[0]), rest, trace[0].at);
      assert ClockAfter(trace[0].at, rest) == ClockAfter(now, trace);
    }
  }

  /** A create carrying its own dates stores them as given, so a client can
      store a task whose DateUpdated precedes its DateCreated. */
  lemma ClientDatesAreStored(title: string, description: string, now: Clock)
    requires HasText(title) && HasText(description)
    ensures var body := TaskBody(None, Some(title), Some(description), None, Some(5), Some(3));
      var st := Create(Empty, body, now);
      && st.response.Created?
      && st.response.task.dateCreated > st.response.task.dateUpdated
  {
  }

  /** The clock is read afresh for each request and may run backwards: an update
      served at an earlier reading than the create stores a task whose
      DateUpdated precedes its DateCreated. */
  lemma ClockBackwardsBreaksOrder()
    ensures var c := Create(Empty, FormBody("T", "D"), 10);
      var u := Update(c.store, 1, TaskBody(Some(1), Some("T"), Some("D"), None, None, None), 4);
      && c.response.Created? && c.response.id == 1
      && u.response == OkMessage(UpdatedMessage)
      && u.store.tasks[1].dateCreated == 10
      && u.store.tasks[1].dateUpdated == 4
  {
    assert !IsWhiteSpace("T"[0]) && !IsWhiteSpace("D"[0]);
  }

  /** A deleted key is free again: a create that sends the deleted task's id is
      stored under that same key, so ids are unique among stored tasks but may
      be reused over time. */
  lemma ExplicitIdReusesDeletedKey(s: Store, body: TaskBody, now: Clock, title: string, description: string)
    requires s.Valid()
    requires Errors(body) == {} && BodyId(body) == 0
    requires HasText(title) && HasText(description)
    ensures var c := Create(s, body, now);
      var d := Delete(c.store, c.response.id);
      var again := TaskBody(Some(c.response.id), Some(title), Some(description), None, None, None);
      var r := Create(d.store, again, now);
      && c.response.Created?
      && d.response == OkMessage(DeletedMessage)
      && r.response.Created?
      && r.response.id == c.response.id
      && Get(r.store, c.response.id) == OkTask(r.response.task)
  {
  }

  /** A title with no text is refused with a validation problem on Title alone,
      and nothing is added. */
  lemma EmptyTitleRejected(s: Store, now: Clock)
    requires s.Valid()
    ensures Create(s, FormBody("", "B"), now) == Step(s, ValidationProblem({Title}))
  {
    assert !IsWhiteSpace("B"[0]);
  }

  /** The end-to-end run: create "A"/"B", read it, complete it as "A2", delete
      it, read it again. */
  lemma Scenario(t0: Clock, t1: Clock)
    requires t0 < t1
    ensures var c := Create(Empty, FormBody("A", "B"), t0);
      && c.response == Created(1, TaskItem(1, "A", "B", false, t0, t0))
      && Get(c.store, 1) == OkTask(TaskItem(1, "A", "B", false, t0, t0))
      && var u := Update(c.store, 1, TaskBody(Some(1), Some("A2"), Some("B"), Some(true), None, None), t1);
      && u.response == OkMessage(UpdatedMessage)
      && Get(u.store, 1) == OkTask(TaskItem(1, "A2", "B", true, t0, t1))
      && u.store.tasks[1].dateUpdated != c.store.tasks[1].dateUpdated
      && var d := Delete(u.store, 1);
      && d.response == OkMessage(DeletedMessage)
      && Get(d.store, 1) == NotFound(GetNotFoundMessage)
  {
    assert !IsWhiteSpace("A"[0]) && !IsWhiteSpace("B"[0]) && !IsWhiteSpace("A2"[0]);
  }
}
