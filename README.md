# Task store of the task-management backend, in Dafny

This project models the backend's `TaskController` and the `TaskItem` record
it stores. The backend serves five REST actions over one table of tasks:

- list, GET /api/task
- get, GET /api/task/{id}
- create, POST /api/task
- update, PUT /api/task/{id}
- delete, DELETE /api/task/{id}

The model has four parts.

- `Model` (`model.dfy`) holds the record and what model binding does to a request body before an action runs.
  - `[Required]` validation of Title and Description. As `RequiredAttribute` does, it refuses a null or white-space-only string (a member missing from the JSON is refused earlier, by the C# `required` keyword during deserialization, and is modelled as the same validation problem); white space is the set `char.IsWhiteSpace` accepts.
  - The property defaults: IsCompleted false, both dates the request's clock reading, Id 0.
- `Actions` (`actions.dfy`) describes each action as a pure transition over a value of the table: a map from key to task plus the next generated key.
  - It defines the action results and the source's message constants.
  - `Next` and `Run` serve a request, or a sequence of requests, against the table.
- `Controllers` (`controller.dfy`) holds the class `TaskController`.
  - Its fields are the table (`map<int, TaskItem>`) and the next generated key.
  - Its methods change the table in place: insert, rewrite one row, remove.
  - The postconditions of `GetTask`, `CreateTask`, `UpdateTask` and `DeleteTask` tie the result and the new table to the matching transition in `Actions`; `GetTasks` is specified by the `Lists` predicate and changes nothing.
  - `GetTasks` walks the table's keys in a loop and is proved to return every stored task exactly once.
- `Properties` (`properties.dfy`) states what the actions promise together.
  - What a read sees after a create, update or delete.
  - Check order on update.
  - What survives any sequence of requests.
  - Key freshness.
  - Date ordering.
  - The end-to-end create, get, update, delete, get sequence.

Abstractions:

- EF Core's `Find`, `Add`, `Remove` and `SaveChanges` are map lookup, insert and remove.
- `DateTime.Now` is a `Clock` (a tick count) passed in with each request.
- Each action is one atomic step.

Keys are generated as SQLite does for an autoincrementing key (the database is SQLite, `Program.cs:16-18`). A counter lies above every key ever used, so a generated key is never one that was held before, even a deleted one.

In these places the code's behaviour is not what a task API usually promises, and the model follows the code:

- Validation refuses white-space-only titles and descriptions, not only empty ones (`[Required]` semantics).
- A create stores the IsCompleted, DateCreated and DateUpdated the body carries. Only absent members take the defaults. So "DateUpdated never precedes DateCreated" holds only for creates that leave the dates to the clock, and only while the clock never runs backwards (`Properties.RunKeepsDatesOrdered`). `DateTime.Now` is local time: it repeats an hour when daylight saving ends and jumps when the system clock is reset. `Properties.ClientDatesAreStored` shows a create that breaks the order, and `Properties.ClockBackwardsBreaksOrder` an update at an earlier clock that does.
- A create whose body carries a non-zero Id asks the database to store that key. Entity Framework inserts the explicit key. It succeeds when the key is free, and otherwise fails with a duplicate-key error that the action's `catch` turns into a 500. Both outcomes are modelled.
- Ids can be reused. A deleted key is free, so a create that sends that id stores a new task under it (`Properties.ExplicitIdReusesDeletedKey`). Only generated keys are never reused.
- An update whose body omits IsCompleted sets it to false, because the bound body takes the default.

## Model

| member | source | states |
|---|---|---|
| Model.Errors | TaskManagementSystemBackend/TaskManagementSystemBackend/Model/TaskItem.cs:9-12 | Title (Description) is reported exactly when that member is absent, null or white space only; no error exactly when both pass |
| Model.Materialize | TaskManagementSystemBackend/TaskManagementSystemBackend/Model/TaskItem.cs:7-15 | a body that validates binds to a Valid item; absent Id is 0, absent IsCompleted is false, absent dates are the clock reading; present members are kept as sent |
| Model.BodyRoundTrip | TaskManagementSystemBackend/TaskManagementSystemBackend/Model/TaskItem.cs:7-15 | serialising a valid task with every member and binding it again yields the same task at any clock |
| Model.ValidIffNoErrors | TaskManagementSystemBackend/TaskManagementSystemBackend/Model/TaskItem.cs:9-12 | a body with both strings present validates exactly when the item it describes is Valid |
| Model.BlankIsRefused | TaskManagementSystemBackend/TaskManagementSystemBackend/Model/TaskItem.cs:9-10 | an empty or all-white-space title is refused and Title is among the errors |
| Actions.Get | TaskManagementSystemBackend/TaskManagementSystemBackend/Controllers/TaskController.cs:50-56 | 200 with the stored task (carrying the requested id) exactly when the id is stored, otherwise 404 "Task was not found." |
| Actions.Create | TaskManagementSystemBackend/TaskManagementSystemBackend/Controllers/TaskController.cs:69-86 | invalid body: validation problem listing the failing fields, table unchanged; valid body: Created under a key not stored before (the generated next key, or the body's own id), the bound item stored under it and nothing else changed; body id already stored: 500, table unchanged; the table invariant is kept |
| Actions.Update | TaskManagementSystemBackend/TaskManagementSystemBackend/Controllers/TaskController.cs:93-117 | validation first, then id mismatch (400), then lookup (404), each iff its condition, each leaving the table unchanged; on success exactly that row changes, keeping Id and DateCreated, with Title, Description, IsCompleted from the body and DateUpdated the clock |
| Actions.Delete | TaskManagementSystemBackend/TaskManagementSystemBackend/Controllers/TaskController.cs:134-143 | 404 and unchanged table exactly when the id is absent; otherwise 200 and exactly that key removed, all other rows as before |
| Actions.Next | TaskManagementSystemBackend/TaskManagementSystemBackend/Model/TaskItem.cs:7-12 | every action keeps the table invariant: each row stored under its own Id, Title and Description valid, keys below the next generated key, which never decreases |
| Actions.Run | TaskManagementSystemBackend/TaskManagementSystemBackend/Model/TaskItem.cs:7-12 | any sequence of requests keeps the table invariant and never lowers the next generated key |
| Controllers.TaskController.constructor | TaskManagementSystemBackend/TaskManagementSystemBackend/Program.cs:41-45 | the controller starts over the empty table `EnsureCreated` makes on the first start with a new database file |
| Controllers.TaskController.GetTasks | TaskManagementSystemBackend/TaskManagementSystemBackend/Controllers/TaskController.cs:28-34 | 204 exactly when no task is stored; otherwise 200 with a list of exactly the stored tasks, each once, under its own id |
| Controllers.TaskController.GetTask | TaskManagementSystemBackend/TaskManagementSystemBackend/Controllers/TaskController.cs:50-56 | answers as Actions.Get on the current table and changes nothing |
| Controllers.TaskController.CreateTask | TaskManagementSystemBackend/TaskManagementSystemBackend/Controllers/TaskController.cs:69-86 | the result and the new table are those of Actions.Create on the old table |
| Controllers.TaskController.UpdateTask | TaskManagementSystemBackend/TaskManagementSystemBackend/Controllers/TaskController.cs:93-117 | the result and the new table are those of Actions.Update on the old table |
| Controllers.TaskController.DeleteTask | TaskManagementSystemBackend/TaskManagementSystemBackend/Controllers/TaskController.cs:134-143 | the result and the new table are those of Actions.Delete on the old table |
| Properties.KeyIdentifiesTask | TaskManagementSystemBackend/TaskManagementSystemBackend/Model/TaskItem.cs:7-8 | two stored rows with the same Id are the same row |
| Properties.CreateThenGet | TaskManagementSystemBackend/TaskManagementSystemBackend/Controllers/TaskController.cs:77-80 | a valid create without id returns Created under the next key, a following get returns the created task, every earlier row reads as before |
| Properties.FormCreateDefaults | task-management-system-frontend/src/components/TaskForm.jsx:20 | a task posted with only title and description is created pending with both dates at the clock |
| Properties.DeleteThenGet | TaskManagementSystemBackend/TaskManagementSystemBackend/Controllers/TaskController.cs:134-143 | after deleting a stored id, get on it is 404 and every other id reads as before |
| Properties.ToggleCompleted | task-management-system-frontend/src/components/TaskList.jsx:81-90 | sending a stored task back with IsCompleted flipped succeeds and the row then differs only in IsCompleted and DateUpdated |
| Properties.UpdateWithSameTask | TaskManagementSystemBackend/TaskManagementSystemBackend/Controllers/TaskController.cs:110-113 | sending a stored task back unchanged rewrites only its DateUpdated |
| Properties.MismatchIgnoresExistence | TaskManagementSystemBackend/TaskManagementSystemBackend/Controllers/TaskController.cs:100-107 | with a valid body and mismatched ids the answer is 400 whether or not the route id is stored, and the table is unchanged |
| Properties.ListOfOne | TaskManagementSystemBackend/TaskManagementSystemBackend/Controllers/TaskController.cs:28-34 | the list of a one-row table is exactly that row |
| Properties.ListAfterOneCreate | TaskManagementSystemBackend/TaskManagementSystemBackend/Controllers/TaskController.cs:28-34 | after one valid create on the empty table, the list is exactly the created task |
| Properties.TaskPersists | TaskManagementSystemBackend/TaskManagementSystemBackend/Controllers/TaskController.cs:110-113 | through any requests that do not delete it, a stored task stays stored with the same Id and DateCreated |
| Properties.GeneratedKeyNeverReused | TaskManagementSystemBackend/TaskManagementSystemBackend/Controllers/TaskController.cs:77-78 | after any requests, a create without id gets a key at or above the initial next key, so never a key held at the start |
| Properties.NextKeepsDatesOrdered | TaskManagementSystemBackend/TaskManagementSystemBackend/Controllers/TaskController.cs:113 | one request at a later clock keeps DateCreated <= DateUpdated <= clock when a create leaves the dates to the clock |
| Properties.RunKeepsDatesOrdered | TaskManagementSystemBackend/TaskManagementSystemBackend/Model/TaskItem.cs:14-15 | with a non-decreasing clock and creates that leave the dates to the clock, DateCreated <= DateUpdated holds after any requests |
| Properties.ClientDatesAreStored | TaskManagementSystemBackend/TaskManagementSystemBackend/Model/TaskItem.cs:14-15 | a create carrying DateCreated 5 and DateUpdated 3 stores them, so DateUpdated can precede DateCreated |
| Properties.ClockBackwardsBreaksOrder | TaskManagementSystemBackend/TaskManagementSystemBackend/Controllers/TaskController.cs:113 | a task created at clock 10 and updated at clock 4 is stored with DateUpdated before DateCreated |
| Properties.ExplicitIdReusesDeletedKey | TaskManagementSystemBackend/TaskManagementSystemBackend/Controllers/TaskController.cs:77-80 | after a created task is deleted, a create sending that task's id is Created under the same key, so an id is reused |
| Properties.EmptyTitleRejected | TaskManagementSystemBackend/TaskManagementSystemBackend/Controllers/TaskController.cs:69-70 | a create with an empty title is a validation problem on Title alone and adds nothing |
| Properties.Scenario | TaskManagementSystemBackend/TaskManagementSystemBackend/Controllers/TaskController.cs:43-150 | create "A"/"B" gives Created id 1 pending; get returns it; update to "A2" completed at a later clock is acknowledged and DateUpdated moves from the creation clock to the update's clock; delete is acknowledged; get is 404 |

## Left out

- The 500 paths caused by database failures (`TaskController.cs` lines 36-40, 58-62, 82-86, 119-123, 145-149), except the duplicate explicit key on create, and all logging. Their partial state is unknown.
- Async execution and `SaveChangesAsync`. Each action is one atomic step, and requests do not interleave.
- Model binding failures other than `[Required]`: malformed JSON, wrong member types, ids outside `int`.
- Actions.Create: validation problems are keyed by field only. The ProblemDetails body and the exact ModelState keys are not modelled. A body missing a C# `required` member fails JSON deserialization as a whole, and is modelled as a validation problem on the missing fields.
- Actions.Create: keys are unbounded integers. The generated key overflowing `int` is not modelled.
- Real timestamps. A request reads the clock once. The source reads `DateTime.Now` separately for each default and again at line 113, which can differ by a tick.
- The order of the list. `ToListAsync` has no ordering, so `GetTasks` promises the stored tasks in some order.
- Controllers.TaskController.constructor: `EnsureCreated` keeps an existing database file and its rows; the constructor models only the first start on a new file. Every lemma holds for any valid table, so a restart over existing rows is covered by them.
- JSON `null` for a value-typed member (Id, IsCompleted, DateCreated, DateUpdated) fails deserialization with an automatic 400; the model reads such a member as absent and gives it its default. Only for Title and Description do `null` and absence bind the same way.
- `Program.cs` (host, dependency injection, CORS, Swagger, HTTPS) and `AppDbContext.cs` (the table is the map).
- The frontend components (`App.jsx`, `Tabs.jsx`, `TaskList.jsx`, `TaskForm.jsx`): UI state, HTTP calls, grid and timers. The "Completed"/"Pending" label, the local toggle and the form's empty-field guard are not modelled. The bodies the form and the toggle send appear only as `Properties.FormBody` and `Model.ToBody`.
