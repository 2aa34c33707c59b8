/** The task record (`TaskItem`) and what model binding does to a request body
    before an action sees it: `[Required]` validation of Title and Description
    and the property defaults of IsCompleted, DateCreated and DateUpdated. */
module Model {

  /** A JSON member that is present, or absent. For the string members an explicit
      `null` binds the same way as absence. */
  datatype Option<T> = None | Some(value: T) {
    function GetOr(default: T): T {
      if Some? then value else default
    }
  }

  /** One reading of the server clock (`DateTime.Now`), abstracted to a tick count. */
  type Clock = nat

  /** The properties marked `[Required]`: the keys of a validation problem. */
  datatype Field = Title | Description

  /** A request body as it arrives: every member may be missing. */
  datatype TaskBody = TaskBody(
    id: Option<int>,
    title: Option<string>,
    description: Option<string>,
    isCompleted: Option<bool>,
    dateCreated: Option<Clock>,
    dateUpdated: Option<Clock>)

  /** A stored task; `id` is the table key. */
  datatype TaskItem = TaskItem(
    id: int,
    title: string,
    description: string,
    isCompleted: bool,
    dateCreated: Clock,
    dateUpdated: Clock)
  {
    /** Both required strings carry text. */
    predicate Valid() {
      HasText(title) && HasText(description)
    }
  }

  /** The characters `char.IsWhiteSpace` accepts: the controls U+0009 to U+000D
      and U+0085, and the space, line and paragraph separators. */
  predicate IsWhiteSpace(c: char) {
    var n := c as int;
    || (0x09 <= n <= 0x0D) || n == 0x20 || n == 0x85 || n == 0xA0 || n == 0x1680
    || (0x2000 <= n <= 0x200A) || n == 0x2028 || n == 0x2029 || n == 0x202F
    || n == 0x205F || n == 0x3000
  }

  /** What `[Required]` accepts of a non-null string: not `string.IsNullOrWhiteSpace`. */
  predicate HasText(s: string) {
    exists i :: 0 <= i < |s| && !IsWhiteSpace(s[i])
  }

  /** A `[Required]` member passes when it is present and has text. */
  predicate RequiredPresent(o: Option<string>) {
    o.Some? && HasText(o.value)
  }

  /** The fields model validation reports for a body (`ModelState` errors). */
  function Errors(body: TaskBody): (r: set<Field>)
    ensures Title in r <==> !RequiredPresent(body.title)
    ensures Description in r <==> !RequiredPresent(body.description)
    ensures r == {} <==> RequiredPresent(body.title) && RequiredPresent(body.description)
  {
    (if RequiredPresent(body.title) then {} else {Title})
    + (if RequiredPresent(body.description) then {} else {Description})
  }

  /** The `TaskItem` model binding builds from a body that validates: members that
      are absent take the property defaults (Id 0, IsCompleted false, both dates
      the clock reading of the request). */
  function Materialize(body: TaskBody, now: Clock): (t: TaskItem)
    requires Errors(body) == {}
    ensures t.Valid()
    ensures t.title == body.title.value && t.description == body.description.value
    ensures body.id.None? ==> t.id == 0
    ensures body.id.Some? ==> t.id == body.id.value
    ensures body.isCompleted.None? ==> !t.isCompleted
    ensures body.isCompleted.Some? ==> t.isCompleted == body.isCompleted.value
    ensures body.dateCreated.None? ==> t.dateCreated == now
    ensures body.dateCreated.Some? ==> t.dateCreated == body.dateCreated.value
    ensures body.dateUpdated.None? ==> t.dateUpdated == now
    ensures body.dateUpdated.Some? ==> t.dateUpdated == body.dateUpdated.value
  {
    TaskItem(
      body.id.GetOr(0),
      body.title.value,
      body.description.value,
      body.isCompleted.GetOr(false),
      body.dateCreated.GetOr(now),
      body.dateUpdated.GetOr(now))
  }

  /** The JSON a client sends back for a task it holds: every member present. */
  function ToBody(t: TaskItem): TaskBody {
    TaskBody(Some(t.id), Some(t.title), Some(t.description),
             Some(t.isCompleted), Some(t.dateCreated), Some(t.dateUpdated))
  }

  /** Serialising a valid task and binding it again gives the same task, whatever
      the clock: no default overrides a member that is present. */
  lemma BodyRoundTrip(t: TaskItem, now: Clock)
    requires t.Valid()
    ensures Errors(ToBody(t)) == {}
    ensures Materialize(ToBody(t), now) == t
  {
  }

  /** A body validates exactly when binding it yields a task that is `Valid()`:
      an item lacking Title or Description, or holding only white space there, is invalid. */
  lemma ValidIffNoErrors(body: TaskBody, now: Clock)
    requires body.title.Some? && body.description.Some?
    ensures Errors(body) == {} <==>
      TaskItem(0, body.title.value, body.description.value, false, now, now).Valid()
  {
  }

  /** Text consisting only of white space, the empty string included, is refused. */
  lemma BlankIsRefused(s: string)
    requires forall i :: 0 <= i < |s| ==> IsWhiteSpace(s[i])
    ensures !HasText(s)
    ensures Title in Errors(TaskBody(None, Some(s), None, None, None, None))
  {
  }
}
