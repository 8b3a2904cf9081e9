/** The task record shared by the client and the store (src/types/Task.ts). */
module TaskModel {
  import opened Wrappers

  /** The three values of the `status` string-literal union. */
  datatype Status = Pending | InProgress | Completed

  /** A calendar date or timestamp. Only its identity matters to the client,
      so it is kept abstract as an integer. */
  type Date = int

  /** One task as the client receives it from the store. The field `_id` of
      the record is called `id` here. */
  datatype Task = Task(
    id: string,
    title: string,
    description: string,
    status: Status,
    dueDate: Option<Date>,
    createdAt: Date,
    updatedAt: Date)

  /** A `Partial<Task>`: every field of the record may be left out. */
  datatype TaskPatch = TaskPatch(
    id: Option<string>,
    title: Option<string>,
    description: Option<string>,
    status: Option<Status>,
    dueDate: Option<Date>,
    createdAt: Option<Date>,
    updatedAt: Option<Date>)

  /** The text by which a status travels in JSON and is shown in the badge:
      the literal of the union that the status stands for. */
  function StatusText(s: Status): (r: string)
    ensures s == Pending ==> r == "pending"
    ensures s == InProgress ==> r == "in-progress"
    ensures s == Completed ==> r == "completed"
  {
    match s
    case Pending => "pending"
    case InProgress => "in-progress"
    case Completed => "completed"
  }

  /** The inverse of `StatusText`: the literal of the union a text is, if
      any. The client never checks statuses it receives; this function only
      serves to show that the three literals name three distinct statuses. */
  function ParseStatus(text: string): (r: Option<Status>)
    ensures r.Some? ==> StatusText(r.value) == text
  {
    if text == "pending" then Some(Pending)
    else if text == "in-progress" then Some(InProgress)
    else if text == "completed" then Some(Completed)
    else None
  }

  /** Every status survives the trip to text and back. */
  lemma StatusTextRoundTrip(s: Status)
    ensures ParseStatus(StatusText(s)) == Some(s)
  {
  }

  /** Distinct statuses have distinct texts. */
  lemma StatusTextInjective(a: Status, b: Status)
    requires StatusText(a) == StatusText(b)
    ensures a == b
  {
    StatusTextRoundTrip(a);
    StatusTextRoundTrip(b);
  }
}
