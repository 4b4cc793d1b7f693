/** The records the tracker keeps: one per homework subject. */
module Subjects {
  import opened Wrappers

  /** The three values `status` takes (`'pending'`, `'unknown'`, `'submitted'`). */
  datatype Status = Pending | Unknown | Submitted

  /** One subject; the times are milliseconds since the epoch. */
  datatype Subject = Subject(
    id: int,
    name: string,
    dueDate: int,
    reminderDate: int,
    isNoLimit: bool,
    status: Status,
    submittedDate: Option<int>)

  /** The add form's draft (`newSubject`): what the user typed before pressing confirm. */
  datatype Draft = Draft(name: string, dueDate: int, reminderDate: int, isNoLimit: bool)

  /** No two subjects of the list share an id. */
  ghost predicate UniqueIds(s: seq<Subject>)
  {
    forall i, j :: 0 <= i < j < |s| ==> s[i].id != s[j].id
  }

  /** A submission time is recorded exactly when the subject is marked submitted. */
  ghost predicate Coherent(x: Subject)
  {
    x.submittedDate.Some? <==> x.status == Submitted
  }

  ghost predicate AllCoherent(s: seq<Subject>)
  {
    forall i :: 0 <= i < |s| ==> Coherent(s[i])
  }

  /** `b` is `a` with at most its status and submission time changed. */
  ghost predicate SameButStatus(a: Subject, b: Subject)
  {
    a.id == b.id && a.name == b.name && a.dueDate == b.dueDate &&
    a.reminderDate == b.reminderDate && a.isNoLimit == b.isNoLimit
  }
}
